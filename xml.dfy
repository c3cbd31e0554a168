/**
 * The XML input as the parser sees it: a sequence of tokens produced by a
 * namespace-aware streaming reader, read through a cursor. The reader stops
 * for good at the end of the sequence or once it has met malformed input.
 */
module Xml {
  import opened Text

  /** An attribute: its local name and its (already unescaped) value. */
  datatype Attr = Attr(name: string, value: string)

  /** One token of the stream. Names are local names; `ns` is the namespace URI. */
  datatype Token =
    | StartElement(ns: string, name: string, attrs: seq<Attr>)
    | EndElement(ns: string, name: string)
    | Characters(text: string)
    | Ignorable   // a comment or a processing instruction
    | Invalid     // the point where the reader detects malformed input

  /** Where the reader stands: the index of the next token, and whether an error was raised. */
  datatype Cursor = Cursor(pos: nat, error: bool)

  /** The reader has nothing more to deliver: the input is exhausted or an error was raised. */
  predicate Ended(toks: seq<Token>, c: Cursor) {
    c.error || c.pos >= |toks|
  }

  /** Reads one token; reading an `Invalid` token raises the error. */
  function Next(toks: seq<Token>, c: Cursor): (Token, Cursor)
    requires !Ended(toks, c)
  {
    (toks[c.pos], Cursor(c.pos + 1, toks[c.pos].Invalid?))
  }

  /** The value of the first attribute called `key`, or the empty string when there is none. */
  function AttrValue(attrs: seq<Attr>, key: string): (v: string)
    ensures v != [] ==> Attr(key, v) in attrs
    ensures (forall a :: a in attrs ==> a.name != key) ==> v == []
  {
    if attrs == [] then []
    else if attrs[0].name == key then attrs[0].value
    else AttrValue(attrs[1..], key)
  }

  /**
   * The text of the element whose start tag was just read, accumulated in
   * `acc`: character data is concatenated, comments are skipped, and the
   * first end tag finishes the text. A nested start tag, malformed input or
   * the end of the input raise the error and yield the text so far.
   */
  function ElementTextFrom(toks: seq<Token>, c: Cursor, acc: string): (r: (string, Cursor))
    requires c.pos <= |toks|
    ensures c.pos <= r.1.pos <= |toks|
    decreases |toks| - c.pos
  {
    if c.error then (acc, c)
    else if c.pos == |toks| then (acc, Cursor(c.pos, true))
    else
      var (tok, c1) := Next(toks, c);
      match tok
      case Characters(t) => ElementTextFrom(toks, c1, acc + t)
      case Ignorable => ElementTextFrom(toks, c1, acc)
      case EndElement(_, _) => (acc, c1)
      case StartElement(_, _, _) => (acc, c1.(error := true))
      case Invalid => (acc, c1)
  }

  /** `readElementText` with its default behaviour of rejecting child elements. */
  function ElementText(toks: seq<Token>, c: Cursor): (string, Cursor)
    requires c.pos <= |toks|
  {
    ElementTextFrom(toks, c, [])
  }

  /** The text of an element holds its character data, and reading stops right after its end tag. */
  lemma ElementTextOfChars(toks: seq<Token>, p: nat, t: string, ns: string, name: string)
    requires p + 2 <= |toks| && toks[p] == Characters(t) && toks[p + 1] == EndElement(ns, name)
    ensures ElementText(toks, Cursor(p, false)) == (t, Cursor(p + 2, false))
  {
    assert [] + t == t;
    assert ElementTextFrom(toks, Cursor(p + 1, false), t) == (t, Cursor(p + 2, false));
  }

  /** An element without character data has the empty text. */
  lemma ElementTextOfEmpty(toks: seq<Token>, p: nat, ns: string, name: string)
    requires p < |toks| && toks[p] == EndElement(ns, name)
    ensures ElementText(toks, Cursor(p, false)) == ([], Cursor(p + 1, false))
  {
  }

  /** Reading element text never goes past the first end tag after the cursor. */
  lemma {:induction false} ElementTextBounded(toks: seq<Token>, c: Cursor, acc: string, e: nat)
    requires c.pos <= e < |toks| && toks[e].EndElement?
    ensures ElementTextFrom(toks, c, acc).1.pos <= e + 1
    decreases e - c.pos
  {
    if !c.error && c.pos < e {
      var (tok, c1) := Next(toks, c);
      match tok
      case Characters(t) => ElementTextBounded(toks, c1, acc + t, e);
      case Ignorable => ElementTextBounded(toks, c1, acc, e);
      case EndElement(_, _) =>
      case StartElement(_, _, _) =>
      case Invalid =>
    }
  }

  /** A slice of a slice. */
  lemma SubSlice(toks: seq<Token>, p: nat, s: seq<Token>, i: nat, j: nat)
    requires p + |s| <= |toks| && toks[p..p + |s|] == s && i <= j <= |s|
    ensures toks[p + i..p + j] == s[i..j]
  {
    forall k | i <= k < j ensures s[k] == toks[p + k] {
      assert toks[p..p + |s|][k] == toks[p + k];
    }
  }

  /** An element of a slice. */
  lemma SliceAt(toks: seq<Token>, p: nat, s: seq<Token>, i: nat)
    requires p + |s| <= |toks| && toks[p..p + |s|] == s && i < |s|
    ensures toks[p + i] == s[i]
  {
    assert toks[p..p + |s|][i] == toks[p + i];
  }

  /** The streaming reader: a fixed token sequence and a cursor that only moves forward. */
  class XmlReader {
    const tokens: seq<Token>
    var pos: nat
    var error: bool

    constructor (toks: seq<Token>)
      ensures tokens == toks && pos == 0 && !error
    {
      tokens := toks;
      pos := 0;
      error := false;
    }

    /** The cursor of this reader. */
    function At(): Cursor
      reads this
    {
      Cursor(pos, error)
    }

    predicate Valid()
      reads this
    {
      pos <= |tokens|
    }

    /** `atEnd`: true at the end of the input and after an error. */
    predicate AtEnd()
      reads this
    {
      Ended(tokens, At())
    }

    /** `readNext`: delivers the next token. */
    method ReadNext() returns (tok: Token)
      requires Valid() && !AtEnd()
      modifies this
      ensures Valid() && (tok, At()) == Next(tokens, old(At()))
    {
      tok := tokens[pos];
      pos := pos + 1;
      error := tok.Invalid?;
    }

    /** `readElementText`, called right after a start tag. */
    method ReadElementText() returns (text: string)
      requires Valid()
      modifies this
      ensures Valid() && (text, At()) == ElementText(tokens, old(At()))
    {
      text := [];
      while true
        invariant Valid()
        invariant ElementText(tokens, old(At())) == ElementTextFrom(tokens, At(), text)
        decreases |tokens| - pos
      {
        if error {
          return;
        }
        if pos == |tokens| {
          // the input ends inside the element
          error := true;
          return;
        }
        var tok := ReadNext();
        match tok {
          case Characters(t) =>
            text := text + t;
          case Ignorable =>
          case EndElement(_, _) =>
            return;
          case StartElement(_, _, _) =>
            // a child element where character data was expected
            error := true;
            return;
          case Invalid =>
            return;
        }
      }
    }
  }
}
