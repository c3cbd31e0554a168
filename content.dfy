/**
 * Re-serialisation of an XHTML value (`readXhtmlContent`): the tokens of the
 * subtree under THE-VALUE are written back as markup, up to the end tag that
 * closes THE-VALUE itself.
 */
module Content {
  import opened Xml

  /** The text written for one attribute of a start tag: ` name="value"`, the value unescaped. */
  function AttrText(a: Attr): string {
    " " + a.name + "=\"" + a.value + "\""
  }

  /** The text written for the attributes of a start tag. */
  function AttrsText(attrs: seq<Attr>): string {
    if attrs == [] then [] else AttrText(attrs[0]) + AttrsText(attrs[1..])
  }

  /** Writing the attributes one at a time, as the re-serialising loop does, gives the same text. */
  lemma {:induction false} AttrsTextSnoc(attrs: seq<Attr>, a: Attr)
    ensures AttrsText(attrs + [a]) == AttrsText(attrs) + AttrText(a)
    decreases |attrs|
  {
    if attrs == [] {
      assert [] + [a] == [a];
    } else {
      assert (attrs + [a])[1..] == attrs[1..] + [a];
      AttrsTextSnoc(attrs[1..], a);
      var x, y, z := AttrText(attrs[0]), AttrsText(attrs[1..]), AttrText(a);
      assert x + (y + z) == (x + y) + z;
    }
  }

  function OpenTag(name: string, attrs: seq<Attr>): string {
    "<" + name + AttrsText(attrs) + ">"
  }

  function CloseTag(name: string): string {
    "</" + name + ">"
  }

  /**
   * The re-serialising loop at nesting `depth`, with `acc` written so far:
   * a start tag deepens and is written, an end tag rises and is written
   * unless it closes the outermost element, character data is copied and
   * every other token is dropped. The loop stops at depth 0 or when the
   * reader has ended.
   */
  function ContentFrom(toks: seq<Token>, c: Cursor, depth: int, acc: string): (r: (string, Cursor))
    requires c.pos <= |toks|
    ensures c.pos <= r.1.pos <= |toks|
    decreases |toks| - c.pos
  {
    if Ended(toks, c) || depth <= 0 then (acc, c)
    else
      var (tok, c1) := Next(toks, c);
      match tok
      case StartElement(_, name, attrs) => ContentFrom(toks, c1, depth + 1, acc + OpenTag(name, attrs))
      case EndElement(_, name) =>
        ContentFrom(toks, c1, depth - 1, if depth - 1 > 0 then acc + CloseTag(name) else acc)
      case Characters(t) => ContentFrom(toks, c1, depth, acc + t)
      case Ignorable => ContentFrom(toks, c1, depth, acc)
      case Invalid => ContentFrom(toks, c1, depth, acc)
  }

  /** `readXhtmlContent`, called right after the start tag of THE-VALUE. */
  function XhtmlContent(toks: seq<Token>, c: Cursor): (string, Cursor)
    requires c.pos <= |toks|
  {
    ContentFrom(toks, c, 1, [])
  }

  // ---------------------------------------------------------------------
  // Nesting depth of token sequences

  /** How much a token changes the nesting depth. */
  function Delta(tok: Token): int {
    match tok
    case StartElement(_, _, _) => 1
    case EndElement(_, _) => -1
    case _ => 0
  }

  /** The net change of nesting depth over a token sequence. */
  function NetDepth(s: seq<Token>): int {
    if s == [] then 0 else Delta(s[0]) + NetDepth(s[1..])
  }

  lemma {:induction false} NetDepthAppend(a: seq<Token>, b: seq<Token>)
    ensures NetDepth(a + b) == NetDepth(a) + NetDepth(b)
    decreases |a|
  {
    if a == [] {
      assert a + b == b;
    } else {
      assert (a + b)[1..] == a[1..] + b;
      NetDepthAppend(a[1..], b);
    }
  }

  /** A well-nested token sequence: it returns to its starting depth and never rises above it. */
  predicate Balanced(s: seq<Token>) {
    NetDepth(s) == 0 && forall k :: 0 <= k <= |s| ==> NetDepth(s[..k]) >= 0
  }

  /** In a well-nested sequence every suffix closes at least as much as it opens. */
  lemma SuffixNotAbove(s: seq<Token>, q: nat)
    requires Balanced(s) && q <= |s|
    ensures NetDepth(s[q..]) <= 0
  {
    assert s == s[..q] + s[q..];
    NetDepthAppend(s[..q], s[q..]);
  }

  /** A sequence that closes more than it opens holds an end tag. */
  lemma {:induction false} ClosingHasEnd(s: seq<Token>) returns (k: nat)
    requires NetDepth(s) < 0
    ensures k < |s| && s[k].EndElement?
    decreases |s|
  {
    if s[0].EndElement? {
      k := 0;
    } else {
      var k1 := ClosingHasEnd(s[1..]);
      k := k1 + 1;
    }
  }

  /**
   * The loop stops no later than the end tag at `e` when that tag brings the
   * depth, counted from the cursor, to zero or below.
   */
  lemma {:induction false} ContentBounded(toks: seq<Token>, c: Cursor, depth: int, acc: string, e: nat)
    requires c.pos <= e < |toks|
    requires depth + NetDepth(toks[c.pos..e + 1]) <= 0
    ensures ContentFrom(toks, c, depth, acc).1.pos <= e + 1
    decreases e - c.pos
  {
    if !Ended(toks, c) && depth > 0 {
      var (tok, c1) := Next(toks, c);
      assert toks[c.pos..e + 1][1..] == toks[c.pos + 1..e + 1];
      var d1 := depth + Delta(tok);
      if c.pos < e && d1 > 0 {
        match tok
        case StartElement(_, name, attrs) => ContentBounded(toks, c1, d1, acc + OpenTag(name, attrs), e);
        case EndElement(_, name) => ContentBounded(toks, c1, d1, if d1 > 0 then acc + CloseTag(name) else acc, e);
        case Characters(t) => ContentBounded(toks, c1, d1, acc + t, e);
        case Ignorable => ContentBounded(toks, c1, d1, acc, e);
        case Invalid => ContentBounded(toks, c1, d1, acc, e);
      }
    }
  }

  // ---------------------------------------------------------------------
  // XML trees

  /** A tree of well-formed XML content, such as an XHTML fragment, as its tokens describe it. */
  datatype XNode =
    | XElement(ns: string, name: string, attrs: seq<Attr>, children: seq<XNode>)
    | XText(text: string)
    | XComment   // a comment or a processing instruction

  /** The tokens a reader delivers for a tree. */
  function Tokens(n: XNode): seq<Token>
    decreases n
  {
    match n
    case XElement(ns, name, attrs, kids) =>
      [StartElement(ns, name, attrs)] + TokensAll(kids) + [EndElement(ns, name)]
    case XText(t) => [Characters(t)]
    case XComment => [Ignorable]
  }

  function TokensAll(kids: seq<XNode>): seq<Token>
    decreases kids
  {
    if kids == [] then [] else Tokens(kids[0]) + TokensAll(kids[1..])
  }

  /** The markup of a tree: tags with their attributes, and text. */
  function Render(n: XNode): string
    decreases n
  {
    match n
    case XElement(_, name, attrs, kids) => OpenTag(name, attrs) + RenderAll(kids) + CloseTag(name)
    case XText(t) => t
    case XComment => []
  }

  function RenderAll(kids: seq<XNode>): string
    decreases kids
  {
    if kids == [] then [] else Render(kids[0]) + RenderAll(kids[1..])
  }

  /** The tokens of a forest are well nested. */
  lemma {:induction false} TokensAllBalanced(kids: seq<XNode>)
    ensures Balanced(TokensAll(kids))
    decreases kids
  {
    if kids != [] {
      TokensBalanced(kids[0]);
      TokensAllBalanced(kids[1..]);
      BalancedAppend(Tokens(kids[0]), TokensAll(kids[1..]));
    }
  }

  /** The tokens of a tree are well nested. */
  lemma {:induction false} TokensBalanced(n: XNode)
    ensures Balanced(Tokens(n))
    decreases n
  {
    match n
    case XElement(ns, name, attrs, kids) =>
      TokensAllBalanced(kids);
      var inner := TokensAll(kids);
      var s := Tokens(n);
      assert s == [StartElement(ns, name, attrs)] + inner + [EndElement(ns, name)];
      NetDepthAppend([StartElement(ns, name, attrs)], inner);
      NetDepthAppend([StartElement(ns, name, attrs)] + inner, [EndElement(ns, name)]);
      forall k | 0 <= k <= |s| ensures NetDepth(s[..k]) >= 0 {
        if k == 0 {
        } else if k <= |inner| + 1 {
          assert s[..k] == [StartElement(ns, name, attrs)] + inner[..k - 1];
          NetDepthAppend([StartElement(ns, name, attrs)], inner[..k - 1]);
        } else {
          assert s[..k] == s;
        }
      }
    case XText(t) =>
      assert forall k :: 0 <= k <= 1 ==> NetDepth(Tokens(n)[..k]) == 0;
    case XComment =>
      assert forall k :: 0 <= k <= 1 ==> NetDepth(Tokens(n)[..k]) == 0;
  }

  /** Two well-nested sequences in a row are well nested. */
  lemma BalancedAppend(a: seq<Token>, b: seq<Token>)
    requires Balanced(a) && Balanced(b)
    ensures Balanced(a + b)
  {
    NetDepthAppend(a, b);
    var s := a + b;
    forall k | 0 <= k <= |s| ensures NetDepth(s[..k]) >= 0 {
      if k <= |a| {
        assert s[..k] == a[..k];
      } else {
        assert s[..k] == a + b[..k - |a|];
        NetDepthAppend(a, b[..k - |a|]);
      }
    }
  }

  /**
   * Re-serialising the tokens of a tree at any positive depth writes its
   * markup and comes back to the same depth just after its last token.
   */
  lemma {:induction false} ContentOfTree(toks: seq<Token>, p: nat, e: nat, n: XNode, depth: int, acc: string, out: string)
    requires depth >= 1 && e == p + |Tokens(n)| && e <= |toks| && toks[p..e] == Tokens(n)
    requires out == acc + Render(n)
    ensures ContentFrom(toks, Cursor(p, false), depth, acc) == ContentFrom(toks, Cursor(e, false), depth, out)
    decreases n
  {
    match n
    case XElement(ns, name, attrs, kids) =>
      var q := p + 1 + |TokensAll(kids)|;
      var open := acc + OpenTag(name, attrs);
      var written := open + RenderAll(kids);
      assert written + CloseTag(name) == out;
      ElementTokensAt(toks, p, e, n);
      ContentStart(toks, p, depth, acc);
      ContentOfForest(toks, p + 1, q, kids, depth + 1, open, written);
      ContentEnd(toks, q, depth, written);
    case XText(t) =>
      assert toks[p] == Characters(t);
    case XComment =>
      assert Tokens(n) == [Ignorable] && toks[p] == Ignorable;
      assert out == acc + [] == acc;
  }

  /** Where the start tag, the children and the end tag of an element lie. */
  lemma ElementTokensAt(toks: seq<Token>, p: nat, e: nat, n: XNode)
    requires n.XElement? && e == p + |Tokens(n)| && e <= |toks| && toks[p..e] == Tokens(n)
    ensures e == p + 2 + |TokensAll(n.children)|
    ensures toks[p] == StartElement(n.ns, n.name, n.attrs)
    ensures toks[p + 1..e - 1] == TokensAll(n.children)
    ensures toks[e - 1] == EndElement(n.ns, n.name)
  {
    var inner := TokensAll(n.children);
    assert toks[p] == Tokens(n)[0];
    assert Tokens(n)[1..1 + |inner|] == inner;
    SubSlice(toks, p, Tokens(n), 1, 1 + |inner|);
    assert toks[e - 1] == Tokens(n)[1 + |inner|];
  }

  /** Where the first tree of a forest and the rest of the forest lie. */
  lemma ForestTokensAt(toks: seq<Token>, p: nat, e: nat, kids: seq<XNode>)
    requires kids != [] && e == p + |TokensAll(kids)| && e <= |toks| && toks[p..e] == TokensAll(kids)
    ensures p + |Tokens(kids[0])| <= e
    ensures toks[p..p + |Tokens(kids[0])|] == Tokens(kids[0])
    ensures e == p + |Tokens(kids[0])| + |TokensAll(kids[1..])|
    ensures toks[p + |Tokens(kids[0])|..e] == TokensAll(kids[1..])
  {
    var first := Tokens(kids[0]);
    var all := TokensAll(kids);
    assert all == first + TokensAll(kids[1..]);
    assert all[..|first|] == first && all[|first|..] == TokensAll(kids[1..]);
    SubSlice(toks, p, all, 0, |first|);
    SubSlice(toks, p, all, |first|, |all|);
  }

  /** A start tag is written and deepens the nesting. */
  lemma ContentStart(toks: seq<Token>, q: nat, depth: int, acc: string)
    requires depth >= 1 && q < |toks| && toks[q].StartElement?
    ensures ContentFrom(toks, Cursor(q, false), depth, acc)
         == ContentFrom(toks, Cursor(q + 1, false), depth + 1, acc + OpenTag(toks[q].name, toks[q].attrs))
  {
  }

  /** An end tag that does not close the outermost element is written and rises one level. */
  lemma ContentEnd(toks: seq<Token>, q: nat, depth: int, acc: string)
    requires depth >= 1 && q < |toks| && toks[q].EndElement?
    ensures ContentFrom(toks, Cursor(q, false), depth + 1, acc)
         == ContentFrom(toks, Cursor(q + 1, false), depth, acc + CloseTag(toks[q].name))
  {
  }

  /** The same for a sequence of sibling trees. */
  lemma {:induction false} ContentOfForest(toks: seq<Token>, p: nat, e: nat, kids: seq<XNode>, depth: int, acc: string, out: string)
    requires depth >= 1 && e == p + |TokensAll(kids)| && e <= |toks| && toks[p..e] == TokensAll(kids)
    requires out == acc + RenderAll(kids)
    ensures ContentFrom(toks, Cursor(p, false), depth, acc) == ContentFrom(toks, Cursor(e, false), depth, out)
    decreases kids
  {
    if kids == [] {
      assert acc + RenderAll(kids) == acc;
    } else {
      var first := Tokens(kids[0]);
      var rest := TokensAll(kids[1..]);
      var all := TokensAll(kids);
      var m := p + |first|;
      var mid := acc + Render(kids[0]);
      assert all == first + rest;
      assert all[..|first|] == first && all[|first|..] == rest;
      SubSlice(toks, p, all, 0, |first|);
      SubSlice(toks, p, all, |first|, |all|);
      assert mid + RenderAll(kids[1..]) == out;
      ContentOfTree(toks, p, m, kids[0], depth, acc, mid);
      ContentOfForest(toks, m, e, kids[1..], depth, mid, out);
    }
  }

  /**
   * The content of THE-VALUE whose children are `kids` is their markup, and
   * the reader stops just after the end tag of THE-VALUE, which is not written.
   */
  lemma XhtmlContentOfValue(toks: seq<Token>, p: nat, kids: seq<XNode>, ns: string, name: string)
    requires p + |TokensAll(kids)| < |toks| && toks[p..p + |TokensAll(kids)|] == TokensAll(kids)
    requires toks[p + |TokensAll(kids)|] == EndElement(ns, name)
    ensures XhtmlContent(toks, Cursor(p, false)) == (RenderAll(kids), Cursor(p + |TokensAll(kids)| + 1, false))
  {
    assert [] + RenderAll(kids) == RenderAll(kids);
    ContentOfForest(toks, p, p + |TokensAll(kids)|, kids, 1, [], RenderAll(kids));
  }
}
