/**
 * The two attribute-value sub-parsers. Each is entered right after the start
 * tag of its ATTRIBUTE-VALUE-* element, looks for the definition reference
 * (and, for XHTML, THE-VALUE), and updates the record being read.
 */
module Attributes {
  import opened Text
  import opened Xml
  import opened Markup
  import opened Records
  import opened Content

  // ---------------------------------------------------------------------
  // Integer values

  /**
   * The first loop of `parseIntegerAttribute`: the text of the first
   * ATTRIBUTE-DEFINITION-INTEGER-REF, or the empty reference when the value
   * element closes or the reader ends first.
   */
  function IntegerRefFrom(toks: seq<Token>, ns: string, c: Cursor): (r: (string, Cursor))
    requires c.pos <= |toks|
    ensures c.pos <= r.1.pos <= |toks|
    decreases |toks| - c.pos
  {
    if Ended(toks, c) then ([], c)
    else
      var (tok, c1) := Next(toks, c);
      if tok.StartElement? && IsReqifElement(ns, tok, "ATTRIBUTE-DEFINITION-INTEGER-REF") then
        ElementText(toks, c1)
      else if tok.EndElement? && IsReqifElement(ns, tok, "ATTRIBUTE-VALUE-INTEGER") then
        ([], c1)
      else IntegerRefFrom(toks, ns, c1)
  }

  /** The definition reference that marks the sort number. */
  const SortNumberRef: string := "ABSOLUTENUMBER"

  /**
   * The record after an integer value: the sort number becomes the value of
   * THE-VALUE exactly when the reference names the sort-number definition;
   * nothing else changes.
   */
  function ApplyInteger(req: ReqData, theValue: string, defRef: string): (r: ReqData)
    ensures r.(sortNum := req.sortNum) == req
    ensures ContainsIgnoreCase(defRef, SortNumberRef) ==> r.sortNum == ToInt(theValue)
    ensures !ContainsIgnoreCase(defRef, SortNumberRef) ==> r == req
  {
    if defRef != [] && ContainsIgnoreCase(defRef, SortNumberRef) then req.(sortNum := ToInt(theValue))
    else req
  }

  /** `parseIntegerAttribute` given the THE-VALUE attribute of the start tag. */
  function IntegerAttr(toks: seq<Token>, ns: string, c: Cursor, theValue: string, req: ReqData): (r: (ReqData, Cursor))
    requires c.pos <= |toks|
    ensures c.pos <= r.1.pos <= |toks|
  {
    var (defRef, c1) := IntegerRefFrom(toks, ns, c);
    (ApplyInteger(req, theValue, defRef), c1)
  }

  /** The integer parser never reads past the end tag of its own value element. */
  lemma {:induction false} IntegerRefBounded(toks: seq<Token>, ns: string, c: Cursor, e: nat)
    requires c.pos <= e < |toks| && toks[e].EndElement? && IsReqifElement(ns, toks[e], "ATTRIBUTE-VALUE-INTEGER")
    ensures IntegerRefFrom(toks, ns, c).1.pos <= e + 1
    decreases e - c.pos
  {
    if !Ended(toks, c) {
      var (tok, c1) := Next(toks, c);
      if tok.StartElement? && IsReqifElement(ns, tok, "ATTRIBUTE-DEFINITION-INTEGER-REF") {
        ElementTextBounded(toks, c1, [], e);
      } else if !(tok.EndElement? && IsReqifElement(ns, tok, "ATTRIBUTE-VALUE-INTEGER")) {
        IntegerRefBounded(toks, ns, c1, e);
      }
    }
  }

  /** The typical integer value: a definition reference naming the sort number sets it. */
  lemma IntegerValueSetsSortNum(toks: seq<Token>, ns: string, p: nat, theValue: string, ref: string, req: ReqData)
    requires p + 4 <= |toks|
    requires toks[p] == StartElement(ns, "ATTRIBUTE-DEFINITION-INTEGER-REF", [])
    requires toks[p + 1] == Characters(ref)
    requires toks[p + 2] == EndElement(ns, "ATTRIBUTE-DEFINITION-INTEGER-REF")
    requires ContainsIgnoreCase(ref, SortNumberRef)
    ensures IntegerAttr(toks, ns, Cursor(p, false), theValue, req)
         == (req.(sortNum := ToInt(theValue)), Cursor(p + 3, false))
  {
    ElementTextOfChars(toks, p + 1, ref, ns, "ATTRIBUTE-DEFINITION-INTEGER-REF");
  }

  // ---------------------------------------------------------------------
  // XHTML values

  /** How the first loop of `parseXhtmlAttribute` ends. */
  datatype RefOutcome =
    | Closed            // the value element ended before any definition reference
    | Ref(text: string) // the text of the reference (empty when the reader ended first)

  /** The first loop of `parseXhtmlAttribute`. */
  function XhtmlRefFrom(toks: seq<Token>, ns: string, c: Cursor): (r: (RefOutcome, Cursor))
    requires c.pos <= |toks|
    ensures c.pos <= r.1.pos <= |toks|
    decreases |toks| - c.pos
  {
    if Ended(toks, c) then (Ref([]), c)
    else
      var (tok, c1) := Next(toks, c);
      if tok.StartElement? && IsReqifElement(ns, tok, "ATTRIBUTE-DEFINITION-XHTML-REF") then
        var (text, c2) := ElementText(toks, c1);
        (Ref(text), c2)
      else if tok.EndElement? && IsReqifElement(ns, tok, "ATTRIBUTE-VALUE-XHTML") then
        (Closed, c1)
      else XhtmlRefFrom(toks, ns, c1)
  }

  /**
   * The second loop: the re-serialised content of the first THE-VALUE, or
   * the empty string when the value element closes or the reader ends first.
   */
  function XhtmlValueFrom(toks: seq<Token>, ns: string, c: Cursor): (r: (string, Cursor))
    requires c.pos <= |toks|
    ensures c.pos <= r.1.pos <= |toks|
    decreases |toks| - c.pos
  {
    if Ended(toks, c) then ([], c)
    else
      var (tok, c1) := Next(toks, c);
      if tok.StartElement? && IsReqifElement(ns, tok, "THE-VALUE") then
        XhtmlContent(toks, c1)
      else if tok.EndElement? && IsReqifElement(ns, tok, "ATTRIBUTE-VALUE-XHTML") then
        ([], c1)
      else XhtmlValueFrom(toks, ns, c1)
  }

  /** The definition references of the name and of the description. */
  const NameRef: string := "_valm_Name"
  const DescriptionRef: string := "_valm_Description"

  /**
   * The record after an XHTML value: a reference naming the name definition
   * sets the sanitised name, otherwise one naming the description sets the
   * sanitised description; any other reference changes nothing.
   */
  function ApplyXhtml(req: ReqData, defRef: string, value: string): (r: ReqData)
    ensures r.(name := req.name, description := req.description) == req
    ensures ContainsIgnoreCase(defRef, NameRef) ==> r == req.(name := CleanHtml(value))
    ensures !ContainsIgnoreCase(defRef, NameRef) && ContainsIgnoreCase(defRef, DescriptionRef)
            ==> r == req.(description := CleanHtml(value))
    ensures !ContainsIgnoreCase(defRef, NameRef) && !ContainsIgnoreCase(defRef, DescriptionRef) ==> r == req
  {
    if defRef == [] then req
    else if ContainsIgnoreCase(defRef, NameRef) then req.(name := CleanHtml(value))
    else if ContainsIgnoreCase(defRef, DescriptionRef) then req.(description := CleanHtml(value))
    else req
  }

  /** `parseXhtmlAttribute`. */
  function XhtmlAttr(toks: seq<Token>, ns: string, c: Cursor, req: ReqData): (r: (ReqData, Cursor))
    requires c.pos <= |toks|
    ensures c.pos <= r.1.pos <= |toks|
  {
    var (outcome, c1) := XhtmlRefFrom(toks, ns, c);
    match outcome
    case Closed => (req, c1)
    case Ref(defRef) =>
      var (value, c2) := XhtmlValueFrom(toks, ns, c1);
      (ApplyXhtml(req, defRef, value), c2)
  }

  /** The first XHTML loop never reads past the end tag of its own value element. */
  lemma {:induction false} XhtmlRefBounded(toks: seq<Token>, ns: string, c: Cursor, e: nat)
    requires c.pos <= e < |toks| && toks[e].EndElement? && IsReqifElement(ns, toks[e], "ATTRIBUTE-VALUE-XHTML")
    ensures XhtmlRefFrom(toks, ns, c).1.pos <= e + 1
    decreases e - c.pos
  {
    if !Ended(toks, c) {
      var (tok, c1) := Next(toks, c);
      if tok.StartElement? && IsReqifElement(ns, tok, "ATTRIBUTE-DEFINITION-XHTML-REF") {
        ElementTextBounded(toks, c1, [], e);
      } else if !(tok.EndElement? && IsReqifElement(ns, tok, "ATTRIBUTE-VALUE-XHTML")) {
        XhtmlRefBounded(toks, ns, c1, e);
      }
    }
  }

  /**
   * The second XHTML loop never reads past the end tag at `e` when the tokens
   * between the cursor and that tag are well nested.
   */
  lemma {:induction false} XhtmlValueBounded(toks: seq<Token>, ns: string, c: Cursor, e: nat)
    requires c.pos <= e < |toks| && toks[e].EndElement? && IsReqifElement(ns, toks[e], "ATTRIBUTE-VALUE-XHTML")
    requires forall q :: c.pos <= q <= e ==> NetDepth(toks[q..e]) <= 0
    ensures XhtmlValueFrom(toks, ns, c).1.pos <= e + 1
    decreases e - c.pos
  {
    if !Ended(toks, c) {
      var (tok, c1) := Next(toks, c);
      if tok.StartElement? && IsReqifElement(ns, tok, "THE-VALUE") {
        assert c.pos < e && NetDepth(toks[c.pos..e]) <= 0;
        OpenedContentBounded(toks, c.pos, e);
      } else if !(tok.EndElement? && IsReqifElement(ns, tok, "ATTRIBUTE-VALUE-XHTML")) {
        XhtmlValueBounded(toks, ns, c1, e);
      }
    }
  }

  /**
   * The content of an element that opens at `q` ends by the end tag at `e`
   * when the tokens in between are well nested.
   */
  lemma OpenedContentBounded(toks: seq<Token>, q: nat, e: nat)
    requires q < e < |toks| && toks[q].StartElement? && toks[e].EndElement? && NetDepth(toks[q..e]) <= 0
    ensures XhtmlContent(toks, Cursor(q + 1, false)).1.pos <= e + 1
  {
    assert toks[q..e] == [toks[q]] + toks[q + 1..e];
    NetDepthAppend([toks[q]], toks[q + 1..e]);
    assert toks[q + 1..e + 1] == toks[q + 1..e] + [toks[e]];
    NetDepthAppend(toks[q + 1..e], [toks[e]]);
    ContentBounded(toks, Cursor(q + 1, false), 1, [], e);
  }

  /** The text of an element that opens at `q` ends before `e` when the tokens in between are well nested. */
  lemma NestedTextStops(toks: seq<Token>, q: nat, e: nat)
    requires q < e <= |toks| && toks[q].StartElement? && NetDepth(toks[q..e]) <= 0
    ensures ElementText(toks, Cursor(q + 1, false)).1.pos <= e
  {
    assert toks[q..e] == [toks[q]] + toks[q + 1..e];
    NetDepthAppend([toks[q]], toks[q + 1..e]);
    var k := ClosingHasEnd(toks[q + 1..e]);
    assert toks[q + 1 + k] == toks[q + 1..e][k];
    ElementTextBounded(toks, Cursor(q + 1, false), [], q + 1 + k);
  }

  /**
   * When the tokens between the cursor and the end tag at `e` are well
   * nested, the first XHTML loop either meets that end tag, raises the
   * error, or stops before it.
   */
  lemma {:induction false} XhtmlRefNested(toks: seq<Token>, ns: string, c: Cursor, e: nat)
    requires c.pos <= e < |toks| && toks[e].EndElement? && IsReqifElement(ns, toks[e], "ATTRIBUTE-VALUE-XHTML")
    requires forall q :: c.pos <= q <= e ==> NetDepth(toks[q..e]) <= 0
    ensures var (outcome, c1) := XhtmlRefFrom(toks, ns, c); outcome.Closed? || c1.error || c1.pos <= e
    decreases e - c.pos
  {
    if !Ended(toks, c) {
      var (tok, c1) := Next(toks, c);
      if tok.StartElement? && IsReqifElement(ns, tok, "ATTRIBUTE-DEFINITION-XHTML-REF") {
        assert NetDepth(toks[c.pos..e]) <= 0;
        NestedTextStops(toks, c.pos, e);
      } else if !(tok.EndElement? && IsReqifElement(ns, tok, "ATTRIBUTE-VALUE-XHTML")) {
        XhtmlRefNested(toks, ns, c1, e);
      }
    }
  }

  /**
   * Over a well-formed value element, whose content up to its end tag at `e`
   * is well nested, the XHTML parser never reads past that end tag.
   */
  lemma XhtmlAttrBounded(toks: seq<Token>, ns: string, c: Cursor, req: ReqData, e: nat)
    requires c.pos <= e < |toks| && toks[e].EndElement? && IsReqifElement(ns, toks[e], "ATTRIBUTE-VALUE-XHTML")
    requires Balanced(toks[c.pos..e])
    ensures XhtmlAttr(toks, ns, c, req).1.pos <= e + 1
  {
    forall q | c.pos <= q <= e ensures NetDepth(toks[q..e]) <= 0 {
      assert toks[q..e] == toks[c.pos..e][q - c.pos..];
      SuffixNotAbove(toks[c.pos..e], q - c.pos);
    }
    XhtmlRefBounded(toks, ns, c, e);
    XhtmlRefNested(toks, ns, c, e);
    var (outcome, c1) := XhtmlRefFrom(toks, ns, c);
    if outcome.Ref? && !c1.error {
      XhtmlValueBounded(toks, ns, c1, e);
    }
  }

  /**
   * The typical XHTML value: a definition reference, then THE-VALUE holding
   * the trees `kids`. The reference decides which field receives the
   * sanitised markup of the trees, and the parser stops after THE-VALUE.
   */
  lemma XhtmlValueSetsField(toks: seq<Token>, ns: string, p: nat, ref: string, kids: seq<XNode>, req: ReqData)
    requires p + 4 + |TokensAll(kids)| < |toks|
    requires toks[p] == StartElement(ns, "ATTRIBUTE-DEFINITION-XHTML-REF", [])
    requires toks[p + 1] == Characters(ref)
    requires toks[p + 2] == EndElement(ns, "ATTRIBUTE-DEFINITION-XHTML-REF")
    requires toks[p + 3] == StartElement(ns, "THE-VALUE", [])
    requires toks[p + 4..p + 4 + |TokensAll(kids)|] == TokensAll(kids)
    requires toks[p + 4 + |TokensAll(kids)|] == EndElement(ns, "THE-VALUE")
    ensures XhtmlAttr(toks, ns, Cursor(p, false), req)
         == (ApplyXhtml(req, ref, RenderAll(kids)), Cursor(p + 5 + |TokensAll(kids)|, false))
  {
    XhtmlRefOfText(toks, ns, p, ref);
    XhtmlValueOfTrees(toks, ns, p + 3, kids);
    var c1 := Cursor(p + 3, false);
    assert XhtmlAttr(toks, ns, Cursor(p, false), req)
        == (ApplyXhtml(req, ref, XhtmlValueFrom(toks, ns, c1).0), XhtmlValueFrom(toks, ns, c1).1);
  }

  /** A definition reference with text `ref` is found at once. */
  lemma XhtmlRefOfText(toks: seq<Token>, ns: string, p: nat, ref: string)
    requires p + 3 <= |toks|
    requires toks[p] == StartElement(ns, "ATTRIBUTE-DEFINITION-XHTML-REF", [])
    requires toks[p + 1] == Characters(ref)
    requires toks[p + 2] == EndElement(ns, "ATTRIBUTE-DEFINITION-XHTML-REF")
    ensures XhtmlRefFrom(toks, ns, Cursor(p, false)) == (Ref(ref), Cursor(p + 3, false))
  {
    ElementTextOfChars(toks, p + 1, ref, ns, "ATTRIBUTE-DEFINITION-XHTML-REF");
  }

  /** A THE-VALUE element holding the trees `kids` gives their re-serialised text. */
  lemma XhtmlValueOfTrees(toks: seq<Token>, ns: string, p: nat, kids: seq<XNode>)
    requires p + 1 + |TokensAll(kids)| < |toks|
    requires toks[p] == StartElement(ns, "THE-VALUE", [])
    requires toks[p + 1..p + 1 + |TokensAll(kids)|] == TokensAll(kids)
    requires toks[p + 1 + |TokensAll(kids)|] == EndElement(ns, "THE-VALUE")
    ensures XhtmlValueFrom(toks, ns, Cursor(p, false)) == (RenderAll(kids), Cursor(p + 2 + |TokensAll(kids)|, false))
  {
    XhtmlContentOfValue(toks, p + 1, kids, ns, "THE-VALUE");
  }

  /**
   * A name reference followed by no THE-VALUE names the record with the
   * sanitiser's placeholder for empty markup, which counts as a valid name.
   */
  lemma NameWithoutValue(toks: seq<Token>, ns: string, p: nat, ref: string, req: ReqData)
    requires p + 4 <= |toks|
    requires toks[p] == StartElement(ns, "ATTRIBUTE-DEFINITION-XHTML-REF", [])
    requires toks[p + 1] == Characters(ref)
    requires toks[p + 2] == EndElement(ns, "ATTRIBUTE-DEFINITION-XHTML-REF")
    requires toks[p + 3] == EndElement(ns, "ATTRIBUTE-VALUE-XHTML")
    requires ContainsIgnoreCase(ref, NameRef)
    ensures XhtmlAttr(toks, ns, Cursor(p, false), req).0 == req.(name := NoContent)
    ensures IsValidReq(XhtmlAttr(toks, ns, Cursor(p, false), req).0)
  {
    XhtmlRefOfText(toks, ns, p, ref);
    assert XhtmlValueFrom(toks, ns, Cursor(p + 3, false)) == ([], Cursor(p + 4, false));
    PlaceholderNameIsValid(req.(name := NoContent));
  }
}
