/**
 * The explicit hierarchy of a document: nested SPEC-HIERARCHY elements under
 * SPECIFICATIONS, each naming one requirement through a SPEC-OBJECT-REF.
 */
module Hierarchy {
  import opened Text
  import opened Xml
  import opened Records
  import opened Content

  /**
   * What one SPEC-OBJECT-REF does to the store: a child under a parent is
   * linked to it (in the parent map and, when the record exists, in the
   * record itself); a child at the root is appended to the top-level list
   * unless it is already there; an empty child changes nothing.
   */
  function RecordRef(st: Store, parent: string, child: string): (r: Store)
    ensures child == [] ==> r == st
    ensures child != [] && parent != [] ==>
      && r.parentMap == st.parentMap[child := parent]
      && r.topReqIds == st.topReqIds
      && (child in st.reqMap ==> r.reqMap == st.reqMap[child := st.reqMap[child].(parentId := parent)])
      && (child !in st.reqMap ==> r.reqMap == st.reqMap)
    ensures child != [] && parent == [] ==>
      && r.parentMap == st.parentMap && r.reqMap == st.reqMap
      && r.topReqIds == (if child in st.topReqIds then st.topReqIds else st.topReqIds + [child])
  {
    if child == [] then st
    else if parent != [] then
      var reqMap := if child in st.reqMap then st.reqMap[child := st.reqMap[child].(parentId := parent)] else st.reqMap;
      Store(reqMap, st.parentMap[child := parent], st.topReqIds)
    else if child in st.topReqIds then st
    else st.(topReqIds := st.topReqIds + [child])
  }

  /**
   * `parseHierarchy` entered after the start tag of a SPEC-HIERARCHY whose
   * requirement is `parent`, with `childId` the requirement of this level
   * read so far. A nested SPEC-HIERARCHY is parsed with this level's
   * requirement as its parent; the end tag of a SPEC-HIERARCHY ends the level.
   */
  function HierLoop(toks: seq<Token>, ns: string, c: Cursor, parent: string, childId: string, st: Store): (r: (Store, Cursor))
    requires c.pos <= |toks|
    ensures c.pos <= r.1.pos <= |toks|
    decreases |toks| - c.pos
  {
    if Ended(toks, c) then (st, c)
    else
      var (tok, c1) := Next(toks, c);
      if tok.StartElement? && IsReqifElement(ns, tok, "SPEC-OBJECT-REF") then
        var (text, c2) := ElementText(toks, c1);
        var child := Trim(text);
        HierLoop(toks, ns, c2, parent, child, RecordRef(st, parent, child))
      else if tok.StartElement? && IsReqifElement(ns, tok, "SPEC-HIERARCHY") then
        var (st1, c2) := HierLoop(toks, ns, c1, childId, [], st);
        HierLoop(toks, ns, c2, parent, childId, st1)
      else if tok.EndElement? && IsReqifElement(ns, tok, "SPEC-HIERARCHY") then (st, c1)
      else HierLoop(toks, ns, c1, parent, childId, st)
  }

  /** `parseHierarchy(xml, parentId)`. */
  function ParseHierarchy(toks: seq<Token>, ns: string, c: Cursor, parentId: string, st: Store): (r: (Store, Cursor))
    requires c.pos <= |toks|
    ensures c.pos <= r.1.pos <= |toks|
  {
    HierLoop(toks, ns, c, parentId, [], st)
  }

  // ---------------------------------------------------------------------
  // What parsing a hierarchy keeps

  /** Every linked record carries the parent the parent map records for it. */
  predicate ParentsAgree(st: Store) {
    forall k :: k in st.reqMap && k in st.parentMap ==> st.reqMap[k].parentId == st.parentMap[k]
  }

  /** Links join non-empty identifiers. */
  predicate LinksNonEmpty(pm: map<string, string>) {
    forall k :: k in pm ==> k != [] && pm[k] != []
  }

  /** The top-level list holds distinct, non-empty identifiers. */
  predicate DistinctIds(s: seq<string>) {
    (forall i :: 0 <= i < |s| ==> s[i] != []) && forall i, j :: 0 <= i < j < |s| ==> s[i] != s[j]
  }

  /** The store invariant that parsing a hierarchy maintains. */
  predicate HierInv(st: Store) {
    WellKeyed(st.reqMap) && ParentsAgree(st) && LinksNonEmpty(st.parentMap) && DistinctIds(st.topReqIds)
  }

  /**
   * `r` differs from `st` only as a hierarchy may change it: the same records
   * up to their parent, no link removed, the top-level list only extended.
   */
  predicate Extends(st: Store, r: Store) {
    && r.reqMap.Keys == st.reqMap.Keys
    && (forall k :: k in st.reqMap ==> r.reqMap[k] == st.reqMap[k].(parentId := r.reqMap[k].parentId))
    && st.parentMap.Keys <= r.parentMap.Keys
    && st.topReqIds <= r.topReqIds
  }

  lemma ExtendsTransitive(a: Store, b: Store, c: Store)
    requires Extends(a, b) && Extends(b, c)
    ensures Extends(a, c)
  {
  }

  /** One reference extends the store. */
  lemma RecordRefExtends(st: Store, parent: string, child: string)
    ensures Extends(st, RecordRef(st, parent, child))
  {
  }

  /** One reference keeps the invariant. */
  lemma RecordRefKeeps(st: Store, parent: string, child: string)
    requires HierInv(st)
    ensures HierInv(RecordRef(st, parent, child))
  {
    if child != [] && parent == [] && child !in st.topReqIds {
      var s := st.topReqIds + [child];
      forall i, j | 0 <= i < j < |s| ensures s[i] != s[j] {
        if j == |s| - 1 {
          assert s[i] in st.topReqIds;
        }
      }
    }
  }

  /** Parsing a hierarchy keeps the invariant. */
  lemma {:induction false} HierLoopKeeps(toks: seq<Token>, ns: string, c: Cursor, parent: string, childId: string, st: Store)
    requires c.pos <= |toks| && HierInv(st)
    ensures HierInv(HierLoop(toks, ns, c, parent, childId, st).0)
    decreases |toks| - c.pos
  {
    if !Ended(toks, c) {
      var (tok, c1) := Next(toks, c);
      if tok.StartElement? && IsReqifElement(ns, tok, "SPEC-OBJECT-REF") {
        var (text, c2) := ElementText(toks, c1);
        var child := Trim(text);
        RecordRefKeeps(st, parent, child);
        HierLoopKeeps(toks, ns, c2, parent, child, RecordRef(st, parent, child));
      } else if tok.StartElement? && IsReqifElement(ns, tok, "SPEC-HIERARCHY") {
        var (st1, c2) := HierLoop(toks, ns, c1, childId, [], st);
        HierLoopKeeps(toks, ns, c1, childId, [], st);
        HierLoopKeeps(toks, ns, c2, parent, childId, st1);
      } else if !(tok.EndElement? && IsReqifElement(ns, tok, "SPEC-HIERARCHY")) {
        HierLoopKeeps(toks, ns, c1, parent, childId, st);
      }
    }
  }

  /** Parsing a hierarchy only extends the store: records change only in their parent. */
  lemma {:induction false} HierLoopExtends(toks: seq<Token>, ns: string, c: Cursor, parent: string, childId: string, st: Store)
    requires c.pos <= |toks|
    ensures Extends(st, HierLoop(toks, ns, c, parent, childId, st).0)
    decreases |toks| - c.pos
  {
    if !Ended(toks, c) {
      var (tok, c1) := Next(toks, c);
      if tok.StartElement? && IsReqifElement(ns, tok, "SPEC-OBJECT-REF") {
        var (text, c2) := ElementText(toks, c1);
        var child := Trim(text);
        var st1 := RecordRef(st, parent, child);
        RecordRefExtends(st, parent, child);
        HierLoopExtends(toks, ns, c2, parent, child, st1);
        ExtendsTransitive(st, st1, HierLoop(toks, ns, c2, parent, child, st1).0);
      } else if tok.StartElement? && IsReqifElement(ns, tok, "SPEC-HIERARCHY") {
        var (st1, c2) := HierLoop(toks, ns, c1, childId, [], st);
        HierLoopExtends(toks, ns, c1, childId, [], st);
        HierLoopExtends(toks, ns, c2, parent, childId, st1);
        ExtendsTransitive(st, st1, HierLoop(toks, ns, c2, parent, childId, st1).0);
      } else if !(tok.EndElement? && IsReqifElement(ns, tok, "SPEC-HIERARCHY")) {
        HierLoopExtends(toks, ns, c1, parent, childId, st);
      }
    }
  }

  // ---------------------------------------------------------------------
  // Hierarchies as trees

  /** OBJECT tags are neither of the tags the loop reacts to; a SPEC-OBJECT-REF start tag is recognised. */
  lemma ObjectNames(ns: string, attrs: seq<Attr>)
    ensures !IsReqifElement(ns, StartElement(ns, "OBJECT", attrs), "SPEC-OBJECT-REF")
    ensures !IsReqifElement(ns, StartElement(ns, "OBJECT", attrs), "SPEC-HIERARCHY")
    ensures !IsReqifElement(ns, EndElement(ns, "OBJECT"), "SPEC-HIERARCHY")
    ensures IsReqifElement(ns, StartElement(ns, "SPEC-OBJECT-REF", attrs), "SPEC-OBJECT-REF")
  {
  }

  /** CHILDREN tags are neither of the tags the loop reacts to. */
  lemma ChildrenNames(ns: string, attrs: seq<Attr>)
    ensures !IsReqifElement(ns, StartElement(ns, "CHILDREN", attrs), "SPEC-OBJECT-REF")
    ensures !IsReqifElement(ns, StartElement(ns, "CHILDREN", attrs), "SPEC-HIERARCHY")
    ensures !IsReqifElement(ns, EndElement(ns, "CHILDREN"), "SPEC-HIERARCHY")
  {
  }

  /** SPEC-HIERARCHY tags are recognised as such. */
  lemma HierarchyNames(ns: string, attrs: seq<Attr>)
    ensures IsReqifElement(ns, StartElement(ns, "SPEC-HIERARCHY", attrs), "SPEC-HIERARCHY")
    ensures IsReqifElement(ns, EndElement(ns, "SPEC-HIERARCHY"), "SPEC-HIERARCHY")
  {
  }

  /** No tag is recognised both as a SPEC-OBJECT-REF and as a SPEC-HIERARCHY: their sixth letters differ. */
  lemma NamesDiffer(ns: string, tok: Token)
    ensures !(IsReqifElement(ns, tok, "SPEC-OBJECT-REF") && IsReqifElement(ns, tok, "SPEC-HIERARCHY"))
  {
  }

  /** A token the loop does not react to is skipped. */
  lemma HierSkip(toks: seq<Token>, ns: string, q: nat, parent: string, childId: string, st: Store)
    requires q < |toks| && !toks[q].Invalid?
    requires !(toks[q].StartElement? && IsReqifElement(ns, toks[q], "SPEC-OBJECT-REF"))
    requires !(IsReqifElement(ns, toks[q], "SPEC-HIERARCHY"))
    ensures HierLoop(toks, ns, Cursor(q, false), parent, childId, st)
         == HierLoop(toks, ns, Cursor(q + 1, false), parent, childId, st)
  {
  }

  /**
   * A SPEC-OBJECT-REF, whatever its attributes and the case of its name,
   * holding `t` records its trimmed text as this level's requirement.
   */
  lemma HierRef(toks: seq<Token>, ns: string, q: nat, t: string, parent: string, childId: string, st: Store)
    requires q + 3 <= |toks| && toks[q].StartElement? && IsReqifElement(ns, toks[q], "SPEC-OBJECT-REF")
    requires toks[q + 1] == Characters(t) && toks[q + 2].EndElement?
    ensures HierLoop(toks, ns, Cursor(q, false), parent, childId, st)
         == HierLoop(toks, ns, Cursor(q + 3, false), parent, Trim(t), RecordRef(st, parent, Trim(t)))
  {
    ElementTextOfChars(toks, q + 1, t, toks[q + 2].ns, toks[q + 2].name);
    HierRefStep(toks, ns, q, parent, childId, st);
  }

  /**
   * A nested SPEC-HIERARCHY, whatever its attributes and the case of its
   * name, is parsed under this level's requirement, then the level goes on.
   */
  lemma HierNested(toks: seq<Token>, ns: string, q: nat, q': nat, parent: string, childId: string, st: Store, st1: Store)
    requires q < |toks| && toks[q].StartElement? && IsReqifElement(ns, toks[q], "SPEC-HIERARCHY")
    requires HierLoop(toks, ns, Cursor(q + 1, false), childId, [], st) == (st1, Cursor(q', false))
    ensures HierLoop(toks, ns, Cursor(q, false), parent, childId, st)
         == HierLoop(toks, ns, Cursor(q', false), parent, childId, st1)
  {
    HierNestedStep(toks, ns, q, parent, childId, st);
  }

  /** A SPEC-HIERARCHY start tag: the nested level is parsed, then this level goes on from where it stopped. */
  lemma HierNestedStep(toks: seq<Token>, ns: string, q: nat, parent: string, childId: string, st: Store)
    requires q < |toks| && toks[q].StartElement? && IsReqifElement(ns, toks[q], "SPEC-HIERARCHY")
    ensures var r := HierLoop(toks, ns, Cursor(q + 1, false), childId, [], st);
      HierLoop(toks, ns, Cursor(q, false), parent, childId, st) == HierLoop(toks, ns, r.1, parent, childId, r.0)
  {
    NamesDiffer(ns, toks[q]);
  }

  /** Once the error is raised, the loop stops where it stands. */
  lemma HierStopped(toks: seq<Token>, ns: string, c: Cursor, parent: string, childId: string, st: Store)
    requires c.error && c.pos <= |toks|
    ensures HierLoop(toks, ns, c, parent, childId, st) == (st, c)
  {
  }

  /** The end tag of a SPEC-HIERARCHY, whatever the case of its name, ends the level. */
  lemma HierEnd(toks: seq<Token>, ns: string, q: nat, parent: string, childId: string, st: Store)
    requires q < |toks| && toks[q].EndElement? && IsReqifElement(ns, toks[q], "SPEC-HIERARCHY")
    ensures HierLoop(toks, ns, Cursor(q, false), parent, childId, st) == (st, Cursor(q + 1, false))
  {
  }

  /**
   * The head of a hierarchy element: the OBJECT wrapper is skipped and the
   * reference is recorded under `parent`.
   */
  lemma HierHead(toks: seq<Token>, ns: string, p: nat, ref: string, parent: string, st: Store)
    requires p + 6 <= |toks|
    requires toks[p + 1] == StartElement(ns, "OBJECT", [])
    requires toks[p + 2] == StartElement(ns, "SPEC-OBJECT-REF", [])
    requires toks[p + 3] == Characters(ref) && toks[p + 4] == EndElement(ns, "SPEC-OBJECT-REF")
    requires toks[p + 5] == EndElement(ns, "OBJECT")
    ensures HierLoop(toks, ns, Cursor(p + 1, false), parent, [], st)
         == HierLoop(toks, ns, Cursor(p + 6, false), parent, Trim(ref), RecordRef(st, parent, Trim(ref)))
  {
    ObjectNames(ns, []);
    var id := Trim(ref);
    var st1 := RecordRef(st, parent, id);
    HierSkip(toks, ns, p + 1, parent, [], st);
    HierRef(toks, ns, p + 2, ref, parent, [], st);
    HierSkip(toks, ns, p + 5, parent, id, st1);
  }

  // ---------------------------------------------------------------------
  // Whole hierarchies

  /**
   * A SPEC-HIERARCHY: the attributes of its start tag, the text of its
   * SPEC-OBJECT-REF, its nested hierarchies, and whether they are wrapped in
   * a CHILDREN element (a leaf may have an empty CHILDREN element or none).
   */
  datatype HNode = HNode(attrs: seq<Attr>, ref: string, children: seq<HNode>, wrapped: bool)

  /** The tokens before the children: the hierarchy's start tag and its OBJECT with the reference. */
  function HeadTokens(ns: string, h: HNode): (s: seq<Token>)
    ensures |s| == 6
  {
    [StartElement(ns, "SPEC-HIERARCHY", h.attrs), StartElement(ns, "OBJECT", []),
     StartElement(ns, "SPEC-OBJECT-REF", []), Characters(h.ref), EndElement(ns, "SPEC-OBJECT-REF"),
     EndElement(ns, "OBJECT")]
  }

  /** The tokens a reader delivers for a hierarchy element. */
  function HTokens(ns: string, h: HNode): (s: seq<Token>)
    ensures |s| == 7 + |BodyTokens(ns, h)|
    decreases h, 1
  {
    HeadTokens(ns, h) + BodyTokens(ns, h) + [EndElement(ns, "SPEC-HIERARCHY")]
  }

  /** The children's tokens, inside a CHILDREN element when `wrapped`. */
  function BodyTokens(ns: string, h: HNode): seq<Token>
    decreases h, 0
  {
    if h.wrapped then [StartElement(ns, "CHILDREN", [])] + HTokensAll(ns, h.children) + [EndElement(ns, "CHILDREN")]
    else HTokensAll(ns, h.children)
  }

  function HTokensAll(ns: string, kids: seq<HNode>): seq<Token>
    decreases kids
  {
    if kids == [] then [] else HTokens(ns, kids[0]) + HTokensAll(ns, kids[1..])
  }

  /**
   * The reference meaning of a hierarchy under `parent`: its trimmed
   * reference is recorded under `parent`, then its children, in order,
   * under that reference.
   */
  function ApplyTree(h: HNode, parent: string, st: Store): Store
    decreases h
  {
    var id := Trim(h.ref);
    ApplyForest(h.children, id, RecordRef(st, parent, id))
  }

  function ApplyForest(kids: seq<HNode>, parent: string, st: Store): Store
    decreases kids
  {
    if kids == [] then st else ApplyForest(kids[1..], parent, ApplyTree(kids[0], parent, st))
  }

  /** Where the parts of a hierarchy element's tokens lie: the head, the body, the end tag. */
  lemma HTokensAt(toks: seq<Token>, p: nat, e: nat, ns: string, h: HNode)
    requires e == p + |HTokens(ns, h)| && e <= |toks| && toks[p..e] == HTokens(ns, h)
    ensures e == p + 7 + |BodyTokens(ns, h)|
    ensures toks[p] == StartElement(ns, "SPEC-HIERARCHY", h.attrs)
    ensures toks[p + 1] == StartElement(ns, "OBJECT", [])
    ensures toks[p + 2] == StartElement(ns, "SPEC-OBJECT-REF", [])
    ensures toks[p + 3] == Characters(h.ref) && toks[p + 4] == EndElement(ns, "SPEC-OBJECT-REF")
    ensures toks[p + 5] == EndElement(ns, "OBJECT")
    ensures toks[p + 6..e - 1] == BodyTokens(ns, h)
    ensures toks[e - 1] == EndElement(ns, "SPEC-HIERARCHY")
  {
    var head, body := HeadTokens(ns, h), BodyTokens(ns, h);
    var s := HTokens(ns, h);
    assert s == head + body + [EndElement(ns, "SPEC-HIERARCHY")];
    assert s[..6] == head && s[6..6 + |body|] == body;
    SubSlice(toks, p, s, 0, 6);
    HeadAt(toks, p, ns, h);
    SubSlice(toks, p, s, 6, 6 + |body|);
    SliceAt(toks, p, s, |s| - 1);
  }

  lemma HeadAt(toks: seq<Token>, p: nat, ns: string, h: HNode)
    requires p + 6 <= |toks| && toks[p..p + 6] == HeadTokens(ns, h)
    ensures toks[p] == StartElement(ns, "SPEC-HIERARCHY", h.attrs)
    ensures toks[p + 1] == StartElement(ns, "OBJECT", [])
    ensures toks[p + 2] == StartElement(ns, "SPEC-OBJECT-REF", [])
    ensures toks[p + 3] == Characters(h.ref) && toks[p + 4] == EndElement(ns, "SPEC-OBJECT-REF")
    ensures toks[p + 5] == EndElement(ns, "OBJECT")
  {
    var s := HeadTokens(ns, h);
    SliceAt(toks, p, s, 0);
    SliceAt(toks, p, s, 1);
    SliceAt(toks, p, s, 2);
    SliceAt(toks, p, s, 3);
    SliceAt(toks, p, s, 4);
    SliceAt(toks, p, s, 5);
  }

  /** Where the CHILDREN tags and the children lie in a wrapped body. */
  lemma WrappedAt(toks: seq<Token>, a: nat, b: nat, ns: string, h: HNode)
    requires h.wrapped
    requires b == a + |BodyTokens(ns, h)| && b <= |toks| && toks[a..b] == BodyTokens(ns, h)
    ensures b == a + |HTokensAll(ns, h.children)| + 2
    ensures toks[a] == StartElement(ns, "CHILDREN", [])
    ensures toks[a + 1..b - 1] == HTokensAll(ns, h.children)
    ensures toks[b - 1] == EndElement(ns, "CHILDREN")
  {
    var s, inner := BodyTokens(ns, h), HTokensAll(ns, h.children);
    SliceAt(toks, a, s, 0);
    assert s[1..1 + |inner|] == inner;
    SubSlice(toks, a, s, 1, 1 + |inner|);
    SliceAt(toks, a, s, |s| - 1);
  }

  /**
   * Parsing a hierarchy element from just after its start tag, under
   * `parent`, has the effect of its reference meaning and stops right after
   * its end tag.
   */
  lemma {:induction false} HierTree(toks: seq<Token>, ns: string, p: nat, e: nat, h: HNode, parent: string, st: Store, r: Store)
    requires e == p + |HTokens(ns, h)| && e <= |toks| && toks[p..e] == HTokens(ns, h)
    requires r == ApplyTree(h, parent, st)
    ensures HierLoop(toks, ns, Cursor(p + 1, false), parent, [], st) == (r, Cursor(e, false))
    decreases h, 2
  {
    var id := Trim(h.ref);
    var st1 := RecordRef(st, parent, id);
    var a, b := p + 6, e - 1;
    HierKids(toks, ns, p, e, h);
    HierBody(toks, ns, a, b, h, parent, id, st1, r);
    HierShellHead(toks, ns, p, e, h, parent, st);
    HierShellTail(toks, ns, p, e, h, parent, id, r);
    calc {
      HierLoop(toks, ns, Cursor(p + 1, false), parent, [], st);
      HierLoop(toks, ns, Cursor(a, false), parent, id, st1);
      HierLoop(toks, ns, Cursor(b, false), parent, id, r);
    }
  }

  /** The body of a hierarchy element lies between its head and its end tag. */
  lemma HierKids(toks: seq<Token>, ns: string, p: nat, e: nat, h: HNode)
    requires e == p + |HTokens(ns, h)| && e <= |toks| && toks[p..e] == HTokens(ns, h)
    ensures e - 1 == p + 6 + |BodyTokens(ns, h)|
    ensures toks[p + 6..e - 1] == BodyTokens(ns, h)
  {
    HTokensAt(toks, p, e, ns, h);
  }

  /** The head of a hierarchy element records its trimmed reference under `parent`. */
  lemma HierShellHead(toks: seq<Token>, ns: string, p: nat, e: nat, h: HNode, parent: string, st: Store)
    requires e == p + |HTokens(ns, h)| && e <= |toks| && toks[p..e] == HTokens(ns, h)
    ensures HierLoop(toks, ns, Cursor(p + 1, false), parent, [], st)
         == HierLoop(toks, ns, Cursor(p + 6, false), parent, Trim(h.ref), RecordRef(st, parent, Trim(h.ref)))
  {
    HTokensAt(toks, p, e, ns, h);
    HierHead(toks, ns, p, h.ref, parent, st);
  }

  /** The end tag of a hierarchy element ends the level right after it. */
  lemma HierShellTail(toks: seq<Token>, ns: string, p: nat, e: nat, h: HNode, parent: string, id: string, r: Store)
    requires e == p + |HTokens(ns, h)| && e <= |toks| && toks[p..e] == HTokens(ns, h)
    ensures e >= 1
    ensures HierLoop(toks, ns, Cursor(e - 1, false), parent, id, r) == (r, Cursor(e, false))
  {
    HTokensAt(toks, p, e, ns, h);
    HierarchyNames(ns, []);
    HierEnd(toks, ns, e - 1, parent, id, r);
  }

  /** The children of a hierarchy element, wrapped or not, have their reference meaning under its requirement `id`. */
  lemma {:induction false} HierBody(toks: seq<Token>, ns: string, a: nat, b: nat, h: HNode, parent: string, id: string,
                                    st1: Store, r: Store)
    requires b == a + |BodyTokens(ns, h)| && b <= |toks|
    requires toks[a..b] == BodyTokens(ns, h)
    requires r == ApplyForest(h.children, id, st1)
    ensures HierLoop(toks, ns, Cursor(a, false), parent, id, st1) == HierLoop(toks, ns, Cursor(b, false), parent, id, r)
    decreases h, 1
  {
    if h.wrapped {
      HierWrapped(toks, ns, a, b, h, parent, id, st1, r);
    } else {
      assert BodyTokens(ns, h) == HTokensAll(ns, h.children);
      HierForest(toks, ns, a, b, h.children, parent, id, st1, r);
    }
  }

  /** The CHILDREN tags around the children are skipped. */
  lemma {:induction false} HierWrapped(toks: seq<Token>, ns: string, a: nat, b: nat, h: HNode, parent: string, id: string,
                                       st1: Store, r: Store)
    requires h.wrapped
    requires b == a + |BodyTokens(ns, h)| && b <= |toks|
    requires toks[a..b] == BodyTokens(ns, h)
    requires r == ApplyForest(h.children, id, st1)
    ensures HierLoop(toks, ns, Cursor(a, false), parent, id, st1) == HierLoop(toks, ns, Cursor(b, false), parent, id, r)
    decreases h, 0
  {
    WrappedAt(toks, a, b, ns, h);
    var a1, b1 := a + 1, b - 1;
    ChildrenNames(ns, []);
    HierSkip(toks, ns, a, parent, id, st1);
    HierForest(toks, ns, a1, b1, h.children, parent, id, st1, r);
    HierSkip(toks, ns, b1, parent, id, r);
    var x0 := HierLoop(toks, ns, Cursor(a, false), parent, id, st1);
    var x1 := HierLoop(toks, ns, Cursor(a1, false), parent, id, st1);
    var x2 := HierLoop(toks, ns, Cursor(b1, false), parent, id, r);
    assert x0 == x1 && x1 == x2 && x2 == HierLoop(toks, ns, Cursor(b, false), parent, id, r);
  }

  /**
   * A hierarchy element without nested hierarchies, whatever its attributes
   * and with or without an empty CHILDREN element, parsed from just after
   * its start tag: its trimmed reference is recorded under `parent`, and
   * parsing stops right after its end tag.
   */
  lemma HierLeaf(toks: seq<Token>, ns: string, p: nat, e: nat, h: HNode, parent: string, st: Store)
    requires h.children == []
    requires e == p + |HTokens(ns, h)| && e <= |toks| && toks[p..e] == HTokens(ns, h)
    ensures HierLoop(toks, ns, Cursor(p + 1, false), parent, [], st) == (RecordRef(st, parent, Trim(h.ref)), Cursor(e, false))
  {
    HierTree(toks, ns, p, e, h, parent, st, ApplyTree(h, parent, st));
  }

  /** Where the first element of a run of siblings and the rest of the run lie. */
  lemma HTokensAllAt(toks: seq<Token>, p: nat, e: nat, ns: string, kids: seq<HNode>)
    requires kids != []
    requires e == p + |HTokensAll(ns, kids)| && e <= |toks| && toks[p..e] == HTokensAll(ns, kids)
    ensures p + |HTokens(ns, kids[0])| <= e
    ensures toks[p..p + |HTokens(ns, kids[0])|] == HTokens(ns, kids[0])
    ensures e == p + |HTokens(ns, kids[0])| + |HTokensAll(ns, kids[1..])|
    ensures toks[p + |HTokens(ns, kids[0])|..e] == HTokensAll(ns, kids[1..])
  {
    var first := HTokens(ns, kids[0]);
    var all := HTokensAll(ns, kids);
    assert all == first + HTokensAll(ns, kids[1..]);
    assert all[..|first|] == first && all[|first|..] == HTokensAll(ns, kids[1..]);
    SubSlice(toks, p, all, 0, |first|);
    SubSlice(toks, p, all, |first|, |all|);
  }

  /** A nested hierarchy element, read inside a level, has the effect of its reference meaning under that level's requirement. */
  lemma HierFirst(toks: seq<Token>, ns: string, p: nat, e: nat, h: HNode, parent: string, childId: string, st: Store, r: Store)
    requires e == p + |HTokens(ns, h)| && e <= |toks| && toks[p..e] == HTokens(ns, h)
    requires r == ApplyTree(h, childId, st)
    ensures HierLoop(toks, ns, Cursor(p, false), parent, childId, st)
         == HierLoop(toks, ns, Cursor(e, false), parent, childId, r)
    decreases h, 3
  {
    HierStart(toks, p, e, ns, h);
    HierTree(toks, ns, p, e, h, childId, st, r);
    HierarchyNames(ns, h.attrs);
    HierNested(toks, ns, p, e, parent, childId, st, r);
  }

  lemma HierStart(toks: seq<Token>, p: nat, e: nat, ns: string, h: HNode)
    requires e == p + |HTokens(ns, h)| && e <= |toks| && toks[p..e] == HTokens(ns, h)
    ensures p < |toks| && toks[p] == StartElement(ns, "SPEC-HIERARCHY", h.attrs)
  {
    HTokensAt(toks, p, e, ns, h);
  }

  /**
   * Inside a level whose requirement is `childId`, a run of sibling
   * hierarchy elements has the effect of their reference meaning under
   * `childId`.
   */
  lemma {:induction false} HierForest(toks: seq<Token>, ns: string, p: nat, e: nat, kids: seq<HNode>, parent: string,
                                      childId: string, st: Store, r: Store)
    requires e == p + |HTokensAll(ns, kids)| && e <= |toks| && toks[p..e] == HTokensAll(ns, kids)
    requires r == ApplyForest(kids, childId, st)
    ensures HierLoop(toks, ns, Cursor(p, false), parent, childId, st)
         == HierLoop(toks, ns, Cursor(e, false), parent, childId, r)
    decreases kids, 0
  {
    if kids == [] {
      assert e == p && r == st;
    } else {
      var m := p + |HTokens(ns, kids[0])|;
      var st1 := ApplyTree(kids[0], childId, st);
      HTokensAllAt(toks, p, e, ns, kids);
      assert r == ApplyForest(kids[1..], childId, st1);
      HierFirst(toks, ns, p, m, kids[0], parent, childId, st, st1);
      HierForest(toks, ns, m, e, kids[1..], parent, childId, st1, r);
    }
  }

  // ---------------------------------------------------------------------
  // Where parsing a hierarchy stops, whatever the element holds

  /**
   * Reading the text of an element whose content is the forest `kids`, with
   * its end tag at `e`, stops right after that end tag, or raises the error
   * no later (at a nested start tag).
   */
  lemma {:induction false} ElementTextOverForest(toks: seq<Token>, p: nat, e: nat, kids: seq<XNode>, acc: string)
    requires e == p + |TokensAll(kids)| && e < |toks| && toks[p..e] == TokensAll(kids) && toks[e].EndElement?
    ensures var c := ElementTextFrom(toks, Cursor(p, false), acc).1;
      c == Cursor(e + 1, false) || (c.error && c.pos <= e)
    decreases kids
  {
    if kids != [] {
      ForestTokensAt(toks, p, e, kids);
      SliceAt(toks, p, Tokens(kids[0]), 0);
      match kids[0]
      case XText(t) =>
        ElementTextOverForest(toks, p + 1, e, kids[1..], acc + t);
      case XComment =>
        ElementTextOverForest(toks, p + 1, e, kids[1..], acc);
      case XElement(_, _, _, _) =>
        ElementTokensAt(toks, p, p + |Tokens(kids[0])|, kids[0]);
    }
  }

  /**
   * Over the tokens of any forest the loop either comes out at the end of
   * the forest, with some requirement and store, or raises the error inside
   * it.
   */
  lemma {:induction false} HierOverForest(toks: seq<Token>, ns: string, p: nat, e: nat, kids: seq<XNode>,
                                          parent: string, childId: string, st: Store)
    returns (ok: bool, cid: string, st1: Store)
    requires e == p + |TokensAll(kids)| && e <= |toks| && toks[p..e] == TokensAll(kids)
    ensures ok ==> (HierLoop(toks, ns, Cursor(p, false), parent, childId, st)
                 == HierLoop(toks, ns, Cursor(e, false), parent, cid, st1))
    ensures !ok ==> var c := HierLoop(toks, ns, Cursor(p, false), parent, childId, st).1; c.error && c.pos <= e
    decreases kids, 0
  {
    if kids == [] {
      ok, cid, st1 := true, childId, st;
    } else {
      var m := p + |Tokens(kids[0])|;
      ForestTokensAt(toks, p, e, kids);
      var ok0, cid0, st0 := HierOverTree(toks, ns, p, m, kids[0], parent, childId, st);
      if ok0 {
        ok, cid, st1 := HierOverForest(toks, ns, m, e, kids[1..], parent, cid0, st0);
      } else {
        ok, cid, st1 := false, childId, st;
      }
    }
  }

  /** The same for one tree. */
  lemma {:induction false} HierOverTree(toks: seq<Token>, ns: string, p: nat, e: nat, n: XNode,
                                        parent: string, childId: string, st: Store)
    returns (ok: bool, cid: string, st1: Store)
    requires e == p + |Tokens(n)| && e <= |toks| && toks[p..e] == Tokens(n)
    ensures ok ==> (HierLoop(toks, ns, Cursor(p, false), parent, childId, st)
                 == HierLoop(toks, ns, Cursor(e, false), parent, cid, st1))
    ensures !ok ==> var c := HierLoop(toks, ns, Cursor(p, false), parent, childId, st).1; c.error && c.pos <= e
    decreases n, 1
  {
    if !n.XElement? {
      HierOverLeaf(toks, ns, p, e, n, parent, childId, st);
      ok, cid, st1 := true, childId, st;
    } else if IsReqifElement(ns, StartElement(n.ns, n.name, n.attrs), "SPEC-OBJECT-REF") {
      ElementTokensAt(toks, p, e, n);
      ok, cid, st1 := HierOverRef(toks, ns, p, e, n.children, parent, childId, st);
    } else if IsReqifElement(ns, StartElement(n.ns, n.name, n.attrs), "SPEC-HIERARCHY") {
      ok, cid, st1 := HierOverNestedTree(toks, ns, p, e, n, parent, childId, st);
    } else {
      ok, cid, st1 := HierOverOtherTree(toks, ns, p, e, n, parent, childId, st);
    }
  }

  /** A nested hierarchy element: its content is read one level down. */
  lemma {:induction false} HierOverNestedTree(toks: seq<Token>, ns: string, p: nat, e: nat, n: XNode,
                                              parent: string, childId: string, st: Store)
    returns (ok: bool, cid: string, st1: Store)
    requires n.XElement? && IsReqifElement(ns, StartElement(n.ns, n.name, n.attrs), "SPEC-HIERARCHY")
    requires e == p + |Tokens(n)| && e <= |toks| && toks[p..e] == Tokens(n)
    ensures ok ==> (HierLoop(toks, ns, Cursor(p, false), parent, childId, st)
                 == HierLoop(toks, ns, Cursor(e, false), parent, cid, st1))
    ensures !ok ==> var c := HierLoop(toks, ns, Cursor(p, false), parent, childId, st).1; c.error && c.pos <= e
    decreases n, 0
  {
    ElementTokensAt(toks, p, e, n);
    var okIn, cidIn, stIn := HierOverForest(toks, ns, p + 1, e - 1, n.children, childId, [], st);
    if okIn {
      HierNestedDone(toks, ns, p, e, parent, childId, st, cidIn, stIn);
    } else {
      HierNestedFailed(toks, ns, p, e, parent, childId, st);
    }
    ok, cid, st1 := okIn, childId, stIn;
  }

  /** Any other element: its content is read at the same level. */
  lemma {:induction false} HierOverOtherTree(toks: seq<Token>, ns: string, p: nat, e: nat, n: XNode,
                                             parent: string, childId: string, st: Store)
    returns (ok: bool, cid: string, st1: Store)
    requires n.XElement? && !IsReqifElement(ns, StartElement(n.ns, n.name, n.attrs), "SPEC-OBJECT-REF")
    requires !IsReqifElement(ns, StartElement(n.ns, n.name, n.attrs), "SPEC-HIERARCHY")
    requires e == p + |Tokens(n)| && e <= |toks| && toks[p..e] == Tokens(n)
    ensures ok ==> (HierLoop(toks, ns, Cursor(p, false), parent, childId, st)
                 == HierLoop(toks, ns, Cursor(e, false), parent, cid, st1))
    ensures !ok ==> var c := HierLoop(toks, ns, Cursor(p, false), parent, childId, st).1; c.error && c.pos <= e
    decreases n, 0
  {
    ElementTokensAt(toks, p, e, n);
    var okIn, cidIn, stIn := HierOverForest(toks, ns, p + 1, e - 1, n.children, parent, childId, st);
    if okIn {
      HierOtherDone(toks, ns, p, e, parent, childId, st, cidIn, stIn);
    } else {
      HierOtherFailed(toks, ns, p, e, parent, childId, st);
    }
    ok, cid, st1 := okIn, cidIn, stIn;
  }

  /** Character data and comments are skipped. */
  lemma HierOverLeaf(toks: seq<Token>, ns: string, p: nat, e: nat, n: XNode, parent: string, childId: string, st: Store)
    requires !n.XElement? && e == p + |Tokens(n)| && e <= |toks| && toks[p..e] == Tokens(n)
    ensures HierLoop(toks, ns, Cursor(p, false), parent, childId, st)
         == HierLoop(toks, ns, Cursor(e, false), parent, childId, st)
  {
    assert Tokens(n) == if n.XText? then [Characters(n.text)] else [Ignorable];
    SliceAt(toks, p, Tokens(n), 0);
    HierSkip(toks, ns, p, parent, childId, st);
  }

  /** A SPEC-OBJECT-REF element: its text is recorded, or reading it raises the error. */
  lemma HierOverRef(toks: seq<Token>, ns: string, p: nat, e: nat, kids: seq<XNode>, parent: string, childId: string, st: Store)
    returns (ok: bool, cid: string, st1: Store)
    requires p + 2 <= e <= |toks| && e - 1 == p + 1 + |TokensAll(kids)| && toks[p + 1..e - 1] == TokensAll(kids)
    requires toks[p].StartElement? && IsReqifElement(ns, toks[p], "SPEC-OBJECT-REF") && toks[e - 1].EndElement?
    ensures ok ==> (HierLoop(toks, ns, Cursor(p, false), parent, childId, st)
                 == HierLoop(toks, ns, Cursor(e, false), parent, cid, st1))
    ensures !ok ==> var c := HierLoop(toks, ns, Cursor(p, false), parent, childId, st).1; c.error && c.pos <= e
  {
    ElementTextOverForest(toks, p + 1, e - 1, kids, []);
    var (text, c2) := ElementText(toks, Cursor(p + 1, false));
    HierRefStep(toks, ns, p, parent, childId, st);
    ok, cid, st1 := !c2.error, Trim(text), RecordRef(st, parent, Trim(text));
  }

  /** A SPEC-OBJECT-REF start tag: the element's text is read and its trimmed text recorded. */
  lemma HierRefStep(toks: seq<Token>, ns: string, p: nat, parent: string, childId: string, st: Store)
    requires p < |toks| && toks[p].StartElement? && IsReqifElement(ns, toks[p], "SPEC-OBJECT-REF")
    ensures var (text, c2) := ElementText(toks, Cursor(p + 1, false));
      HierLoop(toks, ns, Cursor(p, false), parent, childId, st)
      == HierLoop(toks, ns, c2, parent, Trim(text), RecordRef(st, parent, Trim(text)))
  {
  }

  /** A nested SPEC-HIERARCHY element whose level came out at its end tag: that tag closes the nested level. */
  lemma HierNestedDone(toks: seq<Token>, ns: string, p: nat, e: nat, parent: string, childId: string, st: Store,
                       cidIn: string, stIn: Store)
    requires p + 2 <= e <= |toks|
    requires toks[p].StartElement? && IsReqifElement(ns, toks[p], "SPEC-HIERARCHY")
    requires toks[e - 1] == EndElement(toks[p].ns, toks[p].name)
    requires HierLoop(toks, ns, Cursor(p + 1, false), childId, [], st)
          == HierLoop(toks, ns, Cursor(e - 1, false), childId, cidIn, stIn)
    ensures HierLoop(toks, ns, Cursor(p, false), parent, childId, st)
         == HierLoop(toks, ns, Cursor(e, false), parent, childId, stIn)
  {
    var e1 := e - 1;
    HierEnd(toks, ns, e1, childId, cidIn, stIn);
    HierNested(toks, ns, p, e, parent, childId, st, stIn);
  }

  /** A nested SPEC-HIERARCHY element whose level raised the error: the error ends this level too. */
  lemma HierNestedFailed(toks: seq<Token>, ns: string, p: nat, e: nat, parent: string, childId: string, st: Store)
    requires p + 2 <= e <= |toks|
    requires toks[p].StartElement? && IsReqifElement(ns, toks[p], "SPEC-HIERARCHY")
    requires var c := HierLoop(toks, ns, Cursor(p + 1, false), childId, [], st).1; c.error && c.pos <= e - 1
    ensures var c := HierLoop(toks, ns, Cursor(p, false), parent, childId, st).1; c.error && c.pos <= e
  {
    HierNestedStep(toks, ns, p, parent, childId, st);
    var r := HierLoop(toks, ns, Cursor(p + 1, false), childId, [], st);
    HierStopped(toks, ns, r.1, parent, childId, r.0);
  }

  /** Any other element whose content was read without error: its tags are skipped. */
  lemma HierOtherDone(toks: seq<Token>, ns: string, p: nat, e: nat, parent: string, childId: string, st: Store,
                      cidIn: string, stIn: Store)
    requires p + 2 <= e <= |toks|
    requires toks[p].StartElement? && !IsReqifElement(ns, toks[p], "SPEC-OBJECT-REF")
    requires !IsReqifElement(ns, toks[p], "SPEC-HIERARCHY")
    requires toks[e - 1] == EndElement(toks[p].ns, toks[p].name)
    requires HierLoop(toks, ns, Cursor(p + 1, false), parent, childId, st)
          == HierLoop(toks, ns, Cursor(e - 1, false), parent, cidIn, stIn)
    ensures HierLoop(toks, ns, Cursor(p, false), parent, childId, st)
         == HierLoop(toks, ns, Cursor(e, false), parent, cidIn, stIn)
  {
    var e1 := e - 1;
    HierSkip(toks, ns, p, parent, childId, st);
    HierSkip(toks, ns, e1, parent, cidIn, stIn);
  }

  /** Any other element whose content raised the error: the error ends the level. */
  lemma HierOtherFailed(toks: seq<Token>, ns: string, p: nat, e: nat, parent: string, childId: string, st: Store)
    requires p + 2 <= e <= |toks|
    requires toks[p].StartElement? && !IsReqifElement(ns, toks[p], "SPEC-OBJECT-REF")
    requires !IsReqifElement(ns, toks[p], "SPEC-HIERARCHY")
    requires var c := HierLoop(toks, ns, Cursor(p + 1, false), parent, childId, st).1; c.error && c.pos <= e - 1
    ensures var c := HierLoop(toks, ns, Cursor(p, false), parent, childId, st).1; c.error && c.pos <= e
  {
    HierSkip(toks, ns, p, parent, childId, st);
  }

  /**
   * Parsing a SPEC-HIERARCHY element from just after its start tag, whatever
   * its attributes and whatever well-formed content it holds (text,
   * comments, other elements, nested hierarchies), stops right after its own
   * end tag, or raises the error inside the element. The end tags of nested
   * hierarchies are consumed by the nested parses.
   */
  lemma HierLoopBounded(toks: seq<Token>, ns: string, p: nat, e: nat, n: XNode, parent: string, st: Store)
    requires n.XElement? && IsReqifElement(ns, StartElement(n.ns, n.name, n.attrs), "SPEC-HIERARCHY")
    requires e == p + |Tokens(n)| && e <= |toks| && toks[p..e] == Tokens(n)
    ensures var c := HierLoop(toks, ns, Cursor(p + 1, false), parent, [], st).1;
      c == Cursor(e, false) || (c.error && c.pos < e)
  {
    ElementTokensAt(toks, p, e, n);
    var ok, cid, st1 := HierOverForest(toks, ns, p + 1, e - 1, n.children, parent, [], st);
    if ok {
      assert IsReqifElement(ns, toks[e - 1], "SPEC-HIERARCHY");
      HierEnd(toks, ns, e - 1, parent, cid, st1);
    }
  }

  /**
   * A hierarchy directly under SPECIFICATIONS is parsed with no parent: its
   * requirement becomes top-level and its descendants are linked below it.
   */
  lemma ParseHierarchyOfTree(toks: seq<Token>, ns: string, p: nat, e: nat, h: HNode, st: Store)
    requires e == p + |HTokens(ns, h)| && e <= |toks| && toks[p..e] == HTokens(ns, h)
    ensures ParseHierarchy(toks, ns, Cursor(p + 1, false), [], st) == (ApplyTree(h, [], st), Cursor(e, false))
  {
    HierTree(toks, ns, p, e, h, [], st, ApplyTree(h, [], st));
  }

  /** A root hierarchy with a non-empty reference puts that requirement in the top-level list. */
  lemma RootIsTopLevel(h: HNode, st: Store)
    requires Trim(h.ref) != []
    ensures Trim(h.ref) in ApplyTree(h, [], st).topReqIds
  {
    var st1 := RecordRef(st, [], Trim(h.ref));
    ForestKeepsTop(h.children, Trim(h.ref), st1);
    var top := ApplyTree(h, [], st).topReqIds;
    var i :| 0 <= i < |st1.topReqIds| && st1.topReqIds[i] == Trim(h.ref);
    assert top[i] == Trim(h.ref);
  }

  /** The reference meaning only extends the top-level list. */
  lemma {:induction false} TreeKeepsTop(h: HNode, parent: string, st: Store)
    ensures st.topReqIds <= ApplyTree(h, parent, st).topReqIds
    decreases h, 1
  {
    var st1 := RecordRef(st, parent, Trim(h.ref));
    ForestKeepsTop(h.children, Trim(h.ref), st1);
  }

  lemma {:induction false} ForestKeepsTop(kids: seq<HNode>, parent: string, st: Store)
    ensures st.topReqIds <= ApplyForest(kids, parent, st).topReqIds
    decreases kids, 0
  {
    if kids != [] {
      TreeKeepsTop(kids[0], parent, st);
      ForestKeepsTop(kids[1..], parent, ApplyTree(kids[0], parent, st));
    }
  }
}
