/**
 * Reading a whole document (`parseXml`, `load`): the main loop over the
 * token stream, then the passes that complete the store — inference when no
 * explicit hierarchy was found, the levels, and the top-level list.
 */
module Parse {
  import opened Text
  import opened Xml
  import opened Records
  import opened Attributes
  import opened Hierarchy
  import opened Inference
  import opened Levels

  datatype Option<T> = None | Some(value: T)

  /** The state of the main loop: the collections, the namespace, the open SPEC-OBJECT, and whether it is inside SPECIFICATIONS. */
  datatype ScanState = ScanState(st: Store, ns: string, curId: string, curReq: ReqData, inSpec: bool)

  /** The namespace a REQ-IF root declares, or the ReqIF namespace when it declares none. */
  function RootNamespace(tns: string): (r: string)
    ensures r != []
    ensures tns != [] ==> r == tns
  {
    if tns == [] then FallbackNamespace else tns
  }

  /**
   * The main loop of `parseXml` from cursor `c`. Start tags are tried in
   * order: a REQ-IF root (by local name only, in any namespace) sets the
   * namespace; SPEC-OBJECT opens a fresh record under its IDENTIFIER;
   * SPECIFICATIONS is entered; inside it a SPEC-HIERARCHY is parsed; an
   * integer or XHTML value updates the open record. The end of a SPEC-OBJECT
   * with a non-empty identifier stores the record; the end of SPECIFICATIONS
   * leaves it. Everything else is skipped.
   */
  function ScanLoop(toks: seq<Token>, c: Cursor, s: ScanState): (r: (ScanState, Cursor))
    requires c.pos <= |toks|
    ensures c.pos <= r.1.pos <= |toks|
    decreases |toks| - c.pos
  {
    if Ended(toks, c) then (s, c)
    else
      var (tok, c1) := Next(toks, c);
      match tok
      case StartElement(tns, name, attrs) =>
        if EqualsIgnoreCase(name, "REQ-IF") then
          ScanLoop(toks, c1, s.(ns := RootNamespace(tns)))
        else if IsReqifElement(s.ns, tok, "SPEC-OBJECT") then
          var id := AttrValue(attrs, "IDENTIFIER");
          ScanLoop(toks, c1, s.(curId := id, curReq := NewReq(id)))
        else if IsReqifElement(s.ns, tok, "SPECIFICATIONS") then
          ScanLoop(toks, c1, s.(inSpec := true))
        else if s.inSpec && IsReqifElement(s.ns, tok, "SPEC-HIERARCHY") then
          var (st1, c2) := ParseHierarchy(toks, s.ns, c1, [], s.st);
          ScanLoop(toks, c2, s.(st := st1))
        else if IsReqifElement(s.ns, tok, "ATTRIBUTE-VALUE-INTEGER") then
          var (req, c2) := IntegerAttr(toks, s.ns, c1, AttrValue(attrs, "THE-VALUE"), s.curReq);
          ScanLoop(toks, c2, s.(curReq := req))
        else if IsReqifElement(s.ns, tok, "ATTRIBUTE-VALUE-XHTML") then
          var (req, c2) := XhtmlAttr(toks, s.ns, c1, s.curReq);
          ScanLoop(toks, c2, s.(curReq := req))
        else ScanLoop(toks, c1, s)
      case EndElement(_, _) =>
        if IsReqifElement(s.ns, tok, "SPEC-OBJECT") && s.curId != [] then
          ScanLoop(toks, c1, s.(st := s.st.(reqMap := s.st.reqMap[s.curId := s.curReq]), curId := []))
        else if IsReqifElement(s.ns, tok, "SPECIFICATIONS") then
          ScanLoop(toks, c1, s.(inSpec := false))
        else ScanLoop(toks, c1, s)
      case _ => ScanLoop(toks, c1, s)
  }

  /** The state the main loop starts from: no open record, outside SPECIFICATIONS. */
  function ScanStart(st: Store, ns: string): ScanState {
    ScanState(st, ns, [], NewReq([]), false)
  }

  // ---------------------------------------------------------------------
  // The passes after the main loop

  /** The level pass: every record still at level 1 or below gets its depth in the parent map. */
  function Relevel(m: map<string, ReqData>, pm: map<string, string>): (r: map<string, ReqData>)
    ensures SameRecords(m, r)
  {
    map k | k in m :: if m[k].level <= 1 then m[k].(level := LevelOf(pm, m[k].id)) else m[k]
  }

  /** `updateTopLevelReqs` over `keys`: the identifiers of valid records without a parent, in that order. */
  function TopFrom(m: map<string, ReqData>, pm: map<string, string>, keys: seq<string>): (r: seq<string>)
    requires AllIn(m, keys)
    decreases |keys|
  {
    if keys == [] then []
    else
      var req := m[keys[|keys| - 1]];
      TopFrom(m, pm, keys[..|keys| - 1]) + if req.id !in pm && IsValidReq(req) then [req.id] else []
  }

  /** `updateTopLevelReqs`, visiting the records in the order of their keys. */
  ghost function TopLevel(m: map<string, ReqData>, pm: map<string, string>): seq<string> {
    TopFrom(m, pm, Enumerate(m.Keys))
  }

  /** Inference when the document gave no hierarchy, then the level pass, then the top-level list. */
  ghost function Finish(st: Store): Store {
    var st1 := if st.parentMap == map[] then Infer(st) else st;
    var m := Relevel(st1.reqMap, st1.parentMap);
    Store(m, st1.parentMap, TopLevel(m, st1.parentMap))
  }

  /** What a parse yields: success, the collections, and the namespace. */
  datatype ParseResult = ParseResult(ok: bool, store: Store, ns: string)

  /**
   * `parseXml` on a document, with `ns0` and `st0` the namespace and the
   * collections the parser holds before: a reader error fails with the
   * collections as far as they got; otherwise the store is completed and
   * the parse succeeds when some record is valid.
   */
  ghost function ParseXml(toks: seq<Token>, ns0: string, st0: Store): ParseResult {
    var (s, c) := ScanLoop(toks, Cursor(0, false), ScanStart(st0, ns0));
    if c.error then ParseResult(false, s.st, s.ns)
    else
      var st := Finish(s.st);
      ParseResult(|ValidIds(st.reqMap)| > 0, st, s.ns)
  }

  /**
   * `load`: the collections are cleared (the namespace is kept) and the
   * document parsed; a file that cannot be opened (`None`) fails at once.
   */
  ghost function Load(doc: Option<seq<Token>>, ns0: string): ParseResult {
    match doc
    case None => ParseResult(false, EmptyStore, ns0)
    case Some(toks) => ParseXml(toks, ns0, EmptyStore)
  }

  // ---------------------------------------------------------------------
  // What the main loop keeps

  /**
   * Records are stored under their own identifiers and still at level 1;
   * the open record is at level 1 and carries the open identifier.
   */
  predicate ScanInv(s: ScanState) {
    && WellKeyed(s.st.reqMap)
    && (forall k :: k in s.st.reqMap ==> s.st.reqMap[k].level == 1)
    && s.curReq.level == 1
    && (s.curId != [] ==> s.curReq.id == s.curId)
  }

  /** The attribute parsers change neither the identifier nor the level of the open record. */
  lemma AttrsKeepIdentity(toks: seq<Token>, ns: string, c: Cursor, theValue: string, req: ReqData)
    requires c.pos <= |toks|
    ensures IntegerAttr(toks, ns, c, theValue, req).0.id == req.id
    ensures IntegerAttr(toks, ns, c, theValue, req).0.level == req.level
    ensures XhtmlAttr(toks, ns, c, req).0.id == req.id
    ensures XhtmlAttr(toks, ns, c, req).0.level == req.level
  {
    var (defRef, _) := IntegerRefFrom(toks, ns, c);
    var r := ApplyInteger(req, theValue, defRef);
    var (outcome, c1) := XhtmlRefFrom(toks, ns, c);
    if outcome.Ref? {
      var (value, _) := XhtmlValueFrom(toks, ns, c1);
      var r2 := ApplyXhtml(req, outcome.text, value);
    }
  }

  /** The main loop keeps its invariant. */
  lemma {:induction false} ScanKeeps(toks: seq<Token>, c: Cursor, s: ScanState)
    requires c.pos <= |toks| && ScanInv(s)
    ensures ScanInv(ScanLoop(toks, c, s).0)
    decreases |toks| - c.pos
  {
    if !Ended(toks, c) {
      var (tok, c1) := Next(toks, c);
      match tok
      case StartElement(tns, name, attrs) =>
        if EqualsIgnoreCase(name, "REQ-IF") {
          ScanKeeps(toks, c1, s.(ns := RootNamespace(tns)));
        } else if IsReqifElement(s.ns, tok, "SPEC-OBJECT") {
          var id := AttrValue(attrs, "IDENTIFIER");
          ScanKeeps(toks, c1, s.(curId := id, curReq := NewReq(id)));
        } else if IsReqifElement(s.ns, tok, "SPECIFICATIONS") {
          ScanKeeps(toks, c1, s.(inSpec := true));
        } else if s.inSpec && IsReqifElement(s.ns, tok, "SPEC-HIERARCHY") {
          var (st1, c2) := ParseHierarchy(toks, s.ns, c1, [], s.st);
          HierLoopExtends(toks, s.ns, c1, [], [], s.st);
          ScanKeeps(toks, c2, s.(st := st1));
        } else if IsReqifElement(s.ns, tok, "ATTRIBUTE-VALUE-INTEGER") {
          var (req, c2) := IntegerAttr(toks, s.ns, c1, AttrValue(attrs, "THE-VALUE"), s.curReq);
          AttrsKeepIdentity(toks, s.ns, c1, AttrValue(attrs, "THE-VALUE"), s.curReq);
          ScanKeeps(toks, c2, s.(curReq := req));
        } else if IsReqifElement(s.ns, tok, "ATTRIBUTE-VALUE-XHTML") {
          var (req, c2) := XhtmlAttr(toks, s.ns, c1, s.curReq);
          AttrsKeepIdentity(toks, s.ns, c1, [], s.curReq);
          ScanKeeps(toks, c2, s.(curReq := req));
        } else {
          ScanKeeps(toks, c1, s);
        }
      case EndElement(_, _) =>
        if IsReqifElement(s.ns, tok, "SPEC-OBJECT") && s.curId != [] {
          ScanKeeps(toks, c1, s.(st := s.st.(reqMap := s.st.reqMap[s.curId := s.curReq]), curId := []));
        } else if IsReqifElement(s.ns, tok, "SPECIFICATIONS") {
          ScanKeeps(toks, c1, s.(inSpec := false));
        } else {
          ScanKeeps(toks, c1, s);
        }
      case _ =>
        ScanKeeps(toks, c1, s);
    }
  }

  // ---------------------------------------------------------------------
  // The top-level list

  /** For a well-keyed map, the list holds exactly the visited valid records without a parent. */
  lemma {:induction false} TopFromMembers(m: map<string, ReqData>, pm: map<string, string>, keys: seq<string>)
    requires AllIn(m, keys) && WellKeyed(m)
    ensures forall x :: x in TopFrom(m, pm, keys) <==> x in keys && x !in pm && IsValidReq(m[x])
    decreases |keys|
  {
    if keys != [] {
      TopFromMembers(m, pm, keys[..|keys| - 1]);
      assert keys == keys[..|keys| - 1] + [keys[|keys| - 1]];
    }
  }

  /** Visiting keys in increasing order gives an increasing list. */
  lemma {:induction false} TopFromIncreasing(m: map<string, ReqData>, pm: map<string, string>, keys: seq<string>)
    requires AllIn(m, keys) && WellKeyed(m) && StrictlyIncreasing(keys)
    ensures StrictlyIncreasing(TopFrom(m, pm, keys))
    decreases |keys|
  {
    if keys != [] {
      var init := keys[..|keys| - 1];
      var k := keys[|keys| - 1];
      TopFromIncreasing(m, pm, init);
      TopFromMembers(m, pm, init);
      var a := TopFrom(m, pm, init);
      if k !in pm && IsValidReq(m[k]) {
        forall i | 0 <= i < |a| ensures Less(a[i], k) {
          assert a[i] in a;
          var j :| 0 <= j < |init| && init[j] == a[i];
        }
      }
    }
  }

  /**
   * For a well-keyed map the top-level list is the valid records without a
   * parent, each once, in increasing key order.
   */
  lemma TopLevelIsSorted(m: map<string, ReqData>, pm: map<string, string>)
    requires WellKeyed(m)
    ensures TopLevel(m, pm) == Enumerate(set x | x in m && x !in pm && IsValidReq(m[x]))
  {
    var keys := Enumerate(m.Keys);
    TopFromMembers(m, pm, keys);
    TopFromIncreasing(m, pm, keys);
    IncreasingUnique(TopLevel(m, pm), Enumerate(set x | x in m && x !in pm && IsValidReq(m[x])));
  }

  // ---------------------------------------------------------------------
  // The passes after the main loop

  /** The passes keep every record except its level and parent, and so keep which records are valid. */
  lemma FinishKeepsRecords(st: Store)
    ensures SameRecords(st.reqMap, Finish(st).reqMap)
    ensures ValidIds(Finish(st).reqMap) == ValidIds(st.reqMap)
  {
    var st1 := if st.parentMap == map[] then Infer(st) else st;
    if st.parentMap == map[] {
      InferKeepsOthers(st);
    }
    SameRecordsTransitive(st.reqMap, st1.reqMap, Relevel(st1.reqMap, st1.parentMap));
  }

  /** Inference from records at level 1 leaves every level between 1 and 3. */
  lemma InferLevelsBounded(st: Store)
    requires forall k :: k in st.reqMap ==> st.reqMap[k].level == 1
    ensures forall k :: k in Infer(st).reqMap ==> 1 <= Infer(st).reqMap[k].level <= 3
  {
    InferLevels(st);
  }

  /** The level pass keeps levels between 1 and the walk's limit. */
  lemma RelevelBounded(m: map<string, ReqData>, pm: map<string, string>)
    requires forall k :: k in m ==> 1 <= m[k].level <= MaxLevel
    ensures forall k :: k in Relevel(m, pm) ==> 1 <= Relevel(m, pm)[k].level <= MaxLevel
  {
  }

  /** All levels of a finished store lie between 1 and the walk's limit. */
  lemma FinishLevelsBounded(st: Store)
    requires forall k :: k in st.reqMap ==> st.reqMap[k].level == 1
    ensures forall k :: k in Finish(st).reqMap ==> 1 <= Finish(st).reqMap[k].level <= MaxLevel
  {
    var st1 := if st.parentMap == map[] then Infer(st) else st;
    if st.parentMap == map[] {
      InferLevelsBounded(st);
    }
    RelevelBounded(st1.reqMap, st1.parentMap);
  }

  /** With an explicit hierarchy, every record's level is its depth in the parent map. */
  lemma FinishLevelsExplicit(st: Store)
    requires WellKeyed(st.reqMap) && forall k :: k in st.reqMap ==> st.reqMap[k].level == 1
    requires st.parentMap != map[]
    ensures forall k :: k in Finish(st).reqMap ==> Finish(st).reqMap[k].level == LevelOf(st.parentMap, k)
  {
  }

  /**
   * Without one, each inferred record keeps the level of its sort number and
   * every other record is at level 1.
   */
  lemma FinishLevelsInferred(st: Store)
    requires WellKeyed(st.reqMap) && forall k :: k in st.reqMap ==> st.reqMap[k].level == 1
    requires st.parentMap == map[]
    ensures forall k :: k in Finish(st).reqMap ==>
      Finish(st).reqMap[k].level == if IsCandidate(st.reqMap[k]) then Bucket(st.reqMap[k].sortNum) else 1
  {
    var m := st.reqMap;
    var st1 := Infer(st);
    InferKeepsOthers(st);
    InferLevels(st);
    InferParentKeys(st);
    assert Finish(st).reqMap == Relevel(st1.reqMap, st1.parentMap);
    RelevelInferred(m, st1.reqMap, st1.parentMap);
  }

  /** Re-levelling after the inference leaves inferred levels and puts every other record at level 1. */
  lemma RelevelInferred(m: map<string, ReqData>, m1: map<string, ReqData>, pm1: map<string, string>)
    requires WellKeyed(m) && forall k :: k in m ==> m[k].level == 1
    requires SameRecords(m, m1)
    requires forall k :: k in m ==> m1[k].level == if IsCandidate(m[k]) then Bucket(m[k].sortNum) else m[k].level
    requires forall k :: k in pm1 <==> k in m && IsCandidate(m[k]) && Bucket(m[k].sortNum) > 1
    ensures forall k :: k in Relevel(m1, pm1) ==>
      Relevel(m1, pm1)[k].level == if IsCandidate(m[k]) then Bucket(m[k].sortNum) else 1
  {
    var r := Relevel(m1, pm1);
    forall k | k in r
      ensures r[k].level == if IsCandidate(m[k]) then Bucket(m[k].sortNum) else 1
    {
      var before := m1[k];
      assert r[k] == if before.level <= 1 then before.(level := LevelOf(pm1, before.id)) else before;
      if IsCandidate(m[k]) && Bucket(m[k].sortNum) > 1 {
        assert before.level == Bucket(m[k].sortNum);
      } else {
        assert before.level == 1;
        assert before.id == m[k].id == k;
        assert k !in pm1;
      }
    }
  }

  /** The top-level list of a finished store: its valid records without a parent, in key order. */
  lemma FinishTop(st: Store)
    requires WellKeyed(st.reqMap)
    ensures Finish(st).topReqIds == Enumerate(set x | x in Finish(st).reqMap && x !in Finish(st).parentMap
                                                        && IsValidReq(Finish(st).reqMap[x]))
  {
    FinishKeepsRecords(st);
    TopLevelIsSorted(Finish(st).reqMap, Finish(st).parentMap);
  }

  // ---------------------------------------------------------------------
  // Whole documents

  /**
   * A parse from empty collections keeps records under their own
   * identifiers; it succeeds only without a reader error and with some
   * valid record; after a success every level lies between 1 and the walk's
   * limit and the top-level list is the valid records without a parent, in
   * key order.
   */
  lemma ParseXmlResult(toks: seq<Token>, ns0: string)
    ensures WellKeyed(ParseXml(toks, ns0, EmptyStore).store.reqMap)
    ensures ScanLoop(toks, Cursor(0, false), ScanStart(EmptyStore, ns0)).1.error ==> !ParseXml(toks, ns0, EmptyStore).ok
    ensures !ScanLoop(toks, Cursor(0, false), ScanStart(EmptyStore, ns0)).1.error ==>
      (ParseXml(toks, ns0, EmptyStore).ok <==> ValidIds(ParseXml(toks, ns0, EmptyStore).store.reqMap) != {})
    ensures ParseXml(toks, ns0, EmptyStore).ok ==>
      var st := ParseXml(toks, ns0, EmptyStore).store;
      && (forall k :: k in st.reqMap ==> 1 <= st.reqMap[k].level <= MaxLevel)
      && st.topReqIds == Enumerate(set x | x in st.reqMap && x !in st.parentMap && IsValidReq(st.reqMap[x]))
  {
    var (s, c) := ScanLoop(toks, Cursor(0, false), ScanStart(EmptyStore, ns0));
    ScanKeeps(toks, Cursor(0, false), ScanStart(EmptyStore, ns0));
    if !c.error {
      FinishKeepsRecords(s.st);
      FinishLevelsBounded(s.st);
      FinishTop(s.st);
      var v := ValidIds(Finish(s.st).reqMap);
      assert |v| > 0 <==> v != {};
    }
  }

  /** A file that cannot be opened fails with empty collections and the namespace unchanged. */
  lemma LoadUnopened(ns0: string)
    ensures Load(None, ns0) == ParseResult(false, EmptyStore, ns0)
  {
  }
}
