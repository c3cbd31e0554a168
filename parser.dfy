/**
 * The parser object (`ReqifParser`): the record map, the parent map, the
 * top-level list and the namespace, updated in place by `load` and the
 * passes it runs. Every method is proved to do what the specification
 * functions of the other modules say.
 */
module Parser {
  import opened Text
  import opened Xml
  import opened Markup
  import opened Records
  import opened Content
  import opened Attributes
  import opened Hierarchy
  import opened Inference
  import opened Levels
  import opened Parse

  /** A strictly increasing sequence repeats no element. */
  lemma IncreasingFresh(s: seq<string>, i: nat)
    requires StrictlyIncreasing(s) && i < |s|
    ensures s[i] !in s[..i]
  {
    if s[i] in s[..i] {
      var j :| 0 <= j < i && s[j] == s[i];
      LessIrreflexive(s[i]);
    }
  }

  /** Taking the least of the remaining keys extends the enumerated prefix by one. */
  lemma EnumerateTail(all: set<string>, done: seq<string>, rest: set<string>, k: string)
    requires Enumerate(all) == done + Enumerate(rest) && IsLeast(k, rest)
    ensures Enumerate(all) == (done + [k]) + Enumerate(rest - {k})
  {
    EnumerateLeast(rest, k);
    assert done + ([k] + Enumerate(rest - {k})) == (done + [k]) + Enumerate(rest - {k});
  }

  class ReqifParser {
    var reqMap: map<string, ReqData>
    var parentMap: map<string, string>
    var topReqIds: seq<string>
    var reqifNamespace: string

    /** A parser holds nothing before its first document. */
    constructor ()
      ensures reqMap == map[] && parentMap == map[] && topReqIds == [] && reqifNamespace == []
    {
      reqMap := map[];
      parentMap := map[];
      topReqIds := [];
      reqifNamespace := [];
    }

    /** The three collections as one value. */
    function Collections(): Store
      reads this
    {
      Store(reqMap, parentMap, topReqIds)
    }

    /** The keys of the record map in the order the map enumerates them. */
    method OrderedKeys() returns (keys: seq<string>)
      ensures keys == Enumerate(reqMap.Keys)
    {
      keys := [];
      var rest := reqMap.Keys;
      while rest != {}
        invariant Enumerate(reqMap.Keys) == keys + Enumerate(rest)
        decreases |rest|
      {
        LeastExists(rest);
        var k :| k in rest && IsLeast(k, rest);
        EnumerateTail(reqMap.Keys, keys, rest, k);
        keys := keys + [k];
        rest := rest - {k};
      }
    }

    /** `load`: clears the collections, keeps the namespace, and parses the document if it could be opened. */
    method Load(doc: Option<seq<Token>>) returns (ok: bool)
      modifies this
      ensures ParseResult(ok, Collections(), reqifNamespace) == Parse.Load(doc, old(reqifNamespace))
    {
      reqMap := map[];
      parentMap := map[];
      topReqIds := [];
      match doc {
        case None =>
          ok := false;
        case Some(toks) =>
          ok := ParseXml(toks);
      }
    }

    /** `parseXml`: the main loop, then the passes that complete the collections. */
    method ParseXml(toks: seq<Token>) returns (ok: bool)
      modifies this
      ensures ParseResult(ok, Collections(), reqifNamespace)
           == Parse.ParseXml(toks, old(reqifNamespace), old(Collections()))
    {
      var xml := new XmlReader(toks);
      var curId: string := [];
      var curReq := NewReq([]);
      var inSpec := false;
      ghost var start := ScanStart(Collections(), reqifNamespace);
      while !xml.AtEnd()
        invariant xml.Valid() && xml.tokens == toks
        invariant ScanLoop(toks, Cursor(0, false), start)
               == ScanLoop(toks, xml.At(), ScanState(Collections(), reqifNamespace, curId, curReq, inSpec))
        decreases |toks| - xml.pos
      {
        var tok := xml.ReadNext();
        match tok {
          case StartElement(tns, name, attrs) =>
            if EqualsIgnoreCase(name, "REQ-IF") {
              reqifNamespace := tns;
              if reqifNamespace == [] {
                reqifNamespace := FallbackNamespace;
              }
            } else if IsReqifElement(reqifNamespace, tok, "SPEC-OBJECT") {
              curId := AttrValue(attrs, "IDENTIFIER");
              curReq := NewReq(curId);
            } else if IsReqifElement(reqifNamespace, tok, "SPECIFICATIONS") {
              inSpec := true;
            } else if inSpec && IsReqifElement(reqifNamespace, tok, "SPEC-HIERARCHY") {
              ParseHierarchy(xml, []);
            } else if IsReqifElement(reqifNamespace, tok, "ATTRIBUTE-VALUE-INTEGER") {
              curReq := ParseIntegerAttribute(xml, attrs, curReq);
            } else if IsReqifElement(reqifNamespace, tok, "ATTRIBUTE-VALUE-XHTML") {
              curReq := ParseXhtmlAttribute(xml, curReq);
            }
          case EndElement(_, _) =>
            if IsReqifElement(reqifNamespace, tok, "SPEC-OBJECT") && curId != [] {
              reqMap := reqMap[curId := curReq];
              curId := [];
            } else if IsReqifElement(reqifNamespace, tok, "SPECIFICATIONS") {
              inSpec := false;
            }
          case _ =>
        }
      }
      if xml.error {
        return false;
      }
      ghost var scanned := Collections();
      if parentMap == map[] {
        InferHierarchyFromSortNumbers();
      }
      UpdateLevels();
      UpdateTopLevelReqs();
      assert Collections() == Finish(scanned);
      var count := GetValidReqCount();
      ok := count > 0;
    }

    /** `parseHierarchy`, entered just after the start tag of a SPEC-HIERARCHY. */
    method ParseHierarchy(xml: XmlReader, parentId: string)
      requires xml.Valid()
      modifies this, xml
      ensures xml.Valid() && reqifNamespace == old(reqifNamespace)
      ensures (Collections(), xml.At())
           == Hierarchy.ParseHierarchy(xml.tokens, reqifNamespace, old(xml.At()), parentId, old(Collections()))
      decreases |xml.tokens| - xml.pos
    {
      var childId: string := [];
      ghost var ns := reqifNamespace;
      ghost var c0 := xml.At();
      ghost var st0 := Collections();
      while !xml.AtEnd()
        invariant xml.Valid() && reqifNamespace == ns
        invariant old(xml.pos) <= xml.pos
        invariant HierLoop(xml.tokens, ns, c0, parentId, [], st0)
               == HierLoop(xml.tokens, ns, xml.At(), parentId, childId, Collections())
        decreases |xml.tokens| - xml.pos
      {
        var tok := xml.ReadNext();
        if tok.StartElement? && IsReqifElement(reqifNamespace, tok, "SPEC-OBJECT-REF") {
          var text := xml.ReadElementText();
          childId := Trim(text);
          if childId != [] {
            if parentId != [] {
              parentMap := parentMap[childId := parentId];
              if childId in reqMap {
                reqMap := reqMap[childId := reqMap[childId].(parentId := parentId)];
              }
            } else if childId !in topReqIds {
              topReqIds := topReqIds + [childId];
            }
          }
        } else if tok.StartElement? && IsReqifElement(reqifNamespace, tok, "SPEC-HIERARCHY") {
          ParseHierarchy(xml, childId);
        } else if tok.EndElement? && IsReqifElement(reqifNamespace, tok, "SPEC-HIERARCHY") {
          return;
        }
      }
    }

    /** `parseIntegerAttribute`, entered just after the start tag of ATTRIBUTE-VALUE-INTEGER with attributes `attrs`. */
    method ParseIntegerAttribute(xml: XmlReader, attrs: seq<Attr>, req: ReqData) returns (r: ReqData)
      requires xml.Valid()
      modifies xml
      ensures xml.Valid()
      ensures (r, xml.At()) == IntegerAttr(xml.tokens, reqifNamespace, old(xml.At()), AttrValue(attrs, "THE-VALUE"), req)
    {
      var theValue := AttrValue(attrs, "THE-VALUE");
      var defRef: string := [];
      ghost var c0 := xml.At();
      while !xml.AtEnd()
        invariant xml.Valid() && defRef == []
        invariant IntegerRefFrom(xml.tokens, reqifNamespace, c0) == IntegerRefFrom(xml.tokens, reqifNamespace, xml.At())
        decreases |xml.tokens| - xml.pos
      {
        var tok := xml.ReadNext();
        if tok.StartElement? && IsReqifElement(reqifNamespace, tok, "ATTRIBUTE-DEFINITION-INTEGER-REF") {
          defRef := xml.ReadElementText();
          break;
        } else if tok.EndElement? && IsReqifElement(reqifNamespace, tok, "ATTRIBUTE-VALUE-INTEGER") {
          break;
        }
      }
      assert (defRef, xml.At()) == IntegerRefFrom(xml.tokens, reqifNamespace, c0);
      r := req;
      if defRef != [] && ContainsIgnoreCase(defRef, SortNumberRef) {
        r := r.(sortNum := ToInt(theValue));
      }
    }

    /** `parseXhtmlAttribute`, entered just after the start tag of ATTRIBUTE-VALUE-XHTML. */
    method ParseXhtmlAttribute(xml: XmlReader, req: ReqData) returns (r: ReqData)
      requires xml.Valid()
      modifies xml
      ensures xml.Valid()
      ensures (r, xml.At()) == XhtmlAttr(xml.tokens, reqifNamespace, old(xml.At()), req)
    {
      var defRef: string := [];
      var theValue: string := [];
      ghost var c0 := xml.At();
      while !xml.AtEnd()
        invariant xml.Valid() && defRef == []
        invariant XhtmlRefFrom(xml.tokens, reqifNamespace, c0) == XhtmlRefFrom(xml.tokens, reqifNamespace, xml.At())
        decreases |xml.tokens| - xml.pos
      {
        var tok := xml.ReadNext();
        if tok.StartElement? && IsReqifElement(reqifNamespace, tok, "ATTRIBUTE-DEFINITION-XHTML-REF") {
          defRef := xml.ReadElementText();
          break;
        } else if tok.EndElement? && IsReqifElement(reqifNamespace, tok, "ATTRIBUTE-VALUE-XHTML") {
          return req;
        }
      }
      assert (Ref(defRef), xml.At()) == XhtmlRefFrom(xml.tokens, reqifNamespace, c0);
      ghost var c1 := xml.At();
      while !xml.AtEnd()
        invariant xml.Valid() && theValue == []
        invariant XhtmlValueFrom(xml.tokens, reqifNamespace, c1) == XhtmlValueFrom(xml.tokens, reqifNamespace, xml.At())
        decreases |xml.tokens| - xml.pos
      {
        var tok := xml.ReadNext();
        if tok.StartElement? && IsReqifElement(reqifNamespace, tok, "THE-VALUE") {
          theValue := ReadXhtmlContent(xml);
          break;
        } else if tok.EndElement? && IsReqifElement(reqifNamespace, tok, "ATTRIBUTE-VALUE-XHTML") {
          break;
        }
      }
      assert (theValue, xml.At()) == XhtmlValueFrom(xml.tokens, reqifNamespace, c1);
      r := req;
      if defRef == [] {
        return;
      }
      if ContainsIgnoreCase(defRef, NameRef) {
        r := r.(name := CleanHtml(theValue));
      } else if ContainsIgnoreCase(defRef, DescriptionRef) {
        r := r.(description := CleanHtml(theValue));
      }
    }

    /** `readXhtmlContent`, entered just after the start tag of THE-VALUE. */
    method ReadXhtmlContent(xml: XmlReader) returns (content: string)
      requires xml.Valid()
      modifies xml
      ensures xml.Valid()
      ensures (content, xml.At()) == XhtmlContent(xml.tokens, old(xml.At()))
    {
      content := [];
      var depth := 1;
      ghost var c0 := xml.At();
      while !xml.AtEnd() && depth > 0
        invariant xml.Valid()
        invariant XhtmlContent(xml.tokens, c0) == ContentFrom(xml.tokens, xml.At(), depth, content)
        decreases |xml.tokens| - xml.pos
      {
        ghost var cPrev, dPrev, accPrev := xml.At(), depth, content;
        var tok := xml.ReadNext();
        match tok {
          case StartElement(_, name, attrs) =>
            depth := depth + 1;
            content := WriteStartTag(content, name, attrs);
          case EndElement(_, name) =>
            depth := depth - 1;
            if depth > 0 {
              content := content + "</" + name + ">";
              assert content == accPrev + CloseTag(name);
            }
          case Characters(t) =>
            content := content + t;
          case _ =>
        }
        assert ContentFrom(xml.tokens, cPrev, dPrev, accPrev) == ContentFrom(xml.tokens, xml.At(), depth, content);
      }
    }

    /** The start-tag branch of `readXhtmlContent`: the name, then each attribute in order, then `>`. */
    static method WriteStartTag(content: string, name: string, attrs: seq<Attr>) returns (r: string)
      ensures r == content + OpenTag(name, attrs)
    {
      r := content + "<" + name;
      for i := 0 to |attrs|
        invariant r == content + "<" + name + AttrsText(attrs[..i])
      {
        AttrsTextSnoc(attrs[..i], attrs[i]);
        assert attrs[..i + 1] == attrs[..i] + [attrs[i]];
        r := r + AttrText(attrs[i]);
      }
      assert attrs[..|attrs|] == attrs;
      r := r + ">";
    }

    /** `inferHierarchyFromSortNumbers`. */
    method InferHierarchyFromSortNumbers()
      modifies this
      ensures Collections() == Infer(old(Collections())) && reqifNamespace == old(reqifNamespace)
    {
      var keys := OrderedKeys();
      var validReqs := CollectCandidates(keys);
      if validReqs == [] {
        return;
      }
      InferOrder(reqMap);
      var order := SortBySortNum(reqMap, validReqs);
      AssignLevels(order);
    }

    /** The first loop of `inferHierarchyFromSortNumbers`: the valid records with a positive sort number, in the order of `keys`. */
    method CollectCandidates(keys: seq<string>) returns (validReqs: seq<string>)
      requires AllIn(reqMap, keys)
      ensures validReqs == CandidatesOf(reqMap, keys)
    {
      validReqs := [];
      for i := 0 to |keys|
        invariant validReqs == CandidatesOf(reqMap, keys[..i])
      {
        assert keys[..i + 1][..i] == keys[..i];
        var req := reqMap[keys[i]];
        if req.sortNum > 0 && IsValidReq(req) {
          validReqs := validReqs + [keys[i]];
        }
      }
      assert keys[..|keys|] == keys;
    }

    /** The last loop of `inferHierarchyFromSortNumbers`, over the candidates sorted by sort number. */
    method AssignLevels(order: seq<string>)
      requires AllIn(reqMap, order)
      modifies this
      ensures var s := InferLoop(InferStart(old(Collections())), order);
        reqMap == s.reqMap && parentMap == s.parentMap && topReqIds == s.topReqIds
      ensures reqifNamespace == old(reqifNamespace)
    {
      ghost var s0 := InferStart(Collections());
      var lastLevel1: string, lastLevel2: string := [], [];
      for i := 0 to |order|
        invariant reqifNamespace == old(reqifNamespace)
        invariant InferState(reqMap, parentMap, topReqIds, lastLevel1, lastLevel2) == InferLoop(s0, order[..i])
      {
        assert order[..i + 1][..i] == order[..i];
        var k := order[i];
        var req := reqMap[k];
        if req.sortNum < 10 {
          reqMap := reqMap[k := req.(level := 1, parentId := [])];
          lastLevel1 := req.id;
          lastLevel2 := [];
          if req.id !in topReqIds {
            topReqIds := topReqIds + [req.id];
          }
        } else if req.sortNum < 100 {
          reqMap := reqMap[k := req.(level := 2, parentId := lastLevel1)];
          lastLevel2 := req.id;
          parentMap := parentMap[req.id := lastLevel1];
        } else {
          reqMap := reqMap[k := req.(level := 3, parentId := lastLevel2)];
          parentMap := parentMap[req.id := lastLevel2];
        }
      }
      assert order[..|order|] == order;
    }

    /**
     * The level pass of `parseXml`: records at level 1 or below get their
     * computed level. The records are visited in an arbitrary order, which
     * the result does not depend on.
     */
    method UpdateLevels()
      modifies this
      ensures reqMap == Relevel(old(reqMap), parentMap)
      ensures parentMap == old(parentMap) && topReqIds == old(topReqIds) && reqifNamespace == old(reqifNamespace)
    {
      ghost var m0 := reqMap;
      var rest := reqMap.Keys;
      while rest != {}
        invariant parentMap == old(parentMap) && topReqIds == old(topReqIds) && reqifNamespace == old(reqifNamespace)
        invariant rest <= m0.Keys && reqMap.Keys == m0.Keys
        invariant forall k :: k in m0 ==> reqMap[k] == if k in rest then m0[k] else Relevel(m0, parentMap)[k]
        decreases |rest|
      {
        var k :| k in rest;
        if reqMap[k].level <= 1 {
          var level := CalculateLevel(reqMap[k].id);
          reqMap := reqMap[k := reqMap[k].(level := level)];
        }
        rest := rest - {k};
      }
    }

    /** `updateTopLevelReqs`. */
    method UpdateTopLevelReqs()
      modifies this
      ensures topReqIds == TopLevel(reqMap, parentMap)
      ensures reqMap == old(reqMap) && parentMap == old(parentMap) && reqifNamespace == old(reqifNamespace)
    {
      var keys := OrderedKeys();
      topReqIds := CollectTopLevel(keys);
    }

    /** The loop of `updateTopLevelReqs` over `keys`: the valid records without a parent, in that order. */
    method CollectTopLevel(keys: seq<string>) returns (top: seq<string>)
      requires AllIn(reqMap, keys)
      ensures top == TopFrom(reqMap, parentMap, keys)
    {
      top := [];
      for i := 0 to |keys|
        invariant top == TopFrom(reqMap, parentMap, keys[..i])
      {
        assert keys[..i + 1][..i] == keys[..i];
        var req := reqMap[keys[i]];
        if req.id !in parentMap && IsValidReq(req) {
          top := top + [req.id];
        }
      }
      assert keys[..|keys|] == keys;
    }

    /** `calculateLevel`. */
    method CalculateLevel(reqId: string) returns (level: int)
      ensures level == LevelOf(parentMap, reqId)
    {
      if reqId == [] || reqId !in parentMap {
        return 1;
      }
      level := 1;
      var currentId := reqId;
      var visited: set<string> := {};
      while currentId in parentMap && currentId !in visited
        invariant 1 <= level <= 10
        invariant LevelOf(parentMap, reqId) == Walk(parentMap, currentId, visited, level)
        decreases 10 - level
      {
        visited := visited + {currentId};
        level := level + 1;
        currentId := parentMap[currentId];
        if level > 10 {
          break;
        }
      }
    }

    /** `getReqDescription`. */
    method GetReqDescription(reqId: string) returns (desc: string)
      ensures desc == ReqDescription(reqMap, reqId)
    {
      if reqId in reqMap {
        desc := reqMap[reqId].description;
        if desc == [] {
          desc := NoDescription;
        }
      } else {
        desc := NotFound;
      }
    }

    /** `getAllReqCount`: the number of records, which bounds the number of valid ones. */
    method GetAllReqCount() returns (n: int)
      ensures n == |reqMap| && |ValidIds(reqMap)| <= n
    {
      var valid := ValidIds(reqMap);
      assert reqMap.Keys == valid + (reqMap.Keys - valid);
      assert |reqMap.Keys| == |reqMap|;
      n := |reqMap|;
    }

    /** `getValidReqCount`: the records are visited in an arbitrary order. */
    method GetValidReqCount() returns (count: int)
      ensures count == |ValidIds(reqMap)|
    {
      count := 0;
      var rest := reqMap.Keys;
      ghost var counted: set<string> := {};
      while rest != {}
        invariant rest <= reqMap.Keys && count == |counted|
        invariant counted == ValidIds(reqMap) - rest
        decreases |rest|
      {
        var k :| k in rest;
        if IsValidReq(reqMap[k]) {
          count := count + 1;
          counted := counted + {k};
        }
        rest := rest - {k};
      }
    }
  }
}
