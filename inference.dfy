/**
 * The hierarchy inferred from sort numbers (`inferHierarchyFromSortNumbers`),
 * used when a document carries no explicit hierarchy: valid requirements
 * with a positive sort number are taken in order of sort number; a number
 * below 10 makes a top-level requirement, one below 100 a child of the last
 * top-level requirement seen, and any other a child of the last level-2
 * requirement seen.
 */
module Inference {
  import opened Text
  import opened Records

  /** The level a sort number puts a requirement at. */
  function Bucket(sortNum: int): int {
    if sortNum < 10 then 1 else if sortNum < 100 then 2 else 3
  }

  /** A record that takes part in the inference. */
  predicate IsCandidate(r: ReqData) {
    r.sortNum > 0 && IsValidReq(r)
  }

  /** A non-empty sequence is its prefix followed by its last element. */
  lemma SplitLast(s: seq<string>)
    requires s != []
    ensures s == s[..|s| - 1] + [s[|s| - 1]]
  {
  }

  /** The keys of `keys`, in their order, whose records take part. */
  function CandidatesOf(m: map<string, ReqData>, keys: seq<string>): (r: seq<string>)
    ensures forall x :: x in r <==> x in keys && x in m && IsCandidate(m[x])
    decreases |keys|
  {
    if keys == [] then []
    else
      var k := keys[|keys| - 1];
      var rest := CandidatesOf(m, keys[..|keys| - 1]);
      assert forall x :: x in keys <==> x in keys[..|keys| - 1] || x == k by {
        assert keys == keys[..|keys| - 1] + [k];
      }
      if k in m && IsCandidate(m[k]) then rest + [k] else rest
  }

  /** The candidates in the order in which the record map enumerates them. */
  ghost function Candidates(m: map<string, ReqData>): seq<string> {
    CandidatesOf(m, Enumerate(m.Keys))
  }

  // ---------------------------------------------------------------------
  // Ordering by sort number

  predicate AllIn(m: map<string, ReqData>, s: seq<string>) {
    forall i :: 0 <= i < |s| ==> s[i] in m
  }

  /** `order` lists records by non-decreasing sort number. */
  predicate SortedBySortNum(m: map<string, ReqData>, order: seq<string>) {
    AllIn(m, order) && forall i, j :: 0 <= i < j < |order| ==> m[order[i]].sortNum <= m[order[j]].sortNum
  }

  /** Inserts `x` into a sorted sequence after every element whose sort number is not greater. */
  function InsertBySortNum(m: map<string, ReqData>, x: string, s: seq<string>): (r: seq<string>)
    requires x in m && SortedBySortNum(m, s)
    ensures multiset(r) == multiset(s) + multiset{x}
    ensures forall y :: y in r <==> y in s || y == x
    ensures SortedBySortNum(m, r)
    decreases |s|
  {
    if s == [] then [x]
    else if m[x].sortNum < m[s[0]].sortNum then [x] + s
    else
      var t := InsertBySortNum(m, x, s[1..]);
      assert s == [s[0]] + s[1..];
      ConsSorted(m, s[0], s[1..], x, t);
      [s[0]] + t
  }

  /** A head no greater than every element of a sorted tail and than `x` heads the tail with `x` inserted. */
  lemma ConsSorted(m: map<string, ReqData>, a: string, tail: seq<string>, x: string, t: seq<string>)
    requires a in m && x in m && SortedBySortNum(m, [a] + tail) && m[a].sortNum <= m[x].sortNum
    requires SortedBySortNum(m, t) && forall y :: y in t <==> y in tail || y == x
    ensures SortedBySortNum(m, [a] + t)
  {
    forall i | 0 <= i < |t| ensures m[a].sortNum <= m[t[i]].sortNum {
      if t[i] != x {
        assert t[i] in t;
        assert t[i] in tail;
        var j :| 0 <= j < |tail| && tail[j] == t[i];
        assert ([a] + tail)[0] == a && ([a] + tail)[j + 1] == tail[j];
      }
    }
    var r := [a] + t;
    forall i, j | 0 <= i < j < |r| ensures m[r[i]].sortNum <= m[r[j]].sortNum {
      if i > 0 {
        assert r[i] == t[i - 1] && r[j] == t[j - 1];
      } else {
        assert r[j] == t[j - 1];
      }
    }
  }

  /**
   * The order the inference visits the candidates in. The source sorts with
   * an unstable sort, which leaves the order among equal sort numbers open;
   * this insertion sort keeps the enumeration order among them.
   */
  function SortBySortNum(m: map<string, ReqData>, s: seq<string>): (r: seq<string>)
    requires AllIn(m, s)
    ensures multiset(r) == multiset(s)
    ensures SortedBySortNum(m, r)
    decreases |s|
  {
    if s == [] then []
    else
      var init := s[..|s| - 1];
      assert s == init + [s[|s| - 1]];
      InsertBySortNum(m, s[|s| - 1], SortBySortNum(m, init))
  }

  // ---------------------------------------------------------------------
  // The assignment loop

  /** The collections and the two "last seen" identifiers of the loop. */
  datatype InferState = InferState(
    reqMap: map<string, ReqData>,
    parentMap: map<string, string>,
    topReqIds: seq<string>,
    last1: string,
    last2: string)

  /** One iteration, for the record under key `k`. */
  function InferStep(s: InferState, k: string): (r: InferState)
    requires k in s.reqMap
    ensures r.reqMap.Keys == s.reqMap.Keys
  {
    var req := s.reqMap[k];
    if req.sortNum < 10 then
      var top := if req.id in s.topReqIds then s.topReqIds else s.topReqIds + [req.id];
      InferState(s.reqMap[k := req.(level := 1, parentId := [])], s.parentMap, top, req.id, [])
    else if req.sortNum < 100 then
      InferState(s.reqMap[k := req.(level := 2, parentId := s.last1)], s.parentMap[req.id := s.last1],
                 s.topReqIds, s.last1, req.id)
    else
      InferState(s.reqMap[k := req.(level := 3, parentId := s.last2)], s.parentMap[req.id := s.last2],
                 s.topReqIds, s.last1, s.last2)
  }

  /** The loop over `order`, from state `s0`. */
  function InferLoop(s0: InferState, order: seq<string>): (r: InferState)
    requires AllIn(s0.reqMap, order)
    ensures r.reqMap.Keys == s0.reqMap.Keys
    decreases |order|
  {
    if order == [] then s0
    else InferStep(InferLoop(s0, order[..|order| - 1]), order[|order| - 1])
  }

  /** The state the loop starts from. */
  function InferStart(st: Store): InferState {
    InferState(st.reqMap, st.parentMap, st.topReqIds, [], [])
  }

  /** `inferHierarchyFromSortNumbers`: nothing happens when no record takes part. */
  ghost function Infer(st: Store): Store {
    var cands := Candidates(st.reqMap);
    if cands == [] then st
    else
      var s := InferLoop(InferStart(st), SortBySortNum(st.reqMap, cands));
      Store(s.reqMap, s.parentMap, s.topReqIds)
  }

  // ---------------------------------------------------------------------
  // What the loop does

  /** The identifier of the last record of `order` at level `b`, or the empty string when there is none. */
  function LastAt(m: map<string, ReqData>, order: seq<string>, b: int): string
    requires AllIn(m, order)
    decreases |order|
  {
    if order == [] then []
    else
      var k := order[|order| - 1];
      if Bucket(m[k].sortNum) == b then m[k].id else LastAt(m, order[..|order| - 1], b)
  }

  /** Two record maps agree on keys and on every field except level and parent. */
  predicate SameRecords(m: map<string, ReqData>, m': map<string, ReqData>) {
    m'.Keys == m.Keys && forall k :: k in m ==> m'[k] == m[k].(level := m'[k].level, parentId := m'[k].parentId)
  }

  /** Changing only levels and parents, twice over, changes only levels and parents and keeps validity. */
  lemma SameRecordsTransitive(m: map<string, ReqData>, m': map<string, ReqData>, m'': map<string, ReqData>)
    requires SameRecords(m, m') && SameRecords(m', m'')
    ensures SameRecords(m, m'')
    ensures ValidIds(m'') == ValidIds(m)
  {
    forall k | k in m ensures m''[k] == m[k].(level := m''[k].level, parentId := m''[k].parentId) {
      assert m'[k] == m[k].(level := m'[k].level, parentId := m'[k].parentId);
    }
    forall k | k in m ensures IsValidReq(m''[k]) == IsValidReq(m[k]) {
      assert m''[k].name == m[k].name;
    }
  }

  /** What one iteration does to the records. */
  lemma InferStepReqMap(s: InferState, k: string)
    requires k in s.reqMap
    ensures var req, b := s.reqMap[k], Bucket(s.reqMap[k].sortNum);
      InferStep(s, k).reqMap
        == s.reqMap[k := req.(level := b, parentId := if b == 1 then [] else if b == 2 then s.last1 else s.last2)]
  {
  }

  /** What one iteration does to the top-level list. */
  lemma InferStepTop(s: InferState, k: string)
    requires k in s.reqMap
    ensures var id := s.reqMap[k].id;
      InferStep(s, k).topReqIds
        == if s.reqMap[k].sortNum < 10 && id !in s.topReqIds then s.topReqIds + [id] else s.topReqIds
  {
  }

  /** The loop changes only the level and the parent of the records it visits. */
  lemma {:induction false} InferLoopShape(s0: InferState, order: seq<string>)
    requires AllIn(s0.reqMap, order)
    ensures SameRecords(s0.reqMap, InferLoop(s0, order).reqMap)
    ensures forall k :: k in s0.reqMap && k !in order ==> InferLoop(s0, order).reqMap[k] == s0.reqMap[k]
    decreases |order|
  {
    if order != [] {
      var init := order[..|order| - 1];
      var k := order[|order| - 1];
      var s := InferLoop(s0, init);
      InferLoopShape(s0, init);
      InferStepReqMap(s, k);
      assert InferLoop(s0, order).reqMap == InferStep(s, k).reqMap;
      SplitLast(order);
    }
  }

  /** Every visited record gets the level of its sort number. */
  lemma {:induction false} InferLoopLevels(s0: InferState, order: seq<string>)
    requires AllIn(s0.reqMap, order)
    ensures forall i :: 0 <= i < |order| ==>
      InferLoop(s0, order).reqMap[order[i]].level == Bucket(s0.reqMap[order[i]].sortNum)
    decreases |order|
  {
    if order != [] {
      var init := order[..|order| - 1];
      InferLoopLevels(s0, init);
      InferLoopShape(s0, init);
      forall i | 0 <= i < |order|
        ensures InferLoop(s0, order).reqMap[order[i]].level == Bucket(s0.reqMap[order[i]].sortNum)
      {
        if order[i] != order[|order| - 1] {
          assert order[i] == init[i];
        }
      }
    }
  }

  /** No record at level `b`: no last identifier. */
  lemma {:induction false} LastAtNone(m: map<string, ReqData>, order: seq<string>, b: int)
    requires AllIn(m, order) && forall i :: 0 <= i < |order| ==> Bucket(m[order[i]].sortNum) != b
    ensures LastAt(m, order, b) == []
    decreases |order|
  {
    if order != [] {
      LastAtNone(m, order[..|order| - 1], b);
    }
  }

  /** The loop's "last seen" identifiers, on a sorted order. */
  lemma {:induction false} InferLoopLast(s0: InferState, order: seq<string>)
    requires SortedBySortNum(s0.reqMap, order) && s0.last1 == [] && s0.last2 == []
    ensures InferLoop(s0, order).last1 == LastAt(s0.reqMap, order, 1)
    ensures InferLoop(s0, order).last2 == LastAt(s0.reqMap, order, 2)
    decreases |order|
  {
    if order != [] {
      var init := order[..|order| - 1];
      var k := order[|order| - 1];
      InferLoopLast(s0, init);
      InferLoopShape(s0, init);
      if s0.reqMap[k].sortNum < 10 {
        LastAtNone(s0.reqMap, init, 2);
      }
    }
  }

  /**
   * On a sorted order the parents are flat: a level-1 record has none, every
   * level-2 record hangs under the last level-1 record of the order and every
   * level-3 record under the last level-2 record (the empty identifier when
   * there is none).
   */
  lemma {:induction false} InferLoopParents(s0: InferState, order: seq<string>)
    requires SortedBySortNum(s0.reqMap, order) && s0.last1 == [] && s0.last2 == []
    ensures forall i :: 0 <= i < |order| ==>
      InferLoop(s0, order).reqMap[order[i]].parentId == ParentFor(s0.reqMap, order, order[i])
    decreases |order|
  {
    if order != [] {
      var init := order[..|order| - 1];
      var k := order[|order| - 1];
      var m := s0.reqMap;
      var s := InferLoop(s0, init);
      InferLoopParents(s0, init);
      InferLoopLast(s0, init);
      InferLoopShape(s0, init);
      InferStepReqMap(s, k);
      assert s.reqMap[k].sortNum == m[k].sortNum;
      assert InferLoop(s0, order).reqMap == InferStep(s, k).reqMap;
      SplitLast(order);
      SortedLast(m, order, init, k);
      ParentsStep(m, order, init, k, s.reqMap, s.last1, s.last2, InferLoop(s0, order).reqMap);
    }
  }

  /** One iteration keeps the parents given along a sorted prefix right for the longer order. */
  lemma ParentsStep(m: map<string, ReqData>, order: seq<string>, init: seq<string>, k: string,
                    rm0: map<string, ReqData>, l1: string, l2: string, rm: map<string, ReqData>)
    requires order == init + [k] && AllIn(m, order) && AllIn(m, init) && k in m
    requires forall i :: 0 <= i < |init| ==> m[init[i]].sortNum <= m[k].sortNum
    requires forall i :: 0 <= i < |init| ==> init[i] in rm0 && rm0[init[i]].parentId == ParentFor(m, init, init[i])
    requires l1 == LastAt(m, init, 1) && l2 == LastAt(m, init, 2)
    requires k in rm && rm == rm0[k := rm[k]]
    requires rm[k].parentId == if Bucket(m[k].sortNum) == 1 then [] else if Bucket(m[k].sortNum) == 2 then l1 else l2
    ensures forall i :: 0 <= i < |order| ==> order[i] in rm && rm[order[i]].parentId == ParentFor(m, order, order[i])
  {
    forall i | 0 <= i < |order|
      ensures order[i] in rm && rm[order[i]].parentId == ParentFor(m, order, order[i])
    {
      var x := order[i];
      if x != k {
        assert x == init[i];
        ParentForSnocOld(m, init, k, x);
        assert x in rm0 && rm[x] == rm0[x];
      } else {
        ParentForSnocNew(m, init, k);
      }
    }
  }

  /** The parent the inference gives the record under `k`, in terms of the whole order. */
  function ParentFor(m: map<string, ReqData>, order: seq<string>, k: string): string
    requires AllIn(m, order) && k in m
  {
    var b := Bucket(m[k].sortNum);
    if b == 1 then [] else LastAt(m, order, b - 1)
  }

  /** What one iteration does to the parent map. */
  lemma InferStepParentMap(s: InferState, k: string)
    requires k in s.reqMap
    ensures var b := Bucket(s.reqMap[k].sortNum);
      InferStep(s, k).parentMap
        == if b == 1 then s.parentMap else s.parentMap[s.reqMap[k].id := if b == 2 then s.last1 else s.last2]
  {
  }

  /** The same parents are recorded in the parent map, for a well-keyed map. */
  lemma {:induction false} InferLoopParentMap(s0: InferState, order: seq<string>)
    requires SortedBySortNum(s0.reqMap, order) && s0.last1 == [] && s0.last2 == []
    requires WellKeyed(s0.reqMap)
    ensures forall i :: 0 <= i < |order| && Bucket(s0.reqMap[order[i]].sortNum) > 1 ==>
      order[i] in InferLoop(s0, order).parentMap &&
      InferLoop(s0, order).parentMap[order[i]] == ParentFor(s0.reqMap, order, order[i])
    decreases |order|
  {
    if order != [] {
      var init := order[..|order| - 1];
      var k := order[|order| - 1];
      var s := InferLoop(s0, init);
      InferLoopParentMap(s0, init);
      InferLoopLast(s0, init);
      InferLoopShape(s0, init);
      InferStepParentMap(s, k);
      assert s.reqMap[k].sortNum == s0.reqMap[k].sortNum && s.reqMap[k].id == k;
      assert InferLoop(s0, order).parentMap == InferStep(s, k).parentMap;
      SplitLast(order);
      SortedLast(s0.reqMap, order, init, k);
      ParentMapStep(s0.reqMap, order, init, k, s.parentMap, s.last1, s.last2, InferLoop(s0, order).parentMap);
    }
  }

  /** In a sorted order no element before the last has a greater sort number. */
  lemma SortedLast(m: map<string, ReqData>, order: seq<string>, init: seq<string>, k: string)
    requires SortedBySortNum(m, order) && order == init + [k]
    ensures AllIn(m, init) && k in m
    ensures forall i :: 0 <= i < |init| ==> m[init[i]].sortNum <= m[k].sortNum
  {
    assert order[|init|] == k;
    forall i | 0 <= i < |init| ensures init[i] in m && m[init[i]].sortNum <= m[k].sortNum {
      assert order[i] == init[i];
    }
  }

  /** One iteration keeps the parents recorded for a sorted prefix right for the longer order. */
  lemma ParentMapStep(m: map<string, ReqData>, order: seq<string>, init: seq<string>, k: string,
                      pm0: map<string, string>, l1: string, l2: string, pm: map<string, string>)
    requires order == init + [k] && AllIn(m, order) && AllIn(m, init) && k in m
    requires forall i :: 0 <= i < |init| ==> m[init[i]].sortNum <= m[k].sortNum
    requires forall i :: 0 <= i < |init| && Bucket(m[init[i]].sortNum) > 1 ==>
      init[i] in pm0 && pm0[init[i]] == ParentFor(m, init, init[i])
    requires l1 == LastAt(m, init, 1) && l2 == LastAt(m, init, 2)
    requires pm == if Bucket(m[k].sortNum) == 1 then pm0 else pm0[k := if Bucket(m[k].sortNum) == 2 then l1 else l2]
    ensures forall i :: 0 <= i < |order| && Bucket(m[order[i]].sortNum) > 1 ==>
      order[i] in pm && pm[order[i]] == ParentFor(m, order, order[i])
  {
    forall i | 0 <= i < |order| && Bucket(m[order[i]].sortNum) > 1
      ensures order[i] in pm && pm[order[i]] == ParentFor(m, order, order[i])
    {
      var x := order[i];
      if x != k {
        assert x == init[i];
        ParentForSnocOld(m, init, k, x);
        assert x in pm0 && pm[x] == pm0[x];
      } else {
        ParentForSnocNew(m, init, k);
      }
    }
  }

  /** A record visited earlier keeps its parent when a record with no smaller sort number follows. */
  lemma ParentForSnocOld(m: map<string, ReqData>, init: seq<string>, k: string, x: string)
    requires AllIn(m, init) && k in m && x in m && AllIn(m, init + [k])
    requires m[x].sortNum <= m[k].sortNum
    ensures ParentFor(m, init + [k], x) == ParentFor(m, init, x)
  {
    LastAtSnoc(m, init, k, 1);
    LastAtSnoc(m, init, k, 2);
  }

  /** The parent of the record visited last: the last identifier one level up before it. */
  lemma ParentForSnocNew(m: map<string, ReqData>, init: seq<string>, k: string)
    requires AllIn(m, init) && k in m && AllIn(m, init + [k])
    ensures var b := Bucket(m[k].sortNum);
      ParentFor(m, init + [k], k) == if b == 1 then [] else LastAt(m, init, b - 1)
  {
    LastAtSnoc(m, init, k, 1);
    LastAtSnoc(m, init, k, 2);
  }

  /** The last identifier at a level, once one more key is visited. */
  lemma LastAtSnoc(m: map<string, ReqData>, init: seq<string>, k: string, b: int)
    requires AllIn(m, init) && k in m && AllIn(m, init + [k])
    ensures LastAt(m, init + [k], b) == if Bucket(m[k].sortNum) == b then m[k].id else LastAt(m, init, b)
  {
    assert (init + [k])[..|init|] == init;
  }

  /** Every visited level-1 record joins the top-level list, which only grows. */
  lemma {:induction false} InferLoopTop(s0: InferState, order: seq<string>)
    requires AllIn(s0.reqMap, order)
    ensures s0.topReqIds <= InferLoop(s0, order).topReqIds
    ensures forall i :: 0 <= i < |order| && s0.reqMap[order[i]].sortNum < 10 ==>
      s0.reqMap[order[i]].id in InferLoop(s0, order).topReqIds
    decreases |order|
  {
    if order != [] {
      var init := order[..|order| - 1];
      var k := order[|order| - 1];
      var s := InferLoop(s0, init);
      InferLoopTop(s0, init);
      InferLoopShape(s0, init);
      InferStepTop(s, k);
      assert s.reqMap[k].sortNum == s0.reqMap[k].sortNum && s.reqMap[k].id == s0.reqMap[k].id;
      assert InferLoop(s0, order).topReqIds == InferStep(s, k).topReqIds;
      SplitLast(order);
      TopStep(s0.reqMap, order, init, k, s.topReqIds, InferLoop(s0, order).topReqIds);
    }
  }

  /** One iteration keeps the top-level list right for the longer order. */
  lemma TopStep(m: map<string, ReqData>, order: seq<string>, init: seq<string>, k: string,
                top0: seq<string>, top: seq<string>)
    requires order == init + [k] && AllIn(m, init) && k in m
    requires forall i :: 0 <= i < |init| && m[init[i]].sortNum < 10 ==> m[init[i]].id in top0
    requires top == if m[k].sortNum < 10 && m[k].id !in top0 then top0 + [m[k].id] else top0
    ensures top0 <= top
    ensures forall i :: 0 <= i < |order| && m[order[i]].sortNum < 10 ==> m[order[i]].id in top
  {
    forall i | 0 <= i < |order| && m[order[i]].sortNum < 10
      ensures m[order[i]].id in top
    {
      if i < |init| {
        assert order[i] == init[i];
      }
    }
  }

  /** The keys of the records of `order` above level 1. */
  function Linked(m: map<string, ReqData>, order: seq<string>): set<string>
    requires AllIn(m, order)
    decreases |order|
  {
    if order == [] then {}
    else
      var k := order[|order| - 1];
      Linked(m, order[..|order| - 1]) + if Bucket(m[k].sortNum) > 1 then {k} else {}
  }

  lemma {:induction false} LinkedMembers(m: map<string, ReqData>, order: seq<string>)
    requires AllIn(m, order)
    ensures forall x :: x in Linked(m, order) <==> x in order && Bucket(m[x].sortNum) > 1
    decreases |order|
  {
    if order != [] {
      LinkedMembers(m, order[..|order| - 1]);
      assert order == order[..|order| - 1] + [order[|order| - 1]];
    }
  }

  /** The parent map gains exactly the visited records above level 1, for a well-keyed map. */
  lemma {:induction false} InferLoopParentKeys(s0: InferState, order: seq<string>)
    requires AllIn(s0.reqMap, order) && WellKeyed(s0.reqMap)
    ensures InferLoop(s0, order).parentMap.Keys == s0.parentMap.Keys + Linked(s0.reqMap, order)
    decreases |order|
  {
    if order != [] {
      var init := order[..|order| - 1];
      var k := order[|order| - 1];
      var s := InferLoop(s0, init);
      InferLoopParentKeys(s0, init);
      InferLoopShape(s0, init);
      InferStepParentMap(s, k);
      assert s.reqMap[k].sortNum == s0.reqMap[k].sortNum && s.reqMap[k].id == k;
      assert InferLoop(s0, order).parentMap == InferStep(s, k).parentMap;
    }
  }

  // ---------------------------------------------------------------------
  // What the inference does, whatever the order among equal sort numbers

  /**
   * `p` is what the inference links records of level `b + 1` to: a candidate
   * at level `b` with the greatest sort number there, or the empty
   * identifier when level `b` has no candidate.
   */
  predicate LastOfLevel(m: map<string, ReqData>, p: string, b: int) {
    if exists k :: k in m && IsCandidate(m[k]) && Bucket(m[k].sortNum) == b then
      && p in m && IsCandidate(m[p]) && Bucket(m[p].sortNum) == b
      && forall k :: k in m && IsCandidate(m[k]) && Bucket(m[k].sortNum) == b ==> m[k].sortNum <= m[p].sortNum
    else p == []
  }

  /** In a sorted, well-keyed order the last identifier at a level carries the greatest sort number there. */
  lemma {:induction false} LastAtGreatest(m: map<string, ReqData>, order: seq<string>, b: int)
    requires SortedBySortNum(m, order) && WellKeyed(m)
    ensures LastAt(m, order, b) == [] ==> forall i :: 0 <= i < |order| ==> Bucket(m[order[i]].sortNum) != b
    ensures LastAt(m, order, b) != [] ==>
      && LastAt(m, order, b) in order && Bucket(m[LastAt(m, order, b)].sortNum) == b
      && forall i :: 0 <= i < |order| && Bucket(m[order[i]].sortNum) == b ==> m[order[i]].sortNum <= m[LastAt(m, order, b)].sortNum
    decreases |order|
  {
    if order != [] {
      var init := order[..|order| - 1];
      var k := order[|order| - 1];
      if Bucket(m[k].sortNum) != b {
        LastAtGreatest(m, init, b);
        forall i | 0 <= i < |order| - 1 ensures order[i] == init[i] {}
      }
    }
  }

  /** The visiting order holds exactly the candidates. */
  lemma InferOrder(m: map<string, ReqData>)
    ensures AllIn(m, Candidates(m))
    ensures forall x :: x in SortBySortNum(m, Candidates(m)) <==> x in m && IsCandidate(m[x])
  {
    var cands := Candidates(m);
    forall x ensures x in SortBySortNum(m, cands) <==> x in cands {
      assert x in SortBySortNum(m, cands) <==> x in multiset(SortBySortNum(m, cands));
    }
  }

  /** Only candidates change, and only in level and parent. */
  lemma InferKeepsOthers(st: Store)
    ensures SameRecords(st.reqMap, Infer(st).reqMap)
    ensures forall k :: k in st.reqMap && !IsCandidate(st.reqMap[k]) ==> Infer(st).reqMap[k] == st.reqMap[k]
  {
    var cands := Candidates(st.reqMap);
    InferOrder(st.reqMap);
    if cands != [] {
      InferLoopShape(InferStart(st), SortBySortNum(st.reqMap, cands));
    }
  }

  /** Every candidate gets the level of its sort number: 1 below 10, 2 below 100, 3 otherwise; no other level changes. */
  lemma InferLevels(st: Store)
    ensures Infer(st).reqMap.Keys == st.reqMap.Keys
    ensures forall k :: k in st.reqMap ==>
      Infer(st).reqMap[k].level == if IsCandidate(st.reqMap[k]) then Bucket(st.reqMap[k].sortNum) else st.reqMap[k].level
  {
    var m := st.reqMap;
    var cands := Candidates(m);
    InferOrder(m);
    if cands != [] {
      var order := SortBySortNum(m, cands);
      InferLoopLevels(InferStart(st), order);
      InferLoopShape(InferStart(st), order);
      forall k | k in m && IsCandidate(m[k]) ensures Infer(st).reqMap[k].level == Bucket(m[k].sortNum) {
        var i :| 0 <= i < |order| && order[i] == k;
      }
    }
  }

  /** Over an order holding exactly the candidates, the last identifier at a level is the one the inference links to. */
  lemma LastAtIsLastOfLevel(m: map<string, ReqData>, order: seq<string>, b: int)
    requires SortedBySortNum(m, order) && WellKeyed(m)
    requires forall x :: x in order <==> x in m && IsCandidate(m[x])
    ensures LastOfLevel(m, LastAt(m, order, b), b)
  {
    LastAtGreatest(m, order, b);
    var p := LastAt(m, order, b);
    if p != [] {
      forall j | j in m && IsCandidate(m[j]) && Bucket(m[j].sortNum) == b ensures m[j].sortNum <= m[p].sortNum {
        var i :| 0 <= i < |order| && order[i] == j;
      }
    } else {
      forall j | j in m && IsCandidate(m[j]) ensures Bucket(m[j].sortNum) != b {
        var i :| 0 <= i < |order| && order[i] == j;
      }
    }
  }

  /**
   * For a well-keyed map, a level-1 candidate gets no parent; a candidate at
   * level 2 or 3 is linked, in its record and in the parent map, to a
   * candidate one level up with the greatest sort number there, or to the
   * empty identifier when that level has no candidate.
   */
  lemma InferParents(st: Store)
    requires WellKeyed(st.reqMap)
    ensures forall k :: k in st.reqMap && IsCandidate(st.reqMap[k]) && Bucket(st.reqMap[k].sortNum) == 1 ==>
      Infer(st).reqMap[k].parentId == []
    ensures forall k :: k in st.reqMap && IsCandidate(st.reqMap[k]) && Bucket(st.reqMap[k].sortNum) > 1 ==>
      && LastOfLevel(st.reqMap, Infer(st).reqMap[k].parentId, Bucket(st.reqMap[k].sortNum) - 1)
      && k in Infer(st).parentMap && Infer(st).parentMap[k] == Infer(st).reqMap[k].parentId
  {
    var m := st.reqMap;
    InferOrder(m);
    if Candidates(m) != [] {
      var order := SortBySortNum(m, Candidates(m));
      var r := Infer(st);
      InferParentsBySort(st);
      LastAtIsLastOfLevel(m, order, 1);
      LastAtIsLastOfLevel(m, order, 2);
      forall k | k in m && IsCandidate(m[k]) && Bucket(m[k].sortNum) > 1
        ensures LastOfLevel(m, r.reqMap[k].parentId, Bucket(m[k].sortNum) - 1)
      {
        if Bucket(m[k].sortNum) == 2 {
          assert r.reqMap[k].parentId == LastAt(m, order, 1);
        } else {
          assert r.reqMap[k].parentId == LastAt(m, order, 2);
        }
      }
    }
  }

  /** Each candidate's parent, in its record and in the parent map, is the one `ParentFor` picks from the sorted order. */
  lemma InferParentsBySort(st: Store)
    requires WellKeyed(st.reqMap) && Candidates(st.reqMap) != []
    ensures AllIn(st.reqMap, Candidates(st.reqMap))
    ensures forall k :: k in st.reqMap && IsCandidate(st.reqMap[k]) ==>
      && Infer(st).reqMap[k].parentId == ParentFor(st.reqMap, SortBySortNum(st.reqMap, Candidates(st.reqMap)), k)
      && (Bucket(st.reqMap[k].sortNum) > 1 ==> k in Infer(st).parentMap && Infer(st).parentMap[k] == Infer(st).reqMap[k].parentId)
  {
    var m := st.reqMap;
    InferOrder(m);
    var order := SortBySortNum(m, Candidates(m));
    var s0 := InferStart(st);
    InferLoopParents(s0, order);
    InferLoopParentMap(s0, order);
    forall k | k in m && IsCandidate(m[k])
      ensures Infer(st).reqMap[k].parentId == ParentFor(m, order, k)
      ensures Bucket(m[k].sortNum) > 1 ==> k in Infer(st).parentMap && Infer(st).parentMap[k] == ParentFor(m, order, k)
    {
      var i :| 0 <= i < |order| && order[i] == k;
    }
  }

  /** Starting from an empty parent map, exactly the candidates above level 1 are linked. */
  lemma InferParentKeys(st: Store)
    requires WellKeyed(st.reqMap) && st.parentMap == map[]
    ensures forall k :: k in Infer(st).parentMap <==> k in st.reqMap && IsCandidate(st.reqMap[k]) && Bucket(st.reqMap[k].sortNum) > 1
  {
    var m := st.reqMap;
    var cands := Candidates(m);
    InferOrder(m);
    if cands != [] {
      var order := SortBySortNum(m, cands);
      InferLoopParentKeys(InferStart(st), order);
      LinkedMembers(m, order);
    } else {
      forall k | k in m ensures !IsCandidate(m[k]) {
        assert k in Enumerate(m.Keys);
      }
    }
  }
}
