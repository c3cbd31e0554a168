/**
 * Requirement records, the store the parser fills, and the small queries
 * over it.
 */
module Records {
  import opened Text
  import opened Xml
  import opened Markup

  /** One requirement, as read from a SPEC-OBJECT. */
  datatype ReqData = ReqData(
    id: string,
    name: string,
    description: string,
    sortNum: int,
    level: int,
    parentId: string)

  /** The record a SPEC-OBJECT start opens: only its identifier is set. */
  function NewReq(id: string): ReqData {
    ReqData(id, [], [], 0, 1, [])
  }

  /** The name the authoring tool gives to requirements nobody named. */
  const UnnamedMarker: string := "未命名需求"

  /** A record is shown when it has a name and the name is not the tool's placeholder. */
  predicate IsValidReq(r: ReqData) {
    r.name != [] && !Contains(r.name, UnnamedMarker)
  }

  /** The namespace assumed when the REQ-IF root element has none. */
  const FallbackNamespace: string := "http://www.omg.org/spec/ReqIF/20110401/reqif.xsd"

  /**
   * A start or end tag in the current ReqIF namespace (compared exactly) whose
   * local name is `local` up to case.
   */
  predicate IsReqifElement(ns: string, tok: Token, local: string) {
    (tok.StartElement? || tok.EndElement?) && tok.ns == ns && EqualsIgnoreCase(tok.name, local)
  }

  /** The three collections the parser builds. */
  datatype Store = Store(
    reqMap: map<string, ReqData>,
    parentMap: map<string, string>,
    topReqIds: seq<string>)

  /** The store of a freshly loaded document before parsing. */
  const EmptyStore: Store := Store(map[], map[], [])

  /** Every record is stored under its own, non-empty identifier. */
  predicate WellKeyed(m: map<string, ReqData>) {
    forall k :: k in m ==> k != [] && m[k].id == k
  }

  /** The keys of the valid records. */
  function ValidIds(m: map<string, ReqData>): set<string> {
    set k | k in m && IsValidReq(m[k])
  }

  /** What the description query answers for a record without a description. */
  const NoDescription: string := "[暂无详细描述信息]"

  /** What the description query answers for an unknown identifier. */
  const NotFound: string := "[未找到该需求]"

  /**
   * `getReqDescription`: the stored description, a placeholder when it is
   * empty, another placeholder when the identifier is unknown.
   */
  function ReqDescription(m: map<string, ReqData>, id: string): (r: string)
    ensures r != []
    ensures id in m && m[id].description != [] ==> r == m[id].description
    ensures id in m && m[id].description == [] ==> r == NoDescription
    ensures id !in m ==> r == NotFound
  {
    if id in m then
      var desc := m[id].description;
      if desc == [] then NoDescription else desc
    else NotFound
  }

  /** A record named with the sanitiser's placeholder for empty markup is valid. */
  lemma PlaceholderNameIsValid(r: ReqData)
    requires r.name == NoContent
    ensures IsValidReq(r)
  {
    assert '命' !in r.name;
    assert !Contains(r.name, UnnamedMarker) by {
      forall i | 0 <= i <= |r.name| ensures !OccursAt(r.name, UnnamedMarker, i) {
        if i + |UnnamedMarker| <= |r.name| {
          assert r.name[i..i + |UnnamedMarker|][2] == r.name[i + 2];
        }
      }
    }
  }

  /** A name containing the placeholder marker anywhere makes the record invalid. */
  lemma MarkedNameIsInvalid(r: ReqData, before: string, after: string)
    requires r.name == before + UnnamedMarker + after
    ensures !IsValidReq(r)
  {
    assert OccursAt(r.name, UnnamedMarker, |before|) by {
      assert r.name[|before|..|before| + |UnnamedMarker|] == UnnamedMarker;
    }
  }
}
