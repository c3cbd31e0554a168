/**
 * The depth of a requirement in the parent map (`calculateLevel`): one more
 * than the number of parent links followed from it, stopping at a
 * requirement without a parent, at a requirement already visited (a cycle),
 * or after ten links.
 */
module Levels {

  /** The greatest level the walk can report: ten links above level 1. */
  const MaxLevel: int := 11

  /**
   * The walk from `cur` at `level`, having visited `visited`: a link is
   * followed while `cur` has a parent and was not visited yet, and the walk
   * gives up once the level exceeds ten.
   */
  function Walk(pm: map<string, string>, cur: string, visited: set<string>, level: int): (r: int)
    requires 1 <= level <= 10
    ensures level <= r <= MaxLevel
    decreases 10 - level
  {
    if cur in pm && cur !in visited then
      var next := level + 1;
      if next > 10 then next else Walk(pm, pm[cur], visited + {cur}, next)
    else level
  }

  /** `calculateLevel`: 1 for the empty identifier and for one without a parent, otherwise the walk. */
  function LevelOf(pm: map<string, string>, id: string): (r: int)
    ensures 1 <= r <= MaxLevel
    ensures r == 1 <==> id == [] || id !in pm
  {
    if id == [] || id !in pm then 1 else Walk(pm, id, {}, 1)
  }

  // ---------------------------------------------------------------------
  // The level as the length of the ancestor chain

  /** The requirement `n` parent links above `x`; the chain stays put at a requirement without a parent. */
  function Ancestor(pm: map<string, string>, x: string, n: nat): string {
    if n == 0 then x
    else
      var a := Ancestor(pm, x, n - 1);
      if a in pm then pm[a] else a
  }

  /** The first `k` requirements of the chain from `x`. */
  function ChainPrefix(pm: map<string, string>, x: string, k: nat): set<string> {
    set i | 0 <= i < k :: Ancestor(pm, x, i)
  }

  /**
   * The chain from `x` has `d` distinct links: its first `d` members have
   * parents and none repeats an earlier one, and member `d` has no parent or
   * repeats an earlier member.
   */
  predicate ChainLength(pm: map<string, string>, x: string, d: nat) {
    && (forall i :: 0 <= i < d ==> Ancestor(pm, x, i) in pm && Ancestor(pm, x, i) !in ChainPrefix(pm, x, i))
    && (Ancestor(pm, x, d) !in pm || Ancestor(pm, x, d) in ChainPrefix(pm, x, d))
  }

  function Min(a: int, b: int): int {
    if a <= b then a else b
  }

  lemma ChainPrefixNext(pm: map<string, string>, x: string, k: nat)
    ensures ChainPrefix(pm, x, k + 1) == ChainPrefix(pm, x, k) + {Ancestor(pm, x, k)}
  {
  }

  /** The walk from the `k`-th member of a chain of `d` distinct links ends at level `1 + min(d, 10)`. */
  lemma {:induction false} WalkAlongChain(pm: map<string, string>, x: string, d: nat, k: nat)
    requires ChainLength(pm, x, d) && k <= d && k <= 9
    ensures Walk(pm, Ancestor(pm, x, k), ChainPrefix(pm, x, k), 1 + k) == 1 + Min(d, 10)
    decreases d - k
  {
    if k < d {
      assert Ancestor(pm, x, k) in pm && Ancestor(pm, x, k) !in ChainPrefix(pm, x, k);
      if k < 9 {
        ChainPrefixNext(pm, x, k);
        assert Ancestor(pm, x, k + 1) == pm[Ancestor(pm, x, k)];
        WalkAlongChain(pm, x, d, k + 1);
      }
    }
  }

  /**
   * The level of a non-empty requirement is one more than the number of
   * distinct links above it, at most ten: a requirement under a chain of
   * `d` parents ending at a root, or closing a cycle after `d` links, has
   * level `1 + min(d, 10)`.
   */
  lemma LevelIsChainLength(pm: map<string, string>, x: string, d: nat)
    requires x != [] && ChainLength(pm, x, d)
    ensures LevelOf(pm, x) == 1 + Min(d, 10)
  {
    if x in pm {
      assert ChainPrefix(pm, x, 0) == {};
      WalkAlongChain(pm, x, d, 0);
    } else {
      // the chain has no link: its first member has no parent
      assert Ancestor(pm, x, 0) == x;
      assert d == 0;
    }
  }

  /** A requirement directly under a root has level 2. */
  lemma ChildOfRoot(pm: map<string, string>, x: string, root: string)
    requires x != [] && x in pm && pm[x] == root && root !in pm
    ensures LevelOf(pm, x) == 2
  {
    assert Ancestor(pm, x, 1) == root;
    assert ChainPrefix(pm, x, 1) == {x} by { ChainPrefixNext(pm, x, 0); }
    assert ChainLength(pm, x, 1);
    LevelIsChainLength(pm, x, 1);
  }

  /** Two requirements that are each other's parent both get level 3: the cycle is cut after two links. */
  lemma TwoCycle(pm: map<string, string>, a: string, b: string)
    requires a != [] && a != b && a in pm && b in pm && pm[a] == b && pm[b] == a
    ensures LevelOf(pm, a) == 3
  {
    assert Ancestor(pm, a, 1) == b;
    assert Ancestor(pm, a, 2) == a;
    ChainPrefixNext(pm, a, 0);
    ChainPrefixNext(pm, a, 1);
    assert ChainPrefix(pm, a, 2) == {a, b};
    assert ChainLength(pm, a, 2);
    LevelIsChainLength(pm, a, 2);
  }

  /** A requirement that is its own parent gets level 2. */
  lemma SelfParent(pm: map<string, string>, a: string)
    requires a != [] && a in pm && pm[a] == a
    ensures LevelOf(pm, a) == 2
  {
    assert Ancestor(pm, a, 1) == a;
    ChainPrefixNext(pm, a, 0);
    assert ChainLength(pm, a, 1);
    LevelIsChainLength(pm, a, 1);
  }
}
