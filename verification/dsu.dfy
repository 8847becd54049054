/** The disjoint-set forest used by Kruskal's generator: union by rank with
    path compression over the elements `0 .. n-1`. */
module UnionFind {

  /** `parent[i]` is `i` for a root; `rank` bounds each tree's height. */
  datatype Dsu = Dsu(parent: seq<nat>, rank: seq<nat>)

  /** Parents stay in range and ranks strictly increase towards the root, so
      following parents always ends at a root. */
  ghost predicate Valid(d: Dsu) {
    && |d.parent| == |d.rank|
    && forall i :: 0 <= i < |d.parent| ==>
         d.parent[i] < |d.parent| && (d.parent[i] != i ==> d.rank[i] < d.rank[d.parent[i]])
  }

  function MaxRank(rank: seq<nat>): (m: nat)
    ensures forall i :: 0 <= i < |rank| ==> rank[i] <= m
  {
    if |rank| == 0 then 0
    else
      var rest := MaxRank(rank[1..]);
      assert forall i :: 1 <= i < |rank| ==> rank[i] == rank[1..][i - 1];
      if rank[0] < rest then rest else rank[0]
  }

  /** The representative of `x`: the root its parent chain reaches. */
  function Root(d: Dsu, x: nat): (r: nat)
    requires Valid(d) && x < |d.parent|
    ensures r < |d.parent| && d.parent[r] == r
    ensures d.rank[x] <= d.rank[r]
    ensures d.parent[x] != x ==> d.rank[x] < d.rank[r]
    decreases MaxRank(d.rank) - d.rank[x]
  {
    if d.parent[x] == x then x else Root(d, d.parent[x])
  }

  /** The roots of the forest, one per set. */
  ghost function Roots(d: Dsu): set<nat> {
    set x: nat | x < |d.parent| && d.parent[x] == x
  }

  lemma RootsCard(d: Dsu)
    ensures |Roots(d)| <= |d.parent|
  {
    SubsetCard(Roots(d), Range(|d.parent|));
  }

  /** The elements `0 .. n-1`. */
  function Range(n: nat): (s: set<nat>)
    ensures forall x: int :: x in s <==> 0 <= x < n
    ensures |s| == n
  {
    if n == 0 then {} else Range(n - 1) + {n - 1}
  }

  /** A subset is no larger than its superset. */
  lemma SubsetCard<T>(a: set<T>, b: set<T>)
    requires a <= b
    ensures |a| <= |b|
  {
    if a != {} {
      var x :| x in a;
      SubsetCard(a - {x}, b - {x});
    }
  }

  /** `DSU::reset(n)`: every element alone in its own set. */
  function Reset(n: nat): (d: Dsu)
    ensures Valid(d) && |d.parent| == n
    ensures forall x :: 0 <= x < n ==> d.rank[x] == 0 && Root(d, x) == x
    ensures |Roots(d)| == n
  {
    var d := Dsu(seq(n, i => i), seq(n, _ => 0));
    assert Roots(d) == Range(n);
    d
  }

  /** Pointing `x` straight at its own root changes no representative. */
  lemma CompressKeepsRoots(d: Dsu, x: nat)
    requires Valid(d) && x < |d.parent|
    ensures Valid(d.(parent := d.parent[x := Root(d, x)]))
    ensures Roots(d.(parent := d.parent[x := Root(d, x)])) == Roots(d)
    ensures forall y {:trigger Root(d.(parent := d.parent[x := Root(d, x)]), y)} :: 0 <= y < |d.parent| ==>
      Root(d.(parent := d.parent[x := Root(d, x)]), y) == Root(d, y)
  {
    var d' := d.(parent := d.parent[x := Root(d, x)]);
    forall y | 0 <= y < |d.parent|
      ensures Root(d', y) == Root(d, y)
    {
      CompressRoot(d, x, y);
    }
  }

  lemma {:induction false} CompressRoot(d: Dsu, x: nat, y: nat)
    requires Valid(d) && x < |d.parent| && y < |d.parent|
    ensures Valid(d.(parent := d.parent[x := Root(d, x)]))
    ensures Root(d.(parent := d.parent[x := Root(d, x)]), y) == Root(d, y)
    decreases MaxRank(d.rank) - d.rank[y]
  {
    var z := Root(d, x);
    var d' := d.(parent := d.parent[x := z]);
    if y == x {
      if z != x {
        assert d'.parent[z] == z;
      }
    } else if d.parent[y] != y {
      CompressRoot(d, x, d.parent[y]);
    }
  }

  /** `e` is `d` reorganised: same ranks, same roots and the same
      representative for every element. */
  ghost predicate SameSets(d: Dsu, e: Dsu) {
    && Valid(d) && Valid(e) && |e.parent| == |d.parent| && e.rank == d.rank
    && Roots(e) == Roots(d)
    && forall y {:trigger Root(e, y)} :: 0 <= y < |d.parent| ==> Root(e, y) == Root(d, y)
  }

  lemma SameSetsTrans(d: Dsu, e: Dsu, f: Dsu)
    requires SameSets(d, e) && SameSets(e, f)
    ensures SameSets(d, f)
  {
    forall y | 0 <= y < |d.parent| ensures Root(f, y) == Root(d, y) {
      assert Root(f, y) == Root(e, y);
    }
  }

  /** `DSU::find`: returns `x`'s representative and compresses the path walked. */
  function Find(d: Dsu, x: nat): (res: (nat, Dsu))
    requires Valid(d) && x < |d.parent|
    ensures SameSets(d, res.1)
    ensures res.0 == Root(d, x) && res.1.parent[res.0] == res.0 && res.1.parent[x] == res.0
    decreases MaxRank(d.rank) - d.rank[x]
  {
    if d.parent[x] == x then (x, d)
    else
      var (root, d1) := Find(d, d.parent[x]);
      CompressKeepsRoots(d1, x);
      (root, d1.(parent := d1.parent[x := root]))
  }

  /** Hanging root `lo` under root `hi` merges exactly their two sets. */
  lemma LinkRoots(d: Dsu, hi: nat, lo: nat)
    requires Valid(d) && hi < |d.parent| && lo < |d.parent| && hi != lo
    requires d.parent[hi] == hi && d.parent[lo] == lo && d.rank[lo] <= d.rank[hi]
    ensures Valid(Link(d, hi, lo))
    ensures Roots(Link(d, hi, lo)) == Roots(d) - {lo}
    ensures forall y {:trigger Root(Link(d, hi, lo), y)} :: 0 <= y < |d.parent| ==>
      Root(Link(d, hi, lo), y) == if Root(d, y) == lo then hi else Root(d, y)
  {
    var d' := Link(d, hi, lo);
    forall y | 0 <= y < |d.parent|
      ensures Root(d', y) == if Root(d, y) == lo then hi else Root(d, y)
    {
      LinkRoot(d, hi, lo, y);
    }
  }

  function Link(d: Dsu, hi: nat, lo: nat): Dsu
    requires hi < |d.parent| && lo < |d.parent| && |d.rank| == |d.parent|
  {
    Dsu(d.parent[lo := hi],
        if d.rank[lo] == d.rank[hi] then d.rank[hi := d.rank[hi] + 1] else d.rank)
  }

  lemma {:induction false} LinkRoot(d: Dsu, hi: nat, lo: nat, y: nat)
    requires Valid(d) && hi < |d.parent| && lo < |d.parent| && hi != lo
    requires d.parent[hi] == hi && d.parent[lo] == lo && d.rank[lo] <= d.rank[hi]
    requires y < |d.parent|
    ensures Valid(Link(d, hi, lo))
    ensures Root(Link(d, hi, lo), y) == if Root(d, y) == lo then hi else Root(d, y)
    decreases MaxRank(d.rank) - d.rank[y]
  {
    var d' := Link(d, hi, lo);
    if d.parent[y] == y {
      if y == lo {
        assert d'.parent[hi] == hi;
      }
    } else {
      LinkRoot(d, hi, lo, d.parent[y]);
    }
  }

  /** `DSU::unite`: false when `a` and `b` already share a root; otherwise
      true, with exactly their two sets merged into one (`UniteByRank` says
      which root ends on top). */
  function Unite(d: Dsu, a: nat, b: nat): (res: (bool, Dsu))
    requires Valid(d) && a < |d.parent| && b < |d.parent|
    ensures Valid(res.1) && |res.1.parent| == |d.parent|
    ensures res.0 <==> Root(d, a) != Root(d, b)
    ensures forall y {:trigger Root(res.1, y)} :: 0 <= y < |d.parent| ==>
      Root(res.1, y) == if Root(d, y) == Root(d, a) || Root(d, y) == Root(d, b) then Root(res.1, a) else Root(d, y)
    ensures |Roots(res.1)| == if res.0 then |Roots(d)| - 1 else |Roots(d)|
    ensures !res.0 ==> res.1.rank == d.rank
  {
    var (ra, d1) := Find(d, a);
    var (rb, d2) := Find(d1, b);
    SameSetsTrans(d, d1, d2);
    assert rb == Root(d, b);
    if ra == rb then
      SameSet(d, d2, a, b);
      (false, d2)
    else
      assert ra in Roots(d2) && rb in Roots(d2);
      var r := UnionRoots(d2, ra, rb);
      Merged(d, d2, r, a, b);
      (true, r)
  }

  /** After `unite`, the merged set is represented by one of the two old
      representatives. */
  lemma UniteKeepsRoot(d: Dsu, a: nat, b: nat)
    requires Valid(d) && a < |d.parent| && b < |d.parent|
    ensures Root(Unite(d, a, b).1, a) == Root(d, a) || Root(Unite(d, a, b).1, a) == Root(d, b)
  {
    var (ra, d1) := Find(d, a);
    var (rb, d2) := Find(d1, b);
    SameSetsTrans(d, d1, d2);
    assert rb == Root(d, b);
    assert Root(d2, a) == ra;
    if ra != rb {
      assert ra in Roots(d2) && rb in Roots(d2);
      var (hi, lo) := if d2.rank[ra] < d2.rank[rb] then (rb, ra) else (ra, rb);
      LinkRoots(d2, hi, lo);
      assert Unite(d, a, b).1 == Link(d2, hi, lo);
    }
  }

  /** When the sets differ, `unite` hangs the lower-rank root under the other
      (`b`'s root under `a`'s on a tie) and grows the rank only on a tie. */
  lemma UniteByRank(d: Dsu, a: nat, b: nat)
    requires Valid(d) && a < |d.parent| && b < |d.parent| && Root(d, a) != Root(d, b)
    ensures LinkedByRank(d.rank, Root(d, a), Root(d, b), Unite(d, a, b).1)
  {
    var (ra, d1) := Find(d, a);
    var (rb, d2) := Find(d1, b);
    SameSetsTrans(d, d1, d2);
    assert rb == Root(d, b);
    assert ra in Roots(d2) && rb in Roots(d2);
    assert Unite(d, a, b).1 == UnionRoots(d2, ra, rb);
  }

  /** `unite` on two elements already in one set only compresses paths. */
  lemma SameSet(d: Dsu, d2: Dsu, a: nat, b: nat)
    requires SameSets(d, d2) && a < |d.parent| && b < |d.parent| && Root(d, a) == Root(d, b)
    ensures |Roots(d2)| == |Roots(d)|
    ensures forall y {:trigger Root(d2, y)} :: 0 <= y < |d.parent| ==>
      Root(d2, y) == if Root(d, y) == Root(d, a) || Root(d, y) == Root(d, b) then Root(d2, a) else Root(d, y)
  {
    forall y | 0 <= y < |d.parent|
      ensures Root(d2, y) == if Root(d, y) == Root(d, a) || Root(d, y) == Root(d, b) then Root(d2, a) else Root(d, y)
    {
      assert Root(d2, y) == Root(d, y);
      assert Root(d2, a) == Root(d, a);
    }
  }

  /** `unite` on two elements of different sets merges exactly those two sets. */
  lemma Merged(d: Dsu, d2: Dsu, r: Dsu, a: nat, b: nat)
    requires SameSets(d, d2) && a < |d.parent| && b < |d.parent| && Root(d, a) != Root(d, b)
    requires d2.parent[Root(d, a)] == Root(d, a) && d2.parent[Root(d, b)] == Root(d, b)
    requires r == UnionRoots(d2, Root(d, a), Root(d, b))
    ensures Valid(r) && |r.parent| == |d.parent| && |Roots(r)| == |Roots(d)| - 1
    ensures forall y {:trigger Root(r, y)} :: 0 <= y < |d.parent| ==>
      Root(r, y) == if Root(d, y) == Root(d, a) || Root(d, y) == Root(d, b) then Root(r, a) else Root(d, y)
  {
    var ra, rb := Root(d, a), Root(d, b);
    assert Root(d2, a) == ra;
    assert Root(r, a) == Root(r, ra);
    forall y | 0 <= y < |d.parent|
      ensures Root(r, y) == if Root(d, y) == ra || Root(d, y) == rb then Root(r, a) else Root(d, y)
    {
      assert Root(d2, y) == Root(d, y);
      assert Root(r, y) == if Root(d2, y) == ra || Root(d2, y) == rb then Root(r, ra) else Root(d2, y);
    }
  }

  /** `d'` is `d` with the lower-rank of roots `ra`, `rb` hung under the other
      (`rb` under `ra` on a tie), the new root's rank grown by one on a tie. */
  ghost predicate LinkedByRank(rank: seq<nat>, ra: nat, rb: nat, d': Dsu)
    requires ra < |rank| && rb < |rank|
  {
    var (hi, lo) := if rank[ra] < rank[rb] then (rb, ra) else (ra, rb);
    && lo < |d'.parent| && d'.parent[lo] == hi
    && rank[lo] <= rank[hi]
    && d'.rank == if rank[lo] == rank[hi] then rank[hi := rank[hi] + 1] else rank
  }

  /** The linking half of `unite`, on two distinct roots. */
  function UnionRoots(d: Dsu, ra: nat, rb: nat): (r: Dsu)
    requires Valid(d) && ra < |d.parent| && rb < |d.parent| && ra != rb
    requires d.parent[ra] == ra && d.parent[rb] == rb
    ensures Valid(r) && |r.parent| == |d.parent|
    ensures forall y {:trigger Root(r, y)} :: 0 <= y < |d.parent| ==>
      Root(r, y) == if Root(d, y) == ra || Root(d, y) == rb then Root(r, ra) else Root(d, y)
    ensures |Roots(r)| == |Roots(d)| - 1
    ensures LinkedByRank(d.rank, ra, rb, r)
  {
    var (hi, lo) := if d.rank[ra] < d.rank[rb] then (rb, ra) else (ra, rb);
    LinkRoots(d, hi, lo);
    LinkCount(d, hi, lo);
    Link(d, hi, lo)
  }

  /** Hanging one root under another removes exactly one root. */
  lemma LinkCount(d: Dsu, hi: nat, lo: nat)
    requires Valid(d) && hi < |d.parent| && lo < |d.parent| && hi != lo
    requires d.parent[hi] == hi && d.parent[lo] == lo && d.rank[lo] <= d.rank[hi]
    ensures |Roots(Link(d, hi, lo))| == |Roots(d)| - 1
  {
    LinkRoots(d, hi, lo);
    assert lo in Roots(d);
  }
}
