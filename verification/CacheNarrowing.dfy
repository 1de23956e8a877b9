/** Tags are passed on as 32-bit ints although addresses have 64 bits. When does that matter? */
module CacheNarrowing {
  import opened Basics
  import opened Recency
  import opened CacheModel

  function Whole(x: int): int {
    x
  }

  /** The tags that addresses of `pool` have in set `i`. */
  function TagsOf(c: Shape, pool: set<int>, i: nat): set<int> {
    set x | x in pool && SetOf(c.s, c.b, x) == i :: WideTag(c.s, c.b, x)
  }

  /** No two addresses of one set have different tags with the same low 32 bits. */
  ghost predicate Apart(c: Shape, pool: set<int>) {
    forall x, y :: x in pool && y in pool && SetOf(c.s, c.b, x) == SetOf(c.s, c.b, y) &&
                   ToInt(WideTag(c.s, c.b, x)) == ToInt(WideTag(c.s, c.b, y)) ==>
                     WideTag(c.s, c.b, x) == WideTag(c.s, c.b, y)
  }

  ghost predicate Within(trace: seq<Access>, pool: set<int>) {
    forall k :: 0 <= k < |trace| ==> trace[k].address in pool
  }

  /** Narrow and whole tags lead to the same three counters. */
  ghost predicate SameCounts(c: Shape, trace: seq<Access>)
    requires 0 < c.e
  {
    var x, y := Run(c, ToInt, trace), Run(c, Whole, trace);
    x.hit == y.hit && x.miss == y.miss && x.evict == y.evict
  }

  function Narrow(r: seq<int>): (n: seq<int>)
    ensures |n| == |r|
  {
    seq(|r|, k requires 0 <= k < |r| => ToInt(r[k]))
  }

  ghost predicate Injective(tags: set<int>) {
    forall s, t :: s in tags && t in tags && ToInt(s) == ToInt(t) ==> s == t
  }

  lemma NarrowPlace(r: seq<int>, t: int, tags: set<int>)
    requires Injective(tags) && t in tags && forall k :: 0 <= k < |r| ==> r[k] in tags
    ensures Place(Narrow(r), ToInt(t)) == Place(r, t)
  {
    hide ToInt, Place;
    var k := Place(r, t);
    assert forall i :: 0 <= i < k ==> r[i] == r[..k][i] && r[i] != t;
    PlaceIs(Narrow(r), ToInt(t), k);
  }

  lemma NarrowLru(e: nat, r: seq<int>, t: int, tags: set<int>)
    requires 0 < e && Injective(tags) && t in tags && forall k :: 0 <= k < |r| ==> r[k] in tags
    ensures Lru(e, Narrow(r), ToInt(t)) == Narrow(Lru(e, r, t))
    ensures forall k :: 0 <= k < |Lru(e, r, t)| ==> Lru(e, r, t)[k] in tags
  {
    hide ToInt, Place, Injective, Narrow;
    NarrowPlace(r, t, tags);
    var k := Place(r, t);
    NarrowLength(r);
    if k < |r| {
      NarrowDrop(r, t, k);
      DropWithin(r, k, tags);
    } else if |r| < e {
      NarrowPush(r, t);
    } else {
      NarrowCut(r, t, e - 1);
    }
  }

  lemma NarrowLength(r: seq<int>)
    ensures |Narrow(r)| == |r|
  {
  }

  lemma NarrowPush(r: seq<int>, t: int)
    ensures Narrow([t] + r) == [ToInt(t)] + Narrow(r)
  {
    hide ToInt;
  }

  lemma NarrowCut(r: seq<int>, t: int, n: nat)
    requires n <= |r|
    ensures n <= |Narrow(r)| && Narrow([t] + r[..n]) == [ToInt(t)] + Narrow(r)[..n]
  {
    hide ToInt;
    assert Narrow(r[..n]) == Narrow(r)[..n];
    NarrowPush(r[..n], t);
  }

  lemma NarrowDrop(r: seq<int>, t: int, k: nat)
    requires k < |r|
    ensures k < |Narrow(r)| && Narrow([t] + Drop(r, k)) == [ToInt(t)] + Drop(Narrow(r), k)
  {
    hide ToInt;
    assert Narrow(Drop(r, k)) == Drop(Narrow(r), k);
    NarrowPush(Drop(r, k), t);
  }

  lemma DropWithin(r: seq<int>, k: nat, tags: set<int>)
    requires k < |r| && forall i :: 0 <= i < |r| ==> r[i] in tags
    ensures forall i :: 0 <= i < |Drop(r, k)| ==> Drop(r, k)[i] in tags
  {
  }

  /** The lists of the narrow simulation are those of the whole one, narrowed. */
  ghost predicate Narrows(c: Shape, pool: set<int>, x: Sim, y: Sim) {
    && |x.lists| == |y.lists| == Pow2(c.s)
    && x.hit == y.hit && x.miss == y.miss && x.evict == y.evict
    && forall i :: 0 <= i < |y.lists| ==>
         x.lists[i] == Narrow(y.lists[i]) && forall k :: 0 <= k < |y.lists[i]| ==> y.lists[i][k] in TagsOf(c, pool, i)
  }

  lemma NarrowLoad(c: Shape, pool: set<int>, x: Sim, y: Sim, i: nat, t: int)
    requires 0 < c.e && Narrows(c, pool, x, y) && i < Pow2(c.s)
    requires Injective(TagsOf(c, pool, i)) && t in TagsOf(c, pool, i)
    ensures Narrows(c, pool, Load(c.e, x, i, ToInt(t)), Load(c.e, y, i, t))
  {
    hide ToInt, Place, Lru, Narrow, TagsOf, Injective;
    NarrowLru(c.e, y.lists[i], t, TagsOf(c, pool, i));
    NarrowPlace(y.lists[i], t, TagsOf(c, pool, i));
  }

  lemma ApartInjective(c: Shape, pool: set<int>, i: nat)
    requires Apart(c, pool)
    ensures Injective(TagsOf(c, pool, i))
  {
  }

  lemma {:induction false} ApartNarrows(c: Shape, pool: set<int>, trace: seq<Access>)
    requires 0 < c.e && Apart(c, pool) && Within(trace, pool)
    ensures Narrows(c, pool, Run(c, ToInt, trace), Run(c, Whole, trace))
  {
    hide Apart, Injective, Load, ToInt, SetOf, WideTag;
    if trace != [] {
      var init, a := trace[..|trace| - 1], trace[|trace| - 1];
      ApartNarrows(c, pool, init);
      var i, t := SetOf(c.s, c.b, a.address), WideTag(c.s, c.b, a.address);
      assert a.address in pool;
      ApartInjective(c, pool, i);
      NarrowLoad(c, pool, Run(c, ToInt, init), Run(c, Whole, init), i, t);
    }
  }

  /** Two addresses that clash: the second load is counted as a hit, and is a miss. */
  lemma ClashMiscounts(c: Shape, x: int, y: int)
    requires 0 < c.e && SetOf(c.s, c.b, x) == SetOf(c.s, c.b, y)
    requires ToInt(WideTag(c.s, c.b, x)) == ToInt(WideTag(c.s, c.b, y)) && WideTag(c.s, c.b, x) != WideTag(c.s, c.b, y)
    ensures Run(c, ToInt, [Access('L', x), Access('L', y)]).hit == 1
    ensures Run(c, Whole, [Access('L', x), Access('L', y)]).hit == 0
  {
    hide ToInt, SetOf, WideTag;
    var trace := [Access('L', x), Access('L', y)];
    assert trace[..1] == [Access('L', x)] && trace[..1][..0] == [];
    FirstLoad(c, ToInt, x);
    FirstLoad(c, Whole, x);
  }

  /** Two 64-bit addresses that clash in every cache with `s + b` below 31: 0 and 2^(32 + s + b). */
  lemma ClashExists(c: Shape)
    requires 0 < c.e
    ensures var y := 0x1_0000_0000 * Pow2(c.b + c.s);
            && (c.s + c.b < 31 ==> y < 0x8000_0000_0000_0000)
            && !Apart(c, {0, y})
            && Run(c, ToInt, [Access('L', 0), Access('L', y)]).hit == 1
            && Run(c, Whole, [Access('L', 0), Access('L', y)]).hit == 0
  {
    hide Pow2, Run, Place;
    var y := 0x1_0000_0000 * Pow2(c.b + c.s);
    FarAddress(c.s, c.b);
    SmallShape(c.s + c.b);
    assert ToInt(0x1_0000_0000) == 0 == ToInt(0);
    assert 0 in {0, y} && y in {0, y};
    ClashMiscounts(c, 0, y);
  }

  lemma FarAddress(s: nat, b: nat)
    ensures var y := 0x1_0000_0000 * Pow2(b + s);
            && SetOf(s, b, y) == 0 == SetOf(s, b, 0)
            && WideTag(s, b, y) == 0x1_0000_0000 && WideTag(s, b, 0) == 0
  {
    hide Pow2;
    var p, q, n := Pow2(b), Pow2(s), 0x1_0000_0000;
    Pow2Add(b, s);
    Unique(n * (p * q), p * q, n, 0);
    assert n * (p * q) == p * (n * q);
    Unique(n * (p * q), p, n * q, 0);
    Unique(n * q, q, n, 0);
    assert n * q == q * n + 0;
    assert (n * q) % q == n * q - q * ((n * q) / q);
    Unique(0, p, 0, 0);
    Unique(0, q, 0, 0);
    Unique(0, p * q, 0, 0);
  }

  lemma {:induction false} SmallShape(n: nat)
    ensures n < 31 ==> Pow2(n) <= 0x4000_0000
  {
    if n < 31 {
      PowRises(n, 30);
      Pow2Thirty();
    }
  }

  lemma {:induction false} PowRises(m: nat, n: nat)
    requires m <= n
    ensures Pow2(m) <= Pow2(n)
  {
    if m < n {
      PowRises(m, n - 1);
    }
  }

  lemma Pow2Thirty()
    ensures Pow2(30) == 0x4000_0000
  {
    assert Pow2(10) == 1024;
    Pow2Add(10, 10);
    Pow2Add(20, 10);
  }

  lemma FirstLoad(c: Shape, cut: int -> int, x: int)
    requires 0 < c.e
    ensures var t, i := Run(c, cut, [Access('L', x)]), SetOf(c.s, c.b, x);
            t.hit == 0 && t.lists[i] == [cut(WideTag(c.s, c.b, x))]
  {
    hide SetOf, WideTag;
    assert [Access('L', x)][..0] == [];
    var i := SetOf(c.s, c.b, x);
    assert Fresh(c).lists[i] == [];
  }

  /** The narrow simulation counts right on every trace over a pool of addresses if and only if no two
      of them clash. */
  lemma NarrowingHarmless(c: Shape, pool: set<int>)
    requires 0 < c.e
    ensures Apart(c, pool) <==> forall trace :: Within(trace, pool) ==> SameCounts(c, trace)
  {
    if Apart(c, pool) {
      forall trace | Within(trace, pool) ensures SameCounts(c, trace) {
        ApartNarrows(c, pool, trace);
      }
    } else {
      hide ToInt, SetOf, WideTag, Run;
      var x, y :| x in pool && y in pool && SetOf(c.s, c.b, x) == SetOf(c.s, c.b, y) &&
                  ToInt(WideTag(c.s, c.b, x)) == ToInt(WideTag(c.s, c.b, y)) &&
                  WideTag(c.s, c.b, x) != WideTag(c.s, c.b, y);
      var trace := [Access('L', x), Access('L', y)];
      assert Within(trace, pool);
      ClashMiscounts(c, x, y);
    }
  }

  /** Addresses below `2^(31 + s + b)` never clash. */
  lemma SmallTagsFit(c: Shape, pool: set<int>)
    requires forall x :: x in pool ==> (-0x8000_0000) * Pow2(c.b + c.s) <= x < 0x8000_0000 * Pow2(c.b + c.s)
    ensures Apart(c, pool)
  {
    hide ToInt, WideTag, SetOf;
    forall x | x in pool ensures ToInt(WideTag(c.s, c.b, x)) == WideTag(c.s, c.b, x) {
      SmallTag(c, x);
    }
  }

  lemma SmallTag(c: Shape, x: int)
    requires (-0x8000_0000) * Pow2(c.b + c.s) <= x < 0x8000_0000 * Pow2(c.b + c.s)
    ensures ToInt(WideTag(c.s, c.b, x)) == WideTag(c.s, c.b, x)
  {
    hide Pow2;
    Quotient(x, Pow2(c.b + c.s), 0x8000_0000);
    SmallToInt(x / Pow2(c.b + c.s));
  }

  lemma SmallToInt(t: int)
    requires -0x8000_0000 <= t < 0x8000_0000
    ensures ToInt(t) == t
  {
    ToIntMeans(t, t);
  }

  lemma Quotient(x: int, p: int, n: int)
    requires 0 < p && (-n) * p <= x < n * p
    ensures -n <= x / p < n
  {
    var q := x / p;
    assert p * q <= x < p * (q + 1);
    Times(q, n, p);
    Times(-n, q + 1, p);
  }
}
