/** The block structure shared by the two boundary-tag allocators.

    A layout lists every block between the prologue and the epilogue by the word index of its
    header. Block sizes are multiples of 8 bytes and include all of the block's overhead; a block
    of `units` times 8 bytes takes `2 * units` words. */
module Blocks {
  datatype Block = Block(units: nat, live: bool)

  /** `first` is where the first header lies, `end` where the epilogue header lies, and `min` the
      smallest block size in units; `at` maps header positions to blocks. */
  datatype Layout = Layout(first: nat, min: nat, end: nat, at: map<nat, Block>)

  /** The word index just past block `p`, where the header of its successor lies. */
  function Succ(l: Layout, p: nat): nat
    requires p in l.at
  {
    p + 2 * l.at[p].units
  }

  // ---------- well-formed layouts ----------

  /** The blocks tile the words `[first, end)`: no gap, no overlap, every size at least `min`. */
  ghost predicate Tiles(l: Layout) {
    && 1 <= l.min
    && l.first <= l.end
    && (l.first < l.end ==> l.first in l.at)
    && InBounds(l)
    && Chained(l)
    && Apart(l)
  }

  ghost predicate InBounds(l: Layout) {
    forall p <- l.at ::
      l.first <= p && p + 2 * l.at[p].units <= l.end && l.min <= l.at[p].units
  }

  ghost predicate Chained(l: Layout) {
    forall p {:trigger Succ(l, p)} :: p in l.at ==> Succ(l, p) == l.end || Succ(l, p) in l.at
  }

  ghost predicate Apart(l: Layout) {
    forall p, q :: p in l.at && q in l.at && p < q ==> p + 2 * l.at[p].units <= q
  }

  predicate IsFree(l: Layout, p: nat) {
    p in l.at && !l.at[p].live
  }

  predicate IsLive(l: Layout, p: nat) {
    p in l.at && l.at[p].live
  }

  /** No free block is followed by another free block, except that `x` may be one of the two. */
  ghost predicate NoFreePairBut(l: Layout, x: nat) {
    forall p {:trigger Succ(l, p)} ::
      IsFree(l, p) && p != x && Succ(l, p) != x ==> !IsFree(l, Succ(l, p))
  }

  /** No free block is followed by another free block. */
  ghost predicate NoFreePair(l: Layout) {
    forall p {:trigger Succ(l, p)} :: IsFree(l, p) ==> !IsFree(l, Succ(l, p))
  }

  /** Every block but the first has a predecessor that ends where it starts; so has the epilogue. */
  lemma {:induction false} PredExists(l: Layout, p: nat, from: nat)
    requires Tiles(l)
    requires p in l.at || p == l.end
    requires from in l.at && from < p
    ensures exists q :: q in l.at && Succ(l, q) == p
    decreases p - from
  {
    if Succ(l, from) != p {
      PredExists(l, p, Succ(l, from));
    }
  }

  ghost function Pred(l: Layout, p: nat): (q: nat)
    requires Tiles(l)
    requires p in l.at || p == l.end
    requires l.first < p
    ensures q in l.at && Succ(l, q) == p
  {
    PredExists(l, p, l.first);
    var q :| q in l.at && Succ(l, q) == p;
    q
  }

  // ---------- the operations on layouts ----------

  function Mark(l: Layout, p: nat, live: bool): Layout
    requires p in l.at
  {
    l.(at := l.at[p := Block(l.at[p].units, live)])
  }

  /** Joins free block `p` with its successor. */
  function Merge(l: Layout, p: nat): Layout
    requires p in l.at && Succ(l, p) in l.at
  {
    l.(at := (l.at - {Succ(l, p)})[p := Block(l.at[p].units + l.at[Succ(l, p)].units, false)])
  }

  /** Cuts block `p` into a live block of `n` units and a free remainder. */
  function Split(l: Layout, p: nat, n: nat): Layout
    requires p in l.at && n <= l.at[p].units
  {
    l.(at := l.at[p := Block(n, true)][p + 2 * n := Block(l.at[p].units - n, false)])
  }

  /** Turns the epilogue into the header of a free block of `n` units; the new epilogue follows it. */
  function Extend(l: Layout, n: nat): Layout {
    l.(at := l.at[l.end := Block(n, false)], end := l.end + 2 * n)
  }

  ghost predicate FreeBefore(l: Layout, p: nat)
    requires Tiles(l) && p in l.at
  {
    l.first < p && !l.at[Pred(l, p)].live
  }

  predicate FreeAfter(l: Layout, p: nat)
    requires p in l.at
  {
    IsFree(l, Succ(l, p))
  }

  function JoinNext(l: Layout, p: nat): Layout
    requires p in l.at
  {
    if FreeAfter(l, p) then Merge(l, p) else l
  }

  /** Where the block that swallows `p` starts. */
  ghost function Base(l: Layout, p: nat): (q: nat)
    requires Tiles(l) && p in l.at
    ensures q in l.at
  {
    if FreeBefore(l, p) then Pred(l, p) else p
  }

  /** Joins the free block `p` with each of its neighbours that is free. */
  ghost function Coalesced(l: Layout, p: nat): Layout
    requires Tiles(l) && p in l.at
  {
    if FreeBefore(l, p) then
      assert Pred(l, p) in JoinNext(l, p).at && Succ(JoinNext(l, p), Pred(l, p)) == p;
      Merge(JoinNext(l, p), Pred(l, p))
    else
      JoinNext(l, p)
  }

  // ---------- every operation keeps the tiling ----------

  lemma MarkTiles(l: Layout, p: nat, live: bool)
    requires Tiles(l) && p in l.at
    ensures Tiles(Mark(l, p, live))
  {
    MarkChained(l, p, live);
    MarkApart(l, p, live);
    hide Chained, Apart;
  }

  lemma MarkChained(l: Layout, p: nat, live: bool)
    requires Chained(l) && p in l.at
    ensures Chained(Mark(l, p, live))
  {
    var c := Mark(l, p, live);
    forall q {:trigger Succ(c, q)} | q in c.at ensures Succ(c, q) == c.end || Succ(c, q) in c.at {
      assert Succ(c, q) == Succ(l, q);
    }
  }

  lemma MarkApart(l: Layout, p: nat, live: bool)
    requires Apart(l) && p in l.at
    ensures Apart(Mark(l, p, live))
  {
    var c := Mark(l, p, live);
    forall q, r | q in c.at && r in c.at && q < r ensures q + 2 * c.at[q].units <= r {
      assert c.at[q].units == l.at[q].units;
    }
  }

  lemma MergeTiles(l: Layout, p: nat)
    requires Tiles(l)
    requires p in l.at && Succ(l, p) in l.at
    ensures Tiles(Merge(l, p))
  {
    MergeChained(l, p);
    MergeApart(l, p);
    MergeInBounds(l, p);
  }

  lemma MergeChained(l: Layout, p: nat)
    requires Tiles(l)
    requires p in l.at && Succ(l, p) in l.at
    ensures Chained(Merge(l, p))
  {
    var c, s := Merge(l, p), Succ(l, p);
    assert Succ(l, s) == l.end || Succ(l, s) in l.at;
    forall q {:trigger Succ(c, q)} | q in c.at ensures Succ(c, q) == c.end || Succ(c, q) in c.at {
      assert Succ(c, q) == if q == p then Succ(l, s) else Succ(l, q);
    }
  }

  lemma MergeApart(l: Layout, p: nat)
    requires Apart(l)
    requires p in l.at && Succ(l, p) in l.at && p != Succ(l, p)
    ensures Apart(Merge(l, p))
  {
    var c := Merge(l, p);
    forall q, r | q in c.at && r in c.at && q < r ensures q + 2 * c.at[q].units <= r {
      assert q in l.at && r in l.at && r != Succ(l, p);
    }
  }

  lemma MergeInBounds(l: Layout, p: nat)
    requires InBounds(l)
    requires p in l.at && Succ(l, p) in l.at
    ensures InBounds(Merge(l, p))
  {
  }

  lemma SplitTiles(l: Layout, p: nat, n: nat)
    requires Tiles(l)
    requires p in l.at && l.min <= n && n + l.min <= l.at[p].units
    ensures Tiles(Split(l, p, n))
    ensures p + 2 * n !in l.at && p + 2 * n < l.end
  {
    SplitChained(l, p, n);
    SplitApart(l, p, n);
    SplitInBounds(l, p, n);
  }

  lemma SplitChained(l: Layout, p: nat, n: nat)
    requires Tiles(l)
    requires p in l.at && l.min <= n && n + l.min <= l.at[p].units
    ensures Chained(Split(l, p, n))
  {
    var c := Split(l, p, n);
    assert Succ(l, p) == l.end || Succ(l, p) in l.at;
    forall q {:trigger Succ(c, q)} | q in c.at ensures Succ(c, q) == c.end || Succ(c, q) in c.at {
      assert Succ(c, q) == if q == p then p + 2 * n else if q == p + 2 * n then Succ(l, p) else Succ(l, q);
    }
  }

  lemma SplitApart(l: Layout, p: nat, n: nat)
    requires Apart(l) && 1 <= l.min
    requires p in l.at && l.min <= n && n + l.min <= l.at[p].units
    ensures Apart(Split(l, p, n))
    ensures p + 2 * n !in l.at
  {
    var c := Split(l, p, n);
    forall q, r | q in c.at && r in c.at && q < r ensures q + 2 * c.at[q].units <= r {
      assert (q == p + 2 * n || q in l.at) && (r == p + 2 * n || r in l.at);
    }
  }

  lemma SplitInBounds(l: Layout, p: nat, n: nat)
    requires InBounds(l)
    requires p in l.at && l.min <= n && n + l.min <= l.at[p].units
    ensures InBounds(Split(l, p, n))
  {
  }

  lemma ExtendTiles(l: Layout, n: nat)
    requires Tiles(l)
    requires l.min <= n
    ensures l.end !in l.at
    ensures Tiles(Extend(l, n))
  {
    hide Chained, Apart, InBounds;
    EndFree(l);
    ExtendChained(l, n);
    ExtendApart(l, n);
    ExtendInBounds(l, n);
  }

  lemma EndFree(l: Layout)
    requires InBounds(l) && 1 <= l.min
    ensures l.end !in l.at
  {
  }

  lemma ExtendChained(l: Layout, n: nat)
    requires Chained(l) && l.end !in l.at
    ensures Chained(Extend(l, n))
  {
    var c := Extend(l, n);
    forall q {:trigger Succ(c, q)} | q in c.at ensures Succ(c, q) == c.end || Succ(c, q) in c.at {
      if q != l.end {
        assert Succ(c, q) == Succ(l, q);
      }
    }
  }

  lemma ExtendApart(l: Layout, n: nat)
    requires Apart(l) && InBounds(l) && l.end !in l.at
    ensures Apart(Extend(l, n))
  {
    var c := Extend(l, n);
    forall q, r | q in c.at && r in c.at && q < r ensures q + 2 * c.at[q].units <= r {
      assert q != l.end ==> c.at[q] == l.at[q] && q + 2 * l.at[q].units <= l.end;
    }
  }

  lemma ExtendInBounds(l: Layout, n: nat)
    requires InBounds(l) && l.first <= l.end && l.min <= n
    ensures InBounds(Extend(l, n))
  {
  }

  // ---------- coalescing leaves no two free neighbours ----------

  /** Joining a block with its successor removes the successor alone. */
  lemma MergeExtent(l: Layout, p: nat)
    requires Tiles(l) && p in l.at && Succ(l, p) in l.at
    ensures IsFree(Merge(l, p), p) && p < Succ(l, p)
    ensures Succ(Merge(l, p), p) == Succ(l, Succ(l, p))
    ensures forall q :: q in Merge(l, p).at <==> q in l.at && q != Succ(l, p)
    ensures forall q :: q in Merge(l, p).at && q != p ==> Merge(l, p).at[q] == l.at[q]
  {
    hide Chained, Apart;
  }

  lemma JoinNextExtent(l: Layout, p: nat)
    requires Tiles(l) && IsFree(l, p)
    ensures IsFree(JoinNext(l, p), p) && Succ(l, p) != p
    ensures Succ(JoinNext(l, p), p) == if FreeAfter(l, p) then Succ(l, Succ(l, p)) else Succ(l, p)
    ensures forall q :: q in JoinNext(l, p).at <==> q in l.at && !(q == Succ(l, p) && FreeAfter(l, p))
    ensures forall q :: q in JoinNext(l, p).at && q != p ==> JoinNext(l, p).at[q] == l.at[q]
  {
    hide Chained, Apart, Merge;
    if FreeAfter(l, p) {
      MergeExtent(l, p);
    }
  }

  lemma PredBefore(l: Layout, p: nat)
    requires Tiles(l) && p in l.at && l.first < p
    ensures Pred(l, p) < p
  {
    hide Chained, Apart;
  }

  /** The merged block takes exactly the room of `p` and of its free neighbours; every other block
      stays as it was. */
  lemma CoalesceExtent(l: Layout, p: nat)
    requires Tiles(l) && IsFree(l, p)
    ensures IsFree(Coalesced(l, p), Base(l, p))
    ensures Succ(Coalesced(l, p), Base(l, p)) == if FreeAfter(l, p) then Succ(l, Succ(l, p)) else Succ(l, p)
    ensures forall q :: q in Coalesced(l, p).at && q != Base(l, p) ==> q in l.at && l.at[q] == Coalesced(l, p).at[q]
    ensures forall q <- l.at ::
              q in Coalesced(l, p).at <==> !(q == p && FreeBefore(l, p)) && !(q == Succ(l, p) && FreeAfter(l, p))
  {
    hide Tiles, JoinNext, Merge, FreeAfter;
    JoinNextExtent(l, p);
    if FreeBefore(l, p) {
      PredBefore(l, p);
      JoinedPair(l, p);
    }
  }

  /** The predecessor is joined last, with all that `p` has become. */
  lemma JoinedPair(l: Layout, p: nat)
    requires Tiles(l) && IsFree(l, p) && FreeBefore(l, p)
    ensures var j, q := JoinNext(l, p), Pred(l, p);
            && q in j.at && Succ(j, q) == p && p in j.at && IsFree(Merge(j, q), q)
            && Succ(Merge(j, q), q) == Succ(j, p)
            && (forall x :: x in Merge(j, q).at <==> x in j.at && x != p)
            && (forall x :: x in Merge(j, q).at && x != q ==> Merge(j, q).at[x] == j.at[x])
  {
    hide Tiles, JoinNext, FreeAfter;
    JoinNextExtent(l, p);
    PredBefore(l, p);
  }

  /** The same blocks are live in both. */
  ghost predicate SameLive(l: Layout, c: Layout) {
    && (forall q :: IsLive(c, q) <==> IsLive(l, q))
    && (forall q :: IsLive(l, q) ==> c.at[q] == l.at[q])
  }

  lemma CoalesceSameLive(l: Layout, p: nat)
    requires Tiles(l) && IsFree(l, p)
    ensures SameLive(l, Coalesced(l, p)) && Coalesced(l, p) == l.(at := Coalesced(l, p).at)
  {
    hide Tiles;
    CoalesceExtent(l, p);
    BaseNotLive(l, p);
    assert Coalesced(l, p) == l.(at := Coalesced(l, p).at);
  }

  lemma BaseNotLive(l: Layout, p: nat)
    requires Tiles(l) && IsFree(l, p)
    ensures !IsLive(l, Base(l, p))
  {
  }

  lemma CoalesceTiles(l: Layout, p: nat)
    requires Tiles(l) && IsFree(l, p) && NoFreePairBut(l, p)
    ensures Tiles(Coalesced(l, p))
    ensures NoFreePair(Coalesced(l, p))
  {
    hide Tiles, JoinNext, Merge, NoFreePairBut, NoFreePair;
    JoinNextCorrect(l, p);
    if FreeBefore(l, p) {
      JoinedPair(l, p);
      PredFree(l, p);
      MergeTiles(JoinNext(l, p), Pred(l, p));
      MergeKeepsNoFreePair(JoinNext(l, p), Pred(l, p));
    } else {
      NotPreceded(l, p);
    }
  }

  lemma PredFree(l: Layout, p: nat)
    requires Tiles(l) && IsFree(l, p) && FreeBefore(l, p)
    ensures IsFree(JoinNext(l, p), Pred(l, p)) && IsFree(JoinNext(l, p), Succ(JoinNext(l, p), Pred(l, p)))
  {
    hide Tiles, JoinNext, FreeAfter;
    JoinNextExtent(l, p);
    JoinedPair(l, p);
  }

  /** Without a free predecessor, joining the successor is all there is to do. */
  lemma NotPreceded(l: Layout, p: nat)
    requires Tiles(l) && IsFree(l, p) && NoFreePairBut(l, p) && !FreeBefore(l, p)
    ensures NoFreePair(JoinNext(l, p))
  {
    hide Merge, NoFreePairBut;
    JoinNextCorrect(l, p);
    JoinNextExtent(l, p);
    var j := JoinNext(l, p);
    forall q {:trigger Succ(j, q)} | IsFree(j, q) ensures !IsFree(j, Succ(j, q)) {
      if Succ(j, q) == p {
        OnlyPred(l, j, q, p);
      }
    }
  }

  /** A block that ends at `p` in the joined layout is the predecessor of `p`. */
  lemma OnlyPred(l: Layout, j: Layout, q: nat, p: nat)
    requires Tiles(l) && p in l.at && q in j.at && Succ(j, q) == p
    requires j == JoinNext(l, p) && (q in l.at && q != p ==> j.at[q] == l.at[q]) && q in l.at && q != p
    ensures l.first < p && q == Pred(l, p)
  {
    hide Chained;
  }

  lemma JoinNextCorrect(l: Layout, p: nat)
    requires Tiles(l) && IsFree(l, p) && NoFreePairBut(l, p)
    ensures Tiles(JoinNext(l, p)) && IsFree(JoinNext(l, p), p)
    ensures forall q {:trigger Succ(JoinNext(l, p), q)} ::
              IsFree(JoinNext(l, p), q) && Succ(JoinNext(l, p), q) != p ==>
                !IsFree(JoinNext(l, p), Succ(JoinNext(l, p), q))
  {
    hide Tiles, Merge, JoinNext;
    JoinNextExtent(l, p);
    JoinNextTiles(l, p);
    var j := JoinNext(l, p);
    forall q {:trigger Succ(j, q)} | IsFree(j, q) && Succ(j, q) != p ensures !IsFree(j, Succ(j, q)) {
      if q == p {
        JoinedEnd(l, p);
      } else {
        assert Succ(j, q) == Succ(l, q);
      }
    }
  }

  lemma JoinNextTiles(l: Layout, p: nat)
    requires Tiles(l) && p in l.at
    ensures Tiles(JoinNext(l, p))
  {
    hide Tiles;
    if FreeAfter(l, p) {
      MergeTiles(l, p);
    }
  }

  /** Nothing free follows the joined block. */
  lemma JoinedEnd(l: Layout, p: nat)
    requires Tiles(l) && IsFree(l, p) && NoFreePairBut(l, p)
    ensures !IsFree(JoinNext(l, p), Succ(JoinNext(l, p), p))
  {
    JoinNextExtent(l, p);
    hide Chained, Apart, Merge, JoinNext;
    if FreeAfter(l, p) {
      assert Succ(l, Succ(l, p)) != p;
      assert !IsFree(l, Succ(l, Succ(l, p)));
    }
  }

  lemma MergeKeepsNoFreePair(j: Layout, q: nat)
    requires Tiles(j) && IsFree(j, q) && IsFree(j, Succ(j, q))
    requires forall r {:trigger Succ(j, r)} :: IsFree(j, r) && Succ(j, r) != Succ(j, q) ==> !IsFree(j, Succ(j, r))
    ensures NoFreePair(Merge(j, q))
  {
    var c, p := Merge(j, q), Succ(j, q);
    forall r {:trigger Succ(c, r)} | IsFree(c, r) ensures !IsFree(c, Succ(c, r)) {
      assert Succ(c, r) == if r == q then Succ(j, p) else Succ(j, r);
      if r == q {
        assert Succ(j, p) != p;
      }
    }
  }

  // ---------- serving requests ----------

  predicate Fits(l: Layout, p: nat, n: nat) {
    p in l.at && n <= l.at[p].units
  }

  lemma SplitNoFreePair(l: Layout, p: nat, n: nat)
    requires Chained(l) && NoFreePair(l) && IsFree(l, p)
    requires 1 <= n < l.at[p].units && p + 2 * n !in l.at && p + 2 * n != l.end
    ensures NoFreePair(Split(l, p, n))
  {
    var c, x := Split(l, p, n), p + 2 * n;
    assert !IsFree(l, Succ(l, p));
    forall q {:trigger Succ(c, q)} | IsFree(c, q) ensures !IsFree(c, Succ(c, q)) {
      assert Succ(c, q) == if q == x then Succ(l, p) else Succ(l, q);
    }
  }

  lemma MarkNoFreePair(l: Layout, p: nat)
    requires NoFreePair(l) && p in l.at
    ensures NoFreePair(Mark(l, p, true))
  {
    var c := Mark(l, p, true);
    forall q {:trigger Succ(c, q)} | IsFree(c, q) ensures !IsFree(c, Succ(c, q)) {
      assert Succ(c, q) == Succ(l, q);
    }
  }

  /** `c` has the live blocks of `l`, and block `p` besides, which is not one of them. */
  ghost predicate HandsOut(l: Layout, c: Layout, p: nat) {
    && !IsLive(l, p) && IsLive(c, p)
    && forall q :: q != p ==> (IsLive(c, q) <==> IsLive(l, q)) && (IsLive(l, q) ==> c.at[q] == l.at[q])
  }

  lemma HandsOutAfter(l: Layout, g: Layout, c: Layout, p: nat)
    requires SameLive(l, g) && HandsOut(g, c, p)
    ensures HandsOut(l, c, p)
  {
  }

  lemma {:induction false} HeaderParity(l: Layout, p: nat)
    requires Tiles(l) && p in l.at
    ensures p % 2 == l.first % 2
    decreases p
  {
    if p != l.first {
      HeaderParity(l, Pred(l, p));
    }
  }

  /** A block added at the end may have a free block in front of it. */
  lemma ExtendNoFreePair(l: Layout, n: nat)
    requires Tiles(l) && NoFreePair(l) && l.min <= n
    ensures NoFreePairBut(Extend(l, n), l.end)
  {
    var c := Extend(l, n);
    ExtendTiles(l, n);
    forall q {:trigger Succ(c, q)} | IsFree(c, q) && q != l.end && Succ(c, q) != l.end ensures !IsFree(c, Succ(c, q)) {
      assert Succ(c, q) == Succ(l, q);
    }
  }

  /** A block marked free may have free neighbours. */
  lemma FreeNoFreePair(l: Layout, p: nat)
    requires NoFreePair(l) && p in l.at
    ensures NoFreePairBut(Mark(l, p, false), p)
  {
    var c := Mark(l, p, false);
    forall q {:trigger Succ(c, q)} | IsFree(c, q) && q != p && Succ(c, q) != p ensures !IsFree(c, Succ(c, q)) {
      assert Succ(c, q) == Succ(l, q);
    }
  }

  lemma SplitHandsOut(l: Layout, p: nat, n: nat)
    requires IsFree(l, p) && n <= l.at[p].units && p + 2 * n !in l.at && 0 < n
    ensures HandsOut(l, Split(l, p, n), p) && Split(l, p, n).at[p].units == n
  {
  }

  lemma MarkHandsOut(l: Layout, p: nat)
    requires IsFree(l, p)
    ensures HandsOut(l, Mark(l, p, true), p)
  {
  }
}
