/** What the explicit free-list allocator does to its two lists, without the words that hold them:
    the blocks in address order, and the order in which the free list visits the free ones. */
module ExplicitHeap {
  import opened Basics
  import opened Blocks
  import opened Memlib

  /** `free` lists the free blocks as the free list visits them, head first, sentinel left out. */
  datatype Heap = Heap(layout: Layout, free: seq<nat>)

  const MIN_UNITS := 3
  const CHUNK_UNITS := 64

  ghost function IndexOf(s: seq<nat>, x: nat): (k: nat)
    requires x in s
    ensures k < |s| && s[k] == x
  {
    var k :| 0 <= k < |s| && s[k] == x;
    k
  }

  /** `s` with `x` taken out, if it is there. */
  ghost function Without(s: seq<nat>, x: nat): seq<nat> {
    if x in s then s[..IndexOf(s, x)] + s[IndexOf(s, x) + 1..] else s
  }

  /** `s` with `y` in the place of `x`. */
  ghost function Swap(s: seq<nat>, x: nat, y: nat): seq<nat>
    requires x in s
  {
    s[IndexOf(s, x) := y]
  }

  /** The free list visits every free block exactly once, blocks in `but` aside, and nothing else. */
  ghost predicate Lists(l: Layout, free: seq<nat>, but: set<nat>) {
    && NoDup(free)
    && forall p :: p in free <==> IsFree(l, p) && p !in but
  }

  ghost predicate Consistent(h: Heap) {
    && Tiles(h.layout) && h.layout.min == MIN_UNITS
    && NoFreePair(h.layout)
    && Lists(h.layout, h.free, {})
  }

  /** Block `p` has been marked free, and waits to be joined with its neighbours and listed. */
  ghost predicate Pending(h: Heap, p: nat) {
    && Tiles(h.layout) && h.layout.min == MIN_UNITS
    && IsFree(h.layout, p)
    && NoFreePairBut(h.layout, p)
    && Lists(h.layout, h.free, {p})
  }

  // ---------- coalescing ----------

  /** The free list without the free neighbours of `p`. */
  ghost function Rest(h: Heap, p: nat): seq<nat>
    requires Tiles(h.layout) && p in h.layout.at
  {
    var f := if FreeBefore(h.layout, p) then Without(h.free, Pred(h.layout, p)) else h.free;
    if FreeAfter(h.layout, p) then Without(f, Succ(h.layout, p)) else f
  }

  /** Joins the pending block with its free neighbours and puts the result in front of the list. */
  ghost function Absorb(h: Heap, p: nat): Heap
    requires Pending(h, p)
  {
    Heap(Coalesced(h.layout, p), [Base(h.layout, p)] + Rest(h, p))
  }

  lemma WithoutCorrect(s: seq<nat>, x: nat)
    requires NoDup(s)
    ensures NoDup(Without(s, x))
    ensures forall y :: y in Without(s, x) <==> y in s && y != x
  {
    if x in s {
      var k := IndexOf(s, x);
      forall y | y in s && y != x ensures y in Without(s, x) {
        var i :| 0 <= i < |s| && s[i] == y;
        assert y == if i < k then Without(s, x)[i] else Without(s, x)[i - 1];
      }
    }
  }

  lemma SwapCorrect(s: seq<nat>, x: nat, y: nat)
    requires NoDup(s) && x in s && y !in s
    ensures NoDup(Swap(s, x, y))
    ensures forall z :: z in Swap(s, x, y) <==> z == y || (z in s && z != x)
  {
    var t, k := Swap(s, x, y), IndexOf(s, x);
    forall z | z in s && z != x ensures z in t {
      var i :| 0 <= i < |s| && s[i] == z;
      assert t[i] == z;
    }
    assert t[k] == y;
  }

  lemma AbsorbConsistent(h: Heap, p: nat)
    requires Pending(h, p)
    ensures Consistent(Absorb(h, p))
  {
    CoalesceTiles(h.layout, p);
    AbsorbLists(h, p);
  }

  lemma RestCorrect(h: Heap, p: nat)
    requires Pending(h, p)
    ensures NoDup(Rest(h, p))
    ensures forall q ::
              q in Rest(h, p) <==> q in h.free && !(q == Succ(h.layout, p) && FreeAfter(h.layout, p))
                                   && !(FreeBefore(h.layout, p) && q == Pred(h.layout, p))
  {
    hide Tiles, NoFreePairBut;
    var f := if FreeBefore(h.layout, p) then Without(h.free, Pred(h.layout, p)) else h.free;
    if FreeBefore(h.layout, p) {
      WithoutCorrect(h.free, Pred(h.layout, p));
    }
    WithoutCorrect(f, Succ(h.layout, p));
  }

  lemma RestBoth(h: Heap, p: nat)
    requires Pending(h, p) && FreeAfter(h.layout, p) && FreeBefore(h.layout, p)
    ensures Rest(h, p) == Without(Without(h.free, Pred(h.layout, p)), Succ(h.layout, p))
  {
  }

  lemma AbsorbLists(h: Heap, p: nat)
    requires Pending(h, p)
    ensures Lists(Absorb(h, p).layout, Absorb(h, p).free, {})
  {
    var l, c, b := h.layout, Coalesced(h.layout, p), Base(h.layout, p);
    RestCorrect(h, p);
    CoalesceExtent(l, p);
    assert b !in Rest(h, p);
    hide Coalesced, Base, Rest, NoFreePairBut;
    forall q ensures q in [b] + Rest(h, p) <==> IsFree(c, q) {
    }
  }

  // ---------- the operations ----------

  /** The block size, in bytes, for a request of `size` bytes, computed in 32-bit arithmetic. */
  function AdjustedSize(size: nat): nat {
    if size <= 8 then 8 * MIN_UNITS else 8 * ((size + 16 + 7) % 0x1_0000_0000 / 8)
  }

  function Units(size: nat): nat {
    AdjustedSize(size) / 8
  }

  /** The units that a request of `size` bytes takes with its overhead. */
  function Need(size: nat): nat {
    if size <= 8 then MIN_UNITS else (size + 23) / 8
  }

  lemma NeedFits(size: nat)
    requires size > 0
    ensures MIN_UNITS <= Need(size) && size + 16 <= 8 * Need(size) <= size + 23
  {
  }

  /** The rounding leaves room for the request and its overhead, and is the least that does, exactly when it
      does not wrap; when it wraps, it gives less than a minimum block. */
  lemma AdjustedSizeFits(size: nat)
    requires size < 0x1_0000_0000
    ensures AdjustedSize(size) == 8 * Units(size)
    ensures AdjustedSize(size) >= size + 16 <==> size < 0x1_0000_0000 - 23
    ensures Units(size) == Need(size) <==> size < 0x1_0000_0000 - 23
    ensures size >= 0x1_0000_0000 - 23 ==> Units(size) < Need(size) && AdjustedSize(size) < 8 * MIN_UNITS
  {
    NeedMonotone(size);
  }

  lemma NeedMonotone(size: nat)
    ensures size >= 0x1_0000_0000 - 23 ==> 8 * Need(size) > 0xFFFF_0000
  {
  }

  /** A request the rounding gets wrong: one byte short of the whole address space is given a
      16-byte block. */
  lemma AdjustedSizeWraps()
    ensures AdjustedSize(0xFFFF_FFFF) == 16
  {
  }

  /** The choice that a scan of `free` from its head settles on: a later block wins only if it is
      strictly smaller. */
  ghost function BestFit(l: Layout, free: seq<nat>, n: nat): (r: Option<nat>)
    ensures r.Some? ==> r.value in free && Fits(l, r.value, n)
  {
    if free == [] then None
    else
      var last := free[|free| - 1];
      var best := BestFit(l, free[..|free| - 1], n);
      if Fits(l, last, n) && (best.None? || l.at[last].units < l.at[best.value].units) then Some(last) else best
  }

  /** `free[k]` is a smallest block that fits, and of those the one listed first. */
  ghost predicate FirstSmallest(l: Layout, free: seq<nat>, n: nat, k: nat) {
    && k < |free| && Fits(l, free[k], n)
    && (forall i :: 0 <= i < |free| && Fits(l, free[i], n) ==> l.at[free[k]].units <= l.at[free[i]].units)
    && (forall i :: 0 <= i < k && Fits(l, free[i], n) ==> l.at[free[k]].units < l.at[free[i]].units)
  }

  /** The scan finds the first of the smallest blocks that fit, and finds none only if no block fits. */
  lemma {:induction false} BestFitCorrect(l: Layout, free: seq<nat>, n: nat)
    ensures BestFit(l, free, n).None? <==> forall q <- free :: !Fits(l, q, n)
    ensures BestFit(l, free, n).Some? ==>
              exists k: nat :: FirstSmallest(l, free, n, k) && free[k] == BestFit(l, free, n).value
  {
    if free != [] {
      var init, last := free[..|free| - 1], free[|free| - 1];
      BestFitCorrect(l, init, n);
      assert free == init + [last];
      var best := BestFit(l, init, n);
      if best.Some? {
        var k: nat :| FirstSmallest(l, init, n, k) && init[k] == best.value;
        assert BestFit(l, free, n) == best ==> FirstSmallest(l, free, n, k);
      }
      assert BestFit(l, free, n) == Some(last) && Fits(l, last, n) ==>
          FirstSmallest(l, free, n, |init|) || BestFit(l, free, n) == best;
    }
  }

  lemma BestFitStep(l: Layout, free: seq<nat>, i: nat, n: nat)
    requires i < |free|
    ensures var best := BestFit(l, free[..i], n);
            BestFit(l, free[..i + 1], n) ==
            if Fits(l, free[i], n) && (best.None? || l.at[free[i]].units < l.at[best.value].units)
            then Some(free[i]) else best
  {
    assert free[..i + 1][..i] == free[..i] && free[..i + 1][i] == free[i];
  }

  /** Hands out the first `n` units of free block `p`. A remainder that can stand alone takes the
      block's place in the free list; a smaller one is handed out as well. */
  ghost function Placed(h: Heap, p: nat, n: nat): Heap
    requires p in h.free && Fits(h.layout, p, n)
  {
    if h.layout.at[p].units - n >= MIN_UNITS then
      Heap(Split(h.layout, p, n), Swap(h.free, p, p + 2 * n))
    else
      Heap(Mark(h.layout, p, true), Without(h.free, p))
  }

  lemma ListedFree(h: Heap, p: nat)
    requires Consistent(h) && p in h.free
    ensures IsFree(h.layout, p)
  {
  }

  lemma PlaceConsistent(h: Heap, p: nat, n: nat)
    requires Consistent(h) && p in h.free && Fits(h.layout, p, n) && MIN_UNITS <= n
    ensures Consistent(Placed(h, p, n))
  {
    hide Tiles, Chained, NoFreePair, Lists, Swap, Without;
    var l := h.layout;
    ListedFree(h, p);
    TiledChained(l);
    PlacedLists(h, p, n);
    if l.at[p].units - n >= MIN_UNITS {
      SplitTiles(l, p, n);
      SplitNoFreePair(l, p, n);
    } else {
      MarkTiles(l, p, true);
      MarkNoFreePair(l, p);
    }
  }

  lemma TiledChained(l: Layout)
    requires Tiles(l)
    ensures Chained(l)
  {
  }

  lemma PlacedLists(h: Heap, p: nat, n: nat)
    requires Consistent(h) && p in h.free && Fits(h.layout, p, n) && MIN_UNITS <= n
    ensures Lists(Placed(h, p, n).layout, Placed(h, p, n).free, {})
  {
    hide Tiles, NoFreePair, Swap, Without;
    var l := h.layout;
    if l.at[p].units - n >= MIN_UNITS {
      SplitTiles(l, p, n);
      SwapCorrect(h.free, p, p + 2 * n);
    } else {
      WithoutCorrect(h.free, p);
    }
  }

  /** Adds `n` units at the end of the heap, joined with a free last block. */
  ghost function Grow(h: Heap, n: nat): Heap
    requires Consistent(h) && MIN_UNITS <= n
  {
    ExtendPending(h, n);
    Absorb(Heap(Extend(h.layout, n), h.free), h.layout.end)
  }

  lemma ExtendPending(h: Heap, n: nat)
    requires Consistent(h) && MIN_UNITS <= n
    ensures Pending(Heap(Extend(h.layout, n), h.free), h.layout.end)
  {
    ExtendTiles(h.layout, n);
    ExtendNoFreePair(h.layout, n);
  }

  /** Takes back live block `p`. */
  ghost function Release(h: Heap, p: nat): Heap
    requires Consistent(h) && IsLive(h.layout, p)
  {
    MarkPending(h, p);
    Absorb(Heap(Mark(h.layout, p, false), h.free), p)
  }

  lemma MarkPending(h: Heap, p: nat)
    requires Consistent(h) && IsLive(h.layout, p)
    ensures Pending(Heap(Mark(h.layout, p, false), h.free), p)
  {
    MarkTiles(h.layout, p, false);
    FreeNoFreePair(h.layout, p);
  }

  /** After growing, the first free block has all the room that was asked for. */
  lemma GrowFits(h: Heap, n: nat)
    requires Consistent(h) && MIN_UNITS <= n
    ensures Consistent(Grow(h, n)) && Grow(h, n).free != [] && Fits(Grow(h, n).layout, Grow(h, n).free[0], n)
  {
    var e := Heap(Extend(h.layout, n), h.free);
    ExtendPending(h, n);
    AbsorbConsistent(e, h.layout.end);
    CoalesceExtent(e.layout, h.layout.end);
    hide Coalesced, Base, Tiles, Lists, NoFreePair, NoFreePairBut;
  }

  /** Serves a request of `size` bytes: from the best fit if there is one, else from a grown heap. */
  ghost function Malloc(h: Heap, size: nat): (Heap, Option<nat>)
    requires Consistent(h)
  {
    if size == 0 then (h, None)
    else
      NeedFits(size);
      var n, e := Need(size), Max(Need(size), CHUNK_UNITS);
      var fit := BestFit(h.layout, h.free, n);
      if fit.Some? then (Placed(h, fit.value, n), fit)
      else if !CanGrow(h.layout, e) then (h, None)
      else
        GrowFits(h, e);
        var g := Grow(h, e);
        (Placed(g, g.free[0], n), Some(g.free[0]))
  }

  lemma PlacedHandsOut(h: Heap, p: nat, n: nat)
    requires Consistent(h) && p in h.free && Fits(h.layout, p, n) && MIN_UNITS <= n
    ensures HandsOut(h.layout, Placed(h, p, n).layout, p)
    ensures n <= Placed(h, p, n).layout.at[p].units < n + MIN_UNITS
  {
    hide Tiles, NoFreePair, HandsOut, Lists, Swap, Without;
    ListedFree(h, p);
    var l := h.layout;
    if l.at[p].units - n >= MIN_UNITS {
      assert Tiles(l) && l.min == MIN_UNITS;
      SplitTiles(l, p, n);
      SplitHandsOut(l, p, n);
    } else {
      MarkHandsOut(l, p);
    }
  }

  lemma GrowKeeps(h: Heap, n: nat)
    requires Consistent(h) && MIN_UNITS <= n
    ensures SameLive(h.layout, Grow(h, n).layout)
    ensures Grow(h, n).layout == h.layout.(end := h.layout.end + 2 * n, at := Grow(h, n).layout.at)
  {
    hide Tiles, Coalesced, NoFreePairBut, Lists, NoFreePair;
    ExtendPending(h, n);
    ExtendTiles(h.layout, n);
    CoalesceSameLive(Extend(h.layout, n), h.layout.end);
  }

  lemma ReleaseKeeps(h: Heap, p: nat)
    requires Consistent(h) && IsLive(h.layout, p)
    ensures Consistent(Release(h, p)) && HandsOut(Release(h, p).layout, h.layout, p)
    ensures Release(h, p).layout == h.layout.(at := Release(h, p).layout.at)
  {
    hide Tiles, Coalesced, Consistent, NoFreePairBut, Lists, Base, Rest;
    var e := Heap(Mark(h.layout, p, false), h.free);
    MarkPending(h, p);
    AbsorbConsistent(e, p);
    CoalesceSameLive(e.layout, p);
  }

  /** A request that succeeds gets a block of its own, with room for the request and 16 bytes of
      overhead, and at most 39 bytes more than the request; all other live blocks stay. If a free block
      fits, it is the first of the smallest that do. The request fails only if it is for 0 bytes, or no
      free block fits and the heap cannot grow. */
  lemma MallocCorrect(h: Heap, size: nat)
    requires Consistent(h)
    ensures var (h', r) := Malloc(h, size);
            && Consistent(h')
            && (r.None? ==> h' == h)
            && (r.None? <==> size == 0 || ((forall q <- h.free :: !Fits(h.layout, q, Need(size)))
                                           && !CanGrow(h.layout, Max(Need(size), CHUNK_UNITS))))
            && (size != 0 && (exists q <- h.free :: Fits(h.layout, q, Need(size))) ==>
                  r.Some? && exists k: nat :: FirstSmallest(h.layout, h.free, Need(size), k) && h.free[k] == r.value)
            && (r.Some? ==> HandsOut(h.layout, h'.layout, r.value)
                            && size + 16 <= 8 * h'.layout.at[r.value].units <= size + 39)
  {
    hide Consistent, SameLive, HandsOut, Placed, Grow, FirstSmallest, Need;
    if size != 0 {
      var n, e := Need(size), Max(Need(size), CHUNK_UNITS);
      NeedFits(size);
      BestFitCorrect(h.layout, h.free, n);
      var fit := BestFit(h.layout, h.free, n);
      if fit.Some? {
        PlaceConsistent(h, fit.value, n);
        PlacedHandsOut(h, fit.value, n);
      } else if CanGrow(h.layout, e) {
        var g := Grow(h, e);
        GrowFits(h, e);
        GrowKeeps(h, e);
        PlaceConsistent(g, g.free[0], n);
        PlacedHandsOut(g, g.free[0], n);
        HandsOutAfter(h.layout, g.layout, Placed(g, g.free[0], n).layout, g.free[0]);
      }
    }
  }

  /** An allocation keeps the heap within its limit. */
  lemma MallocInside(h: Heap, size: nat)
    requires Consistent(h) && 4 * (h.layout.end + 1) <= HEAP_BYTES
    ensures var l, c := h.layout, Malloc(h, size).0.layout;
            c.first == l.first && l.end <= c.end && 4 * (c.end + 1) <= HEAP_BYTES
  {
    hide Consistent, Grow, BestFit, Need;
    if size != 0 {
      NeedFits(size);
      var n, e := Need(size), Max(Need(size), CHUNK_UNITS);
      if BestFit(h.layout, h.free, n).None? && CanGrow(h.layout, e) {
        GrowFits(h, e);
        GrowKeeps(h, e);
      }
    }
  }

  /** Whether mm_malloc returns a block, in 32-bit arithmetic: a free block has the size computed, or mem_sbrk
      does not refuse. */
  ghost predicate Granted(base: nat, h: Heap, size: nat)
    requires Consistent(h)
  {
    size != 0 &&
    (BestFit(h.layout, h.free, Units(size)).Some? ||
     !SbrkRefuses(base, 4 * (h.layout.end + 1), 8 * Max(Units(size), CHUNK_UNITS)))
  }

  /** No arithmetic goes wrong when the request is served. Its rounding does not wrap, and if the heap has to
      grow for it, mem_sbrk is not misled; or its rounding wraps, but then nothing is found even for the size
      computed. */
  ghost predicate InReach(base: nat, h: Heap, size: nat)
    requires Consistent(h)
  {
    && size < 0x1_0000_0000
    && (size >= 0x1_0000_0000 - 23 ==> !Granted(base, h, size))
    && (0 < size < 0x1_0000_0000 - 23 ==>
          BestFit(h.layout, h.free, Units(size)).Some? ||
          !SbrkMisled(base, 4 * (h.layout.end + 1), 8 * Max(Units(size), CHUNK_UNITS)))
  }

  /** A request whose rounding wraps is larger than any heap. */
  lemma WrappedRefused(h: Heap, size: nat)
    requires Consistent(h) && 0x1_0000_0000 - 23 <= size < 0x1_0000_0000 && 4 * (h.layout.end + 1) <= HEAP_BYTES
    ensures Malloc(h, size) == (h, None)
  {
    hide BestFit, Placed, Grow;
    NeedMonotone(size);
  }

  /** The requests in reach are exactly those which mm_malloc grants if and only if they can be served. */
  lemma InReachExact(base: nat, h: Heap, size: nat)
    requires Consistent(h) && 4 * (h.layout.end + 1) <= HEAP_BYTES && base + HEAP_BYTES < 0x1_0000_0000
    requires size < 0x1_0000_0000
    ensures InReach(base, h, size) <==> (Granted(base, h, size) <==> Malloc(h, size).1.Some?)
  {
    hide Consistent, Placed, Grow, BestFit, AdjustedSize;
    AdjustedSizeFits(size);
    if size >= 0x1_0000_0000 - 23 {
      WrappedRefused(h, size);
    } else {
      SbrkRight(base, 4 * (h.layout.end + 1), 8 * Max(Units(size), CHUNK_UNITS));
    }
  }

  /** On addresses well below 2^32 everything is in reach that is not larger than what is left of them. */
  lemma ReachByNumbers(base: nat, h: Heap, size: nat)
    requires Consistent(h) && 4 * (h.layout.end + 1) <= HEAP_BYTES && base + HEAP_BYTES + size + 512 < 0x1_0000_0000
    ensures InReach(base, h, size)
  {
    hide Consistent;
  }

  /** Moves block `p` to a block for `size` bytes; with no block it is an allocation, with size 0 a release. */
  ghost function Realloc(h: Heap, p: Option<nat>, size: nat): (Heap, Option<nat>)
    requires Consistent(h) && (p.Some? ==> IsLive(h.layout, p.value))
  {
    if size == 0 then
      (if p.Some? then Release(h, p.value) else h, None)
    else
      MallocCorrect(h, size);
      var (h', r) := Malloc(h, size);
      if r.Some? && p.Some? then (Release(h', p.value), r) else (h', r)
  }

  /** The heap with nothing between prologue and epilogue. */
  function Empty(): Heap {
    Heap(Layout(5, MIN_UNITS, 5, map[]), [])
  }

  lemma EmptyConsistent()
    ensures Consistent(Empty())
  {
  }

  /** The heap that MmInit leaves: a single free block. */
  ghost function Initial(): Heap {
    EmptyConsistent();
    Grow(Empty(), CHUNK_UNITS)
  }

  /** After initialisation, a request of 2^32 - 1 bytes is granted, and so is one of 2^28 - 16 bytes in an arena
      at 0xF000_0000; there is room for neither. */
  lemma FirstRequestMisled(base: nat)
    ensures Consistent(Initial())
    ensures Granted(base, Initial(), 0xFFFF_FFFF) && Malloc(Initial(), 0xFFFF_FFFF).1.None?
    ensures Granted(0xF000_0000, Initial(), 0x0FFF_FFF0) && Malloc(Initial(), 0x0FFF_FFF0).1.None?
  {
    hide BestFit, Grow, Placed;
    EmptyConsistent();
    GrowFits(Empty(), CHUNK_UNITS);
    GrowKeeps(Empty(), CHUNK_UNITS);
    var h := Initial();
    AdjustedSizeWraps();
    BestFitCorrect(h.layout, h.free, 2);
    WrappedRefused(h, 0xFFFF_FFFF);
    AdjustedSizeFits(0x0FFF_FFF0);
    SbrkWraps();
  }
}
