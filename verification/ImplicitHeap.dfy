/** What the implicit-list allocator does to the blocks, without the words: next fit with a rover. */
module ImplicitHeap {
  import opened Basics
  import opened Blocks
  import opened Memlib

  /** `rover` is the header of the block where the last search ended; 1 stands for the prologue. */
  datatype Heap = Heap(layout: Layout, rover: nat)

  const MIN_UNITS := 2
  const CHUNK_UNITS := 512

  /** The header of the prologue block. */
  const PROLOGUE: nat := 1

  ghost predicate IsPlace(l: Layout, p: nat) {
    p == PROLOGUE || p in l.at
  }

  ghost predicate Consistent(h: Heap) {
    && Tiles(h.layout) && h.layout.min == MIN_UNITS && h.layout.first == 3
    && NoFreePair(h.layout)
    && IsPlace(h.layout, h.rover)
  }

  /** Block `p` has been marked free, and waits to be joined with its neighbours. */
  ghost predicate Pending(h: Heap, p: nat) {
    && Tiles(h.layout) && h.layout.min == MIN_UNITS && h.layout.first == 3
    && IsFree(h.layout, p) && NoFreePairBut(h.layout, p)
    && IsPlace(h.layout, h.rover)
  }

  // ---------- coalescing and the rover ----------

  /** A rover that points into block `b` is moved to its start. */
  function Repaired(l: Layout, b: nat, rover: nat): nat {
    if b in l.at && b < rover < Succ(l, b) then b else rover
  }

  ghost function Absorb(h: Heap, p: nat): Heap
    requires Pending(h, p)
  {
    Heap(Coalesced(h.layout, p), Repaired(Coalesced(h.layout, p), Base(h.layout, p), h.rover))
  }

  /** The rover survives every merge: it is moved only if its block has been swallowed, and then to the
      block that swallowed it. */
  lemma AbsorbConsistent(h: Heap, p: nat)
    requires Pending(h, p)
    ensures Consistent(Absorb(h, p))
    ensures IsPlace(Coalesced(h.layout, p), h.rover) ==> Absorb(h, p).rover == h.rover
    ensures !IsPlace(Coalesced(h.layout, p), h.rover) ==> Absorb(h, p).rover == Base(h.layout, p) < h.rover
  {
    var l, c, b := h.layout, Coalesced(h.layout, p), Base(h.layout, p);
    CoalesceTiles(l, p);
    CoalesceExtent(l, p);
    MergedCovers(l, p);
    hide Coalesced, Base, Chained, NoFreePair, NoFreePairBut, FreeBefore;
  }

  lemma MergedCovers(l: Layout, p: nat)
    requires Tiles(l) && IsFree(l, p) && NoFreePairBut(l, p)
    ensures Base(l, p) in Coalesced(l, p).at && Base(l, p) <= p
    ensures FreeBefore(l, p) ==> Base(l, p) < p
    ensures p < Succ(Coalesced(l, p), Base(l, p))
    ensures FreeAfter(l, p) ==> Succ(l, p) < Succ(Coalesced(l, p), Base(l, p))
  {
    CoalesceExtent(l, p);
  }

  // ---------- next fit ----------

  predicate FreeFit(l: Layout, p: nat, n: nat) {
    IsFree(l, p) && n <= l.at[p].units
  }

  /** Where the block after `p` starts; the prologue comes before the first one. */
  function Next(l: Layout, p: nat): nat
    requires p == PROLOGUE || p in l.at
  {
    if p == PROLOGUE then l.first else Succ(l, p)
  }

  /** The first block that fits among those from `p` up to, but not at, `stop`. */
  ghost function FirstFrom(l: Layout, p: nat, stop: nat, n: nat): (r: Option<nat>)
    requires Tiles(l) && 1 < l.first && (IsPlace(l, p) || p == l.end) && stop <= l.end
    ensures r.Some? ==> FreeFit(l, r.value, n)
    decreases l.end - p
  {
    if p >= stop then None
    else if FreeFit(l, p, n) then Some(p)
    else
      assert p == PROLOGUE ==> l.first == l.end || l.first in l.at;
      FirstFrom(l, Next(l, p), stop, n)
  }

  /** From the rover to the end, then from the start to the rover. */
  ghost function NextFit(h: Heap, n: nat): (r: Option<nat>)
    requires Consistent(h)
    ensures r.Some? ==> FreeFit(h.layout, r.value, n)
  {
    var r := FirstFrom(h.layout, h.rover, h.layout.end, n);
    if r.Some? then r else FirstFrom(h.layout, PROLOGUE, h.rover, n)
  }

  lemma {:induction false} FirstFromCorrect(l: Layout, p: nat, stop: nat, n: nat)
    requires Tiles(l) && 1 < l.first && (IsPlace(l, p) || p == l.end) && stop <= l.end
    ensures var r := FirstFrom(l, p, stop, n);
            if r.Some? then
              p <= r.value < stop && forall q :: p <= q < r.value ==> !FreeFit(l, q, n)
            else
              forall q :: p <= q < stop ==> !FreeFit(l, q, n)
    decreases l.end - p
  {
    if p < stop && !FreeFit(l, p, n) {
      assert p == PROLOGUE ==> l.first == l.end || l.first in l.at;
      FirstFromCorrect(l, Next(l, p), stop, n);
      forall q | p <= q < Next(l, p) ensures !FreeFit(l, q, n) {
      }
    }
  }

  /** `q` comes first among the blocks that fit, going round from the rover. */
  ghost predicate CyclicFirst(h: Heap, n: nat, q: nat) {
    && FreeFit(h.layout, q, n)
    && forall x: nat :: FreeFit(h.layout, x, n) ==>
         if h.rover <= q then q <= x || x < h.rover else q <= x < h.rover
  }

  /** The search finds the cyclically first block that fits, and nothing exactly if no block fits. */
  lemma NextFitCorrect(h: Heap, n: nat)
    requires Consistent(h)
    ensures NextFit(h, n).None? <==> forall x :: !FreeFit(h.layout, x, n)
    ensures NextFit(h, n).Some? ==> CyclicFirst(h, n, NextFit(h, n).value)
  {
    FirstFromCorrect(h.layout, h.rover, h.layout.end, n);
    FirstFromCorrect(h.layout, PROLOGUE, h.rover, n);
  }

  // ---------- the operations ----------

  /** The block size, in bytes, for a request of `size` bytes, computed in 32-bit arithmetic. */
  function AdjustedSize(size: nat): nat {
    if size <= 8 then 8 * MIN_UNITS else 8 * ((size + 8 + 7) % 0x1_0000_0000 / 8)
  }

  function Units(size: nat): nat {
    AdjustedSize(size) / 8
  }

  /** The units that a request of `size` bytes takes with its two tags. */
  function Need(size: nat): nat {
    if size <= 8 then MIN_UNITS else (size + 15) / 8
  }

  lemma NeedFits(size: nat)
    requires size > 0
    ensures MIN_UNITS <= Need(size) && size + 8 <= 8 * Need(size) <= size + 15
  {
  }

  /** The rounding leaves room for the request and its two tags, and is the least that does, exactly when it
      does not wrap; when it wraps, it gives less than a minimum block. */
  lemma AdjustedSizeFits(size: nat)
    requires size < 0x1_0000_0000
    ensures AdjustedSize(size) == 8 * Units(size)
    ensures AdjustedSize(size) >= size + 8 <==> size < 0x1_0000_0000 - 15
    ensures Units(size) == Need(size) <==> size < 0x1_0000_0000 - 15
    ensures size >= 0x1_0000_0000 - 15 ==> Units(size) < Need(size) && AdjustedSize(size) < 8 * MIN_UNITS
  {
    NeedMonotone(size);
  }

  lemma NeedMonotone(size: nat)
    ensures size >= 0x1_0000_0000 - 15 ==> 8 * Need(size) > 0xFFFF_0000
  {
  }

  /** Hands out the first `n` units of free block `p`; a remainder that can stand alone stays free. */
  function Placed(h: Heap, p: nat, n: nat): Heap
    requires FreeFit(h.layout, p, n)
  {
    if h.layout.at[p].units - n >= MIN_UNITS then Heap(Split(h.layout, p, n), h.rover)
    else Heap(Mark(h.layout, p, true), h.rover)
  }

  lemma PlaceConsistent(h: Heap, p: nat, n: nat)
    requires Consistent(h) && FreeFit(h.layout, p, n) && MIN_UNITS <= n
    ensures Consistent(Placed(h, p, n))
  {
    var l := h.layout;
    assert Chained(l) && l.min == MIN_UNITS;
    hide Tiles, Chained, NoFreePair;
    if l.at[p].units - n >= MIN_UNITS {
      SplitTiles(l, p, n);
      SplitNoFreePair(l, p, n);
    } else {
      MarkTiles(l, p, true);
      MarkNoFreePair(l, p);
    }
  }

  lemma PlacedHandsOut(h: Heap, p: nat, n: nat)
    requires Consistent(h) && FreeFit(h.layout, p, n) && MIN_UNITS <= n
    ensures HandsOut(h.layout, Placed(h, p, n).layout, p)
    ensures n <= Placed(h, p, n).layout.at[p].units < n + MIN_UNITS
  {
    hide Tiles, NoFreePair, HandsOut;
    var l := h.layout;
    if l.at[p].units - n >= MIN_UNITS {
      assert Tiles(l) && l.min == MIN_UNITS;
      SplitTiles(l, p, n);
      SplitHandsOut(l, p, n);
    } else {
      MarkHandsOut(l, p);
    }
  }

  /** Where the free block starts that growing the heap leaves at its end. */
  ghost function GrownAt(h: Heap, n: nat): nat
    requires Consistent(h) && MIN_UNITS <= n
  {
    ExtendPending(h, n);
    Base(Extend(h.layout, n), h.layout.end)
  }

  ghost function Grow(h: Heap, n: nat): Heap
    requires Consistent(h) && MIN_UNITS <= n
  {
    ExtendPending(h, n);
    Absorb(Heap(Extend(h.layout, n), h.rover), h.layout.end)
  }

  lemma ExtendPending(h: Heap, n: nat)
    requires Consistent(h) && MIN_UNITS <= n
    ensures Pending(Heap(Extend(h.layout, n), h.rover), h.layout.end)
  {
    ExtendTiles(h.layout, n);
    ExtendNoFreePair(h.layout, n);
  }

  lemma GrowFits(h: Heap, n: nat)
    requires Consistent(h) && MIN_UNITS <= n
    ensures Consistent(Grow(h, n)) && FreeFit(Grow(h, n).layout, GrownAt(h, n), n)
  {
    var e := Heap(Extend(h.layout, n), h.rover);
    ExtendPending(h, n);
    AbsorbConsistent(e, h.layout.end);
    CoalesceExtent(e.layout, h.layout.end);
    MergedCovers(e.layout, h.layout.end);
    hide Coalesced, Base, Tiles, NoFreePair, NoFreePairBut, FreeBefore;
  }

  lemma GrowKeeps(h: Heap, n: nat)
    requires Consistent(h) && MIN_UNITS <= n
    ensures SameLive(h.layout, Grow(h, n).layout)
    ensures Grow(h, n).layout == h.layout.(end := h.layout.end + 2 * n, at := Grow(h, n).layout.at)
  {
    hide Tiles, Coalesced, NoFreePairBut, NoFreePair;
    ExtendPending(h, n);
    ExtendTiles(h.layout, n);
    CoalesceSameLive(Extend(h.layout, n), h.layout.end);
  }

  ghost function Release(h: Heap, p: nat): Heap
    requires Consistent(h) && IsLive(h.layout, p)
  {
    MarkPending(h, p);
    Absorb(Heap(Mark(h.layout, p, false), h.rover), p)
  }

  lemma MarkPending(h: Heap, p: nat)
    requires Consistent(h) && IsLive(h.layout, p)
    ensures Pending(Heap(Mark(h.layout, p, false), h.rover), p)
  {
    MarkTiles(h.layout, p, false);
    FreeNoFreePair(h.layout, p);
  }

  lemma ReleaseKeeps(h: Heap, p: nat)
    requires Consistent(h) && IsLive(h.layout, p)
    ensures Consistent(Release(h, p)) && HandsOut(Release(h, p).layout, h.layout, p)
    ensures Release(h, p).layout == h.layout.(at := Release(h, p).layout.at)
  {
    hide Tiles, Coalesced, Consistent, NoFreePairBut, Base;
    var e := Heap(Mark(h.layout, p, false), h.rover);
    MarkPending(h, p);
    AbsorbConsistent(e, p);
    CoalesceSameLive(e.layout, p);
  }

  /** Serves a request of `size` bytes: from the next fit if there is one, else from a grown heap. A
      search that succeeds leaves the rover at the block it found. */
  ghost function Malloc(h: Heap, size: nat): (Heap, Option<nat>)
    requires Consistent(h)
  {
    if size == 0 then (h, None)
    else
      NeedFits(size);
      var n, e := Need(size), Max(Need(size), CHUNK_UNITS);
      var fit := NextFit(h, n);
      if fit.Some? then (Placed(h.(rover := fit.value), fit.value, n), fit)
      else if !CanGrow(h.layout, e) then (h, None)
      else
        GrowFits(h, e);
        (Placed(Grow(h, e), GrownAt(h, e), n), Some(GrownAt(h, e)))
  }

  /** A request that succeeds gets a block of its own, with room for the request and its tags, and at
      most 23 bytes more than the request; all other live blocks stay. If a free block fits, it is the
      cyclically first from the rover on, and the rover ends up there. The request fails only if it is for 0
      bytes, or no free block fits and the heap cannot grow; and then nothing changes, the rover
      included. */
  lemma MallocCorrect(h: Heap, size: nat)
    requires Consistent(h)
    ensures var (h', r) := Malloc(h, size);
            && Consistent(h')
            && (r.None? ==> h' == h)
            && (r.None? <==> size == 0 || ((forall q :: !FreeFit(h.layout, q, Need(size)))
                                           && !CanGrow(h.layout, Max(Need(size), CHUNK_UNITS))))
            && (r.Some? ==> HandsOut(h.layout, h'.layout, r.value)
                            && size + 8 <= 8 * h'.layout.at[r.value].units <= size + 23)
            && (size != 0 && (exists q: nat :: FreeFit(h.layout, q, Need(size))) ==>
                  r.Some? && CyclicFirst(h, Need(size), r.value) && h'.rover == r.value)
  {
    hide Tiles, NoFreePair, SameLive, HandsOut, Grow, GrownAt, NextFit, Need;
    if size != 0 {
      var n, e := Need(size), Max(Need(size), CHUNK_UNITS);
      NeedFits(size);
      NextFitCorrect(h, n);
      var fit := NextFit(h, n);
      if fit.Some? {
        PlaceConsistent(h.(rover := fit.value), fit.value, n);
        PlacedHandsOut(h.(rover := fit.value), fit.value, n);
      } else if CanGrow(h.layout, e) {
        var g, b := Grow(h, e), GrownAt(h, e);
        GrowFits(h, e);
        GrowKeeps(h, e);
        PlaceConsistent(g, b, n);
        PlacedHandsOut(g, b, n);
        HandsOutAfter(h.layout, g.layout, Placed(g, b, n).layout, b);
      }
    }
  }

  /** An allocation keeps the heap within its limit. */
  lemma MallocInside(h: Heap, size: nat)
    requires Consistent(h) && 4 * (h.layout.end + 1) <= HEAP_BYTES
    ensures var l, c := h.layout, Malloc(h, size).0.layout;
            c.first == l.first && l.end <= c.end && 4 * (c.end + 1) <= HEAP_BYTES
  {
    hide Consistent, Grow, GrownAt, NextFit, Need;
    if size != 0 {
      NeedFits(size);
      var n, e := Need(size), Max(Need(size), CHUNK_UNITS);
      if NextFit(h, n).None? && CanGrow(h.layout, e) {
        GrowFits(h, e);
        GrowKeeps(h, e);
      }
    }
  }

  /** Whether mm_malloc returns a block, in 32-bit arithmetic: a free block has the size computed, or mem_sbrk
      does not refuse. */
  ghost predicate Granted(base: nat, h: Heap, size: nat)
    requires Consistent(h)
  {
    size != 0 &&
    (NextFit(h, Units(size)).Some? ||
     !SbrkRefuses(base, 4 * (h.layout.end + 1), 8 * Max(Units(size), CHUNK_UNITS)))
  }

  /** No arithmetic goes wrong when the request is served. Its rounding does not wrap, and if the heap has to
      grow for it, mem_sbrk is not misled; or its rounding wraps, but then nothing is found even for the size
      computed. */
  ghost predicate InReach(base: nat, h: Heap, size: nat)
    requires Consistent(h)
  {
    && size < 0x1_0000_0000
    && (size >= 0x1_0000_0000 - 15 ==> !Granted(base, h, size))
    && (0 < size < 0x1_0000_0000 - 15 ==>
          NextFit(h, Units(size)).Some? ||
          !SbrkMisled(base, 4 * (h.layout.end + 1), 8 * Max(Units(size), CHUNK_UNITS)))
  }

  /** A request whose rounding wraps is larger than any heap. */
  lemma WrappedRefused(h: Heap, size: nat)
    requires Consistent(h) && 0x1_0000_0000 - 15 <= size < 0x1_0000_0000 && 4 * (h.layout.end + 1) <= HEAP_BYTES
    ensures Malloc(h, size) == (h, None)
  {
    hide Placed, Grow, GrownAt;
    NeedMonotone(size);
  }

  /** The requests in reach are exactly those which mm_malloc grants if and only if they can be served. */
  lemma InReachExact(base: nat, h: Heap, size: nat)
    requires Consistent(h) && 4 * (h.layout.end + 1) <= HEAP_BYTES && base + HEAP_BYTES < 0x1_0000_0000
    requires size < 0x1_0000_0000
    ensures InReach(base, h, size) <==> (Granted(base, h, size) <==> Malloc(h, size).1.Some?)
  {
    hide Consistent, Placed, Grow, GrownAt, NextFit, AdjustedSize;
    AdjustedSizeFits(size);
    if size >= 0x1_0000_0000 - 15 {
      WrappedRefused(h, size);
    } else {
      SbrkRight(base, 4 * (h.layout.end + 1), 8 * Max(Units(size), CHUNK_UNITS));
    }
  }

  /** On addresses well below 2^32 everything is in reach that is not larger than what is left of them. */
  lemma ReachByNumbers(base: nat, h: Heap, size: nat)
    requires Consistent(h) && 4 * (h.layout.end + 1) <= HEAP_BYTES && base + HEAP_BYTES + size + 4096 < 0x1_0000_0000
    ensures InReach(base, h, size)
  {
    hide Consistent;
  }

  /** Moves block `p` to a block for `size` bytes; with no block it is an allocation, with size 0 a release. */
  ghost function Realloc(h: Heap, p: Option<nat>, size: nat): (Heap, Option<nat>)
    requires Consistent(h) && (p.Some? ==> IsLive(h.layout, p.value))
  {
    if size == 0 then
      (if p.Some? then Release(h, p.value) else h, None)
    else
      MallocCorrect(h, size);
      var (h', r) := Malloc(h, size);
      if r.Some? && p.Some? then (Release(h', p.value), r) else (h', r)
  }

  /** The heap with nothing between prologue and epilogue, and the rover at the prologue. */
  function Empty(): Heap {
    Heap(Layout(3, MIN_UNITS, 3, map[]), PROLOGUE)
  }

  lemma EmptyConsistent()
    ensures Consistent(Empty())
  {
  }

  ghost function Initial(): Heap {
    EmptyConsistent();
    Grow(Empty(), CHUNK_UNITS)
  }
}
