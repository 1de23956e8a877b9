/** What the operations of the implicit allocator do to a heap, told from the heap alone: which block is handed
    out and how large it is, how far the heap grows, and where the rover ends up. */
module ImplicitLaws {
  import opened Basics
  import opened Blocks
  import opened LayoutLaws
  import opened Memlib
  import opened ImplicitHeap

  // ---------- place ----------

  lemma PlacedExact(h: Heap, p: nat, n: nat)
    requires Consistent(h) && FreeFit(h.layout, p, n) && MIN_UNITS <= n
    ensures h.layout.min == MIN_UNITS
    ensures BlockPlaced(h.layout, Placed(h, p, n).layout, p, n) && Placed(h, p, n).rover == h.rover
  {
    hide Tiles, NoFreePair;
  }

  // ---------- free ----------

  /** The rover stays, unless block `b` has swallowed the one it was at. */
  ghost predicate RoverKept(rover: nat, l': Layout, rover': nat, b: nat) {
    && IsFree(l', b)
    && rover' == if b < rover < Succ(l', b) then b else rover
  }

  lemma AbsorbExact(h: Heap, p: nat)
    requires Pending(h, p)
    ensures Absorb(h, p).layout == Coalesced(h.layout, p)
    ensures RoverKept(h.rover, Absorb(h, p).layout, Absorb(h, p).rover, Base(h.layout, p))
    ensures Base(h.layout, p) == JoinedStart(h.layout, p)
  {
    CoalesceExtent(h.layout, p);
    hide Coalesced, NoFreePairBut, Chained;
  }

  /** Freeing joins the block with its free neighbours; a rover at a block that is swallowed moves to the start of
      the one that swallows it. */
  lemma ReleaseExact(h: Heap, p: nat)
    requires Consistent(h) && IsLive(h.layout, p)
    ensures var h', b := Release(h, p), JoinedStart(h.layout, p);
            && Consistent(h') && HandsOut(h'.layout, h.layout, p)
            && h'.layout.first == h.layout.first && h'.layout.end == h.layout.end
            && RoverKept(h.rover, h'.layout, h'.rover, b)
            && Succ(h'.layout, b) == (if FreeAfter(h.layout, p) then Succ(h.layout, Succ(h.layout, p))
                                      else Succ(h.layout, p))
  {
    hide Tiles, NoFreePair, NoFreePairBut, Coalesced, HandsOut, Base, Absorb;
    var e := Heap(Mark(h.layout, p, false), h.rover);
    MarkPending(h, p);
    MarkTiles(h.layout, p, false);
    ReleaseKeeps(h, p);
    AbsorbExact(e, p);
    CoalesceExtent(e.layout, p);
    MarkedStart(h.layout, p);
    MarkedSucc(h.layout, p);
  }

  // ---------- growing ----------

  /** Growing lengthens a free last block, or adds a block behind a live one; the rover stays where it is. */
  lemma GrowExact(h: Heap, n: nat)
    requires Consistent(h) && MIN_UNITS <= n
    ensures var h', b := Grow(h, n), JoinedStart(h.layout, h.layout.end);
            && Consistent(h') && SameLive(h.layout, h'.layout)
            && h'.layout.first == h.layout.first && h'.layout.end == h.layout.end + 2 * n
            && b == GrownAt(h, n) && b <= h.layout.end && IsFree(h'.layout, b) && Succ(h'.layout, b) == h'.layout.end
            && h'.rover == h.rover
  {
    hide Tiles, NoFreePair, NoFreePairBut, Coalesced, Base, Absorb;
    var e := Heap(Extend(h.layout, n), h.rover);
    ExtendPending(h, n);
    ExtendTiles(h.layout, n);
    GrowFits(h, n);
    GrowKeeps(h, n);
    AbsorbExact(e, h.layout.end);
    CoalesceExtent(e.layout, h.layout.end);
    ExtendedStart(h.layout, n);
    LastOfAll(e.layout, h.layout.end);
    RoverBelow(h);
  }

  lemma RoverBelow(h: Heap)
    requires Consistent(h)
    ensures Tiles(h.layout) && JoinedStart(h.layout, h.layout.end) <= h.layout.end
    ensures h.rover <= JoinedStart(h.layout, h.layout.end)
  {
    hide Chained;
  }

  // ---------- malloc ----------

  ghost predicate SomeFits(h: Heap, n: nat) {
    exists q: nat :: FreeFit(h.layout, q, n)
  }

  /** A free block fits: the cyclically first from the rover on is handed out, and the rover stays there. */
  ghost predicate Fitted(h: Heap, h': Heap, q: nat, n: nat) {
    CyclicFirst(h, n, q) && h'.rover == q && BlockPlaced(h.layout, h'.layout, q, n)
  }

  /** The heap has grown by `e` units, and its last block `b` is handed out; the rover is where it was. */
  ghost predicate Grown(h: Heap, h': Heap, b: nat, n: nat, e: nat) {
    && b <= h.layout.end && h'.layout.end == h.layout.end + 2 * e
    && var room: nat := (h'.layout.end - b) / 2;
    && h'.layout.end == b + 2 * room
    && HandsOut(h.layout, h'.layout, b) && h'.layout.at[b].units == Share(room, n, MIN_UNITS)
    && (room >= n + MIN_UNITS ==> IsFree(h'.layout, b + 2 * n) && Succ(h'.layout, b + 2 * n) == h'.layout.end)
    && h'.rover == h.rover
  }

  lemma MallocFits(h: Heap, size: nat)
    requires Consistent(h) && size > 0 && SomeFits(h, Need(size))
    ensures var (h', r) := Malloc(h, size); r.Some? && Fitted(h, h', r.value, Need(size))
  {
    hide Consistent, Placed, Grow, GrownAt, NextFit, Need, BlockPlaced;
    NeedFits(size);
    NextFitCorrect(h, Need(size));
    var q := NextFit(h, Need(size)).value;
    RoverAt(h, q, Need(size));
    PlacedExact(h.(rover := q), q, Need(size));
  }

  lemma RoverAt(h: Heap, q: nat, n: nat)
    requires Consistent(h) && FreeFit(h.layout, q, n)
    ensures Consistent(h.(rover := q))
  {
    hide Tiles, NoFreePair;
  }

  lemma MallocGrows(h: Heap, size: nat)
    requires Consistent(h) && size > 0 && !SomeFits(h, Need(size)) && CanGrow(h.layout, Max(Need(size), CHUNK_UNITS))
    ensures Tiles(h.layout)
    ensures var (h', r) := Malloc(h, size);
            && r == Some(JoinedStart(h.layout, h.layout.end))
            && Grown(h, h', r.value, Need(size), Max(Need(size), CHUNK_UNITS))
  {
    hide Consistent, Placed, Grow, GrownAt, Need, NextFit, BlockPlaced, HandsOut, JoinedStart, SameLive, Tiles;
    RoverBelow(h);
    var n, e := Need(size), Max(Need(size), CHUNK_UNITS);
    NeedFits(size);
    NextFitCorrect(h, n);
    GrowFits(h, e);
    GrowExact(h, e);
    GrowPlaced(h, Grow(h, e), GrownAt(h, e), n, e);
  }

  lemma GrowPlaced(h: Heap, g: Heap, b: nat, n: nat, e: nat)
    requires Consistent(g) && SameLive(h.layout, g.layout) && g.layout.end == h.layout.end + 2 * e && MIN_UNITS <= n
    requires b <= h.layout.end && FreeFit(g.layout, b, n) && Succ(g.layout, b) == g.layout.end && g.rover == h.rover
    ensures Grown(h, Placed(g, b, n), b, n, e)
  {
    hide Consistent, Placed, HandsOut, SameLive;
    PlacedExact(g, b, n);
    PlacedHandsOut(g, b, n);
    HandsOutAfter(h.layout, g.layout, Placed(g, b, n).layout, b);
  }

  // ---------- realloc ----------

  /** Whether `size` bytes can be served. */
  ghost predicate Servable(h: Heap, size: nat) {
    SomeFits(h, Need(size)) || CanGrow(h.layout, Max(Need(size), CHUNK_UNITS))
  }

  /** `h'` is `g` with block `p` released. */
  ghost predicate Released(g: Heap, p: nat, h': Heap) {
    Consistent(g) && IsLive(g.layout, p) && h' == Release(g, p)
  }

  /** What a request is served from: the cyclically first block that fits, or the end of the heap, which has grown
      for it; in `g` the rover is at the block that fitted, or where it was. */
  ghost predicate ServedFrom(h: Heap, g: Heap, q: nat, size: nat)
    requires Consistent(h)
  {
    if SomeFits(h, Need(size)) then
      g.layout.end == h.layout.end && CyclicFirst(h, Need(size), q) && g.rover == q
    else
      && g.layout.end == h.layout.end + 2 * Max(Need(size), CHUNK_UNITS)
      && q == JoinedStart(h.layout, h.layout.end) && g.rover == h.rover
  }

  lemma MallocServed(h: Heap, size: nat)
    requires Consistent(h) && size > 0
    ensures var (h', r) := Malloc(h, size);
            && (r.Some? <==> Servable(h, size)) && (r.None? ==> h' == h)
            && (r.Some? ==> ServedFrom(h, h', r.value, size))
  {
    hide Consistent, Malloc, HandsOut, Need, CyclicFirst, JoinedStart;
    MallocCorrect(h, size);
    if SomeFits(h, Need(size)) {
      MallocFits(h, size);
    } else if CanGrow(h.layout, Max(Need(size), CHUNK_UNITS)) {
      MallocGrows(h, size);
    }
  }

  /** A resize for which there is room moves the block, even if the new size would fit where it is: an allocation,
      and then a release of the old block. */
  lemma ReallocMoves(h: Heap, p: nat, size: nat)
    requires Consistent(h) && IsLive(h.layout, p) && size > 0 && Servable(h, size)
    ensures var (h', r) := Realloc(h, Some(p), size);
            && Consistent(h') && r.Some? && MovedTo(h.layout, h'.layout, p, r.value)
            && size + 8 <= 8 * h'.layout.at[r.value].units <= size + 23
            && r == Malloc(h, size).1 && ServedFrom(h, Malloc(h, size).0, r.value, size)
            && Released(Malloc(h, size).0, p, h')
  {
    hide Consistent, Malloc, Release, HandsOut, Need, CanGrow, Servable, MovedTo, ServedFrom;
    MallocCorrect(h, size);
    MallocServed(h, size);
    var (g, r) := Malloc(h, size);
    StaysLive(h.layout, g.layout, r.value, p);
    ReleaseKeeps(g, p);
    MovedBlock(h.layout, g.layout, Release(g, p).layout, p, r.value);
  }

  /** Without room nothing changes; without a block it is an allocation, without a size a release. */
  lemma ReallocOtherwise(h: Heap, p: nat, size: nat)
    requires Consistent(h)
    ensures IsLive(h.layout, p) && size > 0 && !Servable(h, size) ==> Realloc(h, Some(p), size) == (h, None)
    ensures Realloc(h, None, size) == Malloc(h, size)
    ensures IsLive(h.layout, p) ==> Realloc(h, Some(p), 0) == (Release(h, p), None)
  {
    hide Consistent, Malloc, Release, Need, CanGrow, Servable;
    NothingForNothing(h);
    if size != 0 {
      MallocServed(h, size);
    }
  }

  lemma NothingForNothing(h: Heap)
    requires Consistent(h)
    ensures Malloc(h, 0) == (h, None)
  {
  }

  // ---------- the start ----------

  /** What initialisation leaves: one free block of 512 units, and the rover at the prologue. */
  lemma InitialExact()
    ensures Initial() == Heap(Layout(3, MIN_UNITS, 1027, map[3 := Block(512, false)]), PROLOGUE)
  {
  }
}
