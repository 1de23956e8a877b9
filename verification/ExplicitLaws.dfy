/** What the operations of the explicit allocator do to a heap, told from the heap alone: which block is handed
    out and how large it is, how far the heap grows, and in which order the free list then stands. */
module ExplicitLaws {
  import opened Basics
  import opened Blocks
  import opened LayoutLaws
  import opened Memlib
  import opened ExplicitHeap

  // ---------- order ----------

  /** `x` comes before `y` in `s`. */
  ghost predicate Before(s: seq<nat>, x: nat, y: nat) {
    exists i, j :: 0 <= i < j < |s| && s[i] == x && s[j] == y
  }

  /** What `t` lists stands in the same order in `s`. */
  ghost predicate InOrder(t: seq<nat>, s: seq<nat>) {
    forall i, j :: 0 <= i < j < |t| ==> Before(s, t[i], t[j])
  }

  lemma WithoutInOrder(s: seq<nat>, x: nat)
    ensures InOrder(Without(s, x), s)
  {
    var t := Without(s, x);
    forall i, j | 0 <= i < j < |t| ensures Before(s, t[i], t[j]) {
      if x in s {
        var k := IndexOf(s, x);
        var a, b := if i < k then i else i + 1, if j < k then j else j + 1;
        assert s[a] == t[i] && s[b] == t[j];
      }
    }
  }

  lemma InOrderTrans(u: seq<nat>, t: seq<nat>, s: seq<nat>)
    requires InOrder(u, t) && InOrder(t, s)
    ensures InOrder(u, s)
  {
    forall i, j | 0 <= i < j < |u| ensures Before(s, u[i], u[j]) {
      assert Before(t, u[i], u[j]);
    }
  }

  lemma RestInOrder(h: Heap, p: nat)
    requires Tiles(h.layout) && p in h.layout.at
    ensures InOrder(Rest(h, p), h.free)
  {
    hide Tiles, Without, InOrder, FreeAfter;
    var f := if FreeBefore(h.layout, p) then Without(h.free, Pred(h.layout, p)) else h.free;
    SameOrder(h.free);
    if FreeBefore(h.layout, p) {
      WithoutInOrder(h.free, Pred(h.layout, p));
    }
    if FreeAfter(h.layout, p) {
      WithoutInOrder(f, Succ(h.layout, p));
      InOrderTrans(Without(f, Succ(h.layout, p)), f, h.free);
    }
  }

  lemma SameOrder(s: seq<nat>)
    ensures InOrder(s, s)
  {
  }

  // ---------- place ----------

  /** The list after placing `n` units in block `p` of `room` units: a remainder has the place of the block, and
      nothing else has moved; without one, those behind it have moved up. */
  ghost predicate ListPlaced(free: seq<nat>, free': seq<nat>, p: nat, room: nat, n: nat) {
    exists k: nat :: k < |free| && free[k] == p && PlacedAt(free, free', k, p, room, n)
  }

  ghost predicate PlacedAt(free: seq<nat>, free': seq<nat>, k: nat, p: nat, room: nat, n: nat) {
    if room >= n + MIN_UNITS then
      && |free'| == |free|
      && forall i :: 0 <= i < |free| ==> free'[i] == if i == k then p + 2 * n else free[i]
    else
      && |free'| == |free| - 1
      && forall i :: 0 <= i < |free'| ==> free'[i] == if i < k then free[i] else free[i + 1]
  }

  lemma PlacedExact(h: Heap, p: nat, n: nat)
    requires Consistent(h) && p in h.free && Fits(h.layout, p, n) && MIN_UNITS <= n
    ensures h.layout.min == MIN_UNITS
    ensures p in h.layout.at && BlockPlaced(h.layout, Placed(h, p, n).layout, p, n)
    ensures ListPlaced(h.free, Placed(h, p, n).free, p, h.layout.at[p].units, n)
  {
    hide Tiles, NoFreePair, Lists;
    PlacedAtIndex(h, p, n);
  }

  lemma PlacedAtIndex(h: Heap, p: nat, n: nat)
    requires p in h.free && Fits(h.layout, p, n)
    ensures PlacedAt(h.free, Placed(h, p, n).free, IndexOf(h.free, p), p, h.layout.at[p].units, n)
  {
  }

  // ---------- free ----------

  /** In front of the list is block `b` of `l'`; behind it, in the order they had, stand all that were listed
      before and do not lie inside `b`. */
  ghost predicate ListJoined(free: seq<nat>, l': Layout, free': seq<nat>, b: nat) {
    && IsFree(l', b) && free' != [] && free'[0] == b && InOrder(free'[1..], free)
    && forall q :: q in free'[1..] <==> q in free && !(b <= q < Succ(l', b))
  }

  lemma AbsorbExact(h: Heap, p: nat)
    requires Pending(h, p)
    ensures ListJoined(h.free, Absorb(h, p).layout, Absorb(h, p).free, Base(h.layout, p))
    ensures Base(h.layout, p) == JoinedStart(h.layout, p)
  {
    RestInOrder(h, p);
    RestCorrect(h, p);
    CoalesceExtent(h.layout, p);
    var a := Absorb(h, p);
    assert a.free[1..] == Rest(h, p);
    JoinedCovers(h, p);
    hide Coalesced, Rest, NoFreePairBut, InOrder, Tiles, Base;
    assert IsFree(a.layout, Base(h.layout, p));
  }

  /** Of the listed blocks, the merged block covers exactly the free neighbours. */
  lemma JoinedCovers(h: Heap, p: nat)
    requires Pending(h, p)
    ensures Base(h.layout, p) in Coalesced(h.layout, p).at
    ensures var b, e := Base(h.layout, p), Succ(Coalesced(h.layout, p), Base(h.layout, p));
            forall q <- h.free :: b <= q < e <==> (q == Succ(h.layout, p) && FreeAfter(h.layout, p))
                                                  || (FreeBefore(h.layout, p) && q == Pred(h.layout, p))
  {
    CoalesceExtent(h.layout, p);
    hide Coalesced, NoFreePairBut;
  }

  /** Freeing joins the block with its free neighbours, and lists the result first. */
  lemma ReleaseExact(h: Heap, p: nat)
    requires Consistent(h) && IsLive(h.layout, p)
    ensures var h', b := Release(h, p), JoinedStart(h.layout, p);
            && Consistent(h') && HandsOut(h'.layout, h.layout, p)
            && h'.layout.first == h.layout.first && h'.layout.end == h.layout.end
            && ListJoined(h.free, h'.layout, h'.free, b)
            && Succ(h'.layout, b) == (if FreeAfter(h.layout, p) then Succ(h.layout, Succ(h.layout, p))
                                      else Succ(h.layout, p))
  {
    hide Tiles, NoFreePair, NoFreePairBut, Lists, Coalesced, HandsOut, ListJoined, Base, Absorb, Rest;
    var e := Heap(Mark(h.layout, p, false), h.free);
    MarkPending(h, p);
    MarkTiles(h.layout, p, false);
    ReleaseKeeps(h, p);
    AbsorbExact(e, p);
    CoalesceExtent(e.layout, p);
    MarkedStart(h.layout, p);
    MarkedSucc(h.layout, p);
    AbsorbLayout(e, p);
  }

  lemma AbsorbLayout(h: Heap, p: nat)
    requires Pending(h, p)
    ensures Absorb(h, p).layout == Coalesced(h.layout, p)
  {
  }

  // ---------- growing ----------

  /** Growing lengthens a free last block, or adds a block behind a live one, and lists it first. */
  lemma GrowExact(h: Heap, n: nat)
    requires Consistent(h) && MIN_UNITS <= n
    ensures var h', b := Grow(h, n), JoinedStart(h.layout, h.layout.end);
            && Consistent(h') && SameLive(h.layout, h'.layout)
            && h'.layout.first == h.layout.first && h'.layout.end == h.layout.end + 2 * n
            && ListJoined(h.free, h'.layout, h'.free, b) && Succ(h'.layout, b) == h'.layout.end
  {
    hide Tiles, NoFreePair, NoFreePairBut, Lists, Coalesced, ListJoined, Base, Absorb, Rest;
    var e := Heap(Extend(h.layout, n), h.free);
    ExtendPending(h, n);
    ExtendTiles(h.layout, n);
    GrowFits(h, n);
    GrowKeeps(h, n);
    AbsorbExact(e, h.layout.end);
    CoalesceExtent(e.layout, h.layout.end);
    ExtendedStart(h.layout, n);
    AbsorbLayout(e, h.layout.end);
    LastOfAll(e.layout, h.layout.end);
  }

  // ---------- malloc ----------

  ghost predicate SomeFits(h: Heap, n: nat) {
    exists q <- h.free :: Fits(h.layout, q, n)
  }

  /** A free block fits: the first of the smallest is handed out. */
  ghost predicate Fitted(h: Heap, h': Heap, q: nat, n: nat) {
    && (exists k: nat :: FirstSmallest(h.layout, h.free, n, k) && h.free[k] == q)
    && q in h.layout.at && BlockPlaced(h.layout, h'.layout, q, n)
    && ListPlaced(h.free, h'.free, q, h.layout.at[q].units, n)
  }

  /** The heap has grown by `e` units, and its last block `b` is handed out; a remainder stands first in the list,
      and the others in the order they had. */
  ghost predicate Grown(h: Heap, h': Heap, b: nat, n: nat, e: nat) {
    && b <= h.layout.end && h'.layout.end == h.layout.end + 2 * e
    && var room: nat := (h'.layout.end - b) / 2;
    && h'.layout.end == b + 2 * room
    && HandsOut(h.layout, h'.layout, b) && h'.layout.at[b].units == Share(room, n, MIN_UNITS)
    && (room >= n + MIN_UNITS ==> IsFree(h'.layout, b + 2 * n) && Succ(h'.layout, b + 2 * n) == h'.layout.end)
    && ListGrown(h.free, h'.free, b, room, n)
  }

  ghost predicate ListGrown(free: seq<nat>, free': seq<nat>, b: nat, room: nat, n: nat) {
    var k := if room >= n + MIN_UNITS then 1 else 0;
    && k <= |free'| && (k == 1 ==> free'[0] == b + 2 * n)
    && InOrder(free'[k..], free)
    && forall q :: q in free'[k..] <==> q in free && q != b
  }

  lemma MallocFits(h: Heap, size: nat)
    requires Consistent(h) && size > 0 && SomeFits(h, Need(size))
    ensures var (h', r) := Malloc(h, size); r.Some? && Fitted(h, h', r.value, Need(size))
  {
    hide Consistent, Placed, Grow, FirstSmallest, Need, BlockPlaced, ListPlaced;
    NeedFits(size);
    BestFitCorrect(h.layout, h.free, Need(size));
    PlacedExact(h, BestFit(h.layout, h.free, Need(size)).value, Need(size));
  }

  lemma MallocGrows(h: Heap, size: nat)
    requires Consistent(h) && size > 0 && !SomeFits(h, Need(size)) && CanGrow(h.layout, Max(Need(size), CHUNK_UNITS))
    ensures var (h', r) := Malloc(h, size);
            && r == Some(JoinedStart(h.layout, h.layout.end))
            && Grown(h, h', r.value, Need(size), Max(Need(size), CHUNK_UNITS))
  {
    hide Consistent, Placed, Grow, Need, BlockPlaced, ListPlaced, HandsOut, ListGrown, JoinedStart, InOrder, SameLive,
      ListJoined, Tiles;
    FreeBelow(h);
    var n, e, b := Need(size), Max(Need(size), CHUNK_UNITS), JoinedStart(h.layout, h.layout.end);
    NeedFits(size);
    BestFitCorrect(h.layout, h.free, n);
    var g := Grow(h, e);
    GrowFits(h, e);
    GrowExact(h, e);
    JoinedFirst(h.free, g.layout, g.free, b);
    GrowPlaced(h, g, b, n, e);
  }

  lemma FreeBelow(h: Heap)
    requires Consistent(h)
    ensures Tiles(h.layout)
    ensures JoinedStart(h.layout, h.layout.end) <= h.layout.end
    ensures forall q <- h.free :: q <= JoinedStart(h.layout, h.layout.end)
  {
    hide Chained;
  }

  lemma JoinedFirst(free: seq<nat>, l: Layout, free': seq<nat>, b: nat)
    requires ListJoined(free, l, free', b)
    ensures b in l.at && free' != [] && free'[0] == b && b in free'
  {
  }

  lemma GrowPlaced(h: Heap, g: Heap, b: nat, n: nat, e: nat)
    requires Consistent(g) && SameLive(h.layout, g.layout) && g.layout.end == h.layout.end + 2 * e && MIN_UNITS <= n
    requires ListJoined(h.free, g.layout, g.free, b) && b in g.layout.at && Succ(g.layout, b) == g.layout.end
    requires b <= h.layout.end && b in g.free && Fits(g.layout, b, n) && forall q <- h.free :: q <= b
    ensures Grown(h, Placed(g, b, n), b, n, e)
  {
    hide Consistent, Placed, ListPlaced, ListGrown, HandsOut, InOrder, SameLive;
    var h' := Placed(g, b, n);
    PlacedExact(g, b, n);
    PlacedHandsOut(g, b, n);
    HandsOutAfter(h.layout, g.layout, h'.layout, b);
    ListedOnce(g);
    ListOfGrown(h.free, g.layout, g.free, h'.free, b, n);
  }

  lemma ListedOnce(h: Heap)
    requires Consistent(h)
    ensures NoDup(h.free)
  {
  }

  lemma ListOfGrown(free: seq<nat>, l: Layout, mid: seq<nat>, free': seq<nat>, b: nat, n: nat)
    requires ListJoined(free, l, mid, b) && NoDup(mid) && b in l.at && b < Succ(l, b) && (forall q <- free :: q <= b)
    requires ListPlaced(mid, free', b, l.at[b].units, n)
    ensures ListGrown(free, free', b, l.at[b].units, n)
  {
    hide InOrder;
    var room := l.at[b].units;
    var k: nat :| k < |mid| && mid[k] == b && PlacedAt(mid, free', k, b, room, n);
    assert k == 0;
    if room >= n + MIN_UNITS {
      assert free'[1..] == mid[1..];
    } else {
      assert free'[0..] == mid[1..];
    }
  }

  // ---------- realloc ----------

  /** Whether `size` bytes can be served. */
  ghost predicate Servable(h: Heap, size: nat) {
    SomeFits(h, Need(size)) || CanGrow(h.layout, Max(Need(size), CHUNK_UNITS))
  }

  /** `h'` is `g` with block `p` released. */
  ghost predicate Released(g: Heap, p: nat, h': Heap) {
    Consistent(g) && IsLive(g.layout, p) && h' == Release(g, p)
  }

  /** What a request is served from: the first of the smallest blocks that fit, or the end of the heap, which has
      grown for it. */
  ghost predicate ServedFrom(h: Heap, l': Layout, q: nat, size: nat)
    requires Consistent(h)
  {
    if SomeFits(h, Need(size)) then
      && l'.end == h.layout.end
      && exists k: nat :: FirstSmallest(h.layout, h.free, Need(size), k) && h.free[k] == q
    else
      l'.end == h.layout.end + 2 * Max(Need(size), CHUNK_UNITS) && q == JoinedStart(h.layout, h.layout.end)
  }

  /** A resize for which there is room moves the block, even if the new size would fit where it is: an allocation,
      and then a release of the old block. */
  lemma ReallocMoves(h: Heap, p: nat, size: nat)
    requires Consistent(h) && IsLive(h.layout, p) && size > 0 && Servable(h, size)
    ensures var (h', r) := Realloc(h, Some(p), size);
            && Consistent(h') && r.Some? && MovedTo(h.layout, h'.layout, p, r.value)
            && size + 16 <= 8 * h'.layout.at[r.value].units <= size + 39
            && ServedFrom(h, h'.layout, r.value, size) && r == Malloc(h, size).1
            && Released(Malloc(h, size).0, p, h')
  {
    hide Consistent, Malloc, Release, HandsOut, Need, CanGrow, Servable, MovedTo, ServedFrom;
    MallocCorrect(h, size);
    MallocServed(h, size);
    var (g, r) := Malloc(h, size);
    StaysLive(h.layout, g.layout, r.value, p);
    ReleaseKeeps(g, p);
    var l' := Release(g, p).layout;
    MovedBlock(h.layout, g.layout, l', p, r.value);
    SameServed(h, g.layout, l', r.value, size);
  }

  lemma SameServed(h: Heap, l: Layout, l': Layout, q: nat, size: nat)
    requires Consistent(h) && ServedFrom(h, l, q, size) && l'.end == l.end
    ensures ServedFrom(h, l', q, size)
  {
    hide Consistent, Need, SomeFits, FirstSmallest;
  }

  /** Without room nothing changes; without a block it is an allocation, without a size a release. */
  lemma ReallocOtherwise(h: Heap, p: nat, size: nat)
    requires Consistent(h)
    ensures IsLive(h.layout, p) && size > 0 && !Servable(h, size) ==> Realloc(h, Some(p), size) == (h, None)
    ensures Realloc(h, None, size) == Malloc(h, size)
    ensures IsLive(h.layout, p) ==> Realloc(h, Some(p), 0) == (Release(h, p), None)
  {
    hide Consistent, Malloc, Release, Need, CanGrow, Servable;
    NothingForNothing(h);
    if size != 0 {
      MallocServed(h, size);
    }
  }

  lemma NothingForNothing(h: Heap)
    requires Consistent(h)
    ensures Malloc(h, 0) == (h, None)
  {
  }

  lemma MallocServed(h: Heap, size: nat)
    requires Consistent(h) && size > 0
    ensures var (h', r) := Malloc(h, size);
            && (r.Some? <==> Servable(h, size)) && (r.None? ==> h' == h)
            && (r.Some? ==> ServedFrom(h, h'.layout, r.value, size))
  {
    hide Consistent, Malloc, HandsOut, Need, FirstSmallest, JoinedStart;
    FreeBelow(h);
    MallocCorrect(h, size);
    if SomeFits(h, Need(size)) {
      MallocFits(h, size);
    } else if CanGrow(h.layout, Max(Need(size), CHUNK_UNITS)) {
      MallocGrows(h, size);
    }
  }

  // ---------- the start ----------

  /** What initialisation leaves: one free block of 64 units. */
  lemma InitialExact()
    ensures Initial() == Heap(Layout(5, MIN_UNITS, 133, map[5 := Block(64, false)]), [5])
  {
  }
}
