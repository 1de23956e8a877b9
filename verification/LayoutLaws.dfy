/** What the operations of both allocators make of a layout. */
module LayoutLaws {
  import opened Blocks

  // ---------- placing, joining, moving ----------

  /** How much of a free block of `room` units is handed out for `n`: all of it, unless `min` units are left. */
  function Share(room: nat, n: nat, min: nat): nat {
    if room >= n + min then n else room
  }

  /** Block `p` of `l` has been handed out for `n` units in `l'`, and all other blocks are as they were. */
  ghost predicate BlockPlaced(l: Layout, l': Layout, p: nat, n: nat)
    requires p in l.at
  {
    var room := l.at[p].units;
    && l'.end == l.end && l'.first == l.first
    && p in l'.at && l'.at[p] == Block(Share(room, n, l.min), true)
    && (room >= n + l.min ==> p + 2 * n in l'.at && l'.at[p + 2 * n] == Block(room - n, false))
    && (forall q :: q in l'.at <==> q in l.at || (room >= n + l.min && q == p + 2 * n))
    && (forall q <- l.at :: q != p && q != p + 2 * n ==> l'.at[q] == l.at[q])
  }

  /** Where the block starts that freeing, or adding, block `p` leaves. */
  ghost function JoinedStart(l: Layout, p: nat): nat
    requires Tiles(l) && (p in l.at || p == l.end)
  {
    if l.first < p && IsFree(l, Pred(l, p)) then Pred(l, p) else p
  }

  lemma OnePred(l: Layout, c: Layout, p: nat)
    requires Tiles(l) && Tiles(c) && l.first == c.first < p && (p in l.at || p == l.end) && (p in c.at || p == c.end)
    requires forall q :: q < p && q in l.at ==> q in c.at && c.at[q] == l.at[q]
    ensures Pred(l, p) == Pred(c, p) < p
  {
    hide Chained;
    var q, r := Pred(l, p), Pred(c, p);
    assert q in c.at && Succ(c, q) == p;
  }

  lemma MarkedStart(l: Layout, p: nat)
    requires Tiles(l) && p in l.at && Tiles(Mark(l, p, false))
    ensures JoinedStart(Mark(l, p, false), p) == JoinedStart(l, p)
  {
    hide Tiles;
    if l.first < p {
      OnePred(l, Mark(l, p, false), p);
    }
  }

  lemma MarkedSucc(l: Layout, p: nat)
    requires Tiles(l) && p in l.at
    ensures var c := Mark(l, p, false);
            && FreeAfter(c, p) == FreeAfter(l, p) && Succ(c, p) == Succ(l, p)
            && (FreeAfter(l, p) ==> Succ(c, Succ(c, p)) == Succ(l, Succ(l, p)))
  {
    assert p < Succ(l, p);
  }

  lemma ExtendedStart(l: Layout, n: nat)
    requires Tiles(l) && Tiles(Extend(l, n)) && l.end !in l.at
    ensures JoinedStart(Extend(l, n), l.end) == JoinedStart(l, l.end)
  {
    hide Tiles;
    if l.first < l.end {
      OnePred(l, Extend(l, n), l.end);
    }
  }

  lemma LastOfAll(l: Layout, p: nat)
    requires Tiles(l) && p in l.at && Succ(l, p) == l.end
    ensures !FreeAfter(l, p)
  {
  }

  lemma StaysLive(l: Layout, g: Layout, q: nat, p: nat)
    requires HandsOut(l, g, q) && IsLive(l, p)
    ensures IsLive(g, p)
  {
  }

  /** Block `p` has moved to `q`, a block of its own that was not live; `p` is live no longer, and all other live
      blocks are as they were. */
  ghost predicate MovedTo(l: Layout, l': Layout, p: nat, q: nat) {
    && q != p && !IsLive(l, q) && IsLive(l', q) && !IsLive(l', p)
    && forall x :: x != p && x != q ==> (IsLive(l', x) <==> IsLive(l, x)) && (IsLive(l, x) ==> l'.at[x] == l.at[x])
  }

  lemma MovedBlock(l: Layout, g: Layout, l': Layout, p: nat, q: nat)
    requires IsLive(l, p) && HandsOut(l, g, q) && HandsOut(l', g, p)
    ensures MovedTo(l, l', p, q) && l'.at[q] == g.at[q]
  {
  }

  // ---------- the layout is a function of the live blocks ----------

  /** A block that both layouts have starts them off alike: it is the same block in both. */
  lemma SameBlockAt(l: Layout, c: Layout, p: nat)
    requires Tiles(l) && Tiles(c) && NoFreePair(l) && NoFreePair(c) && l.end == c.end && SameLive(l, c)
    requires p in l.at && p in c.at
    ensures l.at[p] == c.at[p]
  {
    if !l.at[p].live {
      assert !IsLive(c, p);
      SuccNotBelow(l, c, p);
      SuccNotBelow(c, l, p);
    }
  }

  /** The block behind a free block is live, or there is none. */
  lemma SuccNotBelow(l: Layout, c: Layout, p: nat)
    requires Tiles(l) && Tiles(c) && NoFreePair(l) && l.end == c.end && SameLive(l, c)
    requires IsFree(l, p) && IsFree(c, p)
    ensures Succ(c, p) <= Succ(l, p)
  {
    var x := Succ(l, p);
    assert x == l.end || IsLive(c, x);
  }

  lemma {:induction false} SameFrom(l: Layout, c: Layout, p: nat)
    requires Tiles(l) && Tiles(c) && NoFreePair(l) && NoFreePair(c) && l.end == c.end && SameLive(l, c)
    requires (p in l.at && p in c.at) || p == l.end
    ensures forall q :: p <= q ==> (q in l.at <==> q in c.at) && (q in l.at ==> l.at[q] == c.at[q])
    decreases l.end - p
  {
    hide Tiles, NoFreePair, SameLive;
    Onwards(l, p);
    Onwards(c, p);
    if p in l.at {
      SameBlockAt(l, c, p);
      SameFrom(l, c, Succ(l, p));
    }
  }

  /** Behind block `p` comes the next one, with nothing in between, or the end. */
  lemma Onwards(l: Layout, p: nat)
    requires Tiles(l) && (p in l.at || p == l.end)
    ensures p in l.at ==> p < Succ(l, p) <= l.end && (Succ(l, p) in l.at || Succ(l, p) == l.end)
    ensures forall q <- l.at :: p < q ==> p in l.at && Succ(l, p) <= q
    ensures p !in l.at || p < l.end
  {
  }

  /** Where the free blocks lie follows from the live blocks: two heaps between the same ends with the same live
      blocks, and no two free neighbours, have the same layout. */
  lemma LayoutDetermined(l: Layout, c: Layout)
    requires Tiles(l) && Tiles(c) && NoFreePair(l) && NoFreePair(c) && SameLive(l, c)
    requires l.first == c.first && l.min == c.min && l.end == c.end
    ensures l == c
  {
    hide Chained, Apart, NoFreePair, SameLive;
    SameFrom(l, c, l.first);
    assert forall q :: q in l.at <==> q in c.at;
    assert l.at == c.at;
  }
}
