/** The implicit-list allocator over one arena of 32-bit words: boundary tags, and a rover for next fit.

    Pointers are word indices into the arena: word `i` has the address `base + 4 * i`. A block
    pointer is the word after the block's header; 0 is the null pointer. */
module ImplicitAllocator {
  import opened Basics
  import opened Blocks
  import opened Memlib
  import opened Memory
  import opened Retagging
  import opened ImplicitHeap

  const CHUNKSIZE := 4096
  const ARENA_WORDS := 5242880

  class Allocator {
    const base: nat
    const mem: array<Word>
    var brk: nat         // bytes in use, counted from the start of the arena
    var heapListp: nat
    var rover: nat
    ghost var layout: Layout

    ghost function View(): Heap
      reads this
    {
      Heap(layout, if rover == 0 then 0 else rover - 1)
    }

    ghost predicate Arena()
      reads this
    {
      && mem.Length == ARENA_WORDS
      && base % 8 == 0 && base + 4 * ARENA_WORDS < 0x1_0000_0000
      && layout.first == 3 && layout.min == MIN_UNITS
      && brk == 4 * (layout.end + 1) <= HEAP_BYTES
      && heapListp == 2 && 2 <= rover
    }

    /** The words of the arena spell out `layout`. */
    ghost predicate Spelled()
      reads this, mem
    {
      Arena() && Tagged(mem[..], layout)
    }

    ghost predicate Valid()
      reads this, mem
    {
      Spelled() && Consistent(View())
    }

    // ---------- macros ----------

    function Get(i: nat): (w: Word)
      requires i < mem.Length
      reads mem
      ensures w == mem[..][i]
    {
      mem[i]
    }

    method Put(i: nat, w: Word)
      requires i < mem.Length
      modifies mem
      ensures mem[..] == old(mem[..])[i := w]
    {
      mem[i] := w;
    }

    function Hdrp(bp: nat): nat
      requires 1 <= bp
    {
      bp - 1
    }

    function Ftrp(bp: nat): int
      requires 1 <= bp < mem.Length
      reads mem
    {
      bp + GetWords(Get(Hdrp(bp))) - 2
    }

    function NextBlkp(bp: nat): nat
      requires 1 <= bp < mem.Length
      reads mem
    {
      bp + GetWords(Get(bp - 1))
    }

    function PrevBlkp(bp: nat): int
      requires 2 <= bp < mem.Length
      reads mem
    {
      bp - GetWords(Get(bp - 2))
    }

    // ---------- coalescing ----------

    /** What the macros find around block `p`. */
    lemma Around(p: nat)
      requires Spelled() && p in layout.at
      ensures GetSize(mem[p]) == 8 * layout.at[p].units
      ensures NextBlkp(p + 1) == Succ(layout, p) + 1 <= mem.Length
      ensures p < Ftrp(p + 1) == Succ(layout, p) - 1
      ensures GetAlloc(Get(Succ(layout, p))) == 0 <==> FreeAfter(layout, p)
      ensures 1 <= PrevBlkp(p + 1) < p + 1 && Ftrp(PrevBlkp(p + 1)) == p - 1
      ensures GetAlloc(Get(p - 1)) == 0 <==> FreeBefore(layout, p)
      ensures layout.first < p ==> PrevBlkp(p + 1) == Pred(layout, p) + 1
    {
      hide GetSize, GetWords, GetAlloc, Tag;
      HeaderTag(mem[..], layout, p);
      SuccTag(mem[..], layout, p);
      PredTag(mem[..], layout, p);
      SentinelTags(layout.first);
      if layout.first < p {
        HeaderTag(mem[..], layout, Pred(layout, p));
      }
    }

    /** The merged block lies inside the heap, and is as long as the blocks it is made of. */
    lemma MergedInside(p: nat)
      requires Spelled() && Pending(View(), p)
      ensures MergedFits(layout, p)
      ensures var l, b, c := layout, Base(layout, p), Coalesced(layout, p);
              && !c.at[b].live && b == (if FreeBefore(l, p) then Pred(l, p) else p) <= p < Succ(l, p) <= Succ(c, b)
              && Succ(c, b) == (if FreeAfter(l, p) then Succ(l, Succ(l, p)) else Succ(l, p))
              && c.at[b].units == l.at[p].units + (if FreeBefore(l, p) then l.at[Pred(l, p)].units else 0)
                                  + (if FreeAfter(l, p) then l.at[Succ(l, p)].units else 0)
    {
      hide Tagged;
      CoalesceFits(layout, p);
      CoalesceExtent(layout, p);
    }

    /** Once tagged, the merged block is in place, and the live blocks are as they were. */
    lemma RetaggedCorrect(p: nat, m: seq<Word>)
      requires Spelled() && Pending(View(), p) && m == mem[..] && MergedFits(layout, p)
      ensures var m1 := MergedStamp(m, layout, p); Tagged(m1, Coalesced(layout, p)) && KeepsLive(layout, m, m1)
    {
      hide Tagged, KeepsLive, Coalesced, NoFreePairBut, Base, FreeBefore, FreeAfter, Swallows, Tiles;
      var l := layout;
      assert 4 * l.end < 0x1_0000_0000;
      CoalesceSwallows(l, p);
      SwallowTags(m, l, Coalesced(l, p), Base(l, p));
    }

    /** What case 2 reads, and what it should write. */
    lemma SuccReads(p: nat)
      requires Spelled() && Pending(View(), p) && MergedFits(layout, p)
      requires !FreeBefore(layout, p) && FreeAfter(layout, p)
      ensures var s, e := Succ(layout, p), Succ(layout, Succ(layout, p)) - 1;
              && p == Base(layout, p) && p < s < e < mem.Length && NextBlkp(p + 1) == s + 1
              && var size := Pack(GetSize(mem[p]) + GetSize(mem[s]), 0);
                 && size < 0x1_0000_0000 && GetWords(size) == e + 1 - p
                 && MergedStamp(mem[..], layout, p) == Stamp(mem[..], p, e, size)
    {
      hide Spelled, Pending, Tiles, Tagged, Coalesced, GetSize, GetWords, GetAlloc, Stamp;
      JoinBounds(p);
      Around(p);
      HeaderTag(mem[..], layout, Succ(layout, p));
      BlockBounds(layout, p);
      BlockBounds(layout, Succ(layout, p));
      MergedInside(p);
      TagRead(Coalesced(layout, p).at[p]);
    }

    /** What case 3 reads, and what it should write. */
    lemma PredReads(p: nat)
      requires Spelled() && Pending(View(), p) && MergedFits(layout, p)
      requires FreeBefore(layout, p) && !FreeAfter(layout, p)
      ensures var q, e := Pred(layout, p), Succ(layout, p) - 1;
              && q == Base(layout, p) && q < p - 1 && p < e < mem.Length && p + 1 < mem.Length
              && PrevBlkp(p + 1) == q + 1 && Ftrp(p + 1) == e
              && var size := Pack(GetSize(mem[p]) + GetSize(mem[q]), 0);
                 size < 0x1_0000_0000 && MergedStamp(mem[..], layout, p) == Stamp(mem[..], q, e, size)
    {
      hide Spelled, Pending, Tiles, Tagged, Coalesced, GetSize, GetWords, GetAlloc, Stamp;
      JoinBounds(p);
      Around(p);
      HeaderTag(mem[..], layout, Pred(layout, p));
      MergedInside(p);
    }

    /** Where case 4 looks. */
    lemma BothAround(p: nat)
      requires Spelled() && Pending(View(), p) && FreeBefore(layout, p) && FreeAfter(layout, p)
      ensures var q, s, e := Pred(layout, p), Succ(layout, p), Succ(layout, Succ(layout, p)) - 1;
              && q == Base(layout, p) && q < p - 1 && p < s < e < mem.Length
              && PrevBlkp(p + 1) == q + 1 && NextBlkp(p + 1) == s + 1 && Ftrp(s + 1) == e
              && GetSize(mem[p]) == 8 * layout.at[p].units && GetSize(mem[q]) == 8 * layout.at[q].units
              && GetSize(mem[e]) == 8 * layout.at[s].units
    {
      hide Spelled, Pending, Tiles, Tagged, GetSize, GetWords, GetAlloc;
      JoinBounds(p);
      var s := Succ(layout, p);
      Around(p);
      Around(s);
      HeaderTag(mem[..], layout, Pred(layout, p));
      FooterTag(mem[..], layout, s);
    }

    /** What case 4 reads, and what it should write. */
    lemma BothReads(p: nat)
      requires Spelled() && Pending(View(), p) && MergedFits(layout, p)
      requires FreeBefore(layout, p) && FreeAfter(layout, p)
      ensures var q, s, e := Pred(layout, p), Succ(layout, p), Succ(layout, Succ(layout, p)) - 1;
              && q == Base(layout, p) && q < p - 1 && p < s < e < mem.Length
              && PrevBlkp(p + 1) == q + 1 && NextBlkp(p + 1) == s + 1 && Ftrp(s + 1) == e
              && var size := Pack(GetSize(mem[p]) + (GetSize(mem[q]) + GetSize(mem[e])), 0);
                 size < 0x1_0000_0000 && MergedStamp(mem[..], layout, p) == Stamp(mem[..], q, e, size)
    {
      hide Spelled, Pending, Tiles, Tagged, Coalesced, GetSize, GetWords, GetAlloc, Stamp;
      JoinBounds(p);
      BothAround(p);
      MergedInside(p);
    }

    /** Case 2: only the successor is free. */
    method WriteSucc(bp: nat, ghost s: nat, ghost e: nat)
      requires 1 <= bp < mem.Length && bp - 1 < s < mem.Length && bp - 1 < e < mem.Length && NextBlkp(bp) == s + 1
      requires GetSize(mem[bp - 1]) + GetSize(mem[s]) < 0x1_0000_0000
      requires GetWords(GetSize(mem[bp - 1]) + GetSize(mem[s])) == e + 2 - bp
      modifies mem
      ensures var size := old(Pack(GetSize(mem[bp - 1]) + GetSize(mem[s]), 0));
              mem[..] == Stamp(old(mem[..]), bp - 1, e, size)
    {
      hide GetSize, GetWords;
      var size := GetSize(Get(Hdrp(bp)));
      size := size + GetSize(Get(Hdrp(NextBlkp(bp))));
      Put(Hdrp(bp), Pack(size, 0));
      Put(Ftrp(bp), Pack(size, 0));
    }

    /** Case 3: only the predecessor is free. */
    method WritePred(bp: nat, ghost q: nat) returns (r: nat)
      requires q < bp - 2 && bp < mem.Length && bp - 1 < Ftrp(bp) < mem.Length && PrevBlkp(bp) == q + 1
      requires GetSize(mem[bp - 1]) + GetSize(mem[q]) < 0x1_0000_0000
      modifies mem
      ensures r == q + 1
      ensures var size := old(Pack(GetSize(mem[bp - 1]) + GetSize(mem[q]), 0));
              mem[..] == Stamp(old(mem[..]), q, old(Ftrp(bp)), size)
    {
      hide GetSize, GetWords;
      ghost var e := Ftrp(bp);
      var size := GetSize(Get(Hdrp(bp)));
      size := size + GetSize(Get(Hdrp(PrevBlkp(bp))));
      Put(Ftrp(bp), Pack(size, 0));
      Put(Hdrp(PrevBlkp(bp)), Pack(size, 0));
      r := PrevBlkp(bp);
    }

    /** Case 4: both neighbours are free. */
    method WriteBoth(bp: nat, ghost q: nat, ghost s: nat, ghost e: nat) returns (r: nat)
      requires q < bp - 2 && bp - 1 < s < e < mem.Length
      requires PrevBlkp(bp) == q + 1 && NextBlkp(bp) == s + 1 && Ftrp(s + 1) == e
      requires GetSize(mem[bp - 1]) + (GetSize(mem[q]) + GetSize(mem[e])) < 0x1_0000_0000
      modifies mem
      ensures r == q + 1
      ensures var size := old(Pack(GetSize(mem[bp - 1]) + (GetSize(mem[q]) + GetSize(mem[e])), 0));
              mem[..] == Stamp(old(mem[..]), q, e, size)
    {
      hide GetSize, GetWords;
      var size := GetSize(Get(Hdrp(bp)));
      size := size + (GetSize(Get(Hdrp(PrevBlkp(bp)))) + GetSize(Get(Ftrp(NextBlkp(bp)))));
      Put(Hdrp(PrevBlkp(bp)), Pack(size, 0));
      Put(Ftrp(NextBlkp(bp)), Pack(size, 0));
      r := PrevBlkp(bp);
    }

    method JoinSucc(bp: nat, ghost m1: seq<Word>)
      requires 1 <= bp && Tiles(layout) && bp - 1 in layout.at
      requires !FreeBefore(layout, bp - 1) && FreeAfter(layout, bp - 1)
      requires MergedFits(layout, bp - 1) && layout.end < mem.Length
      requires m1 == MergedStamp(mem[..], layout, bp - 1)
      requires Spelled() && Pending(View(), bp - 1)
      modifies mem
      ensures mem[..] == m1
    {
      hide Spelled, Pending, MergedStamp, GetSize, GetWords, Base, MergedFits, Stamp, Tiles;
      SuccReads(bp - 1);
      WriteSucc(bp, Succ(layout, bp - 1), Succ(layout, Succ(layout, bp - 1)) - 1);
    }

    method JoinPred(bp: nat, ghost b: nat, ghost m1: seq<Word>) returns (r: nat)
      requires 1 <= bp && Tiles(layout) && bp - 1 in layout.at
      requires FreeBefore(layout, bp - 1) && !FreeAfter(layout, bp - 1)
      requires MergedFits(layout, bp - 1) && layout.end < mem.Length && b == Base(layout, bp - 1)
      requires m1 == MergedStamp(mem[..], layout, bp - 1)
      requires Spelled() && Pending(View(), bp - 1)
      modifies mem
      ensures r == b + 1 && mem[..] == m1
    {
      hide Spelled, Pending, MergedStamp, GetSize, GetWords, Base, MergedFits, Stamp, Tiles;
      PredReads(bp - 1);
      r := WritePred(bp, Pred(layout, bp - 1));
    }

    method JoinBoth(bp: nat, ghost b: nat, ghost m1: seq<Word>) returns (r: nat)
      requires 1 <= bp && Tiles(layout) && bp - 1 in layout.at
      requires FreeBefore(layout, bp - 1) && FreeAfter(layout, bp - 1)
      requires MergedFits(layout, bp - 1) && layout.end < mem.Length && b == Base(layout, bp - 1)
      requires m1 == MergedStamp(mem[..], layout, bp - 1)
      requires Spelled() && Pending(View(), bp - 1)
      modifies mem
      ensures r == b + 1 && mem[..] == m1
    {
      hide Spelled, Pending, MergedStamp, GetSize, GetWords, Base, MergedFits, Stamp, Tiles;
      ghost var q, s := Pred(layout, bp - 1), Succ(layout, bp - 1);
      BothReads(bp - 1);
      r := WriteBoth(bp, q, s, Succ(layout, s) - 1);
    }

    /** The four-way case split; the words come to spell the coalesced layout `c`, and `b` is where the
        merged block starts. */
    method Join(bp: nat, ghost b: nat, ghost c: Layout) returns (r: nat, merged: bool)
      requires 1 <= bp && Spelled() && Pending(View(), bp - 1)
      requires b == Base(layout, bp - 1) && c == Coalesced(layout, bp - 1)
      modifies mem
      ensures r == b + 1 && (!merged ==> c == layout)
      ensures Tagged(mem[..], c) && KeepsLive(layout, old(mem[..]), mem[..])
    {
      hide Tagged, KeepsLive, GetSize, GetWords, GetAlloc, Coalesced, FreeBefore, FreeAfter, MergedStamp, Pending,
        Tiles, MergedFits, Base;
      ghost var p, m := bp - 1, mem[..];
      JoinBounds(p);
      Around(p);
      MergedInside(p);
      RetaggedCorrect(p, m);
      ghost var m1 := MergedStamp(m, layout, p);
      var prevAlloc := GetAlloc(Get(Ftrp(PrevBlkp(bp))));
      var nextAlloc := GetAlloc(Get(Hdrp(NextBlkp(bp))));
      r, merged := bp, true;
      if prevAlloc != 0 && nextAlloc != 0 {
        Untouched(p, m);
        merged := false;
      } else if prevAlloc != 0 && nextAlloc == 0 {
        JoinedFront(p);
        JoinSucc(bp, m1);
      } else if prevAlloc == 0 && nextAlloc != 0 {
        r := JoinPred(bp, b, m1);
      } else {
        r := JoinBoth(bp, b, m1);
      }
    }

    lemma JoinedFront(p: nat)
      requires Tiles(layout) && p in layout.at && !FreeBefore(layout, p)
      ensures Base(layout, p) == p
    {
    }

    lemma JoinBounds(p: nat)
      requires Spelled() && Pending(View(), p)
      ensures Arena() && Tagged(mem[..], layout) && Tiles(layout)
      ensures p in layout.at && 3 <= p && Succ(layout, p) < mem.Length
    {
      hide Tagged;
    }

    /** Case 1: the words already spell the coalesced layout. */
    lemma Untouched(p: nat, m: seq<Word>)
      requires Spelled() && Pending(View(), p) && m == mem[..] && !FreeBefore(layout, p) && !FreeAfter(layout, p)
      ensures Base(layout, p) == p && Coalesced(layout, p) == layout
      ensures Tagged(mem[..], layout) && KeepsLive(layout, m, mem[..])
    {
      KeepsLiveSame(layout, m);
      hide Tagged, KeepsLive;
    }

    /** Joins the freed block `bp` with its free neighbours, and moves the rover if its block is gone. */
    method Coalesce(bp: nat, ghost h: Heap) returns (r: nat)
      requires 1 <= bp && Spelled() && View() == h && Pending(h, bp - 1)
      modifies mem, `rover, `layout
      ensures View() == Absorb(h, bp - 1) && r == Base(h.layout, bp - 1) + 1
      ensures KeepsLive(h.layout, old(mem[..]), mem[..])
      ensures Valid()
    {
      hide Tagged, KeepsLive, Coalesced, GetSize, GetWords, FreeBefore, FreeAfter, Base, Tiles, NoFreePair, Pending;
      ghost var p := bp - 1;
      AbsorbConsistent(h, p);
      CoalesceShape(h, p);
      var merged;
      r, merged := Join(bp, Base(h.layout, p), Coalesced(h.layout, p));
      layout := Coalesced(h.layout, p);
      if merged {
        HeaderTag(mem[..], layout, r - 1);
        if r < rover < NextBlkp(r) {
          rover := r;
        }
      } else {
        NoRepair(h, p);
      }
      assert View() == Absorb(h, p);
    }

    lemma CoalesceShape(h: Heap, p: nat)
      requires Pending(h, p)
      ensures Tiles(h.layout) && p in h.layout.at && h.layout.first == 3 <= Base(h.layout, p) < h.layout.end - 1
      ensures Coalesced(h.layout, p) == h.layout.(at := Coalesced(h.layout, p).at)
      ensures Base(h.layout, p) in Coalesced(h.layout, p).at
      ensures Succ(Coalesced(h.layout, p), Base(h.layout, p)) <= h.layout.end
    {
      CoalesceSameLive(h.layout, p);
      CoalesceTiles(h.layout, p);
      CoalesceExtent(h.layout, p);
    }

    /** Without a merge the rover points to no block that is gone. */
    lemma NoRepair(h: Heap, p: nat)
      requires Pending(h, p) && Coalesced(h.layout, p) == h.layout
      ensures Absorb(h, p) == h
    {
      hide Coalesced;
    }

    // ---------- mm_free ----------

    lemma ValidFacts()
      requires Valid()
      ensures Arena() && Tagged(mem[..], layout) && Consistent(View())
      ensures Tiles(layout) && layout.min == MIN_UNITS && layout.end < mem.Length
    {
      hide Tagged, Tiles;
    }

    lemma BlockInside(p: nat)
      requires Valid() && p in layout.at
      ensures 3 <= p && p + 1 < Succ(layout, p) <= layout.end < mem.Length
      ensures 8 * layout.at[p].units + 1 < 0x1_0000_0000
    {
      hide Tagged;
    }

    /** What MmFree should write, and what that makes of the words. */
    lemma FreeReads(p: nat)
      requires Valid() && IsLive(layout, p)
      ensures var e, size: Word := Succ(layout, p) - 1, GetSize(mem[p]);
              && p < e < mem.Length && GetWords(size) == e + 1 - p && GetSize(mem[p]) < 0x1_0000_0000
              && var m1 := Stamp(mem[..], p, e, size);
                 && Tagged(m1, Mark(layout, p, false)) && KeepsLive(Mark(layout, p, false), mem[..], m1)
    {
      hide Tagged, KeepsLive, Stamp, GetSize, GetWords, Consistent, Tiles, Valid;
      ValidFacts();
      BlockInside(p);
      HeaderTag(mem[..], layout, p);
      TagRead(Block(layout.at[p].units, false));
      MarkTagged(mem[..], layout, p, false);
      MarkMissesLive(mem[..], layout, p, Tag(Block(layout.at[p].units, false)));
    }

    /** Takes a block back; freeing the null pointer does nothing. */
    method MmFree(bp: nat)
      requires Valid() && (bp == 0 || IsLive(layout, bp - 1))
      modifies this, mem
      ensures Valid()
      ensures View() == if bp == 0 then old(View()) else old(Release(View(), bp - 1))
      ensures KeepsLive(layout, old(mem[..]), mem[..])
    {
      hide Tagged, KeepsLive, Stamp, GetSize, GetWords, Consistent, Pending, Tiles, IsFree, Coalesced, Base;
      if bp == 0 {
        KeepsLiveSame(layout, mem[..]);
        return;
      }
      ghost var h, p, m := View(), bp - 1, mem[..];
      ghost var c := Mark(layout, p, false);
      MarkPending(h, p);
      PendingFacts(Heap(c, h.rover), p);
      FreeReads(p);
      FreeSize(bp, Succ(layout, p) - 1);
      ghost var m1 := mem[..];
      layout := c;
      var _ := Coalesce(bp, View());
      KeepsLiveTrans(c, m, m1, mem[..]);
      CoalesceKeepsLive(c, p, m, mem[..]);
    }

    lemma PendingFacts(h: Heap, p: nat)
      requires Pending(h, p)
      ensures Tiles(h.layout) && IsFree(h.layout, p)
    {
    }

    /** The two writes of MmFree: both tags of the block now say free. */
    method FreeSize(bp: nat, ghost e: nat)
      requires 1 <= bp < mem.Length && bp - 1 < e < mem.Length
      requires GetSize(mem[bp - 1]) < 0x1_0000_0000 && GetWords(GetSize(mem[bp - 1])) == e + 2 - bp
      modifies mem
      ensures var size := old(GetSize(mem[bp - 1])); mem[..] == Stamp(old(mem[..]), bp - 1, e, size)
    {
      hide GetSize, GetWords;
      var size := GetSize(Get(Hdrp(bp)));
      Put(Hdrp(bp), Pack(size, 0));
      Put(Ftrp(bp), Pack(size, 0));
    }

    // ---------- growing the heap ----------

    method Sbrk(incr: nat) returns (r: int)
      modifies `brk
      ensures r == if old(SbrkRefuses(base, brk, incr)) then -1 else old(brk)
      ensures brk == if old(SbrkRefuses(base, brk, incr)) then old(brk) else old(brk) + incr
    {
      if SbrkRefuses(base, brk, incr) {
        return -1;
      }
      r := brk;
      brk := brk + incr;
    }

    /** What a grown heap looks like before its new last block is coalesced. */
    lemma ExtendReads(n: nat)
      requires Valid() && MIN_UNITS <= n && CanGrow(layout, n)
      ensures layout.end + 2 * n < mem.Length && 8 * n < 0x1_0000_0000 && GetWords(8 * n) == 2 * n
      ensures var m1 := ExtendStamp(mem[..], layout.end, n);
              Tagged(m1, Extend(layout, n)) && KeepsLive(layout, mem[..], m1)
      ensures Pending(Heap(Extend(layout, n), View().rover), layout.end)
    {
      hide Tagged, KeepsLive, ExtendStamp, GetSize, GetWords, Pending, Tiles, NoFreePair, Extend;
      TagRead(Block(n, false));
      ValidFacts();
      ExtendPending(View(), n);
      RetagExtend(mem[..], layout, n);
      ExtendMissesLive(mem[..], layout, n);
    }

    /** Asks the system for more memory and makes it a free block; 0 if the system refuses. */
    method ExtendHeap(words: nat) returns (bp: nat)
      requires Valid() && 2 * MIN_UNITS - 1 <= words
      requires 4 * (words + words % 2) < 0x1_0000_0000 && !SbrkMisled(base, brk, 4 * (words + words % 2))
      modifies this, mem
      ensures Valid()
      ensures var n := (words + 1) / 2;
              if old(CanGrow(layout, n)) then
                && View() == old(Grow(View(), n)) && bp == old(GrownAt(View(), n)) + 1
                && KeepsLive(old(layout), old(mem[..]), mem[..])
              else
                bp == 0 && View() == old(View()) && mem[..] == old(mem[..]) && brk == old(brk)
    {
      hide Tagged, KeepsLive, ExtendStamp, GetSize, GetWords, Pending, Tiles, Coalesced, SbrkRefuses, SbrkMisled, Base,
        IsFree, Grow, GrownAt, Absorb, Consistent;
      ghost var h, m, n := View(), mem[..], (words + 1) / 2;
      var size := if words % 2 == 1 then (words + 1) * 4 else words * 4;
      assert size == 8 * n;
      ValidFacts();
      SbrkRight(base, brk, size);
      if CanGrow(layout, n) {
        ExtendReads(n);
        GrownIs(h, n);
      }
      var start := Sbrk(size);
      if start == -1 {
        return 0;
      }
      bp := start / 4;
      WriteExtension(bp, n, size);
      ghost var m1 := mem[..];
      layout := Extend(layout, n);
      bp := Coalesce(bp, View());
      ExtendKeepsLive(h.layout, n, m1, mem[..]);
      KeepsLiveTrans(h.layout, m, m1, mem[..]);
    }

    lemma GrownIs(h: Heap, n: nat)
      requires Consistent(h) && MIN_UNITS <= n
      ensures Pending(Heap(Extend(h.layout, n), h.rover), h.layout.end)
      ensures Grow(h, n) == Absorb(Heap(Extend(h.layout, n), h.rover), h.layout.end)
      ensures GrownAt(h, n) == Base(Extend(h.layout, n), h.layout.end)
    {
      hide Consistent, Pending, Absorb, Base;
      ExtendPending(h, n);
    }

    /** The new block's tags and the new epilogue. */
    method WriteExtension(bp: nat, ghost n: nat, size: nat)
      requires 1 <= bp && 1 <= n && bp - 1 + 2 * n < mem.Length
      requires size == 8 * n < 0x1_0000_0000 && GetWords(size) == 2 * n
      modifies mem
      ensures mem[..] == ExtendStamp(old(mem[..]), bp - 1, n)
    {
      hide GetWords;
      Put(Hdrp(bp), Pack(size, 0));
      Put(Ftrp(bp), Pack(size, 0));
      Put(Hdrp(NextBlkp(bp)), Pack(0, 1));
    }

    // ---------- place ----------

    /** What the tags of a split make of the words. */
    lemma SplitReads(p: nat, n: nat)
      requires Valid() && IsFree(layout, p) && MIN_UNITS <= n && n + MIN_UNITS <= layout.at[p].units
      ensures Succ(layout, p) < mem.Length && layout.min == MIN_UNITS
      ensures 8 * layout.at[p].units + 1 < 0x1_0000_0000 && GetWords(8 * n + 1) == 2 * n
      ensures GetWords(8 * (layout.at[p].units - n)) == 2 * (layout.at[p].units - n)
      ensures var m1 := SplitStamp(mem[..], layout, p, n);
              Tagged(m1, Split(layout, p, n)) && KeepsLive(layout, mem[..], m1)
    {
      hide Tagged, KeepsLive, SplitStamp, GetSize, GetWords, Consistent, Tiles, Split, Valid;
      ValidFacts();
      BlockInside(p);
      TagRead(Block(n, true));
      TagRead(Block(layout.at[p].units - n, false));
      RetagSplit(mem[..], layout, p, n);
      SplitMissesLive(mem[..], layout, p, n);
    }

    /** The tags of both halves. */
    method WriteSplit(bp: nat, asize: nat, csize: nat, ghost n: nat, ghost l: Layout)
      requires 1 <= bp && bp - 1 in l.at && 1 <= l.min <= n && n + l.min <= l.at[bp - 1].units
      requires Succ(l, bp - 1) < mem.Length && 8 * l.at[bp - 1].units + 1 < 0x1_0000_0000
      requires asize == 8 * n && csize == 8 * l.at[bp - 1].units
      requires GetWords(asize + 1) == 2 * n && GetWords(csize - asize) == 2 * (l.at[bp - 1].units - n)
      modifies mem
      ensures mem[..] == SplitStamp(old(mem[..]), l, bp - 1, n)
    {
      hide GetSize, GetWords;
      Put(Hdrp(bp), Pack(asize, 1));
      Put(Ftrp(bp), Pack(asize, 1));
      var rest := NextBlkp(bp);
      Put(Hdrp(rest), Pack(csize - asize, 0));
      Put(Ftrp(rest), Pack(csize - asize, 0));
    }

    /** What the tags of a block handed out whole make of the words. */
    lemma WholeReads(p: nat)
      requires Valid() && IsFree(layout, p)
      ensures p + 1 < Succ(layout, p) < mem.Length && 8 * layout.at[p].units + 1 < 0x1_0000_0000
      ensures GetWords(8 * layout.at[p].units + 1) == 2 * layout.at[p].units
      ensures var m1 := Stamp(mem[..], p, Succ(layout, p) - 1, 8 * layout.at[p].units + 1);
              Tagged(m1, Mark(layout, p, true)) && KeepsLive(layout, mem[..], m1)
    {
      hide Tagged, KeepsLive, Stamp, GetSize, GetWords, Consistent, Tiles, Valid;
      ValidFacts();
      BlockInside(p);
      TagRead(Block(layout.at[p].units, true));
      MarkTagged(mem[..], layout, p, true);
      MarkMissesLive(mem[..], layout, p, Tag(Block(layout.at[p].units, true)));
      assert Mark(layout, p, false) == layout;
    }

    method WriteWhole(bp: nat, csize: nat, ghost e: nat)
      requires 1 <= bp < mem.Length && bp - 1 < e < mem.Length
      requires csize + 1 < 0x1_0000_0000 && GetWords(csize + 1) == e + 2 - bp
      modifies mem
      ensures mem[..] == Stamp(old(mem[..]), bp - 1, e, csize + 1)
    {
      hide GetSize, GetWords;
      Put(Hdrp(bp), Pack(csize, 1));
      Put(Ftrp(bp), Pack(csize, 1));
    }

    /** Hands out the first `asize` bytes of free block `bp`, splitting it if the rest can stand alone. */
    method Place(bp: nat, asize: nat)
      requires Valid() && 1 <= bp && asize % 8 == 0 && 8 * MIN_UNITS <= asize
      requires FreeFit(layout, bp - 1, asize / 8)
      modifies mem, `layout
      ensures Valid() && View() == old(Placed(View(), bp - 1, asize / 8))
      ensures KeepsLive(old(layout), old(mem[..]), mem[..])
    {
      hide Tagged, KeepsLive, GetSize, GetWords, Consistent, Tiles, SplitStamp, Stamp;
      ghost var h, p, n := View(), bp - 1, asize / 8;
      ValidFacts();
      HeaderTag(mem[..], layout, p);
      PlaceConsistent(h, p, n);
      BlockInside(p);
      var csize := GetSize(Get(Hdrp(bp)));
      if csize - asize >= 16 {
        SplitReads(p, n);
        WriteSplit(bp, asize, csize, n, layout);
      } else {
        WholeReads(p);
        WriteWhole(bp, csize, Succ(layout, p) - 1);
      }
      layout := Placed(h, p, n).layout;
    }

    // ---------- find_fit ----------

    /** What the search reads at a place, or at the epilogue. */
    lemma PlaceReads(p: nat, asize: nat)
      requires Spelled() && asize % 8 == 0 && (IsPlace(layout, p) || p == layout.end)
      ensures p < mem.Length && (GetSize(mem[p]) == 0 <==> p == layout.end)
      ensures p != layout.end ==>
                && p + 1 < mem.Length && p < Next(layout, p)
                && NextBlkp(p + 1) == Next(layout, p) + 1
                && (IsPlace(layout, Next(layout, p)) || Next(layout, p) == layout.end) && Next(layout, p) <= layout.end
                && (FreeFit(layout, p, asize / 8) <==> GetAlloc(mem[p]) == 0 && asize <= GetSize(mem[p]))
      ensures forall q :: IsPlace(layout, q) && p < q ==> p != layout.end && Next(layout, p) <= q
    {
      hide GetSize, GetWords, GetAlloc;
      SentinelTags(3);
      EpilogueTag();
      if p in layout.at {
        HeaderTag(mem[..], layout, p);
        assert Succ(layout, p) == layout.end || Succ(layout, p) in layout.at;
      }
    }

    lemma EpilogueTag()
      ensures GetSize(1) == 0
    {
    }

    lemma FirstFromStep(p: nat, stop: nat, n: nat)
      requires Tiles(layout) && 1 < layout.first && (IsPlace(layout, p) || p == layout.end) && stop <= layout.end
      ensures p >= stop ==> FirstFrom(layout, p, stop, n) == None
      ensures p < stop ==>
                FirstFrom(layout, p, stop, n) ==
                if FreeFit(layout, p, n) then Some(p)
                else
                  assert p == PROLOGUE ==> layout.first == layout.end || layout.first in layout.at;
                  FirstFrom(layout, Next(layout, p), stop, n)
    {
    }

    /** The search from the rover to the end of the heap. */
    method SearchToEnd(asize: nat) returns (bp: nat)
      requires Valid() && asize % 8 == 0
      modifies `rover
      ensures Arena()
      ensures var fit := FirstFrom(layout, old(View()).rover, layout.end, asize / 8);
              if fit.Some? then rover == bp == fit.value + 1 else bp == 0
    {
      hide Tagged, GetSize, GetWords, GetAlloc, FirstFrom, Tiles, NoFreePair;
      ghost var h, n := View(), asize / 8;
      ValidFacts();
      ghost var p := rover - 1;
      PlaceReads(p, asize);
      while GetSize(Get(Hdrp(rover))) > 0
        invariant Arena() && rover == p + 1 <= mem.Length && (IsPlace(layout, p) || p == layout.end) && p <= layout.end
        invariant GetSize(mem[p]) == 0 <==> p == layout.end
        invariant FirstFrom(layout, p, layout.end, n) == FirstFrom(layout, h.rover, layout.end, n)
        decreases layout.end - p
      {
        PlaceReads(p, asize);
        FirstFromStep(p, layout.end, n);
        if GetAlloc(Get(Hdrp(rover))) == 0 && asize <= GetSize(Get(Hdrp(rover))) {
          return rover;
        }
        rover := NextBlkp(rover);
        p := Next(layout, p);
        PlaceReads(p, asize);
      }
      FirstFromStep(p, layout.end, n);
      return 0;
    }

    /** The search from the start of the heap to the old rover, where it stops if it finds nothing. */
    method SearchFromStart(asize: nat, oldrover: nat) returns (bp: nat)
      requires Spelled() && Tiles(layout) && asize % 8 == 0 && 2 <= oldrover && IsPlace(layout, oldrover - 1)
      modifies `rover
      ensures Arena()
      ensures oldrover - 1 <= layout.end
      ensures var fit := FirstFrom(layout, PROLOGUE, oldrover - 1, asize / 8);
              if fit.Some? then rover == bp == fit.value + 1 else bp == 0 && rover == oldrover
    {
      hide Tagged, GetSize, GetWords, GetAlloc, FirstFrom, Tiles, NoFreePair;
      ghost var stop, n := oldrover - 1, asize / 8;
      PlaceReads(stop, asize);
      rover := heapListp;
      ghost var p := PROLOGUE;
      while rover < oldrover
        invariant Arena() && rover == p + 1 <= oldrover <= mem.Length && IsPlace(layout, p)
        invariant FirstFrom(layout, p, stop, n) == FirstFrom(layout, PROLOGUE, stop, n)
        decreases layout.end - p
      {
        PlaceReads(p, asize);
        FirstFromStep(p, stop, n);
        if GetAlloc(Get(Hdrp(rover))) == 0 && asize <= GetSize(Get(Hdrp(rover))) {
          return rover;
        }
        rover := NextBlkp(rover);
        p := Next(layout, p);
      }
      FirstFromStep(p, stop, n);
      return 0;
    }

    /** Next fit: from the rover to the end, then from the start to the old rover. The rover stays at the
        block found; if none is found, it is back where it was. */
    method FindFit(asize: nat) returns (bp: nat)
      requires Valid() && asize % 8 == 0
      modifies `rover
      ensures Valid()
      ensures var fit := NextFit(old(View()), asize / 8);
              && bp == (if fit.Some? then fit.value + 1 else 0)
              && View() == if fit.Some? then old(View()).(rover := fit.value) else old(View())
    {
      hide Tagged, FirstFrom, Tiles, NoFreePair;
      var oldrover := rover;
      ValidFacts();
      bp := SearchToEnd(asize);
      if bp != 0 {
        return;
      }
      bp := SearchFromStart(asize, oldrover);
    }

    // ---------- mm_malloc ----------

    /** Allocates a block for `size` bytes; 0 if there is none, or if `size` is 0. */
    method MmMalloc(size: nat) returns (bp: nat)
      requires Valid() && InReach(base, View(), size)
      modifies this, mem
      ensures Valid()
      ensures var r := old(Malloc(View(), size));
              View() == r.0 && bp == if r.1.Some? then r.1.value + 1 else 0
      ensures KeepsLive(old(layout), old(mem[..]), mem[..])
      ensures bp == 0 ==> mem[..] == old(mem[..])
    {
      hide Valid, KeepsLive, Consistent, Placed, Grow, GrownAt, NextFit, AdjustedSize, SbrkMisled, Tagged, Arena;
      ghost var h, m := View(), mem[..];
      ValidFacts();
      if size == 0 {
        KeepsLiveSame(layout, m);
        return 0;
      }
      AdjustedSizeFits(size);
      NeedFits(size);
      WrappedRequest(size);
      var asize := AdjustedSize(size);
      bp := FindFit(asize);
      if bp != 0 {
        Place(bp, asize);
        return;
      }
      var extendsize := Max(asize, CHUNKSIZE);
      ghost var n := Max(Units(size), CHUNK_UNITS);
      assert extendsize == 8 * n;
      if CanGrow(layout, n) {
        GrowFits(h, n);
      }
      BrkAtEnd();
      WholeWords(extendsize, n);
      bp := ExtendHeap(extendsize / 4);
      if bp == 0 {
        KeepsLiveSame(layout, m);
        return;
      }
      ghost var m1 := mem[..];
      Place(bp, asize);
      GrowKeepsLive(h, n, m1, mem[..]);
      KeepsLiveTrans(h.layout, m, m1, mem[..]);
    }

    /** When the rounding wraps, the smaller size is not found either, and the heap cannot grow. */
    lemma WrappedRequest(size: nat)
      requires Valid() && InReach(base, View(), size)
      ensures size >= 0x1_0000_0000 - 15 ==>
                var n := Max(Units(size), CHUNK_UNITS);
                && NextFit(View(), Units(size)).None? && !CanGrow(layout, n) && !SbrkMisled(base, brk, 8 * n)
                && Malloc(View(), size) == (View(), None)
    {
      hide Tagged, Consistent, NextFit, AdjustedSize, Malloc;
      if size >= 0x1_0000_0000 - 15 {
        AdjustedSizeFits(size);
        ValidFacts();
        BrkAtEnd();
        WrappedRefused(View(), size);
        SbrkRight(base, brk, 8 * Max(Units(size), CHUNK_UNITS));
      }
    }

    lemma BrkAtEnd()
      requires Valid()
      ensures brk == 4 * (layout.end + 1)
    {
    }

    /** What is live before the heap grows is live afterwards. */
    lemma GrowKeepsLive(h: Heap, n: nat, m: seq<Word>, m': seq<Word>)
      requires Consistent(h) && MIN_UNITS <= n && KeepsLive(Grow(h, n).layout, m, m')
      ensures KeepsLive(h.layout, m, m')
    {
      hide KeepsLive, Grow, Consistent;
      GrowKeeps(h, n);
      FewerKeepLive(h.layout, Grow(h, n).layout, m, m');
    }

    // ---------- mm_realloc ----------

    /** Where MmRealloc copies to and from: the target lies inside the new payload, the source inside the
        heap, and they do not overlap, although the size may be that of the old block with its tags. */
    lemma CopyReads(p: nat, q: nat, size: nat)
      requires Valid() && IsLive(layout, p) && IsLive(layout, q) && p != q && size + 8 <= 8 * layout.at[q].units
      ensures GetSize(mem[p]) == 8 * layout.at[p].units
      ensures var n := if size < 8 * layout.at[p].units then size else 8 * layout.at[p].units;
              && q + 1 + (n + 3) / 4 <= Succ(layout, q) - 1 < mem.Length && p + 1 + (n + 3) / 4 <= mem.Length
              && 4 * (p + 1) + n <= brk
              && (q + 1 + (n + 3) / 4 <= p + 1 || p + 1 + (n + 3) / 4 <= q + 1)
    {
      hide Tagged, Valid, Consistent, GetSize, Chained;
      ValidFacts();
      HeaderTag(mem[..], layout, p);
      BlockInside(p);
      BlockInside(q);
    }

    /** The copying step of MmRealloc. */
    method CopyOld(newptr: nat, ptr: nat, size: nat)
      requires Valid() && 1 <= ptr && IsLive(layout, ptr - 1) && 1 <= newptr && IsLive(layout, newptr - 1)
      requires newptr != ptr && size + 8 <= 8 * layout.at[newptr - 1].units
      modifies mem
      ensures Valid()
      ensures KeepsLive(Mark(layout, newptr - 1, false), old(mem[..]), mem[..])
      ensures forall j :: 0 <= j < size && j < 8 * layout.at[ptr - 1].units ==>
                newptr + j / 4 < mem.Length && ptr + j / 4 < mem.Length
                && ByteAt(mem[..], newptr, j) == old(ByteAt(mem[..], ptr, j))
    {
      hide Tagged, KeepsLive, ByteAt, GetSize, Consistent, Arena;
      ghost var m := mem[..];
      ValidFacts();
      CopyReads(ptr - 1, newptr - 1, size);
      var oldsize := GetSize(Get(Hdrp(ptr)));
      if size < oldsize {
        oldsize := size;
      }
      Memcpy(mem, newptr, ptr, oldsize);
      PayloadMissesTags(m, layout, newptr - 1, mem[..]);
      PayloadMissesLive(m, layout, newptr - 1, mem[..]);
    }

    /** Resizes a block by allocating, copying and freeing. The new block starts with the bytes of the
        old one; if there is no room, nothing changes. */
    method MmRealloc(ptr: nat, size: nat) returns (newptr: nat)
      requires Valid() && (ptr == 0 || IsLive(layout, ptr - 1))
      requires InReach(base, View(), size)
      modifies this, mem
      ensures Valid()
      ensures var r := old(Realloc(View(), if ptr == 0 then None else Some(ptr - 1), size));
              View() == r.0 && newptr == if r.1.Some? then r.1.value + 1 else 0
      ensures size != 0 && newptr == 0 ==> mem[..] == old(mem[..])
      ensures newptr != 0 && ptr != 0 ==>
                forall j :: 0 <= j < size && j < old(8 * layout.at[ptr - 1].units) - 8 ==>
                  newptr + j / 4 < mem.Length && ptr + j / 4 < mem.Length
                  && ByteAt(mem[..], newptr, j) == old(ByteAt(mem[..], ptr, j))
      ensures KeepsLive(if ptr == 0 then old(layout) else Mark(old(layout), ptr - 1, false), old(mem[..]), mem[..])
    {
      hide Valid, KeepsLive, Consistent, Malloc, Release, HandsOut, ByteAt, Tagged, Arena, Tiles;
      ghost var h, m := View(), mem[..];
      ValidFacts();
      if size == 0 {
        MmFree(ptr);
        if ptr != 0 {
          ReleaseKeeps(h, ptr - 1);
          ReleasedKeeps(h.layout, layout, ptr - 1, m, mem[..]);
        }
        return 0;
      }
      if ptr == 0 {
        newptr := MmMalloc(size);
        return;
      }
      newptr := MmMalloc(size);
      MallocCorrect(h, size);
      if newptr == 0 {
        FewerKeepLive(Mark(h.layout, ptr - 1, false), h.layout, m, mem[..]);
        return;
      }
      ghost var h1, m1 := View(), mem[..];
      StillLive(h.layout, h1.layout, newptr - 1, ptr - 1);
      OldPayload(h, ptr - 1);
      CopyOld(newptr, ptr, size);
      ghost var m2 := mem[..];
      MmFree(ptr);
      ValidFacts();
      ReleaseKeeps(h1, ptr - 1);
      MovedKeeps(h.layout, h1.layout, layout, newptr - 1, ptr - 1, m, m1, m2, mem[..]);
      BytesKept(layout, newptr - 1, newptr, size, m2, mem[..]);
      BytesKept(h.layout, ptr - 1, ptr, 8 * h.layout.at[ptr - 1].units - 8, m, m1);
    }

    lemma OldPayload(h: Heap, p: nat)
      requires Consistent(h) && p in h.layout.at
      ensures Tiles(h.layout) && 8 <= 8 * h.layout.at[p].units
    {
    }

    // ---------- mm_init ----------

    constructor (base: nat)
      ensures this.base == base && mem.Length == ARENA_WORDS && fresh(mem) && brk == 0
    {
      this.base := base;
      mem := new Word[ARENA_WORDS](_ => 0);
      brk, heapListp, rover := 0, 0, 0;
      layout := Empty().layout;
    }

    /** Lays out prologue and epilogue on an arena of which nothing is in use, and one free block. */
    method MmInit() returns (r: int)
      requires mem.Length == ARENA_WORDS && base % 8 == 0 && base + 4 * ARENA_WORDS < 0x1_0000_0000 && brk == 0
      modifies this, mem
      ensures r == 0 && Valid() && View() == Initial()
    {
      hide Grow, GrownAt, Consistent, Tagged;
      SbrkRight(base, brk, 4 * 4);
      var p := Sbrk(4 * 4);
      heapListp := p / 4;
      Put(heapListp, 0);
      Put(heapListp + 1, Pack(DSIZE, 1));
      Put(heapListp + 2, Pack(DSIZE, 1));
      Put(heapListp + 3, Pack(0, 1));
      heapListp := heapListp + 2;
      rover := heapListp;
      layout := Empty().layout;
      EmptyConsistent();
      EmptySpelled(mem[..]);
      assert CanGrow(layout, CHUNK_UNITS) && (CHUNKSIZE / 4 + 1) / 2 == CHUNK_UNITS;
      var bp := ExtendHeap(CHUNKSIZE / 4);
      r := if bp == 0 then -1 else 0;
    }

    lemma EmptySpelled(m: seq<Word>)
      requires |m| == ARENA_WORDS
      requires m[1] == m[2] == 9 && m[3] == 1
      ensures Tagged(m, Empty().layout)
    {
    }
  }
}
