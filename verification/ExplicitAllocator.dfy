/** The explicit free-list allocator over one arena of 32-bit words.

    Pointers are word indices into the arena: word `i` has the address `base + 4 * i`. A block
    pointer is three words past the block's header; 0 is the null pointer. */
module ExplicitAllocator {
  import opened Basics
  import opened Blocks
  import opened Memlib
  import opened Memory
  import opened Retagging
  import opened FreeList
  import opened ExplicitHeap

  const CHUNKSIZE := 512
  const MAX_INT: Word := 0x7FFF_FFFF

  /** The header of the prologue block, which ends the free list. */
  const PROLOGUE: nat := 1

  /** Words of the arena, two more than the heap may grow to: `MmRealloc` copies by block size, and
      so reads up to 8 bytes past the break. */
  const ARENA_WORDS := 5242882

  class Allocator {
    const base: nat
    const mem: array<Word>
    var brk: nat         // bytes in use, counted from the start of the arena
    var heapListp: nat
    var freeListp: nat
    ghost var layout: Layout
    ghost var free: seq<nat>

    ghost function View(): Heap
      reads this
    {
      Heap(layout, free)
    }

    ghost predicate Arena()
      reads this
    {
      && mem.Length == ARENA_WORDS
      && base % 8 == 0 && base + 4 * ARENA_WORDS <= 0x1_0000_0000
      && layout.first == 5 && layout.min == MIN_UNITS
      && brk == 4 * (layout.end + 1) <= HEAP_BYTES
      && heapListp == 4
    }

    /** The words of the arena spell out `layout` and `free`. */
    ghost predicate Spelled()
      reads this, mem
    {
      && Arena()
      && Tagged(mem[..], layout)
      && Linked(mem[..], base, free + [PROLOGUE])
      && freeListp == (free + [PROLOGUE])[0] + 3
    }

    ghost predicate Valid()
      reads this, mem
    {
      Spelled() && Consistent(View())
    }

    // ---------- macros ----------

    function Get(i: nat): (w: Word)
      requires i < mem.Length
      reads mem
      ensures w == mem[..][i]
    {
      mem[i]
    }

    method Put(i: nat, w: Word)
      requires i < mem.Length
      modifies mem
      ensures mem[..] == old(mem[..])[i := w]
    {
      mem[i] := w;
    }

    function Hdrp(bp: nat): nat
      requires 3 <= bp
    {
      bp - 3
    }

    function Nextp(bp: nat): nat
      requires 2 <= bp
    {
      bp - 2
    }

    function Prevp(bp: nat): nat
      requires 1 <= bp
    {
      bp - 1
    }

    function Ftrp(bp: nat): int
      requires 3 <= bp < mem.Length
      reads mem
    {
      bp + GetWords(Get(Hdrp(bp))) - 4
    }

    function PredBlkp(bp: nat): int
      requires 4 <= bp < mem.Length
      reads mem
    {
      bp - GetWords(Get(bp - 4))
    }

    function SuccBlkp(bp: nat): nat
      requires 3 <= bp < mem.Length
      reads mem
    {
      bp + GetWords(Get(bp - 3))
    }

    function NextBlkp(bp: nat): int
      requires 3 <= bp < mem.Length
      reads mem
    {
      Index(base, Get(Nextp(bp))) + 3
    }

    function PrevBlkp(bp: nat): int
      requires 3 <= bp < mem.Length
      reads mem
    {
      Index(base, Get(Prevp(bp))) + 3
    }

    // ---------- splicing the free list ----------

    /** The statement pair that takes a block out of the middle of the list, which the source repeats
        in each splicing path. */
    method Unlink(bp: nat, ghost g: seq<nat>, ghost k: nat)
      requires mem.Length <= ARENA_WORDS && base + 4 * ARENA_WORDS <= 0x1_0000_0000
      requires Linked(mem[..], base, g) && 0 < k < |g| - 1 && bp == g[k] + 3
      modifies mem
      ensures Linked(mem[..], base, Drop(g, k))
      ensures OnlyLinks(old(mem[..]), mem[..], g)
      ensures bp < mem.Length && mem[bp - 2] == old(mem[bp - 2]) && mem[bp - 1] == old(mem[bp - 1])
    {
      ghost var m := mem[..];
      assert Joined(m, base, g[k - 1], g[k]) && Joined(m, base, g[k], g[k + 1]);
      IndexAddress(base, g[k - 1]);
      IndexAddress(base, g[k + 1]);
      assert g[k - 1] in g && g[k + 1] in g;
      Put(Nextp(PrevBlkp(bp)), Get(Nextp(bp)));
      Put(Prevp(NextBlkp(bp)), Get(Prevp(bp)));
      FreeList.Unlink(m, base, g, k, mem[..]);
    }

    /** Puts a block in front of the list. */
    method PushFront(bp: nat, ghost g: seq<nat>)
      requires mem.Length <= ARENA_WORDS && base + 4 * ARENA_WORDS <= 0x1_0000_0000
      requires Linked(mem[..], base, g) && freeListp == g[0] + 3
      requires 3 <= bp < mem.Length && Spaced([bp - 3] + g)
      modifies mem, `freeListp
      ensures Linked(mem[..], base, [bp - 3] + g) && freeListp == bp
      ensures OnlyLinks(old(mem[..]), mem[..], [bp - 3] + g)
    {
      ghost var m := mem[..];
      Put(Nextp(bp), Address(base, Hdrp(freeListp)));
      Put(Prevp(bp), NULL);
      Put(Prevp(freeListp), Address(base, Hdrp(bp)));
      freeListp := bp;
      Push(m, base, g, bp - 3, mem[..]);
      assert ([bp - 3] + g)[0] == bp - 3 && ([bp - 3] + g)[1] == g[0];
    }

    /** Case 4.3, last steps: puts block `bp` in the place of the head of the list, `headBp`. */
    method ReplaceFront(bp: nat, headBp: nat, ghost g: seq<nat>)
      requires mem.Length <= ARENA_WORDS && base + 4 * ARENA_WORDS <= 0x1_0000_0000
      requires Linked(mem[..], base, g) && 1 < |g| && headBp == g[0] + 3
      requires 3 <= bp < mem.Length && Spaced([bp - 3] + g[1..]) && (bp + 4 <= headBp || headBp + 4 <= bp)
      modifies mem, `freeListp
      ensures Linked(mem[..], base, [bp - 3] + g[1..]) && freeListp == bp
      ensures OnlyLinks(old(mem[..]), mem[..], [bp - 3] + g[1..])
    {
      hide Linked, Spaced, OnlyLinks;
      ghost var m := mem[..];
      FrontPlan(m, g, bp);
      WriteFront(bp, headBp, g[1]);
      ReplaceHead(m, base, g, bp - 3, mem[..]);
      FrontTouches(m, g, bp, mem[..]);
    }

    /** Case 2.2, last steps: the same writes in another order. */
    method ReplaceFrontSucc(bp: nat, headBp: nat, ghost g: seq<nat>)
      requires mem.Length <= ARENA_WORDS && base + 4 * ARENA_WORDS <= 0x1_0000_0000
      requires Linked(mem[..], base, g) && 1 < |g| && headBp == g[0] + 3
      requires 3 <= bp < mem.Length && Spaced([bp - 3] + g[1..]) && (bp + 4 <= headBp || headBp + 4 <= bp)
      modifies mem, `freeListp
      ensures Linked(mem[..], base, [bp - 3] + g[1..]) && freeListp == bp
      ensures OnlyLinks(old(mem[..]), mem[..], [bp - 3] + g[1..])
    {
      hide Linked, Spaced, OnlyLinks;
      ghost var m := mem[..];
      FrontPlan(m, g, bp);
      WriteFrontSucc(bp, headBp, g[1]);
      ReplaceHead(m, base, g, bp - 3, mem[..]);
      FrontTouches(m, g, bp, mem[..]);
    }

    /** What is known of the head, of the node after it, and of the block to come. */
    lemma FrontPlan(m: seq<Word>, g: seq<nat>, bp: nat)
      requires Linked(m, base, g) && 1 < |g| && 3 <= bp && Spaced([bp - 3] + g[1..])
      requires |m| <= ARENA_WORDS && base + 4 * ARENA_WORDS <= 0x1_0000_0000
      ensures Joined(m, base, g[0], g[1])
      ensures (bp - 3) + 4 <= g[1] || g[1] + 4 <= bp - 3
      ensures g[0] + 4 <= g[1] || g[1] + 4 <= g[0]
    {
      assert ([bp - 3] + g[1..])[0] == bp - 3 && ([bp - 3] + g[1..])[1] == g[1];
    }

    lemma FrontTouches(m: seq<Word>, g: seq<nat>, bp: nat, m': seq<Word>)
      requires 1 < |g| && 3 <= bp && |m| == |m'|
      requires forall i :: 0 <= i < |m| && i !in [bp - 2, bp - 1, g[1] + 2] ==> m'[i] == m[i]
      ensures OnlyLinks(m, m', [bp - 3] + g[1..])
    {
      var h := [bp - 3] + g[1..];
      assert h[0] == bp - 3 && h[1] == g[1];
      assert bp - 3 in h && g[1] in h;
    }

    method WriteFront(bp: nat, headBp: nat, ghost b: nat)
      requires mem.Length <= ARENA_WORDS && base + 4 * ARENA_WORDS <= 0x1_0000_0000
      requires 3 <= bp < mem.Length && 3 <= headBp < mem.Length && b + 3 < mem.Length
      requires Get(headBp - 2) == Address(base, b) && (bp + 4 <= headBp || headBp + 4 <= bp)
      modifies mem, `freeListp
      ensures freeListp == bp
      ensures mem[..] == old(mem[..])[bp - 2 := old(mem[headBp - 2])][bp - 1 := NULL][b + 2 := Address(base, bp - 3)]
    {
      IndexAddress(base, b);
      Put(Nextp(bp), Get(Nextp(headBp)));
      Put(Prevp(bp), NULL);
      Put(Prevp(NextBlkp(headBp)), Address(base, Hdrp(bp)));
      freeListp := bp;
    }

    method WriteFrontSucc(bp: nat, headBp: nat, ghost b: nat)
      requires mem.Length <= ARENA_WORDS && base + 4 * ARENA_WORDS <= 0x1_0000_0000
      requires 3 <= bp < mem.Length && 3 <= headBp < mem.Length && b + 3 < mem.Length
      requires Get(headBp - 2) == Address(base, b)
      requires bp + 1 <= b || b + 4 <= bp - 3
      requires headBp + 1 <= b || b + 4 <= headBp - 3
      modifies mem, `freeListp
      ensures freeListp == bp
      ensures mem[..] == old(mem[..])[bp - 2 := old(mem[headBp - 2])][bp - 1 := NULL][b + 2 := Address(base, bp - 3)]
    {
      IndexAddress(base, b);
      Put(Prevp(NextBlkp(headBp)), Address(base, Hdrp(bp)));
      Put(Nextp(bp), Address(base, Hdrp(NextBlkp(headBp))));
      Put(Prevp(bp), NULL);
      freeListp := bp;
    }

    /** Cases 2.1 and 2.2: node `k` leaves the list, and block `bp`, which swallows it, goes in front. */
    method SpliceSucc(bp: nat, successorBp: nat, ghost g: seq<nat>, ghost k: nat)
      requires mem.Length <= ARENA_WORDS && base + 4 * ARENA_WORDS <= 0x1_0000_0000
      requires Linked(mem[..], base, g) && freeListp == g[0] + 3 && (forall x <- g :: 0 < x)
      requires k < |g| - 1 && successorBp == g[k] + 3
      requires 3 <= bp < mem.Length && Spaced([bp - 3] + Drop(g, k)) && bp + 4 <= successorBp
      modifies mem, `freeListp
      ensures Linked(mem[..], base, [bp - 3] + Drop(g, k)) && freeListp == bp
      ensures OnlyLinks(old(mem[..]), mem[..], [bp - 3] + g)
    {
      ghost var m := mem[..];
      ReadLinks(m, base, g, k);
      DropIn(g, k);
      if Get(Prevp(successorBp)) != NULL {
        Unlink(successorBp, g, k);
        ghost var m1 := mem[..];
        PushFront(bp, Drop(g, k));
        OnlyLinksTrans(m, m1, mem[..], g, [bp - 3] + Drop(g, k), [bp - 3] + g);
      } else {
        assert Drop(g, k) == g[1..];
        ReplaceFrontSucc(bp, successorBp, g);
        OnlyLinksTrans(m, m, mem[..], [], [bp - 3] + Drop(g, k), [bp - 3] + g);
      }
    }

    /** Case 3: node `k`, which swallows the freed block, moves to the front. */
    method SplicePred(bp: nat, ghost g: seq<nat>, ghost k: nat)
      requires mem.Length <= ARENA_WORDS && base + 4 * ARENA_WORDS <= 0x1_0000_0000
      requires Linked(mem[..], base, g) && freeListp == g[0] + 3 && (forall x <- g :: 0 < x)
      requires k < |g| - 1 && bp == g[k] + 3 < mem.Length
      requires Spaced([bp - 3] + Drop(g, k))
      modifies mem, `freeListp
      ensures Linked(mem[..], base, [bp - 3] + Drop(g, k)) && freeListp == bp
      ensures OnlyLinks(old(mem[..]), mem[..], [bp - 3] + g)
    {
      ghost var m := mem[..];
      ReadLinks(m, base, g, k);
      if Get(Prevp(bp)) != NULL {
        Unlink(bp, g, k);
        ghost var m1 := mem[..];
        PushFront(bp, Drop(g, k));
        DropIn(g, k);
        OnlyLinksTrans(m, m1, mem[..], g, [bp - 3] + Drop(g, k), [bp - 3] + g);
      } else {
        assert [bp - 3] + Drop(g, k) == g;
      }
    }

    /** Cases 4.1 to 4.3: node `j` leaves the list, and node `i`, which swallows it, moves to the front. */
    method SpliceBoth(bp: nat, successorBp: nat, ghost g: seq<nat>, ghost i: nat, ghost j: nat)
      requires mem.Length <= ARENA_WORDS && base + 4 * ARENA_WORDS <= 0x1_0000_0000
      requires Linked(mem[..], base, g) && freeListp == g[0] + 3 && (forall x <- g :: 0 < x)
      requires i < |g| - 1 && bp == g[i] + 3 && j < |g| - 1 && i != j && successorBp == g[j] + 3
      requires bp < mem.Length && successorBp < mem.Length
      modifies mem, `freeListp
      ensures Linked(mem[..], base, [bp - 3] + Drop2(g, i, j)) && freeListp == bp
      ensures OnlyLinks(old(mem[..]), mem[..], g)
    {
      hide Linked, OnlyLinks, Spaced, Drop2, Drop;
      ReadLinks(mem[..], base, g, i);
      ReadLinks(mem[..], base, g, j);
      if Get(Prevp(bp)) != NULL && Get(Prevp(successorBp)) != NULL {
        SpliceTails(bp, successorBp, g, i, j);
      } else if Get(Prevp(bp)) == NULL {
        Unlink(successorBp, g, j);
        DropHead(g, j);
      } else {
        SpliceSuccHead(bp, successorBp, g, i);
      }
    }

    /** Dropping head and node `j` and putting the head back is dropping node `j`. */
    lemma DropHead(g: seq<nat>, j: nat)
      requires 0 < j < |g|
      ensures [g[0]] + Drop2(g, 0, j) == Drop(g, j) && Drop(g, j)[0] == g[0]
    {
    }

    /** Case 4.1: neither node is the head. */
    method SpliceTails(bp: nat, successorBp: nat, ghost g: seq<nat>, ghost i: nat, ghost j: nat)
      requires mem.Length <= ARENA_WORDS && base + 4 * ARENA_WORDS <= 0x1_0000_0000
      requires Linked(mem[..], base, g) && freeListp == g[0] + 3
      requires 0 < i < |g| - 1 && bp == g[i] + 3 && 0 < j < |g| - 1 && i != j && successorBp == g[j] + 3
      requires bp < mem.Length && successorBp < mem.Length
      modifies mem, `freeListp
      ensures Linked(mem[..], base, [bp - 3] + Drop2(g, i, j)) && freeListp == bp
      ensures OnlyLinks(old(mem[..]), mem[..], g)
    {
      ghost var m, h, j' := mem[..], Drop(g, i), if j < i then j else j - 1;
      assert h[j'] == g[j] && h[0] == g[0] && Drop2(g, i, j)[0] == g[0];
      DropSpaced(g, i, j);
      DropIn(g, i);
      DropIn(h, j');
      hide Linked, Spaced, OnlyLinks, Drop;
      Unlink(bp, g, i);
      ghost var m1 := mem[..];
      Unlink(successorBp, h, j');
      ghost var m2 := mem[..];
      PushFront(bp, Drop2(g, i, j));
      OnlyLinksTrans(m, m1, m2, g, h, g);
      OnlyLinksTrans(m, m2, mem[..], g, [bp - 3] + Drop2(g, i, j), g);
    }

    /** Case 4.3: the successor, node 0, is the head. */
    method SpliceSuccHead(bp: nat, successorBp: nat, ghost g: seq<nat>, ghost i: nat)
      requires mem.Length <= ARENA_WORDS && base + 4 * ARENA_WORDS <= 0x1_0000_0000
      requires Linked(mem[..], base, g)
      requires 0 < i < |g| - 1 && bp == g[i] + 3 < mem.Length && successorBp == g[0] + 3 < mem.Length
      modifies mem, `freeListp
      ensures Linked(mem[..], base, [bp - 3] + Drop2(g, i, 0)) && freeListp == bp
      ensures OnlyLinks(old(mem[..]), mem[..], g)
    {
      hide Linked, Spaced, OnlyLinks, Drop, Drop2;
      ghost var m, h := mem[..], Drop(g, i);
      HeadPlan(g, i, base, m);
      Unlink(bp, g, i);
      ghost var m1 := mem[..];
      ReplaceFront(bp, successorBp, h);
      OnlyLinksTrans(m, m1, mem[..], g, [bp - 3] + h[1..], g);
    }

    /** The list without node `i`, and then without its head as well. */
    lemma HeadPlan(g: seq<nat>, i: nat, base: nat, m: seq<Word>)
      requires Linked(m, base, g) && 0 < i < |g| - 1
      ensures var h := Drop(g, i);
              && 1 < |h| && h[0] == g[0] && Drop2(g, i, 0) == h[1..] && Spaced([g[i]] + h[1..])
              && (g[i] + 4 <= g[0] || g[0] + 4 <= g[i])
              && forall x <- [g[i]] + h[1..] :: x in g
    {
      DropSpaced(g, i, 0);
      DropIn(g, i);
    }

    /** Drops the head of the list. */
    method PopFront(bp: nat, ghost g: seq<nat>)
      requires mem.Length <= ARENA_WORDS && base + 4 * ARENA_WORDS <= 0x1_0000_0000
      requires Linked(mem[..], base, g) && 1 < |g| && bp == g[0] + 3
      modifies mem, `freeListp
      ensures Linked(mem[..], base, g[1..]) && freeListp == g[1] + 3
      ensures OnlyLinks(old(mem[..]), mem[..], g)
    {
      ghost var m := mem[..];
      assert Joined(m, base, g[0], g[1]) && g[1] in g;
      IndexAddress(base, g[1]);
      freeListp := NextBlkp(bp);
      Put(Prevp(NextBlkp(bp)), NULL);
      Pop(m, base, g, mem[..]);
    }

    /** The last case split of Place without a remainder: node `k` leaves the list. */
    method SpliceOut(bp: nat, ghost g: seq<nat>, ghost k: nat)
      requires mem.Length <= ARENA_WORDS && base + 4 * ARENA_WORDS <= 0x1_0000_0000
      requires Linked(mem[..], base, g) && freeListp == g[0] + 3 && (forall x <- g :: 0 < x)
      requires k < |g| - 1 && bp == g[k] + 3
      modifies mem, `freeListp
      ensures Linked(mem[..], base, Drop(g, k)) && freeListp == Drop(g, k)[0] + 3
      ensures OnlyLinks(old(mem[..]), mem[..], g)
    {
      hide Linked, OnlyLinks, Spaced;
      ReadLinks(mem[..], base, g, k);
      if Get(Prevp(bp)) != NULL {
        Unlink(bp, g, k);
      } else {
        PopFront(bp, g);
        assert Drop(g, k) == g[1..];
      }
    }

    /** The last case split of Place with a remainder: the remainder takes the place of node `k`. */
    method SpliceIn(allocatedBp: nat, remainingBp: nat, ghost g: seq<nat>, ghost k: nat)
      requires mem.Length <= ARENA_WORDS && base + 4 * ARENA_WORDS <= 0x1_0000_0000
      requires Linked(mem[..], base, g) && freeListp == g[0] + 3 && (forall x <- g :: 0 < x)
      requires k < |g| - 1 && allocatedBp == g[k] + 3
      requires allocatedBp + 4 <= remainingBp < mem.Length && Spaced(g[k := remainingBp - 3])
      modifies mem, `freeListp
      ensures Linked(mem[..], base, g[k := remainingBp - 3]) && freeListp == g[k := remainingBp - 3][0] + 3
      ensures OnlyLinks(old(mem[..]), mem[..], g[k := remainingBp - 3])
    {
      ReadLinks(mem[..], base, g, k);
      if Get(Prevp(allocatedBp)) != NULL {
        SpliceInTail(allocatedBp, remainingBp, g, k);
      } else {
        assert g[k := remainingBp - 3] == [remainingBp - 3] + g[1..];
        SpliceInHead(allocatedBp, remainingBp, g);
      }
    }

    method SpliceInTail(allocatedBp: nat, remainingBp: nat, ghost g: seq<nat>, ghost k: nat)
      requires mem.Length <= ARENA_WORDS && base + 4 * ARENA_WORDS <= 0x1_0000_0000
      requires Linked(mem[..], base, g)
      requires 0 < k < |g| - 1 && allocatedBp == g[k] + 3
      requires allocatedBp + 4 <= remainingBp < mem.Length && Spaced(g[k := remainingBp - 3])
      modifies mem
      ensures Linked(mem[..], base, g[k := remainingBp - 3])
      ensures OnlyLinks(old(mem[..]), mem[..], g[k := remainingBp - 3])
    {
      hide Linked, Spaced, OnlyLinks;
      ghost var m, x := mem[..], remainingBp - 3;
      ReplacePlan(m, g, k, x);
      IndexAddress(base, g[k - 1]);
      IndexAddress(base, g[k + 1]);
      WriteReplacement(allocatedBp, remainingBp, g[k - 1], g[k + 1]);
      Replace(m, base, g, k, x, mem[..]);
      ReplaceTouches(m, g, k, x, mem[..]);
    }

    /** What is known of the neighbours of node `k`. */
    lemma ReplacePlan(m: seq<Word>, g: seq<nat>, k: nat, x: nat)
      requires Linked(m, base, g) && 0 < k < |g| - 1
      ensures Joined(m, base, g[k - 1], g[k]) && Joined(m, base, g[k], g[k + 1])
      ensures g[k - 1] + 4 <= g[k] || g[k] + 4 <= g[k - 1]
    {
    }

    lemma ReplaceTouches(m: seq<Word>, g: seq<nat>, k: nat, x: nat, m': seq<Word>)
      requires 0 < k < |g| - 1 && |m| == |m'|
      requires forall i :: 0 <= i < |m| && i !in [g[k - 1] + 1, x + 1, x + 2, g[k + 1] + 2] ==> m'[i] == m[i]
      ensures OnlyLinks(m, m', g[k := x])
    {
      var h := g[k := x];
      assert h[k - 1] == g[k - 1] && h[k] == x && h[k + 1] == g[k + 1];
      assert g[k - 1] in h && x in h && g[k + 1] in h;
    }

    method WriteReplacement(allocatedBp: nat, remainingBp: nat, ghost a: nat, ghost b: nat)
      requires mem.Length <= ARENA_WORDS && base + 4 * ARENA_WORDS <= 0x1_0000_0000
      requires 3 <= allocatedBp && allocatedBp + 4 <= remainingBp < mem.Length
      requires a + 3 < mem.Length && b + 3 < mem.Length
      requires PrevBlkp(allocatedBp) == a + 3 && NextBlkp(allocatedBp) == b + 3
      requires a + 4 <= allocatedBp - 3 || allocatedBp + 1 <= a
      modifies mem
      ensures mem[..] == old(mem[..])[a + 1 := Address(base, remainingBp - 3)]
                                     [remainingBp - 1 := old(mem[allocatedBp - 1])]
                                     [remainingBp - 2 := old(mem[allocatedBp - 2])]
                                     [b + 2 := Address(base, remainingBp - 3)]
    {
      Put(Nextp(PrevBlkp(allocatedBp)), Address(base, Hdrp(remainingBp)));
      Put(Prevp(remainingBp), Get(Prevp(allocatedBp)));
      Put(Nextp(remainingBp), Get(Nextp(allocatedBp)));
      Put(Prevp(NextBlkp(allocatedBp)), Address(base, Hdrp(remainingBp)));
    }

    method SpliceInHead(allocatedBp: nat, remainingBp: nat, ghost g: seq<nat>)
      requires mem.Length <= ARENA_WORDS && base + 4 * ARENA_WORDS <= 0x1_0000_0000
      requires Linked(mem[..], base, g)
      requires 1 < |g| && allocatedBp == g[0] + 3
      requires allocatedBp + 4 <= remainingBp < mem.Length && Spaced([remainingBp - 3] + g[1..])
      modifies mem, `freeListp
      ensures Linked(mem[..], base, [remainingBp - 3] + g[1..]) && freeListp == remainingBp
      ensures OnlyLinks(old(mem[..]), mem[..], [remainingBp - 3] + g[1..])
    {
      ghost var m, x, h := mem[..], remainingBp - 3, [remainingBp - 3] + g[1..];
      assert Joined(m, base, g[0], g[1]) && h[0] == x && h[1] == g[1];
      assert x in h && g[1] in h;
      IndexAddress(base, g[1]);
      freeListp := remainingBp;
      Put(Prevp(remainingBp), NULL);
      Put(Nextp(remainingBp), Get(Nextp(allocatedBp)));
      Put(Prevp(NextBlkp(allocatedBp)), Address(base, Hdrp(remainingBp)));
      ReplaceHead(m, base, g, x, mem[..]);
    }

    // ---------- coalescing ----------

    /** What the macros find around block `p`. */
    lemma Around(p: nat)
      requires Spelled() && p in layout.at
      ensures GetSize(Get(p)) == 8 * layout.at[p].units
      ensures SuccBlkp(p + 3) == Succ(layout, p) + 3 <= mem.Length
      ensures Ftrp(p + 3) == Succ(layout, p) - 1
      ensures GetAlloc(Get(Succ(layout, p))) == 0 <==> FreeAfter(layout, p)
      ensures 3 <= PredBlkp(p + 3) < p + 3 && Ftrp(PredBlkp(p + 3)) == p - 1
      ensures GetAlloc(Get(p - 1)) == 0 <==> FreeBefore(layout, p)
      ensures layout.first < p ==> PredBlkp(p + 3) == Pred(layout, p) + 3
    {
      hide GetSize, GetWords, GetAlloc, Tag;
      HeaderTag(mem[..], layout, p);
      SuccTag(mem[..], layout, p);
      PredTag(mem[..], layout, p);
      SentinelTags(layout.first);
      if layout.first < p {
        HeaderTag(mem[..], layout, Pred(layout, p));
      }
    }

    /** The words are as they should be after block `p` of `h` has been absorbed, and differ from `m`
        in no live block. */
    ghost predicate Absorbed(h: Heap, p: nat, m: seq<Word>)
      requires Pending(h, p)
      reads this`freeListp, mem
    {
      && Tagged(mem[..], Coalesced(h.layout, p))
      && Linked(mem[..], base, Absorb(h, p).free + [PROLOGUE])
      && freeListp == Base(h.layout, p) + 3
      && KeepsLive(h.layout, m, mem[..])
    }

    /** The links that coalescing may write. */
    ghost function Touched(h: Heap, p: nat): seq<nat>
      requires Pending(h, p)
    {
      [Base(h.layout, p)] + h.free + [PROLOGUE]
    }

    lemma TouchedNodes(h: Heap, p: nat)
      requires Pending(h, p) && Roomy(h.layout)
      ensures Nodes(h.layout, Touched(h, p))
      ensures forall x <- Touched(h, p) :: !IsLive(h.layout, x)
    {
      var b := Base(h.layout, p);
      assert !IsLive(h.layout, b) && 1 !in h.layout.at;
      hide Tiles, NoFreePairBut, Base;
    }

    /** Once the merged block is tagged, splicing the list completes the step. */
    lemma Settle(h: Heap, p: nat, m: seq<Word>, m1: seq<Word>)
      requires Pending(h, p) && Roomy(h.layout)
      requires Tagged(m1, Coalesced(h.layout, p)) && KeepsLive(h.layout, m, m1)
      requires OnlyLinks(m1, mem[..], [Base(h.layout, p)] + (h.free + [PROLOGUE]))
      ensures Tagged(mem[..], Coalesced(h.layout, p)) && KeepsLive(h.layout, m, mem[..])
    {
      var l, g := h.layout, Touched(h, p);
      assert g == [Base(h.layout, p)] + (h.free + [PROLOGUE]);
      CoalesceCoarser(l, p);
      TouchedNodes(h, p);
      hide Coalesced, Tagged, KeepsLive, Coarser, Pending, Touched;
      LinksKeepTags(m1, l, Coalesced(l, p), g, mem[..]);
      LinksKeepLive(m1, l, g, mem[..]);
      KeepsLiveTrans(l, m, m1, mem[..]);
    }

    lemma ListFacts(h: Heap, p: nat)
      requires Pending(h, p) && Roomy(h.layout)
      ensures NoDup(h.free + [PROLOGUE]) && Nodes(h.layout, h.free + [PROLOGUE])
      ensures forall x <- h.free + [PROLOGUE] :: 0 < x
      ensures Spaced([Base(h.layout, p)] + Rest(h, p) + [PROLOGUE])
      ensures p + 3 < h.layout.end && Base(h.layout, p) + 3 < h.layout.end
      ensures var c := Absorb(h, p).layout;
              c == Coalesced(h.layout, p) && c.first == h.layout.first && c.min == h.layout.min && c.end == h.layout.end
    {
      var l, b, r := h.layout, Base(h.layout, p), Rest(h, p);
      RestCorrect(h, p);
      assert 1 !in l.at && 0 !in l.at;
      assert b !in r && b in l.at;
      hide Tiles, Base, Rest, NoFreePairBut;
      assert forall x <- r :: x in l.at;
      DistinctSpaced(l, [b] + r + [PROLOGUE]);
    }

    /** Case 1: neither neighbour is free. */
    method CoalesceNone(bp: nat, ghost h: Heap)
      requires 3 <= bp && Spelled() && View() == h && Pending(h, bp - 3)
      requires !FreeBefore(layout, bp - 3) && !FreeAfter(layout, bp - 3)
      modifies mem, `freeListp
      ensures Absorbed(h, bp - 3, old(mem[..])) && freeListp == bp
    {
      ghost var p, m := bp - 3, mem[..];
      ListFacts(h, p);
      assert [p] + (free + [PROLOGUE]) == [p] + free + [PROLOGUE];
      PushFront(bp, free + [PROLOGUE]);
      Settle(h, p, m, m);
    }

    /** With one free neighbour `q`, the list to reach is the old one without `q`, the merged block in front. */
    lemma PlanOne(h: Heap, p: nat, q: nat)
      requires Pending(h, p) && Roomy(h.layout)
      requires FreeAfter(h.layout, p) != FreeBefore(h.layout, p)
      requires q == if FreeAfter(h.layout, p) then Succ(h.layout, p) else Pred(h.layout, p)
      ensures q in h.free
      ensures var g, k := h.free + [PROLOGUE], IndexOf(h.free, q);
              && g[k] == q && (forall x <- g :: 0 < x)
              && [Base(h.layout, p)] + Drop(g, k) == Absorb(h, p).free + [PROLOGUE]
              && Spaced([Base(h.layout, p)] + Drop(g, k))
    {
      assert IsFree(h.layout, q) && q != p;
      ListFacts(h, p);
      hide Tiles, NoFreePairBut, Coalesced, Base, Spaced;
      var g, k := h.free + [PROLOGUE], IndexOf(h.free, q);
      assert Drop(g, k) == Rest(h, p) + [PROLOGUE];
      assert [Base(h.layout, p)] + Drop(g, k) == [Base(h.layout, p)] + Rest(h, p) + [PROLOGUE];
    }

    /** The merged block lies inside the heap, and is as long as the blocks it is made of. */
    lemma MergedInside(h: Heap, p: nat)
      requires Pending(h, p) && 4 * h.layout.end < 0x1_0000_0000
      ensures var l, b, c := h.layout, Base(h.layout, p), Coalesced(h.layout, p);
              && b in c.at && b < Succ(c, b) <= l.end && Tag(c.at[b]) < 0x1_0000_0000
              && !c.at[b].live && b == (if FreeBefore(l, p) then Pred(l, p) else p) <= p < Succ(l, p) <= Succ(c, b)
              && Succ(c, b) == (if FreeAfter(l, p) then Succ(l, Succ(l, p)) else Succ(l, p))
              && c.at[b].units == l.at[p].units + (if FreeBefore(l, p) then l.at[Pred(l, p)].units else 0)
                                  + (if FreeAfter(l, p) then l.at[Succ(l, p)].units else 0)
    {
      CoalesceTiles(h.layout, p);
      CoalesceExtent(h.layout, p);
    }

    /** Once tagged, the merged block is in place; the list and the live blocks are as they were. */
    lemma RetaggedCorrect(h: Heap, p: nat, m: seq<Word>)
      requires Spelled() && View() == h && Pending(h, p) && m == mem[..]
      ensures MergedFits(layout, p)
      ensures var m1 := MergedStamp(m, layout, p);
              Tagged(m1, Coalesced(layout, p)) && Linked(m1, base, free + [PROLOGUE]) && KeepsLive(layout, m, m1)
    {
      TouchedNodes(h, p);
      assert Nodes(layout, free + [PROLOGUE]) && 4 * layout.end < 0x1_0000_0000;
      CoalesceFits(layout, p);
      CoalesceSwallows(layout, p);
      hide Tagged, Linked, KeepsLive, Coalesced, NoFreePairBut, Tiles, Lists, Base, FreeBefore, FreeAfter, Swallows,
        MergedStamp;
      CoalesceTags(m, base, layout, free + [PROLOGUE], p);
    }

    /** With both neighbours free, the list to reach is the old one without either of them. */
    lemma PlanBoth(h: Heap, p: nat)
      requires Pending(h, p) && Roomy(h.layout)
      requires FreeAfter(h.layout, p) && FreeBefore(h.layout, p)
      ensures Pred(h.layout, p) in h.free && Succ(h.layout, p) in h.free && Pred(h.layout, p) != Succ(h.layout, p)
      ensures var g := h.free + [PROLOGUE];
              var i, j := IndexOf(h.free, Pred(h.layout, p)), IndexOf(h.free, Succ(h.layout, p));
              && i != j && g[i] == Pred(h.layout, p) && g[j] == Succ(h.layout, p) && (forall x <- g :: 0 < x)
              && [Base(h.layout, p)] + Drop2(g, i, j) == Absorb(h, p).free + [PROLOGUE]
    {
      hide Tiles, NoFreePairBut, Coalesced, Base, Spaced, Without, Rest, Drop2, FreeBefore, IndexOf;
      BothListed(h, p);
      var q, s := Pred(h.layout, p), Succ(h.layout, p);
      ListFacts(h, p);
      RestBoth(h, p);
      DropTwice(h.free, q, s);
      assert [Base(h.layout, p)] + (Rest(h, p) + [PROLOGUE]) == [Base(h.layout, p)] + Rest(h, p) + [PROLOGUE];
    }

    lemma BothListed(h: Heap, p: nat)
      requires Pending(h, p) && FreeAfter(h.layout, p) && FreeBefore(h.layout, p)
      ensures Tiles(h.layout) && p in h.layout.at && h.layout.first < p
      ensures Pred(h.layout, p) in h.free && Succ(h.layout, p) in h.free && Pred(h.layout, p) < p < Succ(h.layout, p)
    {
      assert IsFree(h.layout, Pred(h.layout, p)) && IsFree(h.layout, Succ(h.layout, p));
      hide NoFreePairBut;
    }

    lemma DropTwice(f: seq<nat>, q: nat, s: nat)
      requires NoDup(f) && q in f && s in f && q != s
      ensures Drop2(f + [PROLOGUE], IndexOf(f, q), IndexOf(f, s)) == Without(Without(f, q), s) + [PROLOGUE]
    {
      hide IndexOf, Without, Drop, NoDup;
      WithoutCorrect(f, q);
      IndexAfterDrop(f, q, s);
      DropOne(f, q);
      DropOne(Without(f, q), s);
    }

    lemma DropOne(f: seq<nat>, x: nat)
      requires x in f
      ensures Drop(f + [PROLOGUE], IndexOf(f, x)) == Without(f, x) + [PROLOGUE]
    {
      hide IndexOf;
    }

    lemma IndexAfterDrop(f: seq<nat>, q: nat, s: nat)
      requires NoDup(f) && q in f && s in f && q != s && NoDup(Without(f, q)) && s in Without(f, q)
      ensures var i, j := IndexOf(f, q), IndexOf(f, s);
              IndexOf(Without(f, q), s) == (if j < i then j else j - 1) && i != j
    {
      hide IndexOf;
      var i, j := IndexOf(f, q), IndexOf(f, s);
      var j' := if j < i then j else j - 1;
      assert Without(f, q)[j'] == s;
      UniqueIndex(Without(f, q), s, j');
    }

    lemma UniqueIndex(s: seq<nat>, x: nat, k: nat)
      requires NoDup(s) && k < |s| && s[k] == x
      ensures IndexOf(s, x) == k
    {
    }

    /** Case 2: only the successor is free. */
    method CoalesceSucc(bp: nat, ghost h: Heap)
      requires 3 <= bp && Spelled() && View() == h && Pending(h, bp - 3)
      requires !FreeBefore(layout, bp - 3) && FreeAfter(layout, bp - 3)
      modifies mem, `freeListp
      ensures Absorbed(h, bp - 3, old(mem[..])) && freeListp == bp
    {
      hide Tagged, Linked, KeepsLive, Coalesced, Tiles, Pending, Spaced, Absorb, Roomy, MergedStamp, MergedFits,
        Spelled, Base, Nodes, OnlyLinks, IndexOf;
      ghost var p, m := bp - 3, mem[..];
      PendingFacts(p);
      ListFacts(h, p);
      PlanOne(h, p, Succ(layout, p));
      RetaggedCorrect(h, p, m);
      JoinedFront(p);
      SuccFar(h, p);
      ghost var k, m1 := IndexOf(free, Succ(layout, p)), MergedStamp(m, layout, p);
      var successorBp := JoinSizeSucc(bp, m1);
      SpliceSucc(bp, successorBp, free + [PROLOGUE], k);
      Settle(h, p, m, m1);
    }

    /** The first step of case 2: the block and its successor get one pair of tags. */
    method JoinSizeSucc(bp: nat, ghost m1: seq<Word>) returns (successorBp: nat)
      requires 3 <= bp && Tiles(layout) && bp - 3 in layout.at
      requires !FreeBefore(layout, bp - 3) && FreeAfter(layout, bp - 3)
      requires MergedFits(layout, bp - 3) && layout.end < mem.Length
      requires m1 == MergedStamp(mem[..], layout, bp - 3)
      requires Spelled() && Pending(View(), bp - 3)
      modifies mem
      ensures successorBp == Succ(layout, bp - 3) + 3 && mem[..] == m1
    {
      hide Spelled, Pending, MergedStamp, GetSize, GetWords, Base, MergedFits, Stamp, Tiles;
      SuccReads(bp - 3);
      successorBp := WriteSizeSucc(bp, Succ(layout, bp - 3), Succ(layout, Succ(layout, bp - 3)) - 1);
    }

    method WriteSizeSucc(bp: nat, ghost s: nat, ghost e: nat) returns (successorBp: nat)
      requires 3 <= bp && bp - 3 < s && bp - 3 < e < mem.Length && s < mem.Length && bp < mem.Length
      requires SuccBlkp(bp) == s + 3
      requires GetSize(mem[bp - 3]) + GetSize(mem[s]) < 0x1_0000_0000
      requires GetWords(GetSize(mem[bp - 3]) + GetSize(mem[s])) == e + 4 - bp
      modifies mem
      ensures successorBp == s + 3
      ensures var size := old(Pack(GetSize(mem[bp - 3]) + GetSize(mem[s]), 0));
              mem[..] == Stamp(old(mem[..]), bp - 3, e, size)
    {
      hide GetSize, GetWords;
      successorBp := SuccBlkp(bp);
      var size := GetSize(Get(Hdrp(bp))) + GetSize(Get(Hdrp(SuccBlkp(bp))));
      Put(Hdrp(bp), Pack(size, 0));
      Put(Ftrp(bp), Pack(size, 0));
    }

    /** Case 3: only the predecessor is free. */
    method CoalescePred(bp: nat, ghost h: Heap) returns (r: nat)
      requires 3 <= bp && Spelled() && View() == h && Pending(h, bp - 3)
      requires FreeBefore(layout, bp - 3) && !FreeAfter(layout, bp - 3)
      modifies mem, `freeListp
      ensures Absorbed(h, bp - 3, old(mem[..])) && freeListp == r
    {
      hide Tagged, Linked, KeepsLive, Coalesced, Tiles, Pending, Spaced, Absorb, Roomy, MergedStamp, MergedFits,
        Spelled, Base, Nodes, OnlyLinks, IndexOf;
      ghost var p, m := bp - 3, mem[..];
      PendingFacts(p);
      ListFacts(h, p);
      PlanOne(h, p, Pred(layout, p));
      RetaggedCorrect(h, p, m);
      ghost var k, m1 := IndexOf(free, Pred(layout, p)), MergedStamp(m, layout, p);
      r := JoinSizePred(bp, Base(layout, p), m1);
      BaseIsPred(p);
      SplicePred(r, free + [PROLOGUE], k);
      Settle(h, p, m, m1);
    }

    /** Blocks are long enough for the links of the next one to lie clear. */
    lemma SuccFar(h: Heap, p: nat)
      requires Pending(h, p)
      ensures p + 6 <= Succ(h.layout, p)
    {
    }

    lemma JoinedFront(p: nat)
      requires Tiles(layout) && p in layout.at && !FreeBefore(layout, p)
      ensures Base(layout, p) == p
    {
    }

    /** The first step of case 3. */
    method JoinSizePred(bp: nat, ghost b: nat, ghost m1: seq<Word>) returns (r: nat)
      requires 3 <= bp && Tiles(layout) && bp - 3 in layout.at
      requires FreeBefore(layout, bp - 3) && !FreeAfter(layout, bp - 3)
      requires MergedFits(layout, bp - 3) && layout.end < mem.Length && b == Base(layout, bp - 3)
      requires m1 == MergedStamp(mem[..], layout, bp - 3)
      requires Spelled() && Pending(View(), bp - 3)
      modifies mem
      ensures r == b + 3 && mem[..] == m1
    {
      hide Spelled, Pending, MergedStamp, GetSize, GetWords, Base, MergedFits, Stamp, Tiles;
      PredReads(bp - 3);
      r := WriteSizePred(bp, Pred(layout, bp - 3));
    }

    method WriteSizePred(bp: nat, ghost q: nat) returns (r: nat)
      requires q < bp - 4 && bp < mem.Length && bp - 3 < Ftrp(bp) < mem.Length && PredBlkp(bp) == q + 3
      requires GetSize(mem[bp - 3]) + GetSize(mem[q]) < 0x1_0000_0000
      modifies mem
      ensures r == q + 3
      ensures var size := old(Pack(GetSize(mem[bp - 3]) + GetSize(mem[q]), 0));
              mem[..] == Stamp(old(mem[..]), q, old(Ftrp(bp)), size)
    {
      hide GetSize, GetWords;
      ghost var e := Ftrp(bp);
      var size := GetSize(Get(Hdrp(bp))) + GetSize(Get(Hdrp(PredBlkp(bp))));
      Put(Ftrp(bp), Pack(size, 0));
      Put(Hdrp(PredBlkp(bp)), Pack(size, 0));
      r := PredBlkp(bp);
    }

    /** Case 4: both neighbours are free. */
    method CoalesceBoth(bp: nat, ghost h: Heap) returns (r: nat)
      requires 3 <= bp && Spelled() && View() == h && Pending(h, bp - 3)
      requires FreeBefore(layout, bp - 3) && FreeAfter(layout, bp - 3)
      modifies mem, `freeListp
      ensures Absorbed(h, bp - 3, old(mem[..])) && freeListp == r
    {
      hide Tagged, Linked, KeepsLive, Coalesced, Tiles, Pending, Spaced, Absorb, Roomy, MergedStamp, MergedFits,
        Spelled, Base, Nodes, OnlyLinks, IndexOf, Stamp, GetSize, GetWords, Drop2;
      ghost var p, m := bp - 3, mem[..];
      PendingFacts(p);
      ListFacts(h, p);
      PlanBoth(h, p);
      RetaggedCorrect(h, p, m);
      ghost var i, j := IndexOf(free, Pred(layout, p)), IndexOf(free, Succ(layout, p));
      var successorBp;
      ghost var m1 := MergedStamp(m, layout, p);
      BothReads(p);
      r, successorBp := WriteSizeBoth(bp, Pred(layout, p), Succ(layout, p), Succ(layout, Succ(layout, p)) - 1);
      assert mem[..] == m1;
      BaseIsPred(p);
      SpliceBoth(r, successorBp, free + [PROLOGUE], i, j);
      OnlyLinksTrans(m1, m1, mem[..], [], h.free + [PROLOGUE], [Base(h.layout, p)] + (h.free + [PROLOGUE]));
      Settle(h, p, m, m1);
    }

    /** The first step of case 4: all three blocks get one pair of tags. */
    method WriteSizeBoth(bp: nat, ghost q: nat, ghost s: nat, ghost e: nat) returns (r: nat, successorBp: nat)
      requires q < bp - 4 && bp - 3 < s < e < mem.Length && s + 3 < mem.Length
      requires PredBlkp(bp) == q + 3 && SuccBlkp(bp) == s + 3 && Ftrp(s + 3) == e
      requires GetSize(mem[bp - 3]) + (GetSize(mem[q]) + GetSize(mem[e])) < 0x1_0000_0000
      modifies mem
      ensures r == q + 3 && successorBp == s + 3
      ensures var size := old(Pack(GetSize(mem[bp - 3]) + (GetSize(mem[q]) + GetSize(mem[e])), 0));
              mem[..] == Stamp(old(mem[..]), q, e, size)
    {
      hide GetSize, GetWords;
      var size := GetSize(Get(Hdrp(bp))) + (GetSize(Get(Hdrp(PredBlkp(bp)))) + GetSize(Get(Ftrp(SuccBlkp(bp)))));
      Put(Hdrp(PredBlkp(bp)), Pack(size, 0));
      Put(Ftrp(SuccBlkp(bp)), Pack(size, 0));
      r, successorBp := PredBlkp(bp), SuccBlkp(bp);
    }

    /** Where case 4 looks. */
    lemma BothAround(p: nat)
      requires Spelled() && Pending(View(), p) && FreeBefore(layout, p) && FreeAfter(layout, p)
      ensures var q, s, e := Pred(layout, p), Succ(layout, p), Succ(layout, Succ(layout, p)) - 1;
              && q == Base(layout, p) && q < p - 1 && p < s < e < mem.Length && s + 3 < mem.Length
              && PredBlkp(p + 3) == q + 3 && SuccBlkp(p + 3) == s + 3 && Ftrp(s + 3) == e
              && GetSize(mem[p]) == 8 * layout.at[p].units && GetSize(mem[q]) == 8 * layout.at[q].units
              && GetSize(mem[e]) == 8 * layout.at[s].units
    {
      hide Spelled, Pending, Tagged, GetSize, GetWords, GetAlloc;
      PendingFacts(p);
      var s := Succ(layout, p);
      Around(p);
      Around(s);
      HeaderTag(mem[..], layout, Pred(layout, p));
      FooterTag(mem[..], layout, s);
    }

    lemma PendingFacts(p: nat)
      requires Spelled() && Pending(View(), p)
      ensures Arena() && Tagged(mem[..], layout) && Tiles(layout) && p in layout.at && 4 * layout.end < 0x1_0000_0000
      ensures layout.end < mem.Length && Roomy(layout)
      ensures Linked(mem[..], base, free + [PROLOGUE]) && freeListp == (free + [PROLOGUE])[0] + 3
    {
      hide Tagged, Linked;
    }

    lemma BaseIsPred(p: nat)
      requires Tiles(layout) && p in layout.at && FreeBefore(layout, p)
      ensures Base(layout, p) == Pred(layout, p)
    {
    }

    /** What the first step of case 4 reads, and what it should write. */
    lemma BothReads(p: nat)
      requires Spelled() && Pending(View(), p) && MergedFits(layout, p)
      requires FreeBefore(layout, p) && FreeAfter(layout, p)
      ensures var q, s, e := Pred(layout, p), Succ(layout, p), Succ(layout, Succ(layout, p)) - 1;
              && q == Base(layout, p) && q < p - 1 && p < s < e < mem.Length && s + 3 < mem.Length
              && PredBlkp(p + 3) == q + 3 && SuccBlkp(p + 3) == s + 3 && Ftrp(s + 3) == e
              && var size := Pack(GetSize(mem[p]) + (GetSize(mem[q]) + GetSize(mem[e])), 0);
                 size < 0x1_0000_0000 && MergedStamp(mem[..], layout, p) == Stamp(mem[..], q, e, size)
    {
      hide Spelled, Pending, Tiles, Tagged, Coalesced, GetSize, GetWords, GetAlloc, Stamp;
      PendingFacts(p);
      BothAround(p);
      MergedInside(View(), p);
    }

    /** What the first step of case 3 reads, and what it should write. */
    lemma PredReads(p: nat)
      requires Spelled() && Pending(View(), p) && MergedFits(layout, p)
      requires FreeBefore(layout, p) && !FreeAfter(layout, p)
      ensures var q, e := Pred(layout, p), Succ(layout, p) - 1;
              && q == Base(layout, p) && q < p - 1 && p < e < mem.Length && p + 3 < mem.Length
              && PredBlkp(p + 3) == q + 3 && Ftrp(p + 3) == e
              && var size := Pack(GetSize(mem[p]) + GetSize(mem[q]), 0);
                 size < 0x1_0000_0000 && MergedStamp(mem[..], layout, p) == Stamp(mem[..], q, e, size)
    {
      hide Spelled, Pending, Tiles, Tagged, Coalesced, GetSize, GetWords, GetAlloc, Stamp;
      PendingFacts(p);
      Around(p);
      HeaderTag(mem[..], layout, Pred(layout, p));
      MergedInside(View(), p);
    }

    /** What the first step of case 2 reads, and what it should write. */
    lemma SuccReads(p: nat)
      requires Spelled() && Pending(View(), p) && MergedFits(layout, p)
      requires !FreeBefore(layout, p) && FreeAfter(layout, p)
      ensures var s, e := Succ(layout, p), Succ(layout, Succ(layout, p)) - 1;
              && p == Base(layout, p) && p < s < e < mem.Length && p + 3 < mem.Length && SuccBlkp(p + 3) == s + 3
              && var size := Pack(GetSize(mem[p]) + GetSize(mem[s]), 0);
                 && size < 0x1_0000_0000 && GetWords(size) == e + 1 - p
                 && MergedStamp(mem[..], layout, p) == Stamp(mem[..], p, e, size)
    {
      hide Spelled, Pending, Tiles, Tagged, Coalesced, GetSize, GetWords, GetAlloc, Stamp;
      PendingFacts(p);
      Around(p);
      HeaderTag(mem[..], layout, Succ(layout, p));
      BlockBounds(layout, p);
      BlockBounds(layout, Succ(layout, p));
      MergedInside(View(), p);
      TagRead(Coalesced(layout, p).at[p]);
    }

    /** Joins the freed block `bp` with its free neighbours and puts the result on the free list. */
    method Coalesce(bp: nat) returns (r: nat)
      requires 3 <= bp && Spelled() && Pending(View(), bp - 3)
      modifies this, mem
      ensures Valid() && View() == old(Absorb(View(), bp - 3)) && brk == old(brk)
      ensures r == old(Base(layout, bp - 3)) + 3
      ensures KeepsLive(old(layout), old(mem[..]), mem[..])
    {
      hide Tagged, Linked, KeepsLive, Consistent, Coalesced, Tiles, Spaced, Lists, NoFreePairBut, Rest, Base;
      ghost var h, p := View(), bp - 3;
      ListFacts(h, p);
      AbsorbConsistent(h, p);
      r := Dispatch(bp, h);
      layout, free := Absorb(h, p).layout, Absorb(h, p).free;
    }

    /** The four-way case split of Coalesce, on the words alone. */
    method Dispatch(bp: nat, ghost h: Heap) returns (r: nat)
      requires 3 <= bp && Spelled() && View() == h && Pending(h, bp - 3)
      modifies mem, `freeListp
      ensures Absorbed(h, bp - 3, old(mem[..])) && r == freeListp
    {
      Around(bp - 3);
      var prevAlloc := GetAlloc(Get(Ftrp(PredBlkp(bp))));
      var nextAlloc := GetAlloc(Get(Hdrp(SuccBlkp(bp))));
      hide GetAlloc, GetWords, Absorbed;
      if prevAlloc != 0 && nextAlloc != 0 {
        CoalesceNone(bp, h);
        r := bp;
      } else if prevAlloc != 0 && nextAlloc == 0 {
        CoalesceSucc(bp, h);
        r := bp;
      } else if prevAlloc == 0 && nextAlloc != 0 {
        r := CoalescePred(bp, h);
      } else {
        r := CoalesceBoth(bp, h);
      }
    }

    // ---------- mm_free ----------

    /** What MmFree should write, and what that makes of the words. */
    lemma FreeReads(p: nat)
      requires Valid() && IsLive(layout, p)
      ensures var e, size: Word := Succ(layout, p) - 1, GetSize(mem[p]);
              && p < e < mem.Length && p + 3 < mem.Length
              && GetWords(size) == e + 1 - p && GetSize(mem[p]) < 0x1_0000_0000
              && Tiles(Mark(layout, p, false)) && IsFree(Mark(layout, p, false), p)
              && var m1 := Stamp(mem[..], p, e, size);
                 && Tagged(m1, Mark(layout, p, false)) && Linked(m1, base, free + [PROLOGUE])
                 && KeepsLive(Mark(layout, p, false), mem[..], m1)
    {
      hide Tagged, Linked, KeepsLive, Stamp, GetSize, GetWords, Consistent, Tiles, Lists, Nodes, Valid;
      ValidFacts();
      BlockInside(p);
      HeaderTag(mem[..], layout, p);
      TagRead(Block(layout.at[p].units, false));
      MarkTiles(layout, p, false);
      MarkTags(mem[..], base, layout, free + [PROLOGUE], p, false);
    }

    /** Takes a block back; freeing the null pointer does nothing. */
    method MmFree(bp: nat)
      requires Valid() && (bp == 0 || (3 <= bp && IsLive(layout, bp - 3)))
      modifies this, mem
      ensures Valid() && brk == old(brk)
      ensures View() == if bp == 0 then old(View()) else old(Release(View(), bp - 3))
      ensures KeepsLive(layout, old(mem[..]), mem[..])
    {
      hide Tagged, Linked, KeepsLive, Stamp, GetSize, GetWords, Consistent, Pending, Tiles, IsFree, Coalesced, Base;
      if bp == 0 {
        KeepsLiveSame(layout, mem[..]);
        return;
      }
      ghost var h, p, m := View(), bp - 3, mem[..];
      ghost var c := Mark(layout, p, false);
      MarkPending(h, p);
      FreeReads(p);
      FreeSize(bp, Succ(layout, p) - 1);
      ghost var m1 := mem[..];
      layout := c;
      var _ := Coalesce(bp);
      KeepsLiveTrans(c, m, m1, mem[..]);
      CoalesceKeepsLive(c, p, m, mem[..]);
    }

    /** The two writes of MmFree: both tags of the block now say free. */
    method FreeSize(bp: nat, ghost e: nat)
      requires 3 <= bp < mem.Length && bp - 3 < e < mem.Length
      requires GetSize(mem[bp - 3]) < 0x1_0000_0000 && GetWords(GetSize(mem[bp - 3])) == e + 4 - bp
      modifies mem
      ensures var size := old(GetSize(mem[bp - 3])); mem[..] == Stamp(old(mem[..]), bp - 3, e, size)
    {
      hide GetSize, GetWords;
      var size := GetSize(Get(Hdrp(bp)));
      Put(Hdrp(bp), Pack(size, 0));
      Put(Ftrp(bp), Pack(size, 0));
    }

    // ---------- growing the heap ----------

    method Sbrk(incr: nat) returns (r: int)
      modifies `brk
      ensures r == if old(SbrkRefuses(base, brk, incr)) then -1 else old(brk)
      ensures brk == if old(SbrkRefuses(base, brk, incr)) then old(brk) else old(brk) + incr
    {
      if SbrkRefuses(base, brk, incr) {
        return -1;
      }
      r := brk;
      brk := brk + incr;
    }

    /** What a grown heap looks like before its new last block is coalesced. */
    lemma ExtendReads(n: nat)
      requires Valid() && MIN_UNITS <= n && CanGrow(layout, n)
      ensures layout.end + 2 * n < mem.Length && 8 * n < 0x1_0000_0000 && GetWords(8 * n) == 2 * n
      ensures var m1 := ExtendStamp(mem[..], layout.end, n);
              && Tagged(m1, Extend(layout, n)) && Linked(m1, base, free + [PROLOGUE])
              && KeepsLive(layout, mem[..], m1)
      ensures Pending(Heap(Extend(layout, n), free), layout.end)
    {
      hide Tagged, Linked, KeepsLive, ExtendStamp, GetSize, GetWords, Pending, Tiles, NoFreePair, Nodes, Lists, Extend;
      TagRead(Block(n, false));
      ValidFacts();
      ExtendPending(View(), n);
      ExtendTags(mem[..], base, layout, free + [PROLOGUE], n);
    }

    lemma ValidFacts()
      requires Valid()
      ensures Arena() && Tagged(mem[..], layout) && Linked(mem[..], base, free + [PROLOGUE])
      ensures freeListp == (free + [PROLOGUE])[0] + 3 && Consistent(View())
      ensures Roomy(layout) && Nodes(layout, free + [PROLOGUE])
      ensures Tiles(layout) && layout.end < mem.Length
    {
      hide Tagged, Linked, Tiles;
    }

    /** Asks the system for more memory and makes it a free block; 0 if the system refuses. */
    method ExtendHeap(words: nat) returns (bp: nat)
      requires Valid() && 2 * MIN_UNITS - 1 <= words
      requires 4 * (words + words % 2) < 0x1_0000_0000 && !SbrkMisled(base, brk, 4 * (words + words % 2))
      modifies this, mem
      ensures Valid()
      ensures var n := (words + 1) / 2;
              if old(CanGrow(layout, n)) then
                && View() == old(Grow(View(), n)) && free != [] && bp == free[0] + 3
                && KeepsLive(old(layout), old(mem[..]), mem[..])
              else
                bp == 0 && View() == old(View()) && mem[..] == old(mem[..]) && brk == old(brk)
    {
      hide Tagged, Linked, KeepsLive, ExtendStamp, GetSize, GetWords, Pending, Tiles, Coalesced, SbrkRefuses;
      ghost var h, m, n := View(), mem[..], (words + 1) / 2;
      var size := if words % 2 == 1 then (words + 1) * 4 else words * 4;
      assert size == 8 * n;
      SbrkRight(base, brk, size);
      if CanGrow(layout, n) {
        ExtendReads(n);
      }
      var nextp := Sbrk(size);
      if nextp == -1 {
        return 0;
      }
      bp := nextp / 4 + 2;
      WriteExtension(bp, n, size);
      ghost var m1 := mem[..];
      layout := Extend(layout, n);
      bp := Coalesce(bp);
      ExtendKeepsLive(h.layout, n, m1, mem[..]);
      KeepsLiveTrans(h.layout, m, m1, mem[..]);
    }

    /** The new block's tags and the new epilogue. */
    method WriteExtension(bp: nat, ghost n: nat, size: nat)
      requires 3 <= bp && 1 <= n && bp - 3 + 2 * n < mem.Length && bp < mem.Length
      requires size == 8 * n < 0x1_0000_0000 && GetWords(size) == 2 * n
      modifies mem
      ensures mem[..] == ExtendStamp(old(mem[..]), bp - 3, n)
    {
      hide GetWords;
      Put(Hdrp(bp), Pack(size, 0));
      Put(Ftrp(bp), Pack(size, 0));
      Put(Hdrp(SuccBlkp(bp)), Pack(0, 1));
    }

    // ---------- place ----------

    /** With a remainder, the list to reach has the remainder where the split block was. */
    lemma SplitPlan(h: Heap, p: nat, n: nat)
      requires Consistent(h) && Roomy(h.layout) && p in h.free
      requires MIN_UNITS <= n && n + MIN_UNITS <= h.layout.at[p].units
      ensures var g, k, x, c := h.free + [PROLOGUE], IndexOf(h.free, p), p + 2 * n, Split(h.layout, p, n);
              && g[k] == p && (forall y <- g :: 0 < y)
              && g[k := x] == Swap(h.free, p, x) + [PROLOGUE] && Spaced(g[k := x])
              && Roomy(c) && Nodes(c, g[k := x]) && (forall y <- g[k := x] :: !IsLive(c, y))
    {
      var x, c := p + 2 * n, Split(h.layout, p, n);
      SplitTiles(h.layout, p, n);
      assert 1 !in h.layout.at && 0 !in h.layout.at && x != 1;
      SwapCorrect(h.free, p, x);
      FreeNodes(Swap(h.free, p, x), c);
    }

    lemma FreeNodes(f: seq<nat>, c: Layout)
      requires Roomy(c) && NoDup(f) && (forall y <- f :: IsFree(c, y))
      ensures Spaced(f + [PROLOGUE])
      ensures Nodes(c, f + [PROLOGUE])
      ensures forall y <- f + [PROLOGUE] :: !IsLive(c, y)
    {
      forall i | 0 <= i < |f| ensures f[i] != PROLOGUE {
        assert f[i] in f && IsFree(c, f[i]) && c.first <= f[i];
      }
      DistinctSpaced(c, f + [PROLOGUE]);
    }

    /** The words Place writes when it leaves a remainder. */
    method PlaceSplit(bp: nat, asize: nat, csize: nat, ghost n: nat, ghost c: Layout, ghost f: seq<nat>)
      requires Valid() && 3 <= bp && bp - 3 in free && IsFree(layout, bp - 3) && MIN_UNITS <= n && asize == 8 * n
      requires csize == 8 * layout.at[bp - 3].units && n + MIN_UNITS <= layout.at[bp - 3].units
      requires c == Split(layout, bp - 3, n) && f == Swap(free, bp - 3, bp - 3 + 2 * n)
      modifies mem, `freeListp
      ensures Tagged(mem[..], c) && Linked(mem[..], base, f + [PROLOGUE]) && freeListp == (f + [PROLOGUE])[0] + 3
      ensures KeepsLive(layout, old(mem[..]), mem[..])
    {
      hide Tagged, Linked, KeepsLive, SplitStamp, GetSize, GetWords, Consistent, Tiles, Lists, Spaced, OnlyLinks,
        Nodes, Roomy, Split, IndexOf, Valid;
      ghost var p, m, g := bp - 3, mem[..], free + [PROLOGUE];
      ghost var k := IndexOf(free, p);
      ValidFacts();
      SplitReads(p, n, c);
      SplitPlan(View(), p, n);
      ghost var h := g[k := p + 2 * n];
      assert Spaced(h) && Nodes(c, h) && h == f + [PROLOGUE];
      var remainingBp := WriteSplit(bp, asize, csize, n, layout);
      ghost var m1 := mem[..];
      assert remainingBp - 3 == p + 2 * n;
      SpliceIn(bp, remainingBp, g, k);
      LinksKeepTags(m1, c, c, h, mem[..]);
      LinksKeepLive(m1, c, h, mem[..]);
      FewerKeepLive(layout, c, m1, mem[..]);
      KeepsLiveTrans(layout, m, m1, mem[..]);
    }

    /** What the tags of a split make of the words. */
    lemma SplitReads(p: nat, n: nat, c: Layout)
      requires Valid() && IsFree(layout, p) && MIN_UNITS <= n && n + MIN_UNITS <= layout.at[p].units
      requires c == Split(layout, p, n)
      ensures Succ(layout, p) + 3 <= mem.Length && layout.min == MIN_UNITS
      ensures 8 * layout.at[p].units + 1 < 0x1_0000_0000 && GetWords(8 * n + 1) == 2 * n
      ensures GetWords(8 * (layout.at[p].units - n)) == 2 * (layout.at[p].units - n)
      ensures var m1 := SplitStamp(mem[..], layout, p, n);
              Tagged(m1, c) && Linked(m1, base, free + [PROLOGUE]) && KeepsLive(layout, mem[..], m1)
      ensures Coarser(c, c) && (forall q :: IsLive(layout, q) ==> q in c.at && c.at[q] == layout.at[q])
    {
      hide Tagged, Linked, KeepsLive, SplitStamp, GetSize, GetWords, Consistent, Tiles, Lists, Nodes, Split, Valid,
        Coarser;
      ValidFacts();
      BlockInside(p);
      TagRead(Block(n, true));
      TagRead(Block(layout.at[p].units - n, false));
      SplitTiles(layout, p, n);
      SplitTags(mem[..], base, layout, free + [PROLOGUE], p, n);
      SplitKeeps(layout, p, n);
    }

    lemma BlockInside(p: nat)
      requires Valid() && p in layout.at
      ensures 3 < p + 3 < Succ(layout, p) <= layout.end && Succ(layout, p) + 3 <= mem.Length
      ensures 8 * layout.at[p].units + 1 < 0x1_0000_0000
    {
      hide Tagged, Linked;
    }

    /** The tags of both halves. */
    method WriteSplit(bp: nat, asize: nat, csize: nat, ghost n: nat, ghost l: Layout) returns (remainingBp: nat)
      requires 3 <= bp && bp - 3 in l.at && 1 <= l.min <= n && n + l.min <= l.at[bp - 3].units
      requires Succ(l, bp - 3) + 3 <= mem.Length && 8 * l.at[bp - 3].units + 1 < 0x1_0000_0000
      requires asize == 8 * n && csize == 8 * l.at[bp - 3].units
      requires GetWords(asize + 1) == 2 * n && GetWords(csize - asize) == 2 * (l.at[bp - 3].units - n)
      modifies mem
      ensures mem[..] == SplitStamp(old(mem[..]), l, bp - 3, n) && remainingBp == bp + 2 * n
    {
      hide GetSize, GetWords;
      var allocatedBp := bp;
      Put(Hdrp(allocatedBp), Pack(asize, 1));
      Put(Ftrp(allocatedBp), Pack(asize, 1));
      remainingBp := SuccBlkp(allocatedBp);
      Put(Hdrp(remainingBp), Pack(csize - asize, 0));
      Put(Ftrp(remainingBp), Pack(csize - asize, 0));
    }

    /** The words Place writes when it hands out the whole block. */
    method PlaceWhole(bp: nat, csize: nat, ghost c: Layout, ghost f: seq<nat>)
      requires Valid() && 3 <= bp && bp - 3 in free && IsFree(layout, bp - 3) && csize == 8 * layout.at[bp - 3].units
      requires c == Mark(layout, bp - 3, true) && f == Without(free, bp - 3)
      modifies mem, `freeListp
      ensures Tagged(mem[..], c) && Linked(mem[..], base, f + [PROLOGUE]) && freeListp == (f + [PROLOGUE])[0] + 3
      ensures KeepsLive(layout, old(mem[..]), mem[..])
    {
      hide Tagged, Linked, KeepsLive, Stamp, GetSize, GetWords, Consistent, Tiles, Lists, Spaced, OnlyLinks,
        Nodes, Roomy, Mark, IndexOf, Valid, Coarser;
      ghost var p, m, g := bp - 3, mem[..], free + [PROLOGUE];
      ghost var k := IndexOf(free, p);
      ValidFacts();
      WholeReads(p, c);
      WholePlan(View(), p);
      WriteWhole(bp, csize, Succ(layout, p) - 1);
      ghost var m1 := mem[..];
      SpliceOut(bp, g, k);
      LinksKeepTags(m1, layout, c, g, mem[..]);
      LinksKeepLive(m1, layout, g, mem[..]);
      KeepsLiveTrans(layout, m, m1, mem[..]);
    }

    /** Without a remainder, the list to reach is the old one without the block. */
    lemma WholePlan(h: Heap, p: nat)
      requires Consistent(h) && Roomy(h.layout) && p in h.free
      ensures var g, k := h.free + [PROLOGUE], IndexOf(h.free, p);
              && g[k] == p && (forall y <- g :: 0 < y && !IsLive(h.layout, y))
              && Drop(g, k) == Without(h.free, p) + [PROLOGUE]
    {
      assert 1 !in h.layout.at && 0 !in h.layout.at;
    }

    /** What the tags of a block handed out whole make of the words. */
    lemma WholeReads(p: nat, c: Layout)
      requires Valid() && IsFree(layout, p) && c == Mark(layout, p, true)
      ensures 3 < p + 3 < Succ(layout, p) < mem.Length && 8 * layout.at[p].units + 1 < 0x1_0000_0000
      ensures GetWords(8 * layout.at[p].units + 1) == 2 * layout.at[p].units
      ensures var m1 := Stamp(mem[..], p, Succ(layout, p) - 1, 8 * layout.at[p].units + 1);
              Tagged(m1, c) && Linked(m1, base, free + [PROLOGUE]) && KeepsLive(layout, mem[..], m1)
      ensures Coarser(layout, c)
    {
      hide Tagged, Linked, KeepsLive, Stamp, GetSize, GetWords, Consistent, Tiles, Lists, Nodes, Valid, Coarser;
      ValidFacts();
      BlockInside(p);
      TagRead(Block(layout.at[p].units, true));
      MarkCoarser(layout, p, true);
      MarkTags(mem[..], base, layout, free + [PROLOGUE], p, true);
      assert Mark(layout, p, false) == layout;
    }

    method WriteWhole(bp: nat, csize: nat, ghost e: nat)
      requires 3 <= bp < mem.Length && bp - 3 < e < mem.Length
      requires csize + 1 < 0x1_0000_0000 && GetWords(csize + 1) == e + 4 - bp
      modifies mem
      ensures mem[..] == Stamp(old(mem[..]), bp - 3, e, csize + 1)
    {
      hide GetSize, GetWords;
      Put(Hdrp(bp), Pack(csize, 1));
      Put(Ftrp(bp), Pack(csize, 1));
    }

    /** Hands out the first `asize` bytes of free block `bp`, splitting it if the rest can stand alone. */
    method Place(bp: nat, asize: nat)
      requires Valid() && 3 <= bp && bp - 3 in free && asize % 8 == 0 && 8 * MIN_UNITS <= asize
      requires Fits(layout, bp - 3, asize / 8)
      modifies this, mem
      ensures Valid() && View() == old(Placed(View(), bp - 3, asize / 8)) && brk == old(brk)
      ensures KeepsLive(old(layout), old(mem[..]), mem[..])
    {
      hide Tagged, Linked, KeepsLive, GetSize, GetWords, Consistent, Tiles, Lists;
      ghost var h, p, n := View(), bp - 3, asize / 8;
      ghost var h' := Placed(h, p, n);
      ValidFacts();
      ListedFree(h, p);
      Around(p);
      PlaceConsistent(h, p, n);
      var csize := GetSize(Get(Hdrp(bp)));
      if csize - asize >= 8 * MIN_UNITS {
        PlaceSplit(bp, asize, csize, n, h'.layout, h'.free);
      } else {
        PlaceWhole(bp, csize, h'.layout, h'.free);
      }
      layout, free := h'.layout, h'.free;
    }

    // ---------- mm_malloc ----------

    /** What the scan of the free list reads at its `i`th node. */
    lemma NodeReads(i: nat)
      requires Valid() && i <= |free|
      ensures 3 < (free + [PROLOGUE])[i] + 3 < mem.Length
      ensures i < |free| ==>
                && IsFree(layout, free[i]) && MIN_UNITS <= layout.at[free[i]].units
                && GetSize(mem[free[i]]) == 8 * layout.at[free[i]].units < 0x7FFF_FFFF && GetAlloc(mem[free[i]]) == 0
                && Index(base, mem[free[i] + 1]) == (free + [PROLOGUE])[i + 1]
      ensures i == |free| ==> GetSize(mem[PROLOGUE]) == QSIZE
    {
      hide GetSize, GetWords, GetAlloc, Linked, Consistent, Valid;
      var g := free + [PROLOGUE];
      ValidFacts();
      assert forall x <- g :: 0 < x;
      ReadLinks(mem[..], base, g, i);
      SentinelTags(5);
      if i < |free| {
        ListedFree(View(), free[i]);
        HeaderTag(mem[..], layout, free[i]);
        BlockInside(free[i]);
      }
    }

    /** The two variables of the scan, when it has settled on `fit` so far. */
    ghost predicate Tracks(fit: Option<nat>, bestBp: nat, diff: nat, asize: nat)
      reads this
    {
      if fit.Some? then
        Fits(layout, fit.value, asize / 8) && bestBp == fit.value + 3 && diff == 8 * layout.at[fit.value].units - asize
      else
        bestBp == 0 && diff == MAX_INT
    }

    lemma TrackEnds(bestBp: nat, diff: nat, asize: nat)
      ensures Tracks(BestFit(layout, [], asize / 8), 0, MAX_INT, asize)
      ensures var fit := BestFit(layout, free, asize / 8);
              Tracks(fit, bestBp, diff, asize) ==> bestBp == if fit.Some? then fit.value + 3 else 0
    {
    }

    lemma TrackStep(i: nat, bestBp: nat, diff: nat, asize: nat)
      requires asize % 8 == 0 && i < |free| && free[i] in layout.at && 8 * layout.at[free[i]].units < MAX_INT
      requires Tracks(BestFit(layout, free[..i], asize / 8), bestBp, diff, asize)
      ensures var size := 8 * layout.at[free[i]].units;
              if asize <= size && size - asize < diff
              then Tracks(BestFit(layout, free[..i + 1], asize / 8), free[i] + 3, size - asize, asize)
              else Tracks(BestFit(layout, free[..i + 1], asize / 8), bestBp, diff, asize)
    {
      hide BestFit;
      BestFitStep(layout, free, i, asize / 8);
    }

    /** The body of the scan: a block that fits better than the best so far takes its place. */
    method Consider(bp: nat, asize: nat, bestBp: nat, diff: nat, ghost i: nat) returns (best: nat, d: nat)
      requires Valid() && asize % 8 == 0 && i < |free| && bp == free[i] + 3 < mem.Length
      requires Tracks(BestFit(layout, free[..i], asize / 8), bestBp, diff, asize)
      ensures Tracks(BestFit(layout, free[..i + 1], asize / 8), best, d, asize)
    {
      hide GetSize, GetWords, GetAlloc, Valid, Index, BestFit, Tracks;
      NodeReads(i);
      TrackStep(i, bestBp, diff, asize);
      best, d := bestBp, diff;
      if GetAlloc(Get(Hdrp(bp))) == 0 && asize <= GetSize(Get(Hdrp(bp))) {
        if GetSize(Get(Hdrp(bp))) - asize < diff {
          best := bp;
          d := GetSize(Get(Hdrp(bp))) - asize;
        }
      }
    }

    /** Best fit: scans the whole list, and keeps the first of the smallest blocks that fit. */
    method FindFit(asize: nat) returns (bestBp: nat)
      requires Valid() && asize % 8 == 0
      ensures var fit := BestFit(layout, free, asize / 8); bestBp == if fit.Some? then fit.value + 3 else 0
    {
      hide GetSize, GetWords, GetAlloc, Valid, Index, BestFit, Tagged, Linked, Consistent, Roomy, Nodes, Arena, Tracks;
      ghost var g, i := free + [PROLOGUE], 0;
      ValidFacts();
      bestBp := 0;
      var diff: nat := MAX_INT;
      var bp := freeListp;
      NodeReads(0);
      TrackEnds(0, 0, asize);
      assert free[..0] == [];
      while GetSize(Get(Hdrp(bp))) > QSIZE
        invariant 0 <= i <= |free| && bp == g[i] + 3 < mem.Length
        invariant Tracks(BestFit(layout, free[..i], asize / 8), bestBp, diff, asize)
        decreases |free| - i
      {
        NodeReads(i);
        assert i < |free|;
        NodeReads(i + 1);
        bestBp, diff := Consider(bp, asize, bestBp, diff, i);
        bp := NextBlkp(bp);
        i := i + 1;
      }
      NodeReads(i);
      assert free[..|free|] == free;
      TrackEnds(bestBp, diff, asize);
    }

    /** Allocates a block for `size` bytes; 0 if there is none, or if `size` is 0. */
    method MmMalloc(size: nat) returns (bp: nat)
      requires Valid() && InReach(base, View(), size)
      modifies this, mem
      ensures Valid()
      ensures var r := old(Malloc(View(), size));
              View() == r.0 && bp == if r.1.Some? then r.1.value + 3 else 0
      ensures KeepsLive(old(layout), old(mem[..]), mem[..])
      ensures bp == 0 ==> mem[..] == old(mem[..]) && brk == old(brk)
    {
      hide Valid, KeepsLive, Consistent, Placed, Grow, BestFit, AdjustedSize, SbrkMisled, Tagged, Linked, Arena,
        Roomy, Nodes;
      ValidFacts();
      if size == 0 {
        KeepsLiveSame(layout, mem[..]);
        return 0;
      }
      AdjustedSizeFits(size);
      NeedFits(size);
      WrappedRequest(size);
      var asize := AdjustedSize(size);
      bp := FindFit(asize);
      if bp != 0 {
        Place(bp, asize);
        return;
      }
      var extendsize := Max(asize, CHUNKSIZE);
      ghost var h, m, n := View(), mem[..], Max(Units(size), CHUNK_UNITS);
      assert extendsize == 8 * n;
      if CanGrow(layout, n) {
        GrowFits(h, n);
      }
      BrkAtEnd();
      WholeWords(extendsize, n);
      bp := ExtendHeap(extendsize / 4);
      if bp == 0 {
        KeepsLiveSame(layout, m);
        return;
      }
      ghost var m1, g := mem[..], View();
      Place(bp, asize);
      GrowKeepsLive(h, n, m1, mem[..]);
      KeepsLiveTrans(h.layout, m, m1, mem[..]);
    }

    /** When the rounding wraps, the smaller size is not found either, and the heap cannot grow. */
    lemma WrappedRequest(size: nat)
      requires Valid() && InReach(base, View(), size)
      ensures size >= 0x1_0000_0000 - 23 ==>
                var n := Max(Units(size), CHUNK_UNITS);
                && BestFit(layout, free, Units(size)).None? && !CanGrow(layout, n) && !SbrkMisled(base, brk, 8 * n)
                && Malloc(View(), size) == (View(), None)
    {
      hide Tagged, Linked, Consistent, BestFit, AdjustedSize, Malloc;
      if size >= 0x1_0000_0000 - 23 {
        AdjustedSizeFits(size);
        ValidFacts();
        BrkAtEnd();
        WrappedRefused(View(), size);
        SbrkRight(base, brk, 8 * Max(Units(size), CHUNK_UNITS));
      }
    }

    lemma BrkAtEnd()
      requires Valid()
      ensures brk == 4 * (layout.end + 1)
    {
    }

    /** What is live before the heap grows is live afterwards. */
    lemma GrowKeepsLive(h: Heap, n: nat, m: seq<Word>, m': seq<Word>)
      requires Consistent(h) && MIN_UNITS <= n && KeepsLive(Grow(h, n).layout, m, m')
      ensures KeepsLive(h.layout, m, m')
    {
      var e := Extend(h.layout, n);
      ExtendTiles(h.layout, n);
      CoalesceSameLive(e, h.layout.end);
      hide KeepsLive, Tiles, Coalesced, Consistent, Base, FreeBefore;
      FewerKeepLive(e, Coalesced(e, h.layout.end), m, m');
      ExtendKeepsLive(h.layout, n, m, m');
    }

    // ---------- mm_realloc ----------

    /** Where MmRealloc copies to and from: the target lies inside the new payload, and the two
        stretches do not overlap, although the size is that of the old block with its overhead. */
    lemma CopyReads(p: nat, q: nat, size: nat)
      requires Valid() && IsLive(layout, p) && IsLive(layout, q) && p != q && size + 16 <= 8 * layout.at[q].units
      ensures GetSize(mem[p]) == 8 * layout.at[p].units
      ensures var n := if size < 8 * layout.at[p].units then size else 8 * layout.at[p].units;
              && q + 3 + (n + 3) / 4 <= Succ(layout, q) - 1 < mem.Length && p + 3 + (n + 3) / 4 <= mem.Length
              && (q + 3 + (n + 3) / 4 <= p + 3 || p + 3 + (n + 3) / 4 <= q + 3)
    {
      hide Tagged, Linked, Valid, Consistent, GetSize, Chained;
      ValidFacts();
      HeaderTag(mem[..], layout, p);
      BlockInside(p);
      BlockInside(q);
    }

    /** The copying step of MmRealloc. */
    method CopyOld(newptr: nat, ptr: nat, size: nat)
      requires Valid() && 3 <= ptr && IsLive(layout, ptr - 3) && 3 <= newptr && IsLive(layout, newptr - 3)
      requires newptr != ptr && size + 16 <= 8 * layout.at[newptr - 3].units
      modifies mem
      ensures Valid()
      ensures KeepsLive(Mark(layout, newptr - 3, false), old(mem[..]), mem[..])
      ensures forall j :: 0 <= j < size && j < 8 * layout.at[ptr - 3].units ==>
                newptr + j / 4 < mem.Length && ptr + j / 4 < mem.Length
                && ByteAt(mem[..], newptr, j) == old(ByteAt(mem[..], ptr, j))
    {
      hide Tagged, Linked, KeepsLive, ByteAt, GetSize, Consistent, Arena, Nodes;
      ghost var m, g := mem[..], free + [PROLOGUE];
      ValidFacts();
      CopyReads(ptr - 3, newptr - 3, size);
      NodesNotLive();
      var oldsize := GetSize(Get(Hdrp(ptr)));
      if size < oldsize {
        oldsize := size;
      }
      Memcpy(mem, newptr, ptr, oldsize);
      PayloadWrite(m, base, layout, g, newptr - 3, mem[..]);
    }

    lemma NodesNotLive()
      requires Valid()
      ensures forall x <- free + [PROLOGUE] :: !IsLive(layout, x)
    {
      hide Tagged, Linked;
    }

    /** Resizes a block by allocating, copying and freeing. The new block starts with the bytes of the
        old one; if there is no room, nothing changes. */
    method MmRealloc(ptr: nat, size: nat) returns (newptr: nat)
      requires Valid() && (ptr == 0 || (3 <= ptr && IsLive(layout, ptr - 3)))
      requires InReach(base, View(), size)
      modifies this, mem
      ensures Valid()
      ensures var r := old(Realloc(View(), if ptr == 0 then None else Some(ptr - 3), size));
              View() == r.0 && newptr == if r.1.Some? then r.1.value + 3 else 0
      ensures size != 0 && newptr == 0 ==> mem[..] == old(mem[..])
      ensures newptr != 0 && ptr != 0 ==>
                forall j :: 0 <= j < size && j < old(8 * layout.at[ptr - 3].units) - 16 ==>
                  newptr + j / 4 < mem.Length && ptr + j / 4 < mem.Length
                  && ByteAt(mem[..], newptr, j) == old(ByteAt(mem[..], ptr, j))
      ensures KeepsLive(if ptr == 0 then old(layout) else Mark(old(layout), ptr - 3, false), old(mem[..]), mem[..])
    {
      hide Valid, KeepsLive, Consistent, Malloc, Release, HandsOut, ByteAt, Tagged, Linked, Arena, Nodes, Roomy, Tiles;
      ghost var h, m := View(), mem[..];
      ValidFacts();
      if size == 0 {
        MmFree(ptr);
        if ptr != 0 {
          ReleaseKeeps(h, ptr - 3);
          ReleasedKeeps(h.layout, layout, ptr - 3, m, mem[..]);
        }
        return 0;
      }
      if ptr == 0 {
        newptr := MmMalloc(size);
        return;
      }
      newptr := MmMalloc(size);
      MallocCorrect(h, size);
      if newptr == 0 {
        FewerKeepLive(Mark(h.layout, ptr - 3, false), h.layout, m, mem[..]);
        return;
      }
      ghost var h1, m1 := View(), mem[..];
      StillLive(h.layout, h1.layout, newptr - 3, ptr - 3);
      OldPayload(h, ptr - 3);
      CopyOld(newptr, ptr, size);
      ghost var m2 := mem[..];
      MmFree(ptr);
      ValidFacts();
      ReleaseKeeps(h1, ptr - 3);
      MovedKeeps(h.layout, h1.layout, layout, newptr - 3, ptr - 3, m, m1, m2, mem[..]);
      BytesKept(layout, newptr - 3, newptr, size, m2, mem[..]);
      BytesKept(h.layout, ptr - 3, ptr, 8 * h.layout.at[ptr - 3].units - 16, m, m1);
    }

    lemma OldPayload(h: Heap, p: nat)
      requires Consistent(h) && p in h.layout.at
      ensures Tiles(h.layout) && 16 <= 8 * h.layout.at[p].units
    {
    }

    // ---------- mm_init ----------

    constructor (base: nat)
      ensures this.base == base && mem.Length == ARENA_WORDS && fresh(mem) && brk == 0
    {
      this.base := base;
      mem := new Word[ARENA_WORDS](_ => 0);
      brk, heapListp, freeListp := 0, 0, 0;
      layout, free := Empty().layout, Empty().free;
    }

    /** Lays out prologue and epilogue on an arena of which nothing is in use, and one free block. */
    method MmInit() returns (r: int)
      requires mem.Length == ARENA_WORDS && base % 8 == 0 && base + 4 * ARENA_WORDS <= 0x1_0000_0000 && brk == 0
      modifies this, mem
      ensures r == 0 && Valid() && View() == Initial()
    {
      hide Grow, Consistent, Tagged, Linked;
      SbrkRight(base, brk, 6 * 4);
      var p := Sbrk(6 * 4);
      heapListp := p / 4;
      Put(heapListp, 0);
      Put(heapListp + 1, Pack(QSIZE, 1));
      Put(heapListp + 2, 0);
      Put(heapListp + 3, 0);
      Put(heapListp + 4, Pack(QSIZE, 1));
      Put(heapListp + 5, Pack(0, 1));
      heapListp := heapListp + 4;
      freeListp := heapListp;
      layout, free := Empty().layout, Empty().free;
      EmptyConsistent();
      EmptySpelled(mem[..], base);
      assert CanGrow(layout, CHUNK_UNITS) && (CHUNKSIZE / 4 + 1) / 2 == CHUNK_UNITS;
      var bp := ExtendHeap(CHUNKSIZE / 4);
      r := if bp == 0 then -1 else 0;
    }

    lemma EmptySpelled(m: seq<Word>, base: nat)
      requires |m| == ARENA_WORDS
      requires m[1] == m[4] == 17 && m[3] == 0 && m[5] == 1
      ensures Tagged(m, Empty().layout) && Linked(m, base, Empty().free + [PROLOGUE])
    {
    }
  }
}
