/** Runs on the words: a list of operations of a client, served by the explicit allocator itself. */
module ExplicitReplay {
  import opened Basics
  import opened Blocks
  import opened Memlib
  import opened Memory
  import opened Retagging
  import FreeList
  import opened ExplicitHeap
  import opened ExplicitAllocator
  import opened Requests
  import opened ExplicitRuns

  function Pointer(p: Option<nat>): nat {
    if p.Some? then p.value + BEFORE else 0
  }

  /** No arithmetic goes wrong when the operation is served. */
  ghost predicate Reaches(base: nat, s: State, op: Op)
    requires Good(s)
  {
    match op
    case Malloc(size) => InReach(base, s.heap, size)
    case Realloc(_, size) => InReach(base, s.heap, size)
    case _ => true
  }

  ghost predicate ReachesAll(base: nat, s: State, ops: seq<Op>)
    requires Good(s) && LegalRun(s, ops)
    decreases |ops|
  {
    ops == [] ||
    (Reaches(base, s, ops[0]) && (StepGood(s, ops[0]); ReachesAll(base, Step(s, ops[0]).0, ops[1..])))
  }

  /** The words of a heap that has served the operations that led to `s`. */
  ghost predicate At(a: Allocator, s: State)
    reads a, a.mem
  {
    a.Valid() && Good(s) && s.heap == a.View() && Remembers(s.client, a.mem[..], BEFORE)
  }

  /** The client writes one byte of a payload. */
  method WriteByte(a: Allocator, p: nat, offset: nat, byte: nat)
    requires a.Valid() && IsLive(a.layout, p) && offset + 16 < 8 * a.layout.at[p].units && byte < 0x100
    modifies a.mem
    ensures a.Valid() && KeepsLive(Mark(a.layout, p, false), old(a.mem[..]), a.mem[..])
    ensures OneByte(old(a.mem[..]), a.mem[..], p + BEFORE, 8 * a.layout.at[p].units - 16, offset, byte)
  {
    hide KeepsLive, Tagged, Consistent, ByteOf, SetByte, FreeList.Linked;
    ghost var m := a.mem[..];
    a.ValidFacts();
    a.BlockInside(p);
    a.NodesNotLive();
    var i := p + BEFORE + offset / 4;
    a.mem[i] := SetByte(a.mem[i], offset % 4, byte);
    FreeList.PayloadWrite(m, a.base, a.layout, a.free + [PROLOGUE], p, a.mem[..]);
    ByteWritten(m, a.mem[..], p + BEFORE, 8 * a.layout.at[p].units - 16, offset, byte);
  }

  lemma HeapFacts(s: State)
    requires Good(s)
    ensures Tiles(s.heap.layout) && 4 * (s.heap.layout.end + 1) <= HEAP_BYTES
  {
    hide Tiles, Owns;
  }

  method ServeMalloc(a: Allocator, size: nat, ghost s: State) returns (r: nat)
    requires At(a, s) && InReach(a.base, s.heap, size)
    modifies a, a.mem
    ensures a.Valid() && (a.View(), r) == (Step(s, Malloc(size)).0.heap, Pointer(Step(s, Malloc(size)).1))
    ensures Remembers(Step(s, Malloc(size)).0.client, a.mem[..], BEFORE)
    ensures KeepsLive(s.heap.layout, old(a.mem[..]), a.mem[..])
  {
    hide Consistent, ExplicitHeap.Malloc, a.Valid, Tagged, a.Arena, FreeList.Linked, FreeList.Nodes, FreeList.Roomy,
      KeepsLive, Remembers, Owns, Lost, Gained, Tiles;
    ghost var m := a.mem[..];
    HeapFacts(s);
    a.ValidFacts();
    r := a.MmMalloc(size);
    OthersRemember(s.client, s.heap.layout, s.heap.layout, BEFORE, MOST, None, m, a.mem[..]);
    NothingLost(s.client);
    ghost var p := ExplicitHeap.Malloc(s.heap, size).1;
    if p.Some? {
      NothingCarried(s.client, size, a.mem[..], p.value + BEFORE);
      GainedRemembers(s.client, a.mem[..], BEFORE, p.value, size, map[]);
    }
  }

  method ServeFree(a: Allocator, p: Option<nat>, ghost s: State)
    requires At(a, s) && (p.Some? ==> p.value in s.client.asked)
    modifies a, a.mem
    ensures a.Valid() && a.View() == Step(s, Free(p)).0.heap
    ensures Remembers(Step(s, Free(p)).0.client, a.mem[..], BEFORE)
    ensures KeepsLive(a.layout, old(a.mem[..]), a.mem[..])
  {
    hide Consistent, Release, a.Valid, Tagged, a.Arena, FreeList.Linked, FreeList.Nodes, FreeList.Roomy, KeepsLive,
      Remembers, Owns, Lost, Tiles;
    ghost var l, m := a.layout, a.mem[..];
    HeapFacts(s);
    a.ValidFacts();
    if p.Some? {
      OwnedLive(s.client, s.heap.layout, BEFORE, MOST, p.value);
      ReleaseKeeps(s.heap, p.value);
    }
    a.MmFree(Pointer(p));
    OthersRemember(s.client, l, a.layout, BEFORE, MOST, p, m, a.mem[..]);
  }

  method ServeRealloc(a: Allocator, p: Option<nat>, size: nat, ghost s: State) returns (r: nat)
    requires At(a, s) && Legal(s.client, Realloc(p, size)) && InReach(a.base, s.heap, size)
    modifies a, a.mem
    ensures a.Valid() && (p.Some? ==> IsLive(s.heap.layout, p.value))
    ensures (a.View(), r) == (Step(s, Realloc(p, size)).0.heap, Pointer(Step(s, Realloc(p, size)).1))
    ensures Remembers(Step(s, Realloc(p, size)).0.client, a.mem[..], BEFORE)
    ensures KeepsLive(if p.Some? then Mark(s.heap.layout, p.value, false) else s.heap.layout, old(a.mem[..]), a.mem[..])
  {
    hide Consistent, ExplicitHeap.Realloc, a.Valid, Tagged, a.Arena, FreeList.Linked, FreeList.Nodes, FreeList.Roomy,
      KeepsLive, Remembers, Owns, Lost, Gained, Carried, Tiles, ByteAt;
    ghost var l, m := s.heap.layout, a.mem[..];
    HeapFacts(s);
    a.ValidFacts();
    if p.Some? {
      OwnedLive(s.client, s.heap.layout, BEFORE, MOST, p.value);
    }
    r := a.MmRealloc(Pointer(p), size);
    OthersRemember(s.client, l, if p.Some? then Mark(l, p.value, false) else l, BEFORE, MOST, p, m, a.mem[..]);
    ghost var q := ExplicitHeap.Realloc(s.heap, p, size).1;
    if q.Some? && size != 0 {
      if p.Some? {
        CarriedRemembers(s.client, l, BEFORE, MOST, p.value, q.value, size, m, a.mem[..]);
      } else {
        NothingCarried(s.client, size, a.mem[..], q.value + BEFORE);
      }
      GainedRemembers(Lost(s.client, p), a.mem[..], BEFORE, q.value, size, Carried(s.client, p, size));
    } else if size != 0 {
      assert a.mem[..] == m;
    }
  }

  method ServeWrite(a: Allocator, p: nat, offset: nat, byte: nat, ghost s: State)
    requires At(a, s) && Legal(s.client, Write(p, offset, byte))
    modifies a.mem
    ensures a.Valid() && a.View() == s.heap
    ensures Remembers(Step(s, Write(p, offset, byte)).0.client, a.mem[..], BEFORE)
    ensures IsLive(s.heap.layout, p) && KeepsLive(Mark(s.heap.layout, p, false), old(a.mem[..]), a.mem[..])
  {
    hide Consistent, a.Valid, Tagged, a.Arena, FreeList.Linked, FreeList.Nodes, FreeList.Roomy, KeepsLive, Remembers,
      Owns, Tiles, OneByte;
    ghost var m := a.mem[..];
    HeapFacts(s);
    a.ValidFacts();
    OwnedLive(s.client, s.heap.layout, BEFORE, MOST, p);
    WriteByte(a, p, offset, byte);
    WriteRemembers(s.client, s.heap.layout, BEFORE, MOST, p, offset, byte, m, a.mem[..]);
  }

  /** Serves one operation. The pointer returned is the one the model predicts; the client's blocks hold what
      it has written to them; and a block that the operation does not name keeps all its words. */
  method Serve(a: Allocator, op: Op, ghost s: State) returns (r: nat)
    requires At(a, s) && Legal(s.client, op) && Reaches(a.base, s, op)
    modifies a, a.mem
    ensures At(a, Step(s, op).0) && r == Pointer(Step(s, op).1)
    ensures forall p :: IsLive(s.heap.layout, p) && !Names(op, p) ==>
                          Untouched(s.heap.layout, old(a.mem[..]), a.layout, a.mem[..], p)
  {
    hide Consistent, Release, ExplicitHeap.Malloc, ExplicitHeap.Realloc, a.Valid, KeepsLive, Untouched, Remembers,
      Owns, After;
    ghost var l, m := a.layout, a.mem[..];
    ghost var d := l;
    r := 0;
    match op {
      case Malloc(size) =>
        r := ServeMalloc(a, size, s);
      case Free(p) =>
        ServeFree(a, p, s);
        d := a.layout;
      case Realloc(p, size) =>
        r := ServeRealloc(a, p, size, s);
        d := if p.Some? then Mark(l, p.value, false) else l;
      case Write(p, offset, byte) =>
        ServeWrite(a, p, offset, byte, s);
        d := Mark(l, p, false);
    }
    StepGood(s, op);
    forall p | IsLive(l, p) && !Names(op, p) ensures Untouched(l, m, a.layout, a.mem[..], p) {
      StepKeeps(s, op, p);
      KeptUntouched(l, d, m, a.layout, a.mem[..], p);
    }
  }

  /** Serves a list of operations: the heap ends up as the run predicts, every block holds what the client has
      written to it, whatever else was requested in between, and a block that no operation named has all its
      words. */
  method Replay(a: Allocator, ops: seq<Op>, ghost s: State)
    requires Good(s) && At(a, s) && LegalRun(s, ops) && ReachesAll(a.base, s, ops)
    modifies a, a.mem
    ensures At(a, Run(s, ops))
    ensures forall p :: IsLive(s.heap.layout, p) && (forall op <- ops :: !Names(op, p)) ==>
                          Untouched(s.heap.layout, old(a.mem[..]), a.layout, a.mem[..], p)
    decreases |ops|
  {
    hide Step, Legal, Reaches, Good, a.Valid, Remembers;
    if ops == [] {
      return;
    }
    StepGood(s, ops[0]);
    var _ := Serve(a, ops[0], s);
    Replay(a, ops[1..], Step(s, ops[0]).0);
  }

  /** A heap set up from nothing, and any list of operations on it: at the end every block holds what the client
      has written to it, and is well placed. */
  method FromStart(base: nat, ops: seq<Op>) returns (a: Allocator)
    requires base % 8 == 0 && base + 4 * ARENA_WORDS <= 0x1_0000_0000
    requires LegalRun(Start(), ops) && ReachesAll(base, Start(), ops)
    ensures fresh(a) && fresh(a.mem) && a.base == base && At(a, Run(Start(), ops))
    ensures forall p <- Run(Start(), ops).client.asked ::
              WellPlaced(Run(Start(), ops).client, a.layout, base, BEFORE, p)
  {
    hide Good, LegalRun, ReachesAll, Consistent, a.Valid, Run, WellPlaced;
    a := new Allocator(base);
    var _ := a.MmInit();
    Replay(a, ops, Start());
    forall p <- Run(Start(), ops).client.asked
      ensures WellPlaced(Run(Start(), ops).client, Run(Start(), ops).heap.layout, base, BEFORE, p)
    {
      PayloadsWellPlaced(ops, base, p);
    }
  }
}
