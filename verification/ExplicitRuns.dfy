/** Every run of the explicit allocator: what any sequence of legal requests leaves true. */
module ExplicitRuns {
  import opened Basics
  import opened Blocks
  import opened Memlib
  import opened ExplicitHeap
  import opened Requests
  import opened Walks

  /** Payloads start this many words into their block. */
  const BEFORE: nat := 3

  /** No block exceeds its request by more bytes. */
  const MOST: nat := 39

  datatype State = State(heap: Heap, client: Client)

  /** The heap is consistent and within its limit, and the client owns its live blocks. */
  ghost predicate Good(s: State) {
    && Consistent(s.heap) && s.heap.layout.first == 5 < s.heap.layout.end
    && 4 * (s.heap.layout.end + 1) <= HEAP_BYTES
    && Owns(s.client, s.heap.layout, BEFORE, MOST)
  }

  /** One operation, and the address it returns. */
  ghost function Step(s: State, op: Op): (State, Option<nat>)
    requires Good(s) && Legal(s.client, op)
  {
    var (h, r) := match op
      case Malloc(size) => ExplicitHeap.Malloc(s.heap, size)
      case Free(p) => (if p.Some? then Release(s.heap, p.value) else s.heap, None)
      case Realloc(p, size) => ExplicitHeap.Realloc(s.heap, p, size)
      case Write(_, _, _) => (s.heap, None);
    (State(h, After(s.client, op, r)), r)
  }

  lemma StepGood(s: State, op: Op)
    requires Good(s) && Legal(s.client, op)
    ensures Good(Step(s, op).0)
  {
    hide Consistent, Release, ExplicitHeap.Malloc, ExplicitHeap.Realloc, Owns, After;
    match op
    case Malloc(size) => MallocGood(s, size, map[]);
    case Free(p) =>
      if p.Some? {
        FreeGood(s, p.value);
      } else {
        NothingFreed(s.client);
      }
    case Realloc(p, size) => ReallocGood(s, p, size);
    case Write(p, offset, byte) => WriteOwns(s.client, s.heap.layout, BEFORE, MOST, p, offset, byte);
  }

  lemma MallocGood(s: State, size: nat, bytes: map<nat, nat>)
    requires Good(s) && forall j <- bytes :: j < size
    ensures var (h, r) := ExplicitHeap.Malloc(s.heap, size);
            && (r.Some? ==> Good(State(h, Gained(s.client, r.value, size, bytes))))
            && (r.None? ==> h == s.heap)
            && Good(State(h, After(s.client, Malloc(size), r)))
  {
    hide Consistent, Owns, ExplicitHeap.Malloc, HandsOut;
    MallocCorrect(s.heap, size);
    MallocInside(s.heap, size);
    var (h, r) := ExplicitHeap.Malloc(s.heap, size);
    if r.Some? {
      GainedOwns(s.client, s.heap.layout, h.layout, BEFORE, MOST, r.value, size, bytes);
      GainedOwns(s.client, s.heap.layout, h.layout, BEFORE, MOST, r.value, size, map[]);
    }
  }

  lemma FreeGood(s: State, p: nat)
    requires Good(s) && p in s.client.asked
    ensures IsLive(s.heap.layout, p)
    ensures Good(State(Release(s.heap, p), Lost(s.client, Some(p))))
    ensures After(s.client, Free(Some(p)), None) == Lost(s.client, Some(p))
  {
    hide Consistent, Release, Sized, HandsOut;
    ReleaseKeeps(s.heap, p);
    hide Owns;
    LostOwns(s.client, s.heap.layout, Release(s.heap, p).layout, BEFORE, MOST, p);
  }

  lemma ReallocGood(s: State, p: Option<nat>, size: nat)
    requires Good(s) && Legal(s.client, Realloc(p, size))
    ensures p.Some? ==> IsLive(s.heap.layout, p.value)
    ensures var (h, r) := ExplicitHeap.Realloc(s.heap, p, size); Good(State(h, After(s.client, Realloc(p, size), r)))
  {
    hide Consistent, Release, ExplicitHeap.Malloc, Owns, Lost, Gained, HandsOut, Carried;
    if p.Some? {
      OwnedLive(s.client, s.heap.layout, BEFORE, MOST, p.value);
    }
    if size == 0 {
      if p.Some? {
        FreeGood(s, p.value);
      } else {
        assert Lost(s.client, None) == s.client by {
          NothingLost(s.client);
        }
      }
    } else {
      CarriedInside(s.client, p, size);
      MallocGood(s, size, Carried(s.client, p, size));
      MallocCorrect(s.heap, size);
      var (h, r) := ExplicitHeap.Malloc(s.heap, size);
      if r.Some? {
        if p.Some? {
          NewBlock(s.heap.layout, h.layout, r.value, p.value);
          GainedKeeps(s.client, r.value, size, Carried(s.client, p, size), p.value);
          FreeGood(State(h, Gained(s.client, r.value, size, Carried(s.client, p, size))), p.value);
          GainedLost(s.client, p.value, r.value, size, Carried(s.client, p, size));
        } else {
          NothingLost(s.client);
        }
      }
    }
  }

  /** A block stays as it is until an operation frees or moves it. */
  lemma StepKeeps(s: State, op: Op, p: nat)
    requires Good(s) && Legal(s.client, op) && IsLive(s.heap.layout, p) && !Takes(op, p)
    ensures IsLive(Step(s, op).0.heap.layout, p) && Step(s, op).0.heap.layout.at[p] == s.heap.layout.at[p]
  {
    hide Consistent, Release, ExplicitHeap.Malloc, Sized, After;
    match op
    case Malloc(size) => MallocCorrect(s.heap, size);
    case Free(q) =>
      if q.Some? {
        ReleaseKeeps(s.heap, q.value);
      }
    case Realloc(q, size) =>
      MallocCorrect(s.heap, size);
      var (h, r) := ExplicitHeap.Malloc(s.heap, size);
      if size == 0 {
        if q.Some? {
          ReleaseKeeps(s.heap, q.value);
        }
      } else if q.Some? && r.Some? {
        ReleaseKeeps(h, q.value);
      }
    case Write(_, _, _) =>
  }

  // ---------- runs ----------

  /** What initialisation leaves. */
  ghost function Start(): (s: State)
    ensures Good(s)
  {
    StartGood();
    State(Initial(), Client(map[], map[]))
  }

  lemma StartGood()
    ensures Good(State(Initial(), Client(map[], map[])))
  {
    hide Consistent, Grow;
    EmptyConsistent();
    GrowFits(Empty(), CHUNK_UNITS);
    GrowKeeps(Empty(), CHUNK_UNITS);
  }

  /** Every request of the list is legal when its turn comes. */
  ghost predicate LegalRun(s: State, ops: seq<Op>)
    requires Good(s)
    decreases |ops|
  {
    ops == [] || (Legal(s.client, ops[0]) && (StepGood(s, ops[0]); LegalRun(Step(s, ops[0]).0, ops[1..])))
  }

  ghost function Run(s: State, ops: seq<Op>): (t: State)
    requires Good(s) && LegalRun(s, ops)
    ensures Good(t)
    decreases |ops|
  {
    if ops == [] then s
    else
      StepGood(s, ops[0]);
      Run(Step(s, ops[0]).0, ops[1..])
  }

  /** After every legal run, every payload is 8-aligned, inside the heap, and apart from all others and from
      all tags and links. */
  lemma PayloadsWellPlaced(ops: seq<Op>, base: nat, p: nat)
    requires LegalRun(Start(), ops) && base % 8 == 0
    requires p in Run(Start(), ops).client.asked
    ensures WellPlaced(Run(Start(), ops).client, Run(Start(), ops).heap.layout, base, BEFORE, p)
  {
    hide LegalRun, Run, Owns;
    PayloadWellPlaced(Run(Start(), ops).client, Run(Start(), ops).heap.layout, base, BEFORE, MOST, p);
  }

  /** When all that was allocated has been freed, the heap is one free block of all but 24 bytes, and
      the free list has one entry. */
  lemma AllFreed(s: State)
    requires Good(s) && s.client.asked == map[]
    ensures var l, heapsize := s.heap.layout, 4 * (s.heap.layout.end + 1);
            && l.at.Keys == {l.first} && !l.at[l.first].live && 8 * l.at[l.first].units == heapsize - 24
            && s.heap.free == [l.first]
  {
    var l := s.heap.layout;
    forall p <- l.at ensures IsFree(l, p) {
      assert p !in s.client.asked;
    }
    assert Succ(l, l.first) == l.end;
    forall p <- l.at ensures p == l.first {
      assert p < Succ(l, l.first);
    }
    var f := s.heap.free;
    assert l.first in f;
    assert f[0] in f && f[|f| - 1] in f;
    forall i | 0 <= i < |f| ensures f[i] == l.first {
      assert f[i] in f;
    }
  }

  /** After every legal run, block sizes add up to all of the heap but 24 bytes. */
  lemma SpaceConserved(ops: seq<Op>)
    requires LegalRun(Start(), ops)
    ensures var l := Run(Start(), ops).heap.layout;
            && l.first in l.at && (forall q <- Up(l, l.first) :: q in l.at) && (forall q <- l.at :: q in Up(l, l.first))
            && 4 * TotalWords(l, Up(l, l.first)) == 4 * (l.end + 1) - 24
  {
    hide LegalRun, Run;
    var l := Run(Start(), ops).heap.layout;
    UpCovers(l, l.first);
    UpConserves(l, l.first);
  }

  /** The address returned is none that the client has. */
  lemma NewAddress(s: State, op: Op, p: nat)
    requires Good(s) && Legal(s.client, op) && p in s.client.asked
    ensures Step(s, op).1 != Some(p)
  {
    hide Consistent, Release, ExplicitHeap.Malloc, Sized, After;
    OwnedLive(s.client, s.heap.layout, BEFORE, MOST, p);
    match op
    case Malloc(size) => MallocCorrect(s.heap, size);
    case Free(_) =>
    case Realloc(q, size) =>
      MallocCorrect(s.heap, size);
      if q.Some? {
        OwnedLive(s.client, s.heap.layout, BEFORE, MOST, q.value);
      }
    case Write(_, _, _) =>
  }

  /** A byte once written stays, whatever else is allocated, freed, moved or written, until the client frees or moves
      its block or writes that byte again. */
  lemma {:induction false} WrittenStays(s: State, ops: seq<Op>, p: nat, offset: nat, byte: nat)
    requires Good(s) && LegalRun(s, ops) && Knows(s.client, p, offset, byte)
    requires forall op <- ops :: Spares(op, p, offset)
    ensures Knows(Run(s, ops).client, p, offset, byte)
    decreases |ops|
  {
    hide Good, Knows, After, Legal, Spares, ExplicitHeap.Malloc, ExplicitHeap.Realloc, Release, Consistent;
    if ops != [] {
      StepGood(s, ops[0]);
      KnownOwned(s.client, p, offset, byte);
      NewAddress(s, ops[0], p);
      SparedKnown(s.client, ops[0], Step(s, ops[0]).1, p, offset, byte);
      WrittenStays(Step(s, ops[0]).0, ops[1..], p, offset, byte);
    }
  }
}
