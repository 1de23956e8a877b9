/** The shared bounded buffer: any number of threads insert and remove, and every semaphore operation and
    every access to the buffer is a step of its own. */
module BoundedBuffer {
  import opened Counting

  /** What a thread is doing: nothing, or a call of which it has done `stage` steps, 1 to 5. */
  datatype Thread =
    | Idle
    | Inserting(stage: nat, item: int)
    | Removing(stage: nat, item: int)

  /** The buffer, its three semaphores and the threads; `inserted` and `removed` record the items in the
      order in which they were stored and read, `returned` those that calls of remove have returned. */
  datatype State = State(n: nat, buf: seq<int>, front: nat, rear: nat, mutex: nat, slots: nat, items: nat,
                         threads: seq<Thread>, inserted: seq<int>, removed: seq<int>, returned: seq<int>)

  datatype Call = Insert(item: int) | Remove | Go

  /** Thread `t` starts a call, or takes the next step of the one it is in. */
  datatype Event = Event(t: nat, call: Call)

  ghost predicate WellFormed(s: State) {
    && 0 < s.n == |s.buf|
    && forall t :: 0 <= t < |s.threads| ==> s.threads[t].Idle? || 1 <= s.threads[t].stage <= 5
  }

  function Slot(index: nat, n: nat): (k: nat)
    requires 0 < n
    ensures k < n
  {
    index % n
  }

  /** Where item number `k`, counted from 0, is stored: the index is advanced first. */
  function SlotOf(k: nat, n: nat): (i: nat)
    requires 0 < n
    ensures i < n
  {
    Slot(k + 1, n)
  }

  function Initial(n: nat, threads: nat): (s: State)
    requires 0 < n
    ensures WellFormed(s)
  {
    State(n, seq(n, _ => 0), 0, 0, 1, n, 0, seq(threads, _ => Idle), [], [], [])
  }

  /** A thread blocks where the semaphore it needs is zero. */
  predicate Enabled(s: State, e: Event) {
    e.t < |s.threads| &&
    match e.call
    case Insert(_) => s.threads[e.t].Idle? && s.slots > 0
    case Remove => s.threads[e.t].Idle? && s.items > 0
    case Go => !s.threads[e.t].Idle? && (s.threads[e.t].stage == 1 ==> s.mutex > 0)
  }

  function Step(s: State, e: Event): (r: State)
    requires WellFormed(s) && Enabled(s, e)
    ensures WellFormed(r) && r.n == s.n && |r.threads| == |s.threads|
  {
    match e.call
    case Insert(x) => s.(slots := s.slots - 1, threads := s.threads[e.t := Inserting(1, x)])
    case Remove => s.(items := s.items - 1, threads := s.threads[e.t := Removing(1, 0)])
    case Go =>
      match s.threads[e.t]
      case Inserting(k, x) =>
        var r := if k == 5 then s.(threads := s.threads[e.t := Idle])
                 else s.(threads := s.threads[e.t := Inserting(k + 1, x)]);
        if k == 1 then r.(mutex := s.mutex - 1)
        else if k == 2 then r.(rear := s.rear + 1)
        else if k == 3 then r.(buf := s.buf[Slot(s.rear, s.n) := x], inserted := s.inserted + [x])
        else if k == 4 then r.(mutex := s.mutex + 1)
        else r.(items := s.items + 1)
      case Removing(k, x) =>
        var y := if k == 3 then s.buf[Slot(s.front, s.n)] else x;
        var r := if k == 5 then s.(threads := s.threads[e.t := Idle])
                 else s.(threads := s.threads[e.t := Removing(k + 1, y)]);
        if k == 1 then r.(mutex := s.mutex - 1)
        else if k == 2 then r.(front := s.front + 1)
        else if k == 3 then r.(removed := s.removed + [y])
        else if k == 4 then r.(mutex := s.mutex + 1)
        else r.(slots := s.slots + 1, returned := s.returned + [x])
  }

  // ---------- what the threads hold ----------

  /** Inside the critical section. */
  predicate Locked(x: Thread) { !x.Idle? && 2 <= x.stage <= 4 }

  /** Holding a slot it has not stored into yet, or an item it has not read yet. */
  predicate Storing(x: Thread) { x.Inserting? && x.stage <= 3 }
  predicate Reading(x: Thread) { x.Removing? && x.stage <= 3 }

  /** Having stored an item, or freed a slot, that it has not announced yet. */
  predicate Stored(x: Thread) { x.Inserting? && 4 <= x.stage }
  predicate Freed(x: Thread) { x.Removing? && 4 <= x.stage }

  /** Having advanced `rear` or `front` without having used the slot. */
  predicate Advanced(x: Thread) { x.Inserting? && x.stage == 3 }
  predicate Fetching(x: Thread) { x.Removing? && x.stage == 3 }

  /** Between its two semaphore operations on `slots` and `items`. */
  predicate Busy(x: Thread) { !x.Idle? }

  // ---------- the invariant ----------

  /** The semaphores account for every slot and item. */
  ghost predicate Accounted(s: State) {
    && s.mutex + Count(s.threads, Locked) == 1
    && |s.removed| <= |s.inserted|
    && s.items + Count(s.threads, Reading) + Count(s.threads, Stored) == |s.inserted| - |s.removed|
    && s.slots + Count(s.threads, Storing) + Count(s.threads, Freed) == s.n - (|s.inserted| - |s.removed|)
    && s.rear == |s.inserted| + Count(s.threads, Advanced)
    && s.front == |s.removed| + Count(s.threads, Fetching)
  }

  /** The items still to be read are in their slots, and what was read is what was stored. */
  ghost predicate Ordered(s: State) {
    && WellFormed(s) && |s.removed| <= |s.inserted|
    && s.removed == s.inserted[..|s.removed|]
    && forall k :: |s.removed| <= k < |s.inserted| ==> s.buf[SlotOf(k, s.n)] == s.inserted[k]
  }

  ghost predicate Inv(s: State) {
    WellFormed(s) && Accounted(s) && Ordered(s)
  }

  lemma CountsUpdate(threads: seq<Thread>, t: nat, x: Thread)
    requires t < |threads|
    ensures var u, y := threads[t := x], threads[t];
            && Count(u, Locked) == Count(threads, Locked) - One(Locked(y)) + One(Locked(x))
            && Count(u, Reading) == Count(threads, Reading) - One(Reading(y)) + One(Reading(x))
            && Count(u, Stored) == Count(threads, Stored) - One(Stored(y)) + One(Stored(x))
            && Count(u, Storing) == Count(threads, Storing) - One(Storing(y)) + One(Storing(x))
            && Count(u, Freed) == Count(threads, Freed) - One(Freed(y)) + One(Freed(x))
            && Count(u, Advanced) == Count(threads, Advanced) - One(Advanced(y)) + One(Advanced(x))
            && Count(u, Fetching) == Count(threads, Fetching) - One(Fetching(y)) + One(Fetching(x))
  {
    CountUpdate(threads, Locked, t, x);
    CountUpdate(threads, Reading, t, x);
    CountUpdate(threads, Stored, t, x);
    CountUpdate(threads, Storing, t, x);
    CountUpdate(threads, Freed, t, x);
    CountUpdate(threads, Advanced, t, x);
    CountUpdate(threads, Fetching, t, x);
  }

  /** Only the thread in the critical section can have advanced an index, and it holds a slot or an item. */
  lemma {:induction false} AdvancedAlone(threads: seq<Thread>)
    ensures Count(threads, Advanced) + Count(threads, Fetching) <= Count(threads, Locked)
    ensures Count(threads, Advanced) <= Count(threads, Storing)
    ensures Count(threads, Fetching) <= Count(threads, Reading)
  {
    if threads != [] {
      AdvancedAlone(threads[1..]);
    }
  }

  /** What a step changes in the counts. */
  lemma StepCounts(s: State, e: Event)
    requires WellFormed(s) && Enabled(s, e)
    ensures var u, y, x := Step(s, e).threads, s.threads[e.t], Step(s, e).threads[e.t];
            && Count(u, Locked) == Count(s.threads, Locked) - One(Locked(y)) + One(Locked(x))
            && Count(u, Reading) == Count(s.threads, Reading) - One(Reading(y)) + One(Reading(x))
            && Count(u, Stored) == Count(s.threads, Stored) - One(Stored(y)) + One(Stored(x))
            && Count(u, Storing) == Count(s.threads, Storing) - One(Storing(y)) + One(Storing(x))
            && Count(u, Freed) == Count(s.threads, Freed) - One(Freed(y)) + One(Freed(x))
            && Count(u, Advanced) == Count(s.threads, Advanced) - One(Advanced(y)) + One(Advanced(x))
            && Count(u, Fetching) == Count(s.threads, Fetching) - One(Fetching(y)) + One(Fetching(x))
  {
    hide Slot, Count;
    var r := Step(s, e);
    assert r.threads == s.threads[e.t := r.threads[e.t]];
    CountsUpdate(s.threads, e.t, r.threads[e.t]);
  }

  lemma AccountedStep(s: State, e: Event)
    requires WellFormed(s) && Accounted(s) && Enabled(s, e)
    ensures Accounted(Step(s, e))
  {
    hide Slot, Count;
    if e.call.Go? {
      if s.threads[e.t].Inserting? {
        AccountedInsert(s, e);
      } else {
        AccountedRemove(s, e);
      }
    } else {
      StepCounts(s, e);
    }
  }

  lemma AccountedInsert(s: State, e: Event)
    requires WellFormed(s) && Accounted(s) && Enabled(s, e) && e.call.Go? && s.threads[e.t].Inserting?
    ensures Accounted(Step(s, e))
  {
    hide Slot, Count;
    StepCounts(s, e);
    AdvancedAlone(s.threads);
  }

  lemma AccountedRemove(s: State, e: Event)
    requires WellFormed(s) && Accounted(s) && Enabled(s, e) && e.call.Go? && s.threads[e.t].Removing?
    ensures Accounted(Step(s, e))
  {
    hide Slot, Count;
    StepCounts(s, e);
    AdvancedAlone(s.threads);
  }

  lemma DifferentSlots(a: nat, b: nat, n: nat)
    requires a < b < a + n
    ensures Slot(a, n) != Slot(b, n)
  {
    if a % n == b % n {
      NoMultiple(n, b / n - a / n);
      assert false;
    }
  }

  lemma NoMultiple(n: nat, q: int)
    ensures !(0 < n * q < n)
  {
    if q >= 1 {
      assert n * q >= n;
    } else {
      assert n * q <= 0;
    }
  }

  /** A thread that has advanced an index is the only one, and holds what the semaphores gave it. */
  lemma HoldsWhatItUses(s: State, t: nat)
    requires WellFormed(s) && Accounted(s) && t < |s.threads|
    ensures Advanced(s.threads[t]) ==> s.rear == |s.inserted| + 1 && |s.inserted| - |s.removed| < s.n
    ensures Fetching(s.threads[t]) ==> s.front == |s.removed| + 1 && |s.removed| < |s.inserted|
  {
    CountsUpdate(s.threads, t, Idle);
    AdvancedAlone(s.threads);
  }

  /** The slot stored into holds no item still to be read, and the item read is the oldest one. */
  lemma OrderedStep(s: State, e: Event)
    requires Inv(s) && Enabled(s, e)
    ensures Ordered(Step(s, e))
  {
    hide Slot, Count;
    HoldsWhatItUses(s, e.t);
    if e.call.Go? && Advanced(s.threads[e.t]) {
      forall k | |s.removed| <= k < |s.inserted| ensures SlotOf(k, s.n) != Slot(s.rear, s.n) {
        DifferentSlots(k + 1, s.rear, s.n);
      }
    }
  }

  lemma InvInitial(n: nat, threads: nat)
    requires 0 < n
    ensures Inv(Initial(n, threads))
  {
    var s := Initial(n, threads);
    CountZero(s.threads, Locked);
    CountZero(s.threads, Reading);
    CountZero(s.threads, Stored);
    CountZero(s.threads, Storing);
    CountZero(s.threads, Freed);
    CountZero(s.threads, Advanced);
    CountZero(s.threads, Fetching);
  }

  lemma InvStep(s: State, e: Event)
    requires Inv(s) && Enabled(s, e)
    ensures Inv(Step(s, e))
  {
    AccountedStep(s, e);
    OrderedStep(s, e);
  }

  // ---------- every run ----------

  /** The state after a schedule; an event that is not enabled leaves the state alone, for its thread is
      blocked. */
  function Run(n: nat, threads: nat, es: seq<Event>): (s: State)
    requires 0 < n
    ensures WellFormed(s)
  {
    if es == [] then Initial(n, threads)
    else
      var s := Run(n, threads, es[..|es| - 1]);
      if Enabled(s, es[|es| - 1]) then Step(s, es[|es| - 1]) else s
  }

  lemma {:induction false} InvRun(n: nat, threads: nat, es: seq<Event>)
    requires 0 < n
    ensures Inv(Run(n, threads, es)) && Run(n, threads, es).n == n
  {
    if es == [] {
      InvInitial(n, threads);
    } else {
      var s, e := Run(n, threads, es[..|es| - 1]), es[|es| - 1];
      InvRun(n, threads, es[..|es| - 1]);
      if Enabled(s, e) {
        InvStep(s, e);
      }
    }
  }

  /** First in, first out, under every interleaving; at most `n` items wait; mutual exclusion. */
  lemma Fifo(n: nat, threads: nat, es: seq<Event>)
    requires 0 < n
    ensures var s := Run(n, threads, es);
            && s.n == n == |s.buf| && s.removed <= s.inserted
            && |s.inserted| - |s.removed| <= n
            && s.front <= s.rear <= s.front + n
            && (forall k :: |s.removed| <= k < |s.inserted| ==> s.buf[SlotOf(k, n)] == s.inserted[k])
            && Count(s.threads, Locked) <= 1
  {
    InvRun(n, threads, es);
    AdvancedAlone(Run(n, threads, es).threads);
  }

  lemma {:induction false} BusySplit(threads: seq<Thread>)
    requires forall t :: 0 <= t < |threads| ==> threads[t].Idle? || 1 <= threads[t].stage <= 5
    ensures Count(threads, Busy) == Count(threads, Storing) + Count(threads, Stored) +
                                    Count(threads, Reading) + Count(threads, Freed)
  {
    if threads != [] {
      BusySplit(threads[1..]);
    }
  }

  /** Every slot is free, full, or in the hands of a thread that is inside a call. */
  lemma SlotsConserved(n: nat, threads: nat, es: seq<Event>)
    requires 0 < n
    ensures var s := Run(n, threads, es);
            s.slots + s.items + Count(s.threads, Busy) == n
  {
    InvRun(n, threads, es);
    BusySplit(Run(n, threads, es).threads);
  }

  /** A call that has passed its first semaphore never waits for ever on the others: as long as some
      thread is inside a call, one of them can take a step. If none is, then a remove can start exactly
      if an item is waiting, and an insert exactly if fewer than `n` are; so one of the two can. */
  lemma NoDeadlock(n: nat, threads: nat, es: seq<Event>) returns (t: nat)
    requires 0 < n
    ensures var s := Run(n, threads, es);
            && (Count(s.threads, Busy) > 0 ==> Enabled(s, Event(t, Go)))
            && (Count(s.threads, Busy) == 0 ==>
                  && s.items == |s.inserted| - |s.removed| && s.slots == n - s.items
                  && forall u, x :: 0 <= u < |s.threads| ==>
                       Enabled(s, Event(u, Insert(x))) || Enabled(s, Event(u, Remove)))
  {
    var s := Run(n, threads, es);
    InvRun(n, threads, es);
    BusySplit(s.threads);
    t := 0;
    if Count(s.threads, Busy) > 0 {
      if s.mutex > 0 {
        t := CountPositive(s.threads, Busy);
      } else {
        t := CountPositive(s.threads, Locked);
      }
    } else {
      forall u | 0 <= u < |s.threads| ensures s.threads[u].Idle? {
        CountUpdate(s.threads, Busy, u, Idle);
      }
    }
  }

  /** The item that a call of remove returns is the next one in the order of insertion. */
  lemma RemovesNext(n: nat, threads: nat, es: seq<Event>, t: nat)
    requires 0 < n
    requires var s := Run(n, threads, es); t < |s.threads| && Fetching(s.threads[t])
    ensures var s := Run(n, threads, es);
            var r := Step(s, Event(t, Go));
            |s.removed| < |s.inserted| && r.threads[t] == Removing(4, s.inserted[|s.removed|])
  {
    hide Slot, Count;
    InvRun(n, threads, es);
    HoldsWhatItUses(Run(n, threads, es), t);
  }

  // ---------- what the calls are about, from the schedule alone ----------

  /** The last event of `es` is a step that is taken, not one that blocks. */
  ghost predicate Takes(n: nat, threads: nat, es: seq<Event>)
    requires 0 < n && es != []
  {
    Enabled(Run(n, threads, es[..|es| - 1]), es[|es| - 1])
  }

  /** The last call that thread `t` started, whether or not it has come back from it. */
  ghost function LastCall(n: nat, threads: nat, es: seq<Event>, t: nat): Call
    requires 0 < n
  {
    if es == [] then Go
    else if es[|es| - 1].t == t && !es[|es| - 1].call.Go? && Takes(n, threads, es) then es[|es| - 1].call
    else LastCall(n, threads, es[..|es| - 1], t)
  }

  /** How many steps thread `t` has taken in its last call. */
  ghost function Steps(n: nat, threads: nat, es: seq<Event>, t: nat): nat
    requires 0 < n
  {
    if es == [] then 0
    else if es[|es| - 1].t != t || !Takes(n, threads, es) then Steps(n, threads, es[..|es| - 1], t)
    else if es[|es| - 1].call.Go? then Steps(n, threads, es[..|es| - 1], t) + 1
    else 1
  }

  /** The last event is step number `k` of a call of `t`; number 1 is its first semaphore. */
  ghost predicate TakesStep(n: nat, threads: nat, es: seq<Event>, k: nat)
    requires 0 < n && es != []
  {
    Takes(n, threads, es) && Steps(n, threads, es, es[|es| - 1].t) == k
  }

  /** The last event is the store of an insert, its fourth step. */
  ghost predicate StoresNow(n: nat, threads: nat, es: seq<Event>)
    requires 0 < n && es != []
  {
    TakesStep(n, threads, es, 4) && LastCall(n, threads, es, es[|es| - 1].t).Insert?
  }

  /** The last event is the read of a remove, its fourth step. */
  ghost predicate ReadsNow(n: nat, threads: nat, es: seq<Event>)
    requires 0 < n && es != []
  {
    TakesStep(n, threads, es, 4) && LastCall(n, threads, es, es[|es| - 1].t).Remove?
  }

  /** The last event is the sixth step of a remove, after which it returns. */
  ghost predicate ReturnsNow(n: nat, threads: nat, es: seq<Event>)
    requires 0 < n && es != []
  {
    TakesStep(n, threads, es, 6) && LastCall(n, threads, es, es[|es| - 1].t).Remove?
  }

  /** The arguments of the calls of insert, in the order in which these store. */
  ghost function Arguments(n: nat, threads: nat, es: seq<Event>): seq<int>
    requires 0 < n
  {
    if es == [] then []
    else
      var before := Arguments(n, threads, es[..|es| - 1]);
      if StoresNow(n, threads, es) then before + [LastCall(n, threads, es, es[|es| - 1].t).item] else before
  }

  /** How many calls of remove have read their item. */
  ghost function Reads(n: nat, threads: nat, es: seq<Event>): nat
    requires 0 < n
  {
    if es == [] then 0
    else
      Reads(n, threads, es[..|es| - 1]) + if ReadsNow(n, threads, es) then 1 else 0
  }

  /** How many reads came before the last one of thread `t`. */
  ghost function Turn(n: nat, threads: nat, es: seq<Event>, t: nat): nat
    requires 0 < n
  {
    if es == [] then 0
    else if es[|es| - 1].t == t && ReadsNow(n, threads, es) then Reads(n, threads, es[..|es| - 1])
    else Turn(n, threads, es[..|es| - 1], t)
  }

  /** The turns of the calls of remove, in the order in which these return. */
  ghost function Turns(n: nat, threads: nat, es: seq<Event>): seq<nat>
    requires 0 < n
  {
    if es == [] then []
    else
      var before := Turns(n, threads, es[..|es| - 1]);
      if ReturnsNow(n, threads, es) then before + [Turn(n, threads, es, es[|es| - 1].t)] else before
  }

  /** What a thread is doing is its last call, as far as its steps have gone. */
  ghost predicate Follows(n: nat, threads: nat, es: seq<Event>, t: nat, x: Thread)
    requires 0 < n
  {
    var call, k := LastCall(n, threads, es, t), Steps(n, threads, es, t);
    match x
    case Idle => if call.Go? then k == 0 else k == 6
    case Inserting(stage, item) => call == Insert(item) && k == stage
    case Removing(stage, item) => call == Remove && k == stage
  }

  /** Every thread does what the schedule had it call: an insert stores the item it was called with. */
  lemma {:induction false} CallsFollowed(n: nat, threads: nat, es: seq<Event>, t: nat)
    requires 0 < n && t < threads
    ensures var s := Run(n, threads, es); |s.threads| == threads && Follows(n, threads, es, t, s.threads[t])
  {
    if es != [] {
      hide Step, Enabled;
      var s, e := Run(n, threads, es[..|es| - 1]), es[|es| - 1];
      CallsFollowed(n, threads, es[..|es| - 1], t);
      if Enabled(s, e) {
        ThreadStep(s, e, t);
      }
    }
  }

  /** What a step makes of a thread. */
  lemma ThreadStep(s: State, e: Event, t: nat)
    requires WellFormed(s) && Enabled(s, e) && t < |s.threads|
    ensures var x, y := s.threads[t], Step(s, e).threads[t];
            && (t != e.t ==> y == x)
            && (t == e.t && e.call.Insert? ==> x.Idle? && y == Inserting(1, e.call.item))
            && (t == e.t && e.call.Remove? ==> x.Idle? && y.Removing? && y.stage == 1)
            && (t == e.t && e.call.Go? ==> !x.Idle? && 1 <= x.stage <= 5 && if x.stage == 5 then y.Idle?
                  else if x.Inserting? then y == Inserting(x.stage + 1, x.item)
                  else y.Removing? && y.stage == x.stage + 1)
  {
    hide Slot;
  }

  lemma {:induction false} RunThreads(n: nat, threads: nat, es: seq<Event>)
    requires 0 < n
    ensures |Run(n, threads, es).threads| == threads
  {
    hide Slot;
    if es != [] {
      RunThreads(n, threads, es[..|es| - 1]);
    }
  }

  /** Thread `t` has read its item and not returned it yet. */
  predicate Carrying(s: State, t: nat) {
    t < |s.threads| && s.threads[t].Removing? && s.threads[t].stage >= 4
  }

  /** What the last event adds to the records. */
  lemma Recorded(n: nat, threads: nat, es: seq<Event>)
    requires 0 < n && es != []
    ensures var s, r, t := Run(n, threads, es[..|es| - 1]), Run(n, threads, es), es[|es| - 1].t;
            && r.inserted == (if StoresNow(n, threads, es) then s.inserted + [LastCall(n, threads, es, t).item]
                              else s.inserted)
            && (ReadsNow(n, threads, es) ==> Carrying(r, t) && r.removed == s.removed + [r.threads[t].item])
            && (!ReadsNow(n, threads, es) ==> r.removed == s.removed)
            && (ReturnsNow(n, threads, es) ==> Carrying(s, t) && r.returned == s.returned + [s.threads[t].item])
            && (!ReturnsNow(n, threads, es) ==> r.returned == s.returned)
  {
    hide Slot;
    var init, t := es[..|es| - 1], es[|es| - 1].t;
    RunThreads(n, threads, init);
    if t < threads {
      CallsFollowed(n, threads, init, t);
      CallsFollowed(n, threads, es, t);
    }
  }

  /** Which threads carry an item after the last event. */
  lemma Carried(n: nat, threads: nat, es: seq<Event>, u: nat)
    requires 0 < n && es != []
    ensures var s, r, t := Run(n, threads, es[..|es| - 1]), Run(n, threads, es), es[|es| - 1].t;
            && (Carrying(r, u) <==> (u == t && ReadsNow(n, threads, es))
                                    || (Carrying(s, u) && !(u == t && ReturnsNow(n, threads, es))))
            && (Carrying(r, u) && !(u == t && ReadsNow(n, threads, es)) ==> r.threads[u].item == s.threads[u].item)
  {
    hide Slot;
    var init, t := es[..|es| - 1], es[|es| - 1].t;
    RunThreads(n, threads, init);
    if t < threads {
      CallsFollowed(n, threads, init, t);
      CallsFollowed(n, threads, es, t);
    }
  }

  /** What is stored are the arguments of the inserts, in the order in which these store. */
  lemma {:induction false} InsertsArguments(n: nat, threads: nat, es: seq<Event>)
    requires 0 < n
    ensures Run(n, threads, es).inserted == Arguments(n, threads, es)
    ensures |Run(n, threads, es).removed| == Reads(n, threads, es)
  {
    if es != [] {
      hide Step, Enabled, StoresNow, ReadsNow, LastCall;
      InsertsArguments(n, threads, es[..|es| - 1]);
      Recorded(n, threads, es);
    }
  }

  /** Between reading and returning, a thread carries the item that was next when its turn came. */
  lemma {:induction false} CarriesTurn(n: nat, threads: nat, es: seq<Event>, t: nat)
    requires 0 < n
    ensures var s := Run(n, threads, es);
            Carrying(s, t) ==>
              Turn(n, threads, es, t) < |s.removed| && s.threads[t].item == s.removed[Turn(n, threads, es, t)]
  {
    if es != [] {
      hide Step, Enabled, ReadsNow, ReturnsNow, StoresNow, LastCall;
      CarriesTurn(n, threads, es[..|es| - 1], t);
      Recorded(n, threads, es);
      Carried(n, threads, es, t);
      InsertsArguments(n, threads, es[..|es| - 1]);
    }
  }

  /** What has been returned is what was read, in the turns of the calls. */
  lemma {:induction false} ReturnsTurns(n: nat, threads: nat, es: seq<Event>)
    requires 0 < n
    ensures var s, turns := Run(n, threads, es), Turns(n, threads, es);
            |s.returned| == |turns| && forall i :: 0 <= i < |turns| ==>
              turns[i] < |s.removed| && s.returned[i] == s.removed[turns[i]]
  {
    if es != [] {
      hide Step, Enabled, ReadsNow, ReturnsNow, StoresNow, LastCall, Carrying;
      var init, t := es[..|es| - 1], es[|es| - 1].t;
      ReturnsTurns(n, threads, init);
      Recorded(n, threads, es);
      CarriesTurn(n, threads, init, t);
      SameTurn(n, threads, es);
    }
  }

  /** A thread that returns has the turn that it had before. */
  lemma SameTurn(n: nat, threads: nat, es: seq<Event>)
    requires 0 < n && es != []
    ensures var t := es[|es| - 1].t;
            ReturnsNow(n, threads, es) ==>
              !ReadsNow(n, threads, es) && Turn(n, threads, es, t) == Turn(n, threads, es[..|es| - 1], t)
  {
    hide Run, Steps, LastCall, Takes;
  }

  /** Every call of remove has a turn of its own. */
  ghost predicate Separate(n: nat, threads: nat, es: seq<Event>)
    requires 0 < n
  {
    var s, turns := Run(n, threads, es), Turns(n, threads, es);
    && (forall i, j :: 0 <= i < j < |turns| ==> turns[i] != turns[j])
    && (forall t :: Carrying(s, t) ==> Turn(n, threads, es, t) !in turns)
    && (forall t, u :: Carrying(s, t) && Carrying(s, u) && t != u ==>
          Turn(n, threads, es, t) != Turn(n, threads, es, u))
  }

  lemma {:induction false} TurnsSeparate(n: nat, threads: nat, es: seq<Event>)
    requires 0 < n
    ensures Separate(n, threads, es)
  {
    if es == [] {
      NothingCarried(n, threads);
    } else {
      hide Run, ReadsNow, ReturnsNow, Carrying, Reads;
      var init, t := es[..|es| - 1], es[|es| - 1].t;
      TurnsSeparate(n, threads, init);
      ReturnsTurns(n, threads, init);
      InsertsArguments(n, threads, init);
      Recorded(n, threads, es);
      SameTurn(n, threads, es);
      forall u: nat
        ensures Carrying(Run(n, threads, init), u) ==> Turn(n, threads, init, u) < Reads(n, threads, init)
        ensures Carrying(Run(n, threads, es), u) <==>
                (u == t && ReadsNow(n, threads, es))
                || (Carrying(Run(n, threads, init), u) && !(u == t && ReturnsNow(n, threads, es)))
      {
        CarriesTurn(n, threads, init, u);
        Carried(n, threads, es, u);
      }
    }
  }

  lemma NothingCarried(n: nat, threads: nat)
    requires 0 < n
    ensures forall t :: !Carrying(Run(n, threads, []), t)
  {
  }

  /** What is returned are the arguments of the inserts: the call whose turn it is gets the argument of that number,
      and no two calls get the same one. */
  lemma ReturnsArguments(n: nat, threads: nat, es: seq<Event>)
    requires 0 < n
    ensures var args, turns, returned := Arguments(n, threads, es), Turns(n, threads, es), Run(n, threads, es).returned;
            && |returned| == |turns|
            && (forall i :: 0 <= i < |turns| ==> turns[i] < |args| && returned[i] == args[turns[i]])
            && (forall i, j :: 0 <= i < j < |turns| ==> turns[i] != turns[j])
  {
    hide Arguments, Turns, Run;
    Fifo(n, threads, es);
    InsertsArguments(n, threads, es);
    ReturnsTurns(n, threads, es);
    TurnsSeparate(n, threads, es);
  }

  /** The buffer in memory, with the threads that share it. */
  class Sbuf {
    const n: nat
    const buf: array<int>
    var front: nat
    var rear: nat
    var mutex: nat
    var slots: nat
    var items: nat
    var threads: seq<Thread>
    ghost var inserted: seq<int>
    ghost var removed: seq<int>
    ghost var returned: seq<int>

    ghost function View(): State
      reads this, buf
    {
      State(n, buf[..], front, rear, mutex, slots, items, threads, inserted, removed, returned)
    }

    constructor (n: nat, threads: nat)
      requires 0 < n
      ensures fresh(buf) && this.n == n && View() == Initial(n, threads)
    {
      this.n := n;
      buf := new int[n](_ => 0);
      front, rear := 0, 0;
      mutex, slots, items := 1, n, 0;
      this.threads := seq(threads, _ => Idle);
      inserted, removed, returned := [], [], [];
    }

    predicate Ready(e: Event)
      reads this, buf
      ensures Ready(e) == Enabled(View(), e)
    {
      e.t < |threads| &&
      match e.call
      case Insert(_) => threads[e.t].Idle? && slots > 0
      case Remove => threads[e.t].Idle? && items > 0
      case Go => !threads[e.t].Idle? && (threads[e.t].stage == 1 ==> mutex > 0)
    }

    /** One step of an insert after its first. */
    method InsertStep(t: nat, stage: nat, item: int)
      requires WellFormed(View()) && Enabled(View(), Event(t, Go)) && threads[t] == Inserting(stage, item)
      modifies this, buf
      ensures View() == Step(old(View()), Event(t, Go))
    {
      threads := threads[t := if stage == 5 then Idle else Inserting(stage + 1, item)];
      if stage == 1 {
        mutex := mutex - 1;
      } else if stage == 2 {
        rear := rear + 1;
      } else if stage == 3 {
        buf[Slot(rear, n)] := item;
        inserted := inserted + [item];
      } else if stage == 4 {
        mutex := mutex + 1;
      } else {
        items := items + 1;
      }
    }

    /** One step of a remove after its first. */
    method RemoveStep(t: nat, stage: nat, item: int)
      requires WellFormed(View()) && Enabled(View(), Event(t, Go)) && threads[t] == Removing(stage, item)
      modifies this
      ensures View() == Step(old(View()), Event(t, Go))
    {
      var read := item;
      if stage == 1 {
        mutex := mutex - 1;
      } else if stage == 2 {
        front := front + 1;
      } else if stage == 3 {
        read := buf[Slot(front, n)];
        removed := removed + [read];
      } else if stage == 4 {
        mutex := mutex + 1;
      } else {
        slots := slots + 1;
        returned := returned + [item];
      }
      threads := threads[t := if stage == 5 then Idle else Removing(stage + 1, read)];
    }

    method Advance(e: Event)
      requires WellFormed(View()) && Enabled(View(), e)
      modifies this, buf
      ensures View() == Step(old(View()), e)
    {
      match e.call
      case Insert(x) =>
        slots := slots - 1;
        threads := threads[e.t := Inserting(1, x)];
      case Remove =>
        items := items - 1;
        threads := threads[e.t := Removing(1, 0)];
      case Go =>
        match threads[e.t]
        case Inserting(k, x) => InsertStep(e.t, k, x);
        case Removing(k, x) => RemoveStep(e.t, k, x);
    }

    /** Any schedule on the memory itself: items leave in the order in which they came, and those that are
        still there are in their slots. */
    method Execute(threads: nat, es: seq<Event>)
      requires 0 < n && View() == Initial(n, threads)
      modifies this, buf
      ensures View() == Run(n, threads, es)
      ensures removed <= inserted && |inserted| - |removed| <= n && front <= rear <= front + n
      ensures forall k :: |removed| <= k < |inserted| ==> SlotOf(k, n) < buf.Length && buf[SlotOf(k, n)] == inserted[k]
      ensures inserted == Arguments(n, threads, es) && |returned| == |Turns(n, threads, es)|
      ensures forall i, turn | 0 <= i < |returned| && turn == Turns(n, threads, es)[i] ::
                turn < |inserted| && returned[i] == inserted[turn]
    {
      hide Step, Enabled, Count, Slot, SlotOf, Arguments, Turns;
      var i := 0;
      while i < |es|
        invariant i <= |es| && View() == Run(n, threads, es[..i])
      {
        assert es[..i + 1][..i] == es[..i];
        if Ready(es[i]) {
          Advance(es[i]);
        }
        i := i + 1;
      }
      assert es[..i] == es;
      Fifo(n, threads, es);
      InsertsArguments(n, threads, es);
      ReturnsArguments(n, threads, es);
    }
  }
}
