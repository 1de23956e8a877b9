/** The lock around the proxy's store: the first reader takes `w` and the last one gives it back, whoever
    they are; writers take it for themselves. Every semaphore operation and every access to the reader
    count or to the store is a step of its own, of any number of threads. */
module ReadersWriters {
  import opened Counting

  /** Where a thread is in serving a request. */
  datatype Thread =
    | Outside                             // no request, or waiting for w to stamp or to store
    | Writing(hit: bool, value: int)      // has w, and is about to write to the store
    | Written(hit: bool)                  // has written; will give w back
    | Arriving                            // after a hit, waiting for mutex
    | Counting                            // has mutex, before ++read_cnt
    | Opening                             // after it; takes w if it counts one reader
    | Admitted                            // before giving mutex back
    | Reading                             // reading the stored object
    | Leaving                             // waiting for mutex
    | Uncounting                          // has mutex, before --read_cnt
    | Closing                             // after it; gives w back if no reader is left
    | Gone                                // before giving mutex back

  /** `data` stands for everything in the store. */
  datatype State = State(mutex: nat, w: nat, readCnt: int, data: int, threads: seq<Thread>)

  /** A thread begins a write of `value`: the new timestamp on a hit, or an object after a miss; or it takes
      its next step. */
  datatype Call = Write(hit: bool, value: int) | Go

  datatype Event = Event(t: nat, call: Call)

  function Initial(threads: nat): State {
    State(1, 1, 0, 0, seq(threads, _ => Outside))
  }

  predicate Enabled(s: State, e: Event) {
    e.t < |s.threads| &&
    match e.call
    case Write(_, _) => s.threads[e.t].Outside? && s.w > 0
    case Go =>
      match s.threads[e.t]
      case Outside => false
      case Arriving => s.mutex > 0
      case Leaving => s.mutex > 0
      case Opening => s.readCnt == 1 ==> s.w > 0
      case _ => true
  }

  function Step(s: State, e: Event): (r: State)
    requires Enabled(s, e)
  {
    match e.call
    case Write(hit, value) => Move(s, e.t, Writing(hit, value)).(w := s.w - 1)
    case Go =>
      match s.threads[e.t]
      case Writing(hit, value) => Move(s, e.t, Written(hit)).(data := value)
      case Written(hit) => Move(s, e.t, if hit then Arriving else Outside).(w := s.w + 1)
      case Arriving => Move(s, e.t, Counting).(mutex := s.mutex - 1)
      case Counting => Move(s, e.t, Opening).(readCnt := s.readCnt + 1)
      case Opening => Move(s, e.t, Admitted).(w := if s.readCnt == 1 then s.w - 1 else s.w)
      case Admitted => Move(s, e.t, Reading).(mutex := s.mutex + 1)
      case Reading => Move(s, e.t, Leaving)
      case Leaving => Move(s, e.t, Uncounting).(mutex := s.mutex - 1)
      case Uncounting => Move(s, e.t, Closing).(readCnt := s.readCnt - 1)
      case Closing => Move(s, e.t, Gone).(w := if s.readCnt == 0 then s.w + 1 else s.w)
      case Gone => Move(s, e.t, Outside).(mutex := s.mutex + 1)
  }

  function Move(s: State, t: nat, x: Thread): State
    requires t < |s.threads|
  {
    s.(threads := s.threads[t := x])
  }

  // ---------- who holds what ----------

  predicate HasMutex(x: Thread) {
    x.Counting? || x.Opening? || x.Admitted? || x.Uncounting? || x.Closing? || x.Gone?
  }

  /** Counted as a reader: between the increment and the decrement. */
  predicate Counted(x: Thread) {
    x.Opening? || Inside(x)
  }

  /** Under the protection of `w` as a reader. */
  predicate Inside(x: Thread) {
    x.Admitted? || x.Reading? || x.Leaving? || x.Uncounting?
  }

  predicate Writer(x: Thread) {
    x.Writing? || x.Written?
  }

  predicate IsClosing(x: Thread) {
    x.Closing?
  }

  predicate Busy(x: Thread) {
    !x.Outside?
  }

  /** The readers hold `w` together while one of them is inside, and until the last one has closed. */
  predicate ReadersHold(s: State) {
    Count(s.threads, Inside) > 0 || (Count(s.threads, IsClosing) > 0 && s.readCnt == 0)
  }

  ghost predicate Inv(s: State) {
    && s.mutex + Count(s.threads, HasMutex) == 1
    && s.readCnt == Count(s.threads, Counted)
    && s.w + Count(s.threads, Writer) + (if ReadersHold(s) then 1 else 0) == 1
  }

  lemma CountsUpdate(s: seq<Thread>, t: nat, x: Thread)
    requires t < |s|
    ensures Count(s[t := x], HasMutex) == Count(s, HasMutex) - One(HasMutex(s[t])) + One(HasMutex(x))
    ensures Count(s[t := x], Counted) == Count(s, Counted) - One(Counted(s[t])) + One(Counted(x))
    ensures Count(s[t := x], Inside) == Count(s, Inside) - One(Inside(s[t])) + One(Inside(x))
    ensures Count(s[t := x], Writer) == Count(s, Writer) - One(Writer(s[t])) + One(Writer(x))
    ensures Count(s[t := x], IsClosing) == Count(s, IsClosing) - One(IsClosing(s[t])) + One(IsClosing(x))
  {
    CountUpdate(s, HasMutex, t, x);
    CountUpdate(s, Counted, t, x);
    CountUpdate(s, Inside, t, x);
    CountUpdate(s, Writer, t, x);
    CountUpdate(s, IsClosing, t, x);
  }

  predicate IsOpening(x: Thread) {
    x.Opening?
  }

  /** Everyone counted is inside or just opening, and those opening or closing have the mutex. */
  lemma {:induction false} CountedSplit(s: seq<Thread>)
    ensures Count(s, Counted) == Count(s, Inside) + Count(s, IsOpening)
    ensures Count(s, IsOpening) + Count(s, IsClosing) <= Count(s, HasMutex)
  {
    if s != [] {
      CountedSplit(s[1..]);
    }
  }

  /** What a step changes in the counts, and how they hang together. */
  lemma StepCounts(s: State, e: Event)
    requires Enabled(s, e)
    ensures var u, y, x := Step(s, e).threads, s.threads[e.t], Step(s, e).threads[e.t];
            && Count(u, HasMutex) == Count(s.threads, HasMutex) - One(HasMutex(y)) + One(HasMutex(x))
            && Count(u, Counted) == Count(s.threads, Counted) - One(Counted(y)) + One(Counted(x))
            && Count(u, Inside) == Count(s.threads, Inside) - One(Inside(y)) + One(Inside(x))
            && Count(u, Writer) == Count(s.threads, Writer) - One(Writer(y)) + One(Writer(x))
            && Count(u, IsClosing) == Count(s.threads, IsClosing) - One(IsClosing(y)) + One(IsClosing(x))
            && Count(u, IsOpening) == Count(s.threads, IsOpening) - One(IsOpening(y)) + One(IsOpening(x))
            && Count(u, Counted) == Count(u, Inside) + Count(u, IsOpening)
            && Count(u, IsOpening) + Count(u, IsClosing) <= Count(u, HasMutex)
  {
    hide Count;
    var r := Step(s, e);
    var x := r.threads[e.t];
    assert r.threads == s.threads[e.t := x];
    CountsUpdate(s.threads, e.t, x);
    CountUpdate(s.threads, IsOpening, e.t, x);
    CountedSplit(r.threads);
  }

  lemma InvStep(s: State, e: Event)
    requires Inv(s) && Enabled(s, e)
    ensures Inv(Step(s, e))
  {
    hide Count;
    var x := s.threads[e.t];
    if e.call.Go? && (x.Arriving? || x.Counting? || x.Opening? || x.Admitted?) {
      InvEnter(s, e);
    } else if e.call.Go? && (x.Reading? || x.Leaving? || x.Uncounting? || x.Closing? || x.Gone?) {
      InvLeave(s, e);
    } else {
      StepCounts(s, e);
      CountedSplit(s.threads);
    }
  }

  /** The steps with which a reader enters. */
  lemma InvEnter(s: State, e: Event)
    requires Inv(s) && Enabled(s, e) && e.call.Go?
    requires var x := s.threads[e.t]; x.Arriving? || x.Counting? || x.Opening? || x.Admitted?
    ensures Inv(Step(s, e))
  {
    hide Count;
    StepCounts(s, e);
    CountedSplit(s.threads);
  }

  /** The steps with which a reader leaves. */
  lemma InvLeave(s: State, e: Event)
    requires Inv(s) && Enabled(s, e) && e.call.Go?
    requires var x := s.threads[e.t]; x.Reading? || x.Leaving? || x.Uncounting? || x.Closing? || x.Gone?
    ensures Inv(Step(s, e))
  {
    hide Count;
    StepCounts(s, e);
    CountedSplit(s.threads);
  }

  lemma InvInitial(threads: nat)
    ensures Inv(Initial(threads))
  {
    var s := Initial(threads).threads;
    CountZero(s, HasMutex);
    CountZero(s, Counted);
    CountZero(s, Inside);
    CountZero(s, Writer);
    CountZero(s, IsClosing);
  }

  /** The state after a schedule; a thread that is blocked stays where it is. */
  function Run(threads: nat, es: seq<Event>): State {
    if es == [] then Initial(threads)
    else
      var s := Run(threads, es[..|es| - 1]);
      if Enabled(s, es[|es| - 1]) then Step(s, es[|es| - 1]) else s
  }

  lemma {:induction false} InvRun(threads: nat, es: seq<Event>)
    ensures Inv(Run(threads, es))
  {
    if es == [] {
      InvInitial(threads);
    } else {
      var s, e := Run(threads, es[..|es| - 1]), es[|es| - 1];
      InvRun(threads, es[..|es| - 1]);
      if Enabled(s, e) {
        InvStep(s, e);
      }
    }
  }

  /** In every reachable state there is at most one writer, and none beside a reader; and the count is the
      number of threads between its increment and its decrement. */
  lemma MutualExclusion(threads: nat, es: seq<Event>)
    ensures var s := Run(threads, es);
            && (forall t, u :: 0 <= t < |s.threads| && 0 <= u < |s.threads| && t != u && Writer(s.threads[t]) ==>
                  !Writer(s.threads[u]) && !Inside(s.threads[u]))
            && s.readCnt == Count(s.threads, Counted)
  {
    var s := Run(threads, es);
    InvRun(threads, es);
    forall t, u | 0 <= t < |s.threads| && 0 <= u < |s.threads| && t != u && Writer(s.threads[t])
      ensures !Writer(s.threads[u]) && !Inside(s.threads[u])
    {
      var one := s.threads[t := Outside];
      CountsUpdate(s.threads, t, Outside);
      CountsUpdate(one, u, Outside);
      CountUpdate(one, Writer, u, Outside);
      CountUpdate(one, Inside, u, Outside);
    }
  }

  /** While a thread reads, no step of any thread changes the store. */
  lemma ReadsAreStable(threads: nat, es: seq<Event>, t: nat, e: Event)
    requires var s := Run(threads, es); t < |s.threads| && s.threads[t].Reading? && Enabled(s, e)
    ensures Step(Run(threads, es), e).data == Run(threads, es).data
  {
    MutualExclusion(threads, es);
  }

  /** While any thread is serving a request, some thread that is can take a step; when none is, both
      semaphores are free and any thread can start. */
  lemma NoDeadlock(threads: nat, es: seq<Event>) returns (t: nat)
    ensures var s := Run(threads, es);
            if Count(s.threads, Busy) > 0 then Enabled(s, Event(t, Go))
            else s.mutex == 1 && s.w == 1 && s.readCnt == 0
  {
    var s := Run(threads, es);
    InvRun(threads, es);
    CountedSplit(s.threads);
    if Count(s.threads, Busy) == 0 {
      t := 0;
      NoneBusy(s.threads);
    } else if s.mutex > 0 {
      t := CountPositive(s.threads, Busy);
      OpeningHasMutex(s.threads, t);
    } else {
      t := CountPositive(s.threads, HasMutex);
      if s.threads[t].Opening? && s.readCnt == 1 && s.w == 0 {
        CountUpdate(s.threads, IsOpening, t, Outside);
        t := CountPositive(s.threads, Writer);
      }
    }
  }

  lemma OpeningHasMutex(s: seq<Thread>, t: nat)
    requires t < |s|
    ensures s[t].Opening? ==> Count(s, HasMutex) > 0
  {
    CountUpdate(s, HasMutex, t, Outside);
  }

  lemma {:induction false} NoneBusy(s: seq<Thread>)
    requires Count(s, Busy) == 0
    ensures Count(s, HasMutex) == Count(s, Counted) == Count(s, Inside) == Count(s, Writer) == Count(s, IsClosing) == 0
  {
    if s != [] {
      NoneBusy(s[1..]);
    }
  }

  // ---------- what happens in a request, from the schedule alone ----------

  /** The last event of `es` is a step that is taken, not one that blocks. */
  ghost predicate Takes(threads: nat, es: seq<Event>)
    requires es != []
  {
    Enabled(Run(threads, es[..|es| - 1]), es[|es| - 1])
  }

  /** The last write that thread `t` began; Go if there is none. */
  ghost function LastWrite(threads: nat, es: seq<Event>, t: nat): Call {
    if es == [] then Go
    else if es[|es| - 1].t == t && es[|es| - 1].call.Write? && Takes(threads, es) then es[|es| - 1].call
    else LastWrite(threads, es[..|es| - 1], t)
  }

  /** The last event is a read of the store. */
  ghost predicate ReadsNow(threads: nat, es: seq<Event>)
    requires es != []
  {
    Takes(threads, es) && Run(threads, es[..|es| - 1]).threads[es[|es| - 1].t].Reading?
  }

  /** The last event is the store of what the thread has come to write. */
  ghost predicate StoresNow(threads: nat, es: seq<Event>)
    requires es != []
  {
    Takes(threads, es) && Run(threads, es[..|es| - 1]).threads[es[|es| - 1].t].Writing?
  }

  /** How often thread `t` has read the store since it began its last write. */
  ghost function Reads(threads: nat, es: seq<Event>, t: nat): nat {
    if es == [] then 0
    else if es[|es| - 1].t == t && es[|es| - 1].call.Write? && Takes(threads, es) then 0
    else Reads(threads, es[..|es| - 1], t) + if es[|es| - 1].t == t && ReadsNow(threads, es) then 1 else 0
  }

  /** How often it has stored since then. */
  ghost function Stores(threads: nat, es: seq<Event>, t: nat): nat {
    if es == [] then 0
    else if es[|es| - 1].t == t && es[|es| - 1].call.Write? && Takes(threads, es) then 0
    else Stores(threads, es[..|es| - 1], t) + if es[|es| - 1].t == t && StoresNow(threads, es) then 1 else 0
  }

  /** What was last stored: the value of the write that the storing thread began last. */
  ghost function LastStored(threads: nat, es: seq<Event>): int {
    if es == [] then 0
    else
      var write := LastWrite(threads, es, es[|es| - 1].t);
      if StoresNow(threads, es) && write.Write? then write.value else LastStored(threads, es[..|es| - 1])
  }

  /** How far a thread is in its request: what it has come to write, and whether it has read. */
  ghost predicate Follows(threads: nat, es: seq<Event>, t: nat, x: Thread) {
    var write, stores, seen := LastWrite(threads, es, t), Stores(threads, es, t), Reads(threads, es, t);
    match x
    case Outside => if write.Write? then stores == 1 && seen == (if write.hit then 1 else 0) else seen == stores == 0
    case Writing(hit, value) => write == Write(hit, value) && stores == 0 == seen
    case Written(hit) => write.Write? && write.hit == hit && stores == 1 && seen == 0
    case Leaving => write.Write? && write.hit && stores == 1 && seen == 1
    case Uncounting => write.Write? && write.hit && stores == 1 && seen == 1
    case Closing => write.Write? && write.hit && stores == 1 && seen == 1
    case Gone => write.Write? && write.hit && stores == 1 && seen == 1
    case _ => write.Write? && write.hit && stores == 1 && seen == 0
  }

  lemma {:induction false} RequestFollowed(threads: nat, es: seq<Event>, t: nat)
    requires t < threads
    ensures var s := Run(threads, es); |s.threads| == threads && Follows(threads, es, t, s.threads[t])
  {
    if es != [] {
      hide Step, Enabled;
      var s, e := Run(threads, es[..|es| - 1]), es[|es| - 1];
      RequestFollowed(threads, es[..|es| - 1], t);
      if Enabled(s, e) {
        ThreadStep(s, e, t);
      }
    }
  }

  /** What a step makes of a thread. */
  lemma ThreadStep(s: State, e: Event, t: nat)
    requires Enabled(s, e) && t < |s.threads|
    ensures |Step(s, e).threads| == |s.threads|
    ensures var x, y := s.threads[t], Step(s, e).threads[t];
            && (t != e.t ==> y == x)
            && (t == e.t && e.call.Write? ==> x.Outside? && y == Writing(e.call.hit, e.call.value))
            && (t == e.t && e.call.Go? ==> !x.Outside? && y == Onward(x))
  {
  }

  /** Where a thread goes from where it is. */
  function Onward(x: Thread): Thread
    requires !x.Outside?
  {
    match x
    case Writing(hit, _) => Written(hit)
    case Written(hit) => if hit then Arriving else Outside
    case Arriving => Counting
    case Counting => Opening
    case Opening => Admitted
    case Admitted => Reading
    case Reading => Leaving
    case Leaving => Uncounting
    case Uncounting => Closing
    case Closing => Gone
    case Gone => Outside
  }

  /** Under every schedule: when a thread has begun a write and is done with its request, it has stored exactly once;
      and it has read the store exactly once if it was a hit, and not at all otherwise. */
  lemma HitsAreRead(threads: nat, es: seq<Event>, t: nat)
    requires t < threads && LastWrite(threads, es, t).Write?
    ensures |Run(threads, es).threads| == threads
    ensures Run(threads, es).threads[t].Outside? ==>
              && Stores(threads, es, t) == 1
              && Reads(threads, es, t) == if LastWrite(threads, es, t).hit then 1 else 0
  {
    hide Run, LastWrite, Stores, Reads;
    RequestFollowed(threads, es, t);
  }

  /** The store holds what the last thread to store came to write. */
  lemma {:induction false} HoldsLastStored(threads: nat, es: seq<Event>)
    ensures Run(threads, es).data == LastStored(threads, es)
  {
    if es != [] {
      var init, t := es[..|es| - 1], es[|es| - 1].t;
      HoldsLastStored(threads, init);
      RunThreads(threads, init);
      if t < threads {
        RequestFollowed(threads, init, t);
      }
    }
  }

  lemma {:induction false} RunThreads(threads: nat, es: seq<Event>)
    ensures |Run(threads, es).threads| == threads
  {
    if es != [] {
      RunThreads(threads, es[..|es| - 1]);
    }
  }

  /** The two semaphores, the reader count and the store in memory, with the threads that share them. */
  class Lock {
    var mutex: nat
    var w: nat
    var readCnt: int
    var data: int
    var threads: seq<Thread>

    function View(): State
      reads this
    {
      State(mutex, w, readCnt, data, threads)
    }

    constructor (threads: nat)
      ensures View() == Initial(threads)
    {
      mutex, w, readCnt, data := 1, 1, 0, 0;
      this.threads := seq(threads, _ => Outside);
    }

    method Advance(e: Event)
      requires Enabled(View(), e)
      modifies this
      ensures View() == Step(old(View()), e)
    {
      var x := threads[e.t];
      if e.call.Write? {
        w := w - 1;
        threads := threads[e.t := Writing(e.call.hit, e.call.value)];
        return;
      }
      var y := Outside;
      match x {
      case Writing(hit, value) => data := value; y := Written(hit);
      case Written(hit) =>
        w := w + 1;
        if hit {
          y := Arriving;
        }
      case Arriving => mutex := mutex - 1; y := Counting;
      case Counting => readCnt := readCnt + 1; y := Opening;
      case Opening =>
        if readCnt == 1 {
          w := w - 1;
        }
        y := Admitted;
      case Admitted => mutex := mutex + 1; y := Reading;
      case Reading => y := Leaving;
      case Leaving => mutex := mutex - 1; y := Uncounting;
      case Uncounting => readCnt := readCnt - 1; y := Closing;
      case Closing =>
        if readCnt == 0 {
          w := w + 1;
        }
        y := Gone;
      case Gone => mutex := mutex + 1;
      }
      threads := threads[e.t := y];
    }

    /** Any schedule on the memory itself: a writer is alone, and the reader count counts the readers. */
    method Execute(threads: nat, es: seq<Event>)
      requires View() == Initial(threads)
      modifies this
      ensures View() == Run(threads, es)
      ensures forall t, u :: 0 <= t < |this.threads| && 0 <= u < |this.threads| && t != u && Writer(this.threads[t]) ==>
                !Writer(this.threads[u]) && !Inside(this.threads[u])
      ensures readCnt == Count(this.threads, Counted) && data == LastStored(threads, es)
    {
      var i := 0;
      while i < |es|
        invariant i <= |es| && View() == Run(threads, es[..i])
      {
        assert es[..i + 1][..i] == es[..i];
        if Enabled(View(), es[i]) {
          Advance(es[i]);
        }
        i := i + 1;
      }
      assert es[..i] == es;
      MutualExclusion(threads, es);
      HoldsLastStored(threads, es);
    }
  }
}
