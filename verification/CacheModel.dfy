/** What the cache simulator computes: a recency list for each set, and three counters. */
module CacheModel {
  import opened Basics
  import opened Recency

  /** One line of a trace: the operation and the 64-bit address it refers to. */
  datatype Access = Access(op: char, address: int)

  /** `lists[s]` holds the tags of set `s`, most recently used first. */
  datatype Sim = Sim(lists: seq<seq<int>>, hit: nat, miss: nat, evict: nat)

  function Pow2(n: nat): (p: nat)
    ensures p > 0
  {
    if n == 0 then 1 else 2 * Pow2(n - 1)
  }

  function SetOf(s: nat, b: nat, address: int): (i: nat)
    ensures i < Pow2(s)
  {
    address / Pow2(b) % Pow2(s)
  }

  /** The tag without the narrowing: the address shifted right. */
  function WideTag(s: nat, b: nat, address: int): int {
    address / Pow2(b + s)
  }

  lemma {:induction false} Pow2Add(m: nat, n: nat)
    ensures Pow2(m + n) == Pow2(m) * Pow2(n)
  {
    if m > 0 {
      Pow2Add(m - 1, n);
      assert Pow2(m + n) == 2 * (Pow2(m - 1) * Pow2(n));
    }
  }

  lemma DivTwice(x: int, p: nat, q: nat)
    requires 0 < p && 0 < q
    ensures 0 < p * q && x / (p * q) == x / p / q
  {
    var k := x / p / q;
    var r := x / p - q * k;
    assert x / p == q * k + r && 0 <= r <= q - 1;
    Bounded(p, r, q - 1, x % p);
    assert x == p * (q * k + r) + x % p;
    assert x == (p * q) * k + (p * r + x % p);
    Unique(x, p * q, k, p * r + x % p);
  }

  lemma Bounded(p: nat, r: nat, q: nat, s: nat)
    requires r <= q && s < p
    ensures 0 <= p * r + s < p * (q + 1)
  {
    assert p * r <= p * q;
  }

  lemma Unique(x: int, d: nat, k: int, r: int)
    requires 0 <= r < d && x == d * k + r
    ensures x / d == k
  {
    var j := x / d;
    assert d * j <= x < d * (j + 1) && d * k <= x < d * (k + 1);
    Times(j, k + 1, d);
    Times(k, j + 1, d);
  }

  lemma Times(a: int, b: int, p: int)
    requires 0 < p && p * a < p * b
    ensures a < b
  {
    assert 0 < p * (b - a);
  }

  lemma Parts(s: nat, b: nat, x: int)
    ensures SetOf(s, b, x) == x / Pow2(b) % Pow2(s) && WideTag(s, b, x) == x / Pow2(b) / Pow2(s)
  {
    hide Pow2;
    Pow2Add(b, s);
    DivTwice(x, Pow2(b), Pow2(s));
  }

  lemma Recompose(u: int, v: int, p: nat)
    requires 0 < p
    ensures u % p == v % p && u / p == v / p <==> u == v
  {
    assert u == p * (u / p) + u % p && v == p * (v / p) + v % p;
  }

  /** Two addresses have the same set and the same tag if and only if they lie in the same block. */
  lemma SameBlock(s: nat, b: nat, x: int, y: int)
    ensures SetOf(s, b, x) == SetOf(s, b, y) && WideTag(s, b, x) == WideTag(s, b, y) <==> x / Pow2(b) == y / Pow2(b)
  {
    hide Pow2, SetOf, WideTag;
    Parts(s, b, x);
    Parts(s, b, y);
    Recompose(x / Pow2(b), y / Pow2(b), Pow2(s));
  }

  /** What is left of a number passed as a 32-bit int. */
  function ToInt(x: int): int {
    var low := x % 0x1_0000_0000;
    if low < 0x8000_0000 then low else low - 0x1_0000_0000
  }

  /** It is the only number in the range of an int that differs from `x` by a multiple of 2^32. */
  lemma ToIntMeans(x: int, r: int)
    ensures r == ToInt(x) <==> -0x8000_0000 <= r < 0x8000_0000 && (x - r) % 0x1_0000_0000 == 0
  {
    var m := 0x1_0000_0000;
    assert x == m * (x / m) + x % m;
    if (x - r) % m == 0 {
      assert x - r == m * ((x - r) / m);
    }
  }

  /** The shape of a cache: `2^s` sets of `e` lines with blocks of `2^b` bytes. */
  datatype Shape = Shape(s: nat, e: nat, b: nat)

  function Fresh(c: Shape): Sim {
    Sim(seq(Pow2(c.s), _ => []), 0, 0, 0)
  }

  ghost predicate Fitting(c: Shape, sim: Sim) {
    0 < c.e && |sim.lists| == Pow2(c.s)
  }

  /** One load of `tag` into set `i`. */
  function Load(e: nat, sim: Sim, i: nat, tag: int): Sim
    requires 0 < e && i < |sim.lists|
  {
    var r := sim.lists[i];
    var lists := sim.lists[i := Lru(e, r, tag)];
    if Place(r, tag) < |r| then Sim(lists, sim.hit + 1, sim.miss, sim.evict)
    else if |r| < e then Sim(lists, sim.hit, sim.miss + 1, sim.evict)
    else Sim(lists, sim.hit, sim.miss + 1, sim.evict + 1)
  }

  predicate IsLoad(op: char) {
    op == 'L' || op == 'S' || op == 'M'
  }

  /** One line of the trace, its tag cut down by `cut`. A modify counts a second hit for its store;
      other operations are ignored. */
  function Step(c: Shape, cut: int -> int, sim: Sim, a: Access): (t: Sim)
    requires Fitting(c, sim)
    ensures Fitting(c, t)
  {
    if IsLoad(a.op) then
      var t := Load(c.e, sim, SetOf(c.s, c.b, a.address), cut(WideTag(c.s, c.b, a.address)));
      if a.op == 'M' then t.(hit := t.hit + 1) else t
    else sim
  }

  function Run(c: Shape, cut: int -> int, trace: seq<Access>): (t: Sim)
    requires 0 < c.e
    ensures Fitting(c, t)
  {
    if trace == [] then Fresh(c)
    else Step(c, cut, Run(c, cut, trace[..|trace| - 1]), trace[|trace| - 1])
  }

  /** The tags that a trace brings to set `i`, in order. */
  function TagsFor(c: Shape, cut: int -> int, trace: seq<Access>, i: nat): seq<int> {
    if trace == [] then []
    else
      var init, a := TagsFor(c, cut, trace[..|trace| - 1], i), trace[|trace| - 1];
      if IsLoad(a.op) && SetOf(c.s, c.b, a.address) == i
      then init + [cut(WideTag(c.s, c.b, a.address))] else init
  }

  /** A set holds its most recently used distinct tags, as many as fit, most recent first. */
  lemma {:induction false} SetsHoldMostRecent(c: Shape, cut: int -> int, trace: seq<Access>, i: nat)
    requires 0 < c.e && i < Pow2(c.s)
    ensures Run(c, cut, trace).lists[i] == Take(After(TagsFor(c, cut, trace, i)), c.e)
  {
    hide Lru, Touch, Take, Place, Load, SetOf, WideTag;
    if trace == [] {
      TakeEmpty(c.e);
    } else {
      var init, a := trace[..|trace| - 1], trace[|trace| - 1];
      SetsHoldMostRecent(c, cut, init, i);
      var k, t := SetOf(c.s, c.b, a.address), cut(WideTag(c.s, c.b, a.address));
      LoadLists(c.e, Run(c, cut, init), k, t);
      if IsLoad(a.op) && k == i {
        var tags := TagsFor(c, cut, init, i);
        LruIsTake(c.e, After(tags), t);
        AfterOneMore(tags, t);
      }
    }
  }

  lemma LoadLists(e: nat, sim: Sim, i: nat, tag: int)
    requires 0 < e && i < |sim.lists|
    ensures Load(e, sim, i, tag).lists == sim.lists[i := Lru(e, sim.lists[i], tag)]
  {
  }

  lemma TakeEmpty(e: nat)
    ensures Take([], e) == []
  {
  }

  lemma AfterOneMore(tags: seq<int>, t: int)
    ensures After(tags + [t]) == Touch(After(tags), t)
  {
    assert (tags + [t])[..|tags|] == tags;
  }

  /** A load hits exactly if fewer than `e` other tags have come to the set since the tag's last use. */
  lemma HitIffRecent(c: Shape, cut: int -> int, trace: seq<Access>, i: nat, tag: int)
    requires 0 < c.e && i < Pow2(c.s)
    ensures var sim, tags := Run(c, cut, trace), TagsFor(c, cut, trace, i);
            Load(c.e, sim, i, tag).hit == sim.hit + (if tag in tags && |Since(tags, tag)| < c.e then 1 else 0)
  {
    SetsHoldMostRecent(c, cut, trace, i);
    HitMeansRecent(c.e, TagsFor(c, cut, trace, i), tag);
    var r := Run(c, cut, trace).lists[i];
    assert tag in r <==> Place(r, tag) < |r| by {
      assert r[..|r|] == r;
    }
  }

  /** Inclusion: with more lines, every set holds at least what it holds with fewer, at every step of
      every trace; so hits never go down and misses never go up. */
  lemma {:induction false} Inclusion(c: Shape, d: Shape, cut: int -> int, trace: seq<Access>)
    requires 0 < c.e <= d.e && d.s == c.s && d.b == c.b
    ensures var x, y := Run(c, cut, trace), Run(d, cut, trace);
            && (forall i :: 0 <= i < Pow2(c.s) ==> x.lists[i] <= y.lists[i])
            && x.hit <= y.hit && y.miss <= x.miss
  {
    forall i | 0 <= i < Pow2(c.s) ensures Run(c, cut, trace).lists[i] <= Run(d, cut, trace).lists[i] {
      SetsHoldMostRecent(c, cut, trace, i);
      SetsHoldMostRecent(d, cut, trace, i);
      SameTags(c, d, cut, trace, i);
    }
    if trace != [] {
      var init, a := trace[..|trace| - 1], trace[|trace| - 1];
      Inclusion(c, d, cut, init);
      if IsLoad(a.op) {
        var i, t := SetOf(c.s, c.b, a.address), cut(WideTag(c.s, c.b, a.address));
        PrefixPlace(Run(c, cut, init).lists[i], Run(d, cut, init).lists[i], t);
      }
    }
  }

  lemma {:induction false} SameTags(c: Shape, d: Shape, cut: int -> int, trace: seq<Access>, i: nat)
    requires d.s == c.s && d.b == c.b
    ensures TagsFor(c, cut, trace, i) == TagsFor(d, cut, trace, i)
  {
    if trace != [] {
      SameTags(c, d, cut, trace[..|trace| - 1], i);
    }
  }

  lemma PrefixPlace(r: seq<int>, v: seq<int>, t: int)
    requires r <= v
    ensures Place(r, t) < |r| ==> Place(v, t) < |v|
  {
    var k := Place(v, t);
    assert v[..|v|] == v;
  }

  // ---------- accounting ----------

  function Loads(trace: seq<Access>): nat {
    if trace == [] then 0
    else
      var op := trace[|trace| - 1].op;
      Loads(trace[..|trace| - 1]) + (if op == 'M' then 2 else if op == 'L' || op == 'S' then 1 else 0)
  }

  function Lines(lists: seq<seq<int>>): nat {
    if lists == [] then 0 else |lists[0]| + Lines(lists[1..])
  }

  lemma {:induction false} LinesUpdate(lists: seq<seq<int>>, i: nat, r: seq<int>)
    requires i < |lists|
    ensures Lines(lists[i := r]) == Lines(lists) - |lists[i]| + |r|
  {
    if i > 0 {
      LinesUpdate(lists[1..], i - 1, r);
      assert lists[i := r][1..] == lists[1..][i - 1 := r];
    } else {
      assert lists[0 := r][1..] == lists[1..];
    }
  }

  lemma {:induction false} LinesFresh(lists: seq<seq<int>>)
    requires forall i :: 0 <= i < |lists| ==> lists[i] == []
    ensures Lines(lists) == 0
  {
    if lists != [] {
      LinesFresh(lists[1..]);
    }
  }

  /** What one load adds to the counters is what it adds to the sets. */
  lemma LoadAccounts(e: nat, sim: Sim, i: nat, tag: int)
    requires 0 < e && i < |sim.lists| && forall k :: 0 <= k < |sim.lists| ==> |sim.lists[k]| <= e
    ensures var t := Load(e, sim, i, tag);
            && t.hit + t.miss == sim.hit + sim.miss + 1
            && t.miss - t.evict - Lines(t.lists) == sim.miss - sim.evict - Lines(sim.lists)
            && forall k :: 0 <= k < |t.lists| ==> |t.lists[k]| <= e
  {
    LinesUpdate(sim.lists, i, Lru(e, sim.lists[i], tag));
  }

  /** Every load or store is a hit or a miss, a modify is two; and every miss that did not evict a line
      has filled one. */
  lemma {:induction false} Accounting(c: Shape, cut: int -> int, trace: seq<Access>)
    requires 0 < c.e
    ensures var t := Run(c, cut, trace);
            && t.hit + t.miss == Loads(trace)
            && t.miss - t.evict == Lines(t.lists)
            && forall k :: 0 <= k < |t.lists| ==> |t.lists[k]| <= c.e
  {
    hide Load, Lines, Lru;
    if trace == [] {
      LinesFresh(Fresh(c).lists);
    } else {
      var init, a := trace[..|trace| - 1], trace[|trace| - 1];
      Accounting(c, cut, init);
      LoadAccounts(c.e, Run(c, cut, init), SetOf(c.s, c.b, a.address), cut(WideTag(c.s, c.b, a.address)));
    }
  }

  // ---------- the counters, from the trace alone ----------

  /** Line `i` of the trace brings a block to a set. */
  predicate Brings(trace: seq<Access>, i: nat)
    requires i < |trace|
  {
    trace[i].op == 'L' || trace[i].op == 'S' || trace[i].op == 'M'
  }

  /** The tags brought to the set of line `i` before it. */
  function Earlier(c: Shape, cut: int -> int, trace: seq<Access>, i: nat): seq<int>
    requires i < |trace|
  {
    TagsFor(c, cut, trace[..i], SetOf(c.s, c.b, trace[i].address))
  }

  /** The tag of line `i` was brought to its set before, with fewer than `e` others since. */
  predicate HitAt(c: Shape, cut: int -> int, trace: seq<Access>, i: nat)
    requires i < |trace|
  {
    var tag := cut(WideTag(c.s, c.b, trace[i].address));
    Brings(trace, i) && tag in Earlier(c, cut, trace, i) && |Since(Earlier(c, cut, trace, i), tag)| < c.e
  }

  predicate MissAt(c: Shape, cut: int -> int, trace: seq<Access>, i: nat)
    requires i < |trace|
  {
    Brings(trace, i) && !HitAt(c, cut, trace, i)
  }

  function Distinct(tags: seq<int>): set<int> {
    set tag | tag in tags
  }

  /** A miss on a set to which at least `e` different tags have been brought. */
  predicate EvictAt(c: Shape, cut: int -> int, trace: seq<Access>, i: nat)
    requires i < |trace|
  {
    MissAt(c, cut, trace, i) && |Distinct(Earlier(c, cut, trace, i))| >= c.e
  }

  function Hits(c: Shape, cut: int -> int, trace: seq<Access>): set<nat> {
    set i: nat | i < |trace| && HitAt(c, cut, trace, i)
  }

  function Misses(c: Shape, cut: int -> int, trace: seq<Access>): set<nat> {
    set i: nat | i < |trace| && MissAt(c, cut, trace, i)
  }

  function Evictions(c: Shape, cut: int -> int, trace: seq<Access>): set<nat> {
    set i: nat | i < |trace| && EvictAt(c, cut, trace, i)
  }

  function Modifies(trace: seq<Access>): set<nat> {
    set i: nat | i < |trace| && trace[i].op == 'M'
  }

  /** Every counter is a number of lines of the trace. Hits are the lines whose block is recent, and the stores of all
      modifies; misses the other lines that load or store; evictions the misses on sets that are full. */
  lemma {:induction false} Counters(c: Shape, cut: int -> int, trace: seq<Access>)
    requires 0 < c.e
    ensures var t := Run(c, cut, trace);
            && t.hit == |Hits(c, cut, trace)| + |Modifies(trace)|
            && t.miss == |Misses(c, cut, trace)|
            && t.evict == |Evictions(c, cut, trace)|
  {
    hide HitAt, MissAt, EvictAt, Step, Brings;
    if trace == [] {
      NoLines(c, cut);
    } else {
      var n := |trace| - 1;
      Counters(c, cut, trace[..n]);
      OneLineMore(c, cut, trace);
      LineCounts(c, cut, trace);
    }
  }

  lemma NoLines(c: Shape, cut: int -> int)
    ensures Hits(c, cut, []) == {} == Misses(c, cut, []) && Evictions(c, cut, []) == {} == Modifies([])
  {
  }

  /** What a line counts does not depend on the lines behind it. */
  lemma LinesBefore(c: Shape, cut: int -> int, trace: seq<Access>, i: nat)
    requires i < |trace| - 1
    ensures var init := trace[..|trace| - 1];
            && HitAt(c, cut, init, i) == HitAt(c, cut, trace, i) && MissAt(c, cut, init, i) == MissAt(c, cut, trace, i)
            && EvictAt(c, cut, init, i) == EvictAt(c, cut, trace, i)
  {
    hide TagsFor, Since;
    assert trace[..|trace| - 1][..i] == trace[..i];
  }

  lemma OneLineMore(c: Shape, cut: int -> int, trace: seq<Access>)
    requires trace != []
    ensures var n := |trace| - 1;
            var init := trace[..n];
            && |Hits(c, cut, trace)| == |Hits(c, cut, init)| + (if HitAt(c, cut, trace, n) then 1 else 0)
            && |Misses(c, cut, trace)| == |Misses(c, cut, init)| + (if MissAt(c, cut, trace, n) then 1 else 0)
            && |Evictions(c, cut, trace)| == |Evictions(c, cut, init)| + (if EvictAt(c, cut, trace, n) then 1 else 0)
            && |Modifies(trace)| == |Modifies(init)| + (if trace[n].op == 'M' then 1 else 0)
  {
    hide HitAt, MissAt, EvictAt, Hits, Misses, Evictions, Modifies;
    var n := |trace| - 1;
    var init := trace[..n];
    HitsOneMore(c, cut, trace);
    MissesOneMore(c, cut, trace);
    EvictionsOneMore(c, cut, trace);
    ModifiesOneMore(trace);
    OneMore(Hits(c, cut, init), Hits(c, cut, trace), n, HitAt(c, cut, trace, n));
    OneMore(Misses(c, cut, init), Misses(c, cut, trace), n, MissAt(c, cut, trace, n));
    OneMore(Evictions(c, cut, init), Evictions(c, cut, trace), n, EvictAt(c, cut, trace, n));
    OneMore(Modifies(init), Modifies(trace), n, trace[n].op == 'M');
  }

  ghost predicate Adds(a: set<nat>, b: set<nat>, n: nat, p: bool) {
    n !in a && forall i :: i in b <==> i in a || (p && i == n)
  }

  lemma OneMore(a: set<nat>, b: set<nat>, n: nat, p: bool)
    requires Adds(a, b, n, p)
    ensures |b| == |a| + if p then 1 else 0
  {
    assert b == a + if p then {n} else {};
  }

  lemma HitsOneMore(c: Shape, cut: int -> int, trace: seq<Access>)
    requires trace != []
    ensures var n := |trace| - 1; Adds(Hits(c, cut, trace[..n]), Hits(c, cut, trace), n, HitAt(c, cut, trace, n))
  {
    hide HitAt, MissAt, EvictAt;
    forall i: nat | i < |trace| - 1 ensures HitAt(c, cut, trace[..|trace| - 1], i) == HitAt(c, cut, trace, i) {
      LinesBefore(c, cut, trace, i);
    }
  }

  lemma MissesOneMore(c: Shape, cut: int -> int, trace: seq<Access>)
    requires trace != []
    ensures var n := |trace| - 1;
            Adds(Misses(c, cut, trace[..n]), Misses(c, cut, trace), n, MissAt(c, cut, trace, n))
  {
    hide HitAt, MissAt, EvictAt;
    forall i: nat | i < |trace| - 1 ensures MissAt(c, cut, trace[..|trace| - 1], i) == MissAt(c, cut, trace, i) {
      LinesBefore(c, cut, trace, i);
    }
  }

  lemma EvictionsOneMore(c: Shape, cut: int -> int, trace: seq<Access>)
    requires trace != []
    ensures var n := |trace| - 1;
            Adds(Evictions(c, cut, trace[..n]), Evictions(c, cut, trace), n, EvictAt(c, cut, trace, n))
  {
    hide HitAt, MissAt, EvictAt;
    forall i: nat | i < |trace| - 1 ensures EvictAt(c, cut, trace[..|trace| - 1], i) == EvictAt(c, cut, trace, i) {
      LinesBefore(c, cut, trace, i);
    }
  }

  lemma ModifiesOneMore(trace: seq<Access>)
    requires trace != []
    ensures var n := |trace| - 1; Adds(Modifies(trace[..n]), Modifies(trace), n, trace[n].op == 'M')
  {
  }

  /** What the last line adds to the counters. */
  lemma LineCounts(c: Shape, cut: int -> int, trace: seq<Access>)
    requires 0 < c.e && trace != []
    ensures var n := |trace| - 1;
            var s, t := Run(c, cut, trace[..n]), Run(c, cut, trace);
            && t.hit == s.hit + (if HitAt(c, cut, trace, n) then 1 else 0) + (if trace[n].op == 'M' then 1 else 0)
            && t.miss == s.miss + (if MissAt(c, cut, trace, n) then 1 else 0)
            && t.evict == s.evict + (if EvictAt(c, cut, trace, n) then 1 else 0)
  {
    hide Lru, Place, Since, SetOf, WideTag, Take, After;
    var n, a := |trace| - 1, trace[|trace| - 1];
    var init, k, tag := trace[..n], SetOf(c.s, c.b, a.address), cut(WideTag(c.s, c.b, a.address));
    HitIffRecent(c, cut, init, k, tag);
    FullSet(c, cut, init, k);
  }

  /** A set is full exactly if at least `e` different tags have been brought to it. */
  lemma FullSet(c: Shape, cut: int -> int, trace: seq<Access>, i: nat)
    requires 0 < c.e && i < Pow2(c.s)
    ensures |Run(c, cut, trace).lists[i]| >= c.e <==> |Distinct(TagsFor(c, cut, trace, i))| >= c.e
  {
    hide After, Take, TagsFor, Run;
    var tags := TagsFor(c, cut, trace, i);
    SetsHoldMostRecent(c, cut, trace, i);
    AfterCovers(tags);
    DistinctCount(After(tags));
    SameMembers(tags, After(tags));
    TakeFull(After(tags), c.e);
  }

  lemma TakeFull(r: seq<int>, e: nat)
    ensures |Take(r, e)| >= e <==> |r| >= e
  {
  }

  lemma SameMembers(s: seq<int>, t: seq<int>)
    requires forall x :: x in s <==> x in t
    ensures Distinct(s) == Distinct(t)
  {
    assert forall x :: x in Distinct(s) <==> x in Distinct(t);
  }

  lemma {:induction false} DistinctCount(s: seq<int>)
    requires NoDup(s)
    ensures |Distinct(s)| == |s|
  {
    if s != [] {
      DistinctCount(s[1..]);
      assert Distinct(s) == {s[0]} + Distinct(s[1..]);
    }
  }

  // ---------- which bits ----------

  /** Two addresses fall into the same set exactly if their blocks are a multiple of the number of sets apart. */
  lemma SameSet(s: nat, b: nat, x: int, y: int)
    ensures SetOf(s, b, x) == SetOf(s, b, y) <==> (x / Pow2(b) - y / Pow2(b)) % Pow2(s) == 0
  {
    hide Pow2;
    SameRest(x / Pow2(b), y / Pow2(b), Pow2(s));
  }

  lemma SameRest(u: int, v: int, p: nat)
    requires 0 < p
    ensures u % p == v % p <==> (u - v) % p == 0
  {
    var i, j, q, r := u / p, v / p, u % p, v % p;
    assert u == p * i + q && v == p * j + r;
    Multiples(u - v, p, i - j, q - r);
  }

  lemma Multiples(x: int, p: nat, d: int, r: int)
    requires 0 < p && -(p as int) < r < p && x == p * d + r
    ensures x % p == 0 <==> r == 0
  {
    if r >= 0 {
      Unique(x, p, d, r);
      Leaves(x, p, d);
    } else {
      assert x == p * (d - 1) + (p + r);
      Unique(x, p, d - 1, p + r);
      Leaves(x, p, d - 1);
    }
  }

  lemma Leaves(x: int, p: nat, k: int)
    requires 0 < p && x / p == k
    ensures x % p == x - p * k
  {
  }
}
