/** The cache simulator on its lines: valid bits, tags and access times, updated in place. */
module CacheSimulator {
  import opened Basics
  import opened Recency
  import opened CacheModel
  import opened RankedLines

  class Line {
    var validBit: bool
    var tag: int
    var accessTime: int

    constructor ()
      ensures !validBit
    {
      validBit := false;
    }
  }

  // ---------- sets as stretches of one flat array ----------

  lemma SlotInside(sets: nat, e: nat, i: nat, line: nat)
    requires i < sets && line <= e
    ensures e * i + line <= e * i + e <= sets * e
  {
    assert e * i + e == e * (i + 1);
    assert e * (i + 1) <= e * sets;
  }

  function Set(flat: seq<Content>, e: nat, i: nat): (v: seq<Content>)
    requires e * i + e <= |flat|
    ensures |v| == e
  {
    flat[e * i..e * i + e]
  }

  /** Changing a line of one set changes that set alone. */
  lemma SetUpdate(flat: seq<Content>, sets: nat, e: nat, i: nat, line: nat, x: Content)
    requires |flat| == sets * e && i < sets && line < e
    ensures e * i + line < |flat| && e * i + e <= |flat|
    ensures Set(flat[e * i + line := x], e, i) == Set(flat, e, i)[line := x]
    ensures forall j :: 0 <= j < sets && j != i ==>
              e * j + e <= |flat| && Set(flat[e * i + line := x], e, j) == Set(flat, e, j)
  {
    hide Set;
    SlotInside(sets, e, i, e);
    SameSet(flat, e, i, line, x);
    forall j | 0 <= j < sets && j != i
      ensures e * j + e <= |flat| && Set(flat[e * i + line := x], e, j) == Set(flat, e, j)
    {
      SlotInside(sets, e, j, e);
      if j < i {
        SlotInside(i, e, j, e);
      } else {
        SlotInside(j, e, i, e);
      }
      OtherSet(flat, e, j, e * i + line, x);
    }
  }

  lemma SameSet(flat: seq<Content>, e: nat, i: nat, line: nat, x: Content)
    requires e * i + e <= |flat| && line < e
    ensures Set(flat[e * i + line := x], e, i) == Set(flat, e, i)[line := x]
  {
    var lo := e * i;
    SliceUpdate(flat, lo, lo + e, lo + line, x);
  }

  lemma OtherSet(flat: seq<Content>, e: nat, j: nat, at: nat, x: Content)
    requires e * j + e <= |flat| && at < |flat| && !(e * j <= at < e * j + e)
    ensures Set(flat[at := x], e, j) == Set(flat, e, j)
  {
    var lo := e * j;
    SliceUpdate(flat, lo, lo + e, at, x);
  }

  lemma SliceUpdate(flat: seq<Content>, lo: nat, hi: nat, at: nat, x: Content)
    requires lo <= hi <= |flat| && at < |flat|
    ensures lo <= at < hi ==> flat[at := x][lo..hi] == flat[lo..hi][at - lo := x]
    ensures !(lo <= at < hi) ==> flat[at := x][lo..hi] == flat[lo..hi]
  {
  }

  /** The flat array holds, for each set, ranked lines with these tags. */
  ghost predicate Represents(flat: seq<Content>, e: nat, order: seq<seq<nat>>, lists: seq<seq<int>>, now: nat) {
    && 0 < e && |flat| == |order| * e && |lists| == |order|
    && forall i {:trigger order[i]} :: 0 <= i < |order| ==> SetRepresents(flat, e, i, order[i], lists[i], now)
  }

  ghost predicate SetRepresents(flat: seq<Content>, e: nat, i: nat, o: seq<nat>, r: seq<int>, now: nat) {
    e * i + e <= |flat| && Ranked(Set(flat, e, i), o, now) && r == Tags(Set(flat, e, i), o)
  }

  lemma LineWritten(flat: seq<Content>, e: nat, order: seq<seq<nat>>, lists: seq<seq<int>>, now: nat,
                    i: nat, line: nat, x: Content, o: seq<nat>)
    requires Represents(flat, e, order, lists, now) && i < |order| && line < e
    requires e * i + e <= |flat| && Ranked(Set(flat, e, i)[line := x], o, now + 1)
    ensures e * i + line < |flat|
    ensures Represents(flat[e * i + line := x], e, order[i := o],
                       lists[i := Tags(Set(flat, e, i)[line := x], o)], now + 1)
  {
    hide Tags, Set;
    SetUpdate(flat, |order|, e, i, line, x);
    var flat', order' := flat[e * i + line := x], order[i := o];
    var lists' := lists[i := Tags(Set(flat, e, i)[line := x], o)];
    forall j | 0 <= j < |order'| ensures SetRepresents(flat', e, j, order'[j], lists'[j], now + 1) {
      if j != i {
        assert SetRepresents(flat, e, j, order[j], lists[j], now);
        RankedLater(Set(flat, e, j), order[j], now);
      }
    }
  }

  /** A hit: the line gets the current time, and its tag moves to the front of the list. */
  lemma HitStep(flat: seq<Content>, e: nat, order: seq<seq<nat>>, lists: seq<seq<int>>, now: nat, i: nat, line: nat)
    returns (o: seq<nat>)
    requires Represents(flat, e, order, lists, now) && i < |order| && line < e
    requires e * i + e <= |flat| && Set(flat, e, i)[line].valid
    ensures e * i + line < |flat|
    ensures var t := Set(flat, e, i)[line].tag;
            && Place(lists[i], t) < |lists[i]|
            && Represents(flat[e * i + line := Content(true, t, now + 1)], e, order[i := o],
                          lists[i := Lru(e, lists[i], t)], now + 1)
  {
    hide Lru, Place, Set, Ranked, Tags;
    assert SetRepresents(flat, e, i, order[i], lists[i], now);
    var t := Set(flat, e, i)[line].tag;
    o := Hit(Set(flat, e, i), order[i], now, line, e);
    TagsLength(Set(flat, e, i), order[i], now);
    LineWritten(flat, e, order, lists, now, i, line, Content(true, t, now + 1), o);
  }

  /** A miss that fills an empty line. */
  lemma FillStep(flat: seq<Content>, e: nat, order: seq<seq<nat>>, lists: seq<seq<int>>, now: nat,
                 i: nat, line: nat, t: int)
    requires Represents(flat, e, order, lists, now) && i < |order| && line < e && e * i + e <= |flat|
    requires Unhit(Set(flat, e, i), t, e) && !Set(flat, e, i)[line].valid && Full(Set(flat, e, i), line)
    ensures e * i + line < |flat| && Place(lists[i], t) == |lists[i]| < e
    ensures Represents(flat[e * i + line := Content(true, t, now + 1)], e, order[i := [line] + order[i]],
                       lists[i := Lru(e, lists[i], t)], now + 1)
  {
    hide Place, Lru, Set, Ranked, Tags;
    var v, o := Set(flat, e, i), order[i];
    assert SetRepresents(flat, e, i, o, lists[i], now);
    Fill(v, o, now, line, t);
    TagsLength(v, o, now);
    LineWritten(flat, e, order, lists, now, i, line, Content(true, t, now + 1), [line] + o);
  }

  /** A miss on a full set: the line at the end of the order is replaced. */
  lemma ReplaceStep(flat: seq<Content>, e: nat, order: seq<seq<nat>>, lists: seq<seq<int>>, now: nat, i: nat, t: int)
    returns (o: seq<nat>)
    requires Represents(flat, e, order, lists, now) && i < |order| && e * i + e <= |flat|
    requires Unhit(Set(flat, e, i), t, e) && Full(Set(flat, e, i), e)
    ensures Place(lists[i], t) == |lists[i]| == e == |order[i]| && e * i + order[i][e - 1] < e * i + e
    ensures Represents(flat[e * i + order[i][e - 1] := Content(true, t, now + 1)], e, order[i := o],
                       lists[i := Lru(e, lists[i], t)], now + 1)
  {
    hide Place, Lru, Set, Ranked, Tags;
    var v, p := Set(flat, e, i), order[i];
    assert SetRepresents(flat, e, i, p, lists[i], now);
    o := Replaced(v, p, now, t);
    TagsLength(v, p, now);
    LineWritten(flat, e, order, lists, now, i, p[e - 1], Content(true, t, now + 1), o);
  }

  /** In a full set, the line at the end of the order has the least time. */
  lemma OldestIsLast(flat: seq<Content>, e: nat, order: seq<seq<nat>>, lists: seq<seq<int>>, now: nat, i: nat)
    requires Represents(flat, e, order, lists, now) && i < |order| && e * i + e <= |flat|
    requires Full(Set(flat, e, i), e)
    ensures |order[i]| == e && order[i][e - 1] < e && Set(flat, e, i)[order[i][e - 1]].time <= now
    ensures forall k :: 0 <= k < e && k != order[i][e - 1] ==>
              Set(flat, e, i)[order[i][e - 1]].time < Set(flat, e, i)[k].time
  {
    hide Set;
    assert SetRepresents(flat, e, i, order[i], lists[i], now);
    OldestLast(Set(flat, e, i), order[i], now);
  }

  lemma UnhitPlace(flat: seq<Content>, e: nat, order: seq<seq<nat>>, lists: seq<seq<int>>, now: nat, i: nat, tag: int)
    requires Represents(flat, e, order, lists, now) && i < |order| && e * i + e <= |flat|
    requires Unhit(Set(flat, e, i), tag, e)
    ensures Place(lists[i], tag) == |lists[i]|
  {
    hide Place, Set;
    assert SetRepresents(flat, e, i, order[i], lists[i], now);
    MissTags(Set(flat, e, i), order[i], now, tag);
  }

  /** Line `k` of set `i`. */
  lemma LineOf(flat: seq<Content>, sets: nat, e: nat, i: nat)
    requires |flat| == sets * e && i < sets
    ensures e * i + e <= |flat|
    ensures forall k :: 0 <= k < e ==> Set(flat, e, i)[k] == flat[e * i + k]
  {
    SlotInside(sets, e, i, e);
  }

  lemma FullLength(flat: seq<Content>, e: nat, order: seq<seq<nat>>, lists: seq<seq<int>>, now: nat, i: nat)
    requires Represents(flat, e, order, lists, now) && i < |order| && e * i + e <= |flat|
    requires Full(Set(flat, e, i), e)
    ensures |lists[i]| == e
  {
    hide Set;
    assert SetRepresents(flat, e, i, order[i], lists[i], now);
    FilledLines(Set(flat, e, i), order[i], now, e);
  }

  class Cache {
    const shape: Shape
    const lines: array<Line>
    ghost const repr: set<Line>
    var hit: nat
    var miss: nat
    var evict: nat
    ghost var content: seq<Content>
    ghost var order: seq<seq<nat>>
    ghost var lists: seq<seq<int>>

    /** The lines are different objects, and `content` is what they hold. */
    ghost predicate Mirrored()
      reads this, lines, repr
    {
      && |content| == lines.Length
      && (forall i :: 0 <= i < lines.Length ==> lines[i] in repr)
      && (forall i, j :: 0 <= i < j < lines.Length ==> lines[i] != lines[j])
      && (forall i :: 0 <= i < lines.Length ==>
            content[i] == Content(lines[i].validBit, lines[i].tag, lines[i].accessTime))
    }

    ghost predicate Valid(now: nat)
      reads this, lines, repr
    {
      && Mirrored()
      && 0 < shape.e && |lists| == |order| == Pow2(shape.s) && |content| == |order| * shape.e
      && Represents(content, shape.e, order, lists, now)
    }

    ghost function View(): Sim
      reads this
    {
      Sim(lists, hit, miss, evict)
    }

    /** Storing a line's new contents. */
    method WriteLine(at: nat, tag: int, time: nat)
      requires Mirrored() && at < lines.Length
      modifies `content, repr
      ensures Mirrored() && content == old(content)[at := Content(true, tag, time)]
    {
      var line := lines[at];
      line.validBit := true;
      line.tag := tag;
      line.accessTime := time;
      content := content[at := Content(true, tag, time)];
    }

    method TouchLine(at: nat, time: nat)
      requires Mirrored() && at < lines.Length
      modifies `content, repr
      ensures Mirrored() && content == old(content)[at := old(content)[at].(time := time)]
    {
      lines[at].accessTime := time;
      content := content[at := content[at].(time := time)];
    }

    method CountHit(i: nat, line: nat, tag: int, time: nat)
      requires 0 < time && Valid(time - 1) && i < Pow2(shape.s) && line < shape.e && LineRoom(i)
      requires Set(content, shape.e, i)[line] == Content(true, tag, Set(content, shape.e, i)[line].time)
      modifies `hit, `content, `order, `lists, repr
      ensures Place(old(lists)[i], tag) < |old(lists)[i]|
      ensures Valid(time) && hit == old(hit) + 1 && lists == old(lists)[i := Lru(shape.e, old(lists)[i], tag)]
    {
      hide Represents, Lru, Place, Set;
      LineOf(content, |order|, shape.e, i);
      hit := hit + 1;
      ghost var o := HitStep(content, shape.e, order, lists, time - 1, i, line);
      TouchLine(shape.e * i + line, time);
      order, lists := order[i := o], lists[i := Lru(shape.e, lists[i], tag)];
    }

    method IfCacheHit(i: nat, tag: int, time: nat) returns (r: bool)
      requires 0 < time && Valid(time - 1) && i < Pow2(shape.s)
      modifies `hit, `content, `order, `lists, repr
      ensures r <==> Place(old(lists)[i], tag) < |old(lists)[i]|
      ensures r ==> Valid(time) && hit == old(hit) + 1 && lists == old(lists)[i := Lru(shape.e, old(lists)[i], tag)]
      ensures !r ==> Valid(time - 1) && hit == old(hit) && lists == old(lists)
      ensures !r ==> LineRoom(i) && Unhit(Set(content, shape.e, i), tag, shape.e)
    {
      hide Represents, Lru, Place, Set;
      LineOf(content, |order|, shape.e, i);
      var line := 0;
      while line < shape.e
        invariant line <= shape.e && Valid(time - 1) && content == old(content) && order == old(order)
        invariant hit == old(hit) && lists == old(lists) && Unhit(Set(content, shape.e, i), tag, line)
      {
        var current := lines[shape.e * i + line];
        if current.validBit && current.tag == tag {
          CountHit(i, line, tag, time);
          return true;
        }
        line := line + 1;
      }
      UnhitPlace(content, shape.e, order, lists, time - 1, i, tag);
      return false;
    }

    method IfEmptyLine(i: nat, tag: int, time: nat) returns (r: bool)
      requires 0 < time && Valid(time - 1) && i < Pow2(shape.s)
      requires LineRoom(i) && Unhit(Set(content, shape.e, i), tag, shape.e)
      modifies `miss, `content, `order, `lists, repr
      ensures r <==> |old(lists)[i]| < shape.e
      ensures r ==> Valid(time) && miss == old(miss) + 1 && lists == old(lists)[i := Lru(shape.e, old(lists)[i], tag)]
      ensures !r ==> Valid(time - 1) && miss == old(miss) && lists == old(lists)
      ensures !r ==> LineRoom(i) && Unhit(Set(content, shape.e, i), tag, shape.e)
      ensures !r ==> LineRoom(i) && Full(Set(content, shape.e, i), shape.e)
    {
      hide Represents, Lru, Place, Set;
      LineOf(content, |order|, shape.e, i);
      var line := 0;
      while line < shape.e
        invariant line <= shape.e && Valid(time - 1) && content == old(content) && order == old(order)
        invariant miss == old(miss) && lists == old(lists) && Full(Set(content, shape.e, i), line)
      {
        var current := lines[shape.e * i + line];
        if !current.validBit {
          miss := miss + 1;
          FillStep(content, shape.e, order, lists, time - 1, i, line, tag);
          WriteLine(shape.e * i + line, tag, time);
          order, lists := order[i := [line] + order[i]], lists[i := Lru(shape.e, lists[i], tag)];
          return true;
        }
        line := line + 1;
      }
      FullLength(content, shape.e, order, lists, time - 1, i);
      return false;
    }

    /** The index is not set before the loop; it is always set by the loop, to the oldest line. */
    method LruLineIdx(setStart: nat, i: nat, time: nat) returns (idx: nat)
      requires 0 < time && Valid(time - 1) && i < Pow2(shape.s) && setStart == shape.e * i
      requires LineRoom(i) && Full(Set(content, shape.e, i), shape.e)
      ensures |order[i]| == shape.e > 0 && idx == order[i][shape.e - 1] < shape.e
      ensures forall k :: 0 <= k < shape.e && k != idx ==>
                Set(content, shape.e, i)[idx].time < Set(content, shape.e, i)[k].time
    {
      hide Represents, Set;
      LineOf(content, |order|, shape.e, i);
      OldestIsLast(content, shape.e, order, lists, time - 1, i);
      ghost var oldest := order[i][shape.e - 1];
      idx := *;
      var minTime: int, line := time, 0;
      while line < shape.e
        invariant line <= shape.e
        invariant oldest < line ==> idx == oldest && minTime == Set(content, shape.e, i)[oldest].time
        invariant line <= oldest ==> Set(content, shape.e, i)[oldest].time < minTime
      {
        var current := lines[setStart + line];
        assert Set(content, shape.e, i)[line] == content[setStart + line];
        if current.accessTime < minTime {
          minTime := current.accessTime;
          idx := line;
        }
        line := line + 1;
      }
    }

    method Replace(i: nat, tag: int, time: nat)
      requires 0 < time && Valid(time - 1) && i < Pow2(shape.s) && LineRoom(i)
      requires Unhit(Set(content, shape.e, i), tag, shape.e) && Full(Set(content, shape.e, i), shape.e)
      modifies `miss, `evict, `content, `order, `lists, repr
      ensures Valid(time) && lists == old(lists)[i := Lru(shape.e, old(lists)[i], tag)]
      ensures miss == old(miss) + 1 && evict == old(evict) + 1
    {
      hide Represents, Lru, Place, Set;
      LineOf(content, |order|, shape.e, i);
      var idx := LruLineIdx(shape.e * i, i, time);
      ghost var o := ReplaceStep(content, shape.e, order, lists, time - 1, i, tag);
      WriteLine(shape.e * i + idx, tag, time);
      order, lists := order[i := o], lists[i := Lru(shape.e, lists[i], tag)];
      miss := miss + 1;
      evict := evict + 1;
    }

    ghost predicate LineRoom(i: nat)
      reads this
    {
      shape.e * i + shape.e <= |content|
    }

    /** One load: 0 for a hit, 1 for a filled line, 2 for a replaced one. */
    method LoadToCache(i: nat, tag: int, time: nat) returns (r: nat)
      requires 0 < time && Valid(time - 1) && i < Pow2(shape.s)
      modifies `hit, `miss, `evict, `content, `order, `lists, repr
      ensures Valid(time) && View() == Load(shape.e, old(View()), i, tag)
      ensures r == if hit > old(hit) then 0 else if evict > old(evict) then 2 else 1
    {
      hide Represents, Lru, Place, Set;
      LineOf(content, |order|, shape.e, i);
      var found := IfCacheHit(i, tag, time);
      if found {
        return 0;
      }
      LineOf(content, |order|, shape.e, i);
      var filled := IfEmptyLine(i, tag, time);
      if filled {
        return 1;
      }
      Replace(i, tag, time);
      return 2;
    }

    /** The first `n` slots point to different empty lines. */
    ghost static predicate Made(lines: array<Line>, repr: set<Line>, n: nat)
      reads lines, repr
    {
      && n <= lines.Length
      && (forall k :: 0 <= k < n ==> lines[k] in repr && !lines[k].validBit)
      && (forall j, k :: 0 <= j < k < n ==> lines[j] != lines[k])
    }

    static method MakeLine(lines: array<Line>, ghost repr: set<Line>, at: nat) returns (ghost more: set<Line>)
      requires Made(lines, repr, at) && at < lines.Length
      modifies lines
      ensures fresh(more - repr) && Made(lines, more, at + 1)
    {
      var line := new Line();
      lines[at] := line;
      more := repr + {line};
    }

    /** Lines for every set, all of them empty. */
    static method InitCache(sets: nat, e: nat) returns (lines: array<Line>, ghost repr: set<Line>)
      ensures fresh(lines) && fresh(repr) && lines.Length == sets * e && Made(lines, repr, lines.Length)
    {
      hide Made;
      var unset := new Line();
      lines := new Line[sets * e](_ => unset);
      repr := {};
      NoneMade(lines);
      var i := 0;
      while i < sets
        invariant i <= sets && fresh(repr) && Made(lines, repr, e * i)
      {
        SlotInside(sets, e, i, e);
        var line := 0;
        assert e * i + e == e * (i + 1);
        while line < e
          invariant line <= e && fresh(repr) && Made(lines, repr, e * i + line)
        {
          repr := MakeLine(lines, repr, e * i + line);
          line := line + 1;
        }
        i := i + 1;
      }
      assert e * i == sets * e;
    }

    static lemma NoneMade(lines: array<Line>)
      ensures Made(lines, {}, 0)
    {
    }

    constructor (shape: Shape)
      requires 0 < shape.e
      ensures this.shape == shape && fresh(lines) && fresh(repr)
      ensures Valid(0) && View() == Fresh(shape)
    {
      this.shape := shape;
      ghost var r;
      var l;
      l, r := InitCache(Pow2(shape.s), shape.e);
      lines, repr := l, r;
      hit, miss, evict := 0, 0, 0;
      content := seq(l.Length, k requires 0 <= k < l.Length && l[k] in r reads l, r =>
        Content(l[k].validBit, l[k].tag, l[k].accessTime));
      order := seq(Pow2(shape.s), _ => []);
      lists := seq(Pow2(shape.s), _ => []);
      new;
      EmptyRepresents(content, shape.e, order, lists);
    }

    /** The main loop, on the lines of a trace file. */
    method Simulate(trace: seq<Access>)
      requires Valid(0) && View() == Fresh(shape)
      modifies this, repr
      ensures Valid(|trace|) && View() == Run(shape, ToInt, trace)
      ensures hit == |Hits(shape, ToInt, trace)| + |Modifies(trace)|
      ensures miss == |Misses(shape, ToInt, trace)| && evict == |Evictions(shape, ToInt, trace)|
    {
      hide Represents, Load, WideTag, SetOf, ToInt, Hits, Misses, Evictions, Modifies;
      var time := 0;
      while time < |trace|
        invariant time <= |trace| && Valid(time) && View() == Run(shape, ToInt, trace[..time])
      {
        var a := trace[time];
        assert trace[..time + 1][..time] == trace[..time];
        time := time + 1;
        var i, tag := SetOf(shape.s, shape.b, a.address), ToInt(WideTag(shape.s, shape.b, a.address));
        if a.op == 'L' {
          var r := LoadToCache(i, tag, time);
        } else if a.op == 'S' {
          var r := LoadToCache(i, tag, time);
        } else if a.op == 'M' {
          var r := LoadToCache(i, tag, time);
          hit := hit + 1;
        } else {
          RepresentsLater(content, shape.e, order, lists, time - 1);
        }
      }
      assert trace[..time] == trace;
      Counters(shape, ToInt, trace);
    }
  }

  lemma RepresentsLater(flat: seq<Content>, e: nat, order: seq<seq<nat>>, lists: seq<seq<int>>, now: nat)
    requires Represents(flat, e, order, lists, now)
    ensures Represents(flat, e, order, lists, now + 1)
  {
    hide Ranked;
    forall i | 0 <= i < |order| ensures SetRepresents(flat, e, i, order[i], lists[i], now + 1) {
      assert SetRepresents(flat, e, i, order[i], lists[i], now);
      RankedLater(Set(flat, e, i), order[i], now);
    }
  }

  lemma EmptyRepresents(flat: seq<Content>, e: nat, order: seq<seq<nat>>, lists: seq<seq<int>>)
    requires 0 < e && |flat| == |order| * e && |lists| == |order|
    requires forall k :: 0 <= k < |flat| ==> !flat[k].valid
    requires forall i :: 0 <= i < |order| ==> order[i] == [] && lists[i] == []
    ensures Represents(flat, e, order, lists, 0)
  {
    forall i | 0 <= i < |order| ensures SetRepresents(flat, e, i, order[i], lists[i], 0) {
      SlotInside(|order|, e, i, e);
    }
  }
}
