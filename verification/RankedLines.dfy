/** Cache lines with access times, and the recency list that the times encode. */
module RankedLines {
  import opened Basics
  import opened Recency

  /** The contents of a line. */
  datatype Content = Content(valid: bool, tag: int, time: int)

  /** `order` lists the valid lines of a set, most recently used first: they are the leading lines, their
      tags differ, and their times fall along the list, none after `now`. */
  ghost predicate Ranked(v: seq<Content>, order: seq<nat>, now: nat) {
    && |order| <= |v| && NoDup(order)
    && (forall i :: 0 <= i < |v| ==> (v[i].valid <==> i < |order|))
    && (forall i :: 0 <= i < |v| ==> (i in order <==> i < |order|))
    && (forall k :: 0 <= k < |order| ==> order[k] < |order| && v[order[k]].time <= now)
    && (forall j, k :: 0 <= j < k < |order| ==> v[order[k]].time < v[order[j]].time)
    && (forall i, j :: 0 <= i < j < |order| ==> v[i].tag != v[j].tag)
  }

  /** The tags of the valid lines in this order. */
  ghost function Tags(v: seq<Content>, order: seq<nat>): seq<int>
    requires forall k :: 0 <= k < |order| ==> order[k] < |v|
  {
    seq(|order|, k requires 0 <= k < |order| => v[order[k]].tag)
  }

  ghost function ToFront(order: seq<nat>, k: nat): seq<nat>
    requires k < |order|
  {
    [order[k]] + order[..k] + order[k + 1..]
  }

  lemma ToFrontAt(order: seq<nat>, k: nat)
    requires k < |order|
    ensures var o := ToFront(order, k);
            && |o| == |order| && o[0] == order[k]
            && (forall i :: 1 <= i < |o| && i <= k ==> o[i] == order[i - 1])
            && (forall i :: 1 <= i < |o| && k < i ==> o[i] == order[i])
  {
  }

  lemma ToFrontMembers(order: seq<nat>, k: nat)
    requires NoDup(order) && k < |order|
    ensures |ToFront(order, k)| == |order| && NoDup(ToFront(order, k))
    ensures forall i :: i in ToFront(order, k) <==> i in order
  {
    hide NoDup;
    ToFrontAt(order, k);
    ToFrontDistinct(order, k, ToFront(order, k));
    var o := ToFront(order, k);
    forall i | i in order ensures i in o {
      var j :| 0 <= j < |order| && order[j] == i;
      if j < k {
        assert o[j + 1] == i;
      } else if j == k {
        assert o[0] == i;
      } else {
        assert o[j] == i;
      }
    }
  }

  lemma ToFrontDistinct(order: seq<nat>, k: nat, o: seq<nat>)
    requires NoDup(order) && k < |order| && |o| == |order| && o[0] == order[k]
    requires forall i :: 1 <= i < |o| && i <= k ==> o[i] == order[i - 1]
    requires forall i :: 1 <= i < |o| && k < i ==> o[i] == order[i]
    ensures NoDup(o)
  {
  }

  /** Giving a line of the order the newest time brings it to the front. */
  lemma RefreshRanked(v: seq<Content>, order: seq<nat>, now: nat, k: nat, tag: int)
    requires Ranked(v, order, now) && k < |order|
    requires forall i :: 0 <= i < |order| && i != order[k] ==> v[i].tag != tag
    ensures Ranked(v[order[k] := Content(true, tag, now + 1)], ToFront(order, k), now + 1)
  {
    hide ToFront, NoDup;
    ToFrontMembers(order, k);
    ToFrontAt(order, k);
    RefreshedTimes(v, order, now, k, tag, ToFront(order, k));
    RefreshedLines(v, order, now, k, tag);
  }

  /** The valid lines are the same, and their tags differ. */
  lemma RefreshedLines(v: seq<Content>, order: seq<nat>, now: nat, k: nat, tag: int)
    requires Ranked(v, order, now) && k < |order|
    requires forall i :: 0 <= i < |order| && i != order[k] ==> v[i].tag != tag
    ensures var w := v[order[k] := Content(true, tag, now + 1)];
            && (forall i :: 0 <= i < |w| ==> (w[i].valid <==> i < |order|))
            && (forall i, j :: 0 <= i < j < |order| ==> w[i].tag != w[j].tag)
  {
    hide NoDup;
  }

  /** The times fall along the new order. */
  lemma RefreshedTimes(v: seq<Content>, order: seq<nat>, now: nat, k: nat, tag: int, o: seq<nat>)
    requires Ranked(v, order, now) && k < |order| && |o| == |order| && o[0] == order[k]
    requires forall i :: 1 <= i < |o| && i <= k ==> o[i] == order[i - 1]
    requires forall i :: 1 <= i < |o| && k < i ==> o[i] == order[i]
    ensures var w := v[order[k] := Content(true, tag, now + 1)];
            && (forall j :: 0 <= j < |o| ==> o[j] < |w| && w[o[j]].time <= now + 1)
            && (forall j, l :: 0 <= j < l < |o| ==> w[o[l]].time < w[o[j]].time)
  {
    var w := v[order[k] := Content(true, tag, now + 1)];
    forall l | 1 <= l < |o| ensures o[l] != order[k] && o[l] < |v| && w[o[l]].time == v[o[l]].time <= now {
    }
  }

  /** A hit on line `order[k]`. */
  lemma HitTags(v: seq<Content>, order: seq<nat>, now: nat, k: nat, e: nat)
    requires Ranked(v, order, now) && k < |order| && 0 < e
    ensures var w := v[order[k] := Content(true, v[order[k]].tag, now + 1)];
            && (forall j :: 0 <= j < |order| ==> ToFront(order, k)[j] < |w|)
            && Tags(w, ToFront(order, k)) == Lru(e, Tags(v, order), v[order[k]].tag)
            && Place(Tags(v, order), v[order[k]].tag) == k
  {
    hide Place;
    var t := v[order[k]].tag;
    PlaceIs(Tags(v, order), t, k);
    var w := v[order[k] := Content(true, t, now + 1)];
    SameTags(v, w, order, k);
    assert Lru(e, Tags(v, order), t) == [t] + Drop(Tags(v, order), k);
  }

  lemma SameTags(v: seq<Content>, w: seq<Content>, order: seq<nat>, k: nat)
    requires k < |order| && NoDup(order) && |w| == |v|
    requires forall j :: 0 <= j < |order| ==> order[j] < |v|
    requires forall i :: 0 <= i < |v| ==> w[i].tag == v[i].tag
    ensures forall j :: 0 <= j < |order| ==> ToFront(order, k)[j] < |w|
    ensures Tags(w, ToFront(order, k)) == [v[order[k]].tag] + Drop(Tags(v, order), k)
  {
  }

  /** A miss that fills the first empty line. */
  lemma FillRanked(v: seq<Content>, order: seq<nat>, now: nat, tag: int)
    requires Ranked(v, order, now) && |order| < |v|
    requires forall i :: 0 <= i < |order| ==> v[i].tag != tag
    ensures Ranked(v[|order| := Content(true, tag, now + 1)], [|order|] + order, now + 1)
  {
  }

  lemma MissTags(v: seq<Content>, order: seq<nat>, now: nat, tag: int)
    requires Ranked(v, order, now)
    requires forall i :: 0 <= i < |order| ==> v[i].tag != tag
    ensures Place(Tags(v, order), tag) == |order|
  {
    hide Place;
    PlaceIs(Tags(v, order), tag, |order|);
  }

  lemma RankedLater(v: seq<Content>, order: seq<nat>, now: nat)
    requires Ranked(v, order, now)
    ensures Ranked(v, order, now + 1)
  {
  }

  lemma FindRank(v: seq<Content>, order: seq<nat>, now: nat, line: nat) returns (k: nat)
    requires Ranked(v, order, now) && line < |v| && v[line].valid
    ensures k < |order| && order[k] == line
  {
    assert line in order;
    k :| 0 <= k < |order| && order[k] == line;
  }

  lemma OthersDiffer(v: seq<Content>, order: seq<nat>, now: nat, k: nat)
    requires Ranked(v, order, now) && k < |order|
    ensures forall i :: 0 <= i < |order| && i != order[k] ==> v[i].tag != v[order[k]].tag
  {
  }

  /** The first empty line comes right after the valid ones. */
  lemma FilledLines(v: seq<Content>, order: seq<nat>, now: nat, line: nat)
    requires Ranked(v, order, now) && line <= |v|
    requires (line < |v| ==> !v[line].valid) && forall k :: 0 <= k < line ==> v[k].valid
    ensures line == |order|
  {
    if line > 0 {
      assert v[line - 1].valid;
    }
  }

  lemma FillTags(v: seq<Content>, order: seq<nat>, t: int, now: nat)
    requires Ranked(v, order, now) && |order| < |v|
    ensures Tags(v[|order| := Content(true, t, now + 1)], [|order|] + order) == [t] + Tags(v, order)
  {
  }

  lemma ReplaceTags(v: seq<Content>, order: seq<nat>, t: int, now: nat)
    requires Ranked(v, order, now) && 0 < |order| == |v|
    ensures var n := |order| - 1;
            && (forall j :: 0 <= j < |order| ==> ToFront(order, n)[j] < |v|)
            && Tags(v[order[n] := Content(true, t, now + 1)], ToFront(order, n)) == [t] + Tags(v, order)[..n]
  {
    ToFrontMembers(order, |order| - 1);
  }

  /** None of the first `n` lines is a valid one with this tag. */
  ghost predicate Unhit(v: seq<Content>, tag: int, n: nat)
    requires n <= |v|
  {
    forall k :: 0 <= k < n ==> !(v[k].valid && v[k].tag == tag)
  }

  ghost predicate Full(v: seq<Content>, n: nat)
    requires n <= |v|
  {
    forall k :: 0 <= k < n ==> v[k].valid
  }

  // ---------- what a use of a tag does to a set of `e` lines ----------

  /** A hit on a line gives it the current time: its tag moves to the front of the list. */
  lemma Hit(v: seq<Content>, order: seq<nat>, now: nat, line: nat, e: nat) returns (o: seq<nat>)
    requires Ranked(v, order, now) && line < |v| && v[line].valid && 0 < e
    ensures var w, t := v[line := Content(true, v[line].tag, now + 1)], v[line].tag;
            && Ranked(w, o, now + 1) && |o| == |order|
            && Tags(w, o) == Lru(e, Tags(v, order), t) && Place(Tags(v, order), t) < |order|
  {
    hide Lru, Place, Tags;
    var k := FindRank(v, order, now, line);
    OthersDiffer(v, order, now, k);
    RefreshRanked(v, order, now, k, v[line].tag);
    HitTags(v, order, now, k, e);
    ToFrontMembers(order, k);
    o := ToFront(order, k);
  }

  /** A miss fills the first empty line. */
  lemma Fill(v: seq<Content>, order: seq<nat>, now: nat, line: nat, t: int)
    requires Ranked(v, order, now) && line < |v| && Unhit(v, t, |v|) && !v[line].valid && Full(v, line)
    ensures line == |order| && Place(Tags(v, order), t) == |order|
    ensures var w := v[line := Content(true, t, now + 1)];
            Ranked(w, [line] + order, now + 1) && Tags(w, [line] + order) == Lru(|v|, Tags(v, order), t)
  {
    hide Place;
    FilledLines(v, order, now, line);
    FillRanked(v, order, now, t);
    MissTags(v, order, now, t);
    FillTags(v, order, t, now);
  }

  /** A miss on a full set replaces the line at the end of the order. */
  lemma Replaced(v: seq<Content>, order: seq<nat>, now: nat, t: int) returns (o: seq<nat>)
    requires Ranked(v, order, now) && 0 < |v| && Unhit(v, t, |v|) && Full(v, |v|)
    ensures |order| == |v| && order[|v| - 1] < |v| && Place(Tags(v, order), t) == |order|
    ensures var w := v[order[|v| - 1] := Content(true, t, now + 1)];
            Ranked(w, o, now + 1) && Tags(w, o) == Lru(|v|, Tags(v, order), t)
  {
    hide Place;
    FilledLines(v, order, now, |v|);
    RefreshRanked(v, order, now, |v| - 1, t);
    MissTags(v, order, now, t);
    ReplaceTags(v, order, t, now);
    o := ToFront(order, |v| - 1);
  }

  /** In a full set, the line at the end of the order has the least time, and it is not after `now`. */
  lemma OldestLast(v: seq<Content>, order: seq<nat>, now: nat)
    requires Ranked(v, order, now) && 0 < |v| && Full(v, |v|)
    ensures |order| == |v| && order[|v| - 1] < |v| && v[order[|v| - 1]].time <= now
    ensures forall k :: 0 <= k < |v| && k != order[|v| - 1] ==> v[order[|v| - 1]].time < v[k].time
  {
    FilledLines(v, order, now, |v|);
    forall k | 0 <= k < |v| && k != order[|v| - 1] ensures v[order[|v| - 1]].time < v[k].time {
      var j := FindRank(v, order, now, k);
    }
  }

  lemma TagsLength(v: seq<Content>, order: seq<nat>, now: nat)
    requires Ranked(v, order, now)
    ensures forall k :: 0 <= k < |order| ==> order[k] < |v|
    ensures |Tags(v, order)| == |order| <= |v|
  {
  }
}
