/** Least-recently-used replacement, first as an ideal: the list of all tags ever used, most recent
    first. A cache set of `e` lines holds the first `e` of them. */
module Recency {
  import opened Basics

  function Take(r: seq<int>, e: nat): seq<int> {
    if |r| <= e then r else r[..e]
  }

  /** The place of `t` in `r`, or the length of `r` if it is not there. */
  function Place(r: seq<int>, t: int): (k: nat)
    ensures k <= |r| && t !in r[..k] && (k < |r| ==> r[k] == t)
  {
    if r == [] || r[0] == t then 0
    else
      assert forall k :: 0 <= k <= |r[1..]| ==> r[..k + 1] == [r[0]] + r[1..][..k];
      1 + Place(r[1..], t)
  }

  /** The ideal list after a use of `t`. */
  function Touch(r: seq<int>, t: int): seq<int> {
    var k := Place(r, t);
    if k < |r| then [t] + Drop(r, k) else [t] + r
  }

  /** The list of a set with `e` lines after a use of `t`: a hit moves the tag to the front, a miss adds
      it, and drops the last tag of a full set. */
  function Lru(e: nat, r: seq<int>, t: int): seq<int>
    requires 0 < e
  {
    var k := Place(r, t);
    if k < |r| then [t] + Drop(r, k)
    else if |r| < e then [t] + r
    else [t] + r[..e - 1]
  }

  /** The cache list is the ideal one cut off at `e`, after any use. */
  lemma LruIsTake(e: nat, r: seq<int>, t: int)
    requires 0 < e
    ensures Lru(e, Take(r, e), t) == Take(Touch(r, t), e)
  {
    hide Place;
    var k := Place(r, t);
    PlaceOfTake(e, r, t);
    if |r| <= e {
      if k < |r| {
        assert |[t] + Drop(r, k)| == |r|;
      } else if |r| == e {
        FrontOf(t, r, e);
      }
    } else {
      if k < e {
        FrontOfDropped(t, r, k, e);
      } else if k < |r| {
        FrontOfDrop(t, r, k, e);
      } else {
        FrontOf(t, r, e);
      }
    }
  }

  lemma FrontOf(t: int, r: seq<int>, e: nat)
    requires 0 < e <= |r|
    ensures ([t] + r)[..e] == [t] + r[..e - 1]
  {
  }

  lemma FrontOfDrop(t: int, r: seq<int>, k: nat, e: nat)
    requires 0 < e <= k < |r|
    ensures ([t] + Drop(r, k))[..e] == [t] + r[..e][..e - 1]
  {
    assert Drop(r, k)[..e - 1] == r[..e - 1] == r[..e][..e - 1];
    FrontOf(t, Drop(r, k), e);
  }

  lemma FrontOfDropped(t: int, r: seq<int>, k: nat, e: nat)
    requires k < e < |r|
    ensures ([t] + Drop(r, k))[..e] == [t] + Drop(r[..e], k)
  {
    assert Drop(r, k)[..e - 1] == Drop(r[..e], k);
    FrontOf(t, Drop(r, k), e);
  }

  lemma {:induction false} PlaceIs(r: seq<int>, t: int, k: nat)
    requires FoundAt(r, t, k)
    ensures Place(r, t) == k
  {
    if r != [] && r[0] != t {
      PlaceIs(r[1..], t, k - 1);
    }
  }

  lemma PlaceOfTake(e: nat, r: seq<int>, t: int)
    ensures Place(Take(r, e), t) == if Place(r, t) < e then Place(r, t) else |Take(r, e)|
  {
    var k := Place(r, t);
    assert forall i :: 0 <= i < k ==> r[i] == r[..k][i] && r[i] != t;
    PlaceIs(Take(r, e), t, if k < e then k else |Take(r, e)|);
  }

  /** `v` is `r` with `u` in front, and whatever stood before place `k` moved back by one. */
  ghost predicate Moved(r: seq<int>, u: int, k: nat, v: seq<int>) {
    && k <= |r| && |v| == (if k < |r| then |r| else |r| + 1)
    && v[0] == u
    && (forall i :: 1 <= i < |v| && i <= k ==> v[i] == r[i - 1])
    && (forall i :: 1 <= i < |v| && k < i ==> v[i] == r[i])
  }

  /** `t` is first found at place `k`, or not at all if that is the length. */
  ghost predicate FoundAt(r: seq<int>, t: int, k: nat) {
    k <= |r| && (forall i :: 0 <= i < k ==> r[i] != t) && (k < |r| ==> r[k] == t)
  }

  lemma TouchMoved(r: seq<int>, u: int)
    ensures Moved(r, u, Place(r, u), Touch(r, u))
  {
    hide Moved;
    var k := Place(r, u);
    if k < |r| {
      DropMoved(r, u, k);
    } else {
      PushMoved(r, u);
    }
  }

  lemma DropMoved(r: seq<int>, u: int, k: nat)
    requires k < |r|
    ensures Moved(r, u, k, [u] + Drop(r, k))
  {
    var d, v := Drop(r, k), [u] + Drop(r, k);
    forall i | 1 <= i < |v| && i <= k ensures v[i] == r[i - 1] {
      assert v[i] == d[i - 1];
    }
    forall i | 1 <= i < |v| && k < i ensures v[i] == r[i] {
      assert v[i] == d[i - 1];
    }
  }

  lemma PushMoved(r: seq<int>, u: int)
    ensures Moved(r, u, |r|, [u] + r)
  {
  }

  lemma PlaceFound(r: seq<int>, t: int)
    ensures FoundAt(r, t, Place(r, t))
  {
    var k := Place(r, t);
    assert forall i :: 0 <= i < k ==> r[i] == r[..k][i];
  }

  lemma MovedDistinct(r: seq<int>, t: int, k: nat, v: seq<int>)
    requires NoDup(r) && Moved(r, t, k, v) && FoundAt(r, t, k)
    ensures NoDup(v)
  {
    forall i, j | 0 <= i < j < |v| ensures v[i] != v[j] {
      if i == 0 && j > k && k < |r| {
        assert r[k] != r[j];
      }
    }
  }

  lemma MovedMembers(r: seq<int>, t: int, k: nat, v: seq<int>)
    requires Moved(r, t, k, v) && FoundAt(r, t, k)
    ensures forall x :: x in v <==> x == t || x in r
  {
    forall x | x in r ensures x in v {
      var i :| 0 <= i < |r| && r[i] == x;
      if i < k {
        assert v[i + 1] == x;
      } else if i == k {
        assert v[0] == x;
      } else {
        assert v[i] == x;
      }
    }
  }

  /** A tag that was found at `kt` is found at the same place if it stood behind `u`, else one further on. */
  lemma MovedFound(r: seq<int>, u: int, ku: nat, v: seq<int>, t: int, kt: nat)
    requires NoDup(r) && u != t && Moved(r, u, ku, v) && FoundAt(r, u, ku) && FoundAt(r, t, kt)
    ensures FoundAt(v, t, if ku < kt then kt else kt + 1)
  {
    hide NoDup;
    var k := if ku < kt then kt else kt + 1;
    forall i | 0 <= i < k ensures v[i] != t {
      if 0 < i <= ku {
        assert v[i] == r[i - 1];
      }
    }
  }

  lemma TouchNoDup(r: seq<int>, t: int)
    requires NoDup(r)
    ensures NoDup(Touch(r, t))
    ensures forall x :: x in Touch(r, t) <==> x == t || x in r
  {
    hide NoDup, Moved, FoundAt;
    TouchMoved(r, t);
    PlaceFound(r, t);
    MovedDistinct(r, t, Place(r, t), Touch(r, t));
    MovedMembers(r, t, Place(r, t), Touch(r, t));
  }

  // ---------- the ideal list, defined from the trace alone ----------

  /** The list after a trace of uses. */
  function After(trace: seq<int>): seq<int> {
    if trace == [] then [] else Touch(After(trace[..|trace| - 1]), trace[|trace| - 1])
  }

  /** The tags used since the last use of `t`. */
  function Since(trace: seq<int>, t: int): set<int> {
    if trace == [] || trace[|trace| - 1] == t then {}
    else Since(trace[..|trace| - 1], t) + {trace[|trace| - 1]}
  }

  lemma {:induction false} AfterCovers(trace: seq<int>)
    ensures NoDup(After(trace))
    ensures forall x :: x in After(trace) <==> x in trace
  {
    if trace != [] {
      var init, t := trace[..|trace| - 1], trace[|trace| - 1];
      AfterCovers(init);
      TouchNoDup(After(init), t);
      assert trace == init + [t];
    }
  }

  /** A tag used anew since the last use of `t` is one that was not in front of `t`. */
  lemma SinceFresh(init: seq<int>, u: int, t: int)
    requires u != t && NoDup(After(init))
    requires forall x :: x in After(init)[..Place(After(init), t)] <==> x in Since(init, t)
    ensures u in Since(init, t) <==> Place(After(init), u) < Place(After(init), t)
  {
    var r := After(init);
    var ku, kt := Place(r, u), Place(r, t);
    if ku < kt {
      assert r[..kt][ku] == u;
    } else {
      assert forall i :: 0 <= i < kt ==> r[..ku][i] == r[..kt][i];
    }
  }

  /** One more tag is in use since the last use of `t`, unless it was before. */
  lemma SinceGrows(init: seq<int>, u: int, t: int)
    requires u != t
    ensures Since(init + [u], t) == Since(init, t) + {u}
    ensures |Since(init + [u], t)| == |Since(init, t)| + if u in Since(init, t) then 0 else 1
  {
    assert (init + [u])[..|init|] == init;
    var s := Since(init, t);
    if u in s {
      assert s + {u} == s;
    }
  }

  /** In the ideal list, a tag comes after exactly those tags that were used since its last use. */
  lemma {:induction false} PlaceIsDistance(trace: seq<int>, t: int)
    ensures Place(After(trace), t) == |Since(trace, t)|
    ensures forall x :: x in After(trace)[..Place(After(trace), t)] <==> x in Since(trace, t)
  {
    hide NoDup;
    if trace != [] {
      var init, u := trace[..|trace| - 1], trace[|trace| - 1];
      var r, v := After(init), After(trace);
      PlaceIsDistance(init, t);
      AfterCovers(init);
      if u == t {
        TouchMoved(r, u);
        PlaceIs(v, t, 0);
        assert v[..0] == [];
      } else {
        SinceFresh(init, u, t);
        SinceGrows(init, u, t);
        TouchPlace(r, u, t);
        TouchFront(r, u, t);
      }
    }
  }

  /** Using `u` moves every tag that was in front of it one place back, and no other. */
  lemma TouchPlace(r: seq<int>, u: int, t: int)
    requires NoDup(r) && u != t
    ensures Place(Touch(r, u), t) == if Place(r, u) < Place(r, t) then Place(r, t) else Place(r, t) + 1
  {
    hide NoDup, Moved, FoundAt;
    TouchMoved(r, u);
    PlaceFound(r, u);
    PlaceFound(r, t);
    MovedFound(r, u, Place(r, u), Touch(r, u), t, Place(r, t));
    PlaceIs(Touch(r, u), t, if Place(r, u) < Place(r, t) then Place(r, t) else Place(r, t) + 1);
  }

  lemma TouchFront(r: seq<int>, u: int, t: int)
    requires NoDup(r) && u != t
    ensures forall x :: x in Touch(r, u)[..Place(Touch(r, u), t)] <==> x == u || x in r[..Place(r, t)]
  {
    TouchPlace(r, u, t);
    hide NoDup;
    var ku, kt := Place(r, u), Place(r, t);
    if ku < kt {
      TouchMoves(r, u, ku, kt);
    } else {
      TouchKeeps(r, u, kt);
    }
  }

  lemma TouchMoves(r: seq<int>, u: int, ku: nat, kt: nat)
    requires ku == Place(r, u) < kt <= |r|
    ensures |Touch(r, u)| == |r|
    ensures forall x :: x in Touch(r, u)[..kt] <==> x == u || x in r[..kt]
  {
    hide Place;
    assert Touch(r, u)[..kt] == [u] + (r[..ku] + r[ku + 1..kt]);
    Parts(r[..ku], u, r[ku + 1..kt]);
    assert r[..kt] == r[..ku] + [u] + r[ku + 1..kt];
  }

  lemma Parts(x: seq<int>, u: int, y: seq<int>)
    ensures forall z :: z in [u] + (x + y) <==> z in x + [u] + y
  {
  }

  lemma TouchKeeps(r: seq<int>, u: int, kt: nat)
    requires kt <= Place(r, u)
    ensures kt < |Touch(r, u)| && Touch(r, u)[..kt + 1] == [u] + r[..kt]
  {
    hide Place;
  }

  /** With ideal lists, this is what a hit means: fewer than `e` other tags since the last use. */
  lemma HitMeansRecent(e: nat, trace: seq<int>, t: int)
    requires 0 < e
    ensures t in Take(After(trace), e) <==> t in trace && |Since(trace, t)| < e
  {
    var r := After(trace);
    AfterCovers(trace);
    PlaceIsDistance(trace, t);
    PlaceOfTake(e, r, t);
  }
}
