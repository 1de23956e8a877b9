/** Walking a heap from both ends. The tags are dual: following headers up and footers down visits
    the same blocks, and these account for every byte between prologue and epilogue. */
module Walks {
  import opened Blocks
  import opened Memory

  /** The blocks from `p` up to the epilogue. */
  ghost function Up(l: Layout, p: nat): seq<nat>
    requires Tiles(l) && (p in l.at || p == l.end)
    decreases l.end - p
  {
    if p == l.end then [] else [p] + Up(l, Succ(l, p))
  }

  /** The blocks in front of `p`, lowest first. */
  ghost function Below(l: Layout, p: nat): seq<nat>
    requires Tiles(l) && (p in l.at || p == l.end)
    decreases p
  {
    if p == l.first then [] else Below(l, Pred(l, p)) + [Pred(l, p)]
  }

  /** The words taken by a list of blocks. */
  ghost function TotalWords(l: Layout, w: seq<nat>): nat
    requires forall p <- w :: p in l.at
  {
    if w == [] then 0 else 2 * l.at[w[0]].units + TotalWords(l, w[1..])
  }

  lemma {:induction false} UpCovers(l: Layout, p: nat)
    requires Tiles(l) && (p in l.at || p == l.end)
    ensures forall q :: q in Up(l, p) <==> q in l.at && p <= q
    ensures forall i, j :: 0 <= i < j < |Up(l, p)| ==> Up(l, p)[i] < Up(l, p)[j]
    decreases l.end - p
  {
    if p != l.end {
      var s := Succ(l, p);
      assert s == l.end || s in l.at;
      UpCovers(l, s);
      NoneBetween(l, p);
      Prepended(p, Up(l, s));
    }
  }

  /** No block starts inside another. */
  lemma NoneBetween(l: Layout, p: nat)
    requires Tiles(l) && p in l.at
    ensures p < Succ(l, p) && forall q <- l.at :: p < q ==> Succ(l, p) <= q
  {
    hide Chained;
  }

  lemma Prepended(p: nat, t: seq<nat>)
    requires forall i, j :: 0 <= i < j < |t| ==> t[i] < t[j]
    requires forall x <- t :: p < x
    ensures forall i, j :: 0 <= i < j < |[p] + t| ==> ([p] + t)[i] < ([p] + t)[j]
    ensures forall x :: x in [p] + t <==> x == p || x in t
  {
    var u := [p] + t;
    forall i, j | 0 <= i < j < |u| ensures u[i] < u[j] {
      assert u[j] == t[j - 1] && t[j - 1] in t;
    }
  }

  /** Space is conserved: the blocks from `p` on take exactly the words from `p` to the epilogue. */
  lemma {:induction false} UpConserves(l: Layout, p: nat)
    requires Tiles(l) && (p in l.at || p == l.end)
    ensures forall q <- Up(l, p) :: q in l.at
    ensures TotalWords(l, Up(l, p)) == l.end - p
    decreases l.end - p
  {
    UpCovers(l, p);
    if p != l.end {
      var s := Succ(l, p);
      assert s == l.end || s in l.at;
      UpConserves(l, s);
      assert Up(l, p)[1..] == Up(l, s);
    }
  }

  lemma {:induction false} BelowUp(l: Layout, p: nat)
    requires Tiles(l) && l.first <= p && (p in l.at || p == l.end)
    ensures l.first in l.at || l.first == l.end
    ensures Below(l, p) + Up(l, p) == Up(l, l.first)
    decreases p
  {
    if p != l.first {
      var q := Pred(l, p);
      BelowUp(l, q);
      Between(Below(l, q), q, Up(l, p));
    }
  }

  lemma Between(x: seq<nat>, q: nat, y: seq<nat>)
    ensures (x + [q]) + y == x + ([q] + y)
  {
  }

  // ---------- the same walks, reading nothing but the words ----------

  /** The headers found by following sizes upwards from `p`, until a header of size 0. */
  function ReadUp(m: seq<Word>, p: nat): seq<nat>
    decreases |m| - p
  {
    if p < |m| && GetWords(m[p]) > 0 then [p] + ReadUp(m, p + GetWords(m[p])) else []
  }

  /** The headers found by following footers downwards from the header at `p`, until `first`. */
  function ReadDown(m: seq<Word>, first: nat, p: nat): seq<nat>
    decreases p
  {
    if first < p <= |m| && 0 < GetWords(m[p - 1]) <= p
    then [p - GetWords(m[p - 1])] + ReadDown(m, first, p - GetWords(m[p - 1]))
    else []
  }

  function Reverse(s: seq<nat>): seq<nat> {
    if s == [] then [] else Reverse(s[1..]) + [s[0]]
  }

  lemma {:induction false} ReverseAppend(s: seq<nat>, x: nat)
    ensures Reverse(s + [x]) == [x] + Reverse(s)
  {
    if s != [] {
      ReverseAppend(s[1..], x);
      assert (s + [x])[1..] == s[1..] + [x];
    } else {
      assert s + [x] == [x];
    }
  }

  lemma {:induction false} ReadUpCorrect(m: seq<Word>, l: Layout, p: nat)
    requires Tagged(m, l) && (p in l.at || p == l.end)
    ensures ReadUp(m, p) == Up(l, p)
    decreases l.end - p
  {
    hide GetSize, Tag;
    EndWords();
    if p != l.end {
      assert Succ(l, p) == l.end || Succ(l, p) in l.at;
      HeaderTag(m, l, p);
      ReadUpCorrect(m, l, Succ(l, p));
    }
  }

  lemma EndWords()
    ensures GetWords(1) == 0
  {
  }

  lemma {:induction false} ReadDownCorrect(m: seq<Word>, l: Layout, p: nat)
    requires Tagged(m, l) && l.first <= p && (p in l.at || p == l.end)
    ensures ReadDown(m, l.first, p) == Reverse(Below(l, p))
    decreases p
  {
    hide GetSize, GetWords, Tag, Tagged, Tiles;
    TaggedTiles(m, l);
    if p != l.first {
      var q := Pred(l, p);
      BlockBounds(l, q);
      FooterTag(m, l, q);
      ReadDownCorrect(m, l, q);
      ReverseAppend(Below(l, q), q);
    }
  }

  lemma TaggedTiles(m: seq<Word>, l: Layout)
    requires Tagged(m, l)
    ensures Tiles(l) && l.end < |m|
  {
  }

  /** Walking down by footers from the epilogue is the reverse of walking up by headers. */
  lemma TagsAreDual(m: seq<Word>, l: Layout)
    requires Tagged(m, l)
    ensures ReadDown(m, l.first, l.end) == Reverse(ReadUp(m, l.first))
  {
    hide GetSize, GetWords, Tag;
    BelowUp(l, l.end);
    ReadUpCorrect(m, l, l.first);
    ReadDownCorrect(m, l, l.end);
    assert Below(l, l.end) + [] == Below(l, l.end);
  }
}
