/** Changes of tags in the words: what each operation of an allocator writes, that it spells the new
    layout, and that it misses the live blocks. */
module Retagging {
  import opened Blocks
  import opened Memory

  /** Every block of `c` starts and ends where blocks of `l` do. */
  ghost predicate Coarser(l: Layout, c: Layout) {
    && c.first == l.first && c.end == l.end
    && forall q <- c.at :: q in l.at && (Succ(c, q) == l.end || Succ(c, q) in l.at)
  }

  lemma KeepsLiveSame(l: Layout, m: seq<Word>)
    ensures KeepsLive(l, m, m)
  {
  }

  lemma KeepsLiveTrans(l: Layout, m0: seq<Word>, m1: seq<Word>, m2: seq<Word>)
    requires KeepsLive(l, m0, m1) && KeepsLive(l, m1, m2)
    ensures KeepsLive(l, m0, m2)
  {
    forall p: nat, i: nat | IsLive(l, p) && p <= i < Succ(l, p) && i < |m0| ensures m2[i] == m0[i] {
      assert m1[i] == m0[i];
    }
  }

  /** Block `b` of `c` covers blocks of `l` that are not live; all else is the same in both. */
  ghost predicate Swallows(l: Layout, c: Layout, b: nat) {
    && Tiles(c) && Coarser(l, c) && b in c.at && !IsLive(l, b)
    && (forall q :: q in c.at && q != b ==> q in l.at && l.at[q] == c.at[q])
    && (forall q :: IsLive(l, q) ==> q in c.at && c.at[q] == l.at[q])
    && Tag(c.at[b]) < 0x1_0000_0000
  }

  /** Writes inside a block leave the words of the live blocks around it alone. */
  lemma TagsMissLive(m: seq<Word>, l: Layout, c: Layout, b: nat, w: Word)
    requires Tiles(l) && Tiles(c) && b in c.at && !IsLive(l, b) && c.end < |m|
    requires forall q :: IsLive(l, q) ==> q in c.at && c.at[q] == l.at[q]
    ensures KeepsLive(l, m, Stamp(m, b, Succ(c, b) - 1, w))
  {
    LiveOutside(l, c, b);
  }

  lemma CoalesceFits(l: Layout, p: nat)
    requires Tiles(l) && IsFree(l, p) && NoFreePairBut(l, p) && 4 * l.end < 0x1_0000_0000
    ensures Tiles(Coalesced(l, p)) && MergedFits(l, p)
  {
    CoalesceTiles(l, p);
    CoalesceExtent(l, p);
    hide Coalesced, Base;
  }

  lemma CoalesceSwallows(l: Layout, p: nat)
    requires Tiles(l) && IsFree(l, p) && NoFreePairBut(l, p) && 4 * l.end < 0x1_0000_0000
    ensures Swallows(l, Coalesced(l, p), Base(l, p))
  {
    CoalesceFits(l, p);
    CoalesceExtent(l, p);
    CoalesceCoarser(l, p);
    CoalesceSameLive(l, p);
    BaseNotLive(l, p);
    hide Coalesced, Base, Tiles, Coarser, NoFreePairBut, FreeBefore, FreeAfter;
  }

  /** The block that swallows `p` lies inside the heap. */
  ghost predicate MergedFits(l: Layout, p: nat)
    requires Tiles(l) && p in l.at
  {
    var b, c := Base(l, p), Coalesced(l, p);
    b in c.at && b < Succ(c, b) <= l.end && Tag(c.at[b]) < 0x1_0000_0000
  }

  /** Memory `m` with the tags of the merged block written. */
  ghost function MergedStamp(m: seq<Word>, l: Layout, p: nat): seq<Word>
    requires Tiles(l) && p in l.at && MergedFits(l, p) && l.end < |m|
  {
    var b, c := Base(l, p), Coalesced(l, p);
    Stamp(m, b, Succ(c, b) - 1, Tag(c.at[b]))
  }

  /** The blocks that a change leaves as they are lie outside the one it makes. */
  lemma LiveOutside(l: Layout, c: Layout, b: nat)
    requires Tiles(l) && Tiles(c) && b in c.at && !IsLive(l, b)
    requires forall q :: IsLive(l, q) ==> q in c.at && c.at[q] == l.at[q]
    ensures forall q {:trigger IsLive(l, q)} :: IsLive(l, q) ==> Succ(l, q) <= b || Succ(c, b) <= q
  {
  }

  lemma CoalesceCoarser(l: Layout, p: nat)
    requires Tiles(l) && IsFree(l, p)
    ensures Coarser(l, Coalesced(l, p))
  {
    CoalesceExtent(l, p);
    var c, b := Coalesced(l, p), Base(l, p);
    assert Succ(l, p) == l.end || Succ(l, p) in l.at;
    assert FreeAfter(l, p) ==> Succ(l, Succ(l, p)) == l.end || Succ(l, Succ(l, p)) in l.at;
    hide Base, Coalesced;
    forall q <- c.at ensures q in l.at && (Succ(c, q) == l.end || Succ(c, q) in l.at) {
      if q != b {
        assert Succ(c, q) == Succ(l, q);
      }
    }
  }

  lemma MarkTagged(m: seq<Word>, l: Layout, p: nat, live: bool)
    requires Tagged(m, l)
    requires p in l.at && p < Succ(l, p) <= |m| && Tag(Block(l.at[p].units, live)) < 0x1_0000_0000
    ensures Tagged(Stamp(m, p, Succ(l, p) - 1, Tag(Block(l.at[p].units, live))), Mark(l, p, live))
  {
    hide Tag, Tiles, Stamp, Chained, Apart, InBounds, TagAt;
    MarkTiles(l, p, live);
    assert Succ(Mark(l, p, live), p) == Succ(l, p);
    RetagOne(m, l, Mark(l, p, live), p);
  }

  lemma MarkMissesLive(m: seq<Word>, l: Layout, p: nat, w: Word)
    requires Tiles(l) && l.end < |m| && p in l.at && p < Succ(l, p) <= |m|
    ensures KeepsLive(Mark(l, p, false), m, Stamp(m, p, Succ(l, p) - 1, w))
  {
    hide Tiles, Stamp, KeepsLive;
    var d := Mark(l, p, false);
    MarkTiles(l, p, false);
    assert Succ(l, p) == Succ(d, p);
    TagsMissLive(m, d, d, p, w);
  }

  lemma MarkCoarser(l: Layout, p: nat, live: bool)
    requires Tiles(l) && p in l.at
    ensures Coarser(l, Mark(l, p, live))
  {
    var c := Mark(l, p, live);
    forall q <- c.at ensures q in l.at && (Succ(c, q) == l.end || Succ(c, q) in l.at) {
      assert Succ(c, q) == Succ(l, q);
    }
  }

  /** Coalescing adds no live block. */
  lemma CoalesceKeepsLive(l: Layout, p: nat, m: seq<Word>, m': seq<Word>)
    requires Tiles(l) && IsFree(l, p) && KeepsLive(l, m, m')
    ensures KeepsLive(Coalesced(l, p), m, m')
  {
    CoalesceExtent(l, p);
    hide Coalesced, Base, Tiles;
    var c := Coalesced(l, p);
    forall q: nat, i: nat | IsLive(c, q) && q <= i < Succ(c, q) && i < |m| ensures m'[i] == m[i] {
      assert IsLive(l, q) && Succ(l, q) == Succ(c, q);
    }
  }

  lemma ExtendMissesLive(m: seq<Word>, l: Layout, n: nat)
    requires Tiles(l) && l.min <= n && l.end + 2 * n < |m| && 8 * n < 0x1_0000_0000
    ensures KeepsLive(l, m, ExtendStamp(m, l.end, n))
  {
    hide Chained, Apart;
    var m' := ExtendStamp(m, l.end, n);
    forall p: nat, i: nat | IsLive(l, p) && p <= i < Succ(l, p) && i < |m| ensures m'[i] == m[i] {
    }
  }

  /** The live blocks of a heap are live blocks of the grown heap. */
  lemma ExtendKeepsLive(l: Layout, n: nat, m: seq<Word>, m': seq<Word>)
    requires Tiles(l) && l.min <= n && KeepsLive(Extend(l, n), m, m')
    ensures KeepsLive(l, m, m')
  {
    ExtendTiles(l, n);
    hide Tiles;
    var c := Extend(l, n);
    forall p: nat, i: nat | IsLive(l, p) && p <= i < Succ(l, p) && i < |m| ensures m'[i] == m[i] {
      assert IsLive(c, p) && c.at[p] == l.at[p];
    }
  }

  lemma SplitMissesLive(m: seq<Word>, l: Layout, p: nat, n: nat)
    requires Tiles(l) && IsFree(l, p)
    requires l.min <= n && n + l.min <= l.at[p].units && 8 * l.at[p].units + 1 < 0x1_0000_0000 && Succ(l, p) <= |m|
    ensures KeepsLive(l, m, SplitStamp(m, l, p, n))
  {
    hide Chained, InBounds;
    var m' := SplitStamp(m, l, p, n);
    forall q: nat, i: nat | IsLive(l, q) && q <= i < Succ(l, q) && i < |m| ensures m'[i] == m[i] {
      assert i < p || Succ(l, p) <= i;
    }
  }

  /** What holds of the live blocks of `c` holds of those of `l`, if they are among them. */
  lemma FewerKeepLive(l: Layout, c: Layout, m: seq<Word>, m': seq<Word>)
    requires KeepsLive(c, m, m')
    requires forall q :: IsLive(l, q) ==> q in c.at && c.at[q] == l.at[q]
    ensures KeepsLive(l, m, m')
  {
    forall q: nat, i: nat | IsLive(l, q) && q <= i < Succ(l, q) && i < |m| ensures m'[i] == m[i] {
      assert IsLive(c, q);
    }
  }

  lemma SplitKeeps(l: Layout, p: nat, n: nat)
    requires IsFree(l, p) && n <= l.at[p].units && p + 2 * n !in l.at && Tiles(Split(l, p, n))
    ensures Coarser(Split(l, p, n), Split(l, p, n))
    ensures forall q :: IsLive(l, q) ==> q in Split(l, p, n).at && Split(l, p, n).at[q] == l.at[q]
  {
  }

  lemma PayloadMissesTags(m: seq<Word>, l: Layout, q: nat, m': seq<Word>)
    requires Tagged(m, l) && q in l.at && |m| == |m'|
    requires forall i :: 0 <= i < |m| && !(q + 1 <= i < Succ(l, q) - 1) ==> m'[i] == m[i]
    ensures Tagged(m', l)
  {
    hide Tag, Chained;
    forall p <- l.at ensures TagAt(m', p, l.at[p]) {
      assert TagAt(m, p, l.at[p]);
    }
  }

  lemma PayloadMissesLive(m: seq<Word>, l: Layout, q: nat, m': seq<Word>)
    requires Tiles(l) && q in l.at && |m| == |m'|
    requires forall i :: 0 <= i < |m| && !(q + 1 <= i < Succ(l, q) - 1) ==> m'[i] == m[i]
    ensures KeepsLive(Mark(l, q, false), m, m')
  {
    hide Chained, InBounds;
    var c := Mark(l, q, false);
    forall p: nat, i: nat | IsLive(c, p) && p <= i < Succ(c, p) && i < |m| ensures m'[i] == m[i] {
      assert p in l.at && p != q && Succ(c, p) == Succ(l, p);
    }
  }

  /** Writing the tags of a block that swallows others spells the coarser layout, and misses the live blocks. */
  lemma SwallowTags(m: seq<Word>, l: Layout, c: Layout, b: nat)
    requires Tagged(m, l) && Swallows(l, c, b)
    ensures b < Succ(c, b) <= |m|
    ensures var m' := Stamp(m, b, Succ(c, b) - 1, Tag(c.at[b])); Tagged(m', c) && KeepsLive(l, m, m')
  {
    hide Tag, KeepsLive, Stamp;
    RetagOne(m, l, c, b);
    TagsMissLive(m, l, c, b, Tag(c.at[b]));
  }

  // ---------- moving a block ----------

  /** After an allocation: what was live is live, and in the same place. */
  lemma StillLive(l: Layout, l1: Layout, q: nat, p: nat)
    requires HandsOut(l, l1, q) && IsLive(l, p)
    ensures p != q && IsLive(l1, p) && IsLive(l1, q) && l1.at[p] == l.at[p]
  {
  }

  /** What is kept of the live blocks but one, is kept of those that remain when it is taken back. */
  lemma ReleasedKeeps(l: Layout, l1: Layout, p: nat, m: seq<Word>, m': seq<Word>)
    requires HandsOut(l1, l, p) && KeepsLive(l1, m, m')
    ensures KeepsLive(Mark(l, p, false), m, m')
  {
    hide KeepsLive;
    FewerKeepLive(Mark(l, p, false), l1, m, m');
  }

  /** Block `p` moves to `q` in three steps: `q` is handed out, its payload written, and `p` taken back.
      All other blocks keep their words. */
  lemma MovedKeeps(l: Layout, l1: Layout, l2: Layout, q: nat, p: nat,
                   m: seq<Word>, m1: seq<Word>, m2: seq<Word>, m3: seq<Word>)
    requires HandsOut(l, l1, q) && IsLive(l, p) && HandsOut(l2, l1, p)
    requires KeepsLive(l, m, m1) && IsLive(l1, q) && KeepsLive(Mark(l1, q, false), m1, m2) && KeepsLive(l2, m2, m3)
    ensures KeepsLive(Mark(l, p, false), m, m3)
    ensures IsLive(l2, q) && l2.at[q] == l1.at[q]
  {
    hide KeepsLive;
    var d := Mark(l, p, false);
    FewerKeepLive(d, l, m, m1);
    FewerKeepLive(d, Mark(l1, q, false), m1, m2);
    FewerKeepLive(d, l2, m2, m3);
    KeepsLiveTrans(d, m, m1, m2);
    KeepsLiveTrans(d, m, m2, m3);
  }

  /** Words that are kept keep their bytes: here those of the payload at `bp`, of `size` bytes with a footer
      behind it. */
  lemma BytesKept(l: Layout, p: nat, bp: nat, size: nat, m: seq<Word>, m': seq<Word>)
    requires Tiles(l) && l.end < |m| == |m'| && KeepsLive(l, m, m')
    requires IsLive(l, p) && p <= bp && size + 4 * (bp - p + 1) <= 8 * l.at[p].units
    ensures forall j :: 0 <= j < size ==>
              bp + j / 4 < |m| && bp + j / 4 < |m'| && ByteAt(m', bp, j) == ByteAt(m, bp, j)
  {
    hide ByteOf, Chained, Apart;
    forall j | 0 <= j < size
      ensures bp + j / 4 < |m| && bp + j / 4 < |m'| && ByteAt(m', bp, j) == ByteAt(m, bp, j)
    {
      assert p <= bp + j / 4 < Succ(l, p);
      assert m'[bp + j / 4] == m[bp + j / 4];
    }
  }
}
