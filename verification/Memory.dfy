/** The heap as raw 32-bit words: tags, links, and what it means for them to describe a layout. */
module Memory {
  import opened Blocks

  type Word = w: int | 0 <= w < 0x1_0000_0000

  const NULL: Word := 0
  const WSIZE := 4
  const DSIZE := 8
  const QSIZE := 16

  // ---------- packing a size and an allocated bit ----------

  function Pack(size: nat, alloc: nat): nat {
    size + alloc
  }

  function GetSize(w: Word): nat {
    w - w % 8
  }

  /** The size in words, for adding to a word index. */
  function GetWords(w: Word): nat {
    GetSize(w) / 4
  }

  function GetAlloc(w: Word): nat {
    w % 2
  }

  /** The word stored in both tags of a block. */
  function Tag(k: Block): nat {
    8 * k.units + (if k.live then 1 else 0)
  }

  lemma TagRead(k: Block)
    requires Tag(k) < 0x1_0000_0000
    ensures GetSize(Tag(k)) == 8 * k.units && GetWords(Tag(k)) == 2 * k.units
    ensures GetAlloc(Tag(k)) == if k.live then 1 else 0
  {
    TagArithmetic(k.units, if k.live then 1 else 0);
  }

  lemma TagArithmetic(n: nat, a: nat)
    requires a < 2
    ensures (8 * n + a) % 8 == a && (8 * n + a) % 2 == a && (8 * n) / 4 == 2 * n
  {
    Eights(8 * n + a, n, a);
    Twos(8 * n + a, 4 * n, a);
    Fours(8 * n, 2 * n);
  }

  lemma Eights(x: nat, q: nat, r: nat)
    requires x == 8 * q + r && r < 8
    ensures x / 8 == q && x % 8 == r
  {
    var d := x / 8;
    assert 8 * d <= x < 8 * d + 8;
    assert d == q;
  }

  lemma Fours(x: nat, q: nat)
    requires x == 4 * q
    ensures x / 4 == q
  {
    var d := x / 4;
    assert 4 * d <= x < 4 * d + 4;
  }

  lemma Twos(x: nat, q: nat, r: nat)
    requires x == 2 * q + r && r < 2
    ensures x / 2 == q && x % 2 == r
  {
    var d := x / 2;
    assert 2 * d <= x < 2 * d + 2;
    assert d == q;
  }

  /** Bytes that are whole units are an even number of whole words. */
  lemma WholeWords(size: nat, n: nat)
    requires size == 8 * n
    ensures size / 4 % 2 == 0 && 4 * (size / 4) == size && (size / 4 + 1) / 2 == n
  {
    assert size / 4 == 2 * n;
  }

  // ---------- tags ----------

  /** Block `k` has its header at word `p` and its footer in its last word. */
  ghost predicate TagAt(m: seq<Word>, p: nat, k: Block) {
    1 <= k.units && p + 2 * k.units <= |m| && m[p] == m[p + 2 * k.units - 1] == Tag(k)
  }

  /** Header and footer of the prologue, both tags of every block, and the epilogue header are in
      place. The prologue takes the words from 1 up to the first block. */
  ghost predicate Tagged(m: seq<Word>, l: Layout) {
    && Tiles(l)
    && 2 < l.first && l.first % 2 == 1 && l.end < |m|
    && m[1] == m[l.first - 1] == 4 * (l.first - 1) + 1
    && m[l.end] == 1
    && forall p <- l.at :: TagAt(m, p, l.at[p])
  }

  /** `m` with word `w` written as the header at `p` and the footer at `e`. */
  function Stamp(m: seq<Word>, p: nat, e: nat, w: Word): (m': seq<Word>)
    requires p < |m| && e < |m|
    ensures |m'| == |m|
  {
    m[p := w][e := w]
  }

  /** What a block's header says. */
  lemma HeaderTag(m: seq<Word>, l: Layout, p: nat)
    requires Tagged(m, l) && p in l.at
    ensures GetSize(m[p]) == 8 * l.at[p].units && GetWords(m[p]) == 2 * l.at[p].units
    ensures GetAlloc(m[p]) == if l.at[p].live then 1 else 0
  {
    hide GetSize, GetWords, GetAlloc, Tag;
    TagRead(l.at[p]);
  }

  /** What a block's footer says. */
  lemma FooterTag(m: seq<Word>, l: Layout, p: nat)
    requires Tagged(m, l) && p in l.at
    ensures GetSize(m[Succ(l, p) - 1]) == 8 * l.at[p].units && GetWords(m[Succ(l, p) - 1]) == 2 * l.at[p].units
    ensures GetAlloc(m[Succ(l, p) - 1]) == if l.at[p].live then 1 else 0
  {
    hide GetSize, GetWords, GetAlloc, Tag;
    TagRead(l.at[p]);
  }

  /** What the successor's header says; the epilogue reads as live. */
  lemma SuccTag(m: seq<Word>, l: Layout, p: nat)
    requires Tagged(m, l) && p in l.at
    ensures GetAlloc(m[Succ(l, p)]) == 0 <==> FreeAfter(l, p)
    ensures Succ(l, p) in l.at <==> Succ(l, p) != l.end
  {
    hide GetAlloc, Tag;
    SentinelTags(l.first);
    if Succ(l, p) in l.at {
      TagRead(l.at[Succ(l, p)]);
    }
  }

  lemma SentinelTags(first: nat)
    ensures GetAlloc(1) == 1
    ensures 4 * (first - 1) + 1 < 0x1_0000_0000 && first % 2 == 1 ==>
              GetAlloc(4 * (first - 1) + 1) == 1 && GetSize(4 * (first - 1) + 1) == 4 * (first - 1)
              && GetWords(4 * (first - 1) + 1) == first - 1
  {
    Twos(1, 0, 1);
    if first % 2 == 1 {
      var h := first / 2;
      assert first == 2 * h + 1;
      TagArithmetic(h, 1);
    }
  }

  /** What the word in front of a header says: it is the predecessor's footer, or the prologue's,
      which reads as live. */
  lemma PredTag(m: seq<Word>, l: Layout, p: nat)
    requires Tagged(m, l) && p in l.at
    ensures GetAlloc(m[p - 1]) == 0 <==> FreeBefore(l, p)
    ensures GetWords(m[p - 1]) == if p == l.first then l.first - 1 else 2 * l.at[Pred(l, p)].units
  {
    hide GetSize, GetWords, GetAlloc, Tag;
    SentinelTags(l.first);
    if l.first < p {
      assert TagAt(m, Pred(l, p), l.at[Pred(l, p)]);
      TagRead(l.at[Pred(l, p)]);
    }
  }

  lemma StampFrame(m: seq<Word>, b: nat, e: nat, w: Word, q: nat, k: Block)
    requires b <= e < |m| && TagAt(m, q, k) && (q + 2 * k.units <= b || e < q)
    ensures TagAt(Stamp(m, b, e, w), q, k)
  {
    hide Tag;
  }

  lemma StampSets(m: seq<Word>, b: nat, k: Block)
    requires 1 <= k.units && b + 2 * k.units <= |m| && Tag(k) < 0x1_0000_0000
    ensures TagAt(Stamp(m, b, b + 2 * k.units - 1, Tag(k)), b, k)
  {
    hide Tag;
  }

  /** Where block `x` lies. */
  lemma BlockBounds(c: Layout, x: nat)
    requires Tiles(c) && x in c.at
    ensures c.first <= x < x + 1 < Succ(c, x) <= c.end
  {
    hide Chained, Apart;
  }

  /** Another block ends before `x` or starts behind it. */
  lemma OtherBlock(c: Layout, x: nat, q: nat)
    requires Tiles(c) && x in c.at && q in c.at && q != x
    ensures Succ(c, q) <= x || Succ(c, x) <= q
  {
    hide Chained, InBounds;
  }

  /** Writes among the blocks miss the tags of prologue and epilogue. */
  lemma StampKeepsEnds(m: seq<Word>, l: Layout, b: nat, e: nat, w: Word)
    requires 2 < l.first <= b <= e < l.end < |m|
    ensures var n := Stamp(m, b, e, w); n[1] == m[1] && n[l.first - 1] == m[l.first - 1] && n[l.end] == m[l.end]
  {
  }

  /** Writing both tags of `x` completes the change from layout `l` to `c`, when every other block
      of `c` was already a block of `l`. */
  lemma RetagOne(m: seq<Word>, l: Layout, c: Layout, x: nat)
    requires Tagged(m, l) && Tiles(c) && x in c.at
    requires c.first == l.first && c.end == l.end
    requires forall q :: q in c.at && q != x ==> q in l.at && l.at[q] == c.at[q]
    requires Tag(c.at[x]) < 0x1_0000_0000
    ensures Tagged(Stamp(m, x, Succ(c, x) - 1, Tag(c.at[x])), c)
  {
    hide Tag, Tiles, TagAt, Stamp;
    BlockBounds(c, x);
    StampSets(m, x, c.at[x]);
    StampKeepsEnds(m, c, x, Succ(c, x) - 1, Tag(c.at[x]));
    forall q <- c.at ensures TagAt(Stamp(m, x, Succ(c, x) - 1, Tag(c.at[x])), q, c.at[q]) {
      if q != x {
        OtherBlock(c, x, q);
        StampFrame(m, x, Succ(c, x) - 1, Tag(c.at[x]), q, l.at[q]);
      }
    }
  }

  /** `m` with the tags of both halves of a split written. */
  function SplitStamp(m: seq<Word>, l: Layout, p: nat, n: nat): (m': seq<Word>)
    requires p in l.at && l.min <= n && n + l.min <= l.at[p].units && 1 <= l.min && Succ(l, p) <= |m|
    requires 8 * l.at[p].units + 1 < 0x1_0000_0000
    ensures |m'| == |m|
  {
    Stamp(Stamp(m, p, p + 2 * n - 1, Tag(Block(n, true))),
          p + 2 * n, Succ(l, p) - 1, Tag(Block(l.at[p].units - n, false)))
  }

  /** Writing the tags of both halves completes a split. */
  lemma RetagSplit(m: seq<Word>, l: Layout, p: nat, n: nat)
    requires Tagged(m, l) && p in l.at
    requires l.min <= n && n + l.min <= l.at[p].units && 8 * l.at[p].units + 1 < 0x1_0000_0000
    ensures Tagged(SplitStamp(m, l, p, n), Split(l, p, n))
  {
    hide Chained, TagAt, GetSize, Tag;
    SplitTiles(l, p, n);
    SplitHalves(m, l, p, n);
    forall q <- l.at | q != p ensures TagAt(SplitStamp(m, l, p, n), q, l.at[q]) {
      SplitOther(m, l, p, n, q);
    }
  }

  lemma SplitHalves(m: seq<Word>, l: Layout, p: nat, n: nat)
    requires p in l.at && 1 <= l.min <= n && n + l.min <= l.at[p].units && Succ(l, p) <= |m|
    requires 8 * l.at[p].units + 1 < 0x1_0000_0000
    ensures TagAt(SplitStamp(m, l, p, n), p, Block(n, true))
    ensures TagAt(SplitStamp(m, l, p, n), p + 2 * n, Block(l.at[p].units - n, false))
  {
  }

  lemma SplitOther(m: seq<Word>, l: Layout, p: nat, n: nat, q: nat)
    requires p in l.at && 1 <= l.min <= n && n + l.min <= l.at[p].units && Succ(l, p) <= |m|
    requires 8 * l.at[p].units + 1 < 0x1_0000_0000
    requires q in l.at && TagAt(m, q, l.at[q]) && (Succ(l, q) <= p || Succ(l, p) <= q)
    ensures TagAt(SplitStamp(m, l, p, n), q, l.at[q])
  {
  }

  /** `m` with a free block of `n` units at the old epilogue, and the new epilogue behind it. */
  function ExtendStamp(m: seq<Word>, end: nat, n: nat): (m': seq<Word>)
    requires 1 <= n && end + 2 * n < |m| && 8 * n < 0x1_0000_0000
    ensures |m'| == |m|
  {
    Stamp(m, end, end + 2 * n - 1, Tag(Block(n, false)))[end + 2 * n := 1]
  }

  /** Writing the tags of a block placed at the old epilogue, and a new epilogue. */
  lemma RetagExtend(m: seq<Word>, l: Layout, n: nat)
    requires Tagged(m, l) && l.min <= n
    requires l.end + 2 * n < |m| && 8 * n < 0x1_0000_0000
    ensures Tagged(ExtendStamp(m, l.end, n), Extend(l, n))
  {
    hide Tag, Chained, Apart;
    var m' := ExtendStamp(m, l.end, n);
    ExtendTiles(l, n);
    assert TagAt(m', l.end, Block(n, false));
    forall q <- l.at ensures TagAt(m', q, l.at[q]) {
      assert TagAt(m, q, l.at[q]);
    }
  }

  /** No word of a live block of `l` differs between `m` and `m'`. */
  ghost predicate KeepsLive(l: Layout, m: seq<Word>, m': seq<Word>) {
    && |m| == |m'|
    && forall p: nat, i: nat {:trigger l.at[p], m'[i]} ::
         IsLive(l, p) && p <= i < Succ(l, p) && i < |m| ==> m'[i] == m[i]
  }

  // ---------- bytes ----------

  /** Byte `k` of a word, least significant first. */
  function ByteOf(w: Word, k: nat): (b: nat)
    requires k < 4
    ensures b < 0x100
  {
    if k == 0 then w % 0x100 else ByteOf(w / 0x100, k - 1)
  }

  /** The word with these four bytes. */
  function WordOf(b0: nat, b1: nat, b2: nat, b3: nat): Word
    requires b0 < 0x100 && b1 < 0x100 && b2 < 0x100 && b3 < 0x100
  {
    b0 + 0x100 * (b1 + 0x100 * (b2 + 0x100 * b3))
  }

  /** Byte `j` of the stretch of memory that starts at word `p`. */
  function ByteAt(m: seq<Word>, p: nat, j: nat): nat
    requires p + j / 4 < |m|
  {
    ByteOf(m[p + j / 4], j % 4)
  }

  /** The word with byte `k` replaced. */
  function SetByte(w: Word, k: nat, b: nat): Word
    requires k < 4 && b < 0x100
  {
    WordOf(if k == 0 then b else ByteOf(w, 0), if k == 1 then b else ByteOf(w, 1),
           if k == 2 then b else ByteOf(w, 2), if k == 3 then b else ByteOf(w, 3))
  }

  lemma SetByteCorrect(w: Word, k: nat, b: nat, j: nat)
    requires k < 4 && b < 0x100 && j < 4
    ensures ByteOf(SetByte(w, k, b), j) == if j == k then b else ByteOf(w, j)
  {
    hide ByteOf, WordOf;
    WordOfBytes(if k == 0 then b else ByteOf(w, 0), if k == 1 then b else ByteOf(w, 1),
                if k == 2 then b else ByteOf(w, 2), if k == 3 then b else ByteOf(w, 3));
  }

  /** The word whose `r` low bytes are those of `low` and whose other bytes are those of `high`. */
  function MixBytes(low: Word, high: Word, r: nat): Word
    requires r < 4
  {
    WordOf(ByteOf(if 0 < r then low else high, 0), ByteOf(if 1 < r then low else high, 1),
           ByteOf(if 2 < r then low else high, 2), ByteOf(high, 3))
  }

  lemma Digit(b: nat, q: nat)
    requires b < 0x100
    ensures (b + 0x100 * q) % 0x100 == b && (b + 0x100 * q) / 0x100 == q
  {
  }

  lemma WordOfBytes(b0: nat, b1: nat, b2: nat, b3: nat)
    requires b0 < 0x100 && b1 < 0x100 && b2 < 0x100 && b3 < 0x100
    ensures var w := WordOf(b0, b1, b2, b3);
            ByteOf(w, 0) == b0 && ByteOf(w, 1) == b1 && ByteOf(w, 2) == b2 && ByteOf(w, 3) == b3
  {
    Digit(b0, b1 + 0x100 * (b2 + 0x100 * b3));
    Digit(b1, b2 + 0x100 * b3);
    Digit(b2, b3);
    Digit(b3, 0);
    var w2: Word := b2 + 0x100 * b3;
    var w1: Word := b1 + 0x100 * w2;
    assert ByteOf(w2, 0) == b2 && ByteOf(w2, 1) == b3;
    assert ByteOf(w1, 0) == b1 && ByteOf(w1, 1) == b2 && ByteOf(w1, 2) == b3;
  }

  lemma MixBytesCorrect(low: Word, high: Word, r: nat, k: nat)
    requires r < 4 && k < 4
    ensures ByteOf(MixBytes(low, high, r), k) == if k < r then ByteOf(low, k) else ByteOf(high, k)
  {
    hide ByteOf, WordOf;
    WordOfBytes(ByteOf(if 0 < r then low else high, 0), ByteOf(if 1 < r then low else high, 1),
                ByteOf(if 2 < r then low else high, 2), ByteOf(high, 3));
  }

  /** Whole words copied, and the low bytes of one more: byte by byte, this is a copy of `n` bytes. */
  lemma CopiedBytes(m: seq<Word>, m': seq<Word>, dst: nat, src: nat, n: nat)
    requires |m| == |m'| && dst + (n + 3) / 4 <= |m| && src + (n + 3) / 4 <= |m|
    requires forall k :: dst <= k < dst + n / 4 ==> m'[k] == m[k - dst + src]
    requires n % 4 != 0 ==> m'[dst + n / 4] == MixBytes(m[src + n / 4], m[dst + n / 4], n % 4)
    ensures forall j :: 0 <= j < n ==> ByteAt(m', dst, j) == ByteAt(m, src, j)
    ensures forall j :: n <= j < 4 * ((n + 3) / 4) ==> ByteAt(m', dst, j) == ByteAt(m, dst, j)
  {
    hide ByteOf, MixBytes;
    forall j | n <= j < 4 * ((n + 3) / 4) ensures ByteAt(m', dst, j) == ByteAt(m, dst, j) {
      assert n % 4 != 0 && j / 4 == n / 4;
      MixBytesCorrect(m[src + n / 4], m[dst + n / 4], n % 4, j % 4);
    }
    forall j | 0 <= j < n ensures ByteAt(m', dst, j) == ByteAt(m, src, j) {
      if j / 4 == n / 4 {
        MixBytesCorrect(m[src + n / 4], m[dst + n / 4], n % 4, j % 4);
      } else {
        assert m'[dst + j / 4] == m[src + j / 4];
      }
    }
  }

  /** memcpy of `n` bytes between stretches that start on a word and do not overlap. */
  method Memcpy(mem: array<Word>, dst: nat, src: nat, n: nat)
    requires dst + (n + 3) / 4 <= mem.Length && src + (n + 3) / 4 <= mem.Length
    requires dst + (n + 3) / 4 <= src || src + (n + 3) / 4 <= dst
    modifies mem
    ensures forall i :: 0 <= i < mem.Length && !(dst <= i < dst + (n + 3) / 4) ==> mem[i] == old(mem[i])
    ensures forall j :: 0 <= j < n ==> ByteAt(mem[..], dst, j) == old(ByteAt(mem[..], src, j))
    ensures forall j :: n <= j < 4 * ((n + 3) / 4) ==> ByteAt(mem[..], dst, j) == old(ByteAt(mem[..], dst, j))
  {
    hide ByteAt, MixBytes;
    var i := 0;
    while i < n / 4
      invariant 0 <= i <= n / 4
      invariant forall k :: 0 <= k < mem.Length && !(dst <= k < dst + i) ==> mem[k] == old(mem[k])
      invariant forall k :: dst <= k < dst + i ==> mem[k] == old(mem[k - dst + src])
    {
      mem[dst + i] := mem[src + i];
      i := i + 1;
    }
    if n % 4 != 0 {
      mem[dst + i] := MixBytes(mem[src + i], mem[dst + i], n % 4);
    }
    CopiedBytes(old(mem[..]), mem[..], dst, src, n);
  }
}
