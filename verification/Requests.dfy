/** What a client of an allocator does, and what it may rely on. A block is named by the word index of its
    header; its payload starts `before` words later. */
module Requests {
  import opened Basics
  import opened Blocks
  import opened Memory
  import opened Retagging

  /** A request, or a byte that the client writes to a payload. */
  datatype Op =
    | Malloc(size: nat)
    | Free(p: Option<nat>)
    | Realloc(p: Option<nat>, size: nat)
    | Write(block: nat, offset: nat, byte: nat)

  /** What the client knows: the size each of its blocks was requested with, and the bytes it has written
      there. */
  datatype Client = Client(asked: map<nat, nat>, content: map<nat, map<nat, nat>>)

  /** The client frees, resizes and writes only what it owns, inside the size it asked for. */
  predicate Legal(c: Client, op: Op) {
    match op
    case Malloc(_) => true
    case Free(p) => p.Some? ==> p.value in c.asked
    case Realloc(p, _) => p.Some? ==> p.value in c.asked
    case Write(p, offset, byte) => p in c.asked && p in c.content && offset < c.asked[p] && byte < 0x100
  }

  /** The operation frees or moves block `p`. */
  predicate Takes(op: Op, p: nat) {
    (op.Free? || op.Realloc?) && op.p == Some(p)
  }

  /** The operation frees, moves or writes block `p`. */
  predicate Names(op: Op, p: nat) {
    Takes(op, p) || (op.Write? && op.block == p)
  }

  function Lost(c: Client, p: Option<nat>): Client {
    if p.Some? then Client(c.asked - {p.value}, c.content - {p.value}) else c
  }

  function Gained(c: Client, p: nat, size: nat, bytes: map<nat, nat>): Client {
    Client(c.asked[p := size], c.content[p := bytes])
  }

  /** The bytes of block `p` that a block of `size` bytes can take over. */
  function Carried(c: Client, p: Option<nat>, size: nat): map<nat, nat> {
    if p.Some? && p.value in c.content
    then map j | j in c.content[p.value] && j < size :: c.content[p.value][j] else map[]
  }

  function Written(bytes: map<nat, nat>, offset: nat, byte: nat): map<nat, nat> {
    var one: map<nat, nat> := map[offset := byte];
    bytes + one
  }

  /** What the client knows after an operation that returned `r`. */
  function After(c: Client, op: Op, r: Option<nat>): Client {
    match op
    case Malloc(size) => if r.Some? then Gained(c, r.value, size, map[]) else c
    case Free(p) => Lost(c, p)
    case Realloc(p, size) =>
      if size == 0 then Lost(c, p)
      else if r.Some? then Gained(Lost(c, p), r.value, size, Carried(c, p, size))
      else c
    case Write(p, offset, byte) =>
      if p in c.content then c.(content := c.content[p := Written(c.content[p], offset, byte)]) else c
  }

  /** The client owns the live blocks; each has room for what it asked for, with its overhead, and at most
      `most` bytes more. */
  ghost predicate Owns(c: Client, l: Layout, before: nat, most: nat) {
    && (forall p :: p in c.asked <==> IsLive(l, p))
    && (forall p :: p in c.content <==> p in c.asked)
    && (forall p <- c.asked :: Sized(c, l, before, most, p))
  }

  ghost predicate Sized(c: Client, l: Layout, before: nat, most: nat, p: nat)
    requires p in c.asked && p in l.at && p in c.content
  {
    && 0 < c.asked[p] && c.asked[p] + 4 * (before + 1) <= 8 * l.at[p].units <= c.asked[p] + most
    && forall j <- c.content[p] :: j < c.asked[p]
  }

  /** The payloads in memory hold what the client wrote. */
  ghost predicate Remembers(c: Client, m: seq<Word>, before: nat) {
    forall p <- c.content :: Remembered(c.content[p], m, p + before)
  }

  ghost predicate Remembered(bytes: map<nat, nat>, m: seq<Word>, start: nat) {
    forall j <- bytes :: start + j / 4 < |m| && ByteAt(m, start, j) == bytes[j]
  }

  /** Block `p` is live in both layouts, at the same size and with the same words. */
  ghost predicate Untouched(l: Layout, m: seq<Word>, l': Layout, m': seq<Word>, p: nat) {
    && IsLive(l, p) && IsLive(l', p) && l'.at[p] == l.at[p] && |m| == |m'|
    && forall i :: p <= i < Succ(l, p) && i < |m| ==> m'[i] == m[i]
  }

  lemma KeptUntouched(l: Layout, d: Layout, m: seq<Word>, l': Layout, m': seq<Word>, p: nat)
    requires KeepsLive(d, m, m') && IsLive(l, p) && IsLive(d, p) && IsLive(l', p) && d.at[p] == l'.at[p] == l.at[p]
    ensures Untouched(l, m, l', m', p)
  {
  }

  // ---------- ownership ----------

  lemma NothingFreed(c: Client)
    ensures After(c, Free(None), None) == c
  {
  }

  /** What the client may name is live, and its payload has the room asked for. */
  lemma OwnedLive(c: Client, l: Layout, before: nat, most: nat, p: nat)
    requires Owns(c, l, before, most) && p in c.asked
    ensures IsLive(l, p) && p in c.content && c.asked[p] + 4 * (before + 1) <= 8 * l.at[p].units
  {
    assert Sized(c, l, before, most, p);
  }

  lemma NewBlock(l: Layout, l': Layout, q: nat, p: nat)
    requires HandsOut(l, l', q) && IsLive(l, p)
    ensures p != q && IsLive(l', p) && l'.at[p] == l.at[p]
  {
  }

  lemma GainedOwns(c: Client, l: Layout, l': Layout, before: nat, most: nat, p: nat, size: nat, bytes: map<nat, nat>)
    requires Owns(c, l, before, most) && HandsOut(l, l', p)
    requires 0 < size && size + 4 * (before + 1) <= 8 * l'.at[p].units <= size + most && forall j <- bytes :: j < size
    ensures Owns(Gained(c, p, size, bytes), l', before, most)
  {
    var d := Gained(c, p, size, bytes);
    forall q <- d.asked ensures Sized(d, l', before, most, q) {
      assert q != p ==> Sized(c, l, before, most, q);
    }
  }

  lemma LostOwns(c: Client, l: Layout, l': Layout, before: nat, most: nat, p: nat)
    requires Owns(c, l, before, most) && HandsOut(l', l, p)
    ensures Owns(Lost(c, Some(p)), l', before, most)
  {
    var d := Lost(c, Some(p));
    forall q <- d.asked ensures Sized(d, l', before, most, q) {
      assert Sized(c, l, before, most, q);
    }
  }

  /** First a block is gained, then the old one is lost: the other way round makes no difference. */
  lemma GainedLost(c: Client, p: nat, q: nat, size: nat, bytes: map<nat, nat>)
    requires p != q
    ensures Lost(Gained(c, q, size, bytes), Some(p)) == Gained(Lost(c, Some(p)), q, size, bytes)
  {
    assert c.asked[q := size] - {p} == (c.asked - {p})[q := size];
    assert c.content[q := bytes] - {p} == (c.content - {p})[q := bytes];
  }

  lemma NothingLost(c: Client)
    ensures Lost(c, None) == c
  {
  }

  lemma GainedKeeps(c: Client, q: nat, size: nat, bytes: map<nat, nat>, p: nat)
    requires p in c.asked
    ensures p in Gained(c, q, size, bytes).asked
  {
  }

  lemma CarriedInside(c: Client, p: Option<nat>, size: nat)
    ensures forall j <- Carried(c, p, size) :: j < size
  {
  }

  lemma WriteOwns(c: Client, l: Layout, before: nat, most: nat, p: nat, offset: nat, byte: nat)
    requires Owns(c, l, before, most) && p in c.content && offset < c.asked[p]
    ensures Owns(After(c, Write(p, offset, byte), None), l, before, most)
  {
    var d := After(c, Write(p, offset, byte), None);
    forall q <- d.asked ensures Sized(d, l, before, most, q) {
      assert Sized(c, l, before, most, q);
    }
  }

  // ---------- what the client remembers ----------

  /** A byte that has been written to block `p` and not overwritten since. */
  predicate Knows(c: Client, p: nat, offset: nat, byte: nat) {
    p in c.asked && p in c.content && offset in c.content[p] && c.content[p][offset] == byte
  }

  /** The operation neither frees or moves block `p` nor writes that byte of it. */
  predicate Spares(op: Op, p: nat, offset: nat) {
    !Takes(op, p) && !(op.Write? && op.block == p && op.offset == offset)
  }

  lemma KnownOwned(c: Client, p: nat, offset: nat, byte: nat)
    requires Knows(c, p, offset, byte)
    ensures p in c.asked
  {
  }

  lemma WriteKnown(c: Client, p: nat, offset: nat, byte: nat)
    requires Legal(c, Write(p, offset, byte))
    ensures Knows(After(c, Write(p, offset, byte), None), p, offset, byte)
  {
  }

  lemma SparedKnown(c: Client, op: Op, r: Option<nat>, p: nat, offset: nat, byte: nat)
    requires Knows(c, p, offset, byte) && Spares(op, p, offset) && r != Some(p)
    ensures Knows(After(c, op, r), p, offset, byte)
  {
  }

  /** A block that has moved has the bytes of the old one, as far as they fit, and no others. */
  lemma MovedKnown(c: Client, p: nat, size: nat, q: nat, offset: nat, byte: nat)
    requires p in c.asked && p in c.content && size > 0 && q != p
    ensures var d := After(c, Realloc(Some(p), size), Some(q));
            && d.asked == (c.asked - {p})[q := size]
            && (Knows(d, q, offset, byte) <==> Knows(c, p, offset, byte) && offset < size)
  {
  }

  // ---------- contents ----------

  /** A live block whose words are kept still holds its bytes. */
  lemma BlockRemembers(c: Client, l: Layout, d: Layout, before: nat, most: nat, p: nat, m: seq<Word>, m': seq<Word>)
    requires Owns(c, l, before, most) && p in c.content && Remembered(c.content[p], m, p + before)
    requires Tiles(l) && l.end < |m| && KeepsLive(d, m, m') && IsLive(d, p) && d.at[p] == l.at[p]
    ensures Remembered(c.content[p], m', p + before)
  {
    hide Tiles;
    assert Sized(c, l, before, most, p);
    forall j <- c.content[p] ensures p + before + j / 4 < |m'| && ByteAt(m', p + before, j) == c.content[p][j] {
      assert p <= p + before + j / 4 < Succ(d, p);
      assert m'[p + before + j / 4] == m[p + before + j / 4];
    }
  }

  /** When all live blocks but `gone` keep their words, all that the client wrote elsewhere is still there. */
  lemma OthersRemember(c: Client, l: Layout, d: Layout, before: nat, most: nat, gone: Option<nat>,
                       m: seq<Word>, m': seq<Word>)
    requires Owns(c, l, before, most) && Remembers(c, m, before)
    requires Tiles(l) && l.end < |m| && KeepsLive(d, m, m')
    requires forall p :: IsLive(l, p) && Some(p) != gone ==> IsLive(d, p) && d.at[p] == l.at[p]
    ensures Remembers(Lost(c, gone), m', before)
  {
    hide Tiles, KeepsLive, Remembered;
    forall p <- Lost(c, gone).content ensures Remembered(Lost(c, gone).content[p], m', p + before) {
      BlockRemembers(c, l, d, before, most, p, m, m');
    }
  }

  lemma GainedRemembers(c: Client, m: seq<Word>, before: nat, p: nat, size: nat, bytes: map<nat, nat>)
    requires Remembers(c, m, before) && Remembered(bytes, m, p + before)
    ensures Remembers(Gained(c, p, size, bytes), m, before)
  {
  }

  /** What a moved block carries over. */
  lemma CarriedRemembers(c: Client, l: Layout, before: nat, most: nat, p: nat, q: nat, size: nat,
                         m: seq<Word>, m': seq<Word>)
    requires Owns(c, l, before, most) && Remembers(c, m, before) && p in c.content
    requires forall j :: 0 <= j < size && j < 8 * l.at[p].units - 4 * (before + 1) ==>
               q + before + j / 4 < |m'| && p + before + j / 4 < |m|
               && ByteAt(m', q + before, j) == ByteAt(m, p + before, j)
    ensures Remembered(Carried(c, Some(p), size), m', q + before)
  {
    assert Sized(c, l, before, most, p) && Remembered(c.content[p], m, p + before);
    var bytes := Carried(c, Some(p), size);
    forall j <- bytes ensures q + before + j / 4 < |m'| && ByteAt(m', q + before, j) == bytes[j] {
      assert j in c.content[p];
    }
  }

  /** Of the `room` bytes from `start` on, one has been written. */
  ghost predicate OneByte(m: seq<Word>, m': seq<Word>, start: nat, room: int, offset: nat, byte: nat) {
    forall j :: 0 <= j < room ==>
      start + j / 4 < |m'| && start + j / 4 < |m|
      && ByteAt(m', start, j) == (if j == offset then byte else ByteAt(m, start, j))
  }

  lemma ByteWritten(m: seq<Word>, m': seq<Word>, start: nat, room: nat, offset: nat, byte: nat)
    requires offset < room <= 4 * (|m| - start) && byte < 0x100
    requires start + offset / 4 < |m| && m' == m[start + offset / 4 := SetByte(m[start + offset / 4], offset % 4, byte)]
    ensures OneByte(m, m', start, room, offset, byte)
  {
    hide SetByte, ByteOf;
    forall j | 0 <= j < room
      ensures start + j / 4 < |m'| && ByteAt(m', start, j) == (if j == offset then byte else ByteAt(m, start, j))
    {
      if j / 4 == offset / 4 {
        SetByteCorrect(m[start + offset / 4], offset % 4, byte, j % 4);
      }
    }
  }

  lemma NothingCarried(c: Client, size: nat, m: seq<Word>, start: nat)
    ensures Remembered(map[], m, start) && Remembered(Carried(c, None, size), m, start)
  {
  }

  /** A byte has been written to block `p`, and the other blocks have kept their words. */
  lemma WriteRemembers(c: Client, l: Layout, before: nat, most: nat, p: nat, offset: nat, byte: nat,
                       m: seq<Word>, m': seq<Word>)
    requires Owns(c, l, before, most) && Remembers(c, m, before) && p in c.content && offset < c.asked[p]
    requires Tiles(l) && l.end < |m| && KeepsLive(Mark(l, p, false), m, m')
    requires OneByte(m, m', p + before, 8 * l.at[p].units - 4 * (before + 1), offset, byte)
    ensures Remembers(After(c, Write(p, offset, byte), None), m', before)
  {
    hide Tiles, KeepsLive, Remembered;
    var d := After(c, Write(p, offset, byte), None);
    OthersRemember(c, l, Mark(l, p, false), before, most, Some(p), m, m');
    assert Sized(c, l, before, most, p);
    WrittenRemembered(c.content[p], m, m', p + before, 8 * l.at[p].units - 4 * (before + 1), offset, byte);
    forall q <- d.content ensures Remembered(d.content[q], m', q + before) {
      assert q != p ==> q in Lost(c, Some(p)).content && Lost(c, Some(p)).content[q] == d.content[q];
    }
  }

  lemma WrittenRemembered(bytes: map<nat, nat>, m: seq<Word>, m': seq<Word>, start: nat, room: int,
                          offset: nat, byte: nat)
    requires Remembered(bytes, m, start) && offset < room && forall j <- bytes :: j < room
    requires OneByte(m, m', start, room, offset, byte)
    ensures Remembered(Written(bytes, offset, byte), m', start)
  {
    hide ByteAt;
    var w := Written(bytes, offset, byte);
    forall j <- w ensures start + j / 4 < |m'| && ByteAt(m', start, j) == w[j] {
      assert j == offset || j in bytes;
    }
  }

  // ---------- placement ----------

  /** Where the payload of a block starts and ends, as addresses. */
  function PayloadStart(base: nat, before: nat, p: nat): nat {
    base + 4 * (p + before)
  }

  function PayloadEnd(c: Client, base: nat, before: nat, p: nat): nat
    requires p in c.asked
  {
    PayloadStart(base, before, p) + c.asked[p]
  }

  /** The payload of `p` is 8-aligned, lies in the heap, and overlaps neither the payload of another
      live block nor the words that any block keeps for itself: `before` at its start, one at its end. */
  ghost predicate WellPlaced(c: Client, l: Layout, base: nat, before: nat, p: nat)
    requires p in c.asked
  {
    var lo, hi := PayloadStart(base, before, p), PayloadEnd(c, base, before, p);
    && lo % 8 == 0 && base <= lo < hi <= base + 4 * (l.end + 1)
    && (forall q <- c.asked :: q != p ==> PayloadEnd(c, base, before, q) <= lo || hi <= PayloadStart(base, before, q))
    && (forall x <- l.at :: MissesBlock(c, l, base, before, p, x))
  }

  lemma PayloadWellPlaced(c: Client, l: Layout, base: nat, before: nat, most: nat, p: nat)
    requires Tiles(l) && Owns(c, l, before, most) && base % 8 == 0 && (l.first + before) % 2 == 0 && p in c.asked
    ensures WellPlaced(c, l, base, before, p)
  {
    hide Tiles, Owns;
    OwnedInside(c, l, before, most, p);
    HeaderParity(l, p);
    Aligned(base, p + before, l.first + before);
    forall q <- c.asked ensures q != p ==>
        PayloadEnd(c, base, before, q) <= PayloadStart(base, before, p)
        || PayloadEnd(c, base, before, p) <= PayloadStart(base, before, q)
    {
      OwnedInside(c, l, before, most, q);
      BlocksApart(l, p, q);
    }
    forall x <- l.at ensures MissesBlock(c, l, base, before, p, x) {
      BlocksApart(l, p, x);
      BlockSize(l, x);
    }
  }

  /** The payload of `p` misses the words that block `x` keeps for itself. */
  ghost predicate MissesBlock(c: Client, l: Layout, base: nat, before: nat, p: nat, x: nat)
    requires p in c.asked && x in l.at
  {
    var lo, hi := PayloadStart(base, before, p), PayloadEnd(c, base, before, p);
    && (hi <= base + 4 * x || base + 4 * (x + before) <= lo)
    && (hi <= base + 4 * Succ(l, x) - 4 || base + 4 * Succ(l, x) <= lo)
  }

  lemma Aligned(base: nat, k: nat, j: nat)
    requires base % 8 == 0 && k % 2 == j % 2 == 0
    ensures (base + 4 * k) % 8 == 0
  {
    var b, h := base / 8, k / 2;
    assert base == 8 * b && k == 2 * h;
    assert base + 4 * k == 8 * (b + h);
  }

  lemma BlockSize(l: Layout, x: nat)
    requires Tiles(l) && x in l.at
    ensures x < Succ(l, x)
  {
    hide Chained, Apart;
  }

  lemma OwnedInside(c: Client, l: Layout, before: nat, most: nat, p: nat)
    requires Tiles(l) && Owns(c, l, before, most) && p in c.asked
    ensures p in l.at && 0 < c.asked[p] && 4 * (p + before) + c.asked[p] <= 4 * Succ(l, p) - 4
    ensures Succ(l, p) <= l.end
  {
    assert Sized(c, l, before, most, p);
  }

  lemma BlocksApart(l: Layout, p: nat, x: nat)
    requires Tiles(l) && p in l.at && x in l.at
    ensures x == p || Succ(l, x) <= p || Succ(l, p) <= x
  {
    hide Chained;
  }
}
