/** The buffered reader, against the plain stream of bytes it reads from. */
module BufferedReader {

  const BUFSIZE: nat := 8192

  /** What one call of read() does: bring some bytes, be interrupted by a signal, or fail. After the last
      event there is only the end of the file. */
  datatype Event = Chunk(bytes: seq<char>) | Interrupted | Failed

  /** The same without the accidents of delivery: bytes, and the places where reading fails. */
  datatype Item = Byte(c: char) | Failure

  ghost predicate Readable(script: seq<Event>) {
    forall i :: 0 <= i < |script| && script[i].Chunk? ==> 0 < |script[i].bytes| <= BUFSIZE
  }

  function Items(bytes: seq<char>): (s: seq<Item>)
    ensures |s| == |bytes| && forall i :: 0 <= i < |s| ==> s[i] == Byte(bytes[i])
  {
    seq(|bytes|, i requires 0 <= i < |bytes| => Byte(bytes[i]))
  }

  function Brings(e: Event): seq<Item> {
    match e
    case Chunk(bytes) => Items(bytes)
    case Interrupted => []
    case Failed => [Failure]
  }

  function Flat(script: seq<Event>): seq<Item> {
    if script == [] then [] else Brings(script[0]) + Flat(script[1..])
  }

  lemma {:induction false} FlatJoin(a: seq<Event>, b: seq<Event>)
    ensures Flat(a + b) == Flat(a) + Flat(b)
  {
    hide Brings;
    if a == [] {
      assert a + b == b;
    } else {
      FlatJoin(a[1..], b);
      assert (a + b)[1..] == a[1..] + b;
      Associative(Brings(a[0]), Flat(a[1..]), Flat(b));
    }
  }

  lemma Associative(x: seq<Item>, y: seq<Item>, z: seq<Item>)
    ensures (x + y) + z == x + (y + z)
  {
  }

  lemma FlatAround(a: seq<Event>, m: seq<Event>, b: seq<Event>)
    ensures Flat(a + m + b) == Flat(a) + Flat(m) + Flat(b)
  {
    FlatJoin(a + m, b);
    FlatJoin(a, m);
  }

  lemma FlatOne(e: Event)
    ensures Flat([e]) == Brings(e)
  {
    assert [e][1..] == [];
  }

  /** Splitting a chunk in two, or interrupting the reader, anywhere, makes no difference to the stream. */
  lemma DeliveryIsInvisible(a: seq<Event>, b: seq<Event>, x: seq<char>, y: seq<char>)
    ensures Flat(a + [Chunk(x), Chunk(y)] + b) == Flat(a + [Chunk(x + y)] + b)
    ensures Flat(a + [Interrupted] + b) == Flat(a + b)
  {
    hide Flat, Items;
    FlatAround(a, [Chunk(x), Chunk(y)], b);
    FlatAround(a, [Chunk(x + y)], b);
    FlatAround(a, [Interrupted], b);
    FlatJoin(a, b);
    FlatOne(Interrupted);
    ChunksJoin(x, y);
    assert Flat(a) + [] == Flat(a);
  }

  lemma ChunksJoin(x: seq<char>, y: seq<char>)
    ensures Flat([Chunk(x), Chunk(y)]) == Flat([Chunk(x + y)])
  {
    assert [Chunk(x), Chunk(y)] == [Chunk(x)] + [Chunk(y)];
    FlatJoin([Chunk(x)], [Chunk(y)]);
    FlatOne(Chunk(x));
    FlatOne(Chunk(y));
    FlatOne(Chunk(x + y));
    assert Items(x + y) == Items(x) + Items(y);
  }

  // ---------- what the calls return, as functions of the stream ----------

  function Size(call: Call): nat {
    match call
    case ReadN(n) => n
    case ReadLine(maxlen) => maxlen
  }

  /** How many bytes come before `n` is reached, the stream ends, or reading fails. */
  function Ahead(s: seq<Item>, n: nat): (k: nat)
    ensures k <= n && k <= |s|
  {
    if n == 0 || s == [] || s[0].Failure? then 0 else 1 + Ahead(s[1..], n - 1)
  }

  /** The same for a line of at most `n` bytes, which also ends after the first newline. */
  function LineEnd(s: seq<Item>, n: nat): (k: nat)
    ensures k <= n && k <= |s|
  {
    if n == 0 || s == [] || s[0].Failure? then 0
    else if s[0] == Byte('\n') then 1
    else 1 + LineEnd(s[1..], n - 1)
  }

  lemma {:induction false} AheadMeans(s: seq<Item>, n: nat, k: nat)
    requires k <= n && k <= |s|
    ensures k == Ahead(s, n) <==>
            && (forall i :: 0 <= i < k ==> s[i].Byte?)
            && (k == n || k == |s| || s[k].Failure?)
  {
    if n == 0 || s == [] {
    } else if k == 0 {
    } else {
      AheadMeans(s[1..], n - 1, k - 1);
      assert forall i :: 0 <= i < k - 1 ==> s[1..][i] == s[i + 1];
      assert (forall i :: 0 <= i < k ==> s[i].Byte?) <==>
             s[0].Byte? && forall i :: 0 <= i < k - 1 ==> s[1..][i].Byte? by {
        if s[0].Byte? && forall i :: 0 <= i < k - 1 ==> s[1..][i].Byte? {
          forall i | 0 <= i < k ensures s[i].Byte? {
            assert i > 0 ==> s[i] == s[1..][i - 1];
          }
        }
      }
    }
  }

  /** A line stops at its first newline, at `n` bytes, at the end of the stream or at a failure, whichever
      comes first. */
  lemma {:induction false} LineEndMeans(s: seq<Item>, n: nat)
    ensures var k := LineEnd(s, n);
            && (forall i :: 0 <= i < k ==> s[i].Byte?)
            && (forall i :: 0 <= i < k - 1 ==> s[i] != Byte('\n'))
            && (k == n || k == |s| || s[k].Failure? || (k > 0 && s[k - 1] == Byte('\n')))
  {
    if n == 0 || s == [] || s[0].Failure? || s[0] == Byte('\n') {
    } else {
      LineEndMeans(s[1..], n - 1);
      var k := LineEnd(s[1..], n - 1);
      forall i | 0 <= i < k + 1 ensures s[i].Byte? && (i < k ==> s[i] != Byte('\n')) {
        assert i > 0 ==> s[i] == s[1..][i - 1];
      }
    }
  }

  datatype Call = ReadN(n: nat) | ReadLine(maxlen: nat)

  datatype Result = Data(bytes: seq<char>) | Error

  function Chars(s: seq<Item>): (b: seq<char>)
    requires forall i :: 0 <= i < |s| ==> s[i].Byte?
    ensures |b| == |s| && forall i :: 0 <= i < |s| ==> s[i] == Byte(b[i])
  {
    seq(|s|, i requires 0 <= i < |s| => s[i].c)
  }

  function Room(maxlen: nat): nat {
    if maxlen == 0 then 0 else maxlen - 1
  }

  /** Whether the line that `k` bytes make is complete: nothing more would be read for it. */
  predicate Complete(s: seq<Item>, n: nat, k: nat)
    requires k <= |s|
  {
    k == n || k == |s| || (k > 0 && s[k - 1] == Byte('\n'))
  }

  /** The result of a call, and what is left of the stream; a failure is used up, and takes the bytes
      before it with it. */
  function Serve(s: seq<Item>, call: Call): (Result, seq<Item>) {
    match call
    case ReadN(n) =>
      var k := Ahead(s, n);
      AheadMeans(s, n, k);
      if k == n || k == |s| then (Data(Chars(s[..k])), s[k..]) else (Error, s[k + 1..])
    case ReadLine(maxlen) =>
      var n := Room(maxlen);
      var k := LineEnd(s, n);
      LineEndMeans(s, n);
      if Complete(s, n, k) then (Data(Chars(s[..k])), s[k..]) else (Error, s[k + 1..])
  }

  function ServeAll(s: seq<Item>, calls: seq<Call>): (seq<Result>, seq<Item>) {
    if calls == [] then ([], s)
    else
      var before := ServeAll(s, calls[..|calls| - 1]);
      var last := Serve(before.1, calls[|calls| - 1]);
      (before.0 + [last.0], last.1)
  }

  function Delivered(results: seq<Result>): seq<char> {
    if results == [] then []
    else Delivered(results[..|results| - 1]) +
         (match results[|results| - 1] case Data(bytes) => bytes case Error => [])
  }

  /** On a stream without failures no call fails, no byte is lost, doubled or reordered: what the calls
      have delivered, followed by what is left, is the stream. */
  lemma {:induction false} Conserved(s: seq<Item>, calls: seq<Call>)
    requires forall i :: 0 <= i < |s| ==> s[i].Byte?
    ensures var all := ServeAll(s, calls);
            && |all.0| == |calls| && Error !in all.0
            && Items(Delivered(all.0)) + all.1 == s
            && forall i :: 0 <= i < |all.1| ==> all.1[i].Byte?
  {
    hide Serve, Items, Delivered;
    if calls == [] {
      NothingDelivered();
    } else {
      var init, call := calls[..|calls| - 1], calls[|calls| - 1];
      Conserved(s, init);
      var all := ServeAll(s, init);
      ServeConserves(all.1, call);
      var one := Serve(all.1, call);
      DeliveredMore(all.0, one.0);
      Associative(Items(Delivered(all.0)), Items(one.0.bytes), one.1);
    }
  }

  lemma NothingDelivered()
    ensures Items(Delivered([])) == []
  {
  }

  lemma DeliveredMore(results: seq<Result>, r: Result)
    requires r.Data?
    ensures Items(Delivered(results + [r])) == Items(Delivered(results)) + Items(r.bytes)
  {
    assert (results + [r])[..|results|] == results;
  }

  lemma ServeConserves(s: seq<Item>, call: Call)
    requires forall i :: 0 <= i < |s| ==> s[i].Byte?
    ensures var one := Serve(s, call);
            && one.0.Data? && Items(one.0.bytes) + one.1 == s
            && forall i :: 0 <= i < |one.1| ==> one.1[i].Byte?
  {
    match call
    case ReadN(n) =>
      AheadMeans(s, n, Ahead(s, n));
    case ReadLine(maxlen) =>
      LineEndMeans(s, Room(maxlen));
  }

  /** The stream is `x`, then a place where reading fails, then `rest`. */
  ghost predicate FailsAfter(s: seq<Item>, x: seq<char>, rest: seq<Item>) {
    s == Items(x) + ([Failure] + rest)
  }

  /** A read of `n` bytes gives the next `n`, or all that are left, and fails exactly if a failure comes first. */
  lemma ReadMeans(s: seq<Item>, n: nat)
    ensures var (r, rest) := Serve(s, ReadN(n));
            match r
            case Data(x) => s == Items(x) + rest && (|x| == n || (|x| < n && rest == []))
            case Error => exists x: seq<char> :: |x| < n && FailsAfter(s, x, rest)
  {
    hide Serve, Ahead, Items;
    var k := Ahead(s, n);
    AheadMeans(s, n, k);
    if k < n && k < |s| {
      SplitFailure(s, k);
      FailedBytes(s, Chars(s[..k]), s[k + 1..], n);
      assert FailsAfter(s, Chars(s[..k]), s[k + 1..]);
    } else {
      SplitBytes(s, k);
      ServedBytes(s, Chars(s[..k]), s[k..], n);
    }
  }

  lemma SplitFailure(s: seq<Item>, k: nat)
    requires k < |s| && s[k].Failure? && forall i :: 0 <= i < k ==> s[i].Byte?
    ensures s == Items(Chars(s[..k])) + ([Failure] + s[k + 1..])
  {
    assert s[..k] == Items(Chars(s[..k]));
    assert s == s[..k] + [s[k]] + s[k + 1..];
  }

  /** A line read into `maxlen` bytes has at most one less, no newline but at its end, and stops short only at a
      newline or at the end; it fails exactly if a failure comes before all of these. */
  lemma LineMeans(s: seq<Item>, maxlen: nat)
    requires maxlen > 0
    ensures var (r, rest) := Serve(s, ReadLine(maxlen));
            match r
            case Data(x) =>
              && s == Items(x) + rest && OneLine(x) && |x| <= maxlen - 1
              && (|x| == maxlen - 1 || rest == [] || (x != [] && x[|x| - 1] == '\n'))
            case Error => exists x: seq<char> :: '\n' !in x && |x| < maxlen - 1 && FailsAfter(s, x, rest)
  {
    hide Serve, LineEnd, Items;
    var n := maxlen - 1;
    var k := LineEnd(s, n);
    LineEndMeans(s, n);
    var x := Chars(s[..k]);
    NoEarlyNewline(s, k, x);
    if Complete(s, n, k) {
      SplitBytes(s, k);
      ServedLine(s, x, s[k..], maxlen);
    } else {
      SplitFailure(s, k);
      LineFails(s, maxlen, k);
    }
  }

  lemma SplitBytes(s: seq<Item>, k: nat)
    requires k <= |s| && forall i :: 0 <= i < k ==> s[i].Byte?
    ensures s == Items(Chars(s[..k])) + s[k..]
  {
    assert s[..k] == Items(Chars(s[..k]));
    assert s == s[..k] + s[k..];
  }

  lemma LineFails(s: seq<Item>, maxlen: nat, k: nat)
    requires maxlen > 0 && k == LineEnd(s, maxlen - 1) && !Complete(s, maxlen - 1, k) && k < |s|
    ensures Serve(s, ReadLine(maxlen)) == (Error, s[k + 1..])
  {
  }

  lemma NoEarlyNewline(s: seq<Item>, k: nat, x: seq<char>)
    requires |x| == k <= |s| && (forall i :: 0 <= i < k ==> s[i] == Byte(x[i]))
    requires forall i :: 0 <= i < k - 1 ==> s[i] != Byte('\n')
    ensures OneLine(x) && (k == 0 || s[k - 1] != Byte('\n') ==> '\n' !in x)
  {
  }

  // ---------- how a call may come to its result ----------

  /** Bytes `x` have been read and the call stops: they are all it asked for, or the stream has ended. */
  lemma ServedBytes(s: seq<Item>, x: seq<char>, rest: seq<Item>, n: nat)
    requires s == Items(x) + rest && (|x| == n || (|x| < n && rest == []))
    ensures Serve(s, ReadN(n)) == (Data(x), rest)
  {
    AheadMeans(s, n, |x|);
    assert Chars(s[..|x|]) == x;
  }

  /** A failure after `x`. */
  lemma FailedBytes(s: seq<Item>, x: seq<char>, rest: seq<Item>, n: nat)
    requires s == Items(x) + ([Failure] + rest) && |x| < n
    ensures Serve(s, ReadN(n)) == (Error, rest)
  {
    AheadMeans(s, n, |x|);
    assert s[|x|] == Failure && s[|x| + 1..] == rest;
  }

  lemma {:induction false} LineEndIs(s: seq<Item>, n: nat, k: nat)
    requires k <= n && k <= |s|
    requires forall i :: 0 <= i < k ==> s[i].Byte? && (i < k - 1 ==> s[i] != Byte('\n'))
    requires k == n || k == |s| || s[k].Failure? || (k > 0 && s[k - 1] == Byte('\n'))
    ensures LineEnd(s, n) == k
  {
    if k > 1 || (k == 1 && s[0] != Byte('\n')) {
      LineEndIs(s[1..], n - 1, k - 1);
    }
  }

  ghost predicate OneLine(x: seq<char>) {
    forall i :: 0 <= i < |x| - 1 ==> x[i] != '\n'
  }

  lemma ServedLine(s: seq<Item>, x: seq<char>, rest: seq<Item>, maxlen: nat)
    requires s == Items(x) + rest && OneLine(x) && |x| <= Room(maxlen)
    requires |x| == Room(maxlen) || rest == [] || (x != [] && x[|x| - 1] == '\n')
    ensures Serve(s, ReadLine(maxlen)) == (Data(x), rest)
  {
    LineEndIs(s, Room(maxlen), |x|);
    assert Chars(s[..|x|]) == x;
  }

  /** The byte read last is the newline. */
  lemma ServedNewline(s: seq<Item>, x: seq<char>, rest: seq<Item>, maxlen: nat)
    requires s == Items(x + ['\n']) + rest && '\n' !in x && |x| < Room(maxlen)
    ensures Serve(s, ReadLine(maxlen)) == (Data(x + ['\n']), rest)
  {
    ServedLine(s, x + ['\n'], rest, maxlen);
  }

  /** There is no newline, but nothing more to read. */
  lemma ServedPlain(s: seq<Item>, x: seq<char>, rest: seq<Item>, maxlen: nat)
    requires s == Items(x) + rest && '\n' !in x && |x| <= Room(maxlen) && (|x| == Room(maxlen) || rest == [])
    ensures Serve(s, ReadLine(maxlen)) == (Data(x), rest)
  {
    ServedLine(s, x, rest, maxlen);
  }

  lemma FailedLine(s: seq<Item>, x: seq<char>, rest: seq<Item>, maxlen: nat)
    requires s == Items(x) + ([Failure] + rest) && '\n' !in x && |x| < Room(maxlen)
    ensures Serve(s, ReadLine(maxlen)) == (Error, rest)
  {
    assert s[|x|] == Failure && s[|x| + 1..] == rest;
    LineEndIs(s, Room(maxlen), |x|);
    assert !Complete(s, Room(maxlen), |x|);
  }

  lemma OneMore(s: seq<Item>, x: seq<char>, y: seq<char>, rest: seq<Item>, more: seq<Item>)
    requires s == Items(x) + rest && rest == Items(y) + more
    ensures s == Items(x + y) + more
  {
    assert Items(x + y) == Items(x) + Items(y);
  }

  lemma Longer(u: seq<char>, n: nat, r: nat)
    requires n + r <= |u|
    ensures u[..n + r] == u[..n] + u[n..n + r]
  {
  }

  // ---------- the reader ----------

  lemma ItemsSplit(b: seq<char>, ptr: nat, r: nat, cnt: nat)
    requires r <= cnt && ptr + cnt <= |b|
    ensures Items(b[ptr..ptr + cnt]) == Items(b[ptr..ptr + r]) + Items(b[ptr + r..ptr + cnt])
  {
  }

  lemma NoItems(b: seq<char>)
    ensures b == [] ==> Items(b) == []
  {
  }

  class Rio {
    const buf: array<char>
    var cnt: int
    var ptr: nat
    var script: seq<Event>

    ghost predicate Valid()
      reads this
    {
      buf.Length == BUFSIZE && ptr + cnt <= BUFSIZE && ptr <= BUFSIZE && Readable(script)
    }

    /** Everything still to come: what is in the buffer, then what read() will bring. */
    ghost function Stream(): seq<Item>
      requires Valid()
      reads this, buf
    {
      (if cnt > 0 then Items(buf[ptr..ptr + cnt]) else []) + Flat(script)
    }

    constructor (script: seq<Event>)
      requires Readable(script)
      ensures fresh(buf) && Valid() && Stream() == Flat(script)
    {
      buf := new char[BUFSIZE];
      this.script := script;
      cnt, ptr := 0, 0;
    }

    /** The system call: -1 with no bytes, 0 at the end of the file, or a number of bytes put into `buf`. */
    method SysRead() returns (r: int, interrupted: bool)
      requires Valid() && cnt <= 0
      modifies this`script, buf
      ensures Valid() && (r == 0 ==> Flat(old(script)) == [] == Flat(script))
      ensures r != 0 ==> |script| < |old(script)|
      ensures r > 0 ==> r <= BUFSIZE && Flat(old(script)) == Items(buf[..r]) + Flat(script)
      ensures r < 0 ==> Flat(old(script)) == (if interrupted then [] else [Failure]) + Flat(script)
    {
      if script == [] {
        return 0, false;
      }
      var e := script[0];
      script := script[1..];
      match e
      case Chunk(bytes) =>
        forall i | 0 <= i < |bytes| {
          buf[i] := bytes[i];
        }
        assert buf[..|bytes|] == bytes;
        return |bytes|, false;
      case Interrupted => return -1, true;
      case Failed => return -1, false;
    }

    method Move(usrbuf: array<char>, at: nat, r: nat)
      requires at + r <= usrbuf.Length && usrbuf != buf && ptr + r <= buf.Length
      modifies usrbuf
      ensures usrbuf[at..at + r] == buf[ptr..ptr + r]
      ensures forall i :: 0 <= i < usrbuf.Length && !(at <= i < at + r) ==> usrbuf[i] == old(usrbuf[i])
    {
      forall i | 0 <= i < r {
        usrbuf[at + i] := buf[ptr + i];
      }
      ghost var from, to := buf[ptr..ptr + r], usrbuf[at..at + r];
      assert forall i :: 0 <= i < r ==> to[i] == usrbuf[at + i] && from[i] == buf[ptr + i];
    }

    /** Bytes of the buffer, copied out. */
    method CopyOut(usrbuf: array<char>, at: nat, r: nat)
      requires Valid() && 0 < r <= cnt && at + r <= usrbuf.Length && usrbuf != buf
      modifies this`cnt, this`ptr, usrbuf
      ensures Valid() && old(Stream()) == Items(usrbuf[at..at + r]) + Stream()
      ensures forall i :: 0 <= i < usrbuf.Length && !(at <= i < at + r) ==> usrbuf[i] == old(usrbuf[i])
    {
      hide Flat, Items, Readable;
      StreamSplit(r);
      Move(usrbuf, at, r);
      Skip(r);
    }

    /** The next `r` bytes of the buffer have been dealt with. */
    method Skip(r: nat)
      requires Valid() && r <= cnt
      modifies this`cnt, this`ptr
      ensures Valid() && ptr == old(ptr) + r && cnt == old(cnt) - r
      ensures Stream() == old((if cnt - r > 0 then Items(buf[ptr + r..ptr + cnt]) else []) + Flat(script))
    {
      hide Flat, Items, Readable;
      ptr := ptr + r;
      cnt := cnt - r;
    }

    /** The first `r` bytes of the buffer, and the stream without them. */
    lemma StreamSplit(r: nat)
      requires Valid() && 0 < r <= cnt
      ensures Stream() == Items(buf[ptr..ptr + r]) +
                          ((if cnt - r > 0 then Items(buf[ptr + r..ptr + cnt]) else []) + Flat(script))
    {
      hide Flat, Items;
      var b := buf[..];
      assert b[ptr..ptr + cnt] == buf[ptr..ptr + cnt] && b[ptr..ptr + r] == buf[ptr..ptr + r];
      assert b[ptr + r..ptr + cnt] == buf[ptr + r..ptr + cnt];
      ItemsSplit(b, ptr, r, cnt);
      NoItems(b[ptr + r..ptr + cnt]);
      Associative(Items(b[ptr..ptr + r]), Items(b[ptr + r..ptr + cnt]), Flat(script));
    }

    /** Refills an empty buffer. */
    method Refill() returns (r: int)
      requires Valid()
      modifies this`cnt, this`ptr, this`script, buf
      ensures Valid() && (r > 0 <==> cnt > 0)
      ensures r > 0 ==> Stream() == old(Stream())
      ensures r == 0 ==> old(Stream()) == [] == Stream()
      ensures r < 0 ==> old(Stream()) == [Failure] + Stream()
    {
      hide Flat, Items;
      while cnt <= 0
        invariant Valid() && Stream() == old(Stream())
        decreases |script|, cnt <= 0
      {
        var interrupted;
        cnt, interrupted := SysRead();
        if cnt < 0 {
          if !interrupted {
            return -1;
          }
        } else if cnt == 0 {
          return 0;
        } else {
          ptr := 0;
        }
      }
      return 1;
    }

    /** At most `n` bytes to usrbuf[at..]: a positive number of them, 0 at the end, -1 on a failure. */
    method RioRead(usrbuf: array<char>, at: nat, n: nat) returns (r: int)
      requires Valid() && 0 < n && at + n <= usrbuf.Length && usrbuf != buf
      modifies this`cnt, this`ptr, this`script, buf, usrbuf
      ensures Valid() && -1 <= r <= n
      ensures r > 0 ==> old(Stream()) == Items(usrbuf[at..at + r]) + Stream()
      ensures forall i :: 0 <= i < usrbuf.Length && !(at <= i < at + n) ==> usrbuf[i] == old(usrbuf[i])
      ensures r == 0 ==> old(Stream()) == [] == Stream()
      ensures r < 0 ==> old(Stream()) == [Failure] + Stream()
    {
      hide Flat, Items, Stream;
      var state := Refill();
      if state < 0 {
        return -1;
      } else if state == 0 {
        return 0;
      }
      r := n;
      if cnt < n {
        r := cnt;
      }
      CopyOut(usrbuf, at, r);
    }
  
    method Readnb(usrbuf: array<char>, n: nat) returns (r: int)
      requires Valid() && n <= usrbuf.Length && usrbuf != buf
      modifies this`cnt, this`ptr, this`script, buf, usrbuf
      ensures Valid() && -1 <= r <= n
      ensures Serve(old(Stream()), ReadN(n)) == (if r < 0 then Error else Data(usrbuf[..r]), Stream())
      ensures forall i :: n <= i < usrbuf.Length ==> usrbuf[i] == old(usrbuf[i])
    {
      hide Flat, Items, Serve, Stream;
      var left := n;
      NoItems([]);
      assert usrbuf[..0] == [];
      while left > 0
        invariant Valid() && 0 <= left <= n && old(Stream()) == Items(usrbuf[..n - left]) + Stream()
        invariant forall i :: n <= i < usrbuf.Length ==> usrbuf[i] == old(usrbuf[i])
      {
        ghost var done, x, before := n - left, usrbuf[..n - left], Stream();
        r := RioRead(usrbuf, n - left, left);
        assert usrbuf[..done] == x;
        if r < 0 {
          FailedBytes(old(Stream()), x, Stream(), n);
          return -1;
        } else if r == 0 {
          ServedBytes(old(Stream()), x, Stream(), n);
          break;
        }
        Longer(usrbuf[..], done, r);
        OneMore(old(Stream()), x, usrbuf[done..done + r], before, Stream());
        left := left - r;
      }
      if left == 0 {
        ServedBytes(old(Stream()), usrbuf[..n], Stream(), n);
      }
      return n - left;
    }

    /** The line ends up in `usrbuf` with a NUL after it, except at the end of the file. */
    method Readlineb(usrbuf: array<char>, maxlen: nat) returns (r: int)
      requires Valid() && maxlen <= usrbuf.Length && 0 < usrbuf.Length && usrbuf != buf
      modifies this`cnt, this`ptr, this`script, buf, usrbuf
      ensures Valid() && -1 <= r <= Room(maxlen)
      ensures Serve(old(Stream()), ReadLine(maxlen)) == (if r < 0 then Error else Data(usrbuf[..r]), Stream())
      ensures r > 0 ==> usrbuf[r] == '\0'
      ensures forall i :: Room(maxlen) < i < usrbuf.Length ==> usrbuf[i] == old(usrbuf[i])
    {
      hide Flat, Items, Serve, Stream, OneLine;
      var n := 1;
      var cell := new char[1];
      NoItems([]);
      assert usrbuf[..0] == [];
      while n < maxlen
        invariant Valid() && 1 <= n && (n <= maxlen || n == 1) && fresh(cell)
        invariant old(Stream()) == Items(usrbuf[..n - 1]) + Stream() && '\n' !in usrbuf[..n - 1]
        invariant forall i :: Room(maxlen) < i < usrbuf.Length ==> usrbuf[i] == old(usrbuf[i])
      {
        ghost var x, before := usrbuf[..n - 1], Stream();
        var rc := RioRead(cell, 0, 1);
        if rc == 1 {
          var c := cell[0];
          usrbuf[n - 1] := c;
          assert usrbuf[..n] == x + [c] && cell[0..1] == [c];
          OneMore(old(Stream()), x, [c], before, Stream());
          if c == '\n' {
            ServedNewline(old(Stream()), x, Stream(), maxlen);
            n := n + 1;
            break;
          }
        } else if rc == 0 {
          ServedPlain(old(Stream()), x, Stream(), maxlen);
          if n == 1 {
            return 0;
          } else {
            break;
          }
        } else {
          FailedLine(old(Stream()), x, Stream(), maxlen);
          return -1;
        }
        n := n + 1;
      }
      if n >= maxlen && '\n' !in usrbuf[..n - 1] {
        ServedPlain(old(Stream()), usrbuf[..n - 1], Stream(), maxlen);
      }
      ghost var line := usrbuf[..n - 1];
      usrbuf[n - 1] := '\0';
      assert usrbuf[..n - 1] == line;
      return n - 1;
    }
  
    /** Any calls, one after another, into one user buffer: the results are those that the stream alone
        determines. */
    method Session(calls: seq<Call>, usrbuf: array<char>) returns (results: seq<Result>)
      requires Valid() && usrbuf != buf && 0 < usrbuf.Length
      requires forall i :: 0 <= i < |calls| ==> Size(calls[i]) <= usrbuf.Length
      modifies this`cnt, this`ptr, this`script, buf, usrbuf
      ensures Valid() && (results, Stream()) == ServeAll(old(Stream()), calls)
    {
      hide Serve, Stream;
      results := [];
      var i := 0;
      while i < |calls|
        invariant Valid() && i <= |calls| && (results, Stream()) == ServeAll(old(Stream()), calls[..i])
      {
        assert calls[..i + 1][..i] == calls[..i];
        assert Size(calls[i]) <= usrbuf.Length;
        var r;
        match calls[i] {
          case ReadN(n) => r := Readnb(usrbuf, n);
          case ReadLine(maxlen) => r := Readlineb(usrbuf, maxlen);
        }
        results := results + [if r < 0 then Error else Data(usrbuf[..r])];
        i := i + 1;
      }
      assert calls[..i] == calls;
    }
  }
}
