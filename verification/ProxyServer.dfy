/** The store in memory: lines with their buffers, and one request served on them. */
module ProxyServer {
  import opened Basics
  import BufferedReader
  import opened Recency
  import opened RankedLines
  import opened ProxyStore

  const ULONG_MAX: nat := 0xFFFF_FFFF_FFFF_FFFF

  /** What comes of connecting to the server: what read() will do on the connection, or the page that
      clienterror writes to the client. */
  datatype Server = Connected(script: seq<BufferedReader.Event>) | Refused(page: seq<char>)

  /** A request as it arrives: its hash, the server it is passed on to if need be, and whether both calls of
      Close succeed after a hit, when nothing has been assigned to the first descriptor. */
  datatype Arrival = Arrival(hash: int, server: Server, closes: bool)

  /** Rio_readnb ends the process when reading fails, so a response that is served comes without failures. */
  ghost predicate Deliverable(a: Arrival) {
    a.server.Connected? ==>
      BufferedReader.Readable(a.server.script) && BufferedReader.Failed !in a.server.script
  }

  ghost predicate AllDeliverable(arrivals: seq<Arrival>) {
    forall i :: 0 <= i < |arrivals| ==> Deliverable(arrivals[i])
  }

  lemma {:induction false} AllBytes(script: seq<BufferedReader.Event>)
    requires BufferedReader.Failed !in script
    ensures forall i :: 0 <= i < |BufferedReader.Flat(script)| ==> BufferedReader.Flat(script)[i].Byte?
  {
    if script != [] {
      AllBytes(script[1..]);
    }
  }

  /** The body that the server sends, however it is delivered. */
  ghost function Body(a: Arrival): seq<char>
    requires Deliverable(a)
  {
    if a.server.Refused? then []
    else
      AllBytes(a.server.script);
      BufferedReader.Chars(BufferedReader.Flat(a.server.script))
  }

  /** It is everything that the connection brings. */
  lemma BodyMeans(a: Arrival)
    requires Deliverable(a) && a.server.Connected?
    ensures BufferedReader.Items(Body(a)) == BufferedReader.Flat(a.server.script)
  {
    AllBytes(a.server.script);
  }

  ghost function Asked(a: Arrival): Request
    requires Deliverable(a)
  {
    Request(a.hash, Body(a))
  }

  /** What is sent to the client. */
  ghost function Reply(s: Store, a: Arrival): seq<char>
    requires Deliverable(a)
  {
    if a.hash !in s.objects && a.server.Refused? then a.server.page else Serve(s, Asked(a)).1
  }

  /** The process ends with this request: Close is given a descriptor that is not open. */
  predicate Ends(s: Store, a: Arrival) {
    if a.hash in s.objects then !a.closes else a.server.Refused?
  }

  /** What one call of Rio_readnb for MAXLINE bytes takes from a stream of bytes. */
  lemma NextChunk(s: seq<BufferedReader.Item>, rest: seq<BufferedReader.Item>, r: BufferedReader.Result)
    requires forall i :: 0 <= i < |s| ==> s[i].Byte?
    requires BufferedReader.Serve(s, BufferedReader.ReadN(MAXLINE)) == (r, rest)
    ensures r.Data? && s == BufferedReader.Items(r.bytes) + rest && forall i :: 0 <= i < |rest| ==> rest[i].Byte?
    ensures |r.bytes| <= MAXLINE && (|r.bytes| < MAXLINE ==> rest == []) && (r.bytes == [] ==> s == [])
  {
    BufferedReader.AheadMeans(s, MAXLINE, BufferedReader.Ahead(s, MAXLINE));
  }

  /** Between two calls: `chunks` have been dealt with, `x` has just been read, and `rest` is to come. */
  ghost predicate Reading(body: seq<char>, chunks: seq<seq<char>>, x: seq<char>, rest: seq<BufferedReader.Item>) {
    && BufferedReader.Items(body) == BufferedReader.Items(Whole(chunks)) + (BufferedReader.Items(x) + rest)
    && (forall i :: 0 <= i < |rest| ==> rest[i].Byte?)
    && |x| <= MAXLINE && (|x| < MAXLINE ==> rest == [])
    && Received(chunks) && (x != [] ==> forall i :: 0 <= i < |chunks| ==> |chunks[i]| == MAXLINE)
  }

  lemma FirstRead(body: seq<char>, before: seq<BufferedReader.Item>, rest: seq<BufferedReader.Item>,
                  r: BufferedReader.Result)
    requires before == BufferedReader.Items(body)
    requires BufferedReader.Serve(before, BufferedReader.ReadN(MAXLINE)) == (r, rest)
    ensures r.Data? && Reading(body, [], r.bytes, rest)
  {
    hide BufferedReader.Serve;
    NextChunk(before, rest, r);
    assert BufferedReader.Items(Whole([])) == [];
  }

  lemma OneChunkMore(chunks: seq<seq<char>>, x: seq<char>)
    ensures Whole(chunks + [x]) == Whole(chunks) + x
    ensures var k := Kept(chunks);
            Kept(chunks + [x]) == if |k| + |x| < MAX_OBJECT_SIZE then k + x else k
  {
    assert (chunks + [x])[..|chunks|] == chunks;
  }

  /** One chunk has been dealt with, and the next read. */
  lemma NextRead(body: seq<char>, chunks: seq<seq<char>>, x: seq<char>, before: seq<BufferedReader.Item>,
                 rest: seq<BufferedReader.Item>, r: BufferedReader.Result)
    requires chunks != [] && chunks[|chunks| - 1] == x != [] && Reading(body, chunks[..|chunks| - 1], x, before)
    requires BufferedReader.Serve(before, BufferedReader.ReadN(MAXLINE)) == (r, rest)
    ensures r.Data? && Reading(body, chunks, r.bytes, rest) && |r.bytes| + |rest| == |before|
  {
    hide BufferedReader.Serve, BufferedReader.Items;
    NextChunk(before, rest, r);
    ItemsJoin(Whole(chunks[..|chunks| - 1]), x);
    BufferedReader.Associative(BufferedReader.Items(Whole(chunks[..|chunks| - 1])), BufferedReader.Items(x), before);
  }

  lemma ItemsJoin(x: seq<char>, y: seq<char>)
    ensures BufferedReader.Items(x + y) == BufferedReader.Items(x) + BufferedReader.Items(y)
  {
  }

  /** Nothing more has been read: the chunks are those of the body. */
  lemma LastRead(body: seq<char>, chunks: seq<seq<char>>, rest: seq<BufferedReader.Item>)
    requires Reading(body, chunks, [], rest)
    ensures Whole(chunks) == body && Cut(body) == chunks
  {
    var w := Whole(chunks);
    assert BufferedReader.Items(body) == BufferedReader.Items(w);
    assert forall i :: 0 <= i < |w| ==> BufferedReader.Items(w)[i].c == w[i];
    assert forall i :: 0 <= i < |body| ==> BufferedReader.Items(body)[i].c == body[i];
    CutUnique(chunks);
  }

  class CacheLine {
    const content: array<char>
    var length: nat
    var timestamp: int
    var hash: int
    var validBit: bool

    constructor ()
      ensures fresh(content) && content.Length == MAX_OBJECT_SIZE && !validBit && length == 0
    {
      content := new char[MAX_OBJECT_SIZE];
      length, timestamp, hash, validBit := 0, 0, 0, false;
    }
  }

  /** The tags and texts of the lines are those of the store: line `order[k]` holds the object that was
      used `k`th last. */
  ghost predicate Holds(v: seq<Content>, texts: seq<seq<char>>, order: seq<nat>, now: nat, s: Store) {
    && |v| == |texts| == CACHE_LINE_NUM && Ranked(v, order, now) && s.recent == Tags(v, order)
    && (forall h :: h in s.objects <==> h in s.recent)
    && forall i :: 0 <= i < |order| ==> v[i].tag in s.objects && s.objects[v[i].tag] == texts[i]
  }

  lemma HoldsProper(v: seq<Content>, texts: seq<seq<char>>, order: seq<nat>, now: nat, s: Store)
    requires Holds(v, texts, order, now, s)
    ensures Proper(s)
  {
  }

  /** A hit: a line gets the current time. */
  lemma HitHolds(v: seq<Content>, texts: seq<seq<char>>, order: seq<nat>, now: nat, s: Store, line: nat, r: Request)
    returns (o: seq<nat>)
    requires Holds(v, texts, order, now, s) && line < |v| && v[line].valid && v[line].tag == r.hash
    ensures r.hash in s.objects && s.objects[r.hash] == texts[line]
    ensures Holds(v[line := Content(true, r.hash, now + 1)], texts, o, now + 1, Serve(s, r).0)
  {
    hide Lru, Place, Tags, Ranked;
    o := Hit(v, order, now, line, CACHE_LINE_NUM);
    HoldsProper(v, texts, order, now, s);
    LruMembers(CACHE_LINE_NUM, s.recent, r.hash);
    HeldLine(v, texts, order, now, s, line);
    TagsLength(v, order, now);
  }

  lemma HeldLine(v: seq<Content>, texts: seq<seq<char>>, order: seq<nat>, now: nat, s: Store, line: nat)
    requires Holds(v, texts, order, now, s) && line < |v| && v[line].valid
    ensures v[line].tag in s.objects && s.objects[v[line].tag] == texts[line] && v[line].tag in s.recent
  {
  }

  /** No line has this hash, so neither has the store. */
  lemma Missing(v: seq<Content>, texts: seq<seq<char>>, order: seq<nat>, now: nat, s: Store, hash: int)
    requires Holds(v, texts, order, now, s) && Unhit(v, hash, |v|)
    ensures hash !in s.objects
  {
    MissTags(v, order, now, hash);
    assert Tags(v, order)[..|order|] == Tags(v, order);
  }

  /** A miss that fills an empty line. */
  lemma FillHolds(v: seq<Content>, texts: seq<seq<char>>, order: seq<nat>, now: nat, s: Store, line: nat, r: Request)
    requires Holds(v, texts, order, now, s) && line < |v| && Unhit(v, r.hash, |v|) && !v[line].valid && Full(v, line)
    ensures Holds(v[line := Content(true, r.hash, now + 1)], texts[line := Stored(r.body)], [line] + order, now + 1,
                  Serve(s, r).0)
  {
    hide Place, Ranked, Tags, Stored;
    Fill(v, order, now, line, r.hash);
    Missing(v, texts, order, now, s, r.hash);
    OtherLines(v, order, now, r.hash);
  }

  lemma OtherLines(v: seq<Content>, order: seq<nat>, now: nat, hash: int)
    requires Ranked(v, order, now) && Unhit(v, hash, |v|)
    ensures |order| == |Tags(v, order)| <= |v|
    ensures forall i :: 0 <= i < |order| ==> v[i].tag != hash && v[i].tag in Tags(v, order)
  {
    forall i | 0 <= i < |order| ensures v[i].tag != hash && v[i].tag in Tags(v, order) {
      assert i in order;
      var k :| 0 <= k < |order| && order[k] == i;
      assert Tags(v, order)[k] == v[i].tag;
    }
  }

  /** A miss on a full store: the object that has not been used for longest goes. */
  lemma ReplaceHolds(v: seq<Content>, texts: seq<seq<char>>, order: seq<nat>, now: nat, s: Store, r: Request)
    returns (o: seq<nat>)
    requires Holds(v, texts, order, now, s) && Unhit(v, r.hash, |v|) && Full(v, |v|)
    ensures |order| == |v| && order[|v| - 1] < |v|
    ensures var line := order[|v| - 1];
            Holds(v[line := Content(true, r.hash, now + 1)], texts[line := Stored(r.body)], o, now + 1, Serve(s, r).0)
  {
    hide Place, Ranked, Tags, Stored, Unhit, Full;
    o := Replaced(v, order, now, r.hash);
    Missing(v, texts, order, now, s, r.hash);
    OtherLines(v, order, now, r.hash);
    FullOrder(v, o, order, now, r.hash);
    Survivors(v, order, now, r.hash);
  }

  lemma FullOrder(v: seq<Content>, o: seq<nat>, order: seq<nat>, now: nat, hash: int)
    requires |order| == |v| > 0 && order[|v| - 1] < |v|
    requires Ranked(v[order[|v| - 1] := Content(true, hash, now + 1)], o, now + 1) && Full(v, |v|)
    ensures |o| == |v|
  {
    var w := v[order[|v| - 1] := Content(true, hash, now + 1)];
    FilledLines(w, o, now + 1, |w|);
  }

  /** All lines but the oldest are in the list that is left. */
  lemma Survivors(v: seq<Content>, order: seq<nat>, now: nat, hash: int)
    requires Ranked(v, order, now) && |order| == |v| > 0 && Unhit(v, hash, |v|) && Full(v, |v|)
    ensures var u, n := Tags(v, order), |v| - 1;
            && Lru(|v|, u, hash) == [hash] + u[..n]
            && forall i :: 0 <= i < |v| && i != order[n] ==> v[i].tag in u[..n]
  {
    var u, n := Tags(v, order), |v| - 1;
    MissTags(v, order, now, hash);
    forall i | 0 <= i < |v| && i != order[n] ensures v[i].tag in u[..n] {
      var k := FindRank(v, order, now, i);
      assert u[..n][k] == v[i].tag;
    }
  }

  class Proxy {
    const lines: array<CacheLine>
    ghost const objects: set<CacheLine>
    ghost const buffers: set<array<char>>
    var currTime: nat
    ghost var slots: seq<Content>
    ghost var texts: seq<seq<char>>
    ghost var order: seq<nat>
    ghost var store: Store

    /** Lines and their buffers are all different, and `slots` and `texts` are what they hold. */
    ghost predicate Mirrored()
      reads this, lines, objects, buffers
    {
      && lines.Length == |slots| == |texts| == CACHE_LINE_NUM
      && (forall i :: 0 <= i < lines.Length ==>
            lines[i] in objects && lines[i].content in buffers && lines[i].content.Length == MAX_OBJECT_SIZE)
      && (forall i, j :: 0 <= i < j < lines.Length ==> lines[i] != lines[j] && lines[i].content != lines[j].content)
      && (forall i :: 0 <= i < lines.Length ==> Shows(lines[i], slots[i], texts[i]))
    }

    static ghost predicate Shows(line: CacheLine, slot: Content, text: seq<char>)
      reads line, line.content
    {
      && slot == Content(line.validBit, line.hash, line.timestamp)
      && line.length < MAX_OBJECT_SIZE == line.content.Length && text == line.content[..line.length]
    }

    ghost predicate Valid()
      reads this, lines, objects, buffers
    {
      Mirrored() && Holds(slots, texts, order, currTime, store)
    }

    /** Searches for a hash; a line that has it is stamped with the current time. */
    method CheckCache(target: int, ghost now: nat, ghost r: Request) returns (idx: int)
      requires Mirrored() && currTime == now + 1 && Holds(slots, texts, order, now, store) && r.hash == target
      modifies `slots, `order, `store, objects
      ensures Mirrored() && texts == old(texts)
      ensures idx >= 0 <==> target in old(store).objects
      ensures idx >= 0 ==> idx < CACHE_LINE_NUM && texts[idx] == old(store).objects[target]
      ensures idx >= 0 ==> store == Serve(old(store), r).0 && Holds(slots, texts, order, now + 1, store)
      ensures idx < 0 ==> store == old(store) && Holds(slots, texts, order, now, store)
      ensures idx < 0 ==> Unhit(slots, target, CACHE_LINE_NUM)
    {
      hide Holds, Serve;
      var i := 0;
      while i < CACHE_LINE_NUM
        invariant i <= CACHE_LINE_NUM && Mirrored() && texts == old(texts) && slots == old(slots)
        invariant store == old(store) && order == old(order) && Unhit(slots, target, i)
      {
        var p := lines[i];
        if p.validBit && p.hash == target {
          ghost var o := HitHolds(slots, texts, order, now, store, i, r);
          p.timestamp := currTime;
          slots := slots[i := slots[i].(time := currTime)];
          order, store := o, Serve(store, r).0;
          return i;
        }
        i := i + 1;
      }
      SlotsCount(now);
      Missing(slots, texts, order, now, store, target);
      return -1;
    }

    lemma SlotsCount(now: nat)
      requires Mirrored()
      ensures |slots| == CACHE_LINE_NUM
    {
    }

    /** The line to write to: an empty one, or else the one with the least timestamp. */
    method GetWriteIdx(ghost now: nat) returns (idx: nat)
      requires Mirrored() && Holds(slots, texts, order, now, store) && now < ULONG_MAX
      ensures idx < CACHE_LINE_NUM
      ensures !slots[idx].valid ==> Full(slots, idx)
      ensures slots[idx].valid ==>
                Full(slots, CACHE_LINE_NUM) && |order| == CACHE_LINE_NUM && idx == order[CACHE_LINE_NUM - 1]
    {
      hide Ranked, Tags;
      idx := *;
      var i, lruTime: int := 0, ULONG_MAX;
      ghost var oldest := 0;
      if Full(slots, CACHE_LINE_NUM) {
        OldestLast(slots, order, now);
        oldest := order[CACHE_LINE_NUM - 1];
      }
      while i < CACHE_LINE_NUM
        invariant i <= CACHE_LINE_NUM && Full(slots, i)
        invariant Full(slots, CACHE_LINE_NUM) ==>
                    && (oldest < i ==> idx == oldest && lruTime == slots[oldest].time)
                    && (i <= oldest ==> slots[oldest].time < lruTime)
      {
        var p := lines[i];
        if !p.validBit {
          return i;
        } else if p.timestamp < lruTime {
          lruTime := p.timestamp;
          idx := i;
        }
        i := i + 1;
      }
    }

    static method CopyText(content: array<char>, buf: array<char>, total: nat)
      requires total <= content.Length && total <= buf.Length && content != buf
      modifies content
      ensures content[..total] == buf[..total]
    {
      forall j | 0 <= j < total {
        content[j] := buf[j];
      }
    }

    /** Writes a response into a line. */
    method WriteLine(idx: nat, buf: array<char>, total: nat, hash: int)
      requires Mirrored() && idx < CACHE_LINE_NUM && total < MAX_OBJECT_SIZE == buf.Length && buf !in buffers
      modifies `slots, `texts, objects, buffers
      ensures Mirrored() && slots == old(slots)[idx := Content(true, hash, currTime)]
      ensures texts == old(texts)[idx := old(buf[..total])]
    {
      var p := lines[idx];
      CopyText(p.content, buf, total);
      p.length := total;
      p.timestamp := currTime;
      p.hash := hash;
      p.validBit := true;
      slots := slots[idx := Content(true, hash, currTime)];
      texts := texts[idx := old(buf[..total])];
    }

    /** Reads a response chunk by chunk: every chunk is sent on, and kept if it fits. */
    method Receive(server: BufferedReader.Rio, cacheBuf: array<char>, ghost body: seq<char>)
      returns (total: nat, sent: seq<char>)
      requires server.Valid() && server.Stream() == BufferedReader.Items(body)
      requires cacheBuf.Length == MAX_OBJECT_SIZE && cacheBuf != server.buf
      modifies server, server.buf, cacheBuf
      ensures total < MAX_OBJECT_SIZE && cacheBuf[..total] == Stored(body) && sent == body
    {
      hide BufferedReader.Serve, BufferedReader.Items, server.Stream, Cut;
      var buf := new char[MAXLINE];
      total, sent := 0, [];
      ghost var chunks: seq<seq<char>> := [];
      ghost var before := server.Stream();
      var readNum := server.Readnb(buf, MAXLINE);
      FirstRead(body, before, server.Stream(),
                if readNum < 0 then BufferedReader.Error else BufferedReader.Data(buf[..readNum]));
      while readNum > 0
        invariant server.Valid() && 0 <= readNum <= MAXLINE && total < MAX_OBJECT_SIZE
        invariant Reading(body, chunks, buf[..readNum], server.Stream())
        invariant sent == Whole(chunks) && cacheBuf[..total] == Kept(chunks)
        decreases |server.Stream()| + readNum
      {
        ghost var x := buf[..readNum];
        sent := sent + buf[..readNum];
        if total + readNum < MAX_OBJECT_SIZE {
          Append(cacheBuf, total, buf, readNum);
          total := total + readNum;
        }
        OneChunkMore(chunks, x);
        chunks := chunks + [x];
        before := server.Stream();
        readNum := server.Readnb(buf, MAXLINE);
        NextRead(body, chunks, x, before, server.Stream(),
                 if readNum < 0 then BufferedReader.Error else BufferedReader.Data(buf[..readNum]));
      }
      LastRead(body, chunks, server.Stream());
    }

    method Append(cacheBuf: array<char>, total: nat, buf: array<char>, n: nat)
      requires total + n <= cacheBuf.Length && n <= buf.Length && cacheBuf != buf
      modifies cacheBuf
      ensures cacheBuf[..total + n] == old(cacheBuf[..total]) + buf[..n]
    {
      forall j | 0 <= j < n {
        cacheBuf[total + j] := buf[j];
      }
    }

    /** Stores a response that is not in the store yet. */
    method Keep(cacheBuf: array<char>, total: nat, hash: int, ghost now: nat, ghost r: Request)
      requires Mirrored() && currTime == now + 1 && Holds(slots, texts, order, now, store) && now < ULONG_MAX
      requires hash == r.hash && Unhit(slots, hash, CACHE_LINE_NUM)
      requires total < MAX_OBJECT_SIZE == cacheBuf.Length && cacheBuf !in buffers && cacheBuf[..total] == Stored(r.body)
      modifies `slots, `texts, `order, `store, objects, buffers
      ensures Valid() && store == Serve(old(store), r).0
    {
      hide Holds, Serve, Stored;
      SlotsCount(now);
      var writeIdx := GetWriteIdx(now);
      ghost var o := order;
      if slots[writeIdx].valid {
        o := ReplaceHolds(slots, texts, order, now, store, r);
      } else {
        FillHolds(slots, texts, order, now, store, writeIdx, r);
        o := [writeIdx] + order;
      }
      WriteLine(writeIdx, cacheBuf, total, hash);
      order, store := o, Serve(store, r).0;
    }

    /** Accepts and serves one request; `open` says whether the process goes on. */
    method ServeRequest(a: Arrival) returns (reply: seq<char>, open: bool)
      requires Valid() && currTime < ULONG_MAX && Deliverable(a)
      modifies this, objects, buffers
      ensures Valid() && store == Serve(old(store), Asked(a)).0 && currTime == old(currTime) + 1
      ensures reply == Reply(old(store), a) && open == !Ends(old(store), a)
    {
      hide Holds, Stored, Body;
      ghost var now, r := currTime, Asked(a);
      currTime := currTime + 1;
      var matched := CheckCache(a.hash, now, r);
      if matched >= 0 {
        reply := lines[matched].content[..lines[matched].length];
        open := a.closes;
      } else {
        var cacheBuf := new char[MAX_OBJECT_SIZE];
        var total;
        total, reply, open := Fetch(a, cacheBuf);
        if total < MAX_OBJECT_SIZE {
          Keep(cacheBuf, total, a.hash, now, r);
        }
      }
    }

    /** The response to a request that is not in the store, and whether there is a connection. */
    method Fetch(a: Arrival, cacheBuf: array<char>) returns (total: nat, reply: seq<char>, connected: bool)
      requires Deliverable(a) && cacheBuf.Length == MAX_OBJECT_SIZE
      modifies cacheBuf
      ensures total < MAX_OBJECT_SIZE && cacheBuf[..total] == Stored(Body(a)) && connected == a.server.Connected?
      ensures reply == if connected then Body(a) else a.server.page
    {
      total := 0;
      match a.server
      case Refused(page) =>
        assert Cut([]) == [];
        reply, connected := page, false;
      case Connected(script) =>
        var server := new BufferedReader.Rio(script);
        BodyMeans(a);
        total, reply := Receive(server, cacheBuf, Body(a));
        connected := true;
    }

    /** All lines empty. */
    constructor ()
      ensures Valid() && fresh(lines) && fresh(objects) && fresh(buffers) && store == Run([]) && currTime == 0
    {
      var unset := new CacheLine();
      var made := new CacheLine[CACHE_LINE_NUM](_ => unset);
      ghost var objs: set<CacheLine>, bufs: set<array<char>> := {}, {};
      var i := 0;
      while i < CACHE_LINE_NUM
        invariant i <= CACHE_LINE_NUM && fresh(objs) && fresh(bufs)
        invariant forall k :: 0 <= k < i ==>
                    && made[k] in objs && made[k].content in bufs && made[k].content.Length == MAX_OBJECT_SIZE
                    && !made[k].validBit && made[k].length == 0
        invariant forall j, k :: 0 <= j < k < i ==> made[j] != made[k] && made[j].content != made[k].content
      {
        var line := new CacheLine();
        made[i] := line;
        objs := objs + {line};
        bufs := bufs + {line.content};
        i := i + 1;
      }
      lines, objects, buffers := made, objs, bufs;
      currTime := 0;
      slots := seq(CACHE_LINE_NUM, k requires 0 <= k < made.Length && made[k] in objs reads made, objs =>
        Content(made[k].validBit, made[k].hash, made[k].timestamp));
      texts := seq(CACHE_LINE_NUM, _ => []);
      order := [];
      store := Store([], map[]);
      new;
      NothingHeld(slots, texts);
    }

    /** Serves requests one after another, up to the first that ends the process. */
    method ServeAll(arrivals: seq<Arrival>) returns (replies: seq<seq<char>>, open: bool)
      requires Valid() && store == Run([]) && currTime == 0 && |arrivals| <= ULONG_MAX
      requires AllDeliverable(arrivals)
      modifies this, objects, buffers
      ensures Valid() && |replies| <= |arrivals| && store == Run(Requests(arrivals[..|replies|]))
      ensures forall i :: 0 <= i < |replies| ==> replies[i] == ReplyAt(arrivals, i)
      ensures open ==> |replies| == |arrivals| && forall i :: 0 <= i < |arrivals| ==> !EndsAt(arrivals, i)
      ensures !open ==> replies != [] && EndsAt(arrivals, |replies| - 1)
                        && forall i :: 0 <= i < |replies| - 1 ==> !EndsAt(arrivals, i)
    {
      hide Holds, Serve, Asked, Ends, Reply, Deliverable, Body, Run, Requests;
      NoRequests(arrivals);
      replies, open := [], true;
      var i := 0;
      while i < |arrivals| && open
        invariant i <= |arrivals| && Valid() && store == Run(Requests(arrivals[..i])) && currTime == i == |replies|
        invariant forall k :: 0 <= k < i ==> replies[k] == ReplyAt(arrivals, k)
        invariant forall k :: 0 <= k < i - 1 ==> !EndsAt(arrivals, k)
        invariant if open then i > 0 ==> !EndsAt(arrivals, i - 1) else i > 0 && EndsAt(arrivals, i - 1)
      {
        MoreRequests(arrivals, i);
        var reply;
        reply, open := ServeRequest(arrivals[i]);
        replies := replies + [reply];
        i := i + 1;
      }
    }
  }

  /** The reply to the request at `i`, if the process has not ended before. */
  ghost function ReplyAt(arrivals: seq<Arrival>, i: nat): seq<char>
    requires i < |arrivals| && AllDeliverable(arrivals)
  {
    Reply(Run(Requests(arrivals[..i])), arrivals[i])
  }

  /** The process ends with the request at `i`, if not before. */
  ghost predicate EndsAt(arrivals: seq<Arrival>, i: nat)
    requires i < |arrivals| && AllDeliverable(arrivals)
  {
    Ends(Run(Requests(arrivals[..i])), arrivals[i])
  }

  /** The hash was requested before, with fewer than CACHE_LINE_NUM others since. */
  ghost predicate Recent(arrivals: seq<Arrival>, i: nat)
    requires i < |arrivals|
  {
    var hashes := HashesOf(arrivals[..i]);
    arrivals[i].hash in hashes && |Since(hashes, arrivals[i].hash)| < CACHE_LINE_NUM
  }

  function HashesOf(arrivals: seq<Arrival>): seq<int> {
    seq(|arrivals|, i requires 0 <= i < |arrivals| => arrivals[i].hash)
  }

  lemma RecentHeld(arrivals: seq<Arrival>, i: nat)
    requires i < |arrivals| && AllDeliverable(arrivals)
    ensures Recent(arrivals, i) <==> arrivals[i].hash in Run(Requests(arrivals[..i])).objects
  {
    var rs := Requests(arrivals[..i]);
    AnsweredFromStore(rs, arrivals[i].hash);
    assert Hashes(rs) == HashesOf(arrivals[..i]);
  }

  /** When the process ends: with a recent hash if Close fails on what the descriptors happen to hold, with
      any other if the server cannot be reached. */
  lemma EndsWhen(arrivals: seq<Arrival>, i: nat)
    requires i < |arrivals| && AllDeliverable(arrivals)
    ensures EndsAt(arrivals, i) <==> if Recent(arrivals, i) then !arrivals[i].closes else arrivals[i].server.Refused?
  {
    RecentHeld(arrivals, i);
  }

  ghost function Requests(arrivals: seq<Arrival>): (rs: seq<Request>)
    requires AllDeliverable(arrivals)
    ensures |rs| == |arrivals|
  {
    seq(|arrivals|, i requires 0 <= i < |arrivals| => Asked(arrivals[i]))
  }

  lemma MoreRequests(arrivals: seq<Arrival>, i: nat)
    requires i < |arrivals| && AllDeliverable(arrivals)
    ensures Requests(arrivals[..i + 1])[i] == Asked(arrivals[i])
    ensures Requests(arrivals[..i + 1])[..i] == Requests(arrivals[..i])
    ensures Run(Requests(arrivals[..i + 1])) == Serve(Run(Requests(arrivals[..i])), Asked(arrivals[i])).0
  {
  }

  lemma NoRequests(arrivals: seq<Arrival>)
    requires AllDeliverable(arrivals)
    ensures Requests(arrivals[..0]) == []
  {
  }

  /** Where a server was reached it delivered the page that the hash stands for, and the process has not ended
      before the request at `i`. */
  ghost predicate Pages(arrivals: seq<Arrival>, i: nat, page: int -> seq<char>)
    requires i <= |arrivals| && AllDeliverable(arrivals)
  {
    && (forall a <- arrivals :: a.server.Connected? ==> Body(a) == page(a.hash))
    && (forall k :: 0 <= k < i ==> !EndsAt(arrivals, k))
  }

  lemma {:induction false} PagesHeld(arrivals: seq<Arrival>, i: nat, page: int -> seq<char>)
    requires i <= |arrivals| && AllDeliverable(arrivals) && Pages(arrivals, i, page)
    ensures var s := Run(Requests(arrivals[..i])); forall h <- s.objects :: s.objects[h] == Stored(page(h))
  {
    hide Lru, Stored, Body;
    if i > 0 {
      PagesHeld(arrivals, i - 1, page);
      MoreRequests(arrivals, i - 1);
      assert !EndsAt(arrivals, i - 1);
      var a := arrivals[i - 1];
      assert a in arrivals;
    }
  }

  /** While the process lasts, a request that is recent is answered with its page exactly if the page is shorter
      than MAX_OBJECT_SIZE, whether or not its server can be reached; any other with its page, or with the error
      page if it cannot. */
  lemma RightReply(arrivals: seq<Arrival>, i: nat, page: int -> seq<char>)
    requires i < |arrivals| && AllDeliverable(arrivals) && Pages(arrivals, i, page)
    ensures var a := arrivals[i];
            if Recent(arrivals, i) then ReplyAt(arrivals, i) == page(a.hash) <==> |page(a.hash)| < MAX_OBJECT_SIZE
            else ReplyAt(arrivals, i) == if a.server.Connected? then page(a.hash) else a.server.page
  {
    hide Lru, Stored, Body, Pages;
    PagesHeld(arrivals, i, page);
    RecentHeld(arrivals, i);
    StoredWhole(page(arrivals[i].hash));
    assert arrivals[i].server.Connected? ==> Body(arrivals[i]) == page(arrivals[i].hash) by {
      PageOf(arrivals, i, page);
    }
  }

  lemma PageOf(arrivals: seq<Arrival>, i: nat, page: int -> seq<char>)
    requires i < |arrivals| && AllDeliverable(arrivals) && Pages(arrivals, i, page)
    ensures arrivals[i].server.Connected? ==> Body(arrivals[i]) == page(arrivals[i].hash)
  {
  }

  lemma NothingHeld(v: seq<Content>, texts: seq<seq<char>>)
    requires |v| == |texts| == CACHE_LINE_NUM && forall i :: 0 <= i < |v| ==> !v[i].valid
    ensures Holds(v, texts, [], 0, Store([], map[]))
  {
  }
}
