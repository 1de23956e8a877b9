/** The proxy's store of web objects, for requests served one at a time: an ideal map with
    least-recently-used eviction, keyed by the hash of the request. */
module ProxyStore {
  import opened Basics
  import opened Recency

  const MAX_CACHE_SIZE := 1049000
  const MAX_OBJECT_SIZE: nat := 102400
  const CACHE_LINE_NUM: nat := MAX_CACHE_SIZE / MAX_OBJECT_SIZE

  /** How much of a response one call of Rio_readnb asks for. */
  const MAXLINE: nat := 8192

  /** A request: the hash of its header, and the body that arrives from the server; nothing arrives when
      there is no connection. */
  datatype Request = Request(hash: int, body: seq<char>)

  function Whole(chunks: seq<seq<char>>): seq<char> {
    if chunks == [] then [] else Whole(chunks[..|chunks| - 1]) + chunks[|chunks| - 1]
  }

  /** The chunks in which a body is read: all of MAXLINE bytes, but for the last, which may be shorter. */
  ghost predicate Received(chunks: seq<seq<char>>) {
    && (forall i :: 0 <= i < |chunks| - 1 ==> |chunks[i]| == MAXLINE)
    && (chunks != [] ==> 0 < |chunks[|chunks| - 1]| <= MAXLINE)
  }

  function Cut(body: seq<char>): (chunks: seq<seq<char>>) {
    if body == [] then []
    else
      var n := (|body| - 1) / MAXLINE * MAXLINE;
      Cut(body[..n]) + [body[n..]]
  }

  lemma {:induction false} CutReceived(body: seq<char>)
    ensures Received(Cut(body)) && Whole(Cut(body)) == body
    ensures |body| % MAXLINE == 0 ==> forall i :: 0 <= i < |Cut(body)| ==> |Cut(body)[i]| == MAXLINE
  {
    if body != [] {
      var q := (|body| - 1) / MAXLINE;
      var n := q * MAXLINE;
      CutReceived(body[..n]);
      assert n % MAXLINE == 0;
      var c := Cut(body[..n]);
      assert (c + [body[n..]])[..|c|] == c;
    }
  }

  lemma {:induction false} FullLength(chunks: seq<seq<char>>)
    requires forall i :: 0 <= i < |chunks| ==> |chunks[i]| == MAXLINE
    ensures |Whole(chunks)| == MAXLINE * |chunks|
  {
    if chunks != [] {
      FullLength(chunks[..|chunks| - 1]);
    }
  }

  /** There is only one way to receive a body. */
  lemma {:induction false} CutUnique(chunks: seq<seq<char>>)
    requires Received(chunks)
    ensures Cut(Whole(chunks)) == chunks
  {
    if chunks != [] {
      var init, last := chunks[..|chunks| - 1], chunks[|chunks| - 1];
      FullLength(init);
      CutUnique(init);
      var body, n := Whole(chunks), MAXLINE * |init|;
      assert (|body| - 1) / MAXLINE * MAXLINE == n by {
        assert |body| - 1 == MAXLINE * |init| + (|last| - 1);
      }
      assert body[..n] == Whole(init) && body[n..] == last;
      assert chunks == init + [last];
    }
  }

  /** What is kept of a response: a chunk that does not fit is dropped, and the next one is tried. */
  function Kept(chunks: seq<seq<char>>): (k: seq<char>)
    ensures |k| < MAX_OBJECT_SIZE
  {
    if chunks == [] then []
    else
      var k := Kept(chunks[..|chunks| - 1]);
      if |k| + |chunks[|chunks| - 1]| < MAX_OBJECT_SIZE then k + chunks[|chunks| - 1] else k
  }

  /** What the store holds of a body. */
  function Stored(body: seq<char>): (k: seq<char>)
    ensures |k| < MAX_OBJECT_SIZE
  {
    Kept(Cut(body))
  }

  lemma {:induction false} ShortKept(chunks: seq<seq<char>>)
    requires |Whole(chunks)| < MAX_OBJECT_SIZE
    ensures Kept(chunks) == Whole(chunks)
  {
    if chunks != [] {
      ShortKept(chunks[..|chunks| - 1]);
    }
  }

  /** The store holds the body whole if and only if it is shorter than MAX_OBJECT_SIZE. */
  lemma StoredWhole(body: seq<char>)
    ensures Stored(body) == body <==> |body| < MAX_OBJECT_SIZE
  {
    CutReceived(body);
    if |body| < MAX_OBJECT_SIZE {
      ShortKept(Cut(body));
    }
  }

  /** The most full chunks that fit: twelve. */
  const FULL: nat := 12 * MAXLINE

  lemma {:induction false} FullKept(chunks: seq<seq<char>>)
    requires forall i :: 0 <= i < |chunks| ==> |chunks[i]| == MAXLINE
    ensures |Whole(chunks)| == MAXLINE * |chunks|
    ensures Kept(chunks) == if |chunks| <= 12 then Whole(chunks) else Whole(chunks)[..FULL]
  {
    FullLength(chunks);
    if chunks != [] {
      FullKept(chunks[..|chunks| - 1]);
    }
  }

  /** Of a longer body the store holds the first twelve chunks, and the last one if that is short enough:
      from 13 chunks and a bit on, a page with a hole in the middle. */
  lemma StoredLong(body: seq<char>)
    requires |body| >= MAX_OBJECT_SIZE
    ensures Stored(body) ==
            body[..98304] + (if |body| % 8192 < 4096 then body[|body| - |body| % 8192..] else [])
  {
    CutReceived(body);
    var c := Cut(body);
    var init, last := c[..|c| - 1], c[|c| - 1];
    FullKept(init);
    var n := MAXLINE * |init|;
    assert body == Whole(init) + last && |body| == n + |last|;
    if |last| == MAXLINE {
      assert |body| == MAXLINE * (|init| + 1);
      Multiple(|body|, |init| + 1, 0);
    } else {
      Multiple(|body|, |init|, |last|);
    }
  }

  lemma Multiple(x: nat, q: nat, r: nat)
    requires x == MAXLINE * q + r && r < MAXLINE
    ensures x % MAXLINE == r
  {
    assert x / MAXLINE == q;
  }

  // ---------- the ideal store ----------

  /** `recent` lists the hashes held, most recently used first. */
  datatype Store = Store(recent: seq<int>, objects: map<int, seq<char>>)

  ghost predicate Proper(s: Store) {
    NoDup(s.recent) && |s.recent| <= CACHE_LINE_NUM && forall h :: h in s.recent <==> h in s.objects
  }

  /** Serves a request; the second result is what is sent to the client. */
  ghost function Serve(s: Store, r: Request): (Store, seq<char>) {
    var recent := Lru(CACHE_LINE_NUM, s.recent, r.hash);
    if r.hash in s.objects then (Store(recent, s.objects), s.objects[r.hash])
    else
      var left := map h | h in s.objects && h in recent :: s.objects[h];
      (Store(recent, left[r.hash := Stored(r.body)]), r.body)
  }

  lemma LruMembers(e: nat, r: seq<int>, t: int)
    requires 0 < e && NoDup(r) && |r| <= e
    ensures NoDup(Lru(e, r, t)) && |Lru(e, r, t)| <= e && t in Lru(e, r, t)
    ensures forall x :: x in Lru(e, r, t) ==> x == t || x in r
    ensures t in r ==> forall x :: x in r ==> x in Lru(e, r, t)
  {
    hide Place;
    LruIsTake(e, r, t);
    TouchNoDup(r, t);
    TouchFirst(r, t);
    var u := Touch(r, t);
    if t in r {
      TouchSame(r, t);
    }
  }

  lemma TouchFirst(r: seq<int>, t: int)
    ensures |Touch(r, t)| > 0 && Touch(r, t)[0] == t
  {
  }

  lemma TouchSame(r: seq<int>, t: int)
    requires t in r
    ensures |Touch(r, t)| == |r|
  {
    assert r[..|r|] == r;
  }

  lemma ServeProper(s: Store, r: Request)
    requires Proper(s)
    ensures Proper(Serve(s, r).0)
  {
    hide Lru;
    LruMembers(CACHE_LINE_NUM, s.recent, r.hash);
  }

  /** Serving requests from an empty store. */
  ghost function Run(rs: seq<Request>): (s: Store)
    ensures Proper(s)
  {
    if rs == [] then Store([], map[])
    else
      ServeProper(Run(rs[..|rs| - 1]), rs[|rs| - 1]);
      Serve(Run(rs[..|rs| - 1]), rs[|rs| - 1]).0
  }

  function Hashes(rs: seq<Request>): (h: seq<int>)
    ensures |h| == |rs| && forall i :: 0 <= i < |rs| ==> h[i] == rs[i].hash
  {
    seq(|rs|, i requires 0 <= i < |rs| => rs[i].hash)
  }

  /** The store holds the most recently requested hashes, as many as there are lines; the victim of a
      replacement is the one whose last use is longest ago. */
  lemma {:induction false} HoldsMostRecent(rs: seq<Request>)
    ensures Run(rs).recent == Take(After(Hashes(rs)), CACHE_LINE_NUM)
  {
    hide Lru, Touch, Take, Place;
    if rs == [] {
      NothingTaken();
    } else {
      var init, r := rs[..|rs| - 1], rs[|rs| - 1];
      HoldsMostRecent(init);
      LruIsTake(CACHE_LINE_NUM, After(Hashes(init)), r.hash);
      assert Hashes(rs)[..|rs| - 1] == Hashes(init) && Hashes(rs)[|rs| - 1] == r.hash;
    }
  }

  lemma NothingTaken()
    ensures Take([], CACHE_LINE_NUM) == []
  {
  }

  /** A request is answered from the store if and only if the same hash was requested before, with fewer
      than CACHE_LINE_NUM other hashes in between. */
  lemma AnsweredFromStore(rs: seq<Request>, hash: int)
    ensures hash in Run(rs).objects <==> hash in Hashes(rs) && |Since(Hashes(rs), hash)| < CACHE_LINE_NUM
  {
    HoldsMostRecent(rs);
    HitMeansRecent(CACHE_LINE_NUM, Hashes(rs), hash);
  }

  // ---------- what the client sees ----------

  /** Each hash stands for one page, which the server delivers. */
  ghost predicate Delivers(rs: seq<Request>, page: int -> seq<char>) {
    forall i :: 0 <= i < |rs| ==> rs[i].body == page(rs[i].hash)
  }

  /** What is sent in answer to the last request of `rs`. */
  ghost function Answer(rs: seq<Request>): seq<char>
    requires rs != []
  {
    Serve(Run(rs[..|rs| - 1]), rs[|rs| - 1]).1
  }

  lemma {:induction false} HoldsPages(rs: seq<Request>, page: int -> seq<char>)
    requires Delivers(rs, page)
    ensures forall h <- Run(rs).objects :: Run(rs).objects[h] == Stored(page(h))
  {
    hide Stored, Lru;
    if rs != [] {
      HoldsPages(rs[..|rs| - 1], page);
    }
  }

  /** In every history, a request is answered with its page if and only if the page is shorter than
      MAX_OBJECT_SIZE, or it was not requested before with fewer than CACHE_LINE_NUM others since. */
  lemma AnsweredRight(rs: seq<Request>, page: int -> seq<char>)
    requires rs != [] && Delivers(rs, page)
    ensures var init, h := rs[..|rs| - 1], rs[|rs| - 1].hash;
            Answer(rs) == page(h) <==>
            |page(h)| < MAX_OBJECT_SIZE
            || !(h in Hashes(init) && |Since(Hashes(init), h)| < CACHE_LINE_NUM)
  {
    var init, h := rs[..|rs| - 1], rs[|rs| - 1].hash;
    HoldsPages(init, page);
    AnsweredFromStore(init, h);
    StoredWhole(page(h));
  }

  /** A page is answered right in every history if and only if it is shorter than MAX_OBJECT_SIZE. */
  lemma Transparent(page: int -> seq<char>, hash: int)
    ensures |page(hash)| < MAX_OBJECT_SIZE <==>
            forall rs: seq<Request> ::
              rs != [] && rs[|rs| - 1].hash == hash && Delivers(rs, page) ==> Answer(rs) == page(hash)
  {
    if |page(hash)| < MAX_OBJECT_SIZE {
      forall rs: seq<Request> | rs != [] && rs[|rs| - 1].hash == hash && Delivers(rs, page)
        ensures Answer(rs) == page(hash)
      {
        AnsweredRight(rs, page);
      }
    } else {
      AskedTwice(Request(hash, page(hash)), page);
    }
  }

  /** A page that is too long is answered wrong the second time. */
  lemma AskedTwice(r: Request, page: int -> seq<char>)
    requires r.body == page(r.hash) && |page(r.hash)| >= MAX_OBJECT_SIZE
    ensures Delivers([r, r], page) && Answer([r, r]) == Stored(r.body) != page(r.hash)
  {
    hide Stored;
    StoredWhole(r.body);
    assert [r, r][..1] == [r] && [r][..0] == [];
    assert Run([r]) == Serve(Run([]), r).0;
  }
}
