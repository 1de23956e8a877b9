/** The doubly linked free list threaded through the arena.

    A node is the word index of a block header: the word after it holds `next`, the one after that
    `prev`. A list is written with its sentinel, the prologue, as its last node. Links are
    stored as 32-bit addresses; `base` is the address of word 0. */
module FreeList {
  import opened Basics
  import opened Blocks
  import opened Memory
  import opened Retagging

  function Address(base: nat, i: nat): nat {
    base + 4 * i
  }

  function Index(base: nat, w: Word): int {
    (w - base) / 4
  }

  lemma IndexAddress(base: nat, i: nat)
    requires Address(base, i) < 0x1_0000_0000
    ensures Index(base, Address(base, i)) == i
  {
  }

  /** `a` is followed by `b`, and both agree on it. */
  ghost predicate Joined(m: seq<Word>, base: nat, a: nat, b: nat) {
    a + 3 < |m| && b + 3 < |m| && m[a + 1] == Address(base, b) && m[b + 2] == Address(base, a)
  }

  /** No node's link words touch those of another. */
  ghost predicate Spaced(g: seq<nat>) {
    forall i, j :: 0 <= i < j < |g| ==> g[i] + 4 <= g[j] || g[j] + 4 <= g[i]
  }

  /** The nodes of `g`, in this order, form a doubly linked list whose head has no `prev`. */
  ghost predicate Linked(m: seq<Word>, base: nat, g: seq<nat>) {
    && |g| > 0 && Spaced(g)
    && g[0] + 3 < |m| && m[g[0] + 2] == NULL
    && forall k, k' {:trigger g[k], g[k']} :: 0 <= k < k' == k + 1 < |g| ==> Joined(m, base, g[k], g[k'])
  }

  /** Only link words of nodes in `g` differ between `m` and `m'`. */
  ghost predicate OnlyLinks(m: seq<Word>, m': seq<Word>, g: seq<nat>) {
    && |m| == |m'|
    && forall i :: 0 <= i < |m| && i - 1 !in g && i - 2 !in g ==> m'[i] == m[i]
  }

  /** Writes elsewhere do not disturb the list. */
  lemma LinkedFrame(m: seq<Word>, base: nat, g: seq<nat>, m': seq<Word>)
    requires Linked(m, base, g) && |m| == |m'|
    requires forall x <- g | x + 3 < |m| :: m'[x + 1] == m[x + 1] && m'[x + 2] == m[x + 2]
    ensures Linked(m', base, g)
  {
    hide Spaced;
    assert g[0] in g;
    forall k, k' | 0 <= k < k' == k + 1 < |g| ensures Joined(m', base, g[k], g[k']) {
      assert g[k] in g && g[k'] in g && Joined(m, base, g[k], g[k']);
    }
  }

  /** Taking out node `k`, which is neither head nor sentinel. */
  lemma Unlink(m: seq<Word>, base: nat, g: seq<nat>, k: nat, m': seq<Word>)
    requires Linked(m, base, g) && 0 < k < |g| - 1
    requires Joined(m, base, g[k - 1], g[k]) && Joined(m, base, g[k], g[k + 1])
    requires m' == m[g[k - 1] + 1 := m[g[k] + 1]][g[k + 1] + 2 := m[g[k] + 2]]
    ensures Linked(m', base, Drop(g, k))
    ensures m'[g[k] + 1] == m[g[k] + 1] && m'[g[k] + 2] == m[g[k] + 2]
  {
    var h := Drop(g, k);
    forall i, i' | 0 <= i < i' == i + 1 < |h| ensures Joined(m', base, h[i], h[i']) {
      if i < k - 1 {
        assert Joined(m, base, g[i], g[i + 1]);
      } else if i == k - 1 {
        assert h[i] == g[k - 1] && h[i'] == g[k + 1];
      } else {
        assert Joined(m, base, g[i + 1], g[i + 2]);
      }
    }
  }

  /** Putting a new node in front. */
  lemma Push(m: seq<Word>, base: nat, g: seq<nat>, x: nat, m': seq<Word>)
    requires Linked(m, base, g) && Spaced([x] + g) && x + 3 < |m|
    requires Address(base, x) < 0x1_0000_0000 && Address(base, g[0]) < 0x1_0000_0000
    requires m' == m[x + 1 := Address(base, g[0])][x + 2 := NULL][g[0] + 2 := Address(base, x)]
    ensures Linked(m', base, [x] + g)
  {
    var h := [x] + g;
    assert h[0] == x && h[1] == g[0];
    forall i, i' | 0 <= i < i' == i + 1 < |h| ensures Joined(m', base, h[i], h[i']) {
      if i > 0 {
        assert Joined(m, base, g[i - 1], g[i]);
      }
    }
  }

  /** Dropping the head. */
  lemma Pop(m: seq<Word>, base: nat, g: seq<nat>, m': seq<Word>)
    requires Linked(m, base, g) && 1 < |g| && Joined(m, base, g[0], g[1])
    requires m' == m[g[1] + 2 := NULL]
    ensures Linked(m', base, g[1..])
  {
    var h := g[1..];
    forall i, i' | 0 <= i < i' == i + 1 < |h| ensures Joined(m', base, h[i], h[i']) {
      assert Joined(m, base, g[i + 1], g[i + 2]);
    }
  }

  /** Putting a new node in the place of the head. */
  lemma ReplaceHead(m: seq<Word>, base: nat, g: seq<nat>, x: nat, m': seq<Word>)
    requires Linked(m, base, g) && 1 < |g| && Joined(m, base, g[0], g[1])
    requires Spaced([x] + g[1..]) && x + 3 < |m| && Address(base, x) < 0x1_0000_0000
    requires m' == m[x + 1 := m[g[0] + 1]][x + 2 := NULL][g[1] + 2 := Address(base, x)]
    ensures Linked(m', base, [x] + g[1..])
  {
    var h := [x] + g[1..];
    assert h[0] == x && h[1] == g[1];
    forall i, i' | 0 <= i < i' == i + 1 < |h| ensures Joined(m', base, h[i], h[i']) {
      if i > 0 {
        assert Joined(m, base, g[i], g[i + 1]);
      }
    }
  }

  /** Two nodes of the list do not overlap. */
  lemma NodesApart(g: seq<nat>, i: nat, j: nat)
    requires Spaced(g) && i < |g| && j < |g| && i != j
    ensures g[i] + 4 <= g[j] || g[j] + 4 <= g[i]
  {
  }

  /** Writes to four link words leave a pair joined that they do not touch. */
  lemma StillJoined(m: seq<Word>, m': seq<Word>, base: nat, a: nat, b: nat)
    requires Joined(m, base, a, b) && |m| == |m'| && m'[a + 1] == m[a + 1] && m'[b + 2] == m[b + 2]
    ensures Joined(m', base, a, b)
  {
  }

  /** Putting a new node in the place of node `k`, which is neither head nor sentinel. */
  lemma Replace(m: seq<Word>, base: nat, g: seq<nat>, k: nat, x: nat, m': seq<Word>)
    requires Linked(m, base, g) && 0 < k < |g| - 1
    requires Joined(m, base, g[k - 1], g[k]) && Joined(m, base, g[k], g[k + 1])
    requires Spaced(g[k := x]) && x + 3 < |m| && Address(base, x) < 0x1_0000_0000
    requires m' == m[g[k - 1] + 1 := Address(base, x)][x + 2 := m[g[k] + 2]]
                    [x + 1 := m[g[k] + 1]][g[k + 1] + 2 := Address(base, x)]
    ensures Linked(m', base, g[k := x])
  {
    hide Spaced, Linked;
    var h := g[k := x];
    NodesApart(h, k - 1, k);
    NodesApart(h, k, k + 1);
    NodesApart(h, k - 1, k + 1);
    Replaced(m, base, g, k, x, m');
  }

  /** The same, with the writes told word by word. */
  lemma Replaced(m: seq<Word>, base: nat, g: seq<nat>, k: nat, x: nat, m': seq<Word>)
    requires Linked(m, base, g) && 0 < k < |g| - 1 && Spaced(g[k := x]) && |m| == |m'| && x + 3 < |m|
    requires Joined(m', base, g[k - 1], x) && Joined(m', base, x, g[k + 1])
    requires forall p ::
               0 <= p < |m| && p != g[k - 1] + 1 && p != x + 2 && p != x + 1 && p != g[k + 1] + 2 ==> m'[p] == m[p]
    ensures Linked(m', base, g[k := x])
  {
    hide Spaced;
    var h := g[k := x];
    assert h[k - 1] == g[k - 1] && h[k] == x && h[k + 1] == g[k + 1] && h[0] == g[0];
    HeadKept(m, h, k, m');
    forall i, i' | 0 <= i < i' == i + 1 < |h| ensures Joined(m', base, h[i], h[i']) {
      if i != k - 1 && i != k {
        assert Joined(m, base, g[i], g[i']) && h[i] == g[i] && h[i'] == g[i'];
        PairUntouched(m, h, k, m', i);
        StillJoined(m, m', base, h[i], h[i']);
      }
    }
  }

  /** The four words written are links of nodes `k - 1`, `k` and `k + 1`. */
  lemma PairUntouched(m: seq<Word>, h: seq<nat>, k: nat, m': seq<Word>, i: nat)
    requires Spaced(h) && 0 < k < |h| - 1 && i + 1 < |h| && i != k && i != k - 1 && |m| == |m'|
    requires h[i] + 3 < |m| && h[i + 1] + 3 < |m|
    requires forall p ::
               0 <= p < |m| && p != h[k - 1] + 1 && p != h[k] + 2 && p != h[k] + 1 && p != h[k + 1] + 2 ==>
                 m'[p] == m[p]
    ensures m'[h[i] + 1] == m[h[i] + 1] && m'[h[i + 1] + 2] == m[h[i + 1] + 2]
  {
    hide Spaced;
    NodesApart(h, i, k);
    NodesApart(h, i, k - 1);
    NodesApart(h, i + 1, k);
    NodesApart(h, i + 1, k + 1);
    if i != k + 1 {
      NodesApart(h, i, k + 1);
    }
    if i + 1 != k - 1 {
      NodesApart(h, i + 1, k - 1);
    }
  }

  /** The head keeps its empty back link, if it is not the node replaced. */
  lemma HeadKept(m: seq<Word>, h: seq<nat>, k: nat, m': seq<Word>)
    requires Spaced(h) && 0 < k < |h| - 1 && |m| == |m'| && h[0] + 3 < |m| && m[h[0] + 2] == NULL
    requires forall p ::
               0 <= p < |m| && p != h[k - 1] + 1 && p != h[k] + 2 && p != h[k] + 1 && p != h[k + 1] + 2 ==>
                 m'[p] == m[p]
    ensures m'[h[0] + 2] == NULL
  {
    hide Spaced;
    NodesApart(h, 0, k);
    NodesApart(h, 0, k + 1);
    if k > 1 {
      NodesApart(h, 0, k - 1);
    }
  }

  /** What the link words of node `k` read as. */
  lemma ReadLinks(m: seq<Word>, base: nat, g: seq<nat>, k: nat)
    requires Linked(m, base, g) && k < |g| && (forall x <- g :: 0 < x)
    requires base + 4 * |m| <= 0x1_0000_0000
    ensures g[k] + 3 < |m|
    ensures m[g[k] + 2] == NULL <==> k == 0
    ensures k < |g| - 1 ==>
              Index(base, m[g[k] + 1]) == g[k + 1] && g[k + 1] + 3 < |m| && m[g[k] + 1] == Address(base, g[k + 1])
    ensures 0 < k ==> Index(base, m[g[k] + 2]) == g[k - 1] && m[g[k] + 2] == Address(base, g[k - 1])
  {
    if k < |g| - 1 {
      assert Joined(m, base, g[k], g[k + 1]);
    }
    if 0 < k {
      assert Joined(m, base, g[k - 1], g[k]);
      assert g[k - 1] in g;
    }
  }

  /** `g` without nodes `i` and `j`. */
  function Drop2(g: seq<nat>, i: nat, j: nat): seq<nat>
    requires i < |g| && j < |g| && i != j
  {
    Drop(Drop(g, i), if j < i then j else j - 1)
  }

  ghost predicate Away(x: nat, g: seq<nat>) {
    forall i :: 0 <= i < |g| ==> x + 4 <= g[i] || g[i] + 4 <= x
  }

  lemma DropOne(g: seq<nat>, k: nat)
    requires Spaced(g) && k < |g|
    ensures Spaced(Drop(g, k)) && Away(g[k], Drop(g, k))
  {
    var d := Drop(g, k);
    assert forall i :: 0 <= i < k ==> d[i] == g[i];
    assert forall i :: k <= i < |d| ==> d[i] == g[i + 1];
  }

  lemma DropAway(x: nat, g: seq<nat>, k: nat)
    requires Away(x, g) && k < |g|
    ensures Away(x, Drop(g, k))
  {
    var d := Drop(g, k);
    assert forall i :: 0 <= i < k ==> d[i] == g[i];
    assert forall i :: k <= i < |d| ==> d[i] == g[i + 1];
  }

  lemma PushSpaced(x: nat, g: seq<nat>)
    requires Spaced(g) && Away(x, g)
    ensures Spaced([x] + g)
  {
    var h := [x] + g;
    assert forall i :: 1 <= i < |h| ==> h[i] == g[i - 1];
  }

  /** Moving a node to the front keeps the nodes apart. */
  lemma DropSpaced(g: seq<nat>, i: nat, j: nat)
    requires Spaced(g) && i < |g| && j < |g| && i != j
    ensures Spaced([g[i]] + Drop2(g, i, j))
  {
    hide Spaced, Away;
    var k := if j < i then j else j - 1;
    DropOne(g, i);
    DropOne(Drop(g, i), k);
    DropAway(g[i], Drop(g, i), k);
    PushSpaced(g[i], Drop2(g, i, j));
  }

  lemma DropIn(g: seq<nat>, k: nat)
    requires k < |g|
    ensures forall x <- Drop(g, k) :: x in g
  {
  }

  // ---------- links and tags stay out of each other's way ----------

  /** Every node is a block of `l` or the prologue block, whose header is word 1. */
  ghost predicate Nodes(l: Layout, g: seq<nat>) {
    forall x <- g :: x == 1 || x in l.at
  }

  /** Blocks are large enough for links to lie strictly between the tags. */
  ghost predicate Roomy(l: Layout) {
    Tiles(l) && 2 <= l.min && 5 <= l.first
  }

  lemma DistinctSpaced(l: Layout, g: seq<nat>)
    requires Roomy(l) && Nodes(l, g)
    requires forall i, j :: 0 <= i < j < |g| ==> g[i] != g[j]
    ensures Spaced(g)
  {
    forall i, j | 0 <= i < j < |g| ensures g[i] + 4 <= g[j] || g[j] + 4 <= g[i] {
      assert g[i] in g && g[j] in g;
    }
  }

  lemma OnlyLinksTrans(m0: seq<Word>, m1: seq<Word>, m2: seq<Word>, a: seq<nat>, b: seq<nat>, c: seq<nat>)
    requires OnlyLinks(m0, m1, a) && OnlyLinks(m1, m2, b)
    requires (forall x <- a :: x in c) && (forall x <- b :: x in c)
    ensures OnlyLinks(m0, m2, c)
  {
    forall i | 0 <= i < |m0| && i - 1 !in c && i - 2 !in c ensures m2[i] == m0[i] {
      assert m1[i] == m0[i];
    }
  }

  /** The link words of a node miss both ends of any stretch of whole blocks. */
  lemma LinksMissTags(l: Layout, x: nat, e: nat)
    requires Roomy(l) && (x == 1 || x in l.at) && (e == l.end || e in l.at)
    ensures x + 1 != e && x + 2 != e && x + 1 != e - 1 && x + 2 != e - 1
  {
  }

  /** No node has a link where a block of the coarser layout has a tag. */
  lemma LinksMissBlock(l: Layout, c: Layout, g: seq<nat>, q: nat)
    requires Roomy(l) && Coarser(l, c) && Nodes(l, g) && q in c.at && q < Succ(c, q)
    ensures forall x <- g :: x + 1 != q && x + 2 != q && x + 1 != Succ(c, q) - 1 && x + 2 != Succ(c, q) - 1
  {
    hide Roomy;
    forall x <- g ensures x + 1 != q && x + 2 != q && x + 1 != Succ(c, q) - 1 && x + 2 != Succ(c, q) - 1 {
      LinksMissTags(l, x, q);
      LinksMissTags(l, x, Succ(c, q));
    }
  }

  /** Nor where prologue and epilogue have theirs. */
  lemma LinksMissEnds(l: Layout, g: seq<nat>)
    requires Roomy(l) && Nodes(l, g)
    ensures forall x <- g :: x + 1 != l.end && x + 2 != l.end && x + 1 != l.first - 1 && x + 2 != l.first - 1 && x != 0
  {
    forall x <- g
      ensures x + 1 != l.end && x + 2 != l.end && x + 1 != l.first - 1 && x + 2 != l.first - 1 && x != 0
    {
      LinksMissTags(l, x, l.end);
      hide Chained, Apart;
    }
  }

  lemma LinksKeepTags(m: seq<Word>, l: Layout, c: Layout, g: seq<nat>, m': seq<Word>)
    requires Roomy(l) && Coarser(l, c) && Nodes(l, g)
    requires Tagged(m, c) && OnlyLinks(m, m', g)
    ensures Tagged(m', c)
  {
    hide Roomy, Nodes, Tiles, Tag;
    LinksMissEnds(l, g);
    forall q <- c.at ensures TagAt(m', q, c.at[q]) {
      assert TagAt(m, q, c.at[q]);
      LinksMissBlock(l, c, g, q);
    }
    assert c.first == l.first && c.end == l.end && 2 < l.first <= l.end by {
      TiledFirst(c);
    }
    assert m'[1] == m[1] && m'[l.first - 1] == m[l.first - 1] && m'[l.end] == m[l.end];
  }

  lemma TiledFirst(c: Layout)
    requires Tiles(c)
    ensures c.first <= c.end
  {
  }

  /** Link words lie inside their block, so live blocks that are not nodes keep all their words. */
  lemma LinksKeepLive(m: seq<Word>, l: Layout, g: seq<nat>, m': seq<Word>)
    requires Roomy(l) && Nodes(l, g) && OnlyLinks(m, m', g)
    requires forall x <- g :: !IsLive(l, x)
    ensures KeepsLive(l, m, m')
  {
    forall p: nat, i: nat | IsLive(l, p) && p <= i < Succ(l, p) && i < |m| ensures m'[i] == m[i] {
      assert i - 1 !in g && i - 2 !in g;
    }
  }

  /** Writing the tags of one block `b` of a coarser layout leaves the list and the live blocks alone. */
  lemma MergedTags(m: seq<Word>, base: nat, l: Layout, c: Layout, b: nat, g: seq<nat>)
    requires Roomy(l) && Tagged(m, l) && Linked(m, base, g) && Nodes(l, g)
    requires Swallows(l, c, b)
    ensures var m' := Stamp(m, b, Succ(c, b) - 1, Tag(c.at[b]));
            Tagged(m', c) && Linked(m', base, g) && KeepsLive(l, m, m')
  {
    hide Tag, Linked, KeepsLive, Stamp;
    SwallowTags(m, l, c, b);
    TagsMissLinks(m, base, l, c, b, g, Tag(c.at[b]));
  }

  /** Writes to both ends of a stretch of whole blocks do not disturb the list. */
  lemma TagsMissLinks(m: seq<Word>, base: nat, l: Layout, c: Layout, b: nat, g: seq<nat>, w: Word)
    requires Roomy(l) && Linked(m, base, g) && Nodes(l, g)
    requires Tiles(c) && Coarser(l, c) && b in c.at && l.end < |m|
    ensures Linked(Stamp(m, b, Succ(c, b) - 1, w), base, g)
  {
    hide Tiles, Linked, Roomy, Nodes, Coarser;
    CoarseBlock(l, c, b);
    LinksMissBlock(l, c, g, b);
    LinkedFrame(m, base, g, Stamp(m, b, Succ(c, b) - 1, w));
  }

  lemma CoarseBlock(l: Layout, c: Layout, b: nat)
    requires Tiles(c) && Coarser(l, c) && b in c.at
    ensures b < Succ(c, b) <= l.end
  {
    hide Chained, Apart;
  }

  /** Writing the tags of the block that swallows `p` leaves the list and the live blocks alone. */
  lemma CoalesceTags(m: seq<Word>, base: nat, l: Layout, g: seq<nat>, p: nat)
    requires Roomy(l) && Tagged(m, l) && Linked(m, base, g) && Nodes(l, g)
    requires p in l.at && MergedFits(l, p) && Swallows(l, Coalesced(l, p), Base(l, p))
    ensures var c, m' := Coalesced(l, p), MergedStamp(m, l, p);
            Tagged(m', c) && Linked(m', base, g) && KeepsLive(l, m, m')
  {
    hide Tiles, Tagged, Linked, KeepsLive, Swallows, Coalesced, Base, Nodes, Stamp;
    MergedTags(m, base, l, Coalesced(l, p), Base(l, p), g);
  }

  /** Rewriting the tags of block `p` to mark it live or free disturbs nothing else. */
  lemma MarkTags(m: seq<Word>, base: nat, l: Layout, g: seq<nat>, p: nat, live: bool)
    requires Roomy(l) && Tagged(m, l) && Linked(m, base, g) && Nodes(l, g)
    requires p in l.at && p < Succ(l, p) <= |m| && Tag(Block(l.at[p].units, live)) < 0x1_0000_0000
    ensures var m' := Stamp(m, p, Succ(l, p) - 1, Tag(Block(l.at[p].units, live)));
            Tagged(m', Mark(l, p, live)) && Linked(m', base, g) && KeepsLive(Mark(l, p, false), m, m')
  {
    MarkTagged(m, l, p, live);
    MarkMissesLinks(m, base, l, g, p, Tag(Block(l.at[p].units, live)));
    MarkMissesLive(m, l, p, Tag(Block(l.at[p].units, live)));
  }

  lemma MarkMissesLinks(m: seq<Word>, base: nat, l: Layout, g: seq<nat>, p: nat, w: Word)
    requires Roomy(l) && Linked(m, base, g) && Nodes(l, g) && l.end < |m|
    requires p in l.at && p < Succ(l, p) <= |m|
    ensures Linked(Stamp(m, p, Succ(l, p) - 1, w), base, g)
  {
    MarkCoarser(l, p, l.at[p].live);
    assert Mark(l, p, l.at[p].live) == l;
    TagsMissLinks(m, base, l, l, p, g, w);
  }

  /** Adding a block at the end of the heap disturbs nothing else. */
  lemma ExtendTags(m: seq<Word>, base: nat, l: Layout, g: seq<nat>, n: nat)
    requires Roomy(l) && Tagged(m, l) && Linked(m, base, g) && Nodes(l, g)
    requires l.min <= n && l.end + 2 * n < |m| && 8 * n < 0x1_0000_0000
    ensures var m' := ExtendStamp(m, l.end, n);
            Tagged(m', Extend(l, n)) && Linked(m', base, g) && KeepsLive(l, m, m')
  {
    hide Tagged, Linked, KeepsLive, Nodes, Tiles, Extend;
    RetagExtend(m, l, n);
    ExtendMissesLinks(m, base, l, g, n);
    ExtendMissesLive(m, l, n);
  }

  lemma ExtendMissesLinks(m: seq<Word>, base: nat, l: Layout, g: seq<nat>, n: nat)
    requires Roomy(l) && Linked(m, base, g) && Nodes(l, g)
    requires l.min <= n && l.end + 2 * n < |m| && 8 * n < 0x1_0000_0000
    ensures Linked(ExtendStamp(m, l.end, n), base, g)
  {
    hide Linked, Chained, Apart, Spaced;
    assert forall x <- g :: x + 2 < l.end;
    LinkedFrame(m, base, g, ExtendStamp(m, l.end, n));
  }

  /** Writing the tags of both halves of a split disturbs nothing else. */
  lemma SplitTags(m: seq<Word>, base: nat, l: Layout, g: seq<nat>, p: nat, n: nat)
    requires Roomy(l) && Tagged(m, l) && Linked(m, base, g) && Nodes(l, g) && IsFree(l, p)
    requires l.min <= n && n + l.min <= l.at[p].units && 8 * l.at[p].units + 1 < 0x1_0000_0000 && Succ(l, p) <= |m|
    ensures var m' := SplitStamp(m, l, p, n);
            Tagged(m', Split(l, p, n)) && Linked(m', base, g) && KeepsLive(l, m, m')
  {
    hide Tagged, Linked, KeepsLive, Nodes, Tiles, Split, SplitStamp;
    RetagSplit(m, l, p, n);
    SplitMissesLinks(m, base, l, g, p, n);
    SplitMissesLive(m, l, p, n);
  }

  lemma SplitMissesLinks(m: seq<Word>, base: nat, l: Layout, g: seq<nat>, p: nat, n: nat)
    requires Roomy(l) && Linked(m, base, g) && Nodes(l, g) && p in l.at
    requires l.min <= n && n + l.min <= l.at[p].units && 8 * l.at[p].units + 1 < 0x1_0000_0000 && Succ(l, p) <= |m|
    ensures Linked(SplitStamp(m, l, p, n), base, g)
  {
    hide Linked, Chained, Spaced;
    LinkedFrame(m, base, g, SplitStamp(m, l, p, n));
  }

  /** Writing the payload of a live block disturbs no tag, no link and no other live block. */
  lemma PayloadWrite(m: seq<Word>, base: nat, l: Layout, g: seq<nat>, q: nat, m': seq<Word>)
    requires Roomy(l) && Tagged(m, l) && Linked(m, base, g) && Nodes(l, g) && IsLive(l, q)
    requires |m| == |m'| && forall x <- g :: !IsLive(l, x)
    requires forall i :: 0 <= i < |m| && !(q + 3 <= i < Succ(l, q) - 1) ==> m'[i] == m[i]
    ensures Tagged(m', l) && Linked(m', base, g) && KeepsLive(Mark(l, q, false), m, m')
  {
    hide KeepsLive, Tagged, Linked;
    PayloadMissesTags(m, l, q, m');
    PayloadMissesLinks(m, base, l, g, q, m');
    PayloadMissesLive(m, l, q, m');
  }

  lemma PayloadMissesLinks(m: seq<Word>, base: nat, l: Layout, g: seq<nat>, q: nat, m': seq<Word>)
    requires Roomy(l) && Linked(m, base, g) && Nodes(l, g) && IsLive(l, q)
    requires |m| == |m'| && forall x <- g :: !IsLive(l, x)
    requires forall i :: 0 <= i < |m| && !(q + 3 <= i < Succ(l, q) - 1) ==> m'[i] == m[i]
    ensures Linked(m', base, g)
  {
    hide Linked, Chained, Spaced;
    LinkedFrame(m, base, g, m');
  }
}
