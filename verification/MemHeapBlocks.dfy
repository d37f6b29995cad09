/**
 The layout memheap.c keeps in a pool: block headers linked in address order, a circular free
 list through some of them, and the payloads between the headers. Offsets are in 32-bit words.
 */
module MemHeapBlocks {
  import opened Lists

  /**
   One word of the pool. A header takes six words: its fields stand at the first one, the other
   five are Body. Everything else is the user's.
   */
  datatype Word =
    | Item(used: bool, next: int, prev: int, nextFree: int, prevFree: int)
    | Body
    | Data(v: int)

  const HEADER: nat := 6
  const NULL: int := -1

  /** The free list's own header lies behind the pool; the tailer block ends the pool. */
  ghost function FreeHeader(m: seq<Word>): int { |m| - 6 }

  ghost function Tailer(m: seq<Word>): int { |m| - 12 }

  // ---------- the block list ----------

  /** Block offsets in address order, from the start of the pool to the tailer, each with room for a header. */
  ghost predicate Ordered(bs: seq<nat>, tailer: int) {
    && |bs| >= 2 && bs[0] == 0 && bs[|bs| - 1] == tailer
    && forall i, j :: 0 <= i < j < |bs| ==> bs[i] + HEADER <= bs[j]
  }

  /** Block j is linked to its neighbours; the tailer is in use and closes the list. */
  ghost predicate LinkedAt(m: seq<Word>, bs: seq<nat>, j: nat)
    requires j < |bs|
  {
    && bs[j] < |m| && m[bs[j]].Item?
    && (if j + 1 < |bs| then m[bs[j]].next == bs[j + 1] else m[bs[j]].next == 0 && m[bs[j]].used)
    && m[bs[j]].prev == (if j > 0 then bs[j - 1] else Tailer(m))
  }

  ghost predicate Chain(m: seq<Word>, bs: seq<nat>) {
    && |m| >= 18 && Ordered(bs, Tailer(m))
    && forall j {:trigger LinkedAt(m, bs, j)} :: 0 <= j < |bs| ==> LinkedAt(m, bs, j)
  }

  ghost predicate Headers(m: seq<Word>, bs: seq<nat>) {
    forall b :: b in bs ==> b < |m| && m[b].Item?
  }

  /** The blocks tile the pool: headers in address order, linked both ways. */
  ghost predicate Tiles(m: seq<Word>, bs: seq<nat>) {
    Chain(m, bs) && Headers(m, bs) && forall b :: b in bs ==> b <= Tailer(m)
  }

  lemma ChainTiles(m: seq<Word>, bs: seq<nat>)
    requires Chain(m, bs)
    ensures Tiles(m, bs)
  {
    forall b | b in bs
      ensures b <= Tailer(m) && m[b].Item?
    {
      var j :| 0 <= j < |bs| && bs[j] == b;
      assert LinkedAt(m, bs, j);
    }
  }

  /** MEMITEM_SIZE, in words */
  function Size(m: seq<Word>, b: nat): int
    requires b < |m| && m[b].Item?
  {
    m[b].next - b - HEADER
  }

  // ---------- the free list ----------

  /** Entry i of the ring is linked to the entries around it. */
  ghost predicate RingAt(m: seq<Word>, fs: seq<nat>, i: nat)
    requires i < |fs|
  {
    && fs[i] < |m| && m[fs[i]].Item?
    && m[fs[i]].nextFree == (if i + 1 == |fs| then fs[0] else fs[i + 1])
    && m[fs[i]].prevFree == (if i == 0 then fs[|fs| - 1] else fs[i - 1])
  }

  /** fs[0] is the list's header; the rest follow it in next_free order, the last one closes the ring. */
  ghost predicate Ring(m: seq<Word>, fs: seq<nat>) {
    Cycle(m, fs) && Headers(m, fs)
  }

  ghost predicate Cycle(m: seq<Word>, fs: seq<nat>) {
    && |m| >= 6 && |fs| >= 1 && fs[0] == FreeHeader(m) && Distinct(fs)
    && forall i {:trigger RingAt(m, fs, i)} :: 0 <= i < |fs| ==> RingAt(m, fs, i)
  }

  lemma CycleRing(m: seq<Word>, fs: seq<nat>)
    requires Cycle(m, fs)
    ensures Ring(m, fs)
  {
    forall b | b in fs
      ensures b < |m| && m[b].Item?
    {
      var j :| 0 <= j < |fs| && fs[j] == b;
      assert RingAt(m, fs, j);
    }
  }

  // ---------- what a step leaves alone ----------

  ghost predicate SameBlock(w: Word, w': Word)
    requires w.Item?
  {
    w'.Item? && w'.used == w.used && w'.next == w.next && w'.prev == w.prev
  }

  ghost predicate SameLinks(w: Word, w': Word)
    requires w.Item?
  {
    w'.Item? && w'.nextFree == w.nextFree && w'.prevFree == w.prevFree
  }

  /** Nothing but free-list links changed, and those only in the headers of fs. */
  ghost predicate FreeLinksOnly(m: seq<Word>, m': seq<Word>, fs: seq<nat>) {
    |m'| == |m| && forall k :: 0 <= k < |m| ==> m'[k] == m[k] || (k in fs && m[k].Item? && SameBlock(m[k], m'[k]))
  }

  lemma TilesKept(m: seq<Word>, m': seq<Word>, bs: seq<nat>)
    requires Tiles(m, bs) && |m'| == |m|
    requires forall b :: b in bs && b < |m| && m[b].Item? ==> SameBlock(m[b], m'[b])
    ensures Tiles(m', bs)
  {
    forall j | 0 <= j < |bs|
      ensures LinkedAt(m', bs, j)
    {
      assert LinkedAt(m, bs, j);
    }
    ChainTiles(m', bs);
  }

  lemma RingKept(m: seq<Word>, m': seq<Word>, fs: seq<nat>)
    requires Ring(m, fs) && |m'| == |m|
    requires forall b :: b in fs && b < |m| && m[b].Item? ==> SameLinks(m[b], m'[b])
    ensures Ring(m', fs)
  {
    forall j | 0 <= j < |fs|
      ensures RingAt(m', fs, j)
    {
      assert RingAt(m, fs, j);
    }
    CycleRing(m', fs);
  }

  // ---------- inserting into and removing from a list ----------

  ghost function Inserted(bs: seq<nat>, i: nat, p: nat): seq<nat>
    requires i < |bs|
  {
    bs[..i + 1] + [p] + bs[i + 1..]
  }

  ghost function Removed(bs: seq<nat>, i: nat): seq<nat>
    requires i < |bs|
  {
    bs[..i] + bs[i + 1..]
  }

  lemma InsertedIndex(bs: seq<nat>, i: nat, p: nat)
    requires i < |bs|
    ensures |Inserted(bs, i, p)| == |bs| + 1
    ensures forall j {:trigger Inserted(bs, i, p)[j]} :: 0 <= j <= |bs| ==>
      Inserted(bs, i, p)[j] == if j <= i then bs[j] else if j == i + 1 then p else bs[j - 1]
  {
  }

  lemma RemovedIndex(bs: seq<nat>, i: nat)
    requires i < |bs|
    ensures |Removed(bs, i)| == |bs| - 1
    ensures forall j {:trigger Removed(bs, i)[j]} :: 0 <= j < |bs| - 1 ==>
      Removed(bs, i)[j] == if j < i then bs[j] else bs[j + 1]
  {
  }

  lemma InsertedMember(bs: seq<nat>, i: nat, p: nat, x: nat)
    requires i < |bs|
    ensures x in Inserted(bs, i, p) <==> x in bs || x == p
  {
    assert bs == bs[..i + 1] + bs[i + 1..];
  }

  lemma RemovedMember(bs: seq<nat>, i: nat, x: nat)
    requires i < |bs| && Distinct(bs)
    ensures x in Removed(bs, i) <==> x in bs && x != bs[i]
  {
    RemovedIndex(bs, i);
    var cs := Removed(bs, i);
    hide Removed;
    if x in bs && x != bs[i] {
      var j :| 0 <= j < |bs| && bs[j] == x;
      assert cs[if j < i then j else j - 1] == x;
    }
    if x in cs {
      var j :| 0 <= j < |cs| && cs[j] == x;
      assert bs[if j < i then j else j + 1] == x;
    }
  }

  // ---------- splitting and merging blocks ----------

  /** Block j of m', after the link between blocks lo and hi was redirected to next and to prev. */
  ghost predicate RelinkedAt(m: seq<Word>, m': seq<Word>, bs: seq<nat>, lo: nat, hi: nat, next: int, prev: int, j: nat)
    requires j < |bs|
  {
    && bs[j] < |m| == |m'| && m[bs[j]].Item? && var w, w' := m[bs[j]], m'[bs[j]];
    && w'.Item? && w'.used == w.used
    && w'.next == (if j == lo then next else w.next)
    && w'.prev == (if j == hi then prev else w.prev)
  }

  ghost predicate Relinked(m: seq<Word>, m': seq<Word>, bs: seq<nat>, lo: nat, hi: nat, next: int, prev: int)
    requires Headers(m, bs) && lo < hi < |bs|
  {
    |m'| == |m| && forall j {:trigger RelinkedAt(m, m', bs, lo, hi, next, prev, j)} ::
      0 <= j < |bs| && (j <= lo || j >= hi) ==> RelinkedAt(m, m', bs, lo, hi, next, prev, j)
  }

  lemma OrderedInserted(bs: seq<nat>, tailer: int, i: nat, p: nat)
    requires Ordered(bs, tailer) && i < |bs| - 1 && bs[i] + HEADER <= p && p + HEADER <= bs[i + 1]
    ensures Ordered(Inserted(bs, i, p), tailer)
  {
    InsertedIndex(bs, i, p);
    var cs := Inserted(bs, i, p);
    hide Inserted;
    forall j, k | 0 <= j < k < |cs|
      ensures cs[j] + HEADER <= cs[k]
    {
      assert j <= i ==> bs[j] <= bs[i];
      assert k > i + 1 ==> bs[k - 1] >= bs[i + 1];
    }
  }

  lemma OrderedRemoved(bs: seq<nat>, tailer: int, i: nat)
    requires Ordered(bs, tailer) && 0 < i < |bs| - 1
    ensures Ordered(Removed(bs, i), tailer)
  {
    RemovedIndex(bs, i);
    hide Removed;
  }

  /** A new header at p, between block i and the one after it. */
  lemma SplitTiles(m: seq<Word>, m': seq<Word>, bs: seq<nat>, i: nat, p: nat)
    requires Tiles(m, bs)
    requires i < |bs| - 1 && bs[i] + HEADER <= p && p + HEADER <= bs[i + 1]
    requires Relinked(m, m', bs, i, i + 1, p, p)
    requires p < |m| && m'[p].Item? && m'[p].next == bs[i + 1] && m'[p].prev == bs[i]
    ensures Tiles(m', Inserted(bs, i, p))
  {
    OrderedInserted(bs, Tailer(m), i, p);
    InsertedIndex(bs, i, p);
    var cs := Inserted(bs, i, p);
    hide Inserted;
    forall j | 0 <= j < |cs|
      ensures LinkedAt(m', cs, j)
    {
      if j != i + 1 {
        var k := if j <= i then j else j - 1;
        assert LinkedAt(m, bs, k) && RelinkedAt(m, m', bs, i, i + 1, p, p, k);
      }
    }
    ChainTiles(m', cs);
  }

  /** The header of block i dropped from the list: the block before it takes its room. */
  lemma MergeTiles(m: seq<Word>, m': seq<Word>, bs: seq<nat>, i: nat)
    requires Tiles(m, bs) && 0 < i < |bs| - 1
    requires Relinked(m, m', bs, i - 1, i + 1, bs[i + 1], bs[i - 1])
    ensures Tiles(m', Removed(bs, i))
  {
    OrderedRemoved(bs, Tailer(m), i);
    RemovedIndex(bs, i);
    var cs := Removed(bs, i);
    hide Removed;
    forall j | 0 <= j < |cs|
      ensures LinkedAt(m', cs, j)
    {
      var k := if j < i then j else j + 1;
      assert LinkedAt(m, bs, k) && RelinkedAt(m, m', bs, i - 1, i + 1, bs[i + 1], bs[i - 1], k);
    }
    ChainTiles(m', cs);
  }

  /** The two writes that take block i off the block list. */
  ghost function Dropped(m: seq<Word>, h: nat, next: nat): seq<Word>
    requires h < |m| && m[h].Item? && next < |m| && m[next].Item? && h != next
  {
    m[h := m[h].(next := next)][next := m[next].(prev := h)]
  }

  lemma DroppedTiles(m: seq<Word>, bs: seq<nat>, fs: seq<nat>, i: nat)
    requires Tiles(m, bs) && Ring(m, fs) && 0 < i < |bs| - 1
    ensures bs[i - 1] < bs[i + 1] < |m| && m[bs[i - 1]].Item? && m[bs[i]].next == bs[i + 1] && m[bs[i + 1]].Item?
    ensures var m' := Dropped(m, bs[i - 1], bs[i + 1]); Tiles(m', Removed(bs, i)) && Ring(m', fs)
  {
    var lo, hi := i - 1, i + 1;
    assert LinkedAt(m, bs, lo) && LinkedAt(m, bs, i) && LinkedAt(m, bs, hi);
    var m' := Dropped(m, bs[lo], bs[hi]);
    assert Relinked(m, m', bs, lo, hi, bs[hi], bs[lo]) by {
      forall j | 0 <= j < |bs| && (j <= lo || j >= hi)
        ensures RelinkedAt(m, m', bs, lo, hi, bs[hi], bs[lo], j)
      {
        assert LinkedAt(m, bs, j);
      }
    }
    RingKept(m, m', fs);
    hide Relinked, Dropped, Chain, Cycle, Removed;
    MergeTiles(m, m', bs, i);
  }

  /** The two writes that put a header already standing at p on the block list. */
  ghost function Added(m: seq<Word>, h: nat, p: nat, next: nat): seq<Word>
    requires h < |m| && m[h].Item? && next < |m| && m[next].Item? && h != next
  {
    m[next := m[next].(prev := p)][h := m[h].(next := p)]
  }

  lemma AddedTiles(m: seq<Word>, m1: seq<Word>, bs: seq<nat>, fs: seq<nat>, i: nat, p: nat)
    requires Tiles(m, bs) && Ring(m, fs) && i < |bs| - 1 && bs[i] + HEADER <= p && p + HEADER <= bs[i + 1]
    requires forall x :: x in fs && x < p + HEADER ==> x in bs
    requires |m1| == |m| && forall k :: 0 <= k < |m| && !(p <= k < p + HEADER) ==> m1[k] == m[k]
    requires p < |m| && m1[p].Item? && m1[p].next == bs[i + 1] && m1[p].prev == bs[i]
    ensures bs[i] < bs[i + 1] < |m1| && m1[bs[i]].Item? && m1[bs[i + 1]].Item?
    ensures var m' := Added(m1, bs[i], p, bs[i + 1]); Tiles(m', Inserted(bs, i, p)) && Ring(m', fs)
  {
    var hi := i + 1;
    forall b | b in bs
      ensures m1[b] == m[b]
    {
      var j :| 0 <= j < |bs| && bs[j] == b;
    }
    var m' := Added(m1, bs[i], p, bs[hi]);
    forall j | 0 <= j < |bs|
      ensures RelinkedAt(m, m', bs, i, hi, p, p, j)
    {
      assert LinkedAt(m, bs, j);
    }
    SplitTiles(m, m', bs, i, p);
    RingKept(m, m', fs);
  }

  // ---------- unlinking from and linking into the free list ----------

  /** Entry j of the ring after entry i was bypassed. */
  ghost predicate BypassedAt(m: seq<Word>, m': seq<Word>, fs: seq<nat>, i: nat, j: nat)
    requires i < |fs| && j < |fs|
  {
    && fs[j] < |m| == |m'| && m[fs[j]].Item? && var w, w' := m[fs[j]], m'[fs[j]];
    && w'.Item?
    && w'.nextFree == (if j == (if i == 0 then |fs| - 1 else i - 1) then (if i + 1 == |fs| then fs[0] else fs[i + 1])
      else w.nextFree)
    && w'.prevFree == (if j == (if i + 1 == |fs| then 0 else i + 1) then (if i == 0 then fs[|fs| - 1] else fs[i - 1])
      else w.prevFree)
  }

  lemma UnlinkRing(m: seq<Word>, m': seq<Word>, fs: seq<nat>, i: nat)
    requires Ring(m, fs) && 0 < i < |fs| && |m'| == |m|
    requires forall j {:trigger BypassedAt(m, m', fs, i, j)} :: 0 <= j < |fs| && j != i ==> BypassedAt(m, m', fs, i, j)
    ensures Ring(m', Removed(fs, i))
  {
    RemovedIndex(fs, i);
    var gs := Removed(fs, i);
    hide Removed;
    forall j | 0 <= j < |gs|
      ensures RingAt(m', gs, j)
    {
      var k := if j < i then j else j + 1;
      assert RingAt(m, fs, k) && BypassedAt(m, m', fs, i, k);
    }
    CycleRing(m', gs);
  }

  /** Entry j of the ring after x came in right behind the header. */
  ghost predicate PrecededAt(m: seq<Word>, m': seq<Word>, fs: seq<nat>, x: nat, j: nat)
    requires j < |fs|
  {
    && fs[j] < |m| == |m'| && m[fs[j]].Item? && var w, w' := m[fs[j]], m'[fs[j]];
    && w'.Item?
    && w'.nextFree == (if j == 0 then x else w.nextFree)
    && w'.prevFree == (if j == (if |fs| == 1 then 0 else 1) then x else w.prevFree)
  }

  lemma LinkRing(m: seq<Word>, m': seq<Word>, fs: seq<nat>, x: nat)
    requires Ring(m, fs) && x !in fs && |m'| == |m|
    requires forall j {:trigger PrecededAt(m, m', fs, x, j)} :: 0 <= j < |fs| ==> PrecededAt(m, m', fs, x, j)
    requires x < |m| && m'[x].Item? && m'[x].prevFree == fs[0] && m'[x].nextFree == (if |fs| == 1 then fs[0] else fs[1])
    ensures Ring(m', Inserted(fs, 0, x))
  {
    InsertedIndex(fs, 0, x);
    var gs := Inserted(fs, 0, x);
    hide Inserted;
    forall j | 0 <= j < |gs|
      ensures RingAt(m', gs, j)
    {
      if j != 1 {
        var k := if j == 0 then 0 else j - 1;
        assert RingAt(m, fs, k) && PrecededAt(m, m', fs, x, k);
      }
    }
    CycleRing(m', gs);
  }

  // ---------- the blocks in use, and the sum of free payloads ----------

  /** The blocks users hold: header offset to payload size in words. */
  ghost function Live(m: seq<Word>, bs: seq<nat>): map<nat, int> {
    map b | b in bs && b < Tailer(m) && m[b].Item? && m[b].used :: Size(m, b)
  }

  lemma LiveIs(m: seq<Word>, bs: seq<nat>, want: map<nat, int>)
    requires Headers(m, bs)
    requires forall b :: b in want <==> b in bs && b < Tailer(m) && m[b].used
    requires forall b :: b in want ==> want[b] == Size(m, b)
    ensures Live(m, bs) == want
  {
  }

  /** What block b adds to the free payload. */
  ghost function Own(m: seq<Word>, b: nat): int {
    if b < |m| && m[b].Item? && !m[b].used then Size(m, b) else 0
  }

  ghost function FreeWords(m: seq<Word>, bs: seq<nat>): int {
    if bs == [] then 0 else Own(m, bs[0]) + FreeWords(m, bs[1..])
  }

  lemma {:induction false} FreeWordsAppend(m: seq<Word>, a: seq<nat>, b: seq<nat>)
    ensures FreeWords(m, a + b) == FreeWords(m, a) + FreeWords(m, b)
  {
    if a == [] {
      assert a + b == b;
    } else {
      assert (a + b)[1..] == a[1..] + b;
      FreeWordsAppend(m, a[1..], b);
    }
  }

  lemma {:induction false} FreeWordsKept(m: seq<Word>, m': seq<Word>, a: seq<nat>)
    requires forall x :: x in a ==> Own(m', x) == Own(m, x)
    ensures FreeWords(m', a) == FreeWords(m, a)
  {
    if a != [] {
      assert a[0] in a && forall x :: x in a[1..] ==> x in a;
      FreeWordsKept(m, m', a[1..]);
    }
  }

  lemma FreeWordsAt(m: seq<Word>, bs: seq<nat>, i: nat)
    requires i < |bs|
    ensures FreeWords(m, bs) == FreeWords(m, bs[..i]) + Own(m, bs[i]) + FreeWords(m, bs[i + 1..])
  {
    var rest := [bs[i]] + bs[i + 1..];
    assert bs == bs[..i] + rest && rest[1..] == bs[i + 1..];
    FreeWordsAppend(m, bs[..i], rest);
  }

  lemma FreeWordsChanged(m: seq<Word>, m': seq<Word>, bs: seq<nat>, i: nat)
    requires i < |bs| && Distinct(bs) && forall b :: b in bs && b != bs[i] ==> Own(m', b) == Own(m, b)
    ensures FreeWords(m', bs) == FreeWords(m, bs) - Own(m, bs[i]) + Own(m', bs[i])
  {
    FreeWordsAt(m, bs, i);
    FreeWordsAt(m', bs, i);
    assert bs[i] !in bs[..i] && bs[i] !in bs[i + 1..];
    FreeWordsKept(m, m', bs[..i]);
    FreeWordsKept(m, m', bs[i + 1..]);
  }

  lemma FreeWordsInserted(m: seq<Word>, bs: seq<nat>, i: nat, p: nat)
    requires i < |bs|
    ensures FreeWords(m, Inserted(bs, i, p)) == FreeWords(m, bs) + Own(m, p)
  {
    var cs := Inserted(bs, i, p);
    assert bs == bs[..i + 1] + bs[i + 1..];
    assert cs[..i + 1] == bs[..i + 1] && cs[i + 2..] == bs[i + 1..] && cs[i + 1] == p;
    FreeWordsAppend(m, bs[..i + 1], bs[i + 1..]);
    FreeWordsAt(m, cs, i + 1);
  }

  lemma FreeWordsRemoved(m: seq<Word>, bs: seq<nat>, i: nat)
    requires i < |bs|
    ensures FreeWords(m, Removed(bs, i)) == FreeWords(m, bs) - Own(m, bs[i])
  {
    FreeWordsAt(m, bs, i);
    FreeWordsAppend(m, bs[..i], bs[i + 1..]);
  }

  // ---------- the whole layout, also halfway through an operation ----------

  /** The free list holds exactly the blocks not in use; the blocks in pend are exempt. */
  ghost predicate FreeBut(m: seq<Word>, bs: seq<nat>, fs: seq<nat>, pend: set<nat>)
    requires Headers(m, bs) && fs != []
  {
    forall x :: x !in pend ==> (x in fs[1..] <==> x in bs && !m[x].used)
  }

  /** No two neighbours are both free; pairs with the block loose are exempt. */
  ghost predicate ApartBut(m: seq<Word>, bs: seq<nat>, loose: int) {
    forall j {:trigger ApartAt(m, bs, j)} :: 0 <= j < |bs| - 1 && bs[j] != loose && bs[j + 1] != loose ==>
      ApartAt(m, bs, j)
  }

  ghost predicate ApartAt(m: seq<Word>, bs: seq<nat>, j: nat)
    requires j + 1 < |bs|
  {
    && bs[j] < |m| && m[bs[j]].Item? && bs[j + 1] < |m| && m[bs[j + 1]].Item?
    && (m[bs[j]].used || m[bs[j + 1]].used)
  }

  ghost predicate Midway(m: seq<Word>, bs: seq<nat>, fs: seq<nat>, pend: set<nat>, loose: int) {
    Tiles(m, bs) && Ring(m, fs) && FreeBut(m, bs, fs, pend) && ApartBut(m, bs, loose)
  }

  /** Between two calls: no exemptions. */
  ghost predicate Layout(m: seq<Word>, bs: seq<nat>, fs: seq<nat>) { Midway(m, bs, fs, {}, NULL) }

  lemma OrderedDistinct(bs: seq<nat>, tailer: int)
    requires Ordered(bs, tailer)
    ensures Distinct(bs)
  {
  }

  lemma {:induction false} TailOfInserted(fs: seq<nat>, x: nat, y: nat)
    requires fs != []
    ensures y in Inserted(fs, 0, x)[1..] <==> y == x || y in fs[1..]
  {
    assert Inserted(fs, 0, x)[1..] == [x] + fs[1..];
  }

  lemma TailOfRemoved(fs: seq<nat>, j: nat, y: nat)
    requires 0 < j < |fs| && Distinct(fs)
    ensures y in Removed(fs, j)[1..] <==> y in fs[1..] && y != fs[j]
  {
    var gs := fs[1..];
    assert Removed(fs, j)[1..] == Removed(gs, j - 1);
    RemovedMember(gs, j - 1, y);
  }

  lemma LinksApart(m: seq<Word>, m': seq<Word>, bs: seq<nat>, loose: int, any: seq<nat>)
    requires ApartBut(m, bs, loose) && FreeLinksOnly(m, m', any)
    ensures ApartBut(m', bs, loose)
  {
    forall j | 0 <= j < |bs| - 1 && bs[j] != loose && bs[j + 1] != loose
      ensures ApartAt(m', bs, j)
    {
      assert ApartAt(m, bs, j);
    }
  }

  /** Only free-list links change: the blocks stay what they are. */
  lemma LinksStep(m: seq<Word>, m': seq<Word>, bs: seq<nat>, fs: seq<nat>, gs: seq<nat>, pend: set<nat>, loose: int,
        any: seq<nat>)
    requires Midway(m, bs, fs, pend, loose) && FreeLinksOnly(m, m', any) && Ring(m', gs)
    requires forall x :: x !in pend ==> (x in gs[1..] <==> x in fs[1..])
    ensures Midway(m', bs, gs, pend, loose) && Live(m', bs) == Live(m, bs) && FreeWords(m', bs) == FreeWords(m, bs)
  {
    hide Chain, Cycle, ApartBut;
    TilesKept(m, m', bs);
    LinksApart(m, m', bs, loose, any);
    LiveIs(m', bs, Live(m, bs));
    FreeWordsKept(m, m', bs);
  }

  lemma RemovedTail(fs: seq<nat>, j: nat)
    requires 0 < j < |fs| && Distinct(fs)
    ensures fs[j] !in Removed(fs, j) && forall x :: x != fs[j] ==> (x in Removed(fs, j)[1..] <==> x in fs[1..])
  {
    RemovedMember(fs, j, fs[j]);
    forall x: nat | x != fs[j]
      ensures x in Removed(fs, j)[1..] <==> x in fs[1..]
    {
      TailOfRemoved(fs, j, x);
    }
  }

  lemma InsertedTail(fs: seq<nat>, x: nat)
    requires fs != []
    ensures x in Inserted(fs, 0, x)[1..] && forall y :: y != x ==> (y in Inserted(fs, 0, x)[1..] <==> y in fs[1..])
  {
    forall y: nat
      ensures y in Inserted(fs, 0, x)[1..] <==> y == x || y in fs[1..]
    {
      TailOfInserted(fs, x, y);
    }
  }

  /** A free block that came onto the list is no longer exempt. */
  lemma Linked(m: seq<Word>, bs: seq<nat>, fs: seq<nat>, pend: set<nat>, loose: int, x: nat)
    requires Midway(m, bs, fs, pend, loose) && x in fs[1..] && x in bs && !m[x].used
    ensures Midway(m, bs, fs, pend - {x}, loose)
  {
  }

  /** All blocks of bs but x keep their flag and their successor. */
  ghost predicate SameFlags(m: seq<Word>, m': seq<Word>, bs: seq<nat>, x: nat) {
    |m'| == |m| && forall b :: b in bs && b != x ==>
      b < |m| && m[b].Item? && m'[b].Item? && m'[b].used == m[b].used && m'[b].next == m[b].next
  }

  /** The used flag of block i set to u. */
  ghost function Marked(m: seq<Word>, h: nat, u: bool): seq<Word>
    requires h < |m| && m[h].Item?
  {
    m[h := m[h].(used := u)]
  }

  lemma MarkedTiles(m: seq<Word>, bs: seq<nat>, fs: seq<nat>, i: nat, u: bool)
    requires Tiles(m, bs) && Ring(m, fs) && i < |bs| - 1
    ensures Tiles(Marked(m, bs[i], u), bs) && Ring(Marked(m, bs[i], u), fs)
  {
    var m' := Marked(m, bs[i], u);
    forall j | 0 <= j < |bs|
      ensures LinkedAt(m', bs, j)
    {
      assert LinkedAt(m, bs, j);
    }
    ChainTiles(m', bs);
    RingKept(m, m', fs);
  }

  lemma MarkStep(m: seq<Word>, bs: seq<nat>, fs: seq<nat>, i: nat, u: bool, pend: set<nat>, loose: int)
    requires Midway(m, bs, fs, pend, loose) && i < |bs| - 1 && bs[i] in pend && loose == bs[i]
    ensures var m' := Marked(m, bs[i], u);
            && Midway(m', bs, fs, pend, loose)
            && Live(m', bs) == (if u then Live(m, bs)[bs[i] := Size(m, bs[i])] else Live(m, bs) - {bs[i]})
            && FreeWords(m', bs) == FreeWords(m, bs) - Own(m, bs[i]) + (if u then 0 else Size(m, bs[i]))
  {
    OrderedDistinct(bs, Tailer(m));
    MarkedTiles(m, bs, fs, i, u);
    var m' := Marked(m, bs[i], u);
    assert bs[i] < Tailer(m);
    LiveIs(m', bs, if u then Live(m, bs)[bs[i] := Size(m, bs[i])] else Live(m, bs) - {bs[i]});
    hide Chain, Cycle, Live;
    forall j | 0 <= j < |bs| - 1 && bs[j] != loose && bs[j + 1] != loose
      ensures ApartAt(m', bs, j)
    {
      assert ApartAt(m, bs, j);
    }
    FreeWordsChanged(m, m', bs, i);
  }

  // ---------- a new free block at p in the room of block i ----------

  ghost predicate IsSplit(m: seq<Word>, m': seq<Word>, bs: seq<nat>, i: nat, p: nat) {
    && Tiles(m, bs) && i < |bs| - 1 && bs[i] < p < bs[i + 1] && Tiles(m', Inserted(bs, i, p))
    && SameFlags(m, m', bs, bs[i])
    && bs[i] < |m| && m[bs[i]].Item? && m'[bs[i]].Item? && m'[bs[i]].used == m[bs[i]].used && m'[bs[i]].next == p
    && p < |m| && m'[p].Item? && !m'[p].used && m'[p].next == bs[i + 1]
  }

  /** The whole step: a header written at p, then put on the block list. */
  lemma AddedStep(m: seq<Word>, m1: seq<Word>, bs: seq<nat>, fs: seq<nat>, i: nat, p: nat, pend: set<nat>, loose: int)
    requires Midway(m, bs, fs, pend, loose) && forall x :: x in pend ==> x in bs
    requires i < |bs| - 1 && bs[i] + HEADER <= p && p + HEADER <= bs[i + 1] < |m|
    requires m[bs[i + 1]].Item? && (loose == p || (loose == bs[i] && m[bs[i + 1]].used))
    requires |m1| == |m| && forall k :: 0 <= k < |m| && !(p <= k < p + HEADER) ==> m1[k] == m[k]
    requires m1[p].Item? && !m1[p].used && m1[p].next == bs[i + 1] && m1[p].prev == bs[i]
    ensures p !in bs && p !in fs && m1[bs[i]] == m[bs[i]] && m1[bs[i]].Item? && m1[bs[i + 1]] == m[bs[i + 1]]
        && m1[bs[i + 1]].Item?
    ensures var m' := Added(m1, bs[i], p, bs[i + 1]);
            IsSplit(m, m', bs, i, p) && Midway(m', Inserted(bs, i, p), fs, pend + {p}, loose)
  {
    var hi := i + 1;
    hide FreeBut, ApartBut, Inserted;
    assert LinkedAt(m, bs, i) && LinkedAt(m, bs, hi);
    Among(m, bs, fs, pend, loose);
    BetweenHeaders(bs, Tailer(m), i, p);
    AddedTiles(m, m1, bs, fs, i, p);
    UntouchedHeaders(m, m1, bs, i, p);
    hide Chain, Cycle, LinkedAt, Ordered;
    var m' := Added(m1, bs[i], p, bs[i + 1]);
    assert IsSplit(m, m', bs, i, p);
    SplitStep(m, m', bs, fs, i, p, pend, loose);
  }

  /** A header written between two blocks touches no other header. */
  lemma UntouchedHeaders(m: seq<Word>, m1: seq<Word>, bs: seq<nat>, i: nat, p: nat)
    requires Tiles(m, bs) && i < |bs| - 1 && bs[i] + HEADER <= p && p + HEADER <= bs[i + 1]
    requires |m1| == |m| && forall k :: 0 <= k < |m| && !(p <= k < p + HEADER) ==> m1[k] == m[k]
    ensures forall b :: b in bs ==> m1[b] == m[b]
  {
    forall b | b in bs
      ensures m1[b] == m[b]
    {
      var j :| 0 <= j < |bs| && bs[j] == b;
    }
  }

  lemma SplitMembers(m: seq<Word>, m': seq<Word>, bs: seq<nat>, i: nat, p: nat)
    requires IsSplit(m, m', bs, i, p)
    ensures p !in bs && p < Tailer(m) && bs[i] < Tailer(m) && m[bs[i]].next == bs[i + 1]
    ensures forall x :: x in Inserted(bs, i, p) <==> x in bs || x == p
  {
    assert LinkedAt(m, bs, i);
    forall x: nat
      ensures x in Inserted(bs, i, p) <==> x in bs || x == p
    {
      InsertedMember(bs, i, p, x);
    }
  }

  lemma SplitApart(m: seq<Word>, m': seq<Word>, bs: seq<nat>, i: nat, p: nat, loose: int)
    requires IsSplit(m, m', bs, i, p) && ApartBut(m, bs, loose)
    requires loose == p || (loose == bs[i] && bs[i + 1] < |m'| && m'[bs[i + 1]].Item? && m'[bs[i + 1]].used)
    ensures ApartBut(m', Inserted(bs, i, p), loose)
  {
    SplitMembers(m, m', bs, i, p);
    var cs := Inserted(bs, i, p);
    InsertedIndex(bs, i, p);
    hide Inserted, Tiles;
    forall k | 0 <= k < |cs| - 1 && cs[k] != loose && cs[k + 1] != loose
      ensures ApartAt(m', cs, k)
    {
      if k < i {
        assert ApartAt(m, bs, k);
      } else if k > i + 1 {
        assert ApartAt(m, bs, k - 1);
      }
    }
  }

  lemma SplitStep(m: seq<Word>, m': seq<Word>, bs: seq<nat>, fs: seq<nat>, i: nat, p: nat, pend: set<nat>, loose: int)
    requires Midway(m, bs, fs, pend, loose) && IsSplit(m, m', bs, i, p) && Ring(m', fs)
    requires loose == p || (loose == bs[i] && bs[i + 1] < |m'| && m'[bs[i + 1]].Item? && m'[bs[i + 1]].used)
    ensures Midway(m', Inserted(bs, i, p), fs, pend + {p}, loose)
  {
    SplitMembers(m, m', bs, i, p);
    SplitApart(m, m', bs, i, p, loose);
    hide Inserted, Chain, Cycle, ApartBut;
  }

  lemma SplitLive(m: seq<Word>, m': seq<Word>, bs: seq<nat>, i: nat, p: nat)
    requires IsSplit(m, m', bs, i, p)
    ensures Live(m', Inserted(bs, i, p)) ==
        if m[bs[i]].used then Live(m, bs)[bs[i] := p - bs[i] - HEADER] else Live(m, bs)
  {
    SplitMembers(m, m', bs, i, p);
    hide Inserted, Chain;
    LiveIs(m', Inserted(bs, i, p), if m[bs[i]].used then Live(m, bs)[bs[i] := p - bs[i] - HEADER] else Live(m, bs));
  }

  lemma SplitWords(m: seq<Word>, m': seq<Word>, bs: seq<nat>, i: nat, p: nat)
    requires IsSplit(m, m', bs, i, p)
    ensures FreeWords(m', Inserted(bs, i, p)) == FreeWords(m, bs) +
        if m[bs[i]].used then bs[i + 1] - p - HEADER else 0 - HEADER
  {
    OrderedDistinct(bs, Tailer(m));
    SplitMembers(m, m', bs, i, p);
    FreeWordsInserted(m', bs, i, p);
    hide Inserted, Chain;
    FreeWordsChanged(m, m', bs, i);
  }

  // ---------- block i dropped: the block before it takes its room ----------

  ghost predicate IsDrop(m: seq<Word>, m': seq<Word>, bs: seq<nat>, i: nat) {
    && Tiles(m, bs) && 0 < i < |bs| - 1 && Tiles(m', Removed(bs, i))
    && bs[i] < |m| && m[bs[i]].Item? && !m[bs[i]].used && var h := bs[i - 1];
    && SameFlags(m, m', Removed(bs, i), h)
    && h < |m| && m[h].Item? && m'[h].Item? && m'[h].used == m[h].used && m'[h].next == bs[i + 1]
  }

  lemma DroppedFlags(m: seq<Word>, bs: seq<nat>, i: nat)
    requires Tiles(m, bs) && 0 < i < |bs| - 1
    ensures bs[i - 1] < bs[i] < bs[i + 1] && m[bs[i]].next == bs[i + 1]
    ensures SameFlags(m, Dropped(m, bs[i - 1], bs[i + 1]), Removed(bs, i), bs[i - 1])
  {
    assert LinkedAt(m, bs, i);
    OrderedDistinct(bs, Tailer(m));
    forall b | b in Removed(bs, i) && b != bs[i - 1]
      ensures b in bs
    {
      RemovedMember(bs, i, b);
    }
  }

  lemma DropMembers(m: seq<Word>, m': seq<Word>, bs: seq<nat>, i: nat)
    requires IsDrop(m, m', bs, i)
    ensures Distinct(bs) && bs[i - 1] < Tailer(m) && m[bs[i]].next == bs[i + 1] && m[bs[i - 1]].next == bs[i]
    ensures forall x :: x in Removed(bs, i) <==> x in bs && x != bs[i]
  {
    var lo := i - 1;
    assert LinkedAt(m, bs, i) && LinkedAt(m, bs, lo);
    OrderedDistinct(bs, Tailer(m));
    forall x: nat
      ensures x in Removed(bs, i) <==> x in bs && x != bs[i]
    {
      RemovedMember(bs, i, x);
    }
  }

  lemma DropApartAt(m: seq<Word>, m': seq<Word>, bs: seq<nat>, i: nat, k: nat)
    requires IsDrop(m, m', bs, i) && k < |bs| - 2 && k != i - 1 && k != i - 2
    requires var j := if k < i then k else k + 1; ApartAt(m, bs, j)
    ensures |Removed(bs, i)| == |bs| - 1 && ApartAt(m', Removed(bs, i), k)
  {
    DropMembers(m, m', bs, i);
    RemovedIndex(bs, i);
    var cs := Removed(bs, i);
    hide Removed, Tiles;
    assert cs[k] in cs && cs[k + 1] in cs;
  }

  lemma DropApart(m: seq<Word>, m': seq<Word>, bs: seq<nat>, i: nat, loose: int)
    requires IsDrop(m, m', bs, i) && ApartBut(m, bs, loose)
    requires loose == bs[i] || loose == bs[i - 1] || loose == NULL
    ensures ApartBut(m', Removed(bs, i), bs[i - 1])
  {
    DropMembers(m, m', bs, i);
    var cs := Removed(bs, i);
    RemovedIndex(bs, i);
    hide Removed, IsDrop;
    forall k | 0 <= k < |cs| - 1 && cs[k] != bs[i - 1] && cs[k + 1] != bs[i - 1]
      ensures ApartAt(m', cs, k)
    {
      var j := if k < i then k else k + 1;
      assert ApartAt(m, bs, j);
      DropApartAt(m, m', bs, i, k);
    }
  }

  lemma DropStep(m: seq<Word>, m': seq<Word>, bs: seq<nat>, fs: seq<nat>, i: nat, pend: set<nat>, loose: int)
    requires Midway(m, bs, fs, pend, loose) && IsDrop(m, m', bs, i) && bs[i] in pend && Ring(m', fs)
    requires loose == bs[i] || loose == bs[i - 1] || loose == NULL
    ensures Midway(m', Removed(bs, i), fs, pend, bs[i - 1])
  {
    DropMembers(m, m', bs, i);
    DropApart(m, m', bs, i, loose);
    hide Removed, Chain, Cycle, ApartBut;
  }

  lemma DropLive(m: seq<Word>, m': seq<Word>, bs: seq<nat>, i: nat)
    requires IsDrop(m, m', bs, i)
    ensures m[bs[i - 1]].used ==> Live(m', Removed(bs, i)) == Live(m, bs)[bs[i - 1] := bs[i + 1] - bs[i - 1] - HEADER]
    ensures !m[bs[i - 1]].used ==> Live(m', Removed(bs, i)) == Live(m, bs)
  {
    DropMembers(m, m', bs, i);
    var h := bs[i - 1];
    hide Removed, Chain;
    if m[h].used {
      DropLiveUsed(m, m', bs, i);
    } else {
      LiveIs(m', Removed(bs, i), Live(m, bs));
    }
  }

  lemma DropLiveUsed(m: seq<Word>, m': seq<Word>, bs: seq<nat>, i: nat)
    requires IsDrop(m, m', bs, i) && m[bs[i - 1]].used
    ensures Live(m', Removed(bs, i)) == Live(m, bs)[bs[i - 1] := bs[i + 1] - bs[i - 1] - HEADER]
  {
    DropMembers(m, m', bs, i);
    hide Removed, Chain;
    LiveIs(m', Removed(bs, i), Live(m, bs)[bs[i - 1] := bs[i + 1] - bs[i - 1] - HEADER]);
  }

  lemma DropWords(m: seq<Word>, m': seq<Word>, bs: seq<nat>, i: nat)
    requires IsDrop(m, m', bs, i)
    ensures FreeWords(m', Removed(bs, i)) == FreeWords(m, bs) + if m[bs[i - 1]].used then 0 - Size(m, bs[i]) else HEADER
  {
    hide IsDrop, Removed, Chain, Distinct, FreeWords, Own;
    DropOwn(m, m', bs, i);
    FreeWordsRemoved(m, bs, i);
    FreeWordsChanged(m, m', Removed(bs, i), i - 1);
  }

  /** What each block has of free words, before and after. */
  lemma DropOwn(m: seq<Word>, m': seq<Word>, bs: seq<nat>, i: nat)
    requires IsDrop(m, m', bs, i)
    ensures 0 < i < |bs| && |Removed(bs, i)| == |bs| - 1 && Removed(bs, i)[i - 1] == bs[i - 1]
        && Distinct(Removed(bs, i))
    ensures forall b :: b in Removed(bs, i) && b != bs[i - 1] ==> Own(m', b) == Own(m, b)
    ensures bs[i] < |m| && m[bs[i]].Item? && bs[i - 1] < |m| && m[bs[i - 1]].Item?
    ensures Own(m', bs[i - 1]) - Own(m, bs[i - 1]) - Own(m, bs[i])
         == if m[bs[i - 1]].used then 0 - Size(m, bs[i]) else HEADER
  {
    DropMembers(m, m', bs, i);
    RemovedIndex(bs, i);
    OrderedDistinct(Removed(bs, i), Tailer(m'));
    hide Removed, Chain, Distinct;
  }

  // ---------- between the steps ----------

  /** More exemptions are always allowed. */
  lemma Relax(m: seq<Word>, bs: seq<nat>, fs: seq<nat>, pend: set<nat>, loose: int)
    requires Layout(m, bs, fs)
    ensures Midway(m, bs, fs, pend, loose)
  {
  }

  /** The operation is over: the exempt blocks meet what they were exempt from. */
  lemma Settle(m: seq<Word>, bs: seq<nat>, fs: seq<nat>, pend: set<nat>, loose: int, i: nat)
    requires Midway(m, bs, fs, pend, loose) && i < |bs| - 1 && bs[i] == loose
    requires forall x :: x in pend ==> (x in fs[1..] <==> x in bs && !m[x].used)
    requires m[bs[i]].used || (m[bs[i + 1]].used && (i > 0 ==> m[bs[i - 1]].used))
    ensures Layout(m, bs, fs)
  {
    OrderedDistinct(bs, Tailer(m));
    forall j | 0 <= j < |bs| - 1
      ensures ApartAt(m, bs, j)
    {
      if bs[j] != loose && bs[j + 1] != loose {
        assert ApartAt(m, bs, j);
      }
    }
  }

  /** The free list runs through block headers and exempt ones only. */
  lemma Among(m: seq<Word>, bs: seq<nat>, fs: seq<nat>, pend: set<nat>, loose: int)
    requires Midway(m, bs, fs, pend, loose)
    ensures forall x :: x in fs ==> x == FreeHeader(m) || x in bs || x in pend
  {
    assert fs == [fs[0]] + fs[1..];
  }

  /** A block in use is not on the free list, a free one is: its place in both lists. */
  lemma Place(m: seq<Word>, bs: seq<nat>, fs: seq<nat>, b: nat) returns (i: nat, j: nat)
    requires Layout(m, bs, fs) && b in bs && b < Tailer(m)
    ensures m[b].Item? && i < |bs| - 1 && bs[i] == b && b + HEADER <= m[b].next == bs[i + 1] <= Tailer(m)
        && m[bs[i + 1]].Item?
    ensures b in Live(m, bs) <==> m[b].used
    ensures if m[b].used then b !in fs else 0 < j < |fs| && fs[j] == b
  {
    i :| 0 <= i < |bs| && bs[i] == b;
    assert LinkedAt(m, bs, i) && bs[i + 1] in bs;
    j := 0;
    assert fs == [fs[0]] + fs[1..];
    if !m[b].used {
      var k :| 0 <= k < |fs[1..]| && fs[1..][k] == b;
      j := k + 1;
    }
  }

  lemma NextOf(m: seq<Word>, bs: seq<nat>, i: nat)
    requires Tiles(m, bs) && i < |bs| - 1
    ensures bs[i] < bs[i] + HEADER <= bs[i + 1] <= Tailer(m) && m[bs[i]].Item? && m[bs[i]].next == bs[i + 1]
        && m[bs[i + 1]].Item?
  {
    var hi := i + 1;
    assert LinkedAt(m, bs, i) && LinkedAt(m, bs, hi);
  }

  lemma TailerUsed(m: seq<Word>, bs: seq<nat>)
    requires Tiles(m, bs)
    ensures m[Tailer(m)].Item? && m[Tailer(m)].used
  {
    var last := |bs| - 1;
    assert LinkedAt(m, bs, last);
  }

  /** The neighbours of a free block are in use. */
  lemma NeighboursUsed(m: seq<Word>, bs: seq<nat>, fs: seq<nat>, i: nat)
    requires Layout(m, bs, fs) && i < |bs| - 1 && !m[bs[i]].used
    ensures m[bs[i + 1]].used && (i > 0 ==> m[bs[i - 1]].used)
  {
    assert ApartAt(m, bs, i);
    if i > 0 {
      var k := i - 1;
      assert ApartAt(m, bs, k);
    }
  }

  /** Untouched but for the headers bs, the words from lo to hi, and the list's header. */
  ghost predicate Only(m: seq<Word>, m': seq<Word>, bs: seq<nat>, lo: nat, hi: nat) {
    |m'| == |m| && forall k: nat :: k < FreeHeader(m) && k !in bs && !(lo <= k < hi) ==> m'[k] == m[k]
  }

  /** Payload word k of the live block b. */
  ghost predicate Inside(m: seq<Word>, b: nat, k: nat) {
    b < |m| && m[b].Item? && b + HEADER <= k < m[b].next
  }

  /** The payloads of all live blocks but x are as they were. */
  ghost predicate PayloadsKept(m: seq<Word>, m': seq<Word>, bs: seq<nat>, x: int) {
    |m'| == |m| && forall b: nat, k: nat :: b in Live(m, bs) && b != x && Inside(m, b, k) ==> k < |m| && m'[k] == m[k]
  }

  lemma BetweenHeaders(bs: seq<nat>, tailer: int, j: nat, k: nat)
    requires Ordered(bs, tailer) && j + 1 < |bs| && bs[j] < k < bs[j + 1]
    ensures k !in bs
  {
  }

  lemma PayloadsUntouched(m: seq<Word>, m': seq<Word>, bs: seq<nat>, fs: seq<nat>, i: nat, lo: nat, hi: nat)
    requires Layout(m, bs, fs) && i < |bs| - 1 && bs[i] <= lo && hi <= bs[i + 1]
    requires Only(m, m', bs, lo, hi)
    ensures PayloadsKept(m, m', bs, bs[i])
  {
    forall b: nat, k: nat | b in Live(m, bs) && b != bs[i] && Inside(m, b, k)
      ensures k < |m| && m'[k] == m[k]
    {
      var j :| 0 <= j < |bs| && bs[j] == b;
      assert LinkedAt(m, bs, j);
      BetweenHeaders(bs, Tailer(m), j, k);
      assert j < i ==> j + 1 == i || bs[j + 1] + HEADER <= bs[i];
      assert j > i ==> j == i + 1 || bs[i + 1] + HEADER <= bs[j];
    }
  }

  lemma AddedEffect(m: seq<Word>, m1: seq<Word>, bs: seq<nat>, i: nat, p: nat)
    requires i < |bs| - 1 && bs[i] < bs[i + 1] < |m1| && m1[bs[i]].Item? && m1[bs[i + 1]].Item?
    requires IsSplit(m, Added(m1, bs[i], p, bs[i + 1]), bs, i, p)
    requires forall k :: 0 <= k < |m| && !(p <= k < p + HEADER) ==> m1[k] == m[k]
    ensures var m', cs := Added(m1, bs[i], p, bs[i + 1]), Inserted(bs, i, p);
            && Live(m', cs) == (if m[bs[i]].used then Live(m, bs)[bs[i] := p - bs[i] - HEADER] else Live(m, bs))
            && FreeWords(m', cs) == FreeWords(m, bs) + (if m[bs[i]].used then bs[i + 1] - p - HEADER else 0 - HEADER)
            && Only(m, m', [bs[i], bs[i + 1]], p, p + HEADER)
  {
    var m' := Added(m1, bs[i], p, bs[i + 1]);
    SplitLive(m, m', bs, i, p);
    SplitWords(m, m', bs, i, p);
    hide IsSplit, Live, FreeWords;
  }

  lemma OnlyLinks(m: seq<Word>, m1: seq<Word>, m2: seq<Word>, bs: seq<nat>, lo: nat, hi: nat, any: seq<nat>)
    requires Only(m, m1, bs, lo, hi) && FreeLinksOnly(m1, m2, any)
    requires forall x :: x in any ==> x in bs || lo <= x < hi || x >= FreeHeader(m)
    ensures Only(m, m2, bs, lo, hi)
  {
  }

  /** The first block of a list with room for n words, or NULL. */
  ghost function FirstFit(m: seq<Word>, list: seq<nat>, n: int): int
    requires Headers(m, list)
  {
    if list == [] then NULL
    else
      assert list[0] in list && forall b :: b in list[1..] ==> b in list;
      if Size(m, list[0]) >= n then list[0] else FirstFit(m, list[1..], n)
  }

  /** Where the new block and the one it was cut from stand in the lists. */
  lemma SplitLists(bs: seq<nat>, fs: seq<nat>, i: nat, p: nat)
    requires i < |bs| && fs != [] && p !in fs
    ensures |Inserted(bs, i, p)| == |bs| + 1 && Inserted(bs, i, p)[i] == bs[i] && Inserted(bs, i, p)[i + 1] == p
    ensures i + 1 < |bs| ==> Inserted(bs, i, p)[i + 2] == bs[i + 1]
    ensures bs[i] in Inserted(bs, i, p) && p in Inserted(bs, i, p)
    ensures forall x :: x in Inserted(bs, i, p) <==> x == p || x in bs
    ensures forall x :: x in Inserted(fs, 0, p) <==> x == p || x in fs
    ensures forall x :: x in Inserted(fs, 0, p)[1..] <==> x == p || x in fs[1..]
  {
    InsertedIndex(bs, i, p);
    InsertedMember(bs, i, p, bs[i]);
    InsertedMember(bs, i, p, p);
    forall x: nat
      ensures x in Inserted(fs, 0, p) <==> x == p || x in fs
      ensures x in Inserted(fs, 0, p)[1..] <==> x == p || x in fs[1..]
      ensures x in Inserted(bs, i, p) <==> x == p || x in bs
    {
      InsertedMember(bs, i, p, x);
      InsertedMember(fs, 0, p, x);
      TailOfInserted(fs, p, x);
    }
  }

  lemma RemovedLists(fs: seq<nat>, j: nat)
    requires 0 < j < |fs| && Distinct(fs)
    ensures Removed(fs, j) != [] && forall x :: x in Removed(fs, j) <==> x in fs && x != fs[j]
    ensures forall x :: x in Removed(fs, j)[1..] <==> x in fs[1..] && x != fs[j]
  {
    forall x: nat
      ensures x in Removed(fs, j) <==> x in fs && x != fs[j]
      ensures x in Removed(fs, j)[1..] <==> x in fs[1..] && x != fs[j]
    {
      RemovedMember(fs, j, x);
      TailOfRemoved(fs, j, x);
    }
  }

  lemma SameBlockAt(m1: seq<Word>, m2: seq<Word>, any: seq<nat>, b: nat)
    requires FreeLinksOnly(m1, m2, any) && b < |m1| && m1[b].Item?
    ensures SameBlock(m1[b], m2[b])
  {
  }

  lemma OnlyThese(m: seq<Word>, m1: seq<Word>, m2: seq<Word>, bs: seq<nat>, lo: nat, hi: nat, these: seq<nat>, a: nat,
        b: nat)
    requires Only(m, m1, bs, lo, hi) && Only(m1, m2, these, a, b)
    requires (forall x :: x in these ==> x in bs) && (a == b || (lo <= a && b <= hi))
    ensures Only(m, m2, bs, lo, hi)
  {
  }

  /** The words touched while a new header p comes in behind block i and the free list is relinked. */
  lemma TakeTouched(m: seq<Word>, m1: seq<Word>, m2: seq<Word>, m3: seq<Word>, bs: seq<nat>, fs: seq<nat>, i: nat,
        p: nat)
    requires Layout(m, bs, fs) && i < |bs| - 1 && bs[i] + HEADER <= p && p + HEADER <= bs[i + 1]
    requires Only(m, m1, [bs[i], bs[i + 1]], p, p + HEADER) && FreeLinksOnly(m1, m2, fs + [p])
        && Only(m2, m3, [bs[i]], 0, 0)
    ensures PayloadsKept(m, m3, bs, bs[i])
  {
    var h, next := bs[i], bs[i + 1];
    Among(m, bs, fs, {}, NULL);
    assert Only(m, m, bs, h, next) && h in bs && next in bs;
    hide Only, Layout, FreeLinksOnly;
    OnlyThese(m, m, m1, bs, h, next, [h, next], p, p + HEADER);
    OnlyLinks(m, m1, m2, bs, h, next, fs + [p]);
    OnlyThese(m, m2, m3, bs, h, next, [h], 0, 0);
    PayloadsUntouched(m, m3, bs, fs, i, h, next);
  }

  /** Only headers were touched. */
  lemma HeadersTouched(m: seq<Word>, m1: seq<Word>, m2: seq<Word>, bs: seq<nat>, fs: seq<nat>, i: nat)
    requires Layout(m, bs, fs) && i < |bs| - 1 && FreeLinksOnly(m, m1, fs) && Only(m1, m2, [bs[i]], 0, 0)
    ensures PayloadsKept(m, m2, bs, bs[i])
  {
    var h := bs[i];
    Among(m, bs, fs, {}, NULL);
    assert Only(m, m, bs, h, h) && h in bs && h <= bs[i + 1];
    hide Only, Layout, FreeLinksOnly;
    OnlyLinks(m, m, m1, bs, h, h, fs);
    OnlyThese(m, m1, m2, bs, h, h, [h], 0, 0);
    PayloadsUntouched(m, m2, bs, fs, i, h, h);
  }

  lemma LinksTwice(m: seq<Word>, m1: seq<Word>, m2: seq<Word>, a: seq<nat>, b: seq<nat>, c: seq<nat>)
    requires FreeLinksOnly(m, m1, a) && FreeLinksOnly(m1, m2, b)
    requires forall x :: x in a || x in b ==> x in c
    ensures FreeLinksOnly(m, m2, c)
  {
  }

  /** The whole step of taking the free block i off the block list. */
  lemma DroppedStep(m: seq<Word>, bs: seq<nat>, fs: seq<nat>, i: nat, pend: set<nat>, loose: int)
    requires Midway(m, bs, fs, pend, loose) && 0 < i < |bs| - 1 && bs[i] in pend && !m[bs[i]].used
    requires loose == bs[i] || loose == bs[i - 1] || loose == NULL
    ensures bs[i - 1] < bs[i] < bs[i + 1] <= Tailer(m)
    ensures m[bs[i - 1]].Item? && m[bs[i + 1]].Item? && m[bs[i]].Item? && m[bs[i]].next == bs[i + 1]
    ensures Midway(Dropped(m, bs[i - 1], bs[i + 1]), Removed(bs, i), fs, pend, bs[i - 1])
    ensures IsDrop(m, Dropped(m, bs[i - 1], bs[i + 1]), bs, i)
  {
    hide FreeBut, ApartBut, Removed, Ordered;
    var lo := i - 1;
    NextOf(m, bs, i);
    NextOf(m, bs, lo);
    DroppedTiles(m, bs, fs, i);
    DroppedFlags(m, bs, i);
    hide Chain, Cycle;
    DropStep(m, Dropped(m, bs[i - 1], bs[i + 1]), bs, fs, i, pend, loose);
  }

  lemma DroppedEffect(m: seq<Word>, bs: seq<nat>, i: nat)
    requires 0 < i < |bs| - 1 && bs[i - 1] < bs[i + 1] < |m| && m[bs[i - 1]].Item? && m[bs[i + 1]].Item?
    requires IsDrop(m, Dropped(m, bs[i - 1], bs[i + 1]), bs, i)
    ensures var m', cs, h := Dropped(m, bs[i - 1], bs[i + 1]), Removed(bs, i), bs[i - 1];
            && Live(m', cs) == (if m[h].used then Live(m, bs)[h := bs[i + 1] - h - HEADER] else Live(m, bs))
            && FreeWords(m', cs) == FreeWords(m, bs) + (if m[h].used then 0 - Size(m, bs[i]) else HEADER)
            && Only(m, m', [h, bs[i + 1]], 0, 0) && SameFlags(m, m', cs, h)
  {
    hide Live, FreeWords;
    var m' := Dropped(m, bs[i - 1], bs[i + 1]);
    DropLive(m, m', bs, i);
    DropWords(m, m', bs, i);
  }

  // ---------- for rt_memheap_free ----------

  /** A block that is on neither list needs no exemption. */
  lemma Forget(m: seq<Word>, bs: seq<nat>, fs: seq<nat>, pend: set<nat>, loose: int, x: nat)
    requires Midway(m, bs, fs, pend, loose) && x !in bs && x !in fs
    ensures Midway(m, bs, fs, pend - {x}, loose)
  {
  }

  lemma Exempt(m: seq<Word>, bs: seq<nat>, fs: seq<nat>, pend: set<nat>, loose: int, x: nat)
    requires Midway(m, bs, fs, pend, loose)
    ensures Midway(m, bs, fs, pend + {x}, loose)
  {
  }

  /** Of two neighbours that are not exempt, one is in use. */
  lemma PairUsed(m: seq<Word>, bs: seq<nat>, fs: seq<nat>, pend: set<nat>, loose: int, k: nat)
    requires Midway(m, bs, fs, pend, loose) && k + 1 < |bs| && bs[k] != loose && bs[k + 1] != loose
    ensures bs[k] < |m| && m[bs[k]].Item? && bs[k + 1] < |m| && m[bs[k + 1]].Item?
    ensures m[bs[k]].used || m[bs[k + 1]].used
  {
    assert ApartAt(m, bs, k);
  }

  /** Block i, its links and its neighbours; different places hold different blocks. */
  lemma Around(m: seq<Word>, bs: seq<nat>, i: nat)
    requires Tiles(m, bs) && i < |bs|
    ensures bs[i] <= Tailer(m) && m[bs[i]].Item? && Distinct(bs)
    ensures m[bs[i]].prev == (if i > 0 then bs[i - 1] else Tailer(m))
    ensures i + 1 == |bs| ==> m[bs[i]].used
    ensures i + 1 < |bs| ==> m[bs[i]].next == bs[i + 1] && bs[i] < bs[i + 1]
  {
    assert LinkedAt(m, bs, i);
    OrderedDistinct(bs, Tailer(m));
  }

  /** Place of a free block on the free list. */
  lemma OnList(m: seq<Word>, bs: seq<nat>, fs: seq<nat>, pend: set<nat>, loose: int, b: nat) returns (j: nat)
    requires Midway(m, bs, fs, pend, loose) && b in bs && !m[b].used && b !in pend
    ensures 0 < j < |fs| && fs[j] == b && Distinct(fs)
  {
    var k :| 0 <= k < |fs[1..]| && fs[1..][k] == b;
    j := k + 1;
  }

  lemma RemovedNeighbours(bs: seq<nat>, i: nat)
    requires 0 < i < |bs| - 1 && Distinct(bs)
    ensures |Removed(bs, i)| == |bs| - 1 && Removed(bs, i)[i - 1] == bs[i - 1] && Removed(bs, i)[i] == bs[i + 1]
    ensures i > 1 ==> Removed(bs, i)[i - 2] == bs[i - 2]
    ensures bs[i] !in Removed(bs, i) && forall x :: x in Removed(bs, i) ==> x in bs
  {
    RemovedIndex(bs, i);
    assert bs == bs[..i] + [bs[i]] + bs[i + 1..];
    RemovedMember(bs, i, bs[i]);
  }

  // ---------- what a caller of rt_memheap_alloc gets ----------

  /** A block at h that was not in use is in use with `got` words, and no other live block changed. */
  ghost predicate Took(m: seq<Word>, bs: seq<nat>, m': seq<Word>, bs': seq<nat>, h: int, got: int) {
    && 0 <= h < |m| && m[h].Item?
    && h !in Live(m, bs) && Live(m', bs') == Live(m, bs)[h := got]
    && PayloadsKept(m, m', bs, h)
  }

  lemma TookSize(m: seq<Word>, bs: seq<nat>, m': seq<Word>, bs': seq<nat>, h: int, got: int)
    requires Took(m, bs, m', bs', h, got)
    ensures SizeAt(m', h) == got
  {
    assert h in Live(m', bs');
  }

  lemma OnlyOne(m: seq<Word>, m': seq<Word>, h: nat, p: nat)
    requires Only(m, m', [h], 0, 0) && p != h && p < FreeHeader(m)
    ensures m'[p] == m[p]
  {
  }

  /** A block that is not in use starts at b. */
  ghost predicate FreeAt(m: seq<Word>, bs: seq<nat>, b: int) {
    0 <= b < |m| && b in bs && m[b].Item? && !m[b].used
  }

  /** An operation that touched headers only kept all payloads. */
  lemma HeadersOnly(m: seq<Word>, m': seq<Word>, bs: seq<nat>, fs: seq<nat>, i: nat)
    requires Layout(m, bs, fs) && i < |bs| - 1 && Only(m, m', bs, 0, 0)
    ensures PayloadsKept(m, m', bs, bs[i])
  {
    assert Only(m, m', bs, bs[i], bs[i]) && bs[i] <= bs[i + 1];
    hide Only, Layout;
    PayloadsUntouched(m, m', bs, fs, i, bs[i], bs[i]);
  }

  lemma SameFlagsAt(m: seq<Word>, m': seq<Word>, bs: seq<nat>, h: nat, b: nat)
    requires SameFlags(m, m', bs, h) && b in bs && b != h
    ensures b < |m| == |m'| && m[b].Item? && m'[b].Item? && m'[b].used == m[b].used && m'[b].next == m[b].next
  {
  }

  /** Touched in a right merge: the headers at the cut, then free-list links. */
  lemma MergeTouched(m: seq<Word>, m1: seq<Word>, m2: seq<Word>, bs: seq<nat>, fs: seq<nat>, pend: set<nat>,
        loose: int, h: nat, next: nat)
    requires Midway(m, bs, fs, pend, loose) && (forall x :: x in pend ==> x in bs) && h in bs && next in bs
    requires Only(m, m1, [h, next], 0, 0) && FreeLinksOnly(m1, m2, fs)
    ensures Only(m, m2, bs, 0, 0)
  {
    Among(m, bs, fs, pend, loose);
    hide Tiles, Ring, FreeBut, ApartBut;
  }

  lemma Fits(m: seq<Word>, bs: seq<nat>, fs: seq<nat>, pend: set<nat>, loose: int)
    requires Midway(m, bs, fs, pend, loose)
    ensures Tiles(m, bs) && Ring(m, fs) && fs != []
  {
  }

  lemma OnlySelf(m: seq<Word>, bs: seq<nat>, lo: nat, hi: nat)
    ensures Only(m, m, bs, lo, hi)
  {
  }

  lemma FlagsThroughLinks(m: seq<Word>, m1: seq<Word>, m2: seq<Word>, bs: seq<nat>, h: nat, any: seq<nat>)
    requires SameFlags(m, m1, bs, h) && FreeLinksOnly(m1, m2, any) && h < |m1| && m1[h].Item?
    ensures SameFlags(m, m2, bs, h) && m2[h].Item? && m2[h].used == m1[h].used && m2[h].next == m1[h].next
  {
  }

  /** Touched by a free: the flag, the headers at the cuts, then free-list links. */
  lemma FreeTouched(m: seq<Word>, m1: seq<Word>, m2: seq<Word>, m3: seq<Word>, m4: seq<Word>,
                    bs: seq<nat>, cs: seq<nat>, ds: seq<nat>, fs: seq<nat>, gs: seq<nat>, i: nat)
    requires Layout(m, bs, fs) && i < |bs| - 1
    requires Only(m, m1, [bs[i]], 0, 0) && Only(m1, m2, bs, 0, 0) && Only(m2, m3, cs, 0, 0) && FreeLinksOnly(m3, m4, gs)
    requires (forall x :: x in cs ==> x in bs) && (forall x :: x in ds ==> x in bs)
    requires forall x :: x in gs ==> x >= FreeHeader(m) || x in ds
    ensures PayloadsKept(m, m4, bs, bs[i])
  {
    hide Layout, FreeLinksOnly, Only;
    OnlySelf(m, bs, 0, 0);
    OnlyThese(m, m, m1, bs, 0, 0, [bs[i]], 0, 0);
    OnlyThese(m, m1, m2, bs, 0, 0, bs, 0, 0);
    OnlyThese(m, m2, m3, bs, 0, 0, cs, 0, 0);
    OnlyLinks(m, m3, m4, bs, 0, 0, gs);
    HeadersOnly(m, m4, bs, fs, i);
  }

  lemma NoLinks(m: seq<Word>, any: seq<nat>)
    ensures FreeLinksOnly(m, m, any)
  {
  }

  lemma LiveBlock(m: seq<Word>, bs: seq<nat>, b: nat)
    requires b in Live(m, bs)
    ensures b in bs && b < Tailer(m) && m[b].Item? && m[b].used && Live(m, bs)[b] == Size(m, b)
  {
  }

  /** Between calls the free list runs through blocks only. */
  lemma Listed(m: seq<Word>, bs: seq<nat>, fs: seq<nat>)
    requires Layout(m, bs, fs)
    ensures forall x :: x in fs ==> x == FreeHeader(m) || x in bs
  {
    Among(m, bs, fs, {}, NULL);
  }

  // ---------- for rt_memheap_realloc, and for users writing to their blocks ----------

  /** Writing inside the payload of a live block changes nothing else. */
  lemma PayloadWritten(m: seq<Word>, m': seq<Word>, bs: seq<nat>, fs: seq<nat>, b: nat)
    requires Layout(m, bs, fs) && b in Live(m, bs)
    requires |m'| == |m| && forall k: nat :: k < |m| && !Inside(m, b, k) ==> m'[k] == m[k]
    ensures Layout(m', bs, fs) && Live(m', bs) == Live(m, bs) && FreeWords(m', bs) == FreeWords(m, bs)
    ensures PayloadsKept(m, m', bs, b)
  {
    hide Chain, Cycle, ApartBut, PayloadsKept, Only;
    HeadersOutside(m, bs, fs, b);
    TilesKept(m, m', bs);
    RingKept(m, m', fs);
    forall k | 0 <= k < |m| && m'[k] != m[k]
      ensures k !in bs && k !in fs
    {
    }
    SameApart(m, m', bs);
    LiveIs(m', bs, Live(m, bs));
    FreeWordsKept(m, m', bs);
    OwnPayload(m, m', bs, fs, b);
  }

  lemma SameApart(m: seq<Word>, m': seq<Word>, bs: seq<nat>)
    requires ApartBut(m, bs, NULL) && |m'| == |m| && forall b :: b in bs && b < |m| ==> m'[b] == m[b]
    ensures ApartBut(m', bs, NULL)
  {
    forall j | 0 <= j < |bs| - 1 && bs[j] != NULL && bs[j + 1] != NULL
      ensures ApartAt(m', bs, j)
    {
      assert ApartAt(m, bs, j);
    }
  }

  lemma HeadersOutside(m: seq<Word>, bs: seq<nat>, fs: seq<nat>, b: nat)
    requires Layout(m, bs, fs) && b in Live(m, bs)
    ensures forall k: nat :: Inside(m, b, k) ==> k < Tailer(m) && k !in bs && k !in fs
  {
    var i, j := Place(m, bs, fs, b);
    Listed(m, bs, fs);
    forall k: nat | Inside(m, b, k)
      ensures k < Tailer(m) && k !in bs
    {
      BetweenHeaders(bs, Tailer(m), i, k);
    }
  }

  lemma OwnPayload(m: seq<Word>, m': seq<Word>, bs: seq<nat>, fs: seq<nat>, b: nat)
    requires Layout(m, bs, fs) && b in Live(m, bs)
    requires |m'| == |m| && forall k: nat :: k < |m| && !Inside(m, b, k) ==> m'[k] == m[k]
    ensures PayloadsKept(m, m', bs, b)
  {
    var i, j := Place(m, bs, fs, b);
    assert Only(m, m', bs, bs[i], bs[i + 1]);
    hide Layout, Only;
    PayloadsUntouched(m, m', bs, fs, i, bs[i], bs[i + 1]);
  }

  /** Two rounds of block-list and free-list changes around the words lo to hi. */
  lemma ReshapeTouched(m: seq<Word>, m1: seq<Word>, m2: seq<Word>, m3: seq<Word>, bs: seq<nat>, cs: seq<nat>,
        ds: seq<nat>,
                       gs: seq<nat>, lo: nat, hi: nat, p: nat)
    requires Only(m, m1, cs, 0, 0) && Only(m1, m2, ds, p, p + HEADER) && FreeLinksOnly(m2, m3, gs)
    requires (forall x :: x in cs ==> x in bs) && (forall x :: x in ds ==> x in bs || lo <= x < hi)
    requires forall x :: x in gs ==> x >= FreeHeader(m) || x in bs || lo <= x < hi
    requires lo <= p && p + HEADER <= hi
    ensures Only(m, m3, bs, lo, hi)
  {
  }

  /** What remains of a block's payload in front of a new header. */
  lemma PrefixKept(m: seq<Word>, m': seq<Word>, bs: seq<nat>, fs: seq<nat>, i: nat, lo: nat, hi: nat)
    requires Layout(m, bs, fs) && i < |bs| - 1 && Only(m, m', bs, lo, hi) && lo <= bs[i + 1]
    ensures bs[i + 1] <= |m| && forall k: nat :: bs[i] < k < lo ==> m'[k] == m[k]
  {
    NextOf(m, bs, i);
    forall k: nat | bs[i] < k < lo
      ensures k < |m| && m'[k] == m[k]
    {
      BetweenHeaders(bs, Tailer(m), i, k);
    }
  }

  function PayloadAt(m: seq<Word>, b: int, j: int): Word {
    if 0 <= b + HEADER + j < |m| then m[b + HEADER + j] else Body
  }

  /**
   What a caller of rt_memheap_realloc gets: the block at h is now the block at g, of `got` words, the first
   of them as they were, and all other live blocks are untouched.
   */
  ghost predicate Moved(m: seq<Word>, bs: seq<nat>, m': seq<Word>, bs': seq<nat>, h: nat, g: int, got: int) {
    && h in Live(m, bs) && g >= 0 && (g == h || g !in Live(m, bs))
    && Live(m', bs') == (Live(m, bs) - {h})[g := got]
    && (forall b: nat, k: nat :: b in Live(m, bs) && b != h && Inside(m, b, k) ==> k < |m| && k < |m'| && m'[k] == m[k])
    && (forall j {:trigger PayloadAt(m', g, j)} :: 0 <= j < got && j < Live(m, bs)[h] ==>
      PayloadAt(m', g, j) == PayloadAt(m, h, j))
  }

  /** A free block is not the tailer. */
  lemma FreeBlock(m: seq<Word>, bs: seq<nat>, k: nat)
    requires Tiles(m, bs) && k < |bs| && bs[k] < |m| && m[bs[k]].Item? && !m[bs[k]].used
    ensures k < |bs| - 1
  {
    TailerUsed(m, bs);
  }

  /** A change around a free block k leaves every payload alone. */
  lemma FreeRoomTouched(m: seq<Word>, m': seq<Word>, bs: seq<nat>, fs: seq<nat>, k: nat)
    requires Layout(m, bs, fs) && k < |bs| - 1 && bs[k] < |m| && m[bs[k]].Item? && !m[bs[k]].used
    requires Only(m, m', bs, bs[k], bs[k + 1])
    ensures PayloadsKept(m, m', bs, NULL)
  {
    hide Layout, Only;
    PayloadsUntouched(m, m', bs, fs, k, bs[k], bs[k + 1]);
  }

  lemma RingNext(m: seq<Word>, bs: seq<nat>, fs: seq<nat>, k: nat)
    requires Layout(m, bs, fs) && k < |fs|
    ensures fs[k] < |m| && m[fs[k]].Item? && m[fs[k]].nextFree == (if k + 1 == |fs| then fs[0] else fs[k + 1])
    ensures fs[0] == FreeHeader(m) && (k > 0 ==> fs[k] != fs[0])
  {
    assert RingAt(m, fs, k);
  }

  lemma ListHead(m: seq<Word>, bs: seq<nat>, fs: seq<nat>)
    requires Layout(m, bs, fs)
    ensures |fs| >= 1 && Headers(m, fs)
  {
  }

  /** The search from entry k of the free list on. */
  ghost function Search(m: seq<Word>, fs: seq<nat>, k: nat, n: int): int
    requires 1 <= k <= |fs| && Headers(m, fs)
  {
    assert forall x :: x in fs[k..] ==> x in fs;
    FirstFit(m, fs[k..], n)
  }

  lemma SearchStep(m: seq<Word>, bs: seq<nat>, fs: seq<nat>, k: nat, n: int)
    requires Layout(m, bs, fs) && 1 <= k <= |fs|
    ensures Headers(m, fs)
    ensures k == |fs| ==> Search(m, fs, k, n) == NULL
    ensures k < |fs| ==> fs[k] < |m| && m[fs[k]].Item?
                         && Search(m, fs, k, n) == if Size(m, fs[k]) >= n then fs[k] else Search(m, fs, k + 1, n)
  {
    if k < |fs| {
      assert fs[k] in fs;
      assert fs[k..][0] == fs[k] && fs[k..][1..] == fs[k + 1..];
    }
  }

  /** From entry k of the free list to entry j, j excluded, no block has room for n words. */
  ghost predicate NoneFits(m: seq<Word>, fs: seq<nat>, k: nat, j: nat, n: int)
    requires Headers(m, fs)
  {
    j <= |fs| && forall i :: k <= i < j ==> fs[i] in fs && Size(m, fs[i]) < n
  }

  /** The walk along the free list finds the first block that fits. */
  lemma {:induction false} SearchFinds(m: seq<Word>, bs: seq<nat>, fs: seq<nat>, k: nat, n: int) returns (j: nat)
    requires Layout(m, bs, fs) && 1 <= k <= |fs|
    ensures Headers(m, fs) && k <= j <= |fs| && NoneFits(m, fs, k, j, n)
    ensures j == |fs| ==> Search(m, fs, k, n) == NULL
    ensures j < |fs| ==> fs[j] in fs && Size(m, fs[j]) >= n && Search(m, fs, k, n) == fs[j]
    decreases |fs| - k
  {
    hide Layout, Search;
    SearchStep(m, bs, fs, k, n);
    if k == |fs| || Size(m, fs[k]) >= n {
      j := k;
    } else {
      j := SearchFinds(m, bs, fs, k + 1, n);
    }
  }

  /** Some block of the pool is free and has room for n words. */
  ghost predicate SomeFits(m: seq<Word>, bs: seq<nat>, n: int) {
    exists b :: b in bs && b < |m| && m[b].Item? && !m[b].used && Size(m, b) >= n
  }

  /** The search fails only if no free block anywhere has room. */
  lemma SearchFails(m: seq<Word>, bs: seq<nat>, fs: seq<nat>, n: int)
    requires Layout(m, bs, fs) && |fs| >= 1
    ensures Headers(m, fs) && (Search(m, fs, 1, n) == NULL <==> !SomeFits(m, bs, n))
  {
    var j := SearchFinds(m, bs, fs, 1, n);
    if j < |fs| {
      ListedFree(m, bs, fs, j);
      assert SomeFits(m, bs, n);
    } else {
      forall b | b in bs && b < |m| && m[b].Item? && !m[b].used
        ensures Size(m, b) < n
      {
        assert b in fs[1..];
        var i :| 0 <= i < |fs| - 1 && fs[1..][i] == b;
        assert fs[i + 1] == b;
      }
    }
  }

  lemma {:induction false} FreeWordsPositive(m: seq<Word>, bs: seq<nat>)
    requires forall b :: b in bs ==> Own(m, b) >= 0
    ensures FreeWords(m, bs) >= 0
  {
    if bs != [] {
      assert bs[0] in bs && forall b :: b in bs[1..] ==> b in bs;
      FreeWordsPositive(m, bs[1..]);
    }
  }

  /** A free block is no longer than all free blocks together. */
  lemma FreeAtMost(m: seq<Word>, bs: seq<nat>, b: nat)
    requires Tiles(m, bs) && b in bs
    ensures Own(m, b) <= FreeWords(m, bs)
  {
    var i :| 0 <= i < |bs| && bs[i] == b;
    forall x | x in bs
      ensures Own(m, x) >= 0
    {
      var j :| 0 <= j < |bs| && bs[j] == x;
      TailerUsed(m, bs);
      if j < |bs| - 1 {
        NextOf(m, bs, j);
      }
    }
    hide Tiles;
    FreeWordsAt(m, bs, i);
    FreeWordsPositive(m, bs[..i]);
    FreeWordsPositive(m, bs[i + 1..]);
  }

  lemma {:induction false} SearchFits(m: seq<Word>, list: seq<nat>, n: int)
    requires Headers(m, list) && FirstFit(m, list, n) != NULL
    ensures FirstFit(m, list, n) in list && 0 <= FirstFit(m, list, n) < |m| && SizeAt(m, FirstFit(m, list, n)) >= n
  {
    assert list[0] in list && forall b :: b in list[1..] ==> b in list;
    if Size(m, list[0]) < n {
      SearchFits(m, list[1..], n);
    }
  }

  lemma ListedFree(m: seq<Word>, bs: seq<nat>, fs: seq<nat>, k: nat)
    requires Layout(m, bs, fs) && 1 <= k < |fs|
    ensures fs[k] in bs && fs[k] < Tailer(m) && m[fs[k]].Item? && !m[fs[k]].used
  {
    assert fs[1..][k - 1] == fs[k];
    TailerUsed(m, bs);
  }

  lemma ShrinkTouched(m: seq<Word>, m1: seq<Word>, m2: seq<Word>, m3: seq<Word>, bs: seq<nat>, fs: seq<nat>,
        cs: seq<nat>, gs: seq<nat>,
                      i: nat, p: nat)
    requires Layout(m, bs, fs) && i < |bs| - 1 && bs[i] < p && p + HEADER <= bs[i + 1]
    requires Only(m, m1, [bs[i], bs[i + 1]], p, p + HEADER) && Only(m1, m2, cs, 0, 0) && FreeLinksOnly(m2, m3, gs)
    requires (forall x :: x in cs ==> x in bs || x == p)
        && (forall x :: x in gs ==> x >= FreeHeader(m) || x in bs || x == p)
    ensures PayloadsKept(m, m3, bs, bs[i])
    ensures bs[i + 1] <= |m| && forall k: nat :: bs[i] < k < p ==> m3[k] == m[k]
  {
    hide Layout, PayloadsKept;
    assert Only(m, m3, bs, p, bs[i + 1]);
    PayloadsUntouched(m, m3, bs, fs, i, p, bs[i + 1]);
    PrefixKept(m, m3, bs, fs, i, p, bs[i + 1]);
  }

  lemma InsideSame(m: seq<Word>, bs: seq<nat>, m': seq<Word>, bs': seq<nat>, b: nat, k: nat)
    requires b in Live(m, bs) && b in Live(m', bs') && Live(m, bs)[b] == Live(m', bs')[b]
    ensures Inside(m, b, k) <==> Inside(m', b, k)
  {
  }

  lemma PayloadKept(m: seq<Word>, m': seq<Word>, bs: seq<nat>, x: int, b: nat, k: nat)
    requires PayloadsKept(m, m', bs, x) && b in Live(m, bs) && b != x && Inside(m, b, k)
    ensures k < |m| == |m'| && m'[k] == m[k]
  {
  }

  lemma InsideAt(m: seq<Word>, bs: seq<nat>, b: nat, j: nat)
    requires b in Live(m, bs) && j < Live(m, bs)[b]
    ensures Inside(m, b, b + HEADER + j)
  {
  }

  /** A new block, the old payload copied into it, the old block freed. */
  lemma MoveDone(m0: seq<Word>, bs0: seq<nat>, m1: seq<Word>, bs1: seq<nat>, m2: seq<Word>, m3: seq<Word>,
        bs3: seq<nat>,
                 h: nat, g: nat, got: int, count: nat)
    requires h in Live(m0, bs0) && count == Live(m0, bs0)[h] && Took(m0, bs0, m1, bs1, g, got)
    requires Live(m2, bs1) == Live(m1, bs1) && PayloadsKept(m1, m2, bs1, g)
    requires forall j {:trigger PayloadAt(m2, g, j)} :: 0 <= j < count ==> PayloadAt(m2, g, j) == PayloadAt(m1, h, j)
    requires Live(m3, bs3) == Live(m2, bs1) - {h} && PayloadsKept(m2, m3, bs1, h)
    ensures Moved(m0, bs0, m3, bs3, h, g, got)
  {
    hide Live, Inside, PayloadsKept;
    assert Live(m3, bs3) == (Live(m0, bs0) - {h})[g := got];
    forall b: nat, k: nat | b in Live(m0, bs0) && b != h && Inside(m0, b, k)
      ensures k < |m0| && k < |m3| && m3[k] == m0[k]
    {
      InsideSame(m0, bs0, m1, bs1, b, k);
      InsideSame(m1, bs1, m2, bs1, b, k);
      PayloadKept(m0, m1, bs0, g, b, k);
      PayloadKept(m1, m2, bs1, g, b, k);
      PayloadKept(m2, m3, bs1, h, b, k);
    }
    forall j | 0 <= j < got && j < count
      ensures PayloadAt(m3, g, j) == PayloadAt(m0, h, j)
    {
      InsideAt(m2, bs1, g, j);
      PayloadKept(m2, m3, bs1, h, g, g + HEADER + j);
      InsideAt(m0, bs0, h, j);
      PayloadKept(m0, m1, bs0, g, h, h + HEADER + j);
      assert PayloadAt(m2, g, j) == PayloadAt(m1, h, j);
    }
  }

  /** The block stayed where it was. */
  lemma StayDone(m: seq<Word>, bs: seq<nat>, m': seq<Word>, bs': seq<nat>, h: nat, got: int)
    requires h in Live(m, bs) && Live(m', bs') == Live(m, bs)[h := got] && PayloadsKept(m, m', bs, h)
    requires forall j {:trigger PayloadAt(m', h, j)} :: 0 <= j < got && j < Live(m, bs)[h] ==>
        PayloadAt(m', h, j) == PayloadAt(m, h, j)
    ensures Moved(m, bs, m', bs', h, h, got)
  {
    hide Live, Inside;
    assert Live(m, bs)[h := got] == (Live(m, bs) - {h})[h := got];
  }

  lemma WholePayloadKept(m: seq<Word>, m': seq<Word>, bs: seq<nat>, h: nat)
    requires h in Live(m, bs) && PayloadsKept(m, m', bs, NULL)
    ensures PayloadsKept(m, m', bs, h)
    ensures forall j {:trigger PayloadAt(m', h, j)} :: 0 <= j < Live(m, bs)[h] ==>
        PayloadAt(m', h, j) == PayloadAt(m, h, j)
  {
    forall j | 0 <= j < Live(m, bs)[h]
      ensures PayloadAt(m', h, j) == PayloadAt(m, h, j)
    {
      InsideAt(m, bs, h, j);
    }
  }

  // ---------- the first and the last state ----------

  lemma OneFreeBlock(m: seq<Word>)
    requires |m| >= 18 && m[0].Item? && !m[0].used && m[0].next == Tailer(m) && m[Tailer(m)].Item? && m[Tailer(m)].used
    ensures FreeWords(m, [0, Tailer(m)]) == |m| - 18
  {
    var bs: seq<nat> := [0, Tailer(m)];
    FreeWordsAt(m, bs, 0);
    FreeWordsAt(m, bs, 1);
    assert bs[..0] == [] && bs[..1] == [0] && bs[2..] == [] && bs[1..] == [Tailer(m)];
    FreeWordsAt(m, [0], 0);
    assert [0 as nat][1..] == [] && [0 as nat][..0] == [];
  }

  lemma InitialLayout(m: seq<Word>)
    requires |m| >= 18 && m[0] == Item(false, Tailer(m), Tailer(m), FreeHeader(m), FreeHeader(m))
    requires m[Tailer(m)] == Item(true, 0, 0, NULL, NULL) && m[FreeHeader(m)].Item?
    requires m[FreeHeader(m)].nextFree == 0 && m[FreeHeader(m)].prevFree == 0
    ensures Layout(m, [0, Tailer(m)], [FreeHeader(m), 0])
    ensures Live(m, [0, Tailer(m)]) == map[] && FreeWords(m, [0, Tailer(m)]) == |m| - 18
  {
    var bs, fs: seq<nat> := [0, Tailer(m)], [FreeHeader(m), 0];
    ChainTiles(m, bs);
    CycleRing(m, fs);
    OneFreeBlock(m);
  }

  /** When no block is live, the pool is one free block again. */
  lemma AllFree(m: seq<Word>, bs: seq<nat>, fs: seq<nat>)
    requires Layout(m, bs, fs) && Live(m, bs) == map[]
    ensures bs == [0, Tailer(m)] && fs == [FreeHeader(m), 0] && FreeWords(m, bs) == |m| - 18
  {
    if |bs| > 2 {
      SomeUsed(m, bs, fs);
    }
    assert bs == [0, Tailer(m)] && LinkedAt(m, bs, 0) && LinkedAt(m, bs, 1);
    assert 0 !in Live(m, bs);
    OneEntry(fs, 0);
    OneFreeBlock(m);
  }

  lemma OneEntry(fs: seq<nat>, x: nat)
    requires Distinct(fs) && fs != [] && x in fs[1..] && forall y :: y in fs[1..] ==> y == x
    ensures fs == [fs[0], x]
  {
    if |fs| > 2 {
      TwoEntries(fs);
      assert false;
    }
  }

  lemma TwoEntries(fs: seq<nat>)
    requires Distinct(fs) && |fs| > 2
    ensures fs[1] in fs[1..] && fs[2] in fs[1..] && fs[1] != fs[2]
  {
    assert fs[1..][0] == fs[1] && fs[1..][1] == fs[2];
  }

  lemma SomeUsed(m: seq<Word>, bs: seq<nat>, fs: seq<nat>)
    requires Layout(m, bs, fs) && |bs| > 2
    ensures Live(m, bs) != map[]
  {
    assert ApartAt(m, bs, 0);
    assert bs[1] + HEADER <= bs[|bs| - 1];
    var b := if m[bs[0]].used then bs[0] else bs[1];
    assert b in Live(m, bs);
  }

  /**
   What is in use determines the rest: two pools of one length with the same live blocks have the same blocks and
   as much free, whatever was allocated, split, moved and merged on the way. What lies between two live blocks is
   one free block.
   */
  lemma LiveDetermines(m: seq<Word>, bs: seq<nat>, fs: seq<nat>, m': seq<Word>, bs': seq<nat>, fs': seq<nat>)
    requires Layout(m, bs, fs) && Layout(m', bs', fs') && |m| == |m'| && Live(m, bs) == Live(m', bs')
    ensures bs == bs' && FreeWords(m, bs) == FreeWords(m', bs')
  {
    hide Live, Own;
    SamePlace(m, bs, fs, m', bs', fs', |bs| - 1);
    SamePlace(m', bs', fs', m, bs, fs, |bs'| - 1);
    forall i | 0 <= i < |bs|
      ensures bs[i] == bs'[i] && Own(m, bs[i]) == Own(m', bs[i])
    {
      SamePlace(m, bs, fs, m', bs', fs', i);
      if i + 1 < |bs| {
        SamePlace(m, bs, fs, m', bs', fs', i + 1);
      }
      OwnByLive(m, bs, fs, i);
      OwnByLive(m', bs', fs', i);
    }
    assert bs == bs';
    SameFreeWords(m, m', bs);
  }

  /** Block i, in terms of the live blocks and the block behind it. */
  lemma OwnByLive(m: seq<Word>, bs: seq<nat>, fs: seq<nat>, i: nat)
    requires Layout(m, bs, fs) && i < |bs|
    ensures Own(m, bs[i]) == if i == |bs| - 1 || bs[i] in Live(m, bs) then 0 else bs[i + 1] - bs[i] - HEADER
  {
    TailerUsed(m, bs);
    if i < |bs| - 1 {
      NextOf(m, bs, i);
      assert bs[i] in bs && bs[i] < Tailer(m);
    }
  }

  lemma {:induction false} SameFreeWords(m: seq<Word>, m': seq<Word>, bs: seq<nat>)
    requires forall i :: 0 <= i < |bs| ==> Own(m, bs[i]) == Own(m', bs[i])
    ensures FreeWords(m, bs) == FreeWords(m', bs)
  {
    if bs != [] {
      SameFreeWords(m, m', bs[1..]);
    }
  }

  lemma {:induction false} SamePlace(m: seq<Word>, bs: seq<nat>, fs: seq<nat>, m': seq<Word>, bs': seq<nat>,
        fs': seq<nat>, i: nat)
    requires Layout(m, bs, fs) && Layout(m', bs', fs') && |m| == |m'| && Live(m, bs) == Live(m', bs') && i < |bs|
    ensures i < |bs'| && bs'[i] == bs[i]
  {
    if i > 0 {
      var k := i - 1;
      SamePlace(m, bs, fs, m', bs', fs', k);
      assert bs[k] < bs[|bs| - 1] == Tailer(m) == bs'[|bs'| - 1];
      NotBehind(m, bs, fs, m', bs', fs', k);
      NotBehind(m', bs', fs', m, bs, fs, k);
    }
  }

  lemma NotBehind(m: seq<Word>, bs: seq<nat>, fs: seq<nat>, m': seq<Word>, bs': seq<nat>, fs': seq<nat>, k: nat)
    requires Layout(m, bs, fs) && Layout(m', bs', fs') && |m| == |m'| && Live(m, bs) == Live(m', bs')
    requires k + 1 < |bs| && k + 1 < |bs'| && bs[k] == bs'[k]
    ensures bs'[k + 1] <= bs[k + 1]
  {
    NextOf(m, bs, k);
    NextOf(m', bs', k);
    var b, c := bs[k], bs[k + 1];
    assert b in bs && c in bs && b in bs';
    if m[b].used {
      assert b in Live(m, bs) && b in Live(m', bs');
      assert Size(m, b) == Live(m, bs)[b] == Live(m', bs')[b] == Size(m', b);
    } else if c < Tailer(m) {
      NeighboursUsed(m, bs, fs, k);
      assert c in Live(m, bs) && c in bs';
      var j :| 0 <= j < |bs'| && bs'[j] == c;
      assert k < j;
    }
  }

  /** What the live block at g leaves of the room up to e, where nothing else is in use, is one free block. */
  lemma RestIsFree(m: seq<Word>, bs: seq<nat>, fs: seq<nat>, g: nat, e: int)
    requires Layout(m, bs, fs) && g in Live(m, bs) && g + HEADER + Live(m, bs)[g] < e <= Tailer(m)
    requires forall b :: b in Live(m, bs) && b > g ==> b >= e
    ensures var p := g + HEADER + SizeAt(m, g); FreeAt(m, bs, p) && SizeAt(m, p) >= e - p - HEADER
  {
    LiveBlock(m, bs, g);
    var i, _ := Place(m, bs, fs, g);
    hide Live;
    var p := bs[i + 1];
    assert p == g + HEADER + SizeAt(m, g) && p in bs;
    NotLive(m, bs, fs, p);
    NeighboursUsed(m, bs, fs, i + 1);
    NextOf(m, bs, i + 1);
    assert m[p].next == bs[i + 2] && bs[i + 2] in bs;
    EndsLive(m, bs, fs, i + 2);
  }

  lemma NotLive(m: seq<Word>, bs: seq<nat>, fs: seq<nat>, p: nat)
    requires Layout(m, bs, fs) && p in bs && p < Tailer(m) && p !in Live(m, bs)
    ensures FreeAt(m, bs, p)
  {
    var _, _ := Place(m, bs, fs, p);
  }

  lemma EndsLive(m: seq<Word>, bs: seq<nat>, fs: seq<nat>, i: nat)
    requires Layout(m, bs, fs) && i < |bs| && m[bs[i]].Item? && m[bs[i]].used
    ensures bs[i] == Tailer(m) || bs[i] in Live(m, bs)
  {
    assert bs[i] in bs;
  }

  lemma MovedGap(m: seq<Word>, bs: seq<nat>, m': seq<Word>, bs': seq<nat>, h: nat, g: nat, got: int, e: int)
    requires Moved(m, bs, m', bs', h, g, got)
    requires forall b :: b in Live(m, bs) && b > g ==> b >= e
    ensures g in Live(m', bs') && Live(m', bs')[g] == got
    ensures forall b :: b in Live(m', bs') && b > g ==> b >= e
  {
    hide Live, Inside;
  }

  /** Nothing is in use between a block and the one behind it. */
  lemma NoneBetween(m: seq<Word>, bs: seq<nat>, fs: seq<nat>, g: nat, e: int)
    requires Layout(m, bs, fs) && g in bs && g < Tailer(m) && m[g].Item? && e == m[g].next
    ensures e <= Tailer(m) && forall b :: b in Live(m, bs) && b > g ==> b >= e
  {
    var i, _ := Place(m, bs, fs, g);
    forall b | b in Live(m, bs) && b > g
      ensures b >= e
    {
      var j :| 0 <= j < |bs| && bs[j] == b;
      assert j > i;
    }
  }

  lemma FoundBetween(m: seq<Word>, bs: seq<nat>, fs: seq<nat>, n: int)
    requires Layout(m, bs, fs) && |fs| >= 1 && Search(m, fs, 1, n) != NULL
    ensures var g := Search(m, fs, 1, n);
            && 0 <= g < Tailer(m) && m[g].Item? && m[g].next <= Tailer(m)
            && forall b :: b in Live(m, bs) && b > g ==> b >= m[g].next
  {
    hide Live;
    assert forall x :: x in fs[1..] ==> x in fs;
    SearchFits(m, fs[1..], n);
    var k :| 0 <= k < |fs[1..]| && fs[1..][k] == Search(m, fs, 1, n);
    ListedFree(m, bs, fs, k + 1);
    NoneBetween(m, bs, fs, fs[k + 1], m[fs[k + 1]].next);
  }

  /** Nor if the block behind is free, up to the end of that one. */
  lemma RoomBehind(m: seq<Word>, bs: seq<nat>, fs: seq<nat>, g: nat, x: nat)
    requires Layout(m, bs, fs) && g in bs && g < Tailer(m) && m[g].Item? && x == m[g].next
    requires x < |m| && m[x].Item? && !m[x].used
    ensures x < m[x].next <= Tailer(m) && forall b :: b in Live(m, bs) && b > g ==> b >= m[x].next
  {
    var i, _ := Place(m, bs, fs, g);
    TailerUsed(m, bs);
    assert x in bs && x !in Live(m, bs);
    NoneBetween(m, bs, fs, g, x);
    var k, _ := Place(m, bs, fs, x);
    NoneBetween(m, bs, fs, x, m[x].next);
  }

  function SizeAt(m: seq<Word>, b: int): int { if 0 <= b < |m| && m[b].Item? then Size(m, b) else 0 }

  /** Two live blocks lie apart, inside the pool. */
  lemma Rooms(m: seq<Word>, bs: seq<nat>, fs: seq<nat>, h: nat, g: nat)
    requires Layout(m, bs, fs) && h in Live(m, bs) && g in Live(m, bs) && h != g
    ensures h + HEADER + Live(m, bs)[h] <= Tailer(m) && g + HEADER + Live(m, bs)[g] <= Tailer(m)
    ensures h + HEADER + Live(m, bs)[h] <= g || g + HEADER + Live(m, bs)[g] <= h
  {
    var i, j := Place(m, bs, fs, h);
    var k, l := Place(m, bs, fs, g);
    assert i < k ==> i + 1 == k || bs[i + 1] + HEADER <= bs[k];
    assert k < i ==> k + 1 == i || bs[k + 1] + HEADER <= bs[i];
  }

  lemma MovedSize(m: seq<Word>, bs: seq<nat>, m': seq<Word>, bs': seq<nat>, h: nat, g: int, got: int)
    requires Moved(m, bs, m', bs', h, g, got)
    ensures SizeAt(m', g) == got
  {
    assert g in Live(m', bs');
  }

  /** Nothing happened to the block at h. */
  lemma Unmoved(m: seq<Word>, bs: seq<nat>, fs: seq<nat>, h: nat)
    requires Layout(m, bs, fs) && h in Live(m, bs)
    ensures Moved(m, bs, m, bs, h, h, Live(m, bs)[h]) && SizeAt(m, h) == Live(m, bs)[h]
  {
    hide Live, Layout;
    LiveBlock(m, bs, h);
    OwnPayload(m, m, bs, fs, h);
    assert Live(m, bs)[h := Live(m, bs)[h]] == Live(m, bs);
    StayDone(m, bs, m, bs, h, Live(m, bs)[h]);
  }

  lemma PrefixStays(m: seq<Word>, m': seq<Word>, h: nat, n: int)
    requires |m'| == |m| && h + HEADER + n <= |m| && forall k: nat :: h < k < h + HEADER + n ==> m'[k] == m[k]
    ensures forall j {:trigger PayloadAt(m', h, j)} :: 0 <= j < n ==> PayloadAt(m', h, j) == PayloadAt(m, h, j)
  {
  }

  lemma LayoutTiles(m: seq<Word>, bs: seq<nat>, fs: seq<nat>)
    requires Layout(m, bs, fs)
    ensures Tiles(m, bs)
  {
  }
}
