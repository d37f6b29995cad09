/**
 The layout of the finsh heap: blocks that tile the heap, some on the free list, the others on the
 allocated list, both singly linked in address order. Offsets and lengths are in 32-bit words; a
 header takes two.
 */
module FinshHeapBlocks {
  import opened Lists
  import B = MemHeapBlocks

  datatype Word =
    | Item(length: int, next: int)
    | Body
    | Data(v: int)

  const HEADER: nat := 2
  const NULL: int := -1

  // ---------- the two lists ----------

  ghost predicate Ascending(list: seq<nat>) { forall i, j :: 0 <= i < j < |list| ==> list[i] < list[j] }

  ghost predicate LinkAt(m: seq<Word>, list: seq<nat>, i: nat)
    requires i < |list|
  {
    list[i] < |m| && m[list[i]].Item? && m[list[i]].next == if i + 1 < |list| then list[i + 1] else NULL
  }

  /** A list from head to a null pointer, in address order. */
  ghost predicate Chain(m: seq<Word>, head: int, list: seq<nat>) {
    && head == (if list == [] then NULL else list[0]) && Ascending(list)
    && forall i {:trigger LinkAt(m, list, i)} :: 0 <= i < |list| ==> LinkAt(m, list, i)
  }

  /** Links outside the list may change. */
  lemma ChainKept(m: seq<Word>, m': seq<Word>, head: int, list: seq<nat>)
    requires Chain(m, head, list) && |m'| == |m|
    requires forall b :: b in list && b < |m| && m[b].Item? ==> m'[b].Item? && m'[b].next == m[b].next
    ensures Chain(m', head, list)
  {
    forall i | 0 <= i < |list|
      ensures LinkAt(m', list, i)
    {
      assert LinkAt(m, list, i) && list[i] in list;
    }
  }

  lemma LinkOf(m: seq<Word>, head: int, list: seq<nat>, i: nat)
    requires Chain(m, head, list) && i < |list|
    ensures list[i] in list && list[i] < |m| && m[list[i]].Item?
        && m[list[i]].next == (if i + 1 < |list| then list[i + 1] else NULL)
    ensures Distinct(list)
  {
    assert LinkAt(m, list, i);
  }

  lemma HeadOf(m: seq<Word>, head: int, list: seq<nat>)
    requires Chain(m, head, list)
    ensures head == (if list == [] then NULL else list[0]) && Ascending(list)
  {
  }

  /** How many list members lie below x. */
  function Below(list: seq<nat>, x: nat): (k: nat)
    ensures k <= |list|
    ensures forall i :: 0 <= i < k ==> list[i] <= x
    ensures k < |list| ==> list[k] > x
  {
    if list == [] || list[0] > x then 0 else 1 + Below(list[1..], x)
  }

  ghost function Put(list: seq<nat>, k: nat, x: nat): seq<nat>
    requires k <= |list|
  {
    list[..k] + [x] + list[k..]
  }

  lemma PutIndex(list: seq<nat>, k: nat, x: nat)
    requires k <= |list|
    ensures |Put(list, k, x)| == |list| + 1
    ensures forall i {:trigger Put(list, k, x)[i]} :: 0 <= i <= |list| ==>
      Put(list, k, x)[i] == if i < k then list[i] else if i == k then x else list[i - 1]
    ensures forall y :: y in Put(list, k, x) <==> y == x || y in list
  {
    assert list == list[..k] + list[k..];
  }

  lemma PutAscending(list: seq<nat>, k: nat, x: nat)
    requires Ascending(list) && k <= |list| && (k > 0 ==> list[k - 1] < x) && (k < |list| ==> x < list[k])
    ensures Ascending(Put(list, k, x))
  {
    PutIndex(list, k, x);
    var q := Put(list, k, x);
    hide Put;
    forall i, j | 0 <= i < j < |q|
      ensures q[i] < q[j]
    {
      assert k > 0 && i < k ==> list[i] <= list[k - 1];
      assert k < |list| && j > k ==> list[k] <= list[j - 1];
    }
  }

  /** x linked in at place k: the entry before it points to x, x to the entry behind it. */
  ghost predicate PutLinks(m: seq<Word>, m': seq<Word>, list: seq<nat>, k: nat, x: nat)
    requires k <= |list|
  {
    && |m'| == |m| && x < |m| && m'[x].Item? && m'[x].next == (if k < |list| then list[k] else NULL)
    && forall i {:trigger PutLinkAt(m, m', list, k, x, i)} :: 0 <= i < |list| ==> PutLinkAt(m, m', list, k, x, i)
  }

  ghost predicate PutLinkAt(m: seq<Word>, m': seq<Word>, list: seq<nat>, k: nat, x: nat, i: nat)
    requires i < |list| && |m'| == |m|
  {
    list[i] < |m| && m[list[i]].Item? && m'[list[i]].Item? && m'[list[i]].next ==
      if i + 1 == k then x else m[list[i]].next
  }

  lemma PutChain(m: seq<Word>, m': seq<Word>, head: int, list: seq<nat>, k: nat, x: nat)
    requires Chain(m, head, list) && k <= |list| && (k > 0 ==> list[k - 1] < x) && (k < |list| ==> x < list[k])
    requires PutLinks(m, m', list, k, x)
    ensures Chain(m', if k == 0 then x else head, Put(list, k, x))
  {
    PutAscending(list, k, x);
    PutIndex(list, k, x);
    var q := Put(list, k, x);
    hide Put;
    forall i | 0 <= i < |q|
      ensures LinkAt(m', q, i)
    {
      if i != k {
        var j := if i < k then i else i - 1;
        assert LinkAt(m, list, j) && PutLinkAt(m, m', list, k, x, j);
      }
    }
  }

  /** The same from the two words that were written. */
  lemma PutLinked(m: seq<Word>, m': seq<Word>, head: int, list: seq<nat>, k: nat, x: nat)
    requires Chain(m, head, list) && k <= |list| && (k > 0 ==> list[k - 1] < x) && (k < |list| ==> x < list[k])
    requires x < |m| == |m'| && m[x].Item? && x !in list
    requires m'[x] == m[x].(next := if k < |list| then list[k] else NULL)
    requires k > 0 ==> list[k - 1] < |m| && m[list[k - 1]].Item? && m'[list[k - 1]] == m[list[k - 1]].(next := x)
    requires forall b: nat :: b < |m| && b != x && (k > 0 ==> b != list[k - 1]) ==> m'[b] == m[b]
    ensures Chain(m', if k == 0 then x else head, Put(list, k, x)) && LinksOnly(m, m', list + [x])
  {
    forall i | 0 <= i < |list|
      ensures PutLinkAt(m, m', list, k, x, i)
    {
      LinkOf(m, head, list, i);
      assert k > 0 && i != k - 1 ==> list[i] != list[k - 1];
    }
    PutChain(m, m', head, list, k, x);
  }

  /** Entry j of the list after entry i was bypassed. */
  ghost predicate CutLinkAt(m: seq<Word>, m': seq<Word>, list: seq<nat>, i: nat, j: nat)
    requires i < |list| && j < |list| && |m'| == |m|
  {
    && list[i] < |m| && m[list[i]].Item? && list[j] < |m| && m[list[j]].Item? && m'[list[j]].Item?
    && m'[list[j]].next == if j + 1 == i then m[list[i]].next else m[list[j]].next
  }

  lemma CutChain(m: seq<Word>, m': seq<Word>, head: int, list: seq<nat>, i: nat)
    requires Chain(m, head, list) && i < |list| && |m'| == |m|
    requires forall j {:trigger CutLinkAt(m, m', list, i, j)} :: 0 <= j < |list| && j != i ==>
        CutLinkAt(m, m', list, i, j)
    ensures Chain(m', if i > 0 then head else if |list| == 1 then NULL else list[1], B.Removed(list, i))
  {
    B.RemovedIndex(list, i);
    var q := B.Removed(list, i);
    hide B.Removed;
    forall j | 0 <= j < |q|
      ensures LinkAt(m', q, j)
    {
      var k := if j < i then j else j + 1;
      assert LinkAt(m, list, k) && LinkAt(m, list, i) && CutLinkAt(m, m', list, i, k);
    }
    assert |list| > 1 ==> q[0] == if i > 0 then list[0] else list[1];
  }

  /** The same from the one link that was written; the bypassed entry's own link may change. */
  lemma CutLinked(m: seq<Word>, m': seq<Word>, head: int, list: seq<nat>, k: nat)
    requires Chain(m, head, list) && k < |list| && |m'| == |m| && list[k] < |m| && m[list[k]].Item?
    requires forall b: nat :: b < |m| && b != list[k] && (k > 0 ==> b != list[k - 1]) ==> m'[b] == m[b]
    requires k > 0 ==> list[k - 1] < |m| && m'[list[k - 1]].Item? && m'[list[k - 1]].next == m[list[k]].next
    ensures Chain(m', if k > 0 then head else m[list[k]].next, B.Removed(list, k))
  {
    LinkOf(m, head, list, k);
    forall j | 0 <= j < |list| && j != k
      ensures CutLinkAt(m, m', list, k, j)
    {
      LinkOf(m, head, list, j);
      assert k > 0 && j != k - 1 ==> list[j] != list[k - 1];
    }
    CutChain(m, m', head, list, k);
  }

  // ---------- the blocks ----------

  ghost predicate Ordered(bs: seq<nat>) {
    bs != [] && bs[0] == 0 && forall i, j :: 0 <= i < j < |bs| ==> bs[i] + HEADER <= bs[j]
  }

  /** Block j reaches up to the next one, the last one to the end of the heap. */
  ghost predicate TileAt(m: seq<Word>, bs: seq<nat>, j: nat)
    requires j < |bs|
  {
    && bs[j] + HEADER <= |m| && m[bs[j]].Item? && m[bs[j]].length >= 0
    && bs[j] + HEADER + m[bs[j]].length == if j + 1 < |bs| then bs[j + 1] else |m|
  }

  ghost predicate Tiles(m: seq<Word>, bs: seq<nat>) {
    Ordered(bs) && forall j {:trigger TileAt(m, bs, j)} :: 0 <= j < |bs| ==> TileAt(m, bs, j)
  }

  lemma TileOf(m: seq<Word>, bs: seq<nat>, j: nat)
    requires Tiles(m, bs) && j < |bs|
    ensures bs[j] in bs && bs[j] + HEADER <= |m| && m[bs[j]].Item? && m[bs[j]].length >= 0
    ensures bs[j] + HEADER + m[bs[j]].length == if j + 1 < |bs| then bs[j + 1] else |m|
    ensures Distinct(bs)
  {
    assert TileAt(m, bs, j);
  }

  lemma TilesKept(m: seq<Word>, m': seq<Word>, bs: seq<nat>)
    requires Tiles(m, bs) && |m'| == |m|
    requires forall b :: b in bs && b < |m| && m[b].Item? ==> m'[b].Item? && m'[b].length == m[b].length
    ensures Tiles(m', bs)
  {
    forall j | 0 <= j < |bs|
      ensures TileAt(m', bs, j)
    {
      assert TileAt(m, bs, j) && bs[j] in bs;
    }
  }

  /** Block i cut at p: both parts tile its room. */
  lemma SplitTiles(m: seq<Word>, m': seq<Word>, bs: seq<nat>, i: nat, p: nat)
    requires Tiles(m, bs) && i < |bs| && bs[i] + HEADER <= p < |m| == |m'| && m[bs[i]].Item?
    requires p + HEADER <= bs[i] + HEADER + m[bs[i]].length
    requires m'[bs[i]].Item? && m'[bs[i]].length == p - bs[i] - HEADER
    requires m'[p].Item? && m'[p].length == bs[i] + m[bs[i]].length - p
    requires forall b :: b in bs && b != bs[i] && b < |m| && m[b].Item? ==> m'[b].Item? && m'[b].length == m[b].length
    ensures Tiles(m', B.Inserted(bs, i, p)) && p !in bs
  {
    TileOf(m, bs, i);
    if i + 1 < |bs| {
      TileOf(m, bs, i + 1);
    }
    SplitOrdered(m, bs, i, p);
    B.InsertedIndex(bs, i, p);
    var cs := B.Inserted(bs, i, p);
    hide B.Inserted, Ordered, TileAt;
    forall j | 0 <= j < |cs|
      ensures TileAt(m', cs, j)
    {
      if j != i + 1 {
        var k := if j <= i then j else j - 1;
        SplitTile(m, m', bs, cs, i, p, k, j);
      } else {
        NewTile(m, m', bs, cs, i, p);
      }
    }
  }

  lemma NewTile(m: seq<Word>, m': seq<Word>, bs: seq<nat>, cs: seq<nat>, i: nat, p: nat)
    requires i < |bs| && i + 1 < |cs| && TileAt(m, bs, i) && |m'| == |m| && cs[i + 1] == p
    requires p + HEADER <= |m| && p + HEADER <= bs[i] + HEADER + m[bs[i]].length
    requires m'[p].Item? && m'[p].length == bs[i] + m[bs[i]].length - p
    requires (if i + 2 < |cs| then cs[i + 2] else |m|) == if i + 1 < |bs| then bs[i + 1] else |m|
    ensures TileAt(m', cs, i + 1)
  {
  }

  lemma SplitTile(m: seq<Word>, m': seq<Word>, bs: seq<nat>, cs: seq<nat>, i: nat, p: nat, k: nat, j: nat)
    requires k < |bs| && j < |cs| && TileAt(m, bs, k) && i < |bs| && cs[j] == bs[k] && |m'| == |m|
    requires bs[k] in bs && (k != i ==> bs[k] != bs[i] && m'[bs[k]].Item? && m'[bs[k]].length == m[bs[k]].length)
    requires (if j + 1 < |cs| then cs[j + 1] else |m|) == if k == i then p else if k + 1 < |bs| then bs[k + 1] else |m|
    requires k == i ==> m'[bs[i]].Item? && bs[i] + HEADER <= p && m'[bs[i]].length == p - bs[i] - HEADER
    ensures TileAt(m', cs, j)
  {
  }

  lemma SplitOrdered(m: seq<Word>, bs: seq<nat>, i: nat, p: nat)
    requires Tiles(m, bs) && i < |bs| && bs[i] < |m| && m[bs[i]].Item?
    requires bs[i] + HEADER <= p && p + HEADER <= bs[i] + HEADER + m[bs[i]].length
    ensures Ordered(B.Inserted(bs, i, p)) && p !in bs
  {
    TileOf(m, bs, i);
    B.InsertedIndex(bs, i, p);
    var cs := B.Inserted(bs, i, p);
    hide B.Inserted;
    assert i + 1 < |bs| ==> p + HEADER <= bs[i + 1];
    forall j, k | 0 <= j < k < |cs|
      ensures cs[j] + HEADER <= cs[k]
    {
      assert j <= i ==> bs[j] <= bs[i];
      assert k > i + 1 ==> bs[k - 1] >= bs[i + 1];
    }
    forall k | 0 <= k < |bs|
      ensures bs[k] != p
    {
      assert k < i ==> bs[k] + HEADER <= bs[i];
      assert k > i + 1 ==> bs[i + 1] + HEADER <= bs[k];
    }
  }

  /** Block i joined to the block before it. */
  lemma JoinTiles(m: seq<Word>, m': seq<Word>, bs: seq<nat>, i: nat)
    requires Tiles(m, bs) && 0 < i < |bs| && |m'| == |m|
    requires bs[i] < |m| && m[bs[i]].Item? && bs[i - 1] < |m| && m[bs[i - 1]].Item? && m'[bs[i - 1]].Item?
    requires m'[bs[i - 1]].length == m[bs[i - 1]].length + m[bs[i]].length + HEADER
    requires forall b :: b in bs && b != bs[i] && b != bs[i - 1] && b < |m| && m[b].Item? ==>
        m'[b].Item? && m'[b].length == m[b].length
    ensures Tiles(m', B.Removed(bs, i))
  {
    TileOf(m, bs, i);
    TileOf(m, bs, i - 1);
    JoinOrdered(bs, i);
    B.RemovedIndex(bs, i);
    var cs := B.Removed(bs, i);
    hide B.Removed, Ordered;
    forall j | 0 <= j < |cs|
      ensures TileAt(m', cs, j)
    {
      var k := if j < i then j else j + 1;
      assert TileAt(m, bs, k) && bs[k] in bs;
    }
  }

  lemma JoinOrdered(bs: seq<nat>, i: nat)
    requires Ordered(bs) && 0 < i < |bs|
    ensures Ordered(B.Removed(bs, i))
  {
    B.RemovedIndex(bs, i);
    hide B.Removed;
  }

  // ---------- the whole state ----------

  /** Every block is on exactly one list. */
  ghost predicate Parts(bs: seq<nat>, fs: seq<nat>, as_: seq<nat>) {
    (forall x :: x in bs <==> x in fs || x in as_) && forall x :: x in fs ==> x !in as_
  }

  /** No two neighbours are both free; pairs with the block loose are exempt. */
  ghost predicate Apart(bs: seq<nat>, fs: seq<nat>, loose: int) {
    forall j {:trigger ApartAt(bs, fs, j)} :: 0 <= j < |bs| - 1 && bs[j] != loose && bs[j + 1] != loose ==>
      ApartAt(bs, fs, j)
  }

  ghost predicate ApartAt(bs: seq<nat>, fs: seq<nat>, j: nat)
    requires j + 1 < |bs|
  {
    bs[j] !in fs || bs[j + 1] !in fs
  }

  /** The lists, the blocks, and the block at the top, which is always free. */
  ghost predicate Midway(m: seq<Word>, freeList: int, fs: seq<nat>, allocateList: int, as_: seq<nat>, bs: seq<nat>,
        loose: int) {
    && Chain(m, freeList, fs) && Chain(m, allocateList, as_) && Tiles(m, bs) && Parts(bs, fs, as_)
    && Apart(bs, fs, loose) && bs[|bs| - 1] in fs
  }

  ghost predicate Layout(m: seq<Word>, freeList: int, fs: seq<nat>, allocateList: int, as_: seq<nat>, bs: seq<nat>) {
    Midway(m, freeList, fs, allocateList, as_, bs, NULL)
  }

  /** The allocated blocks: header offset to length in words. */
  ghost function Live(m: seq<Word>, as_: seq<nat>): map<nat, int> {
    map b | b in as_ && b < |m| && m[b].Item? :: m[b].length
  }

  lemma LiveIs(m: seq<Word>, as_: seq<nat>, want: map<nat, int>)
    requires forall b :: b in want <==> b in as_ && b < |m| && m[b].Item?
    requires forall b :: b in want ==> want[b] == m[b].length
    ensures Live(m, as_) == want
  {
  }

  /** Any block but the topmost lies below the last free block: what is freed is never the end of the free list. */
  lemma TopIsLast(m: seq<Word>, bs: seq<nat>, fs: seq<nat>, x: nat)
    requires Tiles(m, bs) && Ascending(fs) && bs[|bs| - 1] in fs && (forall y :: y in fs ==> y in bs) && x in bs
        && x !in fs
    ensures fs != [] && x < fs[|fs| - 1]
  {
    var i :| 0 <= i < |bs| && bs[i] == x;
    var j :| 0 <= j < |fs| && fs[j] == bs[|bs| - 1];
    assert x < fs[j] <= fs[|fs| - 1];
  }

  /** Words other than the headers bs and those from lo to hi are untouched. */
  ghost predicate Only(m: seq<Word>, m': seq<Word>, bs: seq<nat>, lo: nat, hi: nat) {
    |m'| == |m| && forall k: nat :: k < |m| && k !in bs && !(lo <= k < hi) ==> m'[k] == m[k]
  }

  /** Nothing but links in headers of `any` changed. */
  ghost predicate LinksOnly(m: seq<Word>, m': seq<Word>, any: seq<nat>) {
    |m'| == |m| && forall k: nat :: k < |m| ==>
      m'[k] == m[k] || (k in any && m[k].Item? && m'[k].Item? && m'[k].length == m[k].length)
  }

  lemma LinksKeepTiles(m: seq<Word>, m': seq<Word>, bs: seq<nat>, any: seq<nat>)
    requires Tiles(m, bs) && LinksOnly(m, m', any)
    ensures Tiles(m', bs)
  {
    TilesKept(m, m', bs);
  }

  lemma LinksKeepChain(m: seq<Word>, m': seq<Word>, head: int, list: seq<nat>, any: seq<nat>)
    requires Chain(m, head, list) && LinksOnly(m, m', any) && forall x :: x in any ==> x !in list
    ensures Chain(m', head, list)
  {
    ChainKept(m, m', head, list);
  }

  lemma LinksKeepLive(m: seq<Word>, m': seq<Word>, as_: seq<nat>, any: seq<nat>)
    requires LinksOnly(m, m', any)
    ensures Live(m', as_) == Live(m, as_)
  {
    LiveIs(m', as_, Live(m, as_));
  }

  /** Payload word k of the allocated block b. */
  ghost predicate Inside(m: seq<Word>, b: nat, k: nat) {
    b < |m| && m[b].Item? && b + HEADER <= k < b + HEADER + m[b].length
  }

  /** The contents of all allocated blocks but x are as they were. */
  ghost predicate PayloadsKept(m: seq<Word>, m': seq<Word>, as_: seq<nat>, x: int) {
    |m'| == |m| && forall b: nat, k: nat :: b in as_ && b != x && Inside(m, b, k) ==> k < |m| && m'[k] == m[k]
  }

  lemma BetweenHeaders(bs: seq<nat>, j: nat, k: nat, end: nat)
    requires Ordered(bs) && j < |bs| && bs[j] < k && (j + 1 < |bs| ==> k < bs[j + 1])
    ensures k !in bs
  {
  }

  /** What happens in the room of block i touches no other block's contents. */
  lemma PayloadsUntouched(m: seq<Word>, m': seq<Word>, bs: seq<nat>, as_: seq<nat>, i: nat, lo: nat, hi: nat)
    requires Tiles(m, bs) && (forall x :: x in as_ ==> x in bs) && i < |bs| && bs[i] <= lo && Only(m, m', bs, lo, hi)
    requires hi <= if i + 1 < |bs| then bs[i + 1] else |m|
    ensures PayloadsKept(m, m', as_, bs[i])
  {
    TileOf(m, bs, i);
    forall b: nat, k: nat | b in as_ && b != bs[i] && Inside(m, b, k)
      ensures k < |m| && m'[k] == m[k]
    {
      var j :| 0 <= j < |bs| && bs[j] == b;
      TileOf(m, bs, j);
      if j + 1 < |bs| {
        TileOf(m, bs, j + 1);
      }
      BetweenHeaders(bs, j, k, |m|);
      assert j < i ==> j + 1 == i || bs[j + 1] + HEADER <= bs[i];
      assert j > i ==> j == i + 1 || bs[i + 1] + HEADER <= bs[j];
    }
  }

  /** Headers outside the list that is being linked are no part of it. */
  lemma LinksAreOnly(m: seq<Word>, m': seq<Word>, any: seq<nat>, bs: seq<nat>)
    requires LinksOnly(m, m', any) && forall x :: x in any ==> x in bs
    ensures Only(m, m', bs, 0, 0)
  {
  }

  lemma PayloadsCompose(m0: seq<Word>, m1: seq<Word>, m2: seq<Word>, as1: seq<nat>, as2: seq<nat>)
    requires PayloadsKept(m0, m1, as1, NULL) && PayloadsKept(m1, m2, as2, NULL) && forall b :: b in as2 ==> b in as1
    requires forall b :: b in as2 && b < |m0| && m0[b].Item? ==> m1[b].Item? && m1[b].length == m0[b].length
    ensures PayloadsKept(m0, m2, as2, NULL)
  {
    forall b: nat, k: nat | b in as2 && Inside(m0, b, k)
      ensures k < |m0| && m2[k] == m0[k]
    {
      assert Inside(m1, b, k);
    }
  }

  // ---------- what the operations do to the lists ----------

  lemma BelowIs(list: seq<nat>, x: nat, k: nat)
    requires Ascending(list) && k <= |list| && (k > 0 ==> list[k - 1] < x) && (k < |list| ==> x < list[k])
    ensures Below(list, x) == k
  {
    assert k > 0 ==> forall b :: 0 <= b < k ==> list[b] <= list[k - 1];
  }

  lemma DistinctList(list: seq<nat>)
    requires Ascending(list)
    ensures Distinct(list)
  {
  }

  /** Block i, entry k of the free list, is cut at p, and its lower part goes to the allocated list. */
  lemma TakeLists(bs: seq<nat>, fs: seq<nat>, as_: seq<nat>, i: nat, k: nat, p: nat, ka: nat)
    requires Parts(bs, fs, as_) && Apart(bs, fs, NULL) && Distinct(bs) && Distinct(fs) && bs != [] && bs[|bs| - 1] in fs
    requires i < |bs| && k < |fs| && ka <= |as_| && bs[i] == fs[k] && p !in bs
    ensures var bs', fs', as' := B.Inserted(bs, i, p), B.Removed(Put(fs, k + 1, p), k), Put(as_, ka, bs[i]);
      Parts(bs', fs', as') && Apart(bs', fs', NULL) && bs'[|bs'| - 1] in fs'
  {
    var bs', fs', as' := B.Inserted(bs, i, p), B.Removed(Put(fs, k + 1, p), k), Put(as_, ka, bs[i]);
    TakeMembers(bs, fs, as_, i, k, p, ka);
    B.InsertedIndex(bs, i, p);
    hide B.Inserted, B.Removed, Put;
    forall j | 0 <= j < |bs'| - 1
      ensures ApartAt(bs', fs', j)
    {
      if i < j {
        assert ApartAt(bs, fs, j - 1) && bs[j - 1] in bs && bs[j] in bs;
      } else if j < i {
        assert ApartAt(bs, fs, j);
      }
    }
    assert bs[|bs| - 1] in fs && (i < |bs| - 1 ==> bs[|bs| - 1] != bs[i]);
  }

  lemma TakeMembers(bs: seq<nat>, fs: seq<nat>, as_: seq<nat>, i: nat, k: nat, p: nat, ka: nat)
    requires Distinct(bs) && Distinct(fs) && (forall x :: x in fs ==> x in bs)
    requires i < |bs| && k < |fs| && ka <= |as_| && bs[i] == fs[k] && p !in bs
    ensures forall x :: x in B.Inserted(bs, i, p) <==> x in bs || x == p
    ensures forall x :: x in B.Removed(Put(fs, k + 1, p), k) <==> (x in fs || x == p) && x != bs[i]
    ensures forall x :: x in Put(as_, ka, bs[i]) <==> x in as_ || x == bs[i]
  {
    PutIndex(as_, ka, bs[i]);
    PutIndex(fs, k + 1, p);
    var gs := Put(fs, k + 1, p);
    hide Put;
    forall x: nat
      ensures x in B.Inserted(bs, i, p) <==> x in bs || x == p
    {
      B.InsertedMember(bs, i, p, x);
    }
    assert fs[k] in fs && Distinct(gs) && gs[k] == bs[i];
    forall x: nat
      ensures x in B.Removed(gs, k) <==> (x in fs || x == p) && x != bs[i]
    {
      B.RemovedMember(gs, k, x);
    }
  }

  /** Entry k of the allocated list goes to the free list; whether its neighbours are free is left open. */
  lemma FreeLists(bs: seq<nat>, fs: seq<nat>, as_: seq<nat>, k: nat, kf: nat)
    requires Parts(bs, fs, as_) && Apart(bs, fs, NULL) && Distinct(as_) && bs != [] && bs[|bs| - 1] in fs
    requires k < |as_| && kf <= |fs|
    ensures var fs', as' := Put(fs, kf, as_[k]), B.Removed(as_, k);
      Parts(bs, fs', as') && Apart(bs, fs', as_[k]) && bs[|bs| - 1] in fs'
  {
    PutIndex(fs, kf, as_[k]);
    forall x: nat
      ensures x in B.Removed(as_, k) <==> x in as_ && x != as_[k]
    {
      B.RemovedMember(as_, k, x);
    }
    var fs', as' := Put(fs, kf, as_[k]), B.Removed(as_, k);
    hide B.Removed, Put;
    assert as_[k] in as_;
    forall j | 0 <= j < |bs| - 1 && bs[j] != as_[k] && bs[j + 1] != as_[k]
      ensures ApartAt(bs, fs', j)
    {
      assert ApartAt(bs, fs, j);
    }
  }

  // ---------- merging ----------

  /** In the free list, the entry behind h is its neighbour exactly when h's length reaches it. */
  lemma AdjacentRight(m: seq<Word>, bs: seq<nat>, fs: seq<nat>, i: nat, k: nat)
    requires Tiles(m, bs) && Ascending(fs) && (forall x :: x in fs ==> x in bs)
    requires i < |bs| && k < |fs| && bs[i] == fs[k] < |m| && m[fs[k]].Item?
    ensures k + 1 < |fs| && fs[k] + HEADER + m[fs[k]].length == fs[k + 1] <==> i + 1 < |bs| && bs[i + 1] in fs
    ensures i + 1 < |bs| && bs[i + 1] in fs ==> k + 1 < |fs| && bs[i + 1] == fs[k + 1]
  {
    TileOf(m, bs, i);
    if k + 1 < |fs| {
      assert fs[k + 1] in fs;
      var j :| 0 <= j < |bs| && bs[j] == fs[k + 1];
      TileOf(m, bs, j);
      assert j > i && (j > i + 1 ==> bs[i + 1] < bs[j]);
    }
    if i + 1 < |bs| && bs[i + 1] in fs {
      var j :| 0 <= j < |fs| && fs[j] == bs[i + 1];
      assert j > k && (j > k + 1 ==> fs[k + 1] < fs[j]);
    }
  }

  lemma AdjacentLeft(m: seq<Word>, bs: seq<nat>, fs: seq<nat>, i: nat, k: nat)
    requires Tiles(m, bs) && Ascending(fs) && (forall x :: x in fs ==> x in bs)
    requires i < |bs| && k < |fs| && bs[i] == fs[k] && (k > 0 ==> fs[k - 1] < |m| && m[fs[k - 1]].Item?)
    ensures k > 0 && fs[k - 1] + HEADER + m[fs[k - 1]].length == fs[k] <==> i > 0 && bs[i - 1] in fs
    ensures i > 0 && bs[i - 1] in fs ==> k > 0 && bs[i - 1] == fs[k - 1]
  {
    if k > 0 {
      assert fs[k - 1] in fs;
      var j :| 0 <= j < |bs| && bs[j] == fs[k - 1];
      TileOf(m, bs, j);
      assert j < i && (j < i - 1 ==> bs[j + 1] < bs[i]);
    }
    if i > 0 && bs[i - 1] in fs {
      TileOf(m, bs, i - 1);
      var j :| 0 <= j < |fs| && fs[j] == bs[i - 1];
      assert j < k && fs[j] <= fs[k - 1];
    }
  }

  /** The loose block, entry i, has no free neighbour after all. */
  lemma Settle(bs: seq<nat>, fs: seq<nat>, i: nat)
    requires i < |bs| && Apart(bs, fs, bs[i]) && Distinct(bs)
    requires (i > 0 ==> bs[i - 1] !in fs) && (i + 1 < |bs| ==> bs[i + 1] !in fs)
    ensures Apart(bs, fs, NULL)
  {
    forall j | 0 <= j < |bs| - 1
      ensures ApartAt(bs, fs, j)
    {
      assert j != i && j + 1 != i ==> ApartAt(bs, fs, j);
    }
  }

  /** Free block i, entry k of the free list, joined to the free block before it, which is loose from then on. */
  lemma JoinLists(bs: seq<nat>, fs: seq<nat>, as_: seq<nat>, i: nat, k: nat, loose: nat)
    requires Parts(bs, fs, as_) && Distinct(bs) && Distinct(fs) && Apart(bs, fs, loose) && bs != []
        && bs[|bs| - 1] in fs
    requires 0 < i < |bs| && 0 < k < |fs| && bs[i] == fs[k] && bs[i - 1] == fs[k - 1]
        && (loose == bs[i] || loose == bs[i - 1])
    ensures var bs', fs' := B.Removed(bs, i), B.Removed(fs, k);
      Parts(bs', fs', as_) && Apart(bs', fs', bs[i - 1]) && bs' != [] && bs'[|bs'| - 1] in fs'
    ensures forall x :: x in B.Removed(fs, k) <==> x in fs && x != fs[k]
  {
    forall x: nat
      ensures x in B.Removed(bs, i) <==> x in bs && x != bs[i]
      ensures x in B.Removed(fs, k) <==> x in fs && x != fs[k]
    {
      B.RemovedMember(bs, i, x);
      B.RemovedMember(fs, k, x);
    }
    B.RemovedIndex(bs, i);
    var bs', fs' := B.Removed(bs, i), B.Removed(fs, k);
    hide B.Removed;
    assert fs[k] in fs && fs[k - 1] in fs;
    forall j | 0 <= j < |bs'| - 1 && bs'[j] != bs[i - 1] && bs'[j + 1] != bs[i - 1]
      ensures ApartAt(bs', fs', j)
    {
      assert j != i - 1;
      var j0 := if j < i then j else j + 1;
      assert ApartAt(bs, fs, j0);
    }
  }

  /** The same in memory: the joined block takes the length and the link of the one it absorbs. */
  lemma JoinMemory(m: seq<Word>, m': seq<Word>, head: int, fs: seq<nat>, bs: seq<nat>, i: nat, k: nat)
    requires Chain(m, head, fs) && Tiles(m, bs) && (forall x :: x in fs ==> x in bs) && |m'| == |m|
    requires 0 < i < |bs| && 0 < k < |fs| && bs[i] == fs[k] && bs[i - 1] == fs[k - 1]
    requires fs[k] < |m| && m[fs[k]].Item? && fs[k - 1] < |m| && m[fs[k - 1]].Item?
    requires m'[fs[k - 1]] == Item(m[fs[k - 1]].length + m[fs[k]].length + HEADER, m[fs[k]].next)
    requires forall b: nat :: b < |m| && b != fs[k] && b != fs[k - 1] ==> m'[b] == m[b]
    ensures Chain(m', head, B.Removed(fs, k)) && Tiles(m', B.Removed(bs, i))
  {
    JoinTiles(m, m', bs, i);
    CutLinked(m, m', head, fs, k);
  }

  lemma MidwayFacts(m: seq<Word>, freeList: int, fs: seq<nat>, allocateList: int, as_: seq<nat>, bs: seq<nat>,
        loose: int)
    requires Midway(m, freeList, fs, allocateList, as_, bs, loose)
    ensures Chain(m, freeList, fs) && Chain(m, allocateList, as_) && Tiles(m, bs) && Parts(bs, fs, as_)
    ensures Apart(bs, fs, loose) && bs != [] && bs[|bs| - 1] in fs && Distinct(bs) && Distinct(fs) && Distinct(as_)
    ensures Ascending(fs) && Ascending(as_)
    ensures forall x :: x in bs <==> x in fs || x in as_
    ensures forall x :: x in fs ==> x !in as_
  {
    TileOf(m, bs, 0);
  }

  lemma LayoutFacts(m: seq<Word>, freeList: int, fs: seq<nat>, allocateList: int, as_: seq<nat>, bs: seq<nat>)
    requires Layout(m, freeList, fs, allocateList, as_, bs)
    ensures Chain(m, freeList, fs) && Chain(m, allocateList, as_) && Tiles(m, bs) && Parts(bs, fs, as_)
    ensures Apart(bs, fs, NULL) && bs != [] && bs[|bs| - 1] in fs && Distinct(bs) && Distinct(fs) && Distinct(as_)
    ensures Ascending(fs) && Ascending(as_)
    ensures forall x :: x in bs <==> x in fs || x in as_
    ensures forall x :: x in fs ==> x !in as_
  {
    MidwayFacts(m, freeList, fs, allocateList, as_, bs, NULL);
  }

  lemma OnlySame(m: seq<Word>, bs: seq<nat>)
    ensures Only(m, m, bs, 0, 0)
  {
  }

  lemma OnlyTwice(m0: seq<Word>, m1: seq<Word>, m2: seq<Word>, bs: seq<nat>)
    requires Only(m0, m1, bs, 0, 0) && Only(m1, m2, bs, 0, 0)
    ensures Only(m0, m2, bs, 0, 0)
  {
  }

  lemma OnlyTwo(m: seq<Word>, m': seq<Word>, bs: seq<nat>, x: nat, y: nat)
    requires |m'| == |m| && x in bs && y in bs && forall b: nat :: b < |m| && b != x && b != y ==> m'[b] == m[b]
    ensures Only(m, m', bs, 0, 0)
  {
  }

  lemma JoinStep(m: seq<Word>, m': seq<Word>, freeList: int, fs: seq<nat>, allocateList: int, as_: seq<nat>,
        bs: seq<nat>, i: nat, k: nat, loose: nat)
    requires Midway(m, freeList, fs, allocateList, as_, bs, loose) && |m'| == |m|
    requires 0 < i < |bs| && 0 < k < |fs| && bs[i] == fs[k] && bs[i - 1] == fs[k - 1]
        && (loose == bs[i] || loose == bs[i - 1])
    requires fs[k] < |m| && m[fs[k]].Item? && fs[k - 1] < |m| && m[fs[k - 1]].Item?
    requires m'[fs[k - 1]] == Item(m[fs[k - 1]].length + m[fs[k]].length + HEADER, m[fs[k]].next)
    requires forall b: nat :: b < |m| && b != fs[k] && b != fs[k - 1] ==> m'[b] == m[b]
    ensures Midway(m', freeList, B.Removed(fs, k), allocateList, as_, B.Removed(bs, i), bs[i - 1])
    ensures Live(m', as_) == Live(m, as_) && Only(m, m', bs, 0, 0)
    ensures forall x :: x in B.Removed(fs, k) <==> x in fs && x != fs[k]
  {
    MidwayFacts(m, freeList, fs, allocateList, as_, bs, loose);
    hide Midway, Tiles, Parts, Apart, B.Removed, Live, Distinct, Ascending, Chain, Only;
    assert fs[k] in fs && fs[k - 1] in fs;
    OnlyTwo(m, m', bs, fs[k - 1], fs[k]);
    JoinMemory(m, m', freeList, fs, bs, i, k);
    JoinLists(bs, fs, as_, i, k, loose);
    ChainKept(m, m', allocateList, as_);
    MidwayIs(m', freeList, B.Removed(fs, k), allocateList, as_, B.Removed(bs, i), bs[i - 1]);
    LiveSame(m, m', as_);
  }

  lemma MidwayIs(m: seq<Word>, freeList: int, fs: seq<nat>, allocateList: int, as_: seq<nat>, bs: seq<nat>, loose: int)
    requires Chain(m, freeList, fs) && Chain(m, allocateList, as_) && Tiles(m, bs) && Parts(bs, fs, as_)
    requires Apart(bs, fs, loose) && bs != [] && bs[|bs| - 1] in fs
    ensures Midway(m, freeList, fs, allocateList, as_, bs, loose)
  {
  }

  lemma LiveSame(m: seq<Word>, m': seq<Word>, as_: seq<nat>)
    requires |m'| == |m| && forall b :: b in as_ && b < |m| ==> m'[b] == m[b]
    ensures Live(m', as_) == Live(m, as_)
  {
    LiveIs(m', as_, Live(m, as_));
  }

  /** After a join block i is loose; its neighbours are not free, so nothing more is to be joined. */
  lemma Settled(m: seq<Word>, freeList: int, fs: seq<nat>, allocateList: int, as_: seq<nat>, bs: seq<nat>, i: nat)
    requires i < |bs| && Midway(m, freeList, fs, allocateList, as_, bs, bs[i])
    requires (i > 0 ==> bs[i - 1] !in fs) && (i + 1 < |bs| ==> bs[i + 1] !in fs)
    ensures Layout(m, freeList, fs, allocateList, as_, bs)
  {
    MidwayFacts(m, freeList, fs, allocateList, as_, bs, bs[i]);
    hide Apart, Parts, Chain, Tiles;
    Settle(bs, fs, i);
  }

  /** A free block's other neighbour is not free, unless the block itself is loose. */
  lemma BehindFree(bs: seq<nat>, fs: seq<nat>, i: nat)
    requires Distinct(bs) && i < |bs| && Apart(bs, fs, bs[i])
    ensures i + 2 < |bs| && bs[i + 1] in fs ==> bs[i + 2] !in fs
    ensures i >= 2 && bs[i - 1] in fs ==> bs[i - 2] !in fs
  {
    assert i + 2 < |bs| ==> ApartAt(bs, fs, i + 1);
    assert i >= 2 ==> ApartAt(bs, fs, i - 2);
  }

  /** Block i takes in the free block behind it. */
  lemma MergeRight(m: seq<Word>, m': seq<Word>, freeList: int, fs: seq<nat>, allocateList: int, as_: seq<nat>,
        bs: seq<nat>, i: nat, k: nat)
    requires i < |bs| - 1 && k < |fs| - 1 && bs[i] == fs[k] && bs[i + 1] == fs[k + 1] && (i > 0 ==> bs[i - 1] !in fs)
    requires Midway(m, freeList, fs, allocateList, as_, bs, bs[i])
    requires fs[k] < |m| && m[fs[k]].Item? && fs[k + 1] < |m| && m[fs[k + 1]].Item?
    requires m' == m[fs[k] := Item(m[fs[k]].length + m[fs[k + 1]].length + HEADER, m[fs[k + 1]].next)]
    ensures Layout(m', freeList, B.Removed(fs, k + 1), allocateList, as_, B.Removed(bs, i + 1))
    ensures Live(m', as_) == Live(m, as_) && Only(m, m', bs, 0, 0)
  {
    MidwayFacts(m, freeList, fs, allocateList, as_, bs, bs[i]);
    hide Midway, Tiles, Parts, Apart, B.Removed, Live, Chain, Layout, Only, Distinct, Ascending;
    BehindFree(bs, fs, i);
    JoinStep(m, m', freeList, fs, allocateList, as_, bs, i + 1, k + 1, bs[i]);
    B.RemovedIndex(bs, i + 1);
    Settled(m', freeList, B.Removed(fs, k + 1), allocateList, as_, B.Removed(bs, i + 1), i);
  }

  /** What finsh_block_merge sees around block i, entry k of the free list. */
  lemma MergeView(m: seq<Word>, freeList: int, fs: seq<nat>, allocateList: int, as_: seq<nat>, bs: seq<nat>, i: nat,
        k: nat)
    requires i < |bs| && k < |fs| && bs[i] == fs[k] && Midway(m, freeList, fs, allocateList, as_, bs, bs[i])
    ensures fs[k] < |m| && m[fs[k]].Item? && m[fs[k]].next == (if k + 1 < |fs| then fs[k + 1] else NULL)
    ensures k > 0 ==> fs[k - 1] < |m| && m[fs[k - 1]].Item? && freeList != fs[k]
    ensures k == 0 ==> freeList == fs[k]
    ensures k + 1 < |fs| ==> fs[k + 1] < |m| && m[fs[k + 1]].Item?
    ensures k > 0 && fs[k - 1] + HEADER + m[fs[k - 1]].length == fs[k] <==> i > 0 && bs[i - 1] in fs
    ensures i > 0 && bs[i - 1] in fs ==> k > 0 && bs[i - 1] == fs[k - 1]
    ensures k + 1 < |fs| && fs[k] + HEADER + m[fs[k]].length == fs[k + 1] <==> i + 1 < |bs| && bs[i + 1] in fs
    ensures i + 1 < |bs| && bs[i + 1] in fs ==> k + 1 < |fs| && bs[i + 1] == fs[k + 1]
    ensures Chain(m, freeList, fs)
  {
    MidwayFacts(m, freeList, fs, allocateList, as_, bs, bs[i]);
    LinkOf(m, freeList, fs, k);
    HeadOf(m, freeList, fs);
    if k > 0 {
      LinkOf(m, freeList, fs, k - 1);
    }
    if k + 1 < |fs| {
      LinkOf(m, freeList, fs, k + 1);
    }
    hide Midway, Parts, Apart, Chain;
    AdjacentLeft(m, bs, fs, i, k);
    AdjacentRight(m, bs, fs, i, k);
  }

  /** The free block before block i takes it in. */
  lemma MergeLeft(m: seq<Word>, m': seq<Word>, freeList: int, fs: seq<nat>, allocateList: int, as_: seq<nat>,
        bs: seq<nat>, i: nat, k: nat)
    requires 0 < i < |bs| && 0 < k < |fs| && bs[i] == fs[k] && bs[i - 1] == fs[k - 1]
        && (i + 1 < |bs| ==> bs[i + 1] !in fs)
    requires Midway(m, freeList, fs, allocateList, as_, bs, bs[i])
    requires fs[k] < |m| && m[fs[k]].Item? && fs[k - 1] < |m| && m[fs[k - 1]].Item?
    requires |m'| == |m| && m'[fs[k - 1]] == Item(m[fs[k - 1]].length + m[fs[k]].length + HEADER, m[fs[k]].next)
    requires forall b: nat :: b < |m| && b != fs[k] && b != fs[k - 1] ==> m'[b] == m[b]
    ensures Layout(m', freeList, B.Removed(fs, k), allocateList, as_, B.Removed(bs, i))
    ensures Live(m', as_) == Live(m, as_) && Only(m, m', bs, 0, 0)
  {
    MidwayFacts(m, freeList, fs, allocateList, as_, bs, bs[i]);
    hide Midway, Tiles, Parts, Apart, B.Removed, Live, Chain, Layout, Only, Distinct, Ascending;
    BehindFree(bs, fs, i);
    JoinStep(m, m', freeList, fs, allocateList, as_, bs, i, k, bs[i]);
    B.RemovedIndex(bs, i);
    Settled(m', freeList, B.Removed(fs, k), allocateList, as_, B.Removed(bs, i), i - 1);
  }

  lemma DistinctAt(fs: seq<nat>, k: nat)
    requires Distinct(fs) && 0 < k < |fs| - 1
    ensures fs[k] != fs[k - 1] && fs[k] != fs[k + 1] && fs[k - 1] != fs[k + 1]
  {
  }

  lemma OnlyOne(m: seq<Word>, m': seq<Word>, bs: seq<nat>, x: nat, y: nat)
    requires x < |m| == |m'| && m' == m[x := m'[x]] && x == y && y in bs
    ensures Only(m, m', bs, 0, 0)
  {
  }

  /** The first half of a merge on both sides: block i has taken in the free block behind it. */
  lemma MergeHalf(m: seq<Word>, m1: seq<Word>, freeList: int, fs: seq<nat>, allocateList: int, as_: seq<nat>,
        bs: seq<nat>, i: nat, k: nat)
    requires 0 < i < |bs| - 1 && 0 < k < |fs| - 1 && bs[i] == fs[k] && bs[i - 1] == fs[k - 1] && bs[i + 1] == fs[k + 1]
    requires Midway(m, freeList, fs, allocateList, as_, bs, bs[i])
    requires fs[k] < |m| && m[fs[k]].Item? && fs[k + 1] < |m| && m[fs[k + 1]].Item?
    requires m1 == m[fs[k] := Item(m[fs[k]].length + m[fs[k + 1]].length + HEADER, m[fs[k + 1]].next)]
    ensures var fs1, bs1 := B.Removed(fs, k + 1), B.Removed(bs, i + 1);
      && Midway(m1, freeList, fs1, allocateList, as_, bs1, bs[i]) && Live(m1, as_) == Live(m, as_)
      && i < |bs1| && k < |fs1| && bs1[i] == bs[i] == fs1[k] && bs1[i - 1] == bs[i - 1] == fs1[k - 1]
      && (i + 1 < |bs1| ==> bs1[i + 1] !in fs1)
  {
    MidwayFacts(m, freeList, fs, allocateList, as_, bs, bs[i]);
    hide Midway, Tiles, Parts, Apart, B.Removed, Chain, Layout, Live, Only, Distinct, Ascending;
    BehindFree(bs, fs, i);
    JoinStep(m, m1, freeList, fs, allocateList, as_, bs, i + 1, k + 1, bs[i]);
    B.RemovedIndex(bs, i + 1);
    B.RemovedIndex(fs, k + 1);
  }

  /** The free block before block i takes it in together with the free block behind it. */
  lemma MergeBoth(m: seq<Word>, m': seq<Word>, freeList: int, fs: seq<nat>, allocateList: int, as_: seq<nat>,
        bs: seq<nat>, i: nat, k: nat)
    requires 0 < i < |bs| - 1 && 0 < k < |fs| - 1 && bs[i] == fs[k] && bs[i - 1] == fs[k - 1] && bs[i + 1] == fs[k + 1]
    requires Midway(m, freeList, fs, allocateList, as_, bs, bs[i])
    requires fs[k] < |m| && m[fs[k]].Item? && fs[k - 1] < |m| && m[fs[k - 1]].Item? && fs[k + 1] < |m|
        && m[fs[k + 1]].Item?
    requires m' == m[fs[k - 1] := Item(m[fs[k - 1]].length + m[fs[k]].length + m[fs[k + 1]].length + 2 * HEADER,
        m[fs[k + 1]].next)]
    ensures Layout(m', freeList, B.Removed(B.Removed(fs, k + 1), k), allocateList, as_,
        B.Removed(B.Removed(bs, i + 1), i))
    ensures Live(m', as_) == Live(m, as_) && Only(m, m', bs, 0, 0)
  {
    MidwayFacts(m, freeList, fs, allocateList, as_, bs, bs[i]);
    hide Midway, Tiles, Parts, Apart, B.Removed, Chain, Layout, Live, Only, Distinct, Ascending;
    DistinctAt(fs, k);
    OnlyOne(m, m', bs, fs[k - 1], bs[i - 1]);
    var m1 := m[fs[k] := Item(m[fs[k]].length + m[fs[k + 1]].length + HEADER, m[fs[k + 1]].next)];
    MergeHalf(m, m1, freeList, fs, allocateList, as_, bs, i, k);
    MergeLeft(m1, m', freeList, B.Removed(fs, k + 1), allocateList, as_, B.Removed(bs, i + 1), i, k);
  }

  // ---------- freeing ----------

  /** Taken off the allocated list and put on the free list: only the merge is left to do. */
  lemma FreeStep(m0: seq<Word>, m1: seq<Word>, m2: seq<Word>, f0: int, fs: seq<nat>, f2: int, a0: int, as_: seq<nat>,
        a1: int, bs: seq<nat>, k: nat)
    requires Layout(m0, f0, fs, a0, as_, bs) && k < |as_|
    requires Chain(m1, a1, B.Removed(as_, k)) && LinksOnly(m0, m1, as_)
    requires Chain(m2, f2, Put(fs, Below(fs, as_[k]), as_[k])) && LinksOnly(m1, m2, fs + [as_[k]])
    ensures Midway(m2, f2, Put(fs, Below(fs, as_[k]), as_[k]), a1, B.Removed(as_, k), bs, as_[k])
    ensures Live(m2, B.Removed(as_, k)) == Live(m0, as_) - {as_[k]} && Only(m0, m2, bs, 0, 0)
  {
    MidwayFacts(m0, f0, fs, a0, as_, bs, NULL);
    FreeLists(bs, fs, as_, k, Below(fs, as_[k]));
    assert as_[k] in as_;
    LinksAreOnly(m0, m1, as_, bs);
    LinksAreOnly(m1, m2, fs + [as_[k]], bs);
    LinksKeepTiles(m0, m1, bs, as_);
    LinksKeepTiles(m1, m2, bs, fs + [as_[k]]);
    LiveCut(m0, as_, k);
    LinksKeepLive(m0, m1, B.Removed(as_, k), as_);
    LinksKeepLive(m1, m2, B.Removed(as_, k), fs + [as_[k]]);
    hide Layout, Midway, Tiles, Parts, Apart, B.Removed, Chain, Live, Only, Distinct, Ascending, Put, LinksOnly;
    LinksKeepChain(m1, m2, a1, B.Removed(as_, k), fs + [as_[k]]);
    MidwayIs(m2, f2, Put(fs, Below(fs, as_[k]), as_[k]), a1, B.Removed(as_, k), bs, as_[k]);
  }

  lemma LiveCut(m: seq<Word>, as_: seq<nat>, k: nat)
    requires k < |as_| && Distinct(as_)
    ensures Live(m, B.Removed(as_, k)) == Live(m, as_) - {as_[k]}
    ensures forall x :: x in B.Removed(as_, k) <==> x in as_ && x != as_[k]
  {
    forall x: nat
      ensures x in B.Removed(as_, k) <==> x in as_ && x != as_[k]
    {
      B.RemovedMember(as_, k, x);
    }
    hide B.Removed;
    LiveIs(m, B.Removed(as_, k), Live(m, as_) - {as_[k]});
  }

  /** Only headers changed: all contents are kept. */
  lemma HeadersKeepPayloads(m: seq<Word>, m': seq<Word>, bs: seq<nat>, as_: seq<nat>, x: nat)
    requires Tiles(m, bs) && x in bs && x !in as_ && (forall y :: y in as_ ==> y in bs) && Only(m, m', bs, 0, 0)
    ensures PayloadsKept(m, m', as_, NULL)
  {
    var i :| 0 <= i < |bs| && bs[i] == x;
    TileOf(m, bs, i);
    if i + 1 < |bs| {
      TileOf(m, bs, i + 1);
    }
    PayloadsUntouched(m, m', bs, as_, i, x, x);
  }

  lemma LiveKeys(m: seq<Word>, head: int, as_: seq<nat>)
    requires Chain(m, head, as_)
    ensures forall b :: b in Live(m, as_) <==> b in as_
    ensures forall b :: b in as_ ==> b < |m| && m[b].Item? && Live(m, as_)[b] == m[b].length
  {
    forall b | b in as_
      ensures b < |m| && m[b].Item?
    {
      var i :| 0 <= i < |as_| && as_[i] == b;
      LinkOf(m, head, as_, i);
    }
  }

  lemma PayloadsSame(m: seq<Word>, freeList: int, fs: seq<nat>, allocateList: int, as_: seq<nat>, bs: seq<nat>)
    requires Layout(m, freeList, fs, allocateList, as_, bs)
    ensures PayloadsKept(m, m, as_, NULL)
  {
    HeadersKeepPayloads(m, m, bs, as_, bs[|bs| - 1]);
  }

  // ---------- allocating ----------

  /** The memory after finsh_block_split of the block h at p. */
  ghost predicate SplitAt(m: seq<Word>, m': seq<Word>, h: nat, p: nat) {
    && h + HEADER <= p && p + HEADER <= |m| == |m'| && m[h].Item? && p + HEADER <= h + HEADER + m[h].length
    && m'[h] == Item(p - h - HEADER, p) && m'[p] == Item(h + m[h].length - p, m[h].next)
    && forall b: nat :: b < |m| && b != h && b != p && b != p + 1 ==> m'[b] == m[b]
  }

  /** The split writes no other header. */
  lemma SplitOthers(m: seq<Word>, m': seq<Word>, bs: seq<nat>, i: nat, p: nat)
    requires Tiles(m, bs) && i < |bs| && SplitAt(m, m', bs[i], p)
    ensures forall b :: b in bs && b != bs[i] ==> b < |m| && m'[b] == m[b]
    ensures Tiles(m', B.Inserted(bs, i, p)) && p !in bs
    ensures p + HEADER <= if i + 1 < |bs| then bs[i + 1] else |m|
  {
    TileOf(m, bs, i);
    BetweenHeaders(bs, i, p, |m|);
    BetweenHeaders(bs, i, p + 1, |m|);
    forall b | b in bs && b != bs[i]
      ensures b < |m| && m'[b] == m[b]
    {
      var j :| 0 <= j < |bs| && bs[j] == b;
      TileOf(m, bs, j);
    }
    SplitTiles(m, m', bs, i, p);
  }

  lemma SplitChain(m: seq<Word>, m': seq<Word>, head: int, fs: seq<nat>, k: nat, p: nat)
    requires Chain(m, head, fs) && k < |fs| && SplitAt(m, m', fs[k], p) && (k + 1 < |fs| ==> p < fs[k + 1])
    requires forall b :: b in fs && b != fs[k] ==> b < |m| && m'[b] == m[b]
    ensures Chain(m', head, Put(fs, k + 1, p))
  {
    LinkOf(m, head, fs, k);
    var after := k + 1;
    forall i | 0 <= i < |fs|
      ensures PutLinkAt(m, m', fs, after, p, i)
    {
      LinkOf(m, head, fs, i);
    }
    PutChain(m, m', head, fs, k + 1, p);
  }

  lemma SplitStep(m: seq<Word>, m': seq<Word>, freeList: int, fs: seq<nat>, allocateList: int, as_: seq<nat>,
        bs: seq<nat>, i: nat, k: nat, p: nat)
    requires Layout(m, freeList, fs, allocateList, as_, bs) && i < |bs| && k < |fs| && bs[i] == fs[k]
        && SplitAt(m, m', bs[i], p)
    ensures Chain(m', freeList, Put(fs, k + 1, p)) && Chain(m', allocateList, as_) && Tiles(m', B.Inserted(bs, i, p))
        && p !in bs
    ensures Live(m', as_) == Live(m, as_) && Only(m, m', bs, p, p + HEADER)
    ensures p + HEADER <= if i + 1 < |bs| then bs[i + 1] else |m|
  {
    LayoutFacts(m, freeList, fs, allocateList, as_, bs);
    assert fs[k] in fs;
    SplitOthers(m, m', bs, i, p);
    LiveSame(m, m', as_);
    ChainKept(m, m', allocateList, as_);
    NextFree(bs, fs, i, k);
    hide Layout, Midway, Tiles, Parts, Apart, Chain, Live, Put, B.Inserted, Ascending, Distinct;
    SplitChain(m, m', freeList, fs, k, p);
  }

  lemma NextFree(bs: seq<nat>, fs: seq<nat>, i: nat, k: nat)
    requires Ordered(bs) && Ascending(fs) && (forall x :: x in fs ==> x in bs) && i < |bs| && k < |fs| && bs[i] == fs[k]
    ensures k + 1 < |fs| ==> i + 1 < |bs| && bs[i + 1] <= fs[k + 1]
  {
    if k + 1 < |fs| {
      assert fs[k + 1] in fs;
      var j :| 0 <= j < |bs| && bs[j] == fs[k + 1];
    }
  }

  lemma LengthKept(m: seq<Word>, m': seq<Word>, any: seq<nat>, x: nat)
    requires LinksOnly(m, m', any) && x < |m| && m[x].Item?
    ensures m'[x].Item? && m'[x].length == m[x].length
  {
  }

  lemma LivePut(m: seq<Word>, as_: seq<nat>, k: nat, x: nat)
    requires k <= |as_| && x < |m| && m[x].Item?
    ensures Live(m, Put(as_, k, x)) == Live(m, as_)[x := m[x].length]
  {
    PutIndex(as_, k, x);
    hide Put;
    LiveIs(m, Put(as_, k, x), Live(m, as_)[x := m[x].length]);
  }

  /** Relinking after the split: the lower part leaves the free list and joins the allocated list. */
  lemma TakeStep(ms: seq<Word>, m2: seq<Word>, m3: seq<Word>, f1: int, gs: seq<nat>, as_: seq<nat>, a1: int,
        bs': seq<nat>, k: nat)
    requires k < |gs| && Distinct(gs) && (forall x :: x in gs ==> x !in as_)
        && (forall x :: x in gs || x in as_ ==> x in bs')
    requires Tiles(ms, bs')
    requires Chain(m2, f1, B.Removed(gs, k)) && LinksOnly(ms, m2, gs)
    requires Chain(m3, a1, Put(as_, Below(as_, gs[k]), gs[k])) && LinksOnly(m2, m3, as_ + [gs[k]])
    requires gs[k] < |ms| && ms[gs[k]].Item?
    ensures Chain(m3, f1, B.Removed(gs, k)) && Tiles(m3, bs') && Only(ms, m3, bs', 0, 0)
    ensures Live(m3, Put(as_, Below(as_, gs[k]), gs[k])) == Live(ms, as_)[gs[k] := ms[gs[k]].length]
  {
    assert gs[k] in gs;
    var h := gs[k];
    LinksAreOnly(ms, m2, gs, bs');
    LinksAreOnly(m2, m3, as_ + [h], bs');
    LengthKept(ms, m2, gs, h);
    LengthKept(m2, m3, as_ + [h], h);
    forall x
      ensures x in B.Removed(gs, k) ==> x in gs && x != h
    {
      if x in B.Removed(gs, k) {
        B.RemovedMember(gs, k, x);
      }
    }
    hide Tiles, Chain, Live, Only, LinksOnly, Put, B.Removed;
    OnlyTwice(ms, m2, m3, bs');
    LinksKeepTiles(ms, m2, bs', gs);
    LinksKeepTiles(m2, m3, bs', as_ + [h]);
    LinksKeepChain(m2, m3, f1, B.Removed(gs, k), as_ + [h]);
    LinksKeepLive(ms, m2, as_, gs);
    LinksKeepLive(m2, m3, as_, as_ + [h]);
    LivePut(m3, as_, Below(as_, h), h);
  }

  lemma InListApart(fs: seq<nat>, as_: seq<nat>, k: nat)
    requires k < |fs| && forall x :: x in fs ==> x !in as_
    ensures fs[k] in fs && fs[k] !in as_
  {
  }

  lemma SplitLengths(m: seq<Word>, m': seq<Word>, h: nat, p: nat)
    requires SplitAt(m, m', h, p)
    ensures h < |m'| && m'[h].Item? && m'[h].length == p - h - HEADER
  {
  }

  /** The link of an entry that was just taken off its list. */
  lemma ClearLink(m: seq<Word>, m1: seq<Word>, m2: seq<Word>, head: int, list: seq<nat>, k: nat)
    requires k < |list| && Distinct(list) && Chain(m1, head, B.Removed(list, k)) && LinksOnly(m, m1, list)
    requires list[k] < |m1| && m1[list[k]].Item? && m2 == m1[list[k] := m1[list[k]].(next := NULL)]
    ensures Chain(m2, head, B.Removed(list, k)) && LinksOnly(m, m2, list)
  {
    assert list[k] in list;
    B.RemovedMember(list, k, list[k]);
    hide B.Removed;
    ChainKept(m1, m2, head, B.Removed(list, k));
  }

  lemma TakeLayout(m: seq<Word>, m': seq<Word>, f0: int, fs: seq<nat>, f1: int, a0: int, as_: seq<nat>, a1: int,
        bs: seq<nat>, i: nat, k: nat, p: nat)
    requires Layout(m, f0, fs, a0, as_, bs) && i < |bs| && k < |fs| && bs[i] == fs[k] && p !in bs
    requires Chain(m', f1, B.Removed(Put(fs, k + 1, p), k)) && Tiles(m', B.Inserted(bs, i, p))
    requires Chain(m', a1, Put(as_, Below(as_, bs[i]), bs[i]))
    ensures Layout(m', f1, B.Removed(Put(fs, k + 1, p), k), a1, Put(as_, Below(as_, bs[i]), bs[i]),
        B.Inserted(bs, i, p))
    ensures var bs' := B.Inserted(bs, i, p);
      |bs'| == |bs| + 1 && bs'[i] == bs[i] && bs'[i + 1] == p && forall x :: x in bs' <==> x in bs || x == p
  {
    LayoutFacts(m, f0, fs, a0, as_, bs);
    TakeLists(bs, fs, as_, i, k, p, Below(as_, bs[i]));
    TakeMembers(bs, fs, as_, i, k, p, Below(as_, bs[i]));
    B.InsertedIndex(bs, i, p);
    hide Chain, Tiles, Parts, Apart, B.Removed, B.Inserted, Put, Layout, Midway, Ascending, Distinct;
    LayoutIs(m', f1, B.Removed(Put(fs, k + 1, p), k), a1, Put(as_, Below(as_, bs[i]), bs[i]), B.Inserted(bs, i, p));
  }

  lemma OnlyAfter(m: seq<Word>, ms: seq<Word>, m': seq<Word>, bs: seq<nat>, bs': seq<nat>, p: nat)
    requires Only(m, ms, bs, p, p + HEADER) && Only(ms, m', bs', 0, 0) && forall x :: x in bs' ==> x in bs || x == p
    ensures Only(m, m', bs, p, p + HEADER)
  {
  }

  /** Words that are no headers hold data: writing them leaves the layout alone. */
  lemma DataStep(m: seq<Word>, m': seq<Word>, freeList: int, fs: seq<nat>, allocateList: int, as_: seq<nat>,
        bs: seq<nat>)
    requires Layout(m, freeList, fs, allocateList, as_, bs) && |m'| == |m|
    requires forall b :: b in bs && b < |m| ==> m'[b] == m[b]
    ensures Layout(m', freeList, fs, allocateList, as_, bs) && Live(m', as_) == Live(m, as_)
  {
    LayoutFacts(m, freeList, fs, allocateList, as_, bs);
    hide Layout, Parts, Apart;
    ChainKept(m, m', freeList, fs);
    ChainKept(m, m', allocateList, as_);
    TilesKept(m, m', bs);
    LiveSame(m, m', as_);
    hide Chain, Tiles, Live;
    LayoutIs(m', freeList, fs, allocateList, as_, bs);
  }

  lemma LayoutIs(m: seq<Word>, freeList: int, fs: seq<nat>, allocateList: int, as_: seq<nat>, bs: seq<nat>)
    requires Chain(m, freeList, fs) && Chain(m, allocateList, as_) && Tiles(m, bs) && Parts(bs, fs, as_)
    requires Apart(bs, fs, NULL) && bs != [] && bs[|bs| - 1] in fs
    ensures Layout(m, freeList, fs, allocateList, as_, bs)
  {
  }

  /** No word inside a block is a header. */
  lemma InsideIsData(m: seq<Word>, bs: seq<nat>, x: nat, k: nat)
    requires Tiles(m, bs) && x in bs && Inside(m, x, k)
    ensures k !in bs && k < |m|
  {
    var i :| 0 <= i < |bs| && bs[i] == x;
    TileOf(m, bs, i);
    if i + 1 < |bs| {
      TileOf(m, bs, i + 1);
    }
    BetweenHeaders(bs, i, k, |m|);
  }

  /** The words of block i up to the next header are no headers. */
  lemma RoomIsData(m: seq<Word>, bs: seq<nat>, i: nat)
    requires Tiles(m, bs) && i + 1 < |bs|
    ensures forall b :: b in bs ==> !(bs[i] + HEADER <= b < bs[i + 1])
  {
    forall b | b in bs && bs[i] + HEADER <= b < bs[i + 1]
      ensures false
    {
      BetweenHeaders(bs, i, b, |m|);
    }
  }

  lemma OnlyRoom(m: seq<Word>, m1: seq<Word>, m': seq<Word>, bs: seq<nat>, lo: nat, p: nat)
    requires Only(m, m1, bs, p, p + HEADER) && lo <= p && |m'| == |m1|
    requires forall k: nat :: k < |m1| && !(lo <= k < p) ==> m'[k] == m1[k]
    ensures Only(m, m', bs, lo, p + HEADER)
  {
  }

  lemma DeliverPayloads(m: seq<Word>, m': seq<Word>, bs: seq<nat>, as_: seq<nat>, i: nat, lo: nat, hi: nat)
    requires Tiles(m, bs) && (forall x :: x in as_ ==> x in bs) && i < |bs| && bs[i] <= lo && Only(m, m', bs, lo, hi)
    requires hi <= (if i + 1 < |bs| then bs[i + 1] else |m|) && bs[i] !in as_
    ensures PayloadsKept(m, m', as_, NULL)
  {
    PayloadsUntouched(m, m', bs, as_, i, lo, hi);
  }
}
