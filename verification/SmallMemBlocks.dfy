/**
 The layout mem.c keeps in the system heap: block headers linked by offsets in address order, up to
 heap_end. Offsets are in 32-bit words; a header takes three.
 */
module SmallMemBlocks {
  import opened Lists
  import B = MemHeapBlocks

  datatype Word =
    | Item(used: bool, next: int, prev: int)
    | Body
    | Data(v: int)

  const HEADER: nat := 3
  const NULL: int := -1

  /** heap_end */
  ghost function End(m: seq<Word>): int { |m| - 3 }

  ghost predicate Ordered(bs: seq<nat>, end: int) {
    && |bs| >= 2 && bs[0] == 0 && bs[|bs| - 1] == end
    && forall i, j :: 0 <= i < j < |bs| ==> bs[i] + HEADER <= bs[j]
  }

  /** Block j is linked to its neighbours; heap_end is in use, points to itself, and its prev means nothing. */
  ghost predicate LinkedAt(m: seq<Word>, bs: seq<nat>, j: nat)
    requires j < |bs|
  {
    && bs[j] < |m| && m[bs[j]].Item?
    && (if j + 1 < |bs| then m[bs[j]].next == bs[j + 1] && m[bs[j]].prev == (if j > 0 then bs[j - 1] else 0)
        else m[bs[j]].next == End(m) && m[bs[j]].used)
  }

  ghost predicate Chain(m: seq<Word>, bs: seq<nat>) {
    && |m| >= 6 && Ordered(bs, End(m))
    && forall j {:trigger LinkedAt(m, bs, j)} :: 0 <= j < |bs| ==> LinkedAt(m, bs, j)
  }

  /** The blocks tile the heap: headers in address order, prev the inverse of next everywhere but at heap_end. */
  ghost predicate Tiles(m: seq<Word>, bs: seq<nat>) {
    Chain(m, bs) && forall b :: b in bs ==> b <= End(m) && m[b].Item?
  }

  lemma ChainTiles(m: seq<Word>, bs: seq<nat>)
    requires Chain(m, bs)
    ensures Tiles(m, bs)
  {
    forall b | b in bs
      ensures b <= End(m) && m[b].Item?
    {
      var j :| 0 <= j < |bs| && bs[j] == b;
      assert LinkedAt(m, bs, j);
    }
  }

  ghost predicate ApartAt(m: seq<Word>, bs: seq<nat>, j: nat)
    requires j + 1 < |bs|
  {
    && bs[j] < |m| && m[bs[j]].Item? && bs[j + 1] < |m| && m[bs[j + 1]].Item?
    && (m[bs[j]].used || m[bs[j + 1]].used)
  }

  /** No two neighbours are both free; pairs with the block loose are exempt. */
  ghost predicate ApartBut(m: seq<Word>, bs: seq<nat>, loose: int) {
    forall j {:trigger ApartAt(m, bs, j)} :: 0 <= j < |bs| - 1 && bs[j] != loose && bs[j + 1] != loose ==>
      ApartAt(m, bs, j)
  }

  ghost predicate Midway(m: seq<Word>, bs: seq<nat>, loose: int) { Tiles(m, bs) && ApartBut(m, bs, loose) }

  ghost predicate Layout(m: seq<Word>, bs: seq<nat>) { Midway(m, bs, NULL) }

  function Size(m: seq<Word>, b: nat): int
    requires b < |m| && m[b].Item?
  {
    m[b].next - b - HEADER
  }

  /** The blocks users hold: header offset to payload size in words. */
  ghost function Live(m: seq<Word>, bs: seq<nat>): map<nat, int> {
    map b | b in bs && b < End(m) && m[b].Item? && m[b].used :: Size(m, b)
  }

  lemma LiveIs(m: seq<Word>, bs: seq<nat>, want: map<nat, int>)
    requires forall b :: b in bs ==> b < |m| && m[b].Item?
    requires forall b :: b in want <==> b in bs && b < End(m) && m[b].used
    requires forall b :: b in want ==> want[b] == Size(m, b)
    ensures Live(m, bs) == want
  {
  }

  /** The span of block b, header included, if it is in use. */
  ghost function Own(m: seq<Word>, b: nat): int {
    if b < End(m) && m[b].Item? && m[b].used then m[b].next - b else 0
  }

  ghost function UsedWords(m: seq<Word>, bs: seq<nat>): int {
    if bs == [] then 0 else Own(m, bs[0]) + UsedWords(m, bs[1..])
  }

  lemma {:induction false} UsedAppend(m: seq<Word>, a: seq<nat>, b: seq<nat>)
    ensures UsedWords(m, a + b) == UsedWords(m, a) + UsedWords(m, b)
  {
    if a == [] {
      assert a + b == b;
    } else {
      assert (a + b)[1..] == a[1..] + b;
      UsedAppend(m, a[1..], b);
    }
  }

  lemma {:induction false} UsedKept(m: seq<Word>, m': seq<Word>, a: seq<nat>)
    requires forall x :: x in a ==> Own(m', x) == Own(m, x)
    ensures UsedWords(m', a) == UsedWords(m, a)
  {
    if a != [] {
      assert a[0] in a && forall x :: x in a[1..] ==> x in a;
      UsedKept(m, m', a[1..]);
    }
  }

  lemma UsedAt(m: seq<Word>, bs: seq<nat>, i: nat)
    requires i < |bs|
    ensures UsedWords(m, bs) == UsedWords(m, bs[..i]) + Own(m, bs[i]) + UsedWords(m, bs[i + 1..])
  {
    var rest := [bs[i]] + bs[i + 1..];
    assert bs == bs[..i] + rest && rest[1..] == bs[i + 1..];
    UsedAppend(m, bs[..i], rest);
  }

  lemma UsedChanged(m: seq<Word>, m': seq<Word>, bs: seq<nat>, i: nat)
    requires i < |bs| && Distinct(bs) && forall b :: b in bs && b != bs[i] ==> Own(m', b) == Own(m, b)
    ensures UsedWords(m', bs) == UsedWords(m, bs) - Own(m, bs[i]) + Own(m', bs[i])
  {
    UsedAt(m, bs, i);
    UsedAt(m', bs, i);
    assert bs[i] !in bs[..i] && bs[i] !in bs[i + 1..];
    UsedKept(m, m', bs[..i]);
    UsedKept(m, m', bs[i + 1..]);
  }

  lemma UsedInserted(m: seq<Word>, bs: seq<nat>, i: nat, p: nat)
    requires i < |bs|
    ensures UsedWords(m, B.Inserted(bs, i, p)) == UsedWords(m, bs) + Own(m, p)
  {
    var cs := B.Inserted(bs, i, p);
    assert bs == bs[..i + 1] + bs[i + 1..];
    assert cs[..i + 1] == bs[..i + 1] && cs[i + 2..] == bs[i + 1..] && cs[i + 1] == p;
    UsedAppend(m, bs[..i + 1], bs[i + 1..]);
    UsedAt(m, cs, i + 1);
  }

  lemma UsedRemoved(m: seq<Word>, bs: seq<nat>, i: nat)
    requires i < |bs|
    ensures UsedWords(m, B.Removed(bs, i)) == UsedWords(m, bs) - Own(m, bs[i])
  {
    UsedAt(m, bs, i);
    UsedAppend(m, bs[..i], bs[i + 1..]);
  }

  lemma Around(m: seq<Word>, bs: seq<nat>, i: nat)
    requires Tiles(m, bs) && i < |bs|
    ensures bs[i] <= End(m) && m[bs[i]].Item? && Distinct(bs) && (i + 1 == |bs| <==> bs[i] == End(m))
    ensures i + 1 == |bs| ==> m[bs[i]].used
    ensures i + 1 < |bs| ==> m[bs[i]].next == bs[i + 1] <= End(m) && bs[i] + HEADER <= bs[i + 1]
                             && m[bs[i]].prev == (if i > 0 then bs[i - 1] else 0)
    ensures i > 0 <==> bs[i] > 0
  {
    assert LinkedAt(m, bs, i);
  }

  // ---------- the three changes ----------

  /** The used flag of block i. */
  ghost function Marked(m: seq<Word>, h: nat, u: bool): seq<Word>
    requires h < |m| && m[h].Item?
  {
    m[h := m[h].(used := u)]
  }

  lemma MarkApart(m: seq<Word>, bs: seq<nat>, h: nat, u: bool)
    requires ApartBut(m, bs, h) && h < |m| && m[h].Item?
    ensures ApartBut(Marked(m, h, u), bs, h)
  {
    var m' := Marked(m, h, u);
    forall j | 0 <= j < |bs| - 1 && bs[j] != h && bs[j + 1] != h
      ensures ApartAt(m', bs, j)
    {
      assert ApartAt(m, bs, j);
    }
  }

  lemma MarkStep(m: seq<Word>, bs: seq<nat>, i: nat, u: bool, loose: int)
    requires Midway(m, bs, loose) && i < |bs| - 1 && loose == bs[i]
    ensures bs[i] < |m| && m[bs[i]].Item? && Midway(Marked(m, bs[i], u), bs, loose)
    ensures UsedWords(Marked(m, bs[i], u), bs) == UsedWords(m, bs) - Own(m, bs[i])
        + (if u then Size(m, bs[i]) + HEADER else 0)
    ensures Live(Marked(m, bs[i], u), bs) == if u then Live(m, bs)[bs[i] := Size(m, bs[i])] else Live(m, bs) - {bs[i]}
  {
    hide Chain, ApartBut, Distinct;
    Around(m, bs, i);
    MarkedTiles(m, bs, i, u);
    MarkApart(m, bs, bs[i], u);
    var h, m' := bs[i], Marked(m, bs[i], u);
    UsedChanged(m, m', bs, i);
    if u {
      LiveIs(m', bs, Live(m, bs)[h := Size(m, h)]);
    } else {
      LiveIs(m', bs, Live(m, bs) - {h});
    }
  }

  lemma MarkedTiles(m: seq<Word>, bs: seq<nat>, i: nat, u: bool)
    requires Tiles(m, bs) && i < |bs| - 1
    ensures Tiles(Marked(m, bs[i], u), bs)
  {
    var m' := Marked(m, bs[i], u);
    forall j | 0 <= j < |bs|
      ensures LinkedAt(m', bs, j)
    {
      assert LinkedAt(m, bs, j);
    }
    ChainTiles(m', bs);
  }

  /** A header written at p goes between block i and the one behind it; heap_end keeps its prev. */
  ghost function Added(m1: seq<Word>, h: nat, p: nat, next: nat): seq<Word>
    requires h < |m1| && m1[h].Item? && next < |m1| && m1[next].Item? && h != next
  {
    var m2 := m1[h := m1[h].(next := p)];
    if next != End(m1) then m2[next := m2[next].(prev := p)] else m2
  }

  /** m1 is m with the words from p to p + 3 overwritten by a free header. */
  ghost predicate HeaderAt(m: seq<Word>, m1: seq<Word>, p: nat, next: int, prev: int) {
    && |m1| == |m| && p + HEADER <= |m| && m1[p] == Item(false, next, prev)
    && forall k :: 0 <= k < |m| && !(p <= k < p + HEADER) ==> m1[k] == m[k]
  }

  lemma OrderedInserted(bs: seq<nat>, end: int, i: nat, p: nat)
    requires Ordered(bs, end) && i < |bs| - 1 && bs[i] + HEADER <= p && p + HEADER <= bs[i + 1]
    ensures Ordered(B.Inserted(bs, i, p), end) && p !in bs
  {
    B.InsertedIndex(bs, i, p);
    var cs := B.Inserted(bs, i, p);
    hide B.Inserted;
    forall j, k | 0 <= j < k < |cs|
      ensures cs[j] + HEADER <= cs[k]
    {
      assert j <= i ==> bs[j] <= bs[i];
      assert k > i + 1 ==> bs[k - 1] >= bs[i + 1];
    }
    assert forall j :: 0 <= j < |bs| ==> bs[j] != p;
  }

  lemma OldHeaders(m: seq<Word>, m1: seq<Word>, bs: seq<nat>, i: nat, p: nat, next: int, prev: int)
    requires Tiles(m, bs) && i < |bs| - 1 && bs[i] + HEADER <= p && p + HEADER <= bs[i + 1]
        && HeaderAt(m, m1, p, next, prev)
    ensures forall b :: b in bs ==> m1[b] == m[b]
  {
    forall b | b in bs
      ensures m1[b] == m[b]
    {
      var j :| 0 <= j < |bs| && bs[j] == b;
    }
  }

  /** Block k of the old chain after p was put behind block i. */
  ghost predicate SplicedAt(m: seq<Word>, bs: seq<nat>, i: nat, p: nat, k: nat)
    requires k < |bs|
  {
    && bs[k] < |m| && m[bs[k]].Item?
    && (if k + 1 < |bs| then
          m[bs[k]].next == (if k == i then p else bs[k + 1])
          && m[bs[k]].prev == (if k == i + 1 then p else if k > 0 then bs[k - 1] else 0)
        else m[bs[k]].next == End(m) && m[bs[k]].used)
  }

  lemma AddedSplices(m: seq<Word>, m1: seq<Word>, bs: seq<nat>, i: nat, p: nat)
    requires Tiles(m, bs) && i < |bs| - 1 && bs[i] + HEADER <= p && p + HEADER <= bs[i + 1]
    requires HeaderAt(m, m1, p, bs[i + 1], bs[i])
    ensures bs[i] < bs[i + 1] < |m1| && m1[bs[i]].Item? && m1[bs[i + 1]].Item? && m1[bs[i]] == m[bs[i]]
    ensures Added(m1, bs[i], p, bs[i + 1])[p] == Item(false, bs[i + 1], bs[i])
    ensures forall k {:trigger SplicedAt(Added(m1, bs[i], p, bs[i + 1]), bs, i, p, k)} ::
      0 <= k < |bs| ==> SplicedAt(Added(m1, bs[i], p, bs[i + 1]), bs, i, p, k)
  {
    OldHeaders(m, m1, bs, i, p, bs[i + 1], bs[i]);
    var hi := i + 1;
    assert LinkedAt(m, bs, i) && LinkedAt(m, bs, hi) && bs[i] in bs && bs[hi] in bs;
    var m' := Added(m1, bs[i], p, bs[hi]);
    forall k | 0 <= k < |bs|
      ensures SplicedAt(m', bs, i, p, k)
    {
      assert LinkedAt(m, bs, k) && bs[k] in bs;
    }
  }

  lemma SplicedTiles(m: seq<Word>, bs: seq<nat>, i: nat, p: nat)
    requires |m| >= 6 && Ordered(bs, End(m)) && i < |bs| - 1 && bs[i] + HEADER <= p && p + HEADER <= bs[i + 1]
    requires p < |m| && m[p] == Item(false, bs[i + 1], bs[i])
    requires forall k {:trigger SplicedAt(m, bs, i, p, k)} :: 0 <= k < |bs| ==> SplicedAt(m, bs, i, p, k)
    ensures Tiles(m, B.Inserted(bs, i, p))
  {
    OrderedInserted(bs, End(m), i, p);
    B.InsertedIndex(bs, i, p);
    var cs := B.Inserted(bs, i, p);
    hide B.Inserted, Ordered;
    forall j | 0 <= j < |cs|
      ensures LinkedAt(m, cs, j)
    {
      if j != i + 1 {
        assert SplicedAt(m, bs, i, p, if j <= i then j else j - 1);
      }
    }
    ChainTiles(m, cs);
  }

  lemma AddedTiles(m: seq<Word>, m1: seq<Word>, bs: seq<nat>, i: nat, p: nat)
    requires Tiles(m, bs) && i < |bs| - 1 && bs[i] + HEADER <= p && p + HEADER <= bs[i + 1]
    requires HeaderAt(m, m1, p, bs[i + 1], bs[i])
    ensures bs[i] < bs[i + 1] < |m1| && m1[bs[i]].Item? && m1[bs[i + 1]].Item? && m1[bs[i]] == m[bs[i]]
    ensures Tiles(Added(m1, bs[i], p, bs[i + 1]), B.Inserted(bs, i, p))
  {
    hide SplicedAt, Ordered, LinkedAt, B.Inserted;
    AddedSplices(m, m1, bs, i, p);
    SplicedTiles(Added(m1, bs[i], p, bs[i + 1]), bs, i, p);
  }

  /** What the blocks of bs other than x show is unchanged. */
  ghost predicate SameFlags(m: seq<Word>, m': seq<Word>, bs: seq<nat>, x: nat) {
    |m'| == |m| && forall b :: b in bs && b != x ==>
      b < |m| && m[b].Item? && m'[b].Item? && m'[b].used == m[b].used && (b < End(m) ==> m'[b].next == m[b].next)
  }

  ghost predicate IsSplit(m: seq<Word>, m': seq<Word>, bs: seq<nat>, i: nat, p: nat) {
    && Tiles(m, bs) && i < |bs| - 1 && bs[i] < p < bs[i + 1] && p !in bs && Tiles(m', B.Inserted(bs, i, p))
    && SameFlags(m, m', bs, bs[i])
    && bs[i] < End(m) && m[bs[i]].Item? && m'[bs[i]].Item? && m'[bs[i]].used == m[bs[i]].used && m'[bs[i]].next == p
    && m[bs[i]].next == bs[i + 1] && p < End(m) && m'[p].Item? && !m'[p].used && m'[p].next == bs[i + 1]
  }

  lemma AddedIsSplit(m: seq<Word>, m1: seq<Word>, bs: seq<nat>, i: nat, p: nat)
    requires Tiles(m, bs) && i < |bs| - 1 && bs[i] + HEADER <= p && p + HEADER <= bs[i + 1]
    requires HeaderAt(m, m1, p, bs[i + 1], bs[i])
    ensures bs[i] < bs[i + 1] < |m1| && m1[bs[i]].Item? && m1[bs[i + 1]].Item? && m1[bs[i]] == m[bs[i]]
    ensures IsSplit(m, Added(m1, bs[i], p, bs[i + 1]), bs, i, p)
  {
    hide Chain, B.Inserted, Distinct;
    AddedTiles(m, m1, bs, i, p);
    OldHeaders(m, m1, bs, i, p, bs[i + 1], bs[i]);
    NotInside(m, bs, i, p);
    Around(m, bs, i);
    Around(m, bs, i + 1);
  }

  lemma NotInside(m: seq<Word>, bs: seq<nat>, i: nat, p: nat)
    requires Tiles(m, bs) && i < |bs| - 1 && bs[i] < p < bs[i + 1]
    ensures p !in bs
  {
    assert forall j :: 0 <= j < |bs| ==> bs[j] != p;
  }

  lemma SplitApart(m: seq<Word>, m': seq<Word>, bs: seq<nat>, i: nat, p: nat, loose: int)
    requires IsSplit(m, m', bs, i, p) && ApartBut(m, bs, NULL) && loose == p
    ensures ApartBut(m', B.Inserted(bs, i, p), loose)
  {
    var cs := B.Inserted(bs, i, p);
    B.InsertedIndex(bs, i, p);
    hide B.Inserted, Tiles;
    forall k | 0 <= k < |cs| - 1 && cs[k] != loose && cs[k + 1] != loose
      ensures ApartAt(m', cs, k)
    {
      if k < i {
        assert ApartAt(m, bs, k) && bs[k] in bs && bs[k + 1] in bs;
      } else if k > i + 1 {
        assert ApartAt(m, bs, k - 1) && bs[k - 1] in bs && bs[k] in bs;
      }
    }
  }

  lemma SplitMembers(bs: seq<nat>, i: nat, p: nat)
    requires i < |bs|
    ensures forall x :: x in B.Inserted(bs, i, p) <==> x in bs || x == p
  {
    forall x: nat
      ensures x in B.Inserted(bs, i, p) <==> x in bs || x == p
    {
      B.InsertedMember(bs, i, p, x);
    }
  }

  lemma SplitLive(m: seq<Word>, m': seq<Word>, bs: seq<nat>, i: nat, p: nat)
    requires IsSplit(m, m', bs, i, p)
    ensures m[bs[i]].used ==> Live(m', B.Inserted(bs, i, p)) == Live(m, bs)[bs[i] := p - bs[i] - HEADER]
    ensures !m[bs[i]].used ==> Live(m', B.Inserted(bs, i, p)) == Live(m, bs)
  {
    hide B.Inserted, Chain;
    SplitMembers(bs, i, p);
    if m[bs[i]].used {
      LiveIs(m', B.Inserted(bs, i, p), Live(m, bs)[bs[i] := p - bs[i] - HEADER]);
    } else {
      LiveIs(m', B.Inserted(bs, i, p), Live(m, bs));
    }
  }

  lemma SplitUsed(m: seq<Word>, m': seq<Word>, bs: seq<nat>, i: nat, p: nat)
    requires IsSplit(m, m', bs, i, p)
    ensures UsedWords(m', B.Inserted(bs, i, p)) == UsedWords(m, bs) - (if m[bs[i]].used then bs[i + 1] - p else 0)
  {
    hide B.Inserted, Chain, Distinct;
    Around(m, bs, i);
    UsedInserted(m', bs, i, p);
    UsedChanged(m, m', bs, i);
  }

  /** Block i leaves the chain; the block before it takes its room. */
  ghost function Dropped(m: seq<Word>, h: nat, next: nat): seq<Word>
    requires h < |m| && m[h].Item? && next < |m| && m[next].Item? && h != next
  {
    m[h := m[h].(next := next)][next := m[next].(prev := h)]
  }

  lemma OrderedRemoved(bs: seq<nat>, end: int, i: nat)
    requires Ordered(bs, end) && 0 < i < |bs| - 1
    ensures Ordered(B.Removed(bs, i), end)
  {
    B.RemovedIndex(bs, i);
    hide B.Removed;
  }

  /** Block k of the old chain after block i was bypassed. */
  ghost predicate BypassedAt(m: seq<Word>, bs: seq<nat>, i: nat, k: nat)
    requires k < |bs|
  {
    && bs[k] < |m| && m[bs[k]].Item?
    && (if k + 1 < |bs| then
          m[bs[k]].next == (if k + 1 == i && i + 1 < |bs| then bs[i + 1] else bs[k + 1])
          && m[bs[k]].prev == (if k == i + 1 && i > 0 then bs[i - 1] else if k > 0 then bs[k - 1] else 0)
        else m[bs[k]].next == End(m) && m[bs[k]].used)
  }

  lemma DropBypasses(m: seq<Word>, bs: seq<nat>, i: nat)
    requires Tiles(m, bs) && 0 < i < |bs| - 1
    ensures bs[i - 1] < bs[i + 1] < |m| && m[bs[i - 1]].Item? && m[bs[i + 1]].Item?
    ensures forall k {:trigger BypassedAt(Dropped(m, bs[i - 1], bs[i + 1]), bs, i, k)} ::
      0 <= k < |bs| && k != i ==> BypassedAt(Dropped(m, bs[i - 1], bs[i + 1]), bs, i, k)
  {
    var lo, hi := i - 1, i + 1;
    assert LinkedAt(m, bs, lo) && LinkedAt(m, bs, hi);
    var m' := Dropped(m, bs[lo], bs[hi]);
    forall k | 0 <= k < |bs| && k != i
      ensures BypassedAt(m', bs, i, k)
    {
      assert LinkedAt(m, bs, k);
    }
  }

  lemma BypassedTiles(m: seq<Word>, bs: seq<nat>, i: nat)
    requires |m| >= 6 && Ordered(bs, End(m)) && 0 < i < |bs| - 1
    requires forall k {:trigger BypassedAt(m, bs, i, k)} :: 0 <= k < |bs| && k != i ==> BypassedAt(m, bs, i, k)
    ensures Tiles(m, B.Removed(bs, i))
  {
    OrderedRemoved(bs, End(m), i);
    B.RemovedIndex(bs, i);
    var cs := B.Removed(bs, i);
    hide B.Removed, Ordered;
    forall j | 0 <= j < |cs|
      ensures LinkedAt(m, cs, j)
    {
      assert BypassedAt(m, bs, i, if j < i then j else j + 1);
    }
    ChainTiles(m, cs);
  }

  lemma DroppedTiles(m: seq<Word>, bs: seq<nat>, i: nat)
    requires Tiles(m, bs) && 0 < i < |bs| - 1
    ensures bs[i - 1] < bs[i + 1] < |m| && m[bs[i - 1]].Item? && m[bs[i + 1]].Item?
    ensures Tiles(Dropped(m, bs[i - 1], bs[i + 1]), B.Removed(bs, i))
  {
    hide BypassedAt, Ordered, LinkedAt, B.Removed;
    DropBypasses(m, bs, i);
    BypassedTiles(Dropped(m, bs[i - 1], bs[i + 1]), bs, i);
  }

  ghost predicate IsDrop(m: seq<Word>, m': seq<Word>, bs: seq<nat>, i: nat) {
    && Tiles(m, bs) && 0 < i < |bs| - 1 && Tiles(m', B.Removed(bs, i)) && Distinct(bs)
    && bs[i] < |m| && m[bs[i]].Item? && !m[bs[i]].used && m[bs[i]].next == bs[i + 1] && var h := bs[i - 1];
    && SameFlags(m, m', B.Removed(bs, i), h)
    && h < End(m) && m[h].Item? && m'[h].Item? && m'[h].used == m[h].used && m'[h].next == bs[i + 1]
      && m[h].next == bs[i]
    && (forall x :: x in B.Removed(bs, i) <==> x in bs && x != bs[i])
  }

  lemma DroppedIsDrop(m: seq<Word>, bs: seq<nat>, i: nat)
    requires Tiles(m, bs) && 0 < i < |bs| - 1 && bs[i] < |m| && m[bs[i]].Item? && !m[bs[i]].used
    ensures bs[i - 1] < bs[i + 1] < |m| && m[bs[i - 1]].Item? && m[bs[i + 1]].Item?
    ensures IsDrop(m, Dropped(m, bs[i - 1], bs[i + 1]), bs, i)
  {
    hide Chain, B.Removed, Distinct;
    DroppedTiles(m, bs, i);
    Around(m, bs, i - 1);
    Around(m, bs, i);
    RemovedMembers(bs, i);
  }

  lemma RemovedMembers(bs: seq<nat>, i: nat)
    requires i < |bs| && Distinct(bs)
    ensures forall x :: x in B.Removed(bs, i) <==> x in bs && x != bs[i]
  {
    hide B.Removed, Distinct;
    forall x: nat
      ensures x in B.Removed(bs, i) <==> x in bs && x != bs[i]
    {
      B.RemovedMember(bs, i, x);
    }
  }

  lemma DropApartAt(m: seq<Word>, m': seq<Word>, bs: seq<nat>, i: nat, k: nat)
    requires IsDrop(m, m', bs, i) && k < |bs| - 2 && k != i - 1 && k != i - 2
    requires var j := if k < i then k else k + 1; ApartAt(m, bs, j)
    ensures |B.Removed(bs, i)| == |bs| - 1 && ApartAt(m', B.Removed(bs, i), k)
  {
    B.RemovedIndex(bs, i);
    var cs := B.Removed(bs, i);
    hide B.Removed, Tiles;
    assert cs[k] in cs && cs[k + 1] in cs;
  }

  lemma DropApart(m: seq<Word>, m': seq<Word>, bs: seq<nat>, i: nat, loose: int)
    requires IsDrop(m, m', bs, i) && ApartBut(m, bs, loose)
    requires loose == bs[i] || loose == bs[i - 1]
    ensures ApartBut(m', B.Removed(bs, i), bs[i - 1])
  {
    hide IsDrop, B.Removed;
    DropFacts(m, m', bs, i);
    var cs := B.Removed(bs, i);
    forall k | 0 <= k < |cs| - 1 && cs[k] != bs[i - 1] && cs[k + 1] != bs[i - 1]
      ensures ApartAt(m', cs, k)
    {
      var j := if k < i then k else k + 1;
      assert ApartAt(m, bs, j);
      DropApartAt(m, m', bs, i, k);
    }
  }

  lemma DropFacts(m: seq<Word>, m': seq<Word>, bs: seq<nat>, i: nat)
    requires IsDrop(m, m', bs, i)
    ensures 0 < i < |bs| - 1 && Distinct(bs) && |B.Removed(bs, i)| == |bs| - 1
    ensures forall j {:trigger B.Removed(bs, i)[j]} :: 0 <= j < |bs| - 1 ==>
        B.Removed(bs, i)[j] == if j < i then bs[j] else bs[j + 1]
  {
    B.RemovedIndex(bs, i);
  }

  lemma DropEffect(m: seq<Word>, m': seq<Word>, bs: seq<nat>, i: nat)
    requires IsDrop(m, m', bs, i) && !m[bs[i - 1]].used
    ensures Live(m', B.Removed(bs, i)) == Live(m, bs) && UsedWords(m', B.Removed(bs, i)) == UsedWords(m, bs)
  {
    hide Chain, B.Removed;
    LiveIs(m', B.Removed(bs, i), Live(m, bs));
    hide Live;
    UsedRemoved(m, bs, i);
    UsedKept(m, m', B.Removed(bs, i));
  }

  // ---------- whole steps, and what is left alone ----------

  /** Untouched but for the headers bs and the words from lo to hi. */
  ghost predicate Only(m: seq<Word>, m': seq<Word>, bs: seq<nat>, lo: nat, hi: nat) {
    |m'| == |m| && forall k: nat :: k < |m| && k !in bs && !(lo <= k < hi) ==> m'[k] == m[k]
  }

  lemma OnlyThese(m: seq<Word>, m1: seq<Word>, m2: seq<Word>, bs: seq<nat>, lo: nat, hi: nat, these: seq<nat>, a: nat,
        b: nat)
    requires Only(m, m1, bs, lo, hi) && Only(m1, m2, these, a, b)
    requires (forall x :: x in these ==> x in bs || lo <= x < hi) && (a == b || (lo <= a && b <= hi))
    ensures Only(m, m2, bs, lo, hi)
  {
  }

  lemma OnlySelf(m: seq<Word>, bs: seq<nat>, lo: nat, hi: nat)
    ensures Only(m, m, bs, lo, hi)
  {
  }

  lemma AddedStep(m: seq<Word>, m1: seq<Word>, bs: seq<nat>, i: nat, p: nat)
    requires Layout(m, bs) && i < |bs| - 1 && bs[i] + HEADER <= p && p + HEADER <= bs[i + 1]
    requires HeaderAt(m, m1, p, bs[i + 1], bs[i])
    ensures bs[i] < bs[i + 1] < |m1| && m1[bs[i]].Item? && m1[bs[i + 1]].Item? && m1[bs[i]] == m[bs[i]]
    ensures var m', cs, u := Added(m1, bs[i], p, bs[i + 1]), B.Inserted(bs, i, p), m[bs[i]].used;
            && Midway(m', cs, p) && m'[bs[i]].Item? && m'[bs[i]].used == u && m'[bs[i]].next == p
            && m'[p].Item? && !m'[p].used && m'[p].next == bs[i + 1] && m'[p].prev == bs[i]
              && SameFlags(m, m', bs, bs[i])
            && Live(m', cs) == (if u then Live(m, bs)[bs[i] := p - bs[i] - HEADER] else Live(m, bs))
            && UsedWords(m', cs) == UsedWords(m, bs) - (if u then bs[i + 1] - p else 0)
            && Only(m, m', [bs[i], bs[i + 1]], p, p + HEADER)
            && |cs| == |bs| + 1 && cs[i] == bs[i] && cs[i + 1] == p && cs[i + 2] == bs[i + 1]
            && forall x :: x in cs <==> x in bs || x == p
  {
    hide Live, UsedWords, ApartBut, B.Inserted, Chain, HeaderAt, Distinct;
    Around(m, bs, i);
    AddedIsSplit(m, m1, bs, i, p);
    var m', cs := Added(m1, bs[i], p, bs[i + 1]), B.Inserted(bs, i, p);
    SplitApart(m, m', bs, i, p, p);
    SplitLive(m, m', bs, i, p);
    SplitUsed(m, m', bs, i, p);
    SplitMembers(bs, i, p);
    InsertedPlaces(bs, i, p);
    Around(m', cs, i + 1);
    AddedOnly(m, m1, bs, i, p);
  }

  lemma InsertedPlaces(bs: seq<nat>, i: nat, p: nat)
    requires i < |bs| - 1
    ensures |B.Inserted(bs, i, p)| == |bs| + 1 && B.Inserted(bs, i, p)[i] == bs[i]
    ensures B.Inserted(bs, i, p)[i + 1] == p && B.Inserted(bs, i, p)[i + 2] == bs[i + 1]
  {
    B.InsertedIndex(bs, i, p);
  }

  lemma AddedOnly(m: seq<Word>, m1: seq<Word>, bs: seq<nat>, i: nat, p: nat)
    requires i < |bs| - 1 && HeaderAt(m, m1, p, bs[i + 1], bs[i])
    requires bs[i] < bs[i + 1] < |m1| && m1[bs[i]].Item? && m1[bs[i + 1]].Item?
    ensures Only(m, Added(m1, bs[i], p, bs[i + 1]), [bs[i], bs[i + 1]], p, p + HEADER)
  {
  }

  lemma DroppedStep(m: seq<Word>, bs: seq<nat>, i: nat, loose: int)
    requires Midway(m, bs, loose) && 0 < i < |bs| - 1 && (loose == bs[i] || loose == bs[i - 1])
    requires bs[i] < |m| && m[bs[i]].Item? && !m[bs[i]].used && bs[i - 1] < |m| && m[bs[i - 1]].Item?
        && !m[bs[i - 1]].used
    ensures bs[i - 1] < bs[i] < bs[i + 1] < |m| && m[bs[i + 1]].Item? && m[bs[i]].next == bs[i + 1]
        && m[bs[i]].prev == bs[i - 1]
    ensures var m', cs := Dropped(m, bs[i - 1], bs[i + 1]), B.Removed(bs, i);
            && Midway(m', cs, bs[i - 1]) && Live(m', cs) == Live(m, bs) && UsedWords(m', cs) == UsedWords(m, bs)
            && m'[bs[i - 1]].Item? && !m'[bs[i - 1]].used && m'[bs[i - 1]].prev == m[bs[i - 1]].prev
              && m'[bs[i - 1]].next == bs[i + 1]
            && SameFlags(m, m', cs, bs[i - 1]) && Only(m, m', [bs[i - 1], bs[i + 1]], 0, 0)
            && |cs| == |bs| - 1 && cs[i - 1] == bs[i - 1] && cs[i] == bs[i + 1]
            && (forall x :: x in cs <==> x in bs && x != bs[i])
  {
    hide Live, UsedWords, ApartBut, B.Removed, Chain, Distinct;
    Around(m, bs, i - 1);
    Around(m, bs, i);
    DroppedIsDrop(m, bs, i);
    var m' := Dropped(m, bs[i - 1], bs[i + 1]);
    DropApart(m, m', bs, i, loose);
    DropEffect(m, m', bs, i);
    DropFacts(m, m', bs, i);
  }

  /** The operation is over: the exempt block or its neighbours are in use. */
  lemma Settle(m: seq<Word>, bs: seq<nat>, loose: int, i: nat)
    requires Midway(m, bs, loose) && i < |bs| - 1 && bs[i] == loose && bs[i] < |m| && m[bs[i]].Item?
    requires m[bs[i]].used || (bs[i + 1] < |m| && m[bs[i + 1]].Item? && m[bs[i + 1]].used
                               && (i > 0 ==> bs[i - 1] < |m| && m[bs[i - 1]].Item? && m[bs[i - 1]].used))
    ensures Layout(m, bs)
  {
    Around(m, bs, i);
    hide Chain;
    forall j | 0 <= j < |bs| - 1
      ensures ApartAt(m, bs, j)
    {
      if bs[j] != loose && bs[j + 1] != loose {
        assert ApartAt(m, bs, j);
      } else {
        assert bs[j] in bs && bs[j + 1] in bs;
      }
    }
  }

  lemma Relax(m: seq<Word>, bs: seq<nat>, loose: int)
    requires Layout(m, bs)
    ensures Midway(m, bs, loose)
  {
  }

  lemma PairUsed(m: seq<Word>, bs: seq<nat>, loose: int, k: nat)
    requires Midway(m, bs, loose) && k + 1 < |bs| && bs[k] != loose && bs[k + 1] != loose
    ensures bs[k] < |m| && m[bs[k]].Item? && bs[k + 1] < |m| && m[bs[k + 1]].Item?
    ensures m[bs[k]].used || m[bs[k + 1]].used
  {
    assert ApartAt(m, bs, k);
  }

  /** The exemption passes from a new block to the free block it was cut from. */
  lemma SwitchLoose(m: seq<Word>, bs: seq<nat>, i: nat)
    requires i + 2 < |bs| && Midway(m, bs, bs[i + 1]) && bs[i + 2] < |m| && m[bs[i + 2]].Item? && m[bs[i + 2]].used
    ensures Midway(m, bs, bs[i])
  {
    forall j | 0 <= j < |bs| - 1 && bs[j] != bs[i] && bs[j + 1] != bs[i]
      ensures ApartAt(m, bs, j)
    {
      if bs[j] != bs[i + 1] && bs[j + 1] != bs[i + 1] {
        assert ApartAt(m, bs, j);
      } else {
        assert bs[j] in bs && bs[j + 1] in bs;
      }
    }
  }

  lemma Place(m: seq<Word>, bs: seq<nat>, b: nat) returns (i: nat)
    requires Tiles(m, bs) && b in bs && b < End(m)
    ensures i < |bs| - 1 && bs[i] == b && m[b].Item? && b + HEADER <= m[b].next == bs[i + 1] <= End(m)
    ensures b in Live(m, bs) <==> m[b].used
  {
    i :| 0 <= i < |bs| && bs[i] == b;
    Around(m, bs, i);
  }

  // ---------- payloads ----------

  ghost predicate Inside(m: seq<Word>, b: nat, k: nat) {
    b < |m| && m[b].Item? && b + HEADER <= k < m[b].next
  }

  /** The payloads of all live blocks but x are as they were. */
  ghost predicate PayloadsKept(m: seq<Word>, m': seq<Word>, bs: seq<nat>, x: int) {
    |m'| == |m| && forall b: nat, k: nat :: b in Live(m, bs) && b != x && Inside(m, b, k) ==> k < |m| && m'[k] == m[k]
  }

  lemma BetweenHeaders(bs: seq<nat>, end: int, j: nat, k: nat)
    requires Ordered(bs, end) && j + 1 < |bs| && bs[j] < k < bs[j + 1]
    ensures k !in bs
  {
  }

  lemma PayloadsUntouched(m: seq<Word>, m': seq<Word>, bs: seq<nat>, i: nat, lo: nat, hi: nat)
    requires Tiles(m, bs) && i < |bs| - 1 && bs[i] <= lo <= bs[i + 1] && hi <= bs[i + 1] && Only(m, m', bs, lo, hi)
    ensures PayloadsKept(m, m', bs, bs[i])
    ensures forall k: nat :: bs[i] < k < lo && k < |m| ==> m'[k] == m[k]
  {
    forall b: nat, k: nat | b in Live(m, bs) && b != bs[i] && Inside(m, b, k)
      ensures k < |m| && m'[k] == m[k]
    {
      var j :| 0 <= j < |bs| && bs[j] == b;
      Around(m, bs, j);
      BetweenHeaders(bs, End(m), j, k);
      assert j < i ==> j + 1 == i || bs[j + 1] + HEADER <= bs[i];
      assert j > i ==> j == i + 1 || bs[i + 1] + HEADER <= bs[j];
    }
    forall k: nat | bs[i] < k < lo && k < |m|
      ensures m'[k] == m[k]
    {
      BetweenHeaders(bs, End(m), i, k);
    }
  }

  // ---------- the search of rt_malloc ----------

  /**
   The first free block of a list, below limit, with room for n words; the search stops at the first block
   past limit.
   */
  ghost function FirstFit(m: seq<Word>, list: seq<nat>, limit: int, n: int): int
    requires forall b :: b in list ==> b < |m| && m[b].Item?
  {
    if list == [] then NULL
    else
      assert list[0] in list && forall b :: b in list[1..] ==> b in list;
      if list[0] >= limit then NULL
      else if !m[list[0]].used && Size(m, list[0]) >= n then list[0]
      else FirstFit(m, list[1..], limit, n)
  }

  /** The search from block k on. */
  ghost function Search(m: seq<Word>, bs: seq<nat>, k: nat, limit: int, n: int): int
    requires Tiles(m, bs) && k <= |bs|
  {
    assert forall b :: b in bs[k..] ==> b in bs;
    FirstFit(m, bs[k..], limit, n)
  }

  lemma SearchStep(m: seq<Word>, bs: seq<nat>, k: nat, limit: int, n: int)
    requires Tiles(m, bs) && k < |bs|
    ensures bs[k] < |m| && m[bs[k]].Item?
    ensures Search(m, bs, k, limit, n)
         == if bs[k] >= limit then NULL else if !m[bs[k]].used && Size(m, bs[k]) >= n then bs[k]
           else Search(m, bs, k + 1, limit, n)
  {
    assert bs[k] in bs && bs[k..][0] == bs[k] && bs[k..][1..] == bs[k + 1..];
  }

  /** Blocks in use at the start of the list do not matter: the search may start behind them. */
  lemma {:induction false} SearchSkips(m: seq<Word>, bs: seq<nat>, k: nat, limit: int, n: int)
    requires Tiles(m, bs) && k <= |bs| && forall j :: 0 <= j < k ==> m[bs[j]].used
    ensures Search(m, bs, 0, limit, n) == Search(m, bs, k, limit, n)
        || (k > 0 && bs[k - 1] >= limit && Search(m, bs, 0, limit, n) == NULL)
  {
    hide Search;
    if k > 0 {
      SearchSkips(m, bs, k - 1, limit, n);
      SearchStep(m, bs, k - 1, limit, n);
      if k > 1 {
        Around(m, bs, k - 2);
      }
    }
  }

  /**
   A free block that serves a request for n words: one that is longer, or exactly that long and not the
   last one, which the end of the search cuts off.
   */
  ghost predicate Serves(m: seq<Word>, b: nat, n: int) {
    b < |m| && m[b].Item? && !m[b].used && (Size(m, b) > n || (Size(m, b) == n && m[b].next != End(m)))
  }

  /** From block i to block j, j excluded, no block serves n words. */
  ghost predicate NoneServes(m: seq<Word>, bs: seq<nat>, i: nat, j: nat, n: int) {
    j <= |bs| && forall k :: i <= k < j ==> !Serves(m, bs[k], n)
  }

  /** The loop's end test and its size test together select the first block that serves. */
  lemma {:induction false} SearchServes(m: seq<Word>, bs: seq<nat>, k: nat, n: int) returns (j: nat)
    requires Tiles(m, bs) && k < |bs|
    ensures k <= j <= |bs| && NoneServes(m, bs, k, j, n)
    ensures j == |bs| <==> Search(m, bs, k, End(m) - HEADER - n, n) == NULL
    ensures j < |bs| ==> Serves(m, bs[j], n) && Search(m, bs, k, End(m) - HEADER - n, n) == bs[j]
    decreases |bs| - k
  {
    hide Search;
    var limit := End(m) - HEADER - n;
    SearchStep(m, bs, k, limit, n);
    if bs[k] >= limit {
      CutOff(m, bs, k, n);
      j := |bs|;
    } else if !m[bs[k]].used && Size(m, bs[k]) >= n {
      LastOne(m, bs, k);
      j := k;
    } else if k == |bs| - 1 {
      SearchEnd(m, bs, limit, n);
      j := |bs|;
    } else {
      j := SearchServes(m, bs, k + 1, n);
    }
  }

  lemma SearchEnd(m: seq<Word>, bs: seq<nat>, limit: int, n: int)
    requires Tiles(m, bs)
    ensures Search(m, bs, |bs|, limit, n) == NULL
  {
  }

  /** Where a block ends. */
  lemma LastOne(m: seq<Word>, bs: seq<nat>, k: nat)
    requires Tiles(m, bs) && k < |bs|
    ensures bs[k] < |m| && m[bs[k]].Item?
    ensures !m[bs[k]].used ==> k < |bs| - 1 && m[bs[k]].next == bs[k] + HEADER + Size(m, bs[k]) == bs[k + 1] <= End(m)
  {
    InUse(m, bs, k);
    Around(m, bs, k);
  }

  /** Blocks from the limit on are too short, or an exact fit at the end. */
  lemma CutOff(m: seq<Word>, bs: seq<nat>, k: nat, n: int)
    requires Tiles(m, bs) && k < |bs| && bs[k] >= End(m) - HEADER - n
    ensures NoneServes(m, bs, k, |bs|, n)
  {
    forall j | k <= j < |bs|
      ensures !Serves(m, bs[j], n)
    {
      LastOne(m, bs, j);
      Upward(m, bs, k, j);
    }
  }

  lemma Upward(m: seq<Word>, bs: seq<nat>, k: nat, j: nat)
    requires Tiles(m, bs) && k <= j < |bs|
    ensures bs[k] <= bs[j]
  {
  }

  /** All blocks below lfree are in use. */
  ghost predicate Lowest(m: seq<Word>, bs: seq<nat>, lfree: nat) {
    forall b :: b in bs && b < lfree ==> b < |m| && m[b].Item? && m[b].used
  }

  /** lfree is a free block, or heap_end. */
  ghost predicate AtFree(m: seq<Word>, bs: seq<nat>, lfree: nat) {
    lfree in bs && lfree < |m| && m[lfree].Item? && (lfree == End(m) || !m[lfree].used)
  }

  lemma LayoutTiles(m: seq<Word>, bs: seq<nat>)
    requires Layout(m, bs)
    ensures Tiles(m, bs)
  {
  }

  lemma BlockItems(m: seq<Word>, bs: seq<nat>, loose: int)
    requires Midway(m, bs, loose)
    ensures forall b :: b in bs ==> b <= End(m) && m[b].Item?
  {
  }

  lemma InitialLayout(m: seq<Word>)
    requires |m| >= 6 && m[0] == Item(false, End(m), 0) && m[End(m)].Item? && m[End(m)].used && m[End(m)].next == End(m)
    ensures Layout(m, [0, End(m)]) && Live(m, [0, End(m)]) == map[] && UsedWords(m, [0, End(m)]) == 0
    ensures AtFree(m, [0, End(m)], 0) && Lowest(m, [0, End(m)], 0)
  {
    var bs: seq<nat> := [0, End(m)];
    ChainTiles(m, bs);
    assert UsedWords(m, [End(m)]) == 0 by {
      assert [End(m)][1..] == [];
    }
    assert bs[1..] == [End(m)];
  }

  ghost function IndexOf(list: seq<nat>, x: nat): (i: nat)
    requires x in list
    ensures i < |list| && list[i] == x
  {
    if list[0] == x then 0 else 1 + IndexOf(list[1..], x)
  }

  /** Searching from the lowest free block finds what searching all blocks would find. */
  lemma HintSearch(m: seq<Word>, bs: seq<nat>, lfree: nat, limit: int, n: int)
    requires Tiles(m, bs) && lfree in bs && Lowest(m, bs, lfree)
    ensures Search(m, bs, IndexOf(bs, lfree), limit, n) == Search(m, bs, 0, limit, n)
  {
    hide Search;
    var k := IndexOf(bs, lfree);
    forall j | 0 <= j < k
      ensures m[bs[j]].used
    {
      assert bs[j] in bs;
    }
    SearchSkips(m, bs, k, limit, n);
    SearchStep(m, bs, k, limit, n);
  }

  lemma InUse(m: seq<Word>, bs: seq<nat>, k: nat)
    requires Tiles(m, bs) && k < |bs|
    ensures bs[k] in bs && bs[k] < |m| && m[bs[k]].Item? && (k + 1 < |bs| ==> m[bs[k]].next == bs[k + 1])
    ensures bs[k] == End(m) <==> k == |bs| - 1
  {
    Around(m, bs, k);
  }

  /** A block at h that was not in use is in use with `got` words, and no other live block changed. */
  ghost predicate Took(m: seq<Word>, bs: seq<nat>, m': seq<Word>, bs': seq<nat>, h: int, got: int) {
    && 0 <= h < |m| && m[h].Item?
    && h !in Live(m, bs) && Live(m', bs') == Live(m, bs)[h := got]
    && PayloadsKept(m, m', bs, h)
  }

  lemma TookSize(m: seq<Word>, bs: seq<nat>, m': seq<Word>, bs': seq<nat>, h: int, got: int)
    requires Took(m, bs, m', bs', h, got)
    ensures SizeAt(m', h) == got
  {
    assert h in Live(m', bs');
  }

  lemma OnlyOne(m: seq<Word>, m': seq<Word>, h: nat, p: nat)
    requires Only(m, m', [h], 0, 0) && p != h && p < |m|
    ensures |m'| == |m| && m'[p] == m[p]
  {
  }

  lemma NoneFreeBetween(m: seq<Word>, bs: seq<nat>, i: nat, k: nat)
    requires Tiles(m, bs) && i <= k < |bs| && forall j :: i <= j < k ==> m[bs[j]].used
    ensures forall b :: FreeAt(m, bs, b) && b >= bs[i] ==> b >= bs[k]
  {
    forall b | FreeAt(m, bs, b) && b >= bs[i]
      ensures b >= bs[k]
    {
      var j :| 0 <= j < |bs| && bs[j] == b;
    }
  }

  /** A block that is not in use starts at b. */
  ghost predicate FreeAt(m: seq<Word>, bs: seq<nat>, b: int) {
    0 <= b < |m| && b in bs && m[b].Item? && !m[b].used
  }

  /** What the live block at g leaves of the room up to e, where nothing else is in use, is one free block. */
  lemma RestIsFree(m: seq<Word>, bs: seq<nat>, g: nat, e: int)
    requires Layout(m, bs) && g in Live(m, bs) && g + HEADER + Live(m, bs)[g] < e <= End(m)
    requires forall b :: b in Live(m, bs) && b > g ==> b >= e
    ensures var p := g + HEADER + SizeAt(m, g); FreeAt(m, bs, p) && SizeAt(m, p) >= e - p - HEADER
  {
    LayoutTiles(m, bs);
    LiveBlock(m, bs, g);
    var i := Place(m, bs, g);
    hide Live;
    var p := bs[i + 1];
    Around(m, bs, i + 1);
    assert p == g + HEADER + SizeAt(m, g) && p in bs;
    NotLive(m, bs, p);
    RightUsed(m, bs, i + 1);
    EndsLive(m, bs, i + 2);
  }

  lemma NotLive(m: seq<Word>, bs: seq<nat>, p: nat)
    requires Tiles(m, bs) && p in bs && p < End(m) && p !in Live(m, bs)
    ensures FreeAt(m, bs, p)
  {
    var _ := Place(m, bs, p);
  }

  lemma EndsLive(m: seq<Word>, bs: seq<nat>, i: nat)
    requires Tiles(m, bs) && i < |bs| && bs[i] < |m| && m[bs[i]].Item? && m[bs[i]].used
    ensures bs[i] == End(m) || bs[i] in Live(m, bs)
  {
    assert bs[i] in bs;
  }

  lemma MovedGap(m: seq<Word>, bs: seq<nat>, m': seq<Word>, bs': seq<nat>, h: nat, g: int, got: int, keep: int, e: int)
    requires Moved(m, bs, m', bs', h, g, got, keep)
    requires forall b :: b in Live(m, bs) && b > g ==> b >= e
    ensures g in Live(m', bs') && Live(m', bs')[g] == got
    ensures forall b :: b in Live(m', bs') && b > g ==> b >= e
  {
    hide Live, Inside;
  }

  /** Nothing is in use between a block and the one behind it. */
  lemma NoneBetween(m: seq<Word>, bs: seq<nat>, g: nat, e: int)
    requires Tiles(m, bs) && g in bs && g < End(m) && m[g].Item? && e == m[g].next
    ensures e <= End(m) && forall b :: b in Live(m, bs) && b > g ==> b >= e
  {
    var i := Place(m, bs, g);
    forall b | b in Live(m, bs) && b > g
      ensures b >= e
    {
      var j :| 0 <= j < |bs| && bs[j] == b;
      assert j > i;
    }
  }

  // ---------- what is in use determines the rest ----------

  /**
   Two heaps of one length with the same live blocks have the same blocks and as much in use, whatever was
   allocated, split, moved and merged on the way. What lies between two live blocks is one free block.
   */
  lemma LiveDetermines(m: seq<Word>, bs: seq<nat>, m': seq<Word>, bs': seq<nat>)
    requires Layout(m, bs) && Layout(m', bs') && |m| == |m'| && Live(m, bs) == Live(m', bs')
    ensures bs == bs' && UsedWords(m, bs) == UsedWords(m', bs')
  {
    LayoutTiles(m, bs);
    LayoutTiles(m', bs');
    SamePlace(m, bs, m', bs', |bs| - 1);
    SamePlace(m', bs', m, bs, |bs'| - 1);
    forall i | 0 <= i < |bs|
      ensures bs[i] == bs'[i]
    {
      SamePlace(m, bs, m', bs', i);
    }
    assert bs == bs';
    forall b | b in bs
      ensures Own(m, b) == Own(m', b)
    {
      OwnByLive(m, bs, b);
      OwnByLive(m', bs, b);
    }
    UsedKept(m, m', bs);
  }

  lemma OwnByLive(m: seq<Word>, bs: seq<nat>, b: nat)
    requires Tiles(m, bs) && b in bs
    ensures Own(m, b) == if b in Live(m, bs) then Live(m, bs)[b] + HEADER else 0
  {
  }

  lemma {:induction false} SamePlace(m: seq<Word>, bs: seq<nat>, m': seq<Word>, bs': seq<nat>, i: nat)
    requires Layout(m, bs) && Layout(m', bs') && |m| == |m'| && Live(m, bs) == Live(m', bs') && i < |bs|
    ensures i < |bs'| && bs'[i] == bs[i]
  {
    if i > 0 {
      var k := i - 1;
      SamePlace(m, bs, m', bs', k);
      assert bs[k] < bs[|bs| - 1] == End(m) == bs'[|bs'| - 1];
      NotBehind(m, bs, m', bs', k);
      NotBehind(m', bs', m, bs, k);
    }
  }

  lemma NotBehind(m: seq<Word>, bs: seq<nat>, m': seq<Word>, bs': seq<nat>, k: nat)
    requires Layout(m, bs) && Layout(m', bs') && |m| == |m'| && Live(m, bs) == Live(m', bs')
    requires k + 1 < |bs| && k + 1 < |bs'| && bs[k] == bs'[k]
    ensures bs'[k + 1] <= bs[k + 1]
  {
    Around(m, bs, k);
    Around(m', bs', k);
    var b, c := bs[k], bs[k + 1];
    assert b in bs && c in bs && b in bs';
    if m[b].used {
      assert b in Live(m, bs) && b in Live(m', bs');
      assert Size(m, b) == Live(m, bs)[b] == Live(m', bs')[b] == Size(m', b);
    } else if c < End(m) {
      RightUsed(m, bs, k);
      assert c in Live(m, bs) && c in bs';
      var j :| 0 <= j < |bs'| && bs'[j] == c;
      assert k < j;
    }
  }

  lemma BelowIndex(m: seq<Word>, bs: seq<nat>, i: nat, k: nat)
    requires Tiles(m, bs) && i <= k < |bs| && forall j :: i <= j < k ==> m[bs[j]].used
    ensures Lowest(m, bs, bs[i]) ==> Lowest(m, bs, bs[k])
  {
    if Lowest(m, bs, bs[i]) {
      forall b | b in bs && b < bs[k]
        ensures b < |m| && m[b].Item? && m[b].used
      {
        var j :| 0 <= j < |bs| && bs[j] == b;
      }
    }
  }

  /** Behind a free block stands one in use. */
  lemma RightUsed(m: seq<Word>, bs: seq<nat>, i: nat)
    requires Layout(m, bs) && i < |bs| - 1 && bs[i] < |m| && m[bs[i]].Item? && !m[bs[i]].used
    ensures bs[i + 1] < |m| && m[bs[i + 1]].Item? && m[bs[i + 1]].used
    ensures i > 0 ==> bs[i - 1] < |m| && m[bs[i - 1]].Item? && m[bs[i - 1]].used
  {
    assert ApartAt(m, bs, i);
    if i > 0 {
      var k := i - 1;
      assert ApartAt(m, bs, k);
    }
  }

  lemma FlagAt(m: seq<Word>, m': seq<Word>, bs: seq<nat>, h: nat, b: nat)
    requires SameFlags(m, m', bs, h) && b in bs && b != h
    ensures b < |m| == |m'| && m[b].Item? && m'[b].Item? && m'[b].used == m[b].used
        && (b < End(m) ==> m'[b].next == m[b].next)
  {
  }

  lemma FlagsTwice(m: seq<Word>, m1: seq<Word>, m2: seq<Word>, bs: seq<nat>, cs: seq<nat>, h: nat)
    requires SameFlags(m, m1, bs, h) && SameFlags(m1, m2, cs, h) && forall x :: x in bs ==> x in cs
    ensures SameFlags(m, m2, bs, h)
  {
  }

  // ---------- the hint through allocation and merging ----------

  /** h = lfree went into use; nothing below changed. */
  lemma NowUsed(m: seq<Word>, m': seq<Word>, bs: seq<nat>, cs: seq<nat>, h: nat)
    requires SameFlags(m, m', bs, h) && forall x :: x in cs && x <= h ==> x in bs
    ensures Lowest(m, bs, h) ==> Lowest(m', cs, h)
  {
  }

  /** A block above lfree went into use: lfree is as before. */
  lemma StaysFree(m: seq<Word>, m': seq<Word>, bs: seq<nat>, cs: seq<nat>, lfree: nat, h: nat)
    requires SameFlags(m, m', bs, h) && lfree < h && AtFree(m, bs, lfree)
    requires (forall x :: x in bs ==> x in cs) && (forall x :: x in cs && x <= h ==> x in bs)
    ensures AtFree(m', cs, lfree) && (Lowest(m, bs, lfree) ==> Lowest(m', cs, lfree))
  {
  }

  lemma PlaceIn(m: seq<Word>, bs: seq<nat>, b: nat) returns (i: nat)
    requires Layout(m, bs) && b in bs && b < End(m)
    ensures Tiles(m, bs) && i < |bs| - 1 && bs[i] == b
  {
    i := Place(m, bs, b);
  }

  /** Two free neighbours g and x became one: lfree moves from x to g. */
  lemma MergedHint(m: seq<Word>, m': seq<Word>, bs: seq<nat>, cs: seq<nat>, x: nat, g: nat, lfree: nat)
    requires SameFlags(m, m', cs, g) && (forall y :: y in cs <==> y in bs && y != x) && g in cs && g < x
    requires g < |m| && m[g].Item? && !m[g].used && m'[g].Item? && !m'[g].used && AtFree(m, bs, lfree) && x < End(m)
    ensures var l := if lfree == x then g else lfree; AtFree(m', cs, l) && (Lowest(m, bs, lfree) ==> Lowest(m', cs, l))
  {
  }

  lemma MidwayTiles(m: seq<Word>, bs: seq<nat>, loose: int)
    requires Midway(m, bs, loose)
    ensures Tiles(m, bs)
  {
  }

  lemma FlagsSelf(m: seq<Word>, bs: seq<nat>, h: nat)
    requires Tiles(m, bs)
    ensures SameFlags(m, m, bs, h)
  {
  }

  lemma RemovedBelow(bs: seq<nat>, i: nat)
    requires 1 < i < |bs|
    ensures |B.Removed(bs, i)| == |bs| - 1 && B.Removed(bs, i)[i - 2] == bs[i - 2] && bs[i - 2] in B.Removed(bs, i)
  {
    B.RemovedIndex(bs, i);
  }

  lemma LiveBlock(m: seq<Word>, bs: seq<nat>, b: nat)
    requires b in Live(m, bs)
    ensures b in bs && b < End(m) && m[b].Item? && m[b].used && Live(m, bs)[b] == Size(m, b)
  {
  }

  /** The block at h was freed: with lfree at the lower of the two, the hint is as right as it was. */
  lemma FreedHint(m: seq<Word>, m': seq<Word>, bs: seq<nat>, h: nat, lfree: nat)
    requires SameFlags(m, m', bs, h) && h in bs && h < End(m) && m'[h].Item? && !m'[h].used && AtFree(m, bs, lfree)
    ensures var l := if h < lfree then h else lfree; AtFree(m', bs, l) && (Lowest(m, bs, lfree) ==> Lowest(m', bs, l))
  {
  }

  // ---------- for rt_realloc ----------

  /** A free block split off a used one: lfree is still a free block or heap_end. */
  lemma SplitHint(m: seq<Word>, m': seq<Word>, bs: seq<nat>, cs: seq<nat>, h: nat, p: nat, lfree: nat)
    requires SameFlags(m, m', bs, h) && AtFree(m, bs, lfree) && h < End(m) && m[h].Item? && m[h].used
    requires forall x :: x in cs <==> x in bs || x == p
    ensures AtFree(m', cs, lfree)
  {
  }

  lemma Dissolve(m: seq<Word>, m1: seq<Word>, m2: seq<Word>, bs: seq<nat>, cs: seq<nat>, ds: seq<nat>, h: nat, p: nat)
    requires SameFlags(m, m1, bs, h) && SameFlags(m1, m2, ds, p) && p !in bs
    requires (forall x :: x in cs <==> x in bs || x == p) && forall x :: x in ds ==> x in cs
    requires h in bs && h in ds && h != p && h < |m1| && m1[h].Item?
    ensures m2[h].Item? && m2[h].used == m1[h].used && (h < End(m) ==> m2[h].next == m1[h].next)
    ensures forall x :: x in ds && x != p && x != h ==> x < |m| && m[x].Item? && m2[x].Item? && m2[x].used == m[x].used
  {
  }

  function PayloadAt(m: seq<Word>, b: int, j: int): Word {
    if 0 <= b + HEADER + j < |m| then m[b + HEADER + j] else Body
  }

  function SizeAt(m: seq<Word>, b: int): int { if 0 <= b < |m| && m[b].Item? then Size(m, b) else 0 }

  function Min(a: int, b: int): int { if a < b then a else b }

  /**
   The block at h is now the block at g, of `got` words, the first `keep` of them as they were; other live
   blocks are untouched.
   */
  ghost predicate Moved(m: seq<Word>, bs: seq<nat>, m': seq<Word>, bs': seq<nat>, h: nat, g: int, got: int, keep: int) {
    && h in Live(m, bs) && g >= 0 && (g == h || g !in Live(m, bs))
    && Live(m', bs') == (Live(m, bs) - {h})[g := got]
    && (forall b: nat, k: nat :: b in Live(m, bs) && b != h && Inside(m, b, k) ==> k < |m| && k < |m'| && m'[k] == m[k])
    && (forall j {:trigger PayloadAt(m', g, j)} :: 0 <= j < keep && j < Live(m, bs)[h] ==>
      PayloadAt(m', g, j) == PayloadAt(m, h, j))
  }

  lemma MovedSize(m: seq<Word>, bs: seq<nat>, m': seq<Word>, bs': seq<nat>, h: nat, g: int, got: int, keep: int)
    requires Moved(m, bs, m', bs', h, g, got, keep)
    ensures SizeAt(m', g) == got
  {
    assert g in Live(m', bs');
  }

  lemma StayDone(m: seq<Word>, bs: seq<nat>, m': seq<Word>, bs': seq<nat>, h: nat, got: int)
    requires h in Live(m, bs) && Live(m', bs') == Live(m, bs)[h := got] && PayloadsKept(m, m', bs, h)
    requires h + HEADER + got <= |m| && forall k: nat :: h < k < h + HEADER + got ==> m'[k] == m[k]
    ensures Moved(m, bs, m', bs', h, h, got, got)
  {
    hide Live, Inside;
    assert Live(m, bs)[h := got] == (Live(m, bs) - {h})[h := got];
  }

  lemma Unmoved(m: seq<Word>, bs: seq<nat>, h: nat)
    requires Tiles(m, bs) && h in Live(m, bs)
    ensures Moved(m, bs, m, bs, h, h, Live(m, bs)[h], Live(m, bs)[h])
  {
    hide Live, Tiles, Inside, PayloadsKept, Only;
    LiveBlock(m, bs, h);
    var i := Place(m, bs, h);
    OnlySelf(m, bs, h, h);
    PayloadsUntouched(m, m, bs, i, h, h);
    assert Live(m, bs)[h := Live(m, bs)[h]] == Live(m, bs);
    StayDone(m, bs, m, bs, h, Live(m, bs)[h]);
  }

  lemma InsideSame(m: seq<Word>, bs: seq<nat>, m': seq<Word>, bs': seq<nat>, b: nat, k: nat)
    requires b in Live(m, bs) && b in Live(m', bs') && Live(m, bs)[b] == Live(m', bs')[b]
    ensures Inside(m, b, k) <==> Inside(m', b, k)
  {
  }

  lemma PayloadKept(m: seq<Word>, m': seq<Word>, bs: seq<nat>, x: int, b: nat, k: nat)
    requires PayloadsKept(m, m', bs, x) && b in Live(m, bs) && b != x && Inside(m, b, k)
    ensures k < |m| == |m'| && m'[k] == m[k]
  {
  }

  lemma InsideAt(m: seq<Word>, bs: seq<nat>, b: nat, j: nat)
    requires b in Live(m, bs) && j < Live(m, bs)[b]
    ensures Inside(m, b, b + HEADER + j)
  {
  }

  /** A new block, the first `count` words of the old payload copied into it, the old block freed. */
  lemma MoveDone(m0: seq<Word>, bs0: seq<nat>, m1: seq<Word>, bs1: seq<nat>, m2: seq<Word>, m3: seq<Word>,
        bs3: seq<nat>,
                 h: nat, g: nat, got: int, count: nat)
    requires h in Live(m0, bs0) && Took(m0, bs0, m1, bs1, g, got)
    requires count <= Live(m0, bs0)[h] && count <= got
    requires Live(m2, bs1) == Live(m1, bs1) && PayloadsKept(m1, m2, bs1, g)
    requires forall j {:trigger PayloadAt(m2, g, j)} :: 0 <= j < count ==> PayloadAt(m2, g, j) == PayloadAt(m1, h, j)
    requires Live(m3, bs3) == Live(m2, bs1) - {h} && PayloadsKept(m2, m3, bs1, h)
    ensures Moved(m0, bs0, m3, bs3, h, g, got, count)
  {
    hide Live, Inside, PayloadsKept;
    assert Live(m3, bs3) == (Live(m0, bs0) - {h})[g := got];
    forall b: nat, k: nat | b in Live(m0, bs0) && b != h && Inside(m0, b, k)
      ensures k < |m0| && k < |m3| && m3[k] == m0[k]
    {
      InsideSame(m0, bs0, m1, bs1, b, k);
      InsideSame(m1, bs1, m2, bs1, b, k);
      PayloadKept(m0, m1, bs0, g, b, k);
      PayloadKept(m1, m2, bs1, g, b, k);
      PayloadKept(m2, m3, bs1, h, b, k);
    }
    forall j | 0 <= j < count && j < Live(m0, bs0)[h]
      ensures PayloadAt(m3, g, j) == PayloadAt(m0, h, j)
    {
      InsideAt(m2, bs1, g, j);
      PayloadKept(m2, m3, bs1, h, g, g + HEADER + j);
      InsideAt(m0, bs0, h, j);
      PayloadKept(m0, m1, bs0, g, h, h + HEADER + j);
      assert PayloadAt(m2, g, j) == PayloadAt(m1, h, j);
    }
  }

  /** Writing inside the payload of a live block changes nothing else. */
  lemma PayloadWritten(m: seq<Word>, m': seq<Word>, bs: seq<nat>, b: nat)
    requires Layout(m, bs) && b in Live(m, bs)
    requires |m'| == |m| && forall k: nat :: k < |m| && !Inside(m, b, k) ==> m'[k] == m[k]
    ensures Layout(m', bs) && Live(m', bs) == Live(m, bs) && UsedWords(m', bs) == UsedWords(m, bs)
    ensures PayloadsKept(m, m', bs, b) && forall x :: x in bs ==> x < |m| && m'[x] == m[x]
  {
    hide ApartBut, PayloadsKept, Chain;
    HeadersOutside(m, bs, b);
    SameChain(m, m', bs);
    SameApart(m, m', bs);
    LiveIs(m', bs, Live(m, bs));
    UsedKept(m, m', bs);
    OwnPayload(m, m', bs, b);
  }

  lemma SameChain(m: seq<Word>, m': seq<Word>, bs: seq<nat>)
    requires Tiles(m, bs) && |m'| == |m| && forall b :: b in bs ==> m'[b] == m[b]
    ensures Tiles(m', bs)
  {
    forall j | 0 <= j < |bs|
      ensures LinkedAt(m', bs, j)
    {
      assert LinkedAt(m, bs, j) && bs[j] in bs;
    }
    ChainTiles(m', bs);
  }

  lemma SameApart(m: seq<Word>, m': seq<Word>, bs: seq<nat>)
    requires ApartBut(m, bs, NULL) && |m'| == |m| && forall b :: b in bs && b < |m| ==> m'[b] == m[b]
    ensures ApartBut(m', bs, NULL)
  {
    forall j | 0 <= j < |bs| - 1 && bs[j] != NULL && bs[j + 1] != NULL
      ensures ApartAt(m', bs, j)
    {
      assert ApartAt(m, bs, j);
    }
  }

  lemma HeadersOutside(m: seq<Word>, bs: seq<nat>, b: nat)
    requires Layout(m, bs) && b in Live(m, bs)
    ensures forall k: nat :: Inside(m, b, k) ==> k < End(m) && k !in bs
  {
    var i := Place(m, bs, b);
    forall k: nat | Inside(m, b, k)
      ensures k < End(m) && k !in bs
    {
      BetweenHeaders(bs, End(m), i, k);
    }
  }

  lemma OwnPayload(m: seq<Word>, m': seq<Word>, bs: seq<nat>, b: nat)
    requires Layout(m, bs) && b in Live(m, bs)
    requires |m'| == |m| && forall k: nat :: k < |m| && !Inside(m, b, k) ==> m'[k] == m[k]
    ensures PayloadsKept(m, m', bs, b)
  {
    var i := Place(m, bs, b);
    assert Only(m, m', bs, bs[i], bs[i + 1]);
    LayoutTiles(m, bs);
    hide Layout, Only;
    PayloadsUntouched(m, m', bs, i, bs[i], bs[i + 1]);
  }

  /** Two live blocks lie apart, inside the heap. */
  lemma Rooms(m: seq<Word>, bs: seq<nat>, h: nat, g: nat)
    requires Tiles(m, bs) && h in Live(m, bs) && g in Live(m, bs) && h != g
    ensures h + HEADER + Live(m, bs)[h] <= End(m) && g + HEADER + Live(m, bs)[g] <= End(m)
    ensures h + HEADER + Live(m, bs)[h] <= g || g + HEADER + Live(m, bs)[g] <= h
  {
    var i := Place(m, bs, h);
    var k := Place(m, bs, g);
    assert i < k ==> i + 1 == k || bs[i + 1] + HEADER <= bs[k];
    assert k < i ==> k + 1 == i || bs[k + 1] + HEADER <= bs[i];
  }

  lemma {:induction false} FirstFitAmong(m: seq<Word>, list: seq<nat>, limit: int, n: int)
    requires (forall b :: b in list ==> b < |m| && m[b].Item?) && FirstFit(m, list, limit, n) != NULL
    ensures FirstFit(m, list, limit, n) in list && FirstFit(m, list, limit, n) < limit
  {
    assert list[0] in list && forall b :: b in list[1..] ==> b in list;
    if m[list[0]].used || Size(m, list[0]) < n {
      FirstFitAmong(m, list[1..], limit, n);
    }
  }

  lemma FoundBetween(m: seq<Word>, bs: seq<nat>, k: nat, limit: int, n: int)
    requires Tiles(m, bs) && k <= |bs| && Search(m, bs, k, limit, n) != NULL && limit <= End(m)
    ensures var g := Search(m, bs, k, limit, n);
            && 0 <= g < End(m) && m[g].Item? && m[g].next <= End(m)
            && forall b :: b in Live(m, bs) && b > g ==> b >= m[g].next
  {
    assert forall b :: b in bs[k..] ==> b in bs;
    FirstFitAmong(m, bs[k..], limit, n);
    var g := Search(m, bs, k, limit, n);
    NoneBetween(m, bs, g, m[g].next);
  }

  lemma SameHint(m: seq<Word>, m': seq<Word>, bs: seq<nat>, lfree: nat)
    requires |m'| == |m| && forall x :: x in bs ==> x < |m| && m'[x] == m[x]
    ensures AtFree(m, bs, lfree) ==> AtFree(m', bs, lfree)
    ensures Lowest(m, bs, lfree) ==> Lowest(m', bs, lfree)
  {
  }

  lemma LeftFlag(m: seq<Word>, m': seq<Word>, cs: seq<nat>, h: nat, i: nat)
    requires SameFlags(m, m', cs, h) && 0 < i < |cs| && cs[i] == h && Tiles(m', cs)
    requires cs[i - 1] < |m| && m[cs[i - 1]].Item? && m[cs[i - 1]].used
    ensures cs[i - 1] in cs && m'[cs[i - 1]].Item? && m'[cs[i - 1]].used && h in cs
  {
    Around(m', cs, i - 1);
  }

  lemma HintAfterShrink(m: seq<Word>, m1: seq<Word>, m2: seq<Word>, bs: seq<nat>, cs: seq<nat>, ds: seq<nat>, h: nat,
        p: nat,
                        lfree: nat, lfree': nat)
    requires SameFlags(m, m1, bs, h) && SameFlags(m1, m2, ds, p) && h < p && p !in bs
    requires (forall x :: x in cs <==> x in bs || x == p) && (forall x :: x in ds ==> x in cs)
    requires p in ds && p < |m2| && m2[p].Item? && !m2[p].used && h < |m1| && m1[h].Item? && m1[h].used
    requires lfree' == lfree || (lfree' == p < lfree)
    ensures Lowest(m, bs, lfree) ==> (Lowest(m2, ds, lfree') <==> lfree' <= p)
  {
  }

  /** With a right hint, the blocks the search starts behind serve nothing. */
  lemma BelowHint(m: seq<Word>, bs: seq<nat>, lfree: nat, n: int)
    requires Tiles(m, bs) && lfree in bs && Lowest(m, bs, lfree)
    ensures NoneServes(m, bs, 0, IndexOf(bs, lfree), n)
  {
    forall k | 0 <= k < IndexOf(bs, lfree)
      ensures !Serves(m, bs[k], n)
    {
      assert bs[k] in bs;
    }
  }
}
