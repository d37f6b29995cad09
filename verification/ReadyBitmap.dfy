/**
 The ready bitmap of the scheduler: __rt_ffs of kservice.c, and the one-level (up to 32 priorities)
 and two-level (up to 256) maps of priorities with ready threads.
 */
module ReadyBitmap {
  import opened Bits

  // ---------- __rt_ffs ----------

  /** One row of __lowest_bit_bitmap: only its first entry differs from row to row. */
  function Row(x: nat): seq<nat> { [x, 0, 1, 0, 2, 0, 1, 0, 3, 0, 1, 0, 2, 0, 1, 0] }

  function RowHeads(): seq<nat> { [0, 4, 5, 4, 6, 4, 5, 4, 7, 4, 5, 4, 6, 4, 5, 4] }

  /** __lowest_bit_bitmap[v] */
  function LowestBit(v: nat): nat
    requires v < 256
  {
    Row(RowHeads()[v / 16])[v % 16]
  }

  /** k is the lowest bit set in s. */
  predicate IsLowest(s: seq<bool>, k: nat) { k < |s| && s[k] && forall i :: 0 <= i < k ==> !s[i] }

  lemma NibbleValue(s: seq<bool>)
    requires |s| == 4
    ensures Val(s) == (if s[0] then 1 else 0) + (if s[1] then 2 else 0) + (if s[2] then 4 else 0)
        + (if s[3] then 8 else 0)
  {
    assert s[1..][1..] == s[2..] && s[2..][1..] == s[3..] && s[3..][1..] == [];
    assert Val(s[3..]) == if s[3] then 1 else 0;
    assert Val(s[2..]) == (if s[2] then 1 else 0) + 2 * Val(s[3..]);
    assert Val(s[1..]) == (if s[1] then 1 else 0) + 2 * Val(s[2..]);
  }

  lemma LowNibble(s: seq<bool>, x: nat)
    requires |s| == 4 && s != Zero(4)
    ensures Val(s) < 16 && IsLowest(s, Row(x)[Val(s)])
  {
    NibbleValue(s);
    assert s[0] || s[1] || s[2] || s[3];
  }

  lemma HighNibble(s: seq<bool>)
    requires |s| == 4 && s != Zero(4)
    ensures Val(s) < 16 && RowHeads()[Val(s)] >= 4 && IsLowest(s, RowHeads()[Val(s)] - 4)
  {
    hide Val;
    NibbleValue(s);
    assert s[0] || s[1] || s[2] || s[3];
    RowHeadOf(Val(s), s[0], s[1], s[2], s[3]);
  }

  lemma RowHeadOf(v: nat, b0: bool, b1: bool, b2: bool, b3: bool)
    requires v == (if b0 then 1 else 0) + (if b1 then 2 else 0) + (if b2 then 4 else 0) + (if b3 then 8 else 0) && v > 0
    ensures v < 16 && RowHeads()[v] == if b0 then 4 else if b1 then 5 else if b2 then 6 else 7
  {
  }

  /** The table gives the lowest bit of every byte but zero. */
  lemma ByteLowest(b: seq<bool>)
    requires |b| == 8 && b != Zero(8)
    ensures Val(b) < 256 && IsLowest(b, LowestBit(Val(b)))
  {
    hide Val, Row, RowHeads, IsLowest;
    ByteRange(b);
    Nibbles(b);
    if b[..4] != Zero(4) {
      var x := RowHeads()[Val(b[4..])];
      LowNibble(b[..4], x);
      FromLow(b, Row(x)[Val(b[..4])]);
    } else {
      HighNibble(b[4..]);
      FromHigh(b, RowHeads()[Val(b[4..])] - 4);
      ZeroColumn(RowHeads()[Val(b[4..])]);
    }
  }

  lemma Nibbles(b: seq<bool>)
    requires |b| == 8
    ensures Val(b) / 16 == Val(b[4..]) < 16 && Val(b) % 16 == Val(b[..4]) < 16
    ensures b != Zero(8) && b[..4] == Zero(4) ==> b[4..] != Zero(4) && Val(b[..4]) == 0
    ensures |RowHeads()| == 16 && forall x :: |Row(x)| == 16
  {
    hide Val;
    assert b == b[..4] + b[4..];
    ValAppend(b[..4], b[4..]);
    ZeroNibble(b[..4]);
    ZeroNibble(b[4..]);
    assert Pow2(4) == 16;
    SplitByte(Val(b), Val(b[..4]), Val(b[4..]));
    if b[..4] == Zero(4) && b[4..] == Zero(4) {
      assert b == Zero(8);
    }
  }

  lemma SplitByte(v: nat, lo: nat, hi: nat)
    requires v == lo + 16 * hi && lo < 16
    ensures v / 16 == hi && v % 16 == lo
  {
  }

  lemma ZeroNibble(s: seq<bool>)
    requires |s| == 4
    ensures Val(s) < 16 && (s == Zero(4) ==> Val(s) == 0)
  {
    NibbleValue(s);
  }

  lemma ZeroColumn(x: nat)
    ensures Row(x)[0] == x
  {
  }

  lemma FromLow(b: seq<bool>, k: nat)
    requires |b| == 8 && IsLowest(b[..4], k)
    ensures IsLowest(b, k)
  {
    assert forall i :: 0 <= i < 4 ==> b[..4][i] == b[i];
  }

  lemma FromHigh(b: seq<bool>, k: nat)
    requires |b| == 8 && IsLowest(b[4..], k) && b[..4] == Zero(4)
    ensures IsLowest(b, k + 4)
  {
    assert forall i :: 0 <= i < 4 ==> b[i] == b[..4][i];
    assert forall i :: 4 <= i < 8 ==> b[i] == b[4..][i - 4];
  }

  lemma ByteRange(b: seq<bool>)
    requires |b| == 8
    ensures Val(b) < 256
  {
    ValBound(b);
    assert Pow2(8) == 256;
  }

  /** __rt_ffs: the number of the lowest bit set, counting from 1; 0 if none is. */
  function Ffs(value: Word): nat {
    ByteRange(value[0..8]); ByteRange(value[8..16]); ByteRange(value[16..24]); ByteRange(value[24..32]);
    if value == Zero(32) then 0
    else if value[0..8] != Zero(8) then LowestBit(Val(value[0..8])) + 1
    else if value[8..16] != Zero(8) then LowestBit(Val(value[8..16])) + 9
    else if value[16..24] != Zero(8) then LowestBit(Val(value[16..24])) + 17
    else LowestBit(Val(value[24..32])) + 25
  }

  lemma FfsIsLowest(value: Word)
    ensures value == Zero(32) ==> Ffs(value) == 0
    ensures value != Zero(32) ==> Ffs(value) >= 1 && IsLowest(value, Ffs(value) - 1)
  {
    hide LowestBit, Val;
    if value != Zero(32) {
      if value[0..8] != Zero(8) {
        FfsPart(value, 0);
      } else if value[8..16] != Zero(8) {
        FfsPart(value, 8);
      } else if value[16..24] != Zero(8) {
        FfsPart(value, 16);
      } else {
        if value[24..32] == Zero(8) {
          Parts(value);
        }
        FfsPart(value, 24);
      }
    }
  }

  lemma Parts(value: Word)
    requires value[0..8] == value[8..16] == value[16..24] == value[24..32] == Zero(8)
    ensures value == Zero(32)
  {
    assert value == value[0..8] + value[8..16] + value[16..24] + value[24..32];
  }

  /** The lowest bit of a byte is the lowest bit of the word if the bytes below are zero. */
  lemma FfsPart(value: Word, at: nat)
    requires at % 8 == 0 && at <= 24 && value[at..at + 8] != Zero(8)
    requires forall j :: 0 <= j < at ==> !value[j]
    ensures Val(value[at..at + 8]) < 256 && IsLowest(value, at + LowestBit(Val(value[at..at + 8])))
  {
    var b := value[at..at + 8];
    ByteLowest(b);
    hide LowestBit, Val;
    var k := LowestBit(Val(b));
    forall i | 0 <= i < at + k
      ensures !value[i]
    {
      if i >= at {
        assert b[i - at] == value[i];
      }
    }
  }

  // ---------- masks ----------

  /** The mask with bit n alone. */
  function OneBit(n: nat, width: nat): seq<bool> { seq(width, i => i == n) }

  function Or(a: seq<bool>, b: seq<bool>): (r: seq<bool>)
    requires |a| == |b|
    ensures |r| == |a|
  {
    seq(|a|, i requires 0 <= i < |a| => a[i] || b[i])
  }

  /** a & ~b */
  function AndNot(a: seq<bool>, b: seq<bool>): (r: seq<bool>)
    requires |a| == |b|
    ensures |r| == |a|
  {
    seq(|a|, i requires 0 <= i < |a| => a[i] && !b[i])
  }

  // ---------- the map of ready priorities ----------

  /** rt_thread_ready_priority_group and, above 32 priorities, rt_thread_ready_table. */
  datatype Bitmap = Bitmap(group: Word, table: seq<seq<bool>>)

  /** RT_THREAD_PRIORITY_MAX > 32 takes two levels. */
  predicate TwoLevels(levels: nat) { levels > 32 }

  ghost predicate Shape(b: Bitmap, levels: nat) {
    && 1 <= levels <= 256 && |b.table| == 32
    && (forall n :: 0 <= n < 32 ==> |b.table[n]| == 8)
    && (TwoLevels(levels) ==> forall n :: 0 <= n < 32 ==> (b.group[n] <==> b.table[n] != Zero(8)))
    && (TwoLevels(levels) ==> forall q :: levels <= q < 256 ==> !b.table[q / 8][q % 8])
    && (!TwoLevels(levels) ==> forall q :: levels <= q < 32 ==> !b.group[q])
  }

  predicate Marked(b: Bitmap, levels: nat, p: nat)
    requires p < levels <= 256 && |b.table| == 32 && forall n :: 0 <= n < 32 ==> |b.table[n]| == 8
  {
    if TwoLevels(levels) then b.table[p / 8][p % 8] else b.group[p]
  }

  function SetBit(b: Bitmap, levels: nat, p: nat): (r: Bitmap)
    requires Shape(b, levels) && p < levels
  {
    if TwoLevels(levels) then
      Bitmap(Or(b.group, OneBit(p / 8, 32)), b.table[p / 8 := Or(b.table[p / 8], OneBit(p % 8, 8))])
    else b.(group := Or(b.group, OneBit(p, 32)))
  }

  function ClearBit(b: Bitmap, levels: nat, p: nat): (r: Bitmap)
    requires Shape(b, levels) && p < levels
  {
    if TwoLevels(levels) then
      var b' := b.(table := b.table[p / 8 := AndNot(b.table[p / 8], OneBit(p % 8, 8))]);
      if b'.table[p / 8] == Zero(8) then b'.(group := AndNot(b.group, OneBit(p / 8, 32))) else b'
    else b.(group := AndNot(b.group, OneBit(p, 32)))
  }

  lemma Digits(p: nat, q: nat)
    ensures p / 8 == q / 8 && p % 8 == q % 8 ==> p == q
    ensures p < 256 ==> p / 8 < 32
  {
  }

  lemma SetMarks(b: Bitmap, levels: nat, p: nat)
    requires Shape(b, levels) && p < levels
    ensures Shape(SetBit(b, levels, p), levels)
    ensures forall q :: 0 <= q < levels ==>
        (Marked(SetBit(b, levels, p), levels, q) <==> q == p || Marked(b, levels, q))
  {
    var b' := SetBit(b, levels, p);
    if TwoLevels(levels) {
      var row := b'.table[p / 8];
      assert row[p % 8];
      forall q | 0 <= q < levels
        ensures Marked(b', levels, q) <==> q == p || Marked(b, levels, q)
      {
        Digits(p, q);
      }
    }
  }

  lemma ClearMarks(b: Bitmap, levels: nat, p: nat)
    requires Shape(b, levels) && p < levels
    ensures Shape(ClearBit(b, levels, p), levels)
    ensures forall q :: 0 <= q < levels ==>
        (Marked(ClearBit(b, levels, p), levels, q) <==> q != p && Marked(b, levels, q))
  {
    var b' := ClearBit(b, levels, p);
    if TwoLevels(levels) {
      var row, row' := b.table[p / 8], b'.table[p / 8];
      assert row == Zero(8) ==> forall i :: 0 <= i < 8 ==> !row[i];
      forall q | 0 <= q < levels
        ensures Marked(b', levels, q) <==> q != p && Marked(b, levels, q)
      {
        Digits(p, q);
      }
    }
  }

  /** The priority rt_schedule picks. */
  function Highest(b: Bitmap, levels: nat): int
    requires Shape(b, levels)
  {
    if TwoLevels(levels) then
      var number := Ffs(b.group) - 1;
      if 0 <= number < 32 then number * 8 + Ffs(b.table[number] + Zero(24)) - 1 else -1
    else Ffs(b.group) - 1
  }

  /** The lowest bit of the lowest row that is not zero. */
  lemma LowestPair(b: Bitmap, levels: nat, number: nat, bit: nat)
    requires Shape(b, levels) && TwoLevels(levels) && IsLowest(b.group, number) && IsLowest(b.table[number], bit)
    ensures number * 8 + bit < levels && Marked(b, levels, number * 8 + bit)
    ensures forall q :: 0 <= q < number * 8 + bit ==> !Marked(b, levels, q)
  {
    var h := number * 8 + bit;
    assert h / 8 == number && h % 8 == bit;
    forall q | 0 <= q < h && q < levels
      ensures !Marked(b, levels, q)
    {
      if q / 8 < number {
        assert !b.group[q / 8] && b.table[q / 8] == Zero(8);
      }
    }
  }

  /** The lowest marked priority number, whenever one is marked. */
  lemma HighestIsLowest(b: Bitmap, levels: nat, p: nat)
    requires Shape(b, levels) && p < levels && Marked(b, levels, p)
    ensures 0 <= Highest(b, levels) < levels && Marked(b, levels, Highest(b, levels))
    ensures forall q :: 0 <= q < Highest(b, levels) ==> !Marked(b, levels, q)
  {
    hide Ffs;
    FfsIsLowest(b.group);
    if TwoLevels(levels) {
      SomeRow(b, levels, p);
      var number := Ffs(b.group) - 1;
      NonZero(b.table[number]);
      FfsIsLowest(b.table[number] + Zero(24));
      InFirstByte(b.table[number], Ffs(b.table[number] + Zero(24)) - 1);
      LowestPair(b, levels, number, Ffs(b.table[number] + Zero(24)) - 1);
    } else {
      assert b.group != Zero(32);
    }
  }

  lemma SomeRow(b: Bitmap, levels: nat, p: nat)
    requires Shape(b, levels) && TwoLevels(levels) && p < levels && Marked(b, levels, p)
    ensures b.group != Zero(32)
  {
    assert b.table[p / 8][p % 8];
    assert b.table[p / 8] != Zero(8);
    assert b.group[p / 8];
  }

  lemma NonZero(s: seq<bool>)
    requires |s| == 8 && s != Zero(8)
    ensures s + Zero(24) != Zero(32) && exists i :: 0 <= i < 8 && s[i]
  {
    assert exists i :: 0 <= i < 8 && s[i];
    var i :| 0 <= i < 8 && s[i];
    assert (s + Zero(24))[i];
  }

  lemma InFirstByte(s: seq<bool>, k: nat)
    requires |s| == 8 && s != Zero(8) && IsLowest(s + Zero(24), k)
    ensures k < 8 && IsLowest(s, k)
  {
    NonZero(s);
    var i :| 0 <= i < 8 && s[i];
    assert (s + Zero(24))[i];
    assert forall j :: 0 <= j < 8 ==> (s + Zero(24))[j] == s[j];
  }
}
