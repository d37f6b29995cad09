/**
 The CRC-32 of crc32.c. The definition is polynomial long division on bit strings; the code
 computes it a byte at a time, four bytes at a time in either byte order, and joins the CRCs
 of two adjacent strings by repeated squaring of a matrix over GF(2).
 */
module Crc32 {
  import opened Widths
  import opened Bits

  // ---------- the definition: long division by the CRC polynomial ----------

  /** The exponents p[] of make_crc_table; x^32 is implied. */
  const TERMS: seq<nat> := [0, 1, 2, 4, 5, 7, 8, 10, 11, 12, 16, 22, 23, 26]

  /** The polynomial without x^32: bit i is the coefficient of x^(31 - i). */
  function Poly(): Word {
    seq(32, i requires 0 <= i < 32 => 31 - i in TERMS)
  }

  /** Exclusive-or of a word into the first 32 bits of a longer string. */
  function Mix(c: Word, t: seq<bool>): seq<bool>
    requires |t| >= 32
  {
    Xor(c, t[..32]) + t[32..]
  }

  /**
   * The remainder of a polynomial, written highest power first, after division by
   * x^32 + Poly(): subtract the divisor wherever the leading coefficient is one.
   */
  function Remainder(t: seq<bool>): Word
    requires |t| >= 32
    decreases |t|
  {
    if |t| == 32 then t
    else Remainder(if t[0] then Mix(Poly(), t[1..]) else t[1..])
  }

  /**
   * CRC-32 (RFC 1952, section 8): the first 32 bits of the message followed by 32 zeros are
   * complemented, the remainder modulo the polynomial is taken and complemented again.
   */
  function Crc(data: seq<Byte>): Word {
    CrcFrom(Zero(32), data)
  }

  /** The same, continued from the CRC of the bytes before. */
  function CrcFrom(crc: Word, data: seq<Byte>): Word {
    Not(Remainder(Mix(Not(crc), MessageBits(data) + Zero(32))))
  }

  // ---------- the shift register ----------

  /** One message bit into the register. */
  function FeedBit(c: Word, b: bool): Word {
    if c[0] != b then Xor(Poly(), Shr(c, 1)) else Shr(c, 1)
  }

  function Feed(c: Word, bits: seq<bool>): Word
    decreases |bits|
  {
    if bits == [] then c else Feed(FeedBit(c, bits[0]), bits[1..])
  }

  /** n zero bits into the register. */
  function Zeros(n: nat, c: Word): Word {
    if n == 0 then c else Zeros(n - 1, FeedBit(c, false))
  }

  function Register(c: Word, data: seq<Byte>): Word {
    Feed(c, MessageBits(data))
  }

  /** The shift register computes the remainder of the long division. */
  lemma {:induction false} RegisterIsRemainder(c: Word, bits: seq<bool>)
    ensures Feed(c, bits) == Remainder(Mix(c, bits + Zero(32)))
    decreases |bits|
  {
    var t := bits + Zero(32);
    if bits == [] {
      assert t == Zero(32);
      XorZero(c);
      assert Mix(c, t) == c;
    } else {
      var c', t' := FeedBit(c, bits[0]), bits[1..] + Zero(32);
      RegisterIsRemainder(c', bits[1..]);
      var m := Mix(c, t);
      assert t' == t[1..];
      assert m[0] == (c[0] != bits[0]);
      DivisionStep(c, t);
    }
  }

  lemma DivisionStep(c: Word, t: seq<bool>)
    requires |t| >= 33
    ensures var m := Mix(c, t);
            Mix(FeedBit(c, t[0]), t[1..]) == if m[0] then Mix(Poly(), m[1..]) else m[1..]
  {
    var m := Mix(c, t);
    var l, r := Mix(FeedBit(c, t[0]), t[1..]), if m[0] then Mix(Poly(), m[1..]) else m[1..];
    assert |l| == |r| == |t| - 1;
    forall i | 0 <= i < |l| ensures l[i] == r[i] {
      if i < 31 {
        assert m[i + 1] == (c[i + 1] != t[i + 1]);
      } else {
        assert m[i + 1] == t[i + 1];
      }
    }
  }

  lemma {:induction false} FeedAppend(c: Word, a: seq<bool>, b: seq<bool>)
    ensures Feed(c, a + b) == Feed(Feed(c, a), b)
    decreases |a|
  {
    if a == [] {
      assert a + b == b;
    } else {
      FeedAppend(FeedBit(c, a[0]), a[1..], b);
      assert (a + b)[1..] == a[1..] + b;
    }
  }

  lemma RegisterAppend(c: Word, a: seq<Byte>, b: seq<Byte>)
    ensures Register(c, a + b) == Register(Register(c, a), b)
  {
    MessageAppend(a, b);
    FeedAppend(c, MessageBits(a), MessageBits(b));
  }

  // ---------- linearity ----------

  lemma StepLinear(a: Word, b: Word)
    ensures FeedBit(Xor(a, b), false) == Xor(FeedBit(a, false), FeedBit(b, false))
  {
  }

  lemma {:induction false} ZerosLinear(n: nat, a: Word, b: Word)
    ensures Zeros(n, Xor(a, b)) == Xor(Zeros(n, a), Zeros(n, b))
  {
    if n > 0 {
      StepLinear(a, b);
      ZerosLinear(n - 1, FeedBit(a, false), FeedBit(b, false));
    }
  }

  lemma {:induction false} ZerosAdd(m: nat, n: nat, c: Word)
    ensures Zeros(m + n, c) == Zeros(n, Zeros(m, c))
  {
    if m > 0 { ZerosAdd(m - 1, n, FeedBit(c, false)); }
  }

  /** Zero bits at the low end only move the rest down. */
  lemma {:induction false} ZerosShift(n: nat, x: seq<bool>)
    requires n + |x| == 32
    ensures Zeros(n, Zero(n) + x) == x + Zero(n)
  {
    if n == 0 {
      assert Zero(0) + x == x == x + Zero(0);
    } else {
      var y := x + [false];
      assert FeedBit(Zero(n) + x, false) == Zero(n - 1) + y;
      ZerosShift(n - 1, y);
      assert y + Zero(n - 1) == x + Zero(n);
    }
  }

  /** Up to 32 message bits can be added to the register at once. */
  lemma {:induction false} FeedIsZeros(c: Word, bits: seq<bool>)
    requires |bits| <= 32
    ensures Feed(c, bits) == Zeros(|bits|, Xor(c, bits + Zero(32 - |bits|)))
    decreases |bits|
  {
    var n := |bits|;
    var x := Xor(c, bits + Zero(32 - n));
    if n == 0 {
      assert bits + Zero(32) == Zero(32);
      XorZero(c);
    } else {
      var c', y := FeedBit(c, bits[0]), bits[1..] + Zero(33 - n);
      FeedIsZeros(c', bits[1..]);
      FeedIsZerosStep(c, bits);
    }
  }

  lemma FeedIsZerosStep(c: Word, bits: seq<bool>)
    requires 1 <= |bits| <= 32
    ensures FeedBit(Xor(c, bits + Zero(32 - |bits|)), false)
         == Xor(FeedBit(c, bits[0]), bits[1..] + Zero(33 - |bits|))
  {
    var w := bits + Zero(32 - |bits|);
    var l, r := FeedBit(Xor(c, w), false), Xor(FeedBit(c, bits[0]), bits[1..] + Zero(33 - |bits|));
    forall i | 0 <= i < 32 ensures l[i] == r[i] {
      if i < 31 { assert w[i + 1] == (bits[1..] + Zero(33 - |bits|))[i]; }
    }
  }

  // ---------- the tables ----------

  /** ZSWAP32: the four bytes of a word in the other order. */
  function Swap(c: Word): Word {
    c[24..32] + c[16..24] + c[8..16] + c[..8]
  }

  lemma SwapFacts(a: Word, b: Word)
    ensures Swap(Swap(a)) == a
    ensures Swap(Xor(a, b)) == Xor(Swap(a), Swap(b))
    ensures Swap(Not(a)) == Not(Swap(a))
  {
    var c: Word := Swap(a);
    assert c[24..32] == a[..8] && c[16..24] == a[8..16] && c[8..16] == a[16..24] && c[..8] == a[24..32];
  }

  lemma SwapShift(a: Word)
    ensures Swap(Shr(a, 8)) == Shl(Swap(a), 8)
  {
    var s: Word, l, r := Shr(a, 8), Swap(Shr(a, 8)), Shl(Swap(a), 8);
    assert s[24..32] == Zero(8) && s[16..24] == a[24..32] && s[8..16] == a[16..24] && s[..8] == a[8..16];
    assert Swap(a)[..24] == a[24..32] + a[16..24] + a[8..16];
    assert Zero(8) + (a[24..32] + a[16..24] + a[8..16]) == Zero(8) + a[24..32] + a[16..24] + a[8..16];
  }

  /** A byte in the low end of an otherwise zero word. */
  function Low(b: seq<bool>): Word
    requires |b| == 8
  {
    b + Zero(24)
  }

  /** Table k holds, for every byte value, the register after that byte and k zero bytes. */
  ghost predicate TableOk(t: array2<Word>, k: nat)
    requires k < 4
    reads t
  {
    && t.Length0 == 8 && t.Length1 == 256
    && (forall n {:trigger t[k, n]} :: 0 <= n < 256 ==> t[k, n] == Zeros(8 * (k + 1), OfNat(n, 32)))
    && (forall n {:trigger t[k + 4, n]} :: 0 <= n < 256 ==> t[k + 4, n] == Swap(Zeros(8 * (k + 1), OfNat(n, 32))))
  }

  ghost predicate TablesOk(t: array2<Word>)
    reads t
  {
    && t.Length0 == 8 && t.Length1 == 256
    && TableOk(t, 0) && TableOk(t, 1) && TableOk(t, 2) && TableOk(t, 3)
  }

  /** The index a byte of the register selects. */
  function Index(b: seq<bool>): (n: nat)
    requires |b| == 8
    ensures n < 256 && OfNat(n, 32) == Low(b)
  {
    ValBound(b);
    assert Pow2(8) == 256;
    OfNatVal(b);
    OfNatWiden(Val(b), 8, 32);
    Val(b)
  }

  /** The polynomial pattern, one term of p[] at a time. */
  method MakePoly() returns (poly: Word)
    ensures poly == Poly()
  {
    poly := Zero(32);
    for n := 0 to |TERMS|
      invariant poly == seq(32, i requires 0 <= i < 32 => 31 - i in TERMS[..n])
    {
      assert TERMS[..n + 1] == TERMS[..n] + [TERMS[n]];
      assert TERMS[n] <= 31;
      poly := poly[31 - TERMS[n] := true];
    }
    assert TERMS[..|TERMS|] == TERMS;
  }

  /** The literal of crc32_combine_ is the pattern make_crc_table builds. */
  lemma PolyValue()
    ensures Poly() == Hex([0xe, 0xd, 0xb, 0x8, 0x8, 0x3, 0x2, 0x0])
  {
    hide Poly;
    PolyLow();
    PolyHigh();
    HexDigits(Poly(), [0xe, 0xd, 0xb, 0x8, 0x8, 0x3, 0x2, 0x0]);
  }

  lemma PolyTerms()
    ensures forall i :: 0 <= i < 32 ==> Poly()[i] == IsTerm(31 - i)
  {
    forall i | 0 <= i < 32 ensures Poly()[i] == IsTerm(31 - i) {
      TermsAre(31 - i);
    }
  }

  lemma PolyLow()
    ensures Poly()[0..4] == Nibble(0x0) && Poly()[4..8] == Nibble(0x2)
    ensures Poly()[8..12] == Nibble(0x3) && Poly()[12..16] == Nibble(0x8)
  {
    hide Poly;
    PolyTerms();
  }

  lemma PolyHigh()
    ensures Poly()[16..20] == Nibble(0x8) && Poly()[20..24] == Nibble(0xb)
    ensures Poly()[24..28] == Nibble(0xd) && Poly()[28..32] == Nibble(0xe)
  {
    hide Poly;
    PolyTerms();
  }

  predicate IsTerm(e: nat) {
    || e == 0 || e == 1 || e == 2 || e == 4 || e == 5 || e == 7 || e == 8
    || e == 10 || e == 11 || e == 12 || e == 16 || e == 22 || e == 23 || e == 26
  }

  lemma TermsAre(e: nat)
    ensures e in TERMS <==> IsTerm(e)
  {
    if IsTerm(e) {
      assert TERMS[0] == 0 && TERMS[1] == 1 && TERMS[2] == 2 && TERMS[3] == 4 && TERMS[4] == 5 && TERMS[5] == 7
          && TERMS[6] == 8 && TERMS[7] == 10 && TERMS[8] == 11 && TERMS[9] == 12 && TERMS[10] == 16
          && TERMS[11] == 22 && TERMS[12] == 23 && TERMS[13] == 26;
    }
  }

  /** The table recurrence: the low byte leaves through table 0, the rest moves down. */
  lemma TableStep(c: Word)
    ensures Zeros(8, c) == Xor(Zeros(8, Low(c[..8])), Shr(c, 8))
  {
    var hi := Zero(8) + c[8..];
    assert c == Xor(Low(c[..8]), hi);
    ZerosLinear(8, Low(c[..8]), hi);
    ZerosShift(8, c[8..]);
  }

  /** The register after one byte, bit by bit. */
  method ByteEntry(poly: Word, n: nat) returns (c: Word)
    requires poly == Poly()
    ensures c == Zeros(8, OfNat(n, 32))
  {
    c := OfNat(n, 32);
    for k := 0 to 8
      invariant Zeros(8 - k, c) == Zeros(8, OfNat(n, 32))
    {
      c := if c[0] then Xor(poly, Shr(c, 1)) else Shr(c, 1);
    }
  }

  method MakeTable0(t: array2<Word>)
    requires t.Length0 == 8 && t.Length1 == 256
    modifies t
    ensures forall n {:trigger t[0, n]} :: 0 <= n < 256 ==> t[0, n] == Zeros(8, OfNat(n, 32))
  {
    hide Zeros, OfNat, Poly;
    var poly := MakePoly();
    for n := 0 to 256
      invariant forall m {:trigger t[0, m]} :: 0 <= m < n ==> t[0, m] == Zeros(8, OfNat(m, 32))
    {
      var c := ByteEntry(poly, n);
      t[0, n] := c;
    }
  }

  /** make_crc_table: table 0 from the polynomial, the others from table 0. */
  method MakeCrcTable(t: array2<Word>)
    requires t.Length0 == 8 && t.Length1 == 256
    modifies t
    ensures TablesOk(t)
  {
    MakeTable0(t);
    for n := 0 to 256
      invariant forall m {:trigger t[0, m]} :: 0 <= m < 256 ==> t[0, m] == Zeros(8, OfNat(m, 32))
      invariant forall m, k {:trigger t[k, m]} :: 0 <= m < n && 0 <= k < 4 ==>
          t[k, m] == Zeros(8 * (k + 1), OfNat(m, 32))
      invariant forall m, k {:trigger t[k, m]} :: 0 <= m < n && 4 <= k < 8 ==>
          t[k, m] == Swap(Zeros(8 * (k - 3), OfNat(m, 32)))
    {
      FillRow(t, n);
    }
  }

  method FillRow(t: array2<Word>, n: nat)
    requires t.Length0 == 8 && t.Length1 == 256 && n < 256
    requires forall m {:trigger t[0, m]} :: 0 <= m < 256 ==> t[0, m] == Zeros(8, OfNat(m, 32))
    modifies t
    ensures forall k {:trigger t[k, n]} :: 0 <= k < 4 ==> t[k, n] == Zeros(8 * (k + 1), OfNat(n, 32))
    ensures forall k {:trigger t[k, n]} :: 4 <= k < 8 ==> t[k, n] == Swap(Zeros(8 * (k - 3), OfNat(n, 32)))
    ensures forall k, m {:trigger t[k, m]} :: 0 <= k < 8 && 0 <= m < 256 && m != n ==> t[k, m] == old(t[k, m])
    ensures t[0, n] == old(t[0, n])
  {
    hide Zeros, OfNat, Swap, Xor;
    var c := t[0, n];
    t[4, n] := Swap(c);
    for k := 1 to 4
      invariant c == Zeros(8 * k, OfNat(n, 32))
      invariant forall j {:trigger t[j, n]} :: 1 <= j < k ==> t[j, n] == Zeros(8 * (j + 1), OfNat(n, 32))
      invariant forall j {:trigger t[j, n]} :: 4 <= j < k + 4 ==> t[j, n] == Swap(Zeros(8 * (j - 3), OfNat(n, 32)))
      invariant forall j, m {:trigger t[j, m]} :: 0 <= j < 8 && 0 <= m < 256 && (m != n || j == 0) ==>
          t[j, m] == old(t[j, m])
    {
      TableStep(c);
      ZerosAdd(8 * k, 8, OfNat(n, 32));
      c := Xor(t[0, Index(c[..8])], Shr(c, 8));
      t[k, n] := c;
      t[k + 4, n] := Swap(c);
    }
  }

  // ---------- one byte, four bytes ----------

  /** DO1: one byte through table 0. */
  function Do1(t: array2<Word>, c: Word, b: Byte): Word
    requires t.Length0 == 8 && t.Length1 == 256
    reads t
  {
    Xor(t[0, Index(Xor(c[..8], OfNat(b, 8)))], Shr(c, 8))
  }

  lemma Do1Correct(t: array2<Word>, c: Word, b: Byte)
    requires TableOk(t, 0)
    ensures Do1(t, c, b) == Register(c, [b])
  {
    var x := Xor(c, Low(OfNat(b, 8)));
    assert [b][..0] == [] && MessageBits([b]) == OfNat(b, 8);
    FeedIsZeros(c, OfNat(b, 8));
    TableStep(x);
    assert x[..8] == Xor(c[..8], OfNat(b, 8));
    assert Shr(x, 8) == Shr(c, 8);
  }

  /** Four bytes in memory order as a 32-bit load on a little-endian machine. */
  function LittleWord(b: seq<Byte>): Word
    requires |b| == 4
  {
    OfNat(b[0], 8) + OfNat(b[1], 8) + OfNat(b[2], 8) + OfNat(b[3], 8)
  }

  function BigWord(b: seq<Byte>): Word
    requires |b| == 4
  {
    OfNat(b[3], 8) + OfNat(b[2], 8) + OfNat(b[1], 8) + OfNat(b[0], 8)
  }

  lemma RegisterFour(c: Word, b: seq<Byte>)
    requires |b| == 4
    ensures Register(c, b) == Zeros(32, Xor(c, LittleWord(b)))
  {
    assert b[..4] == b && b[..4][..3] == b[..3] && b[..3][..2] == b[..2] && b[..2][..1] == b[..1] && b[..1][..0] == [];
    assert MessageBits(b[..1]) == OfNat(b[0], 8);
    assert MessageBits(b[..2]) == MessageBits(b[..1]) + OfNat(b[1], 8);
    assert MessageBits(b[..3]) == MessageBits(b[..2]) + OfNat(b[2], 8);
    assert MessageBits(b) == LittleWord(b);
    FeedIsZeros(c, LittleWord(b));
    assert LittleWord(b) + Zero(0) == LittleWord(b);
  }

  /** One byte of the register, at byte position i, on its own. */
  lemma LaneZeros(x: Word, i: nat)
    requires i < 4
    ensures Zeros(32, Zero(8 * i) + x[8 * i..8 * i + 8] + Zero(24 - 8 * i))
        == Zeros(32 - 8 * i, Low(x[8 * i..8 * i + 8]))
  {
    var b := x[8 * i..8 * i + 8];
    ZerosAdd(8 * i, 32 - 8 * i, Zero(8 * i) + b + Zero(24 - 8 * i));
    ZerosShift(8 * i, b + Zero(24 - 8 * i));
    assert Zero(8 * i) + b + Zero(24 - 8 * i) == Zero(8 * i) + (b + Zero(24 - 8 * i));
    assert b + Zero(24 - 8 * i) + Zero(8 * i) == Low(b);
  }

  lemma SliceFour(x: Word)
    ensures Zeros(32, x) == Xor(Xor(Xor(Zeros(32, Low(x[..8])), Zeros(24, Low(x[8..16]))),
                                    Zeros(16, Low(x[16..24]))), Zeros(8, Low(x[24..])))
  {
    hide Zeros;
    var p0: Word, p1: Word := x[..8] + Zero(24), Zero(8) + x[8..16] + Zero(16);
    var p2: Word, p3: Word := Zero(16) + x[16..24] + Zero(8), Zero(24) + x[24..];
    assert x == Xor(Xor(Xor(p0, p1), p2), p3);
    ZerosLinear(32, Xor(Xor(p0, p1), p2), p3);
    ZerosLinear(32, Xor(p0, p1), p2);
    ZerosLinear(32, p0, p1);
    LaneZeros(x, 1);
    LaneZeros(x, 2);
    LaneZeros(x, 3);
    assert Zero(24) + x[24..32] + Zero(0) == p3 && x[24..32] == x[24..];
  }

  /** DOLIT4: four bytes through tables 3 to 0. */
  function DoLit4(t: array2<Word>, c: Word, w: Word): Word
    requires t.Length0 == 8 && t.Length1 == 256
    reads t
  {
    var x: Word := Xor(c, w);
    Xor(Xor(Xor(t[3, Index(x[..8])], t[2, Index(x[8..16])]), t[1, Index(x[16..24])]), t[0, Index(x[24..])])
  }

  lemma DoLit4Correct(t: array2<Word>, c: Word, b: seq<Byte>)
    requires TablesOk(t) && |b| == 4
    ensures DoLit4(t, c, LittleWord(b)) == Register(c, b)
  {
    RegisterFour(c, b);
    SliceFour(Xor(c, LittleWord(b)));
  }

  /** DOBIG4: the same four bytes on a byte-reversed register, through tables 4 to 7. */
  function DoBig4(t: array2<Word>, c: Word, w: Word): Word
    requires t.Length0 == 8 && t.Length1 == 256
    reads t
  {
    var x: Word := Xor(c, w);
    Xor(Xor(Xor(t[4, Index(x[..8])], t[5, Index(x[8..16])]), t[6, Index(x[16..24])]), t[7, Index(x[24..])])
  }

  /** Tables 4 to 7 hold the swapped entries of tables 0 to 3. */
  lemma SwappedLanes(t: array2<Word>, x: Word)
    requires TablesOk(t)
    ensures Xor(Xor(Xor(t[4, Index(x[24..])], t[5, Index(x[16..24])]), t[6, Index(x[8..16])]), t[7, Index(x[..8])])
         == Swap(Zeros(32, x))
  {
    SliceFour(x);
    hide Swap, Xor, Zeros;
    var z0, z1, z2, z3 := Zeros(32, Low(x[..8])), Zeros(24, Low(x[8..16])), Zeros(16, Low(x[16..24])),
      Zeros(8, Low(x[24..]));
    assert t[0 + 4, Index(x[24..])] == Swap(z3);
    assert t[1 + 4, Index(x[16..24])] == Swap(z2);
    assert t[2 + 4, Index(x[8..16])] == Swap(z1);
    assert t[3 + 4, Index(x[..8])] == Swap(z0);
    SwapFacts(z0, z1);
    SwapFacts(Xor(z0, z1), z2);
    SwapFacts(Xor(Xor(z0, z1), z2), z3);
    XorReverse(Swap(z0), Swap(z1), Swap(z2), Swap(z3));
  }

  lemma SwapParts(x: Word)
    ensures Swap(x)[..8] == x[24..] && Swap(x)[8..16] == x[16..24] && Swap(x)[16..24] == x[8..16]
        && Swap(x)[24..] == x[..8]
  {
  }

  lemma BigIsSwapped(b: seq<Byte>)
    requires |b| == 4
    ensures BigWord(b) == Swap(LittleWord(b))
  {
  }

  lemma DoBig4Correct(t: array2<Word>, c: Word, b: seq<Byte>)
    requires TablesOk(t) && |b| == 4
    ensures DoBig4(t, Swap(c), BigWord(b)) == Swap(Register(c, b))
  {
    hide Swap, Xor, Zeros, TableOk, LittleWord, BigWord, Register;
    var x: Word := Xor(c, LittleWord(b));
    RegisterFour(c, b);
    SwappedLanes(t, x);
    BigIsSwapped(b);
    SwapFacts(c, LittleWord(b));
    SwapParts(x);
  }

  lemma XorReverse(a: Word, b: Word, c: Word, d: Word)
    ensures Xor(Xor(Xor(a, b), c), d) == Xor(Xor(Xor(d, c), b), a)
  {
  }

  /** One byte on a byte-reversed register. */
  function DoBig1(t: array2<Word>, c: Word, b: Byte): Word
    requires t.Length0 == 8 && t.Length1 == 256
    reads t
  {
    Xor(t[4, Index(Xor(c[24..], OfNat(b, 8)))], Shl(c, 8))
  }

  lemma DoBig1Correct(t: array2<Word>, c: Word, b: Byte)
    requires TableOk(t, 0)
    ensures DoBig1(t, Swap(c), b) == Swap(Register(c, [b]))
  {
    Do1Correct(t, c, b);
    var n := Index(Xor(c[..8], OfNat(b, 8)));
    assert Swap(c)[24..] == c[..8];
    SwapFacts(t[0, n], Shr(c, 8));
    SwapShift(c);
    assert t[0 + 4, n] == Swap(t[0, n]);
  }

  // ---------- crc32_z and its two four-byte forms ----------

  lemma CrcFromRegister(crc: Word, data: seq<Byte>)
    ensures CrcFrom(crc, data) == Not(Register(Not(crc), data))
  {
    RegisterIsRemainder(Not(crc), MessageBits(data));
  }

  lemma RegisterEmpty(c: Word)
    ensures Register(c, []) == c
  {
  }

  lemma RegisterStep(c: Word, buf: seq<Byte>, i: nat, n: nat)
    requires i + n <= |buf|
    ensures Register(c, buf[..i + n]) == Register(Register(c, buf[..i]), buf[i..i + n])
  {
    assert buf[..i + n] == buf[..i] + buf[i..i + n];
    RegisterAppend(c, buf[..i], buf[i..i + n]);
  }

  /** Without BYFOUR: eight bytes at a time (DO8), then the rest one at a time. */
  method Crc32Bytewise(t: array2<Word>, crc: Word, buf: array<Byte>, len0: nat) returns (r: Word)
    requires TablesOk(t) && len0 <= buf.Length
    ensures r == CrcFrom(crc, buf[..len0])
  {
    hide Register, FeedBit, Not, Do1, TableOk, CrcFrom;
    var c: Word, len: nat, pos: nat := Not(crc), len0, 0;
    ghost var all, c0 := buf[..len0], c;
    assert all[..0] == [];
    RegisterEmpty(c0);
    while len >= 8
      invariant len + pos == len0 && c == Register(c0, all[..pos])
    {
      for k := 0 to 8
        invariant c == Register(c0, all[..pos + k])
      {
        Do1Correct(t, c, buf[pos + k]);
        RegisterStep(c0, all, pos + k, 1);
        assert all[pos + k..pos + k + 1] == [buf[pos + k]];
        c := Do1(t, c, buf[pos + k]);
      }
      pos, len := pos + 8, len - 8;
    }
    c := Tail(t, c, buf, pos, len, c0, all);
    CrcFromRegister(crc, all);
    r := Not(c);
  }

  /** The last few bytes, one at a time. */
  method Tail(t: array2<Word>, c1: Word, buf: array<Byte>, pos0: nat, len0: nat, ghost c0: Word, ghost all: seq<Byte>)
    returns (c: Word)
    requires TablesOk(t) && pos0 + len0 == |all| <= buf.Length && all == buf[..|all|]
    requires c1 == Register(c0, all[..pos0])
    ensures c == Register(c0, all)
  {
    hide Register, FeedBit, Do1, TableOk;
    var pos: nat, len: nat := pos0, len0;
    c := c1;
    while len > 0
      invariant pos + len == |all| && c == Register(c0, all[..pos])
    {
      Do1Correct(t, c, buf[pos]);
      RegisterStep(c0, all, pos, 1);
      assert all[pos..pos + 1] == [buf[pos]];
      c := Do1(t, c, buf[pos]);
      pos, len := pos + 1, len - 1;
    }
    assert all[..pos] == all;
  }

  /** crc32_little: bytes up to a four-byte boundary, then words (eight per turn, then single), then bytes. */
  method Crc32Little(t: array2<Word>, crc: Word, buf: array<Byte>, addr: nat, len0: nat) returns (r: Word)
    requires TablesOk(t) && len0 <= buf.Length
    ensures r == CrcFrom(crc, buf[..len0])
  {
    hide Register, FeedBit, Not, Do1, DoLit4, TableOk, CrcFrom, LittleWord;
    var c: Word, len: nat, pos: nat := Not(crc), len0, 0;
    ghost var all, c0 := buf[..len0], c;
    assert all[..0] == [];
    RegisterEmpty(c0);
    while len > 0 && (addr + pos) % 4 != 0
      invariant len + pos == len0 && c == Register(c0, all[..pos])
    {
      Do1Correct(t, c, buf[pos]);
      RegisterStep(c0, all, pos, 1);
      assert all[pos..pos + 1] == [buf[pos]];
      c := Do1(t, c, buf[pos]);
      pos, len := pos + 1, len - 1;
    }
    while len >= 32
      invariant len + pos == len0 && c == Register(c0, all[..pos])
    {
      for k := 0 to 8
        invariant c == Register(c0, all[..pos + 4 * k])
      {
        c := LittleStep(t, c, buf, pos + 4 * k, c0, all);
      }
      pos, len := pos + 32, len - 32;
    }
    while len >= 4
      invariant len + pos == len0 && c == Register(c0, all[..pos])
    {
      c := LittleStep(t, c, buf, pos, c0, all);
      pos, len := pos + 4, len - 4;
    }
    c := Tail(t, c, buf, pos, len, c0, all);
    CrcFromRegister(crc, all);
    r := Not(c);
  }

  method LittleStep(t: array2<Word>, c1: Word, buf: array<Byte>, pos: nat, ghost c0: Word, ghost all: seq<Byte>)
    returns (c: Word)
    requires TablesOk(t) && pos + 4 <= |all| <= buf.Length && all == buf[..|all|]
    requires c1 == Register(c0, all[..pos])
    ensures c == Register(c0, all[..pos + 4])
  {
    hide Register, FeedBit, DoLit4, TableOk, LittleWord;
    DoLit4Correct(t, c1, buf[pos..pos + 4]);
    RegisterStep(c0, all, pos, 4);
    assert all[pos..pos + 4] == buf[pos..pos + 4];
    c := DoLit4(t, c1, LittleWord(buf[pos..pos + 4]));
  }

  /** crc32_big: the same walk on a byte-reversed register. */
  method Crc32Big(t: array2<Word>, crc: Word, buf: array<Byte>, addr: nat, len0: nat) returns (r: Word)
    requires TablesOk(t) && len0 <= buf.Length
    ensures r == CrcFrom(crc, buf[..len0])
  {
    hide Register, FeedBit, Not, Swap, DoBig1, DoBig4, TableOk, CrcFrom, BigWord;
    var c: Word, len: nat, pos: nat := Not(Swap(crc)), len0, 0;
    ghost var all, c0: Word := buf[..len0], Not(crc);
    assert all[..0] == [];
    RegisterEmpty(c0);
    SwapFacts(crc, crc);
    while len > 0 && (addr + pos) % 4 != 0
      invariant len + pos == len0 && c == Swap(Register(c0, all[..pos]))
    {
      c := BigByteStep(t, c, buf, pos, c0, all);
      pos, len := pos + 1, len - 1;
    }
    while len >= 32
      invariant len + pos == len0 && c == Swap(Register(c0, all[..pos]))
    {
      for k := 0 to 8
        invariant c == Swap(Register(c0, all[..pos + 4 * k]))
      {
        c := BigWordStep(t, c, buf, pos + 4 * k, c0, all);
      }
      pos, len := pos + 32, len - 32;
    }
    while len >= 4
      invariant len + pos == len0 && c == Swap(Register(c0, all[..pos]))
    {
      c := BigWordStep(t, c, buf, pos, c0, all);
      pos, len := pos + 4, len - 4;
    }
    while len > 0
      invariant len + pos == len0 && c == Swap(Register(c0, all[..pos]))
    {
      c := BigByteStep(t, c, buf, pos, c0, all);
      pos, len := pos + 1, len - 1;
    }
    assert all[..pos] == all;
    CrcFromRegister(crc, all);
    SwapFacts(Register(c0, all), crc);
    SwapFacts(c, crc);
    r := Swap(Not(c));
  }

  method BigByteStep(t: array2<Word>, c1: Word, buf: array<Byte>, pos: nat, ghost c0: Word, ghost all: seq<Byte>)
    returns (c: Word)
    requires TablesOk(t) && pos < |all| <= buf.Length && all == buf[..|all|]
    requires c1 == Swap(Register(c0, all[..pos]))
    ensures c == Swap(Register(c0, all[..pos + 1]))
  {
    hide Register, FeedBit, Swap, DoBig1, TableOk;
    DoBig1Correct(t, Register(c0, all[..pos]), buf[pos]);
    RegisterStep(c0, all, pos, 1);
    assert all[pos..pos + 1] == [buf[pos]];
    c := DoBig1(t, c1, buf[pos]);
  }

  method BigWordStep(t: array2<Word>, c1: Word, buf: array<Byte>, pos: nat, ghost c0: Word, ghost all: seq<Byte>)
    returns (c: Word)
    requires TablesOk(t) && pos + 4 <= |all| <= buf.Length && all == buf[..|all|]
    requires c1 == Swap(Register(c0, all[..pos]))
    ensures c == Swap(Register(c0, all[..pos + 4]))
  {
    hide Register, FeedBit, Swap, DoBig4, TableOk, BigWord;
    DoBig4Correct(t, Register(c0, all[..pos]), buf[pos..pos + 4]);
    RegisterStep(c0, all, pos, 4);
    assert all[pos..pos + 4] == buf[pos..pos + 4];
    c := DoBig4(t, c1, BigWord(buf[pos..pos + 4]));
  }

  datatype Build = Bytewise | FourLittle | FourBig

  /** crc32_z: a null buffer gives zero; otherwise the form the build and the machine select. */
  method Crc32Z(build: Build, t: array2<Word>, crc: Word, buf: array?<Byte>, addr: nat, len: nat) returns (r: Word)
    requires TablesOk(t)
    requires buf != null ==> len <= buf.Length
    ensures buf == null ==> r == Zero(32)
    ensures buf != null ==> r == CrcFrom(crc, buf[..len])
  {
    if buf == null { return Zero(32); }
    match build
    case Bytewise => r := Crc32Bytewise(t, crc, buf, len);
    case FourLittle => r := Crc32Little(t, crc, buf, addr, len);
    case FourBig => r := Crc32Big(t, crc, buf, addr, len);
  }

  /** A CRC can be continued: the CRC so far is all that the next call needs. */
  lemma CrcFromAppend(crc: Word, a: seq<Byte>, b: seq<Byte>)
    ensures CrcFrom(crc, a + b) == CrcFrom(CrcFrom(crc, a), b)
  {
    CrcFromRegister(crc, a + b);
    CrcFromRegister(crc, a);
    CrcFromRegister(CrcFrom(crc, a), b);
    RegisterAppend(Not(crc), a, b);
    XorNot(Register(Not(crc), a), crc);
  }

  // ---------- crc32_combine_ ----------

  /** The word with only bit n set. */
  function Unit(n: nat): Word {
    seq(32, i => i == n)
  }

  /** The product of a GF(2) matrix, given by its rows, with the first i bits of a vector. */
  function Combo(m: seq<Word>, v: Word, i: nat): Word
    requires |m| == 32 && i <= 32
  {
    if i == 0 then Zero(32)
    else if v[i - 1] then Xor(Combo(m, v, i - 1), m[i - 1])
    else Combo(m, v, i - 1)
  }

  function MatrixTimes(m: seq<Word>, v: Word): Word
    requires |m| == 32
  {
    Combo(m, v, 32)
  }

  /** The matrix of "append n zero bits": row i is what becomes of bit i. */
  ghost predicate IsZerosMatrix(m: seq<Word>, n: nat) {
    |m| == 32 && forall i :: 0 <= i < 32 ==> m[i] == Zeros(n, Unit(i))
  }

  lemma {:induction false} ZerosOfZero(n: nat)
    ensures Zeros(n, Zero(32)) == Zero(32)
  {
    if n > 0 {
      assert FeedBit(Zero(32), false) == Zero(32);
      ZerosOfZero(n - 1);
    }
  }

  lemma {:induction false} ComboIsZeros(m: seq<Word>, n: nat, v: Word, i: nat)
    requires IsZerosMatrix(m, n) && i <= 32
    ensures Combo(m, v, i) == Zeros(n, v[..i] + Zero(32 - i))
  {
    if i == 0 {
      assert v[..0] + Zero(32) == Zero(32);
      ZerosOfZero(n);
    } else {
      var low: Word := v[..i - 1] + Zero(33 - i);
      ComboIsZeros(m, n, v, i - 1);
      if v[i - 1] {
        ZerosLinear(n, low, Unit(i - 1));
        assert v[..i] + Zero(32 - i) == Xor(low, Unit(i - 1));
      } else {
        assert v[..i] + Zero(32 - i) == low;
      }
    }
  }

  lemma TimesIsZeros(m: seq<Word>, n: nat, v: Word)
    requires IsZerosMatrix(m, n)
    ensures MatrixTimes(m, v) == Zeros(n, v)
  {
    ComboIsZeros(m, n, v, 32);
    assert v[..32] + Zero(0) == v;
  }

  /** Squaring the matrix composes the operator with itself. */
  lemma SquareIsZeros(m: seq<Word>, s: seq<Word>, n: nat)
    requires IsZerosMatrix(m, n)
    requires |s| == 32 && forall i :: 0 <= i < 32 ==> s[i] == MatrixTimes(m, m[i])
    ensures IsZerosMatrix(s, 2 * n)
  {
    forall i | 0 <= i < 32 ensures s[i] == Zeros(2 * n, Unit(i)) {
      TimesIsZeros(m, n, m[i]);
      ZerosAdd(n, n, Unit(i));
    }
  }

  lemma {:induction false} ComboRest(m: seq<Word>, v: Word, i: nat, j: nat)
    requires |m| == 32 && i <= j <= 32
    requires forall k :: i <= k < 32 ==> !v[k]
    ensures Combo(m, v, j) == Combo(m, v, i)
  {
    if j > i { ComboRest(m, v, i, j - 1); }
  }

  method Gf2MatrixTimes(mat: array<Word>, vec0: Word) returns (sum: Word)
    requires mat.Length == 32
    ensures sum == MatrixTimes(mat[..], vec0)
  {
    sum := Zero(32);
    var vec, i: nat := vec0, 0;
    assert vec0[0..] + Zero(0) == vec0;
    while vec != Zero(32)
      invariant i <= 32 && vec == vec0[i..] + Zero(i)
      invariant i == 32 ==> vec == Zero(32)
      invariant sum == Combo(mat[..], vec0, i)
      decreases 32 - i
    {
      assert vec[0] == vec0[i];
      if vec[0] { sum := Xor(sum, mat[i]); }
      assert Shr(vec, 1) == vec0[i + 1..] + Zero(i + 1);
      vec := Shr(vec, 1);
      i := i + 1;
    }
    forall k | i <= k < 32 ensures !vec0[k] {
      assert vec[k - i] == vec0[k];
    }
    ComboRest(mat[..], vec0, i, 32);
  }

  method Gf2MatrixSquare(square: array<Word>, mat: array<Word>, ghost n: nat)
    requires square != mat && square.Length == mat.Length == 32
    requires IsZerosMatrix(mat[..], n)
    modifies square
    ensures IsZerosMatrix(square[..], 2 * n)
  {
    hide IsZerosMatrix;
    for i := 0 to 32
      invariant forall j :: 0 <= j < i ==> square[j] == MatrixTimes(mat[..], mat[j])
      invariant mat[..] == old(mat[..])
    {
      var row := Gf2MatrixTimes(mat, mat[i]);
      square[i] := row;
    }
    SquareIsZeros(mat[..], square[..], n);
  }

  /** The operator for one zero bit, as crc32_combine_ writes it down. */
  method OneZeroBit(odd: array<Word>)
    requires odd.Length == 32
    modifies odd
    ensures IsZerosMatrix(odd[..], 1)
  {
    odd[0] := Hex([0xe, 0xd, 0xb, 0x8, 0x8, 0x3, 0x2, 0x0]);
    PolyValue();
    hide Hex, Poly;
    OneBit(0);
    var row := Unit(0);
    for n := 1 to 32
      invariant row == Unit(n - 1)
      invariant forall i :: 0 <= i < n ==> odd[i] == Zeros(1, Unit(i))
    {
      odd[n] := row;
      OneBit(n);
      assert n < 32 ==> Shl(Unit(n - 1), 1) == Unit(n);
      row := Shl(row, 1);
    }
  }

  lemma OneBit(n: nat)
    requires n < 32
    ensures Zeros(1, Unit(n)) == if n == 0 then Poly() else Unit(n - 1)
  {
    assert Zeros(1, Unit(n)) == Zeros(0, FeedBit(Unit(n), false)) == FeedBit(Unit(n), false);
    if n == 0 {
      assert Shr(Unit(0), 1) == Zero(32);
      XorZero(Poly());
    } else {
      assert Shr(Unit(n), 1) == Unit(n - 1);
    }
  }

  /** One turn of the squaring loop: the lowest bit of the length is applied and dropped. */
  lemma HalveStep(p: nat, len: nat, crc: Word, crc': Word)
    requires crc' == if len % 2 == 1 then Zeros(8 * p, crc) else crc
    ensures Zeros(8 * p * len, crc) == Zeros(8 * (2 * p) * (len / 2), crc')
  {
    var rest := 8 * (2 * p) * (len / 2);
    assert 8 * p * len == 8 * p * (len % 2) + rest by {
      assert len == len % 2 + 2 * (len / 2);
      assert 8 * p * len == 8 * p * (len % 2) + 8 * p * (2 * (len / 2));
    }
    if len % 2 == 1 { ZerosAdd(8 * p, rest, crc); }
  }

  lemma {:induction false} FeedAffine(x: Word, y: Word, bits: seq<bool>)
    ensures Feed(Xor(x, y), bits) == Xor(Zeros(|bits|, x), Feed(y, bits))
    decreases |bits|
  {
    if bits != [] {
      assert FeedBit(Xor(x, y), bits[0]) == Xor(FeedBit(x, false), FeedBit(y, bits[0]));
      FeedAffine(FeedBit(x, false), FeedBit(y, bits[0]), bits[1..]);
    }
  }

  lemma RegisterAffine(x: Word, y: Word, data: seq<Byte>)
    ensures Register(Xor(x, y), data) == Xor(Zeros(8 * |data|, x), Register(y, data))
  {
    hide Feed, Xor, Zeros;
    FeedAffine(x, y, MessageBits(data));
    MessageLength(data);
  }

  lemma NotIsXor(x: Word)
    ensures Not(x) == Xor(x, Not(Zero(32)))
  {
  }

  /** Concatenation: the first CRC pushed through |b| zero bytes, plus the second. */
  lemma CrcConcat(a: seq<Byte>, b: seq<Byte>)
    ensures Crc(a + b) == Xor(Zeros(8 * |b|, Crc(a)), Crc(b))
  {
    hide Register, Zeros, CrcFrom, Xor, Not;
    var x: Word, y: Word := Crc(a), Not(Zero(32));
    CrcFromAppend(Zero(32), a, b);
    CrcFromRegister(x, b);
    CrcFromRegister(Zero(32), b);
    NotIsXor(x);
    RegisterAffine(x, y, b);
    XorNot(Zeros(8 * |b|, x), Register(y, b));
  }

  method Crc32Combine(crc1: Word, crc2: Word, len2: int) returns (crc: Word)
    requires len2 < 0x8000_0000_0000_0000
    ensures len2 <= 0 ==> crc == crc1
    ensures len2 > 0 ==> crc == Xor(Zeros(8 * len2, crc1), crc2)
    ensures forall a: seq<Byte>, b: seq<Byte> ::
              |b| == len2 && crc1 == Crc(a) && crc2 == Crc(b) ==> crc == Crc(a + b)
  {
    hide IsZerosMatrix, Zeros, MatrixTimes, Crc, CrcFrom;
    crc := crc1;
    if len2 <= 0 {
      forall a: seq<Byte>, b: seq<Byte> | |b| == len2 && crc1 == Crc(a) ensures crc == Crc(a + b) {
        assert a + b == a;
      }
      return;
    }
    var even, odd := new Word[32], new Word[32];
    OneZeroBit(odd);
    Gf2MatrixSquare(even, odd, 1);
    Gf2MatrixSquare(odd, even, 2);
    var len: nat := len2;
    ghost var p: nat := 1;
    while true
      invariant even.Length == odd.Length == 32 && even != odd && fresh(even) && fresh(odd)
      invariant IsZerosMatrix(odd[..], 4 * p)
      invariant len > 0 && Zeros(8 * p * len, crc) == Zeros(8 * len2, crc1)
      decreases len
    {
      Gf2MatrixSquare(even, odd, 4 * p);
      crc := ApplyBit(even, p, len, crc);
      len := len / 2;
      if len == 0 { break; }
      Gf2MatrixSquare(odd, even, 8 * p);
      crc := ApplyBit(odd, 2 * p, len, crc);
      len := len / 2;
      p := 4 * p;
      if len == 0 { break; }
    }
    assert crc == Zeros(8 * len2, crc1) by { NoMoreZeros(crc); }
    crc := Xor(crc, crc2);
    forall a: seq<Byte>, b: seq<Byte> | |b| == len2 && crc1 == Crc(a) && crc2 == Crc(b) ensures crc == Crc(a + b) {
      CrcConcat(a, b);
    }
  }

  lemma NoMoreZeros(c: Word)
    ensures Zeros(0, c) == c
  {
  }

  /** Apply the zeros operator for the lowest bit of the remaining length. */
  method ApplyBit(mat: array<Word>, ghost p: nat, len: nat, crc1: Word) returns (crc: Word)
    requires mat.Length == 32 && IsZerosMatrix(mat[..], 8 * p)
    ensures Zeros(8 * (2 * p) * (len / 2), crc) == Zeros(8 * p * len, crc1)
  {
    hide Zeros, MatrixTimes;
    crc := crc1;
    if len % 2 == 1 {
      crc := Gf2MatrixTimes(mat, crc1);
      TimesIsZeros(mat[..], 8 * p, crc1);
    }
    HalveStep(p, len, crc1, crc);
  }
}
