/** Bit strings: machine words and bit streams, least significant (first transmitted) bit first. */
module Bits {
  import opened Widths

  type Word = w: seq<bool> | |w| == 32 witness seq(32, _ => false)

  function Zero(n: nat): (z: seq<bool>)
    ensures |z| == n
  {
    seq(n, _ => false)
  }

  function Xor(a: seq<bool>, b: seq<bool>): (r: seq<bool>)
    requires |a| == |b|
    ensures |r| == |a|
  {
    seq(|a|, i requires 0 <= i < |a| => a[i] != b[i])
  }

  function Not(a: seq<bool>): (r: seq<bool>)
    ensures |r| == |a|
  {
    seq(|a|, i requires 0 <= i < |a| => !a[i])
  }

  /** `c >> n` on a word. */
  function Shr(c: Word, n: nat): Word
    requires n <= 32
  {
    c[n..] + Zero(n)
  }

  /** `c << n` on a word. */
  function Shl(c: Word, n: nat): Word
    requires n <= 32
  {
    Zero(n) + c[..32 - n]
  }

  /** The number a bit string stands for. */
  function Val(s: seq<bool>): nat {
    if s == [] then 0 else (if s[0] then 1 else 0) + 2 * Val(s[1..])
  }

  /** The low `width` bits of a number. */
  function OfNat(n: nat, width: nat): (s: seq<bool>)
    ensures |s| == width
  {
    if width == 0 then [] else [n % 2 == 1] + OfNat(n / 2, width - 1)
  }

  function Nibble(d: nat): (s: seq<bool>)
    ensures |s| == 4
  {
    [d % 2 == 1, d / 2 % 2 == 1, d / 4 % 2 == 1, d / 8 % 2 == 1]
  }

  /** A word written as eight hexadecimal digits, the usual way round. */
  function Hex(d: seq<nat>): Word
    requires |d| == 8
  {
    Nibble(d[7]) + Nibble(d[6]) + Nibble(d[5]) + Nibble(d[4])
    + Nibble(d[3]) + Nibble(d[2]) + Nibble(d[1]) + Nibble(d[0])
  }

  lemma HexDigits(w: Word, d: seq<nat>)
    requires |d| == 8
    requires w[0..4] == Nibble(d[7]) && w[4..8] == Nibble(d[6]) && w[8..12] == Nibble(d[5]) && w[12..16] == Nibble(d[4])
    requires w[16..20] == Nibble(d[3]) && w[20..24] == Nibble(d[2]) && w[24..28] == Nibble(d[1])
        && w[28..32] == Nibble(d[0])
    ensures w == Hex(d)
  {
    hide Nibble;
    assert w == w[0..4] + w[4..8] + w[8..12] + w[12..16] + w[16..20] + w[20..24] + w[24..28] + w[28..32];
  }

  function Pow2(n: nat): (p: nat)
    ensures p > 0
  {
    if n == 0 then 1 else 2 * Pow2(n - 1)
  }

  lemma {:induction false} ValBound(s: seq<bool>)
    ensures Val(s) < Pow2(|s|)
  {
    if s != [] { ValBound(s[1..]); }
  }

  lemma {:induction false} OfNatVal(s: seq<bool>)
    ensures OfNat(Val(s), |s|) == s
  {
    if s != [] {
      OfNatVal(s[1..]);
      assert s == [s[0]] + s[1..];
    }
  }

  lemma {:induction false} ValOfNat(n: nat, width: nat)
    requires n < Pow2(width)
    ensures Val(OfNat(n, width)) == n
  {
    if width > 0 { ValOfNat(n / 2, width - 1); }
  }

  /** Widening a number appends zero bits. */
  lemma {:induction false} OfNatWiden(n: nat, width: nat, wider: nat)
    requires n < Pow2(width) && width <= wider
    ensures OfNat(n, wider) == OfNat(n, width) + Zero(wider - width)
  {
    if width == 0 {
      OfNatZero(wider);
    } else {
      OfNatWiden(n / 2, width - 1, wider - 1);
    }
  }

  lemma {:induction false} OfNatZero(width: nat)
    ensures OfNat(0, width) == Zero(width)
  {
    if width > 0 { OfNatZero(width - 1); }
  }

  lemma {:induction false} ValAppend(a: seq<bool>, b: seq<bool>)
    ensures Val(a + b) == Val(a) + Pow2(|a|) * Val(b)
  {
    if a == [] {
      assert a + b == b;
    } else {
      ValAppend(a[1..], b);
      assert (a + b)[1..] == a[1..] + b;
      assert 2 * (Pow2(|a| - 1) * Val(b)) == (2 * Pow2(|a| - 1)) * Val(b);
    }
  }

  lemma XorZero(a: seq<bool>)
    ensures Xor(a, Zero(|a|)) == a && Xor(Zero(|a|), a) == a && Xor(a, a) == Zero(|a|)
  {
  }

  lemma XorNot(a: seq<bool>, b: seq<bool>)
    requires |a| == |b|
    ensures Xor(Not(a), b) == Not(Xor(a, b)) == Xor(a, Not(b))
    ensures Not(Not(a)) == a
  {
  }

  /** The low n bits of a number are the first n bits of its string, the rest is the quotient. */
  lemma ValSplit(s: seq<bool>, n: nat)
    requires n <= |s|
    ensures Val(s) % Pow2(n) == Val(s[..n])
    ensures Val(s) / Pow2(n) == Val(s[n..])
  {
    assert s == s[..n] + s[n..];
    ValAppend(s[..n], s[n..]);
    ValBound(s[..n]);
    DivUnique(Val(s), Pow2(n), Val(s[n..]), Val(s[..n]));
  }

  lemma DivUnique(n: nat, d: nat, q: nat, r: nat)
    requires d > 0 && n == d * q + r && r < d
    ensures n / d == q && n % d == r
  {
    var q', r' := n / d, n % d;
    assert n == d * q' + r';
    if q' > q {
      MulGap(d, q', q);
    } else if q > q' {
      MulGap(d, q, q');
    }
  }

  lemma MulGap(d: nat, x: nat, y: nat)
    requires x > y
    ensures d * x >= d * y + d
  {
    assert d * x == d * y + d * (x - y);
    assert d * (x - y) >= d by { assert d * (x - y) == d + d * (x - y - 1); }
  }

  lemma {:induction false} Pow2Mono(a: nat, b: nat)
    requires a <= b
    ensures Pow2(a) <= Pow2(b)
  {
    if a < b { Pow2Mono(a, b - 1); }
  }

  lemma Pow2Values()
    ensures Pow2(8) == 0x100 && Pow2(16) == 0x1_0000 && Pow2(32) == 0x1_0000_0000
  {
    assert Pow2(8) == 0x100;
    Pow2Add(8, 8);
    Pow2Add(16, 16);
  }

  lemma {:induction false} Pow2Add(a: nat, b: nat)
    ensures Pow2(a + b) == Pow2(a) * Pow2(b)
  {
    if a > 0 {
      Pow2Add(a - 1, b);
      Doubled(Pow2(a - 1), Pow2(b));
    }
  }

  lemma Doubled(p: nat, q: nat)
    ensures 2 * (p * q) == (2 * p) * q
  {
  }

  /** The bits of a byte string in transmission order: bytes in order, low bit first. */
  function MessageBits(data: seq<Byte>): seq<bool> {
    if data == [] then [] else MessageBits(data[..|data| - 1]) + OfNat(data[|data| - 1], 8)
  }

  lemma {:induction false} MessageAppend(a: seq<Byte>, b: seq<Byte>)
    ensures MessageBits(a + b) == MessageBits(a) + MessageBits(b)
  {
    hide OfNat;
    if b == [] {
      assert a + b == a;
    } else {
      var l, last := b[..|b| - 1], OfNat(b[|b| - 1], 8);
      MessageAppend(a, l);
      MessageLast(a + b);
      assert (a + b)[..|a + b| - 1] == a + l;
      hide MessageBits;
      assert MessageBits(a) + MessageBits(l) + last == MessageBits(a) + (MessageBits(l) + last);
    }
  }

  lemma MessageLast(d: seq<Byte>)
    requires d != []
    ensures MessageBits(d) == MessageBits(d[..|d| - 1]) + OfNat(d[|d| - 1], 8)
  {
  }

  lemma {:induction false} MessageLength(b: seq<Byte>)
    ensures |MessageBits(b)| == 8 * |b|
  {
    if b != [] { MessageLength(b[..|b| - 1]); }
  }

  /** Byte i of a message occupies the bits from 8 i. */
  lemma MessageByte(d: seq<Byte>, i: nat)
    requires i < |d|
    ensures |MessageBits(d)| == 8 * |d|
    ensures MessageBits(d)[8 * i..8 * i + 8] == OfNat(d[i], 8)
  {
    hide OfNat;
    var a, b := d[..i + 1], d[i + 1..];
    assert d == a + b;
    MessageAppend(a, b);
    MessageLast(a);
    assert a[..i] == d[..i];
    MessageLength(d[..i]);
    MessageLength(d);
    hide MessageBits;
    assert MessageBits(d) == MessageBits(d[..i]) + OfNat(d[i], 8) + MessageBits(b);
  }
}
