/**
 The Adler-32 checksum of adler32.c: the RFC 1950 definition reduces both sums after every
 byte, while the code lets them grow for up to NMAX bytes and reduces once. A combine
 function joins the checksums of two adjacent strings without looking at their bytes.
 */
module Adler32 {
  import opened Widths

  const BASE: nat := 65521
  const NMAX: nat := 5552

  // ---------- the definition of RFC 1950, section 9 ----------

  datatype Sums = Sums(s1: nat, s2: nat)

  function Update(s: Sums, b: Byte): Sums {
    var s1 := (s.s1 + b) % BASE;
    Sums(s1, (s.s2 + s1) % BASE)
  }

  /** The pair of sums after the bytes of `data`, each sum reduced after every byte. */
  function Checksum(s: Sums, data: seq<Byte>): Sums {
    if data == [] then s
    else Update(Checksum(s, data[..|data| - 1]), data[|data| - 1])
  }

  function Pack(s: Sums): U32
    requires s.s1 < 65536 && s.s2 < 65536
  {
    s.s1 + 65536 * s.s2
  }

  function Unpack(adler: U32): Sums {
    Sums(adler % 65536, adler / 65536)
  }

  function Reduced(s: Sums): Sums {
    Sums(s.s1 % BASE, s.s2 % BASE)
  }

  /** The checksum of a whole string: the sums start at 1 and 0. */
  function Adler(data: seq<Byte>): U32 {
    ChecksumReduced(Sums(1, 0), data);
    Pack(Checksum(Sums(1, 0), data))
  }

  // ---------- the sums without any reduction ----------

  /** What the unrolled inner loops compute: no modulo at all. */
  function Plain(s: Sums, data: seq<Byte>): Sums {
    if data == [] then s
    else
      var p := Plain(s, data[..|data| - 1]);
      Sums(p.s1 + data[|data| - 1], p.s2 + p.s1 + data[|data| - 1])
  }

  lemma ChecksumReduced(s: Sums, data: seq<Byte>)
    requires s.s1 < BASE && s.s2 < BASE
    ensures Checksum(s, data).s1 < BASE && Checksum(s, data).s2 < BASE
  {
  }

  lemma PlainExtend(s: Sums, data: seq<Byte>, k: nat)
    requires k < |data|
    ensures Plain(s, data[..k + 1]).s1 == Plain(s, data[..k]).s1 + data[k]
    ensures Plain(s, data[..k + 1]).s2 == Plain(s, data[..k]).s2 + Plain(s, data[..k]).s1 + data[k]
  {
    assert data[..k + 1][..k] == data[..k];
  }

  lemma {:induction false} ChecksumAppend(s: Sums, a: seq<Byte>, b: seq<Byte>)
    ensures Checksum(s, a + b) == Checksum(Checksum(s, a), b)
  {
    if b == [] {
      assert a + b == a;
    } else {
      ChecksumAppend(s, a, b[..|b| - 1]);
      assert (a + b)[..|a + b| - 1] == a + b[..|b| - 1];
    }
  }

  /** Reducing late is reducing early: the plain sums agree with the definition modulo BASE. */
  lemma {:induction false} PlainCongruent(s: Sums, data: seq<Byte>)
    ensures Reduced(Plain(s, data)) == Checksum(Reduced(s), data)
  {
    if data != [] {
      var p, b := Plain(s, data[..|data| - 1]), data[|data| - 1];
      PlainCongruent(s, data[..|data| - 1]);
      ModAdd(p.s1, b);
      ModAdd(p.s2, p.s1 + b);
    }
  }

  /** The sum of the bytes. */
  function Total(data: seq<Byte>): nat { if data == [] then 0 else data[0] + Total(data[1..]) }

  /** The sum of the bytes, each as often as there are bytes from it to the end. */
  function Weighted(data: seq<Byte>): nat { if data == [] then 0 else |data| * data[0] + Weighted(data[1..]) }

  lemma {:induction false} OneMore(front: seq<Byte>, b: Byte)
    ensures Total(front + [b]) == Total(front) + b
    ensures Weighted(front + [b]) == Weighted(front) + Total(front) + b
  {
    if front != [] {
      assert (front + [b])[1..] == front[1..] + [b];
      OneMore(front[1..], b);
      Distributes(|front|, front[0]);
    }
  }

  lemma Distributes(n: nat, x: nat)
    ensures (n + 1) * x == n * x + x
  {
  }

  lemma {:induction false} PlainSums(s: Sums, data: seq<Byte>)
    ensures Plain(s, data) == Sums(s.s1 + Total(data), s.s2 + |data| * s.s1 + Weighted(data))
  {
    if data != [] {
      var front, b := data[..|data| - 1], data[|data| - 1];
      PlainSums(s, front);
      assert data == front + [b];
      OneMore(front, b);
      Distributes(|front|, s.s1);
    }
  }

  /** What the checksum is: the low half counts the bytes' values, the high half weighs them by their place. */
  lemma ClosedForm(data: seq<Byte>)
    ensures Adler(data) % 65536 == (1 + Total(data)) % BASE
    ensures Adler(data) / 65536 == (|data| + Weighted(data)) % BASE
  {
    hide Checksum, Plain, Total, Weighted;
    PlainCongruent(Sums(1, 0), data);
    PlainSums(Sums(1, 0), data);
    ChecksumReduced(Sums(1, 0), data);
    Halves(Checksum(Sums(1, 0), data));
  }

  lemma Halves(s: Sums)
    requires s.s1 < BASE && s.s2 < BASE
    ensures Pack(s) % 65536 == s.s1 && Pack(s) / 65536 == s.s2
  {
  }

  lemma ModAdd(a: nat, b: nat)
    ensures (a % BASE + b % BASE) % BASE == (a + b) % BASE
    ensures (a % BASE + b) % BASE == (a + b) % BASE
  {
    var k := a / BASE;
    assert a == a % BASE + BASE * k;
    ModCongruent(a + b, a % BASE + b, k);
    ModCongruent(a % BASE + b, a % BASE + b % BASE, b / BASE);
  }

  /** One byte more in the closed form. */
  lemma Triangle(n: nat, s1: nat)
    ensures 2 * n * s1 + 255 * n * (n + 1) + 2 * (s1 + 255 * n) + 510 == 2 * (n + 1) * s1 + 255 * (n + 1) * (n + 2)
  {
  }

  /** The closed form behind NMAX: what n bytes can add to each sum. */
  lemma {:induction false} PlainBound(s: Sums, data: seq<Byte>)
    ensures Plain(s, data).s1 <= s.s1 + 255 * |data|
    ensures 2 * Plain(s, data).s2 <= 2 * s.s2 + 2 * |data| * s.s1 + 255 * |data| * (|data| + 1)
  {
    if data != [] {
      var n := |data| - 1;
      PlainBound(s, data[..n]);
      Triangle(n, s.s1);
      assert |data| == n + 1;
    }
  }

  /** No sum leaves 32 bits within NMAX bytes, whatever 16-bit halves the caller started from. */
  lemma NmaxFits(s: Sums, data: seq<Byte>)
    requires s.s1 < 65536 && s.s2 < 65536 && |data| <= NMAX
    ensures Plain(s, data).s1 < 0x1_0000_0000 && Plain(s, data).s2 < 0x1_0000_0000
  {
    PlainBound(s, data);
    var n := |data|;
    assert n * s.s1 <= NMAX * 65535 by { MulMono(n, NMAX, s.s1, 65535); }
    assert n * (n + 1) <= NMAX * (NMAX + 1) by { MulMono(n, NMAX, n + 1, NMAX + 1); }
    assert 255 * n * (n + 1) == 255 * (n * (n + 1));
    assert 2 * n * s.s1 == 2 * (n * s.s1);
  }

  /** NMAX is tight: with one byte more, the largest reduced sums and 0xff bytes overflow. */
  lemma NmaxTight(data: seq<Byte>)
    requires |data| == NMAX + 1
    requires forall i :: 0 <= i < |data| ==> data[i] == 255
    ensures Plain(Sums(BASE - 1, BASE - 1), data).s2 >= 0x1_0000_0000
  {
    PlainOfMax(Sums(BASE - 1, BASE - 1), data);
  }

  lemma {:induction false} PlainOfMax(s: Sums, data: seq<Byte>)
    requires forall i :: 0 <= i < |data| ==> data[i] == 255
    ensures Plain(s, data).s1 == s.s1 + 255 * |data|
    ensures 2 * Plain(s, data).s2 == 2 * s.s2 + 2 * |data| * s.s1 + 255 * |data| * (|data| + 1)
  {
    if data != [] {
      var n := |data| - 1;
      PlainOfMax(s, data[..n]);
      Triangle(n, s.s1);
      assert |data| == n + 1;
    }
  }

  lemma MulMono(a: nat, b: nat, c: nat, d: nat)
    requires a <= b && c <= d
    ensures a * c <= b * d
  {
    assert a * c <= b * c;
    assert b * c <= b * d;
  }

  lemma ModCongruent(a: int, b: int, k: int)
    requires a == b + BASE * k
    ensures a % BASE == b % BASE
  {
  }

  // ---------- reduction without division (NO_DIVIDE) ----------

  /** One folding step: 65536 is 15 modulo BASE. */
  function Chop(a: nat): nat {
    a % 65536 + 15 * (a / 65536)
  }

  function Mod28(a: nat): nat {
    var c := Chop(a);
    if c >= BASE then c - BASE else c
  }

  function Mod32(a: nat): nat {
    Mod28(Chop(a))
  }

  function Mod63(a: nat): nat {
    var b := a % 0x1_0000_0000 + 225 * (a / 0x1_0000_0000);
    Mod28(Chop(b))
  }

  lemma ChopCongruent(a: nat)
    ensures Chop(a) % BASE == a % BASE
  {
    ModCongruent(a, Chop(a), a / 65536);
  }

  lemma ChopBound(a: nat, k: nat)
    requires a < 65536 * k
    ensures Chop(a) <= 65535 + 15 * k
  {
  }

  lemma Mod28Correct(a: nat)
    requires a < 0x1000_0000
    ensures Mod28(a) == a % BASE
  {
    ChopCongruent(a);
  }

  lemma Mod32Correct(a: U32)
    ensures Mod32(a) == a % BASE
  {
    ChopCongruent(a);
    Mod28Correct(Chop(a));
  }

  lemma Mod63Correct(a: nat)
    requires a < 0x8000_0000_0000_0000
    ensures Mod63(a) == a % BASE
  {
    var b := a % 0x1_0000_0000 + 225 * (a / 0x1_0000_0000);
    ModCongruent(a, b, 65551 * (a / 0x1_0000_0000));
    ChopCongruent(b);
    ChopBound(b, 0x80_0000);
    Mod28Correct(Chop(b));
  }

  /** The MOD macro of either build. */
  function Mod(noDivide: bool, a: U32): (r: nat)
    ensures r == a % BASE
  {
    Mod32Correct(a);
    if noDivide then Mod32(a) else a % BASE
  }

  // ---------- adler32_z ----------

  /** The one-byte shortcut subtracts BASE only once, which is too little for this start value. */
  predicate LeftUnreduced(adler: U32, data: seq<Byte>) {
    |data| == 1 && adler / 65536 + (adler % 65536 + data[0]) % BASE >= 2 * BASE
  }

  method SumBytes(buf: array<Byte>, ghost start: nat, pos: nat, n: nat, adler0: U32, sum0: U32, ghost s: Sums)
    returns (adler: U32, sum2: U32)
    requires start <= pos && pos + n <= buf.Length && pos + n - start <= NMAX
    requires s.s1 < 65536 && s.s2 < 65536
    requires Sums(adler0, sum0) == Plain(s, buf[start..pos])
    ensures Sums(adler, sum2) == Plain(s, buf[start..pos + n])
  {
    adler, sum2 := adler0, sum0;
    for i := 0 to n
      invariant Sums(adler, sum2) == Plain(s, buf[start..pos + i])
    {
      ghost var chunk := buf[start..pos + i + 1];
      assert chunk[..pos + i - start] == buf[start..pos + i];
      PlainExtend(s, chunk, pos + i - start);
      NmaxFits(s, chunk);
      assert chunk[..|chunk|] == chunk;
      adler := adler + buf[pos + i];
      sum2 := sum2 + adler;
    }
  }

  /** The body of a block: sixteen bytes at a time, as the DO16 macro unrolls them. */
  method SumBlock(buf: array<Byte>, start: nat, n: nat, adler0: U32, sum0: U32)
    returns (adler: U32, sum2: U32)
    requires start + 16 * n <= buf.Length && 16 * n <= NMAX
    requires adler0 < 65536 && sum0 < 65536
    ensures Sums(adler, sum2) == Plain(Sums(adler0, sum0), buf[start..start + 16 * n])
  {
    adler, sum2 := adler0, sum0;
    for k := 0 to n
      invariant Sums(adler, sum2) == Plain(Sums(adler0, sum0), buf[start..start + 16 * k])
    {
      adler, sum2 := SumBytes(buf, start, start + 16 * k, 16, adler, sum2, Sums(adler0, sum0));
    }
  }

  lemma OneByte(s: Sums, data: seq<Byte>)
    requires |data| == 1
    ensures Checksum(Reduced(s), data)
         == Sums((s.s1 + data[0]) % BASE, (s.s2 + (s.s1 + data[0]) % BASE) % BASE)
  {
    assert data[..0] == [];
    assert Checksum(Reduced(s), data) == Update(Reduced(s), data[0]);
    ModAdd(s.s1, data[0]);
    ModAdd(s.s2, (s.s1 + data[0]) % BASE);
  }

  /** One byte at a time is kept fast: subtractions instead of modulos. */
  method AdlerOne(adler0: U32, sum0: U32, b: Byte) returns (r: U32)
    requires adler0 < 65536 && sum0 < 65536
    ensures Unpack(r).s1 == (adler0 + b) % BASE
    ensures Unpack(r).s2 == sum0 + (adler0 + b) % BASE || Unpack(r).s2 == sum0 + (adler0 + b) % BASE - BASE
    ensures Unpack(r).s2 < BASE <==> sum0 + (adler0 + b) % BASE < 2 * BASE
  {
    hide Checksum, Plain, Reduced, Unpack, Mod28, LeftUnreduced;
    var adler, sum2 := adler0, sum0;
    adler := adler + b;
    ReducedMods(Sums(adler, 0));
    if adler >= BASE { adler := adler - BASE; }
    sum2 := sum2 + adler;
    if sum2 >= BASE { sum2 := sum2 - BASE; }
    UnpackHalves(adler, sum2);
    r := adler + 65536 * sum2;
  }

  lemma ReducedMods(s: Sums)
    ensures Reduced(s).s1 == s.s1 % BASE < BASE && Reduced(s).s2 == s.s2 % BASE < BASE
    ensures s.s1 < BASE ==> s.s1 % BASE == s.s1
    ensures BASE <= s.s1 < 2 * BASE ==> s.s1 % BASE == s.s1 - BASE
    ensures s.s2 < BASE ==> s.s2 % BASE == s.s2
  {
  }

  lemma UnpackHalves(a: nat, b: nat)
    requires a < 65536 && b < 65536
    ensures Unpack(a + 65536 * b) == Sums(a, b)
  {
  }

  lemma ShortBound(s: Sums, data: seq<Byte>)
    requires s.s1 < 65536 && s.s2 < 65536 && |data| < 16
    ensures Plain(s, data).s1 < 2 * BASE
    ensures Plain(s, data).s2 < 0x1000_0000
  {
    PlainBound(s, data);
    var n := |data|;
    assert n * s.s1 <= 15 * 65535 by { MulMono(n, 15, s.s1, 65535); }
    assert n * (n + 1) <= 15 * 16 by { MulMono(n, 15, n + 1, 16); }
    assert 2 * n * s.s1 == 2 * (n * s.s1);
    assert 255 * n * (n + 1) == 255 * (n * (n + 1));
  }

  /** Fewer than 16 bytes: adler grows by less than BASE, sum2 stays in the range of MOD28. */
  method AdlerShort(adler0: U32, sum0: U32, buf: array<Byte>, len: nat, noDivide: bool) returns (r: U32)
    requires len < 16 && len <= buf.Length && adler0 < 65536 && sum0 < 65536
    ensures Unpack(r) == Checksum(Reduced(Sums(adler0, sum0)), buf[..len])
  {
    ghost var first, all := Sums(adler0, sum0), buf[..len];
    assert Plain(first, []) == first;
    hide Checksum, Plain, Reduced, Unpack, Mod28, LeftUnreduced;
    assert buf[0..0] == [] && buf[0..len] == all;
    var adler, sum2 := SumBytes(buf, 0, 0, len, adler0, sum0, first);
    ShortBound(first, all);
    PlainCongruent(first, all);
    ReducedMods(Sums(adler, sum2));
    if adler >= BASE { adler := adler - BASE; }
    Mod28Correct(sum2);
    sum2 := if noDivide then Mod28(sum2) else sum2 % BASE;
    UnpackHalves(adler, sum2);
    r := adler + 65536 * sum2;
  }

  /** The two final modulos turn the plain sums of a block into the definition's sums. */
  lemma BlockDone(start: Sums, done: seq<Byte>, before: Sums, block: seq<Byte>, after: Sums)
    requires start.s1 < BASE && start.s2 < BASE
    requires Reduced(before) == Checksum(start, done)
    requires after == Plain(before, block)
    ensures Reduced(after) == Checksum(start, done + block)
    ensures Reduced(Reduced(after)) == Reduced(after)
  {
    hide Checksum, Plain;
    PlainCongruent(before, block);
    ChecksumAppend(start, done, block);
  }

  /** At most NMAX bytes, sixteen at a time and then one at a time, and a modulo on each sum. */
  method SumAndReduce(buf: array<Byte>, pos: nat, n: nat, adler0: U32, sum0: U32, noDivide: bool, ghost start: Sums)
    returns (adler: U32, sum2: U32)
    requires n <= NMAX && pos + n <= buf.Length
    requires adler0 < 65536 && sum0 < 65536 && start.s1 < BASE && start.s2 < BASE
    requires Reduced(Sums(adler0, sum0)) == Checksum(start, buf[..pos])
    ensures adler < BASE && sum2 < BASE
    ensures Sums(adler, sum2) == Checksum(start, buf[..pos + n])
  {
    hide Checksum, Plain, Reduced, Unpack, Mod28, LeftUnreduced;
    adler, sum2 := SumBlock(buf, pos, n / 16, adler0, sum0);
    adler, sum2 := SumBytes(buf, pos, pos + 16 * (n / 16), n % 16, adler, sum2, Sums(adler0, sum0));
    assert pos + 16 * (n / 16) + n % 16 == pos + n;
    BlockDone(start, buf[..pos], Sums(adler0, sum0), buf[pos..pos + n], Sums(adler, sum2));
    assert buf[..pos] + buf[pos..pos + n] == buf[..pos + n];
    ReducedMods(Sums(adler, sum2));
    adler := Mod(noDivide, adler);
    sum2 := Mod(noDivide, sum2);
  }

  /** Sixteen bytes or more: one modulo for every NMAX bytes. */
  method AdlerLong(adler0: U32, sum0: U32, buf: array<Byte>, len0: nat, noDivide: bool) returns (r: U32)
    requires 16 <= len0 <= buf.Length && adler0 < 65536 && sum0 < 65536
    ensures Unpack(r) == Checksum(Reduced(Sums(adler0, sum0)), buf[..len0])
  {
    var adler: U32, sum2: U32, len: nat, pos: nat := adler0, sum0, len0, 0;
    ghost var start := Reduced(Sums(adler, sum2));
    assert buf[..0] == [] && Checksum(start, []) == start;
    ReducedMods(Sums(adler, sum2));
    hide Checksum, Plain, Reduced, Unpack, Mod28, LeftUnreduced;
    while len >= NMAX
      invariant len + pos == len0
      invariant adler < 65536 && sum2 < 65536
      invariant Reduced(Sums(adler, sum2)) == Checksum(start, buf[..pos])
      invariant pos > 0 ==> adler < BASE && sum2 < BASE
    {
      len := len - NMAX;
      adler, sum2 := SumAndReduce(buf, pos, NMAX, adler, sum2, noDivide, start);
      ReducedMods(Sums(adler, sum2));
      pos := pos + NMAX;
    }
    if len > 0 {
      adler, sum2 := SumAndReduce(buf, pos, len, adler, sum2, noDivide, start);
    } else {
      ReducedMods(Sums(adler, sum2));
    }
    UnpackHalves(adler, sum2);
    r := adler + 65536 * sum2;
  }

  lemma UnpackPack(r: U32, s: Sums)
    requires s.s1 < 65536 && s.s2 < 65536
    ensures Unpack(r) == s <==> r == Pack(s)
  {
  }

  /** What the one-byte shortcut returns is the definition's sums, but possibly one BASE too large. */
  lemma OneByteMeets(adler: U32, b: Byte, r: Sums)
    requires var t := (Unpack(adler).s1 + b) % BASE;
             && r.s1 == t
             && (r.s2 == Unpack(adler).s2 + t || r.s2 == Unpack(adler).s2 + t - BASE)
             && (r.s2 < BASE <==> Unpack(adler).s2 + t < 2 * BASE)
    ensures Reduced(r) == Checksum(Reduced(Unpack(adler)), [b])
    ensures r == Checksum(Reduced(Unpack(adler)), [b]) <==> !LeftUnreduced(adler, [b])
  {
    hide Checksum;
    OneByte(Unpack(adler), [b]);
    var t := Unpack(adler).s2 + (Unpack(adler).s1 + b) % BASE;
    ModCongruent(t, t - BASE, 1);
  }

  method Adler32Z(adler: U32, buf: array?<Byte>, len: nat, noDivide: bool) returns (r: U32)
    requires buf == null ==> len != 1
    requires buf != null ==> len <= buf.Length
    ensures buf == null ==> r == 1
    ensures buf != null ==>
              var expected := Checksum(Reduced(Unpack(adler)), buf[..len]);
              && expected.s1 < BASE && expected.s2 < BASE
              && Reduced(Unpack(r)) == expected
              && (r == Pack(expected) <==> !LeftUnreduced(adler, buf[..len]))
  {
    ghost var start := Unpack(adler);
    var lo, hi := adler % 65536, adler / 65536;
    assert start == Sums(lo, hi);
    ReducedMods(start);
    assert buf != null && len != 1 ==> !LeftUnreduced(adler, buf[..len]);
    hide Checksum, Plain, Reduced, Unpack, Mod28, LeftUnreduced;
    if len == 1 {
      assert buf[..1] == [buf[0]];
      r := AdlerOne(lo, hi, buf[0]);
      OneByteMeets(adler, buf[0], Unpack(r));
    } else if buf == null {
      return 1;
    } else if len < 16 {
      r := AdlerShort(lo, hi, buf, len, noDivide);
    } else {
      r := AdlerLong(lo, hi, buf, len, noDivide);
    }
    ChecksumReduced(Reduced(start), buf[..len]);
    ReducedMods(Checksum(Reduced(start), buf[..len]));
    UnpackPack(r, Checksum(Reduced(start), buf[..len]));
  }

  // ---------- adler32_combine_ ----------

  /** A start value adds itself to the first sum and |data| times itself to the second. */
  lemma {:induction false} PlainShift(s: Sums, data: seq<Byte>)
    ensures Plain(s, data).s1 == s.s1 + Plain(Sums(0, 0), data).s1
    ensures Plain(s, data).s2 == s.s2 + |data| * s.s1 + Plain(Sums(0, 0), data).s2
  {
    if data != [] {
      PlainShift(s, data[..|data| - 1]);
      assert |data| * s.s1 == (|data| - 1) * s.s1 + s.s1;
    }
  }

  /** `lo | (hi << 16)` on 32 bits, for a low half that may have one bit too many. */
  function Join(lo: nat, hi: nat): U32
    requires lo < 131072
  {
    var high := hi % 65536;
    lo % 65536 + 65536 * (if lo < 65536 || high % 2 == 1 then high else high + 1)
  }

  lemma JoinSmall(lo: nat, hi: nat)
    requires lo < 65536 && hi < 65536
    ensures Join(lo, hi) == lo + 65536 * hi
  {
  }

  /** The subtractions that stand for a modulo at the end of the combine function. */
  method ReduceAndJoin(t1: U32, t2: U32) returns (r: U32)
    requires t1 < 3 * 65536
    ensures t1 < 3 * BASE && t2 < 4 * BASE ==> r == t1 % BASE + 65536 * (t2 % BASE)
  {
    hide Join;
    var sum1, sum2 := t1, t2;
    if sum1 >= BASE { sum1 := sum1 - BASE; }
    if sum1 >= BASE { sum1 := sum1 - BASE; }
    if sum2 >= 2 * BASE { sum2 := sum2 - 2 * BASE; }
    if sum2 >= BASE { sum2 := sum2 - BASE; }
    r := Join(sum1, sum2);
    if t1 < 3 * BASE && t2 < 4 * BASE {
      JoinSmall(sum1, sum2);
    }
  }

  method Adler32Combine(adler1: U32, adler2: U32, len2: int, noDivide: bool) returns (r: U32)
    requires len2 < 0x8000_0000_0000_0000
    ensures len2 < 0 ==> r == 0xffff_ffff
    ensures forall a: seq<Byte>, b: seq<Byte> ::
              |b| == len2 && adler1 == Adler(a) && adler2 == Adler(b) ==> r == Adler(a + b)
  {
    hide Checksum, Plain, Mod63, Pack, Unpack;
    if len2 < 0 { return 0xffff_ffff; }
    Mod63Correct(len2);
    var rem := if noDivide then Mod63(len2) else len2 % BASE;
    var sum1: U32 := adler1 % 65536;
    MulMono(rem, 65520, sum1, 65535);
    var sum2: U32 := rem * sum1;
    sum2 := Mod(noDivide, sum2);
    sum1 := sum1 + adler2 % 65536 + BASE - 1;
    sum2 := sum2 + adler1 / 65536 + adler2 / 65536 + BASE - rem;
    r := ReduceAndJoin(sum1, sum2);
    forall a: seq<Byte>, b: seq<Byte> | |b| == len2 && adler1 == Adler(a) && adler2 == Adler(b)
      ensures r == Adler(a + b)
    {
      CombineMeets(adler1, adler2, a, b, sum1, sum2, r);
    }
  }

  /** What the straight-line code computes is the checksum of the concatenation. */
  lemma CombineMeets(adler1: U32, adler2: U32, a: seq<Byte>, b: seq<Byte>, t1: U32, t2: U32, r: U32)
    requires adler1 == Adler(a) && adler2 == Adler(b)
    requires t1 == adler1 % 65536 + adler2 % 65536 + BASE - 1
    requires t2 == ((|b| % BASE) * (adler1 % 65536)) % BASE + adler1 / 65536 + adler2 / 65536 + BASE - |b| % BASE
    requires t1 < 3 * BASE && t2 < 4 * BASE ==> r == t1 % BASE + 65536 * (t2 % BASE)
    ensures r == Adler(a + b)
  {
    hide Checksum, Plain, Pack, Unpack;
    CombineSums(a, b);
    var x, y, z := Checksum(Sums(1, 0), a), Checksum(Sums(1, 0), b), Checksum(Sums(1, 0), a + b);
    PackedParts(adler1, x);
    PackedParts(adler2, y);
    PackedParts(Pack(z), z);
    PackValue(z);
  }

  lemma PackedParts(adler: U32, s: Sums)
    requires s.s1 < BASE && s.s2 < BASE && adler == Pack(s)
    ensures adler % 65536 == s.s1 && adler / 65536 == s.s2
  {
  }

  lemma PackValue(s: Sums)
    requires s.s1 < BASE && s.s2 < BASE
    ensures Pack(s) == s.s1 + 65536 * s.s2
  {
  }

  /** The sums of a + b from the sums of a and of b alone. */
  lemma CombineSums(a: seq<Byte>, b: seq<Byte>)
    ensures
      var x, y, z := Checksum(Sums(1, 0), a), Checksum(Sums(1, 0), b), Checksum(Sums(1, 0), a + b);
      && x.s1 < BASE && x.s2 < BASE && y.s1 < BASE && y.s2 < BASE
      && z.s1 == (x.s1 + y.s1 + BASE - 1) % BASE
      && z.s2 == (((|b| % BASE) * x.s1) % BASE + x.s2 + y.s2 + BASE - |b| % BASE) % BASE
  {
    hide Checksum, Plain, Reduced, Unpack, Mod28, LeftUnreduced;
    var one, n := Sums(1, 0), |b|;
    var x, y := Checksum(one, a), Checksum(one, b);
    ChecksumReduced(one, a);
    ChecksumReduced(one, b);
    ChecksumAppend(one, a, b);
    PlainCongruent(x, b);
    PlainCongruent(one, b);
    PlainShift(x, b);
    PlainShift(one, b);
    ReducedMods(x);
    ReducedMods(one);
    ReducedMods(Plain(x, b));
    ReducedMods(Plain(one, b));
    CombineArithmetic(n, x, y, Plain(Sums(0, 0), b));
  }

  lemma CombineArithmetic(n: nat, x: Sums, y: Sums, p: Sums)
    requires y.s1 == (1 + p.s1) % BASE && y.s2 == (n + p.s2) % BASE
    ensures (x.s1 + p.s1) % BASE == (x.s1 + y.s1 + BASE - 1) % BASE
    ensures (x.s2 + n * x.s1 + p.s2) % BASE
         == (((n % BASE) * x.s1) % BASE + x.s2 + y.s2 + BASE - n % BASE) % BASE
  {
    var k1, k2 := (1 + p.s1) / BASE, (n + p.s2) / BASE;
    ModCongruent(x.s1 + p.s1, x.s1 + y.s1 + BASE - 1, k1 - 1);
    var r := (n % BASE) * x.s1;
    assert n * x.s1 == r + BASE * ((n / BASE) * x.s1) by { assert n == BASE * (n / BASE) + n % BASE; }
    var k3, k4 := (n / BASE) * x.s1, r / BASE;
    ModCongruent(x.s2 + n * x.s1 + p.s2, r % BASE + x.s2 + y.s2 + BASE - n % BASE,
                 k3 + k4 + k2 - n / BASE - 1);
  }
}
