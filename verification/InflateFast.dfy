/**
 inflate_fast: table lookups on a 32-bit bit buffer that is refilled without checks, and match
 copies out of the window and the output. It is proved to take exactly the steps of the
 bit-at-a-time decoder of InflateSpec.
 */
module InflateFast {
  import opened Widths
  import opened Bits
  import opened InflateSpec
  import opened InflateWindow

  /** The part of z_stream that inflate_fast uses. */
  class ZStream {
    var input: array<Byte>
    var nextIn: nat
    var availIn: nat
    var output: array<Byte>
    var nextOut: nat
    var availOut: nat

    constructor (input: array<Byte>, output: array<Byte>)
      ensures this.input == input && nextIn == 0 && availIn == input.Length
      ensures this.output == output && nextOut == 0 && availOut == output.Length
    {
      this.input, nextIn, availIn := input, 0, input.Length;
      this.output, nextOut, availOut := output, 0, output.Length;
    }
  }

  /** The part of struct inflate_state that inflate_fast uses. */
  class InflateState {
    var mode: Mode
    var hold: U32
    var bits: nat
    var window: array<Byte>
    var wsize: nat
    var whave: nat
    var wnext: nat
    var tables: Tables

    constructor (tables: Tables, window: array<Byte>)
      ensures mode == LEN && hold == 0 && bits == 0 && this.tables == tables
      ensures this.window == window && wsize == 0 && whave == 0 && wnext == 0
    {
      mode, hold, bits, this.tables := LEN, 0, 0, tables;
      this.window, wsize, whave, wnext := window, 0, 0, 0;
    }
  }

  // ---------- the bit buffer ----------

  /** The locals in, hold and bits. */
  datatype BitBuf = BitBuf(next: nat, hold: U32, bits: nat)

  /** The stream of all unread bits, and where input byte i sits in it: at 8 i + off. */
  datatype Source = Source(s: seq<bool>, off: int, lo: nat, hi: nat)

  ghost predicate Fed(g: Source, inp: seq<Byte>) {
    && g.lo <= g.hi <= |inp|
    && |g.s| == 8 * g.hi + g.off
    && forall i :: g.lo <= i < g.hi ==> 0 <= 8 * i + g.off && g.s[8 * i + g.off..8 * i + g.off + 8] == OfNat(inp[i], 8)
  }

  /** The buffer holds the next `bits` bits of the stream. */
  ghost predicate InSync(g: Source, pos: nat, b: BitBuf) {
    && g.lo <= b.next <= g.hi
    && pos + b.bits == 8 * b.next + g.off
    && pos + b.bits <= |g.s|
    && b.hold == Val(g.s[pos..pos + b.bits])
  }

  /** One more input byte on top of the held bits. */
  method Pull(inp: array<Byte>, b: BitBuf, ghost g: Source, ghost pos: nat) returns (r: BitBuf)
    requires Fed(g, inp[..]) && InSync(g, pos, b) && b.next < g.hi && b.bits <= 24
    ensures InSync(g, pos, r) && r.bits == b.bits + 8 && r.next == b.next + 1
  {
    hide OfNat;
    ghost var byte := OfNat(inp[b.next], 8);
    ghost var held, more := g.s[pos..pos + b.bits], g.s[pos..pos + b.bits + 8];
    assert g.s[pos + b.bits..pos + b.bits + 8] == byte by {
      assert inp[..][b.next] == inp[b.next];
      assert 8 * b.next + g.off == pos + b.bits;
    }
    assert more == held + byte;
    PullValue(held, inp[b.next]);
    r := BitBuf(b.next + 1, b.hold + inp[b.next] * Pow2(b.bits), b.bits + 8);
  }

  /** A byte above up to 24 held bits: the value of the longer string, still within 32 bits. */
  lemma PullValue(held: seq<bool>, byte: Byte)
    requires |held| <= 24
    ensures Val(held) + byte * Pow2(|held|) == Val(held + OfNat(byte, 8)) < 0x1_0000_0000
  {
    Pow2Values();
    hide OfNat, Val, Pow2;
    var o := OfNat(byte, 8);
    ValAppend(held, o);
    ValOfNat(byte, 8);
    assert byte * Pow2(|held|) == Pow2(|held|) * Val(o);
    ValBound(held + o);
    Pow2Mono(|held| + 8, 32);
  }

  /** The buffer without its n oldest bits. */
  function Dropped(b: BitBuf, n: nat): BitBuf
    requires n <= b.bits
  {
    DivLess(b.hold, Pow2(n));
    BitBuf(b.next, b.hold / Pow2(n), b.bits - n)
  }

  lemma {:induction false} MulAtLeast(d: nat, q: nat)
    requires d > 0
    ensures d * q >= q
  {
    if d > 1 {
      MulAtLeast(d - 1, q);
      assert d * q == (d - 1) * q + q;
    }
  }

  lemma DivLess(a: nat, d: nat)
    requires d > 0
    ensures 0 <= a / d <= a
  {
    var q := a / d;
    assert a == d * q + a % d;
    MulAtLeast(d, q);
  }

  /** The number in the n stream bits from pos. */
  ghost function ValAt(s: seq<bool>, pos: nat, n: nat): nat
    requires pos + n <= |s|
  {
    Val(s[pos..pos + n])
  }

  /** The number in the n oldest bits. */
  function Peek(b: BitBuf, n: nat): nat {
    b.hold % Pow2(n)
  }

  /** Peeking gives the next n bits; dropping them moves on by n. */
  lemma PeekAndDrop(g: Source, pos: nat, b: BitBuf, n: nat)
    requires InSync(g, pos, b) && n <= b.bits
    ensures Peek(b, n) == ValAt(g.s, pos, n)
    ensures InSync(g, pos + n, Dropped(b, n))
    ensures Dropped(b, n).bits == b.bits - n && Dropped(b, n).next == b.next
  {
    var w := g.s[pos..pos + b.bits];
    ValSplit(w, n);
    assert w[..n] == g.s[pos..pos + n];
    assert w[n..] == g.s[pos + n..pos + b.bits];
  }

  /** The table entry that the oldest bits select; the bits it stands for are used up. */
  method TakeEntry(t: seq<Code>, base: nat, width: nat, b: BitBuf, ghost g: Source, ghost pos: nat)
    returns (here: Code, r: BitBuf)
    requires InSync(g, pos, b) && width <= b.bits
    requires base + ValAt(g.s, pos, width) < |t| && t[base + ValAt(g.s, pos, width)].bits <= b.bits
    ensures here == t[base + ValAt(g.s, pos, width)]
    ensures InSync(g, pos + here.bits, r) && r.bits == b.bits - here.bits && r.next == b.next
  {
    hide Peek, Dropped, ValAt;
    PeekAndDrop(g, pos, b, width);
    here := t[base + Peek(b, width)];
    PeekAndDrop(g, pos, b, here.bits);
    r := Dropped(b, here.bits);
  }

  /** The goto dolen (or dodist) loop: follow links to second-level tables. */
  method FollowLinks(t: seq<Code>, here0: Code, b: BitBuf, ghost last: Code, ghost len: nat, ghost g: Source,
        ghost pos: nat)
    returns (here: Code, r: BitBuf, ghost n: nat)
    requires InSync(g, pos, b) && !IsLink(last)
    requires if !IsLink(here0) then last == here0 && len == 0
             else
               && here0.op <= b.bits && here0.val + ValAt(g.s, pos, here0.op) < |t|
               && last == t[here0.val + ValAt(g.s, pos, here0.op)]
               && len == last.bits <= b.bits
    ensures here == last && n == len
    ensures InSync(g, pos + n, r) && r.bits == b.bits - n && r.next == b.next
  {
    hide ValAt, IsLink, Val;
    here, r, n := here0, b, 0;
    while IsLink(here)
      invariant if IsLink(here) then here == here0 && r == b && n == 0 else here == last && n == len
      invariant InSync(g, pos + n, r) && r.bits == b.bits - n && r.next == b.next
      decreases IsLink(here)
    {
      here, r := TakeEntry(t, here.val, here.op, r, g, pos);
      n := here.bits;
    }
  }

  lemma HeldBits(g: Source, pos: nat, b: BitBuf)
    requires InSync(g, pos, b)
    ensures pos + b.bits <= |g.s|
  {
  }

  /** The root table first, then its links. */
  method FindCode(distance: bool, t: seq<Code>, root: nat, b: BitBuf, ghost g: Source, ghost pos: nat)
    returns (here: Code, r: BitBuf, ghost n: nat)
    requires WellFormed(distance, t, root) && InSync(g, pos, b) && b.bits >= 15
    ensures NextSymbol(distance, t, root, g.s[pos..], 1) == Some((here, n))
    ensures 1 <= n <= 15 && Terminal(distance, here)
    ensures InSync(g, pos + n, r) && r.bits == b.bits - n && r.next == b.next
  {
    hide NextSymbol, Terminal, WellFormed, ValAt, IsLink, Pow2, Val, InSync;
    HeldBits(g, pos, b);
    ghost var last, len := LookupSteps(distance, t, root, g.s, pos);
    here, r := TakeEntry(t, 0, root, b, g, pos);
    ghost var m, first := 0, here.bits;
    here, r, m := FollowLinks(t, here, r, last, len - first, g, pos + first);
    n := first + m;
  }

  /** What well-formedness gives each turn of the lookup loop, and what the loop ends on. */
  lemma LookupSteps(distance: bool, t: seq<Code>, root: nat, all: seq<bool>, pos: nat) returns (last: Code, len: nat)
    requires WellFormed(distance, t, root) && pos + 15 <= |all|
    ensures NextSymbol(distance, t, root, all[pos..], 1) == Some((last, len))
    ensures 1 <= len <= 15 && Terminal(distance, last) && !IsLink(last)
    ensures 1 <= root <= 15 && ValAt(all, pos, root) < |t|
    ensures var e := t[ValAt(all, pos, root)];
            if !IsLink(e) then last == e && len == e.bits
            else
              && e.bits == root && root + e.op <= 15
              && e.val + ValAt(all, pos + root, e.op) < |t|
              && last == t[e.val + ValAt(all, pos + root, e.op)]
              && len == root + last.bits && last.bits <= e.op
  {
    var s := all[pos..];
    LookupIsNextSymbol(distance, t, root, s);
    var r := Lookup(t, root, s, distance);
    last, len := r.0, r.1;
    hide NextSymbol, RootEntry, Val, Pow2, Terminal;
    ValBound(s[..root]);
    assert s[..root] == all[pos..pos + root];
    var e := t[Val(s[..root])];
    EntryFacts(distance, t, root, Val(s[..root]));
    if IsLink(e) {
      assert s[root..root + e.op] == all[pos + root..pos + root + e.op];
      ValBound(s[root..root + e.op]);
      LinkedFacts(distance, t, root, Val(s[..root]), Val(s[root..root + e.op]));
    }
  }

  lemma EntryFacts(distance: bool, t: seq<Code>, root: nat, i: nat)
    requires WellFormed(distance, t, root) && i < Pow2(root)
    ensures 1 <= root <= 15 && i < |t|
    ensures IsLink(t[i]) ==> t[i].bits == root && root + t[i].op <= 15 && t[i].val + Pow2(t[i].op) <= |t|
    ensures !IsLink(t[i]) ==> Terminal(distance, t[i]) && 1 <= t[i].bits <= root
  {
    assert RootEntry(distance, t, root, i);
  }

  lemma LinkedFacts(distance: bool, t: seq<Code>, root: nat, i: nat, j: nat)
    requires WellFormed(distance, t, root) && i < Pow2(root) <= |t| && IsLink(t[i]) && j < Pow2(t[i].op)
    ensures t[i].val + j < |t| && Terminal(distance, t[t[i].val + j]) && 1 <= t[t[i].val + j].bits <= t[i].op
    ensures !IsLink(t[t[i].val + j])
  {
    assert RootEntry(distance, t, root, i);
    assert Filled(distance, t, t[i].val, t[i].op, j);
  }

  // ---------- refills ----------

  /** How far the buffer has read: the stream position after the buffered bits. */
  function Frontier(pos: nat, b: BitBuf): nat { pos + b.bits }

  function Max(a: int, b: int): int { if a < b then b else a }

  /** Two more bytes, unchecked, unless there are bits enough for any code word. */
  method NeedFifteen(inp: array<Byte>, b: BitBuf, ghost g: Source, ghost pos: nat) returns (r: BitBuf)
    requires Fed(g, inp[..]) && InSync(g, pos, b) && pos + 28 <= |g.s| && b.bits <= 30
    ensures InSync(g, pos, r) && 15 <= r.bits <= 30
    ensures b.next <= r.next && Frontier(pos, r) <= Max(Frontier(pos, b), pos + 30)
    ensures b.bits >= 15 ==> r == b
  {
    r := b;
    if r.bits < 15 {
      r := Pull(inp, r, g, pos);
      r := Pull(inp, r, g, pos);
    }
  }

  /** The extra bits of a base, at most two refills of one byte. */
  method TakeExtra(inp: array<Byte>, b: BitBuf, n: nat, ghost g: Source, ghost pos: nat) returns (value: nat, r: BitBuf)
    requires Fed(g, inp[..]) && InSync(g, pos, b) && n <= 13 && pos + n <= |g.s| && b.bits <= 30
    ensures pos + n <= |g.s| && value == ValAt(g.s, pos, n) < Pow2(n)
    ensures InSync(g, pos + n, r) && r.bits <= Max(b.bits - n, 7)
    ensures b.next <= r.next && Frontier(pos + n, r) <= Max(Frontier(pos, b), pos + n + 7)
  {
    hide Val, OfNat;
    r := b;
    if r.bits < n {
      r := Pull(inp, r, g, pos);
      if r.bits < n {
        r := Pull(inp, r, g, pos);
      }
    }
    PeekAndDrop(g, pos, r, n);
    ValBound(g.s[pos..pos + n]);
    hide Peek, Dropped;
    value := Peek(r, n);
    r := Dropped(r, n);
  }

  // ---------- one symbol ----------

  /** The window of the state, fixed for one call. */
  datatype Window = Window(buf: array<Byte>, wsize: nat, whave: nat, wnext: nat) {
    predicate Ok() { WindowOk(buf.Length, wsize, whave, wnext) }

    function Bytes(): seq<Byte>
      requires Ok()
      reads buf
    {
      Unwrapped(buf[..], wsize, whave, wnext)
    }
  }

  /** From the distance code on: look it up, add its extra bits, check the reach, copy. */
  method DecodeDistance(t: Tables, inp: array<Byte>, w: Window, out: array<Byte>, beg: nat, to: nat, len: nat,
                        b0: BitBuf, ghost g: Source, ghost pos0: nat)
    returns (b: BitBuf, to': nat, mode: Mode, ghost pos: nat)
    requires t.Ok() && w.Ok() && w.buf != out && inp != out && beg <= to && 3 <= len <= 258 && to + len <= out.Length
    requires Fed(g, inp[..]) && InSync(g, pos0, b0) && pos0 + 28 <= |g.s| && b0.bits <= 30
    modifies out
    ensures mode != TYPE && to <= to' <= to + 258 && to' <= out.Length
    ensures forall i :: 0 <= i < to || to' <= i < out.Length ==> out[i] == old(out[i])
    ensures DistanceStep(t, g.s, pos0, w.Bytes() + old(out[beg..to]), len)
        == Some(State(pos, w.Bytes() + out[beg..to'], mode))
    ensures InSync(g, pos, b) && b.bits <= 29 && b0.next <= b.next && pos0 < pos
    ensures Frontier(pos, b) <= Max(Frontier(pos0, b0), pos0 + 35)
  {
    hide NextSymbol, WellFormed, Val, CopyBack, Unwrapped, Pow2, Fed, InSync;
    ghost var hist, n := w.Bytes() + out[beg..to], 0;
    var here;
    b := NeedFifteen(inp, b0, g, pos0);
    here, b, n := FindCode(true, t.distcode, t.distbits, b, g, pos0);
    pos, to', mode := pos0 + n, to, LEN;
    if HasBase(here) {
      var extra;
      extra, b := TakeExtra(inp, b, Extra(here), g, pos);
      pos := pos + Extra(here);
      var dist := here.val + extra;
      if dist > w.whave + (to - beg) {
        mode := BAD;
      } else {
        ghost var before := out[..];
        CopyMatch(w.buf, w.wsize, w.whave, w.wnext, out, beg, to, len, dist);
        CopiedIsCopyBack(w.Bytes(), before, out[..], beg, to, len, dist);
        to' := to + len;
      }
    } else {
      mode := BAD;
    }
  }

  /** The body of the do loop: one literal, one match, the end of the block, or an error. */
  method DecodeSymbol(t: Tables, inp: array<Byte>, w: Window, out: array<Byte>, beg: nat, to: nat,
                      b0: BitBuf, ghost g: Source, ghost pos0: nat)
    returns (b: BitBuf, to': nat, mode: Mode, ghost pos: nat)
    requires t.Ok() && w.Ok() && w.buf != out && inp != out && beg <= to && to + 258 <= out.Length
    requires Fed(g, inp[..]) && InSync(g, pos0, b0) && pos0 + 48 <= |g.s| && b0.bits <= 29
    modifies out
    ensures to <= to' <= to + 258
    ensures forall i :: 0 <= i < to || to' <= i < out.Length ==> out[i] == old(out[i])
    ensures Step(t, g.s, State(pos0, w.Bytes() + old(out[beg..to]), LEN))
        == Some(State(pos, w.Bytes() + out[beg..to'], mode))
    ensures InSync(g, pos, b) && b.bits <= 29 && pos0 < pos
    ensures b0.next <= b.next <= b0.next + 6
  {
    hide NextSymbol, WellFormed, Val, CopyBack, Unwrapped, Pow2, DistanceStep, Step, Fed, InSync, WindowOk;
    ghost var hist, n := w.Bytes() + out[beg..to], 0;
    var here;
    b := NeedFifteen(inp, b0, g, pos0);
    here, b, n := FindCode(false, t.lencode, t.lenbits, b, g, pos0);
    StepCases(t, g.s, pos0, hist, here, n);
    pos, to', mode := pos0 + n, to, LEN;
    if IsLiteral(here) {
      out[to] := here.val % 256;
      to' := to + 1;
      assert w.Bytes() + out[beg..to'] == hist + [here.val % 256];
    } else if HasBase(here) {
      var extra;
      extra, b := TakeExtra(inp, b, Extra(here), g, pos);
      pos := pos + Extra(here);
      b, to', mode, pos := DecodeDistance(t, inp, w, out, beg, to, here.val + extra, b, g, pos);
    } else if IsEnd(here) {
      mode := TYPE;
    } else {
      mode := BAD;
    }
    SixBytes(g, pos0, b0, pos, b);
  }

  /** What Step does once the length code word is known. */
  lemma StepCases(t: Tables, s: seq<bool>, pos0: nat, hist: seq<Byte>, e: Code, n: nat)
    requires t.Ok() && pos0 + n <= |s| && NextSymbol(false, t.lencode, t.lenbits, s[pos0..], 1) == Some((e, n))
    ensures IsLiteral(e) ==> Step(t, s, State(pos0, hist, LEN)) == Some(State(pos0 + n, hist + [e.val % 256], LEN))
    ensures !IsLiteral(e) && HasBase(e) && pos0 + n + Extra(e) <= |s| ==>
              Step(t, s, State(pos0, hist, LEN))
              == DistanceStep(t, s, pos0 + n + Extra(e), hist, e.val + ValAt(s, pos0 + n, Extra(e)))
    ensures !IsLiteral(e) && !HasBase(e) ==>
              Step(t, s, State(pos0, hist, LEN)) == Some(State(pos0 + n, hist, if IsEnd(e) then TYPE else BAD))
  {
    hide NextSymbol, DistanceStep, Val;
  }

  /** A code word, its extra bits, and the same for the distance are at most 48 bits: six bytes. */
  lemma SixBytes(g: Source, pos0: nat, b0: BitBuf, pos: nat, b: BitBuf)
    requires InSync(g, pos0, b0) && InSync(g, pos, b)
    requires Frontier(pos, b) <= Max(Frontier(pos0, b0), pos0 + 55)
    ensures b.next <= b0.next + 6
  {
  }

  // ---------- inflate_fast ----------

  /** All unread bits of a call: those held in the state, then those of the input. */
  ghost function Unread(strm: ZStream, state: InflateState): seq<bool>
    requires strm.nextIn + strm.availIn <= strm.input.Length
    reads strm, strm.input, state
  {
    OfNat(state.hold, state.bits) + MessageBits(strm.input[strm.nextIn..strm.nextIn + strm.availIn])
  }

  /** The entry assumptions listed at the top of inffast.c, and what they rest on. */
  ghost predicate EntryOk(strm: ZStream, state: InflateState, start: nat)
    reads strm, state
  {
    && state.mode == LEN && state.bits < 8 && state.hold < Pow2(state.bits)
    && strm.availIn >= 6 && strm.availOut >= 258 && start >= strm.availOut
    && strm.nextIn + strm.availIn <= strm.input.Length
    && strm.nextOut + strm.availOut <= strm.output.Length
    && start - strm.availOut <= strm.nextOut
    && strm.input != strm.output && strm.output != state.window
    && WindowOk(state.window.Length, state.wsize, state.whave, state.wnext)
    && state.tables.Ok()
  }

  lemma UnreadIsFed(inp: seq<Byte>, nextIn: nat, availIn: nat, hold: U32, bits: nat)
    requires nextIn + availIn <= |inp| && hold < Pow2(bits)
    ensures var s := OfNat(hold, bits) + MessageBits(inp[nextIn..nextIn + availIn]);
            var g := Source(s, bits - 8 * nextIn, nextIn, nextIn + availIn);
            Fed(g, inp) && |s| == bits + 8 * availIn && InSync(g, 0, BitBuf(nextIn, hold, bits))
  {
    hide OfNat, MessageBits, Val, Pow2;
    var data := inp[nextIn..nextIn + availIn];
    var s, off := OfNat(hold, bits) + MessageBits(data), bits - 8 * nextIn;
    ValOfNat(hold, bits);
    MessageLength(data);
    assert s[..bits] == OfNat(hold, bits);
    forall i | nextIn <= i < nextIn + availIn
      ensures 0 <= 8 * i + off && s[8 * i + off..8 * i + off + 8] == OfNat(inp[i], 8)
    {
      UnreadByte(OfNat(hold, bits), data, i - nextIn);
      assert 8 * i + off == bits + 8 * (i - nextIn);
    }
  }

  lemma UnreadByte(held: seq<bool>, data: seq<Byte>, j: nat)
    requires j < |data|
    ensures |MessageBits(data)| == 8 * |data|
    ensures (held + MessageBits(data))[|held| + 8 * j..|held| + 8 * j + 8] == OfNat(data[j], 8)
  {
    hide OfNat, MessageBits;
    MessageByte(data, j);
    var m := MessageBits(data);
    assert (held + m)[|held| + 8 * j..|held| + 8 * j + 8] == m[8 * j..8 * j + 8];
  }

  /** The do loop: symbols until the mode changes or either margin is used up. */
  method DecodeLoop(t: Tables, inp: array<Byte>, w: Window, out: array<Byte>, beg: nat, to0: nat,
                    last: nat, end: nat, b0: BitBuf, ghost g: Source)
    returns (b: BitBuf, to: nat, mode: Mode, ghost pos: nat, ghost k: nat)
    requires t.Ok() && w.Ok() && w.buf != out && inp != out && beg <= to0
    requires Fed(g, inp[..]) && InSync(g, 0, b0) && b0.bits <= 29
    requires last + 5 == g.hi && end + 257 <= out.Length && b0.next < last && to0 < end
    modifies out
    ensures k > 0 && 0 < pos && to0 <= to < end + 258
    ensures forall i :: 0 <= i < to0 || to <= i < out.Length ==> out[i] == old(out[i])
    ensures Run(t, g.s, State(0, w.Bytes() + old(out[beg..to0]), LEN), k)
         == Some(State(pos, w.Bytes() + out[beg..to], mode))
    ensures InSync(g, pos, b) && b.bits <= 29
    ensures mode == LEN ==> b.next >= last || to >= end
  {
    hide Step, WellFormed, WindowOk, Unwrapped, Val;
    b, to, mode, pos, k := b0, to0, LEN, 0, 0;
    ghost var st0 := State(0, w.Bytes() + out[beg..to0], LEN);
    while true
      invariant InSync(g, pos, b) && b.bits <= 29
      invariant mode == LEN && b.next < last && to0 <= to < end
      invariant forall i :: 0 <= i < to0 || to <= i < out.Length ==> out[i] == old(out[i])
      invariant Run(t, g.s, st0, k) == Some(State(pos, w.Bytes() + out[beg..to], mode))
      decreases |g.s| - pos
    {
      b, to, mode, pos := DecodeSymbol(t, inp, w, out, beg, to, b, g, pos);
      k := k + 1;
      if mode != LEN || !(b.next < last && to < end) { break; }
    }
  }

  /** The buffer after whole unused bytes went back to the input. */
  function GivenBack(b: BitBuf): BitBuf
    requires b.next >= b.bits / 8
  {
    ModLess(b.hold, Pow2(b.bits % 8));
    BitBuf(b.next - b.bits / 8, Peek(b, b.bits % 8), b.bits % 8)
  }

  lemma ModLess(a: nat, d: nat)
    requires d > 0
    ensures 0 <= a % d <= a
  {
  }

  /** Giving back never reaches before the bytes of this call, since fewer than 8 bits were held at entry. */
  lemma GiveBack(g: Source, pos: nat, b: BitBuf)
    requires InSync(g, pos, b) && 0 < pos && 8 * g.lo + g.off < 8
    ensures b.next >= b.bits / 8 && InSync(g, pos, GivenBack(b))
    ensures GivenBack(b).hold < Pow2(GivenBack(b).bits) && GivenBack(b).bits < 8
    ensures g.lo <= GivenBack(b).next == b.next - b.bits / 8 <= g.hi
  {
    hide Val, Pow2;
    var r := b.bits % 8;
    assert b.bits == 8 * (b.bits / 8) + r;
    assert g.lo <= b.next - b.bits / 8;
    PeekAndDrop(g, pos, b, r);
    ValBound(g.s[pos..pos + r]);
    ModLess(b.hold, Pow2(r));
  }

  /**
   * k steps of the bit-at-a-time decoder lead from history `before` to history `after` and the
   * mode, consuming `pos` bits of the stream; the state holds the next `bits` < 8 of the rest.
   */
  ghost predicate Decodes(t: Tables, s: seq<bool>, k: nat, before: seq<Byte>, after: seq<Byte>, pos: int, mode: Mode,
        hold: nat, bits: nat)
    requires t.Ok()
  {
    && 0 < pos <= |s|
    && Run(t, s, State(0, before, LEN), k) == Some(State(pos, after, mode))
    && bits < 8 && pos + bits <= |s|
    && hold == Val(s[pos..pos + bits]) < Pow2(bits)
  }

  lemma DecodesTo(t: Tables, g: Source, k: nat, before: seq<Byte>, after: seq<Byte>, pos: nat, mode: Mode, r: BitBuf,
        in0: nat, bits0: nat)
    requires t.Ok() && Run(t, g.s, State(0, before, LEN), k) == Some(State(pos, after, mode))
    requires InSync(g, pos, r) && 0 < pos && r.bits < 8 && r.hold < Pow2(r.bits) && g.off == bits0 - 8 * in0
    ensures Decodes(t, g.s, k, before, after, 8 * (r.next - in0) + bits0 - r.bits, mode, r.hold, r.bits)
  {
    hide Run, Val, Pow2, WellFormed;
  }

  method InflateFast(strm: ZStream, state: InflateState, start: nat) returns (ghost k: nat)
    requires EntryOk(strm, state, start)
    modifies strm, state, strm.output
    ensures strm.input == old(strm.input) && strm.output == old(strm.output)
    ensures strm.nextIn + strm.availIn == old(strm.nextIn + strm.availIn)
    ensures strm.nextOut + strm.availOut == old(strm.nextOut + strm.availOut)
    ensures state.window == old(state.window) && state.wsize == old(state.wsize)
    ensures state.whave == old(state.whave) && state.wnext == old(state.wnext) && state.tables == old(state.tables)
    ensures forall i :: 0 <= i < old(strm.nextOut) || strm.nextOut <= i < strm.output.Length ==>
        strm.output[i] == old(strm.output[i])
    ensures k > 0 && old(strm.nextOut) <= strm.nextOut
    ensures
      var beg := old(strm.nextOut) - (start - old(strm.availOut));
      var u := Unwrapped(state.window[..], state.wsize, state.whave, state.wnext);
      Decodes(state.tables, old(Unread(strm, state)), k,
              u + old(strm.output[beg..strm.nextOut]), u + strm.output[beg..strm.nextOut],
              8 * (strm.nextIn - old(strm.nextIn)) + old(state.bits) - state.bits, state.mode, state.hold, state.bits)
    // it goes on until fewer than 6 input bytes remain to be read ahead or fewer than 258 output bytes
    ensures state.mode == LEN ==> strm.availIn <= 8 || strm.availOut < 258
  {
    hide Run, WellFormed, WindowOk, OfNat, MessageBits, Unwrapped, Val, Pow2, Decodes, InSync, Fed, GivenBack;
    var inp, out := strm.input, strm.output;
    var w := Window(state.window, state.wsize, state.whave, state.wnext);
    var last := strm.nextIn + (strm.availIn - 5);
    var beg := strm.nextOut - (start - strm.availOut);
    var end := strm.nextOut + (strm.availOut - 257);
    var b, to, mode := BitBuf(strm.nextIn, state.hold, state.bits), strm.nextOut, LEN;
    ghost var g := Source(Unread(strm, state), state.bits - 8 * strm.nextIn, strm.nextIn, strm.nextIn + strm.availIn);
    ghost var pos;
    UnreadIsFed(inp[..], strm.nextIn, strm.availIn, state.hold, state.bits);
    b, to, mode, pos, k := DecodeLoop(state.tables, inp, w, out, beg, to, last, end, b, g);
    GiveBack(g, pos, b);
    ghost var u, before := w.Bytes(), old(strm.output[beg..strm.nextOut]);
    DecodesTo(state.tables, g, k, u + before, u + out[beg..to], pos, mode, GivenBack(b), strm.nextIn, state.bits);
    StoreBack(strm, state, GivenBack(b), to, mode, last, end);
  }

  /** The locals go back into the two structures; the margins give the counts. */
  method StoreBack(strm: ZStream, state: InflateState, r: BitBuf, to: nat, mode: Mode, last: nat, end: nat)
    requires r.next <= last + 5 && to <= end + 257
    modifies strm`nextIn, strm`availIn, strm`nextOut, strm`availOut, state`hold, state`bits, state`mode
    ensures strm.nextIn == r.next && strm.availIn == last + 5 - r.next
    ensures strm.nextOut == to && strm.availOut == end + 257 - to
    ensures state.hold == r.hold && state.bits == r.bits && state.mode == mode
  {
    strm.nextIn, strm.nextOut := r.next, to;
    strm.availIn := if r.next < last then 5 + (last - r.next) else 5 - (r.next - last);
    strm.availOut := if to < end then 257 + (end - to) else 257 - (to - end);
    state.hold, state.bits, state.mode := r.hold, r.bits, mode;
  }
}
