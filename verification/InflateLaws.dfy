/**
 What the decoder of InflateSpec does, said in terms of what an encoder put into the stream: decoding
 the code words of literals and matches yields their expansion.
 */
module InflateLaws {
  import opened Widths
  import opened Bits
  import opened InflateSpec
  import InflateFast

  // ---------- the op byte, as inftrees.h lists its values ----------

  lemma OpByte(e: Code)
    ensures IsLiteral(e) <==> e.op == 0
    ensures 0 < e.op < 16 ==> IsLink(e)
    ensures 16 <= e.op < 32 ==> HasBase(e) && Extra(e) == e.op - 16
    ensures e.op == 0x60 ==> IsEnd(e)
    ensures e.op == 0x40 ==> IsInvalid(e)
    ensures (if IsLiteral(e) then 1 else 0) + (if IsLink(e) then 1 else 0) + (if HasBase(e) then 1 else 0)
         + (if IsEnd(e) then 1 else 0) + (if IsInvalid(e) then 1 else 0) == 1
  {
  }

  // ---------- code words are found, whatever follows them ----------

  /** No code word is the start of another: reading on does not change what was found. */
  lemma {:induction false} FoundEarlier(distance: bool, t: seq<Code>, root: nat, s: seq<bool>, more: seq<bool>, n: nat)
    requires WellFormed(distance, t, root)
    requires NextSymbol(distance, t, root, s + more, n).Some?
    requires NextSymbol(distance, t, root, s + more, n).value.1 <= |s|
    ensures NextSymbol(distance, t, root, s, n) == NextSymbol(distance, t, root, s + more, n)
    decreases |s| + |more| - n
  {
    hide CodeWord, WellFormed;
    NextAtLeast(distance, t, root, s + more, n);
    assert (s + more)[..n] == s[..n];
    if CodeWord(distance, t, root, s[..n]).None? {
      FoundEarlier(distance, t, root, s, more, n + 1);
    }
  }

  lemma {:induction false} NextAtLeast(distance: bool, t: seq<Code>, root: nat, s: seq<bool>, n: nat)
    requires WellFormed(distance, t, root) && NextSymbol(distance, t, root, s, n).Some?
    ensures n <= NextSymbol(distance, t, root, s, n).value.1 <= |s|
    decreases |s| - n
  {
    hide CodeWord, WellFormed;
    if CodeWord(distance, t, root, s[..n]).None? {
      NextAtLeast(distance, t, root, s, n + 1);
    }
  }

  /** What is read is an entry that ends a code word. */
  lemma {:induction false} NextTerminal(distance: bool, t: seq<Code>, root: nat, s: seq<bool>, n: nat)
    requires WellFormed(distance, t, root) && NextSymbol(distance, t, root, s, n).Some?
    ensures Terminal(distance, NextSymbol(distance, t, root, s, n).value.0)
    decreases |s| - n
  {
    hide CodeWord, WellFormed, Terminal;
    if CodeWord(distance, t, root, s[..n]).None? {
      NextTerminal(distance, t, root, s, n + 1);
    } else {
      WordTerminal(distance, t, root, s[..n]);
    }
  }

  lemma WordTerminal(distance: bool, t: seq<Code>, root: nat, w: seq<bool>)
    requires WellFormed(distance, t, root) && CodeWord(distance, t, root, w).Some?
    ensures Terminal(distance, CodeWord(distance, t, root, w).value)
  {
    hide Terminal, IsLink;
    if |w| <= root {
      ValBound(w);
      Pow2Mono(|w|, root);
      assert RootEntry(distance, t, root, Val(w));
    } else {
      ValBound(w[..root]);
      ValBound(w[root..]);
      var e := t[Val(w[..root])];
      assert RootEntry(distance, t, root, Val(w[..root]));
      Pow2Mono(|w| - root, e.op);
      assert Filled(distance, t, e.val, e.op, Val(w[root..]));
    }
  }

  /** In a long enough stream the lookup finds the code word the stream starts with. */
  lemma LookupFinds(distance: bool, t: seq<Code>, root: nat, s: seq<bool>, n: nat)
    requires WellFormed(distance, t, root) && 1 <= n <= |s| && |s| >= 15
    requires CodeWord(distance, t, root, s[..n]).Some?
    ensures Lookup(t, root, s, distance) == (CodeWord(distance, t, root, s[..n]).value, n)
  {
    if n <= root {
      RootPrefix(distance, t, root, s, n);
    } else {
      assert s[..n][..root] == s[..root];
      ValBound(s[..root]);
      assert RootEntry(distance, t, root, Val(s[..root]));
      LinkPrefix(distance, t, root, s, n - root);
      assert s[..root + (n - root)] == s[..n];
    }
  }

  /** The decoder reads exactly the code word that was written. */
  lemma WordIsRead(distance: bool, t: seq<Code>, root: nat, w: seq<bool>, rest: seq<bool>)
    requires WellFormed(distance, t, root) && |w| >= 1 && CodeWord(distance, t, root, w).Some?
    ensures NextSymbol(distance, t, root, w + rest, 1) == Some((CodeWord(distance, t, root, w).value, |w|))
  {
    hide CodeWord, NextSymbol, WellFormed, Lookup;
    var s := w + rest + Zero(15);
    assert s[..|w|] == w;
    LookupFinds(distance, t, root, s, |w|);
    LookupIsNextSymbol(distance, t, root, s);
    FoundEarlier(distance, t, root, w + rest, Zero(15), 1);
  }

  // ---------- one step ----------

  /** h is h0 with len more bytes, each of which equals the byte dist places before it. */
  ghost predicate Repeats(h0: seq<Byte>, h: seq<Byte>, len: nat, dist: nat) {
    && |h| == |h0| + len && h[..|h0|] == h0 && dist <= |h0|
    && forall i :: |h0| <= i < |h| ==> h[i] == h[i - dist]
  }

  /** The next code word is a length: then its extra bits, a distance and its extra bits decide everything. */
  lemma MatchStep(t: Tables, s: seq<bool>, st: State, e: Code, n: nat, d: Code, m: nat)
    requires t.Ok() && st.pos + n + Extra(e) + m + Extra(d) <= |s|
    requires NextSymbol(false, t.lencode, t.lenbits, s[st.pos..], 1) == Some((e, n)) && HasBase(e)
    requires NextSymbol(true, t.distcode, t.distbits, s[st.pos + n + Extra(e)..], 1) == Some((d, m)) && HasBase(d)
    ensures var p := st.pos + n;
            var q := p + Extra(e) + m;
            var len, dist := e.val + Val(s[p..p + Extra(e)]), d.val + Val(s[q..q + Extra(d)]);
            Step(t, s, st).Some? && var st' := Step(t, s, st).value;
            && st'.pos == q + Extra(d)
            && (st'.mode == BAD <==> dist > |st.hist|)
            && (dist > |st.hist| ==> st'.hist == st.hist)
            && (dist <= |st.hist| ==> st'.mode == LEN && Repeats(st.hist, st'.hist, len, dist))
  {
    hide NextSymbol, WellFormed, Val, CopyBack;
    NextTerminal(true, t.distcode, t.distbits, s[st.pos + n + Extra(e)..], 1);
    var p := st.pos + n;
    var q := p + Extra(e) + m;
    var len, dist := e.val + Val(s[p..p + Extra(e)]), d.val + Val(s[q..q + Extra(d)]);
    if dist <= |st.hist| {
      CopyBackPoints(st.hist, len, dist);
    }
  }

  /** The next code word is a literal, the end of the block, or an invalid one. */
  lemma SingleStep(t: Tables, s: seq<bool>, st: State, e: Code, n: nat)
    requires t.Ok() && st.pos + n <= |s|
    requires NextSymbol(false, t.lencode, t.lenbits, s[st.pos..], 1) == Some((e, n)) && !HasBase(e)
    ensures Step(t, s, st).Some? && var st' := Step(t, s, st).value;
            && st'.pos == st.pos + n
            && (IsLiteral(e) && e.val < 256 ==> st'.mode == LEN && st'.hist == st.hist + [e.val])
            && (IsEnd(e) ==> st'.mode == TYPE && st'.hist == st.hist)
            && (IsInvalid(e) ==> st'.mode == BAD && st'.hist == st.hist)
  {
    hide NextSymbol, WellFormed;
  }

  /** A length whose distance code word is not a distance. */
  lemma NoDistanceStep(t: Tables, s: seq<bool>, st: State, e: Code, n: nat, d: Code, m: nat)
    requires t.Ok() && st.pos + n + Extra(e) + m <= |s|
    requires NextSymbol(false, t.lencode, t.lenbits, s[st.pos..], 1) == Some((e, n)) && HasBase(e)
    requires NextSymbol(true, t.distcode, t.distbits, s[st.pos + n + Extra(e)..], 1) == Some((d, m)) && !HasBase(d)
    ensures Step(t, s, st) == Some(State(st.pos + n + Extra(e) + m, st.hist, BAD))
  {
    hide NextSymbol, WellFormed, Val, CopyBack;
  }

  // ---------- what an encoder means, and what it writes ----------

  datatype Token = Literal(b: Byte) | Match(len: nat, dist: nat)

  /** A token may refer to bytes that are there. */
  predicate Reaches(h: seq<Byte>, tok: Token) { tok.Match? ==> 1 <= tok.dist <= |h| }

  /** The last dist bytes, over and over, len bytes in all. */
  function Meaning(h: seq<Byte>, tok: Token): seq<Byte>
    requires Reaches(h, tok)
  {
    match tok
    case Literal(b) => [b]
    case Match(len, dist) => seq(len, j requires 0 <= j < len => h[|h| - dist + j % dist])
  }

  predicate AllReach(h: seq<Byte>, toks: seq<Token>)
    decreases |toks|, 0
  {
    toks == [] || (AllReach(h, Front(toks)) && Reaches(Expansion(h, Front(toks)), toks[|toks| - 1]))
  }

  function Front<T>(s: seq<T>): seq<T>
    requires s != []
  {
    s[..|s| - 1]
  }

  /** The history after the tokens. */
  function Expansion(h: seq<Byte>, toks: seq<Token>): seq<Byte>
    requires AllReach(h, toks)
    decreases |toks|, 1
  {
    if toks == [] then h
    else var g := Expansion(h, Front(toks)); g + Meaning(g, toks[|toks| - 1])
  }

  /** A token's code: a code word for a literal; for a match two code words, each with its extra bits. */
  datatype Coded = Single(w: seq<bool>) | Pair(w: seq<bool>, x: seq<bool>, v: seq<bool>, y: seq<bool>)

  function BitsOf(c: Coded): seq<bool> {
    match c
    case Single(w) => w
    case Pair(w, x, v, y) => w + x + v + y
  }

  function AllBits(cs: seq<Coded>): seq<bool> {
    if cs == [] then [] else AllBits(Front(cs)) + BitsOf(cs[|cs| - 1])
  }

  ghost predicate IsWord(distance: bool, t: seq<Code>, root: nat, w: seq<bool>, e: Code)
    requires WellFormed(distance, t, root)
  {
    |w| >= 1 && CodeWord(distance, t, root, w) == Some(e)
  }

  /** c is a code for the token in these tables. */
  ghost predicate Codes(t: Tables, c: Coded, tok: Token)
    requires t.Ok()
  {
    match c
    case Single(w) =>
      exists e :: IsWord(false, t.lencode, t.lenbits, w, e) && e.op == 0 && tok.Literal? && e.val == tok.b
    case Pair(w, x, v, y) =>
      exists e, d ::
        && IsWord(false, t.lencode, t.lenbits, w, e) && 16 <= e.op < 32 && |x| == e.op - 16
        && IsWord(true, t.distcode, t.distbits, v, d) && 16 <= d.op < 32 && |y| == d.op - 16
        && tok == Match(e.val + Val(x), d.val + Val(y))
  }

  /** z is the code for the end of the block. */
  ghost predicate EndCode(t: Tables, z: seq<bool>)
    requires t.Ok()
  {
    exists e :: IsWord(false, t.lencode, t.lenbits, z, e) && e.op == 0x60
  }

  // ---------- decoding is expanding ----------

  /** Repeating the last bytes is what a periodic history looks like. */
  lemma RepeatsIsMeaning(h0: seq<Byte>, h: seq<Byte>, len: nat, dist: nat)
    requires 1 <= dist <= |h0| && Repeats(h0, h, len, dist)
    ensures h == h0 + Meaning(h0, Match(len, dist))
  {
    var r := Meaning(h0, Match(len, dist));
    assert |r| == len && h == h0 + h[|h0|..];
    hide Repeats;
    forall j | 0 <= j < len
      ensures h[|h0| + j] == r[j]
    {
      Periodic(h0, h, len, dist, j);
    }
    hide Meaning;
    assert h[|h0|..] == r;
  }

  lemma {:induction false} Periodic(h0: seq<Byte>, h: seq<Byte>, len: nat, dist: nat, j: nat)
    requires 1 <= dist <= |h0| && Repeats(h0, h, len, dist) && j < len
    ensures h[|h0| + j] == h0[|h0| - dist + j % dist]
  {
    assert h[|h0| + j] == h[|h0| + j - dist];
    if j < dist {
      SmallMod(j, dist);
      assert h[|h0| + j - dist] == h[..|h0|][|h0| + j - dist];
    } else {
      Periodic(h0, h, len, dist, j - dist);
      ModBack(j, dist);
    }
  }

  lemma SmallMod(j: nat, d: nat)
    requires j < d
    ensures j % d == j
  {
    DivUnique(j, d, 0, j);
  }

  lemma ModBack(j: nat, d: nat)
    requires 1 <= d <= j
    ensures (j - d) % d == j % d
  {
    var q, r := (j - d) / d, (j - d) % d;
    assert j - d == d * q + r && d * (q + 1) == d * q + d;
    DivUnique(j, d, q + 1, r);
  }

  lemma LiteralMeaning(h: seq<Byte>, tok: Token)
    requires tok.Literal?
    ensures Meaning(h, tok) == [tok.b]
  {
  }

  /** Reading one token's code. */
  lemma TokenStep(t: Tables, before: seq<bool>, c: Coded, tok: Token, rest: seq<bool>, h: seq<Byte>)
    requires t.Ok() && Codes(t, c, tok)
    ensures var s := before + BitsOf(c) + rest;
            var r := Step(t, s, State(|before|, h, LEN));
            if Reaches(h, tok) then r == Some(State(|before| + |BitsOf(c)|, h + Meaning(h, tok), LEN))
            else r == Some(State(|before| + |BitsOf(c)|, h, BAD))
  {
    hide NextSymbol, CodeWord, WellFormed, Val, Step, Meaning;
    var s := before + BitsOf(c) + rest;
    match c
    case Single(w) =>
      var e :| IsWord(false, t.lencode, t.lenbits, w, e) && e.op == 0 && tok.Literal? && e.val == tok.b;
      assert s[|before|..] == w + rest;
      WordIsRead(false, t.lencode, t.lenbits, w, rest);
      SingleStep(t, s, State(|before|, h, LEN), e, |w|);
      LiteralMeaning(h, tok);
    case Pair(w, x, v, y) =>
      var e, d :|
        && IsWord(false, t.lencode, t.lenbits, w, e) && 16 <= e.op < 32 && |x| == e.op - 16
        && IsWord(true, t.distcode, t.distbits, v, d) && 16 <= d.op < 32 && |y| == d.op - 16
        && tok == Match(e.val + Val(x), d.val + Val(y));
      PairStep(t, before, w, x, v, y, rest, h, e, d);
  }

  lemma PairStep(t: Tables, before: seq<bool>, w: seq<bool>, x: seq<bool>, v: seq<bool>, y: seq<bool>, rest: seq<bool>,
        h: seq<Byte>, e: Code, d: Code)
    requires t.Ok() && IsWord(false, t.lencode, t.lenbits, w, e) && IsWord(true, t.distcode, t.distbits, v, d)
    requires 16 <= e.op < 32 && |x| == e.op - 16 && 16 <= d.op < 32 && |y| == d.op - 16
    ensures var s := before + (w + x + v + y) + rest;
            var r, tok, end := Step(t, s, State(|before|, h, LEN)), Match(e.val + Val(x), d.val + Val(y)),
              |before + (w + x + v + y)|;
            if Reaches(h, tok) then r == Some(State(end, h + Meaning(h, tok), LEN)) else r == Some(State(end, h, BAD))
  {
    hide NextSymbol, CodeWord, WellFormed, Val, Step, Meaning, Repeats;
    var s := before + (w + x + v + y) + rest;
    var st, p := State(|before|, h, LEN), |before| + |w|;
    var q := p + |x| + |v|;
    OpByte(e);
    OpByte(d);
    assert s[|before|..] == w + (x + v + y + rest);
    WordIsRead(false, t.lencode, t.lenbits, w, x + v + y + rest);
    assert s[p + |x|..] == v + (y + rest);
    WordIsRead(true, t.distcode, t.distbits, v, y + rest);
    MatchStep(t, s, st, e, |w|, d, |v|);
    ExtraBits(before, w, x, v, y, rest);
    WordTerminal(true, t.distcode, t.distbits, v);
    var len, dist := e.val + Val(x), d.val + Val(y);
    if dist <= |h| {
      RepeatsIsMeaning(h, Step(t, s, st).value.hist, len, dist);
    }
  }

  /** Where the extra bits are. */
  lemma ExtraBits(before: seq<bool>, w: seq<bool>, x: seq<bool>, v: seq<bool>, y: seq<bool>, rest: seq<bool>)
    ensures var s, p := before + (w + x + v + y) + rest, |before| + |w|;
            var q := p + |x| + |v|;
            q + |y| <= |s| && s[p..p + |x|] == x && s[q..q + |y|] == y
  {
  }

  lemma {:induction false} AllReachUpTo(h: seq<Byte>, toks: seq<Token>, k: nat)
    requires AllReach(h, toks) && k <= |toks|
    ensures AllReach(h, toks[..k])
  {
    if k < |toks| {
      AllReachUpTo(h, Front(toks), k);
      assert Front(toks)[..k] == toks[..k];
    } else {
      assert toks[..k] == toks;
    }
  }

  ghost predicate AllCode(t: Tables, cs: seq<Coded>, toks: seq<Token>)
    requires t.Ok()
  {
    |cs| == |toks| && forall i :: 0 <= i < |cs| ==> Codes(t, cs[i], toks[i])
  }

  lemma AllBitsNext(cs: seq<Coded>, k: nat)
    requires k < |cs|
    ensures AllBits(cs[..k + 1]) == AllBits(cs[..k]) + BitsOf(cs[k])
  {
    assert Front(cs[..k + 1]) == cs[..k];
  }

  lemma {:induction false} AllBitsSplit(cs: seq<Coded>, k: nat) returns (rest: seq<bool>)
    requires k < |cs|
    ensures AllBits(cs) == AllBits(cs[..k]) + BitsOf(cs[k]) + rest
    decreases |cs|
  {
    hide AllBits, BitsOf;
    var n := |cs| - 1;
    AllBitsNext(cs, n);
    assert cs[..n + 1] == cs;
    if k == n {
      rest := [];
    } else {
      var front := cs[..n];
      var more := AllBitsSplit(front, k);
      assert front[..k] == cs[..k] && front[k] == cs[k];
      rest := more + BitsOf(cs[n]);
      Regroup(AllBits(cs[..k]), BitsOf(cs[k]), more, BitsOf(cs[n]));
    }
  }

  lemma Regroup(a: seq<bool>, b: seq<bool>, c: seq<bool>, d: seq<bool>)
    ensures a + b + c + d == a + b + (c + d)
  {
  }

  /** After k steps the decoder has read k codes and its history is the expansion of k tokens. */
  lemma {:induction false} RunTokens(t: Tables, cs: seq<Coded>, toks: seq<Token>, tail: seq<bool>, h: seq<Byte>, k: nat)
    requires t.Ok() && AllCode(t, cs, toks) && k <= |cs| && AllReach(h, toks[..k])
    ensures Run(t, AllBits(cs) + tail, State(0, h, LEN), k)
         == Some(State(|AllBits(cs[..k])|, Expansion(h, toks[..k]), LEN))
  {
    hide Step, Codes, WellFormed, Meaning;
    var s := AllBits(cs) + tail;
    if k > 0 {
      assert Front(toks[..k]) == toks[..k - 1];
      RunTokens(t, cs, toks, tail, h, k - 1);
      var g := Expansion(h, toks[..k - 1]);
      NextToken(t, cs, toks, tail, g, k - 1);
    }
  }

  lemma NextToken(t: Tables, cs: seq<Coded>, toks: seq<Token>, tail: seq<bool>, g: seq<Byte>, k: nat)
    requires t.Ok() && AllCode(t, cs, toks) && k < |cs|
    ensures |AllBits(cs[..k])| <= |AllBits(cs[..k + 1])| <= |AllBits(cs) + tail|
    ensures var r, end := Step(t, AllBits(cs) + tail, State(|AllBits(cs[..k])|, g, LEN)), |AllBits(cs[..k + 1])|;
            if Reaches(g, toks[k]) then r == Some(State(end, g + Meaning(g, toks[k]), LEN))
              else r == Some(State(end, g, BAD))
  {
    hide Step, Codes, WellFormed, Meaning, AllBits, BitsOf;
    AllBitsNext(cs, k);
    var rest := AllBitsSplit(cs, k);
    var before, code := AllBits(cs[..k]), BitsOf(cs[k]);
    assert AllBits(cs) + tail == before + code + (rest + tail);
    TokenStep(t, before, cs[k], toks[k], rest + tail, g);
  }

  /**
   * The round trip: whatever literals and matches an encoder wrote, decoding its code words yields the
   * bytes they mean, ends at the end code, and has read exactly what was written.
   */
  lemma RoundTrip(t: Tables, cs: seq<Coded>, toks: seq<Token>, z: seq<bool>, rest: seq<bool>, h: seq<Byte>)
    requires t.Ok() && AllCode(t, cs, toks) && EndCode(t, z) && AllReach(h, toks)
    ensures Run(t, AllBits(cs) + z + rest, State(0, h, LEN), |cs| + 1)
         == Some(State(|AllBits(cs) + z|, Expansion(h, toks), TYPE))
  {
    hide Step, Codes, WellFormed, Meaning, CodeWord, NextSymbol;
    assert toks[..|cs|] == toks && cs[..|cs|] == cs;
    var s := AllBits(cs) + z + rest;
    assert s == AllBits(cs) + (z + rest);
    RunTokens(t, cs, toks, z + rest, h, |cs|);
    var e :| IsWord(false, t.lencode, t.lenbits, z, e) && e.op == 0x60;
    assert s[|AllBits(cs)|..] == z + rest;
    WordIsRead(false, t.lencode, t.lenbits, z, rest);
    OpByte(e);
    SingleStep(t, s, State(|AllBits(cs)|, Expansion(h, toks), LEN), e, |z|);
  }

  /** A match that reaches back before the first byte of the history is an error, and nothing else is. */
  lemma TooFarBack(t: Tables, cs: seq<Coded>, toks: seq<Token>, tail: seq<bool>, h: seq<Byte>, k: nat)
    requires t.Ok() && AllCode(t, cs, toks) && k < |cs| && AllReach(h, toks[..k])
    ensures var r := Run(t, AllBits(cs) + tail, State(0, h, LEN), k + 1);
            r.Some? && (r.value.mode == BAD <==> !Reaches(Expansion(h, toks[..k]), toks[k]))
  {
    hide Step, Codes, WellFormed, Meaning;
    RunTokens(t, cs, toks, tail, h, k);
    NextToken(t, cs, toks, tail, Expansion(h, toks[..k]), k);
  }

  /** No step is possible after the end of the block. */
  lemma {:induction false} NoStepAfter(t: Tables, s: seq<bool>, st: State, n: nat, k: nat)
    requires t.Ok() && Run(t, s, st, n).Some? && Run(t, s, st, n).value.mode != LEN && k > n
    ensures Run(t, s, st, k) == None
  {
    hide Step, WellFormed;
    if k > n + 1 {
      NoStepAfter(t, s, st, n, k - 1);
    }
  }

  /** Wherever a decoder stops on such a stream, it has expanded a prefix of the tokens, and never with an error. */
  lemma AnyStop(t: Tables, cs: seq<Coded>, toks: seq<Token>, z: seq<bool>, rest: seq<bool>, h: seq<Byte>, k: nat)
    requires t.Ok() && AllCode(t, cs, toks) && EndCode(t, z) && AllReach(h, toks)
    requires Run(t, AllBits(cs) + z + rest, State(0, h, LEN), k).Some?
    ensures var r, j := Run(t, AllBits(cs) + z + rest, State(0, h, LEN), k).value, if k <= |cs| then k else |cs|;
            && k <= |cs| + 1 && r.mode != BAD && (r.mode == TYPE <==> k == |cs| + 1)
            && AllReach(h, toks[..j]) && r.hist == Expansion(h, toks[..j])
  {
    hide Step, WellFormed, Codes, Meaning, CodeWord, Run, Expansion, AllBits;
    RoundTrip(t, cs, toks, z, rest, h);
    assert toks[..|cs|] == toks;
    if k <= |cs| {
      AllReachUpTo(h, toks, k);
      assert AllBits(cs) + z + rest == AllBits(cs) + (z + rest);
      RunTokens(t, cs, toks, z + rest, h, k);
    } else if k > |cs| + 1 {
      NoStepAfter(t, AllBits(cs) + z + rest, State(0, h, LEN), |cs| + 1, k);
    }
  }

  /** So does a call of inflate_fast: what it added to the history is what the next tokens mean. */
  lemma CallExpands(t: Tables, cs: seq<Coded>, toks: seq<Token>, z: seq<bool>, rest: seq<bool>,
        before: seq<Byte>, after: seq<Byte>, k: nat, pos: int, mode: Mode, hold: nat, bits: nat)
    requires t.Ok() && AllCode(t, cs, toks) && EndCode(t, z) && AllReach(before, toks)
    requires InflateFast.Decodes(t, AllBits(cs) + z + rest, k, before, after, pos, mode, hold, bits)
    ensures var j := if k <= |cs| then k else |cs|;
            && mode != BAD && (mode == TYPE <==> k == |cs| + 1) && k <= |cs| + 1
            && AllReach(before, toks[..j]) && after == Expansion(before, toks[..j])
  {
    hide Run, Expansion, AllReach, AllBits, AllCode, EndCode;
    AnyStop(t, cs, toks, z, rest, before, k);
  }
}
