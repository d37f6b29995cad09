/**
 What inflate_fast must compute: a decoder that reads one bit at a time until the bits read
 are a code word, and whose output is one growing history. A match (len, dist) repeatedly
 appends the byte dist places back. RFC 1951, sections 3.2.3 and 3.2.5.
 */
module InflateSpec {
  import opened Widths
  import opened Bits

  /** An entry of a decoding table, as inftrees.h lays it out. */
  datatype Code = Code(op: nat, bits: nat, val: nat)

  datatype Option<T> = None | Some(value: T)

  // ---------- the op byte ----------

  predicate IsLiteral(e: Code) { e.op == 0 }

  /** op & 16: a base value; the low four bits count the extra bits. */
  predicate HasBase(e: Code) { e.op / 16 % 2 == 1 }

  function Extra(e: Code): nat { e.op % 16 }

  /** Neither 16 nor 64 set, and not a literal: a second-level table with op index bits. */
  predicate IsLink(e: Code) { e.op != 0 && !HasBase(e) && e.op / 64 % 2 == 0 }

  predicate IsEnd(e: Code) { !HasBase(e) && e.op / 64 % 2 == 1 && e.op / 32 % 2 == 1 }

  predicate IsInvalid(e: Code) { !HasBase(e) && e.op / 64 % 2 == 1 && e.op / 32 % 2 == 0 }

  // ---------- well-formed tables ----------

  /** What inflate_table may store for a complete length/literal code word. */
  predicate LengthEntry(e: Code) {
    || (IsLiteral(e) && e.val < 256)
    || (HasBase(e) && Extra(e) <= 5 && 3 <= e.val && e.val + Pow2(Extra(e)) <= 259)
    || IsEnd(e)
    || IsInvalid(e)
  }

  /** The same for a distance code word. */
  predicate DistanceEntry(e: Code) {
    || (HasBase(e) && Extra(e) <= 13 && 1 <= e.val && e.val + Pow2(Extra(e)) <= 32769)
    || (!HasBase(e) && e.op / 64 % 2 == 1)
  }

  predicate Terminal(distance: bool, e: Code) {
    if distance then DistanceEntry(e) else LengthEntry(e)
  }

  ghost predicate SameEntry(t: seq<Code>, base: nat, i: nat, j: nat) {
    base + i < |t| && base + j < |t| && t[base + j] == t[base + i]
  }

  /** `width` index bits from `base`: every entry fills all indices that share its code bits. */
  ghost predicate Filled(distance: bool, t: seq<Code>, base: nat, width: nat, i: nat)
    requires base + Pow2(width) <= |t| && i < Pow2(width)
  {
    var e := t[base + i];
    && Terminal(distance, e)
    && 1 <= e.bits <= width
    && forall j: nat {:trigger SameEntry(t, base, i, j)} :: j < Pow2(width) && j % Pow2(e.bits) == i % Pow2(e.bits) ==>
      SameEntry(t, base, i, j)
  }

  /** A root entry is a finished code word or a link to a filled second-level table. */
  ghost predicate RootEntry(distance: bool, t: seq<Code>, root: nat, i: nat)
    requires Pow2(root) <= |t| && i < Pow2(root)
  {
    var e := t[i];
    if IsLink(e) then
      && e.bits == root
      && root + e.op <= 15
      && e.val + Pow2(e.op) <= |t|
      && forall j: nat :: j < Pow2(e.op) ==> Filled(distance, t, e.val, e.op, j)
    else
      Filled(distance, t, 0, root, i)
  }

  ghost predicate WellFormed(distance: bool, t: seq<Code>, root: nat) {
    && 1 <= root <= 15
    && Pow2(root) <= |t|
    && forall i: nat :: i < Pow2(root) ==> RootEntry(distance, t, root, i)
  }

  // ---------- reading a code word bit by bit ----------

  /** The entry a bit string is the whole code word of, if it is one. */
  function CodeWord(distance: bool, t: seq<Code>, root: nat, w: seq<bool>): Option<Code>
    requires WellFormed(distance, t, root)
  {
    if |w| <= root then
      ValBound(w);
      Pow2Mono(|w|, root);
      var e := t[Val(w)];
      if !IsLink(e) && e.bits == |w| then Some(e) else None
    else
      ValBound(w[..root]);
      var e := t[Val(w[..root])];
      assert RootEntry(distance, t, root, Val(w[..root]));
      if IsLink(e) && |w| - root <= e.op then
        ValBound(w[root..]);
        Pow2Mono(|w| - root, e.op);
        var s := t[e.val + Val(w[root..])];
        if s.bits == |w| - root then Some(s) else None
      else None
  }

  /** The shortest code word, of at least n bits, that the stream starts with, and its length. */
  function NextSymbol(distance: bool, t: seq<Code>, root: nat, s: seq<bool>, n: nat): Option<(Code, nat)>
    requires WellFormed(distance, t, root)
    decreases |s| - n
  {
    if n > |s| then None
    else
      match CodeWord(distance, t, root, s[..n])
      case Some(e) => Some((e, n))
      case None => NextSymbol(distance, t, root, s, n + 1)
  }

  // ---------- the history and one symbol ----------

  /** Append, len times, the byte dist places back. */
  function CopyBack(h: seq<Byte>, len: nat, dist: nat): seq<Byte>
    requires 1 <= dist <= |h|
    decreases len
  {
    if len == 0 then h else CopyBack(h + [h[|h| - dist]], len - 1, dist)
  }

  datatype Mode = LEN | TYPE | BAD

  /** Bits consumed, history, mode. */
  datatype State = State(pos: nat, hist: seq<Byte>, mode: Mode)

  datatype Tables = Tables(lencode: seq<Code>, lenbits: nat, distcode: seq<Code>, distbits: nat) {
    ghost predicate Ok() {
      WellFormed(false, lencode, lenbits) && WellFormed(true, distcode, distbits)
    }
  }

  /** The distance half of a match: its code word, its extra bits, the copy. */
  function DistanceStep(t: Tables, s: seq<bool>, pos: nat, hist: seq<Byte>, len: nat): Option<State>
    requires t.Ok() && pos <= |s|
  {
    match NextSymbol(true, t.distcode, t.distbits, s[pos..], 1)
    case None => None
    case Some((e, n)) =>
      var p := pos + n;
      if !HasBase(e) then Some(State(p, hist, BAD))
      else if p + Extra(e) > |s| then None
      else
        var dist := e.val + Val(s[p..p + Extra(e)]);
        if dist > |hist| || dist == 0 then Some(State(p + Extra(e), hist, BAD))
        else Some(State(p + Extra(e), CopyBack(hist, len, dist), LEN))
  }

  /** One literal, match, end-of-block or error; None when the stream ends within it. */
  function Step(t: Tables, s: seq<bool>, st: State): Option<State>
    requires t.Ok() && st.pos <= |s|
  {
    match NextSymbol(false, t.lencode, t.lenbits, s[st.pos..], 1)
    case None => None
    case Some((e, n)) =>
      var p := st.pos + n;
      if IsLiteral(e) then Some(State(p, st.hist + [e.val % 256], LEN))
      else if HasBase(e) then
        if p + Extra(e) > |s| then None
        else DistanceStep(t, s, p + Extra(e), st.hist, e.val + Val(s[p..p + Extra(e)]))
      else Some(State(p, st.hist, if IsEnd(e) then TYPE else BAD))
  }

  /** k symbols, none of which may come after the end of the block or an error. */
  function Run(t: Tables, s: seq<bool>, st: State, k: nat): (r: Option<State>)
    requires t.Ok()
  {
    if k == 0 then Some(st)
    else
      match Run(t, s, st, k - 1)
      case None => None
      case Some(m) => if m.mode == LEN && m.pos <= |s| then Step(t, s, m) else None
  }

  // ---------- facts about copies ----------

  lemma {:induction false} CopyBackPoints(h: seq<Byte>, len: nat, dist: nat)
    requires 1 <= dist <= |h|
    ensures var r := CopyBack(h, len, dist);
            && |r| == |h| + len && r[..|h|] == h
            && forall i :: |h| <= i < |r| ==> r[i] == r[i - dist]
    decreases len
  {
    if len > 0 {
      var g := h + [h[|h| - dist]];
      CopyBackPoints(g, len - 1, dist);
      var r := CopyBack(h, len, dist);
      assert r[..|g|] == g;
      assert r[..|h|] == g[..|h|] == h;
      assert r[|h|] == g[|h|] == h[|h| - dist] == r[..|h|][|h| - dist];
    }
  }

  /** The two facts a copy loop establishes determine the copied history. */
  lemma {:induction false} CopyBackUnique(h: seq<Byte>, len: nat, dist: nat, r: seq<Byte>)
    requires 1 <= dist <= |h|
    requires |r| == |h| + len && r[..|h|] == h
    requires forall i :: |h| <= i < |r| ==> r[i] == r[i - dist]
    ensures r == CopyBack(h, len, dist)
    decreases len
  {
    if len > 0 {
      var g := h + [h[|h| - dist]];
      assert r[|h|] == r[|h| - dist] == r[..|h|][|h| - dist];
      assert r[..|g|] == g;
      CopyBackUnique(g, len - 1, dist, r);
    }
  }

  // ---------- a table lookup finds the shortest code word ----------

  lemma ModPrefix(s: seq<bool>, n: nat, m: nat)
    requires n <= m <= |s|
    ensures Val(s[..m]) % Pow2(n) == Val(s[..n]) < Pow2(n)
    ensures Val(s[..n]) % Pow2(n) == Val(s[..n])
  {
    assert s[..m][..n] == s[..n];
    ValSplit(s[..m], n);
    ValSplit(s[..n], n);
    assert s[..n][..n] == s[..n];
    ValBound(s[..n]);
  }

  /** No prefix shorter than the word the table names is a code word. */
  lemma {:induction false} SearchUpTo(distance: bool, t: seq<Code>, root: nat, s: seq<bool>, n: nat, len: nat)
    requires WellFormed(distance, t, root)
    requires n <= len <= |s|
    requires forall k :: n <= k < len ==> CodeWord(distance, t, root, s[..k]) == None
    ensures NextSymbol(distance, t, root, s, n) == NextSymbol(distance, t, root, s, len)
    decreases len - n
  {
    if n < len { SearchUpTo(distance, t, root, s, n + 1, len); }
  }

  /** A prefix inside the root bits is a code word only if the root entry is that very word. */
  lemma RootPrefix(distance: bool, t: seq<Code>, root: nat, s: seq<bool>, n: nat)
    requires WellFormed(distance, t, root) && 1 <= n <= root <= |s|
    ensures Val(s[..root]) < Pow2(root)
    ensures var e := t[Val(s[..root])];
            CodeWord(distance, t, root, s[..n]) == if !IsLink(e) && e.bits == n then Some(e) else None
  {
    var i, j := Val(s[..root]), Val(s[..n]);
    ValBound(s[..root]);
    ValBound(s[..n]);
    Pow2Mono(n, root);
    ModPrefix(s, n, root);
    assert RootEntry(distance, t, root, i) && RootEntry(distance, t, root, j);
    var e, f := t[i], t[j];
    if !IsLink(e) && e.bits == n {
      assert Filled(distance, t, 0, root, i);
      assert SameEntry(t, 0, i, j);
    }
    if !IsLink(f) && f.bits == n {
      assert Filled(distance, t, 0, root, j);
      assert SameEntry(t, 0, j, i);
    }
  }

  lemma LinkPrefix(distance: bool, t: seq<Code>, root: nat, s: seq<bool>, n: nat)
    requires WellFormed(distance, t, root) && root <= |s|
    requires Val(s[..root]) < Pow2(root) && IsLink(t[Val(s[..root])])
    requires var e := t[Val(s[..root])]; 1 <= n <= e.op && root + e.op <= |s|
    ensures var e := t[Val(s[..root])];
            var sub := s[root..root + e.op];
            && Val(sub) < Pow2(e.op) && e.val + Pow2(e.op) <= |t|
            && var f := t[e.val + Val(sub)];
            CodeWord(distance, t, root, s[..root + n]) == if f.bits == n then Some(f) else None
  {
    var e := t[Val(s[..root])];
    assert RootEntry(distance, t, root, Val(s[..root]));
    var sub, w := s[root..root + e.op], s[..root + n];
    assert w[..root] == s[..root] && w[root..] == sub[..n];
    LinkedWord(distance, t, root, w);
    hide CodeWord, RootEntry, WellFormed, Val, Filled;
    SubPrefix(distance, t, e.val, e.op, sub, n);
  }

  /** A word longer than the root bits, read through the link. */
  lemma LinkedWord(distance: bool, t: seq<Code>, root: nat, w: seq<bool>)
    requires WellFormed(distance, t, root) && root < |w|
    requires Val(w[..root]) < Pow2(root) && IsLink(t[Val(w[..root])]) && |w| <= root + t[Val(w[..root])].op
    ensures var e, k := t[Val(w[..root])], |w| - root;
            && e.val + Pow2(e.op) <= |t| && Val(w[root..]) < Pow2(k) <= Pow2(e.op)
            && var f := t[e.val + Val(w[root..])];
              CodeWord(distance, t, root, w) == if f.bits == k then Some(f) else None
    ensures var e := t[Val(w[..root])];
            forall j: nat :: j < Pow2(e.op) ==> Filled(distance, t, e.val, e.op, j)
  {
    var e := t[Val(w[..root])];
    assert RootEntry(distance, t, root, Val(w[..root]));
    hide Filled;
    ValBound(w[root..]);
    Pow2Mono(|w| - root, e.op);
  }

  /** In a filled table a prefix of the index selects a word of its own length exactly if the whole index does. */
  lemma SubPrefix(distance: bool, t: seq<Code>, base: nat, width: nat, sub: seq<bool>, n: nat)
    requires base + Pow2(width) <= |t| && |sub| == width && 1 <= n <= width
    requires forall j: nat :: j < Pow2(width) ==> Filled(distance, t, base, width, j)
    ensures Val(sub) < Pow2(width) && Val(sub[..n]) < Pow2(width)
    ensures var f, g := t[base + Val(sub)], t[base + Val(sub[..n])];
        (f.bits == n <==> g.bits == n) && (f.bits == n ==> f == g)
  {
    var i, j := Val(sub), Val(sub[..n]);
    assert sub[..width] == sub;
    ValBound(sub);
    ValBound(sub[..n]);
    Pow2Mono(n, width);
    ModPrefix(sub, n, width);
    hide Val, Pow2, Filled;
    var f, g := t[base + i], t[base + j];
    if f.bits == n {
      SameWord(distance, t, base, width, i, j);
    }
    if g.bits == n {
      SameWord(distance, t, base, width, j, i);
    }
  }

  /** Two indices that agree in the code bits of one hold the same word. */
  lemma SameWord(distance: bool, t: seq<Code>, base: nat, width: nat, i: nat, j: nat)
    requires base + Pow2(width) <= |t| && i < Pow2(width) && j < Pow2(width) && Filled(distance, t, base, width, i)
    requires j % Pow2(t[base + i].bits) == i % Pow2(t[base + i].bits)
    ensures t[base + j] == t[base + i]
  {
    hide Pow2;
    assert SameEntry(t, base, i, j);
  }

  /** The entry the two-level lookup ends on, and the number of bits it drops. */
  ghost function Lookup(t: seq<Code>, root: nat, s: seq<bool>, distance: bool): (r: (Code, nat))
    requires WellFormed(distance, t, root) && |s| >= 15
  {
    ValBound(s[..root]);
    var e := t[Val(s[..root])];
    assert RootEntry(distance, t, root, Val(s[..root]));
    if IsLink(e) then
      ValBound(s[root..root + e.op]);
      var f := t[e.val + Val(s[root..root + e.op])];
      (f, root + f.bits)
    else (e, e.bits)
  }

  lemma RootLookup(distance: bool, t: seq<Code>, root: nat, s: seq<bool>)
    requires WellFormed(distance, t, root) && |s| >= 15 && Val(s[..root]) < Pow2(root)
    ensures var e := t[Val(s[..root])];
            if IsLink(e) then NextSymbol(distance, t, root, s, 1) == NextSymbol(distance, t, root, s, root + 1)
            else NextSymbol(distance, t, root, s, 1) == Some((e, e.bits)) && 1 <= e.bits <= 15 && Terminal(distance, e)
  {
    hide CodeWord, Terminal;
    var e := t[Val(s[..root])];
    assert RootEntry(distance, t, root, Val(s[..root]));
    forall k | 1 <= k <= root
      ensures CodeWord(distance, t, root, s[..k]) == if !IsLink(e) && e.bits == k then Some(e) else None
    {
      RootPrefix(distance, t, root, s, k);
    }
    if IsLink(e) {
      SearchUpTo(distance, t, root, s, 1, root + 1);
    } else {
      assert Filled(distance, t, 0, root, Val(s[..root]));
      SearchUpTo(distance, t, root, s, 1, e.bits);
    }
  }

  lemma {:induction false} LinkLookup(distance: bool, t: seq<Code>, root: nat, s: seq<bool>, e: Code, f: Code, k: nat)
    requires WellFormed(distance, t, root) && |s| >= 15 && Val(s[..root]) < Pow2(root)
    requires e == t[Val(s[..root])] && IsLink(e) && root + e.op <= 15
    requires Val(s[root..root + e.op]) < Pow2(e.op) && e.val + Pow2(e.op) <= |t|
    requires f == t[e.val + Val(s[root..root + e.op])] && 1 <= k <= f.bits <= e.op
    ensures NextSymbol(distance, t, root, s, root + k) == Some((f, root + f.bits))
    decreases f.bits - k
  {
    hide CodeWord, WellFormed;
    LinkPrefix(distance, t, root, s, k);
    if k < f.bits { LinkLookup(distance, t, root, s, e, f, k + 1); }
  }

  /** Indexing by peeked bits, whatever follows the code word, is reading it bit by bit. */
  lemma LookupIsNextSymbol(distance: bool, t: seq<Code>, root: nat, s: seq<bool>)
    requires WellFormed(distance, t, root) && |s| >= 15
    ensures var (e, n) := Lookup(t, root, s, distance);
            && NextSymbol(distance, t, root, s, 1) == Some((e, n))
            && 1 <= n <= 15 && Terminal(distance, e)
  {
    hide CodeWord, NextSymbol, Terminal;
    var i := Val(s[..root]);
    ValBound(s[..root]);
    var e := t[i];
    assert RootEntry(distance, t, root, i);
    RootLookup(distance, t, root, s);
    if IsLink(e) {
      var j := Val(s[root..root + e.op]);
      ValBound(s[root..root + e.op]);
      assert Filled(distance, t, e.val, e.op, j);
      LinkLookup(distance, t, root, s, e, t[e.val + j], 1);
    }
  }
}
