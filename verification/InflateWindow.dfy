/**
 The sliding window of inflate and the match copies of inflate_fast. The window is a circular
 buffer; unwrapped, it is the output of the earlier calls, which together with the output of
 this call is the history a match may reach into.
 */
module InflateWindow {
  import opened Widths
  import opened Bits
  import opened InflateSpec

  /** wsize, whave and wnext as updatewindow leaves them. */
  predicate WindowOk(capacity: nat, wsize: nat, whave: nat, wnext: nat) {
    && wsize <= capacity
    && whave <= wsize
    && (wsize > 0 ==> wnext < wsize)
    && (whave < wsize ==> wnext == whave)
    && (wsize == 0 ==> wnext == 0)
  }

  /** The window's bytes, oldest first. */
  function Unwrapped(window: seq<Byte>, wsize: nat, whave: nat, wnext: nat): (u: seq<Byte>)
    requires WindowOk(|window|, wsize, whave, wnext)
    ensures |u| == whave
  {
    if whave < wsize then window[..whave] else window[wnext..wsize] + window[..wnext]
  }

  /** The last n bytes of a string, or all of it. */
  function LastBytes(s: seq<Byte>, n: nat): seq<Byte> {
    if |s| <= n then s else s[|s| - n..]
  }

  // ---------- the copy loops ----------

  /** Byte after byte, where source and destination may be one buffer and overlap. */
  method CopyBytes(src: array<Byte>, from: nat, out: array<Byte>, to: nat, n: nat)
    requires from + n <= src.Length && to + n <= out.Length
    requires src == out ==> from < to
    modifies out
    ensures forall i :: 0 <= i < to || to + n <= i < out.Length ==> out[i] == old(out[i])
    ensures forall i :: to <= i < to + n ==> out[i] == src[from + (i - to)]
  {
    for k := 0 to n
      invariant forall i :: 0 <= i < to || to + k <= i < out.Length ==> out[i] == old(out[i])
      invariant forall i :: to <= i < to + k ==> out[i] == src[from + (i - to)]
    {
      out[to + k] := src[from + k];
    }
  }

  /** The copy at the end of a match: three bytes per turn, then one or two more. */
  method CopyRest(src: array<Byte>, from0: nat, out: array<Byte>, to0: nat, len0: nat)
    requires from0 + len0 <= src.Length && to0 + len0 <= out.Length
    requires src == out ==> from0 < to0
    modifies out
    ensures forall i :: 0 <= i < to0 || to0 + len0 <= i < out.Length ==> out[i] == old(out[i])
    ensures forall i :: to0 <= i < to0 + len0 ==> out[i] == src[from0 + (i - to0)]
  {
    var from, to, len := from0, to0, len0;
    while len > 2
      invariant 0 <= len <= len0 && from == from0 + (len0 - len) && to == to0 + (len0 - len)
      invariant forall i :: 0 <= i < to0 || to <= i < out.Length ==> out[i] == old(out[i])
      invariant forall i :: to0 <= i < to ==> out[i] == src[from0 + (i - to0)]
    {
      out[to] := src[from];
      out[to + 1] := src[from + 1];
      out[to + 2] := src[from + 2];
      from, to, len := from + 3, to + 3, len - 3;
    }
    if len > 0 {
      out[to] := src[from];
      if len > 1 {
        out[to + 1] := src[from + 1];
      }
    }
  }

  /** What a copy must leave behind: every new byte equals the byte dist places back in the history. */
  ghost predicate Copied(u: seq<Byte>, out: seq<Byte>, beg: nat, to: nat, n: nat, dist: nat) {
    && beg <= to && to + n <= |out| && 1 <= dist <= |u| + to - beg
    && forall i :: to <= i < to + n ==> out[i] == (u + out[beg..to + n])[|u| + i - beg - dist]
  }

  lemma CopiedIsCopyBack(u: seq<Byte>, before: seq<Byte>, out: seq<Byte>, beg: nat, to: nat, n: nat, dist: nat)
    requires |before| == |out| && Copied(u, out, beg, to, n, dist)
    requires forall i :: 0 <= i < to ==> out[i] == before[i]
    ensures u + out[beg..to + n] == CopyBack(u + before[beg..to], n, dist)
  {
    var h, r := u + before[beg..to], u + out[beg..to + n];
    assert r[..|h|] == h;
    forall i | |h| <= i < |r| ensures r[i] == r[i - dist] {
      assert r[i] == out[i - |u| + beg];
    }
    CopyBackUnique(h, n, dist, r);
  }

  /** Direct: the match starts inside this call's output. */
  lemma DirectCopy(u: seq<Byte>, out: seq<Byte>, beg: nat, to: nat, n: nat, dist: nat)
    requires beg <= to && to + n <= |out| && 1 <= dist <= to - beg
    requires forall i :: to <= i < to + n ==> out[i] == out[to - dist + (i - to)]
    ensures Copied(u, out, beg, to, n, dist)
  {
    forall i | to <= i < to + n ensures out[i] == (u + out[beg..to + n])[|u| + i - beg - dist] {
      assert (u + out[beg..to + n])[|u| + i - beg - dist] == out[i - dist];
    }
  }

  /** From the window: the first op bytes come from the window's end, the rest from the output's start. */
  lemma WindowCopy(u: seq<Byte>, out: seq<Byte>, beg: nat, to: nat, n: nat, dist: nat, op: nat)
    requires beg <= to && to + n <= |out| && op == dist - (to - beg) && 1 <= op <= |u|
    requires forall i :: to <= i < to + n && i < to + op ==> out[i] == u[|u| - op + (i - to)]
    requires forall i :: to + op <= i < to + n ==> out[i] == out[beg + (i - to - op)]
    ensures Copied(u, out, beg, to, n, dist)
  {
    var r := u + out[beg..to + n];
    forall i | to <= i < to + n ensures out[i] == r[|u| + i - beg - dist] {
      if i < to + op {
        assert r[|u| - op + (i - to)] == u[|u| - op + (i - to)];
      } else {
        assert r[|u| + (i - to - op)] == out[beg + (i - to - op)];
      }
    }
  }

  /** The match copy of inflate_fast, with its four sources. */
  method CopyMatch(window: array<Byte>, wsize: nat, whave: nat, wnext: nat,
                   out: array<Byte>, beg: nat, to: nat, len: nat, dist: nat)
    requires window != out && WindowOk(window.Length, wsize, whave, wnext)
    requires beg <= to && to + len <= out.Length && 3 <= len
    requires 1 <= dist <= whave + (to - beg)
    modifies out
    ensures forall i :: 0 <= i < to || to + len <= i < out.Length ==> out[i] == old(out[i])
    ensures Copied(Unwrapped(window[..], wsize, whave, wnext), out[..], beg, to, len, dist)
  {
    ghost var u := Unwrapped(window[..], wsize, whave, wnext);
    var op := to - beg;
    if dist > op {
      op := dist - op;
      if wnext == 0 {
        CopyFromEnd(window, wsize - op, op, out, beg, to, len, dist);
        assert u == window[..wsize];
      } else if wnext < op {
        CopyWrapped(window, wsize, wnext, op, out, beg, to, len, dist);
      } else {
        CopyFromEnd(window, wnext - op, op, out, beg, to, len, dist);
      }
      WindowCopy(u, out[..], beg, to, len, dist, op);
    } else {
      CopyRest(out, to - dist, out, to, len);
      DirectCopy(u, out[..], beg, to, len, dist);
    }
  }

  /** Contiguous in the window: op bytes from `from`, then the rest from the output. */
  method CopyFromEnd(window: array<Byte>, from: nat, op: nat, out: array<Byte>, beg: nat, to: nat, len: nat, dist: nat)
    requires window != out && from + op <= window.Length
    requires beg <= to && to + len <= out.Length && op == dist - (to - beg) && 1 <= op
    modifies out
    ensures forall i :: 0 <= i < to || to + len <= i < out.Length ==> out[i] == old(out[i])
    ensures forall i :: to <= i < to + len && i < to + op ==> out[i] == window[from + (i - to)]
    ensures forall i :: to + op <= i < to + len ==> out[i] == out[beg + (i - to - op)]
  {
    if op < len {
      CopyBytes(window, from, out, to, op);
      CopyRest(out, to + op - dist, out, to + op, len - op);
    } else {
      CopyRest(window, from, out, to, len);
    }
  }

  /** Wrapped: the end of the window, then its start, then the output. */
  method CopyWrapped(window: array<Byte>, wsize: nat, wnext: nat, op: nat,
                     out: array<Byte>, beg: nat, to: nat, len: nat, dist: nat)
    requires window != out && wsize <= window.Length && 0 < wnext < op <= wsize
    requires beg <= to && to + len <= out.Length && op == dist - (to - beg)
    modifies out
    ensures forall i :: 0 <= i < to || to + len <= i < out.Length ==> out[i] == old(out[i])
    ensures forall i :: to <= i < to + len && i < to + op - wnext ==> out[i] == window[wsize + wnext - op + (i - to)]
    ensures forall i :: to + op - wnext <= i < to + len && i < to + op ==> out[i] == window[i - (to + op - wnext)]
    ensures forall i :: to + op <= i < to + len ==> out[i] == out[beg + (i - to - op)]
  {
    var from, tail := wsize + wnext - op, op - wnext;
    if tail < len {
      CopyBytes(window, from, out, to, tail);
      var left := len - tail;
      if wnext < left {
        CopyBytes(window, 0, out, to + tail, wnext);
        CopyRest(out, to + op - dist, out, to + op, left - wnext);
      } else {
        CopyRest(window, 0, out, to + tail, left);
      }
    } else {
      CopyRest(window, from, out, to, len);
    }
  }

  // ---------- updatewindow ----------

  /** What updatewindow does to the window and its three counters. */
  method UpdateWindow(window: array<Byte>, wsize0: nat, whave0: nat, wnext0: nat, fullSize: nat,
                      out: array<Byte>, end: nat, copy0: nat)
    returns (wsize: nat, whave: nat, wnext: nat)
    requires window != out && 0 < fullSize <= window.Length
    requires WindowOk(window.Length, wsize0, whave0, wnext0) && (wsize0 == 0 || wsize0 == fullSize)
    requires copy0 <= end <= out.Length
    modifies window
    ensures wsize == fullSize && WindowOk(window.Length, wsize, whave, wnext)
    ensures Unwrapped(window[..], wsize, whave, wnext)
         == LastBytes(old(Unwrapped(window[..], wsize0, whave0, wnext0)) + out[end - copy0..end], wsize)
  {
    wsize, whave, wnext := wsize0, whave0, wnext0;
    if wsize == 0 {
      wsize, wnext, whave := fullSize, 0, 0;
    }
    ghost var u := Unwrapped(window[..], wsize, whave, wnext);
    assert u == Unwrapped(window[..], wsize0, whave0, wnext0);
    if copy0 >= wsize {
      BlockCopy(out, end - wsize, window, 0, wsize);
      wnext, whave := 0, wsize;
      ReplacedWindow(window[..], wsize, u, out[end - copy0..end]);
    } else {
      whave, wnext := AppendToWindow(window, wsize, whave, wnext, out, end, copy0);
    }
  }

  lemma ReplacedWindow(w: seq<Byte>, wsize: nat, u: seq<Byte>, added: seq<Byte>)
    requires 0 < wsize <= |w| && wsize <= |added| && w[..wsize] == added[|added| - wsize..]
    ensures Unwrapped(w, wsize, wsize, 0) == LastBytes(u + added, wsize)
  {
    assert Unwrapped(w, wsize, wsize, 0) == w[..wsize];
    assert (u + added)[|u + added| - wsize..] == added[|added| - wsize..];
    if |u + added| == wsize { assert u + added == added; }
  }

  /** Less than a window's worth of output goes after the newest byte, around the end if need be. */
  method AppendToWindow(window: array<Byte>, wsize: nat, whave0: nat, wnext0: nat, out: array<Byte>, end: nat,
        copy0: nat)
    returns (whave: nat, wnext: nat)
    requires window != out && 0 < wsize && WindowOk(window.Length, wsize, whave0, wnext0)
    requires copy0 <= end <= out.Length && copy0 < wsize
    modifies window
    ensures WindowOk(window.Length, wsize, whave, wnext)
    ensures Unwrapped(window[..], wsize, whave, wnext)
         == LastBytes(old(Unwrapped(window[..], wsize, whave0, wnext0)) + out[end - copy0..end], wsize)
  {
    hide Unwrapped, LastBytes;
    whave, wnext := whave0, wnext0;
    ghost var w0, added := window[..], out[end - copy0..end];
    var copy := copy0;
    var dist := wsize - wnext;
    if dist > copy { dist := copy; }
    BlockCopy(out, end - copy, window, wnext, dist);
    copy := copy - dist;
    ghost var w1 := window[..];
    assert out[end - copy0..end - copy] == added[..dist];
    if copy > 0 {
      BlockCopy(out, end - copy, window, 0, copy);
      wnext, whave := copy, wsize;
      assert out[end - copy..end] == added[dist..];
      AppendedAround(w0, w1, window[..], wsize, whave0, wnext0, added, dist);
    } else {
      wnext := wnext + dist;
      if wnext == wsize { wnext := 0; }
      if whave < wsize { whave := whave + dist; }
      assert added[..dist] == added;
      AppendedInPlace(w0, w1, wsize, whave0, wnext0, added, whave, wnext);
    }
  }

  lemma AppendedAround(w: seq<Byte>, w1: seq<Byte>, w': seq<Byte>, wsize: nat, whave: nat, wnext: nat,
        added: seq<Byte>, dist: nat)
    requires 0 < wsize && WindowOk(|w|, wsize, whave, wnext)
    requires dist == wsize - wnext < |added| < wsize && |w'| == |w1| == |w|
    requires w1[..wnext] == w[..wnext] && w1[wnext..wsize] == added[..dist]
    requires w'[..|added| - dist] == added[dist..] && w'[|added| - dist..] == w1[|added| - dist..]
    ensures WindowOk(|w'|, wsize, wsize, |added| - dist)
    ensures Unwrapped(w', wsize, wsize, |added| - dist) == LastBytes(Unwrapped(w, wsize, whave, wnext) + added, wsize)
  {
    var u := Unwrapped(w, wsize, whave, wnext);
    var copy := |added| - dist;
    LastOfConcat(u, added, wsize);
    hide LastBytes;
    assert u[|u| - (wnext - copy)..] == w[copy..wnext] == w1[copy..wnext];
    assert w'[copy..wsize] == w1[copy..wsize] == w1[copy..wnext] + w1[wnext..wsize];
    hide Unwrapped;
    assert added == added[..dist] + added[dist..];
    assert w[copy..wnext] + added == w[copy..wnext] + added[..dist] + added[dist..];
  }

  lemma LastOfConcat(u: seq<Byte>, added: seq<Byte>, n: nat)
    requires |added| <= n <= |u| + |added|
    ensures LastBytes(u + added, n) == u[|u| + |added| - n..] + added
  {
  }

  lemma AppendedInPlace(w: seq<Byte>, w': seq<Byte>, wsize: nat, whave: nat, wnext: nat, added: seq<Byte>,
        whave': nat, wnext': nat)
    requires 0 < wsize && WindowOk(|w|, wsize, whave, wnext) && wnext + |added| <= wsize && |added| < wsize
    requires |w'| == |w| && w'[..wnext] == w[..wnext] && w'[wnext..wnext + |added|] == added
    requires w'[wnext + |added|..] == w[wnext + |added|..]
    requires wnext' == if wnext + |added| == wsize then 0 else wnext + |added|
    requires whave' == if whave < wsize then whave + |added| else whave
    ensures WindowOk(|w'|, wsize, whave', wnext')
    ensures Unwrapped(w', wsize, whave', wnext') == LastBytes(Unwrapped(w, wsize, whave, wnext) + added, wsize)
  {
    var u, n := Unwrapped(w, wsize, whave, wnext), wnext + |added|;
    assert w'[..n] == w'[..wnext] + w'[wnext..n] == w[..wnext] + added;
    if whave < wsize {
      assert u + added == w'[..n];
    } else {
      assert u + added == (w[wnext..wsize] + w[..wnext]) + added;
      assert LastBytes(u + added, wsize) == w[n..wsize] + w[..wnext] + added;
      assert w'[n..wsize] == w[n..wsize];
      if n == wsize { assert w'[..wsize] == w[..wnext] + added; }
    }
  }

  /** zmemcpy between two buffers. */
  method BlockCopy(src: array<Byte>, from: nat, dst: array<Byte>, to: nat, n: nat)
    requires src != dst && from + n <= src.Length && to + n <= dst.Length
    modifies dst
    ensures dst[..to] == old(dst[..to])
    ensures dst[to..to + n] == src[from..from + n]
    ensures dst[to + n..] == old(dst[to + n..])
  {
    CopyBytes(src, from, dst, to, n);
  }
}
