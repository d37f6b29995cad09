/**
 memheap.c: an address-ordered block list and a circular free list in one pool, with split,
 coalesce and in-place realloc. Each call runs under the heap's lock, so calls are atomic.
 */
module MemHeap {
  import opened Widths
  import opened Lists
  import opened MemHeapBlocks

  const MINIALLOC: int := 12

  /** RT_ALIGN(size, 4) in 32 bits, and at least RT_MEMHEAP_MINIALLOC */
  function Request(size: U32): int {
    var aligned := (size + 3) % 0x1_0000_0000 / 4 * 4;
    if aligned < MINIALLOC then MINIALLOC else aligned
  }

  /**
   A request is a multiple of four, the smallest that will do; it covers what was asked for unless the alignment
   wrapped around.
   */
  lemma RequestSize(size: U32)
    ensures Request(size) % 4 == 0 && Request(size) >= MINIALLOC
    ensures Request(size) == MINIALLOC || Request(size) < size + 4
    ensures Request(size) >= size <==> size <= 0xffff_fffc
  {
  }

  lemma RequestTwice(size: U32)
    ensures 0 <= Request(size) < 0x1_0000_0000 && Request(Request(size)) == Request(size)
  {
  }

  /** The largest element. */
  function MaxOf(h: seq<int>): int
    requires h != []
  {
    if |h| == 1 then h[0]
    else if MaxOf(h[..|h| - 1]) < h[|h| - 1] then h[|h| - 1] else MaxOf(h[..|h| - 1])
  }

  /** The test for growing in place, in 32-bit arithmetic. */
  predicate GrowGuard(nextsize: int, oldsize: int, newsize: int) {
    (nextsize + oldsize) % 0x1_0000_0000 > (newsize + MINIALLOC) % 0x1_0000_0000
  }

  /** For any two neighbours in a pool the guard says what it should, exactly when newsize + 12 does not wrap around. */
  lemma GrowGuardExact(nextsize: int, oldsize: int, newsize: int)
    requires nextsize >= 0 && oldsize >= MINIALLOC && nextsize + oldsize < 0x1_0000_0000 - 8
        && oldsize < newsize < 0x1_0000_0000
    requires newsize % 4 == 0
    ensures (GrowGuard(nextsize, oldsize, newsize) <==> nextsize + oldsize > newsize + MINIALLOC)
       <==> newsize + MINIALLOC < 0x1_0000_0000
  {
    if newsize + MINIALLOC >= 0x1_0000_0000 {
      assert (newsize + MINIALLOC) % 0x1_0000_0000 == newsize + MINIALLOC - 0x1_0000_0000;
    }
  }

  /** One of the sizes for which it does not: 100 bytes in use and 100 free bytes behind them "hold" 4 GB. */
  lemma GrowGuardWraps()
    ensures GrowGuard(100, 100, Request(0xffff_fff8)) && !(100 + 100 > Request(0xffff_fff8) + MINIALLOC)
  {
  }

  lemma LastOf(h: seq<int>)
    requires h != []
    ensures h[|h| - 1] <= MaxOf(h)
  {
  }

  class Heap {
    const mem: array<Word>
    var available: int
    var maxUsed: int
    ghost var blocks: seq<nat>
    ghost var ring: seq<nat>
    /** Bytes in use, headers included, after every operation so far. */
    ghost var history: seq<int>

    function PoolSize(): int { 4 * (mem.Length - 6) }

    ghost predicate Valid()
      reads this, mem
    {
      && Layout(mem[..], blocks, ring) && PoolSize() < 0x1_0000_0000
      && available == 4 * FreeWords(mem[..], blocks)
      && history != [] && history[|history| - 1] == PoolSize() - available && maxUsed == MaxOf(history)
    }

    // ---------- the steps the operations are made of ----------

    /** The free list closes around x, which keeps its own links. */
    method Unlink(x: nat, ghost j: nat, ghost pend: set<nat>, ghost loose: int)
      requires Midway(mem[..], blocks, ring, pend, loose) && 0 < j < |ring| && ring[j] == x && x < mem.Length
          && x in pend
      modifies mem, this`ring
      ensures Midway(mem[..], blocks, ring, pend, loose) && ring == Removed(old(ring), j) && x !in ring
      ensures Live(mem[..], blocks) == old(Live(mem[..], blocks))
          && FreeWords(mem[..], blocks) == old(FreeWords(mem[..], blocks))
      ensures FreeLinksOnly(old(mem[..]), mem[..], old(ring)) && mem[x] == old(mem[x])
    {
      hide Chain, FreeBut, ApartBut, Live, FreeWords;
      ghost var m := mem[..];
      assert RingAt(m, ring, j);
      var next, prev := mem[x].nextFree, mem[x].prevFree;
      ghost var a, b := if j + 1 == |ring| then 0 else j + 1, j - 1;
      assert RingAt(m, ring, a) && RingAt(m, ring, b);
      mem[next] := mem[next].(prevFree := prev);
      mem[prev] := mem[prev].(nextFree := next);
      forall k | 0 <= k < |ring| && k != j
        ensures BypassedAt(m, mem[..], ring, j, k)
      {
        assert RingAt(m, ring, k);
      }
      UnlinkRing(m, mem[..], ring, j);
      RemovedTail(ring, j);
      hide Cycle, Headers, Removed, RingAt;
      LinksStep(m, mem[..], blocks, ring, Removed(ring, j), pend, loose, ring);
      ring := Removed(ring, j);
    }

    /** x comes right behind the free list's header. */
    method LinkFirst(x: nat, ghost pend: set<nat>, ghost loose: int)
      requires Midway(mem[..], blocks, ring, pend, loose) && x !in ring && x in blocks && x in pend && !mem[x].used
      modifies mem, this`ring
      ensures Midway(mem[..], blocks, ring, pend - {x}, loose) && ring == Inserted(old(ring), 0, x)
      ensures Live(mem[..], blocks) == old(Live(mem[..], blocks))
          && FreeWords(mem[..], blocks) == old(FreeWords(mem[..], blocks))
      ensures FreeLinksOnly(old(mem[..]), mem[..], ring)
    {
      hide Chain, FreeBut, ApartBut, Live, FreeWords;
      ghost var m := mem[..];
      var list := mem.Length - 6;
      assert RingAt(m, ring, 0);
      ghost var a := if |ring| == 1 then 0 else 1;
      assert RingAt(m, ring, a);
      InsertedMember(ring, 0, x, ring[0]);
      InsertedMember(ring, 0, x, ring[a]);
      InsertedMember(ring, 0, x, x);
      var first := mem[list].nextFree;
      mem[x] := mem[x].(nextFree := first, prevFree := list);
      mem[first] := mem[first].(prevFree := x);
      mem[list] := mem[list].(nextFree := x);
      forall j | 0 <= j < |ring|
        ensures PrecededAt(m, mem[..], ring, x, j)
      {
        assert RingAt(m, ring, j);
      }
      LinkRing(m, mem[..], ring, x);
      InsertedTail(ring, x);
      ghost var gs := Inserted(ring, 0, x);
      hide Cycle, Inserted, RingAt;
      LinksStep(m, mem[..], blocks, ring, gs, pend, loose, gs);
      Linked(mem[..], blocks, gs, pend, loose, x);
      ring := gs;
    }

    /** The words of a new header that is marked as free. */
    method WriteHeader(p: nat, next: int, prev: int)
      requires p + HEADER <= mem.Length
      modifies mem
      ensures mem[p] == Item(false, next, prev, NULL, NULL)
      ensures forall k :: 0 <= k < mem.Length && !(p <= k < p + HEADER) ==> mem[k] == old(mem[k])
    {
      mem[p] := Item(false, next, prev, NULL, NULL);
      mem[p + 1], mem[p + 2], mem[p + 3], mem[p + 4], mem[p + 5] := Body, Body, Body, Body, Body;
    }

    /** The block list runs through p between h and next. */
    method Splice(h: nat, p: nat, next: nat)
      requires h < next < mem.Length && mem[h].Item? && mem[next].Item?
      modifies mem
      ensures mem[..] == Added(old(mem[..]), h, p, next)
    {
      mem[next] := mem[next].(prev := p);
      mem[h] := mem[h].(next := p);
    }

    /** A new free header at p in the room of the block at h, which ends there from now on. */
    method NewBlock(h: nat, p: nat, ghost i: nat, ghost pend: set<nat>, ghost loose: int)
      requires Midway(mem[..], blocks, ring, pend, loose) && forall x :: x in pend ==> x in blocks
      requires i < |blocks| - 1 && blocks[i] == h && h + HEADER <= p && p + HEADER <= blocks[i + 1] < mem.Length
      requires mem[blocks[i + 1]].Item? && (loose == p || (loose == h && mem[blocks[i + 1]].used))
      modifies mem, this`blocks
      ensures blocks == Inserted(old(blocks), i, p) && p !in old(blocks) && p !in ring
      ensures Midway(mem[..], blocks, ring, pend + {p}, loose) && mem[p].Item? && !mem[p].used
      ensures Live(mem[..], blocks)
           == if old(mem[h].used) then old(Live(mem[..], blocks))[h := p - h - HEADER] else old(Live(mem[..], blocks))
      ensures FreeWords(mem[..], blocks)
           == old(FreeWords(mem[..], blocks)) + if mem[h].used then old(blocks)[i + 1] - p - HEADER else 0 - HEADER
      ensures mem[h] == old(mem[h]).(next := p)
      ensures Only(old(mem[..]), mem[..], [h, old(blocks)[i + 1]], p, p + HEADER)
    {
      hide Tiles, Ring, FreeBut, ApartBut, Inserted, IsSplit, Live, FreeWords, Only;
      ghost var m := mem[..];
      NextOf(m, blocks, i);
      var next := mem[h].next;
      WriteHeader(p, next, h);
      ghost var m1 := mem[..];
      AddedStep(m, m1, blocks, ring, i, p, pend, loose);
      AddedEffect(m, m1, blocks, i, p);
      Splice(h, p, next);
      blocks := Inserted(blocks, i, p);
    }

    /** The free block at x leaves the block list; the block h before it takes its room. */
    method DropBlock(h: nat, x: nat, ghost i: nat, ghost pend: set<nat>, ghost loose: int)
      requires Midway(mem[..], blocks, ring, pend, loose) && x in pend && (loose == x || loose == h || loose == NULL)
      requires 0 < i < |blocks| - 1 && blocks[i] == x && blocks[i - 1] == h
      requires h < x < mem.Length && mem[x].Item? && !mem[x].used
      modifies mem, this`blocks
      ensures blocks == Removed(old(blocks), i) && Midway(mem[..], blocks, ring, pend, h)
      ensures mem[h] == old(mem[h]).(next := old(blocks)[i + 1])
      ensures Live(mem[..], blocks)
           == if old(mem[h].used) then old(Live(mem[..], blocks))[h := old(blocks)[i + 1] - h - HEADER]
             else old(Live(mem[..], blocks))
      ensures FreeWords(mem[..], blocks)
           == old(FreeWords(mem[..], blocks)) + if old(mem[h].used) then 0 - old(Size(mem[..], x)) else HEADER
      ensures Only(old(mem[..]), mem[..], [h, old(blocks)[i + 1]], 0, 0)
      ensures SameFlags(old(mem[..]), mem[..], blocks, h)
    {
      hide Tiles, Ring, FreeBut, ApartBut, Removed, IsDrop, Live, FreeWords, Only, SameFlags;
      DroppedStep(mem[..], blocks, ring, i, pend, loose);
      DroppedEffect(mem[..], blocks, i);
      Bypass(h, mem[x].next);
      blocks := Removed(blocks, i);
    }

    /** The block list closes around x. */
    method Bypass(h: nat, next: nat)
      requires h < next < mem.Length && mem[h].Item? && mem[next].Item?
      modifies mem
      ensures mem[..] == Dropped(old(mem[..]), h, next)
    {
      mem[h] := mem[h].(next := next);
      mem[next] := mem[next].(prev := h);
    }

    /** The used bit of a block's magic. */
    method Mark(h: nat, u: bool, ghost i: nat, ghost pend: set<nat>)
      requires Midway(mem[..], blocks, ring, pend, h) && i < |blocks| - 1 && blocks[i] == h && h in pend
      modifies mem
      ensures Midway(mem[..], blocks, ring, pend, h)
      ensures Live(mem[..], blocks)
           == if u then old(Live(mem[..], blocks))[h := Size(mem[..], h)] else old(Live(mem[..], blocks)) - {h}
      ensures FreeWords(mem[..], blocks)
           == old(FreeWords(mem[..], blocks)) - old(Own(mem[..], h)) + if u then 0 else Size(mem[..], h)
      ensures mem[h] == old(mem[h]).(used := u)
      ensures Only(old(mem[..]), mem[..], [h], 0, 0)
    {
      ghost var m := mem[..];
      MarkStep(m, blocks, ring, i, u, pend, h);
      hide Midway, Live, FreeWords;
      mem[h] := mem[h].(used := u);
      assert mem[..] == Marked(m, h, u);
    }

    /** The block is in use from now on; that completes the layout. */
    method Take(h: nat, ghost i: nat)
      requires Midway(mem[..], blocks, ring, {h}, h) && i < |blocks| - 1 && blocks[i] == h && h !in ring && !mem[h].used
      modifies mem
      ensures Layout(mem[..], blocks, ring)
      ensures Live(mem[..], blocks) == old(Live(mem[..], blocks))[h := old(Size(mem[..], h))]
      ensures FreeWords(mem[..], blocks) == old(FreeWords(mem[..], blocks)) - old(Size(mem[..], h))
      ensures Only(old(mem[..]), mem[..], [h], 0, 0)
    {
      assert ring[0] == FreeHeader(mem[..]);
      hide FreeBut, ApartBut, Chain, Cycle, Live, FreeWords, Only;
      Mark(h, true, i, {h});
      assert h !in ring[1..];
      Settle(mem[..], blocks, ring, {h}, h, i);
    }

    /** A block leaves the free list and points nowhere. */
    method Withdraw(x: nat, ghost j: nat, ghost pend: set<nat>, ghost loose: int)
      requires Midway(mem[..], blocks, ring, pend, loose) && 0 < j < |ring| && ring[j] == x && x in blocks && x in pend
      modifies mem, this`ring
      ensures Midway(mem[..], blocks, ring, pend, loose) && ring == Removed(old(ring), j) && x !in ring
      ensures Live(mem[..], blocks) == old(Live(mem[..], blocks))
          && FreeWords(mem[..], blocks) == old(FreeWords(mem[..], blocks))
      ensures FreeLinksOnly(old(mem[..]), mem[..], old(ring))
    {
      hide Chain, Cycle, FreeBut, ApartBut, Live, FreeWords, Removed;
      Unlink(x, j, pend, loose);
      ghost var m := mem[..];
      mem[x] := mem[x].(nextFree := NULL, prevFree := NULL);
      RingKept(m, mem[..], ring);
      LinksStep(m, mem[..], blocks, ring, ring, pend, loose, [x]);
      LinksTwice(old(mem[..]), m, mem[..], old(ring), [x], old(ring));
    }

    /** h leaves the free list, and p comes in at its front. */
    method Replace(h: nat, p: nat, ghost j: nat, ghost pend: set<nat>, ghost loose: int)
      requires Midway(mem[..], blocks, ring, pend, loose) && 0 < j < |ring| && ring[j] == h && h in blocks && h in pend
      requires p in blocks && p !in ring && p in pend && !mem[p].used
      modifies mem, this`ring
      ensures Midway(mem[..], blocks, ring, pend - {p}, loose) && h !in ring
      ensures Live(mem[..], blocks) == old(Live(mem[..], blocks))
          && FreeWords(mem[..], blocks) == old(FreeWords(mem[..], blocks))
      ensures FreeLinksOnly(old(mem[..]), mem[..], old(ring) + [p])
    {
      ghost var m, fs := mem[..], ring;
      RemovedLists(fs, j);
      hide Midway, Live, FreeWords, Removed, FreeLinksOnly, Inserted;
      Withdraw(h, j, pend, loose);
      ghost var m1, gs := mem[..], ring;
      SameBlockAt(m, m1, fs, p);
      SplitLists(gs, gs, 0, p);
      LinkFirst(p, pend, loose);
      LinksTwice(m, m1, mem[..], fs, ring, fs + [p]);
    }

    // ---------- rt_memheap_alloc ----------

    /**
     rt_memheap_alloc has nothing for n bytes: no free block has room, or a request for all that is
     available, which is refused even if one block has exactly that size.
     */
    ghost predicate NoRoom(n: int)
      requires Valid()
      reads this, mem
    {
      n == available || !SomeFits(mem[..], blocks, n / 4)
    }

    /** The block at h has room for n bytes, and no block before it on the free list has. */
    ghost predicate FirstFits(h: int, n: int)
      requires Valid()
      reads this, mem
    {
      exists j: nat :: 1 <= j < |ring| && h == ring[j] && ring[j] in ring && Size(mem[..], ring[j]) >= n / 4
                       && NoneFits(mem[..], ring, 1, j, n / 4)
    }

    /** The test against available_size and the search, in terms of what blocks there are. */
    lemma RoomMeans(n: int)
      requires Valid() && n % 4 == 0
      ensures |ring| >= 1 && Headers(mem[..], ring)
      ensures NoRoom(n) <==> n >= available || Search(mem[..], ring, 1, n / 4) == NULL
      ensures Search(mem[..], ring, 1, n / 4) != NULL ==> FirstFits(Search(mem[..], ring, 1, n / 4), n)
    {
      ListHead(mem[..], blocks, ring);
      LayoutTiles(mem[..], blocks, ring);
      hide Layout, Search, MaxOf, Tiles, FreeWords;
      SearchFails(mem[..], blocks, ring, n / 4);
      var j := SearchFinds(mem[..], blocks, ring, 1, n / 4);
      if n > available && SomeFits(mem[..], blocks, n / 4) {
        var b :| b in blocks && b < mem.Length && mem[b].Item? && !mem[b].used && Size(mem[..], b) >= n / 4;
        FreeAtMost(mem[..], blocks, b);
      }
    }

    /** When the request is for all that is available, a block that fits is the only free one, and exactly that long. */
    lemma RefusedFit(b: nat)
      requires Valid() && b in blocks && b < mem.Length && mem[b].Item? && !mem[b].used
          && 4 * Size(mem[..], b) >= available
      ensures 4 * Size(mem[..], b) == available && NoRoom(available)
    {
      LayoutTiles(mem[..], blocks, ring);
      FreeAtMost(mem[..], blocks, b);
    }

    /** The search along the free list. */
    method Find(size: int) returns (header: nat, freeSize: int)
      requires Layout(mem[..], blocks, ring) && size > 0 && size % 4 == 0
      ensures freeSize < size ==> Search(mem[..], ring, 1, size / 4) == NULL
      ensures freeSize >= size ==>
          header == Search(mem[..], ring, 1, size / 4) && header in blocks && header < Tailer(mem[..])
      ensures freeSize >= size ==> mem[header].Item? && !mem[header].used && freeSize == 4 * Size(mem[..], header)
    {
      hide Layout, Search, Headers;
      ghost var m, n, k := mem[..], size / 4, 1;
      ListHead(m, blocks, ring);
      RingNext(m, blocks, ring, 0);
      SearchStep(m, blocks, ring, 1, n);
      freeSize := 0;
      header := mem[mem.Length - 6].nextFree;
      while header != mem.Length - 6 && freeSize < size
        invariant 1 <= k <= |ring| && header == (if k == |ring| then ring[0] else ring[k])
        invariant Headers(m, ring) && Search(m, ring, 1, n) == Search(m, ring, k, n)
        invariant freeSize < size || (k < |ring| && header < mem.Length && mem[header].Item?
            && freeSize == 4 * Size(m, header))
        decreases |ring| - k, size - freeSize
      {
        RingNext(m, blocks, ring, k);
        SearchStep(m, blocks, ring, k, n);
        freeSize := 4 * (mem[header].next - header - HEADER);
        if freeSize < size {
          header := mem[header].nextFree;
          k := k + 1;
        }
      }
      SearchStep(m, blocks, ring, k, n);
      if k < |ring| {
        RingNext(m, blocks, ring, k);
        ListedFree(m, blocks, ring, k);
      }
    }

    /** available_size goes down; max_used_size follows the bytes in use. */
    method Charge(bytes: int)
      modifies this`available, this`maxUsed
      ensures available == old(available) - bytes
      ensures maxUsed == if PoolSize() - available > old(maxUsed) then PoolSize() - available else old(maxUsed)
    {
      available := available - bytes;
      if PoolSize() - available > maxUsed {
        maxUsed := PoolSize() - available;
      }
    }

    /** The block found is split: its front goes into use, a free block takes the rest. */
    method TakeSplit(h: nat, n: nat)
      requires Layout(mem[..], blocks, ring) && h in blocks && h < Tailer(mem[..]) && !mem[h].used
      requires Size(mem[..], h) >= n + HEADER
      modifies mem, this`blocks, this`ring
      ensures Layout(mem[..], blocks, ring) && h !in old(Live(mem[..], blocks))
      ensures Live(mem[..], blocks) == old(Live(mem[..], blocks))[h := n]
      ensures FreeWords(mem[..], blocks) == old(FreeWords(mem[..], blocks)) - n - HEADER
      ensures PayloadsKept(old(mem[..]), mem[..], old(blocks), h)
      ensures FreeAt(mem[..], blocks, h + HEADER + n)
          && SizeAt(mem[..], h + HEADER + n) == old(Size(mem[..], h)) - n - HEADER
    {
      hide Layout, Midway, Live, FreeWords, Inserted, PayloadsKept, FreeLinksOnly, Tiles, Only;
      ghost var m, bs, fs := mem[..], blocks, ring;
      ghost var i, j := Place(m, bs, fs, h);
      NeighboursUsed(m, bs, fs, i);
      ghost var next := bs[i + 1];
      Relax(m, bs, fs, {h}, h);
      var p := h + n + HEADER;
      NewBlock(h, p, i, {h}, h);
      ghost var m1 := mem[..];
      SplitLists(bs, fs, i, p);
      Replace(h, p, j, {h} + {p}, h);
      ghost var m2 := mem[..];
      SameBlockAt(m1, m2, fs + [p], h);
      assert {h} + {p} - {p} == {h};
      SameBlockAt(m1, m2, fs + [p], p);
      Take(h, i);
      TakeTouched(m, m1, m2, mem[..], bs, fs, i, p);
      OnlyOne(m2, mem[..], h, p);
      LayoutTiles(mem[..], blocks, ring);
      Around(mem[..], blocks, i + 1);
      LayoutTiles(m, bs, fs);
      NextOf(m, bs, i);
    }

    /** The block found goes into use as it is. */
    method TakeWhole(h: nat)
      requires Layout(mem[..], blocks, ring) && h in blocks && h < Tailer(mem[..]) && !mem[h].used
      modifies mem, this`ring
      ensures Layout(mem[..], blocks, ring) && h !in old(Live(mem[..], blocks))
      ensures Live(mem[..], blocks) == old(Live(mem[..], blocks))[h := old(Size(mem[..], h))]
      ensures FreeWords(mem[..], blocks) == old(FreeWords(mem[..], blocks)) - old(Size(mem[..], h))
      ensures PayloadsKept(old(mem[..]), mem[..], blocks, h)
    {
      hide Layout, Midway, Live, FreeWords, PayloadsKept, FreeLinksOnly, Tiles, Only;
      ghost var m, fs := mem[..], ring;
      ghost var i, j := Place(m, blocks, fs, h);
      Relax(m, blocks, fs, {h}, h);
      Withdraw(h, j, {h}, h);
      ghost var m1 := mem[..];
      SameBlockAt(m, m1, fs, h);
      Take(h, i);
      HeadersTouched(m, m1, mem[..], blocks, fs, i);
    }

    /**
     At p lies a free block of at least `words` words, and a request for no more than that is not refused unless it
     is for all that is available.
     */
    ghost predicate Spare(p: int, words: int)
      requires Valid()
      reads this, mem
    {
      && FreeAt(mem[..], blocks, p) && SizeAt(mem[..], p) >= words
      && forall n :: n <= 4 * words && n != available ==> !NoRoom(n)
    }

    lemma Serves(p: int, words: int)
      requires Valid() && FreeAt(mem[..], blocks, p) && SizeAt(mem[..], p) >= words
      ensures Spare(p, words)
    {
      hide Layout, FreeWords, MaxOf;
    }

    method Alloc(size: U32) returns (ptr: int)
      requires Valid()
      modifies this, mem
      ensures Valid()
      ensures ptr == NULL <==> old(NoRoom(Request(size)))
      ensures ptr != NULL ==> old(FirstFits(ptr - HEADER, Request(size)))
      ensures ptr == NULL ==>
          mem[..] == old(mem[..]) && Same(old(blocks), old(ring), old(available), old(maxUsed), old(history))
      ensures ptr != NULL ==> ptr - HEADER == old(Search(mem[..], ring, 1, Request(size) / 4))
      ensures ptr != NULL ==>
          Took(old(mem[..]), old(blocks), mem[..], blocks, ptr - HEADER, SizeAt(mem[..], ptr - HEADER))
      // the request exactly if a block can be made of what is left, otherwise all of the block found
      ensures ptr != NULL ==>
        var n, found, got := Request(size), 4 * SizeAt(old(mem[..]), ptr - HEADER), 4 * SizeAt(mem[..], ptr - HEADER);
        && got == (if found >= n + 4 * HEADER + MINIALLOC then n else found)
        && n <= got < n + 4 * HEADER + MINIALLOC
      // what is left of the block found is free and serves the next request
      ensures ptr != NULL ==>
        var found, got := SizeAt(old(mem[..]), ptr - HEADER), SizeAt(mem[..], ptr - HEADER);
        got < found ==> Spare(ptr + got, found - got - HEADER)
      ensures old(history) <= history
    {
      hide Layout, Live, FreeWords, PayloadsKept, Tiles, Headers, Search, MaxOf, Request, NoRoom, FirstFits;
      RequestSize(size);
      RoomMeans(Request(size));
      ptr := NULL;
      ghost var m, bs := mem[..], blocks;
      var n := Request(size);
      if n < available {
        var header, freeSize := Find(n);
        if freeSize >= n {
          if freeSize >= n + 4 * HEADER + MINIALLOC {
            TakeSplit(header, n / 4);
            Charge(n + 4 * HEADER);
            TookSize(m, bs, mem[..], blocks, header, n / 4);
          } else {
            TakeWhole(header);
            Charge(freeSize);
            TookSize(m, bs, mem[..], blocks, header, freeSize / 4);
          }
          Log();
          ptr := header + HEADER;
          if freeSize >= n + 4 * HEADER + MINIALLOC {
            Serves(ptr + n / 4, freeSize / 4 - n / 4 - HEADER);
          }
        }
      }
    }

    ghost predicate Same(bs: seq<nat>, fs: seq<nat>, avail: int, used: int, log: seq<int>)
      reads this
    {
      blocks == bs && ring == fs && available == avail && maxUsed == used && history == log
    }

    /** The end of an operation in the ghost log. */
    ghost method Log()
      requires history != []
      requires maxUsed == if PoolSize() - available > MaxOf(history) then PoolSize() - available else MaxOf(history)
      modifies this`history
      ensures history == old(history) + [PoolSize() - available] && maxUsed == MaxOf(history)
    {
      ghost var longer := history + [PoolSize() - available];
      assert longer[..|longer| - 1] == history;
      history := longer;
    }

    // ---------- rt_memheap_free ----------

    /** Merge the freed block at h with a free block before it; g is the block that results. */
    method MergeLeft(h: nat, ghost i: nat) returns (g: nat, insertHeader: bool, ghost k: nat)
      requires Midway(mem[..], blocks, ring, {h}, h) && h !in ring
      requires i < |blocks| - 1 && blocks[i] == h && mem[h].Item? && !mem[h].used
      modifies this`available, this`blocks, mem
      ensures k < |blocks| - 1 && blocks[k] == g < mem.Length && mem[g].Item? && !mem[g].used
      ensures Midway(mem[..], blocks, ring, if insertHeader then {g} else {}, g) && (insertHeader ==> g !in ring)
      ensures k > 0 ==> blocks[k - 1] < mem.Length && mem[blocks[k - 1]].Item? && mem[blocks[k - 1]].used
      ensures Live(mem[..], blocks) == old(Live(mem[..], blocks))
      ensures available - 4 * FreeWords(mem[..], blocks) == old(available - 4 * FreeWords(mem[..], blocks))
          && available >= old(available)
      ensures Only(old(mem[..]), mem[..], old(blocks), 0, 0)
      ensures forall b :: b in blocks ==> b in old(blocks)
    {
      hide Midway, Tiles, Ring, Live, FreeWords, Removed, IsDrop, Distinct, Only, SameFlags;
      Fits(mem[..], blocks, ring, {h}, h);
      OnlySelf(mem[..], blocks, 0, 0);
      g, insertHeader, k := h, true, i;
      Around(mem[..], blocks, i);
      TailerUsed(mem[..], blocks);
      if i > 0 {
        Around(mem[..], blocks, i - 1);
      }
      if !mem[mem[h].prev].used {
        available := available + 4 * HEADER;
        g := mem[h].prev;
        ghost var bs := blocks;
        if i > 1 {
          PairUsed(mem[..], bs, ring, {h}, h, i - 2);
        }
        ghost var m := mem[..];
        DropBlock(g, h, i, {h}, h);
        RemovedNeighbours(bs, i);
        OnlyThese(m, m, mem[..], bs, 0, 0, [g, bs[i + 1]], 0, 0);
        if i > 1 {
          SameFlagsAt(m, mem[..], blocks, g, blocks[i - 2]);
        }
        Forget(mem[..], blocks, ring, {h}, g, h);
        assert {h} - {h} == {};
        insertHeader, k := false, i - 1;
      }
    }

    /** The free block behind h leaves both lists: h takes its room. */
    method Absorb(h: nat, next: nat, ghost i: nat, ghost pend: set<nat>, ghost loose: int)
      requires Midway(mem[..], blocks, ring, pend, loose) && (loose == h || loose == NULL)
          && forall x :: x in pend ==> x in blocks
      requires i < |blocks| - 1 && blocks[i] == h < mem.Length && mem[h].Item?
      requires blocks[i + 1] == next < mem.Length && mem[next].Item? && !mem[next].used && next !in pend
      modifies this`blocks, this`ring, mem
      ensures Midway(mem[..], blocks, ring, pend, h) && (h !in old(ring) ==> h !in ring)
      ensures |old(blocks)| > i + 2 && blocks == Removed(old(blocks), i + 1)
      ensures SameFlags(old(mem[..]), mem[..], blocks, h)
      ensures mem[h].Item? && mem[h].used == old(mem[h].used) && mem[h].next == old(blocks)[i + 2]
      ensures Live(mem[..], blocks)
           == if mem[h].used then old(Live(mem[..], blocks))[h := mem[h].next - h - HEADER]
             else old(Live(mem[..], blocks))
      ensures FreeWords(mem[..], blocks)
           == old(FreeWords(mem[..], blocks)) + if mem[h].used then 0 - old(Size(mem[..], next)) else HEADER
      ensures Only(old(mem[..]), mem[..], old(blocks), 0, 0)
    {
      hide Midway, Live, FreeWords, Removed, Distinct, FreeLinksOnly, Only, SameFlags, Tiles, Ring;
      ghost var m, bs, fs, both := mem[..], blocks, ring, pend + {next};
      Fits(m, bs, fs, pend, loose);
      Around(m, bs, i);
      Around(m, bs, i + 1);
      ghost var j := OnList(m, bs, fs, pend, loose, next);
      Exempt(m, bs, fs, pend, loose, next);
      DropBlock(h, next, i + 1, both, loose);
      RemovedNeighbours(bs, i + 1);
      ghost var m1 := mem[..];
      RemovedLists(fs, j);
      Unlink(next, j, both, h);
      FlagsThroughLinks(m, m1, mem[..], blocks, h, fs);
      MergeTouched(m, m1, mem[..], bs, fs, pend, loose, h, bs[i + 2]);
      Forget(mem[..], blocks, ring, both, h, next);
      assert both - {next} == pend;
    }

    /** Merge the free block at h with a free block behind it. */
    method MergeRight(h: nat, ghost i: nat, ghost pend: set<nat>)
      requires Midway(mem[..], blocks, ring, pend, h) && pend <= {h}
      requires i < |blocks| - 1 && blocks[i] == h < mem.Length && mem[h].Item? && !mem[h].used
      requires i > 0 ==> blocks[i - 1] < mem.Length && mem[blocks[i - 1]].Item? && mem[blocks[i - 1]].used
      modifies this`available, this`blocks, this`ring, mem
      ensures Midway(mem[..], blocks, ring, pend, h) && (h !in old(ring) ==> h !in ring)
      ensures i < |blocks| - 1 && blocks[i] == h && mem[h].Item? && !mem[h].used
      ensures i > 0 ==> blocks[i - 1] < mem.Length && mem[blocks[i - 1]].Item? && mem[blocks[i - 1]].used
      ensures blocks[i + 1] < mem.Length && mem[blocks[i + 1]].Item? && mem[blocks[i + 1]].used
      ensures forall b :: b in blocks ==> b in old(blocks)
      ensures Live(mem[..], blocks) == old(Live(mem[..], blocks))
      ensures available - 4 * FreeWords(mem[..], blocks) == old(available - 4 * FreeWords(mem[..], blocks))
          && available >= old(available)
      ensures Only(old(mem[..]), mem[..], old(blocks), 0, 0)
    {
      hide Midway, Live, FreeWords, Removed, Distinct, FreeLinksOnly, Only, SameFlags, Tiles, Ring;
      Fits(mem[..], blocks, ring, pend, h);
      Around(mem[..], blocks, i);
      Around(mem[..], blocks, i + 1);
      OnlySelf(mem[..], blocks, 0, 0);
      var next := mem[h].next;
      if !mem[next].used {
        available := available + 4 * HEADER;
        ghost var m, bs := mem[..], blocks;
        Around(m, bs, i + 2);
        PairUsed(m, bs, ring, pend, h, i + 1);
        Absorb(h, next, i, pend, h);
        RemovedNeighbours(bs, i + 1);
        SameFlagsAt(m, mem[..], blocks, h, blocks[i + 1]);
        if i > 0 {
          SameFlagsAt(m, mem[..], blocks, h, blocks[i - 1]);
        }
      }
    }

    /** A block that was not merged into the one before it goes to the free list. */
    method InsertHeader(g: nat, insertHeader: bool, ghost k: nat)
      requires Midway(mem[..], blocks, ring, if insertHeader then {g} else {}, g) && (insertHeader ==> g !in ring)
      requires k < |blocks| - 1 && blocks[k] == g < mem.Length && mem[g].Item? && !mem[g].used
      requires k > 0 ==> blocks[k - 1] < mem.Length && mem[blocks[k - 1]].Item? && mem[blocks[k - 1]].used
      requires blocks[k + 1] < mem.Length && mem[blocks[k + 1]].Item? && mem[blocks[k + 1]].used
      modifies this`ring, mem
      ensures Layout(mem[..], blocks, ring)
      ensures Live(mem[..], blocks) == old(Live(mem[..], blocks))
          && FreeWords(mem[..], blocks) == old(FreeWords(mem[..], blocks))
      ensures FreeLinksOnly(old(mem[..]), mem[..], ring)
    {
      hide Midway, Layout, Live, FreeWords, FreeLinksOnly, Inserted;
      ghost var m := mem[..];
      NoLinks(m, ring);
      if insertHeader {
        LinkFirst(g, {g}, g);
        assert {g} - {g} == {};
      }
      SameBlockAt(m, mem[..], ring, g);
      SameBlockAt(m, mem[..], ring, blocks[k + 1]);
      if k > 0 {
        SameBlockAt(m, mem[..], ring, blocks[k - 1]);
      }
      Settle(mem[..], blocks, ring, {}, g, k);
    }

    method Free(ptr: int)
      requires Valid() && (ptr == NULL || (ptr >= HEADER && ptr - HEADER in Live(mem[..], blocks)))
      modifies this, mem
      ensures Valid() && old(history) <= history
      ensures ptr == NULL ==>
          mem[..] == old(mem[..]) && Same(old(blocks), old(ring), old(available), old(maxUsed), old(history))
      ensures ptr != NULL ==> Live(mem[..], blocks) == old(Live(mem[..], blocks)) - {ptr - HEADER}
      ensures ptr != NULL ==> PayloadsKept(old(mem[..]), mem[..], old(blocks), ptr - HEADER)
      ensures maxUsed == old(maxUsed)
    {
      hide Midway, Layout, Live, FreeWords, Only, FreeLinksOnly, MaxOf, PayloadsKept;
      if ptr != NULL {
        var h := ptr - HEADER;
        ghost var m, bs, fs := mem[..], blocks, ring;
        LiveBlock(m, bs, h);
        ghost var i, j := Place(m, bs, fs, h);
        Relax(m, bs, fs, {h}, h);
        Mark(h, false, i, {h});
        available := available + 4 * (mem[h].next - h - HEADER);
        ghost var m1 := mem[..];
        var g, insertHeader;
        ghost var k;
        g, insertHeader, k := MergeLeft(h, i);
        ghost var m2, cs := mem[..], blocks;
        MergeRight(g, k, if insertHeader then {g} else {});
        ghost var m3 := mem[..];
        InsertHeader(g, insertHeader, k);
        Listed(mem[..], blocks, ring);
        FreeTouched(m, m1, m2, m3, mem[..], bs, cs, blocks, fs, ring, i);
        LastOf(history);
        Log();
      }
    }

    // ---------- rt_memheap_realloc ----------

    /** The free block behind h gives up its front: h grows in place to n words. */
    method Grow(h: nat, n: nat)
      requires Layout(mem[..], blocks, ring) && h in Live(mem[..], blocks) && mem[h].Item?
      requires 0 <= mem[h].next < mem.Length && mem[mem[h].next].Item? && !mem[mem[h].next].used
      requires Size(mem[..], h) < n && n + 3 < Size(mem[..], h) + Size(mem[..], mem[h].next)
      modifies this`blocks, this`ring, mem
      ensures Layout(mem[..], blocks, ring)
      ensures Live(mem[..], blocks) == old(Live(mem[..], blocks))[h := n]
      ensures FreeWords(mem[..], blocks) == old(FreeWords(mem[..], blocks)) - (n - old(Size(mem[..], h)))
      ensures PayloadsKept(old(mem[..]), mem[..], old(blocks), NULL)
    {
      hide Midway, Layout, Live, FreeWords, Only, FreeLinksOnly, PayloadsKept, Removed, Inserted, SameFlags, Tiles,
        Ring, Distinct;
      ghost var m, bs, fs := mem[..], blocks, ring;
      LiveBlock(m, bs, h);
      ghost var i, j := Place(m, bs, fs, h);
      Relax(m, bs, fs, {}, NULL);
      Fits(m, bs, fs, {}, NULL);
      var next := mem[h].next;
      ghost var k := i + 1;
      Around(m, bs, k);
      FreeBlock(m, bs, k);
      NeighboursUsed(m, bs, fs, k);
      NextOf(m, bs, k);
      ghost var next2 := bs[k + 1];
      Absorb(h, next, i, {}, NULL);
      ghost var m1, cs := mem[..], blocks;
      RemovedNeighbours(bs, k);
      SameFlagsAt(m, m1, cs, h, next2);
      var p := h + HEADER + n;
      NewBlock(h, p, i, {}, h);
      ghost var m2 := mem[..];
      Fits(m1, cs, ring, {}, h);
      SplitLists(cs, ring, i, p);
      assert {} + {p} == {p};
      LinkFirst(p, {p}, h);
      SameBlockAt(m2, mem[..], ring, h);
      assert {p} - {p} == {};
      Settle(mem[..], blocks, ring, {}, h, i);
      Listed(mem[..], blocks, ring);
      ReshapeTouched(m, m1, m2, mem[..], bs, bs, [h, next2], ring, next, next2, p);
      FreeRoomTouched(m, mem[..], bs, fs, k);
    }

    /** The block at h gives up its tail: it shrinks in place to n words. */
    method Shrink(h: nat, n: nat)
      requires Layout(mem[..], blocks, ring) && h in Live(mem[..], blocks) && mem[h].Item?
      requires n + HEADER + 3 < Size(mem[..], h)
      modifies this`blocks, this`ring, this`available, mem
      ensures Layout(mem[..], blocks, ring)
      ensures Live(mem[..], blocks) == old(Live(mem[..], blocks))[h := n]
      ensures available - 4 * FreeWords(mem[..], blocks) == old(available - 4 * FreeWords(mem[..], blocks))
          && available >= old(available)
      ensures PayloadsKept(old(mem[..]), mem[..], old(blocks), h)
      ensures forall k: nat :: h < k < h + HEADER + n ==> k < mem.Length && mem[k] == old(mem[k])
    {
      hide Midway, Layout, Live, FreeWords, Only, FreeLinksOnly, PayloadsKept, Removed, Inserted, SameFlags, Tiles,
        Ring, Distinct;
      ghost var m, bs, fs := mem[..], blocks, ring;
      LiveBlock(m, bs, h);
      ghost var i, j := Place(m, bs, fs, h);
      ghost var next := bs[i + 1];
      var p := h + HEADER + n;
      Relax(m, bs, fs, {}, p);
      Fits(m, bs, fs, {}, p);
      NewBlock(h, p, i, {}, p);
      ghost var m1, cs := mem[..], blocks;
      SplitLists(bs, ring, i, p);
      assert {} + {p} == {p};
      Fits(m1, cs, ring, {p}, p);
      Around(m1, cs, i + 1);
      Around(m1, cs, i + 2);
      ghost var hs, k := i + 1, i + 2;
      OnlySelf(m1, cs, 0, 0);
      var right := mem[p].next;
      if !mem[right].used {
        available := available - 4 * (mem[right].next - right - HEADER);
        Around(m1, cs, i + 3);
        PairUsed(m1, cs, ring, {p}, p, k);
        Absorb(p, right, hs, {p}, p);
        RemovedNeighbours(cs, k);
        SameFlagsAt(m1, mem[..], blocks, p, h);
        SameFlagsAt(m1, mem[..], blocks, p, blocks[k]);
      }
      ghost var m2, ds := mem[..], blocks;
      LinkFirst(p, {p}, p);
      assert {p} - {p} == {};
      SameBlockAt(m2, mem[..], ring, p);
      SameBlockAt(m2, mem[..], ring, h);
      SameBlockAt(m2, mem[..], ring, ds[k]);
      Settle(mem[..], blocks, ring, {}, p, hs);
      Listed(mem[..], blocks, ring);
      ShrinkTouched(m, m1, m2, mem[..], bs, fs, cs, ring, i, p);
      available := available + 4 * (mem[p].next - p - HEADER);
    }

    /** rt_memcpy from one block to another. */
    method CopyWords(to: nat, from: nat, count: nat)
      requires to + count <= mem.Length && from + count <= mem.Length && (from + count <= to || to + count <= from)
      modifies mem
      ensures forall k :: to <= k < to + count ==> mem[k] == old(mem[from + (k - to)])
      ensures forall k :: 0 <= k < mem.Length && !(to <= k < to + count) ==> mem[k] == old(mem[k])
    {
      for i := 0 to count
        invariant forall k :: to <= k < to + i ==> mem[k] == old(mem[from + (k - to)])
        invariant forall k :: 0 <= k < mem.Length && !(to <= k < to + i) ==> mem[k] == old(mem[k])
      {
        mem[to + i] := mem[from + i];
      }
    }

    /** A block that went to g, or stayed there, leaves a spare one behind in the room up to e. */
    lemma Remains(m: seq<Word>, bs: seq<nat>, fs: seq<nat>, h: nat, g: nat, got: int, e: int)
      requires Valid() && Layout(m, bs, fs) && |m| == mem.Length && Moved(m, bs, mem[..], blocks, h, g, got)
      requires got >= 0 && g + HEADER + got < e <= Tailer(m)
      requires forall b :: b in Live(m, bs) && b > g ==> b >= e
      ensures SizeAt(mem[..], g) == got && Spare(g + HEADER + got, e - g - got - 2 * HEADER)
    {
      hide Layout, FreeWords, MaxOf, Live, Moved, Spare;
      MovedGap(m, bs, mem[..], blocks, h, g, got, e);
      MovedSize(m, bs, mem[..], blocks, h, g, got);
      RestIsFree(mem[..], blocks, ring, g, e);
      Serves(g + HEADER + got, e - g - got - 2 * HEADER);
    }

    /** The contents go from the block at h to the one just made at g, and h is freed. */
    method Relocate(h: nat, g: nat, oldsize: nat, ghost m0: seq<Word>, ghost bs0: seq<nat>, ghost got: int)
      requires Valid() && h in Live(m0, bs0) && Live(m0, bs0)[h] == oldsize <= got
      requires Took(m0, bs0, mem[..], blocks, g, got)
      modifies this, mem
      ensures Valid() && old(history) <= history
      ensures Moved(m0, bs0, mem[..], blocks, h, g, got)
    {
      hide Layout, Live, FreeWords, PayloadsKept, MaxOf;
      ghost var m1, bs1 := mem[..], blocks;
      Rooms(m1, bs1, ring, h, g);
      LiveBlock(m1, bs1, g);
      CopyWords(g + HEADER, h + HEADER, oldsize);
      ghost var m2 := mem[..];
      PayloadWritten(m1, m2, bs1, ring, g);
      Free(h + HEADER);
      MoveDone(m0, bs0, m1, bs1, m2, mem[..], blocks, h, g, got, oldsize);
    }

    /** The block moves: a new one, its contents copied, the old one freed. */
    method Move(h: nat, size: U32) returns (r: int)
      requires Valid() && h in Live(mem[..], blocks) && Size(mem[..], h) * 4 < Request(size)
      modifies this, mem
      ensures Valid() && old(history) <= history
      ensures r == NULL ==>
          mem[..] == old(mem[..]) && Same(old(blocks), old(ring), old(available), old(maxUsed), old(history))
      ensures r == NULL <==> old(NoRoom(Request(size)))
      ensures r != NULL ==> r - HEADER == old(Search(mem[..], ring, 1, Request(size) / 4))
      ensures r != NULL ==>
        var n, found, got := Request(size), 4 * SizeAt(old(mem[..]), r - HEADER), 4 * SizeAt(mem[..], r - HEADER);
        && got == (if found >= n + 4 * HEADER + MINIALLOC then n else found)
        && n <= got < n + 4 * HEADER + MINIALLOC
      ensures r != NULL ==>
        var found, got := SizeAt(old(mem[..]), r - HEADER), SizeAt(mem[..], r - HEADER);
        got < found ==> Spare(r + got, found - got - HEADER)
      ensures r != NULL ==>
          Moved(old(mem[..]), old(blocks), mem[..], blocks, h, r - HEADER, SizeAt(mem[..], r - HEADER))
    {
      hide Layout, Live, FreeWords, PayloadsKept, Search, MaxOf, Request, NoRoom, FirstFits, Moved, Spare;
      ghost var m, bs, fs := mem[..], blocks, ring;
      LiveBlock(m, bs, h);
      ghost var i, j := Place(m, bs, fs, h);
      RequestSize(size);
      var oldsize := mem[h].next - h - HEADER;
      r := Alloc(size);
      if r != NULL {
        ghost var g, got := r - HEADER, SizeAt(mem[..], r - HEADER);
        Relocate(h, r - HEADER, oldsize, m, bs, got);
        MovedSize(m, bs, mem[..], blocks, h, g, got);
        if got < SizeAt(m, g) {
          ListHead(m, bs, fs);
          FoundBetween(m, bs, fs, Request(size) / 4);
          Remains(m, bs, fs, h, g, got, m[g].next);
        }
      }
    }

    /** The block behind h is free. */
    ghost predicate FreeBehind(h: nat)
      reads this, mem
    {
      h < mem.Length && mem[h].Item? && 0 <= mem[h].next < mem.Length && mem[mem[h].next].Item?
        && !mem[mem[h].next].used
    }

    /** The block behind h is free, and large enough for h to grow to n bytes and leave a block. */
    ghost predicate CanGrow(h: nat, n: int)
      reads this, mem
    {
      FreeBehind(h) && 4 * SizeAt(mem[..], mem[h].next) + 4 * SizeAt(mem[..], h) > n + MINIALLOC
    }

    /** Growth in place, if the block behind has what it takes. */
    method GrowIfRoom(h: nat, n: int) returns (done: bool)
      requires Valid() && h in Live(mem[..], blocks) && 4 * Live(mem[..], blocks)[h] < n < 0x1_0000_0000 && n % 4 == 0
      requires FreeBehind(h) ==> n + MINIALLOC < 0x1_0000_0000
      modifies this, mem
      ensures Valid() && old(history) <= history && done == old(CanGrow(h, n))
      ensures !done ==> mem[..] == old(mem[..]) && Same(old(blocks), old(ring), old(available), old(maxUsed),
          old(history))
      ensures done ==> SizeAt(mem[..], h) == n / 4 && Moved(old(mem[..]), old(blocks), mem[..], blocks, h, h, n / 4)
      ensures done ==>
        var have := SizeAt(old(mem[..]), h);
        Spare(h + HEADER + n / 4, have + SizeAt(old(mem[..]), h + HEADER + have) - n / 4)
    {
      hide Layout, Live, FreeWords, PayloadsKept, MaxOf, Moved, PayloadAt, Spare;
      ghost var m, bs, fs := mem[..], blocks, ring;
      done := HasRoom(h, n);
      if done {
        var oldsize := 4 * (mem[h].next - h - HEADER);
        Grow(h, n / 4);
        Charge(n - oldsize);
        Log();
        WholePayloadKept(m, mem[..], bs, h);
        StayDone(m, bs, mem[..], blocks, h, n / 4);
        LiveBlock(m, bs, h);
        RoomBehind(m, bs, fs, h, m[h].next);
        Remains(m, bs, fs, h, h, n / 4, m[m[h].next].next);
      }
    }

    /** The block behind is not in use, and the guard holds. */
    method HasRoom(h: nat, n: int) returns (b: bool)
      requires Valid() && h in Live(mem[..], blocks) && 4 * Live(mem[..], blocks)[h] < n < 0x1_0000_0000 && n % 4 == 0
      requires FreeBehind(h) ==> n + MINIALLOC < 0x1_0000_0000
      ensures b == CanGrow(h, n)
      ensures h < mem.Length && mem[h].Item? && Live(mem[..], blocks)[h] == Size(mem[..], h) >= 0
    {
      hide Layout, Live, FreeWords, MaxOf;
      LiveBlock(mem[..], blocks, h);
      ghost var i, j := Place(mem[..], blocks, ring, h);
      LayoutTiles(mem[..], blocks, ring);
      var oldsize := 4 * (mem[h].next - h - HEADER);
      var next := mem[h].next;
      b := false;
      if !mem[next].used {
        FreeBlock(mem[..], blocks, i + 1);
        NextOf(mem[..], blocks, i + 1);
        var nextsize := 4 * (mem[next].next - next - HEADER);
        assert FreeBehind(h) && nextsize + oldsize < PoolSize();
        b := GrowGuard(nextsize, oldsize, n);
      }
    }

    /** The block gives up what a block of its own can be made of. */
    method ShrinkIfWorth(h: nat, n: int, oldsize: int)
      requires Valid() && h in Live(mem[..], blocks) && oldsize == 4 * Live(mem[..], blocks)[h]
      requires MINIALLOC <= n <= oldsize && n % 4 == 0
      modifies this, mem
      ensures Valid() && old(history) <= history
      ensures 4 * SizeAt(old(mem[..]), h) == oldsize
      ensures SizeAt(mem[..], h) == if n + 4 * HEADER + MINIALLOC >= oldsize then oldsize / 4 else n / 4
      ensures Moved(old(mem[..]), old(blocks), mem[..], blocks, h, h, SizeAt(mem[..], h))
      ensures 4 * SizeAt(mem[..], h) < oldsize ==> Spare(h + HEADER + n / 4, oldsize / 4 - n / 4 - HEADER)
    {
      hide Layout, Live, FreeWords, PayloadsKept, MaxOf, Moved, PayloadAt, Spare;
      ghost var m, bs, fs := mem[..], blocks, ring;
      LiveBlock(m, bs, h);
      NoneBetween(m, bs, fs, h, m[h].next);
      if n + 4 * HEADER + MINIALLOC >= oldsize {
        Unmoved(m, bs, fs, h);
        return;
      }
      Shrink(h, n / 4);
      LastOf(history);
      Log();
      PrefixStays(m, mem[..], h, n / 4);
      StayDone(m, bs, mem[..], blocks, h, n / 4);
      Remains(m, bs, fs, h, h, n / 4, m[h].next);
    }

    method Realloc(ptr: int, newsize: U32) returns (r: int)
      requires Valid() && (ptr == NULL || (ptr >= HEADER && ptr - HEADER in Live(mem[..], blocks)))
      requires ptr != NULL && newsize != 0 && FreeBehind(ptr - HEADER) ==> Request(newsize) + MINIALLOC < 0x1_0000_0000
      modifies this, mem
      ensures Valid() && old(history) <= history
      ensures newsize == 0 ==> r == NULL
      ensures newsize == 0 && ptr != NULL ==> Live(mem[..], blocks) == old(Live(mem[..], blocks)) - {ptr - HEADER}
                                              && PayloadsKept(old(mem[..]), mem[..], old(blocks), ptr - HEADER)
      ensures (newsize == 0 && ptr == NULL) || (newsize != 0 && r == NULL) ==>
        mem[..] == old(mem[..]) && Same(old(blocks), old(ring), old(available), old(maxUsed), old(history))
      ensures newsize != 0 && ptr == NULL ==> (r == NULL <==> old(NoRoom(Request(newsize))))
      ensures newsize != 0 && ptr == NULL && r != NULL ==>
          r - HEADER == old(Search(mem[..], ring, 1, Request(newsize) / 4))
      ensures newsize != 0 && ptr == NULL && r != NULL ==>
          Took(old(mem[..]), old(blocks), mem[..], blocks, r - HEADER, SizeAt(mem[..], r - HEADER))
      ensures newsize != 0 && ptr != NULL && r != NULL ==>
        && SizeAt(mem[..], r - HEADER) >= Request(newsize) / 4
        && Moved(old(mem[..]), old(blocks), mem[..], blocks, ptr - HEADER, r - HEADER, SizeAt(mem[..], r - HEADER))
      // in place if the block is long enough or can grow, otherwise moved to the first fit
      ensures newsize != 0 && ptr != NULL ==>
        var n, have := Request(newsize), 4 * old(SizeAt(mem[..], ptr - HEADER));
        if n <= have then
          r == ptr && SizeAt(mem[..], ptr - HEADER) == if n + 4 * HEADER + MINIALLOC >= have then have / 4 else n / 4
        else if old(CanGrow(ptr - HEADER, n)) then
          r == ptr && SizeAt(mem[..], ptr - HEADER) == n / 4
        else
          && (r == NULL <==> old(NoRoom(n)))
          && (r != NULL ==> r - HEADER == old(Search(mem[..], ring, 1, n / 4)))
      // a block that is new is as long as asked for if a block can be made of what is left of the one found,
      // otherwise all of that one
      ensures newsize != 0 && r != NULL && r != ptr ==>
        var n, found, got := Request(newsize), 4 * SizeAt(old(mem[..]), r - HEADER), 4 * SizeAt(mem[..], r - HEADER);
        && got == (if found >= n + 4 * HEADER + MINIALLOC then n else found)
        && n <= got < n + 4 * HEADER + MINIALLOC
      // what a block leaves of the room it is in is free and serves the next request
      ensures newsize != 0 && r != NULL ==>
        var found, got := SizeAt(old(mem[..]), r - HEADER), SizeAt(mem[..], r - HEADER);
        && (got < found ==> Spare(r + got, found - got - HEADER))
        && (got > found ==> Spare(r + got, found + SizeAt(old(mem[..]), r + found) - got))
    {
      hide Layout, Live, FreeWords, PayloadsKept, Search, MaxOf, Request, Took, Moved, PayloadAt, SomeFits,
        FirstFits, Spare;
      if newsize == 0 {
        Free(ptr);
        return NULL;
      }
      RequestSize(newsize);
      var n := Request(newsize);
      RequestTwice(newsize);
      if ptr == NULL {
        r := Alloc(n);
        return;
      }
      var h := ptr - HEADER;
      ghost var m, bs, fs := mem[..], blocks, ring;
      LiveBlock(m, bs, h);
      ghost var i, j := Place(m, bs, fs, h);
      var oldsize := 4 * (mem[h].next - h - HEADER);
      LayoutTiles(m, bs, fs);
      if n > oldsize {
        var done := GrowIfRoom(h, n);
        if done {
          r := ptr;
        } else {
          r := Move(h, n);
        }
        return;
      }
      r := ptr;
      ShrinkIfWorth(h, n, oldsize);
    }

    // ---------- rt_memheap_init, and users writing to their blocks ----------

    /** The pool's words are in `pool`, followed by the list header that memheap keeps in its control block. */
    constructor (pool: array<Word>, size: U32)
      requires pool.Length == size / 4 + 6 && size >= 8 * HEADER
      modifies pool
      ensures mem == pool && Valid() && Live(mem[..], blocks) == map[] && available == PoolSize() - 8 * HEADER
      ensures history == [8 * HEADER]
    {
      mem := pool;
      available := size / 4 * 4 - 8 * HEADER;
      maxUsed := 8 * HEADER;
      blocks, ring := [0, size / 4 - 6], [size / 4, 0];
      history := [8 * HEADER];
      new;
      var list := mem.Length - 6;
      mem[list] := Item(false, NULL, NULL, list, list);
      var tail := available / 4 + HEADER;
      mem[0] := Item(false, tail, tail, 0, 0);
      mem[0] := mem[0].(nextFree := mem[list].nextFree, prevFree := list);
      mem[mem[list].nextFree] := mem[mem[list].nextFree].(prevFree := 0);
      mem[list] := mem[list].(nextFree := 0);
      mem[tail] := Item(true, 0, 0, NULL, NULL);
      InitialLayout(mem[..]);
    }

    /** A user stores v in word k of a block. */
    method Write(ptr: nat, k: nat, v: int)
      requires Valid() && ptr >= HEADER && ptr - HEADER in Live(mem[..], blocks)
          && k < Live(mem[..], blocks)[ptr - HEADER]
      modifies mem
      ensures Valid() && Live(mem[..], blocks) == old(Live(mem[..], blocks))
      ensures ptr + k < mem.Length && mem[ptr + k] == Data(v)
      ensures forall j :: 0 <= j < mem.Length && j != ptr + k ==> mem[j] == old(mem[j])
    {
      hide Layout, FreeWords, MaxOf;
      ghost var m, h := mem[..], ptr - HEADER;
      InsideAt(m, blocks, h, k);
      ghost var i, j := Place(m, blocks, ring, h);
      mem[ptr + k] := Data(v);
      PayloadWritten(m, mem[..], blocks, ring, h);
    }
  }

  /**
   Whatever was allocated, moved and freed: with nothing in use the pool is the one block of rt_memheap_init
   again.
   */
  lemma FreeingAllRestores(h: Heap)
    requires h.Valid() && Live(h.mem[..], h.blocks) == map[]
    ensures h.blocks == [0, h.mem.Length - 12] && h.ring == [h.mem.Length - 6, 0]
        && h.available == h.PoolSize() - 8 * HEADER
  {
    AllFree(h.mem[..], h.blocks, h.ring);
  }

  /** max_used_size is the high-water mark: no state so far used more, and one state used that much. */
  lemma {:induction false} HighWaterMark(log: seq<int>)
    requires log != []
    ensures (forall i :: 0 <= i < |log| ==> log[i] <= MaxOf(log)) && MaxOf(log) in log
  {
    if |log| > 1 {
      var front := log[..|log| - 1];
      HighWaterMark(front);
      assert log == front + [log[|log| - 1]];
    }
  }
}
