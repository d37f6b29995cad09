/**
 mem.c: the small memory allocator, first fit over offset-linked blocks from the lowest free one on.
 Each call runs under the heap's semaphore, so calls are atomic.
 */
module SmallMem {
  import opened Widths
  import opened Lists
  import opened SmallMemBlocks
  import B = MemHeapBlocks

  const MIN_SIZE: int := 12

  /** RT_ALIGN(size, 4) in 32 bits */
  function Align(size: U32): int { (size + 3) % 0x1_0000_0000 / 4 * 4 }

  /** What rt_malloc looks for: the aligned size, at least MIN_SIZE_ALIGNED. */
  function Rounded(size: U32): int { if Align(size) < MIN_SIZE then MIN_SIZE else Align(size) }

  lemma Aligned(size: U32)
    ensures 0 <= Align(size) < 0x1_0000_0000 && Align(size) % 4 == 0 && Align(size) < size + 4
    ensures Align(size) >= size <==> size <= 0xffff_fffc
  {
  }

  class Heap {
    const mem: array<Word>
    var lfree: nat
    var usedMem: int
    var maxMem: int
    ghost var blocks: seq<nat>

    /** mem_size_aligned */
    function Space(): int { 4 * (mem.Length - 6) }

    ghost predicate Valid()
      reads this, mem
    {
      && Layout(mem[..], blocks) && AtFree(mem[..], blocks, lfree) && usedMem == 4 * UsedWords(mem[..], blocks)
      && MIN_SIZE <= Space() < 0x1_0000_0000 - 24
    }

    /** The hint is right: lfree is the lowest free block. */
    ghost predicate Hint()
      reads this, mem
    {
      Lowest(mem[..], blocks, lfree)
    }

    /** rt_system_heap_init on memory of the aligned size plus two headers */
    constructor (memory: array<Word>)
      requires memory.Length >= 9 && 4 * memory.Length < 0x1_0000_0000
      modifies memory
      ensures mem == memory && Valid() && Hint() && Live(mem[..], blocks) == map[] && usedMem == 0 && maxMem == 0
    {
      mem := memory;
      lfree, usedMem, maxMem := 0, 0, 0;
      blocks := [0, memory.Length - 3];
      new;
      var end := mem.Length - 3;
      mem[0] := Item(false, end, 0);
      mem[end] := Item(true, end, end);
      InitialLayout(mem[..]);
    }

    /** The words of a new header. */
    method WriteHeader(p: nat, next: int, prev: int)
      requires p + HEADER <= mem.Length
      modifies mem
      ensures HeaderAt(old(mem[..]), mem[..], p, next, prev)
    {
      mem[p] := Item(false, next, prev);
      mem[p + 1], mem[p + 2] := Body, Body;
    }

    method Splice(h: nat, p: nat, next: nat)
      requires h < next < mem.Length && mem[h].Item? && mem[next].Item?
      modifies mem
      ensures mem[..] == Added(old(mem[..]), h, p, next)
    {
      mem[h] := mem[h].(next := p);
      if next != mem.Length - 3 {
        mem[next] := mem[next].(prev := p);
      }
    }

    /** A new free header at p in the room of the block at h, inserted between h and the block behind it. */
    method NewBlock(h: nat, p: nat, ghost i: nat)
      requires Layout(mem[..], blocks) && i < |blocks| - 1 && blocks[i] == h && h + HEADER <= p
          && p + HEADER <= blocks[i + 1] < mem.Length
      modifies mem, this`blocks
      ensures Midway(mem[..], blocks, p) && h < p < mem.Length
      ensures mem[h].Item? && mem[h].used == old(mem[h]).used && mem[h].next == p
      ensures mem[p].Item? && !mem[p].used && mem[p].next == old(blocks)[i + 1] && mem[p].prev == h
      ensures SameFlags(old(mem[..]), mem[..], old(blocks), h)
          && Only(old(mem[..]), mem[..], [h, old(blocks)[i + 1]], p, p + HEADER)
      ensures Live(mem[..], blocks) ==
          if mem[h].used then old(Live(mem[..], blocks))[h := p - h - HEADER] else old(Live(mem[..], blocks))
      ensures UsedWords(mem[..], blocks) == old(UsedWords(mem[..], blocks)) -
          if mem[h].used then old(blocks)[i + 1] - p else 0
      ensures |blocks| == |old(blocks)| + 1 && blocks[i] == h && blocks[i + 1] == p
          && blocks[i + 2] == old(blocks)[i + 1]
      ensures forall x :: x in blocks <==> x in old(blocks) || x == p
    {
      hide Layout, Midway, Live, UsedWords, SameFlags, Only, Added, HeaderAt, Tiles;
      ghost var m, bs := mem[..], blocks;
      LayoutTiles(m, bs);
      Around(m, bs, i);
      var next := mem[h].next;
      WriteHeader(p, next, h);
      AddedStep(m, mem[..], bs, i, p);
      blocks := B.Inserted(blocks, i, p);
      Splice(h, p, next);
    }

    /** The used flag of the block at h. */
    method Mark(h: nat, u: bool, ghost i: nat)
      requires Midway(mem[..], blocks, h) && i < |blocks| - 1 && blocks[i] == h < mem.Length && mem[h].Item?
      modifies mem
      ensures Midway(mem[..], blocks, h) && mem[h] == old(mem[h]).(used := u)
      ensures UsedWords(mem[..], blocks) == old(UsedWords(mem[..], blocks) - Own(mem[..], h)) +
          if u then Size(mem[..], h) + HEADER else 0
      ensures Live(mem[..], blocks) ==
          if u then old(Live(mem[..], blocks))[h := Size(mem[..], h)] else old(Live(mem[..], blocks)) - {h}
      ensures SameFlags(old(mem[..]), mem[..], blocks, h) && Only(old(mem[..]), mem[..], [h], 0, 0)
    {
      hide Tiles, ApartBut, Live, UsedWords;
      ghost var m := mem[..];
      MarkStep(m, blocks, i, u, h);
      BlockItems(m, blocks, h);
      mem[h] := mem[h].(used := u);
      assert mem[..] == Marked(m, h, u);
    }

    // ---------- rt_malloc ----------

    /** The words below which the search looks for n bytes. */
    function Limit(n: int): int { (Space() - n) / 4 }

    /** No block from lfree on serves a request of n bytes: all are in use, too short, or an exact fit at the end. */
    ghost predicate Refuses(n: int)
      requires Valid()
      reads this, mem
    {
      NoneServes(mem[..], blocks, IndexOf(blocks, lfree), |blocks|, n / 4)
    }

    /** The block at h serves it, and is the first one from lfree on that does. */
    ghost predicate FirstServes(h: int, n: int)
      requires Valid()
      reads this, mem
    {
      exists j: nat :: j < |blocks| && h == blocks[j] && IndexOf(blocks, lfree) <= j
        && Serves(mem[..], blocks[j], n / 4)
                       && NoneServes(mem[..], blocks, IndexOf(blocks, lfree), j, n / 4)
    }

    /** The search in terms of what blocks there are. */
    lemma SearchMeans(n: int)
      requires Valid() && 0 < n <= Space() && n % 4 == 0
      ensures IndexOf(blocks, lfree) < |blocks|
      ensures var r := Search(mem[..], blocks, IndexOf(blocks, lfree), Limit(n), n / 4);
        (r == NULL <==> Refuses(n)) && (r != NULL ==> FirstServes(r, n))
    {
      hide Search, Serves;
      LayoutTiles(mem[..], blocks);
      assert Limit(n) == End(mem[..]) - HEADER - n / 4;
      var j := SearchServes(mem[..], blocks, IndexOf(blocks, lfree), n / 4);
      if j < |blocks| {
        assert !NoneServes(mem[..], blocks, IndexOf(blocks, lfree), |blocks|, n / 4);
      }
    }

    /**
     With a right hint, rt_malloc has nothing for n bytes exactly if every free block is too short, but for
     an exact fit that ends at heap_end: that one is refused.
     */
    lemma RefusesWhat(n: int)
      requires Valid() && Hint() && 0 < n <= Space() && n % 4 == 0
      ensures Refuses(n) <==> forall b :: b in blocks && b < mem.Length && mem[b].Item? && !mem[b].used ==>
        4 * Size(mem[..], b) < n || (4 * Size(mem[..], b) == n && mem[b].next == End(mem[..]))
    {
      LayoutTiles(mem[..], blocks);
      BelowHint(mem[..], blocks, lfree, n / 4);
      hide Lowest, Layout, AtFree, IndexOf;
      if Refuses(n) {
        forall b | b in blocks && b < mem.Length && mem[b].Item? && !mem[b].used
          ensures 4 * Size(mem[..], b) < n || (4 * Size(mem[..], b) == n && mem[b].next == End(mem[..]))
        {
          var k :| 0 <= k < |blocks| && blocks[k] == b;
          assert !Serves(mem[..], blocks[k], n / 4);
        }
      }
    }

    /** The case that shows it: a heap with nothing in use refuses a request for all of it. */
    lemma WholeHeapRefused()
      requires Valid() && blocks == [0, mem.Length - 3] && mem[0].Item? && !mem[0].used
      ensures Refuses(Space()) && 4 * Size(mem[..], 0) == Space()
    {
      LayoutTiles(mem[..], blocks);
      LastOne(mem[..], blocks, 0);
      LastOne(mem[..], blocks, 1);
      Around(mem[..], blocks, 1);
    }

    /** The search from the lowest free block on. */
    method Find(n: int) returns (r: int)
      requires Valid() && 0 < n <= Space() && n % 4 == 0
      ensures r == Search(mem[..], blocks, IndexOf(blocks, lfree), Limit(n), n / 4)
      ensures (r == NULL <==> Refuses(n)) && (r != NULL ==> FirstServes(r, n))
      ensures r != NULL ==>
          r in blocks && lfree <= r < End(mem[..]) && mem[r].Item? && !mem[r].used && 4 * Size(mem[..], r) >= n
    {
      hide Midway, UsedWords, Search, IndexOf, Refuses, FirstServes;
      SearchMeans(n);
      LayoutTiles(mem[..], blocks);
      hide Tiles;
      ghost var k := IndexOf(blocks, lfree);
      var ptr := lfree;
      while 4 * ptr < Space() - n
        invariant k < |blocks| && ptr == blocks[k] && ptr >= lfree
        invariant Search(mem[..], blocks, IndexOf(blocks, lfree), Limit(n), n / 4)
            == Search(mem[..], blocks, k, Limit(n), n / 4)
        decreases |blocks| - k
      {
        InUse(mem[..], blocks, k);
        SearchStep(mem[..], blocks, k, Limit(n), n / 4);
        if !mem[ptr].used && 4 * (mem[ptr].next - ptr - HEADER) >= n {
          return ptr;
        }
        Around(mem[..], blocks, k);
        ptr := mem[ptr].next;
        k := k + 1;
      }
      SearchStep(mem[..], blocks, k, Limit(n), n / 4);
      r := NULL;
    }

    /** The hint moves up to the next free block, or to heap_end. */
    method AdvanceFree(ghost i: nat)
      requires Tiles(mem[..], blocks) && i < |blocks| - 1 && blocks[i] == lfree
      modifies this`lfree
      ensures AtFree(mem[..], blocks, lfree)
      ensures Lowest(mem[..], blocks, old(lfree)) ==> Lowest(mem[..], blocks, lfree)
      ensures forall b :: FreeAt(mem[..], blocks, b) && b >= old(lfree) ==> b >= lfree
    {
      hide Tiles;
      ghost var k := i;
      InUse(mem[..], blocks, k);
      while mem[lfree].used && lfree != mem.Length - 3
        invariant i <= k < |blocks| && lfree == blocks[k] && lfree < mem.Length && mem[lfree].Item? && lfree in blocks
        invariant forall j :: i <= j < k ==> blocks[j] < mem.Length && mem[blocks[j]].Item? && mem[blocks[j]].used
        decreases |blocks| - k
      {
        InUse(mem[..], blocks, k);
        lfree := mem[lfree].next;
        k := k + 1;
        InUse(mem[..], blocks, k);
      }
      BelowIndex(mem[..], blocks, i, k);
      NoneFreeBetween(mem[..], blocks, i, k);
    }

    /** The block found goes into use for n words. */
    method Take(h: nat, n: nat)
      requires Layout(mem[..], blocks) && h in blocks && h < End(mem[..]) && mem[h].Item? && !mem[h].used
          && n <= Size(mem[..], h)
      modifies mem, this`blocks, this`usedMem, this`maxMem
      ensures Layout(mem[..], blocks) && Took(old(mem[..]), old(blocks), mem[..], blocks, h, SizeAt(mem[..], h))
      ensures SizeAt(mem[..], h) == if old(Size(mem[..], h)) >= n + HEADER + 3 then n else old(Size(mem[..], h))
      ensures SizeAt(mem[..], h) < old(Size(mem[..], h)) ==>
        && FreeAt(mem[..], blocks, h + HEADER + n)
        && SizeAt(mem[..], h + HEADER + n) == old(Size(mem[..], h)) - n - HEADER
      ensures usedMem - 4 * UsedWords(mem[..], blocks) == old(usedMem - 4 * UsedWords(mem[..], blocks))
      ensures maxMem == if usedMem > old(maxMem) then usedMem else old(maxMem)
      ensures SameFlags(old(mem[..]), mem[..], old(blocks), h) && mem[h].Item? && mem[h].used
      ensures (forall x :: x in old(blocks) ==> x in blocks) && (forall x :: x in blocks && x <= h ==> x in old(blocks))
    {
      hide Midway, Layout, Live, UsedWords, Only, SameFlags, PayloadsKept, Tiles;
      ghost var m, bs := mem[..], blocks;
      LayoutTiles(m, bs);
      ghost var i := Place(m, bs, h);
      Around(m, bs, i + 1);
      OnlySelf(m, bs, h, bs[i + 1]);
      Relax(m, bs, h);
      if mem[h].next - h - HEADER >= n + HEADER + 3 {
        RightUsed(m, bs, i);
        var p := h + HEADER + n;
        NewBlock(h, p, i);
        ghost var m1 := mem[..];
        FlagAt(m, m1, bs, h, bs[i + 1]);
        SwitchLoose(m1, blocks, i);
        Mark(h, true, i);
        OnlyOne(m1, mem[..], h, p);
        FlagsTwice(m, m1, mem[..], bs, blocks, h);
        OnlyThese(m, m, m1, bs, h, bs[i + 1], [h, bs[i + 1]], p, p + HEADER);
        OnlyThese(m, m1, mem[..], bs, h, bs[i + 1], [h], 0, 0);
        usedMem := usedMem + 4 * n + 4 * HEADER;
      } else {
        Mark(h, true, i);
        OnlyThese(m, m, mem[..], bs, h, bs[i + 1], [h], 0, 0);
        usedMem := usedMem + 4 * (mem[h].next - h);
      }
      if maxMem < usedMem {
        maxMem := usedMem;
      }
      Settle(mem[..], blocks, h, i);
      PayloadsUntouched(m, mem[..], bs, i, h, bs[i + 1]);
    }

    /**
     At p lies a free block of at least `words` words, and a request for fewer bytes than that is not refused, unless
     the hint has gone past it.
     */
    ghost predicate Spare(p: int, words: int)
      requires Valid()
      reads this, mem
    {
      && FreeAt(mem[..], blocks, p) && SizeAt(mem[..], p) >= words
      && (lfree <= p ==> forall n :: 0 < n < 4 * words ==> !Refuses(n))
    }

    lemma SpareServes(p: int, words: int)
      requires Valid() && FreeAt(mem[..], blocks, p) && SizeAt(mem[..], p) >= words
      ensures Spare(p, words)
    {
      hide UsedWords;
      LayoutTiles(mem[..], blocks);
      var i, j := IndexOf(blocks, lfree), IndexOf(blocks, p);
      if lfree <= p {
        forall n | 0 < n < 4 * words
          ensures !Refuses(n)
        {
          assert i <= j && Serves(mem[..], blocks[j], n / 4);
        }
      }
    }

    /** rt_malloc */
    method Malloc(size: U32) returns (ptr: int)
      requires Valid()
      modifies this, mem
      ensures Valid() && (old(Hint()) ==> Hint())
      ensures ptr == NULL <==> size == 0 || Align(size) > Space() || old(Refuses(Rounded(size)))
      ensures ptr != NULL ==> old(FirstServes(ptr - HEADER, Rounded(size)))
      ensures ptr == NULL ==> mem[..] == old(mem[..]) && Same(old(blocks), old(lfree), old(usedMem), old(maxMem))
      ensures ptr != NULL ==>
        ptr - HEADER == old(Search(mem[..], blocks, IndexOf(blocks, lfree), Limit(Rounded(size)), Rounded(size) / 4))
      ensures ptr != NULL ==>
          Took(old(mem[..]), old(blocks), mem[..], blocks, ptr - HEADER, SizeAt(mem[..], ptr - HEADER))
      // the request exactly if a block can be made of what is left, otherwise all of the block found
      ensures ptr != NULL ==>
        var n, found, got := Rounded(size), 4 * SizeAt(old(mem[..]), ptr - HEADER), 4 * SizeAt(mem[..], ptr - HEADER);
        && got == (if found >= n + 4 * HEADER + MIN_SIZE then n else found)
        && n <= got < n + 4 * HEADER + MIN_SIZE
      // what is left of the block found is free and serves the next request
      ensures ptr != NULL ==>
        var found, got := SizeAt(old(mem[..]), ptr - HEADER), SizeAt(mem[..], ptr - HEADER);
        got < found ==> Spare(ptr + got, found - got - HEADER) && lfree <= ptr + got
      ensures ptr != NULL ==> maxMem == if usedMem > old(maxMem) then usedMem else old(maxMem)
    {
      hide Midway, Layout, UsedWords, Search, IndexOf, Took, Tiles, SameFlags, Lowest, AtFree, Align, Refuses,
        FirstServes;
      Aligned(size);
      ptr := NULL;
      if size == 0 {
        return;
      }
      var n := Align(size);
      if n > Space() {
        return;
      }
      if n < MIN_SIZE {
        n := MIN_SIZE;
      }
      var h := Find(n);
      if h != NULL {
        ghost var m, bs := mem[..], blocks;
        Take(h, n / 4);
        if lfree == h {
          NowUsed(m, mem[..], bs, blocks, lfree);
          ghost var i := PlaceIn(mem[..], blocks, h);
          AdvanceFree(i);
        } else {
          StaysFree(m, mem[..], bs, blocks, lfree, h);
        }
        ptr := h + HEADER;
        if SizeAt(mem[..], h) < SizeAt(m, h) {
          SpareServes(ptr + n / 4, SizeAt(m, h) - n / 4 - HEADER);
        }
      }
    }

    ghost predicate Same(bs: seq<nat>, free: nat, used: int, max: int)
      reads this
    {
      blocks == bs && lfree == free && usedMem == used && maxMem == max
    }

    // ---------- rt_free ----------

    /** The block behind h leaves the chain: h takes its room, the block after it points back to h. */
    method Bypass(h: nat, next: nat)
      requires h < next < mem.Length && mem[h].Item? && mem[next].Item?
      modifies mem
      ensures mem[..] == Dropped(old(mem[..]), h, next)
    {
      mem[h] := mem[h].(next := next);
      mem[next] := mem[next].(prev := h);
    }

    /** The free block at h is combined with a free one behind it. */
    method PlugForward(h: nat, ghost i: nat)
      requires Midway(mem[..], blocks, h) && i < |blocks| - 1 && blocks[i] == h < mem.Length && mem[h].Item?
          && !mem[h].used
      requires AtFree(mem[..], blocks, lfree)
      modifies mem, this`blocks, this`lfree
      ensures Midway(mem[..], blocks, h) && i < |blocks| - 1 && blocks[i] == h && mem[h].Item? && !mem[h].used
      ensures AtFree(mem[..], blocks, lfree) && (old(Lowest(mem[..], blocks, lfree)) ==> Lowest(mem[..], blocks, lfree))
      ensures blocks[i + 1] < mem.Length && mem[blocks[i + 1]].Item? && mem[blocks[i + 1]].used
      ensures mem[h].prev == old(mem[h].prev) && SameFlags(old(mem[..]), mem[..], blocks, h)
      ensures Live(mem[..], blocks) == old(Live(mem[..], blocks))
          && UsedWords(mem[..], blocks) == old(UsedWords(mem[..], blocks))
      ensures Only(old(mem[..]), mem[..], old(blocks), 0, 0) && forall x :: x in blocks ==> x in old(blocks)
      ensures lfree == old(lfree) || (lfree == h < old(lfree))
      ensures i > 0 ==> blocks[i - 1] == old(blocks)[i - 1]
    {
      hide Midway, Live, UsedWords, Only, SameFlags, Dropped, AtFree, Lowest, Tiles, Distinct;
      ghost var m, bs := mem[..], blocks;
      MidwayTiles(m, bs, h);
      Around(m, bs, i);
      Around(m, bs, i + 1);
      OnlySelf(m, bs, 0, 0);
      FlagsSelf(m, bs, h);
      var nmem := mem[h].next;
      if h != nmem && !mem[nmem].used && nmem != mem.Length - 3 {
        DroppedStep(m, bs, i + 1, h);
        PairUsed(m, bs, h, i + 1);
        ghost var free := lfree;
        if lfree == nmem {
          lfree := h;
        }
        Bypass(h, mem[nmem].next);
        blocks := B.Removed(blocks, i + 1);
        MergedHint(m, mem[..], bs, blocks, nmem, h, free);
        OnlyThese(m, m, mem[..], bs, 0, 0, [h, bs[i + 2]], 0, 0);
        FlagAt(m, mem[..], blocks, h, bs[i + 2]);
        if i > 0 {
          RemovedBelow(bs, i + 1);
        }
      }
    }

    /** The free block at h is combined with a free one before it. */
    method PlugBackward(h: nat, ghost i: nat)
      requires Midway(mem[..], blocks, h) && i < |blocks| - 1 && blocks[i] == h < mem.Length && mem[h].Item?
          && !mem[h].used
      requires AtFree(mem[..], blocks, lfree) && blocks[i + 1] < mem.Length && mem[blocks[i + 1]].Item?
          && mem[blocks[i + 1]].used
      modifies mem, this`blocks, this`lfree
      ensures Layout(mem[..], blocks)
      ensures lfree <= old(lfree)
      ensures AtFree(mem[..], blocks, lfree) && (old(Lowest(mem[..], blocks, lfree)) ==> Lowest(mem[..], blocks, lfree))
      ensures Live(mem[..], blocks) == old(Live(mem[..], blocks))
          && UsedWords(mem[..], blocks) == old(UsedWords(mem[..], blocks))
      ensures Only(old(mem[..]), mem[..], old(blocks), 0, 0) && forall x :: x in blocks ==> x in old(blocks)
      ensures i > 0 && old(blocks[i - 1]) < mem.Length && old(mem[blocks[i - 1]]).Item? && old(mem[blocks[i - 1]]).used
              ==> mem[..] == old(mem[..]) && blocks == old(blocks) && lfree == old(lfree)
    {
      hide Midway, Layout, Live, UsedWords, Only, SameFlags, Dropped, AtFree, Lowest, Tiles, Distinct;
      ghost var m, bs := mem[..], blocks;
      MidwayTiles(m, bs, h);
      Around(m, bs, i);
      if i > 0 {
        Around(m, bs, i - 1);
      }
      OnlySelf(m, bs, 0, 0);
      var pmem := mem[h].prev;
      if pmem != h && !mem[pmem].used {
        DroppedStep(m, bs, i, h);
        if i > 1 {
          PairUsed(m, bs, h, i - 2);
        }
        ghost var free := lfree;
        if lfree == h {
          lfree := pmem;
        }
        Bypass(pmem, mem[h].next);
        blocks := B.Removed(blocks, i);
        MergedHint(m, mem[..], bs, blocks, h, pmem, free);
        OnlyThese(m, m, mem[..], bs, 0, 0, [pmem, bs[i + 1]], 0, 0);
        FlagAt(m, mem[..], blocks, pmem, bs[i + 1]);
        if i > 1 {
          RemovedBelow(bs, i);
          FlagAt(m, mem[..], blocks, pmem, bs[i - 2]);
        }
        Settle(mem[..], blocks, pmem, i - 1);
      } else {
        Settle(m, bs, h, i);
      }
    }

    /** plug_holes */
    method PlugHoles(h: nat, ghost i: nat)
      requires Midway(mem[..], blocks, h) && i < |blocks| - 1 && blocks[i] == h < mem.Length && mem[h].Item?
          && !mem[h].used
      requires AtFree(mem[..], blocks, lfree)
      modifies mem, this`blocks, this`lfree
      ensures Layout(mem[..], blocks)
      ensures lfree <= old(lfree)
      ensures AtFree(mem[..], blocks, lfree) && (old(Lowest(mem[..], blocks, lfree)) ==> Lowest(mem[..], blocks, lfree))
      ensures Live(mem[..], blocks) == old(Live(mem[..], blocks))
          && UsedWords(mem[..], blocks) == old(UsedWords(mem[..], blocks))
      ensures Only(old(mem[..]), mem[..], old(blocks), 0, 0) && forall x :: x in blocks ==> x in old(blocks)
      ensures i > 0 && old(blocks[i - 1]) < mem.Length && old(mem[blocks[i - 1]].Item? && mem[blocks[i - 1]].used) ==>
        && SameFlags(old(mem[..]), mem[..], blocks, h)
        && h in blocks && mem[h].Item? && !mem[h].used && old(blocks)[i - 1] in blocks
        && (lfree == old(lfree) || (lfree == h < old(lfree)))
    {
      hide Midway, Layout, Live, UsedWords, Only, SameFlags, AtFree, Lowest, Tiles;
      ghost var m, bs := mem[..], blocks;
      PlugForward(h, i);
      ghost var m1, cs := mem[..], blocks;
      if i > 0 && bs[i - 1] < |m| && m[bs[i - 1]].Item? && m[bs[i - 1]].used {
        MidwayTiles(m1, cs, h);
        LeftFlag(m, m1, cs, h, i);
      }
      PlugBackward(h, i);
      OnlyThese(m, m1, mem[..], bs, 0, 0, cs, 0, 0);
    }

    /** rt_free */
    method Free(rmem: int)
      requires Valid() && (rmem == NULL || (rmem >= HEADER && rmem - HEADER in Live(mem[..], blocks)))
      modifies this, mem
      ensures Valid() && (old(Hint()) ==> Hint())
      ensures rmem == NULL ==> mem[..] == old(mem[..]) && Same(old(blocks), old(lfree), old(usedMem), old(maxMem))
      ensures rmem != NULL ==> Live(mem[..], blocks) == old(Live(mem[..], blocks)) - {rmem - HEADER}
      ensures rmem != NULL ==> PayloadsKept(old(mem[..]), mem[..], old(blocks), rmem - HEADER)
      ensures maxMem == old(maxMem) && lfree <= old(lfree)
    {
      hide Midway, Layout, Live, UsedWords, Only, SameFlags, AtFree, Lowest, PayloadsKept, Tiles;
      if rmem == NULL {
        return;
      }
      var h := rmem - HEADER;
      ghost var m, bs := mem[..], blocks;
      LayoutTiles(m, bs);
      LiveBlock(m, bs, h);
      ghost var i := Place(m, bs, h);
      Relax(m, bs, h);
      Mark(h, false, i);
      ghost var m1 := mem[..];
      FreedHint(m, m1, bs, h, lfree);
      if h < lfree {
        lfree := h;
      }
      usedMem := usedMem - 4 * (mem[h].next - h);
      PlugHoles(h, i);
      OnlySelf(m, bs, h, h);
      OnlyThese(m, m, m1, bs, h, h, [h], 0, 0);
      OnlyThese(m, m1, mem[..], bs, h, h, bs, 0, 0);
      PayloadsUntouched(m, mem[..], bs, i, h, h);
    }

    // ---------- rt_realloc ----------

    /** The block at h shrinks in place to n words. The hint is not lowered. */
    method Shrink(h: nat, n: nat)
      requires Valid() && h in Live(mem[..], blocks) && mem[h].Item? && n + HEADER + 3 < Size(mem[..], h)
      modifies this, mem
      ensures Valid() && Live(mem[..], blocks) == old(Live(mem[..], blocks))[h := n]
      ensures PayloadsKept(old(mem[..]), mem[..], old(blocks), h) && h + HEADER + n <= mem.Length
      ensures forall k: nat :: h < k < h + HEADER + n ==> mem[..][k] == old(mem[..])[k]
      ensures old(Hint()) ==> (Hint() <==> lfree <= h + HEADER + n)
      ensures maxMem == old(maxMem)
    {
      hide Midway, Layout, Live, UsedWords, Only, SameFlags, AtFree, Lowest, PayloadsKept, Tiles;
      ghost var m, bs := mem[..], blocks;
      LayoutTiles(m, bs);
      LiveBlock(m, bs, h);
      ghost var i := Place(m, bs, h);
      ghost var next, free0 := bs[i + 1], lfree;
      usedMem := usedMem - (4 * (mem[h].next - h - HEADER) - 4 * n);
      var p := h + HEADER + n;
      NotInside(m, bs, i, p);
      NewBlock(h, p, i);
      ghost var m1, cs := mem[..], blocks;
      SplitHint(m, m1, bs, cs, h, p, lfree);
      PlugHoles(p, i + 1);
      Dissolve(m, m1, mem[..], bs, cs, blocks, h, p);
      OnlySelf(m, bs, p, next);
      OnlyThese(m, m, m1, bs, p, next, [h, next], p, p + HEADER);
      OnlyThese(m, m1, mem[..], bs, p, next, cs, 0, 0);
      PayloadsUntouched(m, mem[..], bs, i, p, next);
      HintAfterShrink(m, m1, mem[..], bs, cs, blocks, h, p, free0, lfree);
    }

    /** rt_memcpy from one block to another. */
    method CopyWords(to: nat, from: nat, count: nat)
      requires to + count <= mem.Length && from + count <= mem.Length && (from + count <= to || to + count <= from)
      modifies mem
      ensures forall k :: to <= k < to + count ==> mem[k] == old(mem[from + (k - to)])
      ensures forall k :: 0 <= k < mem.Length && !(to <= k < to + count) ==> mem[k] == old(mem[k])
    {
      for i := 0 to count
        invariant forall k :: to <= k < to + i ==> mem[k] == old(mem[from + (k - to)])
        invariant forall k :: 0 <= k < mem.Length && !(to <= k < to + i) ==> mem[k] == old(mem[k])
      {
        mem[to + i] := mem[from + i];
      }
    }

    /** Of the block at h, the first `count` words go over to the new block at g; then it is freed. */
    method CarryOver(h: nat, g: nat, count: nat, ghost m0: seq<Word>, ghost bs0: seq<nat>, ghost got: int)
      requires Valid() && h in Live(m0, bs0) && Took(m0, bs0, mem[..], blocks, g, got)
      requires count <= Live(m0, bs0)[h] && count <= got
      modifies this, mem
      ensures Valid() && (old(Hint()) ==> Hint())
      ensures Moved(m0, bs0, mem[..], blocks, h, g, got, count)
      ensures SizeAt(mem[..], g) == got && lfree <= old(lfree)
    {
      hide Midway, Layout, Live, UsedWords, AtFree, Lowest, PayloadsKept, Tiles, Moved;
      ghost var m1, bs1 := mem[..], blocks;
      LayoutTiles(m1, bs1);
      Rooms(m1, bs1, h, g);
      LiveBlock(m1, bs1, g);
      CopyWords(g + HEADER, h + HEADER, count);
      ghost var m2 := mem[..];
      PayloadWritten(m1, m2, bs1, g);
      SameHint(m1, m2, bs1, lfree);
      Free(h + HEADER);
      MoveDone(m0, bs0, m1, bs1, m2, mem[..], blocks, h, g, got, count);
      MovedSize(m0, bs0, mem[..], blocks, h, g, got, count);
    }

    /** A block that went to g, or stayed there, leaves a spare one behind in the room up to e. */
    lemma Remains(m: seq<Word>, bs: seq<nat>, h: nat, g: nat, got: int, keep: int, e: int)
      requires Valid() && Layout(m, bs) && |m| == mem.Length && Moved(m, bs, mem[..], blocks, h, g, got, keep)
      requires got >= 0 && g + HEADER + got < e <= End(m)
      requires forall b :: b in Live(m, bs) && b > g ==> b >= e
      ensures SizeAt(mem[..], g) == got && Spare(g + HEADER + got, e - g - got - 2 * HEADER)
    {
      hide Layout, UsedWords, Live, Moved, Spare, AtFree;
      MovedGap(m, bs, mem[..], blocks, h, g, got, keep, e);
      MovedSize(m, bs, mem[..], blocks, h, g, got, keep);
      RestIsFree(mem[..], blocks, g, e);
      SpareServes(g + HEADER + got, e - g - got - 2 * HEADER);
    }

    /** The block moves: a new one, what fits copied, the old one freed. */
    method Move(h: nat, newsize: U32) returns (nmem: int)
      requires Valid() && h in Live(mem[..], blocks) && Align(newsize) == newsize
      modifies this, mem
      ensures Valid() && (old(Hint()) ==> Hint())
      ensures nmem == NULL ==> mem[..] == old(mem[..]) && Same(old(blocks), old(lfree), old(usedMem), old(maxMem))
      ensures nmem == NULL <==> newsize == 0 || newsize > Space() || old(Refuses(Rounded(newsize)))
      ensures nmem != NULL ==> nmem - HEADER == old(Found(newsize))
      ensures nmem != NULL ==>
        var n, found, got := Rounded(newsize), 4 * SizeAt(old(mem[..]), nmem - HEADER),
          4 * SizeAt(mem[..], nmem - HEADER);
        && got == (if found >= n + 4 * HEADER + MIN_SIZE then n else found)
        && n <= got < n + 4 * HEADER + MIN_SIZE
      ensures nmem != NULL ==>
        var found, got := SizeAt(old(mem[..]), nmem - HEADER), SizeAt(mem[..], nmem - HEADER);
        got < found ==> Spare(nmem + got, found - got - HEADER) && lfree <= nmem + got
      ensures nmem != NULL ==> 4 * SizeAt(mem[..], nmem - HEADER) >= newsize
                               && Moved(old(mem[..]), old(blocks), mem[..], blocks, h, nmem - HEADER,
                                 SizeAt(mem[..], nmem - HEADER),
                                        Min(old(SizeAt(mem[..], h)), newsize / 4))
    {
      hide Midway, Layout, Live, UsedWords, Search, IndexOf, AtFree, Lowest, PayloadsKept, Tiles, Align, Moved,
        Refuses, FirstServes;
      ghost var m0, bs0 := mem[..], blocks;
      LayoutTiles(m0, bs0);
      LiveBlock(m0, bs0, h);
      ghost var i := Place(m0, bs0, h);
      ghost var k := if lfree in blocks then IndexOf(blocks, lfree) else 0;
      Aligned(newsize);
      var size := mem[h].next - h - HEADER;
      nmem := Malloc(newsize);
      if nmem != NULL {
        var keep := if size < newsize / 4 then size else newsize / 4;
        ghost var g, got := nmem - HEADER, SizeAt(mem[..], nmem - HEADER);
        CarryOver(h, nmem - HEADER, keep, m0, bs0, got);
        if got < SizeAt(m0, g) {
          FoundBetween(m0, bs0, k, Limit(Rounded(newsize)), Rounded(newsize) / 4);
          Remains(m0, bs0, h, g, got, keep, m0[g].next);
        }
      }
    }

    /** The block rt_malloc would take for this size. */
    ghost function Found(size: U32): int
      requires Valid()
      reads this, mem
    {
      Search(mem[..], blocks, IndexOf(blocks, lfree), Limit(Rounded(size)), Rounded(size) / 4)
    }

    /** rt_realloc */
    method Realloc(rmem: int, newsize: U32) returns (r: int)
      requires Valid() && (rmem == NULL || (rmem >= HEADER && rmem - HEADER in Live(mem[..], blocks)))
      modifies this, mem
      ensures Valid()
      ensures r == NULL ==> mem[..] == old(mem[..]) && Same(old(blocks), old(lfree), old(usedMem), old(maxMem))
      ensures rmem == NULL && r != NULL ==>
          Took(old(mem[..]), old(blocks), mem[..], blocks, r - HEADER, SizeAt(mem[..], r - HEADER))
      ensures rmem != NULL && r != NULL ==>
        && 4 * SizeAt(mem[..], r - HEADER) >= Align(newsize)
        && Moved(old(mem[..]), old(blocks), mem[..], blocks, rmem - HEADER, r - HEADER, SizeAt(mem[..], r - HEADER),
                 Min(old(SizeAt(mem[..], rmem - HEADER)), Align(newsize) / 4))
      // in place for the same size and for a shrink that leaves a block, otherwise by way of rt_malloc
      ensures var n, have := Align(newsize), 4 * old(SizeAt(mem[..], rmem - HEADER));
        if rmem != NULL && n <= Space() && n == have then
          r == rmem && mem[..] == old(mem[..]) && Same(old(blocks), old(lfree), old(usedMem), old(maxMem))
        else if rmem != NULL && n <= Space() && n + 4 * HEADER + MIN_SIZE < have then
          r == rmem && SizeAt(mem[..], r - HEADER) == n / 4
        else
          && (r == NULL <==> n == 0 || n > Space() || old(Refuses(Rounded(n))))
          && (r != NULL ==> r - HEADER == old(Found(n)))
      // a block that is new is as long as asked for if a block can be made of what is left of the one found,
      // otherwise all of that one
      ensures r != NULL && r != rmem ==>
        var n, found, got := Rounded(Align(newsize)), 4 * SizeAt(old(mem[..]), r - HEADER),
          4 * SizeAt(mem[..], r - HEADER);
        && got == (if found >= n + 4 * HEADER + MIN_SIZE then n else found)
        && n <= got < n + 4 * HEADER + MIN_SIZE
      // what a block leaves of the room it is in is free; the next request finds it unless the block shrank in place
      // below the hint
      ensures r != NULL ==>
        var found, got := SizeAt(old(mem[..]), r - HEADER), SizeAt(mem[..], r - HEADER);
        got < found ==> Spare(r + got, found - got - HEADER) && (r == rmem || lfree <= r + got)
      ensures old(Hint()) && !Hint() ==>
          r == rmem && SizeAt(mem[..], r - HEADER) < old(SizeAt(mem[..], r - HEADER)) && r - HEADER < lfree
    {
      hide Midway, Layout, Live, UsedWords, Search, IndexOf, AtFree, Lowest, PayloadsKept, Tiles, Align, Moved,
        Took, Refuses, FirstServes, Spare;
      Aligned(newsize);
      AlignTwice(newsize);
      var n := Align(newsize);
      if n > Space() {
        return NULL;
      }
      if rmem == NULL {
        r := Malloc(n);
        return;
      }
      var h := rmem - HEADER;
      ghost var m, bs := mem[..], blocks;
      LayoutTiles(m, bs);
      LiveBlock(m, bs, h);
      ghost var i := Place(m, bs, h);
      var size := 4 * (mem[h].next - h - HEADER);
      if size == n {
        Unmoved(m, bs, h);
        return rmem;
      }
      if n + 4 * HEADER + MIN_SIZE < size {
        Shrink(h, n / 4);
        StayDone(m, bs, mem[..], blocks, h, n / 4);
        NoneBetween(m, bs, h, m[h].next);
        Remains(m, bs, h, h, n / 4, n / 4, m[h].next);
        return rmem;
      }
      r := Move(h, n);
    }
  }

  lemma AlignTwice(size: U32)
    ensures 0 <= Align(size) < 0x1_0000_0000 && Align(Align(size)) == Align(size)
  {
  }

  /** Whatever was allocated, moved and freed: with nothing in use the heap is the one block of rt_system_heap_init. */
  lemma FreeingAllRestores(h: Heap)
    requires h.Valid() && Live(h.mem[..], h.blocks) == map[]
    ensures h.blocks == [0, h.mem.Length - 3] && h.usedMem == 0 && !h.mem[0].used
  {
    var m := h.mem[..];
    var end := |m| - 3;
    var first := m[0 := Item(false, end, 0)][end := Item(true, end, end)];
    LayoutTiles(m, h.blocks);
    InitialLayout(first);
    LiveDetermines(m, h.blocks, first, [0, end]);
    assert 0 in h.blocks && 0 !in Live(m, h.blocks);
  }
}
