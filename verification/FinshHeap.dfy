/**
 finsh_heap.c: the shell's heap. Free and allocated blocks are on two singly linked lists in address
 order; the collector frees what no shell variable points to. Memory is addressed in words.
 */
module FinshHeap {
  import opened Widths
  import opened Lists
  import opened FinshHeapBlocks
  import B = MemHeapBlocks

  /** HEAP_ALIGN_SIZE in 32 bits, in words */
  function Words(size: U32): (n: nat) { (size + 3) % 0x1_0000_0000 / 4 }

  /** The aligned size is the least that covers the request, and with a header added it still fits 32 bits. */
  lemma WordsExact(size: U32)
    ensures 4 * Words(size) >= size <==> size <= 0xffff_fffc
    ensures 4 * Words(size) < size + 4
    ensures 4 * (Words(size) + HEADER) < 0x1_0000_0000 <==> size <= 0xffff_fff4 || size > 0xffff_fffc
  {
  }

  /** A slot of the variable table: whether it is in use, and the pointer it holds. */
  datatype Variable = Variable(known: bool, ptr: int)

  ghost predicate Refers(vars: seq<Variable>, data: int) {
    exists i :: 0 <= i < |vars| && vars[i].known && vars[i].ptr == data
  }

  /** The blocks that survive a collection. */
  ghost function Reachable(vars: seq<Variable>, live: map<nat, int>): map<nat, int> {
    map b | b in live && Refers(vars, b + HEADER) :: live[b]
  }

  // ---------- the collector's sweep over the allocated list ----------

  /** Blocks before entry i are referenced; what is gone of the blocks live at the start is not. */
  ghost predicate Swept(vars: seq<Variable>, start: map<nat, int>, live: map<nat, int>, as_: seq<nat>, i: nat) {
    && i <= |as_| && (forall j :: 0 <= j < i ==> Refers(vars, as_[j] + HEADER))
    && (forall b :: b in start && Refers(vars, b + HEADER) ==> b in live)
    && (forall b :: b in live ==> b in start && live[b] == start[b])
  }

  lemma SweepStart(vars: seq<Variable>, live: map<nat, int>, as_: seq<nat>)
    ensures Swept(vars, live, live, as_, 0)
  {
  }

  lemma SweepKeep(vars: seq<Variable>, start: map<nat, int>, live: map<nat, int>, as_: seq<nat>, i: nat)
    requires Swept(vars, start, live, as_, i) && i < |as_| && Refers(vars, as_[i] + HEADER)
    ensures Swept(vars, start, live, as_, i + 1)
  {
  }

  lemma SweepDrop(vars: seq<Variable>, start: map<nat, int>, live: map<nat, int>, as_: seq<nat>, i: nat)
    requires Swept(vars, start, live, as_, i) && i < |as_| && !Refers(vars, as_[i] + HEADER)
    ensures Swept(vars, start, live - {as_[i]}, B.Removed(as_, i), i)
  {
    B.RemovedIndex(as_, i);
  }

  lemma SweepEnd(vars: seq<Variable>, start: map<nat, int>, live: map<nat, int>, as_: seq<nat>)
    requires Swept(vars, start, live, as_, |as_|) && forall b :: b in live <==> b in as_
    ensures live == Reachable(vars, start)
  {
  }

  /** Dropping a block keeps the contents of the others since the start. */
  lemma SweepPayloads(vars: seq<Variable>, m0: seq<Word>, m1: seq<Word>, m2: seq<Word>, a0: int, a1: int,
        as0: seq<nat>, as1: seq<nat>, i: nat)
    requires Chain(m0, a0, as0) && Chain(m1, a1, as1) && Swept(vars, Live(m0, as0), Live(m1, as1), as1, i) && i < |as1|
    requires PayloadsKept(m0, m1, as1, NULL) && PayloadsKept(m1, m2, B.Removed(as1, i), NULL)
    ensures PayloadsKept(m0, m2, B.Removed(as1, i), NULL)
  {
    LiveKeys(m0, a0, as0);
    LiveKeys(m1, a1, as1);
    LinkOf(m1, a1, as1, i);
    LiveCut(m1, as1, i);
    hide Chain, Live, PayloadsKept, Refers, B.Removed;
    PayloadsCompose(m0, m1, m2, as1, B.Removed(as1, i));
  }

  /** What is live when the search ends: all of it, or after a collection what is reachable. */
  ghost function Left(vars: seq<Variable>, live: map<nat, int>, collected: bool): map<nat, int> {
    if collected then Reachable(vars, live) else live
  }

  lemma PayloadsWiden(m: seq<Word>, m': seq<Word>, as1: seq<nat>, as_: seq<nat>, x: int)
    requires PayloadsKept(m, m', as1, NULL) && forall b :: b in as_ && b != x ==> b in as1
    ensures PayloadsKept(m, m', as_, x)
  {
  }

  /** From before the search to after the delivery, the contents of all other blocks are kept. */
  lemma DeliveredPayloads(vars: seq<Variable>, m: seq<Word>, m1: seq<Word>, m': seq<Word>, a0: int, as0: seq<nat>,
        a1: int, as1: seq<nat>,
      a: int, as_: seq<nat>, h: nat, n: nat, collected: bool)
    requires Chain(m, a0, as0) && Chain(m1, a1, as1) && Chain(m', a, as_)
    requires Live(m1, as1) == Left(vars, Live(m, as0), collected) && Live(m', as_) == Live(m1, as1)[h := n]
    requires PayloadsKept(m, m1, as1, NULL) && PayloadsKept(m1, m', as1, NULL)
    ensures PayloadsKept(m, m', as_, h)
  {
    LiveKeys(m, a0, as0);
    LiveKeys(m1, a1, as1);
    LiveKeys(m', a, as_);
    hide Chain, Live, PayloadsKept, Refers;
    PayloadsCompose(m, m1, m', as1, as1);
    PayloadsWiden(m, m', as1, as_, h);
  }

  /** No listed block is longer than the bound. */
  ghost predicate NoneOver(m: seq<Word>, list: seq<nat>, bound: int) {
    forall b :: b in list && b < |m| && m[b].Item? ==> m[b].length <= bound
  }

  class Heap {
    const mem: array<Word>
    var freeList: int
    var allocateList: int
    ghost var fs: seq<nat>
    ghost var as_: seq<nat>
    ghost var bs: seq<nat>

    ghost predicate Valid()
      reads this, mem
    {
      Layout(mem[..], freeList, fs, allocateList, as_, bs)
    }

    /** finsh_heap_init */
    constructor (words: nat)
      requires words >= HEADER
      ensures Valid() && fresh(mem) && mem.Length == words && Live(mem[..], as_) == map[]
      ensures fs == [0] && bs == [0] && mem[0] == Item(words - HEADER, NULL)
    {
      mem := new Word[words](_ => Data(0));
      freeList, allocateList := 0, NULL;
      fs, as_, bs := [0], [], [0];
      new;
      mem[0] := Item(mem.Length - HEADER, NULL);
      mem[1] := Body;
      assert LinkAt(mem[..], fs, 0) && TileAt(mem[..], bs, 0);
    }

    // ---------- the lists ----------

    /** finsh_block_insert: the old link of the header may only be stale if the header does not go last. */
    method BlockInsert(head: int, header: nat, ghost list: seq<nat>) returns (r: int)
      requires Chain(mem[..], head, list) && header < mem.Length && mem[header].Item? && header !in list
      requires mem[header].next == NULL || (list != [] && header < list[|list| - 1])
      modifies mem
      ensures Chain(mem[..], r, Put(list, Below(list, header), header))
      ensures LinksOnly(old(mem[..]), mem[..], list + [header])
    {
      hide Chain, Ascending, Put, Below, LinksOnly;
      ghost var m := mem[..];
      HeadOf(m, head, list);
      if head == NULL {
        BelowIs(list, header, 0);
        PutLinked(m, m, head, list, 0, header);
        return header;
      }
      LinkOf(m, head, list, 0);
      var node := head;
      if node > header {
        mem[header] := mem[header].(next := node);
        BelowIs(list, header, 0);
        PutLinked(m, mem[..], head, list, 0, header);
        return header;
      }
      ghost var i: nat := 0;
      assert list[0] in list;
      while !(mem[node].next > header || mem[node].next == NULL)
        invariant mem[..] == m && i < |list| && node == list[i] < header && node < mem.Length && mem[node].Item?
        decreases |list| - i
      {
        LinkOf(m, head, list, i);
        node := mem[node].next;
        i := i + 1;
        LinkOf(m, head, list, i);
      }
      LinkOf(m, head, list, i);
      if mem[node].next != NULL {
        mem[header] := mem[header].(next := mem[node].next);
      }
      mem[node] := mem[node].(next := header);
      BelowIs(list, header, i + 1);
      PutLinked(m, mem[..], head, list, i + 1, header);
      r := head;
    }

    /** finsh_block_remove: the link of the removed header is cleared only when it was the first. */
    method BlockRemove(head: int, header: nat, ghost list: seq<nat>, ghost k: nat) returns (r: int)
      requires Chain(mem[..], head, list) && k < |list| && list[k] == header
      modifies mem
      ensures Chain(mem[..], r, B.Removed(list, k)) && LinksOnly(old(mem[..]), mem[..], list)
      ensures header < mem.Length && mem[header].Item?
      ensures mem[header].next == if k == 0 then NULL else old(mem[header].next)
    {
      ghost var m := mem[..];
      LinkOf(m, head, list, k);
      LinkOf(m, head, list, 0);
      var node := head;
      if node == header {
        r := mem[header].next;
        mem[header] := mem[header].(next := NULL);
        CutLinked(m, mem[..], head, list, k);
        return;
      }
      ghost var i: nat := 0;
      while mem[node].next != header
        invariant mem[..] == m && i < k && node == list[i] && node < mem.Length && mem[node].Item?
        decreases k - i
      {
        LinkOf(m, head, list, i);
        node := mem[node].next;
        i := i + 1;
        LinkOf(m, head, list, i);
      }
      LinkOf(m, head, list, i);
      mem[node] := mem[node].(next := mem[header].next);
      CutLinked(m, mem[..], head, list, k);
      r := head;
    }

    /** finsh_block_merge on the free list: the block at header with its free neighbours. */
    method BlockMerge(header: nat, ghost i: nat, ghost k: nat)
      requires Midway(mem[..], freeList, fs, allocateList, as_, bs, header)
      requires i < |bs| && k < |fs| && bs[i] == fs[k] == header
      modifies mem, this`fs, this`bs
      ensures Valid() && Live(mem[..], as_) == old(Live(mem[..], as_)) && Only(old(mem[..]), mem[..], old(bs), 0, 0)
    {
      hide Tiles, Parts, Apart, Chain, Live, B.Removed, Distinct, Ascending, Midway, Layout, Only;
      ghost var m := mem[..];
      MergeView(m, freeList, fs, allocateList, as_, bs, i, k);
      var nextNode := mem[header].next;
      var prevNode := NULL;
      if freeList != header {
        prevNode := Before(header, k);
      }
      if prevNode != NULL && prevNode + mem[prevNode].length + HEADER == header {
        if nextNode != NULL && header + mem[header].length + HEADER == nextNode {
          mem[prevNode] := Item(mem[prevNode].length + mem[header].length + mem[nextNode].length + 2 * HEADER,
            mem[nextNode].next);
          MergeBoth(m, mem[..], freeList, fs, allocateList, as_, bs, i, k);
          B.RemovedIndex(fs, k + 1);
          B.RemovedIndex(bs, i + 1);
          fs, bs := B.Removed(B.Removed(fs, k + 1), k), B.Removed(B.Removed(bs, i + 1), i);
        } else {
          mem[prevNode] := Item(mem[prevNode].length + mem[header].length + HEADER, mem[header].next);
          MergeLeft(m, mem[..], freeList, fs, allocateList, as_, bs, i, k);
          fs, bs := B.Removed(fs, k), B.Removed(bs, i);
        }
      } else if nextNode != NULL && header + mem[header].length + HEADER == nextNode {
        mem[header] := Item(mem[header].length + mem[nextNode].length + HEADER, mem[nextNode].next);
        MergeRight(m, mem[..], freeList, fs, allocateList, as_, bs, i, k);
        fs, bs := B.Removed(fs, k + 1), B.Removed(bs, i + 1);
      } else {
        Settled(m, freeList, fs, allocateList, as_, bs, i);
        OnlySame(m, bs);
      }
    }

    /** The entry before entry k of the free list. */
    method Before(header: nat, ghost k: nat) returns (r: int)
      requires Chain(mem[..], freeList, fs) && 0 < k < |fs| && fs[k] == header
      ensures r == fs[k - 1]
    {
      ghost var i: nat := 0;
      r := freeList;
      LinkOf(mem[..], freeList, fs, 0);
      LinkOf(mem[..], freeList, fs, k);
      while mem[r].next != header
        invariant i < k && r == fs[i] && r < mem.Length && mem[r].Item?
        decreases k - i
      {
        LinkOf(mem[..], freeList, fs, i);
        r := mem[r].next;
        i := i + 1;
        LinkOf(mem[..], freeList, fs, i);
      }
      LinkOf(mem[..], freeList, fs, i);
    }

    /** finsh_block_split: the part behind the first `size` words becomes a block of its own. */
    method BlockSplit(header: nat, size: nat)
      requires header + HEADER + size + HEADER <= mem.Length && mem[header].Item? && size + HEADER <= mem[header].length
      modifies mem
      ensures SplitAt(old(mem[..]), mem[..], header, header + HEADER + size)
    {
      var next := header + HEADER + size;
      mem[next], mem[next + 1] := Item(mem[header].length - HEADER - size, mem[header].next), Body;
      mem[header] := Item(size, next);
    }

    /** The first free block longer than the bound. */
    method FirstOver(bound: int) returns (r: int, ghost k: nat)
      requires Chain(mem[..], freeList, fs)
      ensures k <= |fs| && r == (if k < |fs| then fs[k] else NULL) && NoneOver(mem[..], fs[..k], bound)
      ensures k < |fs| ==> r < mem.Length && mem[r].Item? && mem[r].length > bound
    {
      hide Chain;
      HeadOf(mem[..], freeList, fs);
      r, k := freeList, 0;
      while r != NULL
        invariant k <= |fs| && r == (if k < |fs| then fs[k] else NULL) && NoneOver(mem[..], fs[..k], bound)
        decreases |fs| - k
      {
        LinkOf(mem[..], freeList, fs, k);
        if mem[r].length > bound {
          return;
        }
        assert fs[..k + 1] == fs[..k] + [fs[k]];
        r := mem[r].next;
        k := k + 1;
      }
    }

    // ---------- the calls ----------

    /** Entry k leaves the free list gs; its link is cleared. */
    method Withdraw(header: nat, ghost gs: seq<nat>, ghost k: nat)
      requires Chain(mem[..], freeList, gs) && k < |gs| && gs[k] == header && Distinct(gs)
      modifies mem, this`freeList
      ensures Chain(mem[..], freeList, B.Removed(gs, k)) && LinksOnly(old(mem[..]), mem[..], gs)
      ensures header < mem.Length && mem[header].Item? && mem[header].next == NULL
    {
      hide Chain, LinksOnly, B.Removed, Distinct;
      ghost var m := mem[..];
      freeList := BlockRemove(freeList, header, gs, k);
      ghost var m1 := mem[..];
      mem[header] := mem[header].(next := NULL);
      ClearLink(m, m1, mem[..], freeList, gs, k);
    }

    /** The block at header, on the free list, cut to `size` words and moved to the allocated list. */
    method Carve(header: nat, size: nat, ghost i: nat, ghost k: nat)
      requires Valid() && i < |bs| && k < |fs| && bs[i] == fs[k] == header < mem.Length && mem[header].Item?
      requires size + HEADER <= mem[header].length
      modifies this, mem
      ensures Valid() && Live(mem[..], as_) == old(Live(mem[..], as_))[header := size]
      ensures Only(old(mem[..]), mem[..], old(bs), header + HEADER + size, header + HEADER + size + HEADER)
      ensures |bs| == |old(bs)| + 1 && bs[i] == header && bs[i + 1] == header + HEADER + size
      ensures forall x :: x in bs <==> x in old(bs) || x == header + HEADER + size
      ensures header + HEADER + size + HEADER <= if i + 1 < |old(bs)| then old(bs)[i + 1] else mem.Length
      ensures header !in old(as_)
    {
      hide Chain, Live, Only, LinksOnly, Put, B.Removed, B.Inserted, Ascending, Distinct, Tiles, Parts, Apart, Layout,
        Midway, SplitAt;
      ghost var m, p := mem[..], header + HEADER + size;
      ghost var f0, a0, fs0, as0, bs0 := freeList, allocateList, fs, as_, bs;
      LayoutFacts(m, freeList, fs, allocateList, as_, bs);
      TileOf(m, bs, i);
      if i + 1 < |bs| {
        TileOf(m, bs, i + 1);
      }
      InListApart(fs, as_, k);
      BlockSplit(header, size);
      ghost var ms := mem[..];
      SplitStep(m, ms, freeList, fs, allocateList, as_, bs, i, k, p);
      SplitLengths(m, ms, header, p);
      ghost var gs := Put(fs, k + 1, p);
      TakeMembers(bs, fs, as_, i, k, p, Below(as_, header));
      PutIndex(fs, k + 1, p);
      HeadOf(ms, freeList, gs);
      DistinctList(gs);
      Withdraw(header, gs, k);
      ghost var m2 := mem[..];
      LinksKeepChain(ms, m2, a0, as_, gs);
      allocateList := BlockInsert(allocateList, header, as_);
      bs := B.Inserted(bs, i, p);
      TakeStep(ms, m2, mem[..], freeList, gs, as_, allocateList, bs, k);
      fs, as_ := B.Removed(gs, k), Put(as_, Below(as_, header), header);
      TakeLayout(m, mem[..], f0, fs0, freeList, a0, as0, allocateList, bs0, i, k, p);
      OnlyAfter(m, ms, mem[..], bs0, bs, p);
    }

    /** finsh_heap_free of the allocated block whose data begins at ptr. */
    method Free(ptr: nat, ghost k: nat)
      requires Valid() && k < |as_| && as_[k] + HEADER == ptr
      modifies this, mem
      ensures Valid() && as_ == B.Removed(old(as_), k)
      ensures Live(mem[..], as_) == old(Live(mem[..], as_)) - {ptr - HEADER}
      ensures PayloadsKept(old(mem[..]), mem[..], as_, NULL)
    {
      hide Tiles, Parts, Apart, Chain, Live, B.Removed, Distinct, Ascending, Midway, Layout, Only, Put, LinksOnly,
        PayloadsKept;
      ghost var m, f0, a0, fs0, as0 := mem[..], freeList, allocateList, fs, as_;
      LayoutFacts(m, freeList, fs, allocateList, as_, bs);
      var header := ptr - HEADER;
      assert as_[k] in as_;
      TopIsLast(m, bs, fs, header);
      allocateList := BlockRemove(allocateList, header, as_, k);
      as_ := B.Removed(as_, k);
      ghost var m1 := mem[..];
      LinksKeepChain(m, m1, freeList, fs, as0);
      freeList := BlockInsert(freeList, header, fs);
      fs := Put(fs, Below(fs, header), header);
      FreeStep(m, m1, mem[..], f0, fs0, freeList, a0, as0, allocateList, bs, k);
      ghost var i :| 0 <= i < |bs| && bs[i] == header;
      PutIndex(fs0, Below(fs0, header), header);
      LiveCut(m, as0, k);
      ghost var m2, bs0 := mem[..], bs;
      BlockMerge(header, i, Below(fs0, header));
      OnlyTwice(m, m2, mem[..], bs0);
      HeadersKeepPayloads(m, mem[..], bs0, as_, header);
    }

    /** finsh_heap_gc: frees the allocated blocks no variable points to. */
    method Gc(vars: seq<Variable>)
      requires Valid()
      modifies this, mem
      ensures Valid() && Live(mem[..], as_) == Reachable(vars, old(Live(mem[..], as_)))
      ensures PayloadsKept(old(mem[..]), mem[..], as_, NULL)
    {
      hide Chain, Live, B.Removed, Layout, PayloadsKept, Refers, Swept, Reachable, Tiles, Parts, Apart, Ascending,
        Distinct;
      ghost var m0, a0, as0, live0 := mem[..], allocateList, as_, Live(mem[..], as_);
      LayoutFacts(m0, freeList, fs, allocateList, as_, bs);
      PayloadsSame(m0, freeList, fs, allocateList, as_, bs);
      SweepStart(vars, live0, as_);
      HeadOf(m0, allocateList, as_);
      var header := allocateList;
      ghost var i: nat := 0;
      while header != NULL
        invariant Valid() && i <= |as_| && header == if i < |as_| then as_[i] else NULL
        invariant Swept(vars, live0, Live(mem[..], as_), as_, i) && PayloadsKept(m0, mem[..], as_, NULL)
        decreases |as_| - i
      {
        var slot := FindSlot(vars, header + HEADER);
        var temp := header;
        ghost var m1, a1, as1 := mem[..], allocateList, as_;
        LayoutFacts(m1, freeList, fs, allocateList, as_, bs);
        LinkOf(m1, allocateList, as_, i);
        header := mem[header].next;
        if slot == |vars| {
          Free(temp + HEADER, i);
          B.RemovedIndex(as1, i);
          SweepPayloads(vars, m0, m1, mem[..], a0, a1, as0, as1, i);
          SweepDrop(vars, live0, Live(m1, as1), as1, i);
        } else {
          SweepKeep(vars, live0, Live(m1, as1), as1, i);
          i := i + 1;
        }
      }
      LayoutFacts(mem[..], freeList, fs, allocateList, as_, bs);
      LiveKeys(mem[..], allocateList, as_);
      SweepEnd(vars, live0, Live(mem[..], as_), as_);
    }

    /** The first slot of the variable table in use that holds the pointer, the table's size if there is none. */
    method FindSlot(vars: seq<Variable>, data: int) returns (i: nat)
      ensures i <= |vars| && (i < |vars| <==> Refers(vars, data))
    {
      i := 0;
      while i < |vars|
        invariant i <= |vars| && forall j :: 0 <= j < i ==> !(vars[j].known && vars[j].ptr == data)
      {
        if vars[i].known {
          if vars[i].ptr == data {
            return;
          }
        }
        i := i + 1;
      }
    }

    /** memset of n words to zero */
    method Clear(lo: nat, n: nat)
      requires lo + n <= mem.Length
      modifies mem
      ensures forall k: nat :: k < mem.Length ==> mem[k] == if lo <= k < lo + n then Data(0) else old(mem[k])
    {
      for j := 0 to n
        invariant forall k: nat :: k < mem.Length ==> mem[k] == if lo <= k < lo + j then Data(0) else old(mem[k])
      {
        mem[lo + j] := Data(0);
      }
    }

    /** Carve and clear: the block's words are zero, all other contents are kept. */
    method Deliver(header: nat, size: nat, ghost k: nat)
      requires Valid() && k < |fs| && fs[k] == header < mem.Length && mem[header].Item?
          && size + HEADER <= mem[header].length
      modifies this, mem
      ensures Valid() && Live(mem[..], as_) == old(Live(mem[..], as_))[header := size]
          && header !in old(Live(mem[..], as_))
      ensures PayloadsKept(old(mem[..]), mem[..], old(as_), NULL)
      ensures header + HEADER + size <= mem.Length && forall j :: header + HEADER <= j < header + HEADER + size ==>
          mem[j] == Data(0)
    {
      hide Chain, Live, Put, B.Removed, B.Inserted, Ascending, Distinct, Tiles, Parts, Apart, Layout, Midway,
        PayloadsKept;
      ghost var m, bs0, as0 := mem[..], bs, as_;
      LayoutFacts(m, freeList, fs, allocateList, as_, bs);
      LiveKeys(m, allocateList, as_);
      assert fs[k] in fs;
      ghost var i :| 0 <= i < |bs| && bs[i] == header;
      if i + 1 < |bs| {
        TileOf(m, bs, i + 1);
      }
      Carve(header, size, i, k);
      ghost var m3 := mem[..];
      Clear(header + HEADER, size);
      LayoutFacts(m3, freeList, fs, allocateList, as_, bs);
      RoomIsData(m3, bs, i);
      DataStep(m3, mem[..], freeList, fs, allocateList, as_, bs);
      OnlyRoom(m, m3, mem[..], bs0, header + HEADER, header + HEADER + size);
      DeliverPayloads(m, mem[..], bs0, as0, i, header + HEADER, header + HEADER + size + HEADER);
    }

    /**
     The search of finsh_heap_allocate: the first block strictly longer than the request with a header;
     failing that, after a collection, the first one at least that long.
     */
    method FindRoom(n: nat, vars: seq<Variable>) returns (header: int, ghost k: nat)
      requires Valid()
      modifies this, mem
      ensures Valid() && k <= |fs| && header == if k < |fs| then fs[k] else NULL
      ensures k < |fs| ==> header < mem.Length && mem[header].Item? && mem[header].length >= n + HEADER
      ensures k == |fs| ==> old(NoneOver(mem[..], fs, n + HEADER)) && NoneOver(mem[..], fs, n + HEADER - 1)
      ensures !old(NoneOver(mem[..], fs, n + HEADER)) ==> fs == old(fs) && NoneOver(old(mem[..]), fs[..k], n + HEADER)
      ensures Live(mem[..], as_) == Left(vars, old(Live(mem[..], as_)), old(NoneOver(mem[..], fs, n + HEADER)))
      ensures PayloadsKept(old(mem[..]), mem[..], as_, NULL)
    {
      hide Chain, Live, Parts, Ascending, Distinct, Tiles, Apart, Layout, Midway, Reachable, PayloadsKept;
      LayoutFacts(mem[..], freeList, fs, allocateList, as_, bs);
      PayloadsSame(mem[..], freeList, fs, allocateList, as_, bs);
      header, k := FirstOver(n + HEADER);
      assert fs[..|fs|] == fs;
      if header == NULL {
        Gc(vars);
        LayoutFacts(mem[..], freeList, fs, allocateList, as_, bs);
        header, k := FirstOver(n + HEADER - 1);
        assert fs[..|fs|] == fs;
      }
    }

    /** finsh_heap_allocate */
    method Allocate(size: U32, vars: seq<Variable>) returns (ptr: int)
      requires Valid() && 4 * (Words(size) + HEADER) < 0x1_0000_0000
      modifies this, mem
      ensures Valid()
      ensures var n, tight := Words(size), old(NoneOver(mem[..], fs, Words(size) + HEADER));
        var left := Left(vars, old(Live(mem[..], as_)), tight);
        if ptr == NULL then
          tight && Live(mem[..], as_) == left && NoneOver(mem[..], fs, n + HEADER - 1)
        else
          ptr >= HEADER && ptr - HEADER !in left && Live(mem[..], as_) == left[ptr - HEADER := n]
      ensures ptr != NULL && !old(NoneOver(mem[..], fs, Words(size) + HEADER)) ==>
        exists k :: 0 <= k < |old(fs)| && ptr == old(fs)[k] + HEADER
          && NoneOver(old(mem[..]), old(fs)[..k], Words(size) + HEADER)
      ensures ptr != NULL ==>
        ptr + Words(size) <= mem.Length && forall j :: ptr <= j < ptr + Words(size) ==> mem[j] == Data(0)
      ensures PayloadsKept(old(mem[..]), mem[..], as_, ptr - HEADER)
    {
      hide Chain, Live, Parts, Ascending, Distinct, Tiles, Apart, Layout, Midway, Reachable, PayloadsKept, NoneOver,
        Left;
      ghost var m, a0, as0 := mem[..], allocateList, as_;
      LayoutFacts(m, freeList, fs, allocateList, as_, bs);
      var header, k := FindRoom(Words(size), vars);
      if header == NULL {
        PayloadsWiden(m, mem[..], as_, as_, NULL - HEADER);
        return NULL;
      }
      ghost var m1, as1, a1 := mem[..], as_, allocateList;
      LayoutFacts(m1, freeList, fs, allocateList, as_, bs);
      Deliver(header, Words(size), k);
      ptr := header + HEADER;
      LayoutFacts(mem[..], freeList, fs, allocateList, as_, bs);
      DeliveredPayloads(vars, m, m1, mem[..], a0, as0, a1, as1, allocateList, as_, header, Words(size),
        old(NoneOver(mem[..], fs, Words(size) + HEADER)));
    }

    /** A client writes word k of the block whose data begins at ptr. */
    method Write(ptr: nat, k: nat, v: int)
      requires Valid() && ptr >= HEADER && ptr - HEADER in Live(mem[..], as_) && k < Live(mem[..], as_)[ptr - HEADER]
      modifies mem
      ensures Valid() && Live(mem[..], as_) == old(Live(mem[..], as_)) && ptr + k < mem.Length
      ensures mem[..] == old(mem[..])[ptr + k := Data(v)]
    {
      ghost var m := mem[..];
      LayoutFacts(m, freeList, fs, allocateList, as_, bs);
      LiveKeys(m, allocateList, as_);
      hide Chain, Live, Tiles, Parts, Apart, Layout, Midway;
      InsideIsData(m, bs, ptr - HEADER, ptr + k);
      mem[ptr + k] := Data(v);
      DataStep(m, mem[..], freeList, fs, allocateList, as_, bs);
    }
  }
}
