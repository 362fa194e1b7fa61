/** The allocator itself (kernel/malloc.c). */
module Heap {
  import opened HeapChain
  import opened HeapMemory
  import opened DoubleFree

  class Heap {
    var mem: Mem
    var allocEnd: nat
    var brk: nat        // sbrk(0)
    const start: nat    // the break when the kernel starts
    const limit: nat    // where sbrk runs out of memory
    ghost var chain: Chain

    ghost function S(): State
      reads this
    {
      State(chain, allocEnd, brk)
    }

    ghost predicate Valid()
      reads this
    {
      Inv(S(), start) && Linked(mem, chain)
    }

    constructor (start: nat, limit: nat)
      requires IMAGE_END <= start
      ensures Valid() && S() == Initial(start)
      ensures this.start == start && this.limit == limit
    {
      this.start, this.limit, brk, allocEnd := start, limit, start, 0;
      mem := Mem(map[HEAD := Meta(0, false, NULL, TAIL), TAIL := Meta(0, false, HEAD, NULL)], map[]);
      chain := [HEAD_BLOCK, TAIL_BLOCK];
    }

    /** One write to a header, at an address clear of every payload in use. */
    method Write(a: int, h: Meta, ghost m0: Mem)
      requires Clear(a, chain) && KeepsPayloads(m0, mem, chain)
      modifies this`mem
      ensures mem == old(mem).Put(a, h) && mem.meta == old(mem.meta)[a := h]
      ensures KeepsPayloads(m0, mem, chain)
    {
      mem := mem.Put(a, h);
    }

    /** Hands out the free block at `block`, splitting off the rest when it is worth a block. */
    method Take(block: int, size: nat, ghost i: nat)
      requires Valid() && 1 <= i < |chain| - 1 && chain[i].at == block
      requires Fits(chain[i], size) && size % WORD == 0
      modifies this
      ensures Valid() && S() == old(S()).(chain := Carve(old(chain), i, size))
      ensures KeepsPayloads(old(mem), mem, old(chain))
    {
      ghost var c, m := chain, mem;
      AllClear(c, start, Top(S()));
      CarveInv(S(), start, i, size);
      assert LinkedAt(m, c, i) && LinkedAt(m, c, i + 1) && !c[i + 1].free;
      Write(block, mem.meta[block].(free := false), m);
      if mem.meta[block].size - size >= WORD + META {
        SplitOff(block, size, i, m);
      } else {
        LinkedMark(m, mem, c, i, false);
      }
      chain := Carve(c, i, size);
    }

    method SplitOff(block: int, size: nat, ghost i: nat, ghost m: Mem)
      requires Tiled(chain, start, Top(S())) && IMAGE_END <= start
      requires 1 <= i < |chain| - 1 && chain[i].at == block && Linked(m, chain)
      requires chain[i].free && chain[i].size >= size + META && !chain[i + 1].free
      requires LinkedAt(m, chain, i) && mem.meta == m.meta[block := m.meta[block].(free := false)]
      requires KeepsPayloads(m, mem, chain)
      modifies this`mem
      ensures Linked(mem, Mark(Split(chain, i, size), i, false))
      ensures KeepsPayloads(m, mem, chain)
    {
      var newBlock := block + size + META;
      ghost var c, next' := chain, chain[i + 1].at;
      assert Own(c, i) && Own(c, i + 1) && Clear(block, c) && Clear(next', c) by {
        AllClear(c, start, Top(S()));
      }
      InsideFree(c, start, Top(S()), i, newBlock);
      assert LinkedAt(m, c, i + 1) && newBlock != block && newBlock != next' && block != next';
      SplitWrites(block, newBlock, next', size, m);
      LinkedSplit(m, mem, c, i, size);
      if At(mem, At(mem, newBlock).next).free {
        assert false;  // the block after a free block is never free
      }
    }

    /** The header writes of the split, in the order malloc makes them. */
    method SplitWrites(block: int, newBlock: int, ghost next': int, size: nat, ghost m: Mem)
      requires newBlock == block + size + META && block != next' && newBlock != next'
      requires block in mem.meta && next' in mem.meta && mem.meta[block].next == next'
      requires mem.meta[block].size >= size + META
      requires Clear(block, chain) && Clear(newBlock, chain) && Clear(next', chain) && KeepsPayloads(m, mem, chain)
      modifies this`mem
      ensures var h := old(mem.meta[block]);
        mem.meta == old(mem.meta)[next' := old(mem.meta[next']).(prev := newBlock)]
                                 [newBlock := Meta(h.size - size - META, true, block, next')]
                                 [block := h.(size := size, next := newBlock)]
      ensures KeepsPayloads(m, mem, chain)
    {
      var h: Meta := *;
      Write(newBlock, h.(size := mem.meta[block].size - size - META), m);
      Write(block, mem.meta[block].(size := mem.meta[block].size - (mem.meta[newBlock].size + META)), m);
      var next := mem.meta[block].next;
      Write(next, mem.meta[next].(prev := newBlock), m);
      Write(newBlock, mem.meta[newBlock].(prev := block), m);
      Write(newBlock, mem.meta[newBlock].(next := mem.meta[block].next), m);
      Write(block, mem.meta[block].(next := newBlock), m);
      Write(newBlock, mem.meta[newBlock].(free := true), m);
    }

    /** Contiguous growth by whole pages, at least one; -1 when memory is exhausted. */
    method Sbrk(amount: nat) returns (r: int)
      modifies this`brk
      ensures amount == 0 ==> r == brk == old(brk)
      ensures amount > 0 ==> var more := if amount < PAGE then PAGE else amount - amount % PAGE;
        if old(brk) + more > limit then r == -1 && brk == old(brk) else r == old(brk) && brk == old(brk) + more
    {
      if amount == 0 {
        return brk;
      }
      var pages := amount / PAGE;
      if pages == 0 {
        pages := pages + 1;
      }
      if brk + pages * PAGE > limit {
        return -1;
      }
      r := brk;
      brk := brk + pages * PAGE;
    }

    method Malloc(request: nat) returns (p: int)
      requires Valid()
      modifies this
      ensures Valid() && (S(), p) == MallocStep(old(S()), request, limit)
      ensures KeepsPayloads(old(mem), mem, old(chain))
    {
      hide Heap.Valid, Carve, FirstFit, Extend, Grow, Live, KeepsPayloads, Fits, Inv;
      var size := request;
      if size % WORD != 0 {
        size := size + (WORD - size % WORD);
      }
      assert size == RoundUp(request);
      Sentinels();
      var block, i := Find(size);
      if block != TAIL {
        Take(block, size, i);
        return block + META;
      }
      p := Append(size);
    }

    lemma Sentinels()
      requires Valid()
      ensures |chain| >= 2
    {}

    /** The first-fit search along the next pointers; TAIL when no free block is large enough. */
    method Find(size: nat) returns (block: int, ghost i: nat)
      requires Valid()
      ensures 1 <= i < |chain| && i == FirstFit(chain, size, 1) && block == chain[i].at
      ensures block == TAIL <==> i == |chain| - 1
    {
      block, i := HEAD, 0;
      Layout(chain, start, Top(S()));
      assert LinkedAt(mem, chain, 0);
      while mem.meta[block].next != TAIL
        invariant 0 <= i < |chain| - 1 && block == chain[i].at && LinkedAt(mem, chain, i)
        invariant FirstFit(chain, size, 1) == FirstFit(chain, size, i + 1)
        decreases |chain| - i
      {
        block, i := mem.meta[block].next, i + 1;
        assert LinkedAt(mem, chain, i);
        if mem.meta[block].free && mem.meta[block].size >= size {
          return;
        }
      }
      block, i := TAIL, i + 1;
    }

    /** Nothing fits: grow the break until there is room for a block of `size` after the last one. */
    method Append(size: nat) returns (p: int)
      requires Valid() && size % WORD == 0
      requires FirstFit(chain, size, 1) == |chain| - 1
      modifies this
      ensures Valid() && (S(), p) == MallocStep(old(S()), size, limit)
      ensures KeepsPayloads(old(mem), mem, old(chain))
    {
      var room := Enlarge(size + META);
      if !room {
        return NULL;
      }
      p := LinkLast(size);
    }

    /** Grows the break, page by page, until `need` bytes are free past the last block. */
    method Enlarge(need: nat) returns (room: bool)
      modifies this`allocEnd, this`brk
      ensures allocEnd == Top(old(S())) && brk == Grow(old(brk), allocEnd + need, limit)
      ensures room <==> brk >= allocEnd + need
    {
      if allocEnd == 0 {
        allocEnd := Sbrk(0);
      }
      var brk0 := Sbrk(0);
      while brk0 - allocEnd < need
        invariant brk0 == brk >= old(brk) && allocEnd == Top(old(S()))
        invariant Grow(brk, allocEnd + need, limit) == Grow(old(brk), allocEnd + need, limit)
        decreases allocEnd + need - brk
      {
        var r := Sbrk(PAGE);
        if r == -1 {
          return false;
        }
        brk0 := Sbrk(0);
      }
      room := true;
    }

    method LinkLast(size: nat) returns (p: int)
      requires Valid() && size % WORD == 0 && allocEnd != 0 && allocEnd + size + META <= brk
      modifies this
      ensures Valid() && p == old(allocEnd) + META
      ensures S() == State(Extend(old(chain), old(allocEnd), size), old(allocEnd) + size + META, old(brk))
      ensures KeepsPayloads(old(mem), mem, old(chain))
    {
      ExtendInv(S(), start, size, brk);
      ghost var c := chain;
      WriteLast(size);
      p := allocEnd + META;
      chain := Extend(c, allocEnd, size);
      allocEnd := allocEnd + size + META;
    }

    method WriteLast(size: nat)
      requires Tiled(chain, start, allocEnd) && IMAGE_END <= start <= allocEnd && Linked(mem, chain)
      modifies this`mem
      ensures Linked(mem, Extend(chain, allocEnd, size))
      ensures KeepsPayloads(old(mem), mem, chain)
    {
      ghost var c, m, last := chain, mem, |chain| - 2;
      ghost var l := c[last].at;
      assert Own(c, last) && Own(c, last + 1) && Clear(l, c) && Clear(TAIL, c) && Clear(allocEnd, c) by {
        AllClear(c, start, allocEnd);
      }
      assert forall k :: 0 <= k < |c| ==> c[k].at != allocEnd by {
        Layout(c, start, allocEnd);
      }
      assert LinkedAt(m, c, last) && LinkedAt(m, c, last + 1);
      var newBlock := allocEnd;
      assert newBlock != l && newBlock != TAIL && l != TAIL && c[last + 1].at == TAIL;
      LastWrites(newBlock, l, size, m);
      LinkedExtend(m, mem, c, newBlock, size);
    }

    /** The header writes of the append, in the order malloc makes them. */
    method LastWrites(newBlock: int, ghost l: int, size: nat, ghost m: Mem)
      requires newBlock != l && newBlock != TAIL && l != TAIL
      requires TAIL in mem.meta && l in mem.meta && mem.meta[TAIL].prev == l
      requires Clear(newBlock, chain) && Clear(l, chain) && Clear(TAIL, chain) && KeepsPayloads(m, mem, chain)
      modifies this`mem
      ensures mem.meta == old(mem.meta)[l := old(mem.meta[l]).(next := newBlock)]
                                       [TAIL := old(mem.meta[TAIL]).(prev := newBlock)]
                                       [newBlock := Meta(size, false, l, TAIL)]
      ensures KeepsPayloads(m, mem, chain)
    {
      var h: Meta := *;
      Write(newBlock, h.(next := TAIL), m);
      Write(newBlock, mem.meta[newBlock].(prev := mem.meta[TAIL].prev), m);
      var before := mem.meta[newBlock].prev;
      Write(before, mem.meta[before].(next := newBlock), m);
      Write(TAIL, mem.meta[TAIL].(prev := newBlock), m);
      Write(newBlock, mem.meta[newBlock].(free := false), m);
      Write(newBlock, mem.meta[newBlock].(size := size), m);
    }

    method Free(ptr: int)
      requires Valid() && (ptr == NULL || LivePtr(chain, ptr))
      modifies this
      ensures Valid() && S() == if ptr == NULL then old(S()) else FreeStep(old(S()), ptr)
      ensures mem == if ptr == NULL then old(mem) else FreeRaw(old(mem), ptr - META)
      ensures KeepsPayloads(old(mem), mem, chain)
    {
      if ptr != NULL {
        ghost var i := IndexOf(chain, ptr);
        FreeLinked(mem, chain, i, start, Top(S()));
        ReleaseInv(S(), start, i);
        FreeBlock(ptr - META);
        chain := Release(chain, i);
      }
    }

    /** free, whatever lies at the block's address and around it. */
    method FreeBlock(at: int)
      modifies this`mem
      ensures mem == FreeRaw(old(mem), at)
    {
      var block := at;
      Put(block, At(mem, block).(free := true));
      var prev := At(mem, block).prev;
      if At(mem, prev).free {
        Join(prev, block);
        block := prev;
      }
      var next := At(mem, block).next;
      if At(mem, next).free {
        Join(block, next);
      }
    }

    /** Block b leaves the list and the block at a takes over its bytes. */
    method Join(a: int, b: int)
      modifies this`mem
      ensures mem == JoinRaw(old(mem), a, b)
    {
      var next := At(mem, b).next;
      Put(next, At(mem, next).(prev := a));
      ghost var m := mem;
      Put(a, At(mem, a).(next := At(mem, b).next));
      Put(a, At(mem, a).(size := At(mem, a).size + At(mem, b).size + META));
      PutTwice(m, a, At(m, a).(next := next), At(mem, a));
    }

    method Put(a: int, h: Meta)
      modifies this`mem
      ensures mem == old(mem).Put(a, h)
    {
      mem := mem.Put(a, h);
    }

    /** Copies one byte; an unset byte stays unset. */
    method CopyByte(dst: int, src: int)
      modifies this`mem
      ensures mem.meta == old(mem.meta)
      ensures forall k :: k in mem.bytes <==> (if k == dst then src else k) in old(mem.bytes)
      ensures forall k :: k in mem.bytes ==> mem.bytes[k] == old(mem.bytes)[if k == dst then src else k]
    {
      if src in mem.bytes {
        mem := mem.(bytes := mem.bytes[dst := mem.bytes[src]]);
      } else {
        mem := mem.(bytes := map k | k in mem.bytes && k != dst :: mem.bytes[k]);
      }
    }

    /** memcpy between two ranges that do not overlap. */
    method MemCpy(dst: int, src: int, n: nat)
      requires dst + n <= src || src + n <= dst
      modifies this`mem
      ensures mem.meta == old(mem.meta) && Copied(old(mem), src, mem, dst, n)
      ensures forall lo, hi :: hi <= dst || dst + n <= lo ==> SameBytes(old(mem), mem, lo, hi)
    {
      ghost var m := mem;
      for i := 0 to n
        invariant mem.meta == m.meta && Copied(m, src, mem, dst, i)
        invariant forall k :: !(dst <= k < dst + i) ==>
          (k in mem.bytes <==> k in m.bytes) && (k in mem.bytes ==> mem.bytes[k] == m.bytes[k])
      {
        CopyByte(dst + i, src + i);
      }
    }

    /** Copying payload bytes from block `from` to block `to` disturbs no other block, and no header. */
    method CopyPayload(dst: int, src: int, n: nat, ghost to: Block, ghost from: Block)
      requires Valid() && to in Live(chain) && from in Live(chain) && to != from
      requires dst == to.at + META && src == from.at + META && n <= to.size && n <= from.size
      modifies this`mem
      ensures Valid() && mem.meta == old(mem.meta) && Copied(old(mem), src, mem, dst, n)
      ensures forall b :: b in Live(chain) && b != to ==> SameBytes(old(mem), mem, b.at + META, b.End())
    {
      ghost var m := mem;
      LiveApart(chain, start, Top(S()));
      MemCpy(dst, src, n);
      LinkedByMeta(m, mem, chain);
    }

    /** A new block with the old contents, up to the smaller of the two sizes; when there is no room,
        NULL, with the old block as it was. Size 0 frees the old block in any case, and frees it a second
        time unless there was no room: the headers then no longer form a list exactly when the block
        before it was free and malloc(0) did not take all of that. */
    method Realloc(pointer: int, size: nat) returns (p: int)
      requires Valid() && (pointer == NULL || LivePtr(chain, pointer))
      modifies this
      ensures Valid() <==> !(pointer != NULL && size == 0 && old(Corrupts(chain, IndexOf(chain, pointer))))
      ensures !Valid() ==> forall d: Chain :: !(Linked(mem, d) && Tiled(d, start, Top(S())))
      ensures p == MallocStep(old(S()), size, limit).1 && ReallocNext(old(S()), pointer, size, S(), limit)
      ensures pointer == NULL || (p == NULL && size > 0) ==> KeepsPayloads(old(mem), mem, old(chain))
      ensures p != NULL ==> !LivePtr(old(chain), p) && LivePtr(chain, p)
      ensures p != NULL && pointer != NULL ==> var b := old(BlockAt(pointer));
        && Moved(old(chain), chain, b, p, size)
        && Copied(old(mem), pointer, mem, p, if size < b.size then size else b.size)
      ensures pointer != NULL && (p != NULL || size == 0) ==>
        KeepsOthers(old(mem), mem, old(chain), old(BlockAt(pointer)))
    {
      ghost var s, m0 := S(), mem;
      assert Inv(s, start) && (pointer != NULL ==> 0 < IndexOf(chain, pointer) < |chain| - 1);
      hide MallocStep, Inv, Linked, Tiled, Corrupts, FreeStep, Heap.Valid, Grants, Live, LivePtr;
      hide Copied, SameBytes, Moved, KeepsPayloads, KeepsOthers;
      p := Malloc(size);
      Granted(s, size, p);
      if pointer != NULL {
        ghost var b, c, m1 := old(BlockAt(pointer)), chain, mem;
        if size == 0 {
          FreeOld(pointer, p, s, old(IndexOf(chain, pointer)));
        } else if p != NULL {
          MoveBytes(pointer, p, size, b, s.chain);
          CopiedBefore(m0, m1, mem, s.chain, b, p, if size < b.size then size else b.size);
        }
        if p != NULL {
          MovedTo(s.chain, c, chain, b, p, size);
        }
        if p != NULL || size == 0 {
          OthersBefore(m0, m1, mem, s.chain, b);
        }
      }
    }

    lemma Granted(s: State, size: nat, p: int)
      requires Inv(s, start) && Valid() && (S(), p) == MallocStep(s, size, limit)
      ensures p != NULL ==> Grants(s.chain, chain, p, RoundUp(size)) && LivePtr(chain, p)
      ensures Live(s.chain) <= Live(chain)
    {
      MallocStepInv(s, start, size, limit);
    }

    /** realloc(p, 0) after malloc(0), block i of s being the one at `pointer`. */
    method FreeOld(pointer: int, p: int, ghost s: State, ghost i: nat)
      requires Valid() && Inv(s, start) && (S(), p) == MallocStep(s, 0, limit)
      requires 1 <= i < |s.chain| - 1 && !s.chain[i].free && s.chain[i].at + META == pointer
      modifies this
      ensures Valid() <==> !Corrupts(s.chain, i)
      ensures !Valid() ==> forall d: Chain :: !(Linked(mem, d) && Tiled(d, start, Top(S())))
      ensures LivePtr(old(chain), pointer) && 0 < IndexOf(old(chain), pointer) < |old(chain)| - 1
      ensures S() == FreeStep(old(S()), pointer) && Live(chain) == Live(old(chain)) - {s.chain[i]}
      ensures KeepsOthers(old(mem), mem, s.chain, s.chain[i])
    {
      ghost var s1, m := S(), mem;
      ReallocZero(s, start, limit, mem, i);
      FreeStepInv(s1, start, pointer);
      ghost var j := IndexOf(chain, pointer);
      Granted(s, 0, p);
      ReleasedTwice(s1, m, j, s.chain);
      hide MallocStep, FreeRaw, Inv, Linked, Tiled, KeepsPayloads, LivePtr, Release, Live;
      Free(pointer);
      if p != NULL {
        FreeBlock(pointer - META);
      }
    }

    lemma ReleasedTwice(s: State, m: Mem, j: nat, c: Chain)
      requires Inv(s, start) && Linked(m, s.chain) && 1 <= j < |s.chain| - 1 && !s.chain[j].free
      requires Live(c) <= Live(s.chain)
      ensures KeepsOthers(m, FreeRaw(m, s.chain[j].at), c, s.chain[j])
      ensures KeepsOthers(m, FreeRaw(FreeRaw(m, s.chain[j].at), s.chain[j].at), c, s.chain[j])
    {
      var b, r := s.chain[j], Release(s.chain, j);
      FreeLinked(m, s.chain, j, start, Top(s));
      SecondFreeKeeps(m, s.chain, j, start, Top(s));
      ReleaseInv(s, start, j);
      hide FreeRaw, Release, Live, KeepsPayloads, KeepsOthers, Inv, Linked;
      OthersOf(m, FreeRaw(m, b.at), FreeRaw(m, b.at), c, r, b);
      OthersOf(m, FreeRaw(m, b.at), FreeRaw(FreeRaw(m, b.at), b.at), c, r, b);
    }

    /** realloc's second half: copy what fits into the block malloc has just added to those in c, and free
        the old block b. */
    method MoveBytes(pointer: int, p: int, size: nat, ghost b: Block, ghost c: Chain)
      requires Valid() && Grants(c, chain, p, RoundUp(size)) && b in Live(c) && b.at + META == pointer
      modifies this
      ensures LivePtr(old(chain), pointer) && 0 < IndexOf(old(chain), pointer) < |old(chain)| - 1
      ensures Valid() && S() == FreeStep(old(S()), pointer) && Live(chain) == Live(old(chain)) - {b}
      ensures Copied(old(mem), pointer, mem, p, if size < b.size then size else b.size)
      ensures KeepsOthers(old(mem), mem, c, b)
    {
      ghost var n :| n in Live(chain) && n.at + META == p && n.size >= RoundUp(size) && Live(chain) == Live(c) + {n};
      LiveApart(chain, start, Top(S()));
      assert LivePtr(chain, pointer);
      FreeStepInv(S(), start, pointer);
      LiveDistinct(chain, start, Top(S()));
      assert LinkedAt(mem, chain, IndexOf(chain, pointer));
      var oldSize := mem.meta[pointer - META].size;
      var least := if size < oldSize then size else oldSize;
      CopyPayload(p, pointer, least, n, b);
      ghost var copied := mem;
      Free(pointer);
      assert n in Live(chain) && SameBytes(copied, mem, p, p + least);
    }

    ghost function BlockAt(p: int): (b: Block)
      requires LivePtr(chain, p)
      reads this
      ensures b in Live(chain) && b.at + META == p
    {
      chain[IndexOf(chain, p)]
    }
  }
}
