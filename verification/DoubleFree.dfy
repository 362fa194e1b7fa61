/** What realloc(p, 0) does to the heap (kernel/malloc.c:133-145): it calls malloc(0), and when that
    succeeds, as it does whenever any block is free, it frees p twice. */
module DoubleFree {
  import opened HeapChain
  import opened HeapMemory

  /** Apart from back links, joining changes the header at a only. */
  lemma JoinEffect(m: Mem, a: int, b: int)
    requires At(m, b).next != a && a != b
    ensures var m' := JoinRaw(m, a, b);
      && (forall x :: At(m', x).free == At(m, x).free)
      && (forall x :: x != a ==> At(m', x).next == At(m, x).next && At(m', x).size == At(m, x).size)
      && At(m', a).next == At(m, b).next
      && At(m', a).size == At(m, a).size + At(m, b).size + META
  {}

  /** A second free finds nothing left to do when the block before is in use. */
  lemma SecondFreeHarmless(m: Mem, c: Chain, i: nat, start: int, end: int)
    requires Linked(m, c) && Tiled(c, start, end) && NoTwoFree(c) && Aligned(c) && IMAGE_END <= start
    requires 1 <= i < |c| - 1 && !c[i].free && !c[i - 1].free
    ensures FreeRaw(FreeRaw(m, c[i].at), c[i].at).meta == FreeRaw(m, c[i].at).meta
  {
    var m1, r := FreeRaw(m, c[i].at), Release(c, i);
    FreeLinked(m, c, i, start, end);
    ReleaseShape(c, i);
    ReleaseTiled(c, i, start, end);
    assert r[i].free && r[i].at == c[i].at && r[i - 1] == c[i - 1] && !r[i + 1].free;
    assert LinkedAt(m1, r, i) && LinkedAt(m1, r, i - 1) && LinkedAt(m1, r, i + 1);
    AllClear(r, start, end);
  }

  /** Otherwise the block before, already grown over the freed one, is grown a second time. */
  lemma SecondFreeGrows(m: Mem, c: Chain, i: nat, start: int, end: int)
    requires Linked(m, c) && Tiled(c, start, end) && NoTwoFree(c) && IMAGE_END <= start
    requires 1 <= i < |c| - 1 && !c[i].free && c[i - 1].free
    ensures var m1 := FreeRaw(m, c[i].at); var m2 := FreeRaw(m1, c[i].at); var a := c[i - 1].at;
      && At(m2, a).size > At(m1, a).size && At(m2, a).next == At(m1, a).next
      && (forall x :: x != a ==> At(m2, x).next == At(m1, x).next)
      && At(m1, c[i].at).prev == a && At(m1, c[i].at).next == c[i + 1].at
      && (At(m1, c[i + 1].at).free ==> c[i + 1].free && At(m1, c[i + 1].at).next == c[i + 2].at)
  {
    AllClear(c, start, end);
    assert c[0] == HEAD_BLOCK && c[|c| - 1] == TAIL_BLOCK;
    assert LinkedAt(m, c, i) && LinkedAt(m, c, i - 1) && LinkedAt(m, c, i + 1);
    var a, b, n := c[i - 1].at, c[i].at, c[i + 1].at;
    if c[i + 1].free {
      assert LinkedAt(m, c, i + 2) && c[i + 2].at != a && c[i + 2].at != n;
    }
    var m1 := FreeOnce(m, a, b, n);
    var m2 := FreeOnce(m1, a, b, n);
  }

  /** free on block b between a free block a and a block n, as its headers say. */
  lemma FreeOnce(m: Mem, a: int, b: int, n: int) returns (m': Mem)
    requires a != b && b != n && a != n && At(m, a).free
    requires At(m, b).prev == a && At(m, b).next == n && (At(m, n).free ==> At(m, n).next != a)
    ensures m' == FreeRaw(m, b)
    ensures forall x :: x != b ==> At(m', x).free == At(m, x).free
    ensures forall x :: x != a ==> At(m', x).next == At(m, x).next
    ensures At(m', b).prev == a && At(m', b).next == n
    ensures At(m', a).next == if At(m, n).free then At(m, n).next else n
    ensures At(m', a).size > At(m, a).size
  {
    var m1 := m.Put(b, At(m, b).(free := true));
    JoinEffect(m1, a, b);
    var m2 := JoinRaw(m1, a, b);
    if At(m2, n).free {
      JoinEffect(m2, a, n);
    }
    m' := FreeRaw(m, b);
  }

  /** Two lists whose headers agree on next pointers as far as block i have the same blocks there. */
  lemma {:induction false} SamePlaces(m: Mem, c: Chain, m': Mem, d: Chain, i: nat, start: int, end: int)
    requires Linked(m, c) && Tiled(c, start, end) && Linked(m', d) && Tiled(d, start, end)
    requires IMAGE_END <= start && i < |c| && forall x :: At(m', x).next == At(m, x).next
    ensures i < |d| && d[i].at == c[i].at && (i == |d| - 1 <==> i == |c| - 1)
  {
    if i > 0 {
      SamePlaces(m, c, m', d, i - 1, start, end);
      assert LinkedAt(m, c, i - 1) && LinkedAt(m', d, i - 1);
      assert c[i].at == At(m, c[i - 1].at).next && d[i].at == At(m', d[i - 1].at).next;
    }
    AllClear(c, start, end);
    AllClear(d, start, end);
    assert c[|c| - 1].at == TAIL && d[|d| - 1].at == TAIL;
  }

  /** A block grown without moving what follows it no longer ends where the next one begins. */
  lemma GrownNotTiled(m: Mem, c: Chain, m': Mem, d: Chain, i: nat, start: int, end: int)
    requires Linked(m, c) && Tiled(c, start, end) && Linked(m', d) && Tiled(d, start, end)
    requires IMAGE_END <= start && 1 <= i < |c| && forall x :: At(m', x).next == At(m, x).next
    ensures At(m', c[i - 1].at).size == At(m, c[i - 1].at).size
  {
    SamePlaces(m, c, m', d, i - 1, start, end);
    SamePlaces(m, c, m', d, i, start, end);
    assert LinkedAt(m, c, i - 1) && LinkedAt(m', d, i - 1);
    assert Begin(c, i, end) == Begin(d, i, end);
  }

  /** After two frees of one block the headers still form a list, and then the list they formed after the
      first, exactly when the block before it was in use. */
  lemma FreeTwice(m: Mem, c: Chain, i: nat, start: int, end: int)
    requires Linked(m, c) && Tiled(c, start, end) && NoTwoFree(c) && Aligned(c) && IMAGE_END <= start
    requires 1 <= i < |c| - 1 && !c[i].free
    ensures var m2 := FreeRaw(FreeRaw(m, c[i].at), c[i].at);
      if c[i - 1].free then !exists d: Chain :: Linked(m2, d) && Tiled(d, start, end)
      else Linked(m2, Release(c, i)) && Tiled(Release(c, i), start, end)
  {
    var m1, r := FreeRaw(m, c[i].at), Release(c, i);
    var m2 := FreeRaw(m1, c[i].at);
    FreeLinked(m, c, i, start, end);
    ReleaseTiled(c, i, start, end);
    if !c[i - 1].free {
      SecondFreeHarmless(m, c, i, start, end);
      LinkedByMeta(m1, m2, r);
    } else {
      SecondFreeGrows(m, c, i, start, end);
      assert i >= 2 && |r| > i && r[i - 1].at == c[i - 1].at;
      hide FreeRaw, Release, Tiled, Linked;
      forall d: Chain | Linked(m2, d) && Tiled(d, start, end) ensures false {
        GrownNotTiled(m1, r, m2, d, i, start, end);
      }
    }
  }

  // ---- payloads ----

  lemma JoinKeeps(m0: Mem, m: Mem, a: int, b: int, c: Chain)
    requires KeepsPayloads(m0, m, c) && Clear(a, c) && Clear(At(m, b).next, c)
    ensures KeepsPayloads(m0, JoinRaw(m, a, b), c)
  {
    var next := At(m, b).next;
    PutKeeps(m0, m, next, At(m, next).(prev := a), c);
    var m1 := m.Put(next, At(m, next).(prev := a));
    PutKeeps(m0, m1, a, At(m1, a).(next := next, size := At(m1, a).size + At(m1, b).size + META), c);
  }

  /** free writes to at most four headers: the block's, its neighbours', and that after a free next one. */
  lemma FreeWrites(m: Mem, b: int, a: int, n: int, c: Chain)
    requires At(m, b).prev == a && At(m, b).next == n && a != b && b != n && a != n
    requires Clear(a, c) && Clear(b, c) && Clear(n, c) && (At(m, n).free ==> Clear(At(m, n).next, c))
    ensures KeepsPayloads(m, FreeRaw(m, b), c)
  {
    var m1 := m.Put(b, At(m, b).(free := true));
    PutKeeps(m, m, b, At(m, b).(free := true), c);
    JoinEffect(m1, a, b);
    hide Clear, KeepsPayloads;
    if At(m1, a).free {
      JoinKeeps(m, m1, a, b, c);
      if At(m1, n).free {
        JoinKeeps(m, JoinRaw(m1, a, b), a, n, c);
      }
    } else if At(m1, n).free {
      JoinKeeps(m, m1, b, n, c);
    }
  }

  /** Where the block before the freed one ends once it has taken over its neighbours. */
  lemma GrownOver(c: Chain, i: nat, start: int, end: int)
    requires Tiled(c, start, end) && 1 <= i < |c| - 1 && c[i - 1].free
    ensures var r := Release(c, i);
      && 2 <= i < |r| && r[i - 1].at == c[i - 1].at && r[i - 1].free
      && r[i - 1].End() == c[if c[i + 1].free then i + 1 else i].End()
      && r[i] == c[if c[i + 1].free then i + 2 else i + 1]
      && c[i - 1].End() == c[i].at && (c[i + 1].free ==> i + 2 < |c| && c[i].End() == c[i + 1].at)
  {
    assert Begin(c, i, end) == c[i - 1].End() && Begin(c, i + 1, end) == c[i].End();
    assert !c[0].free && !c[|c| - 1].free;
  }

  /** The second free changes no byte of a payload in use. */
  lemma SecondFreeKeeps(m: Mem, c: Chain, i: nat, start: int, end: int)
    requires Linked(m, c) && Tiled(c, start, end) && NoTwoFree(c) && Aligned(c) && IMAGE_END <= start
    requires 1 <= i < |c| - 1 && !c[i].free
    ensures KeepsPayloads(FreeRaw(m, c[i].at), FreeRaw(FreeRaw(m, c[i].at), c[i].at), Release(c, i))
  {
    var m1, r := FreeRaw(m, c[i].at), Release(c, i);
    FreeLinked(m, c, i, start, end);
    ReleaseShape(c, i);
    ReleaseTiled(c, i, start, end);
    AllClear(r, start, end);
    if c[i - 1].free {
      AllClear(c, start, end);
      SecondFreeGrows(m, c, i, start, end);
      GrownOver(c, i, start, end);
      assert Clear(c[i].at, r) by { InsideFree(r, start, end, i - 1, c[i].at); }
      if c[i + 1].free {
        assert Clear(c[i + 1].at, r) by { InsideFree(r, start, end, i - 1, c[i + 1].at); }
      }
      FreeWrites(m1, c[i].at, c[i - 1].at, c[i + 1].at, r);
    } else {
      assert LinkedAt(m1, r, i) && LinkedAt(m1, r, i - 1) && LinkedAt(m1, r, i + 1);
      FreeWrites(m1, c[i].at, r[i - 1].at, r[i + 1].at, r);
    }
  }

  // ---- realloc(p, 0) ----

  /** Where block i is once malloc(0) has been called, and what is before it then. */
  lemma MallocZero(s: State, start: nat, limit: nat, i: nat) returns (j: nat)
    requires Inv(s, start) && 1 <= i < |s.chain| - 1 && !s.chain[i].free
    ensures var (s1, q) := MallocStep(s, 0, limit);
      && 1 <= j < |s1.chain| - 1 && s1.chain[j] == s.chain[i]
      && (s1.chain[j - 1].free <==> Corrupts(s.chain, i))
      && (q == NULL ==> !s1.chain[j - 1].free)
  {
    var c := s.chain;
    var f := FirstFit(c, 0, 1);
    assert !c[0].free && !c[|c| - 1].free && RoundUp(0) == 0;
    assert c[i - 1].free ==> Fits(c[i - 1], 0) && f <= i - 1;
    assert f < |c| - 1 ==> c[f].at >= start by { Layout(c, start, Top(s)); }
    hide Inv;
    if f < |c| - 1 {
      j := CarvedBefore(c, f, i);
    } else {
      j := i;
    }
  }

  lemma CarvedBefore(c: Chain, f: nat, i: nat) returns (j: nat)
    requires 1 <= f < |c| - 1 && Fits(c[f], 0) && 1 <= i < |c| - 1 && !c[i].free
    ensures var d := Carve(c, f, 0);
      && 1 <= j < |d| - 1 && d[j] == c[i]
      && (d[j - 1].free <==> c[i - 1].free && !(f == i - 1 && c[f].size < WORD + META))
  {
    j := if f < i && c[f].size >= WORD + META then i + 1 else i;
  }

  /** realloc(p, 0), from the heap it is called on, p being block i: malloc(0), a free, and unless malloc
      has failed another free. The headers still form a list tiling the heap, and then the one left by the
      first free, exactly when the condition above does not hold. */
  lemma ReallocZero(s: State, start: nat, limit: nat, m: Mem, i: nat)
    requires Inv(s, start) && 1 <= i < |s.chain| - 1 && !s.chain[i].free
    requires Linked(m, MallocStep(s, 0, limit).0.chain)
    ensures var (s1, q) := MallocStep(s, 0, limit); var b := s.chain[i].at;
      var m2 := if q == NULL then FreeRaw(m, b) else FreeRaw(FreeRaw(m, b), b);
      && LivePtr(s1.chain, b + META) && 0 < IndexOf(s1.chain, b + META) < |s1.chain| - 1
      && s1.chain[IndexOf(s1.chain, b + META)] == s.chain[i]
      && if Corrupts(s.chain, i) then !exists d: Chain :: Linked(m2, d) && Tiled(d, start, Top(s1))
         else Linked(m2, FreeStep(s1, b + META).chain) && Inv(FreeStep(s1, b + META), start)
  {
    var (s1, q) := MallocStep(s, 0, limit);
    var j := MallocZero(s, start, limit, i);
    MallocStepInv(s, start, 0, limit);
    LiveIndex(s1, start, j);
    ReleaseInv(s1, start, j);
    FreeLinked(m, s1.chain, j, start, Top(s1));
    FreeTwice(m, s1.chain, j, start, Top(s1));
  }

  lemma LiveIndex(s: State, start: nat, j: nat)
    requires Inv(s, start) && 1 <= j < |s.chain| - 1 && !s.chain[j].free
    ensures LivePtr(s.chain, s.chain[j].at + META) && IndexOf(s.chain, s.chain[j].at + META) == j
  {
    Layout(s.chain, start, Top(s));
    AllClear(s.chain, start, Top(s));
    assert s.chain[j] in Live(s.chain);
  }

  /** A heap of two blocks, the first of which may be free. */
  function TwoBlocks(free: bool): State {
    State([HEAD_BLOCK, Block(0x1000, 32, free), Block(0x1030, 4, false), TAIL_BLOCK], 0x1044, 0x2000)
  }

  lemma TwoMallocs(limit: nat) returns (s1: State)
    requires limit >= 0x2000
    ensures Next(Initial(0x1000), DoMalloc(32), s1, limit) && Next(s1, DoMalloc(4), TwoBlocks(false), limit)
  {
    s1 := State([HEAD_BLOCK, Block(0x1000, 32, false), TAIL_BLOCK], 0x1030, 0x2000);
    assert Grow(0x1000, 0x1030, limit) == Grow(0x2000, 0x1030, limit) == 0x2000;
    assert FirstFit(s1.chain, 4, 1) == FirstFit(s1.chain, 4, 2) == 2;
  }

  lemma FirstFreed(limit: nat)
    ensures Next(TwoBlocks(false), DoFree(0x1010), TwoBlocks(true), limit)
    ensures LivePtr(TwoBlocks(true).chain, 0x1040) && Corrupts(TwoBlocks(true).chain, 2)
  {
    var c, d := TwoBlocks(false).chain, TwoBlocks(true).chain;
    assert c[1] in Live(c) && d[2] in Live(d);
    assert IndexOf(c, 0x1010) == 1 && Release(c, 1) == d;
  }

  /** Calls can lead to a heap that realloc(p, 0) breaks: allocate 32 bytes, then 4 for p, and free the
      first. */
  lemma CorruptionReached(limit: nat)
    requires limit >= 0x2000
    ensures var s := TwoBlocks(true);
      && Reaches(Initial(0x1000), [DoMalloc(32), DoMalloc(4), DoFree(0x1010)], s, limit)
      && LivePtr(s.chain, 0x1040) && s.chain[2].at + META == 0x1040 && Corrupts(s.chain, 2)
  {
    var ops := [DoMalloc(32), DoMalloc(4), DoFree(0x1010)];
    var s1 := TwoMallocs(limit);
    FirstFreed(limit);
    hide Next, LivePtr, Corrupts;
    assert ops[1..] == [DoMalloc(4), DoFree(0x1010)] && ops[1..][1..] == [DoFree(0x1010)];
    assert Reaches(TwoBlocks(true), [DoFree(0x1010)][1..], TwoBlocks(true), limit);
    assert Reaches(TwoBlocks(false), [DoFree(0x1010)], TwoBlocks(true), limit);
    assert Reaches(s1, ops[1..], TwoBlocks(true), limit);
  }
}
