/** The heap as it lies in memory (kernel/malloc.c): headers linked by their addresses, among payload
    bytes. */
module HeapMemory {
  import opened HeapChain

  type Byte = b: int | 0 <= b < 256

  /** A block's header as it lies in memory. */
  datatype Meta = Meta(size: nat, free: bool, prev: int, next: int)

  /** Memory: headers by address, and the other bytes. Writing a header destroys the bytes under it. The
      converse, a byte or a header written over another header, has no effect here; that it does not
      happen is what Layout (no block overlaps another) and AllClear (headers lie clear of payloads) say. */
  datatype Mem = Mem(meta: map<int, Meta>, bytes: map<int, Byte>) {
    function Put(a: int, h: Meta): Mem {
      Mem(meta[a := h], map k | k in bytes && !(a <= k < a + META) :: bytes[k])
    }
  }

  ghost predicate SameBytes(m: Mem, m': Mem, lo: int, hi: int) {
    forall k :: lo <= k < hi ==> (k in m.bytes <==> k in m'.bytes) && (k in m.bytes ==> m.bytes[k] == m'.bytes[k])
  }

  /** No payload byte of a block in use in c differs between m and m'. */
  ghost predicate KeepsPayloads(m: Mem, m': Mem, c: Chain) {
    forall b :: b in Live(c) ==> SameBytes(m, m', b.at + META, b.End())
  }

  /** The n bytes at dst in m' are those at src in m. */
  ghost predicate Copied(m: Mem, src: int, m': Mem, dst: int, n: int) {
    forall k :: dst <= k < dst + n ==>
      (k in m'.bytes <==> k - dst + src in m.bytes) && (k in m'.bytes ==> m'.bytes[k] == m.bytes[k - dst + src])
  }

  /** Memory holds the list c: every header has its block's size and flag and both its neighbours' addresses. */
  ghost predicate Linked(m: Mem, c: Chain) {
    forall i :: 0 <= i < |c| ==> LinkedAt(m, c, i)
  }

  ghost predicate LinkedAt(m: Mem, c: Chain, i: nat)
    requires i < |c|
  {
    c[i].at in m.meta && m.meta[c[i].at] == Header(c, i)
  }

  ghost function Header(c: Chain, i: nat): Meta
    requires i < |c|
  {
    Meta(c[i].size, c[i].free, if i == 0 then NULL else c[i - 1].at, if i == |c| - 1 then NULL else c[i + 1].at)
  }

  /** A header at a would lie clear of every payload in use. */
  ghost predicate Clear(a: int, c: Chain) {
    forall b :: b in Live(c) ==> a <= b.at || b.End() <= a
  }

  /** No header in the list covers a payload byte in use, and neither would one just past the end. */
  lemma AllClear(c: Chain, start: int, end: int)
    requires Tiled(c, start, end) && IMAGE_END <= start
    ensures forall i :: 0 <= i < |c| ==> Clear(c[i].at, c)
    ensures Clear(end, c)
    ensures forall i, j :: 0 <= i < j < |c| ==> c[i].at != c[j].at
  {
    Layout(c, start, end);
    forall i, b | 0 <= i < |c| && b in Live(c) ensures c[i].at <= b.at || b.End() <= c[i].at {
      var j :| 0 <= j < |c| && c[j] == b;
    }
  }

  /** A header placed inside a free block covers no payload byte in use either. */
  lemma InsideFree(c: Chain, start: int, end: int, i: nat, a: int)
    requires Tiled(c, start, end) && IMAGE_END <= start
    requires 1 <= i < |c| - 1 && c[i].free && c[i].at < a < c[i].End()
    ensures a + META <= c[i].End() ==> Clear(a, c)
    ensures forall j :: 0 <= j < |c| ==> c[j].at != a
  {
    Layout(c, start, end);
    forall b | b in Live(c) && a + META <= c[i].End() ensures a <= b.at || b.End() <= a {
      var j :| 0 <= j < |c| && c[j] == b;
    }
  }

  /** No other block has block i's address. */
  ghost predicate Own(c: Chain, i: nat)
    requires i < |c|
  {
    forall j :: 0 <= j < |c| && j != i ==> c[j].at != c[i].at
  }

  /** The pointer writes of the split link the two halves into the list. */
  lemma LinkedSplit(m: Mem, m': Mem, c: Chain, i: nat, n: nat)
    requires Linked(m, c) && 1 <= i < |c| - 1 && c[i].size >= n + META
    requires Own(c, i) && Own(c, i + 1) && LinkedAt(m, c, i + 1) && LinkedAt(m, c, i)
    requires forall j :: 0 <= j < |c| ==> c[j].at != c[i].at + META + n
    requires var rest, next := c[i].at + META + n, c[i + 1].at;
      m'.meta == m.meta[next := m.meta[next].(prev := rest)]
                       [rest := Meta(c[i].size - n - META, true, c[i].at, next)]
                       [c[i].at := Meta(n, false, c[i - 1].at, rest)]
    requires c[i].free
    ensures Linked(m', Mark(Split(c, i, n), i, false))
  {
    var d := Mark(Split(c, i, n), i, false);
    assert d[i] == Block(c[i].at, n, false);
    assert d[i + 1] == Block(c[i].at + META + n, c[i].size - n - META, true);
    assert d[i + 2] == c[i + 1];
    forall k | 0 <= k < i ensures LinkedAt(m', d, k) {
      assert d[k] == c[k] && LinkedAt(m, c, k);
      assert d[k + 1].at == c[k + 1].at;
    }
    assert d[i - 1] == c[i - 1];
    assert LinkedAt(m', d, i) && LinkedAt(m', d, i + 1);
    forall k | i + 2 <= k < |d| ensures LinkedAt(m', d, k) {
      assert d[k] == c[k - 1] && LinkedAt(m, c, k - 1);
      assert k > i + 2 ==> d[k - 1] == c[k - 2];
      assert k + 1 < |d| ==> d[k + 1] == c[k];
    }
  }

  lemma LinkedMark(m: Mem, m': Mem, c: Chain, i: nat, free: bool)
    requires Linked(m, c) && i < |c| && Own(c, i) && LinkedAt(m, c, i)
    requires m'.meta == m.meta[c[i].at := m.meta[c[i].at].(free := free)]
    ensures Linked(m', Mark(c, i, free))
  {
    forall k | 0 <= k < |c| ensures LinkedAt(m', Mark(c, i, free), k) {
      assert LinkedAt(m, c, k);
    }
  }

  /** Unlinking block j+1 and growing block j over it merges the two. */
  lemma LinkedMerge(m: Mem, m': Mem, c: Chain, j: nat)
    requires Linked(m, c) && j + 2 < |c|
    requires Own(c, j) && Own(c, j + 2) && LinkedAt(m, c, j) && LinkedAt(m, c, j + 2)
    requires m'.meta == m.meta[c[j + 2].at := m.meta[c[j + 2].at].(prev := c[j].at)]
        [c[j].at := m.meta[c[j].at].(size := c[j].size + META + c[j + 1].size, next := c[j + 2].at)]
    ensures Linked(m', Merge(c, j))
  {
    var d := Merge(c, j);
    assert d[j].at == c[j].at;
    forall k | 0 <= k < j ensures LinkedAt(m', d, k) {
      assert d[k] == c[k] && LinkedAt(m, c, k);
      assert d[k + 1].at == c[k + 1].at;
    }
    assert d[j + 1] == c[j + 2] && (j > 0 ==> d[j - 1] == c[j - 1]);
    assert LinkedAt(m', d, j);
    forall k | j + 1 <= k < |d| ensures LinkedAt(m', d, k) {
      assert d[k] == c[k + 1] && LinkedAt(m, c, k + 1);
      assert d[k - 1].at == if k == j + 1 then c[j].at else c[k].at;
      assert k + 1 < |d| ==> d[k + 1] == c[k + 2];
    }
  }

  /** Linking a new last block in before the tail sentinel. */
  lemma LinkedExtend(m: Mem, m': Mem, c: Chain, at: int, n: nat)
    requires Linked(m, c) && |c| >= 2
    requires Own(c, |c| - 2) && Own(c, |c| - 1) && LinkedAt(m, c, |c| - 2) && LinkedAt(m, c, |c| - 1)
    requires forall k :: 0 <= k < |c| ==> c[k].at != at
    requires var l, t := c[|c| - 2].at, c[|c| - 1].at;
      m'.meta == m.meta[l := m.meta[l].(next := at)][t := m.meta[t].(prev := at)][at := Meta(n, false, l, t)]
    ensures Linked(m', Extend(c, at, n))
  {
    var d, last := Extend(c, at, n), |c| - 2;
    assert d[last] == c[last] && d[last + 1] == Block(at, n, false) && d[last + 2] == c[last + 1];
    forall k | 0 <= k <= last ensures LinkedAt(m', d, k) {
      assert d[k] == c[k] && LinkedAt(m, c, k);
      assert k > 0 ==> d[k - 1] == c[k - 1];
      assert k < last ==> d[k + 1] == c[k + 1];
    }
    assert LinkedAt(m', d, last + 1) && LinkedAt(m', d, last + 2);
  }

  /** In use went block b; in its place came one at p with room for size. */
  ghost predicate Moved(c: Chain, d: Chain, b: Block, p: int, size: nat) {
    exists n: Block :: n.at + META == p && n.size >= RoundUp(size) && n in Live(d) && n !in Live(c)
      && Live(d) == Live(c) + {n} - {b}
  }

  /** No payload byte of a block in use in c, other than b, differs between m and m'. */
  ghost predicate KeepsOthers(m: Mem, m': Mem, c: Chain, b: Block) {
    forall o :: o in Live(c) && o != b ==> SameBytes(m, m', o.at + META, o.End())
  }

  /** Between malloc and the end of realloc only block b has left. */
  lemma MovedTo(c: Chain, d: Chain, e: Chain, b: Block, p: int, size: nat)
    requires Grants(c, d, p, RoundUp(size)) && b in Live(c) && Live(e) == Live(d) - {b}
    ensures Moved(c, e, b, p, size) && !LivePtr(c, p) && LivePtr(e, p)
  {
    var n :| n in Live(d) && n.at + META == p && n.size >= RoundUp(size) && Live(d) == Live(c) + {n};
    assert n !in Live(c) && n in Live(e);
  }


  /** What b held before malloc is what was copied after it. */
  lemma CopiedBefore(m0: Mem, m1: Mem, m2: Mem, c: Chain, b: Block, p: int, n: nat)
    requires KeepsPayloads(m0, m1, c) && b in Live(c) && n <= b.size && Copied(m1, b.at + META, m2, p, n)
    ensures Copied(m0, b.at + META, m2, p, n)
  {
    assert SameBytes(m0, m1, b.at + META, b.End());
  }

  lemma OthersBefore(m0: Mem, m1: Mem, m2: Mem, c: Chain, b: Block)
    requires KeepsPayloads(m0, m1, c) && KeepsOthers(m1, m2, c, b)
    ensures KeepsOthers(m0, m2, c, b)
  {
    forall o | o in Live(c) && o != b ensures SameBytes(m0, m2, o.at + META, o.End()) {
      assert SameBytes(m0, m1, o.at + META, o.End()) && SameBytes(m1, m2, o.at + META, o.End());
    }
  }

  lemma OthersOf(m0: Mem, m1: Mem, m2: Mem, c: Chain, d: Chain, b: Block)
    requires KeepsPayloads(m0, m1, d) && (m1 == m2 || KeepsPayloads(m1, m2, d)) && Live(c) - {b} <= Live(d)
    ensures KeepsOthers(m0, m2, c, b)
  {
    forall o | o in Live(c) && o != b ensures SameBytes(m0, m2, o.at + META, o.End()) {
      assert o in Live(d);
    }
  }

  /** The payloads in use are pairwise disjoint. */
  lemma LiveApart(c: Chain, start: int, end: int)
    requires Tiled(c, start, end)
    ensures forall a, b :: a in Live(c) && b in Live(c) && a != b ==> a.End() <= b.at || b.End() <= a.at
  {
    Layout(c, start, end);
    forall a, b | a in Live(c) && b in Live(c) && a != b ensures a.End() <= b.at || b.End() <= a.at {
      var i :| 0 <= i < |c| && c[i] == a;
      var j :| 0 <= j < |c| && c[j] == b;
    }
  }

  lemma LinkedByMeta(m: Mem, m': Mem, c: Chain)
    requires Linked(m, c) && m.meta == m'.meta
    ensures Linked(m', c)
  {
    forall i | 0 <= i < |c| ensures LinkedAt(m', c, i) {
      assert LinkedAt(m, c, i);
    }
  }

  // ---- free as a function of memory ----

  /** The header at an address, whatever it holds. */
  function At(m: Mem, a: int): Meta {
    if a in m.meta then m.meta[a] else Meta(0, false, NULL, NULL)
  }

  /** Block b leaves the list and the block at a, before it, takes over its bytes. */
  function JoinRaw(m: Mem, a: int, b: int): Mem {
    var next := At(m, b).next;
    var m1 := m.Put(next, At(m, next).(prev := a));
    m1.Put(a, At(m1, a).(next := next, size := At(m1, a).size + At(m1, b).size + META))
  }

  /** What free does to memory, given any address at all. */
  function FreeRaw(m: Mem, block: int): Mem {
    JoinAround(m.Put(block, At(m, block).(free := true)), block)
  }

  function JoinAround(m: Mem, block: int): Mem {
    var prev := At(m, block).prev;
    if At(m, prev).free then JoinNext(JoinRaw(m, prev, block), prev) else JoinNext(m, block)
  }

  function JoinNext(m: Mem, block: int): Mem {
    var next := At(m, block).next;
    if At(m, next).free then JoinRaw(m, block, next) else m
  }

  /** Memory holds the list, which tiles its range, and the payloads in use are as they were in m0. */
  ghost predicate Holding(m0: Mem, m: Mem, c: Chain, start: int, end: int) {
    Linked(m, c) && Tiled(c, start, end) && IMAGE_END <= start && KeepsPayloads(m0, m, c)
  }

  lemma PutTwice(m: Mem, a: int, h: Meta, h': Meta)
    ensures m.Put(a, h).Put(a, h') == m.Put(a, h')
  {}

  lemma PutKeeps(m0: Mem, m: Mem, a: int, h: Meta, c: Chain)
    requires Clear(a, c) && KeepsPayloads(m0, m, c)
    ensures KeepsPayloads(m0, m.Put(a, h), c)
  {}

  lemma JoinHolding(m0: Mem, m: Mem, c: Chain, j: nat, start: int, end: int)
    requires Holding(m0, m, c, start, end) && 1 <= j < |c| - 2 && c[j].free && c[j + 1].free
    ensures Holding(m0, JoinRaw(m, c[j].at, c[j + 1].at), Merge(c, j), start, end)
  {
    assert Own(c, j) && Own(c, j + 2) && Clear(c[j].at, c) && Clear(c[j + 2].at, c)
        && c[j].at != c[j + 2].at && c[j + 1].at != c[j + 2].at by {
      AllClear(c, start, end);
    }
    assert LinkedAt(m, c, j) && LinkedAt(m, c, j + 1) && LinkedAt(m, c, j + 2);
    MergeTiled(c, j, start, end);
    MergeLive(c, j);
    hide Tiled, Live, Clear, Own, KeepsPayloads;
    var a, b, next := c[j].at, c[j + 1].at, c[j + 2].at;
    var m1 := m.Put(next, At(m, next).(prev := a));
    PutKeeps(m0, m, next, At(m, next).(prev := a), c);
    var h := At(m1, a).(next := next, size := At(m1, a).size + At(m1, b).size + META);
    PutKeeps(m0, m1, a, h, c);
    LinkedMerge(m, JoinRaw(m, a, b), c, j);
    KeepsSame(m0, JoinRaw(m, a, b), c, Merge(c, j));
  }

  lemma KeepsSame(m0: Mem, m: Mem, c: Chain, d: Chain)
    requires KeepsPayloads(m0, m, c) && Live(d) <= Live(c)
    ensures KeepsPayloads(m0, m, d)
  {}

  /** Joining the free block j with the block after it, when that is free. */
  lemma JoinNextHolding(m0: Mem, m: Mem, c: Chain, j: nat, start: int, end: int)
    requires Holding(m0, m, c, start, end) && 1 <= j < |c| - 1 && c[j].free
    ensures Holding(m0, JoinNext(m, c[j].at), if c[j + 1].free then Merge(c, j) else c, start, end)
  {
    assert LinkedAt(m, c, j) && LinkedAt(m, c, j + 1);
    assert !c[|c| - 1].free;
    hide Linked, Tiled, JoinRaw, KeepsPayloads, Merge;
    if c[j + 1].free {
      JoinHolding(m0, m, c, j, start, end);
    }
  }

  lemma MarkHolding(m: Mem, c: Chain, i: nat, start: int, end: int)
    requires Linked(m, c) && Tiled(c, start, end) && IMAGE_END <= start && 1 <= i < |c| - 1
    ensures Holding(m, m.Put(c[i].at, At(m, c[i].at).(free := true)), Mark(c, i, true), start, end)
  {
    AllClear(c, start, end);
    assert LinkedAt(m, c, i) && Own(c, i);
    PutKeeps(m, m, c[i].at, At(m, c[i].at).(free := true), c);
    LinkedMark(m, m.Put(c[i].at, At(m, c[i].at).(free := true)), c, i, true);
    MarkTiled(c, i, true, start, end);
    MarkLive(c, i, true, start, end);
  }

  /** Joining the free block i with the block before it, and then with the block after it. */
  lemma AroundHolding(m0: Mem, m: Mem, c: Chain, i: nat, start: int, end: int)
    requires Holding(m0, m, c, start, end) && 1 <= i < |c| - 1 && c[i].free
    ensures Holding(m0, JoinAround(m, c[i].at), MergeAround(c, i), start, end)
  {
    assert LinkedAt(m, c, i) && LinkedAt(m, c, i - 1);
    assert !c[0].free && !c[|c| - 1].free;
    hide Holding, Linked, JoinRaw, JoinNext;
    if c[i - 1].free {
      JoinHolding(m0, m, c, i - 1, start, end);
      JoinNextHolding(m0, JoinRaw(m, c[i - 1].at, c[i].at), Merge(c, i - 1), i - 1, start, end);
      MergeTwice(c, i);
    } else {
      JoinNextHolding(m0, m, c, i, start, end);
    }
  }

  /** On a block of the list, that is freeing it and joining it with its neighbours. */
  lemma FreeLinked(m: Mem, c: Chain, i: nat, start: int, end: int)
    requires Linked(m, c) && Tiled(c, start, end) && IMAGE_END <= start && 1 <= i < |c| - 1
    ensures Linked(FreeRaw(m, c[i].at), Release(c, i)) && KeepsPayloads(m, FreeRaw(m, c[i].at), Release(c, i))
  {
    MarkHolding(m, c, i, start, end);
    AroundHolding(m, m.Put(c[i].at, At(m, c[i].at).(free := true)), Mark(c, i, true), i, start, end);
  }
}
