/** The kernel heap (kernel/malloc.c): an intrusive, doubly linked, address-ordered list of blocks
    with first-fit search, splitting, coalescing and growth through a contiguous sbrk.

    `HeapChain` describes the list abstractly, as the sequence of its blocks between the two static
    sentinels; `Heap` is the allocator itself, whose pointer surgery is proved against that sequence. */
module HeapChain {
  const WORD := 4             // sizeof(size_t)
  const META := 16            // sizeof(Meta)
  const PAGE := 0x1000
  const NULL := 0
  const HEAD := 0x10          // the two static headers live in the kernel image, below the heap
  const TAIL := 0x20
  const IMAGE_END := 0x30

  /** One block: its header's address, its payload size, and its free flag. */
  datatype Block = Block(at: int, size: nat, free: bool) {
    function End(): int { at + META + size }
  }

  const HEAD_BLOCK := Block(HEAD, 0, false)
  const TAIL_BLOCK := Block(TAIL, 0, false)

  type Chain = seq<Block>

  /** The allocator's abstract state: the list with both sentinels, alloc_end (0 before the first
      use) and the break. */
  datatype State = State(chain: Chain, end: nat, brk: nat)

  /** Where block i begins; the tail sentinel stands for the end of the used range. */
  function Begin(c: Chain, i: nat, end: int): int
    requires i < |c|
  {
    if i == |c| - 1 then end else c[i].at
  }

  /** The blocks cover [start, end) exactly, each beginning where the one before it ends. */
  ghost predicate Tiled(c: Chain, start: int, end: int) {
    && |c| >= 2 && c[0] == HEAD_BLOCK && c[|c| - 1] == TAIL_BLOCK
    && forall i :: 1 <= i < |c| ==> Begin(c, i, end) == if i == 1 then start else c[i - 1].End()
  }

  ghost predicate NoTwoFree(c: Chain) {
    forall i :: 0 <= i < |c| - 1 ==> !(c[i].free && c[i + 1].free)
  }

  ghost predicate Aligned(c: Chain) {
    forall i :: 0 <= i < |c| ==> c[i].size % WORD == 0
  }

  ghost predicate Inv(s: State, start: nat) {
    && IMAGE_END <= start
    && (if s.end == 0 then |s.chain| == 2 && s.brk == start else start <= s.end <= s.brk)
    && Tiled(s.chain, start, Top(s))
    && NoTwoFree(s.chain)
    && Aligned(s.chain)
  }

  /** The end of the used range, also before alloc_end is first set. */
  function Top(s: State): int { if s.end == 0 then s.brk else s.end }

  /** The blocks in use: neither free nor a sentinel. */
  ghost function Live(c: Chain): set<Block> {
    set b | b in c && !b.free && b.at >= IMAGE_END
  }

  ghost predicate LivePtr(c: Chain, p: int) {
    exists b :: b in Live(c) && b.at + META == p
  }

  /** Blocks lie in address order: a list tiling its range never folds back. */
  lemma {:induction false} Ordered(c: Chain, start: int, end: int, i: nat, j: nat)
    requires Tiled(c, start, end)
    requires 1 <= i <= j < |c|
    ensures Begin(c, i, end) <= Begin(c, j, end)
    ensures i < j ==> c[i].End() <= Begin(c, j, end)
    decreases j - i
  {
    if i < j {
      assert Begin(c, i + 1, end) == c[i].End();
      Ordered(c, start, end, i + 1, j);
    }
  }

  /** Every block lies inside [start, end), and no header or payload overlaps another block. */
  lemma Layout(c: Chain, start: int, end: int)
    requires Tiled(c, start, end)
    ensures forall i :: 1 <= i < |c| - 1 ==> start <= c[i].at && c[i].End() <= end
    ensures forall i, j :: 1 <= i < j < |c| - 1 ==> c[i].End() <= c[j].at
  {
    forall i | 1 <= i < |c| - 1 ensures start <= c[i].at && c[i].End() <= end {
      Ordered(c, start, end, 1, i);
      Ordered(c, start, end, i, |c| - 1);
    }
    forall i, j | 1 <= i < j < |c| - 1 ensures c[i].End() <= c[j].at {
      Ordered(c, start, end, i, j);
    }
  }

  // ---- malloc on the list ----

  /** The request rounded up to whole words. */
  function RoundUp(size: nat): (n: nat)
    ensures size <= n < size + WORD && n % WORD == 0
  {
    if size % WORD != 0 then size + (WORD - size % WORD) else size
  }

  predicate Fits(b: Block, n: nat) { b.free && b.size >= n }

  /** The first block from i on that fits, or the tail's index when none does. */
  function FirstFit(c: Chain, n: nat, i: nat): (r: nat)
    requires 1 <= i < |c|
    ensures i <= r < |c|
    ensures forall k :: i <= k < r ==> !Fits(c[k], n)
    ensures r < |c| - 1 ==> Fits(c[r], n)
    decreases |c| - i
  {
    if i == |c| - 1 || Fits(c[i], n) then i else FirstFit(c, n, i + 1)
  }

  function Mark(c: Chain, i: nat, free: bool): Chain
    requires i < |c|
  {
    c[i := c[i].(free := free)]
  }

  /** Block j becomes two, the first with payload n. */
  function Split(c: Chain, j: nat, n: nat): Chain
    requires j < |c| && c[j].size >= n + META
  {
    c[..j] + [c[j].(size := n), Block(c[j].at + META + n, c[j].size - n - META, c[j].free)] + c[j + 1..]
  }

  /** Blocks j and j+1 become one. */
  function Merge(c: Chain, j: nat): Chain
    requires j + 1 < |c|
  {
    c[..j] + [c[j].(size := c[j].size + META + c[j + 1].size)] + c[j + 2..]
  }

  /** Hand out free block i for n bytes, splitting off what is left when a header and a word fit. */
  function Carve(c: Chain, i: nat, n: nat): Chain
    requires i < |c| && Fits(c[i], n)
  {
    Mark(if c[i].size - n >= WORD + META then Split(c, i, n) else c, i, false)
  }

  /** The break after asking for whole pages until `need` is reached or memory runs out. */
  function Grow(brk: nat, need: nat, limit: nat): (r: nat)
    ensures brk <= r && (r >= need || r + PAGE > limit)
    decreases need - brk
  {
    if brk >= need || brk + PAGE > limit then brk else Grow(brk + PAGE, need, limit)
  }

  /** Only whole pages are asked for, each while there was not room enough yet and within the limit. */
  lemma {:induction false} GrowPages(brk: nat, need: nat, limit: nat)
    ensures var r := Grow(brk, need, limit);
      (r - brk) % PAGE == 0 && (r > brk ==> r - PAGE < need && r <= limit)
    decreases need - brk
  {
    if brk < need && brk + PAGE <= limit {
      GrowPages(brk + PAGE, need, limit);
    }
  }

  function Extend(c: Chain, at: int, n: nat): Chain
    requires |c| >= 2
  {
    c[..|c| - 1] + [Block(at, n, false), c[|c| - 1]]
  }

  /** malloc: the new state and the pointer returned, NULL when the heap cannot grow. */
  function MallocStep(s: State, size: nat, limit: nat): (State, int)
    requires |s.chain| >= 2
  {
    var n := RoundUp(size);
    var i := FirstFit(s.chain, n, 1);
    if i < |s.chain| - 1 then
      (s.(chain := Carve(s.chain, i, n)), s.chain[i].at + META)
    else
      var at := if s.end == 0 then s.brk else s.end;
      var brk := Grow(s.brk, at + n + META, limit);
      if brk < at + n + META then
        (s.(end := at, brk := brk), NULL)
      else
        (State(Extend(s.chain, at, n), at + n + META, brk), at + META)
  }

  // ---- free on the list ----

  /** Join free block i with a free neighbour on either side. */
  function MergeAround(c: Chain, i: nat): Chain
    requires 1 <= i < |c| - 1
  {
    var d := if c[i + 1].free then Merge(c, i) else c;
    if c[i - 1].free then Merge(d, i - 1) else d
  }

  function Release(c: Chain, i: nat): Chain
    requires 1 <= i < |c| - 1
  {
    MergeAround(Mark(c, i, true), i)
  }

  /** Joining to the left and then to the right is joining to the right and then to the left. */
  lemma MergeTwice(c: Chain, i: nat)
    requires 1 <= i < |c| - 1
    ensures Merge(Merge(c, i - 1), i - 1) == Merge(Merge(c, i), i - 1)
  {}

  // ---- what the steps keep ----

  lemma MarkTiled(c: Chain, i: nat, free: bool, start: int, end: int)
    requires Tiled(c, start, end) && 1 <= i < |c| - 1
    ensures Tiled(Mark(c, i, free), start, end)
  {
    assert forall k :: 1 <= k < |c| ==> Begin(Mark(c, i, free), k, end) == Begin(c, k, end);
  }

  lemma SplitTiled(c: Chain, j: nat, n: nat, start: int, end: int)
    requires Tiled(c, start, end) && 1 <= j < |c| - 1 && c[j].size >= n + META
    ensures Tiled(Split(c, j, n), start, end)
  {
    var d := Split(c, j, n);
    forall k | 1 <= k < |d| ensures Begin(d, k, end) == if k == 1 then start else d[k - 1].End() {
      if k <= j {
        assert Begin(d, k, end) == Begin(c, k, end);
      } else if k >= j + 2 {
        assert Begin(d, k, end) == Begin(c, k - 1, end);
      }
    }
  }

  lemma MergeTiled(c: Chain, j: nat, start: int, end: int)
    requires Tiled(c, start, end) && 1 <= j < |c| - 2
    ensures Tiled(Merge(c, j), start, end)
  {
    var d := Merge(c, j);
    assert c[j + 1].at == Begin(c, j + 1, end);
    forall k | 1 <= k < |d| ensures Begin(d, k, end) == if k == 1 then start else d[k - 1].End() {
      if k <= j {
        assert Begin(d, k, end) == Begin(c, k, end);
      } else {
        assert Begin(d, k, end) == Begin(c, k + 1, end);
      }
    }
  }

  /** Every block but those at j and j+1 survives a merge, and nothing live appears. */
  lemma MergeLive(c: Chain, j: nat)
    requires j + 1 < |c| && c[j].free && c[j + 1].free
    ensures Live(Merge(c, j)) == Live(c)
  {}

  lemma SplitLive(c: Chain, j: nat, n: nat)
    requires j < |c| && c[j].free && c[j].size >= n + META
    ensures Live(Split(c, j, n)) == Live(c)
  {}

  /** Freeing or taking block i changes the live set by exactly that block. */
  lemma MarkLive(c: Chain, i: nat, free: bool, start: int, end: int)
    requires Tiled(c, start, end) && 1 <= i < |c| - 1 && start >= IMAGE_END
    ensures var b := c[i].(free := false);
      Live(Mark(c, i, free)) == if free then Live(c) - {b} else Live(c) + {b}
    ensures c[i].free ==> forall b :: b in Live(c) ==> b.at != c[i].at
  {
    Layout(c, start, end);
    var d := Mark(c, i, free);
    forall b | b in Live(c) && b != c[i] ensures b in d && b.at != c[i].at {
      var k :| 0 <= k < |c| && c[k] == b;
      assert d[k] == b;
    }
    assert d[i] in d;
  }

  /** Going from c to d, exactly one block comes into use: at pointer p, with n bytes or more. */
  ghost predicate Grants(c: Chain, d: Chain, p: int, n: nat) {
    !LivePtr(c, p) && exists b: Block ::
      b in Live(d) && b.at + META == p && b.size >= n && Live(d) == Live(c) + {b}
  }

  /** A block taken, or split off, lies between blocks in use. */
  lemma CarveShape(c: Chain, i: nat, n: nat)
    requires NoTwoFree(c) && Aligned(c) && 1 <= i < |c| - 1 && Fits(c[i], n) && n % WORD == 0
    ensures NoTwoFree(Carve(c, i, n)) && Aligned(Carve(c, i, n))
  {
    assert !c[i - 1].free && !c[i + 1].free;
  }

  lemma CarveInv(s: State, start: nat, i: nat, n: nat)
    requires Inv(s, start) && 1 <= i < |s.chain| - 1 && Fits(s.chain[i], n) && n % WORD == 0
    ensures Inv(s.(chain := Carve(s.chain, i, n)), start)
    ensures s.chain[i].at >= start && Grants(s.chain, Carve(s.chain, i, n), s.chain[i].at + META, n)
  {
    var c, top := s.chain, Top(s);
    CarveShape(c, i, n);
    hide NoTwoFree, Aligned;
    Layout(c, start, top);
    MarkLive(c, i, false, start, top);
    if c[i].size - n >= WORD + META {
      SplitTiled(c, i, n, start, top);
      SplitLive(c, i, n);
      c := Split(c, i, n);
      MarkLive(c, i, false, start, top);
    }
    MarkTiled(c, i, false, start, top);
    assert Mark(c, i, false)[i] in Live(Mark(c, i, false));
  }

  lemma ExtendInv(s: State, start: nat, n: nat, brk: nat)
    requires Inv(s, start) && n % WORD == 0
    requires s.brk <= brk && Top(s) + n + META <= brk
    ensures Inv(State(Extend(s.chain, Top(s), n), Top(s) + n + META, brk), start)
    ensures Grants(s.chain, Extend(s.chain, Top(s), n), Top(s) + META, n)
  {
    var c, c' := s.chain, Extend(s.chain, Top(s), n);
    Layout(c, start, Top(s));
    var end := Top(s) + n + META;
    assert c'[|c| - 1] == Block(Top(s), n, false);
    forall k | 1 <= k < |c'| ensures Begin(c', k, end) == if k == 1 then start else c'[k - 1].End() {
      if k < |c| {
        assert Begin(c', k, end) == Begin(c, k, Top(s));
      }
    }
    forall b | b in Live(c) ensures b in c' {
      var k :| 0 <= k < |c| && c[k] == b;
      assert c'[k] == b;
    }
    assert Block(Top(s), n, false) in Live(c');
  }

  predicate FreePair(c: Chain, k: int) { 0 <= k < |c| - 1 && c[k].free && c[k + 1].free }

  /** Free neighbours occur at positions lo..hi-1 only. */
  ghost predicate FreePairsWithin(c: Chain, lo: int, hi: int) {
    forall k :: FreePair(c, k) ==> lo <= k < hi
  }

  lemma MergeShape(c: Chain, j: nat, lo: int)
    requires j + 1 < |c| && lo <= j && FreePairsWithin(c, lo, j + 1) && Aligned(c)
    requires c[j].free && c[j + 1].free
    ensures FreePairsWithin(Merge(c, j), lo, j) && Aligned(Merge(c, j))
  {
    var d := Merge(c, j);
    forall k | FreePair(d, k) ensures lo <= k < j {
      assert if k < j then FreePair(c, k) else FreePair(c, k + 1);
    }
  }

  /** Joining with both free neighbours is exactly what keeps two free blocks from touching. */
  lemma ReleaseShape(c: Chain, i: nat)
    requires NoTwoFree(c) && Aligned(c) && 1 <= i < |c| - 1
    ensures NoTwoFree(Release(c, i)) && Aligned(Release(c, i))
  {
    var c1 := Mark(c, i, true);
    assert FreePairsWithin(c1, i - 1, i + 1);
    var c2 := if c1[i + 1].free then Merge(c1, i) else c1;
    if c1[i + 1].free {
      MergeShape(c1, i, i - 1);
    }
    assert FreePairsWithin(c2, i - 1, i) && c2[i].free && c2[i - 1] == c1[i - 1];
    if c1[i - 1].free {
      MergeShape(c2, i - 1, i - 1);
    }
    var d := Release(c, i);
    assert FreePairsWithin(d, 0, 0);
    forall k | 0 <= k < |d| - 1 ensures !(d[k].free && d[k + 1].free) {
      assert !FreePair(d, k);
    }
  }

  lemma ReleaseInv(s: State, start: nat, i: nat)
    requires Inv(s, start) && 1 <= i < |s.chain| - 1 && !s.chain[i].free
    ensures Inv(s.(chain := Release(s.chain, i)), start)
    ensures Live(Release(s.chain, i)) == Live(s.chain) - {s.chain[i]}
  {
    ReleaseShape(s.chain, i);
    ReleaseTiled(s.chain, i, start, Top(s));
  }

  lemma ReleaseTiled(c: Chain, i: nat, start: int, end: int)
    requires Tiled(c, start, end) && 1 <= i < |c| - 1 && !c[i].free && IMAGE_END <= start
    ensures Tiled(Release(c, i), start, end)
    ensures Live(Release(c, i)) == Live(c) - {c[i]}
  {
    var c1 := Mark(c, i, true);
    MarkTiled(c, i, true, start, end);
    MarkLive(c, i, true, start, end);
    var c2 := if c1[i + 1].free then Merge(c1, i) else c1;
    if c1[i + 1].free {
      MergeTiled(c1, i, start, end);
      MergeLive(c1, i);
    }
    assert Tiled(c2, start, end) && c2[i].free && c2[i - 1] == c1[i - 1];
    if c1[i - 1].free {
      MergeTiled(c2, i - 1, start, end);
      MergeLive(c2, i - 1);
    }
  }

  // ---- runs ----

  datatype Op = DoMalloc(size: nat) | DoFree(p: int) | DoRealloc(p: int, size: nat)

  /** The position of the block whose payload starts at p, as free computes it from the pointer. */
  ghost function IndexOf(c: Chain, p: int): (i: nat)
    requires LivePtr(c, p)
    ensures i < |c| && c[i] in Live(c) && c[i].at + META == p
  {
    var i :| 0 <= i < |c| && c[i] in Live(c) && c[i].at + META == p;
    i
  }

  ghost function FreeStep(s: State, p: int): State
    requires LivePtr(s.chain, p) && 0 < IndexOf(s.chain, p) < |s.chain| - 1
  {
    s.(chain := Release(s.chain, IndexOf(s.chain, p)))
  }

  /** malloc keeps the invariant; a pointer it returns is new and owns at least the requested bytes
      rounded up to words, and every other live block stays exactly as it is. It fails only when no
      free block fits and memory is exhausted. */
  lemma MallocStepInv(s: State, start: nat, size: nat, limit: nat)
    requires Inv(s, start)
    ensures var (s', p) := MallocStep(s, size, limit);
      && Inv(s', start)
      && (p != NULL ==> Grants(s.chain, s'.chain, p, RoundUp(size)))
      && (p == NULL ==>
        && s'.chain == s.chain && Top(s') == Top(s)
        && (forall b :: b in s.chain ==> !Fits(b, RoundUp(size)))
        && s'.brk < Top(s) + RoundUp(size) + META && s'.brk + PAGE > limit)
  {
    var n := RoundUp(size);
    var c := s.chain;
    var i := FirstFit(c, n, 1);
    var (s', p) := MallocStep(s, size, limit);
    assert !c[0].free && !c[|c| - 1].free;
    hide Tiled, NoTwoFree, Aligned, Grants;
    if i < |c| - 1 {
      CarveInv(s, start, i, n);
    } else if p != NULL {
      ExtendInv(s, start, n, s'.brk);
    }
  }

  /** The blocks of a list; with their addresses they also give its order. */
  function Blocks(c: Chain): set<Block> { set b | b in c }

  /** Where malloc finds room in the list, i being the first free block large enough: in that block, which
      is cut down to the request when a header and a word are left over, and handed out whole otherwise. */
  lemma MallocReuses(s: State, start: nat, size: nat, limit: nat, i: nat)
    requires Inv(s, start) && i < |s.chain| && s.chain[i].free && s.chain[i].size >= RoundUp(size)
    requires forall k :: 0 <= k < i ==> !(s.chain[k].free && s.chain[k].size >= RoundUp(size))
    ensures var (s', p) := MallocStep(s, size, limit); var b := s.chain[i]; var n := RoundUp(size);
      && p == b.at + META && p != NULL && s'.end == s.end && s'.brk == s.brk
      && Blocks(s'.chain) == Blocks(s.chain) - {b} +
           if b.size >= n + META + WORD
           then {Block(b.at, n, false), Block(b.at + META + n, b.size - n - META, true)}
           else {Block(b.at, b.size, false)}
  {
    var c, n := s.chain, RoundUp(size);
    assert !c[0].free && !c[|c| - 1].free;
    AllApart(c, start, Top(s));
    hide Inv, Tiled, NoTwoFree, Aligned, RoundUp, Carve;
    assert c[i].at >= start >= IMAGE_END;
    assert FirstFit(c, n, 1) == i;
    CarveBlocks(c, i, n);
  }

  lemma CarveBlocks(c: Chain, i: nat, n: nat)
    requires i < |c| && Fits(c[i], n) && forall k :: 0 <= k < |c| && k != i ==> c[k] != c[i]
    ensures Blocks(Carve(c, i, n)) == Blocks(c) - {c[i]} +
      if c[i].size >= n + META + WORD
      then {Block(c[i].at, n, false), Block(c[i].at + META + n, c[i].size - n - META, true)}
      else {Block(c[i].at, c[i].size, false)}
  {
    var d := Carve(c, i, n);
    var cut := c[i].size >= n + META + WORD;
    assert d[i] == Block(c[i].at, if cut then n else c[i].size, false);
    assert cut ==> d[i + 1] == Block(c[i].at + META + n, c[i].size - n - META, true);
    forall b | b in c && b != c[i] ensures b in d {
      var k :| 0 <= k < |c| && c[k] == b;
      assert d[if k < i || !cut then k else k + 1] == b;
    }
    forall b | b in d ensures b in Blocks(c) - {c[i]} || b == d[i] || (cut && b == d[i + 1]) {
      var k :| 0 <= k < |d| && d[k] == b;
      assert k != i && !(cut && k == i + 1) ==> b == c[if k < i || !cut then k else k - 1];
    }
  }

  lemma AllApart(c: Chain, start: int, end: int)
    requires Tiled(c, start, end) && IMAGE_END <= start
    ensures forall i :: 1 <= i < |c| - 1 ==> c[i].at >= start
    ensures forall i, k :: 0 <= i < |c| && 0 <= k < |c| && i != k ==> c[i] != c[k]
  {
    Layout(c, start, end);
  }

  /** Where it finds none: at the end of the used range, in a new block of just the request, exactly when
      the break is far enough already or can be moved far enough by whole pages within the limit. */
  lemma MallocExtends(s: State, start: nat, size: nat, limit: nat)
    requires Inv(s, start) && forall b :: b in s.chain ==> !(b.free && b.size >= RoundUp(size))
    ensures var (s', p) := MallocStep(s, size, limit); var n := RoundUp(size); var need := Top(s) + META + n;
      && (p != NULL <==> s.brk >= need || exists k: nat :: need <= s.brk + k * PAGE <= limit)
      && (p != NULL ==>
        && p == Top(s) + META && Top(s') == need && need <= s'.brk
        && Blocks(s'.chain) == Blocks(s.chain) + {Block(Top(s), n, false)})
  {
    var n := RoundUp(size);
    var c, need := s.chain, Top(s) + n + META;
    assert c[FirstFit(c, n, 1)] in c;
    GrowReaches(s.brk, need, limit);
    var d := Extend(c, Top(s), n);
    assert d[|c| - 1] == Block(Top(s), n, false) && d[|c|] == c[|c| - 1];
    forall b | b in c ensures b in d {
      var k :| 0 <= k < |c| && c[k] == b;
      assert d[if k < |c| - 1 then k else k + 1] == b;
    }
  }

  lemma {:induction false} GrowReaches(brk: nat, need: nat, limit: nat)
    ensures Grow(brk, need, limit) >= need <==> brk >= need || exists k: nat :: need <= brk + k * PAGE <= limit
    decreases need - brk
  {
    if brk < need && brk + PAGE <= limit {
      GrowReaches(brk + PAGE, need, limit);
      if k: nat :| need <= brk + k * PAGE <= limit {
        assert need <= brk + PAGE + (k - 1) * PAGE <= limit;
      }
      if k: nat :| need <= brk + PAGE + k * PAGE <= limit {
        assert need <= brk + (k + 1) * PAGE <= limit;
      }
      if brk + PAGE >= need {
        assert need <= brk + 1 * PAGE <= limit;
      }
    }
  }

  /** free keeps the invariant and ends exactly one block's life. */
  lemma FreeStepInv(s: State, start: nat, p: int)
    requires Inv(s, start) && LivePtr(s.chain, p)
    ensures Inv(FreeStep(s, p), start)
    ensures Live(FreeStep(s, p).chain) == Live(s.chain) - {s.chain[IndexOf(s.chain, p)]}
    ensures forall q :: LivePtr(FreeStep(s, p).chain, q) <==> LivePtr(s.chain, q) && q != p
  {
    var i := IndexOf(s.chain, p);
    ReleaseInv(s, start, i);
    LiveDistinct(s.chain, start, Top(s));
    var b0, d := s.chain[i], FreeStep(s, p).chain;
    forall q | LivePtr(s.chain, q) && q != p ensures LivePtr(d, q) {
      var b :| b in Live(s.chain) && b.at + META == q;
      assert b in Live(d);
    }
  }

  /** A pointer determines its block. */
  lemma LiveDistinct(c: Chain, start: int, end: int)
    requires Tiled(c, start, end)
    ensures forall a, b :: a in Live(c) && b in Live(c) && a.at == b.at ==> a == b
  {
    Layout(c, start, end);
    forall a, b | a in Live(c) && b in Live(c) && a.at == b.at ensures a == b {
      var i :| 0 <= i < |c| && c[i] == a;
      var j :| 0 <= j < |c| && c[j] == b;
    }
  }

  // ---- realloc on the list ----

  /** Whether realloc(p, 0) will break the heap, p being block i: the block before p is free, and is
      still free, at least in part, once malloc(0) has taken the first free block. */
  predicate Corrupts(c: Chain, i: nat)
    requires 1 <= i < |c|
  {
    c[i - 1].free && !(FirstFit(c, 0, 1) == i - 1 && c[i - 1].size < WORD + META)
  }

  /** realloc: malloc, and then, when that has succeeded or the size is 0, a free of the old block. */
  ghost predicate ReallocNext(s: State, p: int, size: nat, s': State, limit: nat)
    requires |s.chain| >= 2
  {
    var (s1, q) := MallocStep(s, size, limit);
    if p == NULL || (q == NULL && size > 0) then s' == s1
    else LivePtr(s1.chain, p) && 0 < IndexOf(s1.chain, p) < |s1.chain| - 1 && s' == FreeStep(s1, p)
  }

  /** Where realloc may be called: on NULL or a live pointer, and not with size 0 where that breaks the heap. */
  ghost predicate ReallocAllowed(s: State, p: int, size: nat) {
    || p == NULL
    || (LivePtr(s.chain, p)
        && (size == 0 ==> 1 <= IndexOf(s.chain, p) && !Corrupts(s.chain, IndexOf(s.chain, p))))
  }

  lemma GrantedPtrs(c: Chain, d: Chain, q: int, n: nat)
    requires if q == NULL then d == c else Grants(c, d, q, n)
    ensures forall x :: LivePtr(d, x) <==> LivePtr(c, x) || (x == q && q != NULL)
  {
    if q != NULL {
      var b: Block :| b in Live(d) && b.at + META == q && Live(d) == Live(c) + {b};
      forall x | LivePtr(c, x) ensures LivePtr(d, x) {
        var o :| o in Live(c) && o.at + META == x;
        assert o in Live(d);
      }
      forall x | LivePtr(d, x) && x != q ensures LivePtr(c, x) {
        var o :| o in Live(d) && o.at + META == x;
        assert o in Live(c);
      }
    }
  }

  lemma NullNotLive(s: State, start: nat)
    requires Inv(s, start)
    ensures !LivePtr(s.chain, NULL)
  {}

  /** realloc keeps the invariant. It fails only as malloc does; otherwise the pointer it was given is live
      no more, the one it returns has come to be live, and every other is as before. */
  lemma ReallocInv(s: State, start: nat, p: int, size: nat, s': State, limit: nat)
    requires Inv(s, start) && (p == NULL || LivePtr(s.chain, p)) && ReallocNext(s, p, size, s', limit)
    ensures var q := MallocStep(s, size, limit).1;
      && Inv(s', start)
      && (p != NULL && q == NULL && size > 0 ==> s'.chain == s.chain)
      && forall x :: LivePtr(s'.chain, x) <==>
           (LivePtr(s.chain, x) && (x != p || (q == NULL && size > 0))) || (x == q && q != NULL)
  {
    var (s1, q) := MallocStep(s, size, limit);
    MallocStepInv(s, start, size, limit);
    GrantedPtrs(s.chain, s1.chain, q, RoundUp(size));
    if p != NULL && (q != NULL || size == 0) {
      FreeStepInv(s1, start, p);
    }
    NullNotLive(s, start);
    NullNotLive(s', start);
  }

  /** One call on the allocator, where it is allowed: free may only be given a live pointer. */
  ghost predicate Next(s: State, op: Op, s': State, limit: nat) {
    match op
    case DoMalloc(size) => |s.chain| >= 2 && s' == MallocStep(s, size, limit).0
    case DoFree(p) => LivePtr(s.chain, p) && 0 < IndexOf(s.chain, p) < |s.chain| - 1 && s' == FreeStep(s, p)
    case DoRealloc(p, size) => |s.chain| >= 2 && ReallocAllowed(s, p, size) && ReallocNext(s, p, size, s', limit)
  }

  ghost predicate Reaches(s: State, ops: seq<Op>, last: State, limit: nat)
    decreases |ops|
  {
    if ops == [] then s == last
    else exists mid :: Next(s, ops[0], mid, limit) && Reaches(mid, ops[1..], last, limit)
  }

  function Initial(start: nat): State { State([HEAD_BLOCK, TAIL_BLOCK], 0, start) }

  lemma InitialInv(start: nat)
    requires IMAGE_END <= start
    ensures Inv(Initial(start), start) && Live(Initial(start).chain) == {}
  {}

  /** In a well-formed heap malloc is always possible, free exactly on the live pointers, and realloc
      exactly where it is allowed. */
  lemma Enabled(s: State, start: nat, op: Op, limit: nat)
    requires Inv(s, start)
    ensures (exists s' :: Next(s, op, s', limit)) <==>
      match op
      case DoMalloc(_) => true
      case DoFree(p) => LivePtr(s.chain, p)
      case DoRealloc(p, size) => ReallocAllowed(s, p, size)
  {
    match op
    case DoMalloc(size) => assert Next(s, op, MallocStep(s, size, limit).0, limit);
    case DoFree(p) =>
      if LivePtr(s.chain, p) {
        assert Next(s, op, FreeStep(s, p), limit);
      }
    case DoRealloc(p, size) =>
      if ReallocAllowed(s, p, size) {
        var s' := ReallocPossible(s, start, p, size, limit);
        assert Next(s, op, s', limit);
      }
  }

  lemma ReallocPossible(s: State, start: nat, p: int, size: nat, limit: nat) returns (s': State)
    requires Inv(s, start) && (p == NULL || LivePtr(s.chain, p))
    ensures ReallocNext(s, p, size, s', limit)
  {
    var (s1, q) := MallocStep(s, size, limit);
    MallocStepInv(s, start, size, limit);
    GrantedPtrs(s.chain, s1.chain, q, RoundUp(size));
    s' := if p == NULL || (q == NULL && size > 0) then s1 else FreeStep(s1, p);
  }

  /** Whatever the calls so far, the list tiles the heap in address order and no two neighbouring
      blocks are free. */
  lemma {:induction false} RunInv(s: State, start: nat, ops: seq<Op>, last: State, limit: nat)
    requires Inv(s, start) && Reaches(s, ops, last, limit)
    ensures Inv(last, start)
    decreases |ops|
  {
    if ops != [] {
      var mid :| Next(s, ops[0], mid, limit) && Reaches(mid, ops[1..], last, limit);
      match ops[0] {
        case DoMalloc(size) => MallocStepInv(s, start, size, limit);
        case DoFree(p) => FreeStepInv(s, start, p);
        case DoRealloc(p, size) => ReallocInv(s, start, p, size, mid, limit);
      }
      RunInv(mid, start, ops[1..], last, limit);
    }
  }

  /** Whatever was allocated and freed before, once nothing is in use the heap is one free block
      spanning everything that was ever used. */
  lemma RunToEmpty(start: nat, ops: seq<Op>, last: State, limit: nat)
    requires IMAGE_END <= start && Reaches(Initial(start), ops, last, limit)
    requires Live(last.chain) == {}
    ensures var c := last.chain;
      || (|c| == 2 && Top(last) == start)
      || (|c| == 3 && c[1].free && c[1].at == start && c[1].End() == last.end)
  {
    InitialInv(start);
    RunInv(Initial(start), start, ops, last, limit);
    var c := last.chain;
    Layout(c, start, Top(last));
    assert Begin(c, 1, Top(last)) == start;
    if |c| > 2 {
      assert forall i :: 1 <= i < |c| - 1 ==> c[i] in c && c[i] !in Live(c);
      assert !(c[1].free && c[2].free);
      assert Begin(c, 2, Top(last)) == c[1].End();
    }
  }

  /** Freeing the first of the live pointers leaves the others. */
  lemma FreeFirst(s: State, start: nat, ps: seq<int>, limit: nat) returns (mid: State)
    requires Inv(s, start) && ps != []
    requires forall q :: q in ps <==> LivePtr(s.chain, q)
    requires forall i, j :: 0 <= i < j < |ps| ==> ps[i] != ps[j]
    ensures Next(s, DoFree(ps[0]), mid, limit) && Inv(mid, start)
    ensures forall q :: q in ps[1..] <==> LivePtr(mid.chain, q)
  {
    FreeStepInv(s, start, ps[0]);
    mid := FreeStep(s, ps[0]);
  }

  /** Freeing every live pointer, in whatever order, is possible and empties the heap. */
  lemma {:induction false} FreeAll(s: State, start: nat, ps: seq<int>, limit: nat) returns (last: State)
    requires Inv(s, start)
    requires forall q :: q in ps <==> LivePtr(s.chain, q)
    requires forall i, j :: 0 <= i < j < |ps| ==> ps[i] != ps[j]
    ensures Reaches(s, seq(|ps|, i requires 0 <= i < |ps| => DoFree(ps[i])), last, limit)
    ensures Live(last.chain) == {}
    decreases |ps|
  {
    hide Inv, Next, LivePtr;
    if ps == [] {
      last := s;
      NamesItsPointer(s.chain);
    } else {
      var mid := FreeFirst(s, start, ps, limit);
      last := FreeAll(mid, start, ps[1..], limit);
      var ops := seq(|ps|, i requires 0 <= i < |ps| => DoFree(ps[i]));
      assert ops[1..] == seq(|ps[1..]|, i requires 0 <= i < |ps[1..]| => DoFree(ps[1..][i]));
    }
  }

  lemma NamesItsPointer(c: Chain)
    ensures forall b :: b in Live(c) ==> LivePtr(c, b.at + META)
  {}
}
