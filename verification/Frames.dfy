/** The physical frame bitmap (kernel/arch/x86/page_allocator.c). */
module Frames {
  const PAGE := 0x1000
  const FULL: bv32 := 0xFFFFFFFF

  function Mask(j: nat): bv32
    requires j < 32
  {
    (1 as bv32) << j
  }

  predicate Bit(w: bv32, j: nat)
    requires j < 32
  {
    Has(w, Mask(j))
  }

  // ---- words and masks ----

  predicate Has(w: bv32, m: bv32) { w & m != 0 }

  predicate Covers(w: bv32, m: bv32) { w & m == m }

  predicate Apart(m: bv32, n: bv32) { m & n == 0 }

  predicate IsOr(r: bv32, w: bv32, m: bv32) { r == w | m }

  predicate IsAndNot(r: bv32, w: bv32, m: bv32) { r == w & !m }

  lemma MaskSet(j: nat)
    requires j < 32
    ensures Has(Mask(j), Mask(j))
  {}

  lemma MasksApart(j: nat, k: nat)
    requires j < 32 && k < 32 && j != k
    ensures Apart(Mask(j), Mask(k))
  {}

  lemma SetSame(w: bv32, m: bv32, r: bv32)
    requires IsOr(r, w, m) && Has(m, m)
    ensures Has(r, m)
  {}

  lemma SetOther(w: bv32, m: bv32, n: bv32, r: bv32)
    requires IsOr(r, w, m) && Apart(m, n)
    ensures Has(r, n) == Has(w, n)
  {}

  lemma ClearSame(w: bv32, m: bv32, r: bv32)
    requires IsAndNot(r, w, m)
    ensures !Has(r, m)
  {}

  lemma ClearOther(w: bv32, m: bv32, n: bv32, r: bv32)
    requires IsAndNot(r, w, m) && Apart(m, n)
    ensures Has(r, n) == Has(w, n)
  {}

  /** Or-ing a mask in sets its bit and no other. */
  lemma SetBit(w: bv32, j: nat, k: nat, r: bv32)
    requires j < 32 && k < 32 && IsOr(r, w, Mask(j))
    ensures Bit(r, k) <==> j == k || Bit(w, k)
  {
    hide Mask, Has, IsOr, Apart;
    if j == k {
      MaskSet(j);
      SetSame(w, Mask(j), r);
    } else {
      MasksApart(j, k);
      SetOther(w, Mask(j), Mask(k), r);
    }
  }

  /** Masking it out clears its bit and no other. */
  lemma ClearBit(w: bv32, j: nat, k: nat, r: bv32)
    requires j < 32 && k < 32 && IsAndNot(r, w, Mask(j))
    ensures Bit(r, k) <==> j != k && Bit(w, k)
  {
    hide Mask, Has, IsAndNot, Apart;
    if j == k {
      MaskSet(j);
      ClearSame(w, Mask(j), r);
    } else {
      MasksApart(j, k);
      ClearOther(w, Mask(j), Mask(k), r);
    }
  }

  /** The low n bits. */
  function Low(n: nat): bv32
    requires n <= 32
  {
    if n == 32 then FULL else ((1 as bv32) << n) - 1
  }

  lemma LowStep(n: nat)
    requires n < 32
    ensures IsOr(Low(n + 1), Low(n), Mask(n))
  {}

  lemma LowEnds(w: bv32)
    ensures Covers(w, Low(0))
    ensures Covers(w, Low(32)) ==> w == FULL
  {}

  lemma CoversBoth(w: bv32, l: bv32, m: bv32, r: bv32)
    requires Covers(w, l) && Covers(w, m) && IsOr(r, l, m)
    ensures Covers(w, r)
  {}

  lemma OneBit(w: bv32, j: nat)
    requires j < 32 && Bit(w, j)
    ensures Covers(w, Mask(j))
  {}

  lemma {:induction false} LowBits(w: bv32, n: nat)
    requires n <= 32 && forall j :: 0 <= j < n ==> Bit(w, j)
    ensures Covers(w, Low(n))
  {
    hide Low, Mask, Bit, Covers, IsOr;
    if n == 0 {
      LowEnds(w);
    } else {
      LowBits(w, n - 1);
      LowStep(n - 1);
      OneBit(w, n - 1);
      CoversBoth(w, Low(n - 1), Mask(n - 1), Low(n));
    }
  }

  lemma FullHas(m: bv32)
    requires Has(m, m)
    ensures Has(FULL, m)
  {}

  /** A word equal to all ones is one whose every bit is set. */
  lemma FullWord(w: bv32)
    ensures w == FULL <==> forall j :: 0 <= j < 32 ==> Bit(w, j)
  {
    hide Low, Mask, Covers, Has, Apart;
    if forall j :: 0 <= j < 32 ==> Bit(w, j) {
      LowBits(w, 32);
      LowEnds(w);
    }
    forall j | 0 <= j < 32 && w == FULL ensures Bit(w, j) {
      MaskSet(j);
      FullHas(Mask(j));
    }
  }

  // ---- the bitmap as a set of frame numbers ----

  predicate Taken(words: seq<bv32>, f: nat)
    requires f < 32 * |words|
  {
    Bit(words[f / 32], f % 32)
  }

  /** The frames marked as used. */
  function Used(words: seq<bv32>): set<nat> {
    set f: nat | f < 32 * |words| && Taken(words, f)
  }

  /** Changing one bit of one word changes the membership of one frame. */
  lemma WordUsed(words: seq<bv32>, f: nat, w: bv32, on: bool)
    requires f < 32 * |words|
    requires forall k :: 0 <= k < 32 ==> (Bit(w, k) <==> if k == f % 32 then on else Bit(words[f / 32], k))
    ensures Used(words[f / 32 := w]) == if on then Used(words) + {f} else Used(words) - {f}
  {}

  lemma SetUsed(words: seq<bv32>, f: nat, w: bv32)
    requires f < 32 * |words| && IsOr(w, words[f / 32], Mask(f % 32))
    ensures Used(words[f / 32 := w]) == Used(words) + {f}
  {
    hide Used, Bit, Mask, IsOr;
    forall k | 0 <= k < 32 ensures Bit(w, k) <==> if k == f % 32 then true else Bit(words[f / 32], k) {
      SetBit(words[f / 32], f % 32, k, w);
    }
    WordUsed(words, f, w, true);
  }

  lemma ClearUsed(words: seq<bv32>, f: nat, w: bv32)
    requires f < 32 * |words| && IsAndNot(w, words[f / 32], Mask(f % 32))
    ensures Used(words[f / 32 := w]) == Used(words) - {f}
  {
    hide Used, Bit, Mask, IsAndNot;
    forall k | 0 <= k < 32 ensures Bit(w, k) <==> if k == f % 32 then false else Bit(words[f / 32], k) {
      ClearBit(words[f / 32], f % 32, k, w);
    }
    WordUsed(words, f, w, false);
  }

  /** The least frame number from i on that is not used; the limit when all are. */
  function LeastAbsent(used: set<nat>, limit: nat, i: nat): (f: nat)
    requires i <= limit
    ensures i <= f <= limit && (f < limit ==> f !in used)
    ensures forall g: nat :: i <= g < f ==> g in used
    decreases limit - i
  {
    if i == limit || i !in used then i else LeastAbsent(used, limit, i + 1)
  }

  lemma LeastIs(used: set<nat>, limit: nat, f: nat)
    requires f <= limit && (f < limit ==> f !in used)
    ensures LeastAbsent(used, limit, f) == f
  {}

  const MAX_FRAMES := 0x100000          // a page table entry keeps frame numbers in 20 bits

  /** What pa_alloc_frame hands out for the least frame it finds: the frame's address is 32 bits wide, and
      its number in the page table entry 20. */
  function Given(f: nat): (g: nat)
    ensures g <= f && g < MAX_FRAMES && (g == f <==> f < MAX_FRAMES)
  {
    f % MAX_FRAMES
  }

  lemma GivenWraps(f: nat)
    ensures exists k: nat :: f == Given(f) + k * MAX_FRAMES
  {
    assert f == Given(f) + (f / MAX_FRAMES) * MAX_FRAMES;
  }

  /** The frames handed out by n allocations in a row, none being given back. */
  function AllocRun(used: set<nat>, limit: nat, n: nat): seq<nat>
    decreases n
  {
    if n == 0 then []
    else
      var f := LeastAbsent(used, limit, 0);
      if f == limit then [] else [Given(f)] + AllocRun(used + {Given(f)}, limit, n - 1)
  }

  lemma AllocRunStep(used: set<nat>, limit: nat, n: nat)
    ensures AllocRun(used, limit, 0) == []
    ensures var f := LeastAbsent(used, limit, 0); n > 0 ==>
      AllocRun(used, limit, n) == if f == limit then [] else [Given(f)] + AllocRun(used + {Given(f)}, limit, n - 1)
  {}

  /** The frames that are free and have a number that fits. */
  function Available(used: set<nat>, limit: nat): set<nat> {
    set f: nat | f < MAX_FRAMES && f < limit && f !in used
  }

  /** No frame occurs twice, nor one that was in use before; they come in increasing order. */
  ghost predicate AllFresh(used: set<nat>, r: seq<nat>) {
    && (forall k :: 0 <= k < |r| ==> r[k] !in used)
    && (forall j, k :: 0 <= j < k < |r| ==> r[j] < r[k])
  }

  /** The next allocation hands out a frame that is in use already exactly when no available one is left
      while there are free frames beyond. */
  lemma GivenInUse(used: set<nat>, limit: nat)
    ensures var f := LeastAbsent(used, limit, 0);
      f < limit ==> (Given(f) in used <==> Available(used, limit) == {})
  {
    var f := LeastAbsent(used, limit, 0);
    if f < limit && f < MAX_FRAMES {
      assert f in Available(used, limit);
    }
  }

  /** A run of allocations hands out frames a page can name, and stops short only when every frame is in
      use. */
  lemma {:induction false} RunEnds(used: set<nat>, limit: nat, n: nat)
    ensures var r := AllocRun(used, limit, n);
      && (forall k :: 0 <= k < |r| ==> r[k] < limit && r[k] < MAX_FRAMES)
      && (|r| < n ==> forall f: nat :: f < limit ==> f in used || f in r)
    decreases n
  {
    var f := LeastAbsent(used, limit, 0);
    if n > 0 && f < limit {
      RunEnds(used + {Given(f)}, limit, n - 1);
    }
  }

  /** A run of n allocations hands out fresh frames only, and distinct ones, exactly when at least n are
      available or no frame beyond those is free. */
  lemma {:induction false} NeverTwice(used: set<nat>, limit: nat, n: nat)
    ensures AllFresh(used, AllocRun(used, limit, n)) <==>
      n <= |Available(used, limit)| || forall f: nat :: MAX_FRAMES <= f < limit ==> f in used
    decreases n
  {
    var f := LeastAbsent(used, limit, 0);
    AllocRunStep(used, limit, n);
    GivenInUse(used, limit);
    if n > 0 && f < limit {
      var r := AllocRun(used + {Given(f)}, limit, n - 1);
      NeverTwice(used + {Given(f)}, limit, n - 1);
      if f < MAX_FRAMES {
        assert Available(used + {f}, limit) == Available(used, limit) - {f} && f in Available(used, limit);
        FreshStep(used, f, r);
      } else {
        assert ([Given(f)] + r)[0] in used;
      }
    }
  }

  lemma FreshStep(used: set<nat>, f: nat, r: seq<nat>)
    requires f !in used && forall g: nat :: g < f ==> g in used
    ensures AllFresh(used, [f] + r) <==> AllFresh(used + {f}, r)
  {
    var s := [f] + r;
    assert forall k :: 1 <= k < |s| ==> s[k] == r[k - 1];
    if AllFresh(used, s) {
      forall k | 0 <= k < |r| ensures r[k] !in used + {f} && forall j :: 0 <= j < k ==> r[j] < r[k] {
        assert s[k + 1] == r[k] && s[0] < s[k + 1];
        assert forall j :: 1 <= j < k + 1 ==> s[j] == r[j - 1] && s[j] < s[k + 1];
        assert forall j :: 0 <= j < k ==> r[j] == s[j + 1];
      }
    }
    if AllFresh(used + {f}, r) {
      forall k | 1 <= k < |s| ensures f < s[k] && s[k] !in used {
        assert s[k] == r[k - 1] && r[k - 1] !in used + {f};
      }
    }
  }

  /** Once no available frame is left while there are free ones beyond, every allocation hands out the
      same frame. */
  lemma {:induction false} SameForever(used: set<nat>, limit: nat, n: nat)
    requires Available(used, limit) == {} && LeastAbsent(used, limit, 0) < limit
    ensures AllocRun(used, limit, n) == seq(n, _ => Given(LeastAbsent(used, limit, 0)))
    decreases n
  {
    if n > 0 {
      GivenInUse(used, limit);
      assert used + {Given(LeastAbsent(used, limit, 0))} == used;
      SameForever(used, limit, n - 1);
    }
  }

  lemma {:induction false} AvailableSize(n: nat)
    requires n <= MAX_FRAMES
    ensures |Available({}, n)| == n
  {
    if n > 0 {
      AvailableSize(n - 1);
      assert Available({}, n) == Available({}, n - 1) + {n - 1};
    } else {
      assert Available({}, 0) == {};
    }
  }

  const MEM_END := 0xF000000
  const KERNEL_FRAMES := 32 * (MEM_END / 4 / 32)   // the bitmap init_page_allocator sets up

  /** The kernel's own bitmap has far more frames than a page can name: starting from a cleared one, more
      than 2^20 allocations hand out a frame twice; with those 2^20 in use, every page gets frame 0. */
  lemma KernelBitmapRunsOver(n: nat)
    ensures AllFresh({}, AllocRun({}, KERNEL_FRAMES, n)) <==> n <= MAX_FRAMES
    ensures AllocRun(Available({}, KERNEL_FRAMES), KERNEL_FRAMES, n) == seq(n, _ => 0)
  {
    NeverTwice({}, KERNEL_FRAMES, n);
    AvailableSize(MAX_FRAMES);
    var all, none: set<nat> := Available({}, KERNEL_FRAMES), {};
    assert all == Available({}, MAX_FRAMES);
    assert MAX_FRAMES !in none && MAX_FRAMES < KERNEL_FRAMES;
    LeastIs(all, KERNEL_FRAMES, MAX_FRAMES);
    assert LeastAbsent(all, KERNEL_FRAMES, 0) == MAX_FRAMES by {
      var f := LeastAbsent(all, KERNEL_FRAMES, 0);
      assert f !in all && (MAX_FRAMES < f ==> MAX_FRAMES in all);
    }
    SameForever(all, KERNEL_FRAMES, n);
  }

  /** Clearing frame q instead of the one given back: the next allocation gets a frame in use exactly when
      every frame up to q was in use, and then it is q. */
  lemma ClearedIsNext(used: set<nat>, limit: nat, q: nat)
    requires q < limit && q < MAX_FRAMES
    ensures var f := LeastAbsent(used - {q}, limit, 0);
      && f <= q && Given(f) == f
      && (f in used <==> forall g: nat :: g <= q ==> g in used)
      && (f in used ==> f == q)
  {
    var f := LeastAbsent(used - {q}, limit, 0);
    assert f <= q by {
      assert q < f ==> q in used - {q};
    }
    forall g: nat | f == q && g < q ensures g in used {
      assert g in used - {q};
    }
  }

  // ---- the allocator ----

  const NO_FRAME := 0xFFFFFFFF          // (uint32_t)-1

  type FrameNumber = f: nat | f < MAX_FRAMES

  /** A page table entry. */
  class Page {
    var present: bool
    var rw: bool
    var user: bool
    var frame: FrameNumber
  }

  class PageAllocator {
    const frame: array<bv32>
    const frameAmount: nat

    ghost predicate Valid()
      reads this
    {
      frameAmount / 0x20 == frame.Length && frameAmount < 0x1_0000_0000
    }

    ghost function InUse(): set<nat>
      reads this, frame
    {
      Used(frame[..])
    }

    /** An arbitrary bitmap of w words. */
    constructor (words: seq<bv32>)
      requires 32 * |words| < 0x1_0000_0000
      ensures Valid() && fresh(frame) && frame[..] == words
    {
      frame := new bv32[|words|](i requires 0 <= i < |words| => words[i]);
      frameAmount := 0x20 * |words|;
    }

    method SetFrame(address: nat)
      requires Valid() && address / PAGE < 32 * frame.Length
      modifies frame
      ensures InUse() == old(InUse()) + {address / PAGE}
    {
      var frameAddr := address / PAGE;
      var index, offset := frameAddr / 0x20, frameAddr % 0x20;
      var w := frame[index] | Mask(offset);
      SetUsed(frame[..], frameAddr, w);
      frame[index] := w;
    }

    method ClearFrame(address: nat)
      requires Valid() && address / PAGE < 32 * frame.Length
      modifies frame
      ensures InUse() == old(InUse()) - {address / PAGE}
    {
      var frameAddr := address / PAGE;
      var index, offset := frameAddr / 0x20, frameAddr % 0x20;
      var w := frame[index] & !Mask(offset);
      ClearUsed(frame[..], frameAddr, w);
      frame[index] := w;
    }

    method TestFrame(address: nat) returns (r: bv32)
      requires Valid() && address / PAGE < 32 * frame.Length
      ensures r != 0 <==> address / PAGE in InUse()
    {
      var frameAddr := address / PAGE;
      TestUsed(frame[..], frameAddr);
      hide *;
      var index, offset := frameAddr / 0x20, frameAddr % 0x20;
      r := frame[index] & Mask(offset);
    }

    /** pa_first_frame: the least frame not in use, or -1 exactly when every word is full. */
    method FirstFrame() returns (r: nat)
      requires Valid()
      ensures r == var f := LeastAbsent(InUse(), 32 * frame.Length, 0);
        if f == 32 * frame.Length then NO_FRAME else f
      ensures r == NO_FRAME <==> forall i :: 0 <= i < frame.Length ==> frame[i] == FULL
    {
      hide Used, Bit, Mask, Has, LeastAbsent, PageAllocator.InUse, PageAllocator.Valid;
      ghost var limit, words := 32 * frame.Length, frame[..];
      ValidWords();
      for i := 0 to frameAmount / 0x20
        invariant LeastAbsent(Used(words), limit, 0) == LeastAbsent(Used(words), limit, 32 * i)
        invariant forall k :: 0 <= k < i ==> frame[k] == FULL
      {
        if frame[i] != FULL {
          var j := FirstClear(i);
          TakenAt(words, i, j);
          LeastIs(Used(words), limit, 32 * i + j);
          return i * 0x20 + j;
        }
        FullWord(frame[i]);
        AllTaken(words, i);
      }
      LeastIs(Used(words), limit, limit);
      r := NO_FRAME;
    }

    /** The wrapped address of a frame is that of the frame handed out. */
    lemma Wraps(index: nat)
      ensures index * 0x1000 % 0x1_0000_0000 / PAGE == Given(index)
    {}

    lemma ValidWords()
      requires Valid()
      ensures frameAmount / 0x20 == frame.Length && 32 * frame.Length < NO_FRAME
      ensures InUse() == Used(frame[..])
    {}

    /** The inner loop: the least clear bit of a word that is not full. */
    method FirstClear(i: nat) returns (j: nat)
      requires i < frame.Length && frame[i] != FULL
      ensures j < 32 && !Bit(frame[i], j)
      ensures LeastAbsent(Used(frame[..]), 32 * frame.Length, 32 * i)
           == LeastAbsent(Used(frame[..]), 32 * frame.Length, 32 * i + j)
    {
      hide Used, Bit, Mask, Has, LeastAbsent;
      ghost var words := frame[..];
      FullWord(words[i]);
      for j' := 0 to 32
        invariant LeastAbsent(Used(words), 32 * |words|, 32 * i) == LeastAbsent(Used(words), 32 * |words|, 32 * i + j')
        invariant forall k :: 0 <= k < j' ==> Bit(words[i], k)
      {
        TakenAt(words, i, j');
        if !Bit(frame[i], j') {
          return j';
        }
      }
      assert false;  // a word that is not full has a clear bit
    }

    /** pa_alloc_frame: a page without a frame gets the least free one, or what its number is cut down to.
        Halts when there is none. */
    method AllocFrame(page: Page, kernel: int, rw: int) returns (halted: bool)
      requires Valid()
      modifies page, frame
      ensures var f := LeastAbsent(old(InUse()), 32 * frame.Length, 0);
        if kernel > 1 || old(page.frame) != 0 || f == 32 * frame.Length then
          && unchanged(page) && InUse() == old(InUse())
          && halted == (kernel <= 1 && old(page.frame) == 0)
        else
          && !halted && page.frame == Given(f) && InUse() == old(InUse()) + {Given(f)}
          && page.present && page.rw == (rw != 0) && page.user == (kernel == 0)
          && (page.frame in old(InUse()) <==> Available(old(InUse()), 32 * frame.Length) == {})
    {
      hide Used, LeastAbsent, Available;
      halted := false;
      if kernel > 1 || page.frame != 0 {
        return;
      }
      ValidWords();
      GivenInUse(InUse(), 32 * frame.Length);
      var index := FirstFrame();
      if index == NO_FRAME {
        return true;
      }
      Wraps(index);
      SetFrame(index * 0x1000 % 0x1_0000_0000);
      page.present := true;
      page.rw := rw != 0;
      page.user := kernel == 0;
      page.frame := index % MAX_FRAMES;
    }

    /** pa_free_frame hands its frame number to pa_clear_frame, which expects an address: the frame
        cleared is a different one, and the page's own frame, never number 0 here, stays in use. */
    method FreeFrame(page: Page)
      requires Valid() && page.frame / PAGE < 32 * frame.Length
      modifies page, frame
      ensures if old(page.frame) == 0 then InUse() == old(InUse()) && unchanged(page)
              else page.frame == 0 && InUse() == old(InUse()) - {old(page.frame) / PAGE}
      ensures old(page.frame) in old(InUse()) && old(page.frame) != 0 ==> old(page.frame) in InUse()
    {
      var ftf := page.frame;
      if ftf == 0 {
        return;
      }
      ClearFrame(ftf);
      page.frame := 0;
    }

    /** So the next page can be given a frame that was in use, and may be held by another page: exactly
        when every frame up to the cleared one was, and then it is the cleared one. */
    method FreeThenAlloc(freed: Page, next: Page, kernel: int, rw: int) returns (halted: bool)
      requires Valid() && freed != next && kernel <= 1
      requires freed.frame != 0 && freed.frame / PAGE < 32 * frame.Length && next.frame == 0
      modifies freed, next, frame
      ensures var q := old(freed.frame) / PAGE;
        && !halted && next.frame <= q < old(freed.frame)
        && (next.frame in old(InUse()) <==> forall g: nat :: g <= q ==> g in old(InUse()))
        && (next.frame in old(InUse()) ==> next.frame == q)
    {
      ClearedIsNext(InUse(), 32 * frame.Length, freed.frame / PAGE);
      hide Used, LeastAbsent, Available, Given;
      FreeFrame(freed);
      halted := AllocFrame(next, kernel, rw);
    }

    /** With frames 0 to 0x1000 in use, giving back frame 0x1000 puts frame 1 into a second page while the
        first still holds it. */
    method FrameShared(held: Page, freed: Page, next: Page)
      requires Valid() && freed != next && held != freed && held != next && 32 * frame.Length > 1
      requires held.frame == 1 && freed.frame == 0x1000 && next.frame == 0
      requires forall g: nat :: g <= 0x1000 ==> g in InUse()
      modifies freed, next, frame
      ensures next.frame == held.frame == 1
    {
      var halted := FreeThenAlloc(freed, next, 0, 1);
    }

    /** A run of allocations for pages that have no frame yet. */
    method AllocPages(pages: seq<Page>, kernel: int, rw: int) returns (given: nat)
      requires Valid() && kernel <= 1
      requires forall i :: 0 <= i < |pages| ==> pages[i].frame == 0
      requires forall i, j :: 0 <= i < j < |pages| ==> pages[i] != pages[j]
      modifies pages, frame
      ensures var r := AllocRun(old(InUse()), 32 * frame.Length, |pages|);
        && given == |r| <= |pages|
        && (forall i :: 0 <= i < given ==> pages[i].frame == r[i])
        && InUse() == old(InUse()) + set f | f in r
    {
      hide Used, LeastAbsent, AllocRun, Available, Given;
      ghost var used, limit, n := InUse(), 32 * frame.Length, |pages|;
      ghost var done: seq<nat> := [];
      given := 0;
      while given < |pages|
        invariant 0 <= given <= n && |done| == given
        invariant done + AllocRun(InUse(), limit, n - given) == AllocRun(used, limit, n)
        invariant InUse() == used + set f | f in done
        invariant forall i :: 0 <= i < given ==> pages[i].frame == done[i]
        invariant forall i :: given <= i < n ==> pages[i].frame == 0
      {
        ghost var f := LeastAbsent(InUse(), limit, 0);
        AllocRunStep(InUse(), limit, n - given);
        var halted := AllocFrame(pages[given], kernel, rw);
        if halted {
          break;
        }
        done := done + [Given(f)];
        given := given + 1;
      }
      AllocRunStep(InUse(), limit, 0);
    }
  }

  lemma TestUsed(words: seq<bv32>, f: nat)
    requires f < 32 * |words|
    ensures words[f / 32] & Mask(f % 32) != 0 <==> f in Used(words)
  {}

  lemma TakenAt(words: seq<bv32>, i: nat, j: nat)
    requires i < |words| && j < 32
    ensures 32 * i + j in Used(words) <==> Bit(words[i], j)
    ensures Bit(words[i], j) ==>
      LeastAbsent(Used(words), 32 * |words|, 32 * i + j) == LeastAbsent(Used(words), 32 * |words|, 32 * i + j + 1)
  {}

  lemma AllTaken(words: seq<bv32>, i: nat)
    requires i < |words| && forall j :: 0 <= j < 32 ==> Bit(words[i], j)
    ensures LeastAbsent(Used(words), 32 * |words|, 32 * i) == LeastAbsent(Used(words), 32 * |words|, 32 * i + 32)
  {
    hide Used, Mask, Bit;
    for j := 0 to 32
      invariant LeastAbsent(Used(words), 32 * |words|, 32 * i) == LeastAbsent(Used(words), 32 * |words|, 32 * i + j)
    {
      TakenAt(words, i, j);
    }
  }
}
