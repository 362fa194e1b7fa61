/** The round-robin thread queue (kernel/scheduler.c). */
module Scheduler {
  import opened Wrappers

  /** The scheduler's state in terms of positions: how many threads are queued, whose turn it is, and
      whether scheduling has begun. */
  datatype State = State(length: nat, current: nat, running: bool)

  datatype Event = Update | Add

  ghost predicate Inv(s: State) { s.current < s.length }

  function Next(s: State): nat { if s.current + 1 < s.length then s.current + 1 else 0 }

  function Step(s: State, e: Event): State {
    match e
    case Update => if s.running then s.(current := Next(s)) else s
    case Add => s.(length := s.length + 1, running := true)
  }

  function Run(s: State, es: seq<Event>): State {
    if es == [] then s else Step(Run(s, es[..|es| - 1]), es[|es| - 1])
  }

  /** The queue positions selected during a run, in order. */
  function Selected(s: State, es: seq<Event>): seq<nat> {
    if es == [] then []
    else
      var before := Run(s, es[..|es| - 1]);
      Selected(s, es[..|es| - 1])
        + if es[|es| - 1] == Update && before.running then [Next(before)] else []
  }

  function Count(xs: seq<nat>, x: nat): nat {
    if xs == [] then 0 else Count(xs[..|xs| - 1], x) + if xs[|xs| - 1] == x then 1 else 0
  }

  /** How far the turn has come around since position k was selected with n threads queued, k not having
      been selected again: each other one of the n has had exactly one turn if it has been passed. */
  ghost predicate Round(xs: seq<nat>, k: nat, n: nat, now: State) {
    && now.length >= n && Inv(now)
    && forall j :: 0 <= j < n && j != k ==>
         Count(xs, j) == if now.current >= k then (if k < j <= now.current then 1 else 0)
                         else if j > k || j <= now.current then 1 else 0
  }

  lemma CountSnoc(xs: seq<nat>, x: nat, y: nat)
    ensures Count(xs + [x], y) == Count(xs, y) + if x == y then 1 else 0
  {}

  /** Until k's next turn, the turn goes once around whatever threads are added meanwhile. */
  lemma {:induction false} RoundHolds(s: State, es: seq<Event>)
    requires Inv(s) && s.current !in Selected(s, es)
    ensures Round(Selected(s, es), s.current, s.length, Run(s, es))
    decreases |es|
  {
    if es != [] {
      var before := es[..|es| - 1];
      RoundHolds(s, before);
      var now := Run(s, before);
      var xs := Selected(s, before);
      if es[|es| - 1] == Update && now.running {
        assert Selected(s, es) == xs + [Next(now)] && Next(now) in Selected(s, es);
        forall j ensures Count(Selected(s, es), j) == Count(xs, j) + if Next(now) == j then 1 else 0 {
          CountSnoc(xs, Next(now), j);
        }
      } else {
        assert Selected(s, es) == xs;
      }
    }
  }

  /** Fairness: between two successive turns of one thread, every other thread that was queued at the
      first has exactly one turn, whatever threads are added in between. */
  lemma Fairness(s: State, es: seq<Event>)
    requires Inv(s) && s.current !in Selected(s, es)
    requires Selected(s, es + [Update]) == Selected(s, es) + [s.current]
    ensures forall j :: 0 <= j < s.length && j != s.current ==> Count(Selected(s, es), j) == 1
  {
    RoundHolds(s, es);
    var now := Run(s, es);
    assert (es + [Update])[..|es|] == es && (es + [Update])[|es|] == Update;
    assert |Selected(s, es + [Update])| == |Selected(s, es)| + if now.running then 1 else 0;
    assert Selected(s, es + [Update])[|Selected(s, es)|] == Next(now) == s.current;
  }

  function Updates(es: seq<Event>): nat {
    if es == [] then 0 else Updates(es[..|es| - 1]) + if es[|es| - 1] == Update then 1 else 0
  }

  /** Nothing is selected before the first thread is added; from then on every update selects a thread. */
  lemma {:induction false} EveryUpdateSelects(s: State, es: seq<Event>)
    ensures s.running ==> Run(s, es).running && |Selected(s, es)| == Updates(es)
    ensures !s.running && Add !in es ==> Run(s, es) == s && Selected(s, es) == []
    ensures Run(s, es + [Add]).running && Run(s, es + [Add]).length == Run(s, es).length + 1
    ensures Run(s, es + [Add]).current == Run(s, es).current
    decreases |es|
  {
    assert (es + [Add])[..|es|] == es;
    if es != [] {
      EveryUpdateSelects(s, es[..|es| - 1]);
    }
  }

  /** Each selection is the position after the one selected before it, or the first after the last one queued. */
  lemma InTurn(s: State, es: seq<Event>)
    requires Inv(s) && Run(s, es).running
    ensures var xs, now := Selected(s, es), Run(s, es);
      && Inv(now) && now.current == (if xs == [] then s.current else xs[|xs| - 1])
      && Selected(s, es + [Update]) == xs + [if now.current == now.length - 1 then 0 else now.current + 1]
  {
    LastSelected(s, es);
    SelectedSnoc(s, es);
    hide Selected, Run;
  }

  lemma SelectedSnoc(s: State, es: seq<Event>)
    requires Run(s, es).running
    ensures Selected(s, es + [Update]) == Selected(s, es) + [Next(Run(s, es))]
  {
    var more := es + [Update];
    assert more[..|more| - 1] == es && more[|more| - 1] == Update;
    hide Run, Next;
  }

  lemma {:induction false} LastSelected(s: State, es: seq<Event>)
    requires Inv(s)
    ensures var xs, now := Selected(s, es), Run(s, es);
      Inv(now) && now.current == if xs == [] then s.current else xs[|xs| - 1]
    decreases |es|
  {
    if es != [] {
      LastSelected(s, es[..|es| - 1]);
    }
  }

  // ---- the queue itself ----

  /** tlist_t. */
  class Cell {
    var next: Cell?
    var thread: Option<int>   // None is a null thread

    constructor (thread: Option<int>)
      ensures this.thread == thread && next == null
    {
      this.thread, next := thread, null;
    }
  }

  class Scheduler {
    var tqueue: Cell
    var tcurrent: Cell
    var schedulerState: int
    ghost var cells: seq<Cell>
    ghost var turn: nat

    ghost predicate Valid()
      reads this, cells
    {
      && turn < |cells| && tqueue == cells[0] && tcurrent == cells[turn]
      && (forall i, j :: 0 <= i < j < |cells| ==> cells[i] != cells[j])
      && (forall i {:trigger cells[i].next} :: 0 <= i < |cells| ==>
            cells[i].next == if i + 1 < |cells| then cells[i + 1] else null)
    }

    ghost function S(): State
      reads this
    {
      State(|cells|, turn, schedulerState != 0)
    }

    /** scheduler_init: one thread queued, nothing running yet. */
    constructor (first: Option<int>)
      ensures Valid() && S() == State(1, 0, false) && cells[0].thread == first && fresh(cells[0])
    {
      var c := new Cell(first);
      tqueue, tcurrent, schedulerState := c, c, 0;
      cells, turn := [c], 0;
    }

    /** scheduler_update: the next thread's turn, the first one's after the last. A null thread takes
        its turn like any other; it is only not switched to. */
    method Update()
      requires Valid()
      modifies this`tcurrent, this`turn
      ensures Valid() && S() == Step(old(S()), Event.Update)
      ensures schedulerState == 0 ==> tcurrent == old(tcurrent)
      ensures schedulerState != 0 ==>
        tcurrent == if old(tcurrent.next) == null then tqueue else old(tcurrent.next)
    {
      if schedulerState == 0 {
        return;
      }
      if tcurrent.next == null {
        tcurrent := tqueue;
        turn := 0;
      } else {
        tcurrent := tcurrent.next;
        turn := turn + 1;
      }
    }

    /** scheduler_add_thread: walk to the end of the queue and append; scheduling begins. */
    method AddThread(thread: Option<int>)
      requires Valid()
      modifies this`cells, this`schedulerState, cells
      ensures Valid() && S() == Step(old(S()), Add) && schedulerState != 0
      ensures |cells| == |old(cells)| + 1 && old(cells) <= cells
      ensures fresh(cells[|old(cells)|]) && cells[|old(cells)|].thread == thread
      ensures forall c :: c in old(cells) ==> c.thread == old(c.thread)
    {
      var item := new Cell(thread);
      var test := tqueue;
      ghost var i := 0;
      while test.next != null
        invariant 0 <= i < |cells| && test == cells[i]
        decreases |cells| - i
      {
        test := test.next;
        i := i + 1;
      }
      test.next := item;
      schedulerState := 1;
      cells := cells + [item];
    }
  }
}
