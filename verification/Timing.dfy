/** The kernel's timer table (kernel/timing.c), driven by one tick at a time (kernel/timer.c). */
module Timing {
  const SLOTS := 0xFF
  const NO_HANDLER := 0
  const REAPER := 1

  /** A slot of the table. fire == 0 marks it empty. Handlers are named by number, 0 being NULL. */
  datatype Timer = Timer(fire: int, rate: int, handler: nat)

  const EMPTY := Timer(0, 0, NO_HANDLER)

  type Table = t: seq<Timer> | |t| == SLOTS witness seq(SLOTS, i => EMPTY)

  /** What a handler may do to the table while it runs. */
  datatype Command =
    | Register(delay: int, handler: nat, rate: int)
    | Deregister(handler: nat)
    | RemoveIndex(index: nat)

  /** The environment: what the handler firing in slot i at a tick does, and what the rest of the
      kernel does between that tick's scan and the next tick. */
  datatype Env = Env(act: (int, nat) -> seq<Command>, idle: int -> seq<Command>)

  // ---- the operations as functions of the table ----

  function FirstEmpty(t: seq<Timer>, i: nat): (r: nat)
    requires i <= |t|
    ensures i <= r <= |t|
    ensures forall k :: i <= k < r ==> t[k].fire != 0
    ensures r < |t| ==> t[r].fire == 0
    decreases |t| - i
  {
    if i == |t| || t[i].fire == 0 then i else FirstEmpty(t, i + 1)
  }

  function FirstOf(t: seq<Timer>, handler: nat, i: nat): (r: nat)
    requires i <= |t|
    ensures i <= r <= |t|
    ensures forall k :: i <= k < r ==> t[k].handler == NO_HANDLER || t[k].handler != handler
    ensures r < |t| ==> t[r].handler == handler != NO_HANDLER
    decreases |t| - i
  {
    if i == |t| || (t[i].handler != NO_HANDLER && t[i].handler == handler) then i else FirstOf(t, handler, i + 1)
  }

  function Apply(t: Table, c: Command, now: int): Table {
    match c
    case Register(delay, handler, rate) =>
      var i := FirstEmpty(t, 0);
      if i == SLOTS then t else t[i := Timer(delay + now, rate, handler)]
    case Deregister(handler) =>
      var i := FirstOf(t, handler, 0);
      if i == SLOTS then t else t[i := EMPTY]
    case RemoveIndex(i) =>
      if i < SLOTS then t[i := t[i].(rate := 0)] else t
  }

  function ApplyAll(t: Table, cs: seq<Command>, now: int): Table
    decreases |cs|
  {
    if cs == [] then t else ApplyAll(Apply(t, cs[0], now), cs[1..], now)
  }

  function ReapSlot(s: Timer, now: int): Timer {
    if s.fire != 0 && s.fire < now then EMPTY else s
  }

  function Reap(t: Table, now: int): Table {
    seq(SLOTS, i requires 0 <= i < SLOTS => ReapSlot(t[i], now))
  }

  /** Running the handler found in slot i. */
  function Run(t: Table, i: nat, now: int, env: Env): Table
    requires i < SLOTS
  {
    if t[i].handler == REAPER then Reap(t, now) else ApplyAll(t, env.act(now, i), now)
  }

  /** One step of the scan: fire slot i if it is due, and set its next time if it repeats. */
  function Visit(t: Table, i: nat, now: int, env: Env): Table
    requires i < SLOTS
  {
    if t[i].fire == 0 || t[i].fire != now then t
    else
      var t' := Run(t, i, now, env);
      if t'[i].rate != 0 then t'[i := t'[i].(fire := now + t'[i].rate)] else t'
  }

  /** The table after the first n slots have been visited at tick `now`. */
  function Scan(t: Table, n: nat, now: int, env: Env): Table
    requires n <= SLOTS
  {
    if n == 0 then t else Visit(Scan(t, n - 1, now, env), n - 1, now, env)
  }

  /** A whole tick: the scan, then whatever else happens before the next one. */
  function Tick(t: Table, now: int, env: Env): Table {
    ApplyAll(Scan(t, SLOTS, now, env), env.idle(now), now)
  }

  /** The table after ticks now+1, ..., now+n. */
  function Ticks(t: Table, now: int, n: nat, env: Env): Table {
    if n == 0 then t else Tick(Ticks(t, now, n - 1, env), now + n, env)
  }

  // ---- what every tick keeps ----

  /** What callers must respect: delays of at least one tick, no negative period, a real handler. */
  predicate Legal(c: Command) {
    match c
    case Register(delay, handler, rate) => delay >= 1 && rate >= 0 && handler != NO_HANDLER
    case Deregister(_) => true
    case RemoveIndex(i) => i < SLOTS
  }

  ghost predicate LegalEnv(env: Env) {
    && (forall now, i, k :: 0 <= k < |env.act(now, i)| ==> Legal(env.act(now, i)[k]))
    && (forall now, k :: 0 <= k < |env.idle(now)| ==> Legal(env.idle(now)[k]))
  }

  /** An occupied slot is still to fire after `now`, or is a one-shot whose time has come. */
  predicate Sound(s: Timer, now: int) {
    if s.fire == 0 then s.rate == 0
    else s.fire > 0 && s.handler != NO_HANDLER && s.rate >= 0 && (s.fire > now || s.rate == 0)
  }

  ghost predicate AllSound(t: Table, now: int) {
    forall k :: 0 <= k < SLOTS ==> Sound(t[k], now)
  }

  /** In the middle of the scan at tick `now`, the first n slots being done. */
  ghost predicate MidScan(t: Table, n: nat, now: int) {
    forall k :: 0 <= k < SLOTS ==> Sound(t[k], if k < n then now else now - 1)
  }

  lemma ApplySound(t: Table, c: Command, n: nat, now: int)
    requires MidScan(t, n, now) && Legal(c) && now >= 0
    ensures MidScan(Apply(t, c, now), n, now)
  {}

  lemma {:induction false} ApplyAllSound(t: Table, cs: seq<Command>, n: nat, now: int)
    requires MidScan(t, n, now) && now >= 0
    requires forall k :: 0 <= k < |cs| ==> Legal(cs[k])
    ensures MidScan(ApplyAll(t, cs, now), n, now)
    decreases |cs|
  {
    if cs != [] {
      ApplySound(t, cs[0], n, now);
      ApplyAllSound(Apply(t, cs[0], now), cs[1..], n, now);
    }
  }

  /** Whatever the handlers register, deregister or cancel on the way, the scan leaves every slot it
      has passed sound for this tick and every slot still ahead sound for the one before. */
  lemma {:induction false} ScanSound(t: Table, n: nat, now: int, env: Env)
    requires AllSound(t, now - 1) && LegalEnv(env) && now >= 1 && n <= SLOTS
    ensures MidScan(Scan(t, n, now, env), n, now)
  {
    if n > 0 {
      var i := n - 1;
      ScanSound(t, i, now, env);
      var u := Scan(t, i, now, env);
      if u[i].handler != REAPER {
        ApplyAllSound(u, env.act(now, i), i, now);
      }
    }
  }

  /** After every tick of every run, an occupied slot fires in the future or is a spent one-shot. */
  lemma {:induction false} TicksSound(t: Table, now: int, n: nat, env: Env)
    requires AllSound(t, now) && LegalEnv(env) && now >= 0
    ensures AllSound(Ticks(t, now, n, env), now + n)
  {
    if n > 0 {
      TicksSound(t, now, n - 1, env);
      var u := Ticks(t, now, n - 1, env);
      ScanSound(u, SLOTS, now + n, env);
      ApplyAllSound(Scan(u, SLOTS, now + n, env), env.idle(now + n), SLOTS, now + n);
    }
  }

  /** The reaper, wherever in the scan it runs, only ever clears one-shots that have fired or can no
      longer fire; every timer that could still fire stays. */
  lemma ReaperHarmless(t: Table, now: int, n: nat, i: nat, env: Env, k: nat)
    requires AllSound(t, now) && LegalEnv(env) && now >= 0 && i <= SLOTS && k < SLOTS
    ensures var u := Scan(Ticks(t, now, n, env), i, now + n + 1, env);
      Reap(u, now + n + 1)[k] != u[k] ==> u[k].rate == 0 && u[k].fire < now + n + 1
  {
    TicksSound(t, now, n, env);
    ScanSound(Ticks(t, now, n, env), i, now + n + 1, env);
  }

  // ---- when a timer fires ----

  /** Slot k's handler is called during the scan at tick `now`. */
  predicate Fires(t: Table, k: nat, now: int, env: Env)
    requires k < SLOTS
  {
    var s := Scan(t, k, now, env)[k];
    s.fire != 0 && s.fire == now
  }

  /** During this tick nobody touches slot k: neither a handler other than the reaper, nor anything
      between the ticks. */
  ghost predicate Quiet(t: Table, k: nat, now: int, env: Env)
    requires k < SLOTS
  {
    QuietScan(t, 0, k, now, env) && Tick(t, now, env)[k] == Scan(t, SLOTS, now, env)[k]
  }

  /** From slot `from` of the scan on no handler other than the reaper touches slot k. */
  ghost predicate QuietScan(t: Table, from: nat, k: nat, now: int, env: Env)
    requires k < SLOTS
  {
    forall i :: from <= i < SLOTS && Fires(t, i, now, env) && Scan(t, i, now, env)[i].handler != REAPER ==>
      ApplyAll(Scan(t, i, now, env), env.act(now, i), now)[k] == Scan(t, i, now, env)[k]
  }

  /** What a tick does to a slot nobody touches. */
  function Settle(s: Timer, now: int): Timer {
    if s.fire == now && s.fire != 0 && s.rate != 0 then s.(fire := now + s.rate) else s
  }

  /** A timer due now or later meets its own visit as it was before the scan, and then only its visit
      changes it. */
  lemma {:induction false} ScanQuiet(t: Table, n: nat, k: nat, now: int, env: Env)
    requires k < SLOTS && n <= SLOTS && Quiet(t, k, now, env)
    requires now >= 1 && t[k].fire >= now && t[k].rate >= 0
    ensures Scan(t, n, now, env)[k] == if n <= k then t[k] else Settle(t[k], now)
  {
    if n > 0 {
      ScanQuiet(t, n - 1, k, now, env);
      var u, i := Scan(t, n - 1, now, env), n - 1;
      assert Fires(t, i, now, env) <==> u[i].fire == now && u[i].fire != 0;
    }
  }

  lemma {:induction false} ScanSpent(t: Table, n: nat, k: nat, now: int, env: Env)
    requires k < SLOTS && n <= SLOTS && Quiet(t, k, now, env)
    requires now >= 1 && t[k].fire < now
    ensures Scan(t, n, now, env)[k] == t[k] || Scan(t, n, now, env)[k] == EMPTY
  {
    if n > 0 {
      ScanSpent(t, n - 1, k, now, env);
      var u, i := Scan(t, n - 1, now, env), n - 1;
      assert Fires(t, i, now, env) <==> u[i].fire == now && u[i].fire != 0;
    }
  }

  /** A timer with period r first due d ticks from `now` is due again at tick now+m. */
  predicate Due(d: int, r: int, m: int) {
    if r == 0 then m == d else m >= d && (m - d) % r == 0
  }

  /** Slot k after m quiet ticks: a repeating timer waits for the first due time still ahead; a
      one-shot waits for its only one, and afterwards stays behind or is gone. */
  ghost predicate Waiting(s: Timer, now: int, d: int, r: int, m: int) {
    if r > 0 then
      s.rate == r && s.fire > now + m && Due(d, r, s.fire - now) && s.fire - now <= (if m < d then d else m + r)
    else
      s.rate == 0 && (if m < d then s.fire == now + d else s.fire == now + d || s.fire == 0)
  }

  /** Between two due times there is none. */
  lemma NoDueBetween(d: int, r: int, m: int, f: int)
    requires r > 0 && Due(d, r, f) && m <= f <= (if m <= d then d else m - 1 + r)
    ensures Due(d, r, m) <==> m == f
    ensures Due(d, r, f + r)
  {
    if m >= d {
      var q, x := (f - d) / r, f - m;
      assert f - d == q * r && 0 <= x < r;
      if x > 0 {
        Residue(q - 1, r - x, r);
        assert m - d == (q - 1) * r + (r - x);
      }
      Residue(q + 1, 0, r);
      assert f + r - d == (q + 1) * r;
    }
  }

  lemma Residue(q: int, x: int, r: int)
    requires 0 <= x < r
    ensures (q * r + x) % r == x
  {
    var a := q * r + x;
    var k := q - a / r;
    assert k * r == a % r - x;
    assert k >= 1 ==> k * r >= r;
    assert k <= -1 ==> k * r <= -r;
  }

  /** Slot k fires over n ticks at exactly the times of a timer with period r first due d ticks from now. */
  ghost predicate FiresDue(t: Table, k: nat, now: int, d: int, r: int, n: nat, env: Env)
    requires k < SLOTS
  {
    forall m :: 0 <= m < n ==> (Fires(Ticks(t, now, m, env), k, now + m + 1, env) <==> Due(d, r, m + 1))
  }

  /** A timer set at `now` with delay d and period r fires, over any number n of ticks that leave its
      slot alone, at exactly the ticks now+d, now+d+r, now+d+2r and so on; with r = 0 only at now+d. */
  lemma {:induction false} FiresExactly(t: Table, k: nat, now: int, d: int, r: int, n: nat, env: Env)
    requires k < SLOTS && now >= 0 && d >= 1 && r >= 0
    requires t[k].fire == now + d && t[k].rate == r
    requires forall m :: 0 <= m < n ==> Quiet(Ticks(t, now, m, env), k, now + m + 1, env)
    ensures FiresDue(t, k, now, d, r, n, env)
    ensures Waiting(Ticks(t, now, n, env)[k], now, d, r, n)
  {
    if n > 0 {
      FiresExactly(t, k, now, d, r, n - 1, env);
      FiresNext(Ticks(t, now, n - 1, env), k, now, d, r, n - 1, env);
    } else if r > 0 {
      Residue(0, 0, r);
    }
  }

  /** The commands issued at stage i of the tick: those of the handler in slot i, when it fires and is not
      the reaper; those issued after the scan, for i = SLOTS. */
  function Issued(i: nat, now: int, env: Env): seq<Command> {
    if i < SLOTS then env.act(now, i) else env.idle(now)
  }

  /** The table when command j of stage i is about to run. */
  function Before(t: Table, i: nat, j: nat, now: int, env: Env): Table
    requires i <= SLOTS && j <= |Issued(i, now, env)|
  {
    ApplyAll(Scan(t, i, now, env), Issued(i, now, env)[..j], now)
  }

  /** Command j of stage i of the tick registers a timer, and there is room for it. */
  ghost predicate Registers(t: Table, i: nat, j: nat, d: int, handler: nat, r: int, now: int, env: Env) {
    && i <= SLOTS && j < |Issued(i, now, env)| && Issued(i, now, env)[j] == Register(d, handler, r)
    && (i < SLOTS ==> Fires(t, i, now, env) && Scan(t, i, now, env)[i].handler != REAPER)
    && FirstEmpty(Before(t, i, j, now, env), 0) < SLOTS
  }

  /** After command j of stage i nobody touches slot k during the rest of the tick: neither what follows in
      the same stage, nor a later handler, nor anything after the scan. */
  ghost predicate QuietRest(t: Table, i: nat, j: nat, k: nat, now: int, env: Env)
    requires i <= SLOTS && j < |Issued(i, now, env)| && k < SLOTS
  {
    && Before(t, i, |Issued(i, now, env)|, now, env)[k] == Before(t, i, j + 1, now, env)[k]
    && QuietScan(t, i + 1, k, now, env)
    && (i < SLOTS ==> Tick(t, now, env)[k] == Scan(t, SLOTS, now, env)[k])
  }

  lemma {:induction false} ApplyOneMore(t: Table, cs: seq<Command>, j: nat, now: int)
    requires j < |cs|
    ensures ApplyAll(t, cs[..j + 1], now) == Apply(ApplyAll(t, cs[..j], now), cs[j], now)
    decreases j
  {
    if j > 0 {
      assert cs[..j + 1][1..] == cs[1..][..j] && cs[..j][1..] == cs[1..][..j - 1];
      ApplyOneMore(Apply(t, cs[0], now), cs[1..], j - 1, now);
    } else {
      assert cs[..1][1..] == [] == cs[..0];
    }
  }

  /** How a timer registered during a tick is left by it. Its first firing is set from its delay, but from
      its period instead when it repeats and has been given the very slot being visited: the scan sets the
      next time of whatever it finds there when the handler returns. */
  lemma RegisteredLeft(t: Table, i: nat, j: nat, d: int, handler: nat, r: int, now: int, env: Env)
    requires now >= 1 && d >= 1 && r >= 0 && Registers(t, i, j, d, handler, r, now, env)
    requires QuietRest(t, i, j, FirstEmpty(Before(t, i, j, now, env), 0), now, env)
    ensures var k := FirstEmpty(Before(t, i, j, now, env), 0);
      Tick(t, now, env)[k] == Timer(now + if k == i && r != 0 then r else d, r, handler)
  {
    var cs, u, k := Issued(i, now, env), Scan(t, i, now, env), FirstEmpty(Before(t, i, j, now, env), 0);
    ApplyOneMore(u, cs, j, now);
    assert cs[..|cs|] == cs;
    assert ApplyAll(u, cs, now)[k] == Timer(now + d, r, handler);
    if i < SLOTS {
      ScanAhead(t, i + 1, SLOTS, k, now, env);
    }
  }

  /** From slot n0 to slot n the scan leaves alone a timer that is due later and that nobody touches. */
  lemma {:induction false} ScanAhead(t: Table, n0: nat, n: nat, k: nat, now: int, env: Env)
    requires n0 <= n <= SLOTS && k < SLOTS && QuietScan(t, n0, k, now, env)
    requires now >= 1 && Scan(t, n0, now, env)[k].fire > now
    ensures Scan(t, n, now, env)[k] == Scan(t, n0, now, env)[k]
    decreases n
  {
    if n > n0 {
      ScanAhead(t, n0, n - 1, k, now, env);
      assert Fires(t, n - 1, now, env) <==> Scan(t, n - 1, now, env)[n - 1].fire == now;
    }
  }

  /** A timer registered with delay d and period r during the tick `now`, by a handler in the middle of the
      scan or by anything after it, and whose slot nobody else touches, fires over the following n ticks
      at exactly now+d, now+d+r and so on, when it was not given the slot being visited, or does not
      repeat, or has r = d; otherwise, and only then, its times are now+r, now+2r and so on instead. */
  lemma RegisteredFires(t: Table, i: nat, j: nat, d: int, handler: nat, r: int, now: int, n: nat, env: Env)
    requires now >= 1 && d >= 1 && r >= 0 && Registers(t, i, j, d, handler, r, now, env)
    requires QuietRest(t, i, j, FirstEmpty(Before(t, i, j, now, env), 0), now, env)
    requires forall m :: 0 <= m < n ==>
      Quiet(Ticks(Tick(t, now, env), now, m, env), FirstEmpty(Before(t, i, j, now, env), 0), now + m + 1, env)
    ensures var k, u := FirstEmpty(Before(t, i, j, now, env), 0), Tick(t, now, env);
      && FiresDue(u, k, now, if k == i && r != 0 then r else d, r, n, env)
      && (n >= d ==> (FiresDue(u, k, now, d, r, n, env) <==> k != i || r == 0 || r == d))
  {
    var k, u := FirstEmpty(Before(t, i, j, now, env), 0), Tick(t, now, env);
    var first := if k == i && r != 0 then r else d;
    RegisteredLeft(t, i, j, d, handler, r, now, env);
    FiresExactly(u, k, now, first, r, n, env);
    if n >= d && first != d {
      var m := (if r < d then r else d) - 1;
      assert Fires(Ticks(u, now, m, env), k, now + m + 1, env) <==> Due(r, r, m + 1);
      assert !(Due(r, r, m + 1) <==> Due(d, r, m + 1));
    }
  }

  /** When the handler in slot 0 gives up its own slot and registers handler 8 with delay 10 and period
      50, that timer misses tick 11 and first fires at tick 51. */
  lemma ReusedSlotFiresLate()
    ensures var act := (now: int, i: nat) => if now == 1 && i == 0 then [Deregister(7), Register(10, 8, 50)] else [];
      var env := Env(act, _ => []);
      var t: Table := seq(SLOTS, k => if k == 0 then Timer(1, 0, 7) else EMPTY);
      var u := Tick(t, 1, env);
      && LegalEnv(env) && AllSound(t, 0) && Registers(t, 0, 1, 10, 8, 50, 1, env)
      && u[0] == Timer(51, 50, 8)
      && forall m :: 0 <= m < 50 ==> (Fires(Ticks(u, 1, m, env), 0, 2 + m, env) <==> m + 2 == 51)
  {
    var act := (now: int, i: nat) => if now == 1 && i == 0 then [Deregister(7), Register(10, 8, 50)] else [];
    var env := Env(act, _ => []);
    var t: Table := seq(SLOTS, k => if k == 0 then Timer(1, 0, 7) else EMPTY);
    LateTimer(t, env);
  }

  lemma LateTimer(t: Table, env: Env)
    requires t[0] == Timer(1, 0, 7) && forall k :: 1 <= k < SLOTS ==> t[k] == EMPTY
    requires env.act(1, 0) == [Deregister(7), Register(10, 8, 50)]
    requires forall now, i :: now != 1 || i != 0 ==> env.act(now, i) == []
    requires forall now :: env.idle(now) == []
    ensures Registers(t, 0, 1, 10, 8, 50, 1, env)
    ensures var u := Tick(t, 1, env);
      && u[0] == Timer(51, 50, 8)
      && forall m :: 0 <= m < 50 ==> (Fires(Ticks(u, 1, m, env), 0, 2 + m, env) <==> m + 2 == 51)
  {
    var u := Tick(t, 1, env);
    assert Issued(0, 1, env)[..1] == [Deregister(7)] && Scan(t, 0, 1, env) == t;
    assert FirstOf(t, 7, 0) == 0 && Apply(t, Deregister(7), 1) == t[0 := EMPTY];
    assert [Deregister(7)][1..] == [];
    assert Before(t, 0, 1, 1, env) == t[0 := EMPTY];
    RegisteredLeft(t, 0, 1, 10, 8, 50, 1, env);
    RegisteredFires(t, 0, 1, 10, 8, 50, 1, 50, env);
  }

  lemma FiresNext(u: Table, k: nat, now: int, d: int, r: int, m: nat, env: Env)
    requires k < SLOTS && now >= 0 && d >= 1 && r >= 0 && Waiting(u[k], now, d, r, m)
    requires Quiet(u, k, now + m + 1, env)
    ensures Fires(u, k, now + m + 1, env) <==> Due(d, r, m + 1)
    ensures Waiting(Tick(u, now + m + 1, env)[k], now, d, r, m + 1)
  {
    var tick := now + m + 1;
    if u[k].fire >= tick {
      ScanQuiet(u, k, k, tick, env);
      ScanQuiet(u, SLOTS, k, tick, env);
      if r > 0 {
        NoDueBetween(d, r, m + 1, u[k].fire - now);
      }
    } else {
      ScanSpent(u, k, k, tick, env);
      ScanSpent(u, SLOTS, k, tick, env);
    }
  }

  /** A timer taken off by its index still fires at the time it is waiting for, and never again while
      nobody else touches its slot. */
  lemma RemovedFiresOnce(t: Table, k: nat, now: int, d: int, n: nat, env: Env)
    requires k < SLOTS && now >= 0 && d >= 1 && t[k].fire == now + d
    requires var u := Apply(t, RemoveIndex(k), now);
      forall m :: 0 <= m < n ==> Quiet(Ticks(u, now, m, env), k, now + m + 1, env)
    ensures var u := Apply(t, RemoveIndex(k), now);
      && (forall j :: 0 <= j < SLOTS && j != k ==> u[j] == t[j])
      && forall m :: 0 <= m < n ==> (Fires(Ticks(u, now, m, env), k, now + m + 1, env) <==> m + 1 == d)
  {
    FiresExactly(Apply(t, RemoveIndex(k), now), k, now, d, 0, n, env);
  }

  /** The first timer with a handler, once deregistered, never fires while nobody else touches its slot. */
  lemma DeregisteredSilent(t: Table, handler: nat, k: nat, now: int, n: nat, env: Env)
    requires now >= 0 && k < SLOTS && t[k].handler == handler != NO_HANDLER
    requires forall j :: 0 <= j < k ==> t[j].handler != handler
    requires var u := Apply(t, Deregister(handler), now);
      forall m :: 0 <= m < n ==> Quiet(Ticks(u, now, m, env), k, now + m + 1, env)
    ensures var u := Apply(t, Deregister(handler), now);
      && (forall j :: 0 <= j < SLOTS && j != k ==> u[j] == t[j])
      && forall m :: 0 <= m < n ==> !Fires(Ticks(u, now, m, env), k, now + m + 1, env)
  {
    var u := Apply(t, Deregister(handler), now);
    assert FirstOf(t, handler, 0) == k;
    forall m | 0 <= m < n ensures !Fires(Ticks(u, now, m, env), k, now + m + 1, env) {
      StaysEmpty(u, k, now, m, env);
      ScanEmpty(Ticks(u, now, m, env), 0, k, k, now + m + 1, env);
    }
  }

  lemma {:induction false} StaysEmpty(t: Table, k: nat, now: int, n: nat, env: Env)
    requires k < SLOTS && t[k] == EMPTY
    requires forall m :: 0 <= m < n ==> Quiet(Ticks(t, now, m, env), k, now + m + 1, env)
    ensures Ticks(t, now, n, env)[k] == EMPTY
  {
    if n > 0 {
      StaysEmpty(t, k, now, n - 1, env);
      ScanEmpty(Ticks(t, now, n - 1, env), 0, SLOTS, k, now + n, env);
    }
  }

  // ---- what the reaper gives back ----

  /** A slot that is empty at stage n0 of the scan, and that nobody touches from there on, stays empty. */
  lemma {:induction false} ScanEmpty(t: Table, n0: nat, n: nat, k: nat, now: int, env: Env)
    requires n0 <= n <= SLOTS && k < SLOTS && QuietScan(t, n0, k, now, env)
    requires Scan(t, n0, now, env)[k] == EMPTY
    ensures Scan(t, n, now, env)[k] == EMPTY
    decreases n
  {
    if n > n0 {
      ScanEmpty(t, n0, n - 1, k, now, env);
      var s := Scan(t, n - 1, now, env)[n - 1];
      assert Fires(t, n - 1, now, env) <==> s.fire != 0 && s.fire == now;
    }
  }

  /** In the initial table the reaper waits in slot 0. */
  ghost predicate JustStarted(t: Table) {
    t[0] == Timer(100, 100, REAPER) && forall k :: 1 <= k < SLOTS ==> t[k] == EMPTY
  }

  /** While nobody else touches its slot, the reaper waits for the next multiple of 100. */
  lemma {:induction false} ReaperWaits(t: Table, n: nat, env: Env)
    requires JustStarted(t) && forall m :: 0 <= m < n ==> Quiet(Ticks(t, 0, m, env), 0, m + 1, env)
    ensures Ticks(t, 0, n, env)[0] == Timer((n / 100 + 1) * 100, 100, REAPER)
  {
    if n > 0 {
      ReaperWaits(t, n - 1, env);
      var u := Ticks(t, 0, n - 1, env);
      ScanQuiet(u, SLOTS, 0, n, env);
    }
  }

  /** A one-shot that is due at d, in a slot nobody else touches, is left there or cleared by each tick,
      and is cleared by one after d at which the reaper in slot 0 runs. */
  lemma SpentTick(u: Table, k: nat, d: int, handler: nat, now: int, env: Env)
    requires 1 <= k < SLOTS && now >= 1 && d >= 1 && Quiet(u, k, now, env)
    requires u[k] == Timer(d, 0, handler) || u[k] == EMPTY
    ensures var x := Tick(u, now, env)[k]; x == u[k] || x == EMPTY
    ensures d < now && u[0].fire == now && u[0].handler == REAPER ==> Tick(u, now, env)[k] == EMPTY
  {
    if d < now && u[0].fire == now && u[0].handler == REAPER {
      assert Scan(u, 0, now, env) == u;
      assert Scan(u, 1, now, env)[k] == EMPTY;
      ScanEmpty(u, 1, SLOTS, k, now, env);
    } else if u[k].fire >= now {
      ScanQuiet(u, SLOTS, k, now, env);
    } else {
      ScanSpent(u, SLOTS, k, now, env);
    }
  }

  /** From the initial table on, with nobody else touching the reaper's slot, a one-shot found in slot k
      after a ticks and due at d is gone after the first multiple of 100 above d: registering a timer then
      finds that slot, or one before it, empty. */
  lemma {:induction false} SpentGivenBack(t: Table, k: nat, a: nat, d: nat, handler: nat, n: nat, env: Env)
    requires JustStarted(t) && 1 <= k < SLOTS && a <= n && d >= 1
    requires Ticks(t, 0, a, env)[k] == Timer(d, 0, handler)
    requires forall m :: 0 <= m < n ==> Quiet(Ticks(t, 0, m, env), 0, m + 1, env)
    requires forall m :: a <= m < n ==> Quiet(Ticks(t, 0, m, env), k, m + 1, env)
    ensures Ticks(t, 0, n, env)[k] in {Timer(d, 0, handler), EMPTY}
    ensures a < (d / 100 + 1) * 100 <= n ==> Ticks(t, 0, n, env)[k] == EMPTY && FirstEmpty(Ticks(t, 0, n, env), 0) <= k
  {
    if n > a {
      SpentGivenBack(t, k, a, d, handler, n - 1, env);
      ReaperWaits(t, n - 1, env);
      SpentTick(Ticks(t, 0, n - 1, env), k, d, handler, n, env);
    }
  }

  /** The table as the kernel keeps it: the handlers array, the scan's global index and the clock. */
  class TimerTable {
    const handlers: array<Timer>
    var ti: nat
    var hi: int     // timer_hi

    ghost predicate Valid()
      reads this
    {
      handlers.Length == SLOTS
    }

    ghost function T(): Table
      requires Valid()
      reads this, handlers
    {
      handlers[..]
    }

    /** timing_init: a cleared table with the reaper registered every 100 ticks. */
    constructor ()
      ensures Valid() && hi == 0 && fresh(handlers)
      ensures T() == seq(SLOTS, i => if i == 0 then Timer(100, 100, REAPER) else EMPTY)
      ensures AllSound(T(), hi)
    {
      handlers := new Timer[SLOTS](_ => EMPTY);
      ti, hi := 0, 0;
      new;
      var index := RegisterTimer(100, REAPER, 100);
    }

    /** Takes the first empty slot; 0xFF when there is none. */
    method RegisterTimer(tick: int, handler: nat, reschedule: int) returns (index: nat)
      requires Valid()
      modifies handlers
      ensures T() == Apply(old(T()), Register(tick, handler, reschedule), hi)
      ensures index == FirstEmpty(old(T()), 0)
      ensures T() == if index == SLOTS then old(T()) else old(T())[index := Timer(tick + hi, reschedule, handler)]
    {
      index := 0;
      while index < SLOTS
        invariant index <= SLOTS && T() == old(T())
        invariant FirstEmpty(T(), index) == FirstEmpty(T(), 0)
      {
        if handlers[index].fire == 0 {
          break;
        }
        index := index + 1;
      }
      if index == SLOTS {
        return SLOTS;
      }
      handlers[index] := Timer(tick + hi, reschedule, handler);
    }

    method DeregisterTimer(handler: nat)
      requires Valid()
      modifies handlers
      ensures T() == Apply(old(T()), Deregister(handler), hi)
      ensures var i := FirstOf(old(T()), handler, 0);
        T() == if i == SLOTS then old(T()) else old(T())[i := Timer(0, 0, NO_HANDLER)]
    {
      var index := 0;
      while index < SLOTS
        invariant index <= SLOTS && T() == old(T())
        invariant FirstOf(T(), handler, index) == FirstOf(T(), handler, 0)
      {
        if handlers[index].handler != NO_HANDLER && handlers[index].handler == handler {
          handlers[index] := EMPTY;
          break;
        }
        index := index + 1;
      }
    }

    method RemoveTimer(index: nat)
      requires Valid() && index < SLOTS
      modifies handlers
      ensures T() == Apply(old(T()), RemoveIndex(index), hi)
      ensures T() == old(T())[index := Timer(old(T())[index].fire, 0, old(T())[index].handler)]
    {
      handlers[index] := handlers[index].(rate := 0);
    }

    method ReapTimers()
      requires Valid()
      modifies handlers
      ensures T() == Reap(old(T()), hi)
      ensures forall k :: 0 <= k < SLOTS ==>
        T()[k] == if old(T())[k].fire != 0 && old(T())[k].fire < hi then Timer(0, 0, NO_HANDLER) else old(T())[k]
    {
      for i := 0 to SLOTS
        invariant forall k :: 0 <= k < SLOTS ==>
          handlers[k] == if k < i then ReapSlot(old(handlers[k]), hi) else old(handlers[k])
      {
        if handlers[i].fire != 0 && handlers[i].fire < hi {
          handlers[i] := EMPTY;
        }
      }
    }

    /** Runs a list of commands, as a handler or any other kernel code would. */
    method Execute(cs: seq<Command>)
      requires Valid() && forall k :: 0 <= k < |cs| ==> Legal(cs[k])
      modifies handlers
      ensures T() == ApplyAll(old(T()), cs, hi)
    {
      for i := 0 to |cs|
        invariant ApplyAll(T(), cs[i..], hi) == ApplyAll(old(T()), cs, hi)
      {
        match cs[i] {
          case Register(delay, handler, rate) => var index := RegisterTimer(delay, handler, rate);
          case Deregister(handler) => DeregisterTimer(handler);
          case RemoveIndex(index) => RemoveTimer(index);
        }
      }
    }

    /** cyclic_tasks: visit every slot in turn while the handlers change the table under the scan. */
    method CyclicTasks(env: Env)
      requires Valid() && LegalEnv(env) && hi >= 1 && AllSound(T(), hi - 1)
      modifies this`ti, handlers
      ensures T() == Scan(old(T()), SLOTS, hi, env)
    {
      ti := 0;
      while ti < SLOTS
        invariant ti <= SLOTS && T() == Scan(old(T()), ti, hi, env)
        decreases SLOTS - ti
      {
        ScanSound(old(T()), ti, hi, env);
        VisitSlot(env);
        ti := ti + 1;
      }
    }

    /** One turn of that loop. */
    method VisitSlot(env: Env)
      requires Valid() && LegalEnv(env) && ti < SLOTS && hi >= 1 && MidScan(T(), ti, hi)
      modifies handlers
      ensures T() == Visit(old(T()), ti, hi, env)
    {
      if handlers[ti].fire != 0 && handlers[ti].fire == hi {
        assert T()[ti].handler != NO_HANDLER;  // the handler called is never NULL
        if handlers[ti].handler == REAPER {
          ReapTimers();
        } else {
          Execute(env.act(hi, ti));
        }
        if handlers[ti].rate != 0 {
          handlers[ti] := handlers[ti].(fire := hi + handlers[ti].rate);
        }
      }
    }

    /** The clock advances by one tick, the scan runs, and the rest of the kernel carries on. */
    method ReceiveTick(env: Env)
      requires Valid() && LegalEnv(env) && hi >= 0 && AllSound(T(), hi)
      modifies this`ti, this`hi, handlers
      ensures hi == old(hi) + 1 && T() == Tick(old(T()), hi, env)
      ensures AllSound(T(), hi)
    {
      TicksSound(T(), hi, 1, env);
      assert Ticks(T(), hi, 1, env) == Tick(Ticks(T(), hi, 0, env), hi + 1, env);
      hi := hi + 1;
      CyclicTasks(env);
      Execute(env.idle(hi));
    }
  }
}
