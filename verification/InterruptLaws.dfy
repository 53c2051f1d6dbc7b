/** What each operation of machine/interrupt.cc does to the clock and to the pending interrupts, for every
    state of every run, said with the fields of the clock alone. */
module InterruptLaws {
  import opened LinkedList
  import opened InterruptTime

  // ---- Draining, exactly ----

  /** Time stands still; the interrupts due have fired, in the order of the list, and nothing else has;
      the later ones are still pending, and everything pending is later. */
  ghost predicate FiredDue(pending: Queue, fired: Queue, firedAt: seq<int>, d: Clock) {
    exists m: nat :: m <= |pending| && FiredFirst(pending, fired, firedAt, d, m)
  }

  ghost predicate FiredFirst(pending: Queue, fired: Queue, firedAt: seq<int>, d: Clock, m: nat)
    requires m <= |pending|
  {
    && (forall i :: 0 <= i < m ==> pending[i].key <= d.total)
    && (forall i :: m <= i < |pending| ==> pending[i].key > d.total && pending[i] in d.pending)
    && d.fired == fired + pending[..m]
    && d.firedAt == firedAt + seq(m, _ => d.total)
    && (forall e :: e in d.pending ==> e.key > d.total)
  }

  /** The fields that neither firing nor scheduling touches. */
  predicate SameButQueue(c: Clock, d: Clock) {
    && d.total == c.total && d.idle == c.idle && d.system == c.system && d.user == c.user
    && d.status == c.status && d.interruptsOn == c.interruptsOn && d.halted == c.halted
  }

  /** Handlers schedule behind everything that is due, and keep what is there. */
  lemma {:induction false} ScheduleAllBehind(c: Clock, g: Queue, later: Queue, rs: seq<Request>) returns (rest: Queue)
    requires c.pending == g + later && forall i :: 0 <= i < |g| ==> g[i].key <= c.total
    requires forall e :: e in later ==> e.key > c.total
    ensures var d := ScheduleAll(c, rs);
      d.pending == g + rest && SameButQueue(c, d) && d.fired == c.fired && d.firedAt == c.firedAt
    ensures (forall e :: e in later ==> e in rest) && forall e :: e in rest ==> e.key > c.total
  {
    if rs == [] { return later; }
    rest := ScheduleAllBehind(c, g, later, rs[..|rs| - 1]);
    var d := ScheduleAll(c, rs[..|rs| - 1]);
    var e := NewInterrupt(rs[|rs| - 1], |d.log|, d.total);
    InsertBehind(g, rest, e);
    InsertMembers(rest, e);
    rest := InsertSorted(rest, e);
  }

  lemma FirstFiresExactly(c: Clock, g: Queue, later: Queue, h: Handlers) returns (rest: Queue)
    requires !c.interruptsOn && !c.status.IdleMode? && c.pending == g + later && g != []
    requires (forall i :: 0 <= i < |g| ==> g[i].key <= c.total) && forall e :: e in later ==> e.key > c.total
    ensures var r := CheckIfDue(c, false, h); var d := r.clock;
      && r.didFire && SameButQueue(c, d) && d.pending == g[1..] + rest
      && d.fired == c.fired + [g[0]] && d.firedAt == c.firedAt + [c.total]
    ensures (forall e :: e in later ==> e in rest) && forall e :: e in rest ==> e.key > c.total
  {
    var e := c.pending[0];
    assert e == g[0] && c.pending[1..] == g[1..] + later;
    var d := c.(pending := c.pending[1..], fired := c.fired + [e], firedAt := c.firedAt + [c.total]);
    rest := ScheduleAllBehind(d, g[1..], later, h(|c.fired|).requests);
  }

  lemma NothingFires(c: Clock, h: Handlers)
    requires !c.interruptsOn && forall e :: e in c.pending ==> e.key > c.total
    ensures var d := Drain(c, h);
      && SameButQueue(c, d) && d.fired == c.fired && d.firedAt == c.firedAt
      && forall e :: e in d.pending <==> e in c.pending
  {
    if c.pending != [] {
      assert c.pending[0] in c.pending && c.pending == [c.pending[0]] + c.pending[1..];
      InsertMembers(c.pending[1..], c.pending[0]);
    }
  }

  /** Outside idle mode the group that is due fires in the order of the list, and nothing else does. */
  lemma {:induction false} FiresInOrder(c: Clock, g: Queue, later: Queue, h: Handlers)
    requires !c.interruptsOn && !c.status.IdleMode? && c.pending == g + later
    requires (forall i :: 0 <= i < |g| ==> g[i].key <= c.total) && forall e :: e in later ==> e.key > c.total
    ensures var d := Drain(c, h);
      && SameButQueue(c, d) && d.fired == c.fired + g && d.firedAt == c.firedAt + seq(|g|, _ => c.total)
      && (forall e :: e in later ==> e in d.pending) && (forall e :: e in d.pending ==> e.key > c.total)
    decreases |g|
  {
    if g == [] {
      assert c.pending == later && c.fired + g == c.fired && c.firedAt + seq(0, _ => c.total) == c.firedAt;
      NothingFires(c, h);
    } else {
      FiringDrains(c, h);
      var rest := FirstFiresExactly(c, g, later, h);
      var n := CheckIfDue(c, false, h).clock;
      assert Drain(c, h) == Drain(n, h);
      hide CheckIfDue, Drain;
      FiresInOrder(n, g[1..], rest, h);
      assert c.fired + g == c.fired + [g[0]] + g[1..];
      assert c.firedAt + seq(|g|, _ => c.total) == c.firedAt + [c.total] + seq(|g| - 1, _ => c.total);
    }
  }

  /** Where the due part of a sorted list ends. */
  lemma {:induction false} DuePart(q: Queue, now: int) returns (m: nat)
    requires Sorted(q)
    ensures m <= |q|
    ensures (forall i :: 0 <= i < m ==> q[i].key <= now) && forall i :: m <= i < |q| ==> q[i].key > now
  {
    if q == [] || q[0].key > now { return 0; }
    m := DuePart(q[1..], now);
    forall i | 0 <= i < m + 1 ensures q[i].key <= now { if i > 0 { assert q[i] == q[1..][i - 1]; } }
    forall i | m + 1 <= i < |q| ensures q[i].key > now { assert q[i] == q[1..][i - 1]; }
    m := m + 1;
  }

  lemma DrainFiresDue(c: Clock, h: Handlers)
    requires !c.interruptsOn && !c.status.IdleMode? && Sorted(c.pending)
    ensures SameButQueue(c, Drain(c, h)) && FiredDue(c.pending, c.fired, c.firedAt, Drain(c, h))
  {
    var m := DuePart(c.pending, c.total);
    assert c.pending == c.pending[..m] + c.pending[m..];
    forall e | e in c.pending[m..] ensures e.key > c.total {
      var i :| 0 <= i < |c.pending[m..]| && c.pending[m..][i] == e;
      assert e == c.pending[m + i];
    }
    FiresInOrder(c, c.pending[..m], c.pending[m..], h);
    hide Drain;
    forall i | m <= i < |c.pending| ensures c.pending[i] in Drain(c, h).pending {
      assert c.pending[m..][i - m] == c.pending[i];
    }
    assert FiredFirst(c.pending, c.fired, c.firedAt, Drain(c, h), m);
  }

  // ---- The operations, in every run ----

  /** One tick: ten in the kernel and one in user code, counted there, and interrupts are on. */
  predicate Ticked(c: Clock, d: Clock) {
    && d.total == c.total + (if c.status.SystemMode? then 10 else 1)
    && d.system == c.system + (if c.status.SystemMode? then 10 else 0)
    && d.user == c.user + (if c.status.SystemMode? then 0 else 1)
    && d.idle == c.idle && d.status == c.status && d.halted == c.halted && d.interruptsOn
  }

  lemma TickLaw(c: Clock, h: Handlers)
    requires Inv(c) && !c.status.IdleMode?
    ensures Ticked(c, OneTick(c, h)) && FiredDue(c.pending, c.fired, c.firedAt, OneTick(c, h))
  {
    var a := Advance(c).(interruptsOn := false);
    assert Sorted(a.pending);
    hide Drain, Inv, Sorted, FiredDue;
    DrainFiresDue(a, h);
    FlagsDoNotMatter(c.pending, c.fired, c.firedAt, Drain(a, h));
  }

  lemma FlagsDoNotMatter(pending: Queue, fired: Queue, firedAt: seq<int>, d: Clock)
    requires FiredDue(pending, fired, firedAt, d)
    ensures FiredDue(pending, fired, firedAt, d.(interruptsOn := true, yieldOnReturn := false))
  {
    var m: nat :| m <= |pending| && FiredFirst(pending, fired, firedAt, d, m);
    assert FiredFirst(pending, fired, firedAt, d.(interruptsOn := true, yieldOnReturn := false), m);
  }

  /** Turning interrupts on when they were off advances time by one tick and fires exactly what is due
      then. In every other case only the level changes. */
  lemma SetLevelTicks(acts: seq<Action>, on: bool, h: Handlers)
    requires var c := Run(acts, h); !c.halted && !c.status.IdleMode?
    ensures var c, d := Run(acts, h), Run(acts + [ChangeLevel(on)], h);
      if on && !c.interruptsOn then Ticked(c, d) && FiredDue(c.pending, c.fired, c.firedAt, d)
      else d == c.(interruptsOn := on)
  {
    RunKeepsInv(acts, h);
    RunSnoc(acts, ChangeLevel(on), h);
    var c := Run(acts, h);
    hide Run, OneTick;
    if on && !c.interruptsOn { TickLaw(c.(interruptsOn := true), h); }
  }

  /** A user instruction advances time by one tick and fires exactly what is due then. */
  lemma InstructionTicks(acts: seq<Action>, h: Handlers)
    requires var c := Run(acts, h); !c.halted && !c.status.IdleMode?
    ensures var c, d := Run(acts, h), Run(acts + [Instruction], h);
      Ticked(c, d) && FiredDue(c.pending, c.fired, c.firedAt, d)
  {
    RunKeepsInv(acts, h);
    RunSnoc(acts, Instruction, h);
    hide Run, OneTick;
    TickLaw(Run(acts, h), h);
  }

  /** A request of a device is pending for its time; nothing fires and time stands still. */
  lemma RequestIsPending(acts: seq<Action>, r: Request, h: Handlers)
    requires !Run(acts, h).halted
    ensures var c, d := Run(acts, h), Run(acts + [Device(r)], h);
      && SameButQueue(c, d) && d.fired == c.fired && |d.log| == |c.log| + 1
      && var e := d.log[|c.log|];
        && e.key == c.total + r.fromNow && e.item.kind == r.kind && e.item.handler == r.handler
        && multiset(d.pending) == multiset(c.pending) + multiset{e}
  {
    RunSnoc(acts, Device(r), h);
    var c := Run(acts, h);
    hide Run;
    InsertKeepsEntries(c.pending, NewInterrupt(r, |c.log|, c.total));
    hide InsertSorted;
  }

  /** With nothing to run, and something other than a lone timer to wait for, time jumps to the first
      pending interrupt, as idle time, and it fires. */
  lemma IdleJumps(acts: seq<Action>, h: Handlers)
    requires var c := Run(acts, h);
      !c.halted && !c.interruptsOn && c.pending != [] && !(|c.pending| == 1 && c.pending[0].item.kind.TimerInt?)
    ensures var c, d := Run(acts, h), Run(acts + [GoIdle], h);
      && d.total == (if c.pending[0].key > c.total then c.pending[0].key else c.total)
      && d.idle - c.idle == d.total - c.total && d.system == c.system && d.user == c.user
      && !d.halted && d.status == SystemMode && !d.interruptsOn
      && c.fired + [c.pending[0]] <= d.fired
  {
    RunSnoc(acts, GoIdle, h);
    var c := Run(acts, h);
    hide Run;
    FirstAfterJump(c.(status := IdleMode), h);
    var r := CheckIfDue(c.(status := IdleMode), true, h);
    hide CheckIfDue;
    DrainKeepsTime(r.clock, h);
    DrainKeepsFired(r.clock, h);
    hide Drain;
  }

  lemma FirstAfterJump(c: Clock, h: Handlers)
    requires !c.interruptsOn && c.pending != [] && (|c.pending| > 1 || !c.pending[0].item.kind.TimerInt?)
    ensures var r := CheckIfDue(c, true, h); var d := r.clock;
      && r.didFire && d.total == (if c.pending[0].key > c.total then c.pending[0].key else c.total)
      && d.idle - c.idle == d.total - c.total && d.system == c.system && d.user == c.user
      && d.halted == c.halted && !d.interruptsOn && d.status == c.status && d.fired == c.fired + [c.pending[0]]
  {
    var e := c.pending[0];
    var a := AdvanceTo(c, e.key).(pending := c.pending[1..]);
    ScheduleAllKeepsDue(a.(fired := a.fired + [e], firedAt := a.firedAt + [a.total]), h(|a.fired|).requests);
    hide ScheduleAll, InsertSorted, DueCount;
  }

  lemma {:induction false} DrainKeepsTime(c: Clock, h: Handlers)
    requires !c.interruptsOn
    ensures SameButQueue(c, Drain(c, h))
    decreases DueCount(c.pending, c.total)
  {
    FiringDrains(c, h);
    var r := CheckIfDue(c, false, h);
    if r.didFire {
      var e := c.pending[0];
      ScheduleAllKeepsDue(c.(pending := c.pending[1..], fired := c.fired + [e], firedAt := c.firedAt + [c.total]),
        h(|c.fired|).requests);
      DrainKeepsTime(r.clock, h);
    }
  }

  // ---- What handlers ask for ----

  /** The log has an interrupt as requested at this time. */
  predicate Logged(log: Queue, r: Request, now: int) {
    exists i :: 0 <= i < |log| && log[i].key == now + r.fromNow && log[i].item.kind == r.kind
      && log[i].item.handler == r.handler && log[i].item.madeAt == now
  }

  /** Every request of every handler that ran was scheduled, at the time it ran. */
  ghost predicate Heard(c: Clock, h: Handlers) {
    |c.fired| == |c.firedAt| &&
    forall n, j :: 0 <= n < |c.fired| && 0 <= j < |h(n).requests| ==> Logged(c.log, h(n).requests[j], c.firedAt[n])
  }

  lemma LoggedStays(log: Queue, more: Queue, r: Request, now: int)
    requires Logged(log, r, now) && log <= more
    ensures Logged(more, r, now)
  {
    var i :| 0 <= i < |log| && log[i].key == now + r.fromNow && log[i].item.kind == r.kind
      && log[i].item.handler == r.handler && log[i].item.madeAt == now;
    assert more[i] == log[i];
  }

  lemma {:induction false} ScheduleAllLogs(c: Clock, rs: seq<Request>)
    ensures var d := ScheduleAll(c, rs);
      && c.log <= d.log && d.total == c.total && d.fired == c.fired && d.firedAt == c.firedAt
      && forall j :: 0 <= j < |rs| ==> Logged(d.log, rs[j], c.total)
  {
    if rs != [] {
      var n := |rs| - 1;
      ScheduleAllLogs(c, rs[..n]);
      var d, e := ScheduleAll(c, rs[..n]), ScheduleAll(c, rs);
      assert e.log[|d.log|] == NewInterrupt(rs[n], |d.log|, d.total);
      forall j | 0 <= j < n ensures Logged(e.log, rs[j], c.total) {
        assert rs[..n][j] == rs[j];
        LoggedStays(d.log, e.log, rs[j], c.total);
      }
      hide InsertSorted;
    }
  }

  lemma HeardStays(c: Clock, d: Clock, h: Handlers)
    requires Heard(c, h) && d.fired == c.fired && d.firedAt == c.firedAt && c.log <= d.log
    ensures Heard(d, h)
  {
    forall n, j | 0 <= n < |d.fired| && 0 <= j < |h(n).requests|
      ensures Logged(d.log, h(n).requests[j], d.firedAt[n]) {
      LoggedStays(c.log, d.log, h(n).requests[j], c.firedAt[n]);
    }
  }

  lemma FireIsHeard(c: Clock, e: Entry<PendingInterrupt>, h: Handlers)
    requires Heard(c, h)
    ensures Heard(Fire(c, e, h), h)
  {
    var rs := h(|c.fired|).requests;
    var a := c.(fired := c.fired + [e], firedAt := c.firedAt + [c.total]);
    ScheduleAllLogs(a, rs);
    var d := Fire(c, e, h);
    hide ScheduleAll;
    forall n, j | 0 <= n < |d.fired| && 0 <= j < |h(n).requests|
      ensures Logged(d.log, h(n).requests[j], d.firedAt[n]) {
      if n < |c.fired| { LoggedStays(c.log, d.log, h(n).requests[j], c.firedAt[n]); }
    }
  }

  lemma CheckIsHeard(c: Clock, advanceClock: bool, h: Handlers)
    requires Heard(c, h) && !c.interruptsOn
    ensures Heard(CheckIfDue(c, advanceClock, h).clock, h)
  {
    hide Fire, InsertSorted, Logged;
    if c.pending != [] {
      var d := AdvanceTo(c, c.pending[0].key).(pending := c.pending[1..]);
      HeardStays(c, d, h);
      FireIsHeard(d, c.pending[0], h);
    }
  }

  lemma {:induction false} DrainIsHeard(c: Clock, h: Handlers)
    requires Heard(c, h) && !c.interruptsOn
    ensures Heard(Drain(c, h), h)
    decreases DueCount(c.pending, c.total)
  {
    hide Heard, CheckIfDue;
    FiringDrains(c, h);
    CheckIsHeard(c, false, h);
    if CheckIfDue(c, false, h).didFire { DrainIsHeard(CheckIfDue(c, false, h).clock, h); }
  }

  lemma TickIsHeard(c: Clock, h: Handlers)
    requires Heard(c, h)
    ensures Heard(OneTick(c, h), h)
  {
    hide Drain, Logged;
    DrainIsHeard(Advance(c).(interruptsOn := false), h);
  }

  lemma IdleIsHeard(c: Clock, h: Handlers)
    requires Heard(c, h) && !c.interruptsOn
    ensures Heard(Idle(c, h), h)
  {
    hide Drain, Logged, CheckIfDue;
    var d := c.(status := IdleMode);
    FiredLevel(d, true, h);
    CheckIsHeard(d, true, h);
    var r := CheckIfDue(d, true, h);
    if r.didFire { DrainIsHeard(r.clock, h); }
  }

  /** In every run, each interrupt that a handler asked for was scheduled, for the time it asked for. */
  lemma {:induction false} HandlersAreHeard(acts: seq<Action>, h: Handlers)
    ensures Heard(Run(acts, h), h)
  {
    if acts != [] {
      var c, a := Run(acts[..|acts| - 1], h), acts[|acts| - 1];
      HandlersAreHeard(acts[..|acts| - 1], h);
      hide OneTick, Idle, InsertSorted, Logged;
      match a
      case ChangeLevel(on) => TickIsHeard(c.(interruptsOn := on), h);
      case Instruction => TickIsHeard(c, h);
      case ChangeStatus(_) =>
      case GoIdle => if !c.interruptsOn { IdleIsHeard(c, h); }
      case Device(r) => HeardStays(c, InterruptTime.Schedule(c, r), h);
    }
  }

  // ---- Asking for the processor ----

  ghost predicate Asked(from: nat, to: nat, h: Handlers) { exists i: nat :: from <= i < to && h(i).wantsYield }

  lemma {:induction false} ScheduleAllAsksNothing(c: Clock, rs: seq<Request>)
    ensures var d := ScheduleAll(c, rs); d.yieldOnReturn == c.yieldOnReturn && d.fired == c.fired
  {
    if rs != [] { ScheduleAllAsksNothing(c, rs[..|rs| - 1]); }
  }

  lemma CheckAsks(c: Clock, h: Handlers)
    requires !c.interruptsOn
    ensures var d := CheckIfDue(c, false, h).clock;
      && |c.fired| <= |d.fired| <= |c.fired| + 1
      && d.yieldOnReturn == (c.yieldOnReturn || Asked(|c.fired|, |d.fired|, h))
  {
    var r := CheckIfDue(c, false, h);
    if r.didFire {
      var e := c.pending[0];
      ScheduleAllAsksNothing(c.(pending := c.pending[1..], fired := c.fired + [e], firedAt := c.firedAt + [c.total]),
        h(|c.fired|).requests);
      assert Asked(|c.fired|, |c.fired| + 1, h) == h(|c.fired|).wantsYield;
    }
    assert !Asked(|c.fired|, |c.fired|, h);
  }

  /** When the due interrupts have fired, a yield is asked for exactly when it was before, or when one of the
      handlers that have run meanwhile asked for it. */
  lemma {:induction false} YieldIffAsked(c: Clock, h: Handlers)
    requires !c.interruptsOn
    ensures var d := Drain(c, h);
      && |c.fired| <= |d.fired|
      && d.yieldOnReturn == (c.yieldOnReturn || Asked(|c.fired|, |d.fired|, h))
    decreases DueCount(c.pending, c.total)
  {
    var r := CheckIfDue(c, false, h);
    CheckAsks(c, h);
    if r.didFire {
      FiringDrains(c, h);
      YieldIffAsked(r.clock, h);
      hide CheckIfDue;
      var n, m, k := |c.fired|, |r.clock.fired|, |Drain(c, h).fired|;
      assert Drain(c, h) == Drain(r.clock, h);
      assert Asked(n, k, h) == (Asked(n, m, h) || Asked(m, k, h));
    }
  }
}
