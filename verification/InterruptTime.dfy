/** Simulated time of machine/interrupt.cc: the sorted list of pending interrupts, the three tick
    counters, and the loops that fire what is due.

    What the handlers do is a parameter: the n-th handler that runs schedules some interrupts,
    each strictly later than now (the ASSERT in Schedule), and may ask for a context switch. */
module InterruptTime {
  import opened LinkedList

  const USER_TICK := 1
  const SYSTEM_TICK := 10

  datatype Mode = IdleMode | SystemMode | UserMode
  datatype IntType = TimerInt | DiskInt | ConsoleWriteInt | ConsoleReadInt | NetworkSendInt | NetworkRecvInt

  type Positive = x: int | x > 0 witness 1

  datatype Request = Request(fromNow: Positive, kind: IntType, handler: int)

  /** A scheduled interrupt; serial and madeAt say which call of Schedule made it, and when. */
  datatype PendingInterrupt = PendingInterrupt(kind: IntType, handler: int, serial: nat, madeAt: int)

  /** The key of an entry is the time at which the interrupt is to occur. */
  type Queue = seq<Entry<PendingInterrupt>>

  datatype Reaction = Reaction(requests: seq<Request>, wantsYield: bool)
  type Handlers = nat -> Reaction

  datatype Clock = Clock(
    pending: Queue,
    total: int, idle: int, system: int, user: int,
    status: Mode, interruptsOn: bool, yieldOnReturn: bool, halted: bool,
    log: Queue,         // everything scheduled so far
    fired: Queue,       // everything fired so far, in order
    firedAt: seq<int>)  // and the time of each firing

  // ---- The operations ----

  function NewInterrupt(r: Request, serial: nat, now: int): Entry<PendingInterrupt> {
    Entry(now + r.fromNow, PendingInterrupt(r.kind, r.handler, serial, now))
  }

  function Schedule(c: Clock, r: Request): Clock {
    var e := NewInterrupt(r, |c.log|, c.total);
    c.(pending := InsertSorted(c.pending, e), log := c.log + [e])
  }

  function ScheduleAll(c: Clock, rs: seq<Request>): Clock {
    if rs == [] then c else Schedule(ScheduleAll(c, rs[..|rs| - 1]), rs[|rs| - 1])
  }

  /** The handler of e runs; e is no longer pending. */
  function Fire(c: Clock, e: Entry<PendingInterrupt>, h: Handlers): Clock {
    var r := h(|c.fired|);
    var d := ScheduleAll(c.(fired := c.fired + [e], firedAt := c.firedAt + [c.total]), r.requests);
    d.(yieldOnReturn := d.yieldOnReturn || r.wantsYield)
  }

  /** The clock jumps to the time of e, unless e is late already. */
  function AdvanceTo(c: Clock, when: int): Clock {
    if when > c.total then c.(idle := c.idle + (when - c.total), total := when) else c
  }

  datatype Check = Check(clock: Clock, didFire: bool)

  function CheckIfDue(c: Clock, advanceClock: bool, h: Handlers): Check
    requires !c.interruptsOn
  {
    if c.pending == [] then Check(c, false)
    else
      var e, rest := c.pending[0], c.pending[1..];
      if !advanceClock && e.key > c.total then Check(c.(pending := InsertSorted(rest, e)), false)
      else
        var d := AdvanceTo(c, e.key);
        if c.status.IdleMode? && e.item.kind.TimerInt? && rest == []
        then Check(d.(pending := InsertSorted(rest, e)), false)
        else Check(Fire(d.(pending := rest), e, h), true)
  }

  function DueCount(q: Queue, now: int): nat {
    if q == [] then 0 else (if q[0].key <= now then 1 else 0) + DueCount(q[1..], now)
  }

  lemma {:induction false} InsertLaterKeepsDue(q: Queue, e: Entry<PendingInterrupt>, now: int)
    requires e.key > now
    ensures DueCount(InsertSorted(q, e), now) == DueCount(q, now)
  {
    if q != [] {
      var r := InsertSorted(q, e);
      if e.key < q[0].key {
        assert r[1..] == q;
      } else {
        InsertLaterKeepsDue(q[1..], e, now);
        assert r[1..] == InsertSorted(q[1..], e);
      }
    }
  }

  /** Handlers schedule strictly later, so they make nothing due. */
  lemma {:induction false} ScheduleAllKeepsDue(c: Clock, rs: seq<Request>)
    ensures var d := ScheduleAll(c, rs);
      && d == c.(pending := d.pending, log := d.log)
      && DueCount(d.pending, c.total) == DueCount(c.pending, c.total)
  {
    if rs != [] {
      var front := rs[..|rs| - 1];
      ScheduleAllKeepsDue(c, front);
      var d, r := ScheduleAll(c, front), rs[|rs| - 1];
      InsertLaterKeepsDue(d.pending, NewInterrupt(r, |d.log|, d.total), d.total);
    }
  }

  /** Firing a due interrupt leaves one fewer due: the measure of the drain loops. */
  lemma FiringDrains(c: Clock, h: Handlers)
    requires !c.interruptsOn
    ensures var r := CheckIfDue(c, false, h); r.didFire ==>
      && !r.clock.interruptsOn
      && r.clock.status == c.status
      && r.clock.total == c.total
      && DueCount(r.clock.pending, c.total) == DueCount(c.pending, c.total) - 1
  {
    if c.pending != [] {
      var e := c.pending[0];
      var d := c.(pending := c.pending[1..], fired := c.fired + [e], firedAt := c.firedAt + [c.total]);
      ScheduleAllKeepsDue(d, h(|c.fired|).requests);
    }
  }

  /** while (CheckIfDue(FALSE)) ; */
  function Drain(c: Clock, h: Handlers): Clock
    requires !c.interruptsOn
    decreases DueCount(c.pending, c.total)
  {
    var r := CheckIfDue(c, false, h);
    FiringDrains(c, h);
    if r.didFire then Drain(r.clock, h) else r.clock
  }

  function Advance(c: Clock): Clock {
    if c.status.SystemMode? then c.(total := c.total + SYSTEM_TICK, system := c.system + SYSTEM_TICK)
    else c.(total := c.total + USER_TICK, user := c.user + USER_TICK)
  }

  /** The yield itself belongs to the scheduler; here the request is consumed. */
  function OneTick(c: Clock, h: Handlers): Clock {
    Drain(Advance(c).(interruptsOn := false), h).(interruptsOn := true, yieldOnReturn := false)
  }

  function SetLevel(c: Clock, now: bool, h: Handlers): Clock {
    var d := c.(interruptsOn := now);
    if now && !c.interruptsOn then OneTick(d, h) else d
  }

  function Idle(c: Clock, h: Handlers): Clock
    requires !c.interruptsOn
  {
    var r := CheckIfDue(c.(status := IdleMode), true, h);
    if r.didFire then
      FiredLevel(c.(status := IdleMode), true, h);
      Drain(r.clock, h).(yieldOnReturn := false, status := SystemMode)
    else r.clock.(halted := true)
  }

  lemma FiredLevel(c: Clock, advanceClock: bool, h: Handlers)
    requires !c.interruptsOn
    ensures !CheckIfDue(c, advanceClock, h).clock.interruptsOn
    ensures CheckIfDue(c, advanceClock, h).clock.status == c.status
  {
    if c.pending != [] {
      var e := c.pending[0];
      var d := AdvanceTo(c, e.key).(pending := c.pending[1..]);
      ScheduleAllKeepsDue(d.(fired := d.fired + [e], firedAt := d.firedAt + [d.total]), h(|d.fired|).requests);
    }
  }

  // ---- Whole runs ----

  datatype Action =
    | ChangeLevel(now: bool)       // SetLevel
    | Instruction                  // OneTick after a user instruction
    | ChangeStatus(mode: Mode)     // setStatus, entering or leaving the kernel
    | GoIdle                       // Idle, when no thread is ready
    | Device(request: Request)     // Schedule, from a device

  function Step(c: Clock, a: Action, h: Handlers): Clock {
    if c.halted then c else
    match a
    case ChangeLevel(now) => SetLevel(c, now, h)
    case Instruction => OneTick(c, h)
    case ChangeStatus(m) => c.(status := m)
    case GoIdle => if c.interruptsOn then c else Idle(c, h)
    case Device(r) => Schedule(c, r)
  }

  function Start(): Clock {
    Clock([], 0, 0, 0, 0, SystemMode, false, false, false, [], [], [])
  }

  function Run(acts: seq<Action>, h: Handlers): Clock {
    if acts == [] then Start() else Step(Run(acts[..|acts| - 1], h), acts[|acts| - 1], h)
  }

  // ---- The invariant ----

  predicate Ascending(s: seq<int>) {
    forall i, j :: 0 <= i < j < |s| ==> s[i] <= s[j]
  }

  ghost predicate WellFired(fired: Queue, firedAt: seq<int>, total: int) {
    && |fired| == |firedAt|
    && Sorted(fired)
    && Ascending(firedAt)
    && (forall i :: 0 <= i < |fired| ==> fired[i].item.madeAt < fired[i].key <= firedAt[i] <= total)
  }

  ghost predicate WellPending(pending: Queue, fired: Queue) {
    && Sorted(pending)
    && (forall e :: e in pending ==> e.item.madeAt < e.key)
    && (forall e, i :: e in pending && 0 <= i < |fired| ==> fired[i].key <= e.key)
  }

  /** Every call of Schedule is accounted for: its interrupt is pending or has fired, once. */
  ghost predicate Conserved(log: Queue, fired: Queue, pending: Queue) {
    && (forall i :: 0 <= i < |log| ==> log[i].item.serial == i)
    && multiset(log) == multiset(fired) + multiset(pending)
  }

  ghost predicate Inv(c: Clock) {
    && c.total == c.idle + c.system + c.user
    && WellFired(c.fired, c.firedAt, c.total)
    && WellPending(c.pending, c.fired)
    && Conserved(c.log, c.fired, c.pending)
  }

  lemma InsertMembers<T>(s: seq<Entry<T>>, e: Entry<T>)
    ensures forall x :: x in InsertSorted(s, e) <==> x in s || x == e
  {
    InsertKeepsEntries(s, e);
    forall x ensures x in InsertSorted(s, e) <==> x in s || x == e {
      assert x in InsertSorted(s, e) <==> x in multiset(InsertSorted(s, e));
    }
  }

  lemma InsertKeepsPending(pending: Queue, fired: Queue, e: Entry<PendingInterrupt>)
    requires WellPending(pending, fired) && e.item.madeAt < e.key
    requires forall i :: 0 <= i < |fired| ==> fired[i].key <= e.key
    ensures WellPending(InsertSorted(pending, e), fired)
  {
    InsertSortedStable(pending, e);
    InsertMembers(pending, e);
  }

  lemma InsertConserves(log: Queue, fired: Queue, pending: Queue, e: Entry<PendingInterrupt>)
    requires Conserved(log, fired, pending) && e.item.serial == |log|
    ensures Conserved(log + [e], fired, InsertSorted(pending, e))
  {
    InsertKeepsEntries(pending, e);
    assert multiset(log + [e]) == multiset(log) + multiset{e};
  }

  lemma ScheduleKeepsInv(c: Clock, r: Request)
    requires Inv(c)
    ensures Inv(Schedule(c, r))
  {
    var e := NewInterrupt(r, |c.log|, c.total);
    assert WellPending(InsertSorted(c.pending, e), c.fired) by {
      InsertKeepsPending(c.pending, c.fired, e);
    }
    assert Conserved(c.log + [e], c.fired, InsertSorted(c.pending, e)) by {
      InsertConserves(c.log, c.fired, c.pending, e);
    }
    var d := Schedule(c, r);
    assert d.pending == InsertSorted(c.pending, e) && d.log == c.log + [e];
  }

  lemma {:induction false} ScheduleAllKeepsInv(c: Clock, rs: seq<Request>)
    requires Inv(c)
    ensures Inv(ScheduleAll(c, rs))
  {
    if rs != [] {
      ScheduleAllKeepsInv(c, rs[..|rs| - 1]);
      ScheduleKeepsInv(ScheduleAll(c, rs[..|rs| - 1]), rs[|rs| - 1]);
    }
  }

  lemma TakeConserves(log: Queue, fired: Queue, pending: Queue)
    requires Conserved(log, fired, pending) && pending != []
    ensures Conserved(log, fired + [pending[0]], pending[1..])
  {
    assert pending == [pending[0]] + pending[1..];
    assert multiset(pending) == multiset{pending[0]} + multiset(pending[1..]);
    assert multiset(fired + [pending[0]]) == multiset(fired) + multiset{pending[0]};
  }

  lemma TakeKeepsPending(pending: Queue, fired: Queue)
    requires WellPending(pending, fired) && pending != []
    ensures WellPending(pending[1..], fired + [pending[0]])
    ensures Sorted(fired) ==> Sorted(fired + [pending[0]])
  {
    var e, rest := pending[0], pending[1..];
    forall x | x in rest ensures x in pending && e.key <= x.key {
      var i :| 0 <= i < |rest| && rest[i] == x;
      assert pending[i + 1] == x;
    }
    assert e in pending;
  }

  /** Taking the first interrupt off the list and logging it as fired. */
  lemma TakeFirstKeepsInv(c: Clock)
    requires Inv(c) && c.pending != [] && c.pending[0].key <= c.total
    ensures Inv(c.(pending := c.pending[1..], fired := c.fired + [c.pending[0]], firedAt := c.firedAt + [c.total]))
  {
    TakeConserves(c.log, c.fired, c.pending);
    TakeKeepsPending(c.pending, c.fired);
    assert c.pending[0] in c.pending;
  }

  lemma FireKeepsInv(c: Clock, h: Handlers)
    requires Inv(c) && c.pending != [] && c.pending[0].key <= c.total
    ensures Inv(Fire(c.(pending := c.pending[1..]), c.pending[0], h))
  {
    TakeFirstKeepsInv(c);
    var d := c.(pending := c.pending[1..], fired := c.fired + [c.pending[0]], firedAt := c.firedAt + [c.total]);
    ScheduleAllKeepsInv(d, h(|c.fired|).requests);
  }

  lemma PutBackConserves(log: Queue, fired: Queue, pending: Queue)
    requires Conserved(log, fired, pending) && pending != []
    ensures Conserved(log, fired, InsertSorted(pending[1..], pending[0]))
  {
    assert pending == [pending[0]] + pending[1..];
    InsertKeepsEntries(pending[1..], pending[0]);
  }

  /** Putting the first interrupt back: the same entries, sorted. */
  lemma PutBackKeepsInv(c: Clock)
    requires Inv(c) && c.pending != []
    ensures Inv(c.(pending := InsertSorted(c.pending[1..], c.pending[0])))
  {
    var e, rest := c.pending[0], c.pending[1..];
    assert forall x :: x in rest ==> x in c.pending;
    assert e in c.pending;
    InsertKeepsPending(rest, c.fired, e);
    PutBackConserves(c.log, c.fired, c.pending);
  }

  lemma AdvanceToKeepsInv(c: Clock, when: int)
    requires Inv(c)
    ensures var d := AdvanceTo(c, when);
      Inv(d) && d.pending == c.pending && d.total >= when && d.status == c.status
  {}

  lemma CheckKeepsInv(c: Clock, advanceClock: bool, h: Handlers)
    requires Inv(c) && !c.interruptsOn
    ensures Inv(CheckIfDue(c, advanceClock, h).clock)
  {
    hide Inv, InsertSorted, Fire, AdvanceTo;
    if c.pending != [] {
      var e := c.pending[0];
      var d := AdvanceTo(c, e.key);
      AdvanceToKeepsInv(c, e.key);
      if !advanceClock && e.key > c.total {
        PutBackKeepsInv(c);
      } else {
        if c.status.IdleMode? && e.item.kind.TimerInt? && c.pending[1..] == [] {
          PutBackKeepsInv(d);
        } else {
          FireKeepsInv(d, h);
        }
      }
    }
  }

  lemma {:induction false} DrainKeepsInv(c: Clock, h: Handlers)
    requires Inv(c) && !c.interruptsOn
    ensures Inv(Drain(c, h))
    decreases DueCount(c.pending, c.total)
  {
    CheckKeepsInv(c, false, h);
    FiringDrains(c, h);
    var r := CheckIfDue(c, false, h);
    if r.didFire { DrainKeepsInv(r.clock, h); }
  }

  lemma OneTickKeepsInv(c: Clock, h: Handlers)
    requires Inv(c)
    ensures Inv(OneTick(c, h))
  {
    var d := Advance(c).(interruptsOn := false);
    assert Inv(d);
    DrainKeepsInv(d, h);
    var e := Drain(d, h);
    assert Inv(e.(interruptsOn := true, yieldOnReturn := false));
  }

  lemma IdleKeepsInv(c: Clock, h: Handlers)
    requires Inv(c) && !c.interruptsOn
    ensures Inv(Idle(c, h))
  {
    var d := c.(status := IdleMode);
    assert Inv(d);
    CheckKeepsInv(d, true, h);
    FiredLevel(d, true, h);
    var r := CheckIfDue(d, true, h);
    if r.didFire {
      DrainKeepsInv(r.clock, h);
      var e := Drain(r.clock, h);
      assert Inv(e.(yieldOnReturn := false, status := SystemMode));
    }
  }

  lemma StepKeepsInv(c: Clock, a: Action, h: Handlers)
    requires Inv(c)
    ensures Inv(Step(c, a, h))
  {
    match a
    case ChangeLevel(now) => OneTickKeepsInv(c.(interruptsOn := now), h);
    case Instruction => OneTickKeepsInv(c, h);
    case ChangeStatus(m) =>
    case GoIdle => if !c.interruptsOn { IdleKeepsInv(c, h); }
    case Device(r) => ScheduleKeepsInv(c, r);
  }

  lemma {:induction false} RunKeepsInv(acts: seq<Action>, h: Handlers)
    ensures Inv(Run(acts, h))
  {
    if acts != [] {
      RunKeepsInv(acts[..|acts| - 1], h);
      StepKeepsInv(Run(acts[..|acts| - 1], h), acts[|acts| - 1], h);
    }
  }

  // ---- Theorems ----

  /** Over every run and whatever the handlers do: the counters add up, no handler runs before its
      time, and both the scheduled times and the actual times of the firings never decrease. */
  lemma TimeNeverRunsBack(acts: seq<Action>, h: Handlers)
    ensures var c := Run(acts, h);
      && c.total == c.idle + c.system + c.user
      && |c.fired| == |c.firedAt|
      && (forall i :: 0 <= i < |c.fired| ==> c.fired[i].item.madeAt < c.fired[i].key <= c.firedAt[i] <= c.total)
      && (forall i, j :: 0 <= i < j < |c.fired| ==> c.fired[i].key <= c.fired[j].key && c.firedAt[i] <= c.firedAt[j])
  {
    RunKeepsInv(acts, h);
  }

  /** No interrupt is lost and none fires twice: what was scheduled is what has fired together
      with what is pending, and the n-th Schedule carries serial number n. */
  lemma EveryInterruptAccounted(acts: seq<Action>, h: Handlers)
    ensures var c := Run(acts, h);
      && multiset(c.log) == multiset(c.fired) + multiset(c.pending)
      && (forall i, j :: 0 <= i < j < |c.log| ==> c.log[i].item.serial < c.log[j].item.serial)
  {
    RunKeepsInv(acts, h);
  }

  predicate NothingDue(c: Clock) {
    forall e :: e in c.pending ==> e.key > c.total
  }

  /** When a look at the list fires nothing. */
  lemma CheckStops(c: Clock, h: Handlers)
    requires WellPending(c.pending, c.fired) && !c.interruptsOn && !CheckIfDue(c, false, h).didFire
    ensures var d := CheckIfDue(c, false, h).clock;
      && d.status == c.status && d.total == c.total
      && (NothingDue(d) || (c.status.IdleMode? && |d.pending| == 1 && d.pending[0].item.kind.TimerInt?))
  {
    if c.pending != [] {
      var e, rest := c.pending[0], c.pending[1..];
      if e.key > c.total {
        InsertMembers(rest, e);
      }
    }
  }

  /** What the drain loop leaves: nothing due, or, in idle mode, just one timer interrupt. */
  lemma {:induction false} DrainLeavesNothingDue(c: Clock, h: Handlers)
    requires Inv(c) && !c.interruptsOn
    ensures var d := Drain(c, h);
      && d.status == c.status
      && d.total == c.total
      && (NothingDue(d) || (c.status.IdleMode? && |d.pending| == 1 && d.pending[0].item.kind.TimerInt?))
    decreases DueCount(c.pending, c.total)
  {
    var r := CheckIfDue(c, false, h);
    if r.didFire {
      CheckKeepsInv(c, false, h);
      FiringDrains(c, h);
      DrainLeavesNothingDue(r.clock, h);
    } else {
      CheckStops(c, h);
    }
  }

  /** After every tick of a machine that is not idle, nothing is due and interrupts are on. */
  lemma OneTickFiresAllThatIsDue(acts: seq<Action>, h: Handlers)
    requires !Run(acts, h).status.IdleMode?
    ensures var d := OneTick(Run(acts, h), h); NothingDue(d) && d.interruptsOn && !d.yieldOnReturn
  {
    RunKeepsInv(acts, h);
    var c := Run(acts, h);
    var d := Advance(c).(interruptsOn := false);
    assert Inv(d);
    DrainLeavesNothingDue(d, h);
  }

  /** Idle stops the machine exactly when nothing is pending or the time-slice timer is alone;
      in the second case the clock has moved to the timer, which stays pending. */
  lemma IdleHaltsIff(c: Clock, h: Handlers)
    requires Inv(c) && !c.interruptsOn && !c.halted
    ensures Idle(c, h).halted <==> (c.pending == [] || (|c.pending| == 1 && c.pending[0].item.kind.TimerInt?))
    ensures Idle(c, h).halted ==> Idle(c, h).pending == c.pending
    ensures Idle(c, h).halted && c.pending != [] && c.pending[0].key > c.total ==> Idle(c, h).total == c.pending[0].key
  {
    var d := c.(status := IdleMode);
    FiredLevel(d, true, h);
    var r := CheckIfDue(d, true, h);
    if r.didFire {
      FireKeepsHalted(d, true, h);
      DrainKeepsHalted(r.clock, h);
    } else if c.pending != [] {
      assert c.pending[1..] == [] && c.pending == [c.pending[0]];
    }
  }

  lemma FireKeepsHalted(c: Clock, advanceClock: bool, h: Handlers)
    requires !c.interruptsOn
    ensures CheckIfDue(c, advanceClock, h).clock.halted == c.halted
  {
    if c.pending != [] {
      var e := c.pending[0];
      var d := AdvanceTo(c, e.key).(pending := c.pending[1..]);
      ScheduleAllKeepsDue(d.(fired := d.fired + [e], firedAt := d.firedAt + [d.total]), h(|d.fired|).requests);
    }
  }

  lemma {:induction false} DrainKeepsHalted(c: Clock, h: Handlers)
    requires !c.interruptsOn
    ensures Drain(c, h).halted == c.halted
    decreases DueCount(c.pending, c.total)
  {
    FireKeepsHalted(c, false, h);
    FiringDrains(c, h);
    var r := CheckIfDue(c, false, h);
    if r.didFire { DrainKeepsHalted(r.clock, h); }
  }

  // ---- Order among equal times ----

  lemma PutBackSameIff(q: Queue)
    requires Sorted(q) && q != [] && (|q| >= 2 ==> q[0] != q[1])
    ensures InsertSorted(q[1..], q[0]) == q <==> (|q| >= 2 ==> q[0].key < q[1].key)
  {
    var e, rest := q[0], q[1..];
    assert q == [e] + rest;
    if |q| >= 2 && q[0].key < q[1].key {
      InsertAt(rest, e, 0);
      assert rest[..0] + [e] + rest[0..] == q;
    } else if |q| >= 2 {
      assert InsertSorted(rest, e)[0] == q[1];
    }
  }

  /** A look at a list whose first interrupt is not due takes it off and inserts it again, behind
      every interrupt for the same time; the list is left as it was exactly when no other pending
      interrupt has the time of the first. */
  lemma PeekKeepsOrderIff(acts: seq<Action>, h: Handlers)
    requires var c := Run(acts, h); !c.interruptsOn && c.pending != [] && c.pending[0].key > c.total
    ensures var c := Run(acts, h);
      CheckIfDue(c, false, h).clock.pending == c.pending <==>
      (forall i :: 0 < i < |c.pending| ==> c.pending[0].key != c.pending[i].key)
  {
    var c := Run(acts, h);
    RunKeepsInv(acts, h);
    if |c.pending| >= 2 { PendingDistinct(c, 0, 1); }
    PutBackSameIff(c.pending);
  }

  /** Serial numbers tell pending interrupts apart. */
  lemma PendingDistinct(c: Clock, i: nat, j: nat)
    requires Inv(c) && i < j < |c.pending|
    ensures c.pending[i] != c.pending[j]
  {
    var x := c.pending[i];
    if c.pending[j] == x {
      TwiceInMultiset(c.pending, i, j);
      assert multiset(c.log)[x] >= 2;
      OnceInMultiset(c.log, x);
    }
  }

  lemma TwiceInMultiset(s: Queue, i: nat, j: nat)
    requires i < j < |s| && s[i] == s[j]
    ensures multiset(s)[s[i]] >= 2
  {
    var before, after := s[..j], s[j + 1..];
    assert s == before + [s[j]] + after;
    assert s[i] == before[i] && before[i] in multiset(before);
  }

  lemma {:induction false} OnceInMultiset(s: Queue, x: Entry<PendingInterrupt>)
    requires forall i :: 0 <= i < |s| ==> s[i].item.serial == i
    ensures multiset(s)[x] <= 1
  {
    if s != [] {
      var n := |s| - 1;
      var front := s[..n];
      assert s == front + [s[n]];
      OnceInMultiset(front, x);
      assert x == s[n] ==> x !in front;
    }
  }

  lemma RunSnoc(acts: seq<Action>, a: Action, h: Handlers)
    ensures Run(acts + [a], h) == Step(Run(acts, h), a, h)
  {
    assert (acts + [a])[..|acts|] == acts;
  }

  // ---- Interrupts for one time ----

  /** The pending interrupts begin with the group g for one time; all others are for later times. */
  predicate Grouped(c: Clock, g: Queue, later: Queue, time: int) {
    && c.pending == g + later && g != []
    && (forall i :: 0 <= i < |g| ==> g[i].key == time) && (forall i :: 0 <= i < |later| ==> later[i].key > time)
  }

  /** The group after k looks: the first goes behind the last, k times. */
  function Turned<T>(g: seq<T>, k: nat): (r: seq<T>)
    requires g != []
    ensures |r| == |g|
    decreases k
  {
    if k == 0 then g else Turned(g[1..] + [g[0]], k - 1)
  }

  /** In closed form. */
  lemma {:induction false} TurnedIs<T>(g: seq<T>, k: nat)
    requires g != []
    ensures Turned(g, k) == g[k % |g|..] + g[..k % |g|]
    decreases k
  {
    if k > 0 {
      var t, n := g[1..] + [g[0]], |g|;
      TurnedIs(t, k - 1);
      NextRemainder(k, n);
      var j := (k - 1) % n;
      if j + 1 < n {
        assert t[j..] + t[..j] == g[j + 1..] + g[..j + 1];
      } else {
        assert t[j..] + t[..j] == g;
      }
    }
  }

  lemma NextRemainder(k: nat, n: nat)
    requires k > 0 && n > 0
    ensures k % n == if (k - 1) % n + 1 < n then (k - 1) % n + 1 else 0
  {
    var q, r := (k - 1) / n, (k - 1) % n;
    assert k == q * n + (r + 1);
    if r + 1 < n {
      RemainderIs(k, n, q, r + 1);
    } else {
      assert (q + 1) * n == q * n + n;
      RemainderIs(k, n, q + 1, 0);
    }
  }

  lemma RemainderIs(k: nat, n: nat, q: nat, r: nat)
    requires n > 0 && k == q * n + r && r < n
    ensures k % n == r
  {
    var d: int := k / n - q;
    assert (k / n) * n - q * n == d * n;
    assert d >= 1 ==> d * n >= n;
    assert d < 0 ==> d * n + n <= 0;
  }

  /** Turning entries that are all different gives them back in their order only after whole turns. */
  lemma TurnedSameIff(g: Queue, k: nat)
    requires g != [] && forall i, j :: 0 <= i < j < |g| ==> g[i] != g[j]
    ensures Turned(g, k) == g <==> k % |g| == 0
  {
    TurnedIs(g, k);
    var j := k % |g|;
    if j > 0 { assert (g[j..] + g[..j])[0] == g[j]; }
  }

  /** Ticks do not touch the mode, and each adds the same. */
  function TimeAfter(c: Clock, k: nat): int {
    if c.status.SystemMode? then c.total + SYSTEM_TICK * k else c.total + USER_TICK * k
  }

  /** A look in front of the group's time puts its first behind its last. */
  lemma EarlyTickTurns(c: Clock, g: Queue, later: Queue, time: int, h: Handlers)
    requires Grouped(c, g, later, time) && !c.halted && TimeAfter(c, 1) < time
    ensures var d := Step(c, Instruction, h);
      && Grouped(d, g[1..] + [g[0]], later, time) && !d.halted && d.status == c.status
      && d.fired == c.fired && d.total == TimeAfter(c, 1)
  {
    var e := Advance(c).(interruptsOn := false);
    var q, m := c.pending, |g|;
    assert q[0] == g[0] && q[1..] == g[1..] + later;
    forall i | 0 <= i < m - 1 ensures q[1..][i].key <= g[0].key { assert q[1..][i] == g[i + 1]; }
    assert m - 1 < |q[1..]| ==> q[1..][m - 1] == later[0];
    InsertAt(q[1..], g[0], m - 1);
    assert q[1..][..m - 1] == g[1..] && q[1..][m - 1..] == later;
    assert InsertSorted(q[1..], g[0]) == g[1..] + [g[0]] + later;
    assert CheckIfDue(e, false, h) == Check(e.(pending := g[1..] + [g[0]] + later), false);
  }

  // From machine/stats.h: the console and the network ask for their next poll equally far ahead.
  const CONSOLE_TIME: Positive := 100
  const NETWORK_TIME: Positive := 100

  function Ticks(k: nat): seq<Action> { seq(k, _ => Instruction) }

  /** In any run, k ticks in front of the group's time turn the group k times and fire nothing. */
  lemma {:induction false} EarlyTicksTurn(acts: seq<Action>, g: Queue, later: Queue, time: int, k: nat, h: Handlers)
    requires var c := Run(acts, h); Grouped(c, g, later, time) && !c.halted && (k > 0 ==> TimeAfter(c, k) < time)
    ensures var c, d := Run(acts, h), Run(acts + Ticks(k), h);
      && Grouped(d, Turned(g, k), later, time) && !d.halted && d.status == c.status
      && d.fired == c.fired && d.total == TimeAfter(c, k)
    decreases k
  {
    hide Grouped, Run, Step;
    if k == 0 {
      assert acts + Ticks(0) == acts;
    } else {
      GroupNotEmpty(Run(acts, h), g, later, time);
      RunSnoc(acts, Instruction, h);
      EarlyTickTurns(Run(acts, h), g, later, time, h);
      EarlyTicksTurn(acts + [Instruction], g[1..] + [g[0]], later, time, k - 1, h);
      assert acts + Ticks(k) == acts + [Instruction] + Ticks(k - 1);
    }
  }

  lemma GroupNotEmpty(c: Clock, g: Queue, later: Queue, time: int)
    requires Grouped(c, g, later, time)
    ensures g != []
  {}

  /** Handlers schedule behind everything that is due. */
  lemma {:induction false} ScheduleAllKeepsDueGroup(c: Clock, g: Queue, later: Queue, rs: seq<Request>)
    returns (rest: Queue)
    requires c.pending == g + later && forall i :: 0 <= i < |g| ==> g[i].key <= c.total
    ensures var d := ScheduleAll(c, rs); d.pending == g + rest && d == c.(pending := d.pending, log := d.log)
  {
    if rs == [] { return later; }
    rest := ScheduleAllKeepsDueGroup(c, g, later, rs[..|rs| - 1]);
    var d := ScheduleAll(c, rs[..|rs| - 1]);
    var e := NewInterrupt(rs[|rs| - 1], |d.log|, d.total);
    InsertBehind(g, rest, e);
    rest := InsertSorted(rest, e);
  }

  lemma {:induction false} InsertBehind(g: Queue, rest: Queue, e: Entry<PendingInterrupt>)
    requires forall i :: 0 <= i < |g| ==> g[i].key < e.key
    ensures InsertSorted(g + rest, e) == g + InsertSorted(rest, e)
  {
    if g == [] {
      assert g + rest == rest;
    } else {
      InsertBehind(g[1..], rest, e);
      assert (g + rest)[0] == g[0] && (g + rest)[1..] == g[1..] + rest;
    }
  }

  /** A group that is due fires in the order of the list, whatever its handlers schedule. */
  lemma {:induction false} GroupFires(c: Clock, g: Queue, later: Queue, h: Handlers)
    requires !c.interruptsOn && !c.status.IdleMode? && c.pending == g + later
    requires forall i :: 0 <= i < |g| ==> g[i].key <= c.total
    ensures c.fired + g <= Drain(c, h).fired
    decreases |g|
  {
    if g == [] {
      DrainKeepsFired(c, h);
      assert c.fired + g == c.fired;
    } else {
      FiringDrains(c, h);
      var rest := FirstFires(c, g, later, h);
      GroupFires(CheckIfDue(c, false, h).clock, g[1..], rest, h);
      assert c.fired + g == c.fired + [g[0]] + g[1..];
    }
  }

  lemma FirstFires(c: Clock, g: Queue, later: Queue, h: Handlers) returns (rest: Queue)
    requires !c.interruptsOn && !c.status.IdleMode? && c.pending == g + later && g != []
    requires forall i :: 0 <= i < |g| ==> g[i].key <= c.total
    ensures var r := CheckIfDue(c, false, h);
      && r.didFire && r.clock.fired == c.fired + [g[0]] && r.clock.pending == g[1..] + rest
      && !r.clock.interruptsOn && r.clock.status == c.status && r.clock.total == c.total
  {
    var e := c.pending[0];
    assert e == g[0] && c.pending[1..] == g[1..] + later;
    var d := c.(pending := c.pending[1..], fired := c.fired + [e], firedAt := c.firedAt + [c.total]);
    rest := ScheduleAllKeepsDueGroup(d, g[1..], later, h(|c.fired|).requests);
  }

  /** Draining only adds to what has fired. */
  lemma {:induction false} DrainKeepsFired(c: Clock, h: Handlers)
    requires !c.interruptsOn
    ensures c.fired <= Drain(c, h).fired
    decreases DueCount(c.pending, c.total)
  {
    FiringDrains(c, h);
    var r := CheckIfDue(c, false, h);
    if r.didFire {
      DrainKeepsFired(r.clock, h);
      var e := c.pending[0];
      ScheduleAllKeepsDue(c.(pending := c.pending[1..], fired := c.fired + [e], firedAt := c.firedAt + [c.total]),
        h(|c.fired|).requests);
    }
  }

  lemma DueTickFiresGroup(c: Clock, g: Queue, later: Queue, time: int, h: Handlers)
    requires Grouped(c, g, later, time) && !c.halted && !c.status.IdleMode? && time <= TimeAfter(c, 1)
    ensures c.fired + g <= Step(c, Instruction, h).fired
  {
    GroupFires(Advance(c).(interruptsOn := false), g, later, h);
  }

  /** In any run outside idle mode: the group of all interrupts for the first time, k ticks that come
      too early, and one that is in time. The group fires in the order that the list has after k turns,
      and that is the order it had if and only if k is a multiple of the group's size. */
  lemma EqualTimesOrderIff(acts: seq<Action>, g: Queue, later: Queue, time: int, k: nat, h: Handlers)
    requires var c := Run(acts, h);
      && Grouped(c, g, later, time) && !c.halted && !c.status.IdleMode?
      && (k > 0 ==> TimeAfter(c, k) < time) && time <= TimeAfter(c, k + 1)
    ensures g != [] && Run(acts, h).fired + Turned(g, k) <= Run(acts + Ticks(k + 1), h).fired
    ensures Turned(g, k) == g <==> k % |g| == 0
  {
    var c := Run(acts, h);
    RunKeepsInv(acts, h);
    forall i, j | 0 <= i < j < |g| ensures g[i] != g[j] {
      PendingDistinct(c, i, j);
      assert c.pending[i] == g[i] && c.pending[j] == g[j];
    }
    TurnedSameIff(g, k);
    EarlyTicksTurn(acts, g, later, time, k, h);
    assert acts + Ticks(k + 1) == acts + Ticks(k) + [Instruction];
    RunSnoc(acts + Ticks(k), Instruction, h);
    var d := Run(acts + Ticks(k), h);
    hide Run, Step, Inv;
    DueTickFiresGroup(d, Turned(g, k), later, time, h);
  }

  lemma TwoScheduled(acts: seq<Action>, first: Request, second: Request, h: Handlers)
    requires var c := Run(acts, h); c.pending == [] && !c.halted && first.fromNow == second.fromNow
    ensures var c, d := Run(acts, h), Run(acts + [Device(first)] + [Device(second)], h);
      && d == c.(pending := d.pending, log := d.log)
      && d.pending == [NewInterrupt(first, |c.log|, c.total), NewInterrupt(second, |c.log| + 1, c.total)]
  {
    RunSnoc(acts, Device(first), h);
    RunSnoc(acts + [Device(first)], Device(second), h);
    var c := Run(acts, h);
    hide Run;
    var a, b := NewInterrupt(first, |c.log|, c.total), NewInterrupt(second, |c.log| + 1, c.total);
    assert InsertSorted([], a) == [a];
    InsertAt([a], b, 1);
    assert InsertSorted([a], b) == [a][..1] + [b] + [a][1..] == [a, b];
  }

  /** The first polls of the console and of the network, both 100 ticks ahead, in the order in which the
      kernel creates the devices: nine ticks of the kernel come too early, and the poll that was asked
      for second fires first. */
  lemma EqualTimesCanSwap(acts: seq<Action>, h: Handlers)
    requires var c := Run(acts, h); c.pending == [] && c.status.SystemMode? && !c.halted
    ensures var first := Device(Request(CONSOLE_TIME, ConsoleReadInt, 1));
      var second := Device(Request(NETWORK_TIME, NetworkRecvInt, 2));
      var c, d := Run(acts, h), Run(acts + [first] + [second] + Ticks(10), h);
      && |d.fired| >= |c.fired| + 2
      && d.fired[|c.fired|].item.serial == |c.log| + 1 && d.fired[|c.fired| + 1].item.serial == |c.log|
  {
    var first, second := Request(CONSOLE_TIME, ConsoleReadInt, 1), Request(NETWORK_TIME, NetworkRecvInt, 2);
    var both := acts + [Device(first)] + [Device(second)];
    TwoScheduled(acts, first, second, h);
    hide Run, Turned, InsertSorted, NewInterrupt;
    var c, g := Run(acts, h), Run(both, h).pending;
    assert g + [] == g && Grouped(Run(both, h), g, [], c.total + 100);
    EqualTimesOrderIff(both, g, [], c.total + 100, 9, h);
    TurnedIs(g, 9);
    assert Turned(g, 9) == [g[1], g[0]];
  }
}
