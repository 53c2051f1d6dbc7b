/** Condition::Wait, Signal and Broadcast of threads/synch.cc at the granularity of their
    semaphore operations, run by any number of threads on one condition variable.

    The monitor lock is the one that LockModel shows Lock to be: acquiring and releasing it are single steps
    here, and a release by another thread than its holder does nothing. Threads acquire and release it
    whenever they like, and no result depends on whether the callers of Wait, Signal and Broadcast hold it. */
module ConditionModel {
  import opened Counting

  datatype Op = DoWait | DoSignal | DoBroadcast | DoAcquire | DoRelease

  datatype Pc =
    | Idle
    | WtEnter      // innerLock->P
    | WtRegister   // totalSleepers++
    | WtUnlock     // conditionLock->Release
    | WtLeave      // innerLock->V
    | WtSleep      // sleepLock->P
    | WtRelock     // conditionLock->Acquire
    | SgEnter      // innerLock->P
    | SgTest       // if (totalSleepers > 0)
    | SgWake       // sleepLock->V
    | SgDecrement  // totalSleepers--
    | BcEnter      // innerLock->P
    | BcTest       // while (totalSleepers > 0)
    | BcWake       // sleepLock->V
    | BcDecrement  // totalSleepers--
    | BcLeave      // innerLock->V after Broadcast
    | SgLeave      // innerLock->V after Signal

  datatype Holder = Free | HeldBy(tid: nat)

  datatype Cell = Cell(
    monitor: Holder,
    inner: nat, sleep: nat, totalSleepers: int,
    issued: nat,    // sleepLock->V operations so far
    passed: nat)    // sleepLock->P operations completed so far

  datatype Move = Blocked | Go(next: Pc, m: Cell)

  /** Lock::Release by thread t. */
  function Released(m: Cell, t: nat): Cell { if m.monitor == HeldBy(t) then m.(monitor := Free) else m }

  function Exec(m: Cell, t: nat, p: Pc, op: Op): Move {
    match p
    case Idle =>
      (match op
       case DoWait => Go(WtEnter, m)
       case DoSignal => Go(SgEnter, m)
       case DoBroadcast => Go(BcEnter, m)
       case DoAcquire => if m.monitor.Free? then Go(Idle, m.(monitor := HeldBy(t))) else Blocked
       case DoRelease => Go(Idle, Released(m, t)))
    case WtEnter => if m.inner > 0 then Go(WtRegister, m.(inner := m.inner - 1)) else Blocked
    case WtRegister => Go(WtUnlock, m.(totalSleepers := m.totalSleepers + 1))
    case WtUnlock => Go(WtLeave, Released(m, t))
    case WtLeave => Go(WtSleep, m.(inner := m.inner + 1))
    case WtSleep => if m.sleep > 0 then Go(WtRelock, m.(sleep := m.sleep - 1, passed := m.passed + 1)) else Blocked
    case WtRelock => if m.monitor.Free? then Go(Idle, m.(monitor := HeldBy(t))) else Blocked
    case SgEnter => if m.inner > 0 then Go(SgTest, m.(inner := m.inner - 1)) else Blocked
    case SgTest => Go(if m.totalSleepers > 0 then SgWake else SgLeave, m)
    case SgWake => Go(SgDecrement, m.(sleep := m.sleep + 1, issued := m.issued + 1))
    case SgDecrement => Go(SgLeave, m.(totalSleepers := m.totalSleepers - 1))
    case SgLeave => Go(Idle, m.(inner := m.inner + 1))
    case BcEnter => if m.inner > 0 then Go(BcTest, m.(inner := m.inner - 1)) else Blocked
    case BcTest => Go(if m.totalSleepers > 0 then BcWake else BcLeave, m)
    case BcWake => Go(BcDecrement, m.(sleep := m.sleep + 1, issued := m.issued + 1))
    case BcDecrement => Go(BcTest, m.(totalSleepers := m.totalSleepers - 1))
    case BcLeave => Go(Idle, m.(inner := m.inner + 1))
  }

  datatype State = State(m: Cell, pcs: map<nat, Pc>) {
    function PcOf(t: nat): Pc { if t in pcs then pcs[t] else Idle }
  }

  function Step(s: State, t: nat, op: Op): State {
    match Exec(s.m, t, s.PcOf(t), op)
    case Blocked => s
    case Go(q, m) => State(m, s.pcs[t := q])
  }

  type Schedule = seq<(nat, Op)>

  function Initial(): State { State(Cell(Free, 1, 0, 0, 0, 0), map[]) }

  function Run(sched: Schedule): State {
    if sched == [] then Initial()
    else var last := sched[|sched| - 1]; Step(Run(sched[..|sched| - 1]), last.0, last.1)
  }

  // ---- Which threads are where ----

  /** Holds innerLock. */
  predicate HasInner(p: Pc) {
    p.WtRegister? || p.WtUnlock? || p.WtLeave? ||
    p.SgTest? || p.SgWake? || p.SgDecrement? || p.SgLeave? ||
    p.BcTest? || p.BcWake? || p.BcDecrement? || p.BcLeave?
  }

  /** Has registered in Wait and not yet passed sleepLock->P. */
  predicate Registered(p: Pc) { p.WtUnlock? || p.WtLeave? || p.WtSleep? }

  /** Has issued a token that totalSleepers does not reflect yet. */
  predicate Transient(p: Pc) { p.SgDecrement? || p.BcDecrement? }

  ghost function Waiting(s: State): nat { Count(s.pcs, Registered) }

  // ---- The invariant ----

  /** totalSleepers plus outstanding tokens is the number of registered waiters, up to a token
      that has been issued and not yet been subtracted. */
  ghost predicate Accounting(s: State) {
    s.m.totalSleepers + s.m.sleep == Waiting(s) + Count(s.pcs, Transient)
  }

  ghost predicate Inv(s: State) {
    && s.m.inner + Count(s.pcs, HasInner) == 1
    && Accounting(s)
    && s.m.issued == s.m.passed + s.m.sleep
    && s.m.totalSleepers >= 0
    && (forall t :: Transient(s.PcOf(t)) || s.PcOf(t).SgWake? || s.PcOf(t).BcWake? ==> s.m.totalSleepers > 0)
  }

  lemma InnerIsExclusive(s: State, t: nat)
    requires Count(s.pcs, HasInner) <= 1 && HasInner(s.PcOf(t))
    ensures forall u :: u != t ==> !HasInner(s.PcOf(u))
    ensures Count(s.pcs, Transient) == if Transient(s.PcOf(t)) then 1 else 0
  {
    forall u | u != t && HasInner(s.PcOf(u)) ensures false {
      CountTwo(s.pcs, t, u, HasInner);
    }
    forall u | u in Members(s.pcs, Transient) ensures u == t {
      assert HasInner(s.PcOf(u));
    }
    assert Members(s.pcs, Transient) == if Transient(s.PcOf(t)) then {t} else {};
  }

  lemma CountsMove(s: State, t: nat, q: Pc)
    ensures Count(s.pcs[t := q], HasInner) ==
            Count(s.pcs, HasInner) - (if HasInner(s.PcOf(t)) then 1 else 0) + (if HasInner(q) then 1 else 0)
    ensures Count(s.pcs[t := q], Registered) ==
            Count(s.pcs, Registered) - (if Registered(s.PcOf(t)) then 1 else 0) + (if Registered(q) then 1 else 0)
    ensures Count(s.pcs[t := q], Transient) ==
            Count(s.pcs, Transient) - (if Transient(s.PcOf(t)) then 1 else 0) + (if Transient(q) then 1 else 0)
  {
    CountUpdate(s.pcs, t, q, HasInner);
    CountUpdate(s.pcs, t, q, Registered);
    CountUpdate(s.pcs, t, q, Transient);
  }

  lemma StepKeepsInv(s: State, t: nat, op: Op)
    requires Inv(s)
    ensures Inv(Step(s, t, op))
  {
    hide Count;
    var p := s.PcOf(t);
    var r := Exec(s.m, t, p, op);
    if r.Go? {
      var n := Step(s, t, op);
      CountsMove(s, t, r.next);
      if HasInner(p) { InnerIsExclusive(s, t); }
      forall u | Transient(n.PcOf(u)) || n.PcOf(u).SgWake? || n.PcOf(u).BcWake?
        ensures n.m.totalSleepers > 0
      {
        assert u != t ==> n.PcOf(u) == s.PcOf(u) && HasInner(s.PcOf(u));
      }
    }
  }

  lemma {:induction false} RunKeepsInv(sched: Schedule)
    ensures Inv(Run(sched))
  {
    if sched == [] {
      CountZero(Initial().pcs, HasInner);
      CountZero(Initial().pcs, Registered);
      CountZero(Initial().pcs, Transient);
    } else {
      RunKeepsInv(sched[..|sched| - 1]);
      StepKeepsInv(Run(sched[..|sched| - 1]), sched[|sched| - 1].0, sched[|sched| - 1].1);
    }
  }

  // ---- Theorems about every run ----

  /** The accounting equation, in every reachable state; outside the two-statement window of
      Signal and Broadcast it needs no correction. */
  lemma ConditionAccounting(sched: Schedule)
    ensures var s := Run(sched);
      && Accounting(s)
      && (s.m.inner == 1 ==> s.m.totalSleepers + s.m.sleep == Waiting(s))
      && s.m.issued == s.m.passed + s.m.sleep
      && s.m.sleep <= Waiting(s)
  {
    RunKeepsInv(sched);
    var s := Run(sched);
    if s.m.inner == 1 {
      CountZero(s.pcs, HasInner);
      CountZero(s.pcs, Transient);
    } else {
      var t := CountWitness(s.pcs, HasInner);
      assert HasInner(s.PcOf(t));
      InnerIsExclusive(s, t);
    }
  }

  /** At its test Signal decides for a token exactly when some registered waiter has none yet. */
  lemma SignalReachesWaiter(sched: Schedule, t: nat, op: Op)
    requires Run(sched).PcOf(t).SgTest?
    ensures Step(Run(sched), t, op).PcOf(t).SgWake? <==> Waiting(Run(sched)) > Run(sched).m.sleep
  {
    RunKeepsInv(sched);
    InnerIsExclusive(Run(sched), t);
  }

  /** When Broadcast is about to return, every registered waiter has a token. */
  lemma BroadcastReachesAll(sched: Schedule, t: nat)
    requires Run(sched).PcOf(t).BcTest?
    ensures var s := Run(sched);
      Step(s, t, DoWait).PcOf(t).BcLeave? <==> s.m.sleep == Waiting(s)
  {
    RunKeepsInv(sched);
    InnerIsExclusive(Run(sched), t);
  }

  /** While a thread holds innerLock nobody else changes totalSleepers or issues a token. */
  lemma BroadcastOwnsTheCounter(sched: Schedule, t: nat, u: nat, op: Op)
    requires u != t && HasInner(Run(sched).PcOf(t))
    ensures var s := Run(sched); var n := Step(s, u, op);
      && n.m.totalSleepers == s.m.totalSleepers
      && n.m.issued == s.m.issued
      && Waiting(n) <= Waiting(s)
      && n.m.sleep - Waiting(n) == s.m.sleep - Waiting(s)
  {
    RunKeepsInv(sched);
    var s := Run(sched);
    InnerIsExclusive(s, t);
    var r := Exec(s.m, u, s.PcOf(u), op);
    if r.Go? { CountsMove(s, u, r.next); }
  }

  /** Inside Signal or Broadcast, between the two operations on innerLock. */
  predicate Notifying(p: Pc) { HasInner(p) && !p.WtRegister? && !p.WtUnlock? && !p.WtLeave? }

  /** The tokens that a notifier at p will still issue. */
  function Owed(m: Cell, p: Pc): int {
    match p
    case BcTest | BcWake => m.totalSleepers
    case BcDecrement => m.totalSleepers - 1
    case SgTest => if m.totalSleepers > 0 then 1 else 0
    case SgWake => 1
    case _ => 0
  }

  /** Whoever moves, what the notifier has issued and what it still owes stay the same together. */
  lemma StepPaysOwed(sched: Schedule, t: nat, u: nat, op: Op)
    requires var s := Run(sched); Notifying(s.PcOf(t)) && Notifying(Step(s, u, op).PcOf(t))
    ensures var s := Run(sched); var n := Step(s, u, op);
      n.m.issued + Owed(n.m, n.PcOf(t)) == s.m.issued + Owed(s.m, s.PcOf(t))
  {
    if u != t {
      BroadcastOwnsTheCounter(sched, t, u, op);
    } else {
      RunKeepsInv(sched);
    }
    hide Run, Waiting, Accounting, Count;
  }

  /** t stays inside its Signal or Broadcast while more happens. */
  ghost predicate StaysInside(sched: Schedule, more: Schedule, t: nat) {
    forall k :: 0 <= k <= |more| ==> Notifying(Run(sched + more[..k]).PcOf(t))
  }

  lemma {:induction false} OwedIsPaid(sched: Schedule, more: Schedule, t: nat)
    requires StaysInside(sched, more, t)
    ensures var s, n := Run(sched), Run(sched + more);
      n.m.issued + Owed(n.m, n.PcOf(t)) == s.m.issued + Owed(s.m, s.PcOf(t))
  {
    if more == [] {
      assert sched + more == sched;
    } else {
      var k := |more| - 1;
      assert sched + more[..k] + [more[k]] == sched + more && more[..k + 1] == more;
      assert Notifying(Run(sched + more[..k]).PcOf(t)) && Notifying(Run(sched + more[..k + 1]).PcOf(t));
      assert StaysInside(sched, more[..k], t) by {
        forall j | 0 <= j <= k ensures Notifying(Run(sched + more[..k][..j]).PcOf(t)) {
          assert more[..k][..j] == more[..j];
        }
      }
      OwedIsPaid(sched, more[..k], t);
      StepPaysOwed(sched + more[..k], t, more[k].0, more[k].1);
      assert (sched + more)[..|sched + more| - 1] == sched + more[..k];
    }
    hide Owed, Notifying;
  }

  /** One whole Broadcast, whatever the other threads do meanwhile: it issues one token for each
      waiter that was registered without one when it entered. */
  lemma BroadcastIssues(sched: Schedule, more: Schedule, t: nat)
    requires Run(sched).PcOf(t).BcTest? && Run(sched + more).PcOf(t).BcLeave? && StaysInside(sched, more, t)
    ensures var s, n := Run(sched), Run(sched + more); n.m.issued - s.m.issued == Waiting(s) - s.m.sleep
  {
    OwedIsPaid(sched, more, t);
    RunKeepsInv(sched);
    InnerIsExclusive(Run(sched), t);
  }

  /** One whole Signal: a single token if a registered waiter has none, otherwise no token. */
  lemma SignalIssues(sched: Schedule, more: Schedule, t: nat)
    requires Run(sched).PcOf(t).SgTest? && Run(sched + more).PcOf(t).SgLeave? && StaysInside(sched, more, t)
    ensures var s, n := Run(sched), Run(sched + more);
      n.m.issued - s.m.issued == if Waiting(s) > s.m.sleep then 1 else 0
  {
    OwedIsPaid(sched, more, t);
    RunKeepsInv(sched);
    InnerIsExclusive(Run(sched), t);
  }

  /** No signal is lost: a waiter cannot stay behind while a token is outstanding, because there
      is a registered waiter for every token and it is free to take it. */
  lemma TokenHasTaker(sched: Schedule)
    requires Run(sched).m.sleep > 0
    ensures exists t :: Registered(Run(sched).PcOf(t))
    ensures (forall u :: !Run(sched).PcOf(u).WtUnlock? && !Run(sched).PcOf(u).WtLeave?) ==>
            exists t :: Run(sched).PcOf(t).WtSleep? && Exec(Run(sched).m, t, WtSleep, DoWait).Go?
  {
    ConditionAccounting(sched);
    var s := Run(sched);
    var t := CountWitness(s.pcs, Registered);
    assert Registered(s.PcOf(t));
  }

  // ---- The monitor lock ----

  /** In Wait, between the release of the monitor lock and its return to the thread. */
  predicate WithoutMonitor(p: Pc) { p.WtLeave? || p.WtSleep? || p.WtRelock? }

  lemma {:induction false} SleepersDoNotHold(sched: Schedule, t: nat)
    requires WithoutMonitor(Run(sched).PcOf(t))
    ensures Run(sched).m.monitor != HeldBy(t)
  {
    if sched != [] {
      var before := sched[..|sched| - 1];
      if WithoutMonitor(Run(before).PcOf(t)) { SleepersDoNotHold(before, t); }
    }
  }

  /** In every run a thread inside Wait does not hold the monitor lock from its release on, whatever the others do,
      and holds it again when Wait returns, having found it free. The lock changes hands only by the
      steps of the thread that takes it while it is free, and of the thread that holds it. */
  lemma WaitReturnsWithMonitor(sched: Schedule, t: nat, op: Op)
    ensures var s, n := Run(sched), Step(Run(sched), t, op);
      && (WithoutMonitor(s.PcOf(t)) ==> s.m.monitor != HeldBy(t))
      && (s.PcOf(t).WtUnlock? ==> n.PcOf(t).WtLeave? && n.m.monitor != HeldBy(t))
      && (WithoutMonitor(s.PcOf(t)) && n.PcOf(t).Idle? ==> s.m.monitor == Free && n.m.monitor == HeldBy(t))
      && (n.m.monitor != s.m.monitor ==>
            (s.m.monitor == Free && n.m.monitor == HeldBy(t)) || (s.m.monitor == HeldBy(t) && n.m.monitor == Free))
  {
    if WithoutMonitor(Run(sched).PcOf(t)) { SleepersDoNotHold(sched, t); }
  }
}
