/** Lock::Acquire and Lock::Release of threads/synch.cc at the granularity of their semaphore
    operations, run by any number of threads.

    tidOf gives the id that currentThread->getTid() returns. Ids are unique inside one process
    but repeat across processes (userprog/userprocess.cc:47), so tidOf is arbitrary. */
module LockModel {
  import opened Counting

  /** DoStrayRelease: Release called by a thread that does not hold the lock. */
  datatype Op = DoAcquire | DoStrayRelease

  datatype Pc =
    | Idle
    | AcLock                    // lock->P
    | AcInner                   // innerLock->P
    | AcTest                    // if (ownerID == -1) ownerID = tid
    | AcElse                    // else lock->V
    | AcLeave                   // innerLock->V
    | Holding                   // Acquire returned, Release not called yet
    | RlInner(holder: bool)     // innerLock->P
    | RlTest(holder: bool)      // if (ownerID == tid) ownerID = -1
    | RlFree(holder: bool)      // lock->V
    | RlLeave                   // innerLock->V

  const NOBODY := -1

  datatype Cell = Cell(lock: nat, inner: nat, ownerID: int)

  datatype Move = Blocked | Go(next: Pc, m: Cell)

  function Exec(m: Cell, tid: int, p: Pc, op: Op): Move {
    match p
    case Idle => Go(match op case DoAcquire => AcLock case DoStrayRelease => RlInner(false), m)
    case AcLock => if m.lock > 0 then Go(AcInner, m.(lock := m.lock - 1)) else Blocked
    case AcInner => if m.inner > 0 then Go(AcTest, m.(inner := m.inner - 1)) else Blocked
    case AcTest => if m.ownerID == NOBODY then Go(AcLeave, m.(ownerID := tid)) else Go(AcElse, m)
    case AcElse => Go(AcLeave, m.(lock := m.lock + 1))
    case AcLeave => Go(Holding, m.(inner := m.inner + 1))
    case Holding => Go(RlInner(true), m)
    case RlInner(h) => if m.inner > 0 then Go(RlTest(h), m.(inner := m.inner - 1)) else Blocked
    case RlTest(h) => if m.ownerID == tid then Go(RlFree(h), m.(ownerID := NOBODY)) else Go(RlLeave, m)
    case RlFree(_) => Go(RlLeave, m.(lock := m.lock + 1))
    case RlLeave => Go(Idle, m.(inner := m.inner + 1))
  }

  datatype State = State(m: Cell, pcs: map<nat, Pc>) {
    function PcOf(t: nat): Pc { if t in pcs then pcs[t] else Idle }
  }

  type TidOf = nat -> nat

  function Step(tidOf: TidOf, s: State, t: nat, op: Op): State {
    match Exec(s.m, tidOf(t), s.PcOf(t), op)
    case Blocked => s
    case Go(q, m) => State(m, s.pcs[t := q])
  }

  type Schedule = seq<(nat, Op)>

  function Initial(): State { State(Cell(1, 1, NOBODY), map[]) }

  function Run(tidOf: TidOf, sched: Schedule): State {
    if sched == [] then Initial()
    else var last := sched[|sched| - 1]; Step(tidOf, Run(tidOf, sched[..|sched| - 1]), last.0, last.1)
  }

  // ---- The property ----

  /** Between the return from Acquire and the call of Release. */
  predicate InSection(p: Pc) { p.Holding? || p == RlInner(true) }

  /** At most one thread is in the critical section, ownerID names it, and Acquire never takes
      its else branch. */
  ghost predicate MutualExclusion(tidOf: TidOf, s: State) {
    && (forall t, u :: InSection(s.PcOf(t)) && InSection(s.PcOf(u)) ==> t == u)
    && (forall t :: InSection(s.PcOf(t)) ==> s.m.ownerID == tidOf(t))
    && (forall t :: !s.PcOf(t).AcElse?)
  }

  ghost predicate DistinctTids(tidOf: TidOf) {
    forall t, u :: tidOf(t) == tidOf(u) ==> t == u
  }

  /** The convention of threads/synch.h:65: only the thread that acquired the lock releases it. */
  predicate NoStrayRelease(sched: Schedule) {
    forall i :: 0 <= i < |sched| ==> sched[i].1 != DoStrayRelease
  }

  // ---- The invariant ----

  /** Has set ownerID and not reset it. */
  predicate Owning(p: Pc) { p.AcLeave? || InSection(p) || p == RlTest(true) }

  /** Has passed lock->P and not done the matching lock->V. */
  predicate HasToken(p: Pc) { p.AcInner? || p.AcTest? || Owning(p) || p == RlFree(true) }

  predicate HasInner(p: Pc) {
    p.AcTest? || p.AcElse? || p.AcLeave? || p.RlTest? || p.RlFree? || p.RlLeave?
  }

  predicate Stray(p: Pc) { p == RlInner(false) || p == RlTest(false) }

  ghost predicate Inv(tidOf: TidOf, s: State) {
    && s.m.lock + Count(s.pcs, HasToken) == 1
    && s.m.inner + Count(s.pcs, HasInner) == 1
    && (s.m.ownerID == NOBODY <==> Count(s.pcs, Owning) == 0)
    && (forall t :: Owning(s.PcOf(t)) ==> s.m.ownerID == tidOf(t))
    && (forall t :: s.PcOf(t) != AcElse && s.PcOf(t) != RlFree(false))
  }

  /** A thread that holds the token is the only one, so it is the only owner. */
  lemma TokenIsUnique(s: State, t: nat)
    requires Count(s.pcs, HasToken) <= 1 && HasToken(s.PcOf(t))
    ensures forall u :: u != t ==> !HasToken(s.PcOf(u))
    ensures Count(s.pcs, Owning) == if Owning(s.PcOf(t)) then 1 else 0
  {
    forall u | u != t && HasToken(s.PcOf(u)) ensures false {
      CountTwo(s.pcs, t, u, HasToken);
    }
    forall u | u in Members(s.pcs, Owning) ensures u == t {
      assert HasToken(s.PcOf(u));
    }
    assert Members(s.pcs, Owning) == if Owning(s.PcOf(t)) then {t} else {};
  }

  /** A stray release finds its own id in ownerID only if the owner has the same id. */
  lemma StrayMatch(tidOf: TidOf, s: State, t: nat)
    requires Inv(tidOf, s) && Stray(s.PcOf(t)) && s.m.ownerID == tidOf(t)
    ensures !DistinctTids(tidOf)
  {
    var u := CountWitness(s.pcs, Owning);
    assert Owning(s.PcOf(u)) && u != t && tidOf(u) == tidOf(t);
  }

  lemma CountsMove(s: State, t: nat, q: Pc)
    ensures Count(s.pcs[t := q], HasToken) ==
            Count(s.pcs, HasToken) - (if HasToken(s.PcOf(t)) then 1 else 0) + (if HasToken(q) then 1 else 0)
    ensures Count(s.pcs[t := q], HasInner) ==
            Count(s.pcs, HasInner) - (if HasInner(s.PcOf(t)) then 1 else 0) + (if HasInner(q) then 1 else 0)
    ensures Count(s.pcs[t := q], Owning) ==
            Count(s.pcs, Owning) - (if Owning(s.PcOf(t)) then 1 else 0) + (if Owning(q) then 1 else 0)
  {
    CountUpdate(s.pcs, t, q, HasToken);
    CountUpdate(s.pcs, t, q, HasInner);
    CountUpdate(s.pcs, t, q, Owning);
  }

  lemma StepKeepsInv(tidOf: TidOf, s: State, t: nat, op: Op)
    requires Inv(tidOf, s)
    requires Stray(s.PcOf(t)) ==> DistinctTids(tidOf)
    ensures Inv(tidOf, Step(tidOf, s, t, op))
  {
    var p := s.PcOf(t);
    var r := Exec(s.m, tidOf(t), p, op);
    if r.Go? {
      var n := Step(tidOf, s, t, op);
      CountsMove(s, t, r.next);
      if HasToken(p) { TokenIsUnique(s, t); }
      if p == RlTest(false) && s.m.ownerID == tidOf(t) { StrayMatch(tidOf, s, t); }
      forall u
        ensures Owning(n.PcOf(u)) ==> n.m.ownerID == tidOf(u)
        ensures n.PcOf(u) != AcElse && n.PcOf(u) != RlFree(false)
      {
        assert u != t ==> n.PcOf(u) == s.PcOf(u);
      }
    }
  }

  /** Without stray calls no thread is ever inside a stray Release. */
  lemma {:induction false} NoStrayThread(tidOf: TidOf, sched: Schedule, t: nat)
    requires NoStrayRelease(sched)
    ensures !Stray(Run(tidOf, sched).PcOf(t))
  {
    if sched != [] {
      var before := sched[..|sched| - 1];
      NoStrayThread(tidOf, before, t);
      assert sched[|sched| - 1].1 == DoAcquire;
    }
  }

  lemma {:induction false} RunKeepsInv(tidOf: TidOf, sched: Schedule)
    requires DistinctTids(tidOf) || NoStrayRelease(sched)
    ensures Inv(tidOf, Run(tidOf, sched))
  {
    if sched == [] {
      CountZero(Initial().pcs, HasToken);
      CountZero(Initial().pcs, HasInner);
      CountZero(Initial().pcs, Owning);
    } else {
      var before := sched[..|sched| - 1];
      var t := sched[|sched| - 1].0;
      RunKeepsInv(tidOf, before);
      if !DistinctTids(tidOf) { NoStrayThread(tidOf, before, t); }
      StepKeepsInv(tidOf, Run(tidOf, before), t, sched[|sched| - 1].1);
    }
  }

  // ---- Theorems ----

  /** Mutual exclusion under every interleaving, if ids are distinct or nobody releases a lock
      it does not hold. */
  lemma LockExcludes(tidOf: TidOf, sched: Schedule)
    requires DistinctTids(tidOf) || NoStrayRelease(sched)
    ensures MutualExclusion(tidOf, Run(tidOf, sched))
  {
    RunKeepsInv(tidOf, sched);
    var s := Run(tidOf, sched);
    forall t, u | InSection(s.PcOf(t)) && InSection(s.PcOf(u)) ensures t == u {
      TokenIsUnique(s, t);
    }
  }

  /** One more step of thread t. */
  lemma RunStep(tidOf: TidOf, sched: Schedule, t: nat, op: Op)
    ensures Run(tidOf, sched + [(t, op)]) == Step(tidOf, Run(tidOf, sched), t, op)
  {
    assert (sched + [(t, op)])[..|sched|] == sched;
  }

  function FiveMoves(tidOf: TidOf, s: State, t: nat, op: Op): State {
    Step(tidOf, Step(tidOf, Step(tidOf, Step(tidOf, Step(tidOf, s, t, op), t, op), t, op), t, op), t, op)
  }

  lemma OnlyMover(tidOf: TidOf, s: State, t: nat, op: Op)
    ensures forall u :: u != t ==> Step(tidOf, s, t, op).PcOf(u) == s.PcOf(u)
  {}

  lemma OthersAfterFive(tidOf: TidOf, s: State, t: nat, op: Op, u: nat)
    requires u != t
    ensures FiveMoves(tidOf, s, t, op).PcOf(u) == s.PcOf(u)
  {
    var a := Step(tidOf, Step(tidOf, s, t, op), t, op);
    var b := Step(tidOf, Step(tidOf, a, t, op), t, op);
    OnlyMover(tidOf, s, t, op);
    OnlyMover(tidOf, Step(tidOf, s, t, op), t, op);
    OnlyMover(tidOf, a, t, op);
    OnlyMover(tidOf, Step(tidOf, a, t, op), t, op);
    OnlyMover(tidOf, b, t, op);
    hide Step;
  }

  /** An undisturbed Acquire of a free lock. */
  lemma AcquireInFive(tidOf: TidOf, s: State, t: nat)
    requires s.PcOf(t).Idle? && s.m.inner > 0 && s.m.lock > 0 && s.m.ownerID == NOBODY
    ensures var n := FiveMoves(tidOf, s, t, DoAcquire);
      n.PcOf(t) == Holding && n.m == Cell(s.m.lock - 1, s.m.inner, tidOf(t))
  {
    var a := Step(tidOf, Step(tidOf, s, t, DoAcquire), t, DoAcquire);
    assert a.PcOf(t) == AcInner && a.m == s.m.(lock := s.m.lock - 1);
    var b := Step(tidOf, Step(tidOf, a, t, DoAcquire), t, DoAcquire);
    assert b.PcOf(t) == AcLeave && b.m == Cell(s.m.lock - 1, s.m.inner - 1, tidOf(t));
  }

  /** An undisturbed stray Release by a thread with the owner's id. */
  lemma ReleaseInFive(tidOf: TidOf, s: State, t: nat)
    requires s.PcOf(t).Idle? && s.m.inner > 0 && s.m.ownerID == tidOf(t)
    ensures var n := FiveMoves(tidOf, s, t, DoStrayRelease);
      n.PcOf(t) == Idle && n.m == Cell(s.m.lock + 1, s.m.inner, NOBODY)
  {
    var a := Step(tidOf, Step(tidOf, s, t, DoStrayRelease), t, DoStrayRelease);
    assert a.PcOf(t) == RlTest(false) && a.m == s.m.(inner := s.m.inner - 1);
    var b := Step(tidOf, Step(tidOf, a, t, DoStrayRelease), t, DoStrayRelease);
    assert b.PcOf(t) == RlLeave && b.m == Cell(s.m.lock + 1, s.m.inner - 1, NOBODY);
  }

  /** A schedule that lets t take five steps. */
  lemma RunFive(tidOf: TidOf, sched: Schedule, t: nat, op: Op) returns (more: Schedule)
    ensures Run(tidOf, more) == FiveMoves(tidOf, Run(tidOf, sched), t, op)
  {
    var x: Schedule := [(t, op)];
    more := sched + x + x + x + x + x;
    RunStep(tidOf, sched, t, op);
    RunStep(tidOf, sched + x, t, op);
    RunStep(tidOf, sched + x + x, t, op);
    RunStep(tidOf, sched + x + x + x, t, op);
    RunStep(tidOf, sched + x + x + x + x, t, op);
    hide Run, Step;
  }

  /** Two threads with one id defeat the lock: x acquires, y releases, y acquires. */
  lemma SharedTidDefeatsLock(tidOf: TidOf, x: nat, y: nat) returns (sched: Schedule)
    requires x != y && tidOf(x) == tidOf(y)
    ensures InSection(Run(tidOf, sched).PcOf(x)) && InSection(Run(tidOf, sched).PcOf(y))
  {
    var first := RunFive(tidOf, [], x, DoAcquire);
    var second := RunFive(tidOf, first, y, DoStrayRelease);
    sched := RunFive(tidOf, second, y, DoAcquire);
    assert Run(tidOf, []) == Initial();
    hide Run, Step, FiveMoves;
    AcquireInFive(tidOf, Initial(), x);
    OthersAfterFive(tidOf, Initial(), x, DoAcquire, y);
    ReleaseInFive(tidOf, Run(tidOf, first), y);
    OthersAfterFive(tidOf, Run(tidOf, first), y, DoStrayRelease, x);
    AcquireInFive(tidOf, Run(tidOf, second), y);
    OthersAfterFive(tidOf, Run(tidOf, second), y, DoAcquire, x);
  }

  /** With stray releases possible, mutual exclusion holds in every run exactly when thread ids
      are distinct. */
  lemma ExclusionIffDistinctTids(tidOf: TidOf)
    ensures (forall sched :: MutualExclusion(tidOf, Run(tidOf, sched))) <==> DistinctTids(tidOf)
  {
    if DistinctTids(tidOf) {
      forall sched ensures MutualExclusion(tidOf, Run(tidOf, sched)) {
        LockExcludes(tidOf, sched);
      }
    } else {
      var x, y :| tidOf(x) == tidOf(y) && x != y;
      var sched := SharedTidDefeatsLock(tidOf, x, y);
      assert !MutualExclusion(tidOf, Run(tidOf, sched));
    }
  }

  // ---- Refinement: the lock is one atomic cell ----

  datatype Holder = Free | HeldBy(t: nat)

  /** The atomic lock that the concrete state stands for. */
  ghost predicate Stands(s: State, h: Holder) {
    forall t :: Owning(s.PcOf(t)) <==> h == HeldBy(t)
  }

  /** What the statement at p of thread t does to the atomic lock: the test in Acquire takes it while
      it is free, the test in Release frees it while this very thread holds it, and every other
      statement leaves it alone. */
  predicate AtomicStep(p: Pc, t: nat, h: Holder, h': Holder) {
    if p.AcTest? then h == Free && h' == HeldBy(t)
    else if p == RlTest(true) then h == HeldBy(t) && h' == Free
    else h' == h
  }

  lemma StepIsAtomic(tidOf: TidOf, s: State, t: nat, op: Op, h: Holder) returns (h': Holder)
    requires Inv(tidOf, s) && Stands(s, h)
    requires Stray(s.PcOf(t)) ==> DistinctTids(tidOf)
    ensures Stands(Step(tidOf, s, t, op), h') && AtomicStep(s.PcOf(t), t, h, h')
  {
    StepKeepsInv(tidOf, s, t, op);
    var n := Step(tidOf, s, t, op);
    assert forall u :: u != t ==> n.PcOf(u) == s.PcOf(u);
    if HasToken(s.PcOf(t)) {
      TokenIsUnique(s, t);
    }
    hide Count;
    h' := if Owning(n.PcOf(t)) then HeldBy(t) else if h == HeldBy(t) then Free else h;
    assert Owning(s.PcOf(t)) <==> h == HeldBy(t);
  }

  lemma FreeAtFirst()
    ensures Stands(Initial(), Free)
  {}

  /** Every run is a run of an atomic lock: there is a history of its holders, which starts with a
      free lock, stands for the concrete state at each point, and changes only by legal steps of the
      thread that moves. This is the lock that SynchListModel, JoinModel and SynchDiskModel use. */
  lemma {:induction false} LockRefinesAtomicCell(tidOf: TidOf, sched: Schedule) returns (holders: seq<Holder>)
    requires DistinctTids(tidOf) || NoStrayRelease(sched)
    ensures |holders| == |sched| + 1 && holders[0] == Free
    ensures forall k :: 0 <= k <= |sched| ==> Stands(Run(tidOf, sched[..k]), holders[k])
    ensures forall k :: 0 <= k < |sched| ==>
      AtomicStep(Run(tidOf, sched[..k]).PcOf(sched[k].0), sched[k].0, holders[k], holders[k + 1])
  {
    hide AtomicStep, Inv, Step, Stands;
    if sched == [] {
      holders := [Free];
      FreeAtFirst();
    } else {
      var n := |sched| - 1;
      var before, t := sched[..n], sched[n].0;
      assert forall k :: 0 <= k <= n ==> sched[..k] == before[..k];
      assert sched[..n + 1] == sched && before[..n] == before;
      var front := LockRefinesAtomicCell(tidOf, before);
      assert Run(tidOf, sched) == Step(tidOf, Run(tidOf, before), t, sched[n].1);
      hide Run;
      RunKeepsInv(tidOf, before);
      if !DistinctTids(tidOf) { NoStrayThread(tidOf, before, t); }
      var last := StepIsAtomic(tidOf, Run(tidOf, before), t, sched[n].1, front[n]);
      holders := front + [last];
    }
  }

  // ---- Progress ----

  predicate Stuck(tidOf: TidOf, s: State, t: nat) {
    Exec(s.m, tidOf(t), s.PcOf(t), DoAcquire).Blocked?
  }

  /** t is in the critical section, or it is inside Acquire or Release and can move. */
  predicate Live(tidOf: TidOf, s: State, t: nat) {
    s.PcOf(t).Holding? || (!s.PcOf(t).Idle? && !Stuck(tidOf, s, t))
  }

  /** If a thread is stuck then either some thread is in the critical section, or a thread that
      is inside Acquire or Release can move. */
  lemma LockProgress(tidOf: TidOf, sched: Schedule, t: nat)
    requires DistinctTids(tidOf) || NoStrayRelease(sched)
    requires Stuck(tidOf, Run(tidOf, sched), t)
    ensures exists u :: Live(tidOf, Run(tidOf, sched), u)
  {
    RunKeepsInv(tidOf, sched);
    var s := Run(tidOf, sched);
    if s.m.inner == 0 {
      var u := CountWitness(s.pcs, HasInner);
      assert HasInner(s.PcOf(u)) && Live(tidOf, s, u);
    } else {
      var u := CountWitness(s.pcs, HasToken);
      assert HasToken(s.PcOf(u)) && Live(tidOf, s, u);
    }
  }

  /** An Acquire that finds an owner, which takes a shared id and a stray release, gives its token back
      and leaves the owner alone; it returns as if it held the lock. */
  lemma AcquireFindsOwner(tidOf: TidOf, s: State, t: nat, ops: seq<Op>)
    requires s.PcOf(t).AcTest? && s.m.ownerID != NOBODY && |ops| == 3
    ensures var n := Step(tidOf, Step(tidOf, Step(tidOf, s, t, ops[0]), t, ops[1]), t, ops[2]);
      && n.PcOf(t).Holding? && n.m.ownerID == s.m.ownerID
      && n.m.lock == s.m.lock + 1 && n.m.inner == s.m.inner + 1
      && forall u: nat :: u != t ==> n.PcOf(u) == s.PcOf(u)
  {
    var a := Step(tidOf, s, t, ops[0]);
    var b := Step(tidOf, a, t, ops[1]);
    assert a.PcOf(t).AcElse? && b.PcOf(t).AcLeave?;
  }
}
