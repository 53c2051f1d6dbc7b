/** The blocking FIFO queue of threads/synchlist.cc, run by any number of threads.

    Every step is one statement of Append, Remove, Condition::Wait or Condition::Signal;
    Lock::Acquire and Lock::Release are single steps here, which LockModel justifies.
    A thread whose next statement would block does not move. */
module SynchListModel {
  import opened Counting

  type Item = int

  datatype Op = DoAppend(item: Item) | DoRemove

  /** The statement a thread executes next. */
  datatype Pc =
    | Idle
      // SynchList::Append
    | ApAcquire(item: Item)
    | ApInsert(item: Item)
      // ... inside listEmpty->Signal
    | SgEnter      // innerLock->P
    | SgTest       // if (totalSleepers > 0)
    | SgWake       // sleepLock->V
    | SgDecrement  // totalSleepers--
    | SgLeave      // innerLock->V
    | ApRelease
      // SynchList::Remove
    | RmAcquire
    | RmTest       // while (list->IsEmpty())
      // ... inside listEmpty->Wait
    | WtEnter      // innerLock->P
    | WtRegister   // totalSleepers++
    | WtUnlock     // conditionLock->Release
    | WtLeave      // innerLock->V
    | WtSleep      // sleepLock->P
    | WtRelock     // conditionLock->Acquire
    | RmTake       // item = list->Remove
    | RmRelease(item: Item)
    | AssertFailed // ASSERT (item != NULL) did not hold

  datatype Holder = Free | HeldBy(tid: nat)

  /** What the threads share. */
  datatype Monitor = Monitor(
    holder: Holder,        // the monitor lock
    inner: nat,            // value of the condition's innerLock semaphore
    sleep: nat,            // value of the condition's sleepLock semaphore
    totalSleepers: int,
    list: seq<Item>,
    appended: seq<Item>,   // every item inserted so far, in order
    removed: seq<Item>)    // every item taken so far, in order

  datatype Move = Blocked | Go(next: Pc, m: Monitor)

  /** Thread t executes statement p; op is used only when t is idle. */
  function Exec(m: Monitor, t: nat, p: Pc, op: Op): Move {
    match p
    case Idle => Go(match op case DoAppend(x) => ApAcquire(x) case DoRemove => RmAcquire, m)
    case ApAcquire(x) => if m.holder.Free? then Go(ApInsert(x), m.(holder := HeldBy(t))) else Blocked
    case ApInsert(x) => Go(SgEnter, m.(list := m.list + [x], appended := m.appended + [x]))
    case SgEnter => if m.inner > 0 then Go(SgTest, m.(inner := m.inner - 1)) else Blocked
    case SgTest => Go(if m.totalSleepers > 0 then SgWake else SgLeave, m)
    case SgWake => Go(SgDecrement, m.(sleep := m.sleep + 1))
    case SgDecrement => Go(SgLeave, m.(totalSleepers := m.totalSleepers - 1))
    case SgLeave => Go(ApRelease, m.(inner := m.inner + 1))
    case ApRelease => Go(Idle, m.(holder := Free))
    case RmAcquire => if m.holder.Free? then Go(RmTest, m.(holder := HeldBy(t))) else Blocked
    case RmTest => Go(if m.list == [] then WtEnter else RmTake, m)
    case WtEnter => if m.inner > 0 then Go(WtRegister, m.(inner := m.inner - 1)) else Blocked
    case WtRegister => Go(WtUnlock, m.(totalSleepers := m.totalSleepers + 1))
    case WtUnlock => Go(WtLeave, m.(holder := Free))
    case WtLeave => Go(WtSleep, m.(inner := m.inner + 1))
    case WtSleep => if m.sleep > 0 then Go(WtRelock, m.(sleep := m.sleep - 1)) else Blocked
    case WtRelock => if m.holder.Free? then Go(RmTest, m.(holder := HeldBy(t))) else Blocked
    case RmTake =>
      if m.list == [] then Go(AssertFailed, m)
      else Go(RmRelease(m.list[0]), m.(list := m.list[1..], removed := m.removed + [m.list[0]]))
    case RmRelease(_) => Go(Idle, m.(holder := Free))
    case AssertFailed => Blocked
  }

  datatype State = State(m: Monitor, pcs: map<nat, Pc>) {
    function PcOf(t: nat): Pc { if t in pcs then pcs[t] else Idle }
  }

  function Step(s: State, t: nat, op: Op): State {
    match Exec(s.m, t, s.PcOf(t), op)
    case Blocked => s
    case Go(q, m) => State(m, s.pcs[t := q])
  }

  /** A run: which thread moves at each point, and what it starts if it is idle. */
  type Schedule = seq<(nat, Op)>

  function Initial(): State {
    State(Monitor(Free, 1, 0, 0, [], [], []), map[])
  }

  function Run(sched: Schedule): State {
    if sched == [] then Initial()
    else var last := sched[|sched| - 1]; Step(Run(sched[..|sched| - 1]), last.0, last.1)
  }

  // ---- Which threads are where ----

  predicate HasLock(p: Pc) {
    p.ApInsert? || p.SgEnter? || p.SgTest? || p.SgWake? || p.SgDecrement? || p.SgLeave? || p.ApRelease? ||
    p.RmTest? || p.WtEnter? || p.WtRegister? || p.WtUnlock? || p.RmTake? || p.RmRelease?
  }

  predicate HasInner(p: Pc) {
    p.SgTest? || p.SgWake? || p.SgDecrement? || p.SgLeave? || p.WtRegister? || p.WtUnlock? || p.WtLeave?
  }

  /** Counted in totalSleepers and not yet past sleepLock->P. */
  predicate Registered(p: Pc) { p.WtUnlock? || p.WtLeave? || p.WtSleep? }

  /** Has issued a token that totalSleepers does not reflect yet. */
  predicate Transient(p: Pc) { p.SgDecrement? }

  /** A remover that will test the list again, or has just found it non-empty. */
  predicate Awake(p: Pc) { p.WtRelock? || p.RmTest? || p.RmTake? }

  /** An appender that has inserted and has not signalled yet. */
  predicate Owing(p: Pc) { p.SgEnter? || p.SgTest? || p.SgWake? }

  // ---- The invariant ----

  /** How many threads are in each of these places. */
  datatype Tally = Tally(hasInner: int, registered: int, transient: int, awake: int, owing: int)

  ghost function TallyOf(pcs: map<nat, Pc>): Tally {
    Tally(Count(pcs, HasInner), Count(pcs, Registered), Count(pcs, Transient), Count(pcs, Awake), Count(pcs, Owing))
  }

  /** The monitor lock is held by exactly the thread that is inside the monitor. */
  ghost predicate Exclusion(s: State) {
    forall t :: HasLock(s.PcOf(t)) <==> s.m.holder == HeldBy(t)
  }

  /** What a thread knows about the shared data from its place in the code. */
  predicate Knows(m: Monitor, p: Pc) {
    && !p.AssertFailed?
    && (p.RmTake? ==> m.list != [])
    && (p.WtEnter? || p.WtRegister? || p.WtUnlock? ==> m.list == [])
    && (p.SgWake? || p.SgDecrement? ==> m.totalSleepers > 0)
  }

  ghost predicate Knowledge(s: State) {
    forall t :: Knows(s.m, s.PcOf(t))
  }

  /** totalSleepers - transient waiters have no token yet; if there is one, each queued item is
      covered by a token, by a remover about to test, or by an appender about to signal. */
  predicate Balanced(m: Monitor, k: Tally) {
    && m.inner + k.hasInner == 1
    && m.totalSleepers >= k.transient
    && m.totalSleepers + m.sleep == k.registered + k.transient
    && (m.totalSleepers > k.transient ==> |m.list| <= m.sleep + k.awake + k.owing)
  }

  ghost predicate Inv(s: State) {
    && Exclusion(s)
    && Knowledge(s)
    && Balanced(s.m, TallyOf(s.pcs))
    && s.m.removed + s.m.list == s.m.appended
  }

  // ---- Every step keeps it ----

  function One(b: bool): int { if b then 1 else 0 }

  /** The tally after one thread went from p to q. */
  function Moved(k: Tally, p: Pc, q: Pc): Tally {
    Tally(k.hasInner - One(HasInner(p)) + One(HasInner(q)),
          k.registered - One(Registered(p)) + One(Registered(q)),
          k.transient - One(Transient(p)) + One(Transient(q)),
          k.awake - One(Awake(p)) + One(Awake(q)),
          k.owing - One(Owing(p)) + One(Owing(q)))
  }

  lemma CountMoves(s: State, t: nat, q: Pc, c: Pc -> bool)
    requires !c(Idle)
    ensures Count(s.pcs[t := q], c) == Count(s.pcs, c) - One(c(s.PcOf(t))) + One(c(q))
  {
    CountUpdate(s.pcs, t, q, c);
  }

  lemma TallyMoves(s: State, t: nat, q: Pc)
    ensures TallyOf(s.pcs[t := q]) == Moved(TallyOf(s.pcs), s.PcOf(t), q)
  {
    hide Count, One;
    CountMoves(s, t, q, HasInner);
    CountMoves(s, t, q, Registered);
    CountMoves(s, t, q, Transient);
    CountMoves(s, t, q, Awake);
    CountMoves(s, t, q, Owing);
  }

  predicate NonNegative(k: Tally) {
    k.hasInner >= 0 && k.registered >= 0 && k.transient >= 0 && k.awake >= 0 && k.owing >= 0
  }

  /** innerLock admits one thread, so nobody else is between V and the decrement. */
  lemma InnerIsExclusive(s: State, t: nat)
    requires Count(s.pcs, HasInner) <= 1 && HasInner(s.PcOf(t))
    ensures forall u :: u != t ==> !HasInner(s.PcOf(u))
    ensures Count(s.pcs, Transient) == One(Transient(s.PcOf(t)))
  {
    forall u | u != t && HasInner(s.PcOf(u)) ensures false {
      CountTwo(s.pcs, t, u, HasInner);
    }
    forall u | u in Members(s.pcs, Transient) ensures u == t {
      assert HasInner(s.PcOf(u));
    }
    assert Members(s.pcs, Transient) == if Transient(s.PcOf(t)) then {t} else {};
  }

  lemma ExecBalances(m: Monitor, t: nat, p: Pc, op: Op, k: Tally)
    requires Balanced(m, k) && Knows(m, p) && NonNegative(Moved(k, p, Idle))
    requires HasInner(p) ==> k.transient == One(Transient(p))
    ensures var r := Exec(m, t, p, op); r.Go? ==> Balanced(r.m, Moved(k, p, r.next))
  {
    hide HasLock;
  }

  lemma TallyFacts(s: State, t: nat)
    requires Balanced(s.m, TallyOf(s.pcs))
    ensures NonNegative(Moved(TallyOf(s.pcs), s.PcOf(t), Idle))
    ensures HasInner(s.PcOf(t)) ==> TallyOf(s.pcs).transient == One(Transient(s.PcOf(t)))
  {
    TallyMoves(s, t, Idle);
    if HasInner(s.PcOf(t)) { InnerIsExclusive(s, t); }
  }

  lemma StepKeepsBalance(s: State, t: nat, op: Op, r: Move)
    requires Balanced(s.m, TallyOf(s.pcs)) && Knows(s.m, s.PcOf(t))
    requires r == Exec(s.m, t, s.PcOf(t), op) && r.Go?
    ensures Balanced(r.m, TallyOf(s.pcs[t := r.next]))
  {
    TallyFacts(s, t);
    ExecBalances(s.m, t, s.PcOf(t), op, TallyOf(s.pcs));
    TallyMoves(s, t, r.next);
  }

  /** The effect of one statement on the lock and on what the threads know. */
  lemma ExecKeepsKnowledge(m: Monitor, t: nat, p: Pc, op: Op)
    requires Knows(m, p) && (HasLock(p) <==> m.holder == HeldBy(t))
    ensures var r := Exec(m, t, p, op); r.Go? ==>
      && Knows(r.m, r.next)
      && (HasLock(r.next) <==> r.m.holder == HeldBy(t))
      && (forall u :: u != t ==> (r.m.holder == HeldBy(u) <==> m.holder == HeldBy(u)))
      && (forall q :: Knows(m, q) && !(HasLock(p) && HasLock(q)) && !(HasInner(p) && HasInner(q)) ==> Knows(r.m, q))
      && (m.removed + m.list == m.appended ==> r.m.removed + r.m.list == r.m.appended)
  {}

  lemma StepKeepsInv(s: State, t: nat, op: Op)
    requires Inv(s)
    ensures Inv(Step(s, t, op))
  {
    var n := Step(s, t, op);
    var r := Exec(s.m, t, s.PcOf(t), op);
    if r.Go? {
      StepKeepsBalance(s, t, op, r);
      ExecKeepsKnowledge(s.m, t, s.PcOf(t), op);
      if HasInner(s.PcOf(t)) { InnerIsExclusive(s, t); }
      forall u ensures (HasLock(n.PcOf(u)) <==> n.m.holder == HeldBy(u)) && Knows(n.m, n.PcOf(u)) {
        assert u != t ==> n.PcOf(u) == s.PcOf(u);
        assert HasLock(s.PcOf(u)) <==> s.m.holder == HeldBy(u);
      }
    }
  }

  lemma {:induction false} RunKeepsInv(sched: Schedule)
    ensures Inv(Run(sched))
  {
    if sched == [] {
      CountZero(Initial().pcs, HasInner);
      CountZero(Initial().pcs, Registered);
      CountZero(Initial().pcs, Transient);
    } else {
      RunKeepsInv(sched[..|sched| - 1]);
      StepKeepsInv(Run(sched[..|sched| - 1]), sched[|sched| - 1].0, sched[|sched| - 1].1);
    }
  }

  // ---- Theorems about every run ----

  /** FIFO, over every interleaving: what was removed, then what is queued, is what was
      appended; at most one thread is inside the monitor; the ASSERT never fails. */
  lemma FifoUnderEveryInterleaving(sched: Schedule)
    ensures var s := Run(sched);
      && s.m.removed + s.m.list == s.m.appended
      && (forall t, u :: HasLock(s.PcOf(t)) && HasLock(s.PcOf(u)) ==> t == u)
      && (forall t :: !s.PcOf(t).AssertFailed?)
  {
    RunKeepsInv(sched);
  }

  /** No lost wake-up: when every remover is asleep, no token is outstanding and no append is
      in progress, a waiting remover means that the list is empty. */
  lemma NoLostWakeup(sched: Schedule)
    requires var s := Run(sched);
      && s.m.sleep == 0
      && (forall t :: s.PcOf(t).Idle? || s.PcOf(t).WtSleep?)
      && (exists t :: s.PcOf(t).WtSleep?)
    ensures Run(sched).m.list == []
  {
    var s := Run(sched);
    RunKeepsInv(sched);
    assert forall t :: t in s.pcs ==> s.pcs[t] == s.PcOf(t);
    CountZero(s.pcs, Transient);
    CountZero(s.pcs, Awake);
    CountZero(s.pcs, Owing);
    var t :| s.PcOf(t).WtSleep?;
    CountPositive(s.pcs, t, Registered);
  }

  /** Thread t is in the middle of an operation and its next statement blocks. */
  predicate Stuck(s: State, t: nat) {
    !s.PcOf(t).Idle? && Exec(s.m, t, s.PcOf(t), DoRemove).Blocked?
  }

  predicate CanMove(s: State, t: nat) {
    !s.PcOf(t).Idle? && !Stuck(s, t)
  }

  /** A remover asleep with no token. */
  predicate WaitsForItem(s: State, t: nat) { s.PcOf(t).WtSleep? && s.m.sleep == 0 }

  /** Whoever is stuck without waiting for an item waits, directly or through the lock holder,
      for a thread that can move. */
  lemma SomeoneMoves(s: State, t: nat)
    requires Inv(s) && Stuck(s, t) && !WaitsForItem(s, t)
    ensures exists u :: CanMove(s, u)
  {
    assert Knows(s.m, s.PcOf(t));
    var holder := if s.m.holder.Free? then t else s.m.holder.tid;
    assert !s.m.holder.Free? ==> HasLock(s.PcOf(holder));
    if Stuck(s, holder) {
      assert s.m.inner == 0;
      var w := CountWitness(s.pcs, HasInner);
      assert HasInner(s.PcOf(w)) && CanMove(s, w);
    } else {
      assert CanMove(s, holder);
    }
  }

  /** Deadlock freedom: in every reachable state either some operation in progress can take a
      step, or every operation in progress is a Remove asleep on an empty list. */
  lemma DeadlockFree(sched: Schedule)
    ensures var s := Run(sched);
      || (exists u :: CanMove(s, u))
      || (forall t :: !s.PcOf(t).Idle? ==> WaitsForItem(s, t) && s.m.list == [])
  {
    var s := Run(sched);
    RunKeepsInv(sched);
    if !exists u :: CanMove(s, u) {
      forall t | !s.PcOf(t).Idle? ensures WaitsForItem(s, t) {
        assert !CanMove(s, t);
        if !WaitsForItem(s, t) { SomeoneMoves(s, t); }
      }
      if t :| !s.PcOf(t).Idle? {
        assert WaitsForItem(s, t);
        NoLostWakeup(sched);
      }
    }
  }
}
