/** Threads, the ready list and semaphores: threads/thread.cc, threads/scheduler.cc and
    Semaphore of threads/synch.cc, on one processor.

    Each action is one stretch of kernel code that runs with interrupts off. SWITCH is an atomic
    change of the current thread. A thread that Sleep put to sleep stays current while
    Interrupt::Idle runs, and a handler that runs meanwhile may even wake that very thread. */
module KernelModel {
  import opened Counting

  type Tid = nat
  type SemId = nat

  datatype Status = Ready | Running | Blocked

  /** Where a thread is with respect to Semaphore::P and Thread::Finish. */
  datatype Place =
    | Outside
    | Asleep(sem: SemId)    // in P, appended to the queue, inside Sleep
    | Recheck(sem: SemId)   // in P, woken by V, about to test value again
    | Finished              // in Finish, will never run again

  datatype Thread = Thread(status: Status, at: Place)

  datatype Semaphore = Semaphore(value: nat, queue: seq<Tid>)

  datatype Carcass = NoCarcass | Carcass(t: Tid)   // threadToBeDestroyed

  datatype State = State(
    threads: map<Tid, Thread>,      // every thread not freed yet
    current: Tid,
    ready: seq<Tid>,
    sems: map<SemId, Semaphore>,
    toBeDestroyed: Carcass,
    freed: seq<Tid>)
  {
    /** The current thread runs ordinary code. */
    predicate Executing() { current in threads && threads[current] == Thread(Running, Outside) }

    /** The current thread is inside Sleep, which is looking for the next thread. */
    predicate Idling() { current in threads && threads[current].status != Running }
  }

  datatype Action =
    | Fork(t: Tid)
    | Yield
    | P(s: SemId)        // entry of P up to its return or its Sleep
    | Resume             // P continues after Sleep returned
    | V(s: SemId)        // by the current thread or by an interrupt handler
    | Finish             // up to its Sleep
    | Switch             // Sleep found a ready thread

  predicate Enabled(k: State, a: Action) {
    match a
    case Fork(t) => k.Executing() && t !in k.threads && t !in k.freed
    case Yield => k.Executing()
    case P(s) => k.Executing() && s in k.sems
    case Resume => k.current in k.threads && k.threads[k.current].status == Running &&
                   k.threads[k.current].at.Recheck? && k.threads[k.current].at.sem in k.sems
    case V(s) => (k.Executing() || k.Idling()) && s in k.sems && (forall t :: t in k.sems[s].queue ==> t in k.threads)
    case Finish => k.Executing()
    case Switch => k.Idling() && k.ready != [] && k.ready[0] in k.threads
  }

  function Setting(k: State, t: Tid, status: Status, at: Place): State {
    k.(threads := k.threads[t := Thread(status, at)])
  }

  /** Scheduler::Run: nextThread becomes current, then the carcass, if any, is deleted. */
  function Dispatch(k: State, next: Tid): State
    requires next in k.threads
  {
    var k1 := Setting(k, next, Running, k.threads[next].at).(current := next);
    match k1.toBeDestroyed
    case NoCarcass => k1
    case Carcass(d) => k1.(threads := k1.threads - {d}, toBeDestroyed := NoCarcass, freed := k1.freed + [d])
  }

  /** One evaluation of the loop of P by the current thread. */
  function TestValue(k: State, s: SemId): State
    requires s in k.sems
  {
    var sem := k.sems[s];
    if sem.value == 0 then
      Setting(k, k.current, Blocked, Asleep(s)).(sems := k.sems[s := sem.(queue := sem.queue + [k.current])])
    else
      Setting(k, k.current, Running, Outside).(sems := k.sems[s := sem.(value := sem.value - 1)])
  }

  function WakeOne(k: State, s: SemId): State
    requires s in k.sems
  {
    var sem := k.sems[s];
    if sem.queue == [] then k.(sems := k.sems[s := sem.(value := sem.value + 1)])
    else
      var t := sem.queue[0];
      Setting(k, t, Ready, Recheck(s)).(ready := k.ready + [t],
                                       sems := k.sems[s := Semaphore(sem.value + 1, sem.queue[1..])])
  }

  /** One action; an action that is not enabled changes nothing. */
  function Step(k: State, a: Action): State {
    if !Enabled(k, a) then k else
    match a
    case Fork(t) => Setting(k, t, Ready, Outside).(ready := k.ready + [t])
    case Yield =>
      if k.ready == [] || k.ready[0] !in k.threads then k else
      var next := k.ready[0];
      var k1 := Setting(k, k.current, Ready, Outside).(ready := k.ready[1..] + [k.current]);
      Dispatch(k1, next)
    case P(s) => TestValue(k, s)
    case Resume => TestValue(k, k.threads[k.current].at.sem)
    case V(s) => WakeOne(k, s)
    case Finish => Setting(k, k.current, Blocked, Finished).(toBeDestroyed := Carcass(k.current))
    case Switch => Dispatch(k.(ready := k.ready[1..]), k.ready[0])
  }

  type Trace = seq<Action>

  function Exec(k: State, trace: Trace): State {
    if trace == [] then k else Step(Exec(k, trace[..|trace| - 1]), trace[|trace| - 1])
  }

  /** Boot: one running thread and semaphores with the given values. */
  function Boot(main: Tid, values: map<SemId, nat>): State {
    State(map[main := Thread(Running, Outside)], main, [], map s | s in values :: Semaphore(values[s], []), NoCarcass,
      [])
  }

  // ---- The invariant ----

  predicate NoDup(s: seq<Tid>) { forall i, j :: 0 <= i < j < |s| ==> s[i] != s[j] }

  /** A thread's status and place agree with the list it is on. */
  predicate Placed(k: State, t: Tid)
    requires t in k.threads
  {
    var x := k.threads[t];
    && (x.status == Running ==> t == k.current && !x.at.Asleep? && !x.at.Finished?)
    && (x.status == Ready <==> t in k.ready)
    && (x.status == Ready ==> !x.at.Asleep? && !x.at.Finished?)
    && (x.status == Blocked ==> x.at.Asleep? || x.at.Finished?)
    && (x.at.Asleep? ==> x.at.sem in k.sems && t in k.sems[x.at.sem].queue)
    && (x.at.Recheck? ==> x.at.sem in k.sems)
    && (x.at.Finished? <==> k.toBeDestroyed == Carcass(t))
  }

  predicate QueueOk(k: State, s: SemId)
    requires s in k.sems
  {
    && NoDup(k.sems[s].queue)
    && (forall t :: t in k.sems[s].queue ==> t in k.threads && k.threads[t] == Thread(Blocked, Asleep(s)))
  }

  ghost predicate Partition(k: State) {
    && k.current in k.threads
    && (forall t :: t in k.threads ==> Placed(k, t))
    && NoDup(k.ready)
    && (forall t :: t in k.ready ==> t in k.threads)
    && (forall s :: s in k.sems ==> QueueOk(k, s))
    && (k.toBeDestroyed.Carcass? ==> k.toBeDestroyed.t == k.current)
    && NoDup(k.freed)
    && (forall t :: t in k.freed ==> t !in k.threads)
  }

  ghost function Rechecking(s: SemId): Thread -> bool { (x: Thread) => x.at == Recheck(s) }

  /** Threads woken by V of s that have not tested its value yet. */
  ghost function Woken(k: State, s: SemId): nat { Count(k.threads, Rechecking(s)) }

  ghost predicate NoLostWakeup(k: State) {
    forall s :: s in k.sems && k.sems[s].queue != [] ==> k.sems[s].value <= Woken(k, s)
  }

  // ---- Steps keep the partition ----

  lemma ForkPartition(k: State, t: Tid)
    requires Partition(k) && Enabled(k, Fork(t))
    ensures Partition(Step(k, Fork(t)))
  {
    var n := Step(k, Fork(t));
    forall u | u in n.threads ensures Placed(n, u) { assert u != t ==> Placed(k, u); }
    forall s | s in n.sems ensures QueueOk(n, s) { assert QueueOk(k, s); }
  }

  lemma TestPartition(k: State, s: SemId)
    requires Partition(k) && s in k.sems
    requires k.threads[k.current].status == Running
    ensures Partition(TestValue(k, s))
  {
    var n := TestValue(k, s);
    assert Placed(k, k.current);
    forall u | u in n.threads ensures Placed(n, u) { assert Placed(k, u); }
    forall q | q in n.sems ensures QueueOk(n, q) { assert QueueOk(k, q); }
  }

  lemma WakePartition(k: State, s: SemId)
    requires Partition(k) && s in k.sems
    ensures Partition(WakeOne(k, s))
  {
    var n := WakeOne(k, s);
    assert QueueOk(k, s);
    if k.sems[s].queue != [] {
      var t := k.sems[s].queue[0];
      assert Placed(k, t);
      assert forall u :: u in k.sems[s].queue && u != t ==> u in k.sems[s].queue[1..];
    }
    forall u | u in n.threads ensures Placed(n, u) { assert Placed(k, u); }
    forall q | q in n.sems ensures QueueOk(n, q) { WakeQueue(k, s, q); }
  }

  lemma WakeQueue(k: State, s: SemId, q: SemId)
    requires Partition(k) && s in k.sems && q in k.sems
    ensures q in WakeOne(k, s).sems && QueueOk(WakeOne(k, s), q)
  {
    assert QueueOk(k, q) && QueueOk(k, s);
    hide Placed;
  }

  lemma FinishPartition(k: State)
    requires Partition(k) && k.Executing()
    ensures k.toBeDestroyed == NoCarcass
    ensures Partition(Step(k, Finish))
  {
    var n := Step(k, Finish);
    assert Placed(k, k.current);
    forall u | u in n.threads ensures Placed(n, u) { assert Placed(k, u); }
    forall q | q in n.sems ensures QueueOk(n, q) { assert QueueOk(k, q); }
  }

  lemma RestOfReady(ready: seq<Tid>)
    requires ready != [] && NoDup(ready)
    ensures NoDup(ready[1..]) && ready[0] !in ready[1..]
    ensures forall u :: u in ready <==> u == ready[0] || u in ready[1..]
  {
    assert ready == [ready[0]] + ready[1..];
    assert forall i :: 0 <= i < |ready[1..]| ==> ready[1..][i] == ready[i + 1];
  }

  /** What Sleep leaves behind: the first ready thread is current, and the carcass is gone. */
  lemma SwitchResult(k: State)
    requires Partition(k) && Enabled(k, Switch)
    ensures var n, next := Step(k, Switch), k.ready[0];
      && n.sems == k.sems && n.ready == k.ready[1..] && n.current == next && n.toBeDestroyed == NoCarcass
      && (k.toBeDestroyed.Carcass? ==> k.current !in k.ready)
      && n.threads == k.threads[next := Thread(Running, k.threads[next].at)]
                      - (if k.toBeDestroyed.Carcass? then {k.current} else {})
      && n.freed == k.freed + (if k.toBeDestroyed.Carcass? then [k.current] else [])
  {
    var n, next := Step(k, Switch), k.ready[0];
    assert Placed(k, next) && Placed(k, k.current);
    if k.toBeDestroyed.NoCarcass? { assert n.threads - {} == n.threads; }
  }

  lemma SwitchPlaced(k: State, u: Tid)
    requires Partition(k) && Enabled(k, Switch) && u in Step(k, Switch).threads
    ensures Placed(Step(k, Switch), u)
  {
    SwitchResult(k);
    RestOfReady(k.ready);
    assert Placed(k, u) && Placed(k, k.ready[0]) && Placed(k, k.current);
    hide Step, QueueOk, NoDup, Dispatch;
  }

  lemma SwitchQueue(k: State, q: SemId)
    requires Partition(k) && Enabled(k, Switch) && q in k.sems
    ensures q in Step(k, Switch).sems && QueueOk(Step(k, Switch), q)
  {
    SwitchResult(k);
    assert Placed(k, k.ready[0]) && Placed(k, k.current) && QueueOk(k, q);
    hide Step, NoDup, Dispatch;
  }

  lemma OneMoreNoDup(s: seq<Tid>, t: Tid)
    requires NoDup(s) && t !in s
    ensures NoDup(s + [t])
  {}

  /** The lists after the switch name the right threads. */
  lemma SwitchLists(k: State)
    requires Partition(k) && Enabled(k, Switch)
    ensures var n := Step(k, Switch);
      && n.current in n.threads && n.toBeDestroyed == NoCarcass && NoDup(n.ready) && NoDup(n.freed)
      && (forall t :: t in n.ready ==> t in n.threads) && (forall t :: t in n.freed ==> t !in n.threads)
  {
    SwitchResult(k);
    RestOfReady(k.ready);
    OneMoreNoDup(k.freed, k.current);
    hide Step, Dispatch, Placed, QueueOk, NoDup;
    assert k.freed + [] == k.freed;
  }

  lemma SwitchPartition(k: State)
    requires Partition(k) && Enabled(k, Switch)
    ensures Partition(Step(k, Switch))
  {
    var n := Step(k, Switch);
    SwitchLists(k);
    hide Step, Dispatch, Placed, QueueOk, NoDup;
    forall u | u in n.threads ensures Placed(n, u) { SwitchPlaced(k, u); }
    forall q | q in n.sems ensures QueueOk(n, q) {
      SwitchResult(k);
      SwitchQueue(k, q);
    }
  }

  lemma YieldResult(k: State)
    requires Partition(k) && Enabled(k, Yield) && k.ready != []
    ensures var n, next := Step(k, Yield), k.ready[0];
      && n.sems == k.sems && n.ready == k.ready[1..] + [k.current] && n.current == next != k.current
      && n.toBeDestroyed == NoCarcass == k.toBeDestroyed && n.freed == k.freed && k.current !in k.ready
      && n.threads == k.threads[k.current := Thread(Ready, Outside)][next := Thread(Running, k.threads[next].at)]
  {
    assert Placed(k, k.ready[0]) && Placed(k, k.current);
  }

  lemma YieldPlaced(k: State, u: Tid)
    requires Partition(k) && Enabled(k, Yield) && k.ready != [] && u in Step(k, Yield).threads
    ensures Placed(Step(k, Yield), u)
  {
    YieldResult(k);
    RestOfReady(k.ready);
    assert u in k.ready[1..] + [k.current] <==> u in k.ready[1..] || u == k.current;
    assert Placed(k, u) && Placed(k, k.ready[0]) && Placed(k, k.current);
    hide Step, QueueOk, NoDup, Dispatch;
  }

  lemma YieldQueue(k: State, q: SemId)
    requires Partition(k) && Enabled(k, Yield) && k.ready != [] && q in k.sems
    ensures q in Step(k, Yield).sems && QueueOk(Step(k, Yield), q)
  {
    YieldResult(k);
    assert Placed(k, k.ready[0]) && Placed(k, k.current) && QueueOk(k, q);
    hide Step, NoDup, Dispatch;
  }

  lemma YieldLists(k: State)
    requires Partition(k) && Enabled(k, Yield) && k.ready != []
    ensures var n := Step(k, Yield);
      && n.current in n.threads && n.toBeDestroyed == NoCarcass && NoDup(n.ready) && NoDup(n.freed)
      && (forall t :: t in n.ready ==> t in n.threads) && (forall t :: t in n.freed ==> t !in n.threads)
  {
    YieldResult(k);
    RestOfReady(k.ready);
    OneMoreNoDup(k.ready[1..], k.current);
    hide Step, Dispatch, Placed, QueueOk, NoDup;
  }

  lemma YieldPartition(k: State)
    requires Partition(k) && Enabled(k, Yield)
    ensures Partition(Step(k, Yield))
  {
    var n := Step(k, Yield);
    if k.ready != [] {
      YieldLists(k);
      hide Step, Dispatch, Placed, QueueOk, NoDup;
      forall u | u in n.threads ensures Placed(n, u) { YieldPlaced(k, u); }
      forall q | q in n.sems ensures QueueOk(n, q) {
        YieldResult(k);
        YieldQueue(k, q);
      }
    }
  }

  lemma StepPartition(k: State, a: Action)
    requires Partition(k)
    ensures Partition(Step(k, a))
  {
    if Enabled(k, a) {
      match a
      case Fork(t) => ForkPartition(k, t);
      case Yield => YieldPartition(k);
      case P(s) => TestPartition(k, s);
      case Resume => TestPartition(k, k.threads[k.current].at.sem);
      case V(s) => WakePartition(k, s);
      case Finish => FinishPartition(k);
      case Switch => SwitchPartition(k);
    }
  }

  // ---- Steps lose no wake-up ----

  /** Moving thread t from one place to another. */
  lemma WokenMoves(threads: map<Tid, Thread>, t: Tid, x: Thread, s: SemId)
    ensures Count(threads[t := x], Rechecking(s)) ==
            Count(threads, Rechecking(s)) - At(threads, t, Rechecking(s)) + (if x.at == Recheck(s) then 1 else 0)
  {
    CountUpdate(threads, t, x, Rechecking(s));
  }

  /** Dispatching moves nobody with respect to any semaphore: only a finished thread goes. */
  lemma DispatchWoken(k: State, next: Tid, s: SemId)
    requires next in k.threads
    requires k.toBeDestroyed.Carcass? ==> k.toBeDestroyed.t in k.threads && k.threads[k.toBeDestroyed.t].at.Finished?
    ensures Woken(Dispatch(k, next), s) == Woken(k, s)
  {
    var n := Dispatch(k, next);
    assert Members(n.threads, Rechecking(s)) == Members(k.threads, Rechecking(s));
  }

  /** A yield or a switch wakes nobody and takes no token. */
  lemma YieldKeepsWoken(k: State, s: SemId)
    requires Partition(k) && Enabled(k, Yield)
    ensures Step(k, Yield).sems == k.sems && Woken(Step(k, Yield), s) == Woken(k, s)
  {
    if k.ready != [] && k.ready[0] in k.threads {
      WokenMoves(k.threads, k.current, Thread(Ready, Outside), s);
      var k1 := Setting(k, k.current, Ready, Outside).(ready := k.ready[1..] + [k.current]);
      assert Placed(k, k.current);
      DispatchWoken(k1, k.ready[0], s);
    }
  }

  lemma SwitchKeepsWoken(k: State, s: SemId)
    requires Partition(k) && Enabled(k, Switch)
    ensures Step(k, Switch).sems == k.sems && Woken(Step(k, Switch), s) == Woken(k, s)
  {
    assert Placed(k, k.current) && Placed(k, k.ready[0]);
    DispatchWoken(k.(ready := k.ready[1..]), k.ready[0], s);
  }

  /** V wakes one sleeper of its semaphore, if there is one, and adds a token. */
  lemma VKeepsCovered(k: State, q: SemId, s: SemId)
    requires Partition(k) && Enabled(k, V(q)) && s in k.sems
    requires k.sems[s].queue != [] ==> k.sems[s].value <= Woken(k, s)
    ensures var n := Step(k, V(q)); n.sems[s].queue != [] ==> n.sems[s].value <= Woken(n, s)
  {
    var n := Step(k, V(q));
    if k.sems[q].queue != [] {
      var t := k.sems[q].queue[0];
      assert QueueOk(k, q);
      WokenMoves(k.threads, t, n.threads[t], s);
    }
  }

  /** The other actions move the current thread only. */
  lemma OwnMoveKeepsCovered(k: State, a: Action, s: SemId)
    requires Partition(k) && Enabled(k, a) && s in k.sems && (a.Fork? || a.P? || a.Resume? || a.Finish?)
    requires k.sems[s].queue != [] ==> k.sems[s].value <= Woken(k, s)
    ensures var n := Step(k, a); n.sems[s].queue != [] ==> n.sems[s].value <= Woken(n, s)
  {
    var n := Step(k, a);
    assert QueueOk(k, s) && Placed(k, k.current);
    var t := if a.Fork? then a.t else k.current;
    WokenMoves(k.threads, t, n.threads[t], s);
  }

  lemma StepNoLostWakeup(k: State, a: Action)
    requires Partition(k) && NoLostWakeup(k)
    ensures NoLostWakeup(Step(k, a))
  {
    var n := Step(k, a);
    if Enabled(k, a) {
      forall s | s in n.sems && n.sems[s].queue != [] ensures n.sems[s].value <= Woken(n, s) {
        assert s in k.sems;
        match a
        case Yield => YieldKeepsWoken(k, s);
        case Switch => SwitchKeepsWoken(k, s);
        case V(q) => VKeepsCovered(k, q, s);
        case _ => OwnMoveKeepsCovered(k, a, s);
      }
    }
  }

  lemma {:induction false} RunInvariant(main: Tid, values: map<SemId, nat>, trace: Trace)
    ensures Partition(Exec(Boot(main, values), trace))
    ensures NoLostWakeup(Exec(Boot(main, values), trace))
  {
    if trace != [] {
      RunInvariant(main, values, trace[..|trace| - 1]);
      var k := Exec(Boot(main, values), trace[..|trace| - 1]);
      StepPartition(k, trace[|trace| - 1]);
      StepNoLostWakeup(k, trace[|trace| - 1]);
    }
  }

  // ---- Theorems about every run ----

  /** How often t occurs in a list. */
  function Times(s: seq<Tid>, t: Tid): nat { multiset(s)[t] }

  lemma {:induction false} TimesNoDup(s: seq<Tid>, t: Tid)
    requires NoDup(s)
    ensures Times(s, t) == if t in s then 1 else 0
  {
    if s != [] {
      assert s == [s[0]] + s[1..];
      TimesNoDup(s[1..], t);
    }
  }

  /** Every live thread is in exactly one place: it runs, or it is once on the ready list, or it
      is once on one semaphore queue, or it has finished and is about to be freed; its status
      says which. A freed thread was freed once and is on no list. */
  lemma EveryThreadInOnePlace(main: Tid, values: map<SemId, nat>, trace: Trace, t: Tid)
    ensures var k := Exec(Boot(main, values), trace);
      && (t in k.threads ==>
            match k.threads[t].status
            case Running => t == k.current && t !in k.ready && (forall s :: s in k.sems ==> t !in k.sems[s].queue)
            case Ready => Times(k.ready, t) == 1 && (forall s :: s in k.sems ==> t !in k.sems[s].queue)
            case Blocked =>
              && t !in k.ready
              && if k.toBeDestroyed == Carcass(t) then (forall s :: s in k.sems ==> t !in k.sems[s].queue)
                 else exists s :: s in k.sems && Times(k.sems[s].queue, t) == 1 &&
                        (forall q :: q in k.sems && q != s ==> t !in k.sems[q].queue))
      && (t in k.freed ==> Times(k.freed, t) == 1 && t !in k.threads && t != k.current && t !in k.ready)
  {
    RunInvariant(main, values, trace);
    var k := Exec(Boot(main, values), trace);
    forall s | s in k.sems && t in k.sems[s].queue
      ensures t in k.threads && k.threads[t] == Thread(Blocked, Asleep(s)) && Times(k.sems[s].queue, t) == 1
    {
      assert QueueOk(k, s);
      TimesNoDup(k.sems[s].queue, t);
    }
    TimesNoDup(k.ready, t);
    TimesNoDup(k.freed, t);
    if t in k.threads {
      assert Placed(k, t);
    }
  }

  /** Finish always finds threadToBeDestroyed == NULL, and the thread it frees is never current. */
  lemma FinishFindsNoCarcass(main: Tid, values: map<SemId, nat>, trace: Trace)
    ensures var k := Exec(Boot(main, values), trace);
      && (k.Executing() ==> k.toBeDestroyed == NoCarcass)
      && (k.toBeDestroyed.Carcass? && Enabled(k, Switch) ==>
            k.ready[0] != k.toBeDestroyed.t && Step(k, Switch).current != k.toBeDestroyed.t)
  {
    RunInvariant(main, values, trace);
    var k := Exec(Boot(main, values), trace);
    assert Placed(k, k.current);
  }

  /** A call of P that has returned: the thread that was testing runs ordinary code again. */
  predicate CompletesP(k: State, a: Action, s: SemId) {
    && Enabled(k, a)
    && (a == P(s) || (a == Resume && k.threads[k.current].at == Recheck(s)))
    && Step(k, a).Executing()
  }

  function Vs(k: State, trace: Trace, s: SemId): nat {
    if trace == [] then 0 else
    var before := trace[..|trace| - 1];
    Vs(k, before, s) + if trace[|trace| - 1] == V(s) && Enabled(Exec(k, before), V(s)) then 1 else 0
  }

  function Ps(k: State, trace: Trace, s: SemId): nat {
    if trace == [] then 0 else
    var before := trace[..|trace| - 1];
    Ps(k, before, s) + if CompletesP(Exec(k, before), trace[|trace| - 1], s) then 1 else 0
  }

  /** Conservation: the value is the initial value plus completed Vs minus completed Ps. */
  lemma {:induction false} SemaphoreConservation(k: State, trace: Trace, s: SemId)
    requires s in k.sems
    ensures s in Exec(k, trace).sems
    ensures Exec(k, trace).sems[s].value + Ps(k, trace, s) == k.sems[s].value + Vs(k, trace, s)
  {
    if trace != [] {
      var before := trace[..|trace| - 1];
      SemaphoreConservation(k, before, s);
      StepConserves(Exec(k, before), trace[|trace| - 1], s);
    }
  }

  lemma StepConserves(k: State, a: Action, s: SemId)
    requires s in k.sems
    ensures s in Step(k, a).sems
    ensures Step(k, a).sems[s].value + (if CompletesP(k, a, s) then 1 else 0) ==
            k.sems[s].value + (if a == V(s) && Enabled(k, a) then 1 else 0)
  {}

  /** While someone sleeps on s, its value is at most the number of threads that V woke and that
      have not tested it again; each of those is ready or current. So when nobody is ready or
      running, s has no token left. */
  lemma SleepersHaveNoToken(main: Tid, values: map<SemId, nat>, trace: Trace, s: SemId)
    requires var k := Exec(Boot(main, values), trace); s in k.sems && k.sems[s].queue != []
    ensures var k := Exec(Boot(main, values), trace);
      && k.sems[s].value <= Woken(k, s)
      && (forall t :: t in k.threads && k.threads[t].at == Recheck(s) ==> t in k.ready || t == k.current)
      && (k.ready == [] && k.Idling() ==> k.sems[s].value == 0)
  {
    RunInvariant(main, values, trace);
    var k := Exec(Boot(main, values), trace);
    hide Exec, Boot;
    forall t | t in k.threads && k.threads[t].at == Recheck(s)
      ensures t in k.ready || (t == k.current && k.threads[t].status == Running)
    {
      assert Placed(k, t);
    }
    if k.ready == [] && k.Idling() { CountZero(k.threads, Rechecking(s)); }
  }

  // ---- Fairness ----

  predicate IsDispatch(k: State, a: Action) {
    && Enabled(k, a)
    && (a.Switch? || (a.Yield? && k.ready != [] && k.ready[0] in k.threads))
  }

  function Dispatches(k: State, trace: Trace): nat {
    if trace == [] then 0 else
    var before := trace[..|trace| - 1];
    Dispatches(k, before) + if IsDispatch(Exec(k, before), trace[|trace| - 1]) then 1 else 0
  }

  /** The ready list is FIFO: the thread at index i is still at index i - d after d dispatches,
      and the (i+1)-th dispatch makes it current. */
  lemma {:induction false} DispatchedInTurn(k: State, trace: Trace, i: nat)
    requires i < |k.ready|
    ensures var d := Dispatches(k, trace); var n := Exec(k, trace);
      && (d <= i ==> i - d < |n.ready| && n.ready[i - d] == k.ready[i])
      && (d == i + 1 && trace != [] && IsDispatch(Exec(k, trace[..|trace| - 1]), trace[|trace| - 1]) ==>
            n.current == k.ready[i])
  {
    if trace != [] {
      var before := trace[..|trace| - 1];
      DispatchedInTurn(k, before, i);
      ReadyMovesUp(Exec(k, before), trace[|trace| - 1]);
      hide Step, IsDispatch;
    }
  }

  /** An action takes the head of the ready list away and makes it current, or leaves it. */
  lemma ReadyMovesUp(k: State, a: Action)
    ensures var n := Step(k, a);
      if IsDispatch(k, a) then k.ready != [] && n.current == k.ready[0] && k.ready[1..] <= n.ready
      else k.ready <= n.ready
  {}
}
