/** The order of things in every run of KernelModel: V wakes the thread that has slept longest, a forked thread
    gets its turn, and a finished thread is freed at the next dispatch and never comes back. */
module KernelLaws {
  import opened KernelModel

  predicate SleepsOn(k: State, t: Tid, s: SemId) { t in k.threads && k.threads[t] == Thread(Blocked, Asleep(s)) }

  /** After how many actions of the run t fell asleep on s, if it still sleeps there at the end. */
  function AsleepSince(k: State, trace: Trace, t: Tid, s: SemId): nat {
    if trace == [] then 0
    else
      var before := trace[..|trace| - 1];
      if SleepsOn(Exec(k, before), t, s) then AsleepSince(k, before, t, s) else |trace|
  }

  lemma {:induction false} AsleepSinceBound(k: State, trace: Trace, t: Tid, s: SemId)
    ensures AsleepSince(k, trace, t, s) <= |trace|
  {
    if trace != [] { AsleepSinceBound(k, trace[..|trace| - 1], t, s); }
  }

  /** What an action does to a queue. */
  lemma QueueStep(k: State, a: Action, s: SemId)
    requires Partition(k) && s in k.sems
    ensures s in Step(k, a).sems
    ensures var q, q2 := k.sems[s].queue, Step(k, a).sems[s].queue;
      || q2 == q
      || (q != [] && q2 == q[1..])
      || (q2 == q + [k.current] && !SleepsOn(k, k.current, s) && SleepsOn(Step(k, a), k.current, s))
  {
    assert Placed(k, k.current);
    hide Partition, Placed, QueueOk, NoDup;
  }

  /** The threads of the queue stand in the order in which they fell asleep. */
  ghost predicate InOrder(k: State, trace: Trace, s: SemId)
    requires s in Exec(k, trace).sems
  {
    var q := Exec(k, trace).sems[s].queue;
    forall i, j :: 0 <= i < j < |q| ==> AsleepSince(k, trace, q[i], s) < AsleepSince(k, trace, q[j], s)
  }

  /** A thread that is in the queue before and after an action has slept on. */
  lemma SleepsOnward(k: State, trace: Trace, t: Tid, s: SemId)
    requires trace != [] && SleepsOn(Exec(k, trace[..|trace| - 1]), t, s)
    ensures AsleepSince(k, trace, t, s) == AsleepSince(k, trace[..|trace| - 1], t, s) < |trace|
  {
    AsleepSinceBound(k, trace[..|trace| - 1], t, s);
  }

  /** Threads in order stay so when the first one leaves or a new one comes last. */
  lemma OrderAfter(k: State, trace: Trace, s: SemId, q: seq<Tid>, q2: seq<Tid>, t: Tid)
    requires q2 == q || (q != [] && q2 == q[1..]) || (q2 == q + [t] && AsleepSince(k, trace, t, s) == |trace|)
    requires forall i, j :: 0 <= i < j < |q| ==> AsleepSince(k, trace, q[i], s) < AsleepSince(k, trace, q[j], s)
    requires forall u :: u in q ==> AsleepSince(k, trace, u, s) < |trace|
    ensures forall i, j :: 0 <= i < j < |q2| ==> AsleepSince(k, trace, q2[i], s) < AsleepSince(k, trace, q2[j], s)
  {
    hide AsleepSince;
    if q != [] && q2 == q[1..] {
      assert forall i :: 0 <= i < |q2| ==> q2[i] == q[i + 1];
    } else if q2 == q + [t] {
      assert forall i :: 0 <= i < |q| ==> q2[i] == q[i] && q[i] in q;
    }
  }

  /** Exactly the threads of its queue sleep on a semaphore. */
  lemma SleepersQueue(k: State, s: SemId)
    requires Partition(k) && s in k.sems
    ensures forall u :: SleepsOn(k, u, s) <==> u in k.sems[s].queue
  {
    assert QueueOk(k, s);
    forall u | SleepsOn(k, u, s) ensures u in k.sems[s].queue { assert Placed(k, u); }
  }

  lemma OrderStep(k: State, trace: Trace, s: SemId)
    requires trace != []
    requires var m := Exec(k, trace[..|trace| - 1]);
      Partition(m) && s in m.sems && InOrder(k, trace[..|trace| - 1], s)
    ensures s in Exec(k, trace).sems && InOrder(k, trace, s)
  {
    hide Step, Partition, Placed;
    var before := trace[..|trace| - 1];
    var m, n := Exec(k, before), Exec(k, trace);
    QueueStep(m, trace[|trace| - 1], s);
    var q := m.sems[s].queue;
    SleepersQueue(m, s);
    forall t | t in q ensures AsleepSince(k, trace, t, s) == AsleepSince(k, before, t, s) < |trace| {
      SleepsOnward(k, trace, t, s);
    }
    OrderAfter(k, trace, s, q, n.sems[s].queue, m.current);
  }

  lemma {:induction false} RunInOrder(main: Tid, values: map<SemId, nat>, trace: Trace, s: SemId)
    requires s in values
    ensures s in Exec(Boot(main, values), trace).sems && InOrder(Boot(main, values), trace, s)
  {
    if trace != [] {
      RunInOrder(main, values, trace[..|trace| - 1], s);
      RunInvariant(main, values, trace[..|trace| - 1]);
      OrderStep(Boot(main, values), trace, s);
    }
  }

  /** In every run V(s) makes exactly one thread ready if any thread sleeps on s, and then it is the one that fell
      asleep first: it goes to the end of the ready list and all others stay as they were. If nobody sleeps on s,
      V moves no thread. */
  lemma LongestSleeperWakes(main: Tid, values: map<SemId, nat>, trace: Trace, s: SemId) returns (t: Tid)
    requires s in values && Enabled(Exec(Boot(main, values), trace), V(s))
    ensures var b, k := Boot(main, values), Exec(Boot(main, values), trace);
      var n := Step(k, V(s));
      if forall u :: !SleepsOn(k, u, s) then n.threads == k.threads && n.ready == k.ready && n.current == k.current
      else
        && SleepsOn(k, t, s) && n.ready == k.ready + [t] && n.current == k.current
        && n.threads == k.threads[t := Thread(Ready, Recheck(s))]
        && forall u :: SleepsOn(k, u, s) && u != t ==> AsleepSince(b, trace, t, s) < AsleepSince(b, trace, u, s)
  {
    var b, k := Boot(main, values), Exec(Boot(main, values), trace);
    RunInOrder(main, values, trace, s);
    RunInvariant(main, values, trace);
    var q := k.sems[s].queue;
    t := if q == [] then 0 else q[0];
    SleepersQueue(k, s);
    hide Partition, AsleepSince;
    forall u | SleepsOn(k, u, s) && u != t ensures AsleepSince(b, trace, t, s) < AsleepSince(b, trace, u, s) {
      var j :| 0 <= j < |q| && q[j] == u;
    }
  }

  // ---- Fork ----

  /** A forked thread stands behind everything that is ready, and the dispatch after those makes it current. */
  lemma ForkedThreadRuns(k: State, t: Tid, trace: Trace)
    requires Enabled(k, Fork(t))
    ensures var n := Step(k, Fork(t));
      var m, d := Exec(n, trace), Dispatches(n, trace);
      && n == k.(threads := k.threads[t := Thread(Ready, Outside)], ready := n.ready)
      && |n.ready| == |k.ready| + 1 && k.ready <= n.ready && n.ready[|k.ready|] == t
      && (d <= |k.ready| ==> |k.ready| - d < |m.ready| && m.ready[|k.ready| - d] == t)
      && (d == |k.ready| + 1 && trace != [] && IsDispatch(Exec(n, trace[..|trace| - 1]), trace[|trace| - 1]) ==>
            m.current == t)
  {
    DispatchedInTurn(Step(k, Fork(t)), trace, |k.ready|);
  }

  // ---- Finish ----

  lemma FinishedStep(m: State, a: Action, t: Tid)
    requires Partition(m) && m.current == t && m.threads[t] == Thread(Blocked, Finished)
    ensures var n := Step(m, a);
      if IsDispatch(m, a) then t !in n.threads && t in n.freed
      else n.current == t && t in n.threads && n.threads[t] == Thread(Blocked, Finished) && n.freed == m.freed
  {
    assert Placed(m, t);
    if a.V? && Enabled(m, a) {
      assert QueueOk(m, a.s);
    }
    if a.Switch? && Enabled(m, a) { SwitchResult(m); }
  }

  lemma FreedStays(m: State, a: Action, t: Tid)
    requires t in m.freed
    ensures t in Step(m, a).freed
  {}

  /** A finished thread stays current, never to run again, until the first dispatch frees it; from then on it is no
      thread of the kernel any more, in every state that may follow. */
  lemma {:induction false} FinishedThreadIsFreed(k: State, trace: Trace)
    requires Partition(k) && k.Executing()
    ensures var t, n := k.current, Step(k, Finish);
      var m := Exec(n, trace);
      && Partition(m)
      && if Dispatches(n, trace) == 0 then
           && m.current == t && t in m.threads && m.threads[t] == Thread(Blocked, Finished) && m.freed == k.freed
         else t !in m.threads && t in m.freed && Times(m.freed, t) == 1
  {
    var t, n := k.current, Step(k, Finish);
    FinishPartition(k);
    if trace != [] {
      var before, a := trace[..|trace| - 1], trace[|trace| - 1];
      var m := Exec(n, before);
      FinishedThreadIsFreed(k, before);
      StepPartition(m, a);
      hide Step, IsDispatch, Placed, QueueOk;
      if Dispatches(n, before) == 0 { FinishedStep(m, a, t); } else { FreedStays(m, a, t); }
      TimesNoDup(Step(m, a).freed, t);
    }
  }
}
