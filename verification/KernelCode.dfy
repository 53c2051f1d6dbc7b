/** The scheduler and semaphore routines as they are written: methods that update the kernel's
    fields in place, each proved to perform one action of KernelModel. */
module KernelCode {
  import opened KernelModel

  datatype Next = Null | Found(t: Tid)

  class Kernel {
    var threads: map<Tid, Thread>
    var currentThread: Tid
    var readyList: seq<Tid>
    var sems: map<SemId, Semaphore>
    var threadToBeDestroyed: Carcass
    var freed: seq<Tid>

    ghost function View(): State
      reads this
    {
      State(threads, currentThread, readyList, sems, threadToBeDestroyed, freed)
    }

    constructor (main: Tid, values: map<SemId, nat>)
      ensures View() == Boot(main, values)
    {
      threads := map[main := Thread(Running, Outside)];
      currentThread := main;
      readyList := [];
      sems := map s | s in values :: Semaphore(values[s], []);
      threadToBeDestroyed := NoCarcass;
      freed := [];
    }

    /** Scheduler::ReadyToRun */
    method ReadyToRun(t: Tid, at: Place)
      modifies this`threads, this`readyList
      ensures View() == Setting(old(View()), t, Ready, at).(ready := old(readyList) + [t])
    {
      threads := threads[t := Thread(Ready, at)];
      readyList := readyList + [t];
    }

    /** Scheduler::FindNextToRun */
    method FindNextToRun() returns (next: Next)
      modifies this`readyList
      ensures next.Null? <==> old(readyList) == []
      ensures next.Null? ==> readyList == []
      ensures next.Found? ==> [next.t] + readyList == old(readyList)
    {
      if readyList == [] {
        next := Null;
      } else {
        next := Found(readyList[0]);
        readyList := readyList[1..];
      }
    }

    /** Scheduler::Run */
    method Run(nextThread: Tid)
      requires nextThread in threads
      modifies this`threads, this`currentThread, this`threadToBeDestroyed, this`freed
      ensures View() == Dispatch(old(View()), nextThread)
    {
      currentThread := nextThread;
      threads := threads[nextThread := threads[nextThread].(status := Running)];
      if threadToBeDestroyed.Carcass? {
        freed := freed + [threadToBeDestroyed.t];
        threads := threads - {threadToBeDestroyed.t};
        threadToBeDestroyed := NoCarcass;
      }
    }

    /** Thread::Fork, after the stack has been allocated. */
    method ForkThread(t: Tid)
      requires Enabled(View(), Fork(t))
      modifies this
      ensures View() == Step(old(View()), Fork(t))
    {
      ReadyToRun(t, Outside);
    }

    /** Thread::Yield */
    method YieldCpu()
      requires Partition(View()) && Enabled(View(), Yield)
      modifies this
      ensures View() == Step(old(View()), Yield)
    {
      var nextThread := FindNextToRun();
      if nextThread.Found? {
        assert nextThread.t in old(readyList);
        ReadyToRun(currentThread, Outside);
        Run(nextThread.t);
      }
    }

    /** One pass through the loop of Semaphore::P: either the thread goes to sleep on the queue,
        or it takes a token and returns. */
    method TestAndTake(s: SemId)
      requires s in sems
      modifies this`threads, this`sems
      ensures View() == TestValue(old(View()), s)
    {
      if sems[s].value == 0 {
        sems := sems[s := sems[s].(queue := sems[s].queue + [currentThread])];
        threads := threads[currentThread := Thread(Blocked, Asleep(s))];
      } else {
        sems := sems[s := sems[s].(value := sems[s].value - 1)];
        threads := threads[currentThread := Thread(Running, Outside)];
      }
    }

    /** Semaphore::P, from its call or from the return of its Sleep. */
    method SemaphoreP(s: SemId)
      requires Enabled(View(), P(s)) || (Enabled(View(), Resume) && threads[currentThread].at == Recheck(s))
      modifies this
      ensures View() == Step(old(View()), if old(threads[currentThread].at).Recheck? then Resume else P(s))
    {
      TestAndTake(s);
    }

    /** Semaphore::V */
    method SemaphoreV(s: SemId)
      requires Enabled(View(), V(s))
      modifies this
      ensures View() == Step(old(View()), V(s))
    {
      if sems[s].queue != [] {
        var t := sems[s].queue[0];
        sems := sems[s := sems[s].(queue := sems[s].queue[1..])];
        ReadyToRun(t, Recheck(s));
      }
      sems := sems[s := sems[s].(value := sems[s].value + 1)];
    }

    /** Thread::Finish, up to its Sleep.  The ASSERT that no thread waits to be destroyed follows
        from the partition of the threads, which every run keeps. */
    method FinishThread()
      requires Partition(View()) && Enabled(View(), Finish)
      modifies this
      ensures View() == Step(old(View()), Finish)
    {
      FinishPartition(View());
      assert threadToBeDestroyed == NoCarcass;
      threadToBeDestroyed := Carcass(currentThread);
      threads := threads[currentThread := Thread(Blocked, Finished)];
    }

    /** The loop of Thread::Sleep once a thread is ready. */
    method SleepSwitch()
      requires Enabled(View(), Switch)
      modifies this
      ensures View() == Step(old(View()), Switch)
    {
      var nextThread := FindNextToRun();
      assert nextThread.t == old(readyList)[0];
      Run(nextThread.t);
    }
  }
}
