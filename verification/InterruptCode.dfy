/** The methods of machine/interrupt.cc, each proved against the operation of InterruptTime with
    the same name.  The list of pending interrupts is the sequence it stands for; LinkedList shows
    that the linked structure keeps to it. */
module InterruptCode {
  import opened LinkedList
  import opened InterruptTime

  /** Scheduling does not look at the machine status. */
  lemma {:induction false} HandlerStatus(c: Clock, m: Mode, rs: seq<Request>)
    ensures ScheduleAll(c.(status := m), rs) == ScheduleAll(c, rs).(status := m)
  {
    if rs != [] { HandlerStatus(c, m, rs[..|rs| - 1]); }
  }

  /** The clock when the handler of e starts. */
  ghost function AtHandler(c: Clock, e: Entry<PendingInterrupt>): Clock {
    c.(fired := c.fired + [e], firedAt := c.firedAt + [c.total], status := SystemMode)
  }

  lemma FireInSystemMode(c: Clock, e: Entry<PendingInterrupt>, h: Handlers)
    ensures var r, d := h(|c.fired|), AtHandler(c, e);
      Fire(c, e, h) == ScheduleAll(d, r.requests).(yieldOnReturn := d.yieldOnReturn || r.wantsYield, status := c.status)
  {
    var r, f := h(|c.fired|), c.(fired := c.fired + [e], firedAt := c.firedAt + [c.total]);
    HandlerStatus(f, SystemMode, r.requests);
    ScheduleAllKeepsDue(f, r.requests);
    hide ScheduleAll, DueCount;
  }

  class Interrupt {
    var pending: Queue
    var totalTicks: int
    var idleTicks: int
    var systemTicks: int
    var userTicks: int
    var status: Mode
    var interruptsOn: bool
    var yieldOnReturn: bool
    var halted: bool
    var inHandler: bool
    var calls: nat            // handlers invoked so far
    var requests: nat         // interrupts scheduled so far
    ghost var log: Queue
    ghost var fired: Queue
    ghost var firedAt: seq<int>

    ghost predicate Valid()
      reads this
    {
      calls == |fired| && requests == |log|
    }

    ghost function View(): Clock
      reads this
    {
      Clock(pending, totalTicks, idleTicks, systemTicks, userTicks,
            status, interruptsOn, yieldOnReturn, halted, log, fired, firedAt)
    }

    constructor ()
      ensures Valid() && View() == Start() && !inHandler
    {
      pending := [];
      totalTicks, idleTicks, systemTicks, userTicks := 0, 0, 0, 0;
      status, interruptsOn, yieldOnReturn, halted, inHandler := SystemMode, false, false, false, false;
      calls, requests := 0, 0;
      log, fired, firedAt := [], [], [];
    }

    method Schedule(r: Request)
      requires Valid()
      modifies this
      ensures Valid() && View() == InterruptTime.Schedule(old(View()), r) && inHandler == old(inHandler)
    {
      var when := totalTicks + r.fromNow;
      var toOccur := Entry(when, PendingInterrupt(r.kind, r.handler, requests, totalTicks));
      pending := InsertSorted(pending, toOccur);
      log := log + [toOccur];
      requests := requests + 1;
    }

    method YieldOnReturn()
      requires Valid() && inHandler
      modifies this`yieldOnReturn
      ensures yieldOnReturn
    {
      yieldOnReturn := true;
    }

    /** What the handler of the interrupt does: a number of calls of Schedule, and perhaps one of
        YieldOnReturn. */
    method RunHandler(r: Reaction)
      requires Valid() && inHandler
      modifies this
      ensures Valid() && inHandler
      ensures View() == ScheduleAll(old(View()), r.requests).(yieldOnReturn := old(yieldOnReturn) || r.wantsYield)
    {
      ghost var start := View();
      hide NewInterrupt, InsertSorted;
      for i := 0 to |r.requests|
        invariant Valid() && inHandler && View() == ScheduleAll(start, r.requests[..i])
      {
        assert r.requests[..i + 1][..i] == r.requests[..i];
        Schedule(r.requests[i]);
      }
      assert r.requests[..|r.requests|] == r.requests;
      ScheduleAllKeepsDue(start, r.requests);
      if r.wantsYield { YieldOnReturn(); }
    }

    method EnterHandler(ghost e: Entry<PendingInterrupt>)
      requires Valid() && !inHandler
      modifies this
      ensures Valid() && View() == AtHandler(old(View()), e) && inHandler
    {
      calls, fired, firedAt := calls + 1, fired + [e], firedAt + [totalTicks];
      inHandler, status := true, SystemMode;
    }

    /** The handler runs in the kernel, whatever the machine was doing. */
    method CallHandler(ghost e: Entry<PendingInterrupt>, h: Handlers)
      requires Valid() && !inHandler
      modifies this
      ensures Valid() && View() == Fire(old(View()), e, h) && !inHandler
    {
      ghost var before := View();
      var r, was := h(calls), status;
      assert r == h(|before.fired|);
      hide ScheduleAll, AtHandler, Fire;
      EnterHandler(e);
      RunHandler(r);
      ghost var after := View();
      FireInSystemMode(before, e, h);
      assert after.(status := was) == Fire(before, e, h);
      inHandler, status := false, was;
      assert View() == after.(status := was);
    }

    method CheckIfDue(advanceClock: bool, h: Handlers) returns (didFire: bool)
      requires Valid() && !inHandler && !interruptsOn
      modifies this
      ensures Valid() && !inHandler
      ensures Check(View(), didFire) == InterruptTime.CheckIfDue(old(View()), advanceClock, h)
    {
      hide InsertSorted, Fire;
      if pending == [] { return false; }
      var toOccur := pending[0];
      var when := toOccur.key;
      pending := pending[1..];
      if advanceClock && when > totalTicks {
        idleTicks, totalTicks := idleTicks + (when - totalTicks), when;
      } else if when > totalTicks {
        pending := InsertSorted(pending, toOccur);
        return false;
      }
      if status.IdleMode? && toOccur.item.kind.TimerInt? && pending == [] {
        pending := InsertSorted(pending, toOccur);
        return false;
      }
      CallHandler(toOccur, h);
      return true;
    }

    /** while (CheckIfDue(FALSE)) ; */
    method DrainDue(h: Handlers)
      requires Valid() && !inHandler && !interruptsOn
      modifies this
      ensures Valid() && !inHandler && View() == Drain(old(View()), h)
    {
      var more := true;
      while more
        invariant Valid() && !inHandler && !interruptsOn
        invariant if more then Drain(View(), h) == Drain(old(View()), h) else View() == Drain(old(View()), h)
        decreases more, DueCount(View().pending, View().total)
      {
        ghost var before := View();
        FiringDrains(before, h);
        FiredLevel(before, false, h);
        more := CheckIfDue(false, h);
      }
    }

    method AdvanceTime()
      modifies this`totalTicks, this`systemTicks, this`userTicks
      ensures View() == Advance(old(View()))
    {
      if status.SystemMode? {
        totalTicks, systemTicks := totalTicks + SYSTEM_TICK, systemTicks + SYSTEM_TICK;
      } else {
        totalTicks, userTicks := totalTicks + USER_TICK, userTicks + USER_TICK;
      }
    }

    method OneTick(h: Handlers)
      requires Valid() && !inHandler
      modifies this
      ensures Valid() && !inHandler && View() == InterruptTime.OneTick(old(View()), h)
    {
      AdvanceTime();
      ghost var advanced := View();
      interruptsOn := false;
      DrainDue(h);
      assert View() == Drain(advanced.(interruptsOn := false), h);
      hide Drain, Advance;
      interruptsOn := true;
      if yieldOnReturn {
        yieldOnReturn := false;
      }
    }

    /** Interrupt handlers may not enable interrupts. */
    method SetLevel(now: bool, h: Handlers) returns (was: bool)
      requires Valid() && (now ==> !inHandler)
      modifies this
      ensures Valid() && was == old(interruptsOn) && inHandler == old(inHandler)
      ensures View() == InterruptTime.SetLevel(old(View()), now, h)
    {
      was := interruptsOn;
      interruptsOn := now;
      if now && !was {
        OneTick(h);
      }
    }

    method Idle(h: Handlers)
      requires Valid() && !inHandler && !interruptsOn
      modifies this
      ensures Valid() && !inHandler && View() == InterruptTime.Idle(old(View()), h)
    {
      status := IdleMode;
      FiredLevel(View(), true, h);
      var didFire := CheckIfDue(true, h);
      if didFire {
        DrainDue(h);
        yieldOnReturn := false;
        status := SystemMode;
      } else {
        halted := true;
      }
    }
  }
}
