/** The synchronous disk of filesys/synchdisk.cc on the asynchronous one of machine/disk.cc, used
    by any number of threads while completion interrupts arrive at any time.

    Lock::Acquire, Lock::Release and Semaphore::P/V are single steps, which LockModel and
    KernelModel justify.  A request moves the data at once; the disk stays active until the
    completion interrupt. */
module SynchDiskModel {

  const NUM_SECTORS := 1024
  type Sector = s: nat | s < NUM_SECTORS witness 0
  type Data = seq<int>

  datatype Op = ReadSector(sector: Sector) | WriteSector(sector: Sector, data: Data)

  /** A request that was accepted: who made it and, for a read, what it delivered. */
  datatype Event = Event(tid: nat, op: Op, result: Data)

  datatype Pc =
    | Idle
    | Acquire(op: Op, since: nat)                       // since: requests made before the call
    | Request(op: Op, since: nat)
    | Wait(op: Op, since: nat, serial: nat, buffer: Data)     // semaphore->P
    | Release(op: Op, since: nat, serial: nat, buffer: Data)
    | AssertFailed                                      // ASSERT(!active) did not hold

  datatype Holder = Free | HeldBy(tid: nat)

  datatype Device = Device(
    holder: Holder,
    sem: nat,
    active: bool,
    sectors: seq<Data>,
    scheduled: seq<nat>,   // serial numbers of requests whose interrupt is pending
    completed: seq<nat>,   // serial numbers whose interrupt has been handled
    log: seq<Event>)

  datatype Move = Blocked | Go(next: Pc, d: Device)

  predicate WellSized(d: Device) { |d.sectors| == NUM_SECTORS }

  function Apply(sectors: seq<Data>, op: Op): seq<Data>
    requires |sectors| == NUM_SECTORS
  {
    match op
    case ReadSector(_) => sectors
    case WriteSector(s, x) => sectors[s := x]
  }

  function Outcome(sectors: seq<Data>, op: Op): Data
    requires |sectors| == NUM_SECTORS
  {
    match op
    case ReadSector(s) => sectors[s]
    case WriteSector(_, x) => x
  }

  /** Disk::ReadRequest and Disk::WriteRequest after their ASSERT. */
  function Accept(d: Device, t: nat, op: Op): Device
    requires WellSized(d)
  {
    d.(active := true, sectors := Apply(d.sectors, op), scheduled := d.scheduled + [|d.log|],
       log := d.log + [Event(t, op, Outcome(d.sectors, op))])
  }

  function Exec(d: Device, t: nat, p: Pc, op: Op): Move
    requires WellSized(d)
  {
    match p
    case Idle => Go(Acquire(op, |d.log|), d)
    case Acquire(o, n) => if d.holder.Free? then Go(Request(o, n), d.(holder := HeldBy(t))) else Blocked
    case Request(o, n) =>
      if d.active then Go(AssertFailed, d)
      else Go(Wait(o, n, |d.log|, Outcome(d.sectors, o)), Accept(d, t, o))
    case Wait(o, n, k, x) => if d.sem > 0 then Go(Release(o, n, k, x), d.(sem := d.sem - 1)) else Blocked
    case Release(_, _, _, _) => Go(Idle, d.(holder := Free))
    case AssertFailed => Blocked
  }

  /** HandleInterrupt and then RequestDone, for the interrupt number i of those scheduled. */
  function Complete(d: Device, i: nat): Device {
    if i < |d.scheduled| then
      d.(active := false, sem := d.sem + 1, completed := d.completed + [d.scheduled[i]],
         scheduled := d.scheduled[..i] + d.scheduled[i + 1..])
    else d
  }

  datatype State = State(d: Device, pcs: map<nat, Pc>) {
    function PcOf(t: nat): Pc { if t in pcs then pcs[t] else Idle }
  }

  datatype Choice = Thread(tid: nat, op: Op) | Interrupt(i: nat)
  type Schedule = seq<Choice>

  function Step(s: State, c: Choice): State
    requires WellSized(s.d)
  {
    match c
    case Interrupt(i) => s.(d := Complete(s.d, i))
    case Thread(t, op) =>
      match Exec(s.d, t, s.PcOf(t), op)
      case Blocked => s
      case Go(q, d) => State(d, s.pcs[t := q])
  }

  function Initial(sectors: seq<Data>): State {
    State(Device(Free, 0, false, sectors, [], [], []), map[])
  }

  function Run(sectors: seq<Data>, sched: Schedule): (s: State)
    requires |sectors| == NUM_SECTORS
    ensures WellSized(s.d)
  {
    if sched == [] then Initial(sectors)
    else Step(Run(sectors, sched[..|sched| - 1]), sched[|sched| - 1])
  }

  // ---- The sequential disk ----

  /** The disk after the logged calls, executed one after the other. */
  function Replay(sectors: seq<Data>, log: seq<Event>): (r: seq<Data>)
    requires |sectors| == NUM_SECTORS
    ensures |r| == NUM_SECTORS
  {
    if log == [] then sectors else Apply(Replay(sectors, log[..|log| - 1]), log[|log| - 1].op)
  }

  /** Every read in the log delivers what the sequential disk holds at that point. */
  ghost predicate Sequential(sectors: seq<Data>, log: seq<Event>)
    requires |sectors| == NUM_SECTORS
  {
    forall i :: 0 <= i < |log| ==> log[i].result == Outcome(Replay(sectors, log[..i]), log[i].op)
  }

  // ---- The invariant ----

  predicate HasLock(p: Pc) { p.Request? || p.Wait? || p.Release? }

  /** No request is under way. */
  predicate Quiet(d: Device) {
    !d.active && d.sem == 0 && d.scheduled == []
  }

  /** What the thread at p knows about the device. */
  predicate Knows(d: Device, t: nat, p: Pc) {
    match p
    case Idle => true
    case Acquire(_, n) => n <= |d.log|
    case Request(_, n) => n <= |d.log| && Quiet(d)
    case Wait(o, n, k, x) =>
      && n <= k == |d.log| - 1 && d.log[k] == Event(t, o, x)
      && ((d.active && d.sem == 0 && d.scheduled == [k])
        || (!d.active && d.sem == 1 && d.scheduled == [] && k in d.completed))
    case Release(o, n, k, x) => n <= k == |d.log| - 1 && d.log[k] == Event(t, o, x) && Quiet(d) && k in d.completed
    case AssertFailed => false
  }

  ghost predicate Inv(sectors: seq<Data>, s: State)
    requires |sectors| == NUM_SECTORS
  {
    && WellSized(s.d)
    && (forall t :: HasLock(s.PcOf(t)) <==> s.d.holder == HeldBy(t))
    && (forall t :: Knows(s.d, t, s.PcOf(t)))
    && (s.d.holder.Free? ==> Quiet(s.d))
    && s.d.sectors == Replay(sectors, s.d.log)
    && Sequential(sectors, s.d.log)
  }

  lemma AcceptIsSequential(sectors: seq<Data>, d: Device, t: nat, op: Op)
    requires |sectors| == NUM_SECTORS && WellSized(d)
    requires d.sectors == Replay(sectors, d.log) && Sequential(sectors, d.log)
    ensures var e := Accept(d, t, op); e.sectors == Replay(sectors, e.log) && Sequential(sectors, e.log)
  {
    var log := Accept(d, t, op).log;
    assert log[..|log| - 1] == d.log;
    forall i | 0 <= i < |log| ensures log[i].result == Outcome(Replay(sectors, log[..i]), log[i].op) {
      if i < |d.log| { assert log[..i] == d.log[..i]; }
    }
  }

  /** One statement of t: what t knows next, and what the others still know. */
  lemma ExecKeeps(d: Device, t: nat, p: Pc, op: Op)
    requires WellSized(d) && Knows(d, t, p) && (HasLock(p) <==> d.holder == HeldBy(t))
    requires d.holder.Free? ==> Quiet(d)
    ensures var r := Exec(d, t, p, op); r.Go? ==>
      && WellSized(r.d)
      && Knows(r.d, t, r.next)
      && (HasLock(r.next) <==> r.d.holder == HeldBy(t))
      && (forall u :: u != t ==> (r.d.holder == HeldBy(u) <==> d.holder == HeldBy(u)))
      && (r.d.holder.Free? ==> Quiet(r.d))
      && (forall u, q :: Knows(d, u, q) && !HasLock(q) ==> Knows(r.d, u, q))
      && (!HasLock(p) ==> forall u, q :: Knows(d, u, q) ==> Knows(r.d, u, q))
  {}

  lemma ThreadStepKeepsInv(sectors: seq<Data>, s: State, t: nat, op: Op)
    requires |sectors| == NUM_SECTORS && Inv(sectors, s)
    ensures Inv(sectors, Step(s, Thread(t, op)))
  {
    var n := Step(s, Thread(t, op));
    var r := Exec(s.d, t, s.PcOf(t), op);
    if r.Go? {
      ExecKeeps(s.d, t, s.PcOf(t), op);
      if s.PcOf(t).Request? { AcceptIsSequential(sectors, s.d, t, s.PcOf(t).op); }
      forall u ensures (HasLock(n.PcOf(u)) <==> n.d.holder == HeldBy(u)) && Knows(n.d, u, n.PcOf(u)) {
        assert HasLock(s.PcOf(u)) <==> s.d.holder == HeldBy(u);
        if u != t { assert n.PcOf(u) == s.PcOf(u) && Knows(s.d, u, s.PcOf(u)); }
      }
    }
  }

  lemma InterruptKeepsInv(sectors: seq<Data>, s: State, i: nat)
    requires |sectors| == NUM_SECTORS && Inv(sectors, s)
    ensures Inv(sectors, Step(s, Interrupt(i)))
  {
    if i < |s.d.scheduled| {
      var h := s.d.holder.tid;
      assert HasLock(s.PcOf(h)) && Knows(s.d, h, s.PcOf(h));
      forall u ensures Knows(Complete(s.d, i), u, s.PcOf(u)) {
        assert Knows(s.d, u, s.PcOf(u)) && (HasLock(s.PcOf(u)) <==> u == h);
      }
    }
  }

  lemma {:induction false} RunKeepsInv(sectors: seq<Data>, sched: Schedule)
    requires |sectors| == NUM_SECTORS
    ensures Inv(sectors, Run(sectors, sched))
  {
    if sched != [] {
      RunKeepsInv(sectors, sched[..|sched| - 1]);
      match sched[|sched| - 1]
      case Thread(t, op) => ThreadStepKeepsInv(sectors, Run(sectors, sched[..|sched| - 1]), t, op);
      case Interrupt(i) => InterruptKeepsInv(sectors, Run(sectors, sched[..|sched| - 1]), i);
    }
  }

  // ---- Theorems about every run ----

  /** Whatever the threads do and whenever the interrupts come, ASSERT(!active) holds. */
  lemma DiskNeverAskedTwice(sectors: seq<Data>, sched: Schedule)
    requires |sectors| == NUM_SECTORS
    ensures var s := Run(sectors, sched);
      forall t :: !s.PcOf(t).AssertFailed? && (s.PcOf(t).Request? ==> !s.d.active)
  {
    RunKeepsInv(sectors, sched);
    var s := Run(sectors, sched);
    forall t ensures !s.PcOf(t).AssertFailed? && (s.PcOf(t).Request? ==> !s.d.active) {
      assert Knows(s.d, t, s.PcOf(t));
    }
  }

  /** A call returns only after the interrupt of its own request, and hands back the result that
      the log holds for it; the request was made during the call. */
  lemma ReturnsAfterOwnInterrupt(sectors: seq<Data>, sched: Schedule, t: nat)
    requires |sectors| == NUM_SECTORS && Run(sectors, sched).PcOf(t).Release?
    ensures var s := Run(sectors, sched); var p := s.PcOf(t);
      && p.since <= p.serial < |s.d.log|
      && p.serial in s.d.completed
      && s.d.log[p.serial] == Event(t, p.op, p.buffer)
  {
    RunKeepsInv(sectors, sched);
    assert Knows(Run(sectors, sched).d, t, Run(sectors, sched).PcOf(t));
  }

  /** The calls behave as if executed one at a time, in the order of the log: the disk is what
      replaying the log gives, and each call delivered what it would have delivered there. */
  lemma CallsAreSequential(sectors: seq<Data>, sched: Schedule)
    requires |sectors| == NUM_SECTORS
    ensures var d := Run(sectors, sched).d;
      && d.sectors == Replay(sectors, d.log)
      && (forall i :: 0 <= i < |d.log| ==> d.log[i].result == Outcome(Replay(sectors, d.log[..i]), d.log[i].op))
  {
    RunKeepsInv(sectors, sched);
  }

  /** After the first n requests of the log the sector holds x: the data of the last write to it, or what was there
      at the beginning if there was none. */
  ghost predicate Holds(sectors: seq<Data>, log: seq<Event>, n: nat, sector: Sector, x: Data)
    requires |sectors| == NUM_SECTORS && n <= |log|
  {
    || (exists j :: 0 <= j < n && log[j].op == WriteSector(sector, x) && NotWritten(log, j + 1, n, sector))
    || (x == sectors[sector] && NotWritten(log, 0, n, sector))
  }

  ghost predicate NotWritten(log: seq<Event>, from: nat, to: nat, sector: Sector)
    requires to <= |log|
  {
    forall j :: from <= j < to ==> !(log[j].op.WriteSector? && log[j].op.sector == sector)
  }

  lemma {:induction false} ReplayHolds(sectors: seq<Data>, log: seq<Event>, n: nat, sector: Sector)
    requires |sectors| == NUM_SECTORS && n <= |log|
    ensures Holds(sectors, log, n, sector, Replay(sectors, log[..n])[sector])
  {
    if n > 0 {
      assert log[..n][..n - 1] == log[..n - 1];
      ReplayHolds(sectors, log, n - 1, sector);
      var x := Replay(sectors, log[..n - 1])[sector];
      if log[n - 1].op.WriteSector? && log[n - 1].op.sector == sector {
        assert NotWritten(log, n, n, sector);
      } else if !(x == sectors[sector] && NotWritten(log, 0, n - 1, sector)) {
        var j :| 0 <= j < n - 1 && log[j].op == WriteSector(sector, x) && NotWritten(log, j + 1, n - 1, sector);
        assert NotWritten(log, j + 1, n, sector);
      }
    }
  }

  /** In every run each read delivers the data of the last write to its sector that was accepted before it, or the
      initial contents; and so does the disk in the end. */
  lemma ReadsSeeLastWrite(sectors: seq<Data>, sched: Schedule)
    requires |sectors| == NUM_SECTORS
    ensures var d := Run(sectors, sched).d;
      && (forall i :: 0 <= i < |d.log| && d.log[i].op.ReadSector? ==>
            Holds(sectors, d.log, i, d.log[i].op.sector, d.log[i].result))
      && (forall sector: Sector :: Holds(sectors, d.log, |d.log|, sector, d.sectors[sector]))
  {
    var d := Run(sectors, sched).d;
    CallsAreSequential(sectors, sched);
    hide Run, Holds, Replay;
    forall i | 0 <= i < |d.log| && d.log[i].op.ReadSector?
      ensures Holds(sectors, d.log, i, d.log[i].op.sector, d.log[i].result)
    {
      ReplayHolds(sectors, d.log, i, d.log[i].op.sector);
    }
    forall sector: Sector ensures Holds(sectors, d.log, |d.log|, sector, d.sectors[sector]) {
      ReplayHolds(sectors, d.log, |d.log|, sector);
      assert d.log[..|d.log|] == d.log;
    }
  }

  predicate CanMove(s: State, t: nat)
    requires WellSized(s.d)
  {
    !s.PcOf(t).Idle? && Exec(s.d, t, s.PcOf(t), ReadSector(0)).Go?
  }

  /** While a call is in progress, a thread can move or a completion interrupt is on its way. */
  lemma DiskProgress(sectors: seq<Data>, sched: Schedule, t: nat)
    requires |sectors| == NUM_SECTORS && !Run(sectors, sched).PcOf(t).Idle?
    ensures var s := Run(sectors, sched); s.d.scheduled != [] || exists u :: CanMove(s, u)
  {
    RunKeepsInv(sectors, sched);
    var s := Run(sectors, sched);
    assert Knows(s.d, t, s.PcOf(t));
    if s.d.holder.Free? {
      assert !HasLock(s.PcOf(t));
      assert CanMove(s, t);
    } else {
      var h := s.d.holder.tid;
      assert HasLock(s.PcOf(h)) && Knows(s.d, h, s.PcOf(h));
      assert s.d.scheduled != [] || CanMove(s, h);
    }
  }
}
