/** The table of user thread ids of an address space (userprog/addrspace.cc). */
module ThreadTable {

  /** UserThreadMax: the macros expand to 1024 * 2 / 128 * 3, read from left to right. */
  const USER_THREAD_MAX: nat := 1024 * 2 / 128 * 3

  /** The table without the first occurrence of an id, the rest moved up. */
  function Without(ids: seq<nat>, id: nat): (r: seq<nat>) {
    if ids == [] then [] else if ids[0] == id then ids[1..] else [ids[0]] + Without(ids[1..], id)
  }

  lemma {:induction false} WithoutAt(ids: seq<nat>, id: nat, i: nat)
    requires i < |ids| && ids[i] == id && (forall k :: 0 <= k < i ==> ids[k] != id)
    ensures Without(ids, id) == ids[..i] + ids[i + 1..]
  {
    if i > 0 {
      WithoutAt(ids[1..], id, i - 1);
      assert ids[..i] == [ids[0]] + ids[1..][..i - 1];
      assert ids[i + 1..] == ids[1..][i..];
    }
  }

  lemma {:induction false} WithoutAbsent(ids: seq<nat>, id: nat)
    requires id !in ids
    ensures Without(ids, id) == ids
  {
    if ids != [] { WithoutAbsent(ids[1..], id); }
  }

  predicate Distinct(ids: seq<nat>) {
    forall i, j :: 0 <= i < j < |ids| ==> ids[i] != ids[j]
  }

  /** Removing an id from a table without repetitions takes out that id and nothing else. */
  lemma WithoutRemoves(ids: seq<nat>, id: nat)
    requires Distinct(ids)
    ensures Distinct(Without(ids, id))
    ensures forall x :: x in Without(ids, id) <==> x in ids && x != id
    ensures |Without(ids, id)| == if id in ids then |ids| - 1 else |ids|
  {
    if id in ids {
      var i :| 0 <= i < |ids| && ids[i] == id;
      WithoutAt(ids, id, i);
      assert forall x :: x in ids ==> x == id || x in ids[..i] || x in ids[i + 1..];
    } else {
      WithoutAbsent(ids, id);
    }
  }

  class Table {
    const threadIDs: array<nat>
    var nbThreads: nat
    var maxTIDGiven: nat

    ghost predicate Valid()
      reads this
    {
      threadIDs.Length == USER_THREAD_MAX && nbThreads <= USER_THREAD_MAX
    }

    ghost function Ids(): (s: seq<nat>)
      requires Valid()
      reads this, threadIDs
    {
      threadIDs[..nbThreads]
    }

    /** The table already contains the main thread. */
    constructor ()
      ensures Valid() && Ids() == [1] && maxTIDGiven == 1
    {
      threadIDs := new nat[USER_THREAD_MAX];
      nbThreads, maxTIDGiven := 1, 1;
      new;
      threadIDs[0] := 1;
    }

    method ContainThreadID(id: nat) returns (found: bool)
      requires Valid()
      ensures found <==> id in Ids()
    {
      for i := 0 to nbThreads
        invariant forall k :: 0 <= k < i ==> threadIDs[k] != id
      {
        if threadIDs[i] == id {
          assert Ids()[i] == id;
          return true;
        }
      }
      return false;
    }

    /** The caller has checked that there is room, as do_UserThreadCreate does. */
    method AddThreadID(id: nat)
      requires Valid() && nbThreads < USER_THREAD_MAX
      modifies this`nbThreads, threadIDs
      ensures Valid() && Ids() == if id in old(Ids()) then old(Ids()) else old(Ids()) + [id]
    {
      var found := ContainThreadID(id);
      if found { return; }
      threadIDs[nbThreads] := id;
      nbThreads := nbThreads + 1;
    }

    /** Moves the entries behind position i up by one. */
    method ShiftUp(i: nat)
      requires Valid() && i < nbThreads
      modifies this`nbThreads, threadIDs
      ensures Valid() && Ids() == old(Ids())[..i] + old(Ids())[i + 1..]
    {
      var j := i;
      while j < nbThreads - 1
        invariant i <= j <= nbThreads - 1 && nbThreads == old(nbThreads)
        invariant forall k :: 0 <= k < i ==> threadIDs[k] == old(threadIDs[k])
        invariant forall k :: i <= k < j ==> threadIDs[k] == old(threadIDs[k + 1])
        invariant forall k :: j <= k < nbThreads ==> threadIDs[k] == old(threadIDs[k])
      {
        threadIDs[j] := threadIDs[j + 1];
        j := j + 1;
      }
      nbThreads := nbThreads - 1;
    }

    /** Returns whether the id was there, which is when the broadcasts happen. */
    method RemoveThreadID(id: nat) returns (removed: bool)
      requires Valid()
      modifies this`nbThreads, threadIDs
      ensures Valid() && Ids() == Without(old(Ids()), id)
      ensures removed <==> id in old(Ids())
    {
      for i := 0 to nbThreads
        invariant Ids() == old(Ids()) && nbThreads == old(nbThreads)
        invariant forall k :: 0 <= k < i ==> Ids()[k] != id
      {
        if threadIDs[i] == id {
          assert Ids()[i] == id;
          WithoutAt(Ids(), id, i);
          ShiftUp(i);
          return true;
        }
      }
      WithoutAbsent(Ids(), id);
      return false;
    }

    method GetNextThreadID() returns (id: nat)
      modifies this`maxTIDGiven
      ensures id == maxTIDGiven == old(maxTIDGiven) + 1
    {
      maxTIDGiven := maxTIDGiven + 1;
      id := maxTIDGiven;
    }
  }
}

/** Creating, ending and joining user threads (userprog/userthread.cc) in one address space, by any
    number of threads in any interleaving.

    A thread is named by its id.  Lock operations are single steps (LockModel); so is Broadcast,
    which ConditionModel shows to hand one token to every registered waiter while it keeps others
    away from the counter. */
module JoinModel {
  import opened Counting
  import opened ThreadTable

  datatype Op = Create | Exit | Join(target: nat)

  datatype Pc =
    | Unborn
    | Running                      // in user code
    | CrAcquire
    | CrAdd                        // the limit test, GetNextThreadID, AddThreadID
    | CrRefuse                     // release the lock and return -1
    | CrRelease(tid: nat)
    | CrFork(tid: nat)
    | ExAcquire
    | ExRemove                     // RemoveThreadID and its broadcast
    | ExRelease
    | Exited
    | JnAcquire(target: nat)
    | JnCheck(target: nat)         // if (! ContainThreadID(t))
    | JnRefuse(target: nat)        // release the lock and return -1
    | JnTest(target: nat)          // while (ContainThreadID(t))
    | JnRegister(target: nat)      // in Wait: totalSleepers++
    | JnUnlock(target: nat)        // in Wait: conditionLock->Release
    | JnSleep(target: nat)         // in Wait: sleepLock->P
    | JnRelock(target: nat)        // in Wait: conditionLock->Acquire
    | JnRelease(target: nat)       // release the lock and return 0

  datatype Holder = Free | HeldBy(tid: nat)
  datatype Cond = Cond(sleepers: nat, tokens: nat)
  datatype Result = Result(joiner: nat, target: nat, value: int)

  datatype Space = Space(
    holder: Holder,
    ids: seq<nat>,
    maxGiven: nat,
    conds: map<nat, Cond>,
    outOfTable: bool,       // threadConditions was indexed outside its bounds
    removed: set<nat>,      // ids taken out of the table so far
    given: seq<nat>,        // ids handed to new threads so far
    results: seq<Result>)   // what the joins returned

  function CondOf(sp: Space, t: nat): Cond { if t in sp.conds then sp.conds[t] else Cond(0, 0) }

  datatype Move = Blocked | Go(next: Pc, sp: Space)

  function Return(sp: Space, u: nat, t: nat, value: int): Space { sp.(results := sp.results + [Result(u, t, value)]) }

  /** An index into threadConditions: outside the table the effect is undefined, and stops here. */
  function WithCond(sp: Space, t: nat, c: Cond): Space {
    if t < USER_THREAD_MAX then sp.(conds := sp.conds[t := c]) else sp.(outOfTable := true)
  }

  function RemoveId(sp: Space, u: nat): Space {
    if u !in sp.ids then sp
    else
      var c := CondOf(sp, u);
      WithCond(sp.(ids := Without(sp.ids, u), removed := sp.removed + {u}), u, Cond(0, c.tokens + c.sleepers))
  }

  function AddId(sp: Space): Space {
    var tid := sp.maxGiven + 1;
    sp.(maxGiven := tid, given := sp.given + [tid], ids := if tid in sp.ids then sp.ids else sp.ids + [tid])
  }

  function Exec(sp: Space, u: nat, p: Pc, op: Op): Move {
    match p
    case Unborn => Blocked
    case Running =>
      (match op
       case Create => Go(CrAcquire, sp)
       case Exit => Go(ExAcquire, sp)
       case Join(t) => if t == u then Go(Running, Return(sp, u, t, -1)) else Go(JnAcquire(t), sp))
    case CrAcquire => if sp.holder.Free? then Go(CrAdd, sp.(holder := HeldBy(u))) else Blocked
    case CrAdd => if |sp.ids| + 1 > USER_THREAD_MAX then Go(CrRefuse, sp) else Go(CrRelease(sp.maxGiven + 1), AddId(sp))
    case CrRefuse => Go(Running, sp.(holder := Free))
    case CrRelease(t) => Go(CrFork(t), sp.(holder := Free))
    case CrFork(t) => Go(Running, sp)
    case ExAcquire => if sp.holder.Free? then Go(ExRemove, sp.(holder := HeldBy(u))) else Blocked
    case ExRemove => Go(ExRelease, RemoveId(sp, u))
    case ExRelease => Go(Exited, sp.(holder := Free))
    case Exited => Blocked
    case JnAcquire(t) => if sp.holder.Free? then Go(JnCheck(t), sp.(holder := HeldBy(u))) else Blocked
    case JnCheck(t) => Go(if t in sp.ids then JnTest(t) else JnRefuse(t), sp)
    case JnRefuse(t) => Go(Running, Return(sp, u, t, -1).(holder := Free))
    case JnTest(t) => Go(if t in sp.ids then JnRegister(t) else JnRelease(t), sp)
    case JnRegister(t) => var c := CondOf(sp, t); Go(JnUnlock(t), WithCond(sp, t, c.(sleepers := c.sleepers + 1)))
    case JnUnlock(t) => Go(JnSleep(t), sp.(holder := Free))
    case JnSleep(t) =>
      var c := CondOf(sp, t);
      if c.tokens > 0 then Go(JnRelock(t), WithCond(sp, t, c.(tokens := c.tokens - 1))) else Blocked
    case JnRelock(t) => if sp.holder.Free? then Go(JnTest(t), sp.(holder := HeldBy(u))) else Blocked
    case JnRelease(t) => Go(Running, Return(sp, u, t, 0).(holder := Free))
  }

  datatype State = State(sp: Space, pcs: map<nat, Pc>) {
    /** Only the main thread, whose id is 1, exists from the start. */
    function PcOf(u: nat): Pc { if u in pcs then pcs[u] else Unborn }
  }

  function Step(s: State, u: nat, op: Op): State {
    if s.sp.outOfTable then s else
    match Exec(s.sp, u, s.PcOf(u), op)
    case Blocked => s
    case Go(q, sp) =>
      var moved := s.pcs[u := q];
      State(sp, if s.PcOf(u).CrFork? then moved[s.PcOf(u).tid := Running] else moved)
  }

  type Schedule = seq<(nat, Op)>

  function Initial(): State {
    State(Space(Free, [1], 1, map[], false, {}, [], []), map[1 := Running])
  }

  function Run(sched: Schedule): State {
    if sched == [] then Initial()
    else var last := sched[|sched| - 1]; Step(Run(sched[..|sched| - 1]), last.0, last.1)
  }

  // ---- The invariant ----

  predicate HasLock(p: Pc) {
    p.CrAdd? || p.CrRefuse? || p.CrRelease? || p.ExRemove? || p.ExRelease? || p.JnCheck? || p.JnRefuse? ||
    p.JnTest? || p.JnRegister? || p.JnUnlock? || p.JnRelease?
  }

  /** Waits on the condition of t: registered and not past sleepLock->P. */
  predicate WaitsFor(p: Pc, t: nat) { p == JnUnlock(t) || p == JnSleep(t) }
  function Waits(t: nat): Pc -> bool { (p: Pc) => WaitsFor(p, t) }

  /** Is about to fork the thread with id p.tid. */
  predicate Bears(p: Pc) { p.CrRelease? || p.CrFork? }
  predicate SameChild(p: Pc, q: Pc) { Bears(p) && Bears(q) && p.tid == q.tid }

  predicate TableOk(sp: Space) {
    && Distinct(sp.ids) && |sp.ids| <= USER_THREAD_MAX && 1 <= sp.maxGiven
    && (forall t :: t in sp.ids ==> t <= sp.maxGiven && t !in sp.removed)
    && (forall t :: t in sp.removed ==> t <= sp.maxGiven)
    && |sp.given| == sp.maxGiven - 1
    && (forall i :: 0 <= i < |sp.given| ==> sp.given[i] == i + 2)
  }

  predicate Knows(sp: Space, p: Pc) {
    && (p.JnTest? || p.JnRegister? || p.JnUnlock? || p.JnSleep? || p.JnRelock? ==>
      p.target in sp.ids || p.target in sp.removed)
    && (p.JnRegister? ==> p.target in sp.ids)
    && (p.JnRelease? ==> p.target in sp.removed)
  }

  predicate ChildReady(s: State, p: Pc) {
    Bears(p) ==> 1 < p.tid <= s.sp.maxGiven && s.PcOf(p.tid).Unborn?
  }

  /** The thread to be forked does not exist yet, and no two threads fork the same one. */
  ghost predicate Births(s: State) {
    && (forall u: nat :: ChildReady(s, s.PcOf(u)))
    && (forall u: nat, v: nat :: u != v ==> !SameChild(s.PcOf(u), s.PcOf(v)))
    && (forall u: nat :: u > s.sp.maxGiven ==> s.PcOf(u).Unborn?)
  }

  /** Tokens and sleepers of every condition account for the threads that wait there, and nobody
      sleeps uncounted once the id is gone. */
  ghost predicate Accounted(s: State) {
    forall t :: CondOf(s.sp, t).sleepers + CondOf(s.sp, t).tokens == Count(s.pcs, Waits(t))
             && (t in s.sp.removed ==> CondOf(s.sp, t).sleepers == 0)
  }

  predicate SoundResults(sp: Space) {
    forall r :: r in sp.results && r.value == 0 ==> r.target in sp.removed
  }

  ghost predicate Exclusion(s: State) {
    forall u :: HasLock(s.PcOf(u)) <==> s.sp.holder == HeldBy(u)
  }

  ghost predicate Inv(s: State) {
    && Exclusion(s)
    && (forall u :: Knows(s.sp, s.PcOf(u)))
    && TableOk(s.sp)
    && Births(s)
    && (s.sp.outOfTable || Accounted(s))
    && SoundResults(s.sp)
  }

  // ---- Every step keeps it ----

  /** What RemoveThreadID does to the table. */
  lemma RemoveFacts(sp: Space, u: nat)
    requires TableOk(sp)
    ensures var n := RemoveId(sp, u);
      && TableOk(n) && n.maxGiven == sp.maxGiven && n.results == sp.results && n.holder == sp.holder
      && (forall t :: t in n.ids <==> t in sp.ids && t != u)
      && n.removed == sp.removed + (if u in sp.ids then {u} else {})
  {
    WithoutRemoves(sp.ids, u);
  }

  /** A new id is above all the others. */
  lemma AddFacts(sp: Space)
    requires TableOk(sp) && |sp.ids| < USER_THREAD_MAX
    ensures var n := AddId(sp);
      && TableOk(n) && n.maxGiven == sp.maxGiven + 1 && n.results == sp.results && n.holder == sp.holder
      && n.removed == sp.removed && n.ids == sp.ids + [n.maxGiven]
  {}

  /** Statements outside the table. */
  lemma OtherFieldsKeepTable(sp: Space, u: nat, p: Pc, op: Op)
    requires TableOk(sp) && !p.ExRemove? && !(p.CrAdd? && |sp.ids| < USER_THREAD_MAX)
    ensures var r := Exec(sp, u, p, op); r.Go? ==>
      && TableOk(r.sp) && r.sp.maxGiven == sp.maxGiven && r.sp.ids == sp.ids && r.sp.removed == sp.removed
      && !r.next.CrRelease?
  {
    hide CondOf;
  }

  lemma ExecKeepsTable(sp: Space, u: nat, p: Pc, op: Op)
    requires TableOk(sp) && Knows(sp, p) && SoundResults(sp)
    ensures var r := Exec(sp, u, p, op); r.Go? ==>
      && TableOk(r.sp) && SoundResults(r.sp)
      && r.sp.maxGiven == (if r.next.CrRelease? then sp.maxGiven + 1 else sp.maxGiven)
      && (r.next.CrRelease? ==> r.next.tid == r.sp.maxGiven)
  {
    hide RemoveId, AddId, CondOf, TableOk;
    if p.ExRemove? {
      RemoveFacts(sp, u);
    } else if p.CrAdd? && |sp.ids| < USER_THREAD_MAX {
      AddFacts(sp);
    } else {
      OtherFieldsKeepTable(sp, u, p, op);
    }
  }

  lemma ExecKeepsKnowledge(sp: Space, u: nat, p: Pc, op: Op)
    requires TableOk(sp) && Knows(sp, p) && (HasLock(p) <==> sp.holder == HeldBy(u))
    ensures var r := Exec(sp, u, p, op); r.Go? ==>
      && Knows(r.sp, r.next)
      && (HasLock(r.next) <==> r.sp.holder == HeldBy(u))
      && (forall v :: v != u ==> (r.sp.holder == HeldBy(v) <==> sp.holder == HeldBy(v)))
      && (forall q :: Knows(sp, q) && !(HasLock(p) && HasLock(q)) ==> Knows(r.sp, q))
  {
    hide RemoveId, AddId, CondOf, TableOk;
    if p.ExRemove? {
      RemoveFacts(sp, u);
    } else if p.CrAdd? && |sp.ids| < USER_THREAD_MAX {
      AddFacts(sp);
    } else {
      OtherFieldsKeepTable(sp, u, p, op);
    }
  }

  /** Where the other threads are after a step of u. */
  lemma OthersStay(s: State, u: nat, op: Op, v: nat)
    requires Births(s) && v != u
    ensures var n := Step(s, u, op); n.PcOf(v) == s.PcOf(v) || (s.PcOf(u) == CrFork(v) && n.PcOf(v).Running?)
  {}

  lemma StepMoves(s: State, u: nat, op: Op)
    requires Births(s)
    ensures var n, r := Step(s, u, op), Exec(s.sp, u, s.PcOf(u), op);
      !s.sp.outOfTable && r.Go? ==> n.sp == r.sp && n.PcOf(u) == r.next && u <= s.sp.maxGiven
  {}

  /** After a step of u, whoever is about to fork was so before, or is u with the newest id. */
  lemma BearsAfter(s: State, u: nat, op: Op, v: nat)
    requires Births(s) && TableOk(s.sp) && SoundResults(s.sp) && Knows(s.sp, s.PcOf(u))
    requires !s.sp.outOfTable && Bears(Step(s, u, op).PcOf(v))
    ensures var n := Step(s, u, op); var p := s.PcOf(v); var t := n.PcOf(v).tid;
      || (Bears(p) && p.tid == t && !(v == u && p.CrFork?))
      || (v == u && t == s.sp.maxGiven + 1 == n.sp.maxGiven)
    ensures s.sp.maxGiven <= Step(s, u, op).sp.maxGiven
  {
    StepMoves(s, u, op);
    ExecKeepsTable(s.sp, u, s.PcOf(u), op);
    if v != u { OthersStay(s, u, op, v); }
  }

  lemma UnbornAfter(s: State, u: nat, op: Op, t: nat)
    requires Births(s) && s.PcOf(t).Unborn? && s.PcOf(u) != CrFork(t)
    ensures Step(s, u, op).PcOf(t).Unborn?
  {
    if t != u { OthersStay(s, u, op, t); }
  }

  lemma ChildReadyAfter(s: State, u: nat, op: Op, v: nat)
    requires Births(s) && TableOk(s.sp) && SoundResults(s.sp) && Knows(s.sp, s.PcOf(u)) && !s.sp.outOfTable
    ensures ChildReady(Step(s, u, op), Step(s, u, op).PcOf(v))
  {
    var n := Step(s, u, op);
    if Bears(n.PcOf(v)) {
      BearsAfter(s, u, op, v);
      var t := n.PcOf(v).tid;
      assert ChildReady(s, s.PcOf(v)) && ChildReady(s, s.PcOf(u));
      assert v != u ==> !SameChild(s.PcOf(v), s.PcOf(u));
      UnbornAfter(s, u, op, t);
    }
  }

  lemma StepKeepsBirths(s: State, u: nat, op: Op)
    requires Births(s) && TableOk(s.sp) && SoundResults(s.sp) && Knows(s.sp, s.PcOf(u))
    ensures Births(Step(s, u, op))
  {
    var n := Step(s, u, op);
    if s.sp.outOfTable { return; }
    forall v: nat ensures ChildReady(n, n.PcOf(v)) {
      ChildReadyAfter(s, u, op, v);
    }
    forall v: nat, w: nat | v != w ensures !SameChild(n.PcOf(v), n.PcOf(w)) {
      assert ChildReady(s, s.PcOf(v)) && ChildReady(s, s.PcOf(w)) && !SameChild(s.PcOf(v), s.PcOf(w));
      if SameChild(n.PcOf(v), n.PcOf(w)) {
        BearsAfter(s, u, op, v);
        BearsAfter(s, u, op, w);
      }
    }
    forall t: nat | t > n.sp.maxGiven ensures n.PcOf(t).Unborn? {
      StepMoves(s, u, op);
      ExecKeepsTable(s.sp, u, s.PcOf(u), op);
      assert ChildReady(s, s.PcOf(u));
      UnbornAfter(s, u, op, t);
    }
  }

  /** How one statement changes the counts of one condition. */
  lemma ExecAccounts(sp: Space, u: nat, p: Pc, op: Op, t: nat)
    requires TableOk(sp) && Knows(sp, p)
    requires t in sp.removed ==> CondOf(sp, t).sleepers == 0
    ensures var r := Exec(sp, u, p, op); r.Go? && !r.sp.outOfTable && !sp.outOfTable ==>
      && CondOf(r.sp, t).sleepers + CondOf(r.sp, t).tokens
         == CondOf(sp, t).sleepers + CondOf(sp, t).tokens
            - (if WaitsFor(p, t) then 1 else 0) + (if WaitsFor(r.next, t) then 1 else 0)
      && (t in r.sp.removed ==> CondOf(r.sp, t).sleepers == 0)
  {}

  lemma StepAccounts(s: State, u: nat, op: Op)
    requires Inv(s) && !Step(s, u, op).sp.outOfTable
    ensures Accounted(Step(s, u, op))
  {
    var n, r := Step(s, u, op), Exec(s.sp, u, s.PcOf(u), op);
    if r.Go? {
      assert Knows(s.sp, s.PcOf(u));
      assert ChildReady(s, s.PcOf(u));
      forall t: nat ensures CondOf(n.sp, t).sleepers + CondOf(n.sp, t).tokens == Count(n.pcs, Waits(t))
                    && (t in n.sp.removed ==> CondOf(n.sp, t).sleepers == 0) {
        ExecAccounts(s.sp, u, s.PcOf(u), op, t);
        CountUpdate(s.pcs, u, r.next, Waits(t));
        if s.PcOf(u).CrFork? {
          var child := s.PcOf(u).tid;
          assert s.PcOf(child).Unborn? && child != u;
          CountUpdate(s.pcs[u := r.next], child, Running, Waits(t));
        }
      }
    }
  }

  lemma StepKeepsKnowledge(s: State, u: nat, op: Op)
    requires Exclusion(s) && (forall v :: Knows(s.sp, s.PcOf(v))) && TableOk(s.sp) && Births(s)
    ensures Exclusion(Step(s, u, op)) && forall v :: Knows(Step(s, u, op).sp, Step(s, u, op).PcOf(v))
  {
    var n, r := Step(s, u, op), Exec(s.sp, u, s.PcOf(u), op);
    if !s.sp.outOfTable && r.Go? {
      StepMoves(s, u, op);
      ExecKeepsKnowledge(s.sp, u, s.PcOf(u), op);
      forall v ensures (HasLock(n.PcOf(v)) <==> n.sp.holder == HeldBy(v)) && Knows(n.sp, n.PcOf(v)) {
        assert (HasLock(s.PcOf(v)) <==> s.sp.holder == HeldBy(v)) && Knows(s.sp, s.PcOf(v));
        if v != u {
          OthersStay(s, u, op, v);
          assert ChildReady(s, s.PcOf(u));
        }
      }
    }
  }

  lemma StepKeepsInv(s: State, u: nat, op: Op)
    requires Inv(s)
    ensures Inv(Step(s, u, op))
  {
    var n, r := Step(s, u, op), Exec(s.sp, u, s.PcOf(u), op);
    if !s.sp.outOfTable && r.Go? {
      StepMoves(s, u, op);
      ExecKeepsTable(s.sp, u, s.PcOf(u), op);
      StepKeepsBirths(s, u, op);
      if !n.sp.outOfTable { StepAccounts(s, u, op); }
      StepKeepsKnowledge(s, u, op);
    }
  }

  lemma InitialInv()
    ensures Inv(Initial())
  {
    var s := Initial();
    forall u: nat ensures !Bears(s.PcOf(u)) {
      assert s.PcOf(u) == if u == 1 then Running else Unborn;
    }
    forall t: nat ensures Count(s.pcs, Waits(t)) == 0 { CountZero(s.pcs, Waits(t)); }
  }

  lemma {:induction false} RunKeepsInv(sched: Schedule)
    ensures Inv(Run(sched))
  {
    if sched == [] {
      InitialInv();
    } else {
      RunKeepsInv(sched[..|sched| - 1]);
      StepKeepsInv(Run(sched[..|sched| - 1]), sched[|sched| - 1].0, sched[|sched| - 1].1);
    }
  }

  // ---- Theorems about every run ----

  /** A join returned 0 only for threads whose id had been removed, and removed ids are gone. */
  lemma JoinReturnsAfterExit(sched: Schedule)
    ensures var sp := Run(sched).sp;
      && (forall r :: r in sp.results && r.value == 0 ==> r.target in sp.removed)
      && (forall t :: t in sp.removed ==> t !in sp.ids)
  {
    RunKeepsInv(sched);
  }

  lemma RunSnoc(sched: Schedule, u: nat, op: Op)
    ensures Run(sched + [(u, op)]) == Step(Run(sched), u, op)
  {
    assert (sched + [(u, op)])[..|sched|] == sched;
  }

  lemma StepRemovedGrows(s: State, u: nat, op: Op)
    ensures s.sp.removed <= Step(s, u, op).sp.removed
  {}

  lemma {:induction false} RemovedGrows(sched: Schedule, more: Schedule)
    ensures Run(sched).sp.removed <= Run(sched + more).sp.removed
  {
    if more == [] {
      assert sched + more == sched;
    } else {
      var n := |more| - 1;
      RemovedGrows(sched, more[..n]);
      RunSnoc(sched + more[..n], more[n].0, more[n].1);
      assert sched + more == sched + more[..n] + [(more[n].0, more[n].1)];
      StepRemovedGrows(Run(sched + more[..n]), more[n].0, more[n].1);
    }
  }

  /** Ids are handed out once, in increasing order, and a removed id never comes back. */
  lemma IdsNeverReissued(sched: Schedule, more: Schedule)
    ensures forall i, j :: 0 <= i < j < |Run(sched).sp.given| ==> Run(sched).sp.given[i] < Run(sched).sp.given[j]
    ensures forall t :: t in Run(sched).sp.removed ==> t !in Run(sched + more).sp.ids
  {
    RunKeepsInv(sched);
    RunKeepsInv(sched + more);
    RemovedGrows(sched, more);
  }

  /** After RemoveThreadID(t) every thread that still waits for t has a token: the tokens are as
      many as the waiters, and each of them can go on. */
  lemma RemovalReleasesWaiters(sched: Schedule, t: nat)
    requires var sp := Run(sched).sp; t in sp.removed && !sp.outOfTable
    ensures var s := Run(sched);
      && Count(s.pcs, Waits(t)) == CondOf(s.sp, t).tokens
      && (forall u :: s.PcOf(u) == JnSleep(t) ==> Exec(s.sp, u, s.PcOf(u), Exit).Go?)
  {
    RunKeepsInv(sched);
    var s := Run(sched);
    assert CondOf(s.sp, t).sleepers == 0;
    forall u | s.PcOf(u) == JnSleep(t) ensures CondOf(s.sp, t).tokens > 0 {
      CountPositive(s.pcs, u, Waits(t));
    }
  }

  /** A thread asleep in Join waits for a thread that is in the table, or has a token. */
  lemma SleepersAreJustified(sched: Schedule, u: nat)
    requires Run(sched).PcOf(u).JnSleep? && !Run(sched).sp.outOfTable
    ensures var s := Run(sched); var t := s.PcOf(u).target; t in s.sp.ids || CondOf(s.sp, t).tokens > 0
  {
    RunKeepsInv(sched);
    var s := Run(sched);
    assert Knows(s.sp, s.PcOf(u));
    if s.PcOf(u).target in s.sp.removed { RemovalReleasesWaiters(sched, s.PcOf(u).target); }
  }

  // ---- What a join returns ----

  /** The results that one thread's joins have returned, in order. */
  function ResultsOf(results: seq<Result>, u: nat): seq<Result> {
    if results == [] then []
    else
      var front, last := ResultsOf(results[..|results| - 1], u), results[|results| - 1];
      if last.joiner == u then front + [last] else front
  }

  lemma ResultsOfSnoc(results: seq<Result>, r: Result, u: nat)
    ensures ResultsOf(results + [r], u) == if r.joiner == u then ResultsOf(results, u) + [r] else ResultsOf(results, u)
  {
    assert (results + [r])[..|results|] == results;
  }

  /** In a join of t whose test of the table came out with the given answer: to wait, or to refuse. */
  predicate InJoin(p: Pc, t: nat, found: bool) {
    if found then p == JnTest(t) || p == JnRegister(t) || p == JnUnlock(t) || p == JnSleep(t) || p == JnRelock(t)
      || p == JnRelease(t)
    else p == JnRefuse(t)
  }

  /** Since a moment when the joiner had n results, it is still in the call, or its next result is the
      answer. */
  predicate AnswerPending(s: State, u: nat, t: nat, found: bool, n: nat) {
    var rs := ResultsOf(s.sp.results, u);
    || (|rs| == n && InJoin(s.PcOf(u), t, found))
    || (|rs| > n && rs[n] == Result(u, t, if found then 0 else -1))
  }

  lemma ExecAnswers(sp: Space, u: nat, p: Pc, op: Op, t: nat, found: bool)
    requires InJoin(p, t, found)
    ensures var r := Exec(sp, u, p, op); r.Go? ==>
      || (InJoin(r.next, t, found) && r.sp.results == sp.results)
      || r.sp.results == sp.results + [Result(u, t, if found then 0 else -1)]
  {
    hide RemoveId, AddId, CondOf;
  }

  lemma ExecAddsOwn(sp: Space, u: nat, p: Pc, op: Op)
    ensures var r := Exec(sp, u, p, op); r.Go? ==>
      r.sp.results == sp.results || exists x: Result :: x.joiner == u && r.sp.results == sp.results + [x]
  {
    hide CondOf, Without;
    var r := Exec(sp, u, p, op);
    if r.Go? && r.sp.results != sp.results {
      var x := r.sp.results[|r.sp.results| - 1];
      assert x.joiner == u && r.sp.results == sp.results + [x];
    }
  }

  lemma StepAddsOwn(s: State, u: nat, op: Op, v: nat)
    ensures var n := Step(s, u, op);
      ResultsOf(s.sp.results, v) <= ResultsOf(n.sp.results, v)
      && (v != u ==> ResultsOf(n.sp.results, v) == ResultsOf(s.sp.results, v))
  {
    var r := Exec(s.sp, u, s.PcOf(u), op);
    ExecAddsOwn(s.sp, u, s.PcOf(u), op);
    if r.Go? && r.sp.results != s.sp.results {
      var x: Result :| x.joiner == u && r.sp.results == s.sp.results + [x];
      ResultsOfSnoc(s.sp.results, x, v);
    }
    hide Exec;
  }

  lemma StepKeepsAnswer(s: State, u: nat, op: Op, v: nat, t: nat, found: bool, n: nat)
    requires Births(s) && AnswerPending(s, v, t, found, n)
    ensures AnswerPending(Step(s, u, op), v, t, found, n)
  {
    StepAddsOwn(s, u, op, v);
    if v != u {
      assert ChildReady(s, s.PcOf(u));
      OthersStay(s, u, op, v);
    } else if InJoin(s.PcOf(v), t, found) && |ResultsOf(s.sp.results, v)| == n && !s.sp.outOfTable {
      ExecAnswers(s.sp, v, s.PcOf(v), op, t, found);
      ResultsOfSnoc(s.sp.results, Result(v, t, if found then 0 else -1), v);
    }
    hide Exec, ResultsOf;
  }

  /** What the test of the table decides. A thread that tests the table for its target and finds it is
      in the call until its next result, which is 0; one that does not find it returns -1. */
  lemma {:induction false} JoinAnswers(sched: Schedule, more: Schedule, u: nat, t: nat, op: Op)
    requires Run(sched).PcOf(u) == JnCheck(t) && !Run(sched).sp.outOfTable
    ensures var s := Run(sched);
      AnswerPending(Run(sched + [(u, op)] + more), u, t, t in s.sp.ids, |ResultsOf(s.sp.results, u)|)
  {
    hide Run, Step, AnswerPending, ResultsOf, Inv;
    var s := Run(sched);
    RunSnoc(sched, u, op);
    TestDecides(s, u, t, op);
    if more == [] {
      assert sched + [(u, op)] + more == sched + [(u, op)];
    } else {
      var n := |more| - 1;
      JoinAnswers(sched, more[..n], u, t, op);
      var front := sched + [(u, op)] + more[..n];
      RunBirths(front);
      RunSnoc(front, more[n].0, more[n].1);
      assert sched + [(u, op)] + more == front + [(more[n].0, more[n].1)];
      StepKeepsAnswer(Run(front), more[n].0, more[n].1, u, t, t in s.sp.ids, |ResultsOf(s.sp.results, u)|);
    }
  }

  lemma TestDecides(s: State, u: nat, t: nat, op: Op)
    requires s.PcOf(u) == JnCheck(t) && !s.sp.outOfTable
    ensures AnswerPending(Step(s, u, op), u, t, t in s.sp.ids, |ResultsOf(s.sp.results, u)|)
  {}

  lemma RunBirths(sched: Schedule)
    ensures Births(Run(sched))
  {
    RunKeepsInv(sched);
  }

  /** At some moment of the run the joiner tested the table for the target, which was not there. */
  ghost predicate TestedInVain(sched: Schedule, r: Result) {
    exists k :: 0 <= k <= |sched| && Run(sched[..k]).PcOf(r.joiner) == JnCheck(r.target)
      && r.target !in Run(sched[..k]).sp.ids
  }

  ghost predicate RefusalJustified(sched: Schedule, r: Result) {
    r.value == 0 || (r.value == -1 && (r.target == r.joiner || TestedInVain(sched, r)))
  }

  ghost predicate RefusersTested(sched: Schedule) {
    forall u :: Run(sched).PcOf(u).JnRefuse? ==> TestedInVain(sched, Result(u, Run(sched).PcOf(u).target, -1))
  }

  lemma VainStays(sched: Schedule, u: nat, op: Op, r: Result)
    requires TestedInVain(sched, r)
    ensures TestedInVain(sched + [(u, op)], r)
  {
    var k :| 0 <= k <= |sched| && Run(sched[..k]).PcOf(r.joiner) == JnCheck(r.target)
      && r.target !in Run(sched[..k]).sp.ids;
    assert (sched + [(u, op)])[..k] == sched[..k];
    hide Run;
  }

  predicate RefusedAt(x: Result, u: nat, p: Pc) {
    x.joiner == u && (x.value == 0 || (x.value == -1 && (x.target == u || p == JnRefuse(x.target))))
  }

  lemma ExecRefuses(sp: Space, u: nat, p: Pc, op: Op)
    ensures var r := Exec(sp, u, p, op); r.Go? ==>
      && (r.next.JnRefuse? ==> p == JnCheck(r.next.target) && r.next.target !in sp.ids)
      && (r.sp.results == sp.results || exists x: Result :: r.sp.results == sp.results + [x] && RefusedAt(x, u, p))
  {
    hide CondOf, Without;
    var r := Exec(sp, u, p, op);
    if r.Go? && r.sp.results != sp.results {
      var x := r.sp.results[|r.sp.results| - 1];
      assert r.sp.results == sp.results + [x];
    }
  }

  lemma RefusalStep(sched: Schedule, u: nat, op: Op)
    requires RefusersTested(sched) && forall r :: r in Run(sched).sp.results ==> RefusalJustified(sched, r)
    ensures var longer := sched + [(u, op)];
      RefusersTested(longer) && forall r :: r in Run(longer).sp.results ==> RefusalJustified(longer, r)
  {
    var s, longer := Run(sched), sched + [(u, op)];
    RunSnoc(sched, u, op);
    RunKeepsInv(sched);
    var n := Run(longer);
    ExecRefuses(s.sp, u, s.PcOf(u), op);
    assert sched[..|sched|] == sched && longer[..|sched|] == sched;
    hide Run, Exec, TestedInVain, Inv;
    forall v | n.PcOf(v).JnRefuse? ensures TestedInVain(longer, Result(v, n.PcOf(v).target, -1)) {
      RefuserStep(sched, u, op, v);
    }
    forall r | r in n.sp.results ensures RefusalJustified(longer, r) {
      if r in s.sp.results {
        if r.value == -1 && r.target != r.joiner { VainStays(sched, u, op, r); }
      } else {
        assert RefusedAt(r, u, s.PcOf(u));
        if r.value == -1 && r.target != u { VainStays(sched, u, op, r); }
      }
    }
  }

  lemma RefuserStep(sched: Schedule, u: nat, op: Op, v: nat)
    requires RefusersTested(sched) && Run(sched + [(u, op)]).PcOf(v).JnRefuse?
    ensures TestedInVain(sched + [(u, op)], Result(v, Run(sched + [(u, op)]).PcOf(v).target, -1))
  {
    var s := Run(sched);
    RunSnoc(sched, u, op);
    RunKeepsInv(sched);
    ExecRefuses(s.sp, u, s.PcOf(u), op);
    if v != u { OthersStay(s, u, op, v); }
    var t := Run(sched + [(u, op)]).PcOf(v).target;
    if s.PcOf(v) == JnRefuse(t) {
      VainStays(sched, u, op, Result(v, t, -1));
    } else {
      var longer := sched + [(u, op)];
      assert longer[..|sched|] == sched;
      assert Run(longer[..|sched|]).PcOf(v) == JnCheck(t) && t !in Run(longer[..|sched|]).sp.ids;
    }
  }

  /** In every run a join returned 0 or -1, and each -1 was the answer to a thread that joined itself,
      or that tested the table for its target when it was not there. */
  lemma {:induction false} RefusalsAreJustified(sched: Schedule)
    ensures RefusersTested(sched) && forall r :: r in Run(sched).sp.results ==> RefusalJustified(sched, r)
  {
    if sched != [] {
      var n := |sched| - 1;
      RefusalsAreJustified(sched[..n]);
      RefusalStep(sched[..n], sched[n].0, sched[n].1);
      assert sched == sched[..n] + [(sched[n].0, sched[n].1)];
    }
  }

  /** In a call of join for t. */
  predicate JoinsTo(p: Pc, t: nat) { p == JnAcquire(t) || p == JnCheck(t) || InJoin(p, t, true) || InJoin(p, t, false) }

  /** In every run a thread that joins itself is refused at once and nothing else happens, so no thread ever
      waits for itself. */
  lemma {:induction false} JoiningItself(sched: Schedule, u: nat)
    ensures !JoinsTo(Run(sched).PcOf(u), u)
    ensures var s, n := Run(sched), Run(sched + [(u, Join(u))]);
      !s.sp.outOfTable && s.PcOf(u).Running? ==>
        n.PcOf(u).Running? && n.sp == s.sp.(results := s.sp.results + [Result(u, u, -1)])
          && forall v: nat :: v != u ==> n.PcOf(v) == s.PcOf(v)
  {
    hide Inv, Exec, JoinsTo;
    RunSnoc(sched, u, Join(u));
    if !Run(sched).sp.outOfTable && Run(sched).PcOf(u).Running? { RefusedAtOnce(Run(sched), u); }
    if sched != [] {
      var before, last := sched[..|sched| - 1], sched[|sched| - 1];
      JoiningItself(before, u);
      RunKeepsInv(before);
      StaysOutside(Run(before), last.0, last.1, u);
    } else {
      NobodyJoinsYet(u);
    }
  }

  lemma NobodyJoinsYet(u: nat)
    ensures !JoinsTo(Initial().PcOf(u), u)
  {}

  lemma RefusedAtOnce(s: State, u: nat)
    requires !s.sp.outOfTable && s.PcOf(u).Running?
    ensures var n := Step(s, u, Join(u));
      n.PcOf(u).Running? && n.sp == s.sp.(results := s.sp.results + [Result(u, u, -1)])
        && forall v: nat :: v != u ==> n.PcOf(v) == s.PcOf(v)
  {}

  lemma ExecStaysOutside(sp: Space, u: nat, p: Pc, op: Op)
    requires !JoinsTo(p, u)
    ensures var r := Exec(sp, u, p, op); r.Go? ==> !JoinsTo(r.next, u)
  {
    hide RemoveId, AddId, WithCond, CondOf;
  }

  lemma StaysOutside(s: State, u: nat, op: Op, v: nat)
    requires Inv(s) && !JoinsTo(s.PcOf(v), v)
    ensures !JoinsTo(Step(s, u, op).PcOf(v), v)
  {
    if v != u {
      hide Exec, Accounted, TableOk, Knows;
      OthersStay(s, u, op, v);
    } else {
      hide JoinsTo, Accounted, TableOk, Knows;
      ExecStaysOutside(s.sp, u, s.PcOf(u), op);
      hide Exec;
      StepMoves(s, u, op);
    }
  }

  // ---- A join comes to its end ----

  /** Every id that was removed has its condition in the table. */
  lemma {:induction false} RemovedInTable(sched: Schedule)
    ensures var sp := Run(sched).sp; !sp.outOfTable ==> forall t :: t in sp.removed ==> t < USER_THREAD_MAX
  {
    if sched != [] {
      RemovedInTable(sched[..|sched| - 1]);
      ExecRemovesInTable(Run(sched[..|sched| - 1]).sp, sched[|sched| - 1].0,
        Run(sched[..|sched| - 1]).PcOf(sched[|sched| - 1].0), sched[|sched| - 1].1);
      hide Exec;
    }
  }

  lemma ExecRemovesInTable(sp: Space, u: nat, p: Pc, op: Op)
    requires !sp.outOfTable ==> forall t :: t in sp.removed ==> t < USER_THREAD_MAX
    ensures var r := Exec(sp, u, p, op);
      r.Go? && !r.sp.outOfTable ==> forall t :: t in r.sp.removed ==> t < USER_THREAD_MAX
  {
    hide CondOf, Without;
  }

  /** The steps that a joiner still has to make when its target is gone. */
  function StepsLeft(p: Pc): nat {
    match p
    case JnUnlock(_) => 5
    case JnSleep(_) => 4
    case JnRelock(_) => 3
    case JnTest(_) => 2
    case _ => 1
  }

  function Alone(u: nat, n: nat): Schedule { seq(n, _ => (u, Exit)) }

  lemma JoinerGoesOn(sched: Schedule, u: nat, t: nat)
    requires var s := Run(sched);
      && InJoin(s.PcOf(u), t, true) && t in s.sp.removed && !s.sp.outOfTable
      && (s.sp.holder.Free? || s.sp.holder == HeldBy(u))
    ensures var s, n := Run(sched), Run(sched + [(u, Exit)]);
      if s.PcOf(u).JnRelease? then n.sp.results == s.sp.results + [Result(u, t, 0)] && n.PcOf(u).Running?
      else
        && InJoin(n.PcOf(u), t, true) && t in n.sp.removed && !n.sp.outOfTable && n.sp.results == s.sp.results
        && (n.sp.holder.Free? || n.sp.holder == HeldBy(u)) && StepsLeft(n.PcOf(u)) == StepsLeft(s.PcOf(u)) - 1
  {
    RunKeepsInv(sched);
    RunSnoc(sched, u, Exit);
    RemovedInTable(sched);
    var s := Run(sched);
    assert Knows(s.sp, s.PcOf(u)) && (HasLock(s.PcOf(u)) <==> s.sp.holder == HeldBy(u));
    if s.PcOf(u).JnSleep? { RemovalReleasesWaiters(sched, t); }
    hide Run, Inv;
    JoinerStep(s, u, t);
  }

  lemma JoinerStep(s: State, u: nat, t: nat)
    requires InJoin(s.PcOf(u), t, true) && t in s.sp.removed && t !in s.sp.ids && !s.sp.outOfTable
      && t < USER_THREAD_MAX
    requires Knows(s.sp, s.PcOf(u)) && (HasLock(s.PcOf(u)) <==> s.sp.holder == HeldBy(u))
    requires s.sp.holder.Free? || s.sp.holder == HeldBy(u)
    requires s.PcOf(u).JnSleep? ==> Exec(s.sp, u, s.PcOf(u), Exit).Go?
    ensures var n := Step(s, u, Exit);
      if s.PcOf(u).JnRelease? then n.sp.results == s.sp.results + [Result(u, t, 0)] && n.PcOf(u).Running?
      else
        && InJoin(n.PcOf(u), t, true) && t in n.sp.removed && !n.sp.outOfTable && n.sp.results == s.sp.results
        && (n.sp.holder.Free? || n.sp.holder == HeldBy(u)) && StepsLeft(n.PcOf(u)) == StepsLeft(s.PcOf(u)) - 1
  {}

  /** When its target is gone and nobody else holds the lock, a joiner that waits gets to its return by
      its own steps alone, and the result is 0. */
  lemma {:induction false} JoinerReturns(sched: Schedule, u: nat, t: nat)
    requires var s := Run(sched);
      && InJoin(s.PcOf(u), t, true) && t in s.sp.removed && !s.sp.outOfTable
      && (s.sp.holder.Free? || s.sp.holder == HeldBy(u))
    ensures var s := Run(sched); var n := Run(sched + Alone(u, StepsLeft(s.PcOf(u))));
      n.sp.results == s.sp.results + [Result(u, t, 0)] && n.PcOf(u).Running?
    decreases StepsLeft(Run(sched).PcOf(u))
  {
    hide Run, InJoin;
    var k := StepsLeft(Run(sched).PcOf(u));
    JoinerGoesOn(sched, u, t);
    if Run(sched).PcOf(u).JnRelease? {
      assert sched + Alone(u, 1) == sched + [(u, Exit)];
    } else {
      JoinerReturns(sched + [(u, Exit)], u, t);
      assert sched + Alone(u, k) == sched + [(u, Exit)] + Alone(u, k - 1);
    }
  }

  // ---- The condition table ----

  /** The condition table is indexed by ids, and ids are bounded by the number of threads ever
      created: as long as fewer than UserThreadMax ids were given, every index is in range. */
  lemma {:induction false} ConditionTableInRange(sched: Schedule)
    ensures Run(sched).sp.maxGiven < USER_THREAD_MAX ==> !Run(sched).sp.outOfTable
  {
    if sched != [] {
      var front, last := sched[..|sched| - 1], sched[|sched| - 1];
      ConditionTableInRange(front);
      RunKeepsInv(front);
      var s := Run(front);
      assert Knows(s.sp, s.PcOf(last.0));
      ExecKeepsTable(s.sp, last.0, s.PcOf(last.0), last.1);
      if !s.sp.outOfTable { IndexInRange(s.sp, last.0, s.PcOf(last.0), last.1); }
    }
  }

  lemma IndexInRange(sp: Space, u: nat, p: Pc, op: Op)
    requires TableOk(sp) && Knows(sp, p) && !sp.outOfTable
    ensures var r := Exec(sp, u, p, op); r.Go? && r.sp.outOfTable ==> sp.maxGiven >= USER_THREAD_MAX
  {}

  /** The main thread creates n threads, one after the other. */
  function Creations(n: nat): Schedule {
    if n == 0 then [] else Creations(n - 1) + [(1, Create), (1, Create), (1, Create), (1, Create), (1, Create)]
  }

  predicate Quiet(s: State) {
    !s.sp.outOfTable && s.sp.holder.Free? && s.PcOf(1).Running?
  }

  lemma RunFive(sched: Schedule, u: nat, op: Op)
    ensures Run(sched + [(u, op), (u, op), (u, op), (u, op), (u, op)])
         == Step(Step(Step(Step(Step(Run(sched), u, op), u, op), u, op), u, op), u, op)
  {
    var x := [(u, op)];
    RunSnoc(sched, u, op);
    RunSnoc(sched + x, u, op);
    RunSnoc(sched + x + x, u, op);
    RunSnoc(sched + x + x + x, u, op);
    RunSnoc(sched + x + x + x + x, u, op);
    assert sched + [(u, op), (u, op), (u, op), (u, op), (u, op)] == sched + x + x + x + x + x;
  }

  lemma OneCreation(s: State)
    requires Inv(s) && Quiet(s) && |s.sp.ids| < USER_THREAD_MAX
    ensures var n := Step(Step(Step(Step(Step(s, 1, Create), 1, Create), 1, Create), 1, Create), 1, Create);
      && Quiet(n) && n.sp.maxGiven == s.sp.maxGiven + 1
      && n.sp.ids == s.sp.ids + [n.sp.maxGiven] && n.PcOf(n.sp.maxGiven).Running?
  {
    AddFacts(s.sp);
    var a := Step(Step(s, 1, Create), 1, Create);
    assert a.PcOf(1).CrAdd? && a.sp == s.sp.(holder := HeldBy(1));
    var b := Step(Step(a, 1, Create), 1, Create);
    assert b.PcOf(1) == CrFork(s.sp.maxGiven + 1);
  }

  predicate AfterCreations(s: State, n: nat) {
    && Quiet(s) && s.sp.maxGiven == n + 1 && |s.sp.ids| == n + 1
    && (n > 0 ==> s.sp.ids[n] == n + 1 && s.PcOf(n + 1).Running?)
  }

  lemma {:induction false} ManyCreations(n: nat)
    requires n < USER_THREAD_MAX
    ensures AfterCreations(Run(Creations(n)), n)
  {
    if n > 0 {
      ManyCreations(n - 1);
      NextCreation(n);
    }
  }

  lemma NextCreation(n: nat)
    requires 0 < n < USER_THREAD_MAX && AfterCreations(Run(Creations(n - 1)), n - 1)
    ensures AfterCreations(Run(Creations(n)), n)
  {
    hide Run, Step, Inv;
    RunKeepsInv(Creations(n - 1));
    RunFive(Creations(n - 1), 1, Create);
    OneCreation(Run(Creations(n - 1)));
  }

  /** A running thread exits: three statements up to the broadcast. */
  lemma ExitOverflowsIff(s: State, u: nat)
    requires !s.sp.outOfTable && s.sp.holder.Free? && s.PcOf(u).Running? && u in s.sp.ids
    ensures var n := Step(Step(Step(s, u, Exit), u, Exit), u, Exit);
      (n.sp.outOfTable <==> u >= USER_THREAD_MAX) && n.sp.maxGiven == s.sp.maxGiven
  {
    var a := Step(Step(s, u, Exit), u, Exit);
    assert a.PcOf(u).ExRemove? && a.sp == s.sp.(holder := HeldBy(u));
  }

  /** The bound is sharp: when the main thread creates n threads and the last of them exits, its
      broadcast leaves the condition table exactly when n is at least UserThreadMax - 1; no more
      than UserThreadMax threads were ever alive. */
  lemma LastThreadOverflowsIff(n: nat)
    requires 0 < n < USER_THREAD_MAX
    ensures var exits := [(n + 1, Exit)] + [(n + 1, Exit)] + [(n + 1, Exit)];
      && (Run(Creations(n) + exits).sp.outOfTable <==> n >= USER_THREAD_MAX - 1)
      && Run(Creations(n) + exits).sp.maxGiven == n + 1
  {
    var x: Schedule := [(n + 1, Exit)];
    ManyCreations(n);
    RunSnoc(Creations(n), n + 1, Exit);
    RunSnoc(Creations(n) + x, n + 1, Exit);
    RunSnoc(Creations(n) + x + x, n + 1, Exit);
    assert Creations(n) + (x + x + x) == Creations(n) + x + x + x;
    assert Run(Creations(n)).sp.ids[n] in Run(Creations(n)).sp.ids;
    ExitOverflowsIff(Run(Creations(n)), n + 1);
  }

  /** No run that gives out ids up to n leaves the condition table if and only if n is below
      UserThreadMax, however few threads are alive at a time. */
  lemma TableSafeIff(n: nat)
    ensures (forall sched :: Run(sched).sp.maxGiven <= n ==> !Run(sched).sp.outOfTable) <==> n < USER_THREAD_MAX
  {
    if n < USER_THREAD_MAX {
      forall sched | Run(sched).sp.maxGiven <= n ensures !Run(sched).sp.outOfTable { ConditionTableInRange(sched); }
    } else {
      var k := USER_THREAD_MAX - 1;
      LastThreadOverflowsIff(k);
      var sched := Creations(k) + ([(k + 1, Exit)] + [(k + 1, Exit)] + [(k + 1, Exit)]);
      assert Run(sched).sp.maxGiven <= n && Run(sched).sp.outOfTable;
    }
    hide Run;
  }

  // ---- A join that waits ----

  /** A running thread joins another that is in the table: seven statements to sleepLock->P. */
  lemma JoinToSleep(s: State, u: nat, t: nat) returns (n: State)
    requires !s.sp.outOfTable && s.sp.holder.Free? && s.PcOf(u).Running? && t != u && t in s.sp.ids
      && t < USER_THREAD_MAX
    ensures var a := Step(Step(Step(s, u, Join(t)), u, Exit), u, Exit);
      n == Step(Step(Step(a, u, Exit), u, Exit), u, Exit)
    ensures n.PcOf(u) == JnSleep(t) && n.sp.holder.Free? && n.sp.ids == s.sp.ids && !n.sp.outOfTable
    ensures n.sp.results == s.sp.results && forall v :: v != u ==> n.PcOf(v) == s.PcOf(v)
  {
    var a := Step(Step(Step(s, u, Join(t)), u, Exit), u, Exit);
    assert a.PcOf(u) == JnTest(t) && a.sp == s.sp.(holder := HeldBy(u));
    n := Step(Step(Step(a, u, Exit), u, Exit), u, Exit);
  }

  lemma RunSix(sched: Schedule, u: nat, op: Op) returns (more: Schedule)
    ensures Run(more)
      == Step(Step(Step(Step(Step(Step(Run(sched), u, op), u, Exit), u, Exit), u, Exit), u, Exit), u, Exit)
  {
    var x: Schedule := [(u, Exit)];
    more := sched + [(u, op)] + x + x + x + x + x;
    RunSnoc(sched, u, op);
    RunSnoc(sched + [(u, op)], u, Exit);
    RunSnoc(sched + [(u, op)] + x, u, Exit);
    RunSnoc(sched + [(u, op)] + x + x, u, Exit);
    RunSnoc(sched + [(u, op)] + x + x + x, u, Exit);
    RunSnoc(sched + [(u, op)] + x + x + x + x, u, Exit);
    hide Run, Step;
  }

  /** A thread that is running and in the table exits: four statements. */
  lemma ExitInFour(s: State, u: nat) returns (n: State)
    requires !s.sp.outOfTable && s.sp.holder.Free? && s.PcOf(u).Running? && u in s.sp.ids && u < USER_THREAD_MAX
    ensures n == Step(Step(Step(Step(s, u, Exit), u, Exit), u, Exit), u, Exit)
    ensures u in n.sp.removed && n.sp.holder.Free? && !n.sp.outOfTable && n.sp.results == s.sp.results
    ensures forall v :: v != u ==> n.PcOf(v) == s.PcOf(v)
  {
    var a := Step(Step(s, u, Exit), u, Exit);
    assert a.PcOf(u).ExRemove? && a.sp == s.sp.(holder := HeldBy(u));
    n := Step(Step(a, u, Exit), u, Exit);
  }

  lemma RunFour(sched: Schedule, u: nat) returns (more: Schedule)
    ensures Run(more) == Step(Step(Step(Step(Run(sched), u, Exit), u, Exit), u, Exit), u, Exit)
  {
    var x: Schedule := [(u, Exit)];
    more := sched + x + x + x + x;
    RunSnoc(sched, u, Exit);
    RunSnoc(sched + x, u, Exit);
    RunSnoc(sched + x + x, u, Exit);
    RunSnoc(sched + x + x + x, u, Exit);
    hide Run, Step;
  }

  /** The main thread creates thread 2 and joins it, thread 2 exits, and the join returns 0. */
  lemma JoinOfMainReturns() returns (asleep: Schedule, done: Schedule)
    ensures Run(asleep).PcOf(1) == JnSleep(2) && 2 in Run(asleep).sp.ids && Run(asleep).sp.results == []
    ensures Run(done).sp.results == [Result(1, 2, 0)] && Run(done).PcOf(1).Running?
  {
    hide Run, Step, CondOf;
    ManyCreations(1);
    var s := Run(Creations(1));
    NoResultsYet();
    assert s.sp.ids[1] == 2;
    assert 2 in s.sp.ids;
    asleep := RunSix(Creations(1), 1, Join(2));
    var a := JoinToSleep(s, 1, 2);
    var gone := RunFour(asleep, 2);
    var b := ExitInFour(a, 2);
    JoinerReturns(gone, 1, 2);
    done := gone + Alone(1, 4);
  }

  lemma NoResultsYet()
    ensures Run(Creations(1)).sp.results == []
  {
    assert Creations(0) == [];
    RunFive([], 1, Create);
    assert [] + [(1, Create), (1, Create), (1, Create), (1, Create), (1, Create)] == Creations(1);
    var a := Step(Step(Initial(), 1, Create), 1, Create);
    assert a.sp.results == [];
    hide AddId;
  }
}
