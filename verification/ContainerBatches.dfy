/**
  Starting containers batch by batch: a pool of workers per start order, retries inside each worker.

  A run of the module is a sequence of actions of a transition system, in any order the pool allows;
  what a container does on its k-th attempt is an oracle.
 */
module ContainerBatches {
  import opened Wrappers
  import Sorting

  /** A container's configuration, as far as starting it goes. */
  datatype Job = Job(name: string, order: int, retries: int)

  /** Whether the k-th attempt to start or exec the named container succeeds. */
  type Outcome = (string, nat) -> bool

  // ---------- One container ----------

  function AttemptsFrom(o: Outcome, name: string, k: nat, retries: int): nat
    decreases if retries < 0 then 0 else retries
  {
    if o(name, k) || retries <= 0 then 1 else 1 + AttemptsFrom(o, name, k + 1, retries - 1)
  }

  /** How often run_container tries. */
  function Attempts(o: Outcome, j: Job): nat {
    AttemptsFrom(o, j.name, 0, j.retries)
  }

  function Budget(retries: int): nat {
    if retries < 0 then 1 else retries + 1
  }

  lemma {:induction false} AttemptsFromExact(o: Outcome, name: string, k: nat, retries: int)
    ensures var n := AttemptsFrom(o, name, k, retries);
            && 1 <= n <= Budget(retries)
            && (forall i :: k <= i < k + n - 1 ==> !o(name, i))
            && (o(name, k + n - 1) || n == Budget(retries))
    decreases if retries < 0 then 0 else retries
  {
    if !o(name, k) && retries > 0 {
      AttemptsFromExact(o, name, k + 1, retries - 1);
    }
  }

  predicate Succeeds(o: Outcome, j: Job) {
    Attempts(o, j) >= 1 && o(j.name, Attempts(o, j) - 1)
  }

  /** Between one and max(retries, 0) + 1 attempts, ending at the first success if there is one among them. */
  lemma AttemptsExact(o: Outcome, j: Job)
    ensures 1 <= Attempts(o, j) <= Budget(j.retries)
    ensures forall i :: 0 <= i < Attempts(o, j) - 1 ==> !o(j.name, i)
    ensures Succeeds(o, j) <==> exists i :: 0 <= i < Budget(j.retries) && o(j.name, i)
    ensures !Succeeds(o, j) ==> Attempts(o, j) == Budget(j.retries)
  {
    AttemptsFromExact(o, j.name, 0, j.retries);
  }

  // ---------- The pool ----------

  datatype Event =
    | Start(batch: nat, index: nat, attempt: nat)
    | End(batch: nat, index: nat, attempt: nat, ok: bool)

  /** A worker: not taken up yet, in its k-th attempt, asleep after it, or returned. */
  datatype Slot = Waiting | Attempting(k: nat) | Sleeping(k: nat) | Finished(ok: bool)

  datatype System = System(batches: seq<seq<Job>>, concurrency: nat, outcome: Outcome)

  datatype State = State(batch: nat, slots: seq<Slot>, failed: seq<string>, log: seq<Event>)

  datatype Action = Move(i: nat) | Close

  predicate Active(s: Slot) {
    s.Attempting? || s.Sleeping?
  }

  function ActiveCount(slots: seq<Slot>): nat {
    if slots == [] then 0
    else ActiveCount(slots[..|slots| - 1]) + if Active(slots[|slots| - 1]) then 1 else 0
  }

  function Jobs(sys: System, b: nat): seq<Job> {
    if b < |sys.batches| then sys.batches[b] else []
  }

  function Fresh(jobs: seq<Job>): seq<Slot> {
    seq(|jobs|, _ => Waiting)
  }

  function Init(sys: System): State {
    State(0, Fresh(Jobs(sys, 0)), [], [])
  }

  /** check_failures */
  function FailedIn(jobs: seq<Job>, slots: seq<Slot>): seq<string>
    requires |jobs| == |slots|
  {
    if jobs == [] then []
    else
      var last := |jobs| - 1;
      FailedIn(jobs[..last], slots[..last]) + if slots[last] == Finished(false) then [jobs[last].name] else []
  }

  predicate AllFinished(slots: seq<Slot>) {
    forall i :: 0 <= i < |slots| ==> slots[i].Finished?
  }

  /** A waiting worker is taken up in order and while fewer than `concurrency` are active; an active one can go on. */
  predicate CanMove(slots: seq<Slot>, concurrency: nat, i: nat) {
    && i < |slots|
    && (Active(slots[i])
        || (slots[i].Waiting? && ActiveCount(slots) < concurrency
            && forall j :: 0 <= j < i ==> !slots[j].Waiting?))
  }

  /** A batch closes when all its workers have returned. */
  predicate Enabled(sys: System, s: State, a: Action) {
    match a
    case Close => s.batch < |sys.batches| && AllFinished(s.slots)
    case Move(i) => CanMove(s.slots, sys.concurrency, i)
  }

  /** run_container, one step at a time. */
  function Advance(o: Outcome, j: Job, slot: Slot): Slot {
    match slot
    case Waiting => Attempting(0)
    case Attempting(k) => if o(j.name, k) || j.retries - k <= 0 then Finished(o(j.name, k)) else Sleeping(k)
    case Sleeping(k) => Attempting(k + 1)
    case Finished(ok) => slot
  }

  function EventOf(o: Outcome, j: Job, b: nat, i: nat, slot: Slot): Event {
    match slot
    case Attempting(k) => End(b, i, k, o(j.name, k))
    case Sleeping(k) => Start(b, i, k + 1)
    case _ => Start(b, i, 0)
  }

  function Next(sys: System, s: State, a: Action): State
    requires |s.slots| == |Jobs(sys, s.batch)| && Enabled(sys, s, a)
  {
    match a
    case Close =>
      State(s.batch + 1, Fresh(Jobs(sys, s.batch + 1)), s.failed + FailedIn(Jobs(sys, s.batch), s.slots), s.log)
    case Move(i) =>
      var j := Jobs(sys, s.batch)[i];
      s.(slots := s.slots[i := Advance(sys.outcome, j, s.slots[i])],
         log := s.log + [EventOf(sys.outcome, j, s.batch, i, s.slots[i])])
  }

  predicate Done(sys: System, s: State) {
    s.batch == |sys.batches|
  }

  /** The states after a sequence of actions, each enabled when taken. */
  ghost predicate Leads(sys: System, actions: seq<Action>, s: State) {
    if actions == [] then s == Init(sys)
    else
      exists prior ::
        && Leads(sys, actions[..|actions| - 1], prior)
        && |prior.slots| == |Jobs(sys, prior.batch)|
        && Enabled(sys, prior, actions[|actions| - 1])
        && s == Next(sys, prior, actions[|actions| - 1])
  }

  // ---------- What the log is to hold ----------

  /** The events of one container. */
  function Projection(log: seq<Event>, b: nat, i: nat): seq<Event> {
    if log == [] then []
    else
      var last := log[|log| - 1];
      Projection(log[..|log| - 1], b, i) + if last.batch == b && last.index == i then [last] else []
  }

  /** A container's first k attempts, one after the other. */
  function Trace(o: Outcome, j: Job, b: nat, i: nat, k: nat): seq<Event> {
    if k == 0 then [] else Trace(o, j, b, i, k - 1) + [Start(b, i, k - 1), End(b, i, k - 1, o(j.name, k - 1))]
  }

  /** All attempts of a container. */
  function FullTrace(o: Outcome, j: Job, b: nat, i: nat): seq<Event> {
    Trace(o, j, b, i, Attempts(o, j))
  }

  function SlotTrace(o: Outcome, j: Job, b: nat, i: nat, slot: Slot): seq<Event> {
    match slot
    case Waiting => []
    case Attempting(k) => Trace(o, j, b, i, k) + [Start(b, i, k)]
    case Sleeping(k) => Trace(o, j, b, i, k + 1)
    case Finished(_) => FullTrace(o, j, b, i)
  }

  predicate SlotOk(o: Outcome, j: Job, slot: Slot) {
    match slot
    case Waiting => true
    case Attempting(k) => k < Attempts(o, j)
    case Sleeping(k) => k + 1 < Attempts(o, j)
    case Finished(ok) => ok == Succeeds(o, j)
  }

  /** The names of the containers of the batch that fail, in order. */
  function Failures(o: Outcome, jobs: seq<Job>): seq<string> {
    if jobs == [] then []
    else
      var last := jobs[|jobs| - 1];
      Failures(o, jobs[..|jobs| - 1]) + if Succeeds(o, last) then [] else [last.name]
  }

  function AllFailures(o: Outcome, batches: seq<seq<Job>>): seq<string> {
    if batches == [] then []
    else AllFailures(o, batches[..|batches| - 1]) + Failures(o, batches[|batches| - 1])
  }

  ghost predicate Ascending(log: seq<Event>) {
    forall p, q :: 0 <= p < q < |log| ==> log[p].batch <= log[q].batch
  }

  ghost predicate SlotsMatchLog(sys: System, s: State)
    requires |s.slots| == |Jobs(sys, s.batch)|
  {
    forall i :: 0 <= i < |s.slots| ==>
      && SlotOk(sys.outcome, Jobs(sys, s.batch)[i], s.slots[i])
      && Projection(s.log, s.batch, i) == SlotTrace(sys.outcome, Jobs(sys, s.batch)[i], s.batch, i, s.slots[i])
  }

  ghost predicate ClosedMatchLog(sys: System, s: State) {
    forall b: nat, i: nat :: b < s.batch && i < |Jobs(sys, b)| ==>
      Projection(s.log, b, i) == FullTrace(sys.outcome, Jobs(sys, b)[i], b, i)
  }

  ghost predicate Inv(sys: System, s: State) {
    && s.batch <= |sys.batches|
    && |s.slots| == |Jobs(sys, s.batch)|
    && ActiveCount(s.slots) <= sys.concurrency
    && (forall p :: 0 <= p < |s.log| ==> s.log[p].batch <= s.batch)
    && Ascending(s.log)
    && SlotsMatchLog(sys, s)
    && ClosedMatchLog(sys, s)
    && s.failed == AllFailures(sys.outcome, sys.batches[..s.batch])
  }

  // ---------- The invariant ----------

  lemma {:induction false} ProjectionOfOthers(log: seq<Event>, b: nat, i: nat)
    requires forall p :: 0 <= p < |log| ==> log[p].batch != b
    ensures Projection(log, b, i) == []
  {
    if log != [] {
      ProjectionOfOthers(log[..|log| - 1], b, i);
    }
  }

  lemma {:induction false} ProjectionConcat(s: seq<Event>, t: seq<Event>, b: nat, i: nat)
    ensures Projection(s + t, b, i) == Projection(s, b, i) + Projection(t, b, i)
  {
    if t == [] {
      assert s + t == s;
    } else {
      assert (s + t)[..|s + t| - 1] == s + t[..|t| - 1];
      ProjectionConcat(s, t[..|t| - 1], b, i);
    }
  }

  lemma ProjectionStep(log: seq<Event>, e: Event, b: nat, i: nat)
    ensures Projection(log + [e], b, i) == Projection(log, b, i) + if e.batch == b && e.index == i then [e] else []
  {}

  lemma {:induction false} FreshIdle(jobs: seq<Job>)
    ensures ActiveCount(Fresh(jobs)) == 0
  {
    if jobs != [] {
      assert Fresh(jobs)[..|jobs| - 1] == Fresh(jobs[..|jobs| - 1]);
      FreshIdle(jobs[..|jobs| - 1]);
    }
  }

  lemma {:induction false} ActiveUpdate(slots: seq<Slot>, i: nat, slot: Slot)
    requires i < |slots|
    ensures ActiveCount(slots[i := slot]) ==
            ActiveCount(slots) - (if Active(slots[i]) then 1 else 0) + (if Active(slot) then 1 else 0)
  {
    var last := |slots| - 1;
    if i == last {
      assert slots[i := slot][..last] == slots[..last];
    } else {
      assert slots[i := slot][..last] == slots[..last][i := slot];
      ActiveUpdate(slots[..last], i, slot);
    }
  }

  /** What is left of the attempts after the k-th. */
  lemma {:induction false} AttemptsSplit(o: Outcome, name: string, k: nat, retries: int, i: nat)
    requires i < AttemptsFrom(o, name, k, retries)
    ensures AttemptsFrom(o, name, k, retries) == i + AttemptsFrom(o, name, k + i, retries - i)
    decreases i
  {
    if i > 0 {
      AttemptsSplit(o, name, k + 1, retries - 1, i - 1);
    }
  }

  /** One step of a worker keeps its place in the container's sequence of attempts. */
  lemma AdvanceKeepsTrace(o: Outcome, j: Job, b: nat, i: nat, slot: Slot)
    requires SlotOk(o, j, slot) && !slot.Finished?
    ensures SlotOk(o, j, Advance(o, j, slot))
    ensures SlotTrace(o, j, b, i, Advance(o, j, slot)) == SlotTrace(o, j, b, i, slot) + [EventOf(o, j, b, i, slot)]
  {
    AttemptsExact(o, j);
    match slot {
      case Waiting =>
        assert Trace(o, j, b, i, 0) == [];
      case Attempting(k) =>
        AttemptsSplit(o, j.name, 0, j.retries, k);
      case Sleeping(k) =>
      case Finished(_) =>
    }
  }

  lemma {:induction false} FailedMatches(o: Outcome, jobs: seq<Job>, slots: seq<Slot>)
    requires |jobs| == |slots|
    requires forall i :: 0 <= i < |slots| ==> slots[i] == Finished(Succeeds(o, jobs[i]))
    ensures FailedIn(jobs, slots) == Failures(o, jobs)
  {
    if jobs != [] {
      FailedMatches(o, jobs[..|jobs| - 1], slots[..|jobs| - 1]);
    }
  }

  lemma InitInv(sys: System)
    ensures Inv(sys, Init(sys))
  {
    FreshIdle(Jobs(sys, 0));
    assert sys.batches[..0] == [];
  }

  lemma MoveKeepsLog(sys: System, s: State, i: nat)
    requires Inv(sys, s) && Enabled(sys, s, Move(i))
    ensures var t := Next(sys, s, Move(i)); SlotsMatchLog(sys, t) && ClosedMatchLog(sys, t)
  {
    var t := Next(sys, s, Move(i));
    var j := sys.batches[s.batch][i];
    var e := EventOf(sys.outcome, j, s.batch, i, s.slots[i]);
    AdvanceKeepsTrace(sys.outcome, j, s.batch, i, s.slots[i]);
    forall b, k ensures Projection(t.log, b, k) == Projection(s.log, b, k) + if b == s.batch && k == i then [e] else [] {
      ProjectionStep(s.log, e, b, k);
    }
    forall k | 0 <= k < |t.slots|
      ensures Projection(t.log, t.batch, k) == SlotTrace(sys.outcome, Jobs(sys, t.batch)[k], t.batch, k, t.slots[k]) {}
  }

  lemma MoveKeepsInv(sys: System, s: State, i: nat)
    requires Inv(sys, s) && Enabled(sys, s, Move(i))
    ensures Inv(sys, Next(sys, s, Move(i)))
  {
    MoveKeepsLog(sys, s, i);
    ActiveUpdate(s.slots, i, Advance(sys.outcome, sys.batches[s.batch][i], s.slots[i]));
  }

  lemma CloseKeepsLog(sys: System, s: State)
    requires Inv(sys, s) && Enabled(sys, s, Close)
    ensures var t := Next(sys, s, Close); SlotsMatchLog(sys, t) && ClosedMatchLog(sys, t)
  {
    var t := Next(sys, s, Close);
    forall i: nat | i < |t.slots| ensures Projection(t.log, t.batch, i) == [] {
      ProjectionOfOthers(t.log, t.batch, i);
    }
  }

  lemma CloseReportsFailures(sys: System, s: State)
    requires Inv(sys, s) && Enabled(sys, s, Close)
    ensures Next(sys, s, Close).failed == AllFailures(sys.outcome, sys.batches[..s.batch + 1])
  {
    FailedMatches(sys.outcome, Jobs(sys, s.batch), s.slots);
    assert sys.batches[..s.batch + 1][..s.batch] == sys.batches[..s.batch];
  }

  lemma CloseKeepsInv(sys: System, s: State)
    requires Inv(sys, s) && Enabled(sys, s, Close)
    ensures Inv(sys, Next(sys, s, Close))
  {
    FreshIdle(Jobs(sys, s.batch + 1));
    CloseKeepsLog(sys, s);
    CloseReportsFailures(sys, s);
  }

  /** The invariant holds after every sequence of actions. */
  lemma {:induction false} EveryRunKeepsInv(sys: System, actions: seq<Action>, s: State)
    requires Leads(sys, actions, s)
    ensures Inv(sys, s)
  {
    if actions == [] {
      InitInv(sys);
    } else {
      var front, a := actions[..|actions| - 1], actions[|actions| - 1];
      var prior :| Leads(sys, front, prior) && |prior.slots| == |Jobs(sys, prior.batch)|
                   && Enabled(sys, prior, a) && s == Next(sys, prior, a);
      EveryRunKeepsInv(sys, front, prior);
      match a {
        case Move(i) => MoveKeepsInv(sys, prior, i);
        case Close => CloseKeepsInv(sys, prior);
      }
    }
  }

  // ---------- What every run guarantees ----------

  /** Never more than `concurrency` workers at once. */
  lemma ConcurrencyBound(sys: System, actions: seq<Action>, s: State)
    requires Leads(sys, actions, s)
    ensures ActiveCount(s.slots) <= sys.concurrency
  {
    EveryRunKeepsInv(sys, actions, s);
  }

  /**
    The barrier, in every interleaving: before any event of a batch, every container of an earlier
    batch has made all its attempts, in order, and it has no event afterwards.
   */
  lemma Barrier(sys: System, actions: seq<Action>, s: State, p: nat, b: nat, i: nat)
    requires Leads(sys, actions, s) && p < |s.log|
    requires b < s.log[p].batch && b < |sys.batches| && i < |sys.batches[b]|
    ensures Projection(s.log[..p], b, i) == FullTrace(sys.outcome, sys.batches[b][i], b, i)
    ensures Projection(s.log[p..], b, i) == []
  {
    EveryRunKeepsInv(sys, actions, s);
    NoLateEvents(s.log, p, b, i);
    assert Jobs(sys, b) == sys.batches[b];
    assert Projection(s.log, b, i) == FullTrace(sys.outcome, Jobs(sys, b)[i], b, i);
  }

  lemma NoLateEvents(log: seq<Event>, p: nat, b: nat, i: nat)
    requires p < |log| && Ascending(log) && b < log[p].batch
    ensures Projection(log[p..], b, i) == [] && Projection(log, b, i) == Projection(log[..p], b, i)
  {
    forall q | 0 <= q < |log[p..]| ensures log[p..][q].batch != b {
      assert q > 0 ==> log[p].batch <= log[p + q].batch;
    }
    ProjectionOfOthers(log[p..], b, i);
    ProjectionConcat(log[..p], log[p..], b, i);
    assert log == log[..p] + log[p..];
    assert Projection(log[..p], b, i) + [] == Projection(log[..p], b, i);
  }

  /**
    Every complete run, whatever the schedule and whatever failed: each container made exactly its
    sequence of attempts once, and the failures reported are those the outcomes decide.
   */
  lemma CompleteRun(sys: System, actions: seq<Action>, s: State)
    requires Leads(sys, actions, s) && Done(sys, s)
    ensures forall b, i :: 0 <= b < |sys.batches| && 0 <= i < |sys.batches[b]| ==>
      Projection(s.log, b, i) == FullTrace(sys.outcome, sys.batches[b][i], b, i)
    ensures s.failed == AllFailures(sys.outcome, sys.batches)
  {
    EveryRunKeepsInv(sys, actions, s);
    assert sys.batches[..s.batch] == sys.batches;
  }

  // ---------- Progress ----------

  function SlotWork(o: Outcome, j: Job, slot: Slot): int {
    match slot
    case Waiting => 2 * Attempts(o, j)
    case Attempting(k) => 2 * (Attempts(o, j) - k) - 1
    case Sleeping(k) => 2 * (Attempts(o, j) - k - 1)
    case Finished(_) => 0
  }

  function BatchWork(o: Outcome, jobs: seq<Job>, slots: seq<Slot>): int
    requires |jobs| == |slots|
  {
    if jobs == [] then 0
    else
      var last := |jobs| - 1;
      BatchWork(o, jobs[..last], slots[..last]) + SlotWork(o, jobs[last], slots[last])
  }

  /** The steps that the batches from b on take. */
  function WorkFrom(sys: System, b: nat): int
    decreases |sys.batches| - b
  {
    if b >= |sys.batches| then 0
    else BatchWork(sys.outcome, sys.batches[b], Fresh(sys.batches[b])) + 1 + WorkFrom(sys, b + 1)
  }

  /** The steps that are left. */
  function Remaining(sys: System, s: State): int
    requires |s.slots| == |Jobs(sys, s.batch)|
  {
    if s.batch >= |sys.batches| then 0
    else BatchWork(sys.outcome, sys.batches[s.batch], s.slots) + 1 + WorkFrom(sys, s.batch + 1)
  }

  lemma {:induction false} WorkUpdate(o: Outcome, jobs: seq<Job>, slots: seq<Slot>, i: nat, slot: Slot)
    requires |jobs| == |slots| && i < |slots|
    ensures BatchWork(o, jobs, slots[i := slot]) ==
            BatchWork(o, jobs, slots) - SlotWork(o, jobs[i], slots[i]) + SlotWork(o, jobs[i], slot)
  {
    var last := |slots| - 1;
    if i == last {
      assert slots[i := slot][..last] == slots[..last];
    } else {
      assert slots[i := slot][..last] == slots[..last][i := slot];
      WorkUpdate(o, jobs[..last], slots[..last], i, slot);
    }
  }

  lemma {:induction false} WorkNonNegative(o: Outcome, jobs: seq<Job>, slots: seq<Slot>)
    requires |jobs| == |slots| && forall i :: 0 <= i < |slots| ==> SlotOk(o, jobs[i], slots[i])
    ensures BatchWork(o, jobs, slots) >= 0
    ensures AllFinished(slots) ==> BatchWork(o, jobs, slots) == 0
  {
    if jobs != [] {
      var last := |jobs| - 1;
      WorkNonNegative(o, jobs[..last], slots[..last]);
    }
  }

  lemma {:induction false} WorkFromNonNegative(sys: System, b: nat)
    ensures WorkFrom(sys, b) >= 0
    decreases |sys.batches| - b
  {
    if b < |sys.batches| {
      WorkNonNegative(sys.outcome, sys.batches[b], Fresh(sys.batches[b]));
      WorkFromNonNegative(sys, b + 1);
    }
  }

  /** A step of a worker is one of those it has left. */
  lemma AdvanceDoesWork(o: Outcome, j: Job, slot: Slot)
    requires SlotOk(o, j, slot) && !slot.Finished?
    ensures SlotWork(o, j, Advance(o, j, slot)) == SlotWork(o, j, slot) - 1
  {
    AttemptsExact(o, j);
    if slot.Attempting? {
      AttemptsSplit(o, j.name, 0, j.retries, slot.k);
    }
  }

  lemma MoveDoesWork(sys: System, s: State, i: nat)
    requires Inv(sys, s) && Enabled(sys, s, Move(i))
    ensures Remaining(sys, Next(sys, s, Move(i))) == Remaining(sys, s) - 1
  {
    var j := sys.batches[s.batch][i];
    AdvanceDoesWork(sys.outcome, j, s.slots[i]);
    WorkUpdate(sys.outcome, sys.batches[s.batch], s.slots, i, Advance(sys.outcome, j, s.slots[i]));
  }

  lemma StepDoesWork(sys: System, s: State, a: Action)
    requires Inv(sys, s) && Enabled(sys, s, a)
    ensures Remaining(sys, Next(sys, s, a)) == Remaining(sys, s) - 1
  {
    match a {
      case Move(i) => MoveDoesWork(sys, s, i);
      case Close => WorkNonNegative(sys.outcome, sys.batches[s.batch], s.slots);
    }
  }

  /** Every run takes the same number of steps to its end, so every run ends and no schedule is longer than another. */
  lemma {:induction false} EveryRunCounts(sys: System, actions: seq<Action>, s: State)
    requires Leads(sys, actions, s)
    ensures |s.slots| == |Jobs(sys, s.batch)|
    ensures |actions| + Remaining(sys, s) == WorkFrom(sys, 0)
    ensures Remaining(sys, s) >= 0 && (Remaining(sys, s) == 0 <==> Done(sys, s))
  {
    EveryRunKeepsInv(sys, actions, s);
    if actions != [] {
      var front, a := actions[..|actions| - 1], actions[|actions| - 1];
      var prior :| Leads(sys, front, prior) && |prior.slots| == |Jobs(sys, prior.batch)|
                   && Enabled(sys, prior, a) && s == Next(sys, prior, a);
      EveryRunCounts(sys, front, prior);
      EveryRunKeepsInv(sys, front, prior);
      StepDoesWork(sys, prior, a);
    }
    RemainingSign(sys, s);
  }

  lemma RemainingSign(sys: System, s: State)
    requires Inv(sys, s)
    ensures Remaining(sys, s) >= 0 && (Remaining(sys, s) == 0 <==> Done(sys, s))
  {
    if s.batch < |sys.batches| {
      WorkNonNegative(sys.outcome, Jobs(sys, s.batch), s.slots);
      WorkFromNonNegative(sys, s.batch + 1);
    }
  }

  lemma {:induction false} IdleOrActive(slots: seq<Slot>)
    ensures ActiveCount(slots) == 0 || exists i :: 0 <= i < |slots| && Active(slots[i])
  {
    if slots != [] {
      var last := |slots| - 1;
      IdleOrActive(slots[..last]);
      if !Active(slots[last]) && ActiveCount(slots[..last]) != 0 {
        var i :| 0 <= i < last && Active(slots[..last][i]);
        assert Active(slots[i]);
      }
    }
  }

  lemma {:induction false} FirstWaiting(slots: seq<Slot>, n: nat)
    requires n <= |slots|
    ensures (forall j :: 0 <= j < n ==> !slots[j].Waiting?)
         || exists i :: 0 <= i < n && slots[i].Waiting? && forall j :: 0 <= j < i ==> !slots[j].Waiting?
  {
    if n > 0 {
      FirstWaiting(slots, n - 1);
    }
  }

  /** With at least one worker, a run that is not complete can go on: a failed container or batch stops nothing. */
  lemma Progress(sys: System, actions: seq<Action>, s: State)
    requires sys.concurrency >= 1 && Leads(sys, actions, s) && !Done(sys, s)
    ensures exists a :: Enabled(sys, s, a)
  {
    EveryRunKeepsInv(sys, actions, s);
    if AllFinished(s.slots) {
      assert Enabled(sys, s, Close);
    } else {
      SomeoneCanMove(s.slots, sys.concurrency);
      var i: nat :| CanMove(s.slots, sys.concurrency, i);
      assert Enabled(sys, s, Move(i));
    }
  }

  lemma SomeoneCanMove(slots: seq<Slot>, concurrency: nat)
    requires concurrency >= 1 && !AllFinished(slots)
    ensures exists i: nat :: CanMove(slots, concurrency, i)
  {
    IdleOrActive(slots);
    if ActiveCount(slots) != 0 {
      var i :| 0 <= i < |slots| && Active(slots[i]);
      assert CanMove(slots, concurrency, i);
    } else {
      var k :| 0 <= k < |slots| && !slots[k].Finished?;
      IdleMeansInactive(slots, k);
      FirstWaiting(slots, |slots|);
      var i :| 0 <= i < |slots| && slots[i].Waiting? && forall j :: 0 <= j < i ==> !slots[j].Waiting?;
      assert CanMove(slots, concurrency, i);
    }
  }

  lemma {:induction false} IdleMeansInactive(slots: seq<Slot>, i: nat)
    requires ActiveCount(slots) == 0 && i < |slots|
    ensures !Active(slots[i])
  {
    if i < |slots| - 1 {
      IdleMeansInactive(slots[..|slots| - 1], i);
    }
  }
}
