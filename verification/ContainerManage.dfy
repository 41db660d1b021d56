/** The container module's program: grouping by start order, the worker's loop, and the run over all batches. */
module ContainerManage {
  import opened Wrappers
  import opened Sequences
  import Sorting
  import opened ContainerBatches

  // ---------- Grouping by start order ----------

  /** The start orders, as they first appear. */
  function Keys(configs: seq<Job>): seq<int> {
    if configs == [] then []
    else
      var front, o := Keys(configs[..|configs| - 1]), configs[|configs| - 1].order;
      if o in front then front else front + [o]
  }

  /** The containers of one start order, in the order of the configuration. */
  function Of(configs: seq<Job>, order: int): seq<Job> {
    if configs == [] then []
    else
      var last := configs[|configs| - 1];
      Of(configs[..|configs| - 1], order) + if last.order == order then [last] else []
  }

  function BatchesOf(configs: seq<Job>, orders: seq<int>): (r: seq<seq<Job>>)
    ensures |r| == |orders| && forall b :: 0 <= b < |r| ==> r[b] == Of(configs, orders[b])
  {
    seq(|orders|, b requires 0 <= b < |orders| => Of(configs, orders[b]))
  }

  const LE: (int, int) -> bool := (x, y) => x <= y

  /** The batches in the order they are run. */
  function Batches(configs: seq<Job>): seq<seq<Job>> {
    BatchesOf(configs, Sorting.Sort(LE, Keys(configs)))
  }

  function Concat(batches: seq<seq<Job>>): seq<Job> {
    if batches == [] then [] else Concat(batches[..|batches| - 1]) + batches[|batches| - 1]
  }

  lemma {:induction false} KeysDistinct(configs: seq<Job>)
    ensures NoDup(Keys(configs))
    ensures forall c :: c in configs ==> c.order in Keys(configs)
  {
    if configs != [] {
      KeysDistinct(configs[..|configs| - 1]);
      assert configs == configs[..|configs| - 1] + [configs[|configs| - 1]];
    }
  }

  lemma {:induction false} OfOrder(configs: seq<Job>, order: int)
    ensures forall i :: 0 <= i < |Of(configs, order)| ==> Of(configs, order)[i].order == order
    ensures forall c :: multiset(Of(configs, order))[c] == if c.order == order then multiset(configs)[c] else 0
  {
    if configs != [] {
      OfOrder(configs[..|configs| - 1], order);
      assert configs == configs[..|configs| - 1] + [configs[|configs| - 1]];
    }
  }

  /** Each container of a start order has its place in the batch, behind those before it in the configuration. */
  lemma {:induction false} PlaceInBatch(configs: seq<Job>, order: int, i: nat)
    requires i < |configs| && configs[i].order == order
    ensures var place := |Of(configs[..i], order)|;
            place < |Of(configs, order)| && Of(configs, order)[place] == configs[i]
  {
    var last := |configs| - 1;
    if i < last {
      assert configs[..last][..i] == configs[..i];
      PlaceInBatch(configs[..last], order, i);
    }
  }

  lemma {:induction false} PlacesAscend(configs: seq<Job>, order: int, i: nat, j: nat)
    requires i < j <= |configs| && configs[i].order == order
    ensures |Of(configs[..i], order)| < |Of(configs[..j], order)|
  {
    assert configs[..j][..i] == configs[..i];
    PlaceInBatch(configs[..j], order, i);
  }

  /** Two containers of one start order keep their order. */
  lemma BatchKeepsOrder(configs: seq<Job>, order: int, i: nat, j: nat)
    requires i < j < |configs| && configs[i].order == order && configs[j].order == order
    ensures exists p, q :: 0 <= p < q < |Of(configs, order)|
                           && Of(configs, order)[p] == configs[i] && Of(configs, order)[q] == configs[j]
  {
    PlaceInBatch(configs, order, i);
    PlaceInBatch(configs, order, j);
    PlacesAscend(configs, order, i, j);
  }

  /** The failures reported are the names of the containers that fail, in the order in which these are listed. */
  lemma {:induction false} FailuresInOrder(o: Outcome, a: seq<Job>, b: seq<Job>, j: Job)
    ensures Failures(o, a + b) == Failures(o, a) + Failures(o, b)
    ensures Failures(o, [j]) == if exists i :: 0 <= i < Budget(j.retries) && o(j.name, i) then [] else [j.name]
  {
    AttemptsExact(o, j);
    assert [j][..0] == [];
    if b == [] {
      assert a + b == a;
    } else {
      assert (a + b)[..|a + b| - 1] == a + b[..|b| - 1];
      FailuresInOrder(o, a, b[..|b| - 1], j);
    }
  }

  /** They are reported in the order of the batches. */
  lemma {:induction false} FailuresOfBatches(o: Outcome, batches: seq<seq<Job>>)
    ensures AllFailures(o, batches) == Failures(o, Concat(batches))
  {
    if batches != [] {
      var front, last := batches[..|batches| - 1], batches[|batches| - 1];
      FailuresOfBatches(o, front);
      FailuresInOrder(o, Concat(front), last, Job("", 0, 0));
    }
  }

  /** The orders are run in strictly ascending order. */
  lemma OrdersAscend(configs: seq<Job>)
    ensures var orders := Sorting.Sort(LE, Keys(configs));
            && NoDup(orders)
            && (forall b, c :: 0 <= b < c < |orders| ==> orders[b] < orders[c])
            && (forall c :: c in configs ==> c.order in orders)
  {
    var keys := Keys(configs);
    var orders := Sorting.Sort(LE, keys);
    KeysDistinct(configs);
    Sorting.SortCorrect(LE, keys);
    Sorting.SameMembers(orders, keys);
    PermutationNoDup(keys, orders);
    forall b, c | 0 <= b < c < |orders| ensures orders[b] < orders[c] {
      assert LE(orders[b], orders[c]);
    }
  }

  lemma {:induction false} ConcatMultiplicity(configs: seq<Job>, orders: seq<int>, c: Job)
    requires NoDup(orders)
    ensures multiset(Concat(BatchesOf(configs, orders)))[c] == if c.order in orders then multiset(configs)[c] else 0
  {
    if orders != [] {
      var front, last := orders[..|orders| - 1], orders[|orders| - 1];
      assert orders == front + [last];
      var all := BatchesOf(configs, orders);
      assert all[..|front|] == BatchesOf(configs, front);
      ConcatMultiplicity(configs, front, c);
      OfOrder(configs, last);
      assert last !in front;
      assert multiset(Concat(all)) == multiset(Concat(all[..|front|])) + multiset(Of(configs, last));
    }
  }

  /** Every configured container is in the batches exactly as often as it is configured. */
  lemma BatchesConserve(configs: seq<Job>)
    ensures multiset(Concat(Batches(configs))) == multiset(configs)
  {
    var orders := Sorting.Sort(LE, Keys(configs));
    OrdersAscend(configs);
    forall c ensures multiset(Concat(Batches(configs)))[c] == multiset(configs)[c] {
      ConcatMultiplicity(configs, orders, c);
      assert c in multiset(configs) <==> c in configs;
    }
  }

  /**
    The barrier by start order: in every interleaving, before any event of a container, every
    container of a smaller start order has made all its attempts and has no event afterwards.
   */
  lemma StartOrderBarrier(configs: seq<Job>, concurrency: nat, o: Outcome, actions: seq<Action>, s: State,
                          p: nat, b: nat, i: nat)
    requires var sys := System(Batches(configs), concurrency, o);
             && Leads(sys, actions, s) && p < |s.log|
             && s.log[p].batch < |sys.batches| && s.log[p].index < |sys.batches[s.log[p].batch]|
             && b < |sys.batches| && i < |sys.batches[b]|
             && sys.batches[b][i].order < sys.batches[s.log[p].batch][s.log[p].index].order
    ensures var j := Batches(configs)[b][i];
            Projection(s.log[..p], b, i) == FullTrace(o, j, b, i) && Projection(s.log[p..], b, i) == []
  {
    var orders := Sorting.Sort(LE, Keys(configs));
    var e := s.log[p];
    OrdersAscend(configs);
    OfOrder(configs, orders[b]);
    OfOrder(configs, orders[e.batch]);
    assert orders[b] < orders[e.batch];
    Barrier(System(Batches(configs), concurrency, o), actions, s, p, b, i);
  }

  // ---------- The program ----------

  /** batch_start_order: the dictionary of lists, with its keys in the order they were entered. */
  method BatchStartOrder(configs: seq<Job>) returns (keys: seq<int>, data: map<int, seq<Job>>)
    ensures keys == Keys(configs)
    ensures forall o :: o in data <==> o in keys
    ensures forall o :: o in data ==> data[o] == Of(configs, o)
  {
    keys, data := [], map[];
    for n := 0 to |configs|
      invariant keys == Keys(configs[..n])
      invariant forall o :: o in data <==> o in keys
      invariant forall o :: o in data ==> data[o] == Of(configs[..n], o)
      invariant forall o :: o !in data ==> Of(configs[..n], o) == []
    {
      assert configs[..n + 1][..n] == configs[..n];
      var c := configs[n];
      if c.order !in data {
        keys := keys + [c.order];
        data := data[c.order := []];
      }
      data := data[c.order := data[c.order] + [c]];
    }
    assert configs[..|configs|] == configs;
  }

  /** A container's configuration, from which the worker takes its retry settings out. */
  class ContainerConfig {
    var retries: Option<int>
    var retrySleep: Option<int>

    constructor (retries: Option<int>, retrySleep: Option<int>)
      ensures this.retries == retries && this.retrySleep == retrySleep
    {
      this.retries, this.retrySleep := retries, retrySleep;
    }
  }

  /** run_container */
  method RunContainer(name: string, config: ContainerConfig, o: Outcome) returns (success: bool, ghost attempts: nat)
    modifies config
    ensures config.retries.None? && config.retrySleep.None?
    ensures var j := Job(name, 0, if old(config.retries).Some? then old(config.retries).value else 0);
            attempts == Attempts(o, j) && success == Succeeds(o, j)
  {
    var retries := if config.retries.Some? then config.retries.value else 0;
    config.retries := None;
    config.retrySleep := None;
    ghost var j := Job(name, 0, retries);
    var k := 0;
    success := false;
    while true
      invariant Attempts(o, j) == k + AttemptsFrom(o, name, k, retries)
      decreases if retries < 0 then 0 else retries
    {
      success := o(name, k);
      if success || retries <= 0 {
        break;
      }
      retries := retries - 1;
      k := k + 1;
    }
    attempts := k + 1;
  }

  // ---------- The program's own run of the transition system ----------

  /** A run of the system, as far as it has come. */
  datatype History = History(actions: seq<Action>, state: State)

  ghost predicate IsRun(sys: System, run: History) {
    Leads(sys, run.actions, run.state)
  }

  ghost function Taken(sys: System, run: History, a: Action): History
    requires |run.state.slots| == |Jobs(sys, run.state.batch)| && Enabled(sys, run.state, a)
  {
    History(run.actions + [a], Next(sys, run.state, a))
  }

  lemma TakenIsRun(sys: System, run: History, a: Action)
    requires IsRun(sys, run) && |run.state.slots| == |Jobs(sys, run.state.batch)| && Enabled(sys, run.state, a)
    ensures IsRun(sys, Taken(sys, run, a)) && Inv(sys, Taken(sys, run, a).state)
  {
    var now := Taken(sys, run, a);
    assert now.actions[..|now.actions| - 1] == run.actions;
    EveryRunKeepsInv(sys, now.actions, now.state);
  }

  /** The run is in the given batch, in this state of its workers. */
  ghost predicate At(sys: System, run: History, b: nat, slots: seq<Slot>) {
    IsRun(sys, run) && Inv(sys, run.state) && run.state.batch == b && run.state.slots == slots
  }

  lemma BatchMoves(sys: System, run: History, b: nat, slots: seq<Slot>, i: nat)
    requires At(sys, run, b, slots) && CanMove(slots, sys.concurrency, i)
    ensures i < |slots| == |Jobs(sys, b)|
    ensures At(sys, Taken(sys, run, Move(i)), b, slots[i := Advance(sys.outcome, Jobs(sys, b)[i], slots[i])])
  {
    TakenIsRun(sys, run, Move(i));
  }

  lemma BatchCloses(sys: System, run: History, b: nat, slots: seq<Slot>)
    requires At(sys, run, b, slots) && b < |sys.batches| && AllFinished(slots)
    ensures |slots| == |Jobs(sys, b)|
    ensures At(sys, Taken(sys, run, Close), b + 1, Fresh(Jobs(sys, b + 1)))
  {
    TakenIsRun(sys, run, Close);
  }

  /** A step of a worker leaves less to do in its batch. */
  lemma MoveLeavesLess(sys: System, run: History, b: nat, slots: seq<Slot>, i: nat)
    requires At(sys, run, b, slots) && CanMove(slots, sys.concurrency, i)
    ensures |slots| == |Jobs(sys, b)|
    ensures var after := slots[i := Advance(sys.outcome, Jobs(sys, b)[i], slots[i])];
            0 <= BatchWork(sys.outcome, Jobs(sys, b), after) < BatchWork(sys.outcome, Jobs(sys, b), slots)
  {
    var o, jobs := sys.outcome, Jobs(sys, b);
    var after := slots[i := Advance(o, jobs[i], slots[i])];
    BatchMoves(sys, run, b, slots, i);
    WorkUpdate(o, jobs, slots, i, Advance(o, jobs[i], slots[i]));
    AdvanceDoesWork(o, jobs[i], slots[i]);
    WorkNonNegative(o, jobs, after);
  }

  /**
    One batch in the pool, in any schedule: the steps taken continue the run of the system, and the
    results come in the order of submission.
   */
  method RunBatch(ghost sys: System, ghost run: History, ghost b: nat, jobs: seq<Job>, concurrency: nat, o: Outcome)
      returns (results: seq<(string, bool)>, ghost after: History, ghost last: seq<Slot>)
    requires concurrency >= 1 && concurrency == sys.concurrency && o == sys.outcome
    requires b < |sys.batches| && jobs == Jobs(sys, b) && At(sys, run, b, Fresh(jobs))
    ensures At(sys, after, b, last) && AllFinished(last)
    ensures |results| == |jobs|
    ensures forall i :: 0 <= i < |jobs| ==> results[i] == (jobs[i].name, Succeeds(o, jobs[i]))
  {
    var slots := Fresh(jobs);
    after := run;
    while !AllFinished(slots)
      invariant |slots| == |jobs| && At(sys, after, b, slots)
      decreases BatchWork(o, jobs, slots)
    {
      SomeoneCanMove(slots, concurrency);
      var i: nat :| i < |slots| && CanMove(slots, concurrency, i);
      BatchMoves(sys, after, b, slots, i);
      MoveLeavesLess(sys, after, b, slots, i);
      after := Taken(sys, after, Move(i));
      slots := slots[i := Advance(o, jobs[i], slots[i])];
    }
    last := slots;
    results := seq(|jobs|, i requires 0 <= i < |jobs| => (jobs[i].name, slots[i] == Finished(true)));
    FinishedAsDecided(sys, after, b, slots);
  }

  lemma FinishedAsDecided(sys: System, run: History, b: nat, slots: seq<Slot>)
    requires At(sys, run, b, slots) && AllFinished(slots)
    ensures |slots| == |Jobs(sys, b)|
    ensures forall i :: 0 <= i < |slots| ==> slots[i] == Finished(Succeeds(sys.outcome, Jobs(sys, b)[i]))
  {
    forall i | 0 <= i < |slots| ensures slots[i] == Finished(Succeeds(sys.outcome, Jobs(sys, b)[i])) {
      assert SlotOk(sys.outcome, Jobs(sys, b)[i], slots[i]);
    }
  }

  // ---------- The report ----------

  /** The names with the result false, in order. */
  function FailedNames(results: seq<(string, bool)>): seq<string> {
    if results == [] then []
    else
      var last := results[|results| - 1];
      FailedNames(results[..|results| - 1]) + if last.1 then [] else [last.0]
  }

  /** A name is among the failed as often as a result says so. */
  lemma {:induction false} FailedNamesExact(results: seq<(string, bool)>, name: string)
    ensures multiset(FailedNames(results))[name] == multiset(results)[(name, false)]
  {
    if results != [] {
      assert results == results[..|results| - 1] + [results[|results| - 1]];
      FailedNamesExact(results[..|results| - 1], name);
    }
  }

  /** check_failures */
  method CheckFailures(results: seq<(string, bool)>) returns (failed: seq<string>)
    ensures failed == FailedNames(results)
  {
    failed := [];
    for n := 0 to |results|
      invariant failed == FailedNames(results[..n])
    {
      PrefixStep(results, n);
      if !results[n].1 {
        failed := failed + [results[n].0];
      }
    }
    assert results[..|results|] == results;
  }

  lemma {:induction false} FailedNamesAreFailures(o: Outcome, jobs: seq<Job>, results: seq<(string, bool)>)
    requires |results| == |jobs|
    requires forall i :: 0 <= i < |jobs| ==> results[i] == (jobs[i].name, Succeeds(o, jobs[i]))
    ensures FailedNames(results) == Failures(o, jobs)
  {
    if jobs != [] {
      FailedNamesAreFailures(o, jobs[..|jobs| - 1], results[..|jobs| - 1]);
    }
  }

  lemma SortedKeysAreKeys(keys: seq<int>)
    ensures forall n :: 0 <= n < |Sorting.Sort(LE, keys)| ==> Sorting.Sort(LE, keys)[n] in keys
  {
    var orders := Sorting.Sort(LE, keys);
    Sorting.SortCorrect(LE, keys);
    Sorting.SameMembers(orders, keys);
    assert forall n :: 0 <= n < |orders| ==> orders[n] in orders;
  }

  lemma FailuresStep(o: Outcome, batches: seq<seq<Job>>, n: nat)
    requires n < |batches|
    ensures AllFailures(o, batches[..n + 1]) == AllFailures(o, batches[..n]) + Failures(o, batches[n])
  {
    PrefixStep(batches, n);
  }

  lemma InitIsRun(sys: System)
    ensures At(sys, History([], Init(sys)), 0, Fresh(Jobs(sys, 0)))
  {
    EveryRunKeepsInv(sys, [], Init(sys));
  }

  /** The system that the module runs. */
  function SystemOf(configs: seq<Job>, concurrency: nat, o: Outcome): System {
    System(Batches(configs), concurrency, o)
  }

  /**
    run: the names of the containers that failed, in the order of the batches, and the complete run
    of the system that the program has made.
   */
  method Run(configs: seq<Job>, concurrency: nat, o: Outcome) returns (failed: seq<string>, ghost run: History)
    requires concurrency >= 1
    ensures failed == AllFailures(o, Batches(configs))
    ensures var sys := SystemOf(configs, concurrency, o);
            Leads(sys, run.actions, run.state) && Done(sys, run.state) && failed == run.state.failed
  {
    var keys, data := BatchStartOrder(configs);
    var orders := Sorting.Sort(LE, keys);
    SortedKeysAreKeys(keys);
    ghost var sys := SystemOf(configs, concurrency, o);
    ghost var batches, last := sys.batches, [];
    run := History([], Init(sys));
    InitIsRun(sys);
    failed := [];
    for n := 0 to |orders|
      invariant failed == AllFailures(o, batches[..n])
      invariant At(sys, run, n, Fresh(Jobs(sys, n)))
    {
      FailuresStep(o, batches, n);
      var jobs := data[orders[n]];
      var results;
      results, run, last := RunBatch(sys, run, n, jobs, concurrency, o);
      BatchCloses(sys, run, n, last);
      run := Taken(sys, run, Close);
      var more := CheckFailures(results);
      FailedNamesAreFailures(o, jobs, results);
      failed := failed + more;
    }
    assert batches[..|orders|] == batches;
    CompleteRun(sys, run.actions, run.state);
  }
}
