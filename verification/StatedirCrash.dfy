/** The ownership walk over crashes and re-runs. */
module StatedirCrash {
  import opened Wrappers
  import opened Statedir
  import opened StatedirTheorems

  /** The same run without failures. */
  function Faultless(e: Env): Env {
    e.(faults := NO_FAULTS, unlinkFails := false)
  }

  /** Without failures, what is reached depends on which paths exist, and excluded ones do not matter. */
  ghost predicate SameExisting(e: Env, m: Metas, n: Metas) {
    forall p :: p !in e.excluded ==> (p in m <==> p in n)
  }

  /** The two runs visit alike: they differ at most in failures, in the state, and in who the previous owner was. */
  ghost predicate SameWay(e: Env, d: Env) {
    e.excluded == d.excluded && e.unsupported == d.unsupported && e.faults == NO_FAULTS && d.faults == NO_FAULTS
  }

  lemma {:induction false} ReachFaultless(e: Env, d: Env, m: Metas, n: Metas, top: Path, kids: Forest, chcon: bool, rel: Path)
    requires rel != [] && SameWay(e, d) && SameExisting(e, m, n)
    ensures Reach(e, m, top, kids, chcon, rel) == Reach(d, n, top, kids, chcon, rel)
    decreases |rel|
  {
    var p := top + [rel[0]];
    var tree := Find(kids, rel[0]);
    if |rel| > 1 && tree.Some? && tree.value.Dir? && p !in e.excluded {
      assert OwnSteps(e, m, p, true, chcon).done == (p in m) == OwnSteps(d, n, p, true, chcon).done;
      ReachFaultless(e, d, m, n, p, tree.value.kids, chcon && !e.unsupported(p), rel[1..]);
    }
  }

  /** The visit that a run without failures pays to a path, if any. */
  function Intent(e: Env, m: Metas, kids: Forest, p: Path): Option<Visit> {
    if p == e.statedir then Some(Visit(Dir(kids), true))
    else if Below(e.statedir, p) then
      Reach(Faultless(e), m, e.statedir, kids, e.context.Some?, p[|e.statedir|..])
    else None
  }

  predicate ToLabel(e: Env, p: Path, v: Visit) {
    e.Labels(v.tree.Dir?, v.chcon) && !e.unsupported(p)
  }

  // ---------- Every effect works towards the goal ----------

  /** The effect does a part of what the visit wants of an entry that had this owner. */
  predicate Serves(e: Env, f: Effect, v: Visit, was: Meta) {
    match f
    case Chown(_, u, g) =>
      && (u.Some? ==> u.value == e.GoalUid(v.tree.Dir?, was.uid))
      && (g.Some? ==> g.value == e.GoalGid(v.tree.Dir?, was.gid))
    case Label(p, c) => ToLabel(e, p, v) && Some(c) == e.context
    case Unlink(_) => false
  }

  /** As Serves, for an effect below `top`. */
  ghost predicate ServesBelow(e: Env, m: Metas, top: Path, kids: Forest, chcon: bool, f: Effect) {
    && Below(top, f.path) && f.path in m && Find(kids, f.path[|top|]).Some?
    && var v := Reach(Faultless(e), m, top, kids, chcon, f.path[|top|..]);
       v.Some? && Serves(e, f, v.value, m[f.path])
  }

  lemma OwnStepsServe(e: Env, m: Metas, p: Path, tree: Tree, chcon: bool, f: Effect)
    requires f in OwnSteps(e, m, p, tree.Dir?, chcon).effects
    ensures p in m && f.path == p && Serves(e, f, Visit(tree, chcon), m[p])
  {}

  lemma OwnEffectsServe(e: Env, m: Metas, top: Path, name: string, tree: Tree, chcon: bool, f: Effect)
    requires top + [name] !in e.excluded && f in OwnSteps(e, m, top + [name], tree.Dir?, chcon).effects
    ensures ServesBelow(e, m, top, Cons(name, tree, Nil), chcon, f)
  {
    OwnStepsServe(e, m, top + [name], tree, chcon, f);
    assert (top + [name])[|top|..] == [name] && (top + [name])[..|top|] == top;
  }

  lemma DeeperEffectServes(e: Env, m: Metas, top: Path, name: string, tree: Tree, chcon: bool, f: Effect)
    requires top + [name] !in e.excluded && tree.Dir? && top + [name] in m
    requires ServesBelow(e, m, top + [name], tree.kids, chcon && !e.unsupported(top + [name]), f)
    ensures ServesBelow(e, m, top, Cons(name, tree, Nil), chcon, f)
  {}

  lemma SameStateServes(e: Env, m: Metas, n: Metas, top: Path, kids: Forest, chcon: bool, f: Effect)
    requires AgreeBelow(n, m, top, kids) && ServesBelow(e, n, top, kids, chcon, f)
    ensures ServesBelow(e, m, top, kids, chcon, f)
  {
    ReachLocal(Faultless(e), n, m, top, kids, chcon, f.path[|top|..]);
  }

  lemma FindOne(name: string, tree: Tree, x: string)
    ensures Find(Cons(name, tree, Nil), x).Some? ==> x == name
  {
    assert Find(Nil, x).None?;
  }

  lemma {:induction false} EntryEffectsServe(e: Env, m: Metas, top: Path, name: string, tree: Tree, chcon: bool, f: Effect)
    requires top + [name] !in e.excluded && (tree.Dir? ==> NamesDiffer(tree.kids))
    requires f in EntryEffects(e, m, top + [name], tree, chcon)
    ensures ServesBelow(e, m, top, Cons(name, tree, Nil), chcon, f)
    decreases tree, 0
  {
    var p := top + [name];
    var own := OwnSteps(e, m, p, tree.Dir?, chcon);
    if f in own.effects {
      OwnEffectsServe(e, m, top, name, tree, chcon, f);
    } else {
      OwnStepsOutcome(e, m, p, true, chcon);
      var n := Apply(m, own.effects);
      WalkEffectsServe(e, n, p, tree.kids, chcon && !e.unsupported(p), f);
      assert p in m;
      SameStateServes(e, m, n, p, tree.kids, chcon && !e.unsupported(p), f);
      DeeperEffectServes(e, m, top, name, tree, chcon, f);
    }
  }

  /** Under any failures, every effect of a walk serves what a run without failures wants of the entry. */
  lemma {:induction false} WalkEffectsServe(e: Env, m: Metas, top: Path, kids: Forest, chcon: bool, f: Effect)
    requires NamesDiffer(kids) && f in WalkEffects(e, m, top, kids, chcon)
    ensures ServesBelow(e, m, top, kids, chcon, f)
    decreases kids, 1
  {
    var Cons(name, tree, rest) := kids;
    var p := top + [name];
    var first := if p in e.excluded then [] else EntryEffects(e, m, p, tree, chcon);
    if f in first {
      EntryEffectsServe(e, m, top, name, tree, chcon, f);
      FindOne(name, tree, f.path[|top|]);
      ReachOfOne(Faultless(e), m, top, name, tree, rest, chcon, f.path[|top|..]);
    } else {
      var n := Apply(m, first);
      assert Apply(m, []) == m;
      if p !in e.excluded {
        EntryOutcome(e, m, top, name, tree, chcon);
      }
      assert EntryDone(e, m, n, top, name, tree, chcon);
      WalkEffectsServe(e, n, top, rest, chcon, f);
      assert AgreeBelow(n, m, top, rest);
      SameStateServes(e, m, n, top, rest, chcon, f);
      ReachOfOne(Faultless(e), m, top, name, tree, rest, chcon, f.path[|top|..]);
    }
  }

  /** The effect serves the run's intent for its path. */
  ghost predicate Good(e: Env, m: Metas, kids: Forest, f: Effect) {
    && f.path in m
    && Intent(e, m, kids, f.path).Some?
    && Serves(e, f, Intent(e, m, kids, f.path).value, m[f.path])
  }

  lemma {:induction false} WalkStepsGood(e: Env, m: Metas, kids: Forest, f: Effect)
    requires NamesDiffer(kids) && f in WalkSteps(e, m, kids).effects
    ensures Good(e, m, kids, f)
  {
    var top := e.statedir;
    var own := OwnSteps(e, m, top, true, true);
    if f in own.effects {
      OwnStepsServe(e, m, top, Dir(kids), true, f);
    } else {
      OwnStepsOutcome(e, m, top, true, true);
      var n := Apply(m, own.effects);
      WalkEffectsServe(e, n, top, kids, e.context.Some?, f);
      SameStateServes(e, m, n, top, kids, e.context.Some?, f);
    }
  }

  // ---------- After any part of a run ----------

  /** Each part of the entry is the old one or the wanted one. */
  predicate Between(e: Env, p: Path, v: Visit, was: Meta, now: Meta) {
    && now.uid in {was.uid, e.GoalUid(v.tree.Dir?, was.uid)}
    && now.gid in {was.gid, e.GoalGid(v.tree.Dir?, was.gid)}
    && (now.context == was.context || (ToLabel(e, p, v) && Some(now.context) == e.context))
  }

  ghost predicate PartlyDone(e: Env, m: Metas, r: Metas, kids: Forest) {
    && r.Keys == m.Keys
    && forall p :: p in m ==>
         match Intent(e, m, kids, p)
         case None => r[p] == m[p]
         case Some(v) => Between(e, p, v, m[p], r[p])
  }

  lemma {:induction false} GoodEffectsPartlyDone(e: Env, m: Metas, kids: Forest, log: seq<Effect>)
    requires forall f :: f in log ==> Good(e, m, kids, f)
    ensures PartlyDone(e, m, Apply(m, log), kids)
  {
    if log != [] {
      var front, f := log[..|log| - 1], log[|log| - 1];
      assert f in log;
      GoodEffectsPartlyDone(e, m, kids, front);
    }
  }

  /** What a run without failures makes of a path. */
  function Finished(e: Env, m: Metas, kids: Forest, p: Path): Meta
    requires p in m
  {
    match Intent(e, m, kids, p)
    case None => m[p]
    case Some(v) =>
      Meta(e.GoalUid(v.tree.Dir?, m[p].uid), e.GoalGid(v.tree.Dir?, m[p].gid),
           if ToLabel(e, p, v) then e.context.value else m[p].context)
  }

  lemma NothingMissed(e: Env, m: Metas, kids: Forest, p: Path)
    requires e == Faultless(e) && p in m
    ensures !Missed(e, m, kids, p)
  {}

  lemma FaultlessRun(e: Env, m: Metas, kids: Forest)
    requires NamesDiffer(kids) && e == Faultless(e) && e.statedir in m
    ensures WalkSteps(e, m, kids).done && Walked(e, m, kids).Keys == m.Keys
    ensures forall p :: p in m ==> Walked(e, m, kids)[p] == Finished(e, m, kids, p)
  {
    WalkedOutcome(e, m, kids);
    forall p | p in m ensures Walked(e, m, kids)[p] == Finished(e, m, kids, p) {
      FinishedUnlessMissed(e, m, kids, p);
      NothingMissed(e, m, kids, p);
    }
  }

  lemma GoalIdempotent(e: Env, isDir: bool, u: nat, g: nat)
    ensures e.GoalUid(isDir, e.GoalUid(isDir, u)) == e.GoalUid(isDir, u)
    ensures e.GoalGid(isDir, e.GoalGid(isDir, g)) == e.GoalGid(isDir, g)
  {}

  /** Finishing from a state part of the way gives what finishing from the start gives. */
  lemma FinishedAlike(e: Env, m: Metas, r: Metas, kids: Forest, p: Path)
    requires PartlyDone(e, m, r, kids) && p in m
    ensures Finished(e, r, kids, p) == Finished(e, m, kids, p)
  {
    if p != e.statedir && Below(e.statedir, p) {
      ReachFaultless(Faultless(e), Faultless(e), m, r, e.statedir, kids, e.context.Some?, p[|e.statedir|..]);
    }
    assert Intent(e, r, kids, p) == Intent(e, m, kids, p);
    var v := Intent(e, m, kids, p);
    if v.Some? {
      GoalIdempotent(e, v.value.tree.Dir?, m[p].uid, m[p].gid);
    }
  }

  lemma MarkerUntouched(c: Config, m: Metas, kids: Forest, e: Env)
    requires e.statedir == c.statedir && c.Marker() in e.excluded
    ensures Intent(e, m, kids, c.Marker()).None?
  {}

  /** What a complete run leaves. */
  function Completed(c: Config, m: Metas, kids: Forest): Metas {
    Apply(m, RunSteps(FaultFree(c, m), m, kids).effects)
  }

  /** The state when a run under these failures stops after k effects. */
  function Stopped(c: Config, m: Metas, kids: Forest, faults: Path -> Fault, unlinkFails: bool, k: nat): Metas
    requires k <= |RunSteps(Setup(c, m, faults, unlinkFails), m, kids).effects|
  {
    Apply(m, RunSteps(Setup(c, m, faults, unlinkFails), m, kids).effects[..k])
  }

  lemma UnlinkRemoves(m: Metas, walk: seq<Effect>, marker: Path)
    ensures Apply(m, walk + [Unlink(marker)]) == Apply(m, walk) - {marker}
  {
    ApplyConcat(m, walk, [Unlink(marker)]);
    ApplyOne(Apply(m, walk), Unlink(marker));
  }

  lemma PrefixBefore(m: Metas, walk: seq<Effect>, run: seq<Effect>, marker: Path, k: nat)
    requires k <= |run| && (run == walk || (run == walk + [Unlink(marker)] && marker in Apply(m, run[..k])))
    ensures k <= |walk| && run[..k] == walk[..k]
  {
    assert run[..|run|] == run;
    UnlinkRemoves(m, walk, marker);
  }

  lemma RunShape(e: Env, m: Metas, kids: Forest)
    ensures var run, walk := RunSteps(e, m, kids).effects, WalkSteps(e, m, kids).effects;
            run == walk || (e.upgrade && run == walk + [Unlink(e.marker)])
  {}

  /** Unlinking the marker is the last effect, so before it a run is a part of the walk. */
  lemma BeforeUnlink(e: Env, m: Metas, kids: Forest, k: nat)
    requires k <= |RunSteps(e, m, kids).effects|
    requires e.upgrade ==> e.marker in Apply(m, RunSteps(e, m, kids).effects[..k])
    ensures k <= |WalkSteps(e, m, kids).effects|
    ensures RunSteps(e, m, kids).effects[..k] == WalkSteps(e, m, kids).effects[..k]
  {
    RunShape(e, m, kids);
    PrefixBefore(m, WalkSteps(e, m, kids).effects, RunSteps(e, m, kids).effects, e.marker, k);
  }

  /** What a run leaves that came to its end. */
  lemma RunApplied(e: Env, m: Metas, kids: Forest)
    requires RunSteps(e, m, kids).done
    ensures WalkSteps(e, m, kids).done
    ensures Apply(m, RunSteps(e, m, kids).effects) ==
            if e.upgrade then Walked(e, m, kids) - {e.marker} else Walked(e, m, kids)
  {
    UnlinkRemoves(m, WalkSteps(e, m, kids).effects, e.marker);
  }

  lemma PartlyDoneAlike(e: Env, m: Metas, r: Metas, kids: Forest)
    requires PartlyDone(e, m, r, kids)
    ensures PartlyDone(Faultless(e), m, r, kids)
  {
    assert Faultless(Faultless(e)) == Faultless(e);
  }

  lemma StoppedPartlyDone(c: Config, m: Metas, kids: Forest, faults: Path -> Fault, unlinkFails: bool, k: nat)
    requires NamesDiffer(kids)
    requires k <= |RunSteps(Setup(c, m, faults, unlinkFails), m, kids).effects|
    requires c.Marker() in m ==> c.Marker() in Stopped(c, m, kids, faults, unlinkFails, k)
    ensures PartlyDone(FaultFree(c, m), m, Stopped(c, m, kids, faults, unlinkFails, k), kids)
  {
    var e := Setup(c, m, faults, unlinkFails);
    BeforeUnlink(e, m, kids, k);
    PrefixPartlyDone(e, m, kids, k);
    PartlyDoneAlike(e, m, Stopped(c, m, kids, faults, unlinkFails, k), kids);
    assert Faultless(e) == FaultFree(c, m);
  }

  lemma PrefixPartlyDone(e: Env, m: Metas, kids: Forest, k: nat)
    requires NamesDiffer(kids) && k <= |WalkSteps(e, m, kids).effects|
    ensures PartlyDone(e, m, Apply(m, WalkSteps(e, m, kids).effects[..k]), kids)
  {
    var log := WalkSteps(e, m, kids).effects;
    forall f | f in log[..k] ensures Good(e, m, kids, f) {
      WalkStepsGood(e, m, kids, f);
    }
    GoodEffectsPartlyDone(e, m, kids, log[..k]);
  }

  lemma FaultFreeRun(c: Config, m: Metas, kids: Forest)
    ensures var e := FaultFree(c, m);
            && e == Faultless(e) && e.statedir == c.statedir && e.marker == c.Marker()
            && (e.upgrade <==> c.Marker() in m)
            && (RunSteps(e, m, kids).done <==> c.statedir in m)
  {}

  lemma FaultlessRunCompletes(e: Env, m: Metas, kids: Forest)
    requires NamesDiffer(kids) && e == Faultless(e) && e.statedir in m && RunSteps(e, m, kids).done
    requires e.upgrade <==> e.marker in m
    ensures var r := Apply(m, RunSteps(e, m, kids).effects);
            && r.Keys == m.Keys - {e.marker}
            && forall p :: p in r ==> r[p] == Finished(e, m, kids, p)
  {
    FaultlessRun(e, m, kids);
    RunApplied(e, m, kids);
  }

  lemma {:induction false} CompleteRun(c: Config, m: Metas, kids: Forest)
    requires NamesDiffer(kids)
    ensures c.statedir !in m ==> Completed(c, m, kids) == m
    ensures c.statedir in m ==>
      && Completed(c, m, kids).Keys == m.Keys - {c.Marker()}
      && forall p :: p in m && p != c.Marker() ==> Completed(c, m, kids)[p] == Finished(FaultFree(c, m), m, kids, p)
  {
    var e := FaultFree(c, m);
    FaultFreeRun(c, m, kids);
    if c.statedir in m {
      FaultlessRunCompletes(e, m, kids);
    } else {
      NothingWithoutDirectory(e, m, kids);
      assert Apply(m, []) == m;
    }
  }

  /**
    Crash and resume: however far a run gets under whatever failures, as long as the marker still
    exists, one complete run from there leaves exactly the owners and contexts that an
    uninterrupted run leaves.
   */
  lemma CrashAndResume(c: Config, m: Metas, kids: Forest, faults: Path -> Fault, unlinkFails: bool, k: nat)
    requires NamesDiffer(kids)
    requires k <= |RunSteps(Setup(c, m, faults, unlinkFails), m, kids).effects|
    requires c.Marker() in m ==> c.Marker() in Stopped(c, m, kids, faults, unlinkFails, k)
    ensures Completed(c, Stopped(c, m, kids, faults, unlinkFails, k), kids) == Completed(c, m, kids)
  {
    if c.statedir in m {
      StoppedPartlyDone(c, m, kids, faults, unlinkFails, k);
      Resume(c, m, Stopped(c, m, kids, faults, unlinkFails, k), kids);
    } else {
      NothingWithoutDirectory(Setup(c, m, faults, unlinkFails), m, kids);
      assert Apply(m, []) == m;
    }
  }

  lemma NothingWithoutDirectory(e: Env, m: Metas, kids: Forest)
    requires e.statedir !in m
    ensures RunSteps(e, m, kids).effects == []
  {}

  lemma PartlyDoneMarker(c: Config, m: Metas, r: Metas, kids: Forest)
    requires PartlyDone(FaultFree(c, m), m, r, kids)
    ensures FaultFree(c, r) == FaultFree(c, m) && r.Keys == m.Keys
  {
    MarkerUntouched(c, m, kids, FaultFree(c, m));
    assert c.Marker() in m ==> r[c.Marker()] == m[c.Marker()];
  }

  /** From any state part of the way a complete run ends where it ends from the start. */
  lemma Resume(c: Config, m: Metas, r: Metas, kids: Forest)
    requires NamesDiffer(kids) && c.statedir in m && PartlyDone(FaultFree(c, m), m, r, kids)
    ensures Completed(c, r, kids) == Completed(c, m, kids)
  {
    CompleteRun(c, m, kids);
    CompleteRun(c, r, kids);
    PartlyDoneMarker(c, m, r, kids);
    forall p | p in m && p != c.Marker() ensures Completed(c, r, kids)[p] == Completed(c, m, kids)[p] {
      ResumedAt(c, m, r, kids, p);
    }
  }

  lemma ResumedAt(c: Config, m: Metas, r: Metas, kids: Forest, p: Path)
    requires NamesDiffer(kids) && c.statedir in m && PartlyDone(FaultFree(c, m), m, r, kids)
    requires p in m && p != c.Marker()
    ensures p in Completed(c, r, kids) && p in Completed(c, m, kids)
    ensures Completed(c, r, kids)[p] == Completed(c, m, kids)[p]
  {
    CompleteRun(c, m, kids);
    CompleteRun(c, r, kids);
    PartlyDoneMarker(c, m, r, kids);
    FinishedAlike(FaultFree(c, m), m, r, kids, p);
  }

  /** A further run, under whatever failures and however far it gets, changes no owner and no context. */
  lemma FurtherRunChangesNothing(c: Config, m: Metas, kids: Forest, faults: Path -> Fault, unlinkFails: bool, k: nat)
    requires NamesDiffer(kids) && c.statedir in m
    requires k <= |RunSteps(Setup(c, Completed(c, m, kids), faults, unlinkFails), Completed(c, m, kids), kids).effects|
    ensures Stopped(c, Completed(c, m, kids), kids, faults, unlinkFails, k) == Completed(c, m, kids)
  {
    var r := Completed(c, m, kids);
    var s := Stopped(c, r, kids, faults, unlinkFails, k);
    CompleteRun(c, m, kids);
    StoppedPartlyDone(c, r, kids, faults, unlinkFails, k);
    forall p | p in r ensures s[p] == r[p] {
      NothingLeftAt(c, m, r, kids, s, p);
    }
  }

  lemma NothingLeftAt(c: Config, m: Metas, r: Metas, kids: Forest, s: Metas, p: Path)
    requires r.Keys == m.Keys - {c.Marker()} && p in r
    requires r[p] == Finished(FaultFree(c, m), m, kids, p)
    requires PartlyDone(FaultFree(c, r), r, s, kids)
    ensures s[p] == r[p]
  {
    var e, d := FaultFree(c, m), FaultFree(c, r);
    if p != c.statedir && Below(c.statedir, p) {
      ReachFaultless(Faultless(d), Faultless(e), r, m, c.statedir, kids, c.context.Some?, p[|c.statedir|..]);
    }
    assert Intent(d, r, kids, p) == Intent(e, m, kids, p);
    assert !d.IdChange();
  }

  /**
    The limit of this: once the marker is gone, a run touches directories only.  A file whose chown
    failed during an upgrade that went on to remove the marker is not repaired by any later run.
   */
  lemma WithoutMarkerFilesStay(c: Config, m: Metas, kids: Forest, faults: Path -> Fault, unlinkFails: bool, k: nat, p: Path)
    requires NamesDiffer(kids) && c.Marker() !in m && p in m
    requires k <= |RunSteps(Setup(c, m, faults, unlinkFails), m, kids).effects|
    ensures Stopped(c, m, kids, faults, unlinkFails, k).Keys == m.Keys
    ensures Stopped(c, m, kids, faults, unlinkFails, k)[p] != m[p] ==>
      p == c.statedir || (Below(c.statedir, p) && Lookup(kids, p[|c.statedir|..]).Some?
                          && Lookup(kids, p[|c.statedir|..]).value.Dir?)
  {
    var e := FaultFree(c, m);
    StoppedPartlyDone(c, m, kids, faults, unlinkFails, k);
    if Below(c.statedir, p) && Intent(e, m, kids, p).Some? {
      ReachedEntry(Faultless(e), m, c.statedir, kids, c.context.Some?, p[|c.statedir|..]);
    }
  }

  // ---------- Runs that complete although something failed ----------

  /** A walk that reaches a path visits it as one without failures does. */
  lemma {:induction false} ReachDespiteFaults(e: Env, m: Metas, top: Path, kids: Forest, chcon: bool, rel: Path)
    requires rel != [] && Reach(e, m, top, kids, chcon, rel).Some?
    ensures Reach(Faultless(e), m, top, kids, chcon, rel) == Reach(e, m, top, kids, chcon, rel)
    decreases |rel|
  {
    var p := top + [rel[0]];
    if |rel| > 1 {
      ReachDespiteFaults(e, m, p, Find(kids, rel[0]).value.kids, chcon && !e.unsupported(p), rel[1..]);
    }
  }

  /** The walk gets as far as the path. */
  predicate Reached(e: Env, m: Metas, kids: Forest, p: Path) {
    p == e.statedir
    || (Below(e.statedir, p) && Reach(e, m, e.statedir, kids, e.context.Some?, p[|e.statedir|..]).Some?)
  }

  /** The path's owner is wrong and the run does not get to setting it right. */
  predicate OwnerMissed(e: Env, m: Metas, kids: Forest, p: Path, v: Visit)
    requires p in m
  {
    ChownIfNeeded(e, p, v.tree.Dir?, m[p]) != [] && !(Reached(e, m, kids, p) && OwnerSet(e, p, v.tree.Dir?, m[p]))
  }

  /** The path's label is wanted and wrong and the run does not get to setting it. */
  predicate LabelMissed(e: Env, m: Metas, kids: Forest, p: Path, v: Visit)
    requires p in m
  {
    && ToLabel(e, p, v) && e.context != Some(m[p].context)
    && !(Reached(e, m, kids, p) && LabelSet(e, p, v.tree.Dir?, v.chcon, m[p]))
  }

  predicate Missed(e: Env, m: Metas, kids: Forest, p: Path)
    requires p in m
  {
    var v := Intent(e, m, kids, p);
    v.Some? && (OwnerMissed(e, m, kids, p, v.value) || LabelMissed(e, m, kids, p, v.value))
  }

  /** What a walk that completes makes of a path that is wanted. */
  lemma WalkedAt(e: Env, m: Metas, kids: Forest, p: Path)
    requires NamesDiffer(kids) && WalkSteps(e, m, kids).done && p in m
    ensures p in Walked(e, m, kids)
    ensures Intent(e, m, kids, p).None? ==> Walked(e, m, kids)[p] == m[p]
    ensures Intent(e, m, kids, p).Some? ==>
      var v := Intent(e, m, kids, p).value;
      Walked(e, m, kids)[p] == if Reached(e, m, kids, p) then After(e, p, v.tree.Dir?, v.chcon, m[p]) else m[p]
  {
    WalkedOutcome(e, m, kids);
    if Below(e.statedir, p) {
      SplitBelow(e.statedir, p);
      if Reached(e, m, kids, p) {
        ReachDespiteFaults(e, m, e.statedir, kids, e.context.Some?, p[|e.statedir|..]);
      }
    }
  }

  lemma AfterReached(e: Env, m: Metas, kids: Forest, p: Path, v: Visit)
    requires p in m && Intent(e, m, kids, p) == Some(v) && Reached(e, m, kids, p)
    ensures After(e, p, v.tree.Dir?, v.chcon, m[p]) == Finished(e, m, kids, p) <==> !Missed(e, m, kids, p)
  {}

  lemma LeftUnreached(e: Env, m: Metas, kids: Forest, p: Path, v: Visit)
    requires p in m && Intent(e, m, kids, p) == Some(v) && !Reached(e, m, kids, p)
    ensures m[p] == Finished(e, m, kids, p) <==> !Missed(e, m, kids, p)
  {}

  lemma FinishedUnlessMissed(e: Env, m: Metas, kids: Forest, p: Path)
    requires NamesDiffer(kids) && WalkSteps(e, m, kids).done && p in m
    ensures p in Walked(e, m, kids)
    ensures Walked(e, m, kids)[p] == Finished(e, m, kids, p) <==> !Missed(e, m, kids, p)
  {
    WalkedAt(e, m, kids, p);
    var v := Intent(e, m, kids, p);
    if v.Some? {
      if Reached(e, m, kids, p) {
        AfterReached(e, m, kids, p, v.value);
      } else {
        LeftUnreached(e, m, kids, p, v.value);
      }
    }
  }

  /** What a run under these failures leaves. */
  function Left(c: Config, m: Metas, kids: Forest, faults: Path -> Fault): Metas {
    Apply(m, RunSteps(Setup(c, m, faults, false), m, kids).effects)
  }

  lemma {:induction false} LeftAt(c: Config, m: Metas, kids: Forest, faults: Path -> Fault)
    requires NamesDiffer(kids)
    ensures var e := Setup(c, m, faults, false);
            RunSteps(e, m, kids).done ==>
              && WalkSteps(e, m, kids).done
              && Left(c, m, kids, faults) == Walked(e, m, kids) - {c.Marker()}
              && Walked(e, m, kids).Keys == m.Keys
  {
    var e := Setup(c, m, faults, false);
    WalkedOutcome(e, m, kids);
    if RunSteps(e, m, kids).done {
      RunApplied(e, m, kids);
      assert c.Marker() !in m ==> Walked(e, m, kids) - {c.Marker()} == Walked(e, m, kids);
    }
  }

  lemma FinishedAsWithoutFaults(c: Config, m: Metas, kids: Forest, faults: Path -> Fault, p: Path)
    requires p in m
    ensures Finished(FaultFree(c, m), m, kids, p) == Finished(Setup(c, m, faults, false), m, kids, p)
  {
    assert Faultless(Setup(c, m, faults, false)) == FaultFree(c, m) == Faultless(FaultFree(c, m));
  }

  lemma SameUnlessBad(w: Metas, n: Metas, marker: Path, bad: Path -> bool)
    requires n.Keys == w.Keys - {marker} && !bad(marker)
    requires forall p :: p in n ==> (w[p] == n[p] <==> !bad(p))
    ensures w - {marker} == n <==> forall p :: p in w ==> !bad(p)
  {
    var r := w - {marker};
    assert r.Keys == n.Keys;
    assert r == n <==> forall p :: p in n ==> r[p] == n[p];
    assert forall p :: p in n ==> r[p] == w[p];
  }

  lemma CompletedWithout(c: Config, m: Metas, kids: Forest, faults: Path -> Fault, p: Path)
    requires NamesDiffer(kids) && RunSteps(Setup(c, m, faults, false), m, kids).done && p in m
    ensures Completed(c, m, kids).Keys == m.Keys - {c.Marker()}
    ensures var e := Setup(c, m, faults, false);
            && p in Walked(e, m, kids)
            && (p != c.Marker() ==>
                 (Walked(e, m, kids)[p] == Completed(c, m, kids)[p] <==> !Missed(e, m, kids, p)))
  {
    CompleteRun(c, m, kids);
    LeftAt(c, m, kids, faults);
    FinishedUnlessMissed(Setup(c, m, faults, false), m, kids, p);
    FinishedAsWithoutFaults(c, m, kids, faults, p);
  }

  function MissedBy(e: Env, m: Metas, kids: Forest): Path -> bool {
    p => p in m && Missed(e, m, kids, p)
  }

  /**
    A run that completes, and so removes the marker, although calls on some entries failed leaves
    what a run without failures leaves if and only if it missed nothing.
   */
  lemma {:induction false} CompletedDespiteFaultsIff(c: Config, m: Metas, kids: Forest, faults: Path -> Fault)
    requires NamesDiffer(kids) && RunSteps(Setup(c, m, faults, false), m, kids).done
    ensures Left(c, m, kids, faults) == Completed(c, m, kids) <==>
            forall p :: p in m ==> !Missed(Setup(c, m, faults, false), m, kids, p)
  {
    var e := Setup(c, m, faults, false);
    var bad := MissedBy(e, m, kids);
    LeftAt(c, m, kids, faults);
    MarkerUntouched(c, m, kids, e);
    CompletedWithout(c, m, kids, faults, c.statedir);
    forall p | p in m && p != c.Marker()
      ensures Walked(e, m, kids)[p] == Completed(c, m, kids)[p] <==> !bad(p)
    {
      CompletedWithout(c, m, kids, faults, p);
    }
    SameUnlessBad(Walked(e, m, kids), Completed(c, m, kids), c.Marker(), bad);
  }

  lemma FailedChownKeeps(e: Env, p: Path, isDir: bool, chcon: bool, was: Meta)
    requires e.faults(p).chown && ChownIfNeeded(e, p, isDir, was) != []
    ensures After(e, p, isDir, chcon, was) == was
  {}

  lemma FileVisit(e: Env, m: Metas, kids: Forest, p: Path)
    requires Below(e.statedir, p) && Lookup(kids, p[|e.statedir|..]) == Some(File) && Intent(e, m, kids, p).Some?
    ensures Intent(e, m, kids, p).value.tree == File
  {
    ReachedEntry(Faultless(e), m, e.statedir, kids, e.context.Some?, p[|e.statedir|..]);
  }

  lemma FailedChownWalked(e: Env, m: Metas, kids: Forest, p: Path)
    requires NamesDiffer(kids) && WalkSteps(e, m, kids).done
    requires p in m && Below(e.statedir, p) && Lookup(kids, p[|e.statedir|..]) == Some(File)
    requires e.faults(p).chown && ChownIfNeeded(e, p, false, m[p]) != []
    ensures p in Walked(e, m, kids) && Walked(e, m, kids)[p] == m[p]
  {
    WalkedAt(e, m, kids, p);
    var v := Intent(e, m, kids, p);
    if v.Some? {
      FileVisit(e, m, kids, p);
      FailedChownKeeps(e, p, false, v.value.chcon, m[p]);
    }
  }

  lemma {:induction false} FailedChownLeaves(c: Config, m: Metas, kids: Forest, faults: Path -> Fault, p: Path)
    requires NamesDiffer(kids) && RunSteps(Setup(c, m, faults, false), m, kids).done
    requires p in m && p != c.Marker() && Below(c.statedir, p) && Lookup(kids, p[|c.statedir|..]) == Some(File)
    requires faults(p).chown && ChownIfNeeded(Setup(c, m, faults, false), p, false, m[p]) != []
    ensures c.Marker() !in Left(c, m, kids, faults)
    ensures p in Left(c, m, kids, faults) && Left(c, m, kids, faults)[p] == m[p]
  {
    LeftAt(c, m, kids, faults);
    FailedChownWalked(Setup(c, m, faults, false), m, kids, p);
  }

  /**
    A file that a run was to change but whose chown failed keeps its owner, the marker is gone, and
    no later run, however it goes, changes the file.
   */
  lemma SwallowedFailureStays(c: Config, m: Metas, kids: Forest, faults: Path -> Fault, p: Path,
                              later: Path -> Fault, unlinkFails: bool, k: nat)
    requires NamesDiffer(kids) && RunSteps(Setup(c, m, faults, false), m, kids).done
    requires p in m && p != c.Marker() && Below(c.statedir, p) && Lookup(kids, p[|c.statedir|..]) == Some(File)
    requires faults(p).chown && ChownIfNeeded(Setup(c, m, faults, false), p, false, m[p]) != []
    requires var r := Left(c, m, kids, faults); k <= |RunSteps(Setup(c, r, later, unlinkFails), r, kids).effects|
    ensures c.Marker() !in Left(c, m, kids, faults)
    ensures var r := Stopped(c, Left(c, m, kids, faults), kids, later, unlinkFails, k); p in r && r[p] == m[p]
  {
    FailedChownLeaves(c, m, kids, faults, p);
    WithoutMarkerFilesStay(c, Left(c, m, kids, faults), kids, later, unlinkFails, k, p);
    assert p != c.statedir;
  }

  // Such runs exist: a marker and a file of the old owner, and a chown of the file that fails.
  const OLD := Meta(1, 1, "")
  const NEW := Meta(2, 2, "")
  const TWO_FILES := Cons("file", File, Cons("marker", File, Nil))

  function UpgradeOf(statedir: Path, unsupported: Path -> bool): Config {
    Config(statedir, NEW.uid, NEW.gid, None, "marker", [], unsupported)
  }

  function BeforeUpgrade(statedir: Path): Metas {
    map[statedir := NEW, statedir + ["marker"] := OLD, statedir + ["file"] := OLD]
  }

  lemma SwallowedFailureExists(statedir: Path, unsupported: Path -> bool, faults: Path -> Fault)
    requires faults(statedir) == NO_FAULT && faults(statedir + ["file"]) == NO_FAULT.(chown := true)
    ensures var c, m, file := UpgradeOf(statedir, unsupported), BeforeUpgrade(statedir), statedir + ["file"];
            && RunSteps(Setup(c, m, faults, false), m, TWO_FILES).done
            && c.Marker() !in Left(c, m, TWO_FILES, faults)
            && file in Left(c, m, TWO_FILES, faults) && Left(c, m, TWO_FILES, faults)[file] == OLD
            && file in Completed(c, m, TWO_FILES) && Completed(c, m, TWO_FILES)[file] == NEW
  {
    var c, m, file := UpgradeOf(statedir, unsupported), BeforeUpgrade(statedir), statedir + ["file"];
    var e := Setup(c, m, faults, false);
    FileBeside(statedir);
    FileIsWanted(e, m, statedir);
    assert OwnSteps(e, m, statedir, true, true).done;
    FailedChownLeaves(c, m, TWO_FILES, faults, file);
    CompleteRun(c, m, TWO_FILES);
    FinishedAsWithoutFaults(c, m, TWO_FILES, faults, file);
  }

  lemma FileBeside(statedir: Path)
    ensures NamesDiffer(TWO_FILES)
    ensures var file, marker := statedir + ["file"], statedir + ["marker"];
            && Below(statedir, file) && file[|statedir|..] == ["file"] && Lookup(TWO_FILES, ["file"]) == Some(File)
            && file != marker && file != statedir && marker != statedir
  {
    assert (statedir + ["file"])[|statedir|] == "file" && (statedir + ["marker"])[|statedir|] == "marker";
    assert |"file"| != |"marker"|;
  }

  lemma FileIsWanted(e: Env, m: Metas, statedir: Path)
    requires e.statedir == statedir && e.excluded == [statedir + ["marker"]]
    ensures Intent(e, m, TWO_FILES, statedir + ["file"]) == Some(Visit(File, e.context.Some?))
  {
    FileBeside(statedir);
    assert Find(TWO_FILES, "file") == Some(File);
  }
}
