/** Who owns what after the ownership walk, told by the settings, the marker and the owners before. */
module StatedirOwners {
  import opened Wrappers
  import opened Statedir
  import opened StatedirTheorems
  import opened StatedirCrash

  // ---------- What is asked for ----------

  /** The marker exists and belonged to somebody else than the target. */
  predicate OwnerMoves(c: Config, m: Metas) {
    c.Marker() in m && (m[c.Marker()].uid, m[c.Marker()].gid) != (c.uid, c.gid)
  }

  /** A file changes hands where it had the marker's owner; user and group by themselves. */
  lemma GoalsOfRun(c: Config, m: Metas, faults: Path -> Fault, unlinkFails: bool, isDir: bool, u: nat, g: nat)
    ensures var e := Setup(c, m, faults, unlinkFails);
            && e.GoalUid(isDir, u) == (if isDir || (c.Marker() in m && u == m[c.Marker()].uid) then c.uid else u)
            && e.GoalGid(isDir, g) == (if isDir || (c.Marker() in m && g == m[c.Marker()].gid) then c.gid else g)
  {}

  lemma LabelsOfRun(c: Config, m: Metas, faults: Path -> Fault, unlinkFails: bool, isDir: bool, chcon: bool)
    ensures Setup(c, m, faults, unlinkFails).Labels(isDir, chcon) <==>
            chcon && c.context.Some? && (isDir || OwnerMoves(c, m))
  {}

  /** What the tree holds at a path, the directory itself included. */
  function At(c: Config, kids: Forest, p: Path): Option<Tree> {
    if p == c.statedir then Some(Dir(kids))
    else if Below(c.statedir, p) then Lookup(kids, p[|c.statedir|..])
    else None
  }

  /** Neither the marker, nor any other excluded path, nor below one. */
  ghost predicate NotExcluded(c: Config, p: Path) {
    forall i :: |c.statedir| < i <= |p| ==> p[..i] != c.Marker() && p[..i] !in c.alsoExcluded
  }

  /** Every path from the directory down to this one exists. */
  ghost predicate WayExists(c: Config, m: Metas, p: Path) {
    forall i :: |c.statedir| <= i <= |p| ==> p[..i] in m
  }

  /** Labels are supported here and at every directory strictly between the directory and here. */
  ghost predicate Supported(c: Config, p: Path) {
    !c.unsupported(p) && forall i :: |c.statedir| < i < |p| ==> !c.unsupported(p[..i])
  }

  // ---------- Visits ----------

  lemma WayBelow(top: Path, p: Path, i: nat)
    requires Below(top, p) && i <= |p| - |top|
    ensures top + p[|top|..][..i] == p[..|top| + i]
  {
    assert p == top + p[|top|..];
  }

  lemma SupportedBetween(c: Config, e: Env, p: Path)
    requires Below(c.statedir, p) && e.unsupported == c.unsupported
    ensures LabelsSupported(e, c.statedir, p[|c.statedir|..]) <==>
            forall i :: |c.statedir| < i < |p| ==> !c.unsupported(p[..i])
  {
    var top, rel := c.statedir, p[|c.statedir|..];
    forall i: nat | i <= |rel| ensures top + rel[..i] == p[..|top| + i] {
      WayBelow(top, p, i);
    }
    if LabelsSupported(e, top, rel) {
      forall i | |top| < i < |p| ensures !c.unsupported(p[..i]) {
        assert !e.unsupported(top + rel[..i - |top|]);
      }
    }
  }

  /** A path that a run without failures visits holds what the tree says, and is not excluded. */
  lemma VisitExact(c: Config, m: Metas, kids: Forest, faults: Path -> Fault, unlinkFails: bool, p: Path)
    requires Intent(Setup(c, m, faults, unlinkFails), m, kids, p).Some?
    ensures var v := Intent(Setup(c, m, faults, unlinkFails), m, kids, p).value;
            At(c, kids, p) == Some(v.tree) && NotExcluded(c, p)
    ensures var v := Intent(Setup(c, m, faults, unlinkFails), m, kids, p).value;
            p != c.statedir ==> (v.chcon <==> c.context.Some? && forall i :: |c.statedir| < i < |p| ==> !c.unsupported(p[..i]))
    ensures p == c.statedir ==> Intent(Setup(c, m, faults, unlinkFails), m, kids, p).value.chcon
  {
    var e := Setup(c, m, faults, unlinkFails);
    if p != c.statedir {
      var rel := p[|c.statedir|..];
      ReachedEntry(Faultless(e), m, c.statedir, kids, c.context.Some?, rel);
      SupportedBetween(c, Faultless(e), p);
      OpenWay(c, Faultless(e), p);
    }
  }

  lemma OpenWay(c: Config, e: Env, p: Path)
    requires Below(c.statedir, p) && e.excluded == [c.Marker()] + c.alsoExcluded
    requires WayOpen(e, c.statedir, p[|c.statedir|..])
    ensures NotExcluded(c, p)
  {
    var top, rel := c.statedir, p[|c.statedir|..];
    forall i | |top| < i <= |p| ensures p[..i] !in e.excluded {
      WayBelow(top, p, i - |top|);
      assert top + rel[..i - |top|] !in e.excluded;
    }
  }

  /** Conversely, what the tree holds, exists all the way and is not excluded is visited. */
  lemma Visited(c: Config, m: Metas, kids: Forest, p: Path)
    requires At(c, kids, p).Some? && NotExcluded(c, p) && WayExists(c, m, p)
    ensures Intent(FaultFree(c, m), m, kids, p).Some?
  {
    var e, top := FaultFree(c, m), c.statedir;
    if p != top {
      var rel := p[|top|..];
      assert e == Faultless(e);
      forall i | 0 < i <= |rel| ensures Sound(e, m, top + rel[..i]) {
        WayBelow(top, p, i);
      }
      ReachWhenSound(e, m, top, kids, c.context.Some?, rel);
    }
  }

  // ---------- After a complete run ----------

  /** The label that an entry is to have, if one is to be set. */
  ghost predicate GetsLabel(c: Config, m: Metas, p: Path, isDir: bool) {
    c.context.Some? && Supported(c, p) && (isDir || OwnerMoves(c, m))
  }

  lemma GetsLabelIff(c: Config, m: Metas, kids: Forest, faults: Path -> Fault, unlinkFails: bool, p: Path)
    requires Intent(Setup(c, m, faults, unlinkFails), m, kids, p).Some?
    ensures var e := Setup(c, m, faults, unlinkFails);
            var v := Intent(e, m, kids, p).value;
            ToLabel(e, p, v) <==> GetsLabel(c, m, p, v.tree.Dir?)
  {
    var v := Intent(Setup(c, m, faults, unlinkFails), m, kids, p).value;
    VisitExact(c, m, kids, faults, unlinkFails, p);
    LabelsOfRun(c, m, faults, unlinkFails, v.tree.Dir?, v.chcon);
  }

  /**
    After a complete run a directory belongs to the target; a file has the target's user if the marker
    existed and the file had the marker's user, and otherwise the user it had; likewise for the group; and
    labels are set on directories, and on files where the owner moves, as far as they are supported.
    What the walk does not come to, because it is excluded or outside, is as it was.
   */
  lemma OwnersAfterRun(c: Config, m: Metas, kids: Forest, p: Path)
    requires NamesDiffer(kids) && c.statedir in m && p in m && p != c.Marker()
    ensures p in Completed(c, m, kids)
    ensures At(c, kids, p).Some? && NotExcluded(c, p) && WayExists(c, m, p) ==>
      var isDir, now := At(c, kids, p).value.Dir?, Completed(c, m, kids)[p];
      && now.uid == (if isDir || (c.Marker() in m && m[p].uid == m[c.Marker()].uid) then c.uid else m[p].uid)
      && now.gid == (if isDir || (c.Marker() in m && m[p].gid == m[c.Marker()].gid) then c.gid else m[p].gid)
      && now.context == (if GetsLabel(c, m, p, isDir) then c.context.value else m[p].context)
    ensures At(c, kids, p).None? || !NotExcluded(c, p) ==> Completed(c, m, kids)[p] == m[p]
  {
    var e := FaultFree(c, m);
    CompleteRun(c, m, kids);
    var v := Intent(e, m, kids, p);
    if v.Some? {
      VisitExact(c, m, kids, NO_FAULTS, false, p);
      GoalsOfRun(c, m, NO_FAULTS, false, v.value.tree.Dir?, m[p].uid, m[p].gid);
      GetsLabelIff(c, m, kids, NO_FAULTS, false, p);
    } else if At(c, kids, p).Some? && NotExcluded(c, p) && WayExists(c, m, p) {
      Visited(c, m, kids, p);
    }
  }

  // ---------- During any run ----------

  /** What may become of an entry, however far a run gets and whatever fails. */
  ghost predicate MayBecome(c: Config, m: Metas, kids: Forest, p: Path, was: Meta, now: Meta) {
    var isDir := At(c, kids, p).Some? && At(c, kids, p).value.Dir?;
    && (now.uid != was.uid ==> now.uid == c.uid && (isDir || (c.Marker() in m && was.uid == m[c.Marker()].uid)))
    && (now.gid != was.gid ==> now.gid == c.gid && (isDir || (c.Marker() in m && was.gid == m[c.Marker()].gid)))
    && (now.context != was.context ==> Some(now.context) == c.context && GetsLabel(c, m, p, isDir))
    && (now != was ==> At(c, kids, p).Some? && NotExcluded(c, p))
  }

  lemma PartlyMayBecome(c: Config, m: Metas, r: Metas, kids: Forest, faults: Path -> Fault, unlinkFails: bool, p: Path)
    requires PartlyDone(Setup(c, m, faults, unlinkFails), m, r, kids) && p in m
    ensures p in r && MayBecome(c, m, kids, p, m[p], r[p])
  {
    var e := Setup(c, m, faults, unlinkFails);
    var v := Intent(e, m, kids, p);
    if v.Some? {
      VisitExact(c, m, kids, faults, unlinkFails, p);
      GoalsOfRun(c, m, faults, unlinkFails, v.value.tree.Dir?, m[p].uid, m[p].gid);
      GetsLabelIff(c, m, kids, faults, unlinkFails, p);
    }
  }

  /** A prefix of a run is a prefix of the walk, or the whole walk and the marker's removal. */
  lemma PrefixShape(e: Env, m: Metas, kids: Forest, k: nat)
    requires k <= |RunSteps(e, m, kids).effects|
    ensures var walk, run := WalkSteps(e, m, kids).effects, RunSteps(e, m, kids).effects;
            var j := if k <= |walk| then k else |walk|;
            && j <= |walk|
            && (Apply(m, run[..k]) == Apply(m, walk[..j]) || Apply(m, run[..k]) == Apply(m, walk[..j]) - {e.marker})
  {
    var walk, run := WalkSteps(e, m, kids).effects, RunSteps(e, m, kids).effects;
    RunShape(e, m, kids);
    if k > |walk| {
      assert run[..k] == walk + [Unlink(e.marker)] && walk[..|walk|] == walk;
      UnlinkRemoves(m, walk, e.marker);
    } else {
      assert run[..k] == walk[..k];
    }
  }

  /**
    However far a run gets and whatever fails: a user or group changes only to the target's, and on a file
    only from the marker's; a label only to the target's, where one is to be set; and nothing that is
    excluded or outside changes at all.
   */
  lemma OwnersDuringRun(c: Config, m: Metas, kids: Forest, faults: Path -> Fault, unlinkFails: bool, k: nat, p: Path)
    requires NamesDiffer(kids) && p in m
    requires k <= |RunSteps(Setup(c, m, faults, unlinkFails), m, kids).effects|
    ensures p != c.Marker() ==> p in Stopped(c, m, kids, faults, unlinkFails, k)
    ensures p in Stopped(c, m, kids, faults, unlinkFails, k) ==>
      MayBecome(c, m, kids, p, m[p], Stopped(c, m, kids, faults, unlinkFails, k)[p])
  {
    var e := Setup(c, m, faults, unlinkFails);
    var walk := WalkSteps(e, m, kids).effects;
    var j := if k <= |walk| then k else |walk|;
    PrefixShape(e, m, kids, k);
    PrefixPartlyDone(e, m, kids, j);
    PartlyMayBecome(c, m, Apply(m, walk[..j]), kids, faults, unlinkFails, p);
  }

  // ---------- Under faults ----------

  /**
    In a walk that came to its end, an entry on whose way, itself included, nothing failed has just the
    owner and the label that a run without failures gives it.
   */
  lemma OwnersDespiteFaults(c: Config, m: Metas, kids: Forest, faults: Path -> Fault, unlinkFails: bool, p: Path)
    requires NamesDiffer(kids) && WalkSteps(Setup(c, m, faults, unlinkFails), m, kids).done
    requires Below(c.statedir, p) && At(c, kids, p).Some? && NotExcluded(c, p) && WayExists(c, m, p)
    requires forall i :: |c.statedir| < i <= |p| ==> faults(p[..i]) == NO_FAULT
    ensures p in m && p in Walked(Setup(c, m, faults, unlinkFails), m, kids)
    ensures var isDir, now := At(c, kids, p).value.Dir?, Walked(Setup(c, m, faults, unlinkFails), m, kids)[p];
            && now.uid == (if isDir || (c.Marker() in m && m[p].uid == m[c.Marker()].uid) then c.uid else m[p].uid)
            && now.gid == (if isDir || (c.Marker() in m && m[p].gid == m[c.Marker()].gid) then c.gid else m[p].gid)
            && now.context == (if GetsLabel(c, m, p, isDir) then c.context.value else m[p].context)
  {
    var e := Setup(c, m, faults, unlinkFails);
    var top, rel := c.statedir, p[|c.statedir|..];
    var isDir := At(c, kids, p).value.Dir?;
    SplitBelow(top, p);
    forall i | 0 < i <= |rel| ensures Sound(e, m, top + rel[..i]) {
      WayBelow(top, p, i);
    }
    FaultIsolation(e, m, kids, rel);
    SupportedBetween(c, e, p);
    GoalsOfRun(c, m, faults, unlinkFails, isDir, m[p].uid, m[p].gid);
    LabelsOfRun(c, m, faults, unlinkFails, isDir, c.context.Some? && LabelsSupported(e, top, rel));
  }
}
