/**
  The ownership walk over the nova state directory.

  The tree below the directory is fixed during a run; owners and SELinux contexts are not.  System
  calls may fail, entry by entry.  A run is known by the effects it has on the file system, in
  order, so that stopping a run anywhere is taking a prefix of its effects.
 */
module Statedir {
  import opened Wrappers

  type Path = seq<string>

  datatype Meta = Meta(uid: nat, gid: nat, context: string)

  type Metas = map<Path, Meta>

  datatype Tree = File | Dir(kids: Forest)
  datatype Forest = Nil | Cons(name: string, tree: Tree, rest: Forest)

  /** What changes the file system; None leaves that part of the owner as it is (-1 in os.chown). */
  datatype Effect =
    | Chown(path: Path, uid: Option<nat>, gid: Option<nat>)
    | Label(path: Path, context: string)
    | Unlink(path: Path)

  function Perform(m: Metas, f: Effect): Metas {
    match f
    case Chown(p, u, g) =>
      if p !in m then m
      else m[p := m[p].(uid := if u.Some? then u.value else m[p].uid, gid := if g.Some? then g.value else m[p].gid)]
    case Label(p, c) =>
      if p !in m then m else m[p := m[p].(context := c)]
    case Unlink(p) => m - {p}
  }

  function Apply(m: Metas, log: seq<Effect>): Metas {
    if log == [] then m else Perform(Apply(m, log[..|log| - 1]), log[|log| - 1])
  }

  /** Which system calls on an entry raise: the first stat, chown, the stat after it, setting the label, listing. */
  datatype Fault = Fault(stat: bool, chown: bool, restat: bool, setLabel: bool, list: bool)

  /**
    What a run works with: the settings, the identities it read at the start, the paths where
    setting a label is not supported, and the calls that fail.
   */
  datatype Env = Env(
    statedir: Path,
    uid: nat, gid: nat,
    previousUid: nat, previousGid: nat,
    context: Option<string>,
    excluded: seq<Path>,
    marker: Path,
    upgrade: bool,
    unsupported: Path -> bool,
    faults: Path -> Fault,
    unlinkFails: bool)
  {
    predicate IdChange() {
      (uid, gid) != (previousUid, previousGid)
    }

    /** The owner an entry is to have: directories the target's, files the target's where they had the previous. */
    function GoalUid(isDir: bool, u: nat): nat {
      if isDir || (IdChange() && u == previousUid) then uid else u
    }

    function GoalGid(isDir: bool, g: nat): nat {
      if isDir || (IdChange() && g == previousGid) then gid else g
    }

    /** A label is attempted on this kind of entry, given what the directories above allow. */
    predicate Labels(isDir: bool, chcon: bool) {
      chcon && context.Some? && (isDir || IdChange())
    }
  }

  // ---------- One entry ----------

  function ChownIfNeeded(e: Env, p: Path, isDir: bool, was: Meta): seq<Effect> {
    var u, g := e.GoalUid(isDir, was.uid), e.GoalGid(isDir, was.gid);
    if u == was.uid && g == was.gid then []
    else [Chown(p, if u != was.uid then Some(u) else None, if g != was.gid then Some(g) else None)]
  }

  /** The effects on an entry, and whether the operations on it came to their end without an exception. */
  datatype Steps = Steps(effects: seq<Effect>, done: bool)

  /** Reading the entry and changing its owner where needed. */
  function OwnerSteps(e: Env, m: Metas, p: Path, isDir: bool): Steps {
    if e.faults(p).stat || p !in m then
      Steps([], false)
    else
      var own := ChownIfNeeded(e, p, isDir, m[p]);
      if own == [] then Steps([], true)
      else if e.faults(p).chown then Steps([], false)
      else Steps(own, !e.faults(p).restat)
  }

  /** Setting the label where wanted; where labels are not supported that is a failure for a file only. */
  function LabelSteps(e: Env, p: Path, isDir: bool, chcon: bool): Steps {
    if !e.Labels(isDir, chcon) then Steps([], true)
    else if e.unsupported(p) then Steps([], isDir)
    else if e.faults(p).setLabel then Steps([], false)
    else Steps([Label(p, e.context.value)], true)
  }

  /** Lines 187-194 and 199-206: the operations on the entry itself. */
  function OwnSteps(e: Env, m: Metas, p: Path, isDir: bool, chcon: bool): Steps {
    var owner := OwnerSteps(e, m, p, isDir);
    if !owner.done then owner
    else
      var labelled := LabelSteps(e, p, isDir, chcon);
      Steps(owner.effects + labelled.effects, labelled.done)
  }

  /** The entry and what is below it. */
  function EntryEffects(e: Env, m: Metas, p: Path, tree: Tree, chcon: bool): seq<Effect>
    decreases tree
  {
    var own := OwnSteps(e, m, p, tree.Dir?, chcon);
    if tree.Dir? && own.done && !e.faults(p).list then
      own.effects + WalkEffects(e, Apply(m, own.effects), p, tree.kids, chcon && !e.unsupported(p))
    else
      own.effects
  }

  /** _walk over the entries of a directory. */
  function WalkEffects(e: Env, m: Metas, top: Path, kids: Forest, chcon: bool): seq<Effect>
    decreases kids
  {
    match kids
    case Nil => []
    case Cons(name, tree, rest) =>
      var first := if top + [name] in e.excluded then [] else EntryEffects(e, m, top + [name], tree, chcon);
      first + WalkEffects(e, Apply(m, first), top, rest, chcon)
  }

  // ---------- The whole run ----------

  /** Lines 221-229: the directory itself, then the walk; a failure here ends the run. */
  function WalkSteps(e: Env, m: Metas, kids: Forest): Steps {
    var own := OwnSteps(e, m, e.statedir, true, true);
    if !own.done || e.faults(e.statedir).list then
      Steps(own.effects, false)
    else
      Steps(own.effects + WalkEffects(e, Apply(m, own.effects), e.statedir, kids, e.context.Some?), true)
  }

  /** run */
  function RunSteps(e: Env, m: Metas, kids: Forest): Steps {
    var walk := WalkSteps(e, m, kids);
    if !walk.done || !e.upgrade then walk
    else if e.unlinkFails then Steps(walk.effects, false)
    else Steps(walk.effects + [Unlink(e.marker)], true)
  }

  /** The settings of the manager, before it looks at the marker. */
  datatype Config = Config(
    statedir: Path,
    uid: nat, gid: nat,
    context: Option<string>,
    markerName: string,
    alsoExcluded: seq<Path>,
    unsupported: Path -> bool)
  {
    function Marker(): Path {
      statedir + [markerName]
    }
  }

  const NO_FAULT := Fault(false, false, false, false, false)

  /** __init__: an upgrade, with the marker's owner as the previous one, exactly when the marker exists. */
  function Setup(c: Config, m: Metas, faults: Path -> Fault, unlinkFails: bool): Env {
    var upgrade := c.Marker() in m;
    Env(c.statedir, c.uid, c.gid,
        if upgrade then m[c.Marker()].uid else c.uid, if upgrade then m[c.Marker()].gid else c.gid,
        c.context, [c.Marker()] + c.alsoExcluded, c.Marker(), upgrade, c.unsupported, faults, unlinkFails)
  }

  const NO_FAULTS: Path -> Fault := _ => NO_FAULT

  function FaultFree(c: Config, m: Metas): Env {
    Setup(c, m, NO_FAULTS, false)
  }
}
