/** What the ownership walk guarantees: entry by entry under any failures, and over crashes and re-runs. */
module StatedirTheorems {
  import opened Wrappers
  import opened Statedir

  // ---------- Sequences of effects ----------

  lemma {:induction false} ApplyConcat(m: Metas, a: seq<Effect>, b: seq<Effect>)
    ensures Apply(m, a + b) == Apply(Apply(m, a), b)
  {
    if b == [] {
      assert a + b == a;
    } else {
      assert (a + b)[..|a + b| - 1] == a + b[..|b| - 1];
      ApplyConcat(m, a, b[..|b| - 1]);
    }
  }

  lemma ApplyOne(m: Metas, f: Effect)
    ensures Apply(m, [f]) == Perform(m, f)
  {
    assert [f][..0] == [];
    assert Apply(m, []) == m;
  }

  // ---------- Where the walk gets to ----------

  function Find(kids: Forest, name: string): Option<Tree> {
    match kids
    case Nil => None
    case Cons(n, tree, rest) => if n == name then Some(tree) else Find(rest, name)
  }

  predicate NamesDiffer(kids: Forest) {
    match kids
    case Nil => true
    case Cons(n, tree, rest) => Find(rest, n).None? && (tree.Dir? ==> NamesDiffer(tree.kids)) && NamesDiffer(rest)
  }

  /** How an entry is visited: what it is, and whether a label is wanted. */
  datatype Visit = Visit(tree: Tree, chcon: bool)

  /**
    The walk reaches the entry at this path below `top`: no excluded path on the way, and every
    directory on the way came to its end and could be listed.  The label is wanted when it was
    wanted at `top` and no directory on the way reported that labels are not supported.
   */
  function Reach(e: Env, m: Metas, top: Path, kids: Forest, chcon: bool, rel: Path): Option<Visit>
    requires rel != []
    decreases |rel|
  {
    var p := top + [rel[0]];
    var tree := Find(kids, rel[0]);
    if tree.None? || p in e.excluded then None
    else if |rel| == 1 then Some(Visit(tree.value, chcon))
    else if tree.value.File? || e.faults(p).list || !OwnSteps(e, m, p, true, chcon).done then None
    else Reach(e, m, p, tree.value.kids, chcon && !e.unsupported(p), rel[1..])
  }

  /** The owner change went through: the entry could be read and, where a change was needed, chown did not fail. */
  predicate OwnerSet(e: Env, p: Path, isDir: bool, was: Meta) {
    !e.faults(p).stat && (ChownIfNeeded(e, p, isDir, was) != [] ==> !e.faults(p).chown)
  }

  predicate LabelSet(e: Env, p: Path, isDir: bool, chcon: bool, was: Meta) {
    && OwnerSet(e, p, isDir, was)
    && (ChownIfNeeded(e, p, isDir, was) != [] ==> !e.faults(p).restat)
    && e.Labels(isDir, chcon) && !e.unsupported(p) && !e.faults(p).setLabel
  }

  /** What the operations on an entry make of it. */
  function After(e: Env, p: Path, isDir: bool, chcon: bool, was: Meta): Meta {
    var owner := OwnerAfter(e, p, isDir, was);
    if LabelSet(e, p, isDir, chcon, was) then owner.(context := e.context.value) else owner
  }

  /** What the walk makes of the entry at this path below `top`. */
  function Outcome(e: Env, m: Metas, top: Path, kids: Forest, chcon: bool, rel: Path): Meta
    requires rel != [] && top + rel in m
  {
    match Reach(e, m, top, kids, chcon, rel)
    case None => m[top + rel]
    case Some(v) => After(e, top + rel, v.tree.Dir?, v.chcon, m[top + rel])
  }

  predicate Below(top: Path, p: Path) {
    |top| < |p| && p[..|top|] == top
  }

  lemma ChownOutcome(e: Env, m: Metas, p: Path, isDir: bool)
    requires p in m
    ensures Apply(m, ChownIfNeeded(e, p, isDir, m[p]))
         == m[p := m[p].(uid := e.GoalUid(isDir, m[p].uid), gid := e.GoalGid(isDir, m[p].gid))]
  {
    var own := ChownIfNeeded(e, p, isDir, m[p]);
    if own == [] {
      assert m[p := m[p]] == m;
    } else {
      ApplyOne(m, own[0]);
    }
  }

  function OwnerAfter(e: Env, p: Path, isDir: bool, was: Meta): Meta {
    if OwnerSet(e, p, isDir, was) then was.(uid := e.GoalUid(isDir, was.uid), gid := e.GoalGid(isDir, was.gid)) else was
  }

  lemma OwnerStepsOutcome(e: Env, m: Metas, p: Path, isDir: bool)
    ensures Apply(m, OwnerSteps(e, m, p, isDir).effects) ==
            if p in m then m[p := OwnerAfter(e, p, isDir, m[p])] else m
  {
    assert Apply(m, []) == m;
    if p in m {
      ChownOutcome(e, m, p, isDir);
      assert m[p := m[p]] == m;
    }
  }

  lemma LabelStepsOutcome(e: Env, n: Metas, p: Path, isDir: bool, chcon: bool)
    ensures var effects := LabelSteps(e, p, isDir, chcon).effects;
            Apply(n, effects) == if effects == [] || p !in n then n else n[p := n[p].(context := e.context.value)]
  {
    var effects := LabelSteps(e, p, isDir, chcon).effects;
    if effects == [] {
      assert Apply(n, []) == n;
    } else {
      ApplyOne(n, effects[0]);
    }
  }

  lemma LabelSetIff(e: Env, m: Metas, p: Path, isDir: bool, chcon: bool)
    requires p in m
    ensures LabelSet(e, p, isDir, chcon, m[p]) <==>
            OwnerSteps(e, m, p, isDir).done && LabelSteps(e, p, isDir, chcon).effects != []
  {}

  lemma OwnStepsOutcome(e: Env, m: Metas, p: Path, isDir: bool, chcon: bool)
    ensures Apply(m, OwnSteps(e, m, p, isDir, chcon).effects) ==
            if p in m then m[p := After(e, p, isDir, chcon, m[p])] else m
  {
    var owner, labelled := OwnerSteps(e, m, p, isDir), LabelSteps(e, p, isDir, chcon).effects;
    OwnerStepsOutcome(e, m, p, isDir);
    if p in m {
      LabelSetIff(e, m, p, isDir, chcon);
      OwnStepsApplied(e, m, p, isDir, chcon);
      if owner.done && labelled != [] {
        var was := OwnerAfter(e, p, isDir, m[p]);
        assert m[p := was][p := was.(context := e.context.value)] == m[p := was.(context := e.context.value)];
      }
    }
  }

  lemma OwnStepsApplied(e: Env, m: Metas, p: Path, isDir: bool, chcon: bool)
    requires p in m
    ensures var owner, labelled := OwnerSteps(e, m, p, isDir), LabelSteps(e, p, isDir, chcon).effects;
            var n := Apply(m, owner.effects);
            p in n && Apply(m, OwnSteps(e, m, p, isDir, chcon).effects) ==
              if owner.done && labelled != [] then n[p := n[p].(context := e.context.value)] else n
  {
    var owner := OwnerSteps(e, m, p, isDir);
    OwnerStepsOutcome(e, m, p, isDir);
    if owner.done {
      ApplyConcat(m, owner.effects, LabelSteps(e, p, isDir, chcon).effects);
      LabelStepsOutcome(e, Apply(m, owner.effects), p, isDir, chcon);
    }
  }

  /** The two states agree on everything below `top` whose first name is one of these. */
  ghost predicate AgreeBelow(m: Metas, n: Metas, top: Path, kids: Forest) {
    && m.Keys == n.Keys
    && forall p :: Below(top, p) && Find(kids, p[|top|]).Some? && p in m ==> m[p] == n[p]
  }

  lemma {:induction false} ReachLocal(e: Env, m: Metas, n: Metas, top: Path, kids: Forest, chcon: bool, rel: Path)
    requires rel != [] && AgreeBelow(m, n, top, kids)
    ensures Reach(e, m, top, kids, chcon, rel) == Reach(e, n, top, kids, chcon, rel)
    decreases |rel|
  {
    var p := top + [rel[0]];
    var tree := Find(kids, rel[0]);
    if tree.Some? {
      assert Below(top, p) && p[|top|] == rel[0];
      assert OwnSteps(e, m, p, true, chcon).done == OwnSteps(e, n, p, true, chcon).done;
      if |rel| > 1 && tree.value.Dir? {
        forall q | Below(p, q) && q in m ensures m[q] == n[q] {
          assert q[..|top|] == p[..|top|] == top && q[|top|] == p[|top|];
          assert Below(top, q);
        }
        ReachLocal(e, m, n, p, tree.value.kids, chcon && !e.unsupported(p), rel[1..]);
      }
    }
  }

  /** The state after part of a walk: outcomes below `top`, everything else as it was. */
  ghost predicate WalkedTo(e: Env, m: Metas, r: Metas, top: Path, kids: Forest, chcon: bool) {
    && r.Keys == m.Keys
    && (forall rel: Path :: rel != [] && top + rel in m ==> r[top + rel] == Outcome(e, m, top, kids, chcon, rel))
    && (forall p :: p in m && !Below(top, p) ==> r[p] == m[p])
  }

  predicate GoesOn(e: Env, m: Metas, p: Path, tree: Tree, chcon: bool) {
    tree.Dir? && OwnSteps(e, m, p, true, chcon).done && !e.faults(p).list
  }

  /** From the state after the directory's own operations to the state after the walk below it. */
  lemma EntryStep(e: Env, m: Metas, n: Metas, p: Path, kids: Forest, flag: bool, r: Metas)
    requires n.Keys == m.Keys && (forall q :: q in m && q != p ==> n[q] == m[q])
    requires WalkedTo(e, n, r, p, kids, flag)
    ensures r.Keys == m.Keys
    ensures forall q :: q in m && q != p && !Below(p, q) ==> r[q] == m[q]
    ensures p in m ==> r[p] == n[p]
    ensures forall rel: Path :: rel != [] && p + rel in m ==> r[p + rel] == Outcome(e, m, p, kids, flag, rel)
  {
    forall rel: Path | rel != [] && p + rel in m ensures r[p + rel] == Outcome(e, m, p, kids, flag, rel) {
      assert |p + rel| > |p|;
      ReachLocal(e, m, n, p, kids, flag, rel);
    }
  }

  lemma SplitBelow(top: Path, p: Path)
    requires Below(top, p)
    ensures var rel := p[|top|..]; rel != [] && p == top + rel && rel[0] == p[|top|]
  {}

  /** After one entry: its own outcome and that of everything below it; nothing else changed. */
  ghost predicate EntryDone(e: Env, m: Metas, r: Metas, top: Path, name: string, tree: Tree, chcon: bool) {
    && r.Keys == m.Keys
    && (forall rel: Path :: rel != [] && rel[0] == name && top + rel in m ==>
         r[top + rel] == Outcome(e, m, top, Cons(name, tree, Nil), chcon, rel))
    && (forall p :: p in m && !(Below(top, p) && p[|top|] == name) ==> r[p] == m[p])
  }

  /** The same, seen from the entry's own path. */
  ghost predicate EntryWalked(e: Env, m: Metas, r: Metas, p: Path, tree: Tree, chcon: bool) {
    && r.Keys == m.Keys
    && (forall q :: q in m && q != p && !Below(p, q) ==> r[q] == m[q])
    && (p in m ==> r[p] == After(e, p, tree.Dir?, chcon, m[p]))
    && (forall rel: Path :: rel != [] && p + rel in m ==>
         r[p + rel] == if GoesOn(e, m, p, tree, chcon) then Outcome(e, m, p, tree.kids, chcon && !e.unsupported(p), rel)
                       else m[p + rel])
  }

  /** After a directory's own operations and the walk below it. */
  ghost predicate OwnAndBelow(e: Env, m: Metas, r: Metas, p: Path, kids: Forest, chcon: bool, flag: bool) {
    && r.Keys == m.Keys
    && (forall q :: q in m && q != p && !Below(p, q) ==> r[q] == m[q])
    && (p in m ==> r[p] == After(e, p, true, chcon, m[p]))
    && (forall rel: Path :: rel != [] && p + rel in m ==> r[p + rel] == Outcome(e, m, p, kids, flag, rel))
  }

  lemma NotItself(p: Path, rel: Path)
    ensures rel != [] ==> p + rel != p && Below(p, p + rel)
  {
    assert |p + rel| == |p| + |rel|;
  }

  lemma OwnThenBelow(e: Env, m: Metas, p: Path, kids: Forest, chcon: bool, flag: bool, below: seq<Effect>)
    requires var own := OwnSteps(e, m, p, true, chcon).effects;
             WalkedTo(e, Apply(m, own), Apply(Apply(m, own), below), p, kids, flag)
    ensures OwnAndBelow(e, m, Apply(m, OwnSteps(e, m, p, true, chcon).effects + below), p, kids, chcon, flag)
  {
    var own := OwnSteps(e, m, p, true, chcon).effects;
    OwnStepsOutcome(e, m, p, true, chcon);
    ApplyConcat(m, own, below);
    EntryStep(e, m, Apply(m, own), p, kids, flag, Apply(Apply(m, own), below));
  }

  lemma {:induction false} EntryEffectsOutcome(e: Env, m: Metas, p: Path, tree: Tree, chcon: bool)
    requires tree.Dir? ==> NamesDiffer(tree.kids)
    ensures EntryWalked(e, m, Apply(m, EntryEffects(e, m, p, tree, chcon)), p, tree, chcon)
    decreases tree, 0
  {
    var own := OwnSteps(e, m, p, tree.Dir?, chcon);
    forall rel: Path {
      NotItself(p, rel);
    }
    if GoesOn(e, m, p, tree, chcon) {
      var n, flag := Apply(m, own.effects), chcon && !e.unsupported(p);
      WalkOutcome(e, n, p, tree.kids, flag);
      OwnThenBelow(e, m, p, tree.kids, chcon, flag, WalkEffects(e, n, p, tree.kids, flag));
    } else {
      OwnStepsOutcome(e, m, p, tree.Dir?, chcon);
    }
  }

  lemma {:induction false} EntryOutcome(e: Env, m: Metas, top: Path, name: string, tree: Tree, chcon: bool)
    requires top + [name] !in e.excluded && (tree.Dir? ==> NamesDiffer(tree.kids))
    ensures EntryDone(e, m, Apply(m, EntryEffects(e, m, top + [name], tree, chcon)), top, name, tree, chcon)
    decreases tree, 1
  {
    EntryEffectsOutcome(e, m, top + [name], tree, chcon);
    EntryFrame(e, m, Apply(m, EntryEffects(e, m, top + [name], tree, chcon)), top, name, tree, chcon);
  }

  lemma BelowChild(top: Path, name: string, q: Path)
    requires Below(top + [name], q)
    ensures Below(top, q) && q[|top|] == name
  {
    var p := top + [name];
    assert q[..|top|] == p[..|top|] && q[|top|] == p[|top|];
  }

  /** The outcome seen from above the entry is the one seen from the entry. */
  lemma OutcomeFromAbove(e: Env, m: Metas, r: Metas, top: Path, name: string, tree: Tree, chcon: bool, rel: Path)
    requires top + [name] !in e.excluded && EntryWalked(e, m, r, top + [name], tree, chcon)
    requires rel != [] && rel[0] == name && top + rel in m
    ensures r[top + rel] == Outcome(e, m, top, Cons(name, tree, Nil), chcon, rel)
  {
    if |rel| == 1 {
      assert rel == [name];
    } else {
      assert top + rel == top + [name] + rel[1..];
    }
  }

  lemma EntryFrame(e: Env, m: Metas, r: Metas, top: Path, name: string, tree: Tree, chcon: bool)
    requires top + [name] !in e.excluded && EntryWalked(e, m, r, top + [name], tree, chcon)
    ensures EntryDone(e, m, r, top, name, tree, chcon)
  {
    var p := top + [name];
    assert p[..|top|] == top && p[|top|] == name;
    forall q | q in m && !(Below(top, q) && q[|top|] == name) ensures r[q] == m[q] {
      if Below(p, q) {
        BelowChild(top, name, q);
      }
    }
    forall rel: Path | rel != [] && rel[0] == name && top + rel in m
      ensures r[top + rel] == Outcome(e, m, top, Cons(name, tree, Nil), chcon, rel)
    {
      OutcomeFromAbove(e, m, r, top, name, tree, chcon, rel);
    }
  }

  lemma ReachOfOne(e: Env, m: Metas, top: Path, name: string, tree: Tree, rest: Forest, chcon: bool, rel: Path)
    requires rel != []
    ensures Reach(e, m, top, Cons(name, tree, rest), chcon, rel)
         == if rel[0] == name then Reach(e, m, top, Cons(name, tree, Nil), chcon, rel) else Reach(e, m, top, rest, chcon, rel)
  {}

  /**
    The walk, entry by entry: whatever fails, each entry below `top` has exactly the outcome that
    its own operations and the directories on its way decide, and nothing else changes.
   */
  lemma {:induction false} WalkOutcome(e: Env, m: Metas, top: Path, kids: Forest, chcon: bool)
    requires NamesDiffer(kids)
    ensures WalkedTo(e, m, Apply(m, WalkEffects(e, m, top, kids, chcon)), top, kids, chcon)
    decreases kids, 1
  {
    match kids
    case Nil =>
      assert Apply(m, []) == m;
    case Cons(name, tree, rest) =>
      var p := top + [name];
      var first := if p in e.excluded then [] else EntryEffects(e, m, p, tree, chcon);
      var n := Apply(m, first);
      if p in e.excluded {
        assert Apply(m, []) == m;
      } else {
        EntryOutcome(e, m, top, name, tree, chcon);
      }
      assert EntryDone(e, m, n, top, name, tree, chcon);
      var r := Apply(n, WalkEffects(e, n, top, rest, chcon));
      WalkOutcome(e, n, top, rest, chcon);
      ApplyConcat(m, first, WalkEffects(e, n, top, rest, chcon));
      assert AgreeBelow(n, m, top, rest);
      forall rel: Path | rel != [] && top + rel in m
        ensures r[top + rel] == Outcome(e, m, top, kids, chcon, rel)
      {
        ReachOfOne(e, m, top, name, tree, rest, chcon, rel);
        ReachLocal(e, n, m, top, rest, chcon, rel);
        assert Below(top, top + rel) && (top + rel)[|top|] == rel[0];
        if rel[0] == name {
          assert Reach(e, n, top, rest, chcon, rel).None?;
        }
      }
  }

  // ---------- Fault isolation ----------

  /** What the tree holds at a path. */
  function Lookup(kids: Forest, rel: Path): Option<Tree>
    requires rel != []
    decreases |rel|
  {
    var tree := Find(kids, rel[0]);
    if tree.None? || |rel| == 1 then tree
    else if tree.value.File? then None
    else Lookup(tree.value.kids, rel[1..])
  }

  predicate Sound(e: Env, m: Metas, p: Path) {
    p in m && p !in e.excluded && e.faults(p) == NO_FAULT
  }

  /** Nothing failed at any directory on the way to the path, nor at the path; none of them is excluded. */
  ghost predicate WaySound(e: Env, m: Metas, top: Path, rel: Path) {
    forall i :: 0 < i <= |rel| ==> Sound(e, m, top + rel[..i])
  }

  /** Labels are supported at every directory strictly between `top` and the path. */
  ghost predicate LabelsSupported(e: Env, top: Path, rel: Path) {
    forall i :: 0 < i < |rel| ==> !e.unsupported(top + rel[..i])
  }

  lemma {:induction false} ReachWhenSound(e: Env, m: Metas, top: Path, kids: Forest, chcon: bool, rel: Path)
    requires rel != [] && Lookup(kids, rel).Some? && WaySound(e, m, top, rel)
    ensures Reach(e, m, top, kids, chcon, rel).Some?
    decreases |rel|
  {
    var p := top + [rel[0]];
    assert rel[..1] == [rel[0]];
    assert Sound(e, m, top + rel[..1]);
    if |rel| > 1 {
      forall i | 0 < i <= |rel[1..]| ensures Sound(e, m, p + rel[1..][..i]) {
        assert top + rel[..i + 1] == p + rel[1..][..i];
      }
      ReachWhenSound(e, m, p, Find(kids, rel[0]).value.kids, chcon && !e.unsupported(p), rel[1..]);
    }
  }

  lemma OneDeeper(top: Path, rel: Path, i: nat)
    requires 0 < i <= |rel|
    ensures top + rel[..i] == top + [rel[0]] + rel[1..][..i - 1]
  {
    assert rel[..i] == [rel[0]] + rel[1..][..i - 1];
  }

  lemma SupportedDeeper(e: Env, top: Path, rel: Path)
    requires |rel| > 1
    ensures LabelsSupported(e, top, rel) <==>
            !e.unsupported(top + [rel[0]]) && LabelsSupported(e, top + [rel[0]], rel[1..])
  {
    var p, tail := top + [rel[0]], rel[1..];
    forall i | 0 < i <= |rel| ensures top + rel[..i] == p + tail[..i - 1] {
      OneDeeper(top, rel, i);
    }
    assert p + tail[..0] == p;
    if LabelsSupported(e, top, rel) {
      assert !e.unsupported(top + rel[..1]);
      forall i | 0 < i < |tail| ensures !e.unsupported(p + tail[..i]) {
        assert !e.unsupported(top + rel[..i + 1]);
      }
    }
  }

  /** No path on the way is excluded. */
  ghost predicate WayOpen(e: Env, top: Path, rel: Path) {
    forall i :: 0 < i <= |rel| ==> top + rel[..i] !in e.excluded
  }

  lemma OpenDeeper(e: Env, top: Path, rel: Path)
    requires rel != [] && top + [rel[0]] !in e.excluded && WayOpen(e, top + [rel[0]], rel[1..])
    ensures WayOpen(e, top, rel)
  {
    forall i | 0 < i <= |rel| ensures top + rel[..i] !in e.excluded {
      OneDeeper(top, rel, i);
      if i == 1 {
        assert top + [rel[0]] + rel[1..][..0] == top + [rel[0]];
      }
    }
  }

  /** A reached entry is what the tree holds there, has no excluded path on its way, and wants a label as told. */
  lemma {:induction false} ReachedEntry(e: Env, m: Metas, top: Path, kids: Forest, chcon: bool, rel: Path)
    requires rel != [] && Reach(e, m, top, kids, chcon, rel).Some?
    ensures var v := Reach(e, m, top, kids, chcon, rel).value;
            Lookup(kids, rel) == Some(v.tree) && (v.chcon <==> chcon && LabelsSupported(e, top, rel))
    ensures WayOpen(e, top, rel)
    decreases |rel|
  {
    var p := top + [rel[0]];
    if |rel| > 1 {
      ReachedEntry(e, m, p, Find(kids, rel[0]).value.kids, chcon && !e.unsupported(p), rel[1..]);
      SupportedDeeper(e, top, rel);
    }
    OpenDeeper(e, top, rel);
  }

  /** The state after lines 221-229. */
  function Walked(e: Env, m: Metas, kids: Forest): Metas {
    Apply(m, WalkSteps(e, m, kids).effects)
  }

  lemma WalkedOutcome(e: Env, m: Metas, kids: Forest)
    requires NamesDiffer(kids)
    ensures Walked(e, m, kids).Keys == m.Keys
    ensures forall p :: p in m && p != e.statedir && !Below(e.statedir, p) ==> Walked(e, m, kids)[p] == m[p]
    ensures e.statedir in m ==> Walked(e, m, kids)[e.statedir] == After(e, e.statedir, true, true, m[e.statedir])
    ensures forall rel: Path :: rel != [] && e.statedir + rel in m ==>
      Walked(e, m, kids)[e.statedir + rel] ==
        if WalkSteps(e, m, kids).done then Outcome(e, m, e.statedir, kids, e.context.Some?, rel) else m[e.statedir + rel]
  {
    var top, flag := e.statedir, e.context.Some?;
    var own := OwnSteps(e, m, top, true, true);
    forall rel: Path {
      NotItself(top, rel);
    }
    if WalkSteps(e, m, kids).done {
      var n := Apply(m, own.effects);
      WalkOutcome(e, n, top, kids, flag);
      OwnThenBelow(e, m, top, kids, true, flag, WalkEffects(e, n, top, kids, flag));
    } else {
      OwnStepsOutcome(e, m, top, true, true);
    }
  }

  /**
    Fault isolation: under any pattern of failures, an entry whose own operations and those of the
    directories on its way did not fail ends with its final owner and, where wanted and supported,
    its label, as long as the directory itself could be processed.
   */
  lemma {:induction false} FaultIsolation(e: Env, m: Metas, kids: Forest, rel: Path)
    requires NamesDiffer(kids) && WalkSteps(e, m, kids).done
    requires rel != [] && Lookup(kids, rel).Some? && WaySound(e, m, e.statedir, rel)
    ensures var p, isDir := e.statedir + rel, Lookup(kids, rel).value.Dir?;
            p in m && p in Walked(e, m, kids) &&
            Walked(e, m, kids)[p] ==
              Meta(e.GoalUid(isDir, m[p].uid), e.GoalGid(isDir, m[p].gid),
                   if e.Labels(isDir, e.context.Some? && LabelsSupported(e, e.statedir, rel)) && !e.unsupported(p)
                   then e.context.value else m[p].context)
  {
    assert rel[..|rel|] == rel;
    assert Sound(e, m, e.statedir + rel[..|rel|]);
    WalkedOutcome(e, m, kids);
    ReachWhenSound(e, m, e.statedir, kids, e.context.Some?, rel);
    ReachedEntry(e, m, e.statedir, kids, e.context.Some?, rel);
  }

  predicate IsDirAt(e: Env, kids: Forest, p: Path) {
    if !Below(e.statedir, p) then p == e.statedir
    else Lookup(kids, p[|e.statedir|..]).Some? && Lookup(kids, p[|e.statedir|..]).value.Dir?
  }

  /**
    Frame: whatever fails, paths outside the directory and paths at or below an excluded one are
    untouched; anywhere else each part of the owner is either the old or the final one, and the
    context changes only to the target's and only where every directory strictly between supports labels.
   */
  lemma Frame(e: Env, m: Metas, kids: Forest, p: Path)
    requires NamesDiffer(kids) && p in m
    ensures Walked(e, m, kids).Keys == m.Keys
    ensures p != e.statedir && !Below(e.statedir, p) ==> Walked(e, m, kids)[p] == m[p]
    ensures Below(e.statedir, p) && (exists i :: |e.statedir| < i <= |p| && p[..i] in e.excluded) ==>
      Walked(e, m, kids)[p] == m[p]
    ensures Walked(e, m, kids)[p].uid in {m[p].uid, e.GoalUid(IsDirAt(e, kids, p), m[p].uid)}
    ensures Walked(e, m, kids)[p].gid in {m[p].gid, e.GoalGid(IsDirAt(e, kids, p), m[p].gid)}
    ensures Walked(e, m, kids)[p].context != m[p].context ==>
      && e.context == Some(Walked(e, m, kids)[p].context)
      && (Below(e.statedir, p) ==> LabelsSupported(e, e.statedir, p[|e.statedir|..]))
  {
    WalkedOutcome(e, m, kids);
    if Below(e.statedir, p) {
      FrameBelow(e, m, kids, p);
    }
  }

  lemma FrameBelow(e: Env, m: Metas, kids: Forest, p: Path)
    requires p in m && Below(e.statedir, p)
    ensures p[|e.statedir|..] != [] && p == e.statedir + p[|e.statedir|..]
    ensures var rel := p[|e.statedir|..];
            var r := Outcome(e, m, e.statedir, kids, e.context.Some?, rel);
            && ((exists i :: |e.statedir| < i <= |p| && p[..i] in e.excluded) ==> r == m[p])
            && r.uid in {m[p].uid, e.GoalUid(IsDirAt(e, kids, p), m[p].uid)}
            && r.gid in {m[p].gid, e.GoalGid(IsDirAt(e, kids, p), m[p].gid)}
            && (r.context != m[p].context ==> e.context == Some(r.context) && LabelsSupported(e, e.statedir, rel))
  {
    var top, rel := e.statedir, p[|e.statedir|..];
    SplitBelow(top, p);
    if Reach(e, m, top, kids, e.context.Some?, rel).Some? {
      ReachedEntry(e, m, top, kids, e.context.Some?, rel);
      forall i | |top| < i <= |p| ensures p[..i] !in e.excluded {
        assert p[..i] == top + rel[..i - |top|];
      }
    }
  }
}
