/** The program that walks the state directory: a file system that changes, path managers, and the manager. */
module StatedirProgram {
  import opened Wrappers
  import opened Sequences
  import opened Statedir
  import opened StatedirTheorems

  /** The file system during one run, with a record of what changed it. */
  class FileSystem {
    var metas: Metas
    const unsupported: Path -> bool
    const faults: Path -> Fault
    const unlinkFails: bool
    ghost var log: seq<Effect>

    constructor (m: Metas, unsupported: Path -> bool, faults: Path -> Fault, unlinkFails: bool)
      ensures metas == m && log == []
      ensures this.unsupported == unsupported && this.faults == faults && this.unlinkFails == unlinkFails
    {
      metas, log := m, [];
      this.unsupported, this.faults, this.unlinkFails := unsupported, faults, unlinkFails;
    }

    /** os.stat and lgetfilecon; the second time on a path is the one after a chown. */
    method Stat(p: Path, again: bool) returns (r: Option<Meta>)
      ensures r == if (if again then faults(p).restat else faults(p).stat) || p !in metas then None else Some(metas[p])
    {
      if (if again then faults(p).restat else faults(p).stat) || p !in metas {
        r := None;
      } else {
        r := Some(metas[p]);
      }
    }

    method ChangeOwner(p: Path, uid: Option<nat>, gid: Option<nat>) returns (ok: bool)
      modifies this
      ensures ok == !faults(p).chown
      ensures metas == Apply(old(metas), if ok then [Chown(p, uid, gid)] else [])
      ensures log == old(log) + if ok then [Chown(p, uid, gid)] else []
    {
      ok := !faults(p).chown;
      assert [Chown(p, uid, gid)][..0] == [];
      if ok {
        metas := Perform(metas, Chown(p, uid, gid));
        log := log + [Chown(p, uid, gid)];
      }
    }

    /** lsetfilecon: done, not supported, or another failure. */
    method SetLabel(p: Path, context: string) returns (done: bool, notSupported: bool)
      modifies this
      ensures notSupported == unsupported(p) && done == (!unsupported(p) && !faults(p).setLabel)
      ensures metas == Apply(old(metas), if done then [Label(p, context)] else [])
      ensures log == old(log) + if done then [Label(p, context)] else []
    {
      notSupported := unsupported(p);
      done := !notSupported && !faults(p).setLabel;
      assert [Label(p, context)][..0] == [];
      if done {
        metas := Perform(metas, Label(p, context));
        log := log + [Label(p, context)];
      }
    }

    method Remove(p: Path) returns (ok: bool)
      modifies this
      ensures ok == !unlinkFails
      ensures metas == Apply(old(metas), if ok then [Unlink(p)] else [])
      ensures log == old(log) + if ok then [Unlink(p)] else []
    {
      ok := !unlinkFails;
      assert [Unlink(p)][..0] == [];
      if ok {
        metas := Perform(metas, Unlink(p));
        log := log + [Unlink(p)];
      }
    }
  }

  /** PathManager: what is known of one path, kept up to date. */
  class PathManager {
    const fs: FileSystem
    const path: Path
    const isDir: bool
    var uid: nat
    var gid: nat
    var secontext: string

    constructor (fs: FileSystem, path: Path, isDir: bool)
      ensures this.fs == fs && this.path == path && this.isDir == isDir
    {
      this.fs, this.path, this.isDir := fs, path, isDir;
      uid, gid, secontext := 0, 0, "";
    }

    ghost predicate Current()
      reads this, fs
    {
      path in fs.metas && fs.metas[path] == Meta(uid, gid, secontext)
    }

    /** _update */
    method Update(again: bool) returns (ok: bool)
      modifies this
      ensures ok == !((if again then fs.faults(path).restat else fs.faults(path).stat) || path !in fs.metas)
      ensures ok ==> Current()
    {
      var statinfo := fs.Stat(path, again);
      ok := statinfo.Some?;
      if ok {
        uid, gid, secontext := statinfo.value.uid, statinfo.value.gid, statinfo.value.context;
      }
    }

    /** chown: nothing when the owner is right already; only the part that differs otherwise. */
    method ChownTo(targetUid: nat, targetGid: nat) returns (ok: bool)
      requires Current()
      modifies this, fs
      ensures var own: seq<Effect> :=
                if old(uid) == targetUid && old(gid) == targetGid then []
                else [Chown(path, if old(uid) != targetUid then Some(targetUid) else None,
                                  if old(gid) != targetGid then Some(targetGid) else None)];
              var effects := if own != [] && fs.faults(path).chown then [] else own;
              && ok == (own == [] || (!fs.faults(path).chown && !fs.faults(path).restat))
              && fs.metas == Apply(old(fs.metas), effects)
              && fs.log == old(fs.log) + effects
              && (ok ==> Current() && uid == targetUid && gid == targetGid)
    {
      var u: Option<nat> := if uid != targetUid then Some(targetUid) else None;
      var g: Option<nat> := if gid != targetGid then Some(targetGid) else None;
      ok := true;
      if u.Some? || g.Some? {
        ok := fs.ChangeOwner(path, u, g);
        if ok {
          ok := Update(true);
        }
      } else {
        assert Apply(fs.metas, []) == fs.metas;
      }
    }

    /** chcon: for a directory where labels are not supported, no failure but no recursion either. */
    method Chcon(context: string) returns (ok: bool, recurse: bool)
      modifies fs
      ensures ok == if fs.unsupported(path) then isDir else !fs.faults(path).setLabel
      ensures recurse == (ok && !fs.unsupported(path))
      ensures fs.metas == Apply(old(fs.metas), if recurse then [Label(path, context)] else [])
      ensures fs.log == old(fs.log) + if recurse then [Label(path, context)] else []
    {
      var done, notSupported := fs.SetLabel(path, context);
      ok, recurse := done || (notSupported && isDir), done;
    }
  }

  function EffectsOfFirst(e: Env, now: Metas, top: Path, todo: Forest, chcon: bool): seq<Effect>
    requires todo.Cons?
  {
    if top + [todo.name] in e.excluded then [] else EntryEffects(e, now, top + [todo.name], todo.tree, chcon)
  }

  /** Doing the first entry of what is left of a walk moves its effects from the plan to what is done. */
  lemma FirstOfWalk(e: Env, m: Metas, done: seq<Effect>, top: Path, todo: Forest, chcon: bool, all: seq<Effect>)
    requires todo.Cons? && all == done + WalkEffects(e, Apply(m, done), top, todo, chcon)
    ensures var first := EffectsOfFirst(e, Apply(m, done), top, todo, chcon);
            && Apply(Apply(m, done), first) == Apply(m, done + first)
            && all == (done + first) + WalkEffects(e, Apply(m, done + first), top, todo.rest, chcon)
  {
    var n := Apply(m, done);
    var first := EffectsOfFirst(e, n, top, todo, chcon);
    var rest := WalkEffects(e, Apply(n, first), top, todo.rest, chcon);
    ApplyConcat(m, done, first);
    WalkCons(e, n, top, todo, chcon);
    Associate(done, first, rest);
  }

  lemma WalkCons(e: Env, n: Metas, top: Path, todo: Forest, chcon: bool)
    requires todo.Cons?
    ensures var first := EffectsOfFirst(e, n, top, todo, chcon);
            WalkEffects(e, n, top, todo, chcon) == first + WalkEffects(e, Apply(n, first), top, todo.rest, chcon)
  {}

  /** NovaStatedirOwnershipManager */
  class OwnershipManager {
    const fs: FileSystem
    const statedir: Path
    const markerPath: Path
    const upgrade: bool
    const excludePaths: seq<Path>
    const targetUid: nat
    const targetGid: nat
    const previousUid: nat
    const previousGid: nat
    const idChange: bool
    const targetSecontext: Option<string>
    ghost const env: Env

    /** __init__ */
    constructor (fs: FileSystem, c: Config)
      requires fs.unsupported == c.unsupported
      ensures Valid() && this.fs == fs && env == Setup(c, fs.metas, fs.faults, fs.unlinkFails)
    {
      var marker := c.statedir + [c.markerName];
      var isUpgrade := marker in fs.metas;
      var previous := if isUpgrade then (fs.metas[marker].uid, fs.metas[marker].gid) else (c.uid, c.gid);
      this.fs, statedir, markerPath, upgrade := fs, c.statedir, marker, isUpgrade;
      excludePaths := [marker] + c.alsoExcluded;
      targetUid, targetGid := c.uid, c.gid;
      previousUid, previousGid := previous.0, previous.1;
      idChange := (c.uid, c.gid) != previous;
      targetSecontext := c.context;
      env := Setup(c, fs.metas, fs.faults, fs.unlinkFails);
    }

    ghost predicate Valid() {
      && env == Env(statedir, targetUid, targetGid, previousUid, previousGid, targetSecontext, excludePaths,
                    markerPath, upgrade, fs.unsupported, fs.faults, fs.unlinkFails)
      && idChange == env.IdChange()
    }

    /** The path manager of an entry, with the entry's owner made right; false when an exception ended it. */
    method FixOwner(p: Path, isDir: bool) returns (pathinfo: PathManager, ok: bool)
      requires Valid()
      modifies fs
      ensures fresh(pathinfo) && pathinfo.fs == fs && pathinfo.path == p && pathinfo.isDir == isDir
      ensures var own := OwnerSteps(env, old(fs.metas), p, isDir);
              && ok == own.done
              && fs.metas == Apply(old(fs.metas), own.effects)
              && fs.log == old(fs.log) + own.effects
    {
      assert Apply(fs.metas, []) == fs.metas;
      pathinfo := new PathManager(fs, p, isDir);
      ok := pathinfo.Update(false);
      if ok {
        if isDir {
          ok := pathinfo.ChownTo(targetUid, targetGid);
        } else if idChange {
          ok := pathinfo.ChownTo(if pathinfo.uid == previousUid then targetUid else pathinfo.uid,
                                 if pathinfo.gid == previousGid then targetGid else pathinfo.gid);
        }
      }
    }

    /** Lines 187-206 on one entry, without the recursion: false when an exception ended it. */
    method Process(p: Path, isDir: bool, chcon: bool) returns (ok: bool, recurse: bool)
      requires Valid() && (chcon ==> targetSecontext.Some?)
      modifies fs
      ensures var own := OwnSteps(env, old(fs.metas), p, isDir, chcon);
              && ok == own.done
              && fs.metas == Apply(old(fs.metas), own.effects)
              && fs.log == old(fs.log) + own.effects
      ensures ok && isDir ==> recurse == (chcon && !fs.unsupported(p))
    {
      ghost var m, e := fs.metas, env;
      ghost var owner := OwnerSteps(e, m, p, isDir).effects;
      var pathinfo;
      pathinfo, ok := FixOwner(p, isDir);
      recurse := chcon;
      if ok {
        ghost var labelled := LabelSteps(e, p, isDir, chcon).effects;
        if chcon && (isDir || idChange) {
          ok, recurse := pathinfo.Chcon(targetSecontext.value);
        } else {
          assert Apply(fs.metas, []) == fs.metas;
        }
        ApplyConcat(m, owner, labelled);
        Associate(old(fs.log), owner, labelled);
      }
    }

    /** The body of the walk's loop for an entry that is not excluded. */
    method WalkEntry(pathname: Path, tree: Tree, chcon: bool)
      requires Valid() && (chcon ==> targetSecontext.Some?)
      modifies fs
      ensures var effects := EntryEffects(env, old(fs.metas), pathname, tree, chcon);
              fs.metas == Apply(old(fs.metas), effects) && fs.log == old(fs.log) + effects
      decreases tree
    {
      ghost var m, e := fs.metas, env;
      ghost var own := OwnSteps(e, m, pathname, tree.Dir?, chcon).effects;
      var ok, recurse := Process(pathname, tree.Dir?, chcon);
      if ok && tree.Dir? && !fs.faults(pathname).list {
        ghost var below := WalkEffects(e, fs.metas, pathname, tree.kids, recurse);
        Walk(pathname, tree.kids, recurse);
        ApplyConcat(m, own, below);
        Associate(old(fs.log), own, below);
      }
    }

    /** _walk */
    method Walk(top: Path, kids: Forest, chcon: bool)
      requires Valid() && (chcon ==> targetSecontext.Some?)
      modifies fs
      ensures var effects := WalkEffects(env, old(fs.metas), top, kids, chcon);
              fs.metas == Apply(old(fs.metas), effects) && fs.log == old(fs.log) + effects
      decreases kids
    {
      ghost var m := fs.metas;
      ghost var all := WalkEffects(env, m, top, kids, chcon);
      ghost var done: seq<Effect> := [];
      assert Apply(m, []) == m;
      var todo := kids;
      while todo.Cons?
        invariant todo == kids || todo < kids
        invariant fs.metas == Apply(m, done) && fs.log == old(fs.log) + done
        invariant all == done + WalkEffects(env, fs.metas, top, todo, chcon)
        decreases todo
      {
        ghost var first := EffectsOfFirst(env, fs.metas, top, todo, chcon);
        var pathname := top + [todo.name];
        FirstOfWalk(env, m, done, top, todo, chcon, all);
        if pathname !in excludePaths {
          WalkEntry(pathname, todo.tree, chcon);
        } else {
          assert Apply(fs.metas, []) == fs.metas;
        }
        Associate(old(fs.log), done, first);
        done := done + first;
        todo := todo.rest;
      }
      assert done + [] == done;
    }

    /** Lines 221-229: the directory itself, then the walk; false when an exception ended it. */
    method WalkAll(kids: Forest) returns (ok: bool)
      requires Valid()
      modifies fs
      ensures var walk := WalkSteps(env, old(fs.metas), kids);
              && ok == walk.done
              && fs.metas == Apply(old(fs.metas), walk.effects)
              && fs.log == old(fs.log) + walk.effects
    {
      ghost var m, e := fs.metas, env;
      ghost var own := OwnSteps(e, m, statedir, true, true).effects;
      var chcon := targetSecontext.Some?;
      assert OwnSteps(e, m, statedir, true, chcon) == OwnSteps(e, m, statedir, true, true);
      var recurse;
      ok, recurse := Process(statedir, true, chcon);
      if !ok || fs.faults(statedir).list {
        return false;
      }
      ghost var below := WalkEffects(e, fs.metas, statedir, kids, chcon);
      Walk(statedir, kids, chcon);
      ApplyConcat(m, own, below);
      Associate(old(fs.log), own, below);
    }

    /** run: false when an exception ended it; the marker goes last. */
    method Run(kids: Forest) returns (ok: bool)
      requires Valid()
      modifies fs
      ensures var run := RunSteps(env, old(fs.metas), kids);
              && ok == run.done
              && fs.metas == Apply(old(fs.metas), run.effects)
              && fs.log == old(fs.log) + run.effects
    {
      ghost var m := fs.metas;
      ghost var walk := WalkSteps(env, m, kids).effects;
      ok := WalkAll(kids);
      if ok && upgrade {
        ok := fs.Remove(markerPath);
        ghost var unlinked := if ok then [Unlink(markerPath)] else [];
        ApplyConcat(m, walk, unlinked);
        Associate(old(fs.log), walk, unlinked);
        assert walk + [] == walk;
      }
    }
  }
}
