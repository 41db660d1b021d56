/** Which containers are to be removed: unlabelled ones never, managed ones when orphaned, broken or changed. */
module NeedsDelete {
  import opened Wrappers
  import opened Strings
  import opened Sequences

  /** A container's labels, as far as they are looked at; None where one is missing. */
  datatype Labels = Labels(managedBy: Option<string>, configId: Option<string>, configData: Option<string>)

  /** A container as podman reports it; None where it has no labels at all. */
  datatype Info = Info(name: string, labels: Option<Labels>)

  /** A configuration, and what reading a label as one gives: an uninterpreted oracle. */
  type Data = string
  type Reader = string -> Data

  /** The settings of the filter. */
  datatype Settings = Settings(configId: string, cleanOrphans: bool, checkConfig: bool, read: Reader)

  predicate ManagedByEdpm(labels: Labels) {
    labels.managedBy.Some? && Contains(Lower(labels.managedBy.value), "edpm")
  }

  /** Labelled, managed by edpm, and of this configuration. */
  predicate Eligible(c: Info, configId: string) {
    && c.labels.Some?
    && ManagedByEdpm(c.labels.value)
    && c.labels.value.configId == Some(configId)
  }

  predicate LacksData(c: Info) {
    c.labels.Some? && c.labels.value.configData.None?
  }

  function Names(infos: seq<Info>): (r: seq<string>)
    ensures |r| == |infos| && forall i :: 0 <= i < |infos| ==> r[i] == infos[i].name
  {
    seq(|infos|, i requires 0 <= i < |infos| => infos[i].name)
  }

  // ---------- The three parts of the result ----------

  /** Eligible containers without config_data, when orphans are cleaned. */
  function Broken(infos: seq<Info>, s: Settings): seq<string> {
    if infos == [] then []
    else
      var last := infos[|infos| - 1];
      Broken(infos[..|infos| - 1], s)
      + if Eligible(last, s.configId) && LacksData(last) && s.cleanOrphans then [last.name] else []
  }

  /** The names that the first loop sets aside. */
  function Skipped(infos: seq<Info>, s: Settings): seq<string> {
    if infos == [] then []
    else
      var last := infos[|infos| - 1];
      Skipped(infos[..|infos| - 1], s) + if Eligible(last, s.configId) then [] else [last.name]
  }

  /** A configured container some instance of which carries other config_data. */
  function Differing(infos: seq<Info>, s: Settings, name: string, data: Data): seq<string> {
    if infos == [] then []
    else
      var last := infos[|infos| - 1];
      Differing(infos[..|infos| - 1], s, name, data)
      + if last.name == name && last.labels.Some? && last.labels.value.configData.Some?
           && s.checkConfig && s.read(last.labels.value.configData.value) != data
        then [name] else []
  }

  function Changed(infos: seq<Info>, config: seq<(string, Data)>, s: Settings): seq<string> {
    if config == [] then []
    else
      var front := Changed(infos, config[..|config| - 1], s);
      var (name, data) := config[|config| - 1];
      if name !in Names(infos) || name in Broken(infos, s) + front || name in Skipped(infos, s) then front
      else front + Differing(infos, s, name, data)
  }

  predicate Configured(config: seq<(string, Data)>, name: string) {
    exists i :: 0 <= i < |config| && config[i].0 == name
  }

  function Orphans(infos: seq<Info>, all: seq<Info>, config: seq<(string, Data)>, s: Settings): seq<string> {
    if infos == [] then []
    else
      var last := infos[|infos| - 1].name;
      Orphans(infos[..|infos| - 1], all, config, s)
      + if !Configured(config, last) && last !in Skipped(all, s) && s.cleanOrphans then [last] else []
  }

  /** What the filter returns. */
  function ToDelete(infos: seq<Info>, config: seq<(string, Data)>, s: Settings): seq<string> {
    Broken(infos, s) + Changed(infos, config, s) + Orphans(infos, infos, config, s)
  }

  // ---------- The program ----------

  /** Lines 52-75: the names to delete, to skip and installed. */
  method TagInstalled(infos: seq<Info>, s: Settings)
      returns (toDelete: seq<string>, toSkip: seq<string>, installed: seq<string>)
    ensures toDelete == Broken(infos, s) && toSkip == Skipped(infos, s) && installed == Names(infos)
  {
    toDelete, toSkip, installed := [], [], [];
    for i := 0 to |infos|
      invariant toDelete == Broken(infos[..i], s) && toSkip == Skipped(infos[..i], s) && installed == Names(infos[..i])
    {
      var c := infos[i];
      TagStep(infos, s, i);
      installed := installed + [c.name];
      if c.labels.None? {
        toSkip := toSkip + [c.name];
        continue;
      }
      var labels := c.labels.value;
      var managedBy := Lower(if labels.managedBy.Some? then labels.managedBy.value else "unknown");
      ManagedText(labels);
      if !Contains(managedBy, "edpm") {
        toSkip := toSkip + [c.name];
      } else if labels.configId != Some(s.configId) {
        toSkip := toSkip + [c.name];
      } else if labels.configData.None? && s.cleanOrphans {
        toDelete := toDelete + [c.name];
      }
    }
    assert infos[..|infos|] == infos;
  }

  /** Lines 93-112 for one configured container. */
  method TagDiffering(infos: seq<Info>, s: Settings, name: string, data: Data) returns (toDelete: seq<string>)
    ensures toDelete == Differing(infos, s, name, data)
  {
    toDelete := [];
    for i := 0 to |infos|
      invariant toDelete == Differing(infos[..i], s, name, data)
    {
      PrefixStep(infos, i);
      var c := infos[i];
      if c.name == name && c.labels.Some? && c.labels.value.configData.Some? {
        if s.checkConfig && s.read(c.labels.value.configData.value) != data {
          toDelete := toDelete + [name];
        }
      }
    }
    assert infos[..|infos|] == infos;
  }

  /** Lines 77-112. */
  method TagChanged(infos: seq<Info>, config: seq<(string, Data)>, s: Settings,
                    installed: seq<string>, toSkip: seq<string>, broken: seq<string>) returns (toDelete: seq<string>)
    requires installed == Names(infos) && toSkip == Skipped(infos, s) && broken == Broken(infos, s)
    ensures toDelete == broken + Changed(infos, config, s)
  {
    toDelete := broken;
    for n := 0 to |config|
      invariant toDelete == broken + Changed(infos, config[..n], s)
    {
      var (name, data) := config[n];
      ghost var front := Changed(infos, config[..n], s);
      ChangedStep(infos, config, s, n);
      if name in installed && name !in toDelete && name !in toSkip {
        var more := TagDiffering(infos, s, name, data);
        Associate(broken, front, more);
        toDelete := toDelete + more;
      }
    }
    assert config[..|config|] == config;
  }

  lemma ChangedStep(infos: seq<Info>, config: seq<(string, Data)>, s: Settings, n: nat)
    requires n < |config|
    ensures var front := Changed(infos, config[..n], s);
            var name := config[n].0;
            Changed(infos, config[..n + 1], s) ==
              if name !in Names(infos) || name in Broken(infos, s) + front || name in Skipped(infos, s) then front
              else front + Differing(infos, s, name, config[n].1)
  {
    PrefixStep(config, n);
  }

  /** needs_delete */
  method NeedsDeleteFilter(infos: seq<Info>, config: seq<(string, Data)>, s: Settings) returns (toDelete: seq<string>)
    ensures toDelete == ToDelete(infos, config, s)
  {
    var broken, toSkip, installed := TagInstalled(infos, s);
    toDelete := TagChanged(infos, config, s, installed, toSkip, broken);
    ghost var tagged := toDelete;
    for i := 0 to |installed|
      invariant toDelete == tagged + Orphans(infos[..i], infos, config, s)
    {
      PrefixStep(infos, i);
      var c := installed[i];
      if !Configured(config, c) && c !in toSkip && s.cleanOrphans {
        toDelete := toDelete + [c];
      }
    }
    assert infos[..|infos|] == infos;
  }

  lemma TagStep(infos: seq<Info>, s: Settings, i: nat)
    requires i < |infos|
    ensures var c, now := infos[i], infos[..i + 1];
            && Broken(now, s) == Broken(infos[..i], s)
                 + (if Eligible(c, s.configId) && LacksData(c) && s.cleanOrphans then [c.name] else [])
            && Skipped(now, s) == Skipped(infos[..i], s) + (if Eligible(c, s.configId) then [] else [c.name])
            && Names(now) == Names(infos[..i]) + [c.name]
  {
    PrefixStep(infos, i);
  }

  /** Line 56: reading a missing manager as "unknown" makes no difference. */
  lemma ManagedText(labels: Labels)
    ensures ManagedByEdpm(labels) <==>
            Contains(Lower(if labels.managedBy.Some? then labels.managedBy.value else "unknown"), "edpm")
  {
    if labels.managedBy.None? {
      UnknownIsNotEdpm();
    }
  }

  lemma UnknownIsNotEdpm()
    ensures !Contains(Lower("unknown"), "edpm")
  {
    var u := Lower("unknown");
    assert u == "unknown";
    forall i | 0 <= i <= |u| ensures !OccursAt(u, "edpm", i) {
      if i + 4 <= |u| {
        assert u[i..i + 4][0] == u[i];
      }
    }
  }

  // ---------- What is removed ----------

  ghost predicate UniqueNames(infos: seq<Info>) {
    NoDup(Names(infos))
  }

  ghost predicate UniqueKeys(config: seq<(string, Data)>) {
    forall i, j :: 0 <= i < j < |config| ==> config[i].0 != config[j].0
  }

  /** The container is eligible, and orphans are cleaned and it lacks config_data. */
  ghost predicate IsBroken(c: Info, s: Settings) {
    Eligible(c, s.configId) && s.cleanOrphans && LacksData(c)
  }

  ghost predicate IsOrphan(c: Info, config: seq<(string, Data)>, s: Settings) {
    Eligible(c, s.configId) && s.cleanOrphans && !Configured(config, c.name)
  }

  /** The container is eligible and carries config_data that reads as something else than configured. */
  ghost predicate IsChanged(c: Info, config: seq<(string, Data)>, s: Settings) {
    && Eligible(c, s.configId) && s.checkConfig && c.labels.value.configData.Some?
    && exists i :: 0 <= i < |config| && config[i].0 == c.name && config[i].1 != s.read(c.labels.value.configData.value)
  }

  ghost function Count(b: bool): nat {
    if b then 1 else 0
  }

  lemma NamesOfFront(infos: seq<Info>)
    requires infos != [] && UniqueNames(infos)
    ensures UniqueNames(infos[..|infos| - 1])
    ensures forall i :: 0 <= i < |infos| - 1 ==> infos[i].name != infos[|infos| - 1].name
  {}

  lemma {:induction false} SkippedExact(infos: seq<Info>, s: Settings, k: nat)
    requires UniqueNames(infos) && k < |infos|
    ensures infos[k].name in Skipped(infos, s) <==> !Eligible(infos[k], s.configId)
    ensures forall n :: n in Skipped(infos, s) ==> n in Names(infos)
  {
    var last := |infos| - 1;
    NamesOfFront(infos);
    SkippedNamed(infos, s);
    SkippedNamed(infos[..last], s);
    if k < last {
      SkippedExact(infos[..last], s, k);
    } else {
      NotNamedBefore(infos);
    }
  }

  lemma NotNamedBefore(infos: seq<Info>)
    requires infos != [] && UniqueNames(infos)
    ensures infos[|infos| - 1].name !in Names(infos[..|infos| - 1])
  {}

  lemma {:induction false} SkippedNamed(infos: seq<Info>, s: Settings)
    ensures forall n :: n in Skipped(infos, s) ==> n in Names(infos)
  {
    if infos != [] {
      var last := |infos| - 1;
      SkippedNamed(infos[..last], s);
      assert Names(infos) == Names(infos[..last]) + [infos[last].name];
    }
  }

  lemma {:induction false} BrokenNamed(infos: seq<Info>, s: Settings)
    ensures forall n :: n in Broken(infos, s) ==> n in Names(infos)
  {
    if infos != [] {
      var last := |infos| - 1;
      BrokenNamed(infos[..last], s);
      assert Names(infos) == Names(infos[..last]) + [infos[last].name];
    }
  }

  lemma OneMore(names: seq<string>, more: seq<string>, name: string)
    requires |more| <= 1
    ensures multiset(names + more)[name] == multiset(names)[name] + Count(name in more)
  {
    if more != [] {
      assert more == [more[0]];
    }
  }

  lemma BrokenLast(infos: seq<Info>, s: Settings, name: string)
    requires infos != []
    ensures var last := infos[|infos| - 1];
            multiset(Broken(infos, s))[name] ==
              multiset(Broken(infos[..|infos| - 1], s))[name] + Count(last.name == name && IsBroken(last, s))
  {
    var last := infos[|infos| - 1];
    OneMore(Broken(infos[..|infos| - 1], s), if IsBroken(last, s) then [last.name] else [], name);
  }

  lemma {:induction false} BrokenCount(infos: seq<Info>, s: Settings, k: nat, c: Info)
    requires UniqueNames(infos) && k < |infos| && infos[k] == c
    ensures multiset(Broken(infos, s))[c.name] == Count(IsBroken(c, s))
  {
    var last := |infos| - 1;
    NamesOfFront(infos);
    BrokenLast(infos, s, c.name);
    if k < last {
      assert infos[last].name != c.name;
      BrokenCount(infos[..last], s, k, c);
    } else {
      NotNamedBefore(infos);
      BrokenNamed(infos[..last], s);
      AbsentCount(Broken(infos[..last], s), c.name);
    }
  }

  lemma AbsentCount(names: seq<string>, name: string)
    ensures name in names <==> multiset(names)[name] > 0
  {}

  lemma {:induction false} OrphanCount(infos: seq<Info>, all: seq<Info>, config: seq<(string, Data)>, s: Settings, name: string)
    requires UniqueNames(infos)
    ensures multiset(Orphans(infos, all, config, s))[name] ==
            Count(name in Names(infos) && !Configured(config, name) && name !in Skipped(all, s) && s.cleanOrphans)
  {
    if infos != [] {
      var last := |infos| - 1;
      NamesOfFront(infos);
      NotNamedBefore(infos);
      OrphanCount(infos[..last], all, config, s, name);
      assert Names(infos) == Names(infos[..last]) + [infos[last].name];
    }
  }

  lemma {:induction false} DifferingExact(infos: seq<Info>, s: Settings, name: string, data: Data)
    requires UniqueNames(infos)
    ensures name !in Names(infos) ==> Differing(infos, s, name, data) == []
    ensures forall k :: 0 <= k < |infos| && infos[k].name == name ==>
      Differing(infos, s, name, data) ==
        if infos[k].labels.Some? && infos[k].labels.value.configData.Some?
           && s.checkConfig && s.read(infos[k].labels.value.configData.value) != data
        then [name] else []
  {
    if infos != [] {
      var last := |infos| - 1;
      NamesOfFront(infos);
      NotNamedBefore(infos);
      DifferingExact(infos[..last], s, name, data);
      assert Names(infos) == Names(infos[..last]) + [infos[last].name];
      forall k | 0 <= k < last ensures infos[..last][k] == infos[k] {}
    }
  }

  lemma DifferingNames(infos: seq<Info>, s: Settings, name: string, data: Data)
    requires UniqueNames(infos)
    ensures Differing(infos, s, name, data) == [] || (Differing(infos, s, name, data) == [name] && name in Names(infos))
  {}

  lemma {:induction false} ChangedNames(infos: seq<Info>, config: seq<(string, Data)>, s: Settings)
    requires UniqueNames(infos)
    ensures forall n :: n in Changed(infos, config, s) ==> n in Names(infos) && Configured(config, n)
  {
    if config != [] {
      var last := |config| - 1;
      ChangedNames(infos, config[..last], s);
      DifferingNames(infos, s, config[last].0, config[last].1);
      forall n | Configured(config[..last], n) ensures Configured(config, n) {
        var i :| 0 <= i < last && config[..last][i].0 == n;
        assert config[i].0 == n;
      }
      assert config[last].0 == config[last].0 && Configured(config, config[last].0);
    }
  }

  lemma BrokenMember(infos: seq<Info>, s: Settings, k: nat)
    requires UniqueNames(infos) && k < |infos|
    ensures infos[k].name in Broken(infos, s) <==> IsBroken(infos[k], s)
  {
    BrokenCount(infos, s, k, infos[k]);
    assert multiset(Broken(infos, s))[infos[k].name] > 0 <==> infos[k].name in Broken(infos, s);
  }

  lemma ChangedByLastOnly(c: Info, config: seq<(string, Data)>, s: Settings)
    requires UniqueKeys(config) && config != [] && config[|config| - 1].0 == c.name
    ensures !Configured(config[..|config| - 1], c.name)
    ensures IsChanged(c, config, s) <==>
            && Eligible(c, s.configId) && s.checkConfig && c.labels.value.configData.Some?
            && config[|config| - 1].1 != s.read(c.labels.value.configData.value)
  {
    var last := |config| - 1;
    forall i | 0 <= i < |config| && config[i].0 == c.name ensures i == last {}
  }

  /** One turn of the second loop, for the container it is about. */
  lemma ChangedHere(infos: seq<Info>, config: seq<(string, Data)>, s: Settings, k: nat)
    requires UniqueNames(infos) && UniqueKeys(config) && k < |infos|
    requires config != [] && config[|config| - 1].0 == infos[k].name
    ensures multiset(Changed(infos, config, s))[infos[k].name] == Count(IsChanged(infos[k], config, s))
  {
    var last := |config| - 1;
    var front := config[..last];
    var (name, data) := config[last];
    ChangedNames(infos, front, s);
    ChangedByLastOnly(infos[k], config, s);
    AbsentCount(Changed(infos, front, s), name);
    assert Names(infos)[k] == name;
    BrokenMember(infos, s, k);
    SkippedExact(infos, s, k);
    DifferingExact(infos, s, name, data);
  }

  /** The second loop tells the containers apart by name, and tags each changed one once. */
  lemma {:induction false} ChangedCount(infos: seq<Info>, config: seq<(string, Data)>, s: Settings, k: nat)
    requires UniqueNames(infos) && UniqueKeys(config) && k < |infos|
    ensures multiset(Changed(infos, config, s))[infos[k].name] == Count(IsChanged(infos[k], config, s))
  {
    if config != [] {
      var last := |config| - 1;
      if config[last].0 == infos[k].name {
        ChangedHere(infos, config, s, k);
      } else {
        ChangedCount(infos, config[..last], s, k);
        ChangedElsewhere(infos, config, s, infos[k].name);
        StillChanged(infos[k], config, s);
      }
    }
  }

  /** One turn of the second loop does not list another container's name. */
  lemma {:induction false} ChangedElsewhere(infos: seq<Info>, config: seq<(string, Data)>, s: Settings, name: string)
    requires UniqueNames(infos) && config != [] && config[|config| - 1].0 != name
    ensures multiset(Changed(infos, config, s))[name] == multiset(Changed(infos, config[..|config| - 1], s))[name]
  {
    DifferingNames(infos, s, config[|config| - 1].0, config[|config| - 1].1);
  }

  lemma StillChanged(c: Info, config: seq<(string, Data)>, s: Settings)
    requires config != [] && config[|config| - 1].0 != c.name
    ensures IsChanged(c, config, s) <==> IsChanged(c, config[..|config| - 1], s)
  {}

  /**
    With unique names, each container is listed once for each reason to remove it: being broken,
    being changed, being orphaned; and nothing else is listed.
   */
  lemma ListedOncePerReason(infos: seq<Info>, config: seq<(string, Data)>, s: Settings, k: nat)
    requires UniqueNames(infos) && UniqueKeys(config) && k < |infos|
    ensures multiset(ToDelete(infos, config, s))[infos[k].name] ==
            Count(IsBroken(infos[k], s)) + Count(IsChanged(infos[k], config, s)) + Count(IsOrphan(infos[k], config, s))
  {
    var name := infos[k].name;
    BrokenCount(infos, s, k, infos[k]);
    ChangedCount(infos, config, s, k);
    OrphanCount(infos, infos, config, s, name);
    SkippedExact(infos, s, k);
    assert Names(infos)[k] == name;
  }

  lemma OnlyInstalledListed(infos: seq<Info>, config: seq<(string, Data)>, s: Settings, name: string)
    requires UniqueNames(infos) && name in ToDelete(infos, config, s)
    ensures name in Names(infos)
  {
    BrokenNamed(infos, s);
    ChangedNames(infos, config, s);
    OrphanCount(infos, infos, config, s, name);
    if name in Orphans(infos, infos, config, s) {
      assert multiset(Orphans(infos, infos, config, s))[name] > 0;
    }
  }

  /**
    The result is exactly the eligible containers that are orphaned or lack config_data when orphans
    are cleaned, or whose config_data differs when it is checked; none is listed more than twice, and
    twice exactly an orphan without config_data.
   */
  lemma NeedsDeleteExact(infos: seq<Info>, config: seq<(string, Data)>, s: Settings, name: string)
    requires UniqueNames(infos) && UniqueKeys(config)
    ensures name in ToDelete(infos, config, s) <==>
      exists k :: 0 <= k < |infos| && infos[k].name == name
                  && (IsOrphan(infos[k], config, s) || IsBroken(infos[k], s) || IsChanged(infos[k], config, s))
    ensures multiset(ToDelete(infos, config, s))[name] <= 2
    ensures multiset(ToDelete(infos, config, s))[name] == 2 <==>
      exists k :: 0 <= k < |infos| && infos[k].name == name && IsOrphan(infos[k], config, s) && LacksData(infos[k])
  {
    var r := ToDelete(infos, config, s);
    assert name in r <==> multiset(r)[name] > 0;
    if name in r {
      OnlyInstalledListed(infos, config, s, name);
    }
    if name in Names(infos) {
      var k :| 0 <= k < |infos| && Names(infos)[k] == name;
      assert infos[k].name == name;
      forall j | 0 <= j < |infos| && infos[j].name == name ensures j == k {
        assert Names(infos)[j] == Names(infos)[k];
      }
      ListedOncePerReason(infos, config, s, k);
    } else {
      forall j | 0 <= j < |infos| ensures infos[j].name != name {
        assert Names(infos)[j] in Names(infos);
      }
    }
  }

  // ---------- In the labels' own fields ----------

  /** The labels say, in whatever case, that edpm manages the container, and name this configuration. */
  ghost predicate OursByLabels(labels: Labels, configId: string) {
    && (exists m, a, b :: labels.managedBy == Some(m) && Lower(m) == a + "edpm" + b)
    && labels.configId == Some(configId)
  }

  lemma EligibleIff(c: Info, configId: string)
    ensures Eligible(c, configId) <==> c.labels.Some? && OursByLabels(c.labels.value, configId)
  {
    if c.labels.Some? && c.labels.value.managedBy.Some? {
      ContainsIff(Lower(c.labels.value.managedBy.value), "edpm");
    }
  }

  /** No configuration has this name. */
  ghost predicate Unconfigured(config: seq<(string, Data)>, name: string) {
    forall i :: 0 <= i < |config| ==> config[i].0 != name
  }

  /** The container is ours, and orphaned or without config_data when orphans are cleaned, or changed when that is checked. */
  ghost predicate ToGo(c: Info, config: seq<(string, Data)>, s: Settings) {
    && c.labels.Some? && OursByLabels(c.labels.value, s.configId)
    && var data := c.labels.value.configData;
       || (s.cleanOrphans && (Unconfigured(config, c.name) || data.None?))
       || (s.checkConfig && data.Some?
           && exists i :: 0 <= i < |config| && config[i].0 == c.name && config[i].1 != s.read(data.value))
  }

  lemma ToGoIff(c: Info, config: seq<(string, Data)>, s: Settings)
    ensures IsOrphan(c, config, s) || IsBroken(c, s) || IsChanged(c, config, s) <==> ToGo(c, config, s)
    ensures IsOrphan(c, config, s) && LacksData(c) <==>
      && c.labels.Some? && OursByLabels(c.labels.value, s.configId)
      && s.cleanOrphans && Unconfigured(config, c.name) && c.labels.value.configData.None?
  {
    EligibleIff(c, s.configId);
    assert Configured(config, c.name) <==> !Unconfigured(config, c.name);
  }

  /**
    With unique names, the names returned are exactly those of the containers that are to go; one is
    returned twice exactly when it is ours, orphaned, and without config_data while orphans are cleaned.
   */
  lemma DeletedIff(infos: seq<Info>, config: seq<(string, Data)>, s: Settings, name: string)
    requires UniqueNames(infos) && UniqueKeys(config)
    ensures name in ToDelete(infos, config, s) <==>
      exists k :: 0 <= k < |infos| && infos[k].name == name && ToGo(infos[k], config, s)
    ensures multiset(ToDelete(infos, config, s))[name] == 2 <==>
      exists k :: 0 <= k < |infos| && infos[k].name == name
                  && infos[k].labels.Some? && OursByLabels(infos[k].labels.value, s.configId)
                  && s.cleanOrphans && Unconfigured(config, name) && infos[k].labels.value.configData.None?
  {
    NeedsDeleteExact(infos, config, s, name);
    forall k | 0 <= k < |infos|
      ensures IsOrphan(infos[k], config, s) || IsBroken(infos[k], s) || IsChanged(infos[k], config, s) <==> ToGo(infos[k], config, s)
      ensures IsOrphan(infos[k], config, s) && LacksData(infos[k]) <==>
        && infos[k].labels.Some? && OursByLabels(infos[k].labels.value, s.configId)
        && s.cleanOrphans && Unconfigured(config, infos[k].name) && infos[k].labels.value.configData.None?
    {
      ToGoIff(infos[k], config, s);
    }
  }
}
