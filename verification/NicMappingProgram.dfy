/** The program's loops, and the file that it reads and writes. */
module NicMappingProgram {
  import opened Wrappers
  import opened Strings
  import opened Sequences
  import opened NaturalOrder
  import opened NicMapping
  import Sorting

  lemma SelectStep(h: Host, names: seq<string>, i: nat, checkActive: bool, embedded: bool)
    requires i < |names|
    ensures Select(h, names[..i + 1], checkActive, embedded) ==
            Select(h, names[..i], checkActive, embedded)
            + if Available(h, names[i], checkActive) && Embedded(names[i]) == embedded then [names[i]] else []
  {
    PrefixStep(names, i);
  }

  /** _ordered_nics */
  method ListOrderedNics(h: Host, checkActive: bool) returns (activeNics: seq<string>)
    ensures activeNics == OrderedNics(h, checkActive)
  {
    var embedded: seq<string>, nics: seq<string> := [], [];
    for i := 0 to |h.listing|
      invariant embedded == Select(h, h.listing[..i], checkActive, true)
      invariant nics == Select(h, h.listing[..i], checkActive, false)
    {
      SelectStep(h, h.listing, i, checkActive, true);
      SelectStep(h, h.listing, i, checkActive, false);
      var nic := h.listing[i];
      if Available(h, nic, checkActive) {
        if Embedded(nic) {
          embedded := embedded + [nic];
        } else {
          nics := nics + [nic];
        }
      }
    }
    assert h.listing[..|h.listing|] == h.listing;
    activeNics := Sorting.Sort(NAME_LE, embedded) + Sorting.Sort(NAME_LE, nics);
  }

  /** Lines 158-164: the first of the interfaces with this MAC. */
  method FindByMac(h: Host, names: seq<string>, mac: string) returns (r: Option<string>)
    ensures r == FirstWithMac(h, names, mac)
  {
    for i := 0 to |names|
      invariant FirstWithMac(h, names, mac) == FirstWithMac(h, names[i..], mac)
    {
      if MacOf(h, names[i]) == Some(mac) {
        return Some(names[i]);
      }
      assert names[i..][1..] == names[i + 1..];
    }
    r := None;
  }

  method ResolveValue(h: Host, available: seq<string>, value: string) returns (r: Option<string>)
    requires available == OrderedNics(h, false)
    ensures r == Resolve(h, value)
  {
    var mac := NormalizeMac(value);
    if mac.Some? {
      r := FindByMac(h, available, mac.value);
    } else if value in available {
      r := Some(value);
    } else {
      r := None;
    }
  }

  lemma {:induction false} FailureSpreads(resolve: string -> Option<string>, active: string -> bool,
                                          entries: seq<(string, string)>, i: nat)
    requires i <= |entries| && ResolveEntries(resolve, active, entries[..i]).Failure?
    ensures ResolveEntries(resolve, active, entries) == ResolveEntries(resolve, active, entries[..i])
  {
    if i == |entries| {
      assert entries[..i] == entries;
    } else {
      var front := entries[..|entries| - 1];
      assert front[..i] == entries[..i];
      FailureSpreads(resolve, active, front, i);
    }
  }

  /** Lines 150-204: the user's entries. */
  method ResolveMapping(h: Host, entries: seq<(string, string)>) returns (r: Result<map<string, string>, Error>)
    ensures r == ResolveAll(h, entries)
  {
    ghost var resolve, active := ResolverOf(h), ActiveOf(h);
    var mapped: map<string, string>, unresolved := map[], false;
    var available := ListOrderedNics(h, false);
    for i := 0 to |entries|
      invariant ResolveEntries(resolve, active, entries[..i]) == Success(Progress(mapped, unresolved))
    {
      assert entries[..i + 1][..i] == entries[..i];
      var (alias, value) := entries[i];
      var nm := ResolveValue(h, available, value);
      if nm.None? {
        unresolved := true;
      } else if nm.value in mapped.Values {
        FailureSpreads(resolve, active, entries, i + 1);
        return Failure(AlreadyMapped);
      } else if Available(h, alias, true) {
        FailureSpreads(resolve, active, entries, i + 1);
        return Failure(AliasIsActive);
      } else {
        mapped := mapped[alias := nm.value];
      }
    }
    assert entries[..|entries|] == entries;
    if unresolved {
      return Failure(Unresolved);
    }
    r := Success(mapped);
  }

  method IndexOf(s: seq<string>, x: string) returns (i: nat)
    requires x in s
    ensures i < |s| && s[i] == x
  {
    i := 0;
    while s[i] != x
      invariant i < |s| && x in s[i..]
      decreases |s| - i
    {
      assert s[i..] == [s[i]] + s[i + 1..];
      i := i + 1;
    }
  }

  /** What the mapping holds once the interfaces not in `todo` have been given aliases. */
  ghost predicate CompletedBut(mapped: map<string, string>, active: seq<string>, todo: set<string>, r: map<string, string>) {
    && (forall a :: a in mapped ==> a in r && r[a] == mapped[a])
    && (forall i: nat :: Leftover(mapped, active, i) && active[i] !in todo ==> Alias(i) in r && r[Alias(i)] == active[i])
    && (forall a :: a in r && a !in mapped ==>
         exists i: nat :: Leftover(mapped, active, i) && active[i] !in todo && a == Alias(i))
  }

  lemma CompletedUnique(mapped: map<string, string>, active: seq<string>, r: map<string, string>)
    requires CompletedBut(mapped, active, {}, r)
    ensures r == Complete(mapped, active)
  {
    var c := Complete(mapped, active);
    CompleteExact(mapped, active);
    forall a | a in r || a in c ensures a in r && a in c && r[a] == c[a] {
      if a !in mapped {
        var i: nat :| Leftover(mapped, active, i) && a == Alias(i);
      }
    }
  }

  lemma CompletedStep(mapped: map<string, string>, active: seq<string>, todo: set<string>, r: map<string, string>, i: nat)
    requires NoDup(active) && CompletedBut(mapped, active, todo, r)
    requires i < |active| && active[i] in todo && active[i] !in mapped.Values
    ensures Alias(i) in r <==> Alias(i) in mapped
    ensures CompletedBut(mapped, active, todo - {active[i]}, if Alias(i) in r then r else r[Alias(i) := active[i]])
  {
    if Alias(i) in r && Alias(i) !in mapped {
      var j: nat :| Leftover(mapped, active, j) && active[j] !in todo && Alias(i) == Alias(j);
      AliasInjective(i, j);
    }
    forall j: nat | Leftover(mapped, active, j) && active[j] !in todo - {active[i]}
      ensures j == i || active[j] !in todo {}
    forall j: nat | Leftover(mapped, active, j) && active[j] !in todo && Alias(j) == Alias(i) ensures j == i {
      AliasInjective(i, j);
    }
    assert Leftover(mapped, active, i) <==> Alias(i) !in mapped;
  }

  /** derive_nic_mapping: the left-over interfaces are taken from a set, in no particular order. */
  method DeriveNicMapping(h: Host, entries: seq<(string, string)>) returns (r: Result<map<string, string>, Error>)
    requires NoDup(h.listing)
    ensures r == Derive(h, entries)
  {
    var resolved :- ResolveMapping(h, entries);
    var activeNics := ListOrderedNics(h, true);
    OrderedNicsExact(h, true);
    var mapped := resolved;
    var todo := (set n | n in activeNics) - resolved.Values;
    while todo != {}
      invariant todo <= (set n | n in activeNics) - resolved.Values
      invariant CompletedBut(resolved, activeNics, todo, mapped)
      decreases todo
    {
      var nic :| nic in todo;
      var i := IndexOf(activeNics, nic);
      CompletedStep(resolved, activeNics, todo, mapped, i);
      if Alias(i) !in mapped {
        mapped := mapped[Alias(i) := nic];
      }
      todo := todo - {nic};
    }
    CompletedUnique(resolved, activeNics, mapped);
    r := Success(mapped);
  }

  // ---------- The file ----------

  /** derived_nic_mapping.yaml: absent, or with its two mappings, each of which may be absent. */
  class MappingFile {
    var exists_: bool
    var interfaceMapping: Option<map<string, string>>
    var mappedNics: Option<map<string, string>>

    constructor ()
      ensures !exists_
    {
      exists_, interfaceMapping, mappedNics := false, None, None;
    }

    /** load_yaml, as the entries in whatever order the file has them. */
    method Load() returns (entries: seq<(string, string)>)
      ensures Lists(entries, Content())
      ensures exists_ && interfaceMapping.Some? ==> Lists(entries, interfaceMapping.value)
      ensures exists_ && interfaceMapping.None? && mappedNics.Some? ==> Lists(entries, mappedNics.value)
      ensures !exists_ || (interfaceMapping.None? && mappedNics.None?) ==> entries == []
    {
      entries := [];
      if exists_ {
        if interfaceMapping.Some? {
          entries := Enumerate(interfaceMapping.value);
        } else if mappedNics.Some? {
          entries := Enumerate(mappedNics.value);
        }
      }
    }

    ghost function Content(): map<string, string>
      reads this
    {
      if exists_ && interfaceMapping.Some? then interfaceMapping.value
      else if exists_ && mappedNics.Some? then mappedNics.value
      else map[]
    }

    /** save_yaml: whether the file was written. */
    method Save(mapped: map<string, string>) returns (wrote: bool)
      modifies this
      ensures wrote <==> !(old(exists_) && old(interfaceMapping) == Some(mapped))
      ensures exists_ && interfaceMapping == Some(mapped)
      ensures !wrote ==> mappedNics == old(mappedNics)
      ensures wrote ==> mappedNics.None?
    {
      if exists_ && interfaceMapping == Some(mapped) {
        return false;
      }
      exists_, interfaceMapping, mappedNics := true, Some(mapped), None;
      wrote := true;
    }
  }

  method Enumerate(m: map<string, string>) returns (entries: seq<(string, string)>)
    ensures Lists(entries, m)
  {
    entries := [];
    var todo := m.Keys;
    while todo != {}
      invariant todo <= m.Keys && DistinctAliases(entries)
      invariant Aliases(entries) == m.Keys - todo
      invariant forall i :: 0 <= i < |entries| ==> entries[i].0 in m && m[entries[i].0] == entries[i].1
      decreases todo
    {
      var a :| a in todo;
      ghost var before := entries;
      forall i | 0 <= i < |before| ensures before[i].0 != a {
        assert before[i].0 in Aliases(before);
      }
      entries := entries + [(a, m[a])];
      assert entries[..|before|] == before;
      AliasesStep(entries);
      todo := todo - {a};
    }
  }

  /** main */
  method Run(file: MappingFile, h: Host) returns (r: Result<bool, Error>, ghost entries: seq<(string, string)>)
    requires NoDup(h.listing)
    modifies file
    ensures Lists(entries, old(file.Content()))
    ensures r.Success? <==> Derive(h, entries).Success?
    ensures r.Success? ==> file.exists_ && file.interfaceMapping == Some(Derive(h, entries).value)
    ensures r.Success? ==> (r.value <==> !(old(file.exists_) && old(file.interfaceMapping) == Some(Derive(h, entries).value)))
  {
    var loaded := file.Load();
    entries := loaded;
    var mapping := DeriveNicMapping(h, loaded);
    if mapping.Failure? {
      r := Failure(mapping.error);
      return;
    }
    var wrote := file.Save(mapping.value);
    r := Success(wrote);
  }

  /** On an ordinary host a second run reports that the file is unchanged. */
  method RunTwice(file: MappingFile, h: Host) returns (first: Result<bool, Error>, second: Result<bool, Error>)
    requires NoDup(h.listing)
    requires forall n :: n in h.listing ==> NormalizeMac(n).None?
    requires forall i: nat :: !Available(h, Alias(i), true)
    modifies file
    ensures first.Success? ==> second == Success(false)
  {
    ghost var entries, again;
    first, entries := Run(file, h);
    if first.Failure? {
      return first, first;
    }
    second, again := Run(file, h);
    FixpointOnOrdinaryHosts(h, entries, again);
  }
}
