/** The loops of the device spec module, with the user's dictionaries rewritten in place. */
module PciDeriveProgram {
  import opened Wrappers
  import opened Strings
  import opened Sequences
  import opened PciAddress
  import opened PciDerive
  import PciDeriveTheorems

  /** A dictionary of the user's list: an object whose entries change in place. */
  class SpecDict {
    var entries: Spec

    constructor (s: Spec)
      ensures entries == s
    {
      entries := s;
    }
  }

  function Values(dicts: seq<SpecDict>): (r: seq<Spec>)
    reads dicts
    ensures |r| == |dicts|
    ensures forall i :: 0 <= i < |dicts| ==> r[i] == dicts[i].entries
  {
    seq(|dicts|, i requires 0 <= i < |dicts| reads dicts => dicts[i].entries)
  }

  method NicPartitionPfs(configs: seq<SriovConfig>) returns (pfs: seq<string>)
    ensures pfs == NicPfs(configs)
  {
    pfs := [];
    for i := 0 to |configs|
      invariant pfs == NicPfs(configs[..i])
    {
      PrefixStep(configs, i);
      var name := PartitionedName(configs[i]);
      if name.Some? && name.value !in pfs {
        pfs := pfs + [name.value];
      }
    }
    assert configs[..|configs|] == configs;
  }

  method NonNicPartitionPfs(configs: seq<SriovConfig>) returns (pfs: seq<string>)
    ensures pfs == NonNicPfs(configs)
  {
    var all := [];
    var nic := NicPartitionPfs(configs);
    for i := 0 to |configs|
      invariant all == AllPfs(configs[..i])
    {
      PrefixStep(configs, i);
      var name := PfName(configs[i]);
      if name.Some? && name.value !in all {
        all := all + [name.value];
      }
    }
    assert configs[..|configs|] == configs;
    pfs := Without(all, nic);
  }

  method AllocatedPci(configs: seq<SriovConfig>) returns (pci: seq<Pci>)
    ensures pci == Allocated(configs)
  {
    pci := [];
    for i := 0 to |configs|
      invariant pci == Allocated(configs[..i])
    {
      PrefixStep(configs, i);
      if configs[i].pciAddress.Some? {
        pci := pci + [configs[i].pciAddress.value];
      }
    }
    assert configs[..|configs|] == configs;
  }

  function AddTo(vfs: map<string, seq<Pci>>, phyfn: string, a: Pci): map<string, seq<Pci>> {
    if phyfn !in vfs then vfs[phyfn := [a]] else vfs[phyfn := vfs[phyfn] + [a]]
  }

  /** The dictionary lists, for every name that is a part of `pf`, the free VFs among the devices; no empty lists. */
  ghost predicate ListsFree(h: Host, pf: string, devices: seq<Pci>, vfs: map<string, seq<Pci>>) {
    forall n :: (n in vfs <==> Contains(pf, n) && FreeAmong(h, n, devices) != [])
                && (n in vfs ==> vfs[n] == FreeAmong(h, n, devices))
  }

  /**
    get_available_vf_pci_addresses_by_ifname.  A physical function whose name is only a part of
    `pf` gets an entry of its own and never adds to another's.
   */
  method AvailableVfs(h: Host, pf: string, taken: seq<Pci>) returns (vfs: map<string, seq<Pci>>)
    requires Readable(h) && taken == Allocated(h.configs)
    ensures ListsFree(h, pf, h.devices, vfs)
  {
    vfs := map[];
    for i := 0 to |h.devices|
      invariant ListsFree(h, pf, h.devices[..i], vfs)
    {
      PrefixStep(h.devices, i);
      var a := h.devices[i];
      if a !in taken && a in h.physfn {
        vfs := AddParents(h, pf, h.devices[..i], a, vfs);
      } else {
        NotFree(h, pf, h.devices[..i], a, vfs);
      }
    }
    assert h.devices[..|h.devices|] == h.devices;
  }

  lemma NotFree(h: Host, pf: string, before: seq<Pci>, a: Pci, vfs: map<string, seq<Pci>>)
    requires a in Allocated(h.configs) || a !in h.physfn
    requires ListsFree(h, pf, before, vfs)
    ensures ListsFree(h, pf, before + [a], vfs)
  {}

  method AddParents(h: Host, pf: string, ghost before: seq<Pci>, a: Pci, vfs: map<string, seq<Pci>>)
      returns (r: map<string, seq<Pci>>)
    requires Readable(h) && a in h.physfn && a !in Allocated(h.configs)
    requires ListsFree(h, pf, before, vfs)
    ensures ListsFree(h, pf, before + [a], r)
  {
    r := vfs;
    var names := h.physfn[a];
    for j := 0 to |names|
      invariant forall n :: n !in names[..j] ==> (n in r <==> n in vfs) && (n in vfs ==> r[n] == vfs[n])
      invariant forall n :: n in names[..j] && !Contains(pf, n) ==> n !in r
      invariant forall n :: n in names[..j] && Contains(pf, n) ==>
                  n in r && r[n] == (if n in vfs then vfs[n] else []) + [a]
    {
      PrefixStep(names, j);
      assert names[j] !in names[..j];
      if Contains(pf, names[j]) {
        r := AddTo(r, names[j], a);
      }
    }
    assert names[..|names|] == names;
    forall n ensures FreeAmong(h, n, before + [a]) == FreeAmong(h, n, before) + if n in names then [a] else [] {
      assert (before + [a])[..|before|] == before;
    }
  }

  /** get_passthrough_config for a compiled address, up to the building of the specs. */
  method PassthroughConfig(h: Host, p: Pattern, product: Option<string>, pf: string, taken: seq<Pci>, nonNic: bool)
      returns (addresses: seq<Pci>, delete: bool)
    requires Readable(h) && pf in h.address && pf in h.vfProduct && pf in h.pfProduct
    requires taken == Allocated(h.configs)
    ensures Selection(addresses, delete) == Select(h, HitsOf(p), product, pf, nonNic)
  {
    addresses, delete := [], false;
    var available := AvailableVfs(h, pf, taken);
    assert OccursAt(pf, pf, 0);
    var parent := h.address[pf];
    if Hits(p, parent) {
      var action := MatchPf(h, product, pf, nonNic);
      match action {
        case AddPf =>
          addresses := [parent];
        case AddVf =>
          if pf in available {
            addresses := available[pf];
          }
          if addresses == [] {
            delete := true;
          }
        case DelUserConfig =>
          delete := true;
        case KeepUserConfig =>
      }
    } else if ProductAllowsVf(h, product, pf) && pf in available {
      var vfs := available[pf];
      for i := 0 to |vfs|
        invariant addresses == Matching(HitsOf(p), vfs[..i])
      {
        PrefixStep(vfs, i);
        if Hits(p, vfs[i]) {
          addresses := addresses + [vfs[i]];
        }
      }
      assert vfs[..|vfs|] == vfs;
      if addresses == [] {
        for i := 0 to |taken|
          invariant delete <==> exists a :: a in taken[..i] && Hits(p, a)
        {
          PrefixStep(taken, i);
          if Hits(p, taken[i]) {
            delete := true;
          }
        }
        assert taken[..|taken|] == taken;
      }
    }
  }

  method PassthroughOver(h: Host, p: Pattern, product: Option<string>, pfs: seq<string>, taken: seq<Pci>, nonNic: bool)
      returns (addresses: seq<Pci>, delete: bool)
    requires Readable(h) && Known(h, pfs) && taken == Allocated(h.configs)
    ensures Selection(addresses, delete) == SelectAll(h, HitsOf(p), product, pfs, nonNic)
  {
    addresses, delete := [], false;
    for i := 0 to |pfs|
      invariant Known(h, pfs[..i])
      invariant Selection(addresses, delete) == SelectAll(h, HitsOf(p), product, pfs[..i], nonNic)
    {
      PrefixStep(pfs, i);
      var more, status := PassthroughConfig(h, p, product, pfs[i], taken, nonNic);
      delete := delete || status;
      addresses := addresses + more;
    }
    assert pfs[..|pfs|] == pfs;
  }

  /** get_passthrough_config_for_all_pf */
  method PassthroughForAll(h: Host, s: Spec, taken: seq<Pci>) returns (r: Result<Selection, Error>)
    requires Readable(h) && taken == Allocated(h.configs)
    ensures r == Derive(h, s)
  {
    var nic := NicPartitionPfs(h.configs);
    var others := NonNicPartitionPfs(h.configs);
    if nic == [] {
      return Success(Selection([], false));
    }
    var p :- Compile(s.address);
    var addresses, delete := PassthroughOver(h, p, s.productId, nic, taken, false);
    if addresses != [] || delete {
      var more, _ := PassthroughOver(h, p, s.productId, others, taken, true);
      addresses := addresses + more;
    }
    r := Success(Selection(addresses, addresses == [] && delete));
  }

  /** Lines 547-560 on one dictionary, in place. */
  method RewriteInPlace(h: Host, physMap: seq<(string, string)>, nic: seq<string>, d: SpecDict)
      returns (r: Result<(), Error>)
    requires Readable(h) && nic == NicPfs(h.configs)
    modifies d
    ensures r.Success? == Rewrite(h, physMap, old(d.entries)).Success?
    ensures r.Success? ==> Success(d.entries) == Rewrite(h, physMap, old(d.entries))
    ensures r.Failure? ==> Failure(r.error) == Rewrite(h, physMap, old(d.entries)) && d.entries == old(d.entries)
  {
    if d.entries.address.Some? && d.entries.devname.Some? {
      return Failure(InvalidConfig);
    }
    if d.entries.address.None? && d.entries.productId.None? && d.entries.devname.None? {
      if d.entries.physicalNetwork.None? {
        return Failure(MissingField);
      }
      var pf := PfOfNetwork(d.entries.physicalNetwork.value, physMap);
      if pf.None? || pf.value !in h.address {
        return Failure(UnknownDevice);
      }
      d.entries := d.entries.(address := Some(TextAddress(Text(h.address[pf.value]))));
    }
    if d.entries.devname.Some? && d.entries.devname.value in nic {
      assert Configured(h, d.entries.devname.value);
      d.entries := d.entries.(address := Some(TextAddress(Text(h.address[d.entries.devname.value]))));
      d.entries := d.entries.(devname := None);
    }
    r := Success(());
  }

  ghost predicate DistinctDicts(dicts: seq<SpecDict>) {
    forall i, j :: 0 <= i < j < |dicts| ==> dicts[i] != dicts[j]
  }

  /** What lines 562-578 decide for one rewritten spec. */
  method DecideFate(h: Host, s: Spec, taken: seq<Pci>) returns (r: Result<Fate, Error>)
    requires Readable(h) && taken == Allocated(h.configs)
    ensures r == FateOf(h, s)
  {
    if s.devname.Some? {
      return Success(Kept);
    }
    var sel :- PassthroughForAll(h, s, taken);
    if sel.delete {
      return Success(Dropped);
    }
    r := Success(if sel.addresses != [] then Replaced(WithAddresses(s, sel.addresses)) else Kept);
  }

  /** What becomes of one entry: the rewritten entry and its fate, or the error it raises. */
  type Turn = Result<(Spec, Fate), Error>

  /** One turn of the loop, on the dictionary itself. */
  method ProcessInPlace(h: Host, physMap: seq<(string, string)>, nic: seq<string>, taken: seq<Pci>, d: SpecDict)
      returns (r: Result<Fate, Error>, ghost turn: Turn)
    requires Readable(h) && nic == NicPfs(h.configs) && taken == Allocated(h.configs)
    modifies d
    ensures turn == Process(h, physMap, old(d.entries))
    ensures turn == if r.Success? then Success((d.entries, r.value)) else Failure(r.error)
  {
    turn := Process(h, physMap, d.entries);
    var rewritten := RewriteInPlace(h, physMap, nic, d);
    if rewritten.Failure? {
      r := Failure(rewritten.error);
    } else {
      r := DecideFate(h, d.entries, taken);
    }
  }

  // ---------- The loop over the entries ----------

  lemma {:induction false} FailureSpreads(h: Host, physMap: seq<(string, string)>, users: seq<Spec>, i: nat)
    requires Readable(h) && i <= |users| && Combine(h, physMap, users[..i]).Failure?
    ensures Combine(h, physMap, users) == Combine(h, physMap, users[..i])
    decreases |users|
  {
    if i == |users| {
      assert users[..i] == users;
    } else {
      var front := users[..|users| - 1];
      assert front[..i] == users[..i];
      FailureSpreads(h, physMap, front, i);
    }
  }

  /** One turn takes the combined configuration of the entries so far on, or decides that of the list. */
  lemma CombineTurn(h: Host, physMap: seq<(string, string)>, was: seq<Spec>, i: nat, turn: Turn)
    requires Readable(h) && i < |was| && Combine(h, physMap, was[..i]).Success?
    requires turn == Process(h, physMap, was[i])
    ensures turn.Success? ==>
      Combine(h, physMap, was[..i + 1]) == Success(AddFate(Combine(h, physMap, was[..i]).value, turn.value.0, turn.value.1))
    ensures turn.Failure? ==> Combine(h, physMap, was) == Failure(turn.error)
  {
    PrefixStep(was, i);
    if turn.Failure? {
      FailureSpreads(h, physMap, was, i + 1);
    }
  }

  lemma {:induction false} RewrittenLength(h: Host, physMap: seq<(string, string)>, users: seq<Spec>)
    requires Readable(h) && Combine(h, physMap, users).Success?
    ensures |Combine(h, physMap, users).value.rewritten| == |users|
  {
    if users != [] {
      RewrittenLength(h, physMap, users[..|users| - 1]);
    }
  }

  /** Part done, part as it was: the next entry, and what there is once it has been rewritten. */
  lemma NextEntry(done: seq<Spec>, was: seq<Spec>, i: nat, s: Spec)
    requires |done| == i < |was|
    ensures (done + was[i..])[i] == was[i]
    ensures (done + was[i..])[i := s] == done + [s] + was[i + 1..]
  {}

  lemma ValuesUpdated(before: seq<Spec>, users: seq<SpecDict>, i: nat)
    requires DistinctDicts(users) && |before| == |users| && i < |users|
    requires forall j :: 0 <= j < |users| && users[j] != users[i] ==> users[j].entries == before[j]
    ensures Values(users) == before[i := users[i].entries]
  {}

  lemma ValuesMore(copy: seq<SpecDict>, d: SpecDict)
    ensures Values(copy + [d]) == Values(copy) + [d.entries]
  {}

  lemma ValuesAre(copy: seq<SpecDict>, kept: seq<Spec>)
    requires |copy| == |kept| && forall k :: 0 <= k < |copy| ==> copy[k].entries == kept[k]
    ensures Values(copy) == kept
  {}

  lemma NotAmongFirst(users: seq<SpecDict>, i: nat)
    requires DistinctDicts(users) && i < |users|
    ensures users[i] !in users[..i]
  {}

  /** The dictionaries kept so far are some of those that were processed. */
  ghost predicate Among(copy: seq<SpecDict>, users: seq<SpecDict>) {
    forall k :: 0 <= k < |copy| ==> copy[k] in users
  }

  lemma AmongMore(copy: seq<SpecDict>, users: seq<SpecDict>, i: nat)
    requires i < |users| && Among(copy, users[..i])
    ensures Among(copy, users[..i + 1]) && Among(copy + [users[i]], users[..i + 1])
  {
    PrefixStep(users, i);
  }

  /** The dictionaries when i of them have been processed, and those kept. */
  ghost predicate InLoop(users: seq<SpecDict>, was: seq<Spec>, i: nat, c: Combined, copy: seq<SpecDict>)
    reads users, copy
  {
    && |c.rewritten| == i <= |users| == |was|
    && Values(users) == c.rewritten + was[i..]
    && Values(copy) == c.copy && Among(copy, users[..i])
  }

  /** From the values after the turn to the loop's invariant. */
  lemma AfterTurn(users: seq<SpecDict>, was: seq<Spec>, i: nat, c: Combined, copy: seq<SpecDict>, fate: Fate)
    requires DistinctDicts(users) && |c.rewritten| == i < |users| == |was| && |copy| == |c.copy|
    requires Among(copy, users[..i])
    requires forall j :: 0 <= j < |users| && users[j] != users[i] ==> users[j].entries == (c.rewritten + was[i..])[j]
    requires forall k :: 0 <= k < |copy| ==> copy[k].entries == c.copy[k]
    ensures InLoop(users, was, i + 1, AddFate(c, users[i].entries, fate), if fate.Kept? then copy + [users[i]] else copy)
  {
    ValuesUpdated(c.rewritten + was[i..], users, i);
    NextEntry(c.rewritten, was, i, users[i].entries);
    ValuesAre(copy, c.copy);
    ValuesMore(copy, users[i]);
    AmongMore(copy, users, i);
  }

  const NOTHING := Combined([], [], [])

  lemma LoopStarts(users: seq<SpecDict>)
    ensures InLoop(users, Values(users), 0, NOTHING, [])
  {}

  lemma LoopEnds(users: seq<SpecDict>, was: seq<Spec>, c: Combined, copy: seq<SpecDict>)
    requires InLoop(users, was, |users|, c, copy)
    ensures Values(users) == c.rewritten && Values(copy) == c.copy
    ensures forall d :: d in copy ==> d in users
  {
    assert users[..|users|] == users;
  }

  /** The combined configuration of the entries so far. */
  ghost predicate SoFar(h: Host, physMap: seq<(string, string)>, was: seq<Spec>, i: nat, c: Combined)
    requires Readable(h) && i <= |was|
  {
    Combine(h, physMap, was[..i]) == Success(c)
  }

  lemma SoFarStep(h: Host, physMap: seq<(string, string)>, was: seq<Spec>, i: nat, c: Combined, turn: Turn)
    requires Readable(h) && i < |was| && SoFar(h, physMap, was, i, c)
    requires turn == Process(h, physMap, was[i])
    ensures turn.Success? ==> SoFar(h, physMap, was, i + 1, AddFate(c, turn.value.0, turn.value.1))
    ensures turn.Failure? ==> Combine(h, physMap, was) == Failure(turn.error)
  {
    CombineTurn(h, physMap, was, i, turn);
  }

  /** Lines 574-578: where a processed entry, or what replaces it, goes. */
  method WithFate(copy: seq<SpecDict>, derived: seq<Spec>, d: SpecDict, fate: Fate)
      returns (copyNow: seq<SpecDict>, derivedNow: seq<Spec>)
    ensures copyNow == if fate.Kept? then copy + [d] else copy
    ensures derivedNow == if fate.Replaced? then derived + fate.specs else derived
  {
    copyNow, derivedNow := copy, derived;
    match fate {
      case Kept => copyNow := copy + [d];
      case Dropped =>
      case Replaced(specs) => derivedNow := derived + specs;
    }
  }

  /** One turn of the loop, on the list: nothing but the dictionary at hand changes. */
  method ProcessAt(h: Host, physMap: seq<(string, string)>, nic: seq<string>, taken: seq<Pci>, users: seq<SpecDict>, i: nat,
                   ghost was: seq<Spec>, ghost c: Combined, copy: seq<SpecDict>, derived: seq<Spec>)
      returns (error: Option<Error>, copyNow: seq<SpecDict>, derivedNow: seq<Spec>, ghost now: Combined)
    requires Readable(h) && nic == NicPfs(h.configs) && taken == Allocated(h.configs)
    requires DistinctDicts(users) && i < |users| && InLoop(users, was, i, c, copy) && derived == c.derived
    requires SoFar(h, physMap, was, i, c)
    modifies users[i]
    ensures error.Some? ==> Combine(h, physMap, was) == Failure(error.value)
    ensures error.None? ==>
      && InLoop(users, was, i + 1, now, copyNow) && derivedNow == now.derived
      && SoFar(h, physMap, was, i + 1, now)
  {
    NotAmongFirst(users, i);
    NextEntry(c.rewritten, was, i, was[i]);
    var fate, turn := ProcessInPlace(h, physMap, nic, taken, users[i]);
    SoFarStep(h, physMap, was, i, c, turn);
    if fate.Failure? {
      return Some(fate.error), copy, derived, c;
    }
    AfterTurn(users, was, i, c, copy, fate.value);
    now := AddFate(c, users[i].entries, fate.value);
    copyNow, derivedNow := WithFate(copy, derived, users[i], fate.value);
    error := None;
  }

  /**
    generate_combined_configuration.  The dictionaries are rewritten in place; the copy holds the
    kept dictionaries themselves, the derived list new specs.
   */
  method GenerateCombined(h: Host, physMap: seq<(string, string)>, users: seq<SpecDict>)
      returns (r: Result<(seq<SpecDict>, seq<Spec>), Error>)
    requires Readable(h) && DistinctDicts(users)
    modifies users
    ensures r.Success? == Combine(h, physMap, old(Values(users))).Success?
    ensures r.Failure? ==> Failure(r.error) == Combine(h, physMap, old(Values(users)))
    ensures r.Success? ==>
      && (forall d :: d in r.value.0 ==> d in users)
      && Combined(Values(users), Values(r.value.0), r.value.1) == Combine(h, physMap, old(Values(users))).value
  {
    ghost var was, c := Values(users), NOTHING;
    var copy: seq<SpecDict>, derived: seq<Spec> := [], [];
    var taken := AllocatedPci(h.configs);
    var nic := NicPartitionPfs(h.configs);
    LoopStarts(users);
    for i := 0 to |users|
      invariant SoFar(h, physMap, was, i, c) && InLoop(users, was, i, c, copy) && derived == c.derived
    {
      var error;
      error, copy, derived, c := ProcessAt(h, physMap, nic, taken, users, i, was, c, copy, derived);
      if error.Some? {
        return Failure(error.value);
      }
    }
    LoopEnds(users, was, c, copy);
    assert was[..|was|] == was;
    r := Success((copy, derived));
  }

  /** _run_derive_pci: whether the copy differs from the rewritten input, and the specs written. */
  method RunDerivePci(h: Host, physMap: seq<(string, string)>, users: seq<SpecDict>)
      returns (r: Result<(bool, seq<Spec>), Error>)
    requires Readable(h) && DistinctDicts(users)
    modifies users
    ensures r.Success? == Combine(h, physMap, old(Values(users))).Success?
    ensures r.Success? ==>
      var c := Combine(h, physMap, old(Values(users))).value;
      && Values(users) == c.rewritten
      && r.value.1 == PciDeriveTheorems.Left(c)
      && (r.value.0 <==> exists s :: s in c.rewritten && FateOf(h, s) != Success(Kept))
  {
    ghost var was := Values(users);
    var both :- GenerateCombined(h, physMap, users);
    PciDeriveTheorems.Conservation(h, physMap, was);
    if Values(both.0) != Values(users) {
      r := Success((true, Values(both.0) + both.1));
    } else {
      r := Success((false, Values(users)));
    }
  }
}
