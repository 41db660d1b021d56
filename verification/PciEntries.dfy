/** What becomes of each kind of user entry, told by its own fields and the host. */
module PciEntries {
  import opened Wrappers
  import opened Strings
  import opened Sequences
  import opened PciAddress
  import opened PciDerive
  import opened PciDeriveTheorems

  // ---------- Device types and products ----------

  /** An entry of a type with vf in it that points at this function. */
  ghost predicate VfEntry(c: SriovConfig, pf: string) {
    c.deviceName == Some(pf) && pf != "" && exists a, b :: c.deviceType == Some(a + "vf" + b)
  }

  /** An entry of a type with pf in it that has this name. */
  ghost predicate PfEntry(c: SriovConfig, pf: string) {
    c.name == Some(pf) && pf != "" && exists a, b :: c.deviceType == Some(a + "pf" + b)
  }

  lemma VfEntryIff(c: SriovConfig, pf: string)
    ensures PartitionedName(c) == Some(pf) <==> VfEntry(c, pf)
  {
    if c.deviceType.Some? {
      ContainsIff(c.deviceType.value, "vf");
    }
  }

  lemma PfEntryIff(c: SriovConfig, pf: string)
    ensures PfName(c) == Some(pf) <==> PfEntry(c, pf)
  {
    if c.deviceType.Some? {
      ContainsIff(c.deviceType.value, "pf");
    }
  }

  /** The configured functions, in the configuration's own fields. */
  lemma ConfiguredIff(configs: seq<SriovConfig>, pf: string)
    ensures pf in NicPfs(configs) <==> exists c :: c in configs && VfEntry(c, pf)
    ensures pf in NonNicPfs(configs) <==>
      (exists c :: c in configs && PfEntry(c, pf)) && !(exists c :: c in configs && VfEntry(c, pf))
  {
    ConfiguredExact(configs, pf);
    forall c ensures PartitionedName(c) == Some(pf) <==> VfEntry(c, pf) {
      VfEntryIff(c, pf);
    }
    forall c ensures PfName(c) == Some(pf) <==> PfEntry(c, pf) {
      PfEntryIff(c, pf);
    }
  }

  lemma LastFour(front: string, id: string, s: string)
    requires |id| == 4
    ensures Last4(front + id) == id
    ensures Last4(s) == id <==> exists x :: s == x + id
  {
    if Last4(s) == id {
      assert s == s[..|s| - 4] + id;
    }
    if x :| s == x + id {
      assert s[|s| - 4..] == id;
    }
  }

  /** Only the last four characters of a product count, so with or without 0x in front it is the same product. */
  lemma ProductByLastFour(h: Host, front: string, id: string, pf: string)
    requires |id| == 4 && pf in h.vfProduct && pf in h.pfProduct
    ensures ProductAllowsVf(h, Some(front + id), pf) <==> exists x :: h.vfProduct[pf] == x + id
    ensures ProductIsPf(h, Some(front + id), pf) <==> exists x :: h.pfProduct[pf] == x + id
    ensures ProductAllowsVf(h, None, pf) && !ProductIsPf(h, None, pf)
  {
    LastFour(front, id, h.vfProduct[pf]);
    LastFour(front, id, h.pfProduct[pf]);
  }

  // ---------- Rewriting ----------

  /** The i-th pair is the first for this network. */
  ghost predicate FirstFor(physMap: seq<(string, string)>, network: string, i: nat) {
    i < |physMap| && physMap[i].0 == network && forall j :: 0 <= j < i ==> physMap[j].0 != network
  }

  lemma {:induction false} NetworkExact(network: string, physMap: seq<(string, string)>, pf: string)
    ensures PfOfNetwork(network, physMap) == Some(pf) <==>
            exists i: nat :: FirstFor(physMap, network, i) && physMap[i].1 == pf
  {
    if physMap != [] && physMap[0].0 != network {
      var rest := physMap[1..];
      NetworkExact(network, rest, pf);
      if i: nat :| FirstFor(rest, network, i) && rest[i].1 == pf {
        assert FirstFor(physMap, network, i + 1) by {
          assert forall j :: 0 < j < i + 1 ==> physMap[j] == rest[j - 1];
        }
      }
      if i: nat :| FirstFor(physMap, network, i) && physMap[i].1 == pf {
        assert FirstFor(rest, network, i - 1) by {
          assert forall j :: 0 <= j < i - 1 ==> rest[j] == physMap[j + 1];
        }
      }
    } else if physMap != [] {
      assert FirstFor(physMap, network, 0);
      assert forall i: nat :: FirstFor(physMap, network, i) ==> i == 0;
    }
  }

  /** The spec with the exact address of this device, and without a devname. */
  function Exactly(s: Spec, a: Pci): Spec {
    Spec(Some(TextAddress(Text(a))), s.productId, None, s.physicalNetwork, s.others)
  }

  /** An entry by devname becomes the exact address of the partitioned function that it names. */
  lemma DevnameRewritten(h: Host, physMap: seq<(string, string)>, s: Spec, pf: string)
    requires Readable(h) && s.address.None? && s.devname == Some(pf) && pf in NicPfs(h.configs)
    ensures Rewrite(h, physMap, s) == Success(Exactly(s, h.address[pf]))
  {}

  /** An entry by network becomes the exact address of the interface first mapped to it, if there is one. */
  lemma NetworkRewritten(h: Host, physMap: seq<(string, string)>, s: Spec, network: string)
    requires Readable(h) && s.address.None? && s.productId.None? && s.devname.None?
    requires s.physicalNetwork == Some(network)
    ensures forall t :: Rewrite(h, physMap, s) == Success(t) <==>
      exists i: nat :: FirstFor(physMap, network, i) && physMap[i].1 in h.address && t == Exactly(s, h.address[physMap[i].1])
  {
    var pf := PfOfNetwork(network, physMap);
    if i: nat :| FirstFor(physMap, network, i) {
      NetworkExact(network, physMap, physMap[i].1);
      forall j: nat | FirstFor(physMap, network, j) ensures j == i {}
    }
    if pf.Some? {
      NetworkExact(network, physMap, pf.value);
    }
  }

  /** Every other entry stays as it is, unless it has both an address and a devname, or nothing to go by. */
  lemma OthersUnchanged(h: Host, physMap: seq<(string, string)>, s: Spec)
    requires Readable(h)
    requires !(s.address.None? && s.devname.Some? && s.devname.value in NicPfs(h.configs))
    requires !(s.address.None? && s.productId.None? && s.devname.None? && s.physicalNetwork.Some?)
    ensures Rewrite(h, physMap, s) ==
            if s.address.Some? && s.devname.Some? then Failure(InvalidConfig)
            else if s.address.None? && s.productId.None? && s.devname.None? then Failure(MissingField)
            else Success(s)
  {}

  // ---------- The fate of an entry ----------

  /** The virtual functions of `pf` that no configuration of the host has. */
  ghost predicate Spare(h: Host, pf: string, a: Pci) {
    && a in h.devices
    && a in h.physfn && pf in h.physfn[a]
    && forall c :: c in h.configs ==> c.pciAddress != Some(a)
  }

  lemma SpareIsFree(h: Host, pf: string, a: Pci)
    ensures Spare(h, pf, a) <==> a in FreeVfs(h, pf)
  {
    AllocatedExact(h.configs, a);
  }

  /** At the exact address of a partitioned function, for its VFs' product, nothing but this function has a say. */
  lemma {:induction false} FunctionSelection(h: Host, hit: Pci -> bool, product: Option<string>, pf: string)
    requires ValidHost(h) && pf in NicPfs(h.configs) && ProductAllowsVf(h, product, pf)
    requires forall a :: hit(a) <==> a == h.address[pf]
    ensures var sel := SelectForSpec(h, hit, product);
            && NoDup(sel.addresses) && (forall a :: a in sel.addresses <==> a in FreeVfs(h, pf))
            && (sel.delete <==> FreeVfs(h, pf) == [])
  {
    var sel := SelectForSpec(h, hit, product);
    ClosedForm(h, hit, product);
    forall a ensures a in sel.addresses <==> a in FreeVfs(h, pf) {
      OnlyFunctionGives(h, hit, product, pf, a);
    }
    HasMember(sel.addresses);
    HasMember(FreeVfs(h, pf));
    assert NicDeletes(h, hit, product, pf) <==> FreeVfs(h, pf) == [];
  }

  lemma OnlyFunctionGives(h: Host, hit: Pci -> bool, product: Option<string>, pf: string, a: Pci)
    requires ValidHost(h) && pf in NicPfs(h.configs) && ProductAllowsVf(h, product, pf)
    requires forall b :: hit(b) <==> b == h.address[pf]
    ensures NicStepGives(h, hit, product, a) <==> a in FreeVfs(h, pf)
    ensures !OtherStepGives(h, hit, product, a)
  {
    assert Configured(h, pf);
    if a in FreeVfs(h, pf) {
      assert NicGives(h, hit, product, pf, a);
    }
    if NicStepGives(h, hit, product, a) {
      var qf :| qf in NicPfs(h.configs) && NicGives(h, hit, product, qf, a);
      assert Configured(h, qf);
    }
    if OtherStepGives(h, hit, product, a) {
      var qf :| qf in NonNicPfs(h.configs) && OtherGives(h, hit, product, qf, a);
      assert Configured(h, qf);
    }
  }

  /** The list holds the spec with the exact address of each of these devices once, and nothing else. */
  ghost predicate OneSpecEach(specs: seq<Spec>, s: Spec, addresses: seq<Pci>) {
    && |specs| == |addresses| && NoDup(addresses)
    && forall i :: 0 <= i < |specs| ==> specs[i] == Exactly(s, addresses[i])
  }

  /**
    An entry by devname of a partitioned function, with no product or that of its VFs: it is dropped if the
    function has no spare VF, and otherwise replaced by exactly one spec for each spare VF.
   */
  lemma DevnameFate(h: Host, physMap: seq<(string, string)>, s: Spec, pf: string) returns (addresses: seq<Pci>)
    requires ValidHost(h) && s.address.None? && s.devname == Some(pf) && pf in NicPfs(h.configs)
    requires ProductAllowsVf(h, s.productId, pf)
    ensures NoDup(addresses) && forall a :: a in addresses <==> Spare(h, pf, a)
    ensures Process(h, physMap, s).Success?
    ensures var (rewritten, fate) := Process(h, physMap, s).value;
            && rewritten == Exactly(s, h.address[pf])
            && if addresses == [] then fate == Dropped
               else fate.Replaced? && OneSpecEach(fate.specs, s, addresses)
  {
    var t := Exactly(s, h.address[pf]);
    DevnameRewritten(h, physMap, s, pf);
    ExactHits(t.address, h.address[pf]);
    var hit := HitsOf(Compile(t.address).value);
    FateByCases(h, t);
    FunctionSelection(h, hit, s.productId, pf);
    addresses := SelectForSpec(h, hit, s.productId).addresses;
    HasMember(addresses);
    HasMember(FreeVfs(h, pf));
    forall a ensures a in addresses <==> Spare(h, pf, a) {
      SpareIsFree(h, pf, a);
    }
  }

  /** What a run over this entry alone leaves. */
  lemma DevnameAlone(h: Host, physMap: seq<(string, string)>, s: Spec, pf: string) returns (addresses: seq<Pci>)
    requires ValidHost(h) && s.address.None? && s.devname == Some(pf) && pf in NicPfs(h.configs)
    requires ProductAllowsVf(h, s.productId, pf)
    ensures NoDup(addresses) && forall a :: a in addresses <==> Spare(h, pf, a)
    ensures Combine(h, physMap, [s]).Success? && OneSpecEach(Left(Combine(h, physMap, [s]).value), s, addresses)
  {
    addresses := DevnameFate(h, physMap, s, pf);
    CombineOne(h, physMap, s);
  }

  lemma CombineOne(h: Host, physMap: seq<(string, string)>, s: Spec)
    requires Readable(h) && Process(h, physMap, s).Success?
    ensures Combine(h, physMap, [s]).Success?
    ensures var fate := Process(h, physMap, s).value.1;
            Left(Combine(h, physMap, [s]).value) ==
              if fate.Kept? then [Process(h, physMap, s).value.0] else if fate.Replaced? then fate.specs else []
  {
    assert [s][..0] == [];
    assert Combine(h, physMap, [s][..0]) == Success(Combined([], [], []));
  }

  lemma DevnameAccepted(h: Host, physMap: seq<(string, string)>, s: Spec)
    requires Readable(h) && s.devname.Some? && Process(h, physMap, s).Success?
    ensures s.address.None?
  {}

  lemma EachSpecThere(specs: seq<Spec>, s: Spec, addresses: seq<Pci>, a: Pci)
    requires OneSpecEach(specs, s, addresses) && a in addresses
    ensures Exactly(s, a) in specs
  {
    var i :| 0 <= i < |addresses| && addresses[i] == a;
    assert specs[i] == Exactly(s, a);
  }

  lemma {:induction false} DevnameReplacedBy(h: Host, physMap: seq<(string, string)>, s: Spec, pf: string, a: Pci)
    requires ValidHost(h) && Process(h, physMap, s).Success?
    requires s.devname == Some(pf) && pf in NicPfs(h.configs) && ProductAllowsVf(h, s.productId, pf) && Spare(h, pf, a)
    ensures var fate := Process(h, physMap, s).value.1; fate.Replaced? && Exactly(s, a) in fate.specs
  {
    DevnameAccepted(h, physMap, s);
    var addresses := DevnameFate(h, physMap, s, pf);
    assert a in addresses;
    EachSpecThere(Process(h, physMap, s).value.1.specs, s, addresses, a);
  }

  lemma DerivedGrows(c: Combined, s: Spec, fate: Fate, d: Spec)
    ensures d in c.derived ==> d in AddFate(c, s, fate).derived
    ensures fate.Replaced? && d in fate.specs ==> d in AddFate(c, s, fate).derived
  {}

  /** What replaces an entry of a list is derived. */
  lemma {:induction false} ReplacementsDerived(h: Host, physMap: seq<(string, string)>, users: seq<Spec>, s: Spec, d: Spec)
    requires Readable(h) && Combine(h, physMap, users).Success? && s in users
    ensures Process(h, physMap, s).Success?
    ensures var fate := Process(h, physMap, s).value.1;
            fate.Replaced? && d in fate.specs ==> d in Combine(h, physMap, users).value.derived
  {
    var front, last := users[..|users| - 1], users[|users| - 1];
    assert users == front + [last];
    CombineStep(h, physMap, users);
    var turn := Process(h, physMap, last).value;
    DerivedGrows(Combine(h, physMap, front).value, turn.0, turn.1, d);
    if s in front {
      ReplacementsDerived(h, physMap, front, s, d);
    }
  }

  /** In any list: each spare VF of a partitioned function that some entry names by devname is derived. */
  lemma DevnameDerives(h: Host, physMap: seq<(string, string)>, users: seq<Spec>, s: Spec, pf: string, a: Pci)
    requires ValidHost(h) && Combine(h, physMap, users).Success? && s in users
    requires s.devname == Some(pf) && pf in NicPfs(h.configs) && ProductAllowsVf(h, s.productId, pf) && Spare(h, pf, a)
    ensures Exactly(s, a) in Combine(h, physMap, users).value.derived
  {
    ReplacementsDerived(h, physMap, users, s, Exactly(s, a));
    DevnameReplacedBy(h, physMap, s, pf, a);
  }

  /** In general: an entry without devname, whose address compiles, is replaced by one spec for each address given. */
  lemma FateOfAddress(h: Host, s: Spec) returns (addresses: seq<Pci>)
    requires ValidHost(h) && s.devname.None? && NicPfs(h.configs) != [] && Compile(s.address).Success?
    ensures var hit := HitsOf(Compile(s.address).value);
            && NoDup(addresses)
            && (forall a :: a in addresses <==>
                 NicStepGives(h, hit, s.productId, a)
                 || (Triggered(h, hit, s.productId) && OtherStepGives(h, hit, s.productId, a)))
            && FateOf(h, s).Success?
            && (addresses != [] ==>
                 FateOf(h, s).value.Replaced? && OneSpecEach(FateOf(h, s).value.specs, s, addresses))
            && (addresses == [] ==>
                 FateOf(h, s).value ==
                   if exists pf :: pf in NicPfs(h.configs) && NicDeletes(h, hit, s.productId, pf) then Dropped else Kept)
  {
    var hit := HitsOf(Compile(s.address).value);
    FateByCases(h, s);
    ClosedForm(h, hit, s.productId);
    addresses := SelectForSpec(h, hit, s.productId).addresses;
  }
}
