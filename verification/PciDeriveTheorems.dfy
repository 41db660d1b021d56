/** What the derivation of device specs guarantees, for every host and every user list. */
module PciDeriveTheorems {
  import opened Wrappers
  import opened Strings
  import opened Sequences
  import opened PciAddress
  import opened PciDerive

  // ---------- What the configuration says ----------

  lemma {:induction false} PartitionedExact(configs: seq<SriovConfig>, pf: string)
    ensures pf in NicPfs(configs) <==> exists c :: c in configs && PartitionedName(c) == Some(pf)
  {
    if configs != [] {
      var front, last := configs[..|configs| - 1], configs[|configs| - 1];
      assert configs == front + [last];
      PartitionedExact(front, pf);
    }
  }

  lemma {:induction false} AllPfsExact(configs: seq<SriovConfig>, pf: string)
    ensures pf in AllPfs(configs) <==> exists c :: c in configs && PfName(c) == Some(pf)
  {
    if configs != [] {
      var front, last := configs[..|configs| - 1], configs[|configs| - 1];
      assert configs == front + [last];
      AllPfsExact(front, pf);
    }
  }

  lemma {:induction false} AllocatedExact(configs: seq<SriovConfig>, a: Pci)
    ensures a in Allocated(configs) <==> exists c :: c in configs && c.pciAddress == Some(a)
  {
    if configs != [] {
      var front, last := configs[..|configs| - 1], configs[|configs| - 1];
      assert configs == front + [last];
      AllocatedExact(front, a);
    }
  }

  /**
    The partitioned functions are those that some VF entry points at, the others those that a PF
    entry names and no VF entry points at; each is listed once.
   */
  lemma ConfiguredExact(configs: seq<SriovConfig>, pf: string)
    ensures NoDup(NicPfs(configs)) && NoDup(NonNicPfs(configs))
    ensures pf in NicPfs(configs) <==> exists c :: c in configs && PartitionedName(c) == Some(pf)
    ensures pf in NonNicPfs(configs) <==>
      && (exists c :: c in configs && PfName(c) == Some(pf))
      && (forall c :: c in configs ==> PartitionedName(c) != Some(pf))
  {
    PartitionedExact(configs, pf);
    AllPfsExact(configs, pf);
  }

  // ---------- Closed form ----------

  predicate ProductIsPf(h: Host, product: Option<string>, pf: string)
    requires pf in h.pfProduct
  {
    product.Some? && Last4(h.pfProduct[pf]) == Last4(product.value)
  }

  /** A NIC-partitioned function gives all its free VFs when hit itself, else those hit; only for the VF's product. */
  ghost predicate NicGives(h: Host, hit: Pci -> bool, product: Option<string>, pf: string, a: Pci)
    requires pf in h.address && pf in h.vfProduct
  {
    && ProductAllowsVf(h, product, pf)
    && a in h.devices && IsFree(h, pf, a)
    && (hit(h.address[pf]) || hit(a))
  }

  /** A NIC-partitioned function asks for the user's spec to go. */
  ghost predicate NicDeletes(h: Host, hit: Pci -> bool, product: Option<string>, pf: string)
    requires pf in h.address && pf in h.vfProduct && pf in h.pfProduct
  {
    if hit(h.address[pf]) then
      if ProductAllowsVf(h, product, pf) then FreeVfs(h, pf) == [] else ProductIsPf(h, product, pf)
    else
      && ProductAllowsVf(h, product, pf)
      && FreeVfs(h, pf) != []
      && (forall a :: a in FreeVfs(h, pf) ==> !hit(a))
      && (exists a :: a in Allocated(h.configs) && hit(a))
  }

  /** Any other function gives its own address when hit itself, else its free VFs that are hit. */
  ghost predicate OtherGives(h: Host, hit: Pci -> bool, product: Option<string>, pf: string, a: Pci)
    requires pf in h.address && pf in h.vfProduct && pf in h.pfProduct
  {
    if hit(h.address[pf]) then
      a == h.address[pf] && (ProductAllowsVf(h, product, pf) || ProductIsPf(h, product, pf))
    else
      ProductAllowsVf(h, product, pf) && a in h.devices && IsFree(h, pf, a) && hit(a)
  }

  ghost predicate NicStepGives(h: Host, hit: Pci -> bool, product: Option<string>, a: Pci)
    requires ValidHost(h)
  {
    exists pf :: pf in NicPfs(h.configs) && NicGives(h, hit, product, pf, a)
  }

  /** The NIC-partitioned functions derived or deleted something. */
  ghost predicate Triggered(h: Host, hit: Pci -> bool, product: Option<string>)
    requires ValidHost(h)
  {
    || (exists a :: NicStepGives(h, hit, product, a))
    || (exists pf :: pf in NicPfs(h.configs) && NicDeletes(h, hit, product, pf))
  }

  ghost predicate OtherStepGives(h: Host, hit: Pci -> bool, product: Option<string>, a: Pci)
    requires ValidHost(h)
  {
    exists pf :: pf in NonNicPfs(h.configs) && OtherGives(h, hit, product, pf, a)
  }

  ghost predicate Gives(h: Host, hit: Pci -> bool, product: Option<string>, pf: string, nonNic: bool, a: Pci)
    requires pf in h.address && pf in h.vfProduct && pf in h.pfProduct
  {
    if nonNic then OtherGives(h, hit, product, pf, a) else NicGives(h, hit, product, pf, a)
  }

  lemma SelectHitNic(h: Host, hit: Pci -> bool, product: Option<string>, pf: string)
    requires ValidHost(h) && Configured(h, pf) && hit(h.address[pf])
    ensures var sel := Select(h, hit, product, pf, false);
            && NoDup(sel.addresses)
            && (forall a :: a in sel.addresses <==> NicGives(h, hit, product, pf, a))
            && (sel.delete <==> NicDeletes(h, hit, product, pf))
  {}

  lemma SelectHitOther(h: Host, hit: Pci -> bool, product: Option<string>, pf: string)
    requires ValidHost(h) && Configured(h, pf) && hit(h.address[pf])
    ensures var sel := Select(h, hit, product, pf, true);
            NoDup(sel.addresses) && (forall a :: a in sel.addresses <==> OtherGives(h, hit, product, pf, a))
  {}

  lemma SelectMiss(h: Host, hit: Pci -> bool, product: Option<string>, pf: string, nonNic: bool)
    requires ValidHost(h) && Configured(h, pf) && !hit(h.address[pf])
    ensures var sel := Select(h, hit, product, pf, nonNic);
            && NoDup(sel.addresses)
            && (forall a :: a in sel.addresses <==> Gives(h, hit, product, pf, nonNic, a))
            && (!nonNic ==> (sel.delete <==> NicDeletes(h, hit, product, pf)))
  {
    HasMember(Matching(hit, FreeVfs(h, pf)));
    HasMember(FreeVfs(h, pf));
  }

  lemma SelectClosed(h: Host, hit: Pci -> bool, product: Option<string>, pf: string, nonNic: bool)
    requires ValidHost(h) && Configured(h, pf)
    ensures var sel := Select(h, hit, product, pf, nonNic);
            && NoDup(sel.addresses)
            && (forall a :: a in sel.addresses <==> Gives(h, hit, product, pf, nonNic, a))
            && (!nonNic ==> (sel.delete <==> NicDeletes(h, hit, product, pf)))
  {
    if hit(h.address[pf]) {
      if nonNic {
        SelectHitOther(h, hit, product, pf);
      } else {
        SelectHitNic(h, hit, product, pf);
      }
    } else {
      SelectMiss(h, hit, product, pf, nonNic);
    }
  }

  /** Nothing is given by two functions: a VF has one parent and a PF is no VF. */
  lemma GiversAreUnique(h: Host, hit: Pci -> bool, product: Option<string>, pf: string, qf: string, n: bool, m: bool, a: Pci)
    requires ValidHost(h) && Configured(h, pf) && Configured(h, qf)
    requires Gives(h, hit, product, pf, n, a) && Gives(h, hit, product, qf, m, a)
    ensures pf == qf
  {}

  lemma NoDupConcat<T>(s: seq<T>, t: seq<T>)
    requires NoDup(s) && NoDup(t) && (forall x :: x in s ==> x !in t)
    ensures NoDup(s + t)
  {
    forall i, j | 0 <= i < j < |s + t| ensures (s + t)[i] != (s + t)[j] {
      if i < |s| <= j {
        assert (s + t)[i] in s && (s + t)[j] in t;
      }
    }
  }

  lemma {:induction false} SelectAllClosed(h: Host, hit: Pci -> bool, product: Option<string>, pfs: seq<string>, nonNic: bool)
    requires ValidHost(h) && NoDup(pfs) && (forall pf :: pf in pfs ==> Configured(h, pf))
    ensures var sel := SelectAll(h, hit, product, pfs, nonNic);
            && NoDup(sel.addresses)
            && (forall a :: a in sel.addresses <==> exists pf :: pf in pfs && Gives(h, hit, product, pf, nonNic, a))
            && (!nonNic ==> (sel.delete <==> exists pf :: pf in pfs && NicDeletes(h, hit, product, pf)))
  {
    if pfs != [] {
      var front, last := pfs[..|pfs| - 1], pfs[|pfs| - 1];
      assert pfs == front + [last];
      SelectAllClosed(h, hit, product, front, nonNic);
      SelectClosed(h, hit, product, last, nonNic);
      var s, t := SelectAll(h, hit, product, front, nonNic).addresses, Select(h, hit, product, last, nonNic).addresses;
      forall a | a in s ensures a !in t {
        var pf :| pf in front && Gives(h, hit, product, pf, nonNic, a);
        if a in t {
          GiversAreUnique(h, hit, product, pf, last, nonNic, nonNic, a);
          assert false;
        }
      }
      NoDupConcat(s, t);
    }
  }

  /**
    The closed form: what one spec derives, each address once; the other functions are consulted
    only after the NIC step derived or deleted something; the spec is dropped exactly when the NIC
    step asks for it and nothing at all was derived.
   */
  lemma ClosedForm(h: Host, hit: Pci -> bool, product: Option<string>)
    requires ValidHost(h)
    ensures var sel := SelectForSpec(h, hit, product);
            && NoDup(sel.addresses)
            && (forall a :: a in sel.addresses <==>
                 NicStepGives(h, hit, product, a) || (Triggered(h, hit, product) && OtherStepGives(h, hit, product, a)))
            && (sel.delete <==>
                 sel.addresses == [] && exists pf :: pf in NicPfs(h.configs) && NicDeletes(h, hit, product, pf))
  {
    NicStepClosed(h, hit, product);
    OtherStepClosed(h, hit, product);
    var s := SelectAll(h, hit, product, NicPfs(h.configs), false).addresses;
    var t := SelectAll(h, hit, product, NonNicPfs(h.configs), true).addresses;
    forall a | a in s ensures a !in t {
      StepsAreDisjoint(h, hit, product, a);
    }
    NoDupConcat(s, t);
    HasMember(s);
  }

  lemma {:induction false} NicStepClosed(h: Host, hit: Pci -> bool, product: Option<string>)
    requires ValidHost(h)
    ensures var sel := SelectAll(h, hit, product, NicPfs(h.configs), false);
            && NoDup(sel.addresses)
            && (forall a :: a in sel.addresses <==> NicStepGives(h, hit, product, a))
            && (sel.delete <==> exists pf :: pf in NicPfs(h.configs) && NicDeletes(h, hit, product, pf))
  {
    SelectAllClosed(h, hit, product, NicPfs(h.configs), false);
    forall a ensures a in SelectAll(h, hit, product, NicPfs(h.configs), false).addresses <==> NicStepGives(h, hit, product, a) {
      assert forall pf :: pf in NicPfs(h.configs) ==>
        (Gives(h, hit, product, pf, false, a) <==> NicGives(h, hit, product, pf, a));
    }
  }

  lemma OtherStepClosed(h: Host, hit: Pci -> bool, product: Option<string>)
    requires ValidHost(h)
    ensures var sel := SelectAll(h, hit, product, NonNicPfs(h.configs), true);
            && NoDup(sel.addresses)
            && (forall a :: a in sel.addresses <==> OtherStepGives(h, hit, product, a))
  {
    SelectAllClosed(h, hit, product, NonNicPfs(h.configs), true);
    forall a ensures a in SelectAll(h, hit, product, NonNicPfs(h.configs), true).addresses <==> OtherStepGives(h, hit, product, a) {
      assert forall pf :: pf in NonNicPfs(h.configs) ==>
        (Gives(h, hit, product, pf, true, a) <==> OtherGives(h, hit, product, pf, a));
    }
  }

  lemma StepsAreDisjoint(h: Host, hit: Pci -> bool, product: Option<string>, a: Pci)
    requires ValidHost(h) && NicStepGives(h, hit, product, a)
    ensures !OtherStepGives(h, hit, product, a)
  {}

  // ---------- Listing order ----------

  lemma WithAddressesNoDup(s: Spec, addresses: seq<Pci>)
    requires NoDup(addresses)
    ensures NoDup(WithAddresses(s, addresses))
    ensures forall x :: x in WithAddresses(s, addresses) <==> exists a :: a in addresses && x == WithAddress(s, a)
  {
    var r := WithAddresses(s, addresses);
    forall i, j | 0 <= i < j < |r| ensures r[i] != r[j] {
      ExactAddress(addresses[i], addresses[j]);
      ExactAddress(addresses[j], addresses[j]);
    }
    forall a | a in addresses ensures WithAddress(s, a) in r {
      var i :| 0 <= i < |addresses| && addresses[i] == a;
      assert r[i] == WithAddress(s, a);
    }
  }

  ghost predicate SameButListing(h: Host, g: Host) {
    g == h.(devices := g.devices) && NoDup(g.devices) && forall a :: a in h.devices <==> a in g.devices
  }

  lemma ListingKeepsValid(h: Host, g: Host)
    requires ValidHost(h) && SameButListing(h, g)
    ensures ValidHost(g)
  {
    assert g.configs == h.configs && g.physfn == h.physfn && g.address == h.address;
    forall pf ensures Configured(g, pf) == Configured(h, pf) {}
    forall a ensures Parents(g, a) == Parents(h, a) {}
  }

  lemma FreeIgnoresListing(h: Host, g: Host, pf: string)
    requires SameButListing(h, g)
    ensures forall a :: a in FreeVfs(h, pf) <==> a in FreeVfs(g, pf)
    ensures FreeVfs(h, pf) == [] <==> FreeVfs(g, pf) == []
  {
    assert forall a :: IsFree(h, pf, a) == IsFree(g, pf, a);
    HasMember(FreeVfs(h, pf));
    HasMember(FreeVfs(g, pf));
  }

  lemma StepsIgnoreListing(h: Host, g: Host, hit: Pci -> bool, product: Option<string>, a: Pci)
    requires ValidHost(h) && ValidHost(g) && SameButListing(h, g)
    ensures NicStepGives(h, hit, product, a) <==> NicStepGives(g, hit, product, a)
    ensures OtherStepGives(h, hit, product, a) <==> OtherStepGives(g, hit, product, a)
  {
    forall pf | pf in NicPfs(h.configs)
      ensures NicGives(h, hit, product, pf, a) <==> NicGives(g, hit, product, pf, a) {}
    forall pf | pf in NonNicPfs(h.configs)
      ensures OtherGives(h, hit, product, pf, a) <==> OtherGives(g, hit, product, pf, a) {}
  }

  lemma DeletesIgnoreListing(h: Host, g: Host, hit: Pci -> bool, product: Option<string>)
    requires ValidHost(h) && ValidHost(g) && SameButListing(h, g)
    ensures forall pf :: pf in NicPfs(h.configs) ==> (NicDeletes(h, hit, product, pf) <==> NicDeletes(g, hit, product, pf))
  {
    forall pf | pf in NicPfs(h.configs) ensures NicDeletes(h, hit, product, pf) <==> NicDeletes(g, hit, product, pf) {
      FreeIgnoresListing(h, g, pf);
    }
  }

  lemma SameMembersEmpty<T(!new)>(s: seq<T>, t: seq<T>)
    requires forall x :: x in s <==> x in t
    ensures s == [] <==> t == []
  {
    HasMember(s);
    HasMember(t);
  }

  lemma AddressIgnoresListing(h: Host, g: Host, hit: Pci -> bool, product: Option<string>, a: Pci)
    requires ValidHost(h) && ValidHost(g) && SameButListing(h, g)
    requires Triggered(h, hit, product) == Triggered(g, hit, product)
    ensures a in SelectForSpec(h, hit, product).addresses <==> a in SelectForSpec(g, hit, product).addresses
  {
    ClosedForm(h, hit, product);
    ClosedForm(g, hit, product);
    StepsIgnoreListing(h, g, hit, product, a);
  }

  lemma TriggerIgnoresListing(h: Host, g: Host, hit: Pci -> bool, product: Option<string>)
    requires ValidHost(h) && ValidHost(g) && SameButListing(h, g)
    ensures Triggered(h, hit, product) == Triggered(g, hit, product)
  {
    DeletesIgnoreListing(h, g, hit, product);
    forall a {
      StepsIgnoreListing(h, g, hit, product, a);
    }
  }

  lemma AddressesIgnoreListing(h: Host, g: Host, hit: Pci -> bool, product: Option<string>)
    requires ValidHost(h) && ValidHost(g) && SameButListing(h, g)
    ensures var s, t := SelectForSpec(h, hit, product).addresses, SelectForSpec(g, hit, product).addresses;
            (forall a :: a in s <==> a in t) && (s == [] <==> t == [])
  {
    TriggerIgnoresListing(h, g, hit, product);
    forall a
      ensures a in SelectForSpec(h, hit, product).addresses <==> a in SelectForSpec(g, hit, product).addresses
    {
      AddressIgnoresListing(h, g, hit, product, a);
    }
    SameMembersEmpty(SelectForSpec(h, hit, product).addresses, SelectForSpec(g, hit, product).addresses);
  }

  lemma SelectionIgnoresListing(h: Host, g: Host, hit: Pci -> bool, product: Option<string>)
    requires ValidHost(h) && ValidHost(g) && SameButListing(h, g)
    ensures var s, t := SelectForSpec(h, hit, product), SelectForSpec(g, hit, product);
            && (forall a :: a in s.addresses <==> a in t.addresses)
            && (s.addresses == [] <==> t.addresses == [])
            && NoDup(s.addresses) && NoDup(t.addresses) && s.delete == t.delete
  {
    AddressesIgnoreListing(h, g, hit, product);
    ClosedForm(h, hit, product);
    ClosedForm(g, hit, product);
    DeletesIgnoreListing(h, g, hit, product);
  }

  ghost predicate SameFate(f: Fate, g: Fate) {
    (f.Kept? && g.Kept?) || (f.Dropped? && g.Dropped?)
    || (f.Replaced? && g.Replaced? && multiset(f.specs) == multiset(g.specs))
  }

  /** The fate of a spec: kept unless an address is compiled and selects something. */
  lemma FateByCases(h: Host, s: Spec)
    requires Readable(h)
    ensures FateOf(h, s) ==
            if s.devname.Some? || NicPfs(h.configs) == [] then Success(Kept)
            else if Compile(s.address).Failure? then Failure(Compile(s.address).error)
            else Success(FateOfSelection(s, SelectForSpec(h, HitsOf(Compile(s.address).value), s.productId)))
  {}

  lemma FateIgnoresListing(h: Host, g: Host, s: Spec)
    requires ValidHost(h) && ValidHost(g) && SameButListing(h, g)
    ensures FateOf(h, s).Success? == FateOf(g, s).Success?
    ensures FateOf(h, s).Success? ==> SameFate(FateOf(h, s).value, FateOf(g, s).value)
  {
    FateByCases(h, s);
    FateByCases(g, s);
    if s.devname.None? && NicPfs(h.configs) != [] && Compile(s.address).Success? {
      DerivedFateIgnoresListing(h, g, s, HitsOf(Compile(s.address).value));
    }
  }

  lemma DerivedFateIgnoresListing(h: Host, g: Host, s: Spec, hit: Pci -> bool)
    requires ValidHost(h) && ValidHost(g) && SameButListing(h, g)
    ensures SameFate(FateOfSelection(s, SelectForSpec(h, hit, s.productId)), FateOfSelection(s, SelectForSpec(g, hit, s.productId)))
  {
    SelectionIgnoresListing(h, g, hit, s.productId);
    SameReplacements(s, SelectForSpec(h, hit, s.productId).addresses, SelectForSpec(g, hit, s.productId).addresses);
  }

  lemma SameReplacements(s: Spec, a: seq<Pci>, b: seq<Pci>)
    requires NoDup(a) && NoDup(b) && (forall x :: x in a <==> x in b)
    ensures multiset(WithAddresses(s, a)) == multiset(WithAddresses(s, b))
  {
    WithAddressesNoDup(s, a);
    WithAddressesNoDup(s, b);
    SameElements(WithAddresses(s, a), WithAddresses(s, b));
  }

  /** The order in which the host lists its devices affects nothing but the order of the derived specs. */
  lemma {:induction false} ListingOrderIrrelevant(h: Host, g: Host, physMap: seq<(string, string)>, users: seq<Spec>)
    requires ValidHost(h) && SameButListing(h, g)
    ensures ValidHost(g)
    ensures Combine(h, physMap, users).Success? == Combine(g, physMap, users).Success?
    ensures Combine(h, physMap, users).Success? ==>
      var c, d := Combine(h, physMap, users).value, Combine(g, physMap, users).value;
      c.rewritten == d.rewritten && c.copy == d.copy && multiset(c.derived) == multiset(d.derived)
  {
    ListingKeepsValid(h, g);
    if users != [] {
      ListingOrderIrrelevant(h, g, physMap, users[..|users| - 1]);
      var s := Rewrite(h, physMap, users[|users| - 1]);
      assert s == Rewrite(g, physMap, users[|users| - 1]);
      if s.Success? {
        FateIgnoresListing(h, g, s.value);
      }
    }
  }

  // ---------- Safety ----------

  /** The spec carries just the exact address of a device that is neither allocated nor a partitioned PF. */
  ghost predicate SafeSpec(h: Host, d: Spec)
    requires ValidHost(h)
  {
    && d.devname.None?
    && exists a :: d.address == Some(TextAddress(Text(a))) && a !in Allocated(h.configs)
                   && forall pf :: pf in NicPfs(h.configs) ==> h.address[pf] != a
  }

  /** The compiled address hits the device it names and no other. */
  lemma ExactHits(address: Option<Address>, a: Pci)
    requires address == Some(TextAddress(Text(a)))
    ensures Compile(address).Success?
    ensures forall b :: HitsOf(Compile(address).value)(b) <==> b == a
  {
    forall b ensures Compile(address).Success? && (Hits(Compile(address).value, b) <==> b == a) {
      ExactAddress(a, b);
    }
    ExactAddress(a, a);
  }

  lemma SelectedIsSafe(h: Host, hit: Pci -> bool, product: Option<string>, a: Pci)
    requires ValidHost(h) && a in SelectForSpec(h, hit, product).addresses
    ensures a !in Allocated(h.configs)
    ensures forall pf :: pf in NicPfs(h.configs) ==> h.address[pf] != a
  {
    ClosedForm(h, hit, product);
    if NicStepGives(h, hit, product, a) {
      var pf :| pf in NicPfs(h.configs) && NicGives(h, hit, product, pf, a);
      assert Parents(h, a) != [];
    } else {
      var pf :| pf in NonNicPfs(h.configs) && OtherGives(h, hit, product, pf, a);
      assert Configured(h, pf);
      forall qf | qf in NicPfs(h.configs) ensures h.address[qf] != a {
        assert Configured(h, qf);
      }
    }
  }

  /** No derived spec names a VF the host keeps, nor a NIC-partitioned PF, whatever the user wrote. */
  lemma {:induction false} DerivedIsSafe(h: Host, physMap: seq<(string, string)>, users: seq<Spec>)
    requires ValidHost(h) && Combine(h, physMap, users).Success?
    ensures forall d :: d in Combine(h, physMap, users).value.derived ==> SafeSpec(h, d)
  {
    if users != [] {
      var front := users[..|users| - 1];
      DerivedIsSafe(h, physMap, front);
      var s := Rewrite(h, physMap, users[|users| - 1]).value;
      var fate := FateOf(h, s).value;
      if fate.Replaced? {
        ReplacementsAreSafe(h, s, HitsOf(Compile(s.address).value));
      }
    }
  }

  lemma ReplacementsAreSafe(h: Host, s: Spec, hit: Pci -> bool)
    requires ValidHost(h)
    ensures forall d :: d in WithAddresses(s, SelectForSpec(h, hit, s.productId).addresses) ==> SafeSpec(h, d)
  {
    var addresses := SelectForSpec(h, hit, s.productId).addresses;
    forall d | d in WithAddresses(s, addresses) ensures SafeSpec(h, d) {
      var i :| 0 <= i < |addresses| && d == WithAddress(s, addresses[i]);
      SelectedIsSafe(h, hit, s.productId, addresses[i]);
    }
  }

  // ---------- What becomes of specs that match allocated VFs ----------

  /**
    A NIC-partitioned function claims a spec: its VFs are what the product allows, and it is hit or
    has a free VF; or it is hit and the product is its own.
   */
  ghost predicate Claims(h: Host, hit: Pci -> bool, product: Option<string>, pf: string)
    requires pf in h.address && pf in h.vfProduct && pf in h.pfProduct
  {
    || (ProductAllowsVf(h, product, pf) && (hit(h.address[pf]) || FreeVfs(h, pf) != []))
    || (ProductIsPf(h, product, pf) && hit(h.address[pf]))
  }

  ghost predicate Claimed(h: Host, hit: Pci -> bool, product: Option<string>)
    requires ValidHost(h)
  {
    exists pf :: pf in NicPfs(h.configs) && Claims(h, hit, product, pf)
  }

  lemma ClaimActs(h: Host, hit: Pci -> bool, product: Option<string>, pf: string, v: Pci)
    requires ValidHost(h) && pf in NicPfs(h.configs) && v in Allocated(h.configs) && hit(v)
    requires Claims(h, hit, product, pf) && forall a :: !NicGives(h, hit, product, pf, a)
    ensures NicDeletes(h, hit, product, pf)
  {
    var free := FreeVfs(h, pf);
    HasMember(free);
    forall a | a in free ensures !ProductAllowsVf(h, product, pf) || (!hit(h.address[pf]) && !hit(a)) {
      assert !NicGives(h, hit, product, pf, a);
    }
  }

  lemma LeftAloneIsUnclaimed(h: Host, hit: Pci -> bool, product: Option<string>, v: Pci)
    requires ValidHost(h) && v in Allocated(h.configs) && hit(v)
    requires SelectForSpec(h, hit, product) == Selection([], false)
    ensures !Claimed(h, hit, product)
  {
    ClosedForm(h, hit, product);
    forall pf | pf in NicPfs(h.configs) ensures !Claims(h, hit, product, pf) {
      forall a ensures !NicGives(h, hit, product, pf, a) {
        assert !NicStepGives(h, hit, product, a);
      }
      if Claims(h, hit, product, pf) {
        ClaimActs(h, hit, product, pf, v);
      }
    }
  }

  lemma UnclaimedIsLeftAlone(h: Host, hit: Pci -> bool, product: Option<string>)
    requires ValidHost(h) && !Claimed(h, hit, product)
    ensures SelectForSpec(h, hit, product) == Selection([], false)
  {
    ClosedForm(h, hit, product);
    forall pf | pf in NicPfs(h.configs)
      ensures !NicDeletes(h, hit, product, pf) && forall a :: !NicGives(h, hit, product, pf, a)
    {
      assert !Claims(h, hit, product, pf);
      HasMember(FreeVfs(h, pf));
    }
    HasMember(SelectForSpec(h, hit, product).addresses);
  }

  /** A spec that matches an allocated VF is kept if and only if no partitioned function claims it. */
  lemma KeptOverAllocatedIff(h: Host, s: Spec, v: Pci)
    requires ValidHost(h) && v in Allocated(h.configs)
    requires s.devname.None? && Compile(s.address).Success? && Hits(Compile(s.address).value, v)
    ensures FateOf(h, s).Success?
    ensures FateOf(h, s) == Success(Kept) <==> !Claimed(h, HitsOf(Compile(s.address).value), s.productId)
  {
    var hit := HitsOf(Compile(s.address).value);
    FateByCases(h, s);
    if NicPfs(h.configs) != [] {
      LeftAloneIff(h, hit, s.productId, v);
    }
  }

  lemma LeftAloneIff(h: Host, hit: Pci -> bool, product: Option<string>, v: Pci)
    requires ValidHost(h) && v in Allocated(h.configs) && hit(v)
    ensures SelectForSpec(h, hit, product) == Selection([], false) <==> !Claimed(h, hit, product)
    ensures SelectForSpec(h, hit, product).delete ==> SelectForSpec(h, hit, product).addresses == []
  {
    if Claimed(h, hit, product) {
      if SelectForSpec(h, hit, product) == Selection([], false) {
        LeftAloneIsUnclaimed(h, hit, product, v);
      }
    } else {
      UnclaimedIsLeftAlone(h, hit, product);
    }
  }

  /** The spec names a VF that the host keeps: by devname, or else by what its address matches. */
  ghost predicate NamesAllocated(h: Host, s: Spec) {
    match s.devname
    case Some(name) => name in h.address && h.address[name] in Allocated(h.configs)
    case None => Compile(s.address).Success? && HitsAllocated(h, HitsOf(Compile(s.address).value))
  }

  ghost predicate HitsAllocated(h: Host, hit: Pci -> bool) {
    exists v :: v in Allocated(h.configs) && hit(v)
  }

  /** The spec is one that the program takes out of the list or replaces. */
  ghost predicate TakenOut(h: Host, s: Spec)
    requires ValidHost(h)
  {
    && s.devname.None? && Compile(s.address).Success?
    && Claimed(h, HitsOf(Compile(s.address).value), s.productId)
  }

  /** A spec that names its device by devname is kept, whatever it names; any other unless it is claimed. */
  lemma StaysIff(h: Host, s: Spec)
    requires ValidHost(h) && NamesAllocated(h, s)
    ensures FateOf(h, s) == Success(Kept) <==> !TakenOut(h, s)
  {
    if s.devname.None? {
      var hit := HitsOf(Compile(s.address).value);
      var v :| v in Allocated(h.configs) && hit(v);
      KeptOverAllocatedIff(h, s, v);
    }
  }

  lemma HitsNone(h: Host, hit: Pci -> bool, a: Pci)
    requires a !in Allocated(h.configs) && forall b :: hit(b) <==> b == a
    ensures !HitsAllocated(h, hit)
  {}

  lemma SafeSpecNamesNone(h: Host, d: Spec)
    requires ValidHost(h) && SafeSpec(h, d)
    ensures !NamesAllocated(h, d)
  {
    var a :| d.address == Some(TextAddress(Text(a))) && a !in Allocated(h.configs);
    ExactHits(d.address, a);
    HitsNone(h, HitsOf(Compile(d.address).value), a);
  }

  /**
    The document promises that VFs the host uses are taken out of the user's list.  What a run leaves
    names no such VF if and only if every entry that does is without a devname and claimed.
   */
  lemma AllocatedRemovedIff(h: Host, physMap: seq<(string, string)>, users: seq<Spec>)
    requires ValidHost(h) && Combine(h, physMap, users).Success?
    ensures var c := Combine(h, physMap, users).value;
            (forall d :: d in Left(c) ==> !NamesAllocated(h, d)) <==>
            (forall s :: s in c.rewritten && NamesAllocated(h, s) ==> TakenOut(h, s))
  {
    var c := Combine(h, physMap, users).value;
    FatesOfEntries(h, physMap, users);
    DerivedIsSafe(h, physMap, users);
    forall d | d in c.derived ensures !NamesAllocated(h, d) {
      SafeSpecNamesNone(h, d);
    }
    forall s | NamesAllocated(h, s) ensures s in c.copy <==> s in c.rewritten && !TakenOut(h, s) {
      WithFateMember(h, c.rewritten, true, s);
      StaysIff(h, s);
    }
  }

  lemma {:induction false} WithFateMember(h: Host, users: seq<Spec>, kept: bool, s: Spec)
    requires Readable(h)
    ensures s in WithFate(h, users, kept) <==> s in users && (FateOf(h, s) == Success(Kept)) == kept
  {
    if users != [] {
      assert users == users[..|users| - 1] + [users[|users| - 1]];
      WithFateMember(h, users[..|users| - 1], kept, s);
    }
  }

  /** Some NIC-partitioned function whose VFs the product allows still has a free VF. */
  ghost predicate SpareVf(h: Host, product: Option<string>)
    requires ValidHost(h)
  {
    exists pf :: pf in NicPfs(h.configs) && ProductAllowsVf(h, product, pf) && FreeVfs(h, pf) != []
  }

  /** While such a spare VF exists, a spec that is kept matches no allocated VF. */
  lemma KeptIsSafe(h: Host, s: Spec, v: Pci)
    requires ValidHost(h) && s.devname.None? && v in Allocated(h.configs)
    requires FateOf(h, s) == Success(Kept) && SpareVf(h, s.productId)
    ensures !Hits(Compile(s.address).value, v)
  {
    FateByCases(h, s);
    var pf :| pf in NicPfs(h.configs) && ProductAllowsVf(h, s.productId, pf) && FreeVfs(h, pf) != [];
    assert Claims(h, HitsOf(Compile(s.address).value), s.productId, pf);
    if Hits(Compile(s.address).value, v) {
      KeptOverAllocatedIff(h, s, v);
    }
  }

  /** An entry that names an allocated VF exactly is taken out if and only if such a spare VF exists; otherwise it stays. */
  lemma ExactAllocatedDroppedIff(h: Host, s: Spec, v: Pci)
    requires ValidHost(h) && v in Allocated(h.configs)
    requires s.devname.None? && s.address == Some(TextAddress(Text(v)))
    ensures FateOf(h, s) == Success(if SpareVf(h, s.productId) then Dropped else Kept)
  {
    ExactHits(s.address, v);
    var exact := HitsOf(Compile(s.address).value);
    FateByCases(h, s);
    ExactAllocatedSelection(h, exact, s.productId, v);
  }

  lemma ExactAllocatedGivesNothing(h: Host, exact: Pci -> bool, product: Option<string>, v: Pci, a: Pci)
    requires ValidHost(h) && v in Allocated(h.configs) && forall b :: exact(b) <==> b == v
    ensures !NicStepGives(h, exact, product, a) && !OtherStepGives(h, exact, product, a)
  {}

  lemma ExactAllocatedSelection(h: Host, exact: Pci -> bool, product: Option<string>, v: Pci)
    requires ValidHost(h) && v in Allocated(h.configs) && forall b :: exact(b) <==> b == v
    ensures SelectForSpec(h, exact, product) == Selection([], SpareVf(h, product))
  {
    var addresses := SelectForSpec(h, exact, product).addresses;
    ClosedForm(h, exact, product);
    forall a ensures a !in addresses {
      ExactAllocatedGivesNothing(h, exact, product, v, a);
    }
    HasMember(addresses);
    LeftAloneIff(h, exact, product, v);
    forall pf | pf in NicPfs(h.configs)
      ensures Claims(h, exact, product, pf) <==> ProductAllowsVf(h, product, pf) && FreeVfs(h, pf) != []
    {
      assert Configured(h, pf);
    }
  }

  // ---------- Idempotence ----------

  lemma RewriteIdempotent(h: Host, physMap: seq<(string, string)>, s: Spec)
    requires Readable(h) && Rewrite(h, physMap, s).Success?
    ensures Rewrite(h, physMap, Rewrite(h, physMap, s).value) == Rewrite(h, physMap, s)
  {}

  /** A spec that a further run leaves in its list: unchanged, and kept or replaced by itself. */
  ghost predicate Stable(h: Host, physMap: seq<(string, string)>, s: Spec)
    requires Readable(h)
  {
    && Rewrite(h, physMap, s) == Success(s)
    && (FateOf(h, s) == Success(Kept) || FateOf(h, s) == Success(Replaced([s])))
  }

  lemma Singleton<T>(s: seq<T>, x: T)
    requires NoDup(s) && (forall y :: y in s <==> y == x)
    ensures s == [x]
  {
    assert x in s;
    var last := |s| - 1;
    assert s[0] in s && s[last] in s;
    assert last == 0;
  }

  lemma ExactDeletesNothing(h: Host, product: Option<string>, a: Pci, exact: Pci -> bool, pf: string)
    requires ValidHost(h) && a !in Allocated(h.configs) && pf in NicPfs(h.configs) && h.address[pf] != a
    requires forall b :: exact(b) <==> b == a
    ensures !NicDeletes(h, exact, product, pf)
  {}

  lemma ExactNicStep(h: Host, hit: Pci -> bool, product: Option<string>, a: Pci, exact: Pci -> bool, b: Pci)
    requires ValidHost(h) && a in SelectForSpec(h, hit, product).addresses
    requires forall b :: exact(b) <==> b == a
    ensures NicStepGives(h, exact, product, b) <==> b == a && NicStepGives(h, hit, product, a)
  {
    ClosedForm(h, hit, product);
    SelectedIsSafe(h, hit, product, a);
    if NicStepGives(h, exact, product, b) {
      var qf :| qf in NicPfs(h.configs) && NicGives(h, exact, product, qf, b);
      assert Configured(h, qf) && b == a && qf in Parents(h, a);
      if OtherStepGives(h, hit, product, a) {
        var pf :| pf in NonNicPfs(h.configs) && OtherGives(h, hit, product, pf, a);
        assert Configured(h, pf);
      }
    }
    if b == a && NicStepGives(h, hit, product, a) {
      var pf :| pf in NicPfs(h.configs) && NicGives(h, hit, product, pf, a);
      assert NicGives(h, exact, product, pf, a);
    }
  }

  lemma ExactOtherStep(h: Host, product: Option<string>, a: Pci, exact: Pci -> bool, b: Pci)
    requires ValidHost(h) && (forall b :: exact(b) <==> b == a)
    ensures OtherStepGives(h, exact, product, b) ==> b == a
  {}

  lemma ExactDeletesNothingAtAll(h: Host, hit: Pci -> bool, product: Option<string>, a: Pci, exact: Pci -> bool)
    requires ValidHost(h) && a in SelectForSpec(h, hit, product).addresses
    requires forall b :: exact(b) <==> b == a
    ensures forall pf :: pf in NicPfs(h.configs) ==> !NicDeletes(h, exact, product, pf)
  {
    SelectedIsSafe(h, hit, product, a);
    forall pf | pf in NicPfs(h.configs) ensures !NicDeletes(h, exact, product, pf) {
      ExactDeletesNothing(h, product, a, exact, pf);
    }
  }

  /** Of the addresses derived from an exact address, each is it, and it is one if the NIC step gave it before. */
  lemma ExactGives(h: Host, hit: Pci -> bool, product: Option<string>, a: Pci, exact: Pci -> bool, b: Pci)
    requires ValidHost(h) && a in SelectForSpec(h, hit, product).addresses
    requires forall b :: exact(b) <==> b == a
    ensures b in SelectForSpec(h, exact, product).addresses <==> b == a && NicStepGives(h, hit, product, a)
  {
    ClosedForm(h, exact, product);
    ExactDeletesNothingAtAll(h, hit, product, a, exact);
    ExactNicStep(h, hit, product, a, exact, b);
    ExactOtherStep(h, product, a, exact, b);
    if Triggered(h, exact, product) {
      var c :| NicStepGives(h, exact, product, c);
      ExactNicStep(h, hit, product, a, exact, c);
    }
  }

  /** Deriving again from the exact address of something derived gives it back, or leaves it alone. */
  lemma DerivedAgain(h: Host, hit: Pci -> bool, product: Option<string>, a: Pci, exact: Pci -> bool)
    requires ValidHost(h) && a in SelectForSpec(h, hit, product).addresses
    requires forall b :: exact(b) <==> b == a
    ensures SelectForSpec(h, exact, product) == Selection(if NicStepGives(h, hit, product, a) then [a] else [], false)
  {
    var sel := SelectForSpec(h, exact, product);
    ClosedForm(h, exact, product);
    ExactDeletesNothingAtAll(h, hit, product, a, exact);
    forall b ensures b in sel.addresses <==> b == a && NicStepGives(h, hit, product, a) {
      ExactGives(h, hit, product, a, exact, b);
    }
    if NicStepGives(h, hit, product, a) {
      Singleton(sel.addresses, a);
    } else {
      HasMember(sel.addresses);
    }
  }

  /** One address of a selection, as a spec of its own. */
  lemma SelectedIsStable(h: Host, physMap: seq<(string, string)>, hit: Pci -> bool, s: Spec, a: Pci)
    requires ValidHost(h) && a in SelectForSpec(h, hit, s.productId).addresses
    ensures Stable(h, physMap, WithAddress(s, a))
  {
    var d := WithAddress(s, a);
    ExactHits(d.address, a);
    DerivedAgain(h, hit, s.productId, a, HitsOf(Compile(d.address).value));
    FateByCases(h, d);
    RewriteOfReplacement(h, physMap, d);
    assert WithAddress(d, a) == d;
    assert WithAddresses(d, [a]) == [d];
  }

  lemma RewriteOfReplacement(h: Host, physMap: seq<(string, string)>, d: Spec)
    requires Readable(h) && d.address.Some? && d.devname.None?
    ensures Rewrite(h, physMap, d) == Success(d)
  {}

  lemma ReplacementsAreStable(h: Host, physMap: seq<(string, string)>, s: Spec)
    requires ValidHost(h) && FateOf(h, s).Success? && FateOf(h, s).value.Replaced?
    ensures forall d :: d in FateOf(h, s).value.specs ==> Stable(h, physMap, d)
  {
    var hit := HitsOf(Compile(s.address).value);
    var addresses := SelectForSpec(h, hit, s.productId).addresses;
    FateByCases(h, s);
    forall d | d in FateOf(h, s).value.specs ensures Stable(h, physMap, d) {
      var i :| 0 <= i < |addresses| && d == WithAddress(s, addresses[i]);
      SelectedIsStable(h, physMap, hit, s, addresses[i]);
    }
  }

  lemma {:induction false} OutputIsStable(h: Host, physMap: seq<(string, string)>, users: seq<Spec>)
    requires ValidHost(h) && Combine(h, physMap, users).Success?
    ensures forall d :: d in Combine(h, physMap, users).value.copy ==> Stable(h, physMap, d)
    ensures forall d :: d in Combine(h, physMap, users).value.derived ==> Stable(h, physMap, d)
  {
    if users != [] {
      var front, last := users[..|users| - 1], users[|users| - 1];
      OutputIsStable(h, physMap, front);
      RewriteIdempotent(h, physMap, last);
      var s := Rewrite(h, physMap, last).value;
      if FateOf(h, s).value.Replaced? {
        ReplacementsAreStable(h, physMap, s);
      }
    }
  }

  /** The specs of a list that have, or have not, the fate Kept. */
  ghost function WithFate(h: Host, users: seq<Spec>, kept: bool): (r: seq<Spec>)
    requires Readable(h)
    ensures forall s :: s in r ==> s in users && (FateOf(h, s) == Success(Kept)) == kept
    ensures |r| <= |users|
  {
    if users == [] then []
    else
      var front := WithFate(h, users[..|users| - 1], kept);
      var last := users[|users| - 1];
      assert users == users[..|users| - 1] + [last];
      if (FateOf(h, last) == Success(Kept)) == kept then front + [last] else front
  }

  /** Every spec has, or has not, the fate Kept. */
  lemma {:induction false} WithFateSplits(h: Host, users: seq<Spec>)
    requires Readable(h)
    ensures multiset(WithFate(h, users, true) + WithFate(h, users, false)) == multiset(users)
  {
    if users != [] {
      assert users == users[..|users| - 1] + [users[|users| - 1]];
      WithFateSplits(h, users[..|users| - 1]);
    }
  }

  lemma ProcessStable(h: Host, physMap: seq<(string, string)>, s: Spec)
    requires Readable(h) && Stable(h, physMap, s)
    ensures Process(h, physMap, s) == Success((s, if FateOf(h, s) == Success(Kept) then Kept else Replaced([s])))
  {}

  lemma {:induction false} CombineStable(h: Host, physMap: seq<(string, string)>, users: seq<Spec>)
    requires Readable(h) && (forall s :: s in users ==> Stable(h, physMap, s))
    ensures Combine(h, physMap, users) == Success(Combined(users, WithFate(h, users, true), WithFate(h, users, false)))
  {
    if users != [] {
      var front, last := users[..|users| - 1], users[|users| - 1];
      assert users == front + [last];
      CombineStable(h, physMap, front);
      ProcessStable(h, physMap, last);
    }
  }

  lemma {:induction false} WithFateConcat(h: Host, s: seq<Spec>, t: seq<Spec>, kept: bool)
    requires Readable(h)
    ensures WithFate(h, s + t, kept) == WithFate(h, s, kept) + WithFate(h, t, kept)
  {
    if t == [] {
      assert s + t == s;
    } else {
      assert (s + t)[..|s + t| - 1] == s + t[..|t| - 1];
      WithFateConcat(h, s, t[..|t| - 1], kept);
    }
  }

  lemma {:induction false} WithFateAgain(h: Host, s: seq<Spec>, had: bool, kept: bool)
    requires Readable(h) && (forall x :: x in s ==> (FateOf(h, x) == Success(Kept)) == had)
    ensures WithFate(h, s, kept) == if had == kept then s else []
  {
    if s != [] {
      var front, last := s[..|s| - 1], s[|s| - 1];
      assert s == front + [last];
      WithFateAgain(h, front, had, kept);
    }
  }

  lemma {:induction false} StableListAgain(h: Host, physMap: seq<(string, string)>, list: seq<Spec>)
    requires Readable(h) && (forall s :: s in list ==> Stable(h, physMap, s))
    ensures var kept, derived := WithFate(h, list, true), WithFate(h, list, false);
            Combine(h, physMap, kept + derived) == Success(Combined(kept + derived, kept, derived))
  {
    var kept, derived := WithFate(h, list, true), WithFate(h, list, false);
    CombineStable(h, physMap, kept + derived);
    KeptOfParts(h, kept, derived);
  }

  lemma KeptOfParts(h: Host, kept: seq<Spec>, derived: seq<Spec>)
    requires Readable(h)
    requires forall x :: x in kept ==> FateOf(h, x) == Success(Kept)
    requires forall x :: x in derived ==> FateOf(h, x) != Success(Kept)
    ensures WithFate(h, kept + derived, true) == kept && WithFate(h, kept + derived, false) == derived
  {
    WithFateConcat(h, kept, derived, true);
    WithFateConcat(h, kept, derived, false);
    WithFateAgain(h, kept, true, true);
    WithFateAgain(h, kept, true, false);
    WithFateAgain(h, derived, false, true);
    WithFateAgain(h, derived, false, false);
  }

  /** The device specs that a successful run leaves. */
  function Left(c: Combined): seq<Spec> {
    c.copy + c.derived
  }

  /**
    Idempotence: deriving again from what a run left, on the same host, succeeds and leaves the
    same specs, each as often; from the second run on, in the same order too.
   */
  lemma DerivationIsIdempotent(h: Host, physMap: seq<(string, string)>, users: seq<Spec>)
    requires ValidHost(h) && Combine(h, physMap, users).Success?
    ensures var first := Left(Combine(h, physMap, users).value);
            && Combine(h, physMap, first).Success?
            && var second := Left(Combine(h, physMap, first).value);
               && multiset(second) == multiset(first)
               && Combine(h, physMap, second).Success?
               && Left(Combine(h, physMap, second).value) == second
  {
    var first := Left(Combine(h, physMap, users).value);
    OutputIsStable(h, physMap, users);
    CombineStable(h, physMap, first);
    WithFateSplits(h, first);
    StableListAgain(h, physMap, first);
  }

  // ---------- Conservation ----------

  /** A replacement differs from the user's spec in address and devname only, and has an address and no devname. */
  predicate Replaces(d: Spec, s: Spec) {
    && d == s.(address := d.address, devname := d.devname)
    && d.address.Some? && d.devname.None?
  }

  /** The specs that replace the entries of a rewritten list, in order. */
  ghost function Replacements(h: Host, users: seq<Spec>): seq<Spec>
    requires Readable(h)
  {
    if users == [] then []
    else
      var fate := FateOf(h, users[|users| - 1]);
      Replacements(h, users[..|users| - 1])
      + if fate.Success? && fate.value.Replaced? then fate.value.specs else []
  }

  lemma FateReplaces(h: Host, s: Spec)
    requires Readable(h)
    ensures FateOf(h, s).Success? && FateOf(h, s).value.Replaced? ==>
      FateOf(h, s).value.specs != [] && forall d :: d in FateOf(h, s).value.specs ==> Replaces(d, s)
  {}

  lemma {:induction false} WithFateAll(h: Host, users: seq<Spec>)
    requires Readable(h)
    ensures WithFate(h, users, true) == users <==> forall s :: s in users ==> FateOf(h, s) == Success(Kept)
  {
    if users != [] {
      var front, last := users[..|users| - 1], users[|users| - 1];
      assert users == front + [last];
      WithFateAll(h, front);
      if WithFate(h, users, true) == users {
        assert forall s :: s in users ==> s in WithFate(h, users, true);
      }
    }
  }

  /** Each entry rewritten. */
  ghost predicate RewrittenBy(rewrite: Spec -> Result<Spec, Error>, users: seq<Spec>, rewritten: seq<Spec>) {
    |rewritten| == |users| && forall i :: 0 <= i < |users| ==> rewrite(users[i]) == Success(rewritten[i])
  }

  function RewriterOf(h: Host, physMap: seq<(string, string)>): Spec -> Result<Spec, Error>
    requires Readable(h)
  {
    s => Rewrite(h, physMap, s)
  }

  /** The entry-wise account of a run. */
  ghost predicate Accounted(h: Host, physMap: seq<(string, string)>, users: seq<Spec>, c: Combined)
    requires Readable(h)
  {
    && RewrittenBy(RewriterOf(h, physMap), users, c.rewritten)
    && c.copy == WithFate(h, c.rewritten, true)
    && c.derived == Replacements(h, c.rewritten)
  }

  lemma CombineStep(h: Host, physMap: seq<(string, string)>, users: seq<Spec>)
    requires Readable(h) && users != [] && Combine(h, physMap, users).Success?
    ensures var front, entry := Combine(h, physMap, users[..|users| - 1]), Process(h, physMap, users[|users| - 1]);
            && front.Success? && entry.Success?
            && Combine(h, physMap, users).value == AddFate(front.value, entry.value.0, entry.value.1)
  {}

  lemma FatesStep(h: Host, list: seq<Spec>, s: Spec, fate: Fate)
    requires Readable(h) && FateOf(h, s) == Success(fate)
    ensures WithFate(h, list + [s], true) == WithFate(h, list, true) + if fate.Kept? then [s] else []
    ensures Replacements(h, list + [s]) == Replacements(h, list) + if fate.Replaced? then fate.specs else []
  {
    assert (list + [s])[..|list|] == list;
  }

  lemma ProcessSteps(h: Host, physMap: seq<(string, string)>, s: Spec)
    requires Readable(h) && Process(h, physMap, s).Success?
    ensures var (rewritten, fate) := Process(h, physMap, s).value;
            Rewrite(h, physMap, s) == Success(rewritten) && FateOf(h, rewritten) == Success(fate)
  {}

  lemma RewrittenStep(rewrite: Spec -> Result<Spec, Error>, users: seq<Spec>, rewritten: seq<Spec>, s: Spec)
    requires users != [] && RewrittenBy(rewrite, users[..|users| - 1], rewritten)
    requires rewrite(users[|users| - 1]) == Success(s)
    ensures RewrittenBy(rewrite, users, rewritten + [s])
  {}

  lemma {:induction false} FatesOfEntries(h: Host, physMap: seq<(string, string)>, users: seq<Spec>)
    requires Readable(h) && Combine(h, physMap, users).Success?
    ensures Accounted(h, physMap, users, Combine(h, physMap, users).value)
  {
    if users != [] {
      var front, last := users[..|users| - 1], users[|users| - 1];
      CombineStep(h, physMap, users);
      FatesOfEntries(h, physMap, front);
      var c := Combine(h, physMap, front).value;
      var (s, fate) := Process(h, physMap, last).value;
      ProcessSteps(h, physMap, last);
      FatesStep(h, c.rewritten, s, fate);
      RewrittenStep(RewriterOf(h, physMap), users, c.rewritten, s);
    }
  }

  /**
    Conservation: every user entry survives as one rewritten entry with one fate; the copy is the
    kept entries in order, the derived list the replacements in order.  So the program's test of the
    copy against the rewritten input says exactly whether some entry was not kept, and when it says
    no, nothing was derived and the list written is the copy followed by the derived specs all the same.
   */
  lemma Conservation(h: Host, physMap: seq<(string, string)>, users: seq<Spec>)
    requires Readable(h) && Combine(h, physMap, users).Success?
    ensures var c := Combine(h, physMap, users).value;
            && Accounted(h, physMap, users, c)
            && Output(c) == (exists s :: s in c.rewritten && FateOf(h, s) != Success(Kept), Left(c))
            && (c.copy == c.rewritten ==> c.derived == [])
  {
    FatesOfEntries(h, physMap, users);
    var c := Combine(h, physMap, users).value;
    WithFateAll(h, c.rewritten);
    NoReplacements(h, c.rewritten);
    assert c.copy + [] == c.copy;
  }

  lemma {:induction false} NoReplacements(h: Host, users: seq<Spec>)
    requires Readable(h)
    ensures (forall s :: s in users ==> FateOf(h, s) == Success(Kept)) ==> Replacements(h, users) == []
  {
    if users != [] {
      NoReplacements(h, users[..|users| - 1]);
    }
  }

  // ---------- The promise that fails ----------

  /** A host with one partitioned function whose only VF the host keeps for itself. */
  function ExhaustedHost(pf: Pci, vf: Pci): Host {
    Host([pf, vf], map[vf := ["eno1"]], map["eno1" := pf], map["eno1" := "0x1018"], map["eno1" := "0x1017"],
         [SriovConfig(Some("vf"), Some("eno1"), None, Some(vf))])
  }

  lemma ExhaustedHostIsValid(pf: Pci, vf: Pci)
    requires pf != vf
    ensures var h := ExhaustedHost(pf, vf);
            && ValidHost(h) && NicPfs(h.configs) == ["eno1"] && Allocated(h.configs) == [vf]
  {
    var h := ExhaustedHost(pf, vf);
    assert OccursAt("vf", "vf", 0);
    assert h.configs[..0] == [];
    assert NicPfs(h.configs) == ["eno1"];
    assert AllPfs(h.configs) == [];
    assert NonNicPfs(h.configs) == [];
    assert forall x :: Configured(h, x) <==> x == "eno1";
  }

  /** The user's entry for exactly that VF stays in the list. */
  lemma AllocatedVfCanStay(pf: Pci, vf: Pci)
    requires pf != vf
    ensures var h := ExhaustedHost(pf, vf);
            var s := Spec(Some(TextAddress(Text(vf))), None, None, None, map[]);
            ValidHost(h) && vf in Allocated(h.configs) && FateOf(h, s) == Success(Kept)
  {
    var h := ExhaustedHost(pf, vf);
    var s := Spec(Some(TextAddress(Text(vf))), None, None, None, map[]);
    ExhaustedHostIsValid(pf, vf);
    ExactAllocatedDroppedIff(h, s, vf);
    forall a ensures a !in FreeVfs(h, "eno1") {}
    HasMember(FreeVfs(h, "eno1"));
    assert !SpareVf(h, s.productId);
  }
}
