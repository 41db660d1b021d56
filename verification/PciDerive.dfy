/**
  Deriving device specs: the user's specs minus the virtual functions the host keeps for itself.

  The host (sysfs, and the SR-IOV configuration that os-net-config left) does not change during a
  run and is a value.  The functions say what each step computes; module PciDeriveProgram holds
  the program's loops, proved against them.
 */
module PciDerive {
  import opened Wrappers
  import opened Strings
  import opened Sequences
  import opened PciAddress

  // ---------- The host ----------

  /** An entry of sriov_config.yaml; an absent key is None. */
  datatype SriovConfig = SriovConfig(
    deviceType: Option<string>,
    deviceName: Option<string>,
    name: Option<string>,
    pciAddress: Option<Pci>)

  /** What sysfs says: the devices as listed, the network names below each physfn, and per interface. */
  datatype Host = Host(
    devices: seq<Pci>,
    physfn: map<Pci, seq<string>>,
    address: map<string, Pci>,
    vfProduct: map<string, string>,
    pfProduct: map<string, string>,
    configs: seq<SriovConfig>)

  predicate Truthy(s: Option<string>) {
    s.Some? && s.value != ""
  }

  /** The name of the NIC-partitioned physical function that a VF entry points at. */
  function PartitionedName(c: SriovConfig): Option<string> {
    if Truthy(c.deviceType) && Contains(c.deviceType.value, "vf") && Truthy(c.deviceName) then c.deviceName else None
  }

  function PfName(c: SriovConfig): Option<string> {
    if Truthy(c.deviceType) && Contains(c.deviceType.value, "pf") && Truthy(c.name) then c.name else None
  }

  function AppendNew<T(==)>(s: seq<T>, x: Option<T>): (r: seq<T>)
    requires NoDup(s)
    ensures NoDup(r)
  {
    if x.Some? && x.value !in s then s + [x.value] else s
  }

  /** get_sriov_nic_partition_pfs: first mentions, in order. */
  function NicPfs(configs: seq<SriovConfig>): (pfs: seq<string>)
    ensures NoDup(pfs)
  {
    if configs == [] then []
    else AppendNew(NicPfs(configs[..|configs| - 1]), PartitionedName(configs[|configs| - 1]))
  }

  function AllPfs(configs: seq<SriovConfig>): (pfs: seq<string>)
    ensures NoDup(pfs)
  {
    if configs == [] then []
    else AppendNew(AllPfs(configs[..|configs| - 1]), PfName(configs[|configs| - 1]))
  }

  function Without(s: seq<string>, drop: seq<string>): (r: seq<string>)
    ensures forall x :: x in r <==> x in s && x !in drop
    ensures NoDup(s) ==> NoDup(r)
  {
    if s == [] then []
    else
      var rest := Without(s[..|s| - 1], drop);
      var last := s[|s| - 1];
      assert s == s[..|s| - 1] + [last];
      if last in drop then rest else rest + [last]
  }

  /** get_sriov_non_nic_partition_pfs */
  function NonNicPfs(configs: seq<SriovConfig>): (pfs: seq<string>)
    ensures NoDup(pfs)
    ensures forall x :: x in pfs ==> x !in NicPfs(configs)
  {
    Without(AllPfs(configs), NicPfs(configs))
  }

  /** get_allocated_pci_addresses */
  function Allocated(configs: seq<SriovConfig>): seq<Pci> {
    if configs == [] then []
    else
      var last := configs[|configs| - 1];
      Allocated(configs[..|configs| - 1]) + if last.pciAddress.Some? then [last.pciAddress.value] else []
  }

  predicate Configured(h: Host, pf: string) {
    pf in NicPfs(h.configs) || pf in NonNicPfs(h.configs)
  }

  /** The network names below a device's physfn; none when the device is not a virtual function. */
  function Parents(h: Host, a: Pci): seq<string> {
    if a in h.physfn then h.physfn[a] else []
  }

  predicate Known(h: Host, pfs: seq<string>) {
    forall pf :: pf in pfs ==> pf in h.address && pf in h.vfProduct && pf in h.pfProduct
  }

  /** What the program needs to run: every configured function has its links, and listings do not repeat. */
  predicate Readable(h: Host) {
    && Known(h, NicPfs(h.configs))
    && Known(h, NonNicPfs(h.configs))
    && (forall a :: a in h.physfn ==> NoDup(h.physfn[a]))
  }

  /**
    What holds of a host besides: every configured physical function has an address of its own, a
    virtual function belongs to one physical function and is not one itself, and the host allocates
    virtual functions only.
   */
  ghost predicate ValidHost(h: Host) {
    && Readable(h)
    && NoDup(h.devices)
    && (forall p, q :: Configured(h, p) && Configured(h, q) && h.address[p] == h.address[q] ==> p == q)
    && (forall a, p, q :: p in Parents(h, a) && q in Parents(h, a) ==> p == q)
    && (forall pf :: Configured(h, pf) ==> Parents(h, h.address[pf]) == [] && h.address[pf] !in Allocated(h.configs))
  }

  // ---------- Device specs ----------

  /** A device spec: the keys the program looks at, and the rest. */
  datatype Spec = Spec(
    address: Option<Address>,
    productId: Option<string>,
    devname: Option<string>,
    physicalNetwork: Option<string>,
    others: map<string, string>)

  /** A derived spec: the user's, with the address of one device in place of address or devname. */
  function WithAddress(s: Spec, a: Pci): Spec {
    s.(address := Some(TextAddress(Text(a))), devname := None)
  }

  function WithAddresses(s: Spec, addresses: seq<Pci>): (r: seq<Spec>)
    ensures |r| == |addresses|
    ensures forall i :: 0 <= i < |r| ==> r[i] == WithAddress(s, addresses[i])
  {
    if addresses == [] then [] else [WithAddress(s, addresses[0])] + WithAddresses(s, addresses[1..])
  }

  // ---------- One physical function ----------

  /** The device is a virtual function of `pf` that the host has not allocated. */
  predicate IsFree(h: Host, pf: string, a: Pci) {
    a !in Allocated(h.configs) && pf in Parents(h, a)
  }

  function FreeAmong(h: Host, pf: string, devices: seq<Pci>): (r: seq<Pci>)
    ensures forall a :: a in r <==> a in devices && IsFree(h, pf, a)
    ensures NoDup(devices) ==> NoDup(r)
  {
    if devices == [] then []
    else
      var rest := FreeAmong(h, pf, devices[..|devices| - 1]);
      var last := devices[|devices| - 1];
      assert devices == devices[..|devices| - 1] + [last];
      if IsFree(h, pf, last) then rest + [last] else rest
  }

  /** The free virtual functions of `pf`, as listed. */
  function FreeVfs(h: Host, pf: string): seq<Pci> {
    FreeAmong(h, pf, h.devices)
  }

  function Matching(hit: Pci -> bool, s: seq<Pci>): (r: seq<Pci>)
    ensures forall a :: a in r <==> a in s && hit(a)
    ensures NoDup(s) ==> NoDup(r)
  {
    if s == [] then []
    else
      var rest := Matching(hit, s[..|s| - 1]);
      var last := s[|s| - 1];
      assert s == s[..|s| - 1] + [last];
      if hit(last) then rest + [last] else rest
  }

  datatype Action = AddPf | AddVf | DelUserConfig | KeepUserConfig

  predicate ProductAllowsVf(h: Host, product: Option<string>, pf: string)
    requires pf in h.vfProduct
  {
    product.None? || Last4(h.vfProduct[pf]) == Last4(product.value)
  }

  /** match_pf_details */
  function MatchPf(h: Host, product: Option<string>, pf: string, nonNic: bool): Action
    requires pf in h.vfProduct && pf in h.pfProduct
  {
    if ProductAllowsVf(h, product, pf) then
      if nonNic then AddPf else AddVf
    else if Last4(h.pfProduct[pf]) == Last4(product.value) then
      if nonNic then AddPf else DelUserConfig
    else
      KeepUserConfig
  }

  /** The addresses selected at one or more physical functions, and whether the user's spec is to go. */
  datatype Selection = Selection(addresses: seq<Pci>, delete: bool)

  /** get_passthrough_config on a compiled address. */
  function Select(h: Host, hit: Pci -> bool, product: Option<string>, pf: string, nonNic: bool): Selection
    requires pf in h.address && pf in h.vfProduct && pf in h.pfProduct
  {
    var free := FreeVfs(h, pf);
    if hit(h.address[pf]) then
      match MatchPf(h, product, pf, nonNic)
      case AddPf => Selection([h.address[pf]], false)
      case AddVf => Selection(free, free == [])
      case DelUserConfig => Selection([], true)
      case KeepUserConfig => Selection([], false)
    else if ProductAllowsVf(h, product, pf) && free != [] then
      var chosen := Matching(hit, free);
      Selection(chosen, chosen == [] && exists a :: a in Allocated(h.configs) && hit(a))
    else
      Selection([], false)
  }

  function SelectAll(h: Host, hit: Pci -> bool, product: Option<string>, pfs: seq<string>, nonNic: bool): Selection
    requires Known(h, pfs)
  {
    if pfs == [] then
      Selection([], false)
    else
      var front := SelectAll(h, hit, product, pfs[..|pfs| - 1], nonNic);
      var last := Select(h, hit, product, pfs[|pfs| - 1], nonNic);
      Selection(front.addresses + last.addresses, front.delete || last.delete)
  }

  // ---------- One user spec ----------

  /** get_passthrough_config_for_all_pf on a compiled address. */
  function SelectForSpec(h: Host, hit: Pci -> bool, product: Option<string>): Selection
    requires Readable(h)
  {
    var nic := SelectAll(h, hit, product, NicPfs(h.configs), false);
    var addresses :=
      if nic.addresses != [] || nic.delete then
        nic.addresses + SelectAll(h, hit, product, NonNicPfs(h.configs), true).addresses
      else
        nic.addresses;
    Selection(addresses, addresses == [] && nic.delete)
  }

  /** The devices that a compiled address matches. */
  function HitsOf(p: Pattern): Pci -> bool {
    (a: Pci) => Hits(p, a)
  }

  /** get_passthrough_config_for_all_pf: the address is compiled only if some physical function is looked at. */
  function Derive(h: Host, s: Spec): Result<Selection, Error>
    requires Readable(h)
  {
    if NicPfs(h.configs) == [] then
      Success(Selection([], false))
    else
      var p :- Compile(s.address);
      Success(SelectForSpec(h, HitsOf(p), s.productId))
  }

  /** get_pf_name_from_phy_network on the split mapping. */
  function PfOfNetwork(network: string, physMap: seq<(string, string)>): Option<string> {
    if physMap == [] then None
    else if physMap[0].0 == network then Some(physMap[0].1)
    else PfOfNetwork(network, physMap[1..])
  }

  /** The in-place rewriting of a user's spec at lines 547-560. */
  function Rewrite(h: Host, physMap: seq<(string, string)>, s: Spec): Result<Spec, Error>
    requires Readable(h)
  {
    if s.address.Some? && s.devname.Some? then
      Failure(InvalidConfig)
    else if s.address.None? && s.productId.None? && s.devname.None? then
      if s.physicalNetwork.None? then
        Failure(MissingField)
      else
        var pf := PfOfNetwork(s.physicalNetwork.value, physMap);
        if pf.None? || pf.value !in h.address then Failure(UnknownDevice)
        else Success(WithAddress(s, h.address[pf.value]))
    else if s.devname.Some? && s.devname.value in NicPfs(h.configs) then
      Success(WithAddress(s, h.address[s.devname.value]))
    else
      Success(s)
  }

  /** What becomes of one user spec. */
  datatype Fate = Kept | Dropped | Replaced(specs: seq<Spec>)

  function FateOfSelection(s: Spec, sel: Selection): Fate {
    if sel.delete then Dropped
    else if sel.addresses == [] then Kept
    else Replaced(WithAddresses(s, sel.addresses))
  }

  /** The loop body of generate_combined_configuration, on a rewritten spec. */
  function FateOf(h: Host, s: Spec): Result<Fate, Error>
    requires Readable(h)
  {
    if s.devname.Some? then
      Success(Kept)
    else
      var sel :- Derive(h, s);
      Success(FateOfSelection(s, sel))
  }

  /** What generate_combined_configuration leaves: the rewritten input, the copy and the derived list. */
  datatype Combined = Combined(rewritten: seq<Spec>, copy: seq<Spec>, derived: seq<Spec>)

  function AddFate(c: Combined, s: Spec, fate: Fate): Combined {
    Combined(c.rewritten + [s],
             if fate.Kept? then c.copy + [s] else c.copy,
             if fate.Replaced? then c.derived + fate.specs else c.derived)
  }

  /** One turn of the loop: the rewritten spec and its fate. */
  function Process(h: Host, physMap: seq<(string, string)>, s: Spec): Result<(Spec, Fate), Error>
    requires Readable(h)
  {
    var rewritten :- Rewrite(h, physMap, s);
    var fate :- FateOf(h, rewritten);
    Success((rewritten, fate))
  }

  /** generate_combined_configuration */
  function Combine(h: Host, physMap: seq<(string, string)>, users: seq<Spec>): Result<Combined, Error>
    requires Readable(h)
  {
    if users == [] then
      Success(Combined([], [], []))
    else
      var front :- Combine(h, physMap, users[..|users| - 1]);
      var entry :- Process(h, physMap, users[|users| - 1]);
      Success(AddFate(front, entry.0, entry.1))
  }

  /** What _run_derive_pci writes: whether anything changed, and the device specs. */
  function Output(c: Combined): (bool, seq<Spec>) {
    if c.copy != c.rewritten then (true, c.copy + c.derived) else (false, c.rewritten)
  }
}
