/** Resolving NIC aliases to interface names, and giving the remaining active interfaces aliases of their own. */
module NicMapping {
  import opened Wrappers
  import opened Strings
  import opened Sequences
  import opened NaturalOrder
  import Sorting

  // ---------- The host ----------

  /** What sysfs says of an interface; texts are stripped, and None is a file that cannot be read. */
  datatype Nic = Nic(
    device: bool,
    physfn: bool,
    permAddress: Option<string>,
    address: Option<string>,
    operstate: Option<string>)

  /** The interfaces as listed. */
  datatype Host = Host(listing: seq<string>, nics: map<string, Nic>)

  predicate StartsWith(s: string, prefix: string) {
    prefix <= s
  }

  /** _is_embedded_nic */
  predicate Embedded(name: string) {
    StartsWith(name, "em") || StartsWith(name, "eno") || StartsWith(name, "eth")
  }

  predicate KernelDummy(name: string) {
    StartsWith(name, "dummy")
  }

  predicate HasAddress(h: Host, name: string) {
    name in h.nics && h.nics[name].address.Some? && h.nics[name].address.value != ""
  }

  /** _is_available_nic */
  predicate Available(h: Host, name: string, checkActive: bool) {
    && name != "lo"
    && name in h.nics
    && HasAddress(h, name)
    && (KernelDummy(name) || h.nics[name].device)
    && (checkActive ==> h.nics[name].operstate.Some? && Lower(h.nics[name].operstate.value) == "up")
    && !h.nics[name].physfn
  }

  /** The listed interfaces that are available and embedded, or available and not. */
  function Select(h: Host, names: seq<string>, checkActive: bool, embedded: bool): (r: seq<string>)
    ensures forall n :: n in r <==> n in names && Available(h, n, checkActive) && Embedded(n) == embedded
    ensures NoDup(names) ==> NoDup(r)
  {
    if names == [] then []
    else
      var front, last := Select(h, names[..|names| - 1], checkActive, embedded), names[|names| - 1];
      assert names == names[..|names| - 1] + [last];
      if Available(h, last, checkActive) && Embedded(last) == embedded then front + [last] else front
  }

  /** _ordered_nics */
  function OrderedNics(h: Host, checkActive: bool): seq<string> {
    Sorting.Sort(NAME_LE, Select(h, h.listing, checkActive, true))
    + Sorting.Sort(NAME_LE, Select(h, h.listing, checkActive, false))
  }

  predicate IsHex(c: char) {
    '0' <= c <= '9' || 'a' <= c <= 'f' || 'A' <= c <= 'F'
  }

  function HexOnly(s: string): string {
    if s == [] then [] else (if IsHex(s[0]) then [s[0]] else []) + HexOnly(s[1..])
  }

  /** _normalize_mac */
  function NormalizeMac(s: string): Option<string> {
    var hex := HexOnly(Strip(s));
    if |hex| != 12 then None
    else
      var x := Lower(hex);
      Some(x[0..2] + ":" + x[2..4] + ":" + x[4..6] + ":" + x[6..8] + ":" + x[8..10] + ":" + x[10..12])
  }

  /** The MAC of an interface, normalized: the permanent address of a bonding slave, else the address. */
  function MacOf(h: Host, name: string): Option<string> {
    if name !in h.nics then None
    else
      var mac := if h.nics[name].permAddress.Some? then h.nics[name].permAddress else h.nics[name].address;
      if mac.Some? && mac.value != "" then NormalizeMac(mac.value) else None
  }

  function FirstWithMac(h: Host, names: seq<string>, mac: string): Option<string> {
    if names == [] then None
    else if MacOf(h, names[0]) == Some(mac) then Some(names[0])
    else FirstWithMac(h, names[1..], mac)
  }

  /** Lines 154-180: the interface that a value of the mapping stands for. */
  function Resolve(h: Host, value: string): Option<string> {
    var available := OrderedNics(h, false);
    var mac := NormalizeMac(value);
    if mac.Some? then FirstWithMac(h, available, mac.value)
    else if value in available then Some(value)
    else None
  }

  // ---------- Deriving the mapping ----------

  datatype Error = AlreadyMapped | AliasIsActive | Unresolved

  datatype Progress = Progress(mapped: map<string, string>, unresolved: bool)

  /** The loop over the user's entries, given what values stand for and which names active interfaces have. */
  function ResolveEntries(resolve: string -> Option<string>, active: string -> bool, entries: seq<(string, string)>)
    : Result<Progress, Error>
  {
    if entries == [] then
      Success(Progress(map[], false))
    else
      var front :- ResolveEntries(resolve, active, entries[..|entries| - 1]);
      var (alias, value) := entries[|entries| - 1];
      var nm := resolve(value);
      if nm.None? then Success(Progress(front.mapped, true))
      else if nm.value in front.mapped.Values then Failure(AlreadyMapped)
      else if active(alias) then Failure(AliasIsActive)
      else Success(Progress(front.mapped[alias := nm.value], front.unresolved))
  }

  function ResolverOf(h: Host): string -> Option<string> {
    value => Resolve(h, value)
  }

  function ActiveOf(h: Host): string -> bool {
    name => Available(h, name, true)
  }

  function ResolveAll(h: Host, entries: seq<(string, string)>): Result<map<string, string>, Error> {
    var all :- ResolveEntries(ResolverOf(h), ActiveOf(h), entries);
    if all.unresolved then Failure(Unresolved) else Success(all.mapped)
  }

  /** The alias of the i-th active interface, counted from 0. */
  function Alias(i: nat): string {
    "nic" + Decimal(i + 1)
  }

  lemma AliasInjective(i: nat, j: nat)
    requires Alias(i) == Alias(j)
    ensures i == j
  {
    SamePrefixDropped("nic", Decimal(i + 1), Decimal(j + 1));
    DecimalRoundTrip(i + 1);
    DecimalRoundTrip(j + 1);
  }

  lemma SamePrefixDropped(prefix: string, s: string, t: string)
    requires prefix + s == prefix + t
    ensures s == t
  {
    assert (prefix + s)[|prefix|..] == s && (prefix + t)[|prefix|..] == t;
  }

  /** The i-th active interface is not mapped yet and its alias is free. */
  predicate Leftover(mapped: map<string, string>, active: seq<string>, i: nat) {
    i < |active| && active[i] !in mapped.Values && Alias(i) !in mapped.Keys
  }

  /** The mapping completed, as the program's documentation puts it: nic1, nic2, ... for what is left over. */
  function Complete(mapped: map<string, string>, active: seq<string>): map<string, string> {
    CompleteTo(mapped, active, |active|)
  }

  function CompleteTo(mapped: map<string, string>, active: seq<string>, n: nat): map<string, string>
    requires n <= |active|
  {
    if n == 0 then mapped
    else
      var front := CompleteTo(mapped, active, n - 1);
      if Leftover(mapped, active, n - 1) then front[Alias(n - 1) := active[n - 1]] else front
  }

  /** derive_nic_mapping */
  function Derive(h: Host, entries: seq<(string, string)>): Result<map<string, string>, Error> {
    var mapped :- ResolveAll(h, entries);
    Success(Complete(mapped, OrderedNics(h, true)))
  }

  // ---------- Ordering ----------

  lemma SortMembers(names: seq<string>)
    ensures var r := Sorting.Sort(NAME_LE, names);
            && Sorting.SortedBy(NAME_LE, r) && multiset(r) == multiset(names)
            && (forall n :: n in r <==> n in names) && (NoDup(names) ==> NoDup(r))
  {
    NaturalOrderIsTotal();
    Sorting.SortCorrect(NAME_LE, names);
    Sorting.SameMembers(Sorting.Sort(NAME_LE, names), names);
    if NoDup(names) {
      PermutationNoDup(names, Sorting.Sort(NAME_LE, names));
    }
  }

  /** The ordered interfaces: the available ones, each once, the embedded ones first, each part in natural order. */
  lemma OrderedNicsExact(h: Host, checkActive: bool)
    requires NoDup(h.listing)
    ensures var r, k := OrderedNics(h, checkActive), |Select(h, h.listing, checkActive, true)|;
            && NoDup(r)
            && (forall n :: n in r <==> n in h.listing && Available(h, n, checkActive))
            && k <= |r|
            && (forall i :: 0 <= i < |r| ==> (Embedded(r[i]) <==> i < k))
            && Sorting.SortedBy(NAME_LE, r[..k]) && Sorting.SortedBy(NAME_LE, r[k..])
  {
    var e, o := Select(h, h.listing, checkActive, true), Select(h, h.listing, checkActive, false);
    SortMembers(e);
    SortMembers(o);
    var s, t := Sorting.Sort(NAME_LE, e), Sorting.Sort(NAME_LE, o);
    Sorting.SameMembers(s, e);
    assert (s + t)[..|s|] == s && (s + t)[|s|..] == t;
    forall i | 0 <= i < |s + t| ensures Embedded((s + t)[i]) <==> i < |s| {
      assert if i < |s| then (s + t)[i] in s else (s + t)[i] in t;
    }
    assert NoDup(s + t);
  }

  ghost predicate KeysDiffer(names: seq<string>) {
    forall m, n :: m in names && n in names && NaturalKey(m) == NaturalKey(n) ==> m == n
  }

  lemma {:induction false} SelectSplits(h: Host, names: seq<string>, checkActive: bool, embedded: bool)
    ensures forall n :: multiset(Select(h, names, checkActive, embedded))[n] ==
                        (if Available(h, n, checkActive) && Embedded(n) == embedded then multiset(names)[n] else 0)
  {
    if names != [] {
      assert names == names[..|names| - 1] + [names[|names| - 1]];
      SelectSplits(h, names[..|names| - 1], checkActive, embedded);
    }
  }

  /** When no two names share a key, the order in which interfaces are discovered does not matter. */
  lemma DiscoveryOrderIrrelevant(h: Host, g: Host, checkActive: bool)
    requires g.nics == h.nics && multiset(g.listing) == multiset(h.listing) && KeysDiffer(h.listing)
    ensures OrderedNics(g, checkActive) == OrderedNics(h, checkActive)
  {
    NaturalOrderIsTotal();
    forall embedded: bool
      ensures Sorting.Sort(NAME_LE, Select(h, h.listing, checkActive, embedded)) ==
              Sorting.Sort(NAME_LE, Select(g, g.listing, checkActive, embedded))
    {
      var s := Select(h, h.listing, checkActive, embedded);
      var t := Select(g, g.listing, checkActive, embedded);
      SelectSplits(h, h.listing, checkActive, embedded);
      SelectSplits(g, g.listing, checkActive, embedded);
      forall n ensures multiset(s)[n] == multiset(t)[n] {
        assert Available(h, n, checkActive) == Available(g, n, checkActive);
      }
      assert multiset(s) == multiset(t);
      Sorting.SortIgnoresOrder(NAME_LE, s, t);
    }
  }

  // ---------- The derived mapping ----------

  ghost predicate InjectiveMap(m: map<string, string>) {
    forall a, b :: a in m && b in m && m[a] == m[b] ==> a == b
  }

  ghost predicate DistinctAliases(entries: seq<(string, string)>) {
    forall i, j :: 0 <= i < j < |entries| ==> entries[i].0 != entries[j].0
  }

  /** The aliases of the entries. */
  function Aliases(entries: seq<(string, string)>): set<string> {
    set i | 0 <= i < |entries| :: entries[i].0
  }

  lemma AliasesStep(entries: seq<(string, string)>)
    requires entries != [] && DistinctAliases(entries)
    ensures var front, alias := entries[..|entries| - 1], entries[|entries| - 1].0;
            Aliases(entries) == Aliases(front) + {alias} && alias !in Aliases(front)
  {}

  /** The resolved entries: one interface for each alias, none twice, no alias that is an active interface. */
  ghost predicate ResolvesTo(resolve: string -> Option<string>, active: string -> bool,
                             entries: seq<(string, string)>, m: map<string, string>) {
    && m.Keys == Aliases(entries)
    && (forall i :: 0 <= i < |entries| ==>
         entries[i].0 in m && resolve(entries[i].1) == Some(m[entries[i].0]) && !active(entries[i].0))
    && InjectiveMap(m)
  }

  /** Entries that all resolve, seen from the last. */
  lemma FrontOfResolved(resolve: string -> Option<string>, active: string -> bool, entries: seq<(string, string)>)
    requires entries != [] && ResolveEntries(resolve, active, entries).Success?
    requires !ResolveEntries(resolve, active, entries).value.unresolved
    ensures var front := ResolveEntries(resolve, active, entries[..|entries| - 1]);
            var alias, nm := entries[|entries| - 1].0, resolve(entries[|entries| - 1].1);
            && front.Success? && !front.value.unresolved
            && nm.Some? && nm.value !in front.value.mapped.Values && !active(alias)
            && ResolveEntries(resolve, active, entries).value.mapped == front.value.mapped[alias := nm.value]
  {}

  lemma {:induction false} EntriesResolved(resolve: string -> Option<string>, active: string -> bool,
                                           entries: seq<(string, string)>)
    requires DistinctAliases(entries) && ResolveEntries(resolve, active, entries).Success?
    requires !ResolveEntries(resolve, active, entries).value.unresolved
    ensures ResolvesTo(resolve, active, entries, ResolveEntries(resolve, active, entries).value.mapped)
  {
    if entries != [] {
      var front := entries[..|entries| - 1];
      DistinctFront(entries);
      FrontOfResolved(resolve, active, entries);
      EntriesResolved(resolve, active, front);
      LastResolves(resolve, active, entries, ResolveEntries(resolve, active, front).value.mapped);
    }
  }

  lemma DistinctFront(entries: seq<(string, string)>)
    requires entries != [] && DistinctAliases(entries)
    ensures DistinctAliases(entries[..|entries| - 1])
  {}

  lemma LastResolves(resolve: string -> Option<string>, active: string -> bool,
                     entries: seq<(string, string)>, before: map<string, string>)
    requires entries != [] && DistinctAliases(entries)
    requires ResolvesTo(resolve, active, entries[..|entries| - 1], before)
    requires var alias, nm := entries[|entries| - 1].0, resolve(entries[|entries| - 1].1);
             nm.Some? && nm.value !in before.Values && !active(alias)
    ensures var alias, nm := entries[|entries| - 1].0, resolve(entries[|entries| - 1].1);
            ResolvesTo(resolve, active, entries, before[alias := nm.value])
  {
    var front := entries[..|entries| - 1];
    AliasesStep(entries);
    forall i | 0 <= i < |front| ensures entries[i] == front[i] && front[i].0 in Aliases(front) {}
    InjectiveWith(before, entries[|front|].0, resolve(entries[|front|].1).value);
  }

  lemma InjectiveWith(m: map<string, string>, a: string, v: string)
    requires InjectiveMap(m) && v !in m.Values
    ensures InjectiveMap(m[a := v])
  {}

  /** Conversely, entries that resolve to a mapping are accepted. */
  lemma {:induction false} EntriesAccepted(resolve: string -> Option<string>, active: string -> bool,
                                           entries: seq<(string, string)>, m: map<string, string>)
    requires DistinctAliases(entries) && ResolvesTo(resolve, active, entries, m)
    ensures ResolveEntries(resolve, active, entries) == Success(Progress(m, false))
  {
    if entries == [] {
      assert m == map[];
    } else {
      var last := |entries| - 1;
      var alias := entries[last].0;
      FrontResolves(resolve, active, entries, m);
      EntriesAccepted(resolve, active, entries[..last], m - {alias});
      AcceptLast(resolve, active, entries, m - {alias});
      assert (m - {alias})[alias := m[alias]] == m;
    }
  }

  lemma AcceptLast(resolve: string -> Option<string>, active: string -> bool,
                   entries: seq<(string, string)>, before: map<string, string>)
    requires entries != []
    requires ResolveEntries(resolve, active, entries[..|entries| - 1]) == Success(Progress(before, false))
    requires var alias, nm := entries[|entries| - 1].0, resolve(entries[|entries| - 1].1);
             nm.Some? && nm.value !in before.Values && !active(alias)
    ensures var alias, nm := entries[|entries| - 1].0, resolve(entries[|entries| - 1].1);
            ResolveEntries(resolve, active, entries) == Success(Progress(before[alias := nm.value], false))
  {}

  lemma FrontResolves(resolve: string -> Option<string>, active: string -> bool,
                      entries: seq<(string, string)>, m: map<string, string>)
    requires entries != [] && DistinctAliases(entries) && ResolvesTo(resolve, active, entries, m)
    ensures var front, alias := entries[..|entries| - 1], entries[|entries| - 1].0;
            && ResolvesTo(resolve, active, front, m - {alias})
            && alias in m && resolve(entries[|entries| - 1].1) == Some(m[alias]) && !active(alias)
            && m[alias] !in (m - {alias}).Values
            && DistinctAliases(front)
  {
    var front := entries[..|entries| - 1];
    AliasesStep(entries);
    forall i | 0 <= i < |front| ensures entries[i] == front[i] && front[i].0 in Aliases(front) {}
  }

  lemma {:induction false} CompleteKeeps(mapped: map<string, string>, active: seq<string>, n: nat)
    requires n <= |active|
    ensures forall a :: a in mapped ==> a in CompleteTo(mapped, active, n) && CompleteTo(mapped, active, n)[a] == mapped[a]
  {
    if n > 0 {
      CompleteKeeps(mapped, active, n - 1);
    }
  }

  lemma {:induction false} CompleteAdds(mapped: map<string, string>, active: seq<string>, n: nat, i: nat)
    requires i < n <= |active| && Leftover(mapped, active, i)
    ensures Alias(i) in CompleteTo(mapped, active, n) && CompleteTo(mapped, active, n)[Alias(i)] == active[i]
  {
    if i < n - 1 {
      CompleteAdds(mapped, active, n - 1, i);
      if Alias(n - 1) == Alias(i) {
        AliasInjective(n - 1, i);
      }
    }
  }

  lemma {:induction false} CompleteAddsOnly(mapped: map<string, string>, active: seq<string>, n: nat, a: string)
    requires n <= |active| && a in CompleteTo(mapped, active, n) && a !in mapped
    ensures exists i: nat :: i < n && Leftover(mapped, active, i) && a == Alias(i)
  {
    if n > 0 && a in CompleteTo(mapped, active, n - 1) {
      CompleteAddsOnly(mapped, active, n - 1, a);
    }
  }

  /** The completed mapping is the given one plus exactly the left-over interfaces under their aliases. */
  lemma CompleteExact(mapped: map<string, string>, active: seq<string>)
    ensures var r := Complete(mapped, active);
            && (forall a :: a in mapped ==> a in r && r[a] == mapped[a])
            && (forall i: nat :: Leftover(mapped, active, i) ==> Alias(i) in r && r[Alias(i)] == active[i])
            && (forall a :: a in r && a !in mapped ==> exists i: nat :: Leftover(mapped, active, i) && a == Alias(i))
  {
    CompleteKeeps(mapped, active, |active|);
    forall i: nat | Leftover(mapped, active, i)
      ensures Alias(i) in Complete(mapped, active) && Complete(mapped, active)[Alias(i)] == active[i]
    {
      CompleteAdds(mapped, active, |active|, i);
    }
    forall a | a in Complete(mapped, active) && a !in mapped
      ensures exists i: nat :: Leftover(mapped, active, i) && a == Alias(i)
    {
      CompleteAddsOnly(mapped, active, |active|, a);
    }
  }

  lemma CompleteInjective(mapped: map<string, string>, active: seq<string>)
    requires InjectiveMap(mapped) && NoDup(active)
    ensures InjectiveMap(Complete(mapped, active))
  {
    var r := Complete(mapped, active);
    CompleteExact(mapped, active);
    forall a | a in r ensures a in mapped <==> r[a] in mapped.Values {}
    forall a, b | a in r && b in r && r[a] == r[b] ensures a == b {
      if a !in mapped {
        var i: nat :| Leftover(mapped, active, i) && a == Alias(i);
        var j: nat :| Leftover(mapped, active, j) && b == Alias(j);
        assert active[i] == active[j];
      }
    }
  }

  /**
    Whenever a mapping is derived, it covers every user alias with the interface its value stands
    for, holds besides exactly `nic(i+1) -> active[i]` for the active interfaces not mapped by the
    user whose alias the user left free, and is injective.
   */
  lemma DerivedExact(h: Host, entries: seq<(string, string)>)
    requires NoDup(h.listing) && DistinctAliases(entries) && Derive(h, entries).Success?
    ensures ResolveAll(h, entries).Success?
    ensures var user, r, active := ResolveAll(h, entries).value, Derive(h, entries).value, OrderedNics(h, true);
            && ResolvesTo(ResolverOf(h), ActiveOf(h), entries, user)
            && (forall a :: a in user ==> a in r && r[a] == user[a])
            && (forall i: nat :: Leftover(user, active, i) ==> Alias(i) in r && r[Alias(i)] == active[i])
            && (forall a :: a in r && a !in user ==> exists i: nat :: Leftover(user, active, i) && a == Alias(i))
            && InjectiveMap(r)
  {
    EntriesResolved(ResolverOf(h), ActiveOf(h), entries);
    OrderedNicsExact(h, true);
    CompleteExact(ResolveAll(h, entries).value, OrderedNics(h, true));
    CompleteInjective(ResolveAll(h, entries).value, OrderedNics(h, true));
  }

  // ---------- The fixpoint ----------

  /** The entries are the mapping's, in some order. */
  ghost predicate Lists(entries: seq<(string, string)>, m: map<string, string>) {
    && DistinctAliases(entries)
    && m.Keys == Aliases(entries)
    && (forall i :: 0 <= i < |entries| ==> entries[i].0 in m && m[entries[i].0] == entries[i].1)
  }

  /** Nothing in the mapping changes its meaning when read as user input. */
  ghost predicate SelfConsistent(resolve: string -> Option<string>, active: string -> bool, m: map<string, string>) {
    forall a :: a in m ==> resolve(m[a]) == Some(m[a]) && !active(a)
  }

  /** With what the user's entries left over mapped, nothing is left over. */
  lemma NothingLeftOver(mapped: map<string, string>, active: seq<string>, i: nat)
    ensures !Leftover(Complete(mapped, active), active, i)
  {
    var r := Complete(mapped, active);
    CompleteExact(mapped, active);
    if i < |active| && Alias(i) !in r {
      assert Alias(i) !in mapped && !Leftover(mapped, active, i);
      var a :| a in mapped && mapped[a] == active[i];
      assert r[a] in r.Values;
    }
  }

  lemma {:induction false} CompleteNothing(m: map<string, string>, active: seq<string>, n: nat)
    requires n <= |active| && forall i :: 0 <= i < n ==> !Leftover(m, active, i)
    ensures CompleteTo(m, active, n) == m
  {
    if n > 0 {
      CompleteNothing(m, active, n - 1);
    }
  }

  /** Read as a value, the name of an available interface stands for that interface. */
  predicate StandsForItself(h: Host, name: string) {
    var mac := NormalizeMac(name);
    mac.None? || FirstWithMac(h, OrderedNics(h, false), mac.value) == Some(name)
  }

  /**
    What the first run's entries and the host are to meet: the interfaces they map, and those left
    over, stand for themselves, and no alias given to a left-over interface is an active one.
   */
  ghost predicate Repeatable(h: Host, user: map<string, string>, active: seq<string>) {
    && (forall a :: a in user ==> StandsForItself(h, user[a]))
    && (forall i: nat :: Leftover(user, active, i) ==> StandsForItself(h, active[i]) && !Available(h, Alias(i), true))
  }

  lemma AvailableResolves(h: Host, name: string)
    requires name in OrderedNics(h, false)
    ensures ResolverOf(h)(name) == Some(name) <==> StandsForItself(h, name)
  {}

  /** The interfaces of a derived mapping are available, and its user aliases not active. */
  lemma DerivedAvailable(h: Host, entries: seq<(string, string)>, a: string)
    requires NoDup(h.listing) && DistinctAliases(entries) && Derive(h, entries).Success?
    requires a in Derive(h, entries).value
    ensures Derive(h, entries).value[a] in OrderedNics(h, false)
    ensures a in ResolveAll(h, entries).value ==> !Available(h, a, true)
  {
    var user, active := ResolveAll(h, entries).value, OrderedNics(h, true);
    DerivedExact(h, entries);
    if a in user {
      var i :| 0 <= i < |entries| && entries[i].0 == a;
      ResolveGivesListed(h, entries[i].1);
    } else {
      var i: nat :| Leftover(user, active, i) && a == Alias(i);
      OrderedNicsExact(h, true);
      OrderedNicsExact(h, false);
      assert active[i] in active;
    }
  }

  lemma RepeatableIff(h: Host, entries: seq<(string, string)>)
    requires NoDup(h.listing) && DistinctAliases(entries) && Derive(h, entries).Success?
    ensures SelfConsistent(ResolverOf(h), ActiveOf(h), Derive(h, entries).value) <==>
            Repeatable(h, ResolveAll(h, entries).value, OrderedNics(h, true))
  {
    var user, active, m := ResolveAll(h, entries).value, OrderedNics(h, true), Derive(h, entries).value;
    DerivedExact(h, entries);
    forall a | a in m
      ensures ResolverOf(h)(m[a]) == Some(m[a]) <==> StandsForItself(h, m[a])
      ensures a in user ==> !ActiveOf(h)(a)
    {
      DerivedAvailable(h, entries, a);
      AvailableResolves(h, m[a]);
    }
  }

  /**
    The derived mapping is a fixpoint, in whatever order it is read back, if and only if every
    interface it maps stands for itself and no alias given to a left-over interface is active.
   */
  lemma FixpointIff(h: Host, entries: seq<(string, string)>, again: seq<(string, string)>)
    requires NoDup(h.listing) && DistinctAliases(entries) && Derive(h, entries).Success?
    requires Lists(again, Derive(h, entries).value)
    ensures Derive(h, again) == Derive(h, entries) <==>
            Repeatable(h, ResolveAll(h, entries).value, OrderedNics(h, true))
  {
    RepeatableIff(h, entries);
    FixpointIffConsistent(h, entries, again);
  }

  lemma FixpointIffConsistent(h: Host, entries: seq<(string, string)>, again: seq<(string, string)>)
    requires NoDup(h.listing) && DistinctAliases(entries) && Derive(h, entries).Success?
    requires Lists(again, Derive(h, entries).value)
    ensures Derive(h, again) == Derive(h, entries) <==>
            SelfConsistent(ResolverOf(h), ActiveOf(h), Derive(h, entries).value)
  {
    var m, active := Derive(h, entries).value, OrderedNics(h, true);
    if SelfConsistent(ResolverOf(h), ActiveOf(h), m) {
      ConsistentRepeats(h, entries, again);
    }
    if Derive(h, again) == Success(m) {
      DerivedExact(h, again);
      forall a | a in m ensures ResolverOf(h)(m[a]) == Some(m[a]) && !ActiveOf(h)(a) {
        var i :| 0 <= i < |again| && again[i].0 == a;
      }
    }
  }

  lemma ConsistentRepeats(h: Host, entries: seq<(string, string)>, again: seq<(string, string)>)
    requires NoDup(h.listing) && DistinctAliases(entries) && Derive(h, entries).Success?
    requires Lists(again, Derive(h, entries).value)
    requires SelfConsistent(ResolverOf(h), ActiveOf(h), Derive(h, entries).value)
    ensures Derive(h, again) == Derive(h, entries)
  {
    var m, active := Derive(h, entries).value, OrderedNics(h, true);
    DerivedExact(h, entries);
    EntriesAccepted(ResolverOf(h), ActiveOf(h), again, m);
    forall i: nat ensures !Leftover(m, active, i) {
      NothingLeftOver(ResolveAll(h, entries).value, active, i);
    }
    CompleteNothing(m, active, |active|);
  }

  /**
    On a host where no interface name reads as a MAC and no active interface is called nic<k>, every
    derived mapping is a fixpoint.
   */
  lemma FixpointOnOrdinaryHosts(h: Host, entries: seq<(string, string)>, again: seq<(string, string)>)
    requires NoDup(h.listing) && DistinctAliases(entries) && Derive(h, entries).Success?
    requires Lists(again, Derive(h, entries).value)
    requires forall n :: n in h.listing ==> NormalizeMac(n).None?
    requires forall i: nat :: !Available(h, Alias(i), true)
    ensures Derive(h, again) == Derive(h, entries)
  {
    var user, active := ResolveAll(h, entries).value, OrderedNics(h, true);
    OrderedNicsExact(h, true);
    OrderedNicsExact(h, false);
    DerivedExact(h, entries);
    forall a | a in user ensures StandsForItself(h, user[a]) {
      DerivedAvailable(h, entries, a);
    }
    FixpointIff(h, entries, again);
  }

  lemma {:induction false} FirstWithMacListed(h: Host, names: seq<string>, mac: string)
    ensures FirstWithMac(h, names, mac).Some? ==> FirstWithMac(h, names, mac).value in names
  {
    if names != [] {
      FirstWithMacListed(h, names[1..], mac);
    }
  }

  lemma ResolveGivesListed(h: Host, value: string)
    ensures Resolve(h, value).Some? ==> Resolve(h, value).value in OrderedNics(h, false)
  {
    if NormalizeMac(value).Some? {
      FirstWithMacListed(h, OrderedNics(h, false), NormalizeMac(value).value);
    }
  }

  lemma OnlyNic(h: Host, name: string, checkActive: bool)
    requires h.listing == [name] && Available(h, name, checkActive) && !Embedded(name)
    ensures OrderedNics(h, checkActive) == [name]
  {
    assert h.listing[..0] == [];
    assert Select(h, h.listing, checkActive, true) == [];
    assert Select(h, h.listing, checkActive, false) == [name];
    assert [name][..0] == [];
    assert Sorting.Sort(NAME_LE, [name][..0]) == [];
    assert Sorting.Sort(NAME_LE, [name]) == [name];
  }

  lemma OnlyNicResolves(h: Host, name: string)
    requires h.listing == [name] && Available(h, name, true) && !Embedded(name) && NormalizeMac(name).None?
    ensures ResolverOf(h)(name) == Some(name) && ActiveOf(h)(name)
  {
    OnlyNic(h, name, false);
  }

  lemma OnlyEntryFails(resolve: string -> Option<string>, active: string -> bool, name: string)
    requires resolve(name) == Some(name) && active(name)
    ensures ResolveEntries(resolve, active, [(name, name)]) == Failure(AliasIsActive)
    ensures ResolveEntries(resolve, active, []) == Success(Progress(map[], false))
  {
    assert [(name, name)][..0] == [];
  }

  lemma OnlyNicCompletes(name: string)
    requires name == Alias(0)
    ensures Complete(map[], [name]) == map[name := name]
  {
    assert CompleteTo(map[], [name], 0) == map[];
  }

  /** An only interface, active and called nic1, is given its own name as alias, which is refused when read back. */
  lemma OnlyNicBreaksFixpoint(h: Host, name: string)
    requires h.listing == [name] && Available(h, name, true) && !Embedded(name)
    requires name == Alias(0) && NormalizeMac(name).None?
    ensures Derive(h, []) == Success(map[name := name])
    ensures Derive(h, [(name, name)]) == Failure(AliasIsActive)
  {
    OnlyNic(h, name, true);
    OnlyNicResolves(h, name);
    OnlyEntryFails(ResolverOf(h), ActiveOf(h), name);
    OnlyNicCompletes(name);
  }

  function HostWithNic1(): Host {
    Host(["nic1"], map["nic1" := Nic(true, false, None, Some("52:54:00:00:00:01"), Some("up"))])
  }

  lemma Nic1IsNoMac()
    ensures NormalizeMac("nic1").None?
  {}

  lemma Nic1IsActive()
    ensures Available(HostWithNic1(), "nic1", true) && !Embedded("nic1")
  {
    assert Lower("up") == "up";
    assert "nic1"[0] == 'n' && "em"[0] == 'e' && "eno"[0] == 'e' && "eth"[0] == 'e';
  }

  lemma Nic1IsAlias()
    ensures Alias(0) == "nic1"
  {
    assert Decimal(1) == "1";
  }

  /** An active interface called nic1 breaks the fixpoint. */
  lemma ActiveNic1BreaksFixpoint()
    ensures Derive(HostWithNic1(), []) == Success(map["nic1" := "nic1"])
    ensures Derive(HostWithNic1(), [("nic1", "nic1")]) == Failure(AliasIsActive)
  {
    Nic1IsNoMac();
    Nic1IsActive();
    Nic1IsAlias();
    OnlyNicBreaksFixpoint(HostWithNic1(), "nic1");
  }
}
