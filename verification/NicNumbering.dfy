/** Which interfaces count, in what order, and which of them gets which alias, told by their names. */
module NicNumbering {
  import opened Wrappers
  import opened Strings
  import opened Sequences
  import opened NaturalOrder
  import opened NicMapping
  import Sorting

  // ---------- Which interfaces count ----------

  predicate HasText(t: Option<string>) {
    t.Some? && t.value != ""
  }

  lemma UpInAnyCase(s: string)
    ensures Lower(s) == "up" <==> s in {"up", "Up", "uP", "UP"}
  {
    if |s| == 2 {
      assert s == [s[0], s[1]];
      assert Lower(s) == [LowerChar(s[0]), LowerChar(s[1])];
    }
  }

  /**
    An interface counts when it is listed, is not the loopback, has an address, is a real device or is
    called dummy..., and is no virtual function; as active it also has to be up.
   */
  lemma CountsIff(h: Host, checkActive: bool, n: string)
    requires NoDup(h.listing)
    ensures n in OrderedNics(h, checkActive) <==>
      && n in h.listing && n != "lo" && n in h.nics
      && HasText(h.nics[n].address)
      && ("dummy" <= n || h.nics[n].device)
      && !h.nics[n].physfn
      && (checkActive ==> h.nics[n].operstate.Some? && h.nics[n].operstate.value in {"up", "Up", "uP", "UP"})
  {
    OrderedNicsExact(h, checkActive);
    if n in h.nics && h.nics[n].operstate.Some? {
      UpInAnyCase(h.nics[n].operstate.value);
    }
  }

  // ---------- The order of interfaces ----------

  predicate OnBoard(name: string) {
    "em" <= name || "eno" <= name || "eth" <= name
  }

  /** Interfaces on the board come before all others. */
  lemma OnBoardFirst(h: Host, checkActive: bool, i: nat, j: nat)
    requires NoDup(h.listing)
    requires var r := OrderedNics(h, checkActive); i < |r| && j < |r| && OnBoard(r[i]) && !OnBoard(r[j])
    ensures i < j
  {
    OrderedNicsExact(h, checkActive);
  }

  lemma SortedSlice(le: (string, string) -> bool, r: seq<string>, part: seq<string>, lo: nat, j: nat, i: nat)
    requires lo <= j < i < lo + |part| <= |r| && part == r[lo..lo + |part|] && Sorting.SortedBy(le, part)
    ensures le(r[j], r[i])
  {
    assert part[j - lo] == r[j] && part[i - lo] == r[i];
  }

  /** The ordered interfaces: those on the board up to some place, the others from there on, both parts sorted. */
  lemma TwoParts(h: Host, checkActive: bool) returns (k: nat)
    requires NoDup(h.listing)
    ensures var r := OrderedNics(h, checkActive);
            && k <= |r| && (forall i :: 0 <= i < |r| ==> (OnBoard(r[i]) <==> i < k))
            && Sorting.SortedBy(NAME_LE, r[..k]) && Sorting.SortedBy(NAME_LE, r[k..])
  {
    k := |Select(h, h.listing, checkActive, true)|;
    OrderedNicsExact(h, checkActive);
  }

  lemma PartsSorted(le: (string, string) -> bool, r: seq<string>, k: nat, j: nat, i: nat)
    requires k <= |r| && Sorting.SortedBy(le, r[..k]) && Sorting.SortedBy(le, r[k..])
    requires j < i < |r| && (i < k <==> j < k)
    ensures le(r[j], r[i])
  {
    if i < k {
      SortedSlice(le, r, r[..k], 0, j, i);
    } else {
      SortedSlice(le, r, r[k..], k, j, i);
    }
  }

  /** Among those on the board, and among the others, the names decide. */
  lemma NamesInOrder(h: Host, checkActive: bool, i: nat, j: nat)
    requires NoDup(h.listing)
    requires var r := OrderedNics(h, checkActive);
             i < |r| && j < |r| && OnBoard(r[i]) == OnBoard(r[j]) && Before(r[i], r[j])
    ensures i < j
  {
    var r := OrderedNics(h, checkActive);
    var k := TwoParts(h, checkActive);
    if j < i {
      PartsSorted(NAME_LE, r, k, j, i);
    }
  }

  /** A smaller number in the same place of the name comes first: eth2 before eth10. */
  lemma NumbersInOrder(h: Host, checkActive: bool, w: string, m: nat, n: nat, s: string, t: string, i: nat, j: nat)
    requires NoDup(h.listing) && !EndsWithDigit(w) && m < n && !StartsWithDigit(s) && !StartsWithDigit(t)
    requires var r := OrderedNics(h, checkActive);
             && i < |r| && j < |r| && OnBoard(r[i]) == OnBoard(r[j])
             && r[i] == w + (Decimal(m) + s) && r[j] == w + (Decimal(n) + t)
    ensures i < j
  {
    NumbersAscend(w, m, n, s, t);
    NamesInOrder(h, checkActive, i, j);
  }

  /** So does a smaller character, where both are no digits. */
  lemma CharactersInOrder(h: Host, checkActive: bool, w: string, c: char, d: char, s: string, t: string, i: nat, j: nat)
    requires NoDup(h.listing) && !IsDigit(c) && !IsDigit(d) && c < d
    requires var r := OrderedNics(h, checkActive);
             && i < |r| && j < |r| && OnBoard(r[i]) == OnBoard(r[j])
             && r[i] == w + ([c] + s) && r[j] == w + ([d] + t)
    ensures i < j
  {
    CharactersAscend(w, c, d, s, t);
    NamesInOrder(h, checkActive, i, j);
  }

  // ---------- What a value of the user's stands for ----------

  /** The interface has this MAC: by its permanent address as a bonding slave, where there is one, else by its address. */
  ghost predicate HasMac(h: Host, n: string, mac: string) {
    n in h.nics
    && (exists text :: text != "" && NormalizeMac(text) == Some(mac)
                       && (h.nics[n].permAddress == Some(text)
                           || (h.nics[n].permAddress.None? && h.nics[n].address == Some(text))))
  }

  lemma MacOfIff(h: Host, n: string, mac: string)
    ensures MacOf(h, n) == Some(mac) <==> HasMac(h, n, mac)
  {}

  /** The i-th of these interfaces is this one, has this MAC, and none before it has. */
  ghost predicate FirstWith(h: Host, names: seq<string>, mac: string, n: string, i: nat) {
    i < |names| && names[i] == n && HasMac(h, n, mac) && forall j :: 0 <= j < i ==> !HasMac(h, names[j], mac)
  }

  lemma {:induction false} FirstWithMacIff(h: Host, names: seq<string>, mac: string, n: string)
    ensures FirstWithMac(h, names, mac) == Some(n) <==> exists i: nat :: FirstWith(h, names, mac, n, i)
  {
    if names != [] {
      var rest := names[1..];
      MacOfIff(h, names[0], mac);
      FirstWithMacIff(h, rest, mac, n);
      if HasMac(h, names[0], mac) {
        assert names[0] == n ==> FirstWith(h, names, mac, n, 0);
      } else {
        FirstWithLater(h, names, mac, n);
      }
    }
  }

  lemma FirstWithLater(h: Host, names: seq<string>, mac: string, n: string)
    requires names != [] && !HasMac(h, names[0], mac)
    ensures (exists i: nat :: FirstWith(h, names, mac, n, i)) <==> (exists i: nat :: FirstWith(h, names[1..], mac, n, i))
  {
    var rest := names[1..];
    if i: nat :| FirstWith(h, rest, mac, n, i) {
      forall j | 0 <= j < i + 1 ensures !HasMac(h, names[j], mac) {
        if j > 0 {
          assert names[j] == rest[j - 1];
        }
      }
      assert FirstWith(h, names, mac, n, i + 1);
    }
    if i: nat :| FirstWith(h, names, mac, n, i) {
      forall j | 0 <= j < i - 1 ensures !HasMac(h, rest[j], mac) {
        assert rest[j] == names[j + 1];
      }
      assert FirstWith(h, rest, mac, n, i - 1);
    }
  }

  /** A value that reads as a MAC stands for the first available interface with it, any other for the available interface of that name. */
  lemma ResolvesIff(h: Host, value: string, n: string)
    ensures var available, mac := OrderedNics(h, false), NormalizeMac(value);
            Resolve(h, value) == Some(n) <==>
              if mac.None? then n == value && n in available
              else exists i: nat :: FirstWith(h, available, mac.value, n, i)
  {
    var mac := NormalizeMac(value);
    if mac.Some? {
      FirstWithMacIff(h, OrderedNics(h, false), mac.value, n);
    }
  }

  predicate HexPair(p: string) {
    |p| == 2 && IsHex(p[0]) && IsHex(p[1])
  }

  predicate NoHex(s: string) {
    forall c :: c in s ==> !IsHex(c)
  }

  lemma HexOnlyStep(s: string)
    requires s != ""
    ensures HexOnly(s) == (if IsHex(s[0]) then [s[0]] else []) + HexOnly(s[1..])
  {}

  lemma {:induction false} HexOnlyConcat(a: string, b: string)
    ensures HexOnly(a + b) == HexOnly(a) + HexOnly(b)
  {
    if a == [] {
      assert a + b == b;
    } else {
      assert (a + b)[1..] == a[1..] + b;
      HexOnlyStep(a);
      HexOnlyStep(a + b);
      HexOnlyConcat(a[1..], b);
      Associate(if IsHex(a[0]) then [a[0]] else [], HexOnly(a[1..]), HexOnly(b));
    }
  }

  lemma {:induction false} HexOnlyNone(s: string)
    requires NoHex(s)
    ensures HexOnly(s) == ""
  {
    if s != [] {
      assert s[0] in s;
      HexOnlyNone(s[1..]);
    }
  }

  lemma HexOnlyPair(p: string, after: string)
    requires HexPair(p) && NoHex(after)
    ensures HexOnly(p + after) == p
  {
    HexOnlyConcat(p, after);
    HexOnlyNone(after);
    assert p == [p[0]] + [p[1]] && p[1..] == [p[1]] && p[1..][1..] == "";
    assert HexOnly(p[1..]) == [p[1]];
  }

  /** Six pairs of hexadecimal digits with any separator that holds no such digit read as a MAC, in small letters with colons. */
  lemma MacRead(a: string, b: string, c: string, d: string, e: string, f: string, sep: string)
    requires HexPair(a) && HexPair(b) && HexPair(c) && HexPair(d) && HexPair(e) && HexPair(f) && NoHex(sep)
    ensures NormalizeMac(a + sep + b + sep + c + sep + d + sep + e + sep + f) ==
            Some(Lower(a) + ":" + Lower(b) + ":" + Lower(c) + ":" + Lower(d) + ":" + Lower(e) + ":" + Lower(f))
  {
    var s := a + sep + (b + sep + (c + sep + (d + sep + (e + sep + f))));
    assert s == a + sep + b + sep + c + sep + d + sep + e + sep + f;
    HexOnlyPair(f, "");
    assert f + "" == f;
    HexOnlyPair(e, sep);
    HexOnlyConcat(e + sep, f);
    HexOnlyPair(d, sep);
    HexOnlyConcat(d + sep, e + sep + f);
    HexOnlyPair(c, sep);
    HexOnlyConcat(c + sep, d + sep + (e + sep + f));
    HexOnlyPair(b, sep);
    HexOnlyConcat(b + sep, c + sep + (d + sep + (e + sep + f)));
    HexOnlyPair(a, sep);
    HexOnlyConcat(a + sep, b + sep + (c + sep + (d + sep + (e + sep + f))));
    HexEnds(s);
    SixPairs(s, a, b, c, d, e, f);
  }

  /** A text that begins and ends with a hexadecimal digit has no blanks around it. */
  lemma HexEnds(s: string)
    requires s != "" && IsHex(s[0]) && IsHex(s[|s| - 1])
    ensures Strip(s) == s
  {
    StripBlanks("", s, "");
    assert "" + s + "" == s;
  }

  lemma SixPairs(s: string, a: string, b: string, c: string, d: string, e: string, f: string)
    requires HexPair(a) && HexPair(b) && HexPair(c) && HexPair(d) && HexPair(e) && HexPair(f)
    requires HexOnly(Strip(s)) == a + (b + (c + (d + (e + f))))
    ensures NormalizeMac(s) ==
            Some(Lower(a) + ":" + Lower(b) + ":" + Lower(c) + ":" + Lower(d) + ":" + Lower(e) + ":" + Lower(f))
  {
    var x := Lower(HexOnly(Strip(s)));
    assert x[0..2] == Lower(a) && x[2..4] == Lower(b) && x[4..6] == Lower(c);
    assert x[6..8] == Lower(d) && x[8..10] == Lower(e) && x[10..12] == Lower(f);
  }

  lemma {:induction false} StripShorter(s: string)
    ensures |StripRight(s)| <= |s| && |StripLeft(s)| <= |s| && |HexOnly(s)| <= |s|
  {
    if s != [] {
      StripShorter(s[1..]);
      StripShorter(s[..|s| - 1]);
    }
  }

  /** A text of fewer than twelve characters is no MAC. */
  lemma ShortIsNoMac(s: string)
    requires |s| < 12
    ensures NormalizeMac(s).None?
  {
    StripShorter(s);
    StripShorter(StripLeft(s));
    StripShorter(Strip(s));
  }

  // ---------- Which entries are accepted ----------

  /** Every value stands for an interface, no two for the same, and no alias is an active interface. */
  ghost predicate Acceptable(resolve: string -> Option<string>, active: string -> bool, entries: seq<(string, string)>) {
    && (forall i :: 0 <= i < |entries| ==> resolve(entries[i].1).Some? && !active(entries[i].0))
    && (forall i, j :: 0 <= i < j < |entries| ==> resolve(entries[i].1) != resolve(entries[j].1))
  }

  lemma {:induction false} AcceptableIff(resolve: string -> Option<string>, active: string -> bool, entries: seq<(string, string)>)
    requires DistinctAliases(entries)
    ensures var r := ResolveEntries(resolve, active, entries);
            r.Success? && !r.value.unresolved <==> Acceptable(resolve, active, entries)
  {
    var r := ResolveEntries(resolve, active, entries);
    if r.Success? && !r.value.unresolved {
      EntriesResolved(resolve, active, entries);
      var m := r.value.mapped;
      forall i, j | 0 <= i < j < |entries| ensures resolve(entries[i].1) != resolve(entries[j].1) {
        assert m[entries[i].0] != m[entries[j].0];
      }
    }
    if Acceptable(resolve, active, entries) && entries != [] {
      var front := entries[..|entries| - 1];
      DistinctFront(entries);
      AcceptableIff(resolve, active, front);
      EntriesResolved(resolve, active, front);
      LastIsNew(resolve, active, entries, ResolveEntries(resolve, active, front).value.mapped);
    }
  }

  lemma LastIsNew(resolve: string -> Option<string>, active: string -> bool, entries: seq<(string, string)>,
                  before: map<string, string>)
    requires entries != [] && Acceptable(resolve, active, entries)
    requires ResolvesTo(resolve, active, entries[..|entries| - 1], before)
    ensures resolve(entries[|entries| - 1].1).value !in before.Values
  {
    var front, last := entries[..|entries| - 1], |entries| - 1;
    forall a | a in before ensures before[a] != resolve(entries[last].1).value {
      var i :| 0 <= i < |front| && front[i].0 == a;
      assert resolve(front[i].1) == Some(before[a]) && resolve(entries[i].1) != resolve(entries[last].1);
    }
  }

  /** A mapping of the user's is accepted exactly in that case, and then each alias has the interface that its value stands for. */
  lemma AcceptedIff(h: Host, entries: seq<(string, string)>)
    requires DistinctAliases(entries)
    ensures Derive(h, entries).Success? <==>
      && (forall i :: 0 <= i < |entries| ==> Resolve(h, entries[i].1).Some? && !Available(h, entries[i].0, true))
      && (forall i, j :: 0 <= i < j < |entries| ==> Resolve(h, entries[i].1) != Resolve(h, entries[j].1))
  {
    var resolve, active := ResolverOf(h), ActiveOf(h);
    AcceptableIff(resolve, active, entries);
    assert forall i :: 0 <= i < |entries| ==> resolve(entries[i].1) == Resolve(h, entries[i].1);
    assert forall i :: 0 <= i < |entries| ==> active(entries[i].0) == Available(h, entries[i].0, true);
  }

  // ---------- Aliases on a host without a mapping of the user's ----------

  /** nic1, nic2, ... */
  function NicName(k: nat): string {
    "nic" + Decimal(k)
  }

  /** The k-th active interface has the alias nic<k>, and there is nothing else. */
  ghost predicate Numbered(m: map<string, string>, active: seq<string>) {
    && (forall k: nat :: 0 < k <= |active| ==> NicName(k) in m && m[NicName(k)] == active[k - 1])
    && (forall a :: a in m ==> exists k: nat :: 0 < k <= |active| && a == NicName(k))
  }

  lemma CompletedIsNumbered(active: seq<string>)
    ensures Numbered(Complete(map[], active), active)
  {
    var m := Complete(map[], active);
    CompleteExact(map[], active);
    forall k: nat | 0 < k <= |active| ensures NicName(k) in m && m[NicName(k)] == active[k - 1] {
      assert Leftover(map[], active, k - 1) && NicName(k) == Alias(k - 1);
    }
    forall a | a in m ensures exists k: nat :: 0 < k <= |active| && a == NicName(k) {
      var i: nat :| Leftover(map[], active, i) && a == Alias(i);
      assert a == NicName(i + 1);
    }
  }

  lemma NoEntries(h: Host)
    ensures ResolveAll(h, []) == Success(map[])
  {}

  /** Without user entries the active interfaces are numbered, in order. */
  lemma FreshMapping(h: Host)
    ensures Derive(h, []).Success? && Numbered(Derive(h, []).value, OrderedNics(h, true))
  {
    NoEntries(h);
    CompletedIsNumbered(OrderedNics(h, true));
  }

  lemma Position(s: seq<string>, x: string) returns (i: nat)
    requires x in s
    ensures i < |s| && s[i] == x
  {
    i :| i < |s| && s[i] == x;
  }

  /** Of two active interfaces of one kind, that with the smaller number gets the alias with the smaller number. */
  lemma LowerNumberLowerAlias(h: Host, w: string, m: nat, n: nat, s: string, t: string)
    requires NoDup(h.listing) && !EndsWithDigit(w) && m < n && !StartsWithDigit(s) && !StartsWithDigit(t)
    requires var x, y := w + (Decimal(m) + s), w + (Decimal(n) + t);
             x in OrderedNics(h, true) && y in OrderedNics(h, true) && OnBoard(x) == OnBoard(y)
    ensures Derive(h, []).Success?
    ensures var x, y := w + (Decimal(m) + s), w + (Decimal(n) + t);
            exists i: nat, j: nat :: i < j && Assigns(Derive(h, []).value, i, x) && Assigns(Derive(h, []).value, j, y)
  {
    var active := OrderedNics(h, true);
    var x, y := w + (Decimal(m) + s), w + (Decimal(n) + t);
    FreshMapping(h);
    var i := Position(active, x);
    var j := Position(active, y);
    NumbersInOrder(h, true, w, m, n, s, t, i, j);
    assert Assigns(Derive(h, []).value, i + 1, x) && Assigns(Derive(h, []).value, j + 1, y);
  }

  predicate Assigns(m: map<string, string>, k: nat, name: string) {
    NicName(k) in m && m[NicName(k)] == name
  }

  /** On a host with just eth0 and eth1, in whatever order they are listed, nic1 is eth0 and nic2 is eth1. */
  lemma TwoInterfaces(h: Host)
    requires NoDup(h.listing) && forall n :: n in OrderedNics(h, true) <==> n in {"eth0", "eth1"}
    ensures Derive(h, []) == Success(map["nic1" := "eth0", "nic2" := "eth1"])
  {
    EthNames();
    TwoOrdered(h, "eth", 0, 1);
    FreshMapping(h);
    NumberedTwo(Derive(h, []).value, "eth0", "eth1");
  }

  lemma EthNames()
    ensures "eth" + (Decimal(0) + "") == "eth0" && "eth" + (Decimal(1) + "") == "eth1"
  {
    DecimalDigits(0, 0);
    DecimalDigits(0, 1);
  }

  lemma TwoOrdered(h: Host, w: string, m: nat, n: nat)
    requires NoDup(h.listing) && !EndsWithDigit(w) && m < n
    requires var x, y := w + (Decimal(m) + ""), w + (Decimal(n) + "");
             OnBoard(x) == OnBoard(y) && forall z :: z in OrderedNics(h, true) <==> z in {x, y}
    ensures OrderedNics(h, true) == [w + (Decimal(m) + ""), w + (Decimal(n) + "")]
  {
    var r := OrderedNics(h, true);
    var x, y := w + (Decimal(m) + ""), w + (Decimal(n) + "");
    OrderedNicsExact(h, true);
    var i := Position(r, x);
    var j := Position(r, y);
    NumbersInOrder(h, true, w, m, n, "", "", i, j);
    OnlyTwo(r, x, y, i, j);
  }

  lemma OnlyPlaces(r: seq<string>, x: string, y: string, i: nat, j: nat, k: nat)
    requires NoDup(r) && forall n :: n in r <==> n in {x, y}
    requires i < j < |r| && r[i] == x && r[j] == y && k < |r|
    ensures k == i || k == j
  {
    assert r[k] in r;
  }

  lemma OnlyTwo(r: seq<string>, x: string, y: string, i: nat, j: nat)
    requires NoDup(r) && forall n :: n in r <==> n in {x, y}
    requires i < j < |r| && r[i] == x && r[j] == y
    ensures r == [x, y]
  {
    OnlyPlaces(r, x, y, i, j, 0);
    OnlyPlaces(r, x, y, i, j, 1);
    if |r| > 2 {
      OnlyPlaces(r, x, y, i, j, 2);
    }
  }

  lemma FirstNames()
    ensures NicName(1) == "nic1" && NicName(2) == "nic2" && "nic1" != "nic2"
  {
    DecimalDigits(0, 1);
    DecimalDigits(0, 2);
    assert "nic1"[3] != "nic2"[3];
  }

  lemma TwoKeys(m: map<string, string>, a: string, b: string, x: string, y: string)
    requires a != b && (forall k :: k in m <==> k == a || k == b) && m[a] == x && m[b] == y
    ensures m == map[a := x, b := y]
  {}

  lemma NumberedTwo(m: map<string, string>, x: string, y: string)
    requires Numbered(m, [x, y])
    ensures m == map["nic1" := x, "nic2" := y]
  {
    FirstNames();
    forall a | a in m ensures a == NicName(1) || a == NicName(2) {
      var k: nat :| 0 < k <= |[x, y]| && a == NicName(k);
    }
    TwoKeys(m, NicName(1), NicName(2), x, y);
  }
}
