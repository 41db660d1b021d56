/** Finding the configuration directory that a mounted path belongs to. */
module ConfigBase {
  import opened Wrappers
  import opened Strings

  // ---------- Paths ----------

  /** The index behind the last slash; 0 when there is none. */
  function HeadEnd(path: string): (n: nat)
    ensures n <= |path|
    ensures n > 0 ==> path[n - 1] == '/'
    ensures forall i :: n <= i < |path| ==> path[i] != '/'
  {
    if path == [] then 0
    else if path[|path| - 1] == '/' then |path|
    else HeadEnd(path[..|path| - 1])
  }

  /** `s.rstrip('/')` */
  function StripSlashes(s: string): (r: string)
    ensures r <= s && (r != [] ==> r[|r| - 1] != '/')
    ensures forall i :: |r| <= i < |s| ==> s[i] == '/'
  {
    if s != [] && s[|s| - 1] == '/' then StripSlashes(s[..|s| - 1]) else s
  }

  /** `os.path.dirname(path)` */
  function Dirname(path: string): string {
    var head := path[..HeadEnd(path)];
    if StripSlashes(head) == "" then head else StripSlashes(head)
  }

  predicate HasName(path: string) {
    exists i :: 0 <= i < |path| && path[i] != '/'
  }

  /** Going up from a path that is not slashes only makes it shorter. */
  lemma DirnameShorter(path: string)
    requires HasName(path)
    ensures |Dirname(path)| < |path| && Dirname(path) <= path
  {}

  lemma PrefixKeepsName(prefix: string, path: string)
    requires HasName(prefix) && prefix <= path
    ensures HasName(path)
  {}

  // ---------- The search ----------

  datatype Error = NoBase | Endless | FileNotFound | NoPlaceholder

  const SHARED_CONFIG_NAMESPACES: set<string> := {"certs", "cacerts", "config", "healthchecks"}

  /** `os.path.join(base, name)` for a base that does not end with a slash and a name that does not begin with one. */
  function JoinPath(base: string, name: string): string {
    if base == "" then name else base + "/" + name
  }

  /** The directories whose entries are configuration directories: the base and the shared ones in it. */
  predicate IsParent(base: string, dir: string) {
    dir == base || exists ns :: ns in SHARED_CONFIG_NAMESPACES && dir == JoinPath(base, ns)
  }

  predicate Absolute(path: string) {
    "/" <= path
  }

  /** The guard fails, or the loop body returns. */
  predicate Stops(prefix: string, path: string) {
    !(prefix <= path) || IsParent(StripSlashes(prefix), Dirname(path))
  }

  /** The path after n turns of a loop that does not stop. */
  function Upward(volume: string, n: nat): string {
    if n == 0 then volume else Dirname(Upward(volume, n - 1))
  }

  /** A prefix that is empty or slashes only, on an absolute volume that starts with it. */
  predicate Stuck(prefix: string, volume: string) {
    !HasName(prefix) && prefix <= volume && Absolute(volume)
  }

  /** What the loop comes to; Endless stands for not coming to an end. */
  function BaseFrom(prefix: string, path: string): Result<string, Error>
    decreases |path|
  {
    if !(prefix <= path) then Failure(NoBase)
    else if Stuck(prefix, path) then Failure(Endless)
    else if IsParent(StripSlashes(prefix), Dirname(path)) then Success(path)
    else
      UpwardIsShorter(prefix, path);
      BaseFrom(prefix, Dirname(path))
  }

  lemma {:induction false} NamelessStrips(prefix: string)
    requires !HasName(prefix)
    ensures StripSlashes(prefix) == ""
  {
    if prefix != "" {
      assert prefix[|prefix| - 1] == '/';
      NamelessStrips(prefix[..|prefix| - 1]);
    }
  }

  lemma UpwardIsShorter(prefix: string, path: string)
    requires !Stuck(prefix, path) && !Stops(prefix, path)
    ensures |Dirname(path)| < |path| && !Stuck(prefix, Dirname(path))
  {
    if HasName(prefix) {
      PrefixKeepsName(prefix, path);
    } else {
      NamelessStrips(prefix);
      assert Dirname("") == "";
      assert path[0] != '/';
    }
    DirnameShorter(path);
  }

  /** _get_config_base, where the search ends. */
  method GetConfigBase(prefix: string, volume: string) returns (r: Result<string, Error>)
    requires !Stuck(prefix, volume)
    ensures r == BaseFrom(prefix, volume)
  {
    var path := volume;
    var base := StripSlashes(prefix);
    while prefix <= path
      invariant !Stuck(prefix, path)
      invariant BaseFrom(prefix, path) == BaseFrom(prefix, volume)
      decreases |path|
    {
      var dirname := Dirname(path);
      if dirname == base || dirname in (set ns | ns in SHARED_CONFIG_NAMESPACES :: JoinPath(base, ns)) {
        return Success(path);
      }
      UpwardIsShorter(prefix, path);
      path := dirname;
    }
    r := Failure(NoBase);
  }

  // ---------- When the search ends ----------

  lemma SlashesWithin(path: string, k: nat)
    requires 0 < k <= |path| && forall i :: 0 <= i < k ==> path[i] == '/'
    ensures k <= |Dirname(path)| && Dirname(path)[..k] == path[..k]
  {
    var head := path[..HeadEnd(path)];
    var dir := StripSlashes(head);
    assert path[k - 1] == '/';
    assert k <= |head|;
    if dir != "" {
      assert path[|dir| - 1] == dir[|dir| - 1];
      assert k <= |dir|;
    }
  }

  /** Going up keeps the slashes that a path begins with. */
  lemma DirnameKeepsSlashes(prefix: string, path: string)
    requires !HasName(prefix) && prefix <= path && Absolute(path)
    ensures prefix <= Dirname(path) && Absolute(Dirname(path))
  {
    var k := if prefix == "" then 1 else |prefix|;
    assert forall i :: 0 <= i < |prefix| ==> path[i] == prefix[i];
    SlashesWithin(path, k);
  }

  lemma AbsoluteIsNoParent(prefix: string, dir: string)
    requires !HasName(prefix) && Absolute(dir)
    ensures !IsParent(StripSlashes(prefix), dir)
  {
    NamelessStrips(prefix);
    forall ns | ns in SHARED_CONFIG_NAMESPACES ensures ns[0] != '/' {}
  }

  /** From a stuck state the loop neither stops nor gets out of it, however long it runs. */
  lemma {:induction false} StuckForever(prefix: string, volume: string, n: nat)
    requires Stuck(prefix, volume)
    ensures Stuck(prefix, Upward(volume, n)) && !Stops(prefix, Upward(volume, n))
  {
    if n > 0 {
      StuckForever(prefix, volume, n - 1);
      DirnameKeepsSlashes(prefix, Upward(volume, n - 1));
    }
    DirnameKeepsSlashes(prefix, Upward(volume, n));
    AbsoluteIsNoParent(prefix, Dirname(Upward(volume, n)));
  }

  /** With the prefix `/` that is so for every absolute volume. */
  lemma RootPrefixIsStuck(volume: string, n: nat)
    requires Absolute(volume)
    ensures !Stops("/", Upward(volume, n))
  {
    StuckForever("/", volume, n);
  }

  /** What one turn keeps, n turns keep; and each leaves a shorter path. */
  lemma {:induction false} TurnsKeep<T>(result: string -> T, fine: string -> bool, stops: string -> bool,
                                        volume: string, n: nat)
    requires forall path :: fine(path) && !stops(path) ==>
      fine(Dirname(path)) && result(Dirname(path)) == result(path) && |Dirname(path)| < |path|
    requires fine(volume) && forall i: nat :: i < n ==> !stops(Upward(volume, i))
    ensures fine(Upward(volume, n)) && result(Upward(volume, n)) == result(volume)
    ensures |Upward(volume, n)| + n <= |volume|
  {
    if n > 0 {
      TurnsKeep(result, fine, stops, volume, n - 1);
    }
  }

  lemma OneTurnKeeps(prefix: string, path: string)
    requires !Stuck(prefix, path) && !Stops(prefix, path)
    ensures !Stuck(prefix, Dirname(path)) && BaseFrom(prefix, Dirname(path)) == BaseFrom(prefix, path)
    ensures |Dirname(path)| < |path|
  {
    UpwardIsShorter(prefix, path);
  }

  lemma SearchGoesOn(prefix: string, volume: string, n: nat)
    requires !Stuck(prefix, volume) && forall i: nat :: i < n ==> !Stops(prefix, Upward(volume, i))
    ensures !Stuck(prefix, Upward(volume, n)) && BaseFrom(prefix, Upward(volume, n)) == BaseFrom(prefix, volume)
    ensures |Upward(volume, n)| + n <= |volume|
  {
    var result, fine, stops := path => BaseFrom(prefix, path), path => !Stuck(prefix, path), path => Stops(prefix, path);
    forall path | fine(path) && !stops(path)
      ensures fine(Dirname(path)) && result(Dirname(path)) == result(path) && |Dirname(path)| < |path|
    {
      OneTurnKeeps(prefix, path);
    }
    TurnsKeep(result, fine, stops, volume, n);
  }

  lemma NotStuckStops(prefix: string, volume: string)
    requires !Stuck(prefix, volume)
    ensures exists n: nat :: Stops(prefix, Upward(volume, n))
  {
    if forall n: nat :: !Stops(prefix, Upward(volume, n)) {
      SearchGoesOn(prefix, volume, |volume| + 1);
    }
  }

  /**
    The loop comes to an end unless the prefix is empty or slashes only and the volume an absolute
    path that starts with it; then it goes on for ever.
   */
  lemma SearchEndsIff(prefix: string, volume: string)
    ensures (exists n: nat :: Stops(prefix, Upward(volume, n))) <==> !Stuck(prefix, volume)
    ensures BaseFrom(prefix, volume) == Failure(Endless) <==> Stuck(prefix, volume)
  {
    if Stuck(prefix, volume) {
      forall n: nat ensures !Stops(prefix, Upward(volume, n)) {
        StuckForever(prefix, volume, n);
      }
    } else {
      NotStuckStops(prefix, volume);
      EndlessOnlyWhenStuck(prefix, volume);
    }
  }

  lemma {:induction false} EndlessOnlyWhenStuck(prefix: string, path: string)
    requires !Stuck(prefix, path)
    ensures BaseFrom(prefix, path) != Failure(Endless)
    decreases |path|
  {
    if !Stops(prefix, path) {
      UpwardIsShorter(prefix, path);
      EndlessOnlyWhenStuck(prefix, Dirname(path));
    }
  }

  lemma StopMeansNotStuck(prefix: string, volume: string, n: nat)
    requires Stops(prefix, Upward(volume, n))
    ensures !Stuck(prefix, volume)
  {
    if Stuck(prefix, volume) {
      StuckForever(prefix, volume, n);
    }
  }

  /** The result is decided where the loop first stops: the path there, unless it has left the prefix. */
  lemma SearchFindsFirst(prefix: string, volume: string, n: nat)
    requires Stops(prefix, Upward(volume, n)) && forall i: nat :: i < n ==> !Stops(prefix, Upward(volume, i))
    ensures BaseFrom(prefix, volume) ==
            if prefix <= Upward(volume, n) then Success(Upward(volume, n)) else Failure(NoBase)
  {
    StopMeansNotStuck(prefix, volume, n);
    SearchGoesOn(prefix, volume, n);
  }

  /** With a prefix that is empty or slashes only, no search that ends finds nothing. */
  lemma {:induction false} NamelessFinds(prefix: string, path: string)
    requires !HasName(prefix) && prefix <= path
    ensures if Absolute(path) then BaseFrom(prefix, path) == Failure(Endless) else BaseFrom(prefix, path).Success?
    decreases |path|
  {
    if !Absolute(path) && !Stops(prefix, path) {
      UpwardIsShorter(prefix, path);
      assert prefix == "";
      NamelessFinds(prefix, Dirname(path));
    }
  }

  // ---------- What is found ----------

  /** Searching again from what was found finds it again. */
  lemma {:induction false} SearchIdempotent(prefix: string, volume: string)
    requires BaseFrom(prefix, volume).Success?
    ensures BaseFrom(prefix, BaseFrom(prefix, volume).value) == BaseFrom(prefix, volume)
    decreases |volume|
  {
    if !IsParent(StripSlashes(prefix), Dirname(volume)) {
      UpwardIsShorter(prefix, volume);
      SearchIdempotent(prefix, Dirname(volume));
    }
  }

  lemma ParentIsAbove(dir: string, path: string)
    requires dir != "" && dir[|dir| - 1] != '/' && Dirname(path) == dir
    ensures dir + "/" <= path
  {}

  lemma BaseOfPrefix(prefix: string)
    requires HasName(prefix)
    ensures StripSlashes(prefix) != ""
  {}

  lemma ParentIsBaseOrBelow(base: string, dir: string)
    requires base != "" && base[|base| - 1] != '/' && IsParent(base, dir)
    ensures dir != "" && dir[|dir| - 1] != '/' && (dir == base || base + "/" <= dir)
  {
    if dir != base {
      var ns :| ns in SHARED_CONFIG_NAMESPACES && dir == JoinPath(base, ns);
      SharedIsPlain(ns);
      assert ns[|ns| - 1] in ns;
      assert dir[..|base| + 1] == base + "/";
    }
  }

  lemma JustBelowParent(prefix: string, volume: string)
    requires HasName(prefix) && IsParent(StripSlashes(prefix), Dirname(volume))
    ensures StripSlashes(prefix) + "/" <= volume
  {
    BaseOfPrefix(prefix);
    ParentIsBaseOrBelow(StripSlashes(prefix), Dirname(volume));
    ParentIsAbove(Dirname(volume), volume);
  }

  /**
    What is found lies on the way to the volume and strictly below the base, so a volume that only
    shares the text of the prefix is rejected.
   */
  lemma {:induction false} FoundIsBelowBase(prefix: string, volume: string)
    requires HasName(prefix) && BaseFrom(prefix, volume).Success?
    ensures var r := BaseFrom(prefix, volume).value;
            StripSlashes(prefix) + "/" <= r <= volume && prefix <= r && IsParent(StripSlashes(prefix), Dirname(r))
    decreases |volume|
  {
    if Stops(prefix, volume) {
      JustBelowParent(prefix, volume);
    } else {
      OneTurnKeeps(prefix, volume);
      DirnameShorterNamed(prefix, volume);
      FoundIsBelowBase(prefix, Dirname(volume));
    }
  }

  lemma DirnameShorterNamed(prefix: string, volume: string)
    requires HasName(prefix) && prefix <= volume
    ensures Dirname(volume) <= volume
  {
    PrefixKeepsName(prefix, volume);
    DirnameShorter(volume);
  }

  predicate Plain(name: string) {
    name != "" && '/' !in name
  }

  /** `base/c1/.../cn` */
  function Join(base: string, names: seq<string>): string {
    if names == [] then base else Join(base, names[..|names| - 1]) + "/" + names[|names| - 1]
  }

  lemma {:induction false} JoinEnds(base: string, names: seq<string>)
    requires base != "" && base[|base| - 1] != '/' && forall c :: c in names ==> Plain(c)
    ensures var p := Join(base, names); p != "" && p[|p| - 1] != '/' && base <= p
  {
    if names != [] {
      var last := names[|names| - 1];
      assert last in names && last[|last| - 1] in last;
      JoinEnds(base, names[..|names| - 1]);
    }
  }

  lemma StripOne(s: string)
    requires s != "" && s[|s| - 1] != '/'
    ensures StripSlashes(s + "/") == s
  {}

  lemma {:induction false} HeadOf(s: string, name: string)
    requires '/' !in name
    ensures HeadEnd(s + "/" + name) == |s| + 1
  {
    var p := s + "/" + name;
    if name != [] {
      var last := |name| - 1;
      assert name[last] in name;
      HeadOf(s, name[..last]);
      assert p[..|p| - 1] == s + "/" + name[..last];
    }
  }

  lemma {:induction false} DirnameOfJoin(base: string, names: seq<string>)
    requires base != "" && base[|base| - 1] != '/' && names != [] && forall c :: c in names ==> Plain(c)
    ensures Dirname(Join(base, names)) == Join(base, names[..|names| - 1])
  {
    var front, last := Join(base, names[..|names| - 1]), names[|names| - 1];
    assert last in names;
    JoinEnds(base, names[..|names| - 1]);
    HeadOf(front, last);
    assert Join(base, names)[..|front| + 1] == front + "/";
    StripOne(front);
  }

  lemma {:induction false} JoinBelow(base: string, names: seq<string>)
    requires names != []
    ensures exists rest :: Join(base, names) == base + "/" + names[0] + rest && (|names| > 1 ==> '/' in rest)
  {
    if |names| == 1 {
      assert Join(base, names[..0]) == base;
      assert Join(base, names) == base + "/" + names[0] + "";
    } else {
      var front, last := names[..|names| - 1], names[|names| - 1];
      JoinBelow(base, front);
      var rest :| Join(base, front) == base + "/" + front[0] + rest;
      assert Join(base, names) == base + "/" + names[0] + (rest + "/" + last);
      assert (rest + "/" + last)[|rest|] == '/';
    }
  }

  lemma SharedIsPlain(ns: string)
    requires ns in SHARED_CONFIG_NAMESPACES
    ensures Plain(ns)
  {}

  /** A name below the base is a parent when it is a shared namespace. */
  lemma ParentBelow(base: string, name: string)
    requires base != ""
    ensures IsParent(base, base + "/" + name) <==> name in SHARED_CONFIG_NAMESPACES
  {
    assert |base + "/" + name| > |base|;
    forall ns ensures JoinPath(base, ns) == base + "/" + name <==> ns == name {
      BehindSlash(base, ns, name);
    }
  }

  /** Of the directories on the way, only the base and a shared namespace directly in it are parents. */
  lemma ParentsOnTheWay(base: string, names: seq<string>)
    requires base != "" && forall c :: c in names ==> Plain(c)
    ensures IsParent(base, Join(base, names)) <==>
            names == [] || (|names| == 1 && names[0] in SHARED_CONFIG_NAMESPACES)
  {
    if |names| == 1 {
      JoinOne(base, names);
      ParentBelow(base, names[0]);
    } else if |names| > 1 {
      DeepIsNoParent(base, names);
    }
  }

  lemma DeepIsNoParent(base: string, names: seq<string>)
    requires base != "" && |names| > 1
    ensures !IsParent(base, Join(base, names))
  {
    JoinBelow(base, names);
    var rest :| Join(base, names) == base + "/" + names[0] + rest && '/' in rest;
    var name := names[0] + rest;
    assert Join(base, names) == base + "/" + name;
    assert '/' in name;
    ParentBelow(base, name);
    if name in SHARED_CONFIG_NAMESPACES {
      SharedIsPlain(name);
    }
  }

  lemma BehindSlash(base: string, s: string, t: string)
    ensures base + "/" + s == base + "/" + t <==> s == t
  {
    assert (base + "/" + s)[|base| + 1..] == s;
    assert (base + "/" + t)[|base| + 1..] == t;
  }

  lemma JoinOne(base: string, names: seq<string>)
    ensures |names| == 1 ==> Join(base, names) == base + "/" + names[0]
  {
    if |names| == 1 {
      assert Join(base, names[..0]) == base;
    }
  }

  /** What the search is to find for `base/c1/.../cn`: two names deep in a shared namespace, one otherwise. */
  function Expected(names: seq<string>): seq<string>
    requires names != []
  {
    if names[0] in {"certs", "cacerts", "config", "healthchecks"} && |names| >= 2 then names[..2] else names[..1]
  }

  lemma JoinMonotone(base: string, names: seq<string>, k: nat)
    requires k <= |names|
    ensures Join(base, names[..k]) <= Join(base, names)
    decreases |names|
  {
    if k == |names| {
      assert names[..k] == names;
    } else {
      assert names[..|names| - 1][..k] == names[..k];
      JoinMonotone(base, names[..|names| - 1], k);
    }
  }

  lemma JoinFirst(base: string, names: seq<string>)
    requires names != []
    ensures base + "/" + names[0] <= Join(base, names)
  {}

  lemma ExpectedOfFront(base: string, names: seq<string>)
    requires base != "" && names != [] && forall c :: c in names ==> Plain(c)
    ensures var front := names[..|names| - 1];
            if IsParent(base, Join(base, front)) then Expected(names) == names
            else front != [] && Expected(front) == Expected(names)
  {
    var front := names[..|names| - 1];
    ParentsOnTheWay(base, front);
    if |front| >= 2 {
      assert front[..1] == names[..1] && front[..2] == names[..2];
    }
  }

  /** A name directly behind the base's slash: longer prefixes that are the base and slashes do not fit. */
  lemma PrefixFits(prefix: string, base: string, names: seq<string>)
    requires base == StripSlashes(prefix) && names != [] && Plain(names[0])
    ensures prefix <= Join(base, names) <==> prefix <= base + "/"
  {
    var path := Join(base, names);
    JoinFirst(base, names);
    assert path[..|base| + 1] == base + "/";
    assert path[|base| + 1] == names[0][0] && names[0][0] in names[0];
  }

  /**
    On `base/c1/.../cn` the search returns `base/c1/c2` when c1 is a shared namespace and n >= 2,
    and `base/c1` otherwise, if the prefix is the base with at most one slash behind it; with more
    slashes it finds nothing.
   */
  lemma {:induction false} SearchExact(prefix: string, base: string, names: seq<string>)
    requires HasName(prefix) && base == StripSlashes(prefix)
    requires names != [] && forall c :: c in names ==> Plain(c)
    ensures BaseFrom(prefix, Join(base, names)) ==
            if prefix <= base + "/" then Success(Join(base, Expected(names))) else Failure(NoBase)
    decreases |names|
  {
    var front := names[..|names| - 1];
    BaseOfPrefix(prefix);
    DirnameOfJoin(base, names);
    ExpectedOfFront(base, names);
    PrefixFits(prefix, base, names);
    if prefix <= base + "/" && !IsParent(base, Join(base, front)) {
      SearchExact(prefix, base, front);
    }
  }
}
