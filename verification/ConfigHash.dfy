/** Injecting configuration hashes into staged Quadlet files. */
module ConfigHash {
  import opened Wrappers
  import opened Strings
  import opened Sequences
  import opened ConfigBase
  import opened NaturalOrder
  import Sorting

  const HASH_MARK := "# config_hash="
  const VOLUME_MARK := "Volume="

  /** The lines of a staged file. */
  type Content = seq<string>

  predicate IsHashLine(line: string) {
    HASH_MARK <= line
  }

  /** What `^Volume=(.+)$` finds in a line. */
  function VolumeOf(line: string): Option<string> {
    if VOLUME_MARK < line then Some(line[|VOLUME_MARK|..]) else None
  }

  function Volumes(lines: Content): (r: seq<string>)
    ensures forall v :: v in r <==> exists i :: 0 <= i < |lines| && VolumeOf(lines[i]) == Some(v)
  {
    if lines == [] then []
    else
      var last := VolumeOf(lines[|lines| - 1]);
      Volumes(lines[..|lines| - 1]) + if last.Some? then [last.value] else []
  }

  // ---------- The bases of some volumes ----------

  function HostPath(volume: string): string {
    Split(volume, ':')[0]
  }

  /** The configuration directories of the volumes under the prefix, as they are first met. */
  function Bases(prefix: string, volumes: seq<string>): Result<seq<string>, Error>
    ensures Bases(prefix, volumes).Success? ==> NoDup(Bases(prefix, volumes).value)
  {
    if volumes == [] then
      Success([])
    else
      var front :- Bases(prefix, volumes[..|volumes| - 1]);
      var path := HostPath(volumes[|volumes| - 1]);
      if !(prefix <= path) then Success(front)
      else
        var base :- BaseFrom(prefix, path);
        Success(if base in front then front else front + [base])
  }

  const STRING_LE: (string, string) -> bool := (s, t) => LexLe(CHAR_LT, s, t)

  /** `sorted(config_bases)` for the set of the bases. */
  function SortedBases(prefix: string, volumes: seq<string>): Result<seq<string>, Error>
  {
    var bases :- Bases(prefix, volumes);
    Success(Sorting.Sort(STRING_LE, bases))
  }

  function Checksums(checksum: string -> string, bases: seq<string>): (r: seq<string>)
    ensures |r| == |bases|
  {
    if bases == [] then [] else Checksums(checksum, bases[..|bases| - 1]) + [checksum(bases[|bases| - 1])]
  }

  /** The hash for the volumes of a file; the checksum of a directory is an oracle. */
  function NewHash(prefix: string, checksum: string -> string, volumes: seq<string>): Result<string, Error>
  {
    var bases :- SortedBases(prefix, volumes);
    Success(if bases == [] then "" else Joined(Checksums(checksum, bases), "-"))
  }

  function InjectLine(line: string, hash: string): string {
    if IsHashLine(line) then HASH_MARK + hash else line
  }

  function Inject(lines: Content, hash: string): (r: Content)
    ensures |r| == |lines| && forall i :: 0 <= i < |lines| ==> r[i] == InjectLine(lines[i], hash)
  {
    seq(|lines|, i requires 0 <= i < |lines| => InjectLine(lines[i], hash))
  }

  predicate HasPlaceholder(lines: Content) {
    exists i :: 0 <= i < |lines| && IsHashLine(lines[i])
  }

  /** One file: the new content and the hash. */
  function ProcessFile(prefix: string, checksum: string -> string, lines: Content): Result<(Content, string), Error>
  {
    if !HasPlaceholder(lines) then Failure(NoPlaceholder)
    else
      var hash :- NewHash(prefix, checksum, Volumes(lines));
      Success((Inject(lines, hash), hash))
  }

  // ---------- Order and repetition of volumes ----------

  ghost predicate SameSet<T(!new)>(s: seq<T>, t: seq<T>) {
    forall x :: x in s <==> x in t
  }

  /**
    A base is met when some volume under the prefix has it; the search fails when it fails for one
    of them, and which failure it is depends on the prefix alone.
   */
  lemma {:induction false} BasesExact(prefix: string, volumes: seq<string>)
    ensures Bases(prefix, volumes).Failure? <==>
            exists v :: v in volumes && prefix <= HostPath(v) && BaseFrom(prefix, HostPath(v)).Failure?
    ensures Bases(prefix, volumes).Failure? ==> Bases(prefix, volumes).error == SearchError(prefix)
    ensures Bases(prefix, volumes).Success? ==> forall b :: b in Bases(prefix, volumes).value <==>
            exists v :: v in volumes && prefix <= HostPath(v) && BaseFrom(prefix, HostPath(v)) == Success(b)
  {
    if volumes != [] {
      var front, last := volumes[..|volumes| - 1], volumes[|volumes| - 1];
      assert volumes == front + [last];
      BasesExact(prefix, front);
      ErrorOfSearch(prefix, HostPath(last));
    }
  }

  function SearchError(prefix: string): Error {
    if HasName(prefix) then NoBase else Endless
  }

  lemma ErrorOfSearch(prefix: string, path: string)
    ensures prefix <= path && BaseFrom(prefix, path).Failure? ==> BaseFrom(prefix, path).error == SearchError(prefix)
  {
    if HasName(prefix) {
      NamedError(prefix, path);
    } else if prefix <= path {
      NamelessFinds(prefix, path);
    }
  }

  lemma {:induction false} NamedError(prefix: string, path: string)
    requires HasName(prefix)
    ensures BaseFrom(prefix, path).Failure? ==> BaseFrom(prefix, path).error == NoBase
    decreases |path|
  {
    if !Stops(prefix, path) {
      UpwardIsShorter(prefix, path);
      NamedError(prefix, Dirname(path));
    }
  }

  lemma CharOrder()
    ensures StrictTotal(CHAR_LT)
  {}

  lemma StringOrder()
    ensures Sorting.TotalPreorder(STRING_LE)
    ensures forall s, t :: STRING_LE(s, t) && STRING_LE(t, s) ==> s == t
  {
    CharOrder();
    forall s, t ensures STRING_LE(s, t) || STRING_LE(t, s) {
      LexTotal(CHAR_LT, s, t);
    }
    forall s, t, u | STRING_LE(s, t) && STRING_LE(t, u) ensures STRING_LE(s, u) {
      LexTransitive(CHAR_LT, s, t, u);
    }
    forall s, t | STRING_LE(s, t) && STRING_LE(t, s) ensures s == t {
      LexAntisymmetric(CHAR_LT, s, t);
    }
  }

  /** Two lists of the same distinct texts sort alike. */
  lemma SortDependsOnSet(s: seq<string>, t: seq<string>)
    requires NoDup(s) && NoDup(t) && SameSet(s, t)
    ensures Sorting.Sort(STRING_LE, s) == Sorting.Sort(STRING_LE, t)
  {
    StringOrder();
    SameElements(s, t);
    Sorting.SortIgnoresOrder(STRING_LE, s, t);
  }

  /** Reordering or repeating volumes changes neither the bases, nor the hash, nor whether there is one. */
  lemma HashDependsOnVolumeSet(prefix: string, checksum: string -> string, s: seq<string>, t: seq<string>)
    requires SameSet(s, t)
    ensures SortedBases(prefix, s) == SortedBases(prefix, t)
    ensures NewHash(prefix, checksum, s) == NewHash(prefix, checksum, t)
  {
    BasesExact(prefix, s);
    BasesExact(prefix, t);
    if Bases(prefix, s).Success? {
      SortDependsOnSet(Bases(prefix, s).value, Bases(prefix, t).value);
    }
  }

  lemma {:induction false} VolumesOfLines(lines: Content, other: Content)
    requires forall line :: VolumeOf(line).Some? ==> (line in lines ==> line in other)
    ensures forall v :: v in Volumes(lines) ==> v in Volumes(other)
  {
    forall v | v in Volumes(lines) ensures v in Volumes(other) {
      var i :| 0 <= i < |lines| && VolumeOf(lines[i]) == Some(v);
      assert lines[i] in lines;
      var j :| 0 <= j < |other| && other[j] == lines[i];
    }
  }

  /** Two files with the same set of `Volume=` lines get the same hash, or fail alike. */
  lemma HashDependsOnVolumeLines(prefix: string, checksum: string -> string, a: Content, b: Content)
    requires HasPlaceholder(a) && HasPlaceholder(b)
    requires forall line :: VolumeOf(line).Some? ==> (line in a <==> line in b)
    ensures var r, q := ProcessFile(prefix, checksum, a), ProcessFile(prefix, checksum, b);
            if r.Success? then q.Success? && q.value.1 == r.value.1 else q == Failure(r.error)
  {
    VolumesOfLines(a, b);
    VolumesOfLines(b, a);
    HashDependsOnVolumeSet(prefix, checksum, Volumes(a), Volumes(b));
  }

  // ---------- Injection ----------

  lemma InjectLineKeeps(line: string, hash: string)
    ensures IsHashLine(InjectLine(line, hash)) == IsHashLine(line)
    ensures VolumeOf(InjectLine(line, hash)) == VolumeOf(line)
    ensures InjectLine(InjectLine(line, hash), hash) == InjectLine(line, hash)
  {
    if IsHashLine(line) {
      assert HASH_MARK[0] == '#' && VOLUME_MARK[0] == 'V';
      assert (HASH_MARK + hash)[0] == '#' && line[0] == '#';
    }
  }

  lemma {:induction false} InjectKeepsVolumes(lines: Content, hash: string)
    ensures Volumes(Inject(lines, hash)) == Volumes(lines)
  {
    if lines != [] {
      var last := |lines| - 1;
      assert Inject(lines, hash)[..last] == Inject(lines[..last], hash);
      InjectKeepsVolumes(lines[..last], hash);
      InjectLineKeeps(lines[last], hash);
    }
  }

  lemma InjectAgain(lines: Content, hash: string)
    ensures Inject(Inject(lines, hash), hash) == Inject(lines, hash)
    ensures HasPlaceholder(lines) ==> HasPlaceholder(Inject(lines, hash))
  {
    var content := Inject(lines, hash);
    forall i | 0 <= i < |lines|
      ensures InjectLine(content[i], hash) == content[i] && IsHashLine(content[i]) == IsHashLine(lines[i])
    {
      InjectLineKeeps(lines[i], hash);
    }
    assert Inject(content, hash) == content;
    if k :| 0 <= k < |lines| && IsHashLine(lines[k]) {
      assert IsHashLine(content[k]);
    }
  }

  /** Processing a file changes its hash lines only, and processing the result changes nothing and gives the same hash. */
  lemma ProcessingIsIdempotent(prefix: string, checksum: string -> string, lines: Content)
    requires ProcessFile(prefix, checksum, lines).Success?
    ensures var (content, hash) := ProcessFile(prefix, checksum, lines).value;
            && |content| == |lines|
            && (forall i :: 0 <= i < |lines| ==>
                 content[i] == lines[i] || (IsHashLine(lines[i]) && content[i] == HASH_MARK + hash))
            && ProcessFile(prefix, checksum, content) == ProcessFile(prefix, checksum, lines)
  {
    var hash := ProcessFile(prefix, checksum, lines).value.1;
    InjectKeepsVolumes(lines, hash);
    InjectAgain(lines, hash);
  }

  // ---------- The staging directory ----------

  function PathOf(name: string): string {
    "edpm_" + name + ".container"
  }

  /** What a run leaves: the files, the hashes by name, and the error that stopped it, if any. */
  datatype Outcome = Outcome(files: map<string, Content>, hashes: map<string, string>, error: Option<Error>)

  /** What is done to one file's content. */
  type Processor = Content -> Result<(Content, string), Error>

  function ProcessorOf(prefix: string, checksum: string -> string): Processor
  {
    lines => ProcessFile(prefix, checksum, lines)
  }

  function UpdateOne(process: Processor, o: Outcome, name: string): Outcome {
    var path := PathOf(name);
    if o.error.Some? then o
    else if path !in o.files then o.(error := Some(FileNotFound))
    else
      var r := process(o.files[path]);
      if r.Failure? then o.(error := Some(r.error))
      else Outcome(o.files[path := r.value.0], o.hashes[name := r.value.1], None)
  }

  /** _update_hash_from_quadlet, over the named files one after the other. */
  function UpdateAll(process: Processor, files: map<string, Content>, names: seq<string>): Outcome {
    if names == [] then Outcome(files, map[], None)
    else UpdateOne(process, UpdateAll(process, files, names[..|names| - 1]), names[|names| - 1])
  }

  /** Processing what processing left changes nothing. */
  ghost predicate Idempotent(process: Processor) {
    forall c :: process(c).Success? ==> process(process(c).value.0) == process(c)
  }

  lemma ProcessorIsIdempotent(prefix: string, checksum: string -> string)
    ensures Idempotent(ProcessorOf(prefix, checksum))
  {
    forall c | ProcessorOf(prefix, checksum)(c).Success?
      ensures ProcessorOf(prefix, checksum)(ProcessorOf(prefix, checksum)(c).value.0) == ProcessorOf(prefix, checksum)(c)
    {
      ProcessingIsIdempotent(prefix, checksum, c);
    }
  }

  lemma PathInjective(a: string, b: string)
    requires PathOf(a) == PathOf(b)
    ensures a == b
  {
    assert |a| == |b|;
    assert PathOf(a)[5..5 + |a|] == a && PathOf(b)[5..5 + |b|] == b;
  }

  /** The file of this name is processed once from what it was, and its hash reported. */
  ghost predicate Updated(process: Processor, files: map<string, Content>, o: Outcome, name: string) {
    && PathOf(name) in files && PathOf(name) in o.files && name in o.hashes
    && process(files[PathOf(name)]) == Success((o.files[PathOf(name)], o.hashes[name]))
  }

  /** The hash of exactly each name is reported, and each named file was processed once. */
  ghost predicate AllUpdated(process: Processor, files: map<string, Content>, o: Outcome, names: seq<string>) {
    && (forall n :: n in o.hashes <==> n in names)
    && (forall n :: n in names ==> Updated(process, files, o, n))
  }

  /** No other file was touched. */
  ghost predicate OthersKept(files: map<string, Content>, now: map<string, Content>, names: seq<string>) {
    && now.Keys == files.Keys
    && (forall p :: p in files && (forall n :: n in names ==> p != PathOf(n)) ==> now[p] == files[p])
  }

  lemma OthersKeptStep(files: map<string, Content>, now: map<string, Content>, names: seq<string>, last: string, c: Content)
    requires OthersKept(files, now, names) && PathOf(last) in now
    ensures OthersKept(files, now[PathOf(last) := c], names + [last])
  {
    assert last in names + [last];
    assert forall n :: n in names ==> n in names + [last];
  }

  lemma AllUpdatedStep(process: Processor, files: map<string, Content>, before: Outcome, names: seq<string>, last: string)
    requires Idempotent(process) && AllUpdated(process, files, before, names) && OthersKept(files, before.files, names)
    requires before.error.None? && UpdateOne(process, before, last).error.None?
    ensures AllUpdated(process, files, UpdateOne(process, before, last), names + [last])
  {
    var now := UpdateOne(process, before, last);
    forall n | n in names && n != last ensures PathOf(n) != PathOf(last) {
      if PathOf(n) == PathOf(last) {
        PathInjective(n, last);
      }
    }
    if last !in names {
      assert before.files[PathOf(last)] == files[PathOf(last)];
    } else {
      assert Updated(process, files, before, last);
    }
    assert Updated(process, files, now, last);
    forall n | n in names && n != last ensures Updated(process, files, now, n) {
      assert Updated(process, files, before, n);
    }
  }

  /**
    A run without an error leaves every named file processed once from what it was, however often it
    is named, reports its hash, and touches no other file.
   */
  lemma {:induction false} UpdateExact(process: Processor, files: map<string, Content>, names: seq<string>)
    requires Idempotent(process) && UpdateAll(process, files, names).error.None?
    ensures var o := UpdateAll(process, files, names);
            AllUpdated(process, files, o, names) && OthersKept(files, o.files, names)
  {
    if names != [] {
      var front, last := names[..|names| - 1], names[|names| - 1];
      var before := UpdateAll(process, files, front);
      assert names == front + [last];
      UpdateExact(process, files, front);
      AllUpdatedStep(process, files, before, front, last);
      OthersKeptStep(files, before.files, front, last, process(before.files[PathOf(last)]).value.0);
    }
  }

  /** A further run over the same names succeeds, rewrites no file and reports the same hashes. */
  lemma UpdateIsIdempotent(process: Processor, files: map<string, Content>, names: seq<string>)
    requires Idempotent(process) && UpdateAll(process, files, names).error.None?
    ensures var o := UpdateAll(process, files, names);
            UpdateAll(process, o.files, names) == o
  {
    var o := UpdateAll(process, files, names);
    UpdateExact(process, files, names);
    forall n | n in names ensures n in o.hashes && Settled(process, o.files, n, o.hashes[n]) {
      assert Updated(process, files, o, n);
    }
    SettledFilesStay(process, o.files, names, o.hashes);
    UpdateExact(process, o.files, names);
    assert UpdateAll(process, o.files, names).hashes == o.hashes;
  }

  /** Processing the file changes nothing and gives this hash. */
  ghost predicate Settled(process: Processor, files: map<string, Content>, name: string, hash: string) {
    PathOf(name) in files && process(files[PathOf(name)]) == Success((files[PathOf(name)], hash))
  }

  lemma {:induction false} SettledFilesStay(process: Processor, files: map<string, Content>,
                                            names: seq<string>, hashes: map<string, string>)
    requires forall n :: n in names ==> n in hashes && Settled(process, files, n, hashes[n])
    ensures var o := UpdateAll(process, files, names);
            o.error.None? && o.files == files && (forall n :: n in o.hashes ==> n in hashes && o.hashes[n] == hashes[n])
  {
    if names != [] {
      var front, last := names[..|names| - 1], names[|names| - 1];
      assert names == front + [last];
      SettledFilesStay(process, files, front, hashes);
      assert Settled(process, files, last, hashes[last]);
      assert files[PathOf(last) := files[PathOf(last)]] == files;
    }
  }

  // ---------- The program ----------

  /** `sorted(s)` for a set of texts: built by insertion from its elements in any order. */
  method SortedSet(s: set<string>) returns (r: seq<string>)
    ensures NoDup(r) && (forall x :: x in r <==> x in s)
    ensures r == Sorting.Sort(STRING_LE, r)
  {
    var todo, listed: seq<string> := s, [];
    while todo != {}
      invariant todo <= s && NoDup(listed) && forall x :: x in listed <==> x in s - todo
      decreases todo
    {
      var x :| x in todo;
      assert x !in listed;
      listed := listed + [x];
      todo := todo - {x};
    }
    r := Sorting.Sort(STRING_LE, listed);
    StringOrder();
    Sorting.SortCorrect(STRING_LE, listed);
    Sorting.SameMembers(listed, r);
    PermutationNoDup(listed, r);
    SortDependsOnSet(listed, r);
  }

  /** One turn of the loop over the volumes. */
  lemma BasesStep(prefix: string, volumes: seq<string>, i: nat)
    requires i < |volumes| && Bases(prefix, volumes[..i]).Success?
    ensures var front, path := Bases(prefix, volumes[..i]).value, HostPath(volumes[i]);
            var now := Bases(prefix, volumes[..i + 1]);
            if !(prefix <= path) then now == Success(front)
            else if BaseFrom(prefix, path).Failure? then now == Failure(BaseFrom(prefix, path).error)
            else now.Success? && forall b :: b in now.value <==> b in front || b == BaseFrom(prefix, path).value
  {
    PrefixStep(volumes, i);
  }

  lemma {:induction false} BasesFail(prefix: string, volumes: seq<string>, i: nat)
    requires i <= |volumes| && Bases(prefix, volumes[..i]).Failure?
    ensures Bases(prefix, volumes) == Bases(prefix, volumes[..i])
    decreases |volumes|
  {
    if i == |volumes| {
      assert volumes[..i] == volumes;
    } else {
      var front := volumes[..|volumes| - 1];
      assert front[..i] == volumes[..i];
      BasesFail(prefix, front, i);
    }
  }

  lemma SearchHereEnds(prefix: string, volumes: seq<string>, i: nat)
    requires i < |volumes| && Bases(prefix, volumes[..i]).Success? && Bases(prefix, volumes) != Failure(Endless)
    ensures !Stuck(prefix, HostPath(volumes[i]))
  {
    if Stuck(prefix, HostPath(volumes[i])) {
      BasesStep(prefix, volumes, i);
      BasesFail(prefix, volumes, i + 1);
    }
  }

  /** Lines 163-168 and 315-320: the bases as a set, then sorted; for volumes on which every search ends. */
  method MatchConfigVolumes(prefix: string, volumes: seq<string>) returns (r: Result<seq<string>, Error>)
    requires Bases(prefix, volumes) != Failure(Endless)
    ensures r == SortedBases(prefix, volumes)
  {
    var matched: set<string> := {};
    for i := 0 to |volumes|
      invariant Bases(prefix, volumes[..i]).Success?
      invariant forall b :: b in matched <==> b in Bases(prefix, volumes[..i]).value
    {
      BasesStep(prefix, volumes, i);
      var hostPath := HostPath(volumes[i]);
      if prefix <= hostPath {
        SearchHereEnds(prefix, volumes, i);
        var base := GetConfigBase(prefix, hostPath);
        if base.Failure? {
          BasesFail(prefix, volumes, i + 1);
          return Failure(base.error);
        }
        matched := matched + {base.value};
      }
    }
    assert volumes[..|volumes|] == volumes;
    var sorted := SortedSet(matched);
    SortDependsOnSet(sorted, Bases(prefix, volumes).value);
    r := Success(sorted);
  }

  /** The staged files, rewritten in place, and the results of the module. */
  class Staging {
    var files: map<string, Content>
    var hashes: map<string, string>

    constructor (files: map<string, Content>)
      ensures this.files == files && hashes == map[]
    {
      this.files, hashes := files, map[];
    }

    /** Lines 143-188 for one name. */
    method UpdateFile(ghost process: Processor, prefix: string, checksum: string -> string, name: string,
                      reported: map<string, string>)
        returns (error: Option<Error>, now: map<string, string>)
      requires process == ProcessorOf(prefix, checksum)
      requires UpdateOne(process, Outcome(files, reported, None), name).error != Some(Endless)
      modifies this
      ensures Outcome(files, now, error) == UpdateOne(process, Outcome(old(files), reported, None), name)
      ensures hashes == old(hashes)
    {
      var path := PathOf(name);
      if path !in files {
        return Some(FileNotFound), reported;
      }
      var r := HashContentBy(process, prefix, checksum, files[path]);
      if r.Failure? {
        return Some(r.error), reported;
      }
      files := files[path := r.value.0];
      error, now := None, reported[name := r.value.1];
    }

    /** _update_hash_from_quadlet, where the run does not come to a search without end. */
    method UpdateHashFromQuadlet(prefix: string, checksum: string -> string, containers: seq<string>)
        returns (error: Option<Error>)
      requires UpdateAll(ProcessorOf(prefix, checksum), files, containers).error != Some(Endless)
      modifies this
      ensures var o := UpdateAll(ProcessorOf(prefix, checksum), old(files), containers);
              files == o.files && error == o.error && hashes == if error.None? then o.hashes else old(hashes)
    {
      var reported: map<string, string> := map[];
      ghost var was, process := files, ProcessorOf(prefix, checksum);
      for i := 0 to |containers|
        invariant UpdateAll(process, was, containers[..i]) == Outcome(files, reported, None)
        invariant hashes == old(hashes)
      {
        UpdateStep(process, was, containers, i);
        var e, now := UpdateFile(process, prefix, checksum, containers[i], reported);
        if e.Some? {
          return e;
        }
        reported := now;
      }
      assert containers[..|containers|] == containers;
      hashes := reported;
      error := None;
    }
  }

  lemma UpdateStep(process: Processor, files: map<string, Content>, names: seq<string>, i: nat)
    requires i < |names|
    ensures var now := UpdateAll(process, files, names[..i + 1]);
            now == UpdateOne(process, UpdateAll(process, files, names[..i]), names[i])
            && (now.error.Some? ==> UpdateAll(process, files, names) == now)
  {
    PrefixStep(names, i);
    if UpdateAll(process, files, names[..i + 1]).error.Some? {
      ErrorStays(process, files, names, i + 1);
    }
  }

  /** A run comes to a search without end only with a prefix that is empty or slashes only. */
  lemma {:induction false} EndlessRunIsNameless(prefix: string, checksum: string -> string,
                                                files: map<string, Content>, names: seq<string>)
    requires UpdateAll(ProcessorOf(prefix, checksum), files, names).error == Some(Endless)
    ensures !HasName(prefix)
  {
    var process, front := ProcessorOf(prefix, checksum), names[..|names| - 1];
    var before := UpdateAll(process, files, front);
    if before.error == Some(Endless) {
      EndlessRunIsNameless(prefix, checksum, files, front);
    } else {
      BasesExact(prefix, Volumes(before.files[PathOf(names[|names| - 1])]));
    }
  }

  /** The same, told of the processor only. */
  method HashContentBy(ghost process: Processor, prefix: string, checksum: string -> string, content: Content)
      returns (r: Result<(Content, string), Error>)
    requires process == ProcessorOf(prefix, checksum) && process(content) != Failure(Endless)
    ensures r == process(content)
  {
    r := HashContent(prefix, checksum, content);
  }

  /** Lines 153-183 on the content of one file. */
  method HashContent(prefix: string, checksum: string -> string, content: Content)
      returns (r: Result<(Content, string), Error>)
    requires ProcessFile(prefix, checksum, content) != Failure(Endless)
    ensures r == ProcessFile(prefix, checksum, content)
  {
    if !HasPlaceholder(content) {
      return Failure(NoPlaceholder);
    }
    var bases :- MatchConfigVolumes(prefix, Volumes(content));
    var newHash := if bases == [] then "" else Joined(Checksums(checksum, bases), "-");
    r := Success((Inject(content, newHash), newHash));
  }

  lemma {:induction false} ErrorStays(process: Processor, files: map<string, Content>, names: seq<string>, i: nat)
    requires i <= |names| && UpdateAll(process, files, names[..i]).error.Some?
    ensures UpdateAll(process, files, names) == UpdateAll(process, files, names[..i])
  {
    if i == |names| {
      assert names[..i] == names;
    } else {
      var front := names[..|names| - 1];
      assert front[..i] == names[..i];
      ErrorStays(process, files, front, i);
    }
  }
}
