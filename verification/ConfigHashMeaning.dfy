/** What an injected hash says: the checksum of every configuration directory that the file mounts. */
module ConfigHashMeaning {
  import opened Wrappers
  import opened Strings
  import opened Sequences
  import opened ConfigBase
  import opened ConfigHash
  import opened NaturalOrder
  import Sorting

  // ---------- Reading the hash ----------

  lemma {:induction false} ChecksumAt(checksum: string -> string, bases: seq<string>)
    ensures forall i :: 0 <= i < |bases| ==> Checksums(checksum, bases)[i] == checksum(bases[i])
  {
    if bases != [] {
      ChecksumAt(checksum, bases[..|bases| - 1]);
    }
  }

  /** What checksums look like: some text without a dash, as hexadecimal digits are. */
  ghost predicate PlainChecksum(checksum: string -> string) {
    forall path :: checksum(path) != "" && '-' !in checksum(path)
  }

  /** The hash is empty for no directory, and otherwise its parts between dashes are their checksums, in order. */
  ghost predicate HashOf(hash: string, checksum: string -> string, bases: seq<string>) {
    && (hash == "" <==> bases == [])
    && (bases != [] ==>
         && |Split(hash, '-')| == |bases|
         && forall i :: 0 <= i < |bases| ==> Split(hash, '-')[i] == checksum(bases[i]))
  }

  lemma JoinedIsHash(checksum: string -> string, bases: seq<string>)
    requires PlainChecksum(checksum) && bases != []
    ensures HashOf(Joined(Checksums(checksum, bases), "-"), checksum, bases)
  {
    var parts := Checksums(checksum, bases);
    ChecksumAt(checksum, bases);
    SplitJoined(parts, '-');
    SplitWithout("", '-');
    assert parts[0] == checksum(bases[0]) && parts[0] != "";
  }

  // ---------- The order of directories ----------

  /** The order of texts: by the first character that differs, a shorter text before a longer one. */
  ghost predicate TextBefore(s: string, t: string) {
    s != t && (s <= t || exists k :: 0 <= k < |s| && k < |t| && s[..k] == t[..k] && s[k] < t[k])
  }

  lemma {:induction false} OrderOfTexts(s: string, t: string)
    requires LexLe(CHAR_LT, s, t) && s != t
    ensures TextBefore(s, t)
  {
    if s != [] && s[0] == t[0] {
      OrderOfTexts(s[1..], t[1..]);
      assert s == [s[0]] + s[1..] && t == [t[0]] + t[1..];
      if !(s[1..] <= t[1..]) {
        var k :| 0 <= k < |s[1..]| && k < |t[1..]| && s[1..][..k] == t[1..][..k] && s[1..][k] < t[1..][k];
        assert s[..k + 1] == [s[0]] + s[1..][..k] && t[..k + 1] == [t[0]] + t[1..][..k];
      }
    } else if s != [] {
      assert s[..0] == t[..0];
    }
  }

  ghost predicate Ascending(s: seq<string>) {
    forall i, j :: 0 <= i < j < |s| ==> TextBefore(s[i], s[j])
  }

  lemma SortedAscends(s: seq<string>)
    requires NoDup(s)
    ensures var r := Sorting.Sort(STRING_LE, s);
            Ascending(r) && NoDup(r) && (forall x :: x in r <==> x in s) && (r == [] <==> s == [])
  {
    var r := Sorting.Sort(STRING_LE, s);
    StringOrder();
    Sorting.SortCorrect(STRING_LE, s);
    Sorting.SameMembers(s, r);
    PermutationNoDup(s, r);
    HasMember(s);
    HasMember(r);
    forall i, j | 0 <= i < j < |r| ensures TextBefore(r[i], r[j]) {
      assert STRING_LE(r[i], r[j]) && r[i] != r[j];
      OrderOfTexts(r[i], r[j]);
    }
  }

  // ---------- The hash of a file ----------

  /** The line mounts this path of the host. */
  ghost predicate Mounts(line: string, path: string) {
    && ':' !in path
    && (line == "Volume=" + path || exists rest :: line == "Volume=" + path + ":" + rest)
    && line != "Volume="
  }

  lemma MountedVolume(path: string, rest: string)
    requires ':' !in path
    ensures HostPath(path) == path && HostPath(path + ":" + rest) == path
  {
    SplitAt(path, ':', rest);
    SplitWithout(path, ':');
    assert path + ":" + rest == path + [':'] + rest;
  }

  lemma VolumeLine(v: string)
    requires v != ""
    ensures VolumeOf("Volume=" + v) == Some(v)
  {
    assert ("Volume=" + v)[|VOLUME_MARK|..] == v;
  }

  lemma MountsIsVolume(line: string, path: string)
    requires Mounts(line, path)
    ensures VolumeOf(line).Some? && HostPath(VolumeOf(line).value) == path
  {
    if line == "Volume=" + path {
      VolumeLine(path);
      MountedVolume(path, "");
    } else {
      var rest :| line == "Volume=" + path + ":" + rest;
      assert line == "Volume=" + (path + ":" + rest);
      VolumeLine(path + ":" + rest);
      MountedVolume(path, rest);
    }
  }

  lemma VolumeIsMounted(line: string)
    requires VolumeOf(line).Some?
    ensures Mounts(line, HostPath(VolumeOf(line).value))
  {
    var v := VolumeOf(line).value;
    var path := HostPath(v);
    assert line == "Volume=" + v;
    HostPathSplits(v);
    if v != path {
      var rest :| v == path + ":" + rest;
      assert line == "Volume=" + path + ":" + rest;
    }
  }

  lemma MountsIff(line: string, path: string)
    ensures Mounts(line, path) <==> VolumeOf(line).Some? && HostPath(VolumeOf(line).value) == path
  {
    if Mounts(line, path) {
      MountsIsVolume(line, path);
    }
    if VolumeOf(line).Some? {
      VolumeIsMounted(line);
    }
  }

  /** A volume is its path, or its path and more behind a colon. */
  lemma {:induction false} HostPathSplits(v: string)
    ensures ':' !in HostPath(v) && (v == HostPath(v) || exists rest :: v == HostPath(v) + ":" + rest)
  {
    if v != [] {
      if v[0] == ':' {
        assert v == HostPath(v) + ":" + v[1..];
      } else {
        HostPathSplits(v[1..]);
        assert v == [v[0]] + v[1..];
        if v[1..] != HostPath(v[1..]) {
          var rest :| v[1..] == HostPath(v[1..]) + ":" + rest;
          assert v == HostPath(v) + ":" + rest;
        }
      }
    }
  }

  /** The directory is found for some path under the prefix that some line mounts. */
  ghost predicate FoundFor(prefix: string, lines: Content, base: string) {
    exists i, path :: 0 <= i < |lines| && Mounts(lines[i], path) && prefix <= path && BaseFrom(prefix, path) == Success(base)
  }

  lemma FoundIff(prefix: string, lines: Content, base: string)
    ensures FoundFor(prefix, lines, base) <==>
            exists v :: v in Volumes(lines) && prefix <= HostPath(v) && BaseFrom(prefix, HostPath(v)) == Success(base)
  {
    if i, path :| 0 <= i < |lines| && Mounts(lines[i], path) && prefix <= path && BaseFrom(prefix, path) == Success(base) {
      MountsIff(lines[i], path);
      assert VolumeOf(lines[i]).value in Volumes(lines);
    }
    if v :| v in Volumes(lines) && prefix <= HostPath(v) && BaseFrom(prefix, HostPath(v)) == Success(base) {
      var i :| 0 <= i < |lines| && VolumeOf(lines[i]) == Some(v);
      MountsIff(lines[i], HostPath(v));
    }
  }

  /**
    The hash of a file: for the directories found for what the file mounts, each once and in ascending
    order, it holds their checksums; it is written behind the mark in every line that begins with it, and
    the other lines are kept.
   */
  lemma HashOfFile(prefix: string, checksum: string -> string, lines: Content) returns (bases: seq<string>)
    requires PlainChecksum(checksum) && ProcessFile(prefix, checksum, lines).Success?
    ensures NoDup(bases) && Ascending(bases) && forall b :: b in bases <==> FoundFor(prefix, lines, b)
    ensures var (content, hash) := ProcessFile(prefix, checksum, lines).value;
            && HashOf(hash, checksum, bases)
            && |content| == |lines|
            && (forall i :: 0 <= i < |lines| ==>
                 content[i] == if "# config_hash=" <= lines[i] then "# config_hash=" + hash else lines[i])
  {
    bases := SortedBases(prefix, Volumes(lines)).value;
    FileBases(prefix, lines);
    if bases != [] {
      JoinedIsHash(checksum, bases);
    }
  }

  lemma FileBases(prefix: string, lines: Content)
    requires SortedBases(prefix, Volumes(lines)).Success?
    ensures var bases := SortedBases(prefix, Volumes(lines)).value;
            NoDup(bases) && Ascending(bases) && forall b :: b in bases <==> FoundFor(prefix, lines, b)
  {
    var found := Bases(prefix, Volumes(lines)).value;
    BasesExact(prefix, Volumes(lines));
    SortedAscends(found);
    forall b ensures b in found <==> FoundFor(prefix, lines, b) {
      FoundIff(prefix, lines, b);
    }
  }

  /** The search fails for some path under the prefix that some line mounts. */
  ghost predicate FailsFor(prefix: string, lines: Content) {
    exists i, path :: 0 <= i < |lines| && Mounts(lines[i], path) && prefix <= path && BaseFrom(prefix, path).Failure?
  }

  lemma FailsIff(prefix: string, lines: Content)
    ensures FailsFor(prefix, lines) <==>
            exists v :: v in Volumes(lines) && prefix <= HostPath(v) && BaseFrom(prefix, HostPath(v)).Failure?
  {
    if i, path :| 0 <= i < |lines| && Mounts(lines[i], path) && prefix <= path && BaseFrom(prefix, path).Failure? {
      MountsIff(lines[i], path);
      assert VolumeOf(lines[i]).value in Volumes(lines);
    }
    if v :| v in Volumes(lines) && prefix <= HostPath(v) && BaseFrom(prefix, HostPath(v)).Failure? {
      var i :| 0 <= i < |lines| && VolumeOf(lines[i]) == Some(v);
      MountsIff(lines[i], HostPath(v));
    }
  }

  /** A file is processed unless no line begins with the mark, or the search fails for a path that it mounts. */
  lemma ProcessedIff(prefix: string, checksum: string -> string, lines: Content)
    ensures ProcessFile(prefix, checksum, lines).Success? <==>
            (exists i :: 0 <= i < |lines| && "# config_hash=" <= lines[i]) && !FailsFor(prefix, lines)
  {
    BasesExact(prefix, Volumes(lines));
    FailsIff(prefix, lines);
    assert HasPlaceholder(lines) <==> exists i :: 0 <= i < |lines| && "# config_hash=" <= lines[i];
  }

  // ---------- When the hash changes ----------

  lemma SamePartsSameHash(h1: string, h2: string, k1: string -> string, k2: string -> string, bases: seq<string>)
    requires HashOf(h1, k1, bases) && HashOf(h2, k2, bases) && h1 == h2
    ensures forall b :: b in bases ==> k1(b) == k2(b)
  {
    forall b | b in bases ensures k1(b) == k2(b) {
      var i :| 0 <= i < |bases| && bases[i] == b;
      assert Split(h1, '-')[i] == k1(bases[i]) && Split(h2, '-')[i] == k2(bases[i]);
    }
  }

  lemma {:induction false} ChecksumsAgree(k1: string -> string, k2: string -> string, bases: seq<string>)
    requires forall b :: b in bases ==> k1(b) == k2(b)
    ensures Checksums(k1, bases) == Checksums(k2, bases)
  {
    if bases != [] {
      assert bases == bases[..|bases| - 1] + [bases[|bases| - 1]];
      ChecksumsAgree(k1, k2, bases[..|bases| - 1]);
    }
  }

  /** The hash of a file changes if and only if the checksum of some directory changes that is found for what it mounts. */
  lemma HashChangesIff(prefix: string, k1: string -> string, k2: string -> string, lines: Content)
    requires PlainChecksum(k1) && PlainChecksum(k2) && ProcessFile(prefix, k1, lines).Success?
    ensures ProcessFile(prefix, k2, lines).Success?
    ensures ProcessFile(prefix, k1, lines).value.1 == ProcessFile(prefix, k2, lines).value.1 <==>
            forall b :: FoundFor(prefix, lines, b) ==> k1(b) == k2(b)
  {
    var bases := SortedBases(prefix, Volumes(lines)).value;
    FileBases(prefix, lines);
    if bases != [] {
      JoinedIsHash(k1, bases);
      JoinedIsHash(k2, bases);
      if ProcessFile(prefix, k1, lines).value.1 == ProcessFile(prefix, k2, lines).value.1 {
        SamePartsSameHash(ProcessFile(prefix, k1, lines).value.1, ProcessFile(prefix, k2, lines).value.1, k1, k2, bases);
      }
    }
    if forall b :: b in bases ==> k1(b) == k2(b) {
      ChecksumsAgree(k1, k2, bases);
    }
  }

  /** After a run without an error, the file of each name holds what processing makes of it; no other file is touched. */
  lemma NamedFiles(prefix: string, checksum: string -> string, files: map<string, Content>, names: seq<string>)
    requires UpdateAll(ProcessorOf(prefix, checksum), files, names).error.None?
    ensures var o := UpdateAll(ProcessorOf(prefix, checksum), files, names);
            && (forall n :: n in names ==>
                 && "edpm_" + n + ".container" in files && "edpm_" + n + ".container" in o.files && n in o.hashes
                 && ProcessFile(prefix, checksum, files["edpm_" + n + ".container"])
                    == Success((o.files["edpm_" + n + ".container"], o.hashes[n])))
            && (forall p :: p in files && (forall n :: n in names ==> p != "edpm_" + n + ".container") ==>
                 p in o.files && o.files[p] == files[p])
  {
    var o := UpdateAll(ProcessorOf(prefix, checksum), files, names);
    ProcessorIsIdempotent(prefix, checksum);
    UpdateExact(ProcessorOf(prefix, checksum), files, names);
    forall n | n in names ensures PathOf(n) == "edpm_" + n + ".container" && Updated(ProcessorOf(prefix, checksum), files, o, n) {}
  }
}
