/** Substituting interface names for NIC aliases in a network state document. */
module NicAliases {
  import opened Wrappers
  import opened Strings

  /** A key of a dictionary: text, or anything else YAML allows. */
  datatype Key = Text(text: string) | OtherKey(id: int)

  datatype Doc =
    | Str(text: string)
    | Scalar(id: int)
    | List(items: seq<Doc>)
    | Dict(entries: seq<Entry>)

  datatype Entry = Entry(key: Key, value: Doc)

  type Mapping = map<string, string>

  function DashChar(c: char): char {
    if c == '_' then '-' else c
  }

  /** _normalize_key */
  function NormalizeKey(key: Key): string {
    if key.OtherKey? then ""
    else
      var lower := Lower(key.text);
      seq(|lower|, i requires 0 <= i < |lower| => DashChar(lower[i]))
  }

  const NIC_NAME_KEYS: set<string> := {
    "name", "device", "interface", "iface", "interface-name", "parent", "controller", "base-iface", "copy-mac-from",
    "peer", "patch", "port", "ports", "next-hop-interface", "next-hop-iface", "vrf-name", "iif"
  }

  /** _is_nic_name_key */
  predicate IsNicNameKey(key: Key) {
    NormalizeKey(key) in NIC_NAME_KEYS
  }

  /** `mapping.get(s, s)` */
  function Get(m: Mapping, s: string): string {
    if s in m then m[s] else s
  }

  // ---------- The reference: one walk that knows whether it is in a name position ----------

  function Rewrite(named: bool, d: Doc, m: Mapping): Doc
    decreases d, 0
  {
    match d
    case Str(s) => if named then Str(Get(m, s)) else d
    case Scalar(_) => d
    case List(items) => List(RewriteItems(named, items, m))
    case Dict(entries) => Dict(RewriteEntries(entries, m))
  }

  function RewriteItems(named: bool, items: seq<Doc>, m: Mapping): (r: seq<Doc>)
    ensures |r| == |items|
    decreases items
  {
    if items == [] then [] else [Rewrite(named, items[0], m)] + RewriteItems(named, items[1..], m)
  }

  function RewriteEntries(entries: seq<Entry>, m: Mapping): (r: seq<Entry>)
    ensures |r| == |entries|
    decreases entries
  {
    if entries == [] then []
    else
      assert entries decreases to entries[0];
      [Entry(entries[0].key, Rewrite(IsNicNameKey(entries[0].key), entries[0].value, m))] + RewriteEntries(entries[1..], m)
  }

  /** edpm_substitute_nic_aliases */
  function Substitute(d: Doc, m: Mapping): Doc {
    if m == map[] || !(d.Dict? || d.List?) then d else Rewrite(false, d, m)
  }

  // ---------- The program: three mutually recursive walkers ----------

  lemma {:induction false} ItemsAt(named: bool, items: seq<Doc>, m: Mapping, i: nat)
    requires i < |items|
    ensures RewriteItems(named, items, m)[i] == Rewrite(named, items[i], m)
  {
    if i > 0 {
      ItemsAt(named, items[1..], m, i - 1);
    }
  }

  lemma {:induction false} EntriesAt(entries: seq<Entry>, m: Mapping, i: nat)
    requires i < |entries|
    ensures RewriteEntries(entries, m)[i] == Entry(entries[i].key, Rewrite(IsNicNameKey(entries[i].key), entries[i].value, m))
  {
    if i > 0 {
      EntriesAt(entries[1..], m, i - 1);
    }
  }

  /** _subst_value */
  method SubstValue(key: Key, value: Doc, mapping: Mapping) returns (r: Doc)
    ensures r == Rewrite(IsNicNameKey(key), value, mapping)
    decreases value, 1
  {
    if !IsNicNameKey(key) {
      match value {
        case Dict(entries) => r := WalkDict(value, mapping);
        case List(items) => r := WalkItems(items, mapping);
        case _ => r := value;
      }
      return;
    }
    match value {
      case Str(s) => r := Str(Get(mapping, s));
      case Scalar(_) => r := value;
      case Dict(_) => r := WalkDict(value, mapping);
      case List(items) =>
        var out: seq<Doc> := [];
        for i := 0 to |items|
          invariant |out| == i
          invariant forall j :: 0 <= j < i ==> out[j] == Rewrite(true, items[j], mapping)
        {
          var item := items[i];
          match item {
            case Str(s) => out := out + [Str(Get(mapping, s))];
            case Dict(_) =>
              var walked := WalkDict(item, mapping);
              out := out + [walked];
            case List(_) =>
              var nested := SubstValue(key, item, mapping);
              out := out + [nested];
            case Scalar(_) => out := out + [item];
          }
        }
        forall j | 0 <= j < |items| {
          ItemsAt(true, items, mapping, j);
        }
        assert out == RewriteItems(true, items, mapping);
        r := List(out);
    }
  }

  /** `[_walk_any(item, mapping) for item in items]` */
  method WalkItems(items: seq<Doc>, mapping: Mapping) returns (r: Doc)
    ensures r == List(RewriteItems(false, items, mapping))
    decreases items
  {
    var out: seq<Doc> := [];
    for i := 0 to |items|
      invariant |out| == i
      invariant forall j :: 0 <= j < i ==> out[j] == Rewrite(false, items[j], mapping)
    {
      var walked := WalkAny(items[i], mapping);
      out := out + [walked];
    }
    forall j | 0 <= j < |items| {
      ItemsAt(false, items, mapping, j);
    }
    assert out == RewriteItems(false, items, mapping);
    r := List(out);
  }

  /** _walk_any */
  method WalkAny(node: Doc, mapping: Mapping) returns (r: Doc)
    ensures r == Rewrite(false, node, mapping)
    decreases node, 1
  {
    match node {
      case Dict(_) => r := WalkDict(node, mapping);
      case List(items) => r := WalkItems(items, mapping);
      case _ => r := node;
    }
  }

  /** _walk_dict */
  method WalkDict(node: Doc, mapping: Mapping) returns (r: Doc)
    requires node.Dict?
    ensures r == Rewrite(false, node, mapping)
    decreases node, 0
  {
    var out: seq<Entry> := [];
    for i := 0 to |node.entries|
      invariant |out| == i
      invariant forall j :: 0 <= j < i ==>
        out[j] == Entry(node.entries[j].key, Rewrite(IsNicNameKey(node.entries[j].key), node.entries[j].value, mapping))
    {
      var value := SubstValue(node.entries[i].key, node.entries[i].value, mapping);
      out := out + [Entry(node.entries[i].key, value)];
    }
    forall j | 0 <= j < |node.entries| {
      EntriesAt(node.entries, mapping, j);
    }
    assert out == RewriteEntries(node.entries, mapping);
    r := Dict(out);
  }

  method SubstituteNicAliases(data: Doc, mapping: Mapping) returns (r: Doc)
    ensures r == Substitute(data, mapping)
  {
    if mapping == map[] {
      return data;
    }
    match data {
      case Dict(_) => r := WalkDict(data, mapping);
      case List(items) => r := WalkItems(items, mapping);
      case _ => r := data;
    }
  }

  // ---------- Shape ----------

  /** The documents differ at most in texts in name positions. */
  predicate SameButNames(named: bool, d: Doc, e: Doc)
    decreases d, 0
  {
    match (d, e)
    case (Str(s), Str(t)) => named || s == t
    case (Scalar(i), Scalar(j)) => i == j
    case (List(a), List(b)) => SameItems(named, a, b)
    case (Dict(a), Dict(b)) => SameEntries(a, b)
    case _ => false
  }

  predicate SameItems(named: bool, a: seq<Doc>, b: seq<Doc>)
    decreases a
  {
    |a| == |b| && (a != [] ==> SameButNames(named, a[0], b[0]) && SameItems(named, a[1..], b[1..]))
  }

  predicate SameEntries(a: seq<Entry>, b: seq<Entry>)
    decreases a
  {
    && |a| == |b|
    && (a != [] ==>
         assert a decreases to a[0];
         a[0].key == b[0].key && SameButNames(IsNicNameKey(a[0].key), a[0].value, b[0].value) && SameEntries(a[1..], b[1..]))
  }

  lemma {:induction false} RewriteKeepsShape(named: bool, d: Doc, m: Mapping)
    ensures SameButNames(named, d, Rewrite(named, d, m))
    decreases d, 0
  {
    match d
    case List(items) => ItemsKeepShape(named, items, m);
    case Dict(entries) => EntriesKeepShape(entries, m);
    case _ =>
  }

  lemma {:induction false} ItemsKeepShape(named: bool, items: seq<Doc>, m: Mapping)
    ensures SameItems(named, items, RewriteItems(named, items, m))
    decreases items
  {
    if items != [] {
      RewriteKeepsShape(named, items[0], m);
      ItemsKeepShape(named, items[1..], m);
    }
  }

  lemma {:induction false} EntriesKeepShape(entries: seq<Entry>, m: Mapping)
    ensures SameEntries(entries, RewriteEntries(entries, m))
    decreases entries
  {
    if entries != [] {
      assert entries decreases to entries[0];
      RewriteKeepsShape(IsNicNameKey(entries[0].key), entries[0].value, m);
      EntriesKeepShape(entries[1..], m);
    }
  }

  lemma {:induction false} SameAsItself(named: bool, d: Doc)
    ensures SameButNames(named, d, d)
    decreases d, 0
  {
    match d
    case List(items) => SameItemsAsThemselves(named, items);
    case Dict(entries) => SameEntriesAsThemselves(entries);
    case _ =>
  }

  lemma {:induction false} SameItemsAsThemselves(named: bool, items: seq<Doc>)
    ensures SameItems(named, items, items)
    decreases items
  {
    if items != [] {
      SameAsItself(named, items[0]);
      SameItemsAsThemselves(named, items[1..]);
    }
  }

  lemma {:induction false} SameEntriesAsThemselves(entries: seq<Entry>)
    ensures SameEntries(entries, entries)
    decreases entries
  {
    if entries != [] {
      assert entries decreases to entries[0];
      SameAsItself(IsNicNameKey(entries[0].key), entries[0].value);
      SameEntriesAsThemselves(entries[1..]);
    }
  }

  /** Substitution changes nothing but texts in name positions. */
  lemma SubstitutionKeepsShape(d: Doc, m: Mapping)
    ensures SameButNames(false, d, Substitute(d, m))
  {
    RewriteKeepsShape(false, d, m);
    SameAsItself(false, d);
  }

  // ---------- Which names the result holds, and when two mappings do the same ----------

  /** The texts in name positions. */
  function Names(named: bool, d: Doc): set<string>
    decreases d, 0
  {
    match d
    case Str(s) => if named then {s} else {}
    case Scalar(_) => {}
    case List(items) => NamesOfItems(named, items)
    case Dict(entries) => NamesOfEntries(entries)
  }

  function NamesOfItems(named: bool, items: seq<Doc>): set<string>
    decreases items
  {
    if items == [] then {} else Names(named, items[0]) + NamesOfItems(named, items[1..])
  }

  function NamesOfEntries(entries: seq<Entry>): set<string>
    decreases entries
  {
    if entries == [] then {}
    else
      assert entries decreases to entries[0];
      Names(IsNicNameKey(entries[0].key), entries[0].value) + NamesOfEntries(entries[1..])
  }

  /**
    Rewriting a document once and rewriting it twice come to the same if and only if they do on
    every text in a name position.
   */
  lemma {:induction false} RewriteTwice(named: bool, d: Doc, m: Mapping, n: Mapping, k: Mapping)
    ensures Rewrite(named, Rewrite(named, d, m), n) == Rewrite(named, d, k)
       <==> forall s :: s in Names(named, d) ==> Get(n, Get(m, s)) == Get(k, s)
    decreases d, 0
  {
    match d
    case Str(s) => assert named ==> s in Names(named, d);
    case Scalar(_) =>
    case List(items) => RewriteItemsTwice(named, items, m, n, k);
    case Dict(entries) => RewriteEntriesTwice(entries, m, n, k);
  }

  lemma {:induction false} RewriteItemsTwice(named: bool, items: seq<Doc>, m: Mapping, n: Mapping, k: Mapping)
    ensures RewriteItems(named, RewriteItems(named, items, m), n) == RewriteItems(named, items, k)
       <==> forall s :: s in NamesOfItems(named, items) ==> Get(n, Get(m, s)) == Get(k, s)
    decreases items
  {
    if items != [] {
      RewriteTwice(named, items[0], m, n, k);
      RewriteItemsTwice(named, items[1..], m, n, k);
      var once := RewriteItems(named, items, m);
      assert once[0] == Rewrite(named, items[0], m) && once[1..] == RewriteItems(named, items[1..], m);
      ConsEqual(Rewrite(named, once[0], n), RewriteItems(named, once[1..], n),
                Rewrite(named, items[0], k), RewriteItems(named, items[1..], k));
    }
  }

  lemma {:induction false} RewriteEntriesTwice(entries: seq<Entry>, m: Mapping, n: Mapping, k: Mapping)
    ensures RewriteEntries(RewriteEntries(entries, m), n) == RewriteEntries(entries, k)
       <==> forall s :: s in NamesOfEntries(entries) ==> Get(n, Get(m, s)) == Get(k, s)
    decreases entries
  {
    if entries != [] {
      var Entry(key, value) := entries[0];
      assert entries decreases to entries[0];
      RewriteTwice(IsNicNameKey(key), value, m, n, k);
      RewriteEntriesTwice(entries[1..], m, n, k);
      var once := RewriteEntries(entries, m);
      assert once[0] == Entry(key, Rewrite(IsNicNameKey(key), value, m)) && once[1..] == RewriteEntries(entries[1..], m);
      ConsEqual(Entry(key, Rewrite(IsNicNameKey(key), once[0].value, n)), RewriteEntries(once[1..], n),
                Entry(key, Rewrite(IsNicNameKey(key), value, k)), RewriteEntries(entries[1..], k));
    }
  }

  lemma ConsEqual<T>(x: T, s: seq<T>, y: T, t: seq<T>)
    ensures [x] + s == [y] + t <==> x == y && s == t
  {
    if [x] + s == [y] + t {
      assert ([x] + s)[0] == x && ([y] + t)[0] == y;
      assert ([x] + s)[1..] == s && ([y] + t)[1..] == t;
    }
  }

  lemma {:induction false} RewriteByNothing(named: bool, d: Doc)
    ensures Rewrite(named, d, map[]) == d
    decreases d, 0
  {
    match d
    case List(items) => ItemsByNothing(named, items);
    case Dict(entries) => EntriesByNothing(entries);
    case _ =>
  }

  lemma {:induction false} ItemsByNothing(named: bool, items: seq<Doc>)
    ensures RewriteItems(named, items, map[]) == items
    decreases items
  {
    if items != [] {
      RewriteByNothing(named, items[0]);
      ItemsByNothing(named, items[1..]);
    }
  }

  lemma {:induction false} EntriesByNothing(entries: seq<Entry>)
    ensures RewriteEntries(entries, map[]) == entries
    decreases entries
  {
    if entries != [] {
      assert entries decreases to entries[0];
      RewriteByNothing(IsNicNameKey(entries[0].key), entries[0].value);
      EntriesByNothing(entries[1..]);
    }
  }

  /** On every document the program's short cuts agree with the reference. */
  lemma SubstituteIsRewrite(d: Doc, m: Mapping)
    ensures Substitute(d, m) == Rewrite(false, d, m)
  {
    RewriteByNothing(false, d);
  }

  // ---------- Composition and inverse ----------

  /** First `m`, then `n`. */
  function Compose(m: Mapping, n: Mapping): Mapping {
    map s | s in m.Keys + n.Keys :: Get(n, Get(m, s))
  }

  /** Two passes are one pass with the composed mapping. */
  lemma SubstitutionComposes(d: Doc, m: Mapping, n: Mapping)
    ensures Substitute(Substitute(d, m), n) == Substitute(d, Compose(m, n))
  {
    SubstituteIsRewrite(d, m);
    SubstituteIsRewrite(Substitute(d, m), n);
    SubstituteIsRewrite(d, Compose(m, n));
    RewriteTwice(false, d, m, n, Compose(m, n));
  }

  ghost predicate Injective(m: Mapping) {
    forall a, b :: a in m && b in m && m[a] == m[b] ==> a == b
  }

  ghost function KeyOf(m: Mapping, v: string): string
    requires v in m.Values
  {
    var k :| k in m && m[k] == v;
    k
  }

  ghost function Inverse(m: Mapping): Mapping {
    map v | v in m.Values :: KeyOf(m, v)
  }

  /**
    The inverse of an injective mapping undoes the substitution if and only if every text in a name
    position that is one of the mapping's targets is also one of its aliases.
   */
  lemma InverseUndoesIff(d: Doc, m: Mapping)
    requires Injective(m)
    ensures Substitute(Substitute(d, m), Inverse(m)) == d
       <==> forall s :: s in Names(false, d) && s in m.Values ==> s in m.Keys
  {
    SubstituteIsRewrite(d, m);
    SubstituteIsRewrite(Substitute(d, m), Inverse(m));
    RewriteByNothing(false, d);
    RewriteTwice(false, d, m, Inverse(m), map[]);
    forall s ensures Get(Inverse(m), Get(m, s)) == Get(map[], s) <==> (s in m.Values ==> s in m.Keys) {
      if s in m {
        assert m[s] in m.Values && KeyOf(m, m[s]) == s;
      }
    }
  }

  /** Without the condition: an interface called by its own name comes back as the alias. */
  lemma OwnNameComesBackAsAlias()
    ensures var d := Dict([Entry(Text("name"), Str("eth0"))]);
            var m := map["nic1" := "eth0"];
            Injective(m) && Substitute(Substitute(d, m), Inverse(m)) != d
  {
    var d := Dict([Entry(Text("name"), Str("eth0"))]);
    var m := map["nic1" := "eth0"];
    assert NormalizeKey(Text("name")) == "name";
    assert IsNicNameKey(Text("name"));
    assert "eth0" in NamesOfEntries(d.entries);
    assert m["nic1"] in m.Values;
    assert "eth0"[0] != "nic1"[0];
    InverseUndoesIff(d, m);
  }

  // ---------- Name keys ----------

  /** The same letter in either case, dash for underscore, or the same character. */
  predicate SameCharacter(c: char, d: char) {
    || c == d
    || ('a' <= c <= 'z' && c as int == d as int + 32) || ('a' <= d <= 'z' && d as int == c as int + 32)
    || (c in "-_" && d in "-_")
  }

  predicate SameWriting(s: string, t: string) {
    |s| == |t| && forall i :: 0 <= i < |s| ==> SameCharacter(s[i], t[i])
  }

  lemma NormalCharacter(c: char, d: char)
    requires SameCharacter(c, d)
    ensures DashChar(LowerChar(c)) == DashChar(LowerChar(d))
  {}

  /** Keys that differ in case and in dashes for underscores only are treated alike. */
  lemma KeysAlike(s: string, t: string)
    requires SameWriting(s, t)
    ensures NormalizeKey(Text(s)) == NormalizeKey(Text(t))
    ensures IsNicNameKey(Text(s)) == IsNicNameKey(Text(t))
  {
    forall i | 0 <= i < |s| ensures NormalizeKey(Text(s))[i] == NormalizeKey(Text(t))[i] {
      NormalCharacter(s[i], t[i]);
    }
    assert NormalizeKey(Text(s)) == NormalizeKey(Text(t));
  }

  /** A key without capital letters and underscores is a name key if and only if it is one of these. */
  lemma NameKeysExact(key: string)
    requires forall c :: c in key ==> c != '_' && !('A' <= c <= 'Z')
    ensures IsNicNameKey(Text(key)) <==>
      key in {"name", "device", "interface", "iface", "interface-name", "parent", "controller", "base-iface",
              "copy-mac-from", "peer", "patch", "port", "ports", "next-hop-interface", "next-hop-iface", "vrf-name", "iif"}
  {
    forall i | 0 <= i < |key| ensures NormalizeKey(Text(key))[i] == key[i] {
      assert key[i] in key;
    }
    assert NormalizeKey(Text(key)) == key;
  }

  // ---------- Text by text ----------

  /** One step into a document: to an item of a list, or to the value of an entry of a dictionary. */
  datatype Step = ToItem(i: nat) | ToValue(i: nat)

  /** What is found along these steps. */
  function At(d: Doc, path: seq<Step>): Option<Doc>
    decreases |path|
  {
    if path == [] then Some(d)
    else
      match (d, path[0])
      case (List(items), ToItem(i)) => if i < |items| then At(items[i], path[1..]) else None
      case (Dict(entries), ToValue(i)) => if i < |entries| then At(entries[i].value, path[1..]) else None
      case _ => None
  }

  /** The key of the last entry on the way, if there is one. */
  function LastKey(d: Doc, path: seq<Step>, above: Option<Key>): Option<Key>
    decreases |path|
  {
    if path == [] then above
    else
      match (d, path[0])
      case (List(items), ToItem(i)) => if i < |items| then LastKey(items[i], path[1..], above) else None
      case (Dict(entries), ToValue(i)) =>
        if i < |entries| then LastKey(entries[i].value, path[1..], Some(entries[i].key)) else None
      case _ => None
  }

  predicate NamesInterfaces(key: Option<Key>) {
    key.Some? && IsNicNameKey(key.value)
  }

  lemma {:induction false} RewriteAt(d: Doc, m: Mapping, path: seq<Step>, above: Option<Key>)
    requires At(d, path).Some?
    ensures At(Rewrite(NamesInterfaces(above), d, m), path)
         == Some(Rewrite(NamesInterfaces(LastKey(d, path, above)), At(d, path).value, m))
    decreases |path|
  {
    if path != [] {
      match (d, path[0]) {
        case (List(items), ToItem(i)) =>
          ItemsAt(NamesInterfaces(above), items, m, i);
          RewriteAt(items[i], m, path[1..], above);
        case (Dict(entries), ToValue(i)) =>
          EntriesAt(entries, m, i);
          RewriteAt(entries[i].value, m, path[1..], Some(entries[i].key));
        case _ =>
      }
    }
  }

  /**
    Text by text: wherever the document holds a text, the result holds, in the same place, the interface
    that the mapping gives for it if the last key on the way is a name key and the text is an alias, and the
    text itself otherwise.
   */
  lemma TextAt(d: Doc, m: Mapping, path: seq<Step>, s: string)
    requires At(d, path) == Some(Str(s))
    ensures At(Substitute(d, m), path) == Some(Str(
              if LastKey(d, path, None).Some? && IsNicNameKey(LastKey(d, path, None).value) && s in m then m[s] else s))
  {
    SubstituteIsRewrite(d, m);
    RewriteAt(d, m, path, None);
  }
}
