/**
  PCI addresses as text, as numbers and as match patterns.

  The user writes an address with optional and wildcard fields; the host names its devices
  `DDDD:BB:SS.F`.  The program turns the user's text into a dictionary of field texts, that
  dictionary into a regular expression, and matches the expression against the host's text.
 */
module PciAddress {
  import opened Wrappers
  import opened Strings
  import opened Hex

  const MAX_DOMAIN: nat := 0xFFFF
  const MAX_BUS: nat := 0xFF
  const MAX_SLOT: nat := 0x1F
  const MAX_FUNC: nat := 0x7
  const ANY := "*"
  const REGEX_ANY := ".*"

  datatype Error = InvalidConfig | MissingField | UnknownDevice

  // ---------- Numbers ----------

  /** A device address: the four numbers that `DDDD:BB:SS.F` stands for. */
  datatype RawPci = Pci(domain: nat, bus: nat, slot: nat, function_: nat)

  predicate InRange(a: RawPci) {
    a.domain <= MAX_DOMAIN && a.bus <= MAX_BUS && a.slot <= MAX_SLOT && a.function_ <= MAX_FUNC
  }

  type Pci = a: RawPci | InRange(a) witness Pci(0, 0, 0, 0)

  /** The name the kernel gives the device. */
  function Text(a: Pci): (t: string)
    ensures |t| == 12
  {
    HexText(a.domain, 4) + ":" + HexText(a.bus, 2) + ":" + HexText(a.slot, 2) + "." + HexText(a.function_, 1)
  }

  // ---------- The user's text to field texts ----------

  /** The dictionary of field texts: `.*` or a zero-padded hexadecimal number. */
  datatype Fields = Fields(domain: string, bus: string, slot: string, function_: string)

  /** get_pci_field_val */
  function FieldVal(prop: string, maxval: nat, width: nat): Result<string, Error> {
    if prop == ANY then
      Success(REGEX_ANY)
    else
      var v := ParseHex(prop);
      if v.None? || v.value > maxval then Failure(InvalidConfig) else Success(HexText(v.value, width))
  }

  function OrAny(s: string): string {
    if s == "" then ANY else s
  }

  /** get_pciaddr_dict_from_usraddr */
  function ParseAddress(text: string): Result<Fields, Error> {
    var (dbs, func) := Partition(text, '.');
    var function_ := if func == "" then ANY else Strip(func);
    if dbs == "" then
      Failure(MissingField)
    else
      var parts := Split(dbs, ':');
      if |parts| > 3 then
        Failure(InvalidConfig)
      else
        var all := seq(3 - |parts|, _ => ANY) + parts;
        CheckFields(OrAny(Strip(all[0])), OrAny(Strip(all[1])), OrAny(Strip(all[2])), function_)
  }

  /** Lines 147-150, in the order in which the fields are read. */
  function CheckFields(domain: string, bus: string, slot: string, function_: string): Result<Fields, Error> {
    var d :- FieldVal(domain, MAX_DOMAIN, 4);
    var s :- FieldVal(slot, MAX_SLOT, 2);
    var b :- FieldVal(bus, MAX_BUS, 2);
    var f :- FieldVal(function_, MAX_FUNC, 1);
    Success(Fields(d, b, s, f))
  }

  // ---------- Field texts to patterns ----------

  /** One position of a regular expression of fixed length. */
  datatype Atom = Lit(c: char) | HexAny | OctalAny | AnyChar

  predicate AtomMatches(p: Atom, c: char) {
    match p
    case Lit(x) => c == x
    case HexAny => HexDigit(c).Some?
    case OctalAny => '0' <= c <= '7'
    case AnyChar => c != '\n'
  }

  /** `re.match`: the expression matches a prefix of the text. */
  predicate Matches(p: seq<Atom>, s: string) {
    |p| <= |s| && forall i :: 0 <= i < |p| ==> AtomMatches(p[i], s[i])
  }

  function Literal(s: string): (p: seq<Atom>)
    ensures |p| == |s|
  {
    seq(|s|, i requires 0 <= i < |s| => Lit(s[i]))
  }

  function HexAnys(w: nat): (p: seq<Atom>)
    ensures |p| == w
  {
    seq(w, _ => HexAny)
  }

  /** A field of an expression: positions, or text left for the regular expression engine. */
  datatype FieldPattern = Atoms(atoms: seq<Atom>) | UserRegex(regex: string)

  /** get_pci_regex_pattern, except that whether a user's own regex compiles is not decided here. */
  function PatternField(config: string, size: nat, maxval: nat): Result<FieldPattern, Error> {
    if config == ANY || config == REGEX_ANY then
      Success(Atoms(HexAnys(size)))
    else
      var v := ParseHex(config);
      if v.None? then Success(UserRegex(config))
      else if v.value > maxval then Failure(InvalidConfig)
      else Success(Atoms(Literal(HexText(v.value, size))))
  }

  /**
    A compiled expression.  An expression with a user's own regex in it is known by the device
    addresses that the engine would match.
   */
  datatype Pattern = Fixed(atoms: seq<Atom>) | Engine(hits: set<Pci>)

  function JoinAtoms(d: seq<Atom>, b: seq<Atom>, s: seq<Atom>, f: seq<Atom>): seq<Atom> {
    d + [Lit(':')] + b + [Lit(':')] + s + [AnyChar] + f
  }

  /**
    get_user_regex_from_addrdict followed by re.compile; `engine` is what the engine makes of the
    joined text when some field is the user's own regex, None when that does not compile.
   */
  function CompileFields(f: Fields, engine: Option<set<Pci>>): Result<Pattern, Error> {
    var domain :- PatternField(f.domain, 4, MAX_DOMAIN);
    var bus :- PatternField(f.bus, 2, MAX_BUS);
    var slot :- PatternField(f.slot, 2, MAX_SLOT);
    var func :- PatternField(f.function_, 1, MAX_FUNC);
    if domain.Atoms? && bus.Atoms? && slot.Atoms? && func.Atoms? then
      Success(Fixed(JoinAtoms(domain.atoms, bus.atoms, slot.atoms, func.atoms)))
    else if engine.Some? then
      Success(Engine(engine.value))
    else
      Failure(InvalidConfig)
  }

  /** The `address` of a device spec: text, or a dictionary of field regexes. */
  datatype Address = TextAddress(text: string) | DictAddress(fields: Fields, engine: Option<set<Pci>>)

  /** The compiled expression of an optional address. */
  function Compile(address: Option<Address>): Result<Pattern, Error> {
    match address
    case None => Success(Fixed(JoinAtoms(HexAnys(4), HexAnys(2), HexAnys(2), [OctalAny])))
    case Some(DictAddress(fields, engine)) => CompileFields(fields, engine)
    case Some(TextAddress(text)) =>
      var fields :- ParseAddress(text);
      CompileFields(fields, None)
  }

  /** The expression matches the host's name of the device. */
  predicate Hits(p: Pattern, a: Pci) {
    match p
    case Fixed(atoms) => Matches(atoms, Text(a))
    case Engine(hits) => a in hits
  }

  // ---------- Text agrees with numbers ----------

  lemma MatchConcat(p: seq<Atom>, q: seq<Atom>, s: string, t: string)
    requires |p| == |s|
    ensures Matches(p + q, s + t) <==> Matches(p, s) && Matches(q, t)
  {
    if Matches(p + q, s + t) {
      forall i | 0 <= i < |p| ensures AtomMatches(p[i], s[i]) {
        assert (p + q)[i] == p[i] && (s + t)[i] == s[i];
      }
      forall i | 0 <= i < |q| ensures AtomMatches(q[i], t[i]) {
        assert (p + q)[|p| + i] == q[i] && (s + t)[|p| + i] == t[i];
      }
    }
  }

  lemma MatchJoin(d: seq<Atom>, b: seq<Atom>, s: seq<Atom>, f: seq<Atom>, a: Pci)
    requires |d| == 4 && |b| == 2 && |s| == 2
    ensures Matches(JoinAtoms(d, b, s, f), Text(a))
       <==> Matches(d, HexText(a.domain, 4)) && Matches(b, HexText(a.bus, 2))
            && Matches(s, HexText(a.slot, 2)) && Matches(f, HexText(a.function_, 1))
  {
    var td, tb, ts, tf := HexText(a.domain, 4), HexText(a.bus, 2), HexText(a.slot, 2), HexText(a.function_, 1);
    MatchConcat(d, [Lit(':')], td, ":");
    MatchConcat(d + [Lit(':')], b, td + ":", tb);
    MatchConcat(d + [Lit(':')] + b, [Lit(':')], td + ":" + tb, ":");
    MatchConcat(d + [Lit(':')] + b + [Lit(':')], s, td + ":" + tb + ":", ts);
    MatchConcat(d + [Lit(':')] + b + [Lit(':')] + s, [AnyChar], td + ":" + tb + ":" + ts, ".");
    MatchConcat(d + [Lit(':')] + b + [Lit(':')] + s + [AnyChar], f, td + ":" + tb + ":" + ts + ".", tf);
  }

  lemma MatchHexAny(v: nat, w: nat)
    ensures Matches(HexAnys(w), HexText(v, w))
  {}

  lemma MatchLiteral(x: nat, v: nat, w: nat)
    requires w > 0 && x < Pow16(w) && v < Pow16(w)
    ensures Matches(Literal(HexText(x, w)), HexText(v, w)) <==> x == v
  {
    var p := Literal(HexText(x, w));
    ParseHexText(x, w);
    ParseHexText(v, w);
    if Matches(p, HexText(v, w)) {
      forall i | 0 <= i < w ensures HexText(x, w)[i] == HexText(v, w)[i] {
        assert AtomMatches(p[i], HexText(v, w)[i]);
      }
      assert HexText(x, w) == HexText(v, w);
    } else {
      assert HexText(x, w) != HexText(v, w);
    }
  }

  /** What a field of the user's text says about a number, by value alone. */
  predicate FieldReads(field: string, n: nat) {
    field == ANY || ParseHex(field) == Some(n)
  }

  /** The field is `*` or a number within bounds. */
  predicate FieldOk(field: string, maxval: nat) {
    field == ANY || (ParseHex(field).Some? && ParseHex(field).value <= maxval)
  }

  /** The i-th of domain, bus and slot in the user's text, counted from the right; `*` when left out or blank. */
  function UserField(text: string, i: nat): string
    requires i < 3
  {
    var parts := Split(Partition(text, '.').0, ':');
    if i < |parts| then OrAny(Strip(parts[|parts| - 1 - i])) else ANY
  }

  function UserFunction(text: string): string {
    var func := Partition(text, '.').1;
    if func == "" then ANY else Strip(func)
  }

  /** What a well-formed address text is. */
  predicate WellFormed(text: string) {
    && Partition(text, '.').0 != ""
    && |Split(Partition(text, '.').0, ':')| <= 3
    && FieldOk(UserField(text, 2), 0xFFFF)
    && FieldOk(UserField(text, 1), 0xFF)
    && FieldOk(UserField(text, 0), 0x1F)
    && FieldOk(UserFunction(text), 0x7)
  }

  /** The text names the device, by the values of its fields. */
  predicate Names(text: string, a: Pci) {
    && FieldReads(UserField(text, 2), a.domain)
    && FieldReads(UserField(text, 1), a.bus)
    && FieldReads(UserField(text, 0), a.slot)
    && FieldReads(UserFunction(text), a.function_)
  }

  lemma {:induction false} FieldRoundTrip(field: string, maxval: nat, w: nat)
    requires w > 0 && maxval < Pow16(w) && FieldOk(field, maxval)
    ensures FieldVal(field, maxval, w).Success?
    ensures var t := FieldVal(field, maxval, w).value;
            && PatternField(t, w, maxval).Success?
            && PatternField(t, w, maxval).value.Atoms?
            && |PatternField(t, w, maxval).value.atoms| == w
            && (forall n :: 0 <= n <= maxval ==>
                 (Matches(PatternField(t, w, maxval).value.atoms, HexText(n, w)) <==> FieldReads(field, n)))
  {
    var t := FieldVal(field, maxval, w).value;
    if field == ANY {
      forall n: nat { MatchHexAny(n, w); }
    } else {
      var x := ParseHex(field).value;
      ParseHexText(x, w);
      assert ParseHex(t) == Some(x);
      NotAnyWhenHex(t);
      forall n: nat | n <= maxval ensures Matches(Literal(HexText(x, w)), HexText(n, w)) <==> FieldReads(field, n) {
        MatchLiteral(x, n, w);
      }
    }
  }

  lemma NotAnyWhenHex(t: string)
    requires ParseHex(t).Some?
    ensures t != ANY && t != REGEX_ANY
  {}

  /** The fields of the text, padded from the left, as the program reads them. */
  lemma PaddedFields(dbs: string, parts: seq<string>, i: nat)
    requires parts == Split(dbs, ':') && |parts| <= 3 && i < 3
    ensures var all := seq(3 - |parts|, _ => ANY) + parts;
            OrAny(Strip(all[2 - i])) == if i < |parts| then OrAny(Strip(parts[|parts| - 1 - i])) else ANY
  {
    StripNothing(ANY);
  }

  lemma ParseReadsFields(text: string)
    requires Partition(text, '.').0 != "" && |Split(Partition(text, '.').0, ':')| <= 3
    ensures ParseAddress(text) ==
            CheckFields(UserField(text, 2), UserField(text, 1), UserField(text, 0), UserFunction(text))
  {
    var dbs := Partition(text, '.').0;
    var parts := Split(dbs, ':');
    PaddedFields(dbs, parts, 2);
    PaddedFields(dbs, parts, 1);
    PaddedFields(dbs, parts, 0);
  }

  lemma FieldOkIff(field: string, maxval: nat, width: nat)
    ensures FieldOk(field, maxval) <==> FieldVal(field, maxval, width).Success?
  {}

  /** A text is accepted exactly when it is well formed. */
  lemma AcceptedIffWellFormed(text: string)
    ensures ParseAddress(text).Success? <==> WellFormed(text)
    ensures WellFormed(text) ==>
      ParseAddress(text).value ==
        Fields(FieldVal(UserField(text, 2), MAX_DOMAIN, 4).value, FieldVal(UserField(text, 1), MAX_BUS, 2).value,
               FieldVal(UserField(text, 0), MAX_SLOT, 2).value, FieldVal(UserFunction(text), MAX_FUNC, 1).value)
  {
    var dbs := Partition(text, '.').0;
    FieldOkIff(UserField(text, 2), MAX_DOMAIN, 4);
    FieldOkIff(UserField(text, 1), MAX_BUS, 2);
    FieldOkIff(UserField(text, 0), MAX_SLOT, 2);
    FieldOkIff(UserFunction(text), MAX_FUNC, 1);
    if dbs != "" && |Split(dbs, ':')| <= 3 {
      ParseReadsFields(text);
    }
  }

  /**
    The expression built from a user's text matches the host's name of a device exactly when
    every field of the text is a wildcard or numerically equal to the device's.
   */
  lemma TextAgreesWithNumbers(text: string, a: Pci)
    requires WellFormed(text)
    ensures Compile(Some(TextAddress(text))).Success?
    ensures Hits(Compile(Some(TextAddress(text))).value, a) <==> Names(text, a)
  {
    AcceptedIffWellFormed(text);
    FieldsAgreeWithNumbers(UserField(text, 2), UserField(text, 1), UserField(text, 0), UserFunction(text), a);
  }

  lemma FieldsAgreeWithNumbers(domain: string, bus: string, slot: string, func: string, a: Pci)
    requires FieldOk(domain, MAX_DOMAIN) && FieldOk(bus, MAX_BUS) && FieldOk(slot, MAX_SLOT) && FieldOk(func, MAX_FUNC)
    ensures var f := Fields(FieldVal(domain, MAX_DOMAIN, 4).value, FieldVal(bus, MAX_BUS, 2).value,
                            FieldVal(slot, MAX_SLOT, 2).value, FieldVal(func, MAX_FUNC, 1).value);
            && CompileFields(f, None).Success?
            && (Hits(CompileFields(f, None).value, a) <==>
                FieldReads(domain, a.domain) && FieldReads(bus, a.bus)
                && FieldReads(slot, a.slot) && FieldReads(func, a.function_))
  {
    Widths();
    FieldRoundTrip(domain, MAX_DOMAIN, 4);
    FieldRoundTrip(bus, MAX_BUS, 2);
    FieldRoundTrip(slot, MAX_SLOT, 2);
    FieldRoundTrip(func, MAX_FUNC, 1);
    var d := PatternField(FieldVal(domain, MAX_DOMAIN, 4).value, 4, MAX_DOMAIN).value.atoms;
    var b := PatternField(FieldVal(bus, MAX_BUS, 2).value, 2, MAX_BUS).value.atoms;
    var s := PatternField(FieldVal(slot, MAX_SLOT, 2).value, 2, MAX_SLOT).value.atoms;
    var u := PatternField(FieldVal(func, MAX_FUNC, 1).value, 1, MAX_FUNC).value.atoms;
    MatchJoin(d, b, s, u, a);
  }

  // ---------- Printing ----------

  function PrintField(t: string): string {
    if t == REGEX_ANY then ANY else t
  }

  /** The parsed form as text again, with `*` for a wildcard. */
  function Print(f: Fields): string {
    PrintField(f.domain) + ":" + PrintField(f.bus) + ":" + PrintField(f.slot) + "." + PrintField(f.function_)
  }

  /** A field text of a parsed form. */
  predicate Parsed(t: string, maxval: nat, w: nat) {
    t == REGEX_ANY || exists v: nat :: v <= maxval && t == HexText(v, w)
  }

  lemma PrintedNumber(v: nat, maxval: nat, w: nat)
    requires w > 0 && v <= maxval < Pow16(w)
    ensures PrintField(HexText(v, w)) == HexText(v, w)
    ensures FieldVal(HexText(v, w), maxval, w) == Success(HexText(v, w))
  {
    ParseHexText(v, w);
    NotAnyWhenHex(HexText(v, w));
  }

  lemma PrintedField(t: string, maxval: nat, w: nat)
    requires w > 0 && maxval < Pow16(w) && Parsed(t, maxval, w)
    ensures var p := PrintField(t);
            && p != "" && ':' !in p && '.' !in p && Strip(p) == p
            && FieldVal(p, maxval, w) == Success(t)
  {
    if t == REGEX_ANY {
      StripNothing(ANY);
    } else {
      var v: nat :| v <= maxval && t == HexText(v, w);
      PrintedNumber(v, maxval, w);
      HexTextIsPlain(v, w);
    }
  }

  lemma HexTextIsPlain(v: nat, w: nat)
    ensures var t := HexText(v, w); ':' !in t && '.' !in t && Strip(t) == t
  {
    var t := HexText(v, w);
    HexTextDigits(v, w);
    assert forall c :: c in t ==> IsLowerHex(c);
    StripNothing(t);
  }

  lemma SplitThree(d: string, b: string, s: string)
    requires ':' !in d && ':' !in b && ':' !in s
    ensures Split(d + ":" + b + ":" + s, ':') == [d, b, s]
  {
    SplitWithout(s, ':');
    SplitAt(b, ':', s);
    SplitAt(d, ':', b + ":" + s);
    assert d + ":" + b + ":" + s == d + [':'] + (b + ":" + s);
    assert b + [':'] + s == b + ":" + s;
  }

  lemma ParsePrinted(f: Fields)
    requires Parsed(f.domain, MAX_DOMAIN, 4) && Parsed(f.bus, MAX_BUS, 2)
    requires Parsed(f.slot, MAX_SLOT, 2) && Parsed(f.function_, MAX_FUNC, 1)
    ensures ParseAddress(Print(f)) == Success(f)
    ensures WellFormed(Print(f))
    ensures UserField(Print(f), 2) == PrintField(f.domain) && UserField(Print(f), 1) == PrintField(f.bus)
    ensures UserField(Print(f), 0) == PrintField(f.slot) && UserFunction(Print(f)) == PrintField(f.function_)
  {
    Widths();
    PrintedField(f.domain, MAX_DOMAIN, 4);
    PrintedField(f.bus, MAX_BUS, 2);
    PrintedField(f.slot, MAX_SLOT, 2);
    PrintedField(f.function_, MAX_FUNC, 1);
    var d, b, s, u := PrintField(f.domain), PrintField(f.bus), PrintField(f.slot), PrintField(f.function_);
    var dbs := d + ":" + b + ":" + s;
    SplitThree(d, b, s);
    PartitionAt(dbs, '.', u);
    assert Print(f) == dbs + ['.'] + u;
    assert seq(0, _ => ANY) + [d, b, s] == [d, b, s];
    AcceptedIffWellFormed(Print(f));
  }

  lemma FieldValParsed(field: string, maxval: nat, w: nat)
    requires FieldVal(field, maxval, w).Success?
    ensures Parsed(FieldVal(field, maxval, w).value, maxval, w)
  {}

  lemma CheckedIsParsed(domain: string, bus: string, slot: string, func: string)
    requires CheckFields(domain, bus, slot, func).Success?
    ensures var f := CheckFields(domain, bus, slot, func).value;
            && Parsed(f.domain, MAX_DOMAIN, 4) && Parsed(f.bus, MAX_BUS, 2)
            && Parsed(f.slot, MAX_SLOT, 2) && Parsed(f.function_, MAX_FUNC, 1)
  {
    FieldValParsed(domain, MAX_DOMAIN, 4);
    FieldValParsed(bus, MAX_BUS, 2);
    FieldValParsed(slot, MAX_SLOT, 2);
    FieldValParsed(func, MAX_FUNC, 1);
  }

  /** Printing a parsed address and parsing it again gives the same form. */
  lemma PrintParseRoundTrip(text: string)
    requires ParseAddress(text).Success?
    ensures ParseAddress(Print(ParseAddress(text).value)) == Success(ParseAddress(text).value)
  {
    AcceptedIffWellFormed(text);
    ParseReadsFields(text);
    CheckedIsParsed(UserField(text, 2), UserField(text, 1), UserField(text, 0), UserFunction(text));
    ParsePrinted(ParseAddress(text).value);
  }

  /** The host's own name of a device is an address text that names this device and no other. */
  lemma ExactAddress(a: Pci, b: Pci)
    ensures Compile(Some(TextAddress(Text(a)))).Success?
    ensures Hits(Compile(Some(TextAddress(Text(a)))).value, b) <==> a == b
  {
    var f := Fields(HexText(a.domain, 4), HexText(a.bus, 2), HexText(a.slot, 2), HexText(a.function_, 1));
    Widths();
    ExactField(a.domain, 4);
    ExactField(a.bus, 2);
    ExactField(a.slot, 2);
    ExactField(a.function_, 1);
    assert Print(f) == Text(a);
    ParsePrinted(f);
    TextAgreesWithNumbers(Text(a), b);
  }

  lemma ExactField(v: nat, w: nat)
    requires w > 0 && v < Pow16(w)
    ensures PrintField(HexText(v, w)) == HexText(v, w)
    ensures forall n: nat :: FieldReads(HexText(v, w), n) <==> n == v
  {
    ParseHexText(v, w);
    NotAnyWhenHex(HexText(v, w));
  }

  lemma OctalAnyDigit(f: nat)
    requires f <= MAX_FUNC
    ensures Matches([OctalAny], HexText(f, 1))
  {
    assert HexText(f, 1) == [HexChar(f)];
  }

  /** A spec without an address matches every device. */
  lemma NoAddressHitsAll(a: Pci)
    ensures Hits(Compile(None).value, a)
  {
    MatchHexAny(a.domain, 4);
    MatchHexAny(a.bus, 2);
    MatchHexAny(a.slot, 2);
    OctalAnyDigit(a.function_);
    MatchJoin(HexAnys(4), HexAnys(2), HexAnys(2), [OctalAny], a);
  }

  // ---------- Addresses by their parts ----------

  /** A part of an address as users write it, with or without blanks around it. */
  predicate WrittenField(field: string) {
    ':' !in field && '.' !in field && Strip(field) != ""
  }

  /** A full address names the device whose numbers its four parts have, `*` standing for any number. */
  lemma FullAddressNames(d: string, b: string, s: string, f: string, a: Pci)
    requires WrittenField(d) && WrittenField(b) && WrittenField(s) && WrittenField(f)
    ensures Names(d + ":" + b + ":" + s + "." + f, a) <==>
            && FieldReads(Strip(d), a.domain) && FieldReads(Strip(b), a.bus)
            && FieldReads(Strip(s), a.slot) && FieldReads(Strip(f), a.function_)
  {
    var dbs := d + ":" + b + ":" + s;
    SplitThree(d, b, s);
    PartitionAt(dbs, '.', f);
    assert dbs + "." + f == dbs + ['.'] + f;
    assert f != "" by {
      assert Strip("") == "";
    }
  }

  lemma PartialText(dbs: string, parts: seq<string>, f: string, text: string)
    requires '.' !in dbs && text == dbs + ['.'] + f && Split(dbs, ':') == parts
    ensures forall i: nat :: i < 3 ==>
      UserField(text, i) == if i < |parts| then OrAny(Strip(parts[|parts| - 1 - i])) else ANY
    ensures UserFunction(text) == if f == "" then ANY else Strip(f)
  {
    PartitionAt(dbs, '.', f);
  }

  /** Parts may be left out from the left; the function may be left out, too. */
  lemma PartialAddressNames(b: string, s: string, f: string, a: Pci)
    requires WrittenField(b) && WrittenField(s) && WrittenField(f)
    ensures Names(b + ":" + s + "." + f, a) <==>
            FieldReads(Strip(b), a.bus) && FieldReads(Strip(s), a.slot) && FieldReads(Strip(f), a.function_)
    ensures Names(s + "." + f, a) <==> FieldReads(Strip(s), a.slot) && FieldReads(Strip(f), a.function_)
    ensures Names(s + ".", a) <==> FieldReads(Strip(s), a.slot)
  {
    assert Strip("") == "";
    SplitAt(b, ':', s);
    SplitWithout(s, ':');
    assert b + ":" + s == b + [':'] + s;
    PartialText(b + ":" + s, [b, s], f, b + ":" + s + "." + f);
    PartialText(s, [s], f, s + "." + f);
    assert s + "." == s + ['.'] + "";
    PartialText(s, [s], "", s + ".");
  }

  /** The digits of a part may be in upper or lower case. */
  lemma FieldInAnyCase(field: string, n: nat)
    ensures FieldReads(Lower(field), n) <==> FieldReads(field, n)
  {
    ParseHexInAnyCase(field);
    assert |Lower(field)| == |field|;
    if field != [] {
      assert Lower(field)[0] == LowerChar(field[0]);
    }
  }

  // ---------- Addresses as dictionaries ----------

  /** A dictionary's field leaves the number open, or gives it. */
  predicate DictReads(field: string, n: nat) {
    field == "*" || field == ".*" || ParseHex(field) == Some(n)
  }

  predicate DictOk(field: string, maxval: nat) {
    field == "*" || field == ".*" || (ParseHex(field).Some? && ParseHex(field).value <= maxval)
  }

  lemma DictField(field: string, maxval: nat, w: nat)
    requires w > 0 && maxval < Pow16(w) && DictOk(field, maxval)
    ensures PatternField(field, w, maxval).Success? && PatternField(field, w, maxval).value.Atoms?
    ensures var atoms := PatternField(field, w, maxval).value.atoms;
            |atoms| == w && forall n :: 0 <= n <= maxval ==> (Matches(atoms, HexText(n, w)) <==> DictReads(field, n))
  {
    if field == ANY || field == REGEX_ANY {
      forall n: nat { MatchHexAny(n, w); }
    } else {
      var x := ParseHex(field).value;
      forall n: nat | n <= maxval ensures Matches(Literal(HexText(x, w)), HexText(n, w)) <==> DictReads(field, n) {
        MatchLiteral(x, n, w);
      }
    }
  }

  /** A dictionary of numbers and wildcards, padded or not, matches the devices with these numbers. */
  lemma DictAgreesWithNumbers(f: Fields, engine: Option<set<Pci>>, a: Pci)
    requires DictOk(f.domain, 0xFFFF) && DictOk(f.bus, 0xFF) && DictOk(f.slot, 0x1F) && DictOk(f.function_, 0x7)
    ensures CompileFields(f, engine).Success?
    ensures Hits(CompileFields(f, engine).value, a) <==>
            DictReads(f.domain, a.domain) && DictReads(f.bus, a.bus)
            && DictReads(f.slot, a.slot) && DictReads(f.function_, a.function_)
  {
    Widths();
    DictField(f.domain, MAX_DOMAIN, 4);
    DictField(f.bus, MAX_BUS, 2);
    DictField(f.slot, MAX_SLOT, 2);
    DictField(f.function_, MAX_FUNC, 1);
    var d := PatternField(f.domain, 4, MAX_DOMAIN).value.atoms;
    var b := PatternField(f.bus, 2, MAX_BUS).value.atoms;
    var s := PatternField(f.slot, 2, MAX_SLOT).value.atoms;
    var u := PatternField(f.function_, 1, MAX_FUNC).value.atoms;
    CompileAtoms(f, engine, d, b, s, u);
    HitsJoin(d, b, s, u, a);
  }

  lemma CompileAtoms(f: Fields, engine: Option<set<Pci>>, d: seq<Atom>, b: seq<Atom>, s: seq<Atom>, u: seq<Atom>)
    requires PatternField(f.domain, 4, MAX_DOMAIN) == Success(Atoms(d)) && PatternField(f.bus, 2, MAX_BUS) == Success(Atoms(b))
    requires PatternField(f.slot, 2, MAX_SLOT) == Success(Atoms(s)) && PatternField(f.function_, 1, MAX_FUNC) == Success(Atoms(u))
    ensures CompileFields(f, engine) == Success(Fixed(JoinAtoms(d, b, s, u)))
  {}

  lemma HitsJoin(d: seq<Atom>, b: seq<Atom>, s: seq<Atom>, u: seq<Atom>, a: Pci)
    requires |d| == 4 && |b| == 2 && |s| == 2
    ensures Hits(Fixed(JoinAtoms(d, b, s, u)), a)
       <==> Matches(d, HexText(a.domain, 4)) && Matches(b, HexText(a.bus, 2))
            && Matches(s, HexText(a.slot, 2)) && Matches(u, HexText(a.function_, 1))
  {
    MatchJoin(d, b, s, u, a);
  }

  lemma DictFieldTooLarge(field: string, maxval: nat, w: nat)
    requires ParseHex(field).Some? && ParseHex(field).value > maxval
    ensures PatternField(field, w, maxval).Failure?
  {
    NotAnyWhenHex(field);
  }

  /** A number out of range is refused, whatever the other fields hold. */
  lemma DictOutOfRange(f: Fields, engine: Option<set<Pci>>)
    requires || (ParseHex(f.domain).Some? && ParseHex(f.domain).value > 0xFFFF)
             || (ParseHex(f.bus).Some? && ParseHex(f.bus).value > 0xFF)
             || (ParseHex(f.slot).Some? && ParseHex(f.slot).value > 0x1F)
             || (ParseHex(f.function_).Some? && ParseHex(f.function_).value > 0x7)
    ensures CompileFields(f, engine).Failure?
  {
    if ParseHex(f.domain).Some? && ParseHex(f.domain).value > MAX_DOMAIN {
      DictFieldTooLarge(f.domain, MAX_DOMAIN, 4);
    } else if ParseHex(f.bus).Some? && ParseHex(f.bus).value > MAX_BUS {
      DictFieldTooLarge(f.bus, MAX_BUS, 2);
    } else if ParseHex(f.slot).Some? && ParseHex(f.slot).value > MAX_SLOT {
      DictFieldTooLarge(f.slot, MAX_SLOT, 2);
    } else {
      DictFieldTooLarge(f.function_, MAX_FUNC, 1);
    }
  }
}
