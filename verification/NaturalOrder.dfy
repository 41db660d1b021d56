/** The natural order of interface names: text and numbers compared by turns. */
module NaturalOrder {
  import Sorting
  import opened Strings

  // ---------- Lexicographic order ----------

  ghost predicate StrictTotal<T(!new)>(lt: (T, T) -> bool) {
    && (forall x :: !lt(x, x))
    && (forall x, y :: x == y || lt(x, y) || lt(y, x))
    && (forall x, y, z :: lt(x, y) && lt(y, z) ==> lt(x, z))
  }

  /** How Python compares two lists, or two strings, given a strict order of what they hold. */
  predicate LexLe<T(==)>(lt: (T, T) -> bool, a: seq<T>, b: seq<T>) {
    if a == [] then true
    else if b == [] then false
    else if a[0] == b[0] then LexLe(lt, a[1..], b[1..])
    else lt(a[0], b[0])
  }

  lemma {:induction false} LexTotal<T(!new)>(lt: (T, T) -> bool, a: seq<T>, b: seq<T>)
    requires StrictTotal(lt)
    ensures LexLe(lt, a, b) || LexLe(lt, b, a)
  {
    if a != [] && b != [] && a[0] == b[0] {
      LexTotal(lt, a[1..], b[1..]);
    }
  }

  lemma {:induction false} LexAntisymmetric<T(!new)>(lt: (T, T) -> bool, a: seq<T>, b: seq<T>)
    requires StrictTotal(lt) && LexLe(lt, a, b) && LexLe(lt, b, a)
    ensures a == b
  {
    if a != [] && b != [] {
      LexAntisymmetric(lt, a[1..], b[1..]);
      assert a == [a[0]] + a[1..] && b == [b[0]] + b[1..];
    }
  }

  lemma {:induction false} LexTransitive<T(!new)>(lt: (T, T) -> bool, a: seq<T>, b: seq<T>, c: seq<T>)
    requires StrictTotal(lt) && LexLe(lt, a, b) && LexLe(lt, b, c)
    ensures LexLe(lt, a, c)
  {
    if a != [] {
      if a[0] == b[0] && b[0] == c[0] {
        LexTransitive(lt, a[1..], b[1..], c[1..]);
      } else if a[0] != b[0] && b[0] != c[0] {
        assert lt(a[0], c[0]);
        assert a[0] != c[0];
      }
    }
  }

  const CHAR_LT: (char, char) -> bool := (x, y) => x < y

  // ---------- Keys ----------

  datatype Part = Word(text: string) | Number(value: nat)

  /** The longest prefix of digits, or of characters that are none. */
  function Prefix(s: string, digits: bool): (p: string)
    ensures |p| <= |s| && s[..|p|] == p
    ensures forall c :: c in p ==> IsDigit(c) == digits
    ensures |p| < |s| ==> IsDigit(s[|p|]) != digits
  {
    if s == [] || IsDigit(s[0]) != digits then [] else [s[0]] + Prefix(s[1..], digits)
  }

  /** _natural_sort_key */
  function NaturalKey(s: string): seq<Part>
    decreases |s|
  {
    var word := Prefix(s, false);
    var rest := s[|word|..];
    if rest == [] then [Word(word)]
    else
      var digits := Prefix(rest, true);
      assert digits != [];
      [Word(word), Number(ParseDecimal(digits))] + NaturalKey(rest[|digits|..])
  }

  /** The key begins and ends with text, and text and numbers take turns. */
  predicate Alternates(k: seq<Part>) {
    |k| % 2 == 1 && forall i :: 0 <= i < |k| ==> (k[i].Word? <==> i % 2 == 0)
  }

  lemma AlternatesBefore(w: string, n: nat, k: seq<Part>)
    requires Alternates(k)
    ensures Alternates([Word(w), Number(n)] + k)
  {}

  lemma {:induction false} KeysAlternate(s: string)
    ensures Alternates(NaturalKey(s))
    decreases |s|
  {
    var word := Prefix(s, false);
    var rest := s[|word|..];
    if rest != [] {
      var digits := Prefix(rest, true);
      KeysAlternate(rest[|digits|..]);
      AlternatesBefore(word, ParseDecimal(digits), NaturalKey(rest[|digits|..]));
    }
  }

  /** Comparing two keys never compares a text with a number. */
  lemma KindsAgree(s: string, t: string, i: nat)
    requires i < |NaturalKey(s)| && i < |NaturalKey(t)|
    ensures NaturalKey(s)[i].Word? == NaturalKey(t)[i].Word?
  {
    KeysAlternate(s);
    KeysAlternate(t);
  }

  // The order of a text and a number does not matter: KindsAgree says the case does not arise.
  predicate PartLt(x: Part, y: Part) {
    match (x, y)
    case (Word(a), Word(b)) => a != b && LexLe(CHAR_LT, a, b)
    case (Number(m), Number(n)) => m < n
    case (Word(_), Number(_)) => true
    case (Number(_), Word(_)) => false
  }

  const PART_LT: (Part, Part) -> bool := (x, y) => PartLt(x, y)

  lemma PartLtTransitive(x: Part, y: Part, z: Part)
    requires PartLt(x, y) && PartLt(y, z)
    ensures PartLt(x, z)
  {
    if x.Word? && y.Word? && z.Word? {
      LexTransitive(CHAR_LT, x.text, y.text, z.text);
      if x.text == z.text {
        LexAntisymmetric(CHAR_LT, x.text, y.text);
      }
    }
  }

  lemma PartOrder()
    ensures StrictTotal(PART_LT)
  {
    forall x, y ensures x == y || PART_LT(x, y) || PART_LT(y, x) {
      if x.Word? && y.Word? {
        LexTotal(CHAR_LT, x.text, y.text);
      }
    }
    forall x, y, z | PART_LT(x, y) && PART_LT(y, z) ensures PART_LT(x, z) {
      PartLtTransitive(x, y, z);
    }
  }

  /** The order in which names are sorted. */
  predicate NameLe(s: string, t: string) {
    LexLe(PART_LT, NaturalKey(s), NaturalKey(t))
  }

  const NAME_LE: (string, string) -> bool := (s, t) => NameLe(s, t)

  /** Natural order is a total preorder on names, and names of equal rank have equal keys. */
  lemma NaturalOrderIsTotal()
    ensures Sorting.TotalPreorder(NAME_LE)
    ensures forall s, t :: NAME_LE(s, t) && NAME_LE(t, s) ==> NaturalKey(s) == NaturalKey(t)
  {
    PartOrder();
    forall s, t ensures NAME_LE(s, t) || NAME_LE(t, s) {
      LexTotal(PART_LT, NaturalKey(s), NaturalKey(t));
    }
    forall s, t, u | NAME_LE(s, t) && NAME_LE(t, u) ensures NAME_LE(s, u) {
      LexTransitive(PART_LT, NaturalKey(s), NaturalKey(t), NaturalKey(u));
    }
    forall s, t | NAME_LE(s, t) && NAME_LE(t, s) ensures NaturalKey(s) == NaturalKey(t) {
      LexAntisymmetric(PART_LT, NaturalKey(s), NaturalKey(t));
    }
  }

  // ---------- What comes first ----------

  /** The one name is sorted strictly before the other. */
  predicate Before(s: string, t: string) {
    NAME_LE(s, t) && !NAME_LE(t, s)
  }

  predicate StartsWithDigit(s: string) {
    s != [] && IsDigit(s[0])
  }

  predicate EndsWithDigit(s: string) {
    s != [] && IsDigit(s[|s| - 1])
  }

  lemma {:induction false} PrefixOf(a: string, b: string, digits: bool)
    requires forall c :: c in a ==> IsDigit(c) == digits
    requires b != [] ==> IsDigit(b[0]) != digits
    ensures Prefix(a + b, digits) == a
  {
    if a == [] {
      assert a + b == b;
    } else {
      assert a[0] in a;
      assert (a + b)[1..] == a[1..] + b;
      PrefixOf(a[1..], b, digits);
    }
  }

  /** A name's key, when it is a word, a number and the rest. */
  lemma {:induction false} KeyOf(word: string, digits: string, rest: string)
    requires forall c :: c in word ==> !IsDigit(c)
    requires digits != [] && forall c :: c in digits ==> IsDigit(c)
    requires !StartsWithDigit(rest)
    ensures NaturalKey(word + (digits + rest)) == [Word(word), Number(ParseDecimal(digits))] + NaturalKey(rest)
  {
    var s := word + (digits + rest);
    assert digits[0] in digits;
    PrefixOf(word, digits + rest, false);
    assert s[|word|..] == digits + rest;
    PrefixOf(digits, rest, true);
    assert (digits + rest)[|digits|..] == rest;
  }

  lemma LexCons<T>(lt: (T, T) -> bool, x: T, a: seq<T>, b: seq<T>)
    ensures LexLe(lt, [x] + a, [x] + b) <==> LexLe(lt, a, b)
  {
    assert ([x] + a)[1..] == a && ([x] + b)[1..] == b;
  }

  ghost predicate KeyBefore(a: seq<Part>, b: seq<Part>) {
    LexLe(PART_LT, a, b) && !LexLe(PART_LT, b, a)
  }

  lemma BeforeIff(s: string, t: string, a: seq<Part>, b: seq<Part>)
    requires NaturalKey(s) == a && NaturalKey(t) == b
    ensures Before(s, t) <==> KeyBefore(a, b)
  {}

  lemma KeysCommon(x: Part, y: Part, a: seq<Part>, b: seq<Part>)
    ensures KeyBefore([x, y] + a, [x, y] + b) <==> KeyBefore(a, b)
  {
    assert [x, y] + a == [x] + ([y] + a) && [x, y] + b == [x] + ([y] + b);
    LexCons(PART_LT, x, [y] + a, [y] + b);
    LexCons(PART_LT, y, a, b);
    LexCons(PART_LT, x, [y] + b, [y] + a);
    LexCons(PART_LT, y, b, a);
  }

  /** A word and a number that two names begin with do not matter. */
  lemma SameBeginning(word: string, digits: string, s: string, t: string)
    requires forall c :: c in word ==> !IsDigit(c)
    requires digits != [] && forall c :: c in digits ==> IsDigit(c)
    requires !StartsWithDigit(s) && !StartsWithDigit(t)
    ensures Before(word + (digits + s), word + (digits + t)) <==> Before(s, t)
  {
    var a, b := NaturalKey(s), NaturalKey(t);
    var x, y := Word(word), Number(ParseDecimal(digits));
    KeyOf(word, digits, s);
    KeyOf(word, digits, t);
    BeforeIff(word + (digits + s), word + (digits + t), [x, y] + a, [x, y] + b);
    KeysCommon(x, y, a, b);
    BeforeIff(s, t, a, b);
  }

  /** The first word and number of a text with a digit in it, and what is behind them. */
  lemma FirstNumber(w: string) returns (word: string, digits: string, rest: string)
    requires exists c :: c in w && IsDigit(c)
    ensures w == word + digits + rest && |rest| < |w|
    ensures forall c :: c in word ==> !IsDigit(c)
    ensures digits != [] && forall c :: c in digits ==> IsDigit(c)
    ensures !StartsWithDigit(rest)
    ensures !EndsWithDigit(w) ==> rest != [] && !EndsWithDigit(rest)
  {
    word := Prefix(w, false);
    var behind := w[|word|..];
    assert w == word + behind;
    digits := Prefix(behind, true);
    rest := behind[|digits|..];
    assert behind == digits + rest;
    if rest != [] {
      assert w[|w| - 1] == rest[|rest| - 1];
    } else {
      assert w[|w| - 1] == digits[|digits| - 1] && digits[|digits| - 1] in digits;
    }
  }

  lemma Regroup(a: string, b: string, c: string, d: string)
    ensures a + b + c + d == a + (b + (c + d))
  {}

  /** What two names have in common up to the first number can be dropped. */
  lemma DropNumber(w: string, y: string, z: string) returns (rest: string)
    requires exists c :: c in w && IsDigit(c)
    requires EndsWithDigit(w) ==> !StartsWithDigit(y) && !StartsWithDigit(z)
    ensures |rest| < |w| && (!EndsWithDigit(w) ==> !EndsWithDigit(rest))
    ensures EndsWithDigit(rest) ==> EndsWithDigit(w)
    ensures Before(w + y, w + z) <==> Before(rest + y, rest + z)
  {
    var word, digits;
    word, digits, rest := FirstNumber(w);
    Regroup(word, digits, rest, y);
    Regroup(word, digits, rest, z);
    SameBeginning(word, digits, rest + y, rest + z);
  }

  /** Of two names that differ at non-digits, the one with the smaller character comes first. */
  lemma {:induction false} CharactersAscend(w: string, c: char, d: char, s: string, t: string)
    requires !IsDigit(c) && !IsDigit(d) && c < d
    ensures Before(w + ([c] + s), w + ([d] + t))
    decreases |w|
  {
    if exists x :: x in w && IsDigit(x) {
      var rest := DropNumber(w, [c] + s, [d] + t);
      CharactersAscend(rest, c, d, s, t);
    } else {
      var a := FirstWord(w, c, s);
      var b := FirstWord(w, d, t);
      WordsAscend(w, c, d, a, b);
      FirstDecides(w + ([c] + s), w + ([d] + t));
    }
  }

  /** The first word decides, when it differs. */
  lemma FirstDecides(s: string, t: string)
    requires PartLt(NaturalKey(s)[0], NaturalKey(t)[0]) && !PartLt(NaturalKey(t)[0], NaturalKey(s)[0])
    ensures Before(s, t)
  {
    KeysByFirst(NaturalKey(s), NaturalKey(t));
    BeforeIff(s, t, NaturalKey(s), NaturalKey(t));
  }

  /** The first word of a name reaches beyond the non-digits it begins with. */
  lemma FirstWord(w: string, c: char, s: string) returns (more: string)
    requires !IsDigit(c) && forall x :: x in w ==> !IsDigit(x)
    ensures NaturalKey(w + ([c] + s))[0] == Word(w + ([c] + more))
  {
    more := Prefix(s, false);
    var word := w + ([c] + more);
    assert w + ([c] + s) == word + s[|more|..];
    PrefixOf(word, s[|more|..], false);
  }

  lemma {:induction false} WordsAscend(w: string, c: char, d: char, a: string, b: string)
    requires c < d
    ensures LexLe(CHAR_LT, w + ([c] + a), w + ([d] + b)) && !LexLe(CHAR_LT, w + ([d] + b), w + ([c] + a))
  {
    if w != [] {
      WordsAscend(w[1..], c, d, a, b);
      assert w + ([c] + a) == [w[0]] + (w[1..] + ([c] + a));
      assert w + ([d] + b) == [w[0]] + (w[1..] + ([d] + b));
    }
  }

  lemma KeysByFirst(a: seq<Part>, b: seq<Part>)
    requires a != [] && b != [] && PartLt(a[0], b[0]) && !PartLt(b[0], a[0])
    ensures KeyBefore(a, b)
  {}

  /** Of two names that differ in a number, the one with the smaller number comes first. */
  lemma {:induction false} NumbersAscend(w: string, m: nat, n: nat, s: string, t: string)
    requires !EndsWithDigit(w) && m < n && !StartsWithDigit(s) && !StartsWithDigit(t)
    ensures Before(w + (Decimal(m) + s), w + (Decimal(n) + t))
    decreases |w|
  {
    if exists x :: x in w && IsDigit(x) {
      var rest := DropNumber(w, Decimal(m) + s, Decimal(n) + t);
      NumbersAscend(rest, m, n, s, t);
    } else {
      DecimalRoundTrip(m);
      DecimalRoundTrip(n);
      WordsThenNumbers(w, Decimal(m), Decimal(n), s, t);
    }
  }

  predicate AllDigits(s: string) {
    s != [] && forall c :: c in s ==> IsDigit(c)
  }

  lemma WordsThenNumbers(w: string, x: string, y: string, s: string, t: string)
    requires (forall c :: c in w ==> !IsDigit(c)) && AllDigits(x) && AllDigits(y)
    requires ParseDecimal(x) < ParseDecimal(y) && !StartsWithDigit(s) && !StartsWithDigit(t)
    ensures Before(w + (x + s), w + (y + t))
  {
    var a, b, m, n := NaturalKey(s), NaturalKey(t), ParseDecimal(x), ParseDecimal(y);
    KeyOf(w, x, s);
    KeyOf(w, y, t);
    SecondDecides(Word(w), Number(m), Number(n), a, b);
    BeforeIff(w + (x + s), w + (y + t), [Word(w), Number(m)] + a, [Word(w), Number(n)] + b);
  }

  lemma SecondDecides(x: Part, y: Part, z: Part, a: seq<Part>, b: seq<Part>)
    requires PartLt(y, z) && !PartLt(z, y)
    ensures KeyBefore([x, y] + a, [x, z] + b)
  {
    assert [x, y] + a == [x] + ([y] + a) && [x, z] + b == [x] + ([z] + b);
    LexCons(PART_LT, x, [y] + a, [z] + b);
    LexCons(PART_LT, x, [z] + b, [y] + a);
    KeysByFirst([y] + a, [z] + b);
  }

  /** A name that ends, or goes on with a number, comes before one that goes on with a non-digit. */
  lemma {:induction false} EndComesFirst(w: string, s: string, d: char, t: string)
    requires !IsDigit(d) && (s == [] || (StartsWithDigit(s) && !EndsWithDigit(w)))
    ensures Before(w + s, w + ([d] + t))
    decreases |w|
  {
    if exists x :: x in w && IsDigit(x) {
      var rest := DropNumber(w, s, [d] + t);
      EndComesFirst(rest, s, d, t);
    } else {
      var b := FirstWord(w, d, t);
      PrefixOf(w, s, false);
      LongerWordLater(w, [d] + b);
      FirstDecides(w + s, w + ([d] + t));
    }
  }

  lemma {:induction false} LongerWordLater(w: string, more: string)
    requires more != []
    ensures LexLe(CHAR_LT, w, w + more) && !LexLe(CHAR_LT, w + more, w)
  {
    if w != [] {
      LongerWordLater(w[1..], more);
      assert w + more == [w[0]] + (w[1..] + more);
    }
  }
}
