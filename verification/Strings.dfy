/** The string operations of the standard library that the models share. */
module Strings {
  import opened Wrappers

  /** `s.split(sep)`. */
  function Split(s: string, sep: char): (parts: seq<string>)
    ensures |parts| >= 1
  {
    if s == [] then
      [""]
    else
      var rest := Split(s[1..], sep);
      if s[0] == sep then [""] + rest else [[s[0]] + rest[0]] + rest[1..]
  }

  lemma {:induction false} SplitWithout(s: string, sep: char)
    requires sep !in s
    ensures Split(s, sep) == [s]
  {
    if s != [] {
      SplitWithout(s[1..], sep);
      assert s[0] in s && [s[0]] + s[1..] == s;
    }
  }

  lemma {:induction false} SplitAt(a: string, sep: char, b: string)
    requires sep !in a
    ensures Split(a + [sep] + b, sep) == [a] + Split(b, sep)
  {
    var s := a + [sep] + b;
    if a == [] {
      assert s[1..] == b;
    } else {
      SplitAt(a[1..], sep, b);
      assert s[1..] == a[1..] + [sep] + b;
      assert a[0] in a && [a[0]] + a[1..] == a;
    }
  }

  lemma {:induction false} SplitLast(a: string, sep: char, b: string)
    requires sep !in b
    ensures Split(a + [sep] + b, sep) == Split(a, sep) + [b]
  {
    var s := a + [sep] + b;
    if a == [] {
      assert s[1..] == b;
      SplitWithout(b, sep);
    } else {
      SplitLast(a[1..], sep, b);
      assert s[1..] == a[1..] + [sep] + b;
    }
  }

  /** `sep.join(s)` */
  function Joined(s: seq<string>, sep: string): string {
    if s == [] then "" else if |s| == 1 then s[0] else Joined(s[..|s| - 1], sep) + sep + s[|s| - 1]
  }

  /** Splitting undoes joining. */
  lemma {:induction false} SplitJoined(parts: seq<string>, sep: char)
    requires parts != [] && forall c :: c in parts ==> sep !in c
    ensures Split(Joined(parts, [sep]), sep) == parts
  {
    var front, last := parts[..|parts| - 1], parts[|parts| - 1];
    assert parts == front + [last];
    if front == [] {
      SplitWithout(last, sep);
    } else {
      SplitJoined(front, sep);
      SplitLast(Joined(front, [sep]), sep, last);
    }
  }

  /** The text before and after the first `sep`; all of `s` and nothing when there is none. */
  function Partition(s: string, sep: char): (string, string) {
    if s == [] then
      ("", "")
    else if s[0] == sep then
      ("", s[1..])
    else
      var (before, after) := Partition(s[1..], sep);
      ([s[0]] + before, after)
  }

  lemma {:induction false} PartitionAt(a: string, sep: char, b: string)
    requires sep !in a
    ensures Partition(a + [sep] + b, sep) == (a, b)
  {
    var s := a + [sep] + b;
    if a == [] {
      assert s[1..] == b;
    } else {
      PartitionAt(a[1..], sep, b);
      assert s[1..] == a[1..] + [sep] + b;
      assert a[0] in a && [a[0]] + a[1..] == a;
    }
  }

  predicate IsSpace(c: char) {
    c == ' ' || '\t' <= c <= '\r' || '\U{1C}' <= c <= '\U{1F}'
  }

  function StripLeft(s: string): string {
    if s != [] && IsSpace(s[0]) then StripLeft(s[1..]) else s
  }

  function StripRight(s: string): string {
    if s != [] && IsSpace(s[|s| - 1]) then StripRight(s[..|s| - 1]) else s
  }

  /** `s.strip()`. */
  function Strip(s: string): string {
    StripRight(StripLeft(s))
  }

  lemma StripNothing(s: string)
    requires forall c :: c in s ==> !IsSpace(c)
    ensures Strip(s) == s
  {}

  function LowerChar(c: char): char {
    if 'A' <= c <= 'Z' then ((c as int) + 32) as char else c
  }

  /** `s.lower()` on ASCII text. */
  function Lower(s: string): string {
    seq(|s|, i requires 0 <= i < |s| => LowerChar(s[i]))
  }

  /** Capital letters become small ones, and nothing else changes. */
  lemma LowerAlphabet()
    ensures Lower("ABCDEFGHIJKLMNOPQRSTUVWXYZ") == "abcdefghijklmnopqrstuvwxyz"
    ensures forall c :: !('A' <= c <= 'Z') ==> LowerChar(c) == c
  {}

  /** `s.startswith(part, i)`. */
  predicate OccursAt(s: string, part: string, i: nat) {
    i + |part| <= |s| && s[i..i + |part|] == part
  }

  /** `part in s`. */
  predicate Contains(s: string, part: string) {
    exists i :: 0 <= i <= |s| && OccursAt(s, part, i)
  }

  /** `s[-4:]`. */
  function Last4(s: string): string {
    if |s| <= 4 then s else s[|s| - 4..]
  }

  predicate IsDigit(c: char) {
    '0' <= c <= '9'
  }

  /** `int(s)` on decimal digits. */
  function ParseDecimal(s: string): nat
    requires forall c :: c in s ==> IsDigit(c)
  {
    if s == [] then 0
    else
      assert s[|s| - 1] in s && IsDigit(s[|s| - 1]);
      10 * ParseDecimal(s[..|s| - 1]) + (s[|s| - 1] as int - '0' as int)
  }

  /** `'%i' % n` */
  function Decimal(n: nat): (s: string)
    ensures s != [] && forall c :: c in s ==> IsDigit(c)
  {
    (if n < 10 then [] else Decimal(n / 10)) + [('0' as int + n % 10) as char]
  }

  lemma {:induction false} DecimalRoundTrip(n: nat)
    ensures ParseDecimal(Decimal(n)) == n
  {
    var s := Decimal(n);
    assert s[..|s| - 1] == if n < 10 then [] else Decimal(n / 10);
    if n >= 10 {
      DecimalRoundTrip(n / 10);
    }
  }

  /** The digits of a number, the last one last. */
  lemma DecimalDigits(q: nat, d: nat)
    requires d < 10
    ensures Decimal(d) == ["0123456789"[d]]
    ensures q > 0 ==> Decimal(10 * q + d) == Decimal(q) + ["0123456789"[d]]
  {
    assert (10 * q + d) / 10 == q && (10 * q + d) % 10 == d;
  }

  /** `part in s`: the text is the part with something before and something behind it. */
  lemma ContainsIff(s: string, part: string)
    ensures Contains(s, part) <==> exists a, b :: s == a + part + b
  {
    if i :| 0 <= i <= |s| && OccursAt(s, part, i) {
      assert s == s[..i] + part + s[i + |part|..];
    }
    if a, b :| s == a + part + b {
      assert s[|a|..|a| + |part|] == part;
      assert OccursAt(s, part, |a|);
    }
  }

  /** Blanks around a text that neither begins nor ends with one are stripped, and nothing else. */
  lemma {:induction false} StripBlanks(before: string, t: string, after: string)
    requires forall c :: c in before + after ==> IsSpace(c)
    requires t != [] ==> !IsSpace(t[0]) && !IsSpace(t[|t| - 1])
    ensures Strip(before + t + after) == t
    decreases |before| + |after|
  {
    if before != [] {
      assert before[0] in before + after;
      assert (before + t + after)[1..] == before[1..] + t + after;
      StripBlanks(before[1..], t, after);
    } else if t == [] {
      if after != [] {
        assert after[0] in before + after;
        assert (before + t + after)[1..] == after[1..];
        assert before + t + after[1..] == after[1..];
        StripBlanks(before, t, after[1..]);
      }
    } else {
      assert before + t + after == t + after;
      assert StripLeft(t + after) == t + after;
      StripRightBlanks(t, after);
    }
  }

  lemma {:induction false} StripRightBlanks(t: string, after: string)
    requires forall c :: c in after ==> IsSpace(c)
    requires t != [] && !IsSpace(t[|t| - 1])
    ensures StripRight(t + after) == t
  {
    if after == [] {
      assert t + after == t;
    } else {
      assert after[|after| - 1] in after;
      assert (t + after)[..|t + after| - 1] == t + after[..|after| - 1];
      StripRightBlanks(t, after[..|after| - 1]);
    }
  }
}
