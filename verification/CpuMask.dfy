/** The hexadecimal mask of a list of CPUs and CPU ranges. */
module CpuMask {
  import opened Wrappers
  import opened Strings
  import opened Hex
  import opened Sequences
  import Sorting

  // ---------- Bits ----------

  /** The k-th bit of a number. */
  predicate Bit(v: nat, k: nat) {
    if k == 0 then v % 2 == 1 else Bit(v / 2, k - 1)
  }

  /** `a | b` */
  function Or(a: nat, b: nat): nat {
    if a == 0 then b
    else 2 * Or(a / 2, b / 2) + if a % 2 == 1 || b % 2 == 1 then 1 else 0
  }

  function Pow2(n: nat): nat {
    if n == 0 then 1 else 2 * Pow2(n - 1)
  }

  lemma {:induction false} ZeroBit(k: nat)
    ensures !Bit(0, k)
  {
    if k > 0 {
      ZeroBit(k - 1);
    }
  }

  lemma {:induction false} OrBit(a: nat, b: nat, k: nat)
    ensures Bit(Or(a, b), k) <==> Bit(a, k) || Bit(b, k)
  {
    if a == 0 {
      ZeroBit(k);
    } else if k > 0 {
      OrBit(a / 2, b / 2, k - 1);
      assert Or(a, b) / 2 == Or(a / 2, b / 2);
    }
  }

  lemma {:induction false} Pow2Bit(n: nat, k: nat)
    ensures Bit(Pow2(n), k) <==> k == n
  {
    if n == 0 {
      if k > 0 {
        ZeroBit(k - 1);
      }
    } else if k > 0 {
      Pow2Bit(n - 1, k - 1);
    }
  }

  lemma {:induction false} OrBound(a: nat, b: nat, n: nat)
    requires a < Pow2(n) && b < Pow2(n)
    ensures Or(a, b) < Pow2(n)
  {
    if a != 0 {
      assert n > 0;
      OrBound(a / 2, b / 2, n - 1);
    }
  }

  /** Two numbers with the same bits are the same. */
  lemma {:induction false} BitsDetermine(a: nat, b: nat)
    requires forall k: nat :: Bit(a, k) == Bit(b, k)
    ensures a == b
  {
    assert Bit(a, 0) == Bit(b, 0);
    if a != 0 || b != 0 {
      forall k: nat ensures Bit(a / 2, k) == Bit(b / 2, k) {
        assert Bit(a, k + 1) == Bit(b, k + 1);
      }
      BitsDetermine(a / 2, b / 2);
    }
  }

  lemma {:induction false} NonZeroHasBit(d: nat, n: nat)
    requires 0 < d < Pow2(n)
    ensures exists j: nat :: j < n && Bit(d, j)
  {
    if d % 2 == 1 {
      assert n > 0;
      assert Bit(d, 0);
    } else {
      NonZeroHasBit(d / 2, n - 1);
      var j: nat :| j < n - 1 && Bit(d / 2, j);
      assert Bit(d, j + 1);
    }
  }

  lemma {:induction false} BoundHasNoBit(d: nat, n: nat, k: nat)
    requires d < Pow2(n) && n <= k
    ensures !Bit(d, k)
  {
    if n == 0 {
      ZeroBit(k);
    } else {
      BoundHasNoBit(d / 2, n - 1, k - 1);
    }
  }

  // ---------- Hexadecimal numerals ----------

  predicate AllHex(s: string) {
    forall c :: c in s ==> HexDigit(c).Some?
  }

  /** The number that a hexadecimal numeral stands for. */
  function HexValue(s: string): nat
    requires AllHex(s)
  {
    if s == [] then 0
    else
      assert s[|s| - 1] in s;
      16 * HexValue(s[..|s| - 1]) + HexDigit(s[|s| - 1]).value
  }

  lemma {:induction false} HexValueIsParsed(s: string)
    requires AllHex(s) && s != []
    ensures ParseHex(s) == Some(HexValue(s))
  {
    assert s[|s| - 1] in s;
    if |s| > 1 {
      HexValueIsParsed(s[..|s| - 1]);
    } else {
      assert HexValue(s[..0]) == 0;
    }
  }

  lemma DigitBound(c: char)
    requires HexDigit(c).Some?
    ensures HexDigit(c).value < Pow2(4)
  {}

  lemma BitOfShifted(v: nat, d: nat, k: nat)
    requires d < 16
    ensures Bit(16 * v + d, k) <==> if k < 4 then Bit(d, k) else Bit(v, k - 4)
  {
    var w := 16 * v + d;
    assert w / 2 == 8 * v + d / 2;
    assert w / 2 / 2 == 4 * v + d / 2 / 2;
    assert w / 2 / 2 / 2 == 2 * v + d / 2 / 2 / 2;
    assert w / 2 / 2 / 2 / 2 == v;
    if k >= 1 {
      assert Bit(w, k) == Bit(w / 2, k - 1) && Bit(d, k) == Bit(d / 2, k - 1);
    }
    if k >= 2 {
      assert Bit(w, k) == Bit(w / 2 / 2, k - 2) && Bit(d, k) == Bit(d / 2 / 2, k - 2);
    }
    if k >= 3 {
      assert Bit(w, k) == Bit(w / 2 / 2 / 2, k - 3) && Bit(d, k) == Bit(d / 2 / 2 / 2, k - 3);
    }
  }

  /** A bit of the number is a bit of the digit that holds it. */
  lemma {:induction false} BitOfNumeral(s: string, k: nat)
    requires AllHex(s)
    ensures Bit(HexValue(s), k) <==> k / 4 < |s| && s[|s| - 1 - k / 4] in s
                                     && Bit(HexDigit(s[|s| - 1 - k / 4]).value, k % 4)
  {
    if s == [] {
      ZeroBit(k);
    } else {
      var front, last := s[..|s| - 1], s[|s| - 1];
      assert last in s;
      DigitBound(last);
      assert Pow2(4) == 16 by {
        assert Pow2(2) == 4;
      }
      BitOfShifted(HexValue(front), HexDigit(last).value, k);
      if k >= 4 {
        BitOfNumeral(front, k - 4);
        assert (k - 4) / 4 == k / 4 - 1 && (k - 4) % 4 == k % 4;
        assert k / 4 < |s| ==> front[|front| - 1 - (k / 4 - 1)] == s[|s| - 1 - k / 4];
      }
    }
  }

  // ---------- Bytes ----------

  predicate AreBytes(bytes: seq<nat>) {
    forall i :: 0 <= i < |bytes| ==> bytes[i] < 256
  }

  /** `binascii.hexlify` */
  function Hexlify(bytes: seq<nat>): (s: string)
    ensures |s| == 2 * |bytes|
  {
    if bytes == [] then "" else Hexlify(bytes[..|bytes| - 1]) + HexText(bytes[|bytes| - 1], 2)
  }

  function Reversed(bytes: seq<nat>): (r: seq<nat>)
    ensures |r| == |bytes|
    ensures forall i :: 0 <= i < |r| ==> r[i] == bytes[|bytes| - 1 - i]
  {
    seq(|bytes|, i requires 0 <= i < |bytes| => bytes[|bytes| - 1 - i])
  }

  lemma HexTextIsHex(v: nat, w: nat)
    ensures AllHex(HexText(v, w))
  {}

  lemma {:induction false} HexlifyIsHex(bytes: seq<nat>)
    ensures AllHex(Hexlify(bytes))
  {
    if bytes != [] {
      HexlifyIsHex(bytes[..|bytes| - 1]);
      HexTextIsHex(bytes[|bytes| - 1], 2);
    }
  }

  lemma BitOfDigit(s: string, d: nat, k: nat)
    requires AllHex(s) && d < 16
    ensures AllHex(s + [HexChar(d)]) && HexDigit(HexChar(d)) == Some(d)
    ensures Bit(HexValue(s + [HexChar(d)]), k) <==> if k < 4 then Bit(d, k) else Bit(HexValue(s), k - 4)
  {
    assert (s + [HexChar(d)])[..|s|] == s;
    BitOfShifted(HexValue(s), d, k);
  }

  lemma TwoDigits(s: string, hi: nat, lo: nat, k: nat)
    requires AllHex(s) && hi < 16 && lo < 16
    ensures AllHex(s + [HexChar(hi)] + [HexChar(lo)])
    ensures Bit(HexValue(s + [HexChar(hi)] + [HexChar(lo)]), k) <==>
            if k < 8 then Bit(16 * hi + lo, k) else Bit(HexValue(s), k - 8)
  {
    var front := s + [HexChar(hi)];
    BitOfDigit(s, hi, if k < 4 then 0 else k - 4);
    BitOfDigit(front, lo, k);
    BitOfShifted(hi, lo, k);
  }

  lemma ByteText(b: nat)
    requires b < 256
    ensures b / 16 < 16 && HexText(b, 2) == [HexChar(b / 16)] + [HexChar(b % 16)]
  {
    assert HexText(b / 16 / 16, 0) == "";
    assert HexText(b / 16, 1) == [HexChar(b / 16 % 16)];
  }

  /** The two digits of a byte behind a numeral. */
  lemma BitOfByte(s: string, b: nat, k: nat, text: string)
    requires AllHex(s) && b < 256 && text == HexText(b, 2)
    ensures AllHex(s + text)
    ensures Bit(HexValue(s + text), k) <==> if k < 8 then Bit(b, k) else Bit(HexValue(s), k - 8)
  {
    ByteText(b);
    var hi, lo := b / 16, b % 16;
    assert s + text == s + [HexChar(hi)] + [HexChar(lo)];
    TwoDigits(s, hi, lo, k);
  }

  lemma FirstByteLast(bytes: seq<nat>)
    requires bytes != []
    ensures AllHex(Hexlify(Reversed(bytes))) && AllHex(Hexlify(Reversed(bytes[1..])))
    ensures Hexlify(Reversed(bytes)) == Hexlify(Reversed(bytes[1..])) + HexText(bytes[0], 2)
  {
    var rest := bytes[1..];
    HexlifyIsHex(Reversed(bytes));
    HexlifyIsHex(Reversed(rest));
    assert Reversed(bytes)[..|rest|] == Reversed(rest);
  }

  lemma ByteIndex(k: nat)
    ensures if k < 8 then k / 8 == 0 && k % 8 == k else (k - 8) / 8 == k / 8 - 1 && (k - 8) % 8 == k % 8
  {}

  lemma BitOfFirst(bytes: seq<nat>, k: nat)
    requires AreBytes(bytes) && bytes != []
    ensures AllHex(Hexlify(Reversed(bytes))) && AllHex(Hexlify(Reversed(bytes[1..])))
    ensures Bit(HexValue(Hexlify(Reversed(bytes))), k) <==>
            if k < 8 then Bit(bytes[0], k) else Bit(HexValue(Hexlify(Reversed(bytes[1..]))), k - 8)
  {
    FirstByteLast(bytes);
    BitOfByte(Hexlify(Reversed(bytes[1..])), bytes[0], k, HexText(bytes[0], 2));
  }

  lemma BitOfNone(k: nat)
    ensures Hexlify(Reversed([])) == "" && !Bit(HexValue(""), k)
  {
    ZeroBit(k);
  }

  type BitReader = (seq<nat>, nat) -> bool

  /** The first byte is read for the lowest bits, the others for the rest. */
  predicate ReadsFirst(bit: BitReader, bytes: seq<nat>, k: nat)
    requires bytes != []
  {
    bit(bytes, k) <==> if k < 8 then Bit(bytes[0], k) else bit(bytes[1..], k - 8)
  }

  ghost predicate ByteByByte(bit: BitReader) {
    && (forall k: nat :: !bit([], k))
    && (forall bytes: seq<nat>, k: nat :: AreBytes(bytes) && bytes != [] ==> ReadsFirst(bit, bytes, k))
  }

  /** Whatever reads bits byte by byte reads those of the bytes. */
  lemma {:induction false} Bytewise(bit: BitReader, bytes: seq<nat>, k: nat)
    requires AreBytes(bytes) && ByteByByte(bit)
    ensures bit(bytes, k) <==> k / 8 < |bytes| && Bit(bytes[k / 8], k % 8)
  {
    ByteIndex(k);
    if bytes != [] {
      assert ReadsFirst(bit, bytes, k);
      if k >= 8 {
        Bytewise(bit, bytes[1..], k - 8);
        assert k / 8 < |bytes| ==> bytes[1..][k / 8 - 1] == bytes[k / 8];
      }
    }
  }

  const PRINTED_BIT: BitReader := (bytes: seq<nat>, k: nat) =>
    AllHex(Hexlify(Reversed(bytes))) && Bit(HexValue(Hexlify(Reversed(bytes))), k)

  lemma PrintedByteByByte()
    ensures ByteByByte(PRINTED_BIT)
  {
    forall k: nat ensures !PRINTED_BIT([], k) {
      BitOfNone(k);
    }
    forall bytes: seq<nat>, k: nat | AreBytes(bytes) && bytes != [] ensures ReadsFirst(PRINTED_BIT, bytes, k) {
      BitOfFirst(bytes, k);
    }
  }

  /** The bits of the printed bytes, most significant byte first, are the bits of the bytes. */
  lemma BitOfBytes(bytes: seq<nat>, k: nat)
    requires AreBytes(bytes)
    ensures AllHex(Hexlify(Reversed(bytes)))
    ensures Bit(HexValue(Hexlify(Reversed(bytes))), k) <==> k / 8 < |bytes| && Bit(bytes[k / 8], k % 8)
  {
    HexlifyIsHex(Reversed(bytes));
    PrintedByteByByte();
    Bytewise(PRINTED_BIT, bytes, k);
  }

  /** `s.lstrip("0")` */
  function StripZeros(s: string): (r: string)
    ensures |r| <= |s| && s[|s| - |r|..] == r
    ensures r != [] ==> r[0] != '0'
    ensures forall i :: 0 <= i < |s| - |r| ==> s[i] == '0'
  {
    if s != [] && s[0] == '0' then StripZeros(s[1..]) else s
  }

  lemma {:induction false} LeadingZero(s: string)
    requires AllHex(s) && s != [] && s[0] == '0'
    ensures AllHex(s[1..]) && HexValue(s) == HexValue(s[1..])
  {
    var last := |s| - 1;
    if last == 0 {
      assert HexValue(s[..last]) == 0;
    } else {
      assert s[..last][1..] == s[1..][..last - 1];
      assert s[1..][last - 1] == s[last];
      LeadingZero(s[..last]);
    }
  }

  /** Stripping zeros keeps the number. */
  lemma {:induction false} StripKeepsValue(s: string)
    requires AllHex(s)
    ensures AllHex(StripZeros(s)) && HexValue(StripZeros(s)) == HexValue(s)
  {
    if s != [] && s[0] == '0' {
      LeadingZero(s);
      StripKeepsValue(s[1..]);
    }
  }

  /** A numeral without leading zeros whose highest bit is the m-th has m / 4 + 1 digits. */
  lemma NumeralLength(s: string, m: nat)
    requires AllHex(s) && (s != [] ==> s[0] != '0')
    requires Bit(HexValue(s), m) && forall k: nat :: k > m ==> !Bit(HexValue(s), k)
    ensures |s| == m / 4 + 1
  {
    BitOfNumeral(s, m);
    assert s[0] in s;
    DigitBound(s[0]);
    NonZeroHasBit(HexDigit(s[0]).value, 4);
    var j: nat :| j < 4 && Bit(HexDigit(s[0]).value, j);
    var k := 4 * (|s| - 1) + j;
    assert k / 4 == |s| - 1 && k % 4 == j;
    BitOfNumeral(s, k);
  }

  // ---------- The list of CPUs ----------

  datatype Error = InvalidNumber | NoCpus

  /** `int(s)` on decimal digits, blanks around them allowed. */
  function ParseInt(s: string): Result<nat, Error> {
    var t := Strip(s);
    if t != [] && (forall c :: c in t ==> IsDigit(c)) then Success(ParseDecimal(t)) else Failure(InvalidNumber)
  }

  function Range(lo: nat, hi: nat): (r: seq<nat>)
    ensures forall x :: x in r <==> lo <= x <= hi
    decreases hi
  {
    if lo > hi then [] else (if hi == 0 then [] else Range(lo, hi - 1)) + [hi]
  }

  /** The CPUs of one item between commas. */
  function ItemCpus(item: string): Result<seq<nat>, Error> {
    if '-' in item then
      var rng := Split(item, '-');
      SplitTwo(item, '-');
      var lo :- ParseInt(rng[0]);
      var hi :- ParseInt(rng[1]);
      Success(Range(lo, hi))
    else
      var cpu :- ParseInt(item);
      Success([cpu])
  }

  lemma {:induction false} SplitTwo(s: string, sep: char)
    requires sep in s
    ensures |Split(s, sep)| >= 2
  {
    if s[0] != sep {
      SplitTwo(s[1..], sep);
    }
  }

  function ItemsCpus(items: seq<string>): Result<seq<nat>, Error> {
    if items == [] then Success([])
    else
      var front :- ItemsCpus(items[..|items| - 1]);
      var last :- ItemCpus(items[|items| - 1]);
      Success(front + last)
  }

  /** The CPUs listed. */
  function Cpus(text: string): Result<seq<nat>, Error> {
    ItemsCpus(Split(text, ','))
  }

  /** A list is read when all its items are, and lists exactly what its items list. */
  lemma {:induction false} ListedCpus(items: seq<string>, cpu: nat)
    ensures ItemsCpus(items).Success? <==> forall i :: 0 <= i < |items| ==> ItemCpus(items[i]).Success?
    ensures ItemsCpus(items).Success? ==>
      (cpu in ItemsCpus(items).value <==>
       exists i :: 0 <= i < |items| && ItemCpus(items[i]).Success? && cpu in ItemCpus(items[i]).value)
  {
    if items != [] {
      var front, last := items[..|items| - 1], items[|items| - 1];
      assert items == front + [last];
      ListedCpus(front, cpu);
    }
  }

  ghost predicate IsMaximum(cpus: seq<nat>, m: nat) {
    m in cpus && forall x :: x in cpus ==> x <= m
  }

  const LE: (nat, nat) -> bool := (x, y) => x <= y

  lemma LastIsMaximum(cpus: seq<nat>)
    requires cpus != []
    ensures var s := Sorting.Sort(LE, cpus);
            s != [] && IsMaximum(cpus, s[|s| - 1]) && forall x :: x in s <==> x in cpus
  {
    var s := Sorting.Sort(LE, cpus);
    Sorting.SortCorrect(LE, cpus);
    Sorting.SameMembers(s, cpus);
    assert s[|s| - 1] in s;
    forall x | x in cpus ensures x <= s[|s| - 1] {
      var i :| 0 <= i < |s| && s[i] == x;
      assert i < |s| - 1 ==> LE(s[i], s[|s| - 1]);
    }
  }

  /** The bits set so far are exactly the listed CPUs. */
  ghost predicate Marked(bytes: seq<nat>, cpus: seq<nat>) {
    && AreBytes(bytes)
    && forall k: nat :: k / 8 < |bytes| ==> (Bit(bytes[k / 8], k % 8) <==> k in cpus)
  }

  lemma MarkOne(bytes: seq<nat>, cpus: seq<nat>, cpu: nat)
    requires Marked(bytes, cpus) && cpu / 8 < |bytes|
    ensures Marked(bytes[cpu / 8 := Or(bytes[cpu / 8], Pow2(cpu % 8))], cpus + [cpu])
  {
    var pos, bit := cpu / 8, cpu % 8;
    var now := bytes[pos := Or(bytes[pos], Pow2(bit))];
    Pow2Bound(bit);
    OrBound(bytes[pos], Pow2(bit), 8);
    forall k: nat | k / 8 < |now| ensures Bit(now[k / 8], k % 8) <==> k in cpus + [cpu] {
      if k / 8 == pos {
        OrBit(bytes[pos], Pow2(bit), k % 8);
        Pow2Bit(bit, k % 8);
        assert k == cpu <==> k % 8 == bit;
      }
    }
  }

  lemma Pow2Bound(bit: nat)
    requires bit < 8
    ensures Pow2(bit) < Pow2(8) == 256
  {}

  /** What the mask of a list of CPUs is: its bits are the CPUs, and it has no more digits than it needs. */
  ghost predicate IsMask(mask: string, cpus: seq<nat>) {
    && AllHex(mask)
    && (forall k: nat :: Bit(HexValue(mask), k) <==> k in cpus)
    && mask != [] && mask[0] != '0'
    && forall m: nat :: IsMaximum(cpus, m) ==> |mask| == m / 4 + 1
  }

  lemma MarkedGivesBit(bytes: seq<nat>, cpus: seq<nat>, m: nat, k: nat)
    requires Marked(bytes, cpus) && IsMaximum(cpus, m) && |bytes| == m / 8 + 1
    ensures AllHex(StripZeros(Hexlify(Reversed(bytes))))
    ensures Bit(HexValue(StripZeros(Hexlify(Reversed(bytes)))), k) <==> k in cpus
  {
    HexlifyIsHex(Reversed(bytes));
    BitOfBytes(bytes, k);
    StripKeepsValue(Hexlify(Reversed(bytes)));
    WithinBytes(bytes, cpus, m, k);
  }

  lemma BitsGiveMask(mask: string, cpus: seq<nat>, m: nat)
    requires AllHex(mask) && (mask != [] ==> mask[0] != '0') && IsMaximum(cpus, m)
    requires forall k: nat :: Bit(HexValue(mask), k) <==> k in cpus
    ensures IsMask(mask, cpus)
  {
    forall k: nat | k > m ensures !Bit(HexValue(mask), k) {}
    NumeralLength(mask, m);
    forall n: nat | IsMaximum(cpus, n) ensures n == m {}
  }

  lemma MarkedGivesMask(bytes: seq<nat>, cpus: seq<nat>, m: nat)
    requires Marked(bytes, cpus) && IsMaximum(cpus, m) && |bytes| == m / 8 + 1
    ensures IsMask(StripZeros(Hexlify(Reversed(bytes))), cpus)
  {
    MarkedGivesBit(bytes, cpus, m, m);
    forall k: nat ensures Bit(HexValue(StripZeros(Hexlify(Reversed(bytes)))), k) <==> k in cpus {
      MarkedGivesBit(bytes, cpus, m, k);
    }
    BitsGiveMask(StripZeros(Hexlify(Reversed(bytes))), cpus, m);
  }

  lemma WithinBytes(bytes: seq<nat>, cpus: seq<nat>, m: nat, k: nat)
    requires Marked(bytes, cpus) && IsMaximum(cpus, m) && |bytes| == m / 8 + 1
    ensures k / 8 < |bytes| && Bit(bytes[k / 8], k % 8) <==> k in cpus
  {}

  /** Lines 203-209: the list expanded. */
  method ExpandCpus(cpuList: string) returns (r: Result<seq<nat>, Error>)
    ensures r.Success? <==> Cpus(cpuList).Success?
    ensures r.Success? ==> r == Cpus(cpuList)
  {
    var cpus: seq<nat> := [];
    var items := Split(cpuList, ',');
    for i := 0 to |items|
      invariant ItemsCpus(items[..i]) == Success(cpus)
    {
      PrefixStep(items, i);
      var more := ItemCpus(items[i]);
      if more.Failure? {
        ItemsFail(items, i + 1);
        return Failure(more.error);
      }
      cpus := cpus + more.value;
    }
    assert items[..|items|] == items;
    r := Success(cpus);
  }

  /** Lines 214-217: the bits set in place. */
  method SetBits(bytes: array<nat>, cpus: seq<nat>)
    requires forall x :: x in cpus ==> x / 8 < bytes.Length
    requires forall i :: 0 <= i < bytes.Length ==> bytes[i] == 0
    modifies bytes
    ensures Marked(bytes[..], cpus)
  {
    forall k: nat ensures !Bit(0, k) {
      ZeroBit(k);
    }
    for i := 0 to |cpus|
      invariant Marked(bytes[..], cpus[..i])
    {
      var pos, bit := cpus[i] / 8, cpus[i] % 8;
      PrefixStep(cpus, i);
      assert cpus[i] in cpus;
      MarkOne(bytes[..], cpus[..i], cpus[i]);
      ghost var before := bytes[..];
      bytes[pos] := Or(bytes[pos], Pow2(bit));
      assert bytes[..] == before[pos := Or(before[pos], Pow2(bit))];
    }
    assert cpus[..|cpus|] == cpus;
  }

  /** Lines 210-221: the mask of the CPUs expanded, of which there are some. */
  method MaskOf(cpus: seq<nat>) returns (mask: string)
    requires cpus != []
    ensures IsMask(mask, cpus)
  {
    LastIsMaximum(cpus);
    var sorted := Sorting.Sort(LE, cpus);
    var maxVal := sorted[|sorted| - 1];
    var bytes := new nat[maxVal / 8 + 1](_ => 0);
    SmallerByte(sorted, maxVal);
    SetBits(bytes, sorted);
    ghost var marked := bytes[..];
    SameMembersMarked(marked, sorted, cpus);
    MarkedGivesMask(marked, cpus, maxVal);
    mask := StripZeros(Hexlify(Reversed(bytes[..])));
  }

  /** cpu_mask */
  method CpuMask(cpuList: string) returns (r: Result<string, Error>)
    ensures r.Success? <==> Cpus(cpuList).Success? && Cpus(cpuList).value != []
    ensures r.Success? ==> IsMask(r.value, Cpus(cpuList).value)
    ensures r.Failure? && Cpus(cpuList).Success? ==> r.error == NoCpus
  {
    var cpus :- ExpandCpus(cpuList);
    if cpus == [] {
      return Failure(NoCpus);
    }
    var mask := MaskOf(cpus);
    r := Success(mask);
  }

  lemma SmallerByte(cpus: seq<nat>, m: nat)
    requires forall x :: x in cpus ==> x <= m
    ensures forall x :: x in cpus ==> x / 8 < m / 8 + 1
  {}

  lemma SameMembersMarked(bytes: seq<nat>, s: seq<nat>, t: seq<nat>)
    requires Marked(bytes, s) && forall x :: x in s <==> x in t
    ensures Marked(bytes, t)
  {}

  /** There is only one mask of a list of CPUs, up to the case of its digits. */
  lemma MaskIsUnique(mask: string, other: string, cpus: seq<nat>)
    requires IsMask(mask, cpus) && IsMask(other, cpus)
    ensures ParseHex(mask) == ParseHex(other)
  {
    BitsDetermine(HexValue(mask), HexValue(other));
    HexValueIsParsed(mask);
    HexValueIsParsed(other);
  }

  lemma {:induction false} ItemsFail(items: seq<string>, i: nat)
    requires i <= |items| && ItemsCpus(items[..i]).Failure?
    ensures ItemsCpus(items).Failure?
  {
    if i == |items| {
      assert items[..i] == items;
    } else {
      var front := items[..|items| - 1];
      assert front[..i] == items[..i];
      ItemsFail(front, i);
    }
  }
}
