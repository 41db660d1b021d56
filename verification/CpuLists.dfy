/** CPU lists as users write them, and the bits of their masks. */
module CpuLists {
  import opened Wrappers
  import opened Strings
  import opened Hex
  import opened Sequences
  import opened CpuMask

  /** What stands between commas: a CPU, or a first and a last one. */
  datatype Item = One(cpu: nat) | FromTo(first: nat, last: nat)

  function ItemText(item: Item): string {
    match item
    case One(n) => Decimal(n)
    case FromTo(lo, hi) => Decimal(lo) + "-" + Decimal(hi)
  }

  predicate Lists(item: Item, cpu: nat) {
    match item
    case One(n) => cpu == n
    case FromTo(lo, hi) => lo <= cpu <= hi
  }

  function Texts(items: seq<Item>): (r: seq<string>)
    ensures |r| == |items| && forall i :: 0 <= i < |items| ==> r[i] == ItemText(items[i])
  {
    seq(|items|, i requires 0 <= i < |items| => ItemText(items[i]))
  }

  /** The list as text: the items, joined with commas. */
  function ListText(items: seq<Item>): string {
    Joined(Texts(items), ",")
  }

  // ---------- Numbers and ranges ----------

  lemma DigitsOnly(s: string)
    requires forall c :: c in s ==> IsDigit(c)
    ensures ',' !in s && '-' !in s && forall c :: c in s ==> !IsSpace(c)
  {}

  /** A number is read, with or without blanks around it. */
  lemma NumberRead(before: string, n: nat, after: string)
    requires forall c :: c in before + after ==> IsSpace(c)
    ensures ParseInt(before + Decimal(n) + after) == Success(n)
  {
    var t := Decimal(n);
    DigitsOnly(t);
    assert t[0] in t && t[|t| - 1] in t;
    StripBlanks(before, t, after);
    DecimalRoundTrip(n);
  }

  lemma {:induction false} PlainNumberRead(n: nat)
    ensures ParseInt(Decimal(n)) == Success(n)
  {
    NumberRead("", n, "");
    assert "" + Decimal(n) + "" == Decimal(n);
  }

  /** A number lists this CPU. */
  lemma OneListed(n: nat)
    ensures ItemCpus(Decimal(n)) == Success([n])
  {
    DigitsOnly(Decimal(n));
    PlainNumberRead(n);
  }

  lemma RangeOfParts(a: string, b: string, lo: nat, hi: nat)
    requires '-' !in a && '-' !in b && ParseInt(a) == Success(lo) && ParseInt(b) == Success(hi)
    ensures ItemCpus(a + ['-'] + b) == Success(Range(lo, hi))
  {
    SplitAt(a, '-', b);
    SplitWithout(b, '-');
    assert (a + ['-'] + b)[|a|] == '-';
  }

  /** A range lists the CPUs from the first to the last one. */
  lemma {:induction false} RangeListed(lo: nat, hi: nat)
    ensures ItemCpus(Decimal(lo) + "-" + Decimal(hi)).Success?
    ensures forall cpu :: cpu in ItemCpus(Decimal(lo) + "-" + Decimal(hi)).value <==> lo <= cpu <= hi
  {
    DigitsOnly(Decimal(lo));
    DigitsOnly(Decimal(hi));
    PlainNumberRead(lo);
    PlainNumberRead(hi);
    RangeOfParts(Decimal(lo), Decimal(hi), lo, hi);
  }

  lemma ItemListed(item: Item)
    ensures ',' !in ItemText(item) && ItemCpus(ItemText(item)).Success?
    ensures forall cpu: nat :: cpu in ItemCpus(ItemText(item)).value <==> Lists(item, cpu)
  {
    match item
    case One(n) =>
      DigitsOnly(Decimal(n));
      OneListed(n);
    case FromTo(lo, hi) =>
      DigitsOnly(Decimal(lo));
      DigitsOnly(Decimal(hi));
      RangeListed(lo, hi);
  }

  // ---------- Whole lists ----------

  lemma ListSplits(items: seq<Item>)
    requires items != []
    ensures Split(ListText(items), ',') == Texts(items)
  {
    forall c | c in Texts(items) ensures ',' !in c {
      var i :| 0 <= i < |items| && Texts(items)[i] == c;
      ItemListed(items[i]);
    }
    SplitJoined(Texts(items), ',');
  }

  /** Exactly the CPUs that some item lists are listed. */
  lemma ListListed(items: seq<Item>)
    requires items != []
    ensures Cpus(ListText(items)).Success?
    ensures forall cpu: nat :: cpu in Cpus(ListText(items)).value <==> exists i :: 0 <= i < |items| && Lists(items[i], cpu)
  {
    var texts := Texts(items);
    ListSplits(items);
    forall i | 0 <= i < |items| ensures ItemCpus(texts[i]).Success? {
      ItemListed(items[i]);
    }
    ListedCpus(texts, 0);
    forall cpu: nat ensures cpu in Cpus(ListText(items)).value <==> exists i :: 0 <= i < |items| && Lists(items[i], cpu) {
      CpuListed(items, texts, cpu);
    }
  }

  lemma CpuListed(items: seq<Item>, texts: seq<string>, cpu: nat)
    requires texts == Texts(items) && ItemsCpus(texts).Success?
    ensures cpu in ItemsCpus(texts).value <==> exists i :: 0 <= i < |items| && Lists(items[i], cpu)
  {
    ListedCpus(texts, cpu);
    forall i | 0 <= i < |items|
      ensures ItemCpus(texts[i]).Success? && (cpu in ItemCpus(texts[i]).value <==> Lists(items[i], cpu))
    {
      ItemListed(items[i]);
    }
  }

  ghost predicate Listed(items: seq<Item>, cpu: nat) {
    exists i :: 0 <= i < |items| && Lists(items[i], cpu)
  }

  /** The mask has just the bits of these CPUs, and no leading zero. */
  ghost predicate MaskFor(mask: string, items: seq<Item>) {
    && AllHex(mask) && mask != [] && mask[0] != '0'
    && forall k: nat :: Bit(HexValue(mask), k) <==> Listed(items, k)
  }

  lemma MaskOfCpus(mask: string, cpus: seq<nat>, items: seq<Item>)
    requires IsMask(mask, cpus) && forall cpu: nat :: cpu in cpus <==> Listed(items, cpu)
    ensures MaskFor(mask, items)
  {}

  /** The bits of the mask of a list are the CPUs that its numbers and ranges list. */
  lemma MaskOfList(items: seq<Item>, mask: string)
    requires items != [] && Cpus(ListText(items)).Success? && IsMask(mask, Cpus(ListText(items)).value)
    ensures MaskFor(mask, items)
  {
    var cpus := Cpus(ListText(items)).value;
    ListListed(items);
    forall cpu: nat ensures cpu in cpus <==> Listed(items, cpu) {}
    MaskOfCpus(mask, cpus, items);
  }

  lemma {:induction false} SomeListed(items: seq<Item>)
    requires items != []
    ensures Cpus(ListText(items)).Success?
    ensures Cpus(ListText(items)).value != [] <==> exists cpu: nat :: Listed(items, cpu)
  {
    ListListed(items);
    var cpus := Cpus(ListText(items)).value;
    HasMember(cpus);
    forall cpu: nat ensures cpu in cpus <==> Listed(items, cpu) {}
  }

  /** cpu_mask on a list of numbers and ranges: it fails only if all of them are empty ranges. */
  method MaskOfItems(items: seq<Item>) returns (r: Result<string, Error>)
    requires items != []
    ensures r.Success? <==> exists cpu: nat :: Listed(items, cpu)
    ensures r.Success? ==> MaskFor(r.value, items)
  {
    var text := ListText(items);
    SomeListed(items);
    r := CpuMask.CpuMask(text);
    if r.Success? {
      MaskOfList(items, r.value);
    }
  }

  // ---------- The documented example ----------

  lemma BitsOfExample(k: nat)
    ensures Bit(0x2002, k) <==> k == 1 || k == 13
  {
    OrBit(Pow2(1), Pow2(13), k);
    Pow2Bit(1, k);
    Pow2Bit(13, k);
    assert Pow2(0) == 1;
    assert Pow2(4) == 16;
    assert Pow2(8) == 256;
    assert Pow2(12) == 4096;
    assert Or(0, 4096) == 4096;
  }

  lemma ExampleText()
    ensures ListText([One(1), One(13)]) == "1,13"
  {
    DecimalDigits(0, 1);
    DecimalDigits(1, 3);
    assert Decimal(1) == "1" && Decimal(10 * 1 + 3) == "13";
    assert ItemText(One(1)) == "1" && ItemText(One(13)) == "13";
    assert Texts([One(1), One(13)]) == ["1", "13"];
    assert ["1", "13"][..1] == ["1"];
  }

  /** The mask of 1,13 is 2002. */
  lemma DocumentedExample(mask: string)
    requires Cpus("1,13").Success? && IsMask(mask, Cpus("1,13").value)
    ensures HexValue(mask) == 0x2002
  {
    ExampleText();
    ExampleMask([One(1), One(13)], mask);
  }

  lemma ExampleMask(items: seq<Item>, mask: string)
    requires items == [One(1), One(13)] && Cpus(ListText(items)).Success? && IsMask(mask, Cpus(ListText(items)).value)
    ensures HexValue(mask) == 0x2002
  {
    MaskOfList(items, mask);
    forall k: nat ensures Bit(HexValue(mask), k) == Bit(0x2002, k) {
      BitsOfExample(k);
      assert Lists(items[0], k) <==> k == 1;
      assert Lists(items[1], k) <==> k == 13;
    }
    BitsDetermine(HexValue(mask), 0x2002);
  }
}
