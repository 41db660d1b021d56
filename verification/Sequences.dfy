/** Sequences without repetition. */
module Sequences {

  predicate NoDup<T(==)>(s: seq<T>) {
    forall i, j :: 0 <= i < j < |s| ==> s[i] != s[j]
  }

  lemma {:induction false} NoDupMultiplicity<T>(s: seq<T>)
    requires NoDup(s)
    ensures forall x :: multiset(s)[x] == if x in s then 1 else 0
  {
    if s != [] {
      var front, last := s[..|s| - 1], s[|s| - 1];
      assert s == front + [last];
      NoDupMultiplicity(front);
      assert last !in front;
    }
  }

  lemma {:induction false} MultiplicityNoDup<T>(s: seq<T>)
    requires forall x :: multiset(s)[x] <= 1
    ensures NoDup(s)
  {
    if s != [] {
      var front, last := s[..|s| - 1], s[|s| - 1];
      assert s == front + [last];
      assert multiset(s)[last] == multiset(front)[last] + 1;
      forall x ensures multiset(front)[x] <= 1 {
        assert multiset(front)[x] <= multiset(s)[x];
      }
      MultiplicityNoDup(front);
    }
  }

  /** Sequences of the same elements, each once, are permutations of each other. */
  lemma SameElements<T>(s: seq<T>, t: seq<T>)
    requires NoDup(s) && NoDup(t) && (forall x :: x in s <==> x in t)
    ensures multiset(s) == multiset(t)
  {
    NoDupMultiplicity(s);
    NoDupMultiplicity(t);
    forall x ensures multiset(s)[x] == multiset(t)[x] {}
  }

  /** A permutation of a sequence without repetition has none either. */
  lemma PermutationNoDup<T>(s: seq<T>, t: seq<T>)
    requires NoDup(s) && multiset(s) == multiset(t)
    ensures NoDup(t)
  {
    NoDupMultiplicity(s);
    forall x ensures multiset(t)[x] <= 1 {}
    MultiplicityNoDup(t);
  }

  lemma HasMember<T>(s: seq<T>)
    ensures s != [] ==> exists x :: x in s
  {
    if s != [] {
      assert s[0] in s;
    }
  }

  /** The prefix one longer, seen from its last element. */
  lemma PrefixStep<T>(s: seq<T>, i: nat)
    requires i < |s|
    ensures s[..i + 1] != [] && s[..i + 1] == s[..i] + [s[i]]
    ensures s[..i + 1][..|s[..i + 1]| - 1] == s[..i]
  {}

  lemma Associate<T>(a: seq<T>, b: seq<T>, c: seq<T>)
    ensures a + (b + c) == (a + b) + c
  {}
}
