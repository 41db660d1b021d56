/** Sorting as `sorted(s, key=...)` does it: stable, for any total preorder. */
module Sorting {

  ghost predicate TotalPreorder<T(!new)>(le: (T, T) -> bool) {
    && (forall x, y :: le(x, y) || le(y, x))
    && (forall x, y, z :: le(x, y) && le(y, z) ==> le(x, z))
  }

  ghost predicate SortedBy<T>(le: (T, T) -> bool, s: seq<T>) {
    forall i, j :: 0 <= i < j < |s| ==> le(s[i], s[j])
  }

  /** Among the elements of the sequence, equally ranked ones are equal. */
  ghost predicate DistinctRanks<T>(le: (T, T) -> bool, s: seq<T>) {
    forall x, y :: x in s && y in s && le(x, y) && le(y, x) ==> x == y
  }

  /** Puts an element behind everything ranked no higher than it. */
  function Insert<T>(le: (T, T) -> bool, s: seq<T>, x: T): seq<T> {
    if s == [] then [x]
    else
      var last := |s| - 1;
      if le(s[last], x) then s + [x] else Insert(le, s[..last], x) + [s[last]]
  }

  function Sort<T>(le: (T, T) -> bool, s: seq<T>): seq<T> {
    if s == [] then [] else Insert(le, Sort(le, s[..|s| - 1]), s[|s| - 1])
  }

  lemma {:induction false} InsertPermutes<T>(le: (T, T) -> bool, s: seq<T>, x: T)
    ensures multiset(Insert(le, s, x)) == multiset(s) + multiset{x}
  {
    if s != [] {
      assert s == s[..|s| - 1] + [s[|s| - 1]];
      InsertPermutes(le, s[..|s| - 1], x);
    }
  }

  lemma {:induction false} InsertSorts<T(!new)>(le: (T, T) -> bool, s: seq<T>, x: T)
    requires TotalPreorder(le) && SortedBy(le, s)
    ensures SortedBy(le, Insert(le, s, x))
  {
    if s != [] {
      var front, last := s[..|s| - 1], s[|s| - 1];
      if le(last, x) {
        forall i | 0 <= i < |s| ensures le(s[i], x) {
          assert i < |s| - 1 ==> le(s[i], last);
        }
      } else {
        InsertSorts(le, front, x);
        var r := Insert(le, front, x);
        InsertPermutes(le, front, x);
        forall i | 0 <= i < |r| ensures le(r[i], last) {
          assert r[i] in multiset(r);
          assert r[i] in front || r[i] == x;
        }
      }
    }
  }

  /** The sorted sequence is ascending and a permutation of the original. */
  lemma {:induction false} SortCorrect<T(!new)>(le: (T, T) -> bool, s: seq<T>)
    requires TotalPreorder(le)
    ensures SortedBy(le, Sort(le, s)) && multiset(Sort(le, s)) == multiset(s)
  {
    if s != [] {
      var front, last := s[..|s| - 1], s[|s| - 1];
      assert s == front + [last];
      SortCorrect(le, front);
      InsertSorts(le, Sort(le, front), last);
      InsertPermutes(le, Sort(le, front), last);
    }
  }

  lemma SameMembers<T>(s: seq<T>, t: seq<T>)
    requires multiset(s) == multiset(t)
    ensures |s| == |t| && forall x :: x in s <==> x in t
  {
    assert |s| == |multiset(s)| == |multiset(t)| == |t|;
    assert forall x :: x in s <==> x in multiset(s);
    assert forall x :: x in t <==> x in multiset(t);
  }

  lemma SameLast<T(!new)>(le: (T, T) -> bool, s: seq<T>, t: seq<T>)
    requires (forall x :: le(x, x)) && DistinctRanks(le, s) && SortedBy(le, s) && SortedBy(le, t)
    requires s != [] && |s| == |t| && (forall x :: x in s <==> x in t)
    ensures s[|s| - 1] == t[|t| - 1]
  {
    var k := |s| - 1;
    assert s[k] in t && t[k] in s;
    var i :| 0 <= i <= k && t[i] == s[k];
    var j :| 0 <= j <= k && s[j] == t[k];
    assert i < k ==> le(t[i], t[k]);
    assert j < k ==> le(s[j], s[k]);
  }

  /** When ranks are distinct, there is only one ascending arrangement. */
  lemma {:induction false} SortedUnique<T(!new)>(le: (T, T) -> bool, s: seq<T>, t: seq<T>)
    requires (forall x :: le(x, x)) && DistinctRanks(le, s)
    requires SortedBy(le, s) && SortedBy(le, t) && multiset(s) == multiset(t)
    ensures s == t
  {
    SameMembers(s, t);
    if s != [] {
      var k := |s| - 1;
      SameLast(le, s, t);
      SameFront(s, t);
      DistinctFront(le, s);
      SortedUnique(le, s[..k], t[..k]);
      assert s == s[..k] + [s[k]] && t == t[..k] + [t[k]];
    }
  }

  lemma SameFront<T>(s: seq<T>, t: seq<T>)
    requires multiset(s) == multiset(t) && |s| == |t| > 0 && s[|s| - 1] == t[|t| - 1]
    ensures multiset(s[..|s| - 1]) == multiset(t[..|t| - 1])
  {
    var k := |s| - 1;
    assert s == s[..k] + [s[k]] && t == t[..k] + [t[k]];
    assert multiset(s[..k]) == multiset(s) - multiset{s[k]};
  }

  lemma DistinctFront<T>(le: (T, T) -> bool, s: seq<T>)
    requires s != [] && DistinctRanks(le, s)
    ensures DistinctRanks(le, s[..|s| - 1])
  {}

  /** With distinct ranks the result does not depend on the original order. */
  lemma {:induction false} SortIgnoresOrder<T(!new)>(le: (T, T) -> bool, s: seq<T>, t: seq<T>)
    requires TotalPreorder(le) && DistinctRanks(le, s) && multiset(s) == multiset(t)
    ensures Sort(le, s) == Sort(le, t)
  {
    SortCorrect(le, s);
    SortCorrect(le, t);
    SameMembers(s, Sort(le, s));
    SortedUnique(le, Sort(le, s), Sort(le, t));
  }
}
