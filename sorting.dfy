/** Ruby's `sort` and `sort_by` as an insertion sort over a given ordering,
    and Ruby's `String#<=>` as that ordering on strings. */
module Sorting {

  ghost predicate Total<T(!new)>(le: (T, T) -> bool) {
    forall a, b :: le(a, b) || le(b, a)
  }

  ghost predicate Transitive<T(!new)>(le: (T, T) -> bool) {
    forall a, b, c :: le(a, b) && le(b, c) ==> le(a, c)
  }

  predicate SortedBy<T>(le: (T, T) -> bool, s: seq<T>) {
    forall i, j :: 0 <= i < j < |s| ==> le(s[i], s[j])
  }

  /** No element occurs twice. */
  predicate NoDup<T(==)>(s: seq<T>) {
    forall i, j :: 0 <= i < j < |s| ==> s[i] != s[j]
  }

  function Insert<T(==)>(le: (T, T) -> bool, x: T, s: seq<T>): (r: seq<T>)
    ensures multiset(r) == multiset(s) + multiset{x}
  {
    if s == [] then [x]
    else if le(x, s[0]) then [x] + s
    else
      assert s == [s[0]] + s[1..];
      [s[0]] + Insert(le, x, s[1..])
  }

  function InsertionSort<T(==)>(le: (T, T) -> bool, s: seq<T>): (r: seq<T>)
    ensures multiset(r) == multiset(s)
  {
    if s == [] then []
    else
      assert s == [s[0]] + s[1..];
      Insert(le, s[0], InsertionSort(le, s[1..]))
  }

  lemma {:induction false} InsertSorted<T(!new)>(le: (T, T) -> bool, x: T, s: seq<T>)
    requires Total(le) && Transitive(le) && SortedBy(le, s)
    ensures SortedBy(le, Insert(le, x, s))
  {
    if s != [] && !le(x, s[0]) {
      var rest := Insert(le, x, s[1..]);
      InsertSorted(le, x, s[1..]);
      assert le(s[0], x);
      forall k | 0 <= k < |rest| ensures le(s[0], rest[k]) {
        assert rest[k] in multiset(rest);
        if rest[k] != x {
          assert rest[k] in s[1..];
        }
      }
    }
  }

  lemma {:induction false} InsertionSortSorted<T(!new)>(le: (T, T) -> bool, s: seq<T>)
    requires Total(le) && Transitive(le)
    ensures SortedBy(le, InsertionSort(le, s))
  {
    if s != [] {
      InsertionSortSorted(le, s[1..]);
      InsertSorted(le, s[0], InsertionSort(le, s[1..]));
    }
  }

  /** Two elements already in order stay as they are. */
  lemma SortPair<T>(le: (T, T) -> bool, a: T, b: T)
    requires le(a, b)
    ensures InsertionSort(le, [a, b]) == [a, b]
  {
    assert [a, b][1..] == [b];
    assert InsertionSort(le, [b]) == [b] by { assert [b][1..] == []; }
  }

  /** The last element of a sorted list is above every element. */
  lemma LastAbove<T(!new)>(le: (T, T) -> bool, s: seq<T>, x: T)
    requires Total(le) && SortedBy(le, s) && x in s
    ensures le(x, s[|s| - 1])
  {
    var k :| 0 <= k < |s| && s[k] == x;
    if k == |s| - 1 { assert le(x, x) || le(x, x); }
  }

  lemma {:induction false} InsertNoDup<T>(le: (T, T) -> bool, x: T, s: seq<T>)
    requires NoDup(s) && x !in s
    ensures NoDup(Insert(le, x, s))
  {
    if s != [] && !le(x, s[0]) {
      var rest := Insert(le, x, s[1..]);
      InsertNoDup(le, x, s[1..]);
      assert s[0] !in s[1..] by {
        forall k | 0 <= k < |s[1..]| ensures s[1..][k] != s[0] { assert s[1..][k] == s[k + 1]; }
      }
      assert s[0] != x by { assert s[0] in s; }
      assert s[0] !in multiset(rest);
    }
  }

  /** Sorting keeps a list free of duplicates. */
  lemma {:induction false} InsertionSortNoDup<T>(le: (T, T) -> bool, s: seq<T>)
    requires NoDup(s)
    ensures NoDup(InsertionSort(le, s))
  {
    if s != [] {
      var rest := InsertionSort(le, s[1..]);
      InsertionSortNoDup(le, s[1..]);
      assert s[0] !in s[1..] by {
        forall k | 0 <= k < |s[1..]| ensures s[1..][k] != s[0] { assert s[1..][k] == s[k + 1]; }
      }
      assert s[0] !in multiset(rest);
      InsertNoDup(le, s[0], rest);
    }
  }

  lemma NoDupConcat<T>(a: seq<T>, b: seq<T>)
    requires NoDup(a) && NoDup(b)
    requires forall x :: x in a ==> x !in b
    ensures NoDup(a + b)
  {
    forall i, j | 0 <= i < j < |a + b| ensures (a + b)[i] != (a + b)[j] {
      if i < |a| && j >= |a| {
        assert (a + b)[i] in a && (a + b)[j] in b;
      }
    }
  }

  lemma MultisetTail<T>(s: seq<T>)
    requires s != []
    ensures multiset(s[1..]) == multiset(s) - multiset{s[0]}
  {
    assert s == [s[0]] + s[1..];
  }

  /** In a sorted list the head is below every element. */
  lemma HeadBelow<T(!new)>(le: (T, T) -> bool, s: seq<T>, x: T)
    requires Total(le) && SortedBy(le, s) && x in s
    ensures le(s[0], x)
  {
    var k :| 0 <= k < |s| && s[k] == x;
    if k == 0 { assert le(x, x) || le(x, x); }
  }

  /** Two sorted arrangements of the same elements agree, as long as the
      ordering ties no two different elements. */
  lemma {:induction false} SortedUnique<T(!new)>(le: (T, T) -> bool, s1: seq<T>, s2: seq<T>)
    requires Total(le)
    requires SortedBy(le, s1) && SortedBy(le, s2) && multiset(s1) == multiset(s2)
    requires forall x, y :: x in s1 && y in s1 && le(x, y) && le(y, x) ==> x == y
    ensures s1 == s2
  {
    if s1 == [] {
      assert |multiset(s2)| == 0;
    } else {
      assert |s2| == |multiset(s2)| == |s1|;
      var a, b := s1[0], s2[0];
      assert a in multiset(s2) && b in multiset(s1);
      HeadBelow(le, s2, a);
      HeadBelow(le, s1, b);
      assert a == b;
      MultisetTail(s1);
      MultisetTail(s2);
      forall x, y | x in s1[1..] && y in s1[1..] && le(x, y) && le(y, x) ensures x == y {
        assert x in s1 && y in s1;
      }
      SortedUnique(le, s1[1..], s2[1..]);
      assert s1 == [a] + s1[1..] && s2 == [b] + s2[1..];
    }
  }

  // ---- Ruby's String#<=> -------------------------------------------------------

  /** `a <= b` in Ruby's string order: character by character, a proper
      prefix first. */
  predicate StrLe(a: string, b: string) {
    if a == [] then true
    else if b == [] then false
    else if a[0] != b[0] then a[0] < b[0]
    else StrLe(a[1..], b[1..])
  }

  lemma {:induction false} StrLeTotal(a: string, b: string)
    ensures StrLe(a, b) || StrLe(b, a)
  {
    if a != [] && b != [] && a[0] == b[0] {
      StrLeTotal(a[1..], b[1..]);
    }
  }

  lemma {:induction false} StrLeAntisymmetric(a: string, b: string)
    requires StrLe(a, b) && StrLe(b, a)
    ensures a == b
  {
    if a != [] && b != [] {
      StrLeAntisymmetric(a[1..], b[1..]);
      assert a == [a[0]] + a[1..] && b == [b[0]] + b[1..];
    }
  }

  lemma {:induction false} StrLeTransitive(a: string, b: string, c: string)
    requires StrLe(a, b) && StrLe(b, c)
    ensures StrLe(a, c)
  {
    if a != [] && b != [] && c != [] && a[0] == b[0] && b[0] == c[0] {
      StrLeTransitive(a[1..], b[1..], c[1..]);
    }
  }

  lemma StrLeOrder()
    ensures Total(StrLe) && Transitive(StrLe)
    ensures forall a, b :: StrLe(a, b) && StrLe(b, a) ==> a == b
  {
    forall a, b ensures StrLe(a, b) || StrLe(b, a) { StrLeTotal(a, b); }
    forall a, b, c | StrLe(a, b) && StrLe(b, c) ensures StrLe(a, c) { StrLeTransitive(a, b, c); }
    forall a, b | StrLe(a, b) && StrLe(b, a) ensures a == b { StrLeAntisymmetric(a, b); }
  }

  /** `values.sort`. */
  function SortStrings(vs: seq<string>): (r: seq<string>)
    ensures multiset(r) == multiset(vs)
    ensures SortedBy(StrLe, r)
  {
    StrLeOrder();
    InsertionSortSorted(StrLe, vs);
    InsertionSort(StrLe, vs)
  }

  /** Sorting strings forgets exactly their order. */
  lemma SortStringsSame(xs: seq<string>, ys: seq<string>)
    ensures SortStrings(xs) == SortStrings(ys) <==> multiset(xs) == multiset(ys)
  {
    if multiset(xs) == multiset(ys) {
      StrLeOrder();
      SortedUnique(StrLe, SortStrings(xs), SortStrings(ys));
    }
  }
}
