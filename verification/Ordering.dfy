/** Go's string order, its two sorts, and why their results are unique. */
module Ordering {

  // ----- Lexicographic order on strings

  predicate StrLe(a: string, b: string) {
    a == "" || (b != "" && (a[0] < b[0] || (a[0] == b[0] && StrLe(a[1..], b[1..]))))
  }

  lemma StrLeTotal(a: string, b: string)
    ensures StrLe(a, b) || StrLe(b, a)
  {}

  lemma StrLeAntisymmetric(a: string, b: string)
    requires StrLe(a, b) && StrLe(b, a)
    ensures a == b
  {
    if a != "" {
      StrLeAntisymmetric(a[1..], b[1..]);
      assert a == [a[0]] + a[1..] && b == [b[0]] + b[1..];
    }
  }

  lemma StrLeTransitive(a: string, b: string, c: string)
    requires StrLe(a, b) && StrLe(b, c)
    ensures StrLe(a, c)
  {}

  /** a is the start of b, or has the smaller character where the two first differ. */
  ghost predicate Alphabetical(a: string, b: string) {
    a <= b || exists i :: 0 <= i < |a| && i < |b| && a[..i] == b[..i] && a[i] < b[i]
  }

  lemma AlphabeticalTail(a: string, b: string)
    requires a != "" && b != "" && a[0] == b[0]
    ensures Alphabetical(a, b) <==> Alphabetical(a[1..], b[1..])
  {
    var x, y := a[1..], b[1..];
    assert a == [a[0]] + x && b == [b[0]] + y;
    if i :| 0 <= i < |a| && i < |b| && a[..i] == b[..i] && a[i] < b[i] {
      assert x[..i - 1] == a[..i][1..] && y[..i - 1] == b[..i][1..];
      assert x[i - 1] < y[i - 1];
    }
    if i :| 0 <= i < |x| && i < |y| && x[..i] == y[..i] && x[i] < y[i] {
      assert a[..i + 1] == [a[0]] + x[..i] && b[..i + 1] == [b[0]] + y[..i];
      assert a[i + 1] < b[i + 1];
    }
  }

  lemma AlphabeticalHead(a: string, b: string)
    requires a != "" && b != "" && a[0] != b[0]
    ensures Alphabetical(a, b) <==> a[0] < b[0]
  {
    assert a[..0] == b[..0];
    assert forall i :: 0 < i < |a| && i < |b| ==> a[..i][0] != b[..i][0];
  }

  lemma {:induction false} StrLeIsAlphabetical(a: string, b: string)
    ensures StrLe(a, b) <==> Alphabetical(a, b)
  {
    if a != "" && b != "" {
      if a[0] == b[0] {
        StrLeIsAlphabetical(a[1..], b[1..]);
        AlphabeticalTail(a, b);
      } else {
        AlphabeticalHead(a, b);
      }
    }
  }

  predicate StrLess(a: string, b: string) {
    !StrLe(b, a)
  }

  // ----- Sorting

  ghost predicate TotalPreorder<T(!new)>(le: (T, T) -> bool) {
    && (forall a, b :: le(a, b) || le(b, a))
    && (forall a, b, c :: le(a, b) && le(b, c) ==> le(a, c))
  }

  ghost predicate SortedBy<T>(le: (T, T) -> bool, s: seq<T>) {
    forall i, j :: 0 <= i < j < |s| ==> le(s[i], s[j])
  }

  function Insert<T>(le: (T, T) -> bool, x: T, s: seq<T>): seq<T> {
    if s == [] || le(x, s[0]) then [x] + s else [s[0]] + Insert(le, x, s[1..])
  }

  /** Insertion from the right keeps equal elements in their original order. */
  function Sorted<T>(le: (T, T) -> bool, s: seq<T>): seq<T> {
    if s == [] then [] else Insert(le, s[0], Sorted(le, s[1..]))
  }

  lemma InsertMultiset<T>(le: (T, T) -> bool, x: T, s: seq<T>)
    ensures multiset(Insert(le, x, s)) == multiset([x]) + multiset(s)
  {
    if s != [] && !le(x, s[0]) {
      InsertMultiset(le, x, s[1..]);
      assert s == [s[0]] + s[1..];
    }
  }

  lemma InsertSorted<T(!new)>(le: (T, T) -> bool, x: T, s: seq<T>)
    requires TotalPreorder(le) && SortedBy(le, s)
    ensures SortedBy(le, Insert(le, x, s))
  {
    if s != [] && !le(x, s[0]) {
      InsertSorted(le, x, s[1..]);
      var t := Insert(le, x, s[1..]);
      InsertMultiset(le, x, s[1..]);
      forall j | 0 <= j < |t|
        ensures le(s[0], t[j])
      {
        assert t[j] in multiset(t);
        if t[j] != x {
          assert t[j] in s[1..];
        }
      }
    }
  }

  lemma SortedMultiset<T>(le: (T, T) -> bool, s: seq<T>)
    ensures multiset(Sorted(le, s)) == multiset(s)
    ensures |Sorted(le, s)| == |s|
  {
    if s != [] {
      SortedMultiset(le, s[1..]);
      InsertMultiset(le, s[0], Sorted(le, s[1..]));
      assert s == [s[0]] + s[1..];
    }
    assert |multiset(Sorted(le, s))| == |multiset(s)|;
  }

  lemma SortedIsSorted<T(!new)>(le: (T, T) -> bool, s: seq<T>)
    requires TotalPreorder(le)
    ensures SortedBy(le, Sorted(le, s))
  {
    if s != [] {
      SortedIsSorted(le, s[1..]);
      InsertSorted(le, s[0], Sorted(le, s[1..]));
    }
  }

  lemma Associative<T>(a: seq<T>, b: seq<T>, c: seq<T>)
    ensures (a + b) + c == a + (b + c)
  {}

  lemma SameElements<T>(a: seq<T>, b: seq<T>, x: T)
    requires multiset(a) == multiset(b)
    ensures x in a <==> x in b
  {
    assert x in a <==> x in multiset(a);
  }

  lemma {:induction false} OnceEach<T>(s: seq<T>, x: T)
    requires forall i, j :: 0 <= i < j < |s| ==> s[i] != s[j]
    ensures multiset(s)[x] == if x in s then 1 else 0
  {
    if s != [] {
      OnceEach(s[1..], x);
      assert s == [s[0]] + s[1..] && s[0] !in s[1..];
    }
  }

  lemma TwiceIsTwo<T>(s: seq<T>, i: nat, j: nat)
    requires i < j < |s| && multiset(s)[s[i]] <= 1
    ensures s[i] != s[j]
  {
    var l, m, r := s[..i], s[i + 1..j], s[j + 1..];
    assert s == l + [s[i]] + m + [s[j]] + r;
  }

  /** A listing of a set holds each element once. */
  lemma ListsEachOnce<T>(s: seq<T>, elements: set<T>)
    requires multiset(s) == multiset(elements)
    ensures (forall i, j :: 0 <= i < j < |s| ==> s[i] != s[j]) && forall x :: x in s <==> x in elements
  {
    forall i, j | 0 <= i < j < |s| ensures s[i] != s[j] {
      TwiceIsTwo(s, i, j);
    }
    assert forall x :: x in s <==> x in multiset(s);
  }

  /** Two sorted arrangements of the same elements agree when ties are identical. */
  lemma {:induction false} SortedUnique<T(!new)>(le: (T, T) -> bool, a: seq<T>, b: seq<T>)
    requires TotalPreorder(le) && SortedBy(le, a) && SortedBy(le, b)
    requires multiset(a) == multiset(b)
    requires forall x, y :: x in a && y in a && le(x, y) && le(y, x) ==> x == y
    ensures a == b
  {
    assert |multiset(a)| == |multiset(b)|;
    if a != [] {
      SameElements(a, b, a[0]);
      SameElements(a, b, b[0]);
      assert le(a[0], a[0]);
      assert a[0] == b[0];
      assert a == [a[0]] + a[1..] && b == [b[0]] + b[1..];
      assert multiset(a[1..]) == multiset(a) - multiset([a[0]]);
      SortedUnique(le, a[1..], b[1..]);
    }
  }

  // ----- Stability

  function Class<T>(le: (T, T) -> bool, k: T, s: seq<T>): seq<T> {
    if s == [] then []
    else (if le(k, s[0]) && le(s[0], k) then [s[0]] else []) + Class(le, k, s[1..])
  }

  lemma ClassMembers<T>(le: (T, T) -> bool, k: T, s: seq<T>)
    ensures forall x :: x in Class(le, k, s) <==> x in s && le(k, x) && le(x, k)
  {}

  lemma {:induction false} ClassMultiset<T>(le: (T, T) -> bool, k: T, s: seq<T>, x: T)
    ensures multiset(Class(le, k, s))[x] == if le(k, x) && le(x, k) then multiset(s)[x] else 0
  {
    if s != [] {
      ClassMultiset(le, k, s[1..], x);
      assert s == [s[0]] + s[1..];
    }
  }

  lemma ClassIsSorted<T(!new)>(le: (T, T) -> bool, k: T, s: seq<T>)
    requires TotalPreorder(le)
    ensures SortedBy(le, Class(le, k, s))
  {
    var c := Class(le, k, s);
    ClassMembers(le, k, s);
    forall i, j | 0 <= i < j < |c| ensures le(c[i], c[j]) {
      assert c[i] in c && c[j] in c;
    }
  }

  /** Where ties are identical, a class does not show the order of the sequence. */
  lemma ClassPermuted<T(!new)>(le: (T, T) -> bool, k: T, a: seq<T>, b: seq<T>)
    requires TotalPreorder(le) && multiset(a) == multiset(b)
    requires forall x, y :: x in a && y in a && le(x, y) && le(y, x) ==> x == y
    ensures Class(le, k, a) == Class(le, k, b)
  {
    var c, d := Class(le, k, a), Class(le, k, b);
    forall x ensures multiset(c)[x] == multiset(d)[x] {
      ClassMultiset(le, k, a, x);
      ClassMultiset(le, k, b, x);
    }
    ClassMembers(le, k, a);
    ClassIsSorted(le, k, a);
    ClassIsSorted(le, k, b);
    SortedUnique(le, c, d);
  }

  lemma {:induction false} ClassConcat<T>(le: (T, T) -> bool, k: T, a: seq<T>, b: seq<T>)
    ensures Class(le, k, a + b) == Class(le, k, a) + Class(le, k, b)
  {
    if a == [] {
      assert a + b == b;
    } else {
      ClassConcat(le, k, a[1..], b);
      assert (a + b)[1..] == a[1..] + b;
    }
  }

  lemma InsertClass<T(!new)>(le: (T, T) -> bool, k: T, x: T, s: seq<T>)
    requires TotalPreorder(le)
    ensures Class(le, k, Insert(le, x, s)) == Class(le, k, [x] + s)
  {
    if s != [] && !le(x, s[0]) {
      InsertClass(le, k, x, s[1..]);
      assert ([x] + s)[1..] == s;
      assert ([x] + s[1..])[1..] == s[1..];
      assert Insert(le, x, s)[1..] == Insert(le, x, s[1..]);
    }
  }

  /** The sort keeps tied elements in their original order. */
  lemma {:induction false} SortedStable<T(!new)>(le: (T, T) -> bool, k: T, s: seq<T>)
    requires TotalPreorder(le)
    ensures Class(le, k, Sorted(le, s)) == Class(le, k, s)
  {
    if s != [] {
      SortedStable(le, k, s[1..]);
      InsertClass(le, k, s[0], Sorted(le, s[1..]));
      assert ([s[0]] + Sorted(le, s[1..]))[1..] == Sorted(le, s[1..]);
    }
  }

  lemma HeadInBoth<T(!new)>(le: (T, T) -> bool, a: seq<T>, b: seq<T>)
    requires TotalPreorder(le) && a != []
    requires Class(le, a[0], a) == Class(le, a[0], b)
    ensures a[0] in b && Class(le, a[0], a)[0] == a[0]
  {
    ClassMembers(le, a[0], a);
    ClassMembers(le, a[0], b);
    assert a[0] in Class(le, a[0], a);
  }

  /** A sorted sequence is determined by what it holds in each class of ties, in order. */
  lemma {:induction false} StableUnique<T(!new)>(le: (T, T) -> bool, a: seq<T>, b: seq<T>)
    requires TotalPreorder(le) && SortedBy(le, a) && SortedBy(le, b)
    requires forall k :: Class(le, k, a) == Class(le, k, b)
    ensures a == b
  {
    if a != [] {
      HeadInBoth(le, a, b);
    }
    if b != [] {
      HeadInBoth(le, b, a);
      assert le(a[0], b[0]) && le(b[0], a[0]);
      ClassMembers(le, a[0], b);
      assert b[0] == Class(le, a[0], b)[0];
      forall k
        ensures Class(le, k, a[1..]) == Class(le, k, b[1..])
      {
        var h := if le(k, a[0]) && le(a[0], k) then [a[0]] else [];
        assert Class(le, k, a) == h + Class(le, k, a[1..]);
        assert Class(le, k, b) == h + Class(le, k, b[1..]);
        assert Class(le, k, a[1..]) == Class(le, k, a)[|h|..];
        assert Class(le, k, b[1..]) == Class(le, k, b)[|h|..];
      }
      StableUnique(le, a[1..], b[1..]);
    }
  }

  /** sort.Slice: the result is some sorted arrangement; ties may come in any order. */
  method SortSlice<T(!new)>(le: (T, T) -> bool, s: seq<T>) returns (r: seq<T>)
    requires TotalPreorder(le)
    ensures SortedBy(le, r) && multiset(r) == multiset(s)
  {
    r := Sorted(le, s);
    SortedMultiset(le, s);
    SortedIsSorted(le, s);
  }

  /** sort.SliceStable: sorted, and ties keep their order. */
  method SortSliceStable<T(!new)>(le: (T, T) -> bool, s: seq<T>) returns (r: seq<T>)
    requires TotalPreorder(le)
    ensures SortedBy(le, r) && (forall k :: Class(le, k, r) == Class(le, k, s))
    ensures r == Sorted(le, s)
  {
    r := Sorted(le, s);
    SortedIsSorted(le, s);
    forall k ensures Class(le, k, r) == Class(le, k, s) {
      SortedStable(le, k, s);
    }
  }

  // ----- Sorted listings of a set of strings

  lemma StrLeIsTotalPreorder()
    ensures TotalPreorder(StrLe)
  {
    forall a, b ensures StrLe(a, b) || StrLe(b, a) { StrLeTotal(a, b); }
    forall a, b, c | StrLe(a, b) && StrLe(b, c) ensures StrLe(a, c) { StrLeTransitive(a, b, c); }
  }

  lemma SortedStringsUnique(a: seq<string>, b: seq<string>)
    requires SortedBy(StrLe, a) && SortedBy(StrLe, b) && multiset(a) == multiset(b)
    ensures a == b
  {
    StrLeIsTotalPreorder();
    forall x, y | x in a && y in a && StrLe(x, y) && StrLe(y, x) ensures x == y {
      StrLeAntisymmetric(x, y);
    }
    SortedUnique(StrLe, a, b);
  }

  /** Ranging over a Go map yields its keys once each, in some order. */
  method Keys<T>(s: set<T>) returns (order: seq<T>)
    ensures multiset(order) == multiset(s)
    ensures forall x :: x in order <==> x in s
  {
    order := [];
    var rest := s;
    while rest != {}
      invariant multiset(order) + multiset(rest) == multiset(s)
      decreases rest
    {
      var x :| x in rest;
      rest := rest - {x};
      order := order + [x];
    }
    assert forall x :: x in order <==> x in multiset(order);
  }
}
