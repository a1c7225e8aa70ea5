/** Sorting by a comparator, and the one sorted listing of a set under a strict total order. */
module Ordering {

  function Min(a: nat, b: nat): (m: nat)
    ensures m <= a && m <= b && (m == a || m == b)
  {
    if a < b then a else b
  }

  function Max(a: nat, b: nat): (m: nat)
    ensures m >= a && m >= b && (m == a || m == b)
  {
    if a < b then b else a
  }

  // ----- the library sort -----

  /** Place `x` after every element it does not precede. */
  function Insert<T>(x: T, s: seq<T>, leq: (T, T) -> bool): seq<T> {
    if s == [] then [x]
    else if leq(s[|s| - 1], x) then s + [x]
    else Insert(x, s[..|s| - 1], leq) + [s[|s| - 1]]
  }

  /** The library's stable `sort`, by insertion. */
  function SortBy<T>(s: seq<T>, leq: (T, T) -> bool): seq<T> {
    if s == [] then [] else Insert(s[|s| - 1], SortBy(s[..|s| - 1], leq), leq)
  }

  ghost predicate TotalPreorder<T(!new)>(leq: (T, T) -> bool) {
    && (forall a, b :: leq(a, b) || leq(b, a))
    && (forall a, b, c :: leq(a, b) && leq(b, c) ==> leq(a, c))
  }

  ghost predicate Sorted<T>(s: seq<T>, leq: (T, T) -> bool) {
    forall i, j :: 0 <= i < j < |s| ==> leq(s[i], s[j])
  }

  lemma {:induction false} InsertPermutes<T>(x: T, s: seq<T>, leq: (T, T) -> bool)
    ensures multiset(Insert(x, s, leq)) == multiset(s) + multiset{x}
  {
    if s == [] {
    } else {
      assert s == s[..|s| - 1] + [s[|s| - 1]];
      if !leq(s[|s| - 1], x) {
        InsertPermutes(x, s[..|s| - 1], leq);
      }
    }
  }

  /** Sorting permutes, whatever the comparator. */
  lemma {:induction false} SortPermutes<T>(s: seq<T>, leq: (T, T) -> bool)
    ensures multiset(SortBy(s, leq)) == multiset(s)
  {
    hide Insert;
    if s == [] {
    } else {
      var x, init := s[|s| - 1], s[..|s| - 1];
      SortPermutes(init, leq);
      InsertPermutes(x, SortBy(init, leq), leq);
      assert s == init + [x];
      assert multiset(s) == multiset(init) + multiset{x};
    }
  }

  ghost predicate Distinct<T>(s: seq<T>) {
    forall i, j :: 0 <= i < j < |s| ==> s[i] != s[j]
  }

  lemma AppearsTwice<T>(s: seq<T>, i: nat, j: nat)
    requires i < j < |s| && s[i] == s[j]
    ensures multiset(s)[s[i]] >= 2
  {
    assert s == s[..j] + [s[j]] + s[j + 1..];
    assert s[..j][i] == s[i];
    assert s[i] in multiset(s[..j]);
  }

  lemma {:induction false} AppearsOnce<T>(s: seq<T>, x: T)
    requires Distinct(s)
    ensures multiset(s)[x] <= 1
  {
    if s == [] {
    } else {
      var n := |s| - 1;
      assert s == s[..n] + [s[n]];
      AppearsOnce(s[..n], x);
      if s[n] == x {
        assert x !in s[..n];
        assert x !in multiset(s[..n]);
      }
    }
  }

  /** A permutation of a listing without repetition has none either. */
  lemma PermutedDistinct<T>(a: seq<T>, b: seq<T>)
    requires multiset(a) == multiset(b) && Distinct(a)
    ensures Distinct(b)
  {
    forall i, j | 0 <= i < j < |b| ensures b[i] != b[j] {
      if b[i] == b[j] {
        AppearsTwice(b, i, j);
        AppearsOnce(a, b[i]);
      }
    }
  }

  /** Two listings of the same elements without repetition are permutations of each other. */
  lemma SameElements<T>(a: seq<T>, b: seq<T>)
    requires Distinct(a) && Distinct(b) && forall x :: x in a <==> x in b
    ensures multiset(a) == multiset(b)
  {
    forall x ensures multiset(a)[x] == multiset(b)[x] {
      AppearsOnce(a, x);
      AppearsOnce(b, x);
      assert x in a <==> multiset(a)[x] > 0;
      assert x in b <==> multiset(b)[x] > 0;
    }
  }

  lemma PermutedMember<T>(s: seq<T>, t: seq<T>, x: T)
    requires multiset(s) == multiset(t)
    ensures x in s <==> x in t
  {
    assert x in s <==> x in multiset(s);
    assert x in t <==> x in multiset(t);
  }

  lemma SortedAppend<T>(t: seq<T>, z: T, leq: (T, T) -> bool)
    requires Sorted(t, leq) && forall e :: e in t ==> leq(e, z)
    ensures Sorted(t + [z], leq)
  {
  }

  lemma LastBounds<T(!new)>(s: seq<T>, leq: (T, T) -> bool)
    requires TotalPreorder(leq) && Sorted(s, leq) && s != []
    ensures forall e :: e in s ==> leq(e, s[|s| - 1])
  {
    var n := |s| - 1;
    forall i | 0 <= i < |s| ensures leq(s[i], s[n]) {
      assert leq(s[n], s[n]);
    }
  }

  lemma InsertMember<T>(x: T, s: seq<T>, leq: (T, T) -> bool, e: T)
    requires e in Insert(x, s, leq)
    ensures e == x || e in s
  {
    hide Insert;
    InsertPermutes(x, s, leq);
    assert e in multiset(Insert(x, s, leq));
  }

  lemma {:induction false} InsertSorts<T(!new)>(x: T, s: seq<T>, leq: (T, T) -> bool)
    requires TotalPreorder(leq) && Sorted(s, leq)
    ensures Sorted(Insert(x, s, leq), leq)
  {
    if s == [] {
    } else {
      var n := |s| - 1;
      LastBounds(s, leq);
      if leq(s[n], x) {
        SortedAppend(s, x, leq);
      } else {
        InsertSorts(x, s[..n], leq);
        forall e | e in Insert(x, s[..n], leq) ensures leq(e, s[n]) {
          InsertMember(x, s[..n], leq, e);
        }
        SortedAppend(Insert(x, s[..n], leq), s[n], leq);
      }
    }
  }

  lemma {:induction false} SortSorts<T(!new)>(s: seq<T>, leq: (T, T) -> bool)
    requires TotalPreorder(leq)
    ensures Sorted(SortBy(s, leq), leq)
  {
    if s == [] {
    } else {
      SortSorts(s[..|s| - 1], leq);
      InsertSorts(s[|s| - 1], SortBy(s[..|s| - 1], leq), leq);
    }
  }

  /** `localeCompare` taken as a strict total order on strings. */
  ghost predicate LocaleOrder(locale: (string, string) -> int) {
    && (forall a, b :: locale(a, b) == 0 <==> a == b)
    && (forall a, b :: locale(a, b) < 0 <==> locale(b, a) > 0)
    && (forall a, b, c :: locale(a, b) <= 0 && locale(b, c) <= 0 ==> locale(a, c) <= 0)
  }

  // ----- sorted listings of sets -----

  ghost predicate StrictTotal<T>(less: (T, T) -> bool, s: set<T>) {
    && (forall a :: a in s ==> !less(a, a))
    && (forall a, b :: a in s && b in s && a != b ==> less(a, b) || less(b, a))
    && (forall a, b, c :: a in s && b in s && c in s && less(a, b) && less(b, c) ==> less(a, c))
  }

  ghost predicate IsLeast<T>(m: T, s: set<T>, less: (T, T) -> bool) {
    m in s && forall x :: x in s && x != m ==> less(m, x)
  }

  lemma {:induction false} LeastExists<T>(s: set<T>, less: (T, T) -> bool) returns (m: T)
    requires s != {} && StrictTotal(less, s)
    ensures IsLeast(m, s, less)
    decreases s
  {
    var x :| x in s;
    if s == {x} {
      m := x;
    } else {
      var n := LeastExists(s - {x}, less);
      m := if less(x, n) then x else n;
    }
  }

  ghost function Least<T(!new)>(s: set<T>, less: (T, T) -> bool): (m: T)
    requires s != {} && StrictTotal(less, s)
    ensures IsLeast(m, s, less)
  {
    assert exists m :: IsLeast(m, s, less) by {
      var m := LeastExists(s, less);
    }
    var m :| IsLeast(m, s, less);
    m
  }

  /** The elements of `s`, least first. */
  ghost function Listing<T(!new)>(s: set<T>, less: (T, T) -> bool): seq<T>
    requires StrictTotal(less, s)
    decreases s
  {
    if s == {} then [] else
      var m := Least(s, less);
      [m] + Listing(s - {m}, less)
  }

  ghost predicate Ascends<T>(a: seq<T>, less: (T, T) -> bool) {
    forall i, j :: 0 <= i < j < |a| ==> less(a[i], a[j])
  }

  /** A strictly ascending sequence is the listing of its elements: the sorted order is unique. */
  lemma {:induction false} ListingUnique<T(!new)>(a: seq<T>, s: set<T>, less: (T, T) -> bool)
    requires StrictTotal(less, s) && Ascends(a, less)
    requires forall x :: x in s <==> x in a
    ensures a == Listing(s, less)
  {
    if a == [] {
      assert s == {};
    } else {
      assert a[0] in s;
      assert a == [a[0]] + a[1..];
      var m := Least(s, less);
      assert a[0] == m;
      forall x ensures x in s - {m} <==> x in a[1..] {
        if x in a[1..] {
          var i :| 1 <= i < |a| && a[i] == x;
          assert less(a[0], a[i]);
        }
      }
      ListingUnique(a[1..], s - {m}, less);
    }
  }

  /** Listings depend on the comparator only through its values on the set. */
  lemma {:induction false} ListingSame<T(!new)>(s: set<T>, less: (T, T) -> bool, other: (T, T) -> bool)
    requires StrictTotal(less, s) && StrictTotal(other, s)
    requires forall a, b :: a in s && b in s ==> less(a, b) == other(a, b)
    ensures Listing(s, less) == Listing(s, other)
    decreases s
  {
    if s != {} {
      var m, n := Least(s, less), Least(s, other);
      assert m == n;
      ListingSame(s - {m}, less, other);
    }
  }

  lemma {:induction false} ListingMembers<T(!new)>(s: set<T>, less: (T, T) -> bool)
    requires StrictTotal(less, s)
    ensures forall x :: x in Listing(s, less) <==> x in s
    decreases s
  {
    if s != {} {
      ListingMembers(s - {Least(s, less)}, less);
    }
  }

  lemma {:induction false} ListingAscends<T(!new)>(s: set<T>, less: (T, T) -> bool)
    requires StrictTotal(less, s)
    ensures Ascends(Listing(s, less), less)
    decreases s
  {
    if s != {} {
      var m := Least(s, less);
      ListingAscends(s - {m}, less);
      ListingMembers(s - {m}, less);
      var rest := Listing(s - {m}, less);
      assert forall k :: 0 <= k < |rest| ==> rest[k] in rest;
    }
  }

  /** A comparator that is a strict total order on all values. */
  ghost predicate StrictOrder<T(!new)>(less: (T, T) -> bool) {
    && (forall a :: !less(a, a))
    && (forall a, b :: a != b ==> less(a, b) || less(b, a))
    && (forall a, b, c :: less(a, b) && less(b, c) ==> less(a, c))
  }

  /** Sorting any listing of a set gives its one ascending listing. */
  lemma SortedListing<T(!new)>(found: seq<T>, s: set<T>, less: (T, T) -> bool, leq: (T, T) -> bool)
    requires StrictOrder(less) && forall p, q :: leq(p, q) <==> !less(q, p)
    requires Distinct(found) && forall p :: p in found <==> p in s
    ensures SortBy(found, leq) == Listing(s, less)
    ensures forall p :: p in SortBy(found, leq) <==> p in s
  {
    hide SortBy;
    var sorted := SortBy(found, leq);
    SortSorts(found, leq);
    SortPermutes(found, leq);
    PermutedDistinct(found, sorted);
    forall p ensures p in sorted <==> p in s {
      PermutedMember(sorted, found, p);
    }
    forall i, j | 0 <= i < j < |sorted| ensures less(sorted[i], sorted[j]) {
      assert leq(sorted[i], sorted[j]) && sorted[i] != sorted[j];
    }
    ListingUnique(sorted, s, less);
  }

  lemma {:induction false} DistinctSize<T>(found: seq<T>, s: set<T>)
    requires Distinct(found) && forall p :: p in found <==> p in s
    ensures |found| == |s|
    decreases |found|
  {
    if found == [] {
      assert s == {};
    } else {
      var p := found[0];
      assert found == [p] + found[1..];
      DistinctSize(found[1..], s - {p});
    }
  }

  // ----- an order that meets what is asked of comparators -----

  /** Comparing element by element by their codes, the shorter first: the default order of strings. */
  function ByCode<T>(a: seq<T>, b: seq<T>, code: T -> int): int {
    if a == [] then -|b|
    else if b == [] then 1
    else if code(a[0]) != code(b[0]) then code(a[0]) - code(b[0])
    else ByCode(a[1..], b[1..], code)
  }

  lemma {:induction false} ByCodeCompares<T>(a: seq<T>, b: seq<T>, code: T -> int)
    requires forall x, y :: code(x) == code(y) ==> x == y
    ensures ByCode(a, b, code) == 0 <==> a == b
    ensures ByCode(a, b, code) < 0 <==> ByCode(b, a, code) > 0
  {
    if a != [] && b != [] {
      ByCodeCompares(a[1..], b[1..], code);
      assert a == [a[0]] + a[1..] && b == [b[0]] + b[1..];
    }
  }

  lemma {:induction false} ByCodeTransitive<T>(a: seq<T>, b: seq<T>, c: seq<T>, code: T -> int)
    requires ByCode(a, b, code) <= 0 && ByCode(b, c, code) <= 0
    ensures ByCode(a, c, code) <= 0
  {
    if a != [] && b != [] && c != [] && code(a[0]) == code(b[0]) == code(c[0]) {
      ByCodeTransitive(a[1..], b[1..], c[1..], code);
    }
  }

  /** It is an order as `localeCompare` is taken to be. */
  lemma CodeUnitsAreALocale()
    ensures LocaleOrder((a, b) => ByCode(a, b, (c: char) => c as int))
  {
    var code := (c: char) => c as int;
    forall a: string, b: string
      ensures ByCode(a, b, code) == 0 <==> a == b
      ensures ByCode(a, b, code) < 0 <==> ByCode(b, a, code) > 0
    {
      ByCodeCompares(a, b, code);
    }
    forall a: string, b: string, c: string | ByCode(a, b, code) <= 0 && ByCode(b, c, code) <= 0
      ensures ByCode(a, c, code) <= 0
    {
      ByCodeTransitive(a, b, c, code);
    }
  }

  /** And a strict total order on sequences of anything told apart by its codes. */
  lemma CodesAreStrict<T(!new)>(code: T -> int)
    requires forall x, y :: code(x) == code(y) ==> x == y
    ensures StrictOrder((a: seq<T>, b: seq<T>) => ByCode(a, b, code) < 0)
  {
    forall a: seq<T>, b: seq<T>
      ensures ByCode(a, b, code) == 0 <==> a == b
      ensures ByCode(a, b, code) < 0 <==> ByCode(b, a, code) > 0
    {
      ByCodeCompares(a, b, code);
    }
    forall a: seq<T>, b: seq<T>, c: seq<T> | ByCode(a, b, code) < 0 && ByCode(b, c, code) < 0
      ensures ByCode(a, c, code) < 0
    {
      ByCodeTransitive(a, b, c, code);
      if ByCode(a, c, code) == 0 {
        ByCodeCompares(a, c, code);
        ByCodeCompares(a, b, code);
      }
    }
  }
}
