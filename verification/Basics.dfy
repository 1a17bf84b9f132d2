/** Result and option types, and the order on strings and sorted sequences shared by every component. */
module Basics {

  datatype Option<+T> = None | Some(value: T) {
    function GetOr(default: T): T {
      if Some? then value else default
    }
  }

  datatype Result<+T, +E> = Ok(value: T) | Err(error: E)

  const U32: nat := 0x1_0000_0000

  type u32 = x: nat | x < U32

  function Max(a: int, b: int): int {
    if a >= b then a else b
  }

  function Min(a: int, b: int): int {
    if a <= b then a else b
  }

  /** The `n` numbers below `n`. */
  ghost function Below(n: nat): (s: set<nat>)
    ensures |s| == n && forall x: nat :: x in s <==> x < n
  {
    if n == 0 then {} else Below(n - 1) + {n - 1}
  }

  lemma Assoc<T>(a: seq<T>, b: seq<T>, c: seq<T>)
    ensures a + (b + c) == a + b + c
  {
  }

  lemma Regroup<T>(a: seq<T>, b: seq<T>, c: seq<T>, d: seq<T>)
    ensures a + (b + c + d) == a + b + c + d
  {
  }

  lemma SubsetSize<T>(a: set<T>, b: set<T>)
    requires a <= b
    ensures |a| <= |b|
  {
    assert b == a + (b - a);
  }
}

/** Strict total orders, and sequences sorted by them without duplicates. */
module Order {

  ghost predicate StrictTotal<T(!new)>(less: (T, T) -> bool) {
    && (forall x :: !less(x, x))
    && (forall x, y :: x != y ==> less(x, y) || less(y, x))
    && (forall x, y, z :: less(x, y) && less(y, z) ==> less(x, z))
  }

  ghost predicate Ascending<T>(less: (T, T) -> bool, s: seq<T>) {
    forall i, j :: 0 <= i < j < |s| ==> less(s[i], s[j])
  }

  /** Sorted insertion; an element already present is left alone. */
  function Insert<T(==, !new)>(less: (T, T) -> bool, x: T, s: seq<T>): (r: seq<T>)
    ensures forall y :: y in r <==> y == x || y in s
  {
    if s == [] then [x]
    else if x == s[0] then s
    else if less(x, s[0]) then [x] + s
    else [s[0]] + Insert(less, x, s[1..])
  }

  lemma {:induction false} InsertAscending<T(!new)>(less: (T, T) -> bool, x: T, s: seq<T>)
    requires StrictTotal(less) && Ascending(less, s)
    ensures Ascending(less, Insert(less, x, s))
  {
    if s != [] && x != s[0] {
      var r := Insert(less, x, s);
      if less(x, s[0]) {
        forall i, j | 0 <= i < j < |r| ensures less(r[i], r[j]) {
          if i == 0 && j > 1 { assert less(s[0], s[j - 1]); }
        }
      } else {
        InsertAscending(less, x, s[1..]);
        var t := Insert(less, x, s[1..]);
        forall i, j | 0 <= i < j < |r| ensures less(r[i], r[j]) {
          if i == 0 {
            assert r[j] == t[j - 1] && t[j - 1] in t;
          }
        }
      }
    }
  }

  lemma AscendingLeast<T(!new)>(less: (T, T) -> bool, s: seq<T>, x: T)
    requires StrictTotal(less) && Ascending(less, s) && x in s
    ensures s[0] == x || less(s[0], x)
  {
    var i :| 0 <= i < |s| && s[i] == x;
    assert i > 0 ==> less(s[0], s[i]);
  }

  /** A strictly ascending sequence is determined by its elements. */
  lemma {:induction false} AscendingUnique<T(!new)>(less: (T, T) -> bool, a: seq<T>, b: seq<T>)
    requires StrictTotal(less) && Ascending(less, a) && Ascending(less, b)
    requires forall x :: x in a <==> x in b
    ensures a == b
  {
    assert b != [] ==> b[0] in b;
    if a != [] {
      assert a[0] in b && b[0] in a;
      AscendingLeast(less, a, b[0]);
      AscendingLeast(less, b, a[0]);
      forall x ensures x in a[1..] <==> x in b[1..] {
        if x in a[1..] {
          var k :| 1 <= k < |a| && a[k] == x;
          assert less(a[0], x) && x in b;
          var l :| 0 <= l < |b| && b[l] == x;
          assert b[1..][l - 1] == x;
        }
        if x in b[1..] {
          var k :| 1 <= k < |b| && b[k] == x;
          assert less(b[0], x) && x in a;
          var l :| 0 <= l < |a| && a[l] == x;
          assert a[1..][l - 1] == x;
        }
      }
      AscendingUnique(less, a[1..], b[1..]);
      assert a == [a[0]] + a[1..] && b == [b[0]] + b[1..];
    }
  }

  /** Code point order on strings, which is the byte order of their UTF-8 form. */
  predicate StringLess(a: string, b: string) {
    if b == [] then false
    else if a == [] then true
    else a[0] < b[0] || (a[0] == b[0] && StringLess(a[1..], b[1..]))
  }

  /** The strings agree up to `k`, where the first one ends or has the smaller character. */
  predicate DiffersAt(a: string, b: string, k: nat) {
    k <= |a| && k < |b| && a[..k] == b[..k] && (k == |a| || a[k] < b[k])
  }

  lemma SameHead(a: string, b: string, k: nat)
    requires DiffersAt(a, b, k)
    ensures k > 0 ==> a != [] && b != [] && a[0] == b[0]
  {
    if k > 0 { assert a[..k][0] == b[..k][0]; }
  }

  lemma {:induction false} StringLessIs(a: string, b: string)
    ensures StringLess(a, b) <==> exists k: nat :: DiffersAt(a, b, k)
  {
    if a != [] && b != [] && a[0] == b[0] {
      StringLessIs(a[1..], b[1..]);
      if k: nat :| DiffersAt(a[1..], b[1..], k) {
        assert a[..k + 1] == [a[0]] + a[1..][..k] && b[..k + 1] == [b[0]] + b[1..][..k];
        assert DiffersAt(a, b, k + 1);
      }
      if k: nat :| DiffersAt(a, b, k) {
        assert k > 0;
        assert a[1..][..k - 1] == a[..k][1..] && b[1..][..k - 1] == b[..k][1..];
        assert DiffersAt(a[1..], b[1..], k - 1);
      }
    } else {
      assert DiffersAt(a, b, 0) <==> StringLess(a, b);
      forall k: nat | DiffersAt(a, b, k) ensures k == 0 {
        SameHead(a, b, k);
      }
    }
  }

  lemma {:induction false} StringLessIrreflexive(a: string)
    ensures !StringLess(a, a)
  {
    if a != [] { StringLessIrreflexive(a[1..]); }
  }

  lemma {:induction false} StringLessConnected(a: string, b: string)
    requires a != b
    ensures StringLess(a, b) || StringLess(b, a)
  {
    if a != [] && b != [] && a[0] == b[0] {
      assert a == [a[0]] + a[1..] && b == [b[0]] + b[1..];
      StringLessConnected(a[1..], b[1..]);
    }
  }

  lemma {:induction false} StringLessTransitive(a: string, b: string, c: string)
    requires StringLess(a, b) && StringLess(b, c)
    ensures StringLess(a, c)
  {
    if a != [] && a[0] == b[0] && b[0] == c[0] {
      StringLessTransitive(a[1..], b[1..], c[1..]);
    }
  }

  lemma {:induction false} StringLessTotal()
    ensures StrictTotal(StringLess)
  {
    forall x ensures !StringLess(x, x) { StringLessIrreflexive(x); }
    forall x, y | x != y ensures StringLess(x, y) || StringLess(y, x) { StringLessConnected(x, y); }
    forall x, y, z | StringLess(x, y) && StringLess(y, z) ensures StringLess(x, z) {
      StringLessTransitive(x, y, z);
    }
  }

  /** `sort` followed by `dedup`, on strings. */
  function SortedNames(names: seq<string>): seq<string> {
    if names == [] then [] else Insert(StringLess, names[|names| - 1], SortedNames(names[..|names| - 1]))
  }

  lemma {:induction false} SortedNamesFacts(names: seq<string>)
    ensures Ascending(StringLess, SortedNames(names))
    ensures forall x :: x in SortedNames(names) <==> x in names
  {
    if names != [] {
      var n := |names| - 1;
      StringLessTotal();
      SortedNamesFacts(names[..n]);
      InsertAscending(StringLess, names[n], SortedNames(names[..n]));
      assert names == names[..n] + [names[n]];
    }
  }
}

/** A stable sort, by insertion after everything that may stand before. */
module Sorting {

  ghost predicate TotalPreorder<T(!new)>(leq: (T, T) -> bool) {
    && (forall x, y :: leq(x, y) || leq(y, x))
    && (forall x, y, z :: leq(x, y) && leq(y, z) ==> leq(x, z))
  }

  ghost predicate Antisymmetric<T(!new)>(leq: (T, T) -> bool) {
    forall x, y :: leq(x, y) && leq(y, x) ==> x == y
  }

  function InsertAfter<T>(leq: (T, T) -> bool, s: seq<T>, x: T): seq<T> {
    if s == [] || leq(s[|s| - 1], x) then s + [x] else InsertAfter(leq, s[..|s| - 1], x) + [s[|s| - 1]]
  }

  function Sort<T>(leq: (T, T) -> bool, s: seq<T>): seq<T> {
    if s == [] then [] else InsertAfter(leq, Sort(leq, s[..|s| - 1]), s[|s| - 1])
  }

  ghost predicate InOrder<T>(leq: (T, T) -> bool, s: seq<T>) {
    forall i, j :: 0 <= i < j < |s| ==> leq(s[i], s[j])
  }

  lemma {:induction false} InsertPermutes<T>(leq: (T, T) -> bool, s: seq<T>, x: T)
    ensures multiset(InsertAfter(leq, s, x)) == multiset(s) + multiset{x}
  {
    if !(s == [] || leq(s[|s| - 1], x)) {
      InsertPermutes(leq, s[..|s| - 1], x);
      assert s == s[..|s| - 1] + [s[|s| - 1]];
    }
  }

  lemma {:induction false} SortPermutes<T>(leq: (T, T) -> bool, s: seq<T>)
    ensures multiset(Sort(leq, s)) == multiset(s)
  {
    if s != [] {
      var n := |s| - 1;
      SortPermutes(leq, s[..n]);
      InsertPermutes(leq, Sort(leq, s[..n]), s[n]);
      assert s == s[..n] + [s[n]];
    }
  }

  lemma SortHas<T>(leq: (T, T) -> bool, s: seq<T>, x: T)
    ensures x in Sort(leq, s) <==> x in s
  {
    SortPermutes(leq, s);
    assert x in Sort(leq, s) <==> x in multiset(Sort(leq, s));
  }

  lemma {:induction false} InsertSorted<T(!new)>(leq: (T, T) -> bool, s: seq<T>, x: T)
    requires TotalPreorder(leq) && InOrder(leq, s)
    ensures InOrder(leq, InsertAfter(leq, s, x))
  {
    if s == [] || leq(s[|s| - 1], x) {
      forall i | 0 <= i < |s| ensures leq(s[i], x) {
        if i < |s| - 1 { assert leq(s[i], s[|s| - 1]); }
      }
    } else {
      var n := |s| - 1;
      var r := InsertAfter(leq, s[..n], x);
      InsertSorted(leq, s[..n], x);
      InsertPermutes(leq, s[..n], x);
      forall i | 0 <= i < |r| ensures leq(r[i], s[n]) {
        assert r[i] in multiset(r);
        assert r[i] == x || r[i] in s[..n];
      }
    }
  }

  lemma {:induction false} SortSorts<T(!new)>(leq: (T, T) -> bool, s: seq<T>)
    requires TotalPreorder(leq)
    ensures InOrder(leq, Sort(leq, s))
  {
    if s != [] {
      SortSorts(leq, s[..|s| - 1]);
      InsertSorted(leq, Sort(leq, s[..|s| - 1]), s[|s| - 1]);
    }
  }

  /** In order, and of two elements that may stand either way the one that came earlier stands first. */
  ghost predicate StablyInOrder<T>(leq: (T, T) -> bool, earlier: (T, T) -> bool, s: seq<T>) {
    forall i, j :: 0 <= i < j < |s| ==> leq(s[i], s[j]) && (leq(s[j], s[i]) ==> earlier(s[i], s[j]))
  }

  lemma OfInserted<T>(leq: (T, T) -> bool, s: seq<T>, x: T, y: T)
    requires y in InsertAfter(leq, s, x)
    ensures y == x || y in s
  {
    InsertPermutes(leq, s, x);
    assert y in multiset(InsertAfter(leq, s, x));
  }

  lemma {:induction false} InsertStable<T(!new)>(leq: (T, T) -> bool, earlier: (T, T) -> bool, s: seq<T>, x: T)
    requires TotalPreorder(leq) && StablyInOrder(leq, earlier, s) && forall y :: y in s ==> earlier(y, x)
    ensures StablyInOrder(leq, earlier, InsertAfter(leq, s, x))
  {
    if s == [] || leq(s[|s| - 1], x) {
      forall i | 0 <= i < |s| ensures leq(s[i], x) && earlier(s[i], x) {
        if i < |s| - 1 { assert leq(s[i], s[|s| - 1]); }
      }
    } else {
      var n := |s| - 1;
      var r := InsertAfter(leq, s[..n], x);
      InsertStable(leq, earlier, s[..n], x);
      forall i | 0 <= i < |r| ensures leq(r[i], s[n]) && (leq(s[n], r[i]) ==> earlier(r[i], s[n])) {
        OfInserted(leq, s[..n], x, r[i]);
      }
    }
  }

  /** The sort keeps elements that may stand either way in the order they came in. */
  lemma {:induction false} SortIsStable<T(!new)>(leq: (T, T) -> bool, earlier: (T, T) -> bool, s: seq<T>)
    requires TotalPreorder(leq) && forall i, j :: 0 <= i < j < |s| ==> earlier(s[i], s[j])
    ensures StablyInOrder(leq, earlier, Sort(leq, s))
  {
    if s != [] {
      var n := |s| - 1;
      SortIsStable(leq, earlier, s[..n]);
      forall y | y in Sort(leq, s[..n]) ensures earlier(y, s[n]) {
        SortHas(leq, s[..n], y);
      }
      InsertStable(leq, earlier, Sort(leq, s[..n]), s[n]);
    }
  }

  lemma {:induction false} SortedUnique<T(!new)>(leq: (T, T) -> bool, a: seq<T>, b: seq<T>)
    requires Antisymmetric(leq) && InOrder(leq, a) && InOrder(leq, b) && multiset(a) == multiset(b)
    ensures a == b
    decreases a
  {
    assert |multiset(a)| == |a| && |multiset(b)| == |b|;
    if a != [] {
      SameLast(leq, a, b);
      var a', b' := a[..|a| - 1], b[..|b| - 1];
      WithoutLast(a, a');
      WithoutLast(b, b');
      SortedUnique(leq, a', b');
      assert a == a' + [a[|a| - 1]] && b == b' + [b[|b| - 1]];
    }
  }

  lemma WithoutLast<T>(s: seq<T>, s': seq<T>)
    requires s != [] && s' == s[..|s| - 1]
    ensures multiset(s') == multiset(s) - multiset{s[|s| - 1]}
  {
    assert s == s' + [s[|s| - 1]];
  }

  lemma SameLast<T(!new)>(leq: (T, T) -> bool, a: seq<T>, b: seq<T>)
    requires Antisymmetric(leq) && InOrder(leq, a) && InOrder(leq, b) && multiset(a) == multiset(b) && a != []
    ensures b != [] && a[|a| - 1] == b[|b| - 1]
  {
    var x := a[|a| - 1];
    assert x in multiset(a) && x in multiset(b);
    var i :| 0 <= i < |b| && b[i] == x;
    var y := b[|b| - 1];
    assert y in multiset(b) && y in multiset(a);
    var j :| 0 <= j < |a| && a[j] == y;
    assert i < |b| - 1 ==> leq(x, y);
    assert j < |a| - 1 ==> leq(y, x);
  }

  /** The order in which the elements come does not matter. */
  lemma SortIgnoresOrder<T(!new)>(leq: (T, T) -> bool, s: seq<T>, t: seq<T>)
    requires TotalPreorder(leq) && Antisymmetric(leq) && multiset(s) == multiset(t)
    ensures Sort(leq, s) == Sort(leq, t)
  {
    SortSorts(leq, s);
    SortSorts(leq, t);
    SortPermutes(leq, s);
    SortPermutes(leq, t);
    SortedUnique(leq, Sort(leq, s), Sort(leq, t));
  }
}
