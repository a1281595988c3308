/** Sorting by a caller-supplied order, the lexicographic order on strings, and
    the fact every "order does not matter" argument in this project rests on: a
    strictly sorted sequence is determined by its set of elements. */
module Orders {

  ghost predicate StrictOrder<T(!new)>(less: (T, T) -> bool) {
    && (forall x, y :: less(x, y) ==> !less(y, x))
    && (forall x, y, z :: less(x, y) && less(y, z) ==> less(x, z))
  }

  ghost predicate Sorted<T>(s: seq<T>, less: (T, T) -> bool) {
    forall i, j :: 0 <= i < j < |s| ==> less(s[i], s[j])
  }

  ghost predicate NoDup<T>(s: seq<T>) {
    forall i, j :: 0 <= i < j < |s| ==> s[i] != s[j]
  }

  /** Two strictly sorted sequences with the same elements are equal. */
  lemma {:induction false} SortedUnique<T(!new)>(a: seq<T>, b: seq<T>, less: (T, T) -> bool)
    requires forall x, y :: less(x, y) ==> !less(y, x)
    requires Sorted(a, less) && Sorted(b, less)
    requires forall x :: x in a <==> x in b
    ensures a == b
  {
    assert |a| > 0 ==> a[0] in a;
    assert |b| > 0 ==> b[0] in b;
    if a != [] && b != [] {
      assert a[0] in b && b[0] in a;
      assert !less(a[0], a[0]) && !less(b[0], b[0]);
      assert a[0] == b[0];
      forall x ensures x in a[1..] <==> x in b[1..] {
        if x in a[1..] { assert x in b; assert less(a[0], x); }
        if x in b[1..] { assert x in a; assert less(b[0], x); }
      }
      SortedUnique(a[1..], b[1..], less);
      assert a == [a[0]] + a[1..] && b == [b[0]] + b[1..];
    }
  }

  /** Put `x` in its place in a strictly sorted sequence. */
  method InsertSorted<T(!new)>(r: seq<T>, x: T, less: (T, T) -> bool) returns (r': seq<T>)
    requires StrictOrder(less) && Sorted(r, less)
    requires forall y :: y in r ==> less(y, x) || less(x, y)
    ensures Sorted(r', less)
    ensures multiset(r') == multiset(r) + multiset{x}
  {
    hide StrictOrder, Sorted;
    var k := 0;
    while k < |r| && less(r[k], x)
      invariant 0 <= k <= |r|
      invariant forall j :: 0 <= j < k ==> less(r[j], x)
    {
      k := k + 1;
    }
    if k < |r| {
      assert r[k] in r;
      AllAbove(r, k, x, less);
    }
    r' := r[..k] + [x] + r[k..];
    assert r == r[..k] + r[k..];
    InsertedSorted(r[..k], x, r[k..], less);
  }

  lemma AllAbove<T(!new)>(r: seq<T>, k: nat, x: T, less: (T, T) -> bool)
    requires StrictOrder(less) && Sorted(r, less) && k < |r| && less(x, r[k])
    ensures forall j :: k <= j < |r| ==> less(x, r[j])
  {
  }

  lemma InsertedSorted<T(!new)>(a: seq<T>, x: T, b: seq<T>, less: (T, T) -> bool)
    requires Sorted(a + b, less)
    requires (forall i :: 0 <= i < |a| ==> less(a[i], x)) && (forall j :: 0 <= j < |b| ==> less(x, b[j]))
    ensures Sorted(a + [x] + b, less)
  {
    var s, s' := a + b, a + [x] + b;
    forall i, j | 0 <= i < j < |s'| ensures less(s'[i], s'[j]) {
      if i != |a| && j != |a| {
        assert s'[i] == s[if i < |a| then i else i - 1];
        assert s'[j] == s[if j < |a| then j else j - 1];
      }
    }
  }

  /** Stands in for the standard library's `sort_by` on pairwise different keys:
      the result is strictly sorted and holds exactly the given elements. */
  method SortBy<T(!new)>(s: seq<T>, less: (T, T) -> bool) returns (r: seq<T>)
    requires StrictOrder(less)
    requires forall i, j :: 0 <= i < j < |s| ==> less(s[i], s[j]) || less(s[j], s[i])
    ensures Sorted(r, less)
    ensures multiset(r) == multiset(s)
  {
    r := [];
    for i := 0 to |s|
      invariant Sorted(r, less)
      invariant multiset(r) == multiset(s[..i])
    {
      forall y | y in r ensures less(y, s[i]) || less(s[i], y) {
        assert y in multiset(s[..i]);
        var j :| 0 <= j < i && s[..i][j] == y;
        assert s[j] == y;
      }
      assert s[..i + 1] == s[..i] + [s[i]];
      r := InsertSorted(r, s[i], less);
    }
    assert s[..|s|] == s;
  }

  /** Byte-wise lexicographic order, as `str::cmp` and SQLite's BINARY collation give it. */
  predicate StringLess(a: string, b: string) {
    if b == [] then false
    else if a == [] then true
    else a[0] < b[0] || (a[0] == b[0] && StringLess(a[1..], b[1..]))
  }

  /** That is: at the first place where they differ, `a` has the smaller character or is at its end. */
  lemma {:induction false} StringLessMeans(a: string, b: string)
    ensures StringLess(a, b) <==>
              exists k: nat :: k <= |a| && k < |b| && a[..k] == b[..k] && (k == |a| || a[k] < b[k])
  {
    if a != [] && b != [] && a[0] == b[0] {
      StringLessMeans(a[1..], b[1..]);
      if k: nat :|
        k <= |a[1..]| && k < |b[1..]| && a[1..][..k] == b[1..][..k] && (k == |a[1..]| || a[1..][k] < b[1..][k])
      {
        assert a[..k + 1] == [a[0]] + a[1..][..k] && b[..k + 1] == [b[0]] + b[1..][..k];
      }
      if k: nat :| k <= |a| && k < |b| && a[..k] == b[..k] && (k == |a| || a[k] < b[k]) {
        assert k > 0;
        assert a[1..][..k - 1] == a[..k][1..] && b[1..][..k - 1] == b[..k][1..];
      }
    } else if a != [] && b != [] {
      assert a[..0] == b[..0];
      forall k: nat | 0 < k <= |a| && k < |b| ensures a[..k] != b[..k] { assert a[..k][0] != b[..k][0]; }
    } else if a == [] && b != [] {
      assert a[..0] == b[..0];
    }
  }

  lemma {:induction false} StringLessAsymmetric(a: string, b: string)
    requires StringLess(a, b)
    ensures !StringLess(b, a)
  {
    if a != [] && a[0] == b[0] { StringLessAsymmetric(a[1..], b[1..]); }
  }

  lemma {:induction false} StringLessTransitive(a: string, b: string, c: string)
    requires StringLess(a, b) && StringLess(b, c)
    ensures StringLess(a, c)
  {
    if a != [] && a[0] == b[0] && b[0] == c[0] { StringLessTransitive(a[1..], b[1..], c[1..]); }
  }

  lemma {:induction false} StringLessTotal(a: string, b: string)
    ensures a == b || StringLess(a, b) || StringLess(b, a)
  {
    if a != [] && b != [] && a[0] == b[0] {
      StringLessTotal(a[1..], b[1..]);
      assert a == [a[0]] + a[1..] && b == [b[0]] + b[1..];
    }
  }

  lemma StringLessStrict()
    ensures forall a, b :: StringLess(a, b) ==> !StringLess(b, a)
    ensures forall a, b, c :: StringLess(a, b) && StringLess(b, c) ==> StringLess(a, c)
    ensures forall a, b :: a == b || StringLess(a, b) || StringLess(b, a)
  {
    forall a, b | StringLess(a, b) ensures !StringLess(b, a) { StringLessAsymmetric(a, b); }
    forall a, b, c | StringLess(a, b) && StringLess(b, c) ensures StringLess(a, c) { StringLessTransitive(a, b, c); }
    forall a, b ensures a == b || StringLess(a, b) || StringLess(b, a) { StringLessTotal(a, b); }
  }
}
