/** Code-point order on strings and stable sorting, as `sorted` and `list.sort` do it. */
module Order {

  predicate StringLess(a: string, b: string) {
    if b == [] then false
    else if a == [] then true
    else a[0] < b[0] || (a[0] == b[0] && StringLess(a[1..], b[1..]))
  }

  /** Dictionary order: a proper prefix comes first, and otherwise the first difference decides. */
  lemma {:induction false} DictionaryOrder(a: string, b: string)
    ensures StringLess(a, b) <==>
      (a != b && a <= b) || exists i :: 0 <= i < |a| && i < |b| && a[..i] == b[..i] && a[i] < b[i]
  {
    if a != [] && b != [] && a[0] == b[0] {
      var x, y := a[1..], b[1..];
      DictionaryOrder(x, y);
      assert a == [a[0]] + x && b == [b[0]] + y;
      forall i | 0 <= i < |x| && i < |y|
        ensures x[..i] == y[..i] <==> a[..i + 1] == b[..i + 1]
      {
        assert a[..i + 1] == [a[0]] + x[..i] && b[..i + 1] == [b[0]] + y[..i];
        if a[..i + 1] == b[..i + 1] { assert x[..i] == a[..i + 1][1..] == y[..i]; }
      }
      if i :| 0 <= i < |x| && i < |y| && x[..i] == y[..i] && x[i] < y[i] {
        assert a[..i + 1] == b[..i + 1] && a[i + 1] < b[i + 1];
      }
      if i :| 0 <= i < |a| && i < |b| && a[..i] == b[..i] && a[i] < b[i] {
        assert x[i - 1] < y[i - 1] && x[..i - 1] == y[..i - 1];
      }
    } else if a != [] && b != [] {
      assert a[..0] == b[..0];
      assert forall i | 0 < i < |a| && i < |b| :: a[..i] == b[..i] ==> a[..i][0] == b[..i][0];
    }
  }

  lemma {:induction false} StringLessTransitive(a: string, b: string, c: string)
    requires StringLess(a, b) && StringLess(b, c)
    ensures StringLess(a, c)
  {
    if a != [] && a[0] == b[0] && b[0] == c[0] {
      StringLessTransitive(a[1..], b[1..], c[1..]);
    }
  }

  lemma {:induction false} StringLessIrreflexive(a: string)
    ensures !StringLess(a, a)
  {
    if a != [] { StringLessIrreflexive(a[1..]); }
  }

  lemma {:induction false} StringLessConnected(a: string, b: string)
    ensures StringLess(a, b) || StringLess(b, a) || a == b
  {
    if a != [] && b != [] && a[0] == b[0] {
      StringLessConnected(a[1..], b[1..]);
      assert a == [a[0]] + a[1..] && b == [b[0]] + b[1..];
    }
  }

  /** A string comes before each of its proper extensions. */
  lemma {:induction false} PrefixLess(a: string, b: string)
    requires a < b
    ensures StringLess(a, b)
  {
    if a != [] { PrefixLess(a[1..], b[1..]); }
  }

  /** A strict total order, the kind of comparison every sort of the source uses on distinct keys. */
  ghost predicate StrictTotal<T(!new)>(less: (T, T) -> bool) {
    && (forall a :: !less(a, a))
    && (forall a, b, c :: less(a, b) && less(b, c) ==> less(a, c))
    && (forall a, b :: less(a, b) || less(b, a) || a == b)
  }

  lemma StringsAreOrdered()
    ensures StrictTotal(StringLess)
  {
    forall a { StringLessIrreflexive(a); }
    forall a, b, c | StringLess(a, b) && StringLess(b, c) { StringLessTransitive(a, b, c); }
    forall a, b ensures StringLess(a, b) || StringLess(b, a) || a == b { StringLessConnected(a, b); }
  }

  /** `sorted` never puts a larger element before a smaller one. */
  ghost predicate Sorted<T>(less: (T, T) -> bool, s: seq<T>) {
    forall i, j | 0 <= i < j < |s| :: !less(s[j], s[i])
  }

  ghost predicate Unique<T>(s: seq<T>) {
    forall i, j | 0 <= i < j < |s| :: s[i] != s[j]
  }

  /** Equality of keys is allowed: `less` is only asked to compare consistently. */
  ghost predicate Consistent<T(!new)>(less: (T, T) -> bool) {
    && (forall a, b :: less(a, b) ==> !less(b, a))
    && (forall a, b, c :: !less(b, a) && !less(c, b) ==> !less(c, a))
  }

  lemma TotalIsConsistent<T(!new)>(less: (T, T) -> bool)
    requires StrictTotal(less)
    ensures Consistent(less)
  {
  }

  function Insert<T>(less: (T, T) -> bool, x: T, s: seq<T>): (r: seq<T>)
    ensures multiset(r) == multiset(s) + multiset{x}
  {
    if s == [] then [x]
    else if less(x, s[0]) then [x] + s
    else
      assert s == [s[0]] + s[1..];
      [s[0]] + Insert(less, x, s[1..])
  }

  function Sort<T>(less: (T, T) -> bool, s: seq<T>): (r: seq<T>)
    ensures multiset(r) == multiset(s)
    ensures |r| == |s|
  {
    if s == [] then []
    else
      var r := Insert(less, s[|s| - 1], Sort(less, s[..|s| - 1]));
      assert s == s[..|s| - 1] + [s[|s| - 1]];
      assert |multiset(r)| == |multiset(s)|;
      r
  }

  lemma {:induction false} InsertSorted<T(!new)>(less: (T, T) -> bool, x: T, s: seq<T>)
    requires Consistent(less) && Sorted(less, s)
    ensures Sorted(less, Insert(less, x, s))
  {
    if s != [] && !less(x, s[0]) {
      InsertSorted(less, x, s[1..]);
      var rest := Insert(less, x, s[1..]);
      forall j | 0 <= j < |rest|
        ensures !less(rest[j], s[0])
      {
        assert rest[j] in multiset(rest);
        assert rest[j] == x || rest[j] in s[1..];
      }
    }
  }

  lemma {:induction false} SortSorted<T(!new)>(less: (T, T) -> bool, s: seq<T>)
    requires Consistent(less)
    ensures Sorted(less, Sort(less, s))
  {
    if s != [] {
      SortSorted(less, s[..|s| - 1]);
      InsertSorted(less, s[|s| - 1], Sort(less, s[..|s| - 1]));
    }
  }

  lemma SortMembers<T>(less: (T, T) -> bool, s: seq<T>)
    ensures forall x :: x in Sort(less, s) <==> x in s
  {
    forall x
      ensures x in Sort(less, s) <==> x in s
    {
      assert x in Sort(less, s) <==> x in multiset(Sort(less, s));
    }
  }

  lemma UniqueByMultiset<T>(s: seq<T>, r: seq<T>)
    requires Unique(s) && multiset(r) == multiset(s)
    ensures Unique(r)
  {
    forall i, j | 0 <= i < j < |r|
      ensures r[i] != r[j]
    {
      if r[i] == r[j] {
        assert r == r[..i] + [r[i]] + r[i + 1..j] + [r[j]] + r[j + 1..];
        assert multiset(r)[r[i]] >= 2;
        UniqueCount(s, r[i]);
      }
    }
  }

  lemma UniqueFront<T>(s: seq<T>, x: T)
    requires Unique(s + [x])
    ensures Unique(s) && x !in s
  {
    var both := s + [x];
    forall i | 0 <= i < |s|
      ensures s[i] != x
    {
      assert both[i] == s[i] && both[|s|] == x;
    }
    forall i, j | 0 <= i < j < |s|
      ensures s[i] != s[j]
    {
      assert both[i] == s[i] && both[j] == s[j];
    }
  }

  lemma {:induction false} UniqueCount<T>(s: seq<T>, x: T)
    requires Unique(s)
    ensures multiset(s)[x] <= 1
  {
    if s != [] {
      assert s == [s[0]] + s[1..];
      UniqueCount(s[1..], x);
      if x == s[0] {
        assert x !in s[1..];
        assert multiset(s[1..])[x] == 0;
      }
    }
  }

  /** Different elements of the list compare one way or the other. */
  ghost predicate Separates<T(!new)>(less: (T, T) -> bool, s: seq<T>) {
    forall x, y | x in s && y in s && x != y :: less(x, y) || less(y, x)
  }

  /** Two sorted lists of the same separated elements are the same list. */
  lemma {:induction false} SortedSame<T(!new)>(less: (T, T) -> bool, s: seq<T>, r: seq<T>)
    requires Separates(less, s) && Sorted(less, s) && Sorted(less, r) && Unique(s) && Unique(r)
    requires forall x :: x in s <==> x in r
    ensures s == r
  {
    if s == [] {
      assert forall i | 0 <= i < |r| :: r[i] in r;
    } else {
      assert s[0] in s && s[0] in r;
      assert r[0] in r && r[0] in s;
      assert s[0] == r[0];
      forall x
        ensures x in s[1..] <==> x in r[1..]
      {
        assert s == [s[0]] + s[1..] && r == [r[0]] + r[1..];
        assert x in s[1..] ==> x in s && x != s[0];
        assert x in r[1..] ==> x in r && x != r[0];
      }
      SortedSame(less, s[1..], r[1..]);
      assert s == [s[0]] + s[1..] && r == [r[0]] + r[1..];
    }
  }

  lemma SortedUnique<T(!new)>(less: (T, T) -> bool, s: seq<T>, r: seq<T>)
    requires StrictTotal(less) && Sorted(less, s) && Sorted(less, r) && Unique(s) && Unique(r)
    requires forall x :: x in s <==> x in r
    ensures s == r
  {
    SortedSame(less, s, r);
  }

  /** The elements of a set as a sorted list, as `sorted(set)` gives them. */
  method SortedSet<T(==,!new)>(less: (T, T) -> bool, s: set<T>) returns (r: seq<T>)
    requires Consistent(less)
    ensures Sorted(less, r) && Unique(r)
    ensures forall x :: x in r <==> x in s
    ensures |r| == |s|
  {
    var rest := s;
    var listed: seq<T> := [];
    while rest != {}
      invariant rest <= s && Unique(listed)
      invariant forall x :: x in s <==> x in rest || x in listed
      invariant forall x :: x in listed ==> x !in rest
      invariant |listed| + |rest| == |s|
      decreases |rest|
    {
      var x :| x in rest;
      rest := rest - {x};
      listed := listed + [x];
    }
    r := Sort(less, listed);
    SortSorted(less, listed);
    SortMembers(less, listed);
    UniqueByMultiset(listed, r);
  }
}
