/**
 * Orders, Python's `sorted`, and the unordered listings that the file system hands out.
 * `sorted` is modelled by an insertion sort; for the distinct keys sorted here (paths, names)
 * every correct sort gives the same result, which `SortedUnique` makes precise.
 */
module Ordering {

  /** `less` is irreflexive, transitive and relates any two different values. */
  ghost predicate StrictTotalOrder<T(!new)>(less: (T, T) -> bool)
  {
    && (forall a :: !less(a, a))
    && (forall a, b, c :: less(a, b) && less(b, c) ==> less(a, c))
    && (forall a, b :: a != b ==> less(a, b) || less(b, a))
  }

  /** Python's comparison of two lists (or strings): the first difference decides, and a proper prefix comes first. */
  function LexLess<T(==)>(a: seq<T>, b: seq<T>, less: (T, T) -> bool): bool
  {
    |b| > 0 && (|a| == 0 || less(a[0], b[0]) || (a[0] == b[0] && LexLess(a[1..], b[1..], less)))
  }

  lemma {:induction false} LexLessIrreflexive<T(!new)>(a: seq<T>, less: (T, T) -> bool)
    requires StrictTotalOrder(less)
    ensures !LexLess(a, a, less)
  {
    if |a| > 0 {
      LexLessIrreflexive(a[1..], less);
    }
  }

  lemma {:induction false} LexLessTransitive<T(!new)>(a: seq<T>, b: seq<T>, c: seq<T>, less: (T, T) -> bool)
    requires StrictTotalOrder(less)
    requires LexLess(a, b, less) && LexLess(b, c, less)
    ensures LexLess(a, c, less)
  {
    if |a| > 0 && a[0] == b[0] && b[0] == c[0] {
      LexLessTransitive(a[1..], b[1..], c[1..], less);
    }
  }

  lemma {:induction false} LexLessConnected<T(!new)>(a: seq<T>, b: seq<T>, less: (T, T) -> bool)
    requires StrictTotalOrder(less)
    requires a != b
    ensures LexLess(a, b, less) || LexLess(b, a, less)
  {
    if |a| > 0 && |b| > 0 && a[0] == b[0] {
      assert a == [a[0]] + a[1..] && b == [b[0]] + b[1..];
      LexLessConnected(a[1..], b[1..], less);
    }
  }

  /** Every two positions are in increasing order. */
  ghost predicate Increasing<T(!new)>(s: seq<T>, less: (T, T) -> bool)
  {
    forall i, j :: 0 <= i < j < |s| ==> less(s[i], s[j])
  }

  /** No value occurs twice. */
  ghost predicate Distinct<T(!new)>(s: seq<T>)
  {
    forall i, j :: 0 <= i < j < |s| ==> s[i] != s[j]
  }

  /** Insert `x` before the first element that is not below it. */
  function Insert<T(!new)>(x: T, s: seq<T>, less: (T, T) -> bool): (r: seq<T>)
    ensures multiset(r) == multiset(s) + multiset{x}
  {
    if s == [] then [x]
    else
      assert s == [s[0]] + s[1..];
      if less(s[0], x) then [s[0]] + Insert(x, s[1..], less)
      else [x] + s
  }

  /** Python's `sorted(s)` for the order `less`. */
  function Sort<T(!new)>(s: seq<T>, less: (T, T) -> bool): (r: seq<T>)
    ensures multiset(r) == multiset(s)
  {
    if s == [] then []
    else
      assert s == [s[0]] + s[1..];
      Insert(s[0], Sort(s[1..], less), less)
  }

  /** A value below everything in an increasing sequence can go in front of it. */
  lemma PrependLeast<T(!new)>(a: T, t: seq<T>, less: (T, T) -> bool)
    requires Increasing(t, less) && forall y :: y in t ==> less(a, y)
    ensures Increasing([a] + t, less)
  {
    var r := [a] + t;
    forall i, j | 0 <= i < j < |r| ensures less(r[i], r[j]) {
      if i > 0 {
        assert r[i] == t[i - 1] && r[j] == t[j - 1];
      } else {
        assert r[j] in t;
      }
    }
  }

  lemma {:induction false} InsertIncreasing<T(!new)>(x: T, s: seq<T>, less: (T, T) -> bool)
    requires StrictTotalOrder(less) && Increasing(s, less) && x !in s
    ensures Increasing(Insert(x, s, less), less)
  {
    if s != [] {
      if less(s[0], x) {
        var t := Insert(x, s[1..], less);
        assert Increasing(s[1..], less) by {
          forall i, j | 0 <= i < j < |s[1..]| ensures less(s[1..][i], s[1..][j]) {
            assert s[1..][i] == s[i + 1] && s[1..][j] == s[j + 1];
          }
        }
        InsertIncreasing(x, s[1..], less);
        forall y | y in t ensures less(s[0], y) {
          assert y in multiset(t);
        }
        PrependLeast(s[0], t, less);
      } else {
        assert less(x, s[0]) by { assert x != s[0]; }
        forall y | y in s ensures less(x, y) {
          var k :| 0 <= k < |s| && s[k] == y;
          if k > 0 {
            assert less(s[0], s[k]);
          }
        }
        PrependLeast(x, s, less);
      }
    }
  }

  /** Sorting values that are all different gives them in strictly increasing order. */
  lemma {:induction false} SortIncreasing<T(!new)>(s: seq<T>, less: (T, T) -> bool)
    requires StrictTotalOrder(less) && Distinct(s)
    ensures Increasing(Sort(s, less), less)
  {
    if s != [] {
      var t := s[1..];
      assert Distinct(t) by {
        forall i, j | 0 <= i < j < |t| ensures t[i] != t[j] {
          assert t[i] == s[i + 1] && t[j] == s[j + 1];
        }
      }
      SortIncreasing(t, less);
      assert s[0] !in t by {
        forall k | 0 <= k < |t| ensures t[k] != s[0] {
          assert t[k] == s[k + 1];
        }
      }
      assert s[0] !in Sort(t, less) by {
        assert s[0] !in multiset(t);
      }
      InsertIncreasing(s[0], Sort(t, less), less);
    }
  }

  lemma HeadIsMember<T>(a: seq<T>)
    ensures a != [] ==> a[0] in a
  {
  }

  /** The head of an increasing sequence is below every other member. */
  lemma HeadIsLeast<T(!new)>(a: seq<T>, x: T, less: (T, T) -> bool)
    requires Increasing(a, less) && x in a
    ensures x == a[0] || less(a[0], x)
  {
    var i :| 0 <= i < |a| && a[i] == x;
    if i > 0 {
      assert less(a[0], a[i]);
    }
  }

  /** Two increasing sequences that hold the same values are equal: a set has one sorted enumeration. */
  lemma {:induction false} SortedUnique<T(!new)>(a: seq<T>, b: seq<T>, less: (T, T) -> bool)
    requires StrictTotalOrder(less) && Increasing(a, less) && Increasing(b, less)
    requires forall x :: x in a <==> x in b
    ensures a == b
  {
    HeadIsMember(a);
    HeadIsMember(b);
    if a != [] && b != [] {
      HeadIsLeast(a, b[0], less);
      HeadIsLeast(b, a[0], less);
      assert a[0] == b[0];
      var a', b' := a[1..], b[1..];
      forall x ensures x in a' <==> x in b' {
        if x in a' {
          var i :| 0 <= i < |a'| && a'[i] == x;
          assert less(a[0], a[i + 1]);
          assert x in b;
          var j :| 0 <= j < |b| && b[j] == x;
          assert j != 0;
          assert b'[j - 1] == x;
        }
        if x in b' {
          var j :| 0 <= j < |b'| && b'[j] == x;
          assert less(b[0], b[j + 1]);
          assert x in a;
          var i :| 0 <= i < |a| && a[i] == x;
          assert i != 0;
          assert a'[i - 1] == x;
        }
      }
      SortedUnique(a', b', less);
      assert a == [a[0]] + a' && b == [b[0]] + b';
    }
  }

  /** Some enumeration of a finite set, each member once. */
  ghost function Enumeration<T(!new)>(s: set<T>): (r: seq<T>)
    ensures Distinct(r)
    ensures forall x :: x in r <==> x in s
  {
    if s == {} then []
    else
      var x :| x in s;
      var t := Enumeration(s - {x});
      assert forall i :: 0 <= i < |t| ==> t[i] != x;
      [x] + t
  }

  /** The members of a finite set in increasing order: what `sorted` makes of any listing of the set. */
  ghost function SortedSet<T(!new)>(s: set<T>, less: (T, T) -> bool): seq<T>
  {
    Sort(Enumeration(s), less)
  }

  /** The sorted enumeration is increasing and holds exactly the members of the set. */
  lemma SortedSetIsIncreasing<T(!new)>(s: set<T>, less: (T, T) -> bool)
    requires StrictTotalOrder(less)
    ensures Increasing(SortedSet(s, less), less)
    ensures forall x :: x in SortedSet(s, less) <==> x in s
  {
    var e := Enumeration(s);
    SortIncreasing(e, less);
    assert forall x :: x in Sort(e, less) <==> x in multiset(e);
  }

  /** Whatever order a listing comes in, sorting it gives the sorted enumeration of its set. */
  lemma SortListing<T(!new)>(xs: seq<T>, s: set<T>, less: (T, T) -> bool)
    requires StrictTotalOrder(less) && Distinct(xs)
    requires forall x :: x in xs <==> x in s
    ensures Sort(xs, less) == SortedSet(s, less)
  {
    SortIncreasing(xs, less);
    SortedSetIsIncreasing(s, less);
    assert forall x :: x in Sort(xs, less) <==> x in multiset(xs);
    SortedUnique(Sort(xs, less), SortedSet(s, less), less);
  }

  /** Increasing sequences hold no value twice. */
  lemma IncreasingIsDistinct<T(!new)>(s: seq<T>, less: (T, T) -> bool)
    requires StrictTotalOrder(less) && Increasing(s, less)
    ensures Distinct(s)
  {
    forall i, j | 0 <= i < j < |s| ensures s[i] != s[j] {
      assert less(s[i], s[j]);
    }
  }

  /** The elements of `xs` that `keep` accepts, in their order. */
  function Filter<T(!new)>(xs: seq<T>, keep: T -> bool): (r: seq<T>)
    ensures forall x :: x in r <==> x in xs && keep(x)
    ensures Distinct(xs) ==> Distinct(r)
  {
    if xs == [] then []
    else
      var rest := Filter(xs[1..], keep);
      assert Distinct(xs) ==> xs[0] !in xs[1..] by {
        if Distinct(xs) {
          forall k | 0 <= k < |xs| - 1 ensures xs[1..][k] != xs[0] {
            assert xs[1..][k] == xs[k + 1];
          }
        }
      }
      assert Distinct(xs) ==> Distinct(xs[1..]) by {
        if Distinct(xs) {
          forall i, j | 0 <= i < j < |xs| - 1 ensures xs[1..][i] != xs[1..][j] {
            assert xs[1..][i] == xs[i + 1] && xs[1..][j] == xs[j + 1];
          }
        }
      }
      if keep(xs[0]) then [xs[0]] + rest else rest
  }

  /** Filtering one more element at the end extends the result by that element when it is kept. */
  lemma {:induction false} FilterSnoc<T(!new)>(xs: seq<T>, x: T, keep: T -> bool)
    ensures Filter(xs + [x], keep) == Filter(xs, keep) + (if keep(x) then [x] else [])
  {
    if xs != [] {
      assert (xs + [x])[1..] == xs[1..] + [x];
      FilterSnoc(xs[1..], x, keep);
    } else {
      assert Filter([x], keep) == (if keep(x) then [x] else []) + Filter([], keep);
    }
  }

  lemma {:induction false} FilterAppend<T(!new)>(xs: seq<T>, ys: seq<T>, keep: T -> bool)
    ensures Filter(xs + ys, keep) == Filter(xs, keep) + Filter(ys, keep)
  {
    if xs != [] {
      assert (xs + ys)[1..] == xs[1..] + ys;
      FilterAppend(xs[1..], ys, keep);
    } else {
      assert xs + ys == ys;
    }
  }

  /** Filtering keeps an increasing sequence increasing. */
  lemma {:induction false} FilterIncreasing<T(!new)>(xs: seq<T>, keep: T -> bool, less: (T, T) -> bool)
    requires Increasing(xs, less)
    ensures Increasing(Filter(xs, keep), less)
  {
    if xs != [] {
      var tail := xs[1..];
      assert Increasing(tail, less) by {
        forall i, j | 0 <= i < j < |tail| ensures less(tail[i], tail[j]) {
          assert tail[i] == xs[i + 1] && tail[j] == xs[j + 1];
        }
      }
      FilterIncreasing(tail, keep, less);
      var rest := Filter(tail, keep);
      if keep(xs[0]) {
        forall y | y in rest ensures less(xs[0], y) {
          var j :| 0 <= j < |tail| && tail[j] == y;
          assert xs[j + 1] == y;
        }
        var r := [xs[0]] + rest;
        forall i, j | 0 <= i < j < |r| ensures less(r[i], r[j]) {
          if i == 0 {
            assert r[j] in rest;
          } else {
            assert r[i] == rest[i - 1] && r[j] == rest[j - 1];
          }
        }
      }
    }
  }

  /**
   * A listing of a finite set as the operating system produces it: every member once, in an order
   * the model does not fix (`os.listdir`, `Path.iterdir`, `Path.rglob`).
   */
  method Enumerate<T(==,!new)>(s: set<T>) returns (xs: seq<T>)
    ensures Distinct(xs)
    ensures forall x :: x in xs <==> x in s
  {
    xs := [];
    var rest := s;
    while rest != {}
      invariant Distinct(xs)
      invariant forall x :: x in xs <==> x in s && x !in rest
      invariant rest <= s
      decreases rest
    {
      var x :| x in rest;
      xs := xs + [x];
      rest := rest - {x};
    }
  }
}
