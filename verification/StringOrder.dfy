/** The order of strings, by which std::sort and std::map arrange them. */
module StringOrder {

  /** Lexicographic order, a proper prefix first. */
  predicate Before(a: string, b: string) {
    b != [] && (a == [] || a[0] < b[0] || (a[0] == b[0] && Before(a[1..], b[1..])))
  }

  /** The strings agree up to place `n`, where the first one ends or has the smaller character. */
  predicate SmallerAt(a: string, b: string, n: nat) {
    n <= |a| && n < |b| && a[..n] == b[..n] && (n == |a| || a[n] < b[n])
  }

  lemma {:induction false} BeforeMeans(a: string, b: string)
    ensures Before(a, b) <==> exists n: nat :: SmallerAt(a, b, n)
  {
    hide SmallerAt;
    SmallerAtStart(a, b);
    forall n: nat | SmallerAt(a, b, n)
      ensures b != [] && (n > 0 ==> a != [] && a[0] == b[0])
    {
      FirstAgrees(a, b, n);
    }
    if a != [] && b != [] && a[0] == b[0] {
      BeforeMeans(a[1..], b[1..]);
      if n: nat :| SmallerAt(a[1..], b[1..], n) {
        SmallerAtNext(a, b, n);
      }
      if n: nat :| SmallerAt(a, b, n) {
        SmallerAtNext(a, b, n - 1);
      }
    }
  }

  lemma SmallerAtStart(a: string, b: string)
    ensures SmallerAt(a, b, 0) <==> b != [] && (a == [] || a[0] < b[0])
  {
    assert a[..0] == [] && b[..0] == [];
  }

  lemma SmallerAtNext(a: string, b: string, n: nat)
    requires a != [] && b != [] && a[0] == b[0]
    ensures SmallerAt(a, b, n + 1) <==> SmallerAt(a[1..], b[1..], n)
  {
    if n < |a| && n < |b| {
      assert a[..n + 1] == [a[0]] + a[1..][..n] && b[..n + 1] == [b[0]] + b[1..][..n];
      assert a[..n + 1] == b[..n + 1] <==> a[1..][..n] == b[1..][..n];
    }
  }

  lemma FirstAgrees(a: string, b: string, n: nat)
    requires SmallerAt(a, b, n)
    ensures b != [] && (n > 0 ==> a != [] && a[0] == b[0])
  {
    if n > 0 {
      assert a[..n][0] == a[0] && b[..n][0] == b[0];
    }
  }

  lemma {:induction false} BeforeAfterPrefix(p: string, a: string, b: string)
    ensures Before(p + a, p + b) <==> Before(a, b)
  {
    if p == [] {
      assert p + a == a && p + b == b;
    } else {
      assert (p + a)[1..] == p[1..] + a && (p + b)[1..] == p[1..] + b;
      BeforeAfterPrefix(p[1..], a, b);
    }
  }

  lemma {:induction false} BeforeIrreflexive(a: string)
    ensures !Before(a, a)
  {
    if a != [] {
      BeforeIrreflexive(a[1..]);
    }
  }

  lemma {:induction false} BeforeTransitive(a: string, b: string, c: string)
    requires Before(a, b) && Before(b, c)
    ensures Before(a, c)
  {
    if a != [] && a[0] == b[0] == c[0] {
      BeforeTransitive(a[1..], b[1..], c[1..]);
    }
  }

  /** Strictly increasing, hence without repetition. */
  ghost predicate Increasing(names: seq<string>) {
    forall i, j :: 0 <= i < j < |names| ==> Before(names[i], names[j])
  }

  /** A set of names has only one sorted listing. */
  lemma {:induction false} SortedListingUnique(a: seq<string>, b: seq<string>)
    requires Increasing(a) && Increasing(b)
    requires forall s :: s in a <==> s in b
    ensures a == b
  {
    assert b != [] ==> b[0] in b && b[0] in a;
    if a != [] {
      assert a[0] in b;
      SameFirst(a, b);
      forall s
        ensures s in a[1..] <==> s in b[1..]
      {
        RestOfIncreasing(a, s);
        RestOfIncreasing(b, s);
      }
      SortedListingUnique(a[1..], b[1..]);
      assert a == [a[0]] + a[1..] && b == [b[0]] + b[1..];
    }
  }

  lemma SameFirst(a: seq<string>, b: seq<string>)
    requires Increasing(a) && Increasing(b) && |a| > 0 && |b| > 0
    requires a[0] in b && b[0] in a
    ensures a[0] == b[0]
  {
    var i :| 0 <= i < |b| && b[i] == a[0];
    var j :| 0 <= j < |a| && a[j] == b[0];
    if i > 0 && j > 0 {
      BeforeTransitive(a[0], a[j], a[0]);
      BeforeIrreflexive(a[0]);
    }
  }

  lemma RestOfIncreasing(a: seq<string>, s: string)
    requires Increasing(a) && |a| > 0
    ensures s in a[1..] <==> s in a && s != a[0]
  {
    BeforeIrreflexive(a[0]);
  }

  lemma {:induction false} BeforeTotal(a: string, b: string)
    ensures a == b || Before(a, b) || Before(b, a)
  {
    if a != [] && b != [] && a[0] == b[0] {
      BeforeTotal(a[1..], b[1..]);
      assert a == [a[0]] + a[1..] && b == [b[0]] + b[1..];
    }
  }

  predicate IsFirst(names: set<string>, s: string) {
    s in names && forall t :: t in names && t != s ==> Before(s, t)
  }

  /** The first of some names. */
  function First(names: set<string>): (s: string)
    requires names != {}
    ensures IsFirst(names, s)
  {
    FirstExists(names);
    FirstUnique(names);
    var s :| s in names && IsFirst(names, s);
    s
  }

  lemma {:induction false} FirstExists(names: set<string>)
    requires names != {}
    ensures exists s :: s in names && IsFirst(names, s)
  {
    var x :| x in names;
    var rest := names - {x};
    if rest == {} {
      assert forall t :: t in names && t != x ==> t in rest;
      assert IsFirst(names, x);
    } else {
      FirstExists(rest);
      var y :| y in rest && IsFirst(rest, y);
      BeforeTotal(x, y);
      if Before(x, y) {
        forall t | t in names && t != x
          ensures Before(x, t)
        {
          if t != y {
            BeforeTransitive(x, y, t);
          }
        }
        assert IsFirst(names, x);
      } else {
        assert IsFirst(names, y);
      }
    }
  }

  lemma FirstUnique(names: set<string>)
    ensures forall a, b :: IsFirst(names, a) && IsFirst(names, b) ==> a == b
  {
    forall a, b | IsFirst(names, a) && IsFirst(names, b)
      ensures a == b
    {
      if a != b {
        BeforeTransitive(a, b, a);
        BeforeIrreflexive(a);
      }
    }
  }

  /** The names in order. */
  function Listing(names: set<string>): (r: seq<string>)
    ensures Increasing(r) && |r| == |names|
    ensures forall s :: s in r <==> s in names
  {
    if names == {} then []
    else
      var s := First(names);
      var rest := Listing(names - {s});
      assert names == {s} + (names - {s});
      [s] + rest
  }
}
