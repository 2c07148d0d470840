/** Shared vocabulary of the inventory model: nullable references, the scalar
    types the records use, and a few facts about sequences and integer sets. */
module Base {

  /** A Java reference that may be null. */
  datatype Option<+T> = None | Some(value: T) {

    /** The wrapped value, or `default` when the reference is null. */
    function GetOr(default: T): T {
      match this
      case Some(v) => v
      case None => default
    }
  }

  /** A calendar date (`java.time.LocalDate`) as a day number. */
  type Date = int

  /** A creation time stamp (`java.time.LocalDateTime`), kept opaque. */
  type Stamp = int

  /** A record or user identifier (`java.lang.Long`). */
  type Id = int

  /** No element occurs twice. */
  predicate NoDuplicates<T(==)>(xs: seq<T>) {
    forall i, j :: 0 <= i < j < |xs| ==> xs[i] != xs[j]
  }

  /** The elements of `xs` that satisfy `p`, in the order of `xs`. */
  function Filter<T(==,!new)>(xs: seq<T>, p: T -> bool): (r: seq<T>)
    ensures forall x :: x in r <==> x in xs && p(x)
    ensures |r| <= |xs|
    ensures NoDuplicates(xs) ==> NoDuplicates(r)
  {
    if xs == [] then []
    else
      var rest := Filter(xs[1..], p);
      assert NoDuplicates(xs) ==> xs[0] !in xs[1..];
      (if p(xs[0]) then [xs[0]] else []) + rest
  }

  /** Filtering distributes over concatenation. */
  lemma {:induction false} FilterAppend<T(!new)>(a: seq<T>, b: seq<T>, p: T -> bool)
    ensures Filter(a + b, p) == Filter(a, p) + Filter(b, p)
  {
    if a != [] {
      assert (a + b)[0] == a[0];
      assert (a + b)[1..] == a[1..] + b;
      FilterAppend(a[1..], b, p);
    } else {
      assert a + b == b;
    }
  }

  /** Filters that agree on every element of `xs` select the same elements. */
  lemma {:induction false} FilterAgree<T(!new)>(xs: seq<T>, p: T -> bool, q: T -> bool)
    requires forall x :: x in xs ==> p(x) == q(x)
    ensures Filter(xs, p) == Filter(xs, q)
  {
    if xs != [] {
      assert xs[0] in xs;
      assert forall x :: x in xs[1..] ==> x in xs;
      FilterAgree(xs[1..], p, q);
    }
  }

  /** An in-range index names an element. */
  lemma ElementAt<T>(xs: seq<T>, i: int)
    ensures 0 <= i < |xs| ==> xs[i] in xs
  {
  }

  /** A duplicate-free sequence whose only element is `x` is `[x]`. */
  lemma OnlyElement<T>(xs: seq<T>, x: T)
    requires NoDuplicates(xs)
    requires forall y :: y in xs <==> y == x
    ensures xs == [x]
  {
    ElementAt(xs, 0);
    ElementAt(xs, 1);
    assert x in xs;
  }

  /** A sequence with no element is empty. */
  lemma NoElement<T>(xs: seq<T>)
    requires forall y :: y !in xs
    ensures xs == []
  {
    ElementAt(xs, 0);
  }

  /** Strictly increasing, hence duplicate-free. */
  predicate StrictlyIncreasing(xs: seq<int>) {
    forall i, j :: 0 <= i < j < |xs| ==> xs[i] < xs[j]
  }

  /** A set other than the empty set has a member. */
  lemma NonEmptyHasMember(s: set<int>)
    requires s != {}
    ensures exists x :: x in s
  {
    if forall x :: x !in s {
      assert false;
    }
  }

  /** `k` is the least element of `ks`. */
  predicate IsLeast(k: int, ks: set<int>) {
    k in ks && forall j :: j in ks ==> k <= j
  }

  /** Every non-empty finite set of integers has a least element. */
  lemma {:induction false} LeastExists(ks: set<int>)
    requires ks != {}
    ensures exists k :: IsLeast(k, ks)
    decreases |ks|
  {
    NonEmptyHasMember(ks);
    var x :| x in ks;
    if ks == {x} {
      assert IsLeast(x, ks);
    } else {
      var rest := ks - {x};
      assert rest != {};
      LeastExists(rest);
      var k :| IsLeast(k, rest);
      var least := if x < k then x else k;
      forall j | j in ks
        ensures least <= j
      {
        if j != x {
          assert j in rest;
        }
      }
      assert IsLeast(least, ks);
    }
  }

  /** The least element of a non-empty finite set of integers. */
  function Least(ks: set<int>): (k: int)
    requires ks != {}
    ensures IsLeast(k, ks)
  {
    LeastExists(ks);
    var k :| IsLeast(k, ks);
    k
  }

  /** The elements of a finite set of integers in ascending order. */
  function SortedKeys(ks: set<int>): (r: seq<int>)
    ensures |r| == |ks|
    ensures forall k :: k in r <==> k in ks
    ensures StrictlyIncreasing(r)
    decreases |ks|
  {
    if ks == {} then []
    else
      var k := Least(ks);
      var rest := SortedKeys(ks - {k});
      assert forall i :: 0 <= i < |rest| ==> k < rest[i] by {
        forall i | 0 <= i < |rest|
          ensures k < rest[i]
        {
          assert rest[i] in ks - {k};
        }
      }
      [k] + rest
  }
}
