/** Flattening and rearranging sequences. */
module Sequences {

  function Flat<X, Y>(f: X -> seq<Y>, xs: seq<X>): seq<Y> {
    if xs == [] then [] else Flat(f, xs[..|xs| - 1]) + f(xs[|xs| - 1])
  }

  lemma {:induction false} FlatConcat<X, Y>(f: X -> seq<Y>, a: seq<X>, b: seq<X>)
    ensures Flat(f, a + b) == Flat(f, a) + Flat(f, b)
  {
    if b == [] {
      assert a + b == a;
    } else {
      FlatConcat(f, a, b[..|b| - 1]);
      assert (a + b)[..|a + b| - 1] == a + b[..|b| - 1];
    }
  }

  lemma {:induction false} FlatMembers<X, Y>(f: X -> seq<Y>, xs: seq<X>, y: Y)
    ensures y in Flat(f, xs) <==> exists x :: x in xs && y in f(x)
  {
    if xs != [] {
      var init, last := xs[..|xs| - 1], xs[|xs| - 1];
      FlatMembers(f, init, y);
      assert forall x :: x in xs <==> x in init || x == last;
    }
  }

  lemma FlatAround<X, Y>(f: X -> seq<Y>, a: seq<X>, x: X, b: seq<X>)
    ensures multiset(Flat(f, a + [x] + b)) == multiset(Flat(f, a + b)) + multiset(f(x))
  {
    FlatConcat(f, a + [x], b);
    FlatConcat(f, a, [x]);
    FlatConcat(f, a, b);
    assert [x][..0] == [];
    assert Flat(f, [x]) == f(x);
  }

  lemma SameMembers<T>(a: seq<T>, b: seq<T>)
    requires multiset(a) == multiset(b)
    ensures |a| == |b|
    ensures forall x :: x in a <==> x in b
  {
    assert |a| == |multiset(a)| && |b| == |multiset(b)|;
    assert forall x :: x in a <==> x in multiset(a);
    assert forall x :: x in b <==> x in multiset(b);
  }

  lemma HasMember<T>(s: seq<T>)
    requires s != []
    ensures s[0] in s
  {}

  lemma Without<T>(xs: seq<T>, i: nat)
    requires i < |xs|
    ensures multiset(xs[..i] + xs[i + 1..]) == multiset(xs) - multiset{xs[i]}
  {
    assert xs == xs[..i] + [xs[i]] + xs[i + 1..];
  }

  /** The last element of one arrangement, found in the other. */
  lemma SplitOffLast<T>(xs: seq<T>, ys: seq<T>) returns (a: seq<T>, b: seq<T>)
    requires multiset(xs) == multiset(ys) && xs != []
    ensures ys == a + [xs[|xs| - 1]] + b
    ensures multiset(xs[..|xs| - 1]) == multiset(a + b)
  {
    SameMembers(xs, ys);
    var x := xs[|xs| - 1];
    assert x in ys;
    var i :| 0 <= i < |ys| && ys[i] == x;
    a, b := ys[..i], ys[i + 1..];
    Without(ys, i);
    WithoutLast(xs);
  }

  lemma WithoutLast<T>(xs: seq<T>)
    requires xs != []
    ensures multiset(xs[..|xs| - 1]) == multiset(xs) - multiset{xs[|xs| - 1]}
  {
    assert xs == xs[..|xs| - 1] + [xs[|xs| - 1]];
  }

  /** Rearranging the input only rearranges the output. */
  lemma {:induction false} FlatRearranged<X, Y>(f: X -> seq<Y>, xs: seq<X>, ys: seq<X>)
    requires multiset(xs) == multiset(ys)
    ensures multiset(Flat(f, xs)) == multiset(Flat(f, ys))
    decreases |xs|
  {
    SameMembers(xs, ys);
    if xs != [] {
      var a, b := SplitOffLast(xs, ys);
      FlatRearranged(f, xs[..|xs| - 1], a + b);
      FlatAround(f, a, xs[|xs| - 1], b);
    }
  }

  // ---------------------------------------------------------------- sorting

  ghost predicate Strict<T>(less: (T, T) -> bool, a: seq<T>) {
    forall i, j :: 0 <= i < j < |a| ==> less(a[i], a[j])
  }

  ghost predicate NoDescent<T>(less: (T, T) -> bool, b: seq<T>) {
    forall i, j :: 0 <= i < j < |b| ==> !less(b[j], b[i])
  }

  lemma SameFirst<T>(less: (T, T) -> bool, a: seq<T>, b: seq<T>)
    requires multiset(a) == multiset(b) && a != [] && b != []
    requires Strict(less, a) && NoDescent(less, b)
    ensures a[0] == b[0]
  {
    SameMembers(a, b);
    assert b[0] in a && a[0] in b;
    var k :| 0 <= k < |a| && a[k] == b[0];
    var m :| 0 <= m < |b| && b[m] == a[0];
    assert k > 0 ==> less(a[0], b[0]);
    assert m > 0 ==> !less(a[0], b[0]);
  }

  lemma TailMultiset<T>(a: seq<T>)
    requires a != []
    ensures multiset(a[1..]) == multiset(a) - multiset{a[0]}
  {
    assert a == [a[0]] + a[1..];
  }

  /** A sequence in strict order is the only sorted arrangement of its elements. */
  lemma {:induction false} SortedIsUnique<T>(less: (T, T) -> bool, a: seq<T>, b: seq<T>)
    requires multiset(a) == multiset(b)
    requires Strict(less, a) && NoDescent(less, b)
    ensures a == b
    decreases |a|
  {
    SameMembers(a, b);
    if a != [] {
      SameFirst(less, a, b);
      TailMultiset(a);
      TailMultiset(b);
      assert Strict(less, a[1..]) && NoDescent(less, b[1..]);
      SortedIsUnique(less, a[1..], b[1..]);
      assert a == [a[0]] + a[1..] && b == [b[0]] + b[1..];
    }
  }

  // ---------------------------------------------------------------- taking apart and joining

  lemma SnocAcross<T>(a: seq<T>, b: seq<T>, x: T)
    ensures a + (b + [x]) == (a + b) + [x]
  {}

  lemma TakeOneMore<T>(s: seq<T>, n: nat)
    requires n < |s|
    ensures s[..n + 1] == s[..n] + [s[n]]
  {}

  lemma Cut<T>(s: seq<T>, k: nat)
    requires k <= |s|
    ensures s[..k] + s[k..] == s
  {}

  /** One is a prefix of the other. */
  predicate Comparable<T(==)>(a: seq<T>, b: seq<T>) { a <= b || b <= a }
}
