/** Enumerations of a set, permutations, and sums over groups. */
module Sequences {

  ghost predicate Distinct<T>(s: seq<T>) {
    forall i, j :: 0 <= i < j < |s| ==> s[i] != s[j]
  }

  /** `order` visits every element of `keys` once: one possible order of a walk over a map. */
  ghost predicate Enumerates<T>(order: seq<T>, keys: set<T>) {
    Distinct(order) && (forall x :: x in order ==> x in keys) && (forall x :: x in keys ==> x in order)
  }

  lemma {:induction false} Enumeration<T>(keys: set<T>) returns (order: seq<T>)
    ensures Enumerates(order, keys)
  {
    if keys == {} {
      order := [];
    } else {
      var x :| x in keys;
      var rest := Enumeration(keys - {x});
      order := rest + [x];
    }
  }

  lemma {:induction false} DistinctMultiplicity<T>(s: seq<T>, x: T)
    requires Distinct(s)
    ensures multiset(s)[x] == if x in s then 1 else 0
  {
    if s != [] {
      var n := |s| - 1;
      assert s == s[..n] + [s[n]];
      DistinctMultiplicity(s[..n], x);
    }
  }

  lemma SameElements<T(!new)>(s: seq<T>, t: seq<T>)
    requires Distinct(s) && Distinct(t)
    requires forall x :: x in s <==> x in t
    ensures multiset(s) == multiset(t)
  {
    forall x
      ensures multiset(s)[x] == multiset(t)[x]
    {
      DistinctMultiplicity(s, x);
      DistinctMultiplicity(t, x);
    }
  }

  lemma {:induction false} EnumerationLength<T>(order: seq<T>, keys: set<T>)
    requires Enumerates(order, keys)
    ensures |order| == |keys|
  {
    if order == [] {
      assert keys == {};
    } else {
      var n := |order| - 1;
      assert order[n] in keys;
      assert forall x :: x in keys - {order[n]} ==> x in order[..n] by {
        forall x | x in keys - {order[n]} ensures x in order[..n] {
          var i :| 0 <= i < |order| && order[i] == x;
          assert order[..n][i] == x;
        }
      }
      EnumerationLength(order[..n], keys - {order[n]});
    }
  }

  /** As many distinct keys as there are keys are all of them. */
  lemma EnumeratesBySize<T>(order: seq<T>, keys: set<T>)
    requires Distinct(order) && |order| == |keys| && forall x :: x in order ==> x in keys
    ensures Enumerates(order, keys)
  {
    var seen := set x | x in order;
    EnumerationLength(order, seen);
    SubsetOfSameSize(seen, keys);
  }

  lemma {:induction false} SubsetOfSameSize<T>(a: set<T>, b: set<T>)
    requires a <= b && |a| == |b|
    ensures a == b
  {
    if a != {} {
      var x :| x in a;
      SubsetOfSameSize(a - {x}, b - {x});
    }
  }

  /** Removing from both sides what is last on one. */
  lemma RemoveOne<T>(s: seq<T>, t: seq<T>) returns (i: nat)
    requires s != [] && multiset(s) == multiset(t)
    ensures i < |t| && t[i] == s[|s| - 1]
    ensures multiset(s[..|s| - 1]) == multiset(t[..i] + t[i + 1..])
  {
    var last := s[|s| - 1];
    assert last in multiset(s);
    assert last in t;
    i :| 0 <= i < |t| && t[i] == last;
    assert s == s[..|s| - 1] + [last];
    assert t == t[..i] + [last] + t[i + 1..];
    calc {
      multiset(s[..|s| - 1]);
      multiset(s) - multiset{last};
      multiset(t) - multiset{last};
      multiset(t[..i]) + multiset(t[i + 1..]);
      multiset(t[..i] + t[i + 1..]);
    }
  }

  // ---------- sums

  function Sum<T>(s: seq<T>, f: T -> int): int {
    if s == [] then 0 else Sum(s[..|s| - 1], f) + f(s[|s| - 1])
  }

  lemma {:induction false} SumConcat<T>(s: seq<T>, t: seq<T>, f: T -> int)
    ensures Sum(s + t, f) == Sum(s, f) + Sum(t, f)
  {
    if t == [] {
      assert s + t == s;
    } else {
      var n := |t| - 1;
      assert (s + t)[..|s| + n] == s + t[..n];
      SumConcat(s, t[..n], f);
    }
  }

  lemma SumSmall<T>(x: T, y: T, f: T -> int)
    ensures Sum([x], f) == f(x)
    ensures Sum([x, y], f) == f(x) + f(y)
  {
    assert [x][..0] == [] && [x, y][..1] == [x];
  }

  lemma {:induction false} SumPermutation<T>(s: seq<T>, t: seq<T>, f: T -> int)
    requires multiset(s) == multiset(t)
    ensures Sum(s, f) == Sum(t, f)
  {
    if s == [] {
      assert |multiset(t)| == 0;
    } else {
      var i := RemoveOne(s, t);
      SumPermutation(s[..|s| - 1], t[..i] + t[i + 1..], f);
      assert t == t[..i] + [t[i]] + t[i + 1..];
      SumConcat(t[..i], t[i + 1..], f);
      SumConcat(t[..i], [t[i]], f);
      SumConcat(t[..i] + [t[i]], t[i + 1..], f);
      assert Sum([t[i]], f) == f(t[i]);
    }
  }

  function FlatMap<K, T>(s: seq<K>, g: K -> seq<T>): seq<T> {
    if s == [] then [] else FlatMap(s[..|s| - 1], g) + g(s[|s| - 1])
  }

  function SumOf<K, T>(g: K -> seq<T>, f: T -> int): K -> int {
    (k: K) => Sum(g(k), f)
  }

  lemma {:induction false} FlatMapSum<K, T>(s: seq<K>, g: K -> seq<T>, f: T -> int)
    ensures Sum(FlatMap(s, g), f) == Sum(s, SumOf(g, f))
  {
    if s != [] {
      var n := |s| - 1;
      FlatMapSum(s[..n], g, f);
      SumConcat(FlatMap(s[..n], g), g(s[n]), f);
    }
  }

  /** Sums of pointwise equal terms; the terms of `h` are those of `f` and `g` together. */
  lemma {:induction false} SumAdd<S, T>(s: seq<S>, t: seq<T>, h: S -> int, f: T -> int, g: T -> int)
    requires |s| == |t| && forall i :: 0 <= i < |s| ==> h(s[i]) == f(t[i]) + g(t[i])
    ensures Sum(s, h) == Sum(t, f) + Sum(t, g)
  {
    if s != [] {
      SumAdd(s[..|s| - 1], t[..|t| - 1], h, f, g);
    }
  }

  lemma {:induction false} SumZero<T>(s: seq<T>, f: T -> int)
    requires forall x :: x in s ==> f(x) == 0
    ensures Sum(s, f) == 0
  {
    if s != [] {
      SumZero(s[..|s| - 1], f);
    }
  }

  lemma SumPointwise<T(!new)>(s: seq<T>, f: T -> int, g: T -> int)
    requires forall x :: f(x) == g(x)
    ensures Sum(s, f) == Sum(s, g)
  {
    SumAdd(s, s, f, g, (x: T) => 0);
    SumZero(s, (x: T) => 0);
  }

  lemma SumCongruence<T>(s: seq<T>, t: seq<T>, f: T -> int)
    requires |s| == |t| && forall i :: 0 <= i < |s| ==> f(s[i]) == f(t[i])
    ensures Sum(s, f) == Sum(t, f)
  {
    SumAdd(s, t, f, f, (x: T) => 0);
    SumZero(t, (x: T) => 0);
  }
}
