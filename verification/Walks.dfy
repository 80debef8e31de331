/** Walking over the keys of a map in an unspecified order, calling something that may fail. */
module Walks {
  import opened GoRuntime
  import opened Sequences

  /** The values for the keys in the order they are visited; the first failure ends the walk. */
  function Walk<K, V>(f: K -> Outcome<V>, order: seq<K>): (r: Outcome<seq<V>>)
  {
    if order == [] then Ok([])
    else
      var n := |order| - 1;
      var before :- Walk(f, order[..n]);
      var last :- f(order[n]);
      Ok(before + [last])
  }

  /** A walk under way over `keys`: `visited` gave `done`, and `remaining` is still to come. */
  ghost predicate IsPartial<K, V>(f: K -> Outcome<V>, keys: set<K>, remaining: set<K>, visited: seq<K>, done: seq<V>) {
    && remaining <= keys
    && Enumerates(visited, keys - remaining)
    && |done| + |remaining| == |keys|
    && Walk(f, visited) == Ok(done)
  }

  lemma Visit<K>(keys: set<K>, remaining: set<K>, visited: seq<K>, k: K)
    requires k in remaining && remaining <= keys && Enumerates(visited, keys - remaining)
    ensures Enumerates(visited + [k], keys - (remaining - {k}))
  {
  }

  lemma WalkStep<K, V>(f: K -> Outcome<V>, visited: seq<K>, k: K)
    ensures Walk(f, visited + [k]) ==
            match Walk(f, visited)
            case Ok(before) =>
              (match f(k)
               case Ok(v) => Ok(before + [v])
               case Err(e) => Err(e)
               case Panic => Panic)
            case Err(e) => Err(e)
            case Panic => Panic
  {
    assert (visited + [k])[..|visited|] == visited;
  }

  lemma PartialStep<K, V>(f: K -> Outcome<V>, keys: set<K>, remaining: set<K>, visited: seq<K>, done: seq<V>, k: K)
    requires IsPartial(f, keys, remaining, visited, done) && k in remaining && f(k).Ok?
    ensures IsPartial(f, keys, remaining - {k}, visited + [k], done + [f(k).value])
  {
    Visit(keys, remaining, visited, k);
    WalkStep(f, visited, k);
  }

  /** Once a walk has failed, in whatever order the rest would have come, it fails in the same way. */
  lemma FailedWalk<K, V>(f: K -> Outcome<V>, keys: set<K>, remaining: set<K>, visited: seq<K>, done: seq<V>, k: K)
    returns (order: seq<K>)
    requires IsPartial(f, keys, remaining, visited, done) && k in remaining && f(k).IsFailure()
    ensures Enumerates(order, keys)
    ensures Walk(f, order) == f(k).PropagateFailure()
  {
    Visit(keys, remaining, visited, k);
    WalkStep(f, visited, k);
    order := CompleteWalk(f, keys, visited + [k], remaining - {k});
  }

  lemma {:induction false} CompleteWalk<K, V>(f: K -> Outcome<V>, keys: set<K>, visited: seq<K>, remaining: set<K>)
    returns (order: seq<K>)
    requires remaining <= keys && Enumerates(visited, keys - remaining) && Walk(f, visited).IsFailure()
    ensures Enumerates(order, keys)
    ensures Walk(f, order) == Walk(f, visited)
    decreases remaining
  {
    if remaining == {} {
      assert keys - remaining == keys;
      order := visited;
    } else {
      var k :| k in remaining;
      Visit(keys, remaining, visited, k);
      WalkStep(f, visited, k);
      order := CompleteWalk(f, keys, visited + [k], remaining - {k});
    }
  }

  lemma WalkDone<K, V>(f: K -> Outcome<V>, keys: set<K>, visited: seq<K>, done: seq<V>)
    requires IsPartial(f, keys, {}, visited, done)
    ensures Enumerates(visited, keys) && |done| == |keys| && Walk(f, visited) == Ok(done)
  {
    assert keys - {} == keys;
  }

  /** A walk succeeds exactly when every visit does, and otherwise fails as one of them; its values are
      those of the keys, in order. */
  lemma {:induction false} WalkOutcome<K, V>(f: K -> Outcome<V>, order: seq<K>)
    ensures Walk(f, order).Ok? <==> forall k :: k in order ==> f(k).Ok?
    ensures !Walk(f, order).Ok? ==>
              exists k :: k in order && f(k).IsFailure() && Walk(f, order) == f(k).PropagateFailure()
    ensures Walk(f, order).Ok? ==> |Walk(f, order).value| == |order|
                                   && forall i :: 0 <= i < |order| ==> f(order[i]) == Ok(Walk(f, order).value[i])
  {
    if order != [] {
      var n := |order| - 1;
      assert order == order[..n] + [order[n]];
      WalkOutcome(f, order[..n]);
      if Walk(f, order[..n]).Ok? && f(order[n]).IsFailure() {
        assert order[n] in order;
      }
    }
  }

  /** The values of a walk are those of the keys, each once. */
  lemma WalkValues<K(!new), V(!new)>(f: K -> Outcome<V>, key: V -> K, keys: set<K>, order: seq<K>)
    requires Enumerates(order, keys) && Walk(f, order).Ok?
    requires forall k :: k in keys && f(k).Ok? ==> key(f(k).value) == k
    ensures Distinct(Walk(f, order).value)
    ensures forall v :: v in Walk(f, order).value <==> key(v) in keys && f(key(v)) == Ok(v)
  {
    WalkOutcome(f, order);
    var vs := Walk(f, order).value;
    assert forall i :: 0 <= i < |vs| ==> key(vs[i]) == order[i] && order[i] in keys;
    forall v | key(v) in keys && f(key(v)) == Ok(v)
      ensures v in vs
    {
      var i :| 0 <= i < |order| && order[i] == key(v);
      assert vs[i] == v;
    }
  }

  /** A walk over the keys: all or nothing, and in full. */
  lemma WholeWalk<K(!new), V(!new)>(f: K -> Outcome<V>, key: V -> K, keys: set<K>, order: seq<K>)
    requires Enumerates(order, keys)
    requires forall k :: k in keys && f(k).Ok? ==> key(f(k).value) == k
    ensures Walk(f, order).Ok? <==> forall k :: k in keys ==> f(k).Ok?
    ensures !Walk(f, order).Ok? ==>
              exists k :: k in keys && f(k).IsFailure() && Walk(f, order) == f(k).PropagateFailure()
    ensures Walk(f, order).Ok? ==>
              var vs := Walk(f, order).value;
              && |vs| == |keys|
              && (forall i, j :: 0 <= i < j < |vs| ==> key(vs[i]) != key(vs[j]))
              && (forall v :: v in vs <==> key(v) in keys && f(key(v)) == Ok(v))
  {
    WalkOutcome(f, order);
    EnumerationLength(order, keys);
    if Walk(f, order).Ok? {
      WalkValues(f, key, keys, order);
    }
  }

  lemma {:induction false} WalkCongruence<K, V>(f: K -> Outcome<V>, g: K -> Outcome<V>, order: seq<K>)
    requires forall k :: k in order ==> f(k) == g(k)
    ensures Walk(f, order) == Walk(g, order)
  {
    if order != [] {
      WalkCongruence(f, g, order[..|order| - 1]);
    }
  }

  lemma {:induction false} WalksEqual<K, V>(f: K -> Outcome<V>, g: K -> Outcome<V>, order: seq<K>)
    requires forall k :: k in order ==> g(k).Ok?
    ensures Walk(f, order) == Walk(g, order) <==> forall k :: k in order ==> f(k) == g(k)
  {
    WalkOutcome(f, order);
    WalkOutcome(g, order);
    if Walk(f, order) == Walk(g, order) {
      forall k | k in order
        ensures f(k) == g(k)
      {
        var i :| 0 <= i < |order| && order[i] == k;
      }
    }
    if forall k :: k in order ==> f(k) == g(k) {
      WalkCongruence(f, g, order);
    }
  }

  lemma {:induction false} WalkOf<K, V>(f: K -> Outcome<V>, order: seq<K>, vs: seq<V>)
    requires |order| == |vs| && forall i :: 0 <= i < |order| ==> f(order[i]) == Ok(vs[i])
    ensures Walk(f, order) == Ok(vs)
  {
    if order != [] {
      var n := |order| - 1;
      WalkOf(f, order[..n], vs[..n]);
      assert vs == vs[..n] + [vs[n]];
    }
  }
}
