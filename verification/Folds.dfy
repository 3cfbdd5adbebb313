/** Folding a commutative and associative operation over a list in any order. */
module Folds {

  function Fold<T>(op: (T, T) -> T, unit: T, xs: seq<T>): T {
    if xs == [] then unit else op(Fold(op, unit, xs[..|xs| - 1]), xs[|xs| - 1])
  }

  /** On the values for which ok holds, op is commutative and associative and stays among them. */
  ghost predicate Lawful<T(!new)>(op: (T, T) -> T, unit: T, ok: T -> bool) {
    && ok(unit)
    && (forall a, b :: ok(a) && ok(b) ==> ok(op(a, b)) && op(a, b) == op(b, a))
    && (forall a, b, c :: ok(a) && ok(b) && ok(c) ==> op(op(a, b), c) == op(a, op(b, c)))
  }

  ghost predicate AllOk<T>(ok: T -> bool, xs: seq<T>) {
    forall i :: 0 <= i < |xs| ==> ok(xs[i])
  }

  lemma {:induction false} FoldOk<T(!new)>(op: (T, T) -> T, unit: T, ok: T -> bool, xs: seq<T>)
    requires Lawful(op, unit, ok) && AllOk(ok, xs)
    ensures ok(Fold(op, unit, xs))
  {
    if xs != [] {
      FoldOk(op, unit, ok, xs[..|xs| - 1]);
    }
  }

  function Without<T>(xs: seq<T>, i: nat): seq<T>
    requires i < |xs|
  {
    xs[..i] + xs[i + 1..]
  }

  lemma WithoutLast<T>(xs: seq<T>, i: nat)
    requires i < |xs| - 1
    ensures var init := xs[..|xs| - 1];
            Without(xs, i) == Without(init, i) + [xs[|xs| - 1]]
  {
  }

  lemma MultisetWithout<T>(xs: seq<T>, i: nat)
    requires i < |xs|
    ensures multiset(Without(xs, i)) == multiset(xs) - multiset{xs[i]}
  {
    assert xs == xs[..i] + [xs[i]] + xs[i + 1..];
  }

  /** Any element can be folded in last. */
  lemma {:induction false} AnyOneLast<T(!new)>(op: (T, T) -> T, unit: T, ok: T -> bool, xs: seq<T>, i: nat)
    requires Lawful(op, unit, ok) && AllOk(ok, xs) && i < |xs|
    ensures Fold(op, unit, xs) == op(Fold(op, unit, Without(xs, i)), xs[i])
    decreases |xs|
  {
    var n := |xs| - 1;
    var init := xs[..n];
    if i == n {
      assert Without(xs, i) == init;
    } else {
      AnyOneLast(op, unit, ok, init, i);
      WithoutLast(xs, i);
      var rest := Without(init, i);
      assert (rest + [xs[n]])[..|rest|] == rest;
      FoldOk(op, unit, ok, rest);
      Swap(op, unit, ok, Fold(op, unit, rest), xs[i], xs[n]);
    }
  }

  lemma Swap<T(!new)>(op: (T, T) -> T, unit: T, ok: T -> bool, a: T, b: T, c: T)
    requires Lawful(op, unit, ok) && ok(a) && ok(b) && ok(c)
    ensures op(op(a, b), c) == op(op(a, c), b)
  {
    assert op(op(a, b), c) == op(a, op(b, c));
    assert op(op(a, c), b) == op(a, op(c, b));
  }

  /** A permutation of a list holds its last element, and what is left is a permutation of the rest. */
  lemma TakeOut<T>(xs: seq<T>, ys: seq<T>) returns (i: nat)
    requires xs != [] && multiset(xs) == multiset(ys)
    ensures i < |ys| && ys[i] == xs[|xs| - 1]
    ensures multiset(xs[..|xs| - 1]) == multiset(Without(ys, i))
  {
    var n := |xs| - 1;
    assert xs[n] in multiset(ys);
    i :| 0 <= i < |ys| && ys[i] == xs[n];
    MultisetWithout(ys, i);
    MultisetWithout(xs, n);
    assert Without(xs, n) == xs[..n];
  }

  lemma {:induction false} FoldPermutation<T(!new)>(op: (T, T) -> T, unit: T, ok: T -> bool, xs: seq<T>, ys: seq<T>)
    requires Lawful(op, unit, ok) && AllOk(ok, xs) && AllOk(ok, ys)
    requires multiset(xs) == multiset(ys)
    ensures Fold(op, unit, xs) == Fold(op, unit, ys)
    decreases |xs|
  {
    if xs == [] {
      assert |multiset(ys)| == 0;
    } else {
      var i := TakeOut(xs, ys);
      AnyOneLast(op, unit, ok, ys, i);
      FoldPermutation(op, unit, ok, xs[..|xs| - 1], Without(ys, i));
    }
  }

  /** A property that a combination has when one of its parts has it. */
  ghost predicate Additive<T(!new)>(op: (T, T) -> T, unit: T, holds: T -> bool) {
    !holds(unit) && forall a, b :: holds(op(a, b)) <==> holds(a) || holds(b)
  }

  ghost predicate SomeOf<T>(xs: seq<T>, holds: T -> bool) {
    exists i :: 0 <= i < |xs| && holds(xs[i])
  }

  lemma {:induction false} FoldSome<T(!new)>(op: (T, T) -> T, unit: T, xs: seq<T>, holds: T -> bool)
    requires Additive(op, unit, holds)
    ensures holds(Fold(op, unit, xs)) <==> SomeOf(xs, holds)
  {
    if xs != [] {
      var n := |xs| - 1;
      FoldSome(op, unit, xs[..n], holds);
      if i :| 0 <= i < |xs| && holds(xs[i]) {
        assert i < n ==> holds(xs[..n][i]);
      }
      if i :| 0 <= i < n && holds(xs[..n][i]) {
        assert holds(xs[i]);
      }
    }
  }
}
