/** Totals over a sequence of goroutines, transactions or rows, and how they move when one entry changes. */
module Tallies {

  function Sum<T>(xs: seq<T>, f: T -> int): int
  {
    if xs == [] then 0 else f(xs[0]) + Sum(xs[1..], f)
  }

  function Gather<T, E>(xs: seq<T>, f: T -> multiset<E>): multiset<E>
  {
    if xs == [] then multiset{} else f(xs[0]) + Gather(xs[1..], f)
  }

  lemma {:induction false} SumUpdate<T>(xs: seq<T>, f: T -> int, i: nat, x: T)
    requires i < |xs|
    ensures Sum(xs[i := x], f) == Sum(xs, f) - f(xs[i]) + f(x)
  {
    if i == 0 {
      assert xs[i := x][1..] == xs[1..];
    } else {
      SumUpdate(xs[1..], f, i - 1, x);
      assert xs[i := x][1..] == xs[1..][i - 1 := x];
    }
  }

  lemma {:induction false} SumAppend<T>(xs: seq<T>, f: T -> int, x: T)
    ensures Sum(xs + [x], f) == Sum(xs, f) + f(x)
  {
    if xs == [] {
      assert xs + [x] == [x] && [x][1..] == [];
    } else {
      SumAppend(xs[1..], f, x);
      assert (xs + [x])[1..] == xs[1..] + [x];
    }
  }

  lemma {:induction false} GatherUpdate<T, E>(xs: seq<T>, f: T -> multiset<E>, i: nat, x: T)
    requires i < |xs|
    ensures Gather(xs[i := x], f) + f(xs[i]) == Gather(xs, f) + f(x)
    ensures f(xs[i]) == f(x) ==> Gather(xs[i := x], f) == Gather(xs, f)
    ensures f(xs[i]) == multiset{} ==> Gather(xs[i := x], f) == Gather(xs, f) + f(x)
    ensures f(x) == multiset{} ==> Gather(xs[i := x], f) + f(xs[i]) == Gather(xs, f)
  {
    if i == 0 {
      assert xs[i := x][1..] == xs[1..];
    } else {
      GatherUpdate(xs[1..], f, i - 1, x);
      assert xs[i := x][1..] == xs[1..][i - 1 := x];
      var rest, rest' := Gather(xs[1..], f), Gather(xs[1..][i - 1 := x], f);
      assert xs[1..][i - 1] == xs[i];
      assert f(xs[0]) + rest' + f(xs[i]) == f(xs[0]) + (rest' + f(xs[i])) == f(xs[0]) + rest + f(x);
    }
  }

  lemma {:induction false} GatherAppend<T, E>(xs: seq<T>, f: T -> multiset<E>, x: T)
    ensures Gather(xs + [x], f) == Gather(xs, f) + f(x)
  {
    if xs == [] {
      assert xs + [x] == [x] && [x][1..] == [];
    } else {
      GatherAppend(xs[1..], f, x);
      assert (xs + [x])[1..] == xs[1..] + [x];
    }
  }

  /** A total of non-negative entries is at least any one of them, and zero only if each is. */
  lemma {:induction false} SumBounds<T>(xs: seq<T>, f: T -> int, i: nat)
    requires i < |xs|
    requires forall x :: f(x) >= 0
    ensures Sum(xs, f) >= f(xs[i])
  {
    SumNonNegative(xs[1..], f);
    if i > 0 {
      SumBounds(xs[1..], f, i - 1);
    }
  }

  lemma {:induction false} SumNonNegative<T>(xs: seq<T>, f: T -> int)
    requires forall x :: f(x) >= 0
    ensures Sum(xs, f) >= 0
  {
    if xs != [] {
      SumNonNegative(xs[1..], f);
    }
  }

  lemma {:induction false} SumZero<T>(xs: seq<T>, f: T -> int)
    requires forall i | 0 <= i < |xs| :: f(xs[i]) == 0
    ensures Sum(xs, f) == 0
  {
    if xs != [] {
      SumZero(xs[1..], f);
    }
  }

  lemma {:induction false} GatherEmpty<T, E>(xs: seq<T>, f: T -> multiset<E>)
    requires forall i | 0 <= i < |xs| :: f(xs[i]) == multiset{}
    ensures Gather(xs, f) == multiset{}
  {
    if xs != [] {
      GatherEmpty(xs[1..], f);
    }
  }

  lemma {:induction false} GatherHolds<T, E>(xs: seq<T>, f: T -> multiset<E>, i: nat)
    requires i < |xs|
    ensures f(xs[i]) <= Gather(xs, f)
  {
    if i > 0 {
      GatherHolds(xs[1..], f, i - 1);
    }
  }
}
