/** Sums of integer weights over a sequence of threads, the counting tool of the concurrency models. */
module Sums {

  ghost function Sum<T(!new)>(s: seq<T>, f: T -> int): int {
    if s == [] then 0 else Sum(s[..|s| - 1], f) + f(s[|s| - 1])
  }

  /** Changing one element moves the sum by the difference of its weights. */
  lemma {:induction false} SumUpdate<T(!new)>(s: seq<T>, i: nat, x: T, f: T -> int)
    requires i < |s|
    ensures Sum(s[i := x], f) == Sum(s, f) - f(s[i]) + f(x)
  {
    var last := |s| - 1;
    if i == last {
      assert s[i := x][..last] == s[..last];
    } else {
      SumUpdate(s[..last], i, x, f);
      assert s[i := x][..last] == s[..last][i := x];
    }
  }

  lemma {:induction false} SumBounds<T(!new)>(s: seq<T>, f: T -> int, hi: int)
    requires forall i :: 0 <= i < |s| ==> 0 <= f(s[i]) <= hi
    ensures 0 <= Sum(s, f) <= |s| * hi
  {
    if s != [] {
      SumBounds(s[..|s| - 1], f, hi);
    }
  }

  /** No two different elements can weigh more than the whole. */
  lemma {:induction false} SumPair<T(!new)>(s: seq<T>, f: T -> int, i: nat, j: nat)
    requires i < |s| && j < |s|
    requires forall k :: 0 <= k < |s| ==> 0 <= f(s[k])
    ensures f(s[i]) <= Sum(s, f)
    ensures i != j ==> f(s[i]) + f(s[j]) <= Sum(s, f)
    decreases |s|
  {
    var last := |s| - 1;
    if i < last && j < last {
      SumPair(s[..last], f, i, j);
    } else if i < last {
      SumPair(s[..last], f, i, i);
    } else if j < last {
      SumPair(s[..last], f, j, j);
    } else {
      SumNonNegative(s[..last], f);
    }
  }

  lemma {:induction false} SumNonNegative<T(!new)>(s: seq<T>, f: T -> int)
    requires forall i :: 0 <= i < |s| ==> 0 <= f(s[i])
    ensures 0 <= Sum(s, f)
  {
    if s != [] {
      SumNonNegative(s[..|s| - 1], f);
    }
  }

  /** A positive sum has an element of positive weight. */
  lemma {:induction false} SumWitness<T(!new)>(s: seq<T>, f: T -> int) returns (i: nat)
    requires Sum(s, f) > 0
    ensures i < |s| && f(s[i]) > 0
  {
    var last := |s| - 1;
    if f(s[last]) > 0 {
      i := last;
    } else {
      i := SumWitness(s[..last], f);
    }
  }

  lemma {:induction false} SumZero<T(!new)>(s: seq<T>, f: T -> int)
    requires forall i :: 0 <= i < |s| ==> f(s[i]) == 0
    ensures Sum(s, f) == 0
  {
    if s != [] {
      SumZero(s[..|s| - 1], f);
    }
  }

  lemma {:induction false} SumMonotone<T(!new)>(s: seq<T>, f: T -> int, g: T -> int)
    requires forall i :: 0 <= i < |s| ==> f(s[i]) <= g(s[i])
    ensures Sum(s, f) <= Sum(s, g)
  {
    if s != [] {
      SumMonotone(s[..|s| - 1], f, g);
    }
  }
}
