/**
 * Counting the elements of a sequence that satisfy a condition: the tool the FM-index
 * proofs use for ranks (how many suffixes come first), tallies (how many times a character
 * occurs in a prefix of the BWT) and the rows of a character block.
 */
module Counting {
  import opened Common

  /** How many elements of xs satisfy f. */
  function CountWhere<T>(xs: seq<T>, f: T -> bool): (n: nat)
    ensures n <= |xs|
  {
    if xs == [] then 0
    else CountWhere(xs[..|xs| - 1], f) + (if f(xs[|xs| - 1]) then 1 else 0)
  }

  lemma {:induction false} CountWhereAppend<T>(xs: seq<T>, ys: seq<T>, f: T -> bool)
    ensures CountWhere(xs + ys, f) == CountWhere(xs, f) + CountWhere(ys, f)
    decreases |ys|
  {
    if ys == [] {
      assert xs + ys == xs;
    } else {
      assert (xs + ys)[..|xs + ys| - 1] == xs + ys[..|ys| - 1];
      CountWhereAppend(xs, ys[..|ys| - 1], f);
    }
  }

  /** The count over a prefix and the rest of the sequence add up. */
  lemma CountWhereSplit<T>(xs: seq<T>, k: nat, f: T -> bool)
    requires k <= |xs|
    ensures CountWhere(xs, f) == CountWhere(xs[..k], f) + CountWhere(xs[k..], f)
  {
    assert xs == xs[..k] + xs[k..];
    CountWhereAppend(xs[..k], xs[k..], f);
  }

  lemma {:induction false} CountWhereNone<T>(xs: seq<T>, f: T -> bool)
    requires forall i :: 0 <= i < |xs| ==> !f(xs[i])
    ensures CountWhere(xs, f) == 0
    decreases |xs|
  {
    if xs != [] {
      CountWhereNone(xs[..|xs| - 1], f);
    }
  }

  lemma {:induction false} CountWhereAll<T>(xs: seq<T>, f: T -> bool)
    requires forall i :: 0 <= i < |xs| ==> f(xs[i])
    ensures CountWhere(xs, f) == |xs|
    decreases |xs|
  {
    if xs != [] {
      CountWhereAll(xs[..|xs| - 1], f);
    }
  }

  /** Two conditions that agree on every element count the same. */
  lemma {:induction false} CountWhereSame<T>(xs: seq<T>, f: T -> bool, g: T -> bool)
    requires forall i :: 0 <= i < |xs| ==> f(xs[i]) == g(xs[i])
    ensures CountWhere(xs, f) == CountWhere(xs, g)
    decreases |xs|
  {
    if xs != [] {
      CountWhereSame(xs[..|xs| - 1], f, g);
    }
  }

  /** A condition that is the disjoint union of two others counts as their sum. */
  lemma {:induction false} CountWhereUnion<T>(xs: seq<T>, f: T -> bool, g: T -> bool, h: T -> bool)
    requires forall i :: 0 <= i < |xs| ==> (f(xs[i]) <==> g(xs[i]) || h(xs[i]))
    requires forall i :: 0 <= i < |xs| ==> !(g(xs[i]) && h(xs[i]))
    ensures CountWhere(xs, f) == CountWhere(xs, g) + CountWhere(xs, h)
    decreases |xs|
  {
    if xs != [] {
      CountWhereUnion(xs[..|xs| - 1], f, g, h);
    }
  }

  /** Reordering the elements does not change the count. */
  lemma {:induction false} CountWherePerm<T>(xs: seq<T>, ys: seq<T>, f: T -> bool)
    requires multiset(xs) == multiset(ys)
    ensures CountWhere(xs, f) == CountWhere(ys, f)
    decreases |xs|
  {
    if xs == [] {
      assert |ys| == |multiset(ys)| == 0;
    } else {
      var x := xs[|xs| - 1];
      var xs' := xs[..|xs| - 1];
      assert x in multiset(ys) by {
        assert x in multiset(xs);
      }
      var j :| 0 <= j < |ys| && ys[j] == x;
      var ys' := ys[..j] + ys[j + 1..];
      assert multiset(xs') == multiset(ys') by {
        assert xs == xs' + [x];
        assert ys == ys[..j] + [x] + ys[j + 1..];
        assert multiset(ys') == multiset(ys) - multiset{x};
        assert multiset(xs') == multiset(xs) - multiset{x};
      }
      CountWherePerm(xs', ys', f);
      assert CountWhere(ys, f) == CountWhere(ys', f) + (if f(x) then 1 else 0) by {
        assert ys == ys[..j] + [x] + ys[j + 1..];
        CountWhereAppend(ys[..j] + [x], ys[j + 1..], f);
        CountWhereAppend(ys[..j], [x], f);
        CountWhereAppend(ys[..j], ys[j + 1..], f);
        assert CountWhere([x], f) == (if f(x) then 1 else 0) by {
          assert [x][..0] == [];
        }
      }
    }
  }

  /**
   * A condition that holds on a prefix of xs and nowhere after it: its count is the
   * length of that prefix, so element i satisfies it exactly when i is below the count.
   */
  lemma {:induction false} CountWherePrefix<T>(xs: seq<T>, f: T -> bool)
    requires forall i, j :: 0 <= i < j < |xs| && f(xs[j]) ==> f(xs[i])
    ensures forall i :: 0 <= i < |xs| ==> (f(xs[i]) <==> i < CountWhere(xs, f))
    decreases |xs|
  {
    if xs != [] {
      var n := |xs| - 1;
      CountWherePrefix(xs[..n], f);
      if f(xs[n]) {
        assert forall i :: 0 <= i < n ==> f(xs[..n][i]);
        CountWhereAll(xs[..n], f);
      }
    }
  }

  /** The condition "equals x". */
  function Is<T(==)>(x: T): T -> bool {
    y => y == x
  }

  /** Occurrences of a value counted by a condition. */
  lemma {:induction false} CountIsCountWhere<T>(xs: seq<T>, x: T)
    ensures Count(xs, x) == CountWhere(xs, Is(x))
    decreases |xs|
  {
    if xs != [] {
      CountIsCountWhere(xs[..|xs| - 1], x);
    }
  }

  /** 0, 1, ..., n - 1. */
  function Range(n: nat): (r: seq<nat>)
    ensures |r| == n && forall k :: 0 <= k < n ==> r[k] == k
  {
    if n == 0 then [] else Range(n - 1) + [n - 1]
  }

  /** Counting over 0..m (m + 1 numbers): the first, then the rest shifted down by one. */
  lemma CountRangeShift(m: nat, f: nat -> bool, g: nat -> bool)
    requires forall x :: 0 <= x < m ==> g(x) == f(x + 1)
    ensures CountWhere(Range(m + 1), f) == (if f(0) then 1 else 0) + CountWhere(Range(m), g)
  {
    CountRangeShifted(m, f);
    CountWhereSame(Range(m), Shifted(f), g);
  }

  /** The predicate f, read one number further on. */
  function Shifted(f: nat -> bool): (g: nat -> bool)
    ensures forall x: nat :: g(x) == f(x + 1)
  {
    (x: nat) => f(x + 1)
  }

  /** CountRangeShift for the shifted predicate itself, by induction on m. */
  lemma {:induction false} CountRangeShifted(m: nat, f: nat -> bool)
    ensures CountWhere(Range(m + 1), f) == (if f(0) then 1 else 0) + CountWhere(Range(m), Shifted(f))
    decreases m
  {
    CountRangeLast(m, f);
    if m == 0 {
      assert Range(0) == [];
    } else {
      CountRangeShifted(m - 1, f);
      CountRangeLast(m - 1, Shifted(f));
    }
  }

  /** Counting over 0..m: the numbers below m, then m itself. */
  lemma CountRangeLast(m: nat, f: nat -> bool)
    ensures CountWhere(Range(m + 1), f) == CountWhere(Range(m), f) + (if f(m) then 1 else 0)
  {
    assert Range(m + 1)[..m] == Range(m);
  }

  /** Counting the positions of s whose character qualifies is counting the characters. */
  lemma {:induction false} CountRangeChars<T>(s: seq<T>, m: nat, g: T -> bool, f: nat -> bool)
    requires m <= |s|
    requires forall x :: 0 <= x < m ==> f(x) == g(s[x])
    ensures CountWhere(Range(m), f) == CountWhere(s[..m], g)
    decreases m
  {
    if m > 0 {
      CountRangeChars(s, m - 1, g, f);
      assert Range(m)[..m - 1] == Range(m - 1);
      assert s[..m][..m - 1] == s[..m - 1];
    }
  }

  /** A count over a longer prefix is at least the count over a shorter one. */
  lemma CountMonotone<T>(xs: seq<T>, i: nat, j: nat, x: T)
    requires i <= j <= |xs|
    ensures Count(xs[..i], x) <= Count(xs[..j], x)
  {
    assert xs[..j] == xs[..i] + xs[i..j];
    CountAppend(xs[..i], xs[i..j], x);
  }

  /** Counting one more element of a prefix. */
  lemma CountStep<T>(xs: seq<T>, i: nat, x: T)
    requires i < |xs|
    ensures Count(xs[..i + 1], x) == Count(xs[..i], x) + (if xs[i] == x then 1 else 0)
  {
    assert xs[..i + 1][..i] == xs[..i];
  }

  /**
   * Between two prefixes whose counts of x are below and above k, there is an occurrence
   * of x with exactly k occurrences before it.
   */
  lemma {:induction false} CountReaches<T>(xs: seq<T>, lo: nat, hi: nat, x: T, k: nat)
    requires lo <= hi <= |xs| && Count(xs[..lo], x) <= k < Count(xs[..hi], x)
    ensures exists p :: lo <= p < hi && xs[p] == x && Count(xs[..p], x) == k
    decreases hi - lo
  {
    CountStep(xs, hi - 1, x);
    if Count(xs[..hi - 1], x) <= k {
      assert xs[hi - 1] == x && Count(xs[..hi - 1], x) == k;
    } else {
      CountReaches(xs, lo, hi - 1, x, k);
    }
  }
}
