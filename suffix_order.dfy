/**
 * The order in which the FM-index sorts the suffixes of its sequence: lexicographic on
 * characters, a proper prefix before every extension of it (the order the suffix comparator
 * of FMIndexSingleSequence gives), and the insertion sort that stands for the library sort.
 */
module SuffixOrder {
  import opened Counting

  /** x comes strictly before y. */
  predicate Lt(x: seq<char>, y: seq<char>)
    decreases |x|
  {
    if x == [] then y != []
    else y != [] && (x[0] < y[0] || (x[0] == y[0] && Lt(x[1..], y[1..])))
  }

  lemma {:induction false} LtIrreflexive(x: seq<char>)
    ensures !Lt(x, x)
    decreases |x|
  {
    if x != [] {
      LtIrreflexive(x[1..]);
    }
  }

  lemma {:induction false} LtTransitive(x: seq<char>, y: seq<char>, z: seq<char>)
    requires Lt(x, y) && Lt(y, z)
    ensures Lt(x, z)
    decreases |x|
  {
    if x != [] && x[0] == y[0] && y[0] == z[0] {
      LtTransitive(x[1..], y[1..], z[1..]);
    }
  }

  /** Any two different sequences are ordered one way or the other. */
  lemma {:induction false} LtTotal(x: seq<char>, y: seq<char>)
    ensures x == y || Lt(x, y) || Lt(y, x)
    decreases |x|
  {
    if x != [] && y != [] && x[0] == y[0] {
      LtTotal(x[1..], y[1..]);
      if x[1..] == y[1..] {
        assert x == [x[0]] + x[1..] && y == [y[0]] + y[1..];
      }
    }
  }

  lemma LtAsymmetric(x: seq<char>, y: seq<char>)
    requires Lt(x, y)
    ensures !Lt(y, x)
  {
    if Lt(y, x) {
      LtTransitive(x, y, x);
      LtIrreflexive(x);
    }
  }

  /** Suffixes at different positions of the same text differ (in length). */
  lemma SuffixesDiffer(s: seq<char>, p: nat, q: nat)
    requires p <= |s| && q <= |s| && p != q
    ensures s[p..] != s[q..]
  {
    assert |s[p..]| != |s[q..]|;
  }

  /** The suffixes at p and q, in one order or the other. */
  lemma SuffixesOrdered(s: seq<char>, p: nat, q: nat)
    requires p <= |s| && q <= |s| && p != q
    ensures Lt(s[p..], s[q..]) <==> !Lt(s[q..], s[p..])
  {
    SuffixesDiffer(s, p, q);
    LtTotal(s[p..], s[q..]);
    if Lt(s[p..], s[q..]) {
      LtAsymmetric(s[p..], s[q..]);
    }
  }

  /** The empty suffix comes first. */
  lemma EmptyFirst(s: seq<char>, p: nat)
    requires p < |s|
    ensures Lt(s[|s|..], s[p..]) && !Lt(s[p..], s[|s|..])
  {
  }

  /** Comparing two non-empty suffixes: first characters, then the rest. */
  lemma LtStep(s: seq<char>, p: nat, q: nat)
    requires p < |s| && q < |s|
    ensures Lt(s[p..], s[q..]) <==> s[p] < s[q] || (s[p] == s[q] && Lt(s[p + 1..], s[q + 1..]))
  {
    assert s[p..][1..] == s[p + 1..] && s[q..][1..] == s[q + 1..];
  }

  // ---------------------------------------------------------------- suffix arrays

  predicate Positions(s: seq<char>, xs: seq<nat>) {
    forall k :: 0 <= k < |xs| ==> xs[k] < |s|
  }

  /** Strictly increasing suffixes, hence no position twice. */
  predicate SortedSuffixes(s: seq<char>, xs: seq<nat>)
    requires Positions(s, xs)
  {
    forall i, j {:trigger Lt(s[xs[i]..], s[xs[j]..])} :: 0 <= i < j < |xs| ==> Lt(s[xs[i]..], s[xs[j]..])
  }

  /** What buildSuffixArray returns: every position of s once, ordered by suffix. */
  predicate IsSuffixArray(s: seq<char>, sa: seq<nat>) {
    |sa| == |s| && multiset(sa) == multiset(Range(|s|))
    && Positions(s, sa) && SortedSuffixes(s, sa)
  }

  /** xs with p inserted in front of the first larger suffix. */
  function Insert(s: seq<char>, p: nat, xs: seq<nat>): (r: seq<nat>)
    requires p < |s| && Positions(s, xs)
    ensures Positions(s, r) && multiset(r) == multiset(xs) + multiset{p}
  {
    if xs == [] then [p]
    else if Lt(s[p..], s[xs[0]..]) then [p] + xs
    else
      assert xs == [xs[0]] + xs[1..];
      [xs[0]] + Insert(s, p, xs[1..])
  }

  /** The library sort of the position list, by suffix. */
  function Sort(s: seq<char>, xs: seq<nat>): (r: seq<nat>)
    requires Positions(s, xs)
    ensures Positions(s, r) && multiset(r) == multiset(xs)
  {
    if xs == [] then []
    else
      assert xs == [xs[0]] + xs[1..];
      Insert(s, xs[0], Sort(s, xs[1..]))
  }

  lemma {:induction false} InsertSorted(s: seq<char>, p: nat, xs: seq<nat>)
    requires p < |s| && Positions(s, xs) && SortedSuffixes(s, xs) && p !in xs
    ensures SortedSuffixes(s, Insert(s, p, xs))
    decreases |xs|
  {
    if xs != [] && !Lt(s[p..], s[xs[0]..]) {
      assert xs[0] in xs;
      SuffixesOrdered(s, p, xs[0]);
      assert xs == [xs[0]] + xs[1..];
      var rest := xs[1..];
      assert forall k :: 0 <= k < |rest| ==> rest[k] == xs[k + 1];
      InsertSorted(s, p, rest);
      var r := Insert(s, p, xs);
      assert r == [xs[0]] + Insert(s, p, rest);
      forall j | 0 < j < |r|
        ensures Lt(s[xs[0]..], s[r[j]..])
      {
        assert r[j] in multiset(Insert(s, p, rest));
        assert r[j] == p || r[j] in multiset(rest);
        if r[j] != p {
          var k :| 0 <= k < |rest| && rest[k] == r[j];
          assert Lt(s[xs[0]..], s[xs[k + 1]..]);
        }
      }
    } else if xs != [] {
      var r := [p] + xs;
      forall j | 0 < j < |r|
        ensures Lt(s[p..], s[r[j]..])
      {
        if j > 1 {
          assert Lt(s[xs[0]..], s[xs[j - 1]..]);
          LtTransitive(s[p..], s[xs[0]..], s[xs[j - 1]..]);
        }
      }
    }
  }

  /** Sorting distinct positions gives strictly increasing suffixes. */
  lemma {:induction false} SortSorted(s: seq<char>, xs: seq<nat>)
    requires Positions(s, xs)
    requires forall i, j :: 0 <= i < j < |xs| ==> xs[i] != xs[j]
    ensures SortedSuffixes(s, Sort(s, xs))
    decreases |xs|
  {
    if xs != [] {
      var rest := xs[1..];
      SortSorted(s, rest);
      assert xs[0] !in rest;
      assert xs[0] !in multiset(Sort(s, rest));
      InsertSorted(s, xs[0], Sort(s, rest));
    }
  }

  /** Sorting 0..n-1 by suffix yields a suffix array. */
  lemma SortRangeIsSuffixArray(s: seq<char>)
    ensures Positions(s, Range(|s|))
    ensures IsSuffixArray(s, Sort(s, Range(|s|)))
  {
    var xs := Range(|s|);
    SortSorted(s, xs);
    var sa := Sort(s, xs);
    assert |sa| == |multiset(sa)| == |multiset(xs)| == |s|;
  }
}
