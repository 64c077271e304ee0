/**
 * The mathematics behind FMIndexSingleSequence: the sorted rows of the Burrows-Wheeler
 * matrix of a text, the BWT column, the rows of each character block, the LF mapping and
 * the backward-search step that getRange iterates.
 *
 * Row r of the matrix is the suffix of `s` starting at E[r], followed by the sentinel `$`.
 * Row 0 is the sentinel alone (E[0] == |s|); rows 1..|s| follow the suffix array.
 */
module FMTheory {
  import opened Common
  import opened Counting
  import opened SuffixOrder

  /** The end-of-text marker, sorting before every character of the text. */
  const Sentinel: char := '$'

  /** A text the index can be built for: non-empty and free of the sentinel. */
  predicate ValidText(s: seq<char>) {
    |s| >= 1 && Sentinel !in s
  }

  /** The start positions of the rows: the sentinel row, then the suffix array. */
  function Rows(s: seq<char>, sa: seq<nat>): seq<nat> {
    [|s|] + sa
  }

  /** Every position 0..|s| once, the rows in strictly increasing suffix order. */
  predicate SortedRows(s: seq<char>, e: seq<nat>) {
    |e| == |s| + 1
    && multiset(e) == multiset(Range(|s| + 1))
    && (forall k :: 0 <= k < |e| ==> e[k] <= |s|)
    && (forall i, j {:trigger Lt(s[e[i]..], s[e[j]..])} :: 0 <= i < j < |e| ==> Lt(s[e[i]..], s[e[j]..]))
  }

  /** The character before position x in the text, or the sentinel before position 0. */
  function BwtChar(s: seq<char>, x: nat): char {
    if 1 <= x <= |s| then s[x - 1] else Sentinel
  }

  /** The last column of the matrix: the character preceding each row's suffix. */
  function Bwt(s: seq<char>, e: seq<nat>): (b: seq<char>)
    ensures |b| == |e|
  {
    seq(|e|, i requires 0 <= i < |e| => BwtChar(s, e[i]))
  }

  function CharBelow(c: char): char -> bool {
    y => y < c
  }

  function CharAtMost(c: char): char -> bool {
    y => y <= c
  }

  /** How many characters of s are smaller than c. */
  function Smaller(s: seq<char>, c: char): nat {
    CountWhere(s, CharBelow(c))
  }

  /** The text followed by the sentinel, as the rows of the matrix read it. */
  function Terminated(s: seq<char>): seq<char> {
    s + [Sentinel]
  }

  /** The query q occurs at position x of the terminated text. */
  predicate Matches(s: seq<char>, q: seq<char>, x: nat) {
    x + |q| <= |s| + 1 && Terminated(s)[x..x + |q|] == q
  }

  // ---------------------------------------------------------------- rows

  lemma RowsOfSuffixArray(s: seq<char>, sa: seq<nat>)
    requires IsSuffixArray(s, sa)
    ensures SortedRows(s, Rows(s, sa))
  {
    var n, e := |s|, Rows(s, sa);
    assert Range(n + 1) == Range(n) + [n];
    assert multiset(e) == multiset{n} + multiset(sa);
    forall i, j | 0 <= i < j < |e|
      ensures Lt(s[e[i]..], s[e[j]..])
    {
      if i == 0 {
        EmptyFirst(s, sa[j - 1]);
      } else {
        assert Lt(s[sa[i - 1]..], s[sa[j - 1]..]);
      }
    }
  }

  /** Every position of the terminated text heads some row. */
  lemma RowExists(s: seq<char>, e: seq<nat>, x: nat)
    requires SortedRows(s, e) && x <= |s|
    ensures exists r :: 0 <= r < |e| && e[r] == x
  {
    assert Range(|s| + 1)[x] == x;
    assert x in multiset(e);
  }

  /** Different rows start at different positions. */
  lemma RowsDistinct(s: seq<char>, e: seq<nat>, r: nat, r2: nat)
    requires SortedRows(s, e) && r < |e| && r2 < |e| && e[r] == e[r2]
    ensures r == r2
  {
    if r < r2 {
      LtIrreflexive(s[e[r]..]);
    } else if r2 < r {
      LtIrreflexive(s[e[r]..]);
    }
  }

  /** Rows are in suffix order. */
  lemma RowOrder(s: seq<char>, e: seq<nat>, i: nat, j: nat)
    requires SortedRows(s, e) && i < j < |e|
    ensures Lt(s[e[i]..], s[e[j]..])
  {
  }

  /** The sentinel alone is the smallest row. */
  lemma SentinelFirst(s: seq<char>, e: seq<nat>)
    requires SortedRows(s, e)
    ensures e[0] == |s|
  {
    RowExists(s, e, |s|);
    var r :| 0 <= r < |e| && e[r] == |s|;
    if r > 0 {
      RowOrder(s, e, 0, r);
      assert false;
    }
  }

  /** x is a position whose suffix comes before the one at q. */
  function Below(s: seq<char>, q: nat): nat -> bool {
    (x: nat) => x <= |s| && q <= |s| && Lt(s[x..], s[q..])
  }

  /** A row's index is the number of suffixes smaller than its own. */
  lemma RowIsRank(s: seq<char>, e: seq<nat>, r: nat)
    requires SortedRows(s, e) && r < |e|
    ensures r == CountWhere(e, Below(s, e[r]))
  {
    var f := Below(s, e[r]);
    CountWhereSplit(e, r, f);
    assert forall i :: 0 <= i < r ==> e[..r][i] == e[i];
    CountWhereAll(e[..r], f);
    forall i | 0 <= i < |e[r..]|
      ensures !f(e[r..][i])
    {
      if i == 0 {
        LtIrreflexive(s[e[r]..]);
      } else {
        LtAsymmetric(s[e[r]..], s[e[r + i]..]);
      }
    }
    CountWhereNone(e[r..], f);
  }

  /** x is the sentinel position or its character satisfies P. */
  function SentinelOr(s: seq<char>, P: char -> bool): nat -> bool {
    (x: nat) => x >= |s| || P(s[x])
  }

  /** Counting rows by their first character: the sentinel row plus the matching characters. */
  lemma CountRows(s: seq<char>, e: seq<nat>, P: char -> bool)
    requires SortedRows(s, e)
    ensures CountWhere(e, SentinelOr(s, P)) == 1 + CountWhere(s, P)
  {
    var n, f := |s|, SentinelOr(s, P);
    CountWherePerm(e, Range(n + 1), f);
    CountRangeLast(n, f);
    CountRangeChars(s, n, P, f);
    assert s[..n] == s;
  }

  /** x is a position whose preceding character (or sentinel) is c. */
  function PrecededBy(s: seq<char>, c: char): nat -> bool {
    (x: nat) => BwtChar(s, x) == c
  }

  /** Occurrences of c in a prefix of the BWT counted over the row positions. */
  lemma {:induction false} BwtPrefixCount(s: seq<char>, e: seq<nat>, r: nat, c: char)
    requires r <= |e|
    ensures Count(Bwt(s, e)[..r], c) == CountWhere(e[..r], PrecededBy(s, c))
    decreases r
  {
    if r > 0 {
      BwtPrefixCount(s, e, r - 1, c);
      assert Bwt(s, e)[..r][..r - 1] == Bwt(s, e)[..r - 1];
      assert e[..r][..r - 1] == e[..r - 1];
    }
  }

  /** The BWT holds each character of the text as often as the text does. */
  lemma BwtCount(s: seq<char>, e: seq<nat>, c: char)
    requires SortedRows(s, e) && c != Sentinel
    ensures Count(Bwt(s, e), c) == Count(s, c)
  {
    var n, f := |s|, PrecededBy(s, c);
    BwtPrefixCount(s, e, |e|, c);
    assert Bwt(s, e)[..|e|] == Bwt(s, e) && e[..|e|] == e;
    CountWherePerm(e, Range(n + 1), f);
    var g: nat -> bool := (x: nat) => f(x + 1);
    CountRangeShift(n, f, g);
    CountRangeChars(s, n, Is(c), g);
    assert s[..n] == s;
    CountIsCountWhere(s, c);
  }

  // ---------------------------------------------------------------- character blocks

  /**
   * A first-character condition closed downwards over characters stays closed downwards
   * over the sorted rows, with the sentinel row at the bottom.
   */
  lemma RowsDownward(s: seq<char>, e: seq<nat>, P: char -> bool)
    requires SortedRows(s, e)
    requires forall a: char, b: char :: a <= b && P(b) ==> P(a)
    ensures forall i, j :: 0 <= i < j < |e| && SentinelOr(s, P)(e[j]) ==> SentinelOr(s, P)(e[i])
  {
    forall i, j | 0 <= i < j < |e| && SentinelOr(s, P)(e[j])
      ensures SentinelOr(s, P)(e[i])
    {
      if e[i] < |s| {
        assert Lt(s[e[i]..], s[e[j]..]);
        if e[j] >= |s| {
          assert false;
        }
        LtStep(s, e[i], e[j]);
        assert P(s[e[j]]);
      }
    }
  }

  /** Smaller characters and c itself together are the characters up to c. */
  lemma AtMostSplit(s: seq<char>, c: char)
    ensures CountWhere(s, CharAtMost(c)) == Smaller(s, c) + Count(s, c)
  {
    CountWhereUnion(s, CharAtMost(c), CharBelow(c), Is(c));
    CountIsCountWhere(s, c);
  }

  /**
   * The rows whose suffix starts with c are exactly 1 + Smaller(s, c) up to
   * Smaller(s, c) + Count(s, c), both ends included.
   */
  lemma CharBlock(s: seq<char>, e: seq<nat>, c: char)
    requires SortedRows(s, e)
    ensures forall r :: 0 <= r < |e| ==>
      ((e[r] < |s| && s[e[r]] == c) <==> 1 + Smaller(s, c) <= r <= Smaller(s, c) + Count(s, c))
  {
    var g1, g2 := SentinelOr(s, CharBelow(c)), SentinelOr(s, CharAtMost(c));
    RowsDownward(s, e, CharBelow(c));
    RowsDownward(s, e, CharAtMost(c));
    CountWherePrefix(e, g1);
    CountWherePrefix(e, g2);
    CountRows(s, e, CharBelow(c));
    CountRows(s, e, CharAtMost(c));
    AtMostSplit(s, c);
  }

  // ---------------------------------------------------------------- LF mapping

  /** x is followed by c and the suffix after it comes before the one at p. */
  function FollowedBelow(s: seq<char>, c: char, p: nat): nat -> bool {
    (x: nat) => x < |s| && s[x] == c && p <= |s| && Lt(s[x + 1..], s[p..])
  }

  /** Same, indexed by the position after c. */
  function PrecededBelow(s: seq<char>, c: char, p: nat): nat -> bool {
    (x: nat) => 1 <= x <= |s| && s[x - 1] == c && p <= |s| && Lt(s[x..], s[p..])
  }

  /** Suffixes below c.s[p..]: those starting with a smaller character or the sentinel ... */
  lemma SuffixesBelowSplit(s: seq<char>, e: seq<nat>, q: nat)
    requires SortedRows(s, e) && q < |s|
    ensures CountWhere(e, Below(s, q))
         == CountWhere(e, SentinelOr(s, CharBelow(s[q]))) + CountWhere(e, FollowedBelow(s, s[q], q + 1))
  {
    var c := s[q];
    forall i | 0 <= i < |e|
      ensures Below(s, q)(e[i]) <==>
              SentinelOr(s, CharBelow(c))(e[i]) || FollowedBelow(s, c, q + 1)(e[i])
    {
      if e[i] < |s| {
        LtStep(s, e[i], q);
      } else {
        EmptyFirst(s, q);
      }
    }
    CountWhereUnion(e, Below(s, q), SentinelOr(s, CharBelow(c)), FollowedBelow(s, c, q + 1));
  }

  /** ... and those starting with c whose rest is below s[p..]: c in the BWT above row r. */
  lemma FollowedBelowCount(s: seq<char>, e: seq<nat>, r: nat, c: char)
    requires SortedRows(s, e) && r < |e| && c != Sentinel
    ensures CountWhere(e, FollowedBelow(s, c, e[r])) == Count(Bwt(s, e)[..r], c)
  {
    var n, p := |s|, e[r];
    var f, g := FollowedBelow(s, c, p), PrecededBelow(s, c, p);
    CountWherePerm(e, Range(n + 1), f);
    CountRangeLast(n, f);
    CountRangeShift(n, g, f);
    CountWherePerm(e, Range(n + 1), g);
    CountWhereSplit(e, r, g);
    forall i | 0 <= i < |e[r..]|
      ensures !g(e[r..][i])
    {
      if i == 0 {
        LtIrreflexive(s[p..]);
      } else {
        LtAsymmetric(s[p..], s[e[r + i]..]);
      }
    }
    CountWhereNone(e[r..], g);
    forall i | 0 <= i < |e[..r]|
      ensures g(e[..r][i]) == PrecededBy(s, c)(e[..r][i])
    {
      assert Lt(s[e[i]..], s[p..]);
    }
    CountWhereSame(e[..r], g, PrecededBy(s, c));
    BwtPrefixCount(s, e, r, c);
  }

  /**
   * The LF mapping: if row r2 starts one position before row r, and c is the character
   * there, then r2 is 1 + Smaller(s, c) plus the occurrences of c in the BWT above row r.
   */
  lemma LFMapping(s: seq<char>, e: seq<nat>, r: nat, r2: nat)
    requires ValidText(s) && SortedRows(s, e)
    requires r < |e| && r2 < |e| && e[r2] + 1 == e[r]
    ensures e[r2] < |s|
    ensures r2 == 1 + Smaller(s, s[e[r2]]) + Count(Bwt(s, e)[..r], s[e[r2]])
  {
    var q := e[r2];
    var c := s[q];
    assert c in s;
    RowIsRank(s, e, r2);
    SuffixesBelowSplit(s, e, q);
    CountRows(s, e, CharBelow(c));
    FollowedBelowCount(s, e, r, c);
  }

  // ---------------------------------------------------------------- backward search

  /** A one-character query matches where the terminated text has that character. */
  lemma MatchesSingle(s: seq<char>, c: char, x: nat)
    ensures Matches(s, [c], x) <==> (x < |s| && s[x] == c) || (x == |s| && c == Sentinel)
  {
    if x <= |s| {
      assert Terminated(s)[x..x + 1] == [Terminated(s)[x]];
    }
  }

  /** Extending a query by a character on the left. */
  lemma MatchesCons(s: seq<char>, c: char, q: seq<char>, x: nat)
    requires c != Sentinel
    ensures Matches(s, [c] + q, x) <==> x < |s| && s[x] == c && Matches(s, q, x + 1)
  {
    var t, k := Terminated(s), |q|;
    if x + 1 + k <= |s| + 1 {
      assert t[x..x + 1 + k] == [t[x]] + t[x + 1..x + 1 + k];
      if Matches(s, [c] + q, x) {
        assert t[x] == ([c] + q)[0] == c;
        assert t[x + 1..x + 1 + k] == ([c] + q)[1..] == q;
      }
    }
  }

  /** A match of q contains a match of every suffix of q. */
  lemma MatchesSuffix(s: seq<char>, q: seq<char>, j: nat, x: nat)
    requires j <= |q| && Matches(s, q, x)
    ensures Matches(s, q[j..], x + j)
  {
    var t := Terminated(s);
    assert t[x + j..x + |q|] == t[x..x + |q|][j..];
  }

  /** A match of a query longer than one character starts with a character of the text. */
  lemma MatchesHead(s: seq<char>, q: seq<char>, x: nat)
    requires |q| >= 2 && Matches(s, q, x)
    ensures x < |s| && s[x] == q[0] && q[0] in s
  {
    var t := Terminated(s);
    assert t[x..x + |q|][0] == t[x];
  }

  /** A query whose first character is missing from the text (a sentinel included) does not occur. */
  lemma NoMatchOutside(s: seq<char>, c: char, q: seq<char>, x: nat)
    requires c !in s && |q| >= 1
    ensures !Matches(s, [c] + q, x)
  {
    if Matches(s, [c] + q, x) {
      MatchesHead(s, [c] + q, x);
      assert false;
    }
  }

  /** The rows matching one non-sentinel character form its block. */
  lemma BackwardBase(s: seq<char>, e: seq<nat>, c: char)
    requires SortedRows(s, e) && c != Sentinel
    ensures forall r :: 0 <= r < |e| ==>
      (1 + Smaller(s, c) <= r <= Smaller(s, c) + Count(s, c) <==> Matches(s, [c], e[r]))
  {
    CharBlock(s, e, c);
    forall r | 0 <= r < |e|
      ensures Matches(s, [c], e[r]) <==> e[r] < |s| && s[e[r]] == c
    {
      MatchesSingle(s, c, e[r]);
    }
  }

  /** The only row matching the sentinel is row 0. */
  lemma BackwardBaseSentinel(s: seq<char>, e: seq<nat>)
    requires ValidText(s) && SortedRows(s, e)
    ensures forall r :: 0 <= r < |e| ==> (r == 0 <==> Matches(s, [Sentinel], e[r]))
  {
    SentinelFirst(s, e);
    forall r | 0 <= r < |e|
      ensures r == 0 <==> Matches(s, [Sentinel], e[r])
    {
      MatchesSingle(s, Sentinel, e[r]);
      if e[r] < |s| {
        assert s[e[r]] in s;
      }
      if e[r] == |s| {
        RowsDistinct(s, e, 0, r);
      }
    }
  }

  /** The first row of the block of c.q, counted from the first row S of the block of q. */
  function StepFirst(s: seq<char>, e: seq<nat>, c: char, S: nat): nat
    requires S <= |e|
  {
    1 + Smaller(s, c) + Count(Bwt(s, e)[..S], c)
  }

  /** The last row of the block of c.q, counted from the last row F of the block of q. */
  function StepLast(s: seq<char>, e: seq<nat>, c: char, F: nat): nat
    requires F < |e|
  {
    Smaller(s, c) + Count(Bwt(s, e)[..F + 1], c)
  }

  /** A non-sentinel BWT character at row p: the row starting one position earlier. */
  lemma LFStep(s: seq<char>, e: seq<nat>, p: nat) returns (r: nat)
    requires ValidText(s) && SortedRows(s, e) && p < |e| && Bwt(s, e)[p] != Sentinel
    ensures r < |e| && e[r] + 1 == e[p] && e[r] < |s| && s[e[r]] == Bwt(s, e)[p]
    ensures r == 1 + Smaller(s, Bwt(s, e)[p]) + Count(Bwt(s, e)[..p], Bwt(s, e)[p])
  {
    assert 1 <= e[p] <= |s|;
    RowExists(s, e, e[p] - 1);
    r :| 0 <= r < |e| && e[r] == e[p] - 1;
    LFMapping(s, e, p, r);
  }

  /** The row starting one position later, which the LF mapping sends back to r. */
  lemma NextRow(s: seq<char>, e: seq<nat>, r: nat) returns (p: nat)
    requires ValidText(s) && SortedRows(s, e) && r < |e| && e[r] < |s|
    ensures p < |e| && e[p] == e[r] + 1 && Bwt(s, e)[p] == s[e[r]]
    ensures r == 1 + Smaller(s, s[e[r]]) + Count(Bwt(s, e)[..p], s[e[r]])
  {
    RowExists(s, e, e[r] + 1);
    p :| 0 <= p < |e| && e[p] == e[r] + 1;
    LFMapping(s, e, p, r);
  }

  /** An occurrence at p between S and F has its count strictly between the counts at S and F + 1. */
  lemma CountBetween(b: seq<char>, c: char, S: nat, p: nat, F: nat)
    requires S <= p <= F < |b| && b[p] == c
    ensures Count(b[..S], c) <= Count(b[..p], c) < Count(b[..F + 1], c)
  {
    CountMonotone(b, S, p, c);
    CountStep(b, p, c);
    CountMonotone(b, p + 1, F + 1, c);
  }

  /** Where a row matching c.q lies: its successor row matches q and the LF mapping places it. */
  lemma BackwardStepSound(s: seq<char>, e: seq<nat>, q: seq<char>, c: char, S: nat, F: nat, r: nat)
    requires ValidText(s) && SortedRows(s, e) && c in s
    requires S <= F < |e| && r < |e|
    requires forall r :: 0 <= r < |e| ==> (S <= r <= F <==> Matches(s, q, e[r]))
    requires Matches(s, [c] + q, e[r])
    ensures StepFirst(s, e, c, S) <= r <= StepLast(s, e, c, F)
  {
    assert c != Sentinel;
    MatchesCons(s, c, q, e[r]);
    var p := NextRow(s, e, r);
    assert Matches(s, q, e[p]);
    CountBetween(Bwt(s, e), c, S, p, F);
  }

  /** Every row between the two bounds matches c.q: it is the LF image of a row matching q. */
  lemma BackwardStepComplete(s: seq<char>, e: seq<nat>, q: seq<char>, c: char, S: nat, F: nat, r: nat)
    requires ValidText(s) && SortedRows(s, e) && c in s
    requires S <= F < |e| && r < |e|
    requires forall r :: 0 <= r < |e| ==> (S <= r <= F <==> Matches(s, q, e[r]))
    requires StepFirst(s, e, c, S) <= r <= StepLast(s, e, c, F)
    ensures Matches(s, [c] + q, e[r])
  {
    var b := Bwt(s, e);
    var k := r - 1 - Smaller(s, c);
    CountReaches(b, S, F + 1, c, k);
    var p :| S <= p < F + 1 && b[p] == c && Count(b[..p], c) == k;
    var r2 := LFStep(s, e, p);
    assert r2 == r;
    assert Matches(s, q, e[p]);
    assert e[r] < |s| && s[e[r]] == c && e[r] + 1 == e[p];
    MatchesCons(s, c, q, e[r]);
  }

  /**
   * One step of backward search: if rows S..F are exactly those matching q, the rows
   * matching c.q are exactly StepFirst..StepLast (an empty range when none does).
   */
  lemma BackwardStep(s: seq<char>, e: seq<nat>, q: seq<char>, c: char, S: nat, F: nat)
    requires ValidText(s) && SortedRows(s, e) && c in s
    requires S <= F < |e|
    requires forall r :: 0 <= r < |e| ==> (S <= r <= F <==> Matches(s, q, e[r]))
    ensures StepLast(s, e, c, F) < |e|
    ensures forall r :: 0 <= r < |e| ==>
      (StepFirst(s, e, c, S) <= r <= StepLast(s, e, c, F) <==> Matches(s, [c] + q, e[r]))
  {
    var b := Bwt(s, e);
    assert c != Sentinel;
    CountMonotone(b, F + 1, |b|, c);
    assert b[..|b|] == b;
    BwtCount(s, e, c);
    AtMostSplit(s, c);
    forall r | 0 <= r < |e|
      ensures StepFirst(s, e, c, S) <= r <= StepLast(s, e, c, F) <==> Matches(s, [c] + q, e[r])
    {
      if Matches(s, [c] + q, e[r]) {
        BackwardStepSound(s, e, q, c, S, F, r);
      }
      if StepFirst(s, e, c, S) <= r <= StepLast(s, e, c, F) {
        BackwardStepComplete(s, e, q, c, S, F, r);
      }
    }
  }

  /** No row matching a suffix of q means q occurs nowhere. */
  lemma NoRowNoMatch(s: seq<char>, e: seq<nat>, q: seq<char>, j: nat)
    requires SortedRows(s, e) && j < |q|
    requires forall r :: 0 <= r < |e| ==> !Matches(s, q[j..], e[r])
    ensures forall x :: !Matches(s, q, x)
  {
    forall x: nat | Matches(s, q, x)
      ensures false
    {
      MatchesSuffix(s, q, j, x);
      RowExists(s, e, x + j);
    }
  }

  // ---------------------------------------------------------------- first column

  /** The first column of rows 1..|s|: the first character of each suffix, in suffix order. */
  function FirstColumn(s: seq<char>, sa: seq<nat>): (col: seq<char>)
    requires Positions(s, sa)
    ensures |col| == |sa|
  {
    seq(|sa|, k requires 0 <= k < |sa| => s[sa[k]])
  }

  /** The first characters of the rows never decrease. */
  lemma FirstCharsSorted(s: seq<char>, e: seq<nat>, i: nat, j: nat)
    requires SortedRows(s, e) && i < j < |e| && e[i] < |s| && e[j] < |s|
    ensures s[e[i]] <= s[e[j]]
  {
    assert Lt(s[e[i]..], s[e[j]..]);
    LtStep(s, e[i], e[j]);
  }

  /** The first column of a suffix array never decreases. */
  lemma ColumnSorted(s: seq<char>, sa: seq<nat>, k: nat, i: nat)
    requires IsSuffixArray(s, sa) && k < i < |sa|
    ensures FirstColumn(s, sa)[k] <= FirstColumn(s, sa)[i]
  {
    RowsOfSuffixArray(s, sa);
    FirstCharsSorted(s, Rows(s, sa), k + 1, i + 1);
  }

  /** The first column holds exactly the characters of the text. */
  lemma ColumnChars(s: seq<char>, sa: seq<nat>, c: char)
    requires ValidText(s) && IsSuffixArray(s, sa)
    ensures c in FirstColumn(s, sa) <==> c in s
  {
    var e, col := Rows(s, sa), FirstColumn(s, sa);
    RowsOfSuffixArray(s, sa);
    if c in s {
      var x :| 0 <= x < |s| && s[x] == c;
      RowExists(s, e, x);
      var r :| 0 <= r < |e| && e[r] == x;
      SentinelFirst(s, e);
      assert col[r - 1] == c;
    }
  }

  /**
   * Where the first column changes character at index i (row i + 1): row i + 1 opens the
   * block of the new character and row i closes the block of the previous one.
   */
  lemma BlockStart(s: seq<char>, sa: seq<nat>, i: nat)
    requires ValidText(s) && IsSuffixArray(s, sa) && i < |sa|
    requires i == 0 || FirstColumn(s, sa)[i - 1] != FirstColumn(s, sa)[i]
    ensures Smaller(s, FirstColumn(s, sa)[i]) == i
    ensures i > 0 ==> FirstColumn(s, sa)[i - 1] < FirstColumn(s, sa)[i]
    ensures i > 0 ==> Smaller(s, FirstColumn(s, sa)[i - 1]) + Count(s, FirstColumn(s, sa)[i - 1]) == i
  {
    var e, col := Rows(s, sa), FirstColumn(s, sa);
    RowsOfSuffixArray(s, sa);
    SentinelFirst(s, e);
    CharBlock(s, e, col[i]);
    assert e[i + 1] == sa[i] && e[i] < |s| + 1;
    if i > 0 {
      CharBlock(s, e, col[i - 1]);
      assert e[i] == sa[i - 1];
      ColumnSorted(s, sa, i - 1, i);
    }
  }

  /** The last row closes the block of the largest character. */
  lemma BlockEnd(s: seq<char>, sa: seq<nat>)
    requires ValidText(s) && IsSuffixArray(s, sa)
    ensures Smaller(s, FirstColumn(s, sa)[|sa| - 1]) + Count(s, FirstColumn(s, sa)[|sa| - 1]) == |s|
  {
    var e, c := Rows(s, sa), FirstColumn(s, sa)[|sa| - 1];
    RowsOfSuffixArray(s, sa);
    CharBlock(s, e, c);
    assert e[|s|] == sa[|s| - 1];
    AtMostSplit(s, c);
  }
}
