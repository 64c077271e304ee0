/**
 * ReadsAligner.filterAlignments: the alignments of a read are sorted by decreasing quality
 * (a stable sort), those below 80% of the best quality are dropped, every survivor after
 * the first is flagged secondary, and when several survive their qualities are scaled down
 * to a tenth.
 */
module AlignmentFilter {
  import opened ReadAlignments

  // ------------------------------------------------------------ the sort, on the qualities

  /** 0, 1, ..., n - 1. */
  function Range(n: nat): (r: seq<nat>)
    ensures |r| == n && forall k :: 0 <= k < n ==> r[k] == k
  {
    seq(n, k => k)
  }

  predicate Distinct<T(==)>(s: seq<T>) {
    forall k, l :: 0 <= k < l < |s| ==> s[k] != s[l]
  }

  /** The indices in `order` have decreasing keys. */
  ghost predicate Descending(keys: seq<int>, order: seq<nat>)
    requires forall k :: 0 <= k < |order| ==> order[k] < |keys|
  {
    forall k, l :: 0 <= k < l < |order| ==> keys[order[k]] >= keys[order[l]]
  }

  /** Indices with equal keys keep their original relative order. */
  ghost predicate Stable(keys: seq<int>, order: seq<nat>)
    requires forall k :: 0 <= k < |order| ==> order[k] < |keys|
  {
    forall k, l :: 0 <= k < l < |order| && keys[order[k]] == keys[order[l]] ==> order[k] < order[l]
  }

  /** Insertion of index i into a descending order, after every index whose key is at least keys[i]. */
  function InsertAt(keys: seq<int>, order: seq<nat>, i: nat): (r: seq<nat>)
    requires i < |keys| && forall k :: 0 <= k < |order| ==> order[k] < |keys|
    ensures |r| == |order| + 1
    ensures forall x :: x in r <==> x in order || x == i
    ensures forall k :: 0 <= k < |r| ==> r[k] < |keys|
    decreases |order|
  {
    if order == [] || keys[order[0]] < keys[i] then [i] + order
    else [order[0]] + InsertAt(keys, order[1..], i)
  }

  /**
   * The order in which Collections.sort, a stable merge sort, leaves the first n items under
   * the comparator aln2.quality - aln1.quality: an insertion sort on their indices.
   */
  function SortOrder(keys: seq<int>, n: nat): (r: seq<nat>)
    requires n <= |keys|
    ensures |r| == n && forall k :: 0 <= k < n ==> r[k] < n
  {
    if n == 0 then []
    else
      var r := InsertAt(keys, SortOrder(keys, n - 1), n - 1);
      assert forall k :: 0 <= k < n ==> r[k] in r;
      r
  }

  lemma {:induction false} InsertDistinct(keys: seq<int>, order: seq<nat>, i: nat)
    requires i < |keys| && forall k :: 0 <= k < |order| ==> order[k] < |keys|
    requires Distinct(order) && i !in order
    ensures Distinct(InsertAt(keys, order, i))
    decreases |order|
  {
    if order != [] && keys[order[0]] >= keys[i] {
      InsertDistinct(keys, order[1..], i);
      var r := InsertAt(keys, order, i);
      assert r == [order[0]] + InsertAt(keys, order[1..], i);
      assert order[0] !in order[1..];
    }
  }

  lemma {:induction false} InsertDescending(keys: seq<int>, order: seq<nat>, i: nat)
    requires i < |keys| && forall k :: 0 <= k < |order| ==> order[k] < |keys|
    requires Descending(keys, order)
    ensures Descending(keys, InsertAt(keys, order, i))
    decreases |order|
  {
    var r := InsertAt(keys, order, i);
    if order != [] && keys[order[0]] >= keys[i] {
      var rest := InsertAt(keys, order[1..], i);
      InsertDescending(keys, order[1..], i);
      assert r == [order[0]] + rest;
      forall l | 0 < l < |r|
        ensures keys[r[0]] >= keys[r[l]]
      {
        assert r[l] in rest;
      }
    }
  }

  lemma {:induction false} InsertStable(keys: seq<int>, order: seq<nat>, i: nat)
    requires i < |keys| && forall k :: 0 <= k < |order| ==> order[k] < i
    requires Descending(keys, order) && Stable(keys, order)
    ensures Stable(keys, InsertAt(keys, order, i))
    decreases |order|
  {
    var r := InsertAt(keys, order, i);
    if order != [] && keys[order[0]] >= keys[i] {
      var rest := InsertAt(keys, order[1..], i);
      InsertStable(keys, order[1..], i);
      assert r == [order[0]] + rest;
      forall l | 0 < l < |r| && keys[r[0]] == keys[r[l]]
        ensures r[0] < r[l]
      {
        assert r[l] in rest;
        if r[l] != i {
          var m :| 0 <= m < |order[1..]| && order[1..][m] == r[l];
          assert order[m + 1] == r[l];
        }
      }
    } else if order != [] {
      forall l | 0 < l < |r|
        ensures keys[r[0]] > keys[r[l]]
      {
        assert keys[r[l]] <= keys[order[0]];
      }
    }
  }

  /** The sort is a permutation of the indices. */
  lemma {:induction false} SortOrderIsPermutation(keys: seq<int>, n: nat)
    requires n <= |keys|
    ensures Distinct(SortOrder(keys, n))
    ensures forall i :: 0 <= i < n ==> i in SortOrder(keys, n)
  {
    if n > 0 {
      SortOrderIsPermutation(keys, n - 1);
      InsertDistinct(keys, SortOrder(keys, n - 1), n - 1);
    }
  }

  /** The sort puts the keys in decreasing order. */
  lemma {:induction false} SortOrderIsSorted(keys: seq<int>, n: nat)
    requires n <= |keys|
    ensures Descending(keys, SortOrder(keys, n))
  {
    if n > 0 {
      SortOrderIsSorted(keys, n - 1);
      InsertDescending(keys, SortOrder(keys, n - 1), n - 1);
    }
  }

  /** The sort keeps alignments of equal quality in their original order. */
  lemma {:induction false} SortOrderIsStable(keys: seq<int>, n: nat)
    requires n <= |keys|
    ensures Stable(keys, SortOrder(keys, n))
  {
    if n > 0 {
      SortOrderIsStable(keys, n - 1);
      SortOrderIsSorted(keys, n - 1);
      InsertStable(keys, SortOrder(keys, n - 1), n - 1);
    }
  }

  // ------------------------------------------------------------ the survivors

  /** `s` rearranged by the indices `idx`. */
  function Permute<T>(s: seq<T>, idx: seq<nat>): (r: seq<T>)
    requires forall k :: 0 <= k < |idx| ==> idx[k] < |s|
    ensures |r| == |idx| && forall k :: 0 <= k < |idx| ==> r[k] == s[idx[k]]
  {
    seq(|idx|, k requires 0 <= k < |idx| => s[idx[k]])
  }

  lemma PermuteSnoc<T>(s: seq<T>, idx: seq<nat>, i: nat)
    requires i < |s| && forall k :: 0 <= k < |idx| ==> idx[k] < |s|
    ensures Permute(s, idx + [i]) == Permute(s, idx) + [s[i]]
  {
  }

  lemma PermuteDistinct<T>(s: seq<T>, idx: seq<nat>)
    requires Distinct(s) && Distinct(idx) && forall k :: 0 <= k < |idx| ==> idx[k] < |s|
    ensures Distinct(Permute(s, idx))
  {
    var r := Permute(s, idx);
    forall k, l | 0 <= k < l < |r|
      ensures r[k] != r[l]
    {
      assert idx[k] != idx[l];
    }
  }

  /** The quality of each alignment. */
  function Qualities(alns: seq<ReadAlignment>): (qs: seq<int>)
    reads set a | a in alns
    ensures |qs| == |alns| && forall k :: 0 <= k < |alns| ==> qs[k] == alns[k].alignmentQuality
  {
    seq(|alns|, k requires 0 <= k < |alns| reads alns => alns[k].alignmentQuality)
  }

  /** Not below 0.8 times the best quality. */
  predicate Survives(quality: int, best: int) {
    5 * quality >= 4 * best
  }

  /** Math.round(0.1 * quality). */
  function Rescaled(quality: int): int {
    (quality + 5) / 10
  }

  /** The positions among the first i of a list sorted by quality whose quality survives. */
  function KeptPositions(qs: seq<int>, best: int, i: nat): (r: seq<nat>)
    requires i <= |qs|
    ensures forall k :: 0 <= k < |r| ==> r[k] < i
  {
    if i == 0 then [] else KeptPositions(qs, best, i - 1) + (if Survives(qs[i - 1], best) then [i - 1] else [])
  }

  /** The survivors are exactly the positions whose quality reaches 80% of the best, in increasing order. */
  lemma {:induction false} KeptPositionsExact(qs: seq<int>, best: int, i: nat)
    requires i <= |qs|
    ensures forall k :: k in KeptPositions(qs, best, i) <==> 0 <= k < i && Survives(qs[k], best)
    ensures forall k, l :: 0 <= k < l < |KeptPositions(qs, best, i)| ==>
      KeptPositions(qs, best, i)[k] < KeptPositions(qs, best, i)[l]
  {
    if i > 0 {
      KeptPositionsExact(qs, best, i - 1);
    }
  }

  lemma {:induction false} FirstKept(qs: seq<int>, best: int, i: nat)
    requires 1 <= i <= |qs| && Survives(qs[0], best)
    ensures |KeptPositions(qs, best, i)| > 0 && KeptPositions(qs, best, i)[0] == 0
  {
    if i > 1 {
      FirstKept(qs, best, i - 1);
    }
  }

  /** With a non-negative best quality the best alignment always survives, at the head. */
  lemma HeadSurvives(qs: seq<int>)
    requires |qs| > 0 && qs[0] >= 0
    ensures |KeptPositions(qs, qs[0], |qs|)| > 0 && KeptPositions(qs, qs[0], |qs|)[0] == 0
  {
    FirstKept(qs, qs[0], |qs|);
  }

  // ------------------------------------------------------------ the filter

  /**
   * The first loop of filterAlignments: over the sorted alignments, keep those that survive and
   * flag every kept one after the head secondary.
   */
  method MarkSecondaries(sorted: seq<ReadAlignment>, qs: seq<int>, best: int) returns (filtered: seq<ReadAlignment>)
    requires Distinct(sorted) && qs == Qualities(sorted)
    modifies (set a | a in sorted)`flags
    ensures filtered == Permute(sorted, KeptPositions(qs, best, |sorted|))
    ensures forall k :: 0 <= k < |sorted| ==>
      sorted[k].flags == old(sorted[k].flags) + (if 0 < k && Survives(qs[k], best) then FlagSecondary else 0)
    ensures Qualities(sorted) == qs
  {
    var n := |sorted|;
    filtered := [];
    ghost var kept: seq<nat> := [];
    var i := 0;
    while i < n
      invariant 0 <= i <= n
      invariant kept == KeptPositions(qs, best, i) && filtered == Permute(sorted, kept)
      invariant forall k :: 0 <= k < n ==>
        sorted[k].flags == old(sorted[k].flags) + (if 0 < k < i && Survives(qs[k], best) then FlagSecondary else 0)
    {
      var aln := sorted[i];
      if 5 * aln.alignmentQuality >= 4 * best {
        if i > 0 {
          aln.flags := aln.flags + FlagSecondary;
        }
        PermuteSnoc(sorted, kept, i);
        filtered := filtered + [aln];
        kept := kept + [i];
      }
      i := i + 1;
    }
  }

  /** The second loop of filterAlignments: scale the quality of every kept alignment to a tenth. */
  method RescaleAll(alns: seq<ReadAlignment>)
    requires Distinct(alns)
    modifies (set a | a in alns)`alignmentQuality
    ensures forall m :: 0 <= m < |alns| ==> alns[m].alignmentQuality == Rescaled(old(alns[m].alignmentQuality))
  {
    var j := 0;
    while j < |alns|
      invariant 0 <= j <= |alns|
      invariant forall m :: 0 <= m < |alns| ==>
        alns[m].alignmentQuality == (if m < j then Rescaled(old(alns[m].alignmentQuality)) else old(alns[m].alignmentQuality))
    {
      var aln := alns[j];
      aln.alignmentQuality := (aln.alignmentQuality + 5) / 10;
      j := j + 1;
    }
  }

  /** Rescaling the kept alignments rescales exactly the surviving positions of the sorted list. */
  method RescaleKept(sorted: seq<ReadAlignment>, qs: seq<int>, best: int, filtered: seq<ReadAlignment>)
    requires Distinct(sorted) && qs == Qualities(sorted)
    requires filtered == Permute(sorted, KeptPositions(qs, best, |sorted|))
    modifies (set a | a in sorted)`alignmentQuality
    ensures forall k :: 0 <= k < |sorted| ==>
      sorted[k].alignmentQuality == (if Survives(qs[k], best) then Rescaled(qs[k]) else qs[k])
    ensures forall k :: 0 <= k < |sorted| ==> sorted[k].flags == old(sorted[k].flags)
  {
    ghost var kept := KeptPositions(qs, best, |sorted|);
    KeptPositionsExact(qs, best, |sorted|);
    PermuteDistinct(sorted, kept);
    RescaleAll(filtered);
    forall k | 0 <= k < |sorted|
      ensures sorted[k].alignmentQuality == (if Survives(qs[k], best) then Rescaled(qs[k]) else qs[k])
    {
      if Survives(qs[k], best) {
        var m :| 0 <= m < |kept| && kept[m] == k;
        assert filtered[m] == sorted[k];
      } else {
        assert sorted[k] !in filtered;
      }
    }
  }

  /**
   * filterAlignments. `sorted` is the caller's list after the in-place sort and `filtered`
   * the list returned; only the flags and qualities of the alignments change.
   */
  method FilterAlignments(alignments: seq<ReadAlignment>) returns (sorted: seq<ReadAlignment>, filtered: seq<ReadAlignment>)
    requires Distinct(alignments)
    modifies (set a | a in alignments)`flags, (set a | a in alignments)`alignmentQuality
    ensures var order := SortOrder(old(Qualities(alignments)), |alignments|);
      sorted == Permute(alignments, order)
    ensures |sorted| == |alignments| && Distinct(sorted)
    ensures var qs := old(Qualities(sorted));
      |sorted| > 0 ==>
        var kept := KeptPositions(qs, qs[0], |qs|);
        && filtered == Permute(sorted, kept)
        && (forall k :: 0 <= k < |sorted| ==>
              sorted[k].flags == old(sorted[k].flags) + (if 0 < k && Survives(qs[k], qs[0]) then FlagSecondary else 0))
        && (forall k :: 0 <= k < |sorted| ==>
              sorted[k].alignmentQuality == (if |kept| > 1 && Survives(qs[k], qs[0]) then Rescaled(qs[k]) else qs[k]))
    ensures |alignments| == 0 ==> filtered == []
  {
    var n := |alignments|;
    var order := SortOrder(Qualities(alignments), n);
    SortOrderIsPermutation(Qualities(alignments), n);
    sorted := Permute(alignments, order);
    PermuteDistinct(alignments, order);
    if n == 0 {
      return sorted, [];
    }
    var qs := Qualities(sorted);
    var best := sorted[0].alignmentQuality;
    filtered := MarkSecondaries(sorted, qs, best);
    if |filtered| > 1 {
      RescaleKept(sorted, qs, best, filtered);
    }
  }
}
