/**
 * ReadsAligner.createNewAlignmentFromConsistentKmers: promoting a cluster of k-mer hits
 * to an alignment of the whole read. A cluster whose hits all agree and that has both the
 * read's first and last k-mer is taken as an exact match; any other cluster is aligned by
 * the edit-distance program against the reference window under it.
 */
module Aligner {
  import opened Common
  import opened Cigar
  import opened EditAlignment
  import opened ReadAlignments
  import opened KmerClusters

  /** minProportionKmers as the fraction num / den. */
  datatype Proportion = Proportion(num: nat, den: nat)

  /**
   * numDiffKmers / totalKmers < num / den. With no k-mers at all the quotient is infinite
   * or not a number, and neither is below anything.
   */
  predicate BelowProportion(numDiffKmers: nat, totalKmers: nat, minProportion: Proportion) {
    totalKmers > 0 && numDiffKmers * minProportion.den < minProportion.num * totalKmers
  }

  /** Math.round(100 * (len - distance) / len); an empty read gives round(NaN) == 0. */
  function QualityPercent(len: nat, distance: nat): int {
    if len == 0 then 0 else (200 * (len - distance) + len) / (2 * len)
  }

  /** The cluster can be reported without alignment: consistent, with its first and last k-mer. */
  predicate ExactCluster(cluster: KmerAlignmentCluster)
    reads cluster
  {
    cluster.allConsistent && cluster.IsFirstAlnPresent() && cluster.lastAlnPresent
  }

  /** The first base of the reference window: 10 bases of slack without the first k-mer, never before 1. */
  function WindowFirst(clusterFirst: int, firstAlnPresent: bool): int {
    var first := if firstAlnPresent then clusterFirst else clusterFirst - 10;
    if first < 1 then 1 else first
  }

  /** The last base of the reference window: the cluster's last base, clipped to the reference. */
  function WindowLast(referenceLength: int, clusterLast: int): int {
    if referenceLength < clusterLast then referenceLength else clusterLast
  }

  lemma DivBetween(x: int, y: int, lo: int, hi: int)
    requires y > 0 && lo * y <= x < (hi + 1) * y
    ensures lo <= x / y <= hi
  {
    var q, r := x / y, x % y;
    assert x == q * y + r && 0 <= r < y;
    MulAtLeastOne(lo - q, y);
    MulAtLeastOne(q - hi, y);
    assert (lo - q) * y == lo * y - q * y;
    assert (q - hi) * y == q * y - (hi + 1) * y + y;
  }

  /** An alignment accepted by the aligner (distance at most half the read) has quality 50..100, 100 when exact. */
  lemma QualityBounds(len: nat, distance: nat)
    requires len > 0 && 2 * distance <= len
    ensures 50 <= QualityPercent(len, distance) <= 100
    ensures distance == 0 ==> QualityPercent(len, distance) == 100
  {
    var x := 200 * (len - distance) + len;
    assert 50 * (2 * len) <= x < 101 * (2 * len);
    DivBetween(x, 2 * len, 50, 100);
    if distance == 0 {
      assert 100 * (2 * len) <= x < 101 * (2 * len);
      DivBetween(x, 2 * len, 100, 100);
    }
  }

  /** More edits never give a better quality. */
  lemma QualityMonotone(len: nat, d1: nat, d2: nat)
    requires len > 0 && d1 <= d2 <= len
    ensures QualityPercent(len, d2) <= QualityPercent(len, d1)
  {
    var x1, x2 := 200 * (len - d1) + len, 200 * (len - d2) + len;
    assert x2 <= x1;
    DivMonotone(x2, x1, 2 * len);
  }

  lemma DivMonotone(a: int, b: int, y: int)
    requires y > 0 && a <= b
    ensures a / y <= b / y
  {
    var qa, qb := a / y, b / y;
    assert a == qa * y + a % y && b == qb * y + b % y;
    MulAtLeastOne(qa - qb, y);
    assert (qa - qb) * y == qa * y - qb * y;
  }

  /**
   * The alignment built from the edit-distance alignment of the read against the
   * reference window starting at base winFirst: it ends where the rightmost best end
   * column puts it, its CIGAR encodes an optimal alignment between its ends and its quality
   * is the rounded percentage of bases that are not edits.
   */
  ghost predicate AlignedToWindow(aln: ReadAlignment, sequenceName: string, query: string, qualityScores: string,
                                  winFirst: int, window: string)
    reads aln
  {
    var d := SmithWatermanDistance(query, window);
    && |window| > 0
    && aln.sequenceName == sequenceName
    && aln.readLength == |query| && aln.flags == 0
    && aln.readCharacters == query && aln.qualityScores == qualityScores
    && aln.alignmentQuality == QualityPercent(|query|, d)
    && aln.last == winFirst + BestColumn(query, window, |window|) - 1
    && winFirst <= aln.first <= aln.last + 1
    && exists path ::
         && aln.cigar == Render(RunLength(path))
         && Aligns(path, query, window, 0, aln.first - winFirst, |query|, aln.last - winFirst + 1)
         && Cost(path, query, window, 0, aln.first - winFirst, |query|, aln.last - winFirst + 1) == d
  }

  /**
   * The second half of createNewAlignmentFromConsistentKmers: align the read against the
   * reference window and give up when more than half of the read would be edits.
   */
  method AlignToWindow(sequenceName: string, query: string, qualityScores: string, winFirst: int, window: string)
    returns (aln: ReadAlignment?)
    ensures aln != null ==> fresh(aln)
    ensures aln == null <==> 2 * SmithWatermanDistance(query, window) > |query|
    ensures aln != null ==> AlignedToWindow(aln, sequenceName, query, qualityScores, winFirst, window)
  {
    var result := SmithWatermanLocalAlignment(query, window);
    if 2 * result.distance > |query| {
      return null;
    }
    var cigar := result.GetCigarString();
    aln := new ReadAlignment(sequenceName, winFirst + result.subjectStartIdx, winFirst + result.subjectLastIdx, |query|, 0);
    aln.readCharacters := query;
    aln.qualityScores := qualityScores;
    aln.cigar := cigar;
    aln.alignmentQuality := QualityPercent(|query|, result.distance);
    assert aln.first - winFirst == result.subjectStartIdx;
  }

  /**
   * createNewAlignmentFromConsistentKmers. The reference length and the reference window
   * come from the FM index, given here as functions; a missing window is `None`.
   */
  method CreateNewAlignmentFromConsistentKmers(cluster: KmerAlignmentCluster, totalKmers: nat, query: string,
                                               qualityScores: string, minProportionKmers: Proportion,
                                               referenceLength: string -> int,
                                               getSequence: (string, int, int) -> Option<string>)
    returns (aln: ReadAlignment?)
    ensures aln != null ==> fresh(aln)
    ensures BelowProportion(cluster.NumDifferentKmers(), totalKmers, minProportionKmers) ==> aln == null
    ensures !BelowProportion(cluster.NumDifferentKmers(), totalKmers, minProportionKmers) && ExactCluster(cluster) ==>
      && aln != null && aln.sequenceName == cluster.sequenceName
      && aln.first == cluster.first && aln.last == cluster.last
      && aln.readLength == |query| && aln.flags == 0
      && aln.cigar == Decimal(|query|) + [MatchOp] && aln.alignmentQuality == 100
      && aln.readCharacters == query && aln.qualityScores == qualityScores
    ensures !BelowProportion(cluster.NumDifferentKmers(), totalKmers, minProportionKmers) && !ExactCluster(cluster) ==>
      var winFirst := WindowFirst(cluster.first, cluster.IsFirstAlnPresent());
      var window := getSequence(cluster.sequenceName, winFirst, WindowLast(referenceLength(cluster.sequenceName), cluster.last));
      && (window.None? ==> aln == null)
      && (window.Some? ==>
            && (aln == null <==> 2 * SmithWatermanDistance(query, window.value) > |query|)
            && (aln != null ==> AlignedToWindow(aln, cluster.sequenceName, query, qualityScores, winFirst, window.value)))
  {
    var numDiffKmers := cluster.NumDifferentKmers();
    if totalKmers > 0 && numDiffKmers * minProportionKmers.den < minProportionKmers.num * totalKmers {
      return null;
    }
    var sequenceName := cluster.sequenceName;
    var first := cluster.first;
    var last := cluster.last;
    if !cluster.allConsistent || !cluster.IsFirstAlnPresent() || !cluster.lastAlnPresent {
      if !cluster.IsFirstAlnPresent() {
        first := first - 10;
      }
      first := if 1 > first then 1 else first;
      if !cluster.lastAlnPresent {
        last := last + 10;
      }
      // As written, the extension of `last` above is overwritten here.
      var refLength := referenceLength(sequenceName);
      last := if refLength < cluster.last then refLength else cluster.last;
      var refSeq := getSequence(sequenceName, first, last);
      if refSeq.None? {
        return null;
      }
      aln := AlignToWindow(sequenceName, query, qualityScores, first, refSeq.value);
      return;
    }
    aln := new ReadAlignment(sequenceName, first, last, |query|, 0);
    aln.readCharacters := query;
    aln.qualityScores := qualityScores;
    aln.cigar := Decimal(|query|) + [MatchOp];
    aln.alignmentQuality := 100;
  }
}
