/**
 * KmerAlignmentCluster and the sweep that builds clusters from the seed hits on one
 * reference sequence (ReadsAligner.clusterSequenceKmerAlns). Each hit projects the
 * whole read onto the reference: a k-mer starting at read offset k and found at
 * reference position f puts the read at [f - k, f + |read| - k - 1].
 */
module KmerClusters {
  import opened ReadAlignments

  /** Where the read starts on the reference if a k-mer starting at read offset `kmerStart` hit `hitFirst`. */
  function ProjectedFirst(hitFirst: int, kmerStart: int): int {
    hitFirst - kmerStart
  }

  /** Where the read ends on the reference under the same hit. */
  function ProjectedLast(hitFirst: int, kmerStart: int, queryLength: nat): int {
    hitFirst + (queryLength - kmerStart - 1)
  }

  /** Two closed intervals share a position. */
  predicate Overlap(first: int, last: int, estFirst: int, estLast: int) {
    !(first > estLast || last < estFirst)
  }

  /** The scalar state of a cluster: its span and what its k-mers have shown so far. */
  datatype ClusterView = ClusterView(first: int, last: int, kmerNumbers: set<int>,
                                     allConsistent: bool, repeatedNumber: bool, lastAlnPresent: bool)

  /**
   * The cluster's invariant, for a cluster of `hits` hits on a read of length `queryLength`:
   * it spans at least the read, exactly the read while every hit projected to the same
   * place, and it has one hit per distinct k-mer unless a k-mer hit twice.
   */
  ghost predicate ViewInvariant(v: ClusterView, hits: nat, queryLength: nat) {
    && hits >= 1 && v.kmerNumbers != {}
    && v.last - v.first + 1 >= queryLength
    && (v.allConsistent ==> v.last - v.first + 1 == queryLength)
    && |v.kmerNumbers| <= hits
    && (!v.repeatedNumber ==> |v.kmerNumbers| == hits)
  }

  /** What addAlignment does to the state when the projection [estFirst, estLast] of a hit overlaps it. */
  function Absorbed(v: ClusterView, k: int, estFirst: int, estLast: int, hitLength: int, queryLength: nat): ClusterView {
    ClusterView(
      if v.first > estFirst then estFirst else v.first,
      if v.last < estLast then estLast else v.last,
      if k in v.kmerNumbers then v.kmerNumbers else v.kmerNumbers + {k},
      v.allConsistent && v.first == estFirst && v.last == estLast,
      v.repeatedNumber || k in v.kmerNumbers,
      v.lastAlnPresent || k + hitLength == queryLength)
  }

  /** The span grows to the smallest interval holding both the old span and the projection. */
  lemma AbsorbedSpan(v: ClusterView, k: int, estFirst: int, estLast: int, hitLength: int, queryLength: nat)
    ensures var r := Absorbed(v, k, estFirst, estLast, hitLength, queryLength);
      && r.first <= v.first && r.first <= estFirst && (r.first == v.first || r.first == estFirst)
      && v.last <= r.last && estLast <= r.last && (r.last == v.last || r.last == estLast)
  {
  }

  /** A cluster stays consistent only while every hit projects exactly onto its span. */
  lemma AbsorbedConsistency(v: ClusterView, k: int, estFirst: int, estLast: int, hitLength: int, queryLength: nat)
    ensures var r := Absorbed(v, k, estFirst, estLast, hitLength, queryLength);
      && (r.allConsistent <==> v.allConsistent && v.first == estFirst && v.last == estLast)
      && (r.allConsistent ==> r.first == v.first && r.last == v.last)
      && (v.repeatedNumber ==> r.repeatedNumber) && (v.lastAlnPresent ==> r.lastAlnPresent)
  {
  }

  /** The distinct k-mer count grows by one exactly when the k-mer is new. */
  lemma AbsorbedCount(v: ClusterView, k: int, estFirst: int, estLast: int, hitLength: int, queryLength: nat)
    ensures var r := Absorbed(v, k, estFirst, estLast, hitLength, queryLength);
      && r.kmerNumbers == v.kmerNumbers + {k}
      && |r.kmerNumbers| == |v.kmerNumbers| + (if k in v.kmerNumbers then 0 else 1)
      && (r.repeatedNumber <==> v.repeatedNumber || k in v.kmerNumbers)
  {
    if k in v.kmerNumbers {
      assert v.kmerNumbers + {k} == v.kmerNumbers;
    }
  }

  /** Absorbing a hit whose projection overlaps and spans the read keeps the invariant. */
  lemma AbsorbedKeepsInvariant(v: ClusterView, hits: nat, k: int, estFirst: int, estLast: int, hitLength: int, queryLength: nat)
    requires ViewInvariant(v, hits, queryLength)
    requires Overlap(v.first, v.last, estFirst, estLast) && estLast - estFirst + 1 == queryLength
    ensures ViewInvariant(Absorbed(v, k, estFirst, estLast, hitLength, queryLength), hits + 1, queryLength)
  {
    AbsorbedCount(v, k, estFirst, estLast, hitLength, queryLength);
  }

  class KmerAlignmentCluster {
    var query: string
    var alns: seq<ReadAlignment>
    var sequenceName: string
    var first: int
    var last: int
    /** The read offsets of the k-mers whose hits joined the cluster. */
    var kmerNumbers: set<int>
    var allConsistent: bool
    var repeatedNumber: bool
    var lastAlnPresent: bool

    function View(): ClusterView
      reads this
    {
      ClusterView(first, last, kmerNumbers, allConsistent, repeatedNumber, lastAlnPresent)
    }

    ghost predicate Valid()
      reads this
    {
      ViewInvariant(View(), |alns|, |query|)
    }

    /** A cluster holding one hit spans exactly the read. */
    constructor (query: string, aln: ReadAlignment)
      ensures Valid()
      ensures this.query == query && alns == [aln] && sequenceName == aln.sequenceName
      ensures first == ProjectedFirst(aln.first, aln.readNumber)
      ensures last == ProjectedLast(aln.first, aln.readNumber, |query|)
      ensures last - first + 1 == |query|
      ensures kmerNumbers == {aln.readNumber} && allConsistent && !repeatedNumber
      ensures lastAlnPresent == (aln.readNumber + aln.Length() == |query|)
    {
      this.query := query;
      sequenceName := aln.sequenceName;
      var kmerQueryStart := aln.readNumber;
      first := aln.first - kmerQueryStart;
      last := aln.first + (|query| - kmerQueryStart - 1);
      alns := [aln];
      kmerNumbers := {kmerQueryStart};
      allConsistent := true;
      repeatedNumber := false;
      lastAlnPresent := kmerQueryStart + aln.Length() == |query|;
    }

    function NumDifferentKmers(): nat
      reads this
    {
      |kmerNumbers|
    }

    /** The k-mer at the start of the read hit inside the cluster. */
    predicate IsFirstAlnPresent()
      reads this
    {
      0 in kmerNumbers
    }

    function Length(): int
      reads this
    {
      last - first + 1
    }

    /**
     * addAlignment: a hit whose projection misses the cluster is refused and changes
     * nothing; otherwise the cluster absorbs it and keeps its invariant.
     */
    method AddAlignment(aln: ReadAlignment) returns (added: bool)
      requires Valid()
      modifies this
      ensures Valid()
      ensures added <==> Overlap(old(first), old(last), ProjectedFirst(aln.first, aln.readNumber), ProjectedLast(aln.first, aln.readNumber, |query|))
      ensures !added ==> unchanged(this)
      ensures added ==> query == old(query) && sequenceName == old(sequenceName) && alns == old(alns) + [aln]
      ensures added ==> View() == Absorbed(old(View()), aln.readNumber, ProjectedFirst(aln.first, aln.readNumber),
                                           ProjectedLast(aln.first, aln.readNumber, |query|), aln.Length(), |query|)
    {
      var kmerQueryStart := aln.readNumber;
      var estFirst := aln.first - kmerQueryStart;
      var estLast := aln.first + (|query| - kmerQueryStart - 1);
      if first > estLast || last < estFirst {
        return false;
      }
      AbsorbedKeepsInvariant(View(), |alns|, kmerQueryStart, estFirst, estLast, aln.Length(), |query|);
      var v := Absorbed(View(), kmerQueryStart, estFirst, estLast, aln.Length(), |query|);
      first, last, kmerNumbers := v.first, v.last, v.kmerNumbers;
      allConsistent, repeatedNumber, lastAlnPresent := v.allConsistent, v.repeatedNumber, v.lastAlnPresent;
      alns := alns + [aln];
      return true;
    }
  }

  /** The groups one after the other. */
  function Flatten<T>(groups: seq<seq<T>>): seq<T> {
    if groups == [] then [] else Flatten(groups[..|groups| - 1]) + groups[|groups| - 1]
  }

  /** The hits of `clusters`, cluster after cluster. */
  ghost function AllHits(clusters: seq<KmerAlignmentCluster>): seq<ReadAlignment>
    reads set c | c in clusters
  {
    if clusters == [] then []
    else AllHits(clusters[..|clusters| - 1]) + clusters[|clusters| - 1].alns
  }

  lemma {:induction false} AllHitsFlatten(clusters: seq<KmerAlignmentCluster>, groups: seq<seq<ReadAlignment>>)
    requires |groups| == |clusters| && forall i :: 0 <= i < |clusters| ==> clusters[i].alns == groups[i]
    ensures AllHits(clusters) == Flatten(groups)
    decreases |clusters|
  {
    if clusters != [] {
      AllHitsFlatten(clusters[..|clusters| - 1], groups[..|groups| - 1]);
    }
  }

  /** Adding a hit to the last group adds it at the end of the whole. */
  lemma FlattenGrowLast<T>(groups: seq<seq<T>>, x: T)
    requires groups != []
    ensures Flatten(groups[|groups| - 1 := groups[|groups| - 1] + [x]]) == Flatten(groups) + [x]
  {
    var g := groups[|groups| - 1 := groups[|groups| - 1] + [x]];
    assert g[..|g| - 1] == groups[..|groups| - 1];
  }

  /** A new group of one hit adds it at the end of the whole. */
  lemma FlattenNewGroup<T>(groups: seq<seq<T>>, x: T)
    ensures Flatten(groups + [[x]]) == Flatten(groups) + [x]
  {
    var g := groups + [[x]];
    assert g[..|g| - 1] == groups;
  }

  /** The state a cluster reaches when it is opened with hits[0] and then absorbs the other hits in order. */
  ghost function Grown(queryLength: nat, hits: seq<ReadAlignment>): ClusterView
    requires hits != []
    reads set h | h in hits
    decreases |hits|
  {
    var h := hits[|hits| - 1];
    var estFirst := ProjectedFirst(h.first, h.readNumber);
    var estLast := ProjectedLast(h.first, h.readNumber, queryLength);
    if |hits| == 1 then
      ClusterView(estFirst, estLast, {h.readNumber}, true, false, h.readNumber + h.Length() == queryLength)
    else
      Absorbed(Grown(queryLength, hits[..|hits| - 1]), h.readNumber, estFirst, estLast, h.Length(), queryLength)
  }

  /** Every hit after the first projects onto the span the cluster had grown to before it. */
  ghost predicate Chained(queryLength: nat, hits: seq<ReadAlignment>)
    reads set h | h in hits
    decreases |hits|
  {
    && hits != []
    && (|hits| > 1 ==>
      var h := hits[|hits| - 1];
      var v := Grown(queryLength, hits[..|hits| - 1]);
      && Chained(queryLength, hits[..|hits| - 1])
      && Overlap(v.first, v.last, ProjectedFirst(h.first, h.readNumber), ProjectedLast(h.first, h.readNumber, queryLength)))
  }

  /** A cluster grown by chained hits keeps the cluster invariant. */
  lemma {:induction false} ChainedInvariant(queryLength: nat, hits: seq<ReadAlignment>)
    requires Chained(queryLength, hits)
    ensures ViewInvariant(Grown(queryLength, hits), |hits|, queryLength)
    decreases |hits|
  {
    if |hits| > 1 {
      var h := hits[|hits| - 1];
      var init := hits[..|hits| - 1];
      ChainedInvariant(queryLength, init);
      AbsorbedKeepsInvariant(Grown(queryLength, init), |init|, h.readNumber, ProjectedFirst(h.first, h.readNumber),
                             ProjectedLast(h.first, h.readNumber, queryLength), h.Length(), queryLength);
    }
  }

  /** The first hit of a cluster does not project onto the final span of the cluster before it. */
  ghost predicate Separated(queryLength: nat, previous: ClusterView, next: seq<ReadAlignment>)
    reads set h | h in next
  {
    next != [] &&
    !Overlap(previous.first, previous.last, ProjectedFirst(next[0].first, next[0].readNumber),
             ProjectedLast(next[0].first, next[0].readNumber, queryLength))
  }

  /**
   * The sweep so far: cluster i is in state views[i] after taking the hits groups[i], each of
   * them chained onto its span, and each cluster after the first opened by a separated hit.
   */
  ghost predicate SweepShape(queryLength: nat, views: seq<ClusterView>, groups: seq<seq<ReadAlignment>>)
    reads set g, h | g in groups && h in g :: h
    decreases |groups|
  {
    && |views| == |groups|
    && (groups != [] ==>
      var n := |groups| - 1;
      && SweepShape(queryLength, views[..n], groups[..n])
      && Chained(queryLength, groups[n]) && views[n] == Grown(queryLength, groups[n])
      && (n > 0 ==> Separated(queryLength, views[n - 1], groups[n])))
  }

  /** The shape, cluster by cluster. */
  lemma {:induction false} SweepShapeEach(queryLength: nat, views: seq<ClusterView>, groups: seq<seq<ReadAlignment>>)
    requires SweepShape(queryLength, views, groups)
    ensures |views| == |groups|
    ensures forall i :: 0 <= i < |groups| ==> Chained(queryLength, groups[i])
    ensures forall i :: 0 <= i < |groups| ==> groups[i] != [] && views[i] == Grown(queryLength, groups[i])
    ensures forall i :: 0 < i < |groups| ==> Separated(queryLength, views[i - 1], groups[i])
    decreases |groups|
  {
    if groups != [] {
      var n := |groups| - 1;
      var vs, gs := views[..n], groups[..n];
      SweepShapeEach(queryLength, vs, gs);
      forall i | 0 <= i <= n
        ensures Chained(queryLength, groups[i])
      {
        if i < n { assert gs[i] == groups[i]; }
      }
      forall i | 0 <= i <= n
        ensures groups[i] != [] && views[i] == Grown(queryLength, groups[i])
      {
        if i < n { assert vs[i] == views[i] && gs[i] == groups[i]; }
      }
      forall i | 0 < i <= n
        ensures Separated(queryLength, views[i - 1], groups[i])
      {
        if i < n { assert vs[i - 1] == views[i - 1] && gs[i] == groups[i]; }
      }
    }
  }

  /** A hit that overlaps the last cluster's span joins it, and the shape holds on. */
  lemma SweepShapeExtend(queryLength: nat, views: seq<ClusterView>, groups: seq<seq<ReadAlignment>>, aln: ReadAlignment)
    requires SweepShape(queryLength, views, groups) && groups != []
    requires Overlap(views[|views| - 1].first, views[|views| - 1].last,
                     ProjectedFirst(aln.first, aln.readNumber), ProjectedLast(aln.first, aln.readNumber, queryLength))
    ensures var n := |groups| - 1;
      SweepShape(queryLength,
        views[n := Absorbed(views[n], aln.readNumber, ProjectedFirst(aln.first, aln.readNumber),
                            ProjectedLast(aln.first, aln.readNumber, queryLength), aln.Length(), queryLength)],
        groups[n := groups[n] + [aln]])
  {
    var n := |groups| - 1;
    var g := groups[n] + [aln];
    var views' := views[n := Absorbed(views[n], aln.readNumber, ProjectedFirst(aln.first, aln.readNumber),
                            ProjectedLast(aln.first, aln.readNumber, queryLength), aln.Length(), queryLength)];
    var groups' := groups[n := g];
    assert views'[..n] == views[..n] && groups'[..n] == groups[..n];
    assert g[..|g| - 1] == groups[n];
    assert g[0] == groups[n][0];
  }

  /** A hit that misses the last cluster's span (or comes first) opens a new cluster. */
  lemma SweepShapeOpen(queryLength: nat, views: seq<ClusterView>, groups: seq<seq<ReadAlignment>>, aln: ReadAlignment)
    requires SweepShape(queryLength, views, groups)
    requires groups != [] ==>
      !Overlap(views[|views| - 1].first, views[|views| - 1].last,
               ProjectedFirst(aln.first, aln.readNumber), ProjectedLast(aln.first, aln.readNumber, queryLength))
    ensures SweepShape(queryLength, views + [Grown(queryLength, [aln])], groups + [[aln]])
  {
    var views' := views + [Grown(queryLength, [aln])];
    var groups' := groups + [[aln]];
    assert views'[..|views|] == views && groups'[..|groups|] == groups;
  }

  /**
   * The clusters built so far: distinct, valid clusters of the read, cluster i holding the
   * hits groups[i] and in state views[i], in the shape the sweep leaves them.
   */
  ghost predicate Swept(query: string, clusters: seq<KmerAlignmentCluster>, groups: seq<seq<ReadAlignment>>, views: seq<ClusterView>)
    reads set c | c in clusters, set g, h | g in groups && h in g :: h
  {
    && |groups| == |clusters| && |views| == |clusters|
    && (forall i :: 0 <= i < |clusters| ==>
      clusters[i].query == query && clusters[i].alns == groups[i] && clusters[i].View() == views[i])
    && (forall i, j :: 0 <= i < j < |clusters| ==> clusters[i] != clusters[j])
    && SweepShape(|query|, views, groups)
  }

  /** What the finished sweep promises, read off the clusters themselves. */
  lemma SweptClusters(query: string, clusters: seq<KmerAlignmentCluster>, groups: seq<seq<ReadAlignment>>, views: seq<ClusterView>)
    requires Swept(query, clusters, groups, views)
    ensures AllHits(clusters) == Flatten(groups)
    ensures forall c :: c in clusters ==> c.Valid() && c.query == query
    ensures forall i :: 0 <= i < |clusters| ==>
      Chained(|query|, clusters[i].alns) && clusters[i].View() == Grown(|query|, clusters[i].alns)
    ensures forall i :: 0 < i < |clusters| ==> Separated(|query|, clusters[i - 1].View(), clusters[i].alns)
  {
    AllHitsFlatten(clusters, groups);
    SweepShapeEach(|query|, views, groups);
    forall c | c in clusters
      ensures c.Valid()
    {
      var i :| 0 <= i < |clusters| && clusters[i] == c;
      ChainedInvariant(|query|, groups[i]);
    }
  }

  /** The hit joins the last cluster when it overlaps the cluster's span. */
  method Join(query: string, clusters: seq<KmerAlignmentCluster>, ghost groups: seq<seq<ReadAlignment>>,
              ghost views: seq<ClusterView>, aln: ReadAlignment)
    returns (added: bool, ghost groups': seq<seq<ReadAlignment>>, ghost views': seq<ClusterView>)
    requires Swept(query, clusters, groups, views) && clusters != []
    modifies clusters[|clusters| - 1]
    ensures added ==> Swept(query, clusters, groups', views') && Flatten(groups') == Flatten(groups) + [aln]
    ensures !added ==> unchanged(clusters[|clusters| - 1])
    ensures !added ==> !Overlap(views[|views| - 1].first, views[|views| - 1].last,
                                ProjectedFirst(aln.first, aln.readNumber), ProjectedLast(aln.first, aln.readNumber, |query|))
  {
    var n := |clusters| - 1;
    var cluster := clusters[n];
    SweepShapeEach(|query|, views, groups);
    ChainedInvariant(|query|, groups[n]);
    added := cluster.AddAlignment(aln);
    groups', views' := groups, views;
    if added {
      SweepShapeExtend(|query|, views, groups, aln);
      FlattenGrowLast(groups, aln);
      groups' := groups[n := groups[n] + [aln]];
      views' := views[n := cluster.View()];
    }
  }

  /** The hit opens a new cluster when it misses the last one's span, or comes first. */
  method Open(query: string, clusters: seq<KmerAlignmentCluster>, ghost groups: seq<seq<ReadAlignment>>,
              ghost views: seq<ClusterView>, aln: ReadAlignment)
    returns (clusters': seq<KmerAlignmentCluster>, ghost groups': seq<seq<ReadAlignment>>, ghost views': seq<ClusterView>)
    requires Swept(query, clusters, groups, views)
    requires clusters != [] ==>
      !Overlap(views[|views| - 1].first, views[|views| - 1].last,
               ProjectedFirst(aln.first, aln.readNumber), ProjectedLast(aln.first, aln.readNumber, |query|))
    ensures Swept(query, clusters', groups', views') && Flatten(groups') == Flatten(groups) + [aln]
    ensures |clusters'| == |clusters| + 1 && clusters'[..|clusters|] == clusters && fresh(clusters'[|clusters|])
  {
    var cluster := new KmerAlignmentCluster(query, aln);
    SweepShapeOpen(|query|, views, groups, aln);
    FlattenNewGroup(groups, aln);
    clusters', groups', views' := clusters + [cluster], groups + [[aln]], views + [cluster.View()];
  }

  /** One step of the sweep: the hit joins the last cluster, or opens a new one. */
  method Place(query: string, clusters: seq<KmerAlignmentCluster>, ghost groups: seq<seq<ReadAlignment>>,
               ghost views: seq<ClusterView>, aln: ReadAlignment)
    returns (clusters': seq<KmerAlignmentCluster>, ghost groups': seq<seq<ReadAlignment>>, ghost views': seq<ClusterView>)
    requires Swept(query, clusters, groups, views)
    modifies set c | c in clusters
    ensures Swept(query, clusters', groups', views')
    ensures Flatten(groups') == Flatten(groups) + [aln]
    ensures |clusters| <= |clusters'| <= |clusters| + 1 && clusters' != []
    ensures forall c :: c in clusters' ==> c in clusters || fresh(c)
  {
    var added := false;
    clusters', groups', views' := clusters, groups, views;
    if clusters != [] {
      added, groups', views' := Join(query, clusters, groups, views, aln);
    }
    if !added {
      clusters', groups', views' := Open(query, clusters, groups, views, aln);
    }
  }

  /**
   * clusterSequenceKmerAlns: a sweep over the hits in reference order that adds each hit to
   * the current cluster, or opens a new cluster when the hit does not overlap it. Every hit
   * lands in exactly one cluster, and reading the clusters in order gives the hits back.
   * Each cluster took its hits while they overlapped its growing span, and each new cluster
   * was opened by a hit that missed the final span of the one before.
   */
  method ClusterSequenceKmerAlns(query: string, sequenceAlns: seq<ReadAlignment>) returns (clusters: seq<KmerAlignmentCluster>)
    ensures forall c :: c in clusters ==> fresh(c) && c.Valid() && c.query == query
    ensures AllHits(clusters) == sequenceAlns
    ensures |clusters| <= |sequenceAlns| && (sequenceAlns != [] ==> clusters != [])
    ensures forall i :: 0 <= i < |clusters| ==>
      Chained(|query|, clusters[i].alns) && clusters[i].View() == Grown(|query|, clusters[i].alns)
    ensures forall i :: 0 < i < |clusters| ==> Separated(|query|, clusters[i - 1].View(), clusters[i].alns)
  {
    clusters := [];
    ghost var groups: seq<seq<ReadAlignment>> := [];
    ghost var views: seq<ClusterView> := [];
    var k := 0;
    while k < |sequenceAlns|
      invariant 0 <= k <= |sequenceAlns|
      invariant forall c :: c in clusters ==> fresh(c)
      invariant Swept(query, clusters, groups, views)
      invariant Flatten(groups) == sequenceAlns[..k]
      invariant |clusters| <= k && (k > 0 ==> clusters != [])
    {
      var aln := sequenceAlns[k];
      assert sequenceAlns[..k + 1] == sequenceAlns[..k] + [aln];
      clusters, groups, views := Place(query, clusters, groups, views, aln);
      k := k + 1;
    }
    assert sequenceAlns[..k] == sequenceAlns;
    SweptClusters(query, clusters, groups, views);
  }
}
