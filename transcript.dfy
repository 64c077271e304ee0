/**
 * Transcript coordinates: a transcript is a list of exons on one reference sequence. Sorted by
 * genomic position and, on the negative strand, reversed, they give the transcript order, in
 * which the transcript's bases are numbered from 0. The lookups translate between genomic
 * and transcript positions and find the exons under a position or an interval.
 */
module Transcripts {
  import opened Common

  /** An exon: the closed genomic interval [first, last] and whether it codes for protein. */
  datatype Exon = Exon(first: int, last: int, coding: bool)

  function ExonLength(e: Exon): int {
    e.last - e.first + 1
  }

  predicate ExonContains(e: Exon, p: int) {
    e.first <= p <= e.last
  }

  predicate AllWellFormed(es: seq<Exon>) {
    forall k :: 0 <= k < |es| ==> es[k].first <= es[k].last
  }

  // ------------------------------------------------------------ ordering the exons

  /** The order of GenomicRegionPositionComparator: by first position, then by last. */
  predicate PositionLe(a: Exon, b: Exon) {
    a.first < b.first || (a.first == b.first && a.last <= b.last)
  }

  predicate SortedByPosition(es: seq<Exon>) {
    forall i, j :: 0 <= i < j < |es| ==> PositionLe(es[i], es[j])
  }

  /** Insertion of e into a sorted list, after the exons at its position (a stable insertion). */
  function InsertExon(e: Exon, sorted: seq<Exon>): (r: seq<Exon>)
    ensures multiset(r) == multiset(sorted) + multiset{e}
  {
    if sorted == [] || !PositionLe(sorted[0], e) then [e] + sorted
    else
      assert sorted == [sorted[0]] + sorted[1..];
      [sorted[0]] + InsertExon(e, sorted[1..])
  }

  /** Collections.sort with the position comparator, as a stable insertion sort. */
  function SortByPosition(es: seq<Exon>): (r: seq<Exon>)
    ensures multiset(r) == multiset(es)
  {
    if es == [] then []
    else
      assert es == es[..|es| - 1] + [es[|es| - 1]];
      InsertExon(es[|es| - 1], SortByPosition(es[..|es| - 1]))
  }

  lemma {:induction false} InsertExonSorted(e: Exon, sorted: seq<Exon>)
    requires SortedByPosition(sorted)
    ensures SortedByPosition(InsertExon(e, sorted))
  {
    var r := InsertExon(e, sorted);
    if sorted != [] && PositionLe(sorted[0], e) {
      var rest := InsertExon(e, sorted[1..]);
      InsertExonSorted(e, sorted[1..]);
      assert r == [sorted[0]] + rest;
      forall j | 0 < j < |r|
        ensures PositionLe(r[0], r[j])
      {
        assert r[j] in multiset(rest);
        assert r[j] == e || r[j] in sorted[1..];
      }
    }
  }

  /** The exons end up sorted by position. */
  lemma {:induction false} SortByPositionSorted(es: seq<Exon>)
    ensures SortedByPosition(SortByPosition(es))
  {
    if es != [] {
      SortByPositionSorted(es[..|es| - 1]);
      InsertExonSorted(es[|es| - 1], SortByPosition(es[..|es| - 1]));
    }
  }

  function Reverse<T>(s: seq<T>): (r: seq<T>)
    ensures |r| == |s| && forall k :: 0 <= k < |s| ==> r[k] == s[|s| - 1 - k]
  {
    if s == [] then [] else Reverse(s[1..]) + [s[0]]
  }

  /** exonsSortedTranscript: the sorted exons, reversed on the negative strand. */
  function TranscriptOrder(sorted: seq<Exon>, negativeStrand: bool): seq<Exon> {
    if negativeStrand then Reverse(sorted) else sorted
  }

  /** Exons in transcript order that do not overlap: increasing on the positive strand, decreasing on the negative. */
  predicate InTranscriptOrder(es: seq<Exon>, negativeStrand: bool) {
    && AllWellFormed(es)
    && forall i, j :: 0 <= i < j < |es| ==>
         if negativeStrand then es[j].last < es[i].first else es[i].last < es[j].first
  }

  /** Sorted exons that do not overlap are in transcript order on either strand. */
  lemma TranscriptOrderOfDisjoint(sorted: seq<Exon>, negativeStrand: bool)
    requires AllWellFormed(sorted)
    requires forall i, j :: 0 <= i < j < |sorted| ==> sorted[i].last < sorted[j].first
    ensures InTranscriptOrder(TranscriptOrder(sorted, negativeStrand), negativeStrand)
  {
    var es := TranscriptOrder(sorted, negativeStrand);
    if negativeStrand {
      var n := |sorted|;
      forall i, j | 0 <= i < j < n
        ensures es[j].last < es[i].first
      {
        assert es[i] == sorted[n - 1 - i] && es[j] == sorted[n - 1 - j];
      }
      forall k | 0 <= k < n
        ensures es[k].first <= es[k].last
      {
        assert es[k] == sorted[n - 1 - k];
      }
    }
  }

  // ------------------------------------------------------------ lengths and offsets

  /** The number of bases of the exons. */
  function TotalLength(es: seq<Exon>): int {
    if es == [] then 0 else ExonLength(es[0]) + TotalLength(es[1..])
  }

  /** The transcript position of the first base of the k-th exon. */
  function Offset(es: seq<Exon>, k: nat): int
    requires k <= |es|
  {
    TotalLength(es[..k])
  }

  lemma {:induction false} TotalLengthAppend(a: seq<Exon>, b: seq<Exon>)
    ensures TotalLength(a + b) == TotalLength(a) + TotalLength(b)
  {
    if a != [] {
      TotalLengthAppend(a[1..], b);
      assert (a + b)[1..] == a[1..] + b;
    } else {
      assert a + b == b;
    }
  }

  lemma {:induction false} TotalLengthNonNegative(es: seq<Exon>)
    requires AllWellFormed(es)
    ensures TotalLength(es) >= 0
  {
    if es != [] {
      TotalLengthNonNegative(es[1..]);
    }
  }

  /** Offsets grow by each exon's length: exon k covers [Offset(k), Offset(k + 1)). */
  lemma OffsetStep(es: seq<Exon>, k: nat)
    requires k < |es|
    ensures Offset(es, k + 1) == Offset(es, k) + ExonLength(es[k])
  {
    assert es[..k + 1] == es[..k] + [es[k]];
    TotalLengthAppend(es[..k], [es[k]]);
  }

  /** Offsets seen from the second exon on. */
  lemma OffsetCons(es: seq<Exon>, k: nat)
    requires 1 <= k <= |es|
    ensures Offset(es, k) == ExonLength(es[0]) + Offset(es[1..], k - 1)
  {
    assert es[..k] == [es[0]] + es[1..][..k - 1];
  }

  // ------------------------------------------------------------ the coding part

  predicate HasCoding(es: seq<Exon>) {
    exists k :: 0 <= k < |es| && es[k].coding
  }

  /** codingRelativeStart as the loop of setExons leaves it after the exons es. */
  function CodingStart(es: seq<Exon>): int {
    if es == [] then -1
    else
      var prefix := es[..|es| - 1];
      var s := CodingStart(prefix);
      if es[|es| - 1].coding && s == -1 then TotalLength(prefix) else s
  }

  /** codingRelativeEnd as the loop of setExons leaves it after the exons es. */
  function CodingEnd(es: seq<Exon>): int {
    if es == [] then -1
    else
      var prefix := es[..|es| - 1];
      if es[|es| - 1].coding then TotalLength(prefix) + ExonLength(es[|es| - 1]) - 1 else CodingEnd(prefix)
  }

  /** Without a coding exon both coding offsets stay -1. */
  lemma {:induction false} CodingNone(es: seq<Exon>)
    requires !HasCoding(es)
    ensures CodingStart(es) == -1 && CodingEnd(es) == -1
  {
    if es != [] {
      var prefix := es[..|es| - 1];
      assert forall m :: 0 <= m < |prefix| ==> prefix[m] == es[m];
      CodingNone(prefix);
    }
  }

  /** The coding start is the transcript offset of the first coding exon. */
  lemma {:induction false} CodingStartAt(es: seq<Exon>, k: nat)
    requires AllWellFormed(es) && k < |es| && es[k].coding
    requires forall m :: 0 <= m < k ==> !es[m].coding
    ensures CodingStart(es) == Offset(es, k)
  {
    var n := |es|;
    var prefix := es[..n - 1];
    assert forall m :: 0 <= m < n - 1 ==> prefix[m] == es[m];
    if k == n - 1 {
      CodingNone(prefix);
    } else {
      CodingStartAt(prefix, k);
      assert prefix[..k] == es[..k];
      TotalLengthNonNegative(es[..k]);
    }
  }

  /** The coding end is the transcript offset of the last base of the last coding exon. */
  lemma {:induction false} CodingEndAt(es: seq<Exon>, k: nat)
    requires k < |es| && es[k].coding
    requires forall m :: k < m < |es| ==> !es[m].coding
    ensures CodingEnd(es) == Offset(es, k + 1) - 1
  {
    var n := |es|;
    var prefix := es[..n - 1];
    OffsetStep(es, k);
    if k == n - 1 {
      assert es[..k] == prefix;
    } else {
      assert forall m :: 0 <= m < n - 1 ==> prefix[m] == es[m];
      CodingEndAt(prefix, k);
      OffsetStep(prefix, k);
      assert prefix[..k] == es[..k];
    }
  }

  // ------------------------------------------------------------ positions

  /**
   * getRelativeTranscriptPosition, scanning the exons in transcript order with `answer` the
   * length of the exons passed so far.
   */
  function RelativePosition(es: seq<Exon>, negativeStrand: bool, p: int, answer: int): int {
    if es == [] then -1
    else
      var e := es[0];
      if negativeStrand && e.last < p then -1
      else if !negativeStrand && e.first > p then -1
      else if ExonContains(e, p) then answer + (if negativeStrand then e.last - p else p - e.first)
      else RelativePosition(es[1..], negativeStrand, p, answer + ExonLength(e))
  }

  /** getAbsolutePosition. */
  function AbsolutePosition(es: seq<Exon>, negativeStrand: bool, r: int): int {
    if es == [] then -1
    else
      var e := es[0];
      if r < ExonLength(e) then (if negativeStrand then e.last - r else e.first + r)
      else AbsolutePosition(es[1..], negativeStrand, r - ExonLength(e))
  }

  /**
   * getAbsolutePosition as written has no check for a negative position: the first exon's
   * test `r < length` accepts it and the result lies before that exon.
   */
  lemma AbsoluteNegativeAsWritten()
    ensures AbsolutePosition([Exon(10, 20, true)], false, -1) == 9
    ensures !ExonContains(Exon(10, 20, true), 9)
  {
  }

  /** getAbsolutePosition as documented: -1 for a negative position, the scan otherwise. */
  function CheckedAbsolutePosition(es: seq<Exon>, negativeStrand: bool, r: int): int {
    if r < 0 then -1 else AbsolutePosition(es, negativeStrand, r)
  }

  /**
   * The documented contract: -1 for a position that is negative or at least the length, and
   * otherwise a genomic position inside the exon that holds the transcript position.
   */
  lemma CheckedAbsoluteContract(es: seq<Exon>, negativeStrand: bool, r: int)
    requires AllWellFormed(es)
    ensures !(0 <= r < TotalLength(es)) ==> CheckedAbsolutePosition(es, negativeStrand, r) == -1
    ensures 0 <= r < TotalLength(es) ==>
      ExonContains(es[ExonIndexOf(es, r)], CheckedAbsolutePosition(es, negativeStrand, r))
  {
    if r >= TotalLength(es) {
      AbsoluteBeyondLength(es, negativeStrand, r);
    } else if r >= 0 {
      AbsoluteInExon(es, negativeStrand, r, ExonIndexOf(es, r));
    }
  }

  /** The scan's accumulator only shifts a result it finds, and a result is never below -1. */
  lemma {:induction false} RelativeShift(es: seq<Exon>, negativeStrand: bool, p: int, answer: int)
    requires AllWellFormed(es)
    ensures RelativePosition(es, negativeStrand, p, 0) >= -1
    ensures RelativePosition(es, negativeStrand, p, answer) ==
      if RelativePosition(es, negativeStrand, p, 0) == -1 then -1
      else answer + RelativePosition(es, negativeStrand, p, 0)
  {
    if es != [] {
      var e := es[0];
      if !(negativeStrand && e.last < p) && !(!negativeStrand && e.first > p) && !ExonContains(e, p) {
        RelativeShift(es[1..], negativeStrand, p, answer + ExonLength(e));
        RelativeShift(es[1..], negativeStrand, p, ExonLength(e));
      }
    }
  }

  /** A position in no exon has no transcript position. */
  lemma {:induction false} RelativeOutsideExons(es: seq<Exon>, negativeStrand: bool, p: int, answer: int)
    requires forall k :: 0 <= k < |es| ==> !ExonContains(es[k], p)
    ensures RelativePosition(es, negativeStrand, p, answer) == -1
  {
    if es != [] {
      assert forall k :: 0 <= k < |es[1..]| ==> es[1..][k] == es[k + 1];
      RelativeOutsideExons(es[1..], negativeStrand, p, answer + ExonLength(es[0]));
    }
  }

  /** The index of the exon holding transcript position r. */
  ghost function ExonIndexOf(es: seq<Exon>, r: int): (k: nat)
    requires AllWellFormed(es) && 0 <= r < TotalLength(es)
    ensures k < |es| && Offset(es, k) <= r < Offset(es, k + 1)
  {
    OffsetStep(es, 0);
    assert es[..0] == [];
    if r < ExonLength(es[0]) then 0
    else
      var k := ExonIndexOf(es[1..], r - ExonLength(es[0]));
      OffsetCons(es, k + 1);
      OffsetCons(es, k + 2);
      k + 1
  }

  /**
   * A transcript position in exon k maps to the genomic position at the same distance from
   * that exon's transcript-facing end (its first base on the positive strand, its last on the
   * negative).
   */
  lemma {:induction false} AbsoluteInExon(es: seq<Exon>, negativeStrand: bool, r: int, k: nat)
    requires AllWellFormed(es) && k < |es| && Offset(es, k) <= r < Offset(es, k + 1)
    ensures AbsolutePosition(es, negativeStrand, r) ==
      if negativeStrand then es[k].last - (r - Offset(es, k)) else es[k].first + (r - Offset(es, k))
    ensures ExonContains(es[k], AbsolutePosition(es, negativeStrand, r))
  {
    OffsetStep(es, k);
    if k == 0 {
      assert es[..0] == [];
    } else {
      var rest := es[1..];
      OffsetCons(es, k);
      OffsetCons(es, k + 1);
      assert rest[..k - 1] == es[1..k];
      TotalLengthNonNegative(rest[..k - 1]);
      assert rest[k - 1] == es[k];
      AbsoluteInExon(rest, negativeStrand, r - ExonLength(es[0]), k - 1);
    }
  }

  /** A transcript position at or beyond the length maps to -1. */
  lemma {:induction false} AbsoluteBeyondLength(es: seq<Exon>, negativeStrand: bool, r: int)
    requires AllWellFormed(es) && r >= TotalLength(es)
    ensures AbsolutePosition(es, negativeStrand, r) == -1
  {
    if es != [] {
      TotalLengthNonNegative(es[1..]);
      AbsoluteBeyondLength(es[1..], negativeStrand, r - ExonLength(es[0]));
    }
  }

  /** Going from the transcript to the genome and back gives the same position. */
  lemma {:induction false} RelativeOfAbsolute(es: seq<Exon>, negativeStrand: bool, r: int)
    requires InTranscriptOrder(es, negativeStrand) && 0 <= r < TotalLength(es)
    ensures RelativePosition(es, negativeStrand, AbsolutePosition(es, negativeStrand, r), 0) == r
  {
    var e := es[0];
    if r >= ExonLength(e) {
      var rest := es[1..];
      var r' := r - ExonLength(e);
      assert forall k :: 0 <= k < |rest| ==> rest[k] == es[k + 1];
      assert InTranscriptOrder(rest, negativeStrand);
      RelativeOfAbsolute(rest, negativeStrand, r');
      var k := ExonIndexOf(rest, r');
      AbsoluteInExon(rest, negativeStrand, r', k);
      var p := AbsolutePosition(rest, negativeStrand, r');
      assert ExonContains(es[k + 1], p);
      RelativeShift(rest, negativeStrand, p, ExonLength(e));
    }
  }

  /** Going from an exon position to the transcript and back gives the same position. */
  lemma {:induction false} AbsoluteOfRelative(es: seq<Exon>, negativeStrand: bool, p: int, k: nat)
    requires InTranscriptOrder(es, negativeStrand) && k < |es| && ExonContains(es[k], p)
    ensures 0 <= RelativePosition(es, negativeStrand, p, 0) < TotalLength(es)
    ensures AbsolutePosition(es, negativeStrand, RelativePosition(es, negativeStrand, p, 0)) == p
  {
    var e := es[0];
    var rest := es[1..];
    assert forall m :: 0 <= m < |rest| ==> rest[m] == es[m + 1];
    TotalLengthNonNegative(rest);
    if k > 0 {
      assert InTranscriptOrder(rest, negativeStrand);
      AbsoluteOfRelative(rest, negativeStrand, p, k - 1);
      RelativeShift(rest, negativeStrand, p, ExonLength(e));
    }
  }

  // ------------------------------------------------------------ exon lookups

  /** getExon after its negative check: the exon under transcript position r. */
  function ExonAt(es: seq<Exon>, r: int): Option<Exon> {
    if es == [] then None
    else if r < ExonLength(es[0]) then Some(es[0])
    else ExonAt(es[1..], r - ExonLength(es[0]))
  }

  /** getExon. */
  function ExonAtTranscriptPosition(es: seq<Exon>, r: int): Option<Exon> {
    if r < 0 then None else ExonAt(es, r)
  }

  /** getExon returns nothing before 0 or at or beyond the length. */
  lemma {:induction false} ExonOutsideTranscript(es: seq<Exon>, r: int)
    requires AllWellFormed(es) && (r < 0 || r >= TotalLength(es))
    ensures ExonAtTranscriptPosition(es, r) == None
  {
    if es != [] && r >= 0 {
      TotalLengthNonNegative(es[1..]);
      ExonOutsideTranscript(es[1..], r - ExonLength(es[0]));
    }
  }

  /** getExon returns the exon whose transcript span [Offset(k), Offset(k + 1)) holds r. */
  lemma {:induction false} ExonAtSpan(es: seq<Exon>, r: int, k: nat)
    requires AllWellFormed(es) && k < |es| && Offset(es, k) <= r < Offset(es, k + 1)
    ensures ExonAtTranscriptPosition(es, r) == Some(es[k])
  {
    OffsetStep(es, k);
    if k == 0 {
      assert es[..0] == [];
    } else {
      var rest := es[1..];
      OffsetCons(es, k);
      OffsetCons(es, k + 1);
      assert rest[..k - 1] == es[1..k];
      assert forall m :: 0 <= m < |rest| ==> rest[m] == es[m + 1];
      TotalLengthNonNegative(rest[..k - 1]);
      ExonAtSpan(rest, r - ExonLength(es[0]), k - 1);
    }
  }

  /** The loop of getExonByAbsolutePosition over the exons sorted by position. */
  function ExonScan(exons: seq<Exon>, p: int): Option<Exon> {
    if exons == [] then None
    else if ExonContains(exons[0], p) then Some(exons[0])
    else if exons[0].last > p then None
    else ExonScan(exons[1..], p)
  }

  /** getExonByAbsolutePosition: nothing outside [first, last] of the transcript. */
  function ExonByAbsolutePosition(first: int, last: int, exons: seq<Exon>, p: int): Option<Exon> {
    if first > p || last < p then None else ExonScan(exons, p)
  }

  /**
   * Over exons sorted by position, the scan finds the first exon holding p, and nothing
   * exactly when no exon holds p (p lies in an intron or outside the exons).
   */
  lemma {:induction false} ExonScanFinds(exons: seq<Exon>, p: int)
    requires SortedByPosition(exons)
    ensures ExonScan(exons, p).None? <==> forall k :: 0 <= k < |exons| ==> !ExonContains(exons[k], p)
    ensures ExonScan(exons, p).Some? ==>
      exists k ::
        && 0 <= k < |exons| && ExonScan(exons, p) == Some(exons[k])
        && ExonContains(exons[k], p) && forall m :: 0 <= m < k ==> !ExonContains(exons[m], p)
  {
    if exons != [] {
      var e := exons[0];
      if !ExonContains(e, p) {
        if e.last > p {
          forall k | 0 <= k < |exons|
            ensures !ExonContains(exons[k], p)
          {
            if k > 0 {
              assert PositionLe(exons[0], exons[k]);
            }
          }
        } else {
          ExonScanFinds(exons[1..], p);
          assert forall k :: 0 < k < |exons| ==> exons[k] == exons[1..][k - 1];
          if ExonScan(exons[1..], p).Some? {
            var k :| 0 <= k < |exons[1..]| && ExonScan(exons[1..], p) == Some(exons[1..][k])
              && ExonContains(exons[1..][k], p) && forall m :: 0 <= m < k ==> !ExonContains(exons[1..][m], p);
            assert exons[k + 1] == exons[1..][k];
            assert forall m :: 0 < m < k + 1 ==> !ExonContains(exons[m], p);
          }
        }
      }
    }
  }

  predicate Overlaps(e: Exon, start: int, end: int) {
    e.first <= end && e.last >= start
  }

  /** getExonsByAbsolute: the exons meeting the closed genomic interval [start, end], in list order. */
  function ExonsByAbsolute(exons: seq<Exon>, start: int, end: int): (r: seq<Exon>)
    ensures forall x :: x in r ==> x in exons && Overlaps(x, start, end)
    ensures forall k :: 0 <= k < |exons| && Overlaps(exons[k], start, end) ==> exons[k] in r
  {
    if exons == [] then []
    else
      var rest := ExonsByAbsolute(exons[1..], start, end);
      assert forall k :: 1 <= k < |exons| ==> exons[k] == exons[1..][k - 1];
      if Overlaps(exons[0], start, end) then [exons[0]] + rest else rest
  }

  /** The loop of getExons(int, int), with exonStart the transcript offset of the current exon. */
  function ExonsByRelativeFrom(es: seq<Exon>, relStart: int, relEnd: int, exonStart: int): seq<Exon> {
    if es == [] then []
    else
      var nextExonStart := exonStart + ExonLength(es[0]);
      (if relStart < nextExonStart && relEnd >= exonStart then [es[0]] else [])
      + ExonsByRelativeFrom(es[1..], relStart, relEnd, nextExonStart)
  }

  /** getExons(int, int). */
  function ExonsByRelative(es: seq<Exon>, relStart: int, relEnd: int): seq<Exon> {
    ExonsByRelativeFrom(es, relStart, relEnd, 0)
  }

  /**
   * getExons(int, int) returns every exon whose transcript span [Offset(k), Offset(k + 1) - 1]
   * meets [relStart, relEnd] (exonStart is where the list starts in the transcript).
   */
  lemma {:induction false} ExonsByRelativeHas(es: seq<Exon>, relStart: int, relEnd: int, exonStart: int, k: nat)
    requires k < |es|
    requires relStart < exonStart + Offset(es, k + 1) && relEnd >= exonStart + Offset(es, k)
    ensures es[k] in ExonsByRelativeFrom(es, relStart, relEnd, exonStart)
  {
    OffsetStep(es, 0);
    assert es[..0] == [];
    if k > 0 {
      OffsetCons(es, k);
      OffsetCons(es, k + 1);
      assert es[1..][k - 1] == es[k];
      ExonsByRelativeHas(es[1..], relStart, relEnd, exonStart + ExonLength(es[0]), k - 1);
    }
  }

  /** ... and only those: each exon returned is one whose transcript span meets [relStart, relEnd]. */
  lemma {:induction false} ExonsByRelativeOnly(es: seq<Exon>, relStart: int, relEnd: int, exonStart: int, x: Exon)
    requires x in ExonsByRelativeFrom(es, relStart, relEnd, exonStart)
    ensures exists k ::
      && 0 <= k < |es| && es[k] == x
      && relStart < exonStart + Offset(es, k + 1) && relEnd >= exonStart + Offset(es, k)
  {
    var e := es[0];
    var next := exonStart + ExonLength(e);
    OffsetStep(es, 0);
    assert es[..0] == [];
    if relStart < next && relEnd >= exonStart && x == e {
      assert es[0] == x;
    } else {
      assert x in ExonsByRelativeFrom(es[1..], relStart, relEnd, next);
      ExonsByRelativeOnly(es[1..], relStart, relEnd, next, x);
      var k :|
        && 0 <= k < |es[1..]| && es[1..][k] == x
        && relStart < next + Offset(es[1..], k + 1) && relEnd >= next + Offset(es[1..], k);
      OffsetCons(es, k + 1);
      OffsetCons(es, k + 2);
      assert es[k + 1] == x;
    }
  }

  /** Where the k-th exon by position stands in transcript order. */
  lemma TranscriptOrderIndex(sorted: seq<Exon>, negativeStrand: bool, k: nat)
    requires k < |sorted|
    ensures |TranscriptOrder(sorted, negativeStrand)| == |sorted|
    ensures TranscriptOrder(sorted, negativeStrand)[if negativeStrand then |sorted| - 1 - k else k] == sorted[k]
  {
  }

  /**
   * The loop of setExons over the exons in transcript order: the total length, the offsets
   * of the first and last coding base (-1 without coding exons), and whether the transcript
   * codes, starting from the flag it had.
   */
  method ScanExons(es: seq<Exon>, wasCoding: bool) returns (len: int, relStart: int, relEnd: int, isCoding: bool)
    ensures len == TotalLength(es)
    ensures relStart == CodingStart(es) && relEnd == CodingEnd(es)
    ensures isCoding == (wasCoding || HasCoding(es))
  {
    len, relStart, relEnd, isCoding := 0, -1, -1, wasCoding;
    var i := 0;
    while i < |es|
      invariant 0 <= i <= |es|
      invariant len == TotalLength(es[..i])
      invariant relStart == CodingStart(es[..i]) && relEnd == CodingEnd(es[..i])
      invariant isCoding == (wasCoding || HasCoding(es[..i]))
    {
      var e := es[i];
      assert es[..i + 1][..i] == es[..i];
      if e.coding {
        if relStart == -1 {
          relStart := len;
        }
        relEnd := len + ExonLength(e) - 1;
        isCoding := true;
      }
      OffsetStep(es, i);
      assert HasCoding(es[..i + 1]) <==> HasCoding(es[..i]) || e.coding by {
        assert forall m :: 0 <= m < i ==> es[..i + 1][m] == es[..i][m];
      }
      len := len + ExonLength(e);
      i := i + 1;
    }
    assert es[..|es|] == es;
  }

  // ------------------------------------------------------------ the transcript

  class Transcript {
    var sequenceName: string
    var first: int
    var last: int
    var negativeStrand: bool
    var coding: bool
    /** The exons sorted by genomic position. */
    var exons: seq<Exon>
    /** The exons in transcript order. */
    var exonsSortedTranscript: seq<Exon>
    var codingRelativeStart: int
    var codingRelativeEnd: int
    var length: int

    /** The precalculated fields agree with the exons. */
    ghost predicate Valid()
      reads this
    {
      && SortedByPosition(exons)
      && exonsSortedTranscript == TranscriptOrder(exons, negativeStrand)
      && length == TotalLength(exonsSortedTranscript)
      && codingRelativeStart == CodingStart(exonsSortedTranscript)
      && codingRelativeEnd == CodingEnd(exonsSortedTranscript)
    }

    constructor (sequenceName: string, first: int, last: int, negativeStrand: bool)
      ensures Valid()
      ensures this.sequenceName == sequenceName && this.first == first && this.last == last
      ensures this.negativeStrand == negativeStrand && !coding && exons == []
    {
      this.sequenceName := sequenceName;
      this.first := first;
      this.last := last;
      this.negativeStrand := negativeStrand;
      coding := false;
      exons := [];
      exonsSortedTranscript := [];
      codingRelativeStart := -1;
      codingRelativeEnd := -1;
      length := 0;
    }

    /**
     * setExons: sort the exons by position, derive the transcript order, and add up the
     * length and the coding offsets in transcript order.
     */
    method SetExons(newExons: seq<Exon>)
      modifies this
      ensures Valid()
      ensures exons == SortByPosition(newExons) && multiset(exons) == multiset(newExons)
      ensures coding == (old(coding) || HasCoding(exonsSortedTranscript))
      ensures sequenceName == old(sequenceName) && first == old(first) && last == old(last)
      ensures negativeStrand == old(negativeStrand)
    {
      var sorted := SortByPosition(newExons);
      SortByPositionSorted(newExons);
      var es := TranscriptOrder(sorted, negativeStrand);
      var len, relStart, relEnd, isCoding := ScanExons(es, coding);
      exons, exonsSortedTranscript := sorted, es;
      length, codingRelativeStart, codingRelativeEnd := len, relStart, relEnd;
      coding := isCoding;
    }

    function Length(): int
      reads this
    {
      length
    }

    function GetRelativeTranscriptPosition(absolutePosition: int): int
      reads this
    {
      RelativePosition(exonsSortedTranscript, negativeStrand, absolutePosition, 0)
    }

    function GetAbsolutePosition(relativeTranscriptPosition: int): int
      reads this
    {
      CheckedAbsolutePosition(exonsSortedTranscript, negativeStrand, relativeTranscriptPosition)
    }

    function GetExon(relativeTranscriptPosition: int): Option<Exon>
      reads this
    {
      ExonAtTranscriptPosition(exonsSortedTranscript, relativeTranscriptPosition)
    }

    function GetExonByAbsolutePosition(absolutePosition: int): Option<Exon>
      reads this
    {
      ExonByAbsolutePosition(first, last, exons, absolutePosition)
    }

    function GetExonsByAbsolute(absoluteStart: int, absoluteEnd: int): seq<Exon>
      reads this
    {
      ExonsByAbsolute(exons, absoluteStart, absoluteEnd)
    }

    function GetExons(transcriptRelativeStart: int, transcriptRelativeEnd: int): seq<Exon>
      reads this
    {
      ExonsByRelative(exonsSortedTranscript, transcriptRelativeStart, transcriptRelativeEnd)
    }

    function GetCodingRelativeStart(): int
      reads this
    {
      codingRelativeStart
    }

    function GetCodingRelativeEnd(): int
      reads this
    {
      codingRelativeEnd
    }

    /** The exons of the transcript are well formed and do not overlap. */
    predicate Disjoint()
      reads this
    {
      && AllWellFormed(exons)
      && forall i, j :: 0 <= i < j < |exons| ==> exons[i].last < exons[j].first
    }

    /** From the transcript to the genome and back: every position in [0, length) comes back. */
    lemma TranscriptRoundTrip(r: int)
      requires Valid() && Disjoint() && 0 <= r < Length()
      ensures GetRelativeTranscriptPosition(GetAbsolutePosition(r)) == r
      ensures GetExon(r).Some? && ExonContains(GetExon(r).value, GetAbsolutePosition(r))
    {
      var es := exonsSortedTranscript;
      TranscriptOrderOfDisjoint(exons, negativeStrand);
      RelativeOfAbsolute(es, negativeStrand, r);
      var k := ExonIndexOf(es, r);
      AbsoluteInExon(es, negativeStrand, r, k);
      ExonAtSpan(es, r, k);
    }

    /** Transcript positions at or beyond the length have no genomic position, and no exon. */
    lemma BeyondTranscript(r: int)
      requires Valid() && AllWellFormed(exons) && r >= Length()
      ensures GetAbsolutePosition(r) == -1 && GetExon(r) == None
    {
      var es := exonsSortedTranscript;
      forall k | 0 <= k < |es|
        ensures es[k].first <= es[k].last
      {
        var j := if negativeStrand then |exons| - 1 - k else k;
        TranscriptOrderIndex(exons, negativeStrand, j);
      }
      AbsoluteBeyondLength(es, negativeStrand, r);
      ExonOutsideTranscript(es, r);
    }

    /** Negative transcript positions have no genomic position, and no exon. */
    lemma BeforeTranscript(r: int)
      requires r < 0
      ensures GetAbsolutePosition(r) == -1 && GetExon(r) == None
    {
    }

    /** From the genome to the transcript and back: every position inside exon k comes back. */
    lemma GenomeRoundTrip(p: int, k: nat)
      requires Valid() && Disjoint() && k < |exons| && ExonContains(exons[k], p)
      ensures 0 <= GetRelativeTranscriptPosition(p) < Length()
      ensures GetAbsolutePosition(GetRelativeTranscriptPosition(p)) == p
    {
      var es := exonsSortedTranscript;
      TranscriptOrderOfDisjoint(exons, negativeStrand);
      TranscriptOrderIndex(exons, negativeStrand, k);
      AbsoluteOfRelative(es, negativeStrand, p, if negativeStrand then |exons| - 1 - k else k);
    }

    /** A genomic position in no exon (in an intron or outside the transcript) maps to -1. */
    lemma OutsideExons(p: int)
      requires Valid() && forall k :: 0 <= k < |exons| ==> !ExonContains(exons[k], p)
      ensures GetRelativeTranscriptPosition(p) == -1
    {
      var es := exonsSortedTranscript;
      forall j | 0 <= j < |es|
        ensures !ExonContains(es[j], p)
      {
        var k := if negativeStrand then |exons| - 1 - j else j;
        TranscriptOrderIndex(exons, negativeStrand, k);
      }
      RelativeOutsideExons(es, negativeStrand, p, 0);
    }
  }
}
