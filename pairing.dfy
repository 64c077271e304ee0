/**
 * Paired-end resolution of ReadsAligner: two alignments of the two reads of a fragment form a
 * pair when they lie on the same reference sequence facing each other (the first base of the
 * forward one at or before that of the reverse one, and its last base at or before the
 * reverse one's), and, for a proper pair, span at most 500 bases. A pair gets the SAM pairing
 * flags and each alignment learns where its mate is.
 */
module Pairing {
  import opened Common
  import opened ReadAlignments

  /** DEFAULT_PAIREND_LENGTH_MAX. */
  const PairEndLengthMax: int := 500
  /** DEFAULT_MAX_ALIGNMENTS. */
  const MaxAlignments: nat := 100

  /** PairEndsAlignments: the alignment of the first read and that of its mate. */
  datatype PairEndsAlignments = PairEndsAlignments(aln1: ReadAlignment, aln2: ReadAlignment)

  /** What pairAlignMents looks at in an alignment. */
  datatype Placement = Placement(sequenceName: string, first: int, last: int, negative: bool)

  function PlacementOf(aln: ReadAlignment): Placement
    reads aln
  {
    Placement(aln.sequenceName, aln.first, aln.last, aln.IsNegativeStrand())
  }

  function Max(a: int, b: int): int { if a >= b then a else b }
  function Min(a: int, b: int): int { if a <= b then a else b }

  /** pairAlignMents, on the placements of the two alignments. */
  predicate PairPlacements(p1: Placement, p2: Placement, onlyProper: bool) {
    if p1.sequenceName != p2.sequenceName then false
    else
      var endMax := Max(p1.last, p2.last);
      var startMinimum := Min(p1.first, p2.first);
      if (endMax == p1.last && p1.negative && startMinimum == p2.first && !p2.negative)
         || (endMax == p2.last && p2.negative && startMinimum == p1.first && !p1.negative)
      then
        if onlyProper then endMax - startMinimum > 0 && endMax - startMinimum <= PairEndLengthMax else true
      else false
  }

  predicate PairAlignments(aln1: ReadAlignment, aln2: ReadAlignment, onlyProper: bool)
    reads aln1, aln2
  {
    PairPlacements(PlacementOf(aln1), PlacementOf(aln2), onlyProper)
  }

  /** The forward alignment `fwd` and the reverse alignment `rev` face each other. */
  predicate Innie(fwd: Placement, rev: Placement) {
    !fwd.negative && rev.negative && fwd.first <= rev.first && fwd.last <= rev.last
  }

  /**
   * Two alignments pair exactly when they are on the same sequence facing each other; a
   * proper pair also spans 1 to 500 bases from the forward start to the reverse end.
   */
  lemma PairIsInnie(p1: Placement, p2: Placement, onlyProper: bool)
    ensures PairPlacements(p1, p2, onlyProper) <==>
      && p1.sequenceName == p2.sequenceName
      && (Innie(p1, p2) || Innie(p2, p1))
      && (onlyProper ==> (if Innie(p1, p2) then 0 < p2.last - p1.first <= PairEndLengthMax
                          else 0 < p1.last - p2.first <= PairEndLengthMax))
  {
  }

  /** The order of the two alignments does not matter. */
  lemma PairSymmetric(p1: Placement, p2: Placement, onlyProper: bool)
    ensures PairPlacements(p1, p2, onlyProper) == PairPlacements(p2, p1, onlyProper)
  {
    PairIsInnie(p1, p2, onlyProper);
    PairIsInnie(p2, p1, onlyProper);
  }

  /** A proper pair is a pair. */
  lemma ProperIsPair(p1: Placement, p2: Placement)
    ensures PairPlacements(p1, p2, true) ==> PairPlacements(p1, p2, false)
  {
  }

  // ------------------------------------------------------------ flags and mates

  /** Whether the bit of value `bit` (a power of two) is set in `flags`. */
  predicate HasFlag(flags: int, bit: nat)
    requires bit > 0
  {
    (flags / bit) % 2 == 1
  }

  /** The flags setFlags gives the first (or second) alignment of a pair. */
  function PairFlags(firstOfPair: bool, proper: bool): int {
    (if firstOfPair then FlagPaired + FlagFirstOfPair else FlagPaired + FlagSecondOfPair)
    + (if proper then FlagProper else 0)
  }

  /**
   * The pair flags say paired, which read of the pair, and proper exactly when asked; the
   * reverse-strand and secondary bits end up cleared.
   */
  lemma PairFlagsBits(firstOfPair: bool, proper: bool)
    ensures var f := PairFlags(firstOfPair, proper);
      && HasFlag(f, FlagPaired)
      && (HasFlag(f, FlagFirstOfPair) <==> firstOfPair)
      && (HasFlag(f, FlagSecondOfPair) <==> !firstOfPair)
      && (HasFlag(f, FlagProper) <==> proper)
      && !HasFlag(f, FlagReadReverseStrand) && !HasFlag(f, FlagSecondary)
  {
  }

  /** setMateInfo; the mate's strand is copied from the mate's own mate strand, as written. */
  method SetMateInfo(alignment: ReadAlignment, mate: ReadAlignment)
    modifies alignment`mateFirst, alignment`mateSequenceName, alignment`mateNegativeStrand
    ensures alignment.mateFirst == old(mate.first)
    ensures alignment.mateSequenceName == old(mate.sequenceName)
    ensures alignment.mateNegativeStrand == old(mate.mateNegativeStrand)
  {
    alignment.mateFirst := mate.first;
    alignment.mateSequenceName := mate.sequenceName;
    alignment.mateNegativeStrand := mate.mateNegativeStrand;
  }

  /**
   * setFlags. Both alignments are marked paired and point at each other. Because the first
   * call to setMateInfo overwrites aln1's mate strand before the second reads it, aln2 keeps
   * its own mate strand.
   */
  method SetFlags(aln1: ReadAlignment, aln2: ReadAlignment, proper: bool) returns (pair: PairEndsAlignments)
    requires aln1 != aln2
    modifies aln1`paired, aln1`flags, aln1`mateFirst, aln1`mateSequenceName, aln1`mateNegativeStrand
    modifies aln2`paired, aln2`flags, aln2`mateFirst, aln2`mateSequenceName, aln2`mateNegativeStrand
    ensures pair == PairEndsAlignments(aln1, aln2)
    ensures aln1.paired && aln2.paired
    ensures aln1.flags == PairFlags(true, proper) && aln2.flags == PairFlags(false, proper)
    ensures aln1.mateFirst == aln2.first && aln1.mateSequenceName == aln2.sequenceName
    ensures aln2.mateFirst == aln1.first && aln2.mateSequenceName == aln1.sequenceName
    ensures aln1.mateNegativeStrand == old(aln2.mateNegativeStrand)
    ensures aln2.mateNegativeStrand == old(aln2.mateNegativeStrand)
  {
    aln1.paired := true;
    aln2.paired := true;
    SetMateInfo(aln1, aln2);
    SetMateInfo(aln2, aln1);
    var flag1 := FlagPaired + FlagFirstOfPair;
    var flag2 := FlagPaired + FlagSecondOfPair;
    if proper {
      flag1 := flag1 + FlagProper;
      flag2 := flag2 + FlagProper;
    }
    aln1.flags := flag1;
    aln2.flags := flag2;
    pair := PairEndsAlignments(aln1, aln2);
  }

  /** After pairing, an alignment reads as forward-strand whatever strand it was found on. */
  lemma PairingClearsStrand(aln: ReadAlignment, firstOfPair: bool, proper: bool)
    requires aln.flags == PairFlags(firstOfPair, proper)
    ensures aln.IsPositiveStrand()
  {
    PairFlagsBits(firstOfPair, proper);
  }

  // ------------------------------------------------------------ finding a mate

  /** The alignments among the first i of alns2 that findParForAlignment takes as candidates. */
  function CandidatesUpTo(aln1: ReadAlignment, alns2: seq<ReadAlignment>, onlyProper: bool, i: nat): seq<ReadAlignment>
    requires i <= |alns2|
    reads aln1, set a | a in alns2
  {
    if i == 0 then []
    else
      var current := alns2[i - 1];
      CandidatesUpTo(aln1, alns2, onlyProper, i - 1)
      + (if !current.paired && !aln1.paired && PairAlignments(aln1, current, onlyProper) then [current] else [])
  }

  function Candidates(aln1: ReadAlignment, alns2: seq<ReadAlignment>, onlyProper: bool): seq<ReadAlignment>
    reads aln1, set a | a in alns2
  {
    CandidatesUpTo(aln1, alns2, onlyProper, |alns2|)
  }

  /** The candidates are the unpaired alignments of alns2 that pair with a still unpaired aln1. */
  lemma {:induction false} CandidatesExact(aln1: ReadAlignment, alns2: seq<ReadAlignment>, onlyProper: bool, i: nat)
    requires i <= |alns2|
    ensures forall c :: c in CandidatesUpTo(aln1, alns2, onlyProper, i) ==>
      c in alns2[..i] && !c.paired && !aln1.paired && PairAlignments(aln1, c, onlyProper)
    ensures forall c :: c in alns2[..i] ==>
      (c in CandidatesUpTo(aln1, alns2, onlyProper, i) <==> !c.paired && !aln1.paired && PairAlignments(aln1, c, onlyProper))
  {
    if i > 0 {
      CandidatesExact(aln1, alns2, onlyProper, i - 1);
      assert alns2[..i] == alns2[..i - 1] + [alns2[i - 1]];
    }
  }

  /** An alignment that was already paired finds no candidate. */
  lemma {:induction false} PairedHasNoCandidates(aln1: ReadAlignment, alns2: seq<ReadAlignment>, onlyProper: bool, i: nat)
    requires aln1.paired && i <= |alns2|
    ensures CandidatesUpTo(aln1, alns2, onlyProper, i) == []
  {
    if i > 0 {
      PairedHasNoCandidates(aln1, alns2, onlyProper, i - 1);
    }
  }

  /** The candidate loop of findParForAlignment. */
  method CollectCandidates(aln1: ReadAlignment, alns2: seq<ReadAlignment>, onlyProper: bool) returns (candidates: seq<ReadAlignment>)
    ensures candidates == Candidates(aln1, alns2, onlyProper)
  {
    candidates := [];
    var i := 0;
    while i < |alns2|
      invariant 0 <= i <= |alns2|
      invariant candidates == CandidatesUpTo(aln1, alns2, onlyProper, i)
    {
      var current := alns2[i];
      if !current.paired && !aln1.paired {
        if PairAlignments(aln1, current, onlyProper) {
          candidates := candidates + [current];
        }
      }
      i := i + 1;
    }
  }

  /**
   * findParForAlignment. `pick` stands for the random choice among all of alns2 made when
   * several candidates qualify; that choice ignores the candidates, as written.
   */
  method FindParForAlignment(aln1: ReadAlignment, alns2: seq<ReadAlignment>, onlyProper: bool, pick: nat)
    returns (r: Option<PairEndsAlignments>)
    requires aln1 !in alns2
    modifies aln1`paired, aln1`flags, aln1`mateFirst, aln1`mateSequenceName, aln1`mateNegativeStrand
    modifies (set a | a in alns2)`paired, (set a | a in alns2)`flags, (set a | a in alns2)`mateFirst
    modifies (set a | a in alns2)`mateSequenceName, (set a | a in alns2)`mateNegativeStrand
    ensures var candidates := old(Candidates(aln1, alns2, onlyProper));
      && (|candidates| == 0 ==> r == None && aln1.paired && unchanged(set a | a in alns2)
                                && aln1.flags == old(aln1.flags) && aln1.mateFirst == old(aln1.mateFirst)
                                && aln1.mateSequenceName == old(aln1.mateSequenceName)
                                && aln1.mateNegativeStrand == old(aln1.mateNegativeStrand))
      && (|candidates| == 1 ==> r == Some(PairEndsAlignments(aln1, candidates[0])))
      && (|candidates| > 1 ==> r == Some(PairEndsAlignments(aln1, alns2[pick % |alns2|])))
    ensures r.Some? ==>
      && r.value.aln1 == aln1 && r.value.aln2 in alns2
      && aln1.paired && r.value.aln2.paired
      && aln1.flags == PairFlags(true, onlyProper) && r.value.aln2.flags == PairFlags(false, onlyProper)
      && aln1.mateFirst == r.value.aln2.first && aln1.mateSequenceName == r.value.aln2.sequenceName
      && r.value.aln2.mateFirst == aln1.first && r.value.aln2.mateSequenceName == aln1.sequenceName
    ensures forall a :: a in alns2 && (r.None? || a != r.value.aln2) ==> unchanged(a)
  {
    var candidates := CollectCandidates(aln1, alns2, onlyProper);
    CandidatesExact(aln1, alns2, onlyProper, |alns2|);
    assert alns2[..|alns2|] == alns2;
    if |candidates| == 0 {
      aln1.paired := true;
      r := None;
    } else if |candidates| == 1 {
      assert candidates[0] in candidates;
      var pair := SetFlags(aln1, candidates[0], onlyProper);
      r := Some(pair);
    } else {
      var pair := SetFlags(aln1, alns2[pick % |alns2|], onlyProper);
      r := Some(pair);
    }
  }

  /** A pair found: the first alignment is paired with the mate it was given. */
  ghost predicate PairHolds(p: PairEndsAlignments, alns1: seq<ReadAlignment>, alns2: seq<ReadAlignment>, onlyProper: bool)
    reads p.aln1, p.aln2
  {
    && p.aln1 in alns1 && p.aln2 in alns2
    && p.aln1.paired && p.aln2.paired
    && p.aln1.flags == PairFlags(true, onlyProper) && p.aln2.flags == PairFlags(false, onlyProper)
    && p.aln1.mateFirst == p.aln2.first && p.aln1.mateSequenceName == p.aln2.sequenceName
  }

  /** The pairs found so far all hold. */
  ghost predicate PairsHold(pairs: seq<PairEndsAlignments>, alns1: seq<ReadAlignment>, alns2: seq<ReadAlignment>, onlyProper: bool)
    reads set p | p in pairs :: p.aln1, set p | p in pairs :: p.aln2
  {
    forall p :: p in pairs ==> PairHolds(p, alns1, alns2, onlyProper)
  }

  /** The mates of the pairs, in order. */
  function Partners(pairs: seq<PairEndsAlignments>): (r: seq<ReadAlignment>)
    ensures |r| == |pairs|
  {
    if pairs == [] then [] else Partners(pairs[..|pairs| - 1]) + [pairs[|pairs| - 1].aln2]
  }

  /** Forming one more pair takes one more mate. */
  lemma PartnersAppend(pairs: seq<PairEndsAlignments>, p: PairEndsAlignments)
    ensures Partners(pairs + [p]) == Partners(pairs) + [p.aln2]
  {
    assert (pairs + [p])[..|pairs|] == pairs;
  }

  /**
   * The pairs findPairs returns after the first i alignments of alns1, given the candidates
   * seen[j] each of them found: none gives no pair, one gives that candidate, several give
   * the picked element of all of alns2 (which several candidates make non-empty).
   */
  function Chosen(alns1: seq<ReadAlignment>, alns2: seq<ReadAlignment>, seen: seq<seq<ReadAlignment>>,
                  pick: nat -> nat, i: nat): seq<PairEndsAlignments>
    requires i <= |seen| && i <= |alns1|
  {
    if i == 0 then []
    else
      Chosen(alns1, alns2, seen, pick, i - 1)
      + (if seen[i - 1] == [] then []
         else if |seen[i - 1]| == 1 || alns2 == [] then [PairEndsAlignments(alns1[i - 1], seen[i - 1][0])]
         else [PairEndsAlignments(alns1[i - 1], alns2[pick(i - 1) % |alns2|])])
  }

  /** Chosen looks only at the first i candidate lists. */
  lemma {:induction false} ChosenAgree(alns1: seq<ReadAlignment>, alns2: seq<ReadAlignment>, s: seq<seq<ReadAlignment>>,
                                       t: seq<seq<ReadAlignment>>, pick: nat -> nat, i: nat)
    requires i <= |s| && i <= |t| && i <= |alns1| && s[..i] == t[..i]
    ensures Chosen(alns1, alns2, s, pick, i) == Chosen(alns1, alns2, t, pick, i)
  {
    if i > 0 {
      assert s[..i - 1] == s[..i][..i - 1] && t[..i - 1] == t[..i][..i - 1];
      ChosenAgree(alns1, alns2, s, t, pick, i - 1);
      assert s[i - 1] == s[..i][i - 1] && t[i - 1] == t[..i][i - 1];
    }
  }

  /**
   * Alignment c of alns2 is a candidate for alns1[i] at its turn, in terms of the pairing
   * state and placements before findPairs started (paired0, place0) and the mates taken by
   * the pairs formed before.
   */
  ghost predicate Eligible(alns1: seq<ReadAlignment>, i: nat, c: ReadAlignment, before: seq<PairEndsAlignments>,
                           onlyProper: bool, paired0: map<ReadAlignment, bool>, place0: map<ReadAlignment, Placement>)
    requires i < |alns1| && alns1[i] in paired0 && alns1[i] in place0 && c in paired0 && c in place0
  {
    && !paired0[c] && c !in Partners(before)
    && !paired0[alns1[i]] && alns1[i] !in alns1[..i]
    && PairPlacements(place0[alns1[i]], place0[c], onlyProper)
  }

  /** The candidates recorded for the first |seen| alignments are exactly the eligible ones. */
  ghost predicate SeenExact(alns1: seq<ReadAlignment>, alns2: seq<ReadAlignment>, seen: seq<seq<ReadAlignment>>,
                            pick: nat -> nat, onlyProper: bool,
                            paired0: map<ReadAlignment, bool>, place0: map<ReadAlignment, Placement>)
    decreases |seen|
  {
    && |seen| <= |alns1|
    && (forall a :: a in alns1 + alns2 ==> a in paired0 && a in place0)
    && (seen != [] ==>
      var n := |seen| - 1;
      && SeenExact(alns1, alns2, seen[..n], pick, onlyProper, paired0, place0)
      && (forall c :: c in seen[n] ==> c in alns2)
      && (forall c :: c in alns2 ==>
            (c in seen[n] <==> Eligible(alns1, n, c, Chosen(alns1, alns2, seen, pick, n), onlyProper, paired0, place0))))
  }

  /** The recorded candidates are alignments of alns2. */
  lemma {:induction false} SeenWithin(alns1: seq<ReadAlignment>, alns2: seq<ReadAlignment>, seen: seq<seq<ReadAlignment>>,
                                      pick: nat -> nat, onlyProper: bool,
                                      paired0: map<ReadAlignment, bool>, place0: map<ReadAlignment, Placement>)
    requires SeenExact(alns1, alns2, seen, pick, onlyProper, paired0, place0)
    ensures forall j, c :: 0 <= j < |seen| && c in seen[j] ==> c in alns2
    decreases |seen|
  {
    if seen != [] {
      var n := |seen| - 1;
      var init := seen[..n];
      SeenWithin(alns1, alns2, init, pick, onlyProper, paired0, place0);
      assert forall j :: 0 <= j < n ==> seen[j] == init[j];
    }
  }

  /** The record, alignment by alignment: the candidates of each are exactly the eligible ones. */
  lemma {:induction false} SeenExactEach(alns1: seq<ReadAlignment>, alns2: seq<ReadAlignment>, seen: seq<seq<ReadAlignment>>,
                                         pick: nat -> nat, onlyProper: bool,
                                         paired0: map<ReadAlignment, bool>, place0: map<ReadAlignment, Placement>)
    requires SeenExact(alns1, alns2, seen, pick, onlyProper, paired0, place0)
    ensures forall j, c :: 0 <= j < |seen| && c in alns2 ==>
      (c in seen[j] <==> Eligible(alns1, j, c, Chosen(alns1, alns2, seen, pick, j), onlyProper, paired0, place0))
    decreases |seen|
  {
    if seen != [] {
      var n := |seen| - 1;
      var init := seen[..n];
      SeenExactEach(alns1, alns2, init, pick, onlyProper, paired0, place0);
      forall j | 0 <= j < n
        ensures seen[j] == init[j]
        ensures Chosen(alns1, alns2, seen, pick, j) == Chosen(alns1, alns2, init, pick, j)
      {
        assert seen[..j] == init[..j];
        ChosenAgree(alns1, alns2, seen, init, pick, j);
      }
    }
  }

  /** Recording the candidates of the next alignment keeps the record exact. */
  lemma SeenExactStep(alns1: seq<ReadAlignment>, alns2: seq<ReadAlignment>, seen: seq<seq<ReadAlignment>>,
                      more: seq<ReadAlignment>, pick: nat -> nat, onlyProper: bool,
                      paired0: map<ReadAlignment, bool>, place0: map<ReadAlignment, Placement>)
    requires SeenExact(alns1, alns2, seen, pick, onlyProper, paired0, place0) && |seen| < |alns1|
    requires forall c :: c in more ==> c in alns2
    requires forall c :: c in alns2 ==>
      (c in more <==> Eligible(alns1, |seen|, c, Chosen(alns1, alns2, seen, pick, |seen|), onlyProper, paired0, place0))
    ensures SeenExact(alns1, alns2, seen + [more], pick, onlyProper, paired0, place0)
    ensures Chosen(alns1, alns2, seen + [more], pick, |seen|) == Chosen(alns1, alns2, seen, pick, |seen|)
  {
    var seen' := seen + [more];
    assert seen'[..|seen|] == seen && seen'[|seen|] == more;
    ChosenAgree(alns1, alns2, seen', seen, pick, |seen|);
  }

  /**
   * What findPairs keeps true after the first i alignments of alns1: the pairs are the ones
   * chosen from the recorded candidates; the alignments examined are paired; an alignment of
   * alns2 is paired exactly when it was before or it became a mate, and until then keeps its
   * placement; an alignment of alns1 not yet examined keeps its state.
   */
  ghost predicate Tracked(alns1: seq<ReadAlignment>, alns2: seq<ReadAlignment>, onlyProper: bool, pick: nat -> nat, i: nat,
                          pairs: seq<PairEndsAlignments>, seen: seq<seq<ReadAlignment>>,
                          paired0: map<ReadAlignment, bool>, place0: map<ReadAlignment, Placement>)
    reads set a | a in alns1 + alns2
    reads set p | p in pairs :: p.aln1, set p | p in pairs :: p.aln2
  {
    && i <= |alns1| && |seen| == i
    && SeenExact(alns1, alns2, seen, pick, onlyProper, paired0, place0)
    && pairs == Chosen(alns1, alns2, seen, pick, i)
    && ExaminedPaired(alns1[..i])
    && MatesPaired(alns2, pairs, paired0)
    && PlacementsKept(alns1, alns2, i, paired0, place0)
    && PairsHold(pairs, alns1[..i], alns2, onlyProper)
  }

  /** The alignments examined are paired. */
  ghost predicate ExaminedPaired(examined: seq<ReadAlignment>)
    reads set a | a in examined
  {
    forall a :: a in examined ==> a.paired
  }

  /** An alignment of alns2 is paired exactly when it was before or it became a mate. */
  ghost predicate MatesPaired(alns2: seq<ReadAlignment>, pairs: seq<PairEndsAlignments>, paired0: map<ReadAlignment, bool>)
    reads set a | a in alns2
  {
    forall c :: c in alns2 ==> c in paired0 && (c.paired <==> paired0[c] || c in Partners(pairs))
  }

  /**
   * An unpaired alignment of alns2 keeps its placement, and an alignment of alns1 not yet
   * examined keeps its state.
   */
  ghost predicate PlacementsKept(alns1: seq<ReadAlignment>, alns2: seq<ReadAlignment>, i: nat,
                                 paired0: map<ReadAlignment, bool>, place0: map<ReadAlignment, Placement>)
    requires i <= |alns1|
    reads set a | a in alns1 + alns2
  {
    && (forall c :: c in alns2 && !c.paired ==> c in place0 && PlacementOf(c) == place0[c])
    && (forall a :: a in alns1 && a !in alns1[..i] ==>
          a in paired0 && a in place0 && a.paired == paired0[a] && PlacementOf(a) == place0[a])
  }

  /** The candidates of aln1 are the unpaired alignments of alns2 facing it, if it is unpaired itself. */
  lemma CandidatesOf(aln1: ReadAlignment, alns2: seq<ReadAlignment>, onlyProper: bool)
    ensures forall c :: c in Candidates(aln1, alns2, onlyProper) ==> c in alns2
    ensures forall c :: c in alns2 ==>
      (c in Candidates(aln1, alns2, onlyProper) <==> !c.paired && !aln1.paired && PairAlignments(aln1, c, onlyProper))
  {
    CandidatesExact(aln1, alns2, onlyProper, |alns2|);
    assert alns2[..|alns2|] == alns2;
  }

  /** At the i-th turn, the candidates findParForAlignment collects are exactly the eligible ones. */
  lemma CandidatesAtTurn(alns1: seq<ReadAlignment>, alns2: seq<ReadAlignment>, onlyProper: bool, pick: nat -> nat, i: nat,
                         pairs: seq<PairEndsAlignments>, seen: seq<seq<ReadAlignment>>,
                         paired0: map<ReadAlignment, bool>, place0: map<ReadAlignment, Placement>)
    requires i < |alns1| && Tracked(alns1, alns2, onlyProper, pick, i, pairs, seen, paired0, place0)
    ensures forall c :: c in Candidates(alns1[i], alns2, onlyProper) ==> c in alns2
    ensures forall c :: c in alns2 ==>
      (c in Candidates(alns1[i], alns2, onlyProper) <==> Eligible(alns1, i, c, pairs, onlyProper, paired0, place0))
  {
    var aln1 := alns1[i];
    CandidatesOf(aln1, alns2, onlyProper);
    assert aln1.paired <==> paired0[aln1] || aln1 in alns1[..i];
  }

  /** The mate a turn gave, if any. */
  function MateOf(p: Option<PairEndsAlignments>): Option<ReadAlignment> {
    if p.Some? then Some(p.value.aln2) else None
  }

  /** The pairs after a turn. */
  function Extended(pairs: seq<PairEndsAlignments>, p: Option<PairEndsAlignments>): seq<PairEndsAlignments> {
    if p.Some? then pairs + [p.value] else pairs
  }

  /** Changes a turn makes: only the examined alignment and the mate it takes. */
  twostate predicate TurnFrame(new alns1: seq<ReadAlignment>, new alns2: seq<ReadAlignment>, new i: nat, new mate: Option<ReadAlignment>)
    requires old(allocated(alns1)) && old(allocated(alns2)) && i < |alns1|
    reads set a | a in alns1 + alns2
  {
    && (forall a :: a in alns1 && a != alns1[i] ==> unchanged(a))
    && (forall c :: c in alns2 && (mate.None? || c != mate.value) ==> unchanged(c))
    && (forall c :: c in alns2 ==> c.first == old(c.first) && c.sequenceName == old(c.sequenceName))
    && (mate.Some? ==> mate.value in alns2 && mate.value.paired)
  }

  /** The alignment examined in a turn ends paired. */
  twostate lemma ExaminedStep(new alns1: seq<ReadAlignment>, new alns2: seq<ReadAlignment>, new i: nat, new mate: Option<ReadAlignment>)
    requires old(allocated(alns1)) && old(allocated(alns2)) && i < |alns1| && old(ExaminedPaired(alns1[..i])) && alns1[i].paired
    requires TurnFrame(alns1, alns2, i, mate)
    ensures ExaminedPaired(alns1[..i + 1])
  {
    forall a | a in alns1[..i + 1]
      ensures a.paired
    {
      if a != alns1[i] {
        assert a in alns1[..i] && a in alns1;
      }
    }
  }

  /** A turn pairs the mate it takes and no other alignment of alns2. */
  twostate lemma MatesStep(new alns1: seq<ReadAlignment>, new alns2: seq<ReadAlignment>, new i: nat, new pairs: seq<PairEndsAlignments>,
                           new p: Option<PairEndsAlignments>, new paired0: map<ReadAlignment, bool>)
    requires old(allocated(alns1)) && old(allocated(alns2)) && old(allocated(pairs)) && old(allocated(paired0)) && i < |alns1| && old(MatesPaired(alns2, pairs, paired0))
    requires TurnFrame(alns1, alns2, i, MateOf(p))
    ensures MatesPaired(alns2, Extended(pairs, p), paired0)
  {
    if p.Some? {
      PartnersAppend(pairs, p.value);
    }
  }

  /** A turn leaves the placements of the unpaired and of the alignments not yet examined. */
  twostate lemma KeptStep(new alns1: seq<ReadAlignment>, new alns2: seq<ReadAlignment>, new i: nat, new mate: Option<ReadAlignment>,
                          new paired0: map<ReadAlignment, bool>, new place0: map<ReadAlignment, Placement>)
    requires old(allocated(alns1)) && old(allocated(alns2)) && old(allocated(paired0)) && old(allocated(place0)) && i < |alns1| && old(PlacementsKept(alns1, alns2, i, paired0, place0))
    requires TurnFrame(alns1, alns2, i, mate)
    ensures PlacementsKept(alns1, alns2, i + 1, paired0, place0)
  {
    assert alns1[..i + 1] == alns1[..i] + [alns1[i]];
  }

  /**
   * A turn keeps the pairs found before (an alignment examined again finds no candidate and
   * keeps its flags) and adds a pair that holds.
   */
  twostate lemma PairsStep(new alns1: seq<ReadAlignment>, new alns2: seq<ReadAlignment>, new onlyProper: bool, new i: nat,
                           new pairs: seq<PairEndsAlignments>, new p: Option<PairEndsAlignments>)
    requires old(allocated(alns1)) && old(allocated(alns2)) && old(allocated(pairs))
    requires forall a :: a in alns1 ==> a !in alns2
    requires i < |alns1| && old(PairsHold(pairs, alns1[..i], alns2, onlyProper))
    requires TurnFrame(alns1, alns2, i, MateOf(p))
    requires alns1[i].paired
    requires alns1[i] in alns1[..i] ==>
      && p.None? && alns1[i].flags == old(alns1[i].flags) && alns1[i].mateFirst == old(alns1[i].mateFirst)
      && alns1[i].mateSequenceName == old(alns1[i].mateSequenceName)
    requires p.Some? ==> PairHolds(p.value, alns1[..i + 1], alns2, onlyProper)
    ensures PairsHold(Extended(pairs, p), alns1[..i + 1], alns2, onlyProper)
  {
    forall q | q in pairs
      ensures PairHolds(q, alns1[..i + 1], alns2, onlyProper)
    {
      assert old(PairHolds(q, alns1[..i], alns2, onlyProper));
      assert q.aln1 in alns1[..i] && q.aln1 !in alns2;
      assert alns1[..i] <= alns1[..i + 1];
      if q.aln1 != alns1[i] {
        assert q.aln1 in alns1;
        assert unchanged(q.aln1);
      }
      assert q.aln1.flags == old(q.aln1.flags) && q.aln1.mateFirst == old(q.aln1.mateFirst);
      assert q.aln1.mateSequenceName == old(q.aln1.mateSequenceName);
      if p.None? || q.aln2 != p.value.aln2 {
        assert unchanged(q.aln2);
      } else {
        assert PairHolds(p.value, alns1[..i + 1], alns2, onlyProper);
      }
    }
  }

  /**
   * Before the i-th turn: recording the candidates findParForAlignment is about to collect
   * keeps the record exact, and an alignment already paired collects none.
   */
  lemma TurnPlan(alns1: seq<ReadAlignment>, alns2: seq<ReadAlignment>, onlyProper: bool, pick: nat -> nat, i: nat,
                 pairs: seq<PairEndsAlignments>, seen: seq<seq<ReadAlignment>>,
                 paired0: map<ReadAlignment, bool>, place0: map<ReadAlignment, Placement>)
    requires i < |alns1| && Tracked(alns1, alns2, onlyProper, pick, i, pairs, seen, paired0, place0)
    ensures var candidates := Candidates(alns1[i], alns2, onlyProper);
      && SeenExact(alns1, alns2, seen + [candidates], pick, onlyProper, paired0, place0)
      && Chosen(alns1, alns2, seen + [candidates], pick, i) == pairs
      && (forall c :: c in candidates ==> c in alns2)
      && (alns1[i].paired ==> candidates == [])
  {
    var aln1 := alns1[i];
    CandidatesAtTurn(alns1, alns2, onlyProper, pick, i, pairs, seen, paired0, place0);
    SeenExactStep(alns1, alns2, seen, Candidates(aln1, alns2, onlyProper), pick, onlyProper, paired0, place0);
    if aln1.paired {
      PairedHasNoCandidates(aln1, alns2, onlyProper, |alns2|);
    }
  }

  /** The pair a turn forms is the one Chosen takes from the candidates it recorded. */
  lemma ChosenStep(alns1: seq<ReadAlignment>, alns2: seq<ReadAlignment>, seen: seq<seq<ReadAlignment>>,
                   candidates: seq<ReadAlignment>, pick: nat -> nat, p: Option<PairEndsAlignments>)
    requires |seen| < |alns1| && forall c :: c in candidates ==> c in alns2
    requires |candidates| == 0 ==> p == None
    requires |candidates| == 1 ==> p == Some(PairEndsAlignments(alns1[|seen|], candidates[0]))
    requires |candidates| > 1 && |alns2| > 0 ==> p == Some(PairEndsAlignments(alns1[|seen|], alns2[pick(|seen|) % |alns2|]))
    ensures Chosen(alns1, alns2, seen + [candidates], pick, |seen| + 1)
      == Extended(Chosen(alns1, alns2, seen + [candidates], pick, |seen|), p)
  {
    if |candidates| > 1 {
      assert candidates[0] in alns2;
    }
  }

  /** One turn of findPairs: the i-th alignment of alns1 looks for its mate. */
  method Turn(alns1: seq<ReadAlignment>, alns2: seq<ReadAlignment>, onlyProper: bool, pick: nat -> nat, i: nat,
              pairs: seq<PairEndsAlignments>, ghost seen: seq<seq<ReadAlignment>>,
              ghost paired0: map<ReadAlignment, bool>, ghost place0: map<ReadAlignment, Placement>)
    returns (pairs': seq<PairEndsAlignments>, ghost seen': seq<seq<ReadAlignment>>)
    requires forall a :: a in alns1 ==> a !in alns2
    requires i < |alns1| && Tracked(alns1, alns2, onlyProper, pick, i, pairs, seen, paired0, place0)
    modifies set a | a in alns1 + alns2
    ensures Tracked(alns1, alns2, onlyProper, pick, i + 1, pairs', seen', paired0, place0)
  {
    var aln1 := alns1[i];
    ghost var candidates := Candidates(aln1, alns2, onlyProper);
    TurnPlan(alns1, alns2, onlyProper, pick, i, pairs, seen, paired0, place0);
    var p := FindParForAlignment(aln1, alns2, onlyProper, pick(i));
    pairs' := Extended(pairs, p);
    seen' := seen + [candidates];
    ChosenStep(alns1, alns2, seen, candidates, pick, p);
    assert TurnFrame(alns1, alns2, i, MateOf(p));
    ExaminedStep(alns1, alns2, i, MateOf(p));
    MatesStep(alns1, alns2, i, pairs, p, paired0);
    KeptStep(alns1, alns2, i, MateOf(p), paired0, place0);
    PairsStep(alns1, alns2, onlyProper, i, pairs, p);
  }

  /**
   * findPairs: at most 100 alignments of the first read look for a mate. `pick(i)` is the
   * random choice made for the i-th of them, and `seen[i]` the candidates it found: the
   * unpaired alignments of alns2 not yet taken as a mate that face it, if it was itself
   * unpaired (not paired before the call and not met earlier in alns1). Every alignment
   * examined ends marked as paired.
   */
  method FindPairs(alns1: seq<ReadAlignment>, alns2: seq<ReadAlignment>, onlyProper: bool, pick: nat -> nat)
    returns (pairs: seq<PairEndsAlignments>, ghost seen: seq<seq<ReadAlignment>>)
    requires forall a :: a in alns1 ==> a !in alns2
    modifies set a | a in alns1 + alns2
    ensures |seen| == Min(|alns1|, MaxAlignments)
    ensures pairs == Chosen(alns1, alns2, seen, pick, |seen|)
    ensures forall i, c :: 0 <= i < |seen| && c in seen[i] ==> c in alns2
    ensures forall i, c :: 0 <= i < |seen| && c in alns2 ==>
      (c in seen[i] <==>
        && !old(c.paired) && c !in Partners(Chosen(alns1, alns2, seen, pick, i))
        && !old(alns1[i].paired) && alns1[i] !in alns1[..i]
        && PairPlacements(old(PlacementOf(alns1[i])), old(PlacementOf(c)), onlyProper))
    ensures forall i :: 0 <= i < |seen| ==> alns1[i].paired
    ensures PairsHold(pairs, alns1[..|seen|], alns2, onlyProper)
  {
    ghost var paired0 := map a | a in alns1 + alns2 :: a.paired;
    ghost var place0 := map a | a in alns1 + alns2 :: PlacementOf(a);
    pairs, seen := [], [];
    var n := Min(|alns1|, MaxAlignments);
    var i := 0;
    while i < n
      invariant 0 <= i <= n
      invariant Tracked(alns1, alns2, onlyProper, pick, i, pairs, seen, paired0, place0)
    {
      pairs, seen := Turn(alns1, alns2, onlyProper, pick, i, pairs, seen, paired0, place0);
      i := i + 1;
    }
    SeenWithin(alns1, alns2, seen, pick, onlyProper, paired0, place0);
    SeenExactEach(alns1, alns2, seen, pick, onlyProper, paired0, place0);
  }
}
