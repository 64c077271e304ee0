/**
 * The part of a read alignment that the aligner reads and writes: where the read landed,
 * its SAM flags, quality and CIGAR, the k-mer start it was found for, and its mate.
 * The flag values are those of the FLAG field (section 1.4 of the SAM format specification).
 */
module ReadAlignments {

  const FlagPaired: int := 1
  const FlagProper: int := 2
  const FlagReadReverseStrand: int := 16
  const FlagFirstOfPair: int := 64
  const FlagSecondOfPair: int := 128
  const FlagSecondary: int := 256

  class ReadAlignment {
    var sequenceName: string
    var first: int
    var last: int
    var readLength: int
    var flags: int
    var alignmentQuality: int
    var cigar: string
    var readCharacters: string
    var qualityScores: string
    /** The start in the read of the k-mer this hit was found for. */
    var readNumber: int
    /** hasPair: the alignment was already considered for pairing. */
    var paired: bool
    var mateFirst: int
    var mateSequenceName: string
    var mateNegativeStrand: bool

    constructor (sequenceName: string, first: int, last: int, readLength: int, flags: int)
      ensures this.sequenceName == sequenceName && this.first == first && this.last == last
      ensures this.readLength == readLength && this.flags == flags
      ensures alignmentQuality == 0 && cigar == "" && readCharacters == "" && qualityScores == ""
      ensures readNumber == 0 && !paired
      ensures mateFirst == 0 && mateSequenceName == "" && !mateNegativeStrand
    {
      this.sequenceName := sequenceName;
      this.first := first;
      this.last := last;
      this.readLength := readLength;
      this.flags := flags;
      alignmentQuality := 0;
      cigar := "";
      readCharacters := "";
      qualityScores := "";
      readNumber := 0;
      paired := false;
      mateFirst := 0;
      mateSequenceName := "";
      mateNegativeStrand := false;
    }

    /**
     * Reverse strand exactly when FLAG_READ_REVERSE_STRAND is set: bit 4 of the flags in
     * two's complement, which floor division by 16 exposes for negative values too.
     */
    predicate IsNegativeStrand()
      reads this
    {
      (flags / FlagReadReverseStrand) % 2 == 1
    }

    predicate IsPositiveStrand()
      reads this
    {
      !IsNegativeStrand()
    }

    /** The reference span, ends included. */
    function Length(): int
      reads this
    {
      last - first + 1
    }
  }
}
