# NGSEPcore sequence, index, alignment and transcript core in Dafny

This project models four sequential components of NGSEPcore, a Java toolkit for
next-generation sequencing analysis, and proves properties of the model.

- **Packed alphabet sequences** (`AbstractLimitedSequence`). A DNA or protein string is
  stored as 32-bit words. Each word holds up to `maxHashSize` characters, read as a number
  in base |alphabet| and offset by `Integer.MIN_VALUE`. The model is a class with the
  buffer as an `array<int32>` and the fields `lastHashSize` and `length`. Every operation
  (`setSequence`, `append`, `subSequence`, `charAt`, `setCharAt`, `toString`) is specified
  against the abstract string `Chars()` that the words decode to.
- **Single-sequence FM index** (`FMIndexSingleSequence`). The model builds the suffix
  array, the Burrows–Wheeler transform with a `$` sentinel, the first/last rows of each
  character in the sorted matrix, the sampled tally table and the sampled suffix array.
  It then answers backward search (`getRange`) and recovers text positions by LF walks
  (`search`). The theory module proves the LF-mapping and backward-search identities
  against a naive occurrence predicate `Matches`.
- **Seed-and-extend read alignment** (`ReadsAligner` with `KmerAlignmentCluster` and
  `AlignmentResult`). This covers 15-mer seed selection, the sweep that merges seed hits
  into clusters, and the promotion of a cluster to an alignment. It also covers the
  edit-distance dynamic programme with a free start in the reference, its traceback, and
  run-length CIGAR encoding (the CIGAR field of section 1.4 of the SAM format
  specification). Last come quality filtering with secondary flags, and mate pairing with
  SAM FLAG assignment.
- **Transcript coordinates** (`Transcript`). `setExons` sorts the exons, orders them by
  strand, sums their lengths and records the coding offsets. Genomic and
  transcript-relative positions are mapped both ways, and exons are looked up in either
  coordinate system.

Module layout: `Common`, `PackedCodec`, `PackedText`, `LimitedSequences` (packed
sequences); `SuffixOrder`, `Counting`, `FMTheory`, `FMIndex` (FM index); `Cigar`,
`EditAlignment`, `ReadAlignments`, `KmerSeeds`, `KmerClusters`, `Aligner`,
`AlignmentFilter`, `Pairing` (aligner); `Transcripts` (transcripts).

In these places the model follows the code as written:

- `smithWatermanLocalAlignment` breaks ties in the last DP row toward the rightmost
  column (`>=` at ReadsAligner.java:590), not toward the first minimum.
- `getRange` with a last query character that is neither `$` nor in the text unboxes a
  null `Integer`. The model returns the error value `Err(NullPointer)` rather than
  requiring callers to avoid it. An empty query is `Err(IndexOutOfBounds)`.
- `Transcript.getAbsolutePosition` gives a genomic position for a negative transcript
  position (see Findings). The scan is kept as written in `AbsolutePosition`, and the
  `Transcript` class answers through `CheckedAbsolutePosition`, which returns the
  documented -1 for negative positions.

Other modelling choices:

- Integers are unbounded, and `int32` is used only for the packed words.
- Floating-point comparisons are restated exactly in integers:
  - `prop < minProportionKmers` becomes `numDiff * den < num * total`;
  - `q >= 0.8 * best` becomes `5 * q >= 4 * best`;
  - `Math.round(100.0 * (len - d) / len)` becomes `(200 * (len - d) + len) / (2 * len)`;
  - `Math.round(0.1 * q)` becomes `(q + 5) / 10`.
- `getBitsPerCharacter` uses the integer ⌊log2 size⌋ + 1 in place of `Math.log10` ratios.
- The suffix comparator, which is not part of this model, is taken to be lexicographic,
  with a proper prefix ordered first.
- The exon comparator, which is not part of this model, orders by first and then by last
  position.
- SAM flag values are the standard ones: paired 1, proper 2, reverse strand 16, first of
  pair 64, second of pair 128, secondary 256.

## Model

| member | source | states |
|---|---|---|
| PackedCodec.BitsPerCharacter | src/ngsep/sequences/AbstractLimitedSequence.java:310-312 | bits per character lie between 1 and 32 |
| PackedCodec.MaxHashSize | src/ngsep/sequences/AbstractLimitedSequence.java:221-224 | a word holds between 1 and 32 characters |
| PackedCodec.CharacterBits | src/ngsep/sequences/AbstractLimitedSequence.java:221-224 | 2^(bits-1) <= alphabet size < 2^bits, and maxHashSize * bits <= 32 |
| PackedCodec.WordCapacity | src/ngsep/sequences/AbstractLimitedSequence.java:221-224 | size^maxHashSize <= 2^32, so a full word's value fits in 32 bits |
| PackedCodec.Digit | src/ngsep/sequences/AbstractLimitedSequence.java:237-243 | an alphabet character maps to its index; any other character maps to the default index (-1 when there is none) |
| PackedCodec.CharacterIndexInverse | src/ngsep/sequences/AbstractLimitedSequence.java:272-278 | getAlphabetCharacter of the index of an alphabet character gives the character back, and, when no character repeats, getAlphabetIndex of the character at an index gives the index back |
| PackedCodec.NormalizeIdempotent | src/ngsep/sequences/AbstractLimitedSequence.java:237-243 | the stored string holds only alphabet characters, storing it again gives it back unchanged, and it differs from the input exactly at the characters outside the alphabet |
| PackedCodec.HashValueBound | src/ngsep/sequences/AbstractLimitedSequence.java:232-248 | the base-size value of a run of k characters is below size^k |
| PackedCodec.HashValueFits | src/ngsep/sequences/AbstractLimitedSequence.java:245-247 | a run of at most maxHashSize characters, offset by Integer.MIN_VALUE, fits in an int, so the `number < 0` error cannot fire |
| PackedCodec.DecodeHashValue | src/ngsep/sequences/AbstractLimitedSequence.java:232-266 | decoding a run's value back into k digits gives the run with its characters normalised |
| PackedCodec.WordRoundTrip | src/ngsep/sequences/AbstractLimitedSequence.java:232-266 | getSequence(getHash(s), \|s\|) gives back s for every run of alphabet characters that fits in a word |
| PackedCodec.DecodeInAlphabet | src/ngsep/sequences/AbstractLimitedSequence.java:255-266 | every decoded character is in the alphabet |
| PackedCodec.AlphabetRunIsNormal | src/ngsep/sequences/AbstractLimitedSequence.java:237-243 | a run made only of alphabet characters is stored unchanged |
| PackedCodec.NormalizeAppend | src/ngsep/sequences/AbstractLimitedSequence.java:52-84 | storing s + t stores the stored s followed by the stored t |
| PackedCodec.NormalizeSlice | src/ngsep/sequences/AbstractLimitedSequence.java:112-154 | a slice of an encodable string is encodable and stored as the same slice |
| PackedCodec.GetHash | src/ngsep/sequences/AbstractLimitedSequence.java:232-248 | succeeds exactly when every character of the run has a digit, and then returns the packed word of the run; otherwise fails with IllegalArgument |
| PackedCodec.HashStep | src/ngsep/sequences/AbstractLimitedSequence.java:236-244 | one Horner step of the loop extends the run's value by one digit |
| PackedCodec.GetSequence | src/ngsep/sequences/AbstractLimitedSequence.java:255-266 | the digit-peeling loop returns exactly the decoding of the word, all in the alphabet |
| PackedText.WordCountBounds | src/ngsep/sequences/AbstractLimitedSequence.java:85-90 | the word count is ⌈l/maxHashSize⌉: zero only for the empty string, otherwise (w-1)·m < l <= w·m |
| PackedText.LastSizeBounds | src/ngsep/sequences/AbstractLimitedSequence.java:39-46 | lastHashSize is 0 for the empty string and otherwise between 1 and maxHashSize |
| PackedText.TextSplit | src/ngsep/sequences/AbstractLimitedSequence.java:192-200 | the text of a word range is the text of its two halves concatenated |
| PackedText.TextLength | src/ngsep/sequences/AbstractLimitedSequence.java:192-200 | a buffer of n >= 1 words decodes to (n-1)·maxHashSize + lastHashSize characters |
| PackedText.TextAt | src/ngsep/sequences/AbstractLimitedSequence.java:165-170 | text position q·maxHashSize + r is character r of word q, the relPos/subPos split used by charAt and setCharAt |
| LimitedSequences.LimitedSequence.constructor | src/ngsep/sequences/AbstractLimitedSequence.java:31-33 | a new sequence is empty and valid |
| LimitedSequences.LimitedSequence.GetHashSize | src/ngsep/sequences/AbstractLimitedSequence.java:202-210 | every word before the last holds maxHashSize characters and the last word lastHashSize, always between 1 and maxHashSize; past the buffer the size is 0 |
| LimitedSequences.LimitedSequence.SetSequence | src/ngsep/sequences/AbstractLimitedSequence.java:39-46 | succeeds exactly when the string is encodable, and then the sequence holds the normalised string with length \|s\|; on failure it raises IllegalArgument with length and lastHashSize kept |
| LimitedSequences.LimitedSequence.CalculateHashNumbers | src/ngsep/sequences/AbstractLimitedSequence.java:85-90 | the number of words is ⌈length/maxHashSize⌉ |
| LimitedSequences.LimitedSequence.EncodeAndAppendSequence | src/ngsep/sequences/AbstractLimitedSequence.java:91-103 | words before firstIndex are untouched; it succeeds exactly when the suffix is encodable, and then the new words decode to that suffix and the returned size is the last word's size |
| LimitedSequences.LimitedSequence.Append | src/ngsep/sequences/AbstractLimitedSequence.java:52-84 | succeeds exactly when t is encodable, and then the text becomes old text + t and the length grows by \|t\|; on failure nothing changes |
| LimitedSequences.LimitedSequence.AppendInLastWord | src/ngsep/sequences/AbstractLimitedSequence.java:59-70 | when t fits in the partly filled last word, that word is rewritten in place and the text becomes old text + t |
| LimitedSequences.LimitedSequence.AppendInNewWords | src/ngsep/sequences/AbstractLimitedSequence.java:59-83 | when t needs new words, the junction word is topped up, t's remainder fills a larger buffer, and the text becomes old text + t |
| LimitedSequences.LimitedSequence.GrownBuffer | src/ngsep/sequences/AbstractLimitedSequence.java:71-83 | the copied and extended buffer has ⌈(length+\|t\|)/m⌉ words and decodes to old text + t |
| LimitedSequences.LimitedSequence.SubSequence | src/ngsep/sequences/AbstractLimitedSequence.java:112-154 | fails with IndexOutOfBounds exactly when start is outside [0,length), end is outside [0,length], or end < start; otherwise returns a new sequence over the same alphabet holding characters [start,end) |
| LimitedSequences.LimitedSequence.WordsSpanned | src/ngsep/sequences/AbstractLimitedSequence.java:128-134 | the first and one-past-last word indexes cover exactly the positions start..end-1 |
| LimitedSequences.LimitedSequence.ClippedWord | src/ngsep/sequences/AbstractLimitedSequence.java:135-152 | the piece decoded from word i is the text clipped to [start,end) within that word |
| LimitedSequences.LimitedSequence.AppendClippedWord | src/ngsep/sequences/AbstractLimitedSequence.java:135-152 | after the loop step, the answer holds characters [start, min(end, m·(i+1))) |
| LimitedSequences.LimitedSequence.CharAt | src/ngsep/sequences/AbstractLimitedSequence.java:163-171 | succeeds exactly for 0 <= p < length, returning character p of the text; otherwise IndexOutOfBounds |
| LimitedSequences.LimitedSequence.SetCharAt | src/ngsep/sequences/AbstractLimitedSequence.java:177-190 | a character outside the alphabet changes nothing; otherwise, for p inside the text, only character p changes and becomes c; for p outside it fails with IndexOutOfBounds and the text is kept |
| LimitedSequences.LimitedSequence.ToString | src/ngsep/sequences/AbstractLimitedSequence.java:192-200 | returns the abstract text, of length `length` |
| LimitedSequences.CeilIsWordCount | src/ngsep/sequences/AbstractLimitedSequence.java:85-90 | the integer formula in calculateHashNumbers equals the word count |
| LimitedSequences.AppendCases | src/ngsep/sequences/AbstractLimitedSequence.java:52-84 | appending never shrinks the word count; the case split in append (same last word, top-up then new words, or new words only) gives the right new counts and last sizes |
| LimitedSequences.SubSequenceRange | src/ngsep/sequences/AbstractLimitedSequence.java:112-154 | the words spanned by [start,end) decode to a text holding that slice |
| SuffixOrder.LtIrreflexive | src/ngsep/sequences/FMIndexSingleSequence.java:90-97 | no suffix is before itself in the suffix order |
| SuffixOrder.LtTransitive | src/ngsep/sequences/FMIndexSingleSequence.java:90-97 | the suffix order is transitive |
| SuffixOrder.LtTotal | src/ngsep/sequences/FMIndexSingleSequence.java:90-97 | any two strings are equal or ordered one way |
| SuffixOrder.SortSorted | src/ngsep/sequences/FMIndexSingleSequence.java:90-97 | the insertion sort orders suffixes strictly increasing |
| SuffixOrder.Sort | src/ngsep/sequences/FMIndexSingleSequence.java:90-97 | sorting yields text positions and is a permutation of its input |
| SuffixOrder.SortRangeIsSuffixArray | src/ngsep/sequences/FMIndexSingleSequence.java:90-97 | sorting 0..n-1 by suffix gives a suffix array |
| Counting.CountWherePerm | src/ngsep/sequences/FMIndexSingleSequence.java:115-166 | counting a predicate over a permutation gives the same count |
| FMTheory.RowsOfSuffixArray | src/ngsep/sequences/FMIndexSingleSequence.java:99-113 | the sentinel row followed by the suffix array lists every position once in strictly increasing suffix order |
| FMTheory.RowIsRank | src/ngsep/sequences/FMIndexSingleSequence.java:99-113 | a row's index is the number of suffixes smaller than its suffix |
| FMTheory.BwtCount | src/ngsep/sequences/FMIndexSingleSequence.java:99-113 | every character occurs in the BWT as often as in the text |
| FMTheory.CharBlock | src/ngsep/sequences/FMIndexSingleSequence.java:115-144 | the rows whose suffix starts with c are exactly 1+smaller(c) .. smaller(c)+count(c) |
| FMTheory.LFMapping | src/ngsep/sequences/FMIndexSingleSequence.java:273-284 | the row of the suffix one position to the left is 1 + smaller(c) + the rank of c in the BWT above the row |
| FMTheory.BackwardStep | src/ngsep/sequences/FMIndexSingleSequence.java:221-243 | one backward-search step maps the rows matching q to exactly the rows matching c·q |
| FMTheory.BackwardStepSound | src/ngsep/sequences/FMIndexSingleSequence.java:221-243 | every row matching c·q lies inside the new range |
| FMTheory.BackwardStepComplete | src/ngsep/sequences/FMIndexSingleSequence.java:221-243 | every row inside the new range matches c·q |
| FMTheory.NoRowNoMatch | src/ngsep/sequences/FMIndexSingleSequence.java:237-239 | an emptied range means the query occurs nowhere |
| FMTheory.MatchesCons | src/ngsep/sequences/FMIndexSingleSequence.java:221-243 | the occurrence predicate unfolds one character at a time |
| FMTheory.ColumnSorted | src/ngsep/sequences/FMIndexSingleSequence.java:115-144 | the first column of the sorted matrix is non-decreasing |
| FMTheory.ColumnChars | src/ngsep/sequences/FMIndexSingleSequence.java:115-144 | a character appears in the first column exactly when it appears in the text |
| FMTheory.BlockStart | src/ngsep/sequences/FMIndexSingleSequence.java:136-140 | where the first column changes character, the row equals the count of smaller characters |
| FMTheory.BlockEnd | src/ngsep/sequences/FMIndexSingleSequence.java:143 | the largest character's block ends at row n |
| FMIndex.FMIndexSingleSequence.constructor | src/ngsep/sequences/FMIndexSingleSequence.java:63-68 | a built index is valid for the given text, name, tally distance and suffix fraction |
| FMIndex.FMIndexSingleSequence.Calculate | src/ngsep/sequences/FMIndexSingleSequence.java:81-89 | building leaves every structure consistent with the text |
| FMIndex.FMIndexSingleSequence.BuildSuffixArray | src/ngsep/sequences/FMIndexSingleSequence.java:90-97 | returns a suffix array: a permutation of 0..n-1 in increasing suffix order |
| FMIndex.FMIndexSingleSequence.BuildBWT | src/ngsep/sequences/FMIndexSingleSequence.java:99-113 | the array is the BWT: entry 0 is the last text character, entry j is the character before suffix SA[j-1], or `$` for position 0 |
| FMIndex.FMIndexSingleSequence.BuildAlphabetAndCounts | src/ngsep/sequences/FMIndexSingleSequence.java:115-144 | the alphabet is the text's distinct characters in increasing order; `$` has row 0; each character's first and last rows bound exactly its block in the sorted matrix (last row inclusive, see Findings) |
| FMIndex.FMIndexSingleSequence.BuildTally | src/ngsep/sequences/FMIndexSingleSequence.java:145-166 | there are ⌈(n+1)/d⌉ tally rows, and row k counts each alphabet character in bwt[0..k·d] inclusive |
| FMIndex.FMIndexSingleSequence.CreatePartialSuffixArray | src/ngsep/sequences/FMIndexSingleSequence.java:169-181 | row i+1 is sampled, with value SA[i], exactly when SA[i] is a multiple of the suffix fraction |
| FMIndex.FMIndexSingleSequence.GetTallyOf | src/ngsep/sequences/FMIndexSingleSequence.java:246-271 | returns the count of c in bwt[0..row] inclusive |
| FMIndex.FMIndexSingleSequence.CountForward | src/ngsep/sequences/FMIndexSingleSequence.java:253-260 | walking down from the sample above gives the inclusive count |
| FMIndex.FMIndexSingleSequence.CountBackward | src/ngsep/sequences/FMIndexSingleSequence.java:261-269 | walking up from the sample below gives the inclusive count |
| FMIndex.FMIndexSingleSequence.LfMapping | src/ngsep/sequences/FMIndexSingleSequence.java:273-277 | gives smaller(c) + rank of c; when bwt[row] is c, that is the row of the suffix one position to the left |
| FMIndex.FMIndexSingleSequence.LfMappingRow | src/ngsep/sequences/FMIndexSingleSequence.java:279-284 | maps a row to the row of the suffix one position to the left |
| FMIndex.FMIndexSingleSequence.GetRange | src/ngsep/sequences/FMIndexSingleSequence.java:221-243 | an empty query is IndexOutOfBounds; an unknown last character is the null-unboxing error; no range means the query does not occur; a range holds exactly the rows whose suffix starts with the query |
| FMIndex.FMIndexSingleSequence.BackwardSearch | src/ngsep/sequences/FMIndexSingleSequence.java:230-242 | from the block of the last character, the loop ends with the exact row range of the query or proves the query absent |
| FMIndex.FMIndexSingleSequence.LocateRow | src/ngsep/sequences/FMIndexSingleSequence.java:192-212 | the LF walk to a sampled row terminates and recovers the text position of the row |
| FMIndex.FMIndexSingleSequence.Search | src/ngsep/sequences/FMIndexSingleSequence.java:183-219 | every returned region is an occurrence spanning the query length, every occurrence is returned, and no position twice; the error cases are those of getRange |
| FMIndex.TallyRowsCover | src/ngsep/sequences/FMIndexSingleSequence.java:145-166 | tally row k exists exactly when k·d is a BWT row |
| FMIndex.LastRowsAsWrittenOverreaches | src/ngsep/sequences/FMIndexSingleSequence.java:135-143 | on text "AC", the last rows as written put 'A' at row 2, so query "A" gets a range holding row 2, which is no occurrence |
| FMIndex.LfRow | src/ngsep/sequences/FMIndexSingleSequence.java:279-284 | the LF formula over the built BWT lands on the row of the previous position |
| FMIndex.SampledRow | src/ngsep/sequences/FMIndexSingleSequence.java:194-196 | a sampled row's value is its text position |
| FMIndex.UnsampledRow | src/ngsep/sequences/FMIndexSingleSequence.java:198-211 | an unsampled row is never the `$` row, so position 0 being sampled ends every LF walk |
| FMIndex.LastCharMissing | src/ngsep/sequences/FMIndexSingleSequence.java:223-229 | a last character outside the text means no occurrence |
| FMIndex.FirstBlock | src/ngsep/sequences/FMIndexSingleSequence.java:223-229 | the first and last rows of the last character are exactly its occurrences |
| FMIndex.RangeStep | src/ngsep/sequences/FMIndexSingleSequence.java:230-240 | the update of rowS and rowF gives the exact range of the longer suffix of the query, or proves absence when it empties |
| FMIndex.NoMatchThrough | src/ngsep/sequences/FMIndexSingleSequence.java:230-232 | a query character outside the alphabet means no occurrence |
| FMIndex.SearchComplete | src/ngsep/sequences/FMIndexSingleSequence.java:187-216 | one region per row of the range lists every occurrence, each once |
| Cigar.EncodeRuns | src/ngsep/alignments/ReadsAligner.java:665-686 | the loop writes the rendering of the run-length encoding of the path |
| Cigar.RunLengthExpands | src/ngsep/alignments/ReadsAligner.java:665-686 | expanding the runs gives back the path |
| Cigar.RunLengthWellFormed | src/ngsep/alignments/ReadsAligner.java:665-686 | runs have positive counts and adjacent runs have different operations |
| Cigar.RunLengthOfExpand | src/ngsep/alignments/ReadsAligner.java:665-686 | the well-formed encoding of a path is unique: encoding the expansion of well-formed runs gives them back |
| Cigar.ParseRender | src/ngsep/alignments/ReadsAligner.java:665-686 | parsing a rendered CIGAR string gives back its runs |
| EditAlignment.ScoreIsOptimal | src/ngsep/alignments/ReadsAligner.java:566-595 | no alignment of the query prefix against a subject window ending at j costs less than the DP score |
| EditAlignment.AlignsConsumes | src/ngsep/alignments/ReadsAligner.java:598-628 | M+I operations consume the query part and M+D operations the subject part |
| EditAlignment.DistanceIsOptimal | src/ngsep/alignments/ReadsAligner.java:586-595 | the minimum of the last row bounds the cost of every alignment of the whole query |
| EditAlignment.BestColumnFacts | src/ngsep/alignments/ReadsAligner.java:586-595 | the chosen column has the minimum last-row score, and every later column is strictly worse (ties go right) |
| EditAlignment.AlignmentResult.constructor | src/ngsep/alignments/ReadsAligner.java:655-660 | a new result is empty with zero indexes and distance |
| EditAlignment.AlignmentResult.AddBacktrack | src/ngsep/alignments/ReadsAligner.java:661-663 | prepends the decision to the path and keeps the other fields |
| EditAlignment.AlignmentResult.GetCigarString | src/ngsep/alignments/ReadsAligner.java:665-686 | returns the rendering of the run-length encoding of the path |
| EditAlignment.FillScores | src/ngsep/alignments/ReadsAligner.java:566-595 | every cell holds the score recurrence (row 0 is 0, column 0 is i, then min of diagonal+mismatch, up+1, left+1), and the last-row minimum is found |
| EditAlignment.CellScore | src/ngsep/alignments/ReadsAligner.java:580-588 | one cell is computed from its three neighbours by the recurrence |
| EditAlignment.FillRow | src/ngsep/alignments/ReadsAligner.java:569-594 | after row i every cell up to row i holds its score, and on the last row the rightmost minimum is tracked |
| EditAlignment.TraceToEdge | src/ngsep/alignments/ReadsAligner.java:598-622 | the traceback walks to row 0 or column 0 along an optimal path |
| EditAlignment.TraceBackStep | src/ngsep/alignments/ReadsAligner.java:605-620 | one traceback step follows a neighbour whose score explains the cell and strictly shrinks i+j |
| EditAlignment.TraceToTop | src/ngsep/alignments/ReadsAligner.java:624-627 | the read characters left above the first column are prepended as insertions: all of the read for an empty subject, otherwise a path from row 0 that keeps its cost plus the cell score at the distance |
| EditAlignment.SmithWatermanLocalAlignment | src/ngsep/alignments/ReadsAligner.java:564-629 | an empty subject gives distance \|q\|+1; otherwise the distance is the last-row minimum at its rightmost column, and the path is an alignment of the query to subject[start..last] whose cost is that distance |
| Aligner.QualityBounds | src/ngsep/alignments/ReadsAligner.java:545-560 | an accepted alignment's quality lies in [50,100] and is 100 at distance 0 |
| Aligner.QualityMonotone | src/ngsep/alignments/ReadsAligner.java:552-560 | a larger distance never gives a higher quality |
| Aligner.AlignToWindow | src/ngsep/alignments/ReadsAligner.java:541-561 | returns null exactly when the distance exceeds half the query length; otherwise an alignment at the DP start and end with CIGAR of the path and quality round(100·(len-d)/len) |
| Aligner.CreateNewAlignmentFromConsistentKmers | src/ngsep/alignments/ReadsAligner.java:523-562 | null below the k-mer proportion; a consistent cluster with its first and last k-mers gives `<len>M` with quality 100; otherwise the window is aligned (with the +10 on last discarded) |
| ReadAlignments.ReadAlignment.constructor | src/ngsep/alignments/ReadsAligner.java:555 | a new alignment has the given position and flags and no pairing data |
| KmerSeeds.SelectKmers | src/ngsep/alignments/ReadsAligner.java:465-480 | returns the DNA 15-mers at offsets 0, 15, 30, … while they fit, plus one at n-15 when that passes the last loop offset |
| KmerSeeds.ConsecutiveKmers | src/ngsep/alignments/ReadsAligner.java:467-475 | the loop keeps the DNA 15-mers at every multiple of 15 that fits and returns the last offset |
| KmerSeeds.WindowsFitInOrder | src/ngsep/alignments/ReadsAligner.java:465-480 | window starts are strictly increasing and each window fits in the read |
| KmerSeeds.ShortReadHasNoWindow | src/ngsep/alignments/ReadsAligner.java:465-480 | a read shorter than 15 yields no window |
| KmerSeeds.WindowsCoverRead | src/ngsep/alignments/ReadsAligner.java:465-480 | every position of a read of length 15 or more lies in some window |
| KmerSeeds.KeptAreWindows | src/ngsep/alignments/ReadsAligner.java:469-476 | every kept k-mer is the DNA text of a window at its start |
| KmerSeeds.KeptComplete | src/ngsep/alignments/ReadsAligner.java:469-476 | every window whose text passes the DNA check is kept |
| KmerClusters.AbsorbedSpan | src/ngsep/alignments/ReadsAligner.java:804-818 | absorbing a hit sets first and last to the minimum and maximum of the two spans |
| KmerClusters.AbsorbedConsistency | src/ngsep/alignments/ReadsAligner.java:804-818 | consistency stays true only while every hit projects to the same span, and never returns once lost |
| KmerClusters.AbsorbedCount | src/ngsep/alignments/ReadsAligner.java:804-834 | the set of k-mer numbers gains the new one, so the distinct count grows by one unless the number is repeated |
| KmerClusters.AbsorbedKeepsInvariant | src/ngsep/alignments/ReadsAligner.java:753-834 | absorbing an overlapping hit keeps the cluster invariant |
| KmerClusters.KmerAlignmentCluster.constructor | src/ngsep/alignments/ReadsAligner.java:764-773 | a new cluster projects its hit to a span of exactly the query length and is consistent |
| KmerClusters.KmerAlignmentCluster.AddAlignment | src/ngsep/alignments/ReadsAligner.java:804-819 | returns false and changes nothing when the projected span does not overlap; otherwise appends the hit and absorbs it |
| KmerClusters.ClusterSequenceKmerAlns | src/ngsep/alignments/ReadsAligner.java:510-521 | the clusters, in order, hold every hit exactly once in input order, with at least one cluster per non-empty input; each cluster is in the state of being opened with its first hit and absorbing the rest in order, every later hit of a cluster overlapped the span grown before it, and each cluster after the first was opened by a hit that missed the final span of the cluster before |
| KmerClusters.Place | src/ngsep/alignments/ReadsAligner.java:514-518 | one step of the sweep appends the hit to the clusters' hits and keeps that shape, joining the last cluster or opening one new cluster |
| KmerClusters.ChainedInvariant | src/ngsep/alignments/ReadsAligner.java:764-819 | a cluster opened with one hit and grown by overlapping hits spans at least the read, exactly the read while all hits agree, and has one hit per distinct k-mer unless a k-mer repeats |
| AlignmentFilter.SortOrderIsPermutation | src/ngsep/alignments/ReadsAligner.java:632-637 | the sort order lists each index exactly once |
| AlignmentFilter.SortOrderIsSorted | src/ngsep/alignments/ReadsAligner.java:632-637 | the sort order is by descending quality |
| AlignmentFilter.SortOrderIsStable | src/ngsep/alignments/ReadsAligner.java:632-637 | equal qualities keep their input order |
| AlignmentFilter.KeptPositionsExact | src/ngsep/alignments/ReadsAligner.java:638-648 | the kept positions are exactly those with quality at least 0.8 of the best, in order |
| AlignmentFilter.HeadSurvives | src/ngsep/alignments/ReadsAligner.java:638-648 | the best alignment is always kept |
| AlignmentFilter.MarkSecondaries | src/ngsep/alignments/ReadsAligner.java:641-648 | the survivors are collected and every survivor after the head gains the secondary flag |
| AlignmentFilter.RescaleKept | src/ngsep/alignments/ReadsAligner.java:649-651 | each survivor's quality becomes round(q/10) and the flags stay |
| AlignmentFilter.FilterAlignments | src/ngsep/alignments/ReadsAligner.java:630-653 | sorts stably by descending quality, keeps those within 0.8 of the head, marks later survivors secondary, and rescales qualities only when more than one survives |
| Pairing.PairIsInnie | src/ngsep/alignments/ReadsAligner.java:300-322 | two alignments pair exactly when they are on the same sequence in innie orientation, and with onlyProper also span between 1 and 500 |
| Pairing.PairSymmetric | src/ngsep/alignments/ReadsAligner.java:300-322 | the pairing predicate is symmetric |
| Pairing.ProperIsPair | src/ngsep/alignments/ReadsAligner.java:300-322 | a proper pair is a pair |
| Pairing.PairFlagsBits | src/ngsep/alignments/ReadsAligner.java:324-339 | pair flags have PAIRED, exactly one of FIRST/SECOND, PROPER as asked, and no strand or secondary bit |
| Pairing.PairingClearsStrand | src/ngsep/alignments/ReadsAligner.java:336-337 | replacing the flags with pair flags makes the alignment read as positive strand |
| Pairing.SetMateInfo | src/ngsep/alignments/ReadsAligner.java:377-382 | copies the mate's position, sequence and its mate-strand field |
| Pairing.SetFlags | src/ngsep/alignments/ReadsAligner.java:324-339 | both alignments become paired, each records the other as mate, and the flags become PAIRED+FIRST/SECOND (+PROPER) |
| Pairing.CandidatesExact | src/ngsep/alignments/ReadsAligner.java:277-285 | the candidates are exactly the unpaired alignments that pair with an unpaired aln1 |
| Pairing.PairedHasNoCandidates | src/ngsep/alignments/ReadsAligner.java:279 | an already paired aln1 has no candidates |
| Pairing.CollectCandidates | src/ngsep/alignments/ReadsAligner.java:277-285 | the loop collects exactly the candidates in order |
| Pairing.FindParForAlignment | src/ngsep/alignments/ReadsAligner.java:274-296 | no candidate marks aln1 paired and returns null with the rest unchanged; one candidate pairs with it; several pair with the picked element of all of alns2 |
| Pairing.CandidatesAtTurn | src/ngsep/alignments/ReadsAligner.java:264-285 | at the i-th turn of findPairs, an alignment of alns2 is a candidate exactly when it was unpaired before findPairs began, no earlier pair took it as mate, alns1[i] was unpaired before and not met earlier in alns1, and the two faced each other by their placements before findPairs began |
| Pairing.ChosenStep | src/ngsep/alignments/ReadsAligner.java:264-295 | the pair a turn adds is none for no candidate, the single candidate, or the picked element of alns2 for several |
| Pairing.Turn | src/ngsep/alignments/ReadsAligner.java:263-268 | one iteration of the findPairs loop keeps the record of candidates exact, the pairs equal to those chosen from it, every examined alignment paired, an alignment of alns2 paired exactly when it was before or became a mate, the placements of the unpaired and of the unexamined alignments unchanged, and every pair's flags and mate fields set |
| Pairing.SeenExactEach | src/ngsep/alignments/ReadsAligner.java:263-268 | the record built turn by turn states, for every turn, exactly which alignments were candidates |
| Pairing.FindPairs | src/ngsep/alignments/ReadsAligner.java:262-272 | min(\|alns1\|, 100) alignments take a turn; the pairs returned are exactly those chosen from the candidates found, in order (none, the single one, or the random pick for several); the candidates of the i-th turn are exactly the alignments of alns2 that were unpaired when findPairs began, are not yet a mate of an earlier pair, and face alns1[i] by their placement at the start, provided alns1[i] was unpaired at the start and is not a repeat of an earlier element; every examined alignment ends paired; every pair has the pair flags and each first alignment records its mate's position |
| Transcripts.SortByPosition | src/ngsep/transcriptome/Transcript.java:75-80 | the sorted exons are a permutation of the input |
| Transcripts.SortByPositionSorted | src/ngsep/transcriptome/Transcript.java:75-80 | the sorted exons are ordered by position |
| Transcripts.TranscriptOrderOfDisjoint | src/ngsep/transcriptome/Transcript.java:79-81 | transcript order runs 5' to 3': increasing on the positive strand, decreasing on the negative |
| Transcripts.TranscriptOrderIndex | src/ngsep/transcriptome/Transcript.java:79-81 | transcript order is the sorted list, reversed on the negative strand |
| Transcripts.TotalLengthAppend | src/ngsep/transcriptome/Transcript.java:82-92 | the length of a concatenation is the sum of lengths |
| Transcripts.CodingStartAt | src/ngsep/transcriptome/Transcript.java:83-91 | the coding start is the offset of the first coding exon |
| Transcripts.CodingEndAt | src/ngsep/transcriptome/Transcript.java:83-91 | the coding end is the offset of the last base of the last coding exon |
| Transcripts.CodingNone | src/ngsep/transcriptome/Transcript.java:83-91 | with no coding exon both offsets are -1 |
| Transcripts.ScanExons | src/ngsep/transcriptome/Transcript.java:82-92 | the accumulation loop returns the total length, the coding offsets and whether any exon is coding |
| Transcripts.AbsoluteInExon | src/ngsep/transcriptome/Transcript.java:126-139 | a relative position inside exon k maps to first+offset on the positive strand and last-offset on the negative, inside that exon |
| Transcripts.AbsoluteBeyondLength | src/ngsep/transcriptome/Transcript.java:126-139 | a relative position at or past the length maps to -1 |
| Transcripts.AbsoluteNegativeAsWritten | src/ngsep/transcriptome/Transcript.java:126-139 | as written, transcript position -1 on a positive-strand transcript with the single exon [10,20] maps to 9, a position in no exon |
| Transcripts.CheckedAbsoluteContract | src/ngsep/transcriptome/Transcript.java:120-139 | the corrected getAbsolutePosition is -1 for a position that is negative or at least the length, and otherwise lies inside the exon that holds the transcript position |
| Transcripts.RelativeOutsideExons | src/ngsep/transcriptome/Transcript.java:100-119 | a genomic position in no exon maps to -1 |
| Transcripts.RelativeOfAbsolute | src/ngsep/transcriptome/Transcript.java:100-139 | for disjoint exons, relative(absolute(r)) == r on [0,length) |
| Transcripts.AbsoluteOfRelative | src/ngsep/transcriptome/Transcript.java:100-139 | for disjoint exons, absolute(relative(p)) == p for every exon position, and relative(p) lies in [0,length) |
| Transcripts.ExonAtSpan | src/ngsep/transcriptome/Transcript.java:197-207 | a relative position inside exon k's span finds exon k |
| Transcripts.ExonOutsideTranscript | src/ngsep/transcriptome/Transcript.java:197-207 | a negative position or one past the length finds no exon |
| Transcripts.ExonScanFinds | src/ngsep/transcriptome/Transcript.java:214-226 | the lookup finds nothing exactly when no exon contains the position, and otherwise the first exon containing it |
| Transcripts.ExonsByAbsolute | src/ngsep/transcriptome/Transcript.java:233-241 | exactly the exons intersecting the closed interval are returned |
| Transcripts.ExonsByRelativeHas | src/ngsep/transcriptome/Transcript.java:254-265 | every exon whose relative span meets the interval is returned |
| Transcripts.ExonsByRelativeOnly | src/ngsep/transcriptome/Transcript.java:254-265 | only exons whose relative span meets the interval are returned |
| Transcripts.Transcript.constructor | src/ngsep/transcriptome/Transcript.java:62-70 | a new transcript has the given location and strand, no exons and is non-coding |
| Transcripts.Transcript.SetExons | src/ngsep/transcriptome/Transcript.java:75-93 | exons become a sorted permutation of the input; transcript order, length and coding offsets are recomputed; coding becomes true if any exon is coding |
| Transcripts.Transcript.TranscriptRoundTrip | src/ngsep/transcriptome/Transcript.java:100-139 | on a transcript with disjoint exons, getRelativeTranscriptPosition(getAbsolutePosition(r)) == r, and getExon(r) contains that genomic position |
| Transcripts.Transcript.BeyondTranscript | src/ngsep/transcriptome/Transcript.java:126-139 | past the transcript, getAbsolutePosition is -1 and getExon is null |
| Transcripts.Transcript.BeforeTranscript | src/ngsep/transcriptome/Transcript.java:120-139 | a negative transcript position has no genomic position (-1) and getExon returns null |
| Transcripts.Transcript.GenomeRoundTrip | src/ngsep/transcriptome/Transcript.java:100-139 | an exon position maps into [0,length()) and back to itself |
| Transcripts.Transcript.OutsideExons | src/ngsep/transcriptome/Transcript.java:100-119 | a genomic position in no exon maps to -1 |

## Left out

- `main`, both `alignReads` overloads and `loadTRF`: file I/O, output writers, logging and timing.
- `exactSearch`, `searchKmers`, `clusterKmerAlignments`, `kmerBasedInexactSearchAlgorithm`, `alignRead` and `addPairAlignments`: they depend on `ReferenceGenomeFMIndex` and `GenomicRegionSortedCollection`, which are not part of this model. Their results enter as inputs (per-sequence hits), and reference lookups are function parameters.
- `getRandomReadAlignment`, `readMappedmateUnMapped` and `processUnMapped`: they use `java.util.Random`. The random choice in `findParForAlignment` is the parameter `pick`.
- Floating point is restated as exact integer comparisons and roundings (see above). `Math.log10` in `getBitsPerCharacter` becomes the integer log2.
- `SuffixCharSequencePositionComparator`, `DNAMaskedSequence`, `ProteinTranslator`, `Exon` and the `ReadAlignment` class are not part of this model. Their assumed behaviour is listed above.
- Reflection (`getClass().newInstance()` in `subSequence`) and `Serializable`: the new sequence is a fresh object of the same model class.
- `Transcript` plain getters and setters, `getReferenceBase`, `setReferenceBase`, `getReference` and `getProteinSequence`: they depend on the DNA complement and protein translation, which are not part of this model.
- `ThreadPoolManager` (a concurrent executor) and `EdgesFinder` (getter/setter holders).
- 32-bit overflow of `int` arithmetic is not modelled, except for the packed words. There, the offset by `Integer.MIN_VALUE` is explicit and proved never to overflow.
- `lastHashSize` is a `byte` in the source. It is a `nat` here, proved to stay between 0 and 32.
- FMIndex.FMIndexSingleSequence.constructor: requires a non-empty text without `$` and positive tallyDistance and suffixFraction. The source fails on an empty text (`sequence.charAt(sequence.length()-1)` in buildBWT, FMIndexSingleSequence.java:102) and on a zero distance (division at :149 and modulo at :176), and it silently builds a corrupt index for a text containing `$`, because buildAlphabetAndCounts starts from `$` (:119-139). These cases are excluded because callers index non-empty DNA with the positive default distances.
- FMIndex.FMIndexSingleSequence.Calculate: carries the constructor's precondition for the same reasons: its only caller is the constructor.
- FMIndex.FMIndexSingleSequence.BuildTally: the exception for a BWT character missing from the alphabet is a precondition. It is unreachable, because the alphabet is built from the same text.
- FMIndex.FMIndexSingleSequence.LfMapping: the arithmetic is modelled exactly. The LF property is stated only when bwt[row] is the character asked for, which is how `search` uses it.
- Transcripts.ExonsByAbsolute: states membership in both directions, not that the result keeps list order (it is a filter of the list, so it does).
- Transcripts.Transcript.GetExons: the relative-interval lookup is stated through ExonsByRelativeHas and ExonsByRelativeOnly (membership in both directions), not its order.
- Transcripts.RelativeOfAbsolute: the inverse property is proved for exons that do not overlap. With overlapping exons the source's first-match scan has no inverse.
- Pairing.FindPairs: the random choice of `getRandomReadAlignment` is the parameter `pick`; the model states which element of alns2 each pick selects, not how the random generator draws it.

## Findings

| source | as written | input that shows it | evidently intended | confidence | as-written member | corrected member |
|---|---|---|---|---|---|---|
| src/ngsep/sequences/FMIndexSingleSequence.java:137 | `lastRowsInMatrix.put(lastC, i+1)` stores, for every character except the largest, the first row of the next character, one past the character's own block; `getRange` treats it as an inclusive last row | text "AC", query "A": the range is rows [1,2], and row 2 is the suffix "C", so `search` reports a false hit at position 1 | store the inclusive last row of each character's block (`i` at that point), so the range holds only matching rows | not executed | FMIndex.LastRowsAsWrittenOverreaches | FMIndex.FMIndexSingleSequence.BuildAlphabetAndCounts |
| src/ngsep/transcriptome/Transcript.java:126-139 | `getAbsolutePosition` has no test for a negative position, although its documentation (lines 120-124) promises -1 for one: the first exon's test `relativeTranscriptPosition < e.length()` accepts it | exons [10,20] on the positive strand, position -1: the result is 9, a base before the transcript | return -1 for a negative position, as `getExon` does | not executed | Transcripts.AbsoluteNegativeAsWritten | Transcripts.CheckedAbsoluteContract |
