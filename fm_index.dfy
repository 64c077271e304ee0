/**
 * FMIndexSingleSequence: the FM-index of one sequence. The constructor sorts the suffixes,
 * builds the BWT, the boundary rows of each character in the first column, the sampled
 * tally of BWT ranks and the sampled suffix array; search finds every occurrence of a query
 * by backward search over the rows and walks LF mappings to a sampled row to place each one.
 */
module FMIndex {
  import opened Common
  import opened Counting
  import opened SuffixOrder
  import opened FMTheory

  /** Rows S..F, a non-empty range, are exactly the rows whose suffixes start with q. */
  ghost predicate RowRange(s: seq<char>, e: seq<nat>, q: seq<char>, S: int, F: int) {
    0 <= S <= F < |e| && forall r :: 0 <= r < |e| ==> (S <= r <= F <==> Matches(s, q, e[r]))
  }

  /** q occurs nowhere in the terminated text. */
  ghost predicate Absent(s: seq<char>, q: seq<char>) {
    forall x: nat :: !Matches(s, q, x)
  }

  /** GenomicRegionImpl as search creates it: the sequence name and the span first..last. */
  datatype GenomicRegion = GenomicRegion(sequenceName: string, first: int, last: int)

  /** How many tally records buildTally keeps for `len` BWT rows: one every `d` rows. */
  function TallyRows(len: nat, d: nat): nat
    requires d >= 1
  {
    len / d + (if len % d > 0 then 1 else 0)
  }

  /** Sizes the tally table as buildTally does, before it fills it. */
  method CountTallyRows(len: nat, d: nat) returns (n: nat)
    requires d >= 1
    ensures n == TallyRows(len, d)
  {
    n := len / d;
    if len % d > 0 {
      n := n + 1;
    }
  }

  /** The tally record at or above row: row / d. */
  method RecordAbove(row: nat, d: nat) returns (a: nat)
    requires d >= 1
    ensures a * d <= row < a * d + d == (a + 1) * d
  {
    a := row / d;
    DivBounds(row, d);
    assert (a + 1) * d == a * d + d;
  }

  lemma DivBounds(x: nat, d: nat)
    requires d >= 1
    ensures 0 <= x / d && (x / d) * d <= x < (x / d) * d + d
  {
    var q, r := x / d, x % d;
    assert x == q * d + r;
  }

  /** Record k exists exactly when its row k * d is a row of the BWT. */
  lemma TallyRowsCover(len: nat, d: nat, k: nat)
    requires d >= 1
    ensures k < TallyRows(len, d) <==> k * d < len
  {
    var q, r := len / d, len % d;
    DivBounds(len, d);
    if k <= q - 1 {
      MulMono(k, q - 1, d, d);
      assert (q - 1) * d == q * d - d;
    } else if k == q {
    } else {
      MulMono(q + 1, k, d, d);
      assert (q + 1) * d == q * d + d;
    }
  }

  /** Row i is recorded exactly when i is a multiple of d, as record number TallyRows(i, d). */
  lemma TallyRowsStep(i: nat, d: nat)
    requires d >= 1
    ensures TallyRows(i + 1, d) == TallyRows(i, d) + (if i % d == 0 then 1 else 0)
    ensures i % d == 0 ==> TallyRows(i, d) * d == i
  {
    var q, r := i / d, i % d;
    DivBounds(i, d);
    assert i == q * d + r;
    if r + 1 < d {
      DivModStep(i + 1, q, d, r + 1);
    } else {
      assert i + 1 == (q + 1) * d + 0;
      DivModStep(i + 1, q + 1, d, 0);
    }
  }

  /** The alphabet string: the distinct characters of s, strictly increasing. */
  ghost predicate IsAlphabetOf(s: seq<char>, alphabet: seq<char>) {
    (forall i, j :: 0 <= i < j < |alphabet| ==> alphabet[i] < alphabet[j])
    && (forall c :: c in alphabet <==> c in s)
  }

  /**
   * The boundary rows of every character in the first column: the sentinel on row 0 and
   * each character c of s on rows 1 + Smaller(s, c) .. Smaller(s, c) + Count(s, c).
   */
  ghost predicate BoundaryRows(s: seq<char>, firstRows: map<char, nat>, lastRows: map<char, nat>) {
    (forall c :: c in firstRows <==> c == Sentinel || c in s)
    && (forall c :: c in lastRows <==> c == Sentinel || c in s)
    && Sentinel in firstRows && firstRows[Sentinel] == 0
    && Sentinel in lastRows && lastRows[Sentinel] == 0
    && (forall c :: c in s ==> c in firstRows && firstRows[c] == 1 + Smaller(s, c))
    && (forall c :: c in s ==> c in lastRows && lastRows[c] == Smaller(s, c) + Count(s, c))
  }

  /** Record k holds, for each alphabet character, its occurrences in the BWT rows 0..k * d. */
  ghost predicate IsTally(b: seq<char>, alphabet: seq<char>, d: nat, tally: seq<seq<nat>>)
    requires d >= 1
  {
    |tally| == TallyRows(|b|, d)
    && (forall k :: 0 <= k < |tally| ==> |tally[k]| == |alphabet| && k * d < |b|)
    && (forall k, i :: 0 <= k < |tally| && 0 <= i < |alphabet| ==>
          k * d < |b| && tally[k][i] == Count(b[..k * d + 1], alphabet[i]))
  }

  /** The sampled rows: row r + 1 is kept, with its start, when sa[r] is a multiple of f. */
  ghost predicate IsPartialSuffixArray(sa: seq<nat>, f: nat, psa: map<nat, nat>)
    requires f >= 1
  {
    (forall r :: r in psa <==> 1 <= r <= |sa| && sa[r - 1] % f == 0)
    && (forall r :: r in psa ==> 1 <= r <= |sa| && psa[r] == sa[r - 1])
  }

  /** Every structure of the index as built for the text s with suffix array sa. */
  ghost predicate IndexStructures(s: seq<char>, sa: seq<nat>, b: seq<char>, alphabet: seq<char>,
                                  firstRows: map<char, nat>, lastRows: map<char, nat>,
                                  d: nat, tally: seq<seq<nat>>, f: nat, psa: map<nat, nat>) {
    ValidText(s) && d >= 1 && f >= 1
    && IsSuffixArray(s, sa)
    && b == Bwt(s, Rows(s, sa))
    && IsAlphabetOf(s, alphabet)
    && BoundaryRows(s, firstRows, lastRows)
    && IsTally(b, alphabet, d, tally)
    && IsPartialSuffixArray(sa, f, psa)
  }

  class FMIndexSingleSequence {
    var sequenceName: string
    var partialSuffixArray: map<nat, nat>
    var tallyIndexes: seq<seq<nat>>
    var tallyDistance: nat
    var suffixFraction: nat
    var bwt: array<char>
    var firstRowsInMatrix: map<char, nat>
    var lastRowsInMatrix: map<char, nat>
    var alphabet: seq<char>

    /** The indexed sequence and its suffix array, which the index does not keep. */
    ghost var text: seq<char>
    ghost var suffixes: seq<nat>

    /** Where each row of the matrix starts in the text. */
    ghost function RowStarts(): seq<nat>
      reads this
    {
      Rows(text, suffixes)
    }

    ghost predicate Valid()
      reads this, bwt
    {
      IndexStructures(text, suffixes, bwt[..], alphabet, firstRowsInMatrix, lastRowsInMatrix,
                      tallyDistance, tallyIndexes, suffixFraction, partialSuffixArray)
    }

    constructor (seqName: string, sequence: seq<char>, tallyDistance: nat, suffixFraction: nat)
      requires ValidText(sequence) && tallyDistance >= 1 && suffixFraction >= 1
      ensures Valid()
      ensures text == sequence && sequenceName == seqName
      ensures this.tallyDistance == tallyDistance && this.suffixFraction == suffixFraction
    {
      this.tallyDistance := tallyDistance;
      this.suffixFraction := suffixFraction;
      sequenceName := seqName;
      partialSuffixArray := map[];
      tallyIndexes := [];
      bwt := new char[0];
      firstRowsInMatrix := map[];
      lastRowsInMatrix := map[];
      alphabet := [];
      text := sequence;
      suffixes := [];
      new;
      Calculate(sequence);
    }

    method Calculate(sequence: seq<char>)
      requires ValidText(sequence) && tallyDistance >= 1 && suffixFraction >= 1
      modifies this
      ensures Valid() && text == sequence
      ensures sequenceName == old(sequenceName)
      ensures tallyDistance == old(tallyDistance) && suffixFraction == old(suffixFraction)
    {
      var sa := BuildColumns(sequence);
      BuildTally();
      CreatePartialSuffixArray(sa);
      text := sequence;
      suffixes := sa;
    }

    /** The first steps of calculate: the suffix array, the BWT, the alphabet and the boundary rows. */
    method BuildColumns(sequence: seq<char>) returns (sa: seq<nat>)
      requires ValidText(sequence)
      modifies this`bwt, this`firstRowsInMatrix, this`lastRowsInMatrix, this`alphabet
      ensures IsSuffixArray(sequence, sa)
      ensures fresh(bwt) && bwt[..] == Bwt(sequence, Rows(sequence, sa))
      ensures IsAlphabetOf(sequence, alphabet) && Sentinel !in alphabet
      ensures BoundaryRows(sequence, firstRowsInMatrix, lastRowsInMatrix)
      ensures forall k :: 0 <= k < bwt.Length && bwt[k] != Sentinel ==> bwt[k] in alphabet
    {
      sa := BuildSuffixArray(sequence);
      BuildBWT(sequence, sa);
      BuildAlphabetAndCounts(sequence, sa);
      BwtAllInAlphabet(sequence, sa, alphabet);
      assert forall k :: 0 <= k < bwt.Length ==> bwt[k] == bwt[..][k];
    }

    /** The positions 0..|s|-1, sorted by suffix. */
    static method BuildSuffixArray(sequence: seq<char>) returns (sa: seq<nat>)
      ensures IsSuffixArray(sequence, sa)
    {
      var list: seq<nat> := [];
      var i := 0;
      while i < |sequence|
        invariant 0 <= i <= |sequence| && list == Range(i)
      {
        list := list + [i];
        i := i + 1;
      }
      SortRangeIsSuffixArray(sequence);
      sa := Sort(sequence, list);
    }

    method BuildBWT(sequence: seq<char>, sa: seq<nat>)
      requires ValidText(sequence) && IsSuffixArray(sequence, sa)
      modifies this`bwt
      ensures fresh(bwt) && bwt[..] == Bwt(sequence, Rows(sequence, sa))
    {
      var n := |sequence|;
      ghost var target := Bwt(sequence, Rows(sequence, sa));
      var b := new char[n + 1];
      b[0] := sequence[n - 1];
      var j := 1;
      while j <= n
        invariant 1 <= j <= n + 1
        invariant forall k :: 0 <= k < j ==> b[k] == target[k]
      {
        var i := sa[j - 1];
        if i > 0 {
          b[j] := sequence[i - 1];
        } else {
          b[j] := Sentinel;
        }
        j := j + 1;
      }
      bwt := b;
    }

    /**
     * The alphabet and the boundary rows of each character, from one pass over the first
     * column. Where the column changes from lastC to c at index i, row i + 1 opens the block
     * of c and row i closes the block of lastC.
     */
    method BuildAlphabetAndCounts(sequence: seq<char>, sa: seq<nat>)
      requires ValidText(sequence) && IsSuffixArray(sequence, sa)
      modifies this`firstRowsInMatrix, this`lastRowsInMatrix, this`alphabet
      ensures IsAlphabetOf(sequence, alphabet)
      ensures BoundaryRows(sequence, firstRowsInMatrix, lastRowsInMatrix)
    {
      ghost var col := FirstColumn(sequence, sa);
      firstRowsInMatrix := map[];
      lastRowsInMatrix := map[];
      var lastC := Sentinel;
      var alpB: seq<char> := [];
      firstRowsInMatrix := firstRowsInMatrix[lastC := 0];
      lastRowsInMatrix := lastRowsInMatrix[lastC := 0];
      var i := 0;
      while i < |sa|
        invariant 0 <= i <= |sa|
        invariant AlphabetSoFar(col, i, alpB, lastC) && Sentinel !in alpB
        invariant FirstRowsSoFar(sequence, alpB, firstRowsInMatrix)
        invariant LastRowsSoFar(sequence, alpB, lastC, lastRowsInMatrix)
      {
        var j := sa[i];
        var c := sequence[j];
        ColumnStep(sequence, sa, i, alpB, lastC, firstRowsInMatrix, lastRowsInMatrix);
        if lastC != c {
          alpB := alpB + [c];
          firstRowsInMatrix := firstRowsInMatrix[c := i + 1];
          lastRowsInMatrix := lastRowsInMatrix[lastC := i];
        }
        lastC := c;
        i := i + 1;
      }
      ColumnEnd(sequence, sa, alpB, lastC, firstRowsInMatrix, lastRowsInMatrix);
      lastRowsInMatrix := lastRowsInMatrix[lastC := |sa|];
      alphabet := alpB;
    }

    /** The sampled tally: a running count per alphabet character, copied every tallyDistance rows. */
    method BuildTally()
      requires tallyDistance >= 1
      requires forall k :: 0 <= k < bwt.Length && bwt[k] != Sentinel ==> bwt[k] in alphabet
      requires forall a, b :: 0 <= a < b < |alphabet| ==> alphabet[a] < alphabet[b]
      requires Sentinel !in alphabet
      modifies this`tallyIndexes
      ensures IsTally(bwt[..], alphabet, tallyDistance, tallyIndexes)
    {
      var arr := new nat[|alphabet|](_ => 0);
      var tallyRows := CountTallyRows(bwt.Length, tallyDistance);
      tallyIndexes := seq(tallyRows, _ => seq(arr.Length, _ => 0));
      ghost var text := bwt[..];
      var j := 0;
      var i := 0;
      while i < bwt.Length
        invariant 0 <= i <= bwt.Length && arr.Length == |alphabet|
        invariant j == TallyRows(i, tallyDistance) <= tallyRows == |tallyIndexes|
        invariant Counters(text, i, alphabet, arr[..])
        invariant TallySoFar(text, alphabet, tallyDistance, tallyIndexes, j)
      {
        assert bwt[i] == text[i];
        CountCharacter(arr, alphabet, bwt[i], text, i);
        TallyRowsStep(i, tallyDistance);
        TallyRowsCover(bwt.Length, tallyDistance, j);
        if i % tallyDistance == 0 {
          var copy := arr[..];
          TallyRecordStep(text, alphabet, tallyDistance, tallyIndexes, j, i, copy);
          tallyIndexes := tallyIndexes[j := copy];
          j := j + 1;
        }
        i := i + 1;
      }
      TallyDone(text, alphabet, tallyDistance, tallyIndexes, j);
    }

    /** One row of the loop of buildTally: the counter of the row's character goes up by one. */
    static method CountCharacter(arr: array<nat>, alphabet: seq<char>, c: char, ghost b: seq<char>, ghost i: nat)
      requires i < |b| && b[i] == c && (c != Sentinel ==> c in alphabet)
      requires Counters(b, i, alphabet, arr[..])
      requires forall p, q :: 0 <= p < q < |alphabet| ==> alphabet[p] < alphabet[q]
      requires Sentinel !in alphabet
      modifies arr
      ensures Counters(b, i + 1, alphabet, arr[..])
    {
      ghost var before := arr[..];
      if c != Sentinel {
        var indexC := IndexOf(alphabet, c);
        arr[indexC] := arr[indexC] + 1;
        assert arr[..] == before[indexC := before[indexC] + 1];
        CounterStep(b, i, alphabet, before, indexC, arr[..]);
      } else {
        CounterStep(b, i, alphabet, before, -1, arr[..]);
      }
    }

    /** Keeps the start of every row whose suffix starts at a multiple of suffixFraction. */
    method CreatePartialSuffixArray(sa: seq<nat>)
      requires suffixFraction >= 1
      modifies this`partialSuffixArray
      ensures IsPartialSuffixArray(sa, suffixFraction, partialSuffixArray)
    {
      partialSuffixArray := map[];
      var n := |sa|;
      var i := 0;
      while i < n
        invariant 0 <= i <= n
        invariant forall r :: r in partialSuffixArray <==> 1 <= r <= i && sa[r - 1] % suffixFraction == 0
        invariant forall r :: r in partialSuffixArray ==> 1 <= r <= i && partialSuffixArray[r] == sa[r - 1]
      {
        var startSeq := sa[i];
        if startSeq % suffixFraction == 0 {
          partialSuffixArray := partialSuffixArray[i + 1 := startSeq];
        }
        i := i + 1;
      }
    }

    // ---------------------------------------------------------------- queries

    /** The occurrences of c in the BWT rows 0..row, counted from the nearer tally record. */
    method GetTallyOf(c: char, row: nat) returns (r: int)
      requires tallyDistance >= 1 && IsTally(bwt[..], alphabet, tallyDistance, tallyIndexes)
      requires c in alphabet && row < bwt.Length
      ensures r == Count(bwt[..row + 1], c)
    {
      var td := tallyDistance;
      var a := RecordAbove(row, td);
      var b := a + 1;
      TallyRowsCover(bwt.Length, td, a);
      var idx := IndexOf(alphabet, c);
      if row - a * td < b * td - row || |tallyIndexes| <= b {
        // from the record above
        r := CountForward(c, a * td + 1, row, tallyIndexes[a][idx]);
      } else {
        // from the record below
        r := CountBackward(c, b * td, row, tallyIndexes[b][idx]);
      }
    }

    /** Adds to r0, the occurrences of c in the BWT rows before from, those in rows from..row. */
    method CountForward(c: char, from: nat, row: nat, r0: int) returns (r: int)
      requires from <= row + 1 <= bwt.Length && r0 == Count(bwt[..from], c)
      ensures r == Count(bwt[..row + 1], c)
    {
      r := r0;
      var j := from;
      while j <= row
        invariant from <= j <= row + 1
        invariant r == Count(bwt[..j], c)
      {
        CountStep(bwt[..], j, c);
        assert bwt[..][..j + 1] == bwt[..j + 1] && bwt[..][..j] == bwt[..j];
        if bwt[j] == c {
          r := r + 1;
        }
        j := j + 1;
      }
    }

    /** Takes from r0, the occurrences of c in the BWT rows 0..from, those in rows row + 1..from. */
    method CountBackward(c: char, from: nat, row: nat, r0: int) returns (r: int)
      requires row <= from < bwt.Length && r0 == Count(bwt[..from + 1], c)
      ensures r == Count(bwt[..row + 1], c)
    {
      r := r0;
      var j := from;
      while j > row
        invariant row <= j <= from
        invariant r == Count(bwt[..j + 1], c)
      {
        CountStep(bwt[..], j, c);
        assert bwt[..][..j + 1] == bwt[..j + 1] && bwt[..][..j] == bwt[..j];
        if bwt[j] == c {
          r := r - 1;
        }
        j := j - 1;
      }
    }

    /**
     * The LF mapping of row for character c: the last row of the block of c whose BWT
     * occurrence of c is at or above row; when bwt[row] is c it is the row of the suffix
     * starting one position before row's.
     */
    method LfMapping(c: char, row: nat) returns (r: int)
      requires Valid() && c in alphabet && row < bwt.Length
      ensures r == Smaller(text, c) + Count(bwt[..row + 1], c)
      ensures bwt[row] == c ==> 0 <= r < bwt.Length && RowStarts()[r] + 1 == RowStarts()[row]
    {
      var rank := GetTallyOf(c, row);
      r := firstRowsInMatrix[c] + rank - 1;
      if bwt[row] == c {
        LfRow(text, suffixes, bwt[..], row, r);
      }
    }

    /** The LF mapping of row for its own BWT character. */
    method LfMappingRow(row: nat) returns (r: int)
      requires Valid() && row < bwt.Length && bwt[row] != Sentinel
      ensures 0 <= r < bwt.Length && RowStarts()[r] + 1 == RowStarts()[row]
    {
      var c := bwt[row];
      BwtInAlphabet(text, suffixes, alphabet, row);
      r := LfMapping(c, row);
    }

    /**
     * Backward search: the rows whose suffixes start with query, as an inclusive range, or
     * None when the query does not occur. An empty query fails on its last character, and a
     * last character with no rows fails when its missing boundary rows are unboxed.
     */
    method GetRange(query: seq<char>) returns (range: Result<Option<(nat, nat)>>)
      requires Valid()
      ensures range == Err(IndexOutOfBounds) <==> |query| == 0
      ensures range == Err(NullPointer) <==>
        |query| >= 1 && query[|query| - 1] != Sentinel && query[|query| - 1] !in text
      ensures range.Err? && |query| >= 1 ==> Absent(text, query)
      ensures range == Ok(None) ==> Absent(text, query)
      ensures range.Ok? && range.value.Some? ==>
        RowRange(text, RowStarts(), query, range.value.value.0, range.value.value.1)
    {
      ghost var s, e := text, RowStarts();
      if |query| == 0 {
        return Err(IndexOutOfBounds);
      }
      var c := query[|query| - 1];
      if c !in firstRowsInMatrix || c !in lastRowsInMatrix {
        LastCharMissing(s, suffixes, query);
        return Err(NullPointer);
      }
      FirstBlock(s, suffixes, query, firstRowsInMatrix, lastRowsInMatrix);
      var rows := BackwardSearch(query, firstRowsInMatrix[c], lastRowsInMatrix[c]);
      range := Ok(rows);
    }

    /**
     * The loop of getRange: from the rows of the query's last character, one LF mapping step
     * per earlier character, until the range is empty or the whole query is matched.
     */
    method BackwardSearch(query: seq<char>, firstRow: nat, lastRow: nat) returns (range: Option<(nat, nat)>)
      requires Valid() && |query| >= 1
      requires RowRange(text, RowStarts(), query[|query| - 1..], firstRow, lastRow)
      ensures range.None? ==> Absent(text, query)
      ensures range.Some? ==> RowRange(text, RowStarts(), query, range.value.0, range.value.1)
    {
      ghost var s, e := text, RowStarts();
      var rowS: int, rowF: int := firstRow, lastRow;
      var j := |query| - 2;
      while j >= 0
        invariant -1 <= j <= |query| - 2
        invariant RowRange(s, e, query[j + 1..], rowS, rowF)
      {
        var c := query[j];
        var k := IndexOf(alphabet, c);
        if k < 0 {
          NoMatchThrough(s, suffixes, query, j);
          return None;
        }
        ghost var S, F := rowS, rowF;
        var add1 := bwt[rowS] != c;
        rowS := LfMapping(c, rowS);
        if add1 {
          rowS := rowS + 1;
        }
        rowF := LfMapping(c, rowF);
        RangeStep(s, suffixes, bwt[..], query, j, S, F, rowS, rowF);
        if rowS > rowF {
          return None;
        }
        j := j - 1;
      }
      assert j + 1 == 0 && query[j + 1..] == query;
      range := Some((rowS, rowF));
    }

    /**
     * The text position of row i: its entry in the partial suffix array, or else the entry of
     * the first sampled row reached by LF mapping plus the steps taken to reach it.
     */
    method LocateRow(i: nat) returns (begin: nat)
      requires Valid() && i < bwt.Length
      ensures begin == RowStarts()[i]
    {
      ghost var s, e := text, RowStarts();
      var actual := i;
      if actual in partialSuffixArray {
        SampledRow(s, suffixes, suffixFraction, partialSuffixArray, actual);
        begin := partialSuffixArray[actual];
      } else {
        var found := false;
        var possible := 0;
        var steps := 0;
        while !found
          invariant 0 <= actual < bwt.Length
          invariant e[actual] + steps == e[i]
          invariant found <==> actual in partialSuffixArray
          invariant found ==> possible == actual
          decreases e[actual]
        {
          UnsampledRow(s, suffixes, suffixFraction, partialSuffixArray, actual);
          possible := LfMappingRow(actual);
          found := possible in partialSuffixArray;
          actual := possible;
          steps := steps + 1;
        }
        SampledRow(s, suffixes, suffixFraction, partialSuffixArray, possible);
        begin := partialSuffixArray[possible] + steps;
      }
    }

    /**
     * Every occurrence of query, one region per row of its range, each located by walking
     * LF mappings to a sampled row and adding the steps taken.
     */
    method Search(query: seq<char>) returns (result: Result<seq<GenomicRegion>>)
      requires Valid()
      ensures result == Err(IndexOutOfBounds) <==> |query| == 0
      ensures result == Err(NullPointer) <==>
        |query| >= 1 && query[|query| - 1] != Sentinel && query[|query| - 1] !in text
      ensures result.Ok? ==> forall k :: 0 <= k < |result.value| ==>
        result.value[k].sequenceName == sequenceName && 0 <= result.value[k].first
        && result.value[k].last == result.value[k].first + |query|
        && Matches(text, query, result.value[k].first)
      ensures result.Ok? ==> forall x: nat :: Matches(text, query, x) ==>
        exists k :: 0 <= k < |result.value| && result.value[k].first == x
      ensures result.Ok? ==>
        forall k1, k2 :: 0 <= k1 < k2 < |result.value| ==> result.value[k1].first != result.value[k2].first
    {
      ghost var s, e := text, RowStarts();
      RowsOfSuffixArray(s, suffixes);
      var range := GetRange(query);
      if range.Err? {
        return Err(range.fault);
      }
      var alignments := [];
      if range.value.Some? {
        var S, F := range.value.value.0, range.value.value.1;
        var i := S;
        while i <= F
          invariant S <= i <= F + 1
          invariant |alignments| == i - S
          invariant forall k :: 0 <= k < |alignments| ==>
            alignments[k] == GenomicRegion(sequenceName, e[S + k], e[S + k] + |query|)
        {
          var begin := LocateRow(i);
          assert begin == e[i];
          alignments := alignments + [GenomicRegion(sequenceName, begin, begin + |query|)];
          i := i + 1;
        }
        SearchComplete(s, e, query, S, F, sequenceName, alignments);
      }
      result := Ok(alignments);
    }
  }

  /**
   * lastRowsInMatrix as buildAlphabetAndCounts writes it, from row i of the first column on,
   * with lastC the character of the row before: on a change of character the previous
   * character's entry is set to i + 1, the first row of the new character.
   */
  function LastRowsFrom(col: seq<char>, i: nat, lastC: char, lastRows: map<char, nat>): map<char, nat>
    requires i <= |col|
    decreases |col| - i
  {
    if i == |col| then lastRows[lastC := |col|]
    else
      var c := col[i];
      LastRowsFrom(col, i + 1, c, if lastC != c then lastRows[lastC := i + 1] else lastRows)
  }

  /** The whole as-written loop, starting from the sentinel on row 0. */
  function LastRowsAsWritten(col: seq<char>): map<char, nat> {
    LastRowsFrom(col, 0, Sentinel, map[Sentinel := 0])
  }

  /**
   * As written, the last row of a character is one past its block. For the text "AC" the
   * rows are "$", "AC", "C": the entry for 'A' is 2 instead of 1, so getRange("A") returns
   * rows 1..2 and search reports position 1, where "A" does not occur.
   */
  lemma LastRowsAsWrittenOverreaches()
    ensures ValidText("AC") && IsSuffixArray("AC", [0, 1])
    ensures LastRowsAsWritten(FirstColumn("AC", [0, 1])) == map[Sentinel := 1, 'A' := 2, 'C' := 2]
    ensures Smaller("AC", 'A') + Count("AC", 'A') == 1
    ensures Rows("AC", [0, 1])[2] == 1 && !Matches("AC", "A", 1)
  {
    var s := "AC";
    assert Lt(s[0..], s[1..]);
    assert multiset([0, 1]) == multiset(Range(2));
    assert FirstColumn(s, [0, 1]) == ['A', 'C'];
    assert s[..1] == "A";
    assert Terminated(s)[1..2] == "C";
  }

  /** The LF mapping of a row for its own BWT character is the row one position earlier in the text. */
  lemma LfRow(s: seq<char>, sa: seq<nat>, b: seq<char>, row: nat, r: int)
    requires ValidText(s) && IsSuffixArray(s, sa) && b == Bwt(s, Rows(s, sa))
    requires row < |b| && b[row] != Sentinel
    requires r == Smaller(s, b[row]) + Count(b[..row + 1], b[row])
    ensures 0 <= r < |b| && Rows(s, sa)[r] + 1 == Rows(s, sa)[row]
  {
    var e := Rows(s, sa);
    RowsOfSuffixArray(s, sa);
    var r2 := LFStep(s, e, row);
    CountStep(b, row, b[row]);
  }

  /** Every non-sentinel BWT character is in the alphabet. */
  lemma BwtInAlphabet(s: seq<char>, sa: seq<nat>, alphabet: seq<char>, row: nat)
    requires ValidText(s) && IsSuffixArray(s, sa) && IsAlphabetOf(s, alphabet)
    requires row < |sa| + 1 && Bwt(s, Rows(s, sa))[row] != Sentinel
    ensures Bwt(s, Rows(s, sa))[row] in alphabet
  {
    RowsOfSuffixArray(s, sa);
  }

  /** Every character of the BWT except the sentinel is in the alphabet. */
  lemma BwtAllInAlphabet(s: seq<char>, sa: seq<nat>, alphabet: seq<char>)
    requires ValidText(s) && IsSuffixArray(s, sa) && IsAlphabetOf(s, alphabet)
    ensures forall k :: 0 <= k < |Bwt(s, Rows(s, sa))| && Bwt(s, Rows(s, sa))[k] != Sentinel ==>
      Bwt(s, Rows(s, sa))[k] in alphabet
  {
    RowsOfSuffixArray(s, sa);
  }

  /** A row the partial suffix array keeps maps to the start of its suffix. */
  lemma SampledRow(s: seq<char>, sa: seq<nat>, f: nat, psa: map<nat, nat>, row: nat)
    requires f >= 1 && IsPartialSuffixArray(sa, f, psa) && row in psa
    ensures row < |sa| + 1 && psa[row] == Rows(s, sa)[row]
  {
  }

  /** A row the partial suffix array does not keep does not start at 0, so its BWT character is a letter. */
  lemma UnsampledRow(s: seq<char>, sa: seq<nat>, f: nat, psa: map<nat, nat>, row: nat)
    requires ValidText(s) && IsSuffixArray(s, sa) && f >= 1 && IsPartialSuffixArray(sa, f, psa)
    requires row < |sa| + 1 && row !in psa
    ensures Bwt(s, Rows(s, sa))[row] != Sentinel
  {
    RowsOfSuffixArray(s, sa);
    SentinelFirst(s, Rows(s, sa));
    if row > 0 {
      assert sa[row - 1] % f != 0;
    }
  }

  /** A query whose last character is neither a letter of s nor the sentinel occurs nowhere. */
  lemma LastCharMissing(s: seq<char>, sa: seq<nat>, query: seq<char>)
    requires IsSuffixArray(s, sa) && |query| >= 1
    requires query[|query| - 1] != Sentinel && query[|query| - 1] !in s
    ensures Absent(s, query)
  {
    var e := Rows(s, sa);
    RowsOfSuffixArray(s, sa);
    var j := |query| - 1;
    forall r | 0 <= r < |e|
      ensures !Matches(s, query[j..], e[r])
    {
      assert query[j..] == [query[j]];
      MatchesSingle(s, query[j], e[r]);
    }
    NoRowNoMatch(s, e, query, j);
  }

  /** The boundary rows of the last query character are exactly the rows matching it. */
  lemma FirstBlock(s: seq<char>, sa: seq<nat>, query: seq<char>, firstRows: map<char, nat>, lastRows: map<char, nat>)
    requires ValidText(s) && IsSuffixArray(s, sa) && BoundaryRows(s, firstRows, lastRows) && |query| >= 1
    requires query[|query| - 1] in firstRows
    ensures RowRange(s, Rows(s, sa), query[|query| - 1..], firstRows[query[|query| - 1]], lastRows[query[|query| - 1]])
  {
    var e := Rows(s, sa);
    RowsOfSuffixArray(s, sa);
    var c := query[|query| - 1];
    assert query[|query| - 1..] == [c];
    if c == Sentinel {
      BackwardBaseSentinel(s, e);
    } else {
      BackwardBase(s, e, c);
      AtMostSplit(s, c);
    }
  }

  /**
   * One step of backward search: from the rows S..F matching query[j + 1..], the LF mappings
   * of S (plus one unless bwt[S] is the character) and of F bound the rows matching query[j..];
   * an empty bound means the query occurs nowhere.
   */
  lemma RangeStep(s: seq<char>, sa: seq<nat>, b: seq<char>, query: seq<char>, j: nat,
                  S: nat, F: nat, S2: int, F2: int)
    requires ValidText(s) && IsSuffixArray(s, sa) && b == Bwt(s, Rows(s, sa))
    requires j + 1 < |query| && query[j] in s
    requires RowRange(s, Rows(s, sa), query[j + 1..], S, F)
    requires S2 == Smaller(s, query[j]) + Count(b[..S + 1], query[j]) + (if b[S] != query[j] then 1 else 0)
    requires F2 == Smaller(s, query[j]) + Count(b[..F + 1], query[j])
    ensures S2 <= F2 ==> RowRange(s, Rows(s, sa), query[j..], S2, F2)
    ensures S2 > F2 ==> Absent(s, query)
  {
    var e, c := Rows(s, sa), query[j];
    RowsOfSuffixArray(s, sa);
    CountStep(b, S, c);
    assert query[j..] == [c] + query[j + 1..];
    BackwardStep(s, e, query[j + 1..], c, S, F);
    if S2 > F2 {
      NoRowNoMatch(s, e, query, j);
    }
  }

  /** A query character outside the alphabet rules out every occurrence. */
  lemma NoMatchThrough(s: seq<char>, sa: seq<nat>, query: seq<char>, j: nat)
    requires ValidText(s) && IsSuffixArray(s, sa) && j + 1 < |query| && query[j] !in s
    ensures Absent(s, query)
  {
    var e := Rows(s, sa);
    RowsOfSuffixArray(s, sa);
    forall r | 0 <= r < |e|
      ensures !Matches(s, query[j..], e[r])
    {
      assert query[j..] == [query[j]] + query[j + 1..];
      NoMatchOutside(s, query[j], query[j + 1..], e[r]);
    }
    NoRowNoMatch(s, e, query, j);
  }

  /** The regions of the rows S..F are all the occurrences of the query, each once. */
  lemma SearchComplete(s: seq<char>, e: seq<nat>, query: seq<char>, S: nat, F: nat,
                       name: string, alignments: seq<GenomicRegion>)
    requires SortedRows(s, e) && |query| >= 1 && RowRange(s, e, query, S, F) && |alignments| == F + 1 - S
    requires forall k :: 0 <= k < |alignments| ==>
      alignments[k] == GenomicRegion(name, e[S + k], e[S + k] + |query|)
    ensures forall x: nat :: Matches(s, query, x) ==>
      exists k :: 0 <= k < |alignments| && alignments[k].first == x
    ensures forall k1, k2 :: 0 <= k1 < k2 < |alignments| ==> alignments[k1].first != alignments[k2].first
  {
    forall x: nat | Matches(s, query, x)
      ensures exists k :: 0 <= k < |alignments| && alignments[k].first == x
    {
      RowExists(s, e, x);
      var r :| 0 <= r < |e| && e[r] == x;
      assert alignments[r - S].first == x;
    }
    forall k1, k2 | 0 <= k1 < k2 < |alignments|
      ensures alignments[k1].first != alignments[k2].first
    {
      if e[S + k1] == e[S + k2] {
        RowsDistinct(s, e, S + k1, S + k2);
      }
    }
  }

  /** The running counts after one more BWT row. */
  /** counts[x] is the number of occurrences of alphabet[x] among the first i characters of b. */
  ghost predicate Counters(b: seq<char>, i: nat, alphabet: seq<char>, counts: seq<nat>) {
    i <= |b| && |counts| == |alphabet|
    && forall x :: 0 <= x < |counts| ==> counts[x] == Count(b[..i], alphabet[x])
  }

  /** The first j rows of the tally are final. */
  ghost predicate TallySoFar(b: seq<char>, alphabet: seq<char>, d: nat, tally: seq<seq<nat>>, j: nat)
    requires d >= 1
  {
    j <= |tally|
    && (forall k :: 0 <= k < |tally| ==> |tally[k]| == |alphabet|)
    && (forall k, x :: 0 <= k < j && 0 <= x < |alphabet| ==>
          k * d < |b| && tally[k][x] == Count(b[..k * d + 1], alphabet[x]))
  }

  /** Counting b[i]: the counter of its letter goes up by one, and none when it is the sentinel. */
  lemma CounterStep(b: seq<char>, i: nat, alphabet: seq<char>, before: seq<nat>, idx: int, after: seq<nat>)
    requires i < |b| && Counters(b, i, alphabet, before)
    requires forall p, q :: 0 <= p < q < |alphabet| ==> alphabet[p] < alphabet[q]
    requires Sentinel !in alphabet
    requires b[i] == Sentinel ==> after == before
    requires b[i] != Sentinel ==>
      0 <= idx < |alphabet| && alphabet[idx] == b[i] && after == before[idx := before[idx] + 1]
    ensures Counters(b, i + 1, alphabet, after)
  {
    forall x | 0 <= x < |after|
      ensures after[x] == Count(b[..i + 1], alphabet[x])
    {
      CountStep(b, i, alphabet[x]);
      if b[i] != Sentinel && x != idx {
        if x < idx {
          assert alphabet[x] < alphabet[idx];
        } else {
          assert alphabet[idx] < alphabet[x];
        }
      }
    }
  }

  /** Recording the counters after position i as tally row j, when i is its sampled position. */
  lemma TallyRecordStep(b: seq<char>, alphabet: seq<char>, d: nat, tally: seq<seq<nat>>, j: nat, i: nat, counts: seq<nat>)
    requires d >= 1 && i < |b| && j < |tally| && j * d == i
    requires TallySoFar(b, alphabet, d, tally, j)
    requires Counters(b, i + 1, alphabet, counts)
    ensures TallySoFar(b, alphabet, d, tally[j := counts], j + 1)
  {
  }

  lemma TallyDone(b: seq<char>, alphabet: seq<char>, d: nat, tally: seq<seq<nat>>, j: nat)
    requires d >= 1 && j == TallyRows(|b|, d) == |tally|
    requires TallySoFar(b, alphabet, d, tally, j)
    ensures IsTally(b, alphabet, d, tally)
  {
    forall k | 0 <= k < |tally|
      ensures k * d < |b|
    {
      TallyRowsCover(|b|, d, k);
    }
  }

  // ---------------------------------------------------------------- the first-column pass

  /**
   * After i entries of the column: lastC is the last one (the sentinel before any), and
   * alpB holds each character seen so far once, in increasing order.
   */
  ghost predicate AlphabetSoFar(col: seq<char>, i: nat, alpB: seq<char>, lastC: char) {
    i <= |col|
    && (i == 0 ==> lastC == Sentinel && alpB == [])
    && (i > 0 ==> lastC == col[i - 1] && alpB != [] && alpB[|alpB| - 1] == lastC)
    && (forall a, b :: 0 <= a < b < |alpB| ==> alpB[a] < alpB[b])
    && (forall a :: 0 <= a < |alpB| ==> alpB[a] <= lastC)
    && (forall c :: c in alpB <==> c in col[..i])
  }

  lemma AlphabetStep(col: seq<char>, i: nat, alpB: seq<char>, lastC: char)
    requires AlphabetSoFar(col, i, alpB, lastC) && i < |col| && col[i] != Sentinel
    requires i > 0 ==> col[i - 1] <= col[i]
    ensures AlphabetSoFar(col, i + 1, if lastC != col[i] then alpB + [col[i]] else alpB, col[i])
  {
    var c := col[i];
    assert col[..i + 1] == col[..i] + [c];
    if lastC != c {
      var alp := alpB + [c];
      if i > 0 {
        assert lastC < c;
      }
      forall a, b | 0 <= a < b < |alp|
        ensures alp[a] < alp[b]
      {
        if b == |alpB| {
          assert alp[a] == alpB[a] <= lastC;
        }
      }
      assert forall a :: 0 <= a < |alp| ==> alp[a] <= c;
      assert forall d :: d in alp <==> d in col[..i + 1];
      assert alp[|alp| - 1] == c;
    }
  }

  /** The first rows recorded so far: the sentinel's and those of every character seen. */
  ghost predicate FirstRowsSoFar(s: seq<char>, alpB: seq<char>, firstRows: map<char, nat>) {
    (forall c :: c in firstRows <==> c == Sentinel || c in alpB)
    && Sentinel in firstRows && firstRows[Sentinel] == 0
    && (forall c :: c in alpB ==> firstRows[c] == 1 + Smaller(s, c))
  }

  /** The last rows recorded so far: the sentinel's and those of every character seen but the current one. */
  ghost predicate LastRowsSoFar(s: seq<char>, alpB: seq<char>, lastC: char, lastRows: map<char, nat>) {
    (forall c :: c in lastRows <==> c == Sentinel || (c in alpB && c != lastC))
    && Sentinel in lastRows && lastRows[Sentinel] == 0
    && (forall c :: c in alpB && c != lastC ==> lastRows[c] == Smaller(s, c) + Count(s, c))
  }

  /** A new character c at column index i opens its block on row i + 1 ... */
  lemma FirstRowsStep(s: seq<char>, alpB: seq<char>, firstRows: map<char, nat>, c: char, i: nat)
    requires FirstRowsSoFar(s, alpB, firstRows)
    requires c != Sentinel && c !in alpB && Smaller(s, c) == i
    ensures FirstRowsSoFar(s, alpB + [c], firstRows[c := i + 1])
  {
    var f := firstRows[c := i + 1];
    forall d
      ensures d in f <==> d == Sentinel || d in alpB + [c]
    {
    }
    forall d | d in alpB + [c]
      ensures f[d] == 1 + Smaller(s, d)
    {
      if d != c {
        assert d in alpB;
      }
    }
  }

  /** ... and closes the block of the previous character lastC on row i. */
  lemma LastRowsStep(s: seq<char>, alpB: seq<char>, lastC: char, lastRows: map<char, nat>, c: char, i: nat)
    requires LastRowsSoFar(s, alpB, lastC, lastRows)
    requires c != lastC && c !in alpB && Sentinel !in alpB && (lastC == Sentinel || lastC in alpB)
    requires lastC != Sentinel ==> Smaller(s, lastC) + Count(s, lastC) == i
    requires lastC == Sentinel ==> i == 0
    ensures LastRowsSoFar(s, alpB + [c], c, lastRows[lastC := i])
  {
    var l := lastRows[lastC := i];
    forall d
      ensures d in l <==> d == Sentinel || (d in alpB + [c] && d != c)
    {
    }
    forall d | d in alpB + [c] && d != c
      ensures l[d] == Smaller(s, d) + Count(s, d)
    {
      assert d in alpB;
      if d == lastC {
        assert lastC != Sentinel;
      }
    }
  }

  /** The last character's block closes on the last row. */
  lemma RowsEnd(s: seq<char>, alpB: seq<char>, lastC: char,
                firstRows: map<char, nat>, lastRows: map<char, nat>, n: nat)
    requires FirstRowsSoFar(s, alpB, firstRows) && LastRowsSoFar(s, alpB, lastC, lastRows)
    requires lastC in alpB && lastC != Sentinel && Sentinel !in s
    requires Smaller(s, lastC) + Count(s, lastC) == n
    requires forall c :: c in alpB <==> c in s
    ensures BoundaryRows(s, firstRows, lastRows[lastC := n])
  {
  }

  /** One entry of the first column: a new character opens its block and closes the previous one. */
  lemma ColumnStep(s: seq<char>, sa: seq<nat>, i: nat, alpB: seq<char>, lastC: char,
                   firstRows: map<char, nat>, lastRows: map<char, nat>)
    requires ValidText(s) && IsSuffixArray(s, sa) && i < |sa|
    requires AlphabetSoFar(FirstColumn(s, sa), i, alpB, lastC) && Sentinel !in alpB
    requires FirstRowsSoFar(s, alpB, firstRows) && LastRowsSoFar(s, alpB, lastC, lastRows)
    ensures lastC != s[sa[i]] ==>
      AlphabetSoFar(FirstColumn(s, sa), i + 1, alpB + [s[sa[i]]], s[sa[i]]) && Sentinel !in alpB + [s[sa[i]]]
      && FirstRowsSoFar(s, alpB + [s[sa[i]]], firstRows[s[sa[i]] := i + 1])
      && LastRowsSoFar(s, alpB + [s[sa[i]]], s[sa[i]], lastRows[lastC := i])
    ensures lastC == s[sa[i]] ==>
      AlphabetSoFar(FirstColumn(s, sa), i + 1, alpB, lastC)
      && FirstRowsSoFar(s, alpB, firstRows) && LastRowsSoFar(s, alpB, lastC, lastRows)
  {
    var col, c := FirstColumn(s, sa), s[sa[i]];
    assert c == col[i];
    if i > 0 {
      ColumnSorted(s, sa, i - 1, i);
    }
    AlphabetStep(col, i, alpB, lastC);
    if lastC != c {
      BlockStart(s, sa, i);
      FirstRowsStep(s, alpB, firstRows, c, i);
      LastRowsStep(s, alpB, lastC, lastRows, c, i);
    }
  }

  /** After the whole column: the alphabet is complete and the last block closes on the last row. */
  lemma ColumnEnd(s: seq<char>, sa: seq<nat>, alpB: seq<char>, lastC: char,
                  firstRows: map<char, nat>, lastRows: map<char, nat>)
    requires ValidText(s) && IsSuffixArray(s, sa)
    requires AlphabetSoFar(FirstColumn(s, sa), |sa|, alpB, lastC) && Sentinel !in alpB
    requires FirstRowsSoFar(s, alpB, firstRows) && LastRowsSoFar(s, alpB, lastC, lastRows)
    ensures IsAlphabetOf(s, alpB) && BoundaryRows(s, firstRows, lastRows[lastC := |sa|])
  {
    var col := FirstColumn(s, sa);
    forall c
      ensures c in alpB <==> c in s
    {
      ColumnChars(s, sa, c);
      assert col[..|sa|] == col;
    }
    BlockEnd(s, sa);
    RowsEnd(s, alpB, lastC, firstRows, lastRows, |sa|);
  }
}
