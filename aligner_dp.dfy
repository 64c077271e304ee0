/**
 * The edit-distance alignment of a read against a reference window, as done by
 * ReadsAligner.smithWatermanLocalAlignment, and the AlignmentResult it fills.
 * Despite its name the dynamic program minimises an edit distance: the read must be
 * aligned end to end, the reference window may be entered and left anywhere.
 */
module EditAlignment {
  import opened Common
  import opened Cigar

  // ------------------------------------------------------------ the recurrence

  function Mismatch(x: char, y: char): nat {
    if x != y then 1 else 0
  }

  /**
   * scores[i][j]: the cheapest way to align query[..i] against a piece of subject that
   * ends at j. Row 0 is free (any start in the subject), column 0 costs one per read base.
   */
  function Score(q: seq<char>, s: seq<char>, i: nat, j: nat): nat
    requires i <= |q| && j <= |s|
    decreases i + j
  {
    if j == 0 then i
    else if i == 0 then 0
    else
      var diag := Score(q, s, i - 1, j - 1) + Mismatch(q[i - 1], s[j - 1]);
      var up := 1 + Score(q, s, i - 1, j);
      var left := 1 + Score(q, s, i, j - 1);
      var m := if diag > up then up else diag;
      if m > left then left else m
  }

  // ------------------------------------------------------------ alignment paths

  /**
   * `path` lines up q[i..ie] (the read) against s[j..je] (the reference): a match consumes
   * one character of each, an insertion one of the read, a deletion one of the reference.
   */
  predicate Aligns(path: seq<char>, q: seq<char>, s: seq<char>, i: nat, j: nat, ie: nat, je: nat)
    decreases |path|
  {
    i <= ie <= |q| && j <= je <= |s| &&
    if path == [] then i == ie && j == je
    else if path[0] == MatchOp then i < ie && j < je && Aligns(path[1..], q, s, i + 1, j + 1, ie, je)
    else if path[0] == InsertionOp then i < ie && Aligns(path[1..], q, s, i + 1, j, ie, je)
    else path[0] == DeletionOp && j < je && Aligns(path[1..], q, s, i, j + 1, ie, je)
  }

  /** Mismatching matches, plus insertions, plus deletions along `path`. */
  function Cost(path: seq<char>, q: seq<char>, s: seq<char>, i: nat, j: nat, ie: nat, je: nat): nat
    requires Aligns(path, q, s, i, j, ie, je)
    decreases |path|
  {
    if path == [] then 0
    else if path[0] == MatchOp then Mismatch(q[i], s[j]) + Cost(path[1..], q, s, i + 1, j + 1, ie, je)
    else if path[0] == InsertionOp then 1 + Cost(path[1..], q, s, i + 1, j, ie, je)
    else 1 + Cost(path[1..], q, s, i, j + 1, ie, je)
  }

  /** Matches and insertions consume the read, matches and deletions the reference. */
  lemma {:induction false} AlignsConsumes(path: seq<char>, q: seq<char>, s: seq<char>, i: nat, j: nat, ie: nat, je: nat)
    requires Aligns(path, q, s, i, j, ie, je)
    ensures Count(path, MatchOp) + Count(path, InsertionOp) == ie - i
    ensures Count(path, MatchOp) + Count(path, DeletionOp) == je - j
    ensures Count(path, MatchOp) + Count(path, InsertionOp) + Count(path, DeletionOp) == |path|
    decreases |path|
  {
    if path != [] {
      var i', j' := if path[0] == DeletionOp then i else i + 1, if path[0] == InsertionOp then j else j + 1;
      AlignsConsumes(path[1..], q, s, i', j', ie, je);
      assert path == [path[0]] + path[1..];
      CountAppend([path[0]], path[1..], MatchOp);
      CountAppend([path[0]], path[1..], InsertionOp);
      CountAppend([path[0]], path[1..], DeletionOp);
    }
  }

  /** A path read from its last operation backwards. */
  lemma {:induction false} AlignsLast(path: seq<char>, q: seq<char>, s: seq<char>, i: nat, j: nat, ie: nat, je: nat)
    requires Aligns(path, q, s, i, j, ie, je) && path != []
    ensures var o, p := path[|path| - 1], path[..|path| - 1];
      && (o == MatchOp || o == InsertionOp || o == DeletionOp)
      && (o == MatchOp ==>
            && i < ie && j < je && Aligns(p, q, s, i, j, ie - 1, je - 1)
            && Cost(path, q, s, i, j, ie, je) == Cost(p, q, s, i, j, ie - 1, je - 1) + Mismatch(q[ie - 1], s[je - 1]))
      && (o == InsertionOp ==>
            && i < ie && Aligns(p, q, s, i, j, ie - 1, je)
            && Cost(path, q, s, i, j, ie, je) == Cost(p, q, s, i, j, ie - 1, je) + 1)
      && (o == DeletionOp ==>
            && j < je && Aligns(p, q, s, i, j, ie, je - 1)
            && Cost(path, q, s, i, j, ie, je) == Cost(p, q, s, i, j, ie, je - 1) + 1)
    decreases |path|
  {
    var h, t := path[0], path[1..];
    var i1, j1 := if h == DeletionOp then i else i + 1, if h == InsertionOp then j else j + 1;
    if t != [] {
      AlignsLast(t, q, s, i1, j1, ie, je);
      var p := path[..|path| - 1];
      assert p[0] == h && p[1..] == t[..|t| - 1];
    }
  }

  /** No path from row 0 at column k to row i at column j costs less than scores[i][j]. */
  lemma {:induction false} ScoreIsOptimal(q: seq<char>, s: seq<char>, i: nat, k: nat, j: nat, path: seq<char>)
    requires Aligns(path, q, s, 0, k, i, j)
    ensures Score(q, s, i, j) <= Cost(path, q, s, 0, k, i, j)
    decreases |path|
  {
    if path != [] {
      AlignsLast(path, q, s, 0, k, i, j);
      var o, p := path[|path| - 1], path[..|path| - 1];
      if o == MatchOp {
        ScoreIsOptimal(q, s, i - 1, k, j - 1, p);
      } else if o == InsertionOp {
        ScoreIsOptimal(q, s, i - 1, k, j, p);
      } else {
        ScoreIsOptimal(q, s, i, k, j - 1, p);
      }
    }
  }

  /** Inserting every read base is always possible, so no cell exceeds its row number. */
  lemma {:induction false} ScoreAtMostRow(q: seq<char>, s: seq<char>, i: nat, j: nat)
    requires i <= |q| && j <= |s|
    ensures Score(q, s, i, j) <= i
    decreases i
  {
    if j > 0 && i > 0 {
      ScoreAtMostRow(q, s, i - 1, j);
    }
  }

  /**
   * The minimum of the last row is the edit distance of the whole read against the best
   * piece of the subject: no path against any piece costs less.
   */
  lemma DistanceIsOptimal(q: seq<char>, s: seq<char>, distance: int)
    requires |s| >= 1
    requires forall j :: 1 <= j <= |s| ==> distance <= Score(q, s, |q|, j)
    ensures forall path, k, j :: Aligns(path, q, s, 0, k, |q|, j) ==> distance <= Cost(path, q, s, 0, k, |q|, j)
  {
    forall path, k, j | Aligns(path, q, s, 0, k, |q|, j)
      ensures distance <= Cost(path, q, s, 0, k, |q|, j)
    {
      ScoreIsOptimal(q, s, |q|, k, j, path);
      if j == 0 {
        ScoreAtMostRow(q, s, |q|, 1);
      }
    }
  }

  // ------------------------------------------------------------ the reported distance

  /** The minimum of the last row over columns 1..upto. */
  function BestLastRow(q: seq<char>, s: seq<char>, upto: nat): nat
    requires 1 <= upto <= |s|
  {
    if upto == 1 then Score(q, s, |q|, 1)
    else
      var b := BestLastRow(q, s, upto - 1);
      var x := Score(q, s, |q|, upto);
      if x <= b then x else b
  }

  /** The rightmost column of 1..upto where the last row reaches its minimum. */
  function BestColumn(q: seq<char>, s: seq<char>, upto: nat): nat
    requires 1 <= upto <= |s|
  {
    if upto == 1 then 1
    else if Score(q, s, |q|, upto) <= BestLastRow(q, s, upto - 1) then upto
    else BestColumn(q, s, upto - 1)
  }

  /**
   * The distance smithWatermanLocalAlignment reports: the edit distance of the whole read
   * against its best piece of the subject; for an empty subject the initial minimum,
   * (|query| + 1) * (0 + 1), is never replaced.
   */
  function SmithWatermanDistance(q: seq<char>, s: seq<char>): nat {
    if |s| == 0 then |q| + 1 else BestLastRow(q, s, |s|)
  }

  /** The best column holds the minimum, and every column to its right is strictly worse. */
  lemma {:induction false} BestColumnFacts(q: seq<char>, s: seq<char>, upto: nat)
    requires 1 <= upto <= |s|
    ensures 1 <= BestColumn(q, s, upto) <= upto
    ensures Score(q, s, |q|, BestColumn(q, s, upto)) == BestLastRow(q, s, upto)
    ensures forall j :: 1 <= j <= upto ==> BestLastRow(q, s, upto) <= Score(q, s, |q|, j)
    ensures forall j :: BestColumn(q, s, upto) < j <= upto ==> BestLastRow(q, s, upto) < Score(q, s, |q|, j)
    decreases upto
  {
    if upto > 1 {
      BestColumnFacts(q, s, upto - 1);
    }
  }

  /** A column search with the invariant LastRowMin found exactly the best column and distance. */
  lemma LastRowMinIsBest(q: seq<char>, s: seq<char>, v: int, jm: int)
    requires |s| >= 1 && LastRowMin(q, s, v, jm, |s|)
    ensures v == BestLastRow(q, s, |s|) && jm == BestColumn(q, s, |s|)
  {
    BestColumnFacts(q, s, |s|);
    var c := BestColumn(q, s, |s|);
    assert v <= Score(q, s, |q|, c);
    assert Score(q, s, |q|, c) == v == Score(q, s, |q|, jm);
  }

  // ------------------------------------------------------------ the result object

  /** AlignmentResult: where the read landed in the subject, its distance and its path. */
  class AlignmentResult {
    var subjectStartIdx: int
    var subjectLastIdx: int
    var distance: int
    var path: seq<char>

    constructor ()
      ensures subjectStartIdx == 0 && subjectLastIdx == 0 && distance == 0 && path == []
    {
      subjectStartIdx := 0;
      subjectLastIdx := 0;
      distance := 0;
      path := [];
    }

    /** addBacktrack: the traceback visits operations last first, so each goes in front. */
    method AddBacktrack(decision: char)
      modifies this
      ensures path == [decision] + old(path)
      ensures subjectStartIdx == old(subjectStartIdx) && subjectLastIdx == old(subjectLastIdx)
      ensures distance == old(distance)
    {
      path := [decision] + path;
    }

    /** getCigarString: the run-length encoding of the path. */
    method GetCigarString() returns (cigar: string)
      ensures cigar == Render(RunLength(path))
    {
      cigar := EncodeRuns(path);
    }
  }

  // ------------------------------------------------------------ the dynamic program

  /** The last row's minimum so far, over columns 1..upto, kept at its rightmost column. */
  ghost predicate LastRowMin(q: seq<char>, s: seq<char>, v: int, jm: int, upto: nat)
  {
    1 <= jm <= upto <= |s| && v == Score(q, s, |q|, jm)
    && (forall b :: 1 <= b <= upto ==> v <= Score(q, s, |q|, b))
    && (forall b :: jm < b <= upto ==> v < Score(q, s, |q|, b))
  }

  /**
   * The filling half of smithWatermanLocalAlignment: every cell of the score matrix, and
   * the last row's minimum with its rightmost column (left at its initial values when the
   * subject is empty, because the column loop then never runs).
   */
  method FillScores(query: seq<char>, subject: seq<char>) returns (scores: array2<int>, minLastRow: int, minJLastRow: int)
    ensures fresh(scores) && scores.Length0 == |query| + 1 && scores.Length1 == |subject| + 1
    ensures forall a, b {:trigger scores[a, b]} :: 0 <= a <= |query| && 0 <= b <= |subject| ==> scores[a, b] == Score(query, subject, a, b)
    ensures |subject| == 0 ==> minLastRow == |query| + 1 && minJLastRow == -1
    ensures |subject| > 0 ==> LastRowMin(query, subject, minLastRow, minJLastRow, |subject|)
  {
    var n, m := |query|, |subject|;
    scores := new int[n + 1, m + 1];
    minLastRow := (n + 1) * (m + 1);
    minJLastRow := -1;
    var i := 0;
    while i < n + 1
      invariant 0 <= i <= n + 1
      invariant forall a, b {:trigger scores[a, b]} :: 0 <= a < i && 0 <= b <= m ==> scores[a, b] == Score(query, subject, a, b)
      invariant i <= n || m == 0 ==> minLastRow == (n + 1) * (m + 1) && minJLastRow == -1
      invariant i == n + 1 && m > 0 ==> LastRowMin(query, subject, minLastRow, minJLastRow, m)
    {
      minLastRow, minJLastRow := FillRow(scores, query, subject, i, minLastRow, minJLastRow);
      i := i + 1;
    }
    assert m == 0 ==> (n + 1) * (m + 1) == n + 1;
  }

  /** The cell rule of the program: the cheapest of the diagonal, upper and left moves. */
  lemma CellStep(q: seq<char>, s: seq<char>, i: nat, j: nat, diag: int, up: int, left: int, min: int)
    requires 1 <= i <= |q| && 1 <= j <= |s|
    requires diag == Score(q, s, i - 1, j - 1) && up == Score(q, s, i - 1, j) && left == Score(q, s, i, j - 1)
    requires var d := diag + Mismatch(q[i - 1], s[j - 1]);
      var m := if d > 1 + up then 1 + up else d;
      min == if m > 1 + left then 1 + left else m
    ensures min == Score(q, s, i, j)
  {
  }

  /** Column j of the last row updates the running minimum, ties going to the right. */
  lemma LastRowStep(q: seq<char>, s: seq<char>, v: int, jm: int, j: nat, x: int, v': int, jm': int)
    requires 1 <= j <= |s| && x == Score(q, s, |q|, j)
    requires j > 1 ==> LastRowMin(q, s, v, jm, j - 1)
    requires j == 1 || v >= x ==> v' == x && jm' == j
    requires !(j == 1 || v >= x) ==> v' == v && jm' == jm
    ensures LastRowMin(q, s, v', jm', j)
  {
  }

  /** When neither the diagonal nor the upper move gives a cell its value, the left move does. */
  lemma ScoreFromLeft(q: seq<char>, s: seq<char>, i: nat, j: nat)
    requires 1 <= i <= |q| && 1 <= j <= |s|
    requires Score(q, s, i, j) != Score(q, s, i - 1, j - 1) + Mismatch(q[i - 1], s[j - 1])
    requires Score(q, s, i, j) != 1 + Score(q, s, i - 1, j)
    ensures Score(q, s, i, j) == 1 + Score(q, s, i, j - 1)
  {
  }

  /** The traceback so far: a path from cell (i, j) to the end whose cost completes the distance. */
  ghost predicate Traced(q: seq<char>, s: seq<char>, path: seq<char>, i: nat, j: nat, n: nat, jEnd: nat, dist: int)
  {
    i <= |q| && j <= |s| && Aligns(path, q, s, i, j, n, jEnd)
    && Cost(path, q, s, i, j, n, jEnd) + Score(q, s, i, j) == dist
  }

  /** A traceback that reached the first row aligns the whole read at the distance. */
  lemma TracedFromTop(q: seq<char>, s: seq<char>, path: seq<char>, j: nat, n: nat, jEnd: nat, dist: int)
    requires Traced(q, s, path, 0, j, n, jEnd, dist)
    ensures Aligns(path, q, s, 0, j, n, jEnd) && Cost(path, q, s, 0, j, n, jEnd) == dist
  {
  }

  /**
   * One traceback step: putting the operation that produced cell (i, j) in front of the
   * path from (i, j) to the end keeps the path's cost plus the cell's score at the distance.
   */
  lemma TraceStep(q: seq<char>, s: seq<char>, n: nat, jEnd: nat, path: seq<char>, dist: int,
                  i: nat, j: nat, op: char, i': nat, j': nat)
    requires Traced(q, s, path, i, j, n, jEnd, dist)
    requires op == MatchOp || op == InsertionOp || op == DeletionOp
    requires op == MatchOp ==> i' + 1 == i && j' + 1 == j && Score(q, s, i', j') + Mismatch(q[i'], s[j']) == Score(q, s, i, j)
    requires op == InsertionOp ==> i' + 1 == i && j' == j && Score(q, s, i', j') + 1 == Score(q, s, i, j)
    requires op == DeletionOp ==> i' == i && j' + 1 == j && Score(q, s, i', j') + 1 == Score(q, s, i, j)
    ensures Traced(q, s, [op] + path, i', j', n, jEnd, dist)
  {
    var p := [op] + path;
    assert p[0] == op && p[1..] == path;
    if op == MatchOp {
      assert Aligns(p, q, s, i', j', n, jEnd);
      assert Cost(p, q, s, i', j', n, jEnd) == Mismatch(q[i'], s[j']) + Cost(path, q, s, i, j, n, jEnd);
    } else if op == InsertionOp {
      assert Aligns(p, q, s, i', j', n, jEnd);
      assert Cost(p, q, s, i', j', n, jEnd) == 1 + Cost(path, q, s, i, j, n, jEnd);
    } else {
      assert Aligns(p, q, s, i', j', n, jEnd);
      assert Cost(p, q, s, i', j', n, jEnd) == 1 + Cost(path, q, s, i, j, n, jEnd);
    }
  }

  /** The cell (i, j) from its three neighbours, as the inner loop computes it. */
  method CellScore(scores: array2<int>, query: seq<char>, subject: seq<char>, i: nat, j: nat) returns (min: int)
    requires scores.Length0 == |query| + 1 && scores.Length1 == |subject| + 1
    requires 1 <= i <= |query| && 1 <= j <= |subject|
    requires scores[i - 1, j - 1] == Score(query, subject, i - 1, j - 1)
    requires scores[i - 1, j] == Score(query, subject, i - 1, j)
    requires scores[i, j - 1] == Score(query, subject, i, j - 1)
    ensures min == Score(query, subject, i, j)
  {
    var d := if query[i - 1] != subject[j - 1] then 1 else 0;
    min := scores[i - 1, j - 1] + d;
    var a := 1 + scores[i - 1, j];
    if min > a {
      min := a;
    }
    var b := 1 + scores[i, j - 1];
    if min > b {
      min := b;
    }
    CellStep(query, subject, i, j, scores[i - 1, j - 1], scores[i - 1, j], scores[i, j - 1], min);
  }

  /** One row of the score matrix, and the running minimum when that row is the last. */
  method FillRow(scores: array2<int>, query: seq<char>, subject: seq<char>, i: nat, minIn: int, minJIn: int)
    returns (minLastRow: int, minJLastRow: int)
    requires scores.Length0 == |query| + 1 && scores.Length1 == |subject| + 1 && i <= |query|
    requires forall a, b {:trigger scores[a, b]} :: 0 <= a < i && 0 <= b <= |subject| ==> scores[a, b] == Score(query, subject, a, b)
    modifies scores
    ensures forall a, b {:trigger scores[a, b]} :: 0 <= a <= i && 0 <= b <= |subject| ==> scores[a, b] == Score(query, subject, a, b)
    ensures i < |query| || |subject| == 0 ==> minLastRow == minIn && minJLastRow == minJIn
    ensures i == |query| && |subject| > 0 ==> LastRowMin(query, subject, minLastRow, minJLastRow, |subject|)
  {
    var n, m := |query|, |subject|;
    minLastRow, minJLastRow := minIn, minJIn;
    scores[i, 0] := if i == 0 then 0 else scores[i - 1, 0] + 1;
    var j := 1;
    while j < m + 1
      invariant 1 <= j <= m + 1
      invariant forall a, b {:trigger scores[a, b]} :: 0 <= a < i && 0 <= b <= m ==> scores[a, b] == Score(query, subject, a, b)
      invariant forall b {:trigger Score(query, subject, i, b)} :: 0 <= b < j ==> scores[i, b] == Score(query, subject, i, b)
      invariant i < n || j == 1 ==> minLastRow == minIn && minJLastRow == minJIn
      invariant i == n && j > 1 ==> LastRowMin(query, subject, minLastRow, minJLastRow, j - 1)
    {
      if i == 0 {
        scores[i, j] := 0;
      } else {
        assert scores[i, j - 1] == Score(query, subject, i, j - 1);
        var min := CellScore(scores, query, subject, i, j);
        scores[i, j] := min;
      }
      ghost var v, jm := minLastRow, minJLastRow;
      if i == n && (j == 1 || minLastRow >= scores[i, j]) {
        minLastRow := scores[i, j];
        minJLastRow := j;
      }
      if i == n {
        LastRowStep(query, subject, v, jm, j, scores[i, j], minLastRow, minJLastRow);
      }
      j := j + 1;
    }
    forall a, b | 0 <= a <= i && 0 <= b <= m
      ensures scores[a, b] == Score(query, subject, a, b)
    {
      if a == i {
        assert scores[i, b] == Score(query, subject, i, b);
      }
    }
  }

  /**
   * The first traceback loop of smithWatermanLocalAlignment: from the chosen cell of the
   * last row, follow the move that produced each cell until the first row or column.
   */
  method TraceToEdge(scores: array2<int>, query: seq<char>, subject: seq<char>, result: AlignmentResult, i0: nat, j0: int)
    returns (i: nat, j: int)
    requires scores.Length0 == |query| + 1 && scores.Length1 == |subject| + 1
    requires forall a, b {:trigger scores[a, b]} :: 0 <= a <= |query| && 0 <= b <= |subject| ==> scores[a, b] == Score(query, subject, a, b)
    requires i0 == |query| && result.path == [] && (j0 == -1 || 1 <= j0 <= |subject|)
    requires j0 > 0 ==> result.distance == Score(query, subject, i0, j0)
    modifies result
    ensures result.distance == old(result.distance) && result.subjectLastIdx == old(result.subjectLastIdx)
    ensures result.subjectStartIdx == old(result.subjectStartIdx)
    ensures j0 == -1 ==> i == i0 && j == -1 && result.path == []
    ensures j0 > 0 ==> 0 <= j <= j0 && (i == 0 || j == 0) && Traced(query, subject, result.path, i, j, i0, j0, result.distance)
  {
    var n, m := |query|, |subject|;
    i, j := i0, j0;
    ghost var jEnd, minLastRow := j0, result.distance;
    while i > 0 && j > 0
      invariant 0 <= i <= n && (j0 == -1 ==> j == -1) && (j0 > 0 ==> 0 <= j <= jEnd <= m)
      modifies result
      invariant result.subjectLastIdx == old(result.subjectLastIdx) && result.distance == minLastRow
      invariant result.subjectStartIdx == old(result.subjectStartIdx)
      invariant j0 == -1 ==> result.path == [] && i == n
      invariant j0 > 0 ==> Traced(query, subject, result.path, i, j, n, jEnd, minLastRow)
    {
      i, j := TraceBackStep(scores, query, subject, result, i, j, n, jEnd, minLastRow);
    }
  }

  /**
   * The second traceback loop of smithWatermanLocalAlignment: the read characters left above
   * the first column are insertions.
   */
  method TraceToTop(query: seq<char>, subject: seq<char>, result: AlignmentResult, i0: nat, j: int, ghost jEnd: int)
    requires i0 <= |query|
    requires |subject| == 0 ==> j == -1 && i0 == |query| && result.path == []
    requires |subject| > 0 ==> 0 <= j <= jEnd <= |subject| && (i0 == 0 || j == 0)
    requires |subject| > 0 ==> Traced(query, subject, result.path, i0, j, |query|, jEnd, result.distance)
    modifies result
    ensures result.distance == old(result.distance) && result.subjectLastIdx == old(result.subjectLastIdx)
    ensures result.subjectStartIdx == old(result.subjectStartIdx)
    ensures |subject| == 0 ==> result.path == Repeat(InsertionOp, |query|)
    ensures |subject| > 0 ==> Traced(query, subject, result.path, 0, j, |query|, jEnd, result.distance)
  {
    var n, m := |query|, |subject|;
    var i := i0;
    ghost var dist := result.distance;
    while i > 0
      invariant 0 <= i <= i0 && (m > 0 && i > 0 ==> j == 0)
      modifies result
      invariant result.subjectLastIdx == old(result.subjectLastIdx) && result.distance == dist
      invariant result.subjectStartIdx == old(result.subjectStartIdx)
      invariant m == 0 ==> result.path == Repeat(InsertionOp, n - i)
      invariant m > 0 ==> Traced(query, subject, result.path, i, j, n, jEnd, dist)
    {
      if m > 0 {
        TraceStep(query, subject, n, jEnd, result.path, dist, i, j, InsertionOp, i - 1, j);
      }
      result.AddBacktrack(InsertionOp);
      i := i - 1;
    }
  }

  /** One step of the traceback: the move that produced cell (i, j), recorded at the front of the path. */
  method TraceBackStep(scores: array2<int>, query: seq<char>, subject: seq<char>, result: AlignmentResult,
                       i0: nat, j0: nat, ghost n: nat, ghost jEnd: nat, ghost dist: int)
    returns (i: nat, j: nat)
    requires scores.Length0 == |query| + 1 && scores.Length1 == |subject| + 1
    requires forall a, b {:trigger scores[a, b]} :: 0 <= a <= |query| && 0 <= b <= |subject| ==> scores[a, b] == Score(query, subject, a, b)
    requires 0 < i0 && 0 < j0 && Traced(query, subject, result.path, i0, j0, n, jEnd, dist)
    modifies result
    ensures result.distance == old(result.distance) && result.subjectLastIdx == old(result.subjectLastIdx)
    ensures result.subjectStartIdx == old(result.subjectStartIdx)
    ensures i <= i0 && j <= j0 && i + j < i0 + j0
    ensures Traced(query, subject, result.path, i, j, n, jEnd, dist)
  {
    i, j := i0, j0;
    var d := if query[i - 1] != subject[j - 1] then 1 else 0;
    var sD := scores[i - 1, j - 1] + d;
    var sA := 1 + scores[i - 1, j];
    assert scores[i, j] == Score(query, subject, i, j);
    assert scores[i - 1, j - 1] == Score(query, subject, i - 1, j - 1);
    assert scores[i - 1, j] == Score(query, subject, i - 1, j);
    if sD == scores[i, j] {
      TraceStep(query, subject, n, jEnd, result.path, dist, i, j, MatchOp, i - 1, j - 1);
      result.AddBacktrack(MatchOp);
      i, j := i - 1, j - 1;
    } else if sA == scores[i, j] {
      TraceStep(query, subject, n, jEnd, result.path, dist, i, j, InsertionOp, i - 1, j);
      result.AddBacktrack(InsertionOp);
      i := i - 1;
    } else {
      ScoreFromLeft(query, subject, i, j);
      TraceStep(query, subject, n, jEnd, result.path, dist, i, j, DeletionOp, i, j - 1);
      result.AddBacktrack(DeletionOp);
      j := j - 1;
    }
  }

  /**
   * smithWatermanLocalAlignment(query, subject). For a non-empty subject the distance is
   * the last row's minimum at its rightmost column, and the path lines up the whole read
   * against subject[subjectStartIdx..subjectLastIdx] at exactly that cost. An empty subject
   * leaves the column search unset and the path all insertions.
   */
  method SmithWatermanLocalAlignment(query: seq<char>, subject: seq<char>) returns (result: AlignmentResult)
    ensures fresh(result)
    ensures |subject| == 0 ==>
      && result.distance == |query| + 1 && result.subjectLastIdx == -2
      && result.subjectStartIdx == -1 && result.path == Repeat(InsertionOp, |query|)
    ensures |subject| > 0 ==>
      && 0 <= result.subjectStartIdx <= result.subjectLastIdx + 1 <= |subject|
      && 1 <= result.subjectLastIdx + 1
    ensures |subject| > 0 ==> result.distance == Score(query, subject, |query|, result.subjectLastIdx + 1)
    ensures |subject| > 0 ==> forall j :: 1 <= j <= |subject| ==> result.distance <= Score(query, subject, |query|, j)
    ensures |subject| > 0 ==> forall j :: result.subjectLastIdx + 1 < j <= |subject| ==>
      result.distance < Score(query, subject, |query|, j)
    ensures |subject| > 0 ==>
      && Aligns(result.path, query, subject, 0, result.subjectStartIdx, |query|, result.subjectLastIdx + 1)
      && Cost(result.path, query, subject, 0, result.subjectStartIdx, |query|, result.subjectLastIdx + 1) == result.distance
    ensures result.distance == SmithWatermanDistance(query, subject)
    ensures |subject| > 0 ==> result.subjectLastIdx + 1 == BestColumn(query, subject, |subject|)
  {
    var n, m := |query|, |subject|;
    var scores, minLastRow, minJLastRow := FillScores(query, subject);
    if m > 0 {
      LastRowMinIsBest(query, subject, minLastRow, minJLastRow);
    }
    var i := n;
    var j := minJLastRow;
    ghost var jEnd := minJLastRow;
    result := new AlignmentResult();
    result.subjectLastIdx := minJLastRow - 1;
    result.distance := minLastRow;
    assert m == 0 ==> minLastRow == n + 1;
    i, j := TraceToEdge(scores, query, subject, result, i, j);
    result.subjectStartIdx := j;
    TraceToTop(query, subject, result, i, j, jEnd);
    if m > 0 {
      TracedFromTop(query, subject, result.path, j, n, jEnd, minLastRow);
    }
  }
}
