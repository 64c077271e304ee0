/**
 * The CIGAR field of an alignment (section 1.4 of the SAM format specification): the
 * alignment path written as runs of "<count><operation>". AlignmentResult.getCigarString
 * produces it from the traceback path.
 */
module Cigar {
  import opened Common

  /** ALIGNMENT_CHAR_CODES at the match, insertion and deletion codes: the SAM letters. */
  const MatchOp: char := 'M'
  const InsertionOp: char := 'I'
  const DeletionOp: char := 'D'

  /** `count` consecutive copies of `op`. */
  datatype Run = Run(count: nat, op: char)

  /** The runs of `path`, read left to right as getCigarString reads it. */
  function RunLength(path: seq<char>): seq<Run>
    decreases |path|
  {
    if path == [] then [] else AddOp(RunLength(path[..|path| - 1]), path[|path| - 1])
  }

  /** One more operation: it lengthens the last run when it repeats that run's operation, else opens a run. */
  function AddOp(r: seq<Run>, c: char): seq<Run> {
    if r != [] && r[|r| - 1].op == c then r[..|r| - 1] + [Run(r[|r| - 1].count + 1, c)]
    else r + [Run(1, c)]
  }

  /** `n` copies of `c`. */
  function Repeat(c: char, n: nat): (r: seq<char>)
    ensures |r| == n && forall i :: 0 <= i < n ==> r[i] == c
  {
    if n == 0 then [] else Repeat(c, n - 1) + [c]
  }

  /** The operations `runs` stands for. */
  function Expand(runs: seq<Run>): seq<char>
    decreases |runs|
  {
    if runs == [] then []
    else Expand(runs[..|runs| - 1]) + Repeat(runs[|runs| - 1].op, runs[|runs| - 1].count)
  }

  /** Every run is non-empty and no two neighbours share an operation. */
  ghost predicate WellFormed(runs: seq<Run>)
  {
    (forall k :: 0 <= k < |runs| ==> runs[k].count >= 1)
    && (forall k :: 0 < k < |runs| ==> runs[k - 1].op != runs[k].op)
  }

  predicate IsDigit(c: char) {
    '0' <= c <= '9'
  }

  function DigitChar(d: nat): char
    requires d < 10
  {
    ('0' as int + d) as char
  }

  /** Integer.toString for a non-negative count: decimal digits, no leading zero. */
  function Decimal(n: nat): string
    decreases n
  {
    if n < 10 then [DigitChar(n)] else Decimal(n / 10) + [DigitChar(n % 10)]
  }

  /** The CIGAR text of `runs`: each run as its decimal count followed by its operation. */
  function Render(runs: seq<Run>): string
    decreases |runs|
  {
    if runs == [] then ""
    else Render(runs[..|runs| - 1]) + Decimal(runs[|runs| - 1].count) + [runs[|runs| - 1].op]
  }

  // ------------------------------------------------------------ the encoder

  /** The loop of getCigarString: count the current run, write it out when the operation changes. */
  method EncodeRuns(path: seq<char>) returns (cigar: string)
    ensures cigar == Render(RunLength(path))
  {
    cigar := "";
    var nextCount := 0;
    var next: char := 0 as char;
    var k := 0;
    ghost var done: seq<Run> := [];
    while k < |path|
      invariant 0 <= k <= |path|
      invariant cigar == Render(done)
      invariant k == 0 ==> nextCount == 0 && done == [] && next == 0 as char
      invariant k > 0 ==> nextCount >= 1 && next == path[k - 1] && RunLength(path[..k]) == done + [Run(nextCount, next)]
    {
      var c := path[k];
      assert path[..k + 1][..k] == path[..k];
      if c != next {
        if nextCount > 0 {
          assert (done + [Run(nextCount, next)])[..|done|] == done;
          cigar := cigar + Decimal(nextCount) + [next];
          done := done + [Run(nextCount, next)];
        }
        nextCount := 1;
        next := c;
      } else {
        nextCount := nextCount + 1;
      }
      k := k + 1;
    }
    assert path[..k] == path;
    if nextCount > 0 {
      assert (done + [Run(nextCount, next)])[..|done|] == done;
      cigar := cigar + Decimal(nextCount) + [next];
      done := done + [Run(nextCount, next)];
    }
  }

  // ------------------------------------------------------------ round trips

  /** Expanding the encoding gives the path back. */
  lemma {:induction false} RunLengthExpands(path: seq<char>)
    ensures Expand(RunLength(path)) == path
    decreases |path|
  {
    if path != [] {
      var p, c := path[..|path| - 1], path[|path| - 1];
      assert path == p + [c];
      RunLengthExpands(p);
      var r := RunLength(p);
      if r != [] && r[|r| - 1].op == c {
        ExpandMerge(r, c);
      } else {
        ExpandPush(r, c);
      }
    }
  }

  /** Growing the last run by one operation adds that operation to the expansion. */
  lemma ExpandMerge(r: seq<Run>, c: char)
    requires r != [] && r[|r| - 1].op == c
    ensures Expand(r[..|r| - 1] + [Run(r[|r| - 1].count + 1, c)]) == Expand(r) + [c]
  {
    var init, last := r[..|r| - 1], r[|r| - 1];
    assert r == init + [last];
    ExpandSnoc(init, last);
    ExpandSnoc(init, Run(last.count + 1, c));
    RepeatSnoc(c, last.count + 1);
    SnocAssoc(Expand(init), Repeat(c, last.count), c);
  }

  /** The expansion of one more run. */
  lemma ExpandSnoc(init: seq<Run>, run: Run)
    ensures Expand(init + [run]) == Expand(init) + Repeat(run.op, run.count)
  {
    assert (init + [run])[..|init|] == init;
  }

  /** A new one-operation run adds that operation to the expansion. */
  lemma ExpandPush(r: seq<Run>, c: char)
    ensures Expand(r + [Run(1, c)]) == Expand(r) + [c]
  {
    var r' := r + [Run(1, c)];
    assert r'[..|r'| - 1] == r;
    assert Repeat(c, 1) == [c];
  }

  /** The encoding has no empty run and never repeats an operation in neighbouring runs. */
  lemma {:induction false} RunLengthWellFormed(path: seq<char>)
    ensures WellFormed(RunLength(path))
    ensures path != [] ==> RunLength(path) != [] && RunLength(path)[|RunLength(path)| - 1].op == path[|path| - 1]
    decreases |path|
  {
    if path != [] {
      var p, c := path[..|path| - 1], path[|path| - 1];
      RunLengthWellFormed(p);
      AddOpWellFormed(RunLength(p), c);
    }
  }

  /** One more operation keeps the runs well formed and makes it the last run's operation. */
  lemma AddOpWellFormed(r: seq<Run>, c: char)
    requires WellFormed(r)
    ensures WellFormed(AddOp(r, c))
    ensures AddOp(r, c) != [] && AddOp(r, c)[|AddOp(r, c)| - 1].op == c
  {
    var r' := AddOp(r, c);
    if r != [] && r[|r| - 1].op == c {
      assert |r'| == |r|;
      forall k | 0 <= k < |r'| - 1 ensures r'[k] == r[k] {
      }
      assert r'[|r'| - 1].op == r[|r| - 1].op;
    } else {
      assert r' == r + [Run(1, c)];
      forall k | 0 <= k < |r| ensures r'[k] == r[k] {
      }
    }
  }

  /** A well-formed run list is the encoding of its own expansion: the encoding is unique. */
  lemma {:induction false} RunLengthOfExpand(runs: seq<Run>)
    requires WellFormed(runs)
    ensures RunLength(Expand(runs)) == runs
    decreases |runs|
  {
    if runs != [] {
      var init, last := runs[..|runs| - 1], runs[|runs| - 1];
      assert WellFormed(init);
      RunLengthOfExpand(init);
      assert runs == init + [last];
      ExpandRun(init, last.op, last.count);
    }
  }

  /** Appending `n` copies of an operation that differs from the last run's adds one run. */
  lemma {:induction false} ExpandRun(init: seq<Run>, op: char, n: nat)
    requires n >= 1 && RunLength(Expand(init)) == init
    requires init != [] ==> init[|init| - 1].op != op
    ensures RunLength(Expand(init) + Repeat(op, n)) == init + [Run(n, op)]
    decreases n
  {
    var e := Expand(init);
    var x := e + Repeat(op, n - 1);
    RepeatSnoc(op, n);
    SnocAssoc(e, Repeat(op, n - 1), op);
    assert e + Repeat(op, n) == x + [op];
    RunLengthSnoc(x, op);
    if n == 1 {
      assert x == e;
      assert AddOp(init, op) == init + [Run(1, op)];
    } else {
      ExpandRun(init, op, n - 1);
      var r := init + [Run(n - 1, op)];
      assert r[..|r| - 1] == init;
      assert AddOp(r, op) == init + [Run(n, op)];
    }
  }

  /** getCigarString's step: one more operation either grows the last run or opens a new one. */
  lemma RunLengthSnoc(x: seq<char>, c: char)
    ensures RunLength(x + [c]) == AddOp(RunLength(x), c)
  {
    assert (x + [c])[..|x|] == x;
  }

  lemma RepeatSnoc(c: char, n: nat)
    requires n >= 1
    ensures Repeat(c, n) == Repeat(c, n - 1) + [c]
  {
  }

  lemma SnocAssoc<T>(x: seq<T>, y: seq<T>, c: T)
    ensures x + (y + [c]) == (x + y) + [c]
  {
  }

  // ------------------------------------------------------------ reading the text back

  /** The value of a run of decimal digits. */
  function DigitsValue(ds: string): nat
    decreases |ds|
  {
    if ds == [] then 0
    else
      var d := ds[|ds| - 1] as int - '0' as int;
      DigitsValue(ds[..|ds| - 1]) * 10 + (if 0 <= d < 10 then d else 0)
  }

  /** How many digits end `s`. */
  function TrailingDigits(s: string): (k: nat)
    ensures k <= |s|
    decreases |s|
  {
    if s != [] && IsDigit(s[|s| - 1]) then TrailingDigits(s[..|s| - 1]) + 1 else 0
  }

  /** Reads CIGAR text back into runs, from its last run to its first. */
  function ParseCigar(s: string): Option<seq<Run>>
    decreases |s|
  {
    if s == [] then Some([])
    else
      var op := s[|s| - 1];
      var body := s[..|s| - 1];
      var k := TrailingDigits(body);
      if IsDigit(op) || k == 0 then None
      else
        match ParseCigar(body[..|body| - k])
        case None => None
        case Some(init) => Some(init + [Run(DigitsValue(body[|body| - k..]), op)])
  }

  lemma {:induction false} DecimalDigits(n: nat)
    ensures Decimal(n) != [] && DigitsValue(Decimal(n)) == n
    ensures forall i :: 0 <= i < |Decimal(n)| ==> IsDigit(Decimal(n)[i])
    decreases n
  {
    if n >= 10 {
      DecimalDigits(n / 10);
      var d := Decimal(n);
      assert d[..|d| - 1] == Decimal(n / 10);
    }
  }

  lemma {:induction false} TrailingDigitsOf(t: string, d: string)
    requires t == [] || !IsDigit(t[|t| - 1])
    requires forall i :: 0 <= i < |d| ==> IsDigit(d[i])
    ensures TrailingDigits(t + d) == |d|
    decreases |d|
  {
    if d == [] {
      assert t + d == t;
    } else {
      assert (t + d)[..|t + d| - 1] == t + d[..|d| - 1];
      TrailingDigitsOf(t, d[..|d| - 1]);
    }
  }

  /** Reading the CIGAR text back gives the runs, when no operation is itself a digit. */
  lemma {:induction false} ParseRender(runs: seq<Run>)
    requires forall k :: 0 <= k < |runs| ==> !IsDigit(runs[k].op)
    ensures ParseCigar(Render(runs)) == Some(runs)
    decreases |runs|
  {
    if runs != [] {
      var init, last := runs[..|runs| - 1], runs[|runs| - 1];
      assert runs == init + [last];
      ParseRender(init);
      RenderEnd(init);
      ParseRenderStep(init, last);
    }
  }

  /** The parser reads back one more rendered run. */
  lemma ParseRenderStep(init: seq<Run>, last: Run)
    requires ParseCigar(Render(init)) == Some(init)
    requires Render(init) == [] || !IsDigit(Render(init)[|Render(init)| - 1])
    requires !IsDigit(last.op)
    ensures ParseCigar(Render(init + [last])) == Some(init + [last])
  {
    var runs := init + [last];
    assert runs[..|runs| - 1] == init;
    DecimalDigits(last.count);
    ParseStep(Render(init), Decimal(last.count), last.op, init);
  }

  /** One more run after text that parses: the parser reads the run and then the text before it. */
  lemma ParseStep(t: string, d: string, op: char, init: seq<Run>)
    requires ParseCigar(t) == Some(init)
    requires t == [] || !IsDigit(t[|t| - 1])
    requires d != [] && forall i :: 0 <= i < |d| ==> IsDigit(d[i])
    requires !IsDigit(op)
    ensures ParseCigar(t + d + [op]) == Some(init + [Run(DigitsValue(d), op)])
  {
    var s := t + d + [op];
    var body := s[..|s| - 1];
    assert body == t + d;
    TrailingDigitsOf(t, d);
    assert body[..|body| - |d|] == t;
    assert body[|body| - |d|..] == d;
  }

  /** Rendered text is empty or ends with the last run's operation. */
  lemma RenderEnd(runs: seq<Run>)
    requires forall k :: 0 <= k < |runs| ==> !IsDigit(runs[k].op)
    ensures Render(runs) == [] || !IsDigit(Render(runs)[|Render(runs)| - 1])
  {
  }
}
