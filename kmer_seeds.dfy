/**
 * Seed selection of the k-mer based aligner (ReadsAligner.selectKmers): the read is cut
 * into consecutive 15-mers, and one more 15-mer ending at the read's end covers a tail the
 * consecutive windows miss. Windows that are not DNA are skipped.
 */
module KmerSeeds {

  /** SEARCH_KMER_LENGTH. */
  const KmerLength: nat := 15

  /** KmerWithStart: a seed and where it starts in the read. */
  datatype KmerWithStart = KmerWithStart(kmer: string, start: nat)

  /** The starts the loop of selectKmers visits from offset i on: i, i + 15, ... while the window fits. */
  function LoopStarts(n: nat, i: nat): seq<nat>
    decreases n - i
  {
    if i + KmerLength <= n then [i] + LoopStarts(n, i + KmerLength) else []
  }

  /** The value of the loop variable once the loop of selectKmers stops. */
  function LoopEnd(n: nat, i: nat): nat
    decreases n - i
  {
    if i + KmerLength <= n then LoopEnd(n, i + KmerLength) else i
  }

  /** lastPos after the loop: the last visited start, or 0 when the loop never ran. */
  function LastLoopStart(n: nat): int {
    var e := LoopEnd(n, 0);
    if e == 0 then 0 else e - KmerLength
  }

  /** Every window selectKmers looks at, in the order it looks at them. */
  function WindowStarts(n: nat): seq<nat> {
    LoopStarts(n, 0) + (if n - KmerLength > LastLoopStart(n) then [n - KmerLength] else [])
  }

  /** Every window fits in a read of length n. */
  ghost predicate Fits(starts: seq<nat>, n: nat) {
    forall k :: 0 <= k < |starts| ==> starts[k] + KmerLength <= n
  }

  /** The seeds taken from the windows at `starts`: those the DNA check accepts. */
  function Kept(s: string, starts: seq<nat>, isDNA: string -> bool): seq<KmerWithStart>
    requires Fits(starts, |s|)
    decreases |starts|
  {
    if starts == [] then []
    else
      var w := s[starts[0]..starts[0] + KmerLength];
      (if isDNA(w) then [KmerWithStart(w, starts[0])] else []) + Kept(s, starts[1..], isDNA)
  }

  // ------------------------------------------------------------ the windows

  lemma {:induction false} LoopStartsFacts(n: nat, i: nat)
    ensures Fits(LoopStarts(n, i), n)
    ensures forall k :: 0 <= k < |LoopStarts(n, i)| ==> LoopStarts(n, i)[k] == i + k * KmerLength
    ensures LoopEnd(n, i) == i + |LoopStarts(n, i)| * KmerLength
    ensures i <= LoopEnd(n, i) && n < LoopEnd(n, i) + KmerLength
    decreases n - i
  {
    if i + KmerLength <= n {
      LoopStartsFacts(n, i + KmerLength);
      var r := LoopStarts(n, i + KmerLength);
      assert LoopStarts(n, i) == [i] + r;
      forall k | 0 <= k < |LoopStarts(n, i)|
        ensures LoopStarts(n, i)[k] == i + k * KmerLength
      {
        if k > 0 {
          assert LoopStarts(n, i)[k] == r[k - 1];
        }
      }
    }
  }

  /** Every window fits, and the starts strictly increase. */
  lemma WindowsFitInOrder(n: nat)
    ensures Fits(WindowStarts(n), n)
    ensures forall k, l :: 0 <= k < l < |WindowStarts(n)| ==> WindowStarts(n)[k] < WindowStarts(n)[l]
  {
    LoopStartsFacts(n, 0);
    var ls := LoopStarts(n, 0);
    var w := WindowStarts(n);
    forall k, l | 0 <= k < l < |w|
      ensures w[k] < w[l]
    {
      if l < |ls| {
        assert w[k] == ls[k] && w[l] == ls[l];
      } else {
        assert w[l] == n - KmerLength && w[k] == ls[k];
        assert ls[k] <= LastLoopStart(n);
      }
    }
  }

  /** A read shorter than a k-mer has no window. */
  lemma ShortReadHasNoWindow(n: nat)
    requires n < KmerLength
    ensures WindowStarts(n) == []
  {
  }

  /** Together the windows cover every position of a read at least a k-mer long. */
  lemma WindowsCoverRead(n: nat, p: nat)
    requires KmerLength <= n && p < n
    ensures exists k :: 0 <= k < |WindowStarts(n)| && WindowStarts(n)[k] <= p < WindowStarts(n)[k] + KmerLength
  {
    LoopStartsFacts(n, 0);
    var ls, e := LoopStarts(n, 0), LoopEnd(n, 0);
    var w := WindowStarts(n);
    if p < e {
      var k := p / KmerLength;
      assert k < |ls|;
      assert ls[k] == k * KmerLength;
      assert w[k] == ls[k];
    } else {
      assert e >= KmerLength;
      assert w[|ls|] == n - KmerLength;
    }
  }

  // ------------------------------------------------------------ the seeds

  /** Each seed is the DNA window of the read at its start. */
  lemma {:induction false} KeptAreWindows(s: string, starts: seq<nat>, isDNA: string -> bool)
    requires Fits(starts, |s|)
    ensures forall x :: x in Kept(s, starts, isDNA) ==>
      && x.start in starts && x.start + KmerLength <= |s|
      && x.kmer == s[x.start..x.start + KmerLength] && isDNA(x.kmer)
    decreases |starts|
  {
    if starts != [] {
      KeptAreWindows(s, starts[1..], isDNA);
    }
  }

  /** Every window that passes the DNA check is a seed. */
  lemma {:induction false} KeptComplete(s: string, starts: seq<nat>, isDNA: string -> bool, k: nat)
    requires Fits(starts, |s|) && k < |starts|
    requires isDNA(s[starts[k]..starts[k] + KmerLength])
    ensures KmerWithStart(s[starts[k]..starts[k] + KmerLength], starts[k]) in Kept(s, starts, isDNA)
    decreases |starts|
  {
    if k > 0 {
      KeptComplete(s, starts[1..], isDNA, k - 1);
    }
  }

  // ------------------------------------------------------------ the loop

  /** selectKmers. */
  method SelectKmers(search: string, isDNA: string -> bool) returns (kmers: seq<KmerWithStart>)
    ensures Fits(WindowStarts(|search|), |search|)
    ensures kmers == Kept(search, WindowStarts(|search|), isDNA)
  {
    var n := |search|;
    var lastPos;
    kmers, lastPos := ConsecutiveKmers(search, isDNA);
    ghost var loopKmers := kmers;
    ghost var tail: seq<nat> := if n - KmerLength > lastPos then [n - KmerLength] else [];
    if n - KmerLength > lastPos {
      var kmer := search[n - KmerLength..n];
      if isDNA(kmer) {
        kmers := kmers + [KmerWithStart(kmer, n - KmerLength)];
      }
      assert tail[1..] == [];
    }
    assert kmers == loopKmers + Kept(search, tail, isDNA);
    WindowsFitInOrder(n);
    assert WindowStarts(n) == LoopStarts(n, 0) + tail;
    KeptAppend(search, LoopStarts(n, 0), tail, isDNA);
  }

  /** The loop of selectKmers: the consecutive windows, and the start of the last one. */
  method ConsecutiveKmers(search: string, isDNA: string -> bool) returns (kmers: seq<KmerWithStart>, lastPos: int)
    ensures Fits(LoopStarts(|search|, 0), |search|)
    ensures kmers == Kept(search, LoopStarts(|search|, 0), isDNA)
    ensures lastPos == LastLoopStart(|search|)
  {
    var n := |search|;
    LoopStartsFacts(n, 0);
    kmers := [];
    lastPos := 0;
    var i := 0;
    while i + KmerLength <= n
      invariant Fits(LoopStarts(n, i), n) && LoopEnd(n, i) == LoopEnd(n, 0)
      invariant i == 0 ==> lastPos == 0
      invariant i > 0 ==> i >= KmerLength && lastPos == i - KmerLength
      invariant kmers + Kept(search, LoopStarts(n, i), isDNA) == Kept(search, LoopStarts(n, 0), isDNA)
      decreases n - i
    {
      var kmer := search[i..i + KmerLength];
      ghost var before := kmers;
      if isDNA(kmer) {
        kmers := kmers + [KmerWithStart(kmer, i)];
      }
      KeptStep(search, n, i, isDNA, before, kmers);
      lastPos := i;
      i := i + KmerLength;
    }
    assert i == LoopEnd(n, 0);
    assert Kept(search, LoopStarts(n, i), isDNA) == [];
    assert kmers == kmers + [];
  }

  /** One turn of the loop of selectKmers moves the window at i from the pending part to the seeds. */
  lemma KeptStep(s: string, n: nat, i: nat, isDNA: string -> bool, before: seq<KmerWithStart>, after: seq<KmerWithStart>)
    requires n == |s| && i + KmerLength <= n && Fits(LoopStarts(n, i), n)
    requires var w := s[i..i + KmerLength]; after == before + (if isDNA(w) then [KmerWithStart(w, i)] else [])
    ensures Fits(LoopStarts(n, i + KmerLength), n)
    ensures before + Kept(s, LoopStarts(n, i), isDNA) == after + Kept(s, LoopStarts(n, i + KmerLength), isDNA)
  {
    var rest := LoopStarts(n, i + KmerLength);
    assert LoopStarts(n, i) == [i] + rest && ([i] + rest)[1..] == rest;
  }

  lemma {:induction false} KeptAppend(s: string, a: seq<nat>, b: seq<nat>, isDNA: string -> bool)
    requires Fits(a, |s|) && Fits(b, |s|)
    ensures Fits(a + b, |s|)
    ensures Kept(s, a + b, isDNA) == Kept(s, a, isDNA) + Kept(s, b, isDNA)
    decreases |a|
  {
    if a == [] {
      assert a + b == b;
    } else {
      KeptAppend(s, a[1..], b, isDNA);
      var w := s[a[0]..a[0] + KmerLength];
      var head := if isDNA(w) then [KmerWithStart(w, a[0])] else [];
      assert (a + b)[0] == a[0] && (a + b)[1..] == a[1..] + b;
      assert Kept(s, a + b, isDNA) == head + (Kept(s, a[1..], isDNA) + Kept(s, b, isDNA));
      assert Kept(s, a, isDNA) == head + Kept(s, a[1..], isDNA);
    }
  }
}
