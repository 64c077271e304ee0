/**
 * The text held by a buffer of packed words (AbstractLimitedSequence): every word but the
 * last holds MaxHashSize characters, the last one holds lastHashSize of them.
 */
module PackedText {
  import opened PackedCodec

  /** The words needed for `l` characters, ⌈l / MaxHashSize⌉: one per full word, one for the rest. */
  function WordCount(a: Alphabet, l: nat): nat
    requires ValidAlphabet(a)
    decreases l
  {
    if l == 0 then 0
    else if l <= MaxHashSize(a) then 1
    else 1 + WordCount(a, l - MaxHashSize(a))
  }

  /** How many characters the last word holds when the text has `l` characters. */
  function LastSize(a: Alphabet, l: nat): nat
    requires ValidAlphabet(a)
  {
    if l == 0 then 0
    else
      WordCountBounds(a, l);
      l - (WordCount(a, l) - 1) * MaxHashSize(a)
  }

  /**
   * getHashSize(pos) for a buffer of `n` words whose last word holds `h` characters:
   * MaxHashSize before the last word, `h` at it and 0 past it.
   */
  function HashSize(a: Alphabet, n: nat, h: nat, pos: int): nat
    requires ValidAlphabet(a)
  {
    if pos < n - 1 then MaxHashSize(a) else if pos == n - 1 then h else 0
  }

  /** The characters of words lo..hi-1 of `ws`, each decoded with its own size. */
  function Text(a: Alphabet, ws: seq<int32>, h: nat, lo: nat, hi: nat): (r: seq<char>)
    requires ValidAlphabet(a) && lo <= hi <= |ws|
    decreases hi - lo
  {
    if lo == hi then []
    else Text(a, ws, h, lo, hi - 1) + WordText(a, ws[hi - 1], HashSize(a, |ws|, h, hi - 1))
  }

  // ---------------------------------------------------------------- word-count arithmetic

  /** ⌈l / M⌉ is the one k with (k-1)·M < l <= k·M (0 for the empty text). */
  lemma {:induction false} WordCountBounds(a: Alphabet, l: nat)
    requires ValidAlphabet(a)
    ensures l == 0 <==> WordCount(a, l) == 0
    ensures l > 0 ==> (WordCount(a, l) - 1) * MaxHashSize(a) < l <= WordCount(a, l) * MaxHashSize(a)
    decreases l
  {
    var m := MaxHashSize(a);
    if l > m {
      WordCountBounds(a, l - m);
      var w := WordCount(a, l - m);
      MulPred(w + 1, m);
      MulPred(w, m);
    }
  }

  lemma WordCountIs(a: Alphabet, l: nat, k: nat)
    requires ValidAlphabet(a) && k >= 1
    requires (k - 1) * MaxHashSize(a) < l <= k * MaxHashSize(a)
    ensures WordCount(a, l) == k
  {
    var m, w := MaxHashSize(a), WordCount(a, l);
    WordCountBounds(a, l);
    if w < k {
      MulMonoInt(w, k - 1, m);
    } else if w > k {
      MulMonoInt(k, w - 1, m);
    }
  }

  lemma MulMonoInt(x: int, y: int, m: nat)
    requires x <= y
    ensures x * m <= y * m
  {
    assert y * m - x * m == (y - x) * m;
  }

  /** The last word holds between 1 and MaxHashSize characters of a non-empty text. */
  lemma LastSizeBounds(a: Alphabet, l: nat)
    requires ValidAlphabet(a)
    ensures l == 0 ==> LastSize(a, l) == 0
    ensures l > 0 ==> 1 <= LastSize(a, l) <= MaxHashSize(a)
  {
    if l > 0 {
      WordCountBounds(a, l);
      var k := WordCount(a, l);
      assert k * MaxHashSize(a) == (k - 1) * MaxHashSize(a) + MaxHashSize(a);
    }
  }

  /** The last word of a non-empty text ends where WordCount full words would. */
  lemma LastWordEnd(a: Alphabet, l: nat)
    requires ValidAlphabet(a) && l > 0
    ensures l - LastSize(a, l) + MaxHashSize(a) == WordCount(a, l) * MaxHashSize(a)
  {
    var m, w := MaxHashSize(a), WordCount(a, l);
    assert LastSize(a, l) == l - (w - 1) * m;
    MulPred(w, m);
  }

  lemma MulPred(w: int, m: int)
    ensures w * m == (w - 1) * m + m
  {
  }

  /** Adding `k` full words to a non-empty text: k more words, same last size. */
  lemma WordCountShift(a: Alphabet, x: nat, k: nat, y: nat)
    requires ValidAlphabet(a) && x > 0 && y == x + k * MaxHashSize(a)
    ensures WordCount(a, y) == WordCount(a, x) + k
    ensures LastSize(a, y) == LastSize(a, x)
  {
    var m, w := MaxHashSize(a), WordCount(a, x);
    WordCountBounds(a, x);
    assert (w + k - 1) * m == (w - 1) * m + k * m;
    assert (w + k) * m == w * m + k * m;
    WordCountIs(a, y, w + k);
  }

  /** One full word fewer. */
  lemma WordCountStep(a: Alphabet, x: nat, y: int)
    requires ValidAlphabet(a) && WordCount(a, x) >= 2 && y == x - MaxHashSize(a)
    ensures y > 0
    ensures WordCount(a, y) == WordCount(a, x) - 1
    ensures LastSize(a, y) == LastSize(a, x)
  {
    var m, w := MaxHashSize(a), WordCount(a, x);
    WordCountBounds(a, x);
    MulMonoInt(1, w - 1, m);
    WordCountShift(a, x - m, 1, x);
  }

  /** A single word: the whole text is the last word. */
  lemma WordCountOne(a: Alphabet, x: nat)
    requires ValidAlphabet(a) && WordCount(a, x) == 1
    ensures 0 < x <= MaxHashSize(a) && LastSize(a, x) == x
  {
    WordCountBounds(a, x);
  }

  // ---------------------------------------------------------------- text lemmas

  lemma {:induction false} TextSplit(a: Alphabet, ws: seq<int32>, h: nat, lo: nat, mid: nat, hi: nat)
    requires ValidAlphabet(a) && lo <= mid <= hi <= |ws|
    ensures Text(a, ws, h, lo, hi) == Text(a, ws, h, lo, mid) + Text(a, ws, h, mid, hi)
    decreases hi - mid
  {
    if mid < hi {
      TextSplit(a, ws, h, lo, mid, hi - 1);
    }
  }

  /** The text of a range depends only on the words in it and on their sizes. */
  lemma {:induction false} TextFrame(a: Alphabet, ws: seq<int32>, h: nat, ws': seq<int32>, h': nat, lo: nat, hi: nat)
    requires ValidAlphabet(a) && lo <= hi <= |ws| && hi <= |ws'|
    requires forall k :: lo <= k < hi ==> ws[k] == ws'[k]
    requires forall k :: lo <= k < hi ==> HashSize(a, |ws|, h, k) == HashSize(a, |ws'|, h', k)
    ensures Text(a, ws, h, lo, hi) == Text(a, ws', h', lo, hi)
    decreases hi - lo
  {
    if lo < hi {
      TextFrame(a, ws, h, ws', h', lo, hi - 1);
    }
  }

  /** Full words only: the range ends before the last word of both buffers. */
  lemma TextFrameFull(a: Alphabet, ws: seq<int32>, h: nat, ws': seq<int32>, h': nat, lo: nat, hi: nat)
    requires ValidAlphabet(a) && lo <= hi && hi < |ws| && hi < |ws'|
    requires forall k :: lo <= k < hi ==> ws[k] == ws'[k]
    ensures Text(a, ws, h, lo, hi) == Text(a, ws', h', lo, hi)
  {
    TextFrame(a, ws, h, ws', h', lo, hi);
  }

  /** Full words hold MaxHashSize characters each. */
  lemma {:induction false} TextFullLength(a: Alphabet, ws: seq<int32>, h: nat, lo: nat, hi: nat)
    requires ValidAlphabet(a) && lo <= hi < |ws|
    ensures |Text(a, ws, h, lo, hi)| == (hi - lo) * MaxHashSize(a)
    decreases hi - lo
  {
    if lo < hi {
      TextFullLength(a, ws, h, lo, hi - 1);
      assert (hi - lo) * MaxHashSize(a) == (hi - 1 - lo) * MaxHashSize(a) + MaxHashSize(a);
    }
  }

  /** A buffer of n >= 1 words holds (n-1)·MaxHashSize + h characters. */
  lemma TextLength(a: Alphabet, ws: seq<int32>, h: nat)
    requires ValidAlphabet(a) && |ws| >= 1
    ensures |Text(a, ws, h, 0, |ws|)| == (|ws| - 1) * MaxHashSize(a) + h
  {
    TextFullLength(a, ws, h, 0, |ws| - 1);
  }

  /**
   * Position p = q·M + r of the text lies in word q at offset r (charAt's relPos and subPos).
   */
  lemma TextAt(a: Alphabet, ws: seq<int32>, h: nat, q: nat, r: nat, p: nat)
    requires ValidAlphabet(a) && q < |ws| && r < HashSize(a, |ws|, h, q)
    requires p == q * MaxHashSize(a) + r
    ensures p < |Text(a, ws, h, 0, |ws|)|
    ensures Text(a, ws, h, 0, |ws|)[p] == WordText(a, ws[q], HashSize(a, |ws|, h, q))[r]
  {
    var n := |ws|;
    TextSplit(a, ws, h, 0, q, n);
    TextSplit(a, ws, h, q, q + 1, n);
    TextFullLength(a, ws, h, 0, q);
  }

  /** The text of a buffer is its full words followed by its last word, decoded with size h. */
  lemma TextLast(a: Alphabet, ws: seq<int32>, h: nat)
    requires ValidAlphabet(a) && |ws| >= 1
    ensures Text(a, ws, h, 0, |ws|) == Text(a, ws, h, 0, |ws| - 1) + WordText(a, ws[|ws| - 1], h)
  {
  }

  /** Extending a range of full words by one more full word. */
  lemma TextStepFull(a: Alphabet, ws: seq<int32>, h: nat, lo: nat, hi: nat)
    requires ValidAlphabet(a) && lo <= hi && hi + 1 < |ws|
    ensures Text(a, ws, h, lo, hi + 1) == Text(a, ws, h, lo, hi) + WordText(a, ws[hi], MaxHashSize(a))
  {
  }

  /** A range ending at the last word: its full words, then the last word decoded with size h. */
  lemma TextLastFrom(a: Alphabet, ws: seq<int32>, h: nat, lo: nat)
    requires ValidAlphabet(a) && lo < |ws|
    ensures Text(a, ws, h, lo, |ws|) == Text(a, ws, h, lo, |ws| - 1) + WordText(a, ws[|ws| - 1], h)
  {
  }

  /** The text of words q..q+1 is word q decoded. */
  lemma TextOne(a: Alphabet, ws: seq<int32>, h: nat, q: nat)
    requires ValidAlphabet(a) && q < |ws|
    ensures Text(a, ws, h, q, q + 1) == WordText(a, ws[q], HashSize(a, |ws|, h, q))
  {
  }

  /** Word q occupies [q·M, q·M + size) of the text. */
  lemma TextWordSpan(a: Alphabet, ws: seq<int32>, h: nat, q: nat, lo: nat)
    requires ValidAlphabet(a) && q < |ws| && lo == q * MaxHashSize(a)
    ensures lo + HashSize(a, |ws|, h, q) <= |Text(a, ws, h, 0, |ws|)|
    ensures Text(a, ws, h, 0, |ws|)[lo..lo + HashSize(a, |ws|, h, q)] == WordText(a, ws[q], HashSize(a, |ws|, h, q))
  {
    var n := |ws|;
    TextSplit(a, ws, h, 0, q, n);
    TextSplit(a, ws, h, q, q + 1, n);
    TextFullLength(a, ws, h, 0, q);
  }
}
