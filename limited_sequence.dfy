/**
 * AbstractLimitedSequence: a character sequence stored as an array of 32-bit words, each
 * word holding up to MaxHashSize characters of a fixed alphabet as a base-|alphabet| number.
 * The abstract value of an object is its text, Chars(); every operation is specified
 * against it.
 */
module LimitedSequences {
  import opened Common
  import opened PackedCodec
  import opened PackedText

  /**
   * An AbstractLimitedSequence together with the alphabet its concrete subclass supplies
   * (getAlphabet / getDefaultIndex).
   */
  class LimitedSequence {
    const alphabet: Alphabet
    var sequence: array<int32>
    var lastHashSize: nat
    var length: nat

    /** The word count matches the length and the last word holds the remaining characters. */
    ghost predicate Valid()
      reads this
    {
      ValidAlphabet(alphabet)
      && sequence.Length == WordCount(alphabet, length)
      && lastHashSize == LastSize(alphabet, length)
    }

    /** The text this sequence stands for (what toString returns). */
    ghost function Chars(): (r: seq<char>)
      reads this, sequence
      requires Valid()
      ensures |r| == length
    {
      CharsLength(alphabet, sequence[..], length);
      Text(alphabet, sequence[..], lastHashSize, 0, sequence.Length)
    }

    /** A fresh sequence is empty. */
    constructor (a: Alphabet)
      requires ValidAlphabet(a)
      ensures Valid() && alphabet == a && length == 0 && Chars() == []
      ensures fresh(sequence)
    {
      alphabet := a;
      sequence := new int32[0];
      lastHashSize := 0;
      length := 0;
    }

    /** getHashSize(pos): the number of characters word `pos` holds. */
    function GetHashSize(pos: int): (size: nat)
      reads this
      requires Valid()
      ensures 0 <= pos < sequence.Length ==> 1 <= size <= MaxHashSize(alphabet)
      ensures pos < sequence.Length - 1 ==> size == MaxHashSize(alphabet)
      ensures pos == sequence.Length - 1 ==> size == lastHashSize
      ensures pos >= sequence.Length ==> size == 0
    {
      LastSizeBounds(alphabet, length);
      WordCountBounds(alphabet, length);
      HashSize(alphabet, sequence.Length, lastHashSize, pos)
    }

    /**
     * setSequence: replaces the contents by `s`. A character with no index (and no
     * default index) raises IllegalArgumentException after the buffer has already been
     * replaced; length and lastHashSize then keep their old values.
     */
    method SetSequence(s: seq<char>) returns (r: Outcome)
      requires Valid()
      modifies this
      ensures fresh(sequence)
      ensures r.Pass? <==> Encodable(alphabet, s)
      ensures r.Pass? ==> Valid() && length == |s| && Chars() == Normalize(alphabet, s)
      ensures r.Fail? ==> r.fault == IllegalArgument && sequence.Length == WordCount(alphabet, |s|)
      ensures r.Fail? ==> length == old(length) && lastHashSize == old(lastHashSize)
    {
      var l := |s|;
      var nHashNumbers := CalculateHashNumbers(l);
      WordCountBounds(alphabet, l);
      sequence := new int32[nHashNumbers];
      if l == 0 {
        lastHashSize := 0;
      } else {
        assert s[0..] == s;
        var e := EncodeAndAppendSequence(s, 0, sequence, 0);
        if e.Err? {
          return Fail(e.fault);
        }
        lastHashSize := e.value;
      }
      length := l;
      r := Pass;
    }

    /** calculateHashNumbers: length / maxHashSize words, one more when a remainder is left. */
    method CalculateHashNumbers(length: nat) returns (n: nat)
      requires ValidAlphabet(alphabet)
      ensures n == WordCount(alphabet, length)
    {
      var maxHashSize := MaxHashSize(alphabet);
      DivBounds(length, maxHashSize, length / maxHashSize);
      n := length / maxHashSize;
      if length % maxHashSize > 0 {
        n := n + 1;
      }
      CeilIsWordCount(alphabet, length, n);
    }

    /**
     * encodeAndAppendSequence: encodes s[firstPosAppend..] into newSequence from word
     * firstIndex on, full words first, and returns how many characters the last word got.
     */
    method EncodeAndAppendSequence(s: seq<char>, firstPosAppend: nat, newSequence: array<int32>, firstIndex: nat)
      returns (r: Result<nat>)
      requires ValidAlphabet(alphabet)
      requires firstIndex < newSequence.Length && firstPosAppend < |s|
      requires WordCount(alphabet, |s| - firstPosAppend) == newSequence.Length - firstIndex
      modifies newSequence
      ensures newSequence[..firstIndex] == old(newSequence[..firstIndex])
      ensures r.Ok? <==> Encodable(alphabet, s[firstPosAppend..])
      ensures r.Err? ==> r.fault == IllegalArgument
      ensures r.Ok? ==> r.value == LastSize(alphabet, |s| - firstPosAppend)
      ensures r.Ok? ==> Text(alphabet, newSequence[..], r.value, firstIndex, newSequence.Length)
                        == Normalize(alphabet, s[firstPosAppend..])
    {
      var nHashNumbers := newSequence.Length;
      var full := EncodeFullWords(s, firstPosAppend, newSequence, firstIndex);
      if full.Err? {
        return Err(full.fault);
      }
      var lastStart := full.value;
      WordCountOne(alphabet, |s| - lastStart);
      var lastHashS := |s| - lastStart;
      var w := GetHash(alphabet, s, lastStart, |s|);
      if w.Err? {
        EncodableSub(alphabet, s, firstPosAppend, lastStart, |s|);
        return Err(w.fault);
      }
      ghost var before := newSequence[..];
      newSequence[nHashNumbers - 1] := w.value;
      EncodeLast(alphabet, before, newSequence[..], firstIndex, s, firstPosAppend, lastStart, lastHashS);
      r := Ok(lastHashS);
    }

    /**
     * The loop of encodeAndAppendSequence: every word but the last gets MaxHashSize
     * characters; the result is where the characters of the last word start.
     */
    method EncodeFullWords(s: seq<char>, firstPosAppend: nat, newSequence: array<int32>, firstIndex: nat)
      returns (r: Result<nat>)
      requires ValidAlphabet(alphabet)
      requires firstIndex < newSequence.Length && firstPosAppend < |s|
      requires WordCount(alphabet, |s| - firstPosAppend) == newSequence.Length - firstIndex
      modifies newSequence
      ensures forall k :: 0 <= k < firstIndex ==> newSequence[k] == old(newSequence[k])
      ensures r.Err? ==> r.fault == IllegalArgument && !Encodable(alphabet, s[firstPosAppend..])
      ensures r.Ok? ==> firstPosAppend <= r.value < |s|
      ensures r.Ok? ==> WordCount(alphabet, |s| - r.value) == 1
      ensures r.Ok? ==> LastSize(alphabet, |s| - r.value) == LastSize(alphabet, |s| - firstPosAppend)
      ensures r.Ok? ==> Encodable(alphabet, s[firstPosAppend..r.value])
      ensures r.Ok? ==> Text(alphabet, newSequence[..], 0, firstIndex, newSequence.Length - 1)
                        == Normalize(alphabet, s[firstPosAppend..r.value])
    {
      var nHashNumbers := newSequence.Length;
      var maxHashSize := MaxHashSize(alphabet);
      var j := firstPosAppend;
      var i := firstIndex;
      while i < nHashNumbers - 1
        invariant firstIndex <= i <= nHashNumbers - 1
        invariant firstPosAppend <= j < |s|
        invariant WordCount(alphabet, |s| - j) == nHashNumbers - i
        invariant LastSize(alphabet, |s| - j) == LastSize(alphabet, |s| - firstPosAppend)
        invariant Encodable(alphabet, s[firstPosAppend..j])
        invariant forall k :: 0 <= k < firstIndex ==> newSequence[k] == old(newSequence[k])
        invariant Text(alphabet, newSequence[..], 0, firstIndex, i) == Normalize(alphabet, s[firstPosAppend..j])
      {
        WordCountStep(alphabet, |s| - j, |s| - (j + maxHashSize));
        var ok := EncodeWord(s, firstPosAppend, j, newSequence, firstIndex, i);
        if !ok {
          return Err(IllegalArgument);
        }
        j := j + maxHashSize;
        i := i + 1;
      }
      r := Ok(j);
    }

    /** One iteration of encodeAndAppendSequence's loop: word i gets s[j..j + MaxHashSize]. */
    method EncodeWord(s: seq<char>, firstPosAppend: nat, j: nat, newSequence: array<int32>, firstIndex: nat, i: nat)
      returns (ok: bool)
      requires ValidAlphabet(alphabet)
      requires firstIndex <= i && i + 1 < newSequence.Length
      requires firstPosAppend <= j && j + MaxHashSize(alphabet) <= |s|
      requires Encodable(alphabet, s[firstPosAppend..j])
      requires Text(alphabet, newSequence[..], 0, firstIndex, i) == Normalize(alphabet, s[firstPosAppend..j])
      modifies newSequence
      ensures forall k :: 0 <= k < firstIndex ==> newSequence[k] == old(newSequence[k])
      ensures !ok ==> !Encodable(alphabet, s[firstPosAppend..])
      ensures ok ==> Encodable(alphabet, s[firstPosAppend..j + MaxHashSize(alphabet)])
      ensures ok ==> Text(alphabet, newSequence[..], 0, firstIndex, i + 1)
                     == Normalize(alphabet, s[firstPosAppend..j + MaxHashSize(alphabet)])
    {
      var k := j + MaxHashSize(alphabet);
      var w := GetHash(alphabet, s, j, k);
      if w.Err? {
        EncodableSub(alphabet, s, firstPosAppend, j, k);
        return false;
      }
      ghost var before := newSequence[..];
      newSequence[i] := w.value;
      EncodeStep(alphabet, before, newSequence[..], firstIndex, i, s, firstPosAppend, j, k);
      assert newSequence[..firstIndex] == newSequence[..][..firstIndex];
      ok := true;
    }

    /**
     * append: adds `t` at the end. The characters of a partly filled last word (the
     * junction) are decoded and re-encoded together with the first characters of `t`.
     * A character of `t` without an index raises IllegalArgumentException and leaves
     * the sequence as it was.
     */
    method Append(t: seq<char>) returns (r: Outcome)
      requires Valid()
      modifies this, sequence
      ensures sequence == old(sequence) || fresh(sequence)
      ensures r.Pass? <==> Encodable(alphabet, t)
      ensures r.Pass? ==> Valid() && length == old(length) + |t|
      ensures r.Pass? ==> Chars() == old(Chars()) + Normalize(alphabet, t)
      ensures r.Fail? ==> r.fault == IllegalArgument && sequence == old(sequence)
      ensures r.Fail? ==> sequence[..] == old(sequence[..]) && length == old(length) && lastHashSize == old(lastHashSize)
    {
      if |t| == 0 {
        assert Normalize(alphabet, t) == [];
        return Pass;
      }
      var newLength := length + |t|;
      var nHashNumbers := CalculateHashNumbers(newLength);
      var maxHashSize := MaxHashSize(alphabet);
      AppendCases(alphabet, length, |t|, newLength);
      WordCountBounds(alphabet, length);
      var junction: seq<char> := [];
      if lastHashSize > 0 && lastHashSize < maxHashSize {
        junction := GetSequence(alphabet, sequence[sequence.Length - 1], lastHashSize);
      }
      if nHashNumbers == sequence.Length {
        r := AppendInLastWord(t, junction);
      } else {
        r := AppendInNewWords(t, junction);
      }
    }

    /** append when the new characters fit in the partly filled last word. */
    method AppendInLastWord(t: seq<char>, junction: seq<char>) returns (r: Outcome)
      requires Valid() && |t| > 0 && WordCount(alphabet, length + |t|) == sequence.Length
      requires 0 < lastHashSize < MaxHashSize(alphabet)
      requires sequence.Length >= 1 && junction == WordText(alphabet, sequence[sequence.Length - 1], lastHashSize)
      modifies this, sequence
      ensures sequence == old(sequence)
      ensures r.Pass? <==> Encodable(alphabet, t)
      ensures r.Pass? ==> Valid() && length == old(length) + |t|
      ensures r.Pass? ==> Chars() == old(Chars()) + Normalize(alphabet, t)
      ensures r.Fail? ==> r.fault == IllegalArgument
      ensures r.Fail? ==> sequence[..] == old(sequence[..]) && length == old(length) && lastHashSize == old(lastHashSize)
    {
      ghost var ws := sequence[..];
      ghost var oldText := Chars();
      var newLength := length + |t|;
      AppendCases(alphabet, length, |t|, newLength);
      LastSizeBounds(alphabet, newLength);
      JunctionText(alphabet, ws, lastHashSize, junction);
      JunctionEncodable(alphabet, junction, t);
      var joined := junction + t;
      var w := GetHash(alphabet, joined, 0, |joined|);
      if w.Err? {
        return Fail(w.fault);
      }
      assert joined[0..|joined|] == joined;
      sequence[sequence.Length - 1] := w.value;
      lastHashSize := |joined|;
      length := newLength;
      LastWordText(alphabet, ws, junction, t, sequence[..], lastHashSize);
      r := Pass;
    }

    /**
     * append when whole new words follow: a partly filled last word is topped up with
     * the first characters of `t`, the rest is encoded into a new, longer buffer.
     */
    method AppendInNewWords(t: seq<char>, junction: seq<char>) returns (r: Outcome)
      requires Valid() && |t| > 0 && WordCount(alphabet, length + |t|) > sequence.Length
      requires 0 < lastHashSize < MaxHashSize(alphabet) ==>
        sequence.Length >= 1 && junction == WordText(alphabet, sequence[sequence.Length - 1], lastHashSize)
      requires !(0 < lastHashSize < MaxHashSize(alphabet)) ==> junction == []
      modifies this
      ensures sequence == old(sequence) || fresh(sequence)
      ensures r.Pass? <==> Encodable(alphabet, t)
      ensures r.Pass? ==> Valid() && length == old(length) + |t|
      ensures r.Pass? ==> Chars() == old(Chars()) + Normalize(alphabet, t)
      ensures r.Fail? ==> r.fault == IllegalArgument
      ensures r.Fail? ==> sequence == old(sequence) && length == old(length) && lastHashSize == old(lastHashSize)
    {
      var grown := GrownBuffer(t, junction);
      if grown.Err? {
        return Fail(grown.fault);
      }
      lastHashSize := grown.value.1;
      sequence := grown.value.0;
      length := length + |t|;
      r := Pass;
    }

    /** The buffer and last-word size that append builds when whole new words follow. */
    method GrownBuffer(t: seq<char>, junction: seq<char>) returns (r: Result<(array<int32>, nat)>)
      requires Valid() && |t| > 0 && WordCount(alphabet, length + |t|) > sequence.Length
      requires 0 < lastHashSize < MaxHashSize(alphabet) ==>
        sequence.Length >= 1 && junction == WordText(alphabet, sequence[sequence.Length - 1], lastHashSize)
      requires !(0 < lastHashSize < MaxHashSize(alphabet)) ==> junction == []
      ensures r.Ok? <==> Encodable(alphabet, t)
      ensures r.Err? ==> r.fault == IllegalArgument
      ensures r.Ok? ==> fresh(r.value.0)
      ensures r.Ok? ==> r.value.0.Length == WordCount(alphabet, length + |t|)
      ensures r.Ok? ==> r.value.1 == LastSize(alphabet, length + |t|)
      ensures r.Ok? ==> Text(alphabet, r.value.0[..], r.value.1, 0, r.value.0.Length) == Chars() + Normalize(alphabet, t)
    {
      var newLength := length + |t|;
      var nHashNumbers := CalculateHashNumbers(newLength);
      var maxHashSize := MaxHashSize(alphabet);
      AppendPlan(alphabet, length, lastHashSize, sequence.Length, t, junction,
                 if |junction| > 0 then maxHashSize - |junction| else 0);
      JunctionText(alphabet, sequence[..], lastHashSize, junction);
      var firstPosAppend, topped := TopUp(t, junction, maxHashSize);
      r := FillNewWords(t, junction, firstPosAppend, topped, nHashNumbers);
    }

    /**
     * The second half of append when whole new words follow: the current words are copied
     * into a buffer of `n` words, the last of them topped up with t[..p], and t[p..]
     * is encoded into the new words.
     */
    method FillNewWords(t: seq<char>, junction: seq<char>, p: nat, topped: seq<char>, n: nat)
      returns (r: Result<(array<int32>, nat)>)
      requires Valid() && p < |t| && topped == junction + t[..p] && sequence.Length < n
      requires WordCount(alphabet, |t| - p) == n - sequence.Length
      requires forall i :: 0 <= i < |junction| ==> junction[i] in alphabet.chars
      requires |junction| > 0 ==> 1 <= sequence.Length && |junction| + p == MaxHashSize(alphabet)
      requires |junction| > 0 ==> junction == WordText(alphabet, sequence[sequence.Length - 1], lastHashSize)
      requires |junction| == 0 <==> p == 0
      requires sequence.Length == 0 ==> lastHashSize == 0
      requires sequence.Length > 0 && p == 0 ==> lastHashSize == MaxHashSize(alphabet)
      ensures r.Ok? <==> Encodable(alphabet, t)
      ensures r.Err? ==> r.fault == IllegalArgument
      ensures r.Ok? ==> fresh(r.value.0) && r.value.0.Length == n
      ensures r.Ok? ==> r.value.1 == LastSize(alphabet, |t| - p)
      ensures r.Ok? ==> Text(alphabet, r.value.0[..], r.value.1, 0, n) == Chars() + Normalize(alphabet, t)
    {
      ghost var ws := sequence[..];
      JunctionEncodable(alphabet, junction, t[..p]);
      var copied := CopyWords(n, topped);
      if copied.Err? {
        EncodableSplit(alphabet, t, p);
        return Err(copied.fault);
      }
      var newSequence := copied.value;
      ghost var patched := newSequence[..];
      var e := EncodeAndAppendSequence(t, p, newSequence, sequence.Length);
      EncodableSplit(alphabet, t, p);
      if e.Err? {
        return Err(e.fault);
      }
      AppendNewWords(alphabet, ws, lastHashSize, junction, t, p, patched, newSequence[..], e.value);
      r := Ok((newSequence, e.value));
    }

    /**
     * The new word buffer of append: `n` words, the current ones copied, the last of them
     * re-encoded from `topped` when that is not empty.
     */
    method CopyWords(n: nat, topped: seq<char>) returns (r: Result<array<int32>>)
      requires ValidAlphabet(alphabet) && sequence.Length <= n
      requires |topped| > 0 ==> 1 <= sequence.Length && |topped| <= MaxHashSize(alphabet)
      ensures r.Ok? <==> Encodable(alphabet, topped)
      ensures r.Err? ==> r.fault == IllegalArgument
      ensures r.Ok? ==> fresh(r.value) && r.value.Length == n
      ensures r.Ok? ==> forall k :: 0 <= k < sequence.Length ==>
        r.value[k] == if |topped| > 0 && k == sequence.Length - 1 then HashWord(alphabet, topped) else sequence[k]
    {
      var newSequence := new int32[n];
      forall k | 0 <= k < sequence.Length {
        newSequence[k] := sequence[k];
      }
      if |topped| > 0 {
        var w := GetHash(alphabet, topped, 0, |topped|);
        assert topped[0..|topped|] == topped;
        if w.Err? {
          return Err(w.fault);
        }
        newSequence[sequence.Length - 1] := w.value;
      }
      r := Ok(newSequence);
    }

    /**
     * subSequence(start, end): a new sequence of the same alphabet holding characters
     * [start, end). Note that start == length is refused even when end == start.
     */
    method SubSequence(start: int, end: int) returns (r: Result<LimitedSequence>)
      requires Valid()
      ensures r.Ok? <==> 0 <= start < length && 0 <= end <= length && start <= end
      ensures r.Err? ==> r.fault == IndexOutOfBounds
      ensures r.Ok? ==> fresh(r.value) && r.value.Valid() && r.value.alphabet == alphabet
      ensures r.Ok? ==> r.value.Chars() == Chars()[start..end]
    {
      if start < 0 || start >= length {
        return Err(IndexOutOfBounds);
      }
      if end < 0 || end > length {
        return Err(IndexOutOfBounds);
      }
      if end < start {
        return Err(IndexOutOfBounds);
      }
      var answer := new LimitedSequence(alphabet);
      if start == end {
        return Ok(answer);
      }
      ghost var ws := sequence[..];
      ghost var text := Chars();
      CharsLength(alphabet, ws, length);
      assert text == Text(alphabet, ws, LastSize(alphabet, length), 0, |ws|);
      var maxHashSize := MaxHashSize(alphabet);
      var relStart, relEnd := WordsSpanned(start, end);
      var i := relStart;
      while i < relEnd
        invariant relStart <= i <= relEnd
        invariant fresh(answer) && fresh(answer.sequence)
        invariant answer.Valid() && answer.alphabet == alphabet
        invariant answer.Chars() == text[start..Clamp(maxHashSize * i, start, end)]
      {
        AppendClippedWord(answer, start, end, relStart, relEnd, i);
        i := i + 1;
      }
      r := Ok(answer);
    }

    /** One pass of subSequence's loop: the clipped word i is appended to the answer. */
    method AppendClippedWord(answer: LimitedSequence, start: int, end: int, relStart: int, relEnd: int, i: int)
      requires Valid() && 0 <= start < end <= length
      requires relStart * MaxHashSize(alphabet) <= start < relStart * MaxHashSize(alphabet) + MaxHashSize(alphabet)
      requires (relEnd - 1) * MaxHashSize(alphabet) < end <= relEnd * MaxHashSize(alphabet)
      requires 0 <= relStart <= i < relEnd <= sequence.Length
      requires answer != this && answer.sequence != sequence
      requires answer.Valid() && answer.alphabet == alphabet
      requires answer.Chars() == Chars()[start..Clamp(MaxHashSize(alphabet) * i, start, end)]
      modifies answer, answer.sequence
      ensures answer.Valid() && (answer.sequence == old(answer.sequence) || fresh(answer.sequence))
      ensures answer.Chars() == Chars()[start..Clamp(MaxHashSize(alphabet) * (i + 1), start, end)]
    {
      ghost var text := Chars();
      var piece := ClippedWord(start, end, relStart, relEnd, i);
      AlphabetRunIsNormal(alphabet, piece);
      ghost var prev := answer.Chars();
      var ok := answer.Append(piece);
      SubSequenceGrows(text, start, end, MaxHashSize(alphabet), i, prev, piece, answer.Chars());
    }

    /** The first word holding position `start` and one past the word holding position end - 1. */
    method WordsSpanned(start: int, end: int) returns (relStart: int, relEnd: int)
      requires ValidAlphabet(alphabet) && 0 <= start < end <= length
      ensures 0 <= relStart < relEnd <= WordCount(alphabet, length)
      ensures relStart * MaxHashSize(alphabet) <= start < relStart * MaxHashSize(alphabet) + MaxHashSize(alphabet)
      ensures (relEnd - 1) * MaxHashSize(alphabet) < end <= relEnd * MaxHashSize(alphabet)
      ensures Clamp(MaxHashSize(alphabet) * relStart, start, end) == start
      ensures Clamp(MaxHashSize(alphabet) * relEnd, start, end) == end
    {
      var maxHashSize := MaxHashSize(alphabet);
      relStart := start / maxHashSize;
      relEnd := end / maxHashSize;
      if end % maxHashSize > 0 {
        relEnd := relEnd + 1;
      }
      SubSequenceRange(alphabet, length, start, end, relStart, relEnd);
    }

    /**
     * One pass of subSequence's loop: word i decoded and clipped to [start, end), that is
     * the characters of the text between the word's first position and the next word's.
     */
    method ClippedWord(start: int, end: int, relStart: int, relEnd: int, i: int) returns (piece: seq<char>)
      requires Valid() && 0 <= start < end <= length
      requires relStart * MaxHashSize(alphabet) <= start < relStart * MaxHashSize(alphabet) + MaxHashSize(alphabet)
      requires (relEnd - 1) * MaxHashSize(alphabet) < end <= relEnd * MaxHashSize(alphabet)
      requires 0 <= relStart <= i < relEnd <= sequence.Length
      ensures piece == Chars()[Clamp(MaxHashSize(alphabet) * i, start, end)..Clamp(MaxHashSize(alphabet) * i + MaxHashSize(alphabet), start, end)]
      ensures forall k :: 0 <= k < |piece| ==> piece[k] in alphabet.chars
    {
      ghost var ws := sequence[..];
      ghost var text := Chars();
      assert text == Text(alphabet, ws, LastSize(alphabet, length), 0, |ws|);
      var maxHashSize := MaxHashSize(alphabet);
      var hashSize := if i == sequence.Length - 1 then lastHashSize else maxHashSize;
      var s := GetSequence(alphabet, sequence[i], hashSize);
      var firstPos := maxHashSize * i;
      var endPos := maxHashSize * i + hashSize;
      SubSequenceStep(alphabet, ws, length, start, end, relStart, relEnd, i, firstPos, hashSize);
      var firstSPos := if firstPos < start then start - firstPos else 0;
      var endSPos := if endPos > end then end - firstPos else |s|;
      SubSequencePiece(text, start, end, firstPos, maxHashSize, hashSize, s, firstSPos, endSPos);
      piece := s[firstSPos..endSPos];
    }

    /** charAt(position): the character at `position`, or an index error outside [0, length). */
    method CharAt(position: int) returns (r: Result<char>)
      requires Valid()
      ensures r.Ok? <==> 0 <= position < length
      ensures r.Ok? ==> r.value == Chars()[position]
      ensures r.Err? ==> r.fault == IndexOutOfBounds
    {
      CharsLength(alphabet, sequence[..], length);
      if position < 0 || position >= length {
        return Err(IndexOutOfBounds);
      }
      var maxHashSize := MaxHashSize(alphabet);
      var relPos := position / maxHashSize;
      var subPos := position % maxHashSize;
      PositionInWord(alphabet, length, position, relPos, subPos);
      var size := GetHashSize(relPos);
      var subSeq := GetSequence(alphabet, sequence[relPos], size);
      TextAt(alphabet, sequence[..], lastHashSize, relPos, subPos, position);
      r := Ok(subSeq[subPos]);
    }

    /**
     * setCharAt(position, c): a character outside the alphabet is ignored (before the
     * position is even checked); otherwise the word holding `position` is re-encoded.
     */
    method SetCharAt(position: int, c: char) returns (r: Outcome)
      requires Valid()
      modifies sequence
      ensures Valid()
      ensures r.Pass? <==> !IsInAlphabet(alphabet, c) || 0 <= position < length
      ensures r.Fail? ==> r.fault == IndexOutOfBounds
      ensures !IsInAlphabet(alphabet, c) || r.Fail? ==> Chars() == old(Chars())
      ensures IsInAlphabet(alphabet, c) && r.Pass? ==> |old(Chars())| == length && Chars() == old(Chars())[position := c]
    {
      CharsLength(alphabet, sequence[..], length);
      if IndexOf(alphabet.chars, c) < 0 {
        return Pass;
      }
      if position < 0 || position >= length {
        return Fail(IndexOutOfBounds);
      }
      var maxHashSize := MaxHashSize(alphabet);
      var relPos := position / maxHashSize;
      var subPos := position % maxHashSize;
      PositionInWord(alphabet, length, position, relPos, subPos);
      var size := GetHashSize(relPos);
      var subSeq := GetSequence(alphabet, sequence[relPos], size);
      TextAt(alphabet, sequence[..], lastHashSize, relPos, subPos, position);
      if subSeq[subPos] != c {
        subSeq := subSeq[subPos := c];
        AlphabetRunIsNormal(alphabet, subSeq);
        var hash := GetHash(alphabet, subSeq, 0, |subSeq|);
        assert subSeq[0..|subSeq|] == subSeq;
        ghost var before := sequence[..];
        sequence[relPos] := hash.value;
        WordRoundTrip(alphabet, subSeq);
        TextUpdate(alphabet, before, sequence[..], lastHashSize, relPos, subPos, position, c);
      } else {
        assert old(Chars())[position := c] == old(Chars());
      }
      r := Pass;
    }

    /** toString: the words decoded one after the other. */
    method ToString() returns (r: seq<char>)
      requires Valid()
      ensures r == Chars() && |r| == length
    {
      CharsLength(alphabet, sequence[..], length);
      if length == 0 {
        return [];
      }
      var answer: seq<char> := [];
      var i := 0;
      while i < sequence.Length
        invariant 0 <= i <= sequence.Length
        invariant answer == Text(alphabet, sequence[..], lastHashSize, 0, i)
      {
        var size := GetHashSize(i);
        var w := GetSequence(alphabet, sequence[i], size);
        answer := answer + w;
        i := i + 1;
      }
      r := answer;
    }
  }

  // ---------------------------------------------------------------- lemmas about the buffer

  /** min(max(x, lo), hi). */
  function Clamp(x: int, lo: int, hi: int): int {
    if x < lo then lo else if x > hi then hi else x
  }

  /** A buffer shaped as Valid() demands holds exactly `length` characters. */
  lemma CharsLength(a: Alphabet, ws: seq<int32>, l: nat)
    requires ValidAlphabet(a) && |ws| == WordCount(a, l)
    ensures |Text(a, ws, LastSize(a, l), 0, |ws|)| == l
  {
    WordCountBounds(a, l);
    if l > 0 {
      TextLength(a, ws, LastSize(a, l));
    }
  }

  lemma EncodableSub(a: Alphabet, s: seq<char>, i: nat, j: nat, k: nat)
    requires ValidAlphabet(a) && i <= j <= k <= |s|
    requires Encodable(a, s[i..]) ==> Encodable(a, s[j..k])
    ensures !Encodable(a, s[j..k]) ==> !Encodable(a, s[i..])
  {
  }

  /** Encodable splits at any point. */
  lemma EncodableSplit(a: Alphabet, s: seq<char>, k: nat)
    requires ValidAlphabet(a) && k <= |s|
    ensures Encodable(a, s) <==> Encodable(a, s[..k]) && Encodable(a, s[k..])
  {
    if Encodable(a, s[..k]) && Encodable(a, s[k..]) {
      forall i | 0 <= i < |s| ensures Digit(a, s[i]) >= 0 {
        if i < k { assert s[..k][i] == s[i]; } else { assert s[k..][i - k] == s[i]; }
      }
    }
  }

  /** A run of alphabet characters followed by `u` is encodable exactly when `u` is. */
  lemma JunctionEncodable(a: Alphabet, junction: seq<char>, u: seq<char>)
    requires ValidAlphabet(a) && forall i :: 0 <= i < |junction| ==> junction[i] in a.chars
    ensures Encodable(a, junction + u) <==> Encodable(a, u)
    ensures Encodable(a, u) ==> Normalize(a, junction + u) == junction + Normalize(a, u)
  {
    AlphabetRunIsNormal(a, junction);
    EncodableSplit(a, junction + u, |junction|);
    assert (junction + u)[..|junction|] == junction;
    assert (junction + u)[|junction|..] == u;
    if Encodable(a, u) {
      NormalizeAppend(a, junction, u);
    }
  }

  /** The partial last word topped up with the first characters of `t`, as append does. */
  method TopUp(t: seq<char>, junction: seq<char>, m: nat) returns (firstPosAppend: nat, topped: seq<char>)
    requires |junction| > 0 ==> |junction| <= m && m - |junction| <= |t|
    ensures firstPosAppend == if |junction| > 0 then m - |junction| else 0
    ensures firstPosAppend <= |t| && topped == junction + t[..firstPosAppend]
  {
    firstPosAppend := 0;
    topped := junction;
    if |junction| > 0 {
      firstPosAppend := m - |junction|;
      var i := 0;
      while i < firstPosAppend
        invariant 0 <= i <= firstPosAppend
        invariant topped == junction + t[..i]
      {
        topped := topped + [t[i]];
        i := i + 1;
      }
    }
  }

  lemma JunctionText(a: Alphabet, ws: seq<int32>, h: nat, junction: seq<char>)
    requires ValidAlphabet(a)
    requires junction == [] || (|ws| >= 1 && junction == WordText(a, ws[|ws| - 1], h))
    ensures forall i :: 0 <= i < |junction| ==> junction[i] in a.chars
  {
    if junction != [] {
      DecodeInAlphabet(a, ws[|ws| - 1] as int - MinInt, h);
    }
  }

  /**
   * The arithmetic of append, for a text of `l` characters growing by `tl > 0`:
   * either the new characters fit in a partly filled last word, or whole new words follow
   * (after topping up a partly filled last word with MaxHashSize - lastHashSize of them).
   */
  lemma AppendCases(a: Alphabet, l: nat, tl: nat, nl: nat)
    requires ValidAlphabet(a) && tl > 0 && nl == l + tl
    ensures WordCount(a, nl) >= WordCount(a, l)
    ensures WordCount(a, nl) == WordCount(a, l) ==>
      WordCount(a, l) >= 1 && 0 < LastSize(a, l) < MaxHashSize(a) && LastSize(a, nl) == LastSize(a, l) + tl
    ensures WordCount(a, nl) > WordCount(a, l) && 0 < LastSize(a, l) < MaxHashSize(a) ==>
      MaxHashSize(a) - LastSize(a, l) < tl
      && WordCount(a, tl - (MaxHashSize(a) - LastSize(a, l))) == WordCount(a, nl) - WordCount(a, l)
      && LastSize(a, tl - (MaxHashSize(a) - LastSize(a, l))) == LastSize(a, nl)
    ensures WordCount(a, nl) > WordCount(a, l) && !(0 < LastSize(a, l) < MaxHashSize(a)) ==>
      (l == 0 || LastSize(a, l) == MaxHashSize(a))
      && WordCount(a, tl) == WordCount(a, nl) - WordCount(a, l) && LastSize(a, tl) == LastSize(a, nl)
  {
    var m, h := MaxHashSize(a), LastSize(a, l);
    WordCountBounds(a, nl);
    LastSizeBounds(a, l);
    if l == 0 {
      assert nl == tl;
    } else if h + tl <= m {
      AppendFits(a, l, tl, nl);
    } else if h < m {
      AppendTopsUp(a, l, tl, nl);
    } else {
      AppendAfterFull(a, l, tl, nl);
    }
  }

  /**
   * Where append splits `t` when whole new words follow: the first `p` characters top up
   * a partly filled last word (p == 0 when there is none), the rest fills the new words.
   */
  lemma AppendPlan(a: Alphabet, l: nat, h: nat, n: nat, t: seq<char>, junction: seq<char>, p: nat)
    requires ValidAlphabet(a) && |t| > 0 && n == WordCount(a, l) && h == LastSize(a, l)
    requires WordCount(a, l + |t|) > n
    requires 0 < h < MaxHashSize(a) ==> |junction| == h
    requires !(0 < h < MaxHashSize(a)) ==> junction == []
    requires p == if |junction| > 0 then MaxHashSize(a) - |junction| else 0
    ensures p < |t|
    ensures WordCount(a, |t| - p) == WordCount(a, l + |t|) - n
    ensures LastSize(a, |t| - p) == LastSize(a, l + |t|)
    ensures |junction| > 0 ==> 1 <= n && |junction| + p == MaxHashSize(a) && |junction| <= MaxHashSize(a) && p > 0
    ensures n == 0 ==> h == 0 && p == 0
    ensures n > 0 && p == 0 ==> h == MaxHashSize(a)
  {
    AppendCases(a, l, |t|, l + |t|);
    WordCountBounds(a, l);
    LastSizeBounds(a, l);
  }

  /** The new characters fit in the last word of a non-empty text. */
  lemma AppendFits(a: Alphabet, l: nat, tl: nat, nl: nat)
    requires ValidAlphabet(a) && l > 0 && tl > 0 && nl == l + tl && LastSize(a, l) + tl <= MaxHashSize(a)
    ensures WordCount(a, nl) == WordCount(a, l) >= 1
    ensures LastSize(a, nl) == LastSize(a, l) + tl
  {
    var w := WordCount(a, l);
    WordCountBounds(a, l);
    LastWordEnd(a, l);
    WordCountIs(a, nl, w);
  }

  /** The last word is topped up with m - h characters, the rest fills whole new words. */
  lemma AppendTopsUp(a: Alphabet, l: nat, tl: nat, nl: nat)
    requires ValidAlphabet(a) && l > 0 && nl == l + tl
    requires LastSize(a, l) < MaxHashSize(a) < LastSize(a, l) + tl
    ensures WordCount(a, nl) == WordCount(a, l) + WordCount(a, tl - (MaxHashSize(a) - LastSize(a, l)))
    ensures LastSize(a, nl) == LastSize(a, tl - (MaxHashSize(a) - LastSize(a, l)))
  {
    var m, w, h := MaxHashSize(a), WordCount(a, l), LastSize(a, l);
    LastWordEnd(a, l);
    WordCountShift(a, tl - (m - h), w, nl);
  }

  /** The last word of the text is full (or there is none): the new words follow it. */
  lemma AppendAfterFull(a: Alphabet, l: nat, tl: nat, nl: nat)
    requires ValidAlphabet(a) && l > 0 && tl > 0 && nl == l + tl && LastSize(a, l) == MaxHashSize(a)
    ensures WordCount(a, nl) == WordCount(a, l) + WordCount(a, tl)
    ensures LastSize(a, nl) == LastSize(a, tl)
  {
    var w := WordCount(a, l);
    LastWordEnd(a, l);
    WordCountShift(a, tl, w, nl);
  }

  /** append when the new characters fit in the last word. */
  lemma LastWordText(a: Alphabet, ws: seq<int32>, junction: seq<char>, t: seq<char>, ws': seq<int32>, h': nat)
    requires ValidAlphabet(a) && |ws| >= 1 && |ws'| == |ws|
    requires forall k :: 0 <= k < |ws| - 1 ==> ws'[k] == ws[k]
    requires junction == WordText(a, ws[|ws| - 1], |junction|)
    requires forall i :: 0 <= i < |junction| ==> junction[i] in a.chars
    requires Encodable(a, t) && |junction + t| <= MaxHashSize(a) && h' == |junction + t|
    requires ws'[|ws| - 1] == HashWord(a, junction + t)
    ensures Text(a, ws', h', 0, |ws'|) == Text(a, ws, |junction|, 0, |ws|) + Normalize(a, t)
  {
    var n := |ws|;
    JunctionWord(a, junction, t);
    TextFrameFull(a, ws, |junction|, ws', h', 0, n - 1);
    TextLast(a, ws, |junction|);
    TextLast(a, ws', h');
    ConcatShift(Text(a, ws', h', 0, n), Text(a, ws, |junction|, 0, n), Text(a, ws, |junction|, 0, n - 1),
                junction, Normalize(a, t));
  }

  lemma ConcatShift<T>(x: seq<T>, y: seq<T>, pre: seq<T>, mid: seq<T>, tail: seq<T>)
    requires x == pre + (mid + tail) && y == pre + mid
    ensures x == y + tail
  {
  }

  /** The word holding the junction followed by t decodes to the junction and t normalized. */
  lemma JunctionWord(a: Alphabet, junction: seq<char>, t: seq<char>)
    requires ValidAlphabet(a) && forall i :: 0 <= i < |junction| ==> junction[i] in a.chars
    requires Encodable(a, t) && |junction + t| <= MaxHashSize(a)
    ensures Encodable(a, junction + t)
    ensures WordText(a, HashWord(a, junction + t), |junction + t|) == junction + Normalize(a, t)
  {
    JunctionEncodable(a, junction, t);
    WordRoundTrip(a, junction + t);
  }

  /**
   * append when new words follow: the old full words are kept, the last old word is
   * topped up with `t[..p]` (unchanged when p == 0) and `t[p..]` fills the new words.
   */
  lemma AppendNewWords(a: Alphabet, ws: seq<int32>, h: nat, junction: seq<char>, t: seq<char>, p: nat,
                       patched: seq<int32>, ws': seq<int32>, h': nat)
    requires ValidAlphabet(a) && |ws| < |ws'| == |patched| && p < |t|
    requires forall k :: 0 <= k < |ws| ==> patched[k] == ws'[k]
    requires forall k :: 0 <= k < |ws| - 1 ==> patched[k] == ws[k]
    requires Encodable(a, t)
    requires |ws| == 0 ==> h == 0 && p == 0
    requires |ws| > 0 && p == 0 ==> h == MaxHashSize(a) && patched[|ws| - 1] == ws[|ws| - 1]
    requires |ws| > 0 && p > 0 ==> junction == WordText(a, ws[|ws| - 1], h) && |junction + t[..p]| == MaxHashSize(a)
    requires |ws| > 0 && p > 0 ==> Encodable(a, junction + t[..p])
    requires |ws| > 0 && p > 0 ==> patched[|ws| - 1] == HashWord(a, junction + t[..p])
    requires forall i :: 0 <= i < |junction| ==> junction[i] in a.chars
    requires Text(a, ws', h', |ws|, |ws'|) == Normalize(a, t[p..])
    ensures Text(a, ws', h', 0, |ws'|) == Text(a, ws, h, 0, |ws|) + Normalize(a, t)
  {
    var m, n := |ws|, |ws'|;
    NormalizeSplit(a, t, p);
    TextSplit(a, ws', h', 0, m, n);
    var x, y := Normalize(a, t[..p]), Normalize(a, t[p..]);
    if m > 0 {
      assert ws'[m - 1] == patched[m - 1];
      OldWordsTopped(a, ws, h, junction, t, p, ws', h');
      ConcatAssoc(Text(a, ws', h', 0, n), Text(a, ws', h', 0, m), Text(a, ws, h, 0, m), x, y);
    } else {
      assert x == [];
      ConcatShift(Text(a, ws', h', 0, n), Text(a, ws, h, 0, m), [], [], y);
    }
  }

  /** The old words after append topped up the last one: the old text followed by t[..p]. */
  lemma OldWordsTopped(a: Alphabet, ws: seq<int32>, h: nat, junction: seq<char>, t: seq<char>, p: nat,
                       ws': seq<int32>, h': nat)
    requires ValidAlphabet(a) && 0 < |ws| < |ws'| && p <= |t| && Encodable(a, t[..p])
    requires forall k :: 0 <= k < |ws| - 1 ==> ws'[k] == ws[k]
    requires p == 0 ==> h == MaxHashSize(a) && ws'[|ws| - 1] == ws[|ws| - 1]
    requires p > 0 ==> junction == WordText(a, ws[|ws| - 1], h) && |junction + t[..p]| == MaxHashSize(a)
    requires p > 0 ==> Encodable(a, junction + t[..p]) && ws'[|ws| - 1] == HashWord(a, junction + t[..p])
    requires forall i :: 0 <= i < |junction| ==> junction[i] in a.chars
    ensures Text(a, ws', h', 0, |ws|) == Text(a, ws, h, 0, |ws|) + Normalize(a, t[..p])
  {
    var m := |ws|;
    TextFrameFull(a, ws, h, ws', h', 0, m - 1);
    TextStepFull(a, ws', h', 0, m - 1);
    TextLast(a, ws, h);
    TopUpLastWord(a, ws[m - 1], h, junction, t, p, ws'[m - 1]);
    ConcatShift(Text(a, ws', h', 0, m), Text(a, ws, h, 0, m), Text(a, ws, h, 0, m - 1),
                WordText(a, ws[m - 1], h), Normalize(a, t[..p]));
  }

  lemma ConcatAssoc<T>(z: seq<T>, w: seq<T>, y: seq<T>, u: seq<T>, v: seq<T>)
    requires z == w + v && w == y + u
    ensures z == y + (u + v)
  {
  }

  /** Normalizing a text is normalizing its two halves. */
  lemma NormalizeSplit(a: Alphabet, t: seq<char>, p: nat)
    requires ValidAlphabet(a) && Encodable(a, t) && p <= |t|
    ensures Encodable(a, t[..p]) && Encodable(a, t[p..])
    ensures Normalize(a, t) == Normalize(a, t[..p]) + Normalize(a, t[p..])
  {
    EncodableSplit(a, t, p);
    assert t == t[..p] + t[p..];
    NormalizeAppend(a, t[..p], t[p..]);
  }

  /** The last old word after append topped it up: its text followed by t[..p]. */
  lemma TopUpLastWord(a: Alphabet, w: int32, h: nat, junction: seq<char>, t: seq<char>, p: nat, w': int32)
    requires ValidAlphabet(a) && p <= |t| && Encodable(a, t[..p])
    requires p == 0 ==> h == MaxHashSize(a) && w' == w
    requires p > 0 ==> junction == WordText(a, w, h) && |junction + t[..p]| == MaxHashSize(a)
    requires p > 0 ==> Encodable(a, junction + t[..p]) && w' == HashWord(a, junction + t[..p])
    requires forall i :: 0 <= i < |junction| ==> junction[i] in a.chars
    ensures WordText(a, w', MaxHashSize(a)) == WordText(a, w, h) + Normalize(a, t[..p])
  {
    if p > 0 {
      JunctionEncodable(a, junction, t[..p]);
      WordRoundTrip(a, junction + t[..p]);
    } else {
      assert Normalize(a, t[..p]) == [];
    }
  }

  /** One word of encodeAndAppendSequence. */
  lemma EncodeStep(a: Alphabet, before: seq<int32>, after: seq<int32>, lo: nat, i: nat,
                   s: seq<char>, p: nat, j: nat, k: nat)
    requires ValidAlphabet(a) && lo <= i && i + 1 < |before| == |after|
    requires forall x :: 0 <= x < |before| && x != i ==> after[x] == before[x]
    requires p <= j <= k <= |s| && k - j == MaxHashSize(a)
    requires Encodable(a, s[p..j]) && Encodable(a, s[j..k])
    requires after[i] == HashWord(a, s[j..k])
    requires Text(a, before, 0, lo, i) == Normalize(a, s[p..j])
    ensures Encodable(a, s[p..k])
    ensures Text(a, after, 0, lo, i + 1) == Normalize(a, s[p..k])
    ensures after[..lo] == before[..lo]
  {
    NormalizeSlices(a, s, p, j, k);
    TextFrameFull(a, before, 0, after, 0, lo, i);
    TextStepFull(a, after, 0, lo, i);
    WordRoundTrip(a, s[j..k]);
    PrefixFrame(before, after, lo, i);
  }

  /** The last word of encodeAndAppendSequence. */
  lemma EncodeLast(a: Alphabet, before: seq<int32>, after: seq<int32>, lo: nat,
                   s: seq<char>, p: nat, j: nat, h: nat)
    requires ValidAlphabet(a) && lo < |before| == |after|
    requires forall x :: 0 <= x < |before| - 1 ==> after[x] == before[x]
    requires p <= j < |s| && h == |s| - j && h <= MaxHashSize(a)
    requires Encodable(a, s[p..j]) && Encodable(a, s[j..|s|])
    requires after[|after| - 1] == HashWord(a, s[j..|s|])
    requires Text(a, before, 0, lo, |before| - 1) == Normalize(a, s[p..j])
    ensures Encodable(a, s[p..])
    ensures Text(a, after, h, lo, |after|) == Normalize(a, s[p..])
    ensures after[..lo] == before[..lo]
  {
    var x, y := Normalize(a, s[p..j]), Normalize(a, s[j..|s|]);
    assert Encodable(a, s[p..]) && Normalize(a, s[p..]) == x + y by {
      SliceToEnd(s, p);
      NormalizeSlices(a, s, p, j, |s|);
    }
    assert WordText(a, after[|after| - 1], h) == y by {
      WordRoundTrip(a, s[j..|s|]);
    }
    LastWordAppended(a, before, after, lo, h, x, y);
    PrefixFrame(before, after, lo, |after| - 1);
  }

  /** Words lo.. of `after`: the full words of `before`, then a last word of size h. */
  lemma LastWordAppended(a: Alphabet, before: seq<int32>, after: seq<int32>, lo: nat, h: nat,
                         x: seq<char>, y: seq<char>)
    requires ValidAlphabet(a) && lo < |before| == |after|
    requires forall k :: 0 <= k < |before| - 1 ==> after[k] == before[k]
    requires Text(a, before, 0, lo, |before| - 1) == x
    requires WordText(a, after[|after| - 1], h) == y
    ensures Text(a, after, h, lo, |after|) == x + y
  {
    TextFrameFull(a, before, 0, after, h, lo, |before| - 1);
    TextLastFrom(a, after, h, lo);
  }

  lemma SliceToEnd<T>(s: seq<T>, p: nat)
    requires p <= |s|
    ensures s[p..|s|] == s[p..]
  {
  }

  /** Normalizing s[p..k] is normalizing s[p..j] and s[j..k]. */
  lemma NormalizeSlices(a: Alphabet, s: seq<char>, p: nat, j: nat, k: nat)
    requires ValidAlphabet(a) && p <= j <= k <= |s|
    requires Encodable(a, s[p..j]) && Encodable(a, s[j..k])
    ensures Encodable(a, s[p..k])
    ensures Normalize(a, s[p..k]) == Normalize(a, s[p..j]) + Normalize(a, s[j..k])
  {
    assert s[p..k] == s[p..j] + s[j..k];
    NormalizeAppend(a, s[p..j], s[j..k]);
  }

  /** Changing only the element at i >= lo leaves the prefix before lo alone. */
  lemma PrefixFrame<T>(x: seq<T>, y: seq<T>, lo: nat, i: nat)
    requires lo <= i < |x| == |y|
    requires forall k :: 0 <= k < |x| && k != i ==> y[k] == x[k]
    ensures y[..lo] == x[..lo]
  {
  }

  /** charAt's relPos and subPos address a character of the stored text. */
  lemma PositionInWord(a: Alphabet, l: nat, p: nat, q: int, r: int)
    requires ValidAlphabet(a) && p < l
    requires q == p / MaxHashSize(a) && r == p % MaxHashSize(a)
    ensures 0 <= q < WordCount(a, l) && 0 <= r
    ensures r < HashSize(a, WordCount(a, l), LastSize(a, l), q)
    ensures p == q * MaxHashSize(a) + r
  {
    var m, w, h := MaxHashSize(a), WordCount(a, l), LastSize(a, l);
    WordCountBounds(a, l);
    LastWordEnd(a, l);
    DivMod(p, m, q, r);
    if q >= w {
      MulMonoInt(w, q, m);
      assert false;
    } else if q == w - 1 {
      assert q * m + m == w * m by {
        MulSucc(m, q);
        Commute(m, q);
        Commute(m, w);
      }
      assert r < h;
    }
  }

  /** Rewriting one character of word q rewrites position q·M + r of the text. */
  lemma TextUpdate(a: Alphabet, ws: seq<int32>, ws': seq<int32>, h: nat, q: nat, r: nat, p: nat, c: char)
    requires ValidAlphabet(a) && q < |ws| == |ws'| && r < HashSize(a, |ws|, h, q)
    requires forall k :: 0 <= k < |ws| && k != q ==> ws'[k] == ws[k]
    requires WordText(a, ws'[q], HashSize(a, |ws|, h, q)) == WordText(a, ws[q], HashSize(a, |ws|, h, q))[r := c]
    requires p == q * MaxHashSize(a) + r
    ensures p < |Text(a, ws, h, 0, |ws|)|
    ensures Text(a, ws', h, 0, |ws'|) == Text(a, ws, h, 0, |ws|)[p := c]
  {
    var n := |ws|;
    TextSplit(a, ws, h, 0, q, n);
    TextSplit(a, ws, h, q, q + 1, n);
    TextSplit(a, ws', h, 0, q, n);
    TextSplit(a, ws', h, q, q + 1, n);
    TextFullLength(a, ws, h, 0, q);
    TextFrame(a, ws, h, ws', h, 0, q);
    TextFrame(a, ws, h, ws', h, q + 1, n);
    TextOne(a, ws, h, q);
    TextOne(a, ws', h, q);
    UpdateMiddle(Text(a, ws, h, 0, q), Text(a, ws, h, q, q + 1), Text(a, ws, h, q + 1, n),
                 Text(a, ws', h, q, q + 1), p, r, c);
  }

  /** Updating position p of x + y + z, where p falls at offset r of y. */
  lemma UpdateMiddle<T>(x: seq<T>, y: seq<T>, z: seq<T>, y': seq<T>, p: nat, r: nat, c: T)
    requires p == |x| + r && r < |y| && y' == y[r := c]
    ensures p < |x + (y + z)| && x + (y' + z) == (x + (y + z))[p := c]
  {
  }

  /** The word range subSequence walks: from the word of `start` to the word of end - 1. */
  lemma SubSequenceRange(a: Alphabet, l: nat, start: nat, end: nat, relStart: int, relEnd: int)
    requires ValidAlphabet(a) && start < end <= l
    requires relStart == start / MaxHashSize(a)
    requires relEnd == end / MaxHashSize(a) + (if end % MaxHashSize(a) > 0 then 1 else 0)
    ensures 0 <= relStart < relEnd <= WordCount(a, l)
    ensures relStart * MaxHashSize(a) <= start < relStart * MaxHashSize(a) + MaxHashSize(a)
    ensures (relEnd - 1) * MaxHashSize(a) < end <= relEnd * MaxHashSize(a)
    ensures Clamp(MaxHashSize(a) * relStart, start, end) == start
    ensures Clamp(MaxHashSize(a) * relEnd, start, end) == end
  {
    var m, w := MaxHashSize(a), WordCount(a, l);
    DivBounds(start, m, relStart);
    CeilIsWordCount(a, end, relEnd);
    WordCountBounds(a, end);
    WordCountBounds(a, l);
    Commute(m, relStart);
    Commute(m, relEnd);
    if relStart >= relEnd {
      MulMonoInt(relEnd, relStart, m);
      assert false;
    }
    if relEnd > w {
      MulMonoInt(w, relEnd - 1, m);
      assert false;
    }
  }

  lemma DivBounds(x: nat, m: nat, q: int)
    requires m > 0 && q == x / m
    ensures 0 <= q && q * m <= x < q * m + m
  {
  }

  lemma DivMod(x: nat, m: nat, q: int, r: int)
    requires m > 0 && q == x / m && r == x % m
    ensures 0 <= q && 0 <= r < m && x == q * m + r
  {
  }

  lemma Commute(x: int, y: int)
    ensures x * y == y * x
  {
  }

  /** Where word i of subSequence's walk lies relative to [start, end). */
  lemma SubSequenceStep(a: Alphabet, ws: seq<int32>, l: nat, start: nat, end: nat, relStart: int, relEnd: int,
                        i: int, firstPos: int, hashSize: nat)
    requires ValidAlphabet(a) && start < end <= l && |ws| == WordCount(a, l)
    requires relStart * MaxHashSize(a) <= start < relStart * MaxHashSize(a) + MaxHashSize(a)
    requires (relEnd - 1) * MaxHashSize(a) < end <= relEnd * MaxHashSize(a)
    requires 0 <= relStart <= i < relEnd <= |ws|
    requires firstPos == MaxHashSize(a) * i
    requires i == |ws| - 1 ==> hashSize == LastSize(a, l)
    requires i != |ws| - 1 ==> hashSize == MaxHashSize(a)
    ensures hashSize == HashSize(a, |ws|, LastSize(a, l), i)
    ensures firstPos < end && start < firstPos + hashSize
    ensures hashSize <= MaxHashSize(a)
    ensures hashSize < MaxHashSize(a) ==> end <= firstPos + hashSize
    ensures MaxHashSize(a) * (i + 1) == firstPos + MaxHashSize(a)
    ensures 0 <= firstPos && firstPos + hashSize <= l == |Text(a, ws, LastSize(a, l), 0, |ws|)|
    ensures Text(a, ws, LastSize(a, l), 0, |ws|)[firstPos..firstPos + hashSize] == WordText(a, ws[i], hashSize)
  {
    var m, w, h := MaxHashSize(a), |ws|, LastSize(a, l);
    WordCountBounds(a, l);
    LastSizeBounds(a, l);
    assert m * i == i * m;
    SubStepArith(m, l, w, h, start, end, relStart, relEnd, i);
    SubStepText(a, ws, l, i, firstPos, hashSize);
  }

  /** Word i of a buffer shaped as Valid() demands spans [firstPos, firstPos + hashSize) of its text. */
  lemma SubStepText(a: Alphabet, ws: seq<int32>, l: nat, i: nat, firstPos: int, hashSize: nat)
    requires ValidAlphabet(a) && |ws| == WordCount(a, l) && i < |ws|
    requires firstPos == i * MaxHashSize(a) && hashSize == HashSize(a, |ws|, LastSize(a, l), i)
    ensures 0 <= firstPos && firstPos + hashSize <= l == |Text(a, ws, LastSize(a, l), 0, |ws|)|
    ensures Text(a, ws, LastSize(a, l), 0, |ws|)[firstPos..firstPos + hashSize] == WordText(a, ws[i], hashSize)
  {
    TextWordSpan(a, ws, LastSize(a, l), i, firstPos);
    CharsLength(a, ws, l);
  }

  lemma SubStepArith(m: nat, l: nat, w: nat, h: int, start: nat, end: nat, relStart: int, relEnd: int, i: int)
    requires m >= 1 && w >= 1 && 1 <= h <= m && h == l - (w - 1) * m
    requires relStart * m <= start < relStart * m + m
    requires (relEnd - 1) * m < end <= relEnd * m
    requires relStart <= i < relEnd <= w && start < end <= l
    ensures i * m < end && i * m + m == (i + 1) * m
    ensures i == w - 1 ==> start < i * m + h && end <= i * m + h && i * m + h <= l
    ensures i < w - 1 ==> start < i * m + m && i * m + m <= l
  {
    MulMonoInt(relStart, i, m);
    MulMonoInt(i, relEnd - 1, m);
    if i < w - 1 {
      MulMonoInt(i + 1, w - 1, m);
    }
  }

  /** The clipped word is the text between its first position and the next word's, within [start, end). */
  lemma SubSequencePiece(text: seq<char>, start: nat, end: nat, firstPos: int, m: nat, hashSize: nat,
                         s: seq<char>, firstSPos: int, endSPos: int)
    requires start < end <= |text| && firstPos < end && start < firstPos + hashSize
    requires hashSize <= m && firstPos + hashSize <= |text|
    requires hashSize < m ==> end <= firstPos + hashSize
    requires 0 <= firstPos && s == text[firstPos..firstPos + hashSize]
    requires firstSPos == (if firstPos < start then start - firstPos else 0)
    requires endSPos == (if firstPos + hashSize > end then end - firstPos else |s|)
    ensures 0 <= firstSPos <= endSPos <= |s|
    ensures s[firstSPos..endSPos] == text[Clamp(firstPos, start, end)..Clamp(firstPos + m, start, end)]
  {
    var lo, hi := Clamp(firstPos, start, end), Clamp(firstPos + m, start, end);
    assert lo == firstPos + firstSPos;
    assert hi == firstPos + endSPos;
    forall k | 0 <= k < endSPos - firstSPos
      ensures s[firstSPos..endSPos][k] == text[lo..hi][k]
    {
      assert s[firstSPos + k] == text[firstPos + firstSPos + k];
    }
  }

  /** One more clipped word extends subSequence's answer up to the next word boundary. */
  lemma SubSequenceGrows(text: seq<char>, start: int, end: int, m: int, i: int,
                         prev: seq<char>, piece: seq<char>, now: seq<char>)
    requires 0 <= start <= end <= |text| && m >= 1
    requires prev == text[start..Clamp(m * i, start, end)]
    requires piece == text[Clamp(m * i, start, end)..Clamp(m * i + m, start, end)]
    requires now == prev + piece
    ensures now == text[start..Clamp(m * (i + 1), start, end)]
  {
    MulSucc(m, i);
    SliceConcat(text, start, Clamp(m * i, start, end), Clamp(m * i + m, start, end));
  }

  lemma MulSucc(m: int, i: int)
    ensures m * (i + 1) == m * i + m
  {
  }

  lemma SliceConcat(s: seq<char>, i: int, j: int, k: int)
    requires 0 <= i <= j <= k <= |s|
    ensures s[i..j] + s[j..k] == s[i..k]
  {
  }

  /** The closed form of calculateHashNumbers agrees with the word count. */
  lemma CeilIsWordCount(a: Alphabet, l: nat, n: nat)
    requires ValidAlphabet(a)
    requires n == l / MaxHashSize(a) + (if l % MaxHashSize(a) > 0 then 1 else 0)
    ensures n == WordCount(a, l)
  {
    var m := MaxHashSize(a);
    var q, r := l / m, l % m;
    DivMod(l, m, q, r);
    WordCountBounds(a, l);
    if l > 0 {
      if r > 0 {
        MulPred(q + 1, m);
        WordCountIs(a, l, q + 1);
      } else {
        MulPred(q, m);
        WordCountIs(a, l, q);
      }
    }
  }
}
