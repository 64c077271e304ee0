/**
 * The positional numeral system behind a packed sequence: a run of characters of an
 * alphabet is read as a number in base |alphabet| and stored, offset by Integer.MIN_VALUE,
 * in one 32-bit word (AbstractLimitedSequence.getHash / getSequence).
 */
module PackedCodec {
  import opened Common

  /** Java's `int`. */
  newtype int32 = x: int | -0x8000_0000 <= x < 0x8000_0000

  /** Integer.MIN_VALUE. */
  const MinInt: int := -0x8000_0000

  /** 2^32: the number of distinct 32-bit words. */
  const WordRange: nat := 0x1_0000_0000

  /**
   * What a concrete sequence class supplies: its alphabet string (getAlphabet) and the
   * index used for characters outside it (getDefaultIndex, -1 when there is none).
   */
  datatype Alphabet = Alphabet(chars: seq<char>, defaultIndex: int)

  predicate ValidAlphabet(a: Alphabet) {
    1 <= |a.chars| < WordRange && -1 <= a.defaultIndex < |a.chars|
  }

  function Pow(b: nat, e: nat): nat {
    if e == 0 then 1 else b * Pow(b, e - 1)
  }

  /** The integer logarithm ⌊log2 x⌋. */
  function Log2Floor(x: nat): nat
    requires x >= 1
  {
    if x == 1 then 0 else 1 + Log2Floor(x / 2)
  }

  /** getBitsPerCharacter: ⌊log2 size⌋ + 1, the bits that tell every alphabet index apart. */
  function BitsPerCharacter(a: Alphabet): (bits: nat)
    requires ValidAlphabet(a)
    ensures 1 <= bits <= 32
  {
    Log2Small(|a.chars|);
    Log2Floor(|a.chars|) + 1
  }

  /** getMaxHashSize: how many characters one 32-bit word holds. */
  function MaxHashSize(a: Alphabet): (m: nat)
    requires ValidAlphabet(a)
    ensures 1 <= m <= 32
  {
    32 / BitsPerCharacter(a)
  }

  /**
   * The bits per character tell every alphabet index apart (2^(bits-1) <= size < 2^bits),
   * and MaxHashSize characters of that many bits fit in 32 bits.
   */
  lemma CharacterBits(a: Alphabet)
    requires ValidAlphabet(a)
    ensures Pow(2, BitsPerCharacter(a) - 1) <= |a.chars| < Pow(2, BitsPerCharacter(a))
    ensures MaxHashSize(a) * BitsPerCharacter(a) <= 32
  {
    var bits := BitsPerCharacter(a);
    assert Pow(2, bits - 1) <= |a.chars| < Pow(2, bits) by {
      Log2Bounds(|a.chars|);
    }
    QuotientTimesDivisor(32, bits);
  }

  lemma QuotientTimesDivisor(n: nat, d: nat)
    requires d > 0
    ensures (n / d) * d <= n
  {
    assert n == (n / d) * d + n % d && n % d >= 0;
  }

  /** getAlphabetIndex, with getDefaultIndex substituted for a character outside the alphabet. */
  function Digit(a: Alphabet, c: char): (d: int)
    requires ValidAlphabet(a)
    ensures -1 <= d < |a.chars|
    ensures c in a.chars ==> 0 <= d && a.chars[d] == c
    ensures c !in a.chars ==> d == a.defaultIndex
  {
    var i := IndexOf(a.chars, c);
    if i < 0 then a.defaultIndex else i
  }

  /** getAlphabetCharacter: the character with the given index, or the NUL character. */
  function AlphabetCharacter(a: Alphabet, index: int): (c: char)
    ensures 0 <= index < |a.chars| ==> c == a.chars[index]
    ensures !(0 <= index < |a.chars|) ==> c == 0 as char
  {
    if 0 <= index < |a.chars| then a.chars[index] else 0 as char
  }

  /** isInAlphabet. */
  predicate IsInAlphabet(a: Alphabet, c: char) {
    IndexOf(a.chars, c) >= 0
  }

  /** Every character of `s` gets an index (possibly the default one): getHash does not throw. */
  predicate Encodable(a: Alphabet, s: seq<char>)
    requires ValidAlphabet(a)
  {
    forall i :: 0 <= i < |s| ==> Digit(a, s[i]) >= 0
  }

  /** What is stored for `s`: each character replaced by the alphabet character of its index. */
  function Normalize(a: Alphabet, s: seq<char>): (r: seq<char>)
    requires ValidAlphabet(a) && Encodable(a, s)
    ensures |r| == |s|
    ensures forall i :: 0 <= i < |s| ==> r[i] == a.chars[Digit(a, s[i])]
  {
    seq(|s|, i requires 0 <= i < |s| => a.chars[Digit(a, s[i])])
  }

  /**
   * The value of `s` read as a base-|alphabet| numeral, most significant character first
   * (a character without an index counts as the digit -1, which getHash never lets through).
   */
  function HashValue(a: Alphabet, s: seq<char>): int
    requires ValidAlphabet(a)
  {
    if s == [] then 0 else HashValue(a, s[..|s| - 1]) * |a.chars| + Digit(a, s[|s| - 1])
  }

  lemma EncodablePrefix(a: Alphabet, s: seq<char>)
    requires ValidAlphabet(a) && Encodable(a, s) && s != []
    ensures Encodable(a, s[..|s| - 1])
  {
    var init := s[..|s| - 1];
    forall i | 0 <= i < |init| ensures Digit(a, init[i]) >= 0 { assert init[i] == s[i]; }
  }

  /** The last `k` base-|alphabet| digits of `v`, as alphabet characters. */
  function Decode(a: Alphabet, v: nat, k: nat): (r: seq<char>)
    requires ValidAlphabet(a)
    ensures |r| == k
  {
    if k == 0 then [] else Decode(a, v / |a.chars|, k - 1) + [a.chars[v % |a.chars|]]
  }

  /** The characters a stored word holds when it holds `k` of them (getSequence). */
  function WordText(a: Alphabet, w: int32, k: nat): (r: seq<char>)
    requires ValidAlphabet(a)
    ensures |r| == k
  {
    Decode(a, w as int - MinInt, k)
  }

  /** The word getHash stores for a run of at most MaxHashSize characters. */
  function HashWord(a: Alphabet, s: seq<char>): int32
    requires ValidAlphabet(a) && Encodable(a, s) && |s| <= MaxHashSize(a)
  {
    HashValueFits(a, s);
    (HashValue(a, s) + MinInt) as int32
  }

  // ---------------------------------------------------------------- lemmas

  lemma {:induction false} Log2Bounds(x: nat)
    requires x >= 1
    ensures Pow(2, Log2Floor(x)) <= x < Pow(2, Log2Floor(x) + 1)
    decreases x
  {
    if x > 1 {
      Log2Bounds(x / 2);
    }
  }

  lemma Log2Small(x: nat)
    requires 1 <= x < WordRange
    ensures Log2Floor(x) < 32
  {
    Log2Bounds(x);
    if Log2Floor(x) >= 32 {
      PowMonoExp(2, 32, Log2Floor(x));
      PowTwo32();
      assert false;
    }
  }

  lemma {:induction false} PowMonoExp(b: nat, e1: nat, e2: nat)
    requires b >= 1 && e1 <= e2
    ensures Pow(b, e1) <= Pow(b, e2)
    decreases e2
  {
    if e1 < e2 {
      PowMonoExp(b, e1, e2 - 1);
      PowPositive(b, e2 - 1);
    }
  }

  lemma {:induction false} PowPositive(b: nat, e: nat)
    requires b >= 1
    ensures Pow(b, e) >= 1
  {
    if e > 0 {
      PowPositive(b, e - 1);
    }
  }

  lemma {:induction false} PowMonoBase(b1: nat, b2: nat, e: nat)
    requires b1 <= b2
    ensures Pow(b1, e) <= Pow(b2, e)
  {
    if e > 0 {
      PowMonoBase(b1, b2, e - 1);
      MulMono(b1, b2, Pow(b1, e - 1), Pow(b2, e - 1));
    }
  }

  lemma {:induction false} PowOfPow(k: nat, m: nat)
    ensures Pow(Pow(2, k), m) == Pow(2, k * m)
  {
    if m > 0 {
      PowOfPow(k, m - 1);
      PowAdd(2, k, k * (m - 1));
      assert k * m == k + k * (m - 1);
    }
  }

  lemma {:induction false} PowAdd(b: nat, e1: nat, e2: nat)
    ensures Pow(b, e1 + e2) == Pow(b, e1) * Pow(b, e2)
    decreases e1
  {
    if e1 > 0 {
      PowAdd(b, e1 - 1, e2);
      assert Pow(b, e1 + e2) == b * Pow(b, e1 - 1 + e2);
    }
  }

  /**
   * A full word fits: size^MaxHashSize <= 2^32, because size < 2^bits and
   * MaxHashSize * bits <= 32.
   */
  lemma WordCapacity(a: Alphabet)
    requires ValidAlphabet(a)
    ensures Pow(|a.chars|, MaxHashSize(a)) <= WordRange
  {
    var bits, m := BitsPerCharacter(a), MaxHashSize(a);
    CharacterBits(a);
    PowMonoBase(|a.chars|, Pow(2, bits), m);
    PowOfPow(bits, m);
    PowMonoExp(2, bits * m, 32);
    PowTwo32();
  }

  lemma PowTwo32()
    ensures Pow(2, 32) == WordRange
  {
    assert Pow(2, 4) == 16 by {
      assert Pow(2, 1) == 2;
      assert Pow(2, 2) == 4;
      assert Pow(2, 3) == 8;
    }
    PowAdd(2, 4, 4);
    PowAdd(2, 8, 8);
    PowAdd(2, 16, 16);
  }

  /** The numeral of `s` is below size^|s|. */
  lemma {:induction false} HashValueBound(a: Alphabet, s: seq<char>)
    requires ValidAlphabet(a) && Encodable(a, s)
    ensures 0 <= HashValue(a, s) < Pow(|a.chars|, |s|)
    decreases |s|
  {
    if s != [] {
      var init := s[..|s| - 1];
      EncodablePrefix(a, s);
      HashValueBound(a, init);
      HornerBound(HashValue(a, init), Digit(a, s[|s| - 1]), |a.chars|, Pow(|a.chars|, |init|));
    }
  }

  lemma HornerBound(h: nat, d: nat, b: nat, p: nat)
    requires h < p && d < b
    ensures 0 <= h * b + d < b * p
  {
    MulMono(h, p - 1, b, b);
    assert (p - 1) * b == p * b - b;
  }

  /**
   * The value getHash computes never leaves [0, 2^32) for a run of at most MaxHashSize
   * characters: the 64-bit accumulator never goes negative (the "Encoding reached a long
   * negative number" error cannot fire) and adding Integer.MIN_VALUE lands inside `int`.
   */
  lemma HashValueFits(a: Alphabet, s: seq<char>)
    requires ValidAlphabet(a) && Encodable(a, s) && |s| <= MaxHashSize(a)
    ensures 0 <= HashValue(a, s) < WordRange
    ensures -0x8000_0000 <= HashValue(a, s) + MinInt < 0x8000_0000
  {
    HashValueBound(a, s);
    PowMonoExp(|a.chars|, |s|, MaxHashSize(a));
    WordCapacity(a);
  }

  /** Decoding the numeral of a run gives back the run, each character normalized. */
  lemma {:induction false} DecodeHashValue(a: Alphabet, s: seq<char>)
    requires ValidAlphabet(a) && Encodable(a, s)
    ensures HashValue(a, s) >= 0 && Decode(a, HashValue(a, s), |s|) == Normalize(a, s)
    decreases |s|
  {
    HashValueBound(a, s);
    if s != [] {
      var init, last := s[..|s| - 1], s[|s| - 1];
      EncodablePrefix(a, s);
      DecodeHashValue(a, init);
      var v, h, d := HashValue(a, s), HashValue(a, init), Digit(a, last);
      DivModStep(v, h, |a.chars|, d);
      DecodeStep(a, v, |s|);
      NormalizeSnoc(a, init, last);
      assert s == init + [last];
    }
  }

  lemma NormalizeSnoc(a: Alphabet, s: seq<char>, c: char)
    requires ValidAlphabet(a) && Encodable(a, s) && Digit(a, c) >= 0
    ensures Encodable(a, s + [c])
    ensures Normalize(a, s + [c]) == Normalize(a, s) + [a.chars[Digit(a, c)]]
  {
    HashValueSnoc(a, s, c);
  }

  /**
   * Round trip of one stored word: getSequence(getHash(s, 0, n), n) is `s` with every
   * character normalized, so exactly `s` when all its characters are in the alphabet.
   */
  lemma WordRoundTrip(a: Alphabet, s: seq<char>)
    requires ValidAlphabet(a) && Encodable(a, s) && |s| <= MaxHashSize(a)
    ensures WordText(a, HashWord(a, s), |s|) == Normalize(a, s)
    ensures (forall i :: 0 <= i < |s| ==> s[i] in a.chars) ==> WordText(a, HashWord(a, s), |s|) == s
  {
    HashValueFits(a, s);
    DecodeHashValue(a, s);
  }

  /** Every decoded character is an alphabet character. */
  lemma {:induction false} DecodeInAlphabet(a: Alphabet, v: nat, k: nat)
    requires ValidAlphabet(a)
    ensures forall i :: 0 <= i < k ==> Decode(a, v, k)[i] in a.chars
  {
    if k > 0 {
      DecodeInAlphabet(a, v / |a.chars|, k - 1);
    }
  }

  /** A run of alphabet characters is encodable and stored unchanged. */
  lemma AlphabetRunIsNormal(a: Alphabet, s: seq<char>)
    requires ValidAlphabet(a)
    requires forall i :: 0 <= i < |s| ==> s[i] in a.chars
    ensures Encodable(a, s) && Normalize(a, s) == s
  {
  }

  /** No character appears twice in the alphabet. */
  predicate DistinctCharacters(a: Alphabet) {
    forall i, j :: 0 <= i < j < |a.chars| ==> a.chars[i] != a.chars[j]
  }

  /**
   * getAlphabetCharacter undoes getAlphabetIndex on the alphabet, and getAlphabetIndex
   * undoes getAlphabetCharacter on every index when no character repeats.
   */
  lemma CharacterIndexInverse(a: Alphabet, c: char, index: int)
    requires ValidAlphabet(a)
    ensures c in a.chars ==> AlphabetCharacter(a, Digit(a, c)) == c
    ensures DistinctCharacters(a) && 0 <= index < |a.chars| ==> Digit(a, AlphabetCharacter(a, index)) == index
  {
    if DistinctCharacters(a) && 0 <= index < |a.chars| {
      var x := a.chars[index];
      assert x in a.chars;
    }
  }

  /**
   * The stored string holds only alphabet characters, so storing it again changes nothing,
   * and it differs from the input exactly where the input leaves the alphabet.
   */
  lemma NormalizeIdempotent(a: Alphabet, s: seq<char>)
    requires ValidAlphabet(a) && Encodable(a, s)
    ensures forall i :: 0 <= i < |s| ==> Normalize(a, s)[i] in a.chars
    ensures Encodable(a, Normalize(a, s)) && Normalize(a, Normalize(a, s)) == Normalize(a, s)
    ensures forall i :: 0 <= i < |s| ==> (Normalize(a, s)[i] == s[i] <==> s[i] in a.chars)
  {
    AlphabetRunIsNormal(a, Normalize(a, s));
  }

  lemma NormalizeAppend(a: Alphabet, s: seq<char>, t: seq<char>)
    requires ValidAlphabet(a) && Encodable(a, s) && Encodable(a, t)
    ensures Encodable(a, s + t)
    ensures Normalize(a, s + t) == Normalize(a, s) + Normalize(a, t)
  {
    assert Encodable(a, s + t) by {
      forall i | 0 <= i < |s + t| ensures Digit(a, (s + t)[i]) >= 0 {
        if i < |s| { assert (s + t)[i] == s[i]; } else { assert (s + t)[i] == t[i - |s|]; }
      }
    }
  }

  lemma NormalizeSlice(a: Alphabet, s: seq<char>, i: nat, j: nat)
    requires ValidAlphabet(a) && Encodable(a, s) && i <= j <= |s|
    ensures Encodable(a, s[i..j])
    ensures Normalize(a, s[i..j]) == Normalize(a, s)[i..j]
  {
    assert Encodable(a, s[i..j]) by {
      forall k | 0 <= k < j - i ensures Digit(a, s[i..j][k]) >= 0 { assert s[i..j][k] == s[i + k]; }
    }
  }

  // ---------------------------------------------------------------- the loops of the source

  /**
   * getHash(seq, start, end): Horner's rule over seq[start..end]. Throws
   * IllegalArgumentException at the first character without an index.
   */
  method GetHash(a: Alphabet, s: seq<char>, start: nat, end: nat) returns (r: Result<int32>)
    requires ValidAlphabet(a) && start <= end <= |s| && end - start <= MaxHashSize(a)
    ensures r.Ok? <==> Encodable(a, s[start..end])
    ensures r.Ok? ==> r == Ok(HashWord(a, s[start..end]))
    ensures r.Err? ==> r.fault == IllegalArgument
  {
    var number := 0;
    var alpSize := |a.chars|;
    var i := start;
    while i < end
      invariant start <= i <= end
      invariant Encodable(a, s[start..i])
      invariant number == HashValue(a, s[start..i])
    {
      var index := IndexOf(a.chars, s[i]);
      if index < 0 {
        index := a.defaultIndex;
      }
      if index < 0 {
        HashFails(a, s, start, i, end);
        return Err(IllegalArgument);
      }
      HashStep(a, s, start, i, number, alpSize, index);
      number := number * alpSize + index;
      i := i + 1;
    }
    HashDone(a, s, start, end, number);
    r := Ok((number + MinInt) as int32);
  }

  /** A character without an index inside the run makes the run unencodable. */
  lemma HashFails(a: Alphabet, s: seq<char>, start: nat, i: nat, end: nat)
    requires ValidAlphabet(a) && start <= i < end <= |s| && Digit(a, s[i]) < 0
    ensures !Encodable(a, s[start..end])
  {
    assert s[start..end][i - start] == s[i];
  }

  /** getHash's last step: the finished numeral, offset by Integer.MIN_VALUE, is the stored word. */
  lemma HashDone(a: Alphabet, s: seq<char>, start: nat, end: nat, number: int)
    requires ValidAlphabet(a) && start <= end <= |s| && end - start <= MaxHashSize(a)
    requires Encodable(a, s[start..end]) && number == HashValue(a, s[start..end])
    ensures -0x8000_0000 <= number + MinInt < 0x8000_0000
    ensures HashWord(a, s[start..end]) == (number + MinInt) as int32
  {
    HashValueFits(a, s[start..end]);
  }

  /** One iteration of getHash: the numeral of s[start..i] extended by the digit of s[i]. */
  lemma HashStep(a: Alphabet, s: seq<char>, start: nat, i: nat, shifted: int, b: int, index: int)
    requires ValidAlphabet(a) && start <= i < |s| && Encodable(a, s[start..i]) && b == |a.chars|
    requires index == (if IndexOf(a.chars, s[i]) < 0 then a.defaultIndex else IndexOf(a.chars, s[i]))
    requires index >= 0
    requires shifted == HashValue(a, s[start..i])
    ensures Encodable(a, s[start..i + 1])
    ensures HashValue(a, s[start..i + 1]) == shifted * b + index
  {
    assert s[start..i + 1] == s[start..i] + [s[i]];
    HashValueSnoc(a, s[start..i], s[i]);
  }

  lemma HashValueSnoc(a: Alphabet, s: seq<char>, c: char)
    requires ValidAlphabet(a) && Encodable(a, s) && Digit(a, c) >= 0
    ensures Encodable(a, s + [c])
    ensures HashValue(a, s + [c]) == HashValue(a, s) * |a.chars| + Digit(a, c)
  {
    var t := s + [c];
    assert t[..|t| - 1] == s;
    assert Encodable(a, t) by {
      forall i | 0 <= i < |t| ensures Digit(a, t[i]) >= 0 {
        if i < |s| { assert t[i] == s[i]; }
      }
    }
  }

  lemma DecodeStep(a: Alphabet, x: nat, k: nat)
    requires ValidAlphabet(a) && k > 0
    ensures 0 <= x % |a.chars| < |a.chars| && 0 <= x / |a.chars|
    ensures Decode(a, x, k) == Decode(a, x / |a.chars|, k - 1) + [a.chars[x % |a.chars|]]
  {
  }

  /**
   * getSequence(number, size): peels off `size` base-|alphabet| digits, least significant
   * first, writing them from the end of the answer.
   */
  method GetSequence(a: Alphabet, number: int32, size: nat) returns (r: seq<char>)
    requires ValidAlphabet(a)
    ensures r == WordText(a, number, size)
    ensures forall i :: 0 <= i < |r| ==> r[i] in a.chars
  {
    var answer := new char[size];
    var alpSize := |a.chars|;
    var absoluteNumber: nat := number as int - MinInt;
    ghost var v := absoluteNumber;
    var i := 0;
    while i < size
      invariant 0 <= i <= size
      invariant Decode(a, v, size) == Decode(a, absoluteNumber, size - i) + answer[size - i..]
    {
      var nextDigit := absoluteNumber % alpSize;
      var index := size - i - 1;
      ghost var tail := answer[size - i..];
      answer[index] := AlphabetCharacter(a, nextDigit);
      assert answer[index..] == [a.chars[nextDigit]] + tail;
      DecodeStep(a, absoluteNumber, size - i);
      absoluteNumber := absoluteNumber / alpSize;
      i := i + 1;
    }
    r := answer[..];
    DecodeInAlphabet(a, v, size);
  }
}
