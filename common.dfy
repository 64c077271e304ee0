/** Small value types shared by every component of the model. */
module Common {

  /** A Java reference that may be null. */
  datatype Option<T> = None | Some(value: T)

  /** The exceptions the modelled code throws. */
  datatype Fault =
    | IllegalArgument      // IllegalArgumentException: character outside the alphabet
    | IndexOutOfBounds     // StringIndexOutOfBoundsException: position outside the sequence
    | NullPointer          // NullPointerException: unboxing a missing map entry

  /** The outcome of a Java method that returns a value or throws. */
  datatype Result<T> = Ok(value: T) | Err(fault: Fault)

  /** The outcome of a Java `void` method that may throw. */
  datatype Outcome = Pass | Fail(fault: Fault)

  /** Number of occurrences of `x` in `s`. */
  function Count<T(==)>(s: seq<T>, x: T): (n: nat)
    ensures n <= |s|
    ensures n == 0 <==> x !in s
  {
    if s == [] then 0 else Count(s[..|s| - 1], x) + (if s[|s| - 1] == x then 1 else 0)
  }

  lemma {:induction false} CountAppend<T>(a: seq<T>, b: seq<T>, x: T)
    ensures Count(a + b, x) == Count(a, x) + Count(b, x)
    decreases |b|
  {
    if b == [] {
      assert a + b == a;
    } else {
      assert (a + b)[..|a + b| - 1] == a + b[..|b| - 1];
      CountAppend(a, b[..|b| - 1], x);
    }
  }

  /** String.indexOf for one character: the first index of `c`, or -1. */
  function IndexOf(s: seq<char>, c: char): (r: int)
    ensures -1 <= r < |s|
    ensures r == -1 <==> c !in s
    ensures r >= 0 ==> s[r] == c && c !in s[..r]
  {
    if s == [] then -1
    else if s[0] == c then 0
    else
      var k := IndexOf(s[1..], c);
      assert s[1..][..k + 1] == s[1..k + 2] by { }
      if k == -1 then -1 else k + 1
  }

  // ---------------------------------------------------------------- arithmetic

  lemma MulMono(a: nat, b: nat, c: nat, d: nat)
    requires a <= b && c <= d
    ensures a * c <= b * d
  {
    assert a * c <= b * c;
    assert b * c <= b * d;
  }

  lemma DivModStep(n: int, x: nat, b: nat, d: nat)
    requires 0 <= d < b && n == x * b + d
    ensures n / b == x && n % b == d
  {
    var q, r := n / b, n % b;
    assert n == q * b + r;
    assert (x - q) * b == r - d;
    MulAtLeastOne(x - q, b);
  }

  lemma MulAtLeastOne(k: int, b: nat)
    ensures k >= 1 ==> k * b >= b
    ensures k <= -1 ==> k * b + b <= 0
  {
    if k >= 1 {
      MulMono(1, k, b, b);
    } else if k <= -1 {
      MulMono(1, -k, b, b);
      assert (-k) * b == -(k * b);
    }
  }
}
