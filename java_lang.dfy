/**
 * The Java platform facts the cache relies on: 32- and 64-bit two's-complement
 * integers, the decimal form String.valueOf(int), and the polynomial hash of
 * java.util.Arrays.hashCode(Object[]) that RepositoryCacheManager.hashCode copies.
 */
module JavaLang {

  const TwoTo32: int := 0x1_0000_0000
  const TwoTo64: int := 0x1_0000_0000_0000_0000

  /** Java `int`. */
  type Int32 = x: int | -0x8000_0000 <= x < 0x8000_0000

  /** Java `long` (file timestamps and System.currentTimeMillis()). */
  type Int64 = x: int | -0x8000_0000_0000_0000 <= x < 0x8000_0000_0000_0000

  /** A Java reference that may be null. */
  datatype Option<+T> = None | Some(value: T)

  /** What a void Java method did: returned normally, or threw. */
  datatype Outcome<+E> = Completed | Threw(exception: E)

  /** What a value-returning Java method did: returned a value, or threw. */
  datatype Result<+T, +E> = Returned(value: T) | Thrown(exception: E)

  /** The result of a Java `int` operation whose exact value is x. */
  function Wrap32(x: int): (r: Int32)
    ensures -0x8000_0000 <= x < 0x8000_0000 ==> r == x
  {
    (x + 0x8000_0000) % TwoTo32 - 0x8000_0000
  }

  /** The result of a Java `long` operation whose exact value is x. */
  function Wrap64(x: int): (r: Int64)
    ensures -0x8000_0000_0000_0000 <= x < 0x8000_0000_0000_0000 ==> r == x
  {
    (x + 0x8000_0000_0000_0000) % TwoTo64 - 0x8000_0000_0000_0000
  }

  /** Wrapping only depends on the value modulo 2^32. */
  lemma WrapShift(x: int, k: int)
    ensures Wrap32(x + k * TwoTo32) == Wrap32(x)
  {
    var a := x + 0x8000_0000;
    var q := a / TwoTo32;
    var r := a % TwoTo32;
    assert a + k * TwoTo32 == (q + k) * TwoTo32 + r;
    assert (a + k * TwoTo32) % TwoTo32 == r;
  }

  /** One wrapped step of the hash recurrence equals the unwrapped step, wrapped once. */
  lemma WrapStep(p: int, x: int)
    ensures Wrap32(31 * Wrap32(p) + x) == Wrap32(31 * p + x)
  {
    var q := (p + 0x8000_0000) / TwoTo32;
    assert Wrap32(p) == p - q * TwoTo32;
    assert 31 * Wrap32(p) + x == (31 * p + x) + (-31 * q) * TwoTo32;
    WrapShift(31 * p + x, -31 * q);
  }

  // ---------------------------------------------------------------------------
  // String.valueOf(int)

  function DigitChar(d: int): (c: char)
    requires 0 <= d < 10
    ensures '0' <= c <= '9' && c as int - '0' as int == d
  {
    (d + '0' as int) as char
  }

  /** The decimal numeral of n without sign or leading zeros ("0" for zero). */
  function NatDigits(n: nat): (s: string)
    ensures |s| >= 1
    ensures forall i :: 0 <= i < |s| ==> '0' <= s[i] <= '9'
    decreases n
  {
    if n < 10 then [DigitChar(n)] else NatDigits(n / 10) + [DigitChar(n % 10)]
  }

  /** String.valueOf(int): a minus sign for negative values, then the digits. */
  function DecimalString(n: int): (s: string)
    ensures |s| >= 1
    ensures forall i :: 0 <= i < |s| ==> s[i] == '-' || '0' <= s[i] <= '9'
  {
    if n < 0 then "-" + NatDigits(-n) else NatDigits(n)
  }

  /** The value of a string of decimal digits (the reading direction of NatDigits). */
  function DigitsValue(s: string): int
  {
    if s == [] then 0 else 10 * DigitsValue(s[..|s| - 1]) + (s[|s| - 1] as int - '0' as int)
  }

  /** The value of an optionally signed decimal numeral: the inverse of DecimalString. */
  function ParseDecimal(s: string): int
  {
    if |s| > 0 && s[0] == '-' then -DigitsValue(s[1..]) else DigitsValue(s)
  }

  lemma {:induction false} NatDigitsValue(n: nat)
    ensures DigitsValue(NatDigits(n)) == n
  {
    if n >= 10 {
      NatDigitsValue(n / 10);
      var s := NatDigits(n);
      assert s[..|s| - 1] == NatDigits(n / 10);
    }
  }

  /** Reading back the decimal form of any integer gives the integer. */
  lemma DecimalRoundTrip(n: int)
    ensures ParseDecimal(DecimalString(n)) == n
  {
    if n < 0 {
      NatDigitsValue(-n);
      assert DecimalString(n)[1..] == NatDigits(-n);
    } else {
      NatDigitsValue(n);
    }
  }

  /** Two integers have the same decimal form exactly when they are equal. */
  lemma DecimalInjective(m: int, n: int)
    ensures DecimalString(m) == DecimalString(n) <==> m == n
  {
    DecimalRoundTrip(m);
    DecimalRoundTrip(n);
  }

  // ---------------------------------------------------------------------------
  // Arrays.hashCode(Object[])

  /** The hash an element contributes: 0 for null, its own hashCode() otherwise. */
  function ElementHash(e: Option<Int32>): Int32
  {
    if e.None? then 0 else e.value
  }

  function ElementHashes(objects: seq<Option<Int32>>): seq<Int32>
  {
    seq(|objects|, i requires 0 <= i < |objects| => ElementHash(objects[i]))
  }

  /** Runs the recurrence h := int(31 * h + x) over xs, left to right, from h == acc. */
  function HashFold(acc: Int32, xs: seq<Int32>): Int32
    decreases |xs|
  {
    if xs == [] then acc else HashFold(Wrap32(31 * acc + xs[0]), xs[1..])
  }

  /**
   * The hash of an array whose elements hash to the given values, or of a null
   * array (None). Every element is an Object here, so a nested array counts by
   * its identity hash, which the caller supplies.
   */
  function ArraysHashCode(objects: Option<seq<Option<Int32>>>): Int32
  {
    match objects
    case None => 0
    case Some(s) => HashFold(1, ElementHashes(s))
  }

  /** The hash without wrap-around: 31^n + xs[0] * 31^(n-1) + ... + xs[n-1]. */
  function Polynomial(xs: seq<Int32>): int
  {
    if xs == [] then 1 else 31 * Polynomial(xs[..|xs| - 1]) + xs[|xs| - 1]
  }

  /** Appending an element performs one more step of the recurrence. */
  lemma {:induction false} HashFoldSnoc(acc: Int32, xs: seq<Int32>, x: Int32)
    ensures HashFold(acc, xs + [x]) == Wrap32(31 * HashFold(acc, xs) + x)
    decreases |xs|
  {
    if xs == [] {
      assert HashFold(acc, [x]) == HashFold(Wrap32(31 * acc + x), []);
    } else {
      assert (xs + [x])[1..] == xs[1..] + [x];
      HashFoldSnoc(Wrap32(31 * acc + xs[0]), xs[1..], x);
    }
  }

  /** The fold law of hashCode: hash(s + [e]) == int(31 * hash(s) + hash(e)). */
  lemma ArraysHashCodeSnoc(s: seq<Option<Int32>>, e: Option<Int32>)
    ensures ArraysHashCode(Some(s + [e])) == Wrap32(31 * ArraysHashCode(Some(s)) + ElementHash(e))
  {
    assert ElementHashes(s + [e]) == ElementHashes(s) + [ElementHash(e)];
    HashFoldSnoc(1, ElementHashes(s), ElementHash(e));
  }

  /** The wrapped fold is the unwrapped polynomial reduced once to a Java int. */
  lemma {:induction false} HashFoldIsPolynomial(xs: seq<Int32>)
    ensures HashFold(1, xs) == Wrap32(Polynomial(xs))
    decreases |xs|
  {
    if xs != [] {
      var init, x := xs[..|xs| - 1], xs[|xs| - 1];
      assert xs == init + [x];
      HashFoldIsPolynomial(init);
      HashFoldSnoc(1, init, x);
      WrapStep(Polynomial(init), x);
    }
  }

  /**
   * The promise of hashCode's documentation: arrays whose elements hash alike
   * (in particular Arrays.equals arrays) hash alike. It follows from hashCode
   * being a function of the element hashes, and the closed form is that of
   * HashFoldIsPolynomial; the lemma only records the promise.
   */
  lemma EqualElementsEqualHash(a: seq<Option<Int32>>, b: seq<Option<Int32>>)
    requires ElementHashes(a) == ElementHashes(b)
    ensures ArraysHashCode(Some(a)) == ArraysHashCode(Some(b))
    ensures ArraysHashCode(Some(a)) == Wrap32(Polynomial(ElementHashes(b)))
  {
    HashFoldIsPolynomial(ElementHashes(b));
  }
}
