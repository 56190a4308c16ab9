/** The number reader parseNumber, up to the rounding of a float. */
module Numbers {
  import opened Bytes
  import opened Ascii
  import opened Document

  const MANTISSA_MAX: nat := 0xF_FFFF_FFFF_FFFF
  const EXPONENT_MAX: int := 308
  const INT_LIMIT: nat := 0x8000_0000_0000_0000

  /** The character at the cursor; the end of the input reads as NUL. */
  function Head(s: bytes): byte {
    if s == [] then NUL else s[0]
  }

  function Tail(s: bytes): (t: bytes)
    ensures |t| <= |s| && (s != [] ==> |t| < |s|)
  {
    if s == [] then [] else s[1..]
  }

  function ParseNumber(text: bytes): (r: Parsed)
    ensures r.Number? ==> r.v.Int? || r.v.Real?
  {
    var negative := Head(text) == MINUS;
    var s := if negative || Head(text) == PLUS then text[1..] else text;
    if !IsDigit(Head(s)) && Head(s) != DOT then NotANumber
    else
      var (mantissa, rest) := ReadMantissa(s, 0);
      if Head(rest) == NUL && !negative then Number(Int(mantissa))
      else if Head(rest) == NUL && mantissa <= INT_LIMIT then Number(Int(0 - mantissa))
      else ParseFloat(negative, mantissa, rest)
  }

  datatype Parsed = NotANumber | Number(v: Value)

  /** Stops before a digit that would overflow 64 bits; the multiplication by
      ten may already have happened by then. */
  function ReadMantissa(s: bytes, m: nat): (r: (nat, bytes))
    ensures m <= UINT_MAX ==> r.0 <= UINT_MAX
  {
    if !IsDigit(Head(s)) || m > UINT_MAX / 10 then (m, s)
    else
      var digit := s[0] - 0x30;
      if m * 10 > UINT_MAX - digit then (m * 10, s) else ReadMantissa(s[1..], m * 10 + digit)
  }

  function ParseFloat(negative: bool, mantissa: nat, s: bytes): (r: Parsed)
    ensures r.Number? ==> r.v.Real?
  {
    var (m, dropped) := Reduce(mantissa);
    var skipped := DigitCount(s);
    var t := s[skipped..];
    var (m', places, u) := if Head(t) == DOT then ReadFraction(t[1..], m, 0) else (m, 0, t);
    WithExponent(negative, m', dropped + skipped - places, u)
  }

  /** Behind the digits: an exponent or the end. */
  function WithExponent(negative: bool, m: nat, offset: int, s: bytes): (r: Parsed)
    ensures r.Number? ==> r.v.Real?
  {
    if Head(s) == 0x65 || Head(s) == 0x45 then
      var signed := s[1..];
      var minus := Head(signed) == MINUS;
      var digits := if minus || Head(signed) == PLUS then signed[1..] else signed;
      match ReadExponent(digits, 0, offset)
      case OutOfRange => Number(Real(if minus then Zero(negative) else Infinite(negative)))
      case InRange(e, rest) =>
        if Head(rest) != NUL then NotANumber
        else Number(Real(Decimal(negative, m, (if minus then 0 - e else e) + offset)))
    else if Head(s) != NUL then NotANumber
    else Number(Real(Decimal(negative, m, offset)))
  }

  function Reduce(m: nat): (nat, nat) {
    if m <= MANTISSA_MAX then (m, 0) else var (r, n) := Reduce(m / 10); (r, n + 1)
  }

  function DigitCount(s: bytes): (n: nat)
    ensures n <= |s|
  {
    if IsDigit(Head(s)) then 1 + DigitCount(s[1..]) else 0
  }

  function ReadFraction(s: bytes, m: nat, places: nat): (nat, nat, bytes) {
    if !IsDigit(Head(s)) then (m, places, s)
    else if m < MANTISSA_MAX / 10 then ReadFraction(s[1..], m * 10 + (s[0] - 0x30), places + 1)
    else ReadFraction(s[1..], m, places)
  }

  datatype Exponent = OutOfRange | InRange(e: nat, rest: bytes)

  /** OutOfRange as soon as the exponent is out of range, whatever follows. */
  function ReadExponent(s: bytes, e: nat, offset: int): Exponent {
    if !IsDigit(Head(s)) then InRange(e, s)
    else
      var e' := e * 10 + (s[0] - 0x30);
      if e' + offset > EXPONENT_MAX then OutOfRange else ReadExponent(s[1..], e', offset)
  }

  // ----- integers survive -----

  lemma {:induction false} DigitsRead(n: nat, t: bytes)
    requires n <= UINT_MAX
    ensures ReadMantissa(Digits(n) + t, 0) == ReadMantissa(t, n)
  {
    var d := 0x30 + n % 10;
    if n < 10 {
      assert (Digits(n) + t)[1..] == t;
    } else {
      DigitsRead(n / 10, [d] + t);
      assert Digits(n) + t == Digits(n / 10) + ([d] + t);
      assert ([d] + t)[1..] == t;
    }
  }

  function IntegerText(i: int): bytes {
    if i < 0 then [MINUS] + Digits(-i) else Digits(i)
  }

  /** Every integer that fits 64 bits, signed or unsigned, is read back. */
  lemma IntegerTextRead(i: int)
    requires INT_MIN <= i <= UINT_MAX
    ensures ParseNumber(IntegerText(i)) == Number(Int(i))
  {
    var n := if i < 0 then -i else i;
    var s := Digits(n);
    DigitsRead(n, []);
    assert s + [] == s;
    if i < 0 {
      assert IntegerText(i)[1..] == s;
    }
    assert s[0] in s;
  }

  lemma {:induction false} DigitsLength(n: nat, k: nat, bound: nat)
    requires bound == PowerOf10(k) && n < bound && k > 0
    ensures |Digits(n)| <= k
  {
    if n >= 10 {
      DigitsLength(n / 10, k - 1, bound / 10);
    }
  }

  function PowerOf10(k: nat): nat {
    if k == 0 then 1 else 10 * PowerOf10(k - 1)
  }
}
