/** What the number reader makes of a decimal text: the digits it keeps, and the
    exponent that makes up for those it drops. */
module NumberTheorems {
  import opened Bytes
  import opened Ascii
  import opened Document
  import opened Numbers

  predicate AllDigits(s: bytes) {
    forall i | 0 <= i < |s| :: 0x30 <= s[i] <= 0x39
  }

  /** The number a string of digits stands for. */
  function Number(s: bytes): (n: nat)
    requires AllDigits(s)
  {
    if s == [] then 0 else 10 * Number(s[..|s| - 1]) + (s[|s| - 1] - 0x30)
  }

  /** No digit can follow: the text goes on with something else, or ends. */
  predicate Ends(t: bytes) {
    t == [] || !(0x30 <= t[0] <= 0x39)
  }

  lemma OneMore(a: bytes, c: byte)
    requires AllDigits(a) && 0x30 <= c <= 0x39
    ensures AllDigits(a + [c]) && Number(a + [c]) == 10 * Number(a) + (c - 0x30)
  {
    assert (a + [c])[..|a|] == a;
  }

  lemma {:induction false} Grows(a: bytes, b: bytes)
    requires AllDigits(a) && AllDigits(b)
    ensures AllDigits(a + b) && Number(a) <= Number(a + b)
  {
    if b == [] {
      assert a + b == a;
    } else {
      var c, d := b[..|b| - 1], b[|b| - 1];
      Grows(a, c);
      OneMore(a + c, d);
      assert a + b == a + c + [d];
    }
  }

  // The reader.

  const TENTH: nat := 1844674407370955161
  const KEPT: nat := 450359962737049

  /** How far the mantissa is read: to the end of the digits, or to where the
      next one might not fit. A digit that does not fit although the multiplication
      by ten did leaves the product behind. */
  lemma {:induction false} MantissaRead(seen: bytes, digits: bytes, t: bytes) returns (a: bytes, b: bytes)
    requires AllDigits(seen) && AllDigits(digits) && Ends(t)
    requires Number(seen) <= UINT_MAX
    ensures digits == a + b && AllDigits(a) && AllDigits(b) && AllDigits(seen + a)
    ensures var n := Number(seen + a);
            && n <= UINT_MAX
            && (b != [] ==> n >= TENTH)
            && (b != [] && n == TENTH ==> b[0] > 0x35)
            && ReadMantissa(digits + t, Number(seen)) == (if b != [] && n == TENTH then 10 * n else n, b + t)
    decreases |digits|
  {
    hide Number, ReadMantissa;
    var n := Number(seen);
    a, b := [], digits;
    assert seen + [] == seen;
    if digits == [] {
      assert digits + t == t;
      MantissaEnds(n, t);
    } else {
      var c, more := digits[0], digits[1..];
      assert digits == [c] + more && digits + t == [c] + (more + t);
      MantissaStep(n, c, more + t);
      if n <= TENTH && 10 * n + (c - 0x30) <= UINT_MAX {
        OneMore(seen, c);
        a, b := MantissaRead(seen + [c], more, t);
        assert seen + [c] + a == seen + ([c] + a);
        a := [c] + a;
      }
    }
  }

  lemma MantissaEnds(n: nat, t: bytes)
    requires Ends(t)
    ensures ReadMantissa(t, n) == (n, t)
  {
  }

  lemma MantissaStep(n: nat, c: byte, s: bytes)
    requires 0x30 <= c <= 0x39
    ensures ReadMantissa([c] + s, n)
            == if n > TENTH then (n, [c] + s)
               else if 10 * n + (c - 0x30) > UINT_MAX then (10 * n, [c] + s)
               else ReadMantissa(s, 10 * n + (c - 0x30))
  {
    assert ([c] + s)[1..] == s;
  }

  /** The last digits are cut off until the rest fits. */
  lemma {:induction false} Reduced(a: bytes)
    requires AllDigits(a)
    ensures var (r, n) := Reduce(Number(a));
            n <= |a| && r == Number(a[..|a| - n]) && r <= MANTISSA_MAX && (n > 0 ==> r >= KEPT)
  {
    assert a[..|a|] == a;
    if Number(a) > MANTISSA_MAX {
      var less := a[..|a| - 1];
      Reduced(less);
      var (r, n) := Reduce(Number(less));
      assert less[..|less| - n] == a[..|a| - (n + 1)];
    }
  }

  lemma {:induction false} DigitsCounted(b: bytes, t: bytes)
    requires AllDigits(b) && Ends(t)
    ensures DigitCount(b + t) == |b|
  {
    if b == [] {
      assert b + t == t;
    } else {
      assert (b + t)[1..] == b[1..] + t;
      DigitsCounted(b[1..], t);
    }
  }

  lemma {:induction false} FractionDropped(digits: bytes, t: bytes, m: nat, places: nat)
    requires AllDigits(digits) && Ends(t) && m >= KEPT
    ensures ReadFraction(digits + t, m, places) == (m, places, t)
  {
    if digits == [] {
      assert digits + t == t;
    } else {
      assert (digits + t)[1..] == digits[1..] + t;
      FractionDropped(digits[1..], t, m, places);
    }
  }

  lemma {:induction false} FractionRead(seen: bytes, digits: bytes, t: bytes, places: nat) returns (a: bytes, b: bytes)
    requires AllDigits(seen) && AllDigits(digits) && Ends(t)
    ensures digits == a + b && AllDigits(a) && AllDigits(b) && AllDigits(seen + a)
    ensures b != [] ==> Number(seen + a) >= KEPT
    ensures Number(seen) <= MANTISSA_MAX ==> Number(seen + a) <= MANTISSA_MAX
    ensures ReadFraction(digits + t, Number(seen), places) == (Number(seen + a), places + |a|, t)
    decreases |digits|
  {
    hide Number, ReadFraction;
    var n := Number(seen);
    a, b := [], digits;
    assert seen + [] == seen;
    if n >= KEPT || digits == [] {
      if digits == [] { FractionEnds(n, places, t); } else { FractionDropped(digits, t, n, places); }
      assert digits == [] ==> digits + t == t;
    } else {
      var c, more := digits[0], digits[1..];
      assert digits == [c] + more && digits + t == [c] + (more + t);
      FractionStep(n, c, more + t, places);
      OneMore(seen, c);
      a, b := FractionRead(seen + [c], more, t, places + 1);
      assert seen + [c] + a == seen + ([c] + a);
      a := [c] + a;
    }
  }

  lemma FractionEnds(n: nat, places: nat, t: bytes)
    requires Ends(t)
    ensures ReadFraction(t, n, places) == (n, places, t)
  {
  }

  lemma FractionStep(n: nat, c: byte, s: bytes, places: nat)
    requires 0x30 <= c <= 0x39 && n < KEPT
    ensures ReadFraction([c] + s, n, places) == ReadFraction(s, 10 * n + (c - 0x30), places + 1)
  {
    assert ([c] + s)[1..] == s;
  }

  lemma {:induction false} ExponentRead(seen: bytes, digits: bytes, t: bytes, offset: int)
    requires AllDigits(seen) && AllDigits(digits) && Ends(t)
    ensures AllDigits(seen + digits)
    ensures ReadExponent(digits + t, Number(seen), offset)
            == if digits != [] && Number(seen + digits) + offset > 308 then OutOfRange
               else InRange(Number(seen + digits), t)
    decreases |digits|
  {
    hide Number, ReadExponent;
    assert seen + [] == seen;
    if digits == [] {
      assert digits + t == t;
      ExponentEnds(Number(seen), t, offset);
    } else {
      var c, more := digits[0], digits[1..];
      var next := seen + [c];
      assert next + more == seen + digits && digits + t == [c] + (more + t);
      OneMore(seen, c);
      ExponentStep(Number(seen), c, more + t, offset);
      ExponentRead(next, more, t, offset);
      Grows(next, more);
      assert more == [] ==> next + more == next;
    }
  }

  lemma ExponentEnds(n: nat, t: bytes, offset: int)
    requires Ends(t)
    ensures ReadExponent(t, n, offset) == InRange(n, t)
  {
  }

  lemma ExponentStep(n: nat, c: byte, s: bytes, offset: int)
    requires 0x30 <= c <= 0x39
    ensures ReadExponent([c] + s, n, offset)
            == var next := 10 * n + (c - 0x30);
               if next + offset > 308 then OutOfRange else ReadExponent(s, next, offset)
  {
    assert ([c] + s)[1..] == s;
  }

  // Whole texts.

  datatype Sign = Bare | Plus | Minus

  function SignText(s: Sign): bytes {
    match s case Bare => [] case Plus => [0x2B] case Minus => [0x2D]
  }

  /** A sign, digits, digits behind a point, and an exponent. */
  datatype Numeral = Numeral(sign: Sign, whole: bytes, point: bool, fraction: bytes, mark: bytes, power: Sign,
                             digits: bytes)

  /** The mark of an exponent is an e, or there is no exponent. */
  predicate IsNumeral(n: Numeral) {
    && AllDigits(n.whole) && AllDigits(n.fraction) && AllDigits(n.digits)
    && (n.whole != [] || n.point)
    && (!n.point ==> n.fraction == [])
    && (n.mark == [0x65] || n.mark == [0x45] || (n.mark == [] && n.power == Bare && n.digits == []))
  }

  function AfterFraction(n: Numeral): bytes {
    n.mark + (SignText(n.power) + n.digits)
  }

  function AfterWhole(n: Numeral): bytes {
    if n.point then [0x2E] + (n.fraction + AfterFraction(n)) else AfterFraction(n)
  }

  function NumeralText(n: Numeral): bytes {
    SignText(n.sign) + (n.whole + AfterWhole(n))
  }

  /** The first digits are 18446744073709551616, or one, two or three more. */
  predicate Overstepped(whole: bytes)
    requires AllDigits(whole)
  {
    exists k | 0 <= k <= |whole| :: UINT_MAX < Number(whole[..k]) <= UINT_MAX + 4
  }

  /** Reading stopped at a: the next digit does not fit. */
  predicate Stopped(a: bytes, b: bytes)
    requires AllDigits(a)
  {
    && Number(a) <= UINT_MAX
    && (b != [] ==> Number(a) >= TENTH && (Number(a) == TENTH ==> b[0] > 0x35))
  }

  lemma OneTooMany(a: bytes, b: bytes, whole: bytes)
    requires whole == a + b && AllDigits(whole) && AllDigits(a) && AllDigits(b) && b != [] && Stopped(a, b)
    ensures whole[..|a| + 1] == a + [b[0]] && Number(whole[..|a| + 1]) == 10 * Number(a) + (b[0] - 0x30) > UINT_MAX
    ensures Number(whole) > UINT_MAX
  {
    hide Number;
    OneMore(a, b[0]);
    Grows(a + [b[0]], b[1..]);
    assert a + [b[0]] + b[1..] == whole && whole[..|a| + 1] == a + [b[0]];
  }

  lemma OversteppedAt(a: bytes, b: bytes, whole: bytes)
    requires whole == a + b && AllDigits(whole) && AllDigits(a) && AllDigits(b) && Stopped(a, b)
    ensures Overstepped(whole) <==> b != [] && Number(a) == TENTH
    ensures b != [] <==> Number(whole) > UINT_MAX
  {
    hide Number;
    if b != [] {
      OneTooMany(a, b, whole);
    } else {
      assert whole == a;
    }
    if Overstepped(whole) {
      var k :| 0 <= k <= |whole| && UINT_MAX < Number(whole[..k]) <= UINT_MAX + 4;
      OversteppedBehind(a, b, whole, k);
    }
  }

  lemma OversteppedBehind(a: bytes, b: bytes, whole: bytes, k: nat)
    requires whole == a + b && AllDigits(whole) && AllDigits(a) && AllDigits(b) && Stopped(a, b)
    requires k <= |whole| && UINT_MAX < Number(whole[..k]) <= UINT_MAX + 4
    ensures b != [] && Number(a) == TENTH
  {
    hide Number;
    if k <= |a| {
      assert whole[..k] == a[..k] && a == a[..k] + a[k..];
      Grows(a[..k], a[k..]);
    } else {
      var most := whole[..k - 1];
      assert whole[..k] == most + [whole[k - 1]];
      OneMore(most, whole[k - 1]);
      assert most == a + whole[|a|..k - 1];
      Grows(a, whole[|a|..k - 1]);
    }
  }

  /** What is read of the digits before the point, and how many are cut off. */
  lemma WholeRead(whole: bytes, t: bytes) returns (m: nat, s: bytes, cut: nat)
    requires AllDigits(whole) && Ends(t)
    ensures ReadMantissa(whole + t, 0) == (m, s)
    ensures cut <= |whole|
    ensures Number(whole) <= UINT_MAX <==> s == t
    ensures if s == t then m == Number(whole) else s != [] && s[0] != 0
    ensures DigitCount(s) <= |s| && s[DigitCount(s)..] == t
    ensures var (r, n) := Reduce(m);
            && r == Number(whole[..|whole| - cut]) && r <= MANTISSA_MAX && (cut > 0 ==> r >= KEPT)
            && n + DigitCount(s) == cut + if Overstepped(whole) then 1 else 0
  {
    hide Number, ReadMantissa, Reduce, DigitCount, Overstepped;
    NoDigits();
    var a, b := MantissaRead([], whole, t);
    assert [] + a == a;
    OversteppedAt(a, b, whole);
    cut := WholeCut(a, b, t);
    m, s := if b != [] && Number(a) == TENTH then 10 * Number(a) else Number(a), b + t;
    Sliced(a, b, t, whole, cut);
  }

  lemma Sliced(a: bytes, b: bytes, t: bytes, whole: bytes, cut: nat)
    requires whole == a + b && AllDigits(b) && |b| <= cut <= |whole|
    ensures whole[..|whole| - cut] == a[..|a| - (cut - |b|)]
    ensures b == [] <==> b + t == t
    ensures b == [] ==> whole == a
    ensures b != [] ==> (b + t)[0] == b[0] >= 0x30
  {
    assert b != [] ==> |b + t| > |t|;
  }

  lemma WholeCut(a: bytes, b: bytes, t: bytes) returns (cut: nat)
    requires AllDigits(a) && AllDigits(b) && Ends(t)
    ensures |b| <= cut <= |b| + |a|
    ensures var late := if b != [] && Number(a) == TENTH then 1 else 0;
            var (r, n) := Reduce(if late == 1 then 10 * Number(a) else Number(a));
            && r == Number(a[..|a| - (cut - |b|)]) && r <= MANTISSA_MAX
            && (cut > |b| ==> r >= KEPT) && (b != [] && Number(a) >= TENTH ==> r >= KEPT)
            && DigitCount(b + t) == |b| && (b + t)[|b|..] == t && n + |b| == cut + late
  {
    hide Number, Reduce, DigitCount;
    DigitsCounted(b, t);
    Reduced(a);
    var (r, n) := Reduce(Number(a));
    cut := n + |b|;
    if b != [] && Number(a) == TENTH { TenfoldReduced(); }
    assert a[..|a|] == a;
  }

  lemma TenfoldReduced()
    ensures Reduce(10 * TENTH) == (Reduce(TENTH).0, Reduce(TENTH).1 + 1)
  {
  }

  lemma Marks(n: Numeral)
    requires IsNumeral(n)
    ensures Ends(AfterFraction(n)) && Ends(AfterWhole(n))
    ensures Head(AfterWhole(n)) == DOT <==> n.point
    ensures Head(AfterFraction(n)) == NUL <==> n.mark == []
    ensures AfterWhole(n) == [] <==> !n.point && n.mark == []
    ensures Head(AfterWhole(n)) == NUL <==> AfterWhole(n) == []
    ensures n.point ==> AfterWhole(n)[1..] == n.fraction + AfterFraction(n)
    ensures n.mark != [] ==>
              && (Head(AfterFraction(n)) == 0x65 || Head(AfterFraction(n)) == 0x45)
              && AfterFraction(n)[1..] == SignText(n.power) + n.digits
    ensures n.mark == [] ==> AfterFraction(n) == []
  {
  }

  /** The digits behind the point, read or dropped. */
  lemma FractionPart(n: Numeral, t: bytes, r: nat, cut: nat) returns (places: nat, dropped: nat)
    requires IsNumeral(n) && Ends(t) && cut <= |n.whole|
    requires r == Number(n.whole[..|n.whole| - cut]) && r <= MANTISSA_MAX && (cut > 0 ==> r >= KEPT)
    ensures var all := n.whole + n.fraction;
            && AllDigits(all) && dropped <= |all|
            && dropped - |n.fraction| == cut - places
            && var kept := Number(all[..|all| - dropped]);
               && ReadFraction(n.fraction + t, r, 0) == (kept, places, t)
               && kept <= MANTISSA_MAX && (dropped > 0 ==> kept >= KEPT)
  {
    hide Number, ReadFraction;
    if cut > 0 {
      FractionDropped(n.fraction, t, r, 0);
      places, dropped := 0, cut + |n.fraction|;
      CutBoth(n.whole, n.fraction, cut);
    } else {
      assert n.whole[..|n.whole|] == n.whole;
      var a, b := FractionRead(n.whole, n.fraction, t, 0);
      places, dropped := |a|, |b|;
      CutOne(n.whole, n.fraction, a, b);
    }
  }

  lemma CutBoth(a: bytes, b: bytes, cut: nat)
    requires cut <= |a|
    ensures (a + b)[..|a + b| - (cut + |b|)] == a[..|a| - cut]
  {
  }

  lemma CutOne(a: bytes, b: bytes, c: bytes, d: bytes)
    requires b == c + d
    ensures (a + b)[..|a + b| - |d|] == a + c
  {
  }

  lemma NoFraction(t: bytes, r: nat)
    requires Ends(t)
    ensures ReadFraction([] + t, r, 0) == (r, 0, t)
  {
    assert [] + t == t;
  }

  /** The exponent behind its mark, and what becomes of the number. */
  function Scaled(n: Numeral, kept: nat, offset: int): Value
    requires IsNumeral(n)
  {
    var power := Number(n.digits);
    var negative := n.sign.Minus?;
    if n.digits != [] && power + offset > 308 then Real(if n.power.Minus? then Zero(negative) else Infinite(negative))
    else Real(Decimal(negative, kept, (if n.power.Minus? then 0 - power else power) + offset))
  }

  lemma PowerRead(n: Numeral, offset: int)
    requires IsNumeral(n)
    ensures var s := SignText(n.power) + n.digits;
            var minus := Head(s) == MINUS;
            && minus == n.power.Minus?
            && ReadExponent(if minus || Head(s) == PLUS then s[1..] else s, 0, offset)
               == if n.digits != [] && Number(n.digits) + offset > 308 then OutOfRange
                  else InRange(Number(n.digits), [])
  {
    hide ReadExponent, Number;
    NoDigits();
    ExponentRead([], n.digits, [], offset);
    assert [] + n.digits == n.digits && n.digits + [] == n.digits;
    var s := SignText(n.power) + n.digits;
    if !n.power.Bare? { assert s[1..] == n.digits; } else { assert s == n.digits; }
  }

  lemma ExponentScales(n: Numeral, kept: nat, offset: int)
    requires IsNumeral(n)
    ensures WithExponent(n.sign.Minus?, kept, offset, AfterFraction(n)) == Parsed.Number(Scaled(n, kept, offset))
  {
    hide Number, ReadExponent, SignText, AfterFraction;
    Marks(n);
    PowerRead(n, offset);
    if n.mark == [] { NoDigits(); }
  }

  /** ParseFloat, step by step. */
  lemma {:induction false} FloatSteps(negative: bool, m: nat, s: bytes, t: bytes, u: bytes, kept: nat, places: nat)
    requires DigitCount(s) <= |s| && s[DigitCount(s)..] == t
    requires if Head(t) == DOT then ReadFraction(t[1..], Reduce(m).0, 0) == (kept, places, u)
             else kept == Reduce(m).0 && places == 0 && u == t
    ensures ParseFloat(negative, m, s)
            == WithExponent(negative, kept, Reduce(m).1 + DigitCount(s) - places, u)
  {
    hide ReadFraction, Reduce, DigitCount, WithExponent;
  }

  lemma FloatRead(n: Numeral, m: nat, s: bytes, cut: nat, late: nat) returns (dropped: nat)
    requires IsNumeral(n) && cut <= |n.whole| && DigitCount(s) <= |s| && s[DigitCount(s)..] == AfterWhole(n)
    requires var (r, k) := Reduce(m);
             && r == Number(n.whole[..|n.whole| - cut]) && r <= MANTISSA_MAX && (cut > 0 ==> r >= KEPT)
             && k + DigitCount(s) == cut + late
    ensures var all := n.whole + n.fraction;
            && AllDigits(all) && dropped <= |all|
            && var kept := Number(all[..|all| - dropped]);
               && kept <= MANTISSA_MAX && (dropped > 0 ==> kept >= KEPT)
               && ParseFloat(n.sign.Minus?, m, s)
                  == Parsed.Number(Scaled(n, kept, dropped - |n.fraction| + late))
  {
    hide Number, ReadFraction, Reduce, DigitCount, ParseFloat, WithExponent, Scaled;
    Marks(n);
    var (r, k) := Reduce(m);
    var places;
    places, dropped := FractionPart(n, AfterFraction(n), r, cut);
    if !n.point { NoFraction(AfterFraction(n), r); }
    var all := n.whole + n.fraction;
    var kept := Number(all[..|all| - dropped]);
    FloatSteps(n.sign.Minus?, m, s, AfterWhole(n), AfterFraction(n), kept, places);
    ExponentScales(n, kept, k + DigitCount(s) - places);
  }

  lemma NoDigits()
    ensures Number([]) == 0
  {
  }

  lemma SignRead(n: Numeral)
    requires IsNumeral(n)
    ensures var s := n.whole + AfterWhole(n);
            var (m, rest) := ReadMantissa(s, 0);
            var negative := n.sign.Minus?;
            ParseNumber(NumeralText(n))
            == if Head(rest) == NUL && !negative then Parsed.Number(Int(m))
               else if Head(rest) == NUL && m <= INT_LIMIT then Parsed.Number(Int(0 - m))
               else ParseFloat(negative, m, rest)
  {
    hide ReadMantissa, ParseFloat;
    var s, text := n.whole + AfterWhole(n), NumeralText(n);
    if !n.sign.Bare? { assert text[1..] == s; } else { assert text == s; }
    assert s[0] == if n.whole != [] then n.whole[0] else 0x2E;
  }

  predicate IsInteger(n: Numeral)
    requires IsNumeral(n)
  {
    && !n.point && n.mark == []
    && Number(n.whole) <= if n.sign.Minus? then INT_LIMIT else UINT_MAX
  }

  lemma IntegerRead(n: Numeral) returns (m: nat, s: bytes, cut: nat)
    requires IsNumeral(n)
    ensures ParseNumber(NumeralText(n))
            == if IsInteger(n) then
                 Parsed.Number(Int(if n.sign.Minus? then 0 - Number(n.whole) else Number(n.whole)))
               else ParseFloat(n.sign.Minus?, m, s)
    ensures cut <= |n.whole| && DigitCount(s) <= |s| && s[DigitCount(s)..] == AfterWhole(n)
    ensures var (r, k) := Reduce(m);
            && r == Number(n.whole[..|n.whole| - cut]) && r <= MANTISSA_MAX && (cut > 0 ==> r >= KEPT)
            && k + DigitCount(s) == cut + if Overstepped(n.whole) then 1 else 0
  {
    hide Number, ReadMantissa, ParseNumber, ParseFloat, Reduce, DigitCount, Overstepped, NumeralText, AfterWhole;
    Marks(n);
    SignRead(n);
    m, s, cut := WholeRead(n.whole, AfterWhole(n));
  }

  /** Every numeral is read. An integer that fits is that integer. Of any other the
      first digits are kept, all of them or at least fifteen, with an exponent that
      makes up for those dropped, and ten times too large if the digits overstep. */
  lemma NumberRead(n: Numeral) returns (dropped: nat)
    requires IsNumeral(n)
    ensures var all := n.whole + n.fraction;
            && AllDigits(all) && dropped <= |all|
            && var kept := Number(all[..|all| - dropped]);
               && kept <= MANTISSA_MAX && (dropped > 0 ==> kept >= KEPT)
               && ParseNumber(NumeralText(n))
                  == if IsInteger(n) then
                       Parsed.Number(Int(if n.sign.Minus? then 0 - Number(n.whole) else Number(n.whole)))
                     else
                       Parsed.Number(Scaled(n, kept, dropped - |n.fraction| + if Overstepped(n.whole) then 1 else 0))
  {
    hide Number, ParseNumber, ParseFloat, Reduce, DigitCount, Overstepped, Scaled, NumeralText, AfterWhole, IsInteger;
    var m, s, cut := IntegerRead(n);
    dropped := FloatRead(n, m, s, cut, if Overstepped(n.whole) then 1 else 0);
  }

  // Nothing else is read.

  lemma {:induction false} RunOf(s: bytes) returns (digits: bytes, t: bytes)
    ensures s == digits + t && AllDigits(digits) && Ends(t) && |digits| == DigitCount(s)
  {
    if IsDigit(Head(s)) {
      digits, t := RunOf(s[1..]);
      digits := [s[0]] + digits;
      assert s == [s[0]] + s[1..];
    } else {
      digits, t := [], s;
    }
  }

  lemma SignOf(s: bytes) returns (sign: Sign, t: bytes)
    ensures s == SignText(sign) + t && (sign.Minus? <==> Head(s) == MINUS)
    ensures t == if Head(s) == MINUS || Head(s) == PLUS then s[1..] else s
  {
    sign := if Head(s) == MINUS then Minus else if Head(s) == PLUS then Plus else Bare;
    t := if sign.Bare? then s else s[1..];
  }

  /** Behind the digits stands an exponent or the end. */
  lemma ExponentFound(negative: bool, m: nat, offset: int, s: bytes)
    returns (mark: bytes, power: Sign, digits: bytes, rest: bytes)
    requires 0 !in s && WithExponent(negative, m, offset, s).Number?
    ensures AllDigits(digits) && s == mark + (SignText(power) + digits) + rest
    ensures mark == [0x65] || mark == [0x45] || (mark == [] && power == Bare && digits == [])
    ensures rest == [] || (digits != [] && WithExponent(negative, m, offset, s).v
                                           == Real(if power.Minus? then Zero(negative) else Infinite(negative)))
  {
    hide Number, ReadExponent, SignText;
    mark, power, digits, rest := [], Bare, [], [];
    if Head(s) == 0x65 || Head(s) == 0x45 {
      mark := [s[0]];
      var t;
      power, t := SignOf(s[1..]);
      digits, rest := RunOf(t);
      Marked(s, SignText(power), digits, rest);
      DigitsBehind(digits, rest, offset);
      assert rest != [] ==> rest[0] == s[|s| - |rest|];
    } else {
      NoSign();
    }
  }

  lemma DigitsBehind(digits: bytes, rest: bytes, offset: int)
    requires AllDigits(digits) && Ends(rest)
    ensures var r := ReadExponent(digits + rest, 0, offset);
            (r == OutOfRange && digits != []) || (r.InRange? && r.rest == rest)
  {
    hide Number, ReadExponent;
    NoDigits();
    ExponentRead([], digits, rest, offset);
    assert [] + digits == digits;
  }

  lemma NoSign()
    ensures SignText(Bare) == []
  {
  }

  lemma Marked(s: bytes, sign: bytes, digits: bytes, rest: bytes)
    requires s != [] && s[1..] == sign + (digits + rest)
    ensures s == [s[0]] + (sign + digits) + rest
  {
    assert s == [s[0]] + s[1..];
  }

  /** Behind the whole digits stand a point and digits, and an exponent. */
  lemma FloatFound(negative: bool, whole: bytes, t: bytes, m: nat, s: bytes, cut: nat)
    returns (n: Numeral, rest: bytes)
    requires AllDigits(whole) && Ends(t) && cut <= |whole| && (whole != [] || Head(t) == DOT) && 0 !in t
    requires DigitCount(s) <= |s| && s[DigitCount(s)..] == t
    requires var r := Reduce(m).0;
             r == Number(whole[..|whole| - cut]) && r <= MANTISSA_MAX && (cut > 0 ==> r >= KEPT)
    requires ParseFloat(negative, m, s).Number?
    ensures IsNumeral(n) && n.whole == whole && t == AfterWhole(n) + rest
    ensures rest == [] || ParseFloat(negative, m, s).v
                          == Real(if n.power.Minus? then Zero(negative) else Infinite(negative))
  {
    hide Number, ReadFraction, Reduce, DigitCount, WithExponent, ParseFloat, SignText;
    var u, kept, places := t, Reduce(m).0, 0;
    n := Numeral(Bare, whole, false, [], [], Bare, []);
    if Head(t) == DOT {
      var fraction;
      fraction, u := RunOf(t[1..]);
      assert t == [0x2E] + (fraction + u);
      n := n.(point := true, fraction := fraction);
      var dropped;
      places, dropped := FractionPart(n, u, kept, cut);
      kept := Number((whole + fraction)[..|whole + fraction| - dropped]);
    }
    FloatSteps(negative, m, s, t, u, kept, places);
    var mark, power, digits;
    mark, power, digits, rest := ExponentFound(negative, kept, Reduce(m).1 + DigitCount(s) - places, u);
    n := n.(mark := mark, power := power, digits := digits);
    if n.point {
      Associates([0x2E], n.fraction + AfterFraction(n), rest);
      Associates(n.fraction, AfterFraction(n), rest);
    }
  }

  /** Only numerals are read as numbers; but behind an exponent that is too large
      anything may stand, and the number is infinite or zero. */
  lemma OnlyNumerals(text: bytes) returns (n: Numeral, rest: bytes)
    requires 0 !in text && ParseNumber(text).Number?
    ensures IsNumeral(n) && text == NumeralText(n) + rest
    ensures rest == [] || ParseNumber(text).v
                          == Real(if n.power.Minus? then Zero(n.sign.Minus?) else Infinite(n.sign.Minus?))
  {
    hide Number, ReadMantissa, ParseFloat, Reduce, DigitCount, Overstepped, SignText, AfterWhole, NumeralText;
    hide ParseNumber;
    var sign, s := SignOf(text);
    var whole, t := RunOf(s);
    assert forall c <- t :: c in s && c in text;
    var m, u, cut := WholeRead(whole, t);
    Parts(text, sign, s, whole, t, m, u);
    if Head(u) == NUL && (sign != Minus || m <= INT_LIMIT) {
      n, rest := Numeral(sign, whole, false, [], [], Bare, []), [];
      IntegerOf(sign, whole);
    } else {
      n, rest := FloatFound(sign.Minus?, whole, t, m, u, cut);
      Signed(n, sign, t, rest);
      n := n.(sign := sign);
    }
  }

  lemma {:induction false} Parts(text: bytes, sign: Sign, s: bytes, whole: bytes, t: bytes, m: nat, u: bytes)
    requires ParseNumber(text).Number? && (sign.Minus? <==> Head(text) == MINUS)
    requires s == (if Head(text) == MINUS || Head(text) == PLUS then text[1..] else text) && s == whole + t
    requires ReadMantissa(s, 0) == (m, u) && AllDigits(whole) && Ends(t)
    ensures whole != [] || Head(t) == DOT
    ensures ParseNumber(text)
            == if Head(u) == NUL && !sign.Minus? then Parsed.Number(Int(m))
               else if Head(u) == NUL && m <= INT_LIMIT then Parsed.Number(Int(0 - m))
               else ParseFloat(sign.Minus?, m, u)
  {
    hide ReadMantissa, ParseFloat;
  }

  lemma IntegerOf(sign: Sign, whole: bytes)
    ensures NumeralText(Numeral(sign, whole, false, [], [], Bare, [])) == SignText(sign) + whole
  {
  }

  lemma Signed(n: Numeral, sign: Sign, t: bytes, rest: bytes)
    requires t == AfterWhole(n) + rest
    ensures NumeralText(n.(sign := sign)) + rest == SignText(sign) + (n.whole + t)
  {
    hide SignText;
    assert AfterWhole(n.(sign := sign)) == AfterWhole(n);
    hide AfterFraction;
    Associates(n.whole, AfterWhole(n), rest);
    Associates(SignText(sign), n.whole + AfterWhole(n), rest);
  }

  // Where the number told is not the number written.

  function Tens(k: nat): (p: nat)
    ensures p >= 1
  {
    if k == 0 then 1 else 10 * Tens(k - 1)
  }

  lemma {:induction false} NumberOfBoth(a: bytes, b: bytes)
    requires AllDigits(a) && AllDigits(b)
    ensures AllDigits(a + b) && Number(a + b) == Number(a) * Tens(|b|) + Number(b) && Number(b) < Tens(|b|)
  {
    hide Number;
    if b == [] {
      assert a + b == a;
      NoDigits();
    } else {
      var c, d := b[..|b| - 1], b[|b| - 1];
      NumberOfBoth(a, c);
      OneMore(c, d);
      OneMore(a + c, d);
      assert b == c + [d] && a + b == a + c + [d];
      Spread(Number(a), Tens(|c|), Number(c), d - 0x30);
    }
  }

  lemma Spread(a: nat, t: nat, c: nat, d: nat)
    ensures 10 * (a * t + c) + d == a * (10 * t) + (10 * c + d)
  {
    assert a * (10 * t) == 10 * (a * t);
  }

  /** The number with these digits lies between m and m + 1, each followed by so
      many zeros. */
  predicate Covers(m: nat, zeros: nat, digits: bytes)
    requires AllDigits(digits)
  {
    m * Tens(zeros) <= Number(digits) < (m + 1) * Tens(zeros)
  }

  /** The digits kept and the exponent cover the number, unless its digits
      overstep: then never. */
  lemma OnlyOversteppingMisreads(n: Numeral) returns (dropped: nat)
    requires IsNumeral(n) && !IsInteger(n)
    ensures var all := n.whole + n.fraction;
            && AllDigits(all) && dropped <= |all|
            && var late, kept := if Overstepped(n.whole) then 1 else 0, Number(all[..|all| - dropped]);
               && ParseNumber(NumeralText(n)) == Parsed.Number(Scaled(n, kept, dropped + late - |n.fraction|))
               && (Covers(kept, dropped + late, all) <==> !Overstepped(n.whole))
  {
    hide Number, ParseNumber, Scaled, NumeralText, Overstepped;
    dropped := NumberRead(n);
    var all := n.whole + n.fraction;
    var a, b := all[..|all| - dropped], all[|all| - dropped..];
    assert all == a + b;
    NumberOfBoth(a, b);
    if Overstepped(n.whole) { OversteppedIsLarge(n, a, b); }
    Between(Number(a), Tens(dropped), Number(b));
  }

  lemma Between(a: nat, t: nat, b: nat)
    requires b < t
    ensures a * t <= a * t + b < (a + 1) * t
    ensures a > 0 ==> a * t + b < a * (10 * t)
  {
    assert (a + 1) * t == a * t + t;
    if a > 0 {
      assert a * (10 * t) == 10 * (a * t);
      assert a * t >= t by { assert (a - 1) * t >= 0; assert a * t == (a - 1) * t + t; }
    }
  }

  lemma OversteppedIsLarge(n: Numeral, a: bytes, b: bytes)
    requires IsNumeral(n) && Overstepped(n.whole) && n.whole + n.fraction == a + b && AllDigits(a) && AllDigits(b)
    requires Number(a) <= MANTISSA_MAX && (b != [] ==> Number(a) >= KEPT)
    ensures Number(a) > 0
  {
    hide Number;
    var k :| 0 <= k <= |n.whole| && UINT_MAX < Number(n.whole[..k]) <= UINT_MAX + 4;
    if b == [] {
      var rest := n.whole[k..] + n.fraction;
      assert a + b == a && n.whole == n.whole[..k] + n.whole[k..];
      assert n.whole + n.fraction == n.whole[..k] + rest;
      Grows(n.whole[..k], rest);
    }
  }

  /** The smallest integers too large to be stored are read ten times too large. */
  lemma TenTimesTooLarge(i: nat)
    requires UINT_MAX < i <= UINT_MAX + 4
    ensures ParseNumber(Digits(i)) == Parsed.Number(Real(Decimal(false, 1844674407370955, 5)))
    ensures 9 * i < 1844674407370955 * 100000 <= 10 * i
  {
    hide ParseFloat, ReadMantissa;
    var d: byte := 0x30 + i % 10;
    assert i / 10 == TENTH;
    DigitsRead(TENTH, [d]);
    assert Digits(i) == Digits(TENTH) + [d];
    assert Digits(i)[0] == Digits(TENTH)[0] && Digits(TENTH)[0] in Digits(TENTH);
    MantissaStep(TENTH, d, []);
    assert [d] + [] == [d];
    OverflowRead(d);
  }

  lemma OverflowRead(d: byte)
    requires 0x30 <= d <= 0x39
    ensures ParseFloat(false, 10 * TENTH, [d]) == Parsed.Number(Real(Decimal(false, 1844674407370955, 5)))
  {
    assert Reduce(10 * TENTH) == (1844674407370955, 4);
    assert DigitCount([d][1..]) == 0;
    assert [d][1..] == [];
    hide Reduce;
  }

  /** A short numeral keeps all its digits. */
  lemma ShortRead(n: Numeral)
    requires IsNumeral(n) && n.mark != [] && n.fraction == [] && Number(n.whole) < KEPT
    ensures ParseNumber(NumeralText(n)) == Parsed.Number(Scaled(n, Number(n.whole), 0))
  {
    hide Number, ParseNumber, Scaled, NumeralText;
    var dropped := NumberRead(n);
    var all := n.whole + n.fraction;
    assert all == n.whole && all == all[..|all| - dropped] + all[|all| - dropped..];
    Grows(all[..|all| - dropped], all[|all| - dropped..]);
    assert all[..|all|] == all;
    if Overstepped(n.whole) {
      var k :| 0 <= k <= |n.whole| && UINT_MAX < Number(n.whole[..k]) <= UINT_MAX + 4;
      assert n.whole == n.whole[..k] + n.whole[k..];
      Grows(n.whole[..k], n.whole[k..]);
    }
  }

  lemma ThreeDigits(a: byte, b: byte, c: byte)
    requires AllDigits([a, b, c])
    ensures AllDigits([a]) && Number([a]) == a - 0x30
    ensures Number([a, b, c]) == 100 * ((a - 0x30) as int) + 10 * ((b - 0x30) as int) + (c - 0x30)
  {
    assert a == [a, b, c][0] && b == [a, b, c][1] && c == [a, b, c][2];
    assert [a, b, c][..2] == [a, b] && [a, b][..1] == [a] && [a][..0] == [];
  }

  /** A numeral of a few digits with an exponent of three. */
  lemma WithThree(n: Numeral, whole: nat, a: byte, b: byte, c: byte)
    requires IsNumeral(n) && n.mark != [] && n.fraction == [] && Number(n.whole) == whole < KEPT
    requires n.digits == [a, b, c]
    ensures var power := 100 * ((a - 0x30) as int) + 10 * ((b - 0x30) as int) + (c - 0x30);
            var negative := n.sign.Minus?;
            ParseNumber(NumeralText(n))
            == Parsed.Number(Real(if power <= 308 then
                                    Decimal(negative, whole, if n.power.Minus? then 0 - power else power)
                                  else if n.power.Minus? then Zero(negative) else Infinite(negative)))
  {
    hide Number, ParseNumber, NumeralText;
    ThreeDigits(a, b, c);
    ShortRead(n);
  }

  /** One number, written in two ways: in one of them it is read as zero. */
  lemma SmallIsZero(hundred: bytes, one: bytes)
    requires hundred == [0x31, 0x30, 0x30, 0x65, 0x2D, 0x33, 0x30, 0x39] && one == [0x31, 0x65, 0x2D, 0x33, 0x30, 0x37]
    ensures ParseNumber(hundred) == Parsed.Number(Real(Zero(false)))
    ensures ParseNumber(one) == Parsed.Number(Real(Decimal(false, 1, -307)))
  {
    hide ParseNumber, Number;
    ThreeDigits(0x31, 0x30, 0x30);
    var a := Numeral(Bare, [0x31, 0x30, 0x30], false, [], [0x65], Minus, [0x33, 0x30, 0x39]);
    var b := Numeral(Bare, [0x31], false, [], [0x65], Minus, [0x33, 0x30, 0x37]);
    assert NumeralText(a) == hundred && NumeralText(b) == one;
    hide NumeralText;
    WithThree(a, 100, 0x33, 0x30, 0x39);
    WithThree(b, 1, 0x33, 0x30, 0x37);
  }

  /** Zero, written with a large exponent, is read as infinite. */
  lemma ZeroIsInfinite(large: bytes, less: bytes)
    requires large == [0x30, 0x65, 0x33, 0x30, 0x39] && less == [0x30, 0x65, 0x33, 0x30, 0x38]
    ensures ParseNumber(large) == Parsed.Number(Real(Infinite(false)))
    ensures ParseNumber(less) == Parsed.Number(Real(Decimal(false, 0, 308)))
  {
    hide ParseNumber, Number;
    ThreeDigits(0x30, 0x30, 0x30);
    var a := Numeral(Bare, [0x30], false, [], [0x65], Bare, [0x33, 0x30, 0x39]);
    var b := a.(digits := [0x33, 0x30, 0x38]);
    assert NumeralText(a) == large && NumeralText(b) == less;
    hide NumeralText;
    WithThree(a, 0, 0x33, 0x30, 0x39);
    WithThree(b, 0, 0x33, 0x30, 0x38);
  }
}
