/** What the two numeric conversions mean: rescaling as arithmetic on one integer, the number a printed text denotes,
    and reading back what was printed. */
module NumericRoundTrip {
  import opened Numbers
  import opened Limbs
  import opened SqlNumerics
  import opened NumericRead
  import opened NumericPrint

  // ---------------------------------------------------------------------------------- rescaling in closed form

  /** Scaling up by k digits is multiplication by 10^k, modulo 2^144. */
  lemma {:induction false} ScaledUpIs(r: Reading, reqscale: int)
    requires 0 <= r.value < SPAN && r.scale <= reqscale
    ensures ScaledUp(r, reqscale)
         == r.(value := r.value * Pow10(reqscale - r.scale) % SPAN, scale := reqscale)
    decreases reqscale - r.scale
  {
    var k := reqscale - r.scale;
    if k == 0 {
      DivisionIsUnique(r.value * 1, 0, r.value, SPAN);
    } else {
      var next := r.(value := r.value * 10 % SPAN, scale := r.scale + 1);
      ScaledUpIs(next, reqscale);
      ReduceFactor(r.value * 10, Pow10(k - 1), SPAN);
      Associate(r.value, 10, Pow10(k - 1));
    }
  }

  /** How many fractional digits are dropped to come down to a scale. */
  function Dropped(scale: int, reqscale: int): nat {
    if scale <= 0 || reqscale >= scale then 0 else if reqscale > 0 then scale - reqscale else scale
  }

  lemma PrecisionStep(p: int, k: nat)
    ensures U8(U8(p - 1) - k) == U8(p - (k + 1))
  {
  }

  /** Dropping k fractional digits is exact division by 10^k. The flag becomes 2 exactly when the digits dropped are
      not all zero. */
  lemma {:induction false} FractionDroppedIs(r: Reading, reqscale: int)
    requires 0 <= r.value && 0 <= r.precision < 0x100
    ensures var k := Dropped(r.scale, reqscale);
            FractionDropped(r, reqscale)
            == Reading(r.value / Pow10(k), r.scale - k, U8(r.precision - k),
                       if r.value % Pow10(k) != 0 then 2 else r.overflow)
    decreases r.scale
  {
    var k := Dropped(r.scale, reqscale);
    if k == 0 {
      assert r.value / 1 == r.value && r.value % 1 == 0;
    } else {
      var next := Reading(r.value / 10, r.scale - 1, U8(r.precision - 1),
                          if r.value % 10 != 0 then 2 else r.overflow);
      assert Dropped(next.scale, reqscale) == k - 1;
      FractionDroppedIs(next, reqscale);
      DivideFirst(r.value, k - 1);
      PrecisionStep(r.precision, k - 1);
    }
  }

  /** Dropping whole digits for a negative scale succeeds exactly when they are all zero. */
  lemma {:induction false} WholeDroppedIs(r: Reading, reqscale: int)
    requires 0 <= r.value && 0 <= r.precision < 0x100 && reqscale <= r.scale
    ensures var k := r.scale - reqscale;
            && WholeDropped(r, reqscale).1 == (r.value % Pow10(k) != 0)
            && (r.value % Pow10(k) == 0 ==>
                  WholeDropped(r, reqscale).0
                  == Reading(r.value / Pow10(k), reqscale, U8(r.precision - k), r.overflow))
    decreases r.scale - reqscale
  {
    var k := r.scale - reqscale;
    if k == 0 {
      assert r.value / 1 == r.value && r.value % 1 == 0;
    } else {
      DivideFirst(r.value, k - 1);
      if r.value % 10 == 0 {
        WholeDroppedIs(Reading(r.value / 10, r.scale - 1, U8(r.precision - 1), r.overflow), reqscale);
        PrecisionStep(r.precision, k - 1);
      }
    }
  }

  function TrailingZeros(v: nat): nat
    requires v > 0
  {
    if v % 10 != 0 then 0 else 1 + TrailingZeros(v / 10)
  }

  /** The precision a number needs: its digits without the zeros at the end. */
  lemma {:induction false} LeastPrecisionIs(v: nat, p: int)
    requires v > 0 && DigitCount(v) <= p < 0x100
    ensures LeastPrecision(v, p) == p - TrailingZeros(v)
    ensures TrailingZeros(v) < DigitCount(v)
  {
    if v % 10 == 0 {
      LeastPrecisionIs(v / 10, p - 1);
    }
  }

  lemma {:induction false} LeastPrecisionOfZero(p: int)
    requires 0 <= p < 0x100
    ensures LeastPrecision(0, p) == 0
    decreases if p == 0 then 0x100 else p
  {
    var q := U8(p - 1);
    if q > 0 {
      LeastPrecisionOfZero(q);
    }
  }

  // ---------------------------------------------------------------------------------- the printed number

  lemma {:induction false} ZerosSpell(n: nat)
    ensures AllDigits(Zeros(n)) && NatOf(Zeros(n)) == 0
  {
    if n > 0 {
      ZerosSpell(n - 1);
      assert Zeros(n)[..n - 1] == Zeros(n - 1);
    }
  }

  lemma DecimalDigitsSpell(v: nat)
    ensures NatOf(DecimalDigits(v)) == v
  {
    LastDigitsSpell(v, DigitCount(v));
    DigitCountBounds(v);
    DivisionIsUnique(v, 0, v, Pow10(DigitCount(v)));
  }

  /** A text with leading zeros spells the same integer. */
  lemma LeadingZeros(n: nat, d: string)
    requires AllDigits(d)
    ensures AllDigits(Zeros(n) + d) && NatOf(Zeros(n) + d) == NatOf(d)
  {
    ZerosSpell(n);
    NatOfConcat(Zeros(n), d);
  }

  /** Zero printed at scale one is the one text that keeps no point. */
  predicate PointKept(v: nat, scale: int) {
    scale > 0 && !(v == 0 && scale == 1)
  }

  /** Digits enough for the fraction: the point goes between them. */
  lemma PointInside(d: string, scale: nat)
    requires AllDigits(d) && 1 <= scale <= |d|
    ensures var t := d[..|d| - scale] + "." + d[|d| - scale..];
            Numeral(t) && FractionLength(t) == scale && Digits(t) == d && |t| == |d| + 1
  {
    CutDigits(d, |d| - scale);
    WithPoint(d[..|d| - scale] + "." + d[|d| - scale..], d[..|d| - scale], d[|d| - scale..]);
  }

  /** Too few digits for the fraction: zeros go in front. */
  lemma PointPadded(d: string, zeros: nat)
    requires AllDigits(d)
    ensures var t := "0." + Zeros(zeros) + d;
            && Numeral(t) && FractionLength(t) == zeros + |d| && AllDigits(Digits(t))
            && NatOf(Digits(t)) == NatOf(d) && |Digits(t)| == zeros + |d| + 1 == |t| - 1
  {
    var z := Zeros(zeros);
    LeadingZeros(zeros, d);
    LeadingZeros(1, z + d);
    assert Zeros(1) == "0";
    hide Zeros, NatOf;
    assert "0." + z + d == "0" + "." + (z + d);
    WithPoint("0." + z + d, "0", z + d);
  }

  /** A text with a positive scale has exactly that many digits behind its point and spells v without it. */
  lemma TextWithPoint(v: nat, scale: int)
    requires PointKept(v, scale)
    ensures var t := PlainText(v, scale);
            && Numeral(t) && FractionLength(t) == scale && AllDigits(Digits(t)) && NatOf(Digits(t)) == v
            && |t| == 1 + |Digits(t)|
            && |Digits(t)| == if scale <= DigitCount(v) then DigitCount(v) else scale + 1
  {
    var d := DecimalDigits(v);
    DecimalDigitsSpell(v);
    hide LastDigits, NatOf, Zeros, Numeral, Digits, FractionLength, DigitCount;
    if scale <= |d| {
      PointInside(d, scale);
    } else {
      PointPadded(d, scale - |d|);
    }
  }

  lemma TextWithoutPoint(v: nat, scale: int)
    requires !PointKept(v, scale)
    ensures var t := PlainText(v, scale);
            && AllDigits(t) && NatOf(t) == v * Pow10(if scale < 0 then -scale else 0)
            && |t| == DigitCount(v) + (if scale < 0 then -scale else 0)
  {
    var d := DecimalDigits(v);
    DecimalDigitsSpell(v);
    hide NatOf, LastDigits, Zeros;
    if scale <= 0 {
      ZerosSpell(-scale);
      NatOfConcat(d, Zeros(-scale));
    } else {
      assert v * Pow10(0) == v;
    }
  }

  /** The text of a number is a numeral that denotes the magnitude divided by ten to the scale: without its point it
      spells an integer, and that integer and the number of digits behind the point are in the right proportion. */
  lemma PrintedNumberDenotes(v: nat, scale: int)
    ensures var t := PlainText(v, scale);
            && Numeral(t) && AllDigits(Digits(t))
            && (scale >= 0 ==> NatOf(Digits(t)) * Pow10(scale) == v * Pow10(FractionLength(t)))
            && (scale < 0 ==> FractionLength(t) == 0 && NatOf(Digits(t)) == v * Pow10(-scale))
  {
    var t := PlainText(v, scale);
    if PointKept(v, scale) {
      TextWithPoint(v, scale);
      NumeralDigits(t);
    } else {
      TextWithoutPoint(v, scale);
      NoPoint(t);
      if scale == 0 {
        assert v * Pow10(0) * Pow10(0) == v * Pow10(0);
      }
    }
  }

  // ---------------------------------------------------------------------------------- printing with too little precision

  lemma PrefixValue(d: string, k: nat)
    requires AllDigits(d) && k <= |d|
    ensures NatOf(d[..|d| - k]) == NatOf(d) / Pow10(k)
  {
    var a, b := d[..|d| - k], d[|d| - k..];
    assert d == a + b;
    NatOfConcat(a, b);
    NatOfBound(b);
    DivisionIsUnique(NatOf(d), NatOf(a), NatOf(b), Pow10(k));
  }

  lemma CutLast(a: string, f: string, k: nat)
    requires k <= |f|
    ensures var t, b := a + "." + f, f[..|f| - k];
            && t[..|t| - k] == a + "." + b && (a + f)[..|a + f| - k] == a + b
            && (b == "" ==> (a + "." + b)[..|a|] == a && a + b == a)
  {
  }

  /** Cutting characters behind the point cuts digits; the point goes when none are left behind it. */
  lemma CutBehind(t: string, k: nat)
    requires Numeral(t) && IndexOf(t, '.') < |t| && k <= FractionLength(t)
    ensures var c := CutText(t, k);
            && Numeral(c) && FractionLength(c) == FractionLength(t) - k && k <= |Digits(t)|
            && Digits(c) == Digits(t)[..|Digits(t)| - k]
  {
    hide *;
    var a, f := PointParts(t);
    CutLast(a, f, k);
    CutDigits(f, |f| - k);
    CutParts(a, f[..|f| - k]);
    CutTextIs(t, k);
  }

  /** What stands on both sides of the point. */
  lemma PointParts(t: string) returns (a: string, f: string)
    requires Numeral(t) && IndexOf(t, '.') < |t|
    ensures AllDigits(a) && AllDigits(f) && t == a + "." + f && |f| == FractionLength(t) && Digits(t) == a + f
  {
    var p := IndexOf(t, '.');
    a, f := t[..p], t[p + 1..];
    hide IndexOf, AllDigits;
    assert t == a + "." + f;
  }

  lemma CutTextIs(t: string, k: nat)
    requires k < |t|
    ensures CutText(t, k) == (var c := t[..|t| - k]; if c[|c| - 1] == '.' then c[..|c| - 1] else c)
  {
  }

  lemma CutParts(a: string, b: string)
    requires AllDigits(a) && AllDigits(b)
    ensures var c := a + "." + b;
            var rest := if c[|c| - 1] == '.' then c[..|c| - 1] else c;
            Numeral(rest) && FractionLength(rest) == |b| && Digits(rest) == a + b
  {
    var c := a + "." + b;
    if b == "" {
      assert c[..|c| - 1] == a && a + b == a;
      NoPoint(a);
    } else {
      assert c[|c| - 1] == b[|b| - 1];
      WithPoint(c, a, b);
    }
    hide Numeral, Digits, FractionLength;
  }

  /** The text that is printed when the precision does not cover all digits: the number loses its last digits, as many
      as are too many, but only digits of its fraction; when more would have to go it is refused. */
  lemma CutToPrecision(v: nat, reqprec: nat, scale: int)
    ensures var (trunc, t) := PrintedUnsigned(v, reqprec, scale);
            var excess := DigitCount(v) - reqprec;
            && (trunc == NoTruncation <==> excess <= 0 || scale <= 0)
            && (trunc == NoTruncation ==> t == PlainText(v, scale))
            && (trunc == WholeTruncated <==> scale > 0 && excess > 0 && (excess > scale || excess > DigitCount(v)))
            && (trunc == FractionTruncated ==>
                  && Numeral(t) && FractionLength(t) == scale - excess
                  && AllDigits(Digits(t)) && NatOf(Digits(t)) == v / Pow10(excess))
  {
    var t, excess := PlainText(v, scale), DigitCount(v) - reqprec;
    DigitsEnough(v, scale);
    hide CutText, Numeral, Digits, FractionLength, NatOf, DigitCount, PlainText;
    if 0 < excess <= scale && excess <= DigitCount(v) {
      CutSome(v, scale, excess);
    }
  }

  /** The text has as many characters as digits that can be cut. */
  lemma DigitsEnough(v: nat, scale: int)
    ensures scale > 0 ==> |PlainText(v, scale)| >= FractionDigits(DigitCount(v), scale)
  {
    hide DigitCount, LastDigits;
  }

  lemma CutSome(v: nat, scale: nat, excess: nat)
    requires 0 < excess <= scale && excess <= DigitCount(v) && excess <= |PlainText(v, scale)|
    ensures var t := CutText(PlainText(v, scale), excess);
            Numeral(t) && FractionLength(t) == scale - excess
            && AllDigits(Digits(t)) && NatOf(Digits(t)) == v / Pow10(excess)
  {
    hide *;
    if PointKept(v, scale) {
      CutKept(v, scale, excess);
    } else {
      OnlyZero(v, scale);
      CutZero(v, scale, excess);
    }
  }

  lemma OnlyZero(v: nat, scale: int)
    requires !PointKept(v, scale) && scale > 0
    ensures v == 0 && scale == 1 && DigitCount(v) == 1
  {
  }

  lemma CutKept(v: nat, scale: nat, excess: nat)
    requires PointKept(v, scale) && 0 < excess <= scale && excess <= |PlainText(v, scale)|
    ensures var t := CutText(PlainText(v, scale), excess);
            Numeral(t) && FractionLength(t) == scale - excess
            && AllDigits(Digits(t)) && NatOf(Digits(t)) == v / Pow10(excess)
  {
    var t := PlainText(v, scale);
    hide PlainText, CutText, Numeral, Digits, FractionLength, NatOf, DigitCount;
    TextWithPoint(v, scale);
    PointIsThere(t);
    CutBehind(t, excess);
    PrefixValue(Digits(t), excess);
    NumeralDigits(CutText(t, excess));
  }

  lemma CutZero(v: nat, scale: nat, excess: nat)
    requires !PointKept(v, scale) && excess == scale == 1
    requires excess <= |PlainText(v, scale)|
    ensures var t := CutText(PlainText(v, scale), excess);
            Numeral(t) && FractionLength(t) == scale - excess
            && AllDigits(Digits(t)) && NatOf(Digits(t)) == v / Pow10(excess)
  {
    assert |PlainText(v, scale)| == 1 by {
      assert DigitCount(0) == 1;
    }
    hide PlainText;
    assert CutText(PlainText(v, scale), excess) == "";
    NoPoint("");
  }

  lemma PointIsThere(t: string)
    requires Numeral(t) && FractionLength(t) > 0
    ensures IndexOf(t, '.') < |t|
  {
  }

  // ---------------------------------------------------------------------------------- reading it back

  lemma SpelledWhole(num: string)
    requires Numeral(num)
    ensures AllDigits(Digits(num)) && Spelled(num, |num|) == NatOf(Digits(num))
  {
    NumeralDigits(num);
    assert num[..|num|] == num;
  }

  /** A numeral below 2^128 goes through the loop over digits without a flag. */
  lemma GatheredSmall(num: string, v: nat, scale: nat, digits: nat)
    requires Numeral(num) && AllDigits(Digits(num)) && NatOf(Digits(num)) == v < MAGNITUDE_LIMIT
    requires FractionLength(num) == scale < 0x80 && |Digits(num)| == digits < 0xFF
    ensures OverflowAt(num, 0) > |num| && Gathered(num) == Reading(v, scale, digits, 0)
  {
    SpelledWhole(num);
    SpelledNothing(num);
    OverflowIffLarge(num, 0);
    NumeralDigits(num);
  }

  /** A number that already has the requested scale is not rescaled. */
  lemma FinishedAtScale(v: nat, scale: int, digits: int, reqprec: int)
    requires 0 <= scale && 0 <= digits < 0x100
    ensures Finished(Reading(v, scale, digits, 0), reqprec, scale)
         == (Reading(v, scale, digits, if LeastPrecision(v, digits) > reqprec then 1 else 0), false)
  {
  }

  lemma FinishedZero(digits: int, reqprec: int)
    requires 0 <= digits < 0x100 && reqprec >= 0
    ensures Finished(Reading(0, 0, digits, 0), reqprec, 1) == (Reading(0, 1, digits, 0), false)
  {
    LeastPrecisionOfZero(digits);
    hide ScaledUp, LeastPrecision;
    ScaledUpIs(Reading(0, 0, digits, 0), 1);
    DivisionIsUnique(0 * Pow10(1), 0, 0, SPAN);
  }

  /** Reading back needs no more precision than was asked for in printing. The zeros that pad a number which is less
      than its scale long count as digits, zeros at the end do not. */
  predicate PrecisionSuffices(v: nat, reqprec: int, scale: int) {
    v == 0 || scale <= DigitCount(v) || scale + 1 - TrailingZeros(v) <= reqprec
  }

  /** The text reads as magnitude v at the given scale, with the flag as the precision tells. */
  ghost predicate ComesBack(t: string, v: nat, reqprec: int, scale: int) {
    && Numeral(t)
    && !Converted(t, reqprec, scale).1
    && Converted(t, reqprec, scale).0.value == v
    && Converted(t, reqprec, scale).0.scale == scale
    && Converted(t, reqprec, scale).0.overflow == (if PrecisionSuffices(v, reqprec, scale) then 0 else 1)
  }

  lemma ReadBackDigits(t: string, v: nat, scale: int, reqprec: int)
    requires v < MAGNITUDE_LIMIT && 0 <= scale < 0x80 && DigitCount(v) <= reqprec < 0x100 && DigitCount(v) <= 39
    requires Numeral(t) && AllDigits(Digits(t)) && NatOf(Digits(t)) == v && FractionLength(t) == scale
    requires |Digits(t)| == if scale <= DigitCount(v) then DigitCount(v) else scale + 1
    ensures ComesBack(t, v, reqprec, scale)
  {
    var digits := |Digits(t)|;
    GatheredSmall(t, v, scale, digits);
    FinishedAtScale(v, scale, digits, reqprec);
    if v == 0 {
      LeastPrecisionOfZero(digits);
    } else {
      LeastPrecisionIs(v, digits);
    }
  }

  lemma ReadBackZero(t: string, reqprec: int)
    requires t == "0" && 1 <= reqprec
    ensures ComesBack(t, 0, reqprec, 1)
  {
    NoPoint(t);
    assert NatOf(t) == 0 by {
      assert t[..0] == "";
    }
    GatheredSmall(t, 0, 0, 1);
    FinishedZero(1, reqprec);
  }

  /** Printing and reading back at the same scale gives the same magnitude; the flag stays down exactly when the
      padding fits the precision. */
  lemma ReadBack(v: nat, reqprec: int, scale: int)
    requires v < MAGNITUDE_LIMIT && 0 <= scale < 0x80 && DigitCount(v) <= reqprec < 0x100
    ensures ComesBack(PlainText(v, scale), v, reqprec, scale)
  {
    var t := PlainText(v, scale);
    Exhausted(v);
    if PointKept(v, scale) {
      hide PlainText, ComesBack, Numeral, Digits, FractionLength, DigitCount, NatOf;
      TextWithPoint(v, scale);
      ReadBackDigits(t, v, scale, reqprec);
    } else if scale == 0 {
      hide PlainText, ComesBack, DigitCount, NatOf;
      TextWithoutPoint(v, scale);
      NoPoint(t);
      assert v * Pow10(0) == v;
      ReadBackDigits(t, v, scale, reqprec);
    } else {
      assert t == "0" by {
        assert LastDigits(0, 1) == LastDigits(0, 0) + ['0'];
      }
      hide ComesBack;
      ReadBackZero(t, reqprec);
    }
  }

  /** For example, 0.00123 has three significant digits, but reading it back with precision three is refused. */
  lemma PaddingRefused()
    ensures DigitCount(123) == 3 && PlainText(123, 5) == "0.00123"
    ensures Numeral("0.00123") && Converted("0.00123", 3, 5).0.overflow == 1
    ensures Converted("0.00123", 6, 5).0.overflow == 0
  {
    hide *;
    TextOfExample();
    ReadBack(123, 3, 5);
    ReadBack(123, 6, 5);
    ExampleIsPadded("0.00123");
  }

  lemma TextOfExample()
    ensures DigitCount(123) == 3 && PlainText(123, 5) == "0.00123" && 123 < MAGNITUDE_LIMIT
  {
    assert LastDigits(123, 3) == LastDigits(12, 2) + ['3'];
    assert LastDigits(12, 2) == LastDigits(1, 1) + ['2'];
    assert LastDigits(1, 1) == LastDigits(0, 0) + ['1'];
  }

  lemma ExampleIsPadded(t: string)
    ensures ComesBack(t, 123, 3, 5) ==> Numeral(t) && Converted(t, 3, 5).0.overflow == 1
    ensures ComesBack(t, 123, 6, 5) ==> Numeral(t) && Converted(t, 6, 5).0.overflow == 0
  {
    assert DigitCount(123) == 3 && TrailingZeros(123) == 0;
    hide Converted, Numeral;
  }

  // ---------------------------------------------------------------------------------- where the flag misleads

  lemma ReduceTwice(x: int)
    ensures x % SPAN % MAGNITUDE_LIMIT == x % MAGNITUDE_LIMIT
  {
    var q, r := x / SPAN, x % SPAN;
    assert x == SPAN * q + r;
    assert SPAN == 0x1_0000 * MAGNITUDE_LIMIT;
    AddMultiple(r, 0x1_0000 * q, MAGNITUDE_LIMIT);
  }

  /** Scaling up never raises the flag by itself: it tells only about the precision of what is left. The magnitude
      stored is the number at the requested scale exactly when that number fits in 128 bits; beyond that its upper part
      is lost. */
  lemma ScaleUpExactIff(num: string, reqprec: int, reqscale: int)
    requires Numeral(num) && AllDigits(Digits(num)) && NatOf(Digits(num)) < MAGNITUDE_LIMIT
    requires FractionLength(num) < reqscale < 0x80 && |Digits(num)| < 0xFF
    ensures var exact := NatOf(Digits(num)) * Pow10(reqscale - FractionLength(num));
            ScaledExactly(Converted(num, reqprec, reqscale), exact, |Digits(num)|, reqprec)
  {
    hide *;
    var v, f := NatOf(Digits(num)), FractionLength(num);
    GatheredSmall(num, v, f, |Digits(num)|);
    NotStopped(num, reqprec, reqscale);
    FinishedByScaling(v, f, |Digits(num)|, reqprec, reqscale);
  }

  /** What is stored of an exact number, and the flag that goes with it. */
  ghost predicate ScaledExactly(c: (Reading, bool), exact: int, digits: nat, reqprec: int)
    requires digits < 0x100
  {
    && !c.1 && c.0.value % MAGNITUDE_LIMIT == exact % MAGNITUDE_LIMIT
    && (c.0.value % MAGNITUDE_LIMIT == exact <==> exact < MAGNITUDE_LIMIT)
    && c.0.overflow == if LeastPrecision(exact % SPAN, digits) > reqprec then 1 else 0
  }

  /** The conversion of a number to a larger scale. */
  lemma FinishedByScaling(v: nat, scale: nat, digits: nat, reqprec: int, reqscale: int)
    requires v < MAGNITUDE_LIMIT && scale < reqscale && digits < 0x100
    ensures ScaledExactly(Finished(Reading(v, scale, digits, 0), reqprec, reqscale), v * Pow10(reqscale - scale),
                          digits, reqprec)
  {
    hide LeastPrecision, ScaledUp, Pow10;
    ScaledUpIs(Reading(v, scale, digits, 0), reqscale);
    Reduced(v * Pow10(reqscale - scale));
    Monotone(Pow10(reqscale - scale), 0, v);
  }

  /** What is left of v behind its last k digits, of which the last w are dropped only if they are zeros: the conversion
      stops if and only if they are not. Otherwise the flag tells about the precision of what is left, or else about the
      digits that are lost, or else it is what it was. */
  ghost predicate CutRightly(c: (Reading, bool), v: nat, k: nat, w: nat, digits: nat, reqprec: int, flag: int)
    requires w <= k
  {
    && (c.1 <==> DropDigits(v, k - w) % Pow10(w) != 0)
    && (c.1 ==> c.0.overflow == 1)
    && (!c.1 ==>
          && c.0.value == v / Pow10(k)
          && c.0.overflow == (if LeastPrecision(v / Pow10(k), U8(digits - k)) > reqprec then 1
                              else if v % Pow10(k) != 0 then 2 else flag))
  }

  /** Reading a number below 2^128 at its own scale or a smaller one: fractional digits are cut, whole digits only if
      they are zeros. */
  lemma ScaleDownIs(num: string, reqprec: int, reqscale: int)
    requires Numeral(num) && AllDigits(Digits(num)) && NatOf(Digits(num)) < MAGNITUDE_LIMIT
    requires reqscale <= FractionLength(num) < 0x80 && |Digits(num)| < 0xFF
    ensures CutRightly(Converted(num, reqprec, reqscale), NatOf(Digits(num)), FractionLength(num) - reqscale,
                       if reqscale < 0 then -reqscale else 0, |Digits(num)|, reqprec, 0)
  {
    hide *;
    var v, f := NatOf(Digits(num)), FractionLength(num);
    GatheredSmall(num, v, f, |Digits(num)|);
    NotStopped(num, reqprec, reqscale);
    FinishedByCutting(v, f, |Digits(num)|, reqprec, reqscale, 0);
  }

  /** The conversion of a number to its own scale or a smaller one. */
  lemma FinishedByCutting(v: nat, scale: nat, digits: nat, reqprec: int, reqscale: int, flag: int)
    requires reqscale <= scale && digits < 0x100
    ensures CutRightly(Finished(Reading(v, scale, digits, flag), reqprec, reqscale), v, scale - reqscale,
                       if reqscale < 0 then -reqscale else 0, digits, reqprec, flag)
  {
    hide *;
    if reqscale < 0 {
      FinishedBelowZero(v, scale, digits, reqprec, reqscale, flag);
    } else {
      FinishedAboveZero(v, scale, digits, reqprec, reqscale, flag);
    }
  }

  lemma FinishedAboveZero(v: nat, scale: nat, digits: nat, reqprec: int, reqscale: int, flag: int)
    requires 0 <= reqscale <= scale && digits < 0x100
    ensures CutRightly(Finished(Reading(v, scale, digits, flag), reqprec, reqscale), v, scale - reqscale, 0, digits,
                       reqprec, flag)
  {
    hide LeastPrecision, FractionDropped;
    FractionDroppedIs(Reading(v, scale, digits, flag), reqscale);
    assert DropDigits(v, scale - reqscale) % Pow10(0) == 0;
  }

  lemma FinishedBelowZero(v: nat, scale: nat, digits: nat, reqprec: int, reqscale: int, flag: int)
    requires reqscale < 0 && digits < 0x100
    ensures CutRightly(Finished(Reading(v, scale, digits, flag), reqprec, reqscale), v, scale - reqscale, -reqscale,
                       digits, reqprec, flag)
  {
    hide LeastPrecision, FractionDropped, WholeDropped, Pow10;
    FractionDroppedIs(Reading(v, scale, digits, flag), reqscale);
    var q, w := DropDigits(v, scale), -reqscale;
    var u := Reading(q, 0, U8(digits - scale), if v % Pow10(scale) != 0 then 2 else flag);
    assert FractionDropped(Reading(v, scale, digits, flag), reqscale) == u;
    WholeDroppedIs(u, reqscale);
    WholeDroppedFlag(u, reqscale);
    DivideByPowers(v, scale, w);
    DivisibleTwice(v, scale, w);
    PrecisionSum(digits, scale, w);
    hide U8;
  }

  lemma PrecisionSum(p: int, a: int, b: int)
    ensures U8(U8(p - a) - b) == U8(p - (a + b))
    ensures 0 <= U8(p - a) < 0x100
  {
  }

  lemma {:induction false} WholeDroppedFlag(r: Reading, reqscale: int)
    ensures WholeDropped(r, reqscale).1 ==> WholeDropped(r, reqscale).0.overflow == 1
    decreases r.scale - reqscale
  {
    if reqscale < r.scale && r.value % 10 == 0 {
      WholeDroppedFlag(Reading(r.value / 10, r.scale - 1, U8(r.precision - 1), r.overflow), reqscale);
    }
  }

  lemma Reduced(exact: int)
    ensures exact % SPAN % MAGNITUDE_LIMIT == exact % MAGNITUDE_LIMIT
    ensures exact >= 0 ==> (exact % MAGNITUDE_LIMIT == exact <==> exact < MAGNITUDE_LIMIT)
  {
    ReduceTwice(exact);
    if 0 <= exact < MAGNITUDE_LIMIT {
      DivisionIsUnique(exact, 0, exact, MAGNITUDE_LIMIT);
    }
  }

  /** For example, reading 1 at scale 39 reports no overflow, but the magnitude stored is not 10^39. */
  lemma ScaleUpLosesSilently()
    ensures Numeral("1") && !Converted("1", 40, 39).1 && Converted("1", 40, 39).0.overflow == 0
    ensures Converted("1", 40, 39).0.value % MAGNITUDE_LIMIT != Pow10(39)
  {
    NoPoint("1");
    assert NatOf("1") == 1 by {
      assert "1"[..0] == "";
    }
    assert Digits("1") == "1" && FractionLength("1") == 0;
    ScaleUpExactIff("1", 40, 39);
    GatheredSmall("1", 1, 0, 1);
    ScaledUpIs(Reading(1, 0, 1, 0), 39);
    hide ScaledUp, Gathered, OverflowAt;
    Exhausted(0);
    assert Pow10(39) == 10 * Pow10(38);
    ReduceFactor(Pow10(38), 10, SPAN);
    LargePower();
  }

  lemma LargePower()
    ensures MAGNITUDE_LIMIT <= Pow10(39) < SPAN
    ensures Pow10(39) % SPAN % 10 == 0
  {
    PowerOfSum(20, 19);
    PowerOfSum(10, 10);
    PowerOfSum(10, 9);
    assert Pow10(10) == 10_000_000_000;
    assert Pow10(9) == 1_000_000_000;
    assert Pow10(39) == 1_000_000_000_000_000_000_000_000_000_000_000_000_000;
  }

  /** When only the last group reaches 2^128, the conversion goes on with the flag up. Scaling up leaves it up. At the
      own scale or a smaller one it stays an overflow only if the digits that are dropped are zeros or the precision
      does not suffice: dropping a fractional digit other than zero turns it into mere truncation. */
  lemma LastGroupFlag(num: string, reqprec: int, reqscale: int)
    requires Numeral(num) && OverflowAt(num, 0) == |num| && AllDigits(Digits(num))
    requires FractionLength(num) < 0x80 && |Digits(num)| < 0xFF
    ensures NatOf(Digits(num)) >= MAGNITUDE_LIMIT
    ensures reqscale > FractionLength(num) ==>
              !Converted(num, reqprec, reqscale).1 && Converted(num, reqprec, reqscale).0.overflow == 1
    ensures reqscale <= FractionLength(num) ==>
              CutRightly(Converted(num, reqprec, reqscale), NatOf(Digits(num)), FractionLength(num) - reqscale,
                         if reqscale < 0 then -reqscale else 0, |Digits(num)|, reqprec, 1)
  {
    hide *;
    GatheredLast(num);
    NotStopped(num, reqprec, reqscale);
    var v, f := NatOf(Digits(num)), FractionLength(num);
    if reqscale > f {
      FinishedFlagged(Reading(v, f, |Digits(num)|, 1), reqprec, reqscale);
    } else {
      FinishedByCutting(v, f, |Digits(num)|, reqprec, reqscale, 1);
    }
  }

  lemma {:induction false} ScaledUpFlag(r: Reading, reqscale: int)
    ensures ScaledUp(r, reqscale).overflow == r.overflow
    decreases reqscale - r.scale
  {
    if reqscale > r.scale {
      ScaledUpFlag(r.(value := r.value * 10 % SPAN, scale := r.scale + 1), reqscale);
    }
  }

  /** The conversion of a flagged number to a larger scale. */
  lemma FinishedFlagged(r: Reading, reqprec: int, reqscale: int)
    requires r.scale < reqscale && 0 < reqscale && r.overflow == 1
    ensures !Finished(r, reqprec, reqscale).1 && Finished(r, reqprec, reqscale).0.overflow == 1
  {
    ScaledUpFlag(r, reqscale);
    hide ScaledUp, LeastPrecision;
  }

  lemma NotStopped(num: string, reqprec: int, reqscale: int)
    requires Numeral(num) && OverflowAt(num, 0) >= |num|
    ensures Converted(num, reqprec, reqscale) == Finished(Gathered(num), reqprec, reqscale)
  {
  }

  lemma GatheredLast(num: string)
    requires Numeral(num) && OverflowAt(num, 0) == |num| && AllDigits(Digits(num))
    requires FractionLength(num) < 0x80 && |Digits(num)| < 0xFF
    ensures NatOf(Digits(num)) >= MAGNITUDE_LIMIT
    ensures Gathered(num) == Reading(NatOf(Digits(num)), FractionLength(num), |Digits(num)|, 1)
  {
    SpelledWhole(num);
    SpelledNothing(num);
    OverflowIffLarge(num, 0);
  }

  /** A whole part below 2^128 with one to four fractional digits: only the last group can overflow. */
  lemma {:induction false} OnlyLastGroup(a: string, b: string, i: nat)
    requires AllDigits(a) && AllDigits(b) && 1 <= |b| <= 4 && i <= |a| + 1
    requires NatOf(a) < MAGNITUDE_LIMIT
    ensures var num := a + "." + b;
            Numeral(num) && (NatOf(a + b) >= MAGNITUDE_LIMIT ==> OverflowAt(num, i) == |num|)
    decreases |a| + 1 - i
  {
    var num := a + "." + b;
    WithPoint(num, a, b);
    SpelledWhole(num);
    if i <= |a| {
      var e := GroupEnd(num, i);
      assert e <= |a| + 1;
      WholePartBounds(a, b, e);
      OnlyLastGroup(a, b, e);
    }
  }

  lemma WholePartBounds(a: string, b: string, e: nat)
    requires AllDigits(a) && AllDigits(b) && e <= |a| + 1 && Numeral(a + "." + b)
    ensures Spelled(a + "." + b, e) <= NatOf(a)
  {
    var num := a + "." + b;
    var whole := a + ".";
    WithPoint(num, a, b);
    assert whole == a + "." + "";
    WithPoint(whole, a, "");
    assert a + "" == a;
    SpelledWhole(whole);
    SpelledGrows(whole, e);
    assert num[..e] == whole[..e];
  }

  /** Any whole part below 2^128 followed by .1111 and read at scale 3: if the number with three fractional digits
      reaches 2^128, its upper part is lost and yet the flag says that only a fraction was cut. */
  lemma OverflowReportedAsTruncation(a: string, num: string, reqprec: int)
    requires AllDigits(a) && |a| < 0x80 && NatOf(a) < MAGNITUDE_LIMIT <= NatOf(a) * 1000 + 111
    requires |a| + 4 <= reqprec && num == a + "." + "1111"
    ensures Numeral(num) && !Converted(num, reqprec, 3).1
    ensures Converted(num, reqprec, 3).0.overflow == 2
    ensures Converted(num, reqprec, 3).0.value == NatOf(a) * 1000 + 111 >= MAGNITUDE_LIMIT
  {
    hide *;
    OnesBehind(a);
    Ones();
    LastGroupAlone(a, "1111", num);
    LastGroupFlag(num, reqprec, 3);
    WholeKept(Converted(num, reqprec, 3), NatOf(a + "1111"), NatOf(a) * 1000 + 111, |a| + 4, reqprec);
  }

  lemma LastGroupAlone(a: string, b: string, num: string)
    requires AllDigits(a) && AllDigits(b) && 1 <= |b| <= 4 && num == a + "." + b
    requires AllDigits(a + b) && NatOf(a) < MAGNITUDE_LIMIT <= NatOf(a + b)
    ensures Numeral(num) && Digits(num) == a + b && FractionLength(num) == |b| && OverflowAt(num, 0) == |num|
  {
    hide *;
    WithPoint(num, a, b);
    OnlyLastGroup(a, b, 0);
  }

  lemma WholeKept(c: (Reading, bool), v: nat, w: nat, digits: nat, reqprec: int)
    requires CutRightly(c, v, 1, 0, digits, reqprec, 1) && v / Pow10(1) == w && v % Pow10(1) == 1
    requires 1 < digits < 0x100 && digits - 1 <= reqprec
    ensures !c.1 && c.0.overflow == 2 && c.0.value == w
  {
    LeastPrecisionAtMost(w, digits - 1);
  }

  lemma OnesBehind(a: string)
    requires AllDigits(a)
    ensures AllDigits(a + "1111") && NatOf(a + "1111") == 10 * (NatOf(a) * 1000 + 111) + 1
    ensures NatOf(a + "1111") / Pow10(1) == NatOf(a) * 1000 + 111 && NatOf(a + "1111") % Pow10(1) == 1
  {
    NatOfConcat(a, "1111");
    Ones();
    SmallPowers();
    DivisionIsUnique(NatOf(a + "1111"), NatOf(a) * 1000 + 111, 1, 10);
  }

  lemma Ones()
    ensures AllDigits("1111") && NatOf("1111") == 1111
  {
    assert "1111"[..3] == "111" && "111"[..2] == "11" && "11"[..1] == "1" && "1"[..0] == "";
    assert NatOf("11") == 11;
    assert NatOf("111") == 111;
  }

  lemma {:induction false} LeastPrecisionAtMost(v: nat, p: int)
    requires 0 < p < 0x100
    ensures LeastPrecision(v, p) <= p
    decreases p
  {
    if v % 10 == 0 && p > 1 {
      LeastPrecisionAtMost(v / 10, p - 1);
    }
  }

  /** The conversions as an application chains them: print a number whose digits fit the precision, then read the text
      into a struct that asks for the same precision and scale. */
  method PrintThenRead(source: SqlNumeric, buf: array<char>, end: nat, reqprec: int, reqscale: int)
    returns (copy: SqlNumeric, overflow: int)
    requires source.Valid() && source.val.Length == 16
    requires 0 <= reqscale < 0x80 && DigitCountOf(source) <= reqprec < 0x100
    requires Room(reqscale) <= end < buf.Length
    modifies source`scale, source`precision, buf
    ensures copy.Valid() && copy.positive == source.positive
    ensures Magnitude(copy.val[..]) == Magnitude(source.val[..]) >= 0
    ensures overflow == if PrecisionSuffices(Magnitude(source.val[..]), reqprec, reqscale) then 0 else 1
  {
    hide Magnitude, Printed, PlainText, Converted, ConvertedText;
    copy := new SqlNumeric(reqprec, reqscale);
    var begin, trunc := ToStr(source, buf, end, reqprec, reqscale);
    ghost var v := Magnitude(source.val[..]);
    NothingTruncated(v, source.positive, reqprec, reqscale);
    ghost var text := SignedText(source.positive, PlainText(v, reqscale));
    SignComesBack(v, source.positive, reqscale);
    var numstr := ReadBuffer(buf, begin, text);
    ReadBack(v, reqprec, reqscale);
    NumeralConversion(PlainText(v, reqscale), reqprec, reqscale);
    overflow := FromStr(numstr, copy);
    DivisionIsUnique(v, 0, v, MAGNITUDE_LIMIT);
  }

  ghost function DigitCountOf(n: SqlNumeric): nat
    reads n, n.val
    requires n.Valid()
  {
    DigitCount(Magnitude(n.val[..]))
  }

  /** The C string that starts at begin. */
  method ReadBuffer(buf: array<char>, begin: int, ghost text: string) returns (numstr: string)
    requires Shows(buf[..], begin, text) && forall k :: 0 <= k < |text| ==> text[k] != NUL
    ensures numstr == text
  {
    numstr := "";
    var i := begin;
    assert forall x :: begin <= x < begin + |text| ==> buf[x] == buf[begin..begin + |text|][x - begin];
    while buf[i] != NUL
      invariant begin <= i <= begin + |text| && numstr == buf[begin..i]
      decreases begin + |text| - i
    {
      numstr := numstr + [buf[i]];
      i := i + 1;
    }
  }

  lemma NothingTruncated(v: nat, positive: bool, reqprec: int, scale: int)
    requires DigitCount(v) <= reqprec
    ensures Printed(v, positive, reqprec, scale) == (NoTruncation, SignedText(positive, PlainText(v, scale)))
  {
  }

  lemma SignComesBack(v: nat, positive: bool, scale: int)
    ensures var text := SignedText(positive, PlainText(v, scale));
            && Unsigned(text) == PlainText(v, scale)
            && (text != "" && text[0] == '-' <==> !positive)
            && forall k :: 0 <= k < |text| ==> text[k] != NUL
  {
    var t := PlainText(v, scale);
    var text := SignedText(positive, t);
    PrintedNumberDenotes(v, scale);
    NumeralCharacters(t);
    if !positive {
      assert text[1..] == t;
    }
  }

  lemma NumeralCharacters(t: string)
    requires Numeral(t)
    ensures forall k :: 0 <= k < |t| ==> IsDigit(t[k]) || t[k] == '.'
  {
    var p := IndexOf(t, '.');
    forall k | 0 <= k < |t|
      ensures IsDigit(t[k]) || t[k] == '.'
    {
      if k < p {
        assert t[k] == t[..p][k];
      } else if k > p {
        assert t[k] == t[p + 1..][k - p - 1];
      }
    }
  }
}
