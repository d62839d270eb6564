/** Reading a SQL_NUMERIC_STRUCT from text: digits in groups of four are multiplied into eight limbs, which are
    then rescaled to the scale the application asked for. */
module NumericRead {
  import opened Numbers
  import opened Limbs
  import opened SqlNumerics

  // ---------------------------------------------------------------------------------- one group of digits

  function SkipWhiteSpace(s: string): string {
    if s != "" && IsWhiteSpace(s[0]) then SkipWhiteSpace(s[1..]) else s
  }

  function LeadingDigits(s: string): (d: string)
    ensures AllDigits(d)
  {
    if s != "" && IsDigit(s[0]) then [s[0]] + LeadingDigits(s[1..]) else ""
  }

  /** strtoul in base ten, as an unsigned 32-bit result: blanks, a sign, then as many digits as there are. */
  function Strtoul(s: string): (n: int)
    ensures 0 <= n < WORD_MODULUS
  {
    var t := SkipWhiteSpace(s);
    if t != "" && t[0] == '-' then Wrap(0 - NatOf(LeadingDigits(t[1..])))
    else if t != "" && t[0] == '+' then Wrap(NatOf(LeadingDigits(t[1..])))
    else Wrap(NatOf(LeadingDigits(t)))
  }

  lemma {:induction false} LeadingDigitsOf(a: string, b: string)
    requires AllDigits(a) && (b == "" || b == ".")
    ensures LeadingDigits(a + b) == a
  {
    if a != "" {
      assert (a + b)[1..] == a[1..] + b;
      LeadingDigitsOf(a[1..], b);
    } else {
      assert a + b == b;
    }
  }

  /** A blank, a tab, or one of the characters that end a line or a page. */
  predicate IsSpacing(c: char) {
    c == ' ' || c == '\t' || c == '\n' || c as int == 11 || c as int == 12 || c == '\r'
  }

  lemma {:induction false} SpacingIsSkipped(blanks: string, rest: string)
    requires (forall c <- blanks :: IsSpacing(c)) && (rest != "" ==> !IsSpacing(rest[0]))
    ensures SkipWhiteSpace(blanks + rest) == rest
  {
    if blanks == "" {
      assert blanks + rest == rest;
    } else {
      assert (blanks + rest)[1..] == blanks[1..] + rest && blanks[0] in blanks;
      SpacingIsSkipped(blanks[1..], rest);
    }
  }

  lemma {:induction false} DigitsAreTaken(digits: string, rest: string)
    requires AllDigits(digits) && (rest != "" ==> !('0' <= rest[0] <= '9'))
    ensures LeadingDigits(digits + rest) == digits
  {
    if digits == "" {
      assert digits + rest == rest;
    } else {
      assert (digits + rest)[1..] == digits[1..] + rest;
      DigitsAreTaken(digits[1..], rest);
    }
  }

  /** A group of characters that is no numeral is taken as far as the C library does: spacing, a sign, and the digits
      behind it, as a word of 32 bits; what follows is left out. */
  lemma StrtoulTakes(blanks: string, digits: string, rest: string)
    requires (forall c <- blanks :: IsSpacing(c)) && AllDigits(digits) && (rest != "" ==> !('0' <= rest[0] <= '9'))
    ensures digits != "" ==> Strtoul(blanks + (digits + rest)) == NatOf(digits) % 0x1_0000_0000
    ensures Strtoul(blanks + (['+'] + (digits + rest))) == NatOf(digits) % 0x1_0000_0000
    ensures Strtoul(blanks + (['-'] + (digits + rest))) == (0 - NatOf(digits)) % 0x1_0000_0000
  {
    DigitsAreTaken(digits, rest);
    if digits != "" {
      assert (digits + rest)[0] == digits[0];
      SpacingIsSkipped(blanks, digits + rest);
    }
    SpacingIsSkipped(blanks, ['+'] + (digits + rest));
    SpacingIsSkipped(blanks, ['-'] + (digits + rest));
    assert (['+'] + (digits + rest))[1..] == digits + rest && (['-'] + (digits + rest))[1..] == digits + rest;
    hide SkipWhiteSpace, LeadingDigits, NatOf;
  }

  /** Digits, possibly closed by the decimal point. */
  ghost predicate Group(s: string, digits: string) {
    AllDigits(digits) && (s == digits || s == digits + ".")
  }

  lemma StrtoulDigits(digits: string, tail: string)
    requires AllDigits(digits) && (tail == "" || tail == ".")
    ensures Strtoul(digits + tail) == Wrap(NatOf(digits))
  {
    hide NatOf, Wrap;
    LeadingDigitsOf(digits, tail);
    var s := digits + tail;
    if s != "" {
      assert IsDigit(s[0]) || s[0] == '.';
      assert !IsWhiteSpace(s[0]) && s[0] != '-' && s[0] != '+';
    }
    assert SkipWhiteSpace(s) == s;
    hide SkipWhiteSpace, LeadingDigits;
  }

  lemma StrtoulGroup(s: string, digits: string)
    requires Group(s, digits) && |digits| <= 4
    ensures Strtoul(s) == NatOf(digits) < 10000
  {
    hide Strtoul, LeadingDigits;
    NatOfBound(digits);
    PowersGrow(|digits|, 4);
    SmallPowers();
    if s == digits {
      assert s == digits + "";
      StrtoulDigits(digits, "");
    } else {
      StrtoulDigits(digits, ".");
    }
  }

  /** How many digit positions a group of characters stands for. */
  function GroupDigits(curdigs: string): nat
    requires curdigs != ""
  {
    if curdigs[|curdigs| - 1] == '.' then |curdigs| - 1 else |curdigs|
  }

  lemma GroupLength(curdigs: string, digits: string)
    requires Group(curdigs, digits) && curdigs != ""
    ensures |digits| == GroupDigits(curdigs)
  {
    if curdigs == digits {
      assert IsDigit(digits[|digits| - 1]);
    }
  }

  /** The limbs after one more group: scale by its number of digits, add its integer, carry. */
  function Grouped(a: seq<int>, s: nat, curnum: int): (c: seq<int>)
    requires |a| == 8
    ensures |c| == 8
  {
    var b := Scaled(a, s);
    CarryFrom(b[0 := Wrap(b[0] + curnum)], 0)
  }

  /** The limbs after the characters of one more group. */
  function GroupedText(a: seq<int>, curdigs: string): (c: seq<int>)
    requires |a| == 8 && curdigs != ""
    ensures |c| == 8
  {
    Grouped(a, GroupDigits(curdigs), Strtoul(curdigs))
  }

  method AddGroup(buildUp: array<int>, s: nat, curnum: int)
    requires buildUp.Length == 8
    modifies buildUp
    ensures buildUp[..] == Grouped(old(buildUp[..]), s, curnum)
  {
    Scale(buildUp, s);
    ghost var b := buildUp[..];
    buildUp[0] := Wrap(buildUp[0] + curnum);
    assert buildUp[..] == b[0 := Wrap(b[0] + curnum)];
    Carry(buildUp);
  }

  lemma WordsAfterScale(a: seq<int>, b: seq<int>, p: int, x: int)
    requires ScaledBy(a, b, p) && 0 <= x < WORD_MODULUS
    ensures Words(b[0 := x])
  {
  }

  /** Whatever is added, the limbs come out carried. */
  lemma GroupedCarried(a: seq<int>, s: nat, curnum: int)
    requires Carried(a) && s <= 4
    ensures Carried(Grouped(a, s, curnum))
  {
    ScaleIsScaledBy(a, s);
    var b := Scaled(a, s);
    WordsAfterScale(a, b, Pow10(s), Wrap(b[0] + curnum));
    CarryWords(b[0 := Wrap(b[0] + curnum)], 0);
  }

  lemma GrownValue(v: int, p: int, add: int)
    requires 0 <= v < MAGNITUDE_LIMIT && 0 <= add < p <= 10000
    ensures 0 <= v * p + add < 10000 * MAGNITUDE_LIMIT
    ensures (v * p + add) % SPAN == v * p + add
  {
    Monotone(p, 0, v);
    Monotone(p, v, MAGNITUDE_LIMIT - 1);
  }

  lemma ExactGroup(a: seq<int>, b: seq<int>, p: int, add: int)
    requires ScaledBy(a, b, p) && 0 <= add < p <= 10000 && 0 <= Value(a) < MAGNITUDE_LIMIT
    ensures Value(CarryFrom(b[0 := Wrap(b[0] + add)], 0)) == Value(a) * p + add < 10000 * MAGNITUDE_LIMIT
  {
    hide Value, CarryFrom;
    assert Wrap(b[0] + add) == b[0] + add;
    ScaledThenCarried(a, b, p, add);
    GrownValue(Value(a), p, add);
  }

  /** A group of up to four digits: as long as the limbs denote less than 2^128 before, no word wraps, and the
      limbs denote exactly the longer integer afterwards. */
  lemma GroupedValue(a: seq<int>, s: nat, add: int)
    requires Carried(a) && s <= 4 && 0 <= add < Pow10(s) && Value(a) < MAGNITUDE_LIMIT
    ensures Value(Grouped(a, s, add)) == Value(a) * Pow10(s) + add < 10000 * MAGNITUDE_LIMIT
  {
    hide Value, Scaled, CarryFrom, ScaledBy;
    ValueBounds(a);
    PowersGrow(s, 4);
    SmallPowers();
    ScaleIsScaledBy(a, s);
    var b, p := Scaled(a, s), Pow10(s);
    ExactGroup(a, b, p, add);
  }

  // ---------------------------------------------------------------------------------- all groups

  /** Where the group that starts at i ends: after four characters, or right after the decimal point. */
  function GroupEnd(num: string, i: nat): (e: nat)
    requires i < |num|
    ensures i < e <= |num| && e <= i + 4
  {
    var e := if i + 4 < |num| then i + 4 else |num|;
    var p := IndexOf(num, '.');
    if i <= p < e then p + 1 else e
  }

  /** The integer that the first i characters spell. */
  function Spelled(num: string, i: nat): nat
    requires Numeral(num) && i <= |num|
  {
    CutNumeral(num, i);
    NumeralDigits(num[..i]);
    NatOf(Digits(num[..i]))
  }

  /** The end of the first group, from i on, at which the integer spelled so far reaches 2^128; past the end
      when no group does. */
  function OverflowAt(num: string, i: nat): (e: nat)
    requires Numeral(num) && i <= |num|
    ensures e <= |num| + 1
    ensures e <= |num| ==> i < e && Spelled(num, e) >= MAGNITUDE_LIMIT
    decreases |num| - i
  {
    if i == |num| then |num| + 1
    else
      var e := GroupEnd(num, i);
      if Spelled(num, e) >= MAGNITUDE_LIMIT then e else OverflowAt(num, e)
  }

  /** The characters of one group of a numeral. */
  lemma GroupOfNumeral(num: string, i: nat)
    requires Numeral(num) && i < |num|
    ensures var g := num[i..GroupEnd(num, i)];
            Numeral(g) && AllDigits(Digits(g)) && Group(g, Digits(g)) && |Digits(g)| == GroupDigits(g) <= 4
  {
    var e := GroupEnd(num, i);
    var g := num[i..e];
    CutNumeral(num, e);
    var t := num[..e];
    assert t[i..] == g;
    CutNumeral(t, i);
    NumeralDigits(g);
    PointInGroup(num, i, e);
    GroupShape(g);
    GroupLength(g, Digits(g));
  }

  /** A point inside a group closes it. */
  lemma PointInGroup(num: string, i: nat, e: nat)
    requires Numeral(num) && i < |num| && e == GroupEnd(num, i)
    ensures IndexOf(num[i..e], '.') >= e - i - 1
  {
    var p := IndexOf(num, '.');
    var g := num[i..e];
    if p < i {
      CutNumeral(num, i);
      IndexOfIs(g, '.', e - i) by {
        forall k | 0 <= k < e - i
          ensures g[k] != '.'
        {
          assert g[k] == num[p + 1..][i + k - p - 1];
        }
      }
    } else if p < e {
      IndexOfIs(g, '.', p - i);
    } else {
      IndexOfIs(g, '.', e - i);
    }
  }

  lemma GroupShape(g: string)
    requires Numeral(g) && g != "" && IndexOf(g, '.') >= |g| - 1
    ensures Group(g, Digits(g))
  {
    var p := IndexOf(g, '.');
    if p < |g| {
      assert g == g[..p] + "." + g[p + 1..];
      assert g[p + 1..] == "";
      assert Digits(g) == g[..p];
    }
  }

  /** One more group makes the integer spelled so far longer by the digits of that group. */
  lemma SpelledGroup(num: string, i: nat)
    requires Numeral(num) && i < |num|
    ensures var e := GroupEnd(num, i);
            var g := num[i..e];
            Numeral(g) && AllDigits(Digits(g))
            && Spelled(num, e) == Spelled(num, i) * Pow10(|Digits(g)|) + NatOf(Digits(g))
  {
    var e := GroupEnd(num, i);
    GroupOfNumeral(num, i);
    SpelledMore(num, i, e);
  }

  lemma SpelledMore(num: string, i: nat, e: nat)
    requires Numeral(num) && i <= e <= |num|
    requires Numeral(num[i..e]) && AllDigits(Digits(num[i..e]))
    ensures Spelled(num, e) == Spelled(num, i) * Pow10(|Digits(num[i..e])|) + NatOf(Digits(num[i..e]))
  {
    hide IndexOf;
    CutNumeral(num, e);
    CutNumeral(num, i);
    var t := num[..e];
    assert t[..i] == num[..i] && t[i..] == num[i..e];
    CutNumeral(t, i);
    NumeralDigits(num[..i]);
    NatOfConcat(Digits(num[..i]), Digits(num[i..e]));
  }

  lemma SpelledGrows(num: string, i: nat)
    requires Numeral(num) && i <= |num|
    ensures Spelled(num, i) <= Spelled(num, |num|)
  {
    CutNumeral(num, i);
    NumeralDigits(num[i..]);
    assert num[i..|num|] == num[i..];
    SpelledMore(num, i, |num|);
    Monotone(Spelled(num, i), 1, Pow10(|Digits(num[i..])|));
  }

  /** Overflow is raised at some group exactly when the whole numeral spells an integer of 2^128 or more. */
  lemma {:induction false} OverflowIffLarge(num: string, i: nat)
    requires Numeral(num) && i <= |num| && (i == |num| ==> Spelled(num, i) < MAGNITUDE_LIMIT)
    ensures OverflowAt(num, i) <= |num| <==> Spelled(num, |num|) >= MAGNITUDE_LIMIT
    decreases |num| - i
  {
    if i < |num| {
      var e := GroupEnd(num, i);
      SpelledGrows(num, e);
      if Spelled(num, e) < MAGNITUDE_LIMIT {
        OverflowIffLarge(num, e);
      }
    }
  }

  /** What the loop over groups carries from one group to the next. */
  datatype ReadState = ReadState(limbs: seq<int>, scale: int, precision: int, overflow: int)

  /** Scale and precision once the group that ends at e is known to hold the decimal point or not. */
  function NotePoint(num: string, i: nat, st: ReadState): ReadState
    requires i < |num|
  {
    var e := GroupEnd(num, i);
    if i <= IndexOf(num, '.') < e then
      st.(scale := S8(|num| - e), precision := U8(st.precision - 1))
    else st
  }

  function NextGroup(num: string, i: nat, st: ReadState): (r: ReadState)
    requires i < |num| && |st.limbs| == 8
    ensures |r.limbs| == 8
  {
    var g := num[i..GroupEnd(num, i)];
    var limbs := GroupedText(st.limbs, g);
    ReadState(limbs, st.scale, st.precision, if limbs[7] >= LIMB_MODULUS then 1 else st.overflow)
  }

  /** All groups from i on: the state at the end, and where reading stopped. Reading stops before a group when the
      group before it raised the overflow flag. */
  function ReadFrom(num: string, i: nat, st: ReadState): (ReadState, nat)
    requires i <= |num| && |st.limbs| == 8
    decreases |num| - i, st
  {
    if i == |num| then (st, i)
    else if st.overflow != 0 then (NotePoint(num, i, st), i)
    else ReadFrom(num, GroupEnd(num, i), NextGroup(num, i, NotePoint(num, i, st)))
  }

  method AddGroupText(buildUp: array<int>, curdigs: string)
    requires buildUp.Length == 8 && curdigs != ""
    modifies buildUp
    ensures buildUp[..] == GroupedText(old(buildUp[..]), curdigs)
  {
    AddGroup(buildUp, GroupDigits(curdigs), Strtoul(curdigs));
  }

  /** The length of the group that starts at i. A point found in it ends it, and fixes the scale. */
  method TakeGroup(num: string, i: nat, decpt: nat, sqlnum: SqlNumeric) returns (usedig: nat, left: nat)
    requires i < |num| && decpt == (if i <= IndexOf(num, '.') then IndexOf(num, '.') else |num|)
    modifies sqlnum`scale, sqlnum`precision
    ensures i + usedig == GroupEnd(num, i)
    ensures left == if i + usedig <= IndexOf(num, '.') then IndexOf(num, '.') else |num|
    ensures forall limbs, overflow ::
              NotePoint(num, i, ReadState(limbs, old(sqlnum.scale), old(sqlnum.precision), overflow))
              == ReadState(limbs, sqlnum.scale, sqlnum.precision, overflow)
  {
    usedig, left := if i + 4 < |num| then 4 else |num| - i, decpt;
    if decpt < |num| && i <= decpt < i + usedig {
      usedig := decpt - i + 1;
      sqlnum.scale := S8(|num| - (i + usedig));
      sqlnum.precision := U8(sqlnum.precision - 1);
      left := |num|;
    }
  }

  method ReadDigits(num: string, sqlnum: SqlNumeric, buildUp: array<int>)
    returns (overflow: int, at: nat)
    requires buildUp.Length == 8
    modifies buildUp, sqlnum`scale, sqlnum`precision
    ensures at <= |num|
    ensures (ReadState(buildUp[..], sqlnum.scale, sqlnum.precision, overflow), at)
            == ReadFrom(num, 0, ReadState(old(buildUp[..]), old(sqlnum.scale), old(sqlnum.precision), 0))
  {
    hide IndexOf, GroupedText, U8, S8;
    var len := |num|;
    var decpt := IndexOf(num, '.');
    overflow := 0;
    var i := 0;
    while i < len
      invariant 0 <= i <= len
      invariant decpt == if i <= IndexOf(num, '.') then IndexOf(num, '.') else len
      invariant ReadFrom(num, i, ReadState(buildUp[..], sqlnum.scale, sqlnum.precision, overflow))
             == ReadFrom(num, 0, ReadState(old(buildUp[..]), old(sqlnum.scale), old(sqlnum.precision), 0))
    {
      ghost var st := ReadState(buildUp[..], sqlnum.scale, sqlnum.precision, overflow);
      var usedig;
      usedig, decpt := TakeGroup(num, i, decpt, sqlnum);
      assert NotePoint(num, i, st) == ReadState(buildUp[..], sqlnum.scale, sqlnum.precision, overflow);
      if overflow != 0 {
        return overflow, i;
      }
      var curdigs := num[i..i + usedig];
      AddGroupText(buildUp, curdigs);
      if buildUp[7] >= LIMB_MODULUS {
        overflow := 1;
      }
      i := i + usedig;
    }
    at := i;
  }

  lemma SpelledNothing(num: string)
    requires Numeral(num)
    ensures Spelled(num, 0) == 0
  {
    CutNumeral(num, 0);
    NoPoint(num[..0]);
  }

  /** The limbs after one more group of a numeral. */
  lemma ReadOneGroup(num: string, i: nat, a: seq<int>)
    requires Numeral(num) && i < |num| && Carried(a) && Value(a) == Spelled(num, i) < MAGNITUDE_LIMIT
    ensures var g := num[i..GroupEnd(num, i)];
            var b := GroupedText(a, g);
            Carried(b) && Value(b) == Spelled(num, GroupEnd(num, i)) < 10000 * MAGNITUDE_LIMIT
  {
    var g := num[i..GroupEnd(num, i)];
    GroupOfNumeral(num, i);
    SpelledGroup(num, i);
    StrtoulGroup(g, Digits(g));
    NatOfBound(Digits(g));
    GroupedCarried(a, GroupDigits(g), NatOf(Digits(g)));
    GroupedValue(a, GroupDigits(g), NatOf(Digits(g)));
  }

  /** The state after the first i characters of a numeral: the limbs denote the integer spelled so far, the flag says
      whether that is 2^128 or more, and scale and precision know about the point if it has been passed. */
  ghost predicate ReadSoFar(num: string, i: nat, st: ReadState) {
    && Numeral(num) && i <= |num|
    && Carried(st.limbs) && Value(st.limbs) == Spelled(num, i)
    && Value(st.limbs) < 10000 * MAGNITUDE_LIMIT
    && st.overflow == (if Spelled(num, i) >= MAGNITUDE_LIMIT then 1 else 0)
    && st.scale == (if IndexOf(num, '.') < i then S8(FractionLength(num)) else 0)
    && st.precision == (if IndexOf(num, '.') < i then U8(U8(|num|) - 1) else U8(|num|))
  }

  lemma NextGroupFields(num: string, i: nat, st: ReadState)
    requires i < |num| && |st.limbs| == 8
    ensures var r := NextGroup(num, i, st);
            && r.limbs == GroupedText(st.limbs, num[i..GroupEnd(num, i)])
            && r.scale == st.scale && r.precision == st.precision
            && r.overflow == (if r.limbs[7] >= LIMB_MODULUS then 1 else st.overflow)
  {
  }

  lemma PassedPoint(num: string, i: nat, st: ReadState)
    requires i < |num|
    requires st.scale == (if IndexOf(num, '.') < i then S8(FractionLength(num)) else 0)
    requires st.precision == (if IndexOf(num, '.') < i then U8(U8(|num|) - 1) else U8(|num|))
    ensures var r := NotePoint(num, i, st);
            && r.limbs == st.limbs && r.overflow == st.overflow
            && r.scale == (if IndexOf(num, '.') < GroupEnd(num, i) then S8(FractionLength(num)) else 0)
            && r.precision == (if IndexOf(num, '.') < GroupEnd(num, i) then U8(U8(|num|) - 1) else U8(|num|))
  {
    var e := GroupEnd(num, i);
    if i <= IndexOf(num, '.') < e {
      assert |num| - e == FractionLength(num);
    }
  }

  lemma ReadGroupKeeps(num: string, i: nat, st: ReadState)
    requires ReadSoFar(num, i, st) && i < |num| && st.overflow == 0
    ensures ReadSoFar(num, GroupEnd(num, i), NextGroup(num, i, NotePoint(num, i, st)))
  {
    var e := GroupEnd(num, i);
    PassedPoint(num, i, st);
    ReadOneGroup(num, i, st.limbs);
    var g := num[i..e];
    ValueBounds(GroupedText(st.limbs, g));
    NextGroupFields(num, i, NotePoint(num, i, st));
  }

  /** Reading a numeral: overflow is raised exactly at the first group whose end reaches 2^128, and without an early
      stop the limbs denote the integer that all its digits spell. */
  lemma {:induction false} ReadNumeral(num: string, i: nat, st: ReadState)
    requires ReadSoFar(num, i, st)
    requires st.overflow == 0
    ensures var (r, at) := ReadFrom(num, i, st);
            && (OverflowAt(num, i) <= |num| ==> r.overflow == 1 && at == OverflowAt(num, i))
            && (OverflowAt(num, i) > |num| ==> r.overflow == 0 && at == |num|)
            && (at == |num| ==> ReadSoFar(num, |num|, r))
    decreases |num| - i
  {
    if i < |num| {
      var e := GroupEnd(num, i);
      var next := NextGroup(num, i, NotePoint(num, i, st));
      ReadGroupKeeps(num, i, st);
      if next.overflow == 0 {
        ReadNumeral(num, e, next);
      }
    }
  }

  // ---------------------------------------------------------------------------------- rescaling

  /** The number between two phases of the conversion: the integer in the limbs, and what the struct says of it. */
  datatype Reading = Reading(value: int, scale: int, precision: int, overflow: int)

  /** Append zeros until the requested scale is reached. The limbs hold the value modulo 2^144. */
  function ScaledUp(r: Reading, reqscale: int): (u: Reading)
    ensures reqscale <= r.scale ==> u == r
    decreases reqscale - r.scale, r
  {
    if reqscale > r.scale then
      ScaledUp(r.(value := r.value * 10 % SPAN, scale := r.scale + 1), reqscale)
    else r
  }

  /** Drop fractional digits until the requested scale, or zero, is reached; a dropped digit other than zero sets
      the flag to 2. */
  function FractionDropped(r: Reading, reqscale: int): (d: Reading)
    decreases r.scale, r
  {
    if reqscale < r.scale && r.scale > 0 then
      FractionDropped(Reading(r.value / 10, r.scale - 1, U8(r.precision - 1),
                              if r.value % 10 != 0 then 2 else r.overflow), reqscale)
    else r
  }

  /** Drop whole digits for a negative scale; a digit other than zero is an overflow and ends the conversion. */
  function WholeDropped(r: Reading, reqscale: int): (Reading, bool)
    decreases r.scale - reqscale, r
  {
    if reqscale >= r.scale then (r, false)
    else if r.value % 10 != 0 then (r.(overflow := 1), true)
    else WholeDropped(Reading(r.value / 10, r.scale - 1, U8(r.precision - 1), r.overflow), reqscale)
  }

  function Rescaled(r: Reading, reqscale: int): (Reading, bool) {
    var u := if reqscale > 0 && reqscale > r.scale then ScaledUp(r, reqscale) else FractionDropped(r, reqscale);
    if reqscale < 0 then WholeDropped(u, reqscale) else (u, false)
  }

  /** Trailing zeros need no precision. The count is an unsigned byte and runs down to zero at most. */
  function LeastPrecision(value: int, precision: int): (p: int)
    requires 0 <= precision < 0x100
    decreases if precision == 0 then 0x100 else precision, value
  {
    if value % 10 != 0 then precision
    else
      var p := U8(precision - 1);
      if p > 0 then LeastPrecision(value / 10, p) else p
  }

  lemma LimbsTimesTen(a: seq<int>)
    requires Carried(a)
    ensures Carried(Grouped(a, 1, 0)) && Value(Grouped(a, 1, 0)) == Value(a) * 10 % SPAN
  {
    GroupedCarried(a, 1, 0);
    ScaleIsScaledBy(a, 1);
    var b := Scaled(a, 1);
    SmallPowers();
    NothingAdded(a, b);
    ScaledThenCarried(a, b, 10, 0);
  }

  lemma NothingAdded(a: seq<int>, b: seq<int>)
    requires ScaledBy(a, b, Pow10(1))
    ensures b[0 := Wrap(b[0] + 0)] == b[0 := b[0] + 0]
  {
  }

  method ScaleUp(sqlnum: SqlNumeric, buildUp: array<int>, reqscale: int, ghost overflow: int)
    requires buildUp.Length == 8 && Carried(buildUp[..])
    modifies buildUp, sqlnum`scale
    ensures Carried(buildUp[..])
    ensures Reading(Value(buildUp[..]), sqlnum.scale, sqlnum.precision, overflow)
         == ScaledUp(Reading(Value(old(buildUp[..])), old(sqlnum.scale), sqlnum.precision, overflow), reqscale)
  {
    hide Value;
    ghost var start := Reading(Value(buildUp[..]), sqlnum.scale, sqlnum.precision, overflow);
    while reqscale > sqlnum.scale
      invariant Carried(buildUp[..])
      invariant ScaledUp(Reading(Value(buildUp[..]), sqlnum.scale, sqlnum.precision, overflow), reqscale)
             == ScaledUp(start, reqscale)
      decreases reqscale - sqlnum.scale
    {
      LimbsTimesTen(buildUp[..]);
      AddGroup(buildUp, 1, 0);
      sqlnum.scale := sqlnum.scale + 1;
    }
  }

  /** Divide the limbs by ten; the digit left over comes back. */
  method DivideLimbs(ary: array<int>) returns (digit: int)
    requires ary.Length == 8 && Carried(ary[..])
    modifies ary
    ensures Carried(ary[..])
    ensures Value(ary[..]) == Value(old(ary[..])) / 10
    ensures digit == Value(old(ary[..])) % 10
  {
    ghost var a := ary[..];
    ValueBounds(a);
    DivideByTen(a);
    UnscaleLE(ary);
    ghost var b := ary[..];
    digit := ary[0] % 10;
    ary[0] := ary[0] / 10;
    assert ary[..] == b[0 := b[0] / 10];
  }

  method DropFraction(sqlnum: SqlNumeric, buildUp: array<int>, reqscale: int, flag: int) returns (overflow: int)
    requires buildUp.Length == 8 && Carried(buildUp[..])
    modifies buildUp, sqlnum`scale, sqlnum`precision
    ensures Carried(buildUp[..])
    ensures Reading(Value(buildUp[..]), sqlnum.scale, sqlnum.precision, overflow)
         == FractionDropped(Reading(Value(old(buildUp[..])), old(sqlnum.scale), old(sqlnum.precision), flag), reqscale)
  {
    hide Value;
    overflow := flag;
    ghost var start := Reading(Value(buildUp[..]), sqlnum.scale, sqlnum.precision, flag);
    while reqscale < sqlnum.scale && sqlnum.scale > 0
      invariant Carried(buildUp[..])
      invariant FractionDropped(Reading(Value(buildUp[..]), sqlnum.scale, sqlnum.precision, overflow), reqscale)
             == FractionDropped(start, reqscale)
      decreases sqlnum.scale
    {
      var digit := DivideLimbs(buildUp);
      if digit != 0 {
        overflow := 2;
      }
      sqlnum.precision := U8(sqlnum.precision - 1);
      sqlnum.scale := sqlnum.scale - 1;
    }
  }

  method DropWhole(sqlnum: SqlNumeric, buildUp: array<int>, reqscale: int, flag: int)
    returns (overflow: int, ended: bool)
    requires buildUp.Length == 8 && Carried(buildUp[..])
    modifies buildUp, sqlnum`scale, sqlnum`precision
    ensures Carried(buildUp[..])
    ensures (Reading(Value(buildUp[..]), sqlnum.scale, sqlnum.precision, overflow), ended)
         == WholeDropped(Reading(Value(old(buildUp[..])), old(sqlnum.scale), old(sqlnum.precision), flag), reqscale)
  {
    hide Value;
    overflow, ended := flag, false;
    var tmp := new int[8](i requires 0 <= i < 8 reads buildUp => buildUp[i]);
    assert tmp[..] == buildUp[..];
    ghost var start := Reading(Value(buildUp[..]), sqlnum.scale, sqlnum.precision, flag);
    while reqscale < sqlnum.scale
      invariant Carried(buildUp[..])
      invariant Carried(tmp[..]) && Value(tmp[..]) == Value(buildUp[..])
      invariant WholeDropped(Reading(Value(buildUp[..]), sqlnum.scale, sqlnum.precision, overflow), reqscale)
             == WholeDropped(start, reqscale)
      decreases sqlnum.scale - reqscale
    {
      var digit := DivideLimbs(tmp);
      if digit != 0 {
        return 1, true;
      }
      digit := DivideLimbs(buildUp);
      sqlnum.precision := U8(sqlnum.precision - 1);
      sqlnum.scale := sqlnum.scale - 1;
    }
  }

  method FindLeastPrecision(buildUp: array<int>, precision: int) returns (p: int)
    requires buildUp.Length == 8 && Carried(buildUp[..]) && 0 <= precision < 0x100
    ensures p == LeastPrecision(Value(buildUp[..]), precision)
  {
    hide Value;
    var tmp := new int[8](i requires 0 <= i < 8 reads buildUp => buildUp[i]);
    assert tmp[..] == buildUp[..];
    p := precision;
    var more := true;
    while more
      invariant 0 <= p < 0x100 && Carried(tmp[..])
      invariant LeastPrecision(Value(buildUp[..]), precision) == if more then LeastPrecision(Value(tmp[..]), p) else p
      decreases more, if p == 0 then 0x100 else p
    {
      var digit := DivideLimbs(tmp);
      if digit == 0 {
        p := U8(p - 1);
      }
      more := digit == 0 && p > 0;
    }
  }

  // ---------------------------------------------------------------------------------- the whole conversion

  /** The digits of a number text, behind its sign. */
  function Unsigned(numstr: string): string {
    if numstr != "" && numstr[0] == '-' then numstr[1..] else numstr
  }

  /** The number as the loop over digit groups leaves it. */
  function Gathered(num: string): Reading
    requires Numeral(num)
  {
    var v := Spelled(num, |num|);
    Reading(v, S8(FractionLength(num)), U8(U8(|num|) - (if IndexOf(num, '.') < |num| then 1 else 0)),
            if v >= MAGNITUDE_LIMIT then 1 else 0)
  }

  /** The conversion from the gathered digits on; the second part tells whether it gave up before storing a
      magnitude. */
  function Finished(g: Reading, reqprec: int, reqscale: int): (Reading, bool) {
    var (r, ended) := Rescaled(g, reqscale);
    if ended then (r, true)
    else (if LeastPrecision(r.value, U8(r.precision)) > reqprec then r.(overflow := 1) else r, false)
  }

  /** What the conversion makes of any text behind its sign. */
  function ConvertedText(num: string, reqprec: int, reqscale: int): (Reading, bool) {
    var (st, at) := ReadFrom(num, 0, ReadState([0, 0, 0, 0, 0, 0, 0, 0], 0, U8(|num|), 0));
    var g := Reading(LimbValue(st.limbs), st.scale, st.precision, st.overflow);
    if at < |num| then (g, true) else Finished(g, reqprec, reqscale)
  }

  function LimbValue(limbs: seq<int>): int {
    if |limbs| == 8 then Value(limbs) else 0
  }

  /** What the conversion makes of a numeral, told without limbs. */
  function Converted(num: string, reqprec: int, reqscale: int): (Reading, bool)
    requires Numeral(num)
  {
    if OverflowAt(num, 0) < |num| then (Gathered(num), true) else Finished(Gathered(num), reqprec, reqscale)
  }

  method Rescale(sqlnum: SqlNumeric, buildUp: array<int>, reqscale: int, flag: int)
    returns (overflow: int, ended: bool)
    requires buildUp.Length == 8 && Carried(buildUp[..])
    modifies buildUp, sqlnum`scale, sqlnum`precision
    ensures Carried(buildUp[..])
    ensures (Reading(Value(buildUp[..]), sqlnum.scale, sqlnum.precision, overflow), ended)
         == Rescaled(Reading(Value(old(buildUp[..])), old(sqlnum.scale), old(sqlnum.precision), flag), reqscale)
  {
    overflow, ended := flag, false;
    if reqscale > 0 && reqscale > sqlnum.scale {
      ScaleUp(sqlnum, buildUp, reqscale, flag);
    } else {
      overflow := DropFraction(sqlnum, buildUp, reqscale, overflow);
    }
    if reqscale < 0 {
      overflow, ended := DropWhole(sqlnum, buildUp, reqscale, overflow);
    }
  }

  lemma {:induction false} ScaledUpRange(r: Reading, reqscale: int)
    requires -0x80 <= r.scale < 0x80 && -0x80 <= reqscale < 0x80
    ensures -0x80 <= ScaledUp(r, reqscale).scale < 0x80
    ensures ScaledUp(r, reqscale).precision == r.precision
    decreases reqscale - r.scale
  {
    if reqscale > r.scale {
      ScaledUpRange(r.(value := r.value * 10 % SPAN, scale := r.scale + 1), reqscale);
    }
  }

  lemma {:induction false} FractionDroppedRange(r: Reading, reqscale: int)
    requires -0x80 <= r.scale < 0x80 && 0 <= r.precision < 0x100
    ensures -0x80 <= FractionDropped(r, reqscale).scale < 0x80
    ensures 0 <= FractionDropped(r, reqscale).precision < 0x100
    decreases r.scale
  {
    if reqscale < r.scale && r.scale > 0 {
      FractionDroppedRange(Reading(r.value / 10, r.scale - 1, U8(r.precision - 1),
                                   if r.value % 10 != 0 then 2 else r.overflow), reqscale);
    }
  }

  lemma {:induction false} WholeDroppedRange(r: Reading, reqscale: int)
    requires -0x80 <= r.scale < 0x80 && 0 <= r.precision < 0x100 && -0x80 <= reqscale
    ensures -0x80 <= WholeDropped(r, reqscale).0.scale < 0x80
    ensures 0 <= WholeDropped(r, reqscale).0.precision < 0x100
    ensures WholeDropped(r, reqscale).1 ==> WholeDropped(r, reqscale).0.overflow == 1
    decreases r.scale - reqscale
  {
    if reqscale < r.scale && r.value % 10 == 0 {
      WholeDroppedRange(Reading(r.value / 10, r.scale - 1, U8(r.precision - 1), r.overflow), reqscale);
    }
  }

  lemma RescaledRange(r: Reading, reqscale: int)
    requires -0x80 <= r.scale < 0x80 && 0 <= r.precision < 0x100 && -0x80 <= reqscale < 0x80
    ensures var (u, ended) := Rescaled(r, reqscale);
            -0x80 <= u.scale < 0x80 && 0 <= u.precision < 0x100 && (ended ==> u.overflow == 1)
  {
    if reqscale > 0 && reqscale > r.scale {
      ScaledUpRange(r, reqscale);
    } else {
      FractionDroppedRange(r, reqscale);
      if reqscale < 0 {
        WholeDroppedRange(FractionDropped(r, reqscale), reqscale);
      }
    }
  }

  /** Store the limbs as bytes. */
  method Compress(buildUp: array<int>, val: array<int>)
    requires buildUp.Length == 8 && val.Length == 16 && buildUp != val && Carried(buildUp[..])
    modifies val
    ensures Bytes(val[..]) && Magnitude(val[..]) == Value(buildUp[..]) % MAGNITUDE_LIMIT
  {
    for i := 0 to 8
      invariant forall k :: 0 <= k < 2 * i ==> val[k] == Packed(buildUp[..])[k]
    {
      PackedAt(buildUp[..], i);
      val[2 * i] := buildUp[i] % 0x100;
      val[2 * i + 1] := buildUp[i] / 0x100 % 0x100;
    }
    assert val[..] == Packed(buildUp[..]);
    PackedValue(buildUp[..]);
  }

  lemma PackedAt(a: seq<int>, i: nat)
    requires |a| == 8 && i < 8
    ensures Packed(a)[2 * i] == a[i] % 0x100 && Packed(a)[2 * i + 1] == a[i] / 0x100 % 0x100
  {
  }

  lemma {:induction false} ReadStaysCarried(num: string, i: nat, st: ReadState)
    requires i <= |num| && Carried(st.limbs) && -0x80 <= st.scale < 0x80 && 0 <= st.precision < 0x100
    ensures var r := ReadFrom(num, i, st).0;
            Carried(r.limbs) && -0x80 <= r.scale < 0x80 && 0 <= r.precision < 0x100
    decreases |num| - i
  {
    if i < |num| && st.overflow == 0 {
      var g := num[i..GroupEnd(num, i)];
      GroupedCarried(st.limbs, GroupDigits(g), Strtoul(g));
      ReadStaysCarried(num, GroupEnd(num, i), NextGroup(num, i, NotePoint(num, i, st)));
    }
  }

  /** Everything behind the loop over digit groups. */
  method Finish(sqlnum: SqlNumeric, buildUp: array<int>, reqprec: int, reqscale: int, flag: int)
    returns (overflow: int, ended: bool)
    requires buildUp.Length == 8 && Carried(buildUp[..]) && sqlnum.val.Length == 16 && buildUp != sqlnum.val
    requires sqlnum.Valid() && -0x80 <= reqscale < 0x80
    modifies buildUp, sqlnum`scale, sqlnum`precision, sqlnum.val
    ensures sqlnum.Valid()
    ensures var (r, gaveUp) :=
              Finished(Reading(Value(old(buildUp[..])), old(sqlnum.scale), old(sqlnum.precision), flag), reqprec, reqscale);
            && ended == gaveUp && overflow == r.overflow
            && (ended ==> overflow == 1 && sqlnum.val[..] == old(sqlnum.val[..]))
            && (!ended ==> sqlnum.scale == r.scale && sqlnum.precision == r.precision
                           && Magnitude(sqlnum.val[..]) == r.value % MAGNITUDE_LIMIT)
  {
    hide Value;
    RescaledRange(Reading(Value(buildUp[..]), sqlnum.scale, sqlnum.precision, flag), reqscale);
    overflow, ended := Rescale(sqlnum, buildUp, reqscale, flag);
    if ended {
      return;
    }
    var p := FindLeastPrecision(buildUp, sqlnum.precision);
    if p > reqprec {
      overflow := 1;
    }
    Compress(buildUp, sqlnum.val);
  }

  /** Convert a text to the precision and scale that the struct asks for, and note what was used. A conversion that
      gives up stores no magnitude. */
  method FromStr(numstr: string, sqlnum: SqlNumeric) returns (overflow: int)
    requires sqlnum.Valid() && sqlnum.val.Length == 16
    modifies sqlnum, sqlnum.val
    ensures sqlnum.Valid()
    ensures sqlnum.positive == !(numstr != "" && numstr[0] == '-')
    ensures var (r, ended) := ConvertedText(Unsigned(numstr), old(sqlnum.precision), old(sqlnum.scale));
            && overflow == r.overflow
            && (ended ==> forall i :: 0 <= i < 16 ==> sqlnum.val[i] == 0)
            && (!ended ==> sqlnum.scale == r.scale && sqlnum.precision == r.precision
                           && Magnitude(sqlnum.val[..]) == r.value % MAGNITUDE_LIMIT)
  {
    hide Value, Magnitude, Finished, ReadFrom;
    var reqscale, reqprec := sqlnum.scale, sqlnum.precision;
    forall i | 0 <= i < 16 {
      sqlnum.val[i] := 0;
    }
    var buildUp := new int[8](_ => 0);
    assert buildUp[..] == [0, 0, 0, 0, 0, 0, 0, 0];
    sqlnum.positive := !(numstr != "" && numstr[0] == '-');
    var num := Unsigned(numstr);
    sqlnum.precision := U8(|num|);
    sqlnum.scale := 0;
    ReadStaysCarried(num, 0, ReadState([0, 0, 0, 0, 0, 0, 0, 0], 0, U8(|num|), 0));
    var at;
    overflow, at := ReadDigits(num, sqlnum, buildUp);
    if at < |num| {
      return;
    }
    var ended;
    overflow, ended := Finish(sqlnum, buildUp, reqprec, reqscale, overflow);
  }

  /** For a numeral, the limbs never lose anything that matters: the conversion is the one on integers. */
  lemma NumeralConversion(num: string, reqprec: int, reqscale: int)
    requires Numeral(num)
    ensures ConvertedText(num, reqprec, reqscale).1 == Converted(num, reqprec, reqscale).1
    ensures ConvertedText(num, reqprec, reqscale).0.overflow == Converted(num, reqprec, reqscale).0.overflow
    ensures !Converted(num, reqprec, reqscale).1 ==>
              ConvertedText(num, reqprec, reqscale) == Converted(num, reqprec, reqscale)
  {
    var st0 := ReadState([0, 0, 0, 0, 0, 0, 0, 0], 0, U8(|num|), 0);
    SpelledNothing(num);
    ReadNumeral(num, 0, st0);
    var (st, at) := ReadFrom(num, 0, st0);
    if at == |num| {
      assert Reading(Value(st.limbs), st.scale, st.precision, st.overflow) == Gathered(num);
    } else {
      GatheredLarge(num);
    }
  }

  lemma GatheredLarge(num: string)
    requires Numeral(num) && OverflowAt(num, 0) <= |num|
    ensures Gathered(num).overflow == 1
  {
    SpelledNothing(num);
    OverflowIffLarge(num, 0);
  }
}
