/** Writing a SQL_NUMERIC_STRUCT as text: digits come out of repeated division by ten and are filled into the
    buffer backwards, from its last byte. */
module NumericPrint {
  import opened Numbers
  import opened Limbs
  import opened SqlNumerics

  const NUL: char := '\0'

  datatype Truncation = NoTruncation | FractionTruncated | WholeTruncated

  // ---------------------------------------------------------------------------------- the text itself

  function Zeros(n: nat): (s: string)
    ensures |s| == n && forall i :: 0 <= i < n ==> s[i] == '0'
  {
    seq(n, _ => '0')
  }

  /** The decimal digits of v. */
  function DecimalDigits(v: nat): (d: string)
    ensures |d| == DigitCount(v) && AllDigits(d)
  {
    LastDigits(v, DigitCount(v))
  }

  /** The text of v divided by 10^scale. */
  function PlainText(v: nat, scale: int): string {
    var d := DecimalDigits(v);
    if scale <= 0 then d + Zeros(-scale)
    else if v == 0 && scale == 1 then d
    else if scale <= |d| then d[..|d| - scale] + "." + d[|d| - scale..]
    else "0." + Zeros(scale - |d|) + d
  }

  function SignedText(positive: bool, text: string): string {
    if positive then text else "-" + text
  }

  // ---------------------------------------------------------------------------------- digits from the right

  /** What stands in the buffer after j digits. */
  function Emitted(v: nat, j: nat, scale: int): string {
    if 1 <= scale <= j then LastDigits(DropDigits(v, scale), j - scale) + "." + LastDigits(v, scale)
    else LastDigits(v, j)
  }

  /** The next digit goes in front, and the point in front of that when it completes the fraction. */
  lemma EmitOne(v: nat, j: nat, scale: int)
    ensures Emitted(v, j + 1, scale)
         == (if j == scale - 1 then "." else "") + [CharOf(v / Pow10(j) % 10)] + Emitted(v, j, scale)
  {
    var c := [CharOf(v / Pow10(j) % 10)];
    if 1 <= scale <= j {
      DivideByPowers(v, scale, j - scale);
      NextDigit(DropDigits(v, scale), j - scale);
      var a, b := LastDigits(DropDigits(v, scale), j - scale), LastDigits(v, scale);
      assert (c + a) + "." + b == "" + c + (a + "." + b);
    } else if j == scale - 1 {
      NextDigit(v, j);
      assert LastDigits(DropDigits(v, scale), 0) + "." + (c + LastDigits(v, j)) == "." + c + LastDigits(v, j);
    } else {
      NextDigit(v, j);
      assert c + LastDigits(v, j) == "" + c + LastDigits(v, j);
    }
  }

  function EmittedLength(j: nat, scale: int): nat {
    if 1 <= scale <= j then j + 1 else j
  }

  lemma EmittedHasLength(v: nat, j: nat, scale: int)
    ensures |Emitted(v, j, scale)| == EmittedLength(j, scale)
  {
  }

  /** Digits and point of a whole number of digits. */
  function DigitsWithPoint(v: nat, scale: int): string {
    if v == 0 then "0" else Emitted(v, DigitCount(v), scale)
  }

  lemma Power39()
    ensures Pow10(39) == 1_000_000_000_000_000_000_000_000_000_000_000_000_000
  {
    PowerOfSum(20, 19);
    assert Pow10(10) == 10_000_000_000;
    PowerOfSum(10, 10);
    PowerOfSum(10, 9);
    assert Pow10(10) == 10 * Pow10(9);
  }

  /** 39 digits are enough for every 128-bit magnitude. */
  lemma Exhausted(v: nat)
    requires v < MAGNITUDE_LIMIT
    ensures v < Pow10(39) && v / Pow10(39) == 0 && DigitCount(v) <= 39
  {
    Power39();
    hide Pow10;
    DivisionIsUnique(v, 0, v, Pow10(39));
    DigitCountBounds(v);
    if DigitCount(v) > 39 {
      PowersGrow(39, DigitCount(v) - 1);
    }
  }

  /** Dividing until nothing is left counts the digits. */
  lemma DigitsUsedUp(v: nat, j: nat)
    requires j >= 1 && v > 0 && v / Pow10(j) == 0 && Pow10(j - 1) <= v
    ensures DigitCount(v) == j
  {
    assert v == Pow10(j) * (v / Pow10(j)) + v % Pow10(j);
    DigitCountIs(v, j);
  }

  // ---------------------------------------------------------------------------------- the buffer

  /** Room that the text and its sign take in front of the terminating byte. */
  function Room(scale: int): nat {
    1 + (if scale < 0 then 39 - scale else if scale <= 38 then 40 else scale + 2)
  }

  function BytePair(b: seq<int>, k: nat): int
    requires |b| == 16 && k < 8
  {
    b[2 * k + 1] * 0x100 + b[2 * k]
  }

  /** The sixteen bytes as eight words, most significant first. */
  method Expand(val: array<int>) returns (expanded: array<int>)
    requires val.Length == 16 && Bytes(val[..])
    ensures fresh(expanded) && expanded.Length == 8
    ensures Canonical(Reversed(expanded[..])) && Value(Reversed(expanded[..])) == Magnitude(val[..])
  {
    expanded := new int[8](_ => 0);
    for i := 0 to 8
      invariant forall k :: 0 <= k < i ==> expanded[7 - k] == BytePair(val[..], k)
    {
      expanded[7 - i] := val[2 * i + 1] * 0x100 + val[2 * i];
    }
    ExpandedValue(val[..], expanded[..]);
  }

  lemma ExpandedValue(b: seq<int>, e: seq<int>)
    requires Bytes(b) && |e| == 8
    requires forall k :: 0 <= k < 8 ==> e[7 - k] == BytePair(b, k)
    ensures Canonical(Reversed(e)) && Value(Reversed(e)) == Magnitude(b)
  {
    assert e[7] == BytePair(b, 0) && e[6] == BytePair(b, 1) && e[5] == BytePair(b, 2) && e[4] == BytePair(b, 3)
           && e[3] == BytePair(b, 4) && e[2] == BytePair(b, 5) && e[1] == BytePair(b, 6) && e[0] == BytePair(b, 7);
    forall i | 0 <= i < 8
      ensures 0 <= Reversed(e)[i] < LIMB_MODULUS
    {
      assert Reversed(e)[i] == e[7 - i] == BytePair(b, i);
    }
  }

  /** One digit: divide the words from the first that is not zero. */
  method TakeDigit(expanded: array<int>, maxSpace: nat) returns (digit: int)
    requires expanded.Length == 8 && maxSpace <= 7 && Canonical(Reversed(expanded[..]))
    requires forall i :: 0 <= i < maxSpace ==> expanded[i] == 0
    modifies expanded
    ensures Canonical(Reversed(expanded[..]))
    ensures Value(Reversed(expanded[..])) == Value(Reversed(old(expanded[..]))) / 10
    ensures digit == Value(Reversed(old(expanded[..]))) % 10
    ensures forall i :: 0 <= i < maxSpace ==> expanded[i] == 0
  {
    ghost var a := Reversed(expanded[..]);
    ZeroPrefix(expanded[..], maxSpace);
    SkipZeroWords(a, 7, 7 - maxSpace);
    DivideByTen(a);
    if maxSpace < 7 {
      UnscaleBE(expanded, maxSpace);
    }
    ghost var b := Reversed(expanded[..]);
    assert b == UnscaleFrom(a, 7);
    digit := expanded[7] % 10;
    expanded[7] := expanded[7] / 10;
    LastWordDivided(b, Reversed(expanded[..]));
    ValueBounds(a);
    ValueBounds(Reversed(expanded[..]));
  }

  lemma ZeroPrefix(e: seq<int>, n: nat)
    requires |e| == 8 && n <= 7 && forall i :: 0 <= i < n ==> e[i] == 0
    ensures forall k :: 7 - n < k <= 7 ==> Reversed(e)[k] == 0
  {
    forall k | 7 - n < k <= 7
      ensures Reversed(e)[k] == 0
    {
      ReversedAt(e, 7 - k);
    }
  }

  lemma LastWordDivided(b: seq<int>, c: seq<int>)
    requires |b| == |c| == 8 && c[0] == b[0] / 10 && forall k :: 1 <= k < 8 ==> c[k] == b[k]
    ensures c == b[0 := b[0] / 10]
  {
  }

  /** The buffer holds the text t right in front of its terminating byte at end; pos is the next byte to fill. */
  ghost predicate Holds(buf: seq<char>, pos: int, end: nat, t: string) {
    -1 <= pos && pos + 1 + |t| == end < |buf| && buf[pos + 1..end] == t && buf[end] == NUL
  }

  method Put(buf: array<char>, pos: int, c: char, ghost end: nat, ghost t: string) returns (p: int)
    requires Holds(buf[..], pos, end, t) && pos >= 0
    modifies buf
    ensures p == pos - 1 && Holds(buf[..], p, end, [c] + t)
  {
    buf[pos] := c;
    p := pos - 1;
    assert buf[p + 1..end] == [c] + buf[pos + 1..end];
  }

  /** One round of the loop over digits. */
  method PutDigit(expanded: array<int>, maxSpace: nat, buf: array<char>, pos: int, j: nat, scale: int,
                  ghost v: nat, ghost end: nat) returns (p: int)
    requires expanded.Length == 8 && maxSpace <= 7 && Canonical(Reversed(expanded[..]))
    requires forall i :: 0 <= i < maxSpace ==> expanded[i] == 0
    requires Value(Reversed(expanded[..])) == v / Pow10(j)
    requires Holds(buf[..], pos, end, Emitted(v, j, scale)) && pos >= 1
    modifies expanded, buf
    ensures Canonical(Reversed(expanded[..])) && Value(Reversed(expanded[..])) == v / Pow10(j + 1)
    ensures Holds(buf[..], p, end, Emitted(v, j + 1, scale))
    ensures forall i :: 0 <= i < maxSpace ==> expanded[i] == 0
  {
    hide Value, Canonical, Emitted;
    DivideOnce(v, j);
    EmitOne(v, j, scale);
    var digit := TakeDigit(expanded, maxSpace);
    p := Put(buf, pos, CharOf(digit), end, Emitted(v, j, scale));
    if j == scale - 1 {
      p := Put(buf, p, '.', end, [CharOf(digit)] + Emitted(v, j, scale));
      assert ['.'] + ([CharOf(digit)] + Emitted(v, j, scale)) == "." + [CharOf(digit)] + Emitted(v, j, scale);
    } else {
      assert [CharOf(digit)] + Emitted(v, j, scale) == "" + [CharOf(digit)] + Emitted(v, j, scale);
    }
  }

  /** The state between two rounds of the loop over digits. */
  ghost predicate Printing(e: seq<int>, buf: seq<char>, pos: int, end: nat, scale: int, v: nat, j: nat) {
    && |e| == 8 && Canonical(Reversed(e)) && Value(Reversed(e)) == v / Pow10(j)
    && Holds(buf, pos, end, Emitted(v, j, scale))
    && (j > 0 ==> v / Pow10(j - 1) > 0)
  }

  /** Skip the empty prefix, stopping at the last word. */
  method SkipEmpty(expanded: array<int>, from: nat) returns (maxSpace: nat)
    requires expanded.Length == 8 && from <= 7 && forall i :: 0 <= i < from ==> expanded[i] == 0
    ensures from <= maxSpace <= 7 && forall i :: 0 <= i < maxSpace ==> expanded[i] == 0
    ensures maxSpace < 7 ==> expanded[maxSpace] != 0
  {
    maxSpace := from;
    while maxSpace < 7 && expanded[maxSpace] == 0
      invariant from <= maxSpace <= 7 && forall i :: 0 <= i < maxSpace ==> expanded[i] == 0
    {
      maxSpace := maxSpace + 1;
    }
  }

  lemma AnythingLeft(e: seq<int>, maxSpace: nat, v: int)
    requires |e| == 8 && Canonical(Reversed(e)) && Value(Reversed(e)) == v
    requires maxSpace <= 7 && forall i :: 0 <= i < maxSpace ==> e[i] == 0
    requires maxSpace < 7 ==> e[maxSpace] != 0
    ensures maxSpace == 7 && e[7] == 0 <==> v == 0
  {
    if maxSpace < 7 {
      ReversedAt(e, maxSpace);
      ValuePositive(Reversed(e), 7 - maxSpace);
    }
  }

  lemma ValuePositive(a: seq<int>, i: nat)
    requires Words(a) && i < 8 && a[i] > 0
    ensures Value(a) > 0
  {
  }

  /** One round: either a digit more, or the end. */
  method PrintRound(expanded: array<int>, from: nat, buf: array<char>, pos: int, end: nat, scale: int,
                    ghost v: nat, j: nat) returns (maxSpace: nat, p: int, done: bool)
    requires expanded.Length == 8 && Printing(expanded[..], buf[..], pos, end, scale, v, j)
    requires from <= 7 && forall i :: 0 <= i < from ==> expanded[i] == 0
    requires pos >= 1
    modifies expanded, buf
    ensures maxSpace <= 7 && forall i :: 0 <= i < maxSpace ==> expanded[i] == 0
    ensures done <==> v / Pow10(j) == 0
    ensures done ==> p == pos && buf[..] == old(buf[..]) && expanded[..] == old(expanded[..])
    ensures !done ==> Printing(expanded[..], buf[..], p, end, scale, v, j + 1)
  {
    hide Value, Canonical, Emitted, Holds, Pow10, Reversed;
    maxSpace := SkipEmpty(expanded, from);
    AnythingLeft(expanded[..], maxSpace, v / Pow10(j));
    p, done := pos, maxSpace >= 7 && expanded[7] == 0;
    if !done {
      QuotientNonNegative(v, Pow10(j));
      p := PutDigit(expanded, maxSpace, buf, pos, j, scale, v, end);
    }
  }

  /** The loop over digits: it ends as soon as nothing is left to divide, which is after 39 rounds at the latest. */
  method PrintDigits(expanded: array<int>, buf: array<char>, end: nat, scale: int, ghost v: nat)
    returns (pos: int, calcprec: int)
    requires expanded.Length == 8 && Canonical(Reversed(expanded[..])) && Value(Reversed(expanded[..])) == v
    requires v < MAGNITUDE_LIMIT && 41 <= end < buf.Length && buf[end] == NUL
    modifies expanded, buf
    ensures calcprec == DigitCount(v)
    ensures Holds(buf[..], pos, end, DigitsWithPoint(v, scale))
  {
    Exhausted(v);
    StartPrinting(expanded[..], buf[..], end, scale, v);
    hide Printing, Value, Canonical, Emitted;
    pos, calcprec := end - 1, 0;
    var maxSpace, done := 0, false;
    var j := 0;
    while j < 39
      invariant 0 <= j <= 39 && calcprec == j
      invariant 0 <= maxSpace <= 7 && forall i :: 0 <= i < maxSpace ==> expanded[i] == 0
      invariant Printing(expanded[..], buf[..], pos, end, scale, v, j)
    {
      PositionInBuffer(expanded[..], buf[..], pos, end, scale, v, j);
      maxSpace, pos, done := PrintRound(expanded, maxSpace, buf, pos, end, scale, v, j);
      if done {
        break;
      }
      calcprec := calcprec + 1;
      j := j + 1;
    }
    PrintingDone(expanded[..], buf[..], pos, end, scale, v, j);
    if buf[pos + 1] == NUL {
      pos := Put(buf, pos, '0', end, "");
      calcprec := 1;
      assert ['0'] + "" == "0";
    }
  }

  lemma StartPrinting(e: seq<int>, buf: seq<char>, end: nat, scale: int, v: nat)
    requires |e| == 8 && Canonical(Reversed(e)) && Value(Reversed(e)) == v && end < |buf| && buf[end] == NUL
    ensures Printing(e, buf, end - 1, end, scale, v, 0)
  {
    assert v / Pow10(0) == v;
  }

  lemma PositionInBuffer(e: seq<int>, buf: seq<char>, pos: int, end: nat, scale: int, v: nat, j: nat)
    requires Printing(e, buf, pos, end, scale, v, j) && j < 39 && end >= 41
    ensures pos >= 1
  {
    EmittedHasLength(v, j, scale);
  }

  lemma PrintingDone(e: seq<int>, buf: seq<char>, pos: int, end: nat, scale: int, v: nat, j: nat)
    requires Printing(e, buf, pos, end, scale, v, j) && v / Pow10(j) == 0
    ensures 0 <= pos + 1 < |buf|
    ensures v > 0 ==> DigitCount(v) == j && buf[pos + 1] != NUL && Holds(buf, pos, end, DigitsWithPoint(v, scale))
    ensures v == 0 ==> j == 0 && buf[pos + 1] == NUL && Holds(buf, pos, end, "") && pos + 1 == end
  {
    EmittedHasLength(v, j, scale);
    if v == 0 {
      NothingToDivide(j);
    } else {
      NothingLeft(v, j);
      FirstCharacter(v, j, scale);
      assert buf[pos + 1..end][0] == buf[pos + 1];
    }
  }

  lemma NothingToDivide(j: nat)
    ensures j > 0 ==> 0 / Pow10(j - 1) == 0
  {
    if j > 0 {
      DivisionIsUnique(0, 0, 0, Pow10(j - 1));
    }
  }

  lemma FirstCharacter(v: nat, j: nat, scale: int)
    requires j > 0
    ensures Emitted(v, j, scale) != "" && Emitted(v, j, scale)[0] != NUL
  {
    EmittedHasLength(v, j, scale);
    if 1 <= scale <= j && j > scale {
      assert Emitted(v, j, scale)[0] == LastDigits(DropDigits(v, scale), j - scale)[0];
    }
  }

  lemma NothingLeft(v: nat, j: nat)
    requires v > 0 && v / Pow10(j) == 0 && (j > 0 ==> v / Pow10(j - 1) > 0)
    ensures j > 0 && DigitCount(v) == j
  {
    if j > 0 {
      assert v == Pow10(j - 1) * (v / Pow10(j - 1)) + v % Pow10(j - 1);
      Monotone(Pow10(j - 1), 1, v / Pow10(j - 1));
      DigitsUsedUp(v, j);
    }
  }

  // ---------------------------------------------------------------------------------- padding, truncation, sign

  lemma {:induction false} SplitDigits(v: nat, m: nat, n: nat)
    ensures LastDigits(v, m + n) == LastDigits(DropDigits(v, n), m) + LastDigits(v, n)
    decreases n
  {
    if n == 0 {
      assert v / Pow10(0) == v;
      assert LastDigits(v, m) + "" == LastDigits(v, m);
    } else {
      SplitDigits(v / 10, m, n - 1);
      DivideFirst(v, n - 1);
      var a, b, c := LastDigits(DropDigits(v, n), m), LastDigits(v / 10, n - 1), [CharOf(v % 10)];
      assert (a + b) + c == a + (b + c);
    }
  }

  /** The text before zeros are added for a negative scale. */
  function FractionText(v: nat, scale: int): string {
    if scale <= 0 then DecimalDigits(v) else PlainText(v, scale)
  }

  lemma AllDigitsPrinted(v: nat, scale: int)
    ensures scale <= DigitCount(v) ==> DigitsWithPoint(v, scale) == FractionText(v, scale)
    ensures scale > DigitCount(v) ==> DigitsWithPoint(v, scale) == DecimalDigits(v)
  {
    var n := DigitCount(v);
    if v == 0 {
      assert LastDigits(0, 1) == LastDigits(0, 0) + ['0'] == "0";
    } else if 1 <= scale <= n {
      SplitDigits(v, n - scale, scale);
    }
  }

  lemma PlainTextLength(v: nat, scale: int)
    requires v < MAGNITUDE_LIMIT
    ensures |FractionText(v, scale)| <= |PlainText(v, scale)| <= Room(scale) - 1
    ensures |FractionText(v, scale)| + (if scale < 0 then -scale else 0) <= Room(scale) - 1
  {
    Exhausted(v);
  }

  lemma PrependZero(n: nat, d: string)
    ensures ['0'] + (Zeros(n) + d) == Zeros(n + 1) + d
  {
    assert ['0'] + Zeros(n) == Zeros(n + 1);
  }

  lemma PrependPoint(z: string, d: string)
    ensures ['0'] + (['.'] + (z + d)) == "0." + z + d
  {
  }

  method PutZeros(buf: array<char>, start: int, count: nat, ghost end: nat, ghost d: string) returns (pos: int)
    requires Holds(buf[..], start, end, d) && start >= count
    modifies buf
    ensures pos == start - count && Holds(buf[..], pos, end, Zeros(count) + d)
  {
    pos := start;
    assert Zeros(0) + d == d;
    for k := 0 to count
      invariant pos == start - k && Holds(buf[..], pos, end, Zeros(k) + d)
    {
      pos := Put(buf, pos, '0', end, Zeros(k) + d);
      PrependZero(k, d);
    }
  }

  /** Zeros behind the point of a number that is less than its scale long. */
  method PadZeros(buf: array<char>, start: int, calcprec: int, reqscale: int, ghost end: nat, ghost d: string)
    returns (pos: int)
    requires Holds(buf[..], start, end, d) && |d| == calcprec < reqscale && end >= reqscale + 2
    modifies buf
    ensures Holds(buf[..], pos, end, "0." + Zeros(reqscale - calcprec) + d)
  {
    var z := reqscale - calcprec;
    pos := PutZeros(buf, start, z, end, d);
    pos := Put(buf, pos, '.', end, Zeros(z) + d);
    pos := Put(buf, pos, '0', end, ['.'] + (Zeros(z) + d));
    PrependPoint(Zeros(z), d);
  }

  method PadFraction(buf: array<char>, start: int, calcprec: int, reqscale: int, ghost end: nat, ghost v: nat)
    returns (pos: int, scale: int)
    requires v < MAGNITUDE_LIMIT && calcprec == DigitCount(v) && end >= Room(reqscale)
    requires Holds(buf[..], start, end, DigitsWithPoint(v, reqscale))
    modifies buf
    ensures Holds(buf[..], pos, end, FractionText(v, reqscale))
    ensures scale == if calcprec < reqscale then calcprec else reqscale
  {
    hide Holds, LastDigits, DigitsWithPoint;
    AllDigitsPrinted(v, reqscale);
    pos, scale := start, reqscale;
    if calcprec < reqscale {
      pos := PadZeros(buf, start, calcprec, reqscale, end, DecimalDigits(v));
      scale := calcprec;
    }
  }

  /** Zeros behind the digits, for a negative scale: the digits move to the left first. */
  method AppendZeros(buf: array<char>, start: int, calcprec: nat, zeros: nat, end: nat, ghost d: string)
    returns (pos: int)
    requires Holds(buf[..], start, end, d) && |d| == calcprec && start - zeros >= -1
    modifies buf
    ensures pos == start - zeros && Holds(buf[..], pos, end, d + Zeros(zeros))
  {
    assert forall k :: 0 <= k < calcprec ==> buf[start + 1 + k] == buf[start + 1..end][k] == d[k];
    for i := 0 to calcprec
      invariant forall k :: 0 <= k < i ==> buf[start + 1 + k - zeros] == d[k]
      invariant forall k :: i <= k < calcprec ==> buf[start + 1 + k] == d[k]
      invariant buf[end] == NUL
    {
      buf[start + 1 + i - zeros] := buf[start + 1 + i];
    }
    pos := start - zeros;
    for i := pos + calcprec + 1 to end
      invariant forall k :: 0 <= k < calcprec ==> buf[pos + 1 + k] == d[k]
      invariant forall k :: pos + calcprec + 1 <= k < i ==> buf[k] == '0'
      invariant buf[end] == NUL
    {
      buf[i] := '0';
    }
    assert buf[pos + 1..end] == d + Zeros(zeros);
  }

  /** The text t with its last k characters cut off, and the point too when that is what is left at the end. */
  function CutText(t: string, k: nat): (c: string)
    requires k <= |t|
    ensures c <= t
  {
    var c := t[..|t| - k];
    if c != "" && c[|c| - 1] == '.' then c[..|c| - 1] else c
  }

  /** How many digits behind the point can be cut at all. */
  function FractionDigits(n: nat, scale: int): int {
    if n < scale then n else scale
  }

  /** The text without sign that the conversion prints, and whether it had to truncate. */
  function PrintedUnsigned(v: nat, reqprec: int, scale: int): (Truncation, string)
    requires 0 <= reqprec
  {
    var n := DigitCount(v);
    var t := PlainText(v, scale);
    if n <= reqprec || scale <= 0 then (NoTruncation, t)
    else if n - reqprec > FractionDigits(n, scale) || n - reqprec > |t| then (WholeTruncated, "")
    else (FractionTruncated, CutText(t, n - reqprec))
  }

  function Printed(v: nat, positive: bool, reqprec: int, scale: int): (Truncation, string)
    requires 0 <= reqprec
  {
    var (trunc, t) := PrintedUnsigned(v, reqprec, scale);
    (trunc, SignedText(positive, t))
  }

  /** The text t starts at begin and a terminating byte follows it. */
  ghost predicate Shows(buf: seq<char>, begin: int, t: string) {
    0 <= begin && begin + |t| < |buf| && buf[begin..begin + |t|] == t && buf[begin + |t|] == '\0'
  }

  lemma HoldsShows(buf: seq<char>, pos: int, end: nat, t: string)
    requires Holds(buf, pos, end, t)
    ensures Shows(buf, pos + 1, t)
  {
  }

  /** The last character before the terminating byte. */
  method LastCharacter(buf: array<char>, pos: int, ghost end: nat, ghost t: string) returns (last: int)
    requires Holds(buf[..], pos, end, t) && forall k :: 0 <= k < |t| ==> t[k] != NUL
    ensures last == pos + |t|
  {
    last := pos;
    assert forall x :: pos < x <= pos + |t| ==> buf[x] == buf[pos + 1..end][x - pos - 1] == t[x - pos - 1];
    assert forall x :: pos < x <= pos + |t| ==> buf[x] != NUL;
    while buf[last + 1] != NUL
      invariant pos <= last <= pos + |t|
      decreases pos + |t| - last
    {
      last := last + 1;
    }
  }

  /** The loop that cuts characters from the end until the precision or the fraction is used up. */
  method CutCharacters(buf: array<char>, pos: int, calcprec: int, reqprec: int, reqscale: int, at: int, ghost t: string)
    returns (last: int, prec: int, scale: int)
    requires Shows(buf[..], pos + 1, t) && at == pos + |t| && pos >= 0
    requires calcprec > reqprec && 0 < reqscale <= |t|
    modifies buf
    ensures reqprec <= prec <= calcprec && 0 <= scale <= reqscale && (prec == reqprec || scale == 0)
    ensures calcprec - prec == reqscale - scale == pos + |t| - last
    ensures Shows(buf[..], pos + 1, t[..last - pos])
  {
    last, prec, scale := at, calcprec, reqscale;
    assert t[..|t|] == t;
    while prec > reqprec && scale != 0
      invariant reqprec <= prec <= calcprec && 0 <= scale <= reqscale
      invariant calcprec - prec == reqscale - scale == pos + |t| - last
      invariant Shows(buf[..], pos + 1, t[..last - pos])
    {
      buf[last] := NUL;
      last, prec, scale := last - 1, prec - 1, scale - 1;
      assert buf[pos + 1..pos + 1 + (last - pos)] == t[..last - pos];
    }
  }

  /** The point goes too if it is what is left at the end. */
  method CutPoint(buf: array<char>, pos: int, last: int, ghost c: string)
    requires Shows(buf[..], pos + 1, c) && last == pos + |c| && pos >= 0
    modifies buf
    ensures Shows(buf[..], pos + 1, if c != "" && c[|c| - 1] == '.' then c[..|c| - 1] else c)
  {
    assert c == buf[pos + 1..last + 1];
    if buf[last] == '.' {
      if last > pos {
        assert c[|c| - 1] == '.';
      }
      buf[last] := NUL;
      assert last > pos ==> buf[pos + 1..last] == c[..|c| - 1];
    }
  }

  /** Cut fractional digits that the precision does not cover. */
  method CutFraction(buf: array<char>, pos: int, calcprec: int, reqprec: int, reqscale: int,
                     ghost end: nat, ghost t: string) returns (trunc: Truncation, prec: int)
    requires Holds(buf[..], pos, end, t) && pos >= 0 && calcprec > reqprec && 0 < reqscale <= |t|
    requires forall k :: 0 <= k < |t| ==> t[k] != NUL
    modifies buf
    ensures trunc == if calcprec - reqprec > reqscale then WholeTruncated else FractionTruncated
    ensures trunc == FractionTruncated ==> prec == reqprec && Shows(buf[..], pos + 1, CutText(t, calcprec - reqprec))
  {
    HoldsShows(buf[..], pos, end, t);
    var last := LastCharacter(buf, pos, end, t);
    hide Holds;
    var scale;
    last, prec, scale := CutCharacters(buf, pos, calcprec, reqprec, reqscale, last, t);
    if prec > reqprec && scale == 0 {
      return WholeTruncated, prec;
    }
    CutPoint(buf, pos, last, t[..last - pos]);
    trunc := FractionTruncated;
  }

  /** The minus sign in front of a text that is already closed. */
  method PutSign(buf: array<char>, pos: int, ghost t: string) returns (p: int)
    requires Shows(buf[..], pos + 1, t) && pos >= 0
    modifies buf
    ensures p == pos - 1 && Shows(buf[..], pos, "-" + t)
  {
    buf[pos] := '-';
    p := pos - 1;
    assert buf[pos..pos + 1 + |t|] == "-" + t;
  }

  lemma PlainTextCharacters(v: nat, scale: int)
    ensures forall k :: 0 <= k < |FractionText(v, scale)| ==> FractionText(v, scale)[k] != NUL
    ensures scale > 0 ==> |FractionText(v, scale)| >= (if DigitCount(v) < scale then DigitCount(v) else scale)
  {
  }

  lemma TextParts(v: nat, scale: int)
    ensures scale >= 0 ==> PlainText(v, scale) == FractionText(v, scale)
    ensures scale < 0 ==> |FractionText(v, scale)| == DigitCount(v)
                          && PlainText(v, scale) == FractionText(v, scale) + Zeros(-scale)
  {
    if scale == 0 {
      assert DecimalDigits(v) + Zeros(0) == DecimalDigits(v);
    }
  }

  lemma TextFacts(v: nat, scale: int, buf: seq<char>, pos: int, end: nat)
    requires v < MAGNITUDE_LIMIT && Holds(buf, pos, end, FractionText(v, scale)) && Room(scale) <= end
    ensures pos >= 0 && (scale < 0 ==> pos + scale >= 0) && Shows(buf, pos + 1, FractionText(v, scale))
    ensures scale > 0 ==> |FractionText(v, scale)| >= FractionDigits(DigitCount(v), scale)
    ensures forall k :: 0 <= k < |FractionText(v, scale)| ==> FractionText(v, scale)[k] != NUL
    ensures scale >= 0 ==> PlainText(v, scale) == FractionText(v, scale)
    ensures scale < 0 ==> |FractionText(v, scale)| == DigitCount(v)
                          && PlainText(v, scale) == FractionText(v, scale) + Zeros(-scale)
  {
    PlainTextLength(v, scale);
    PlainTextCharacters(v, scale);
    TextParts(v, scale);
    HoldsShows(buf, pos, end, FractionText(v, scale));
    hide PlainText, FractionText, DigitCount;
  }

  /** Truncation, once all digits and padding stand in the buffer. */
  method Trim(buf: array<char>, pos: int, end: nat, prec: int, reqprec: int, reqscale: int, scale: int, ghost v: nat)
    returns (calcprec: int, trunc: Truncation)
    requires prec == DigitCount(v) && 0 <= reqprec && 0 <= reqscale && scale == FractionDigits(prec, reqscale)
    requires pos >= 0 && Holds(buf[..], pos, end, PlainText(v, reqscale))
    requires forall k :: 0 <= k < |PlainText(v, reqscale)| ==> PlainText(v, reqscale)[k] != NUL
    requires reqscale > 0 ==> |PlainText(v, reqscale)| >= scale
    modifies buf
    ensures trunc == PrintedUnsigned(v, reqprec, reqscale).0
    ensures trunc != WholeTruncated ==> Shows(buf[..], pos + 1, PrintedUnsigned(v, reqprec, reqscale).1)
    ensures trunc == NoTruncation ==> calcprec == prec
    ensures trunc == FractionTruncated ==> calcprec == reqprec
  {
    hide DigitCount;
    ghost var t := PlainText(v, reqscale);
    hide PlainText, CutText;
    HoldsShows(buf[..], pos, end, t);
    calcprec, trunc := prec, NoTruncation;
    if calcprec > reqprec && scale > 0 {
      trunc, calcprec := CutFraction(buf, pos, calcprec, reqprec, scale, end, t);
    }
  }

  lemma NegativeScalePrinted(v: nat, reqprec: int, scale: int)
    requires scale < 0 <= reqprec
    ensures PrintedUnsigned(v, reqprec, scale) == (NoTruncation, PlainText(v, scale))
  {
  }

  /** The text without its sign: digits, padding, then truncation or zeros for a negative scale. */
  method PrintUnsigned(val: array<int>, buf: array<char>, end: nat, reqprec: int, reqscale: int, ghost v: nat)
    returns (pos: int, calcprec: int, trunc: Truncation)
    requires val.Length == 16 && Bytes(val[..]) && Magnitude(val[..]) == v < MAGNITUDE_LIMIT
    requires 0 <= reqprec && -0x80 < reqscale < 0x80 && Room(reqscale) <= end < buf.Length && buf[end] == NUL
    modifies buf
    ensures trunc == PrintedUnsigned(v, reqprec, reqscale).0
    ensures trunc != WholeTruncated ==> pos >= 0 && Shows(buf[..], pos + 1, PrintedUnsigned(v, reqprec, reqscale).1)
    ensures trunc == NoTruncation ==> calcprec == DigitCount(v)
    ensures trunc == FractionTruncated ==> calcprec == reqprec
  {
    hide Value, Magnitude, DigitsWithPoint, FractionText, DigitCount, Holds, Shows, PrintedUnsigned, PlainText;
    var expanded := Expand(val);
    pos, calcprec := PrintDigits(expanded, buf, end, reqscale, v);
    var scale;
    pos, scale := PadFraction(buf, pos, calcprec, reqscale, end, v);
    TextFacts(v, reqscale, buf[..], pos, end);
    if reqscale >= 0 {
      calcprec, trunc := Trim(buf, pos, end, calcprec, reqprec, reqscale, scale, v);
    } else {
      NegativeScalePrinted(v, reqprec, reqscale);
      pos := AppendZeros(buf, pos, calcprec, -reqscale, end, FractionText(v, reqscale));
      trunc := NoTruncation;
      HoldsShows(buf[..], pos, end, PlainText(v, reqscale));
    }
  }

  lemma MagnitudeBounds(b: seq<int>)
    requires Bytes(b)
    ensures 0 <= Magnitude(b) < MAGNITUDE_LIMIT
  {
  }

  /** Print the magnitude of sqlnum, divided by ten to the requested scale, with its sign. The text starts at begin and
      is closed by a terminating byte; scale and precision are written back. A WholeTruncated result leaves nothing
      to read. */
  method ToStr(sqlnum: SqlNumeric, buf: array<char>, end: nat, reqprec: int, reqscale: int)
    returns (begin: int, trunc: Truncation)
    requires sqlnum.Valid() && sqlnum.val.Length == 16
    requires 0 <= reqprec < 0x100 && -0x80 < reqscale < 0x80
    requires Room(reqscale) <= end < buf.Length
    modifies sqlnum`scale, sqlnum`precision, buf
    ensures sqlnum.scale == reqscale
    ensures 0 <= Magnitude(sqlnum.val[..]) < MAGNITUDE_LIMIT
    ensures trunc == Printed(Magnitude(sqlnum.val[..]), sqlnum.positive, reqprec, reqscale).0
    ensures trunc != WholeTruncated ==>
              Shows(buf[..], begin, Printed(Magnitude(sqlnum.val[..]), sqlnum.positive, reqprec, reqscale).1)
    ensures trunc == NoTruncation ==> sqlnum.precision == DigitCount(Magnitude(sqlnum.val[..]))
    ensures trunc == FractionTruncated ==> sqlnum.precision == reqprec
  {
    hide Magnitude, DigitCount, PrintedUnsigned, Shows;
    buf[end] := NUL;
    MagnitudeBounds(sqlnum.val[..]);
    ghost var v := Magnitude(sqlnum.val[..]);
    var pos, calcprec;
    pos, calcprec, trunc := PrintUnsigned(sqlnum.val, buf, end, reqprec, reqscale, v);
    sqlnum.scale := reqscale;
    begin := end;
    if trunc == WholeTruncated {
      return;
    }
    sqlnum.precision := calcprec;
    if !sqlnum.positive {
      pos := PutSign(buf, pos, PrintedUnsigned(v, reqprec, reqscale).1);
    }
    begin := pos + 1;
  }
}
