/** Facts about division, powers of ten and decimal numerals. */
module Numbers {

  function Pow10(n: nat): (p: int)
    ensures p >= 1
  {
    if n == 0 then 1 else 10 * Pow10(n - 1)
  }

  lemma SmallPowers()
    ensures Pow10(0) == 1 && Pow10(1) == 10 && Pow10(2) == 100 && Pow10(3) == 1000 && Pow10(4) == 10000
  {
    assert Pow10(2) == 10 * Pow10(1);
    assert Pow10(3) == 10 * Pow10(2);
  }

  lemma Monotone(m: int, x: int, y: int)
    ensures m >= 0 && x <= y ==> m * x <= m * y
  {
  }

  lemma DivisionIsUnique(x: int, q: int, r: int, m: int)
    requires m > 0 && x == q * m + r && 0 <= r < m
    ensures x / m == q && x % m == r
  {
    var q', r' := x / m, x % m;
    assert x == m * q' + r';
    Monotone(m, q + 1, q');
    Monotone(m, q' + 1, q);
  }

  lemma AddMultiple(x: int, k: int, m: int)
    requires m > 0
    ensures (x + k * m) % m == x % m
  {
    var q, r := x / m, x % m;
    assert x == m * q + r;
    assert x + k * m == (q + k) * m + r;
    DivisionIsUnique(x + k * m, q + k, r, m);
  }

  /** Reducing before or after a multiplication is the same. */
  lemma ReduceFactor(x: int, f: int, m: int)
    requires m > 0
    ensures (x % m * f) % m == (x * f) % m
  {
    var q, r := x / m, x % m;
    assert x == m * q + r;
    assert x * f == r * f + q * f * m;
    AddMultiple(r * f, q * f, m);
  }

  lemma Associate(x: int, y: int, z: int)
    ensures x * (y * z) == x * y * z
  {
  }

  lemma OneMore(n: nat, k: nat)
    requires n > 0
    ensures (n - 1) * k + k == n * k
  {
  }

  lemma ShiftDigits(x: int, p: int, y: int)
    ensures (x * p + y) * 10 == x * (10 * p) + y * 10
  {
  }

  lemma {:induction false} PowerOfSum(m: nat, n: nat)
    ensures Pow10(m + n) == Pow10(m) * Pow10(n)
  {
    if m > 0 {
      PowerOfSum(m - 1, n);
      Associate(10, Pow10(m - 1), Pow10(n));
    }
  }

  lemma QuotientNonNegative(v: nat, p: int)
    requires p > 0
    ensures 0 <= v / p
  {
    var q := v / p;
    assert v == p * q + v % p;
    Monotone(p, q, -1);
  }

  /** v without its last n digits. */
  function DropDigits(v: nat, n: nat): (q: nat)
    ensures q == v / Pow10(n)
  {
    QuotientNonNegative(v, Pow10(n));
    v / Pow10(n)
  }

  /** Dividing by 10^k and then by ten. */
  lemma DivideOnce(v: nat, k: nat)
    ensures v / Pow10(k) / 10 == v / Pow10(k + 1)
    ensures v % Pow10(k + 1) == v / Pow10(k) % 10 * Pow10(k) + v % Pow10(k)
  {
    var p := Pow10(k);
    var q, r := v / p, v % p;
    assert v == p * q + r;
    var h, d := q / 10, q % 10;
    assert q == 10 * h + d;
    assert p * q == h * (10 * p) + d * p;
    Monotone(p, d + 1, 10);
    Monotone(p, 0, d);
    DivisionIsUnique(v, h, d * p + r, 10 * p);
  }

  /** Dividing by ten and then by 10^k. */
  lemma DivideFirst(v: nat, k: nat)
    ensures v / 10 / Pow10(k) == v / Pow10(k + 1)
    ensures v % Pow10(k + 1) == v / 10 % Pow10(k) * 10 + v % 10
  {
    var p := Pow10(k);
    var q, d := v / 10, v % 10;
    var h, r := q / p, q % p;
    assert q == p * h + r;
    assert v == h * (10 * p) + (10 * r + d);
    DivisionIsUnique(v, h, 10 * r + d, 10 * p);
  }

  lemma DivideTwice(v: nat, p: int, q: int)
    requires p > 0 && q > 0
    ensures p * q > 0 && v / p / q == v / (p * q)
    ensures v % (p * q) == p * (v / p % q) + v % p
  {
    var h, r := v / p, v % p;
    assert v == p * h + r;
    var g, t := h / q, h % q;
    assert h == q * g + t;
    assert p * h == g * (p * q) + p * t by {
      Associate(p, q, g);
    }
    Monotone(p, t + 1, q);
    Monotone(p, 0, t);
    DivisionIsUnique(v, g, p * t + r, p * q);
  }

  /** Dividing by 10^a and then by 10^b. */
  lemma DivideByPowers(v: nat, a: nat, b: nat)
    ensures v / Pow10(a) / Pow10(b) == v / Pow10(a + b)
    ensures v % Pow10(a + b) == Pow10(a) * (v / Pow10(a) % Pow10(b)) + v % Pow10(a)
  {
    hide Pow10;
    DivideTwice(v, Pow10(a), Pow10(b));
    PowerOfSum(a, b);
  }

  /** A number is divisible by 10^(a+b) if its last a digits are zeros and the b digits in front of them, too. */
  lemma DivisibleTwice(v: nat, a: nat, b: nat)
    ensures v % Pow10(a + b) == 0 <==> v % Pow10(a) == 0 && v / Pow10(a) % Pow10(b) == 0
  {
    DivideByPowers(v, a, b);
    Monotone(Pow10(a), 1, v / Pow10(a) % Pow10(b));
    hide Pow10;
  }

  // ---------------------------------------------------------------------------------- digits

  /** White space as the C library has it. */
  predicate IsWhiteSpace(c: char) {
    c == ' ' || '\t' <= c <= '\r'
  }

  predicate IsDigit(c: char) {
    '0' <= c <= '9'
  }

  predicate AllDigits(s: string) {
    forall i :: 0 <= i < |s| ==> IsDigit(s[i])
  }

  function DigitOf(c: char): (d: int)
    requires IsDigit(c)
    ensures 0 <= d <= 9
  {
    c as int - '0' as int
  }

  function CharOf(d: int): (c: char)
    requires 0 <= d <= 9
    ensures IsDigit(c) && DigitOf(c) == d
  {
    ('0' as int + d) as char
  }

  /** The integer a string of digits spells; leading zeros count for nothing. */
  function NatOf(s: string): nat
    requires AllDigits(s)
  {
    if s == "" then 0 else NatOf(s[..|s| - 1]) * 10 + DigitOf(s[|s| - 1])
  }

  lemma {:induction false} NatOfConcat(a: string, b: string)
    requires AllDigits(a) && AllDigits(b)
    ensures AllDigits(a + b)
    ensures NatOf(a + b) == NatOf(a) * Pow10(|b|) + NatOf(b)
  {
    if b == "" {
      assert a + b == a;
    } else {
      var c := b[..|b| - 1];
      NatOfConcat(a, c);
      assert (a + b)[..|a + b| - 1] == a + c;
      ShiftDigits(NatOf(a), Pow10(|c|), NatOf(c));
    }
  }

  lemma {:induction false} NatOfBound(s: string)
    requires AllDigits(s)
    ensures NatOf(s) < Pow10(|s|)
  {
    if s != "" {
      NatOfBound(s[..|s| - 1]);
    }
  }

  /** The last n decimal digits of v, most significant first. */
  function LastDigits(v: nat, n: nat): (s: string)
    ensures |s| == n && AllDigits(s)
  {
    if n == 0 then "" else LastDigits(v / 10, n - 1) + [CharOf(v % 10)]
  }

  lemma {:induction false} LastDigitsSpell(v: nat, n: nat)
    ensures NatOf(LastDigits(v, n)) == v % Pow10(n)
  {
    if n == 0 {
      assert v % 1 == 0;
    } else {
      LastDigitsSpell(v / 10, n - 1);
      DivideFirst(v, n - 1);
      assert LastDigits(v, n)[..n - 1] == LastDigits(v / 10, n - 1);
    }
  }

  /** Writing digits from the right: the next one to go in front. */
  lemma {:induction false} NextDigit(v: nat, n: nat)
    ensures LastDigits(v, n + 1) == [CharOf(v / Pow10(n) % 10)] + LastDigits(v, n)
  {
    if n == 0 {
      assert v / 1 == v;
      assert LastDigits(v / 10, 0) == "";
    } else {
      NextDigit(v / 10, n - 1);
      DivideFirst(v, n - 1);
    }
  }

  /** How many decimal digits v has; zero has one. */
  function DigitCount(v: nat): (n: nat)
    ensures n >= 1
  {
    if v < 10 then 1 else 1 + DigitCount(v / 10)
  }

  lemma {:induction false} DigitCountBounds(v: nat)
    ensures v < Pow10(DigitCount(v))
    ensures v > 0 ==> Pow10(DigitCount(v) - 1) <= v
  {
    if v >= 10 {
      DigitCountBounds(v / 10);
    } else {
      assert Pow10(1) == 10 * Pow10(0);
    }
  }

  lemma {:induction false} PowersGrow(m: nat, n: nat)
    requires m <= n
    ensures Pow10(m) <= Pow10(n)
    decreases n - m
  {
    if m < n {
      PowersGrow(m, n - 1);
    }
  }

  lemma DigitCountIs(v: nat, n: nat)
    requires n >= 1 && v < Pow10(n) && (n > 1 ==> Pow10(n - 1) <= v)
    ensures DigitCount(v) == n
  {
    DigitCountBounds(v);
    var m := DigitCount(v);
    if m < n {
      PowersGrow(m, n - 1);
    } else if n < m {
      PowersGrow(n, m - 1);
    }
  }

  // ---------------------------------------------------------------------------------- numerals

  function IndexFrom(s: string, c: char, from: nat): (i: nat)
    requires from <= |s|
    ensures from <= i <= |s|
    ensures i < |s| ==> s[i] == c
    ensures forall k :: from <= k < i ==> s[k] != c
    decreases |s| - from
  {
    if from == |s| || s[from] == c then from else IndexFrom(s, c, from + 1)
  }

  /** Where the first c stands, or the length when there is none. */
  function IndexOf(s: string, c: char): (i: nat)
    ensures i <= |s|
    ensures i < |s| ==> s[i] == c
    ensures forall k :: 0 <= k < i ==> s[k] != c
  {
    IndexFrom(s, c, 0)
  }

  lemma IndexOfIs(s: string, c: char, i: nat)
    requires i <= |s| && (i < |s| ==> s[i] == c) && forall k :: 0 <= k < i ==> s[k] != c
    ensures IndexOf(s, c) == i
  {
    var j := IndexOf(s, c);
    assert !(j < i) && !(i < j);
  }

  /** Digits with at most one decimal point among them. */
  predicate Numeral(s: string) {
    var p := IndexOf(s, '.');
    AllDigits(s[..p]) && (p < |s| ==> AllDigits(s[p + 1..]))
  }

  /** The digits of a numeral, without its point. */
  function Digits(s: string): string {
    var p := IndexOf(s, '.');
    if p < |s| then s[..p] + s[p + 1..] else s
  }

  /** How many digits stand after the point. */
  function FractionLength(s: string): nat {
    var p := IndexOf(s, '.');
    if p < |s| then |s| - p - 1 else 0
  }

  lemma NumeralDigits(s: string)
    requires Numeral(s)
    ensures AllDigits(Digits(s))
    ensures |Digits(s)| == if IndexOf(s, '.') < |s| then |s| - 1 else |s|
  {
  }

  lemma NoPoint(s: string)
    requires AllDigits(s)
    ensures Numeral(s) && Digits(s) == s && IndexOf(s, '.') == |s| && FractionLength(s) == 0
  {
    IndexOfIs(s, '.', |s|);
    assert s[..|s|] == s;
  }

  /** The shape of a numeral with a point. */
  lemma WithPoint(s: string, a: string, b: string)
    requires AllDigits(a) && AllDigits(b) && s == a + "." + b
    ensures Numeral(s) && IndexOf(s, '.') == |a| && Digits(s) == a + b && FractionLength(s) == |b|
  {
    IndexOfIs(s, '.', |a|);
    assert s[..|a|] == a && s[|a| + 1..] == b;
  }

  lemma CutDigits(s: string, i: nat)
    requires AllDigits(s) && i <= |s|
    ensures AllDigits(s[..i]) && AllDigits(s[i..]) && s == s[..i] + s[i..]
  {
  }

  /** Cutting the text a.bc behind its point. */
  lemma CutBehindPoint(s: string, a: string, b: string, c: string)
    requires AllDigits(a) && AllDigits(b) && AllDigits(b + c) && s == a + "." + (b + c)
    ensures s[..|a| + 1 + |b|] == a + "." + b && s[|a| + 1 + |b|..] == c
    ensures Digits(s) == (a + b) + c
  {
    WithPoint(s, a, b + c);
    assert a + (b + c) == (a + b) + c;
    assert s == (a + "." + b) + c;
  }

  lemma CutAfterPoint(s: string, i: nat)
    requires Numeral(s) && IndexOf(s, '.') < i <= |s|
    ensures Numeral(s[..i]) && AllDigits(s[i..])
    ensures IndexOf(s[..i], '.') == IndexOf(s, '.')
    ensures Digits(s) == Digits(s[..i]) + s[i..]
  {
    var p := IndexOf(s, '.');
    var a, rest := s[..p], s[p + 1..];
    CutDigits(rest, i - p - 1);
    var b, c := rest[..i - p - 1], rest[i - p - 1..];
    CutBehindPoint(s, a, b, c);
    WithPoint(s[..i], a, b);
  }

  lemma CutBeforePoint(s: string, i: nat)
    requires Numeral(s) && i <= IndexOf(s, '.')
    ensures AllDigits(s[..i]) && Numeral(s[i..])
    ensures IndexOf(s[i..], '.') == IndexOf(s, '.') - i
    ensures Digits(s) == s[..i] + Digits(s[i..])
  {
    var p := IndexOf(s, '.');
    var a, b := s[..i], s[i..p];
    assert s[..p] == a + b;
    assert AllDigits(a) && AllDigits(b) by {
      assert forall k :: 0 <= k < |a| ==> a[k] == s[..p][k];
      assert forall k :: 0 <= k < |b| ==> b[k] == s[..p][i + k];
    }
    if p < |s| {
      var c := s[p + 1..];
      assert s[i..] == b + "." + c;
      WithPoint(s[i..], b, c);
      assert a + (b + c) == a + b + c;
    } else {
      assert s == a + b;
      assert s[i..] == b;
      NoPoint(b);
    }
  }

  /** Cutting a numeral anywhere gives two numerals that share its digits. */
  lemma CutNumeral(s: string, i: nat)
    requires Numeral(s) && i <= |s|
    ensures Numeral(s[..i]) && Numeral(s[i..])
    ensures Digits(s) == Digits(s[..i]) + Digits(s[i..])
    ensures IndexOf(s[..i], '.') == if IndexOf(s, '.') < i then IndexOf(s, '.') else i
  {
    if IndexOf(s, '.') < i {
      CutAfterPoint(s, i);
      NoPoint(s[i..]);
    } else {
      CutBeforePoint(s, i);
      NoPoint(s[..i]);
    }
  }
}
