/** Eight limbs of sixteen bits, kept in 32-bit words, and the in-place word arithmetic that the numeric
    conversions use: multiply out, carry, and exact division by ten from either end. */
module Limbs {
  import opened Numbers

  const WORD_MODULUS: int := 0x1_0000_0000
  const LIMB_MODULUS: int := 0x1_0000

  /** 2^144: eight limbs of which the last may use its whole word. */
  const SPAN: int := 0x1_000000000000_000000000000_000000000000

  /** 2^128, the first integer that the sixteen bytes of a SQL_NUMERIC_STRUCT cannot hold. */
  const MAGNITUDE_LIMIT: int := 0x1_00000000_00000000_00000000_00000000

  function Wrap(x: int): (w: int)
    ensures 0 <= w < WORD_MODULUS
    ensures 0 <= x < WORD_MODULUS ==> w == x
  {
    x % WORD_MODULUS
  }

  /** Eight 32-bit words. */
  predicate Words(a: seq<int>) {
    |a| == 8 && forall i :: 0 <= i < 8 ==> 0 <= a[i] < WORD_MODULUS
  }

  /** Eight words of which all but the last fit in sixteen bits. */
  predicate Carried(a: seq<int>) {
    Words(a) && forall i :: 0 <= i < 7 ==> a[i] < LIMB_MODULUS
  }

  /** Eight words that all fit in sixteen bits. */
  predicate Canonical(a: seq<int>) {
    Carried(a) && a[7] < LIMB_MODULUS
  }

  /** The integer that eight little-endian words denote. */
  function Value(a: seq<int>): int
    requires |a| == 8
  {
    a[0] + 0x1_0000 * a[1] + 0x1_0000_0000 * a[2] + 0x1_0000_0000_0000 * a[3]
    + 0x1_0000_0000_0000_0000 * a[4] + 0x1_0000_0000_0000_0000_0000 * a[5]
    + 0x1_0000_0000_0000_0000_0000_0000 * a[6] + 0x1_0000_0000_0000_0000_0000_0000_0000 * a[7]
  }

  lemma ValueBounds(a: seq<int>)
    requires Carried(a)
    ensures 0 <= Value(a) < SPAN
    ensures Value(a) < MAGNITUDE_LIMIT <==> a[7] < LIMB_MODULUS
  {
  }

  // ---------------------------------------------------------------------------------- multiply out

  /** Every word times ten, in its word. */
  function TimesTen(a: seq<int>): seq<int>
    requires |a| == 8
  {
    [Wrap(a[0] * 10), Wrap(a[1] * 10), Wrap(a[2] * 10), Wrap(a[3] * 10),
     Wrap(a[4] * 10), Wrap(a[5] * 10), Wrap(a[6] * 10), Wrap(a[7] * 10)]
  }

  function Scaled(a: seq<int>, s: nat): (b: seq<int>)
    requires |a| == 8
    ensures |b| == 8
  {
    if s == 0 then a else TimesTen(Scaled(a, s - 1))
  }

  method Scale(ary: array<int>, s: nat)
    requires ary.Length == 8
    modifies ary
    ensures ary[..] == Scaled(old(ary[..]), s)
  {
    hide Wrap;
    var k := s;
    while k != 0
      invariant 0 <= k <= s
      invariant ary[..] == Scaled(old(ary[..]), s - k)
    {
      ghost var before := ary[..];
      k := k - 1;
      ary[0] := Wrap(ary[0] * 10);
      ary[1] := Wrap(ary[1] * 10);
      ary[2] := Wrap(ary[2] * 10);
      ary[3] := Wrap(ary[3] * 10);
      ary[4] := Wrap(ary[4] * 10);
      ary[5] := Wrap(ary[5] * 10);
      ary[6] := Wrap(ary[6] * 10);
      ary[7] := Wrap(ary[7] * 10);
      assert ary[..] == TimesTen(before);
    }
  }

  lemma TimesTenAt(a: seq<int>, i: nat)
    requires |a| == 8 && i < 8
    ensures TimesTen(a)[i] == Wrap(a[i] * 10)
  {
  }

  lemma WrapTimesTen(x: int)
    ensures Wrap(Wrap(x) * 10) == Wrap(x * 10)
  {
    ReduceFactor(x, 10, WORD_MODULUS);
  }

  /** What scaling does word by word: a multiplication by 10^s, reduced to 32 bits once. */
  lemma {:induction false} ScaledWord(a: seq<int>, s: nat, i: nat)
    requires Words(a) && i < 8
    ensures Scaled(a, s)[i] == Wrap(a[i] * Pow10(s))
  {
    if s == 0 {
      assert a[i] * Pow10(0) == a[i];
    } else {
      ScaledWord(a, s - 1, i);
      TimesTenAt(Scaled(a, s - 1), i);
      WrapTimesTen(a[i] * Pow10(s - 1));
      ShiftDigits(a[i], Pow10(s - 1), 0);
    }
  }

  lemma ProductBound(x: int, p: int)
    requires 0 <= x < LIMB_MODULUS && 1 <= p <= 10000
    ensures 0 <= x * p <= 10000 * (LIMB_MODULUS - 1)
  {
    Monotone(p, 0, x);
    Monotone(p, x, LIMB_MODULUS - 1);
  }

  /** Carried words may be scaled by up to 10^4 without losing a bit of any word but the last; every word
      below the last then leaves room for the carry. */
  lemma ScaledCarried(a: seq<int>, s: nat, i: nat)
    requires Carried(a) && s <= 4 && i < 8
    ensures Scaled(a, s)[i] == Wrap(a[i] * Pow10(s))
    ensures a[i] < LIMB_MODULUS ==> Scaled(a, s)[i] == a[i] * Pow10(s) <= 10000 * (LIMB_MODULUS - 1)
  {
    ScaledWord(a, s, i);
    PowersGrow(s, 4);
    SmallPowers();
    if a[i] < LIMB_MODULUS {
      ProductBound(a[i], Pow10(s));
    }
  }

  // ---------------------------------------------------------------------------------- carry

  function CarryAt(a: seq<int>, i: nat): (b: seq<int>)
    requires |a| == 8 && i < 7
    ensures |b| == 8
  {
    a[i + 1 := Wrap(a[i + 1] + a[i] / LIMB_MODULUS)][i := a[i] % LIMB_MODULUS]
  }

  function CarryFrom(a: seq<int>, i: nat): (b: seq<int>)
    requires |a| == 8 && i <= 7
    ensures |b| == 8
    decreases 7 - i, a
  {
    if i == 7 then a else CarryFrom(CarryAt(a, i), i + 1)
  }

  method Carry(ary: array<int>)
    requires ary.Length == 8
    modifies ary
    ensures ary[..] == CarryFrom(old(ary[..]), 0)
  {
    for i := 0 to 7
      invariant CarryFrom(ary[..], i) == CarryFrom(old(ary[..]), 0)
    {
      ghost var before := ary[..];
      ary[i + 1] := Wrap(ary[i + 1] + ary[i] / LIMB_MODULUS);
      ary[i] := ary[i] % LIMB_MODULUS;
      assert ary[..] == CarryAt(before, i);
    }
  }

  lemma {:induction false} CarryWords(a: seq<int>, i: nat)
    requires Words(a) && i <= 7
    requires forall k :: 0 <= k < i ==> a[k] < LIMB_MODULUS
    ensures Carried(CarryFrom(a, i))
    decreases 7 - i
  {
    if i < 7 {
      CarryWords(CarryAt(a, i), i + 1);
    }
  }

  lemma CarryStepKeeps(a: seq<int>, i: nat)
    requires Words(a) && i < 7
    requires a[i + 1] + a[i] / LIMB_MODULUS < WORD_MODULUS
    ensures Value(CarryAt(a, i)) == Value(a)
  {
    var q, r := a[i] / LIMB_MODULUS, a[i] % LIMB_MODULUS;
    assert a[i] == LIMB_MODULUS * q + r;
    var b := CarryAt(a, i);
    assert b[i] == r && b[i + 1] == a[i + 1] + q;
    if i == 0 {
    } else if i == 1 {
    } else if i == 2 {
    } else if i == 3 {
    } else if i == 4 {
    } else if i == 5 {
    } else {
    }
  }

  /** A carry out of the top word loses exactly 2^144. */
  lemma LastCarryStep(a: seq<int>)
    requires Words(a) && forall k :: 0 <= k < 6 ==> a[k] < LIMB_MODULUS
    ensures Value(CarryAt(a, 6)) == Value(a) % SPAN
  {
    var q, r := a[6] / LIMB_MODULUS, a[6] % LIMB_MODULUS;
    assert a[6] == LIMB_MODULUS * q + r;
    var b := CarryAt(a, 6);
    assert Carried(b);
    ValueBounds(b);
    if a[7] + q < WORD_MODULUS {
      CarryStepKeeps(a, 6);
      DivisionIsUnique(Value(a), 0, Value(b), SPAN);
    } else {
      DivisionIsUnique(a[7] + q, 1, a[7] + q - WORD_MODULUS, WORD_MODULUS);
      assert b[6] == r && b[7] == a[7] + q - WORD_MODULUS;
      DivisionIsUnique(Value(a), 1, Value(b), SPAN);
    }
  }

  /** Carrying keeps the value modulo 2^144 when the words between the first and the last leave room. */
  lemma {:induction false} CarryKeeps(a: seq<int>, i: nat)
    requires Words(a) && i < 7
    requires forall k :: 0 <= k < i ==> a[k] < LIMB_MODULUS
    requires a[i] < WORD_MODULUS && forall k :: i < k < 7 ==> a[k] <= WORD_MODULUS - LIMB_MODULUS
    ensures Value(CarryFrom(a, i)) == Value(a) % SPAN
    decreases 7 - i
  {
    hide Value;
    if i == 6 {
      LastCarryStep(a);
      assert CarryFrom(a, 6) == CarryFrom(CarryAt(a, 6), 7) == CarryAt(a, 6);
    } else {
      CarryStepKeeps(a, i);
      CarryKeeps(CarryAt(a, i), i + 1);
    }
  }

  /** b holds the words of a times p, each reduced to 32 bits; only the last can have lost anything. */
  ghost predicate ScaledBy(a: seq<int>, b: seq<int>, p: int) {
    && Carried(a)
    && |b| == 8
    && (forall i :: 0 <= i < 7 ==> b[i] == a[i] * p <= 10000 * (LIMB_MODULUS - 1))
    && (forall i :: 0 <= i < 8 ==> b[i] == Wrap(a[i] * p))
  }

  lemma ScaleIsScaledBy(a: seq<int>, s: nat)
    requires Carried(a) && s <= 4
    ensures ScaledBy(a, Scaled(a, s), Pow10(s))
  {
    forall i | 0 <= i < 8
      ensures Scaled(a, s)[i] == Wrap(a[i] * Pow10(s))
      ensures i < 7 ==> Scaled(a, s)[i] == a[i] * Pow10(s) <= 10000 * (LIMB_MODULUS - 1)
    {
      ScaledCarried(a, s, i);
    }
  }

  /** Scale, add a group of digits, then carry: multiplication by p = 10^s and addition, modulo 2^144. */
  lemma ScaledThenCarried(a: seq<int>, b: seq<int>, p: int, add: int)
    requires ScaledBy(a, b, p) && p >= 1 && 0 <= add <= 0xFFFF
    ensures Words(b[0 := b[0] + add])
    ensures Carried(CarryFrom(b[0 := b[0] + add], 0))
    ensures Value(CarryFrom(b[0 := b[0] + add], 0)) == (Value(a) * p + add) % SPAN
  {
    var c := b[0 := b[0] + add];
    var w := a[7] * p / WORD_MODULUS;
    assert a[7] * p == WORD_MODULUS * w + b[7];
    ScaledValue(a, b, p, w);
    assert Value(c) == Value(b) + add;
    AddMultiple(Value(c), w, SPAN);
    CarryWords(c, 0);
    CarryKeeps(c, 0);
  }

  lemma ScaledValue(a: seq<int>, b: seq<int>, p: int, w: int)
    requires |a| == |b| == 8
    requires forall i :: 0 <= i < 7 ==> b[i] == a[i] * p
    requires a[7] * p == WORD_MODULUS * w + b[7]
    ensures Value(b) + w * SPAN == Value(a) * p
  {
    assert b[0] == a[0] * p && b[1] == a[1] * p && b[2] == a[2] * p && b[3] == a[3] * p
           && b[4] == a[4] * p && b[5] == a[5] * p && b[6] == a[6] * p;
    Distribute(a, p);
  }

  lemma Distribute(a: seq<int>, p: int)
    requires |a| == 8
    ensures Value(a) * p
            == Value([a[0] * p, a[1] * p, a[2] * p, a[3] * p, a[4] * p, a[5] * p, a[6] * p, a[7] * p])
  {
  }

  // ---------------------------------------------------------------------------------- divide by ten

  /** The value when the words from position i on count ten times: a division by ten in progress. */
  function HalfDivided(a: seq<int>, i: nat): int
    requires |a| == 8 && 1 <= i <= 8
  {
    a[0]
    + (if i <= 1 then 0xA_0000 else 0x1_0000) * a[1]
    + (if i <= 2 then 0xA_0000_0000 else 0x1_0000_0000) * a[2]
    + (if i <= 3 then 0xA_0000_0000_0000 else 0x1_0000_0000_0000) * a[3]
    + (if i <= 4 then 0xA_0000_0000_0000_0000 else 0x1_0000_0000_0000_0000) * a[4]
    + (if i <= 5 then 0xA_0000_0000_0000_0000_0000 else 0x1_0000_0000_0000_0000_0000) * a[5]
    + (if i <= 6 then 0xA_0000_0000_0000_0000_0000_0000 else 0x1_0000_0000_0000_0000_0000_0000) * a[6]
    + (if i <= 7 then 0xA_0000_0000_0000_0000_0000_0000_0000 else 0x1_0000_0000_0000_0000_0000_0000_0000) * a[7]
  }

  /** Move the remainder of word i into the word below it. */
  function UnscaleAt(a: seq<int>, i: nat): (b: seq<int>)
    requires |a| == 8 && 1 <= i < 8
    ensures |b| == 8
  {
    a[i - 1 := Wrap(a[i - 1] + a[i] % 10 * LIMB_MODULUS)][i := a[i] / 10]
  }

  function UnscaleFrom(a: seq<int>, i: nat): (b: seq<int>)
    requires |a| == 8 && i < 8
    ensures |b| == 8
    decreases i, a
  {
    if i == 0 then a else UnscaleFrom(UnscaleAt(a, i), i - 1)
  }

  method UnscaleLE(ary: array<int>)
    requires ary.Length == 8
    modifies ary
    ensures ary[..] == UnscaleFrom(old(ary[..]), 7)
  {
    var i := 7;
    while i > 0
      invariant 0 <= i <= 7
      invariant UnscaleFrom(ary[..], i) == UnscaleFrom(old(ary[..]), 7)
    {
      ghost var before := ary[..];
      ary[i - 1] := Wrap(ary[i - 1] + ary[i] % 10 * LIMB_MODULUS);
      ary[i] := ary[i] / 10;
      assert ary[..] == UnscaleAt(before, i);
      i := i - 1;
    }
  }

  /** The words of a big-endian array in little-endian order. */
  function Reversed(a: seq<int>): (b: seq<int>)
    requires |a| == 8
    ensures |b| == 8
  {
    [a[7], a[6], a[5], a[4], a[3], a[2], a[1], a[0]]
  }

  lemma ReversedUnscale(a: seq<int>, b: seq<int>, i: nat)
    requires |a| == 8 && i < 7
    requires b == a[i + 1 := Wrap(a[i + 1] + a[i] % 10 * LIMB_MODULUS)][i := a[i] / 10]
    ensures Reversed(b) == UnscaleAt(Reversed(a), 7 - i)
  {
    ReversedAt(a, i);
    ReversedAt(a, i + 1);
    forall k | 0 <= k < 8
      ensures Reversed(b)[k] == UnscaleAt(Reversed(a), 7 - i)[k]
    {
      ReversedAt(b, 7 - k);
      ReversedAt(a, 7 - k);
    }
  }

  lemma ReversedAt(a: seq<int>, i: nat)
    requires |a| == 8 && i < 8
    ensures Reversed(a)[7 - i] == a[i]
  {
  }

  method UnscaleBE(ary: array<int>, start: nat)
    requires ary.Length == 8 && start <= 7
    modifies ary
    ensures Reversed(ary[..]) == UnscaleFrom(Reversed(old(ary[..])), 7 - start)
    ensures forall i :: 0 <= i < start ==> ary[i] == old(ary[i])
  {
    var i := start;
    while i < 7
      invariant start <= i <= 7 && forall k :: 0 <= k < start ==> ary[k] == old(ary[k])
      invariant UnscaleFrom(Reversed(ary[..]), 7 - i) == UnscaleFrom(Reversed(old(ary[..])), 7 - start)
    {
      ghost var before := ary[..];
      ary[i + 1] := Wrap(ary[i + 1] + ary[i] % 10 * LIMB_MODULUS);
      ary[i] := ary[i] / 10;
      assert ary[..] == before[i + 1 := Wrap(before[i + 1] + before[i] % 10 * LIMB_MODULUS)][i := before[i] / 10];
      ReversedUnscale(before, ary[..], i);
      i := i + 1;
    }
  }

  lemma UnscaleStepKeeps(a: seq<int>, i: nat)
    requires Words(a) && 1 <= i < 8 && a[i - 1] < LIMB_MODULUS
    ensures HalfDivided(UnscaleAt(a, i), i) == HalfDivided(a, i + 1)
    ensures UnscaleAt(a, i)[i - 1] < 10 * LIMB_MODULUS
  {
    var q, r := a[i] / 10, a[i] % 10;
    assert a[i] == 10 * q + r;
    var b := UnscaleAt(a, i);
    assert b[i] == q && b[i - 1] == a[i - 1] + r * LIMB_MODULUS;
    if i == 1 {
    } else if i == 2 {
    } else if i == 3 {
    } else if i == 4 {
    } else if i == 5 {
    } else if i == 6 {
    } else {
    }
  }

  lemma {:induction false} UnscaleKeeps(a: seq<int>, i: nat)
    requires Words(a) && i < 8
    requires forall k :: 0 <= k < i ==> a[k] < LIMB_MODULUS
    requires forall k :: i < k < 7 ==> a[k] < LIMB_MODULUS
    requires i < 7 ==> a[i] < 10 * LIMB_MODULUS
    ensures var b := UnscaleFrom(a, i);
            && Words(b) && HalfDivided(b, 1) == HalfDivided(a, i + 1)
            && b[7] == (if i == 7 then a[7] / 10 else a[7])
            && b[0] < 10 * LIMB_MODULUS
            && forall k :: 0 < k < 7 ==> b[k] < LIMB_MODULUS
    decreases i
  {
    if i > 0 {
      UnscaleStepKeeps(a, i);
      UnscaleKeeps(UnscaleAt(a, i), i - 1);
    }
  }

  /** Division of the whole value by ten: unscale, take the last digit of the first word, divide that word. */
  lemma DivideByTen(a: seq<int>)
    requires Carried(a)
    ensures var b := UnscaleFrom(a, 7);
            && |b| == 8
            && b[0] % 10 == Value(a) % 10
            && Carried(b[0 := b[0] / 10])
            && Value(b[0 := b[0] / 10]) == Value(a) / 10
  {
    UnscaleKeeps(a, 7);
    var b := UnscaleFrom(a, 7);
    var q, r := b[0] / 10, b[0] % 10;
    assert b[0] == 10 * q + r;
    var c := b[0 := q];
    assert HalfDivided(b, 1) == Value(a);
    assert Value(a) == 10 * Value(c) + r;
    DivisionIsUnique(Value(a), Value(c), r, 10);
  }

  /** A prefix of zero words may be skipped. */
  lemma {:induction false} SkipZeroWords(a: seq<int>, from: nat, to: nat)
    requires Words(a) && to <= from < 8
    requires forall k :: to < k <= from ==> a[k] == 0
    ensures UnscaleFrom(a, from) == UnscaleFrom(a, to)
  {
    if to < from {
      assert UnscaleAt(a, from) == a;
      SkipZeroWords(a, from - 1, to);
    }
  }
}
