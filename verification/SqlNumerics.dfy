/** The numeric value a statement exchanges with an application: a 128-bit magnitude in sixteen bytes, a sign,
    a precision and a scale. */
module SqlNumerics {
  import opened Numbers
  import opened Limbs

  /** The integer that sixteen little-endian bytes denote. */
  function Magnitude(b: seq<int>): int
    requires |b| == 16
  {
    (b[0] + 0x100 * b[1]) + 0x1_0000 * (b[2] + 0x100 * b[3]) + 0x1_0000_0000 * (b[4] + 0x100 * b[5])
    + 0x1_0000_0000_0000 * (b[6] + 0x100 * b[7]) + 0x1_0000_0000_0000_0000 * (b[8] + 0x100 * b[9])
    + 0x1_0000_0000_0000_0000_0000 * (b[10] + 0x100 * b[11])
    + 0x1_0000_0000_0000_0000_0000_0000 * (b[12] + 0x100 * b[13])
    + 0x1_0000_0000_0000_0000_0000_0000_0000 * (b[14] + 0x100 * b[15])
  }

  predicate Bytes(b: seq<int>) {
    |b| == 16 && forall i :: 0 <= i < 16 ==> 0 <= b[i] < 0x100
  }

  /** An unsigned byte, and a signed one. */
  function U8(x: int): (u: int)
    ensures 0 <= u < 0x100
    ensures 0 <= x < 0x100 ==> u == x
  {
    x % 0x100
  }

  function S8(x: int): (s: int)
    ensures -0x80 <= s < 0x80
    ensures -0x80 <= x < 0x80 ==> s == x
  {
    (x + 0x80) % 0x100 - 0x80
  }

  class SqlNumeric {
    var precision: int
    var scale: int
    var positive: bool
    const val: array<int>

    ghost predicate Valid()
      reads this, val
    {
      0 <= precision < 0x100 && -0x80 <= scale < 0x80 && Bytes(val[..])
    }

    constructor (precision: int, scale: int)
      requires 0 <= precision < 0x100 && -0x80 <= scale < 0x80
      ensures Valid() && this.precision == precision && this.scale == scale && positive
      ensures Magnitude(val[..]) == 0 && fresh(val)
    {
      this.precision, this.scale, this.positive := precision, scale, true;
      val := new int[16](_ => 0);
    }
  }

  /** The bytes of eight words, cut to sixteen bits each. */
  function Packed(a: seq<int>): (b: seq<int>)
    requires |a| == 8
    ensures |b| == 16
  {
    [a[0] % 0x100, a[0] / 0x100 % 0x100, a[1] % 0x100, a[1] / 0x100 % 0x100,
     a[2] % 0x100, a[2] / 0x100 % 0x100, a[3] % 0x100, a[3] / 0x100 % 0x100,
     a[4] % 0x100, a[4] / 0x100 % 0x100, a[5] % 0x100, a[5] / 0x100 % 0x100,
     a[6] % 0x100, a[6] / 0x100 % 0x100, a[7] % 0x100, a[7] / 0x100 % 0x100]
  }

  lemma LowBytes(x: int)
    requires 0 <= x
    ensures x % 0x100 + 0x100 * (x / 0x100 % 0x100) == x % LIMB_MODULUS
  {
    var h := x / 0x100;
    assert x == 0x100 * h + x % 0x100;
    assert h == 0x100 * (h / 0x100) + h % 0x100;
    DivisionIsUnique(x, h / 0x100, x % 0x100 + 0x100 * (h % 0x100), LIMB_MODULUS);
  }

  /** Packing keeps the value modulo 2^128. */
  lemma PackedValue(a: seq<int>)
    requires Carried(a)
    ensures Bytes(Packed(a)) && Magnitude(Packed(a)) == Value(a) % MAGNITUDE_LIMIT
  {
    forall i | 0 <= i < 8
      ensures a[i] % 0x100 + 0x100 * (a[i] / 0x100 % 0x100) == a[i] % LIMB_MODULUS
      ensures i < 7 ==> a[i] % LIMB_MODULUS == a[i]
    {
      LowBytes(a[i]);
    }
    var q, r := a[7] / LIMB_MODULUS, a[7] % LIMB_MODULUS;
    assert a[7] == LIMB_MODULUS * q + r;
    var c := a[7 := r];
    PackedLimbs(a, c);
    ValueBounds(c);
    DivisionIsUnique(Value(a), q, Value(c), MAGNITUDE_LIMIT);
  }

  lemma PackedLimbs(a: seq<int>, c: seq<int>)
    requires |a| == |c| == 8
    requires forall i :: 0 <= i < 8 ==> a[i] % 0x100 + 0x100 * (a[i] / 0x100 % 0x100) == c[i]
    ensures Bytes(Packed(a)) && Magnitude(Packed(a)) == Value(c)
  {
    var b := Packed(a);
    assert b[0] + 0x100 * b[1] == c[0];
    assert b[2] + 0x100 * b[3] == c[1];
    assert b[4] + 0x100 * b[5] == c[2];
    assert b[6] + 0x100 * b[7] == c[3];
    assert b[8] + 0x100 * b[9] == c[4];
    assert b[10] + 0x100 * b[11] == c[5];
    assert b[12] + 0x100 * b[13] == c[6];
    assert b[14] + 0x100 * b[15] == c[7];
  }
}
