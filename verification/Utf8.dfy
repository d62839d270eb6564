/** Decoding of UTF-8 as far as the Basic Multilingual Plane: what the character set library does, and the encoding of
    section 3 of RFC 3629 that it must undo. */
module Utf8 {

  type Byte = b: int | 0 <= b < 0x100

  /** A UTF-16 code unit. */
  type Code = c: int | 0 <= c < 0x10000

  datatype Decoded = Character(code: Code, length: nat) | Illegal | TooSmall

  predicate IsContinuation(b: Byte) {
    b / 0x40 == 2
  }

  /** The bits that a continuation byte carries. */
  function Payload(b: int): int {
    b % 0x40
  }

  /** The character at position i. Bytes from 0xf0 on, which start longer sequences, are not looked at here. */
  function Next(b: seq<Byte>, i: nat): (d: Decoded)
    requires i < |b|
    ensures d.Character? ==> 0 < d.length <= |b| - i
  {
    var c: int := b[i];
    if c < 0x80 then Character(c, 1)
    else if c < 0xc2 then Illegal
    else if c < 0xe0 then
      if i + 2 > |b| then TooSmall
      else if !IsContinuation(b[i + 1]) then Illegal
      else Character(c % 0x20 * 0x40 + Payload(b[i + 1]), 2)
    else if c < 0xf0 then
      if i + 3 > |b| then TooSmall
      else if !IsContinuation(b[i + 1]) || !IsContinuation(b[i + 2]) then Illegal
      else
        var code := c % 0x10 * 0x1000 + Payload(b[i + 1]) * 0x40 + Payload(b[i + 2]);
        if code < 0x800 || 0xd800 <= code <= 0xdfff then Illegal else Character(code, 3)
    else Illegal
  }

  /** One character of a conversion: an illegal byte becomes a question mark. */
  datatype Converted = Converted(code: Code, length: nat, good: bool) | Stuck

  function Convert(b: seq<Byte>, i: nat): (c: Converted)
    requires i < |b|
    ensures c.Converted? ==> 0 < c.length <= |b| - i
  {
    match Next(b, i)
    case Character(code, length) => Converted(code, length, true)
    case Illegal => Converted(0x3f, 1, false)
    case TooSmall => Stuck
  }

  /** The code units from position i on, as far as the conversion gets. */
  function Units(b: seq<Byte>, i: nat): seq<Code>
    requires i <= |b|
    decreases |b| - i
  {
    if i == |b| then []
    else
      var c := Convert(b, i);
      if c.Stuck? then [] else [c.code] + Units(b, i + c.length)
  }

  /** The conversion from position i on does not get to the end. */
  predicate GetsStuck(b: seq<Byte>, i: nat)
    requires i <= |b|
    decreases |b| - i
  {
    i < |b| && (Convert(b, i).Stuck? || GetsStuck(b, i + Convert(b, i).length))
  }

  /** Some byte from position i on is illegal. */
  predicate HasIllegal(b: seq<Byte>, i: nat)
    requires i <= |b|
    decreases |b| - i
  {
    i < |b| && Convert(b, i).Converted? && (!Convert(b, i).good || HasIllegal(b, i + Convert(b, i).length))
  }

  /** The position behind n more characters. */
  function After(b: seq<Byte>, i: nat, n: nat): (j: nat)
    requires i <= |b|
    ensures i <= j <= |b|
    decreases n
  {
    if n == 0 || i == |b| || Convert(b, i).Stuck? then i else After(b, i + Convert(b, i).length, n - 1)
  }

  /** Behind n characters the rest of the conversion follows. */
  lemma {:induction false} UnitsAfter(b: seq<Byte>, i: nat, n: nat)
    requires i <= |b| && n <= |Units(b, i)|
    ensures Units(b, After(b, i, n)) == Units(b, i)[n..]
    ensures GetsStuck(b, After(b, i, n)) == GetsStuck(b, i)
    decreases n
  {
    if n > 0 {
      UnitsAfter(b, i + Convert(b, i).length, n - 1);
    }
  }

  lemma {:induction false} AfterAfter(b: seq<Byte>, i: nat, n: nat, m: nat)
    requires i <= |b| && n <= |Units(b, i)|
    ensures After(b, After(b, i, n), m) == After(b, i, n + m)
    decreases n
  {
    if n > 0 {
      AfterAfter(b, i + Convert(b, i).length, n - 1, m);
    }
  }

  lemma {:induction false} LegalAfter(b: seq<Byte>, i: nat, n: nat)
    requires i <= |b| && n <= |Units(b, i)| && !HasIllegal(b, i)
    ensures !HasIllegal(b, After(b, i, n))
    decreases n
  {
    if n > 0 {
      LegalAfter(b, i + Convert(b, i).length, n - 1);
    }
  }

  /** An illegal byte is passed over and becomes a question mark; the rest is converted as it would be alone. */
  lemma IllegalByte(b: seq<Byte>, i: nat)
    requires i < |b| && Next(b, i).Illegal?
    ensures Units(b, i) == [0x3f] + Units(b, i + 1)
    ensures HasIllegal(b, i) && GetsStuck(b, i) == GetsStuck(b, i + 1)
  {
    hide Next;
  }

  // ---------------------------------------------------------------------------------- the encoding

  /** A code unit that is a character of its own. */
  predicate IsCharacter(code: Code) {
    !(0xd800 <= code <= 0xdfff)
  }

  function Encode(code: Code): (b: seq<Byte>) {
    if code < 0x80 then [code]
    else if code < 0x800 then [0xc0 + code / 0x40, 0x80 + code % 0x40]
    else [0xe0 + code / 0x1000, 0x80 + code / 0x40 % 0x40, 0x80 + code % 0x40]
  }

  function EncodeAll(text: seq<Code>): seq<Byte> {
    if text == [] then [] else Encode(text[0]) + EncodeAll(text[1..])
  }

  lemma ThreeBytes(code: Code)
    requires 0x800 <= code
    ensures code == code / 0x1000 * 0x1000 + code / 0x40 % 0x40 * 0x40 + code % 0x40
    ensures code / 0x1000 < 0x10
  {
    assert code / 0x40 / 0x40 == code / 0x1000;
  }

  lemma Remainders(code: Code)
    ensures 0x80 <= code < 0x800 ==> (0xc0 + code / 0x40) % 0x20 == code / 0x40
    ensures (0xe0 + code / 0x1000) % 0x10 == code / 0x1000
    ensures (0x80 + code / 0x40 % 0x40) % 0x40 == code / 0x40 % 0x40 && (0x80 + code % 0x40) % 0x40 == code % 0x40
    ensures IsContinuation(0x80 + code / 0x40 % 0x40) && IsContinuation(0x80 + code % 0x40)
  {
  }

  /** An encoded character is decoded, wherever it stands. */
  lemma DecodeEncoded(b: seq<Byte>, i: nat, code: Code)
    requires IsCharacter(code) && i + |Encode(code)| <= |b| && b[i..i + |Encode(code)|] == Encode(code)
    ensures Next(b, i) == Character(code, |Encode(code)|)
  {
    var e := Encode(code);
    assert forall k :: 0 <= k < |e| ==> b[i + k] == b[i..i + |e|][k] == e[k];
    Remainders(code);
    if code >= 0x800 {
      ThreeBytes(code);
    }
    hide IsContinuation;
  }

  /** Only encodings are decoded: in front of a byte below 0xf0 there is a character if and only if its encoding stands
      there. So neither surrogates nor longer forms than necessary are taken. */
  lemma OnlyEncodings(b: seq<Byte>, i: nat, code: Code, length: nat)
    requires i < |b| && b[i] < 0xf0
    ensures Next(b, i) == Character(code, length) <==>
              && IsCharacter(code) && length == |Encode(code)| && i + length <= |b|
              && b[i..i + length] == Encode(code)
  {
    if IsCharacter(code) && i + |Encode(code)| <= |b| && b[i..i + |Encode(code)|] == Encode(code) {
      DecodeEncoded(b, i, code);
    }
    if Next(b, i) == Character(code, length) {
      DecodedIsEncoding(b, i);
    }
    hide Next, Encode;
  }

  lemma DecodedIsEncoding(b: seq<Byte>, i: nat)
    requires i < |b| && Next(b, i).Character?
    ensures var c := Next(b, i);
            && IsCharacter(c.code) && c.length == |Encode(c.code)| && i + c.length <= |b|
            && b[i..i + c.length] == Encode(c.code)
  {
    var c, n := Next(b, i).code, Next(b, i).length;
    if n == 2 {
      TwoBytesBack(b[i], b[i + 1]);
      assert b[i..i + 2] == [b[i], b[i + 1]];
    } else if n == 3 {
      ThreeBytesBack(b[i], b[i + 1], b[i + 2]);
      assert b[i..i + 3] == [b[i], b[i + 1], b[i + 2]];
    }
  }

  lemma TwoBytesBack(x: Byte, y: Byte)
    requires 0xc2 <= x < 0xe0 && IsContinuation(y)
    ensures var code := x % 0x20 * 0x40 + Payload(y); 0x80 <= code < 0x800 && Encode(code) == [x, y]
  {
    assert y == 0x80 + Payload(y) && x == 0xc0 + x % 0x20;
  }

  lemma ThreeBytesBack(x: Byte, y: Byte, z: Byte)
    requires 0xe0 <= x < 0xf0 && IsContinuation(y) && IsContinuation(z)
    ensures var code := x % 0x10 * 0x1000 + Payload(y) * 0x40 + Payload(z);
            code < 0x10000 && (code >= 0x800 ==> Encode(code) == [x, y, z])
  {
    assert y == 0x80 + Payload(y) && z == 0x80 + Payload(z) && x == 0xe0 + x % 0x10;
    var code := x % 0x10 * 0x1000 + Payload(y) * 0x40 + Payload(z);
    assert code / 0x40 == x % 0x10 * 0x40 + Payload(y);
    assert code / 0x1000 == x % 0x10;
  }

  lemma EncodedParts(text: seq<Code>, b: seq<Byte>, i: nat)
    requires i <= |b| && b[i..] == EncodeAll(text)
    ensures text == [] ==> i == |b|
    ensures text != [] ==>
              var n := |Encode(text[0])|;
              i + n <= |b| && b[i..i + n] == Encode(text[0]) && b[i + n..] == EncodeAll(text[1..])
  {
    if text != [] {
      var n := |Encode(text[0])|;
      assert b[i..i + n] == b[i..][..n];
      assert b[i + n..] == b[i..][n..];
    }
  }

  lemma UnitsStep(b: seq<Byte>, i: nat)
    requires i <= |b|
    ensures i == |b| ==> Units(b, i) == [] && !GetsStuck(b, i) && !HasIllegal(b, i)
    ensures i < |b| && Next(b, i).Character? ==>
              var next := i + Next(b, i).length;
              && Units(b, i) == [Next(b, i).code] + Units(b, next)
              && GetsStuck(b, i) == GetsStuck(b, next) && HasIllegal(b, i) == HasIllegal(b, next)
  {
    hide Next;
  }

  /** Encoded text comes back as it was, without illegal bytes and without getting stuck. */
  lemma {:induction false} EncodedRoundTrip(text: seq<Code>, b: seq<Byte>, i: nat)
    requires forall c <- text :: IsCharacter(c)
    requires i <= |b| && b[i..] == EncodeAll(text)
    ensures Units(b, i) == text && !GetsStuck(b, i) && !HasIllegal(b, i)
    decreases |text|
  {
    hide *;
    EncodedParts(text, b, i);
    UnitsStep(b, i);
    if text != [] {
      DecodeEncoded(b, i, text[0]);
      EncodedRoundTrip(text[1..], b, i + |Encode(text[0])|);
    }
  }

  // ---------------------------------------------------------------------------------- encoded text that is cut

  /** How many characters the first m bytes of the encoding hold wholly. */
  function WholeCharacters(text: seq<Code>, m: nat): (n: nat)
    ensures n <= |text|
  {
    if text == [] || |Encode(text[0])| > m then 0 else 1 + WholeCharacters(text[1..], m - |Encode(text[0])|)
  }

  /** Some characters of the text make up exactly m bytes. */
  ghost predicate OnBoundary(text: seq<Code>, m: nat) {
    exists n :: 0 <= n <= |text| && |EncodeAll(text[..n])| == m
  }

  lemma EncodeMore(text: seq<Code>, n: nat)
    requires 0 < n <= |text|
    ensures |EncodeAll(text[..n])| == |Encode(text[0])| + |EncodeAll(text[1..][..n - 1])|
  {
    assert text[..n][1..] == text[1..][..n - 1];
  }

  /** A cut is on a boundary exactly if the characters that it leaves whole make up all of its bytes. */
  lemma {:induction false} BoundaryIff(text: seq<Code>, m: nat)
    ensures |EncodeAll(text[..WholeCharacters(text, m)])| <= m
    ensures OnBoundary(text, m) <==> |EncodeAll(text[..WholeCharacters(text, m)])| == m
    decreases |text|
  {
    var w := WholeCharacters(text, m);
    if w > 0 {
      var rest := m - |Encode(text[0])|;
      BoundaryIff(text[1..], rest);
      EncodeMore(text, w);
    }
    hide WholeCharacters, Encode;
    if n :| 0 <= n <= |text| && |EncodeAll(text[..n])| == m {
      LongestFits(text, m, n);
    }
  }

  lemma {:induction false} LongestFits(text: seq<Code>, m: nat, n: nat)
    requires n <= |text| && |EncodeAll(text[..n])| == m
    ensures |EncodeAll(text[..WholeCharacters(text, m)])| == m
    decreases n
  {
    if n > 0 {
      EncodeMore(text, n);
      LongestFits(text[1..], m - |Encode(text[0])|, n - 1);
      EncodeMore(text, WholeCharacters(text, m));
    } else {
      assert text[..0] == [];
      assert WholeCharacters(text, 0) == 0;
    }
  }

  lemma {:induction false} WholeText(text: seq<Code>)
    ensures WholeCharacters(text, |EncodeAll(text)|) == |text|
  {
    if text != [] {
      WholeText(text[1..]);
    }
  }

  /** The start of a character is waited for. */
  lemma CutCharacter(b: seq<Byte>, i: nat, code: Code)
    requires IsCharacter(code) && i < |b| < i + |Encode(code)| && b[i..] <= Encode(code)
    ensures Next(b, i) == TooSmall
  {
    assert b[i] == b[i..][0] == Encode(code)[0];
  }

  lemma CutBoth(b: seq<Byte>, i: nat, m: nat, first: seq<Byte>, rest: seq<Byte>)
    requires i <= |b| && m <= |first + rest| && b[i..] == (first + rest)[..m]
    ensures |first| <= m ==>
              i + |first| <= |b| && b[i..i + |first|] == first && b[i + |first|..] == rest[..m - |first|]
    ensures m < |first| ==> b[i..] <= first
  {
    if |first| <= m {
      assert (first + rest)[..m] == first + rest[..m - |first|];
      assert b[i..i + |first|] == b[i..][..|first|];
      assert b[i + |first|..] == b[i..][|first|..];
    } else {
      assert (first + rest)[..m] == first[..m];
    }
  }

  lemma CutParts(text: seq<Code>, b: seq<Byte>, i: nat, m: nat)
    requires i <= |b| && m <= |EncodeAll(text)| && b[i..] == EncodeAll(text)[..m] && text != []
    ensures var n := |Encode(text[0])|;
            && m - n <= |EncodeAll(text[1..])|
            && (n <= m ==> i + n <= |b| && b[i..i + n] == Encode(text[0])
                           && b[i + n..] == EncodeAll(text[1..])[..m - n])
            && (m < n ==> b[i..] <= Encode(text[0]))
  {
    hide Encode;
    CutBoth(b, i, m, Encode(text[0]), EncodeAll(text[1..]));
  }

  /** The first m bytes of encoded text come back as the characters that they hold wholly, without illegal bytes; the
      conversion gets stuck if and only if the cut is inside a character. */
  lemma {:induction false} CutRoundTrip(text: seq<Code>, b: seq<Byte>, i: nat, m: nat)
    requires forall c <- text :: IsCharacter(c)
    requires i <= |b| && m <= |EncodeAll(text)| && b[i..] == EncodeAll(text)[..m]
    ensures Units(b, i) == text[..WholeCharacters(text, m)] && !HasIllegal(b, i)
    ensures GetsStuck(b, i) <==> |EncodeAll(text[..WholeCharacters(text, m)])| != m
    decreases |text|
  {
    hide Encode, Next, HasIllegal, EncodeAll, Units, GetsStuck;
    var w := WholeCharacters(text, m);
    if text != [] && m > 0 {
      CutParts(text, b, i, m);
      if |Encode(text[0])| <= m {
        UnitsStep(b, i);
        DecodeEncoded(b, i, text[0]);
        CutRoundTrip(text[1..], b, i + |Encode(text[0])|, m - |Encode(text[0])|);
        EncodeMore(text, w);
        assert text[..w] == [text[0]] + text[1..][..w - 1];
      } else {
        CutCharacter(b, i, text[0]);
        StuckHere(b, i);
        NothingEncoded(text);
      }
    } else {
      UnitsStep(b, i);
      NothingEncoded(text);
      NothingWhole(text, m);
    }
  }

  lemma NothingEncoded(text: seq<Code>)
    ensures text[..0] == [] && EncodeAll(text[..0]) == [] && (text == [] ==> EncodeAll(text) == [])
  {
  }

  lemma NothingWhole(text: seq<Code>, m: nat)
    requires text == [] || m == 0
    ensures WholeCharacters(text, m) == 0
  {
  }

  lemma StuckHere(b: seq<Byte>, i: nat)
    requires i < |b| && Next(b, i).TooSmall?
    ensures Units(b, i) == [] && GetsStuck(b, i) && !HasIllegal(b, i)
  {
  }
}
