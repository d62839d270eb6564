/** The names of column types in the answers of the server. */
module TypeNames {
  import opened Options
  import opened Numbers
  import opened TapiText

  datatype SimpleType =
    | VarcharN | StringType | Varchar | CharType | CharN | IntType | Integer | FloatType | DateType | TimeType | DateTime

  /** The length is an unsigned word of 64 bits. */
  datatype TypeAndLength = TypeAndLength(simpleType: SimpleType, len: nat)

  const MAX_STRLEN := 255
  const WORD := 0x1_0000_0000_0000_0000

  function Lookup(name: string): Option<SimpleType> {
    if name == "varchar()" then Some(VarcharN)
    else if name == "string" then Some(StringType)
    else if name == "varchar" then Some(Varchar)
    else if name == "char" then Some(CharType)
    else if name == "char()" then Some(CharN)
    else if name == "int" then Some(IntType)
    else if name == "float" then Some(FloatType)
    else if name == "datetime(date)" then Some(DateType)
    else if name == "datetime(time)" then Some(TimeType)
    else if name == "datetime(datetime)" then Some(DateTime)
    else None
  }

  function TypeSize(t: SimpleType): nat {
    match t
    case Integer => 19
    case IntType => 19
    case FloatType => 59
    case DateType => 10
    case TimeType => 8
    case DateTime => 19
    case Varchar => MAX_STRLEN
    case StringType => MAX_STRLEN
    case _ => 0
  }

  predicate IsUpper(c: char) {
    'A' <= c <= 'Z'
  }

  function ToLower(s: string): (r: string)
    ensures (forall c <- s :: !IsUpper(c)) ==> r == s
  {
    seq(|s|, i requires 0 <= i < |s| => if IsUpper(s[i]) then (s[i] as int + 32) as char else s[i])
  }

  predicate Stands(s: string, i: nat, text: string) {
    i + |text| <= |s| && s[i..i + |text|] == text
  }

  predicate Contains(s: string, text: string) {
    exists i: nat :: i <= |s| && Stands(s, i, text)
  }

  /** Where the first character from i on stands that is no white space, or no digit. */
  function SkipSpaces(s: string, i: nat): (j: nat)
    requires i <= |s|
    ensures i <= j <= |s|
    decreases |s| - i
  {
    if i < |s| && IsWhiteSpace(s[i]) then SkipSpaces(s, i + 1) else i
  }

  function SkipDigits(s: string, i: nat): (j: nat)
    requires i <= |s|
    ensures i <= j <= |s| && AllDigits(s[i..j]) && (j < |s| ==> !IsDigit(s[j]))
    decreases |s| - i
  {
    if i < |s| && IsDigit(s[i]) then
      var j := SkipDigits(s, i + 1);
      assert s[i..j] == [s[i]] + s[i + 1..j];
      j
    else i
  }

  /** The integer at the start of a text. Without digits, and out of the range of 32 bits, the call throws. */
  function Stoi(s: string): Option<int> {
    var i := SkipSpaces(s, 0);
    var negative := i < |s| && s[i] == '-';
    var start := if i < |s| && (s[i] == '-' || s[i] == '+') then i + 1 else i;
    var end := SkipDigits(s, start);
    var v: int := if negative then 0 - NatOf(s[start..end]) else NatOf(s[start..end]);
    if end > start && -0x8000_0000 <= v < 0x8000_0000 then Some(v) else None
  }

  /** The type with a name. A name that is not known makes the call throw. */
  function GetTypeFromStr(str: string): Option<TypeAndLength> {
    var typeStr := ToLower(str);
    if Contains(typeStr, "integer(") || Contains(typeStr, "varbinary(") then
      Some(TypeAndLength(Integer, TypeSize(Integer)))
    else
      var open := IndexOf(typeStr, '(');
      if open < |typeStr| && !Contains(typeStr, "datetime") then
        var size := Stoi(typeStr[open + 1..IndexFrom(typeStr, ')', open + 1)]);
        var simple := Lookup(typeStr[..open + 1] + ")");
        if size.Some? && simple.Some? then Some(TypeAndLength(simple.value, size.value % WORD)) else None
      else
        var simple := Lookup(typeStr);
        if simple.Some? then Some(TypeAndLength(simple.value, TypeSize(simple.value))) else None
  }

  // ---------------------------------------------------------------------------------- names as the server writes them

  function Decimal(v: nat): string {
    LastDigits(v, DigitCount(v))
  }

  /** A type has a name if its length is the one of its kind, or can be written between parentheses. */
  predicate HasName(t: TypeAndLength) {
    if t.simpleType == VarcharN || t.simpleType == CharN then t.len < 0x8000_0000
    else t.len == TypeSize(t.simpleType) && t.simpleType != Integer
  }

  function NameOf(t: TypeAndLength): string {
    match t.simpleType
    case VarcharN => "varchar(" + Decimal(t.len) + ")"
    case CharN => "char(" + Decimal(t.len) + ")"
    case StringType => "string"
    case Varchar => "varchar"
    case CharType => "char"
    case IntType => "int"
    case Integer => "integer()"
    case FloatType => "float"
    case DateType => "datetime(date)"
    case TimeType => "datetime(time)"
    case DateTime => "datetime(datetime)"
  }

  /** A text that contains another has all its characters. */
  lemma NotContained(s: string, text: string, c: char)
    requires c in text && c !in s
    ensures !Contains(s, text)
  {
    var k :| 0 <= k < |text| && text[k] == c;
    forall i: nat | i <= |s| ensures !Stands(s, i, text) {
      HasCharacter(s, i, text, k);
    }
  }

  lemma HasCharacter(s: string, i: nat, text: string, k: nat)
    requires k < |text|
    ensures Stands(s, i, text) ==> text[k] in s
  {
    if Stands(s, i, text) {
      assert s[i + k] == s[i..i + |text|][k];
    }
  }

  lemma ContainedAtStart(s: string, text: string)
    requires |text| <= |s| && s[..|text|] == text
    ensures Contains(s, text)
  {
    assert Stands(s, 0, text);
  }

  lemma DecimalComesBack(v: nat)
    requires v < 0x8000_0000
    ensures Stoi(Decimal(v)) == Some(v)
  {
    var s := Decimal(v);
    LastDigitsSpell(v, DigitCount(v));
    DigitCountBounds(v);
    Small(v, Pow10(DigitCount(v)));
    assert NatOf(s) == v;
    hide Decimal, NatOf, Pow10, LastDigits;
    StoiOfDigits(s);
  }

  lemma StoiOfDigits(s: string)
    requires s != "" && AllDigits(s)
    ensures Stoi(s) == if NatOf(s) < 0x8000_0000 then Some(NatOf(s) as int) else None
  {
    hide NatOf;
    assert IsDigit(s[0]);
    assert SkipSpaces(s, 0) == 0;
    assert SkipDigits(s, 0) == |s|;
    assert s[0..|s|] == s;
  }

  lemma Small(v: nat, m: nat)
    requires v < m
    ensures v % m == v
  {
  }

  predicate IsPlain(name: string) {
    forall c <- name :: c in {'v', 'a', 'r', 'c', 'h'}
  }

  function Sized(name: string, size: string): string {
    name + "(" + size + ")"
  }

  lemma SizedAt(name: string, size: string, k: nat)
    requires k < |Sized(name, size)|
    ensures Sized(name, size)[k] == if k < |name| then name[k] else if k == |name| then '('
                                    else if k <= |name| + |size| then size[k - |name| - 1] else ')'
  {
  }

  lemma SizedCharacters(name: string, size: string)
    requires IsPlain(name) && AllDigits(size)
    ensures var s := Sized(name, size); ToLower(s) == s && 'i' !in s && 'd' !in s
  {
    var s := Sized(name, size);
    forall k | 0 <= k < |s| ensures s[k] in {'v', 'a', 'r', 'c', 'h', '(', ')'} || IsDigit(s[k]) {
      SizedAt(name, size, k);
      assert k < |name| ==> name[k] in name;
    }
    hide Sized;
    forall c | c in s ensures c in {'v', 'a', 'r', 'c', 'h', '(', ')'} || IsDigit(c) {
      var k :| 0 <= k < |s| && s[k] == c;
    }
  }

  /** What stands where in a name with something between parentheses. */
  lemma SizedParts(name: string, size: string)
    requires IsPlain(name) && AllDigits(size)
    ensures var s := Sized(name, size);
            && IndexOf(s, '(') == |name| < |s| && IndexFrom(s, ')', |name| + 1) == |s| - 1
            && s[|name| + 1..|s| - 1] == size && s[..|name| + 1] + ")" == name + "()"
  {
    var s := Sized(name, size);
    assert s[|name| + 1..|s| - 1] == size && s[..|name| + 1] == name + "(";
    assert s[..|name| + 1] + ")" == name + "()";
    forall k | 0 <= k < |s|
      ensures (k == |name| <==> s[k] == '(') && (k == |s| - 1 <==> s[k] == ')')
    {
      SizedAt(name, size, k);
      assert k < |name| ==> name[k] in name;
    }
    hide Sized, IsPlain;
    IndexOfIs(s, '(', |name|);
    assert s[|s| - 1] == ')';
    assert s[IndexFrom(s, ')', |name| + 1)] == ')';
  }

  lemma OrdinaryName(s: string)
    requires 'i' !in s && 'd' !in s
    ensures !Contains(s, "integer(") && !Contains(s, "varbinary(") && !Contains(s, "datetime")
  {
    hide Contains;
    NotContained(s, "integer(", 'i');
    NotContained(s, "varbinary(", 'i');
    NotContained(s, "datetime", 'd');
  }

  /** A name with a length between parentheses. */
  lemma SizedComesBack(name: string, v: nat)
    requires v < 0x8000_0000 && IsPlain(name) && Lookup(name + "()").Some?
    ensures GetTypeFromStr(name + "(" + Decimal(v) + ")") == Some(TypeAndLength(Lookup(name + "()").value, v))
  {
    var s := name + "(" + Decimal(v) + ")";
    assert AllDigits(Decimal(v));
    assert s == Sized(name, Decimal(v));
    hide Lookup, Contains, ToLower, Stoi, Decimal, IndexOf, IndexFrom, Sized;
    SizedParts(name, Decimal(v));
    SizedCharacters(name, Decimal(v));
    OrdinaryName(s);
    DecimalComesBack(v);
    Small(v, WORD);
  }

  /** A name without a length, or of a date or time. */
  lemma PlainComesBack(name: string)
    requires Lookup(name).Some? && forall c <- name :: !IsUpper(c)
    requires !Contains(name, "integer(") && !Contains(name, "varbinary(")
    requires '(' in name ==> Contains(name, "datetime")
    ensures GetTypeFromStr(name) == Some(TypeAndLength(Lookup(name).value, TypeSize(Lookup(name).value)))
  {
    hide Lookup, Contains;
  }

  lemma Lookups()
    ensures Lookup("string") == Some(StringType) && Lookup("varchar") == Some(Varchar) && Lookup("char") == Some(CharType)
    ensures Lookup("int") == Some(IntType) && Lookup("float") == Some(FloatType)
    ensures Lookup("varchar()") == Some(VarcharN) && Lookup("char()") == Some(CharN)
  {
  }

  lemma DateLookups()
    ensures Lookup("datetime(date)") == Some(DateType) && Lookup("datetime(time)") == Some(TimeType)
    ensures Lookup("datetime(datetime)") == Some(DateTime)
  {
    assert "datetime(date)"[9] == 'd' && "datetime(time)"[9] == 't';
  }

  lemma LookupOfName(t: TypeAndLength)
    requires t.simpleType !in {VarcharN, CharN, Integer}
    ensures Lookup(NameOf(t)) == Some(t.simpleType)
  {
    Lookups();
    DateLookups();
    hide Lookup;
  }

  /** Every type that has a name is found again by it. */
  lemma TypeComesBack(t: TypeAndLength)
    requires HasName(t)
    ensures GetTypeFromStr(NameOf(t)) == Some(t)
  {
    hide GetTypeFromStr, Contains, IsUpper, Lookup, Decimal;
    Lookups();
    if t.simpleType == VarcharN {
      assert "varchar" + "()" == "varchar()" && "varchar" + "(" == "varchar(";
      SizedComesBack("varchar", t.len);
    } else if t.simpleType == CharN {
      assert "char" + "()" == "char()" && "char" + "(" == "char(";
      SizedComesBack("char", t.len);
    } else {
      hide NameOf;
      LookupOfName(t);
      NameHasNoOther(t);
      PlainComesBack(NameOf(t));
    }
  }

  lemma Spelling(t: TypeAndLength)
    requires t.simpleType !in {VarcharN, CharN, Integer, DateType, TimeType, DateTime}
    ensures var s := NameOf(t); (forall c <- s :: !IsUpper(c)) && '(' !in s
  {
  }

  lemma DateSpelling(t: TypeAndLength)
    requires t.simpleType in {DateType, TimeType, DateTime}
    ensures var s := NameOf(t);
            (forall c <- s :: !IsUpper(c)) && |s| >= 8 && s[..8] == "datetime" && 'g' !in s && 'v' !in s
  {
  }

  lemma NameHasNoOther(t: TypeAndLength)
    requires t.simpleType !in {VarcharN, CharN, Integer}
    ensures var s := NameOf(t);
            && !Contains(s, "integer(") && !Contains(s, "varbinary(") && (forall c <- s :: !IsUpper(c))
            && ('(' in s ==> Contains(s, "datetime"))
  {
    var s := NameOf(t);
    hide NameOf, Contains, IsUpper;
    if t.simpleType in {DateType, TimeType, DateTime} {
      DateSpelling(t);
      ContainedAtStart(s, "datetime");
      NotContained(s, "integer(", 'g');
      NotContained(s, "varbinary(", 'v');
    } else {
      Spelling(t);
      NotContained(s, "integer(", '(');
      NotContained(s, "varbinary(", '(');
    }
  }

  lemma NameIsLine(t: TypeAndLength)
    requires HasName(t)
    ensures IsLine(NameOf(t)) && NameOf(t) != ""
  {
    if t.simpleType == VarcharN || t.simpleType == CharN {
      var digits := Decimal(t.len);
      assert forall k :: 0 <= k < |digits| ==> IsDigit(digits[k]);
      assert IsLine(digits);
      hide Decimal;
    }
  }

  /** The names of types without a length of their own, and the lengths that they stand for. */
  lemma TypesByName()
    ensures GetTypeFromStr("string") == Some(TypeAndLength(StringType, 255))
    ensures GetTypeFromStr("varchar") == Some(TypeAndLength(Varchar, 255))
    ensures GetTypeFromStr("char") == Some(TypeAndLength(CharType, 0))
    ensures GetTypeFromStr("int") == Some(TypeAndLength(IntType, 19))
    ensures GetTypeFromStr("float") == Some(TypeAndLength(FloatType, 59))
    ensures GetTypeFromStr("datetime(date)") == Some(TypeAndLength(DateType, 10))
    ensures GetTypeFromStr("datetime(time)") == Some(TypeAndLength(TimeType, 8))
    ensures GetTypeFromStr("datetime(datetime)") == Some(TypeAndLength(DateTime, 19))
  {
    hide GetTypeFromStr;
    TypeComesBack(TypeAndLength(StringType, 255));
    TypeComesBack(TypeAndLength(Varchar, 255));
    TypeComesBack(TypeAndLength(CharType, 0));
    TypeComesBack(TypeAndLength(IntType, 19));
    TypeComesBack(TypeAndLength(FloatType, 59));
    TypeComesBack(TypeAndLength(DateType, 10));
    TypeComesBack(TypeAndLength(TimeType, 8));
    TypeComesBack(TypeAndLength(DateTime, 19));
  }

  /** Names with a length. */
  lemma TypesWithLength(v: nat)
    requires v < 0x8000_0000
    ensures GetTypeFromStr("varchar(" + Decimal(v) + ")") == Some(TypeAndLength(VarcharN, v))
    ensures GetTypeFromStr("char(" + Decimal(v) + ")") == Some(TypeAndLength(CharN, v))
  {
    hide GetTypeFromStr, Decimal;
    TypeComesBack(TypeAndLength(VarcharN, v));
    TypeComesBack(TypeAndLength(CharN, v));
  }

  /** Types of external databases: whatever else the name says, it is an integer of 19 digits. */
  lemma ExternalTypes(str: string)
    requires Contains(ToLower(str), "integer(") || Contains(ToLower(str), "varbinary(")
    ensures GetTypeFromStr(str) == Some(TypeAndLength(Integer, 19))
  {
    hide Contains, ToLower;
  }

  /** No other name without parentheses is known. */
  lemma UnknownNames(str: string)
    requires '(' !in ToLower(str) && ToLower(str) !in {"string", "varchar", "char", "int", "float"}
    ensures GetTypeFromStr(str) == None
  {
    var s := ToLower(str);
    NotContained(s, "integer(", '(');
    NotContained(s, "varbinary(", '(');
    NoParenthesis(s);
    hide Contains, ToLower;
    assert IndexOf(s, '(') == |s|;
  }

  lemma NoParenthesis(s: string)
    requires '(' !in s
    ensures Lookup(s).Some? ==> s in {"string", "varchar", "char", "int", "float"}
  {
    assert "varchar()"[7] == '(' && "char()"[4] == '(' && "datetime(date)"[8] == '(';
    assert "datetime(time)"[8] == '(' && "datetime(datetime)"[8] == '(';
  }

  /** Letters count the same in upper and in lower case. */
  lemma LetterCase(a: string, b: string)
    requires |a| == |b| && forall k :: 0 <= k < |a| ==>
               a[k] == b[k] || ('A' <= a[k] <= 'Z' && b[k] as int == a[k] as int + 32)
                            || ('A' <= b[k] <= 'Z' && a[k] as int == b[k] as int + 32)
    ensures GetTypeFromStr(a) == GetTypeFromStr(b)
  {
    SameInLowerCase(a, b);
    hide *;
    OnlyLowerCase(a);
    OnlyLowerCase(b);
  }

  /** The type depends only on the name in lower case. */
  lemma OnlyLowerCase(a: string)
    ensures GetTypeFromStr(a) == GetTypeFromStr(ToLower(a))
  {
    assert ToLower(ToLower(a)) == ToLower(a) by {
      forall c | c in ToLower(a) ensures !IsUpper(c) {
        var k :| 0 <= k < |ToLower(a)| && ToLower(a)[k] == c;
        LowerAt(a, k);
      }
    }
    hide Contains, ToLower, Lookup, Stoi;
  }

  lemma SameInLowerCase(a: string, b: string)
    requires |a| == |b| && forall k :: 0 <= k < |a| ==>
               a[k] == b[k] || ('A' <= a[k] <= 'Z' && b[k] as int == a[k] as int + 32)
                            || ('A' <= b[k] <= 'Z' && a[k] as int == b[k] as int + 32)
    ensures ToLower(a) == ToLower(b)
  {
    forall k | 0 <= k < |a| ensures ToLower(a)[k] == ToLower(b)[k] {
      LowerAt(a, k);
      LowerAt(b, k);
    }
    hide ToLower;
  }

  lemma LowerAt(s: string, k: nat)
    requires k < |s|
    ensures |ToLower(s)| == |s|
    ensures ToLower(s)[k] as int == if 'A' <= s[k] <= 'Z' then s[k] as int + 32 else s[k] as int
  {
  }

  lemma {:induction false} SpacesAreSkipped(blanks: string, rest: string, i: nat)
    requires i <= |blanks| && forall c <- blanks :: c == ' ' || 9 <= c as int <= 13
    requires rest != "" ==> !(rest[0] == ' ' || 9 <= rest[0] as int <= 13)
    ensures SkipSpaces(blanks + rest, i) == |blanks|
    decreases |blanks| - i
  {
    if i < |blanks| {
      assert blanks[i] in blanks;
      SpacesAreSkipped(blanks, rest, i + 1);
    }
  }

  lemma {:induction false} DigitsAreSkipped(front: string, digits: string, rest: string, i: nat)
    requires AllDigits(digits) && i <= |digits| && (rest != "" ==> !IsDigit(rest[0]))
    ensures SkipDigits(front + (digits + rest), |front| + i) == |front| + |digits|
    decreases |digits| - i
  {
    var s := front + (digits + rest);
    if i < |digits| {
      assert s[|front| + i] == digits[i];
      DigitsAreSkipped(front, digits, rest, i + 1);
    } else {
      assert rest != "" ==> s[|front| + i] == rest[0];
    }
  }

  /** Spacing, a minus sign or none, and digits are an integer if it fits in 32 bits; without digits, or beyond, the
      call throws. What follows the digits is left out. */
  lemma StoiTakes(blanks: string, negative: bool, digits: string, rest: string)
    requires (forall c <- blanks :: c == ' ' || 9 <= c as int <= 13) && AllDigits(digits)
    requires rest != "" ==> !IsDigit(rest[0])
    requires digits == "" && !negative ==> rest == ""
    ensures var v: int := if negative then 0 - NatOf(digits) else NatOf(digits);
            Stoi(blanks + ((if negative then "-" else "") + (digits + rest)))
            == if digits != "" && -0x8000_0000 <= v <= 0x7fff_ffff then Some(v) else None
  {
    var sign := if negative then "-" else "";
    var text := sign + (digits + rest);
    hide *;
    SignedStart(negative, digits, rest);
    SpacesAreSkipped(blanks, text, 0);
    DigitsAreSkipped(blanks + sign, digits, rest, 0);
    SignedParts(blanks, sign, digits, rest);
    StoiAt(blanks + text, |blanks|, negative, digits);
  }

  lemma SignedStart(negative: bool, digits: string, rest: string)
    requires AllDigits(digits) && (digits == "" && !negative ==> rest == "")
    ensures var text := (if negative then "-" else "") + (digits + rest);
            && (negative <==> text != "" && text[0] == '-')
            && (text != "" ==> text[0] != '+' && text[0] != ' ' && !(9 <= text[0] as int <= 13))
  {
    var text := (if negative then "-" else "") + (digits + rest);
    if text != "" {
      assert text[0] == if negative then '-' else digits[0];
    }
  }

  lemma SignedParts(blanks: string, sign: string, digits: string, rest: string)
    ensures var s, start := blanks + (sign + (digits + rest)), |blanks| + |sign|;
            && s == (blanks + sign) + (digits + rest) && start == |blanks + sign|
            && start + |digits| <= |s| && s[start..start + |digits|] == digits
            && (sign + (digits + rest) != "" ==> |blanks| < |s| && s[|blanks|] == (sign + (digits + rest))[0])
            && (sign + (digits + rest) == "" ==> |s| == |blanks|)
  {
    assert blanks + (sign + (digits + rest)) == (blanks + sign) + (digits + rest);
  }

  lemma StoiAt(s: string, i: nat, negative: bool, digits: string)
    requires AllDigits(digits) && i <= |s| && SkipSpaces(s, 0) == i
    requires negative <==> i < |s| && s[i] == '-'
    requires i < |s| ==> s[i] != '+'
    requires var start := if negative then i + 1 else i;
             start + |digits| <= |s| && s[start..start + |digits|] == digits && SkipDigits(s, start) == start + |digits|
    ensures var v: int := if negative then 0 - NatOf(digits) else NatOf(digits);
            Stoi(s) == if digits != "" && -0x8000_0000 <= v <= 0x7fff_ffff then Some(v) else None
  {
    hide SkipSpaces, SkipDigits, NatOf;
    var start := if negative then i + 1 else i;
    assert (start + |digits| > start) <==> digits != "";
    hide AllDigits;
  }
}
