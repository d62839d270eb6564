/** Search patterns of catalog functions: how they become regular expressions, and that these match the same names. */
module Pattern {
  import opened Options
  import opened Basics

  // ---------------------------------------------------------------------------------- ODBC search patterns

  predicate IsLineTerminator(c: char) {
    c == '\n' || c == '\r'
  }

  /** A wildcard takes this character; across lines only if that is asked for. */
  predicate Wild(c: char, lines: bool) {
    lines || !IsLineTerminator(c)
  }

  predicate WildRun(s: string, j: nat, k: nat, lines: bool)
    requires j <= k <= |s|
  {
    forall m :: j <= m < k ==> Wild(s[m], lines)
  }

  /** The pattern from i on matches the name from j on: a percent sign stands for any run of characters, an underscore
      for one character, and a backslash takes its meaning from the character behind it. */
  predicate OdbcMatches(p: string, i: nat, s: string, j: nat, lines: bool)
    requires i <= |p| && j <= |s|
    decreases |p| - i
  {
    if i == |p| then j == |s|
    else if p[i] == '%' then exists k :: j <= k <= |s| && WildRun(s, j, k, lines) && OdbcMatches(p, i + 1, s, k, lines)
    else if p[i] == '_' then j < |s| && Wild(s[j], lines) && OdbcMatches(p, i + 1, s, j + 1, lines)
    else if p[i] == '\\' && i + 1 < |p| then j < |s| && s[j] == p[i + 1] && OdbcMatches(p, i + 2, s, j + 1, lines)
    else j < |s| && s[j] == p[i] && OdbcMatches(p, i + 1, s, j + 1, lines)
  }

  // ---------------------------------------------------------------------------------- regular expressions

  /** The characters that the ECMAScript grammar does not take as they are (SyntaxCharacter, section 21.2.1 of
      ECMA-262). */
  predicate IsSyntaxCharacter(c: char) {
    || c == '^' || c == '$' || c == '\\' || c == '.' || c == '*' || c == '+' || c == '?'
    || c == '(' || c == ')' || c == '[' || c == ']' || c == '{' || c == '}' || c == '|'
  }

  predicate IsAlphanumeric(c: char) {
    'a' <= c <= 'z' || 'A' <= c <= 'Z' || '0' <= c <= '9'
  }

  /** An atom of a regular expression, perhaps repeated any number of times. */
  datatype Atom = Any | Literal(c: char)
  datatype Item = Item(atom: Atom, star: bool)

  predicate Takes(a: Atom, c: char) {
    match a
    case Any => c != '\n' && c != '\r'
    case Literal(l) => c == l
  }

  predicate TakesRun(a: Atom, s: string, j: nat, k: nat)
    requires j <= k <= |s|
  {
    forall m :: j <= m < k ==> Takes(a, s[m])
  }

  /** The items from n on match the name from j to its end. */
  predicate RegexMatches(items: seq<Item>, n: nat, s: string, j: nat)
    requires n <= |items| && j <= |s|
    decreases |items| - n
  {
    if n == |items| then j == |s|
    else if items[n].star then
      exists k :: j <= k <= |s| && TakesRun(items[n].atom, s, j, k) && RegexMatches(items, n + 1, s, k)
    else j < |s| && Takes(items[n].atom, s[j]) && RegexMatches(items, n + 1, s, j + 1)
  }

  /** What reading an expression comes to: a meaning, a backslash at the end with nothing to escape, which no library
      accepts, or something outside the grammar that is modelled here. The first trouble counts. */
  datatype Understanding<+T> = Read(value: T) | Dangling | Foreign

  /** The atom at the start of an expression and its length. An escaped letter or digit would mean something else. */
  function ParseAtom(rx: string): (r: Understanding<(Atom, nat)>)
    requires rx != ""
    ensures r.Read? ==> 0 < r.value.1 <= |rx|
  {
    if rx[0] == '\\' then
      if |rx| == 1 then Dangling else if IsAlphanumeric(rx[1]) then Foreign else Read((Literal(rx[1]), 2))
    else if rx[0] == '.' then Read((Any, 1))
    else if IsSyntaxCharacter(rx[0]) then Foreign
    else Read((Literal(rx[0]), 1))
  }

  /** Atoms one after the other, each perhaps repeated. */
  function Parse(rx: string): Understanding<seq<Item>>
    decreases |rx|
  {
    if rx == "" then Read([])
    else match ParseAtom(rx)
      case Dangling => Dangling
      case Foreign => Foreign
      case Read((atom, n)) =>
        var star := n < |rx| && rx[n] == '*';
        match Parse(rx[if star then n + 1 else n..])
        case Dangling => Dangling
        case Foreign => Foreign
        case Read(items) => Read([Item(atom, star)] + items)
  }

  /** What the library makes of an expression outside the grammar: it may refuse it, or match names in its own way. */
  type Library = string -> Option<string -> bool>

  datatype Regex = Known(items: seq<Item>) | Other(matches: string -> bool)

  /** Compiling an expression. Where it is refused the call throws. */
  function Compile(rx: string, library: Library): Option<Regex> {
    match Parse(rx)
    case Read(items) => Some(Known(items))
    case Dangling => None
    case Foreign =>
      match library(rx)
      case None => None
      case Some(matches) => Some(Other(matches))
  }

  predicate Accepts(rx: Regex, name: string) {
    match rx
    case Known(items) => RegexMatches(items, 0, name, 0)
    case Other(matches) => matches(name)
  }

  // ---------------------------------------------------------------------------------- the translation

  const SPECIAL_CHARACTERS := {'^', '$', '.', '*', '+', '?', '(', ')', '[', ']', '{', '}', '|'}

  predicate IsSpecial(c: char) {
    c in SPECIAL_CHARACTERS
  }

  /** The regular expression for one character of a pattern. */
  function Escaped(c: char): string {
    if IsSpecial(c) then ['\\', c] else [c]
  }

  /** The part of a pattern that is translated at once, and its translation. */
  function Width(p: string, i: nat): (n: nat)
    requires i < |p|
    ensures 0 < n <= |p| - i
  {
    if p[i] == '\\' && i + 1 < |p| then 2 else 1
  }

  function Part(p: string, i: nat): string
    requires i < |p|
  {
    if p[i] == '%' then ".*"
    else if p[i] == '_' then "."
    else if p[i] == '\\' && i + 1 < |p| then [p[i], p[i + 1]]
    else Escaped(p[i])
  }

  function Translated(p: string, i: nat): string
    requires i <= |p|
    decreases |p| - i
  {
    if i == |p| then "" else Part(p, i) + Translated(p, i + Width(p, i))
  }

  method OdbcPatternToRegexPattern(odbcPattern: string) returns (regexPattern: string)
    ensures regexPattern == Translated(odbcPattern, 0)
  {
    regexPattern := "";
    var i := 0;
    while i < |odbcPattern|
      invariant i <= |odbcPattern| && regexPattern + Translated(odbcPattern, i) == Translated(odbcPattern, 0)
    {
      ghost var before, start := regexPattern, i;
      if odbcPattern[i] in SPECIAL_CHARACTERS {
        regexPattern := regexPattern + "\\";
      }
      if odbcPattern[i] == '%' {
        regexPattern := regexPattern + ".*";
      } else if odbcPattern[i] == '_' {
        regexPattern := regexPattern + ".";
      } else if odbcPattern[i] == '\\' && i + 1 < |odbcPattern| {
        regexPattern := regexPattern + [odbcPattern[i]] + [odbcPattern[i + 1]];
        i := i + 1;
      } else {
        regexPattern := regexPattern + [odbcPattern[i]];
      }
      i := i + 1;
      assert regexPattern == before + Part(odbcPattern, start) && i == start + Width(odbcPattern, start);
      Regroup(before, Part(odbcPattern, start), Translated(odbcPattern, i));
    }
  }

  // ---------------------------------------------------------------------------------- what it means

  function ItemOf(p: string, i: nat): Item
    requires i < |p|
  {
    if p[i] == '%' then Item(Any, true)
    else if p[i] == '_' then Item(Any, false)
    else if p[i] == '\\' && i + 1 < |p| then Item(Literal(p[i + 1]), false)
    else Item(Literal(p[i]), false)
  }

  function Meaning(p: string, i: nat): seq<Item>
    requires i <= |p|
    decreases |p| - i
  {
    if i == |p| then [] else [ItemOf(p, i)] + Meaning(p, i + Width(p, i))
  }

  /** Every backslash takes a character behind it that is no letter and no digit. */
  predicate EscapesFine(p: string, i: nat)
    requires i <= |p|
    decreases |p| - i
  {
    i == |p|
    || ((p[i] == '\\' ==> i + 1 < |p| && !IsAlphanumeric(p[i + 1])) && EscapesFine(p, i + Width(p, i)))
  }

  /** A backslash at the end has nothing to escape, and no letter or digit is escaped in front of it. */
  predicate Dangles(p: string, i: nat)
    requires i <= |p|
    decreases |p| - i
  {
    i < |p|
    && if p[i] == '\\' && i + 1 == |p| then true
       else (p[i] == '\\' ==> !IsAlphanumeric(p[i + 1])) && Dangles(p, i + Width(p, i))
  }

  /** What a pattern comes to as an expression. */
  function Understood(p: string, i: nat): Understanding<seq<Item>>
    requires i <= |p|
  {
    if EscapesFine(p, i) then Read(Meaning(p, i)) else if Dangles(p, i) then Dangling else Foreign
  }

  /** A character without a meaning of its own is translated so that the grammar reads it as that character: escaped
      exactly if the grammar would not take it as it is. */
  lemma CharacterIsLiteral(c: char)
    requires c != '%' && c != '_' && c != '\\'
    ensures Parse(Translated([c], 0)) == Read([Item(Literal(c), false)])
    ensures Translated([c], 0) == if IsSyntaxCharacter(c) then ['\\', c] else [c]
  {
    OneCharacter([c]);
  }

  lemma OneCharacter(p: string)
    requires |p| == 1 && p[0] != '\\'
    ensures Translated(p, 0) == Part(p, 0) && Parse(Translated(p, 0)) == Read([ItemOf(p, 0)])
  {
    TranslationParses(p, 0);
    assert Translated(p, 1) == "" && Meaning(p, 1) == [] && EscapesFine(p, 1);
    assert Width(p, 0) == 1;
    assert EscapesFine(p, 0);
    assert Meaning(p, 0) == [ItemOf(p, 0)];
    hide Parse, Part, ItemOf, EscapesFine, Meaning;
  }

  /** A wildcard is translated to the point, repeated for a percent sign. */
  lemma WildcardsAreAny(p: string)
    ensures p == "%" ==> Translated(p, 0) == ".*" && Parse(Translated(p, 0)) == Read([Item(Any, true)])
    ensures p == "_" ==> Translated(p, 0) == "." && Parse(Translated(p, 0)) == Read([Item(Any, false)])
  {
    if p == "%" || p == "_" {
      OneCharacter(p);
    }
    hide Parse;
  }

  /** Where no repetition follows, a part is read back as one item. */
  lemma PartIsItem(p: string, i: nat, rest: string)
    requires i < |p| && (rest != "" ==> rest[0] != '*') && (i + Width(p, i) == |p| ==> rest == "")
    ensures var rx := Part(p, i) + rest;
            Parse(rx) == if p[i] == '\\' && i + 1 == |p| then Dangling
                         else if p[i] == '\\' && IsAlphanumeric(p[i + 1]) then Foreign
                         else match Parse(rest)
                           case Read(items) => Read([ItemOf(p, i)] + items)
                           case Dangling => Dangling
                           case Foreign => Foreign
    ensures Part(p, i) != "" && Part(p, i)[0] != '*'
  {
    var rx, part := Part(p, i) + rest, Part(p, i);
    assert rx[0] == part[0] && (|part| > 1 ==> rx[1] == part[1]);
    assert rx[|part|..] == rest;
    assert |part| < |rx| ==> rx[|part|] == rest[0];
    assert |part| == 1 || |part| == 2;
  }

  /** The translation means the pattern if and only if every escape is fine. It is refused by every library if a
      backslash dangles, and outside the grammar if a letter or digit is escaped first. */
  lemma {:induction false} TranslationParses(p: string, i: nat)
    requires i <= |p|
    ensures Parse(Translated(p, i)) == Understood(p, i)
    ensures Translated(p, i) != "" ==> Translated(p, i)[0] != '*'
    decreases |p| - i
  {
    if i < |p| {
      TranslationParses(p, i + Width(p, i));
      PartIsItem(p, i, Translated(p, i + Width(p, i)));
      hide Parse, Part, ItemOf;
    }
  }

  lemma {:induction false} OneItemMore(x: Item, items: seq<Item>, n: nat, s: string, j: nat)
    requires n <= |items| && j <= |s|
    ensures RegexMatches([x] + items, n + 1, s, j) == RegexMatches(items, n, s, j)
    decreases |items| - n
  {
    if n < |items| {
      assert ([x] + items)[n + 1] == items[n];
      var next, after := n + 1, n + 2;
      forall k | j <= k <= |s| ensures RegexMatches([x] + items, after, s, k) == RegexMatches(items, next, s, k) {
        OneItemMore(x, items, next, s, k);
      }
    }
  }

  lemma MatchItem(x: Item, items: seq<Item>, s: string, j: nat)
    requires j <= |s|
    ensures RegexMatches([x] + items, 0, s, j) <==>
              if x.star then exists k :: j <= k <= |s| && TakesRun(x.atom, s, j, k) && RegexMatches(items, 0, s, k)
              else j < |s| && Takes(x.atom, s[j]) && RegexMatches(items, 0, s, j + 1)
  {
    forall k | j <= k <= |s| ensures RegexMatches([x] + items, 1, s, k) == RegexMatches(items, 0, s, k) {
      OneItemMore(x, items, 0, s, k);
    }
    assert ([x] + items)[0] == x;
  }

  /** The items of a pattern match what the pattern matches within lines. */
  lemma {:induction false} MeaningMatches(p: string, i: nat, s: string, j: nat)
    requires i <= |p| && j <= |s|
    ensures RegexMatches(Meaning(p, i), 0, s, j) == OdbcMatches(p, i, s, j, false)
    decreases |p| - i
  {
    if i < |p| {
      var rest := i + Width(p, i);
      MatchItem(ItemOf(p, i), Meaning(p, rest), s, j);
      assert forall k :: j <= k <= |s| ==> TakesRun(Any, s, j, k) == WildRun(s, j, k, false);
      forall k | j <= k <= |s|
        ensures RegexMatches(Meaning(p, rest), 0, s, k) == OdbcMatches(p, rest, s, k, false)
      {
        MeaningMatches(p, rest, s, k);
      }
    }
  }

  predicate OneLine(s: string) {
    forall c <- s :: !IsLineTerminator(c)
  }

  lemma {:induction false} LinesDoNotMatter(p: string, i: nat, s: string, j: nat)
    requires i <= |p| && j <= |s| && OneLine(s)
    ensures OdbcMatches(p, i, s, j, true) == OdbcMatches(p, i, s, j, false)
    decreases |p| - i
  {
    if i < |p| {
      var rest := i + Width(p, i);
      forall k | j <= k <= |s| ensures OdbcMatches(p, rest, s, k, true) == OdbcMatches(p, rest, s, k, false) {
        LinesDoNotMatter(p, rest, s, k);
      }
      assert forall m :: 0 <= m < |s| ==> s[m] in s;
      assert forall k :: j <= k <= |s| ==> WildRun(s, j, k, true) == WildRun(s, j, k, false);
    }
  }

  /** A whole name matches the expression exactly when it matches the pattern: always if no wildcard goes across lines,
      and with the meaning that ODBC gives to wildcards if the name is one line. */
  lemma TranslationPreservesMatching(p: string, s: string)
    requires EscapesFine(p, 0)
    ensures Parse(Translated(p, 0)) == Read(Meaning(p, 0))
    ensures RegexMatches(Meaning(p, 0), 0, s, 0) == OdbcMatches(p, 0, s, 0, false)
    ensures OneLine(s) ==> RegexMatches(Meaning(p, 0), 0, s, 0) == OdbcMatches(p, 0, s, 0, true)
  {
    TranslationParses(p, 0);
    MeaningMatches(p, 0, s, 0);
    if OneLine(s) {
      LinesDoNotMatter(p, 0, s, 0);
    }
  }

  /** A name is matched by every pattern as ODBC means it if and only if it is one line. */
  lemma RightForOneLineOnly(s: string)
    ensures OneLine(s) <==>
              forall p: string | EscapesFine(p, 0) ::
                RegexMatches(Meaning(p, 0), 0, s, 0) == OdbcMatches(p, 0, s, 0, true)
  {
    forall p: string | OneLine(s) && EscapesFine(p, 0)
      ensures RegexMatches(Meaning(p, 0), 0, s, 0) == OdbcMatches(p, 0, s, 0, true)
    {
      TranslationPreservesMatching(p, s);
    }
    PercentIsAnything(s);
  }

  /** A percent sign stands for every name, in the expression only for names of one line. */
  lemma PercentIsAnything(s: string)
    ensures EscapesFine("%", 0) && OdbcMatches("%", 0, s, 0, true)
    ensures RegexMatches(Meaning("%", 0), 0, s, 0) <==> OneLine(s)
  {
    MeaningMatches("%", 0, s, 0);
    assert OdbcMatches("%", 1, s, |s|, true) && WildRun(s, 0, |s|, true);
    assert forall k :: 0 <= k <= |s| ==> (OdbcMatches("%", 1, s, k, false) <==> k == |s|);
    assert OneLine(s) <==> WildRun(s, 0, |s|, false) by {
      assert forall m :: 0 <= m < |s| ==> s[m] in s;
    }
  }

  /** An underscore stands for a line feed in a pattern but not in the expression. */
  lemma LineFeedIsMissed()
    ensures OdbcMatches("_", 0, "\n", 0, true)
    ensures Parse(Translated("_", 0)) == Read(Meaning("_", 0)) && !RegexMatches(Meaning("_", 0), 0, "\n", 0)
  {
    TranslationParses("_", 0);
    MeaningMatches("_", 0, "\n", 0);
    assert OdbcMatches("_", 1, "\n", 1, true);
  }

  // ---------------------------------------------------------------------------------- searching

  /** The names that the expression matches, in order. */
  function Selected(rx: Regex, names: seq<string>, n: nat): seq<string>
    requires n <= |names|
  {
    if n == 0 then [] else Selected(rx, names, n - 1) + if Accepts(rx, names[n - 1]) then [names[n - 1]] else []
  }

  /** The names that the pattern matches, in order. */
  function OdbcSelected(pattern: string, names: seq<string>, n: nat, lines: bool): seq<string>
    requires n <= |names|
  {
    if n == 0 then []
    else OdbcSelected(pattern, names, n - 1, lines)
         + if OdbcMatches(pattern, 0, names[n - 1], 0, lines) then [names[n - 1]] else []
  }

  lemma {:induction false} SelectedIsOdbcSelected(pattern: string, names: seq<string>, n: nat)
    requires n <= |names| && EscapesFine(pattern, 0)
    ensures Selected(Known(Meaning(pattern, 0)), names, n) == OdbcSelected(pattern, names, n, false)
    ensures (forall name <- names :: OneLine(name)) ==>
              OdbcSelected(pattern, names, n, false) == OdbcSelected(pattern, names, n, true)
  {
    if n > 0 {
      SelectedIsOdbcSelected(pattern, names, n - 1);
      assert names[n - 1] in names;
      TranslationPreservesMatching(pattern, names[n - 1]);
      hide Parse, Translated, OdbcMatches, RegexMatches, Meaning, OneLine;
    }
  }

  /** What a search finds; nothing when compiling throws. */
  function Found(pattern: string, names: seq<string>, library: Library): Option<seq<string>> {
    match Compile(Translated(pattern, 0), library)
    case None => None
    case Some(rx) => Some(Selected(rx, names, |names|))
  }

  /** A search throws if a backslash dangles. If all escapes are fine it finds exactly the names that match within
      lines, in order, which for names of one line is what the pattern means. Only otherwise is it up to the library. */
  lemma FoundIs(pattern: string, names: seq<string>, library: Library)
    ensures Dangles(pattern, 0) ==> Found(pattern, names, library) == None
    ensures EscapesFine(pattern, 0) ==>
              Found(pattern, names, library) == Some(OdbcSelected(pattern, names, |names|, false))
    ensures EscapesFine(pattern, 0) && (forall name <- names :: OneLine(name)) ==>
              Found(pattern, names, library) == Some(OdbcSelected(pattern, names, |names|, true))
    ensures !EscapesFine(pattern, 0) && !Dangles(pattern, 0) ==>
              (Found(pattern, names, library) == None <==> library(Translated(pattern, 0)).None?)
  {
    TranslationParses(pattern, 0);
    DanglingIsNotFine(pattern, 0);
    if EscapesFine(pattern, 0) {
      SelectedIsOdbcSelected(pattern, names, |names|);
    }
    hide Parse, Translated, Meaning, Selected, OdbcSelected, OneLine, EscapesFine, Dangles;
  }

  lemma {:induction false} DanglingIsNotFine(p: string, i: nat)
    requires i <= |p|
    ensures !(Dangles(p, i) && EscapesFine(p, i))
    decreases |p| - i
  {
    if i < |p| {
      DanglingIsNotFine(p, i + Width(p, i));
    }
  }

  method SearchOdbcPattern(pattern: string, names: seq<string>, library: Library) returns (found: Option<seq<string>>)
    ensures found == Found(pattern, names, library)
  {
    var regexPattern := OdbcPatternToRegexPattern(pattern);
    var rx := Compile(regexPattern, library);
    if rx.None? {
      return None;
    }
    var coincidences := [];
    for i := 0 to |names|
      invariant coincidences == Selected(rx.value, names, i)
    {
      if Accepts(rx.value, names[i]) {
        coincidences := coincidences + [names[i]];
      }
    }
    found := Some(coincidences);
  }

  /** The candidates for a key: all of them for an empty key, the key itself if it is to be taken as it is, and
      otherwise those that a search finds. */
  function Candidates(names: seq<string>, key: string, metadataId: bool, library: Library): Option<seq<string>> {
    if key == "" then Some(names)
    else if metadataId then Some(if key in names then [key] else [])
    else Found(key, names, library)
  }

  method FilterCandidates(candidates: seq<string>, key: string, metadataId: bool, library: Library)
    returns (found: Option<seq<string>>)
    ensures found == Candidates(candidates, key, metadataId, library)
  {
    var res := [];
    if |key| == 0 {
      res := candidates;
    } else if !metadataId {
      found := SearchOdbcPattern(key, candidates, library);
      return;
    } else {
      for i := 0 to |candidates|
        invariant res == [] && key !in candidates[..i]
      {
        if candidates[i] == key {
          res := [key];
          break;
        }
      }
    }
    found := Some(res);
  }

  /** A key that cannot be compiled makes the filter throw, whatever the candidates are. */
  predicate Refused(key: string, metadataId: bool, library: Library) {
    key != "" && !metadataId && Compile(Translated(key, 0), library).None?
  }

  /** The filter throws if and only if the key is a pattern that is refused. That is so for a dangling backslash, and
      not so if all escapes are fine; for escaped letters and digits it is up to the library. */
  lemma FilterThrows(names: seq<string>, key: string, metadataId: bool, library: Library)
    ensures Candidates(names, key, metadataId, library).None? <==> Refused(key, metadataId, library)
    ensures key != "" && !metadataId && Dangles(key, 0) ==> Refused(key, metadataId, library)
    ensures EscapesFine(key, 0) ==> !Refused(key, metadataId, library)
  {
    TranslationParses(key, 0);
    DanglingIsNotFine(key, 0);
    hide Parse, Translated, Meaning, Selected, EscapesFine, Dangles;
  }

  /** What a key asks for. */
  predicate Fits(key: string, metadataId: bool, name: string) {
    key == "" || if metadataId then name == key else OdbcMatches(key, 0, name, 0, false)
  }

  lemma {:induction false} SelectedHolds(pattern: string, names: seq<string>, n: nat, name: string)
    requires n <= |names|
    ensures name in OdbcSelected(pattern, names, n, false) <==>
              name in names[..n] && OdbcMatches(pattern, 0, name, 0, false)
  {
    if n > 0 {
      SelectedHolds(pattern, names, n - 1, name);
      assert names[..n] == names[..n - 1] + [names[n - 1]];
      hide OdbcMatches;
    }
  }

  /** The filter keeps exactly the candidates that the key asks for. */
  lemma FilterHolds(names: seq<string>, key: string, metadataId: bool, library: Library, name: string)
    requires metadataId || EscapesFine(key, 0)
    ensures var found := Candidates(names, key, metadataId, library);
            found.Some? && (name in found.value <==> name in names && Fits(key, metadataId, name))
  {
    if key != "" && !metadataId {
      FoundIs(key, names, library);
      SelectedHolds(key, names, |names|, name);
      assert names[..|names|] == names;
    }
    hide Found, OdbcSelected, OdbcMatches, EscapesFine;
  }

  lemma {:induction false} SelectedInside(rx: Regex, names: seq<string>, n: nat, name: string)
    requires n <= |names|
    ensures name in Selected(rx, names, n) ==> name in names
  {
    if n > 0 {
      SelectedInside(rx, names, n - 1, name);
      hide Accepts;
    }
  }

  /** The filter adds no name. */
  lemma FilterInside(names: seq<string>, key: string, metadataId: bool, library: Library, name: string)
    requires Candidates(names, key, metadataId, library).Some?
    ensures name in Candidates(names, key, metadataId, library).value ==> name in names
  {
    var rx := Compile(Translated(key, 0), library);
    if rx.Some? {
      SelectedInside(rx.value, names, |names|, name);
    }
    hide Selected, Compile, Translated;
  }

  /** An escaped letter or digit makes a pattern neither fine nor dangling, any other escaped character makes it fine.
      */
  lemma EscapedCharacter(c: char)
    ensures EscapesFine(['\\', c], 0) <==> !('a' <= c <= 'z' || 'A' <= c <= 'Z' || '0' <= c <= '9')
    ensures !Dangles(['\\', c], 0) && Dangles(['\\'], 0)
  {
    assert Width(['\\', c], 0) == 2;
  }
}
