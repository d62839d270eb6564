/** The text answers of the server: lines, and lists in brackets. */
module TapiText {
  import opened Options
  import opened Basics
  import opened Numbers

  predicate IsBlank(c: char) {
    c == ' ' || c == '\t' || c == '\r'
  }

  /** A text without certain characters. */
  function Without(s: string, dropped: set<char>): string {
    if s == "" then ""
    else Without(s[..|s| - 1], dropped) + if s[|s| - 1] in dropped then "" else [s[|s| - 1]]
  }

  lemma {:induction false} WithoutConcat(a: string, b: string, dropped: set<char>)
    ensures Without(a + b, dropped) == Without(a, dropped) + Without(b, dropped)
  {
    if b == "" {
      assert a + b == a;
    } else {
      assert (a + b)[..|a + b| - 1] == a + b[..|b| - 1];
      WithoutConcat(a, b[..|b| - 1], dropped);
    }
  }

  predicate FreeOf(s: string, dropped: set<char>) {
    forall c <- s :: c !in dropped
  }

  lemma {:induction false} NothingToDrop(s: string, dropped: set<char>)
    requires FreeOf(s, dropped)
    ensures Without(s, dropped) == s
  {
    if s != "" {
      NothingToDrop(s[..|s| - 1], dropped);
      assert s[|s| - 1] in s;
    }
  }

  /** The parts of a text from position i on, as a stream hands them out that reads up to a separator: nothing follows a
      separator at the very end. */
  function Split(s: string, sep: char, i: nat): seq<string>
    requires i <= |s|
    decreases |s| - i
  {
    if i == |s| then []
    else
      var end := IndexFrom(s, sep, i);
      [s[i..end]] + if end < |s| then Split(s, sep, end + 1) else []
  }

  method SplitText(s: string, sep: char) returns (parts: seq<string>)
    ensures parts == Split(s, sep, 0)
  {
    parts := [];
    var i := 0;
    while i < |s|
      invariant i <= |s| && parts + Split(s, sep, i) == Split(s, sep, 0)
    {
      var end := IndexFrom(s, sep, i);
      var next := if end < |s| then end + 1 else end;
      OnePart(s, sep, i, next);
      Regroup(parts, [s[i..end]], Split(s, sep, next));
      hide Split;
      parts, i := parts + [s[i..end]], next;
    }
  }

  lemma OnePart(s: string, sep: char, i: nat, next: nat)
    requires i < |s| && next == (var end := IndexFrom(s, sep, i); if end < |s| then end + 1 else end)
    ensures Split(s, sep, i) == [s[i..IndexFrom(s, sep, i)]] + Split(s, sep, next)
  {
  }

  lemma SplitStep(s: string, sep: char, i: nat, part: string)
    requires i + |part| <= |s| && s[i..i + |part|] == part && FreeOf(part, {sep})
    ensures i + |part| < |s| && s[i + |part|] == sep ==>
              Split(s, sep, i) == [part] + Split(s, sep, i + |part| + 1)
    ensures i + |part| == |s| && part != "" ==> Split(s, sep, i) == [part]
  {
    assert forall k :: i <= k < i + |part| ==> s[k] == part[k - i] && part[k - i] in part;
    if i + |part| < |s| && s[i + |part|] == sep {
      assert IndexFrom(s, sep, i) == i + |part|;
    }
  }

  // ---------------------------------------------------------------------------------- lines

  function Cleaned(lines: seq<string>): seq<string> {
    seq(|lines|, k requires 0 <= k < |lines| => Without(lines[k], {'\r'}))
  }

  /** Where the first character stands that is not blank. A line feed is not blank here. */
  function FirstText(s: string, i: nat): (j: nat)
    requires i <= |s|
    ensures i <= j <= |s|
    decreases |s| - i
  {
    if i < |s| && IsBlank(s[i]) then FirstText(s, i + 1) else i
  }

  /** The lines of an answer. A text without any other character than blanks has none: the call throws. */
  function LinesOf(str: string): Option<seq<string>> {
    var first := FirstText(str, 0);
    if first == |str| then None else Some(Cleaned(Split(str[first..], '\n', 0)))
  }

  lemma {:induction false} AllBlank(s: string, i: nat)
    requires i <= |s|
    ensures FirstText(s, i) == |s| <==> forall c <- s[i..] :: IsBlank(c)
    decreases |s| - i
  {
    if i < |s| {
      assert s[i..] == [s[i]] + s[i + 1..];
      AllBlank(s, i + 1);
    }
  }

  /** Exactly the texts of blanks, among them the empty one, have no lines. */
  lemma NoLinesIff(str: string)
    ensures LinesOf(str).None? <==> forall c <- str :: c == ' ' || c == '\t' || c == '\r'
  {
    AllBlank(str, 0);
    assert str[0..] == str;
  }

  lemma {:induction false} FirstTextBehind(blanks: string, str: string, i: nat)
    requires (forall c <- blanks :: c == ' ' || c == '\t' || c == '\r') && i <= |blanks|
    ensures FirstText(blanks + str, i) == |blanks| + FirstText(str, 0)
    decreases |blanks| - i
  {
    if i < |blanks| {
      assert blanks[i] in blanks;
      FirstTextBehind(blanks, str, i + 1);
    } else {
      FirstTextFrom(blanks, str, 0);
    }
  }

  lemma {:induction false} FirstTextFrom(blanks: string, str: string, i: nat)
    requires i <= |str|
    ensures FirstText(blanks + str, |blanks| + i) == |blanks| + FirstText(str, i)
    decreases |str| - i
  {
    if i < |str| {
      FirstTextFrom(blanks, str, i + 1);
    }
  }

  /** Blanks in front of the first line are dropped. */
  lemma LeadingBlanks(blanks: string, str: string)
    requires forall c <- blanks :: c == ' ' || c == '\t' || c == '\r'
    ensures LinesOf(blanks + str) == LinesOf(str)
  {
    FirstTextBehind(blanks, str, 0);
    assert (blanks + str)[|blanks| + FirstText(str, 0)..] == str[FirstText(str, 0)..];
  }

  method GetLines(str: string) returns (lines: Option<seq<string>>)
    ensures lines == LinesOf(str)
  {
    var first := FirstText(str, 0);
    if first == |str| {
      return None;
    }
    var newStr := str[first..];
    var raw := SplitText(newStr, '\n');
    var cleaned := [];
    for i := 0 to |raw|
      invariant cleaned == Cleaned(raw)[..i]
    {
      cleaned := cleaned + [Without(raw[i], {'\r'})];
    }
    assert cleaned == Cleaned(raw);
    lines := Some(cleaned);
  }

  /** Lines as the server writes them. */
  function TextOf(lines: seq<string>): string {
    if lines == [] then "" else lines[0] + "\n" + TextOf(lines[1..])
  }

  predicate IsLine(s: string) {
    FreeOf(s, {'\n', '\r'})
  }

  lemma {:induction false} SplitTextOf(lines: seq<string>, s: string, i: nat)
    requires i <= |s| && s[i..] == TextOf(lines) && forall line <- lines :: IsLine(line)
    ensures Split(s, '\n', i) == lines
    decreases |lines|
  {
    if lines != [] {
      var line := lines[0];
      var next := i + |line| + 1;
      assert s[i..i + |line|] == s[i..][..|line|] == line;
      assert s[i + |line|] == s[i..][|line|] == '\n';
      assert s[next..] == s[i..][|line| + 1..] == TextOf(lines[1..]);
      assert line in lines;
      SplitStep(s, '\n', i, line);
      SplitTextOf(lines[1..], s, next);
    }
  }

  /** Reading the lines that the server has written gives these lines, unless the text starts with a blank. */
  lemma LinesComeBack(lines: seq<string>)
    requires lines != [] && (lines[0] != "" ==> !IsBlank(lines[0][0])) && forall line <- lines :: IsLine(line)
    ensures LinesOf(TextOf(lines)) == Some(lines)
  {
    var str := TextOf(lines);
    assert str[0] == (lines[0] + "\n")[0];
    assert FirstText(str, 0) == 0 && str[0..] == str;
    SplitTextOf(lines, str, 0);
    forall k | 0 <= k < |lines| ensures Without(lines[k], {'\r'}) == lines[k] {
      assert lines[k] in lines;
      NothingToDrop(lines[k], {'\r'});
    }
    assert Cleaned(lines) == lines;
  }

  lemma {:induction false} SplitLines(lines: seq<string>, last: string, s: string, i: nat)
    requires i <= |s| && s[i..] == TextOf(lines) + last
    requires FreeOf(last, {'\n'}) && forall line <- lines :: FreeOf(line, {'\n'})
    ensures Split(s, '\n', i) == lines + if last == "" then [] else [last]
    decreases |lines|
  {
    hide *;
    if lines == [] {
      LastLine(last, s, i);
    } else {
      FirstLineParts(lines, last, s, i);
      assert lines[0] in lines;
      SplitStep(s, '\n', i, lines[0]);
      SplitLines(lines[1..], last, s, i + |lines[0]| + 1);
      Regroup([lines[0]], lines[1..], if last == "" then [] else [last]);
      assert lines == [lines[0]] + lines[1..];
    }
  }

  lemma LastLine(last: string, s: string, i: nat)
    requires i <= |s| && s[i..] == TextOf([]) + last && FreeOf(last, {'\n'})
    ensures Split(s, '\n', i) == [] + if last == "" then [] else [last]
  {
    assert s[i..] == last;
    assert s[i..i + |last|] == last;
    SplitStep(s, '\n', i, last);
  }

  lemma FirstLineParts(lines: seq<string>, last: string, s: string, i: nat)
    requires lines != [] && i <= |s| && s[i..] == TextOf(lines) + last
    ensures var next := i + |lines[0]|;
            next < |s| && s[i..next] == lines[0] && s[next] == '\n' && s[next + 1..] == TextOf(lines[1..]) + last
  {
    var line, rest := lines[0], TextOf(lines[1..]) + last;
    assert TextOf(lines) + last == line + "\n" + rest;
    hide TextOf;
    PartsBehind(s, i, line, rest);
  }

  lemma PartsBehind(s: string, i: nat, line: string, rest: string)
    requires i <= |s| && s[i..] == line + "\n" + rest
    ensures var next := i + |line|;
            next < |s| && s[i..next] == line && s[next] == '\n' && s[next + 1..] == rest
  {
    var t := s[i..];
    assert |t| == |line| + 1 + |rest|;
    assert t[..|line|] == line && t[|line|] == '\n' && t[|line| + 1..] == rest;
    assert s[i..i + |line|] == t[..|line|] && s[i + |line|] == t[|line|] && s[i + |line| + 1..] == t[|line| + 1..];
  }

  /** The last line need not be closed. */
  lemma UnclosedLineComesBack(lines: seq<string>, last: string)
    requires last != "" && IsLine(last) && forall line <- lines :: IsLine(line)
    requires var first := if lines == [] then last else lines[0]; first != "" ==> first[0] !in {' ', '\t', '\r'}
    ensures LinesOf(TextOf(lines) + last) == Some(lines + [last])
  {
    var str := TextOf(lines) + last;
    assert str[0] == if lines == [] then last[0] else (lines[0] + "\n")[0];
    assert FirstText(str, 0) == 0 && str[0..] == str;
    assert forall line <- lines :: FreeOf(line, {'\n'});
    SplitLines(lines, last, str, 0);
    var all := lines + [last];
    forall k | 0 <= k < |all| ensures Without(all[k], {'\r'}) == all[k] {
      assert k < |lines| ==> lines[k] in lines;
      NothingToDrop(all[k], {'\r'});
    }
    assert Cleaned(all) == all;
    hide Split, TextOf, Without, Cleaned;
  }

  /** Lines that end in a carriage return and a line feed come back as well. */
  lemma WindowsLinesComeBack(lines: seq<string>)
    requires lines != [] && lines[0] != "" && lines[0][0] !in {' ', '\t', '\r'} && forall line <- lines :: IsLine(line)
    ensures LinesOf(TextOf(seq(|lines|, k requires 0 <= k < |lines| => lines[k] + "\r"))) == Some(lines)
  {
    var raw := seq(|lines|, k requires 0 <= k < |lines| => lines[k] + "\r");
    var str := TextOf(raw);
    assert str[0] == (raw[0] + "\n")[0] == lines[0][0];
    assert FirstText(str, 0) == 0 && str[0..] == str;
    forall k | 0 <= k < |raw| ensures FreeOf(raw[k], {'\n'}) && Without(raw[k], {'\r'}) == lines[k] {
      assert lines[k] in lines;
      ReturnDropped(lines[k]);
    }
    assert str == str + "";
    SplitLines(raw, "", str, 0);
    assert raw + [] == raw;
    hide Split, TextOf, Without, FirstText;
    assert Cleaned(raw) == lines;
  }

  lemma ReturnDropped(line: string)
    requires IsLine(line)
    ensures FreeOf(line + "\r", {'\n'}) && Without(line + "\r", {'\r'}) == line
  {
    NothingToDrop(line, {'\r'});
    assert (line + "\r")[..|line|] == line;
  }

  // ---------------------------------------------------------------------------------- lists in brackets

  const BRACKETS := {'[', ']'}

  function Elements(str: string): seq<string> {
    Split(Without(str, BRACKETS), ',', 0)
  }

  method ConvertArrayNotationToStringVector(str: string) returns (elements: seq<string>)
    ensures elements == Elements(str)
  {
    elements := SplitText(Without(str, BRACKETS), ',');
  }

  function Separated(names: seq<string>): string {
    if names == [] then "" else if |names| == 1 then names[0] else names[0] + "," + Separated(names[1..])
  }

  function ListOf(names: seq<string>): string {
    "[" + Separated(names) + "]"
  }

  predicate IsName(s: string) {
    s != "" && FreeOf(s, {'[', ']', ',', '\n', '\r', '.', ' '})
  }

  lemma SeparatedParts(names: seq<string>, s: string, i: nat)
    requires names != [] && i <= |s| && s[i..] == Separated(names)
    ensures var next := i + |names[0]|;
            && next <= |s| && s[i..next] == names[0] && (|names| == 1 ==> next == |s|)
            && (|names| > 1 ==> next < |s| && s[next] == ',' && s[next + 1..] == Separated(names[1..]))
  {
    var name, rest := names[0], s[i..];
    assert s[i..i + |name|] == rest[..|name|] == name;
    if |names| > 1 {
      assert s[i + |name|] == rest[|name|] == ',';
      assert s[i + |name| + 1..] == rest[|name| + 1..] == Separated(names[1..]);
    }
  }

  lemma {:induction false} SplitSeparated(names: seq<string>, s: string, i: nat)
    requires i <= |s| && s[i..] == Separated(names) && forall name <- names :: IsName(name)
    ensures Split(s, ',', i) == names
    decreases |names|
  {
    hide *;
    if names == [] {
      NothingSeparated(s, i);
    } else {
      SeparatedParts(names, s, i);
      FirstName(names);
      SplitStep(s, ',', i, names[0]);
      if |names| > 1 {
        SplitSeparated(names[1..], s, i + |names[0]| + 1);
      }
    }
  }

  lemma NothingSeparated(s: string, i: nat)
    requires i <= |s| && s[i..] == Separated([])
    ensures Split(s, ',', i) == []
  {
  }

  lemma FirstName(names: seq<string>)
    requires names != [] && forall name <- names :: IsName(name)
    ensures names[0] != "" && FreeOf(names[0], {','}) && names == [names[0]] + names[1..]
    ensures |names| == 1 ==> names == [names[0]]
  {
    assert names[0] in names;
  }

  lemma {:induction false} SeparatedIsFree(names: seq<string>)
    requires forall name <- names :: IsName(name)
    ensures FreeOf(Separated(names), {'[', ']', '\n', '\r'})
  {
    if names != [] {
      assert names[0] in names;
      if |names| > 1 {
        SeparatedIsFree(names[1..]);
      }
    }
  }

  lemma BracketsDropped(s: string)
    requires FreeOf(s, BRACKETS)
    ensures Without("[" + s + "]", BRACKETS) == s
  {
    NothingToDrop(s, BRACKETS);
    WithoutConcat("[" + s, "]", BRACKETS);
    WithoutConcat("[", s, BRACKETS);
    assert Without("[", BRACKETS) == "" && Without("]", BRACKETS) == "";
  }

  lemma ListIsLine(names: seq<string>)
    requires FreeOf(Separated(names), {'[', ']', '\n', '\r'})
    ensures IsLine(ListOf(names)) && FreeOf(Separated(names), BRACKETS)
  {
    hide Separated;
  }

  /** A list in brackets comes back as its elements. */
  lemma ElementsComeBack(names: seq<string>)
    requires forall name <- names :: IsName(name)
    ensures Elements(ListOf(names)) == names && IsLine(ListOf(names))
  {
    var s := Separated(names);
    SeparatedIsFree(names);
    ListIsLine(names);
    BracketsDropped(s);
    hide Separated, Without, FreeOf, IsLine, IsName;
    assert s[0..] == s;
    SplitSeparated(names, s, 0);
    hide Split;
  }
}
