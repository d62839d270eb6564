/** Reading back the answer that the server writes for a table. */
module AnswerRoundTrip {
  import opened Options
  import opened Numbers
  import opened TapiText
  import opened TypeNames
  import opened Answer

  /** A value as the server has it: null, a number or the like, or a text, which is written between quotes. */
  datatype Value = Null | Bare(text: string) | Quoted(text: string)

  function Shown(v: Value): string {
    match v
    case Null => "null"
    case Bare(text) => text
    case Quoted(text) => "'" + text + "'"
  }

  function Meaning(v: Value): Option<string> {
    match v
    case Null => None
    case Bare(text) => Some(text)
    case Quoted(text) => Some(text)
  }

  /** What is written without quotes can be told from null and from what is written with quotes. */
  predicate Showable(v: Value) {
    && (v.Null? || IsLine(v.text))
    && (v.Bare? ==> v.text != "null" && (v.text != "" ==> v.text[0] != '\''))
  }

  lemma ValueComesBack(v: Value)
    requires Showable(v)
    ensures CellOf(Shown(v)) == Meaning(v) && IsLine(Shown(v))
  {
    if v.Quoted? {
      var s := Shown(v);
      assert s[1..|s| - 1] == v.text;
      assert s != "null" by {
        assert s[0] == '\'';
      }
    }
  }

  // ---------------------------------------------------------------------------------- the lines of a table

  function NameLine(spec: ColumnSpec): string {
    spec.table + "." + spec.name
  }

  /** For each column a line with its name and one with its type. */
  function HeaderLines(specs: seq<ColumnSpec>): seq<string> {
    seq(2 * |specs|, k requires 0 <= k < 2 * |specs| =>
      if k % 2 == 0 then NameLine(specs[k / 2]) else NameOf(specs[k / 2].typ))
  }

  function RowLines(row: seq<Value>): seq<string> {
    seq(|row|, k requires 0 <= k < |row| => Shown(row[k]))
  }

  /** Rows are separated by a line, and the last is followed by the end of the text. */
  function BodyLines(rows: seq<seq<Value>>): seq<string> {
    if rows == [] then ["$eot"]
    else if |rows| == 1 then RowLines(rows[0]) + ["$eot"]
    else RowLines(rows[0]) + ["$"] + BodyLines(rows[1..])
  }

  function TableLines(specs: seq<ColumnSpec>, rows: seq<seq<Value>>): seq<string> {
    ["answer"] + HeaderLines(specs) + ["$"] + BodyLines(rows)
  }

  predicate IsSpec(spec: ColumnSpec) {
    HasName(spec.typ) && IsLine(spec.name) && IsLine(spec.table) && '.' !in spec.table
  }

  /** All rows have the same number of values. */
  predicate AreRows(rows: seq<seq<Value>>, n: nat) {
    forall row <- rows :: |row| == n && forall v <- row :: Showable(v)
  }

  predicate IsTable(specs: seq<ColumnSpec>, rows: seq<seq<Value>>) {
    specs != [] && (forall spec <- specs :: IsSpec(spec)) && AreRows(rows, |specs|)
  }

  function MeaningOfRow(row: seq<Value>): seq<Option<string>> {
    seq(|row|, k requires 0 <= k < |row| => Meaning(row[k]))
  }

  function MeaningOf(rows: seq<seq<Value>>): seq<seq<Option<string>>> {
    seq(|rows|, k requires 0 <= k < |rows| => MeaningOfRow(rows[k]))
  }

  // ---------------------------------------------------------------------------------- the header

  lemma SpecComesBack(spec: ColumnSpec)
    requires IsSpec(spec)
    ensures SpecAt(NameLine(spec), NameOf(spec.typ)) == Some(spec)
    ensures NameLine(spec) != END_OF_TEXT && NameLine(spec) != END_OF_PART && IsLine(NameLine(spec))
  {
    var line := NameLine(spec);
    TypeComesBack(spec.typ);
    assert line[|spec.table|] == '.';
    assert forall k :: 0 <= k < |spec.table| ==> line[k] == spec.table[k] && spec.table[k] in spec.table;
    IndexOfIs(line, '.', |spec.table|);
    assert line[..|spec.table|] == spec.table && line[|spec.table| + 1..] == spec.name;
    hide NameOf, HasName, GetTypeFromStr, IndexOf;
    assert END_OF_TEXT[..1] == END_OF_PART[..1] == "$" && line[0] == '$' ==> |line| != 1 && line != "$eot";
  }

  ghost predicate HeaderAt(specs: seq<ColumnSpec>, lines: seq<string>, i: nat) {
    && i + 2 * |specs| < |lines| && lines[i + 2 * |specs|] == END_OF_PART
    && forall c :: 0 <= c < |specs| ==>
         lines[i + 2 * c] == NameLine(specs[c]) && lines[i + 2 * c + 1] == NameOf(specs[c].typ)
  }

  lemma HeaderAtLine(specs: seq<ColumnSpec>, lines: seq<string>, i: nat, c: nat)
    requires c < |specs| && (forall spec <- specs :: IsSpec(spec)) && HeaderAt(specs, lines, i)
    ensures var j := i + 2 * c;
            && j + 2 < |lines| && lines[j] == NameLine(specs[c]) && lines[j + 1] == NameOf(specs[c].typ)
            && lines[j + 2] == if c + 1 == |specs| then END_OF_PART else NameLine(specs[c + 1])
    ensures IsSpec(specs[c]) && (c + 1 < |specs| ==> IsSpec(specs[c + 1]))
    ensures specs[c..] == [specs[c]] + specs[c + 1..]
  {
    assert specs[c] in specs;
    assert c + 1 < |specs| ==> specs[c + 1] in specs;
    hide NameLine, NameOf, IsSpec;
  }

  lemma HeaderLine(specs: seq<ColumnSpec>, lines: seq<string>, i: nat, c: nat)
    requires c < |specs| && (forall spec <- specs :: IsSpec(spec)) && HeaderAt(specs, lines, i)
    ensures var j := i + 2 * c;
            && j + 2 < |lines| && lines[j] != END_OF_TEXT && SpecAt(lines[j], lines[j + 1]) == Some(specs[c])
            && (lines[j + 2] == END_OF_PART <==> c + 1 == |specs|)
            && specs[c..] == [specs[c]] + specs[c + 1..]
  {
    hide *;
    HeaderAtLine(specs, lines, i, c);
    SpecComesBack(specs[c]);
    if c + 1 < |specs| {
      SpecComesBack(specs[c + 1]);
    }
  }

  lemma HeaderOne(lines: seq<string>, i: nat, spec: ColumnSpec)
    requires i + 2 < |lines| && lines[i] != END_OF_TEXT && SpecAt(lines[i], lines[i + 1]) == Some(spec)
    ensures lines[i + 2] == END_OF_PART ==> ParseHeader(lines, i) == Some(([spec], i + 2))
    ensures lines[i + 2] != END_OF_PART && ParseHeader(lines, i + 2).Some? ==>
              ParseHeader(lines, i)
              == Some(([spec] + ParseHeader(lines, i + 2).value.0, ParseHeader(lines, i + 2).value.1))
  {
    hide SpecAt;
  }

  /** The columns from c on come back. */
  lemma {:induction false} HeaderComesBack(specs: seq<ColumnSpec>, lines: seq<string>, i: nat, c: nat)
    requires c < |specs| && (forall spec <- specs :: IsSpec(spec)) && HeaderAt(specs, lines, i)
    ensures ParseHeader(lines, i + 2 * c) == Some((specs[c..], i + 2 * |specs|))
    decreases |specs| - c
  {
    hide *;
    HeaderLine(specs, lines, i, c);
    HeaderOne(lines, i + 2 * c, specs[c]);
    if c + 1 < |specs| {
      HeaderComesBack(specs, lines, i, c + 1);
    } else {
      assert specs[c + 1..] == [] && [specs[c]] + [] == [specs[c]];
    }
  }

  // ---------------------------------------------------------------------------------- the rows

  lemma RowComesBack(row: seq<Value>, lines: seq<string>, i: nat)
    requires i + |row| <= |lines| && lines[i..i + |row|] == RowLines(row) && forall v <- row :: Showable(v)
    ensures RowAt(lines, i, |row|) == MeaningOfRow(row)
  {
    forall k | 0 <= k < |row| ensures CellOf(lines[i + k]) == Meaning(row[k]) {
      assert lines[i + k] == lines[i..i + |row|][k] == Shown(row[k]);
      assert row[k] in row;
      ValueComesBack(row[k]);
    }
    hide CellOf, Shown, Meaning;
  }

  lemma BodyParts(rows: seq<seq<Value>>, lines: seq<string>, i: nat, n: nat)
    requires rows != [] && |rows[0]| == n && i <= |lines| && lines[i..] == BodyLines(rows)
    ensures i + n < |lines| && lines[i..i + n] == RowLines(rows[0])
    ensures lines[i + n] == END_OF_TEXT <==> |rows| == 1
    ensures |rows| > 1 ==> lines[i + n + 1..] == BodyLines(rows[1..])
  {
    var tail, row := lines[i..], RowLines(rows[0]);
    assert |row| == n;
    hide RowLines;
    assert tail == if |rows| == 1 then row + [END_OF_TEXT] else row + [END_OF_PART] + BodyLines(rows[1..]);
    hide BodyLines;
    assert lines[i..i + n] == tail[..n] == row;
    assert lines[i + n] == tail[n];
    assert |rows| > 1 ==> lines[i + n + 1..] == tail[n + 1..] == BodyLines(rows[1..]);
  }

  lemma RowsOne(lines: seq<string>, i: nat, n: nat)
    requires i + n < |lines|
    ensures lines[i + n] == END_OF_TEXT ==> ParseRows(lines, i, n) == Some([RowAt(lines, i, n)])
    ensures lines[i + n] != END_OF_TEXT && ParseRows(lines, i + n + 1, n).Some? ==>
              ParseRows(lines, i, n) == Some([RowAt(lines, i, n)] + ParseRows(lines, i + n + 1, n).value)
  {
    hide RowAt;
  }

  lemma MeaningParts(rows: seq<seq<Value>>)
    requires rows != []
    ensures MeaningOf(rows) == [MeaningOfRow(rows[0])] + MeaningOf(rows[1..])
    ensures |rows| == 1 ==> MeaningOf(rows) == [MeaningOfRow(rows[0])]
  {
    hide MeaningOfRow;
  }

  lemma FirstRow(rows: seq<seq<Value>>, n: nat)
    requires rows != [] && AreRows(rows, n)
    ensures |rows[0]| == n && (forall v <- rows[0] :: Showable(v)) && AreRows(rows[1..], n)
  {
    assert rows[0] in rows;
  }

  /** The rows from line i on come back. */
  lemma {:induction false} RowsComeBack(rows: seq<seq<Value>>, lines: seq<string>, i: nat, n: nat)
    requires rows != [] && AreRows(rows, n) && i <= |lines| && lines[i..] == BodyLines(rows)
    ensures ParseRows(lines, i, n) == Some(MeaningOf(rows))
    decreases |rows|
  {
    hide *;
    FirstRow(rows, n);
    BodyParts(rows, lines, i, n);
    RowComesBack(rows[0], lines, i);
    RowsOne(lines, i, n);
    MeaningParts(rows);
    if |rows| > 1 {
      RowsComeBack(rows[1..], lines, i + n + 1, n);
    }
  }

  // ---------------------------------------------------------------------------------- the whole answer

  lemma LinesAreLines(specs: seq<ColumnSpec>)
    requires forall spec <- specs :: IsSpec(spec)
    ensures forall line <- HeaderLines(specs) :: IsLine(line)
  {
    forall k | 0 <= k < |HeaderLines(specs)| ensures IsLine(HeaderLines(specs)[k]) {
      assert specs[k / 2] in specs;
      SpecComesBack(specs[k / 2]);
      NameIsLine(specs[k / 2].typ);
    }
    hide IsLine, NameOf, NameLine, IsSpec;
  }

  lemma {:induction false} BodyIsLines(rows: seq<seq<Value>>, n: nat)
    requires AreRows(rows, n)
    ensures forall line <- BodyLines(rows) :: IsLine(line)
  {
    if rows != [] {
      FirstRow(rows, n);
      var row := rows[0];
      forall k | 0 <= k < |row| ensures IsLine(RowLines(row)[k]) {
        assert row[k] in row;
        ValueComesBack(row[k]);
      }
      BodyIsLines(rows[1..], n);
      hide Shown, Showable;
    }
  }

  lemma BodyStart(rows: seq<seq<Value>>, n: nat)
    requires AreRows(rows, n) && n > 0
    ensures |BodyLines(rows)| > 0 && (rows != [] ==> |rows[0]| == n)
    ensures BodyLines(rows)[0] == END_OF_TEXT <==> rows == [] || Shown(rows[0][0]) == END_OF_TEXT
  {
    if rows != [] {
      FirstRow(rows, n);
      assert BodyLines(rows)[0] == RowLines(rows[0])[0];
    }
    hide Shown, Showable;
  }

  lemma FourParts(a: string, h: seq<string>, p: string, b: seq<string>)
    ensures var lines := [a] + h + [p] + b;
            && |lines| == 2 + |h| + |b| && lines[0] == a && lines[1 + |h|] == p && lines[2 + |h|..] == b
            && (forall k :: 1 <= k <= |h| ==> lines[k] == h[k - 1])
            && (forall line <- lines :: line in h || line in b || line == a || line == p)
  {
  }

  lemma HeaderLinesAt(specs: seq<ColumnSpec>, c: nat)
    requires c < |specs|
    ensures 2 * c + 1 < |HeaderLines(specs)|
    ensures HeaderLines(specs)[2 * c] == NameLine(specs[c]) && HeaderLines(specs)[2 * c + 1] == NameOf(specs[c].typ)
  {
    hide NameLine, NameOf;
    EvenAndOdd(c);
    var even, odd := 2 * c, 2 * c + 1;
    assert 0 <= even < odd < 2 * |specs|;
    assert HeaderLines(specs)[even] == NameLine(specs[c]);
    assert HeaderLines(specs)[odd] == NameOf(specs[c].typ);
  }

  lemma EvenAndOdd(c: nat)
    ensures 2 * c % 2 == 0 && 2 * c / 2 == c && (2 * c + 1) % 2 == 1 && (2 * c + 1) / 2 == c
  {
  }

  /** What stands where in the lines of a table. */
  lemma TableParts(specs: seq<ColumnSpec>, rows: seq<seq<Value>>)
    requires specs != []
    ensures var lines, body := TableLines(specs, rows), 2 * |specs| + 2;
            && |lines| == body + |BodyLines(rows)| && lines[0] == "answer" && lines[1] == NameLine(specs[0])
            && HeaderAt(specs, lines, 1) && lines[body..] == BodyLines(rows)
            && (forall line <- lines :: line in HeaderLines(specs) || line in BodyLines(rows)
                                        || line == "answer" || line == END_OF_PART)
  {
    var lines := TableLines(specs, rows);
    FourParts("answer", HeaderLines(specs), END_OF_PART, BodyLines(rows));
    assert |HeaderLines(specs)| == 2 * |specs|;
    hide BodyLines, NameLine, NameOf, HeaderLines, TableLines;
    forall c | 0 <= c < |specs|
      ensures lines[1 + 2 * c] == NameLine(specs[c]) && lines[1 + 2 * c + 1] == NameOf(specs[c].typ)
    {
      HeaderLinesAt(specs, c);
    }
  }

  lemma TableIsLines(specs: seq<ColumnSpec>, rows: seq<seq<Value>>)
    requires IsTable(specs, rows)
    ensures var lines := TableLines(specs, rows);
            && LinesOf(TextOf(lines)) == Some(lines) && |lines| >= 2 && lines[0] == "answer" && lines[1] != END_OF_PART
  {
    hide *;
    var lines := TableLines(specs, rows);
    TableMeans(specs, rows);
    TableParts(specs, rows);
    LinesAreLines(specs);
    BodyIsLines(rows, |specs|);
    BodyStart(rows, |specs|);
    FixedLines();
    assert specs[0] in specs;
    SpecComesBack(specs[0]);
    LinesComeBack(lines);
  }

  lemma FixedLines()
    ensures IsLine("answer") && IsLine(END_OF_PART) && "answer" != "" && !IsBlank("answer"[0])
  {
  }

  lemma ReadTable(lines: seq<string>, specs: seq<ColumnSpec>)
    requires |lines| >= 2 && lines[0] == "answer" && lines[1] != END_OF_PART
    requires LinesOf(TextOf(lines)) == Some(lines) && 2 * |specs| + 2 < |lines|
    requires ParseHeader(lines, 1) == Some((specs, 2 * |specs| + 1))
    ensures var first := 2 * |specs| + 2;
            var parsed := ParseText(TextOf(lines));
            && (lines[first] == END_OF_TEXT ==> parsed == Some(Table(specs, [])))
            && (lines[first] != END_OF_TEXT && ParseRows(lines, first, |specs|).Some? ==>
                  parsed == Some(Table(specs, ParseRows(lines, first, |specs|).value)))
  {
    hide *;
    ParsedTable(lines);
    ParsedText(TextOf(lines), lines);
  }

  lemma ParsedText(text: string, lines: seq<string>)
    requires LinesOf(text) == Some(lines)
    ensures ParseText(text) == ParseLines(lines)
  {
    hide LinesOf, ParseLines;
  }

  /** An answer comes back with all its columns and rows, unless its first value is the end marker: then with no rows.
      */
  lemma TableComesBack(specs: seq<ColumnSpec>, rows: seq<seq<Value>>)
    requires IsTable(specs, rows)
    ensures rows != [] ==> |rows[0]| > 0
    ensures ParseText(TextOf(TableLines(specs, rows)))
            == Some(Table(specs, if rows == [] || Shown(rows[0][0]) == END_OF_TEXT then [] else MeaningOf(rows)))
  {
    hide *;
    var lines, n := TableLines(specs, rows), |specs|;
    TableMeans(specs, rows);
    BodyStart(rows, n);
    TableParts(specs, rows);
    TableIsLines(specs, rows);
    HeaderComesBack(specs, lines, 1, 0);
    assert specs[0..] == specs && lines[2 * n + 2] == lines[2 * n + 2..][0];
    ReadTable(lines, specs);
    if rows != [] {
      RowsComeBack(rows, lines, 2 * n + 2, n);
    }
  }

  lemma TableMeans(specs: seq<ColumnSpec>, rows: seq<seq<Value>>)
    requires IsTable(specs, rows)
    ensures |specs| > 0 && (forall spec <- specs :: IsSpec(spec)) && AreRows(rows, |specs|)
  {
    hide IsSpec, AreRows;
  }

  /** With distinct names, the column of each name holds its type and the values of its place in all rows; so all
      columns have the same number of values. */
  lemma ColumnsHoldRows(specs: seq<ColumnSpec>, rows: seq<seq<Value>>, k: nat)
    requires IsTable(specs, rows) && Distinct(Names(specs)) && k < |specs|
    ensures Rectangular(MeaningOf(rows), |specs|) && specs[k].name in Filled(specs, MeaningOf(rows))
    ensures Filled(specs, MeaningOf(rows))[specs[k].name]
            == Column(specs[k].table, specs[k].typ, seq(|rows|, r requires 0 <= r < |rows| && k < |rows[r]| =>
                                                          Meaning(rows[r][k])))
  {
    var meant := MeaningOf(rows);
    assert forall r :: 0 <= r < |rows| ==> rows[r] in rows;
    FilledColumn(specs, meant, k);
  }
}
