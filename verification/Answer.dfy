/** The answer to a query: the names and types of its columns, and its rows, each value on a line of its own. */
module Answer {
  import opened Options
  import opened Numbers
  import opened TapiText
  import opened TypeNames

  datatype ColumnSpec = ColumnSpec(table: string, name: string, typ: TypeAndLength)

  /** What an answer holds. An answer without columns holds nothing, and other outputs become a table of their own. */
  datatype Parsed = Empty | Other | Table(specs: seq<ColumnSpec>, rows: seq<seq<Option<string>>>)

  const END_OF_PART := "$"
  const END_OF_TEXT := "$eot"

  /** The columns of the default table; the lengths of its columns are not modelled. */
  const METADATA := [ColumnSpec("", "TABLE_CAT", TypeAndLength(Varchar, 0)),
                     ColumnSpec("", "TABLE_SCHEM", TypeAndLength(Varchar, 0)),
                     ColumnSpec("", "TABLE_NAME", TypeAndLength(Varchar, 0)),
                     ColumnSpec("", "TABLE_TYPE", TypeAndLength(Varchar, 0)),
                     ColumnSpec("", "REMARKS", TypeAndLength(StringType, 0))]

  // ---------------------------------------------------------------------------------- the meaning of the lines

  /** A name and a type. The table stands in front of the first point; without a point the line is both. */
  function SpecAt(line: string, typeLine: string): Option<ColumnSpec> {
    var dot := IndexOf(line, '.');
    match GetTypeFromStr(typeLine)
    case None => None
    case Some(t) => Some(ColumnSpec(line[..dot], if dot < |line| then line[dot + 1..] else line, t))
  }

  /** The columns from line i on, and the line behind them. Reading behind the last line has no defined result. */
  function ParseHeader(lines: seq<string>, i: nat): Option<(seq<ColumnSpec>, nat)>
    decreases |lines| - i
  {
    if i >= |lines| then None
    else if lines[i] == END_OF_TEXT then Some(([], i))
    else if i + 2 >= |lines| then None
    else match SpecAt(lines[i], lines[i + 1])
      case None => None
      case Some(spec) =>
        if lines[i + 2] == END_OF_PART then Some(([spec], i + 2))
        else match ParseHeader(lines, i + 2)
          case None => None
          case Some((specs, next)) => Some(([spec] + specs, next))
  }

  /** A value: null, or a text without the quotes around it. */
  function CellOf(line: string): Option<string> {
    if line == "null" then None
    else if line != "" && line[0] == '\'' then Some(if |line| > 1 then line[1..|line| - 1] else "")
    else Some(line)
  }

  function RowAt(lines: seq<string>, i: nat, n: nat): seq<Option<string>>
    requires i + n <= |lines|
  {
    seq(n, k requires 0 <= k < n => CellOf(lines[i + k]))
  }

  /** The rows from line i on; each is followed by a line that tells whether it is the last. */
  function ParseRows(lines: seq<string>, i: nat, n: nat): Option<seq<seq<Option<string>>>>
    decreases |lines| - i
  {
    if i + n >= |lines| then None
    else if lines[i + n] == END_OF_TEXT then Some([RowAt(lines, i, n)])
    else match ParseRows(lines, i + n + 1, n)
      case None => None
      case Some(rows) => Some([RowAt(lines, i, n)] + rows)
  }

  /** The whole table. There are no rows if the line where the first would start ends the text. */
  function ParseTable(lines: seq<string>): Option<Parsed> {
    match ParseHeader(lines, 1)
    case None => None
    case Some((specs, next)) =>
      var i := next + 1;
      if i == |lines| then Some(Table(specs, []))
      else if i > |lines| then None
      else if lines[i] == END_OF_TEXT then Some(Table(specs, []))
      else match ParseRows(lines, i, |specs|)
        case None => None
        case Some(rows) => Some(Table(specs, rows))
  }

  function ParseLines(lines: seq<string>): Option<Parsed> {
    if |lines| < 2 then None
    else if lines[1] == END_OF_PART then Some(Empty)
    else if lines[0] == "answer" then ParseTable(lines)
    else Some(Other)
  }

  // ---------------------------------------------------------------------------------- the table that is built

  datatype Column = Column(table: string, typ: TypeAndLength, values: seq<Option<string>>)

  function Names(specs: seq<ColumnSpec>): seq<string> {
    seq(|specs|, k requires 0 <= k < |specs| => specs[k].name)
  }

  /** The columns after the first k have been inserted; one with the same name is replaced. */
  function Inserted(specs: seq<ColumnSpec>, k: nat): (m: map<string, Column>)
    requires k <= |specs|
    ensures forall i :: 0 <= i < k ==> specs[i].name in m
  {
    if k == 0 then map[]
    else Inserted(specs, k - 1)[specs[k - 1].name := Column(specs[k - 1].table, specs[k - 1].typ, [])]
  }

  function WithValue(m: map<string, Column>, name: string, value: Option<string>): map<string, Column> {
    if name in m then m[name := m[name].(values := m[name].values + [value])] else m
  }

  function WithCells(m: map<string, Column>, names: seq<string>, row: seq<Option<string>>, j: nat): map<string, Column>
    requires j <= |names| == |row|
  {
    if j == 0 then m else WithValue(WithCells(m, names, row, j - 1), names[j - 1], row[j - 1])
  }

  ghost predicate Rectangular(rows: seq<seq<Option<string>>>, n: nat) {
    forall row <- rows :: |row| == n
  }

  function WithRows(m: map<string, Column>, names: seq<string>, rows: seq<seq<Option<string>>>, r: nat): map<string, Column>
    requires r <= |rows| && forall k :: 0 <= k < r ==> |rows[k]| == |names|
  {
    if r == 0 then m else WithCells(WithRows(m, names, rows, r - 1), names, rows[r - 1], |names|)
  }

  class ResultTable {
    var namesOrdered: seq<string>
    var columns: map<string, Column>
    var tableName: string

    constructor ()
      ensures namesOrdered == [] && columns == map[]
    {
      namesOrdered, columns, tableName := [], map[], "";
    }

    method InsertCol(spec: ColumnSpec)
      modifies this`namesOrdered, this`columns
      ensures namesOrdered == old(namesOrdered) + [spec.name]
      ensures columns == old(columns)[spec.name := Column(spec.table, spec.typ, [])]
    {
      namesOrdered := namesOrdered + [spec.name];
      columns := columns[spec.name := Column(spec.table, spec.typ, [])];
    }

    method InsertValue(name: string, value: Option<string>)
      requires name in columns
      modifies this`columns
      ensures columns == WithValue(old(columns), name, value) && columns.Keys == old(columns).Keys
    {
      columns := columns[name := columns[name].(values := columns[name].values + [value])];
    }

    /** The columns of an answer. */
    method ReadHeader(lines: seq<string>) returns (next: Option<nat>, ghost specs: seq<ColumnSpec>)
      requires namesOrdered == [] && columns == map[]
      modifies this
      ensures next.None? <==> ParseHeader(lines, 1) == None
      ensures next.Some? ==> ParseHeader(lines, 1) == Some((specs, next.value))
      ensures next.Some? ==> namesOrdered == Names(specs) && columns == Inserted(specs, |specs|)
    {
      var i, checkedCols := 1, false;
      specs := [];
      HeaderStart(lines);
      hide *;
      while i < |lines| && !checkedCols && lines[i] != END_OF_TEXT
        invariant checkedCols ==> i < |lines| && ParseHeader(lines, 1) == Some((specs, i))
        invariant !checkedCols ==> ParseHeader(lines, 1) == Behind(specs, ParseHeader(lines, i))
        invariant namesOrdered == Names(specs) && columns == Inserted(specs, |specs|)
        decreases |lines| - i, !checkedCols
      {
        HeaderStep(lines, i, specs);
        if i + 2 >= |lines| {
          return None, specs;
        }
        var spec := SpecAt(lines[i], lines[i + 1]);
        if spec.None? {
          return None, specs;
        }
        tableName := spec.value.table;
        InsertCol(spec.value);
        InsertedMore(specs, spec.value);
        specs := specs + [spec.value];
        i := i + 2;
        checkedCols := lines[i] == END_OF_PART;
      }
      if i >= |lines| {
        HeaderMissing(lines, i, specs);
        return None, specs;
      }
      HeaderStep(lines, i, specs);
      next := Some(i);
    }

    /** One row, a value for each column. */
    method ReadRow(lines: seq<string>, start: nat, names: seq<string>)
      requires start + |names| <= |lines| && forall name <- names :: name in columns
      modifies this`columns
      ensures columns == WithCells(old(columns), names, RowAt(lines, start, |names|), |names|)
      ensures columns.Keys == old(columns).Keys
    {
      var i := start;
      ghost var row := RowAt(lines, start, |names|);
      for j := 0 to |names|
        invariant i == start + j && columns.Keys == old(columns).Keys
        invariant columns == WithCells(old(columns), names, row, j)
      {
        var value := lines[i];
        assert names[j] in names && row[j] == CellOf(value);
        InsertValue(names[j], CellOf(value));
        i := i + 1;
      }
    }

    /** The rows of an answer. */
    method ReadRows(lines: seq<string>, start: nat, names: seq<string>)
      returns (ok: bool, ghost rows: seq<seq<Option<string>>>)
      requires start < |lines| && lines[start] != END_OF_TEXT && forall name <- names :: name in columns
      modifies this`columns
      ensures ok <==> ParseRows(lines, start, |names|).Some?
      ensures ok ==> ParseRows(lines, start, |names|) == Some(rows) && Rectangular(rows, |names|)
                     && columns == WithRows(old(columns), names, rows, |rows|)
    {
      var i, aux := start, lines[start];
      rows := [];
      RowsStart(lines, start, names, columns);
      hide *;
      while aux != END_OF_TEXT
        invariant columns.Keys == old(columns).Keys && Rectangular(rows, |names|)
        invariant columns == WithRows(old(columns), names, rows, |rows|)
        invariant aux == END_OF_TEXT ==> ParseRows(lines, start, |names|) == Some(rows)
        invariant aux != END_OF_TEXT ==>
                    ParseRows(lines, start, |names|) == BehindRows(rows, ParseRows(lines, i, |names|))
        decreases |lines| - i, aux != END_OF_TEXT
      {
        RowsStep(lines, i, |names|, rows);
        if i + |names| >= |lines| {
          return false, rows;
        }
        ReadRow(lines, i, names);
        RowsMore(old(columns), names, rows, RowAt(lines, i, |names|));
        rows := rows + [RowAt(lines, i, |names|)];
        aux := lines[i + |names|];
        i := i + |names| + 1;
      }
      ok := true;
    }

    /** The columns of the default table. */
    method InsertMetadataCols()
      requires namesOrdered == [] && columns == map[]
      modifies this`namesOrdered, this`columns
      ensures namesOrdered == Names(METADATA) && columns == Inserted(METADATA, |METADATA|)
    {
      for i := 0 to |METADATA|
        invariant namesOrdered == Names(METADATA)[..i] && columns == Inserted(METADATA, i)
      {
        InsertCol(METADATA[i]);
      }
      assert Names(METADATA)[..|METADATA|] == Names(METADATA);
    }

    /** Build the table of a query. Without a result the call has thrown, or read behind the last line. */
    method BuildTableSelect(text: string) returns (ok: bool)
      requires namesOrdered == [] && columns == map[]
      modifies this
      ensures ok <==> ParseText(text).Some?
      ensures ok ==> (namesOrdered, columns) == Built(text)
    {
      hide Names, Inserted, Filled, ParseTable;
      var read := GetLines(text);
      if read.None? {
        return false;
      }
      var lines := read.value;
      if |lines| < 2 {
        return false;
      }
      if lines[1] == END_OF_PART {
        return true;
      }
      if lines[0] != "answer" {
        InsertMetadataCols();
        return true;
      }
      ok := BuildTable(lines);
    }

    /** Build the table from its lines. */
    method BuildTable(lines: seq<string>) returns (ok: bool)
      requires |lines| >= 2 && lines[0] == "answer" && lines[1] != END_OF_PART && namesOrdered == [] && columns == map[]
      modifies this
      ensures ok <==> ParseTable(lines).Some?
      ensures ok ==>
                ParseTable(lines).value.Table? &&
                var parsed := ParseTable(lines).value;
                && Rectangular(parsed.rows, |parsed.specs|) && namesOrdered == Names(parsed.specs)
                && columns == Filled(parsed.specs, parsed.rows)
    {
      ParsedTable(lines);
      hide *;
      var next;
      ghost var specs;
      next, specs := ReadHeader(lines);
      if next.None? {
        return false;
      }
      NothingFilled(specs);
      NamesInserted(specs);
      var i := next.value + 1;
      if i == |lines| {
        return true;
      }
      if lines[i] == END_OF_TEXT {
        return true;
      }
      ghost var rows;
      ok, rows := ReadRows(lines, i, namesOrdered);
      if ok {
        FilledIs(specs, rows);
      }
    }
  }

  // ---------------------------------------------------------------------------------- the whole answer

  lemma NamesInserted(specs: seq<ColumnSpec>)
    ensures forall name <- Names(specs) :: name in Inserted(specs, |specs|)
  {
    forall name | name in Names(specs) ensures name in Inserted(specs, |specs|) {
      var k :| 0 <= k < |specs| && Names(specs)[k] == name;
      assert specs[k].name == name;
    }
  }

  lemma FilledIs(specs: seq<ColumnSpec>, rows: seq<seq<Option<string>>>)
    requires Rectangular(rows, |Names(specs)|)
    ensures Rectangular(rows, |specs|)
    ensures Filled(specs, rows) == WithRows(Inserted(specs, |specs|), Names(specs), rows, |rows|)
  {
    hide Inserted, WithRows;
  }

  lemma NothingFilled(specs: seq<ColumnSpec>)
    ensures Rectangular([], |specs|) && Filled(specs, []) == Inserted(specs, |specs|)
  {
    hide Inserted;
  }

  /** What a text is read as. The call throws for a text without lines. */
  function ParseText(text: string): Option<Parsed> {
    match LinesOf(text)
    case None => None
    case Some(lines) => ParseLines(lines)
  }

  /** The columns of a table with these rows. */
  ghost function Filled(specs: seq<ColumnSpec>, rows: seq<seq<Option<string>>>): map<string, Column>
    requires Rectangular(rows, |specs|)
  {
    assert forall k :: 0 <= k < |rows| ==> rows[k] in rows;
    WithRows(Inserted(specs, |specs|), Names(specs), rows, |rows|)
  }

  lemma {:induction false} RowsAreRectangular(lines: seq<string>, i: nat, n: nat)
    ensures ParseRows(lines, i, n).Some? ==> Rectangular(ParseRows(lines, i, n).value, n)
    decreases |lines| - i
  {
    if i + n < |lines| {
      RowsAreRectangular(lines, i + n + 1, n);
    }
  }

  lemma EmptyIsRectangular()
    ensures forall n: nat :: Rectangular([], n)
  {
  }

  lemma ParsedRectangular(lines: seq<string>)
    ensures ParseTable(lines).Some? ==>
              ParseTable(lines).value.Table?
              && Rectangular(ParseTable(lines).value.rows, |ParseTable(lines).value.specs|)
  {
    hide ParseHeader, ParseRows, Rectangular;
    EmptyIsRectangular();
    if ParseHeader(lines, 1).Some? {
      var (specs, next) := ParseHeader(lines, 1).value;
      RowsAreRectangular(lines, next + 1, |specs|);
    }
  }

  /** The names and columns of the table that a text is read as. */
  ghost function Built(text: string): (seq<string>, map<string, Column>)
    requires ParseText(text).Some?
  {
    match ParseText(text).value
    case Empty => ([], map[])
    case Other => (Names(METADATA), Inserted(METADATA, |METADATA|))
    case Table(specs, rows) =>
      ParsedRectangular(LinesOf(text).value);
      (Names(specs), Filled(specs, rows))
  }

  /** Any output that is no answer to a query becomes an empty table with the columns of a table listing. */
  lemma OtherOutput(text: string)
    requires var lines := LinesOf(text); lines.Some? && |lines.value| >= 2 && lines.value[0] != "answer" && lines.value[1] != "$"
    ensures ParseText(text) == Some(Other)
    ensures Built(text).0 == ["TABLE_CAT", "TABLE_SCHEM", "TABLE_NAME", "TABLE_TYPE", "REMARKS"]
    ensures forall name <- Built(text).1 :: Built(text).1[name].values == [] && Built(text).1[name].table == ""
  {
    hide *;
    ParsesAsOther(text);
    BuiltOther(text);
    MetadataNames();
    EmptyColumns(METADATA, |METADATA|);
    NoTables();
  }

  lemma ParsesAsOther(text: string)
    requires var lines := LinesOf(text); lines.Some? && |lines.value| >= 2 && lines.value[0] != "answer" && lines.value[1] != "$"
    ensures ParseText(text) == Some(Other)
  {
    hide LinesOf, ParseTable;
  }

  lemma BuiltOther(text: string)
    requires ParseText(text) == Some(Other)
    ensures Built(text) == (Names(METADATA), Inserted(METADATA, |METADATA|))
  {
    hide ParseText, Names, Inserted, METADATA;
  }

  lemma MetadataNames()
    ensures Names(METADATA) == ["TABLE_CAT", "TABLE_SCHEM", "TABLE_NAME", "TABLE_TYPE", "REMARKS"]
  {
  }

  lemma NoTables()
    ensures forall i :: 0 <= i < |METADATA| ==> METADATA[i].table == ""
  {
  }

  /** An answer that ends at once has no columns. */
  lemma EmptyAnswer(text: string)
    requires var lines := LinesOf(text); lines.Some? && |lines.value| >= 2 && lines.value[1] == "$"
    ensures ParseText(text) == Some(Empty) && Built(text) == ([], map[])
  {
    hide LinesOf;
  }

  /** An answer of less than two lines, or with a type that is not known, throws. */
  lemma NoAnswer(text: string)
    requires var lines := LinesOf(text); lines.Some? ==>
               || |lines.value| < 2
               || (|lines.value| > 2 && lines.value[0] == "answer" && lines.value[1] !in {"$", "$eot"}
                   && GetTypeFromStr(lines.value[2]) == None)
    ensures ParseText(text) == None
  {
    hide LinesOf, GetTypeFromStr;
  }

  /** A name without a point counts as the table, too; a lone quote is an empty text. */
  lemma OddLines(line: string, typeLine: string)
    requires '.' !in line
    ensures GetTypeFromStr(typeLine).Some? ==>
              SpecAt(line, typeLine) == Some(ColumnSpec(line, line, GetTypeFromStr(typeLine).value))
    ensures CellOf("'") == Some("") && CellOf("") == Some("")
  {
    assert IndexOf(line, '.') == |line|;
    assert line[..|line|] == line;
    hide GetTypeFromStr;
  }

  lemma {:induction false} EmptyColumns(specs: seq<ColumnSpec>, k: nat)
    requires k <= |specs|
    ensures forall name <- Inserted(specs, k) ::
              Inserted(specs, k)[name].values == [] && exists i :: 0 <= i < k && Inserted(specs, k)[name].table == specs[i].table
  {
    if k > 0 {
      EmptyColumns(specs, k - 1);
    }
  }

  /** Describing a column counts the decimals of floats, and throws at a null. */
  predicate Describable(column: Column) {
    column.typ.simpleType == FloatType ==> None !in column.values
  }

  lemma ParsedTable(lines: seq<string>)
    requires |lines| >= 2 && lines[0] == "answer" && lines[1] != END_OF_PART
    ensures ParseLines(lines) == ParseTable(lines)
    ensures ParseHeader(lines, 1) == None ==> ParseTable(lines) == None
    ensures ParseHeader(lines, 1).Some? ==>
              var (specs, next) := ParseHeader(lines, 1).value;
              var i := next + 1;
              && next < |lines| && |Names(specs)| == |specs|
              && (i == |lines| || lines[i] == END_OF_TEXT ==> ParseTable(lines) == Some(Table(specs, [])))
              && (i < |lines| && lines[i] != END_OF_TEXT ==>
                    match ParseRows(lines, i, |specs|)
                    case None => ParseTable(lines) == None
                    case Some(rows) => ParseTable(lines) == Some(Table(specs, rows)))
  {
    HeaderInside(lines, 1);
    hide ParseHeader, ParseRows;
  }

  lemma {:induction false} HeaderInside(lines: seq<string>, i: nat)
    ensures ParseHeader(lines, i).Some? ==> ParseHeader(lines, i).value.1 < |lines|
    decreases |lines| - i
  {
    if i < |lines| {
      HeaderInside(lines, i + 2);
    }
  }

  // ---------------------------------------------------------------------------------- steps of the loops

  function Behind(done: seq<ColumnSpec>, rest: Option<(seq<ColumnSpec>, nat)>): Option<(seq<ColumnSpec>, nat)> {
    match rest
    case None => None
    case Some((specs, next)) => Some((done + specs, next))
  }

  lemma HeaderStart(lines: seq<string>)
    ensures Behind([], ParseHeader(lines, 1)) == ParseHeader(lines, 1)
    ensures Names([]) == [] && Inserted([], 0) == map[]
  {
    hide ParseHeader;
    assert forall specs: seq<ColumnSpec> :: [] + specs == specs;
  }

  lemma HeaderMissing(lines: seq<string>, i: nat, done: seq<ColumnSpec>)
    requires i >= |lines|
    ensures Behind(done, ParseHeader(lines, i)) == None
  {
  }

  lemma RowsStart(lines: seq<string>, start: nat, names: seq<string>, m: map<string, Column>)
    ensures BehindRows([], ParseRows(lines, start, |names|)) == ParseRows(lines, start, |names|)
    ensures Rectangular([], |names|) && WithRows(m, names, [], 0) == m
  {
    hide ParseRows;
    assert forall rows: seq<seq<Option<string>>> :: [] + rows == rows;
  }

  lemma HeaderStep(lines: seq<string>, i: nat, done: seq<ColumnSpec>)
    requires i < |lines|
    ensures lines[i] == END_OF_TEXT ==> Behind(done, ParseHeader(lines, i)) == Some((done, i))
    ensures lines[i] != END_OF_TEXT && (i + 2 >= |lines| || SpecAt(lines[i], lines[i + 1]) == None) ==>
              Behind(done, ParseHeader(lines, i)) == None
    ensures lines[i] != END_OF_TEXT && i + 2 < |lines| && SpecAt(lines[i], lines[i + 1]).Some? ==>
              var more := done + [SpecAt(lines[i], lines[i + 1]).value];
              Behind(done, ParseHeader(lines, i))
              == if lines[i + 2] == END_OF_PART then Some((more, i + 2)) else Behind(more, ParseHeader(lines, i + 2))
  {
    hide SpecAt;
    assert done + [] == done;
    if lines[i] != END_OF_TEXT && i + 2 < |lines| && SpecAt(lines[i], lines[i + 1]).Some? {
      var spec := SpecAt(lines[i], lines[i + 1]).value;
      var rest := ParseHeader(lines, i + 2);
      assert rest.Some? ==> done + ([spec] + rest.value.0) == done + [spec] + rest.value.0;
    }
  }

  lemma {:induction false} InsertedPrefix(specs: seq<ColumnSpec>, spec: ColumnSpec, k: nat)
    requires k <= |specs|
    ensures Inserted(specs + [spec], k) == Inserted(specs, k)
  {
    if k > 0 {
      InsertedPrefix(specs, spec, k - 1);
    }
  }

  lemma InsertedMore(specs: seq<ColumnSpec>, spec: ColumnSpec)
    ensures Names(specs + [spec]) == Names(specs) + [spec.name]
    ensures Inserted(specs + [spec], |specs| + 1) == Inserted(specs, |specs|)[spec.name := Column(spec.table, spec.typ, [])]
  {
    NamesMore(specs, spec);
    InsertedPrefix(specs, spec, |specs|);
    InsertedLast(specs + [spec]);
    hide *;
  }

  lemma NamesMore(specs: seq<ColumnSpec>, spec: ColumnSpec)
    ensures Names(specs + [spec]) == Names(specs) + [spec.name] && (specs + [spec])[|specs|] == spec
  {
  }

  lemma InsertedLast(specs: seq<ColumnSpec>)
    requires specs != []
    ensures var last := specs[|specs| - 1];
            Inserted(specs, |specs|) == Inserted(specs, |specs| - 1)[last.name := Column(last.table, last.typ, [])]
  {
  }

  function BehindRows(done: seq<seq<Option<string>>>, rest: Option<seq<seq<Option<string>>>>)
    : Option<seq<seq<Option<string>>>>
  {
    match rest
    case None => None
    case Some(rows) => Some(done + rows)
  }

  lemma RowsStep(lines: seq<string>, i: nat, n: nat, done: seq<seq<Option<string>>>)
    ensures i + n >= |lines| ==> BehindRows(done, ParseRows(lines, i, n)) == None
    ensures i + n < |lines| ==>
              var more := done + [RowAt(lines, i, n)];
              BehindRows(done, ParseRows(lines, i, n))
              == if lines[i + n] == END_OF_TEXT then Some(more) else BehindRows(more, ParseRows(lines, i + n + 1, n))
  {
    if i + n < |lines| && lines[i + n] != END_OF_TEXT {
      var rest := ParseRows(lines, i + n + 1, n);
      assert rest.Some? ==> done + ([RowAt(lines, i, n)] + rest.value) == done + [RowAt(lines, i, n)] + rest.value;
    }
  }

  lemma {:induction false} RowsPrefix(m: map<string, Column>, names: seq<string>, rows: seq<seq<Option<string>>>,
                                      row: seq<Option<string>>, r: nat)
    requires r <= |rows| && Rectangular(rows, |names|) && |row| == |names|
    ensures WithRows(m, names, rows + [row], r) == WithRows(m, names, rows, r)
  {
    if r > 0 {
      RowsPrefix(m, names, rows, row, r - 1);
    }
  }

  lemma RowsMore(m: map<string, Column>, names: seq<string>, rows: seq<seq<Option<string>>>, row: seq<Option<string>>)
    requires Rectangular(rows, |names|) && |row| == |names|
    ensures Rectangular(rows + [row], |names|)
    ensures WithRows(m, names, rows + [row], |rows| + 1) == WithCells(WithRows(m, names, rows, |rows|), names, row, |names|)
  {
    RowsPrefix(m, names, rows, row, |rows|);
  }

  // ---------------------------------------------------------------------------------- what the columns hold

  /** How often a name stands among the names. */
  function Occurrences(names: seq<string>, name: string, j: nat): nat
    requires j <= |names|
  {
    if j == 0 then 0 else Occurrences(names, name, j - 1) + if names[j - 1] == name then 1 else 0
  }

  lemma {:induction false} CellsAdded(m: map<string, Column>, names: seq<string>, row: seq<Option<string>>, j: nat,
                                      name: string)
    requires j <= |names| == |row| && name in m && forall n <- names :: n in m
    ensures var after := WithCells(m, names, row, j);
            after.Keys == m.Keys && |after[name].values| == |m[name].values| + Occurrences(names, name, j)
  {
    if j > 0 {
      CellsAdded(m, names, row, j - 1, name);
      assert names[j - 1] in names;
    }
  }

  /** Every row adds as many values to a column as its name stands among the names. */
  lemma {:induction false} ColumnLengths(m: map<string, Column>, names: seq<string>, rows: seq<seq<Option<string>>>, r: nat,
                                         name: string)
    requires r <= |rows| && Rectangular(rows, |names|) && name in m && forall n <- names :: n in m
    ensures var after := WithRows(m, names, rows, r);
            after.Keys == m.Keys && |after[name].values| == |m[name].values| + r * Occurrences(names, name, |names|)
  {
    if r > 0 {
      ColumnLengths(m, names, rows, r - 1, name);
      var before := WithRows(m, names, rows, r - 1);
      assert WithRows(m, names, rows, r) == WithCells(before, names, rows[r - 1], |names|);
      hide WithRows, WithCells, Occurrences;
      CellsAdded(before, names, rows[r - 1], |names|, name);
      OneMore(r, Occurrences(names, name, |names|));
    }
  }

  predicate Distinct(names: seq<string>) {
    forall i, j :: 0 <= i < j < |names| ==> names[i] != names[j]
  }

  lemma {:induction false} OccursOnce(names: seq<string>, k: nat, j: nat)
    requires k < |names| && j <= |names| && Distinct(names)
    ensures Occurrences(names, names[k], j) == if k < j then 1 else 0
  {
    if j > 0 {
      OccursOnce(names, k, j - 1);
    }
  }

  lemma {:induction false} InsertedColumn(specs: seq<ColumnSpec>, n: nat, k: nat)
    requires k < n <= |specs| && Distinct(Names(specs))
    ensures Inserted(specs, n)[specs[k].name] == Column(specs[k].table, specs[k].typ, [])
  {
    if k < n - 1 {
      InsertedColumn(specs, n - 1, k);
      assert Names(specs)[k] != Names(specs)[n - 1];
    }
  }

  /** The values at place k of the first r rows. */
  function Place(rows: seq<seq<Option<string>>>, k: nat, r: nat): seq<Option<string>>
    requires r <= |rows| && forall i :: 0 <= i < r ==> k < |rows[i]|
  {
    seq(r, i requires 0 <= i < r => rows[i][k])
  }

  lemma {:induction false} CellOfColumn(m: map<string, Column>, names: seq<string>, row: seq<Option<string>>, j: nat, k: nat)
    requires j <= |names| == |row| && k < |names| && Distinct(names) && forall n <- names :: n in m
    ensures var after := WithCells(m, names, row, j);
            && after.Keys == m.Keys
            && after[names[k]] == if k < j then m[names[k]].(values := m[names[k]].values + [row[k]]) else m[names[k]]
  {
    if j > 0 {
      CellOfColumn(m, names, row, j - 1, k);
      assert names[j - 1] in names;
    }
  }

  lemma {:induction false} ValuesOfColumn(m: map<string, Column>, names: seq<string>, rows: seq<seq<Option<string>>>, r: nat,
                                          k: nat)
    requires r <= |rows| && Rectangular(rows, |names|) && k < |names| && Distinct(names) && forall n <- names :: n in m
    ensures var after := WithRows(m, names, rows, r);
            && after.Keys == m.Keys
            && after[names[k]] == m[names[k]].(values := m[names[k]].values + Place(rows, k, r))
  {
    if r > 0 {
      ValuesOfColumn(m, names, rows, r - 1, k);
      CellOfColumn(WithRows(m, names, rows, r - 1), names, rows[r - 1], |names|, k);
      assert Place(rows, k, r) == Place(rows, k, r - 1) + [rows[r - 1][k]];
      hide WithCells, Place, Distinct;
    }
  }

  /** With distinct names, what the column of place k holds. */
  lemma FilledColumn(specs: seq<ColumnSpec>, rows: seq<seq<Option<string>>>, k: nat)
    requires Rectangular(rows, |specs|) && Distinct(Names(specs)) && k < |specs|
    ensures specs[k].name in Filled(specs, rows)
    ensures forall i :: 0 <= i < |rows| ==> k < |rows[i]|
    ensures Filled(specs, rows)[specs[k].name] == Column(specs[k].table, specs[k].typ, Place(rows, k, |rows|))
  {
    InsertedColumn(specs, |specs|, k);
    NamesInserted(specs);
    ValuesOfColumn(Inserted(specs, |specs|), Names(specs), rows, |rows|, k);
    assert forall i :: 0 <= i < |rows| ==> rows[i] in rows;
    hide Inserted, WithRows, Distinct;
    assert [] + Place(rows, k, |rows|) == Place(rows, k, |rows|);
  }

  /** All columns have as many values as there are rows exactly when the names are distinct or there are no rows. */
  lemma ColumnsAreEvenIff(specs: seq<ColumnSpec>, rows: seq<seq<Option<string>>>)
    requires Rectangular(rows, |specs|)
    ensures (forall k :: 0 <= k < |specs| ==>
               specs[k].name in Filled(specs, rows) && |Filled(specs, rows)[specs[k].name].values| == |rows|)
            <==> rows == [] || Distinct(Names(specs))
  {
    forall k | 0 <= k < |specs|
      ensures specs[k].name in Filled(specs, rows)
      ensures |Filled(specs, rows)[specs[k].name].values| == |rows| * Occurrences(Names(specs), specs[k].name, |specs|)
    {
      NamesInserted(specs);
      InsertedEmpty(specs, |specs|);
      assert Names(specs)[k] in Names(specs);
      ColumnLengths(Inserted(specs, |specs|), Names(specs), rows, |rows|, specs[k].name);
    }
    DistinctIff(Names(specs));
    hide Filled, Occurrences, Distinct;
    assert forall k :: 0 <= k < |specs| ==> Names(specs)[k] == specs[k].name;
    forall k | 0 <= k < |specs|
      ensures |rows| * Occurrences(Names(specs), specs[k].name, |specs|) == |rows|
              <==> rows == [] || Occurrences(Names(specs), specs[k].name, |specs|) == 1
    {
      TimesOne(|rows|, Occurrences(Names(specs), specs[k].name, |specs|));
    }
  }

  lemma TimesOne(n: nat, k: nat)
    ensures n * k == n <==> n == 0 || k == 1
  {
    if n > 0 && k != 1 {
      assert k == 0 || n * k >= n * 2;
    }
  }

  lemma {:induction false} InsertedEmpty(specs: seq<ColumnSpec>, n: nat)
    requires n <= |specs|
    ensures forall name <- Inserted(specs, n) :: Inserted(specs, n)[name].values == []
  {
    if n > 0 {
      InsertedEmpty(specs, n - 1);
    }
  }

  lemma {:induction false} OccursBefore(names: seq<string>, name: string, i: nat, j: nat)
    requires i < j <= |names| && names[i] == name
    ensures Occurrences(names, name, j) >= 1
    decreases j
  {
    if i < j - 1 {
      OccursBefore(names, name, i, j - 1);
    }
  }

  lemma {:induction false} OccursMore(names: seq<string>, i: nat, k: nat, j: nat)
    requires i < k < j <= |names| && names[i] == names[k]
    ensures Occurrences(names, names[k], j) >= 2
    decreases j
  {
    if k == j - 1 {
      OccursBefore(names, names[k], i, k);
    } else {
      OccursMore(names, i, k, j - 1);
    }
  }

  lemma DistinctIff(names: seq<string>)
    ensures Distinct(names) <==> forall k :: 0 <= k < |names| ==> Occurrences(names, names[k], |names|) == 1
  {
    if Distinct(names) {
      forall k | 0 <= k < |names| ensures Occurrences(names, names[k], |names|) == 1 {
        OccursOnce(names, k, |names|);
      }
    } else {
      var i, k :| 0 <= i < k < |names| && names[i] == names[k];
      OccursMore(names, i, k, |names|);
    }
  }
}
