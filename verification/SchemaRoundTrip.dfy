/** Reading back a description of a database in the layout that the server writes. */
module SchemaRoundTrip {
  import opened Options
  import opened Numbers
  import opened TapiText
  import opened TypeNames
  import opened Schema

  /** A table with its sections, a table of an external database, which has none, or a view. */
  datatype Relation =
    | FullTable(name: string, cols: seq<SchemaColumn>, notNulls: seq<string>, primaryKey: seq<string>,
                otherKeys: seq<string>, foreignKeys: seq<ForeignKey>, dependencies: seq<string>, constraints: seq<string>)
    | PlainTable(name: string, cols: seq<SchemaColumn>)
    | View(kind: string, name: string, cols: seq<SchemaColumn>, sql: seq<string>, datalog: seq<string>)

  // ---------------------------------------------------------------------------------- the layout

  function ColumnLines(cols: seq<SchemaColumn>): seq<string> {
    if cols == [] then [] else [cols[0].name, NameOf(cols[0].typ)] + ColumnLines(cols[1..])
  }

  /** An empty list has no line. */
  function ListLines(names: seq<string>): seq<string> {
    if names == [] then [] else [ListOf(names)]
  }

  function KeyLine(table: string, fk: ForeignKey): string {
    table + ".[" + fk.key + "] -> " + fk.foreignTable + ".[" + fk.foreignKey + "]"
  }

  function KeyLines(table: string, fks: seq<ForeignKey>): seq<string> {
    if fks == [] then [] else [KeyLine(table, fks[0])] + KeyLines(table, fks[1..])
  }

  /** A part and the mark behind it. */
  function Part(part: seq<string>): seq<string> {
    part + ["$"]
  }

  /** The parts behind the list of the primary key. */
  function KeySection(table: string, otherKeys: seq<string>, fks: seq<ForeignKey>, dependencies: seq<string>,
                      constraints: seq<string>): seq<string> {
    Part(otherKeys) + (Part(KeyLines(table, fks)) + (Part(dependencies) + constraints))
  }

  function RelationLines(rel: Relation): seq<string> {
    match rel
    case FullTable(name, cols, notNulls, primaryKey, otherKeys, foreignKeys, dependencies, constraints) =>
      ["$table", name]
      + (Part(ColumnLines(cols))
         + (Part(ListLines(notNulls))
            + (Part(ListLines(primaryKey))
               + KeySection(name, otherKeys, foreignKeys, dependencies, constraints))))
    case PlainTable(name, cols) => ["$table", name] + Part(ColumnLines(cols))
    case View(kind, name, cols, sql, datalog) =>
      ["$view", kind, name] + (Part(ColumnLines(cols)) + (Part(sql) + datalog))
  }

  function SchemaLines(rels: seq<Relation>): seq<string> {
    if rels == [] then ["$eot"] else RelationLines(rels[0]) + SchemaLines(rels[1..])
  }

  // ---------------------------------------------------------------------------------- what can be written

  predicate IsContent(part: seq<string>) {
    forall line <- part :: IsLine(line) && !IsMark(line)
  }

  predicate IsColumn(col: SchemaColumn) {
    IsLine(col.name) && !IsMark(col.name) && HasName(col.typ)
  }

  predicate AreColumns(cols: seq<SchemaColumn>) {
    forall col <- cols :: IsColumn(col)
  }

  predicate AreNames(names: seq<string>) {
    forall name <- names :: IsName(name)
  }

  predicate IsKey(fk: ForeignKey) {
    IsName(fk.key) && IsName(fk.foreignTable) && IsName(fk.foreignKey)
  }

  predicate AreKeys(fks: seq<ForeignKey>) {
    forall fk <- fks :: IsKey(fk)
  }

  /** The relation can be told from the marks of the layout. */
  predicate IsRelation(rel: Relation) {
    && IsName(rel.name) && !IsMark(rel.name) && AreColumns(rel.cols)
    && match rel
       case FullTable(_, _, notNulls, primaryKey, otherKeys, foreignKeys, dependencies, constraints) =>
         AreNames(notNulls) && AreNames(primaryKey) && IsContent(otherKeys) && AreKeys(foreignKeys)
         && IsContent(dependencies) && IsContent(constraints)
       case PlainTable(_, _) => true
       case View(kind, _, _, sql, datalog) =>
         IsLine(kind) && !IsMark(kind) && IsContent(sql) && IsContent(datalog)
  }

  /** A view whose kind is view is read without its name and columns. */
  predicate Nameless(rel: Relation) {
    rel.View? && rel.kind == "view"
  }

  function InfoFor(rel: Relation): RelationInfo {
    match rel
    case FullTable(name, cols, notNulls, primaryKey, _, foreignKeys, _, _) =>
      InfoOf(true, name, cols).(notNulls := notNulls, primaryKeys := primaryKey, foreignKeys := foreignKeys)
    case PlainTable(name, cols) => InfoOf(true, name, cols)
    case View(kind, name, cols, _, _) => if kind == "view" then InfoOf(false, "", []) else InfoOf(false, name, cols)
  }

  // ---------------------------------------------------------------------------------- parts of the lines

  /** The part stands at line i. */
  ghost predicate At(lines: seq<string>, i: nat, part: seq<string>) {
    i + |part| <= |lines| && lines[i..i + |part|] == part
  }

  lemma AtBoth(lines: seq<string>, i: nat, a: seq<string>, b: seq<string>)
    requires At(lines, i, a + b)
    ensures At(lines, i, a) && At(lines, i + |a|, b)
  {
    assert lines[i..i + |a|] == lines[i..i + |a + b|][..|a|];
    assert lines[i + |a|..i + |a| + |b|] == lines[i..i + |a + b|][|a|..];
  }

  lemma AtLine(lines: seq<string>, i: nat, part: seq<string>, k: nat)
    requires At(lines, i, part) && k < |part|
    ensures i + k < |lines| && lines[i + k] == part[k]
  {
    assert lines[i..i + |part|][k] == lines[i + k];
  }

  /** A part and its mark. */
  lemma AtPart(lines: seq<string>, i: nat, part: seq<string>, rest: seq<string>)
    requires At(lines, i, Part(part) + rest)
    ensures At(lines, i, part) && i + |part| < |lines| && lines[i + |part|] == PART_MARK
    ensures At(lines, i + |part| + 1, rest)
  {
    AtBoth(lines, i, Part(part), rest);
    AtBoth(lines, i, part, [PART_MARK]);
    AtLine(lines, i + |part|, [PART_MARK], 0);
  }

  // ---------------------------------------------------------------------------------- columns

  lemma ColumnsOne(lines: seq<string>, i: nat)
    ensures i < |lines| && lines[i] == PART_MARK ==> Columns(lines, i) == Some(([], i))
    ensures i + 1 < |lines| && lines[i] != PART_MARK && GetTypeFromStr(lines[i + 1]).Some?
            && Columns(lines, i + 2).Some? ==>
              Columns(lines, i) == Some(([SchemaColumn(lines[i], GetTypeFromStr(lines[i + 1]).value)]
                                         + Columns(lines, i + 2).value.0, Columns(lines, i + 2).value.1))
  {
    hide GetTypeFromStr;
  }

  lemma ColumnParts(cols: seq<SchemaColumn>, lines: seq<string>, i: nat)
    requires cols != [] && AreColumns(cols) && At(lines, i, ColumnLines(cols))
    ensures i + 1 < |lines| && lines[i] == cols[0].name && lines[i + 1] == NameOf(cols[0].typ)
    ensures At(lines, i + 2, ColumnLines(cols[1..])) && |ColumnLines(cols)| == 2 + |ColumnLines(cols[1..])|
    ensures IsColumn(cols[0]) && AreColumns(cols[1..]) && cols == [cols[0]] + cols[1..]
    ensures lines[i] != PART_MARK
  {
    assert cols[0] in cols;
    var first := [cols[0].name, NameOf(cols[0].typ)];
    hide NameOf;
    AtBoth(lines, i, first, ColumnLines(cols[1..]));
    AtLine(lines, i, first, 0);
    AtLine(lines, i, first, 1);
  }

  lemma {:induction false} ColumnsComeBack(cols: seq<SchemaColumn>, lines: seq<string>, i: nat)
    requires AreColumns(cols) && At(lines, i, ColumnLines(cols))
    requires i + |ColumnLines(cols)| < |lines| && lines[i + |ColumnLines(cols)|] == PART_MARK
    ensures Columns(lines, i) == Some((cols, i + |ColumnLines(cols)|))
    decreases |cols|
  {
    hide *;
    ColumnsOne(lines, i);
    if cols == [] {
      NoColumns();
    } else {
      ColumnParts(cols, lines, i);
      ColumnTypeBack(cols[0]);
      ColumnsComeBack(cols[1..], lines, i + 2);
    }
  }

  lemma ColumnTypeBack(col: SchemaColumn)
    requires IsColumn(col)
    ensures GetTypeFromStr(NameOf(col.typ)) == Some(col.typ)
  {
    TypeComesBack(col.typ);
  }

  lemma NoColumns()
    ensures ColumnLines([]) == []
  {
  }

  // ---------------------------------------------------------------------------------- lists and passed parts

  lemma ListComesBack(names: seq<string>, lines: seq<string>, i: nat)
    requires AreNames(names) && At(lines, i, ListLines(names))
    requires i + |ListLines(names)| < |lines| && lines[i + |ListLines(names)|] == PART_MARK
    ensures ListAt(lines, i) == Some((names, i + |ListLines(names)| + 1))
  {
    if names != [] {
      AtLine(lines, i, ListLines(names), 0);
      ElementsComeBack(names);
      assert ListOf(names)[0] == '[';
      hide Elements, ListOf;
    }
  }

  lemma {:induction false} PartIsPassed(part: seq<string>, lines: seq<string>, i: nat)
    requires IsContent(part) && At(lines, i, part)
    requires i + |part| < |lines| && lines[i + |part|] == PART_MARK
    ensures SkipPart(lines, i) == Some(i + |part|)
    decreases |part|
  {
    if part != [] {
      AtLine(lines, i, part, 0);
      assert part[0] in part;
      AtBoth(lines, i, part[..1], part[1..]);
      PartIsPassed(part[1..], lines, i + 1);
    }
  }

  /** No relation starts in a content. */
  lemma NoStartInside(part: seq<string>, lines: seq<string>, i: nat)
    requires IsContent(part) && At(lines, i, part)
    ensures forall k :: i <= k < i + |part| ==> !StartsRelation(lines[k])
  {
    forall k | i <= k < i + |part| ensures !StartsRelation(lines[k]) {
      AtLine(lines, i, part, k - i);
      assert part[k - i] in part;
    }
  }

  lemma {:induction false} FindPasses(lines: seq<string>, i: nat, j: nat)
    requires i <= j <= |lines| && forall k :: i <= k < j ==> !StartsRelation(lines[k])
    ensures FindRelation(lines, i) == FindRelation(lines, j)
    decreases j - i
  {
    if i < j {
      FindPasses(lines, i + 1, j);
    }
  }

  // ---------------------------------------------------------------------------------- foreign keys

  /** A key when the brackets are gone. */
  function BareKey(table: string, fk: ForeignKey): string {
    table + "." + fk.key + " -> " + fk.foreignTable + "." + fk.foreignKey
  }

  lemma KeyWithoutBrackets(table: string, fk: ForeignKey)
    requires IsName(table) && IsKey(fk)
    ensures Without(KeyLine(table, fk), BRACKETS)
            == BareKey(table, fk)
  {
    NothingToDrop(table, BRACKETS);
    NothingToDrop(fk.key, BRACKETS);
    NothingToDrop(fk.foreignTable, BRACKETS);
    NothingToDrop(fk.foreignKey, BRACKETS);
    Punctuation();
    hide Without, IsName, IsKey;
    var a := table + ".[" + fk.key;
    var b := a + "] -> " + fk.foreignTable;
    var c := b + ".[" + fk.foreignKey;
    Bracketed(table, ".[", fk.key);
    Bracketed(a, "] -> ", fk.foreignTable);
    Bracketed(b, ".[", fk.foreignKey);
    WithoutConcat(c, "]", BRACKETS);
  }

  lemma Bracketed(a: string, b: string, c: string)
    ensures Without(a + b + c, BRACKETS) == Without(a, BRACKETS) + Without(b, BRACKETS) + Without(c, BRACKETS)
  {
    WithoutConcat(a + b, c, BRACKETS);
    WithoutConcat(a, b, BRACKETS);
  }

  lemma Punctuation()
    ensures Without(".[", BRACKETS) == "." && Without("] -> ", BRACKETS) == " -> " && Without("]", BRACKETS) == ""
  {
    hide Without;
    DropLast(".", '[');
    DropFirst(']', " -> ");
    DropFirst(']', "");
    assert "." + ['['] == ".[" && [']'] + " -> " == "] -> " && [']'] + "" == "]";
  }

  lemma DropLast(a: string, c: char)
    requires FreeOf(a, BRACKETS) && c in BRACKETS
    ensures Without(a + [c], BRACKETS) == a
  {
    NothingToDrop(a, BRACKETS);
    assert (a + [c])[..|a|] == a;
  }

  lemma DropFirst(c: char, a: string)
    requires FreeOf(a, BRACKETS) && c in BRACKETS
    ensures Without([c] + a, BRACKETS) == a
  {
    NothingToDrop(a, BRACKETS);
    WithoutConcat([c], a, BRACKETS);
    assert [c][..0] == "";
  }

  lemma KeySlices(table: string, fk: ForeignKey)
    ensures var s := BareKey(table, fk);
            var blank := |table| + 1 + |fk.key|;
            var point := blank + 4 + |fk.foreignTable|;
            && |s| == point + 1 + |fk.foreignKey| && s[0..|table|] == table && s[|table|] == '.'
            && s[|table| + 1..blank] == fk.key && s[blank] == ' '
            && s[blank + 4..point] == fk.foreignTable && s[point] == '.' && s[point + 1..] == fk.foreignKey
  {
  }

  /** Where the separators of a key stand when the brackets are gone. */
  lemma KeySeparators(table: string, fk: ForeignKey)
    requires IsName(table) && IsKey(fk)
    ensures var s := BareKey(table, fk);
            var blank := |table| + 1 + |fk.key|;
            var point := blank + 4 + |fk.foreignTable|;
            && IndexFrom(s, '.', 0) == |table| && point < |s| && IndexFrom(s, ' ', |table| + 1) == blank
            && IndexFrom(s, '.', blank + 4) == point
  {
    var s, blank := BareKey(table, fk), |table| + 1 + |fk.key|;
    KeySlices(table, fk);
    hide BareKey, IsName, IndexFrom;
    NoneBefore(s, 0, table, '.');
    NoneBefore(s, |table| + 1, fk.key, ' ');
    NoneBefore(s, blank + 4, fk.foreignTable, '.');
  }

  /** A name that ends at a separator. */
  lemma NoneBefore(s: string, i: nat, name: string, c: char)
    requires i + |name| < |s| && s[i..i + |name|] == name && s[i + |name|] == c && IsName(name) && c in {'.', ' '}
    ensures IndexFrom(s, c, i) == i + |name|
  {
    assert forall k :: i <= k < i + |name| ==> s[k] == name[k - i] && name[k - i] in name;
    var j := IndexFrom(s, c, i);
    assert !(j < i + |name|) && !(i + |name| < j);
  }

  lemma ForeignKeyFrom(line: string, s: string, dot: nat, blank: nat, point: nat)
    requires Without(line, BRACKETS) == s && dot == IndexFrom(s, '.', 0) < |s|
    requires blank == IndexFrom(s, ' ', dot + 1) && blank + 4 <= |s| && point == IndexFrom(s, '.', blank + 4) < |s|
    ensures ForeignKeyOf(line) == Some(ForeignKey(s[dot + 1..blank], s[blank + 4..point], s[point + 1..]))
  {
    hide Without, IndexFrom;
  }

  lemma ForeignKeyIs(line: string, table: string, fk: ForeignKey)
    requires Without(line, BRACKETS) == BareKey(table, fk) && IsName(table) && IsKey(fk)
    ensures ForeignKeyOf(line) == Some(fk)
  {
    hide *;
    KeySlices(table, fk);
    KeySeparators(table, fk);
    var blank := |table| + 1 + |fk.key|;
    ForeignKeyFrom(line, BareKey(table, fk), |table|, blank, blank + 4 + |fk.foreignTable|);
  }

  lemma KeyComesBack(table: string, fk: ForeignKey)
    requires IsName(table) && IsKey(fk)
    ensures ForeignKeyOf(KeyLine(table, fk)) == Some(fk) && IsLine(KeyLine(table, fk)) && !IsMark(KeyLine(table, fk))
  {
    hide *;
    KeyWithoutBrackets(table, fk);
    ForeignKeyIs(KeyLine(table, fk), table, fk);
    KeyLineIsContent(table, fk);
  }

  lemma KeyLineIsContent(table: string, fk: ForeignKey)
    requires IsName(table) && IsKey(fk)
    ensures IsLine(KeyLine(table, fk)) && !IsMark(KeyLine(table, fk))
  {
    var line := KeyLine(table, fk);
    assert line[|line| - 1] == ']';
  }

  lemma KeysOne(lines: seq<string>, i: nat)
    ensures i < |lines| && lines[i] == PART_MARK ==> ForeignKeys(lines, i) == Some(([], i))
    ensures i < |lines| && lines[i] != PART_MARK && ForeignKeyOf(lines[i]).Some? && ForeignKeys(lines, i + 1).Some? ==>
              ForeignKeys(lines, i) == Some(([ForeignKeyOf(lines[i]).value] + ForeignKeys(lines, i + 1).value.0,
                                             ForeignKeys(lines, i + 1).value.1))
  {
    hide ForeignKeyOf;
  }

  lemma KeyParts(table: string, fks: seq<ForeignKey>, lines: seq<string>, i: nat)
    requires fks != [] && AreKeys(fks) && At(lines, i, KeyLines(table, fks))
    ensures i < |lines| && lines[i] == KeyLine(table, fks[0]) && IsKey(fks[0]) && AreKeys(fks[1..])
    ensures At(lines, i + 1, KeyLines(table, fks[1..])) && |KeyLines(table, fks)| == 1 + |KeyLines(table, fks[1..])|
    ensures fks == [fks[0]] + fks[1..]
  {
    assert fks[0] in fks;
    assert KeyLines(table, fks) == [KeyLine(table, fks[0])] + KeyLines(table, fks[1..]);
    hide KeyLine, IsKey, KeyLines, At;
    AtBoth(lines, i, [KeyLine(table, fks[0])], KeyLines(table, fks[1..]));
    AtLine(lines, i, [KeyLine(table, fks[0])], 0);
  }

  lemma NoKeys(table: string)
    ensures KeyLines(table, []) == []
  {
  }

  lemma MarkIsMark()
    ensures IsMark(PART_MARK)
  {
  }

  lemma {:induction false} KeysComeBack(table: string, fks: seq<ForeignKey>, lines: seq<string>, i: nat)
    requires IsName(table) && AreKeys(fks) && At(lines, i, KeyLines(table, fks))
    requires i + |KeyLines(table, fks)| < |lines| && lines[i + |KeyLines(table, fks)|] == PART_MARK
    ensures ForeignKeys(lines, i) == Some((fks, i + |KeyLines(table, fks)|))
    ensures fks != [] ==> lines[i] != PART_MARK
    decreases |fks|
  {
    hide *;
    KeysOne(lines, i);
    MarkIsMark();
    if fks == [] {
      NoKeys(table);
    } else {
      KeyParts(table, fks, lines, i);
      KeyComesBack(table, fks[0]);
      KeysComeBack(table, fks[1..], lines, i + 1);
    }
  }

  // ---------------------------------------------------------------------------------- one relation

  /** Between the lines nothing starts that the search for the next relation would find. */
  ghost predicate Quiet(lines: seq<string>, i: nat, j: nat) {
    i <= j <= |lines| && forall k :: i <= k < j ==> !StartsRelation(lines[k])
  }

  lemma QuietPart(part: seq<string>, lines: seq<string>, i: nat)
    requires IsContent(part) && At(lines, i, part)
    ensures Quiet(lines, i, i + |part|)
  {
    NoStartInside(part, lines, i);
  }

  lemma QuietMark(lines: seq<string>, i: nat, j: nat)
    requires i < j && Quiet(lines, i + 1, j) && lines[i] == PART_MARK
    ensures Quiet(lines, i, j)
  {
  }

  lemma QuietNowhere(lines: seq<string>, i: nat)
    requires i <= |lines|
    ensures Quiet(lines, i, i)
  {
  }

  /** Lines without marks are passed over up to the mark behind them. */
  lemma {:induction false} SectionIsPassed(part: seq<string>, lines: seq<string>, i: nat)
    requires IsContent(part) && At(lines, i, part)
    requires i + |part| < |lines| && IsMark(lines[i + |part|])
    ensures SkipSection(lines, i) == i + |part|
    decreases |part|
  {
    if part != [] {
      AtLine(lines, i, part, 0);
      assert part[0] in part;
      AtBoth(lines, i, part[..1], part[1..]);
      SectionIsPassed(part[1..], lines, i + 1);
    }
  }

  lemma KeysAtIs(lines: seq<string>, i: nat, j: nat, fks: seq<ForeignKey>, next: nat, k: nat)
    requires SkipPart(lines, i) == Some(j) && j + 1 < |lines| && SkipPart(lines, next) == Some(k)
    requires if lines[j + 1] == PART_MARK then fks == [] && next == j + 2 else ForeignKeys(lines, j + 1) == Some((fks, next))
    ensures KeysAt(lines, i) == Some((fks, SkipSection(lines, k + 1)))
  {
    hide SkipPart, ForeignKeys, SkipSection;
  }

  lemma MarkPassed(lines: seq<string>, i: nat)
    requires i < |lines| && lines[i] == PART_MARK
    ensures SkipPart(lines, i) == Some(i) && IsMark(lines[i])
  {
  }

  lemma KeySectionParts(table: string, otherKeys: seq<string>, fks: seq<ForeignKey>, dependencies: seq<string>,
                        constraints: seq<string>, lines: seq<string>, i: nat)
    requires At(lines, i, KeySection(table, otherKeys, fks, dependencies, constraints))
    ensures var j := i + |otherKeys|;
            var k := j + 1 + |KeyLines(table, fks)|;
            var d := k + 1 + |dependencies|;
            && At(lines, i, otherKeys) && j < |lines| && lines[j] == PART_MARK
            && At(lines, j + 1, KeyLines(table, fks)) && k < |lines| && lines[k] == PART_MARK
            && At(lines, k + 1, dependencies) && d < |lines| && lines[d] == PART_MARK && At(lines, d + 1, constraints)
            && d + 1 + |constraints| == i + |KeySection(table, otherKeys, fks, dependencies, constraints)|
  {
    hide At;
    var c := Part(dependencies) + constraints;
    var b := Part(KeyLines(table, fks)) + c;
    AtPart(lines, i, otherKeys, b);
    AtPart(lines, i + |otherKeys| + 1, KeyLines(table, fks), c);
    AtPart(lines, i + |otherKeys| + 1 + |KeyLines(table, fks)| + 1, dependencies, constraints);
  }

  lemma KeySectionComesBack(table: string, otherKeys: seq<string>, fks: seq<ForeignKey>, dependencies: seq<string>,
                            constraints: seq<string>, lines: seq<string>, i: nat)
    requires At(lines, i, KeySection(table, otherKeys, fks, dependencies, constraints))
    requires IsName(table) && IsContent(otherKeys) && AreKeys(fks) && IsContent(dependencies) && IsContent(constraints)
    requires var end := i + |KeySection(table, otherKeys, fks, dependencies, constraints)|;
             end < |lines| && IsMark(lines[end])
    ensures KeysAt(lines, i).Some? && KeysAt(lines, i).value.0 == fks
    ensures Quiet(lines, KeysAt(lines, i).value.1, i + |KeySection(table, otherKeys, fks, dependencies, constraints)|)
  {
    hide *;
    KeySectionParts(table, otherKeys, fks, dependencies, constraints, lines, i);
    var j := i + |otherKeys|;
    var k := j + 1 + |KeyLines(table, fks)|;
    var d := k + 1 + |dependencies|;
    PartIsPassed(otherKeys, lines, i);
    KeysComeBack(table, fks, lines, j + 1);
    if fks == [] {
      NoKeys(table);
      PartIsPassed(dependencies, lines, k + 1);
      KeysAtIs(lines, i, j, fks, k + 1, d);
      SectionIsPassed(constraints, lines, d + 1);
      QuietNowhere(lines, d + 1 + |constraints|);
    } else {
      MarkPassed(lines, k);
      MarkPassed(lines, d);
      KeysAtIs(lines, i, j, fks, k, k);
      SectionIsPassed(dependencies, lines, k + 1);
      QuietPart(constraints, lines, d + 1);
      QuietMark(lines, d, d + 1 + |constraints|);
    }
  }

  /** A relation is read with all that is of interest in it, and what is left of its lines is quiet. */
  ghost predicate ReadsAs(lines: seq<string>, i: nat, end: nat, info: RelationInfo) {
    && i < |lines| && StartsRelation(lines[i]) && RelationAt(lines, i).Some?
    && RelationAt(lines, i).value.0 == info && Quiet(lines, RelationAt(lines, i).value.1, end)
  }

  lemma ColumnsPart(cols: seq<SchemaColumn>, rest: seq<string>, lines: seq<string>, i: nat)
    requires AreColumns(cols) && At(lines, i, Part(ColumnLines(cols)) + rest)
    ensures var j := i + |ColumnLines(cols)|;
            j < |lines| && Columns(lines, i) == Some((cols, j)) && At(lines, j + 1, rest)
  {
    hide *;
    AtPart(lines, i, ColumnLines(cols), rest);
    ColumnsComeBack(cols, lines, i);
  }

  lemma ListPart(names: seq<string>, rest: seq<string>, lines: seq<string>, i: nat)
    requires AreNames(names) && At(lines, i, Part(ListLines(names)) + rest)
    ensures var j := i + |ListLines(names)| + 1;
            i < |lines| && ListAt(lines, i) == Some((names, j)) && At(lines, j, rest)
    ensures names == [] ==> lines[i] == PART_MARK
    ensures names != [] ==> lines[i] == ListOf(names)
  {
    AtPart(lines, i, ListLines(names), rest);
    ListComesBack(names, lines, i);
    if names != [] {
      AtLine(lines, i, ListLines(names), 0);
    }
    hide At, AreNames, ListAt, ListOf;
  }

  lemma ListIsNoMark(names: seq<string>)
    ensures !IsMark(ListOf(names))
  {
    assert ListOf(names)[0] == '[';
  }

  lemma SectionsAre(lines: seq<string>, i: nat, info: RelationInfo, notNulls: seq<string>, j: nat,
                    primaryKeys: seq<string>, k: nat)
    requires i < |lines| && lines[i] != TABLE_MARK && lines[i] != VIEW_MARK && lines[i] != TEXT_MARK
    requires ListAt(lines, i) == Some((notNulls, j)) && ListAt(lines, j) == Some((primaryKeys, k))
    requires KeysAt(lines, k).Some?
    ensures var (fks, next) := KeysAt(lines, k).value;
            TableSections(lines, i, info)
            == Some((info.(notNulls := notNulls, primaryKeys := primaryKeys, foreignKeys := fks), next))
  {
    hide ListAt, KeysAt;
  }

  lemma NoSectionsAre(lines: seq<string>, i: nat, info: RelationInfo)
    requires i < |lines| && (lines[i] == TABLE_MARK || lines[i] == VIEW_MARK || lines[i] == TEXT_MARK)
    ensures TableSections(lines, i, info) == Some((info, i))
  {
  }

  lemma TableIs(lines: seq<string>, i: nat, cols: seq<SchemaColumn>, j: nat, info: RelationInfo, next: nat)
    requires i + 1 < |lines| && lines[i] == TABLE_MARK && Columns(lines, i + 2) == Some((cols, j)) && j < |lines|
    requires TableSections(lines, j + 1, InfoOf(true, lines[i + 1], cols)) == Some((info, next))
    ensures StartsRelation(lines[i]) && RelationAt(lines, i) == Some((info, next))
  {
    hide Columns, TableSections, InfoOf;
  }

  lemma PlainTableComesBack(rel: Relation, lines: seq<string>, i: nat)
    requires rel.PlainTable? && IsRelation(rel) && At(lines, i, RelationLines(rel))
    requires i + |RelationLines(rel)| < |lines|
    requires StartsRelation(lines[i + |RelationLines(rel)|]) || lines[i + |RelationLines(rel)|] == TEXT_MARK
    ensures ReadsAs(lines, i, i + |RelationLines(rel)|, InfoFor(rel))
  {
    hide *;
    var end := i + |RelationLines(rel)|;
    PlainTableMeans(rel);
    PlainTableLines(rel, lines, i);
    ColumnsPart(rel.cols, [], lines, i + 2);
    EndStarts(lines[end]);
    NoSectionsAre(lines, end, InfoFor(rel));
    TableIs(lines, i, rel.cols, end - 1, InfoFor(rel), end);
    QuietNowhere(lines, end);
    ReadsAsIs(lines, i, end, InfoFor(rel), end);
  }

  lemma PlainTableMeans(rel: Relation)
    requires rel.PlainTable? && IsRelation(rel)
    ensures AreColumns(rel.cols) && InfoFor(rel) == InfoOf(true, rel.name, rel.cols)
  {
    hide AreColumns, InfoOf;
  }

  lemma PlainTableLines(rel: Relation, lines: seq<string>, i: nat)
    requires rel.PlainTable? && At(lines, i, RelationLines(rel))
    ensures i + 1 < |lines| && lines[i] == TABLE_MARK && lines[i + 1] == rel.name
    ensures At(lines, i + 2, Part(ColumnLines(rel.cols)) + [])
    ensures |RelationLines(rel)| == 2 + |ColumnLines(rel.cols)| + 1
  {
    hide ColumnLines;
    var first := [TABLE_MARK, rel.name];
    assert RelationLines(rel) == first + (Part(ColumnLines(rel.cols)) + []);
    AtBoth(lines, i, first, Part(ColumnLines(rel.cols)) + []);
    AtLine(lines, i, first, 0);
    AtLine(lines, i, first, 1);
  }

  lemma EndStarts(line: string)
    requires StartsRelation(line) || line == TEXT_MARK
    ensures line == TABLE_MARK || line == VIEW_MARK || line == TEXT_MARK
  {
  }

  lemma FullTableLines(rel: Relation, lines: seq<string>, i: nat)
    requires rel.FullTable? && At(lines, i, RelationLines(rel))
    ensures i + 1 < |lines| && lines[i] == TABLE_MARK && lines[i + 1] == rel.name
    ensures At(lines, i + 2, Part(ColumnLines(rel.cols))
                             + (Part(ListLines(rel.notNulls))
                                + (Part(ListLines(rel.primaryKey))
                                   + KeySection(rel.name, rel.otherKeys, rel.foreignKeys, rel.dependencies,
                                                rel.constraints))))
    ensures |RelationLines(rel)|
            == 2 + (|ColumnLines(rel.cols)| + 1) + (|ListLines(rel.notNulls)| + 1) + (|ListLines(rel.primaryKey)| + 1)
               + |KeySection(rel.name, rel.otherKeys, rel.foreignKeys, rel.dependencies, rel.constraints)|
  {
    hide ColumnLines, ListLines, KeySection;
    var first := [TABLE_MARK, rel.name];
    AtBoth(lines, i, first, Part(ColumnLines(rel.cols))
                            + (Part(ListLines(rel.notNulls))
                               + (Part(ListLines(rel.primaryKey))
                                  + KeySection(rel.name, rel.otherKeys, rel.foreignKeys, rel.dependencies,
                                               rel.constraints))));
    AtLine(lines, i, first, 0);
    AtLine(lines, i, first, 1);
  }

  lemma FullTableMeans(rel: Relation)
    requires rel.FullTable? && IsRelation(rel)
    ensures AreColumns(rel.cols) && AreNames(rel.notNulls) && AreNames(rel.primaryKey) && IsName(rel.name)
    ensures IsContent(rel.otherKeys) && AreKeys(rel.foreignKeys) && IsContent(rel.dependencies)
    ensures IsContent(rel.constraints)
    ensures InfoFor(rel) == InfoOf(true, rel.name, rel.cols).(notNulls := rel.notNulls, primaryKeys := rel.primaryKey,
                                                              foreignKeys := rel.foreignKeys)
  {
    hide AreColumns, AreNames, IsName, IsContent, AreKeys, InfoOf;
  }

  lemma EndIsMark(line: string)
    requires StartsRelation(line) || line == TEXT_MARK
    ensures IsMark(line)
  {
  }

  lemma FullTableComesBack(rel: Relation, lines: seq<string>, i: nat)
    requires rel.FullTable? && IsRelation(rel) && At(lines, i, RelationLines(rel))
    requires i + |RelationLines(rel)| < |lines|
    requires StartsRelation(lines[i + |RelationLines(rel)|]) || lines[i + |RelationLines(rel)|] == TEXT_MARK
    ensures ReadsAs(lines, i, i + |RelationLines(rel)|, InfoFor(rel))
  {
    hide *;
    FullTableMeans(rel);
    FullTableLines(rel, lines, i);
    EndIsMark(lines[i + |RelationLines(rel)|]);
    var keys := KeySection(rel.name, rel.otherKeys, rel.foreignKeys, rel.dependencies, rel.constraints);
    ColumnsPart(rel.cols, Part(ListLines(rel.notNulls)) + (Part(ListLines(rel.primaryKey)) + keys), lines, i + 2);
    var nn := i + 2 + |ColumnLines(rel.cols)| + 1;
    ListPart(rel.notNulls, Part(ListLines(rel.primaryKey)) + keys, lines, nn);
    var pk := nn + |ListLines(rel.notNulls)| + 1;
    ListPart(rel.primaryKey, keys, lines, pk);
    var ck := pk + |ListLines(rel.primaryKey)| + 1;
    KeySectionComesBack(rel.name, rel.otherKeys, rel.foreignKeys, rel.dependencies, rel.constraints, lines, ck);
    FirstSection(rel.notNulls, lines[nn]);
    var info := InfoOf(true, rel.name, rel.cols);
    SectionsAre(lines, nn, info, rel.notNulls, pk, rel.primaryKey, ck);
    TableIs(lines, i, rel.cols, nn - 1, InfoFor(rel), KeysAt(lines, ck).value.1);
    ReadsAsIs(lines, i, i + |RelationLines(rel)|, InfoFor(rel), KeysAt(lines, ck).value.1);
  }

  lemma FirstSection(names: seq<string>, line: string)
    requires if names == [] then line == PART_MARK else line == ListOf(names)
    ensures line != TABLE_MARK && line != VIEW_MARK && line != TEXT_MARK
  {
    ListIsNoMark(names);
    hide ListOf;
  }

  lemma ReadsAsIs(lines: seq<string>, i: nat, end: nat, info: RelationInfo, next: nat)
    requires i < |lines| && StartsRelation(lines[i]) && RelationAt(lines, i) == Some((info, next))
    requires Quiet(lines, next, end)
    ensures ReadsAs(lines, i, end, info)
  {
    hide RelationAt, Quiet;
  }

  lemma ViewIs(lines: seq<string>, i: nat, cols: seq<SchemaColumn>, j: nat, k: nat)
    requires i + 2 < |lines| && lines[i] == VIEW_MARK && lines[i + 1] != "view" && lines[i + 1] != TEXT_MARK
    requires Columns(lines, i + 3) == Some((cols, j)) && j < |lines| && SkipPart(lines, j + 1) == Some(k)
    ensures StartsRelation(lines[i])
    ensures RelationAt(lines, i) == Some((InfoOf(false, lines[i + 2], cols), SkipSection(lines, k + 1)))
  {
    MarksOfRelations();
    hide Columns, InfoOf, SkipPart, SkipSection;
  }

  lemma MarksOfRelations()
    ensures VIEW_MARK != TABLE_MARK
  {
  }

  lemma ViewLines(rel: Relation, lines: seq<string>, i: nat)
    requires rel.View? && At(lines, i, RelationLines(rel))
    ensures i + 2 < |lines| && lines[i] == VIEW_MARK && lines[i + 1] == rel.kind && lines[i + 2] == rel.name
    ensures At(lines, i + 3, Part(ColumnLines(rel.cols)) + (Part(rel.sql) + rel.datalog))
    ensures |RelationLines(rel)| == 3 + (|ColumnLines(rel.cols)| + 1) + (|rel.sql| + 1) + |rel.datalog|
  {
    hide ColumnLines;
    var first := [VIEW_MARK, rel.kind, rel.name];
    AtBoth(lines, i, first, Part(ColumnLines(rel.cols)) + (Part(rel.sql) + rel.datalog));
    AtLine(lines, i, first, 0);
    AtLine(lines, i, first, 1);
    AtLine(lines, i, first, 2);
  }

  lemma ViewMeans(rel: Relation)
    requires rel.View? && IsRelation(rel)
    ensures AreColumns(rel.cols) && rel.kind != TEXT_MARK && IsContent(rel.sql) && IsContent(rel.datalog)
    ensures InfoFor(rel) == if Nameless(rel) then InfoOf(false, "", []) else InfoOf(false, rel.name, rel.cols)
    ensures !StartsRelation(rel.kind) && !StartsRelation(rel.name)
  {
    hide AreColumns, IsContent, InfoOf;
  }

  lemma ViewComesBack(rel: Relation, lines: seq<string>, i: nat)
    requires rel.View? && !Nameless(rel) && IsRelation(rel) && At(lines, i, RelationLines(rel))
    requires i + |RelationLines(rel)| < |lines|
    requires StartsRelation(lines[i + |RelationLines(rel)|]) || lines[i + |RelationLines(rel)|] == TEXT_MARK
    ensures ReadsAs(lines, i, i + |RelationLines(rel)|, InfoFor(rel))
  {
    hide *;
    var end := i + |RelationLines(rel)|;
    HasAnotherKind(rel);
    ViewMeans(rel);
    ViewLines(rel, lines, i);
    EndIsMark(lines[end]);
    ColumnsPart(rel.cols, Part(rel.sql) + rel.datalog, lines, i + 3);
    var sql := i + 3 + |ColumnLines(rel.cols)| + 1;
    AtPart(lines, sql, rel.sql, rel.datalog);
    PartIsPassed(rel.sql, lines, sql);
    var datalog := sql + |rel.sql| + 1;
    SectionIsPassed(rel.datalog, lines, datalog);
    ViewIs(lines, i, rel.cols, sql - 1, datalog - 1);
    QuietNowhere(lines, end);
    ReadsAsIs(lines, i, end, InfoFor(rel), end);
  }

  lemma HasAnotherKind(rel: Relation)
    requires rel.View? && !Nameless(rel)
    ensures rel.kind != "view"
  {
  }

  lemma TypeIsNoStart(t: TypeAndLength)
    requires HasName(t)
    ensures !StartsRelation(NameOf(t))
  {
    var name := NameOf(t);
    assert name[0] != '$' by {
      hide Decimal;
    }
  }

  lemma {:induction false} ColumnsAreQuiet(cols: seq<SchemaColumn>, lines: seq<string>, i: nat)
    requires AreColumns(cols) && At(lines, i, ColumnLines(cols))
    ensures Quiet(lines, i, i + |ColumnLines(cols)|)
  {
    hide *;
    var end := i + |ColumnLines(cols)|;
    if cols == [] {
      NoColumns();
      NothingIsQuiet(lines, i);
    } else {
      ColumnParts(cols, lines, i);
      TwoLinesAreQuiet(cols[0], lines, i);
      ColumnsAreQuiet(cols[1..], lines, i + 2);
      QuietBoth(lines, i, i + 2, end);
    }
  }

  lemma NothingIsQuiet(lines: seq<string>, i: nat)
    requires At(lines, i, ColumnLines([]))
    ensures Quiet(lines, i, i)
  {
  }

  lemma TwoLinesAreQuiet(col: SchemaColumn, lines: seq<string>, i: nat)
    requires IsColumn(col) && i + 1 < |lines| && lines[i] == col.name && lines[i + 1] == NameOf(col.typ)
    ensures Quiet(lines, i, i + 2)
  {
    TypeIsNoStart(col.typ);
    hide NameOf, HasName;
  }

  lemma QuietBoth(lines: seq<string>, i: nat, j: nat, k: nat)
    requires i <= j <= k && Quiet(lines, i, j) && Quiet(lines, j, k)
    ensures Quiet(lines, i, k)
  {
  }

  lemma QuietLine(lines: seq<string>, i: nat)
    requires i < |lines| && !StartsRelation(lines[i])
    ensures Quiet(lines, i, i + 1)
  {
  }

  lemma PartMarkIsQuiet()
    ensures !StartsRelation(PART_MARK)
  {
  }

  /** Nothing behind the mark of a view looks like the start of a relation. */
  lemma ViewIsQuiet(rel: Relation, lines: seq<string>, i: nat)
    requires rel.View? && IsRelation(rel) && At(lines, i, RelationLines(rel))
    ensures Quiet(lines, i + 1, i + |RelationLines(rel)|)
  {
    hide *;
    ViewMeans(rel);
    ViewLines(rel, lines, i);
    PartMarkIsQuiet();
    var cols := i + 3;
    AtPart(lines, cols, ColumnLines(rel.cols), Part(rel.sql) + rel.datalog);
    var sql := cols + |ColumnLines(rel.cols)| + 1;
    AtPart(lines, sql, rel.sql, rel.datalog);
    var datalog := sql + |rel.sql| + 1;
    QuietPart(rel.datalog, lines, datalog);
    QuietLine(lines, datalog - 1);
    QuietPart(rel.sql, lines, sql);
    QuietLine(lines, sql - 1);
    ColumnsAreQuiet(rel.cols, lines, cols);
    QuietLine(lines, i + 2);
    QuietLine(lines, i + 1);
    var end := i + |RelationLines(rel)|;
    QuietBoth(lines, datalog - 1, datalog, end);
    QuietBoth(lines, sql, datalog - 1, end);
    QuietBoth(lines, sql - 1, sql, end);
    QuietBoth(lines, cols, sql - 1, end);
    QuietBoth(lines, i + 2, cols, end);
    QuietBoth(lines, i + 1, i + 2, end);
  }

  /** A view is read only if the line for its kind is not view: otherwise what is read has no name and no columns. */
  lemma ViewOfKindView(rel: Relation, lines: seq<string>, i: nat)
    requires Nameless(rel) && At(lines, i, RelationLines(rel))
    ensures i < |lines| && StartsRelation(lines[i])
    ensures RelationAt(lines, i) == Some((InfoOf(false, "", []), i + 1))
  {
    ViewLines(rel, lines, i);
    MarksOfRelations();
    hide RelationLines, ColumnLines, InfoOf;
  }

  lemma NamelessComesBack(rel: Relation, lines: seq<string>, i: nat)
    requires Nameless(rel) && IsRelation(rel) && At(lines, i, RelationLines(rel))
    ensures ReadsAs(lines, i, i + |RelationLines(rel)|, InfoFor(rel))
  {
    ViewOfKindView(rel, lines, i);
    ViewIsQuiet(rel, lines, i);
    ViewMeans(rel);
    hide RelationLines, RelationAt, InfoOf, IsRelation, InfoFor, Quiet;
  }

  lemma RelationComesBack(rel: Relation, lines: seq<string>, i: nat)
    requires IsRelation(rel) && At(lines, i, RelationLines(rel)) && i + |RelationLines(rel)| < |lines|
    requires StartsRelation(lines[i + |RelationLines(rel)|]) || lines[i + |RelationLines(rel)|] == TEXT_MARK
    ensures ReadsAs(lines, i, i + |RelationLines(rel)|, InfoFor(rel))
  {
    hide *;
    match rel
    case FullTable(_, _, _, _, _, _, _, _) => FullTableComesBack(rel, lines, i);
    case PlainTable(_, _) => PlainTableComesBack(rel, lines, i);
    case View(_, _, _, _, _) =>
      if Nameless(rel) {
        NamelessComesBack(rel, lines, i);
      } else {
        ViewComesBack(rel, lines, i);
      }
  }

  // ---------------------------------------------------------------------------------- all relations

  predicate AreRelations(rels: seq<Relation>) {
    forall rel <- rels :: IsRelation(rel)
  }

  /** What is found of the relations, in front of what has been found before. */
  function Gathered(rels: seq<Relation>, found: map<string, RelationInfo>): map<string, RelationInfo> {
    if rels == [] then found else Gathered(rels[1..], InsertNew(found, InfoFor(rels[0]).name, InfoFor(rels[0])))
  }

  lemma SchemaParts(rels: seq<Relation>, lines: seq<string>, i: nat)
    requires rels != [] && AreRelations(rels) && At(lines, i, SchemaLines(rels))
    ensures At(lines, i, RelationLines(rels[0])) && At(lines, i + |RelationLines(rels[0])|, SchemaLines(rels[1..]))
    ensures IsRelation(rels[0]) && AreRelations(rels[1..])
    ensures |SchemaLines(rels)| == |RelationLines(rels[0])| + |SchemaLines(rels[1..])|
  {
    hide *;
    FirstRelation(rels);
    FirstLines(rels);
    AtBoth(lines, i, RelationLines(rels[0]), SchemaLines(rels[1..]));
  }

  lemma FirstRelation(rels: seq<Relation>)
    requires rels != [] && AreRelations(rels)
    ensures IsRelation(rels[0]) && AreRelations(rels[1..])
  {
    assert rels[0] in rels;
    hide IsRelation;
  }

  lemma FirstLines(rels: seq<Relation>)
    requires rels != []
    ensures SchemaLines(rels) == RelationLines(rels[0]) + SchemaLines(rels[1..])
  {
    hide RelationLines;
  }

  /** Every description starts with a relation or with its end. */
  lemma SchemaStart(rels: seq<Relation>, lines: seq<string>, i: nat)
    requires At(lines, i, SchemaLines(rels))
    ensures i < |lines| && |SchemaLines(rels)| > 0
    ensures StartsRelation(lines[i]) || lines[i] == TEXT_MARK
    ensures rels == [] ==> lines[i] == TEXT_MARK && |SchemaLines(rels)| == 1 && !StartsRelation(lines[i])
  {
    hide ColumnLines, KeySection, ListLines;
    assert rels != [] ==> SchemaLines(rels)[0] == RelationLines(rels[0])[0];
    AtLine(lines, i, SchemaLines(rels), 0);
  }

  lemma AllAtEnd(lines: seq<string>, i: nat, found: map<string, RelationInfo>)
    requires i + 1 == |lines| && !StartsRelation(lines[i])
    ensures AllRelations(lines, i, found) == Some(found)
  {
    hide RelationAt;
    assert FindRelation(lines, i) == |lines|;
  }

  lemma AllFromRelation(lines: seq<string>, i: nat, end: nat, info: RelationInfo, found: map<string, RelationInfo>)
    requires ReadsAs(lines, i, end, info) && end <= |lines|
    ensures i <= |lines|
    ensures AllRelations(lines, i, found) == AllRelations(lines, end, InsertNew(found, info.name, info))
  {
    hide RelationAt;
    var next := RelationAt(lines, i).value.1;
    assert FindRelation(lines, i) == i;
    assert AllRelations(lines, i, found) == AllRelations(lines, next, InsertNew(found, info.name, info));
    FindPasses(lines, next, end);
  }

  lemma {:induction false} AllComeBack(rels: seq<Relation>, lines: seq<string>, i: nat, found: map<string, RelationInfo>)
    requires AreRelations(rels) && At(lines, i, SchemaLines(rels)) && i + |SchemaLines(rels)| == |lines|
    ensures i <= |lines| && AllRelations(lines, i, found) == Some(Gathered(rels, found))
    decreases |rels|
  {
    hide *;
    SchemaStart(rels, lines, i);
    if rels == [] {
      AllAtEnd(lines, i, found);
      GatheredNone(found);
    } else {
      var end := i + |RelationLines(rels[0])|;
      SchemaParts(rels, lines, i);
      SchemaStart(rels[1..], lines, end);
      RelationComesBack(rels[0], lines, i);
      var info := InfoFor(rels[0]);
      AllFromRelation(lines, i, end, info, found);
      AllComeBack(rels[1..], lines, end, InsertNew(found, info.name, info));
      GatheredOne(rels, found);
    }
  }

  lemma GatheredNone(found: map<string, RelationInfo>)
    ensures Gathered([], found) == found
  {
  }

  lemma GatheredOne(rels: seq<Relation>, found: map<string, RelationInfo>)
    requires rels != []
    ensures Gathered(rels, found) == Gathered(rels[1..], InsertNew(found, InfoFor(rels[0]).name, InfoFor(rels[0])))
  {
    hide InfoFor;
  }

  predicate DistinctNames(rels: seq<Relation>) {
    forall i, j :: 0 <= i < j < |rels| ==> rels[i].name != rels[j].name
  }

  lemma {:induction false} GatheredKeeps(rels: seq<Relation>, found: map<string, RelationInfo>, name: string)
    requires name in found
    ensures name in Gathered(rels, found) && Gathered(rels, found)[name] == found[name]
    decreases |rels|
  {
    if rels != [] {
      GatheredKeeps(rels[1..], InsertNew(found, InfoFor(rels[0]).name, InfoFor(rels[0])), name);
    }
  }

  /** With distinct names every relation is found by its name. */
  lemma {:induction false} GatheredHas(rels: seq<Relation>, found: map<string, RelationInfo>, k: nat)
    requires k < |rels| && DistinctNames(rels) && (forall rel <- rels :: rel.name != "" && rel.name !in found)
    requires !Nameless(rels[k])
    ensures rels[k].name in Gathered(rels, found) && Gathered(rels, found)[rels[k].name] == InfoFor(rels[k])
    decreases |rels|
  {
    assert rels[0] in rels;
    var info := InfoFor(rels[0]);
    var more := InsertNew(found, info.name, info);
    if k == 0 {
      GatheredKeeps(rels[1..], more, info.name);
    } else {
      forall rel | rel in rels[1..] ensures rel.name !in more {
        var i :| 0 <= i < |rels| - 1 && rels[1..][i] == rel;
        assert rels[i + 1] == rel && rels[i + 1] in rels;
      }
      GatheredHas(rels[1..], more, k - 1);
    }
  }

  /** With distinct column names a column is found with its position, from one on, and its type. */
  lemma {:induction false} ColumnsByName(cols: seq<SchemaColumn>, n: nat, k: nat)
    requires k < n <= |cols| && forall i, j :: 0 <= i < j < |cols| ==> cols[i].name != cols[j].name
    ensures cols[k].name in IndexMap(cols, n) && IndexMap(cols, n)[cols[k].name] == k + 1
    ensures cols[k].name in TypeMap(cols, n) && TypeMap(cols, n)[cols[k].name] == cols[k].typ
  {
    if k < n - 1 {
      ColumnsByName(cols, n - 1, k);
    } else {
      NoColumnYet(cols, n - 1, k);
    }
  }

  lemma {:induction false} NoColumnYet(cols: seq<SchemaColumn>, n: nat, k: nat)
    requires n <= k < |cols| && forall i, j :: 0 <= i < j < |cols| ==> cols[i].name != cols[j].name
    ensures cols[k].name !in IndexMap(cols, n) && cols[k].name !in TypeMap(cols, n)
  {
    if n > 0 {
      NoColumnYet(cols, n - 1, k);
    }
  }

  // ---------------------------------------------------------------------------------- the whole text

  predicate AreLines(lines: seq<string>) {
    forall line <- lines :: IsLine(line)
  }

  lemma {:induction false} ColumnsAreLines(cols: seq<SchemaColumn>)
    requires AreColumns(cols)
    ensures AreLines(ColumnLines(cols))
  {
    if cols != [] {
      assert cols[0] in cols;
      NameIsLine(cols[0].typ);
      ColumnsAreLines(cols[1..]);
      hide NameOf, IsLine;
    }
  }

  lemma {:induction false} KeysAreLines(table: string, fks: seq<ForeignKey>)
    requires IsName(table) && AreKeys(fks)
    ensures AreLines(KeyLines(table, fks))
  {
    if fks != [] {
      assert fks[0] in fks;
      KeyComesBack(table, fks[0]);
      KeysAreLines(table, fks[1..]);
      hide IsLine, KeyLine;
    }
  }

  lemma ListIsLines(names: seq<string>)
    requires AreNames(names)
    ensures AreLines(ListLines(names))
  {
    ElementsComeBack(names);
    hide IsLine, ListOf;
  }

  lemma MarksAreLines()
    ensures IsLine(PART_MARK) && IsLine(TABLE_MARK) && IsLine(VIEW_MARK) && IsLine(TEXT_MARK)
  {
  }

  lemma PartIsLines(part: seq<string>)
    requires AreLines(part)
    ensures AreLines(Part(part))
  {
    MarksAreLines();
    hide IsLine;
  }

  lemma ContentIsLines(part: seq<string>)
    requires IsContent(part)
    ensures AreLines(part)
  {
  }

  lemma KeySectionIsLines(table: string, otherKeys: seq<string>, fks: seq<ForeignKey>, dependencies: seq<string>,
                          constraints: seq<string>)
    requires IsName(table) && IsContent(otherKeys) && AreKeys(fks) && IsContent(dependencies) && IsContent(constraints)
    ensures AreLines(KeySection(table, otherKeys, fks, dependencies, constraints))
  {
    KeysAreLines(table, fks);
    ContentIsLines(otherKeys);
    ContentIsLines(dependencies);
    ContentIsLines(constraints);
    PartIsLines(otherKeys);
    PartIsLines(KeyLines(table, fks));
    PartIsLines(dependencies);
    hide IsLine, KeyLines, Part;
  }

  lemma NamesAreLines(rel: Relation)
    requires IsRelation(rel)
    ensures IsLine(rel.name) && (rel.View? ==> IsLine(rel.kind))
  {
  }

  lemma RelationIsLines(rel: Relation)
    requires IsRelation(rel)
    ensures AreLines(RelationLines(rel))
  {
    NamesAreLines(rel);
    MarksAreLines();
    ColumnsAreLines(rel.cols);
    PartIsLines(ColumnLines(rel.cols));
    match rel {
      case FullTable(name, cols, notNulls, primaryKey, otherKeys, foreignKeys, dependencies, constraints) =>
        FullTableMeans(rel);
        ListIsLines(notNulls);
        ListIsLines(primaryKey);
        PartIsLines(ListLines(notNulls));
        PartIsLines(ListLines(primaryKey));
        KeySectionIsLines(name, otherKeys, foreignKeys, dependencies, constraints);
      case PlainTable(_, _) =>
      case View(_, _, _, sql, datalog) =>
        ViewMeans(rel);
        ContentIsLines(sql);
        ContentIsLines(datalog);
        PartIsLines(sql);
    }
    hide IsLine, ColumnLines, ListLines, KeySection, Part;
  }

  lemma {:induction false} SchemaIsLines(rels: seq<Relation>)
    requires AreRelations(rels)
    ensures AreLines(SchemaLines(rels))
  {
    MarksAreLines();
    if rels != [] {
      assert rels[0] in rels;
      RelationIsLines(rels[0]);
      SchemaIsLines(rels[1..]);
    }
    hide IsLine, RelationLines;
  }

  lemma InfoName(rel: Relation)
    ensures InfoFor(rel).name == if Nameless(rel) then "" else rel.name
    ensures Nameless(rel) ==> InfoFor(rel) == InfoOf(false, "", [])
  {
  }

  /** Only names of relations are found, and the empty name for views of kind view. */
  lemma {:induction false} GatheredNames(rels: seq<Relation>, found: map<string, RelationInfo>, name: string)
    requires name in Gathered(rels, found)
    ensures name in found || exists k :: 0 <= k < |rels| && name == InfoFor(rels[k]).name
    decreases |rels|
  {
    if rels != [] {
      GatheredNames(rels[1..], InsertNew(found, InfoFor(rels[0]).name, InfoFor(rels[0])), name);
      assert forall k :: 0 <= k < |rels| - 1 ==> rels[1..][k] == rels[k + 1];
    }
  }

  lemma {:induction false} GatheredNameless(rels: seq<Relation>, found: map<string, RelationInfo>, k: nat)
    requires k < |rels| && Nameless(rels[k])
    requires forall rel <- rels :: rel.name != ""
    requires "" in found ==> found[""] == InfoOf(false, "", [])
    ensures "" in Gathered(rels, found) && Gathered(rels, found)[""] == InfoOf(false, "", [])
    decreases |rels|
  {
    assert rels[0] in rels;
    var info := InfoFor(rels[0]);
    InfoName(rels[0]);
    hide InfoFor, InfoOf;
    var more := InsertNew(found, info.name, info);
    if Nameless(rels[0]) {
      GatheredKeeps(rels[1..], more, "");
    } else {
      GatheredNameless(rels[1..], more, k - 1);
    }
  }

  /** What is found holds exactly the relations by their names, and one nameless entry for all views of kind view. */
  ghost predicate Holds(rels: seq<Relation>, found: map<string, RelationInfo>) {
    && (forall k :: 0 <= k < |rels| && !Nameless(rels[k]) ==>
          rels[k].name in found && found[rels[k].name] == InfoFor(rels[k]))
    && (forall name <- found :: name != "" ==> exists k :: 0 <= k < |rels| && !Nameless(rels[k]) && rels[k].name == name)
    && ("" in found <==> exists k :: 0 <= k < |rels| && Nameless(rels[k]))
    && ("" in found ==> found[""] == InfoOf(false, "", []))
  }

  lemma NamesAreNames(rels: seq<Relation>)
    requires AreRelations(rels)
    ensures forall rel <- rels :: rel.name != ""
  {
    hide AreColumns, IsContent;
  }

  lemma GatheredHolds(rels: seq<Relation>)
    requires DistinctNames(rels) && forall rel <- rels :: rel.name != ""
    ensures Holds(rels, Gathered(rels, map[]))
  {
    var found := Gathered(rels, map[]);
    forall k | 0 <= k < |rels| && !Nameless(rels[k])
      ensures rels[k].name in found && found[rels[k].name] == InfoFor(rels[k])
    {
      GatheredHas(rels, map[], k);
    }
    forall k | 0 <= k < |rels| && Nameless(rels[k]) ensures "" in found && found[""] == InfoOf(false, "", []) {
      GatheredNameless(rels, map[], k);
    }
    forall name | name in found ensures Named(rels, name) {
      FoundIsNamed(rels, name);
    }
    hide Gathered, InfoFor, DistinctNames, InfoOf, Nameless;
    NamedTwice(rels, found);
  }

  /** A name is that of a relation, unless it is empty. */
  lemma NamedTwice(rels: seq<Relation>, found: map<string, RelationInfo>)
    requires forall rel <- rels :: rel.name != ""
    requires forall name <- found :: Named(rels, name)
    ensures forall name <- found :: name != "" ==> exists k :: 0 <= k < |rels| && !Nameless(rels[k]) && rels[k].name == name
    ensures "" in found ==> exists k :: 0 <= k < |rels| && Nameless(rels[k])
  {
    hide Nameless;
    forall k | 0 <= k < |rels| ensures rels[k].name != "" {
      assert rels[k] in rels;
    }
  }

  /** The name of a relation, or the empty one of a view of kind view. */
  predicate Named(rels: seq<Relation>, name: string) {
    exists k :: 0 <= k < |rels| && name == if Nameless(rels[k]) then "" else rels[k].name
  }

  lemma FoundIsNamed(rels: seq<Relation>, name: string)
    requires name in Gathered(rels, map[])
    ensures Named(rels, name)
  {
    GatheredNames(rels, map[], name);
    var k :| 0 <= k < |rels| && name == InfoFor(rels[k]).name;
    InfoName(rels[k]);
    hide Gathered, InfoFor, InfoOf, Nameless;
  }

  /** Reading the description of distinctly named relations gives exactly these, each with all its parts, and one
      nameless entry for all views of kind view. */
  lemma SchemaComesBack(rels: seq<Relation>)
    requires AreRelations(rels) && DistinctNames(rels)
    ensures LinesOf(TextOf(SchemaLines(rels))) == Some(SchemaLines(rels))
    ensures AllRelations(SchemaLines(rels), 0, map[]) == Some(Gathered(rels, map[]))
    ensures Holds(rels, Gathered(rels, map[]))
  {
    hide *;
    var lines := SchemaLines(rels);
    AtItself(lines);
    SchemaStart(rels, lines, 0);
    SchemaIsLines(rels);
    FirstLine(lines);
    AllComeBack(rels, lines, 0, map[]);
    NamesAreNames(rels);
    GatheredHolds(rels);
  }

  lemma AtItself(lines: seq<string>)
    ensures At(lines, 0, lines)
  {
    assert lines[0..0 + |lines|] == lines;
  }

  lemma FirstLine(lines: seq<string>)
    requires lines != [] && AreLines(lines) && (StartsRelation(lines[0]) || lines[0] == TEXT_MARK)
    ensures LinesOf(TextOf(lines)) == Some(lines)
  {
    assert lines[0][0] == '$';
    hide LinesOf, TextOf, IsLine;
    LinesComeBack(lines);
  }
}
