/** The description of a database: the tables and views with their columns, keys and foreign keys. The parsers walk
    through the lines with one index. Reading behind the last line has no defined result, and an unknown type throws;
    both count as no result here. */
module Schema {
  import opened Options
  import opened Numbers
  import opened TapiText
  import opened TypeNames

  const TABLE_MARK := "$table"
  const VIEW_MARK := "$view"
  const PART_MARK := "$"
  const TEXT_MARK := "$eot"

  predicate StartsRelation(line: string) {
    line == TABLE_MARK || line == VIEW_MARK
  }

  predicate IsMark(line: string) {
    line == PART_MARK || line == TABLE_MARK || line == VIEW_MARK || line == TEXT_MARK
  }

  datatype ForeignKey = ForeignKey(key: string, foreignTable: string, foreignKey: string)

  datatype RelationInfo = RelationInfo(
    isTable: bool, name: string, columnIndex: map<string, nat>, columnType: map<string, TypeAndLength>,
    notNulls: seq<string>, primaryKeys: seq<string>, foreignKeys: seq<ForeignKey>)

  datatype SchemaColumn = SchemaColumn(name: string, typ: TypeAndLength)

  // ---------------------------------------------------------------------------------- foreign keys

  /** A line of the form: table, point, key, arrow, table, point, key; brackets may stand anywhere. */
  function ForeignKeyOf(line: string): Option<ForeignKey> {
    var s := Without(line, BRACKETS);
    var dot := IndexOf(s, '.');
    if dot == |s| then None
    else
      var blank := IndexFrom(s, ' ', dot + 1);
      if blank == |s| || blank + 4 > |s| then None
      else
        var point := IndexFrom(s, '.', blank + 4);
        if point == |s| then None
        else Some(ForeignKey(s[dot + 1..blank], s[blank + 4..point], s[point + 1..]))
  }

  /** The foreign keys from line i on, and the mark behind them. */
  function ForeignKeys(lines: seq<string>, i: nat): Option<(seq<ForeignKey>, nat)>
    decreases |lines| - i
  {
    if i >= |lines| then None
    else if lines[i] == PART_MARK then Some(([], i))
    else
      match ForeignKeyOf(lines[i])
      case None => None
      case Some(fk) =>
        match ForeignKeys(lines, i + 1)
        case None => None
        case Some((fks, next)) => Some(([fk] + fks, next))
  }

  function Behind<T>(done: seq<T>, rest: Option<(seq<T>, nat)>): Option<(seq<T>, nat)> {
    match rest
    case None => None
    case Some((more, next)) => Some((done + more, next))
  }

  lemma BehindNothing<T>(rest: Option<(seq<T>, nat)>)
    ensures Behind([], rest) == rest
  {
    assert rest.Some? ==> [] + rest.value.0 == rest.value.0;
  }

  lemma BehindOne<T>(done: seq<T>, x: T, rest: Option<(seq<T>, nat)>)
    ensures Behind(done, Behind([x], rest)) == Behind(done + [x], rest)
  {
    assert rest.Some? ==> done + ([x] + rest.value.0) == done + [x] + rest.value.0;
  }

  lemma ForeignKeysStep(lines: seq<string>, i: nat, done: seq<ForeignKey>)
    ensures i < |lines| && lines[i] == PART_MARK ==> Behind(done, ForeignKeys(lines, i)) == Some((done, i))
    ensures i >= |lines| || (lines[i] != PART_MARK && ForeignKeyOf(lines[i]) == None) ==>
              Behind(done, ForeignKeys(lines, i)) == None
    ensures i < |lines| && lines[i] != PART_MARK && ForeignKeyOf(lines[i]).Some? ==>
              Behind(done, ForeignKeys(lines, i))
              == Behind(done + [ForeignKeyOf(lines[i]).value], ForeignKeys(lines, i + 1))
  {
    hide ForeignKeyOf;
    assert done + [] == done;
    if i < |lines| && lines[i] != PART_MARK && ForeignKeyOf(lines[i]).Some? {
      BehindOne(done, ForeignKeyOf(lines[i]).value, ForeignKeys(lines, i + 1));
    }
  }

  method GetForeignKeysFromTapi(lines: seq<string>, index: nat) returns (result: Option<(seq<ForeignKey>, nat)>)
    ensures result == ForeignKeys(lines, index)
  {
    var i, keys := index, [];
    BehindNothing(ForeignKeys(lines, index));
    hide ForeignKeys, Behind;
    while i < |lines| && lines[i] != PART_MARK
      invariant ForeignKeys(lines, index) == Behind(keys, ForeignKeys(lines, i))
      decreases |lines| - i
    {
      ForeignKeysStep(lines, i, keys);
      var fk := ParseForeignKey(lines[i]);
      if fk.None? {
        return None;
      }
      keys, i := keys + [fk.value], i + 1;
    }
    ForeignKeysStep(lines, i, keys);
    result := if i < |lines| then Some((keys, i)) else None;
  }

  /** The loops over the characters of one line. */
  method ParseForeignKey(line: string) returns (fk: Option<ForeignKey>)
    ensures fk == ForeignKeyOf(line)
  {
    hide Without, IndexFrom;
    var str := Without(line, BRACKETS);
    var dot := Collect(str, '.', 0);
    if dot == |str| {
      return None;
    }
    var blank := Collect(str, ' ', dot + 1);
    if blank == |str| || blank + 4 > |str| {
      return None;
    }
    var point := Collect(str, '.', blank + 4);
    if point == |str| {
      return None;
    }
    fk := Some(ForeignKey(str[dot + 1..blank], str[blank + 4..point], str[point + 1..]));
  }

  /** Go on to a character. */
  method Collect(str: string, c: char, start: nat) returns (i: nat)
    requires start <= |str|
    ensures i == IndexFrom(str, c, start)
  {
    i := start;
    while i < |str| && str[i] != c
      invariant start <= i <= |str| && forall k :: start <= k < i ==> str[k] != c
    {
      i := i + 1;
    }
    var j := IndexFrom(str, c, start);
    assert !(j < i) && !(i < j);
  }

  // ---------------------------------------------------------------------------------- columns and sections

  /** The columns from line i on, and where they end: at a mark or behind the last line. */
  function Columns(lines: seq<string>, i: nat): Option<(seq<SchemaColumn>, nat)>
    decreases |lines| - i
  {
    if i >= |lines| || lines[i] == PART_MARK then Some(([], i))
    else if i + 1 >= |lines| then None
    else
      match GetTypeFromStr(lines[i + 1])
      case None => None
      case Some(t) =>
        match Columns(lines, i + 2)
        case None => None
        case Some((cols, next)) => Some(([SchemaColumn(lines[i], t)] + cols, next))
  }

  lemma ColumnsStep(lines: seq<string>, i: nat, done: seq<SchemaColumn>)
    ensures i >= |lines| || lines[i] == PART_MARK ==> Behind(done, Columns(lines, i)) == Some((done, i))
    ensures i < |lines| && lines[i] != PART_MARK && (i + 1 >= |lines| || GetTypeFromStr(lines[i + 1]) == None) ==>
              Behind(done, Columns(lines, i)) == None
    ensures i + 1 < |lines| && lines[i] != PART_MARK && GetTypeFromStr(lines[i + 1]).Some? ==>
              Behind(done, Columns(lines, i))
              == Behind(done + [SchemaColumn(lines[i], GetTypeFromStr(lines[i + 1]).value)], Columns(lines, i + 2))
  {
    hide GetTypeFromStr;
    assert done + [] == done;
    if i + 1 < |lines| && lines[i] != PART_MARK && GetTypeFromStr(lines[i + 1]).Some? {
      BehindOne(done, SchemaColumn(lines[i], GetTypeFromStr(lines[i + 1]).value), Columns(lines, i + 2));
    }
  }

  /** The position of each of the first n columns, from one on; the first of a name counts. */
  function IndexMap(cols: seq<SchemaColumn>, n: nat): map<string, nat>
    requires n <= |cols|
  {
    if n == 0 then map[]
    else
      var m := IndexMap(cols, n - 1);
      if cols[n - 1].name in m then m else m[cols[n - 1].name := n]
  }

  function TypeMap(cols: seq<SchemaColumn>, n: nat): map<string, TypeAndLength>
    requires n <= |cols|
  {
    if n == 0 then map[]
    else
      var m := TypeMap(cols, n - 1);
      if cols[n - 1].name in m then m else m[cols[n - 1].name := cols[n - 1].typ]
  }

  /** The next line that is a part mark. */
  function SkipPart(lines: seq<string>, i: nat): (r: Option<nat>)
    ensures r.Some? ==> i <= r.value < |lines|
    decreases |lines| - i
  {
    if i >= |lines| then None else if lines[i] == PART_MARK then Some(i) else SkipPart(lines, i + 1)
  }

  /** The next line that is any mark, or the end. */
  function SkipSection(lines: seq<string>, i: nat): (j: nat)
    requires i <= |lines|
    ensures i <= j <= |lines| && (j < |lines| ==> IsMark(lines[j])) && forall k :: i <= k < j ==> !IsMark(lines[k])
    decreases |lines| - i
  {
    if i == |lines| || IsMark(lines[i]) then i else SkipSection(lines, i + 1)
  }

  /** The next line that starts a relation, or the end. */
  function FindRelation(lines: seq<string>, i: nat): (j: nat)
    requires i <= |lines|
    ensures i <= j <= |lines| && (j < |lines| ==> StartsRelation(lines[j]))
    ensures forall k :: i <= k < j ==> !StartsRelation(lines[k])
    decreases |lines| - i
  {
    if i == |lines| || StartsRelation(lines[i]) then i else FindRelation(lines, i + 1)
  }

  /** A list in brackets, if there is one, and the line behind the mark that follows. */
  function ListAt(lines: seq<string>, i: nat): Option<(seq<string>, nat)> {
    if i >= |lines| then None
    else if lines[i] != PART_MARK then Some((Elements(lines[i]), i + 2))
    else Some(([], i + 1))
  }

  /** What follows the lists: other keys are passed over, foreign keys are read, dependencies and constraints are passed
      over. The index stands at the mark behind the foreign keys when there are any, and behind it when there are none.
      */
  function KeysAt(lines: seq<string>, i: nat): (r: Option<(seq<ForeignKey>, nat)>)
    ensures r.Some? ==> i < r.value.1 <= |lines|
  {
    match SkipPart(lines, i)
    case None => None
    case Some(j) =>
      if j + 1 >= |lines| then None
      else
        var keys: Option<(seq<ForeignKey>, nat)> := if lines[j + 1] == PART_MARK then Some(([], j + 2)) else ForeignKeys(lines, j + 1);
        match keys
        case None => None
        case Some((fks, next)) =>
          match SkipPart(lines, next)
          case None => None
          case Some(k) => KeysInside(lines, j + 1); Some((fks, SkipSection(lines, k + 1)))
  }

  lemma {:induction false} KeysInside(lines: seq<string>, i: nat)
    ensures ForeignKeys(lines, i).Some? ==> i <= ForeignKeys(lines, i).value.1 < |lines|
    decreases |lines| - i
  {
    if i < |lines| {
      KeysInside(lines, i + 1);
    }
  }

  lemma {:induction false} ColumnsInside(lines: seq<string>, i: nat)
    ensures Columns(lines, i).Some? ==> i <= Columns(lines, i).value.1
    ensures Columns(lines, i).Some? && i <= |lines| ==> Columns(lines, i).value.1 <= |lines|
    decreases |lines| - i
  {
    if i < |lines| {
      ColumnsInside(lines, i + 2);
    }
  }

  // ---------------------------------------------------------------------------------- relations

  /** What follows the columns of a table whose section starts at line i. External databases leave it out. */
  function TableSections(lines: seq<string>, i: nat, info: RelationInfo): (r: Option<(RelationInfo, nat)>)
    ensures r.Some? ==> i <= r.value.1 <= |lines|
  {
    if i >= |lines| then None
    else if lines[i] == TABLE_MARK || lines[i] == VIEW_MARK || lines[i] == TEXT_MARK then Some((info, i))
    else
      match ListAt(lines, i)
      case None => None
      case Some((notNulls, j)) =>
        match ListAt(lines, j)
        case None => None
        case Some((primaryKeys, k)) =>
          match KeysAt(lines, k)
          case None => None
          case Some((fks, next)) =>
            Some((info.(notNulls := notNulls, primaryKeys := primaryKeys, foreignKeys := fks), next))
  }

  function InfoOf(isTable: bool, name: string, cols: seq<SchemaColumn>): RelationInfo {
    RelationInfo(isTable, name, IndexMap(cols, |cols|), TypeMap(cols, |cols|), [], [], [])
  }

  function TableAt(lines: seq<string>, i: nat): (r: Option<(RelationInfo, nat)>)
    ensures r.Some? ==> i < r.value.1 <= |lines|
  {
    if i + 1 >= |lines| then None
    else
      ColumnsInside(lines, i + 2);
      match Columns(lines, i + 2)
      case None => None
      case Some((cols, j)) =>
        var info := InfoOf(true, lines[i + 1], cols);
        if j >= |lines| then Some((info, j)) else TableSections(lines, j + 1, info)
  }

  /** A view has a line for its kind in front of the name. Where that line is view, or the end, nothing is read. */
  function ViewAt(lines: seq<string>, i: nat): (r: Option<(RelationInfo, nat)>)
    ensures r.Some? ==> i < r.value.1 <= |lines|
  {
    if i + 1 >= |lines| then None
    else if lines[i + 1] == "view" || lines[i + 1] == TEXT_MARK then Some((InfoOf(false, "", []), i + 1))
    else if i + 2 >= |lines| then None
    else
      ColumnsInside(lines, i + 3);
      match Columns(lines, i + 3)
      case None => None
      case Some((cols, j)) =>
        var info := InfoOf(false, lines[i + 2], cols);
        if j >= |lines| then Some((info, j))
        else
          match SkipPart(lines, j + 1)
          case None => None
          case Some(k) => Some((info, SkipSection(lines, k + 1)))
  }

  function RelationAt(lines: seq<string>, i: nat): (r: Option<(RelationInfo, nat)>)
    requires i < |lines| && StartsRelation(lines[i])
    ensures r.Some? ==> i < r.value.1 <= |lines|
  {
    if lines[i] == TABLE_MARK then TableAt(lines, i) else ViewAt(lines, i)
  }

  /** All relations from line i on, by name; the first of a name counts. */
  function AllRelations(lines: seq<string>, i: nat, found: map<string, RelationInfo>): Option<map<string, RelationInfo>>
    requires i <= |lines|
    decreases |lines| - i
  {
    var j := FindRelation(lines, i);
    if j == |lines| then Some(found)
    else
      match RelationAt(lines, j)
      case None => None
      case Some((info, next)) =>
        AllRelations(lines, next, if info.name in found then found else found[info.name := info])
  }

  /** All relations of a description. */
  function Relations(text: string): Option<map<string, RelationInfo>> {
    match LinesOf(text)
    case None => None
    case Some(lines) => AllRelations(lines, 0, map[])
  }

  // ---------------------------------------------------------------------------------- the loops

  lemma {:induction false} MapsPrefix(cols: seq<SchemaColumn>, col: SchemaColumn, n: nat)
    requires n <= |cols|
    ensures IndexMap(cols + [col], n) == IndexMap(cols, n) && TypeMap(cols + [col], n) == TypeMap(cols, n)
  {
    if n > 0 {
      MapsPrefix(cols, col, n - 1);
    }
  }

  function InsertNew<V>(m: map<string, V>, key: string, value: V): map<string, V> {
    if key in m then m else m[key := value]
  }

  lemma MapsMore(cols: seq<SchemaColumn>, col: SchemaColumn)
    ensures IndexMap(cols + [col], |cols| + 1) == InsertNew<nat>(IndexMap(cols, |cols|), col.name, |cols| + 1)
    ensures TypeMap(cols + [col], |cols| + 1) == InsertNew(TypeMap(cols, |cols|), col.name, col.typ)
  {
    MapsPrefix(cols, col, |cols|);
  }

  lemma ColumnsStart(lines: seq<string>, i: nat)
    ensures Behind([], Columns(lines, i)) == Columns(lines, i)
    ensures IndexMap([], 0) == map[] && TypeMap([], 0) == map[]
  {
    hide Columns;
    BehindNothing(Columns(lines, i));
  }

  method ReadColumns(lines: seq<string>, index: nat)
    returns (next: Option<nat>, columnIndex: map<string, nat>, columnType: map<string, TypeAndLength>,
             ghost cols: seq<SchemaColumn>)
    ensures next.None? <==> Columns(lines, index) == None
    ensures next.Some? ==> Columns(lines, index) == Some((cols, next.value))
    ensures next.Some? ==> columnIndex == IndexMap(cols, |cols|) && columnType == TypeMap(cols, |cols|)
  {
    var i: nat, colIndex: nat := index, 1;
    columnIndex, columnType, cols := map[], map[], [];
    ColumnsStart(lines, index);
    hide *;
    while i < |lines| && lines[i] != PART_MARK
      invariant Columns(lines, index) == Behind(cols, Columns(lines, i)) && colIndex == |cols| + 1
      invariant columnIndex == IndexMap(cols, |cols|) && columnType == TypeMap(cols, |cols|)
      decreases |lines| - i
    {
      ColumnsStep(lines, i, cols);
      if i + 1 >= |lines| {
        return None, columnIndex, columnType, cols;
      }
      var t := GetTypeFromStr(lines[i + 1]);
      if t.None? {
        return None, columnIndex, columnType, cols;
      }
      MapsMore(cols, SchemaColumn(lines[i], t.value));
      columnIndex := InsertNew<nat>(columnIndex, lines[i], colIndex);
      columnType := InsertNew(columnType, lines[i], t.value);
      cols := cols + [SchemaColumn(lines[i], t.value)];
      colIndex, i := colIndex + 1, i + 2;
    }
    ColumnsStep(lines, i, cols);
    next := Some(i);
  }

  method SkipToPart(lines: seq<string>, index: nat) returns (r: Option<nat>)
    ensures r == SkipPart(lines, index)
  {
    var i := index;
    while i < |lines| && lines[i] != PART_MARK
      invariant SkipPart(lines, index) == SkipPart(lines, i)
      decreases |lines| - i
    {
      i := i + 1;
    }
    r := if i < |lines| then Some(i) else None;
  }

  method SkipToMark(lines: seq<string>, index: nat) returns (i: nat)
    requires index <= |lines|
    ensures i == SkipSection(lines, index)
  {
    i := index;
    while i < |lines| && lines[i] != PART_MARK && lines[i] != TABLE_MARK && lines[i] != VIEW_MARK && lines[i] != TEXT_MARK
      invariant i <= |lines| && SkipSection(lines, index) == SkipSection(lines, i)
    {
      i := i + 1;
    }
  }

  /** What follows the list of the primary key. */
  method ReadKeys(lines: seq<string>, index: nat) returns (result: Option<(seq<ForeignKey>, nat)>)
    ensures result == KeysAt(lines, index)
  {
    hide SkipPart, SkipSection, ForeignKeys;
    var i := SkipToPart(lines, index);
    if i.None? || i.value + 1 >= |lines| {
      return None;
    }
    var keys: seq<ForeignKey>, next := [], i.value + 1;
    KeysInside(lines, next);
    if lines[next] != PART_MARK {
      var read := GetForeignKeysFromTapi(lines, next);
      if read.None? {
        return None;
      }
      keys, next := read.value.0, read.value.1;
    } else {
      next := next + 1;
    }
    var j := SkipToPart(lines, next);
    if j.None? {
      return None;
    }
    var k := SkipToMark(lines, j.value + 1);
    result := Some((keys, k));
  }

  method ReadTableSections(lines: seq<string>, index: nat, info: RelationInfo) returns (result: Option<(RelationInfo, nat)>)
    ensures result == TableSections(lines, index, info)
  {
    hide KeysAt, Elements;
    if index >= |lines| {
      return None;
    }
    if lines[index] == TABLE_MARK || lines[index] == VIEW_MARK || lines[index] == TEXT_MARK {
      return Some((info, index));
    }
    var i, notNulls, primaryKeys := index, [], [];
    if lines[i] != PART_MARK {
      notNulls := ConvertArrayNotationToStringVector(lines[i]);
      i := i + 2;
    } else {
      i := i + 1;
    }
    if i >= |lines| {
      return None;
    }
    if lines[i] != PART_MARK {
      primaryKeys := ConvertArrayNotationToStringVector(lines[i]);
      i := i + 2;
    } else {
      i := i + 1;
    }
    var keys := ReadKeys(lines, i);
    if keys.None? {
      return None;
    }
    result := Some((info.(notNulls := notNulls, primaryKeys := primaryKeys, foreignKeys := keys.value.0), keys.value.1));
  }

  method GetTableInfo(lines: seq<string>, index: nat) returns (result: Option<(RelationInfo, nat)>)
    ensures result == TableAt(lines, index)
  {
    hide Columns, TableSections, IndexMap, TypeMap;
    if index + 1 >= |lines| {
      return None;
    }
    ColumnsInside(lines, index + 2);
    var next, columnIndex, columnType;
    ghost var cols;
    next, columnIndex, columnType, cols := ReadColumns(lines, index + 2);
    if next.None? {
      return None;
    }
    var info := RelationInfo(true, lines[index + 1], columnIndex, columnType, [], [], []);
    if next.value >= |lines| {
      return Some((info, next.value));
    }
    result := ReadTableSections(lines, next.value + 1, info);
  }

  method GetViewInfo(lines: seq<string>, index: nat) returns (result: Option<(RelationInfo, nat)>)
    ensures result == ViewAt(lines, index)
  {
    if index + 1 >= |lines| {
      return None;
    }
    if lines[index + 1] == "view" || lines[index + 1] == TEXT_MARK {
      return Some((RelationInfo(false, "", map[], map[], [], [], []), index + 1));
    }
    hide Columns, IndexMap, TypeMap, SkipPart, SkipSection;
    if index + 2 >= |lines| {
      return None;
    }
    ColumnsInside(lines, index + 3);
    var next, columnIndex, columnType;
    ghost var cols;
    next, columnIndex, columnType, cols := ReadColumns(lines, index + 3);
    if next.None? {
      return None;
    }
    var info := RelationInfo(false, lines[index + 2], columnIndex, columnType, [], [], []);
    if next.value >= |lines| {
      return Some((info, next.value));
    }
    var part := SkipToPart(lines, next.value + 1);
    if part.None? {
      return None;
    }
    var end := SkipToMark(lines, part.value + 1);
    result := Some((info, end));
  }

  /** The relation that starts at the index, and an index behind all that is of interest in it. */
  method GetRelationInfo(lines: seq<string>, index: nat) returns (result: Option<(RelationInfo, nat)>)
    requires index < |lines| && StartsRelation(lines[index])
    ensures result == RelationAt(lines, index)
  {
    hide TableAt, ViewAt;
    if lines[index] == TABLE_MARK {
      result := GetTableInfo(lines, index);
    } else {
      result := GetViewInfo(lines, index);
    }
  }

  /** All relations of a description. */
  method GetAllRelationsInfo(str: string) returns (found: Option<map<string, RelationInfo>>)
    ensures found == Relations(str)
  {
    hide LinesOf, RelationAt;
    var read := GetLines(str);
    if read.None? {
      return None;
    }
    var lines, i, mainMap := read.value, 0, map[];
    while true
      invariant i <= |lines| && AllRelations(lines, 0, map[]) == AllRelations(lines, i, mainMap)
      decreases |lines| - i
    {
      var j := SkipToRelation(lines, i);
      if j == |lines| {
        return Some(mainMap);
      }
      var info := GetRelationInfo(lines, j);
      if info.None? {
        return None;
      }
      mainMap := InsertNew(mainMap, info.value.0.name, info.value.0);
      i := info.value.1;
    }
  }

  method SkipToRelation(lines: seq<string>, index: nat) returns (i: nat)
    requires index <= |lines|
    ensures i == FindRelation(lines, index)
  {
    i := index;
    while i < |lines| && lines[i] != TABLE_MARK && lines[i] != VIEW_MARK
      invariant i <= |lines| && FindRelation(lines, index) == FindRelation(lines, i)
    {
      i := i + 1;
    }
  }
}
