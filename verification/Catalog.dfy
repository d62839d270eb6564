/** The answers of the server to the commands that list columns: how they are read, when reading throws, and what is to
    be listed. The server is small here: it has a current database, and whether it gets a command, carries it out, and
    what it answers is open at every step. */
module Catalog {
  import opened Options
  import opened TapiText
  import opened TypeNames
  import opened Pattern
  import opened Schema
  import opened Answer

  datatype Command = CurrentDb | UseDb(db: string) | ShowDbs | DbSchema(db: string) | Select(table: string)

  /** How the server reacts at a step: whether an answer arrives, whether the command has been carried out, and the text
      of the answer if it has not. */
  datatype Reaction = Reaction(answered: bool, carriedOut: bool, noise: string)

  /** All that the call does not decide: how the server, and the operating system for the mutex, react at each step;
      what the server answers in a database to a command that it carries out; which answers to a switch are errors; in
      which order a hash table hands out its keys; and what the library makes of expressions outside the grammar. */
  datatype World = World(
    reactions: nat -> Reaction, answers: (Command, string) -> string, refuses: string -> bool,
    ordered: set<string> -> seq<string>, library: Library)

  /** The arguments of the call. */
  datatype Search = Search(catalog: string, table: string, column: string, metadataId: bool) {

    /** The database that the call switches to first. */
    function Start(): string {
      if catalog == "" then DEFAULT_DATABASE else catalog
    }
  }

  const DEFAULT_DATABASE := "$des"

  /** A call returns, or an exception ends it. Reading behind the last line of an answer has no defined result and
      counts as the latter. */
  datatype Outcome = Returned(ok: bool) | Thrown

  /** How a part of the listing ends: the function that lists may also return early. */
  datatype Progress = Continue | EarlyReturn | Threw

  /** A line of the result, with the place of the column among the listed ones of its table. */
  datatype ColumnRow = ColumnRow(db: string, table: string, column: string, position: nat)

  /** Databases have names that fit on a line. */
  predicate IsDatabase(db: string) {
    db != "" && !IsBlank(db[0]) && IsLine(db)
  }

  // ---------------------------------------------------------------------------------- what is exchanged

  /** A command that has been sent: the database it was sent in, and the step. */
  datatype Exchange = Exchange(command: Command, db: string, step: nat) {

    predicate Answered(w: World) {
      w.reactions(step).answered
    }

    predicate CarriedOut(w: World) {
      w.reactions(step).carriedOut
    }

    function Text(w: World): string {
      if !CarriedOut(w) then w.reactions(step).noise
      else if command.CurrentDb? then db + "\n"
      else w.answers(command, db)
    }
  }

  /** The names without the line that ends the text. */
  function WithoutEnd(lines: seq<string>): seq<string> {
    if lines == [] then []
    else WithoutEnd(lines[..|lines| - 1]) + if lines[|lines| - 1] == END_OF_TEXT then [] else [lines[|lines| - 1]]
  }

  /** The databases that a list of all of them and the catalog argument name; none if that throws. */
  function ListedDatabases(w: World, search: Search, text: string): Option<seq<string>> {
    match LinesOf(text)
    case None => None
    case Some(lines) => Candidates(WithoutEnd(lines), search.catalog, search.metadataId, w.library)
  }

  function TableNames(w: World, relations: map<string, RelationInfo>): seq<string> {
    w.ordered(set name | name in relations && relations[name].isTable)
  }

  /** The tables that the description of a database and the table argument name. */
  function ListedTables(w: World, search: Search, text: string): Option<seq<string>> {
    match Relations(text)
    case None => None
    case Some(relations) => Candidates(TableNames(w, relations), search.table, search.metadataId, w.library)
  }

  /** Every one of the columns can be described. */
  ghost predicate AllDescribable(columns: map<string, Column>, names: seq<string>) {
    forall name <- names :: name in columns ==> Describable(columns[name])
  }

  /** The columns that the rows of a table and the column argument name. */
  ghost function ListedColumns(w: World, search: Search, text: string): Option<seq<string>> {
    if ParseText(text).None? then None
    else
      var (names, columns) := Built(text);
      match Candidates(names, search.column, search.metadataId, w.library)
      case None => None
      case Some(listed) => if AllDescribable(columns, listed) then Some(listed) else None
  }

  /** The answer to a command throws when it is read. */
  ghost predicate Bad(w: World, search: Search, e: Exchange) {
    match e.command
    case CurrentDb => LinesOf(e.Text(w)).None?
    case UseDb(_) => false
    case ShowDbs => ListedDatabases(w, search, e.Text(w)).None?
    case DbSchema(_) => ListedTables(w, search, e.Text(w)).None?
    case Select(_) => ListedColumns(w, search, e.Text(w)).None?
  }

  lemma NullAmongFloats(columns: map<string, Column>, names: seq<string>)
    ensures !AllDescribable(columns, names) <==>
              exists name <- names ::
                name in columns && columns[name].typ.simpleType == FloatType && None in columns[name].values
  {
  }

  /** An answer throws if and only if it is unreadable for its command, or the pattern that has to be compiled for it is
      refused, or a listed column is a float with a null. */
  lemma BadWhen(w: World, search: Search, e: Exchange)
    ensures e.command.CurrentDb? ==> (Bad(w, search, e) <==> LinesOf(e.Text(w)).None?)
    ensures e.command.UseDb? ==> !Bad(w, search, e)
    ensures e.command.ShowDbs? ==>
              (Bad(w, search, e) <==>
                LinesOf(e.Text(w)).None? || Refused(search.catalog, search.metadataId, w.library))
    ensures e.command.DbSchema? ==>
              (Bad(w, search, e) <==>
                Relations(e.Text(w)).None? || Refused(search.table, search.metadataId, w.library))
    ensures e.command.Select? ==>
              (Bad(w, search, e) <==>
                || ParseText(e.Text(w)).None? || Refused(search.column, search.metadataId, w.library)
                || exists name <- Candidates(Built(e.Text(w)).0, search.column, search.metadataId, w.library).value ::
                     var columns := Built(e.Text(w)).1;
                     name in columns && columns[name].typ.simpleType == FloatType && None in columns[name].values)
  {
    var text := e.Text(w);
    hide LinesOf, ParseText, Built, Relations, AllDescribable, WithoutEnd, TableNames, Candidates, Refused;
    match e.command {
      case ShowDbs =>
        if LinesOf(text).Some? {
          FilterThrows(WithoutEnd(LinesOf(text).value), search.catalog, search.metadataId, w.library);
        }
      case DbSchema(_) =>
        if Relations(text).Some? {
          FilterThrows(TableNames(w, Relations(text).value), search.table, search.metadataId, w.library);
        }
      case Select(_) =>
        if ParseText(text).Some? {
          FilterThrows(Built(text).0, search.column, search.metadataId, w.library);
          var listed := Candidates(Built(text).0, search.column, search.metadataId, w.library);
          if listed.Some? {
            NullAmongFloats(Built(text).1, listed.value);
          }
        }
      case _ =>
    }
  }

  predicate FineEscapes(search: Search) {
    EscapesFine(search.catalog, 0) && EscapesFine(search.table, 0) && EscapesFine(search.column, 0)
  }

  /** The first line of the name of a database is that name. */
  lemma DatabaseLine(db: string)
    requires IsDatabase(db)
    ensures LinesOf(db + "\n") == Some([db])
  {
    assert TextOf([db]) == db + "\n";
    LinesComeBack([db]);
  }

  lemma LinesNotEmpty(text: string)
    requires LinesOf(text).Some?
    ensures LinesOf(text).value != []
  {
  }

  // ---------------------------------------------------------------------------------- what is to be listed

  /** A row for each of the first n columns. */
  function Numbered(db: string, table: string, names: seq<string>, n: nat): seq<ColumnRow>
    requires n <= |names|
  {
    if n == 0 then [] else Numbered(db, table, names, n - 1) + [ColumnRow(db, table, names[n - 1], n)]
  }

  /** The rows for one table: its rows are asked for in its own database. */
  ghost function TableRows(w: World, search: Search, db: string, table: string): seq<ColumnRow> {
    match ListedColumns(w, search, w.answers(Select(table), db))
    case None => []
    case Some(names) => Numbered(db, table, names, |names|)
  }

  ghost function TablesRows(w: World, search: Search, db: string, tables: seq<string>, n: nat): seq<ColumnRow>
    requires n <= |tables|
  {
    if n == 0 then []
    else TablesRows(w, search, db, tables, n - 1) + TableRows(w, search, db, tables[n - 1])
  }

  /** The rows for one database, asked for while the server is in the current one. */
  ghost function DatabaseRows(w: World, search: Search, current: string, db: string): seq<ColumnRow> {
    match ListedTables(w, search, w.answers(DbSchema(db), current))
    case None => []
    case Some(tables) => TablesRows(w, search, db, tables, |tables|)
  }

  ghost function DatabasesRows(w: World, search: Search, current: string, dbs: seq<string>, n: nat): seq<ColumnRow>
    requires n <= |dbs|
  {
    if n == 0 then []
    else DatabasesRows(w, search, current, dbs, n - 1) + DatabaseRows(w, search, current, dbs[n - 1])
  }

  /** The whole listing. */
  ghost function AllRows(w: World, search: Search, current: string): seq<ColumnRow> {
    match ListedDatabases(w, search, w.answers(ShowDbs, current))
    case None => []
    case Some(dbs) => DatabasesRows(w, search, current, dbs, |dbs|)
  }

  lemma {:induction false} InNumbered(db: string, table: string, names: seq<string>, n: nat, r: ColumnRow)
    requires n <= |names|
    ensures r in Numbered(db, table, names, n) <==>
              r.db == db && r.table == table && 1 <= r.position <= n && r.column == names[r.position - 1]
  {
    if n > 0 {
      InNumbered(db, table, names, n - 1, r);
    }
  }

  lemma OfTable(w: World, search: Search, db: string, table: string, r: ColumnRow)
    ensures r in TableRows(w, search, db, table) ==> r.table == table
  {
    var names := ListedColumns(w, search, w.answers(Select(table), db));
    if names.Some? {
      InNumbered(db, table, names.value, |names.value|, r);
    }
    hide Numbered, ListedColumns;
  }

  lemma OneLonger(names: seq<string>, n: nat, name: string)
    requires n < |names|
    ensures name in names[..n + 1] <==> name in names[..n] || name == names[n]
  {
    assert names[..n + 1] == names[..n] + [names[n]];
  }

  lemma {:induction false} InTablesRows(w: World, search: Search, db: string, tables: seq<string>, n: nat, r: ColumnRow)
    requires n <= |tables|
    ensures r in TablesRows(w, search, db, tables, n) <==>
              r.table in tables[..n] && r in TableRows(w, search, db, r.table)
  {
    hide TableRows;
    if n > 0 {
      InTablesRows(w, search, db, tables, n - 1, r);
      OfTable(w, search, db, tables[n - 1], r);
      OneLonger(tables, n - 1, r.table);
    }
  }

  lemma DatabaseOfRow(w: World, search: Search, current: string, db: string, r: ColumnRow)
    ensures r in DatabaseRows(w, search, current, db) <==>
              var tables := ListedTables(w, search, w.answers(DbSchema(db), current));
              tables.Some? && r.table in tables.value && r in TableRows(w, search, db, r.table)
    ensures r in TableRows(w, search, db, r.table) <==>
              var names := ListedColumns(w, search, w.answers(Select(r.table), db));
              names.Some? && r.db == db && 1 <= r.position <= |names.value| && r.column == names.value[r.position - 1]
  {
    var tables := ListedTables(w, search, w.answers(DbSchema(db), current));
    var names := ListedColumns(w, search, w.answers(Select(r.table), db));
    if tables.Some? {
      InTablesRows(w, search, db, tables.value, |tables.value|, r);
      assert tables.value[..|tables.value|] == tables.value;
    }
    if names.Some? {
      InNumbered(db, r.table, names.value, |names.value|, r);
    }
    hide TablesRows, ListedTables, ListedColumns, Numbered;
  }

  lemma OfDatabase(w: World, search: Search, current: string, db: string, r: ColumnRow)
    ensures r in DatabaseRows(w, search, current, db) ==> r.db == db
  {
    DatabaseOfRow(w, search, current, db, r);
    hide DatabaseRows, TableRows, ListedTables, ListedColumns;
  }

  lemma {:induction false} InDatabasesRows(w: World, search: Search, current: string, dbs: seq<string>, n: nat,
                                           r: ColumnRow)
    requires n <= |dbs|
    ensures r in DatabasesRows(w, search, current, dbs, n) <==>
              r.db in dbs[..n] && r in DatabaseRows(w, search, current, r.db)
  {
    hide DatabaseRows;
    if n > 0 {
      InDatabasesRows(w, search, current, dbs, n - 1, r);
      OfDatabase(w, search, current, dbs[n - 1], r);
      OneLonger(dbs, n - 1, r.db);
    }
  }

  /** The listing has a row if and only if its database and its table are listed, and its column is the listed one of
      the table with that position. */
  lemma ListingHolds(w: World, search: Search, current: string, r: ColumnRow)
    ensures r in AllRows(w, search, current) <==>
              && var dbs := ListedDatabases(w, search, w.answers(ShowDbs, current));
              dbs.Some? && r.db in dbs.value
              && var tables := ListedTables(w, search, w.answers(DbSchema(r.db), current));
              tables.Some? && r.table in tables.value
              && var names := ListedColumns(w, search, w.answers(Select(r.table), r.db));
              names.Some? && 1 <= r.position <= |names.value| && r.column == names.value[r.position - 1]
  {
    var dbs := ListedDatabases(w, search, w.answers(ShowDbs, current));
    DatabaseOfRow(w, search, current, r.db, r);
    if dbs.Some? {
      InDatabasesRows(w, search, current, dbs.value, |dbs.value|, r);
      assert dbs.value[..|dbs.value|] == dbs.value;
    }
    hide DatabasesRows, DatabaseRows, TableRows, ListedDatabases, ListedTables, ListedColumns;
  }

  /** The escapes of all patterns are fine, and a hash table hands out each of its keys. */
  ghost predicate Proper(w: World, search: Search) {
    && (search.metadataId || FineEscapes(search))
    && forall s: set<string>, x: string :: x in w.ordered(s) <==> x in s
  }

  lemma {:induction false} WithoutEndHolds(lines: seq<string>, name: string)
    ensures name in WithoutEnd(lines) <==> name in lines && name != END_OF_TEXT
  {
    if lines != [] {
      WithoutEndHolds(lines[..|lines| - 1], name);
      assert lines == lines[..|lines| - 1] + [lines[|lines| - 1]];
    }
  }

  /** The listed databases are the lines of the list that match; the listed tables are the tables of the description
      that match; the listed columns are the columns of the result that match, as long as they can be described. */
  lemma ListedMatches(w: World, search: Search, text: string, name: string)
    requires Proper(w, search)
    ensures var dbs := ListedDatabases(w, search, text);
            (dbs.Some? <==> LinesOf(text).Some?)
            && (dbs.Some? ==> (name in dbs.value <==>
                  name in LinesOf(text).value && name != END_OF_TEXT && Fits(search.catalog, search.metadataId, name)))
    ensures var tables := ListedTables(w, search, text);
            (tables.Some? <==> Relations(text).Some?)
            && (tables.Some? ==> (name in tables.value <==>
                  && name in Relations(text).value && Relations(text).value[name].isTable
                  && Fits(search.table, search.metadataId, name)))
    ensures var names := ListedColumns(w, search, text);
            (names.Some? ==> ParseText(text).Some?)
            && (names.Some? ==> (name in names.value <==>
                  name in Built(text).0 && Fits(search.column, search.metadataId, name)))
  {
    hide LinesOf, ParseText, Built, AllRelations, AllDescribable, WithoutEnd, Candidates, EscapesFine, Fits;
    if LinesOf(text).Some? {
      WithoutEndHolds(LinesOf(text).value, name);
      FilterHolds(WithoutEnd(LinesOf(text).value), search.catalog, search.metadataId, w.library, name);
    }
    if Relations(text).Some? {
      FilterHolds(TableNames(w, Relations(text).value), search.table, search.metadataId, w.library, name);
    }
    if ParseText(text).Some? {
      FilterHolds(Built(text).0, search.column, search.metadataId, w.library, name);
    }
  }
}
