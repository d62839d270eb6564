/** The connection that lists columns: the call holds the query mutex and switches the server to other databases on the
    way. Every method goes as the run of its name says. */
module CatalogSession {
  import opened Options
  import opened TapiText
  import opened Pattern
  import opened Schema
  import opened Answer
  import opened Catalog
  import opened CatalogRuns

  class Connection {
    const world: World
    var currentDb: string
    var clock: nat
    var acquired: nat
    var released: nat
    /** The commands sent so far. */
    ghost var log: seq<Exchange>

    constructor (db: string, world: World)
      ensures currentDb == db && clock == 0 && acquired == released == 0 && this.world == world && log == []
    {
      this.world, currentDb, clock, acquired, released, log := world, db, 0, 0, 0, [];
    }

    function Here(): Server
      reads this
    {
      Server(currentDb, clock)
    }

    /** A part of the listing has gone like this, behind the commands sent before. */
    ghost predicate Did(p: Part, progress: Progress, rows: seq<ColumnRow>, before: seq<Exchange>)
      reads this
    {
      progress == p.progress && rows == p.rows && log == before + p.log && Here() == p.after
    }

    method GetQueryMutex() returns (ok: bool)
      modifies this`clock, this`acquired
      ensures Here() == Tick(old(Here())) && ok == world.reactions(old(clock)).answered
      ensures acquired == old(acquired) + if ok then 1 else 0
    {
      ok := world.reactions(clock).answered;
      clock := clock + 1;
      if ok {
        acquired := acquired + 1;
      }
    }

    method ReleaseQueryMutex() returns (ok: bool)
      modifies this`clock, this`released
      ensures Here() == Tick(old(Here())) && ok == world.reactions(old(clock)).answered && released == old(released) + 1
    {
      ok := world.reactions(clock).answered;
      clock := clock + 1;
      released := released + 1;
    }

    /** Send a command and read its answer. */
    method Send(command: Command) returns (ok: bool, text: string)
      modifies this`currentDb, this`clock, this`log
      ensures var e := Sent(old(Here()), command);
              log == old(log) + [e] && ok == e.Answered(world) && text == e.Text(world)
      ensures Here() == After(world, old(Here()), command)
    {
      log := log + [Sent(Here(), command)];
      var r := world.reactions(clock);
      clock := clock + 1;
      ok := r.answered;
      if !r.carriedOut {
        text := r.noise;
      } else if command.CurrentDb? {
        text := currentDb + "\n";
      } else {
        text := world.answers(command, currentDb);
      }
      if r.carriedOut && command.UseDb? {
        currentDb := command.db;
      }
    }

    /** Send a command whose answer is not read. */
    method Use(db: string, ghost search: Search) returns (progress: Progress, text: string)
      modifies this`currentDb, this`clock, this`log
      ensures Did(Single(world, search, old(Here()), UseDb(db)), progress, [], old(log))
      ensures text == Sent(old(Here()), UseDb(db)).Text(world)
    {
      var ok;
      ok, text := Send(UseDb(db));
      progress := if ok then Continue else EarlyReturn;
    }

    /** Ask for the current database; the first line of the answer names it. Without any line the call throws. */
    method AskCurrentDb(ghost search: Search) returns (progress: Progress, db: string)
      modifies this`currentDb, this`clock, this`log
      ensures Did(Single(world, search, old(Here()), CurrentDb), progress, [], old(log))
      ensures progress == Continue ==> db == FirstLineOf(Sent(old(Here()), CurrentDb).Text(world))
    {
      var ok, text;
      ok, text := Send(CurrentDb);
      db := "";
      if !ok {
        return EarlyReturn, db;
      }
      var lines := GetLines(text);
      if lines.None? {
        return Threw, db;
      }
      LinesNotEmpty(text);
      hide LinesOf;
      db := lines.value[0];
      progress := Continue;
    }

    /** Whether the columns of a result can be described. */
    method Describe(result: ResultTable, names: seq<string>) returns (ok: bool)
      ensures ok <==> AllDescribable(result.columns, names)
    {
      hide Describable;
      for j := 0 to |names|
        invariant AllDescribable(result.columns, names[..j])
      {
        if names[j] in result.columns && !Describable(result.columns[names[j]]) {
          assert names[j] in names;
          return false;
        }
      }
      assert names[..|names|] == names;
      ok := true;
    }

    /** The columns of a table that match, as long as all of them can be described. */
    method ReadColumns(output: string, search: Search) returns (names: Option<seq<string>>)
      ensures names == ListedColumns(world, search, output)
    {
      hide ParseText, Built, Candidates, AllDescribable;
      var result := new ResultTable();
      var built := result.BuildTableSelect(output);
      if !built {
        return None;
      }
      var listed := FilterCandidates(result.namesOrdered, search.column, search.metadataId, world.library);
      if listed.None? {
        return None;
      }
      var described := Describe(result, listed.value);
      names := if described then listed else None;
    }

    /** Ask for the rows of a table, switch back, and only then read them. */
    method ReadTable(db: string, table: string, previous: string, search: Search)
      returns (progress: Progress, rows: seq<ColumnRow>)
      modifies this`currentDb, this`clock, this`log
      ensures Did(ReadRun(world, search, old(Here()), db, table, previous), progress, rows, old(log))
    {
      hide ListedColumns;
      rows := [];
      var ok, text, noise;
      ok, text := Send(Select(table));
      if !ok {
        return EarlyReturn, rows;
      }
      ok, noise := Send(UseDb(previous));
      if !ok {
        return EarlyReturn, rows;
      }
      var names := ReadColumns(text, search);
      if names.None? {
        return Threw, rows;
      }
      progress := Continue;
      for j := 0 to |names.value|
        invariant rows == Numbered(db, table, names.value, j)
      {
        rows := rows + [ColumnRow(db, table, names.value[j], j + 1)];
      }
    }

    /** List one table: switch to its database, ask, switch back. */
    method ListTable(db: string, table: string, search: Search) returns (progress: Progress, rows: seq<ColumnRow>)
      modifies this`currentDb, this`clock, this`log
      ensures Did(TableRun(world, search, old(Here()), db, table), progress, rows, old(log))
    {
      hide Single, ReadRun, FirstLineOf;
      var previous, noise;
      rows := [];
      progress, previous := AskCurrentDb(search);
      if progress != Continue {
        return;
      }
      progress, noise := Use(db, search);
      if progress != Continue {
        return;
      }
      progress, rows := ReadTable(db, table, previous, search);
    }

    /** List one table after the other. */
    method ListTables(db: string, tables: seq<string>, search: Search)
      returns (progress: Progress, rows: seq<ColumnRow>)
      modifies this`currentDb, this`clock, this`log
      ensures Did(TablesRun(world, search, old(Here()), db, tables, |tables|), progress, rows, old(log))
    {
      hide TableRun;
      progress, rows := Continue, [];
      for i := 0 to |tables|
        invariant progress == Continue
        invariant Did(TablesRun(world, search, old(Here()), db, tables, i), progress, rows, old(log))
      {
        var more;
        progress, more := ListTable(db, tables[i], search);
        rows := rows + more;
        if progress != Continue {
          TablesStop(world, search, old(Here()), db, tables, i + 1);
          return;
        }
      }
    }

    /** List one database. */
    method ListDatabase(db: string, search: Search) returns (progress: Progress, rows: seq<ColumnRow>)
      modifies this`currentDb, this`clock, this`log
      ensures Did(DatabaseRun(world, search, old(Here()), db), progress, rows, old(log))
    {
      hide TablesRun, LinesOf, AllRelations, TableNames, Candidates;
      var ok, text;
      rows := [];
      ok, text := Send(DbSchema(db));
      if !ok {
        return EarlyReturn, rows;
      }
      var relations := GetAllRelationsInfo(text);
      if relations.None? {
        return Threw, rows;
      }
      var tables := FilterCandidates(TableNames(world, relations.value), search.table, search.metadataId, world.library);
      if tables.None? {
        return Threw, rows;
      }
      progress, rows := ListTables(db, tables.value, search);
    }

    /** List one database after the other. */
    method ListDatabases(dbs: seq<string>, search: Search) returns (progress: Progress, rows: seq<ColumnRow>)
      modifies this`currentDb, this`clock, this`log
      ensures Did(DatabasesRun(world, search, old(Here()), dbs, |dbs|), progress, rows, old(log))
    {
      hide DatabaseRun;
      progress, rows := Continue, [];
      for i := 0 to |dbs|
        invariant progress == Continue
        invariant Did(DatabasesRun(world, search, old(Here()), dbs, i), progress, rows, old(log))
      {
        var more;
        progress, more := ListDatabase(dbs[i], search);
        rows := rows + more;
        if progress != Continue {
          DatabasesStop(world, search, old(Here()), dbs, i + 1);
          return;
        }
      }
    }

    /** List all databases that are asked for. */
    method BuildTableSQLColumns(search: Search) returns (progress: Progress, rows: seq<ColumnRow>)
      modifies this`currentDb, this`clock, this`log
      ensures Did(ListingRun(world, search, old(Here())), progress, rows, old(log))
    {
      hide DatabasesRun, LinesOf, Candidates, WithoutEnd;
      var ok, text;
      rows := [];
      ok, text := Send(ShowDbs);
      if !ok {
        return EarlyReturn, rows;
      }
      var lines := GetLines(text);
      if lines.None? {
        return Threw, rows;
      }
      var candidates := RemoveEnd(lines.value);
      var dbs := FilterCandidates(candidates, search.catalog, search.metadataId, world.library);
      if dbs.None? {
        return Threw, rows;
      }
      progress, rows := ListDatabases(dbs.value, search);
    }

    /** Behind the question for the current database: switch, list, switch back. An early return of the listing counts
        as its end. */
    method ListAndRestore(previous: string, search: Search, resultsOk: bool)
      returns (thrown: bool, ok: bool, rows: seq<ColumnRow>)
      modifies this`currentDb, this`clock, this`log
      ensures var rest := RestRun(world, search, old(Here()), previous, resultsOk);
              && thrown == rest.thrown && ok == rest.ok && rows == rest.rows
              && log == old(log) + rest.log && Here() == rest.after
    {
      hide ListingRun;
      var text, progress, noise;
      thrown, rows := false, [];
      progress, text := Use(search.Start(), search);
      if progress != Continue || world.refuses(text) {
        ok := false;
        progress, noise := Use(previous, search);
        return;
      }
      progress, rows := BuildTableSQLColumns(search);
      if progress == Threw {
        return true, false, rows;
      }
      progress, noise := Use(previous, search);
      ok := resultsOk && progress == Continue;
    }

    /** List the columns of the tables of databases: get the mutex, remember the database, list, switch back, release.

        It throws exactly if an answer that is read throws, and then keeps the mutex; otherwise it releases it exactly
        once after it got it. */
    method SQLColumns(search: Search, resultsOk: bool) returns (outcome: Outcome, rows: seq<ColumnRow>)
      modifies this
      ensures var call := CallRun(world, search, old(Here()), resultsOk);
              && outcome == call.outcome && rows == call.rows && log == old(log) + call.log && Here() == call.after
              && (outcome.Thrown? <==> BrokenOff(world, search, call.log))
      ensures var locked := world.reactions(old(clock)).answered;
              && acquired == old(acquired) + (if locked then 1 else 0)
              && released == old(released) + (if locked && outcome.Returned? then 1 else 0)
    {
      CallThrowsIff(world, search, Here(), resultsOk);
      hide BrokenOff, RestRun, FirstLineOf, Bad;
      rows := [];
      var locked := GetQueryMutex();
      if !locked {
        return Returned(false), rows;
      }
      var progress, previous, thrown, ok, freed;
      progress, previous := AskCurrentDb(search);
      if progress == Threw {
        return Thrown, rows;
      }
      if progress == EarlyReturn {
        freed := ReleaseQueryMutex();
        return Returned(false), rows;
      }
      thrown, ok, rows := ListAndRestore(previous, search, resultsOk);
      if thrown {
        return Thrown, rows;
      }
      freed := ReleaseQueryMutex();
      outcome := Returned(ok && freed);
    }
  }

  lemma {:induction false} TablesStop(w: World, search: Search, s: Server, db: string, tables: seq<string>, n: nat)
    requires n <= |tables| && TablesRun(w, search, s, db, tables, n).progress != Continue
    ensures TablesRun(w, search, s, db, tables, |tables|) == TablesRun(w, search, s, db, tables, n)
    decreases |tables| - n
  {
    hide TableRun;
    if n < |tables| {
      assert TablesRun(w, search, s, db, tables, n + 1) == TablesRun(w, search, s, db, tables, n);
      TablesStop(w, search, s, db, tables, n + 1);
    }
  }

  lemma {:induction false} DatabasesStop(w: World, search: Search, s: Server, dbs: seq<string>, n: nat)
    requires n <= |dbs| && DatabasesRun(w, search, s, dbs, n).progress != Continue
    ensures DatabasesRun(w, search, s, dbs, |dbs|) == DatabasesRun(w, search, s, dbs, n)
    decreases |dbs| - n
  {
    hide DatabaseRun;
    if n < |dbs| {
      assert DatabasesRun(w, search, s, dbs, n + 1) == DatabasesRun(w, search, s, dbs, n);
      DatabasesStop(w, search, s, dbs, n + 1);
    }
  }

  /** The names without the line that ends the text. */
  method RemoveEnd(lines: seq<string>) returns (names: seq<string>)
    ensures names == WithoutEnd(lines)
  {
    names := [];
    for i := 0 to |lines|
      invariant names == WithoutEnd(lines[..i])
    {
      assert lines[..i + 1][..i] == lines[..i];
      if lines[i] != END_OF_TEXT {
        names := names + [lines[i]];
      }
    }
    assert lines[..|lines|] == lines;
  }
}
