/** Listing columns as a whole: for every server, which commands the call sends, how it ends and what it lists. */
module CatalogRuns {
  import opened Options
  import opened TapiText
  import opened Pattern
  import opened Schema
  import opened Answer
  import opened Catalog

  // ---------------------------------------------------------------------------------- what is sent

  /** Where the server stands, and the next step. */
  datatype Server = Server(db: string, clock: nat)

  function Sent(s: Server, command: Command): Exchange {
    Exchange(command, s.db, s.clock)
  }

  function After(w: World, s: Server, command: Command): Server {
    Server(if command.UseDb? && w.reactions(s.clock).carriedOut then command.db else s.db, s.clock + 1)
  }

  /** A part of the listing: how it ends, its rows, the commands that have been sent, and where the server is then. */
  datatype Part = Part(progress: Progress, rows: seq<ColumnRow>, log: seq<Exchange>, after: Server)

  /** One part behind another, unless that has ended the listing. */
  function Chain(a: Part, b: Part): Part {
    if a.progress != Continue then a else Part(b.progress, a.rows + b.rows, a.log + b.log, b.after)
  }

  /** A command that is no question for the rows of a table. */
  ghost function Single(w: World, search: Search, s: Server, command: Command): Part {
    var e := Sent(s, command);
    Part(if !e.Answered(w) then EarlyReturn else if Bad(w, search, e) then Threw else Continue, [], [e],
         After(w, s, command))
  }

  function FirstLineOf(text: string): string {
    match LinesOf(text)
    case None => ""
    case Some(lines) => if lines == [] then "" else lines[0]
  }

  /** The rows of a table are asked for, and read behind the switch back. */
  ghost function ReadRun(w: World, search: Search, s: Server, db: string, table: string, previous: string): Part {
    var e := Sent(s, Select(table));
    var asked := After(w, s, e.command);
    if !e.Answered(w) then Part(EarlyReturn, [], [e], asked)
    else
      var back := Sent(asked, UseDb(previous));
      var after := After(w, asked, back.command);
      if !back.Answered(w) then Part(EarlyReturn, [], [e, back], after)
      else
        match ListedColumns(w, search, e.Text(w))
        case None => Part(Threw, [], [e, back], after)
        case Some(names) => Part(Continue, Numbered(db, table, names, |names|), [e, back], after)
  }

  /** A table: ask for the current database, switch, read, switch back. */
  ghost function TableRun(w: World, search: Search, s: Server, db: string, table: string): Part {
    var ask := Single(w, search, s, CurrentDb);
    var use := Single(w, search, ask.after, UseDb(db));
    Chain(Chain(ask, use), ReadRun(w, search, use.after, db, table, FirstLineOf(Sent(s, CurrentDb).Text(w))))
  }

  ghost function TablesRun(w: World, search: Search, s: Server, db: string, tables: seq<string>, n: nat): Part
    requires n <= |tables|
  {
    if n == 0 then Part(Continue, [], [], s)
    else
      var earlier := TablesRun(w, search, s, db, tables, n - 1);
      Chain(earlier, TableRun(w, search, earlier.after, db, tables[n - 1]))
  }

  /** A database: its description, then its tables. */
  ghost function DatabaseRun(w: World, search: Search, s: Server, db: string): Part {
    var ask := Single(w, search, s, DbSchema(db));
    match ListedTables(w, search, Sent(s, DbSchema(db)).Text(w))
    case None => ask
    case Some(tables) => Chain(ask, TablesRun(w, search, ask.after, db, tables, |tables|))
  }

  ghost function DatabasesRun(w: World, search: Search, s: Server, dbs: seq<string>, n: nat): Part
    requires n <= |dbs|
  {
    if n == 0 then Part(Continue, [], [], s)
    else
      var earlier := DatabasesRun(w, search, s, dbs, n - 1);
      Chain(earlier, DatabaseRun(w, search, earlier.after, dbs[n - 1]))
  }

  /** The listing: all databases, then each of those that are asked for. */
  ghost function ListingRun(w: World, search: Search, s: Server): Part {
    var ask := Single(w, search, s, ShowDbs);
    match ListedDatabases(w, search, Sent(s, ShowDbs).Text(w))
    case None => ask
    case Some(dbs) => Chain(ask, DatabasesRun(w, search, ask.after, dbs, |dbs|))
  }

  /** The switch to the first database has been answered, and not by an error. */
  predicate Accepted(w: World, e: Exchange) {
    e.Answered(w) && !w.refuses(e.Text(w))
  }

  /** What the call comes to behind the question for the current database: whether it throws, and whether it is fine. */
  datatype Rest = Rest(thrown: bool, ok: bool, rows: seq<ColumnRow>, log: seq<Exchange>, after: Server)

  /** Switch, list, switch back. The listing need not have come to its end. */
  ghost function RestRun(w: World, search: Search, s: Server, previous: string, resultsOk: bool): Rest {
    var use := Single(w, search, s, UseDb(search.Start()));
    if !Accepted(w, Sent(s, UseDb(search.Start()))) then
      var back := Single(w, search, use.after, UseDb(previous));
      Rest(false, false, [], use.log + back.log, back.after)
    else
      var listing := ListingRun(w, search, use.after);
      if listing.progress == Threw then Rest(true, false, listing.rows, use.log + listing.log, listing.after)
      else
        var back := Single(w, search, listing.after, UseDb(previous));
        Rest(false, resultsOk && back.progress == Continue, listing.rows, use.log + listing.log + back.log, back.after)
  }

  datatype Call = Call(outcome: Outcome, rows: seq<ColumnRow>, log: seq<Exchange>, after: Server)

  function Tick(s: Server): Server {
    s.(clock := s.clock + 1)
  }

  /** The whole call. Getting and releasing the mutex are steps, too. */
  ghost function CallRun(w: World, search: Search, s: Server, resultsOk: bool): Call {
    if !w.reactions(s.clock).answered then Call(Returned(false), [], [], Tick(s))
    else
      var ask := Single(w, search, Tick(s), CurrentDb);
      match ask.progress
      case Threw => Call(Thrown, [], ask.log, ask.after)
      case EarlyReturn => Call(Returned(false), [], ask.log, Tick(ask.after))
      case Continue =>
        var rest := RestRun(w, search, ask.after, FirstLineOf(Sent(Tick(s), CurrentDb).Text(w)), resultsOk);
        if rest.thrown then Call(Thrown, rest.rows, ask.log + rest.log, rest.after)
        else Call(Returned(rest.ok && w.reactions(rest.after.clock).answered), rest.rows, ask.log + rest.log,
                  Tick(rest.after))
  }

  // ---------------------------------------------------------------------------------- which answers throw

  /** The answer to command k is read, and throws. The rows of a table are only read after the switch back. */
  ghost predicate Breaks(w: World, search: Search, log: seq<Exchange>, k: nat) {
    && k < |log| && log[k].Answered(w) && Bad(w, search, log[k])
    && (log[k].command.Select? ==> k + 1 < |log| && log[k + 1].Answered(w))
  }

  /** Some answer that is read throws. */
  ghost predicate BrokenOff(w: World, search: Search, log: seq<Exchange>) {
    exists k: nat :: Breaks(w, search, log, k)
  }

  ghost predicate Unanswered(w: World, log: seq<Exchange>) {
    exists e <- log :: !e.Answered(w)
  }

  /** The answer is one that the command has in a working session. */
  ghost predicate Readable(w: World, e: Exchange) {
    match e.command
    case CurrentDb => LinesOf(e.Text(w)).Some?
    case UseDb(_) => true
    case ShowDbs => LinesOf(e.Text(w)).Some?
    case DbSchema(_) => Relations(e.Text(w)).Some?
    case Select(_) =>
      && ParseText(e.Text(w)).Some?
      && var columns := Built(e.Text(w)).1; forall name <- columns :: Describable(columns[name])
  }

  /** As long as the escapes of all patterns are fine, if there are patterns, and every answer is readable nothing
      throws, whatever is answered and carried out, and however many databases and tables there are. */
  lemma ReadableNeverThrows(w: World, search: Search, log: seq<Exchange>)
    requires search.metadataId || FineEscapes(search)
    requires forall e <- log :: e.Answered(w) ==> Readable(w, e)
    ensures !BrokenOff(w, search, log)
  {
    forall k: nat ensures !Breaks(w, search, log, k) {
      if k < |log| && log[k].Answered(w) {
        var e := log[k];
        assert Readable(w, e);
        ReadableIsNotBad(w, search, e);
      }
    }
  }

  lemma ReadableIsNotBad(w: World, search: Search, e: Exchange)
    requires search.metadataId || FineEscapes(search)
    requires Readable(w, e)
    ensures !Bad(w, search, e)
  {
    NothingRefused(search.catalog, search.metadataId, w.library);
    NothingRefused(search.table, search.metadataId, w.library);
    NothingRefused(search.column, search.metadataId, w.library);
    BadWhen(w, search, e);
    hide Bad, LinesOf, ParseText, Built, AllRelations, Candidates, Refused, EscapesFine, Describable;
  }

  lemma NothingRefused(key: string, metadataId: bool, library: Library)
    requires metadataId || EscapesFine(key, 0)
    ensures !Refused(key, metadataId, library)
  {
    FilterThrows([], key, metadataId, library);
    hide Compile, Translated, EscapesFine, Candidates;
  }

  /** The commands do not end between the rows of a table and the switch back. */
  predicate Closed(w: World, log: seq<Exchange>) {
    log != [] ==> !(log[|log| - 1].command.Select? && log[|log| - 1].Answered(w))
  }

  /** A part of the listing throws if and only if an answer does, and returns early if and only if a command is not
      answered. */
  ghost predicate Ends(w: World, search: Search, progress: Progress, log: seq<Exchange>) {
    && (progress == Threw <==> BrokenOff(w, search, log))
    && (progress == EarlyReturn <==> Unanswered(w, log))
    && Closed(w, log)
  }

  lemma NothingEnds(w: World, search: Search)
    ensures Ends(w, search, Continue, [])
  {
  }

  lemma OneEnds(w: World, search: Search, e: Exchange)
    requires e.command.Select? ==> !e.Answered(w)
    ensures Ends(w, search, if !e.Answered(w) then EarlyReturn else if Bad(w, search, e) then Threw else Continue, [e])
  {
    hide Bad;
    assert [e][0] == e;
    assert Breaks(w, search, [e], 0) <==> e.Answered(w) && Bad(w, search, e);
  }

  lemma SelectEnds(w: World, search: Search, e: Exchange, back: Exchange)
    requires e.command.Select? && back.command.UseDb? && e.Answered(w)
    ensures Ends(w, search, if !back.Answered(w) then EarlyReturn else if Bad(w, search, e) then Threw else Continue,
                 [e, back])
  {
    assert !Bad(w, search, back);
    hide Bad;
    assert [e, back][0] == e && [e, back][1] == back;
    assert Breaks(w, search, [e, back], 0) <==> back.Answered(w) && Bad(w, search, e);
    assert !Breaks(w, search, [e, back], 1);
  }

  lemma BothEnd(w: World, search: Search, a: seq<Exchange>, progress: Progress, b: seq<Exchange>)
    requires Ends(w, search, Continue, a) && Ends(w, search, progress, b)
    ensures Ends(w, search, progress, a + b)
  {
    hide Bad;
    BrokenConcat(w, search, a, b);
    assert Unanswered(w, a + b) <==> Unanswered(w, a) || Unanswered(w, b);
    hide BrokenOff, Unanswered;
    assert b == [] ==> a + b == a;
    assert b != [] ==> (a + b)[|a + b| - 1] == b[|b| - 1];
  }

  lemma ShiftBreaks(w: World, search: Search, a: seq<Exchange>, b: seq<Exchange>, k: nat)
    ensures Breaks(w, search, a + b, |a| + k) <==> Breaks(w, search, b, k)
  {
    hide Bad;
    assert k < |b| ==> (a + b)[|a| + k] == b[k];
    assert k + 1 < |b| ==> (a + b)[|a| + k + 1] == b[k + 1];
  }

  lemma BreaksInFront(w: World, search: Search, a: seq<Exchange>, b: seq<Exchange>, k: nat)
    requires Closed(w, a) && k < |a|
    ensures Breaks(w, search, a + b, k) <==> Breaks(w, search, a, k)
  {
    hide Bad;
    assert (a + b)[k] == a[k];
    assert k + 1 < |a| ==> (a + b)[k + 1] == a[k + 1];
  }

  lemma BrokenConcat(w: World, search: Search, a: seq<Exchange>, b: seq<Exchange>)
    requires Closed(w, a)
    ensures BrokenOff(w, search, a + b) <==> BrokenOff(w, search, a) || BrokenOff(w, search, b)
  {
    hide Breaks, Closed;
    if BrokenOff(w, search, a + b) {
      var k: nat :| Breaks(w, search, a + b, k);
      if k < |a| {
        BreaksInFront(w, search, a, b, k);
      } else {
        ShiftBreaks(w, search, a, b, k - |a|);
        assert Breaks(w, search, b, k - |a|);
      }
    } else if BrokenOff(w, search, a) {
      var k: nat :| Breaks(w, search, a, k);
      assert k < |a| by { BreaksInside(w, search, a, k); }
      BreaksInFront(w, search, a, b, k);
    } else if BrokenOff(w, search, b) {
      var k: nat :| Breaks(w, search, b, k);
      ShiftBreaks(w, search, a, b, k);
    }
  }

  lemma BreaksInside(w: World, search: Search, log: seq<Exchange>, k: nat)
    requires Breaks(w, search, log, k)
    ensures k < |log|
  {
  }

  lemma EndsSays(w: World, search: Search, progress: Progress, log: seq<Exchange>)
    requires Ends(w, search, progress, log)
    ensures progress == Threw <==> BrokenOff(w, search, log)
    ensures progress == EarlyReturn <==> Unanswered(w, log)
    ensures Closed(w, log)
  {
    hide BrokenOff, Unanswered, Closed;
  }

  lemma ClosedConcat(w: World, a: seq<Exchange>, b: seq<Exchange>)
    requires Closed(w, a) && Closed(w, b)
    ensures Closed(w, a + b)
  {
    assert b == [] ==> a + b == a;
  }

  lemma ChainEnds(w: World, search: Search, a: Part, b: Part)
    requires Ends(w, search, a.progress, a.log) && Ends(w, search, b.progress, b.log)
    ensures Ends(w, search, Chain(a, b).progress, Chain(a, b).log)
  {
    hide Ends;
    if a.progress == Continue {
      BothEnd(w, search, a.log, b.progress, b.log);
    }
  }

  lemma SingleEnds(w: World, search: Search, s: Server, command: Command)
    requires !command.Select?
    ensures var p := Single(w, search, s, command); Ends(w, search, p.progress, p.log)
  {
    OneEnds(w, search, Sent(s, command));
    hide Ends, Bad;
  }

  lemma ReadEnds(w: World, search: Search, s: Server, db: string, table: string, previous: string)
    ensures var p := ReadRun(w, search, s, db, table, previous); Ends(w, search, p.progress, p.log)
  {
    var e := Sent(s, Select(table));
    if e.Answered(w) {
      SelectEnds(w, search, e, Sent(After(w, s, e.command), UseDb(previous)));
    } else {
      OneEnds(w, search, e);
    }
    hide Ends, ListedColumns, Numbered;
  }

  lemma TableEnds(w: World, search: Search, s: Server, db: string, table: string)
    ensures var p := TableRun(w, search, s, db, table); Ends(w, search, p.progress, p.log)
  {
    hide Ends, Single, ReadRun, Chain;
    var ask := Single(w, search, s, CurrentDb);
    var use := Single(w, search, ask.after, UseDb(db));
    var previous := FirstLineOf(Sent(s, CurrentDb).Text(w));
    SingleEnds(w, search, s, CurrentDb);
    SingleEnds(w, search, ask.after, UseDb(db));
    ReadEnds(w, search, use.after, db, table, previous);
    ChainEnds(w, search, ask, use);
    ChainEnds(w, search, Chain(ask, use), ReadRun(w, search, use.after, db, table, previous));
  }

  lemma {:induction false} TablesEnd(w: World, search: Search, s: Server, db: string, tables: seq<string>, n: nat)
    requires n <= |tables|
    ensures var p := TablesRun(w, search, s, db, tables, n); Ends(w, search, p.progress, p.log)
  {
    NothingEnds(w, search);
    hide Ends, TableRun, Chain;
    if n > 0 {
      TablesEnd(w, search, s, db, tables, n - 1);
      var earlier := TablesRun(w, search, s, db, tables, n - 1);
      TableEnds(w, search, earlier.after, db, tables[n - 1]);
      ChainEnds(w, search, earlier, TableRun(w, search, earlier.after, db, tables[n - 1]));
    }
  }

  lemma DatabaseEnds(w: World, search: Search, s: Server, db: string)
    ensures var p := DatabaseRun(w, search, s, db); Ends(w, search, p.progress, p.log)
  {
    hide Ends, Single, Chain, TablesRun, ListedTables;
    var ask, tables := Single(w, search, s, DbSchema(db)), ListedTables(w, search, Sent(s, DbSchema(db)).Text(w));
    SingleEnds(w, search, s, DbSchema(db));
    if tables.Some? {
      TablesEnd(w, search, ask.after, db, tables.value, |tables.value|);
      ChainEnds(w, search, ask, TablesRun(w, search, ask.after, db, tables.value, |tables.value|));
    }
  }

  lemma {:induction false} DatabasesEnd(w: World, search: Search, s: Server, dbs: seq<string>, n: nat)
    requires n <= |dbs|
    ensures var p := DatabasesRun(w, search, s, dbs, n); Ends(w, search, p.progress, p.log)
  {
    NothingEnds(w, search);
    hide Ends, DatabaseRun, Chain;
    if n > 0 {
      DatabasesEnd(w, search, s, dbs, n - 1);
      var earlier := DatabasesRun(w, search, s, dbs, n - 1);
      DatabaseEnds(w, search, earlier.after, dbs[n - 1]);
      ChainEnds(w, search, earlier, DatabaseRun(w, search, earlier.after, dbs[n - 1]));
    }
  }

  /** The listing throws if and only if an answer that is read does, and returns early if and only if a command is not
      answered, for any number of databases and tables. */
  lemma ListingEnds(w: World, search: Search, s: Server)
    ensures var p := ListingRun(w, search, s); Ends(w, search, p.progress, p.log)
  {
    hide Ends, Single, Chain, DatabasesRun, ListedDatabases;
    var ask, dbs := Single(w, search, s, ShowDbs), ListedDatabases(w, search, Sent(s, ShowDbs).Text(w));
    SingleEnds(w, search, s, ShowDbs);
    if dbs.Some? {
      DatabasesEnd(w, search, ask.after, dbs.value, |dbs.value|);
      ChainEnds(w, search, ask, DatabasesRun(w, search, ask.after, dbs.value, |dbs.value|));
    }
  }

  lemma SingleSays(w: World, search: Search, s: Server, command: Command)
    requires !command.Select?
    ensures var p := Single(w, search, s, command);
            (p.progress == Threw <==> BrokenOff(w, search, p.log)) && Closed(w, p.log) && p.log == [Sent(s, command)]
    ensures command.UseDb? ==> Single(w, search, s, command).progress != Threw
  {
    SingleEnds(w, search, s, command);
    EndsSays(w, search, Single(w, search, s, command).progress, Single(w, search, s, command).log);
    hide BrokenOff, Closed, Ends;
  }

  lemma RestThrowsIff(w: World, search: Search, s: Server, previous: string, resultsOk: bool)
    ensures var rest := RestRun(w, search, s, previous, resultsOk);
            rest.thrown <==> BrokenOff(w, search, rest.log)
  {
    hide Single, ListingRun, BrokenOff, Closed, Ends;
    var use := Single(w, search, s, UseDb(search.Start()));
    SingleSays(w, search, s, UseDb(search.Start()));
    if !Accepted(w, Sent(s, UseDb(search.Start()))) {
      SingleSays(w, search, use.after, UseDb(previous));
      BrokenConcat(w, search, use.log, Single(w, search, use.after, UseDb(previous)).log);
    } else {
      var listing := ListingRun(w, search, use.after);
      ListingEnds(w, search, use.after);
      EndsSays(w, search, listing.progress, listing.log);
      BrokenConcat(w, search, use.log, listing.log);
      ClosedConcat(w, use.log, listing.log);
      SingleSays(w, search, listing.after, UseDb(previous));
      BrokenConcat(w, search, use.log + listing.log, Single(w, search, listing.after, UseDb(previous)).log);
    }
  }

  /** The call throws if and only if an answer that is read throws. */
  lemma CallThrowsIff(w: World, search: Search, s: Server, resultsOk: bool)
    ensures var call := CallRun(w, search, s, resultsOk);
            call.outcome.Thrown? <==> BrokenOff(w, search, call.log)
  {
    hide Single, RestRun, BrokenOff, Closed, Ends;
    NothingEnds(w, search);
    EndsSays(w, search, Continue, []);
    var ask := Single(w, search, Tick(s), CurrentDb);
    SingleSays(w, search, Tick(s), CurrentDb);
    var previous := FirstLineOf(Sent(Tick(s), CurrentDb).Text(w));
    RestThrowsIff(w, search, ask.after, previous, resultsOk);
    BrokenConcat(w, search, ask.log, RestRun(w, search, ask.after, previous, resultsOk).log);
  }

  // ---------------------------------------------------------------------------------- what is listed

  /** Every answer that arrives is one to a command that has been carried out. */
  ghost predicate Honest(w: World, log: seq<Exchange>) {
    forall e <- log :: e.Answered(w) ==> e.CarriedOut(w)
  }

  /** Among honest answers a part has the first of the rows that are to be listed; if it comes to its end it has all of
      them, and the server is where it was. */
  ghost predicate Lists(w: World, s: Server, p: Part, expected: seq<ColumnRow>) {
    IsDatabase(s.db) && Honest(w, p.log) ==>
      p.rows <= expected && (p.progress == Continue ==> p.rows == expected && p.after.db == s.db)
  }

  lemma HonestConcat(w: World, a: seq<Exchange>, b: seq<Exchange>)
    ensures Honest(w, a + b) <==> Honest(w, a) && Honest(w, b)
  {
    assert forall e <- a :: e in a + b;
    assert forall e <- b :: e in a + b;
  }

  lemma OneHonest(w: World, e: Exchange)
    ensures Honest(w, [e]) <==> (e.Answered(w) ==> e.CarriedOut(w))
  {
    assert [e][0] == e;
  }

  lemma ChainLists(w: World, s: Server, a: Part, x: seq<ColumnRow>, b: Part, y: seq<ColumnRow>)
    requires Lists(w, s, a, x)
    requires a.progress == Continue && IsDatabase(s.db) && Honest(w, a.log) ==> Lists(w, a.after, b, y)
    ensures Lists(w, s, Chain(a, b), x + y)
  {
    HonestConcat(w, a.log, b.log);
    hide Honest, IsDatabase;
  }

  lemma NothingListed(w: World, s: Server)
    ensures Lists(w, s, Part(Continue, [], [], s), [])
  {
    hide IsDatabase;
  }

  lemma SingleLists(w: World, search: Search, s: Server, command: Command)
    requires !command.UseDb?
    ensures Lists(w, s, Single(w, search, s, command), [])
  {
    hide Honest, IsDatabase, Bad;
  }

  lemma ReadLists(w: World, search: Search, s: Server, db: string, table: string, previous: string)
    ensures var p := ReadRun(w, search, s, db, table, previous);
            && (p.progress != Continue ==> p.rows == [])
            && (p.progress == Continue && Honest(w, p.log) ==>
                  p.after.db == previous && (s.db == db ==> p.rows == TableRows(w, search, db, table)))
  {
    var e := Sent(s, Select(table));
    var back := Sent(After(w, s, e.command), UseDb(previous));
    assert [e, back][0] == e && [e, back][1] == back;
    hide ListedColumns, Numbered;
  }

  lemma TableLists(w: World, search: Search, s: Server, db: string, table: string)
    ensures Lists(w, s, TableRun(w, search, s, db, table), TableRows(w, search, db, table))
  {
    var ask := Single(w, search, s, CurrentDb);
    var use := Single(w, search, ask.after, UseDb(db));
    var previous := FirstLineOf(Sent(s, CurrentDb).Text(w));
    var read := ReadRun(w, search, use.after, db, table, previous);
    hide LinesOf, ListedColumns, Numbered, ReadRun, TableRows;
    ReadLists(w, search, use.after, db, table, previous);
    HonestConcat(w, ask.log, use.log);
    HonestConcat(w, ask.log + use.log, read.log);
    OneHonest(w, Sent(s, CurrentDb));
    OneHonest(w, Sent(ask.after, UseDb(db)));
    NameIsRight(w, s);
    hide Honest, IsDatabase, FirstLineOf, Bad;
  }

  /** An honest answer names the current database. */
  lemma NameIsRight(w: World, s: Server)
    ensures var e := Sent(s, CurrentDb); IsDatabase(s.db) && e.CarriedOut(w) ==> FirstLineOf(e.Text(w)) == s.db
  {
    if IsDatabase(s.db) {
      DatabaseLine(s.db);
    }
    hide LinesOf, IsDatabase;
  }

  lemma {:induction false} TablesList(w: World, search: Search, s: Server, db: string, tables: seq<string>, n: nat)
    requires n <= |tables|
    ensures Lists(w, s, TablesRun(w, search, s, db, tables, n), TablesRows(w, search, db, tables, n))
  {
    hide *;
    if n == 0 {
      NothingListed(w, s);
      NoTables(w, search, s, db, tables);
    } else {
      TablesList(w, search, s, db, tables, n - 1);
      var earlier := TablesRun(w, search, s, db, tables, n - 1);
      TableLists(w, search, earlier.after, db, tables[n - 1]);
      ChainLists(w, s, earlier, TablesRows(w, search, db, tables, n - 1),
                 TableRun(w, search, earlier.after, db, tables[n - 1]), TableRows(w, search, db, tables[n - 1]));
      OneMoreTable(w, search, s, db, tables, n);
    }
  }

  lemma NoTables(w: World, search: Search, s: Server, db: string, tables: seq<string>)
    ensures TablesRun(w, search, s, db, tables, 0) == Part(Continue, [], [], s)
    ensures TablesRows(w, search, db, tables, 0) == []
  {
  }

  lemma OneMoreTable(w: World, search: Search, s: Server, db: string, tables: seq<string>, n: nat)
    requires 0 < n <= |tables|
    ensures var earlier := TablesRun(w, search, s, db, tables, n - 1);
            TablesRun(w, search, s, db, tables, n)
            == Chain(earlier, TableRun(w, search, earlier.after, db, tables[n - 1]))
    ensures TablesRows(w, search, db, tables, n)
         == TablesRows(w, search, db, tables, n - 1) + TableRows(w, search, db, tables[n - 1])
  {
    hide Chain, TableRun, TableRows;
  }

  lemma DatabaseLists(w: World, search: Search, s: Server, db: string)
    ensures Lists(w, s, DatabaseRun(w, search, s, db), DatabaseRows(w, search, s.db, db))
  {
    var ask, tables := Single(w, search, s, DbSchema(db)), ListedTables(w, search, Sent(s, DbSchema(db)).Text(w));
    SingleLists(w, search, s, DbSchema(db));
    OneHonest(w, Sent(s, DbSchema(db)));
    hide Honest, IsDatabase, TablesRun, TablesRows, ListedTables;
    if tables.Some? {
      var rest := TablesRun(w, search, ask.after, db, tables.value, |tables.value|);
      TablesList(w, search, ask.after, db, tables.value, |tables.value|);
      HonestConcat(w, ask.log, rest.log);
      ChainLists(w, s, ask, [], rest, TablesRows(w, search, db, tables.value, |tables.value|));
      NothingInFront(TablesRows(w, search, db, tables.value, |tables.value|));
    }
  }

  lemma NothingInFront<T>(rows: seq<T>)
    ensures [] + rows == rows
  {
  }

  lemma {:induction false} DatabasesList(w: World, search: Search, s: Server, dbs: seq<string>, n: nat)
    requires n <= |dbs|
    ensures Lists(w, s, DatabasesRun(w, search, s, dbs, n), DatabasesRows(w, search, s.db, dbs, n))
  {
    hide *;
    if n == 0 {
      NothingListed(w, s);
      NoDatabases(w, search, s, dbs);
    } else {
      DatabasesList(w, search, s, dbs, n - 1);
      var earlier := DatabasesRun(w, search, s, dbs, n - 1);
      DatabaseLists(w, search, earlier.after, dbs[n - 1]);
      StaysThere(w, s, earlier, DatabasesRows(w, search, s.db, dbs, n - 1));
      ChainLists(w, s, earlier, DatabasesRows(w, search, s.db, dbs, n - 1),
                 DatabaseRun(w, search, earlier.after, dbs[n - 1]), DatabaseRows(w, search, s.db, dbs[n - 1]));
      OneMoreDatabase(w, search, s, dbs, n);
    }
  }

  lemma StaysThere(w: World, s: Server, p: Part, expected: seq<ColumnRow>)
    requires Lists(w, s, p, expected)
    ensures p.progress == Continue && IsDatabase(s.db) && Honest(w, p.log) ==> p.after.db == s.db
  {
    hide IsDatabase, Honest;
  }

  lemma NoDatabases(w: World, search: Search, s: Server, dbs: seq<string>)
    ensures DatabasesRun(w, search, s, dbs, 0) == Part(Continue, [], [], s)
    ensures DatabasesRows(w, search, s.db, dbs, 0) == []
  {
  }

  lemma OneMoreDatabase(w: World, search: Search, s: Server, dbs: seq<string>, n: nat)
    requires 0 < n <= |dbs|
    ensures var earlier := DatabasesRun(w, search, s, dbs, n - 1);
            DatabasesRun(w, search, s, dbs, n) == Chain(earlier, DatabaseRun(w, search, earlier.after, dbs[n - 1]))
    ensures DatabasesRows(w, search, s.db, dbs, n)
         == DatabasesRows(w, search, s.db, dbs, n - 1) + DatabaseRows(w, search, s.db, dbs[n - 1])
  {
    hide Chain, DatabaseRun, DatabaseRows;
  }

  /** Among honest answers the listing has the first of all rows, and all of them if it comes to its end. */
  lemma ListingLists(w: World, search: Search, s: Server)
    ensures Lists(w, s, ListingRun(w, search, s), AllRows(w, search, s.db))
  {
    var ask, dbs := Single(w, search, s, ShowDbs), ListedDatabases(w, search, Sent(s, ShowDbs).Text(w));
    SingleLists(w, search, s, ShowDbs);
    OneHonest(w, Sent(s, ShowDbs));
    hide Honest, IsDatabase, DatabasesRun, DatabasesRows, ListedDatabases;
    if dbs.Some? {
      var rest := DatabasesRun(w, search, ask.after, dbs.value, |dbs.value|);
      DatabasesList(w, search, ask.after, dbs.value, |dbs.value|);
      HonestConcat(w, ask.log, rest.log);
      ChainLists(w, s, ask, [], rest, DatabasesRows(w, search, s.db, dbs.value, |dbs.value|));
      NothingInFront(DatabasesRows(w, search, s.db, dbs.value, |dbs.value|));
    }
  }

  lemma RestRows(w: World, search: Search, s: Server, previous: string, resultsOk: bool)
    requires IsDatabase(search.Start())
    ensures var rest := RestRun(w, search, s, previous, resultsOk);
            Honest(w, rest.log) ==>
              && rest.rows <= AllRows(w, search, search.Start())
              && (rest.ok && !Unanswered(w, rest.log) ==> rest.rows == AllRows(w, search, search.Start()))
  {
    var use := Single(w, search, s, UseDb(search.Start()));
    var listing := ListingRun(w, search, use.after);
    var back := Single(w, search, listing.after, UseDb(previous));
    ListingLists(w, search, use.after);
    ListingEnds(w, search, use.after);
    EndsSays(w, search, listing.progress, listing.log);
    OneHonest(w, Sent(s, UseDb(search.Start())));
    HonestConcat(w, use.log, listing.log);
    HonestConcat(w, use.log + listing.log, back.log);
    UnansweredConcat(w, use.log, listing.log);
    UnansweredConcat(w, use.log + listing.log, back.log);
    hide Honest, IsDatabase, ListingRun, AllRows, Unanswered, Ends, BrokenOff, Closed;
  }

  lemma UnansweredConcat(w: World, a: seq<Exchange>, b: seq<Exchange>)
    ensures Unanswered(w, a + b) <==> Unanswered(w, a) || Unanswered(w, b)
  {
    assert forall e <- a :: e in a + b;
    assert forall e <- b :: e in a + b;
  }

  /** Among honest answers the call has the first of all rows that are to be listed, also if a command is not answered;
      if it succeeds with all commands answered it has all rows. */
  lemma CallRows(w: World, search: Search, s: Server, resultsOk: bool)
    requires IsDatabase(search.Start()) && Honest(w, CallRun(w, search, s, resultsOk).log)
    ensures var call := CallRun(w, search, s, resultsOk);
            && call.rows <= AllRows(w, search, search.Start())
            && (call.outcome == Returned(true) && !Unanswered(w, call.log) ==>
                  call.rows == AllRows(w, search, search.Start()))
  {
    var ask := Single(w, search, Tick(s), CurrentDb);
    var previous := FirstLineOf(Sent(Tick(s), CurrentDb).Text(w));
    var rest := RestRun(w, search, ask.after, previous, resultsOk);
    RestRows(w, search, ask.after, previous, resultsOk);
    HonestConcat(w, ask.log, rest.log);
    UnansweredConcat(w, ask.log, rest.log);
    hide Honest, IsDatabase, RestRun, AllRows, Unanswered, FirstLineOf;
  }

  // ---------------------------------------------------------------------------------- the order of commands

  /** The commands at both ends: the question for the current database, the switch to the first one, the question for
      all databases once that has been accepted, and the switch back. */
  ghost predicate Ordered(w: World, search: Search, s: Server, call: Call) {
    var log := call.log;
    && (log != [] <==> w.reactions(s.clock).answered)
    && (|log| > 0 ==> log[0] == Exchange(CurrentDb, s.db, s.clock + 1))
    && (|log| == 1 <==> log != [] && (!log[0].Answered(w) || LinesOf(log[0].Text(w)).None?))
    && (|log| > 1 ==>
          log[1] == Exchange(UseDb(if search.catalog == "" then "$des" else search.catalog), s.db, s.clock + 2))
    && (|log| > 2 ==>
          && log[2].step == s.clock + 3
          && log[2].command == if log[1].Answered(w) && !w.refuses(log[1].Text(w)) then ShowDbs
                               else UseDb(FirstLineOf(log[0].Text(w))))
    && (|log| > 1 && call.outcome.Returned? ==>
          |log| > 2 && log[|log| - 1].command == UseDb(FirstLineOf(log[0].Text(w))))
  }

  lemma ListingStarts(w: World, search: Search, s: Server)
    ensures var log := ListingRun(w, search, s).log; log != [] && log[0] == Sent(s, ShowDbs)
  {
    hide Bad, ListedDatabases, DatabasesRun;
  }

  /** How the rest of the call starts and ends. */
  ghost predicate OrderedRest(w: World, search: Search, s: Server, previous: string, rest: Rest) {
    var log := rest.log;
    && |log| > 1 && log[0] == Sent(s, UseDb(search.Start()))
    && log[1].step == s.clock + 1 && log[1].command == (if Accepted(w, log[0]) then ShowDbs else UseDb(previous))
    && (!rest.thrown ==> log[|log| - 1].command == UseDb(previous)
                         && (log[|log| - 1].CarriedOut(w) ==> rest.after.db == previous))
  }

  lemma RestOrdered(w: World, search: Search, s: Server, previous: string, resultsOk: bool)
    ensures OrderedRest(w, search, s, previous, RestRun(w, search, s, previous, resultsOk))
    ensures var rest := RestRun(w, search, s, previous, resultsOk);
            !rest.thrown ==>
              (rest.ok <==> resultsOk && Accepted(w, rest.log[0]) && rest.log[|rest.log| - 1].Answered(w))
  {
    var use := Single(w, search, s, UseDb(search.Start()));
    ListingStarts(w, search, use.after);
    hide ListingRun;
  }

  /** The call starts and ends as it should. */
  lemma CallOrdered(w: World, search: Search, s: Server, resultsOk: bool)
    ensures Ordered(w, search, s, CallRun(w, search, s, resultsOk))
  {
    var ask := Single(w, search, Tick(s), CurrentDb);
    var previous := FirstLineOf(Sent(Tick(s), CurrentDb).Text(w));
    RestOrdered(w, search, ask.after, previous, resultsOk);
    hide RestRun, LinesOf, FirstLineOf;
  }

  /** The question for the current database, the switch and the last switch have been answered. */
  predicate Succeeds(w: World, log: seq<Exchange>) {
    |log| > 2 && log[0].Answered(w) && log[1].Answered(w) && !w.refuses(log[1].Text(w)) && log[|log| - 1].Answered(w)
  }

  /** The call succeeds if and only if it does not throw, the three commands around the listing and the release of the
      mutex succeed, and the results are good: whatever happens to the commands of the listing. */
  lemma CallSucceedsIff(w: World, search: Search, s: Server, resultsOk: bool)
    ensures var call := CallRun(w, search, s, resultsOk);
            call.outcome == Returned(true) <==>
              && call.outcome.Returned? && resultsOk && Succeeds(w, call.log)
              && call.after.clock > 0 && w.reactions(call.after.clock - 1).answered
  {
    var ask := Single(w, search, Tick(s), CurrentDb);
    var previous := FirstLineOf(Sent(Tick(s), CurrentDb).Text(w));
    RestOrdered(w, search, ask.after, previous, resultsOk);
    hide RestRun, LinesOf, FirstLineOf;
  }

  /** The call has asked for its database and got the name right, and the last switch, back to it, is carried out. */
  predicate Restores(w: World, db: string, log: seq<Exchange>) {
    |log| > 1 && IsDatabase(db) && log[0].CarriedOut(w) && log[|log| - 1].CarriedOut(w)
  }

  /** A call that returns leaves the server where it was if it did not get as far as a switch, or got the name of the
      database rightly and the last switch is carried out. */
  lemma CallRestores(w: World, search: Search, s: Server, resultsOk: bool)
    ensures var call := CallRun(w, search, s, resultsOk);
            call.outcome.Returned? && (|call.log| <= 1 || Restores(w, s.db, call.log)) ==> call.after.db == s.db
  {
    var ask := Single(w, search, Tick(s), CurrentDb);
    var previous := FirstLineOf(Sent(Tick(s), CurrentDb).Text(w));
    RestOrdered(w, search, ask.after, previous, resultsOk);
    if IsDatabase(s.db) {
      DatabaseLine(s.db);
    }
    hide RestRun, LinesOf, IsDatabase;
  }

  // ---------------------------------------------------------------------------------- sessions that go wrong

  /** The session gets as far as the question for all databases, and the switch back and the release go well. */
  ghost predicate GetsToTheList(w: World, search: Search, s: Server) {
    && IsDatabase(s.db) && w.reactions(s.clock).answered && w.reactions(s.clock + 1).answered
    && w.reactions(s.clock + 2).answered && w.reactions(s.clock + 1).carriedOut
    && !w.refuses(Exchange(UseDb(search.Start()), s.db, s.clock + 2).Text(w))
  }

  lemma FirstSteps(w: World, search: Search, s: Server, resultsOk: bool)
    requires GetsToTheList(w, search, s)
    ensures var listing := ListingRun(w, search, After(w, Server(s.db, s.clock + 2), UseDb(search.Start())));
            var call := CallRun(w, search, s, resultsOk);
            var back := Single(w, search, listing.after, UseDb(s.db));
            && (listing.progress == Threw ==> call.outcome.Thrown?)
            && (listing.progress != Threw ==>
                  && call.rows == listing.rows
                  && call.outcome == Returned(resultsOk && back.progress == Continue
                                              && w.reactions(back.after.clock).answered))
  {
    DatabaseLine(s.db);
    SecondSteps(w, search, Server(s.db, s.clock + 2), s.db, resultsOk);
    hide RestRun, ListingRun, IsDatabase, LinesOf;
  }

  lemma SecondSteps(w: World, search: Search, s: Server, previous: string, resultsOk: bool)
    requires Accepted(w, Sent(s, UseDb(search.Start())))
    ensures var listing := ListingRun(w, search, After(w, s, UseDb(search.Start())));
            var rest := RestRun(w, search, s, previous, resultsOk);
            var back := Single(w, search, listing.after, UseDb(previous));
            && rest.thrown == (listing.progress == Threw) && rest.rows == listing.rows
            && (!rest.thrown ==> rest.ok == (resultsOk && back.progress == Continue) && rest.after == back.after)
  {
    hide ListingRun;
  }

  /** When the question for all databases is not answered, but everything else is, the call succeeds without a row. */
  lemma UnansweredListing(w: World, search: Search, s: Server)
    requires GetsToTheList(w, search, s) && !w.reactions(s.clock + 3).answered
    requires w.reactions(s.clock + 4).answered && w.reactions(s.clock + 5).answered
    ensures CallRun(w, search, s, true).outcome == Returned(true) && CallRun(w, search, s, true).rows == []
  {
    FirstSteps(w, search, s, true);
    var after := After(w, Server(s.db, s.clock + 2), UseDb(search.Start()));
    assert ListingRun(w, search, after).progress == EarlyReturn && ListingRun(w, search, after).rows == []
           && ListingRun(w, search, after).after.clock == s.clock + 4 by {
      hide Bad, ListedDatabases, DatabasesRun;
    }
    hide CallRun, ListingRun, GetsToTheList;
  }

  /** A lone backslash for the tables makes the call throw as soon as one database is listed and its description
      arrives. */
  lemma LoneBackslashThrows(w: World, search: Search, s: Server, resultsOk: bool, dbs: seq<string>)
    requires search.table == "\\" && !search.metadataId
    requires GetsToTheList(w, search, s) && w.reactions(s.clock + 3).answered && w.reactions(s.clock + 4).answered
    requires var after := After(w, Server(s.db, s.clock + 2), UseDb(search.Start()));
             ListedDatabases(w, search, Sent(after, ShowDbs).Text(w)) == Some(dbs) && dbs != []
    ensures CallRun(w, search, s, resultsOk).outcome.Thrown?
  {
    var after := After(w, Server(s.db, s.clock + 2), UseDb(search.Start()));
    assert after.clock == s.clock + 3;
    hide *;
    FirstSteps(w, search, s, resultsOk);
    BackslashEndsListing(w, search, after, dbs);
  }

  lemma BackslashEndsListing(w: World, search: Search, s: Server, dbs: seq<string>)
    requires search.table == "\\" && !search.metadataId
    requires w.reactions(s.clock).answered && w.reactions(s.clock + 1).answered
    requires ListedDatabases(w, search, Sent(s, ShowDbs).Text(w)) == Some(dbs) && dbs != []
    ensures ListingRun(w, search, s).progress == Threw
  {
    var ask := Single(w, search, s, ShowDbs);
    BackslashEndsDatabase(w, search, ask.after, dbs[0]);
    OneDatabase(w, search, ask.after, dbs);
    StaysThrown(w, search, ask.after, dbs, 1, |dbs|);
    hide ListedDatabases, DatabasesRun;
  }

  lemma OneDatabase(w: World, search: Search, s: Server, dbs: seq<string>)
    requires dbs != []
    ensures DatabasesRun(w, search, s, dbs, 1).progress == DatabaseRun(w, search, s, dbs[0]).progress
  {
    assert DatabasesRun(w, search, s, dbs, 0) == Part(Continue, [], [], s);
    hide DatabaseRun;
  }

  lemma BackslashEndsDatabase(w: World, search: Search, s: Server, db: string)
    requires search.table == "\\" && !search.metadataId && w.reactions(s.clock).answered
    ensures DatabaseRun(w, search, s, db).progress == Threw
  {
    FilterThrows([], search.table, search.metadataId, w.library);
    BadWhen(w, search, Sent(s, DbSchema(db)));
    assert Dangles("\\", 0);
    hide Refused, Relations, Candidates;
  }

  lemma {:induction false} StaysThrown(w: World, search: Search, s: Server, dbs: seq<string>, m: nat, n: nat)
    requires m <= n <= |dbs| && DatabasesRun(w, search, s, dbs, m).progress == Threw
    ensures DatabasesRun(w, search, s, dbs, n).progress == Threw
  {
    hide DatabaseRun;
    if n > m {
      StaysThrown(w, search, s, dbs, m, n - 1);
    }
  }
}
