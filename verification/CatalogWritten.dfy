/** The listing of a server that writes its answers in its own layout: from the stored tables to the rows that an
    application gets. */
module CatalogWritten {
  import opened Options
  import opened TapiText
  import opened TypeNames
  import opened Pattern
  import opened Schema
  import opened Answer
  import opened Catalog
  import opened CatalogRuns
  import opened CatalogSession
  import A = AnswerRoundTrip
  import S = SchemaRoundTrip

  /** A table as it is stored. */
  datatype Stored = Stored(specs: seq<ColumnSpec>, rows: seq<seq<A.Value>>)

  /** It can be written and described: column names are distinct, and there is no null among floats. */
  predicate Presentable(t: Stored) {
    && A.IsTable(t.specs, t.rows) && Distinct(Names(t.specs))
    && forall k, row :: 0 <= k < |t.specs| && row in t.rows && t.specs[k].typ.simpleType == FloatType && k < |row| ==>
         row[k] != A.Null
  }

  /** What the server holds: its databases, their relations, and the tables. */
  datatype Store = Store(dbs: seq<string>, schema: string -> seq<S.Relation>, table: (string, string) -> Stored)

  predicate HasTable(store: Store, db: string, name: string) {
    exists rel <- store.schema(db) :: !rel.View? && rel.name == name
  }

  ghost predicate WritesList(w: World, store: Store, current: string) {
    && w.answers(ShowDbs, current) == TextOf(store.dbs + ["$eot"])
    && forall db <- store.dbs :: IsDatabase(db) && db != "$eot"
  }

  ghost predicate WritesSchema(w: World, store: Store, current: string, db: string) {
    && S.AreRelations(store.schema(db)) && S.DistinctNames(store.schema(db))
    && w.answers(DbSchema(db), current) == TextOf(S.SchemaLines(store.schema(db)))
  }

  ghost predicate WritesTable(w: World, store: Store, db: string, name: string) {
    var t := store.table(db, name);
    Presentable(t) && w.answers(Select(name), db) == TextOf(A.TableLines(t.specs, t.rows))
  }

  /** The server answers from what it holds. */
  ghost predicate Writes(w: World, store: Store, current: string) {
    && WritesList(w, store, current)
    && (forall db <- store.dbs :: WritesSchema(w, store, current, db))
    && (forall db <- store.dbs, name: string :: HasTable(store, db, name) ==> WritesTable(w, store, db, name))
  }

  // ---------------------------------------------------------------------------------- the three kinds of answers

  lemma ListComesBack(store: Store)
    requires forall db <- store.dbs :: IsDatabase(db) && db != END_OF_TEXT
    ensures LinesOf(TextOf(store.dbs + [END_OF_TEXT])) == Some(store.dbs + [END_OF_TEXT])
  {
    var lines := store.dbs + [END_OF_TEXT];
    assert lines[0] == if store.dbs == [] then END_OF_TEXT else store.dbs[0];
    assert IsLine(END_OF_TEXT) && END_OF_TEXT[0] == '$';
    forall line | line in lines ensures IsLine(line) {
      assert line in store.dbs || line == END_OF_TEXT;
    }
    assert store.dbs != [] ==> IsDatabase(store.dbs[0]);
    hide LinesOf, TextOf, IsLine;
    LinesComeBack(lines);
  }

  lemma TableAt(store: Store, db: string, name: string)
    ensures HasTable(store, db, name) <==>
              exists k :: 0 <= k < |store.schema(db)| && !store.schema(db)[k].View? && store.schema(db)[k].name == name
  {
  }

  lemma TableInfo(rel: S.Relation)
    ensures S.InfoFor(rel).isTable <==> !rel.View?
  {
  }

  /** The tables of the description are the tables of the database. */
  lemma TablesOfSchema(store: Store, db: string, name: string)
    requires S.AreRelations(store.schema(db)) && S.DistinctNames(store.schema(db))
    ensures var relations := Relations(TextOf(S.SchemaLines(store.schema(db))));
            relations.Some? && (name in relations.value && relations.value[name].isTable <==> HasTable(store, db, name))
  {
    var rels := store.schema(db);
    S.SchemaComesBack(rels);
    TableAt(store, db, name);
    forall k | 0 <= k < |rels| ensures S.InfoFor(rels[k]).isTable <==> !rels[k].View? {
      TableInfo(rels[k]);
    }
    hide LinesOf, TextOf, S.SchemaLines, AllRelations, S.AreRelations, S.Gathered, S.InfoFor, HasTable;
    SameName(rels);
    hide S.DistinctNames;
  }

  lemma SameName(rels: seq<S.Relation>)
    requires S.DistinctNames(rels)
    ensures forall i, j :: 0 <= i < |rels| && 0 <= j < |rels| && rels[i].name == rels[j].name ==> i == j
  {
  }

  lemma ColumnIsDescribable(t: Stored, k: nat)
    requires Presentable(t) && k < |t.specs|
    ensures var meant := A.MeaningOf(t.rows);
            Rectangular(meant, |t.specs|) && t.specs[k].name in Filled(t.specs, meant)
            && Describable(Filled(t.specs, meant)[t.specs[k].name])
  {
    A.ColumnsHoldRows(t.specs, t.rows, k);
    hide Filled, Rectangular, A.MeaningOf;
    forall r | 0 <= r < |t.rows| ensures t.rows[r] in t.rows {}
  }

  lemma AllAreDescribable(t: Stored, meant: seq<seq<Option<string>>>, listed: seq<string>)
    requires Presentable(t) && (meant == A.MeaningOf(t.rows) || meant == [])
    requires forall name <- listed :: name in Names(t.specs)
    ensures Rectangular(meant, |t.specs|) && AllDescribable(Filled(t.specs, meant), listed)
  {
    var shown := if meant == [] then Stored(t.specs, []) else t;
    assert Presentable(shown) && A.MeaningOf(shown.rows) == meant;
    assert |t.specs| > 0;
    ColumnIsDescribable(shown, 0);
    hide Presentable, Filled, A.MeaningOf, Rectangular, Describable;
    forall name | name in listed ensures name in Filled(t.specs, meant) ==> Describable(Filled(t.specs, meant)[name]) {
      var k :| 0 <= k < |t.specs| && Names(t.specs)[k] == name;
      ColumnIsDescribable(shown, k);
    }
  }

  /** What the answer with a table is read as. */
  lemma TableIsBuilt(t: Stored) returns (meant: seq<seq<Option<string>>>)
    requires Presentable(t)
    ensures meant == A.MeaningOf(t.rows) || meant == []
    ensures Rectangular(meant, |t.specs|)
    ensures var text := TextOf(A.TableLines(t.specs, t.rows));
            ParseText(text).Some? && Built(text) == (Names(t.specs), Filled(t.specs, meant))
  {
    A.TableComesBack(t.specs, t.rows);
    meant := if t.rows == [] || A.Shown(t.rows[0][0]) == END_OF_TEXT then [] else A.MeaningOf(t.rows);
    AllAreDescribable(t, meant, []);
    hide TextOf, A.TableLines, ParseText, Presentable, Names, Filled, Rectangular, A.MeaningOf;
  }

  /** The columns that are listed of a table are those that the column argument names. */
  lemma ColumnsOfTable(w: World, search: Search, t: Stored)
    requires Presentable(t)
    ensures ListedColumns(w, search, TextOf(A.TableLines(t.specs, t.rows)))
         == Candidates(Names(t.specs), search.column, search.metadataId, w.library)
  {
    var meant := TableIsBuilt(t);
    var listed := Candidates(Names(t.specs), search.column, search.metadataId, w.library);
    hide TextOf, A.TableLines, ParseText, Built, Presentable, Filled, Rectangular, A.MeaningOf, Candidates, AllDescribable,
      Names;
    if listed.Some? {
      forall name | name in listed.value ensures name in Names(t.specs) {
        FilterInside(Names(t.specs), search.column, search.metadataId, w.library, name);
      }
      AllAreDescribable(t, meant, listed.value);
    }
  }

  // ---------------------------------------------------------------------------------- the listing

  /** A server that answers from what it holds gets listed exactly: a row for every column that is asked for, of every
      table that is asked for, of every database that is asked for, with its place among these columns. */
  lemma WrittenListing(w: World, search: Search, store: Store, current: string, r: ColumnRow)
    requires Proper(w, search) && Writes(w, store, current)
    ensures r in AllRows(w, search, current) <==>
              && r.db in store.dbs && Fits(search.catalog, search.metadataId, r.db)
              && HasTable(store, r.db, r.table) && Fits(search.table, search.metadataId, r.table)
              && var names := Candidates(Names(store.table(r.db, r.table).specs), search.column, search.metadataId,
                                         w.library);
              names.Some? && 1 <= r.position <= |names.value| && r.column == names.value[r.position - 1]
  {
    ListingHolds(w, search, current, r);
    ListedMatches(w, search, w.answers(ShowDbs, current), r.db);
    ListComesBack(store);
    if r.db in store.dbs {
      assert WritesSchema(w, store, current, r.db);
      ListedMatches(w, search, w.answers(DbSchema(r.db), current), r.table);
      TablesOfSchema(store, r.db, r.table);
      if HasTable(store, r.db, r.table) {
        assert WritesTable(w, store, r.db, r.table);
        ColumnsOfTable(w, search, store.table(r.db, r.table));
      }
    }
    hide AllRows, ListedDatabases, ListedTables, ListedColumns, LinesOf, TextOf, Fits, Candidates, Names, Presentable,
      HasTable, S.SchemaLines, A.TableLines, S.AreRelations, S.DistinctNames, Relations, IsDatabase, Proper;
  }

  // ---------------------------------------------------------------------------------- sessions

  /** One database with one table with one column. */
  const SAMPLE_RELATIONS := [S.PlainTable("t", [])]
  const SAMPLE_TABLE := Stored([ColumnSpec("t", "a", TypeAndLength(IntType, 19))], [])
  const SAMPLE := Store([DEFAULT_DATABASE], (_: string) => SAMPLE_RELATIONS, (_: string, _: string) => SAMPLE_TABLE)

  /** A server that holds that, and answers and carries out everything except at one step, where no answer arrives. */
  function SampleWorld(silent: nat): World {
    World((k: nat) => Reaction(k != silent, true, ""), SampleAnswer, (_: string) => false,
          (names: set<string>) => if "t" in names then ["t"] else [], (_: string) => None)
  }

  function SampleAnswer(command: Command, db: string): string {
    match command
    case ShowDbs => TextOf(SAMPLE.dbs + ["$eot"])
    case DbSchema(_) => TextOf(S.SchemaLines(SAMPLE_RELATIONS))
    case Select(_) => TextOf(A.TableLines(SAMPLE_TABLE.specs, SAMPLE_TABLE.rows))
    case _ => ""
  }

  const EVERYTHING := Search("", "", "", false)

  lemma SampleIsFine()
    ensures IsDatabase(DEFAULT_DATABASE) && DEFAULT_DATABASE != END_OF_TEXT && Presentable(SAMPLE_TABLE)
    ensures S.AreRelations(SAMPLE_RELATIONS) && S.DistinctNames(SAMPLE_RELATIONS)
    ensures HasTable(SAMPLE, DEFAULT_DATABASE, "t")
  {
    assert SAMPLE_RELATIONS[0] in SAMPLE.schema(DEFAULT_DATABASE);
    hide HasTable;
    assert S.IsRelation(SAMPLE_RELATIONS[0]);
    assert A.IsSpec(SAMPLE_TABLE.specs[0]);
  }

  lemma SampleDatabases(w: World, search: Search)
    requires search.catalog == ""
    ensures ListedDatabases(w, search, TextOf(SAMPLE.dbs + [END_OF_TEXT])) == Some(SAMPLE.dbs)
  {
    SampleIsFine();
    ListComesBack(SAMPLE);
    var lines := SAMPLE.dbs + [END_OF_TEXT];
    assert lines[..1] == SAMPLE.dbs && SAMPLE.dbs[..0] == [];
    assert WithoutEnd(SAMPLE.dbs[..0]) == [];
    assert WithoutEnd(SAMPLE.dbs) == SAMPLE.dbs;
    assert WithoutEnd(lines) == SAMPLE.dbs;
    hide LinesOf, TextOf, WithoutEnd, IsDatabase, Presentable, HasTable;
  }

  lemma SampleTables(w: World)
    requires forall names: set<string> | "t" in names :: w.ordered(names) == ["t"]
    ensures ListedTables(w, EVERYTHING, TextOf(S.SchemaLines(SAMPLE_RELATIONS))) == Some(["t"])
  {
    SampleIsFine();
    TablesOfSchema(SAMPLE, DEFAULT_DATABASE, "t");
    hide Relations, TextOf, S.SchemaLines, Presentable, HasTable, IsDatabase;
  }

  lemma SampleColumns(w: World)
    ensures ListedColumns(w, EVERYTHING, TextOf(A.TableLines(SAMPLE_TABLE.specs, SAMPLE_TABLE.rows))) == Some(["a"])
  {
    SampleIsFine();
    ColumnsOfTable(w, EVERYTHING, SAMPLE_TABLE);
    assert Names(SAMPLE_TABLE.specs) == ["a"];
    hide ListedColumns, TextOf, A.TableLines, Presentable, HasTable, IsDatabase;
  }

  lemma OneRow(w: World, search: Search, current: string, r: ColumnRow)
    requires ListedDatabases(w, search, w.answers(ShowDbs, current)) == Some([r.db])
    requires ListedTables(w, search, w.answers(DbSchema(r.db), current)) == Some([r.table])
    requires ListedColumns(w, search, w.answers(Select(r.table), r.db)) == Some([r.column]) && r.position == 1
    ensures r in AllRows(w, search, current)
  {
    ListingHolds(w, search, current, r);
    hide AllRows, ListedDatabases, ListedTables, ListedColumns;
  }

  lemma SampleAnswers(silent: nat, db: string, table: string)
    ensures var w := SampleWorld(silent);
            && w.answers(ShowDbs, db) == TextOf(SAMPLE.dbs + [END_OF_TEXT])
            && w.answers(DbSchema(db), db) == TextOf(S.SchemaLines(SAMPLE_RELATIONS))
            && w.answers(Select(table), db) == TextOf(A.TableLines(SAMPLE_TABLE.specs, SAMPLE_TABLE.rows))
  {
    hide TextOf, S.SchemaLines, A.TableLines;
  }

  /** The sample has a row to be listed. */
  lemma SampleIsListed(silent: nat)
    ensures ColumnRow(DEFAULT_DATABASE, "t", "a", 1) in AllRows(SampleWorld(silent), EVERYTHING, DEFAULT_DATABASE)
  {
    hide *;
    var w := SampleWorld(silent);
    EverythingIsAsked();
    SampleDatabases(w, EVERYTHING);
    SampleOrder(silent);
    SampleTables(w);
    SampleColumns(w);
    SampleAnswers(silent, DEFAULT_DATABASE, "t");
    OneRow(w, EVERYTHING, DEFAULT_DATABASE, ColumnRow(DEFAULT_DATABASE, "t", "a", 1));
  }

  lemma EverythingIsAsked()
    ensures EVERYTHING.catalog == "" && SAMPLE.dbs == [DEFAULT_DATABASE]
  {
  }

  lemma SampleOrder(silent: nat)
    ensures forall names: set<string> | "t" in names :: SampleWorld(silent).ordered(names) == ["t"]
  {
  }

  /** A session in which the question for all databases is not answered: the call reports success without any row,
      though there are rows to be listed. */
  method ShortListing() returns (c: Connection, outcome: Outcome, rows: seq<ColumnRow>)
    ensures outcome == Returned(true) && rows == [] && AllRows(c.world, EVERYTHING, DEFAULT_DATABASE) != []
    ensures c.acquired == c.released == 1
  {
    SampleIsFine();
    SampleIsListed(3);
    var world := SampleWorld(3);
    c := new Connection(DEFAULT_DATABASE, world);
    UnansweredListing(world, EVERYTHING, c.Here());
    hide AllRows, CallRun, IsDatabase, SampleAnswer, BrokenOff;
    outcome, rows := c.SQLColumns(EVERYTHING, true);
  }

  lemma SampleThrows(search: Search)
    requires search.catalog == "" && search.table == "\\" && !search.metadataId
    ensures CallRun(SampleWorld(0x100), search, Server(DEFAULT_DATABASE, 0), true).outcome.Thrown?
  {
    var w, s := SampleWorld(0x100), Server(DEFAULT_DATABASE, 0);
    SampleIsFine();
    SampleDatabases(w, search);
    SampleAnswers(0x100, DEFAULT_DATABASE, "t");
    hide CallRun, IsDatabase, ListedDatabases, TextOf, Presentable, HasTable, SampleAnswer, S.SchemaLines, A.TableLines;
    LoneBackslashThrows(w, search, s, true, SAMPLE.dbs);
  }

  /** A session with a lone backslash for the tables: the mutex is kept. */
  method LoneBackslash() returns (c: Connection, outcome: Outcome)
    ensures outcome.Thrown? && c.acquired == 1 && c.released == 0
  {
    var world := SampleWorld(0x100);
    var search := Search("", "\\", "", false);
    c := new Connection(DEFAULT_DATABASE, world);
    SampleThrows(search);
    hide CallRun, BrokenOff;
    var rows;
    outcome, rows := c.SQLColumns(search, true);
  }

  /** A session in which every answer is blank: the mutex is kept. */
  method BlankAnswers() returns (c: Connection, outcome: Outcome)
    ensures outcome.Thrown? && c.acquired == 1 && c.released == 0
  {
    var world := World((_: nat) => Reaction(true, false, ""), (_, _) => "", _ => false, _ => [], _ => None);
    c := new Connection(DEFAULT_DATABASE, world);
    var rows;
    outcome, rows := c.SQLColumns(EVERYTHING, true);
  }
}
