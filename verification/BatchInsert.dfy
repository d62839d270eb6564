/** Inserting many rows: the tuples are put into as few statements as the room allows. */
module BatchInsert {
  import opened Options
  import opened TempBuffers
  import Numbers

  /** A bound value: its text, if it can be rendered, and the length that is bound with it. */
  datatype Cell = Cell(text: Option<string>, octetLength: int)

  // ---------------------------------------------------------------------------------- what a row becomes

  /** A text without the zero bytes at its end. */
  function Trimmed(s: string): (t: string)
    ensures t <= s && (t != "" ==> t[|t| - 1] != '\0') && forall k :: |t| <= k < |s| ==> s[k] == '\0'
  {
    if s != "" && s[|s| - 1] == '\0' then Trimmed(s[..|s| - 1]) else s
  }

  function ValueOf(cell: Cell): string {
    if cell.text.Some? then Trimmed(cell.text.value) else ""
  }

  /** A row of two values, and two rows of them. */
  lemma TuplesLookLike(a: string, b: string, c: string, d: string)
    requires forall s <- [a, b, c, d] :: s != "" ==> s[|s| - 1] != '\0'
    ensures var row, next := [Cell(Some(a), 0), Cell(Some(b), 0)], [Cell(Some(c), 0), Cell(Some(d), 0)];
            && Tuple(row) == "(" + a + "," + b + ")"
            && Tuples([row, next], 0, 2) == "(" + a + "," + b + "),(" + c + "," + d + ")"
  {
    TwoValues(a, b);
    TwoValues(c, d);
    var row, next := [Cell(Some(a), 0), Cell(Some(b), 0)], [Cell(Some(c), 0), Cell(Some(d), 0)];
    hide Tuple;
    TwoTuples(row, next);
    hide *;
    Between("(" + a + "," + b, c, d);
  }

  lemma Between(x: string, c: string, d: string)
    ensures x + ")" + "," + ("(" + c + "," + d + ")") == x + "),(" + c + "," + d + ")"
  {
    assert x + ")" + "," + ("(" + c + "," + d + ")") == x + (")" + "," + "(") + (c + "," + d + ")");
    assert x + "),(" + c + "," + d + ")" == x + "),(" + (c + "," + d + ")");
    assert ")" + "," + "(" == "),(";
  }

  lemma TwoTuples(row: seq<Cell>, next: seq<Cell>)
    ensures Tuples([row, next], 0, 2) == Tuple(row) + "," + Tuple(next)
  {
    hide Tuple;
    assert Tuples([row, next], 0, 1) == Tuple(row);
  }

  lemma TwoValues(a: string, b: string)
    requires forall s <- [a, b] :: s != "" ==> s[|s| - 1] != '\0'
    ensures Tuple([Cell(Some(a), 0), Cell(Some(b), 0)]) == "(" + a + "," + b + ")"
  {
    var row := [Cell(Some(a), 0), Cell(Some(b), 0)];
    assert [a, b][0] == a && [a, b][1] == b;
    assert ValueOf(row[0]) == a && ValueOf(row[1]) == b;
    hide ValueOf;
    assert Joined(row, 1) == a;
    assert Joined(row, 2) == a + "," + b;
    hide Joined;
    assert "(" + (a + "," + b) + ")" == "(" + a + "," + b + ")";
  }

  predicate IsRow(row: seq<Cell>) {
    row != [] && forall cell <- row :: cell.text.Some?
  }

  /** The first n values, with a comma behind each. */
  function Values(row: seq<Cell>, n: nat): string
    requires n <= |row|
  {
    if n == 0 then ""
    else Values(row, n - 1) + ValueOf(row[n - 1]) + ","
  }

  /** The first n values, separated by commas. */
  function Joined(row: seq<Cell>, n: nat): string
    requires n <= |row|
  {
    if n == 0 then ""
    else if n == 1 then ValueOf(row[0])
    else Joined(row, n - 1) + "," + ValueOf(row[n - 1])
  }

  function Tuple(row: seq<Cell>): string {
    "(" + Joined(row, |row|) + ")"
  }

  lemma {:induction false} ValuesAreJoined(row: seq<Cell>, n: nat)
    requires 0 < n <= |row|
    ensures Values(row, n) == Joined(row, n) + ","
  {
    if n > 1 {
      ValuesAreJoined(row, n - 1);
    } else {
      assert Values(row, 0) == "";
    }
  }

  /** The tuples of rows i to j, separated by commas. */
  function Tuples(rows: seq<seq<Cell>>, i: nat, j: nat): string
    requires i < j <= |rows|
    decreases j
  {
    if j == i + 1 then Tuple(rows[i]) else Tuples(rows, i, j - 1) + "," + Tuple(rows[j - 1])
  }

  // ---------------------------------------------------------------------------------- what the statements hold

  /** The last statement has the prefix and the tuples of rows i to j, at least one. */
  ghost predicate EndsInBatch(prefix: string, rows: seq<seq<Cell>>, sent: seq<string>, i: nat, j: nat) {
    sent != [] && i < j <= |rows| && sent[|sent| - 1] == prefix + Tuples(rows, i, j)
  }

  /** The statements hold the tuples of the first n rows, in order and each once. */
  ghost predicate Batches(prefix: string, rows: seq<seq<Cell>>, sent: seq<string>, n: nat) {
    if sent == [] then n == 0
    else exists i: nat :: EndsInBatch(prefix, rows, sent, i, n) && Batches(prefix, rows, sent[..|sent| - 1], i)
  }

  /** The statement with the tuples of rows i to j and a comma, and the values of the last row once more, are longer
      than the buffer. */
  predicate FillsRoom(query: string, rows: seq<seq<Cell>>, i: nat, j: nat, room: nat)
    requires i < j <= |rows|
  {
    |query + Tuples(rows, i, j) + ","| + |Tuple(rows[j - 1])| - 1 >= room
  }

  /** Room is never taken back. */
  lemma RoomLeft(query: string, rows: seq<seq<Cell>>, i: nat, j: nat, before: nat, after: nat)
    requires i < j <= |rows| && before <= after
    requires forall k :: i < k < j ==> !FillsRoom(query, rows, i, k, before)
    ensures forall k :: i < k < j ==> !FillsRoom(query, rows, i, k, after)
  {
    hide Tuples, Tuple;
    forall k | i < k < j ensures !FillsRoom(query, rows, i, k, after) {
      assert !FillsRoom(query, rows, i, k, before);
    }
  }

  class Inserter {
    const buffer: TempBuffer

    constructor ()
      ensures fresh(buffer) && fresh(buffer.buf) && buffer.Valid() && buffer.Contents() == ""
    {
      buffer := new TempBuffer(16384);
    }

    /** Append one value and a comma. Zero bytes at the end of the value are dropped. */
    method CopyRowData(cell: Cell) returns (ok: bool)
      requires buffer.Valid()
      requires buffer.Contents() != "" ==> buffer.Contents()[|buffer.Contents()| - 1] == ','
      modifies buffer, buffer.buf
      ensures buffer.Valid() && (buffer.buf == old(buffer.buf) || fresh(buffer.buf))
      ensures buffer.buf.Length >= old(buffer.buf.Length)
      ensures ok <==> cell.text.Some?
      ensures ok ==> buffer.Contents() == old(buffer.Contents()) + Trimmed(cell.text.value) + ","
    {
      buffer.ExtendBuffer(if cell.octetLength > 0 then cell.octetLength + 1 else 7);
      if cell.text.None? {
        return false;
      }
      ghost var before := buffer.Contents();
      buffer.AddToBuffer(cell.text.value);
      ghost var full := buffer.Contents();
      buffer.RemoveTrailZeroes();
      TrimBehind(before, cell.text.value, buffer.Contents());
      buffer.AddToBuffer(",");
      ok := true;
    }

    /** Put the values of a row into the buffer. */
    method CopyRow(row: seq<Cell>) returns (ok: bool)
      requires buffer.Valid() && buffer.Contents() == ""
      modifies buffer, buffer.buf
      ensures buffer.Valid() && (buffer.buf == old(buffer.buf) || fresh(buffer.buf))
      ensures buffer.buf.Length >= old(buffer.buf.Length)
      ensures ok <==> forall cell <- row :: cell.text.Some?
      ensures ok ==> buffer.Contents() == Values(row, |row|)
    {
      ValuesStart(row);
      hide Values;
      for ncol := 0 to |row|
        invariant buffer.Valid() && (buffer.buf == old(buffer.buf) || fresh(buffer.buf))
        invariant buffer.buf.Length >= old(buffer.buf.Length)
        invariant buffer.Contents() == Values(row, ncol) && forall k :: 0 <= k < ncol ==> row[k].text.Some?
      {
        if buffer.Contents() != "" {
          ValuesEnd(row, ncol);
        }
        var copied := CopyRowData(row[ncol]);
        ValuesMore(row, ncol);
        if !copied {
          assert row[ncol] in row;
          return false;
        }
      }
      ok := true;
    }

    /** Append the tuple of one row and a comma. The buffer is used for the values and left empty. */
    method AppendRow(row: seq<Cell>, query: string) returns (ok: bool, newQuery: string, length: nat)
      requires buffer.Valid() && buffer.Contents() == "" && row != []
      modifies buffer, buffer.buf
      ensures buffer.Valid() && (buffer.buf == old(buffer.buf) || fresh(buffer.buf))
      ensures buffer.buf.Length >= old(buffer.buf.Length)
      ensures ok <==> IsRow(row)
      ensures ok ==> newQuery == query + Tuple(row) + "," && buffer.Contents() == "" && length == |Tuple(row)| - 1
    {
      newQuery, length := query + "(", 0;
      ok := CopyRow(row);
      if !ok {
        return;
      }
      OneTuple(query, row);
      hide Values, Tuple;
      length := buffer.curPos;
      assert buffer.buf[..length - 1] == Values(row, |row|)[..length - 1];
      newQuery := newQuery + buffer.buf[..length - 1] + "),";
      buffer.Reset();
    }

    /** Append tuples to a statement until all rows are in it or the room is used up. */
    method AppendRows(rows: seq<seq<Cell>>, start: nat, insertCount: nat, query: string)
      returns (ok: bool, count: nat, newQuery: string, breakInsert: bool)
      requires buffer.Valid() && buffer.Contents() == "" && start < insertCount <= |rows| && AreRows(rows)
      modifies buffer, buffer.buf
      ensures buffer.Valid() && (buffer.buf == old(buffer.buf) || fresh(buffer.buf))
      ensures !ok ==> start <= count < insertCount && !IsRow(rows[count])
      ensures ok ==> start < count <= insertCount && newQuery == query + Tuples(rows, start, count) + ","
      ensures ok ==> buffer.Contents() == "" && (breakInsert || count == insertCount)
      ensures ok ==> forall k :: start <= k < count ==> IsRow(rows[k])
      ensures ok ==> (breakInsert <==> FillsRoom(query, rows, start, count, buffer.buf.Length))
      ensures ok ==> forall k :: start < k < count ==> !FillsRoom(query, rows, start, k, buffer.buf.Length)
    {
      count, newQuery, breakInsert, ok := start, query, false, true;
      hide Tuple, Tuples, IsRow;
      while count < insertCount && !breakInsert
        invariant start <= count <= insertCount && buffer.Valid() && buffer.Contents() == ""
        invariant buffer.buf == old(buffer.buf) || fresh(buffer.buf)
        invariant count == start ==> newQuery == query && !breakInsert
        invariant count > start ==> newQuery == query + Tuples(rows, start, count) + ","
        invariant forall k :: start <= k < count ==> IsRow(rows[k])
        invariant count > start ==> (breakInsert <==> FillsRoom(query, rows, start, count, buffer.buf.Length))
        invariant forall k :: start < k < count ==> !FillsRoom(query, rows, start, k, buffer.buf.Length)
        decreases insertCount - count, !breakInsert
      {
        assert rows[count] in rows;
        ghost var was := buffer.buf.Length;
        var length;
        ok, newQuery, length := AppendRow(rows[count], newQuery);
        if !ok {
          return;
        }
        if count == start {
          FirstTuple(query, rows, start);
        } else {
          NextTuple(query, rows, start, count);
        }
        count := count + 1;
        RoomLeft(query, rows, start, count, was, buffer.buf.Length);
        if |newQuery| + length >= buffer.buf.Length {
          breakInsert := true;
        }
      }
    }

    /** Insert one row, or for row zero all that are bound: each statement is sent when the room is used up, and the
        next one starts again with the original query. Every statement sent is the query with at least one tuple, and
        together they hold the tuples of the rows from the first on, each once and in order. */
    method BatchInsertStd(irow: nat, arraySize: nat, rows: seq<seq<Cell>>, query: string, accept: seq<string> -> bool)
      returns (ok: bool, statements: seq<string>, count: nat)
      requires buffer.Valid() && buffer.Contents() == "" && AreRows(rows)
      requires arraySize <= |rows| && 1 <= |rows|
      modifies buffer, buffer.buf
      ensures buffer.Valid() && Batches(query, rows, statements, count)
      ensures ok ==> buffer.Contents() == "" && Accepted(accept, statements)
      ensures irow == 0 && arraySize > 1 ==>
                && count <= arraySize && (ok <==> count == arraySize && Accepted(accept, statements))
                && ((forall k :: 0 <= k < arraySize ==> IsRow(rows[k])) && Accepted(accept, statements) ==> ok)
      ensures irow > 0 || arraySize <= 1 ==>
                && count <= 1 && (ok <==> count == 1 && Accepted(accept, statements))
                && (IsRow(rows[0]) && Accepted(accept, statements) ==> ok)
    {
      var insertCount, queryLength := 1, 0;
      if irow == 0 && arraySize > 1 {
        insertCount, queryLength := arraySize, |query|;
      }
      assert insertCount <= |rows| && (insertCount > 1 ==> queryLength == |query|);
      var text, breakInsert, again := query, false, true;
      ok, statements, count := true, [], 0;
      NoBatch(query, rows);
      NoStatement(accept);
      assert breakInsert ==> query <= text;
      hide *;
      while again
        invariant count <= insertCount && Batches(query, rows, statements, count) && Accepted(accept, statements)
        invariant buffer.Valid() && buffer.Contents() == "" && (buffer.buf == old(buffer.buf) || fresh(buffer.buf))
        invariant if count == 0 then again && !breakInsert && text == query
                  else again == (breakInsert && count < insertCount) && query <= text
        invariant count < insertCount ==> again
        decreases insertCount - count, again
      {
        if breakInsert {
          text := text[..queryLength];
        }
        assert text == query;
        var start, filled, full := count, false, false;
        filled, count, text, full := AppendRows(rows, start, insertCount, text);
        if !filled {
          return false, statements, start;
        }
        breakInsert := breakInsert || full;
        text := text[..|text| - 1];
        assert text == query + Tuples(rows, start, count);
        NextBatch(query, rows, statements, start, count);
        NextStatement(accept, statements, text);
        statements := statements + [text];
        if !accept(statements) {
          return false, statements, count;
        }
        again := breakInsert && count < insertCount;
      }
    }
  }

  /** The server has accepted every statement after those in front of it. */
  ghost predicate Accepted(accept: seq<string> -> bool, statements: seq<string>) {
    forall k :: 0 < k <= |statements| ==> accept(statements[..k])
  }

  lemma NoStatement(accept: seq<string> -> bool)
    ensures Accepted(accept, [])
  {
  }

  lemma NextStatement(accept: seq<string> -> bool, statements: seq<string>, text: string)
    ensures Accepted(accept, statements + [text]) <==> Accepted(accept, statements) && accept(statements + [text])
  {
    var more := statements + [text];
    assert more[..|more|] == more;
    assert forall k :: 0 < k <= |statements| ==> more[..k] == statements[..k];
  }

  ghost predicate AreRows(rows: seq<seq<Cell>>) {
    forall row <- rows :: row != []
  }

  lemma NoBatch(prefix: string, rows: seq<seq<Cell>>)
    ensures Batches(prefix, rows, [], 0)
  {
  }

  lemma ValuesMore(row: seq<Cell>, n: nat)
    requires n < |row|
    ensures Values(row, n + 1) == Values(row, n) + ValueOf(row[n]) + ","
  {
    hide ValueOf;
  }

  lemma ValuesEnd(row: seq<Cell>, n: nat)
    requires n <= |row| && Values(row, n) != ""
    ensures Values(row, n)[|Values(row, n)| - 1] == ','
  {
  }

  lemma ValuesStart(row: seq<Cell>)
    ensures Values(row, 0) == ""
  {
  }

  lemma OneTuple(query: string, row: seq<Cell>)
    requires row != []
    ensures Values(row, |row|) != ""
    ensures query + "(" + Values(row, |row|)[..|Values(row, |row|)| - 1] + ")," == query + Tuple(row) + ","
  {
    ValuesAreJoined(row, |row|);
    hide Values, Joined;
  }

  lemma FirstTuple(query: string, rows: seq<seq<Cell>>, i: nat)
    requires i < |rows|
    ensures query + Tuple(rows[i]) + "," == query + Tuples(rows, i, i + 1) + ","
  {
    hide Tuple;
  }

  lemma NextTuple(query: string, rows: seq<seq<Cell>>, i: nat, j: nat)
    requires i < j < |rows|
    ensures query + Tuples(rows, i, j) + "," + Tuple(rows[j]) + "," == query + Tuples(rows, i, j + 1) + ","
  {
    hide Tuple;
    assert Tuples(rows, i, j + 1) == Tuples(rows, i, j) + "," + Tuple(rows[j]);
  }

  lemma NextBatch(prefix: string, rows: seq<seq<Cell>>, sent: seq<string>, i: nat, j: nat)
    requires Batches(prefix, rows, sent, i) && i < j <= |rows|
    ensures Batches(prefix, rows, sent + [prefix + Tuples(rows, i, j)], j)
  {
    hide Tuples;
    var more := sent + [prefix + Tuples(rows, i, j)];
    assert more[..|more| - 1] == sent;
    assert EndsInBatch(prefix, rows, more, i, j);
  }

  /** Dropping zero bytes stops at the text in front. */
  lemma TrimBehind(before: string, text: string, after: string)
    requires before != "" ==> before[|before| - 1] != '\0'
    requires after <= before + text && (after != "" ==> after[|after| - 1] != '\0')
    requires forall k :: |after| <= k < |before + text| ==> (before + text)[k] == '\0'
    ensures after == before + Trimmed(text)
  {
    var full, t := before + text, before + Trimmed(text);
    assert forall k :: |t| <= k < |full| ==> full[k] == text[k - |before|];
    hide Trimmed;
    assert t <= full;
    assert t != "" ==> t[|t| - 1] != '\0';
    SameEnd(full, t, after);
  }

  /** A text without the zero bytes at its end is only one. */
  lemma SameEnd(full: string, a: string, b: string)
    requires a <= full && (a != "" ==> a[|a| - 1] != '\0') && forall k :: |a| <= k < |full| ==> full[k] == '\0'
    requires b <= full && (b != "" ==> b[|b| - 1] != '\0') && forall k :: |b| <= k < |full| ==> full[k] == '\0'
    ensures a == b
  {
    assert a != "" ==> full[|a| - 1] == a[|a| - 1];
    assert b != "" ==> full[|b| - 1] == b[|b| - 1];
  }

  // ---------------------------------------------------------------------------------- conservation

  function TotalLength(texts: seq<string>): nat {
    if texts == [] then 0 else TotalLength(texts[..|texts| - 1]) + |texts[|texts| - 1]|
  }

  function TupleLengths(rows: seq<seq<Cell>>, n: nat): nat
    requires n <= |rows|
  {
    if n == 0 then 0 else TupleLengths(rows, n - 1) + |Tuple(rows[n - 1])|
  }

  lemma {:induction false} TuplesLength(rows: seq<seq<Cell>>, i: nat, j: nat)
    requires i < j <= |rows|
    ensures |Tuples(rows, i, j)| == TupleLengths(rows, j) - TupleLengths(rows, i) + (j - i - 1)
    ensures EndsRight(Tuples(rows, i, j))
    decreases j
  {
    hide Joined;
    if j > i + 1 {
      TuplesLength(rows, i, j - 1);
    }
  }

  /** The last statement, and what the ones in front of it hold. */
  lemma LastBatch(prefix: string, rows: seq<seq<Cell>>, sent: seq<string>, n: nat) returns (i: nat)
    requires sent != [] && Batches(prefix, rows, sent, n)
    ensures i < n <= |rows| && Batches(prefix, rows, sent[..|sent| - 1], i)
    ensures sent[|sent| - 1] == prefix + Tuples(rows, i, n)
  {
    hide Tuples;
    i :| EndsInBatch(prefix, rows, sent, i, n) && Batches(prefix, rows, sent[..|sent| - 1], i);
  }

  /** One row: what is sent is the first one, whichever was asked for. */
  lemma SingleRowIsTheFirst(prefix: string, rows: seq<seq<Cell>>, sent: seq<string>, irow: nat)
    requires Batches(prefix, rows, sent, 1) && 0 < irow <= |rows|
    ensures sent == [prefix + Tuple(rows[0])]
    ensures sent == [prefix + Tuple(rows[irow - 1])] <==> Tuple(rows[irow - 1]) == Tuple(rows[0])
  {
    TextConserved(prefix, rows, sent, 1);
    assert sent != [];
    var i := LastBatch(prefix, rows, sent, 1);
    assert sent == [sent[0]];
    hide Tuple;
    SamePrefix(prefix, Tuple(rows[irow - 1]), Tuple(rows[0]));
  }

  lemma SamePrefix(prefix: string, a: string, b: string)
    ensures prefix + a == prefix + b <==> a == b
  {
    assert (prefix + a)[|prefix|..] == a && (prefix + b)[|prefix|..] == b;
  }

  lemma EmptyBatch(prefix: string, rows: seq<seq<Cell>>, n: nat)
    requires Batches(prefix, rows, [], n)
    ensures n == 0 && TotalLength([]) == 0 && TupleLengths(rows, 0) == 0
  {
  }

  predicate EndsRight(statement: string) {
    statement != "" && statement[|statement| - 1] == ')'
  }

  /** No statement ends in a comma. */
  ghost predicate EndRight(sent: seq<string>) {
    forall k :: 0 <= k < |sent| ==> EndsRight(sent[k])
  }

  lemma EndOfConcat(prefix: string, tuples: string)
    requires EndsRight(tuples)
    ensures EndsRight(prefix + tuples)
  {
  }

  lemma EndRightMore(sent: seq<string>, prefix: string, tuples: string)
    requires sent != [] && EndRight(sent[..|sent| - 1]) && sent[|sent| - 1] == prefix + tuples
    requires EndsRight(tuples)
    ensures EndRight(sent)
    ensures TotalLength(sent) == TotalLength(sent[..|sent| - 1]) + |prefix| + |tuples|
  {
    hide EndsRight;
    EndOfConcat(prefix, tuples);
    assert forall k :: 0 <= k < |sent| - 1 ==> sent[..|sent| - 1][k] == sent[k];
  }

  /** No text is lost or sent twice: together the statements are as long as a prefix for each of them, the tuples of the
      rows, and a comma between two tuples of one statement. There are at most as many statements as rows. */
  lemma {:induction false} TextConserved(prefix: string, rows: seq<seq<Cell>>, sent: seq<string>, n: nat)
    requires Batches(prefix, rows, sent, n)
    ensures n <= |rows| && |sent| <= n && EndRight(sent)
    ensures TotalLength(sent) == |sent| * |prefix| + TupleLengths(rows, n) + (n - |sent|)
    decreases |sent|
  {
    if sent == [] {
      EmptyBatch(prefix, rows, n);
    } else {
      hide *;
      var i := LastBatch(prefix, rows, sent, n);
      TextConserved(prefix, rows, sent[..|sent| - 1], i);
      TuplesLength(rows, i, n);
      EndRightMore(sent, prefix, Tuples(rows, i, n));
      Numbers.OneMore(|sent|, |prefix|);
    }
  }

}
