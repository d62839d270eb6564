/** The scrollable cursor of a statement: where a fetch goes, how it gets there, and what it delivers. */
module RowCursor {
  import opened Options
  import opened Basics
  import opened RowList

  datatype FetchType = Next | Prior | First | Last | Absolute | Relative | Bookmark | Unknown

  datatype CursorType = ForwardOnly | Static | Dynamic

  datatype ReturnCode = Success | NoData | Error

  datatype RowStatus = Untouched | RowSuccess | NoRow

  /** What a bound column set gets for one row: the values and the lengths to take them with. */
  datatype Delivery = Nothing | Filled(row: Row, lengths: seq<nat>)

  // ---------------------------------------------------------------------------------- positions

  /** Where a statement stands: the first row of the current rowset (-1 before the first row) and how many rows
      that rowset has. */
  datatype Position = Position(currentRow: int, rowsFound: nat)

  datatype Outcome = NothingFetched | Fetched(start: nat, count: nat)

  /** The row that a fetch asks for; it may lie outside the result. */
  function TargetRow(p: Position, rowCount: nat, arraySize: nat, fetchType: FetchType, irow: int): int {
    match fetchType
    case Next => if p.currentRow < 0 then 0 else p.currentRow + p.rowsFound
    case Prior => if p.currentRow <= 0 then -1 else p.currentRow - arraySize
    case First => 0
    case Last => rowCount - arraySize
    case Absolute =>
      if irow < 0 then
        if rowCount + irow < 0 && -irow <= arraySize then 0 else rowCount + irow
      else irow - 1
    case Relative =>
      var row := p.currentRow + irow;
      if p.currentRow > 0 && row < 0 && -irow <= arraySize then 0 else row
    case Bookmark => if irow < 0 && -irow <= arraySize then 0 else irow
    case Unknown => -1
  }

  /** One fetch as a step between positions. */
  function Step(p: Position, rowCount: nat, arraySize: nat, fetchType: FetchType, irow: int): (Position, Outcome) {
    var row := TargetRow(p, rowCount, arraySize, fetchType, irow);
    if row < 0 then (Position(-1, 0), NothingFetched)
    else
      var start := Min(row, rowCount);
      var count := Min(rowCount - start, arraySize);
      (Position(start, count), if count == 0 then NothingFetched else Fetched(start, count))
  }

  // ---------------------------------------------------------------------------------- what each fetch names

  /** The rowset that starts with a row: as many rows as there are, up to the size; none before the first row or behind
      the last. */
  ghost predicate IsRowset(step: (Position, Outcome), row: int, n: nat, k: nat) {
    if row < 0 then step == (Position(-1, 0), NothingFetched)
    else if row >= n then step == (Position(n, 0), NothingFetched)
    else if row + k <= n && k > 0 then step == (Position(row, k), Fetched(row, k))
    else if k > 0 then step == (Position(row, n - row), Fetched(row, n - row))
    else step == (Position(row, 0), NothingFetched)
  }

  lemma StepIsRowset(p: Position, n: nat, k: nat, fetchType: FetchType, irow: int)
    ensures IsRowset(Step(p, n, k, fetchType, irow), TargetRow(p, n, k, fetchType, irow), n, k)
  {
    hide TargetRow;
  }

  /** FIRST names the first rows; LAST the last rows, of which there must be enough, and nothing comes behind them. */
  lemma EndsOfResult(p: Position, n: nat, k: nat, irow: int)
    requires k > 0
    ensures n >= k ==> Step(p, n, k, First, irow) == (Position(0, k), Fetched(0, k))
    ensures 0 < n < k ==> Step(p, n, k, First, irow) == (Position(0, n), Fetched(0, n))
    ensures n >= k ==> Step(p, n, k, Last, irow) == (Position(n - k, k), Fetched(n - k, k))
    ensures n < k ==> Step(p, n, k, Last, irow) == (Position(-1, 0), NothingFetched)
    ensures n >= k ==> Step(Step(p, n, k, Last, irow).0, n, k, Next, 0) == (Position(n, 0), NothingFetched)
  {
  }

  /** NEXT goes on behind the rowset, PRIOR to the rows in front of it. */
  lemma Neighbours(p: Position, n: nat, k: nat, irow: int)
    requires p.currentRow >= -1
    ensures IsRowset(Step(p, n, k, Next, irow), if p.currentRow == -1 then 0 else p.currentRow + p.rowsFound, n, k)
    ensures p.currentRow > 0 ==> IsRowset(Step(p, n, k, Prior, irow), p.currentRow - k, n, k)
    ensures p.currentRow <= 0 ==> Step(p, n, k, Prior, irow) == (Position(-1, 0), NothingFetched)
  {
  }

  /** ABSOLUTE i names row i, counted from one; ABSOLUTE -i the i-th row from the end, or the first one if there are
      fewer than i rows but a rowset has as many; nothing else has a row. */
  lemma AbsoluteRows(p: Position, n: nat, k: nat, i: int)
    requires i > 0
    ensures IsRowset(Step(p, n, k, Absolute, i), i - 1, n, k)
    ensures i <= n ==> IsRowset(Step(p, n, k, Absolute, -i), n - i, n, k)
    ensures n < i <= k ==> IsRowset(Step(p, n, k, Absolute, -i), 0, n, k)
    ensures n < i && k < i ==> Step(p, n, k, Absolute, -i) == (Position(-1, 0), NothingFetched)
    ensures Step(p, n, k, Absolute, 0) == (Position(-1, 0), NothingFetched)
  {
    StepIsRowset(p, n, k, Absolute, i);
    StepIsRowset(p, n, k, Absolute, -i);
    StepIsRowset(p, n, k, Absolute, 0);
    hide Step;
  }

  /** RELATIVE counts from the current row; in front of the first row it stops at it only if it goes back by at most a
      rowset, from a row behind the first. */
  lemma RelativeRows(p: Position, n: nat, k: nat, i: int)
    requires i >= 0
    ensures IsRowset(Step(p, n, k, Relative, i), p.currentRow + i, n, k)
    ensures i <= p.currentRow ==> IsRowset(Step(p, n, k, Relative, -i), p.currentRow - i, n, k)
    ensures 0 < p.currentRow < i <= k ==> IsRowset(Step(p, n, k, Relative, -i), 0, n, k)
    ensures p.currentRow < i && (i > k || p.currentRow <= 0) ==>
              Step(p, n, k, Relative, -i) == (Position(-1, 0), NothingFetched)
  {
    StepIsRowset(p, n, k, Relative, i);
    StepIsRowset(p, n, k, Relative, -i);
    hide Step;
  }

  /** BOOKMARK names the row of its bookmark, or the first one if it is in front of it by at most a rowset. */
  lemma BookmarkRows(p: Position, n: nat, k: nat, i: int)
    requires i >= 0
    ensures IsRowset(Step(p, n, k, Bookmark, i), i, n, k)
    ensures 0 < i <= k ==> IsRowset(Step(p, n, k, Bookmark, -i), 0, n, k)
    ensures i > k ==> Step(p, n, k, Bookmark, -i) == (Position(-1, 0), NothingFetched)
  {
    StepIsRowset(p, n, k, Bookmark, i);
    StepIsRowset(p, n, k, Bookmark, -i);
    hide Step;
  }

  /** A fetch that is not allowed. */
  predicate Refused(cursorType: CursorType, safe: bool, fetchType: FetchType) {
    fetchType == Unknown || (cursorType == ForwardOnly && fetchType != Next && !safe)
  }

  // ---------------------------------------------------------------------------------- where the rows come from

  /** Where a statement stands, and the row in front of which the remembered end of the last rowset stands; none if that
      is a node of an earlier result. */
  datatype Standing = Standing(at: Position, end: Option<nat>)

  /** The row that reading really starts with, if a fetch asks for the given one: walking leads there, but the short cut
      leads to the remembered end. */
  function ReadsFrom(s: Standing, dynamic: bool, start: nat): Option<nat> {
    if !dynamic && start != 0 && start == s.at.currentRow + s.at.rowsFound then s.end else Some(start)
  }

  /** One fetch as it really goes: the step between positions says where the statement stands then, and how many rows it
      tries to read; the rows may be others, and fewer. None if it reads from an earlier result. */
  function Visit(s: Standing, rowCount: nat, dynamic: bool, arraySize: nat, fetchType: FetchType, irow: int)
    : Option<(Standing, Outcome)>
  {
    var (p, outcome) := Step(s.at, rowCount, arraySize, fetchType, irow);
    if outcome.NothingFetched? then Some((Standing(p, s.end), outcome))
    else
      match ReadsFrom(s, dynamic, outcome.start)
      case None => None
      case Some(from) =>
        var count := Min(outcome.count, if from <= rowCount then rowCount - from else 0);
        Some((Standing(Position(outcome.start, count), Some(from + count)),
              if count == 0 then NothingFetched else Fetched(from, count)))
  }

  /** What a visit comes to, case by case. */
  lemma VisitIs(s: Standing, rowCount: nat, dynamic: bool, arraySize: nat, fetchType: FetchType, irow: int)
    ensures var row := TargetRow(s.at, rowCount, arraySize, fetchType, irow);
            var start := Min(row, rowCount);
            var count := Min(rowCount - start, arraySize);
            var nothing := Step(s.at, rowCount, arraySize, fetchType, irow).1 == NothingFetched;
            var v := Visit(s, rowCount, dynamic, arraySize, fetchType, irow);
            if row < 0 then nothing && v == Some((Standing(Position(-1, 0), s.end), NothingFetched))
            else if count == 0 then nothing && v == Some((Standing(Position(start, 0), s.end), NothingFetched))
            else
              && !nothing
              && match ReadsFrom(s, dynamic, start)
              case None => v == None
              case Some(from) =>
                var read := Min(count, if from <= rowCount then rowCount - from else 0);
                v == Some((Standing(Position(start, read), Some(from + read)),
                           if read == 0 then NothingFetched else Fetched(from, read)))
  {
    hide TargetRow, ReadsFrom;
  }

  /** Whatever row is asked for next, reading starts with it. */
  ghost predicate Sound(s: Standing, rowCount: nat, dynamic: bool) {
    forall start: nat | start < rowCount :: ReadsFrom(s, dynamic, start) == Some(start)
  }

  /** That is so if and only if no row behind the rowset can be asked for by the short cut, or the remembered end is
      there. */
  lemma SoundIff(s: Standing, rowCount: nat, dynamic: bool)
    ensures var behind := s.at.currentRow + s.at.rowsFound;
            Sound(s, rowCount, dynamic) <==> dynamic || behind <= 0 || behind >= rowCount || s.end == Some(behind)
  {
    var behind := s.at.currentRow + s.at.rowsFound;
    if 0 < behind < rowCount {
      assert ReadsFrom(s, dynamic, behind) == if dynamic then Some(behind) else s.end;
    }
  }

  /** A fetch delivers the rows that it names if and only if the remembered end is not used, or is the first of them. */
  lemma RightIff(s: Standing, rowCount: nat, dynamic: bool, arraySize: nat, fetchType: FetchType, irow: int)
    ensures var (p, outcome) := Step(s.at, rowCount, arraySize, fetchType, irow);
            var v := Visit(s, rowCount, dynamic, arraySize, fetchType, irow);
            v.Some? && v.value.0.at == p && v.value.1 == outcome
            <==> (outcome.Fetched? ==> ReadsFrom(s, dynamic, outcome.start) == Some(outcome.start))
  {
    hide TargetRow, ReadsFrom;
  }

  /** With a rowset of at least one row a sound statement fetches rightly, and stays sound. */
  lemma SoundStays(s: Standing, rowCount: nat, dynamic: bool, arraySize: nat, fetchType: FetchType, irow: int)
    requires Sound(s, rowCount, dynamic) && arraySize > 0
    ensures var (p, outcome) := Step(s.at, rowCount, arraySize, fetchType, irow);
            var v := Visit(s, rowCount, dynamic, arraySize, fetchType, irow);
            v.Some? && v.value.0.at == p && v.value.1 == outcome && Sound(v.value.0, rowCount, dynamic)
  {
    RightIff(s, rowCount, dynamic, arraySize, fetchType, irow);
    var v := Visit(s, rowCount, dynamic, arraySize, fetchType, irow);
    hide TargetRow, ReadsFrom;
    SoundIff(v.value.0, rowCount, dynamic);
  }

  /** With a rowset size of zero nothing is read, and the statement moves away from the remembered end. It is sound then
      if and only if it has moved before the first row, on it, or behind the last, or just to the remembered end. */
  lemma ZeroRowset(s: Standing, rowCount: nat, dynamic: bool, fetchType: FetchType, irow: int)
    ensures var row := TargetRow(s.at, rowCount, 0, fetchType, irow);
            var v := Visit(s, rowCount, dynamic, 0, fetchType, irow);
            && v == Some((Standing(if row < 0 then Position(-1, 0) else Position(Min(row, rowCount), 0), s.end),
                          NothingFetched))
            && (Sound(v.value.0, rowCount, dynamic) <==>
                  dynamic || row <= 0 || row >= rowCount || s.end == Some(row))
  {
    var v := Visit(s, rowCount, dynamic, 0, fetchType, irow);
    SoundIff(v.value.0, rowCount, dynamic);
    hide TargetRow;
  }

  // ---------------------------------------------------------------------------------- the statement

  class Statement {
    const result: Result
    const cursorType: CursorType
    /** Lets a forward-only cursor scroll. */
    const safe: bool
    var arraySize: nat
    var currentRow: int
    var rowsFound: nat
    var endOfSet: RowNode?

    /** A statement that has just been executed. The end of an earlier rowset is not reset. */
    constructor (rows: seq<Row>, cursorType: CursorType, safe: bool, stale: RowNode?)
      ensures Valid() && fresh(result) && fresh(result.nodes)
      ensures result.rows == rows && this.cursorType == cursorType && this.safe == safe
      ensures At() == Position(0, 0) && arraySize == 1 && Stands(Standing(Position(0, 0), None))
      ensures stale == null && rows != [] ==> Stands(Standing(Position(0, 0), Some(|rows|)))
    {
      this.result := new Result(rows);
      this.cursorType, this.safe, this.arraySize := cursorType, safe, 1;
      this.currentRow, this.rowsFound, this.endOfSet := 0, 0, stale;
    }

    ghost predicate Valid()
      reads this, result, result.nodes
    {
      result.Valid()
    }

    function At(): Position
      reads this
    {
      Position(currentRow, rowsFound)
    }

    /** The statement stands there, and remembers that end. */
    ghost predicate Stands(s: Standing)
      reads this
    {
      At() == s.at && (s.end.Some? ==> s.end.value <= |result.rows| && endOfSet == result.NodeAt(s.end.value))
    }

    /** Going to a row may reuse the end of the last rowset instead of walking. */
    predicate UsesEndOfSet(row: int)
      reads this
    {
      cursorType != Dynamic && row != 0 && row == currentRow + rowsFound
    }

    /** Find the row to fetch from and move the cursor of the result there, by the short cut or by walking. */
    method ComputeCurRow(fetchType: FetchType, irow: int) returns (rc: ReturnCode, curRow: int)
      requires Valid()
      modifies this`currentRow, this`rowsFound, result
      ensures fetchType == Unknown <==> rc == Error
      ensures rc == Error ==> unchanged(this)
      ensures rc != Error ==>
                var row := TargetRow(old(At()), |result.rows|, arraySize, fetchType, irow);
                && (rc == NoData <==> row < 0)
                && (row < 0 ==> At() == Position(-1, 0) && result.dataCursor == result.NodeAt(0))
                && (row >= 0 ==> curRow == Min(row, |result.rows|) && At() == Position(curRow, old(rowsFound))
                                 && result.dataCursor == (if old(UsesEndOfSet(Min(row, |result.rows|))) then endOfSet
                                                          else result.NodeAt(curRow)))
    {
      var maxRow := |result.rows|;
      match fetchType {
        case Next => curRow := if currentRow < 0 then 0 else currentRow + rowsFound;
        case Prior => curRow := if currentRow <= 0 then -1 else currentRow - arraySize;
        case First => curRow := 0;
        case Last => curRow := maxRow - arraySize;
        case Absolute =>
          if irow < 0 {
            if maxRow + irow < 0 && -irow <= arraySize {
              curRow := 0;
            } else {
              curRow := maxRow + irow;
            }
          } else {
            curRow := irow - 1;
          }
        case Relative =>
          curRow := currentRow + irow;
          if currentRow > 0 && curRow < 0 && -irow <= arraySize {
            curRow := 0;
          }
        case Bookmark =>
          curRow := irow;
          if curRow < 0 && -irow <= arraySize {
            curRow := 0;
          }
        case Unknown =>
          return Error, 0;
      }
      if curRow < 0 {
        currentRow, rowsFound := -1, 0;
        result.DataSeek(0);
        return NoData, curRow;
      }
      if curRow > maxRow {
        curRow := maxRow;
      }
      if cursorType != Dynamic && curRow != 0 && curRow == currentRow + rowsFound {
        var _ := result.RowSeek(endOfSet);
      } else {
        result.DataSeek(curRow);
      }
      currentRow := curRow;
      rc := Success;
    }

    /** One row of a rowset, at place i of the buffers. Behind the last row there is none. */
    method FetchOne(i: nat, bound: array<Delivery>, status: array<RowStatus>, ghost row: nat) returns (got: bool)
      requires Valid() && i < bound.Length && i < status.Length && 0 <= currentRow < |result.rows|
      modifies result, bound, status
      ensures Valid()
      ensures if got then bound[..] == old(bound[..])[i := bound[i]] && status[..] == old(status[..])[i := RowSuccess]
              else bound[..] == old(bound[..]) && status[..] == old(status[..])
      ensures old(result.dataCursor) == result.NodeAt(row) && row <= |result.rows| ==>
                && (got <==> row < |result.rows|)
                && result.dataCursor == result.NodeAt(if got then row + 1 else row)
                && (got ==> bound[i] == Filled(result.rows[row], Lengths(result.rows[currentRow])))
    {
      if row == |result.rows| {
        result.NoNodeBehind();
      }
      hide Linked;
      if result.dataCursor == result.NodeAt(row) && row < |result.rows| {
        result.NodeOfRow(row);
      }
      var values := result.FetchRow();
      if values.None? {
        return false;
      }
      // The lengths are those of the row that the statement stands on.
      var lengths := Lengths(result.rows[currentRow]);
      bound[i] := Filled(values.value, lengths);
      status[i] := RowSuccess;
      got := true;
    }

    /** The rows of a rowset, one after the other, from the cursor on, until the list or the count is used up. The ghost
        argument tells where the cursor is, which need not be the row that the statement stands on. */
    method FetchRows(count: nat, bound: array<Delivery>, status: array<RowStatus>, ghost from: nat)
      returns (fetched: nat)
      requires Valid() && bound.Length >= count && status.Length >= count
      requires 0 <= currentRow < |result.rows|
      modifies result, bound, status
      ensures fetched <= count
      ensures forall i :: 0 <= i < fetched ==> status[i] == RowSuccess
      ensures bound[fetched..] == old(bound[fetched..]) && status[fetched..] == old(status[fetched..])
      ensures old(result.dataCursor) == result.NodeAt(from) && from <= |result.rows| ==>
                && fetched == Min(count, |result.rows| - from) && result.dataCursor == result.NodeAt(from + fetched)
                && forall i :: 0 <= i < fetched ==>
                     bound[i] == Filled(result.rows[from + i], Lengths(result.rows[currentRow]))
    {
      ghost var known := result.dataCursor == result.NodeAt(from) && from <= |result.rows|;
      ghost var first := Lengths(result.rows[currentRow]);
      assert known ==> RowsIn(bound[..], from, 0, first);
      hide Linked, RowsIn;
      fetched := 0;
      while fetched < count
        invariant Valid() && fetched <= count
        invariant known ==> from + fetched <= |result.rows| && result.dataCursor == result.NodeAt(from + fetched)
                            && RowsIn(bound[..], from, fetched, first)
        invariant forall k :: 0 <= k < fetched ==> status[k] == RowSuccess
        invariant bound[fetched..] == old(bound[fetched..]) && status[fetched..] == old(status[fetched..])
      {
        if known && from + fetched < |result.rows| {
          NextRowIn(bound[..], from, fetched, first);
        }
        ghost var boundBefore, statusBefore := bound[..], status[..];
        var got := FetchOne(fetched, bound, status, from + fetched);
        if !got {
          break;
        }
        SameBehind(boundBefore, bound[..], fetched);
        SameBehind(statusBefore, status[..], fetched);
        fetched := fetched + 1;
      }
      if known {
        RowsInMeans(bound[..], from, fetched, first);
      }
    }

    /** The first n places hold the rows from the given one on, with the given lengths. */
    ghost predicate RowsIn(bound: seq<Delivery>, from: nat, n: nat, lengths: seq<nat>) {
      && n <= |bound| && from + n <= |result.rows|
      && forall k :: 0 <= k < n ==> bound[k] == Filled(result.rows[from + k], lengths)
    }

    lemma RowsInMeans(bound: seq<Delivery>, from: nat, n: nat, lengths: seq<nat>)
      requires RowsIn(bound, from, n, lengths)
      ensures n <= |bound| && from + n <= |result.rows|
      ensures forall k :: 0 <= k < n ==> bound[k] == Filled(result.rows[from + k], lengths)
    {
    }

    lemma NextRowIn(bound: seq<Delivery>, from: nat, n: nat, lengths: seq<nat>)
      requires RowsIn(bound, from, n, lengths) && n < |bound| && from + n < |result.rows|
      ensures RowsIn(bound[n := Filled(result.rows[from + n], lengths)], from, n + 1, lengths)
    {
    }

    /** The statuses behind the rows that were fetched. */
    method MarkRest(status: array<RowStatus>, fetched: nat)
      requires fetched <= arraySize <= status.Length
      modifies status
      ensures forall k :: 0 <= k < status.Length ==>
                status[k] == if fetched <= k < arraySize then NoRow else old(status[k])
    {
      for i := fetched to arraySize
        invariant forall k :: 0 <= k < status.Length ==> status[k] == if fetched <= k < i then NoRow else old(status[k])
      {
        status[i] := NoRow;
      }
    }

    /** The bound buffers and statuses of a rowset: count rows from the given one on, with the lengths of the row that
        the rowset starts with, and NoRow behind them. */
    ghost predicate Delivers(from: nat, start: nat, count: nat, bound: seq<Delivery>, status: seq<RowStatus>)
      requires from + count <= |result.rows| && start < |result.rows|
      requires 0 < count <= arraySize <= |bound| && arraySize <= |status|
      reads this
    {
      && (forall i :: 0 <= i < count ==> bound[i] == Filled(result.rows[from + i], Lengths(result.rows[start])))
      && (forall i :: 0 <= i < arraySize ==> status[i] == if i < count then RowSuccess else NoRow)
    }

    /** The fetching cycle behind the seek: rows, statuses, and the end of the set. */
    method FetchRowset(rowsToFetch: nat, bound: array<Delivery>, status: array<RowStatus>, ghost from: nat)
      returns (rc: ReturnCode, fetched: nat)
      requires Valid() && 0 < rowsToFetch <= arraySize && bound.Length >= arraySize && status.Length >= arraySize
      requires 0 <= currentRow < |result.rows|
      modifies this`rowsFound, this`endOfSet, result, bound, status
      ensures Valid() && rc != Error
      ensures old(result.dataCursor == result.NodeAt(from)) && from <= |result.rows| ==>
                && fetched == rowsFound == Min(rowsToFetch, |result.rows| - from)
                && endOfSet == result.NodeAt(from + fetched)
                && (rc == Success <==> fetched > 0)
                && (fetched > 0 ==> Delivers(from, currentRow, fetched, bound[..], status[..]))
                && bound[fetched..] == old(bound[fetched..])
      ensures status[arraySize..] == old(status[arraySize..])
    {
      hide Linked;
      var savePosition := result.dataCursor;
      fetched := FetchRows(rowsToFetch, bound, status, from);
      rowsFound := fetched;
      assert status[arraySize..] == status[fetched..][arraySize - fetched..];
      assert old(status[arraySize..]) == old(status[fetched..])[arraySize - fetched..];
      MarkRest(status, fetched);
      endOfSet := result.RowSeek(savePosition);
      rc := if rowsFound == 0 then NoData else Success;
    }

    /** The call has gone as the visit says: the statement stands there, and the rows are delivered, or none. */
    ghost predicate Follows(v: Option<(Standing, Outcome)>, rc: ReturnCode, fetched: nat, before: seq<Delivery>,
                            bound: seq<Delivery>, status: seq<RowStatus>)
      requires |before| == |bound| >= arraySize && |status| >= arraySize
      reads this
    {
      v.Some? ==>
        && var (t, outcome) := v.value;
        && Stands(t)
        && (outcome == NothingFetched ==> rc == NoData && fetched == 0 && bound == before)
        && (outcome.Fetched? ==>
              && rc == Success && fetched == outcome.count
              && outcome.start + outcome.count <= |result.rows| && 0 <= currentRow < |result.rows|
              && 0 < outcome.count <= arraySize
              && Delivers(outcome.start, currentRow, outcome.count, bound, status)
              && bound[outcome.count..] == before[outcome.count..])
    }

    /** Fetch a rowset, with any rowset size. A fetch that asks for no row leaves the bound buffers and the statuses
        alone. Any other goes as Visit says, from where the statement stands, which the ghost argument names. */
    method ExtendedFetch(fetchType: FetchType, irow: int, bound: array<Delivery>, status: array<RowStatus>,
                         ghost s: Standing) returns (rc: ReturnCode, fetched: nat)
      requires Valid() && Stands(s) && bound.Length >= arraySize && status.Length >= arraySize
      modifies this`currentRow, this`rowsFound, this`endOfSet, result, bound, status
      ensures Valid()
      ensures rc == Error <==> fetchType == Unknown || (cursorType == ForwardOnly && fetchType != Next && !safe)
      ensures rc == Error ==> unchanged(this)
      ensures rc != Error ==>
                && (Step(s.at, |result.rows|, arraySize, fetchType, irow).1 == NothingFetched ==>
                      unchanged(bound) && unchanged(status))
                && Follows(Visit(s, |result.rows|, cursorType == Dynamic, arraySize, fetchType, irow), rc, fetched,
                           old(bound[..]), bound[..], status[..])
      ensures status[arraySize..] == old(status[arraySize..])
    {
      hide TargetRow, Delivers, Linked, Visit, Step;
      fetched := 0;
      VisitIs(s, |result.rows|, cursorType == Dynamic, arraySize, fetchType, irow);
      if cursorType == ForwardOnly && fetchType != Next && !safe {
        return Error, 0;
      }
      var curRow;
      rc, curRow := ComputeCurRow(fetchType, irow);
      if rc != Success {
        return;
      }
      var rowsToFetch := Min(|result.rows| - curRow, arraySize);
      if rowsToFetch == 0 {
        rowsFound := 0;
        return NoData, 0;
      }
      ghost var from := ReadsFrom(s, cursorType == Dynamic, curRow);
      rc, fetched := FetchRowset(rowsToFetch, bound, status, if from.Some? then from.value else 0);
    }

    predicate Refuses(fetchType: FetchType) {
      Refused(cursorType, safe, fetchType)
    }

    /** Scroll to a rowset; a bookmark is added to the offset. */
    method FetchScroll(fetchType: FetchType, offset: int, bookmark: Option<int>, bound: array<Delivery>,
                       status: array<RowStatus>, ghost s: Standing) returns (rc: ReturnCode, fetched: nat)
      requires Valid() && Stands(s) && bound.Length >= arraySize && status.Length >= arraySize
      modifies this`currentRow, this`rowsFound, this`endOfSet, result, bound, status
      ensures Valid()
      ensures rc == Error <==> Refuses(fetchType)
      ensures rc == Error ==> unchanged(this)
      ensures rc != Error ==>
                var irow := if fetchType == Bookmark && bookmark.Some? then offset + bookmark.value else offset;
                Follows(Visit(s, |result.rows|, cursorType == Dynamic, arraySize, fetchType, irow), rc, fetched,
                        old(bound[..]), bound[..], status[..])
    {
      hide TargetRow, Follows, Linked, Visit;
      var irow := if fetchType == Bookmark && bookmark.Some? then offset + bookmark.value else offset;
      rc, fetched := ExtendedFetch(fetchType, irow, bound, status, s);
    }

    /** The next rowset, from the first on. */
    method Fetch(bound: array<Delivery>, status: array<RowStatus>, ghost s: Standing)
      returns (rc: ReturnCode, fetched: nat)
      requires Valid() && Stands(s) && bound.Length >= arraySize && status.Length >= arraySize
      modifies this`currentRow, this`rowsFound, this`endOfSet, result, bound, status
      ensures Valid() && rc != Error
      ensures Follows(Visit(s, |result.rows|, cursorType == Dynamic, arraySize, Next, 0), rc, fetched,
                      old(bound[..]), bound[..], status[..])
    {
      hide Follows, Linked, Visit;
      rc, fetched := ExtendedFetch(Next, 0, bound, status, s);
    }
  }

  lemma SameBehind<T>(before: seq<T>, after: seq<T>, i: nat)
    requires i < |before| == |after| && after == before[i := after[i]]
    ensures after[i + 1..] == before[i..][1..]
  {
  }

  lemma ThreeVisits()
    ensures Visit(Standing(Position(0, 0), None), 4, false, 3, Next, 0)
            == Some((Standing(Position(0, 3), Some(3)), Fetched(0, 3)))
    ensures Visit(Standing(Position(0, 3), Some(3)), 4, false, 0, Absolute, 2)
            == Some((Standing(Position(1, 0), Some(3)), NothingFetched))
    ensures Visit(Standing(Position(1, 0), Some(3)), 4, false, 1, Next, 0)
            == Some((Standing(Position(1, 1), Some(4)), Fetched(3, 1)))
  {
  }

  /** The short cut is trusted after every fetch, but a fetch with a rowset size of zero moves the statement without
      moving the end of the set. The next fetch then reads from the end of the earlier rowset: here it asks for the
      second row and gets the fourth. */
  method ZeroRowsetMisleads(a: Row, b: Row, c: Row, d: Row) returns (stmt: Statement, bound: array<Delivery>)
    ensures stmt.Valid() && stmt.result.rows == [a, b, c, d] && stmt.At() == Position(1, 1)
    ensures bound.Length == 3 && bound[0] == Filled(d, Lengths(b))
  {
    hide Linked, Visit;
    ThreeVisits();
    stmt := new Statement([a, b, c, d], Static, false, null);
    bound := new Delivery[3](_ => Nothing);
    var status := new RowStatus[3](_ => Untouched);
    stmt.arraySize := 3;
    var rc, fetched := stmt.Fetch(bound, status, Standing(Position(0, 0), None));
    stmt.arraySize := 0;
    rc, fetched := stmt.ExtendedFetch(Absolute, 2, bound, status, Standing(Position(0, 3), Some(3)));
    stmt.arraySize := 1;
    FetchFourth(stmt, bound, status);
  }

  /** The last of these fetches. */
  method FetchFourth(stmt: Statement, bound: array<Delivery>, status: array<RowStatus>)
    requires stmt.Valid() && stmt.Stands(Standing(Position(1, 0), Some(3))) && stmt.arraySize == 1
    requires |stmt.result.rows| == 4 && stmt.cursorType == Static && bound.Length == status.Length == 3
    modifies stmt`currentRow, stmt`rowsFound, stmt`endOfSet, stmt.result, bound, status
    ensures stmt.Valid() && stmt.At() == Position(1, 1)
    ensures bound[0] == Filled(stmt.result.rows[3], Lengths(stmt.result.rows[1]))
  {
    hide Linked, Visit;
    ThreeVisits();
    var rc, fetched := stmt.Fetch(bound, status, Standing(Position(1, 0), Some(3)));
  }
}
