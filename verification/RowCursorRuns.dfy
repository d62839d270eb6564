/** Runs of fetches: what stays true whatever an application asks for, and what it gets to see. */
module RowCursorRuns {
  import opened Options
  import opened Basics
  import opened RowList
  import opened RowCursor
  import Numbers

  /** One call of an application: it may set the rowset size, then fetches. */
  datatype Call = Call(arraySize: nat, fetchType: FetchType, irow: int)

  // ---------------------------------------------------------------------------------- positions over runs

  /** Before the first row, or inside the result with the whole rowset. */
  ghost predicate InRange(p: Position, rowCount: nat) {
    p == Position(-1, 0) || (0 <= p.currentRow && p.currentRow + p.rowsFound <= rowCount)
  }

  /** The positions and outcomes of a run. */
  function Run(p: Position, rowCount: nat, calls: seq<Call>): (r: (Position, seq<Outcome>))
    ensures |r.1| == |calls|
  {
    if calls == [] then (p, [])
    else
      var (q, outcomes) := Run(p, rowCount, calls[..|calls| - 1]);
      var c := calls[|calls| - 1];
      var (r, outcome) := Step(q, rowCount, c.arraySize, c.fetchType, c.irow);
      (r, outcomes + [outcome])
  }

  /** After any run of any fetches with any offsets and rowset sizes the position is in range, and everything that was
      fetched lies inside the result. */
  lemma {:induction false} RunInRange(p: Position, rowCount: nat, calls: seq<Call>)
    requires InRange(p, rowCount)
    ensures InRange(Run(p, rowCount, calls).0, rowCount)
    ensures forall i :: 0 <= i < |calls| ==>
              var o := Run(p, rowCount, calls).1[i];
              o.Fetched? ==> 0 < o.count <= calls[i].arraySize && o.start + o.count <= rowCount
                             && (o.count < calls[i].arraySize ==> o.start + o.count == rowCount)
  {
    if calls != [] {
      RunInRange(p, rowCount, calls[..|calls| - 1]);
    }
  }

  // ---------------------------------------------------------------------------------- fetching everything in order

  function Ceiling(n: nat, k: nat): nat
    requires k > 0
  {
    (n + k - 1) / k
  }

  /** The calls of an application that keeps fetching the next rowset. */
  function NextCalls(arraySize: nat, times: nat): (c: seq<Call>)
    ensures |c| == times
  {
    seq(times, _ => Call(arraySize, Next, 0))
  }

  lemma {:induction false} AfterNextCalls(rowCount: nat, k: nat, times: nat)
    requires k > 0
    ensures var (p, outcomes) := Run(Position(0, 0), rowCount, NextCalls(k, times));
            && p == (if times == 0 then Position(0, 0)
                     else if (times - 1) * k < rowCount then Position((times - 1) * k, Min(rowCount - (times - 1) * k, k))
                     else Position(rowCount, 0))
            && forall i :: 0 <= i < times ==> outcomes[i] == NthRowset(rowCount, k, i)
  {
    if times > 0 {
      var before := NextCalls(k, times - 1);
      assert NextCalls(k, times)[..times - 1] == before && NextCalls(k, times)[times - 1] == Call(k, Next, 0);
      AfterNextCalls(rowCount, k, times - 1);
      hide NextCalls;
      if times > 1 {
        Numbers.OneMore(times - 1, k);
      }
    }
  }

  /** The calls of an application that keeps fetching the rowset in front. */
  function PriorCalls(arraySize: nat, times: nat): (c: seq<Call>)
    ensures |c| == times
  {
    seq(times, _ => Call(arraySize, Prior, 0))
  }

  /** From a rowset that starts at any row, going back hands out the full rowsets in front of it in turn, as long as
      there are rows enough. */
  lemma {:induction false} BackAgain(rowCount: nat, k: nat, row: nat, times: nat)
    requires k > 0 && times * k <= row < rowCount
    ensures var (p, outcomes) := Run(Position(row, Min(rowCount - row, k)), rowCount, PriorCalls(k, times));
            && p == Position(row - times * k, Min(rowCount - (row - times * k), k))
            && forall j :: 0 <= j < times ==>
                 outcomes[j].Fetched? && outcomes[j].start + (j + 1) * k == row && outcomes[j].count == k
  {
    if times > 0 {
      assert PriorCalls(k, times)[..times - 1] == PriorCalls(k, times - 1);
      assert PriorCalls(k, times)[times - 1] == Call(k, Prior, 0);
      Numbers.OneMore(times, k);
      BackAgain(rowCount, k, row, times - 1);
      hide PriorCalls;
    }
  }

  /** The i-th rowset of k rows. */
  function NthRowset(rowCount: nat, k: nat, i: nat): Outcome {
    if i * k < rowCount then Fetched(i * k, Min(rowCount - i * k, k)) else NothingFetched
  }

  /** The rows of a list of outcomes, one after the other. */
  function Collected<T>(rows: seq<T>, outcomes: seq<Outcome>): seq<T>
    requires forall o <- outcomes :: o.Fetched? ==> o.start + o.count <= |rows|
  {
    if outcomes == [] then []
    else
      var o := outcomes[|outcomes| - 1];
      Collected(rows, outcomes[..|outcomes| - 1]) + if o.Fetched? then rows[o.start..o.start + o.count] else []
  }

  /** Every outcome is the rowset that its number says. */
  ghost predicate AreRowsets(rowCount: nat, k: nat, outcomes: seq<Outcome>) {
    forall i :: 0 <= i < |outcomes| ==> outcomes[i] == NthRowset(rowCount, k, i)
  }

  lemma RowsetsInside(rowCount: nat, k: nat, outcomes: seq<Outcome>)
    requires AreRowsets(rowCount, k, outcomes)
    ensures forall o <- outcomes :: o.Fetched? ==> o.start + o.count <= rowCount
  {
  }

  lemma CollectLast<T>(rows: seq<T>, outcomes: seq<Outcome>)
    requires outcomes != [] && forall o <- outcomes :: o.Fetched? ==> o.start + o.count <= |rows|
    ensures var o := outcomes[|outcomes| - 1];
            Collected(rows, outcomes)
            == Collected(rows, outcomes[..|outcomes| - 1]) + if o.Fetched? then rows[o.start..o.start + o.count] else []
  {
  }

  lemma NextSlice<T>(rows: seq<T>, k: nat, n: nat)
    requires k > 0
    ensures var o := NthRowset(|rows|, k, n);
            && (o.Fetched? ==> o.start + o.count <= |rows|)
            && rows[..Min(|rows|, n * k)] + (if o.Fetched? then rows[o.start..o.start + o.count] else [])
               == rows[..Min(|rows|, n * k + k)]
  {
  }

  lemma {:induction false} CollectedPrefix<T>(rows: seq<T>, k: nat, outcomes: seq<Outcome>)
    requires k > 0 && AreRowsets(|rows|, k, outcomes)
    ensures forall o <- outcomes :: o.Fetched? ==> o.start + o.count <= |rows|
    ensures Collected(rows, outcomes) == rows[..Min(|rows|, |outcomes| * k)]
  {
    RowsetsInside(|rows|, k, outcomes);
    if outcomes != [] {
      var n := |outcomes| - 1;
      assert AreRowsets(|rows|, k, outcomes[..n]) && outcomes[n] == NthRowset(|rows|, k, n);
      hide AreRowsets, NthRowset, Collected;
      CollectedPrefix(rows, k, outcomes[..n]);
      CollectLast(rows, outcomes);
      NextSlice(rows, k, n);
      Numbers.OneMore(|outcomes|, k);
    }
  }

  lemma CeilingBounds(n: nat, k: nat, i: nat)
    requires k > 0
    ensures i < Ceiling(n, k) <==> i * k < n
  {
    var q, r := (n + k - 1) / k, (n + k - 1) % k;
    assert n + k - 1 == k * q + r && r < k;
    Bounds(n, k, i, q, r);
  }

  lemma Bounds(n: nat, k: nat, i: nat, q: nat, r: nat)
    requires k > 0 && r < k && n + k - 1 == k * q + r
    ensures i < q <==> i * k < n
  {
    if i < q {
      Products(i, q - 1, k);
      assert (q - 1) * k == k * q - k;
    } else {
      Products(q, i, k);
    }
  }

  lemma Products(a: nat, b: nat, k: nat)
    requires a <= b
    ensures a * k <= b * k
  {
  }

  /** From a freshly executed statement on, fetching the next rowset over and over hands out every row exactly once and
      in order: the first ceil(n/k) calls succeed and their slices make up the result, every later call finds nothing.
      */
  lemma SequentialCoverage<T>(rows: seq<T>, k: nat, times: nat)
    requires k > 0
    ensures var outcomes := Run(Position(0, 0), |rows|, NextCalls(k, times)).1;
            && (forall o <- outcomes :: o.Fetched? ==> o.start + o.count <= |rows|)
            && (forall i :: 0 <= i < times ==> (outcomes[i].Fetched? <==> i < Ceiling(|rows|, k)))
            && (times >= Ceiling(|rows|, k) ==> Collected(rows, outcomes) == rows)
  {
    AfterNextCalls(|rows|, k, times);
    hide Run, NextCalls, Collected, Ceiling;
    var outcomes := Run(Position(0, 0), |rows|, NextCalls(k, times)).1;
    CollectedPrefix(rows, k, outcomes);
    forall i | 0 <= i < times
      ensures outcomes[i].Fetched? <==> i < Ceiling(|rows|, k)
    {
      CeilingBounds(|rows|, k, i);
    }
    if times >= Ceiling(|rows|, k) {
      CeilingBounds(|rows|, k, times);
      assert rows[..|rows|] == rows;
    }
  }

  // ---------------------------------------------------------------------------------- lengths of the values

  /** The length that the conversion of a value works with: the recorded one, unless that is zero. */
  function TakenLength(text: string, recorded: nat): nat {
    if recorded == 0 then |text| else recorded
  }

  /** All rows of a rowset are delivered with the lengths of its first row. A value further down is taken at its own
      length exactly when the value above it in the first row is empty, null, or just as long. */
  lemma LengthOfLaterRow(first: Row, row: Row, column: nat)
    requires column < |first| == |row| && row[column].Text?
    ensures TakenLength(row[column].text, Lengths(first)[column]) == |row[column].text|
            <==> first[column].Null? || first[column].text == "" || |first[column].text| == |row[column].text|
  {
  }

  // ---------------------------------------------------------------------------------- the statement over a run

  /** The rows that an outcome names. */
  function Slice(rows: seq<Row>, o: Outcome): seq<Row>
    requires o.Fetched? ==> o.start + o.count <= |rows|
  {
    if o.Fetched? then rows[o.start..o.start + o.count] else []
  }

  function Values(bound: seq<Delivery>): (rows: seq<Row>)
    requires forall d <- bound :: d.Filled?
    ensures |rows| == |bound|
  {
    seq(|bound|, i requires 0 <= i < |bound| => bound[i].row)
  }

  /** The standings and outcomes of a run as it really goes; none once a fetch reads from an earlier result. */
  function Trail(s: Standing, rowCount: nat, dynamic: bool, calls: seq<Call>): (r: Option<(Standing, seq<Outcome>)>)
    ensures r.Some? ==> |r.value.1| == |calls|
  {
    if calls == [] then Some((s, []))
    else
      match Trail(s, rowCount, dynamic, calls[..|calls| - 1])
      case None => None
      case Some((t, outcomes)) =>
        var c := calls[|calls| - 1];
        match Visit(t, rowCount, dynamic, c.arraySize, c.fetchType, c.irow)
        case None => None
        case Some((u, outcome)) => Some((u, outcomes + [outcome]))
  }

  /** The remembered end after some outcomes: the end of the last of them that has rows. */
  function EndOf(end: Option<nat>, outcomes: seq<Outcome>): Option<nat> {
    if outcomes == [] then end
    else
      var last := outcomes[|outcomes| - 1];
      if last.Fetched? then Some(last.start + last.count) else EndOf(end, outcomes[..|outcomes| - 1])
  }

  /** Where a statement stands after calls that go as their steps say. */
  function StandingAfter(s: Standing, rowCount: nat, calls: seq<Call>): Standing {
    var (p, outcomes) := Run(s.at, rowCount, calls);
    Standing(p, EndOf(s.end, outcomes))
  }

  /** Every call that names rows either asks for another row than the one behind the last rowset, or that row is the end
      of the last rowset that had rows. This is told by the calls alone. */
  predicate AllRight(s: Standing, rowCount: nat, dynamic: bool, calls: seq<Call>) {
    calls != [] ==>
      var earlier, c := calls[..|calls| - 1], calls[|calls| - 1];
      var t := StandingAfter(s, rowCount, earlier);
      var outcome := Step(t.at, rowCount, c.arraySize, c.fetchType, c.irow).1;
      && AllRight(s, rowCount, dynamic, earlier)
      && (outcome.Fetched? ==> ReadsFrom(t, dynamic, outcome.start) == Some(outcome.start))
  }

  /** A run of fetches delivers what its steps name if and only if every fetch starts with the row that it names. */
  lemma {:induction false} RunIsRightIff(s: Standing, rowCount: nat, dynamic: bool, calls: seq<Call>)
    ensures var trail := Trail(s, rowCount, dynamic, calls);
            && (AllRight(s, rowCount, dynamic, calls) <==>
                  trail.Some? && trail.value.1 == Run(s.at, rowCount, calls).1)
            && (AllRight(s, rowCount, dynamic, calls) ==> trail.value.0 == StandingAfter(s, rowCount, calls))
  {
    if calls != [] {
      var earlier, c := calls[..|calls| - 1], calls[|calls| - 1];
      RunIsRightIff(s, rowCount, dynamic, earlier);
      var trail := Trail(s, rowCount, dynamic, earlier);
      hide Step, ReadsFrom, Visit;
      if trail.Some? {
        var t, outcomes := trail.value.0, Run(s.at, rowCount, earlier).1;
        var v := Visit(t, rowCount, dynamic, c.arraySize, c.fetchType, c.irow);
        var outcome := Step(Run(s.at, rowCount, earlier).0, rowCount, c.arraySize, c.fetchType, c.irow).1;
        RightIff(t, rowCount, dynamic, c.arraySize, c.fetchType, c.irow);
        LastOutcome(s.end, outcomes, outcome);
        if v.Some? {
          OnlyRightAgrees(t, rowCount, dynamic, c);
          LastOfBoth(trail.value.1, v.value.1, outcomes, outcome);
        }
      }
    }
  }

  lemma LastOutcome(end: Option<nat>, outcomes: seq<Outcome>, o: Outcome)
    ensures EndOf(end, outcomes + [o]) == if o.Fetched? then Some(o.start + o.count) else EndOf(end, outcomes)
  {
    assert (outcomes + [o])[..|outcomes|] == outcomes;
  }

  lemma LastOfBoth<T>(a: seq<T>, x: T, b: seq<T>, y: T)
    requires |a| == |b|
    ensures a + [x] == b + [y] <==> a == b && x == y
  {
    if a + [x] == b + [y] {
      assert a == (a + [x])[..|a|] && b == (b + [y])[..|b|];
      assert x == (a + [x])[|a|] && y == (b + [y])[|b|];
    }
  }

  /** The outcome alone tells whether the right rows have been read. */
  lemma OnlyRightAgrees(t: Standing, rowCount: nat, dynamic: bool, c: Call)
    ensures var (p, outcome) := Step(t.at, rowCount, c.arraySize, c.fetchType, c.irow);
            var v := Visit(t, rowCount, dynamic, c.arraySize, c.fetchType, c.irow);
            v.Some? && v.value.1 == outcome ==>
              v.value.0 == Standing(p, if outcome.Fetched? then Some(outcome.start + outcome.count) else t.end)
  {
    hide TargetRow, ReadsFrom;
  }

  /** From a sound statement on, runs with rowsets of at least one row are right. */
  lemma {:induction false} FullRowsetsAreRight(s: Standing, rowCount: nat, dynamic: bool, calls: seq<Call>)
    requires Sound(s, rowCount, dynamic) && forall c <- calls :: c.arraySize > 0
    ensures AllRight(s, rowCount, dynamic, calls) && Sound(StandingAfter(s, rowCount, calls), rowCount, dynamic)
  {
    if calls != [] {
      var earlier, c := calls[..|calls| - 1], calls[|calls| - 1];
      FullRowsetsAreRight(s, rowCount, dynamic, earlier);
      var t := StandingAfter(s, rowCount, earlier);
      SoundStays(t, rowCount, dynamic, c.arraySize, c.fetchType, c.irow);
      RightIff(t, rowCount, dynamic, c.arraySize, c.fetchType, c.irow);
      OnlyRightAgrees(t, rowCount, dynamic, c);
      var outcome := Step(t.at, rowCount, c.arraySize, c.fetchType, c.irow).1;
      LastOutcome(s.end, Run(s.at, rowCount, earlier).1, outcome);
      hide Step, ReadsFrom, Visit, Sound;
    }
  }

  /** The next rowset behind a fetch with a rowset size of zero is right if and only if that fetch has gone before the
      first row, on it or behind the last, or just to the remembered end. */
  lemma NextAfterZeroRowset(s: Standing, rowCount: nat, dynamic: bool, fetchType: FetchType, irow: int, next: Call)
    requires next.arraySize > 0 && next.fetchType == Next
    ensures var row := TargetRow(s.at, rowCount, 0, fetchType, irow);
            AllRight(s, rowCount, dynamic, [Call(0, fetchType, irow), next])
            <==> dynamic || row <= 0 || row >= rowCount || s.end == Some(row)
  {
    var zero := Call(0, fetchType, irow);
    ZeroRowset(s, rowCount, dynamic, fetchType, irow);
    AfterOne(s, rowCount, dynamic, zero, next);
    hide TargetRow, AllRight;
  }

  /** The second of two calls, where the first names no row. */
  lemma AfterOne(s: Standing, rowCount: nat, dynamic: bool, first: Call, second: Call)
    requires Step(s.at, rowCount, first.arraySize, first.fetchType, first.irow).1 == NothingFetched
    ensures var t := Visit(s, rowCount, dynamic, first.arraySize, first.fetchType, first.irow).value.0;
            var outcome := Step(t.at, rowCount, second.arraySize, second.fetchType, second.irow).1;
            AllRight(s, rowCount, dynamic, [first, second])
            <==> (outcome.Fetched? ==> ReadsFrom(t, dynamic, outcome.start) == Some(outcome.start))
  {
    assert [first, second][..1] == [first] && [first][..0] == [];
    assert AllRight(s, rowCount, dynamic, []);
    hide Step, ReadsFrom;
    assert AllRight(s, rowCount, dynamic, [first]);
    LastOutcome(s.end, [], NothingFetched);
    assert Run(s.at, rowCount, [first]).1 == [] + [NothingFetched];
    assert StandingAfter(s, rowCount, [first])
           == Visit(s, rowCount, dynamic, first.arraySize, first.fetchType, first.irow).value.0;
  }

  lemma {:induction false} TrailPrefix(s: Standing, rowCount: nat, dynamic: bool, calls: seq<Call>, k: nat)
    requires k <= |calls| && Trail(s, rowCount, dynamic, calls).Some?
    ensures Trail(s, rowCount, dynamic, calls[..k]).Some?
  {
    if k == |calls| {
      assert calls[..k] == calls;
    } else {
      TrailPrefix(s, rowCount, dynamic, calls[..|calls| - 1], k);
      assert calls[..|calls| - 1][..k] == calls[..k];
    }
  }

  /** Each call has delivered the rows that its outcome names. */
  ghost predicate Delivered(rows: seq<Row>, outcomes: seq<Outcome>, delivered: seq<seq<Row>>) {
    && |delivered| == |outcomes|
    && forall i :: 0 <= i < |outcomes| ==>
         && (outcomes[i].Fetched? ==> outcomes[i].start + outcomes[i].count <= |rows|)
         && delivered[i] == Slice(rows, outcomes[i])
  }

  lemma DeliverOneMore(rows: seq<Row>, outcomes: seq<Outcome>, delivered: seq<seq<Row>>, o: Outcome, more: seq<Row>)
    requires Delivered(rows, outcomes, delivered)
    requires (o.Fetched? ==> o.start + o.count <= |rows|) && more == Slice(rows, o)
    ensures Delivered(rows, outcomes + [o], delivered + [more])
  {
    hide Slice;
  }

  /** The calls that a cursor accepts; the others fail and change nothing. */
  function Accepted(cursorType: CursorType, safe: bool, calls: seq<Call>): seq<Call> {
    if calls == [] then []
    else
      var c := calls[|calls| - 1];
      Accepted(cursorType, safe, calls[..|calls| - 1]) + if Refused(cursorType, safe, c.fetchType) then [] else [c]
  }

  lemma OneMoreAccepted(cursorType: CursorType, safe: bool, calls: seq<Call>, k: nat)
    requires k < |calls|
    ensures Accepted(cursorType, safe, calls[..k + 1])
         == if Refused(cursorType, safe, calls[k].fetchType) then Accepted(cursorType, safe, calls[..k])
            else Accepted(cursorType, safe, calls[..k]) + [calls[k]]
  {
    assert calls[..k + 1][..k] == calls[..k];
  }

  lemma {:induction false} AcceptedPrefix(cursorType: CursorType, safe: bool, calls: seq<Call>, k: nat)
    requires k <= |calls|
    ensures Accepted(cursorType, safe, calls[..k]) <= Accepted(cursorType, safe, calls)
  {
    if k == |calls| {
      assert calls[..k] == calls;
    } else {
      AcceptedPrefix(cursorType, safe, calls[..|calls| - 1], k);
      assert calls[..|calls| - 1][..k] == calls[..k];
    }
  }

  /** A statement of any cursor type replays any run of fetches with any rowset sizes, whichever way it seeks. It goes
      through the standings of the calls that it accepts, and each of them delivers exactly the slice of rows that its
      outcome names; the others fail and change nothing. Only a read from an earlier result, which has no defined
      outcome, is left out. */
  method Replay(stmt: Statement, calls: seq<Call>, bound: array<Delivery>, status: array<RowStatus>, ghost s: Standing)
    returns (ghost outcomes: seq<Outcome>, delivered: seq<seq<Row>>)
    requires stmt.Valid() && stmt.Stands(s)
    requires forall c <- calls :: c.arraySize <= bound.Length && c.arraySize <= status.Length
    requires TrailOf(stmt, s, calls).Some?
    modifies stmt, stmt.result, bound, status
    ensures stmt.Valid() && stmt.Stands(TrailOf(stmt, s, calls).value.0)
    ensures outcomes == TrailOf(stmt, s, calls).value.1
    ensures Delivered(stmt.result.rows, outcomes, delivered)
  {
    outcomes, delivered := [], [];
    ghost var n, dynamic := |stmt.result.rows|, stmt.cursorType == Dynamic;
    ghost var t := s;
    assert Accepted(stmt.cursorType, stmt.safe, calls[..0]) == [];
    assert TrailOf(stmt, s, calls[..0]) == Some((s, []));
    assert Delivered(stmt.result.rows, outcomes, delivered);
    hide TrailOf, Visit, Slice, Linked, Delivered;
    for k := 0 to |calls|
      invariant stmt.Valid() && stmt.Stands(t) && TrailOf(stmt, s, calls[..k]) == Some((t, outcomes))
      invariant Delivered(stmt.result.rows, outcomes, delivered)
    {
      OneMoreCall(stmt, s, calls, k);
      if stmt.Refuses(calls[k].fetchType) {
        Fail(stmt, calls[k], bound, status, t);
      } else {
        var rows;
        ghost var o;
        o, rows := ReplayOne(stmt, calls[k], bound, status, t);
        t := Visit(t, n, dynamic, calls[k].arraySize, calls[k].fetchType, calls[k].irow).value.0;
        DeliverOneMore(stmt.result.rows, outcomes, delivered, o, rows);
        outcomes, delivered := outcomes + [o], delivered + [rows];
      }
    }
    assert calls[..|calls|] == calls;
  }

  /** The trail of the calls that a statement accepts. */
  function TrailOf(stmt: Statement, s: Standing, calls: seq<Call>): Option<(Standing, seq<Outcome>)> {
    Trail(s, |stmt.result.rows|, stmt.cursorType == Dynamic, Accepted(stmt.cursorType, stmt.safe, calls))
  }

  lemma OneMoreCall(stmt: Statement, s: Standing, calls: seq<Call>, k: nat)
    requires k < |calls| && TrailOf(stmt, s, calls).Some?
    ensures var trail, c := TrailOf(stmt, s, calls[..k]), calls[k];
            && trail.Some?
            && (stmt.Refuses(c.fetchType) ==> TrailOf(stmt, s, calls[..k + 1]) == trail)
            && (!stmt.Refuses(c.fetchType) ==>
                  var v := Visit(trail.value.0, |stmt.result.rows|, stmt.cursorType == Dynamic, c.arraySize, c.fetchType,
                                 c.irow);
                  v.Some? && TrailOf(stmt, s, calls[..k + 1]) == Some((v.value.0, trail.value.1 + [v.value.1])))
  {
    TrailOfPrefix(stmt, s, calls, k);
    TrailOfPrefix(stmt, s, calls, k + 1);
    OneMoreAccepted(stmt.cursorType, stmt.safe, calls, k);
    var done := Accepted(stmt.cursorType, stmt.safe, calls[..k]);
    hide Accepted, Visit, Trail, Refused;
    if !stmt.Refuses(calls[k].fetchType) {
      LastCall(s, |stmt.result.rows|, stmt.cursorType == Dynamic, done, calls[k]);
    }
  }

  lemma TrailOfPrefix(stmt: Statement, s: Standing, calls: seq<Call>, k: nat)
    requires k <= |calls| && TrailOf(stmt, s, calls).Some?
    ensures TrailOf(stmt, s, calls[..k]).Some?
  {
    AcceptedPrefix(stmt.cursorType, stmt.safe, calls, k);
    var accepted, done := Accepted(stmt.cursorType, stmt.safe, calls), Accepted(stmt.cursorType, stmt.safe, calls[..k]);
    TrailPrefix(s, |stmt.result.rows|, stmt.cursorType == Dynamic, accepted, |done|);
    hide Accepted, Trail;
    assert accepted[..|done|] == done;
  }

  lemma LastCall(s: Standing, rowCount: nat, dynamic: bool, calls: seq<Call>, c: Call)
    requires Trail(s, rowCount, dynamic, calls + [c]).Some?
    ensures var trail := Trail(s, rowCount, dynamic, calls);
            && trail.Some?
            && var v := Visit(trail.value.0, rowCount, dynamic, c.arraySize, c.fetchType, c.irow);
            && v.Some?
            && Trail(s, rowCount, dynamic, calls + [c]) == Some((v.value.0, trail.value.1 + [v.value.1]))
  {
    assert (calls + [c])[..|calls|] == calls;
    hide Visit;
  }

  /** A call that the cursor refuses. */
  method Fail(stmt: Statement, c: Call, bound: array<Delivery>, status: array<RowStatus>, ghost s: Standing)
    requires stmt.Valid() && stmt.Stands(s) && stmt.Refuses(c.fetchType)
    requires c.arraySize <= bound.Length && c.arraySize <= status.Length
    modifies stmt, stmt.result, bound, status
    ensures stmt.Valid() && stmt.Stands(s)
  {
    hide Linked, Visit;
    stmt.arraySize := c.arraySize;
    var rc, fetched := stmt.FetchScroll(c.fetchType, c.irow, None, bound, status, s);
  }

  method ReplayOne(stmt: Statement, c: Call, bound: array<Delivery>, status: array<RowStatus>, ghost s: Standing)
    returns (ghost outcome: Outcome, rows: seq<Row>)
    requires stmt.Valid() && stmt.Stands(s) && !stmt.Refuses(c.fetchType)
    requires c.arraySize <= bound.Length && c.arraySize <= status.Length
    requires Visit(s, |stmt.result.rows|, stmt.cursorType == Dynamic, c.arraySize, c.fetchType, c.irow).Some?
    modifies stmt, stmt.result, bound, status
    ensures stmt.Valid()
    ensures var v := Visit(s, |stmt.result.rows|, stmt.cursorType == Dynamic, c.arraySize, c.fetchType, c.irow).value;
            stmt.Stands(v.0) && outcome == v.1
    ensures outcome.Fetched? ==> outcome.start + outcome.count <= |stmt.result.rows|
    ensures rows == Slice(stmt.result.rows, outcome)
  {
    hide Linked, Visit;
    outcome := Visit(s, |stmt.result.rows|, stmt.cursorType == Dynamic, c.arraySize, c.fetchType, c.irow).value.1;
    stmt.arraySize := c.arraySize;
    var rc, fetched := stmt.FetchScroll(c.fetchType, c.irow, None, bound, status, s);
    rows := if rc == Success then Values(bound[..fetched]) else [];
  }

  // ---------------------------------------------------------------------------------- the statement fetched to its end

  function Flatten<T>(parts: seq<seq<T>>): seq<T> {
    if parts == [] then [] else Flatten(parts[..|parts| - 1]) + parts[|parts| - 1]
  }

  lemma {:induction false} FlattenIsCollected(rows: seq<Row>, outcomes: seq<Outcome>, delivered: seq<seq<Row>>)
    requires Delivered(rows, outcomes, delivered)
    ensures forall o <- outcomes :: o.Fetched? ==> o.start + o.count <= |rows|
    ensures Flatten(delivered) == Collected(rows, outcomes)
  {
    if outcomes != [] {
      FlattenIsCollected(rows, outcomes[..|outcomes| - 1], delivered[..|delivered| - 1]);
    }
  }

  lemma {:induction false} NextIsAccepted(cursorType: CursorType, safe: bool, k: nat, times: nat)
    ensures Accepted(cursorType, safe, NextCalls(k, times)) == NextCalls(k, times)
  {
    if times > 0 {
      NextIsAccepted(cursorType, safe, k, times - 1);
      assert NextCalls(k, times)[..times - 1] == NextCalls(k, times - 1);
      assert NextCalls(k, times)[times - 1] == Call(k, Next, 0);
    }
  }

  /** The run of an application that keeps fetching the next rowset is as its steps say, whatever the statement
      remembers of an earlier result. */
  lemma NextCallsAreRight(rowCount: nat, dynamic: bool, k: nat, times: nat)
    requires k > 0
    ensures var trail := Trail(Standing(Position(0, 0), None), rowCount, dynamic, NextCalls(k, times));
            trail.Some? && trail.value.1 == Run(Position(0, 0), rowCount, NextCalls(k, times)).1
  {
    var s := Standing(Position(0, 0), None);
    SoundIff(s, rowCount, dynamic);
    FullRowsetsAreRight(s, rowCount, dynamic, NextCalls(k, times));
    RunIsRightIff(s, rowCount, dynamic, NextCalls(k, times));
    hide Trail, Run, AllRight, Sound;
  }

  /** What such a run delivers. */
  lemma NextCallsDeliver(rows: seq<Row>, k: nat, times: nat, outcomes: seq<Outcome>, delivered: seq<seq<Row>>)
    requires k > 0 && times >= Ceiling(|rows|, k)
    requires outcomes == Run(Position(0, 0), |rows|, NextCalls(k, times)).1 && Delivered(rows, outcomes, delivered)
    ensures Flatten(delivered) == rows
    ensures forall i :: 0 <= i < times ==>
              |delivered[i]| == if i < Ceiling(|rows|, k) then Min(|rows| - i * k, k) else 0
  {
    SequentialCoverage(rows, k, times);
    AfterNextCalls(|rows|, k, times);
    FlattenIsCollected(rows, outcomes, delivered);
    hide Run, NextCalls, Collected, Ceiling, Flatten;
    forall i | 0 <= i < times
      ensures |delivered[i]| == if i < Ceiling(|rows|, k) then Min(|rows| - i * k, k) else 0
    {
      assert outcomes[i] == NthRowset(|rows|, k, i);
    }
  }

  /** Replay the calls on a statement that has just been executed, with buffers for k rows. */
  method ReplayFresh(rows: seq<Row>, cursorType: CursorType, safe: bool, stale: RowNode?, calls: seq<Call>, k: nat)
    returns (ghost outcomes: seq<Outcome>, delivered: seq<seq<Row>>)
    requires forall c <- calls :: c.arraySize <= k
    requires Trail(Standing(Position(0, 0), None), |rows|, cursorType == Dynamic, Accepted(cursorType, safe, calls)).Some?
    ensures outcomes
         == Trail(Standing(Position(0, 0), None), |rows|, cursorType == Dynamic, Accepted(cursorType, safe, calls)).value.1
    ensures Delivered(rows, outcomes, delivered)
  {
    var stmt := new Statement(rows, cursorType, safe, stale);
    var bound := new Delivery[k](_ => Nothing);
    var status := new RowStatus[k](_ => Untouched);
    TrailOfIs(stmt, Standing(Position(0, 0), None), calls);
    hide Trail, TrailOf, Accepted, Delivered, Linked;
    outcomes, delivered := Replay(stmt, calls, bound, status, Standing(Position(0, 0), None));
  }

  /** From a statement of any cursor type that has just been executed, fetching the next rowset of k rows often enough
      delivers every row exactly once and in order, and then nothing. */
  method FetchEverything(rows: seq<Row>, cursorType: CursorType, safe: bool, stale: RowNode?, k: nat, times: nat)
    returns (delivered: seq<seq<Row>>)
    requires k > 0 && times >= Ceiling(|rows|, k)
    ensures |delivered| == times && Flatten(delivered) == rows
    ensures forall i :: 0 <= i < times ==>
              |delivered[i]| == if i < Ceiling(|rows|, k) then Min(|rows| - i * k, k) else 0
  {
    NextCallsAreRight(|rows|, cursorType == Dynamic, k, times);
    NextIsAccepted(cursorType, safe, k, times);
    ghost var outcomes;
    outcomes, delivered := ReplayFresh(rows, cursorType, safe, stale, NextCalls(k, times), k);
    hide Trail, Run, Ceiling, Accepted, Flatten, Slice;
    NextCallsDeliver(rows, k, times, outcomes, delivered);
  }

  /** From a statement that has just been executed and may scroll, LAST delivers the last k rows, and NEXT behind it
      finds nothing. */
  method FetchLast(rows: seq<Row>, cursorType: CursorType, safe: bool, stale: RowNode?, k: nat)
    returns (last: seq<Row>, behind: seq<Row>)
    requires 0 < k <= |rows| && (cursorType != ForwardOnly || safe)
    ensures last == rows[|rows| - k..] && behind == []
  {
    LastThenNext(|rows|, cursorType, safe, k);
    hide *;
    ghost var outcomes;
    var delivered;
    outcomes, delivered := ReplayFresh(rows, cursorType, safe, stale, LastCalls(k), k);
    LastDelivered(rows, k, outcomes, delivered);
    last, behind := delivered[0], delivered[1];
  }

  /** The last rowset, and the one behind it. */
  function LastCalls(k: nat): (calls: seq<Call>)
    ensures forall c <- calls :: c.arraySize == k
  {
    [Call(k, Last, 0), Call(k, Next, 0)]
  }

  lemma LastDelivered(rows: seq<Row>, k: nat, outcomes: seq<Outcome>, delivered: seq<seq<Row>>)
    requires k <= |rows| && Delivered(rows, outcomes, delivered)
    requires outcomes == [Fetched(|rows| - k, k), NothingFetched]
    ensures |delivered| == 2 && delivered[0] == rows[|rows| - k..] && delivered[1] == []
  {
    TwoDelivered(rows, outcomes, delivered);
    SliceOf(rows, outcomes[0]);
    hide Delivered, Slice;
  }

  lemma TrailOfIs(stmt: Statement, s: Standing, calls: seq<Call>)
    ensures TrailOf(stmt, s, calls)
         == Trail(s, |stmt.result.rows|, stmt.cursorType == Dynamic, Accepted(stmt.cursorType, stmt.safe, calls))
  {
  }

  lemma TwoDelivered(rows: seq<Row>, outcomes: seq<Outcome>, delivered: seq<seq<Row>>)
    requires Delivered(rows, outcomes, delivered) && |outcomes| == 2
    ensures |delivered| == 2 && (outcomes[0].Fetched? ==> outcomes[0].start + outcomes[0].count <= |rows|)
    ensures delivered[0] == Slice(rows, outcomes[0]) && (outcomes[1] == NothingFetched ==> delivered[1] == [])
  {
  }

  lemma SliceOf(rows: seq<Row>, o: Outcome)
    requires o.Fetched? ==> o.start + o.count <= |rows|
    ensures Slice(rows, o) == if o.Fetched? then rows[o.start..o.start + o.count] else []
    ensures o.Fetched? && o.start + o.count == |rows| ==> Slice(rows, o) == rows[o.start..]
  {
  }

  lemma LastThenNext(n: nat, cursorType: CursorType, safe: bool, k: nat)
    requires 0 < k <= n && (cursorType != ForwardOnly || safe)
    ensures var calls := LastCalls(k);
            var trail := Trail(Standing(Position(0, 0), None), n, cursorType == Dynamic, Accepted(cursorType, safe, calls));
            trail.Some? && trail.value.1 == [Fetched(n - k, k), NothingFetched]
  {
    var s, calls, dynamic := Standing(Position(0, 0), None), LastCalls(k), cursorType == Dynamic;
    assert calls == [calls[0], calls[1]] && calls[0] == Call(k, Last, 0) && calls[1] == Call(k, Next, 0);
    hide *;
    TwoAccepted(cursorType, safe, calls[0], calls[1]);
    SoundIff(s, n, dynamic);
    FullRowsetsAreRight(s, n, dynamic, calls);
    RunIsRightIff(s, n, dynamic, calls);
    EndsOfResult(s.at, n, k, 0);
    TwoCalls(s.at, n, calls[0], calls[1]);
  }

  lemma TwoAccepted(cursorType: CursorType, safe: bool, first: Call, second: Call)
    ensures !Refused(cursorType, safe, first.fetchType) && !Refused(cursorType, safe, second.fetchType) ==>
              Accepted(cursorType, safe, [first, second]) == [first, second]
    ensures cursorType != ForwardOnly || safe ==>
              !Refused(cursorType, safe, Last) && !Refused(cursorType, safe, Next)
  {
    assert [first, second][..1] == [first] && [first][..0] == [];
    assert Accepted(cursorType, safe, []) == [];
    hide Refused;
    assert !Refused(cursorType, safe, first.fetchType) ==> Accepted(cursorType, safe, [first]) == [first];
  }

  lemma TwoCalls(p: Position, n: nat, first: Call, second: Call)
    ensures var (q, o) := Step(p, n, first.arraySize, first.fetchType, first.irow);
            Run(p, n, [first, second]).1 == [o, Step(q, n, second.arraySize, second.fetchType, second.irow).1]
  {
    assert [first, second][..1] == [first] && [first][..0] == [];
    var (q, o) := Step(p, n, first.arraySize, first.fetchType, first.irow);
    hide Step;
    assert Run(p, n, []) == (p, []);
    assert Run(p, n, [first]) == (q, [] + [o]);
  }
}
