/** Executing a prepared statement for an array of parameter sets. */
module Execution {
  import opened Options
  import opened Basics
  import opened Lexer
  import opened Substitution
  import opened TempBuffers
  import opened Tokenizer

  /** The text between the parts of a SELECT that is executed for several parameter sets. */
  const UNION_ALL := " UNION ALL "

  datatype ParamSet = ParamSet(ignored: bool, values: seq<Rendering>)

  datatype ParamStatus = ParamSuccess | ParamSuccessWithInfo | ParamError | ParamUnused | ParamDiagUnavailable

  datatype Outcome = Returned(rc: ReturnCode) | Thrown

  /** An execution: the statement, its parameter sets, and how the server answers each statement, which may depend on
      all statements sent before. */
  datatype Job = Job(query: string, select: bool, sets: seq<ParamSet>, reply: seq<string> -> ReturnCode) {

    function Markers(): seq<nat> {
      Lexed(query).params
    }

    ghost predicate Valid() {
      forall set_ <- sets :: |set_.values| == |Markers()|
    }
  }

  // ---------------------------------------------------------------------------------- what one parameter set does

  ghost function SetInsertion(j: Job, r: nat): Insertion
    requires j.Valid() && r < |j.sets|
  {
    MarkersInside(j.query);
    Inserted(j.query, j.Markers(), j.sets[r].values)
  }

  ghost predicate IsLast(j: Job, r: nat) {
    r == |j.sets| - 1
  }

  /** The set takes part and all its values can be rendered. */
  ghost predicate Complete(j: Job, r: nat)
    requires j.Valid() && r < |j.sets|
  {
    j.Markers() == [] || (!j.sets[r].ignored && SetInsertion(j, r).rc != Error)
  }

  /** What set r leaves in the buffer. */
  ghost function Contribution(j: Job, r: nat): string
    requires j.Valid() && r < |j.sets|
  {
    if j.Markers() == [] || j.sets[r].ignored then ""
    else SetInsertion(j, r).text + if Complete(j, r) && j.select && !IsLast(j, r) then UNION_ALL else ""
  }

  /** The buffer after the first r sets. */
  ghost function Collected(j: Job, r: nat): string
    requires j.Valid() && r <= |j.sets|
  {
    if r == 0 then "" else Collected(j, r - 1) + Contribution(j, r - 1)
  }

  /** The statement that set r submits, if it submits one. */
  ghost function Statement(j: Job, r: nat): string
    requires j.Valid() && r < |j.sets|
  {
    if j.Markers() == [] then j.query else Collected(j, r) + SetInsertion(j, r).text
  }

  ghost predicate Submits(j: Job, r: nat)
    requires j.Valid() && r < |j.sets|
  {
    Complete(j, r) && (!j.select || IsLast(j, r))
  }

  /** The statements sent for the first r sets. An empty statement is not sent. */
  ghost function Sent(j: Job, r: nat): seq<string>
    requires j.Valid() && r <= |j.sets|
  {
    if r == 0 then []
    else Sent(j, r - 1)
         + if Submits(j, r - 1) && Statement(j, r - 1) != "" then [Statement(j, r - 1)] else []
  }

  /** What came of set r, unless it is ignored. */
  ghost function SetResult(j: Job, r: nat): ReturnCode
    requires j.Valid() && r < |j.sets|
  {
    if !Submits(j, r) then if j.Markers() == [] then Success else SetInsertion(j, r).rc
    else if Statement(j, r) == "" then Success
    else j.reply(Sent(j, r + 1))
  }

  ghost function RowStatus(j: Job, r: nat): ParamStatus
    requires j.Valid() && r < |j.sets|
  {
    if j.sets[r].ignored then ParamUnused else Mapped(SetResult(j, r))
  }

  function Mapped(rc: ReturnCode): ParamStatus {
    match rc
    case Success => ParamSuccess
    case SuccessWithInfo => ParamSuccessWithInfo
    case Error => ParamDiagUnavailable
  }

  // ---------------------------------------------------------------------------------- what the call reports

  /** A statement was answered with plain success. */
  ghost predicate SomeSuccess(j: Job, r: nat)
    requires j.Valid() && r <= |j.sets|
  {
    exists k: nat :: k < r && Submits(j, k) && SetResult(j, k) == Success
  }

  /** A rendering or an answer was less than plain success. */
  ghost predicate SomeTrouble(j: Job, r: nat)
    requires j.Valid() && r <= |j.sets|
  {
    exists k: nat :: k < r && Troubled(j, k)
  }

  ghost predicate Troubled(j: Job, k: nat)
    requires j.Valid() && k < |j.sets|
  {
    (j.Markers() == [] || !j.sets[k].ignored)
    && (SetResult(j, k) != Success || (j.Markers() != [] && SetInsertion(j, k).rc != Success))
  }

  /** The set that an error was last noted for. */
  ghost predicate IsLastError(j: Job, r: nat, last: Option<nat>)
    requires j.Valid() && r <= |j.sets|
  {
    match last
    case None => forall k: nat :: k < r ==> RowStatus(j, k) != ParamDiagUnavailable
    case Some(l) => l < r && RowStatus(j, l) == ParamDiagUnavailable
                    && forall k: nat :: l < k < r ==> RowStatus(j, k) != ParamDiagUnavailable
  }

  /** The statuses of the first r sets are right, but for the mark on the last error. */
  ghost predicate StatusesRight(j: Job, r: nat, status: seq<ParamStatus>)
    requires j.Valid() && r <= |j.sets| == |status|
  {
    forall k: nat :: k < r ==> status[k] == RowStatus(j, k)
  }

  /** The last error, for which diagnostics exist, is marked as an error. */
  ghost predicate StatusesFinal(j: Job, status: seq<ParamStatus>)
    requires j.Valid() && |j.sets| == |status|
  {
    forall k: nat :: k < |status| ==>
      status[k] == if IsLastError(j, |j.sets|, Some(k)) then ParamError else RowStatus(j, k)
  }

  lemma MarkLastError(j: Job, status: seq<ParamStatus>, last: Option<nat>)
    requires j.Valid() && |j.sets| == |status| && StatusesRight(j, |j.sets|, status)
    requires IsLastError(j, |j.sets|, last)
    ensures last.Some? ==> last.value < |status| && StatusesFinal(j, status[last.value := ParamError])
    ensures last.None? ==> StatusesFinal(j, status)
  {
    hide RowStatus;
  }

  /** The return code when r sets are done. */
  ghost function LastCode(j: Job, r: nat): ReturnCode
    requires j.Valid() && r <= |j.sets|
  {
    if r == 0 then Success
    else if (if j.Markers() == [] then !Submits(j, r - 1) else j.sets[r - 1].ignored) then LastCode(j, r - 1)
    else SetResult(j, r - 1)
  }

  ghost function Result(j: Job): Outcome
    requires j.Valid()
  {
    var n := |j.sets|;
    if n > 1 && !SomeSuccess(j, n) then Thrown
    else if n > 1 && SomeTrouble(j, n) then Returned(SuccessWithInfo)
    else Returned(LastCode(j, n))
  }

  /** How far an execution has come. */
  datatype Progress =
    Progress(sent: seq<string>, rc: ReturnCode, trouble: bool, allFailed: bool, lastError: Option<nat>)

  /** The progress is right after r sets; errors are noted only where statuses are kept. */
  ghost predicate Track(j: Job, r: nat, p: Progress, kept: bool)
    requires j.Valid() && r <= |j.sets|
  {
    && p.sent == Sent(j, r)
    && p.rc == LastCode(j, r)
    && p.trouble == SomeTrouble(j, r)
    && p.allFailed == (|j.sets| > 1 && !SomeSuccess(j, r))
    && (if kept then IsLastError(j, r, p.lastError) else p.lastError == None)
  }

  lemma TrackStart(j: Job, kept: bool)
    requires j.Valid()
    ensures Track(j, 0, Progress([], Success, false, |j.sets| > 1, None), kept)
  {
  }

  lemma TroubleStep(j: Job, r: nat)
    requires j.Valid() && r < |j.sets|
    ensures SomeTrouble(j, r + 1) <==> SomeTrouble(j, r) || Troubled(j, r)
  {
    hide Troubled;
  }

  lemma SuccessStep(j: Job, r: nat)
    requires j.Valid() && r < |j.sets|
    ensures SomeSuccess(j, r + 1) <==> SomeSuccess(j, r) || (Submits(j, r) && SetResult(j, r) == Success)
  {
    hide Submits, SetResult;
  }

  lemma ErrorStep(j: Job, r: nat, last: Option<nat>)
    requires j.Valid() && r < |j.sets| && IsLastError(j, r, last)
    ensures IsLastError(j, r + 1, if RowStatus(j, r) == ParamDiagUnavailable then Some(r) else last)
  {
    hide RowStatus;
  }

  /** The progress after one more set, in terms of what the set does. */
  lemma TrackStep(j: Job, r: nat, p: Progress, kept: bool)
    requires j.Valid() && r < |j.sets| && Track(j, r, p, kept)
    ensures Track(j, r + 1,
                  Progress(Sent(j, r + 1), LastCode(j, r + 1), p.trouble || Troubled(j, r),
                           p.allFailed && !(Submits(j, r) && SetResult(j, r) == Success),
                           if kept && RowStatus(j, r) == ParamDiagUnavailable then Some(r) else p.lastError), kept)
  {
    hide Troubled, Submits, SetResult, RowStatus, Sent, LastCode, SomeTrouble, SomeSuccess, IsLastError;
    TroubleStep(j, r);
    SuccessStep(j, r);
    if kept {
      ErrorStep(j, r, p.lastError);
    }
  }

  /** A set that is passed over: an ignored one, or one of a SELECT without parameters that is not the last. */
  lemma Passed(j: Job, r: nat)
    requires j.Valid() && r < |j.sets|
    requires if j.Markers() == [] then !Submits(j, r) else j.sets[r].ignored
    ensures Sent(j, r + 1) == Sent(j, r) && LastCode(j, r + 1) == LastCode(j, r)
    ensures !Troubled(j, r) && !Submits(j, r) && (j.Markers() != [] ==> RowStatus(j, r) == ParamUnused)
    ensures Collected(j, r + 1) == Collected(j, r)
  {
    hide SetInsertion, Inserted, Lexed;
  }

  /** A set that is rendered, perhaps not fully, but submits nothing. */
  lemma OnlyRendered(j: Job, r: nat)
    requires j.Valid() && r < |j.sets| && j.Markers() != [] && !j.sets[r].ignored && !Submits(j, r)
    ensures Sent(j, r + 1) == Sent(j, r) && LastCode(j, r + 1) == SetInsertion(j, r).rc
    ensures Troubled(j, r) <==> SetInsertion(j, r).rc != Success
    ensures RowStatus(j, r) == Mapped(SetInsertion(j, r).rc)
  {
    hide SetInsertion, Inserted, Lexed, Submits, Statement;
  }

  /** A set that submits a statement. */
  lemma Submitted(j: Job, r: nat)
    requires j.Valid() && r < |j.sets| && Submits(j, r)
    ensures LastCode(j, r + 1) == SetResult(j, r)
    ensures Troubled(j, r) <==>
              SetResult(j, r) != Success || (j.Markers() != [] && SetInsertion(j, r).rc != Success)
    ensures j.Markers() != [] ==> RowStatus(j, r) == Mapped(SetResult(j, r))
  {
    hide SetInsertion, Inserted, Lexed, SetResult, Statement;
  }

  lemma TrackPassed(j: Job, r: nat, p: Progress, kept: bool)
    requires j.Valid() && r < |j.sets| && Track(j, r, p, kept)
    requires if j.Markers() == [] then !Submits(j, r) && !kept else j.sets[r].ignored
    ensures Track(j, r + 1, p, kept) && Collected(j, r + 1) == Collected(j, r)
    ensures j.Markers() != [] ==> RowStatus(j, r) == ParamUnused
  {
    TrackStep(j, r, p, kept);
    Passed(j, r);
    hide Sent, LastCode, Troubled, Submits, SetResult, RowStatus, SomeTrouble, SomeSuccess, Collected, IsLastError;
  }

  lemma TrackRendered(j: Job, r: nat, p: Progress, kept: bool)
    requires j.Valid() && r < |j.sets| && Track(j, r, p, kept)
    requires j.Markers() != [] && !j.sets[r].ignored && !Submits(j, r)
    ensures Track(j, r + 1, WithResult(p, r, SetInsertion(j, r).rc, kept), kept)
    ensures RowStatus(j, r) == Mapped(SetInsertion(j, r).rc)
  {
    TrackStep(j, r, p, kept);
    OnlyRendered(j, r);
    hide Sent, LastCode, Troubled, Submits, SetResult, RowStatus, SomeTrouble, SomeSuccess, IsLastError, SetInsertion;
  }

  /** The result of a set, or of its rendering, is noted. */
  function WithResult(p: Progress, r: nat, rc: ReturnCode, kept: bool): Progress {
    p.(rc := rc, trouble := p.trouble || rc != Success,
       lastError := if kept && rc == Error then Some(r) else p.lastError)
  }

  /** A statement has been submitted. */
  function WithAnswer(p: Progress, r: nat, sent: seq<string>, rc: ReturnCode, kept: bool): Progress {
    WithResult(p, r, rc, kept).(sent := sent, allFailed := p.allFailed && rc != Success)
  }

  lemma TrackSubmitted(j: Job, r: nat, p: Progress, kept: bool)
    requires j.Valid() && r < |j.sets| && Track(j, r, p, kept) && Submits(j, r) && (kept ==> j.Markers() != [])
    ensures j.Markers() == [] ==>
              Track(j, r + 1, WithAnswer(p, r, Sent(j, r + 1), SetResult(j, r), kept), kept)
    ensures j.Markers() != [] ==>
              Track(j, r + 1, WithAnswer(WithResult(p, r, SetInsertion(j, r).rc, kept), r, Sent(j, r + 1),
                                         SetResult(j, r), kept), kept)
              && RowStatus(j, r) == Mapped(SetResult(j, r))
  {
    TrackStep(j, r, p, kept);
    Submitted(j, r);
    assert j.Markers() != [] ==> SetInsertion(j, r).rc != Error;
    hide Sent, LastCode, Troubled, Submits, SetResult, RowStatus, SomeTrouble, SomeSuccess, IsLastError, SetInsertion;
  }

  lemma CollectedStep(j: Job, r: nat)
    requires j.Valid() && r < |j.sets| && j.Markers() != [] && !j.sets[r].ignored
    ensures Collected(j, r + 1)
            == Collected(j, r) + SetInsertion(j, r).text
               + if SetInsertion(j, r).rc != Error && j.select && r < |j.sets| - 1 then UNION_ALL else ""
  {
    var binder := if Complete(j, r) && j.select && !IsLast(j, r) then UNION_ALL else "";
    assert Collected(j, r + 1) == Collected(j, r) + (SetInsertion(j, r).text + binder);
    assert binder == if SetInsertion(j, r).rc != Error && j.select && r < |j.sets| - 1 then UNION_ALL else "";
    hide *;
    Regroup(Collected(j, r), SetInsertion(j, r).text, binder);
  }

  /** When a statement is submitted, what it is, and what it does to the statements sent. */
  lemma SubmittedStatement(j: Job, r: nat)
    requires j.Valid() && r < |j.sets|
    ensures Submits(j, r) <==> (j.Markers() == [] || (!j.sets[r].ignored && SetInsertion(j, r).rc != Error))
                               && (!j.select || r == |j.sets| - 1)
    ensures Submits(j, r) ==>
              Sent(j, r + 1) == Sent(j, r) + (if Statement(j, r) == "" then [] else [Statement(j, r)])
    ensures Submits(j, r) ==>
              SetResult(j, r) == if Statement(j, r) == "" then Success else j.reply(Sent(j, r + 1))
  {
    hide SetInsertion, Statement;
  }

  lemma TrackEnd(j: Job, p: Progress, kept: bool)
    requires j.Valid() && Track(j, |j.sets|, p, kept)
    ensures p.sent == Sent(j, |j.sets|) && (if kept then IsLastError(j, |j.sets|, p.lastError) else p.lastError == None)
    ensures Result(j) == if |j.sets| > 1 && p.allFailed then Thrown
                         else if |j.sets| > 1 && p.trouble then Returned(SuccessWithInfo) else Returned(p.rc)
    ensures p.lastError.Some? ==> p.lastError.value < |j.sets|
  {
  }

  /** What a set that takes part does, in the terms of the buffer and of the values noted. */
  lemma FilledSet(j: Job, r: nat, p: Progress, kept: bool)
    requires j.Valid() && r < |j.sets| && Track(j, r, p, kept)
    requires j.Markers() != [] && !j.sets[r].ignored
    ensures Inside(j.query, j.Markers())
    ensures var done := Inserted(j.query, j.Markers(), j.sets[r].values);
            var last := !j.select || r == |j.sets| - 1;
            var rendered := WithResult(p, r, done.rc, kept);
            && Collected(j, r + 1) == Collected(j, r) + done.text
                                      + (if done.rc != Error && j.select && r < |j.sets| - 1 then UNION_ALL else "")
            && SetInsertion(j, r) == done && p.sent == Sent(j, r)
            && (Submits(j, r) <==> done.rc != Error && last)
            && Statement(j, r) == Collected(j, r) + done.text
            && (Submits(j, r) ==>
                  Track(j, r + 1, WithAnswer(rendered, r, Sent(j, r + 1), SetResult(j, r), kept), kept)
                  && RowStatus(j, r) == Mapped(SetResult(j, r)))
            && (!Submits(j, r) ==> Track(j, r + 1, rendered, kept) && RowStatus(j, r) == Mapped(done.rc))
  {
    MarkersInside(j.query);
    assert SetInsertion(j, r) == Inserted(j.query, j.Markers(), j.sets[r].values);
    assert Statement(j, r) == Collected(j, r) + SetInsertion(j, r).text;
    assert p.sent == Sent(j, r);
    CollectedStep(j, r);
    SubmittedStatement(j, r);
    hide *;
    if Submits(j, r) {
      TrackSubmitted(j, r, p, kept);
    } else {
      TrackRendered(j, r, p, kept);
    }
  }

  lemma StatusStep(j: Job, r: nat, before: seq<ParamStatus>, after: seq<ParamStatus>)
    requires j.Valid() && r < |j.sets| == |before| == |after|
    requires StatusesRight(j, r, before) && after == before[r := RowStatus(j, r)]
    ensures StatusesRight(j, r + 1, after)
  {
    hide RowStatus;
  }

  class Stmt {
    const query: string
    const markers: seq<nat>
    const buffer: TempBuffer
    /** The statuses of the parameter sets, where a place for them is given. */
    var status: Option<seq<ParamStatus>>

    ghost predicate Valid()
      reads buffer
    {
      markers == Lexed(query).params && buffer.Valid()
    }

    /** Prepare a query. */
    constructor (query: string, status: Option<seq<ParamStatus>>)
      ensures Valid() && this.status == status && this.query == query && fresh(buffer) && fresh(buffer.buf)
    {
      var parser := new Parser(query);
      parser.Tokenize();
      this.query, this.status, markers := query, status, parser.paramPos;
      buffer := new TempBuffer(16384);
    }

    /** Append one value. A failure may leave some of it behind. */
    method InsertParam(value: Rendering) returns (rc: ReturnCode)
      requires buffer.Valid() && !value.Unbound?
      modifies buffer, buffer.buf
      ensures buffer.Valid() && (buffer.buf == old(buffer.buf) || fresh(buffer.buf))
      ensures buffer.Contents() == old(buffer.Contents()) + if value.Failed? then value.partial else value.text
      ensures rc == if value.Failed? then Error else if value.info then SuccessWithInfo else Success
    {
      match value
      case Failed(partial) =>
        buffer.AddToBuffer(partial);
        rc := Error;
      case Rendered(text, info) =>
        buffer.AddToBuffer(text);
        rc := if info then SuccessWithInfo else Success;
    }

    /** One round of the insertion: the query up to a marker, and the value of the marker. */
    method InsertNext(piece: string, value: Rendering, ghost start: string, ghost done: Insertion)
      returns (rc: ReturnCode)
      requires buffer.Valid() && done.rc != Error && buffer.Contents() == start + done.text
      modifies buffer, buffer.buf
      ensures buffer.Valid() && (buffer.buf == old(buffer.buf) || fresh(buffer.buf))
      ensures buffer.Contents() == start + Fill(done, piece, value).text
      ensures Fill(done, piece, value).rc == if rc == Success then done.rc else rc
    {
      if value.Unbound? {
        return Error;
      }
      buffer.AddToBuffer(piece);
      rc := InsertParam(value);
      var rest := if value.Failed? then value.partial else value.text;
      Regroup(start, done.text, piece);
      Regroup(start, done.text + piece, rest);
    }

    /** Append the query to the buffer, with the values in the place of the markers. When that succeeds the new
        statement is the whole buffer. */
    method InsertParams(row: seq<Rendering>, finalQuery: string) returns (rc: ReturnCode, newQuery: string)
      requires Valid() && |row| == |markers|
      modifies buffer, buffer.buf
      ensures buffer.Valid() && (buffer.buf == old(buffer.buf) || fresh(buffer.buf))
      ensures Inside(query, markers) && rc == Inserted(query, markers, row).rc
      ensures buffer.Contents() == old(buffer.Contents()) + Inserted(query, markers, row).text
      ensures newQuery == if rc == Error then finalQuery else buffer.Contents()
    {
      newQuery := finalQuery;
      MarkersInside(query);
      hide Lexed, Inside, Filled, Inserted, Fill, Resume;
      ghost var start := buffer.Contents();
      ghost var done := Insertion("", Success);
      var hadInfo, pos, i := false, 0, 0;
      StartFilling(query, markers, row);
      while i < |markers|
        invariant i <= |markers| && pos == Resume(markers, i)
        invariant buffer.Valid() && (buffer.buf == old(buffer.buf) || fresh(buffer.buf))
        invariant done == Filled(query, markers, row, i) && done.rc == if hadInfo then SuccessWithInfo else Success
        invariant buffer.Contents() == start + done.text
      {
        FilledStep(query, markers, row, i);
        var result := InsertNext(query[pos..markers[i]], row[i], start, done);
        done := Filled(query, markers, row, i + 1);
        if result == Error {
          InsertedIs(query, markers, row, i + 1);
          return Error, finalQuery;
        }
        hadInfo := hadInfo || result == SuccessWithInfo;
        pos, i := markers[i] + 1, i + 1;
      }
      InsertedIs(query, markers, row, i);
      ResumeInside(query, markers, i);
      buffer.AddToBuffer(query[pos..]);
      newQuery := buffer.buf[..buffer.curPos];
      rc := if hadInfo then SuccessWithInfo else Success;
    }

    /** Send a statement, unless it is empty. */
    method DoQuery(finalQuery: string, sent: seq<string>, reply: seq<string> -> ReturnCode)
      returns (rc: ReturnCode, nowSent: seq<string>)
      ensures nowSent == sent + if finalQuery == "" then [] else [finalQuery]
      ensures rc == if finalQuery == "" then Success else reply(nowSent)
    {
      if finalQuery == "" {
        return Success, sent;
      }
      nowSent := sent + [finalQuery];
      rc := reply(nowSent);
    }

    /** Render one parameter set. Behind a set of a SELECT that is not the last, the text that binds it to the next. */
    method RenderSet(set_: ParamSet, finalQuery: string, select: bool, row: nat, arraySize: nat)
      returns (rc: ReturnCode, newQuery: string)
      requires Valid() && |set_.values| == |markers| && row < arraySize
      modifies buffer, buffer.buf
      ensures Valid() && (buffer.buf == old(buffer.buf) || fresh(buffer.buf))
      ensures Inside(query, markers) && rc == Inserted(query, markers, set_.values).rc
      ensures buffer.Contents() == old(buffer.Contents()) + Inserted(query, markers, set_.values).text
                                   + if rc != Error && select && row < arraySize - 1 then UNION_ALL else ""
      ensures newQuery == if rc == Error || (select && row < arraySize - 1) then finalQuery
                          else old(buffer.Contents()) + Inserted(query, markers, set_.values).text
    {
      newQuery := finalQuery;
      if select && row < arraySize - 1 {
        var dummy;
        rc, dummy := InsertParams(set_.values, "");
      } else {
        rc, newQuery := InsertParams(set_.values, finalQuery);
      }
      hide Inserted, Lexed;
      if rc == Error {
        return;
      }
      if arraySize > 1 && select && row < arraySize - 1 {
        buffer.AddToBuffer(UNION_ALL);
      }
    }

    /** Note what came of a set, where a place for it is given. */
    method MapErrorToParamStatus(at: Option<nat>, rc: ReturnCode) returns (error: bool)
      requires at.Some? ==> status.Some? && at.value < |status.value|
      modifies this`status
      ensures at.None? ==> status == old(status)
      ensures at.Some? && rc == Success ==> status == Some(old(status).value[at.value := ParamSuccess])
      ensures at.Some? && rc == SuccessWithInfo ==> status == Some(old(status).value[at.value := ParamSuccessWithInfo])
      ensures at.Some? && rc == Error ==> status == Some(old(status).value[at.value := ParamDiagUnavailable])
      ensures error == (at.Some? && rc == Error)
    {
      error := false;
      if at.Some? {
        status := Some(status.value[at.value := Mapped(rc)]);
        error := rc == Error;
      }
    }

    /** Note the return code of a rendering or of an answer. */
    method NoteResult(p: Progress, row: nat, rc: ReturnCode, at: Option<nat>) returns (next: Progress)
      requires at.Some? ==> status.Some? && at.value == row < |status.value|
      modifies this`status
      ensures next == WithResult(p, row, rc, at.Some?)
      ensures status == if at.Some? then Some(old(status).value[row := Mapped(rc)]) else old(status)
    {
      var error := MapErrorToParamStatus(at, rc);
      next := p.(rc := rc, trouble := p.trouble || rc != Success, lastError := if error then at else p.lastError);
    }

    /** Submit the statement of a set. */
    method SubmitSet(j: Job, row: nat, finalQuery: string, p: Progress, at: Option<nat>) returns (next: Progress)
      requires at.Some? ==> status.Some? && at.value == row < |status.value|
      requires j.Valid() && row < |j.sets| && Submits(j, row)
      requires finalQuery == Statement(j, row) && p.sent == Sent(j, row)
      modifies this`status
      ensures next == WithAnswer(p, row, Sent(j, row + 1), SetResult(j, row), at.Some?)
      ensures status == if at.Some? then Some(old(status).value[row := Mapped(SetResult(j, row))]) else old(status)
    {
      SubmittedStatement(j, row);
      hide Submits, Statement, Sent, SetResult, Mapped;
      var rc, sent := DoQuery(finalQuery, p.sent, j.reply);
      next := NoteResult(p, row, rc, at);
      next := next.(sent := sent, allFailed := next.allFailed && rc != Success);
    }

    /** What must hold between two parameter sets. */
    ghost predicate Between(j: Job, r: nat, finalQuery: string, p: Progress)
      reads this, buffer, buffer.buf
      requires j.Valid() && r <= |j.sets|
    {
      && Valid() && j.query == query && (status.Some? ==> |status.value| == |j.sets|)
      && Track(j, r, p, status.Some? && markers != [])
      && buffer.Contents() == Collected(j, r)
      && (markers == [] ==> finalQuery == query)
      && (status.Some? && markers != [] ==> StatusesRight(j, r, status.value))
    }

    /** A statement without parameters is submitted as it is, a SELECT only for the last set. */
    method ExecutePlain(j: Job, row: nat, finalQuery: string, p: Progress) returns (next: Progress)
      requires markers == [] && j.Valid() && row < |j.sets| && Between(j, row, finalQuery, p)
      modifies this`status
      ensures Between(j, row + 1, finalQuery, next) && status == old(status)
    {
      assert j.Markers() == markers;
      SubmittedStatement(j, row);
      assert Statement(j, row) == j.query;
      assert Collected(j, row + 1) == Collected(j, row) + "";
      hide Submits, Statement, Sent, SetResult, Mapped, SetInsertion, Lexed, Collected;
      next := p;
      if !j.select || row == |j.sets| - 1 {
        TrackSubmitted(j, row, p, false);
        next := SubmitSet(j, row, finalQuery, p, None);
      } else {
        TrackPassed(j, row, p, false);
      }
    }

    /** A set that is ignored leaves only a status. */
    method IgnoreSet(j: Job, row: nat, finalQuery: string, p: Progress)
      requires markers != [] && j.Valid() && row < |j.sets| && Between(j, row, finalQuery, p)
      requires j.sets[row].ignored
      modifies this`status
      ensures Between(j, row + 1, finalQuery, p) && status.Some? == old(status).Some?
    {
      assert j.Markers() == markers;
      TrackPassed(j, row, p, status.Some? && markers != []);
      hide Track, StatusesRight, Collected, Lexed;
      if status.Some? {
        StatusStep(j, row, status.value, status.value[row := ParamUnused]);
        status := Some(status.value[row := ParamUnused]);
      }
    }

    /** What follows the rendering of a set: it is noted, and the statement is submitted if it is complete. */
    method FinishSet(j: Job, row: nat, finalQuery: string, rc: ReturnCode, p: Progress) returns (next: Progress)
      requires j.Valid() && row < |j.sets| && j.Markers() != [] && !j.sets[row].ignored
      requires Track(j, row, p, status.Some?) && rc == SetInsertion(j, row).rc
      requires status.Some? ==> |status.value| == |j.sets| && StatusesRight(j, row, status.value)
      requires rc != Error && (!j.select || row == |j.sets| - 1) ==> finalQuery == Statement(j, row)
      modifies this`status
      ensures Track(j, row + 1, next, status.Some?) && status.Some? == old(status).Some?
      ensures status.Some? ==> |status.value| == |j.sets| && StatusesRight(j, row + 1, status.value)
    {
      FilledSet(j, row, p, status.Some?);
      hide Submits, Statement, Sent, SetResult, Mapped, Inserted, Lexed, Collected, Track, StatusesRight, RowStatus,
        WithResult, WithAnswer;
      var at := if status.None? then None else Some(row);
      next := NoteResult(p, row, rc, at);
      if rc != Error && (!j.select || row == |j.sets| - 1) {
        next := SubmitSet(j, row, finalQuery, next, at);
      }
      if status.Some? {
        StatusStep(j, row, old(status).value, status.value);
      }
    }

    /** A set whose values are put in the place of the markers. */
    method ExecuteFilled(j: Job, row: nat, finalQuery: string, p: Progress) returns (newQuery: string, next: Progress)
      requires markers != [] && j.Valid() && row < |j.sets| && Between(j, row, finalQuery, p)
      requires !j.sets[row].ignored
      modifies this`status, buffer, buffer.buf
      ensures Between(j, row + 1, newQuery, next) && status.Some? == old(status).Some?
      ensures buffer.buf == old(buffer.buf) || fresh(buffer.buf)
    {
      assert j.Markers() == markers;
      FilledSet(j, row, p, status.Some?);
      hide Submits, Statement, Sent, SetResult, Mapped, Inserted, Lexed, Collected, Track, StatusesRight, RowStatus,
        WithResult, WithAnswer;
      var rc;
      rc, newQuery := RenderSet(j.sets[row], finalQuery, j.select, row, |j.sets|);
      next := FinishSet(j, row, newQuery, rc, p);
    }

    /** One parameter set. */
    method ExecuteSet(j: Job, row: nat, finalQuery: string, p: Progress) returns (newQuery: string, next: Progress)
      requires j.Valid() && row < |j.sets| && Between(j, row, finalQuery, p)
      modifies this`status, buffer, buffer.buf
      ensures Between(j, row + 1, newQuery, next) && status.Some? == old(status).Some?
      ensures buffer.buf == old(buffer.buf) || fresh(buffer.buf)
      ensures markers == [] ==> status == old(status)
    {
      newQuery, next := finalQuery, p;
      hide *;
      if markers == [] {
        next := ExecutePlain(j, row, finalQuery, p);
      } else if j.sets[row].ignored {
        IgnoreSet(j, row, finalQuery, p);
      } else {
        newQuery, next := ExecuteFilled(j, row, finalQuery, p);
      }
    }

    lemma BetweenMeans(j: Job, r: nat, finalQuery: string, p: Progress)
      requires j.Valid() && r <= |j.sets| && Between(j, r, finalQuery, p)
      ensures Valid() && (status.Some? ==> |status.value| == |j.sets|)
      ensures Track(j, r, p, status.Some? && markers != [])
      ensures status.Some? && markers != [] ==> StatusesRight(j, r, status.value)
    {
    }

    /** Mark the last error, and report on the whole call. */
    method Report(j: Job, p: Progress) returns (outcome: Outcome)
      requires j.Valid() && Track(j, |j.sets|, p, status.Some? && markers != [])
      requires status.Some? ==> |status.value| == |j.sets|
      requires status.Some? && markers != [] ==> StatusesRight(j, |j.sets|, status.value)
      modifies this`status
      ensures outcome == Result(j) && status.Some? == old(status).Some?
      ensures if status.Some? && markers != [] then |status.value| == |j.sets| && StatusesFinal(j, status.value)
              else status == old(status)
    {
      TrackEnd(j, p, status.Some? && markers != []);
      hide Track, StatusesRight, StatusesFinal, Result, IsLastError;
      if p.lastError.Some? {
        MarkLastError(j, status.value, p.lastError);
        status := Some(status.value[p.lastError.value := ParamError]);
      } else if status.Some? && markers != [] {
        MarkLastError(j, status.value, None);
      }
      outcome := if |j.sets| > 1 && p.allFailed then Thrown
                 else if |j.sets| > 1 && p.trouble then Returned(SuccessWithInfo) else Returned(p.rc);
    }

    /** Execute for all parameter sets. */
    method Execute(j: Job) returns (outcome: Outcome, sent: seq<string>)
      requires Valid() && j.query == query && j.Valid() && (status.Some? ==> |status.value| == |j.sets|)
      modifies this`status, buffer, buffer.buf
      ensures Valid() && sent == Sent(j, |j.sets|) && outcome == Result(j) && status.Some? == old(status).Some?
      ensures if status.Some? && markers != [] then |status.value| == |j.sets| && StatusesFinal(j, status.value)
              else status == old(status)
    {
      buffer.Reset();
      var finalQuery, row := query, 0;
      var p := Progress([], Success, false, |j.sets| > 1, None);
      TrackStart(j, status.Some? && markers != []);
      assert Between(j, row, finalQuery, p);
      hide *;
      while row < |j.sets|
        invariant row <= |j.sets| && Between(j, row, finalQuery, p)
        invariant buffer.buf == old(buffer.buf) || fresh(buffer.buf)
        invariant status.Some? == old(status).Some? && (markers == [] ==> status == old(status))
      {
        finalQuery, p := ExecuteSet(j, row, finalQuery, p);
        row := row + 1;
      }
      BetweenMeans(j, row, finalQuery, p);
      TrackEnd(j, p, status.Some? && markers != []);
      sent := p.sent;
      outcome := Report(j, p);
    }
  }
}
