/** What an execution sends, compared with the statements that the parameter sets stand for. */
module ExecutionRuns {
  import opened Lexer
  import opened Substitution
  import opened Execution

  /** The statement that set r stands for. */
  ghost function OwnText(j: Job, r: nat): string
    requires j.Valid() && r < |j.sets|
  {
    Substituted(j.query, Texts(j.sets[r].values), |j.query|)
  }

  ghost predicate TakesPart(j: Job, r: nat)
    requires j.Valid() && r < |j.sets|
  {
    Complete(j, r) && !j.sets[r].ignored
  }

  /** The statements of the sets that take part, among the first r. */
  ghost function OwnTexts(j: Job, r: nat): seq<string>
    requires j.Valid() && r <= |j.sets|
  {
    if r == 0 then [] else OwnTexts(j, r - 1) + if TakesPart(j, r - 1) then [OwnText(j, r - 1)] else []
  }

  function Join(texts: seq<string>): string {
    if texts == [] then ""
    else if |texts| == 1 then texts[0]
    else Join(texts[..|texts| - 1]) + UNION_ALL + texts[|texts| - 1]
  }

  function WithBinders(texts: seq<string>): string {
    if texts == [] then "" else WithBinders(texts[..|texts| - 1]) + texts[|texts| - 1] + UNION_ALL
  }

  /** How much text the failed ones among the first r sets have left in the buffer. */
  ghost function Leftover(j: Job, r: nat): nat
    requires j.Valid() && r <= |j.sets|
  {
    if r == 0 then 0
    else Leftover(j, r - 1)
         + if j.sets[r - 1].ignored || Complete(j, r - 1) then 0 else |SetInsertion(j, r - 1).text|
  }

  lemma CompleteText(j: Job, r: nat)
    requires j.Valid() && r < |j.sets| && j.Markers() != [] && Complete(j, r)
    ensures SetInsertion(j, r).text == OwnText(j, r)
  {
    MarkersInside(j.query);
    InsertionSucceeds(j.query, j.Markers(), j.sets[r].values);
    hide Lexed, Inserted, Substituted, Texts, Inside;
    InsertionIsSubstitution(j.query, j.sets[r].values);
  }

  // ---------------------------------------------------------------------------------- SELECT

  lemma {:induction false} JoinBinders(texts: seq<string>, last: string)
    ensures Join(texts + [last]) == WithBinders(texts) + last
  {
    assert (texts + [last])[..|texts|] == texts;
    if texts != [] {
      var init, t := texts[..|texts| - 1], texts[|texts| - 1];
      assert texts == init + [t];
      JoinBinders(init, t);
    }
  }

  lemma AddBinder(texts: seq<string>, t: string)
    ensures WithBinders(texts + [t]) == WithBinders(texts) + t + UNION_ALL
  {
    assert (texts + [t])[..|texts|] == texts;
  }

  /** The buffer of a SELECT holds the statements of the sets so far, each with the text that binds it, and what failed
      sets have left. */
  lemma {:induction false} SelectCollects(j: Job, r: nat)
    requires j.Valid() && r < |j.sets| && j.select && j.Markers() != []
    ensures |Collected(j, r)| == |WithBinders(OwnTexts(j, r))| + Leftover(j, r)
    ensures Leftover(j, r) == 0 ==> Collected(j, r) == WithBinders(OwnTexts(j, r))
  {
    hide *;
    if r == 0 {
      NothingCollected(j);
    } else {
      SelectCollects(j, r - 1);
      CollectOne(j, r - 1);
      OwnStep(j, r - 1);
      if TakesPart(j, r - 1) {
        AddBinder(OwnTexts(j, r - 1), OwnText(j, r - 1));
      }
    }
  }

  lemma NothingCollected(j: Job)
    requires j.Valid()
    ensures Collected(j, 0) == WithBinders(OwnTexts(j, 0)) == "" && Leftover(j, 0) == 0
  {
  }

  lemma OwnStep(j: Job, r: nat)
    requires j.Valid() && r < |j.sets| && j.Markers() != []
    ensures TakesPart(j, r) ==>
              OwnTexts(j, r + 1) == OwnTexts(j, r) + [OwnText(j, r)] && SetInsertion(j, r).text == OwnText(j, r)
    ensures !TakesPart(j, r) ==> OwnTexts(j, r + 1) == OwnTexts(j, r)
    ensures Leftover(j, r + 1)
            == Leftover(j, r) + if TakesPart(j, r) || j.sets[r].ignored then 0 else |SetInsertion(j, r).text|
  {
    if TakesPart(j, r) {
      CompleteText(j, r);
    }
    hide OwnText, SetInsertion, Lexed;
  }

  lemma CollectOne(j: Job, r: nat)
    requires j.Valid() && r < |j.sets| - 1 && j.select && j.Markers() != []
    ensures TakesPart(j, r) ==> Collected(j, r + 1) == Collected(j, r) + SetInsertion(j, r).text + UNION_ALL
    ensures j.sets[r].ignored ==> Collected(j, r + 1) == Collected(j, r)
    ensures !TakesPart(j, r) && !j.sets[r].ignored ==>
              Collected(j, r + 1) == Collected(j, r) + SetInsertion(j, r).text
  {
    assert Collected(j, r + 1) == Collected(j, r) + Contribution(j, r);
    hide SetInsertion, Lexed, Collected;
    if TakesPart(j, r) {
      assert Contribution(j, r) == SetInsertion(j, r).text + UNION_ALL;
      hide *;
      assert Collected(j, r) + (SetInsertion(j, r).text + UNION_ALL)
          == Collected(j, r) + SetInsertion(j, r).text + UNION_ALL;
    } else if !j.sets[r].ignored {
      assert Contribution(j, r) == SetInsertion(j, r).text + "";
    }
  }

  lemma {:induction false} SelectWaits(j: Job, r: nat)
    requires j.Valid() && r < |j.sets| && j.select
    ensures Sent(j, r) == []
  {
    hide Statement, Complete;
    if r > 0 {
      SelectWaits(j, r - 1);
    }
  }

  /** A SELECT with parameters is sent at most once, and only if the last set takes part. What is sent is the union of
      the statements of the sets that take part exactly when no failed set has left any text. */
  lemma SelectSendsUnion(j: Job)
    requires j.Valid() && j.sets != [] && j.select && j.Markers() != []
    ensures var last := |j.sets| - 1;
            if TakesPart(j, last) && Statement(j, last) != "" then
              Sent(j, |j.sets|) == [Statement(j, last)]
              && (Statement(j, last) == Join(OwnTexts(j, |j.sets|)) <==> Leftover(j, last) == 0)
            else Sent(j, |j.sets|) == []
  {
    var last := |j.sets| - 1;
    SelectWaits(j, last);
    if TakesPart(j, last) {
      CompleteText(j, last);
      SelectCollects(j, last);
      JoinBinders(OwnTexts(j, last), OwnText(j, last));
      assert OwnTexts(j, |j.sets|) == OwnTexts(j, last) + [OwnText(j, last)];
      assert Statement(j, last) == Collected(j, last) + OwnText(j, last);
    }
    hide OwnText, OwnTexts, Join, WithBinders, Leftover, Collected, SetInsertion, Lexed, Statement;
  }

  /** When the last set is to be ignored, the sets in front of it are not executed either, and the call fails. */
  lemma LastIgnoredLosesAll(j: Job)
    requires j.Valid() && |j.sets| > 1 && j.select && j.Markers() != [] && j.sets[|j.sets| - 1].ignored
    ensures Sent(j, |j.sets|) == [] && Result(j) == Thrown
  {
    hide Statement, SetInsertion, Lexed, SetResult;
    SelectWaits(j, |j.sets| - 1);
  }

  // ---------------------------------------------------------------------------------- other statements

  /** Every one of the first r sets is ignored or has an empty text. */
  ghost predicate NothingLeft(j: Job, r: nat)
    requires j.Valid() && r <= |j.sets|
  {
    forall k: nat :: k < r ==> j.sets[k].ignored || SetInsertion(j, k).text == ""
  }

  lemma StartOfRun(j: Job)
    requires j.Valid()
    ensures Collected(j, 0) == "" && Sent(j, 0) == [] && NothingLeft(j, 0)
  {
  }

  lemma NothingLeftStep(j: Job, r: nat)
    requires j.Valid() && r < |j.sets|
    ensures NothingLeft(j, r + 1) <==> NothingLeft(j, r) && (j.sets[r].ignored || SetInsertion(j, r).text == "")
  {
    hide SetInsertion;
  }

  /** The buffer is empty in front of set r exactly when nothing is left by the sets before. */
  lemma {:induction false} CollectedIsEmpty(j: Job, r: nat)
    requires j.Valid() && r <= |j.sets| && !j.select && j.Markers() != []
    ensures Collected(j, r) == "" <==> NothingLeft(j, r)
  {
    hide *;
    if r == 0 {
      StartOfRun(j);
    } else {
      CollectedIsEmpty(j, r - 1);
      CollectAnother(j, r - 1);
      NothingLeftStep(j, r - 1);
    }
  }

  lemma CollectAnother(j: Job, r: nat)
    requires j.Valid() && r < |j.sets| && !j.select && j.Markers() != []
    ensures Collected(j, r + 1) == Collected(j, r) + if j.sets[r].ignored then "" else SetInsertion(j, r).text
  {
    hide SetInsertion, Lexed;
  }

  /** The buffer is not reset between sets: set r sends its own statement exactly when no earlier set has left any text.
      Otherwise it sends the statements of the earlier sets once more in front of its own. */
  lemma SetSendsOwnStatement(j: Job, r: nat)
    requires j.Valid() && r < |j.sets| && !j.select && j.Markers() != [] && TakesPart(j, r)
    ensures Submits(j, r) && Statement(j, r) == Collected(j, r) + OwnText(j, r)
    ensures Statement(j, r) == OwnText(j, r) <==> NothingLeft(j, r)
  {
    CompleteText(j, r);
    CollectedIsEmpty(j, r);
    assert Statement(j, r) == Collected(j, r) + OwnText(j, r);
    hide *;
  }

  lemma SentStep(j: Job, r: nat)
    requires j.Valid() && r < |j.sets| && !j.select && j.Markers() != []
    ensures TakesPart(j, r) && Statement(j, r) != "" ==> Sent(j, r + 1) == Sent(j, r) + [Statement(j, r)]
    ensures !TakesPart(j, r) ==> Sent(j, r + 1) == Sent(j, r)
  {
    hide Statement, Lexed, SetInsertion;
  }

  predicate EndsWith(s: string, end: string) {
    |end| <= |s| && s[|s| - |end|..] == end
  }

  ghost predicate EachEndsWith(sent: seq<string>, ends: seq<string>) {
    |sent| == |ends| && forall i :: 0 <= i < |sent| ==> EndsWith(sent[i], ends[i])
  }

  lemma EndsWithLast(front: string, end: string)
    ensures EndsWith(front + end, end)
  {
  }

  lemma OneMoreEnd(sent: seq<string>, ends: seq<string>, s: string, end: string)
    requires EachEndsWith(sent, ends) && EndsWith(s, end)
    ensures EachEndsWith(sent + [s], ends + [end])
  {
    hide EndsWith;
  }

  lemma NothingSent(j: Job)
    requires j.Valid()
    ensures EachEndsWith(Sent(j, 0), OwnTexts(j, 0))
  {
  }

  /** Every set that takes part in a statement that is no SELECT submits one that ends in its own statement, in order,
      and nothing else is sent. */
  lemma {:induction false} OneStatementPerSet(j: Job, r: nat)
    requires j.Valid() && r <= |j.sets| && !j.select && j.Markers() != []
    requires forall k: nat :: k < r && TakesPart(j, k) ==> Statement(j, k) != ""
    ensures EachEndsWith(Sent(j, r), OwnTexts(j, r))
  {
    hide *;
    if r == 0 {
      NothingSent(j);
    } else {
      OneStatementPerSet(j, r - 1);
      OwnStep(j, r - 1);
      SentStep(j, r - 1);
      if TakesPart(j, r - 1) {
        SetSendsOwnStatement(j, r - 1);
        EndsWithLast(Collected(j, r - 1), OwnText(j, r - 1));
        OneMoreEnd(Sent(j, r - 1), OwnTexts(j, r - 1), Statement(j, r - 1), OwnText(j, r - 1));
      }
    }
  }

  lemma MarkerOfExample()
    ensures Lexed("v?").params == [1]
  {
    var q := "v?";
    assert Before(q, 0) == Scan(Plain(true), [], []);
    assert Before(q, 1) == Scan(Plain(false), [0], []);
    assert Before(q, 2) == Scan(Plain(false), [0], [1]);
  }

  lemma InsertionOfExample(text: string)
    ensures Inside("v?", [1]) && Inserted("v?", [1], [Rendered(text, false)]) == Insertion("v" + text, Success)
  {
    var row := [Rendered(text, false)];
    assert Filled("v?", [1], row, 0) == Insertion("", Success);
    assert Piece("v?", [1], 0) == "v";
    assert Filled("v?", [1], row, 1) == Insertion("v" + text, Success);
    assert Tail("v?", [1], 1) == "";
  }

  /** Two rows for a query with one marker: the second statement contains the first. */
  lemma SecondStatementRepeatsFirst(reply: seq<string> -> ReturnCode)
    ensures var j := Job("v?", false, [ParamSet(false, [Rendered("1", false)]), ParamSet(false, [Rendered("2", false)])],
                         reply);
            j.Valid() && Sent(j, 2) == ["v1", "v1v2"]
  {
    var j := Job("v?", false, [ParamSet(false, [Rendered("1", false)]), ParamSet(false, [Rendered("2", false)])], reply);
    MarkerOfExample();
    InsertionOfExample("1");
    InsertionOfExample("2");
    assert SetInsertion(j, 0) == Insertion("v1", Success) && SetInsertion(j, 1) == Insertion("v2", Success);
    hide SetInsertion, Lexed, Collected, Sent;
    CollectAnother(j, 0);
    StartOfRun(j);
    assert Statement(j, 0) == "v1" && Statement(j, 1) == "v1v2";
    SentStep(j, 0);
    SentStep(j, 1);
  }

  // ---------------------------------------------------------------------------------- statuses

  /** What a set that takes part comes to: the code of its rendering if it submits nothing, otherwise the answer to its
      statement; an empty statement is not sent and counts as plain success. */
  ghost predicate ComesTo(j: Job, r: nat, rc: ReturnCode)
    requires j.Valid() && r < |j.sets|
  {
    !j.sets[r].ignored
    && if SetInsertion(j, r).rc == Error || (j.select && r < |j.sets| - 1) then SetInsertion(j, r).rc == rc
       else if Collected(j, r) + SetInsertion(j, r).text == "" then rc == Success
       else j.reply(Sent(j, r + 1)) == rc
  }

  lemma RowStatusIs(j: Job, r: nat)
    requires j.Valid() && r < |j.sets| && j.Markers() != []
    ensures RowStatus(j, r) == ParamUnused <==> j.sets[r].ignored
    ensures RowStatus(j, r) == ParamSuccess <==> ComesTo(j, r, Success)
    ensures RowStatus(j, r) == ParamSuccessWithInfo <==> ComesTo(j, r, SuccessWithInfo)
    ensures RowStatus(j, r) == ParamDiagUnavailable <==> ComesTo(j, r, Error)
    ensures RowStatus(j, r) != ParamError
  {
    SubmittedStatement(j, r);
    assert Statement(j, r) == Collected(j, r) + SetInsertion(j, r).text;
    hide SetInsertion, Lexed, Collected, Sent, Statement, Submits;
  }

  /** After an execution with parameters every set has its status: unused if it was ignored, success or success with
      info as it came to that; of the failed sets the last one is marked as an error, and for the others no diagnostics
      are available. */
  lemma StatusOfSet(j: Job, status: seq<ParamStatus>, r: nat)
    requires j.Valid() && j.Markers() != [] && |status| == |j.sets| && StatusesFinal(j, status) && r < |status|
    ensures status[r] == ParamUnused <==> j.sets[r].ignored
    ensures status[r] == ParamSuccess <==> ComesTo(j, r, Success)
    ensures status[r] == ParamSuccessWithInfo <==> ComesTo(j, r, SuccessWithInfo)
    ensures status[r] == ParamError <==>
              ComesTo(j, r, Error) && forall l: nat :: r < l < |j.sets| ==> !ComesTo(j, l, Error)
    ensures status[r] == ParamDiagUnavailable <==>
              ComesTo(j, r, Error) && exists l: nat :: r < l < |j.sets| && ComesTo(j, l, Error)
  {
    forall l: nat | l < |j.sets|
      ensures RowStatus(j, l) == ParamDiagUnavailable <==> ComesTo(j, l, Error)
    {
      RowStatusIs(j, l);
    }
    RowStatusIs(j, r);
    hide RowStatus, ComesTo;
  }

  // ---------------------------------------------------------------------------------- the whole call

  /** The set submits a statement: it takes part, is rendered fully, and for a SELECT is the last. */
  ghost predicate GoesOut(j: Job, r: nat)
    requires j.Valid() && r < |j.sets|
  {
    !j.sets[r].ignored && SetInsertion(j, r).rc != Error && (!j.select || r == |j.sets| - 1)
  }

  /** A set that takes part is neither rendered nor answered with less than plain success. */
  ghost predicate IsPlain(j: Job, r: nat)
    requires j.Valid() && r < |j.sets|
  {
    j.sets[r].ignored || (SetInsertion(j, r).rc == Success && ComesTo(j, r, Success))
  }

  lemma SetResultIs(j: Job, r: nat)
    requires j.Valid() && r < |j.sets| && j.Markers() != []
    ensures Submits(j, r) <==> GoesOut(j, r)
    ensures !j.sets[r].ignored ==> ComesTo(j, r, SetResult(j, r)) && forall rc :: ComesTo(j, r, rc) ==> rc == SetResult(j, r)
    ensures Troubled(j, r) <==> !IsPlain(j, r)
  {
    SubmittedStatement(j, r);
    assert Statement(j, r) == Collected(j, r) + SetInsertion(j, r).text;
    hide SetInsertion, Lexed, Collected, Sent, Statement;
  }

  lemma {:induction false} PlainCode(j: Job, r: nat)
    requires j.Valid() && r <= |j.sets| && j.Markers() != [] && forall k: nat :: k < r ==> IsPlain(j, k)
    ensures LastCode(j, r) == Success
  {
    hide *;
    if r == 0 {
      NothingYet(j);
    } else {
      PlainCode(j, r - 1);
      SetResultIs(j, r - 1);
      PlainStep(j, r - 1);
    }
  }

  lemma NothingYet(j: Job)
    requires j.Valid()
    ensures LastCode(j, 0) == Success
  {
  }

  lemma PlainStep(j: Job, r: nat)
    requires j.Valid() && r < |j.sets| && j.Markers() != [] && IsPlain(j, r) && LastCode(j, r) == Success
    requires !j.sets[r].ignored ==> forall rc :: ComesTo(j, r, rc) ==> rc == SetResult(j, r)
    ensures LastCode(j, r + 1) == Success
  {
    hide SetInsertion, SetResult, ComesTo, Submits, Lexed;
  }

  /** With several sets the call throws if and only if no statement is answered with plain success. Otherwise it
      succeeds, and plainly if and only if every set that takes part does. */
  lemma OutcomeIs(j: Job)
    requires j.Valid() && |j.sets| > 1 && j.Markers() != []
    ensures Result(j) == Thrown <==> forall r: nat :: r < |j.sets| && GoesOut(j, r) ==> !ComesTo(j, r, Success)
    ensures Result(j) == Returned(Success) <==> Result(j) != Thrown && forall r: nat :: r < |j.sets| ==> IsPlain(j, r)
    ensures Result(j) in {Thrown, Returned(Success), Returned(SuccessWithInfo)}
  {
    forall r: nat | r < |j.sets|
      ensures Submits(j, r) && SetResult(j, r) == Success <==> GoesOut(j, r) && ComesTo(j, r, Success)
      ensures Troubled(j, r) <==> !IsPlain(j, r)
    {
      SetResultIs(j, r);
      hide ComesTo, Submits, SetResult, Troubled, IsPlain;
    }
    if forall r: nat :: r < |j.sets| ==> IsPlain(j, r) {
      PlainCode(j, |j.sets|);
    }
    hide ComesTo, Submits, SetResult, Troubled, IsPlain, GoesOut, LastCode, Lexed;
  }

  /** A single set gives the call its own code. */
  lemma OutcomeOfOne(j: Job)
    requires j.Valid() && |j.sets| == 1 && j.Markers() != []
    ensures j.sets[0].ignored ==> Result(j) == Returned(Success)
    ensures !j.sets[0].ignored ==> forall rc :: ComesTo(j, 0, rc) ==> Result(j) == Returned(rc)
  {
    SetResultIs(j, 0);
    assert LastCode(j, 0) == Success;
    assert LastCode(j, 1) == if j.sets[0].ignored then Success else SetResult(j, 0);
    hide ComesTo, SetResult, Troubled, IsPlain, GoesOut, Lexed, Submits;
  }

  /** Without parameters a statement is sent once for every set, a SELECT once in all. */
  lemma {:induction false} WithoutParameters(j: Job, r: nat)
    requires j.Valid() && j.Markers() == [] && j.query != "" && r <= |j.sets|
    ensures !j.select ==> Sent(j, r) == seq(r, _ => j.query)
    ensures j.select ==> Sent(j, r) == if 0 < r == |j.sets| then [j.query] else []
  {
    hide Lexed, SetInsertion;
    if r > 0 {
      WithoutParameters(j, r - 1);
    }
  }

  /** Two rows for a SELECT with one marker. */
  lemma TwoRowsAreUnited(reply: seq<string> -> ReturnCode)
    ensures var j := Job("v?", true, [ParamSet(false, [Rendered("1", false)]), ParamSet(false, [Rendered("2", false)])],
                         reply);
            j.Valid() && Sent(j, 2) == ["v1 UNION ALL v2"]
  {
    var j := Job("v?", true, [ParamSet(false, [Rendered("1", false)]), ParamSet(false, [Rendered("2", false)])], reply);
    MarkerOfExample();
    InsertionOfExample("1");
    InsertionOfExample("2");
    assert SetInsertion(j, 0) == Insertion("v1", Success) && SetInsertion(j, 1) == Insertion("v2", Success);
    hide SetInsertion, Lexed, Collected, Sent;
    StartOfRun(j);
    CollectOne(j, 0);
    assert Collected(j, 1) == "v1 UNION ALL ";
    SelectWaits(j, 1);
    SubmittedStatement(j, 1);
    assert Statement(j, 1) == "v1 UNION ALL v2";
  }
}
