/** The text that results when values are put in the place of the parameter markers. */
module Substitution {
  import opened Lexer

  datatype ReturnCode = Success | SuccessWithInfo | Error

  /** What rendering one parameter value gives: the parameter was never bound, a failure that may leave some text in the
      buffer, or the text of the value. */
  datatype Rendering = Unbound | Failed(partial: string) | Rendered(text: string, info: bool)

  /** What is appended to the buffer for one parameter set. */
  datatype Insertion = Insertion(text: string, rc: ReturnCode)

  ghost predicate Inside(q: string, at: seq<nat>) {
    Increasing(at) && Below(at, |q|)
  }

  /** Where the query goes on behind its first n markers. */
  function Resume(at: seq<nat>, n: nat): nat
    requires n <= |at|
  {
    if n == 0 then 0 else at[n - 1] + 1
  }

  lemma ResumeInside(q: string, at: seq<nat>, n: nat)
    requires Inside(q, at) && n <= |at|
    ensures Resume(at, n) <= |q| && (n < |at| ==> Resume(at, n) <= at[n] < |q|)
  {
    if 0 < n {
      assert at[n - 1] in at;
    }
    if n < |at| {
      assert at[n] in at;
    }
  }

  /** The part of the query in front of marker n. */
  function Piece(q: string, at: seq<nat>, n: nat): string
    requires Inside(q, at) && n < |at|
  {
    ResumeInside(q, at, n);
    q[Resume(at, n)..at[n]]
  }

  function Tail(q: string, at: seq<nat>, n: nat): string
    requires Inside(q, at) && n <= |at|
  {
    ResumeInside(q, at, n);
    q[Resume(at, n)..]
  }

  /** One more parameter. After a failure nothing is appended any more. */
  function Fill(done: Insertion, piece: string, value: Rendering): Insertion {
    if done.rc == Error then done
    else match value
      case Unbound => Insertion(done.text, Error)
      case Failed(partial) => Insertion(done.text + piece + partial, Error)
      case Rendered(text, info) =>
        Insertion(done.text + piece + text, if info then SuccessWithInfo else done.rc)
  }

  /** The first n parameters. */
  function Filled(q: string, at: seq<nat>, row: seq<Rendering>, n: nat): Insertion
    requires Inside(q, at) && |row| == |at| && n <= |at|
  {
    if n == 0 then Insertion("", Success)
    else Fill(Filled(q, at, row, n - 1), Piece(q, at, n - 1), row[n - 1])
  }

  /** All parameters and the rest of the query. */
  function Inserted(q: string, at: seq<nat>, row: seq<Rendering>): Insertion
    requires Inside(q, at) && |row| == |at|
  {
    var done := Filled(q, at, row, |at|);
    if done.rc == Error then done else done.(text := done.text + Tail(q, at, |at|))
  }

  // ---------------------------------------------------------------------------------- success and failure

  /** The first n values can be rendered. */
  predicate AllRendered(row: seq<Rendering>, n: nat)
    requires n <= |row|
  {
    forall k :: 0 <= k < n ==> row[k].Rendered?
  }

  lemma {:induction false} FilledSucceeds(q: string, at: seq<nat>, row: seq<Rendering>, n: nat)
    requires Inside(q, at) && |row| == |at| && n <= |at|
    ensures Filled(q, at, row, n).rc == Error <==> !AllRendered(row, n)
    ensures Filled(q, at, row, n).rc == Success <==> AllRendered(row, n) && forall k :: 0 <= k < n ==> !row[k].info
  {
    if n > 0 {
      FilledSucceeds(q, at, row, n - 1);
    }
  }

  lemma {:induction false} FailureStays(q: string, at: seq<nat>, row: seq<Rendering>, n: nat, m: nat)
    requires Inside(q, at) && |row| == |at| && n <= m <= |at|
    requires Filled(q, at, row, n).rc == Error
    ensures Filled(q, at, row, m) == Filled(q, at, row, n)
    decreases m
  {
    if n < m {
      FailureStays(q, at, row, n, m - 1);
    }
  }

  lemma StartFilling(q: string, at: seq<nat>, row: seq<Rendering>)
    requires Inside(q, at) && |row| == |at|
    ensures Filled(q, at, row, 0) == Insertion("", Success) && Resume(at, 0) == 0
  {
  }

  lemma FilledStep(q: string, at: seq<nat>, row: seq<Rendering>, n: nat)
    requires Inside(q, at) && |row| == |at| && n < |at|
    ensures Resume(at, n) <= at[n] < |q| && Resume(at, n + 1) == at[n] + 1
    ensures Filled(q, at, row, n + 1) == Fill(Filled(q, at, row, n), q[Resume(at, n)..at[n]], row[n])
  {
    ResumeInside(q, at, n);
  }

  /** The insertion is known as soon as a parameter fails, or when all parameters are filled. */
  lemma InsertedIs(q: string, at: seq<nat>, row: seq<Rendering>, n: nat)
    requires Inside(q, at) && |row| == |at| && n <= |at|
    ensures Resume(at, n) <= |q|
    ensures Filled(q, at, row, n).rc == Error ==> Inserted(q, at, row) == Filled(q, at, row, n)
    ensures Filled(q, at, row, n).rc != Error && n == |at| ==>
              Inserted(q, at, row).rc == Filled(q, at, row, n).rc
              && Inserted(q, at, row).text == Filled(q, at, row, n).text + q[Resume(at, n)..]
  {
    ResumeInside(q, at, n);
    if Filled(q, at, row, n).rc == Error {
      FailureStays(q, at, row, n, |at|);
    }
  }

  /** The insertion succeeds exactly when every value can be rendered, and has nothing to report exactly when no value
      has. */
  lemma InsertionSucceeds(q: string, at: seq<nat>, row: seq<Rendering>)
    requires Inside(q, at) && |row| == |at|
    ensures Inserted(q, at, row).rc == Error <==> !AllRendered(row, |at|)
    ensures Inserted(q, at, row).rc == Success <==>
              AllRendered(row, |at|) && forall k :: 0 <= k < |at| ==> !row[k].info
  {
    FilledSucceeds(q, at, row, |at|);
  }

  // ---------------------------------------------------------------------------------- the reference

  /** Byte by byte: marker number k becomes the k-th text, every other byte stays. */
  function Substituted(q: string, texts: seq<string>, i: nat): string
    requires i <= |q|
  {
    if i == 0 then ""
    else
      var k := |Before(q, i - 1).params|;
      Substituted(q, texts, i - 1)
      + if IsMarker(q, i - 1) then (if k < |texts| then texts[k] else "") else [q[i - 1]]
  }

  function Texts(row: seq<Rendering>): seq<string> {
    seq(|row|, k requires 0 <= k < |row| => if row[k].Rendered? then row[k].text else "")
  }

  lemma MarkersInside(q: string)
    ensures Inside(q, Lexed(q).params)
  {
    ParamsAreMarkers(q, |q|);
  }

  lemma {:induction false} EarlierParams(q: string, i: nat, j: nat)
    requires i <= j <= |q|
    ensures Before(q, i).params <= Before(q, j).params
    decreases j
  {
    if i < j {
      hide *;
      EarlierParams(q, i, j - 1);
      MarkerStep(q, j - 1);
      PrefixExtends(Before(q, i).params, Before(q, j - 1).params, if IsMarker(q, j - 1) then [j - 1] else []);
    }
  }

  lemma PrefixExtends(a: seq<nat>, b: seq<nat>, more: seq<nat>)
    requires a <= b
    ensures a <= b + more
  {
  }

  /** In front of byte i the reference has the pieces and values of the markers passed, and what follows the last. */
  lemma {:induction false} FilledUpTo(q: string, row: seq<Rendering>, i: nat, n: nat)
    requires i <= |q| && |row| == |Lexed(q).params| && n == |Before(q, i).params|
    ensures Inside(q, Lexed(q).params) && n <= |row| && Resume(Lexed(q).params, n) <= i
    ensures AllRendered(row, n) ==>
              Substituted(q, Texts(row), i)
              == Filled(q, Lexed(q).params, row, n).text + q[Resume(Lexed(q).params, n)..i]
  {
    MarkersInside(q);
    EarlierParams(q, i, |q|);
    var at := Lexed(q).params;
    assert i == 0 ==> n == 0;
    hide Before, At, IsMarker, AllRendered;
    if i > 0 {
      MarkerStep(q, i - 1);
      var before := |Before(q, i - 1).params|;
      FilledUpTo(q, row, i - 1, before);
      if AllRendered(row, n) {
        OneByte(q, at, row, i, before);
      }
    }
  }

  lemma OneByte(q: string, at: seq<nat>, row: seq<Rendering>, i: nat, n: nat)
    requires Inside(q, at) && |row| == |at| && 0 < i <= |q| && n == |Before(q, i - 1).params| <= |at|
    requires Resume(at, n) < i && AllRendered(row, n)
    requires Substituted(q, Texts(row), i - 1) == Filled(q, at, row, n).text + q[Resume(at, n)..i - 1]
    ensures !IsMarker(q, i - 1) ==>
              Substituted(q, Texts(row), i) == Filled(q, at, row, n).text + q[Resume(at, n)..i]
    ensures IsMarker(q, i - 1) && n < |at| && at[n] == i - 1 && row[n].Rendered? ==>
              Substituted(q, Texts(row), i) == Filled(q, at, row, n + 1).text + q[Resume(at, n + 1)..i]
  {
    FilledSucceeds(q, at, row, n);
    hide Before, At, IsMarker;
    assert q[Resume(at, n)..i] == q[Resume(at, n)..i - 1] + [q[i - 1]];
  }

  /** When every value can be rendered, the text is the query with the markers replaced. */
  lemma InsertionIsSubstitution(q: string, row: seq<Rendering>)
    requires |row| == |Lexed(q).params| && AllRendered(row, |row|)
    ensures Inside(q, Lexed(q).params)
    ensures Inserted(q, Lexed(q).params, row).text == Substituted(q, Texts(row), |q|)
  {
    hide Before, At, Filled, Substituted, Texts;
    MarkersInside(q);
    FilledUpTo(q, row, |q|, |row|);
    InsertionSucceeds(q, Lexed(q).params, row);
    FilledSucceeds(q, Lexed(q).params, row, |row|);
  }

  lemma ParamsInFront(q: string, i: nat, m: nat)
    requires i <= |q| && m < |Lexed(q).params| && Lexed(q).params[m] == i
    ensures |Before(q, i).params| == m
  {
    ParamsAreMarkers(q, |q|);
    ParamsAreMarkers(q, i);
    EarlierParams(q, i, |q|);
    var all, front := Lexed(q).params, Before(q, i).params;
    forall p <- all | p < i ensures p in front {
      assert IsMarker(q, p);
    }
    hide Before, At, IsMarker, Lexed;
    PartInFront(all, front, i, m);
  }

  lemma PartInFront(all: seq<nat>, front: seq<nat>, i: nat, m: nat)
    requires front <= all && Increasing(all) && Below(front, i) && m < |all| && all[m] == i
    requires forall p <- all :: p < i ==> p in front
    ensures |front| == m
  {
    if m > 0 {
      assert all[m - 1] in all;
      var k :| 0 <= k < |front| && front[k] == all[m - 1];
    }
    if front != [] {
      assert front[|front| - 1] in front;
    }
  }

  /** When value m is the first that cannot be rendered, the text goes as far as that: for a value that fails the query
      up to its marker with all values in front, and what the failure has left; for one that was never bound not even
      the part behind the last marker. */
  lemma FailedInsertion(q: string, row: seq<Rendering>, m: nat)
    requires |row| == |Lexed(q).params| && m < |row| && AllRendered(row, m) && !row[m].Rendered?
    ensures Inside(q, Lexed(q).params) && Resume(Lexed(q).params, m) <= Lexed(q).params[m] < |q|
    ensures var at, done := Lexed(q).params, Inserted(q, Lexed(q).params, row);
            && done.rc == Error
            && (row[m].Failed? ==> done.text == Substituted(q, Texts(row), at[m]) + row[m].partial)
            && (row[m].Unbound? ==>
                  done.text + q[Resume(at, m)..at[m]] == Substituted(q, Texts(row), at[m]))
  {
    MarkersInside(q);
    var at := Lexed(q).params;
    ResumeInside(q, at, m);
    ParamsInFront(q, at[m], m);
    FilledUpTo(q, row, at[m], m);
    FilledSucceeds(q, at, row, m);
    FilledStep(q, at, row, m);
    InsertedIs(q, at, row, m + 1);
    hide Before, At, Lexed, Filled, Inserted, Substituted, Texts;
  }
}
