/** What the lexer passes over as a whole, told by the bytes of the query alone: quoted texts, comments up to the end of
    a line, and gaps. */
module LexerExtents {
  import opened Lexer

  /** The bytes from i to j hold no unescaped quote of the given kind, and no escape that reaches behind them. */
  predicate QuoteBody(q: string, i: nat, j: nat, quote: char)
    requires j <= |q|
    decreases j - i
  {
    i == j
    || (i < j && q[i] == '\\' && QuoteBody(q, i + 2, j, quote))
    || (i < j && q[i] != '\\' && q[i] != quote && QuoteBody(q, i + 1, j, quote))
  }

  /** A quoted text from i to j: it goes on to the first unescaped quote of the kind that it starts with, and if a quote
      of any kind follows at once it goes on with that. */
  ghost predicate QuotedText(q: string, i: nat, j: nat)
    decreases |q| - i
  {
    && i < j <= |q| && (q[i] == '\'' || q[i] == '"' || q[i] == '`')
    && exists k :: i < k < j && QuoteBody(q, i + 1, k, q[i]) && q[k] == q[i]
                   && if k + 1 < |q| && (q[k + 1] == '\'' || q[k + 1] == '"' || q[k + 1] == '`')
                      then QuotedText(q, k + 1, j) else j == k + 1
  }

  /** No byte from i to j is a parameter marker. */
  ghost predicate NoMarkers(q: string, i: nat, j: nat) {
    forall k: nat :: i <= k < j ==> !IsMarker(q, k)
  }

  lemma BodyStep(q: string, i: nat, scan: Scan, quote: char)
    requires i < |q| && Before(q, i) == scan && scan.mode == Quoted(quote)
    ensures !IsMarker(q, i)
    ensures q[i] != '\\' && q[i] != quote ==> Before(q, i + 1) == scan
    ensures q[i] == '\\' && i + 1 < |q| ==> Before(q, i + 2) == scan && !IsMarker(q, i + 1)
    ensures q[i] == quote && q[i] != '\\' ==> Before(q, i + 1) == scan.(mode := QuoteClosed)
  {
    assert At(q, i) == scan;
    if q[i] == '\\' && i + 1 < |q| {
      assert Before(q, i + 1) == scan.(mode := Escaped(quote));
      assert At(q, i + 1) == scan.(mode := Escaped(quote));
    }
  }

  lemma {:induction false} BodyRun(q: string, i: nat, j: nat, scan: Scan, quote: char)
    requires i <= j <= |q| && QuoteBody(q, i, j, quote) && Before(q, i) == scan && scan.mode == Quoted(quote)
    ensures Before(q, j) == scan && NoMarkers(q, i, j)
    decreases j - i
  {
    hide Before, IsMarker;
    if i < j {
      BodyStep(q, i, scan, quote);
      BodyRun(q, if q[i] == '\\' then i + 2 else i + 1, j, scan, quote);
    }
  }

  lemma Opening(q: string, i: nat)
    requires i < |q| && At(q, i).mode == Plain(false) && (q[i] == '\'' || q[i] == '"' || q[i] == '`')
    ensures Before(q, i + 1) == Scan(Quoted(q[i]), At(q, i).tokens + [i], At(q, i).params) && !IsMarker(q, i)
  {
    hide Looking;
    NotLooking(q, i);
  }

  lemma NotLooking(q: string, i: nat)
    requires i < |q|
    ensures forall text: string :: |text| > 0 && text[0] != q[i] ==> !Looking(q, i, text)
  {
  }

  lemma Closing(q: string, k: nat, scan: Scan, quote: char)
    requires k < |q| && Before(q, k) == scan && scan.mode == Quoted(quote) && q[k] == quote != '\\'
    ensures Before(q, k + 1) == scan.(mode := QuoteClosed) && !IsMarker(q, k)
    ensures k + 1 < |q| && (q[k + 1] == '\'' || q[k + 1] == '"' || q[k + 1] == '`') ==>
              Before(q, k + 2) == scan.(mode := Quoted(q[k + 1])) && !IsMarker(q, k + 1)
    ensures k + 1 < |q| && !(q[k + 1] == '\'' || q[k + 1] == '"' || q[k + 1] == '`') ==>
              At(q, k + 1) == scan.(mode := Plain(false))
  {
    BodyStep(q, k, scan, quote);
    assert Before(q, k + 1) == scan.(mode := QuoteClosed);
  }

  lemma {:induction false} QuotedRun(q: string, i: nat, j: nat, scan: Scan)
    requires QuotedText(q, i, j) && Before(q, i + 1) == scan && scan.mode == Quoted(q[i])
    ensures NoMarkers(q, i + 1, j) && Before(q, j) == scan.(mode := QuoteClosed)
    ensures j < |q| ==> At(q, j) == scan.(mode := Plain(false))
    decreases |q| - i
  {
    hide Before, At, IsMarker, QuoteBody;
    var k :| i < k < j && QuoteBody(q, i + 1, k, q[i]) && q[k] == q[i]
             && if k + 1 < |q| && (q[k + 1] == '\'' || q[k + 1] == '"' || q[k + 1] == '`')
                then QuotedText(q, k + 1, j) else j == k + 1;
    BodyRun(q, i + 1, k, scan, q[i]);
    Closing(q, k, scan, q[i]);
    if j != k + 1 {
      QuotedRun(q, k + 1, j, scan.(mode := Quoted(q[k + 1])));
    }
  }

  /** A quote outside quotes and comments starts a token and a quoted text, and no byte of that is a parameter. Behind
      it the lexer goes on outside quotes. */
  lemma QuotedExtent(q: string, i: nat, j: nat)
    requires QuotedText(q, i, j) && At(q, i).mode == Plain(false)
    ensures NoMarkers(q, i, j)
    ensures var scan := Scan(Plain(false), At(q, i).tokens + [i], At(q, i).params);
            if j < |q| then At(q, j) == scan else Lexed(q).tokens == scan.tokens && Lexed(q).params == scan.params
  {
    Opening(q, i);
    QuotedRun(q, i, j, Before(q, i + 1));
    hide Before, At, IsMarker, QuotedText;
  }

  /** A quoted text that is never closed has no parameter either. */
  lemma UnclosedQuote(q: string, i: nat)
    requires i < |q| && At(q, i).mode == Plain(false) && (q[i] == '\'' || q[i] == '"' || q[i] == '`')
    requires QuoteBody(q, i + 1, |q|, q[i])
    ensures NoMarkers(q, i, |q|) && Lexed(q).params == At(q, i).params && Lexed(q).tokens == At(q, i).tokens + [i]
  {
    Opening(q, i);
    BodyRun(q, i + 1, |q|, Before(q, i + 1), q[i]);
    hide Before, At, IsMarker, QuoteBody;
  }

  // ---------------------------------------------------------------------------------- comments

  lemma CommentStep(q: string, i: nat, scan: Scan, end: string)
    requires i < |q| && Before(q, i) == scan && scan.mode.Commented?
    requires end == if scan.mode.kind == Block then "*/" else "\n"
    ensures !Looking(q, i, end) ==> Before(q, i + 1) == scan && !IsMarker(q, i)
    ensures Looking(q, i, end) ==> At(q, i) == scan.(mode := Plain(false))
  {
    hide Looking;
  }

  lemma {:induction false} CommentRuns(q: string, i: nat, j: nat, scan: Scan, end: string)
    requires i <= j <= |q| && Before(q, i) == scan && scan.mode.Commented?
    requires end == if scan.mode.kind == Block then "*/" else "\n"
    requires forall k :: i <= k < j ==> !Looking(q, k, end)
    ensures Before(q, j) == scan && NoMarkers(q, i, j)
    ensures j < |q| && Looking(q, j, end) ==> At(q, j) == scan.(mode := Plain(false))
    decreases j
  {
    hide Looking, Before, At, IsMarker;
    if i < j {
      CommentRuns(q, i, j - 1, scan, end);
      CommentStep(q, j - 1, scan, end);
    }
    if j < |q| {
      CommentStep(q, j, scan, end);
    }
  }

  lemma CommentOpens(q: string, i: nat)
    requires i < |q| && At(q, i).mode == Plain(false)
    ensures q[i] == '#' ==> Before(q, i + 1) == At(q, i).(mode := Commented(Hash)) && !IsMarker(q, i)
    ensures i + 3 <= |q| && q[i..i + 3] == "-- " ==>
              Before(q, i + 1) == At(q, i).(mode := Commented(Dash)) && !IsMarker(q, i)
    ensures i + 2 <= |q| && q[i..i + 2] == "/*" && !(i + 3 <= |q| && q[i + 2] == '!') ==>
              Before(q, i + 1) == At(q, i).(mode := Commented(Block)) && !IsMarker(q, i)
    ensures i + 3 <= |q| && q[i..i + 3] == "/*!" ==> Before(q, i + 1) == At(q, i) && !IsMarker(q, i)
  {
    assert i + 2 <= |q| ==> q[i..i + 2][0] == q[i] && q[i..i + 2][1] == q[i + 1];
    assert i + 3 <= |q| ==> q[i..i + 3] == [q[i], q[i + 1], q[i + 2]];
    assert q[i..i + 1] == [q[i]];
    assert Before(q, i + 1) == Consume(q, i, At(q, i));
    hide At, Before;
  }

  /** A number sign, or two dashes and a blank, outside quotes and comments make a comment up to the end of the line: no
      token starts in it, and no byte of it is a parameter. */
  lemma LineCommentExtent(q: string, i: nat, j: nat)
    requires i < j <= |q| && At(q, i).mode == Plain(false)
    requires q[i] == '#' || (i + 3 <= |q| && q[i..i + 3] == "-- ")
    requires forall k :: i < k < j ==> q[k] != '\n'
    ensures NoMarkers(q, i, j) && Before(q, j).tokens == At(q, i).tokens && Before(q, j).params == At(q, i).params
    ensures j < |q| && q[j] == '\n' ==> At(q, j) == At(q, i)
  {
    CommentOpens(q, i);
    assert forall k :: 0 <= k < |q| ==> q[k..k + 1] == [q[k]];
    assert forall k :: 0 <= k < |q| ==> (Looking(q, k, "\n") <==> q[k] == '\n');
    hide Looking, Before, At, IsMarker;
    CommentRuns(q, i + 1, j, Before(q, i + 1), "\n");
  }

  /** A slash and a star, without an exclamation mark behind them, make a comment up to the first star and slash behind
      the slash: no token starts in it, and no byte of it is a parameter. */
  lemma BlockCommentExtent(q: string, i: nat, j: nat)
    requires i < j <= |q| && At(q, i).mode == Plain(false)
    requires i + 2 <= |q| && q[i..i + 2] == "/*" && !(i + 3 <= |q| && q[i + 2] == '!')
    requires forall k :: i < k < j ==> !Looking(q, k, "*/")
    ensures NoMarkers(q, i, j) && Before(q, j).tokens == At(q, i).tokens && Before(q, j).params == At(q, i).params
    ensures j + 2 <= |q| && q[j..j + 2] == "*/" ==> At(q, j) == At(q, i)
  {
    CommentOpens(q, i);
    assert j + 2 <= |q| && q[j..j + 2] == "*/" ==> Looking(q, j, "*/");
    hide Looking, Before, At, IsMarker;
    CommentRuns(q, i + 1, j, Before(q, i + 1), "*/");
  }

  // ---------------------------------------------------------------------------------- gaps and other bytes

  /** Control characters, the space, and the one that does not break, of latin1. */
  predicate IsGap(c: char) {
    c as int <= 0x20 || c as int == 0x7f || c as int == 0xa0
  }

  lemma GapRun(q: string, i: nat, j: nat)
    requires i <= j < |q| && Before(q, i).mode == Plain(true)
    requires (forall k :: i <= k < j ==> IsGap(q[k])) && !IsGap(q[j])
    ensures At(q, j) == Scan(Plain(false), Before(q, i).tokens + [j], Before(q, i).params) && NoMarkers(q, i, j)
  {
    forall k: nat | i <= k <= j ensures Before(q, k) == Before(q, i) {
      BlankRun(q, i, k, Before(q, i));
    }
  }

  /** The first token starts with the first byte that is no gap. */
  lemma QueryStart(q: string, j: nat)
    requires j < |q| && (forall k :: 0 <= k < j ==> IsGap(q[k])) && !IsGap(q[j])
    ensures At(q, j) == Scan(Plain(false), [j], [])
  {
    assert Before(q, 0) == Scan(Plain(true), [], []);
    GapRun(q, 0, j);
  }

  /** A white space, a semicolon, or a backslash and a g outside quotes and comments ends a token; the next one starts
      with the first byte behind that is no gap. */
  lemma GapExtent(q: string, i: nat, j: nat)
    requires i < j < |q| && At(q, i).mode == Plain(false) && !IsGap(q[j])
    requires var c := q[i] as int;
             || ((9 <= c <= 13 || c == 0x20 || c == 0xa0 || q[i] == ';') && forall k :: i < k < j ==> IsGap(q[k]))
             || (q[i] == '\\' && q[i + 1] == 'g' && i + 1 < j && forall k :: i + 1 < k < j ==> IsGap(q[k]))
    ensures At(q, j) == Scan(Plain(false), At(q, i).tokens + [j], At(q, i).params) && NoMarkers(q, i, j)
  {
    assert q[i] == '\\' && q[i + 1] == 'g' ==> q[i..i + 2] == "\\g";
    if q[i] == '\\' {
      assert Before(q, i + 1) == At(q, i).(mode := Separator);
      assert At(q, i + 1) == Before(q, i + 1);
      assert Before(q, i + 2) == At(q, i).(mode := Plain(true));
      GapRun(q, i + 2, j);
    } else {
      assert Before(q, i + 1) == At(q, i).(mode := Plain(true));
      GapRun(q, i + 1, j);
    }
    hide At, Before, Looking;
  }

  /** A question mark outside quotes and comments is a parameter. */
  lemma QuestionMark(q: string, i: nat)
    requires i < |q| && At(q, i).mode == Plain(false) && q[i] == '?'
    ensures IsMarker(q, i) && Before(q, i + 1) == At(q, i).(params := At(q, i).params + [i])
  {
    NotLooking(q, i);
    assert Before(q, i + 1) == Consume(q, i, At(q, i));
    hide At, Before, Looking;
  }

  /** Most other bytes are nothing, among them control characters that are no white space. */
  lemma OtherByte(q: string, i: nat)
    requires i < |q| && At(q, i).mode == Plain(false)
    requires q[i] !in {'?', ';', '\\', '\'', '"', '`', '#', '-', '/'}
    requires !(9 <= q[i] as int <= 13 || q[i] as int == 0x20 || q[i] as int == 0xa0)
    ensures Before(q, i + 1) == At(q, i) && !IsMarker(q, i)
  {
    NotLooking(q, i);
    assert Before(q, i + 1) == Consume(q, i, At(q, i));
    hide At, Before, Looking;
    NoCommentHere(q, i);
    hide CommentAt;
  }

  lemma NoCommentHere(q: string, i: nat)
    requires i < |q| && q[i] !in {'#', '-', '/'}
    ensures CommentAt(q, i) == []
  {
    NotLooking(q, i);
    hide Looking;
  }
}
