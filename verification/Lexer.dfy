/** A reference lexer for queries: one state per byte, reading each byte once. It says where tokens start and which
    question marks are parameter markers, without reference to how the driver scans. */
module Lexer {

  /** Spaces and control characters of the latin1 table; a query has one character per byte. */
  predicate IsSpace(c: char) {
    9 <= c as int <= 13 || c == ' ' || c as int == 160
  }

  predicate IsControl(c: char) {
    c as int <= 31 || c as int == 127
  }

  predicate IsSpaceOrControl(c: char) {
    IsSpace(c) || IsControl(c)
  }

  predicate IsQuote(c: char) {
    c == '\'' || c == '"' || c == '`'
  }

  /** The text stands at position i. */
  predicate Looking(q: string, i: nat, text: string) {
    i + |text| <= |q| && q[i..i + |text|] == text
  }

  datatype Comment = Hash | Dash | Block

  /** The state between two bytes. In Plain(true) a token starts at the next byte that is not blank. */
  datatype Mode =
    | Plain(gap: bool)
    | Separator
    | Quoted(quote: char)
    | Escaped(quote: char)
    | QuoteClosed
    | Commented(kind: Comment)

  datatype Scan = Scan(mode: Mode, tokens: seq<nat>, params: seq<nat>)

  /** What ends a comment; the text is not part of the comment. The search for it starts behind the first character of
      the comment, so that the two delimiters of a block comment may share characters; StandardLexer says when that
      matters. */
  function Terminator(kind: Comment): string {
    if kind == Block then "*/" else "\n"
  }

  /** Decisions that need a look at the byte ahead but do not consume it: a comment ends in front of its terminator, a
      closed quote may be reopened at once, and a pending token starts at the first byte that is not blank. */
  function Settle(q: string, i: nat, s: Scan): Scan
    requires i < |q|
  {
    match s.mode
    case Commented(kind) => if Looking(q, i, Terminator(kind)) then s.(mode := Plain(false)) else s
    case QuoteClosed => if IsQuote(q[i]) then s else s.(mode := Plain(false))
    case Plain(gap) => if gap && !IsSpaceOrControl(q[i]) then Scan(Plain(false), s.tokens + [i], s.params) else s
    case _ => s
  }

  /** The comment that starts here, if any. The form with an exclamation mark is none. */
  function CommentAt(q: string, i: nat): (c: seq<Comment>)
    ensures |c| <= 1
  {
    if Looking(q, i, "#") then [Hash]
    else if Looking(q, i, "-- ") then [Dash]
    else if Looking(q, i, "/*!") then []
    else if Looking(q, i, "/*") then [Block]
    else []
  }

  /** One byte outside quotes and comments. */
  function ConsumePlain(q: string, i: nat, s: Scan): Scan
    requires i < |q|
  {
    var c := q[i];
    if IsSpace(c) || c == ';' then s.(mode := Plain(true))
    else if Looking(q, i, "\\g") then s.(mode := Separator)
    else if IsQuote(c) then Scan(Quoted(c), s.tokens + [i], s.params)
    else if CommentAt(q, i) != [] then s.(mode := Commented(CommentAt(q, i)[0]))
    else if c == '?' then Scan(Plain(false), s.tokens, s.params + [i])
    else s
  }

  /** The state after byte i. */
  function Consume(q: string, i: nat, s: Scan): Scan
    requires i < |q|
  {
    match s.mode
    case Plain(gap) => if gap then s else ConsumePlain(q, i, s)
    case Separator => s.(mode := Plain(true))
    case Quoted(quote) =>
      if q[i] == '\\' then s.(mode := Escaped(quote)) else if q[i] == quote then s.(mode := QuoteClosed) else s
    case Escaped(quote) => s.(mode := Quoted(quote))
    case QuoteClosed => s.(mode := Quoted(q[i]))
    case Commented(_) => s
  }

  /** The state in front of byte i, before and after looking at that byte. */
  function Before(q: string, i: nat): Scan
    requires i <= |q|
    decreases i, 0
  {
    if i == 0 then Scan(Plain(true), [], []) else Consume(q, i - 1, At(q, i - 1))
  }

  function At(q: string, i: nat): Scan
    requires i <= |q|
    decreases i, 1
  {
    if i < |q| then Settle(q, i, Before(q, i)) else Before(q, i)
  }

  /** All tokens and parameter markers of a query. */
  function Lexed(q: string): Scan {
    Before(q, |q|)
  }

  // ---------------------------------------------------------------------------------- what the lexer finds

  ghost predicate Increasing(s: seq<nat>) {
    forall i, j :: 0 <= i < j < |s| ==> s[i] < s[j]
  }

  ghost predicate NonDecreasing(s: seq<nat>) {
    forall i, j :: 0 <= i < j < |s| ==> s[i] <= s[j]
  }

  /** A question mark outside quotes and comments, as this lexer delimits them. */
  predicate IsMarker(q: string, i: nat) {
    i < |q| && q[i] == '?' && At(q, i).mode == Plain(false)
  }

  /** The parameters found in front of byte i are exactly the markers there, in order. */
  lemma {:induction false} ParamsAreMarkers(q: string, i: nat)
    requires i <= |q|
    ensures Increasing(Before(q, i).params) && Below(Before(q, i).params, i)
    ensures forall p: nat :: p in Before(q, i).params <==> p < i && IsMarker(q, p)
  {
    if i > 0 {
      hide *;
      ParamsAreMarkers(q, i - 1);
      MarkerStep(q, i - 1);
      Append(Before(q, i - 1).params, i - 1);
    }
  }

  lemma MarkerRead(q: string, i: nat, s: Scan)
    requires i < |q|
    ensures var at := Settle(q, i, s);
            Consume(q, i, at).params == s.params + (if at.mode == Plain(false) && q[i] == '?' then [i] else [])
  {
    if q[i] == '?' {
      assert forall text :: |text| > 0 && text[0] != '?' ==> !Looking(q, i, text);
    }
    hide Looking;
  }

  lemma MarkerStep(q: string, i: nat)
    requires i < |q|
    ensures Before(q, i + 1).params == Before(q, i).params + (if IsMarker(q, i) then [i] else [])
  {
    MarkerRead(q, i, Before(q, i));
    hide Settle, Consume;
  }

  ghost predicate Below(s: seq<nat>, i: nat) {
    forall t <- s :: t < i
  }

  lemma Append(s: seq<nat>, i: nat)
    requires Below(s, i)
    ensures Increasing(s) ==> Increasing(s + [i])
    ensures Below(s, i + 1) && Below(s + [i], i + 1)
  {
    assert forall k :: 0 <= k < |s| ==> (s + [i])[k] == s[k] && s[k] in s;
  }

  lemma AppendAgain(s: seq<nat>, i: nat)
    requires NonDecreasing(s) && Below(s, i + 1)
    ensures NonDecreasing(s + [i]) && Below(s + [i], i + 1)
  {
    assert forall k :: 0 <= k < |s| ==> (s + [i])[k] == s[k] && s[k] in s;
  }

  lemma TokenStep(q: string, i: nat)
    requires i < |q|
    ensures At(q, i).tokens == Before(q, i).tokens || At(q, i).tokens == Before(q, i).tokens + [i]
    ensures Before(q, i + 1).tokens == At(q, i).tokens || Before(q, i + 1).tokens == At(q, i).tokens + [i]
  {
  }

  /** Tokens lie inside the query and never go backwards. */
  lemma {:induction false} TokensInOrder(q: string, i: nat)
    requires i <= |q|
    ensures NonDecreasing(Before(q, i).tokens) && Below(Before(q, i).tokens, i)
  {
    if i > 0 {
      hide *;
      TokensInOrder(q, i - 1);
      TokenStep(q, i - 1);
      Append(Before(q, i - 1).tokens, i - 1);
      AppendAgain(Before(q, i - 1).tokens, i - 1);
      AppendAgain(At(q, i - 1).tokens, i - 1);
    }
  }

  // ---------------------------------------------------------------------------------- runs of bytes

  lemma {:induction false} BlankRun(q: string, i: nat, j: nat, s: Scan)
    requires i <= j <= |q| && Before(q, i) == s && s.mode == Plain(true)
    requires forall k :: i <= k < j ==> IsSpaceOrControl(q[k])
    ensures Before(q, j) == s
    decreases j
  {
    if i < j {
      BlankRun(q, i, j - 1, s);
    }
  }

  lemma {:induction false} CommentRun(q: string, i: nat, j: nat, s: Scan)
    requires i <= j <= |q| && Before(q, i) == s && s.mode.Commented?
    requires forall k :: i <= k < j ==> !Looking(q, k, Terminator(s.mode.kind))
    ensures Before(q, j) == s
    decreases j
  {
    if i < j {
      CommentRun(q, i, j - 1, s);
    }
  }
}
