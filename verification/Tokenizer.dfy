/** The scanner that prepares a query: it steps through the text once, with loops inside loops for spaces, quotes and
    comments, and notes where tokens and parameter markers are. */
module Tokenizer {
  import opened Options
  import opened Lexer

  class Parser {
    const query: string
    var pos: nat
    var bytesAtPos: nat
    /** The character class bits of the character at pos. */
    var space: bool
    var control: bool
    var quote: Option<char>
    var hashComment: bool
    var dashComment: bool
    var cStyleComment: bool
    var token2: seq<nat>
    var paramPos: seq<nat>

    /** Inside the query, what is known about the character at pos is right. */
    ghost predicate Valid()
      reads this
    {
      pos < |query| ==> bytesAtPos == 1 && space == IsSpace(query[pos]) && control == IsControl(query[pos])
    }

    /** The scanner has found what the reference lexer finds in front of pos, and is in the given state. */
    ghost predicate Tracks(mode: Mode)
      reads this
    {
      && pos <= |query| + 1
      && (pos < |query| ==> At(query, pos) == Scan(mode, token2, paramPos))
      && (pos >= |query| ==> token2 == Lexed(query).tokens && paramPos == Lexed(query).params)
    }

    /** The same before looking at the character at pos. */
    ghost predicate Reached(mode: Mode)
      reads this
    {
      pos <= |query| && Before(query, pos) == Scan(mode, token2, paramPos)
    }

    constructor (query: string)
      ensures Valid() && bytesAtPos <= 1 && this.query == query && pos == 0 && quote == None && token2 == [] && paramPos == []
    {
      this.query, pos, quote, token2, paramPos := query, 0, None, [], [];
      bytesAtPos, space, control := 0, false, false;
      hashComment, dashComment, cStyleComment := false, false, false;
      new;
      var _ := GetCtype();
    }

    method GetCtype() returns (bytes: nat)
      modifies this`bytesAtPos, this`space, this`control
      ensures Valid()
      ensures bytes == bytesAtPos == if pos < |query| then 1 else 0
    {
      if pos < |query| {
        space, control := IsSpace(query[pos]), IsControl(query[pos]);
        bytesAtPos := 1;
      } else {
        bytesAtPos := 0;
      }
      bytes := bytesAtPos;
    }

    /** At least one byte forward. At the end the character class is left as it was. */
    method StepChar()
      requires bytesAtPos <= 1
      modifies this`pos, this`bytesAtPos, this`space, this`control
      ensures pos == old(pos) + 1 && Valid() && bytesAtPos <= 1
    {
      pos := pos + if bytesAtPos > 0 then bytesAtPos else 1;
      if pos < |query| {
        var _ := GetCtype();
      }
    }

    method SkipSpaces() returns (atEnd: bool)
      requires Valid() && bytesAtPos <= 1 && pos <= |query|
      modifies this`pos, this`bytesAtPos, this`space, this`control
      ensures Valid() && bytesAtPos <= 1 && old(pos) <= pos <= |query| && atEnd == (pos == |query|)
      ensures forall k :: old(pos) <= k < pos ==> IsSpaceOrControl(query[k])
      ensures pos < |query| ==> !IsSpaceOrControl(query[pos])
    {
      while pos < |query| && (space || control)
        invariant Valid() && bytesAtPos <= 1 && old(pos) <= pos <= |query|
        invariant forall k :: old(pos) <= k < pos ==> IsSpaceOrControl(query[k])
        decreases |query| - pos
      {
        StepChar();
      }
      atEnd := pos >= |query|;
    }

    method AddToken()
      modifies this`token2
      ensures token2 == if pos < |query| then old(token2) + [pos] else old(token2)
    {
      if pos < |query| {
        token2 := token2 + [pos];
      }
    }

    /** Spaces and control characters, then the token behind them. */
    method NextToken()
      requires Valid() && bytesAtPos <= 1 && Reached(Plain(true))
      modifies this`pos, this`bytesAtPos, this`space, this`control, this`token2
      ensures Valid() && bytesAtPos <= 1 && old(pos) <= pos && Tracks(Plain(false))
    {
      ghost var s := Before(query, pos);
      ghost var start := pos;
      var _ := SkipSpaces();
      BlankRun(query, start, pos, s);
      AddToken();
    }

    predicate Compare(text: string)
      reads this
    {
      Looking(query, pos, text)
    }

    function QuoteHere(): Option<char>
      requires pos < |query|
      reads this
    {
      if bytesAtPos == 1 && IsQuote(query[pos]) then Some(query[pos]) else None
    }

    method OpenQuote(q: Option<char>) returns (found: bool)
      modifies this`quote
      ensures found == q.Some? && quote == if q.Some? then q else old(quote)
    {
      if q.Some? {
        quote := q;
        return true;
      }
      return false;
    }

    /** Go to the character behind the closing quote. A quote that follows at once goes on as the same text. */
    method FindClosingQuote()
      requires Valid() && bytesAtPos <= 1 && pos < |query| && quote.Some? && Tracks(Quoted(quote.value))
      modifies this`pos, this`bytesAtPos, this`space, this`control, this`quote
      ensures Valid() && bytesAtPos <= 1 && old(pos) < pos && Tracks(Plain(false))
    {
      while pos < |query|
        invariant Valid() && bytesAtPos <= 1 && quote.Some? && Tracks(Quoted(quote.value))
        invariant old(pos) <= pos && (pos == old(pos) ==> pos < |query|)
        decreases |query| + 1 - pos
      {
        QuotedStep(query, pos, quote.value, token2, paramPos);
        if query[pos] == '\\' {
          StepChar();
        } else if query[pos] == quote.value {
          StepChar();
          var bytes := GetCtype();
          if bytes == 0 {
            break;
          }
          var reopened := OpenQuote(QuoteHere());
          if !reopened {
            break;
          }
        }
        StepChar();
      }
    }

    method IsComment() returns (comment: bool)
      modifies this`hashComment, this`dashComment, this`cStyleComment
      ensures comment <==> CommentAt(query, pos) != []
      ensures comment ==> CommentAt(query, pos) == [Kind()] && (hashComment || dashComment || cStyleComment)
      ensures cStyleComment ==> !hashComment && !dashComment
    {
      hashComment, dashComment, cStyleComment := false, false, false;
      if Compare("#") {
        hashComment := true;
        return true;
      } else if Compare("-- ") {
        dashComment := true;
        return true;
      } else if Compare("/*!") {
        return false;
      } else if Compare("/*") {
        cStyleComment := true;
        return true;
      }
      return false;
    }

    /** The kind of comment that the flags tell. */
    function Kind(): Comment
      reads this`hashComment, this`dashComment
    {
      if hashComment then Hash else if dashComment then Dash else Block
    }

    /** Go to the text that ends the comment. */
    method SkipComment()
      requires Valid() && bytesAtPos <= 1 && pos <= |query| && (hashComment || dashComment || cStyleComment)
      requires cStyleComment ==> !hashComment && !dashComment
      modifies this`pos, this`bytesAtPos, this`space, this`control
      ensures Valid() && bytesAtPos <= 1 && old(pos) <= pos <= |query|
      ensures forall k :: old(pos) <= k < pos ==> !Looking(query, k, Terminator(Kind()))
      ensures pos < |query| ==> Looking(query, pos, Terminator(Kind()))
    {
      ghost var end := Terminator(Kind());
      while pos < |query| && ((hashComment && !Compare("\n")) || (dashComment && !Compare("\n"))
                              || (cStyleComment && !Compare("*/")))
        invariant Valid() && bytesAtPos <= 1 && old(pos) <= pos <= |query|
        invariant end == Terminator(Kind())
        invariant forall k :: old(pos) <= k < pos ==> !Looking(query, k, end)
        decreases |query| - pos
      {
        assert !Looking(query, pos, end);
        StepChar();
      }
    }

    /** A separator is stepped over at once. */
    method IsQuerySeparator() returns (separator: bool)
      requires Valid() && bytesAtPos <= 1
      modifies this`pos, this`bytesAtPos, this`space, this`control
      ensures Valid() && bytesAtPos <= 1
      ensures separator <==> Looking(query, old(pos), ";") || Looking(query, old(pos), "\\g")
      ensures pos == old(pos) + (if Looking(query, old(pos), ";") then 1 else if separator then 2 else 0)
    {
      if Compare(";") {
        pos := pos + 1;
        var _ := GetCtype();
        return true;
      }
      if Compare("\\g") {
        pos := pos + 2;
        var _ := GetCtype();
        return true;
      }
      return false;
    }

    /** One round outside quotes, at a character that is neither blank nor a separator. */
    method PlainRound() returns (step: bool)
      requires Valid() && bytesAtPos <= 1 && pos < |query| && quote == None && Tracks(Plain(false))
      requires !IsSpace(query[pos]) && query[pos] != ';' && !Looking(query, pos, "\\g")
      modifies this
      ensures Valid() && bytesAtPos <= 1
      ensures step ==> pos == old(pos) && Before(query, pos + 1) == Scan(NextMode(), token2, paramPos)
      ensures !step ==> quote == None && pos > old(pos) && Tracks(Plain(false))
    {
      hide At, Before;
      PlainStep(query, pos, token2, paramPos);
      var start := pos;
      var inQuote := OpenQuote(QuoteHere());
      if inQuote {
        AddToken();
        return true;
      }
      var comment := IsComment();
      if comment {
        ghost var kind := CommentAt(query, pos)[0];
        assert kind == Kind();
        SkipComment();
        assert kind == Kind();
        CommentDone(query, start, pos, kind, token2, paramPos);
        return false;
      }
      if query[pos] == '?' {
        paramPos := paramPos + [pos];
      }
      step := true;
    }

    /** The state that the quote field stands for. */
    ghost function NextMode(): Mode
      reads this
    {
      if quote.Some? then Quoted(quote.value) else Plain(false)
    }

    /** Step over spaces; unless the end is reached, a token starts behind them. */
    method GapRound() returns (atEnd: bool)
      requires Valid() && bytesAtPos <= 1 && pos < |query| && IsSpace(query[pos]) && Tracks(Plain(false))
      modifies this`pos, this`bytesAtPos, this`space, this`control, this`token2
      ensures Valid() && bytesAtPos <= 1 && pos > old(pos) && Tracks(Plain(false))
      ensures if atEnd then pos == |query| else pos < |query| && !IsSpace(query[pos])
    {
      hide At, Before;
      PlainStep(query, pos, token2, paramPos);
      StepChar();
      ghost var start := pos;
      atEnd := SkipSpaces();
      GapDone(query, start, pos, token2, paramPos);
      if atEnd {
        return;
      }
      AddToken();
    }

    /** Step over a separator, if one stands here, and to the token behind it. */
    method SeparatorRound() returns (separator: bool)
      requires Valid() && bytesAtPos <= 1 && pos < |query| && Tracks(Plain(false))
      modifies this`pos, this`bytesAtPos, this`space, this`control, this`token2
      ensures Valid() && bytesAtPos <= 1 && Tracks(Plain(false))
      ensures separator <==> query[old(pos)] == ';' || Looking(query, old(pos), "\\g")
      ensures if separator then pos > old(pos) else pos == old(pos)
    {
      PlainStep(query, pos, token2, paramPos);
      FirstCharacter(query, pos, ";");
      FirstCharacter(query, pos, "\\g");
      hide At, Before;
      assert query[pos] == ';' ==> query[pos..pos + 1] == ";";
      separator := IsQuerySeparator();
      if separator {
        NextToken();
      }
    }

    /** Scan the whole query. It ends at the end of the text, or one byte behind it when the text ends in a quote with
        an escape character, and has found the tokens and the parameter markers of the reference lexer. */
    method Tokenize()
      requires Valid() && bytesAtPos <= 1 && pos == 0 && quote == None && token2 == [] && paramPos == []
      modifies this
      ensures token2 == Lexed(query).tokens && paramPos == Lexed(query).params
      ensures |query| <= pos <= |query| + 1
    {
      NextToken();
      hide At, Before, Lexed;
      while pos < |query|
        invariant Valid() && bytesAtPos <= 1 && Tracks(NextMode())
        decreases |query| + 1 - pos
      {
        if quote.Some? {
          FindClosingQuote();
          quote := None;
          continue;
        }
        if space {
          var atEnd := GapRound();
          if atEnd {
            continue;
          }
        }
        var separator := SeparatorRound();
        if separator {
          continue;
        }
        var step := PlainRound();
        if step {
          StepTracks(query, pos, NextMode(), token2, paramPos);
          StepChar();
        }
      }
    }
  }

  /** What one character inside a quote does to the state. */
  lemma QuotedStep(q: string, i: nat, quote: char, tokens: seq<nat>, params: seq<nat>)
    requires i < |q| && At(q, i) == Scan(Quoted(quote), tokens, params)
    ensures q[i] == '\\' && i + 1 < |q| ==> Before(q, i + 2) == Scan(Quoted(quote), tokens, params)
    ensures Before(q, i + 1).tokens == tokens && Before(q, i + 1).params == params
    ensures q[i] != '\\' && q[i] != quote ==> Before(q, i + 1) == Scan(Quoted(quote), tokens, params)
    ensures q[i] != '\\' && q[i] == quote && i + 1 < |q| && IsQuote(q[i + 1]) ==>
              Before(q, i + 2) == Scan(Quoted(q[i + 1]), tokens, params)
    ensures q[i] != '\\' && q[i] == quote && i + 1 < |q| && !IsQuote(q[i + 1]) ==>
              At(q, i + 1) == Scan(Plain(false), tokens, params)
  {
  }

  /** What one character outside quotes does to the state. */
  lemma PlainStep(q: string, i: nat, tokens: seq<nat>, params: seq<nat>)
    requires i < |q| && At(q, i) == Scan(Plain(false), tokens, params)
    ensures IsSpace(q[i]) || q[i] == ';' ==> Before(q, i + 1) == Scan(Plain(true), tokens, params)
    ensures Looking(q, i, "\\g") ==> Before(q, i + 2) == Scan(Plain(true), tokens, params)
    ensures !IsSpace(q[i]) && q[i] != ';' && !Looking(q, i, "\\g") ==>
              Before(q, i + 1) == (if IsQuote(q[i]) then Scan(Quoted(q[i]), tokens + [i], params)
                                   else if CommentAt(q, i) != [] then Scan(Commented(CommentAt(q, i)[0]), tokens, params)
                                   else Scan(Plain(false), tokens, if q[i] == '?' then params + [i] else params))
  {
    if Looking(q, i, "\\g") {
      assert q[i..i + 2][0] == q[i];
      assert Before(q, i + 1) == Scan(Separator, tokens, params);
    }
  }

  lemma FirstCharacter(q: string, i: nat, text: string)
    requires text != ""
    ensures Looking(q, i, text) ==> i < |q| && q[i] == text[0]
  {
    if Looking(q, i, text) {
      assert q[i..i + |text|][0] == q[i];
    }
  }

  /** No comment starts with what ends it. */
  lemma CommentStart(q: string, i: nat, kind: Comment)
    requires CommentAt(q, i) == [kind]
    ensures !Looking(q, i, Terminator(kind))
  {
    FirstCharacter(q, i, "#");
    FirstCharacter(q, i, "-- ");
    FirstCharacter(q, i, "/*");
    FirstCharacter(q, i, "*/");
    FirstCharacter(q, i, "\n");
  }

  /** A comment that has been skipped. */
  lemma CommentDone(q: string, i: nat, j: nat, kind: Comment, tokens: seq<nat>, params: seq<nat>)
    requires i < |q| && i <= j <= |q| && CommentAt(q, i) == [kind]
    requires Before(q, i + 1) == Scan(Commented(kind), tokens, params)
    requires forall k :: i <= k < j ==> !Looking(q, k, Terminator(kind))
    requires j < |q| ==> Looking(q, j, Terminator(kind))
    ensures j > i
    ensures j < |q| ==> At(q, j) == Scan(Plain(false), tokens, params)
    ensures j == |q| ==> Lexed(q).tokens == tokens && Lexed(q).params == params
  {
    CommentStart(q, i, kind);
    CommentRun(q, i + 1, j, Before(q, i + 1));
  }

  /** A gap that has been skipped. */
  lemma GapDone(q: string, i: nat, j: nat, tokens: seq<nat>, params: seq<nat>)
    requires i <= j <= |q| && Before(q, i) == Scan(Plain(true), tokens, params)
    requires forall k :: i <= k < j ==> IsSpaceOrControl(q[k])
    requires j < |q| ==> !IsSpaceOrControl(q[j])
    ensures j < |q| ==> At(q, j) == Scan(Plain(false), tokens + [j], params)
    ensures j == |q| ==> Lexed(q).tokens == tokens && Lexed(q).params == params
  {
    BlankRun(q, i, j, Before(q, i));
  }

  /** A step forward into a state that needs no look ahead. */
  lemma StepTracks(q: string, i: nat, mode: Mode, tokens: seq<nat>, params: seq<nat>)
    requires i < |q| && Before(q, i + 1) == Scan(mode, tokens, params)
    requires mode == Plain(false) || mode.Quoted?
    ensures i + 1 < |q| ==> At(q, i + 1) == Scan(mode, tokens, params)
    ensures i + 1 == |q| ==> Lexed(q).tokens == tokens && Lexed(q).params == params
  {
  }
}
