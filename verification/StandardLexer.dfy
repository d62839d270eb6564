/** Comments as the SQL standard and C have them: a block comment takes its two delimiters whole. The lexer of the
    driver may use a star or a slash of one delimiter for the next; here is exactly when that matters. */
module StandardLexer {
  import opened Lexer

  /** Whether half of a delimiter of a block comment has been read. */
  datatype Half = Whole | Opened | Closed

  datatype State = State(scan: Scan, half: Half)

  predicate Opens(q: string, i: nat, s: State)
    requires i < |q|
  {
    s.half == Whole && Settle(q, i, s.scan).mode == Plain(false) && CommentAt(q, i) == [Block]
  }

  predicate Closes(q: string, i: nat, s: State) {
    s.half == Whole && s.scan.mode == Commented(Block) && Looking(q, i, Terminator(Block))
  }

  /** The state behind byte i. The second byte of a delimiter is taken as it is; all else is as in the other lexer. */
  function NextState(q: string, i: nat, s: State): State
    requires i < |q|
  {
    if s.half != Whole then s.(half := Whole)
    else if Closes(q, i, s) then State(s.scan.(mode := Plain(false)), Closed)
    else State(Consume(q, i, Settle(q, i, s.scan)), if Opens(q, i, s) then Opened else Whole)
  }

  /** The state in front of byte i. */
  function Standard(q: string, i: nat): State
    requires i <= |q|
  {
    if i == 0 then State(Before(q, 0), Whole) else NextState(q, i - 1, Standard(q, i - 1))
  }

  predicate OpensAt(q: string, i: nat) {
    i < |q| && Opens(q, i, Standard(q, i))
  }

  predicate ClosesAt(q: string, i: nat) {
    i < |q| && Closes(q, i, Standard(q, i))
  }

  // ---------------------------------------------------------------------------------- what the standard lexer does

  /** A block comment goes on to the first terminator behind its opener, and ends behind that. */
  lemma {:induction false} CommentExtent(q: string, i: nat, j: nat)
    requires OpensAt(q, i) && i + 2 <= j <= |q|
    requires forall k :: i + 2 <= k < j ==> !Looking(q, k, "*/")
    ensures Standard(q, j) == State(Standard(q, i + 1).scan, Whole) && Standard(q, j).scan.mode == Commented(Block)
    ensures Looking(q, j, "*/") ==>
              ClosesAt(q, j) && Standard(q, j + 2) == State(Standard(q, j).scan.(mode := Plain(false)), Whole)
    decreases j
  {
    if j == i + 2 {
      Opener(q, i);
    } else {
      CommentExtent(q, i, j - 1);
      hide Opens, CommentAt;
    }
    if Looking(q, j, "*/") {
      assert Standard(q, j + 2) == NextState(q, j + 1, Standard(q, j + 1));
    }
  }

  lemma Opener(q: string, i: nat)
    requires OpensAt(q, i)
    ensures i + 2 <= |q| && q[i] == '/' && q[i + 1] == '*'
    ensures Standard(q, i + 1).scan.mode == Commented(Block) && Standard(q, i + 1).half == Opened
    ensures Standard(q, i + 2) == State(Standard(q, i + 1).scan, Whole)
  {
    assert Looking(q, i, "/*");
    assert q[i..i + 2][0] == '/' && q[i..i + 2][1] == '*';
    assert Standard(q, i + 2) == NextState(q, i + 1, Standard(q, i + 1));
  }

  /** Inside a comment or outside, whole delimiters make no difference. */
  lemma StepWhole(q: string, i: nat, s: State)
    requires i < |q| && s.half == Whole
    ensures NextState(q, i, s).scan == Consume(q, i, Settle(q, i, s.scan))
  {
    if Closes(q, i, s) {
      assert q[i..i + 2][0] == q[i];
      assert CommentAt(q, i) == [] by {
        assert forall text :: |text| > 0 && text[0] != '*' ==> !Looking(q, i, text);
      }
      assert forall text :: |text| > 0 && text[0] != '*' ==> !Looking(q, i, text);
      hide CommentAt;
    }
  }

  /** A question mark outside quotes and comments. */
  predicate IsStandardMarker(q: string, i: nat) {
    && i < |q| && q[i] == '?' && Standard(q, i).half == Whole
    && Settle(q, i, Standard(q, i).scan).mode == Plain(false)
  }

  lemma StandardMarkerStep(q: string, i: nat)
    requires i < |q|
    ensures Standard(q, i + 1).scan.params ==
              if IsStandardMarker(q, i) then Standard(q, i).scan.params + [i] else Standard(q, i).scan.params
  {
    var s := Standard(q, i);
    assert Standard(q, i + 1) == NextState(q, i, s);
    hide Standard, Settle, Consume, CommentAt;
    if s.half == Whole {
      StepWhole(q, i, s);
      MarkerRead(q, i, s.scan);
    }
  }

  lemma {:induction false} StandardParams(q: string, i: nat)
    requires i <= |q|
    ensures Below(Standard(q, i).scan.params, i)
    ensures forall p: nat :: p in Standard(q, i).scan.params <==> p < i && IsStandardMarker(q, p)
  {
    hide *;
    if i == 0 {
      NoParamsYet(q);
    } else {
      StandardParams(q, i - 1);
      StandardMarkerStep(q, i - 1);
      Append(Standard(q, i - 1).scan.params, i - 1);
      MarkerInside(q, i - 1);
    }
  }

  lemma MarkerInside(q: string, i: nat)
    ensures IsStandardMarker(q, i) ==> i < |q|
  {
  }

  lemma NoParamsYet(q: string)
    ensures Standard(q, 0).scan.params == [] && Below([], 0)
  {
  }

  // ---------------------------------------------------------------------------------- when the two agree

  /** A block comment opens here, and its star is also that of a terminator. */
  predicate SharedStar(q: string, i: nat) {
    OpensAt(q, i) && Looking(q, i, "/*/")
  }

  /** A block comment closes here, and its slash is also that of an opener. */
  predicate SharedSlash(q: string, i: nat) {
    ClosesAt(q, i) && Looking(q, i, "*/*") && !Looking(q, i, "*/*!")
  }

  predicate Agree(q: string, i: nat)
    requires i <= |q|
  {
    Standard(q, i).scan == Before(q, i)
  }

  /** What half a delimiter says about the byte in front. */
  predicate HalfIsRight(q: string, i: nat)
    requires i <= |q|
  {
    match Standard(q, i).half
    case Whole => true
    case Opened => i > 0 && OpensAt(q, i - 1) && Looking(q, i - 1, "/*") && Standard(q, i).scan.mode == Commented(Block)
    case Closed => i > 0 && ClosesAt(q, i - 1) && Looking(q, i - 1, "*/") && Standard(q, i).scan.mode == Plain(false)
  }

  lemma HalvesAreRight(q: string, i: nat)
    requires i <= |q|
    ensures HalfIsRight(q, i)
  {
    if i > 0 {
      var s := Standard(q, i - 1);
      assert Standard(q, i) == NextState(q, i - 1, s);
      if Opens(q, i - 1, s) && s.half == Whole && !Closes(q, i - 1, s) {
        Opener(q, i - 1);
        assert Looking(q, i - 1, "/*");
      }
    }
  }

  /** Two texts at the same place. */
  lemma LookingAt(q: string, i: nat)
    requires i > 0
    ensures Looking(q, i - 1, "/*") ==> (Looking(q, i - 1, "/*/") <==> Looking(q, i, "*/"))
    ensures Looking(q, i - 1, "*/") ==> (Looking(q, i - 1, "*/*") <==> Looking(q, i, "/*"))
    ensures Looking(q, i - 1, "*/") ==> (Looking(q, i - 1, "*/*!") <==> Looking(q, i, "/*!"))
  {
    assert i + 1 <= |q| ==> |q[i - 1..i + 1]| == 2 && q[i - 1..i + 1][0] == q[i - 1] && q[i - 1..i + 1][1] == q[i];
    assert i + 2 <= |q| ==> q[i - 1..i + 2] == [q[i - 1], q[i], q[i + 1]] && q[i..i + 2] == [q[i], q[i + 1]];
    assert i + 3 <= |q| ==> q[i - 1..i + 3] == [q[i - 1], q[i], q[i + 1], q[i + 2]]
                            && q[i..i + 3] == [q[i], q[i + 1], q[i + 2]];
  }

  /** No character of one delimiter of a block comment is taken for another. */
  ghost predicate NothingShared(q: string) {
    forall i: nat | i < |q| :: !SharedStar(q, i) && !SharedSlash(q, i)
  }

  predicate Slips(q: string, i: nat) {
    i > 0 && (SharedStar(q, i - 1) || SharedSlash(q, i - 1))
  }

  lemma StepOpened(q: string, i: nat, scan: Scan)
    requires i < |q| && scan.mode == Commented(Block)
    ensures Consume(q, i, Settle(q, i, scan)) == if Looking(q, i, "*/") then scan.(mode := Plain(false)) else scan
  {
    if Looking(q, i, "*/") {
      assert Settle(q, i, scan).mode == Plain(false);
      assert q[i..i + 2][0] == q[i];
      assert forall text :: |text| > 0 && text[0] != '*' ==> !Looking(q, i, text);
    }
  }

  lemma StepClosed(q: string, i: nat, scan: Scan)
    requires i < |q| && scan.mode == Plain(false) && q[i] == '/'
    ensures Consume(q, i, Settle(q, i, scan)) ==
              if Looking(q, i, "/*") && !Looking(q, i, "/*!") then scan.(mode := Commented(Block)) else scan
  {
    assert forall text :: |text| > 0 && text[0] != '/' ==> !Looking(q, i, text);
  }

  /** Where the two have agreed, they go on agreeing unless a character is shared. */
  lemma AgreeStep(q: string, i: nat)
    requires i < |q| && Agree(q, i)
    ensures if Slips(q, i) then Standard(q, i + 1).scan.mode != Before(q, i + 1).mode else Agree(q, i + 1)
  {
    HalvesAreRight(q, i);
    var s := Standard(q, i);
    assert Standard(q, i + 1) == NextState(q, i, s);
    assert Before(q, i + 1) == Consume(q, i, Settle(q, i, s.scan));
    hide Consume, Settle, CommentAt, Looking, Standard, Before, Opens, Closes;
    if i > 0 {
      LookingAt(q, i);
    }
    match s.half {
      case Whole =>
        StepWhole(q, i, s);
        NotShared(q, i);
      case Opened => StepOpened(q, i, s.scan);
      case Closed => StepClosed(q, i, s.scan);
    }
  }

  /** In front of a whole state no delimiter has just begun. */
  lemma NotShared(q: string, i: nat)
    requires i < |q| && Standard(q, i).half == Whole
    ensures !Slips(q, i)
  {
    if i > 0 {
      assert Standard(q, i) == NextState(q, i - 1, Standard(q, i - 1));
    }
  }

  lemma {:induction false} AgreeFrom(q: string, i: nat)
    requires i <= |q| && forall k: nat | k < i :: !Slips(q, k)
    ensures Agree(q, i)
  {
    if i > 0 {
      AgreeFrom(q, i - 1);
      AgreeStep(q, i - 1);
    }
  }

  lemma {:induction false} FirstSlip(q: string, i: nat) returns (k: nat)
    requires i < |q| && Slips(q, i)
    ensures k <= |q| && Standard(q, k).scan.mode != Before(q, k).mode
  {
    if j: nat :| j < i && Slips(q, j) {
      k := FirstSlip(q, j);
    } else {
      AgreeFrom(q, i);
      AgreeStep(q, i);
      k := i + 1;
    }
  }

  lemma SameUnlessShared(q: string, i: nat)
    requires NothingShared(q) && i <= |q|
    ensures Standard(q, i).scan == Before(q, i)
  {
    NoSlips(q, i);
    AgreeFrom(q, i);
    hide Standard, Before;
  }

  lemma DifferentIfShared(q: string) returns (k: nat)
    requires !NothingShared(q)
    ensures k <= |q| && Standard(q, k).scan.mode != Before(q, k).mode
  {
    hide Standard, Before, OpensAt, ClosesAt;
    var i: nat :| i < |q| && (SharedStar(q, i) || SharedSlash(q, i));
    assert Slips(q, i + 1);
    k := FirstSlip(q, i + 1);
  }

  /** The two lexers are in the same state in front of every byte if and only if no block comment opens where its star
      also closes it, and none closes where its slash also opens one. Then all tokens and parameters are the same. */
  lemma AgreeIff(q: string)
    ensures (forall i: nat | i <= |q| :: Standard(q, i).scan.mode == Before(q, i).mode) <==> NothingShared(q)
    ensures NothingShared(q) ==> Standard(q, |q|).scan == Lexed(q)
  {
    hide Standard, Before, NothingShared;
    if NothingShared(q) {
      forall i: nat | i <= |q| ensures Standard(q, i).scan == Before(q, i) {
        SameUnlessShared(q, i);
      }
    } else {
      var k := DifferentIfShared(q);
    }
  }

  lemma NoSlips(q: string, i: nat)
    requires NothingShared(q) && i <= |q|
    ensures forall k: nat | k < i :: !Slips(q, k)
  {
  }

  /** Then the parameters are exactly the question marks outside quotes and comments. */
  lemma ParamsAreStandardMarkers(q: string)
    requires NothingShared(q)
    ensures forall p: nat :: p in Lexed(q).params <==> IsStandardMarker(q, p)
  {
    AgreeIff(q);
    StandardParams(q, |q|);
    hide Lexed, Standard, Before, NothingShared, Settle;
    forall p: nat ensures p in Lexed(q).params <==> IsStandardMarker(q, p) {
    }
  }

  // ---------------------------------------------------------------------------------- two queries that go wrong

  /** One byte further, for both lexers. */
  lemma Ahead(q: string, i: nat)
    requires i < |q|
    ensures Before(q, i + 1) == Consume(q, i, Settle(q, i, Before(q, i)))
    ensures Standard(q, i + 1) == NextState(q, i, Standard(q, i))
    ensures Standard(q, i).half == Whole ==>
              Standard(q, i + 1).scan == Consume(q, i, Settle(q, i, Standard(q, i).scan))
  {
    if Standard(q, i).half == Whole {
      StepWhole(q, i, Standard(q, i));
    }
  }

  lemma AtStart(q: string)
    requires Looking(q, 0, "/*") && !Looking(q, 0, "/*!")
    ensures OpensAt(q, 0) && Before(q, 1) == Standard(q, 1).scan == Scan(Commented(Block), [0], [])
  {
    assert q[0..2][0] == '/';
    assert forall text :: |text| > 0 && text[0] != '/' ==> !Looking(q, 0, text);
    assert Standard(q, 0).scan == Before(q, 0) == Scan(Plain(true), [], []);
    Ahead(q, 0);
  }

  lemma Delimiters(q: string, i: nat)
    requires i < |q|
    ensures Looking(q, i, "/*") <==> i + 1 < |q| && q[i] == '/' && q[i + 1] == '*'
    ensures Looking(q, i, "*/") <==> i + 1 < |q| && q[i] == '*' && q[i + 1] == '/'
    ensures Looking(q, i, "/*!") ==> i + 2 < |q| && q[i + 2] == '!'
  {
    assert i + 2 <= |q| ==> q[i..i + 2] == [q[i], q[i + 1]];
    assert i + 3 <= |q| ==> q[i..i + 3] == [q[i], q[i + 1], q[i + 2]];
  }

  lemma InComment(q: string, i: nat)
    requires i < |q| && Before(q, i).mode == Commented(Block)
    ensures Before(q, i + 1) ==
              if q[i] == '*' && i + 1 < |q| && q[i + 1] == '/' then Before(q, i).(mode := Plain(false)) else Before(q, i)
  {
    hide *;
    Ahead(q, i);
    Delimiters(q, i);
    StepOpened(q, i, Before(q, i));
  }

  lemma AtSlash(q: string, i: nat)
    requires i < |q| && Before(q, i).mode == Plain(false) && q[i] == '/' && (i + 2 < |q| ==> q[i + 2] != '!')
    ensures Before(q, i + 1) ==
              if i + 1 < |q| && q[i + 1] == '*' then Before(q, i).(mode := Commented(Block)) else Before(q, i)
  {
    hide *;
    Ahead(q, i);
    Delimiters(q, i);
    StepClosed(q, i, Before(q, i));
  }

  /** A star or a question mark outside comments. */
  lemma PlainByte(q: string, i: nat, scan: Scan)
    requires i < |q| && scan.mode == Plain(false) && (q[i] == '*' || q[i] == '?')
    ensures Consume(q, i, Settle(q, i, scan)) == if q[i] == '?' then scan.(params := scan.params + [i]) else scan
    ensures CommentAt(q, i) == []
  {
    assert forall text :: |text| > 0 && text[0] != q[i] ==> !Looking(q, i, text);
  }

  lemma AtMark(q: string, i: nat)
    requires i < |q| && (q[i] == '*' || q[i] == '?')
    ensures Before(q, i).mode == Plain(false) ==>
              Before(q, i + 1) ==
              if q[i] == '?' then Before(q, i).(params := Before(q, i).params + [i]) else Before(q, i)
    ensures var s := Standard(q, i);
            s.half == Whole && s.scan.mode == Plain(false) ==>
              Standard(q, i + 1) == if q[i] == '?' then s.(scan := s.scan.(params := s.scan.params + [i])) else s
  {
    Ahead(q, i);
    hide Consume, Settle, Standard, Before, CommentAt;
    if Before(q, i).mode == Plain(false) {
      PlainByte(q, i, Before(q, i));
    }
    if Standard(q, i).scan.mode == Plain(false) {
      PlainByte(q, i, Standard(q, i).scan);
    }
  }

  /** A question mark inside a comment is taken for a parameter, since the star of the opener closes the comment. */
  lemma CommentedMarkerIsTaken(q: string)
    requires q == "/*/?*/"
    ensures Lexed(q).params == [3] && Standard(q, 6).scan.params == []
  {
    hide Before, Standard, Looking;
    Delimiters(q, 0);
    Delimiters(q, 4);
    AtStart(q);
    InComment(q, 1);
    AtSlash(q, 2);
    AtMark(q, 3);
    AtMark(q, 4);
    AtSlash(q, 5);
    Delimiters(q, 2);
    Delimiters(q, 3);
    CommentExtent(q, 0, 4);
  }

  /** A question mark behind a comment is lost, since the slash of the terminator opens a comment. */
  lemma MarkerIsLost(q: string)
    requires q == "/**/*?*/"
    ensures Lexed(q).params == [] && Standard(q, 8).scan.params == [5]
  {
    hide Before, Standard, Looking;
    Delimiters(q, 0);
    Delimiters(q, 2);
    AtStart(q);
    CommentExtent(q, 0, 2);
    MarkerIsHidden(q);
    MarkerIsSeen(q);
  }

  lemma MarkerIsHidden(q: string)
    requires q == "/**/*?*/" && Before(q, 1) == Scan(Commented(Block), [0], [])
    ensures Lexed(q).params == []
  {
    hide Before;
    InComment(q, 1);
    InComment(q, 2);
    AtSlash(q, 3);
    InComment(q, 4);
    InComment(q, 5);
    InComment(q, 6);
    AtSlash(q, 7);
  }

  lemma MarkerIsSeen(q: string)
    requires q == "/**/*?*/" && Standard(q, 4) == State(Scan(Plain(false), [0], []), Whole)
    ensures Standard(q, 8).scan.params == [5]
  {
    hide Standard, Consume, Settle, Looking;
    AtMark(q, 4);
    AtMark(q, 5);
    AtMark(q, 6);
    Ahead(q, 7);
    Delimiters(q, 7);
    StepClosed(q, 7, Standard(q, 7).scan);
  }
}
