/** Retrieving one long value in parts as UTF-16: the value is converted again from the place reached, and the length of
    the whole conversion is counted once. */
module WideGetData {
  import opened Options
  import opened Basics
  import opened Utf8
  import GetData

  datatype ReturnCode = Done(truncated: bool, illegal: bool) | NoData | Failure

  /** The place reached in the bytes, the length of the whole conversion if it is known, and how much of it has been
      handed out, the latter two in bytes of UTF-16. */
  datatype Progress = Progress(source: Option<nat>, dstBytes: Option<nat>, dstOffset: nat)

  datatype Piece = Piece(rc: ReturnCode, chunk: seq<Code>, avail: nat, next: Progress)

  const NOT_SET := 0xffff_ffff_ffff_ffff

  function ReadOffset(p: Progress): nat {
    if p.source.Some? then p.source.value else 0
  }

  /** The room for data in a buffer of the given size: one unit is for the zero at the end. */
  function Room(size: nat): nat {
    if size > 0 then size - 1 else 0
  }

  /** A call with a buffer of the given size. */
  function WidePiece(data: seq<Byte>, p: Progress, size: nat): Piece
    requires ReadOffset(p) <= |data|
  {
    var pos := ReadOffset(p);
    var rest := Units(data, pos);
    var n := Min(Room(size), |rest|);
    var source := Some(After(data, pos, n));
    if p.dstBytes.Some? && p.dstOffset >= p.dstBytes.value then Piece(NoData, [], 0, p.(source := Some(pos)))
    else if GetsStuck(data, pos) then Piece(Failure, rest[..n], 0, p.(source := source))
    else
      var counted := if size > 0 && p.dstBytes.None? then Progress(source, Some(2 * |rest|), 0)
                     else p.(source := source);
      var next := counted.(dstOffset := counted.dstOffset + 2 * n);
      var avail := if size > 0 then counted.dstBytes.value - counted.dstOffset else 2 * |rest|;
      Piece(Done(size == 0 || next.dstBytes.value > next.dstOffset, HasIllegal(data, pos)), rest[..n], avail, next)
  }

  class WideGetter {
    const value: seq<Byte>
    const maxLength: nat
    const retrieveData: bool
    var source: Option<nat>
    var dstBytes: Option<nat>
    var dstOffset: nat

    function Data(): seq<Byte> {
      GetData.Capped(value, maxLength)
    }

    function State(): Progress
      reads this
    {
      Progress(source, dstBytes, dstOffset)
    }

    /** No byte that may be seen starts a sequence of four. */
    ghost predicate Valid()
      reads this
    {
      ReadOffset(State()) <= |Data()| && forall b <- Data() :: b < 0xf0
    }

    constructor (value: seq<Byte>, maxLength: nat, retrieveData: bool)
      requires forall b <- GetData.Capped(value, maxLength) :: b < 0xf0
      ensures Valid() && this.value == value && this.maxLength == maxLength && this.retrieveData == retrieveData
      ensures source == None && dstBytes == None
    {
      this.value, this.maxLength, this.retrieveData := value, maxLength, retrieveData;
      source, dstBytes, dstOffset := None, None, NOT_SET;
    }

    /** What the loop over the characters has done when it has converted used characters from position src on: the first
        ones are in the buffer, and the source stands behind them. */
    ghost predicate Copied(before: seq<Code>, after: seq<Code>, src: nat, used: nat)
      reads this
      requires src <= |Data()| && used <= |Units(Data(), src)|
    {
      var n := Min(Room(|before|), used);
      && |after| == |before|
      && source == Some(After(Data(), src, n))
      && (retrieveData && |before| > 0 ==>
            after[..n] == Units(Data(), src)[..n]
            && (if used < Room(|before|) then after[n..] == before[n..] else after[n] == 0))
      && (!retrieveData && |before| != 1 ==> after == before)
    }

    /** Put one unit into the buffer if there is room; the last place is for the zero. */
    method Put(result: array<Code>, ghost before: seq<Code>, src: nat, used: nat, code: Code, next: nat)
      requires src <= |Data()| && used < |Units(Data(), src)| && code == Units(Data(), src)[used]
      requires next == After(Data(), src, used + 1) && Copied(before, result[..], src, used)
      modifies this`source, result
      ensures Copied(before, result[..], src, used + 1)
    {
      hide Units, After;
      if used < Room(result.Length) {
        if retrieveData {
          result[used] := code;
          if used + 1 == Room(result.Length) {
            result[used + 1] := 0;
          }
        }
        source := Some(next);
      }
    }

    /** The loop over the characters. */
    method ConvertCharacters(result: array<Code>, ghost before: seq<Code>, src: nat)
      returns (stuck: bool, usedChars: nat, errorCount: nat)
      requires src <= |Data()| && Copied(before, result[..], src, 0)
      modifies this`source, result
      ensures stuck == GetsStuck(Data(), src) && usedChars == |Units(Data(), src)|
      ensures errorCount > 0 <==> HasIllegal(Data(), src)
      ensures Copied(before, result[..], src, usedChars)
    {
      var data, pos := Data(), src;
      usedChars, errorCount, stuck := 0, 0, false;
      while pos < |data|
        invariant usedChars <= |Units(data, src)| && pos == After(data, src, usedChars)
        invariant (errorCount > 0 || HasIllegal(data, pos)) <==> HasIllegal(data, src)
        invariant Copied(before, result[..], src, usedChars)
        decreases |data| - pos
      {
        Ahead(data, src, usedChars);
        var c := Convert(data, pos);
        if c.Stuck? {
          return true, usedChars, errorCount;
        }
        if !c.good {
          errorCount := errorCount + 1;
        }
        hide *;
        Put(result, before, src, usedChars, c.code, pos + c.length);
        pos, usedChars := pos + c.length, usedChars + 1;
      }
      Ahead(data, src, usedChars);
    }

    /** What a call leaves in the buffer. */
    ghost predicate Filled(before: seq<Code>, after: seq<Code>, piece: Piece) {
      var n := |piece.chunk|;
      && |after| == |before|
      && (retrieveData && piece.rc.Done? && |before| > 0 ==>
            n < |after| && after[..n] == piece.chunk && after[n] == 0 && after[n + 1..] == before[n + 1..])
      && (!retrieveData && |before| != 1 ==> after == before)
    }

    lemma CopiedIsFilled(before: seq<Code>, after: seq<Code>, src: nat, piece: Piece)
      requires src <= |Data()| && piece.chunk == Units(Data(), src)[..Min(Room(|before|), |Units(Data(), src)|)]
      requires Copied(before, after, src, |Units(Data(), src)|)
      ensures |piece.chunk| < Room(|before|) && retrieveData ==> Filled(before, after[|piece.chunk| := 0], piece)
      ensures !(|piece.chunk| < Room(|before|) && retrieveData) ==> Filled(before, after, piece)
      ensures piece.rc.Failure? ==> Filled(before, after, piece)
      ensures source == Some(After(Data(), src, |piece.chunk|))
    {
      hide Units, After;
    }

    /** Count what is handed out, and report. */
    method Account(size: nat, usedChars: nat, errorCount: nat) returns (rc: ReturnCode, availBytes: Option<nat>)
      requires dstBytes.Some? ==> dstOffset < dstBytes.value
      modifies this`dstBytes, this`dstOffset
      ensures var n := 2 * Min(Room(size), usedChars);
              var counting := size > 0 && old(dstBytes).None?;
              var offset := if counting then 0 else old(dstOffset);
              && dstBytes == (if counting then Some(2 * usedChars) else old(dstBytes))
              && dstOffset == offset + n
              && rc == Done(size == 0 || dstBytes.value > dstOffset, errorCount > 0)
              && availBytes == if !retrieveData then None
                               else Some(if size > 0 then dstBytes.value - offset else 2 * usedChars)
    {
      availBytes := None;
      if size > 0 && dstBytes.None? {
        dstBytes, dstOffset := Some(usedChars * 2), 0;
      }
      if retrieveData {
        availBytes := Some(if size > 0 then dstBytes.value - dstOffset else usedChars * 2);
      }
      dstOffset := dstOffset + Min(Room(size), usedChars) * 2;
      rc := Done(size == 0 || dstBytes.value > dstOffset, errorCount > 0);
    }

    /** Copy what fits into the buffer; the last unit is for the zero. */
    method CopyUnits(result: array<Code>, src: nat, ghost piece: Piece)
      returns (stuck: bool, usedChars: nat, errorCount: nat)
      requires source == Some(src) && src <= |Data()|
      requires piece.chunk == Units(Data(), src)[..Min(Room(result.Length), |Units(Data(), src)|)]
      requires GetsStuck(Data(), src) ==> piece.rc == Failure
      modifies this`source, result
      ensures stuck == GetsStuck(Data(), src) && usedChars == |Units(Data(), src)|
      ensures errorCount > 0 <==> HasIllegal(Data(), src)
      ensures source == Some(After(Data(), src, |piece.chunk|)) && Filled(old(result[..]), result[..], piece)
    {
      ghost var before := result[..];
      if result.Length == 1 {
        result[0] := 0;
      }
      AfterNone(Data(), src);
      stuck, usedChars, errorCount := ConvertCharacters(result, before, src);
      CopiedIsFilled(before, result[..], src, piece);
      hide Copied, Filled, Units, After, GetsStuck, HasIllegal;
      if !stuck && usedChars < Room(result.Length) && retrieveData {
        result[usedChars] := 0;
      }
    }

    lemma NothingFilled(before: seq<Code>, after: seq<Code>, piece: Piece)
      requires piece.rc == NoData && after == if |before| == 1 then [0] else before
      ensures Filled(before, after, piece)
    {
    }

    /** Retrieve the next part. */
    method CopyWcharResult(result: array<Code>) returns (rc: ReturnCode, availBytes: Option<nat>)
      requires Valid()
      modifies this`source, this`dstBytes, this`dstOffset, result
      ensures Valid()
      ensures var piece := WidePiece(Data(), old(State()), result.Length);
              && rc == piece.rc && State() == piece.next && Filled(old(result[..]), result[..], piece)
              && (rc.Done? ==> availBytes == if retrieveData then Some(piece.avail) else None)
    {
      ghost var piece := WidePiece(Data(), State(), result.Length);
      ghost var before := result[..];
      var src := 0;
      if source.None? {
        source := Some(src);
      } else {
        src := source.value;
      }
      hide Units, After, GetsStuck, HasIllegal, Filled, GetData.Capped;
      if dstBytes.Some? && dstOffset >= dstBytes.value {
        if result.Length == 1 {
          result[0] := 0;
        }
        NothingFilled(before, result[..], piece);
        return NoData, None;
      }
      var stuck, usedChars, errorCount := CopyUnits(result, src, piece);
      if stuck {
        return Failure, None;
      }
      rc, availBytes := Account(result.Length, usedChars, errorCount);
    }
  }

  lemma AfterNone(data: seq<Byte>, i: nat)
    requires i <= |data|
    ensures After(data, i, 0) == i
  {
  }

  /** What stands at the position behind the first n characters. */
  lemma Ahead(data: seq<Byte>, src: nat, n: nat)
    requires src <= |data| && n <= |Units(data, src)|
    ensures var pos := After(data, src, n);
            && (pos == |data| ==> n == |Units(data, src)| && !GetsStuck(data, src) && !HasIllegal(data, pos))
            && (pos < |data| && Convert(data, pos).Stuck? ==>
                  n == |Units(data, src)| && GetsStuck(data, src) && !HasIllegal(data, pos))
            && (pos < |data| && Convert(data, pos).Converted? ==>
                  var c := Convert(data, pos);
                  n < |Units(data, src)| && c.code == Units(data, src)[n]
                  && After(data, src, n + 1) == pos + c.length
                  && (HasIllegal(data, pos) <==> !c.good || HasIllegal(data, pos + c.length)))
  {
    UnitsAfter(data, src, n);
    AfterAfter(data, src, n, 1);
    hide Convert;
  }

  // ---------------------------------------------------------------------------------- any number of calls

  /** The state in front of the first call. */
  const START := Progress(None, None, NOT_SET)

  /** The state after n calls with buffers of the given sizes. */
  function StateAfter(data: seq<Byte>, sizes: seq<nat>, n: nat): (p: Progress)
    requires n <= |sizes|
    ensures ReadOffset(p) <= |data|
  {
    if n == 0 then START else WidePiece(data, StateAfter(data, sizes, n - 1), sizes[n - 1]).next
  }

  function PieceAt(data: seq<Byte>, sizes: seq<nat>, n: nat): Piece
    requires n < |sizes|
  {
    WidePiece(data, StateAfter(data, sizes, n), sizes[n])
  }

  /** Everything the first n calls have handed out. */
  function Delivered(data: seq<Byte>, sizes: seq<nat>, n: nat): seq<Code>
    requires n <= |sizes|
  {
    if n == 0 then [] else Delivered(data, sizes, n - 1) + PieceAt(data, sizes, n - 1).chunk
  }

  /** One of the first n calls had a buffer, so that the length has been counted. */
  predicate Counted(sizes: seq<nat>, n: nat)
    requires n <= |sizes|
  {
    n > 0 && (sizes[n - 1] > 0 || Counted(sizes, n - 1))
  }

  /** The state is right when the given number of units has been handed out. */
  ghost predicate Consistent(data: seq<Byte>, p: Progress, counted: bool, delivered: nat) {
    var all := Units(data, 0);
    && delivered <= |all| && ReadOffset(p) == After(data, 0, delivered)
    && p.dstBytes == (if counted then Some(2 * |all|) else None)
    && if counted then p.dstOffset == 2 * delivered else delivered == 0
  }

  /** What one call does in a state that is right. */
  lemma CallFrom(data: seq<Byte>, p: Progress, counted: bool, delivered: nat, size: nat)
    requires ReadOffset(p) <= |data| && !GetsStuck(data, 0) && Consistent(data, p, counted, delivered)
    ensures var all, piece := Units(data, 0), WidePiece(data, p, size);
            && delivered + |piece.chunk| <= |all| && piece.chunk == all[delivered..delivered + |piece.chunk|]
            && Consistent(data, piece.next, counted || size > 0, delivered + |piece.chunk|)
            && |piece.chunk| == Min(Room(size), |all| - delivered)
            && (piece.rc == NoData <==> counted && delivered == |all|)
            && (piece.rc != NoData ==>
                  && piece.rc == Done(size == 0 || delivered + |piece.chunk| < |all|, HasIllegal(data, ReadOffset(p)))
                  && piece.avail == 2 * (|all| - delivered))
  {
    var n := Min(Room(size), |Units(data, 0)| - delivered);
    UnitsAfter(data, 0, delivered);
    AfterAfter(data, 0, delivered, n);
    AfterNone(data, ReadOffset(p));
    hide Units, After, GetsStuck, HasIllegal;
  }

  ghost predicate IsPrefix(done: seq<Code>, all: seq<Code>) {
    |done| <= |all| && done == all[..|done|]
  }

  lemma LongerPrefix(done: seq<Code>, chunk: seq<Code>, all: seq<Code>)
    requires IsPrefix(done, all) && |done| + |chunk| <= |all| && chunk == all[|done|..|done| + |chunk|]
    ensures IsPrefix(done + chunk, all)
  {
  }

  /** What has been handed out is a prefix of the conversion of the value, and the state is right for it. */
  ghost predicate InOrder(data: seq<Byte>, sizes: seq<nat>, n: nat)
    requires n <= |sizes|
  {
    var done := Delivered(data, sizes, n);
    IsPrefix(done, Units(data, 0)) && Consistent(data, StateAfter(data, sizes, n), Counted(sizes, n), |done|)
  }

  lemma InOrderAtStart(data: seq<Byte>, sizes: seq<nat>)
    ensures InOrder(data, sizes, 0) && |Delivered(data, sizes, 0)| == 0
  {
    AfterNone(data, 0);
    hide Units;
  }

  lemma OneCall(data: seq<Byte>, sizes: seq<nat>, n: nat)
    requires n < |sizes|
    ensures var piece := WidePiece(data, StateAfter(data, sizes, n), sizes[n]);
            && StateAfter(data, sizes, n + 1) == piece.next
            && Delivered(data, sizes, n + 1) == Delivered(data, sizes, n) + piece.chunk
            && Counted(sizes, n + 1) == (Counted(sizes, n) || sizes[n] > 0)
  {
    hide WidePiece;
  }

  lemma InOrderIs(data: seq<Byte>, sizes: seq<nat>, n: nat)
    requires n <= |sizes|
    ensures var done := Delivered(data, sizes, n);
            InOrder(data, sizes, n) <==>
              IsPrefix(done, Units(data, 0)) && Consistent(data, StateAfter(data, sizes, n), Counted(sizes, n), |done|)
  {
  }

  lemma InOrderStep(data: seq<Byte>, sizes: seq<nat>, n: nat)
    requires n < |sizes| && !GetsStuck(data, 0) && InOrder(data, sizes, n)
    ensures InOrder(data, sizes, n + 1)
    ensures |Delivered(data, sizes, n + 1)|
            == |Delivered(data, sizes, n)| + Min(Room(sizes[n]), |Units(data, 0)| - |Delivered(data, sizes, n)|)
  {
    hide *;
    var done, state := Delivered(data, sizes, n), StateAfter(data, sizes, n);
    InOrderIs(data, sizes, n);
    CallFrom(data, state, Counted(sizes, n), |done|, sizes[n]);
    OneCall(data, sizes, n);
    LongerPrefix(done, WidePiece(data, state, sizes[n]).chunk, Units(data, 0));
    InOrderIs(data, sizes, n + 1);
  }

  /** For any sizes of the buffers, what has been handed out is a prefix of the conversion of the value. */
  lemma {:induction false} DeliveredInOrder(data: seq<Byte>, sizes: seq<nat>, n: nat)
    requires n <= |sizes| && !GetsStuck(data, 0)
    ensures InOrder(data, sizes, n)
  {
    hide *;
    if n == 0 {
      InOrderAtStart(data, sizes);
    } else {
      DeliveredInOrder(data, sizes, n - 1);
      InOrderStep(data, sizes, n - 1);
    }
  }

  /** A call hands out one unit less than the buffer has, for the zero at the end, or what remains. */
  lemma ChunkFillsBuffer(data: seq<Byte>, sizes: seq<nat>, n: nat)
    requires n < |sizes| && !GetsStuck(data, 0) && sizes[n] > 0
    ensures var done, all := |Delivered(data, sizes, n)|, |Units(data, 0)|;
            |Delivered(data, sizes, n + 1)| == if done + (sizes[n] - 1) <= all then done + (sizes[n] - 1) else all
  {
    hide *;
    DeliveredInOrder(data, sizes, n);
    InOrderIs(data, sizes, n);
    InOrderStep(data, sizes, n);
    RoomForUnits(sizes[n], Delivered(data, sizes, n), Units(data, 0));
  }

  lemma RoomForUnits(size: nat, done: seq<Code>, all: seq<Code>)
    requires size > 0 && IsPrefix(done, all)
    ensures |done| + Min(Room(size), |all| - |done|) == if |done| + (size - 1) <= |all| then |done| + (size - 1) else |all|
  {
  }

  /** What call n reports: no data exactly when the length is known and nothing remained; otherwise the length that
      remained; truncation exactly when something remains, and in every call without a buffer. */
  lemma ReportsWhatRemains(data: seq<Byte>, sizes: seq<nat>, n: nat)
    requires n < |sizes| && !GetsStuck(data, 0)
    ensures var all, done, piece := Units(data, 0), Delivered(data, sizes, n), PieceAt(data, sizes, n);
            && (piece.rc == NoData <==> Counted(sizes, n) && done == all)
            && (piece.rc != NoData ==>
                  && piece.rc.Done? && piece.avail == 2 * (|all| - |done|)
                  && (piece.rc.truncated <==> sizes[n] == 0 || Delivered(data, sizes, n + 1) != all))
  {
    DeliveredInOrder(data, sizes, n);
    DeliveredInOrder(data, sizes, n + 1);
    CallFrom(data, StateAfter(data, sizes, n), Counted(sizes, n), |Delivered(data, sizes, n)|, sizes[n]);
    hide WidePiece, Units, After, GetsStuck, Consistent, StateAfter;
  }

  lemma {:induction false} LengthGrows(data: seq<Byte>, sizes: seq<nat>, n: nat)
    requires n <= |sizes| && !GetsStuck(data, 0) && forall i :: 0 <= i < n ==> sizes[i] > 1
    ensures |Delivered(data, sizes, n)| >= Min(n, |Units(data, 0)|)
  {
    hide *;
    if n == 0 {
      LessThanNone(|Units(data, 0)|);
    } else {
      LengthGrows(data, sizes, n - 1);
      DeliveredInOrder(data, sizes, n - 1);
      InOrderStep(data, sizes, n - 1);
      LessThanMore(n - 1, |Delivered(data, sizes, n - 1)|, |Units(data, 0)|, sizes[n - 1]);
    }
  }

  lemma LessThanNone(all: nat)
    ensures Min(0, all) == 0
  {
  }

  lemma LessThanMore(n: nat, done: nat, all: nat, size: nat)
    requires Min(n, all) <= done && size > 1
    ensures done <= all ==> Min(n + 1, all) <= done + Min(Room(size), all - done)
    ensures done > all ==> Min(n + 1, all) <= done
  {
  }

  /** A buffer for at least one unit and the zero means progress: all units come after as many calls. */
  lemma ProgressUntilEnd(data: seq<Byte>, sizes: seq<nat>, n: nat)
    requires n <= |sizes| && !GetsStuck(data, 0) && forall i :: 0 <= i < n ==> sizes[i] > 1
    ensures |Delivered(data, sizes, n)| >= Min(n, |Units(data, 0)|)
    ensures n >= |Units(data, 0)| ==> Delivered(data, sizes, n) == Units(data, 0)
  {
    DeliveredInOrder(data, sizes, n);
    LengthGrows(data, sizes, n);
    hide Delivered, Units, Consistent, StateAfter, Counted;
  }

  /** Text of the Basic Multilingual Plane in UTF-8, as far as a maximal length lets it be seen: the conversion gets
      stuck if and only if that length cuts the text inside a character. */
  lemma StuckIffCut(text: seq<Code>, maxLength: nat)
    requires forall c <- text :: IsCharacter(c)
    ensures GetsStuck(GetData.Capped(EncodeAll(text), maxLength), 0)
            <==> 0 < maxLength < |EncodeAll(text)| && !OnBoundary(text, maxLength)
    ensures Units(GetData.Capped(EncodeAll(text), maxLength), 0) == Visible(text, maxLength)
    ensures !HasIllegal(GetData.Capped(EncodeAll(text), maxLength), 0)
  {
    var all, data := EncodeAll(text), GetData.Capped(EncodeAll(text), maxLength);
    assert data == all[..|data|] && data[0..] == data;
    CutRoundTrip(text, data, 0, |data|);
    BoundaryIff(text, |data|);
    WholeText(text);
    hide Units, GetsStuck, HasIllegal, EncodeAll, OnBoundary, WholeCharacters;
    assert text[..|text|] == text;
  }

  /** Then every first call fails, whatever its buffer. */
  lemma CutTextFails(text: seq<Code>, maxLength: nat, size: nat)
    requires forall c <- text :: IsCharacter(c)
    ensures WidePiece(GetData.Capped(EncodeAll(text), maxLength), START, size).rc == Failure
            <==> 0 < maxLength < |EncodeAll(text)| && !OnBoundary(text, maxLength)
  {
    StuckIffCut(text, maxLength);
    hide Units, GetsStuck, HasIllegal, EncodeAll, OnBoundary, After, Visible, GetData.Capped;
  }

  /** The characters that a maximal length leaves whole. */
  function Visible(text: seq<Code>, maxLength: nat): seq<Code> {
    if maxLength == 0 then text else text[..WholeCharacters(text, Min(maxLength, |EncodeAll(text)|))]
  }

  /** Unless the conversion gets stuck these characters come out, with any buffers, and never flagged as illegal. */
  lemma TextComesOut(text: seq<Code>, maxLength: nat, sizes: seq<nat>, n: nat)
    requires n <= |sizes| && forall c <- text :: IsCharacter(c)
    requires maxLength == 0 || maxLength >= |EncodeAll(text)| || OnBoundary(text, maxLength)
    ensures var data := GetData.Capped(EncodeAll(text), maxLength);
            && !GetsStuck(data, 0) && Units(data, 0) == Visible(text, maxLength)
            && Delivered(data, sizes, n) <= Visible(text, maxLength)
            && (n < |sizes| && PieceAt(data, sizes, n).rc.Done? ==> !PieceAt(data, sizes, n).rc.illegal)
  {
    var data := GetData.Capped(EncodeAll(text), maxLength);
    StuckIffCut(text, maxLength);
    DeliveredInOrder(data, sizes, n);
    if n < |sizes| {
      var done := |Delivered(data, sizes, n)|;
      LegalAfter(data, 0, done);
      CallFrom(data, StateAfter(data, sizes, n), Counted(sizes, n), done, sizes[n]);
    }
    hide WidePiece, Units, After, GetsStuck, HasIllegal, EncodeAll, Visible, OnBoundary, GetData.Capped;
  }

  /** A call without a buffer in front of all others: it reports the whole length, and its flag is right exactly when
      there is something to come. */
  lemma FirstProbe(data: seq<Byte>)
    requires !GetsStuck(data, 0)
    ensures var piece := WidePiece(data, START, 0);
            && piece.rc.Done? && piece.avail == 2 * |Units(data, 0)| && piece.rc.truncated
            && ((piece.rc.truncated <==> Units(data, 0) != []) <==> data != [])
  {
    assert data != [] && Convert(data, 0).Converted? ==> Units(data, 0) != [];
  }
}
