/** Retrieving one long value in parts: the state that is kept between calls, and what one call hands out. */
module GetData {
  import opened Options
  import opened Basics

  datatype ReturnCode = Success | Truncated | NoData

  /** What a call gives: its return code, the data put into the buffer, the length it reports, and the state after it.
      */
  datatype Piece = Piece(rc: ReturnCode, chunk: string, avail: nat, source: Option<nat>)

  /** The value as far as the maximal length, if there is one, lets it be seen. */
  function Capped<T>(value: seq<T>, maxLength: nat): seq<T> {
    if maxLength != 0 && |value| > maxLength then value[..maxLength] else value
  }

  function SourceOffset(source: Option<nat>): nat {
    if source.Some? then source.value else 0
  }

  /** A call for bytes with the given room. */
  function BinaryPiece(data: string, source: Option<nat>, room: nat): Piece
    requires SourceOffset(source) <= |data|
  {
    var rest := data[SourceOffset(source)..];
    if source.Some? && rest == "" then Piece(NoData, "", 0, source)
    else
      var n := Min(room, |rest|);
      Piece(if |rest| > room then Truncated else Success, rest[..n], |rest|, Some(SourceOffset(source) + n))
  }

  /** A call for a string that ends in a zero byte, with a buffer of the given size. A first call without a buffer
      reports the whole length and keeps the state. */
  function AnsiPiece(value: string, maxLength: nat, source: Option<nat>, size: nat): Piece
    requires SourceOffset(source) <= |Capped(value, maxLength)|
  {
    if size == 0 && source == None then Piece(Truncated, "", |value|, None)
    else BinaryPiece(Capped(value, maxLength), source, if size > 0 then size - 1 else 0)
  }

  /** The start of a buffer is overwritten. */
  function Overwritten(buffer: string, text: string): (after: string)
    ensures |text| <= |buffer| ==> |after| == |buffer|
  {
    if |text| <= |buffer| then text + buffer[|text|..] else text
  }

  lemma Terminate(buffer: string, text: string)
    requires |text| < |buffer|
    ensures Overwritten(buffer, text)[|text| := '\0'] == Overwritten(buffer, text + ['\0'])
  {
  }

  lemma NothingOverwritten(buffer: string)
    ensures Overwritten(buffer, "") == buffer
  {
  }

  lemma SliceOfCapped(value: string, maxLength: nat, i: nat, n: nat)
    requires i + n <= |Capped(value, maxLength)|
    ensures value[i..i + n] == Capped(value, maxLength)[i..][..n]
  {
  }

  method MemCopy(to: array<char>, from: string)
    requires |from| <= to.Length
    modifies to
    ensures to[..] == Overwritten(old(to[..]), from)
  {
    forall i | 0 <= i < |from| {
      to[i] := from[i];
    }
    assert to[..] == from + old(to[..])[|from|..];
  }

  class Getter {
    const value: string
    const maxLength: nat
    const retrieveData: bool
    var source: Option<nat>

    ghost predicate Valid()
      reads this
    {
      SourceOffset(source) <= |Capped(value, maxLength)|
    }

    constructor (value: string, maxLength: nat, retrieveData: bool)
      ensures Valid() && this.value == value && this.maxLength == maxLength && this.retrieveData == retrieveData
      ensures source == None
    {
      this.value, this.maxLength, this.retrieveData, source := value, maxLength, retrieveData, None;
    }

    /** Copy as many bytes as fit. The buffer may be longer than the room that is to be used. */
    method CopyBinaryResult(result: array<char>, resultBytes: nat) returns (rc: ReturnCode, availBytes: Option<nat>)
      requires Valid() && resultBytes <= result.Length
      modifies this`source, result
      ensures Valid()
      ensures var piece := BinaryPiece(Capped(value, maxLength), old(source), resultBytes);
              && rc == piece.rc && source == piece.source
              && (rc != NoData ==> availBytes == if retrieveData then Some(piece.avail) else None)
              && result[..] == Overwritten(old(result[..]), if retrieveData then piece.chunk else "")
    {
      rc, availBytes := Success, None;
      NothingOverwritten(result[..]);
      hide Overwritten;
      var srcBytes, src := |value|, 0;
      if maxLength != 0 && srcBytes > maxLength {
        srcBytes := maxLength;
      }
      if source.None? {
        source := Some(src);
      } else {
        srcBytes := srcBytes - (source.value - src);
        src := source.value;
        if srcBytes == 0 {
          return NoData, None;
        }
      }
      var copyBytes := Min(resultBytes, srcBytes);
      SliceOfCapped(value, maxLength, src, copyBytes);
      if resultBytes > 0 && retrieveData {
        MemCopy(result, value[src..src + copyBytes]);
      }
      if retrieveData {
        availBytes := Some(srcBytes);
      }
      source := Some(source.value + copyBytes);
      if srcBytes > resultBytes {
        rc := Truncated;
      }
    }

    /** Copy a string. Where the data ends in the buffer a zero byte is put. */
    method CopyAnsiResult(result: array<char>) returns (rc: ReturnCode, availBytes: Option<nat>)
      requires Valid()
      modifies this`source, result
      ensures Valid()
      ensures var piece := AnsiPiece(value, maxLength, old(source), result.Length);
              && rc == piece.rc && source == piece.source
              && (rc != NoData ==>
                    availBytes == if retrieveData || (result.Length == 0 && old(source) == None) then Some(piece.avail)
                                  else None)
              && result[..] == Overwritten(old(result[..]),
                                           if retrieveData && rc != NoData && result.Length > 0 then piece.chunk + ['\0']
                                           else "")
    {
      var resultBytes := result.Length;
      if resultBytes == 0 && source.None? {
        return Truncated, Some(|value|);
      }
      if resultBytes > 0 {
        resultBytes := resultBytes - 1;
      }
      rc, availBytes := CopyBinaryResult(result, resultBytes);
      ghost var chunk := BinaryPiece(Capped(value, maxLength), old(source), resultBytes).chunk;
      hide BinaryPiece, Capped;
      if rc != NoData && result.Length > 0 && retrieveData {
        Terminate(old(result[..]), chunk);
        result[Min(availBytes.value, resultBytes)] := '\0';
      }
    }
  }

  // ---------------------------------------------------------------------------------- any number of calls

  /** The state after n calls with the given sizes; how large they are may depend on anything. */
  function SourceAfter(data: string, rooms: seq<nat>, n: nat): (source: Option<nat>)
    requires n <= |rooms|
    ensures SourceOffset(source) <= |data| && (source.Some? <==> n > 0)
  {
    if n == 0 then None else BinaryPiece(data, SourceAfter(data, rooms, n - 1), rooms[n - 1]).source
  }

  /** Everything the first n calls have handed out. */
  function Delivered(data: string, rooms: seq<nat>, n: nat): string
    requires n <= |rooms|
  {
    if n == 0 then ""
    else Delivered(data, rooms, n - 1) + BinaryPiece(data, SourceAfter(data, rooms, n - 1), rooms[n - 1]).chunk
  }

  /** What has been handed out is the value up to the position: nothing is lost and nothing comes twice. */
  lemma {:induction false} DeliveredInOrder(data: string, rooms: seq<nat>, n: nat)
    requires n <= |rooms|
    ensures Delivered(data, rooms, n) == data[..SourceOffset(SourceAfter(data, rooms, n))]
  {
    if n > 0 {
      DeliveredInOrder(data, rooms, n - 1);
    }
  }

  /** What call n reports, in terms of what the calls before it have handed out: the length that remained, truncation
      exactly when something remains after it, and no data exactly when it is not the first and nothing remained. */
  lemma ReportsWhatRemains(data: string, rooms: seq<nat>, n: nat)
    requires n < |rooms|
    ensures Delivered(data, rooms, n) <= data && Delivered(data, rooms, n + 1) <= data
    ensures var piece := BinaryPiece(data, SourceAfter(data, rooms, n), rooms[n]);
            && (piece.rc == NoData <==> n > 0 && Delivered(data, rooms, n) == data)
            && (piece.rc == Truncated <==> Delivered(data, rooms, n + 1) != data)
            && piece.avail == |data| - |Delivered(data, rooms, n)|
  {
    DeliveredInOrder(data, rooms, n);
    DeliveredInOrder(data, rooms, n + 1);
  }

  /** Room in every buffer means progress: after as many calls as the value has bytes all of it has been handed out. */
  lemma {:induction false} ProgressUntilEnd(data: string, rooms: seq<nat>, n: nat)
    requires n <= |rooms| && forall i :: 0 <= i < n ==> rooms[i] > 0
    ensures |Delivered(data, rooms, n)| >= Min(n, |data|)
    ensures n >= |data| ==> Delivered(data, rooms, n) == data
  {
    DeliveredInOrder(data, rooms, n);
    if n > 0 {
      ProgressUntilEnd(data, rooms, n - 1);
      DeliveredInOrder(data, rooms, n - 1);
    }
  }

  /** A call hands out as many bytes as there is room for and remain. */
  lemma ChunkFillsRoom(data: string, rooms: seq<nat>, n: nat)
    requires n < |rooms|
    ensures var done := |Delivered(data, rooms, n)|;
            |Delivered(data, rooms, n + 1)| == if done + rooms[n] <= |data| then done + rooms[n] else |data|
  {
    DeliveredInOrder(data, rooms, n);
    DeliveredInOrder(data, rooms, n + 1);
  }

  /** With room in every buffer the whole value comes, or as much of it as a maximal length lets be seen. */
  lemma WholeValue(value: string, maxLength: nat, rooms: seq<nat>)
    requires |rooms| >= |value| && forall room <- rooms :: room > 0
    ensures Delivered(Capped(value, maxLength), rooms, |rooms|)
         == if 0 < maxLength < |value| then value[..maxLength] else value
  {
    forall i | 0 <= i < |rooms| ensures rooms[i] > 0 {
      assert rooms[i] in rooms;
    }
    ProgressUntilEnd(Capped(value, maxLength), rooms, |rooms|);
    hide Delivered;
  }

  // ---------------------------------------------------------------------------------- strings

  /** The room for data in buffers of the given sizes. */
  function Rooms(sizes: seq<nat>): seq<nat> {
    seq(|sizes|, i requires 0 <= i < |sizes| => if sizes[i] > 0 then sizes[i] - 1 else 0)
  }

  /** How many calls without a buffer come before the first one with a buffer. */
  function Probes(sizes: seq<nat>): (n: nat)
    ensures n <= |sizes| && (forall i :: 0 <= i < n ==> sizes[i] == 0) && (n < |sizes| ==> sizes[n] > 0)
  {
    if sizes == [] || sizes[0] > 0 then 0 else 1 + Probes(sizes[1..])
  }

  function AnsiSourceAfter(value: string, maxLength: nat, sizes: seq<nat>, n: nat): (source: Option<nat>)
    requires n <= |sizes|
    ensures SourceOffset(source) <= |Capped(value, maxLength)|
  {
    if n == 0 then None
    else AnsiPiece(value, maxLength, AnsiSourceAfter(value, maxLength, sizes, n - 1), sizes[n - 1]).source
  }

  function AnsiDelivered(value: string, maxLength: nat, sizes: seq<nat>, n: nat): string
    requires n <= |sizes|
  {
    if n == 0 then ""
    else AnsiDelivered(value, maxLength, sizes, n - 1)
         + AnsiPiece(value, maxLength, AnsiSourceAfter(value, maxLength, sizes, n - 1), sizes[n - 1]).chunk
  }

  /** Up to the first call with a buffer nothing changes; from then on n - first calls count. */
  ghost predicate LikeBinary(value: string, maxLength: nat, sizes: seq<nat>, first: nat, n: nat)
    requires n <= |sizes| && first <= |sizes|
  {
    if n <= first then AnsiSourceAfter(value, maxLength, sizes, n) == None && AnsiDelivered(value, maxLength, sizes, n) == ""
    else
      var data, later := Capped(value, maxLength), Rooms(sizes[first..]);
      && AnsiSourceAfter(value, maxLength, sizes, n) == SourceAfter(data, later, n - first)
      && AnsiDelivered(value, maxLength, sizes, n) == Delivered(data, later, n - first)
  }

  lemma AnsiCall(value: string, maxLength: nat, sizes: seq<nat>, n: nat)
    requires n < |sizes|
    ensures var source := AnsiSourceAfter(value, maxLength, sizes, n);
            var piece := if sizes[n] == 0 && source == None then Piece(Truncated, "", |value|, None)
                         else BinaryPiece(Capped(value, maxLength), source, if sizes[n] > 0 then sizes[n] - 1 else 0);
            && AnsiSourceAfter(value, maxLength, sizes, n + 1) == piece.source
            && AnsiDelivered(value, maxLength, sizes, n + 1) == AnsiDelivered(value, maxLength, sizes, n) + piece.chunk
  {
    hide BinaryPiece, Capped;
  }

  lemma BinaryCall(data: string, rooms: seq<nat>, n: nat)
    requires n < |rooms|
    ensures var piece := BinaryPiece(data, SourceAfter(data, rooms, n), rooms[n]);
            && SourceAfter(data, rooms, n + 1) == piece.source
            && Delivered(data, rooms, n + 1) == Delivered(data, rooms, n) + piece.chunk
  {
    hide BinaryPiece;
  }

  lemma LikeBinaryStep(value: string, maxLength: nat, sizes: seq<nat>, n: nat)
    requires n < |sizes| && LikeBinary(value, maxLength, sizes, Probes(sizes), n)
    ensures LikeBinary(value, maxLength, sizes, Probes(sizes), n + 1)
  {
    var first := Probes(sizes);
    hide BinaryPiece, AnsiPiece, Capped, Probes, SourceAfter, Delivered, AnsiSourceAfter, AnsiDelivered;
    AnsiCall(value, maxLength, sizes, n);
    if n >= first {
      var data, later := Capped(value, maxLength), Rooms(sizes[first..]);
      assert later[n - first] == if sizes[n] > 0 then sizes[n] - 1 else 0;
      BinaryCall(data, later, n - first);
      BinaryStart(data, later);
      hide Rooms;
    }
  }

  lemma BinaryStart(data: string, rooms: seq<nat>)
    ensures SourceAfter(data, rooms, 0) == None && Delivered(data, rooms, 0) == ""
  {
  }

  lemma AnsiStart(value: string, maxLength: nat, sizes: seq<nat>)
    ensures LikeBinary(value, maxLength, sizes, Probes(sizes), 0)
  {
    hide Probes, Capped;
  }

  /** Calls without a buffer at the start change nothing; from then on strings are handed out like bytes, with the last
      byte of each buffer for the zero. */
  lemma {:induction false} AnsiIsBinary(value: string, maxLength: nat, sizes: seq<nat>, n: nat)
    requires n <= |sizes|
    ensures LikeBinary(value, maxLength, sizes, Probes(sizes), n)
  {
    hide *;
    if n == 0 {
      AnsiStart(value, maxLength, sizes);
    } else {
      AnsiIsBinary(value, maxLength, sizes, n - 1);
      LikeBinaryStep(value, maxLength, sizes, n - 1);
    }
  }

  /** A first call without a buffer reports the length that is to come exactly when no maximal length cuts the value,
      and its flag is right exactly when something is to come. */
  lemma FirstProbe(value: string, maxLength: nat)
    ensures var piece := AnsiPiece(value, maxLength, None, 0);
            && (piece.avail == |Capped(value, maxLength)| <==> maxLength == 0 || |value| <= maxLength)
            && ((piece.rc == Truncated <==> Capped(value, maxLength) != "") <==> value != "")
  {
  }

  /** The empty value: a call for a string without a buffer is flagged, one for bytes is not. */
  lemma EmptyValueIsFlagged()
    ensures AnsiPiece("", 0, None, 0).rc == Truncated
    ensures BinaryPiece("", None, 0).rc == Success
  {
  }

  /** A call for a string hands out one byte less than the buffer has, for the zero, or what remains. */
  lemma StringFillsBuffer(value: string, maxLength: nat, sizes: seq<nat>, n: nat)
    requires n < |sizes| && sizes[n] > 0
    ensures var all := if 0 < maxLength < |value| then value[..maxLength] else value;
            var done, now := AnsiDelivered(value, maxLength, sizes, n), AnsiDelivered(value, maxLength, sizes, n + 1);
            && done <= all && now == all[..if |done| + (sizes[n] - 1) <= |all| then |done| + (sizes[n] - 1) else |all|]
  {
    hide *;
    var first, data := Probes(sizes), Capped(value, maxLength);
    var later := Rooms(sizes[first..]);
    CappedIs(value, maxLength);
    ProbesPassed(sizes, n);
    AnsiIsBinary(value, maxLength, sizes, n);
    AnsiIsBinary(value, maxLength, sizes, n + 1);
    DeliveredUpTo(data, later, n - first);
    LikeBinaryMeans(value, maxLength, sizes, first, n);
    LikeBinaryMeans(value, maxLength, sizes, first, n + 1);
  }

  lemma CappedIs(value: string, maxLength: nat)
    ensures Capped(value, maxLength) == if 0 < maxLength < |value| then value[..maxLength] else value
  {
  }

  lemma ProbesPassed(sizes: seq<nat>, n: nat)
    requires n < |sizes| && sizes[n] > 0
    ensures Probes(sizes) <= n
    ensures var later := Rooms(sizes[Probes(sizes)..]);
            n - Probes(sizes) < |later| && later[n - Probes(sizes)] == sizes[n] - 1
  {
  }

  lemma DeliveredUpTo(data: string, rooms: seq<nat>, n: nat)
    requires n < |rooms|
    ensures var done := Delivered(data, rooms, n);
            && done <= data
            && Delivered(data, rooms, n + 1)
               == data[..if |done| + rooms[n] <= |data| then |done| + rooms[n] else |data|]
  {
    ChunkFillsRoom(data, rooms, n);
    DeliveredInOrder(data, rooms, n);
    DeliveredInOrder(data, rooms, n + 1);
    hide Delivered, SourceAfter;
  }

  lemma LikeBinaryMeans(value: string, maxLength: nat, sizes: seq<nat>, first: nat, n: nat)
    requires first <= n <= |sizes| && LikeBinary(value, maxLength, sizes, first, n)
    ensures AnsiDelivered(value, maxLength, sizes, n)
         == Delivered(Capped(value, maxLength), Rooms(sizes[first..]), n - first)
  {
    hide Capped, AnsiDelivered, AnsiSourceAfter, SourceAfter;
  }
}
