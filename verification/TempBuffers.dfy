/** The growing buffer in which a statement text is put together. */
module TempBuffers {

  class TempBuffer {
    var buf: array<char>
    var curPos: nat

    ghost predicate Valid()
      reads this
    {
      curPos <= buf.Length
    }

    /** What has been written so far; the rest of the allocation has no meaning. */
    ghost function Contents(): string
      requires Valid()
      reads this, buf
    {
      buf[..curPos]
    }

    constructor (size: nat)
      ensures Valid() && fresh(buf) && buf.Length == size && Contents() == ""
    {
      buf, curPos := new char[size], 0;
    }

    /** Make room for len more characters behind the position. A new allocation starts with the old one. */
    method ExtendBuffer(len: nat)
      requires Valid()
      modifies this`buf
      ensures Valid() && curPos + len <= buf.Length && Contents() == old(Contents())
      ensures if len > old(buf.Length) - curPos then fresh(buf) && buf.Length == old(buf.Length) + len
              else buf == old(buf)
    {
      if len > buf.Length - curPos {
        var before, larger := buf, new char[buf.Length + len];
        forall i | 0 <= i < before.Length {
          larger[i] := before[i];
        }
        buf := larger;
      }
    }

    /** Append. When there is too little room the buffer grows by its free room and the length of the new text. */
    method AddToBuffer(from: string)
      requires Valid()
      modifies this, buf
      ensures Valid() && Contents() == old(Contents()) + from
      ensures (buf == old(buf) || fresh(buf)) && buf.Length >= old(buf.Length)
    {
      var extendBy := if buf.Length - curPos >= |from| then 0 else buf.Length - curPos + |from|;
      ExtendBuffer(extendBy);
      ghost var written := Contents();
      assert curPos + |from| <= buf.Length;
      forall i | 0 <= i < |from| {
        buf[curPos + i] := from[i];
      }
      assert buf[..curPos] == written;
      assert buf[curPos..curPos + |from|] == from;
      curPos := curPos + |from|;
      assert Contents() == written + from;
    }

    method RemoveTrailZeroes()
      requires Valid()
      modifies this`curPos
      ensures Valid() && curPos <= old(curPos)
      ensures Contents() == old(Contents())[..curPos]
      ensures curPos > 0 ==> Contents()[curPos - 1] != '\0'
      ensures forall i :: curPos <= i < |old(Contents())| ==> old(Contents())[i] == '\0'
    {
      while curPos > 0 && buf[curPos - 1] == '\0'
        invariant curPos <= old(curPos)
        invariant forall i :: curPos <= i < old(curPos) ==> buf[i] == '\0'
      {
        curPos := curPos - 1;
      }
    }

    method Reset()
      modifies this`curPos
      ensures Valid() && Contents() == ""
    {
      curPos := 0;
    }
  }
}
