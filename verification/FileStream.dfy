/** A buffered reader over a file, and the plain reader it refines. */
module FileStream {
  import opened Ring

  /** The bytes of an open file and its cursor. The cursor may stand beyond the end. */
  datatype File = File(bytes: seq<Byte>, cursor: nat)

  /** A plain read of up to `len` bytes at position `pos`. */
  function ReadAt(bytes: seq<Byte>, pos: nat, len: nat): seq<Byte> {
    if pos >= |bytes| then []
    else if pos + len <= |bytes| then bytes[pos..pos + len]
    else bytes[pos..]
  }

  function Smaller(a: int, b: int): int {
    if a <= b then a else b
  }

  /** A plain read is as long as asked for and possible, and is empty for `len > 0` only at the end. */
  lemma ReadAtMeaning(bytes: seq<Byte>, pos: nat, len: nat)
    ensures |ReadAt(bytes, pos, len)| == Smaller(len, if pos < |bytes| then |bytes| - pos else 0)
    ensures forall k :: 0 <= k < |ReadAt(bytes, pos, len)| ==> pos + k < |bytes| && ReadAt(bytes, pos, len)[k] == bytes[pos + k]
    ensures len > 0 ==> (ReadAt(bytes, pos, len) == [] <==> pos >= |bytes|)
  {
  }

  /** `s` is what the file holds from `pos` on. */
  ghost predicate PartOf(bytes: seq<Byte>, pos: int, s: seq<Byte>) {
    |s| > 0 ==> 0 <= pos && pos + |s| <= |bytes| && forall k :: 0 <= k < |s| ==> s[k] == bytes[pos + k]
  }

  /** Being a part of the file is the same as being the plain read of that length. */
  lemma PartIsPlainRead(bytes: seq<Byte>, pos: nat, s: seq<Byte>)
    ensures PartOf(bytes, pos, s) <==> s == ReadAt(bytes, pos, |s|)
  {
    ReadAtMeaning(bytes, pos, |s|);
  }

  lemma PartsJoin(bytes: seq<Byte>, pos: int, s: seq<Byte>, t: seq<Byte>)
    requires PartOf(bytes, pos, s) && PartOf(bytes, pos + |s|, t) && pos >= 0
    ensures PartOf(bytes, pos, s + t)
  {
    forall k | 0 <= k < |s + t| ensures pos + k < |bytes| && (s + t)[k] == bytes[pos + k] {
      if k >= |s| {
        assert t[k - |s|] == bytes[pos + |s| + (k - |s|)];
      }
    }
  }

  /** The reader's fields; `buff` keeps its size. */
  datatype Reader = Reader(buff: seq<Byte>, currentBufferPos: nat, totalBytesBuffer: nat, file: File)

  /** The unread part of the buffer is the part of the file just before the cursor. */
  ghost predicate Ok(r: Reader) {
    && |r.buff| > 0
    && r.currentBufferPos <= r.totalBytesBuffer <= |r.buff|
    && Unread(r) <= r.file.cursor
    && (Unread(r) > 0 ==> r.file.cursor <= |r.file.bytes|)
    && (forall k :: r.currentBufferPos <= k < r.totalBytesBuffer ==>
          r.buff[k] == r.file.bytes[r.file.cursor - r.totalBytesBuffer + k])
  }

  function Unread(r: Reader): int {
    r.totalBytesBuffer - r.currentBufferPos
  }

  /** Where the player is in the file: the cursor minus what it has not been given yet. */
  function Position(r: Reader): int {
    r.file.cursor - Unread(r)
  }

  function Overwrite(buff: seq<Byte>, bytes: seq<Byte>): seq<Byte>
    requires |bytes| <= |buff|
  {
    bytes + buff[|bytes|..]
  }

  /** An empty buffer is refilled from the file. */
  function Refill(r: Reader): Reader {
    if r.totalBytesBuffer - r.currentBufferPos != 0 then r
    else
      var got := ReadAt(r.file.bytes, r.file.cursor, |r.buff|);
      ReadAtMeaning(r.file.bytes, r.file.cursor, |r.buff|);
      Reader(Overwrite(r.buff, got), 0, |got|, r.file.(cursor := r.file.cursor + |got|))
  }

  function Count(r: Reader, len: nat): int {
    if len <= r.totalBytesBuffer - r.currentBufferPos then len else r.totalBytesBuffer - r.currentBufferPos
  }

  /** The bytes a buffered read hands over, and the reader after it. */
  function Given(r: Reader, len: nat): seq<Byte>
    requires Ok(r)
  {
    RefillOk(r);
    var q := Refill(r);
    q.buff[q.currentBufferPos..q.currentBufferPos + Count(q, len)]
  }

  function AfterRead(r: Reader, len: nat): Reader
    requires Ok(r)
  {
    RefillOk(r);
    var q := Refill(r);
    q.(currentBufferPos := q.currentBufferPos + Count(q, len))
  }

  lemma RefillOk(r: Reader)
    requires Ok(r)
    ensures Ok(Refill(r)) && Position(Refill(r)) == Position(r) && Refill(r).file.bytes == r.file.bytes
    ensures Unread(Refill(r)) > 0 || Position(r) >= |r.file.bytes|
  {
    ReadAtMeaning(r.file.bytes, r.file.cursor, |r.buff|);
  }

  /** A buffered read hands over the file's bytes at the player's position, possibly fewer than asked
      for; it moves the position behind them; and for `len > 0` it hands over nothing exactly at the
      end of the file. */
  lemma BufferedReadRefinesPlain(r: Reader, len: nat)
    requires Ok(r)
    ensures Ok(AfterRead(r, len)) && AfterRead(r, len).file.bytes == r.file.bytes
    ensures |Given(r, len)| <= len && PartOf(r.file.bytes, Position(r), Given(r, len))
    ensures Position(AfterRead(r, len)) == Position(r) + |Given(r, len)|
    ensures len > 0 ==> (Given(r, len) == [] <==> Position(r) >= |r.file.bytes|)
  {
    RefillOk(r);
    TakeFrom(Refill(r), len);
  }

  /** How many bytes a buffered read hands over: as many as asked for and unread; if all were read, as many as
      asked for, that fit in the buffer and are left in the file. */
  lemma GivenCount(r: Reader, len: nat)
    requires Ok(r)
    ensures |Given(r, len)|
            == Smaller(len, if Unread(r) > 0 then Unread(r)
                            else Smaller(|r.buff|, if r.file.cursor < |r.file.bytes| then |r.file.bytes| - r.file.cursor else 0))
  {
    RefillOk(r);
    ReadAtMeaning(r.file.bytes, r.file.cursor, |r.buff|);
  }

  lemma TakeFrom(q: Reader, len: nat)
    requires Ok(q)
    ensures 0 <= Count(q, len) <= len && Count(q, len) <= Unread(q)
    ensures Ok(q.(currentBufferPos := q.currentBufferPos + Count(q, len)))
    ensures PartOf(q.file.bytes, Position(q), q.buff[q.currentBufferPos..q.currentBufferPos + Count(q, len)])
  {
    GivenFrom(q.file.bytes, q.buff, q.currentBufferPos, Count(q, len), Position(q));
  }

  lemma GivenFrom(bytes: seq<Byte>, buff: seq<Byte>, from: nat, n: nat, pos: int)
    requires from + n <= |buff| && (n > 0 ==> 0 <= pos && pos + n <= |bytes|)
    requires forall k :: from <= k < from + n ==> buff[k] == bytes[pos - from + k]
    ensures PartOf(bytes, pos, buff[from..from + n])
  {
    var s := buff[from..from + n];
    forall k | 0 <= k < n ensures s[k] == bytes[pos + k] {
      assert s[k] == buff[from + k];
    }
  }

  /** A seek drops the buffer, and puts the cursor at the offset, or at the start when the file
      refuses the offset. */
  function AfterSeek(r: Reader, offset: nat, accepted: bool): Reader {
    r.(totalBytesBuffer := 0, currentBufferPos := 0, file := r.file.(cursor := if accepted then offset else 0))
  }

  // ---------------------------------------------------------------- whole sessions

  datatype Call = ReadCall(len: nat) | SeekCall(offset: nat, accepted: bool)

  function Step(r: Reader, c: Call): Reader
    requires Ok(r)
  {
    match c
    case ReadCall(len) => AfterRead(r, len)
    case SeekCall(offset, accepted) => AfterSeek(r, offset, accepted)
  }

  lemma StepOk(r: Reader, c: Call)
    requires Ok(r)
    ensures Ok(Step(r, c)) && Step(r, c).file.bytes == r.file.bytes
  {
    if c.ReadCall? {
      BufferedReadRefinesPlain(r, c.len);
    }
  }

  function Final(r: Reader, calls: seq<Call>): Reader
    requires Ok(r)
    decreases |calls|
  {
    if |calls| == 0 then r else StepOk(r, calls[0]); Final(Step(r, calls[0]), calls[1..])
  }

  /** All bytes handed over by the calls, one after the other. */
  function Handed(r: Reader, calls: seq<Call>): seq<Byte>
    requires Ok(r)
    decreases |calls|
  {
    if |calls| == 0 then []
    else
      StepOk(r, calls[0]);
      (if calls[0].ReadCall? then Given(r, calls[0].len) else []) + Handed(Step(r, calls[0]), calls[1..])
  }

  /** Any reads after one another hand over exactly the file's bytes from the player's position on,
      without a gap or a repetition, whatever their lengths. */
  lemma {:induction false} ReadsAreContiguous(r: Reader, calls: seq<Call>)
    requires Ok(r) && forall i :: 0 <= i < |calls| ==> calls[i].ReadCall?
    ensures Ok(Final(r, calls))
    ensures PartOf(r.file.bytes, Position(r), Handed(r, calls))
    ensures Position(Final(r, calls)) == Position(r) + |Handed(r, calls)|
    decreases |calls|
  {
    if |calls| > 0 {
      var next, rest := Step(r, calls[0]), calls[1..];
      StepOk(r, calls[0]);
      BufferedReadRefinesPlain(r, calls[0].len);
      ReadsAreContiguous(next, rest);
      Joined(r.file.bytes, Position(r), Given(r, calls[0].len), Position(next), Handed(next, rest), Handed(r, calls));
    }
  }

  lemma Joined(bytes: seq<Byte>, pos: int, s: seq<Byte>, mid: int, t: seq<Byte>, u: seq<Byte>)
    requires pos >= 0 && mid == pos + |s| && u == s + t
    requires PartOf(bytes, pos, s) && PartOf(bytes, mid, t)
    ensures PartOf(bytes, pos, u) && |u| == |s| + |t|
  {
    PartsJoin(bytes, pos, s, t);
  }

  lemma {:induction false} FinalOk(r: Reader, calls: seq<Call>)
    requires Ok(r)
    ensures Ok(Final(r, calls)) && Final(r, calls).file.bytes == r.file.bytes
    decreases |calls|
  {
    if |calls| > 0 {
      StepOk(r, calls[0]);
      FinalOk(Step(r, calls[0]), calls[1..]);
    }
  }

  /** After any calls, an accepted seek and reads: the file's bytes from the offset on. */
  lemma SeekThenReads(r: Reader, before: seq<Call>, offset: nat, later: seq<Call>)
    requires Ok(r) && forall i :: 0 <= i < |later| ==> later[i].ReadCall?
    ensures Ok(Final(r, before))
    ensures var t := AfterSeek(Final(r, before), offset, true);
            && Ok(t) && PartOf(r.file.bytes, offset, Handed(t, later))
            && Ok(Final(t, later)) && Position(Final(t, later)) == offset + |Handed(t, later)|
  {
    FinalOk(r, before);
    ReadsAreContiguous(AfterSeek(Final(r, before), offset, true), later);
  }

  // ---------------------------------------------------------------- the object

  class FileMediaStream {
    const buff: array<Byte>
    var currentBufferPos: nat
    var totalBytesBuffer: nat
    var isOpen: bool
    var bytes: seq<Byte>
    var cursor: nat

    ghost function View(): Reader
      reads this, buff
    {
      Reader(buff[..], currentBufferPos, totalBytesBuffer, File(bytes, cursor))
    }

    /** A stream with a buffer of `size` bytes over a file that has just been opened. */
    constructor (size: nat, contents: seq<Byte>)
      requires size > 0
      ensures Ok(View()) && Position(View()) == 0 && isOpen && bytes == contents && fresh(buff)
    {
      buff := new Byte[size];
      currentBufferPos, totalBytesBuffer, isOpen, bytes, cursor := 0, 0, true, contents, 0;
    }

    /** The file's own read: fills the front of the buffer. */
    method FillBuffer()
      modifies this`cursor, this`totalBytesBuffer, buff
      ensures totalBytesBuffer == |ReadAt(bytes, old(cursor), buff.Length)| <= buff.Length
      ensures cursor == old(cursor) + totalBytesBuffer
      ensures buff[..] == Overwrite(old(buff[..]), ReadAt(bytes, old(cursor), buff.Length))
    {
      var got := ReadAt(bytes, cursor, buff.Length);
      ReadAtMeaning(bytes, cursor, buff.Length);
      for i := 0 to |got|
        invariant forall j :: 0 <= j < i ==> buff[j] == got[j]
        invariant forall j :: i <= j < buff.Length ==> buff[j] == old(buff[j])
        invariant cursor == old(cursor)
      {
        buff[i] := got[i];
      }
      totalBytesBuffer := |got|;
      cursor := cursor + |got|;
    }

    method Read(buf: array<Byte>, len: nat) returns (n: int)
      requires Ok(View()) && buf != buff && len <= buf.Length
      modifies this`cursor, this`totalBytesBuffer, this`currentBufferPos, buff, buf
      ensures Ok(View())
      ensures !isOpen ==> n == -1 && View() == old(View()) && buf[..] == old(buf[..])
      ensures isOpen ==> View() == AfterRead(old(View()), len)
      ensures isOpen ==> 0 <= n <= len && PartOf(bytes, Position(old(View())), buf[..n])
      ensures isOpen && Unread(old(View())) > 0 ==> n == Smaller(len, Unread(old(View())))
      ensures isOpen && Unread(old(View())) == 0 ==>
                n == Smaller(len, Smaller(buff.Length, if old(cursor) < |bytes| then |bytes| - old(cursor) else 0))
      ensures isOpen ==> Position(View()) == Position(old(View())) + n
      ensures isOpen && len > 0 ==> (n == 0 <==> Position(old(View())) >= |bytes|)
      ensures forall k :: 0 <= k < buf.Length && k >= n ==> buf[k] == old(buf[k])
    {
      if !isOpen {
        return -1;
      }
      BufferedReadRefinesPlain(View(), len);
      GivenCount(View(), len);
      n := ReadOpen(buf, len);
    }

    method ReadOpen(buf: array<Byte>, len: nat) returns (n: int)
      requires Ok(View()) && buf != buff && len <= buf.Length
      modifies this`cursor, this`totalBytesBuffer, this`currentBufferPos, buff, buf
      ensures View() == AfterRead(old(View()), len)
      ensures 0 <= n <= buf.Length && buf[..n] == Given(old(View()), len)
      ensures forall k :: n <= k < buf.Length ==> buf[k] == old(buf[k])
    {
      RefillOk(View());
      EnsureFilled();
      n := if len <= totalBytesBuffer - currentBufferPos then len else totalBytesBuffer - currentBufferPos;
      CopyOut(buf, n);
      currentBufferPos := currentBufferPos + n;
    }

    method EnsureFilled()
      requires Ok(View())
      modifies this`cursor, this`totalBytesBuffer, this`currentBufferPos, buff
      ensures View() == Refill(old(View()))
    {
      if totalBytesBuffer - currentBufferPos == 0 {
        FillBuffer();
        currentBufferPos := 0;
      }
    }

    method CopyOut(buf: array<Byte>, n: nat)
      requires buf != buff && n <= buf.Length && currentBufferPos + n <= buff.Length
      modifies buf
      ensures buf[..n] == buff[currentBufferPos..currentBufferPos + n]
      ensures forall k :: n <= k < buf.Length ==> buf[k] == old(buf[k])
    {
      for i := 0 to n
        invariant forall j :: 0 <= j < i ==> buf[j] == buff[currentBufferPos + j]
        invariant forall j :: i <= j < buf.Length ==> buf[j] == old(buf[j])
      {
        buf[i] := buff[currentBufferPos + i];
      }
    }

    /** `accepted` is the file's answer to the seek. */
    method Seek(offset: nat, accepted: bool) returns (result: int)
      requires Ok(View())
      modifies this`cursor, this`totalBytesBuffer, this`currentBufferPos
      ensures Ok(View())
      ensures !isOpen ==> result == -1 && View() == old(View())
      ensures isOpen ==> View() == AfterSeek(old(View()), offset, accepted)
      ensures isOpen ==> Position(View()) == if accepted then offset else 0
      ensures isOpen ==> result == if accepted then 0 else -1
    {
      if !isOpen {
        return -1;
      }
      totalBytesBuffer := 0;
      currentBufferPos := 0;
      cursor := 0;
      if accepted {
        cursor := offset;
        return 0;
      }
      return -1;
    }
  }
}
