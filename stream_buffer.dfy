/** StreamBuffer of gredis/connection.py: the bytes pulled from the stream in whole
    CRLF-terminated chunks, with a read cursor and a write cursor, as redis-py's SocketBuffer
    keeps them.  Every operation is proved against Remaining(): the unread buffered bytes
    followed by every byte the stream will still deliver. */
module StreamBuffers {
  import opened Resp
  import opened Transport

  /** The exception _read_from_stream raises once the stream delivers nothing more. */
  function EndFailure(e: ReadEnd): (err: Error)
    ensures err.ConnectionError? || err.TimeoutError?
  {
    match e
    case Closed => ConnectionError(ReadFailed([ServerClosedMessage]))
    case TimedOut => TimeoutError(Reading)
    case SocketError(args) => ConnectionError(ReadFailed(args))
  }

  /** Python's data[:-2]. */
  function DropLastTwo(d: seq<byte>): seq<byte> {
    if |d| >= 2 then d[..|d| - 2] else []
  }

  /** BytesIO.read(size) at position `pos`: a negative size reads to the end. */
  function BytesIoRead(buf: seq<byte>, pos: nat, size: int): (d: seq<byte>)
    requires pos <= |buf|
    ensures size < 0 ==> d == buf[pos..]
    ensures 0 <= size ==> |d| == if pos + size <= |buf| then size else |buf| - pos
  {
    if size < 0 || pos + size > |buf| then buf[pos..] else buf[pos..pos + size]
  }

  /** The number of new bytes _read_from_stream(length) waits for before it stops. */
  function Want(length: Option<nat>): nat {
    match length
    case None => 1
    case Some(l) => if l < 1 then 1 else l
  }

  /** BytesIO.readline ends in CRLF exactly when the first LF follows a CR; the line is then
      the first LineAt bytes. */
  lemma ReadlineEndsWithCrlf(u: seq<byte>)
    ensures EndsWithCrlf(ReadlineOf(u)) <==> LineAt(u).Some?
    ensures LineAt(u).Some? ==> ReadlineOf(u) == u[..LineAt(u).value]
  {
  }

  /** While readline's result does not end in CRLF, no line is buffered. */
  lemma NoLineYet(u: seq<byte>)
    requires !EndsWithCrlf(ReadlineOf(u))
    ensures LineAt(u).None?
  {
    ReadlineEndsWithCrlf(u);
  }

  /** What readline returns when `s` is every byte still to be read and reading then fails
      with `end`: the first line without its CRLF. */
  ghost function NextLine(s: seq<byte>, end: Error): (r: Result<seq<byte>>)
    ensures r.Ok? ==> |r.value| + 2 <= |s| && s[..|r.value| + 2] == r.value + CRLF
    ensures r.Ok? ==> forall j :: 0 <= j < |r.value| ==> r.value[j] != LF
    ensures r.Fail? ==> r.error == end
  {
    match LineAt(s)
    case Some(k) =>
      assert s[..k] == s[..k - 2] + CRLF;
      Ok(s[..k - 2])
    case None => Fail(end)
  }

  /** What read(n) returns when `s` is every byte still to be read, `unread` the bytes
      buffered and unread, `size` is n + 2 and reading then fails with `end`: a negative size
      takes everything buffered, any other size that many bytes; the last two are dropped. */
  ghost function NextRead(s: seq<byte>, unread: seq<byte>, size: int, end: Error): (r: Result<seq<byte>>)
    ensures 0 <= size ==> (r.Ok? <==> size <= |s|)
    ensures r.Ok? && 2 <= size ==> r.value == s[..size - 2]
    ensures r.Fail? ==> r.error == end
  {
    if size < 0 then Ok(DropLastTwo(unread))
    else if size <= |s| then Ok(DropLastTwo(s[..size]))
    else Fail(end)
  }

  /** Appending after the read cursor: the unread bytes grow by what was appended. */
  lemma AppendUnread(buf: seq<byte>, pos: nat, c: seq<byte>)
    requires pos <= |buf|
    ensures (buf + c)[pos..] == buf[pos..] + c
  {
  }

  /** Dropping bytes that all come from the front part. */
  lemma DropFront(u: seq<byte>, t: seq<byte>, k: nat)
    requires k <= |u|
    ensures (u + t)[k..] == u[k..] + t
  {
  }

  /** Taking bytes that all come from the front part. */
  lemma TakeFront(u: seq<byte>, t: seq<byte>, m: nat)
    requires m <= |u|
    ensures (u + t)[..m] == u[..m]
  {
  }

  /** From position `i` on, `buf` holds a tail of one chunk: nothing, a lone LF, or bytes whose
      only CRLF is the one that ends them. */
  ghost predicate TailFrom(buf: seq<byte>, i: int)
    decreases |buf| - i
  {
    0 <= i <= |buf| &&
    (i == |buf| ||
     (i == |buf| - 1 && buf[i] == LF) ||
     (i + 2 == |buf| && buf[i] == CR && buf[i + 1] == LF) ||
     (i + 2 < |buf| && !(buf[i] == CR && buf[i + 1] == LF) && TailFrom(buf, i + 1)))
  }

  /** TailFrom at a position with two bytes left is IsChunk of the bytes from there on. */
  lemma {:induction false} TailFromIsChunk(buf: seq<byte>, i: nat)
    requires i + 2 <= |buf|
    ensures TailFrom(buf, i) <==> IsChunk(buf[i..])
    decreases |buf| - i
  {
    var u := buf[i..];
    assert u[0] == buf[i] && u[1] == buf[i + 1];
    if i + 2 < |buf| && !(buf[i] == CR && buf[i + 1] == LF) {
      assert u[1..] == buf[i + 1..];
      TailFromIsChunk(buf, i + 1);
    }
  }

  /** TailFrom is ChunkTail of the bytes from `i` on. */
  lemma TailFromChunkTail(buf: seq<byte>, i: nat)
    requires i <= |buf|
    ensures TailFrom(buf, i) <==> ChunkTail(buf[i..])
  {
    if i + 2 <= |buf| {
      TailFromIsChunk(buf, i);
    } else if i + 1 == |buf| {
      assert buf[i..] == [buf[i]];
    }
  }

  /** A chunk tail from `i` on is one from any later position too. */
  lemma {:induction false} TailFromLater(buf: seq<byte>, i: int, j: int)
    requires TailFrom(buf, i) && i <= j <= |buf|
    ensures TailFrom(buf, j)
    decreases j - i
  {
    if i < j {
      TailFromLater(buf, i + 1, j);
    }
  }

  /** Appending a chunk: from any position within it on, the bytes are a tail of one chunk. */
  lemma ChunkTailBack(u: seq<byte>, t: seq<byte>, at: nat)
    requires IsChunk(t) && |u| <= at <= |u| + |t|
    ensures TailFrom(u + t, at)
  {
    TailFromChunkTail(u + t, |u|);
    assert (u + t)[|u|..] == t;
    TailFromLater(u + t, |u|, at);
  }

  class StreamBuffer {
    const stream: IOStream
    var buffer: seq<byte>
    var bytesRead: nat
    var bytesWritten: nat

    /** The cursors stay within the buffer, and a fully read buffer has been purged. */
    ghost predicate Valid()
      reads this
    {
      bytesWritten == |buffer| && bytesRead <= bytesWritten &&
      (bytesRead == bytesWritten ==> bytesWritten == 0)
    }

    /** SocketBuffer.length. */
    function Length(): nat
      reads this
      requires bytesRead <= bytesWritten
    {
      bytesWritten - bytesRead
    }

    function Unread(): seq<byte>
      reads this
      requires bytesRead <= |buffer|
    {
      buffer[bytesRead..]
    }

    /** The bytes the parser will see next: the unread buffered bytes, then the stream's. */
    ghost function Remaining(): seq<byte>
      reads this, stream
      requires Valid()
    {
      Unread() + stream.Incoming()
    }

    /** Reads stop inside the last chunk pulled: the unread bytes are a tail of one chunk. */
    ghost predicate Aligned()
      reads this
      requires Valid()
    {
      TailFrom(buffer, bytesRead)
    }

    /** The exception a read raises once Remaining() is used up. */
    ghost function StreamEnd(): Error
      reads stream
    {
      EndFailure(stream.EndOf())
    }

    /** Reading changed nothing of the stream but its pending chunks. */
    twostate predicate StreamKept()
      reads stream
    {
      stream.closed == old(stream.closed) && stream.written == old(stream.written)
    }

    constructor (stream: IOStream)
      ensures this.stream == stream
      ensures Valid() && Aligned() && Remaining() == stream.Incoming()
      ensures buffer == [] && bytesRead == 0
    {
      this.stream := stream;
      buffer := [];
      bytesRead := 0;
      bytesWritten := 0;
    }

    /** SocketBuffer.purge: the buffer restarts empty. */
    method Purge()
      modifies this
      ensures buffer == [] && bytesRead == 0 && bytesWritten == 0
    {
      buffer := [];
      bytesRead := 0;
      bytesWritten := 0;
    }

    /** One turn of the loop of _read_from_stream: read_until_regex, then write the chunk at
        the write cursor. */
    method PullChunk() returns (p: Pulled)
      requires Valid()
      modifies this, stream
      ensures Valid() && StreamKept() && Remaining() == old(Remaining())
      ensures bytesRead == old(bytesRead)
      ensures p.Chunk? ==>
        IsChunk(p.data) && buffer == old(buffer) + p.data && Unread() == old(Unread()) + p.data &&
        |stream.pending| < old(|stream.pending|)
      ensures p.Ended? ==>
        EndFailure(p.end) == StreamEnd() && buffer == old(buffer) && stream.Incoming() == [] &&
        stream.pending == old(stream.pending)
    {
      p := stream.ReadUntilCrlf();
      if p.Chunk? {
        AppendUnread(buffer, bytesRead, p.data);
        AppendAssoc(buffer[bytesRead..], p.data, stream.Incoming());
        buffer := buffer + p.data;
        bytesWritten := bytesWritten + |p.data|;
      }
    }

    /** _read_from_stream: append whole chunks at the write cursor until `length` new bytes
        have arrived (one chunk when `length` is None). */
    method ReadFromStream(length: Option<nat>) returns (err: Option<Error>, ghost at: int)
      requires Valid()
      modifies this, stream
      ensures Valid() && StreamKept() && Remaining() == old(Remaining())
      ensures bytesRead == old(bytesRead)
      ensures old(|buffer|) <= |buffer| && at == old(|buffer|) + Want(length) - 1
      ensures err.None? ==>
        old(|buffer|) + Want(length) <= |buffer| &&
        TailFrom(buffer, at) &&
        |stream.pending| < old(|stream.pending|)
      ensures err.Some? ==>
        err.value == StreamEnd() && stream.Incoming() == [] &&
        |buffer| < old(|buffer|) + Want(length)
    {
      err := None;
      var marker := 0;
      at := old(|buffer|) + Want(length) - 1;
      while true
        invariant Valid() && StreamKept() && Remaining() == old(Remaining())
        invariant bytesRead == old(bytesRead)
        invariant old(|buffer|) <= |buffer| && marker == |buffer| - old(|buffer|) < Want(length)
        invariant marker == 0 || |stream.pending| < old(|stream.pending|)
        decreases |stream.pending|
      {
        ghost var before := buffer;
        var p := PullChunk();
        if p.Ended? {
          return Some(EndFailure(p.end)), at;
        }
        marker := marker + |p.data|;
        if length.Some? && length.value > marker {
          continue;
        }
        ChunkTailBack(before, p.data, at);
        break;
      }
    }

    /** The tail shared by read and readline: advance the read cursor over `count` bytes and
        purge the buffer once every byte in it has been read. */
    method Consume(count: nat)
      requires Valid() && count <= Length()
      modifies this
      ensures Valid() && Remaining() == old(Remaining())[count..]
      ensures Unread() == old(Unread())[count..]
      ensures count < old(Length()) ==> buffer == old(buffer) && bytesRead == old(bytesRead) + count
      ensures count == old(Length()) ==> buffer == [] && bytesRead == 0
    {
      DropFront(Unread(), stream.Incoming(), count);
      bytesRead := bytesRead + count;
      if bytesRead == bytesWritten {
        Purge();
      }
    }

    /** The end of read: take `length` bytes at the read cursor (every unread byte when
        `length` is negative) and drop the last two. */
    method TakeBytes(length: int) returns (data: seq<byte>)
      requires Valid() && length <= Length()
      requires 0 <= length ==> TailFrom(buffer, bytesRead + length)
      modifies this
      ensures Valid() && Aligned()
      ensures Ok(DropLastTwo(data)) == NextRead(old(Remaining()), old(Unread()), length, StreamEnd())
      ensures length < 0 ==> Remaining() == old(Remaining())[old(Length())..]
      ensures 0 <= length ==> Remaining() == old(Remaining())[length..]
    {
      data := BytesIoRead(buffer, bytesRead, length);
      if 0 <= length {
        TakeFront(Unread(), stream.Incoming(), length);
        assert data == Unread()[..length];
      }
      Consume(|data|);
    }

    /** The head of read: when fewer than `length` bytes are buffered, pull chunks until the
        missing ones have arrived. */
    method Fill(length: int) returns (err: Option<Error>)
      requires Valid() && Aligned()
      modifies this, stream
      ensures Valid() && StreamKept() && Remaining() == old(Remaining())
      ensures bytesRead == old(bytesRead)
      ensures length <= old(Length()) ==> buffer == old(buffer) && stream.pending == old(stream.pending)
      ensures err.None? ==> length <= Length()
      ensures err.None? && 0 <= length ==> TailFrom(buffer, bytesRead + length)
      ensures err.Some? ==> err.value == StreamEnd() && |old(Remaining())| < length
    {
      err := None;
      if length > Length() {
        ghost var at;
        err, at := ReadFromStream(Some(length - Length()));
        if err.None? {
          TailFromLater(buffer, at, bytesRead + length);
        }
      } else if 0 <= length {
        TailFromLater(buffer, bytesRead, bytesRead + length);
      }
    }

    /** read(n): n payload bytes; the two that follow them are consumed and dropped. */
    method Read(n: int) returns (r: Result<seq<byte>>)
      requires Valid() && Aligned()
      modifies this, stream
      ensures Valid() && StreamKept()
      ensures r == NextRead(old(Remaining()), old(Unread()), n + 2, StreamEnd())
      ensures r.Ok? ==> Aligned()
      ensures r.Ok? && n + 2 < 0 ==> Remaining() == old(Remaining())[old(Length())..]
      ensures r.Ok? && 0 <= n + 2 ==> Remaining() == old(Remaining())[n + 2..]
      ensures n + 2 <= old(Length()) ==> stream.pending == old(stream.pending)
    {
      var length := n + 2;
      var err := Fill(length);
      if err.Some? {
        return Fail(err.value);
      }
      var data := TakeBytes(length);
      r := Ok(DropLastTwo(data));
    }

    /** One turn of readline's loop: no complete line is buffered, so one more chunk is pulled
        and appended. */
    method ExtendLine() returns (err: Option<Error>)
      requires Valid() && LineAt(Unread()).None?
      modifies this, stream
      ensures Valid() && StreamKept() && Remaining() == old(Remaining())
      ensures bytesRead == old(bytesRead)
      ensures err.Some? ==> err.value == StreamEnd() && LineAt(Remaining()).None?
      ensures err.None? ==> |stream.pending| < old(|stream.pending|)
      ensures err.None? && old(Aligned() || BareFirstLf(Unread())) ==>
        Aligned() || BareFirstLf(Unread())
    {
      var p := PullChunk();
      if p.Ended? {
        assert Remaining() == Unread();
        return Some(EndFailure(p.end));
      }
      err := None;
      if old(Aligned()) && old(Unread()) != [] {
        TailFromChunkTail(old(buffer), old(bytesRead));
        ChunkTailLine(old(Unread()));
      }
      if old(Unread()) == [] {
        ChunkTailBack(old(buffer), p.data, bytesRead);
      } else if BareFirstLf(old(Unread())) {
        BareFirstLfExtends(old(Unread()), p.data);
      }
    }

    /** The end of readline: the line at the read cursor ends in CRLF; the read cursor moves
        past it and the line is returned without its CRLF. */
    method TakeLine(data: seq<byte>) returns (line: seq<byte>)
      requires Valid() && EndsWithCrlf(data) && data == ReadlineOf(Unread())
      modifies this
      ensures Valid()
      ensures LineAt(old(Remaining())).Some?
      ensures Ok(line) == NextLine(old(Remaining()), StreamEnd())
      ensures Remaining() == old(Remaining())[LineAt(old(Remaining())).value..]
      ensures old(Aligned() || BareFirstLf(Unread())) ==> Aligned() && buffer == [] && bytesRead == 0
    {
      ReadlineEndsWithCrlf(Unread());
      var k := |data|;
      LineAtExtends(Unread(), stream.Incoming());
      TakeFront(Unread(), stream.Incoming(), k - 2);
      assert data[..k - 2] == Unread()[..k - 2];
      if Aligned() {
        TailFromChunkTail(buffer, bytesRead);
        ChunkTailLine(Unread());
      }
      Consume(k);
      line := data[..k - 2];
    }

    /** readline(): the next line without its CRLF, pulling chunks until one is buffered. */
    method ReadLine() returns (r: Result<seq<byte>>)
      requires Valid()
      modifies this, stream
      ensures Valid() && StreamKept()
      ensures r == NextLine(old(Remaining()), StreamEnd())
      ensures r.Ok? ==> Remaining() == old(Remaining())[LineAt(old(Remaining())).value..]
      ensures r.Ok? && old(Aligned()) ==> Aligned() && buffer == [] && bytesRead == 0
      ensures LineAt(old(Unread())).Some? ==> stream.pending == old(stream.pending)
    {
      var data := ReadlineOf(buffer[bytesRead..]);
      while !EndsWithCrlf(data)
        invariant Valid() && StreamKept() && Remaining() == old(Remaining())
        invariant data == ReadlineOf(Unread())
        invariant old(Aligned()) ==> Aligned() || BareFirstLf(Unread())
        invariant LineAt(old(Unread())).Some? ==>
          Unread() == old(Unread()) && stream.pending == old(stream.pending)
        decreases |stream.pending|
      {
        NoLineYet(Unread());
        var err := ExtendLine();
        if err.Some? {
          return Fail(err.value);
        }
        data := ReadlineOf(buffer[bytesRead..]);
      }
      var line := TakeLine(data);
      r := Ok(line);
    }
  }
}
