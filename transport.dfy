/** The TCP side of a connection as Tornado presents it to gredis/connection.py: an IOStream
    object that delivers the server's bytes one CRLF-terminated chunk at a time
    (read_until_regex(b'\r\n')), accepts or refuses writes and can be closed, and a TCPClient
    whose connects are scripted in advance. */
module Transport {
  import opened Resp

  // ---------------------------------------------------------------------------------------
  // Chunks: what read_until_regex(b'\r\n') hands over

  /** A CRLF starts at index `j` of `u`. */
  predicate CrlfAt(u: seq<byte>, j: int) {
    0 <= j && j + 1 < |u| && u[j] == CR && u[j + 1] == LF
  }

  /** Where the first CRLF of `u` starts, or |u| when `u` holds none. */
  function CrlfFrom(u: seq<byte>): (n: nat)
    ensures n <= |u|
    ensures n < |u| ==> CrlfAt(u, n)
  {
    if |u| < 2 then |u|
    else if u[0] == CR && u[1] == LF then 0
    else 1 + CrlfFrom(u[1..])
  }

  /** CrlfFrom finds the first CRLF: none starts before it. */
  lemma {:induction false} CrlfFromFirst(u: seq<byte>, j: nat)
    requires CrlfAt(u, j)
    ensures CrlfFrom(u) <= j
  {
    if j > 0 && !(u[0] == CR && u[1] == LF) {
      assert CrlfAt(u[1..], j - 1);
      CrlfFromFirst(u[1..], j - 1);
    }
  }

  /** Cutting bytes after the first CRLF does not move it. */
  lemma {:induction false} CrlfFromPrefix(u: seq<byte>, m: nat)
    requires CrlfFrom(u) + 2 <= m <= |u|
    ensures CrlfFrom(u[..m]) == CrlfFrom(u)
  {
    if !(u[0] == CR && u[1] == LF) {
      CrlfFromPrefix(u[1..], m - 1);
      assert u[..m][1..] == u[1..][..m - 1];
    }
  }

  /** One chunk of read_until_regex(b'\r\n'): its only CRLF is the one that ends it. */
  predicate IsChunk(u: seq<byte>) {
    |u| >= 2 && CrlfFrom(u) == |u| - 2
  }

  /** What may be left unread of a chunk: nothing, its last byte, or a tail holding its CRLF. */
  predicate ChunkTail(u: seq<byte>) {
    |u| == 0 || (|u| == 1 && u[0] == LF) || IsChunk(u)
  }

  /** BytesIO.readline on a chunk tail: either the tail is one whole line, or the first LF is
      bare, or there is nothing to read. */
  lemma ChunkTailLine(u: seq<byte>)
    requires ChunkTail(u)
    ensures |u| == 0 || LineAt(u) == Some(|u|) || BareFirstLf(u)
  {
    if IsChunk(u) {
      assert u[|u| - 1] == LF;
      var j := FirstIndex(u, LF).value;
      if j >= 1 && u[j - 1] == CR {
        CrlfFromFirst(u, j - 1);
      }
    } else if |u| == 1 {
      assert FirstIndex(u, LF) == Some(0);
    }
  }

  /** The first LF of `u` is not preceded by CR: readline returns a line that never ends in
      CRLF, whatever is appended after it. */
  predicate BareFirstLf(u: seq<byte>) {
    FirstIndex(u, LF).Some? && LineAt(u).None?
  }

  lemma BareFirstLfExtends(u: seq<byte>, t: seq<byte>)
    requires BareFirstLf(u)
    ensures BareFirstLf(u + t)
    ensures LineAt(u + t).None?
  {
    FirstIndexExtends(u, t, LF);
    var j := FirstIndex(u, LF).value;
    assert (u + t)[..j + 1] == u[..j + 1];
  }

  // ---------------------------------------------------------------------------------------
  // The server's bytes, cut where read_until_regex cuts them

  /** Bytes read_until_regex can hand over in full: nothing, or bytes that end in CRLF. */
  predicate EndsAtCrlf(d: seq<byte>) {
    |d| == 0 || CrlfAt(d, |d| - 2)
  }

  /** Every byte of a server's reply stream that will ever be delivered.  Bytes the server sends
      after its last CRLF are never delivered by read_until_regex and are not part of it. */
  type Wire = d: seq<byte> | EndsAtCrlf(d)

  /** The first chunk of a non-empty wire, and what follows it. */
  lemma FirstChunk(d: Wire)
    requires d != []
    ensures CrlfFrom(d) + 2 <= |d|
    ensures IsChunk(d[..CrlfFrom(d) + 2]) && EndsAtCrlf(d[CrlfFrom(d) + 2..])
  {
    CrlfFromFirst(d, |d| - 2);
    var e := CrlfFrom(d) + 2;
    CrlfFromPrefix(d, e);
    assert CrlfAt(d[..e], e - 2);
    if e < |d| {
      assert CrlfAt(d[e..], |d| - e - 2);
    }
  }

  // ---------------------------------------------------------------------------------------
  // Streams

  /** How the server's bytes end once every deliverable chunk has been read. */
  datatype ReadEnd =
    | Closed                         // StreamClosedError: the peer closed the connection
    | TimedOut                       // socket.timeout
    | SocketError(args: seq<string>) // socket.error with these arguments

  /** What a write on an open stream does. */
  datatype WriteMode =
    | Accepting
    | Dropped                          // raises StreamClosedError: the peer has gone
    | FailingWith(args: seq<string>)   // raises socket.error with these arguments
    | BreakingWith(detail: string)     // raises an exception that is not a socket error

  datatype WriteFault =
    | WriteClosed                      // StreamClosedError
    | WriteSocketError(args: seq<string>)
    | WriteOther(detail: string)

  /** What a write on an open stream raises under this mode, if anything. */
  function FaultOf(m: WriteMode): Option<WriteFault> {
    match m
    case Accepting => None
    case Dropped => Some(WriteClosed)
    case FailingWith(args) => Some(WriteSocketError(args))
    case BreakingWith(d) => Some(WriteOther(d))
  }

  /** The server at the other end of a connect: the bytes it will send, how reading ends once
      they are all delivered, and how writes behave. */
  datatype Peer = Peer(sent: Wire, readEnd: ReadEnd, writeMode: WriteMode)

  /** What one read_until_regex hands over: one chunk, or how the stream ends. */
  datatype Pulled = Chunk(data: seq<byte>) | Ended(end: ReadEnd)

  /** tornado.iostream.IOStream over one TCP connection.  `pending` holds the bytes
      read_until_regex has not handed over yet. */
  class IOStream {
    var pending: Wire
    const readEnd: ReadEnd
    const writeMode: WriteMode
    var written: seq<byte>
    var closed: bool

    constructor (peer: Peer)
      ensures Incoming() == peer.sent && readEnd == peer.readEnd && writeMode == peer.writeMode
      ensures written == [] && !closed
    {
      pending := peer.sent;
      readEnd := peer.readEnd;
      writeMode := peer.writeMode;
      written := [];
      closed := false;
    }

    /** Every byte reading will still deliver: a closed stream delivers nothing more. */
    function Incoming(): seq<byte>
      reads this
    {
      if closed then [] else pending
    }

    /** How reading fails once nothing more is delivered: a closed stream raises
        StreamClosedError. */
    function EndOf(): ReadEnd
      reads this
    {
      if closed then Closed else readEnd
    }

    /** What the next write raises, if anything. */
    function WriteOutcome(): Option<WriteFault>
      reads this
    {
      if closed then Some(WriteClosed) else FaultOf(writeMode)
    }

    /** IOStream.read_until_regex(b'\r\n'): the bytes up to and including the next CRLF,
        or the way the stream ends when no CRLF is left to read. */
    method ReadUntilCrlf() returns (p: Pulled)
      modifies this
      ensures written == old(written) && closed == old(closed)
      ensures p.Chunk? ==>
        IsChunk(p.data) && old(Incoming()) == p.data + Incoming() && |pending| < old(|pending|)
      ensures p.Ended? ==> p.end == EndOf() && old(Incoming()) == Incoming() == []
      ensures p.Ended? ==> pending == old(pending)
    {
      if closed {
        p := Ended(Closed);
      } else if pending == [] {
        p := Ended(readEnd);
      } else {
        FirstChunk(pending);
        var e := CrlfFrom(pending) + 2;
        p := Chunk(pending[..e]);
        pending := pending[e..];
      }
    }

    /** IOStream.write of one item. */
    method Write(bytes: seq<byte>) returns (f: Option<WriteFault>)
      modifies this
      ensures f == old(WriteOutcome())
      ensures written == if f.None? then old(written) + bytes else old(written)
      ensures pending == old(pending) && closed == old(closed)
    {
      f := WriteOutcome();
      if f.None? {
        written := written + bytes;
      }
    }

    /** IOStream.close: closing twice is closing once. */
    method Close()
      modifies this
      ensures closed && Incoming() == [] && EndOf() == Closed
      ensures WriteOutcome() == Some(WriteClosed)
      ensures pending == old(pending) && written == old(written)
    {
      closed := true;
    }
  }

  // ---------------------------------------------------------------------------------------
  // Connecting

  /** The outcome of the next TCPClient.connect. */
  datatype DialOutcome = Accept(peer: Peer) | Refuse(args: seq<string>)

  datatype Dialed = Opened(stream: IOStream) | Refused(args: seq<string>)

  /** The outcome of the next connect: with none scripted, the connect is refused. */
  function NextDial(dials: seq<DialOutcome>): DialOutcome {
    if dials == [] then Refuse(["Connection refused"]) else dials[0]
  }

  /** The outcomes left for the connects after the next one. */
  function LaterDials(dials: seq<DialOutcome>): seq<DialOutcome> {
    if dials == [] then [] else dials[1..]
  }

  /** tornado.tcpclient.TCPClient, with the outcomes of its connects scripted in advance. */
  class Network {
    var dials: seq<DialOutcome>

    constructor (script: seq<DialOutcome>)
      ensures dials == script
    {
      dials := script;
    }

    /** TCPClient.connect: the next scripted outcome opens a fresh stream or is refused.
        With no outcome left, the connect is refused. */
    method Dial() returns (d: Dialed)
      modifies this
      ensures dials == LaterDials(old(dials))
      ensures NextDial(old(dials)).Refuse? ==> d == Refused(NextDial(old(dials)).args)
      ensures NextDial(old(dials)).Accept? ==>
        d.Opened? && fresh(d.stream) && d.stream.Incoming() == NextDial(old(dials)).peer.sent &&
        d.stream.readEnd == NextDial(old(dials)).peer.readEnd &&
        d.stream.writeMode == NextDial(old(dials)).peer.writeMode &&
        d.stream.written == [] && !d.stream.closed
    {
      if dials == [] {
        d := Refused(["Connection refused"]);
      } else {
        var outcome := dials[0];
        dials := dials[1..];
        if outcome.Accept? {
          var s := new IOStream(outcome.peer);
          d := Opened(s);
        } else {
          d := Refused(outcome.args);
        }
      }
    }
  }
}
