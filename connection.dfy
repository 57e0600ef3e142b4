/** AsyncConnection of gredis/connection.py: a connection to one Redis server, connected while
    it holds a stream.  Each operation is proved to move the connection from one Link to the
    next as the pure functions AfterConnect, AfterSend and AfterRead say, and the properties of
    the connection are proved about those functions. */
module Connections {
  import opened Resp
  import opened Transport
  import opened StreamBuffers
  import opened Parser

  const AUTH: seq<byte> := [65, 85, 84, 72]            // "AUTH"
  const SELECT: seq<byte> := [83, 69, 76, 69, 67, 84]  // "SELECT"

  /** The settings a connection is made with.  A password that is None or empty is no
      password, and database 0 is not selected: both are false in Python. */
  datatype Settings = Settings(password: seq<byte>, db: int, retryOnTimeout: bool,
                               classify: seq<byte> -> ErrorClass)

  /** A connection as its operations see it: down, or up with the bytes the server will still
      send, the way reading ends once they are read, what a write raises, and the bytes
      written so far. */
  datatype Link =
    | Down
    | Up(inbox: seq<byte>, end: Error, fault: Option<WriteFault>, written: seq<byte>)

  /** The link a connect opens to a server. */
  function Open(peer: Peer): Link {
    Up(peer.sent, EndFailure(peer.readEnd), FaultOf(peer.writeMode), [])
  }

  /** The items of a packed command, one after the other. */
  function Joined(items: seq<seq<byte>>): seq<byte> {
    if items == [] then [] else items[0] + Joined(items[1..])
  }

  lemma {:induction false} JoinedSnoc(items: seq<seq<byte>>, i: nat)
    requires i < |items|
    ensures Joined(items[..i + 1]) == Joined(items[..i]) + items[i]
    decreases i
  {
    if i > 0 {
      JoinedSnoc(items[1..], i - 1);
      assert items[1..][..i] == items[..i + 1][1..];
      assert items[1..][..i - 1] == items[..i][1..];
    } else {
      assert items[..1] == [items[0]];
    }
  }

  // ---------------------------------------------------------------------------------------
  // Writing

  /** What send_packed_command raises for a failed write: StreamClosedError becomes a
      TimeoutError; a socket error with one argument is an error of unknown number, one with
      two is (number, message), and any other count fails to unpack; anything else is
      re-raised as it is. */
  function WriteFailure(f: WriteFault): (e: Error)
    ensures e.TimeoutError? <==> f.WriteClosed?
    ensures e.ConnectionError? <==> f.WriteSocketError? && 1 <= |f.args| <= 2
  {
    match f
    case WriteClosed => TimeoutError(Writing)
    case WriteSocketError(args) =>
      if |args| == 1 then ConnectionError(WriteFailed("UNKNOWN", args[0]))
      else if |args| == 2 then ConnectionError(WriteFailed(args[0], args[1]))
      else ValueError
    case WriteOther(d) => WriteError(d)
  }

  /** The writes of send_packed_command on a connected link: every item, or, when writing
      fails, the error of the first write after disconnecting. */
  function AfterWrite(l: Link, command: seq<seq<byte>>): (r: (Link, Option<Error>))
    requires l.Up?
    ensures r.1.Some? <==> r.0.Down?
    ensures r.0.Up? ==> r.0 == l.(written := l.written + Joined(command))
  {
    if command == [] || l.fault.None? then (l.(written := l.written + Joined(command)), None)
    else (Down, Some(WriteFailure(l.fault.value)))
  }

  // ---------------------------------------------------------------------------------------
  // Reading

  /** AsyncConnection.read_response: the frame at the head of the inbox.  Without a stream the
      parser has no buffer (AttributeError); a failure to parse disconnects; an error reply is
      raised as a ResponseError and leaves the connection up. */
  function AfterRead(l: Link, classify: seq<byte> -> ErrorClass): (r: (Link, Result<Value>))
    ensures r.1.Ok? ==> r.0.Up?
    ensures r.0.Up? ==> l.Up? && r.0 == l.(inbox := r.0.inbox) && |r.0.inbox| < |l.inbox|
    ensures r.0.Up? ==> r.0.inbox == l.inbox[|l.inbox| - |r.0.inbox|..]
  {
    if l.Down? then (Down, Fail(AttributeError))
    else
      var d := DecodeFrame(l.inbox, 0, classify);
      if !d.Done? then (Down, Outcome(d, l.end))
      else if d.value.Err? then (l.(inbox := l.inbox[d.end..]), Fail(ResponseError(d.value.message)))
      else (l.(inbox := l.inbox[d.end..]), Ok(d.value))
  }

  // ---------------------------------------------------------------------------------------
  // Connecting

  /** redis-py's nativestr: the text of a string reply; any other reply (an error reply is
      raised before it gets here) has no decode method and gives None (an AttributeError). */
  function NativeStr(v: Value): Option<seq<byte>> {
    match v
    case Simple(t) => Some(t)
    case Bulk(d) => Some(d)
    case _ => None
  }

  /** One step of the handshake: send the command, read the reply, and fail with `rejected`
      when the reply is not OK. */
  function AfterExchange(l: Link, args: seq<seq<byte>>, rejected: Error,
                         classify: seq<byte> -> ErrorClass): (r: (Link, Option<Error>))
    requires l.Up?
    ensures r.1.None? ==> r.0.Up?
  {
    var sent := AfterWrite(l, [Pack(args)]);
    if sent.1.Some? then sent
    else
      var got := AfterRead(sent.0, classify);
      if got.1.Fail? then (got.0, Some(got.1.error))
      else
        var text := NativeStr(got.1.value);
        (got.0, if text.None? then Some(AttributeError) else if text.value == OK then None else Some(rejected))
  }

  /** The AUTH step of AsyncConnection.on_connect, taken when there is a password. */
  function AfterAuth(l: Link, settings: Settings): (r: (Link, Option<Error>))
    requires l.Up?
    ensures r.1.None? ==> r.0.Up?
  {
    if settings.password != [] then AfterExchange(l, [AUTH, settings.password], AuthenticationError, settings.classify)
    else (l, None)
  }

  /** AsyncConnection.on_connect: AUTH when there is a password, then SELECT when there is a
      database to select, stopping at the first failure. */
  function AfterHandshake(l: Link, settings: Settings): (r: (Link, Option<Error>))
    requires l.Up?
    ensures r.1.None? ==> r.0.Up?
  {
    var auth := AfterAuth(l, settings);
    if auth.1.Some? || settings.db == 0 then auth
    else AfterExchange(auth.0, [SELECT, FormatInt(settings.db)], ConnectionError(InvalidDatabase), settings.classify)
  }

  /** AsyncConnection.connect: nothing when up; otherwise connect, and hand over to the
      handshake, disconnecting when it raises a RedisError.  Also gives the connect outcomes
      left. */
  function AfterConnect(l: Link, dials: seq<DialOutcome>, settings: Settings): (r: (Link, seq<DialOutcome>, Option<Error>))
    ensures r.2.None? ==> r.0.Up?
  {
    if l.Up? then (l, dials, None)
    else
      var dial := NextDial(dials);
      if dial.Refuse? then (Down, LaterDials(dials), Some(ConnectionError(ConnectFailed(dial.args))))
      else
        var h := AfterHandshake(Open(dial.peer), settings);
        (if h.1.Some? && IsRedisError(h.1.value) then Down else h.0, LaterDials(dials), h.1)
  }

  /** AsyncConnection.send_packed_command: connect, which is a no-op when up, then write. */
  function AfterSend(l: Link, dials: seq<DialOutcome>, command: seq<seq<byte>>, settings: Settings)
    : (r: (Link, seq<DialOutcome>, Option<Error>))
    ensures r.2.None? ==> r.0.Up?
    ensures l.Up? ==> r.1 == dials
  {
    var c := AfterConnect(l, dials, settings);
    if c.2.Some? then c
    else
      var w := AfterWrite(c.0, command);
      (w.0, c.1, w.1)
  }

  // ---------------------------------------------------------------------------------------
  // What reading, connecting and sending promise

  /** A frame decoded whole is consumed, and an error reply is raised. */
  lemma {:induction false} ReadDecoded(l: Link, classify: seq<byte> -> ErrorClass, v: Value, n: nat)
    requires l.Up? && DecodeFrame(l.inbox, 0, classify) == Done(v, n)
    ensures n <= |l.inbox|
    ensures AfterRead(l, classify)
         == (l.(inbox := l.inbox[n..]), if v.Err? then Fail(ResponseError(v.message)) else Ok(v))
  {
  }

  /** A reply read whole: the connection stays up with the rest of the inbox, and an error
      reply is raised as a ResponseError. */
  lemma {:induction false} ReadEncoded(l: Link, v: Value, rest: seq<byte>, classify: seq<byte> -> ErrorClass)
    requires l.Up? && l.inbox == Encode(v) + rest && Encodable(v, classify)
    ensures AfterRead(l, classify)
         == (l.(inbox := rest), if v.Err? then Fail(ResponseError(v.message)) else Ok(v))
  {
    DecodeEncode([], v, rest, classify);
    assert [] + Encode(v) + rest == l.inbox;
    ReadDecoded(l, classify, v, |Encode(v)|);
    assert l.inbox[|Encode(v)|..] == rest;
  }

  /** `$-1` and `*-1` are both read as None. */
  lemma {:induction false} ReadNil(l: Link, tag: byte, rest: seq<byte>, classify: seq<byte> -> ErrorClass)
    requires l.Up? && (tag == DOLLAR || tag == STAR)
    requires l.inbox == [tag, MINUS, ZERO + 1] + CRLF + rest
    ensures AfterRead(l, classify) == (l.(inbox := rest), Ok(Null))
  {
    NilFrame(tag, rest, classify);
    ReadDecoded(l, classify, Null, 5);
    assert l.inbox[5..] == rest;
  }

  /** A read disconnects exactly when it raises something other than an error reply, and
      only a read without a stream raises an AttributeError. */
  lemma {:induction false} ReadFailureDisconnects(l: Link, classify: seq<byte> -> ErrorClass)
    requires l.Up? ==> l.end.ConnectionError? || l.end.TimeoutError?
    ensures var r := AfterRead(l, classify);
      r.1.Fail? ==> (r.0.Up? <==> r.1.error.ResponseError?) && (r.1.error.AttributeError? <==> l.Down?)
  {
    if l.Up? {
      DecodeFrameRaises(l.inbox, 0, classify);
    }
  }

  /** One handshake step that raises an exception other than a RedisError has disconnected,
      unless the reply was not a string. */
  lemma {:induction false} ExchangeOutcome(l: Link, args: seq<seq<byte>>, rejected: Error, classify: seq<byte> -> ErrorClass)
    requires l.Up? && (l.end.ConnectionError? || l.end.TimeoutError?) && IsRedisError(rejected)
    ensures var r := AfterExchange(l, args, rejected, classify);
      (r.1 == Some(AttributeError) ==> r.0.Up?) &&
      (r.1.Some? && !IsRedisError(r.1.value) && r.1.value != AttributeError ==> r.0.Down?)
  {
    var sent := AfterWrite(l, [Pack(args)]);
    if sent.1.None? {
      ReadFailureDisconnects(sent.0, classify);
    }
  }

  /** After connect the connection is up exactly when connect raised nothing, or raised the
      AttributeError of a reply that is not a string: every RedisError of the handshake
      disconnects, and so does every failed write. */
  lemma {:induction false} ConnectedIff(l: Link, dials: seq<DialOutcome>, settings: Settings)
    ensures var r := AfterConnect(l, dials, settings);
      r.0.Up? <==> r.2.None? || r.2.value == AttributeError
  {
    var dial := NextDial(dials);
    if l.Down? && dial.Accept? {
      var o := Open(dial.peer);
      var auth := AfterAuth(o, settings);
      if settings.password != [] {
        ExchangeOutcome(o, [AUTH, settings.password], AuthenticationError, settings.classify);
      }
      if auth.1.None? && settings.db != 0 {
        ExchangeOutcome(auth.0, [SELECT, FormatInt(settings.db)], ConnectionError(InvalidDatabase), settings.classify);
      }
    }
  }

  /** The +OK reply of a server that accepts a handshake command. */
  const Okay: seq<byte> := Encode(Simple(OK))

  /** What a server that accepts the handshake replies: +OK to AUTH when there is a password,
      and +OK to SELECT when there is a database to select. */
  function Accepted(settings: Settings): seq<byte> {
    (if settings.password != [] then Okay else []) + (if settings.db != 0 then Okay else [])
  }

  /** The AUTH command the handshake writes, packed, if any. */
  function AuthCommand(settings: Settings): seq<byte> {
    if settings.password != [] then Pack([AUTH, settings.password]) else []
  }

  /** The commands the handshake writes, packed. */
  function HandshakeCommands(settings: Settings): seq<byte> {
    AuthCommand(settings) + if settings.db != 0 then Pack([SELECT, FormatInt(settings.db)]) else []
  }

  /** One handshake step the server accepts: the command is written, +OK is read. */
  lemma {:induction false} ExchangeAccepted(l: Link, args: seq<seq<byte>>, rejected: Error,
                                            rest: seq<byte>, classify: seq<byte> -> ErrorClass)
    requires l.Up? && l.fault.None? && l.inbox == Okay + rest
    ensures AfterExchange(l, args, rejected, classify)
         == (l.(inbox := rest, written := l.written + Pack(args)), None)
  {
    assert Joined([Pack(args)]) == Pack(args);
    ReadEncoded(l.(written := l.written + Pack(args)), Simple(OK), rest, classify);
  }

  /** One handshake step answered with a string other than OK fails with `rejected`. */
  lemma {:induction false} ExchangeRejected(l: Link, args: seq<seq<byte>>, rejected: Error, reply: Value,
                                            rest: seq<byte>, classify: seq<byte> -> ErrorClass)
    requires l.Up? && l.fault.None? && l.inbox == Encode(reply) + rest && Encodable(reply, classify)
    requires (reply.Simple? || reply.Bulk?) && NativeStr(reply) != Some(OK)
    ensures AfterExchange(l, args, rejected, classify)
         == (l.(inbox := rest, written := l.written + Pack(args)), Some(rejected))
  {
    assert Joined([Pack(args)]) == Pack(args);
    ReadEncoded(l.(written := l.written + Pack(args)), reply, rest, classify);
  }

  /** AUTH accepted, or no AUTH at all. */
  lemma {:induction false} AuthAccepted(l: Link, settings: Settings, rest: seq<byte>)
    requires l.Up? && l.fault.None?
    requires l.inbox == (if settings.password != [] then Okay else []) + rest
    ensures AfterAuth(l, settings) == (l.(inbox := rest, written := l.written + AuthCommand(settings)), None)
  {
    if settings.password != [] {
      ExchangeAccepted(l, [AUTH, settings.password], AuthenticationError, rest, settings.classify);
    } else {
      assert l.inbox == rest && l.written + [] == l.written;
    }
  }

  /** AUTH and SELECT accepted: every handshake command written and every reply read. */
  lemma {:induction false} HandshakeAccepted(l: Link, settings: Settings, rest: seq<byte>)
    requires l.Up? && l.fault.None? && l.inbox == Accepted(settings) + rest
    ensures AfterHandshake(l, settings)
         == (l.(inbox := rest, written := l.written + HandshakeCommands(settings)), None)
  {
    var afterAuth := (if settings.db != 0 then Okay else []) + rest;
    assert l.inbox == (if settings.password != [] then Okay else []) + afterAuth;
    AuthAccepted(l, settings, afterAuth);
    var authed := l.(inbox := afterAuth, written := l.written + AuthCommand(settings));
    if settings.db != 0 {
      var select := [SELECT, FormatInt(settings.db)];
      ExchangeAccepted(authed, select, ConnectionError(InvalidDatabase), rest, settings.classify);
      AppendAssoc(l.written, AuthCommand(settings), Pack(select));
    } else {
      assert afterAuth == rest && AuthCommand(settings) + [] == AuthCommand(settings);
    }
  }

  /** A server that accepts the handshake leaves the connection up, every handshake command
      written and every reply read; the next connect outcome is used up. */
  lemma {:induction false} HandshakeSucceeds(peer: Peer, more: seq<DialOutcome>, settings: Settings, rest: seq<byte>)
    requires peer.writeMode == Accepting && peer.sent == Accepted(settings) + rest
    ensures AfterConnect(Down, [Accept(peer)] + more, settings)
         == (Up(rest, EndFailure(peer.readEnd), None, HandshakeCommands(settings)), more, None)
  {
    assert LaterDials([Accept(peer)] + more) == more;
    HandshakeAccepted(Open(peer), settings, rest);
    assert [] + HandshakeCommands(settings) == HandshakeCommands(settings);
  }

  /** AUTH answered with a string other than OK: AuthenticationError, and disconnected. */
  lemma {:induction false} AuthRejected(peer: Peer, more: seq<DialOutcome>, settings: Settings, reply: Value, rest: seq<byte>)
    requires settings.password != [] && peer.writeMode == Accepting
    requires peer.sent == Encode(reply) + rest && Encodable(reply, settings.classify)
    requires (reply.Simple? || reply.Bulk?) && NativeStr(reply) != Some(OK)
    ensures AfterConnect(Down, [Accept(peer)] + more, settings) == (Down, more, Some(AuthenticationError))
  {
    assert LaterDials([Accept(peer)] + more) == more;
    ExchangeRejected(Open(peer), [AUTH, settings.password], AuthenticationError, reply, rest, settings.classify);
  }

  /** The handshake with SELECT answered with a string other than OK. */
  lemma {:induction false} HandshakeSelectRejected(l: Link, settings: Settings, reply: Value, rest: seq<byte>)
    requires l.Up? && l.fault.None? && settings.db != 0
    requires l.inbox == (if settings.password != [] then Okay else []) + (Encode(reply) + rest)
    requires Encodable(reply, settings.classify)
    requires (reply.Simple? || reply.Bulk?) && NativeStr(reply) != Some(OK)
    ensures AfterHandshake(l, settings)
         == (l.(inbox := rest, written := l.written + HandshakeCommands(settings)), Some(ConnectionError(InvalidDatabase)))
  {
    AuthAccepted(l, settings, Encode(reply) + rest);
    var authed := l.(inbox := Encode(reply) + rest, written := l.written + AuthCommand(settings));
    var select := [SELECT, FormatInt(settings.db)];
    ExchangeRejected(authed, select, ConnectionError(InvalidDatabase), reply, rest, settings.classify);
    AppendAssoc(l.written, AuthCommand(settings), Pack(select));
  }

  /** SELECT answered with a string other than OK: a ConnectionError, and disconnected. */
  lemma {:induction false} SelectRejected(peer: Peer, more: seq<DialOutcome>, settings: Settings, reply: Value, rest: seq<byte>)
    requires settings.db != 0 && peer.writeMode == Accepting
    requires peer.sent == (if settings.password != [] then Okay else []) + (Encode(reply) + rest)
    requires Encodable(reply, settings.classify)
    requires (reply.Simple? || reply.Bulk?) && NativeStr(reply) != Some(OK)
    ensures AfterConnect(Down, [Accept(peer)] + more, settings)
         == (Down, more, Some(ConnectionError(InvalidDatabase)))
  {
    assert LaterDials([Accept(peer)] + more) == more;
    HandshakeSelectRejected(Open(peer), settings, reply, rest);
  }

  /** One handshake step answered with an error reply: the reply is raised as a ResponseError
      before its text is compared with OK. */
  lemma {:induction false} ExchangeErrorReply(l: Link, args: seq<seq<byte>>, rejected: Error, message: seq<byte>,
                                              rest: seq<byte>, classify: seq<byte> -> ErrorClass)
    requires l.Up? && l.fault.None? && l.inbox == Encode(Err(message)) + rest && Encodable(Err(message), classify)
    ensures AfterExchange(l, args, rejected, classify)
         == (l.(inbox := rest, written := l.written + Pack(args)), Some(ResponseError(message)))
  {
    assert Joined([Pack(args)]) == Pack(args);
    ReadEncoded(l.(written := l.written + Pack(args)), Err(message), rest, classify);
  }

  /** AUTH answered with an error reply (a wrong password): a ResponseError, and disconnected. */
  lemma {:induction false} AuthErrorReply(peer: Peer, more: seq<DialOutcome>, settings: Settings, message: seq<byte>, rest: seq<byte>)
    requires settings.password != [] && peer.writeMode == Accepting
    requires peer.sent == Encode(Err(message)) + rest && Encodable(Err(message), settings.classify)
    ensures AfterConnect(Down, [Accept(peer)] + more, settings) == (Down, more, Some(ResponseError(message)))
  {
    assert LaterDials([Accept(peer)] + more) == more;
    ExchangeErrorReply(Open(peer), [AUTH, settings.password], AuthenticationError, message, rest, settings.classify);
  }

  /** The handshake with SELECT answered with an error reply. */
  lemma {:induction false} HandshakeSelectErrorReply(l: Link, settings: Settings, reply: Value, rest: seq<byte>)
    requires l.Up? && l.fault.None? && settings.db != 0 && reply.Err?
    requires l.inbox == (if settings.password != [] then Okay else []) + (Encode(reply) + rest)
    requires Encodable(reply, settings.classify)
    ensures AfterHandshake(l, settings)
         == (l.(inbox := rest, written := l.written + HandshakeCommands(settings)), Some(ResponseError(reply.message)))
  {
    AuthAccepted(l, settings, Encode(reply) + rest);
    var authed := l.(inbox := Encode(reply) + rest, written := l.written + AuthCommand(settings));
    var select := [SELECT, FormatInt(settings.db)];
    ExchangeErrorReply(authed, select, ConnectionError(InvalidDatabase), reply.message, rest, settings.classify);
    AppendAssoc(l.written, AuthCommand(settings), Pack(select));
  }

  /** SELECT answered with an error reply (a database index out of range): a ResponseError,
      not the ConnectionError of a rejected SELECT, and disconnected. */
  lemma {:induction false} SelectErrorReply(peer: Peer, more: seq<DialOutcome>, settings: Settings, reply: Value, rest: seq<byte>)
    requires settings.db != 0 && peer.writeMode == Accepting && reply.Err?
    requires peer.sent == (if settings.password != [] then Okay else []) + (Encode(reply) + rest)
    requires Encodable(reply, settings.classify)
    ensures AfterConnect(Down, [Accept(peer)] + more, settings) == (Down, more, Some(ResponseError(reply.message)))
  {
    ConnectAccepted(peer, more, settings);
    HandshakeSelectErrorReply(Open(peer), settings, reply, rest);
  }

  /** Connect on a down link whose connect is accepted ends as the handshake on the new
      stream does, disconnected on a RedisError, with that connect outcome used up. */
  lemma {:induction false} ConnectAccepted(peer: Peer, more: seq<DialOutcome>, settings: Settings)
    ensures var h := AfterHandshake(Open(peer), settings);
      AfterConnect(Down, [Accept(peer)] + more, settings)
        == (if h.1.Some? && IsRedisError(h.1.value) then Down else h.0, more, h.1)
  {
    assert LaterDials([Accept(peer)] + more) == more;
  }

  /** A write that fails disconnects and raises the mapped error; a connected link dials
      nothing. */
  lemma {:induction false} SendFailureDisconnects(l: Link, dials: seq<DialOutcome>, command: seq<seq<byte>>, settings: Settings)
    requires l.Up? && l.fault.Some? && command != []
    ensures AfterSend(l, dials, command, settings) == (Down, dials, Some(WriteFailure(l.fault.value)))
  {
  }

  // ---------------------------------------------------------------------------------------
  // The connection

  class AsyncConnection {
    var stream: IOStream?
    const parser: AsyncParser
    const net: Network
    const settings: Settings

    /** The connection and its parser hold the same stream, which is open while held. */
    ghost predicate Valid()
      reads this, parser, parser.buffer, stream
    {
      parser.stream == stream && parser.Valid() && parser.classify == settings.classify &&
      (stream != null ==> !stream.closed)
    }

    /** What disconnect needs: the parser holds the connection's stream, with a buffer
        exactly when it holds one, even when a read has left the buffer mid-frame. */
    ghost predicate Held()
      reads this, parser
    {
      parser.stream == stream && (parser.stream == null <==> parser.buffer == null)
    }

    ghost function State(): Link
      reads this, parser, parser.buffer, stream
      requires Valid()
    {
      if stream == null then Down
      else Up(parser.Remaining(), EndFailure(stream.readEnd), FaultOf(stream.writeMode), stream.written)
    }

    /** Every object the connection holds was held before or is new. */
    twostate predicate Renewed()
      reads this, parser
    {
      (stream == null || stream == old(stream) || fresh(stream)) &&
      (parser.buffer == null || parser.buffer == old(parser.buffer) || fresh(parser.buffer))
    }

    constructor (net: Network, settings: Settings)
      ensures Valid() && State() == Down && this.net == net && this.settings == settings
      ensures fresh(parser)
    {
      this.net := net;
      this.settings := settings;
      parser := new AsyncParser(settings.classify);
      stream := null;
    }

    /** disconnect: the parser lets go of the stream and the connection closes it. */
    method Disconnect()
      requires Held() && parser.classify == settings.classify
      modifies this, parser, stream, parser.buffer
      ensures Valid() && State() == Down
      ensures old(stream) != null ==> old(stream).closed && old(stream).written == old(stream.written)
    {
      parser.OnDisconnect();
      if stream == null {
        return;
      }
      stream.Close();
      stream := null;
    }

    /** read_response: what the parser reads, disconnecting when it raises; an error reply is
        raised. */
    method ReadResponse() returns (r: Result<Value>)
      requires Valid()
      modifies this, parser, stream, parser.buffer
      ensures Valid() && Renewed()
      ensures (State(), r) == AfterRead(old(State()), settings.classify)
    {
      ghost var l := State();
      ghost var s := if stream == null then [] else parser.Remaining();
      var got := parser.ReadResponse(s, 0);
      if got.Fail? {
        Disconnect();
        r := got;
      } else if got.value.Err? {
        r := Fail(ResponseError(got.value.message));
      } else {
        r := got;
      }
      assert l.Up? ==> l.inbox == s;
    }

    /** The loop of send_packed_command: each item written in turn; a failed write
        disconnects. */
    method WriteItems(command: seq<seq<byte>>) returns (err: Option<Error>)
      requires Valid() && stream != null
      modifies this, parser, stream, parser.buffer
      ensures Valid() && Renewed()
      ensures (State(), err) == AfterWrite(old(State()), command)
    {
      var i := 0;
      while i < |command|
        invariant 0 <= i <= |command|
        invariant Valid() && stream == old(stream) && parser.buffer == old(parser.buffer)
        invariant stream.written == old(stream.written) + Joined(command[..i])
        invariant parser.Remaining() == old(parser.Remaining())
        invariant i > 0 ==> FaultOf(stream.writeMode).None?
      {
        var f := stream.Write(command[i]);
        if f.Some? {
          Disconnect();
          return Some(WriteFailure(f.value));
        }
        JoinedSnoc(command, i);
        i := i + 1;
      }
      assert command[..i] == command;
      err := None;
    }

    /** connect: nothing to do when connected; otherwise a new stream and the handshake. */
    method Connect() returns (err: Option<Error>)
      requires Valid()
      modifies this, parser, net, stream, parser.buffer
      ensures Valid() && Renewed()
      ensures (State(), net.dials, err) == AfterConnect(old(State()), old(net.dials), settings)
      decreases if stream == null then 1 else 0, 0
    {
      if stream != null {
        return None;
      }
      var d := net.Dial();
      if d.Refused? {
        return Some(ConnectionError(ConnectFailed(d.args)));
      }
      stream := d.stream;
      err := OnConnect();
      if err.Some? && IsRedisError(err.value) {
        Disconnect();
      }
    }

    /** on_connect: the parser takes the new stream, then the handshake. */
    method OnConnect() returns (err: Option<Error>)
      requires stream != null && !stream.closed && parser.stream == null && parser.buffer == null
      requires parser.classify == settings.classify
      modifies this, parser, net, stream
      ensures Valid() && Renewed()
      ensures (State(), err) == AfterHandshake(Up(old(stream.Incoming()), EndFailure(old(stream).readEnd),
                                                   FaultOf(old(stream).writeMode), old(stream.written)), settings)
      ensures net.dials == old(net.dials)
      decreases 0, 4
    {
      parser.OnConnect(stream);
      err := None;
      if settings.password != [] {
        err := Exchange([AUTH, settings.password], AuthenticationError);
      }
      if err.None? && settings.db != 0 {
        err := Exchange([SELECT, FormatInt(settings.db)], ConnectionError(InvalidDatabase));
      }
    }

    /** One handshake command and the check of its reply. */
    method Exchange(args: seq<seq<byte>>, rejected: Error) returns (err: Option<Error>)
      requires Valid() && stream != null
      modifies this, parser, net, stream, parser.buffer
      ensures Valid() && Renewed()
      ensures (State(), err) == AfterExchange(old(State()), args, rejected, settings.classify)
      ensures net.dials == old(net.dials)
      decreases 0, 3
    {
      err := SendCommand(args);
      if err.None? {
        var r := ReadResponse();
        if r.Fail? {
          err := Some(r.error);
        } else {
          var text := NativeStr(r.value);
          err := if text.None? then Some(AttributeError) else if text.value == OK then None else Some(rejected);
        }
      }
    }

    /** send_packed_command: connect when needed, then write the items. */
    method SendPackedCommand(command: seq<seq<byte>>) returns (err: Option<Error>)
      requires Valid()
      modifies this, parser, net, stream, parser.buffer
      ensures Valid() && Renewed()
      ensures (State(), net.dials, err) == AfterSend(old(State()), old(net.dials), command, settings)
      decreases if stream == null then 1 else 0, 1
    {
      err := Connect();
      if err.None? {
        err := WriteItems(command);
      }
    }

    /** send_command: pack the arguments and send them. */
    method SendCommand(args: seq<seq<byte>>) returns (err: Option<Error>)
      requires Valid()
      modifies this, parser, net, stream, parser.buffer
      ensures Valid() && Renewed()
      ensures (State(), net.dials, err) == AfterSend(old(State()), old(net.dials), [Pack(args)], settings)
      decreases if stream == null then 1 else 0, 2
    {
      err := SendPackedCommand([Pack(args)]);
    }
  }
}
