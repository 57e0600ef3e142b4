/** AsyncStrictRedis of gredis/client.py: a command is sent on a connection checked out of the
    pool, its reply read and passed through the command's response callback, and a dropped or
    timed-out connection is retried once.  The method is proved against AfterExecute; the retry
    policy and the release of the connection are proved about it. */
module Clients {
  import opened Resp
  import opened Transport
  import opened StreamBuffers
  import opened Connections

  /** response_callbacks: the function applied to the reply of each registered command. */
  type Callbacks = map<seq<byte>, Value -> Value>

  // ---------------------------------------------------------------------------------------
  // The specification

  /** parse_response: read the reply, then apply the command's callback when it has one. */
  function AfterParse(l: Link, name: seq<byte>, callbacks: Callbacks, classify: seq<byte> -> ErrorClass)
    : (r: (Link, Result<Value>))
    ensures r.0 == AfterRead(l, classify).0
    ensures r.1.Fail? || name !in callbacks ==> r == AfterRead(l, classify)
  {
    var got := AfterRead(l, classify);
    (got.0, if got.1.Ok? && name in callbacks then Ok(callbacks[name](got.1.value)) else got.1)
  }

  /** One attempt of execute_command: send the command, then parse its reply. */
  function AfterAttempt(l: Link, dials: seq<DialOutcome>, args: seq<seq<byte>>, settings: Settings,
                        callbacks: Callbacks): (r: (Link, seq<DialOutcome>, Result<Value>))
    requires args != []
    ensures r.2.Ok? ==> r.0.Up?
    ensures l.Up? ==> r.1 == dials
  {
    var sent := AfterSend(l, dials, [Pack(args)], settings);
    if sent.2.Some? then (sent.0, sent.1, Fail(sent.2.value))
    else
      var parsed := AfterParse(sent.0, args[0], callbacks, settings.classify);
      (parsed.0, sent.1, parsed.1)
  }

  /** What execute_command does with the exception of its first attempt. */
  datatype Recovery =
    | Retry      // disconnect, then send and parse once more
    | Reraise    // disconnect, then raise it
    | Propagate  // raise it, connection untouched

  function RecoveryOf(e: Error, retryOnTimeout: bool): Recovery {
    if !(e.ConnectionError? || e.TimeoutError?) then Propagate
    else if !retryOnTimeout && e.TimeoutError? then Reraise
    else Retry
  }

  /** execute_command with the retry's send completing before its read. */
  function AfterExecute(l: Link, dials: seq<DialOutcome>, args: seq<seq<byte>>, settings: Settings,
                        callbacks: Callbacks): (r: (Link, seq<DialOutcome>, Result<Value>))
    requires args != []
    ensures r.2.Ok? ==> r.0.Up?
  {
    var first := AfterAttempt(l, dials, args, settings, callbacks);
    if first.2.Ok? then first
    else
      match RecoveryOf(first.2.error, settings.retryOnTimeout)
      case Propagate => first
      case Reraise => (Down, first.1, first.2)
      case Retry => AfterAttempt(Down, first.1, args, settings, callbacks)
  }

  /** execute_command as written: the resend is started but not waited for, so the reply is
      read from the connection that was just disconnected, before the resend reconnects it. */
  function AfterExecuteAsWritten(l: Link, dials: seq<DialOutcome>, args: seq<seq<byte>>, settings: Settings,
                                 callbacks: Callbacks): (r: (Link, seq<DialOutcome>, Result<Value>))
    requires args != []
    ensures r.2.Ok? ==> r.0.Up?
  {
    var first := AfterAttempt(l, dials, args, settings, callbacks);
    if first.2.Ok? then first
    else
      match RecoveryOf(first.2.error, settings.retryOnTimeout)
      case Propagate => first
      case Reraise => (Down, first.1, first.2)
      case Retry =>
        var parsed := AfterParse(Down, args[0], callbacks, settings.classify);
        (parsed.0, first.1, parsed.1)
  }

  // ---------------------------------------------------------------------------------------
  // What execute_command promises

  /** A ConnectionError is retried whatever retry_on_timeout says, a TimeoutError only when it
      is set, and nothing else is retried. */
  lemma {:induction false} RetryPolicy(e: Error, retryOnTimeout: bool)
    ensures RecoveryOf(e, retryOnTimeout) == Retry <==> e.ConnectionError? || (e.TimeoutError? && retryOnTimeout)
    ensures RecoveryOf(e, retryOnTimeout) == Reraise <==> e.TimeoutError? && !retryOnTimeout
    ensures RecoveryOf(e, retryOnTimeout) == Propagate <==> !e.ConnectionError? && !e.TimeoutError?
  {
  }

  /** A reply read whole is passed through the command's callback, when it has one; an error
      reply is raised as a ResponseError. */
  lemma {:induction false} ParseApplies(l: Link, name: seq<byte>, callbacks: Callbacks, v: Value, rest: seq<byte>,
                                        classify: seq<byte> -> ErrorClass)
    requires l.Up? && l.inbox == Encode(v) + rest && Encodable(v, classify)
    ensures AfterParse(l, name, callbacks, classify).0 == l.(inbox := rest)
    ensures AfterParse(l, name, callbacks, classify).1
         == if v.Err? then Fail(ResponseError(v.message))
            else if name in callbacks then Ok(callbacks[name](v)) else Ok(v)
  {
    ReadEncoded(l, v, rest, classify);
  }

  /** An error reply is neither a ConnectionError nor a TimeoutError: it is raised at once,
      with the connection left up and no second send. */
  lemma {:induction false} ErrorReplyNotRetried(l: Link, dials: seq<DialOutcome>, args: seq<seq<byte>>, settings: Settings,
                                                callbacks: Callbacks, message: seq<byte>, rest: seq<byte>)
    requires args != [] && l.Up? && l.fault.None? && l.inbox == Encode(Err(message)) + rest
    requires Encodable(Err(message), settings.classify)
    ensures AfterExecute(l, dials, args, settings, callbacks)
         == (Up(rest, l.end, None, l.written + Pack(args)), dials, Fail(ResponseError(message)))
  {
    var sentLink := l.(written := l.written + Pack(args));
    assert Joined([Pack(args)]) == Pack(args);
    assert AfterSend(l, dials, [Pack(args)], settings) == (sentLink, dials, None);
    ParseApplies(sentLink, args[0], callbacks, Err(message), rest, settings.classify);
  }

  /** A server that answers AUTH or SELECT with an error reply (a wrong password, a database
      index out of range): connect raises that ResponseError and disconnects, and
      execute_command raises it without a retry, the command never written. */
  lemma {:induction false} HandshakeErrorNotRetried(dials: seq<DialOutcome>, args: seq<seq<byte>>, settings: Settings,
                                                    callbacks: Callbacks, peer: Peer, more: seq<DialOutcome>,
                                                    message: seq<byte>, rest: seq<byte>)
    requires args != [] && dials == [Accept(peer)] + more && peer.writeMode == Accepting
    requires Encodable(Err(message), settings.classify)
    requires (settings.password != [] && peer.sent == Encode(Err(message)) + rest) ||
             (settings.db != 0 && peer.sent == (if settings.password != [] then Okay else []) + (Encode(Err(message)) + rest))
    ensures AfterExecute(Down, dials, args, settings, callbacks) == (Down, more, Fail(ResponseError(message)))
  {
    if settings.password != [] && peer.sent == Encode(Err(message)) + rest {
      AuthErrorReply(peer, more, settings, message, rest);
    } else {
      SelectErrorReply(peer, more, settings, Err(message), rest);
    }
  }

  /** A timeout without retry_on_timeout is raised after disconnecting, and nothing is sent
      again: no further connect outcome is used. */
  lemma {:induction false} TimeoutReraised(l: Link, dials: seq<DialOutcome>, args: seq<seq<byte>>, settings: Settings,
                                           callbacks: Callbacks)
    requires args != [] && !settings.retryOnTimeout
    requires AfterAttempt(l, dials, args, settings, callbacks).2.Fail?
    requires AfterAttempt(l, dials, args, settings, callbacks).2.error.TimeoutError?
    ensures AfterExecute(l, dials, args, settings, callbacks)
         == (Down, AfterAttempt(l, dials, args, settings, callbacks).1, AfterAttempt(l, dials, args, settings, callbacks).2)
  {
  }

  /** A send on a link that connect leaves up is the send on that link. */
  lemma {:induction false} SendAfterConnect(l: Link, dials: seq<DialOutcome>, command: seq<seq<byte>>, settings: Settings)
    requires AfterConnect(l, dials, settings).2.None?
    ensures AfterSend(l, dials, command, settings)
         == AfterSend(AfterConnect(l, dials, settings).0, AfterConnect(l, dials, settings).1, command, settings)
  {
  }

  /** The command sent on a connected link whose writes succeed: written once, its reply
      read and passed through the callback, no connect outcome used. */
  lemma {:induction false} AttemptConnected(l: Link, dials: seq<DialOutcome>, args: seq<seq<byte>>, settings: Settings,
                                            callbacks: Callbacks, v: Value, rest: seq<byte>)
    requires args != [] && l.Up? && l.fault.None? && l.inbox == Encode(v) + rest
    requires Encodable(v, settings.classify) && !v.Err?
    ensures AfterAttempt(l, dials, args, settings, callbacks)
         == (Up(rest, l.end, None, l.written + Pack(args)), dials,
             Ok(if args[0] in callbacks then callbacks[args[0]](v) else v))
  {
    var sentLink := l.(written := l.written + Pack(args));
    assert Joined([Pack(args)]) == Pack(args);
    assert AfterSend(l, dials, [Pack(args)], settings) == (sentLink, dials, None);
    ParseApplies(sentLink, args[0], callbacks, v, rest, settings.classify);
  }

  /** On a connected link whose writes succeed, the command is written once, its reply read
      and returned through the callback, and no connect outcome is used. */
  lemma {:induction false} ExecuteConnected(l: Link, dials: seq<DialOutcome>, args: seq<seq<byte>>, settings: Settings,
                                            callbacks: Callbacks, v: Value, rest: seq<byte>)
    requires args != [] && l.Up? && l.fault.None? && l.inbox == Encode(v) + rest
    requires Encodable(v, settings.classify) && !v.Err?
    ensures AfterExecute(l, dials, args, settings, callbacks)
         == (Up(rest, l.end, None, l.written + Pack(args)), dials,
             Ok(if args[0] in callbacks then callbacks[args[0]](v) else v))
  {
    AttemptConnected(l, dials, args, settings, callbacks, v, rest);
  }

  /** The retry: when the first attempt fails with an exception execute_command retries (a
      ConnectionError, or a TimeoutError with retry_on_timeout set), the next connect reaches a
      server that accepts the handshake and sends the reply, the command is resent on the new
      connection and its reply returned. */
  lemma {:induction false} RetryReconnects(l: Link, dials: seq<DialOutcome>, args: seq<seq<byte>>, settings: Settings,
                                           callbacks: Callbacks, peer: Peer, more: seq<DialOutcome>, v: Value, rest: seq<byte>)
    requires args != []
    requires AfterAttempt(l, dials, args, settings, callbacks).2.Fail?
    requires RecoveryOf(AfterAttempt(l, dials, args, settings, callbacks).2.error, settings.retryOnTimeout) == Retry
    requires AfterAttempt(l, dials, args, settings, callbacks).1 == [Accept(peer)] + more
    requires peer.writeMode == Accepting && peer.sent == Accepted(settings) + (Encode(v) + rest)
    requires Encodable(v, settings.classify) && !v.Err?
    ensures AfterExecute(l, dials, args, settings, callbacks)
         == (Up(rest, EndFailure(peer.readEnd), None, HandshakeCommands(settings) + Pack(args)), more,
             Ok(if args[0] in callbacks then callbacks[args[0]](v) else v))
  {
    var later := [Accept(peer)] + more;
    assert AfterExecute(l, dials, args, settings, callbacks) == AfterAttempt(Down, later, args, settings, callbacks);
    HandshakeSucceeds(peer, more, settings, Encode(v) + rest);
    var reopened := Up(Encode(v) + rest, EndFailure(peer.readEnd), None, HandshakeCommands(settings));
    SendAfterConnect(Down, later, [Pack(args)], settings);
    AttemptConnected(reopened, more, args, settings, callbacks, v, rest);
    assert AfterSend(reopened, more, [Pack(args)], settings) == AfterSend(Down, later, [Pack(args)], settings);
  }

  /** As written, every retry fails: the reply is read from the disconnected connection, which
      has no buffer, so the retry raises an AttributeError whatever the server would send. */
  lemma {:induction false} RetryAsWrittenFails(l: Link, dials: seq<DialOutcome>, args: seq<seq<byte>>, settings: Settings,
                                               callbacks: Callbacks)
    requires args != []
    requires AfterAttempt(l, dials, args, settings, callbacks).2.Fail?
    requires RecoveryOf(AfterAttempt(l, dials, args, settings, callbacks).2.error, settings.retryOnTimeout) == Retry
    ensures AfterExecuteAsWritten(l, dials, args, settings, callbacks)
         == (Down, AfterAttempt(l, dials, args, settings, callbacks).1, Fail(AttributeError))
  {
  }

  // ---------------------------------------------------------------------------------------
  // The pool and the client

  /** The connection pool, as execute_command uses it: the connections ready for use, the
      ones checked out, and (ghost) every release in order. */
  class ConnectionPool {
    var available: seq<AsyncConnection>
    var inUse: set<AsyncConnection>
    ghost var released: seq<AsyncConnection>
    const net: Network
    const settings: Settings

    /** Every connection in the pool talks to the pool's network with the pool's settings, is
        ready at most once, and is not both ready and checked out. */
    ghost predicate Valid()
      reads this
    {
      (forall i | 0 <= i < |available| :: available[i] !in inUse && available[i].net == net && available[i].settings == settings) &&
      (forall i, j | 0 <= i < j < |available| :: available[i] != available[j])
    }

    /** The connection get_connection hands out next, when there is one ready. */
    ghost function Next(): AsyncConnection
      reads this
      requires available != []
    {
      available[|available| - 1]
    }

    /** The objects the next connection handed out may change. */
    ghost function NextFootprint(): set<object?>
      reads this, if available == [] then {} else {Next(), Next().parser}
    {
      if available == [] then {} else {Next(), Next().parser, Next().stream, Next().parser.buffer}
    }

    /** The next connection handed out is consistent: a new one is, and so is every connection
        execute_command releases. */
    ghost predicate Ready()
      reads this, NextFootprint()
    {
      available != [] ==> Next().Valid()
    }

    /** The link of the next connection handed out: a new connection is down. */
    ghost function NextLink(): Link
      reads this, NextFootprint()
      requires Ready()
    {
      if available == [] then Down else Next().State()
    }

    constructor (net: Network, settings: Settings)
      ensures Valid() && available == [] && inUse == {} && released == []
      ensures this.net == net && this.settings == settings
    {
      this.net := net;
      this.settings := settings;
      available := [];
      inUse := {};
      released := [];
    }

    /** get_connection: the most recently released connection, or a new one. */
    method GetConnection() returns (c: AsyncConnection)
      requires Valid() && Ready()
      modifies this
      ensures old(available) != [] ==> c == old(Next()) && available == old(available[..|available| - 1])
      ensures c.Valid() && c.net == net && c.settings == settings
      ensures old(available) == [] ==> fresh(c) && fresh(c.parser) && available == [] && c.State() == Down
      ensures inUse == old(inUse) + {c} && released == old(released)
      ensures Valid() && c !in available
    {
      if available == [] {
        c := new AsyncConnection(net, settings);
      } else {
        c := available[|available| - 1];
        available := available[..|available| - 1];
      }
      inUse := inUse + {c};
    }

    /** release: the connection is ready for use again. */
    method Release(c: AsyncConnection)
      requires c in inUse
      modifies this
      ensures available == old(available) + [c] && inUse == old(inUse) - {c}
      ensures released == old(released) + [c]
    {
      inUse := inUse - {c};
      available := available + [c];
      released := released + [c];
    }
  }

  class AsyncStrictRedis {
    const pool: ConnectionPool
    const callbacks: Callbacks

    constructor (pool: ConnectionPool, callbacks: Callbacks)
      ensures this.pool == pool && this.callbacks == callbacks
    {
      this.pool := pool;
      this.callbacks := callbacks;
    }

    /** parse_response: the reply, through the command's callback when it has one. */
    method ParseResponse(conn: AsyncConnection, name: seq<byte>) returns (r: Result<Value>)
      requires conn.Valid()
      modifies conn, conn.parser, conn.stream, conn.parser.buffer
      ensures conn.Valid() && conn.Renewed()
      ensures (conn.State(), r) == AfterParse(old(conn.State()), name, callbacks, conn.settings.classify)
    {
      r := conn.ReadResponse();
      if r.Ok? && name in callbacks {
        r := Ok(callbacks[name](r.value));
      }
    }

    /** One attempt: send the command and parse its reply; a failed send raises. */
    method Attempt(conn: AsyncConnection, args: seq<seq<byte>>) returns (r: Result<Value>)
      requires conn.Valid() && args != []
      modifies conn, conn.parser, conn.stream, conn.parser.buffer, conn.net
      ensures conn.Valid() && conn.Renewed()
      ensures (conn.State(), conn.net.dials, r)
           == AfterAttempt(old(conn.State()), old(conn.net.dials), args, conn.settings, callbacks)
    {
      var err := conn.SendCommand(args);
      if err.Some? {
        r := Fail(err.value);
      } else {
        r := ParseResponse(conn, args[0]);
      }
    }

    /** The body of execute_command's try: attempt the command, then disconnect after a
        ConnectionError or TimeoutError, and attempt it once more unless it is a timeout and
        retry_on_timeout is off. */
    method Run(conn: AsyncConnection, args: seq<seq<byte>>) returns (r: Result<Value>)
      requires conn.Valid() && args != []
      modifies conn, conn.parser, conn.stream, conn.parser.buffer, conn.net
      ensures conn.Valid()
      ensures (conn.State(), conn.net.dials, r)
           == AfterExecute(old(conn.State()), old(conn.net.dials), args, conn.settings, callbacks)
    {
      r := Attempt(conn, args);
      if r.Fail? && RecoveryOf(r.error, conn.settings.retryOnTimeout) != Propagate {
        conn.Disconnect();
        if RecoveryOf(r.error, conn.settings.retryOnTimeout) == Retry {
          // client.py starts this send without waiting for it (AfterExecuteAsWritten); here
          // the send completes before the reply is read.
          r := Attempt(conn, args);
        }
      }
    }

    /** execute_command: check a connection out, run the command on it, and release the
        connection on every way out. */
    method ExecuteCommand(args: seq<seq<byte>>) returns (r: Result<Value>)
      requires pool.Valid() && pool.Ready()
      modifies pool, pool.net, pool.NextFootprint()
      ensures args == [] ==> r == Fail(IndexError) && unchanged(pool, pool.net)
      ensures args != [] ==>
        |pool.released| == |old(pool.released)| + 1 && pool.released[..|old(pool.released)|] == old(pool.released)
      ensures args != [] ==>
        var conn := pool.released[|pool.released| - 1];
        (if old(pool.available) == [] then fresh(conn) && pool.available == [conn]
         else conn == old(pool.Next()) && pool.available == old(pool.available)) &&
        pool.inUse == old(pool.inUse) - {conn} && pool.Valid() &&
        conn.Valid() && (conn.State(), pool.net.dials, r)
          == AfterExecute(old(pool.NextLink()), old(pool.net.dials), args, pool.settings, callbacks)
    {
      if args == [] {
        return Fail(IndexError);
      }
      var conn := pool.GetConnection();
      r := Run(conn, args);
      pool.Release(conn);
    }
  }
}
