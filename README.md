# gredis core in Dafny

A model of gredis: an asynchronous Redis client for Tornado that reuses redis-py's
connection, pool and client classes and adds the asynchronous stream reader, the RESP parser
and the connection lifecycle. The model covers the core:

- **StreamBuffer** (`gredis/connection.py`). It is the byte buffer between Tornado's IOStream
  and the parser. It takes whole CRLF-terminated chunks from `read_until_regex` and keeps a
  read cursor and a write cursor. `read(n)` returns n bytes and consumes two more, pulling
  from the stream only when too few are buffered. `readline()` returns the first line without
  its CRLF.
- **AsyncParser** (`gredis/connection.py`). It is the RESP2 reader. It reads the header
  line, dispatches on its type byte (`-`, `+`, `:`, `$`, `*`), and reads array elements
  recursively in wire order.
- **AsyncConnection** (`gredis/connection.py`). It covers connect with the AUTH and SELECT
  handshake, disconnect, sending a packed command, and reading a response, including the
  mapping of transport failures onto redis-py's exceptions.
- **AsyncStrictRedis** (`gredis/client.py`). It covers `execute_command`: check a connection
  out of the pool, send, parse, retry once after a ConnectionError or TimeoutError, and
  release on every way out. It also covers `parse_response`, which looks up and applies the
  response callback.

Module layout: `Resp` (bytes, values, exceptions, the pure decoder `DecodeFrame` and the
encoder), `Transport` (Tornado's IOStream and TCPClient, the environment), `StreamBuffers`,
`Parser`, `Connections`, and `Clients`.

The model works in two layers.
- **Imperative classes.** The code that changes state step by step is modelled as classes
  whose methods update fields: `StreamBuffer`, `AsyncParser`, `AsyncConnection`,
  `ConnectionPool` and `AsyncStrictRedis`.
- **Pure specifications.** Every method is proved against a pure function of the old state:
  - `NextLine`/`NextRead` for the buffer;
  - `DecodeFrame` for the parser;
  - `AfterConnect`, `AfterSend` and `AfterRead` on the abstract `Link` for the connection;
  - `AfterExecute` for `execute_command`.

The properties are lemmas about those functions:
- round trips through the encoder;
- a decoded frame depends only on its own bytes;
- what the parser can raise;
- the outcomes of the handshake;
- the retry policy.

Where the code departs from redis-py's usual behaviour and from what the code's own docstrings
suggest, the model follows the code:
- A plain ConnectionError is retried whatever `retry_on_timeout` says. Only a TimeoutError
  depends on the flag (`gredis/client.py:45-49`).
- A SELECT answered with a string other than OK raises a ConnectionError, so
  `execute_command` retries it. AUTH answered with a string other than OK raises an
  AuthenticationError, which redis-py 2.10 does not derive from ConnectionError, so it
  propagates.
- Only a string reply reaches those comparisons with OK. Redis answers a wrong password or a
  database index out of range with an error reply. That reply is raised as a ResponseError,
  connect disconnects, and `execute_command` raises it without a retry
  (`Clients.HandshakeErrorNotRetried`).
- Connect disconnects only on a RedisError. A handshake reply that is not a string raises
  AttributeError from `nativestr` and leaves the connection up (`Connections.ConnectedIff`).
- A connection is released back to the pool whatever state it ended in, and the pool
  reuses it.

The outside world is a parameter:
- The server's bytes, the way reading ends (closed, timed out, socket error) and the way
  writes fail are a scripted `Peer`.
- The outcomes of successive TCP connects are a scripted list of `DialOutcome`s on the
  `Network`.
- redis-py's `parse_error` is a function `classify` from an error text to an `ErrorClass`.
- `response_callbacks` is a map from command name to a function on values.

## Model

| member | source | states |
|---|---|---|
| Resp.FindFrom | gredis/connection.py:77-92 | the index found is the first occurrence at or after the start, and none is missed |
| Resp.LineFrom | gredis/connection.py:77-92 | the line ends just past a CR LF and holds no LF before it |
| Resp.ParseInt | gredis/connection.py:158-170 | `int()` of a line accepts only text holding at least one digit (surrounding whitespace and a sign allowed); its partner ParseFormatInt gives the round trip |
| Resp.ParseFormatInt | gredis/connection.py:158-170 | `int()` of the decimal text of an integer gives that integer back |
| Resp.ParseHeader | gredis/connection.py:137-177 | the dispatch on the type byte fails only with a parser error (ConnectionError, ValueError, InvalidResponse); only `$` announces a payload and only `*` announces elements |
| Resp.DecodeBody | gredis/connection.py:137-182 | a frame with a non-empty header line ends at or after that line and within the bytes |
| Resp.DecodeFrame | gredis/connection.py:130-182 | a decoded frame ends after its start and within the bytes |
| Resp.DecodeElements | gredis/connection.py:168-177 | an array's elements, when all decode, are exactly the count asked for |
| Resp.DecodeFrameExtends | gredis/connection.py:130-182 | a frame that decodes or raises on some bytes does the same whatever bytes follow: the result depends only on the frame's own bytes |
| Resp.DecodeBodyExtends | gredis/connection.py:137-182 | the same for a frame with a non-empty header line |
| Resp.DecodeElementsExtends | gredis/connection.py:168-177 | the same for the elements of an array |
| Resp.DecodeFrameRaises | gredis/connection.py:130-182 | decoding itself raises only a ConnectionError (empty line, error reply classed as a connection error), a ValueError from `int()`, or InvalidResponse for an unknown type byte; running out of bytes instead fails with the stream's end (EndFailure), and a parser with no buffer raises AttributeError |
| Resp.DecodeBodyRaises | gredis/connection.py:137-182 | the same for a frame with a non-empty header line |
| Resp.DecodeElementsRaises | gredis/connection.py:168-177 | the same for the elements of an array |
| Resp.LineFrameAt | gredis/connection.py:143-159 | a `+` line is a simple string and a `-` line classed as a response error is returned as an error value, the frame ending with its line |
| Resp.NumberFrameAt | gredis/connection.py:160-172 | a `:` line is its integer, and `$-1` is None |
| Resp.BulkFrameAt | gredis/connection.py:162-167 | `$n` is followed by n payload bytes and a CRLF that is dropped |
| Resp.ArrayFrameAt | gredis/connection.py:168-177 | `*m` followed by m decoded frames is the array of them, in wire order |
| Resp.DecodeEncode | gredis/connection.py:130-182 | every value the decoder can return, encoded and followed by any bytes, decodes back to itself, ending right after its encoding |
| Resp.DecodeLine | gredis/connection.py:143-159 | `+text` decodes to the text, `-message` to an error value |
| Resp.DecodeNumber | gredis/connection.py:158-166 | `:n` decodes to n, `$-1` to None |
| Resp.NilFrame | gredis/connection.py:162-172 | `$-1` and `*-1` both decode to None |
| Resp.DecodeBulk | gredis/connection.py:162-167 | an encoded bulk string decodes to its bytes |
| Resp.DecodeArray | gredis/connection.py:168-177 | an encoded array of decodable values decodes to the same array |
| Resp.DecodeEncodeAll | gredis/connection.py:174-177 | consecutive encoded values decode, in order, to the same values |
| Resp.DecodePack | gredis/connection.py:274-277 | a packed command is itself a RESP array of its arguments as bulk strings |
| StreamBuffers.EndFailure | gredis/connection.py:41-58 | a stream that ends gives a ConnectionError (closed, socket error) or a TimeoutError (timeout), never anything else |
| StreamBuffers.ReadlineEndsWithCrlf | gredis/connection.py:78-84 | BytesIO.readline's result ends in CRLF exactly when a complete line is buffered, and is then that line |
| StreamBuffers.NextLine | gredis/connection.py:76-92 | the line readline gives is a prefix of the bytes still to read, followed there by CRLF and holding no LF; when there is no such line, reading fails with the stream's end |
| StreamBuffers.NextRead | gredis/connection.py:60-74 | read(n) succeeds exactly when n + 2 bytes remain, and then gives the first n of them; otherwise it fails with the stream's end |
| StreamBuffers.StreamBuffer.constructor | gredis/connection.py:27-29 | a new buffer is empty and its bytes still to read are the stream's |
| StreamBuffers.StreamBuffer.Purge | gredis/connection.py:71-72 | purge empties the buffer and resets both cursors |
| StreamBuffers.StreamBuffer.PullChunk | gredis/connection.py:38-50 | one read_until_regex appends a whole chunk at the write cursor, or reports how the stream ended; the bytes still to read do not change |
| StreamBuffers.StreamBuffer.ReadFromStream | gredis/connection.py:31-58 | `_read_from_stream(length)` appends chunks until `length` new bytes (at least one chunk) are buffered, or fails with the stream's end when they never come; the bytes still to read do not change |
| StreamBuffers.StreamBuffer.Fill | gredis/connection.py:62-65 | read pulls from the stream only when fewer than n + 2 bytes are buffered, and then until enough are, or fails because fewer remain |
| StreamBuffers.StreamBuffer.Consume | gredis/connection.py:68-72 | the read cursor advances over the bytes taken, and the buffer is purged once fully read |
| StreamBuffers.StreamBuffer.TakeBytes | gredis/connection.py:67-74 | the bytes taken are the next n + 2 of those still to read (all that are buffered when n + 2 is negative), less the last two |
| StreamBuffers.StreamBuffer.Read | gredis/connection.py:60-74 | read(n) returns the next n bytes and advances over n + 2; it fails with the stream's end when fewer remain, and leaves the stream untouched when enough are buffered |
| StreamBuffers.StreamBuffer.ExtendLine | gredis/connection.py:81-84 | while no complete line is buffered, one more chunk is pulled, or the stream's end is raised when no line remains at all |
| StreamBuffers.StreamBuffer.TakeLine | gredis/connection.py:86-92 | the line returned is the first line still to read without its CRLF, and the read cursor moves past it |
| StreamBuffers.StreamBuffer.ReadLine | gredis/connection.py:76-92 | readline returns the first line still to read without its CRLF and consumes it, or fails with the stream's end when no line remains; it pulls nothing when a line is buffered |
| Parser.AsyncParser.constructor | gredis/connection.py:98-102 | a new parser holds no stream and no buffer |
| Parser.AsyncParser.OnConnect | gredis/connection.py:110-114 | the parser takes the stream and a new empty buffer over it, so the bytes it will decode are the stream's |
| Parser.AsyncParser.OnDisconnect | gredis/connection.py:116-125 | the stream is closed and the buffer purged, and both are let go |
| Parser.AsyncParser.ReadResponse | gredis/connection.py:130-182 | without a buffer an AttributeError; otherwise exactly the decoded frame at the head of the bytes still to read (or the exception decoding raises, or the stream's end), and on success the bytes left are those after the frame |
| Parser.AsyncParser.ReadFromLine | gredis/connection.py:131-135 | readline, then an empty line is a ConnectionError and any other line is dispatched, with the outcome DecodeFrame gives |
| Parser.AsyncParser.ReadHeader | gredis/connection.py:131-132 | the header line read is the line of the bytes from the frame's start, or the stream's end when there is none |
| Parser.AsyncParser.ReadFrame | gredis/connection.py:137-182 | the dispatch on the type byte gives the outcome DecodeBody gives |
| Parser.AsyncParser.ReadBulk | gredis/connection.py:162-167 | `$` parses the length and reads the payload, with the outcome DecodeBody gives |
| Parser.AsyncParser.ReadPayload | gredis/connection.py:167 | read(n) of a bulk string gives its n bytes (nothing for a length below -1) and consumes the CRLF after them |
| Parser.AsyncParser.ReadArray | gredis/connection.py:168-177 | `*` parses the count and reads the elements, with the outcome DecodeBody gives |
| Parser.AsyncParser.ReadElements | gredis/connection.py:173-177 | the loop reads the elements in wire order and gives the array DecodeElements gives, or the first element's failure |
| Parser.AsyncParser.ReadElement | gredis/connection.py:175-177 | each element is a recursive read_response from where the previous ended |
| Parser.ElementsFailLater | gredis/connection.py:174-177 | once an element fails, the whole array fails the same way |
| Connections.WriteFailure | gredis/connection.py:258-269 | a write failure maps to a TimeoutError exactly for StreamClosedError and to a ConnectionError exactly for a socket error with one or two arguments |
| Connections.AfterWrite | gredis/connection.py:252-269 | a write either appends every item to what the server received, leaving all else unchanged, or raises and disconnects |
| Connections.AfterRead | gredis/connection.py:289-301 | a reply read successfully leaves the connection up; a read that keeps it up changes only the unread bytes, and consumes at least one byte from their front |
| Connections.NativeStr | gredis/connection.py:223-234 | nativestr gives the text of a simple or bulk string reply and fails on any other reply (an error reply is raised before it gets here); ExchangeOutcome shows that failure leaves the connection up |
| Connections.AfterExchange | gredis/connection.py:223-228 | a handshake step that raises nothing leaves the connection up |
| Connections.AfterAuth | gredis/connection.py:223-228 | the AUTH step, when it raises nothing, leaves the connection up |
| Connections.AfterHandshake | gredis/connection.py:219-234 | a handshake that raises nothing leaves the connection up |
| Connections.AfterConnect | gredis/connection.py:195-212 | a connect that raises nothing leaves the connection up |
| Connections.AfterSend | gredis/connection.py:247-272 | a send that raises nothing leaves the connection up, and a connected link makes no new connect |
| Connections.ReadEncoded | gredis/connection.py:289-301 | a reply read whole is consumed and returned, and an error reply is raised as a ResponseError with the connection left up |
| Connections.ReadNil | gredis/connection.py:162-172 | `$-1` and `*-1` are read as None and consumed |
| Connections.ReadFailureDisconnects | gredis/connection.py:289-299 | a failed read disconnects exactly when it raises something other than an error reply, and it raises an AttributeError exactly when there is no stream |
| Connections.ExchangeOutcome | gredis/connection.py:219-234 | a handshake step that raises an AttributeError leaves the connection up, and one that raises anything else outside RedisError has disconnected |
| Connections.ConnectedIff | gredis/connection.py:195-212 | after connect the connection is up exactly when connect raised nothing or an AttributeError |
| Connections.ExchangeAccepted | gredis/connection.py:223-234 | a handshake command answered +OK is written once, its reply consumed, nothing raised |
| Connections.ExchangeRejected | gredis/connection.py:223-234 | a handshake command answered with a string other than OK raises the step's error |
| Connections.AuthAccepted | gredis/connection.py:223-228 | AUTH answered +OK, or no password, lets the handshake go on |
| Connections.HandshakeAccepted | gredis/connection.py:219-234 | AUTH (when there is a password) and SELECT (when db is not 0) answered +OK: both written in that order, both replies consumed, nothing raised |
| Connections.HandshakeSucceeds | gredis/connection.py:195-234 | connecting to a server that accepts the handshake leaves the connection up with the handshake written and its replies consumed, and uses one connect outcome |
| Connections.AuthRejected | gredis/connection.py:219-228 | AUTH answered with a string other than OK raises AuthenticationError and disconnects |
| Connections.HandshakeSelectRejected | gredis/connection.py:219-234 | SELECT answered with a string other than OK raises a ConnectionError after AUTH succeeded |
| Connections.SelectRejected | gredis/connection.py:195-234 | a connect whose SELECT is rejected raises a ConnectionError and disconnects |
| Connections.ExchangeErrorReply | gredis/connection.py:223-234 | a handshake step answered with an error reply raises it as a ResponseError, before its text is compared with OK; the command is written once and the reply consumed |
| Connections.AuthErrorReply | gredis/connection.py:195-228 | AUTH answered with an error reply makes connect raise that ResponseError and disconnect |
| Connections.HandshakeSelectErrorReply | gredis/connection.py:219-234 | SELECT answered with an error reply, after AUTH succeeded, raises that ResponseError |
| Connections.SelectErrorReply | gredis/connection.py:195-234 | a connect whose SELECT is answered with an error reply raises that ResponseError, not the ConnectionError of a rejected SELECT, and disconnects |
| Connections.SendFailureDisconnects | gredis/connection.py:247-272 | on a connected link a failed write disconnects and raises the mapped error, and no connect is attempted |
| Connections.AsyncConnection.constructor | gredis/connection.py:186-193 | a new connection is disconnected |
| Connections.AsyncConnection.Disconnect | gredis/connection.py:236-245 | disconnect leaves the connection down whatever state it was in, and so is idempotent; the stream is closed and nothing more is written |
| Connections.AsyncConnection.ReadResponse | gredis/connection.py:289-301 | read_response moves the connection as AfterRead says: the frame is consumed, a failure disconnects, an error reply is raised |
| Connections.AsyncConnection.WriteItems | gredis/connection.py:252-256 | every item is written in order, or the first write failure disconnects and raises the mapped error |
| Connections.AsyncConnection.Connect | gredis/connection.py:195-212 | connect is a no-op when connected; otherwise it dials, hands over to the handshake, and disconnects on a RedisError, as AfterConnect says |
| Connections.AsyncConnection.OnConnect | gredis/connection.py:219-234 | the parser takes the new stream, then AUTH and SELECT run as AfterHandshake says, with no further connect |
| Connections.AsyncConnection.Exchange | gredis/connection.py:223-228 | a handshake command is sent, its reply read and checked for OK, as AfterExchange says |
| Connections.AsyncConnection.SendPackedCommand | gredis/connection.py:247-272 | send_packed_command connects when needed, then writes, as AfterSend says |
| Connections.AsyncConnection.SendCommand | gredis/connection.py:274-277 | send_command sends the packed arguments |
| Clients.AfterParse | gredis/client.py:55-60 | the callback never touches the connection, and a failed read, or a command with no callback, gives exactly what read_response gave |
| Clients.AfterAttempt | gredis/client.py:42-43 | an attempt that returns a reply leaves the connection up, and a connected link makes no new connect |
| Clients.RecoveryOf | gredis/client.py:45-49 | what execute_command does with the first attempt's exception; RetryPolicy states it as three if-and-only-ifs |
| Clients.AfterExecute | gredis/client.py:35-51 | execute_command with the retry's resend completed before its read: a returned reply leaves the connection up; ExecuteConnected, ErrorReplyNotRetried, TimeoutReraised and RetryReconnects give its outcomes |
| Clients.AfterExecuteAsWritten | gredis/client.py:35-51 | execute_command as written, the resend not waited for: a returned reply leaves the connection up; RetryAsWrittenFails shows every retry raising AttributeError |
| Clients.RetryPolicy | gredis/client.py:45-49 | a ConnectionError is retried whatever retry_on_timeout says, a TimeoutError is retried only when it is set and re-raised otherwise, and every other exception propagates |
| Clients.ParseApplies | gredis/client.py:55-60 | the reply is passed through the command's callback when one is registered and returned unchanged otherwise; an error reply raises |
| Clients.AttemptConnected | gredis/client.py:42-43 | on a connected link the command is written once and its reply returned |
| Clients.ExecuteConnected | gredis/client.py:35-44 | on a connected link whose writes succeed, execute_command writes the command once, returns its reply through the callback and connects nothing |
| Clients.ErrorReplyNotRetried | gredis/client.py:41-53 | an error reply raises a ResponseError at once: no retry, no disconnect |
| Clients.HandshakeErrorNotRetried | gredis/client.py:41-53 | an error reply to AUTH or SELECT while execute_command connects is raised as a ResponseError without a retry; the connection is left down and the command is never written |
| Clients.TimeoutReraised | gredis/client.py:45-48 | a timeout without retry_on_timeout disconnects and is re-raised, with no second send |
| Clients.RetryReconnects | gredis/client.py:45-51 | after any exception that is retried (a ConnectionError, or a TimeoutError with retry_on_timeout set), the command is resent on a new connection that passes the handshake, and the reply to the resend is returned |
| Clients.RetryAsWrittenFails | gredis/client.py:45-50 | as written, every retry (after a ConnectionError, or a TimeoutError with retry_on_timeout set) raises AttributeError and leaves the connection down, because the resend is not waited for |
| Clients.ConnectionPool.constructor | gredis/client.py:30-32 | a new pool holds no connections and has released none |
| Clients.ConnectionPool.GetConnection | gredis/client.py:40 | get_connection hands out the most recently released connection, or a new disconnected one when none is ready, and marks it in use |
| Clients.ConnectionPool.Release | gredis/client.py:53 | release of a checked-out connection (releasing any other raises KeyError in redis-py) makes it ready again and logs the release |
| Clients.AsyncStrictRedis.constructor | gredis/client.py:30-32 | the client keeps its pool and callbacks |
| Clients.AsyncStrictRedis.ParseResponse | gredis/client.py:55-60 | parse_response reads the reply and applies the callback, as AfterParse says |
| Clients.AsyncStrictRedis.Attempt | gredis/client.py:42-43 | one send followed by one parse; a failed send raises |
| Clients.AsyncStrictRedis.Run | gredis/client.py:41-51 | the attempt and at most one retry, with a disconnect before the retry or re-raise, as AfterExecute says (the retry's resend completes before its read) |
| Clients.AsyncStrictRedis.ExecuteCommand | gredis/client.py:35-53 | a command with no name raises IndexError and touches nothing; otherwise the connection checked out is released exactly once, the pool's ready connections are as before (or just the new one), and the outcome is AfterExecute's |

## Left out

- Bytes the server sends after its last CRLF are never delivered. read_until_regex never hands them over, so no read can see them.
- `pack_command` is redis-py code and is not part of this model. A command is packed as one RESP array of bulk strings, written as one item. The chunking of large arguments and the branch for a command given as one string are left out.
- `encoder.decode` is taken as the identity on bytes.
- `socket_read_size` is unused by the reads this model covers, so it is left out.
- `can_read` (parser and connection), `__del__`, the weak proxy to the stream, and `to_blocking_connection` are left out: none of them is in the read/send/connect path.
- `to_blocking_client`, `pipeline`, `pubsub` and `_construct_connection_pool` are left out: they build redis-py blocking objects.
- The stray `self.encoding = None` in `on_disconnect` is left out: it sets an attribute nothing reads.
- Tornado's event loop and the interleaving of coroutines are left out. Each operation runs to completion, with every yielded step in order.
- The pool's `max_connections`, its fork (pid) checks, and the command name and `**options` passed to `get_connection` and to callbacks are left out. That code is in redis-py, and its pool ignores the command name.
- A response callback that raises is left out: callbacks are total functions on values.
- Clients.AsyncStrictRedis.Run / ExecuteCommand: the retry's resend completes before its reply is read (AfterExecute), which is what the code evidently intends; the code as written, where the resend is not waited for, is modelled by Clients.AfterExecuteAsWritten (see Findings).
- Clients.RetryAsWrittenFails: models only what the retry returns. The unawaited resend still runs later and reconnects a connection already released to the pool; that effect is not modelled.
- A scripted peer has one write behaviour for the whole life of its connection: the model cannot represent a connection whose earlier writes succeed and a later one fails (AUTH written, then SELECT's write failing; a pooled connection that starts failing on write). No proved property depends on this.
- Exception messages are left out. The model keeps which exception is raised and the data it carries (socket error arguments, error text, errno), not the formatted text.
- `StreamClosedError` swallowed in `disconnect` is left out: closing a stream never raises here.
- Integers are Python integers: the model uses unbounded `int`, and there is no width to model.
- Resp.ParseInt: follows `int()` of Python 2 and of Python 3 up to 3.5, the versions the package declares. The underscores between digits that Python 3.6 and later accept (`1_0`) are left out.

## Findings

| source | as written | input that shows it | evidently intended | confidence | as-written member | corrected member |
|---|---|---|---|---|---|---|
| gredis/client.py:49 | the resend in the `except` branch is started but not waited for; the send suspends in the reconnect, so the reparse reads from the just-disconnected connection, whose parser has no buffer, and raises AttributeError | any command whose first attempt raises a ConnectionError, for example because the server closed an idle pooled connection | wait for the resend, so the command goes out on a reconnected, handshaken connection and its reply is returned | not executed | Clients.AfterExecuteAsWritten, Clients.RetryAsWrittenFails | Clients.AfterExecute, Clients.AsyncStrictRedis.Run, Clients.RetryReconnects |
