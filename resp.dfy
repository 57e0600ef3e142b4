/** RESP2, the Redis serialisation protocol, as the decoder of gredis/connection.py reads it.
    This module is pure: byte sequences, the decoded values, the exceptions the client raises,
    and a decode function over the bytes that remain to be read.  The imperative reader in
    StreamBuffers and Parser is proved to agree with DecodeFrame. */
module Resp {

  type byte = b: int | 0 <= b < 256

  const CR: byte := 13
  const LF: byte := 10
  const PLUS: byte := 43    // '+'
  const MINUS: byte := 45   // '-'
  const COLON: byte := 58   // ':'
  const DOLLAR: byte := 36  // '$'
  const STAR: byte := 42    // '*'
  const ZERO: byte := 48    // '0'
  const CRLF: seq<byte> := [CR, LF]
  const OK: seq<byte> := [79, 75]
  const ServerClosedMessage: string := "Connection closed by server."

  datatype Option<T> = None | Some(value: T)

  /** One decoded RESP value.  `$-1` and `*-1` both decode to Null, as both become None. */
  datatype Value =
    | Simple(text: seq<byte>)
    | Err(message: seq<byte>)
    | Int(n: int)
    | Bulk(data: seq<byte>)
    | Null
    | Array(items: seq<Value>)

  /** What redis-py's parse_error makes of an error line: a ConnectionError subclass
      (raised at once) or a ResponseError subclass (returned as a value). */
  datatype ErrorClass = ConnectionClass | ResponseClass

  /** Why a redis-py ConnectionError was raised. */
  datatype ConnectionReason =
    | ServerClosed                              // empty line: "Connection closed by server."
    | ReadFailed(args: seq<string>)             // the arguments of the socket error met while reading
    | WriteFailed(errno: string, detail: string) // socket error while writing
    | ConnectFailed(args: seq<string>)          // the arguments of the socket error TCP connect raised
    | InvalidDatabase                           // SELECT was not answered with OK
    | ServerReported(message: seq<byte>)        // error reply classified as a ConnectionError

  datatype Phase = Reading | Writing

  /** The exceptions that leave the core, named after the Python classes. */
  datatype Error =
    | ConnectionError(reason: ConnectionReason)
    | TimeoutError(phase: Phase)
    | AuthenticationError
    | InvalidResponse(tag: byte)
    | ResponseError(message: seq<byte>)
    | ValueError                 // int() rejected a length or an integer line
    | AttributeError             // an attribute of None, or a non-string handshake reply
    | WriteError(detail: string) // any other exception of the transport's write, re-raised
    | IndexError                 // a command with no name

  datatype Result<T> = Ok(value: T) | Fail(error: Error)

  /** Subclasses of redis.exceptions.RedisError (redis-py 2.10 hierarchy). */
  predicate IsRedisError(e: Error) {
    !(e.ValueError? || e.AttributeError? || e.WriteError? || e.IndexError?)
  }

  // ---------------------------------------------------------------------------------------
  // Searching

  /** Index of the first occurrence of `b` in `s` at or after `i`. */
  function FindFrom(s: seq<byte>, b: byte, i: nat): (r: Option<nat>)
    requires i <= |s|
    ensures r.Some? ==> i <= r.value < |s| && s[r.value] == b
    ensures r.Some? ==> forall j :: i <= j < r.value ==> s[j] != b
    ensures r.None? ==> forall j :: i <= j < |s| ==> s[j] != b
    decreases |s| - i
  {
    if i == |s| then None
    else if s[i] == b then Some(i)
    else FindFrom(s, b, i + 1)
  }

  /** Index of the first occurrence of `b` in `s`. */
  function FirstIndex(s: seq<byte>, b: byte): (r: Option<nat>)
    ensures r.Some? ==> r.value < |s| && s[r.value] == b
    ensures r.Some? ==> forall j :: 0 <= j < r.value ==> s[j] != b
    ensures r.None? ==> forall j :: 0 <= j < |s| ==> s[j] != b
  {
    FindFrom(s, b, 0)
  }

  /** The line BytesIO.readline returns from `u`: up to and including the first LF,
      or all of `u` when it holds no LF. */
  function ReadlineOf(u: seq<byte>): (d: seq<byte>)
  {
    match FirstIndex(u, LF)
    case Some(j) => u[..j + 1]
    case None => u
  }

  predicate EndsWithCrlf(d: seq<byte>) {
    |d| >= 2 && d[|d| - 2] == CR && d[|d| - 1] == LF
  }

  /** The end (just past its CRLF) of the line of `s` that starts at `p`, when the line's first
      LF follows a CR.  None when no LF follows `p` or the first one is bare: the reader then
      never completes that line. */
  function LineFrom(s: seq<byte>, p: nat): (r: Option<nat>)
    requires p <= |s|
    ensures r.Some? ==> p + 2 <= r.value <= |s| && s[r.value - 2] == CR && s[r.value - 1] == LF
    ensures r.Some? ==> forall j :: p <= j < r.value - 1 ==> s[j] != LF
  {
    match FindFrom(s, LF, p)
    case Some(j) => if j > p && s[j - 1] == CR then Some(j + 1) else None
    case None => None
  }

  /** The length of the first line of `s`, CRLF included. */
  function LineAt(s: seq<byte>): (r: Option<nat>)
    ensures r.Some? ==> 2 <= r.value <= |s| && s[r.value - 2] == CR && s[r.value - 1] == LF
    ensures r.Some? ==> forall j :: 0 <= j < r.value - 1 ==> s[j] != LF
  {
    LineFrom(s, 0)
  }

  // ---------------------------------------------------------------------------------------
  // Python's int() on the bytes of a line (base 10, as in Python 2 and Python 3 up to 3.5)

  predicate IsSpace(b: byte) { b == 32 || 9 <= b <= 13 }
  predicate IsDigit(b: byte) { 48 <= b <= 57 }

  /** The first index at or after `i` whose byte is not whitespace, or |s|. */
  function SkipSpace(s: seq<byte>, i: nat): (j: nat)
    requires i <= |s|
    ensures i <= j <= |s|
    decreases |s| - i
  {
    if i < |s| && IsSpace(s[i]) then SkipSpace(s, i + 1) else i
  }

  /** The index just past the last byte before `j` (and from `lo` on) that is not whitespace. */
  function TrimSpace(s: seq<byte>, lo: nat, j: nat): (k: nat)
    requires lo <= j <= |s|
    ensures lo <= k <= j
    decreases j
  {
    if j > lo && IsSpace(s[j - 1]) then TrimSpace(s, lo, j - 1) else j
  }

  predicate DigitsIn(s: seq<byte>, lo: nat, hi: nat)
    requires lo <= hi <= |s|
  {
    forall i :: lo <= i < hi ==> IsDigit(s[i])
  }

  /** The number the decimal digits s[lo..hi] spell. */
  function DigitsValue(s: seq<byte>, lo: nat, hi: nat): nat
    requires lo <= hi <= |s| && DigitsIn(s, lo, hi)
    decreases hi - lo
  {
    if hi == lo then 0
    else
      assert IsDigit(s[hi - 1]);
      DigitsValue(s, lo, hi - 1) * 10 + (s[hi - 1] - ZERO)
  }

  /** int(line): surrounding ASCII whitespace, an optional sign, then one or more digits. */
  function ParseInt(s: seq<byte>): (r: Option<int>)
    ensures r.Some? ==> exists i :: 0 <= i < |s| && IsDigit(s[i])
  {
    var a := SkipSpace(s, 0);
    var b := TrimSpace(s, a, |s|);
    if b - a > 1 && (s[a] == MINUS || s[a] == PLUS) && DigitsIn(s, a + 1, b) then
      var magnitude: int := DigitsValue(s, a + 1, b);
      Some(if s[a] == MINUS then -magnitude else magnitude)
    else if b > a && DigitsIn(s, a, b) then Some(DigitsValue(s, a, b))
    else None
  }

  /** str(n) for a natural number: its decimal digits, without leading zeros. */
  function FormatNat(n: nat): (d: seq<byte>)
    ensures |d| > 0 && DigitsIn(d, 0, |d|)
  {
    if n < 10 then [ZERO + n] else FormatNat(n / 10) + [ZERO + n % 10]
  }

  function FormatInt(i: int): (d: seq<byte>)
    ensures |d| > 0 && LF !in d
  {
    if i < 0 then [MINUS] + FormatNat(-i) else FormatNat(i)
  }

  /** Digits followed by more bytes spell the same number. */
  lemma {:induction false} DigitsValuePrefix(x: seq<byte>, y: seq<byte>, lo: nat, hi: nat)
    requires lo <= hi <= |x| && DigitsIn(x, lo, hi)
    ensures DigitsIn(x + y, lo, hi) && DigitsValue(x + y, lo, hi) == DigitsValue(x, lo, hi)
    decreases hi - lo
  {
    assert forall i :: lo <= i < hi ==> (x + y)[i] == x[i];
    if hi > lo {
      DigitsValuePrefix(x, y, lo, hi - 1);
    }
  }

  /** Digits after a sign byte spell the same number as on their own. */
  lemma {:induction false} DigitsValueShift(c: byte, x: seq<byte>, j: nat)
    requires j <= |x| && DigitsIn(x, 0, j)
    ensures DigitsIn([c] + x, 1, 1 + j) && DigitsValue([c] + x, 1, 1 + j) == DigitsValue(x, 0, j)
  {
    assert forall i :: 1 <= i < 1 + j ==> ([c] + x)[i] == x[i - 1];
    if j > 0 {
      DigitsValueShift(c, x, j - 1);
    }
  }

  lemma {:induction false} DigitsOfFormatNat(n: nat)
    ensures DigitsValue(FormatNat(n), 0, |FormatNat(n)|) == n
  {
    if n >= 10 {
      var front := FormatNat(n / 10);
      DigitsOfFormatNat(n / 10);
      DigitsValuePrefix(front, [ZERO + n % 10], 0, |front|);
    }
  }

  /** Reading back what str() wrote gives the number again. */
  lemma {:induction false} ParseFormatInt(i: int)
    ensures ParseInt(FormatInt(i)) == Some(i)
  {
    var d := FormatInt(i);
    var n: nat := if i < 0 then -i else i;
    var digits := FormatNat(n);
    assert IsDigit(digits[0]) && IsDigit(digits[|digits| - 1]);
    assert d[|d| - 1] == digits[|digits| - 1];
    assert SkipSpace(d, 0) == 0;
    assert TrimSpace(d, 0, |d|) == |d|;
    DigitsOfFormatNat(n);
    if i < 0 {
      DigitsValueShift(MINUS, digits, |digits|);
    } else {
      assert d == digits && d[0] != MINUS && d[0] != PLUS;
    }
  }

  // ---------------------------------------------------------------------------------------
  // Decoding one frame from the bytes that remain to be read

  /** What the header line of a frame says, once its type byte has been dispatched on. */
  datatype Header =
    | Immediate(value: Value)   // the line is the whole frame
    | Failed(error: Error)      // the line raises
    | BulkOf(length: nat)       // `$N`, N >= 0: N payload bytes and a CRLF follow
    | ArrayOf(count: nat)       // `*M`, M >= 0: M frames follow

  /** The dispatch of AsyncParser.read_response on the first byte `tag` of a non-empty line;
      `rest` is the line after the tag, CRLF stripped. */
  function ParseHeader(tag: byte, rest: seq<byte>, classify: seq<byte> -> ErrorClass): (h: Header)
    ensures h.Failed? ==> ParserError(h.error)
    ensures h.BulkOf? ==> tag == DOLLAR
    ensures h.ArrayOf? ==> tag == STAR
  {
    if tag == MINUS then
      if classify(rest) == ConnectionClass then Failed(ConnectionError(ServerReported(rest)))
      else Immediate(Err(rest))
    else if tag == PLUS then Immediate(Simple(rest))
    else if tag == COLON then
      match ParseInt(rest)
      case None => Failed(ValueError)
      case Some(n) => Immediate(Int(n))
    else if tag == DOLLAR then
      match ParseInt(rest)
      case None => Failed(ValueError)
      case Some(n) =>
        // read(n) asks for n + 2 bytes; for n <= -2 that is nothing at all
        if n == -1 then Immediate(Null) else if n + 2 <= 0 then Immediate(Bulk([])) else BulkOf(n)
    else if tag == STAR then
      match ParseInt(rest)
      case None => Failed(ValueError)
      case Some(n) =>
        // range(n) is empty for every negative n
        if n == -1 then Immediate(Null) else ArrayOf(if n < 0 then 0 else n)
    else Failed(InvalidResponse(tag))
  }

  /** The bytes of `s` from `i` up to `j`, built one byte at a time: equal to `s[i..j]`
      (SliceIs), and it keeps the decoder's unfoldings free of sequence drops. */
  function Slice(s: seq<byte>, i: nat, j: nat): (d: seq<byte>)
    requires i <= j <= |s|
    ensures |d| == j - i
    decreases j - i
  {
    if i == j then [] else [s[i]] + Slice(s, i + 1, j)
  }

  lemma {:induction false} SliceIs(s: seq<byte>, i: nat, j: nat)
    requires i <= j <= |s|
    ensures Slice(s, i, j) == s[i..j]
    decreases j - i
  {
    if i < j {
      SliceIs(s, i + 1, j);
      assert s[i..j] == [s[i]] + s[i + 1..j];
    }
  }

  /** Bytes after `j` do not change the slice. */
  lemma {:induction false} SliceExtends(s: seq<byte>, t: seq<byte>, i: nat, j: nat)
    requires i <= j <= |s|
    ensures Slice(s + t, i, j) == Slice(s, i, j)
  {
    SliceIs(s, i, j);
    SliceIs(s + t, i, j);
    assert (s + t)[i..j] == s[i..j];
  }

  /** The slice that covers the middle part of a concatenation is that part. */
  lemma {:induction false} SliceMiddle(a: seq<byte>, b: seq<byte>, c: seq<byte>)
    ensures Slice(a + b + c, |a|, |a| + |b|) == b
  {
    SliceIs(a + b + c, |a|, |a| + |b|);
    assert (a + b + c)[|a|..|a| + |b|] == b;
  }

  /** The outcome of decoding the frame that starts at some position of `s`: its value and the
      position just past it, an exception, or Starved when `s` ends before the frame does (the
      reader then fails with whatever ends the stream). */
  datatype Decoded = Done(value: Value, end: nat) | Raised(error: Error) | Starved

  datatype DecodedList = ListDone(values: seq<Value>, end: nat) | ListRaised(error: Error) | ListStarved

  /** AsyncParser.read_response on the bytes of `s` from position `p` on. */
  function DecodeFrame(s: seq<byte>, p: nat, classify: seq<byte> -> ErrorClass): (d: Decoded)
    requires p <= |s|
    ensures d.Done? ==> p < d.end <= |s|
    decreases |s| - p, 0
  {
    match LineFrom(s, p)
    case None => Starved
    case Some(k) =>
      // an empty line means the server closed the connection
      if k == p + 2 then Raised(ConnectionError(ServerClosed)) else DecodeBody(s, p, k, classify)
  }

  /** The frame whose non-empty header line spans s[p..k], CRLF included: the header's tag
      byte and the text after it say what follows. */
  function DecodeBody(s: seq<byte>, p: nat, k: nat, classify: seq<byte> -> ErrorClass): (d: Decoded)
    requires p + 2 < k <= |s|
    ensures d.Done? ==> k <= d.end <= |s|
    decreases |s| - k, 2
  {
    match ParseHeader(s[p], Slice(s, p + 1, k - 2), classify)
    case Immediate(v) => Done(v, k)
    case Failed(e) => Raised(e)
    case BulkOf(n) => if k + n + 2 <= |s| then Done(Bulk(Slice(s, k, k + n)), k + n + 2) else Starved
    case ArrayOf(n) =>
      match DecodeElements(s, k, n, classify)
      case ListDone(vs, e) => Done(Array(vs), e)
      case ListRaised(e) => Raised(e)
      case ListStarved => Starved
  }

  /** `m` frames decoded one after the other from position `p`, in wire order. */
  function DecodeElements(s: seq<byte>, p: nat, m: nat, classify: seq<byte> -> ErrorClass): (d: DecodedList)
    requires p <= |s|
    ensures d.ListDone? ==> |d.values| == m && p <= d.end <= |s|
    decreases |s| - p, 1, m
  {
    if m == 0 then ListDone([], p)
    else
      match DecodeFrame(s, p, classify)
      case Raised(e) => ListRaised(e)
      case Starved => ListStarved
      case Done(v, e) => Prepend(v, DecodeElements(s, e, m - 1, classify))
  }

  function Prepend(v: Value, d: DecodedList): (r: DecodedList)
  {
    match d
    case ListDone(vs, e) => ListDone([v] + vs, e)
    case _ => d
  }

  /** The value a decoded frame stands for: a Starved decode fails with `end`. */
  function Outcome(d: Decoded, end: Error): (r: Result<Value>)
  {
    match d
    case Done(v, _) => Ok(v)
    case Raised(e) => Fail(e)
    case Starved => Fail(end)
  }

  // ---------------------------------------------------------------------------------------
  // Decoding is decided by the bytes of the frame alone

  /** FindFrom finds the first occurrence and no other. */
  lemma {:induction false} FindFromAt(s: seq<byte>, b: byte, i: nat, j: nat)
    requires i <= j < |s| && s[j] == b
    requires forall k :: i <= k < j ==> s[k] != b
    ensures FindFrom(s, b, i) == Some(j)
    decreases j - i
  {
    if i < j {
      FindFromAt(s, b, i + 1, j);
    }
  }

  lemma {:induction false} FindFromExtends(s: seq<byte>, t: seq<byte>, b: byte, i: nat)
    requires i <= |s| && FindFrom(s, b, i).Some?
    ensures FindFrom(s + t, b, i) == FindFrom(s, b, i)
  {
    var j := FindFrom(s, b, i).value;
    forall k | i <= k < j
      ensures (s + t)[k] != b
    {
      assert (s + t)[k] == s[k];
    }
    FindFromAt(s + t, b, i, j);
  }

  lemma {:induction false} FirstIndexExtends(s: seq<byte>, t: seq<byte>, b: byte)
    requires FirstIndex(s, b).Some?
    ensures FirstIndex(s + t, b) == FirstIndex(s, b)
  {
    FindFromExtends(s, t, b, 0);
  }

  lemma {:induction false} LineFromExtends(s: seq<byte>, t: seq<byte>, p: nat)
    requires p <= |s| && LineFrom(s, p).Some?
    ensures LineFrom(s + t, p) == LineFrom(s, p)
  {
    FindFromExtends(s, t, LF, p);
    var j := FindFrom(s, LF, p).value;
    assert (s + t)[j - 1] == s[j - 1];
  }

  lemma {:induction false} LineAtExtends(s: seq<byte>, t: seq<byte>)
    requires LineAt(s).Some?
    ensures LineAt(s + t) == LineAt(s)
  {
    LineFromExtends(s, t, 0);
  }

  /** Once the bytes hold a whole frame (or a frame that fails), bytes arriving after them do
      not change what is decoded: a reader that has seen more of the stream decides the same. */
  lemma {:induction false} DecodeFrameExtends(s: seq<byte>, t: seq<byte>, p: nat, classify: seq<byte> -> ErrorClass)
    requires p <= |s| && !DecodeFrame(s, p, classify).Starved?
    ensures DecodeFrame(s + t, p, classify) == DecodeFrame(s, p, classify)
    decreases |s| - p, 0
  {
    LineFromExtends(s, t, p);
    var k := LineFrom(s, p).value;
    if k > p + 2 {
      DecodeBodyExtends(s, t, p, k, classify);
    }
  }

  lemma {:induction false} DecodeBodyExtends(s: seq<byte>, t: seq<byte>, p: nat, k: nat, classify: seq<byte> -> ErrorClass)
    requires p + 2 < k <= |s| && !DecodeBody(s, p, k, classify).Starved?
    ensures DecodeBody(s + t, p, k, classify) == DecodeBody(s, p, k, classify)
    decreases |s| - k, 2
  {
    SliceExtends(s, t, p + 1, k - 2);
    assert (s + t)[p] == s[p];
    match ParseHeader(s[p], Slice(s, p + 1, k - 2), classify)
    case Immediate(v) =>
    case Failed(e) =>
    case BulkOf(n) =>
      SliceExtends(s, t, k, k + n);
    case ArrayOf(n) =>
      DecodeElementsExtends(s, t, k, n, classify);
  }

  lemma {:induction false} DecodeElementsExtends(s: seq<byte>, t: seq<byte>, p: nat, m: nat, classify: seq<byte> -> ErrorClass)
    requires p <= |s| && !DecodeElements(s, p, m, classify).ListStarved?
    ensures DecodeElements(s + t, p, m, classify) == DecodeElements(s, p, m, classify)
    decreases |s| - p, 1, m
  {
    if m > 0 {
      DecodeFrameExtends(s, t, p, classify);
      match DecodeFrame(s, p, classify)
      case Done(v, e) =>
        DecodeElementsExtends(s, t, e, m - 1, classify);
      case Raised(e) =>
    }
  }

  // ---------------------------------------------------------------------------------------
  // What decoding raises

  /** The exceptions read_response raises itself: a closed or failing connection, an integer
      that does not parse, an unknown type byte. */
  predicate ParserError(e: Error) {
    e.ConnectionError? || e.ValueError? || e.InvalidResponse?
  }

  lemma {:induction false} DecodeFrameRaises(s: seq<byte>, p: nat, classify: seq<byte> -> ErrorClass)
    requires p <= |s|
    ensures DecodeFrame(s, p, classify).Raised? ==> ParserError(DecodeFrame(s, p, classify).error)
    decreases |s| - p, 0
  {
    var line := LineFrom(s, p);
    if line.Some? && line.value != p + 2 {
      DecodeBodyRaises(s, p, line.value, classify);
    }
  }

  lemma {:induction false} DecodeBodyRaises(s: seq<byte>, p: nat, k: nat, classify: seq<byte> -> ErrorClass)
    requires p + 2 < k <= |s|
    ensures DecodeBody(s, p, k, classify).Raised? ==> ParserError(DecodeBody(s, p, k, classify).error)
    decreases |s| - k, 2
  {
    var h := ParseHeader(s[p], Slice(s, p + 1, k - 2), classify);
    if h.ArrayOf? {
      DecodeElementsRaises(s, k, h.count, classify);
    }
  }

  lemma {:induction false} DecodeElementsRaises(s: seq<byte>, p: nat, m: nat, classify: seq<byte> -> ErrorClass)
    requires p <= |s|
    ensures DecodeElements(s, p, m, classify).ListRaised? ==> ParserError(DecodeElements(s, p, m, classify).error)
    decreases |s| - p, 1, m
  {
    if m > 0 {
      DecodeFrameRaises(s, p, classify);
      var d := DecodeFrame(s, p, classify);
      if d.Done? {
        DecodeElementsRaises(s, d.end, m - 1, classify);
      }
    }
  }

  // ---------------------------------------------------------------------------------------
  // Encoding: what a server sends, and what pack_command writes

  function Encode(v: Value): (e: seq<byte>)
    decreases v, 1
  {
    match v
    case Simple(t) => [PLUS] + t + CRLF
    case Err(m) => [MINUS] + m + CRLF
    case Int(n) => [COLON] + FormatInt(n) + CRLF
    case Bulk(d) => [DOLLAR] + FormatInt(|d|) + CRLF + d + CRLF
    case Null => [DOLLAR] + FormatInt(-1) + CRLF
    case Array(vs) => [STAR] + FormatInt(|vs|) + CRLF + EncodeAll(vs)
  }

  function EncodeAll(vs: seq<Value>): seq<byte>
    decreases vs, 0
  {
    if vs == [] then [] else Encode(vs[0]) + EncodeAll(vs[1..])
  }

  /** A value the decoder can give back: simple strings and error texts hold no LF, and error
      texts are ones parse_error returns as values. */
  predicate Encodable(v: Value, classify: seq<byte> -> ErrorClass)
    decreases v
  {
    match v
    case Simple(t) => LF !in t
    case Err(m) => LF !in m && classify(m) == ResponseClass
    case Array(vs) => forall i :: 0 <= i < |vs| ==> Encodable(vs[i], classify)
    case _ => true
  }

  /** The arguments of a command as the bulk strings pack_command sends. */
  function BulkArgs(args: seq<seq<byte>>): (vs: seq<Value>)
    ensures |vs| == |args| && forall i :: 0 <= i < |args| ==> vs[i] == Bulk(args[i])
  {
    if args == [] then [] else [Bulk(args[0])] + BulkArgs(args[1..])
  }

  /** redis-py's pack_command: a command is sent as an array of bulk strings. */
  function Pack(args: seq<seq<byte>>): (p: seq<byte>)
  {
    Encode(Array(BulkArgs(args)))
  }

  /** The line that starts right after `pre` is `[tag] + t` followed by CRLF, when neither the
      tag nor `t` is an LF. */
  lemma {:induction false} LineOfHeader(pre: seq<byte>, tag: byte, t: seq<byte>, r: seq<byte>)
    requires tag != LF && LF !in t
    ensures LineFrom(pre + ([tag] + t + CRLF) + r, |pre|) == Some(|pre| + |t| + 3)
    ensures (pre + ([tag] + t + CRLF) + r)[|pre|] == tag
    ensures Slice(pre + ([tag] + t + CRLF) + r, |pre| + 1, |pre| + |t| + 3 - 2) == t
  {
    var s := pre + ([tag] + t + CRLF) + r;
    var at := |pre| + |t| + 3 - 2;
    forall j | |pre| <= j < at
      ensures s[j] != LF
    {
      if j > |pre| {
        assert s[j] == t[j - |pre| - 1];
      }
    }
    assert s[at] == CR && s[at + 1] == LF;
    FindFromAt(s, LF, |pre|, at + 1);
    assert s == (pre + [tag]) + t + (CRLF + r);
    SliceMiddle(pre + [tag], t, CRLF + r);
  }

  /** The frames a header line alone makes: a simple string, or an error reply parse_error
      returns as a value. */
  lemma {:induction false} LineFrameAt(s: seq<byte>, p: nat, k: nat, classify: seq<byte> -> ErrorClass)
    requires p + 2 < k <= |s| && LineFrom(s, p) == Some(k)
    requires s[p] == PLUS || (s[p] == MINUS && classify(Slice(s, p + 1, k - 2)) == ResponseClass)
    ensures DecodeFrame(s, p, classify)
         == Done(if s[p] == PLUS then Simple(Slice(s, p + 1, k - 2)) else Err(Slice(s, p + 1, k - 2)), k)
  {
  }

  /** `:n` is the integer n, and `$-1` the null bulk string. */
  lemma {:induction false} NumberFrameAt(s: seq<byte>, p: nat, k: nat, n: int, classify: seq<byte> -> ErrorClass)
    requires p + 2 < k <= |s| && LineFrom(s, p) == Some(k)
    requires ParseInt(Slice(s, p + 1, k - 2)) == Some(n) && (s[p] == COLON || (s[p] == DOLLAR && n == -1))
    ensures DecodeFrame(s, p, classify) == Done(if s[p] == COLON then Int(n) else Null, k)
  {
  }

  /** `$n` with n >= 0 is the bulk string of the n bytes after the header line. */
  lemma {:induction false} BulkFrameAt(s: seq<byte>, p: nat, k: nat, n: nat, classify: seq<byte> -> ErrorClass)
    requires p + 2 < k <= |s| && LineFrom(s, p) == Some(k) && k + n + 2 <= |s|
    requires s[p] == DOLLAR && ParseInt(Slice(s, p + 1, k - 2)) == Some(n)
    ensures DecodeFrame(s, p, classify) == Done(Bulk(Slice(s, k, k + n)), k + n + 2)
  {
  }

  /** `*n` with n >= 0 is the array of the n frames after the header line. */
  lemma {:induction false} ArrayFrameAt(s: seq<byte>, p: nat, k: nat, vs: seq<Value>, e: nat, classify: seq<byte> -> ErrorClass)
    requires p + 2 < k <= |s| && LineFrom(s, p) == Some(k)
    requires s[p] == STAR && ParseInt(Slice(s, p + 1, k - 2)) == Some(|vs|)
    requires DecodeElements(s, k, |vs|, classify) == ListDone(vs, e)
    ensures DecodeFrame(s, p, classify) == Done(Array(vs), e)
  {
  }

  /** Decoding what a server encodes gives the value back, whatever precedes or follows it. */
  lemma {:induction false} DecodeEncode(pre: seq<byte>, v: Value, rest: seq<byte>, classify: seq<byte> -> ErrorClass)
    requires Encodable(v, classify)
    ensures DecodeFrame(pre + Encode(v) + rest, |pre|, classify) == Done(v, |pre| + |Encode(v)|)
    decreases v, 1
  {
    match v
    case Simple(t) => DecodeLine(pre, PLUS, t, rest, classify);
    case Err(m) => DecodeLine(pre, MINUS, m, rest, classify);
    case Int(n) => DecodeNumber(pre, COLON, n, rest, classify);
    case Null => DecodeNumber(pre, DOLLAR, -1, rest, classify);
    case Bulk(d) => DecodeBulk(pre, d, rest, classify);
    case Array(vs) => DecodeArray(pre, vs, rest, classify);
  }

  /** A simple string or an error line is its own frame. */
  lemma {:induction false} DecodeLine(pre: seq<byte>, tag: byte, t: seq<byte>, rest: seq<byte>, classify: seq<byte> -> ErrorClass)
    requires tag == PLUS || (tag == MINUS && classify(t) == ResponseClass)
    requires LF !in t
    ensures DecodeFrame(pre + ([tag] + t + CRLF) + rest, |pre|, classify)
         == Done(if tag == PLUS then Simple(t) else Err(t), |pre| + |t| + 3)
  {
    LineOfHeader(pre, tag, t, rest);
    LineFrameAt(pre + ([tag] + t + CRLF) + rest, |pre|, |pre| + |t| + 3, classify);
  }

  /** `:n` is the integer n, and `$-1` is the null bulk string. */
  lemma {:induction false} DecodeNumber(pre: seq<byte>, tag: byte, n: int, rest: seq<byte>, classify: seq<byte> -> ErrorClass)
    requires tag == COLON || (tag == DOLLAR && n == -1)
    ensures DecodeFrame(pre + ([tag] + FormatInt(n) + CRLF) + rest, |pre|, classify)
         == Done(if tag == COLON then Int(n) else Null, |pre| + |FormatInt(n)| + 3)
  {
    LineOfHeader(pre, tag, FormatInt(n), rest);
    ParseFormatInt(n);
    NumberFrameAt(pre + ([tag] + FormatInt(n) + CRLF) + rest, |pre|, |pre| + |FormatInt(n)| + 3, n, classify);
  }

  /** `$-1` and `*-1` are both a nil reply. */
  lemma {:induction false} NilFrame(tag: byte, rest: seq<byte>, classify: seq<byte> -> ErrorClass)
    requires tag == DOLLAR || tag == STAR
    ensures DecodeFrame([tag, MINUS, ZERO + 1] + CRLF + rest, 0, classify) == Done(Null, 5)
  {
    var t := [MINUS, ZERO + 1];
    var s := [tag, MINUS, ZERO + 1] + CRLF + rest;
    assert s == [] + ([tag] + t + CRLF) + rest;
    LineOfHeader([], tag, t, rest);
    ParseFormatInt(-1);
    assert FormatNat(1) == [ZERO + 1];
    assert FormatInt(-1) == t;
    assert ParseHeader(tag, t, classify) == Immediate(Null);
  }

  lemma {:induction false} AppendAssoc(x: seq<byte>, y: seq<byte>, z: seq<byte>)
    ensures x + (y + z) == x + y + z
  {
  }

  lemma {:induction false} AppendRegroup(p: seq<byte>, a: seq<byte>, b: seq<byte>, r: seq<byte>)
    ensures p + (a + b) + r == p + a + (b + r)
  {
  }

  lemma {:induction false} DecodeBulk(pre: seq<byte>, d: seq<byte>, rest: seq<byte>, classify: seq<byte> -> ErrorClass)
    ensures DecodeFrame(pre + Encode(Bulk(d)) + rest, |pre|, classify) == Done(Bulk(d), |pre| + |Encode(Bulk(d))|)
  {
    ParseFormatInt(|d|);
    BulkFrame(pre, FormatInt(|d|), d, rest, classify);
  }

  /** A bulk frame whose header states its length is decoded to its payload. */
  lemma {:induction false} BulkFrame(pre: seq<byte>, f: seq<byte>, d: seq<byte>, rest: seq<byte>, classify: seq<byte> -> ErrorClass)
    requires LF !in f && ParseInt(f) == Some(|d|)
    ensures DecodeFrame(pre + ([DOLLAR] + f + CRLF + d + CRLF) + rest, |pre|, classify)
         == Done(Bulk(d), |pre| + |f| + |d| + 5)
  {
    var h := [DOLLAR] + f + CRLF;
    var s := pre + h + (d + CRLF + rest);
    var k := |pre| + |f| + 3;
    AppendAssoc(h, d, CRLF);
    AppendRegroup(pre, h, d + CRLF, rest);
    LineOfHeader(pre, DOLLAR, f, d + CRLF + rest);
    BulkFrameAt(s, |pre|, k, |d|, classify);
    assert Slice(s, k, k + |d|) == d by {
      AppendAssoc(d, CRLF, rest);
      AppendAssoc(pre + h, d, CRLF + rest);
      SliceMiddle(pre + h, d, CRLF + rest);
    }
  }

  lemma {:induction false} DecodeArray(pre: seq<byte>, vs: seq<Value>, rest: seq<byte>, classify: seq<byte> -> ErrorClass)
    requires forall i :: 0 <= i < |vs| ==> Encodable(vs[i], classify)
    ensures DecodeFrame(pre + Encode(Array(vs)) + rest, |pre|, classify) == Done(Array(vs), |pre| + |Encode(Array(vs))|)
    decreases vs, 1
  {
    var h := [STAR] + FormatInt(|vs|) + CRLF;
    DecodeEncodeAll(pre + h, vs, rest, classify);
    ParseFormatInt(|vs|);
    ArrayFrame(pre, FormatInt(|vs|), vs, EncodeAll(vs), rest, classify);
  }

  /** An array frame whose header states its count is decoded to the frames that follow. */
  lemma {:induction false} ArrayFrame(pre: seq<byte>, f: seq<byte>, vs: seq<Value>, body: seq<byte>, rest: seq<byte>, classify: seq<byte> -> ErrorClass)
    requires LF !in f && ParseInt(f) == Some(|vs|)
    requires DecodeElements(pre + ([STAR] + f + CRLF) + body + rest, |pre + ([STAR] + f + CRLF)|, |vs|, classify)
          == ListDone(vs, |pre + ([STAR] + f + CRLF)| + |body|)
    ensures DecodeFrame(pre + ([STAR] + f + CRLF + body) + rest, |pre|, classify)
         == Done(Array(vs), |pre| + |f| + 3 + |body|)
  {
    var h := [STAR] + f + CRLF;
    var k := |pre| + |f| + 3;
    assert |pre + h| == k;
    AppendRegroup(pre, h, body, rest);
    LineOfHeader(pre, STAR, f, body + rest);
    AppendAssoc(pre + h, body, rest);
    ArrayFrameAt(pre + h + (body + rest), |pre|, k, vs, k + |body|, classify);
  }

  lemma {:induction false} DecodeEncodeAll(pre: seq<byte>, vs: seq<Value>, rest: seq<byte>, classify: seq<byte> -> ErrorClass)
    requires forall i :: 0 <= i < |vs| ==> Encodable(vs[i], classify)
    ensures DecodeElements(pre + EncodeAll(vs) + rest, |pre|, |vs|, classify)
         == ListDone(vs, |pre| + |EncodeAll(vs)|)
    decreases vs, 0
  {
    if vs != [] {
      var e0, more := Encode(vs[0]), EncodeAll(vs[1..]);
      var e := |pre + e0|;
      assert e == |pre| + |e0|;
      AppendRegroup(pre, e0, more, rest);
      DecodeEncode(pre, vs[0], more + rest, classify);
      AppendAssoc(pre + e0, more, rest);
      DecodeEncodeAll(pre + e0, vs[1..], rest, classify);
      ElementsStep(pre + e0 + (more + rest), |pre|, vs, e, e + |more|, classify);
    }
  }

  /** A list of frames is its first frame followed by the list of the others. */
  lemma {:induction false} ElementsStep(s: seq<byte>, p: nat, vs: seq<Value>, e: nat, end: nat, classify: seq<byte> -> ErrorClass)
    requires p <= |s| && vs != []
    requires DecodeFrame(s, p, classify) == Done(vs[0], e)
    requires DecodeElements(s, e, |vs| - 1, classify) == ListDone(vs[1..], end)
    ensures DecodeElements(s, p, |vs|, classify) == ListDone(vs, end)
  {
    assert [vs[0]] + vs[1..] == vs;
  }

  lemma {:induction false} DecodePack(args: seq<seq<byte>>, rest: seq<byte>, classify: seq<byte> -> ErrorClass)
    ensures DecodeFrame(Pack(args) + rest, 0, classify) == Done(Array(BulkArgs(args)), |Pack(args)|)
  {
    DecodeEncode([], Array(BulkArgs(args)), rest, classify);
    assert [] + Pack(args) + rest == Pack(args) + rest;
  }
}
