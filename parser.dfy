/** AsyncParser of gredis/connection.py: the RESP reader a connection reads its replies with.
    It holds the connection's stream and a StreamBuffer over it while connected, and
    read_response is proved to return what DecodeFrame decodes from the bytes still to read. */
module Parser {
  import opened Resp
  import opened Transport
  import opened StreamBuffers

  // ---------------------------------------------------------------------------------------
  // The bytes still to read, seen from a position of a longer sequence

  /** A position found in `s`, seen from position `p` on. */
  function Earlier(r: Option<nat>, p: nat): Option<nat> {
    if r.Some? && p <= r.value then Some(r.value - p) else None
  }

  /** FindFrom on the bytes from `p` on finds what FindFrom from `p + i` finds, `p` earlier. */
  lemma {:induction false} FindFromSuffix(s: seq<byte>, b: byte, p: nat, i: nat)
    requires p + i <= |s|
    ensures FindFrom(s[p..], b, i) == Earlier(FindFrom(s, b, p + i), p)
    decreases |s| - p - i
  {
    if p + i < |s| {
      assert s[p..][i] == s[p + i];
      FindFromSuffix(s, b, p, i + 1);
    }
  }

  /** The first line of the bytes from `p` on is the line LineFrom finds at `p`. */
  lemma LineAtSuffix(s: seq<byte>, p: nat)
    requires p <= |s|
    ensures LineAt(s[p..]) == Earlier(LineFrom(s, p), p)
  {
    FindFromSuffix(s, LF, p, 0);
    match FindFrom(s, LF, p)
    case Some(j) =>
      if j > p {
        assert s[p..][j - p - 1] == s[j - 1];
      }
    case None =>
  }

  /** What readline gives when the bytes still to read are those of `s` from `p` on, in
      terms of positions in `s`. */
  lemma LineRead(s: seq<byte>, p: nat, end: Error)
    requires p <= |s|
    ensures LineAt(s[p..]) == Earlier(LineFrom(s, p), p)
    ensures LineFrom(s, p).None? ==> NextLine(s[p..], end) == Fail(end)
    ensures LineFrom(s, p).Some? ==>
      p + 2 <= LineFrom(s, p).value <= |s| &&
      NextLine(s[p..], end) == Ok(Slice(s, p, LineFrom(s, p).value - 2)) &&
      s[p..][LineFrom(s, p).value - p..] == s[LineFrom(s, p).value..]
  {
    LineAtSuffix(s, p);
    if LineFrom(s, p).Some? {
      var k := LineFrom(s, p).value;
      SliceIs(s, p, k - 2);
      assert s[p..][..k - p - 2] == s[p..k - 2];
    }
  }

  /** readline on the bytes `s` has from `p` on, when it gives `line` and leaves `after`:
      the line is the header line of the frame at `p`, and the one returned is its end. */
  lemma LineTaken(s: seq<byte>, p: nat, before: seq<byte>, line: Result<seq<byte>>, end: Error,
                  after: seq<byte>) returns (k: nat)
    requires p <= |s| && before == s[p..] && line == NextLine(before, end)
    requires line.Ok? ==> after == before[LineAt(before).value..]
    ensures line.Fail? ==> LineFrom(s, p).None? && line.error == end
    ensures line.Ok? ==> LineFrom(s, p) == Some(k) && line.value == Slice(s, p, k - 2) && after == s[k..]
  {
    LineRead(s, p, end);
    k := if line.Ok? then LineFrom(s, p).value else p;
  }

  /** No header line yet: nothing to decode. */
  lemma NoHeader(s: seq<byte>, p: nat, classify: seq<byte> -> ErrorClass)
    requires p <= |s| && LineFrom(s, p).None?
    ensures DecodeFrame(s, p, classify) == Starved
  {
  }

  /** The frame at `p` by its header line ending at `k`: empty, or a body to decode. */
  lemma HeaderCases(s: seq<byte>, p: nat, k: nat, classify: seq<byte> -> ErrorClass)
    requires p <= |s| && LineFrom(s, p) == Some(k)
    ensures p + 2 <= k <= |s|
    ensures k == p + 2 ==> DecodeFrame(s, p, classify) == Raised(ConnectionError(ServerClosed))
    ensures p + 2 < k ==> DecodeFrame(s, p, classify) == DecodeBody(s, p, k, classify)
  {
  }

  /** A non-empty slice is its first byte followed by the rest. */
  lemma SliceHead(s: seq<byte>, i: nat, j: nat)
    requires i < j <= |s|
    ensures Slice(s, i, j)[0] == s[i] && Slice(s, i, j)[1..] == Slice(s, i + 1, j)
  {
    assert Slice(s, i, j) == [s[i]] + Slice(s, i + 1, j);
  }

  /** The payload of a bulk string whose n + 2 bytes start at `k`: read(n) drops the CRLF. */
  lemma BulkBytes(s: seq<byte>, k: nat, n: nat)
    requires k + n + 2 <= |s|
    ensures DropLastTwo(s[k..][..n + 2]) == Slice(s, k, k + n)
    ensures s[k..][n + 2..] == s[k + n + 2..]
  {
    SliceIs(s, k, k + n);
    assert s[k..][..n + 2][..n] == s[k..k + n];
  }

  // ---------------------------------------------------------------------------------------
  // Decoding, header by header

  /** The frame an array header and its decoded elements make. */
  function AsArray(d: DecodedList): Decoded {
    match d
    case ListDone(vs, e) => Done(Array(vs), e)
    case ListRaised(e) => Raised(e)
    case ListStarved => Starved
  }

  /** A frame with a non-empty header line is decoded as its header says. */
  lemma FrameOfHeader(s: seq<byte>, p: nat, k: nat, classify: seq<byte> -> ErrorClass)
    requires p + 2 < k <= |s|
    ensures var h := ParseHeader(s[p], Slice(s, p + 1, k - 2), classify);
      && (h.Immediate? ==> DecodeBody(s, p, k, classify) == Done(h.value, k))
      && (h.Failed? ==> DecodeBody(s, p, k, classify) == Raised(h.error))
      && (h.BulkOf? ==>
            DecodeBody(s, p, k, classify) ==
              if k + h.length + 2 <= |s| then Done(Bulk(Slice(s, k, k + h.length)), k + h.length + 2)
              else Starved)
      && (h.ArrayOf? ==> DecodeBody(s, p, k, classify) == AsArray(DecodeElements(s, k, h.count, classify)))
  {
  }

  /** Decoding one more element after `i` decoded ones. */
  lemma {:induction false} ElementsSnoc(s: seq<byte>, p: nat, i: nat, items: seq<Value>, pos: nat,
                                        classify: seq<byte> -> ErrorClass)
    requires p <= |s| && DecodeElements(s, p, i, classify) == ListDone(items, pos)
    ensures pos <= |s|
    ensures var d := DecodeFrame(s, pos, classify);
      DecodeElements(s, p, i + 1, classify) ==
        if d.Done? then ListDone(items + [d.value], d.end)
        else if d.Raised? then ListRaised(d.error)
        else ListStarved
    decreases i
  {
    if i > 0 {
      var v0, e0 := DecodeFrame(s, p, classify).value, DecodeFrame(s, p, classify).end;
      ElementsSnoc(s, e0, i - 1, items[1..], pos, classify);
      var d := DecodeFrame(s, pos, classify);
      if d.Done? {
        assert [v0] + (items[1..] + [d.value]) == items + [d.value];
      }
    }
  }

  /** The loop of the `*` branch: one more element decoded. */
  lemma ElementAppended(s: seq<byte>, p: nat, i: nat, items: seq<Value>, pos: nat, v: Value, e: nat,
                     classify: seq<byte> -> ErrorClass)
    requires p <= |s| && DecodeElements(s, p, i, classify) == ListDone(items, pos)
    requires pos <= |s| && DecodeFrame(s, pos, classify) == Done(v, e)
    ensures DecodeElements(s, p, i + 1, classify) == ListDone(items + [v], e)
  {
    ElementsSnoc(s, p, i, items, pos, classify);
  }

  /** The loop of the `*` branch: the element at `pos` fails, and so does the whole array. */
  lemma ElementsFail(s: seq<byte>, p: nat, i: nat, items: seq<Value>, pos: nat, m: nat, end: Error,
                     classify: seq<byte> -> ErrorClass)
    requires p <= |s| && DecodeElements(s, p, i, classify) == ListDone(items, pos) && i < m
    requires pos <= |s| && !DecodeFrame(s, pos, classify).Done?
    ensures Outcome(AsArray(DecodeElements(s, p, m, classify)), end) == Outcome(DecodeFrame(s, pos, classify), end)
  {
    ElementsSnoc(s, p, i, items, pos, classify);
    ElementsFailLater(s, p, i + 1, m, classify);
  }

  /** Once an element fails, decoding more elements fails the same way. */
  lemma {:induction false} ElementsFailLater(s: seq<byte>, p: nat, j: nat, m: nat, classify: seq<byte> -> ErrorClass)
    requires p <= |s| && j <= m && !DecodeElements(s, p, j, classify).ListDone?
    ensures DecodeElements(s, p, m, classify) == DecodeElements(s, p, j, classify)
    decreases j
  {
    match DecodeFrame(s, p, classify)
    case Done(v, e) =>
      ElementsFailLater(s, e, j - 1, m - 1, classify);
    case Raised(e) =>
    case Starved =>
  }

  class AsyncParser {
    var stream: IOStream?
    var buffer: StreamBuffer?
    /** parse_error: whether an error line becomes a ConnectionError or a ResponseError. */
    const classify: seq<byte> -> ErrorClass

    /** A parser holds a buffer exactly while it holds a stream, and the buffer reads that
        stream with its unread bytes ending a chunk. */
    ghost predicate Valid()
      reads this, buffer
    {
      (stream == null <==> buffer == null) &&
      (buffer != null ==> buffer.stream == stream && buffer.Valid() && buffer.Aligned())
    }

    /** The bytes the next read_response will decode from. */
    ghost function Remaining(): seq<byte>
      reads this, buffer, stream
      requires Valid() && buffer != null
    {
      buffer.Remaining()
    }

    constructor (classify: seq<byte> -> ErrorClass)
      ensures this.classify == classify && stream == null && buffer == null
    {
      this.classify := classify;
      stream := null;
      buffer := null;
    }

    /** on_connect: take the connection's stream and start an empty buffer over it. */
    method OnConnect(s: IOStream)
      modifies this
      ensures Valid() && stream == s && buffer != null && fresh(buffer)
      ensures Remaining() == s.Incoming()
    {
      stream := s;
      buffer := new StreamBuffer(s);
    }

    /** on_disconnect: close the stream, close the buffer, and let go of both. */
    method OnDisconnect()
      modifies this, stream, buffer
      ensures Valid() && stream == null && buffer == null
      ensures old(stream) != null ==>
        old(stream).closed && old(stream).pending == old(stream.pending) &&
        old(stream).written == old(stream.written)
      ensures old(buffer) != null ==> old(buffer).buffer == [] && old(buffer).bytesRead == 0
    {
      if stream != null {
        stream.Close();
        stream := null;
      }
      if buffer != null {
        buffer.Purge();
        buffer := null;
      }
    }

    /** read_response: the frame decoded from the bytes `s` has from `p` on, which are the
        bytes still to read.  Without a buffer, `self._buffer.readline` raises AttributeError. */
    method ReadResponse(ghost s: seq<byte>, ghost p: nat) returns (r: Result<Value>)
      requires p <= |s|
      requires buffer != null ==> buffer.Valid() && buffer.Aligned() && buffer.Remaining() == s[p..]
      modifies if buffer == null then {} else {buffer, buffer.stream}
      ensures buffer == null ==> r == Fail(AttributeError)
      ensures buffer != null ==> buffer.Valid() && buffer.StreamKept()
      ensures buffer != null ==> r == Outcome(DecodeFrame(s, p, classify), buffer.StreamEnd())
      ensures buffer != null && r.Ok? ==>
        buffer.Aligned() && buffer.Remaining() == s[DecodeFrame(s, p, classify).end..]
      decreases |s| - p, 5
    {
      if buffer == null {
        return Fail(AttributeError);
      }
      r := ReadFromLine(s, p);
    }

    /** read_response with a buffer: readline, then the dispatch on the line. */
    method ReadFromLine(ghost s: seq<byte>, ghost p: nat) returns (r: Result<Value>)
      requires p <= |s|
      requires buffer != null && buffer.Valid() && buffer.Aligned() && buffer.Remaining() == s[p..]
      modifies buffer, buffer.stream
      ensures buffer.Valid() && buffer.StreamKept()
      ensures r == Outcome(DecodeFrame(s, p, classify), buffer.StreamEnd())
      ensures r.Ok? ==> buffer.Aligned() && buffer.Remaining() == s[DecodeFrame(s, p, classify).end..]
      decreases |s| - p, 4
    {
      var line;
      ghost var k;
      line, k := ReadHeader(s, p);
      if line.Fail? {
        NoHeader(s, p, classify);
        r := Fail(line.error);
      } else if |line.value| == 0 {
        HeaderCases(s, p, k, classify);
        r := Fail(ConnectionError(ServerClosed));
      } else {
        HeaderCases(s, p, k, classify);
        r := ReadFrame(line.value, s, p, k);
      }
    }

    /** The readline of read_response, in terms of positions in `s`: the header line of the
        frame at `p`, which ends at `k`. */
    method ReadHeader(ghost s: seq<byte>, ghost p: nat) returns (line: Result<seq<byte>>, ghost k: nat)
      requires p <= |s|
      requires buffer != null && buffer.Valid() && buffer.Aligned() && buffer.Remaining() == s[p..]
      modifies buffer, buffer.stream
      ensures buffer.Valid() && buffer.StreamKept()
      ensures line.Fail? ==> LineFrom(s, p).None? && line.error == buffer.StreamEnd()
      ensures line.Ok? ==>
        LineFrom(s, p) == Some(k) && line.value == Slice(s, p, k - 2) && buffer.Aligned() &&
        buffer.Remaining() == s[k..] && buffer.Unread() == []
    {
      ghost var before := buffer.Remaining();
      line := buffer.ReadLine();
      k := LineTaken(s, p, before, line, buffer.StreamEnd(), buffer.Remaining());
    }

    /** The dispatch of read_response on the first byte of a non-empty header line, which
        spans s[p..k] with its CRLF. */
    method ReadFrame(line: seq<byte>, ghost s: seq<byte>, ghost p: nat, ghost k: nat)
      returns (r: Result<Value>)
      requires p + 2 < k <= |s| && line == Slice(s, p, k - 2)
      requires buffer != null && buffer.Valid() && buffer.Aligned()
      requires buffer.Remaining() == s[k..] && buffer.Unread() == []
      modifies buffer, buffer.stream
      ensures buffer.Valid() && buffer.StreamKept()
      ensures r == Outcome(DecodeBody(s, p, k, classify), buffer.StreamEnd())
      ensures r.Ok? ==> buffer.Aligned() && buffer.Remaining() == s[DecodeBody(s, p, k, classify).end..]
      decreases |s| - p, 3
    {
      SliceHead(s, p, k - 2);
      var tag, rest := line[0], line[1..];
      FrameOfHeader(s, p, k, classify);
      if tag == DOLLAR {
        r := ReadBulk(rest, s, p, k);
      } else if tag == STAR {
        r := ReadArray(rest, s, p, k);
      } else if tag == MINUS {
        r := if classify(rest) == ConnectionClass then Fail(ConnectionError(ServerReported(rest)))
             else Ok(Err(rest));
      } else if tag == PLUS {
        r := Ok(Simple(rest));
      } else if tag == COLON {
        var n := ParseInt(rest);
        r := if n.None? then Fail(ValueError) else Ok(Int(n.value));
      } else {
        r := Fail(InvalidResponse(tag));
      }
    }

    /** The `$` branch of read_response: the length, then read(length). */
    method ReadBulk(rest: seq<byte>, ghost s: seq<byte>, ghost p: nat, ghost k: nat) returns (r: Result<Value>)
      requires p + 2 < k <= |s| && s[p] == DOLLAR && rest == Slice(s, p + 1, k - 2)
      requires buffer != null && buffer.Valid() && buffer.Aligned()
      requires buffer.Remaining() == s[k..] && buffer.Unread() == []
      modifies buffer, buffer.stream
      ensures buffer.Valid() && buffer.StreamKept()
      ensures r == Outcome(DecodeBody(s, p, k, classify), buffer.StreamEnd())
      ensures r.Ok? ==> buffer.Aligned() && buffer.Remaining() == s[DecodeBody(s, p, k, classify).end..]
    {
      FrameOfHeader(s, p, k, classify);
      var n := ParseInt(rest);
      if n.None? {
        return Fail(ValueError);
      }
      if n.value == -1 {
        return Ok(Null);
      }
      r := ReadPayload(n.value, s, k);
    }

    /** read(n) for a bulk string of length `n`, whose bytes start at `k`. */
    method ReadPayload(n: int, ghost s: seq<byte>, ghost k: nat) returns (r: Result<Value>)
      requires buffer != null && buffer.Valid() && buffer.Aligned() && n != -1 && k <= |s|
      requires buffer.Remaining() == s[k..] && buffer.Unread() == []
      modifies buffer, buffer.stream
      ensures buffer.Valid() && buffer.StreamKept()
      ensures n + 2 <= 0 ==> r == Ok(Bulk([])) && buffer.Aligned() && buffer.Remaining() == s[k..]
      ensures 0 < n + 2 ==>
        r == (if k + n + 2 <= |s| then Ok(Bulk(Slice(s, k, k + n))) else Fail(buffer.StreamEnd()))
      ensures 0 < n + 2 && r.Ok? ==> buffer.Aligned() && buffer.Remaining() == s[k + n + 2..]
    {
      var data := buffer.Read(n);
      if data.Fail? {
        return Fail(data.error);
      }
      if 0 < n + 2 {
        BulkBytes(s, k, n);
      }
      r := Ok(Bulk(data.value));
    }

    /** The `*` branch of read_response: the count, then the elements in wire order, each read
        by a recursive read_response. */
    method ReadArray(rest: seq<byte>, ghost s: seq<byte>, ghost p: nat, ghost k: nat) returns (r: Result<Value>)
      requires p + 2 < k <= |s| && s[p] == STAR && rest == Slice(s, p + 1, k - 2)
      requires buffer != null && buffer.Valid() && buffer.Aligned() && buffer.Remaining() == s[k..]
      modifies buffer, buffer.stream
      ensures buffer.Valid() && buffer.StreamKept()
      ensures r == Outcome(DecodeBody(s, p, k, classify), buffer.StreamEnd())
      ensures r.Ok? ==> buffer.Aligned() && buffer.Remaining() == s[DecodeBody(s, p, k, classify).end..]
      decreases |s| - p, 2
    {
      FrameOfHeader(s, p, k, classify);
      var count := ParseInt(rest);
      if count.None? {
        return Fail(ValueError);
      }
      if count.value == -1 {
        return Ok(Null);
      }
      r := ReadElements(count.value, s, p, k);
    }

    /** The elements of an array of `n` elements, whose first starts at `k`. */
    method ReadElements(n: int, ghost s: seq<byte>, ghost p: nat, ghost k: nat) returns (r: Result<Value>)
      requires buffer != null && buffer.Valid() && buffer.Aligned() && p < k <= |s|
      requires buffer.Remaining() == s[k..]
      modifies buffer, buffer.stream
      ensures buffer.Valid() && buffer.StreamKept()
      ensures r == Outcome(AsArray(DecodeElements(s, k, if n < 0 then 0 else n, classify)), buffer.StreamEnd())
      ensures r.Ok? ==>
        buffer.Aligned() &&
        buffer.Remaining() == s[DecodeElements(s, k, if n < 0 then 0 else n, classify).end..]
      decreases |s| - p, 1
    {
      ghost var m: nat := if n < 0 then 0 else n;
      var items: seq<Value> := [];
      ghost var pos := k;
      var i := 0;
      while i < n
        invariant 0 <= i <= m && k <= pos <= |s|
        invariant buffer.Valid() && buffer.Aligned() && buffer.StreamKept()
        invariant buffer.Remaining() == s[pos..]
        invariant DecodeElements(s, k, i, classify) == ListDone(items, pos)
        decreases m - i
      {
        var item;
        item, pos := ReadElement(s, p, k, i, m, items, pos);
        if item.Fail? {
          return Fail(item.error);
        }
        items := items + [item.value];
        i := i + 1;
      }
      r := Ok(Array(items));
    }

    /** One pass of the `*` loop: the `i`-th element, read by a recursive read_response from
        `pos`, where the elements before it ended. */
    method ReadElement(ghost s: seq<byte>, ghost p: nat, ghost k: nat, ghost i: nat, ghost m: nat,
                       ghost items: seq<Value>, ghost pos: nat)
      returns (item: Result<Value>, ghost e: nat)
      requires buffer != null && buffer.Valid() && buffer.Aligned() && p < k <= pos <= |s| && i < m
      requires buffer.Remaining() == s[pos..]
      requires DecodeElements(s, k, i, classify) == ListDone(items, pos)
      modifies buffer, buffer.stream
      ensures buffer.Valid() && buffer.StreamKept()
      ensures item.Fail? ==>
        Outcome(AsArray(DecodeElements(s, k, m, classify)), buffer.StreamEnd()) == Fail(item.error)
      ensures item.Ok? ==>
        e <= |s| && buffer.Aligned() && buffer.Remaining() == s[e..] &&
        DecodeElements(s, k, i + 1, classify) == ListDone(items + [item.value], e)
      decreases |s| - p, 0
    {
      item := ReadResponse(s, pos);
      if item.Fail? {
        ElementsFail(s, k, i, items, pos, m, buffer.StreamEnd(), classify);
        return item, pos;
      }
      e := DecodeFrame(s, pos, classify).end;
      ElementAppended(s, k, i, items, pos, item.value, e, classify);
    }
  }
}
