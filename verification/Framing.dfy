/**
 * Frames on an iroh stream: one JSON line, then a body of announced length (src/transport/wire.rs,
 * the readers in src/transport/iroh_client.rs and src/transport/iroh_transport.rs).
 */
module Framing {
  import opened Prelude

  const NEWLINE: Byte := 10
  const READ_SIZE: nat := 4096
  const MAX_WIRE_HEADER: nat := 16384

  /** JSON, left abstract: what matters is that it reads back and holds no raw newline. */
  datatype Codec<!F> = Codec(encode: F -> Bytes, decode: Bytes -> Option<F>)

  ghost predicate Lawful<F(!new)>(c: Codec<F>) {
    forall f :: c.decode(c.encode(f)) == Some(f) && NEWLINE !in c.encode(f)
  }

  function EncodeLine<F>(c: Codec<F>, f: F): Bytes {
    c.encode(f) + [NEWLINE]
  }

  datatype FrameError = ReadFailed | NoNewline | BadJson | HeaderTooLong | Refused | BodyCut | HashMismatch

  /** The first newline: nothing before it is one, and there is none only if none occurs. */
  function FirstNewline(s: Bytes): (r: Option<nat>)
    ensures r.Some? ==> r.value < |s| && s[r.value] == NEWLINE && NEWLINE !in s[..r.value]
    ensures r.None? <==> NEWLINE !in s
  {
    if s == [] then None
    else if s[0] == NEWLINE then Some(0)
    else
      match FirstNewline(s[1..])
      case None => None
      case Some(i) =>
        assert s[..i + 1] == [s[0]] + s[1..][..i];
        Some(i + 1)
  }

  /** The frame on the first line, and how many bytes it takes. */
  function DecodeLine<F>(c: Codec<F>, s: Bytes): (r: Result<(F, nat), FrameError>)
    ensures r.Ok? ==> 0 < r.value.1 <= |s| && s[r.value.1 - 1] == NEWLINE
  {
    match FirstNewline(s)
    case None => Err(NoNewline)
    case Some(i) =>
      match c.decode(s[..i])
      case None => Err(BadJson)
      case Some(f) => Ok((f, i + 1))
  }

  // ----- streams -----

  datatype Received = Got(bytes: Bytes) | Ended | Failed

  function Flatten(chunks: seq<Bytes>): Bytes {
    if chunks == [] then [] else chunks[0] + Flatten(chunks[1..])
  }

  /** The receiving end of a stream whose bytes arrive in pieces, and which then ends or fails. */
  class RecvStream {
    var chunks: seq<Bytes>
    const fails: bool

    constructor (chunks: seq<Bytes>, fails: bool)
      requires [] !in chunks
      ensures Valid() && Remaining() == Flatten(chunks) && this.fails == fails
    {
      this.chunks := chunks;
      this.fails := fails;
    }

    ghost predicate Valid()
      reads this
    {
      [] !in chunks
    }

    ghost function Remaining(): Bytes
      reads this
    {
      Flatten(chunks)
    }

    /** At most `limit` bytes of the next piece. */
    method Read(limit: nat) returns (r: Received)
      requires Valid() && limit > 0
      modifies this
      ensures Valid()
      ensures r.Got? ==> 0 < |r.bytes| <= limit && old(Remaining()) == r.bytes + Remaining()
      ensures !r.Got? ==> old(Remaining()) == [] == Remaining()
      ensures !r.Got? ==> r == if fails then Failed else Ended
    {
      if chunks == [] {
        return if fails then Failed else Ended;
      }
      var next := chunks[0];
      if |next| <= limit {
        r := Got(next);
        chunks := chunks[1..];
      } else {
        r := Got(next[..limit]);
        ghost var after := chunks[1..];
        chunks := [next[limit..]] + chunks[1..];
        assert chunks[1..] == after;
        assert next + Flatten(after) == next[..limit] + (next[limit..] + Flatten(after));
      }
    }

    /** Exactly `n` bytes, or nothing if the stream holds fewer. */
    method ReadExact(n: nat) returns (r: Option<Bytes>)
      requires Valid()
      modifies this
      ensures Valid()
      ensures r == if n <= |old(Remaining())| then Some(old(Remaining())[..n]) else None
      ensures r.Some? ==> old(Remaining()) == r.value + Remaining()
    {
      var got: Bytes := [];
      while |got| < n
        invariant Valid() && |got| <= n
        invariant old(Remaining()) == got + Remaining()
        decreases n - |got|
      {
        var next := Read(n - |got|);
        if !next.Got? {
          return None;
        }
        got := got + next.bytes;
      }
      return Some(got);
    }
  }

  // ----- the client's reader -----

  datatype Status = Okay | NotFound | Unauthorized | Forbidden | Conflict | Error

  datatype Response = Response(status: Status, bodyLen: nat, contentType: string, error: string,
                               descriptor: Option<string>)

  /** What reading a response comes to, as a function of all the bytes of the stream. */
  function Line<F>(c: Codec<F>, stream: Bytes, fails: bool): (r: Result<(F, nat), FrameError>)
    ensures r.Ok? ==> r.value.1 <= |stream|
  {
    if NEWLINE !in stream && fails then Err(ReadFailed) else DecodeLine(c, stream)
  }

  /** What a download comes to, as a function of all the bytes of the stream. */
  function Fetch(c: Codec<Response>, hash: Bytes -> string, sha256: string, stream: Bytes, fails: bool)
    : Result<Bytes, FrameError>
  {
    match Line(c, stream, fails)
    case Err(e) => Err(e)
    case Ok((resp, used)) =>
      if resp.status != Okay then Err(Refused)
      else
        match Body(stream[used..], resp.bodyLen)
        case None => Err(BodyCut)
        case Some(data) => if hash(data) != sha256 then Err(HashMismatch) else Ok(data)
  }

  function Body(rest: Bytes, bodyLen: nat): Option<Bytes> {
    if bodyLen <= |rest| then Some(rest[..bodyLen]) else None
  }

  /** A stream that starts with a line of its own, the response it holds, and then a body and more. */
  ghost predicate Carries(c: Codec<Response>, stream: Bytes, line: Bytes, resp: Response, tail: Bytes) {
    stream == line + [NEWLINE] + tail && NEWLINE !in line && c.decode(line) == Some(resp)
  }

  /** What comes of each response, in this order: refused, cut short, of another hash, or the announced bytes. */
  lemma FetchOf(c: Codec<Response>, hash: Bytes -> string, sha256: string, stream: Bytes, fails: bool,
                line: Bytes, resp: Response, tail: Bytes)
    requires Carries(c, stream, line, resp, tail)
    ensures var r := Fetch(c, hash, sha256, stream, fails);
            && (r == Err(Refused) <==> resp.status != Okay)
            && (r == Err(BodyCut) <==> resp.status == Okay && |tail| < resp.bodyLen)
            && (resp.status == Okay && resp.bodyLen <= |tail| ==>
                  r == if hash(tail[..resp.bodyLen]) == sha256 then Ok(tail[..resp.bodyLen]) else Err(HashMismatch))
  {
    assert stream[|line|] == NEWLINE && stream[..|line|] == line;
    FirstNewlineAt(stream, |line|);
    assert stream[|line| + 1..] == tail;
  }

  /** Only bytes of the hash asked for are ever returned, from a response that says all is well. */
  lemma FetchIsGenuine(c: Codec<Response>, hash: Bytes -> string, sha256: string, stream: Bytes, fails: bool)
    requires Fetch(c, hash, sha256, stream, fails).Ok?
    ensures var data := Fetch(c, hash, sha256, stream, fails).value;
            && hash(data) == sha256
            && exists line, resp, tail ::
                 Carries(c, stream, line, resp, tail) && resp.status == Okay && |data| == resp.bodyLen && data <= tail
  {
    var i := FirstNewline(stream).value;
    var line, tail := stream[..i], stream[i + 1..];
    var resp := c.decode(line).value;
    assert stream == line + [NEWLINE] + tail;
    assert Carries(c, stream, line, resp, tail);
  }

  lemma {:induction false} FirstNewlineAt(s: Bytes, i: nat)
    requires i < |s| && s[i] == NEWLINE && NEWLINE !in s[..i]
    ensures FirstNewline(s) == Some(i)
  {
    if i > 0 {
      assert s[0] == s[..i][0];
      assert s[1..][..i - 1] == s[..i][1..];
      FirstNewlineAt(s[1..], i - 1);
    }
  }

  lemma LineOfPrefix<F>(c: Codec<F>, s: Bytes, more: Bytes)
    requires NEWLINE in s
    ensures DecodeLine(c, s + more) == DecodeLine(c, s)
  {
    var i := FirstNewline(s).value;
    assert (s + more)[..i] == s[..i];
    FirstNewlineAt(s + more, i);
  }

  /** Pieces are collected until one brings a newline or the stream ends. */
  method ReadUntilNewline(recv: RecvStream) returns (r: Option<Bytes>)
    requires recv.Valid()
    modifies recv
    ensures recv.Valid()
    ensures r.None? ==> recv.fails && NEWLINE !in old(recv.Remaining())
    ensures r.Some? ==> old(recv.Remaining()) == r.value + recv.Remaining()
    ensures r.Some? ==> NEWLINE in r.value || (recv.Remaining() == [] && !recv.fails)
  {
    var buf: Bytes := [];
    while true
      invariant recv.Valid() && NEWLINE !in buf
      invariant old(recv.Remaining()) == buf + recv.Remaining()
      decreases |recv.Remaining()|
    {
      var next := recv.Read(READ_SIZE);
      if next.Failed? {
        return None;
      }
      if next.Ended? {
        return Some(buf);
      }
      buf := buf + next.bytes;
      if NEWLINE in buf {
        return Some(buf);
      }
    }
  }

  /** What has been read decides the line. */
  lemma LineFromRead<F>(c: Codec<F>, buf: Bytes, rest: Bytes, fails: bool)
    requires NEWLINE in buf || (rest == [] && !fails)
    ensures Line(c, buf + rest, fails) == DecodeLine(c, buf)
    ensures DecodeLine(c, buf).Ok? ==>
              (buf + rest)[DecodeLine(c, buf).value.1..] == buf[DecodeLine(c, buf).value.1..] + rest
  {
    if NEWLINE in buf {
      LineOfPrefix(c, buf, rest);
    } else {
      assert buf + rest == buf;
    }
  }

  method ReadResponse(c: Codec<Response>, recv: RecvStream) returns (r: Result<(Response, Bytes), FrameError>)
    requires recv.Valid()
    modifies recv
    ensures recv.Valid()
    ensures r.Err? ==> Line(c, old(recv.Remaining()), recv.fails) == Err(r.error)
    ensures r.Ok? ==>
      var line := Line(c, old(recv.Remaining()), recv.fails);
      && line.Ok? && line.value.0 == r.value.0
      && old(recv.Remaining())[line.value.1..] == r.value.1 + recv.Remaining()
  {
    var read := ReadUntilNewline(recv);
    if read.None? {
      return Err(ReadFailed);
    }
    var buf := read.value;
    LineFromRead(c, buf, recv.Remaining(), recv.fails);
    var line := DecodeLine(c, buf);
    if line.Err? {
      return Err(line.error);
    }
    var (resp, consumed) := line.value;
    return Ok((resp, buf[consumed..]));
  }

  /** The bytes read past the line, completed and cut to the announced length. */
  method ReadBody(recv: RecvStream, leftover: Bytes, bodyLen: nat) returns (r: Option<Bytes>)
    requires recv.Valid()
    modifies recv
    ensures r == Body(leftover + old(recv.Remaining()), bodyLen)
  {
    var data := leftover;
    var remaining := SaturatingSub(bodyLen, |data|);
    if remaining > 0 {
      var rest := recv.ReadExact(remaining);
      if rest.None? {
        return None;
      }
      data := data + rest.value;
    }
    data := if |data| > bodyLen then data[..bodyLen] else data;
    assert data == (leftover + old(recv.Remaining()))[..bodyLen];
    return Some(data);
  }

  /** A download depends on the bytes of the stream and not on the pieces they arrive in. */
  method Download(c: Codec<Response>, hash: Bytes -> string, sha256: string, recv: RecvStream)
    returns (r: Result<Bytes, FrameError>)
    requires recv.Valid()
    modifies recv
    ensures r == Fetch(c, hash, sha256, old(recv.Remaining()), recv.fails)
  {
    var answer := ReadResponse(c, recv);
    if answer.Err? {
      return Err(answer.error);
    }
    var (resp, leftover) := answer.value;
    if resp.status != Okay {
      return Err(Refused);
    }
    var data := ReadBody(recv, leftover, resp.bodyLen);
    if data.None? {
      return Err(BodyCut);
    }
    if hash(data.value) != sha256 {
      return Err(HashMismatch);
    }
    return Ok(data.value);
  }

  // ----- what the server wrote is what the client gets -----

  function Sent(c: Codec<Response>, resp: Response, body: Bytes): Bytes {
    EncodeLine(c, resp) + body
  }

  lemma LineRoundTrip<F(!new)>(c: Codec<F>, f: F, rest: Bytes)
    requires Lawful(c)
    ensures DecodeLine(c, EncodeLine(c, f) + rest) == Ok((f, |EncodeLine(c, f)|))
  {
    var line := EncodeLine(c, f);
    var i := |c.encode(f)|;
    assert line[..i] == c.encode(f);
    FirstNewlineAt(line, i);
    LineOfPrefix(c, line, rest);
  }

  /** A response and its body, sent whole, come back as that body, whatever follows them. */
  lemma DownloadRoundTrip(c: Codec<Response>, hash: Bytes -> string, resp: Response, body: Bytes, rest: Bytes,
                          fails: bool)
    requires Lawful(c) && resp.status == Okay && resp.bodyLen == |body|
    ensures Fetch(c, hash, hash(body), Sent(c, resp, body) + rest, fails) == Ok(body)
  {
    var stream := Sent(c, resp, body) + rest;
    var line := EncodeLine(c, resp);
    assert stream == line + (body + rest);
    assert stream[|line| - 1] == NEWLINE;
    LineRoundTrip(c, resp, body + rest);
    assert stream[|line|..] == body + rest;
    assert (body + rest)[..|body|] == body;
  }

  lemma CutLineHasNoNewline(c: Codec<Response>, resp: Response, body: Bytes, n: nat)
    requires Lawful(c) && n < |EncodeLine(c, resp)|
    ensures n <= |Sent(c, resp, body)| && NEWLINE !in Sent(c, resp, body)[..n]
  {
    assert Sent(c, resp, body)[..n] == c.encode(resp)[..n];
  }

  /** A transmission cut short anywhere is reported and never yields data. */
  lemma CutIsNoticed(c: Codec<Response>, hash: Bytes -> string, sha256: string, resp: Response, body: Bytes, n: nat,
                     fails: bool)
    requires Lawful(c) && resp.status == Okay && resp.bodyLen == |body| && n < |Sent(c, resp, body)|
    ensures Fetch(c, hash, sha256, Sent(c, resp, body)[..n], fails)
            == Err(if n >= |EncodeLine(c, resp)| then BodyCut else if fails then ReadFailed else NoNewline)
  {
    var line := EncodeLine(c, resp);
    if n < |line| {
      CutLineHasNoNewline(c, resp, body, n);
    } else {
      assert Sent(c, resp, body)[..n] == line + body[..n - |line|];
      assert Sent(c, resp, body)[..n][|line| - 1] == NEWLINE;
      LineRoundTrip(c, resp, body[..n - |line|]);
    }
  }

  // ----- the server's reader -----

  function Head(stream: Bytes): Bytes {
    if |stream| > MAX_WIRE_HEADER then stream[..MAX_WIRE_HEADER] else stream
  }

  /** What reading a request line comes to: the newline must be among the first MAX_WIRE_HEADER bytes. */
  function RequestLine<F>(c: Codec<F>, stream: Bytes, fails: bool): (r: Result<(F, nat), FrameError>)
    ensures r.Ok? ==> r.value.1 <= |stream|
  {
    if NEWLINE in Head(stream) then DecodeLine(c, Head(stream))
    else if |stream| > MAX_WIRE_HEADER then Err(HeaderTooLong)
    else Line(c, stream, fails)
  }

  ghost predicate IsLine(s: Bytes) {
    s != [] && s[|s| - 1] == NEWLINE && NEWLINE !in s[..|s| - 1]
  }

  /** What reading a header leaves: a line or all of a stream that ends, or the error of one that has neither. */
  ghost predicate IsHeader(all: Bytes, rest: Bytes, fails: bool, r: Result<Bytes, FrameError>) {
    match r
    case Ok(buf) =>
      && all == buf + rest && |buf| <= MAX_WIRE_HEADER
      && (IsLine(buf) || (rest == [] && !fails && NEWLINE !in buf))
    case Err(e) =>
      || (e == ReadFailed && fails && |all| <= MAX_WIRE_HEADER && NEWLINE !in all)
      || (e == HeaderTooLong && |all| > MAX_WIRE_HEADER && NEWLINE !in all[..MAX_WIRE_HEADER])
  }

  lemma StreamEnds(buf: Bytes, all: Bytes, fails: bool)
    requires NEWLINE !in buf && |buf| <= MAX_WIRE_HEADER && all == buf + []
    ensures IsHeader(all, [], fails, if fails then Err(ReadFailed) else Ok(buf))
  {
    assert all == buf;
  }

  lemma Collects(seen: Bytes, next: Bytes, rest: Bytes, all: Bytes, fails: bool)
    requires |next| == 1 && NEWLINE !in seen && |seen| <= MAX_WIRE_HEADER && all == seen + (next + rest)
    ensures all == seen + next + rest
    ensures |seen| == MAX_WIRE_HEADER ==> IsHeader(all, rest, fails, Err(HeaderTooLong))
    ensures |seen| < MAX_WIRE_HEADER && next[0] == NEWLINE ==> IsHeader(all, rest, fails, Ok(seen + next))
    ensures next[0] != NEWLINE ==> NEWLINE !in seen + next
  {
    var buf := seen + next;
    assert buf[..|seen|] == seen && buf[|seen|] == next[0] && all[..|seen|] == seen;
  }

  /** Bytes are collected one by one up to a newline, the end of the stream or the size limit. */
  method ReadHeader(recv: RecvStream) returns (r: Result<Bytes, FrameError>)
    requires recv.Valid()
    modifies recv
    ensures recv.Valid() && IsHeader(old(recv.Remaining()), recv.Remaining(), recv.fails, r)
  {
    var buf: Bytes := [];
    ghost var all := recv.Remaining();
    while true
      invariant recv.Valid() && NEWLINE !in buf && |buf| <= MAX_WIRE_HEADER && all == buf + recv.Remaining()
      decreases |recv.Remaining()|
    {
      var next := recv.Read(1);
      if !next.Got? {
        StreamEnds(buf, all, recv.fails);
        return if next.Failed? then Err(ReadFailed) else Ok(buf);
      }
      Collects(buf, next.bytes, recv.Remaining(), all, recv.fails);
      buf := buf + next.bytes;
      if |buf| > MAX_WIRE_HEADER {
        return Err(HeaderTooLong);
      }
      if next.bytes[0] == NEWLINE {
        return Ok(buf);
      }
    }
  }

  lemma LineOfRequest<F>(c: Codec<F>, buf: Bytes, rest: Bytes, fails: bool)
    requires IsLine(buf) && |buf| <= MAX_WIRE_HEADER
    ensures RequestLine(c, buf + rest, fails) == DecodeLine(c, buf)
    ensures DecodeLine(c, buf).Ok? ==> DecodeLine(c, buf).value.1 == |buf|
  {
    FirstNewlineAt(buf, |buf| - 1);
    var head := Head(buf + rest);
    var more := head[|buf|..];
    assert head == buf + more;
    assert head[|buf| - 1] == NEWLINE;
    LineOfPrefix(c, buf, more);
  }

  method ReadRequestLine<F>(c: Codec<F>, recv: RecvStream) returns (r: Result<F, FrameError>)
    requires recv.Valid()
    modifies recv
    ensures recv.Valid()
    ensures r.Err? ==> RequestLine(c, old(recv.Remaining()), recv.fails) == Err(r.error)
    ensures r.Ok? ==>
      var line := RequestLine(c, old(recv.Remaining()), recv.fails);
      line.Ok? && line.value.0 == r.value && recv.Remaining() == old(recv.Remaining())[line.value.1..]
  {
    var header := ReadHeader(recv);
    if header.Err? {
      return Err(header.error);
    }
    var buf := header.value;
    if IsLine(buf) {
      LineOfRequest(c, buf, recv.Remaining(), recv.fails);
    } else {
      assert buf + recv.Remaining() == buf;
    }
    var line := DecodeLine(c, buf);
    if line.Err? {
      return Err(line.error);
    }
    return Ok(line.value.0);
  }

  /** A request line of at most MAX_WIRE_HEADER bytes is read back, and a longer one is refused. */
  lemma RequestLineRoundTrip<F(!new)>(c: Codec<F>, f: F, rest: Bytes, fails: bool)
    requires Lawful(c)
    ensures RequestLine(c, EncodeLine(c, f) + rest, fails)
            == if |EncodeLine(c, f)| <= MAX_WIRE_HEADER then Ok((f, |EncodeLine(c, f)|)) else Err(HeaderTooLong)
  {
    var line := EncodeLine(c, f);
    var stream := line + rest;
    if |line| <= MAX_WIRE_HEADER {
      assert line[..|line| - 1] == c.encode(f);
      LineOfRequest(c, line, rest, fails);
      LineRoundTrip(c, f, []);
      assert line + [] == line;
    } else {
      assert stream[..MAX_WIRE_HEADER] == c.encode(f)[..MAX_WIRE_HEADER];
    }
  }
}
