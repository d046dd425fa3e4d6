/** The two earlier servers kept in kalamari/: the first proxy of
    kalamari/proxy.py, which parses the request line before reading the
    headers, keeps the URL's netloc as the host, and always fetches with a
    fixed `GET` request; and the stub of kalamari/kalamari.py, which reads a
    request and answers 404 to everything. Their shared pieces (the request
    line and URL parsers, the header reader, the timeout and the relay) are
    the ones in RequestLine, Url, HeaderReader and Session. */
module Legacy {
  import opened Text
  import opened Streams
  import Message
  import HeaderReader
  import RequestLine
  import Url
  import Session
  import Server
  import Utf8

  /** `HTTPRequest` of kalamari/proxy.py: no session id, and the host is
      the netloc, port included. */
  datatype LegacyRequest = LegacyRequest(verb: string, host: string, port: nat, path: string,
                                         headers: Message.Headers, time: real)

  /** What made the first handler raise. */
  datatype LegacyFailure =
    | LineOverLimit(r: ReadError)
    | UndecodableLine
    | BadRequestLine(l: RequestLine.LineError)
    | BadUrl(u: Url.UrlError)
    | BadHeaders(e: HeaderReader.HeaderError)

  /** The failures that happen before the header block is read. */
  predicate BeforeHeaders(f: LegacyFailure)
  {
    !f.BadHeaders?
  }

  /** The first handler on the client's bytes `input`: the request line is
      decoded, split and its target parsed, and only then are the headers
      read. */
  function LegacyReadRequest(input: Bytes, now: real): (r: Result<LegacyRequest, LegacyFailure>)
    ensures ReadLineOf(input).Err? ==> r == Err(LineOverLimit(ReadLineOf(input).error))
    ensures r.Ok? ==> ReadLineOf(input).Ok? && Utf8.Decode(input[..LineLength(input)]).Some?
                      && RequestLine.ParseMethodLegacy(Utf8.Decode(input[..LineLength(input)]).value).Ok?
    ensures r.Err? && !BeforeHeaders(r.error) ==>
              HeaderReader.ParsedHeaders(input[LineLength(input)..]) == Err(r.error.e)
    ensures r.Ok? ==> HeaderReader.ParsedHeaders(input[LineLength(input)..]).Ok?
                      && r.value.headers == HeaderReader.ParsedHeaders(input[LineLength(input)..]).value.0
                      && r.value.time == now
  {
    var n := LineLength(input);
    match ReadLineOf(input)
    case Err(e) => Err(LineOverLimit(e))
    case Ok(raw) =>
      match Utf8.Decode(raw)
      case None => Err(UndecodableLine)
      case Some(line) =>
        match RequestLine.ParseMethodLegacy(line)
        case Err(l) => Err(BadRequestLine(l))
        case Ok(rl) =>
          match Url.ParseUrlLegacy(rl.target)
          case Err(u) => Err(BadUrl(u))
          case Ok((host, port, path)) =>
            match HeaderReader.ParsedHeaders(input[n..])
            case Err(e) => Err(BadHeaders(e))
            case Ok((headers, _)) => Ok(LegacyRequest(rl.verb, host, port, path, headers, now))
  }

  /** The text `connection_made` sends upstream: a fixed `GET` with the
      request's path and host, whatever the client asked for. */
  function FetchText(r: LegacyRequest): string
  {
    "GET " + r.path + " HTTP/1.1\nHost: " + r.host + "\nConnection: close\n\n"
  }

  /** What goes upstream depends on the path and the host only: neither
      the client's method nor any of its headers reaches the server. */
  lemma FetchIgnoresMethodAndHeaders(r1: LegacyRequest, r2: LegacyRequest)
    requires r1.path == r2.path && r1.host == r2.host
    ensures Latin1Encode(FetchText(r1)) == Latin1Encode(FetchText(r2))
  {
  }

  /** The bytes `connection_made` writes, decoded as ISO-8859-1, are the
      fetch text; they are written exactly when every character of the
      path and the host is below U+0100. */
  lemma FetchBytes(r: LegacyRequest)
    ensures Latin1Encode(FetchText(r)).Some? <==> IsLatin1(r.path) && IsLatin1(r.host)
    ensures Latin1Encode(FetchText(r)).Some? ==> Latin1Decode(Latin1Encode(FetchText(r)).value) == FetchText(r)
  {
    var get, version, close := "GET ", " HTTP/1.1\nHost: ", "\nConnection: close\n\n";
    var t := FetchText(r);
    assert t == get + r.path + version + r.host + close;
    var p := |get|;
    var h := |get| + |r.path| + |version|;
    assert forall k :: 0 <= k < |r.path| ==> t[p + k] == r.path[k];
    assert forall k :: 0 <= k < |r.host| ==> t[h + k] == r.host[k];
    if IsLatin1(r.path) && IsLatin1(r.host) {
      forall k | 0 <= k < |t|
        ensures t[k] as int < 256
      {
        if k < p {
          assert t[k] == get[k];
        } else if k < p + |r.path| {
          assert t[k] == r.path[k - p];
        } else if k < h {
          assert t[k] == version[k - p - |r.path|];
        } else if k < h + |r.host| {
          assert t[k] == r.host[k - h];
        } else {
          assert t[k] == close[k - h - |r.host|];
        }
      }
    }
    if Latin1Encode(t).Some? {
      var b := Latin1Encode(t).value;
      assert Latin1Decode(b) == t;
    }
  }

  /** `ProxySessionOutput` of kalamari/proxy.py. */
  class LegacyOutput {
    /** `proxysession.writer`: the stream back to the client. */
    const client: StreamWriter
    const request: LegacyRequest
    /** None until `connection_made`. */
    var transport: Option<StreamWriter>

    constructor(client: StreamWriter, request: LegacyRequest)
      ensures this.client == client && this.request == request
      ensures !Ready()
    {
      this.client := client;
      this.request := request;
      transport := None;
    }

    /** `ready()`: the transport has been stored. */
    predicate Ready()
      reads this
    {
      transport.Some?
    }

    /** `connection_made(transport)`: the transport is stored, then the
        fetch text is encoded as ISO-8859-1 and written in one piece; when
        it does not encode, nothing is written and the error propagates. */
    method ConnectionMade(t: StreamWriter) returns (r: Result<(), Session.EncodeError>)
      modifies this, t
      ensures transport == Some(t) && Ready()
      ensures r.Ok? <==> Latin1Encode(FetchText(request)).Some?
      ensures t.log == old(t.log) + (if r.Ok? then Latin1Encode(FetchText(request)).value else [])
      ensures t.closed == old(t.closed)
    {
      transport := Some(t);
      var bytes := Latin1Encode(FetchText(request));
      if bytes.None? {
        return Err(Session.UnicodeEncodeError);
      }
      t.Write(bytes.value);
      return Ok(());
    }

    /** `data_received(data)`: the bytes go to the client unchanged. */
    method DataReceived(data: Bytes)
      modifies client
      ensures client.log == old(client.log) + data && client.closed == old(client.closed)
    {
      client.Write(data);
    }

    /** `connection_lost(exc)`: the client stream is closed. */
    method ConnectionLost()
      modifies client
      ensures client.closed && client.log == old(client.log)
    {
      client.Close();
    }
  }

  /** `ProxySession` of kalamari/proxy.py. */
  class LegacySession {
    const reader: StreamReader
    const writer: StreamWriter
    const request: LegacyRequest
    var output: LegacyOutput?

    constructor(reader: StreamReader, writer: StreamWriter, request: LegacyRequest)
      ensures this.reader == reader && this.writer == writer && this.request == request
      ensures output == null
    {
      this.reader := reader;
      this.writer := writer;
      this.request := request;
      output := null;
    }

    /** `connect()`: a fresh protocol object, not yet ready. */
    method Connect()
      modifies this
      ensures output != null && fresh(output)
      ensures output.client == writer && output.request == request && !output.Ready()
    {
      output := new LegacyOutput(writer, request);
    }

    /** `run()`: the same wait and relay as the current proxy's session,
        against the request's creation time. */
    method Run(timeout: real, clock: seq<real>) returns (end: Session.RunEnd)
      requires output != null && reader.Valid()
      requires |clock| >= 2 && Session.TimedOut(clock[|clock| - 2], request.time, timeout)
      modifies reader, Session.Writers(output.transport)
      ensures reader.Valid() && reader.data == old(reader.data)
      ensures var k := Session.Recheck(output.Ready(), clock, request.time, timeout);
              (end == Session.Expired <==> Session.TimedOut(clock[k], request.time, timeout))
              && (end == Session.NoTransport <==> !output.Ready() && !Session.TimedOut(clock[k], request.time, timeout)
                                                  && old(reader.Remaining()) != [])
      ensures end == Session.Expired ==> reader.pos == old(reader.pos)
      ensures end == Session.NoTransport ==> reader.pos == old(reader.pos) + Session.Chunk(|old(reader.Remaining())|)
      ensures end == Session.Relayed ==> reader.AtEof()
      ensures output.Ready() && end == Session.Expired ==> output.transport.value.log == old(output.transport.value.log)
      ensures output.Ready() && end == Session.Relayed ==>
                output.transport.value.log == old(output.transport.value.log) + old(reader.Remaining())
      ensures output.Ready() ==> output.transport.value.closed == old(output.transport.value.closed)
    {
      var polls;
      polls, end := Session.Relay(reader, output.transport, request.time, timeout, clock);
    }
  }

  /** `handler` of kalamari/proxy.py: the request line is read and parsed,
      the headers are read, and a session is started for every request
      that gets that far; there is no access list, no rule list and no
      answer to the client. */
  method LegacyHandle(reader: StreamReader, writer: StreamWriter, now: real)
    returns (r: Result<LegacyRequest, LegacyFailure>, session: LegacySession?)
    requires reader.Valid()
    modifies reader
    ensures reader.Valid() && reader.data == old(reader.data)
    ensures r == LegacyReadRequest(old(reader.Remaining()), now)
    ensures r.Err? && BeforeHeaders(r.error) ==>
              reader.Remaining() == old(reader.Remaining())[LineLength(old(reader.Remaining()))..]
    ensures r.Ok? ==> HeaderReader.HeadRead(old(reader.Remaining()))
                      && reader.Remaining() == HeaderReader.BodyOf(old(reader.Remaining()))
    ensures session != null <==> r.Ok?
    ensures session != null ==>
              fresh(session) && session.request == r.value && session.reader == reader && session.writer == writer
              && session.output != null && !session.output.Ready()
  {
    r := LegacyReceive(reader, now);
    if r.Err? {
      return r, null;
    }
    session := new LegacySession(reader, writer, r.value);
    session.Connect();
  }

  /** The reading half of the first handler: the request line, then the
      headers; only the reader moves. */
  method LegacyReceive(reader: StreamReader, now: real) returns (r: Result<LegacyRequest, LegacyFailure>)
    requires reader.Valid()
    modifies reader
    ensures reader.Valid() && reader.data == old(reader.data)
    ensures r == LegacyReadRequest(old(reader.Remaining()), now)
    ensures r.Err? && BeforeHeaders(r.error) ==>
              reader.Remaining() == old(reader.Remaining())[LineLength(old(reader.Remaining()))..]
    ensures r.Ok? ==> HeaderReader.HeadRead(old(reader.Remaining()))
                      && reader.Remaining() == HeaderReader.BodyOf(old(reader.Remaining()))
  {
    var line := reader.ReadLine();
    if line.Err? {
      return Err(LineOverLimit(line.error));
    }
    var decoded := Utf8.Decode(line.value);
    if decoded.None? {
      return Err(UndecodableLine);
    }
    var rl := RequestLine.ParseMethodLegacy(decoded.value);
    if rl.Err? {
      return Err(BadRequestLine(rl.error));
    }
    var url := Url.ParseUrlLegacy(rl.value.target);
    if url.Err? {
      return Err(BadUrl(url.error));
    }
    var headers := HeaderReader.ParseHeaders(reader);
    if headers.Err? {
      return Err(BadHeaders(headers.error));
    }
    var (host, port, path) := url.value;
    return Ok(LegacyRequest(rl.value.verb, host, port, path, headers.value, now));
  }

  /** The header block that `proxy_server_handler` of kalamari/kalamari.py
      reads after the request line, which it reads but does not decode;
      `readline()` of the request line may raise first. */
  function StubHeaders(input: Bytes): Result<Message.Headers, HeaderReader.HeaderError>
  {
    match ReadLineOf(input)
    case Err(e) => Err(HeaderReader.ReadFailed(e))
    case Ok(_) =>
      match HeaderReader.ParsedHeaders(input[LineLength(input)..])
      case Err(e) => Err(e)
      case Ok((headers, _)) => Ok(headers)
  }

  /** `proxy_server_handler` of kalamari/kalamari.py: the request line and
      the headers are read, then `HTTP/1.1 404 Not Found` is written and
      the writer closed; when the header reader raises, nothing is written
      and the writer stays open. */
  method StubHandle(reader: StreamReader, writer: StreamWriter) returns (r: Result<Message.Headers, HeaderReader.HeaderError>)
    requires reader.Valid()
    modifies reader, writer
    ensures reader.Valid() && reader.data == old(reader.data)
    ensures r == StubHeaders(old(reader.Remaining()))
    ensures r.Ok? ==> writer.log == old(writer.log) + Server.NotFoundLine && writer.closed
    ensures r.Err? ==> writer.log == old(writer.log) && writer.closed == old(writer.closed)
  {
    var line := reader.ReadLine();
    if line.Err? {
      return Err(HeaderReader.ReadFailed(line.error));
    }
    r := HeaderReader.ParseHeaders(reader);
    if r.Err? {
      return;
    }
    writer.Write(Server.NotFoundLine);
    writer.Close();
  }

  /** The stub answers every request it can read in the same way, whatever
      the request line says: two inputs with the same header block get the
      same answer, as long as `readline()` accepts both request lines. */
  lemma StubIgnoresRequestLine(line1: Bytes, line2: Bytes, rest: Bytes)
    requires IsFullLine(line1) && IsFullLine(line2)
    requires |line1| <= ReadLimit + 1 && |line2| <= ReadLimit + 1
    ensures StubHeaders(line1 + rest) == StubHeaders(line2 + rest)
  {
    LineLengthFull(line1, rest);
    LineLengthFull(line2, rest);
    ReadLineFull(line1, rest);
    ReadLineFull(line2, rest);
    assert (line1 + rest)[|line1|..] == rest;
    assert (line2 + rest)[|line2|..] == rest;
  }

  /** A request line whose LF lies more than 64 KiB in makes the stub's
      `readline()` raise, whatever follows, so no 404 is written. */
  lemma StubRefusesOverlongLine(line: Bytes, rest: Bytes)
    requires IsFullLine(line) && |line| > ReadLimit + 1
    ensures StubHeaders(line + rest) == Err(HeaderReader.ReadFailed(SeparatorBeyondLimit))
  {
    LineLengthFull(line, rest);
  }
}
