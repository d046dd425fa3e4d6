/** One proxied request of src/proxy.py: the `HTTPRequest` record and its
    timeout, the `ProxySessionOutput` protocol object that receives the
    upstream transport and writes the request to it, and the relay loop of
    `ProxySession.run` that forwards the client's bytes once the transport
    is there. The clock is a parameter: `time.time()` readings are passed
    in, in the order the code takes them. */
module Session {
  import opened Text
  import opened Streams
  import Message

  /** The port of a request: the text after `:` of a CONNECT target, or
      the number `parse_url` gives. */
  datatype Port = PortText(text: string) | PortNumber(number: nat)

  /** `HTTPRequest`: `time` is what `time.time()` read when it was made. */
  datatype Request = Request(verb: string, host: Option<string>, port: Port, path: string,
                             headers: Message.Headers, sessionId: nat, time: real)

  /** `UnicodeEncodeError` from `.encode('iso-8859-1')`. */
  datatype EncodeError = UnicodeEncodeError

  // ---------------------------------------------------------------------
  // Timeout

  /** `timed_out()` at the clock reading `now`: strictly more than `timeout`
      seconds since the request was made. */
  predicate TimedOut(now: real, created: real, timeout: real)
  {
    now - created > timeout
  }

  /** Once timed out, a request stays timed out; exactly `timeout` seconds
      after it was made it is not yet timed out. */
  lemma TimedOutMonotone(now: real, later: real, created: real, timeout: real)
    requires now <= later
    ensures TimedOut(now, created, timeout) ==> TimedOut(later, created, timeout)
    ensures !TimedOut(created + timeout, created, timeout)
  {
  }

  /** Clock readings never go back. `time.time()` does not promise this. */
  ghost predicate Monotone(clock: seq<real>)
  {
    forall i, j :: 0 <= i <= j < |clock| ==> clock[i] <= clock[j]
  }

  /** The number of readings the wait of `run()` takes from reading `i` on
      when no transport comes: up to and including the first one past the
      timeout. */
  function Polls(clock: seq<real>, created: real, timeout: real, i: nat): (n: nat)
    requires i <= |clock| - 2 && TimedOut(clock[|clock| - 2], created, timeout)
    ensures i < n <= |clock| - 1 && TimedOut(clock[n - 1], created, timeout)
    ensures forall j :: i <= j < n - 1 ==> !TimedOut(clock[j], created, timeout)
    decreases |clock| - i
  {
    if TimedOut(clock[i], created, timeout) then i + 1 else Polls(clock, created, timeout, i + 1)
  }

  /** With readings that never go back, the second `timed_out()` after a
      wait without transport always holds, so `run()` returns there. */
  lemma {:induction false} MonotoneRecheckTimesOut(clock: seq<real>, created: real, timeout: real)
    requires Monotone(clock) && |clock| >= 2 && TimedOut(clock[|clock| - 2], created, timeout)
    ensures TimedOut(clock[Polls(clock, created, timeout, 0)], created, timeout)
  {
    var n := Polls(clock, created, timeout, 0);
    TimedOutMonotone(clock[n - 1], clock[n], created, timeout);
  }

  /** A clock that steps back after the wait: the first reading is past
      the timeout, the second is the creation time again. With no
      transport the second `timed_out()` is false, so `run()` goes on to
      write to the missing transport. */
  lemma BackwardStepRecheck(created: real, timeout: real)
    requires timeout >= 0.0
    ensures var late := created + timeout + 1.0;
            var clock := [late, created, late, late];
            Recheck(false, clock, created, timeout) == 1 && !TimedOut(clock[1], created, timeout)
  {
  }

  // ---------------------------------------------------------------------
  // What `connection_made` sends upstream

  /** `str(host)`: a request without a host name formats as `None`. */
  function HostText(host: Option<string>): string
  {
    match host
    case None => "None"
    case Some(h) => h
  }

  /** The request line and the two fixed headers, as formatted. */
  function RequestHead(r: Request): string
  {
    r.verb + " " + r.path + " HTTP/1.0\r\nHost: " + HostText(r.host) + "\r\nConnection: close\r\n"
  }

  /** `header.lower() in ('connection', 'host')`: the client's own
      Connection and Host headers are not forwarded. */
  predicate Dropped(h: Message.Header)
  {
    Lower(h.name) == "connection" || Lower(h.name) == "host"
  }

  /** The client's headers that are forwarded, in their order. */
  function Forwarded(hs: Message.Headers): (r: Message.Headers)
    ensures |r| <= |hs|
    ensures forall k :: 0 <= k < |r| ==> !Dropped(r[k])
  {
    if hs == [] then []
    else
      var last := hs[|hs| - 1];
      Forwarded(hs[..|hs| - 1]) + (if Dropped(last) then [] else [last])
  }

  /** A header is forwarded exactly when the client sent it and it is not
      dropped. */
  lemma {:induction false} ForwardedMembers(hs: Message.Headers, h: Message.Header)
    ensures h in Forwarded(hs) <==> h in hs && !Dropped(h)
    decreases |hs|
  {
    if hs != [] {
      var init, last := hs[..|hs| - 1], hs[|hs| - 1];
      ForwardedMembers(init, h);
      assert hs == init + [last];
    }
  }

  /** Everything `connection_made` writes to the transport for a request
      that is not CONNECT, as the pieces it encodes one at a time. */
  function UpstreamLines(r: Request): seq<string>
  {
    [RequestHead(r)] + Message.HeaderTexts(Forwarded(r.headers)) + ["\r\n"]
  }

  /** Encoding pieces one after the other, writing each as soon as it is
      encoded: the bytes written, and whether every piece encoded. A piece
      that does not encode stops the writing. */
  function EncodeEach(pieces: seq<string>): (Bytes, bool)
  {
    if pieces == [] then ([], true)
    else
      var (sent, ok) := EncodeEach(pieces[..|pieces| - 1]);
      if !ok then (sent, false)
      else
        match Latin1Encode(pieces[|pieces| - 1])
        case None => (sent, false)
        case Some(b) => (sent + b, true)
  }

  /** Every piece is written exactly when every piece encodes, and then
      the bytes written are the encoding of all the pieces together. */
  lemma {:induction false} EncodeEachAll(pieces: seq<string>)
    ensures EncodeEach(pieces).1 <==> forall k :: 0 <= k < |pieces| ==> IsLatin1(pieces[k])
    ensures EncodeEach(pieces).1 ==> Latin1Encode(Concat(pieces)) == Some(EncodeEach(pieces).0)
    decreases |pieces|
  {
    if pieces != [] {
      var init := pieces[..|pieces| - 1];
      var last := pieces[|pieces| - 1];
      assert pieces == init + [last];
      EncodeEachAll(init);
      ConcatAppend(init, last);
      if EncodeEach(init).1 && IsLatin1(last) {
        Latin1EncodeAppend(Concat(init), last);
      }
    }
  }

  // ---------------------------------------------------------------------
  // The protocol object

  class ProxySessionOutput {
    /** `proxysession.writer`: the stream back to the client. */
    const client: StreamWriter
    const request: Request
    /** None until `connection_made`. */
    var transport: Option<StreamWriter>

    constructor(client: StreamWriter, request: Request)
      ensures this.client == client && this.request == request && transport.None?
      ensures !Ready()
    {
      this.client := client;
      this.request := request;
      transport := None;
    }

    /** `ready()`: the transport has been stored. */
    predicate Ready()
      reads this
    {
      transport.Some?
    }

    /** `connection_made(transport)`: the transport is stored first. For
        CONNECT, `HTTP/1.1 200 OK` goes to the client and nothing upstream.
        Otherwise the request line and fixed headers, each forwarded header
        and the closing empty line are encoded and written one at a time;
        a piece that does not encode as ISO-8859-1 raises and stops the
        writing after the pieces before it. */
    method ConnectionMade(t: StreamWriter) returns (r: Result<(), EncodeError>)
      requires t != client
      modifies this, t, client
      ensures transport == Some(t) && Ready()
      ensures t.closed == old(t.closed) && client.closed == old(client.closed)
      ensures request.verb == "CONNECT" ==>
                r.Ok? && client.log == old(client.log) + Ascii("HTTP/1.1 200 OK\n\n") && t.log == old(t.log)
      ensures request.verb != "CONNECT" ==>
                client.log == old(client.log)
                && t.log == old(t.log) + EncodeEach(UpstreamLines(request)).0
                && (r.Ok? <==> EncodeEach(UpstreamLines(request)).1)
    {
      transport := Some(t);
      if request.verb == "CONNECT" {
        client.Write(Ascii("HTTP/1.1 200 OK\n\n"));
        return Ok(());
      }
      r := WriteRequest(t, request);
    }

    /** `data_received(data)`: the bytes go to the client unchanged. */
    method DataReceived(data: Bytes)
      modifies client
      ensures client.log == old(client.log) + data && client.closed == old(client.closed)
    {
      client.Write(data);
    }

    /** `connection_lost(exc)`: the client stream is closed. */
    method ConnectionLost()
      modifies client
      ensures client.closed && client.log == old(client.log)
    {
      client.Close();
    }
  }

  /** The writes of `connection_made` for a request that is not CONNECT:
      the request line and fixed headers, each forwarded header and the
      closing empty line, each encoded as ISO-8859-1 and written before the
      next is encoded; a piece that does not encode raises, after the
      pieces before it were written. */
  method WriteRequest(t: StreamWriter, req: Request) returns (r: Result<(), EncodeError>)
    modifies t
    ensures t.closed == old(t.closed)
    ensures t.log == old(t.log) + EncodeEach(UpstreamLines(req)).0
    ensures r.Ok? <==> EncodeEach(UpstreamLines(req)).1
  {
    var encoded := Latin1Encode(RequestHead(req));
    EncodeEachSnoc([], RequestHead(req));
    assert Sent(req, 0) == [] + [RequestHead(req)];
    if encoded.None? {
      UpstreamSplit(req, 0);
      EncodeEachStops(Sent(req, 0), Unsent(req, 0));
      return Err(UnicodeEncodeError);
    }
    t.Write(encoded.value);
    r := WriteHeaders(t, req, old(t.log));
    if r.Err? {
      return;
    }
    var n := |req.headers|;
    UpstreamSplit(req, n);
    EncodeEachSnoc(Sent(req, n), "\r\n");
    CrLfBytes();
    ghost var sent := EncodeEach(Sent(req, n)).0;
    assert EncodeEach(UpstreamLines(req)) == (sent + [CR, LF], true);
    t.Write([CR, LF]);
    AppendAssoc(old(t.log), sent, [CR, LF]);
  }

  /** The loop of `connection_made` over the client's headers, after the
      request head was written on top of `base`. */
  method WriteHeaders(t: StreamWriter, req: Request, ghost base: Bytes) returns (r: Result<(), EncodeError>)
    requires EncodeEach(Sent(req, 0)).1 && t.log == base + EncodeEach(Sent(req, 0)).0
    modifies t
    ensures t.closed == old(t.closed)
    ensures r.Ok? ==> EncodeEach(Sent(req, |req.headers|)).1
                      && t.log == base + EncodeEach(Sent(req, |req.headers|)).0
    ensures r.Err? ==> !EncodeEach(UpstreamLines(req)).1 && t.log == base + EncodeEach(UpstreamLines(req)).0
  {
    var hs := req.headers;
    for i := 0 to |hs|
      invariant t.closed == old(t.closed)
      invariant EncodeEach(Sent(req, i)).1
      invariant t.log == base + EncodeEach(Sent(req, i)).0
    {
      var h := hs[i];
      SentStep(req, i);
      if Dropped(h) {
        AppendNil(Sent(req, i));
        continue;
      }
      var text := Message.HeaderText(h);
      assert Sent(req, i + 1) == Sent(req, i) + [text];
      var line := Latin1Encode(text);
      EncodeEachSnoc(Sent(req, i), text);
      if line.None? {
        UpstreamSplit(req, i + 1);
        EncodeEachStops(Sent(req, i + 1), Unsent(req, i + 1));
        return Err(UnicodeEncodeError);
      }
      t.Write(line.value);
      AppendAssoc(base, EncodeEach(Sent(req, i)).0, line.value);
    }
    return Ok(());
  }

  // ---------------------------------------------------------------------
  // The relay loop

  /** The frame of a transport that may be absent. */
  function Writers(t: Option<StreamWriter>): set<StreamWriter>
  {
    if t.Some? then {t.value} else {}
  }

  /** How `run()` ends: it returns at its second `timed_out()` check, or it
      has relayed the client's stream to its end, or it raised
      AttributeError writing the first chunk to a transport that never came. */
  datatype RunEnd = Expired | Relayed | NoTransport

  /** The size of the chunks `run()` reads from the client. */
  const ChunkSize: nat := 8192

  /** How many bytes one `read(8192)` takes when `left` bytes are unread. */
  function Chunk(left: nat): (n: nat)
    ensures n <= left && n <= ChunkSize && (n == left || n == ChunkSize)
  {
    if left < ChunkSize then left else ChunkSize
  }

  /** The clock reading the second `timed_out()` of `run()` takes: the
      first when the transport was there from the start, so that `ready()`
      cut the wait short, and otherwise the one after the wait's last. */
  function Recheck(ready: bool, clock: seq<real>, created: real, timeout: real): (k: nat)
    requires |clock| >= 2 && TimedOut(clock[|clock| - 2], created, timeout)
    ensures k < |clock|
  {
    if ready then 0 else Polls(clock, created, timeout, 0)
  }

  /** `run()` for a transport that is either already there or never comes:
      the code polls `ready()` and `timed_out()` until one holds, each
      `timed_out()` taking the next clock reading, then checks
      `timed_out()` once more and returns if it holds; otherwise it reads
      the client's stream in chunks of 8192 bytes until the end of file and
      writes every chunk to the transport, which raises on the first chunk
      when there is no transport. `polls` is the number of clock readings
      the wait took; the last reading in `clock` but one has to be past the
      timeout, so that the wait ends. The readings may go back. */
  method Relay(reader: StreamReader, transport: Option<StreamWriter>, created: real, timeout: real, clock: seq<real>)
    returns (polls: nat, end: RunEnd)
    requires reader.Valid()
    requires |clock| >= 2 && TimedOut(clock[|clock| - 2], created, timeout)
    modifies reader, Writers(transport)
    ensures reader.Valid() && reader.data == old(reader.data)
    ensures polls == Recheck(transport.Some?, clock, created, timeout)
    ensures end == Expired <==> TimedOut(clock[polls], created, timeout)
    ensures end == NoTransport <==> transport.None? && !TimedOut(clock[polls], created, timeout)
                                    && old(reader.Remaining()) != []
    ensures end == Expired ==> reader.pos == old(reader.pos)
    ensures end == NoTransport ==> reader.pos == old(reader.pos) + Chunk(|old(reader.Remaining())|)
    ensures end == Relayed ==> reader.AtEof()
    ensures transport.Some? && end == Expired ==> transport.value.log == old(transport.value.log)
    ensures transport.Some? && end == Relayed ==>
              transport.value.log == old(transport.value.log) + old(reader.Remaining())
    ensures transport.Some? ==> transport.value.closed == old(transport.value.closed)
  {
    polls := Wait(transport.Some?, created, timeout, clock);
    if TimedOut(clock[polls], created, timeout) {
      return polls, Expired;
    }
    if transport.None? {
      if reader.AtEof() {
        return polls, Relayed;
      }
      var data := reader.Read(ChunkSize);
      return polls, NoTransport;
    }
    Forward(reader, transport.value);
    return polls, Relayed;
  }

  /** The wait of `run()`: `ready()` is checked first, and `timed_out()`
      takes the next reading only when it is false. */
  method Wait(ready: bool, created: real, timeout: real, clock: seq<real>) returns (polls: nat)
    requires |clock| >= 2 && TimedOut(clock[|clock| - 2], created, timeout)
    ensures polls == Recheck(ready, clock, created, timeout)
  {
    var i := 0;
    while !ready && !TimedOut(clock[i], created, timeout)
      invariant 0 <= i <= |clock| - 2
      invariant ready ==> i == 0
      invariant !ready ==> Polls(clock, created, timeout, i) == Polls(clock, created, timeout, 0)
      decreases |clock| - i
    {
      i := i + 1;
    }
    polls := if ready then 0 else i + 1;
  }

  /** The copy loop of `run()`: chunks of the client's stream go to `t`
      until the end of file. */
  method Forward(reader: StreamReader, t: StreamWriter)
    requires reader.Valid()
    modifies reader, t
    ensures reader.Valid() && reader.data == old(reader.data) && reader.AtEof()
    ensures t.log == old(t.log) + old(reader.Remaining()) && t.closed == old(t.closed)
  {
    ghost var sent: Bytes := [];
    while !reader.AtEof()
      invariant reader.Valid() && reader.data == old(reader.data)
      invariant old(reader.Remaining()) == sent + reader.Remaining()
      invariant t.log == old(t.log) + sent && t.closed == old(t.closed)
      decreases |reader.Remaining()|
    {
      var data := reader.Read(ChunkSize);
      t.Write(data);
      sent := sent + data;
    }
    assert reader.Remaining() == [];
  }

  class ProxySession {
    const reader: StreamReader
    /** The stream back to the client. */
    const writer: StreamWriter
    const request: Request
    /** None until `connect()`. */
    var output: ProxySessionOutput?

    constructor(reader: StreamReader, writer: StreamWriter, request: Request)
      ensures this.reader == reader && this.writer == writer && this.request == request
      ensures output == null
    {
      this.reader := reader;
      this.writer := writer;
      this.request := request;
      output := null;
    }

    /** `connect()`: a fresh protocol object, not yet ready, answering to
        the client's writer. Opening the upstream connection is left to
        the event loop, which later calls `ConnectionMade`. */
    method Connect()
      modifies this
      ensures output != null && fresh(output)
      ensures output.client == writer && output.request == request && !output.Ready()
    {
      output := new ProxySessionOutput(writer, request);
    }

    /** `run()` with the connection's state as it stands. */
    method Run(timeout: real, clock: seq<real>) returns (end: RunEnd)
      requires output != null && reader.Valid()
      requires |clock| >= 2 && TimedOut(clock[|clock| - 2], request.time, timeout)
      modifies reader, Writers(output.transport)
      ensures reader.Valid() && reader.data == old(reader.data)
      ensures var k := Recheck(output.Ready(), clock, request.time, timeout);
              (end == Expired <==> TimedOut(clock[k], request.time, timeout))
              && (end == NoTransport <==> !output.Ready() && !TimedOut(clock[k], request.time, timeout)
                                          && old(reader.Remaining()) != [])
      ensures end == Expired ==> reader.pos == old(reader.pos)
      ensures end == NoTransport ==> reader.pos == old(reader.pos) + Chunk(|old(reader.Remaining())|)
      ensures end == Relayed ==> reader.AtEof()
      ensures output.Ready() && end == Expired ==> output.transport.value.log == old(output.transport.value.log)
      ensures output.Ready() && end == Relayed ==>
                output.transport.value.log == old(output.transport.value.log) + old(reader.Remaining())
      ensures output.Ready() ==> output.transport.value.closed == old(output.transport.value.closed)
    {
      var polls;
      polls, end := Relay(reader, output.transport, request.time, timeout, clock);
    }
  }

  // ---------------------------------------------------------------------
  // Properties of the forwarded headers

  /** The pieces up to and including the header at `i - 1`. */
  function Sent(r: Request, i: nat): seq<string>
    requires i <= |r.headers|
  {
    [RequestHead(r)] + Message.HeaderTexts(Forwarded(r.headers[..i]))
  }

  /** The pieces after the header at `i - 1`. */
  function Unsent(r: Request, i: nat): seq<string>
    requires i <= |r.headers|
  {
    Message.HeaderTexts(Forwarded(r.headers[i..])) + ["\r\n"]
  }

  lemma UpstreamSplit(r: Request, i: nat)
    requires i <= |r.headers|
    ensures UpstreamLines(r) == Sent(r, i) + Unsent(r, i)
    ensures i == |r.headers| ==> Unsent(r, i) == ["\r\n"]
  {
    var hs := r.headers;
    ForwardedSplit(hs, i);
    HeaderTextsAppend(Forwarded(hs[..i]), Forwarded(hs[i..]));
    var x, y := Message.HeaderTexts(Forwarded(hs[..i])), Message.HeaderTexts(Forwarded(hs[i..]));
    AppendAssoc([RequestHead(r)] + x, y, ["\r\n"]);
    AppendAssoc([RequestHead(r)], x, y);
    if i == |hs| {
      assert hs[i..] == [];
    }
  }

  lemma SentStep(r: Request, i: nat)
    requires i < |r.headers|
    ensures Sent(r, i + 1) == Sent(r, i) + (if Dropped(r.headers[i]) then [] else [Message.HeaderText(r.headers[i])])
  {
    var hs := r.headers;
    ForwardedStep(hs, i);
    HeaderTextsAppend(Forwarded(hs[..i]), if Dropped(hs[i]) then [] else [hs[i]]);
  }

  lemma EncodeEachSnoc(pieces: seq<string>, s: string)
    ensures EncodeEach(pieces + [s])
            == if !EncodeEach(pieces).1 then EncodeEach(pieces)
               else if IsLatin1(s) then (EncodeEach(pieces).0 + Latin1Encode(s).value, true)
               else (EncodeEach(pieces).0, false)
  {
    var all := pieces + [s];
    assert all[..|all| - 1] == pieces;
  }

  lemma CrLfBytes()
    ensures Latin1Encode("\r\n") == Some([CR, LF])
  {
    var s := "\r\n";
    assert IsLatin1(s);
    var b := Latin1Encode(s).value;
    assert |b| == 2 && b[0] as int == 13 && b[1] as int == 10;
    assert b == [CR, LF];
  }

  lemma ForwardedStep(hs: Message.Headers, i: nat)
    requires i < |hs|
    ensures Forwarded(hs[..i + 1]) == Forwarded(hs[..i]) + (if Dropped(hs[i]) then [] else [hs[i]])
  {
    assert hs[..i + 1][..i] == hs[..i];
  }

  /** Filtering the headers distributes over concatenation, so the
      forwarded headers keep the client's order. */
  lemma {:induction false} ForwardedAppend(a: Message.Headers, b: Message.Headers)
    ensures Forwarded(a + b) == Forwarded(a) + Forwarded(b)
    decreases |b|
  {
    if b == [] {
      assert a + b == a;
    } else {
      var init, last := b[..|b| - 1], b[|b| - 1];
      var tail := if Dropped(last) then [] else [last];
      ForwardedAppend(a, init);
      assert Forwarded(b) == Forwarded(init) + tail;
      var ab := a + b;
      assert ab[..|ab| - 1] == a + init && ab[|ab| - 1] == last;
      assert Forwarded(ab) == Forwarded(a + init) + tail;
    }
  }

  lemma ForwardedSplit(hs: Message.Headers, i: nat)
    requires i <= |hs|
    ensures Forwarded(hs) == Forwarded(hs[..i]) + Forwarded(hs[i..])
  {
    assert hs == hs[..i] + hs[i..];
    ForwardedAppend(hs[..i], hs[i..]);
  }

  lemma HeaderTextsAppend(a: Message.Headers, b: Message.Headers)
    ensures Message.HeaderTexts(a + b) == Message.HeaderTexts(a) + Message.HeaderTexts(b)
  {
  }

  /** A piece that does not encode stops the writing: nothing after it is
      written. */
  lemma {:induction false} EncodeEachStops(pieces: seq<string>, more: seq<string>)
    requires !EncodeEach(pieces).1
    ensures EncodeEach(pieces + more) == EncodeEach(pieces)
    decreases |more|
  {
    if more == [] {
      assert pieces + more == pieces;
    } else {
      var init := more[..|more| - 1];
      EncodeEachStops(pieces, init);
      var all := pieces + more;
      assert all[..|all| - 1] == pieces + init;
    }
  }

  /** The header lines and the closing empty line are the header block a
      client sends for those headers. */
  lemma {:induction false} ConcatHeaderTexts(hs: Message.Headers)
    ensures Concat(Message.HeaderTexts(hs)) + "\r\n" == Message.Serialize(hs)
    decreases |hs|
  {
    if hs != [] {
      ConcatHeaderTexts(hs[1..]);
      assert Message.HeaderTexts(hs) == [Message.HeaderText(hs[0])] + Message.HeaderTexts(hs[1..]);
    }
  }

  /** When every piece encodes, the transport receives the request head
      followed by the header block of exactly the forwarded headers. */
  lemma UpstreamBytes(r: Request)
    requires EncodeEach(UpstreamLines(r)).1
    ensures Latin1Decode(EncodeEach(UpstreamLines(r)).0) == RequestHead(r) + Message.Serialize(Forwarded(r.headers))
  {
    var texts := Message.HeaderTexts(Forwarded(r.headers));
    var lines := UpstreamLines(r);
    assert lines == [RequestHead(r)] + (texts + ["\r\n"]);
    ConcatAppend(texts, "\r\n");
    assert Concat(lines) == RequestHead(r) + Concat(texts + ["\r\n"]);
    ConcatHeaderTexts(Forwarded(r.headers));
    EncodeEachAll(lines);
    var b := EncodeEach(lines).0;
    assert Latin1Decode(b) == Concat(lines);
  }

  /** The forwarded header block parses back to the forwarded headers. */
  lemma UpstreamHeaders(hs: Message.Headers)
    requires forall k :: 0 <= k < |hs| ==> Message.WellFormed(hs[k])
    ensures Message.Parse(Message.Serialize(Forwarded(hs))) == Forwarded(hs)
  {
    var fw := Forwarded(hs);
    forall k | 0 <= k < |fw|
      ensures Message.WellFormed(fw[k])
    {
      ForwardedMembers(hs, fw[k]);
    }
    Message.ParseSerialize(fw);
  }

  /** Looking up Host or Connection, in any case, in the forwarded headers
      finds nothing. */
  lemma NoHostForwarded(hs: Message.Headers, name: string)
    requires Lower(name) == "host" || Lower(name) == "connection"
    ensures Message.Get(Forwarded(hs), name).None?
  {
  }
}
