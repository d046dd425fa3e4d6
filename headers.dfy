/** `parse_headers`, which src/proxy.py, kalamari/proxy.py and
    kalamari/kalamari.py share: lines are read until the first empty line
    (CR LF, LF, or the end of file), with at most 65536 bytes per line and
    at most 100 lines counting the terminator, each line read with
    `readline()` and so subject to its limit too; the lines are joined,
    decoded as ISO-8859-1 and handed to the `email` parser. */
module HeaderReader {
  import opened Text
  import opened Streams
  import Message

  const MaxLine: nat := 65536
  const MaxHeaders: nat := 100

  /** All are ValueError in Python; the constructor records why. */
  datatype HeaderError = ReadFailed(e: ReadError) | LineTooLong | TooManyHeaders

  /** The lines read, the terminator last, and what was left unread. */
  datatype HeaderRead = HeaderRead(lines: seq<Bytes>, rest: Bytes)

  /** `line in (b'\r\n', b'\n', b'')`. */
  predicate IsTerminator(line: Bytes)
  {
    line == [CR, LF] || line == [LF] || line == []
  }

  /** The loop of `parse_headers` over the unread input `s`, with `acc` the
      lines accumulated so far: `readline()` may raise first, then comes the
      length check, then the line is appended and the count checked, then
      the terminator ends the loop. */
  function ReadLines(s: Bytes, acc: seq<Bytes>): Result<HeaderRead, HeaderError>
    requires |acc| <= MaxHeaders
    decreases MaxHeaders - |acc|
  {
    var n := LineLength(s);
    match ReadLineOf(s)
    case Err(e) => Err(ReadFailed(e))
    case Ok(line) =>
      if |line| > MaxLine then Err(LineTooLong)
      else if |acc| + 1 > MaxHeaders then Err(TooManyHeaders)
      else if IsTerminator(line) then Ok(HeaderRead(acc + [line], s[n..]))
      else ReadLines(s[n..], acc + [line])
  }

  /** The lines `parse_headers` collects from `s`. */
  function HeaderLines(s: Bytes): Result<HeaderRead, HeaderError>
  {
    ReadLines(s, [])
  }

  /** What `parse_headers` returns for the input `s`, with the input it
      leaves unread. */
  function ParsedHeaders(s: Bytes): Result<(Message.Headers, Bytes), HeaderError>
  {
    match HeaderLines(s)
    case Err(e) => Err(e)
    case Ok(r) => Ok((Message.Parse(Latin1Decode(Concat(r.lines))), r.rest))
  }

  /** The request line of `input` fits `readline`'s limit and the header
      block after it is read. */
  predicate HeadRead(input: Bytes)
  {
    ReadLineOf(input).Ok? && ParsedHeaders(input[LineLength(input)..]).Ok?
  }

  /** What the client sent after its header block: the bytes a session
      relays upstream. */
  function BodyOf(input: Bytes): Bytes
    requires HeadRead(input)
  {
    ParsedHeaders(input[LineLength(input)..]).value.1
  }

  /** The loop itself, reading from the client's stream. */
  method ReadHeaderLines(reader: StreamReader) returns (r: Result<seq<Bytes>, HeaderError>)
    requires reader.Valid()
    modifies reader
    ensures reader.Valid() && reader.data == old(reader.data)
    ensures var spec := HeaderLines(old(reader.Remaining()));
            match spec
            case Err(e) => r == Err(e)
            case Ok(h) => r == Ok(h.lines) && reader.Remaining() == h.rest
  {
    var headers: seq<Bytes> := [];
    while true
      invariant reader.Valid() && reader.data == old(reader.data)
      invariant |headers| <= MaxHeaders
      invariant HeaderLines(old(reader.Remaining())) == ReadLines(reader.Remaining(), headers)
      decreases MaxHeaders - |headers|
    {
      var read := reader.ReadLine();
      if read.Err? {
        return Err(ReadFailed(read.error));
      }
      var line := read.value;
      if |line| > MaxLine {
        return Err(LineTooLong);
      }
      headers := headers + [line];
      if |headers| > MaxHeaders {
        return Err(TooManyHeaders);
      }
      if IsTerminator(line) {
        return Ok(headers);
      }
    }
  }

  /** `ProxyServer.parse_headers`: the header lines, joined and decoded as
      ISO-8859-1, parsed into (name, value) pairs. */
  method ParseHeaders(reader: StreamReader) returns (r: Result<Message.Headers, HeaderError>)
    requires reader.Valid()
    modifies reader
    ensures reader.Valid() && reader.data == old(reader.data)
    ensures var spec := ParsedHeaders(old(reader.Remaining()));
            match spec
            case Err(e) => r == Err(e)
            case Ok(p) => r == Ok(p.0) && reader.Remaining() == p.1
  {
    var lines := ReadHeaderLines(reader);
    if lines.Err? {
      return Err(lines.error);
    }
    var hstring := Latin1Decode(Concat(lines.value));
    return Ok(Message.Parse(hstring));
  }

  // ---------------------------------------------------------------------
  // What the loop guarantees

  /** The lines of an accepted header block: each within the length limit,
      the last one the only terminator, together exactly the bytes read. */
  ghost predicate Accepted(s: Bytes, r: HeaderRead)
  {
    1 <= |r.lines| <= MaxHeaders
    && (forall k :: 0 <= k < |r.lines| ==> |r.lines[k]| <= MaxLine)
    && IsTerminator(r.lines[|r.lines| - 1])
    && (forall k :: 0 <= k < |r.lines| - 1 ==> !IsTerminator(r.lines[k]))
    && Concat(r.lines) + r.rest == s
  }

  lemma {:induction false} ReadLinesAccepted(s: Bytes, acc: seq<Bytes>, r: HeaderRead)
    requires |acc| <= MaxHeaders
    requires forall k :: 0 <= k < |acc| ==> |acc[k]| <= MaxLine && !IsTerminator(acc[k])
    requires ReadLines(s, acc) == Ok(r)
    ensures Accepted(Concat(acc) + s, r)
    decreases MaxHeaders - |acc|
  {
    var n := LineLength(s);
    var line := ReadLineOf(s).value;
    assert s == line + s[n..];
    ConcatAppend(acc, line);
    AppendAssoc(Concat(acc), line, s[n..]);
    if !IsTerminator(line) {
      ReadLinesAccepted(s[n..], acc + [line], r);
    }
  }

  /** When `parse_headers` succeeds it has read at most 99 header lines and
      one terminator, each line at most 65536 bytes long, stopped at the
      first terminator, and consumed nothing after it. */
  lemma HeaderLinesAccepted(s: Bytes)
    requires HeaderLines(s).Ok?
    ensures Accepted(s, HeaderLines(s).value)
    ensures |HeaderLines(s).value.lines| - 1 <= MaxHeaders - 1
  {
    assert Concat<byte>([]) + s == s;
    ReadLinesAccepted(s, [], HeaderLines(s).value);
  }

  /** A header line that passes every check: complete, within the length
      limit and not a terminator. */
  predicate IsHeaderLine(line: Bytes)
  {
    IsFullLine(line) && |line| <= MaxLine && !IsTerminator(line)
  }

  lemma ReadLinesStep(line: Bytes, tail: Bytes, acc: seq<Bytes>)
    requires IsHeaderLine(line) && |acc| < MaxHeaders
    ensures ReadLines(line + tail, acc) == ReadLines(tail, acc + [line])
  {
    var s := line + tail;
    LineLengthFull(line, tail);
    ReadLineFull(line, tail);
    assert s[|line|..] == tail;
  }

  /** Lines that pass every check are accumulated one after the other. */
  lemma {:induction false} ReadLinesConcat(ls: seq<Bytes>, rest: Bytes, acc: seq<Bytes>)
    requires |acc| + |ls| <= MaxHeaders
    requires forall k :: 0 <= k < |ls| ==> IsHeaderLine(ls[k])
    ensures ReadLines(Concat(ls) + rest, acc) == ReadLines(rest, acc + ls)
    decreases |ls|
  {
    if ls == [] {
      assert Concat(ls) + rest == rest;
      assert acc + ls == acc;
    } else {
      var line := ls[0];
      var tail := Concat(ls[1..]) + rest;
      assert Concat(ls) == line + Concat(ls[1..]);
      AppendAssoc(line, Concat(ls[1..]), rest);
      ReadLinesStep(line, tail, acc);
      ReadLinesConcat(ls[1..], rest, acc + [line]);
      SliceCons(ls, 0);
      assert ls[0..] == ls;
      AppendAssoc(acc, [line], ls[1..]);
    }
  }

  /** A CR LF line ends the loop and is kept as the last line. */
  lemma ReadLinesTerminator(rest: Bytes, acc: seq<Bytes>)
    requires |acc| < MaxHeaders
    ensures ReadLines([CR, LF] + rest, acc) == Ok(HeaderRead(acc + [[CR, LF]], rest))
  {
    var s := [CR, LF] + rest;
    LineLengthFull([CR, LF], rest);
    ReadLineFull([CR, LF], rest);
    assert s[2..] == rest;
  }

  /** 99 header lines and a CR LF terminator are accepted, and the bytes
      after the terminator are left for the body. */
  lemma NinetyNineHeadersAccepted(ls: seq<Bytes>, rest: Bytes)
    requires |ls| == MaxHeaders - 1
    requires forall k :: 0 <= k < |ls| ==> IsHeaderLine(ls[k])
    ensures HeaderLines(Concat(ls) + ([CR, LF] + rest)) == Ok(HeaderRead(ls + [[CR, LF]], rest))
  {
    ReadLinesConcat(ls, [CR, LF] + rest, []);
    assert [] + ls == ls;
    ReadLinesTerminator(rest, ls);
  }

  /** With 100 header lines the terminator is the 101st line and the count
      check fires first: ValueError, whatever follows, unless the next line
      is itself too long. */
  lemma HundredHeadersRejected(ls: seq<Bytes>, rest: Bytes)
    requires |ls| == MaxHeaders
    requires forall k :: 0 <= k < |ls| ==> IsHeaderLine(ls[k])
    requires LineLength(rest) <= MaxLine
    ensures HeaderLines(Concat(ls) + rest) == Err(TooManyHeaders)
  {
    ReadLinesConcat(ls, rest, []);
  }

  /** A line longer than 65536 bytes among the first 101 is rejected, even
      in the place of the 101st line: by `readline()` when its LF lies
      beyond the limit, by the length check otherwise. */
  lemma LongLineRejected(ls: seq<Bytes>, rest: Bytes)
    requires |ls| <= MaxHeaders
    requires forall k :: 0 <= k < |ls| ==> IsHeaderLine(ls[k])
    requires LineLength(rest) > MaxLine
    ensures ReadLineOf(rest).Ok? ==> HeaderLines(Concat(ls) + rest) == Err(LineTooLong)
    ensures ReadLineOf(rest).Err? ==> HeaderLines(Concat(ls) + rest) == Err(ReadFailed(ReadLineOf(rest).error))
  {
    ReadLinesConcat(ls, rest, []);
  }

  /** Decoding the joined lines as ISO-8859-1 loses nothing: encoding the
      text gives back exactly the bytes read. */
  lemma DecodedHeadersLossless(s: Bytes)
    requires HeaderLines(s).Ok?
    ensures Latin1Encode(Latin1Decode(Concat(HeaderLines(s).value.lines))) == Some(Concat(HeaderLines(s).value.lines))
  {
    Latin1RoundTrip(Concat(HeaderLines(s).value.lines));
  }
}
