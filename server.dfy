/** `ProxyServer` of src/proxy.py: the session counter, the three rule
    lists and the access list, the per-connection `handler` that reads a
    request, refuses it (403 for a client outside the access list, 404 for
    a blacklisted request), redirects it when the cache list names a
    replacement URL, or starts a session for it, and the periodic refresh
    that swaps in freshly loaded lists only when all of them loaded. */
module Server {
  import opened Text
  import opened Streams
  import Message
  import HeaderReader
  import RequestLine
  import Url
  import Resource
  import Acl
  import Session
  import Utf8

  /** `CacheList`, whose code is not part of this model: for a request,
      the URL to fetch instead, if any. */
  class CacheList {
    const lookup: Session.Request -> Option<string>

    constructor(lookup: Session.Request -> Option<string>)
      ensures this.lookup == lookup
    {
      this.lookup := lookup;
    }
  }

  /** What made the handler raise instead of answering. */
  datatype Failure =
    | LineOverLimit(r: ReadError)              // `readline()` of the request line
    | UndecodableLine                          // `decode('utf8')` of the request line
    | BadHeaders(e: HeaderReader.HeaderError)  // `parse_headers`
    | BadRequestLine(l: RequestLine.LineError) // `parse_method`
    | BadAuthority                             // `hostname, port = target.split(':')`
    | BadUrl(u: Url.UrlError)                  // `parse_url`
    | BadListCheck(c: Resource.CheckError)     // `check` of a rule list

  /** How the handler ended for one connection. */
  datatype Outcome =
    | Raised(failure: Failure)
    | Forbidden
    | NotFound
    | Started(request: Session.Request)

  /** `b'HTTP/1.1 403 Forbidden\n\n'`, byte by byte. */
  const ForbiddenLine: Bytes :=
    [72, 84, 84, 80, 47, 49, 46, 49, 32, 52, 48, 51, 32, 70, 111, 114, 98, 105, 100, 100, 101, 110, 10, 10]

  /** `b'HTTP/1.1 404 Not Found\n\n'`, byte by byte. */
  const NotFoundLine: Bytes :=
    [72, 84, 84, 80, 47, 49, 46, 49, 32, 52, 48, 52, 32, 78, 111, 116, 32, 70, 111, 117, 110, 100, 10, 10]

  /** The 403 status line is the ASCII bytes of its text. */
  lemma ForbiddenText(text: string)
    requires text == "HTTP/1.1 403 Forbidden\n\n"
    ensures Ascii(text) == ForbiddenLine
  {
    var b := Ascii(text);
    assert |b| == |ForbiddenLine|;
    forall i | 0 <= i < |b|
      ensures b[i] == ForbiddenLine[i]
    {
      assert b[i] as int == text[i] as int;
    }
  }

  /** The 404 status line is the ASCII bytes of its text. */
  lemma NotFoundText(text: string)
    requires text == "HTTP/1.1 404 Not Found\n\n"
    ensures Ascii(text) == NotFoundLine
  {
    var b := Ascii(text);
    assert |b| == |NotFoundLine|;
    forall i | 0 <= i < |b|
      ensures b[i] == NotFoundLine[i]
    {
      assert b[i] as int == text[i] as int;
    }
  }

  /** The bytes written back to the client for each outcome. */
  function Reply(o: Outcome): Bytes
  {
    match o
    case Forbidden => ForbiddenLine
    case NotFound => NotFoundLine
    case _ => []
  }

  // ---------------------------------------------------------------------
  // The decisions of `handler`, as functions

  /** The `HTTPRequest` the handler builds from the decoded request line
      and the parsed headers: for CONNECT, the target split at its only
      colon, with the port as text and an empty path; otherwise host, port
      and path of `parse_url`. */
  function BuildRequest(line: string, headers: Message.Headers, id: nat, now: real): (r: Result<Session.Request, Failure>)
    ensures r.Ok? ==> RequestLine.ParseMethod(line).Ok?
                      && r.value.verb == RequestLine.ParseMethod(line).value.verb
                      && r.value.headers == headers && r.value.sessionId == id && r.value.time == now
    ensures r.Ok? && r.value.verb == "CONNECT" ==>
              r.value.host.Some? && r.value.port.PortText? && r.value.path == []
              && RequestLine.ParseMethod(line).value.target == r.value.host.value + [':'] + r.value.port.text
    ensures r.Ok? && r.value.verb != "CONNECT" ==>
              r.value.port.PortNumber? && Url.ParseUrl(RequestLine.ParseMethod(line).value.target)
              == Ok(Url.Target(r.value.host, r.value.port.number, r.value.path))
  {
    match RequestLine.ParseMethod(line)
    case Err(e) => Err(BadRequestLine(e))
    case Ok(rl) =>
      if rl.verb == "CONNECT" then
        match RequestLine.SplitAuthority(rl.target)
        case None => Err(BadAuthority)
        case Some((host, port)) => Ok(Session.Request(rl.verb, Some(host), Session.PortText(port), "", headers, id, now))
      else
        match Url.ParseUrl(rl.target)
        case Err(e) => Err(BadUrl(e))
        case Ok(t) => Ok(Session.Request(rl.verb, t.host, Session.PortNumber(t.port), t.path, headers, id, now))
  }

  /** The request read from the client's bytes `input`: the request line,
      read and decoded, then the header block, then the request built from
      both. */
  function ReadRequest(input: Bytes, id: nat, now: real): Result<Session.Request, Failure>
  {
    var n := LineLength(input);
    match ReadLineOf(input)
    case Err(e) => Err(LineOverLimit(e))
    case Ok(raw) =>
      match Utf8.Decode(raw)
      case None => Err(UndecodableLine)
      case Some(line) =>
        match HeaderReader.ParsedHeaders(input[n..])
        case Err(e) => Err(BadHeaders(e))
        case Ok((headers, _)) => BuildRequest(line, headers, id, now)
  }

  /** The access-list gate: a peer address is known and `ip_allowed`
      answers True; a ValueError counts as a refusal. */
  predicate Admitted(peer: Option<string>, nets: seq<Acl.Network>)
  {
    peer.Some? && Acl.Allows(nets, peer.value) == Ok(true)
  }

  /** Whether the request is refused with 404: the blacklist is consulted
      only when the whitelist does not hit. */
  function Blocked(req: Session.Request, white: Resource.ResourceList, black: Resource.ResourceList): (r: Result<bool, Failure>)
    reads white, black
    ensures white.Check(req.host, req.path) == Ok(true) ==> r == Ok(false)
    ensures r == Ok(true) <==> white.Check(req.host, req.path) == Ok(false) && black.Check(req.host, req.path) == Ok(true)
    ensures r.Err? <==> white.Check(req.host, req.path).Err?
                        || (white.Check(req.host, req.path) == Ok(false) && black.Check(req.host, req.path).Err?)
  {
    match white.Check(req.host, req.path)
    case Err(e) => Err(BadListCheck(e))
    case Ok(true) => Ok(false)
    case Ok(false) =>
      match black.Check(req.host, req.path)
      case Err(e) => Err(BadListCheck(e))
      case Ok(hit) => Ok(hit)
  }

  /** `if redirect:`: an empty URL counts as no redirect. */
  predicate Truthy(answer: Option<string>)
  {
    answer.Some? && answer.value != []
  }

  /** The request after the cache list's answer: a new `HTTPRequest` with
      host, port and path of the redirect URL and the method, headers and
      session id of the original. */
  function Redirected(req: Session.Request, answer: Option<string>, now: real): (r: Result<Session.Request, Failure>)
    ensures !Truthy(answer) ==> r == Ok(req)
    ensures Truthy(answer) && r.Ok? ==>
              r.value.verb == req.verb && r.value.headers == req.headers && r.value.sessionId == req.sessionId
              && r.value.port.PortNumber?
              && Url.ParseUrl(answer.value) == Ok(Url.Target(r.value.host, r.value.port.number, r.value.path))
    ensures Truthy(answer) ==> (r.Err? <==> Url.ParseUrl(answer.value).Err?)
  {
    if !Truthy(answer) then Ok(req)
    else
      match Url.ParseUrl(answer.value)
      case Err(e) => Err(BadUrl(e))
      case Ok(t) => Ok(Session.Request(req.verb, t.host, Session.PortNumber(t.port), t.path, req.headers, req.sessionId, now))
  }

  /** Everything after the request was read: the gate, the lists, the
      cache list. */
  function Route(req: Session.Request, peer: Option<string>, nets: seq<Acl.Network>,
                 white: Resource.ResourceList, black: Resource.ResourceList,
                 cache: Session.Request -> Option<string>, now: real): (r: Outcome)
    reads white, black
    ensures !Admitted(peer, nets) <==> r == Forbidden
    ensures r == NotFound <==> Admitted(peer, nets) && Blocked(req, white, black) == Ok(true)
    ensures r.Started? <==> Admitted(peer, nets) && Blocked(req, white, black) == Ok(false)
                            && Redirected(req, cache(req), now).Ok?
    ensures r.Started? ==> Redirected(req, cache(req), now) == Ok(r.request)
    ensures r.Raised? <==> Admitted(peer, nets)
                           && (Blocked(req, white, black).Err?
                               || (Blocked(req, white, black) == Ok(false) && Redirected(req, cache(req), now).Err?))
    ensures r.Raised? ==> Blocked(req, white, black) == Err(r.failure)
                          || Redirected(req, cache(req), now) == Err(r.failure)
  {
    if !Admitted(peer, nets) then Forbidden
    else
      match Blocked(req, white, black)
      case Err(f) => Raised(f)
      case Ok(true) => NotFound
      case Ok(false) =>
        match Redirected(req, cache(req), now)
        case Err(f) => Raised(f)
        case Ok(r) => Started(r)
  }

  /** What `handler` does with a connection whose client sends `input`. */
  function Decide(input: Bytes, peer: Option<string>, nets: seq<Acl.Network>,
                  white: Resource.ResourceList, black: Resource.ResourceList,
                  cache: Session.Request -> Option<string>, id: nat, now: real): Outcome
    reads white, black
  {
    match ReadRequest(input, id, now)
    case Err(f) => Raised(f)
    case Ok(req) => Route(req, peer, nets, white, black, cache, now)
  }

  // ---------------------------------------------------------------------
  // The refresh rounds

  /** The input of one round of `refresh_lists`: each list's rule set, or
      None when fetching it raised, and the lookup of the new cache list,
      or None when loading it raised. */
  datatype Round = Round(black: Option<Resource.Ruleset>, white: Option<Resource.Ruleset>,
                         cache: Option<Session.Request -> Option<string>>)

  /** `load` of this rule set does not raise. */
  predicate Loads(r: Option<Resource.Ruleset>)
  {
    r.Some? && Resource.RuleRegex(r.value.path).Ok? && Resource.RuleRegex(r.value.misc).Ok?
  }

  /** All three loads of the round succeed. */
  predicate RoundSucceeds(round: Round)
  {
    Loads(round.black) && Loads(round.white) && round.cache.Some?
  }

  /** The list holds exactly what `load` of `r` puts in a new list. */
  ghost predicate Holds(rl: Resource.ResourceList, r: Resource.Ruleset)
    reads rl
  {
    Resource.RuleRegex(r.path).Ok? && Resource.RuleRegex(r.misc).Ok?
    && rl.domains == Resource.DomainSet(r.domain)
    && rl.pathRegex == Resource.RuleRegex(r.path).value
    && rl.fullRegex == Resource.RuleRegex(r.misc).value
  }

  /** The last round, among the first `n`, whose loads all succeed. */
  function LastGood(rounds: seq<Round>): (k: Option<nat>)
    ensures k.Some? ==> k.value < |rounds| && RoundSucceeds(rounds[k.value])
                        && forall j :: k.value < j < |rounds| ==> !RoundSucceeds(rounds[j])
    ensures k.None? ==> forall j :: 0 <= j < |rounds| ==> !RoundSucceeds(rounds[j])
  {
    if rounds == [] then None
    else if RoundSucceeds(rounds[|rounds| - 1]) then Some(|rounds| - 1)
    else LastGood(rounds[..|rounds| - 1])
  }

  // ---------------------------------------------------------------------
  // The server

  /** Why the server could not be made: a list's pattern did not compile,
      or the access list did not parse. */
  datatype StartError = ListLoadFailed | BadAcl(e: Acl.AclError)

  class ProxyServer {
    var nextSessId: nat
    var blacklist: Resource.ResourceList
    var whitelist: Resource.ResourceList
    var cachelist: CacheList
    var acl: Acl.Acl

    constructor(black: Resource.ResourceList, white: Resource.ResourceList, cache: CacheList, acl: Acl.Acl)
      ensures nextSessId == 1
      ensures blacklist == black && whitelist == white && cachelist == cache && this.acl == acl
    {
      nextSessId := 1;
      blacklist := black;
      whitelist := white;
      cachelist := cache;
      this.acl := acl;
    }

    /** `ProxyServer(loop)`: the counter starts at 1; the blacklist, the
        whitelist and the cache list are loaded in that order, then the
        access list is parsed; the first failure propagates. A rule set
        that could not be fetched is None, as in `Round`. Scheduling the
        refresh is `StartPeriodicRefresh`. */
    static method Create(black: Option<Resource.Ruleset>, white: Option<Resource.Ruleset>,
                         cache: Option<Session.Request -> Option<string>>, ipAcl: string)
      returns (r: Result<ProxyServer, StartError>)
      ensures r.Ok? <==> Loads(black) && Loads(white) && cache.Some? && Acl.ParseAcl(ipAcl).Ok?
      ensures r.Err? && !(Loads(black) && Loads(white) && cache.Some?) ==> r.error == ListLoadFailed
      ensures r.Err? && Loads(black) && Loads(white) && cache.Some? ==>
                r.error == BadAcl(Acl.ParseAcl(ipAcl).error)
      ensures r.Ok? ==> fresh(r.value) && r.value.nextSessId == 1
                        && Holds(r.value.blacklist, black.value) && Holds(r.value.whitelist, white.value)
                        && r.value.cachelist.lookup == cache.value
                        && r.value.acl.networks == Acl.ParseAcl(ipAcl).value
    {
      var bl := new Resource.ResourceList();
      var wl := new Resource.ResourceList();
      if black.None? {
        return Err(ListLoadFailed);
      }
      var ok := bl.Load(black.value);
      if !ok {
        return Err(ListLoadFailed);
      }
      if white.None? {
        return Err(ListLoadFailed);
      }
      ok := wl.Load(white.value);
      if !ok {
        return Err(ListLoadFailed);
      }
      if cache.None? {
        return Err(ListLoadFailed);
      }
      var cl := new CacheList(cache.value);
      var acl := Acl.Acl.New(ipAcl);
      if acl.Err? {
        return Err(BadAcl(acl.error));
      }
      var server := new ProxyServer(bl, wl, cl, acl.value);
      return Ok(server);
    }

    /** `handler(reader, writer)` for a client whose address is `peer`
        (None when the transport does not know it) at clock reading `now`.
        The request line and the headers are read, the request is built,
        then refused with 403 (writer closed), refused with 404 (writer
        closed), or redirected and handed to a new session, which takes the
        next session id. A raised exception leaves the writer open and the
        counter as it was. */
    method Handle(reader: StreamReader, writer: StreamWriter, peer: Option<string>, now: real)
      returns (outcome: Outcome, session: Session.ProxySession?)
      requires reader.Valid()
      modifies this, reader, writer
      ensures reader.Valid() && reader.data == old(reader.data)
      ensures blacklist == old(blacklist) && whitelist == old(whitelist)
      ensures cachelist == old(cachelist) && acl == old(acl)
      ensures outcome == old(Decide(reader.Remaining(), peer, acl.networks, whitelist, blacklist,
                                    cachelist.lookup, nextSessId, now))
      ensures outcome.Started? ==> HeaderReader.HeadRead(old(reader.Remaining()))
                                   && reader.Remaining() == HeaderReader.BodyOf(old(reader.Remaining()))
      ensures writer.log == old(writer.log) + Reply(outcome)
      ensures writer.closed <==> old(writer.closed) || outcome == Forbidden || outcome == NotFound
      ensures nextSessId == if outcome.Started? then old(nextSessId) + 1 else old(nextSessId)
      ensures session != null <==> outcome.Started?
      ensures session != null ==>
                fresh(session) && session.request == outcome.request
                && session.reader == reader && session.writer == writer
                && session.output != null && !session.output.Ready()
    {
      outcome := Decision(reader, peer, now);
      session := Conclude(outcome, reader, writer);
    }

    /** The end of `handler`: the answer is written, and a started session
        takes the next session id. */
    method Conclude(outcome: Outcome, reader: StreamReader, writer: StreamWriter)
      returns (session: Session.ProxySession?)
      modifies this, writer
      ensures blacklist == old(blacklist) && whitelist == old(whitelist)
      ensures cachelist == old(cachelist) && acl == old(acl)
      ensures writer.log == old(writer.log) + Reply(outcome)
      ensures writer.closed <==> old(writer.closed) || outcome == Forbidden || outcome == NotFound
      ensures nextSessId == if outcome.Started? then old(nextSessId) + 1 else old(nextSessId)
      ensures session != null <==> outcome.Started?
      ensures session != null ==>
                fresh(session) && session.request == outcome.request
                && session.reader == reader && session.writer == writer
                && session.output != null && !session.output.Ready()
    {
      session := Respond(outcome, reader, writer);
      if outcome.Started? {
        nextSessId := nextSessId + 1;
      }
    }

    /** The deciding half of `handler`: the request is read, then routed;
        only the reader moves. */
    method Decision(reader: StreamReader, peer: Option<string>, now: real) returns (outcome: Outcome)
      requires reader.Valid()
      modifies reader
      ensures reader.Valid() && reader.data == old(reader.data)
      ensures outcome == Decide(old(reader.Remaining()), peer, acl.networks, whitelist, blacklist,
                                cachelist.lookup, nextSessId, now)
      ensures outcome.Started? ==> HeaderReader.HeadRead(old(reader.Remaining()))
                                   && reader.Remaining() == HeaderReader.BodyOf(old(reader.Remaining()))
    {
      var request := Receive(reader, nextSessId, now);
      if request.Err? {
        return Raised(request.error);
      }
      outcome := Dispatch(request.value, peer, now);
    }

    /** The steps of `handler` after the request was read, in the order
        the handler takes them: the access list, the whitelist, the
        blacklist, the cache list. Nothing is changed. */
    method Dispatch(request: Session.Request, peer: Option<string>, now: real) returns (outcome: Outcome)
      ensures outcome == Route(request, peer, acl.networks, whitelist, blacklist, cachelist.lookup, now)
    {
      if peer.None? {
        return Forbidden;
      }
      var allowed := acl.IpAllowed(peer.value);
      if allowed != Ok(true) {
        return Forbidden;
      }
      var white := whitelist.Check(request.host, request.path);
      if white.Err? {
        return Raised(BadListCheck(white.error));
      }
      if !white.value {
        var black := blacklist.Check(request.host, request.path);
        if black.Err? {
          return Raised(BadListCheck(black.error));
        }
        if black.value {
          return NotFound;
        }
      }
      var redirect := cachelist.lookup(request);
      var target := Redirected(request, redirect, now);
      if target.Err? {
        return Raised(target.error);
      }
      return Started(target.value);
    }

    /** One round of `refresh_lists`: three new lists are loaded, and only
        when all three loads succeed do they replace the server's lists;
        otherwise every list stays as it was. */
    method RefreshOnce(round: Round) returns (ok: bool)
      modifies this
      ensures ok <==> RoundSucceeds(round)
      ensures ok ==> fresh(blacklist) && fresh(whitelist) && fresh(cachelist)
                     && Holds(blacklist, round.black.value) && Holds(whitelist, round.white.value)
                     && cachelist.lookup == round.cache.value
      ensures !ok ==> blacklist == old(blacklist) && whitelist == old(whitelist) && cachelist == old(cachelist)
      ensures nextSessId == old(nextSessId) && acl == old(acl)
    {
      if round.black.None? {
        return false;
      }
      var bl := new Resource.ResourceList();
      ok := bl.Load(round.black.value);
      if !ok {
        return false;
      }
      if round.white.None? {
        return false;
      }
      var wl := new Resource.ResourceList();
      ok := wl.Load(round.white.value);
      if !ok {
        return false;
      }
      if round.cache.None? {
        return false;
      }
      var cl := new CacheList(round.cache.value);
      blacklist, whitelist, cachelist := bl, wl, cl;
      return true;
    }

    /** `refresh_lists(interval)` over the rounds that have run: after them
        the server holds the lists of the last round whose loads all
        succeeded, or its earlier lists when no round did. */
    method RefreshLists(rounds: seq<Round>)
      modifies this
      ensures LastGood(rounds).None? ==>
                blacklist == old(blacklist) && whitelist == old(whitelist) && cachelist == old(cachelist)
      ensures LastGood(rounds).Some? ==>
                var r := rounds[LastGood(rounds).value];
                fresh(blacklist) && fresh(whitelist) && fresh(cachelist)
                && Holds(blacklist, r.black.value) && Holds(whitelist, r.white.value)
                && cachelist.lookup == r.cache.value
      ensures nextSessId == old(nextSessId) && acl == old(acl)
    {
      for i := 0 to |rounds|
        invariant nextSessId == old(nextSessId) && acl == old(acl)
        invariant LastGood(rounds[..i]).None? ==>
                    blacklist == old(blacklist) && whitelist == old(whitelist) && cachelist == old(cachelist)
        invariant LastGood(rounds[..i]).Some? ==>
                    var r := rounds[LastGood(rounds[..i]).value];
                    fresh(blacklist) && fresh(whitelist) && fresh(cachelist)
                    && Holds(blacklist, r.black.value) && Holds(whitelist, r.white.value)
                    && cachelist.lookup == r.cache.value
      {
        assert rounds[..i + 1][..i] == rounds[..i];
        var ok := RefreshOnce(rounds[i]);
      }
      assert rounds[..|rounds|] == rounds;
    }

    /** `start_periodic_refresh(interval)`: a negative interval schedules
        nothing, so the lists never change; otherwise the refresh rounds
        run, and the server ends with the lists of the last round whose
        loads all succeeded, or its earlier lists when none did. */
    method StartPeriodicRefresh(interval: int, rounds: seq<Round>) returns (scheduled: bool)
      modifies this
      ensures scheduled <==> interval >= 0
      ensures !scheduled || LastGood(rounds).None? ==>
                blacklist == old(blacklist) && whitelist == old(whitelist) && cachelist == old(cachelist)
      ensures scheduled && LastGood(rounds).Some? ==>
                var r := rounds[LastGood(rounds).value];
                fresh(blacklist) && fresh(whitelist) && fresh(cachelist)
                && Holds(blacklist, r.black.value) && Holds(whitelist, r.white.value)
                && cachelist.lookup == r.cache.value
      ensures nextSessId == old(nextSessId) && acl == old(acl)
    {
      if interval < 0 {
        return false;
      }
      RefreshLists(rounds);
      return true;
    }
  }

  /** The reading half of `handler`: the request line, read and decoded, then the
      header block; the request is built from both with session id `id`. */
  method Receive(reader: StreamReader, id: nat, now: real) returns (r: Result<Session.Request, Failure>)
    requires reader.Valid()
    modifies reader
    ensures reader.Valid() && reader.data == old(reader.data)
    ensures r == ReadRequest(old(reader.Remaining()), id, now)
    ensures r.Ok? ==> HeaderReader.HeadRead(old(reader.Remaining()))
                      && reader.Remaining() == HeaderReader.BodyOf(old(reader.Remaining()))
  {
    var line := reader.ReadLine();
    if line.Err? {
      return Err(LineOverLimit(line.error));
    }
    var decoded := Utf8.Decode(line.value);
    if decoded.None? {
      return Err(UndecodableLine);
    }
    var headers := HeaderReader.ParseHeaders(reader);
    if headers.Err? {
      return Err(BadHeaders(headers.error));
    }
    r := BuildRequest(decoded.value, headers.value, id, now);
  }

  /** The end of `handler` once the outcome is known: a refusal writes
      its status line and closes the writer; a started request gets a new
      session, connected upstream; a raised exception does neither. */
  method Respond(outcome: Outcome, reader: StreamReader, writer: StreamWriter) returns (session: Session.ProxySession?)
    modifies writer
    ensures writer.log == old(writer.log) + Reply(outcome)
    ensures writer.closed <==> old(writer.closed) || outcome == Forbidden || outcome == NotFound
    ensures session != null <==> outcome.Started?
    ensures session != null ==>
              fresh(session) && session.request == outcome.request
              && session.reader == reader && session.writer == writer
              && session.output != null && !session.output.Ready()
  {
    match outcome
    case Forbidden =>
      Refuse(writer, outcome);
      return null;
    case NotFound =>
      Refuse(writer, outcome);
      return null;
    case Raised(_) =>
      return null;
    case Started(request) =>
      session := new Session.ProxySession(reader, writer, request);
      session.Connect();
  }

  /** The refusals: the fixed status line, then the writer is closed. */
  method Refuse(writer: StreamWriter, o: Outcome)
    requires o == Forbidden || o == NotFound
    modifies writer
    ensures writer.log == old(writer.log) + Reply(o) && writer.closed
  {
    writer.Write(Reply(o));
    writer.Close();
  }

  // ---------------------------------------------------------------------
  // Properties of the decision

  /** A client outside the access list, or one whose address is unknown or
      malformed, is refused with 403 whatever the lists say, once its
      request has been read. */
  lemma RefusedOutsideAcl(input: Bytes, peer: Option<string>, nets: seq<Acl.Network>,
                          white: Resource.ResourceList, black: Resource.ResourceList,
                          cache: Session.Request -> Option<string>, id: nat, now: real)
    requires ReadRequest(input, id, now).Ok?
    requires peer.None? || Acl.Allows(nets, peer.value) != Ok(true)
    ensures Decide(input, peer, nets, white, black, cache, id, now) == Forbidden
  {
  }

  /** A whitelisted request is never refused with 404, and what the
      blacklist holds does not matter for it. */
  lemma WhitelistFirst(req: Session.Request, peer: Option<string>, nets: seq<Acl.Network>,
                       white: Resource.ResourceList, black1: Resource.ResourceList, black2: Resource.ResourceList,
                       cache: Session.Request -> Option<string>, now: real)
    requires white.Check(req.host, req.path) == Ok(true)
    ensures Route(req, peer, nets, white, black1, cache, now) != NotFound
    ensures Route(req, peer, nets, white, black1, cache, now) == Route(req, peer, nets, white, black2, cache, now)
  {
  }

  /** A session is started for a request with the session id the counter
      held and the method and headers the client sent, whether or not it
      was redirected. */
  lemma StartedKeepsRequest(input: Bytes, peer: Option<string>, nets: seq<Acl.Network>,
                            white: Resource.ResourceList, black: Resource.ResourceList,
                            cache: Session.Request -> Option<string>, id: nat, now: real)
    requires Decide(input, peer, nets, white, black, cache, id, now).Started?
    ensures var req := ReadRequest(input, id, now);
            var s := Decide(input, peer, nets, white, black, cache, id, now).request;
            req.Ok? && s.sessionId == id && s.verb == req.value.verb && s.headers == req.value.headers
  {
  }
}
