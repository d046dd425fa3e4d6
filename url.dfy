/** The absolute-form request target of section 5.3.2 of RFC 7230 as
    `ProxyServer.parse_url` breaks it into host, port and path, through the
    `urlparse` of Python 3.6's urllib.parse (scheme, `//` authority, `#`
    fragment, `?` query, `;` parameters of the last path segment) and its
    `hostname` and `port` accessors. */
module Url {
  import opened Text

  /** Both are ValueError in Python; the constructor records why. */
  datatype UrlError = InvalidIPv6 | PortNotInteger | PortOutOfRange

  datatype SplitResult = SplitResult(scheme: string, netloc: string, path: string, query: string, fragment: string)

  /** What `parse_url` returns: the host (None when the URL names none), the
      port and the path, the query appended to the path. */
  datatype Target = Target(host: Option<string>, port: nat, path: string)

  predicate IsSchemeChar(c: char)
  {
    'a' <= c <= 'z' || 'A' <= c <= 'Z' || '0' <= c <= '9' || c == '+' || c == '-' || c == '.'
  }

  /** The schemes whose last path segment may carry `;parameters`. */
  const UsesParams: set<string> :=
    {"", "ftp", "hdl", "prospero", "http", "imap", "https", "shttp", "rtsp",
     "rtspu", "sip", "sips", "mms", "sftp", "tel"}

  /** The scheme step of `urlsplit`: the text before the first `:` is the
      scheme when it is exactly `http`, or when it is made of scheme
      characters and what follows the colon is not a port number (empty, or
      holding a non-digit). Returns the scheme and the rest of the URL. */
  function SplitScheme(url: string): (r: (string, string))
    ensures r.0 == [] ==> r.1 == url
    ensures r.0 != [] ==> |r.0| < |url| && url == url[..|r.0|] + [':'] + r.1 && Lower(url[..|r.0|]) == r.0
  {
    var i := IndexOf(url, ':');
    if 0 < i < |url| && (url[..i] == "http" ||
                         ((forall k :: 0 <= k < i ==> IsSchemeChar(url[k]))
                          && (url[i + 1..] == [] || !AllDigits(url[i + 1..]))))
    then
      assert url == url[..i] + [':'] + url[i + 1..];
      (Lower(url[..i]), url[i + 1..])
    else ("", url)
  }

  /** `_splitnetloc(url, 2)` when the rest starts with `//`: the authority
      runs up to the first `/`, `?` or `#`. */
  function SplitNetloc(url: string): (r: (string, string))
    ensures (r.0 == [] && r.1 == url) || url == "//" + r.0 + r.1
    ensures '/' !in r.0 && '?' !in r.0 && '#' !in r.0
  {
    if |url| >= 2 && url[..2] == "//" then
      var rest := url[2..];
      var d := FirstOfAny(rest, {'/', '?', '#'});
      assert url == "//" + rest[..d] + rest[d..];
      (rest[..d], rest[d..])
    else ([], url)
  }

  predicate BracketsUnbalanced(netloc: string)
  {
    ('[' in netloc && ']' !in netloc) || (']' in netloc && '[' !in netloc)
  }

  /** `urlsplit(url)`: a one-sided bracket in the authority raises, the
      fragment starts at the first `#`, the query at the first `?` before it. */
  function UrlSplit(url: string): (r: Result<SplitResult, UrlError>)
    ensures r.Err? <==> BracketsUnbalanced(SplitNetloc(SplitScheme(url).1).0)
    ensures r.Ok? ==> '#' !in r.value.path && '?' !in r.value.path && '#' !in r.value.query
  {
    var (scheme, rest) := SplitScheme(url);
    var (netloc, rest1) := SplitNetloc(rest);
    if BracketsUnbalanced(netloc) then Err(InvalidIPv6)
    else
      var rest2 := Before(rest1, '#');
      Ok(SplitResult(scheme, netloc, Before(rest2, '?'), After(rest2, '?'), After(rest1, '#')))
  }

  /** The path left by `_splitparams`: it ends before the first `;` found at
      or after the last `/`, or before the first `;` when there is no `/`. */
  function DropParams(path: string): (r: string)
    ensures ';' !in path ==> r == path
    ensures |r| <= |path| && r == path[..|r|]
  {
    var start := if '/' in path then AfterLast(path, '/') - 1 else 0;
    var i := start + IndexOf(path[start..], ';');
    path[..i]
  }

  /** `urlparse(url)`, keeping the fields `parse_url` reads: the path loses
      its parameters when the scheme allows them. */
  function UrlParse(url: string): (r: Result<SplitResult, UrlError>)
    ensures r.Err? <==> UrlSplit(url).Err?
    ensures r.Ok? ==> r.value.netloc == UrlSplit(url).value.netloc && r.value.query == UrlSplit(url).value.query
  {
    match UrlSplit(url)
    case Err(e) => Err(e)
    case Ok(s) =>
      if s.scheme in UsesParams && ';' in s.path then Ok(s.(path := DropParams(s.path)))
      else Ok(s)
  }

  /** `_hostinfo`: the text after the last `@`; a bracketed literal is
      taken between the first `[` and the next `]`, the port after the
      first `:` that follows; otherwise host and port split at the first `:`. */
  function HostInfo(netloc: string): (r: (string, string))
  {
    var hostinfo := netloc[AfterLast(netloc, '@')..];
    if '[' in hostinfo then
      var bracketed := After(hostinfo, '[');
      (Before(bracketed, ']'), After(After(bracketed, ']'), ':'))
    else (Before(hostinfo, ':'), After(hostinfo, ':'))
  }

  /** The `hostname` accessor: lower-cased, None when empty. */
  function Hostname(netloc: string): (r: Option<string>)
    ensures r == None <==> HostInfo(netloc).0 == []
    ensures r.Some? ==> r.value == Lower(HostInfo(netloc).0)
  {
    var h := HostInfo(netloc).0;
    if h == [] then None else Some(Lower(h))
  }

  /** The `port` accessor: None without a port; `int()` of the port text,
      which must lie in 0..65535. */
  function Port(netloc: string): (r: Result<Option<nat>, UrlError>)
    ensures r == Ok(None) <==> HostInfo(netloc).1 == []
    ensures r == Err(PortNotInteger) <==> HostInfo(netloc).1 != [] && ParseInt(HostInfo(netloc).1).None?
    ensures r.Ok? && r.value.Some? ==> r.value.value <= 65535
                                        && ParseInt(HostInfo(netloc).1) == Some(r.value.value as int)
    ensures r == Err(PortOutOfRange) <==> ParseInt(HostInfo(netloc).1).Some?
                                          && !(0 <= ParseInt(HostInfo(netloc).1).value <= 65535)
  {
    var p := HostInfo(netloc).1;
    if p == [] then Ok(None)
    else
      match ParseInt(p)
      case None => Err(PortNotInteger)
      case Some(v) => if v < 0 || v > 65535 then Err(PortOutOfRange) else Ok(Some(v))
  }

  /** `parsed.port or 80`: no port, and port 0, both mean 80. */
  function PortOr80(p: Option<nat>): (r: nat)
    ensures r != 0
    ensures p.Some? && p.value != 0 ==> r == p.value
    ensures p.None? ==> r == 80
  {
    if p.None? || p.value == 0 then 80 else p.value
  }

  /** `parsed.path or '/'`, then `'?' + query` when the query is not empty. */
  function RequestPath(path: string, query: string): (r: string)
    ensures r != []
    ensures query == [] ==> r == (if path == [] then "/" else path)
    ensures query != [] ==> r == (if path == [] then "/" else path) + "?" + query
  {
    (if path == [] then "/" else path) + (if query != [] then "?" + query else "")
  }

  /** `ProxyServer.parse_url` of src/proxy.py. */
  function ParseUrl(url: string): (r: Result<Target, UrlError>)
    ensures r.Ok? ==> 1 <= r.value.port <= 65535 && r.value.path != []
    ensures r.Ok? ==> UrlSplit(url).Ok? && r.value.host == Hostname(UrlSplit(url).value.netloc)
    ensures r.Err? <==> UrlSplit(url).Err? || Port(UrlSplit(url).value.netloc).Err?
  {
    match UrlParse(url)
    case Err(e) => Err(e)
    case Ok(p) =>
      match Port(p.netloc)
      case Err(e) => Err(e)
      case Ok(port) => Ok(Target(Hostname(p.netloc), PortOr80(port), RequestPath(p.path, p.query)))
  }

  /** `parse_url` of kalamari/proxy.py: the host is the whole authority,
      so an explicit `:port` (and any `user@`) stays in it. */
  function ParseUrlLegacy(url: string): (r: Result<(string, nat, string), UrlError>)
    ensures r.Ok? ==> 1 <= r.value.1 <= 65535 && r.value.2 != []
    ensures r.Err? <==> ParseUrl(url).Err?
  {
    match UrlParse(url)
    case Err(e) => Err(e)
    case Ok(p) =>
      match Port(p.netloc)
      case Err(e) => Err(e)
      case Ok(port) => Ok((p.netloc, PortOr80(port), RequestPath(p.path, p.query)))
  }

  // ---------------------------------------------------------------------
  // Round trip on the shape `http://host[:port]/path[?query]`

  /** Characters of a registered host name: lower-case letters, digits, `-`, `.`. */
  predicate IsHostChar(c: char)
  {
    'a' <= c <= 'z' || '0' <= c <= '9' || c == '-' || c == '.'
  }

  predicate IsHostName(host: string)
  {
    host != [] && forall i :: 0 <= i < |host| ==> IsHostChar(host[i])
  }

  /** A path for the shape: empty, or starting with `/`, and free of the
      characters that end a path or open its parameters. */
  predicate IsPlainPath(path: string)
  {
    (path == [] || path[0] == '/') && '?' !in path && '#' !in path && ';' !in path
  }

  function PortSuffix(port: Option<nat>): string
  {
    if port.Some? then ":" + ShowNat(port.value) else ""
  }

  function QuerySuffix(query: string): string
  {
    if query != [] then "?" + query else ""
  }

  /** `http://host[:port]path[?query]`. */
  function AbsoluteUrl(host: string, port: Option<nat>, path: string, query: string): string
  {
    "http://" + Authority(host, port) + PathQuery(path, query)
  }

  lemma LowerHostName(host: string)
    requires forall i :: 0 <= i < |host| ==> IsHostChar(host[i])
    ensures Lower(host) == host
  {
    if host != [] {
      LowerHostName(host[1..]);
      assert host == [host[0]] + host[1..];
    }
  }

  function Authority(host: string, port: Option<nat>): string
  {
    host + PortSuffix(port)
  }

  lemma AuthorityPlain(host: string, port: Option<nat>)
    requires IsHostName(host)
    ensures var a := Authority(host, port);
            '/' !in a && '?' !in a && '#' !in a && '[' !in a && ']' !in a && '@' !in a
  {
    var a := Authority(host, port);
    forall i | 0 <= i < |a|
      ensures a[i] != '/' && a[i] != '?' && a[i] != '#' && a[i] != '[' && a[i] != ']' && a[i] != '@'
    {
      if i < |host| { assert a[i] == host[i]; }
      else { assert a[i] == PortSuffix(port)[i - |host|]; }
    }
  }

  lemma HostInfoPlain(host: string, port: Option<nat>)
    requires IsHostName(host)
    ensures HostInfo(Authority(host, port)) == (host, if port.Some? then ShowNat(port.value) else "")
  {
    var netloc := Authority(host, port);
    AuthorityPlain(host, port);
    assert AfterLast(netloc, '@') == 0;
    assert netloc[0..] == netloc;
    assert ':' !in host by {
      assert forall i :: 0 <= i < |host| ==> host[i] != ':';
    }
    if port.Some? {
      assert netloc == host + [':'] + ShowNat(port.value);
      PartitionCons(host, ':', ShowNat(port.value));
    } else {
      assert netloc == host;
    }
  }

  /** The authority ends where the path or the query starts. */
  lemma SplitNetlocPlain(netloc: string, tail: string)
    requires '/' !in netloc && '?' !in netloc && '#' !in netloc
    requires tail == [] || tail[0] == '/' || tail[0] == '?'
    ensures SplitNetloc("//" + netloc + tail) == (netloc, tail)
  {
    var url := "//" + netloc + tail;
    assert url[..2] == "//";
    assert url[2..] == netloc + tail;
    FirstOfAnyPrefix(netloc, tail, {'/', '?', '#'});
    assert FirstOfAny(tail, {'/', '?', '#'}) == 0;
    assert (netloc + tail)[..|netloc|] == netloc;
    assert (netloc + tail)[|netloc|..] == tail;
  }

  function PathQuery(path: string, query: string): string
  {
    path + QuerySuffix(query)
  }

  lemma PathQueryPlain(path: string, query: string)
    requires IsPlainPath(path) && '#' !in query
    ensures var tail := PathQuery(path, query);
            tail == [] || tail[0] == '/' || tail[0] == '?'
    ensures Before(PathQuery(path, query), '#') == PathQuery(path, query)
    ensures After(PathQuery(path, query), '#') == []
    ensures Before(PathQuery(path, query), '?') == path
    ensures After(PathQuery(path, query), '?') == query
  {
    var tail := PathQuery(path, query);
    if query != [] {
      assert tail == path + ['?'] + query;
      forall i | 0 <= i < |tail| ensures tail[i] != '#' {
        if i < |path| { assert tail[i] == path[i]; }
        else if i > |path| { assert tail[i] == query[i - |path| - 1]; }
      }
      PartitionCons(path, '?', query);
    } else {
      assert tail == path;
    }
  }

  lemma SplitSchemeHttp(url: string, rest: string)
    requires url == "http:" + rest
    ensures SplitScheme(url) == ("http", rest)
  {
    IndexOfPrefix("http", ":" + rest, ':');
    assert url == "http" + (":" + rest);
    assert url[..4] == "http";
    assert url[5..] == rest;
    LowerHostName("http");
  }

  /** `urlsplit` takes `http://host[:port]path[?query]` apart into exactly
      the pieces it was built from. */
  lemma UrlSplitPlain(host: string, port: Option<nat>, path: string, query: string)
    requires IsHostName(host) && IsPlainPath(path) && '#' !in query
    ensures UrlSplit(AbsoluteUrl(host, port, path, query))
            == Ok(SplitResult("http", Authority(host, port), path, query, ""))
  {
    var netloc := Authority(host, port);
    var tail := PathQuery(path, query);
    var url := AbsoluteUrl(host, port, path, query);
    var rest := "//" + netloc + tail;
    assert url == "http:" + rest;
    SplitSchemeHttp(url, rest);
    AuthorityPlain(host, port);
    PathQueryPlain(path, query);
    SplitNetlocPlain(netloc, tail);
    UrlSplitParts(url, rest, netloc, tail, path, query);
  }

  /** `urlsplit` assembled from its scheme, authority and tail pieces. */
  lemma UrlSplitParts(url: string, rest: string, netloc: string, tail: string, path: string, query: string)
    requires SplitScheme(url) == ("http", rest) && SplitNetloc(rest) == (netloc, tail)
    requires '[' !in netloc && ']' !in netloc
    requires Before(tail, '#') == tail && After(tail, '#') == []
    requires Before(tail, '?') == path && After(tail, '?') == query
    ensures UrlSplit(url) == Ok(SplitResult("http", netloc, path, query, ""))
  {
    assert !BracketsUnbalanced(netloc);
  }

  lemma UrlParsePlain(host: string, port: Option<nat>, path: string, query: string)
    requires IsHostName(host) && IsPlainPath(path) && '#' !in query
    ensures UrlParse(AbsoluteUrl(host, port, path, query))
            == Ok(SplitResult("http", Authority(host, port), path, query, ""))
  {
    UrlSplitPlain(host, port, path, query);
  }

  /** The `port` accessor reads back the written port, and refuses one
      beyond 65535. */
  lemma PortPlain(host: string, port: Option<nat>)
    requires IsHostName(host)
    ensures port.None? ==> Port(Authority(host, port)) == Ok(None)
    ensures port.Some? && port.value <= 65535 ==> Port(Authority(host, port)) == Ok(port)
    ensures port.Some? && port.value > 65535 ==> Port(Authority(host, port)) == Err(PortOutOfRange)
  {
    HostInfoPlain(host, port);
    if port.Some? {
      ShowNatValue(port.value);
      ParseIntDigits(ShowNat(port.value));
    }
  }

  /** Behind a plain host name, the port text is everything after the `:`. */
  lemma HostInfoPortText(host: string, t: string)
    requires IsHostName(host) && '@' !in t && '[' !in t
    ensures HostInfo(host + [':'] + t) == (host, t)
  {
    var netloc := host + [':'] + t;
    forall i | 0 <= i < |netloc|
      ensures netloc[i] != '@' && netloc[i] != '['
    {
      if i < |host| { assert netloc[i] == host[i]; }
      else if i > |host| { assert netloc[i] == t[i - |host| - 1]; }
    }
    assert AfterLast(netloc, '@') == 0;
    assert netloc[0..] == netloc;
    assert ':' !in host by {
      assert forall i :: 0 <= i < |host| ==> host[i] != ':';
    }
    PartitionCons(host, ':', t);
  }

  /** Behind a plain host name, the port is what `int()` reads from the
      text after the `:`, and out of range outside 0..65535. */
  lemma PortValue(host: string, t: string, v: int)
    requires IsHostName(host) && '@' !in t && '[' !in t && t != []
    requires ParseInt(t) == Some(v)
    ensures 0 <= v <= 65535 ==> Port(host + [':'] + t) == Ok(Some(v as nat))
    ensures !(0 <= v <= 65535) ==> Port(host + [':'] + t) == Err(PortOutOfRange)
  {
    HostInfoPortText(host, t);
  }

  lemma HostnamePlain(host: string, port: Option<nat>)
    requires IsHostName(host)
    ensures Hostname(Authority(host, port)) == Some(host)
  {
    HostInfoPlain(host, port);
    LowerHostName(host);
  }

  /** `parse_url` returns the host, the port (80 when none is written) and
      the path (`/` when empty) with `?query` appended when there is one,
      for every URL of the shape `http://host[:port]path[?query]`. */
  lemma {:induction false} ParseUrlPlain(host: string, port: Option<nat>, path: string, query: string)
    requires IsHostName(host) && IsPlainPath(path) && '#' !in query
    requires port.Some? ==> 1 <= port.value <= 65535
    ensures ParseUrl(AbsoluteUrl(host, port, path, query))
            == Ok(Target(Some(host), if port.Some? then port.value else 80,
                         (if path == [] then "/" else path) + QuerySuffix(query)))
  {
    var url := AbsoluteUrl(host, port, path, query);
    var netloc := Authority(host, port);
    UrlParsePlain(host, port, path, query);
    assert UrlParse(url) == Ok(SplitResult("http", netloc, path, query, ""));
    PortPlain(host, port);
    assert Port(netloc) == Ok(port);
    HostnamePlain(host, port);
    assert Hostname(netloc) == Some(host);
    assert PortOr80(port) == if port.Some? then port.value else 80;
  }

  /** The kalamari/proxy.py variant keeps `host:port` as its host. */
  lemma {:induction false} ParseUrlLegacyPlain(host: string, port: Option<nat>, path: string, query: string)
    requires IsHostName(host) && IsPlainPath(path) && '#' !in query
    requires port.Some? ==> 1 <= port.value <= 65535
    ensures ParseUrlLegacy(AbsoluteUrl(host, port, path, query))
            == Ok((Authority(host, port), if port.Some? then port.value else 80,
                   (if path == [] then "/" else path) + QuerySuffix(query)))
  {
    var netloc := Authority(host, port);
    UrlParsePlain(host, port, path, query);
    assert UrlParse(AbsoluteUrl(host, port, path, query)) == Ok(SplitResult("http", netloc, path, query, ""));
    PortPlain(host, port);
    assert Port(netloc) == Ok(port);
    assert PortOr80(port) == if port.Some? then port.value else 80;
    assert RequestPath(path, query) == (if path == [] then "/" else path) + QuerySuffix(query);
  }

  /** Port 0 is written explicitly but `parsed.port or 80` still gives 80. */
  lemma {:induction false} ParseUrlPortZero(host: string, path: string, query: string)
    requires IsHostName(host) && IsPlainPath(path) && '#' !in query
    ensures ParseUrl(AbsoluteUrl(host, Some(0), path, query)).Ok?
    ensures ParseUrl(AbsoluteUrl(host, Some(0), path, query)).value.port == 80
  {
    UrlParsePlain(host, Some(0), path, query);
    PortPlain(host, Some(0));
  }

  /** A port beyond 65535 raises ValueError. */
  lemma {:induction false} ParseUrlPortTooLarge(host: string, port: nat, path: string, query: string)
    requires IsHostName(host) && IsPlainPath(path) && '#' !in query
    requires port > 65535
    ensures ParseUrl(AbsoluteUrl(host, Some(port), path, query)) == Err(PortOutOfRange)
  {
    UrlParsePlain(host, Some(port), path, query);
    PortPlain(host, Some(port));
  }
}
