# Kalamari proxy request pipeline in Dafny

Kalamari is a forward HTTP proxy written in Python on asyncio. For every
client connection it reads the request line and the header block, builds an
`HTTPRequest`, checks the client's address against an IPv4 access list,
classifies the request against a whitelist and a blacklist, lets a cache
list redirect it, and starts a `ProxySession`. That session opens the
upstream connection, sends an HTTP/1.0 request built from the client's
request, and relays bytes in both directions. A background task reloads the
three rule lists periodically.

This project models that pipeline (src/proxy.py, src/resource.py,
src/acl.py) and the two earlier servers kept in kalamari/proxy.py and
kalamari/kalamari.py, and proves properties of the model. The modules are:

- `Text`: Python string and bytes operations the pipeline relies on, namely
  `str.split`, `str.join`, `str.strip`, ISO-8859-1 encoding and decoding,
  and `int()` on decimal text (sign, surrounding whitespace, single
  underscores between digits).
- `Utf8`: strict UTF-8 decoding of the request line.
- `Streams`: the asyncio `StreamReader` (`readline` with its 65536-byte
  limit, `read`, `at_eof`) over the bytes the client sends, and the `StreamWriter` as an append-only log
  with a `closed` flag.
- `HeaderReader`: the bounded `parse_headers` loop, which allows 65536 bytes
  per line and 100 lines and stops at the first blank or empty line.
- `Message`: the `email.parser` step that turns the header block into an
  ordered list of (name, value) pairs with case-insensitive lookup.
- `RequestLine`: `parse_method` in its current and its earlier form, and the
  CONNECT authority split.
- `Url`: `parse_url` on top of `urlparse` as Python 3.6.0 to 3.6.8 have it, in its current
  (hostname) and its earlier (netloc) form.
- `Regex` and `Resource`: `ResourceList` with its domain set and its two
  patterns anchored at the start, `load` and `check`.
- `Acl`: `ACL` and `ip_allowed` on top of Python 3.6's `ipaddress` parsing
  of IPv4 networks and addresses.
- `Session`: `HTTPRequest.timed_out`, `ProxySessionOutput` (`ready`,
  `connection_made`, `data_received`, `connection_lost`) and
  `ProxySession` (`connect`, `run`).
- `Server`: `ProxyServer` with its session counter and lists, `handler`,
  `refresh_lists` and `start_periodic_refresh`.
- `Legacy`: the earlier proxy of kalamari/proxy.py and the 404 stub of
  kalamari/kalamari.py.

Some behaviours of the code are easy to miss; the model keeps them as written:

- Domains are matched exactly, not by dot-separated suffix.
- The request line and the headers are read and parsed before the access
  list is consulted. A malformed request raises before the 403 check.
- When the wait for the upstream connection times out, `run` returns
  without closing either stream.
- CONNECT gets the `200 OK` line and no TLS interception.
- The three lists are reassigned one after another with no lock. The model
  keeps the all-or-nothing rule of `refresh_lists`: nothing is assigned
  unless all three loads succeed.

Python raising an exception is modelled as a `Result` error. The model is
never run; every property below is proved by the Dafny verifier.

## Model

| member | source | states |
|---|---|---|
| Utf8.DecodeEncode | src/proxy.py:47 | `decode('utf8')` gives back every text that `encode('utf8')` produced |
| Utf8.EncodeDecode | src/proxy.py:47 | bytes that decode are exactly the encoding of what they decode to, so decoding is one-to-one |
| Utf8.DecodeAscii | src/proxy.py:47 | a request line of ASCII bytes decodes one character per byte, the same text as ISO-8859-1 |
| Utf8.DecodeLength | src/proxy.py:47 | the decoded text is never longer than the bytes, and is as long only when every byte is ASCII |
| Utf8.InvalidLeadRejected | src/proxy.py:47 | a stray continuation byte, 0xC0, 0xC1 or 0xF5 to 0xFF at the start makes the decode raise |
| Streams.ReadLineOf | src/proxy.py:47 | `readline` gives the bytes up to and including the first LF, or the rest at EOF; a line is always returned when it fits the 65536-byte limit, and ValueError is raised when the LF lies beyond it, or when there is no LF and more than the limit is left |
| Streams.ReadLineFull | src/proxy.py:178 | a complete line within the limit is returned whole, whatever follows it |
| Streams.StreamReader.ReadLine | src/proxy.py:178 | `readline` answers what `ReadLineOf` states about the unread bytes and consumes the line, also when it raises |
| Streams.StreamReader.Read | src/proxy.py:303 | `read(n)` returns at most n bytes, returns fewer only at EOF, and consumes exactly what it returns; every client byte is taken to be buffered already, see `## Left out` |
| Streams.StreamReader.AtEof | src/proxy.py:302 | `at_eof` holds exactly when no unread bytes remain |
| Streams.StreamWriter.Write | src/proxy.py:67 | `write` appends the bytes to what the peer receives |
| Streams.StreamWriter.Close | src/proxy.py:68 | `close` closes the stream and writes nothing |
| HeaderReader.ReadHeaderLines | src/proxy.py:176-185 | the read loop returns the lines of the header-block specification and leaves the reader just after the terminator, or fails with the same error |
| HeaderReader.ParseHeaders | src/proxy.py:162-189 | `parse_headers` returns the parsed headers of the lines read, or the error, and consumes no byte past the terminator |
| HeaderReader.HeaderLinesAccepted | src/proxy.py:176-185 | an accepted block has every line at most 65536 bytes, at most 99 header lines, ends at its first blank or empty line, and is a prefix of the input |
| HeaderReader.ReadLinesTerminator | src/proxy.py:184-185 | reading stops right after a CRLF line and the rest of the input is not consumed |
| HeaderReader.NinetyNineHeadersAccepted | src/proxy.py:18 | 99 header lines followed by CRLF are accepted |
| HeaderReader.HundredHeadersRejected | src/proxy.py:182-183 | 100 header lines make the reader raise when the line after them is within the length limit: the terminator would be the 101st line |
| HeaderReader.LongLineRejected | src/proxy.py:178-180 | a line longer than 65536 bytes among the headers makes the reader raise, by `readline`'s limit or by the length check |
| HeaderReader.DecodedHeadersLossless | kalamari/kalamari.py:45 | decoding the accepted header bytes as ISO-8859-1 is total and lossless |
| Message.Get | src/proxy.py:187-189 | header lookup is case-insensitive and returns the first matching header's value, or None when no name matches |
| Message.ParseSerialize | src/proxy.py:187-189 | parsing a serialized list of well-formed headers gives the same list back, in order |
| Message.GetSerialized | src/proxy.py:187-189 | after serializing and parsing, a lookup finds the first header whose name matches regardless of case |
| RequestLine.ParseMethod | src/proxy.py:113-148 | the line parses exactly when it has at least two spaces; the fields are the first three space-separated parts with the third stripped; the empty line, one field and two fields raise ValueError naming what is missing |
| RequestLine.ParseMethodLegacy | kalamari/proxy.py:44-77 | the earlier parser raises a plain Exception, never 'missing verb', and the empty line is 'missing request target' |
| RequestLine.LegacyAgrees | kalamari/proxy.py:56-77 | the earlier parser accepts exactly the lines the current one accepts and returns the same fields, and for a non-empty line both name the same missing field |
| RequestLine.FormatParse | src/proxy.py:126-148 | a request line written from three space-free fields parses back to those fields |
| RequestLine.SplitAuthority | src/proxy.py:53 | the CONNECT target unpacks into host and port exactly when it has one colon, and host, colon and port rebuild the target |
| Url.ParseUrl | src/proxy.py:150-160 | a parsed URL has a port from 1 to 65535, a non-empty path and the lower-cased hostname; with the `urlsplit` of Python 3.6.0 to 3.6.8 it fails exactly when the netloc's brackets are unbalanced, or the port text is not an integer that `int()` accepts, or that integer is outside 0..65535 |
| Url.ParseUrlLegacy | kalamari/proxy.py:79-89 | the earlier parser keeps the netloc as host, has the same port and path bounds, and fails on exactly the same URLs, port text read by `int()` included, for the same Python versions |
| Url.RequestPath | src/proxy.py:157-159 | the path is '/' when empty, and '?' plus the query is appended when there is a query |
| Url.Port | src/proxy.py:160 | no port text gives no port; text `int()` rejects raises; an integer outside 0..65535 raises; otherwise the port is that integer |
| Url.PortValue | src/proxy.py:160 | a host followed by `:` and any text `int()` reads as v has port v when 0 <= v <= 65535, and raises otherwise |
| Url.HostInfoPortText | src/proxy.py:160 | the netloc `host:text` splits into that host and that port text |
| Text.ParseIntDigits | src/proxy.py:160 | plain decimal digits read as their value |
| Text.ParseIntSigned | src/proxy.py:160 | a leading `+` keeps the value and a leading `-` negates it, so `+80` is port 80 |
| Text.ParseIntUnderscore | src/proxy.py:160 | one underscore between digit groups is dropped, so `8_0` reads as 80 |
| Text.DoubleUnderscoreRejected | src/proxy.py:160 | two underscores in a row make `int()` raise |
| Text.ParseIntStrip | src/proxy.py:160 | surrounding whitespace does not change what `int()` reads |
| Text.StripIdempotent | src/proxy.py:146 | stripping twice is stripping once |
| Url.PortOr80 | src/proxy.py:160 | a missing port or port 0 gives 80; any other port is kept |
| Url.ParseUrlPlain | src/proxy.py:156-160 | `http://host[:port]/path[?query]` parses to the lower-case host, the port or 80, and the path with its query |
| Url.ParseUrlLegacyPlain | kalamari/proxy.py:85-89 | the earlier parser gives the same URL's netloc, `:port` included, with the same port and path |
| Url.ParseUrlPortZero | src/proxy.py:160 | an explicit port 0 is replaced by 80 |
| Url.ParseUrlPortTooLarge | src/proxy.py:160 | a port above 65535 raises |
| Regex.Match | src/resource.py:53 | the backtracking matcher succeeds exactly when the pattern matches some prefix of the text |
| Regex.MatchFromCorrect | src/resource.py:53 | matching one alternative from a position agrees with the declarative meaning of its pieces |
| Regex.JoinedMatch | src/resource.py:35 | the fragments joined with '\|' compile exactly when each fragment does, and then match exactly when one fragment matches |
| Resource.DomainSet | src/resource.py:29-32 | the domain set holds exactly the listed domains, and is empty when the key is absent |
| Resource.RuleRegex | src/resource.py:34-42 | a pattern key fails to compile exactly when one of its fragments does; an absent key gives no pattern |
| Resource.RuleRegexMatches | src/resource.py:52-54 | a compiled list matches a text exactly when a fragment does, and an empty list matches everything |
| Resource.ResourceList.constructor | src/resource.py:21-24 | a new list has no domains and neither pattern |
| Resource.ResourceList.Load | src/resource.py:26-42 | `load` overwrites the domains, then the path pattern, then the misc pattern; when a compile raises, the fields after it keep their old values |
| Resource.ResourceList.Check | src/resource.py:44-61 | `check` is true exactly when the host is one of the domains, or the path pattern matches at the start of the path, or the misc pattern matches at the start of host + path; with no host and a misc pattern to try it raises TypeError |
| Resource.CheckLoaded | src/resource.py:29-61 | after a successful load, `check` is decided by the rule set alone: nothing from an earlier load survives |
| Resource.EmptyRulesetHitsNothing | src/resource.py:29-42 | loading `{}` gives no domains and no patterns, and such a list matches no request |
| Resource.DomainMatchIsExact | src/resource.py:49-50 | `example.com` matches and `gooddomain.com` does not, although it ends with `example.com` |
| Resource.EmptyPathListHitsAll | src/resource.py:35 | an empty path list joins to the empty pattern, which matches every request |
| Resource.AdsPathHit | src/resource.py:52-54 | the path fragment `.*/ads/.*` matches `/ads/x` |
| Resource.AdsPathMiss | src/resource.py:52-54 | the path fragment `.*/ads/.*` does not match `/` |
| Acl.ParseOctet | src/acl.py:39 | an octet is one to three digits with value at most 255 and no leading zero once its value exceeds 7 |
| Acl.ParseAddress | src/acl.py:38-42 | an address is exactly four dot-separated valid octets |
| Acl.ParseNetwork | src/acl.py:25-28 | a parsed network has no host bits set; its address is the part before '/'; the prefix is 32 without '/', and otherwise comes from the prefix length, the netmask or the hostmask |
| Acl.ParseItems | src/acl.py:18-28 | every item gives one network, in input order, or the error names the first invalid item |
| Acl.Acl.New | src/acl.py:10-28 | the constructor succeeds exactly when every comma-separated item is a valid network, and stores those networks in order |
| Acl.Allows | src/acl.py:38-48 | a malformed address raises ValueError; otherwise the address is allowed exactly when some stored network contains it |
| Acl.Acl.IpAllowed | src/acl.py:30-48 | the early-return search answers what `Allows` states and changes nothing |
| Acl.ContainsIsMaskTest | src/acl.py:44-46 | for an aligned network, containment is the mask test `(ip & mask) == network` |
| Acl.AllowsOrderFree | src/acl.py:44-48 | the answer does not depend on the order of the networks |
| Acl.ParseFormatNetwork | src/acl.py:25 | a network written as `a.b.c.d/len` parses back to itself |
| Acl.ParseFormatAcl | src/acl.py:18-28 | a comma-joined list of written networks parses back to the same networks in the same order |
| Acl.HostBitsRejected | src/acl.py:25-28 | a network with host bits set is rejected |
| Acl.PrefixTooLongRejected | src/acl.py:25-28 | a prefix length above 32, such as `/200`, is rejected |
| Acl.AddressOctetTooLarge | src/acl.py:39-42 | an address whose first octet exceeds 255, such as `400.0.0.1`, raises ValueError |
| Acl.TwoSlashesRejected | src/acl.py:25-28 | an item with two slashes is rejected |
| Acl.DefaultAcl | src/config.py:13 | the default list's networks are aligned; 192.168.1.1 and 127.0.0.1 are inside and 192.168.2.1 is not |
| Acl.DefaultAclParsed | src/config.py:13 | the default text `192.168.1.0/24,127.0.0.0/8,172.17.0.1/32` parses to exactly those three networks, in order |
| Acl.DefaultAclAllows | tests/test_acl.py:10-15 | with the default list, `ip_allowed` answers true for `192.168.1.1` and `127.0.0.1` and false for `192.168.2.1` |
| Session.TimedOutMonotone | src/proxy.py:250-253 | once timed out a request stays timed out, and exactly at creation time plus timeout it is not yet timed out (strict `>`) |
| Session.ForwardedMembers | src/proxy.py:349-351 | a header is forwarded exactly when the client sent it and its name, lower-cased, is neither `connection` nor `host` |
| Session.ForwardedAppend | src/proxy.py:349-351 | the header filter works one header at a time and keeps order |
| Session.EncodeEachAll | src/proxy.py:344-356 | the pieces are all written exactly when each encodes as ISO-8859-1, and then the bytes are the encoding of their concatenation |
| Session.ProxySessionOutput.constructor | src/proxy.py:312-316 | a new output has no transport and is not ready |
| Session.ProxySessionOutput.ConnectionMade | src/proxy.py:326-356 | the transport is stored; CONNECT sends `200 OK` to the client and nothing upstream; otherwise the request head, each forwarded header in order and a blank line go upstream, up to the first piece that does not encode |
| Session.WriteRequest | src/proxy.py:344-356 | the upstream bytes are the encodings of the pieces before the first one that does not encode |
| Session.WriteHeaders | src/proxy.py:349-355 | the header loop writes each kept header and skips `connection` and `host`, stopping at the first that does not encode |
| Session.ProxySessionOutput.DataReceived | src/proxy.py:358-370 | response bytes reach the client unchanged |
| Session.ProxySessionOutput.ConnectionLost | src/proxy.py:372-380 | losing the upstream connection closes the client stream |
| Session.ProxySession.constructor | src/proxy.py:275-280 | a new session has no output yet |
| Session.ProxySession.Connect | src/proxy.py:282-292 | `connect` creates a fresh output for this request that is not ready |
| Session.Polls | src/proxy.py:295-296 | without a transport the wait takes the readings up to and including the first one past the timeout, and no earlier one is past it |
| Session.Wait | src/proxy.py:295-296 | the wait takes no reading when the transport is there, since `ready()` is checked first, and otherwise the readings `Polls` counts |
| Session.Forward | src/proxy.py:302-304 | the copy loop sends every unread client byte upstream, in order, and leaves the reader at the end of file |
| Session.Relay | src/proxy.py:294-304 | `run` returns exactly when the second `timed_out()` holds, touching neither stream; otherwise with a transport every remaining client byte goes upstream, and without one it raises AttributeError after reading one chunk, unless the client sent nothing more; clock readings may go back |
| Session.MonotoneRecheckTimesOut | src/proxy.py:295-300 | with readings that never go back, a wait without a transport always ends in the early return, so the missing transport is never written to |
| Session.BackwardStepRecheck | src/proxy.py:250-253 | a reading past the timeout followed by one at the creation time ends the wait and passes the second check, so `run` goes on to write to the missing transport |
| Session.ProxySession.Run | src/proxy.py:294-304 | the same outcomes as `Relay` for the session's output: returned at the second `timed_out()`, relayed to the end of file, or AttributeError on a missing transport; an early return leaves the reader and the upstream log untouched |
| Session.UpstreamBytes | src/proxy.py:344-356 | the upstream bytes decode to the request head followed by the serialized forwarded headers |
| Session.UpstreamHeaders | src/proxy.py:349-356 | the server parses the forwarded headers back to exactly those headers |
| Session.NoHostForwarded | src/proxy.py:350 | no client `Host` or `Connection` header reaches the server, whatever its case |
| Server.ForbiddenText | src/proxy.py:67 | the 403 reply is the bytes of `HTTP/1.1 403 Forbidden` followed by two LFs |
| Server.NotFoundText | src/proxy.py:93 | the 404 reply is the bytes of `HTTP/1.1 404 Not Found` followed by two LFs |
| Server.BuildRequest | src/proxy.py:50-57 | CONNECT keeps the target's host and port text and an empty path; any other method gets host, port and path of `parse_url`; method, headers, session id and time are carried over |
| Server.Blocked | src/proxy.py:88-95 | a request is refused exactly when the whitelist does not match and the blacklist does; a whitelisted request is never refused; it raises exactly when the whitelist check raises, or the whitelist misses and the blacklist check raises |
| Server.Redirected | src/proxy.py:97-103 | without a non-empty redirect the request is unchanged; with one, host, port and path come from parsing it and method, headers and session id are kept |
| Server.Route | src/proxy.py:61-108 | 403 exactly when the peer is unknown or not allowed; 404 exactly when allowed and blocked; a session is started exactly when the request is allowed, not blocked and its redirect parses, with the redirected request; it raises exactly when a list check or the redirect raises, with that error |
| Server.LastGood | src/proxy.py:195-214 | the round whose lists stay in place is the last one whose three loads succeed |
| Server.ProxyServer.Create | src/proxy.py:20-40 | the server starts exactly when the blacklist, whitelist and cache list are fetched and load and the access list parses, with session id 1 and those lists; otherwise it fails with the first error in load order |
| Server.ProxyServer.Handle | src/proxy.py:42-111 | the outcome is the decision on the client's bytes; a 403 or 404 writes its status line and closes; the session counter grows by one exactly when a session starts; the lists are untouched; a started session's reader stands just after the header block |
| Server.ProxyServer.Decision | src/proxy.py:46-103 | reading and routing one request decides the outcome and moves only the reader, which for a started session stands just after the header block |
| Server.ProxyServer.Conclude | src/proxy.py:62-111 | the outcome's reply is written, a refusal closes the writer, and the session counter grows by one exactly when a session starts; the lists are untouched |
| Server.ProxyServer.Dispatch | src/proxy.py:61-103 | the gate, the lists and the redirect are applied in the handler's order and change nothing |
| Server.Receive | src/proxy.py:46-57 | the request line is read within `readline`'s limit and decoded, then the headers are read, then the request is built, and the first failure is the one raised; a built request leaves the reader just after the header block, so what is left is the body a session relays |
| Server.Respond | src/proxy.py:62-108 | a refusal writes its status line and closes the writer; a started request gets a fresh, connected, not-yet-ready session; a failure does neither |
| Server.Refuse | src/proxy.py:67-69 | the status line is written and then the writer closed |
| Server.ProxyServer.RefreshOnce | src/proxy.py:201-214 | all three lists are replaced by freshly loaded ones exactly when all three loads succeed; otherwise none changes |
| Server.ProxyServer.RefreshLists | src/proxy.py:191-214 | after a run of rounds the server holds the lists of the last round that succeeded, or its previous lists |
| Server.ProxyServer.StartPeriodicRefresh | src/proxy.py:218-232 | refreshing is scheduled exactly when the interval is not negative; then the three lists are those of the last round whose loads all succeed, or stay as they are when there is none; the counter and the access list never change |
| Server.RefusedOutsideAcl | src/proxy.py:62-86 | a readable request from an unknown, disallowed or malformed address is answered 403, whatever the lists say |
| Server.WhitelistFirst | src/proxy.py:89-95 | a whitelisted request is never answered 404 and its outcome does not depend on the blacklist |
| Server.StartedKeepsRequest | src/proxy.py:98-111 | a started session carries the counter's session id and the client's method and headers, redirected or not |
| Legacy.LegacyReadRequest | kalamari/proxy.py:19-32 | a request line beyond `readline`'s limit raises first; the earlier handler parses the request line and URL before it reads the headers, and a built request carries the parsed headers |
| Legacy.LegacyHandle | kalamari/proxy.py:19-37 | the outcome is the earlier decision on the client's bytes; a failure in the request line or URL leaves the headers unread; every request read starts a session, whose reader stands just after the header block |
| Legacy.LegacyReceive | kalamari/proxy.py:24-29 | reading the request line within `readline`'s limit and the headers gives the earlier decision on the client's bytes; a failure before the headers leaves the reader just after the request line, and a request read leaves it just after the header block |
| Legacy.FetchIgnoresMethodAndHeaders | kalamari/proxy.py:206-215 | what goes upstream depends only on the host and path: neither the client's method nor its headers are forwarded |
| Legacy.FetchBytes | kalamari/proxy.py:212-215 | the upstream text is `GET path HTTP/1.1`, `Host`, `Connection: close`; it is written exactly when host and path encode as ISO-8859-1, and the bytes decode back to it |
| Legacy.LegacyOutput.constructor | kalamari/proxy.py:192-196 | a new output has no transport and is not ready |
| Legacy.LegacyOutput.ConnectionMade | kalamari/proxy.py:206-215 | the transport is stored and the fixed GET request is written in one piece, or nothing when it does not encode |
| Legacy.LegacyOutput.DataReceived | kalamari/proxy.py:217-222 | response bytes reach the client unchanged |
| Legacy.LegacyOutput.ConnectionLost | kalamari/proxy.py:224-229 | losing the upstream connection closes the client stream |
| Legacy.LegacySession.constructor | kalamari/proxy.py:155-160 | a new session has no output yet |
| Legacy.LegacySession.Connect | kalamari/proxy.py:162-172 | `connect` creates a fresh output that is not ready |
| Legacy.LegacySession.Run | kalamari/proxy.py:174-184 | the same outcomes as `Relay` for the earlier session's output: returned at the second `timed_out()`, relayed to the end of file, or AttributeError on a missing transport; an early return leaves the reader and the upstream log untouched |
| Legacy.StubHandle | kalamari/kalamari.py:15-25 | the stub reads the request line and the headers, then writes the 404 line and closes; a request-line or header error leaves the writer untouched |
| Legacy.StubIgnoresRequestLine | kalamari/kalamari.py:16-24 | the stub's answer does not depend on a request line that fits `readline`'s limit |
| Legacy.StubRefusesOverlongLine | kalamari/kalamari.py:16 | a request line whose LF lies beyond `readline`'s limit makes the stub raise before any reply |

## Left out

- Utf8.Decode: decoding stops at the first error as a whole; the position Python reports in `UnicodeDecodeError` is not modelled.
- Resource.RuleRegex: only a subset of Python's `re` syntax is modelled: literals, `.`, escaped punctuation other than `\|`, `*`, `+` and `?` with optional lazy `?`, and top-level `|`. A lone `{`, `}` or `]`, which Python reads as a literal character, is outside it. A pattern outside it is treated as one that does not compile; in particular every `|` separates alternatives, so a rule using `\|` for a literal bar, which Python loads, makes the load fail in the model.
- Message.Parse: `email.parser` is modelled for header lines, continuation lines and the blank line that ends the block. Leading `From ` lines are skipped as the feed parser does; its defects handling and MIME details are not modelled.
- Text.Lower: header names are lower-cased for ASCII letters only, where Python's `str.lower` covers all of Unicode.
- Url.Hostname: the hostname is lower-cased for ASCII letters only, so for `http://BÜCHER.de/` Python gives `bücher.de` and the model `bÜcher.de`; domain lookups and the upstream Host line differ for such hosts.
- Url.Port: decimal digits outside ASCII, which `int()` also accepts, are rejected; signs, surrounding whitespace and single underscores are modelled.
- Streams.StreamReader.Read: every byte the client sends is taken to be in the buffer already, so `read(n)` returns fewer than n bytes only at EOF; asyncio returns whatever has arrived. Chunked arrival over time is not modelled.
- Url.ParseUrl: only what `urlparse` does to the netloc, path, params and query is modelled. Other schemes' quirks and IPv6 literal validation beyond bracket balance are not. Both parsers follow `urlsplit` of Python 3.6.0 to 3.6.8: the check that 3.6.9 added, which raises ValueError when NFKC normalisation of a non-ASCII netloc introduces one of `/?#@:` (as for `a℀b`), is not modelled.
- Session.Relay: the transport is fixed for the whole wait. The event loop delivering `connection_made` during the wait is not modelled; a run whose transport arrives late is modelled by calling `Run` after `ConnectionMade`.
- Session.TimedOut: the clock is a sequence of real readings passed in, and float rounding is not modelled. When the TIMEOUT variable is set, `config.timeout` is a string and Python's comparison raises TypeError; the model takes the timeout as a number.
- Server.ProxyServer.Handle: `peer` stands for `get_extra_info('peername')[0]`. When `get_extra_info` returns None itself, Python raises TypeError; that case is not modelled.
- Server.Redirected: the redirected request's creation time is the handler's clock reading `now`. Python reads `time.time()` a second time.
- `resource.CacheList` (src/proxy.py:30) is not defined in src/resource.py and is not part of this model. Its `check` is modelled as a given function from the request to an optional redirect URL, and its `load` as either that function or a failure.
- Server.ProxyServer.Create: scheduling the refresh in the constructor is `StartPeriodicRefresh`, called separately. Its result does not change the lists at construction time.
- `fetch_json` (src/resource.py:6-13): the download and JSON decoding are not modelled. `load` takes the decoded rule set.
- src/config.py: environment variables are not read. The access list, timeout and refresh interval are parameters.
- src/ssl.py and kalamari/resource.py are not part of this model. The first is a stub; the second has merge-conflict markers and does not parse.
- `get_next_session_id` is not modelled. It is exercised by tests/test_proxy.py:14-19 but is not defined in src/proxy.py; the counter `next_sess_id` is modelled instead.
- asyncio is not modelled: `create_connection`, `create_task`, `ensure_future` and the 0.5 s sleeps. There is no concurrency in the model; the refresh rounds are given as a sequence.
- Logging is not modelled, nor `HTTPRequest.__str__`.
- src/acl.py:31-36 indents with spaces inside a tab-indented method, which Python 3 rejects with TabError. The model follows the evident logic of `ip_allowed`.
- Acl.ParseNetwork: address and mask arithmetic is done on integers in 0..2^32 instead of Python's `int` bit operations; `ContainsIsMaskTest` proves the range test equal to the mask test.
- The `handler` of kalamari/proxy.py creates its session without a session id and writes no reply. `LegacyHandle` models exactly that.
