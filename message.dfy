/** The header block of an HTTP message (section 3.2 of RFC 7230) as the
    `email` package of Python 3.6 parses it for `http.client.HTTPMessage`:
    the text is cracked into lines at CR LF, CR or LF; the leading lines that
    look like header lines are collected, a line starting with a space or
    tab continuing the header before it; each header becomes a
    (name, value) pair, in order, and lookup by name ignores case and
    returns the first match. */
module Message {
  import opened Text

  datatype Header = Header(name: string, value: string)

  /** What `HTTPMessage.items()` returns: the headers in order of appearance. */
  type Headers = seq<Header>

  // ---------------------------------------------------------------------
  // Lines

  /** The length of the line at the start of `s`, line break included: the
      first CR LF, CR or LF ends it; without one it runs to the end. */
  function LineLength(s: string): (n: nat)
    ensures s != [] ==> 1 <= n <= |s|
    ensures s == [] ==> n == 0
    ensures n < |s| ==> s[n - 1] == '\r' || s[n - 1] == '\n'
    ensures forall j :: 0 <= j < n - 2 ==> s[j] != '\r' && s[j] != '\n'
  {
    var i := FirstOfAny(s, {'\r', '\n'});
    if i == |s| then |s|
    else if s[i] == '\r' && i + 1 < |s| && s[i + 1] == '\n' then i + 2
    else i + 1
  }

  /** The text split into lines, each keeping its line break. */
  function SplitLines(s: string): (lines: seq<string>)
    ensures forall k :: 0 <= k < |lines| ==> lines[k] != []
    ensures Concat(lines) == s
    decreases |s|
  {
    if s == [] then []
    else
      var n := LineLength(s);
      assert s == s[..n] + s[n..];
      [s[..n]] + SplitLines(s[n..])
  }

  // ---------------------------------------------------------------------
  // Recognising header lines

  /** Characters allowed in a header name: printable ASCII other than `:`. */
  predicate IsNameChar(c: char)
  {
    '!' <= c <= '~' && c != ':'
  }

  predicate StartsWith(s: string, p: string)
  {
    |p| <= |s| && s[..|p|] == p
  }

  /** A string does not start with `p` when it differs from `p` at some
      position of `p`, or ends before it. */
  lemma NotStartsWith(s: string, p: string, i: nat)
    requires i < |p| && (i >= |s| || s[i] != p[i])
    ensures !StartsWith(s, p)
  {
    if |p| <= |s| {
      assert s[..|p|][i] == s[i];
    }
  }

  predicate IsContinuation(line: string)
  {
    line != [] && (line[0] == ' ' || line[0] == '\t')
  }

  /** `headerRE`: a line starting with `From `, with a space or a tab, or
      with a run of name characters followed by `:`. */
  predicate IsHeaderLine(line: string)
  {
    StartsWith(line, "From ") || IsContinuation(line)
    || (IndexOf(line, ':') < |line| && forall k :: 0 <= k < IndexOf(line, ':') ==> IsNameChar(line[k]))
  }

  /** Number of leading lines that are header lines; the first other line
      ends the header block. */
  function HeaderBlockLength(lines: seq<string>): (n: nat)
    ensures n <= |lines|
    ensures forall k :: 0 <= k < n ==> IsHeaderLine(lines[k])
    ensures n < |lines| ==> !IsHeaderLine(lines[n])
  {
    if lines == [] || !IsHeaderLine(lines[0]) then 0 else 1 + HeaderBlockLength(lines[1..])
  }

  // ---------------------------------------------------------------------
  // Turning header lines into pairs

  /** `value.rstrip('\r\n')`. */
  function StripLineBreaks(s: string): (r: string)
    ensures |r| <= |s| && r == s[..|r|]
    ensures r == [] || (r[|r| - 1] != '\r' && r[|r| - 1] != '\n')
    ensures forall j :: |r| <= j < |s| ==> s[j] == '\r' || s[j] == '\n'
  {
    if s != [] && (s[|s| - 1] == '\r' || s[|s| - 1] == '\n') then StripLineBreaks(s[..|s| - 1]) else s
  }

  /** `value.lstrip(' \t')`. */
  function StripBlanks(s: string): (r: string)
    ensures r == [] || (r[0] != ' ' && r[0] != '\t')
    ensures |r| <= |s| && r == s[|s| - |r|..]
  {
    if s != [] && (s[0] == ' ' || s[0] == '\t') then StripBlanks(s[1..]) else s
  }

  /** `header_source_parse` of the compat32 policy: the name is the text
      before the first `:` of the first line; the value is the rest of that
      line without leading blanks, followed by the continuation lines, with
      trailing line breaks removed. */
  function SourceParse(first: string, more: seq<string>): Header
  {
    Header(Before(first, ':'), StripLineBreaks(StripBlanks(After(first, ':')) + Concat(more)))
  }

  /** The header being accumulated: its first line and its continuations. */
  datatype Pending = NoPending | Pending(first: string, more: seq<string>)

  function Flush(p: Pending): (hs: Headers)
    ensures |hs| <= 1
  {
    if p.Pending? then [SourceParse(p.first, p.more)] else []
  }

  /** `FeedParser._parse_headers` over the header block `lines` from index
      `i`: a continuation with no header before it is dropped; a `From `
      line is the envelope on line 0, ends the headers when it is the last
      line and is dropped elsewhere; a line starting with `:` is dropped. */
  function Collect(lines: seq<string>, i: nat, p: Pending): Headers
    requires i <= |lines|
    decreases |lines| - i
  {
    if i == |lines| then Flush(p)
    else
      var line := lines[i];
      if IsContinuation(line) then
        if p.NoPending? then Collect(lines, i + 1, p)
        else Collect(lines, i + 1, Pending(p.first, p.more + [line]))
      else if StartsWith(line, "From ") then
        if i == 0 then Collect(lines, i + 1, NoPending)
        else if i == |lines| - 1 then Flush(p)
        else Flush(p) + Collect(lines, i + 1, NoPending)
      else
        var c := IndexOf(line, ':');
        if c == 0 || c == |line| then Flush(p) + Collect(lines, i + 1, NoPending)
        else Flush(p) + Collect(lines, i + 1, Pending(line, []))
  }

  /** `email.parser.Parser(_class=HTTPMessage).parsestr(text).items()`. */
  function Parse(text: string): (hs: Headers)
  {
    var lines := SplitLines(text);
    Collect(lines[..HeaderBlockLength(lines)], 0, NoPending)
  }

  // ---------------------------------------------------------------------
  // Lookup

  /** Header `k` is the first whose name matches `name` ignoring case. */
  predicate FirstMatch(hs: Headers, name: string, k: int)
  {
    0 <= k < |hs| && Lower(hs[k].name) == Lower(name)
    && forall j :: 0 <= j < k ==> Lower(hs[j].name) != Lower(name)
  }

  /** `HTTPMessage.get(name)`: the value of the first header whose name
      equals `name` when both are lower-cased; None when there is none. */
  function Get(hs: Headers, name: string): (r: Option<string>)
    ensures r.None? <==> forall k :: 0 <= k < |hs| ==> Lower(hs[k].name) != Lower(name)
    ensures r.Some? ==> exists k :: FirstMatch(hs, name, k) && hs[k].value == r.value
  {
    if hs == [] then None
    else if Lower(hs[0].name) == Lower(name) then
      assert FirstMatch(hs, name, 0);
      Some(hs[0].value)
    else
      var r := Get(hs[1..], name);
      GetShift(hs, name, r);
      r
  }

  lemma GetShift(hs: Headers, name: string, r: Option<string>)
    requires hs != [] && Lower(hs[0].name) != Lower(name)
    requires r.None? <==> forall k :: 0 <= k < |hs[1..]| ==> Lower(hs[1..][k].name) != Lower(name)
    requires r.Some? ==> exists k :: FirstMatch(hs[1..], name, k) && hs[1..][k].value == r.value
    ensures r.None? <==> forall k :: 0 <= k < |hs| ==> Lower(hs[k].name) != Lower(name)
    ensures r.Some? ==> exists k :: FirstMatch(hs, name, k) && hs[k].value == r.value
  {
    if r.Some? {
      var k :| FirstMatch(hs[1..], name, k) && hs[1..][k].value == r.value;
      assert hs[k + 1] == hs[1..][k];
      forall j | 0 <= j < k + 1 ensures Lower(hs[j].name) != Lower(name) {
        if j > 0 { assert hs[j] == hs[1..][j - 1]; }
      }
      assert FirstMatch(hs, name, k + 1);
    } else {
      forall k | 0 <= k < |hs| ensures Lower(hs[k].name) != Lower(name) {
        if k > 0 { assert hs[k] == hs[1..][k - 1]; }
      }
    }
  }

  // ---------------------------------------------------------------------
  // Round trip: the headers a client writes are the headers parsed back

  /** A header that survives writing as `name: value` CR LF: a name of name
      characters, a value with no line break and no leading blank. */
  predicate WellFormed(h: Header)
  {
    h.name != [] && (forall k :: 0 <= k < |h.name| ==> IsNameChar(h.name[k]))
    && '\r' !in h.value && '\n' !in h.value
    && (h.value == [] || (h.value[0] != ' ' && h.value[0] != '\t'))
  }

  function HeaderText(h: Header): string
  {
    h.name + ": " + h.value + "\r\n"
  }

  /** The header block as a client sends it, closed by an empty line. */
  function Serialize(hs: Headers): string
  {
    if hs == [] then "\r\n" else HeaderText(hs[0]) + Serialize(hs[1..])
  }

  function HeaderTexts(hs: Headers): (lines: seq<string>)
    ensures |lines| == |hs|
    ensures forall k :: 0 <= k < |hs| ==> lines[k] == HeaderText(hs[k])
  {
    if hs == [] then [] else [HeaderText(hs[0])] + HeaderTexts(hs[1..])
  }

  lemma HeaderTextShape(h: Header)
    requires WellFormed(h)
    ensures var t := HeaderText(h);
            |t| == |h.name| + |h.value| + 4
            && (forall j :: 0 <= j < |t| - 2 ==> t[j] != '\r' && t[j] != '\n')
            && t[|t| - 2] == '\r' && t[|t| - 1] == '\n'
  {
    var t := HeaderText(h);
    forall j | 0 <= j < |t| - 2 ensures t[j] != '\r' && t[j] != '\n' {
      if j < |h.name| {
        assert t[j] == h.name[j];
      } else if j >= |h.name| + 2 {
        assert t[j] == h.value[j - |h.name| - 2];
      }
    }
  }

  lemma LineLengthHeader(h: Header, rest: string)
    requires WellFormed(h)
    ensures LineLength(HeaderText(h) + rest) == |HeaderText(h)|
  {
    var t := HeaderText(h);
    var s := t + rest;
    HeaderTextShape(h);
    assert forall j :: 0 <= j < |t| - 2 ==> s[j] !in {'\r', '\n'};
    FirstOfAnyPrefix(t[..|t| - 2], t[|t| - 2..] + rest, {'\r', '\n'});
    assert s == t[..|t| - 2] + (t[|t| - 2..] + rest);
    assert s[|t| - 2] == '\r' && s[|t| - 1] == '\n';
  }

  lemma {:induction false} SplitSerialize(hs: Headers)
    requires forall k :: 0 <= k < |hs| ==> WellFormed(hs[k])
    ensures SplitLines(Serialize(hs)) == HeaderTexts(hs) + ["\r\n"]
  {
    if hs == [] {
      SplitBlankLine();
    } else {
      var t := HeaderText(hs[0]);
      var s := Serialize(hs);
      LineLengthHeader(hs[0], Serialize(hs[1..]));
      assert s[..|t|] == t;
      assert s[|t|..] == Serialize(hs[1..]);
      SplitSerialize(hs[1..]);
    }
  }

  lemma HeaderTextIsHeaderLine(h: Header)
    requires WellFormed(h)
    ensures IsHeaderLine(HeaderText(h))
    ensures !IsContinuation(HeaderText(h)) && !StartsWith(HeaderText(h), "From ")
    ensures IndexOf(HeaderText(h), ':') == |h.name|
    ensures Before(HeaderText(h), ':') == h.name
    ensures After(HeaderText(h), ':') == " " + h.value + "\r\n"
  {
    var t := HeaderText(h);
    var n := h.name + [':'];
    var colon: string, blank: string, crlf: string := ": ", " ", "\r\n";
    assert t == h.name + colon + h.value + crlf;
    assert colon == [':'] + blank;
    AppendAssoc(h.name, [':'], blank);
    assert h.name + colon == n + blank;
    AppendAssoc(n, blank, h.value);
    assert h.name + colon + h.value == n + (blank + h.value);
    AppendAssoc(n, blank + h.value, crlf);
    assert t == n + (blank + h.value + crlf);
    assert ':' !in h.name by {
      assert forall k :: 0 <= k < |h.name| ==> h.name[k] != ':';
    }
    IndexOfCons(h.name, ':', " " + h.value + "\r\n");
    PartitionCons(h.name, ':', " " + h.value + "\r\n");
    forall k | 0 <= k < |h.name|
      ensures t[k] == h.name[k]
    {
      assert t[k] == n[k];
    }
    if |h.name| < 5 {
      assert t[|h.name|] == ':';
      NotStartsWith(t, "From ", |h.name|);
    } else {
      NotStartsWith(t, "From ", 4);
    }
  }

  lemma SplitBlankLine()
    ensures SplitLines("\r\n") == ["\r\n"]
  {
    assert FirstOfAny("\r\n", {'\r', '\n'}) == 0;
    assert LineLength("\r\n") == 2;
    assert "\r\n"[..2] == "\r\n";
    assert "\r\n"[2..] == [];
    assert SplitLines([]) == [];
  }

  lemma BlankLineEndsBlock()
    ensures !IsHeaderLine("\r\n")
  {
    assert IndexOf("\r\n", ':') == 2;
  }

  lemma {:induction false} HeaderBlockOfSerialize(hs: Headers)
    requires forall k :: 0 <= k < |hs| ==> WellFormed(hs[k])
    ensures HeaderBlockLength(HeaderTexts(hs) + ["\r\n"]) == |hs|
  {
    var lines := HeaderTexts(hs) + ["\r\n"];
    if hs == [] {
      assert lines == ["\r\n"];
      BlankLineEndsBlock();
    } else {
      HeaderTextIsHeaderLine(hs[0]);
      assert HeaderTexts(hs) == [HeaderText(hs[0])] + HeaderTexts(hs[1..]);
      assert lines == [HeaderText(hs[0])] + (HeaderTexts(hs[1..]) + ["\r\n"]);
      assert lines[1..] == HeaderTexts(hs[1..]) + ["\r\n"];
      HeaderBlockOfSerialize(hs[1..]);
    }
  }

  lemma SourceParseHeader(h: Header)
    requires WellFormed(h)
    ensures SourceParse(HeaderText(h), []) == h
  {
    HeaderTextIsHeaderLine(h);
    var w := h.value + "\r\n";
    AppendAssoc(" ", h.value, "\r\n");
    assert After(HeaderText(h), ':') == " " + w;
    StripOneBlank(w);
    assert Concat<char>([]) == [];
    AppendNil(w);
    StripCrLf(h.value);
  }

  /** One blank before a text that does not start with one is removed. */
  lemma StripOneBlank(w: string)
    requires w != [] && w[0] != ' ' && w[0] != '\t'
    ensures StripBlanks(" " + w) == w
  {
    assert (" " + w)[1..] == w;
  }

  /** The CR LF after a text without line breaks is removed. */
  lemma StripCrLf(v: string)
    requires '\r' !in v && '\n' !in v
    ensures StripLineBreaks(v + "\r\n") == v
  {
    var w := v + "\r\n";
    assert w[..|w| - 1] == v + "\r";
    assert (v + "\r")[..|v|] == v;
    if v != [] {
      assert v[|v| - 1] in v;
    }
  }

  /** One step of `Collect` over a line `name: value`. */
  lemma CollectHeaderLine(lines: seq<string>, i: nat, p: Pending)
    requires i < |lines|
    requires !IsContinuation(lines[i]) && !StartsWith(lines[i], "From ")
    requires 0 < IndexOf(lines[i], ':') < |lines[i]|
    ensures Collect(lines, i, p) == Flush(p) + Collect(lines, i + 1, Pending(lines[i], []))
  {
  }

  lemma {:induction false} CollectHeaderTexts(hs: Headers, i: nat, p: Pending)
    requires forall k :: 0 <= k < |hs| ==> WellFormed(hs[k])
    requires i <= |hs|
    requires p.Pending? ==> p.more == [] && i > 0 && p.first == HeaderText(hs[i - 1])
    ensures Collect(HeaderTexts(hs), i, p) == Flush(p) + hs[i..]
    decreases |hs| - i
  {
    var lines := HeaderTexts(hs);
    if i == |hs| {
      assert hs[i..] == [];
    } else {
      var h := hs[i];
      var line := HeaderText(h);
      assert lines[i] == line;
      var next := Pending(line, []);
      assert Collect(lines, i, p) == Flush(p) + Collect(lines, i + 1, next) by {
        HeaderTextIsHeaderLine(h);
        CollectHeaderLine(lines, i, p);
      }
      assert Collect(lines, i + 1, next) == Flush(next) + hs[i + 1..] by {
        assert next.first == HeaderText(hs[(i + 1) - 1]);
        CollectHeaderTexts(hs, i + 1, next);
      }
      assert Flush(next) == [h] by {
        SourceParseHeader(h);
      }
      SliceCons(hs, i);
      AppendAssoc(Flush(p), [h], hs[i + 1..]);
    }
  }

  /** Well-formed headers written one per line and closed by an empty line
      are parsed back into the same pairs in the same order. */
  lemma {:induction false} ParseSerialize(hs: Headers)
    requires forall k :: 0 <= k < |hs| ==> WellFormed(hs[k])
    ensures Parse(Serialize(hs)) == hs
  {
    var lines := SplitLines(Serialize(hs));
    SplitSerialize(hs);
    HeaderBlockOfSerialize(hs);
    assert lines[..|hs|] == HeaderTexts(hs);
    CollectHeaderTexts(hs, 0, NoPending);
  }

  /** Looking a header up in parsed well-formed headers finds the first one
      the client sent under that name, in any case. */
  lemma {:induction false} GetSerialized(hs: Headers, name: string, k: nat)
    requires forall j :: 0 <= j < |hs| ==> WellFormed(hs[j])
    requires k < |hs| && Lower(hs[k].name) == Lower(name)
    requires forall j :: 0 <= j < k ==> Lower(hs[j].name) != Lower(name)
    ensures Get(Parse(Serialize(hs)), name) == Some(hs[k].value)
  {
    ParseSerialize(hs);
    var r := Get(hs, name);
    assert r.Some?;
    var m :| FirstMatch(hs, name, m) && hs[m].value == r.value;
    assert m == k;
  }
}
