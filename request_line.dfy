/** The request-line of section 3.1.1 of RFC 7230, `method SP target SP
    version`, as `ProxyServer.parse_method` splits it (src/proxy.py and the
    earlier kalamari/proxy.py), and the authority-form target of a CONNECT
    request (section 5.3.3 of RFC 7230) as the handler splits it. */
module RequestLine {
  import opened Text

  /** Which Python exception class is raised. */
  datatype ExceptionClass = ValueError | Exception

  datatype Missing = MissingVerb | MissingTarget | MissingVersion

  datatype LineError = LineError(cls: ExceptionClass, missing: Missing)

  datatype RequestLine = RequestLine(verb: string, target: string, version: string)

  /** The line starts with the verb and the target of `rl`, each followed by
      a single space, and the version of `rl` is the next space-separated
      field with its surrounding whitespace removed. */
  ghost predicate Fields(line: string, rl: RequestLine)
  {
    ' ' !in rl.verb && ' ' !in rl.target
    && exists rest :: line == rl.verb + [' '] + rl.target + [' '] + rest
                      && rl.version == Strip(Split(rest, ' ')[0])
  }

  /** `ProxyServer.parse_method` of src/proxy.py: the first two space-separated
      fields are the verb and the target, the third, stripped of surrounding
      whitespace such as the line's CRLF, is the version; fields after the
      third are ignored. The empty line lacks a verb, a line with no space a
      target and a line with one space a version; each raises ValueError. */
  function ParseMethod(line: string): (r: Result<RequestLine, LineError>)
    ensures r.Ok? <==> Count(line, ' ') >= 2
    ensures r.Ok? ==> Fields(line, r.value)
    ensures line == [] ==> r == Err(LineError(ValueError, MissingVerb))
    ensures line != [] && Count(line, ' ') == 0 ==> r == Err(LineError(ValueError, MissingTarget))
    ensures Count(line, ' ') == 1 ==> r == Err(LineError(ValueError, MissingVersion))
  {
    var split := Split(line, ' ');
    SplitCount(line, ' ');
    if |split| == 1 && split[0] == [] then Err(LineError(ValueError, MissingVerb))
    else if |split| < 2 then Err(LineError(ValueError, MissingTarget))
    else if |split| < 3 then Err(LineError(ValueError, MissingVersion))
    else
      FieldsOfSplit(line);
      Ok(RequestLine(split[0], split[1], Strip(split[2])))
  }

  /** `parse_method` of kalamari/proxy.py. Its `len(split) < 1` guard can
      never fire, so the empty line is reported as lacking a target; every
      failure is a plain Exception rather than a ValueError. */
  function ParseMethodLegacy(line: string): (r: Result<RequestLine, LineError>)
    ensures r.Err? ==> r.error.cls == Exception && r.error.missing != MissingVerb
    ensures line == [] ==> r == Err(LineError(Exception, MissingTarget))
  {
    var split := Split(line, ' ');
    if |split| < 1 then Err(LineError(Exception, MissingVerb))
    else if |split| < 2 then Err(LineError(Exception, MissingTarget))
    else if |split| < 3 then Err(LineError(Exception, MissingVersion))
    else Ok(RequestLine(split[0], split[1], Strip(split[2])))
  }

  lemma FieldsOfSplit(line: string)
    requires |Split(line, ' ')| >= 3
    ensures var split := Split(line, ' ');
            Fields(line, RequestLine(split[0], split[1], Strip(split[2])))
  {
    var split := Split(line, ' ');
    var rest := SplitTwice(line);
    FieldsIntro(line, RequestLine(split[0], split[1], Strip(split[2])), rest);
  }

  /** The first two fields, each followed by its space, and the rest of
      the line, whose first field is the third. */
  lemma SplitTwice(line: string) returns (rest: string)
    requires |Split(line, ' ')| >= 3
    ensures line == Split(line, ' ')[0] + [' '] + Split(line, ' ')[1] + [' '] + rest
    ensures Split(rest, ' ')[0] == Split(line, ' ')[2]
  {
    var split := Split(line, ' ');
    var tail := SplitHead(line, ' ');
    var tailSplit := Split(tail, ' ');
    assert split[1..] == tailSplit;
    rest := SplitHead(tail, ' ');
    assert tailSplit[1..] == Split(rest, ' ');
    assert split[1] == tailSplit[0];
    assert split[2] == tailSplit[1];
    var a, b := split[0], split[1];
    AppendAssoc(a + [' '], b + [' '], rest);
    AppendAssoc(a + [' '], b, [' ']);
  }

  lemma FieldsIntro(line: string, rl: RequestLine, rest: string)
    requires ' ' !in rl.verb && ' ' !in rl.target
    requires line == rl.verb + [' '] + rl.target + [' '] + rest
    requires rl.version == Strip(Split(rest, ' ')[0])
    ensures Fields(line, rl)
  {
  }

  /** The two versions accept the same lines and return the same fields; they
      differ only in the exception raised, and src/proxy.py reports the empty
      line as lacking a verb where kalamari/proxy.py reports a missing target. */
  lemma {:induction false} LegacyAgrees(line: string)
    ensures ParseMethodLegacy(line).Ok? == ParseMethod(line).Ok?
    ensures ParseMethod(line).Ok? ==> ParseMethodLegacy(line) == ParseMethod(line)
    ensures ParseMethod(line).Err? && line != [] ==>
              ParseMethodLegacy(line).error.missing == ParseMethod(line).error.missing
  {
    var split := Split(line, ' ');
    if line != [] && |split| == 1 {
      assert split[0] != [] by {
        JoinSplit(line, ' ');
      }
    }
  }

  /** The request line a client sends, with its CRLF. */
  function Format(rl: RequestLine): string
  {
    rl.verb + [' '] + rl.target + [' '] + rl.version + "\r\n"
  }

  /** The three fields of a request line come back from parsing its text,
      provided none contains a space and the version carries no surrounding
      whitespace. */
  lemma FormatParse(rl: RequestLine)
    requires ' ' !in rl.verb && ' ' !in rl.target && ' ' !in rl.version
    requires Strip(rl.version) == rl.version
    ensures ParseMethod(Format(rl)) == Ok(rl)
  {
    ParseWithEnding(rl, "\r\n");
  }

  lemma ParseWithEnding(rl: RequestLine, ending: string)
    requires ' ' !in rl.verb && ' ' !in rl.target && ' ' !in rl.version && ' ' !in ending
    requires Strip(rl.version) == rl.version
    requires forall k :: 0 <= k < |ending| ==> IsPySpace(ending[k])
    ensures ParseMethod(rl.verb + [' '] + rl.target + [' '] + rl.version + ending) == Ok(rl)
  {
    var v := rl.version + ending;
    var line := rl.verb + [' '] + rl.target + [' '] + rl.version + ending;
    assert Split(line, ' ') == [rl.verb, rl.target, v] by {
      assert line == rl.verb + [' '] + (rl.target + [' '] + v);
      assert ' ' !in v;
      SplitNone(v, ' ');
      SplitCons(rl.target, ' ', v);
      SplitCons(rl.verb, ' ', rl.target + [' '] + v);
    }
    assert Strip(v) == rl.version by {
      StripTrailing(rl.version, ending);
    }
  }

  /** Stripping ignores trailing whitespace appended to an already stripped string. */
  lemma StripTrailing(s: string, ws: string)
    requires Strip(s) == s
    requires forall k :: 0 <= k < |ws| ==> IsPySpace(ws[k])
    ensures Strip(s + ws) == s
  {
    var t := s + ws;
    var i := LeadingSpace(t);
    if s == [] {
      assert i == |t|;
      assert t[i..] == [];
    } else {
      assert !IsPySpace(s[0]) && !IsPySpace(s[|s| - 1]);
      assert i == 0;
      var n := TrailingSpace(t[i..]);
      assert t[i..] == t;
      assert t[|s| - 1] == s[|s| - 1];
      assert n == |ws|;
      assert t[0..|s|] == s;
    }
  }

  // ---------------------------------------------------------------------
  // CONNECT target

  /** `hostname, port = target.split(':')` (src/proxy.py:53): the unpacking
      raises ValueError unless the target contains exactly one colon; the
      port stays text. */
  function SplitAuthority(target: string): (r: Option<(string, string)>)
    ensures r.Some? <==> Count(target, ':') == 1
    ensures r.Some? ==> ':' !in r.value.0 && ':' !in r.value.1
                        && target == r.value.0 + [':'] + r.value.1
  {
    var parts := Split(target, ':');
    SplitCount(target, ':');
    if |parts| == 2 then
      JoinSplit(target, ':');
      assert Join(parts, ':') == parts[0] + [':'] + parts[1];
      Some((parts[0], parts[1]))
    else None
  }
}
