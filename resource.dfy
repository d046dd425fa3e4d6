/** The whitelist, blacklist and cache rule lists of src/resource.py: a set
    of exact host names and two optional patterns, one matched against the
    start of the request path and one against the start of host + path.
    Downloading and decoding the JSON rule set is not modelled; `Load`
    receives the decoded record. */
module Resource {
  import opened Text
  import opened Regex

  /** The decoded rule set: each of the keys `domain`, `path` and `misc`
      either present with its list of strings or absent. */
  datatype Ruleset = Ruleset(domain: Option<seq<string>>, path: Option<seq<string>>, misc: Option<seq<string>>)

  /** `re.error` from `re.compile`. */
  datatype PatternError = PatternError

  /** `None + path`, which Python rejects with TypeError. */
  datatype CheckError = HostIsNone

  /** `set(ruleset['domain'])`, or the empty set when the key is absent. */
  function DomainSet(d: Option<seq<string>>): (s: set<string>)
    ensures forall x :: x in s <==> d.Some? && x in d.value
  {
    if d.Some? then set x | x in d.value else {}
  }

  /** Every fragment of the list compiles on its own. */
  predicate AllFragmentsCompile(frags: seq<string>)
  {
    forall n :: 0 <= n < |frags| ==> Compile(frags[n]).Some?
  }

  /** `re.compile('|'.join(ruleset[key]))`, or None when the key is absent.
      It fails exactly when some fragment does not compile; an empty list
      joins to the empty pattern, which compiles. */
  function RuleRegex(frags: Option<seq<string>>): (r: Result<Option<Pattern>, PatternError>)
    ensures r.Err? <==> frags.Some? && !AllFragmentsCompile(frags.value)
    ensures r.Ok? ==> (r.value.None? <==> frags.None?)
  {
    if frags.None? then Ok(None)
    else
      var p := Compile(Join(frags.value, '|'));
      if frags.value == [] then
        EmptyJoinMatchesAll([]);
        Ok(p)
      else
        JoinedMatch(frags.value, []);
        if p.None? then Err(PatternError) else Ok(p)
  }

  /** A text some fragment of a present list matches at its start; the
      empty list matches every text. */
  ghost predicate FragmentHit(frags: Option<seq<string>>, s: string)
    requires frags.Some? ==> AllFragmentsCompile(frags.value)
  {
    frags.Some?
    && (frags.value == [] || exists n :: 0 <= n < |frags.value| && MatchesPrefix(Compile(frags.value[n]).value, s))
  }

  /** What a compiled rule list matches is what its fragments match. */
  lemma RuleRegexMatches(frags: Option<seq<string>>, s: string)
    requires RuleRegex(frags).Ok?
    ensures RuleRegex(frags).value.Some? && Match(RuleRegex(frags).value.value, s) <==> FragmentHit(frags, s)
  {
    if frags.Some? {
      if frags.value == [] {
        EmptyJoinMatchesAll(s);
      } else {
        JoinedMatch(frags.value, s);
      }
    }
  }

  class ResourceList {
    var domains: set<string>
    var pathRegex: Option<Pattern>
    var fullRegex: Option<Pattern>

    /** `ResourceList()`: no domains and neither pattern. */
    constructor()
      ensures domains == {} && pathRegex == None && fullRegex == None
    {
      domains := {};
      pathRegex := None;
      fullRegex := None;
    }

    /** `load`: the three fields are overwritten in order, so when the path
        pattern does not compile the domains are already replaced and both
        patterns are left as they were, and when only the misc pattern does
        not compile the path pattern is replaced too. `ok` is false exactly
        when `re.compile` raised. */
    method Load(r: Ruleset) returns (ok: bool)
      modifies this
      ensures ok <==> RuleRegex(r.path).Ok? && RuleRegex(r.misc).Ok?
      ensures domains == DomainSet(r.domain)
      ensures pathRegex == if RuleRegex(r.path).Ok? then RuleRegex(r.path).value else old(pathRegex)
      ensures fullRegex == if ok then RuleRegex(r.misc).value else old(fullRegex)
    {
      domains := DomainSet(r.domain);
      if r.path.Some? {
        var p := Compile(Join(r.path.value, '|'));
        if p.None? {
          return false;
        }
        pathRegex := p;
      } else {
        pathRegex := None;
      }
      if r.misc.Some? {
        var p := Compile(Join(r.misc.value, '|'));
        if p.None? {
          return false;
        }
        fullRegex := p;
      } else {
        fullRegex := None;
      }
      return true;
    }

    /** `check(request)` for a request whose host is `host` (None when the
        URL had none) and whose path is `path`: an exact domain, then the
        path pattern at the start of the path, then the full pattern at the
        start of host + path. */
    function Check(host: Option<string>, path: string): (r: Result<bool, CheckError>)
      reads this
      ensures r.Err? <==> host.None? && !(pathRegex.Some? && MatchesPrefix(pathRegex.value, path)) && fullRegex.Some?
      ensures r.Ok? ==>
                (r.value <==>
                   ((host.Some? && host.value in domains)
                    || (pathRegex.Some? && MatchesPrefix(pathRegex.value, path))
                    || (fullRegex.Some? && MatchesPrefix(fullRegex.value, host.value + path))))
    {
      if host.Some? && host.value in domains then Ok(true)
      else if pathRegex.Some? && Match(pathRegex.value, path) then Ok(true)
      else if fullRegex.Some? then
        if host.None? then Err(HostIsNone)
        else Ok(Match(fullRegex.value, host.value + path))
      else Ok(false)
    }
  }

  /** A list loaded from `r` holds exactly what `r` says: nothing of an
      earlier load survives, and the list hits a request exactly when its
      host is one of the domains, or some path fragment matches the start
      of its path, or some misc fragment matches the start of host + path. */
  lemma CheckLoaded(rl: ResourceList, r: Ruleset, host: string, path: string)
    requires RuleRegex(r.path).Ok? && RuleRegex(r.misc).Ok?
    requires rl.domains == DomainSet(r.domain)
    requires rl.pathRegex == RuleRegex(r.path).value && rl.fullRegex == RuleRegex(r.misc).value
    ensures rl.Check(Some(host), path)
            == Ok((r.domain.Some? && host in r.domain.value) || FragmentHit(r.path, path) || FragmentHit(r.misc, host + path))
  {
    RuleRegexMatches(r.path, path);
    RuleRegexMatches(r.misc, host + path);
  }

  /** An empty rule set gives no domains and neither pattern, and hits no
      request. */
  lemma EmptyRulesetHitsNothing(rl: ResourceList, host: Option<string>, path: string)
    requires rl.domains == DomainSet(None)
    requires rl.pathRegex == RuleRegex(None).value && rl.fullRegex == RuleRegex(None).value
    ensures rl.domains == {} && rl.pathRegex.None? && rl.fullRegex.None?
    ensures rl.Check(host, path) == Ok(false)
  {
  }

  /** Domains are matched exactly, not as suffixes: `gooddomain.com` is not
      hit by a list holding only `example.com`, although it ends with it. */
  lemma DomainMatchIsExact(rl: ResourceList, path: string)
    requires rl.domains == DomainSet(Some(["example.com"]))
    requires rl.pathRegex.None? && rl.fullRegex.None?
    ensures rl.Check(Some("example.com"), path) == Ok(true)
    ensures rl.Check(Some("gooddomain.com"), path) == Ok(false)
  {
    assert "gooddomain.com" != "example.com" by {
      assert |"gooddomain.com"| != |"example.com"|;
    }
  }

  /** A path key present with an empty list joins to the empty pattern,
      which hits every request, whatever its host. */
  lemma EmptyPathListHitsAll(rl: ResourceList, host: Option<string>, path: string)
    requires rl.pathRegex == RuleRegex(Some([])).value
    ensures rl.Check(host, path) == Ok(true)
  {
    EmptyJoinMatchesAll(path);
  }

  // `.*/ads/.*` compiles to a run of any characters, the literal `/ads/`
  // and another run.
  lemma AdsPathCompiles() returns (b: Branch)
    ensures b == [Piece(AnyChar, Many)] + (Literals("/ads/") + [Piece(AnyChar, Many)])
    ensures Compile(".*/ads/.*") == Some([b])
  {
    var run := [Piece(AnyChar, Many)];
    var lits := "/ads/";
    var empty: string := [];
    assert CompileBranch(empty) == Some([]);
    CompileAnyRun(empty);
    assert run + [] == run;
    CompileLiterals(lits, ['.', '*'] + empty);
    var tail := lits + (['.', '*'] + empty);
    CompileAnyRun(tail);
    b := run + (Literals(lits) + run);
    var text := ['.', '*'] + tail;
    assert CompileBranch(text) == Some(b);
    SplitNone(text, '|');
    var parts := [text];
    assert parts[1..] == [];
    assert CompileAll(parts) == Some([b] + []);
    assert [b] + [] == [b];
    assert Compile(text) == Some([b]);
    assert text == ".*/ads/.*";
  }

  // The path fragment `.*/ads/.*` hits `/ads/x`.
  lemma AdsPathHit(pattern: string, hit: string)
    requires pattern == ".*/ads/.*" && hit == "/ads/x"
    ensures Compile(pattern).Some? && Match(Compile(pattern).value, hit)
  {
    var b := AdsPathCompiles();
    assert hit == "/ads/" + "x";
    LiteralsBetweenRuns("/ads/", hit, "x");
    assert MatchAny([b], hit, 0);
  }

  /** A run, some literal characters and a run match any text that starts
      with those characters. */
  lemma LiteralsBetweenRuns(lits: string, s: string, tail: string)
    requires s == lits + tail
    ensures MatchFrom([Piece(AnyChar, Many)] + (Literals(lits) + [Piece(AnyChar, Many)]), s, 0)
  {
    var run := [Piece(AnyChar, Many)];
    var rest := Literals(lits) + run;
    var b := run + rest;
    assert b[0] == Piece(AnyChar, Many) && b[1..] == rest;
    assert MatchFrom(run, s, |lits|) by {
      assert run[1..] == [];
    }
    assert s[0..|lits|] == lits;
    MatchLiterals(lits, run, s, 0);
    assert MatchRun(AnyChar, rest, s, 0);
  }

  // The path fragment `.*/ads/.*` does not hit `/`.
  lemma AdsPathMiss(pattern: string, miss: string)
    requires pattern == ".*/ads/.*" && miss == "/"
    ensures Compile(pattern).Some? && !Match(Compile(pattern).value, miss)
  {
    var b := AdsPathCompiles();
    var run := [Piece(AnyChar, Many)];
    var lits := "/ads/";
    assert !MatchFrom(b, miss, 0) by {
      assert b[0] == Piece(AnyChar, Many) && b[1..] == Literals(lits) + run;
      MatchLiterals(lits, run, miss, 0);
      MatchLiterals(lits, run, miss, 1);
      assert !MatchRun(AnyChar, b[1..], miss, 1);
    }
    assert !MatchAny([b], miss, 1);
  }
}
