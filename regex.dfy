/** The regular expressions of the rule lists, restricted to a subset of
    Python's `re` syntax: literal characters, `.` (any character but a line
    feed), a backslash before a character that is not an ASCII letter or
    digit (that character literally), each optionally followed by `*`, `+`
    or `?` and then optionally by a lazy `?`, and top-level alternation with
    `|`. `compile` on anything else yields None here. `match` anchors the
    pattern at the start of the text; since laziness never changes whether a
    match exists, only its existence is modelled. */
module Regex {
  import opened Text

  datatype Atom = Lit(c: char) | AnyChar

  datatype Quant = One | Optional | Many | AtLeastOne

  datatype Piece = Piece(atom: Atom, quant: Quant)

  /** One alternative: a sequence of pieces. */
  type Branch = seq<Piece>

  /** A compiled pattern: its alternatives, in order. */
  type Pattern = seq<Branch>

  predicate AtomMatches(a: Atom, c: char)
  {
    if a.Lit? then c == a.c else c != '\n'
  }

  // ---------------------------------------------------------------------
  // Meaning of a pattern

  /** Every character of `s[i..m]` matches the atom. */
  ghost predicate AllMatch(a: Atom, s: string, i: nat, m: nat)
    requires i <= m <= |s|
  {
    forall k :: i <= k < m ==> AtomMatches(a, s[k])
  }

  /** The piece matches exactly `s[i..m]`. */
  ghost predicate PieceMatches(p: Piece, s: string, i: nat, m: nat)
    requires i <= m <= |s|
  {
    AllMatch(p.atom, s, i, m)
    && match p.quant
       case One => m == i + 1
       case Optional => m <= i + 1
       case Many => true
       case AtLeastOne => m >= i + 1
  }

  /** The branch matches exactly `s[i..j]`. */
  ghost predicate BranchMatches(b: Branch, s: string, i: nat, j: nat)
    requires i <= j <= |s|
    decreases |b|
  {
    if b == [] then i == j
    else exists m :: i <= m <= j && PieceMatches(b[0], s, i, m) && BranchMatches(b[1..], s, m, j)
  }

  /** The branch matches some piece of `s` starting at `i`. */
  ghost predicate MatchesAt(b: Branch, s: string, i: nat)
    requires i <= |s|
  {
    exists j :: i <= j <= |s| && BranchMatches(b, s, i, j)
  }

  /** `pattern.match(s)` is not None: some alternative matches a prefix of `s`. */
  ghost predicate MatchesPrefix(p: Pattern, s: string)
  {
    exists k :: 0 <= k < |p| && MatchesAt(p[k], s, 0)
  }

  // ---------------------------------------------------------------------
  // Deciding a match

  /** Whether `b` matches a piece of `s` starting at `i`, trying a repeated
      piece over every length of its run. */
  function MatchFrom(b: Branch, s: string, i: nat): bool
    requires i <= |s|
    decreases |b|, |s| - i, 1
  {
    if b == [] then true
    else
      var a := b[0].atom;
      match b[0].quant
      case One => i < |s| && AtomMatches(a, s[i]) && MatchFrom(b[1..], s, i + 1)
      case Optional => MatchFrom(b[1..], s, i) || (i < |s| && AtomMatches(a, s[i]) && MatchFrom(b[1..], s, i + 1))
      case Many => MatchRun(a, b[1..], s, i)
      case AtLeastOne => i < |s| && AtomMatches(a, s[i]) && MatchRun(a, b[1..], s, i + 1)
  }

  /** Whether some run of `a` from `i` is followed by a match of `rest`. */
  function MatchRun(a: Atom, rest: Branch, s: string, i: nat): bool
    requires i <= |s|
    decreases |rest| + 1, |s| - i, 0
  {
    MatchFrom(rest, s, i) || (i < |s| && AtomMatches(a, s[i]) && MatchRun(a, rest, s, i + 1))
  }

  /** `pattern.match(s) is not None`. */
  function Match(p: Pattern, s: string): (r: bool)
    ensures r <==> MatchesPrefix(p, s)
  {
    MatchAny(p, s, 0)
  }

  function MatchAny(p: Pattern, s: string, k: nat): (r: bool)
    requires k <= |p|
    ensures r <==> exists n :: k <= n < |p| && MatchesAt(p[n], s, 0)
    decreases |p| - k
  {
    if k == |p| then false
    else
      MatchFromCorrect(p[k], s, 0);
      MatchFrom(p[k], s, 0) || MatchAny(p, s, k + 1)
  }

  /** Some run of `a` from `i` to `m` is followed by a match of `rest` from `m`. */
  ghost predicate RunThenMatches(a: Atom, rest: Branch, s: string, i: nat)
    requires i <= |s|
  {
    exists m :: i <= m <= |s| && AllMatch(a, s, i, m) && MatchesAt(rest, s, m)
  }

  lemma BranchStep(b: Branch, s: string, i: nat, m: nat, j: nat)
    requires b != [] && i <= m <= j <= |s|
    requires PieceMatches(b[0], s, i, m) && BranchMatches(b[1..], s, m, j)
    ensures BranchMatches(b, s, i, j)
  {
  }

  /** The matcher decides the meaning of a branch. */
  lemma {:induction false} MatchFromCorrect(b: Branch, s: string, i: nat)
    requires i <= |s|
    ensures MatchFrom(b, s, i) <==> MatchesAt(b, s, i)
    decreases |b|, |s| - i, 1
  {
    if b == [] {
      assert BranchMatches(b, s, i, i);
    } else {
      var a := b[0].atom;
      var rest := b[1..];
      match b[0].quant
      case One =>
        if i < |s| {
          MatchFromCorrect(rest, s, i + 1);
        }
        if MatchFrom(b, s, i) {
          var j :| i + 1 <= j <= |s| && BranchMatches(rest, s, i + 1, j);
          BranchStep(b, s, i, i + 1, j);
        }
        if MatchesAt(b, s, i) {
          var j :| i <= j <= |s| && BranchMatches(b, s, i, j);
          var m :| i <= m <= j && PieceMatches(b[0], s, i, m) && BranchMatches(rest, s, m, j);
          assert m == i + 1 && AtomMatches(a, s[i]);
        }
      case Optional =>
        MatchFromCorrect(rest, s, i);
        if i < |s| {
          MatchFromCorrect(rest, s, i + 1);
        }
        if MatchFrom(rest, s, i) {
          var j :| i <= j <= |s| && BranchMatches(rest, s, i, j);
          BranchStep(b, s, i, i, j);
        } else if MatchFrom(b, s, i) {
          var j :| i + 1 <= j <= |s| && BranchMatches(rest, s, i + 1, j);
          BranchStep(b, s, i, i + 1, j);
        }
        if MatchesAt(b, s, i) {
          var j :| i <= j <= |s| && BranchMatches(b, s, i, j);
          var m :| i <= m <= j && PieceMatches(b[0], s, i, m) && BranchMatches(rest, s, m, j);
          if m == i + 1 {
            assert AtomMatches(a, s[i]);
          }
        }
      case Many =>
        MatchRunCorrect(a, rest, s, i);
        ManyCorrect(b, s, i);
      case AtLeastOne =>
        if i < |s| {
          MatchRunCorrect(a, rest, s, i + 1);
        }
        AtLeastOneCorrect(b, s, i);
    }
  }

  lemma ManyCorrect(b: Branch, s: string, i: nat)
    requires i <= |s| && b != [] && b[0].quant == Many
    ensures MatchesAt(b, s, i) <==> RunThenMatches(b[0].atom, b[1..], s, i)
  {
    var a := b[0].atom;
    if MatchesAt(b, s, i) {
      var j :| i <= j <= |s| && BranchMatches(b, s, i, j);
      var m :| i <= m <= j && PieceMatches(b[0], s, i, m) && BranchMatches(b[1..], s, m, j);
      assert MatchesAt(b[1..], s, m);
    }
    if RunThenMatches(a, b[1..], s, i) {
      var m :| i <= m <= |s| && AllMatch(a, s, i, m) && MatchesAt(b[1..], s, m);
      var j :| m <= j <= |s| && BranchMatches(b[1..], s, m, j);
      BranchStep(b, s, i, m, j);
    }
  }

  lemma AtLeastOneCorrect(b: Branch, s: string, i: nat)
    requires i <= |s| && b != [] && b[0].quant == AtLeastOne
    ensures MatchesAt(b, s, i) <==>
            i < |s| && AtomMatches(b[0].atom, s[i]) && RunThenMatches(b[0].atom, b[1..], s, i + 1)
  {
    var a := b[0].atom;
    if MatchesAt(b, s, i) {
      var j :| i <= j <= |s| && BranchMatches(b, s, i, j);
      var m :| i <= m <= j && PieceMatches(b[0], s, i, m) && BranchMatches(b[1..], s, m, j);
      assert AtomMatches(a, s[i]);
      assert AllMatch(a, s, i + 1, m);
      assert MatchesAt(b[1..], s, m);
    }
    if i < |s| && AtomMatches(a, s[i]) && RunThenMatches(a, b[1..], s, i + 1) {
      var m :| i + 1 <= m <= |s| && AllMatch(a, s, i + 1, m) && MatchesAt(b[1..], s, m);
      var j :| m <= j <= |s| && BranchMatches(b[1..], s, m, j);
      assert AllMatch(a, s, i, m);
      BranchStep(b, s, i, m, j);
    }
  }

  lemma {:induction false} MatchRunCorrect(a: Atom, rest: Branch, s: string, i: nat)
    requires i <= |s|
    ensures MatchRun(a, rest, s, i) <==> RunThenMatches(a, rest, s, i)
    decreases |rest| + 1, |s| - i, 0
  {
    MatchFromCorrect(rest, s, i);
    if i < |s| {
      MatchRunCorrect(a, rest, s, i + 1);
    }
    if MatchFrom(rest, s, i) {
      assert AllMatch(a, s, i, i);
    } else if MatchRun(a, rest, s, i) {
      var m :| i + 1 <= m <= |s| && AllMatch(a, s, i + 1, m) && MatchesAt(rest, s, m);
      assert AllMatch(a, s, i, m);
    }
    if RunThenMatches(a, rest, s, i) {
      var m :| i <= m <= |s| && AllMatch(a, s, i, m) && MatchesAt(rest, s, m);
      if m > i {
        assert AllMatch(a, s, i + 1, m);
      }
    }
  }

  // ---------------------------------------------------------------------
  // Compiling

  predicate IsAsciiAlnum(c: char)
  {
    'a' <= c <= 'z' || 'A' <= c <= 'Z' || '0' <= c <= '9'
  }

  /** Characters with a meaning of their own in `re` syntax. */
  predicate IsSpecial(c: char)
  {
    c == '^' || c == '$' || c == '*' || c == '+' || c == '?' || c == '{' || c == '}'
    || c == '[' || c == ']' || c == '(' || c == ')' || c == '|'
  }

  predicate IsQuantifier(c: char)
  {
    c == '*' || c == '+' || c == '?'
  }

  function QuantOf(c: char): Quant
    requires IsQuantifier(c)
  {
    if c == '*' then Many else if c == '+' then AtLeastOne else Optional
  }

  /** The atom at the start of a non-empty pattern text and its length, or
      None for a character that has a meaning of its own or an escape
      outside the subset. */
  function AtomAt(t: string): (r: Option<(Atom, nat)>)
    requires t != []
    ensures r.Some? ==> 1 <= r.value.1 <= |t|
  {
    if t[0] == '.' then Some((AnyChar, 1))
    else if t[0] == '\\' then
      if |t| >= 2 && !IsAsciiAlnum(t[1]) then Some((Lit(t[1]), 2)) else None
    else if IsSpecial(t[0]) then None
    else Some((Lit(t[0]), 1))
  }

  /** The quantifier after an atom, with an optional lazy `?`, and its length. */
  function QuantAt(rest: string): (r: (Quant, nat))
    ensures r.1 <= |rest|
  {
    if rest != [] && IsQuantifier(rest[0]) then
      (QuantOf(rest[0]), if |rest| >= 2 && rest[1] == '?' then 2 else 1)
    else (One, 0)
  }

  /** The pieces of one alternative, or None when it leaves the subset
      (including the errors `re` reports: nothing to repeat, multiple
      repeat, a trailing backslash). */
  function CompileBranch(t: string): Option<Branch>
    decreases |t|
  {
    if t == [] then Some([])
    else
      match AtomAt(t)
      case None => None
      case Some((atom, n)) =>
        var (quant, k) := QuantAt(t[n..]);
        match CompileBranch(t[n + k..])
        case None => None
        case Some(pieces) => Some([Piece(atom, quant)] + pieces)
  }

  function CompileAll(parts: seq<string>): (r: Option<Pattern>)
    ensures r.Some? ==> |r.value| == |parts|
  {
    if parts == [] then Some([])
    else
      match (CompileBranch(parts[0]), CompileAll(parts[1..]))
      case (Some(b), Some(bs)) => Some([b] + bs)
      case _ => None
  }

  /** `re.compile(pattern)`: the alternatives between the `|` characters. */
  function Compile(pattern: string): (r: Option<Pattern>)
    ensures r.Some? ==> |r.value| >= 1
  {
    CompileAll(Split(pattern, '|'))
  }

  /** A character that stands for itself in a pattern. */
  predicate IsPlain(c: char)
  {
    c != '.' && c != '\\' && !IsSpecial(c)
  }

  /** The pieces of a run of plain characters. */
  function Literals(lits: string): Branch
  {
    if lits == [] then [] else [Piece(Lit(lits[0]), One)] + Literals(lits[1..])
  }

  lemma CompileLiteral(c: char, t: string)
    requires IsPlain(c)
    requires t == [] || !IsQuantifier(t[0])
    requires CompileBranch(t).Some?
    ensures CompileBranch([c] + t) == Some([Piece(Lit(c), One)] + CompileBranch(t).value)
  {
    assert ([c] + t)[1..] == t;
  }

  lemma ConsAppend(x: string, y: string)
    requires x != []
    ensures x + y == [x[0]] + (x[1..] + y)
  {
  }

  /** A run of plain characters compiles to one literal piece each. */
  lemma {:induction false} CompileLiterals(lits: string, t: string)
    requires forall k :: 0 <= k < |lits| ==> IsPlain(lits[k])
    requires t == [] || !IsQuantifier(t[0])
    requires CompileBranch(t).Some?
    ensures CompileBranch(lits + t) == Some(Literals(lits) + CompileBranch(t).value)
  {
    if lits == [] {
      assert lits + t == t;
      assert Literals(lits) + CompileBranch(t).value == CompileBranch(t).value;
    } else {
      var u := lits[1..] + t;
      CompileLiterals(lits[1..], t);
      assert u == [] || !IsQuantifier(u[0]) by {
        if lits[1..] != [] { assert u[0] == lits[1]; }
      }
      CompileLiteral(lits[0], u);
      ConsAppend(lits, t);
      var v := CompileBranch(t).value;
      assert Literals(lits) == [Piece(Lit(lits[0]), One)] + Literals(lits[1..]);
      AppendAssoc([Piece(Lit(lits[0]), One)], Literals(lits[1..]), v);
    }
  }

  /** `.*` not followed by a lazy `?` compiles to a repeated any-character. */
  lemma CompileAnyRun(t: string)
    requires t == [] || t[0] != '?'
    requires CompileBranch(t).Some?
    ensures CompileBranch(['.', '*'] + t) == Some([Piece(AnyChar, Many)] + CompileBranch(t).value)
  {
    var u := ['.', '*'] + t;
    assert u[1..][1..] == t;
  }

  /** Literal pieces match exactly their own characters. */
  lemma {:induction false} MatchLiterals(lits: string, rest: Branch, s: string, i: nat)
    requires i <= |s|
    ensures MatchFrom(Literals(lits) + rest, s, i)
            <==> i + |lits| <= |s| && s[i..i + |lits|] == lits && MatchFrom(rest, s, i + |lits|)
    decreases |lits|
  {
    if lits == [] {
      assert Literals(lits) + rest == rest;
    } else {
      var b := Literals(lits) + rest;
      assert b[0] == Piece(Lit(lits[0]), One);
      assert b[1..] == Literals(lits[1..]) + rest;
      assert MatchFrom(b, s, i) == (i < |s| && s[i] == lits[0] && MatchFrom(b[1..], s, i + 1));
      if i < |s| {
        MatchLiterals(lits[1..], rest, s, i + 1);
        assert i + 1 + |lits[1..]| == i + |lits|;
        if i + |lits| <= |s| {
          var w := s[i..i + |lits|];
          assert w[0] == s[i] && w[1..] == s[i + 1..i + |lits|];
          HeadTailEq(w, lits);
        }
      }
    }
  }

  // ---------------------------------------------------------------------
  // Joining fragments with `|`

  lemma {:induction false} CompileAllAppend(xs: seq<string>, ys: seq<string>)
    ensures CompileAll(xs + ys).Some? <==> CompileAll(xs).Some? && CompileAll(ys).Some?
    ensures CompileAll(xs + ys).Some? ==> CompileAll(xs + ys).value == CompileAll(xs).value + CompileAll(ys).value
  {
    if xs == [] {
      assert xs + ys == ys;
    } else {
      assert (xs + ys)[0] == xs[0];
      assert (xs + ys)[1..] == xs[1..] + ys;
      CompileAllAppend(xs[1..], ys);
    }
  }

  /** The alternatives of each fragment, one after the other. */
  function SplitEach(frags: seq<string>): seq<string>
  {
    if frags == [] then [] else Split(frags[0], '|') + SplitEach(frags[1..])
  }

  lemma {:induction false} SplitJoinEach(frags: seq<string>)
    requires frags != []
    ensures Split(Join(frags, '|'), '|') == SplitEach(frags)
  {
    if |frags| == 1 {
      assert SplitEach(frags[1..]) == [];
    } else {
      SplitAppendSep(frags[0], '|', Join(frags[1..], '|'));
      SplitJoinEach(frags[1..]);
    }
  }

  /** The pattern compiled from the fragments joined with `|`: each
      fragment's alternatives, in order. */
  function CompileEach(frags: seq<string>): Option<Pattern>
  {
    if frags == [] then Some([])
    else
      match (Compile(frags[0]), CompileEach(frags[1..]))
      case (Some(p), Some(ps)) => Some(p + ps)
      case _ => None
  }

  lemma {:induction false} CompileSplitEach(frags: seq<string>)
    ensures CompileAll(SplitEach(frags)) == CompileEach(frags)
  {
    if frags != [] {
      CompileAllAppend(Split(frags[0], '|'), SplitEach(frags[1..]));
      CompileSplitEach(frags[1..]);
    }
  }

  lemma MatchesPrefixAppend(p: Pattern, q: Pattern, s: string)
    ensures MatchesPrefix(p + q, s) <==> MatchesPrefix(p, s) || MatchesPrefix(q, s)
  {
    if MatchesPrefix(p + q, s) {
      var k :| 0 <= k < |p + q| && MatchesAt((p + q)[k], s, 0);
      if k >= |p| {
        assert (p + q)[k] == q[k - |p|];
      }
    }
    if MatchesPrefix(q, s) {
      var k :| 0 <= k < |q| && MatchesAt(q[k], s, 0);
      assert (p + q)[k + |p|] == q[k];
    }
    if MatchesPrefix(p, s) {
      var k :| 0 <= k < |p| && MatchesAt(p[k], s, 0);
      assert (p + q)[k] == p[k];
    }
  }

  lemma {:induction false} CompileEachMatches(frags: seq<string>, s: string)
    requires CompileEach(frags).Some?
    ensures forall n :: 0 <= n < |frags| ==> Compile(frags[n]).Some?
    ensures MatchesPrefix(CompileEach(frags).value, s)
            <==> exists n :: 0 <= n < |frags| && MatchesPrefix(Compile(frags[n]).value, s)
  {
    if frags != [] {
      var p := Compile(frags[0]).value;
      CompileEachMatches(frags[1..], s);
      MatchesPrefixAppend(p, CompileEach(frags[1..]).value, s);
      forall n | 0 <= n < |frags| ensures Compile(frags[n]).Some? {
        if n > 0 { assert frags[n] == frags[1..][n - 1]; }
      }
      if exists n :: 0 <= n < |frags| && MatchesPrefix(Compile(frags[n]).value, s) {
        var n :| 0 <= n < |frags| && MatchesPrefix(Compile(frags[n]).value, s);
        if n > 0 { assert frags[n] == frags[1..][n - 1]; }
      }
      if exists n :: 0 <= n < |frags[1..]| && MatchesPrefix(Compile(frags[1..][n]).value, s) {
        var n :| 0 <= n < |frags[1..]| && MatchesPrefix(Compile(frags[1..][n]).value, s);
        assert frags[1..][n] == frags[n + 1];
      }
    }
  }

  /** `re.compile('|'.join(fragments))` compiles exactly when every
      fragment does, and then matches a text exactly when some fragment
      matches a prefix of it. */
  lemma {:induction false} JoinedMatch(frags: seq<string>, s: string)
    requires frags != []
    ensures Compile(Join(frags, '|')).Some? <==> forall n :: 0 <= n < |frags| ==> Compile(frags[n]).Some?
    ensures Compile(Join(frags, '|')).Some? ==>
              (Match(Compile(Join(frags, '|')).value, s)
               <==> exists n :: 0 <= n < |frags| && Match(Compile(frags[n]).value, s))
  {
    SplitJoinEach(frags);
    CompileSplitEach(frags);
    AllCompile(frags);
    if CompileEach(frags).Some? {
      CompileEachMatches(frags, s);
    }
  }

  lemma {:induction false} AllCompile(frags: seq<string>)
    ensures CompileEach(frags).Some? <==> forall n :: 0 <= n < |frags| ==> Compile(frags[n]).Some?
  {
    if frags != [] {
      AllCompile(frags[1..]);
      if forall n :: 0 <= n < |frags[1..]| ==> Compile(frags[1..][n]).Some? {
        assert forall n :: 1 <= n < |frags| ==> Compile(frags[n]).Some? by {
          forall n | 1 <= n < |frags| ensures Compile(frags[n]).Some? {
            assert frags[n] == frags[1..][n - 1];
          }
        }
      } else {
        var n :| 0 <= n < |frags[1..]| && !Compile(frags[1..][n]).Some?;
        assert frags[1..][n] == frags[n + 1];
      }
    }
  }

  /** `'|'.join([])` is the empty pattern, which matches every text. */
  lemma EmptyJoinMatchesAll(s: string)
    ensures Compile(Join([], '|')) == Some([[]])
    ensures Match(Compile(Join([], '|')).value, s)
  {
    assert Join([], '|') == [];
    SplitNone([], '|');
    var parts: seq<string> := [[]];
    assert CompileBranch(parts[0]) == Some([]);
    assert parts[1..] == [];
    assert CompileAll(parts[1..]) == Some([]);
    var empty: Branch := [];
    assert [empty] + [] == [empty];
    assert CompileAll(parts) == Some([empty]);
    assert BranchMatches([], s, 0, 0);
    assert MatchesAt([], s, 0);
  }
}
