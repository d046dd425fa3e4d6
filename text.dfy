/** Strings and bytes as the proxy's Python code handles them: `str.split`
    with a one-character separator, `str.join`, `str.strip()`, ASCII case
    folding, ISO-8859-1 decoding and encoding, and decimal numerals. */
module Text {

  newtype byte = x: int | 0 <= x < 256

  type Bytes = seq<byte>

  datatype Option<+T> = None | Some(value: T)

  /** A value, or the exception the Python code raises instead. */
  datatype Result<+T, +E> = Ok(value: T) | Err(error: E)

  /** The bytes of an ASCII string literal. */
  function Ascii(s: string): (b: Bytes)
    requires forall i :: 0 <= i < |s| ==> s[i] as int < 128
    ensures |b| == |s|
    ensures forall i :: 0 <= i < |s| ==> b[i] as int == s[i] as int
  {
    if s == [] then [] else [s[0] as int as byte] + Ascii(s[1..])
  }

  /** Index of the first occurrence of `x` in `s`, or `|s|` when there is none. */
  function IndexOf(s: string, x: char): (i: nat)
    ensures i <= |s|
    ensures i < |s| ==> s[i] == x
    ensures forall j :: 0 <= j < i ==> s[j] != x
  {
    if s == [] then 0 else if s[0] == x then 0 else 1 + IndexOf(s[1..], x)
  }

  /** Index of the first character of `s` that belongs to `cs`, or `|s|`. */
  function FirstOfAny(s: string, cs: set<char>): (i: nat)
    ensures i <= |s|
    ensures i < |s| ==> s[i] in cs
    ensures forall j :: 0 <= j < i ==> s[j] !in cs
  {
    if s == [] then 0 else if s[0] in cs then 0 else 1 + FirstOfAny(s[1..], cs)
  }

  /** Python's `s.partition(c)[0]`: the text before the first `c`, or all of `s`. */
  function Before(s: string, c: char): (r: string)
    ensures c !in r
    ensures c !in s ==> r == s
  {
    s[..IndexOf(s, c)]
  }

  /** Python's `s.partition(c)[2]`: the text after the first `c`, or nothing. */
  function After(s: string, c: char): (r: string)
    ensures c !in s ==> r == []
  {
    var i := IndexOf(s, c);
    if i < |s| then s[i + 1..] else []
  }

  /** Index just past the last occurrence of `x` in `s`, or 0 when there is none. */
  function AfterLast(s: string, x: char): (i: nat)
    ensures i <= |s|
    ensures i > 0 ==> s[i - 1] == x
    ensures forall j :: i <= j < |s| ==> s[j] != x
  {
    if s == [] then 0
    else if s[|s| - 1] == x then |s|
    else AfterLast(s[..|s| - 1], x)
  }

  /** Python's `s.split(sep)` for a one-character separator: every occurrence
      of `sep` separates two fields, so adjacent separators give empty fields
      and the empty string gives one empty field. */
  function Split(s: string, sep: char): (parts: seq<string>)
    ensures |parts| >= 1
    ensures forall k :: 0 <= k < |parts| ==> sep !in parts[k]
    decreases |s|
  {
    var i := IndexOf(s, sep);
    if i == |s| then [s] else [s[..i]] + Split(s[i + 1..], sep)
  }

  lemma SplitAt(s: string, sep: char)
    requires IndexOf(s, sep) < |s|
    ensures Split(s, sep) == [s[..IndexOf(s, sep)]] + Split(s[IndexOf(s, sep) + 1..], sep)
  {
  }

  lemma SeparatorAt(s: string, sep: char)
    requires IndexOf(s, sep) < |s|
    ensures var i := IndexOf(s, sep); s == s[..i] + [sep] + s[i + 1..]
  {
    var i := IndexOf(s, sep);
    var t := s[..i] + [sep] + s[i + 1..];
    assert |t| == |s|;
    forall k | 0 <= k < |s|
      ensures t[k] == s[k]
    {
      if k < i {
        assert t[k] == s[..i][k];
      } else if k > i {
        assert t[k] == s[i + 1..][k - i - 1];
      }
    }
  }

  /** The first field of a split with several fields, the separator after it,
      and the rest of the string, whose split gives the remaining fields. */
  lemma SplitHead(s: string, sep: char) returns (rest: string)
    requires |Split(s, sep)| >= 2
    ensures s == Split(s, sep)[0] + [sep] + rest
    ensures Split(s, sep)[1..] == Split(rest, sep)
  {
    var i := IndexOf(s, sep);
    assert i < |s|;
    SplitAt(s, sep);
    SeparatorAt(s, sep);
    rest := s[i + 1..];
    assert Split(s, sep)[0] == s[..i];
    assert Split(s, sep)[1..] == Split(rest, sep);
  }

  /** Python's `sep.join(parts)` for a one-character separator. */
  function Join(parts: seq<string>, sep: char): string
  {
    if parts == [] then []
    else if |parts| == 1 then parts[0]
    else parts[0] + [sep] + Join(parts[1..], sep)
  }

  /** `b''.join(parts)`: plain concatenation. */
  function Concat<T>(parts: seq<seq<T>>): seq<T>
  {
    if parts == [] then [] else parts[0] + Concat(parts[1..])
  }

  /** Number of occurrences of `x` in `s`. */
  function Count(s: string, x: char): nat
  {
    if s == [] then 0 else (if s[0] == x then 1 else 0) + Count(s[1..], x)
  }

  lemma {:induction false} JoinSplit(s: string, sep: char)
    ensures Join(Split(s, sep), sep) == s
    decreases |s|
  {
    var i := IndexOf(s, sep);
    if i < |s| {
      var rest := s[i + 1..];
      JoinSplit(rest, sep);
      assert s == s[..i] + [sep] + rest;
    }
  }

  lemma IndexOfPrefix(a: string, b: string, x: char)
    requires x !in a
    ensures IndexOf(a + b, x) == |a| + IndexOf(b, x)
  {
    assert forall j :: 0 <= j < |a| ==> (a + b)[j] == a[j];
    var k := IndexOf(b, x);
    if k < |b| {
      assert (a + b)[|a| + k] == x;
    }
    assert forall j :: 0 <= j < k ==> (a + b)[|a| + j] == b[j];
  }

  lemma IndexOfCons(a: string, x: char, b: string)
    requires x !in a
    ensures IndexOf(a + [x] + b, x) == |a|
  {
    IndexOfPrefix(a, [x] + b, x);
    assert a + [x] + b == a + ([x] + b);
  }

  lemma PartitionCons(a: string, x: char, b: string)
    requires x !in a
    ensures Before(a + [x] + b, x) == a
    ensures After(a + [x] + b, x) == b
  {
    var s := a + [x] + b;
    IndexOfCons(a, x, b);
    assert s[..|a|] == a;
    assert s[|a| + 1..] == b;
  }

  lemma FirstOfAnyPrefix(a: string, b: string, cs: set<char>)
    requires forall j :: 0 <= j < |a| ==> a[j] !in cs
    ensures FirstOfAny(a + b, cs) == |a| + FirstOfAny(b, cs)
  {
    assert forall j :: 0 <= j < |a| ==> (a + b)[j] == a[j];
    var k := FirstOfAny(b, cs);
    if k < |b| {
      assert (a + b)[|a| + k] == b[k];
    }
    assert forall j :: 0 <= j < k ==> (a + b)[|a| + j] == b[j];
  }

  lemma SplitNone(s: string, sep: char)
    requires sep !in s
    ensures Split(s, sep) == [s]
  {
    assert IndexOf(s, sep) == |s|;
  }

  /** A field without the separator, then the separator, then the rest. */
  lemma SplitCons(a: string, sep: char, b: string)
    requires sep !in a
    ensures Split(a + [sep] + b, sep) == [a] + Split(b, sep)
  {
    var s := a + [sep] + b;
    IndexOfPrefix(a, [sep] + b, sep);
    assert s == a + ([sep] + b);
    assert IndexOf(s, sep) == |a|;
    SplitAt(s, sep);
    assert s[..|a|] == a;
    assert s[|a| + 1..] == b;
  }

  lemma AppendNil<T>(s: seq<T>)
    ensures s + [] == s
  {
  }

  /** Two non-empty sequences of one length are equal exactly when their
      first elements and their tails are. */
  lemma HeadTailEq<T>(a: seq<T>, b: seq<T>)
    requires |a| == |b| > 0
    ensures a == b <==> a[0] == b[0] && a[1..] == b[1..]
  {
    if a[0] == b[0] && a[1..] == b[1..] {
      assert a == [a[0]] + a[1..];
      assert b == [b[0]] + b[1..];
    }
  }

  /** A suffix starting at `i` is its first element followed by the rest. */
  lemma SliceCons<T>(s: seq<T>, i: nat)
    requires i < |s|
    ensures s[i..] == [s[i]] + s[i + 1..]
  {
  }

  /** Regrouping a concatenation; stated once so that proofs need not
      compare sequences element by element. */
  lemma AppendAssoc<T>(x: seq<T>, y: seq<T>, z: seq<T>)
    ensures x + (y + z) == x + y + z
  {
  }

  /** Splitting at a separator placed between two texts splits each. */
  lemma {:induction false} SplitAppendSep(a: string, sep: char, b: string)
    ensures Split(a + [sep] + b, sep) == Split(a, sep) + Split(b, sep)
    decreases |a|
  {
    if sep !in a {
      SplitCons(a, sep, b);
      SplitNone(a, sep);
    } else {
      assert IndexOf(a, sep) < |a| by {
        var k :| 0 <= k < |a| && a[k] == sep;
      }
      SplitAt(a, sep);
      var rest := SplitHead(a, sep);
      var a0 := Split(a, sep)[0];
      assert Split(a, sep) == [a0] + Split(rest, sep);
      assert Split(a + [sep] + b, sep) == [a0] + Split(rest + [sep] + b, sep) by {
        assert sep !in a0;
        assert a + [sep] + b == a0 + [sep] + (rest + [sep] + b);
        SplitCons(a0, sep, rest + [sep] + b);
      }
      assert Split(rest + [sep] + b, sep) == Split(rest, sep) + Split(b, sep) by {
        SplitAppendSep(rest, sep, b);
      }
      AppendAssoc([a0], Split(rest, sep), Split(b, sep));
    }
  }

  lemma {:induction false} SplitJoin(parts: seq<string>, sep: char)
    requires |parts| >= 1
    requires forall k :: 0 <= k < |parts| ==> sep !in parts[k]
    ensures Split(Join(parts, sep), sep) == parts
    decreases |parts|
  {
    if |parts| > 1 {
      SplitJoin(parts[1..], sep);
      SplitCons(parts[0], sep, Join(parts[1..], sep));
    } else {
      SplitNone(parts[0], sep);
    }
  }

  lemma {:induction false} SplitCount(s: string, sep: char)
    ensures |Split(s, sep)| == Count(s, sep) + 1
    decreases |s|
  {
    var i := IndexOf(s, sep);
    CountNone(s[..i], sep);
    CountAppend(s[..i], s[i..], sep);
    assert s[..i] + s[i..] == s;
    if i < |s| {
      SplitCount(s[i + 1..], sep);
      assert s[i..] == [sep] + s[i + 1..];
      assert Count(s[i..], sep) == 1 + Count(s[i + 1..], sep);
    } else {
      assert s[i..] == [];
    }
  }

  lemma {:induction false} CountNone(s: string, x: char)
    requires forall j :: 0 <= j < |s| ==> s[j] != x
    ensures Count(s, x) == 0
  {
    if s != [] {
      CountNone(s[1..], x);
    }
  }

  lemma {:induction false} CountAppend(a: string, b: string, x: char)
    ensures Count(a + b, x) == Count(a, x) + Count(b, x)
  {
    if a == [] {
      assert a + b == b;
    } else {
      assert (a + b)[1..] == a[1..] + b;
      CountAppend(a[1..], b, x);
    }
  }

  lemma {:induction false} ConcatAppend<T>(parts: seq<seq<T>>, last: seq<T>)
    ensures Concat(parts + [last]) == Concat(parts) + last
  {
    if parts == [] {
      assert [] + [last] == [last];
    } else {
      assert (parts + [last])[1..] == parts[1..] + [last];
      ConcatAppend(parts[1..], last);
    }
  }

  // ---------------------------------------------------------------------
  // str.strip()

  /** The characters Python's `str.isspace()` accepts, which `str.strip()`
      with no argument removes. */
  predicate IsPySpace(c: char)
  {
    c == ' ' || c == '\t' || c == '\n' || c == '\r'
    || c == '\U{000B}' || c == '\U{000C}'
    || ('\U{001C}' <= c <= '\U{001F}')
    || c == '\U{0085}' || c == '\U{00A0}' || c == '\U{1680}'
    || ('\U{2000}' <= c <= '\U{200A}')
    || c == '\U{2028}' || c == '\U{2029}' || c == '\U{202F}'
    || c == '\U{205F}' || c == '\U{3000}'
  }

  function LeadingSpace(s: string): (n: nat)
    ensures n <= |s|
    ensures forall j :: 0 <= j < n ==> IsPySpace(s[j])
    ensures n < |s| ==> !IsPySpace(s[n])
  {
    if s == [] || !IsPySpace(s[0]) then 0 else 1 + LeadingSpace(s[1..])
  }

  function TrailingSpace(s: string): (n: nat)
    ensures n <= |s|
    ensures forall j :: |s| - n <= j < |s| ==> IsPySpace(s[j])
    ensures n < |s| ==> !IsPySpace(s[|s| - n - 1])
  {
    if s == [] || !IsPySpace(s[|s| - 1]) then 0 else 1 + TrailingSpace(s[..|s| - 1])
  }

  /** `r` is `s[i..j]`, and everything of `s` outside that infix is whitespace. */
  ghost predicate TrimmedInfix(s: string, r: string, i: nat, j: nat)
  {
    i <= j <= |s| && r == s[i..j]
    && (forall k :: 0 <= k < i ==> IsPySpace(s[k]))
    && (forall k :: j <= k < |s| ==> IsPySpace(s[k]))
  }

  /** Python's `s.strip()`: the infix of `s` that neither starts nor ends with
      whitespace, obtained by removing only whitespace. */
  function Strip(s: string): (r: string)
    ensures r == [] || (!IsPySpace(r[0]) && !IsPySpace(r[|r| - 1]))
    ensures TrimmedInfix(s, r, LeadingSpace(s), LeadingSpace(s) + |r|)
  {
    var i := LeadingSpace(s);
    var j := |s| - TrailingSpace(s[i..]);
    assert s[i..][..j - i] == s[i..j];
    s[i..j]
  }

  // ---------------------------------------------------------------------
  // Case folding

  function LowerChar(c: char): char
  {
    if 'A' <= c <= 'Z' then (c as int + 32) as char else c
  }

  /** `str.lower()` restricted to ASCII letters. */
  function Lower(s: string): (r: string)
    ensures |r| == |s|
  {
    if s == [] then [] else [LowerChar(s[0])] + Lower(s[1..])
  }

  // ---------------------------------------------------------------------
  // ISO-8859-1

  /** `b.decode('iso-8859-1')`: each byte becomes the character with that code. */
  function Latin1Decode(b: Bytes): (s: string)
    ensures |s| == |b|
    ensures forall i :: 0 <= i < |b| ==> s[i] as int == b[i] as int
  {
    seq(|b|, i requires 0 <= i < |b| => b[i] as int as char)
  }

  predicate IsLatin1(s: string)
  {
    forall i :: 0 <= i < |s| ==> s[i] as int < 256
  }

  /** `s.encode('iso-8859-1')`, which raises for a character above U+00FF. */
  function Latin1Encode(s: string): (r: Option<Bytes>)
    ensures r.Some? <==> IsLatin1(s)
    ensures r.Some? ==> |r.value| == |s|
                        && forall i :: 0 <= i < |s| ==> r.value[i] as int == s[i] as int
  {
    if IsLatin1(s) then Some(seq(|s|, i requires 0 <= i < |s| && IsLatin1(s) => s[i] as int as byte))
    else None
  }

  /** Decoding ISO-8859-1 is total and lossless: encoding gives the bytes back. */
  lemma Latin1RoundTrip(b: Bytes)
    ensures Latin1Encode(Latin1Decode(b)) == Some(b)
  {
    var s := Latin1Decode(b);
    assert IsLatin1(s);
    assert Latin1Encode(s).value == b;
  }

  lemma Latin1EncodeAppend(a: string, b: string)
    requires IsLatin1(a) && IsLatin1(b)
    ensures Latin1Encode(a + b) == Some(Latin1Encode(a).value + Latin1Encode(b).value)
  {
    assert IsLatin1(a + b);
    assert Latin1Encode(a + b).value == Latin1Encode(a).value + Latin1Encode(b).value;
  }

  // ---------------------------------------------------------------------
  // Decimal numerals

  predicate IsDigit(c: char)
  {
    '0' <= c <= '9'
  }

  predicate AllDigits(s: string)
  {
    forall i :: 0 <= i < |s| ==> IsDigit(s[i])
  }

  /** Value of a string of ASCII digits (leading zeros allowed). */
  function DigitsValue(s: string): nat
    requires AllDigits(s)
  {
    if s == [] then 0 else DigitsValue(s[..|s| - 1]) * 10 + (s[|s| - 1] as int - '0' as int)
  }

  /** `str(n)`: the decimal numeral of `n`, without leading zeros. */
  function ShowNat(n: nat): (s: string)
    ensures |s| >= 1 && AllDigits(s)
    ensures |s| > 1 ==> s[0] != '0'
  {
    var d := ((n % 10) + '0' as int) as char;
    if n < 10 then [d] else ShowNat(n / 10) + [d]
  }

  /** Numbers below 1000 have at most three digits. */
  lemma ShowNatShort(n: nat)
    requires n < 1000
    ensures |ShowNat(n)| <= 3
  {
    if n >= 10 {
      assert |ShowNat(n / 10)| <= 2 by {
        if n / 10 >= 10 {
          assert |ShowNat(n / 100)| == 1;
        }
      }
    }
  }

  lemma {:induction false} ShowNatValue(n: nat)
    ensures DigitsValue(ShowNat(n)) == n
  {
    var s := ShowNat(n);
    if n >= 10 {
      ShowNatValue(n / 10);
      assert s[..|s| - 1] == ShowNat(n / 10);
    }
  }

  /** Text without surrounding whitespace is its own `strip()`. */
  lemma StripUnspaced(s: string)
    requires s == [] || (!IsPySpace(s[0]) && !IsPySpace(s[|s| - 1]))
    ensures Strip(s) == s
  {
    var r := Strip(s);
    if s != [] {
      assert LeadingSpace(s) == 0;
      assert |r| == |s|;
      assert s[0..|s|] == s;
    }
  }

  /** `strip()` is idempotent. */
  lemma StripIdempotent(s: string)
    ensures Strip(Strip(s)) == Strip(s)
  {
    StripUnspaced(Strip(s));
  }

  // ---------------------------------------------------------------------
  // int()

  /** ASCII digits with single underscores between them, the numerals
      `int()` accepts since Python 3.6. */
  predicate IsNumeral(s: string)
  {
    s != [] && IsDigit(s[0]) && IsDigit(s[|s| - 1])
    && (forall i :: 0 <= i < |s| ==> IsDigit(s[i]) || s[i] == '_')
    && (forall i :: 0 <= i < |s| - 1 && s[i] == '_' ==> s[i + 1] != '_')
  }

  /** The digits of a numeral, its underscores dropped. */
  function DropUnderscores(s: string): (r: string)
    ensures (forall i :: 0 <= i < |s| ==> IsDigit(s[i]) || s[i] == '_') ==> AllDigits(r)
    ensures AllDigits(s) ==> r == s
  {
    if s == [] then []
    else
      assert forall i :: 0 <= i < |s[1..]| ==> s[1..][i] == s[i + 1];
      (if s[0] == '_' then [] else [s[0]]) + DropUnderscores(s[1..])
  }

  /** `int(text)` with base 10: surrounding whitespace is stripped, then an
      optional sign and a numeral; None where Python raises ValueError. */
  function ParseInt(text: string): (r: Option<int>)
    ensures r.Some? ==> Strip(text) != []
  {
    ParseSigned(Strip(text))
  }

  /** An optional sign, then a numeral. */
  function ParseSigned(s: string): Option<int>
  {
    if s != [] && (s[0] == '+' || s[0] == '-') then
      match ParseNumeral(s[1..])
      case None => None
      case Some(v) => Some(if s[0] == '-' then -v else v)
    else ParseNumeral(s)
  }

  /** A numeral's value, or None for anything else. */
  function ParseNumeral(s: string): Option<int>
  {
    if IsNumeral(s) then Some(DigitsValue(DropUnderscores(s))) else None
  }

  /** Plain digits form a numeral whose value is theirs. */
  lemma NumeralDigits(s: string)
    requires s != [] && AllDigits(s)
    ensures ParseNumeral(s) == Some(DigitsValue(s))
  {
    assert IsNumeral(s);
  }

  /** Plain digits read as their value, leading zeros included. */
  lemma ParseIntDigits(s: string)
    requires s != [] && AllDigits(s)
    ensures ParseInt(s) == Some(DigitsValue(s))
  {
    StripUnspaced(s);
    NumeralDigits(s);
  }

  lemma DigitNotSpace(c: char)
    requires IsDigit(c)
    ensures !IsPySpace(c)
  {
  }

  /** A sign before a numeral negates it or leaves it. */
  lemma SignedNumeral(t: string, v: int)
    requires t != [] && (t[0] == '+' || t[0] == '-') && ParseNumeral(t[1..]) == Some(v)
    ensures ParseSigned(t) == Some(if t[0] == '-' then -v else v)
  {
  }

  /** A sign followed by plain digits. */
  lemma SignedDigits(t: string)
    requires |t| >= 2 && (t[0] == '+' || t[0] == '-') && AllDigits(t[1..])
    ensures ParseInt(t) == Some(if t[0] == '-' then -(DigitsValue(t[1..]) as int) else DigitsValue(t[1..]))
  {
    NumeralDigits(t[1..]);
    SignedNumeral(t, DigitsValue(t[1..]));
    assert t[|t| - 1] == t[1..][|t| - 2];
    DigitNotSpace(t[|t| - 1]);
    StripUnspaced(t);
  }

  /** `int()` reads `+` and `-` before the digits. */
  lemma ParseIntSigned(s: string)
    requires s != [] && AllDigits(s)
    ensures ParseInt("+" + s) == Some(DigitsValue(s))
    ensures ParseInt("-" + s).Some? && ParseInt("-" + s).value == -(DigitsValue(s) as int)
  {
    var plus := "+" + s;
    assert plus[0] == '+' && plus[1..] == s;
    SignedDigits(plus);
    var minus := "-" + s;
    assert minus[0] == '-' && minus[1..] == s;
    SignedDigits(minus);
  }

  /** `int()` ignores the whitespace around the number. */
  lemma ParseIntStrip(text: string)
    ensures ParseInt(Strip(text)) == ParseInt(text)
  {
    StripIdempotent(text);
  }

  lemma {:induction false} DropUnderscoresAppend(a: string, b: string)
    ensures DropUnderscores(a + b) == DropUnderscores(a) + DropUnderscores(b)
    decreases |a|
  {
    if a == [] {
      assert a + b == b;
    } else {
      assert (a + b)[1..] == a[1..] + b;
      DropUnderscoresAppend(a[1..], b);
      var h: string := if a[0] == '_' then [] else [a[0]];
      AppendAssoc(h, DropUnderscores(a[1..]), DropUnderscores(b));
    }
  }

  /** Two groups of digits joined by one underscore form a numeral. */
  lemma UnderscoreIsNumeral(a: string, b: string)
    requires a != [] && b != [] && AllDigits(a) && AllDigits(b)
    ensures IsNumeral(a + "_" + b)
  {
    var s := a + "_" + b;
    forall i | 0 <= i < |s|
      ensures IsDigit(s[i]) || s[i] == '_'
      ensures s[i] == '_' ==> i == |a|
    {
      if i < |a| { assert s[i] == a[i]; } else if i > |a| { assert s[i] == b[i - |a| - 1]; }
    }
    assert s[0] == a[0] && s[|s| - 1] == b[|b| - 1] && s[|a| + 1] == b[0];
  }

  /** Dropping the underscore between two groups of digits joins them. */
  lemma UnderscoreDropped(a: string, b: string)
    requires AllDigits(a) && AllDigits(b)
    ensures DropUnderscores(a + "_" + b) == a + b
  {
    DropUnderscoresAppend(a + "_", b);
    DropUnderscoresAppend(a, "_");
    assert DropUnderscores("_") == [];
    assert a + [] == a;
  }

  /** Two groups of digits joined by one underscore form a numeral of the
      digits of both. */
  lemma UnderscoreNumeral(a: string, b: string)
    requires a != [] && b != [] && AllDigits(a) && AllDigits(b)
    ensures ParseNumeral(a + "_" + b) == Some(DigitsValue(a + b))
  {
    UnderscoreIsNumeral(a, b);
    UnderscoreDropped(a, b);
  }

  /** A single underscore between two groups of digits changes nothing. */
  lemma ParseIntUnderscore(a: string, b: string)
    requires a != [] && b != [] && AllDigits(a) && AllDigits(b)
    ensures ParseInt(a + "_" + b) == Some(DigitsValue(a + b))
  {
    var s := a + "_" + b;
    assert s[0] == a[0] && s[|s| - 1] == b[|b| - 1];
    StripUnspaced(s);
    UnderscoreNumeral(a, b);
  }

  /** Two underscores in a row are a ValueError. */
  lemma DoubleUnderscoreRejected(a: string, b: string)
    requires a != [] && b != [] && AllDigits(a) && AllDigits(b)
    ensures ParseInt(a + "__" + b) == None
  {
    var s := a + "__" + b;
    StripUnspaced(s);
    assert s[0] == a[0] && s[|a|] == '_' && s[|a| + 1] == '_';
  }
}
