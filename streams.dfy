/** The asyncio stream objects the proxy talks through, reduced to their
    bytes: a reader holding everything the client sends (end of file after
    the last byte) and a writer, or transport, that records every byte
    handed to it and whether it was closed. */
module Streams {
  import opened Text

  const LF: byte := 10
  const CR: byte := 13

  /** Length of the line `readline()` returns from `s`: up to and including
      the first LF, or all of `s` when there is none. */
  function LineLength(s: Bytes): (n: nat)
    ensures n <= |s|
    ensures s != [] ==> n >= 1
    ensures forall j :: 0 <= j < n - 1 ==> s[j] != LF
    ensures n < |s| ==> n > 0 && s[n - 1] == LF
  {
    if s == [] then 0 else if s[0] == LF then 1 else 1 + LineLength(s[1..])
  }

  /** The `limit` of the readers `asyncio.start_server` creates: 2 ** 16. */
  const ReadLimit: nat := 65536

  /** The two `LimitOverrunError`s that `readline()` turns into ValueError. */
  datatype ReadError = SeparatorBeyondLimit | NoSeparatorWithinLimit

  /** What `readline()` makes of `s` when all of `s` is buffered: the line
      up to and including the first LF, or all of `s` when there is none;
      ValueError when the LF lies more than `ReadLimit` bytes in, or when
      there is no LF and more than `ReadLimit` bytes are left. Either way
      the line is consumed. */
  function ReadLineOf(s: Bytes): (r: Result<Bytes, ReadError>)
    ensures r.Ok? ==> r.value == s[..LineLength(s)] && |r.value| <= ReadLimit + 1
    ensures LineLength(s) <= ReadLimit ==> r.Ok?
    ensures LineLength(s) > ReadLimit + 1 ==> r.Err?
    ensures r.Err? ==> (r.error == SeparatorBeyondLimit <==> LF in s)
  {
    var n := LineLength(s);
    if n > 0 && s[n - 1] == LF then
      if n - 1 > ReadLimit then Err(SeparatorBeyondLimit) else Ok(s[..n])
    else
      if n > ReadLimit then Err(NoSeparatorWithinLimit) else Ok(s)
  }

  /** A complete line: it ends with its only LF. */
  predicate IsFullLine(line: Bytes)
  {
    line != [] && line[|line| - 1] == LF && forall j :: 0 <= j < |line| - 1 ==> line[j] != LF
  }

  lemma {:induction false} LineLengthFull(line: Bytes, rest: Bytes)
    requires IsFullLine(line)
    ensures LineLength(line + rest) == |line|
    decreases |line|
  {
    var s := line + rest;
    assert s[0] == line[0];
    if |line| > 1 {
      assert s[1..] == line[1..] + rest;
      LineLengthFull(line[1..], rest);
    }
  }

  /** A complete line whose LF lies within the limit is returned as it is,
      whatever follows it. */
  lemma ReadLineFull(line: Bytes, rest: Bytes)
    requires IsFullLine(line) && |line| <= ReadLimit + 1
    ensures ReadLineOf(line + rest) == Ok(line)
  {
    LineLengthFull(line, rest);
    assert (line + rest)[..|line|] == line;
  }

  class StreamReader {
    /** Everything the client sends; the end of file follows it. */
    var data: Bytes
    /** How much of `data` has been consumed. */
    var pos: nat

    ghost predicate Valid()
      reads this
    {
      pos <= |data|
    }

    /** What is still to be read. */
    function Remaining(): Bytes
      reads this
      requires Valid()
    {
      data[pos..]
    }

    constructor(data: Bytes)
      ensures Valid() && this.data == data && pos == 0
    {
      this.data := data;
      pos := 0;
    }

    /** `at_eof()`: the buffer is empty and the end of file was fed. */
    function AtEof(): (r: bool)
      reads this
      requires Valid()
      ensures r <==> Remaining() == []
    {
      pos == |data|
    }

    /** `readline()`: the next line with its LF, or what is left before the
        end of file, which is empty at the end of file; ValueError for a
        line beyond the limit, which is consumed all the same. */
    method ReadLine() returns (r: Result<Bytes, ReadError>)
      requires Valid()
      modifies this
      ensures Valid() && data == old(data)
      ensures r == ReadLineOf(old(Remaining()))
      ensures Remaining() == old(Remaining())[LineLength(old(Remaining()))..]
    {
      var n := LineLength(data[pos..]);
      r := ReadLineOf(data[pos..]);
      pos := pos + n;
    }

    /** `read(n)`: at most `n` bytes, empty only at the end of file. */
    method Read(n: nat) returns (chunk: Bytes)
      requires Valid() && n > 0
      modifies this
      ensures Valid() && data == old(data)
      ensures |chunk| <= n && (chunk == [] <==> old(Remaining()) == [])
      ensures old(Remaining()) == chunk + Remaining()
      ensures |chunk| == n || Remaining() == []
    {
      var k := if |data| - pos < n then |data| - pos else n;
      chunk := data[pos..pos + k];
      pos := pos + k;
      assert old(Remaining()) == chunk + Remaining();
    }
  }

  /** A `StreamWriter` or a transport: the bytes written, in order, and
      whether `close()` was called. */
  class StreamWriter {
    var log: Bytes
    var closed: bool

    constructor()
      ensures log == [] && !closed
    {
      log := [];
      closed := false;
    }

    method Write(b: Bytes)
      modifies this
      ensures log == old(log) + b && closed == old(closed)
    {
      log := log + b;
    }

    method Close()
      modifies this
      ensures log == old(log) && closed
    {
      closed := true;
    }
  }
}
