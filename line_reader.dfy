/**
 * `java.io.BufferedReader.readLine` over already decoded text. A line ends at '\n', at
 * '\r', or at "\r\n"; the terminator is not part of the line; at end of input it returns
 * null (None here). The reader's state is the text not yet read.
 */
module LineReader {
  import opened Wrappers

  predicate IsLineTerminator(c: char) { c == '\n' || c == '\r' }

  predicate NoTerminator(s: string) { forall i :: 0 <= i < |s| ==> !IsLineTerminator(s[i]) }

  /** Index of the first line terminator in `s`, or `|s|` when there is none. */
  function LineEnd(s: string): (k: nat)
    ensures k <= |s| && NoTerminator(s[..k])
    ensures k < |s| ==> IsLineTerminator(s[k])
  {
    if s == [] || IsLineTerminator(s[0]) then 0
    else
      var k := 1 + LineEnd(s[1..]);
      assert s[..k] == [s[0]] + s[1..][..k - 1];
      k
  }

  /** A line and the input left after it. */
  datatype ReadResult = ReadResult(line: string, rest: string)

  /** One `readLine()` call on the unread input `s`. */
  function ReadLine(s: string): (r: Option<ReadResult>)
    ensures r.None? <==> s == []
    ensures r.Some? ==> NoTerminator(r.value.line) && |r.value.rest| < |s|
    ensures r.Some? ==> r.value.line == s[..LineEnd(s)]
    ensures r.Some? && LineEnd(s) == |s| ==> r.value.rest == []
    ensures r.Some? && LineEnd(s) < |s| && s[LineEnd(s)] == '\n' ==> r.value.rest == s[LineEnd(s) + 1..]
    ensures r.Some? && LineEnd(s) + 1 < |s| && s[LineEnd(s)] == '\r' && s[LineEnd(s) + 1] == '\n'
      ==> r.value.rest == s[LineEnd(s) + 2..]
    ensures (r.Some? && LineEnd(s) < |s| && s[LineEnd(s)] == '\r'
             && !(LineEnd(s) + 1 < |s| && s[LineEnd(s) + 1] == '\n')) ==> r.value.rest == s[LineEnd(s) + 1..]
  {
    if s == [] then None
    else
      var k := LineEnd(s);
      var skip := if k == |s| then 0
                  else if s[k] == '\r' && k + 1 < |s| && s[k + 1] == '\n' then 2
                  else 1;
      Some(ReadResult(s[..k], s[k + skip..]))
  }

  /** Every line `readLine` returns before it returns null. */
  function ReadLines(s: string): (lines: seq<string>)
    ensures lines == [] <==> s == []
    ensures |lines| <= |s|
    decreases |s|
  {
    match ReadLine(s)
    case None => []
    case Some(r) => [r.line] + ReadLines(r.rest)
  }

  /** `s` with every '\r' and '\n' removed. */
  function Strip(s: string): (t: string)
    ensures NoTerminator(t) && |t| <= |s|
  {
    if s == [] then []
    else (if IsLineTerminator(s[0]) then [] else [s[0]]) + Strip(s[1..])
  }

  /** All the lines, one after another. */
  function Concat(lines: seq<string>): string
  {
    if lines == [] then [] else lines[0] + Concat(lines[1..])
  }

  /** Each line followed by "\n", as the key import writes the key file. */
  function JoinTerminated(lines: seq<string>): string
  {
    if lines == [] then [] else lines[0] + "\n" + JoinTerminated(lines[1..])
  }

  lemma {:induction false} StripNoTerminator(s: string)
    requires NoTerminator(s)
    ensures Strip(s) == s
  {
    if s != [] {
      StripNoTerminator(s[1..]);
    }
  }

  lemma {:induction false} StripAppend(a: string, b: string)
    ensures Strip(a + b) == Strip(a) + Strip(b)
  {
    if a == [] {
      assert a + b == b;
    } else {
      assert (a + b)[1..] == a[1..] + b;
      StripAppend(a[1..], b);
    }
  }

  lemma StripFreePrefix(s: string, k: nat)
    requires k <= |s| && NoTerminator(s[..k])
    ensures Strip(s) == s[..k] + Strip(s[k..])
  {
    assert s == s[..k] + s[k..];
    StripAppend(s[..k], s[k..]);
    StripNoTerminator(s[..k]);
  }

  /** A run of terminators from `k` to `n` contributes nothing. */
  lemma {:induction false} StripTerminatorRun(s: string, k: nat, n: nat)
    requires k <= n <= |s| && forall j :: k <= j < n ==> IsLineTerminator(s[j])
    ensures Strip(s[k..]) == Strip(s[n..])
    decreases n - k
  {
    if k < n {
      assert s[k..][0] == s[k] && s[k..][1..] == s[k + 1..];
      StripTerminatorRun(s, k + 1, n);
    }
  }

  /** Cutting `s` after a terminator-free part and a run of terminators. */
  lemma StripSplit(s: string, k: nat, n: nat)
    requires k <= n <= |s| && NoTerminator(s[..k])
    requires forall j :: k <= j < n ==> IsLineTerminator(s[j])
    ensures Strip(s) == s[..k] + Strip(s[n..])
  {
    StripFreePrefix(s, k);
    StripTerminatorRun(s, k, n);
  }

  /** One `readLine` consumes exactly the line and its terminator. */
  lemma ReadLineStrip(s: string)
    requires s != []
    ensures Strip(s) == ReadLine(s).value.line + Strip(ReadLine(s).value.rest)
  {
    var r := ReadLine(s).value;
    var k := LineEnd(s);
    var n := |s| - |r.rest|;
    assert r.line == s[..k] && r.rest == s[n..];
    StripSplit(s, k, n);
  }

  /**
   * The text the paste handler rebuilds by appending every line `readLine` returns is the
   * body with its line terminators removed.
   */
  lemma {:induction false} ConcatReadLines(s: string)
    ensures Concat(ReadLines(s)) == Strip(s)
    decreases |s|
  {
    if s != [] {
      var r := ReadLine(s).value;
      ReadLineStrip(s);
      ConcatReadLines(r.rest);
      assert ReadLines(s)[1..] == ReadLines(r.rest);
    }
  }

  /** A body without line terminators is passed through unchanged. */
  lemma ConcatReadLinesNoTerminator(s: string)
    requires NoTerminator(s)
    ensures Concat(ReadLines(s)) == s
  {
    ConcatReadLines(s);
    StripNoTerminator(s);
  }

  /** Reading a line that is followed by "\n" returns that line and leaves what follows. */
  lemma ReadTerminatedLine(line: string, rest: string)
    requires NoTerminator(line)
    ensures ReadLine(line + "\n" + rest) == Some(ReadResult(line, rest))
  {
    var s := line + "\n" + rest;
    var k := LineEnd(s);
    assert s[|line|] == '\n';
    assert forall j :: 0 <= j < |line| ==> s[j] == line[j];
    assert s[..k] == line;
    assert s[k + 1..] == rest;
  }

  /**
   * Written with a "\n" after each line, lines without terminators read back as the same
   * lines.
   */
  lemma {:induction false} ReadLinesJoinTerminated(lines: seq<string>)
    requires forall i :: 0 <= i < |lines| ==> NoTerminator(lines[i])
    ensures ReadLines(JoinTerminated(lines)) == lines
  {
    if lines != [] {
      ReadTerminatedLine(lines[0], JoinTerminated(lines[1..]));
      ReadLinesJoinTerminated(lines[1..]);
    }
  }

  /** Every line `readLine` returns is free of terminators. */
  lemma {:induction false} ReadLinesHaveNoTerminator(s: string)
    ensures forall i :: 0 <= i < |ReadLines(s)| ==> NoTerminator(ReadLines(s)[i])
    decreases |s|
  {
    if s != [] {
      ReadLinesHaveNoTerminator(ReadLine(s).value.rest);
    }
  }

  /** Appending one more line to a line-terminated text. */
  lemma {:induction false} JoinTerminatedAppend(lines: seq<string>, line: string)
    ensures JoinTerminated(lines + [line]) == JoinTerminated(lines) + line + "\n"
    decreases |lines|
  {
    if lines == [] {
      assert lines + [line] == [line];
      assert JoinTerminated([line]) == line + "\n" + JoinTerminated([]);
    } else {
      assert (lines + [line])[1..] == lines[1..] + [line];
      JoinTerminatedAppend(lines[1..], line);
    }
  }
}
