/**
  The network as seen by one query, and the line reader on top of it.

  A connection attempt to a server is an oracle answer: the dial fails, the
  write of the query line fails, or the server serves a finite stream of
  characters that then ends, cleanly or with a read error. Reading splits the
  stream at '\n' the way `bufio.Reader.ReadString('\n')` does: each read
  returns up to and including the next '\n'; at the end of the stream the
  partial text after the last '\n' comes back with an error.
 */
module Wire {

  /** How the stream ends: the peer closes it, or a read fails. */
  datatype StreamEnd = EndOfStream | ReadError

  /** What one connection attempt to a server yields. */
  datatype Conn = DialFails | WriteFails | Serves(data: string, end: StreamEnd)

  /** The oracle: server name, port and the bytes written decide the answer. */
  type Network = (string, int, string) -> Conn

  /** The query sent on the wire: the domain followed by CRLF, the request
      format of section 2 of RFC 3912. */
  function QueryLine(domain: string): (q: string)
    ensures |q| == |domain| + 2 && q[..|domain|] == domain
    ensures q[|domain|..] == "\r\n"
  {
    domain + "\r\n"
  }

  /** A complete line: it ends in '\n' and holds no other '\n'. */
  predicate IsLine(line: string) {
    |line| > 0 && line[|line| - 1] == '\n' && '\n' !in line[..|line| - 1]
  }

  /** The index of the first '\n' in `s` at or after `i`, or `|s|` when
      there is none: the scan `ReadString` performs. */
  function NewlineFrom(s: string, i: nat): (n: nat)
    requires i <= |s|
    ensures i <= n <= |s|
    ensures n < |s| ==> s[n] == '\n'
    decreases |s| - i
  {
    if i == |s| || s[i] == '\n' then i else NewlineFrom(s, i + 1)
  }

  /** The index of the first '\n' in `s`, or `|s|` when there is none. */
  function NewlineIndex(s: string): (n: nat)
    ensures n <= |s|
    ensures n < |s| ==> s[n] == '\n'
  {
    NewlineFrom(s, 0)
  }

  /** No '\n' lies between the start of the scan and its result. */
  lemma {:induction false} BeforeNewlineFrom(s: string, i: nat)
    requires i <= |s|
    ensures forall j :: i <= j < NewlineFrom(s, i) ==> s[j] != '\n'
    decreases |s| - i
  {
    if i < |s| && s[i] != '\n' {
      BeforeNewlineFrom(s, i + 1);
    }
  }

  /** No '\n' comes before the index `NewlineIndex` returns. */
  lemma BeforeNewline(s: string)
    ensures forall j :: 0 <= j < NewlineIndex(s) ==> s[j] != '\n'
  {
    BeforeNewlineFrom(s, 0);
  }

  /** The scan stops at the first '\n' at or after `i`. */
  lemma {:induction false} NewlineFromIs(s: string, i: nat, n: nat)
    requires i <= n <= |s| && (n < |s| ==> s[n] == '\n')
    requires forall j :: i <= j < n ==> s[j] != '\n'
    ensures NewlineFrom(s, i) == n
    decreases n - i
  {
    if i < n {
      NewlineFromIs(s, i + 1, n);
    }
  }

  /** `NewlineIndex` is the first '\n', or `|s|` when there is none. */
  lemma NewlineIndexIs(s: string, n: nat)
    requires n <= |s| && (n < |s| ==> s[n] == '\n')
    requires forall j :: 0 <= j < n ==> s[j] != '\n'
    ensures NewlineIndex(s) == n
  {
    NewlineFromIs(s, 0, n);
  }

  /** The complete lines of a stream, in order; the text after the last '\n'
      is not a line. */
  function Lines(s: string): (lines: seq<string>)
    decreases |s|
  {
    var n := NewlineIndex(s);
    if n == |s| then [] else [s[..n + 1]] + Lines(s[n + 1..])
  }

  /** The lines joined back together. */
  function Concat(lines: seq<string>): string {
    if lines == [] then "" else lines[0] + Concat(lines[1..])
  }

  /** Every piece `Lines` cuts is a complete line. */
  lemma {:induction false} LinesAreLines(s: string)
    ensures forall i :: 0 <= i < |Lines(s)| ==> IsLine(Lines(s)[i])
    decreases |s|
  {
    var n := NewlineIndex(s);
    if n < |s| {
      var line := s[..n + 1];
      BeforeNewline(s);
      assert line[..n] == s[..n];
      assert forall j :: 0 <= j < n ==> line[j] != '\n';
      LinesAreLines(s[n + 1..]);
    }
  }

  lemma {:induction false} ConcatAppend(a: seq<string>, b: seq<string>)
    ensures Concat(a + b) == Concat(a) + Concat(b)
    decreases |a|
  {
    if a == [] {
      assert a + b == b;
    } else {
      assert (a + b)[1..] == a[1..] + b;
      ConcatAppend(a[1..], b);
    }
  }

  /** Joining one more line appends it. */
  lemma ConcatSnoc(lines: seq<string>, i: nat)
    requires i < |lines|
    ensures Concat(lines[..i + 1]) == Concat(lines[..i]) + lines[i]
  {
    assert lines[..i + 1] == lines[..i] + [lines[i]];
    ConcatAppend(lines[..i], [lines[i]]);
    assert Concat([lines[i]]) == lines[i] + Concat([]);
  }

  /** The joined first `j` lines are a prefix of all of them joined. */
  lemma ConcatPrefix(lines: seq<string>, j: nat)
    requires j <= |lines|
    ensures Concat(lines[..j]) <= Concat(lines)
  {
    assert lines == lines[..j] + lines[j..];
    ConcatAppend(lines[..j], lines[j..]);
  }

  /** A complete line in front of a stream is its first line. */
  lemma LinesCons(line: string, rest: string)
    requires IsLine(line)
    ensures Lines(line + rest) == [line] + Lines(rest)
  {
    var s := line + rest;
    var n := |line| - 1;
    assert s[..n] == line[..n];
    assert s[n] == '\n';
    assert forall j :: 0 <= j < n ==> s[j] == line[..n][j];
    NewlineIndexIs(s, n);
    assert s[..n + 1] == line;
    assert s[n + 1..] == rest;
  }

  /** The text after the last '\n' of a stream: the fragment the reader
      returns together with the end-of-stream error. */
  function Fragment(s: string): string
    decreases |s|
  {
    var n := NewlineIndex(s);
    if n == |s| then s else Fragment(s[n + 1..])
  }

  /** Joining a line in front of lines puts it in front of their join. */
  lemma ConcatCons(head: string, lines: seq<string>)
    ensures Concat([head] + lines) == head + Concat(lines)
  {
    assert ([head] + lines)[1..] == lines;
  }

  /** One unfolding of `Lines` past the first '\n'. */
  lemma LinesStep(s: string, n: nat)
    requires n == NewlineIndex(s) && n < |s|
    ensures Lines(s) == [s[..n + 1]] + Lines(s[n + 1..])
  {
  }

  /** A stream without '\n' has no lines. */
  lemma LinesNone(s: string)
    requires NewlineIndex(s) == |s|
    ensures Lines(s) == []
  {
  }

  /** One unfolding of `Fragment` past the first '\n'. */
  lemma FragmentStep(s: string, n: nat)
    requires n == NewlineIndex(s) && n < |s|
    ensures Fragment(s) == Fragment(s[n + 1..])
  {
  }

  /** A stream is its lines joined, followed by its fragment. */
  lemma {:induction false} LinesCover(s: string)
    ensures s == Concat(Lines(s)) + Fragment(s)
    decreases |s|
  {
    var n := NewlineIndex(s);
    if n < |s| {
      var head, tail := s[..n + 1], s[n + 1..];
      assert s == head + tail;
      LinesStep(s, n);
      FragmentStep(s, n);
      ConcatCons(head, Lines(tail));
      LinesCover(tail);
      assert head + (Concat(Lines(tail)) + Fragment(tail)) == (head + Concat(Lines(tail))) + Fragment(tail);
    }
  }

  /** The fragment holds no '\n'. */
  lemma {:induction false} FragmentHasNoNewline(s: string)
    ensures '\n' !in Fragment(s)
    decreases |s|
  {
    var n := NewlineIndex(s);
    if n < |s| {
      FragmentStep(s, n);
      FragmentHasNoNewline(s[n + 1..]);
    } else {
      BeforeNewline(s);
    }
  }

  /** Text without a '\n' at the end of the stream adds no line: a trailing
      fragment is lost. */
  lemma {:induction false} LinesIgnoreFragment(s: string, fragment: string)
    requires '\n' !in fragment
    ensures Lines(s + fragment) == Lines(s)
    decreases |s|
  {
    var n := NewlineIndex(s);
    var t := s + fragment;
    if n == |s| {
      NewlineAfterAppend(s, fragment);
      LinesNone(s);
      LinesNone(t);
    } else {
      NewlineAfterAppend(s, fragment);
      SplitAppend(s, fragment, n + 1);
      LinesStep(s, n);
      LinesStep(t, n);
      LinesIgnoreFragment(s[n + 1..], fragment);
    }
  }

  /** Appending text without '\n' keeps the first '\n', or the lack of one. */
  lemma NewlineAfterAppend(s: string, fragment: string)
    requires '\n' !in fragment
    ensures NewlineIndex(s) < |s| ==> NewlineIndex(s + fragment) == NewlineIndex(s)
    ensures NewlineIndex(s) == |s| ==> NewlineIndex(s + fragment) == |s + fragment|
  {
    var n, t := NewlineIndex(s), s + fragment;
    BeforeNewline(s);
    if n == |s| {
      forall j | 0 <= j < |t| ensures t[j] != '\n' {
        if j >= |s| { assert t[j] == fragment[j - |s|]; }
      }
      NewlineIndexIs(t, |t|);
    } else {
      forall j | 0 <= j < n ensures t[j] != '\n' {
        assert t[j] == s[j];
      }
      NewlineIndexIs(t, n);
    }
  }

  /** Cutting `s + fragment` inside `s`. */
  lemma SplitAppend(s: string, fragment: string, k: nat)
    requires k <= |s|
    ensures (s + fragment)[..k] == s[..k]
    ensures (s + fragment)[k..] == s[k..] + fragment
  {
  }

  /** A stream that ends in '\n' (or is empty) is exactly its lines joined. */
  lemma CompleteStreamIsItsLines(s: string)
    requires s == [] || s[|s| - 1] == '\n'
    ensures Concat(Lines(s)) == s
  {
    LinesCover(s);
    CompleteStreamHasNoFragment(s);
  }

  /** A stream that ends in '\n' (or is empty) leaves no fragment. */
  lemma {:induction false} CompleteStreamHasNoFragment(s: string)
    requires s == [] || s[|s| - 1] == '\n'
    ensures Fragment(s) == []
    decreases |s|
  {
    var n := NewlineIndex(s);
    if n < |s| {
      var tail := s[n + 1..];
      FragmentStep(s, n);
      if tail != [] {
        assert tail[|tail| - 1] == s[|s| - 1];
      }
      CompleteStreamHasNoFragment(tail);
    } else if s != [] {
      BeforeNewline(s);
    }
  }

  /** Complete lines joined in front of a stream are its first lines. */
  lemma {:induction false} LinesOfJoined(pre: seq<string>, rest: string)
    requires forall j :: 0 <= j < |pre| ==> IsLine(pre[j])
    ensures Lines(Concat(pre) + rest) == pre + Lines(rest)
    decreases |pre|
  {
    if pre == [] {
      assert Concat(pre) + rest == rest;
    } else {
      assert Concat(pre) + rest == pre[0] + (Concat(pre[1..]) + rest);
      LinesCons(pre[0], Concat(pre[1..]) + rest);
      LinesOfJoined(pre[1..], rest);
      assert pre == [pre[0]] + pre[1..];
    }
  }

  /** A stream made of complete lines `pre`, one more line `line` and a
      remainder reads as those lines, then the remainder's lines. */
  lemma LinesAfter(pre: seq<string>, line: string, rest: string)
    requires forall j :: 0 <= j < |pre| ==> IsLine(pre[j])
    requires IsLine(line)
    ensures Concat(pre + [line]) == Concat(pre) + line
    ensures Lines(Concat(pre) + line + rest) == pre + [line] + Lines(rest)
  {
    var lines := pre + [line];
    ConcatAppend(pre, [line]);
    assert [line][1..] == [];
    assert Concat([line]) == line;
    forall j | 0 <= j < |lines| ensures IsLine(lines[j]) {
      if j < |pre| {
        assert lines[j] == pre[j];
      }
    }
    LinesOfJoined(lines, rest);
  }

  /** Complete lines joined end in '\n', unless there are none. */
  lemma {:induction false} JoinedLinesEnd(lines: seq<string>)
    requires forall j :: 0 <= j < |lines| ==> IsLine(lines[j])
    ensures Concat(lines) == [] || Concat(lines)[|Concat(lines)| - 1] == '\n'
    decreases |lines|
  {
    if lines != [] {
      assert IsLine(lines[0]);
      JoinedLinesEnd(lines[1..]);
    }
  }

  /** The reader's `ReadString('\n')` on the stream `data` from position
      `pos`: with `ok` it returns the next complete line and the position
      after it; without, the stream holds no further '\n' and what remains
      is the lost fragment. */
  method ReadString(data: string, pos: nat) returns (line: string, next: nat, ok: bool)
    requires pos <= |data|
    ensures pos <= next <= |data| && line == data[pos..next]
    ensures ok <==> '\n' in data[pos..]
    ensures ok ==> pos < next && IsLine(line) && Lines(data[pos..]) == [line] + Lines(data[next..])
    ensures !ok ==> next == |data| && Lines(data[pos..]) == []
  {
    var j := pos;
    while j < |data| && data[j] != '\n'
      invariant pos <= j <= |data|
      invariant forall k :: pos <= k < j ==> data[k] != '\n'
    {
      j := j + 1;
    }
    if j < |data| {
      line, next, ok := data[pos..j + 1], j + 1, true;
      LineFound(data, pos, j);
    } else {
      line, next, ok := data[pos..], |data|, false;
      NoLineLeft(data, pos);
    }
  }

  /** The scan from `pos` stopped at a '\n' at `j`: the next line runs up to
      and including it. */
  lemma LineFound(data: string, pos: nat, j: nat)
    requires pos <= j < |data| && data[j] == '\n'
    requires forall k :: pos <= k < j ==> data[k] != '\n'
    ensures '\n' in data[pos..] && IsLine(data[pos..j + 1])
    ensures Lines(data[pos..]) == [data[pos..j + 1]] + Lines(data[j + 1..])
  {
    var rest, n := data[pos..], j - pos;
    assert rest[n] == '\n';
    forall k | 0 <= k < n ensures rest[k] != '\n' {
      assert rest[k] == data[pos + k];
    }
    NewlineIndexIs(rest, n);
    LinesStep(rest, n);
    assert rest[..n + 1] == data[pos..j + 1];
    assert rest[n + 1..] == data[j + 1..];
    LinesAreLines(rest);
  }

  /** The scan from `pos` ran to the end: no line is left. */
  lemma NoLineLeft(data: string, pos: nat)
    requires pos <= |data|
    requires forall k :: pos <= k < |data| ==> data[k] != '\n'
    ensures '\n' !in data[pos..] && Lines(data[pos..]) == []
  {
    var rest := data[pos..];
    forall k | 0 <= k < |rest| ensures rest[k] != '\n' {
      assert rest[k] == data[pos + k];
    }
    NewlineIndexIs(rest, |rest|);
    LinesNone(rest);
  }
}
