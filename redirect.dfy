/**
  The redirect test applied to every response line: a line is a hint when
  its lower-cased, trimmed form starts with `whois server:`; the target is
  the ORIGINAL line with its first 13 characters cut off, then trimmed.
 */
module Redirect {
  import opened Wrappers
  import opened AsciiText

  /** The literal prefix of a redirect hint (13 characters). */
  const Prefix: string := "whois server:"

  /** The line, lower-cased and trimmed, starts with `whois server:`. */
  predicate IsRedirectHint(line: string) {
    Prefix <= TrimSpace(ToLower(line))
  }

  /** The server a hint names. The 13 characters are cut from the untrimmed,
      original-case line, so white space before the prefix shifts the cut. */
  function RedirectTarget(line: string): (r: string)
    requires IsRedirectHint(line)
    ensures |r| <= |line| - |Prefix|
  {
    TrimSpace(line[|Prefix|..])
  }

  /** The server the query restarts against after reading `line` from
      `server`, if any: only a hint whose target is non-empty and differs
      from the current server is followed. */
  function FollowTarget(line: string, server: string): (r: Option<string>)
    ensures r.Some? ==> IsRedirectHint(line) && r.value == RedirectTarget(line)
    ensures r.Some? ==> r.value != "" && r.value != server
    ensures r.None? && IsRedirectHint(line) ==> RedirectTarget(line) in {"", server}
  {
    if IsRedirectHint(line) then
      var redirect := RedirectTarget(line);
      if redirect != "" && redirect != server then Some(redirect) else None
    else None
  }

  /** The hint test does not see letter case: a line and its lower-cased form
      are hints alike (so `Whois Server:` and `WHOIS SERVER:` both count). */
  lemma {:induction false} HintIgnoresCase(line: string)
    ensures IsRedirectHint(ToLower(line)) == IsRedirectHint(line)
  {
    var lower := ToLower(line);
    forall k | 0 <= k < |lower| ensures !IsUpper(lower[k]) {
      ToLowerAt(line, k);
    }
    NoUpperIsLower(lower);
  }

  /** Only ':' lower-cases to ':' and only 'r' and 'R' to 'r', so every
      spelling of the prefix ends in a non-space followed by ':'. */
  lemma PrefixSpelling(p: string)
    requires ToLower(p) == Prefix
    ensures |p| == |Prefix| && p[|Prefix| - 1] == ':' && !IsSpace(p[|Prefix| - 2])
  {
    assert Prefix[12] == ':' && Prefix[11] == 'r';
    LoweredTo(p, 12, ':');
    LoweredTo(p, 11, 'r');
  }

  lemma LoweredTo(p: string, i: nat, c: char)
    requires i < |p| && ToLower(p)[i] == c
    ensures c == ':' ==> p[i] == ':'
    ensures c == 'r' ==> !IsSpace(p[i])
  {
    ToLowerAt(p, i);
  }

  lemma {:induction false} LowerIndentedLine(ws: string, p: string, rest: string)
    requires forall k :: 0 <= k < |ws| ==> IsSpace(ws[k])
    requires ToLower(p) == Prefix
    ensures ToLower(ws + p + rest) == ws + (Prefix + ToLower(rest))
  {
    calc {
      ToLower(ws + p + rest);
      { ToLowerAppend(ws + p, rest); }
      ToLower(ws + p) + ToLower(rest);
      { ToLowerAppend(ws, p); }
      ToLower(ws) + ToLower(p) + ToLower(rest);
      { NoUpperIsLower(ws); }
      ws + Prefix + ToLower(rest);
    }
  }

  /** The prefix ends in ':', which trimming the end never reaches. */
  lemma PrefixSurvivesTrimRight(tail: string)
    requires Prefix <= tail
    ensures Prefix <= TrimRight(tail)
  {
    assert tail[|Prefix| - 1] == ':';
    if |TrimRight(tail)| <= |Prefix| - 1 {
      TrimRightCutsSpace(tail, |Prefix| - 1);
    }
  }

  /** Lower-casing and trimming an indented, prefixed line leaves a string
      that starts with the prefix. */
  lemma {:induction false} IndentedLineIsHint(ws: string, p: string, rest: string)
    requires forall k :: 0 <= k < |ws| ==> IsSpace(ws[k])
    requires ToLower(p) == Prefix
    ensures IsRedirectHint(ws + p + rest)
  {
    var tail := Prefix + ToLower(rest);
    LowerIndentedLine(ws, p, rest);
    assert tail[0] == 'w';
    TrimLeftAfterSpaces(ws, tail);
    PrefixSurvivesTrimRight(tail);
  }

  lemma CutAfterIndent(ws: string, p: string, rest: string)
    requires |ws| <= |Prefix| && |p| == |Prefix|
    ensures (ws + p + rest)[|Prefix|..] == p[|Prefix| - |ws|..] + rest
  {
  }

  /** A line made of at most 13 white-space characters `ws`, the prefix in
      any letter case, and a remainder is a hint. Its target is NOT the
      trimmed remainder but keeps the last `|ws|` characters of the prefix;
      with any indentation at all the target is therefore never empty. */
  lemma {:induction false} HintAfterIndent(ws: string, p: string, rest: string)
    requires |ws| <= |Prefix|
    requires forall k :: 0 <= k < |ws| ==> IsSpace(ws[k])
    requires ToLower(p) == Prefix
    ensures IsRedirectHint(ws + p + rest)
    ensures RedirectTarget(ws + p + rest) == TrimSpace(p[|Prefix| - |ws|..] + rest)
    ensures ws != [] ==> RedirectTarget(ws + p + rest) != ""
  {
    IndentedLineIsHint(ws, p, rest);
    PrefixSpelling(p);
    CutAfterIndent(ws, p, rest);
    if ws != [] {
      var cut := p[|Prefix| - |ws|..] + rest;
      assert cut[|ws| - 1] == ':';
      TrimSpaceKeepsNonSpace(cut, |ws| - 1);
    }
  }

  /** A hint at the start of the line (any letter case) names the trimmed
      remainder; it is followed unless that is empty or the current server. */
  lemma {:induction false} HintAtLineStart(p: string, rest: string, server: string)
    requires ToLower(p) == Prefix
    ensures IsRedirectHint(p + rest)
    ensures FollowTarget(p + rest, server)
      == if TrimSpace(rest) == "" || TrimSpace(rest) == server then None else Some(TrimSpace(rest))
  {
    var tail := Prefix + ToLower(rest);
    ToLowerAppend(p, rest);
    assert ToLower(p + rest) == tail;
    assert tail[0] == 'w';
    assert TrimLeft(tail) == tail;
    PrefixSurvivesTrimRight(tail);
    assert IsRedirectHint(p + rest);
    PrefixSpelling(p);
    assert (p + rest)[|Prefix|..] == rest;
  }

  /** A hint line whose value is blank is ignored... */
  lemma {:induction false} BlankHintIgnored(p: string, value: string, server: string)
    requires ToLower(p) == Prefix
    requires forall k :: 0 <= k < |value| ==> IsSpace(value[k])
    ensures IsRedirectHint(p + value)
    ensures FollowTarget(p + value, server) == None
  {
    HintAtLineStart(p, value, server);
    TrimSpacePadded(value, [], []);
    assert value + [] + [] == value;
  }

  lemma {:induction false} TwoBlankIndentTarget(ws: string, p: string, value: string)
    requires |ws| == 2 && forall k :: 0 <= k < |ws| ==> IsSpace(ws[k])
    requires ToLower(p) == Prefix
    requires forall k :: 0 <= k < |value| ==> IsSpace(value[k])
    ensures IsRedirectHint(ws + p + value)
    ensures RedirectTarget(ws + p + value) == p[|Prefix| - 2..]
  {
    HintAfterIndent(ws, p, value);
    PrefixSpelling(p);
    var cut := p[|Prefix| - 2..];
    TrimSpacePadded([], cut, value);
    assert [] + cut + value == cut + value;
  }

  /** ...but the same line indented by two blanks is followed, to a server
      named by the last two characters of the prefix (`r:` or `R:`). */
  lemma {:induction false} IndentedBlankHintRedirects(ws: string, p: string, value: string, server: string)
    requires |ws| == 2 && forall k :: 0 <= k < |ws| ==> IsSpace(ws[k])
    requires ToLower(p) == Prefix
    requires forall k :: 0 <= k < |value| ==> IsSpace(value[k])
    requires server != p[|Prefix| - 2..]
    ensures IsRedirectHint(ws + p + value)
    ensures FollowTarget(ws + p + value, server) == Some(p[|Prefix| - 2..])
  {
    TwoBlankIndentTarget(ws, p, value);
  }
}
