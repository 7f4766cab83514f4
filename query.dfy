/**
  One WHOIS query and the redirects it follows.

  A query dials the server, writes the domain and CRLF, then reads the answer
  line by line. Every complete line is appended to the response; a line that
  is a redirect hint naming another, non-empty server restarts the whole
  query against that server, whose result (response and error) replaces this
  one. Reading stops at the end of the stream, on a read error, or once the
  response has reached 32 KiB; the ceiling is tested only after the line has
  been appended and tested as a hint.

  The chain of redirects has no bound in the program. Here it is bounded by
  `fuel`, the number of connections the query may open; a query that would
  need more ends `Unfinished`.
 */
module Whois {
  import opened Wrappers
  import opened Redirect
  import opened Wire

  /** The response ceiling: reading stops once the response holds this much. */
  const MaxBufferSize: nat := 32 * 1024

  /** The two ways a query fails: the connection cannot be opened, or the
      query line cannot be written. A read error is not among them. */
  datatype ErrorKind = ConnectFailed | WriteFailed

  datatype WhoisResult = WhoisResult(response: string, error: Option<ErrorKind>)

  /** A query either produces its result or runs out of fuel. */
  datatype Outcome = Done(result: WhoisResult) | Unfinished

  /** What one connection's answer leads to: the finished response, or a
      restart against another server. */
  datatype Hop = Finish(text: string) | FollowTo(target: string)

  /** A redirect test: given a line read from a server, the server to
      restart the query at, if any. The program's test is
      `Redirect.FollowTarget`. */
  type Rule = (string, string) -> Option<string>

  /** The number of lines read before the ceiling stops the loop, searching
      from line `i`: the first `k >= i` whose first `k` lines reach
      `MaxBufferSize`, or all the lines. */
  function ReadLimitFrom(lines: seq<string>, i: nat): (k: nat)
    requires 1 <= i <= |lines|
    ensures i <= k <= |lines|
    ensures k < |lines| ==> |Concat(lines[..k])| >= MaxBufferSize
    ensures forall j :: i <= j < k ==> |Concat(lines[..j])| < MaxBufferSize
    decreases |lines| - i
  {
    if i == |lines| || |Concat(lines[..i])| >= MaxBufferSize then i
    else ReadLimitFrom(lines, i + 1)
  }

  /** How many of `lines` the query reads, redirects aside: at least one line
      when there is one, and the reading stops right after the first line
      that brings the response to the ceiling. */
  function ReadLimit(lines: seq<string>): (k: nat)
    ensures k <= |lines|
    ensures lines != [] ==> 1 <= k
    ensures k < |lines| ==> |Concat(lines[..k])| >= MaxBufferSize
    ensures forall j :: 1 <= j < k ==> |Concat(lines[..j])| < MaxBufferSize
  {
    if lines == [] then 0 else ReadLimitFrom(lines, 1)
  }

  /** The index of the first line at or after `i` that `rule` turns into a
      redirect away from `server`, or `|lines|` when there is none. */
  function FirstHintFrom(lines: seq<string>, rule: Rule, server: string, i: nat): (h: nat)
    requires i <= |lines|
    ensures i <= h <= |lines|
    ensures h < |lines| ==> rule(lines[h], server).Some?
    decreases |lines| - i
  {
    if i == |lines| || rule(lines[i], server).Some? then i
    else FirstHintFrom(lines, rule, server, i + 1)
  }

  /** The index of the first line that `rule` turns into a redirect away
      from `server`, or `|lines|` when there is none. */
  function FirstHint(lines: seq<string>, rule: Rule, server: string): (h: nat)
    ensures h <= |lines|
    ensures h < |lines| ==> rule(lines[h], server).Some?
  {
    FirstHintFrom(lines, rule, server, 0)
  }

  /** No line before the first hint is followed. */
  lemma {:induction false} BeforeFirstHintFrom(lines: seq<string>, rule: Rule, server: string, i: nat)
    requires i <= |lines|
    ensures forall j :: i <= j < FirstHintFrom(lines, rule, server, i) ==> rule(lines[j], server).None?
    decreases |lines| - i
  {
    if i < |lines| && rule(lines[i], server).None? {
      BeforeFirstHintFrom(lines, rule, server, i + 1);
    }
  }

  /** What the lines served by `server` lead to under the redirect `rule`: among
      the lines read before the ceiling, the first followable hint redirects;
      without one the response is those lines joined. */
  function HopOf(lines: seq<string>, rule: Rule, server: string): (r: Hop)
    ensures r.Finish? ==> r.text <= Concat(lines)
    ensures r.FollowTo? ==> exists j :: 0 <= j < |lines| && rule(lines[j], server) == Some(r.target)
  {
    var k := ReadLimit(lines);
    var h := FirstHint(lines[..k], rule, server);
    if h < k then
      assert rule(lines[h], server) == Some(rule(lines[h], server).value);
      FollowTo(rule(lines[h], server).value)
    else
      ConcatPrefix(lines, k);
      Finish(Concat(lines[..k]))
  }

  /** The reading loop, one line at a time, with `sb` the response so far:
      append, test for a redirect, test the ceiling. */
  ghost function Scan(lines: seq<string>, rule: Rule, server: string, sb: string): Hop
    decreases |lines|
  {
    if lines == [] then Finish(sb)
    else
      var acc := sb + lines[0];
      match rule(lines[0], server)
      case Some(target) => FollowTo(target)
      case None =>
        if |acc| >= MaxBufferSize then Finish(acc) else Scan(lines[1..], rule, server, acc)
  }

  /** The number of lines the query reads is fixed by the first prefix that
      reaches the ceiling. */
  lemma ReadLimitIs(lines: seq<string>, k: nat)
    requires 1 <= k <= |lines|
    requires forall j :: 1 <= j < k ==> |Concat(lines[..j])| < MaxBufferSize
    requires k < |lines| ==> |Concat(lines[..k])| >= MaxBufferSize
    ensures ReadLimit(lines) == k
  {
  }

  /** The first followable hint is fixed by the lines before it. */
  lemma FirstHintIs(lines: seq<string>, rule: Rule, server: string, h: nat)
    requires h <= |lines|
    requires forall j :: 0 <= j < h ==> rule(lines[j], server).None?
    requires h < |lines| ==> rule(lines[h], server).Some?
    ensures FirstHint(lines, rule, server) == h
  {
    FirstHintFromIs(lines, rule, server, 0, h);
  }

  lemma {:induction false} FirstHintFromIs(lines: seq<string>, rule: Rule, server: string, i: nat, h: nat)
    requires i <= h <= |lines|
    requires forall j :: i <= j < h ==> rule(lines[j], server).None?
    requires h < |lines| ==> rule(lines[h], server).Some?
    ensures FirstHintFrom(lines, rule, server, i) == h
    decreases h - i
  {
    if i < h {
      FirstHintFromIs(lines, rule, server, i + 1, h);
    }
  }

  /** The loop, started after `i` lines that held no redirect and did not
      reach the ceiling, ends where the declarative reading says. */
  lemma {:induction false} ScanFrom(lines: seq<string>, rule: Rule, server: string, i: nat)
    requires i <= |lines|
    requires forall j :: 0 <= j < i ==> rule(lines[j], server).None?
    requires forall j :: 1 <= j <= i ==> |Concat(lines[..j])| < MaxBufferSize
    ensures Scan(lines[i..], rule, server, Concat(lines[..i])) == HopOf(lines, rule, server)
    decreases |lines| - i
  {
    if i == |lines| {
      if lines != [] {
        ReadLimitIs(lines, |lines|);
      }
      assert lines[..|lines|] == lines;
      FirstHintIs(lines, rule, server, |lines|);
    } else {
      var line := lines[i];
      ConcatSnoc(lines, i);
      assert lines[i..][1..] == lines[i + 1..];
      var acc := Concat(lines[..i + 1]);
      match rule(line, server)
      case Some(target) =>
        FirstHintIs(lines[..ReadLimit(lines)], rule, server, i);
      case None =>
        if |acc| >= MaxBufferSize {
          ReadLimitIs(lines, i + 1);
          FirstHintIs(lines[..i + 1], rule, server, i + 1);
        } else {
          ScanFrom(lines, rule, server, i + 1);
        }
    }
  }

  /** The step-by-step loop and the declarative reading agree. */
  lemma ScanMeaning(lines: seq<string>, rule: Rule, server: string)
    ensures Scan(lines, rule, server, "") == HopOf(lines, rule, server)
  {
    ScanFrom(lines, rule, server, 0);
    assert lines[0..] == lines;
  }

  /** The query for `domain` at `server:port`, opening at most `fuel`
      connections, with `rule` deciding the redirects. A failure to connect
      or to write gives an empty response with the error; otherwise the
      served lines either finish the response or restart the query at the
      redirect target. */
  function Query(net: Network, rule: Rule, server: string, port: int, domain: string, fuel: nat): (r: Outcome)
    ensures r.Done? && r.result.error.Some? ==> r.result.response == ""
    ensures fuel == 0 ==> r.Unfinished?
    decreases fuel
  {
    if fuel == 0 then Unfinished
    else
      match net(server, port, QueryLine(domain))
      case DialFails => Done(WhoisResult("", Some(ConnectFailed)))
      case WriteFails => Done(WhoisResult("", Some(WriteFailed)))
      case Serves(data, _) =>
        match HopOf(Lines(data), rule, server)
        case Finish(text) => Done(WhoisResult(text, None))
        case FollowTo(target) => Query(net, rule, target, port, domain, fuel - 1)
  }

  /** The reading loop of `performSingleWhoIsQuery` on the stream `data`
      served by `server`: read a line, append it, stop at a hint that names
      another server, stop once the response has reached the ceiling. */
  method ReadResponse(data: string, server: string) returns (hop: Hop)
    ensures hop == HopOf(Lines(data), FollowTarget, server)
  {
    ScanMeaning(Lines(data), FollowTarget, server);
    var sb := "";
    var pos := 0;
    while true
      invariant pos <= |data|
      invariant Scan(Lines(data[pos..]), FollowTarget, server, sb) == HopOf(Lines(data), FollowTarget, server)
      decreases |data| - pos
    {
      var line, next, ok := ReadString(data, pos);
      if !ok {
        break;
      }
      pos := next;
      sb := sb + line;
      var redirect := FollowTarget(line, server);
      if redirect.Some? {
        return FollowTo(redirect.value);
      }
      if |sb| >= MaxBufferSize {
        break;
      }
    }
    return Finish(sb);
  }

  /** `performSingleWhoIsQuery`: connect, send the query line, read the
      answer, and on a redirect start over at the target. */
  method PerformSingleWhoIsQuery(net: Network, server: string, port: int, domain: string, fuel: nat)
    returns (out: Outcome)
    ensures out == Query(net, FollowTarget, server, port, domain, fuel)
    decreases fuel
  {
    if fuel == 0 {
      return Unfinished;
    }
    var conn := net(server, port, QueryLine(domain));
    match conn {
      case DialFails =>
        ConnectionFailures(net, FollowTarget, server, port, domain, fuel);
        return Done(WhoisResult("", Some(ConnectFailed)));
      case WriteFails =>
        ConnectionFailures(net, FollowTarget, server, port, domain, fuel);
        return Done(WhoisResult("", Some(WriteFailed)));
      case Serves(data, end) =>
        var hop := ReadResponse(data, server);
        match hop {
          case FollowTo(redirect) =>
            var rest := fuel - 1;
            QueryFollows(net, FollowTarget, server, port, domain, fuel, rest, data, end, redirect);
            out := PerformSingleWhoIsQuery(net, redirect, port, domain, rest);
          case Finish(text) =>
            QueryFinishes(net, FollowTarget, server, port, domain, fuel, data, end, text);
            out := Done(WhoisResult(text, None));
        }
    }
  }

  /** A server that cannot be dialled, or that does not take the query
      line, ends the query with an empty response and that error, whatever
      the redirect rule. */
  lemma ConnectionFailures(net: Network, rule: Rule, server: string, port: int, domain: string, fuel: nat)
    requires fuel > 0
    ensures net(server, port, QueryLine(domain)) == DialFails ==>
      Query(net, rule, server, port, domain, fuel) == Done(WhoisResult("", Some(ConnectFailed)))
    ensures net(server, port, QueryLine(domain)) == WriteFails ==>
      Query(net, rule, server, port, domain, fuel) == Done(WhoisResult("", Some(WriteFailed)))
  {
  }

  /** A connection whose lines finish the response gives that response. */
  lemma QueryFinishes(net: Network, rule: Rule, server: string, port: int, domain: string, fuel: nat,
                      data: string, end: StreamEnd, text: string)
    requires fuel > 0 && net(server, port, QueryLine(domain)) == Serves(data, end)
    requires HopOf(Lines(data), rule, server) == Finish(text)
    ensures Query(net, rule, server, port, domain, fuel) == Done(WhoisResult(text, None))
  {
  }

  /** A connection whose lines redirect gives the redirect target's result,
      with one connection fewer (`rest`) left to open. */
  lemma QueryFollows(net: Network, rule: Rule, server: string, port: int, domain: string, fuel: nat, rest: nat,
                     data: string, end: StreamEnd, target: string)
    requires fuel == rest + 1 && net(server, port, QueryLine(domain)) == Serves(data, end)
    requires HopOf(Lines(data), rule, server) == FollowTo(target)
    ensures Query(net, rule, server, port, domain, fuel) == Query(net, rule, target, port, domain, rest)
  {
  }

  /** Under the program's redirect test a followed redirect never targets
      the empty name or the server that named it. */
  lemma HopTargetIsNew(lines: seq<string>, server: string)
    ensures HopOf(lines, FollowTarget, server).FollowTo? ==>
      HopOf(lines, FollowTarget, server).target !in {"", server}
  {
    var hop := HopOf(lines, FollowTarget, server);
    if hop.FollowTo? {
      var j :| 0 <= j < |lines| && FollowTarget(lines[j], server) == Some(hop.target);
    }
  }

  /** More fuel never changes a finished query. */
  lemma {:induction false} FuelMonotone(net: Network, rule: Rule, server: string, port: int, domain: string,
                                        fuel: nat, more: nat)
    requires fuel <= more
    requires Query(net, rule, server, port, domain, fuel).Done?
    ensures Query(net, rule, server, port, domain, more) == Query(net, rule, server, port, domain, fuel)
    decreases fuel
  {
    match net(server, port, QueryLine(domain)) {
      case Serves(data, end) =>
        match HopOf(Lines(data), rule, server) {
          case FollowTo(target) =>
            var rest, restMore := fuel - 1, more - 1;
            QueryFollows(net, rule, server, port, domain, fuel, rest, data, end, target);
            QueryFollows(net, rule, server, port, domain, more, restMore, data, end, target);
            FuelMonotone(net, rule, target, port, domain, rest, restMore);
          case Finish(text) =>
            QueryFinishes(net, rule, server, port, domain, fuel, data, end, text);
            QueryFinishes(net, rule, server, port, domain, more, data, end, text);
        }
      case _ =>
        ConnectionFailures(net, rule, server, port, domain, fuel);
        ConnectionFailures(net, rule, server, port, domain, more);
    }
  }

  /** Only a redirect to the current server is refused: two servers whose
      answers redirect to each other keep the query going for as long as
      connections are allowed, so without a bound the program never
      returns. */
  lemma {:induction false} RedirectCycleNeverFinishes(net: Network, rule: Rule, a: string, b: string, port: int,
                                                      domain: string, fuel: nat)
    requires net(a, port, QueryLine(domain)).Serves?
    requires HopOf(Lines(net(a, port, QueryLine(domain)).data), rule, a) == FollowTo(b)
    requires net(b, port, QueryLine(domain)).Serves?
    requires HopOf(Lines(net(b, port, QueryLine(domain)).data), rule, b) == FollowTo(a)
    ensures Query(net, rule, a, port, domain, fuel) == Unfinished
    ensures Query(net, rule, b, port, domain, fuel) == Unfinished
    decreases fuel
  {
    if fuel > 0 {
      var rest := fuel - 1;
      var connA, connB := net(a, port, QueryLine(domain)), net(b, port, QueryLine(domain));
      QueryFollows(net, rule, a, port, domain, fuel, rest, connA.data, connA.end, b);
      QueryFollows(net, rule, b, port, domain, fuel, rest, connB.data, connB.end, a);
      RedirectCycleNeverFinishes(net, rule, a, b, port, domain, rest);
    }
  }

  /** While the joined lines stay under the ceiling, the reading goes on:
      after lines `pre` under the ceiling, at least one more line is read. */
  lemma ReadsPast(pre: seq<string>, tail: seq<string>)
    requires |Concat(pre)| < MaxBufferSize && tail != []
    ensures ReadLimit(pre + tail) > |pre|
  {
    var lines := pre + tail;
    var k := ReadLimit(lines);
    if k <= |pre| {
      assert lines[..k] == pre[..k];
      ConcatPrefix(pre, k);
    }
  }

  /** The first followable hint read decides the hop, however long the
      lines before it are, as long as they stay under the ceiling. */
  lemma HopAtHint(pre: seq<string>, line: string, tail: seq<string>, rule: Rule, server: string)
    requires forall j :: 0 <= j < |pre| ==> rule(pre[j], server).None?
    requires |Concat(pre)| < MaxBufferSize
    requires rule(line, server).Some?
    ensures HopOf(pre + [line] + tail, rule, server) == FollowTo(rule(line, server).value)
  {
    var lines := pre + [line] + tail;
    assert lines == pre + ([line] + tail);
    ReadsPast(pre, [line] + tail);
    var k := ReadLimit(lines);
    assert lines[..k][|pre|] == line;
    forall j | 0 <= j < |pre| ensures rule(lines[..k][j], server).None? {
      assert lines[..k][j] == pre[j];
    }
    FirstHintIs(lines[..k], rule, server, |pre|);
  }

  /** The line that brings the response to the ceiling is the last one read. */
  lemma HopAtCeiling(pre: seq<string>, line: string, tail: seq<string>, rule: Rule, server: string)
    requires forall j :: 0 <= j < |pre| ==> rule(pre[j], server).None?
    requires rule(line, server).None?
    requires |Concat(pre)| < MaxBufferSize <= |Concat(pre + [line])|
    ensures HopOf(pre + [line] + tail, rule, server) == Finish(Concat(pre + [line]))
  {
    var lines := pre + [line] + tail;
    var n := |pre| + 1;
    assert lines[..n] == pre + [line];
    forall j | 1 <= j < n ensures |Concat(lines[..j])| < MaxBufferSize {
      assert lines[..j] == pre[..j];
      ConcatPrefix(pre, j);
    }
    ReadLimitIs(lines, n);
    forall j | 0 <= j < n ensures rule(lines[..n][j], server).None? {
      if j < |pre| {
        assert lines[..n][j] == pre[j];
      }
    }
    FirstHintIs(lines[..n], rule, server, n);
  }

  /** A followed redirect replaces everything read so far: when the served
      stream is complete lines `pre` without a redirect and under the
      ceiling, then a line naming a new server, the query's result is the
      new server's result, error included. The ceiling is not tested before
      the hint, so a line that crosses it still redirects. */
  lemma RedirectReplacesResponse(net: Network, rule: Rule, server: string, port: int, domain: string,
                                 fuel: nat, pre: seq<string>, line: string, rest: string, end: StreamEnd)
    requires fuel > 0
    requires forall j :: 0 <= j < |pre| ==> IsLine(pre[j]) && rule(pre[j], server).None?
    requires |Concat(pre)| < MaxBufferSize
    requires IsLine(line) && rule(line, server).Some?
    requires net(server, port, QueryLine(domain)) == Serves(Concat(pre) + line + rest, end)
    ensures Query(net, rule, server, port, domain, fuel)
         == Query(net, rule, rule(line, server).value, port, domain, fuel - 1)
  {
    LinesAfter(pre, line, rest);
    HopAtHint(pre, line, Lines(rest), rule, server);
    QueryFollows(net, rule, server, port, domain, fuel, fuel - 1, Concat(pre) + line + rest, end,
                 rule(line, server).value);
  }

  /** A redirect to a server that cannot be reached ends the query with that
      failure: the lines read before the hint are dropped. */
  lemma RedirectToDeadServer(net: Network, rule: Rule, server: string, port: int, domain: string,
                             fuel: nat, pre: seq<string>, line: string, rest: string, end: StreamEnd)
    requires fuel > 1
    requires forall j :: 0 <= j < |pre| ==> IsLine(pre[j]) && rule(pre[j], server).None?
    requires |Concat(pre)| < MaxBufferSize
    requires IsLine(line) && rule(line, server).Some?
    requires net(server, port, QueryLine(domain)) == Serves(Concat(pre) + line + rest, end)
    requires net(rule(line, server).value, port, QueryLine(domain)) == DialFails
    ensures Query(net, rule, server, port, domain, fuel) == Done(WhoisResult("", Some(ConnectFailed)))
  {
    RedirectReplacesResponse(net, rule, server, port, domain, fuel, pre, line, rest, end);
    ConnectionFailures(net, rule, rule(line, server).value, port, domain, fuel - 1);
  }

  /** The ceiling is tested after each line: the line that brings the
      response to 32 KiB is kept whole, so the response can exceed the
      ceiling by up to one line, and nothing after it is read, redirect hints
      included. */
  lemma CeilingOvershoot(net: Network, rule: Rule, server: string, port: int, domain: string,
                         fuel: nat, pre: seq<string>, line: string, rest: string, end: StreamEnd)
    requires fuel > 0
    requires forall j :: 0 <= j < |pre| ==> IsLine(pre[j]) && rule(pre[j], server).None?
    requires IsLine(line) && rule(line, server).None?
    requires |Concat(pre)| < MaxBufferSize <= |Concat(pre) + line|
    requires net(server, port, QueryLine(domain)) == Serves(Concat(pre) + line + rest, end)
    ensures Query(net, rule, server, port, domain, fuel) == Done(WhoisResult(Concat(pre) + line, None))
  {
    LinesAfter(pre, line, rest);
    HopAtCeiling(pre, line, Lines(rest), rule, server);
    QueryFinishes(net, rule, server, port, domain, fuel, Concat(pre) + line + rest, end, Concat(pre) + line);
  }

  /** Complete lines under the ceiling with no redirect to follow make up
      the whole response, whether the stream ended cleanly or with a read
      error and however long the text after the last '\n' is: that text is
      never appended nor counted, and a stream that ends in '\n' comes back
      whole. */
  lemma NoHintResponse(net: Network, rule: Rule, server: string, port: int, domain: string,
                       fuel: nat, data: string, end: StreamEnd)
    requires fuel > 0
    requires net(server, port, QueryLine(domain)) == Serves(data, end)
    requires |Concat(Lines(data))| < MaxBufferSize
    requires forall j :: 0 <= j < |Lines(data)| ==> rule(Lines(data)[j], server).None?
    ensures Query(net, rule, server, port, domain, fuel) == Done(WhoisResult(Concat(Lines(data)), None))
    ensures data == Concat(Lines(data)) + Fragment(data) && '\n' !in Fragment(data)
    ensures data == [] || data[|data| - 1] == '\n' ==> Concat(Lines(data)) == data
  {
    var lines := Lines(data);
    LinesCover(data);
    FragmentHasNoNewline(data);
    if lines != [] {
      forall j | 1 <= j < |lines| ensures |Concat(lines[..j])| < MaxBufferSize {
        ConcatPrefix(lines, j);
      }
      ReadLimitIs(lines, |lines|);
    }
    assert lines[..|lines|] == lines;
    FirstHintIs(lines, rule, server, |lines|);
    if data == [] || data[|data| - 1] == '\n' {
      CompleteStreamIsItsLines(data);
    }
  }

  /** A server that keeps sending lines without a redirect is cut off at
      the ceiling: once its complete lines reach 32 KiB, the query succeeds
      with a response of at least 32 KiB, taken from the start of the
      stream. */
  lemma LongResponseIsCut(net: Network, rule: Rule, server: string, port: int, domain: string,
                          fuel: nat, data: string, end: StreamEnd)
    requires fuel > 0
    requires net(server, port, QueryLine(domain)) == Serves(data, end)
    requires forall j :: 0 <= j < |Lines(data)| ==> rule(Lines(data)[j], server).None?
    requires |Concat(Lines(data))| >= MaxBufferSize
    ensures Query(net, rule, server, port, domain, fuel).Done?
    ensures var res := Query(net, rule, server, port, domain, fuel).result;
      res.error == None && |res.response| >= MaxBufferSize && res.response <= data
  {
    var lines := Lines(data);
    var k := ReadLimit(lines);
    forall j | 0 <= j < k ensures rule(lines[..k][j], server).None? {
      assert lines[..k][j] == lines[j];
    }
    FirstHintIs(lines[..k], rule, server, k);
    if k == |lines| {
      assert lines[..k] == lines;
    }
    LinesCover(data);
    QueryFinishes(net, rule, server, port, domain, fuel, data, end, Concat(lines[..k]));
  }

  /** A successful response is made of complete lines: it is empty or ends
      in '\n'. */
  lemma {:induction false} ResponseIsLines(net: Network, rule: Rule, server: string, port: int, domain: string,
                                           fuel: nat)
    requires Query(net, rule, server, port, domain, fuel).Done?
    ensures var res := Query(net, rule, server, port, domain, fuel).result;
      res.response == [] || res.response[|res.response| - 1] == '\n'
    decreases fuel
  {
    match net(server, port, QueryLine(domain)) {
      case Serves(data, end) =>
        var lines := Lines(data);
        match HopOf(lines, rule, server) {
          case FollowTo(target) =>
            var rest := fuel - 1;
            QueryFollows(net, rule, server, port, domain, fuel, rest, data, end, target);
            ResponseIsLines(net, rule, target, port, domain, rest);
          case Finish(text) =>
            QueryFinishes(net, rule, server, port, domain, fuel, data, end, text);
            LinesAreLines(data);
            JoinedLinesEnd(lines[..ReadLimit(lines)]);
        }
      case _ =>
    }
  }

  /** The network with every served stream ending the same way, `end`. */
  function EndingWith(net: Network, end: StreamEnd): (n: Network)
    ensures forall s, p, q :: n(s, p, q).Serves? == net(s, p, q).Serves?
  {
    (s, p, q) =>
      match net(s, p, q)
      case Serves(data, _) => Serves(data, end)
      case other => other
  }

  /** A read error is never reported: along the whole redirect chain a
      stream cut by a read error gives the result of one that ended
      cleanly. */
  lemma {:induction false} ReadErrorIsEndOfStream(net: Network, rule: Rule, server: string, port: int,
                                                  domain: string, fuel: nat)
    ensures Query(EndingWith(net, ReadError), rule, server, port, domain, fuel)
         == Query(EndingWith(net, EndOfStream), rule, server, port, domain, fuel)
    decreases fuel
  {
    var conn := net(server, port, QueryLine(domain));
    var cut, closed := EndingWith(net, ReadError), EndingWith(net, EndOfStream);
    if fuel > 0 && conn.Serves? {
      var data := conn.data;
      assert cut(server, port, QueryLine(domain)) == Serves(data, ReadError);
      assert closed(server, port, QueryLine(domain)) == Serves(data, EndOfStream);
      match HopOf(Lines(data), rule, server) {
        case FollowTo(target) =>
          var rest := fuel - 1;
          QueryFollows(cut, rule, server, port, domain, fuel, rest, data, ReadError, target);
          QueryFollows(closed, rule, server, port, domain, fuel, rest, data, EndOfStream, target);
          ReadErrorIsEndOfStream(net, rule, target, port, domain, rest);
        case Finish(text) =>
          QueryFinishes(cut, rule, server, port, domain, fuel, data, ReadError, text);
          QueryFinishes(closed, rule, server, port, domain, fuel, data, EndOfStream, text);
      }
    }
  }
}
