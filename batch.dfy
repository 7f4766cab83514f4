/**
  The batch around the single query: one query per domain named on the
  command line, in order, each result stored in a map under its domain, and
  the exit status the program derives from that map.

  The network may answer differently from one query to the next, so the
  batch sees one network per query: `nets[i]` is the network as the `i`-th
  query finds it.
 */
module Batch {
  import opened Wrappers
  import opened Redirect
  import opened Wire
  import opened Whois

  /** The command-line options. `showRedirects` is parsed by the program but
      never read. */
  datatype Options = Options(showRedirects: bool, server: string, port: int)

  /** The position of the last occurrence of `d` in `domains`. */
  function LastIndex(domains: seq<string>, d: string): (i: nat)
    requires d in domains
    ensures i < |domains| && domains[i] == d
    ensures forall j :: i < j < |domains| ==> domains[j] != d
    decreases |domains|
  {
    var n := |domains| - 1;
    if domains[n] == d then n
    else
      assert domains == domains[..n] + [domains[n]];
      LastIndex(domains[..n], d)
  }

  /** The map after one more query: the result is stored under its domain,
      replacing any earlier one; a query that never finishes leaves the
      batch unfinished. */
  function Record(acc: Option<map<string, WhoisResult>>, domain: string, out: Outcome)
    : (r: Option<map<string, WhoisResult>>)
    ensures r.Some? <==> acc.Some? && out.Done?
    ensures r.Some? ==> r.value.Keys == acc.value.Keys + {domain} && r.value[domain] == out.result
    ensures r.Some? ==> forall d :: d in acc.value && d != domain ==> r.value[d] == acc.value[d]
  {
    match acc
    case None => None
    case Some(m) =>
      match out
      case Unfinished => None
      case Done(result) => Some(m[domain := result])
  }

  /** The batch over `domains`, one query after the other against the
      options' server and port, with `rule` deciding the redirects. */
  function Batch(nets: seq<Network>, rule: Rule, opts: Options, domains: seq<string>, fuel: nat)
    : Option<map<string, WhoisResult>>
    requires |domains| <= |nets|
    decreases |domains|
  {
    if domains == [] then Some(map[])
    else
      var n := |domains| - 1;
      Record(Batch(nets, rule, opts, domains[..n], fuel), domains[n],
             Query(nets[n], rule, opts.server, opts.port, domains[n], fuel))
  }

  /** One more domain, the `i`-th, extends the batch by its query (`k` is
      `i + 1`, the length of the longer prefix). */
  lemma BatchSnoc(nets: seq<Network>, rule: Rule, opts: Options, domains: seq<string>, i: nat, k: nat, fuel: nat)
    requires k == i + 1 && k <= |domains| <= |nets|
    ensures Batch(nets, rule, opts, domains[..k], fuel)
         == Record(Batch(nets, rule, opts, domains[..i], fuel), domains[i],
                   Query(nets[i], rule, opts.server, opts.port, domains[i], fuel))
  {
    assert domains[..k][..i] == domains[..i];
  }

  /** The batch over the first `k` domains finishes exactly when each of
      their queries finishes. */
  lemma {:induction false} PrefixFinishes(nets: seq<Network>, rule: Rule, opts: Options, domains: seq<string>,
                                          k: nat, fuel: nat)
    requires k <= |domains| <= |nets|
    ensures Batch(nets, rule, opts, domains[..k], fuel).Some?
        <==> forall i :: 0 <= i < k ==> Query(nets[i], rule, opts.server, opts.port, domains[i], fuel).Done?
    decreases k
  {
    if k == 0 {
      assert domains[..k] == [];
    } else {
      var i := k - 1;
      PrefixFinishes(nets, rule, opts, domains, i, fuel);
      BatchSnoc(nets, rule, opts, domains, i, k, fuel);
      var last := Query(nets[i], rule, opts.server, opts.port, domains[i], fuel);
      if Batch(nets, rule, opts, domains[..k], fuel).Some? {
        forall j | 0 <= j < k ensures Query(nets[j], rule, opts.server, opts.port, domains[j], fuel).Done? {
          if j == i {
            assert last.Done?;
          }
        }
      } else if last.Done? {
        assert !Batch(nets, rule, opts, domains[..i], fuel).Some?;
      }
    }
  }

  /** The batch finishes exactly when every one of its queries finishes,
      the ones whose result a later duplicate overwrites included. */
  lemma BatchFinishes(nets: seq<Network>, rule: Rule, opts: Options, domains: seq<string>, fuel: nat)
    requires |domains| <= |nets|
    ensures Batch(nets, rule, opts, domains, fuel).Some?
        <==> forall i :: 0 <= i < |domains| ==> Query(nets[i], rule, opts.server, opts.port, domains[i], fuel).Done?
  {
    PrefixFinishes(nets, rule, opts, domains, |domains|, fuel);
    assert domains[..|domains|] == domains;
  }

  /** A finished batch holds one entry per distinct domain, and the entry of
      a domain listed more than once is the result of its last query. */
  lemma {:induction false} BatchContents(nets: seq<Network>, rule: Rule, opts: Options, domains: seq<string>,
                                         fuel: nat)
    requires |domains| <= |nets|
    requires Batch(nets, rule, opts, domains, fuel).Some?
    ensures var m := Batch(nets, rule, opts, domains, fuel).value;
      forall d :: d in m <==> d in domains
    ensures var m := Batch(nets, rule, opts, domains, fuel).value;
      forall d :: d in domains ==>
        Query(nets[LastIndex(domains, d)], rule, opts.server, opts.port, d, fuel) == Done(m[d])
    decreases |domains|
  {
    if domains != [] {
      var n := |domains| - 1;
      var prefix := domains[..n];
      assert domains == prefix + [domains[n]];
      BatchContents(nets, rule, opts, prefix, fuel);
      var m := Batch(nets, rule, opts, domains, fuel).value;
      var before := Batch(nets, rule, opts, prefix, fuel).value;
      assert m.Keys == before.Keys + {domains[n]};
      forall d | d in domains
        ensures Query(nets[LastIndex(domains, d)], rule, opts.server, opts.port, d, fuel) == Done(m[d])
      {
        if d != domains[n] {
          assert d in prefix;
          assert m[d] == before[d];
        }
      }
    }
  }

  /** `recursiveWhoIsQuery`: query every domain in order and store each
      result in the map under its domain. */
  method RecursiveWhoIsQuery(nets: seq<Network>, opts: Options, domains: seq<string>, fuel: nat)
    returns (results: Option<map<string, WhoisResult>>)
    requires |domains| <= |nets|
    ensures results == Batch(nets, FollowTarget, opts, domains, fuel)
  {
    var responseMap := map[];
    var i := 0;
    while i < |domains|
      invariant i <= |domains|
      invariant Batch(nets, FollowTarget, opts, domains[..i], fuel) == Some(responseMap)
    {
      var out := PerformSingleWhoIsQuery(nets[i], opts.server, opts.port, domains[i], fuel);
      var next := i + 1;
      BatchSnoc(nets, FollowTarget, opts, domains, i, next, fuel);
      if out.Unfinished? {
        BatchFinishes(nets, FollowTarget, opts, domains, fuel);
        return None;
      }
      responseMap := responseMap[domains[i] := out.result];
      i := next;
    }
    assert domains[..i] == domains;
    return Some(responseMap);
  }

  /** The domains whose result carries an error. */
  function Errored(results: map<string, WhoisResult>): (s: set<string>)
    ensures s <= results.Keys
  {
    set d | d in results && results[d].error.Some?
  }

  /** The count of errored results reaches the size of the map exactly when
      every result carries an error. */
  lemma AllErrored(results: map<string, WhoisResult>)
    ensures |Errored(results)| == |results| <==> forall d :: d in results ==> results[d].error.Some?
  {
    var e := Errored(results);
    if |e| == |results| {
      forall d | d in results ensures results[d].error.Some? {
        if d !in e {
          assert e <= results.Keys - {d};
          SubsetCard(e, results.Keys - {d});
        }
      }
    } else {
      assert e != results.Keys;
      var d :| d in results.Keys && d !in e;
    }
  }

  lemma {:induction false} SubsetCard(a: set<string>, b: set<string>)
    requires a <= b
    ensures |a| <= |b|
    decreases |b|
  {
    if a != {} {
      var x :| x in a;
      SubsetCard(a - {x}, b - {x});
    }
  }

  /** The exit rule of `printResults`: count the errored results, one entry
      at a time, and exit with status 1 when every result errored (an empty
      map included), 0 otherwise. */
  method PrintResults(results: map<string, WhoisResult>) returns (exitCode: int)
    ensures exitCode == 1 <==> |Errored(results)| == |results|
    ensures exitCode == 1 <==> forall d :: d in results ==> results[d].error.Some?
    ensures exitCode == 0 || exitCode == 1
  {
    var erroredCount := 0;
    var remaining := results.Keys;
    while remaining != {}
      invariant remaining <= results.Keys
      invariant erroredCount == |Errored(results) - remaining|
      decreases |remaining|
    {
      var domain :| domain in remaining;
      CountStep(results, remaining, domain);
      if results[domain].error.Some? {
        erroredCount := erroredCount + 1;
      }
      remaining := remaining - {domain};
    }
    AllErrored(results);
    exitCode := if erroredCount == |results| then 1 else 0;
  }

  /** Visiting one more entry adds one to the errored count exactly when
      its result carries an error. */
  lemma CountStep(results: map<string, WhoisResult>, remaining: set<string>, domain: string)
    requires remaining <= results.Keys && domain in remaining
    ensures |Errored(results) - (remaining - {domain})|
         == |Errored(results) - remaining| + (if results[domain].error.Some? then 1 else 0)
  {
    var before := Errored(results) - remaining;
    if results[domain].error.Some? {
      assert Errored(results) - (remaining - {domain}) == before + {domain};
    } else {
      assert Errored(results) - (remaining - {domain}) == before;
    }
  }

  /** The exit status of a whole run: 1 without any domain, else the status
      `printResults` derives from the batch; `None` when the batch does not
      finish within the fuel. */
  function ExitStatus(nets: seq<Network>, rule: Rule, opts: Options, domains: seq<string>, fuel: nat)
    : (r: Option<int>)
    requires |domains| <= |nets|
  {
    if domains == [] then Some(1)
    else
      match Batch(nets, rule, opts, domains, fuel)
      case None => None
      case Some(m) => Some(if forall d :: d in m ==> m[d].error.Some? then 1 else 0)
  }

  /** The program: with no domain it exits with status 1 before any query;
      otherwise it runs the batch and exits as `printResults` decides. */
  method Run(nets: seq<Network>, opts: Options, domains: seq<string>, fuel: nat) returns (status: Option<int>)
    requires |domains| <= |nets|
    ensures status == ExitStatus(nets, FollowTarget, opts, domains, fuel)
  {
    if |domains| == 0 {
      return Some(1);
    }
    var results := RecursiveWhoIsQuery(nets, opts, domains, fuel);
    if results.None? {
      return None;
    }
    var exitCode := PrintResults(results.value);
    return Some(exitCode);
  }

  /** A run over at least one domain that finishes exits with status 1
      exactly when the last query of every domain ended in an error. */
  lemma ExitOneIffEveryDomainFailed(nets: seq<Network>, rule: Rule, opts: Options, domains: seq<string>,
                                     fuel: nat)
    requires |domains| <= |nets| && domains != []
    requires Batch(nets, rule, opts, domains, fuel).Some?
    ensures ExitStatus(nets, rule, opts, domains, fuel) == Some(1)
        <==> forall d :: d in domains ==>
               var out := Query(nets[LastIndex(domains, d)], rule, opts.server, opts.port, d, fuel);
               out.Done? && out.result.error.Some?
  {
    BatchContents(nets, rule, opts, domains, fuel);
  }
}
