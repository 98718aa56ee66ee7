/** The monitoring server (pkg/monitoring/server.go): its counters, and readiness in terms of the events it
    has received. The HTTP endpoints and the Prometheus counters are not part of this model. */
module Monitoring {
  import opened Wrappers
  import opened Metrics
  import opened Config

  const DEFAULT_FAILURE_THRESHOLD := 3

  /** A call of a listener method: OnError, or one of the two updates. */
  datatype Event = Failure(name: string, t: MetricType) | Success(name: string, t: MetricType)

  // ----- Readiness in terms of the event history -----

  /** How often the client has succeeded. */
  function Successes(history: seq<Event>, name: string, t: MetricType): nat {
    if history == [] then 0
    else
      Successes(history[..|history| - 1], name, t) +
      if history[|history| - 1] == Success(name, t) then 1 else 0
  }

  /** How often it has failed since it last succeeded. */
  function TrailingFailures(history: seq<Event>, name: string, t: MetricType): nat {
    if history == [] || history[|history| - 1] == Success(name, t) then 0
    else
      TrailingFailures(history[..|history| - 1], name, t) +
      if history[|history| - 1] == Failure(name, t) then 1 else 0
  }

  predicate Expects(servers: seq<MetricServer>, name: string, t: MetricType) {
    exists i :: 0 <= i < |servers| && servers[i].name == name && servers[i].HasType(t)
  }

  datatype Complaint =
    | NoCustomMetricsYet | NoExternalMetricsYet | CustomFailing(failures: nat) | ExternalFailing(failures: nat)

  /** What is wrong with one server, in the order in which the server checks. */
  function Diagnosis(
    servers: seq<MetricServer>, threshold: int, history: seq<Event>, name: string): Option<Complaint>
  {
    if Expects(servers, name, Custom) && Successes(history, name, Custom) == 0 then Some(NoCustomMetricsYet)
    else if Expects(servers, name, External) && Successes(history, name, External) == 0 then Some(NoExternalMetricsYet)
    else if TrailingFailures(history, name, Custom) >= threshold then
      Some(CustomFailing(TrailingFailures(history, name, Custom)))
    else if TrailingFailures(history, name, External) >= threshold then
      Some(ExternalFailing(TrailingFailures(history, name, External)))
    else None
  }

  /** If the type is expected it has succeeded at least once, and it has not failed `threshold` times in a row. */
  ghost predicate TypeReady(
    servers: seq<MetricServer>, threshold: int, history: seq<Event>, name: string, t: MetricType)
  {
    && (Expects(servers, name, t) ==> exists k :: 0 <= k < |history| && history[k] == Success(name, t))
    && TrailingFailures(history, name, t) < threshold
  }

  ghost predicate Ready(servers: seq<MetricServer>, threshold: int, history: seq<Event>) {
    forall i :: 0 <= i < |servers| ==>
      && TypeReady(servers, threshold, history, servers[i].name, Custom)
      && TypeReady(servers, threshold, history, servers[i].name, External)
  }

  lemma {:induction false} SuccessesArePositive(history: seq<Event>, name: string, t: MetricType)
    ensures Successes(history, name, t) > 0 <==> exists k :: 0 <= k < |history| && history[k] == Success(name, t)
  {
    if history != [] {
      var before := history[..|history| - 1];
      SuccessesArePositive(before, name, t);
      assert forall k :: 0 <= k < |before| ==> before[k] == history[k];
    }
  }

  lemma ReadyIsNoComplaint(servers: seq<MetricServer>, threshold: int, history: seq<Event>)
    ensures Ready(servers, threshold, history) <==>
            forall i :: 0 <= i < |servers| ==> Diagnosis(servers, threshold, history, servers[i].name) == None
  {
    forall i | 0 <= i < |servers|
      ensures Diagnosis(servers, threshold, history, servers[i].name) == None <==>
              && TypeReady(servers, threshold, history, servers[i].name, Custom)
              && TypeReady(servers, threshold, history, servers[i].name, External)
    {
      SuccessesArePositive(history, servers[i].name, Custom);
      SuccessesArePositive(history, servers[i].name, External);
    }
  }

  // ----- Readiness in terms of the events alone -----

  /** A server without metric types serves both, any other those it lists. */
  predicate Configures(servers: seq<MetricServer>, name: string, t: MetricType) {
    exists i :: 0 <= i < |servers| && servers[i].name == name &&
                (servers[i].metricTypes == [] || t in servers[i].metricTypes)
  }

  /** The positions of the failures that no success has followed. */
  ghost function UnclearedFailures(history: seq<Event>, name: string, t: MetricType): set<int> {
    set k | 0 <= k < |history| && history[k] == Failure(name, t) && Success(name, t) !in history[k..]
  }

  ghost function SuccessPositions(history: seq<Event>, name: string, t: MetricType): set<int> {
    set k | 0 <= k < |history| && history[k] == Success(name, t)
  }

  ghost function FailurePositions(history: seq<Event>, name: string, t: MetricType): set<int> {
    set k | 0 <= k < |history| && history[k] == Failure(name, t)
  }

  lemma {:induction false} SuccessesAreEvents(history: seq<Event>, name: string, t: MetricType)
    ensures Successes(history, name, t) == |SuccessPositions(history, name, t)|
  {
    if history != [] {
      var k := |history| - 1;
      var before := history[..k];
      SuccessesAreEvents(before, name, t);
      assert SuccessPositions(history, name, t) ==
        SuccessPositions(before, name, t) + if history[k] == Success(name, t) then {k} else {};
    }
  }

  lemma SuccessAfterOneMore(history: seq<Event>, last: Event, i: nat, name: string, t: MetricType)
    requires i <= |history|
    ensures Success(name, t) in (history + [last])[i..] <==>
            last == Success(name, t) || Success(name, t) in history[i..]
  {
    assert (history + [last])[i..] == history[i..] + [last];
  }

  lemma UnclearedOneMore(history: seq<Event>, last: Event, name: string, t: MetricType)
    ensures UnclearedFailures(history + [last], name, t) ==
            if last == Success(name, t) then {}
            else UnclearedFailures(history, name, t) + if last == Failure(name, t) then {|history|} else {}
  {
    var after := UnclearedFailures(history + [last], name, t);
    forall k
      ensures k in after <==>
              last != Success(name, t) &&
              (k in UnclearedFailures(history, name, t) || (last == Failure(name, t) && k == |history|))
    {
      if 0 <= k <= |history| {
        SuccessAfterOneMore(history, last, k, name, t);
        assert (history + [last])[k] == if k < |history| then history[k] else last;
      }
    }
  }

  lemma {:induction false} FailuresAreEvents(history: seq<Event>, name: string, t: MetricType)
    ensures TrailingFailures(history, name, t) == |UnclearedFailures(history, name, t)|
  {
    if history != [] {
      var k := |history| - 1;
      var before := history[..k];
      FailuresAreEvents(before, name, t);
      UnclearedOneMore(before, history[k], name, t);
      assert history == before + [history[k]];
    }
  }

  /** Successes and failures are counted one by one, and a failure counts until a success follows it. */
  lemma CountsAreNumbersOfEvents(history: seq<Event>, name: string, t: MetricType)
    ensures Successes(history, name, t) == |SuccessPositions(history, name, t)|
    ensures TrailingFailures(history, name, t) == |UnclearedFailures(history, name, t)|
  {
    SuccessesAreEvents(history, name, t);
    FailuresAreEvents(history, name, t);
  }

  lemma FailuresOneMore(history: seq<Event>, last: Event, name: string, t: MetricType)
    ensures |FailurePositions(history + [last], name, t)| ==
            |FailurePositions(history, name, t)| + if last == Failure(name, t) then 1 else 0
  {
    assert FailurePositions(history + [last], name, t) ==
      FailurePositions(history, name, t) + if last == Failure(name, t) then {|history|} else {};
  }

  lemma StreakOneMore(history: seq<Event>, last: Event, name: string, t: MetricType)
    requires last != Success(name, t)
    ensures TrailingFailures(history + [last], name, t) ==
            TrailingFailures(history, name, t) + if last == Failure(name, t) then 1 else 0
  {
    assert (history + [last])[..|history|] == history;
  }

  /** Since its last success, or from the start, a client has failed as often as failures of it were reported. */
  lemma {:induction false} StreakLength(before: seq<Event>, since: seq<Event>, name: string, t: MetricType)
    requires before == [] || before[|before| - 1] == Success(name, t)
    requires Success(name, t) !in since
    ensures TrailingFailures(before + since, name, t) == |FailurePositions(since, name, t)|
    decreases |since|
  {
    if since == [] {
      assert before + since == before;
    } else {
      var earlier, last := since[..|since| - 1], since[|since| - 1];
      assert last in since;
      StreakLength(before, earlier, name, t);
      StreakOneMore(before + earlier, last, name, t);
      FailuresOneMore(earlier, last, name, t);
      LastApart(before, since);
    }
  }

  lemma LastApart(before: seq<Event>, since: seq<Event>)
    requires since != []
    ensures var earlier, last := since[..|since| - 1], since[|since| - 1];
            since == earlier + [last] && before + since == before + earlier + [last]
  {
  }

  /** Ready, said of the events: every type a server is configured for has succeeded, and of neither type have
      `threshold` failures been reported that no success has followed. */
  lemma ReadyFromEvents(servers: seq<MetricServer>, threshold: int, history: seq<Event>)
    ensures Ready(servers, threshold, history) <==>
            forall i, t :: 0 <= i < |servers| ==>
              && (Configures(servers, servers[i].name, t) ==> Success(servers[i].name, t) in history)
              && |UnclearedFailures(history, servers[i].name, t)| < threshold
  {
    forall i, t: MetricType | 0 <= i < |servers|
      ensures TypeReady(servers, threshold, history, servers[i].name, t) <==>
              && (Configures(servers, servers[i].name, t) ==> Success(servers[i].name, t) in history)
              && |UnclearedFailures(history, servers[i].name, t)| < threshold
    {
      CountsAreNumbersOfEvents(history, servers[i].name, t);
    }
    forall i, t: MetricType | 0 <= i < |servers| && Ready(servers, threshold, history)
      ensures TypeReady(servers, threshold, history, servers[i].name, t)
    {
      assert t == Custom || t == External;
    }
  }

  /** The complaint about a server, said of the events: a type without success before any streak, custom metrics
      before external ones. */
  lemma DiagnosisFromEvents(servers: seq<MetricServer>, threshold: int, history: seq<Event>, name: string)
    ensures var missing := (t: MetricType) => Configures(servers, name, t) && Success(name, t) !in history;
            var custom, external :=
              |UnclearedFailures(history, name, Custom)|, |UnclearedFailures(history, name, External)|;
            var d := Diagnosis(servers, threshold, history, name);
            && (missing(Custom) ==> d == Some(NoCustomMetricsYet))
            && (!missing(Custom) && missing(External) ==> d == Some(NoExternalMetricsYet))
            && (!missing(Custom) && !missing(External) ==>
                  && (custom >= threshold ==> d == Some(CustomFailing(custom)))
                  && (custom < threshold <= external ==> d == Some(ExternalFailing(external)))
                  && (custom < threshold && external < threshold ==> d == None))
  {
    CountsAreNumbersOfEvents(history, name, Custom);
    CountsAreNumbersOfEvents(history, name, External);
    SuccessesArePositive(history, name, Custom);
    SuccessesArePositive(history, name, External);
  }

  /** Whatever happened before, a success ends the failure streak of its client and type and touches no other
      streak; readiness is lost only to a failure. */
  lemma SuccessClearsStreak(
    servers: seq<MetricServer>, threshold: int, history: seq<Event>, name: string, t: MetricType)
    ensures TrailingFailures(history + [Success(name, t)], name, t) == 0
    ensures forall n, u :: (n, u) != (name, t) ==>
              TrailingFailures(history + [Success(name, t)], n, u) == TrailingFailures(history, n, u)
    ensures Ready(servers, threshold, history) ==> Ready(servers, threshold, history + [Success(name, t)])
  {
  }

  // ----- The counters -----

  function Count(counts: map<string, int>, name: string): int {
    if name in counts then counts[name] else 0
  }

  class Counters {
    var customMetrics: map<string, int>
    var externalMetrics: map<string, int>

    constructor ()
      ensures customMetrics == map[] && externalMetrics == map[]
    {
      customMetrics := map[];
      externalMetrics := map[];
    }

    ghost function Of(t: MetricType): map<string, int>
      reads this
    {
      if t == Custom then customMetrics else externalMetrics
    }
  }

  class Server {
    const metricServers: seq<MetricServer>
    const failureThreshold: int
    const clientFailures: Counters
    const clientSuccesses: Counters
    ghost var history: seq<Event>  // every event received so far

    /** The counters say exactly what the history says. A success counter exists for every expected type, and
        for whatever else has succeeded. */
    ghost predicate CountsAre(name: string, t: MetricType)
      reads this, clientFailures, clientSuccesses
    {
      && Count(clientFailures.Of(t), name) == TrailingFailures(history, name, t)
      && Count(clientSuccesses.Of(t), name) == Successes(history, name, t)
      && (name in clientSuccesses.Of(t) <==> Expects(metricServers, name, t) || Successes(history, name, t) > 0)
    }

    ghost predicate Valid()
      reads this, clientFailures, clientSuccesses
    {
      && clientFailures != clientSuccesses
      && forall name, t :: CountsAre(name, t)
    }

    constructor (metricServers: seq<MetricServer>, failureThreshold: int)
      ensures Valid() && fresh(clientFailures) && fresh(clientSuccesses) && history == []
      ensures this.metricServers == metricServers
      ensures this.failureThreshold == if failureThreshold == 0 then 3 else failureThreshold
    {
      this.metricServers := metricServers;
      this.failureThreshold := if failureThreshold == 0 then DEFAULT_FAILURE_THRESHOLD else failureThreshold;
      var successes := ExpectedCounters(metricServers);
      clientFailures := new Counters();
      clientSuccesses := successes;
      history := [];
    }

    method OnError(name: string, t: MetricType)
      requires Valid()
      modifies this, clientFailures
      ensures Valid() && history == old(history) + [Failure(name, t)]
    {
      if t == Custom {
        clientFailures.customMetrics :=
          clientFailures.customMetrics[name := Count(clientFailures.customMetrics, name) + 1];
      }
      if t == External {
        clientFailures.externalMetrics :=
          clientFailures.externalMetrics[name := Count(clientFailures.externalMetrics, name) + 1];
      }
      history := history + [Failure(name, t)];
      assert history[..|history| - 1] == old(history);
      forall n, u
        ensures CountsAre(n, u)
      {
        assert old(CountsAre(n, u));
      }
    }

    method UpdateCustomMetrics(name: string)
      requires Valid()
      modifies this, clientFailures, clientSuccesses
      ensures Valid() && history == old(history) + [Success(name, Custom)]
    {
      clientFailures.customMetrics := clientFailures.customMetrics[name := 0];
      clientSuccesses.customMetrics :=
        clientSuccesses.customMetrics[name := Count(clientSuccesses.customMetrics, name) + 1];
      history := history + [Success(name, Custom)];
      assert history[..|history| - 1] == old(history);
      forall n, u
        ensures CountsAre(n, u)
      {
        assert old(CountsAre(n, u));
      }
    }

    method UpdateExternalMetrics(name: string)
      requires Valid()
      modifies this, clientFailures, clientSuccesses
      ensures Valid() && history == old(history) + [Success(name, External)]
    {
      clientFailures.externalMetrics := clientFailures.externalMetrics[name := 0];
      clientSuccesses.externalMetrics :=
        clientSuccesses.externalMetrics[name := Count(clientSuccesses.externalMetrics, name) + 1];
      history := history + [Success(name, External)];
      assert history[..|history| - 1] == old(history);
      forall n, u
        ensures CountsAre(n, u)
      {
        assert old(CountsAre(n, u));
      }
    }

    /** Healthy exactly when the event history says so; otherwise the complaint about the first configured
        server that has one. */
    method IsReadyAndHealthy() returns (complaint: Option<Complaint>)
      requires Valid()
      ensures complaint == None <==> Ready(metricServers, failureThreshold, history)
      ensures complaint.Some? ==>
                exists i :: 0 <= i < |metricServers| &&
                  complaint == Diagnosis(metricServers, failureThreshold, history, metricServers[i].name) &&
                  forall j :: 0 <= j < i ==>
                    Diagnosis(metricServers, failureThreshold, history, metricServers[j].name) == None
    {
      ReadyIsNoComplaint(metricServers, failureThreshold, history);
      for i := 0 to |metricServers|
        invariant forall j :: 0 <= j < i ==>
                    Diagnosis(metricServers, failureThreshold, history, metricServers[j].name) == None
      {
        complaint := Check(metricServers[i]);
        if complaint.Some? {
          return;
        }
      }
      return None;
    }

    method Check(server: MetricServer) returns (complaint: Option<Complaint>)
      requires Valid()
      ensures complaint == Diagnosis(metricServers, failureThreshold, history, server.name)
    {
      assert CountsAre(server.name, Custom) && CountsAre(server.name, External);
      if server.name in clientSuccesses.customMetrics && clientSuccesses.customMetrics[server.name] == 0 {
        return Some(NoCustomMetricsYet);
      }
      if server.name in clientSuccesses.externalMetrics && clientSuccesses.externalMetrics[server.name] == 0 {
        return Some(NoExternalMetricsYet);
      }
      var failures := Count(clientFailures.customMetrics, server.name);
      if failures >= failureThreshold {
        return Some(CustomFailing(failures));
      }
      failures := Count(clientFailures.externalMetrics, server.name);
      if failures >= failureThreshold {
        return Some(ExternalFailing(failures));
      }
      return None;
    }
  }

  /** The success counters of NewServer: zero for every expected type of every configured server. */
  method ExpectedCounters(servers: seq<MetricServer>) returns (counters: Counters)
    ensures fresh(counters)
    ensures ZeroFor(counters.customMetrics, servers, Custom) && ZeroFor(counters.externalMetrics, servers, External)
  {
    counters := new Counters();
    for i := 0 to |servers|
      invariant fresh(counters)
      invariant ZeroFor(counters.customMetrics, servers[..i], Custom)
      invariant ZeroFor(counters.externalMetrics, servers[..i], External)
    {
      ZeroForOneMore(counters.customMetrics, servers, i, Custom);
      ZeroForOneMore(counters.externalMetrics, servers, i, External);
      var server := servers[i];
      if server.HasType(Custom) {
        counters.customMetrics := counters.customMetrics[server.name := 0];
      }
      if server.HasType(External) {
        counters.externalMetrics := counters.externalMetrics[server.name := 0];
      }
    }
    assert servers[..|servers|] == servers;
  }

  ghost predicate ZeroFor(counts: map<string, int>, servers: seq<MetricServer>, t: MetricType) {
    forall name :: (name in counts <==> Expects(servers, name, t)) && Count(counts, name) == 0
  }

  lemma ZeroForOneMore(counts: map<string, int>, servers: seq<MetricServer>, i: nat, t: MetricType)
    requires i < |servers| && ZeroFor(counts, servers[..i], t)
    ensures ZeroFor(if servers[i].HasType(t) then counts[servers[i].name := 0] else counts, servers[..i + 1], t)
  {
  }
}
