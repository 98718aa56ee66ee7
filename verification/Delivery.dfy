/** The listener calls of a job reaching the two listeners main builds, the monitoring server and the registry
    (main.go, pkg/scheduler/job.go): the objects change exactly as the steps of module Protocol say. */
module Delivery {
  import opened Wrappers
  import opened Metrics
  import opened Config
  import opened Clients
  import opened Registry
  import opened Discovery
  import opened Monitoring
  import opened Scheduler
  import opened Protocol

  class Listeners {
    const monitoring: Server
    const registry: Registry

    ghost function Footprint(): set<object>
      reads this, registry, registry.Footprint()
    {
      {this, monitoring, monitoring.clientFailures, monitoring.clientSuccesses, registry} +
      registry.Footprint()
    }

    ghost predicate Valid()
      reads this, Footprint()
    {
      monitoring.Valid() && registry.Valid()
    }

    /** What the objects hold, as the protocol sees it. */
    ghost function View(): Shared
      reads this, Footprint()
    {
      Shared(monitoring.history, registry.customMetrics.Table(), registry.customMetrics.updates,
             registry.externalMetrics.Table(), registry.externalMetrics.updates)
    }

    constructor (metricServers: seq<MetricServer>, failureThreshold: int)
      ensures Valid() && fresh(Footprint()) && View() == Shared([], map[], [], map[], [])
      ensures monitoring.metricServers == metricServers
    {
      var index := new Registry();
      var server := new Server(metricServers, failureThreshold);
      monitoring, registry := server, index;
      new;
      assert registry.Valid();
    }

    method ToMonitoring(client: Client, call: Call)
      requires Valid() && call.listener == MonitoringServer
      modifies monitoring, monitoring.clientFailures, monitoring.clientSuccesses
      ensures Valid() && Applied(client, Some(call), old(View()), View())
    {
      match call
      case UpdateCustom(_, _) => monitoring.UpdateCustomMetrics(client.name);
      case UpdateExternal(_, _) => monitoring.UpdateExternalMetrics(client.name);
      case OnError(_, t) => monitoring.OnError(client.name, t);
    }

    method ToRegistry(client: Client, call: Call)
      requires Valid() && call.listener == MetricsRegistry
      modifies registry.Footprint()
      ensures Valid() && fresh(Footprint() - old(Footprint()))
      ensures Applied(client, Some(call), old(View()), View())
    {
      match call
      case UpdateCustom(_, cms) =>
        registry.UpdateCustomMetrics(client, cms);
        assert monitoring.Valid();
      case UpdateExternal(_, ems) =>
        registry.UpdateExternalMetrics(client, ems);
        assert monitoring.Valid();
      case OnError(_, _) =>
    }

    /** One call on one listener. The registry is no error listener. */
    method Deliver(client: Client, call: Call)
      requires Valid()
      modifies Footprint()
      ensures Valid() && fresh(Footprint() - old(Footprint()))
      ensures Applied(client, Some(call), old(View()), View())
    {
      if call.listener == MonitoringServer {
        ToMonitoring(client, call);
      } else {
        ToRegistry(client, call);
      }
    }

    /** The calls of one refresh, as MetricJob.RefreshMetrics returns them, reach the listeners in that order. */
    method DeliverAll(client: Client, calls: seq<Call>)
      requires Valid()
      modifies Footprint()
      ensures Valid() && fresh(Footprint() - old(Footprint()))
      ensures AppliedAll(client, calls, old(View()), View())
    {
      ghost var start := View();
      for i := 0 to |calls|
        invariant Valid() && fresh(Footprint() - old(Footprint()))
        invariant AppliedAll(client, calls[..i], start, View())
      {
        ghost var before := View();
        Deliver(client, calls[i]);
        AppliedOneMore(client, calls[..i], calls[i], start, before, View());
        assert calls[..i + 1] == calls[..i] + [calls[i]];
      }
      assert calls[..|calls|] == calls;
    }
  }

  /** What an Elasticsearch client lists is what the protocol takes it to hold, and a step of the protocol may swap
      it in; a listing that fails, or panics, leaves the client as it was. */
  method ListElasticsearch(client: MetricsClient, responses: seq<Response>)
    returns (outcome: Outcome<set<CustomMetricInfo>>)
    requires client.Valid() && client.config.serverType == Elasticsearch
    requires |responses| == |client.config.metricSets|
    modifies client
    ensures client.Valid()
    ensures outcome.Done? ==>
              && client.Current().Some?
              && outcome.value == Infos(Elastic(client.Current().value))
              && Obtainable(client.config, Elastic(client.Current().value))
    ensures !outcome.Done? ==> client.Current() == old(client.Current())
  {
    outcome := client.ListCustomMetricInfos(responses);
  }

  /** These calls, in this order, take the listeners from one state to another. */
  ghost predicate AppliedAll(client: Client, calls: seq<Call>, w: Shared, after: Shared)
    decreases |calls|
  {
    if calls == [] then after == w
    else exists between: Shared ::
           Applied(client, Some(calls[0]), w, between) && AppliedAll(client, calls[1..], between, after)
  }

  lemma {:induction false} AppliedOneMore(
    client: Client, calls: seq<Call>, call: Call, w: Shared, between: Shared, after: Shared)
    requires AppliedAll(client, calls, w, between) && Applied(client, Some(call), between, after)
    ensures AppliedAll(client, calls + [call], w, after)
    decreases |calls|
  {
    if calls == [] {
      assert (calls + [call])[1..] == [];
      assert AppliedAll(client, [], after, after);
    } else {
      var first: Shared :| Applied(client, Some(calls[0]), w, first) && AppliedAll(client, calls[1..], first, between);
      AppliedOneMore(client, calls[1..], call, first, between, after);
      assert (calls + [call])[1..] == calls[1..] + [call];
    }
  }

  lemma {:induction false} AppliedSplit(client: Client, a: seq<Call>, b: seq<Call>, w: Shared, after: Shared)
    returns (between: Shared)
    requires AppliedAll(client, a + b, w, after)
    ensures AppliedAll(client, a, w, between) && AppliedAll(client, b, between, after)
    decreases |a|
  {
    if a == [] {
      assert a + b == b;
      between := w;
    } else {
      assert (a + b)[1..] == a[1..] + b;
      var first: Shared :| Applied(client, Some(a[0]), w, first) && AppliedAll(client, a[1..] + b, first, after);
      between := AppliedSplit(client, a[1..], b, first, after);
    }
  }

  lemma AppliedOne(client: Client, calls: seq<Call>, w: Shared, after: Shared)
    requires |calls| == 1 && AppliedAll(client, calls, w, after)
    ensures Applied(client, Some(calls[0]), w, after)
  {
  }

  lemma AppliedTwo(client: Client, calls: seq<Call>, w: Shared, after: Shared) returns (between: Shared)
    requires |calls| == 2 && AppliedAll(client, calls, w, after)
    ensures Applied(client, Some(calls[0]), w, between) && Applied(client, Some(calls[1]), between, after)
  {
    between :| Applied(client, Some(calls[0]), w, between) && AppliedAll(client, calls[1..], between, after);
    AppliedOne(client, calls[1..], between, after);
  }

  // ----- Every sequential refresh is a run of the protocol -----

  /** What the listings of a server may return: a custom list is what the client then holds, and an Elasticsearch
      client always lists no external metric. */
  ghost predicate Possible(
    server: MetricServer, snapshot: Snapshot, custom: Listing<CustomMetricInfo>, external: Listing<ExternalMetricInfo>)
  {
    && (custom.Listed? ==> Obtainable(server, snapshot) && Infos(snapshot) == custom.infos)
    && (server.serverType == Elasticsearch ==> external == Listed({}))
  }

  lemma CustomHalfRuns(
    servers: seq<MetricServer>, s: State, j: nat, snapshot: Snapshot, w: Shared) returns (after: State)
    requires Reachable(servers, s) && j < |servers| && s.jobs[j].phase.ListingCustom?
    requires Obtainable(servers[j], snapshot)
    requires AppliedAll(ClientOf(servers, j), CustomCalls(LISTENERS, Infos(snapshot)), s.shared, w)
    ensures Reachable(servers, after) && after.shared == w && after.jobs[j].phase == AfterCustom(servers[j])
    ensures after.jobs[j].latch == s.jobs[j].latch
  {
    var calls := CustomCalls(LISTENERS, Infos(snapshot));
    var between := AppliedTwo(ClientOf(servers, j), calls, s.shared, w);
    after := StepReachable(servers, s, j, DiscoverySwaps(snapshot), s.shared);
    after := StepReachable(servers, after, j, CustomListReturns, s.shared);
    after := StepReachable(servers, after, j, CallsListener, between);
    after := StepReachable(servers, after, j, CallsListener, w);
  }

  lemma ExternalHalfRuns(
    servers: seq<MetricServer>, s: State, j: nat, ems: set<ExternalMetricInfo>, w: Shared) returns (after: State)
    requires Reachable(servers, s) && j < |servers| && s.jobs[j].phase.ListingExternal?
    requires servers[j].serverType == Elasticsearch ==> ems == {}
    requires AppliedAll(ClientOf(servers, j), ExternalCalls(LISTENERS, ems), s.shared, w)
    ensures Reachable(servers, after) && after.shared == w && after.jobs[j].phase == Syncing
    ensures after.jobs[j].latch == s.jobs[j].latch
  {
    var between := AppliedTwo(ClientOf(servers, j), ExternalCalls(LISTENERS, ems), s.shared, w);
    after := StepReachable(servers, s, j, ExternalListReturns(ems), s.shared);
    after := StepReachable(servers, after, j, CallsListener, between);
    after := StepReachable(servers, after, j, CallsListener, w);
  }

  lemma ErrorRuns(servers: seq<MetricServer>, s: State, j: nat, w: Shared) returns (after: State)
    requires Reachable(servers, s) && j < |servers|
    requires s.jobs[j].phase.ListingCustom? ||
             (s.jobs[j].phase.ListingExternal? && servers[j].serverType == CustomApi)
    requires AppliedAll(ClientOf(servers, j),
                        ErrorCalls(ERROR_LISTENERS, if s.jobs[j].phase.ListingCustom? then Custom else External),
                        s.shared, w)
    ensures Reachable(servers, after) && after.shared == w && after.jobs[j].phase == Idle
    ensures after.jobs[j].latch == s.jobs[j].latch
  {
    AppliedOne(ClientOf(servers, j),
               ErrorCalls(ERROR_LISTENERS, if s.jobs[j].phase.ListingCustom? then Custom else External), s.shared, w);
    after := StepReachable(servers, s, j, if s.jobs[j].phase.ListingCustom? then DiscoveryFails else ExternalListFails,
                           s.shared);
    after := StepReachable(servers, after, j, CallsErrorListener, w);
  }

  lemma RestRuns(
    servers: seq<MetricServer>, s: State, j: nat, external: Listing<ExternalMetricInfo>, w: Shared)
    returns (after: State)
    requires Reachable(servers, s) && j < |servers| && s.jobs[j].phase == AfterCustom(servers[j])
    requires servers[j].serverType == Elasticsearch ==> external == Listed({})
    requires AppliedAll(ClientOf(servers, j), ExternalHalf(servers[j], LISTENERS, ERROR_LISTENERS, external),
                        s.shared, w)
    ensures Reachable(servers, after) && after.shared == w && after.jobs[j].phase == Idle
    ensures after.jobs[j].latch == (s.jobs[j].latch || (servers[j].HasType(External) ==> external.Listed?))
  {
    after := s;
    if servers[j].HasType(External) {
      if external.ListingFailed? {
        after := ErrorRuns(servers, s, j, w);
        return;
      }
      after := ExternalHalfRuns(servers, s, j, external.infos, w);
    }
    after := StepReachable(servers, after, j, Syncs, w);
  }

  /** Whatever a refresh of the sequential code does to the listeners, from any reachable state, some run of the
      protocol does too; it ends with the job idle and the latch as the code leaves it. */
  lemma SequentialRefreshIsARun(
    servers: seq<MetricServer>, s: State, j: nat, snapshot: Snapshot,
    custom: Listing<CustomMetricInfo>, external: Listing<ExternalMetricInfo>, w: Shared) returns (after: State)
    requires Reachable(servers, s) && j < |servers| && (s.jobs[j].phase.Idle? || s.jobs[j].phase.NotStarted?)
    requires Possible(servers[j], snapshot, custom, external)
    requires AppliedAll(ClientOf(servers, j),
                        RefreshScript(servers[j], LISTENERS, ERROR_LISTENERS, custom, external), s.shared, w)
    ensures Reachable(servers, after) && after.shared == w && after.jobs[j].phase.Idle?
    ensures after.jobs[j].latch == (s.jobs[j].latch || Succeeds(servers[j], custom, external))
  {
    var server, client := servers[j], ClientOf(servers, j);
    var half := CustomHalf(server, LISTENERS, ERROR_LISTENERS, custom);
    var rest := ExternalHalf(server, LISTENERS, ERROR_LISTENERS, external);
    after := StepReachable(servers, s, j, Begins, s.shared);
    if server.HasType(Custom) && custom.ListingFailed? {
      assert half + [] == half;
      after := ErrorRuns(servers, after, j, w);
      return;
    }
    var between := AppliedSplit(client, half, rest, s.shared, w);
    if server.HasType(Custom) {
      after := CustomHalfRuns(servers, after, j, snapshot, between);
    }
    after := RestRuns(servers, after, j, external, w);
  }
}
