/** The refresh jobs and their scheduler as sequential code (pkg/scheduler/job.go, pkg/scheduler/scheduler.go).
    How the jobs interleave is the subject of module Protocol. */
module Scheduler {
  import opened Metrics
  import opened Config
  import opened Clients

  /** The listeners main registers. */
  datatype Listener = MonitoringServer | MetricsRegistry

  /** What a listing returns. */
  datatype Listing<+T> = Listed(infos: set<T>) | ListingFailed

  /** A call a job makes on one of its listeners. */
  datatype Call =
    | UpdateCustom(listener: Listener, cms: set<CustomMetricInfo>)
    | UpdateExternal(listener: Listener, ems: set<ExternalMetricInfo>)
    | OnError(listener: Listener, t: MetricType)

  // ----- One refresh as a function of what the two listings return -----

  function CustomCalls(listeners: seq<Listener>, cms: set<CustomMetricInfo>): (calls: seq<Call>)
    ensures |calls| == |listeners|
    ensures forall i :: 0 <= i < |listeners| ==> calls[i] == UpdateCustom(listeners[i], cms)
  {
    if listeners == [] then [] else [UpdateCustom(listeners[0], cms)] + CustomCalls(listeners[1..], cms)
  }

  function ExternalCalls(listeners: seq<Listener>, ems: set<ExternalMetricInfo>): (calls: seq<Call>)
    ensures |calls| == |listeners|
    ensures forall i :: 0 <= i < |listeners| ==> calls[i] == UpdateExternal(listeners[i], ems)
  {
    if listeners == [] then [] else [UpdateExternal(listeners[0], ems)] + ExternalCalls(listeners[1..], ems)
  }

  function ErrorCalls(listeners: seq<Listener>, t: MetricType): (calls: seq<Call>)
    ensures |calls| == |listeners|
    ensures forall i :: 0 <= i < |listeners| ==> calls[i] == OnError(listeners[i], t)
  {
    if listeners == [] then [] else [OnError(listeners[0], t)] + ErrorCalls(listeners[1..], t)
  }

  /** Every listing the server is configured for succeeds. */
  predicate Succeeds(server: MetricServer, custom: Listing<CustomMetricInfo>, external: Listing<ExternalMetricInfo>) {
    (server.HasType(Custom) ==> custom.Listed?) && (server.HasType(External) ==> external.Listed?)
  }

  /** The calls of the first half of a refresh, up to its end or to an early return. */
  function CustomHalf(
    server: MetricServer, listeners: seq<Listener>, errorListeners: seq<Listener>, custom: Listing<CustomMetricInfo>)
    : seq<Call>
  {
    if !server.HasType(Custom) then []
    else if custom.Listed? then CustomCalls(listeners, custom.infos)
    else ErrorCalls(errorListeners, Custom)
  }

  function ExternalHalf(
    server: MetricServer, listeners: seq<Listener>, errorListeners: seq<Listener>,
    external: Listing<ExternalMetricInfo>)
    : seq<Call>
  {
    if !server.HasType(External) then []
    else if external.Listed? then ExternalCalls(listeners, external.infos)
    else ErrorCalls(errorListeners, External)
  }

  /** All the calls of one refresh, in order: a failed custom listing ends it. */
  function RefreshScript(
    server: MetricServer, listeners: seq<Listener>, errorListeners: seq<Listener>,
    custom: Listing<CustomMetricInfo>, external: Listing<ExternalMetricInfo>): seq<Call>
  {
    CustomHalf(server, listeners, errorListeners, custom) +
    if server.HasType(Custom) && custom.ListingFailed? then []
    else ExternalHalf(server, listeners, errorListeners, external)
  }

  /** A listener call by each of these listeners, in order, starting at position `from`. */
  ghost predicate CallsAt(calls: seq<Call>, from: nat, listeners: seq<Listener>, call: Listener -> Call) {
    from + |listeners| <= |calls| && forall i :: 0 <= i < |listeners| ==> calls[from + i] == call(listeners[i])
  }

  /** A refresh said call by call, of the metric types of the server: a server without any is asked for both. A
      failed custom listing is all there is to report; otherwise the custom list goes to every listener and then
      the external list, or its failure, does. Only a refresh without failure counts for the first sync. */
  lemma RefreshCallByCall(
    server: MetricServer, listeners: seq<Listener>, errorListeners: seq<Listener>,
    custom: Listing<CustomMetricInfo>, external: Listing<ExternalMetricInfo>)
    ensures var asksCustom := server.metricTypes == [] || Custom in server.metricTypes;
            var asksExternal := server.metricTypes == [] || External in server.metricTypes;
            var calls := RefreshScript(server, listeners, errorListeners, custom, external);
            var n, e := |listeners|, |errorListeners|;
            && (asksCustom && custom.ListingFailed? ==>
                  |calls| == e && CallsAt(calls, 0, errorListeners, l => OnError(l, Custom)))
            && (asksCustom && custom.Listed? ==>
                  CallsAt(calls, 0, listeners, l => UpdateCustom(l, custom.infos)))
            && (asksCustom && custom.Listed? && !asksExternal ==> |calls| == n)
            && (asksCustom && custom.Listed? && asksExternal && external.Listed? ==>
                  |calls| == n + n && CallsAt(calls, n, listeners, l => UpdateExternal(l, external.infos)))
            && (asksCustom && custom.Listed? && asksExternal && external.ListingFailed? ==>
                  |calls| == n + e && CallsAt(calls, n, errorListeners, l => OnError(l, External)))
            && (!asksCustom && external.Listed? ==>
                  |calls| == n && CallsAt(calls, 0, listeners, l => UpdateExternal(l, external.infos)))
            && (!asksCustom && external.ListingFailed? ==>
                  |calls| == e && CallsAt(calls, 0, errorListeners, l => OnError(l, External)))
            && (Succeeds(server, custom, external) <==>
                  (asksCustom ==> custom.Listed?) && (asksExternal ==> external.Listed?))
  {
    if server.metricTypes != [] {
      assert server.metricTypes[0] == Custom || server.metricTypes[0] == External;
    }
  }

  // ----- Jobs -----

  class WaitGroup {
    var counter: nat

    constructor ()
      ensures counter == 0
    {
      counter := 0;
    }

    method Add(delta: nat)
      modifies this
      ensures counter == old(counter) + delta
    {
      counter := counter + delta;
    }

    /** Go panics when the counter would become negative. */
    method Done()
      requires counter > 0
      modifies this
      ensures counter == old(counter) - 1
    {
      counter := counter - 1;
    }
  }

  class MetricJob {
    const client: Client
    const server: MetricServer
    const wg: WaitGroup
    var syncDone: bool
    var listeners: seq<Listener>
    var errorListeners: seq<Listener>

    constructor (client: Client, server: MetricServer, wg: WaitGroup)
      ensures this.client == client && this.server == server && this.wg == wg
      ensures !syncDone && listeners == [] && errorListeners == []
    {
      this.client := client;
      this.server := server;
      this.wg := wg;
      syncDone := false;
      listeners := [];
      errorListeners := [];
    }

    /** One refresh, given what its two listings return: the listener calls it makes, and the once-latch, which
        fires at the first refresh all of whose listings succeed and never again. */
    method RefreshMetrics(custom: Listing<CustomMetricInfo>, external: Listing<ExternalMetricInfo>)
      returns (calls: seq<Call>)
      requires !syncDone ==> wg.counter > 0
      modifies this`syncDone, wg
      ensures calls == RefreshScript(server, listeners, errorListeners, custom, external)
      ensures syncDone == (old(syncDone) || Succeeds(server, custom, external))
      ensures wg.counter == old(wg.counter) - if syncDone && !old(syncDone) then 1 else 0
    {
      calls := [];
      if server.HasType(Custom) {
        if custom.ListingFailed? {
          calls := PublishError(Custom);
          return;
        }
        calls := PublishCustom(custom.infos);
      }
      if server.HasType(External) {
        if external.ListingFailed? {
          var errors := PublishError(External);
          calls := calls + errors;
          return;
        }
        var more := PublishExternal(external.infos);
        calls := calls + more;
      }
      if !syncDone {
        wg.Done();
        syncDone := true;
      }
    }

    method PublishCustom(cms: set<CustomMetricInfo>) returns (calls: seq<Call>)
      ensures calls == CustomCalls(listeners, cms)
    {
      calls := [];
      for i := 0 to |listeners|
        invariant calls == CustomCalls(listeners, cms)[..i]
      {
        calls := calls + [UpdateCustom(listeners[i], cms)];
      }
    }

    method PublishExternal(ems: set<ExternalMetricInfo>) returns (calls: seq<Call>)
      ensures calls == ExternalCalls(listeners, ems)
    {
      calls := [];
      for i := 0 to |listeners|
        invariant calls == ExternalCalls(listeners, ems)[..i]
      {
        calls := calls + [UpdateExternal(listeners[i], ems)];
      }
    }

    method PublishError(t: MetricType) returns (calls: seq<Call>)
      ensures calls == ErrorCalls(errorListeners, t)
    {
      calls := [];
      for i := 0 to |errorListeners|
        invariant calls == ErrorCalls(errorListeners, t)[..i]
      {
        calls := calls + [OnError(errorListeners[i], t)];
      }
    }

    /** The scheduler hands the listeners over one by one. */
    method WithMetricListeners(more: seq<Listener>)
      modifies this`listeners
      ensures listeners == old(listeners) + more
    {
      for j := 0 to |more|
        invariant listeners == old(listeners) + more[..j]
      {
        listeners := listeners + [more[j]];
      }
    }

    method WithErrorListeners(more: seq<Listener>)
      modifies this`errorListeners
      ensures errorListeners == old(errorListeners) + more
    {
      for j := 0 to |more|
        invariant errorListeners == old(errorListeners) + more[..j]
      {
        errorListeners := errorListeners + [more[j]];
      }
    }
  }

  // ----- The scheduler -----

  function Latches(jobs: seq<MetricJob>): (latches: seq<bool>)
    reads jobs`syncDone
    ensures |latches| == |jobs| && forall i :: 0 <= i < |jobs| ==> latches[i] == jobs[i].syncDone
  {
    if jobs == [] then [] else [jobs[0].syncDone] + Latches(jobs[1..])
  }

  /** How many latches have not fired. */
  function Pending(latches: seq<bool>): nat {
    if latches == [] then 0 else (if latches[0] then 0 else 1) + Pending(latches[1..])
  }

  lemma {:induction false} PendingAfterFiring(latches: seq<bool>, i: nat)
    requires i < |latches|
    ensures Pending(latches[i := true]) == Pending(latches) - if latches[i] then 0 else 1
  {
    if i == 0 {
      assert latches[0 := true][1..] == latches[1..];
    } else {
      assert latches[i := true][1..] == latches[1..][i - 1 := true];
      PendingAfterFiring(latches[1..], i - 1);
    }
  }

  /** Only this latch may have fired in between. */
  lemma OneLatch(before: seq<bool>, after: seq<bool>, i: nat)
    requires i < |before| == |after| && (before[i] ==> after[i])
    requires forall k :: 0 <= k < |before| && k != i ==> after[k] == before[k]
    ensures after == before[i := after[i]]
    ensures Pending(after) == Pending(before) - if after[i] && !before[i] then 1 else 0
  {
    PendingAfterFiring(before, i);
    assert after == if after[i] then before[i := true] else before;
  }

  lemma {:induction false} NothingPending(latches: seq<bool>)
    ensures Pending(latches) == 0 <==> forall i :: 0 <= i < |latches| ==> latches[i]
  {
    if latches != [] {
      NothingPending(latches[1..]);
      assert forall i :: 0 < i < |latches| ==> latches[i] == latches[1..][i - 1];
    }
  }

  lemma {:induction false} PendingAtStart(latches: seq<bool>)
    requires forall i :: 0 <= i < |latches| ==> !latches[i]
    ensures Pending(latches) == |latches|
  {
    if latches != [] {
      PendingAtStart(latches[1..]);
    }
  }

  class Scheduler {
    const wg: WaitGroup
    var sources: seq<MetricJob>

    /** The wait group counts the jobs whose latch has not fired. */
    ghost predicate Valid()
      reads this, sources`syncDone, wg
    {
      && (forall i, j :: 0 <= i < j < |sources| ==> sources[i] != sources[j])
      && (forall i :: 0 <= i < |sources| ==> sources[i].wg == wg)
      && wg.counter == Pending(Latches(sources))
    }

    /** NewScheduler: one job per client, in order, without listeners. */
    constructor (clients: seq<Client>, servers: seq<MetricServer>)
      requires |clients| == |servers|
      ensures Valid() && fresh(wg) && fresh(sources) && |sources| == |clients| == wg.counter
      ensures forall i :: 0 <= i < |sources| ==>
                && sources[i].client == clients[i] && sources[i].server == servers[i]
                && !sources[i].syncDone && sources[i].listeners == [] && sources[i].errorListeners == []
    {
      var group := new WaitGroup();
      var jobs: seq<MetricJob> := [];
      for i := 0 to |clients|
        invariant |jobs| == i && fresh(group) && group.counter == 0
        invariant forall k :: 0 <= k < i ==> fresh(jobs[k])
        invariant forall k, l :: 0 <= k < l < i ==> jobs[k] != jobs[l]
        invariant forall k :: 0 <= k < i ==>
                    && jobs[k].client == clients[k] && jobs[k].server == servers[k] && jobs[k].wg == group
                    && !jobs[k].syncDone && jobs[k].listeners == [] && jobs[k].errorListeners == []
      {
        var job := new MetricJob(clients[i], servers[i], group);
        jobs := jobs + [job];
      }
      group.Add(|clients|);
      wg := group;
      sources := jobs;
      new;
      PendingAtStart(Latches(sources));
    }

    /** Every job gets all the listeners, in the order given. */
    method WithMetricListeners(listeners: seq<Listener>)
      requires Valid()
      modifies sources`listeners
      ensures Valid()
      ensures forall i :: 0 <= i < |sources| ==> sources[i].listeners == old(sources[i].listeners) + listeners
    {
      for i := 0 to |sources|
        invariant forall k :: 0 <= k < i ==> sources[k].listeners == old(sources[k].listeners) + listeners
        invariant forall k :: i <= k < |sources| ==> sources[k].listeners == old(sources[k].listeners)
      {
        sources[i].WithMetricListeners(listeners);
      }
    }

    method WithErrorListeners(listeners: seq<Listener>)
      requires Valid()
      modifies sources`errorListeners
      ensures Valid()
      ensures forall i :: 0 <= i < |sources| ==> sources[i].errorListeners == old(sources[i].errorListeners) + listeners
    {
      for i := 0 to |sources|
        invariant forall k :: 0 <= k < i ==> sources[k].errorListeners == old(sources[k].errorListeners) + listeners
        invariant forall k :: i <= k < |sources| ==> sources[k].errorListeners == old(sources[k].errorListeners)
      {
        sources[i].WithErrorListeners(listeners);
      }
    }

    /** A refresh of one job keeps the wait group in step with the latches, never goes below zero, and fires
        at most its own latch. */
    method Refresh(i: nat, custom: Listing<CustomMetricInfo>, external: Listing<ExternalMetricInfo>)
      returns (calls: seq<Call>)
      requires Valid() && i < |sources|
      modifies sources`syncDone, wg
      ensures Valid() && wg.counter <= old(wg.counter)
      ensures calls == RefreshScript(sources[i].server, sources[i].listeners, sources[i].errorListeners,
                                     custom, external)
      ensures Latches(sources) ==
              old(Latches(sources))[i := old(sources[i].syncDone) || Succeeds(sources[i].server, custom, external)]
    {
      ghost var before := Latches(sources);
      NothingPending(before);
      calls := sources[i].RefreshMetrics(custom, external);
      OneLatch(before, Latches(sources), i);
    }

    /** WaitInitialSync returns when the counter is zero: then, and only then, every latch has fired. */
    method InitialSyncReached() returns (reached: bool)
      requires Valid()
      ensures reached <==> forall i :: 0 <= i < |sources| ==> sources[i].syncDone
    {
      NothingPending(Latches(sources));
      reached := wg.counter == 0;
    }
  }

  const LISTENERS: seq<Listener> := [MonitoringServer, MetricsRegistry]
  const ERROR_LISTENERS: seq<Listener> := [MonitoringServer]

  /** The construction in main: every job hears the monitoring server first and the registry second. */
  method Assemble(clients: seq<Client>, servers: seq<MetricServer>) returns (scheduler: Scheduler)
    requires |clients| == |servers|
    ensures scheduler.Valid() && |scheduler.sources| == |clients| && scheduler.wg.counter == |clients|
    ensures forall i :: 0 <= i < |clients| ==>
              var job := scheduler.sources[i];
              && job.client == clients[i] && job.server == servers[i] && !job.syncDone
              && job.listeners == LISTENERS == [MonitoringServer, MetricsRegistry]
              && job.errorListeners == ERROR_LISTENERS == [MonitoringServer]
  {
    scheduler := new Scheduler(clients, servers);
    scheduler.WithMetricListeners(LISTENERS);
    scheduler.WithErrorListeners(ERROR_LISTENERS);
    assert [] + LISTENERS == LISTENERS && [] + ERROR_LISTENERS == ERROR_LISTENERS;
  }
}
