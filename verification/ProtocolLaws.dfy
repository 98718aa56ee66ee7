/** What holds in every state that the protocol can reach, from the configuration to the answer of a lookup. */
module ProtocolLaws {
  import opened Wrappers
  import opened Metrics
  import opened Config
  import opened Clients
  import opened Routing
  import opened Discovery
  import opened DiscoveryLaws
  import opened OrderLaws
  import opened Monitoring
  import opened Scheduler
  import opened Protocol

  // ----- The initial sync -----

  /** When WaitInitialSync has returned, each job has completed a refresh in which every enabled listing
      succeeded and which made all its calls in order, the registry has received from the client the very lists
      of that refresh, and monitoring has counted at least one success for every enabled type. */
  lemma InitialSyncBarrier(servers: seq<MetricServer>, s: State, j: nat)
    requires Configured(servers) && Reachable(servers, s) && j < |servers|
    requires s.released
    ensures var server, job := servers[j], s.jobs[j];
            && job.latch && job.firstSync.Some?
            && Succeeds(server, job.firstSync.value.custom, job.firstSync.value.external)
            && job.firstSync.value.calls == RefreshScript(server, LISTENERS, ERROR_LISTENERS,
                                                          job.firstSync.value.custom, job.firstSync.value.external)
            && (server.HasType(Custom) ==>
                  && server.name in PublishedBy(s.shared.customUpdates)
                  && Publication(ClientOf(servers, j), job.firstSync.value.custom.infos) in
                     UpdatesOf(s.shared.customUpdates, server.name)
                  && Successes(s.shared.events, server.name, Custom) >= 1)
            && (server.HasType(External) ==>
                  && server.name in PublishedBy(s.shared.externalUpdates)
                  && Publication(ClientOf(servers, j), job.firstSync.value.external.infos) in
                     UpdatesOf(s.shared.externalUpdates, server.name)
                  && Successes(s.shared.events, server.name, External) >= 1)
  {
    ReachableInv(servers, s);
    NothingPending(JobLatches(s.jobs));
    assert JobInv(servers[j], ClientOf(servers, j), s.jobs[j], s.shared);
    assert JobLatches(s.jobs)[j];
    LatestPublication(s.shared.customUpdates, servers[j].name);
    LatestPublication(s.shared.externalUpdates, servers[j].name);
  }

  /** The wait group is the number of jobs whose latch has not fired, so it is never negative. */
  lemma WaitGroupCountsLatches(servers: seq<MetricServer>, s: State)
    requires Configured(servers) && Reachable(servers, s)
    ensures s.wg == Pending(JobLatches(s.jobs))
    ensures s.wg == 0 <==> forall j :: 0 <= j < |servers| ==> s.jobs[j].latch
  {
    ReachableInv(servers, s);
    NothingPending(JobLatches(s.jobs));
  }

  /** Along an execution the wait group never increases, a fired latch stays fired, and main stays released. */
  lemma {:induction false} ProgressIsKept(
    servers: seq<MetricServer>, states: seq<State>, steps: seq<Step>, i: nat, k: nat)
    requires IsExecution(servers, states, steps) && i <= k <= |steps|
    ensures |states[i].jobs| == |states[k].jobs| == |servers|
    ensures states[k].wg <= states[i].wg
    ensures forall j :: 0 <= j < |servers| && states[i].jobs[j].latch ==> states[k].jobs[j].latch
    ensures states[i].released ==> states[k].released
    decreases k
  {
    if k > 0 {
      if i < k {
        ProgressIsKept(servers, states, steps, i, k - 1);
      } else {
        ProgressIsKept(servers, states, steps, k - 1, k - 1);
      }
      assert Next(servers, states[k - 1], steps[k - 1], states[k]);
    }
  }

  /** In every reachable state, the listener calls a job has made in its current refresh are an initial part of
      those the sequential code makes for what its listings returned, and all of them once the refresh is over:
      no interleaving reorders, repeats or loses a call. */
  lemma CallsFollowScript(servers: seq<MetricServer>, s: State, j: nat)
    returns (custom: Listing<CustomMetricInfo>, external: Listing<ExternalMetricInfo>)
    requires Configured(servers) && Reachable(servers, s) && j < |servers|
    ensures s.jobs[j].calls <= RefreshScript(servers[j], LISTENERS, ERROR_LISTENERS, custom, external)
    ensures s.jobs[j].phase.Idle? ==>
              s.jobs[j].calls == RefreshScript(servers[j], LISTENERS, ERROR_LISTENERS, custom, external)
    ensures !s.jobs[j].phase.NotStarted? && !s.jobs[j].phase.ListingCustom? ==> custom == s.jobs[j].custom
    ensures s.jobs[j].phase.Idle? || s.jobs[j].phase.Syncing? ==> external == s.jobs[j].external
  {
    ReachableInv(servers, s);
    assert JobInv(servers[j], ClientOf(servers, j), s.jobs[j], s.shared);
    custom, external := s.jobs[j].custom, s.jobs[j].external;
  }

  // ----- Readiness and routability -----

  /** For each client and type, monitoring has counted as many successes as the registry has received
      updates, plus one exactly while the job stands between the two calls. */
  lemma PublicationLag(servers: seq<MetricServer>, s: State, j: nat)
    requires Configured(servers) && Reachable(servers, s) && j < |servers|
    ensures var name, phase := servers[j].name, s.jobs[j].phase;
            && Successes(s.shared.events, name, Custom) ==
               |UpdatesOf(s.shared.customUpdates, name)| +
               (if phase.PublishingCustom? && phase.k == 1 then 1 else 0)
            && Successes(s.shared.events, name, External) ==
               |UpdatesOf(s.shared.externalUpdates, name)| +
               (if phase.PublishingExternal? && phase.k == 1 then 1 else 0)
  {
    ReachableInv(servers, s);
    assert JobInv(servers[j], ClientOf(servers, j), s.jobs[j], s.shared);
  }

  /** Between two refreshes the failure streaks that the probe reads tell how the last refresh went: the custom
      streak is empty iff its custom listing succeeded, and, if the refresh got that far, likewise the external
      one. */
  lemma ProbeSeesLastRefresh(servers: seq<MetricServer>, s: State, j: nat)
    requires Configured(servers) && Reachable(servers, s) && j < |servers| && s.jobs[j].phase.Idle?
    ensures var server, job := servers[j], s.jobs[j];
            && (server.HasType(Custom) ==>
                  (TrailingFailures(s.shared.events, server.name, Custom) == 0 <==> job.custom.Listed?))
            && (server.HasType(External) && (server.HasType(Custom) ==> job.custom.Listed?) ==>
                  (TrailingFailures(s.shared.events, server.name, External) == 0 <==> job.external.Listed?))
            && job.calls == RefreshScript(server, LISTENERS, ERROR_LISTENERS, job.custom, job.external)
  {
    ReachableInv(servers, s);
    assert JobInv(servers[j], ClientOf(servers, j), s.jobs[j], s.shared);
  }

  /** If the readiness probe succeeds, then an enabled type of a server is missing from the registry exactly
      when its first publication is in flight: counted by monitoring, once, and not yet handed to the registry. */
  lemma ReadyMeansRoutable(
    servers: seq<MetricServer>, s: State, threshold: int, j: nat)
    requires Configured(servers) && Reachable(servers, s) && j < |servers|
    requires Ready(servers, threshold, s.shared.events)
    ensures var server, phase, w := servers[j], s.jobs[j].phase, s.shared;
            && (server.HasType(Custom) ==>
                  (server.name !in PublishedBy(w.customUpdates) <==>
                   phase.PublishingCustom? && phase.k == 1 && Successes(w.events, server.name, Custom) == 1))
            && (server.HasType(External) ==>
                  (server.name !in PublishedBy(w.externalUpdates) <==>
                   phase.PublishingExternal? && phase.k == 1 && Successes(w.events, server.name, External) == 1))
  {
    var server := servers[j];
    PublicationLag(servers, s, j);
    LatestPublication(s.shared.customUpdates, server.name);
    LatestPublication(s.shared.externalUpdates, server.name);
    ReadyCountsSuccess(servers, threshold, s.shared.events, j, Custom);
    ReadyCountsSuccess(servers, threshold, s.shared.events, j, External);
  }

  lemma ReadyCountsSuccess(servers: seq<MetricServer>, threshold: int, history: seq<Event>, j: nat, t: MetricType)
    requires Ready(servers, threshold, history) && j < |servers|
    ensures servers[j].HasType(t) ==> Successes(history, servers[j].name, t) >= 1
  {
    assert TypeReady(servers, threshold, history, servers[j].name, t);
    assert servers[j].HasType(t) ==> Expects(servers, servers[j].name, t);
    SuccessesArePositive(history, servers[j].name, t);
  }

  /** The window is real: one server, four steps, and the probe succeeds while nothing is routable yet. */
  lemma ReadyBeforeRoutable() returns (servers: seq<MetricServer>, s: State)
    ensures Configured(servers) && Reachable(servers, s) && |servers| == 1
    ensures Ready(servers, DEFAULT_FAILURE_THRESHOLD, s.shared.events)
    ensures s.jobs[0].phase.PublishingCustom? && s.jobs[0].phase.cms != {} && s.shared.custom == map[]
  {
    var server := MetricServer("adapter", CustomApi, [Custom], [], NoRename, 0);
    servers := [server];
    s := CountedNotRouted(server, Remote({CustomMetricInfo("", "pods", true, "requests")}));
    ReadyAfterOneSuccess(server);
  }

  /** The first listing of a lone server has been counted and not yet handed to the registry. */
  lemma CountedNotRouted(server: MetricServer, snapshot: Snapshot) returns (s: State)
    requires server.metricTypes == [Custom] && Obtainable(server, snapshot)
    ensures Reachable([server], s) && s.wg == 1
    ensures s.shared == Shared([Success(server.name, Custom)], map[], [], map[], [])
    ensures s.jobs[0].phase == PublishingCustom(1, Infos(snapshot)) && s.jobs[0].snapshot == Some(snapshot)
    ensures !s.jobs[0].latch && !s.released
  {
    var w := Shared([], map[], [], map[], []);
    var job := Job(NotStarted, None, ListingFailed, ListingFailed, [], false, None);
    var init := State([job], 1, false, w);
    InitReachable([server], init);
    s := OneJobStep(server, init, Begins, w);
    s := OneJobStep(server, s, DiscoverySwaps(snapshot), w);
    s := OneJobStep(server, s, CustomListReturns, w);
    s := OneJobStep(server, s, CallsListener, w.(events := [Success(server.name, Custom)]));
  }

  lemma ReadyAfterOneSuccess(server: MetricServer)
    requires server.metricTypes == [Custom]
    ensures Ready([server], DEFAULT_FAILURE_THRESHOLD, [Success(server.name, Custom)])
  {
    var history := [Success(server.name, Custom)];
    assert history[0] == Success(server.name, Custom) && history[..0] == [];
    assert TypeReady([server], DEFAULT_FAILURE_THRESHOLD, history, server.name, Custom);
    assert TypeReady([server], DEFAULT_FAILURE_THRESHOLD, history, server.name, External);
  }

  lemma OneJobStep(server: MetricServer, s: State, a: Action, w: Shared) returns (after: State)
    requires Reachable([server], s) && Enabled(server, s.jobs[0], a)
    requires Applied(ClientOf([server], 0), CallMade(server, s.jobs[0], a), s.shared, w)
    ensures Reachable([server], after)
    ensures after == s.(jobs := [Moved(server, s.jobs[0], a)], shared := w,
                        wg := if a.Syncs? && !s.jobs[0].latch then s.wg - 1 else s.wg)
  {
    after := StepReachable([server], s, 0, a, w);
    assert after.jobs == [Moved(server, s.jobs[0], a)];
  }

  // ----- Routing -----

  /** The last configured server whose latest publication contains the metric, if any. */
  function LastPublisher<M>(servers: seq<MetricServer>, published: Published<M>, metric: M): (j: Option<nat>)
    ensures match j
            case None => forall i :: 0 <= i < |servers| ==>
                           !(servers[i].name in published && metric in published[servers[i].name].metrics)
            case Some(k) =>
              && k < |servers| && servers[k].name in published && metric in published[servers[k].name].metrics
              && forall i :: k < i < |servers| ==>
                   !(servers[i].name in published && metric in published[servers[i].name].metrics)
  {
    if servers == [] then None
    else
      var k := |servers| - 1;
      if servers[k].name in published && metric in published[servers[k].name].metrics then Some(k)
      else LastPublisher(servers[..k], published, metric)
  }

  /** Clients of distinct servers have distinct priorities, so nothing is left to the unstable sort. */
  lemma NothingIsAmbiguous<M(!new)>(servers: seq<MetricServer>, updates: seq<Publication<M>>)
    requires Configured(servers) && PublishersKnown(servers, updates)
    ensures UnambiguousPriorities(PublishedBy(updates))
  {
  }

  lemma NoPublisherNoRoute<M(!new)>(
    servers: seq<MetricServer>, updates: seq<Publication<M>>, table: Table<M>, metric: M)
    requires Configured(servers) && PublishersKnown(servers, updates) && Agrees(table, PublishedBy(updates))
    requires LastPublisher(servers, PublishedBy(updates), metric) == None
    ensures Best(table, metric) == None
  {
    var p := PublishedBy(updates);
    RoutingIsOptimal(table, p, metric);
    assert forall n :: n in p ==> metric !in p[n].metrics;
  }

  lemma LastPublisherIsBest<M(!new)>(
    servers: seq<MetricServer>, updates: seq<Publication<M>>, table: Table<M>, metric: M, k: nat)
    requires Configured(servers) && PublishersKnown(servers, updates) && Agrees(table, PublishedBy(updates))
    requires LastPublisher(servers, PublishedBy(updates), metric) == Some(k)
    ensures Best(table, metric) == Some(ClientOf(servers, k))
  {
    var p := PublishedBy(updates);
    RoutingIsOptimal(table, p, metric);
    KnownClient(servers, updates, k);
    assert p[servers[k].name].client in Servers(p, metric);
    var c := Best(table, metric).value;
    var n :| n in p && metric in p[n].metrics && p[n].client == c;
    var i :| 0 <= i < |servers| && servers[i].name == n && p[n].client == ClientOf(servers, i);
    assert c.priority >= k && c.priority == i;
  }

  lemma PublisherIsConfigured<M(!new)>(
    servers: seq<MetricServer>, updates: seq<Publication<M>>, table: Table<M>, metric: M)
    requires Configured(servers) && PublishersKnown(servers, updates) && Agrees(table, PublishedBy(updates))
    ensures match LastPublisher(servers, PublishedBy(updates), metric)
            case None => Best(table, metric) == None
            case Some(k) => Best(table, metric) == Some(ClientOf(servers, k))
  {
    match LastPublisher(servers, PublishedBy(updates), metric)
    case None => NoPublisherNoRoute(servers, updates, table, metric);
    case Some(k) => LastPublisherIsBest(servers, updates, table, metric, k);
  }

  lemma KnownClient<M>(servers: seq<MetricServer>, updates: seq<Publication<M>>, k: nat)
    requires Configured(servers) && PublishersKnown(servers, updates)
    requires k < |servers| && servers[k].name in PublishedBy(updates)
    ensures PublishedBy(updates)[servers[k].name].client == ClientOf(servers, k)
  {
  }

  /** In every reachable state a metric is routed to the last configured server whose latest publication
      contains it, and to nobody when there is none. */
  lemma RoutesToLastPublisher(
    servers: seq<MetricServer>, s: State, cm: CustomMetricInfo, em: ExternalMetricInfo)
    requires Configured(servers) && Reachable(servers, s)
    ensures var w := s.shared;
            && (match LastPublisher(servers, PublishedBy(w.customUpdates), cm)
                case None => Best(w.custom, cm) == None
                case Some(k) => Best(w.custom, cm) == Some(ClientOf(servers, k)))
            && (match LastPublisher(servers, PublishedBy(w.externalUpdates), em)
                case None => Best(w.external, em) == None
                case Some(k) => Best(w.external, em) == Some(ClientOf(servers, k)))
  {
    ReachableInv(servers, s);
    var w := s.shared;
    PublisherIsConfigured(servers, w.customUpdates, w.custom, cm);
    PublisherIsConfigured(servers, w.externalUpdates, w.external, em);
  }

  /** Two reachable states in which each client's last update is the same have the same routing, list for list,
      however the jobs interleaved on the way, whatever they published before and whatever the sort did; and
      that for each kind of metric by itself. */
  lemma SchedulesAreConfluent(servers: seq<MetricServer>, s: State, t: State)
    requires Configured(servers) && Reachable(servers, s) && Reachable(servers, t)
    ensures (forall n :: LastOf(s.shared.customUpdates, n) == LastOf(t.shared.customUpdates, n)) ==>
              s.shared.custom == t.shared.custom
    ensures (forall n :: LastOf(s.shared.externalUpdates, n) == LastOf(t.shared.externalUpdates, n)) ==>
              s.shared.external == t.shared.external
  {
    ReachableInv(servers, s);
    ReachableInv(servers, t);
    SameRouting(servers, s.shared.customUpdates, s.shared.custom, t.shared.customUpdates, t.shared.custom);
    SameRouting(servers, s.shared.externalUpdates, s.shared.external, t.shared.externalUpdates, t.shared.external);
  }

  lemma SameRouting<M(!new)>(
    servers: seq<MetricServer>, updates1: seq<Publication<M>>, table1: Table<M>,
    updates2: seq<Publication<M>>, table2: Table<M>)
    requires Configured(servers) && PublishersKnown(servers, updates1)
    requires Agrees(table1, PublishedBy(updates1)) && Agrees(table2, PublishedBy(updates2))
    ensures (forall n :: LastOf(updates1, n) == LastOf(updates2, n)) ==> table1 == table2
  {
    if forall n :: LastOf(updates1, n) == LastOf(updates2, n) {
      OwnUpdatesDecide(updates1, updates2);
      NothingIsAmbiguous(servers, updates1);
      AgreeingTables(table1, table2, PublishedBy(updates1));
    }
  }

  // ----- Clients and registry -----

  /** What the client of a job currently holds. */
  function Held(job: Job): set<CustomMetricInfo> {
    if job.snapshot.Some? then Infos(job.snapshot.value) else {}
  }

  /** What the registry attributes to a client: the metrics whose entry lists it. */
  ghost predicate Attributed(w: Shared, client: Client, cm: CustomMetricInfo) {
    client in ListAt(w.custom, cm)
  }

  /** In every reachable state, unless the job stands between swapping in a listing and handing it to the
      registry, the custom metrics the registry attributes to a client are exactly those the client holds. */
  lemma RegistryMirrorsClients(servers: seq<MetricServer>, s: State, j: nat)
    requires Configured(servers) && Reachable(servers, s) && j < |servers|
    requires !InWindow(s.jobs[j].phase)
    ensures forall cm :: Attributed(s.shared, ClientOf(servers, j), cm) <==> cm in Held(s.jobs[j])
  {
    ReachableInv(servers, s);
    var client, p := ClientOf(servers, j), PublishedBy(s.shared.customUpdates);
    assert JobInv(servers[j], client, s.jobs[j], s.shared);
    forall cm
      ensures Attributed(s.shared, client, cm) <==> cm in Held(s.jobs[j])
    {
      assert AgreesAt(s.shared.custom, p, cm);
      MembersOfList(ListAt(s.shared.custom, cm), Servers(p, cm));
      if cm in Held(s.jobs[j]) {
        assert servers[j].name in p && p[servers[j].name] == Publication(client, Held(s.jobs[j]));
        assert client in Servers(p, cm);
      }
      if client in Servers(p, cm) {
        var n :| n in p && cm in p[n].metrics && p[n].client == client;
        assert n == servers[j].name;
      }
    }
  }

  /** Said of the tables: unless the job stands between swapping in a listing and handing it to the registry, the
      list of a custom metric holds the client exactly when the client's tables, or the infos it was given, hold the
      metric. */
  lemma RegistryServesWhatIsListed(servers: seq<MetricServer>, s: State, j: nat, cm: CustomMetricInfo)
    requires Configured(servers) && Reachable(servers, s) && j < |servers|
    requires !s.jobs[j].phase.CustomSwapped? && !s.jobs[j].phase.PublishingCustom?
    ensures var served := cm in s.shared.custom && ClientOf(servers, j) in s.shared.custom[cm];
            match s.jobs[j].snapshot
            case None => !served
            case Some(Elastic(t)) => served <==> exists n :: n in t.metrics && t.metrics[n] == cm
            case Some(Remote(infos)) => served <==> cm in infos
  {
    RegistryMirrorsClients(servers, s, j);
    assert Attributed(s.shared, ClientOf(servers, j), cm) <==> cm in Held(s.jobs[j]);
  }

  /** Whoever the registry attributes a custom metric to has completed a discovery or listing: no lookup meets
      a client without its tables. */
  lemma RoutedClientsHoldSomething(
    servers: seq<MetricServer>, s: State, j: nat, cm: CustomMetricInfo)
    requires Configured(servers) && Reachable(servers, s) && j < |servers|
    requires Attributed(s.shared, ClientOf(servers, j), cm)
    ensures var job := s.jobs[j];
            job.snapshot.Some? && Obtainable(servers[j], job.snapshot.value)
  {
    ReachableInv(servers, s);
    assert JobInv(servers[j], ClientOf(servers, j), s.jobs[j], s.shared);
    if !InWindow(s.jobs[j].phase) {
      RegistryMirrorsClients(servers, s, j);
      assert cm in Held(s.jobs[j]);
    }
  }

  /** End to end: outside the window, a custom metric attributed to an Elasticsearch client is one its tables
      list, and the client resolves it to a name with metadata; under a rename, with the exact exception of a
      static field that no mapping yields and whose name is nobody's alias. */
  lemma RoutedMetricResolves(
    servers: seq<MetricServer>, s: State, j: nat, cm: CustomMetricInfo)
    returns (tables: Tables, name: string)
    requires Configured(servers) && Reachable(servers, s) && j < |servers|
    requires servers[j].serverType == Elasticsearch && !InWindow(s.jobs[j].phase)
    requires Attributed(s.shared, ClientOf(servers, j), cm)
    ensures s.jobs[j].snapshot == Some(Elastic(tables)) && Coherent(tables)
    ensures name in tables.metrics && tables.metrics[name] == cm
    ensures Lookup(tables, cm.metric).Ok? <==>
            servers[j].rename == NoRename || name in tables.registered || IsAlias(tables, name)
  {
    RegistryMirrorsClients(servers, s, j);
    RoutedClientsHoldSomething(servers, s, j, cm);
    var snapshot := s.jobs[j].snapshot.value;
    assert cm in Held(s.jobs[j]);
    tables := snapshot.tables;
    var responses: seq<Response> :|
      |responses| == |servers[j].metricSets| && Discovered(servers[j], responses) == Done(tables);
    DiscoveryIsCoherent(servers[j], responses);
    DiscoverySucceeds(servers[j], responses);
    name :| name in tables.metrics && tables.metrics[name] == cm;
    ListedResolvesExactly(tables, name);
  }

  /** In every reachable state, in the window or not: a custom metric attributed to an Elasticsearch client is
      looked up in the tables it holds now, and resolves exactly when these tables list that name (without a
      rename) or have a mapped field exposed under it (with one). */
  lemma RoutedLookupIsExact(servers: seq<MetricServer>, s: State, j: nat, cm: CustomMetricInfo)
    returns (tables: Tables)
    requires Configured(servers) && Reachable(servers, s) && j < |servers|
    requires servers[j].serverType == Elasticsearch
    requires Attributed(s.shared, ClientOf(servers, j), cm)
    ensures s.jobs[j].snapshot == Some(Elastic(tables)) && Coherent(tables)
    ensures Lookup(tables, cm.metric).Ok? <==>
            if servers[j].rename.NoRename? then cm.metric in tables.metrics else IsAlias(tables, cm.metric)
  {
    RoutedClientsHoldSomething(servers, s, j, cm);
    tables := s.jobs[j].snapshot.value.tables;
    var responses: seq<Response> :|
      |responses| == |servers[j].metricSets| && Discovered(servers[j], responses) == Done(tables);
    DiscoveryIsCoherent(servers[j], responses);
    DiscoverySucceeds(servers[j], responses);
    LookupIsExact(tables, cm.metric);
  }

  /** In the window a routed metric may fail to resolve: the first refresh found a field "a", the second, whose
      tables are already swapped in, finds a field "b" in its place. */
  lemma RoutedButGone() returns (servers: seq<MetricServer>, s: State, cm: CustomMetricInfo, tables: Tables)
    ensures Configured(servers) && Reachable(servers, s) && |servers| == 1
    ensures InWindow(s.jobs[0].phase) && s.jobs[0].snapshot == Some(Elastic(tables))
    ensures Best(s.shared.custom, cm) == Some(ClientOf(servers, 0)) && Lookup(tables, cm.metric) == Err(NoMetadata)
  {
    var server := OneSetServer(NoRename);
    var first := OneLong("a");
    tables := OneLong("b");
    servers, cm := [server], PodMetric("a");
    s := RoutedThenSwapped(server, Elastic(first), Elastic(tables), cm);
  }

  lemma OneLong(name: string) returns (t: Tables)
    requires name != "*" && name != "properties"
    ensures Obtainable(OneSetServer(NoRename), Elastic(t)) && Infos(Elastic(t)) == {PodMetric(name)}
    ensures forall n :: n != name ==> Lookup(t, n) == Err(NoMetadata)
  {
    t := LongTables(NoRename, [name]);
    LongsDiscovered(NoRename, [name]);
    LongListed(name);
  }

  lemma LongListed(name: string)
    ensures Infos(Elastic(LongTables(NoRename, [name]))) == {PodMetric(name)}
    ensures forall n :: n != name ==> Lookup(LongTables(NoRename, [name]), n) == Err(NoMetadata)
  {
    AllFieldsMatch(NoRename, name);
    WithOneName(EmptyTables(None), name, OneSetServer(NoRename).metricSets[0].fields, []);
    var t := LongTables(NoRename, [name]);
    assert t.metrics == map[name := PodMetric(name)] && t.indexed.Keys == {name};
  }

  lemma RoutedThenSwapped(server: MetricServer, first: Snapshot, second: Snapshot, cm: CustomMetricInfo)
    returns (s: State)
    requires server.metricTypes == [Custom] && Infos(first) == {cm}
    requires Obtainable(server, first) && Obtainable(server, second)
    ensures Reachable([server], s) && InWindow(s.jobs[0].phase) && s.jobs[0].snapshot == Some(second)
    ensures Best(s.shared.custom, cm) == Some(ClientOf([server], 0))
  {
    s := RoutedOnce(server, first, cm);
    s := OneJobStep(server, s, Begins, s.shared);
    s := OneJobStep(server, s, DiscoverySwaps(second), s.shared);
  }

  /** The first refresh of a lone server that lists one metric is over. */
  lemma RoutedOnce(server: MetricServer, snapshot: Snapshot, cm: CustomMetricInfo) returns (s: State)
    requires server.metricTypes == [Custom] && Obtainable(server, snapshot) && Infos(snapshot) == {cm}
    ensures Reachable([server], s) && s.jobs[0].phase.Idle? && s.jobs[0].latch && !s.released
    ensures s.shared.custom == map[cm := [ClientOf([server], 0)]]
  {
    var client := ClientOf([server], 0);
    s := CountedNotRouted(server, snapshot);
    var table: Table<CustomMetricInfo> := map[cm := [client]];
    assert UpdateStep(map[], client, {cm}, table);
    s := OneJobStep(server, s, CallsListener,
                    s.shared.(custom := table, customUpdates := [Publication(client, {cm})]));
    s := OneJobStep(server, s, Syncs, s.shared);
  }

  /** No external metric is ever routed to an Elasticsearch client. */
  lemma ElasticServesNoExternal(
    servers: seq<MetricServer>, s: State, em: ExternalMetricInfo)
    requires Configured(servers) && Reachable(servers, s)
    ensures match LastPublisher(servers, PublishedBy(s.shared.externalUpdates), em)
            case None => true
            case Some(k) => servers[k].serverType == CustomApi
  {
    ReachableInv(servers, s);
    match LastPublisher(servers, PublishedBy(s.shared.externalUpdates), em)
    case None =>
    case Some(k) =>
      assert JobInv(servers[k], ClientOf(servers, k), s.jobs[k], s.shared);
      LatestPublication(s.shared.externalUpdates, servers[k].name);
      var own := UpdatesOf(s.shared.externalUpdates, servers[k].name);
      assert own[|own| - 1] in own;
  }

  /** With every job outside the window, requests go to the last configured server that holds the metric. */
  lemma QuiescentRouting(servers: seq<MetricServer>, s: State, cm: CustomMetricInfo)
    requires Configured(servers) && Reachable(servers, s)
    requires forall j :: 0 <= j < |servers| ==> !InWindow(s.jobs[j].phase)
    ensures match Best(s.shared.custom, cm)
            case None => forall j :: 0 <= j < |servers| ==> cm !in Held(s.jobs[j])
            case Some(client) =>
              exists k: nat :: k < |servers| && client == ClientOf(servers, k) && cm in Held(s.jobs[k]) &&
                               forall j :: k < j < |servers| ==> cm !in Held(s.jobs[j])
  {
    ReachableInv(servers, s);
    var p := PublishedBy(s.shared.customUpdates);
    RoutesToLastPublisher(servers, s, cm, ExternalMetricInfo(""));
    forall j | 0 <= j < |servers|
      ensures cm in Held(s.jobs[j]) <==> servers[j].name in p && cm in p[servers[j].name].metrics
    {
      assert JobInv(servers[j], ClientOf(servers, j), s.jobs[j], s.shared);
    }
    match LastPublisher(servers, p, cm)
    case None =>
    case Some(k) => assert ClientOf(servers, k) == Best(s.shared.custom, cm).value;
  }
}
