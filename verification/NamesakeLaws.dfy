/** What holds of every configuration, also of one in which two servers share a name, which the configuration code
    does not rule out (pkg/config/config.go). The registry goes by names: the namesakes of a server take its place. */
module NamesakeLaws {
  import opened Wrappers
  import opened Metrics
  import opened Config
  import opened Clients
  import opened Routing
  import opened Monitoring
  import opened Scheduler
  import opened Protocol
  import opened ProtocolLaws

  // ----- A client's own updates -----

  /** The last update made by this very client, if any. */
  function LastBy<M>(updates: seq<Publication<M>>, client: Client): Option<Publication<M>> {
    if updates == [] then None
    else if updates[|updates| - 1].client == client then Some(updates[|updates| - 1])
    else LastBy(updates[..|updates| - 1], client)
  }

  lemma LastByOneMore<M>(updates: seq<Publication<M>>, u: Publication<M>, client: Client)
    ensures LastBy(updates + [u], client) == if u.client == client then Some(u) else LastBy(updates, client)
  {
    assert (updates + [u])[..|updates|] == updates;
  }

  /** A client whose update is the latest under its name made no later one. */
  lemma {:induction false} LatestIsOwnLast<M>(updates: seq<Publication<M>>, client: Client)
    requires client.name in PublishedBy(updates) && PublishedBy(updates)[client.name].client == client
    ensures LastBy(updates, client) == Some(PublishedBy(updates)[client.name])
  {
    if updates[|updates| - 1].client.name != client.name {
      LatestIsOwnLast(updates[..|updates| - 1], client);
    }
  }

  // ----- The invariant -----

  /** Outside the window, what the client holds is what it last handed to the registry. */
  ghost predicate HandsOver(server: MetricServer, client: Client, job: Job, w: Shared) {
    && FollowsScript(server, job)
    && (job.snapshot.Some? ==> server.HasType(Custom))
    && (InWindow(job.phase) ==> job.snapshot.Some?)
    && (job.phase.PublishingCustom? ==> job.phase.cms == Infos(job.snapshot.value))
    && (!InWindow(job.phase) ==>
          LastBy(w.customUpdates, client) ==
          match job.snapshot
          case None => None
          case Some(snapshot) => Some(Publication(client, Infos(snapshot))))
  }

  ghost predicate NamelessInv(servers: seq<MetricServer>, s: State) {
    && |s.jobs| == |servers|
    && SharedInv(servers, s.shared)
    && forall j :: 0 <= j < |servers| ==> HandsOver(servers[j], ClientOf(servers, j), s.jobs[j], s.shared)
  }

  lemma OwnStepHandsOver(server: MetricServer, client: Client, job: Job, a: Action, w: Shared, after: Shared)
    requires HandsOver(server, client, job, w) && Enabled(server, job, a)
    requires Applied(client, CallMade(server, job, a), w, after)
    ensures HandsOver(server, client, Moved(server, job, a), after)
  {
    StepFollowsScript(server, job, a);
    if a.CallsListener? && job.phase.PublishingCustom? {
      LastByOneMore(w.customUpdates, Publication(client, job.phase.cms), client);
    }
  }

  lemma OtherStepHandsOver(
    server: MetricServer, client: Client, job: Job, other: Client, call: Option<Call>, w: Shared, after: Shared)
    requires HandsOver(server, client, job, w) && Applied(other, call, w, after) && other != client
    ensures HandsOver(server, client, job, after)
  {
    if call.Some? && call.value.UpdateCustom? {
      LastByOneMore(w.customUpdates, Publication(other, call.value.cms), client);
    }
  }

  lemma NextNamelessInv(servers: seq<MetricServer>, s: State, step: Step, after: State)
    requires NamelessInv(servers, s) && Next(servers, s, step, after)
    ensures NamelessInv(servers, after)
  {
    if step.JobStep? {
      var j, call := step.j, CallMade(servers[step.j], s.jobs[step.j], step.action);
      StepSharedInv(servers, j, call, s.shared, after.shared);
      forall i | 0 <= i < |servers|
        ensures HandsOver(servers[i], ClientOf(servers, i), after.jobs[i], after.shared)
      {
        if i == j {
          OwnStepHandsOver(servers[j], ClientOf(servers, j), s.jobs[j], step.action, s.shared, after.shared);
        } else {
          OtherStepHandsOver(servers[i], ClientOf(servers, i), s.jobs[i], ClientOf(servers, j), call,
                             s.shared, after.shared);
        }
      }
    }
  }

  lemma {:induction false} ExecutionNamelessInv(servers: seq<MetricServer>, states: seq<State>, steps: seq<Step>)
    requires IsExecution(servers, states, steps)
    ensures NamelessInv(servers, states[|steps|])
  {
    var k := |steps|;
    if k == 0 {
      assert PublishedBy(states[0].shared.customUpdates) == map[];
      assert PublishedBy(states[0].shared.externalUpdates) == map[];
    } else {
      PrefixIsExecution(servers, states, steps, k - 1);
      ExecutionNamelessInv(servers, states[..k], steps[..k - 1]);
      NextNamelessInv(servers, states[k - 1], steps[k - 1], states[k]);
    }
  }

  /** The part of the invariant that needs nothing of the configuration. */
  lemma ReachableNamelessInv(servers: seq<MetricServer>, s: State)
    requires Reachable(servers, s)
    ensures NamelessInv(servers, s)
  {
    var states: seq<State>, steps: seq<Step> :| IsExecution(servers, states, steps) && states[|steps|] == s;
    ExecutionNamelessInv(servers, states, steps);
  }

  // ----- Routing and mirroring in any configuration -----

  /** In every reachable state of every configuration, requests go to a client of maximal priority among those
      that made the latest publication under their name and published the metric in it, and to nobody exactly when
      there are none. */
  lemma RoutesByName(servers: seq<MetricServer>, s: State, cm: CustomMetricInfo, em: ExternalMetricInfo)
    requires Reachable(servers, s)
    ensures var w := s.shared;
            && (Best(w.custom, cm) == None <==> Servers(PublishedBy(w.customUpdates), cm) == {})
            && (Best(w.custom, cm).Some? ==>
                  MaximalServer(PublishedBy(w.customUpdates), cm, Best(w.custom, cm).value))
            && (Best(w.external, em) == None <==> Servers(PublishedBy(w.externalUpdates), em) == {})
            && (Best(w.external, em).Some? ==>
                  MaximalServer(PublishedBy(w.externalUpdates), em, Best(w.external, em).value))
  {
    ReachableNamelessInv(servers, s);
    RoutingIsOptimal(s.shared.custom, PublishedBy(s.shared.customUpdates), cm);
    RoutingIsOptimal(s.shared.external, PublishedBy(s.shared.externalUpdates), em);
  }

  /** The latest update under the client's name is its own. */
  predicate SpeaksLast<M>(updates: seq<Publication<M>>, client: Client) {
    client.name in PublishedBy(updates) && PublishedBy(updates)[client.name].client == client
  }

  lemma AttributedExactly(servers: seq<MetricServer>, w: Shared, client: Client, cm: CustomMetricInfo)
    requires SharedInv(servers, w)
    ensures Attributed(w, client, cm) <==>
            SpeaksLast(w.customUpdates, client) && cm in PublishedBy(w.customUpdates)[client.name].metrics
  {
    var p := PublishedBy(w.customUpdates);
    assert AgreesAt(w.custom, p, cm);
    MembersOfList(ListAt(w.custom, cm), Servers(p, cm));
    if client in Servers(p, cm) {
      var n :| n in p && cm in p[n].metrics && p[n].client == client;
      assert n == client.name;
    }
  }

  /** In every reachable state of every configuration, and unless the job stands in its window, the registry
      attributes to its client exactly what the client holds if and only if the client holds nothing or made the
      latest update under its name. */
  lemma MirrorsExactly(servers: seq<MetricServer>, s: State, j: nat)
    requires Reachable(servers, s) && j < |servers| && !InWindow(s.jobs[j].phase)
    ensures (forall cm :: Attributed(s.shared, ClientOf(servers, j), cm) <==> cm in Held(s.jobs[j])) <==>
            Held(s.jobs[j]) == {} || SpeaksLast(s.shared.customUpdates, ClientOf(servers, j))
  {
    ReachableNamelessInv(servers, s);
    var client, job := ClientOf(servers, j), s.jobs[j];
    assert HandsOver(servers[j], client, job, s.shared);
    if SpeaksLast(s.shared.customUpdates, client) {
      LatestIsOwnLast(s.shared.customUpdates, client);
    }
    forall cm
      ensures Attributed(s.shared, client, cm) <==>
              SpeaksLast(s.shared.customUpdates, client) && cm in Held(job)
    {
      AttributedExactly(servers, s.shared, client, cm);
    }
    if Held(job) != {} {
      var cm :| cm in Held(job);
    }
  }

  // ----- Namesakes do evict each other -----

  /** Two servers of one name, each refreshed once: what the first one holds is not served any more. */
  lemma NamesakeEvicts() returns (servers: seq<MetricServer>, s: State, cm: CustomMetricInfo)
    ensures |servers| == 2 && PrioritiesByPosition(servers) && Reachable(servers, s)
    ensures !InWindow(s.jobs[0].phase) && !InWindow(s.jobs[1].phase)
    ensures cm in Held(s.jobs[0]) && Best(s.shared.custom, cm) == None
  {
    var server := MetricServer("adapter", CustomApi, [Custom], [], NoRename, 0);
    servers, cm := [server, server.(priority := 1)], CustomMetricInfo("", "pods", true, "requests");
    var job := Job(NotStarted, None, ListingFailed, ListingFailed, [], false, None);
    s := State([job, job], 2, false, Shared([], map[], [], map[], []));
    InitReachable(servers, s);
    NamesakeUpdates(ClientOf(servers, 0), ClientOf(servers, 1), cm);
    s := PublishesOnce(servers, s, 0, {cm}, map[cm := [ClientOf(servers, 0)]]);
    s := PublishesOnce(servers, s, 1, {}, map[]);
  }

  lemma NamesakeUpdates<M(!new)>(c: Client, d: Client, metric: M)
    requires c.name == d.name
    ensures UpdateStep(map[], c, {metric}, map[metric := [c]])
    ensures UpdateStep(map[metric := [c]], d, {}, map[])
  {
    assert WithClient([], c) == [c] && WithoutName([c], d.name) == [];
  }

  /** A job that has not started lists these metrics and publishes them. */
  lemma PublishesOnce(
    servers: seq<MetricServer>, s: State, j: nat, cms: set<CustomMetricInfo>, table: Table<CustomMetricInfo>)
    returns (after: State)
    requires Reachable(servers, s) && j < |servers| && s.jobs[j].phase.NotStarted?
    requires servers[j].serverType == CustomApi && servers[j].metricTypes == [Custom]
    requires UpdateStep(s.shared.custom, ClientOf(servers, j), cms, table)
    ensures Reachable(servers, after) && after.shared.custom == table
    ensures after.jobs[j].phase == Syncing && Held(after.jobs[j]) == cms
    ensures forall i :: 0 <= i < |servers| && i != j ==> after.jobs[i] == s.jobs[i]
  {
    var client, w := ClientOf(servers, j), s.shared;
    after := StepReachable(servers, s, j, Begins, w);
    after := StepReachable(servers, after, j, DiscoverySwaps(Remote(cms)), w);
    after := StepReachable(servers, after, j, CustomListReturns, w);
    w := w.(events := w.events + [Success(client.name, Custom)]);
    after := StepReachable(servers, after, j, CallsListener, w);
    w := w.(custom := table, customUpdates := w.customUpdates + [Publication(client, cms)]);
    after := StepReachable(servers, after, j, CallsListener, w);
  }
}
