/** What can always still happen: no job is ever blocked, by another or by itself, and as long as its server can
    list its metrics the initial sync can still be completed, whereupon the wait for it can return. */
module ProgressLaws {
  import opened Wrappers
  import opened Metrics
  import opened Config
  import opened Clients
  import opened Routing
  import opened Monitoring
  import opened Scheduler
  import opened Protocol
  import opened ProtocolLaws
  import opened NamesakeLaws

  // ----- Every update has an outcome -----

  function Inserted(client: Client, sorted: seq<Client>): seq<Client> {
    if sorted == [] || client.priority >= sorted[0].priority then [client] + sorted
    else [sorted[0]] + Inserted(client, sorted[1..])
  }

  lemma {:induction false} InsertedHolds(client: Client, sorted: seq<Client>)
    ensures multiset(Inserted(client, sorted)) == multiset([client] + sorted)
    ensures forall c :: c in Inserted(client, sorted) ==> c == client || c in sorted
  {
    if sorted != [] && client.priority < sorted[0].priority {
      InsertedHolds(client, sorted[1..]);
      assert sorted == [sorted[0]] + sorted[1..];
    }
  }

  lemma {:induction false} InsertedIsSorted(client: Client, sorted: seq<Client>)
    requires SortedByPriority(sorted)
    ensures SortedByPriority(Inserted(client, sorted))
  {
    if sorted != [] && client.priority < sorted[0].priority {
      var rest := Inserted(client, sorted[1..]);
      InsertedIsSorted(client, sorted[1..]);
      InsertedHolds(client, sorted[1..]);
      assert forall i :: 0 <= i < |rest| ==> rest[i] in rest;
    }
  }

  function SomeSorting(clients: seq<Client>): (r: seq<Client>)
    ensures SortedVersion(r, clients)
  {
    if clients == [] then []
    else
      assert clients == [clients[0]] + clients[1..];
      InsertedHolds(clients[0], SomeSorting(clients[1..]));
      InsertedIsSorted(clients[0], SomeSorting(clients[1..]));
      Inserted(clients[0], SomeSorting(clients[1..]))
  }

  lemma SortingKeepsSome(clients: seq<Client>)
    ensures SomeSorting(clients) == [] <==> clients == []
  {
    assert |multiset(SomeSorting(clients))| == |multiset(clients)|;
  }

  /** One outcome of an update; a sort that is not stable may have others. */
  lemma UpdateExists<M(!new)>(table: Table<M>, client: Client, metrics: set<M>) returns (after: Table<M>)
    ensures UpdateStep(table, client, metrics, after)
  {
    var lists := map m | m in table.Keys + metrics ::
      if m in metrics then SomeSorting(WithClient(ListAt(table, m), client))
      else if Serves(ListAt(table, m), client.name) then SomeSorting(WithoutName(ListAt(table, m), client.name))
      else ListAt(table, m);
    after := map m | m in lists && (m in metrics || !Serves(ListAt(table, m), client.name) || lists[m] != []) ::
      lists[m];
    forall m: M
      ensures MetricUpdated(table, client, metrics, m, after)
    {
      SortingKeepsSome(WithoutName(ListAt(table, m), client.name));
    }
  }

  lemma CallHasEffect(client: Client, call: Option<Call>, w: Shared) returns (after: Shared)
    ensures Applied(client, call, w, after)
  {
    after := w;
    if call.Some? {
      match call.value
      case UpdateCustom(listener, cms) =>
        if listener == MonitoringServer {
          after := w.(events := w.events + [Success(client.name, Custom)]);
        } else {
          var table := UpdateExists(w.custom, client, cms);
          after := w.(custom := table, customUpdates := w.customUpdates + [Publication(client, cms)]);
        }
      case UpdateExternal(listener, ems) =>
        if listener == MonitoringServer {
          after := w.(events := w.events + [Success(client.name, External)]);
        } else {
          var table := UpdateExists(w.external, client, ems);
          after := w.(external := table, externalUpdates := w.externalUpdates + [Publication(client, ems)]);
        }
      case OnError(listener, t) =>
        if listener == MonitoringServer {
          after := w.(events := w.events + [Failure(client.name, t)]);
        }
    }
  }

  // ----- Runs -----

  ghost predicate IsPath(servers: seq<MetricServer>, states: seq<State>, steps: seq<Step>) {
    && |states| == |steps| + 1
    && forall i :: 0 <= i < |steps| ==> Next(servers, states[i], steps[i], states[i + 1])
  }

  /** Some steps, or none, lead from one state to another. */
  ghost predicate RunsTo(servers: seq<MetricServer>, s: State, t: State) {
    exists states: seq<State>, steps: seq<Step> ::
      IsPath(servers, states, steps) && states[0] == s && states[|steps|] == t
  }

  lemma RunsNowhere(servers: seq<MetricServer>, s: State)
    ensures RunsTo(servers, s, s)
  {
    var steps: seq<Step> := [];
    assert IsPath(servers, [s], steps) && [s][0] == s && [s][|steps|] == s;
  }

  lemma RunsOneStep(servers: seq<MetricServer>, s: State, step: Step, t: State)
    requires Next(servers, s, step, t)
    ensures RunsTo(servers, s, t)
  {
    var states, steps := [s, t], [step];
    assert IsPath(servers, states, steps) && states[0] == s && states[|steps|] == t;
  }

  lemma RunsOn(servers: seq<MetricServer>, s: State, t: State, u: State)
    requires RunsTo(servers, s, t) && RunsTo(servers, t, u)
    ensures RunsTo(servers, s, u)
  {
    var a: seq<State>, p: seq<Step> :| IsPath(servers, a, p) && a[0] == s && a[|p|] == t;
    var b: seq<State>, q: seq<Step> :| IsPath(servers, b, q) && b[0] == t && b[|q|] == u;
    PathsJoin(servers, a, p, b, q);
    var states, steps := a + b[1..], p + q;
    assert states[0] == s && states[|steps|] == u;
  }

  lemma PathsJoin(servers: seq<MetricServer>, a: seq<State>, p: seq<Step>, b: seq<State>, q: seq<Step>)
    requires IsPath(servers, a, p) && IsPath(servers, b, q) && a[|p|] == b[0]
    ensures IsPath(servers, a + b[1..], p + q)
  {
    var states, steps := a + b[1..], p + q;
    forall i | 0 <= i < |steps|
      ensures Next(servers, states[i], steps[i], states[i + 1])
    {
      if i < |p| {
        assert Next(servers, a[i], p[i], a[i + 1]);
      } else {
        assert Next(servers, b[i - |p|], q[i - |p|], b[i - |p| + 1]);
        assert states[i] == b[i - |p|] && states[i + 1] == b[i - |p| + 1];
      }
    }
  }

  /** Only this job, the wait group and the listeners differ. */
  ghost predicate OnlyMoved(s: State, t: State, j: nat) {
    && |s.jobs| == |t.jobs| && s.released == t.released
    && forall i :: 0 <= i < |s.jobs| && i != j ==> t.jobs[i] == s.jobs[i]
  }

  // ----- No job is ever blocked -----

  /** How many steps of a refresh are ahead, at most. */
  function Ahead(phase: Phase): int {
    match phase
    case NotStarted => 10
    case ListingCustom => 9
    case CustomSwapped => 8
    case PublishingCustom(k, _) => 7 - k
    case ListingExternal => 5
    case PublishingExternal(k, _) => 4 - k
    case Syncing => 1
    case ReportingCustom => 1
    case ReportingExternal => 1
    case Idle => 0
  }

  predicate Reporting(phase: Phase) {
    phase.ReportingCustom? || phase.ReportingExternal?
  }

  /** A step that brings a refresh closer to its end: to a successful end if its server can list its metrics. */
  function StepAhead(phase: Phase, snapshot: Option<Snapshot>): Action {
    match phase
    case NotStarted => Begins
    case ListingCustom => if snapshot.Some? then DiscoverySwaps(snapshot.value) else DiscoveryFails
    case CustomSwapped => CustomListReturns
    case PublishingCustom(_, _) => CallsListener
    case ListingExternal => ExternalListReturns({})
    case PublishingExternal(_, _) => CallsListener
    case Syncing => Syncs
    case ReportingCustom => CallsErrorListener
    case ReportingExternal => CallsErrorListener
    case Idle => Begins
  }

  /** The server can list what the snapshot says; without one it may fail to list its custom metrics. */
  ghost predicate CanList(server: MetricServer, snapshot: Option<Snapshot>) {
    snapshot.Some? ==> Obtainable(server, snapshot.value)
  }

  /** The refresh has nothing to report and will not get to. */
  predicate Fruitful(server: MetricServer, phase: Phase, snapshot: Option<Snapshot>) {
    !Reporting(phase) && (server.HasType(Custom) ==> snapshot.Some?)
  }

  predicate Begun(phase: Phase) {
    !phase.Idle? && !Reporting(phase)
  }

  lemma AheadIsEnabled(servers: seq<MetricServer>, s: State, j: nat, snapshot: Option<Snapshot>)
    requires Reachable(servers, s) && j < |servers| && CanList(servers[j], snapshot)
    ensures Enabled(servers[j], s.jobs[j], StepAhead(s.jobs[j].phase, snapshot))
  {
    ReachableNamelessInv(servers, s);
    assert HandsOver(servers[j], ClientOf(servers, j), s.jobs[j], s.shared);
  }

  lemma AheadIsCloser(server: MetricServer, job: Job, snapshot: Option<Snapshot>)
    requires FollowsScript(server, job) && Enabled(server, job, StepAhead(job.phase, snapshot))
    ensures var moved := Moved(server, job, StepAhead(job.phase, snapshot));
            && (job.latch ==> moved.latch)
            && (job.phase.Idle? ==> Begun(moved.phase))
            && (!job.phase.Idle? ==> 0 <= Ahead(moved.phase) < Ahead(job.phase))
            && (!job.phase.Idle? && Fruitful(server, job.phase, snapshot) ==>
                  Fruitful(server, moved.phase, snapshot) && (moved.phase.Idle? ==> moved.latch))
  {
  }

  lemma MovesAhead(servers: seq<MetricServer>, s: State, j: nat, snapshot: Option<Snapshot>)
    returns (step: Step, after: State)
    requires Reachable(servers, s) && j < |servers| && CanList(servers[j], snapshot)
    ensures Reachable(servers, after) && Next(servers, s, step, after) && OnlyMoved(s, after, j)
    ensures s.jobs[j].latch ==> after.jobs[j].latch
    ensures !s.jobs[j].phase.Idle? ==> 0 <= Ahead(after.jobs[j].phase) < Ahead(s.jobs[j].phase)
    ensures !s.jobs[j].phase.Idle? && Fruitful(servers[j], s.jobs[j].phase, snapshot) ==>
              Fruitful(servers[j], after.jobs[j].phase, snapshot) && (after.jobs[j].phase.Idle? ==> after.jobs[j].latch)
    ensures s.jobs[j].phase.Idle? ==> Begun(after.jobs[j].phase)
  {
    ReachableNamelessInv(servers, s);
    assert HandsOver(servers[j], ClientOf(servers, j), s.jobs[j], s.shared);
    AheadIsEnabled(servers, s, j, snapshot);
    var a := StepAhead(s.jobs[j].phase, snapshot);
    var w := CallHasEffect(ClientOf(servers, j), CallMade(servers[j], s.jobs[j], a), s.shared);
    AheadIsCloser(servers[j], s.jobs[j], snapshot);
    step := JobStep(j, a);
    after := StepReachable(servers, s, j, a, w);
  }

  /** From every reachable state every job can run on to the end of its refresh, whatever the others are doing; and
      to a successful end, unless it has a failure to report or its server cannot list its metrics. */
  lemma {:induction false} NoJobIsBlocked(servers: seq<MetricServer>, s: State, j: nat, snapshot: Option<Snapshot>)
    returns (after: State)
    requires Reachable(servers, s) && j < |servers| && CanList(servers[j], snapshot)
    ensures RunsTo(servers, s, after) && Reachable(servers, after) && OnlyMoved(s, after, j)
    ensures after.jobs[j].phase.Idle? && (s.jobs[j].latch ==> after.jobs[j].latch)
    ensures !s.jobs[j].phase.Idle? && Fruitful(servers[j], s.jobs[j].phase, snapshot) ==> after.jobs[j].latch
    decreases Ahead(s.jobs[j].phase)
  {
    if s.jobs[j].phase.Idle? {
      RunsNowhere(servers, s);
      return s;
    }
    var step, next := MovesAhead(servers, s, j, snapshot);
    RunsOneStep(servers, s, step, next);
    after := NoJobIsBlocked(servers, next, j, snapshot);
    RunsOn(servers, s, next, after);
  }

  // ----- The initial sync can always be completed -----

  lemma JobCanSync(servers: seq<MetricServer>, s: State, j: nat, snapshot: Option<Snapshot>)
    returns (after: State)
    requires Reachable(servers, s) && j < |servers| && CanList(servers[j], snapshot)
    requires servers[j].HasType(Custom) ==> snapshot.Some?
    ensures RunsTo(servers, s, after) && Reachable(servers, after) && OnlyMoved(s, after, j)
    ensures after.jobs[j].latch
  {
    var idle := NoJobIsBlocked(servers, s, j, snapshot);
    var step, begun := MovesAhead(servers, idle, j, snapshot);
    RunsOneStep(servers, idle, step, begun);
    RunsOn(servers, s, idle, begun);
    after := NoJobIsBlocked(servers, begun, j, snapshot);
    RunsOn(servers, s, begun, after);
  }

  /** Every server that serves custom metrics has something it can list. */
  ghost predicate AllCanList(servers: seq<MetricServer>, snapshots: seq<Option<Snapshot>>) {
    && |snapshots| == |servers|
    && forall j :: 0 <= j < |servers| ==>
         CanList(servers[j], snapshots[j]) && (servers[j].HasType(Custom) ==> snapshots[j].Some?)
  }

  lemma {:induction false} FirstJobsCanSync(
    servers: seq<MetricServer>, s: State, snapshots: seq<Option<Snapshot>>, k: nat) returns (after: State)
    requires Reachable(servers, s) && AllCanList(servers, snapshots) && k <= |servers|
    ensures RunsTo(servers, s, after) && Reachable(servers, after) && after.released == s.released
    ensures forall j :: 0 <= j < k ==> after.jobs[j].latch
  {
    if k == 0 {
      RunsNowhere(servers, s);
      return s;
    }
    var before := FirstJobsCanSync(servers, s, snapshots, k - 1);
    after := JobCanSync(servers, before, k - 1, snapshots[k - 1]);
    RunsOn(servers, s, before, after);
  }

  /** Whatever has happened, failures included: as long as the servers can list their metrics, every job can still
      complete a first successful refresh, and then WaitInitialSync can return. */
  lemma SyncIsAlwaysPossible(servers: seq<MetricServer>, s: State, snapshots: seq<Option<Snapshot>>)
    returns (after: State)
    requires Configured(servers) && Reachable(servers, s) && AllCanList(servers, snapshots)
    ensures RunsTo(servers, s, after) && Reachable(servers, after) && after.released
  {
    after := FirstJobsCanSync(servers, s, snapshots, |servers|);
    if !after.released {
      WaitGroupCountsLatches(servers, after);
      var synced := after;
      after := synced.(released := true);
      NextReachable(servers, synced, Release, after);
      RunsOneStep(servers, synced, Release, after);
      RunsOn(servers, s, synced, after);
    }
  }

  /** WaitInitialSync can return exactly when every latch has fired. */
  lemma WaitReturnsExactly(servers: seq<MetricServer>, s: State)
    requires Configured(servers) && Reachable(servers, s) && !s.released
    ensures Reachable(servers, s.(released := true)) <==> forall j :: 0 <= j < |servers| ==> s.jobs[j].latch
  {
    var after := s.(released := true);
    WaitGroupCountsLatches(servers, s);
    if forall j :: 0 <= j < |servers| ==> s.jobs[j].latch {
      NextReachable(servers, s, Release, after);
    }
    if Reachable(servers, after) {
      ReachableInv(servers, after);
    }
  }

  /** A state in which it has: one server, one refresh, its metric served. */
  lemma ReleasedAfterOneRefresh() returns (servers: seq<MetricServer>, s: State, cm: CustomMetricInfo)
    ensures Configured(servers) && |servers| == 1 && Reachable(servers, s) && s.released
    ensures Best(s.shared.custom, cm) == Some(ClientOf(servers, 0))
  {
    var server := MetricServer("adapter", CustomApi, [Custom], [], NoRename, 0);
    servers, cm := [server], CustomMetricInfo("", "pods", true, "requests");
    var synced := RoutedOnce(server, Remote({cm}), cm);
    WaitReturnsExactly(servers, synced);
    s := synced.(released := true);
  }
}
