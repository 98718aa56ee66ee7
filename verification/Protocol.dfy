/** The refresh protocol: N jobs, each repeating its refresh in its own goroutine, share the monitoring server
    and the registry; main waits for the first sync (pkg/scheduler/job.go, pkg/scheduler/scheduler.go, main.go).
    Each listener takes its own lock, so each listener call is one atomic step, and so are the swap at the end
    of a discovery and the firing of the once-latch together with its WaitGroup.Done. */
module Protocol {
  import opened Wrappers
  import opened Metrics
  import opened Config
  import opened Clients
  import opened Routing
  import opened Discovery
  import opened Monitoring
  import opened Scheduler

  // ----- States -----

  /** What a client holds after its last successful custom listing: an Elasticsearch client the tables of its
      last discovery, a client of another adapter the infos it was given. */
  datatype Snapshot = Elastic(tables: Tables) | Remote(infos: set<CustomMetricInfo>)

  function Infos(snapshot: Snapshot): set<CustomMetricInfo> {
    match snapshot
    case Elastic(tables) => tables.metrics.Values
    case Remote(infos) => infos
  }

  ghost predicate Obtainable(server: MetricServer, snapshot: Snapshot) {
    match snapshot
    case Elastic(tables) =>
      && server.serverType == Elasticsearch
      && exists responses: seq<Response> ::
           |responses| == |server.metricSets| && Discovered(server, responses) == Done(tables)
    case Remote(_) => server.serverType == CustomApi
  }

  /** Where a job is in its refresh; k is the listener it calls next. Errors have a single listener. */
  datatype Phase =
    | NotStarted
    | ListingCustom
    | CustomSwapped
    | PublishingCustom(k: nat, cms: set<CustomMetricInfo>)
    | ReportingCustom
    | ListingExternal
    | PublishingExternal(k: nat, ems: set<ExternalMetricInfo>)
    | ReportingExternal
    | Syncing
    | Idle

  datatype Refresh = Refresh(custom: Listing<CustomMetricInfo>, external: Listing<ExternalMetricInfo>, calls: seq<Call>)

  /** `calls` are the listener calls of the current refresh so far, `custom` and `external` what its listings
      returned; `firstSync` is the refresh during which the latch fired. */
  datatype Job = Job(
    phase: Phase,
    snapshot: Option<Snapshot>,
    custom: Listing<CustomMetricInfo>,
    external: Listing<ExternalMetricInfo>,
    calls: seq<Call>,
    latch: bool,
    firstSync: Option<Refresh>)

  /** The two listeners. The counters of the monitoring server are the counts over its event history (module
      Monitoring); the registry keeps two routing tables, here beside the updates it has received. */
  datatype Shared = Shared(
    events: seq<Event>,
    custom: Table<CustomMetricInfo>,
    customUpdates: seq<Publication<CustomMetricInfo>>,
    external: Table<ExternalMetricInfo>,
    externalUpdates: seq<Publication<ExternalMetricInfo>>)

  /** `released` says that WaitInitialSync has returned. */
  datatype State = State(jobs: seq<Job>, wg: int, released: bool, shared: Shared)

  // ----- Steps -----

  datatype Action =
    | Begins
    | DiscoveryFails
    | DiscoverySwaps(snapshot: Snapshot)
    | CustomListReturns
    | ExternalListFails
    | ExternalListReturns(ems: set<ExternalMetricInfo>)
    | CallsListener
    | CallsErrorListener
    | Syncs

  datatype Step = JobStep(j: nat, action: Action) | Release

  ghost predicate Enabled(server: MetricServer, job: Job, a: Action) {
    match a
    case Begins => job.phase.NotStarted? || job.phase.Idle?
    case DiscoveryFails => job.phase.ListingCustom?
    case DiscoverySwaps(snapshot) => job.phase.ListingCustom? && Obtainable(server, snapshot)
    case CustomListReturns => job.phase.CustomSwapped? && job.snapshot.Some?
    case ExternalListFails => job.phase.ListingExternal? && server.serverType == CustomApi
    case ExternalListReturns(ems) => job.phase.ListingExternal? && (server.serverType == Elasticsearch ==> ems == {})
    case CallsListener => (job.phase.PublishingCustom? || job.phase.PublishingExternal?) && job.phase.k < |LISTENERS|
    case CallsErrorListener => job.phase.ReportingCustom? || job.phase.ReportingExternal?
    case Syncs => job.phase.Syncing?
  }

  function AfterCustom(server: MetricServer): Phase {
    if server.HasType(External) then ListingExternal else Syncing
  }

  function AfterBegin(server: MetricServer): Phase {
    if server.HasType(Custom) then ListingCustom else AfterCustom(server)
  }

  /** The listener call this step makes, if any. */
  ghost function CallMade(server: MetricServer, job: Job, a: Action): Option<Call>
    requires Enabled(server, job, a)
  {
    match a
    case CallsListener =>
      if job.phase.PublishingCustom? then Some(UpdateCustom(LISTENERS[job.phase.k], job.phase.cms))
      else Some(UpdateExternal(LISTENERS[job.phase.k], job.phase.ems))
    case CallsErrorListener =>
      Some(OnError(ERROR_LISTENERS[0], if job.phase.ReportingCustom? then Custom else External))
    case _ => None
  }

  ghost function NextPhase(server: MetricServer, job: Job, a: Action): Phase
    requires Enabled(server, job, a)
  {
    match a
    case Begins => AfterBegin(server)
    case DiscoveryFails => ReportingCustom
    case DiscoverySwaps(_) => CustomSwapped
    case CustomListReturns => PublishingCustom(0, Infos(job.snapshot.value))
    case ExternalListFails => ReportingExternal
    case ExternalListReturns(ems) => PublishingExternal(0, ems)
    case CallsListener =>
      (match job.phase
       case PublishingCustom(k, cms) =>
         if k + 1 < |LISTENERS| then PublishingCustom(k + 1, cms) else AfterCustom(server)
       case PublishingExternal(k, ems) =>
         if k + 1 < |LISTENERS| then PublishingExternal(k + 1, ems) else Syncing)
    case CallsErrorListener => Idle
    case Syncs => Idle
  }

  ghost function Moved(server: MetricServer, job: Job, a: Action): Job
    requires Enabled(server, job, a)
  {
    var call := CallMade(server, job, a);
    var moved := job.(phase := NextPhase(server, job, a),
                      calls := if call.Some? then job.calls + [call.value] else job.calls);
    match a
    case Begins => moved.(calls := [])
    case DiscoveryFails => moved.(custom := ListingFailed)
    case DiscoverySwaps(snapshot) => moved.(snapshot := Some(snapshot))
    case CustomListReturns => moved.(custom := Listed(Infos(job.snapshot.value)))
    case ExternalListFails => moved.(external := ListingFailed)
    case ExternalListReturns(ems) => moved.(external := Listed(ems))
    case Syncs =>
      if job.latch then moved
      else moved.(latch := true, firstSync := Some(Refresh(job.custom, job.external, job.calls)))
    case _ => moved
  }

  /** The effect of a listener call. The registry's table changes as UpdateStep allows, sorting included. */
  ghost predicate Applied(client: Client, call: Option<Call>, w: Shared, after: Shared) {
    match call
    case None => after == w
    case Some(UpdateCustom(listener, cms)) =>
      if listener == MonitoringServer then
        after == w.(events := w.events + [Success(client.name, Custom)])
      else
        && UpdateStep(w.custom, client, cms, after.custom)
        && after == w.(custom := after.custom, customUpdates := w.customUpdates + [Publication(client, cms)])
    case Some(UpdateExternal(listener, ems)) =>
      if listener == MonitoringServer then
        after == w.(events := w.events + [Success(client.name, External)])
      else
        && UpdateStep(w.external, client, ems, after.external)
        && after == w.(external := after.external, externalUpdates := w.externalUpdates + [Publication(client, ems)])
    case Some(OnError(listener, t)) =>
      if listener == MonitoringServer then
        after == w.(events := w.events + [Failure(client.name, t)])
      else
        after == w
  }

  /** The client object main builds for the j-th server. */
  function ClientOf(servers: seq<MetricServer>, j: nat): Client
    requires j < |servers|
  {
    Client(j, servers[j].name, servers[j].priority)
  }

  ghost predicate Init(servers: seq<MetricServer>, s: State) {
    && |s.jobs| == |servers|
    && (forall j :: 0 <= j < |s.jobs| ==>
          s.jobs[j] == Job(NotStarted, None, ListingFailed, ListingFailed, [], false, None))
    && s.wg == |servers| && !s.released
    && s.shared == Shared([], map[], [], map[], [])
  }

  ghost predicate Next(servers: seq<MetricServer>, s: State, step: Step, after: State) {
    match step
    case JobStep(j, a) =>
      && j < |s.jobs| == |servers|
      && Enabled(servers[j], s.jobs[j], a)
      && Applied(ClientOf(servers, j), CallMade(servers[j], s.jobs[j], a), s.shared, after.shared)
      && after.jobs == s.jobs[j := Moved(servers[j], s.jobs[j], a)]
      && after.wg == (if a.Syncs? && !s.jobs[j].latch then s.wg - 1 else s.wg)
      && after.released == s.released
    case Release =>
      s.wg == 0 && !s.released && after == s.(released := true)
  }

  ghost predicate IsExecution(servers: seq<MetricServer>, states: seq<State>, steps: seq<Step>) {
    && |states| == |steps| + 1
    && Init(servers, states[0])
    && forall i :: 0 <= i < |steps| ==> Next(servers, states[i], steps[i], states[i + 1])
  }

  /** Server names identify clients; this the configuration code does not check. Priorities are positions. */
  ghost predicate Configured(servers: seq<MetricServer>) {
    && (forall i, j :: 0 <= i < j < |servers| ==> servers[i].name != servers[j].name)
    && PrioritiesByPosition(servers)
  }

  // ----- The invariant of one job -----

  /** Every refresh makes the calls the sequential code makes, in the same order, however the jobs interleave. */
  ghost predicate FollowsScript(server: MetricServer, job: Job) {
    var half := CustomHalf(server, LISTENERS, ERROR_LISTENERS, job.custom);
    var customDone := server.HasType(Custom) ==> job.custom.Listed?;
    match job.phase
    case NotStarted => job.calls == []
    case ListingCustom => server.HasType(Custom) && job.calls == []
    case CustomSwapped => server.HasType(Custom) && job.calls == []
    case PublishingCustom(k, cms) =>
      && server.HasType(Custom) && k < |LISTENERS| && job.custom == Listed(cms)
      && job.calls == CustomCalls(LISTENERS, cms)[..k]
    case ReportingCustom => server.HasType(Custom) && job.custom.ListingFailed? && job.calls == []
    case ListingExternal => server.HasType(External) && customDone && job.calls == half
    case PublishingExternal(k, ems) =>
      && server.HasType(External) && customDone && k < |LISTENERS| && job.external == Listed(ems)
      && job.calls == half + ExternalCalls(LISTENERS, ems)[..k]
    case ReportingExternal =>
      server.HasType(External) && customDone && job.external.ListingFailed? && job.calls == half
    case Syncing =>
      && Succeeds(server, job.custom, job.external)
      && job.calls == RefreshScript(server, LISTENERS, ERROR_LISTENERS, job.custom, job.external)
    case Idle =>
      job.calls == RefreshScript(server, LISTENERS, ERROR_LISTENERS, job.custom, job.external)
  }

  ghost predicate LatchRecordsSync(server: MetricServer, job: Job) {
    && (job.latch <==> job.firstSync.Some?)
    && (job.latch ==>
          var r := job.firstSync.value;
          && Succeeds(server, r.custom, r.external)
          && r.calls == RefreshScript(server, LISTENERS, ERROR_LISTENERS, r.custom, r.external))
  }

  /** Monitoring counts a publication just before the registry receives it: the two differ by one exactly
      while the job stands between the two calls. */
  ghost predicate LagsByOne(server: MetricServer, job: Job, w: Shared) {
    && Successes(w.events, server.name, Custom) ==
       |UpdatesOf(w.customUpdates, server.name)| +
       (if job.phase.PublishingCustom? && job.phase.k == 1 then 1 else 0)
    && Successes(w.events, server.name, External) ==
       |UpdatesOf(w.externalUpdates, server.name)| +
       (if job.phase.PublishingExternal? && job.phase.k == 1 then 1 else 0)
  }

  /** Between the swap of a discovery and the registry update that follows it. */
  predicate InWindow(phase: Phase) {
    phase.CustomSwapped? || phase.PublishingCustom?
  }

  /** Outside that window the registry attributes to the client exactly what the client holds. */
  ghost predicate RegistryAgrees(server: MetricServer, client: Client, job: Job, w: Shared) {
    && (job.snapshot.Some? ==> Obtainable(server, job.snapshot.value) && server.HasType(Custom))
    && (InWindow(job.phase) ==> job.snapshot.Some?)
    && (job.phase.PublishingCustom? ==> job.phase.cms == Infos(job.snapshot.value))
    && (!InWindow(job.phase) ==>
          var p := PublishedBy(w.customUpdates);
          match job.snapshot
          case None => server.name !in p
          case Some(snapshot) => server.name in p && p[server.name] == Publication(client, Infos(snapshot)))
  }

  /** The registry has received these lists from the client, as far as it lists them. */
  ghost predicate ReceivedCustom(server: MetricServer, client: Client, custom: Listing<CustomMetricInfo>, w: Shared) {
    server.HasType(Custom) && custom.Listed? ==>
      Publication(client, custom.infos) in UpdatesOf(w.customUpdates, server.name)
  }

  ghost predicate ReceivedExternal(
    server: MetricServer, client: Client, external: Listing<ExternalMetricInfo>, w: Shared)
  {
    server.HasType(External) && external.Listed? ==>
      Publication(client, external.infos) in UpdatesOf(w.externalUpdates, server.name)
  }

  /** The registry has received the lists a refresh has passed, and for good those of the first sync. */
  ghost predicate HasPublished(server: MetricServer, client: Client, job: Job, w: Shared) {
    var pastCustom :=
      job.phase.ListingExternal? || job.phase.PublishingExternal? || job.phase.ReportingExternal? || job.phase.Syncing?;
    && (pastCustom ==> ReceivedCustom(server, client, job.custom, w))
    && (job.phase.Syncing? ==> ReceivedExternal(server, client, job.external, w))
    && (job.firstSync.Some? ==>
          && ReceivedCustom(server, client, job.firstSync.value.custom, w)
          && ReceivedExternal(server, client, job.firstSync.value.external, w))
  }

  /** An Elasticsearch client publishes no external metric. */
  ghost predicate NoElasticExternal(server: MetricServer, job: Job, w: Shared) {
    server.serverType == Elasticsearch ==>
      && (job.phase.PublishingExternal? ==> job.phase.ems == {})
      && (forall u :: u in UpdatesOf(w.externalUpdates, server.name) ==> u.metrics == {})
  }

  /** The failure streaks monitoring sees reflect the refresh in progress as far as it has been reported, and
      the last one once it is over: a streak is empty after a success and not after a failure. */
  ghost predicate ReportsCustom(server: MetricServer, job: Job, w: Shared) {
    var streak := TrailingFailures(w.events, server.name, Custom);
    server.HasType(Custom) ==>
      match job.phase
      case PublishingCustom(k, _) => k == 1 ==> streak == 0
      case ListingExternal => streak == 0
      case PublishingExternal(_, _) => streak == 0
      case ReportingExternal => streak == 0
      case Syncing => streak == 0
      case Idle => streak == 0 <==> job.custom.Listed?
      case _ => true
  }

  ghost predicate ReportsExternal(server: MetricServer, job: Job, w: Shared) {
    var streak := TrailingFailures(w.events, server.name, External);
    server.HasType(External) ==>
      match job.phase
      case PublishingExternal(k, _) => k == 1 ==> streak == 0
      case Syncing => streak == 0
      case Idle => (server.HasType(Custom) ==> job.custom.Listed?) ==> (streak == 0 <==> job.external.Listed?)
      case _ => true
  }

  ghost predicate JobInv(server: MetricServer, client: Client, job: Job, w: Shared) {
    && FollowsScript(server, job)
    && LatchRecordsSync(server, job)
    && LagsByOne(server, job, w)
    && RegistryAgrees(server, client, job, w)
    && HasPublished(server, client, job, w)
    && NoElasticExternal(server, job, w)
    && ReportsCustom(server, job, w)
    && ReportsExternal(server, job, w)
  }

  // ----- Every step keeps the invariant of every job -----

  lemma PublishingFollowsScript(server: MetricServer, job: Job)
    requires FollowsScript(server, job) && Enabled(server, job, CallsListener)
    ensures FollowsScript(server, Moved(server, job, CallsListener))
  {
  }

  lemma StepFollowsScript(server: MetricServer, job: Job, a: Action)
    requires FollowsScript(server, job) && Enabled(server, job, a)
    ensures FollowsScript(server, Moved(server, job, a))
  {
    if a == CallsListener {
      PublishingFollowsScript(server, job);
    }
  }

  lemma StepLagsByOne(server: MetricServer, client: Client, job: Job, a: Action, w: Shared, after: Shared)
    requires FollowsScript(server, job) && LagsByOne(server, job, w) && Enabled(server, job, a)
    requires client.name == server.name && Applied(client, CallMade(server, job, a), w, after)
    ensures LagsByOne(server, Moved(server, job, a), after)
  {
  }

  lemma StepRegistryAgrees(server: MetricServer, client: Client, job: Job, a: Action, w: Shared, after: Shared)
    requires FollowsScript(server, job) && RegistryAgrees(server, client, job, w) && Enabled(server, job, a)
    requires client.name == server.name && Applied(client, CallMade(server, job, a), w, after)
    ensures RegistryAgrees(server, client, Moved(server, job, a), after)
  {
  }

  lemma StepHasPublished(server: MetricServer, client: Client, job: Job, a: Action, w: Shared, after: Shared)
    requires FollowsScript(server, job) && HasPublished(server, client, job, w) && Enabled(server, job, a)
    requires client.name == server.name && Applied(client, CallMade(server, job, a), w, after)
    ensures HasPublished(server, client, Moved(server, job, a), after)
  {
  }

  lemma StepNoElasticExternal(server: MetricServer, client: Client, job: Job, a: Action, w: Shared, after: Shared)
    requires NoElasticExternal(server, job, w) && Enabled(server, job, a)
    requires client.name == server.name && Applied(client, CallMade(server, job, a), w, after)
    ensures NoElasticExternal(server, Moved(server, job, a), after)
  {
  }

  lemma StepReportsCustom(server: MetricServer, client: Client, job: Job, a: Action, w: Shared, after: Shared)
    requires FollowsScript(server, job) && ReportsCustom(server, job, w) && Enabled(server, job, a)
    requires client.name == server.name && Applied(client, CallMade(server, job, a), w, after)
    ensures ReportsCustom(server, Moved(server, job, a), after)
  {
  }

  lemma StepReportsExternal(server: MetricServer, client: Client, job: Job, a: Action, w: Shared, after: Shared)
    requires FollowsScript(server, job) && ReportsExternal(server, job, w) && Enabled(server, job, a)
    requires client.name == server.name && Applied(client, CallMade(server, job, a), w, after)
    ensures ReportsExternal(server, Moved(server, job, a), after)
  {
  }

  lemma OwnStepKeepsJobInv(server: MetricServer, client: Client, job: Job, a: Action, w: Shared, after: Shared)
    requires JobInv(server, client, job, w) && Enabled(server, job, a)
    requires client.name == server.name && Applied(client, CallMade(server, job, a), w, after)
    ensures JobInv(server, client, Moved(server, job, a), after)
  {
    StepFollowsScript(server, job, a);
    StepLagsByOne(server, client, job, a, w, after);
    StepRegistryAgrees(server, client, job, a, w, after);
    StepHasPublished(server, client, job, a, w, after);
    StepNoElasticExternal(server, client, job, a, w, after);
    StepReportsCustom(server, client, job, a, w, after);
    StepReportsExternal(server, client, job, a, w, after);
  }

  /** A listener call by one client changes nothing that is recorded under another name. */
  lemma OthersSeeNoEvent(other: Client, call: Option<Call>, name: string, t: MetricType, w: Shared, after: Shared)
    requires Applied(other, call, w, after) && other.name != name
    ensures Successes(after.events, name, t) == Successes(w.events, name, t)
    ensures TrailingFailures(after.events, name, t) == TrailingFailures(w.events, name, t)
  {
  }

  lemma OthersSeeNoUpdate(other: Client, call: Option<Call>, name: string, w: Shared, after: Shared)
    requires Applied(other, call, w, after) && other.name != name
    ensures UpdatesOf(after.customUpdates, name) == UpdatesOf(w.customUpdates, name)
    ensures UpdatesOf(after.externalUpdates, name) == UpdatesOf(w.externalUpdates, name)
    ensures var p, q := PublishedBy(w.customUpdates), PublishedBy(after.customUpdates);
            (name in q <==> name in p) && (name in p ==> q[name] == p[name])
  {
  }

  lemma OtherStepKeepsJobInv(
    server: MetricServer, client: Client, job: Job, other: Client, call: Option<Call>, w: Shared, after: Shared)
    requires JobInv(server, client, job, w) && Applied(other, call, w, after) && other.name != server.name
    ensures JobInv(server, client, job, after)
  {
    OthersSeeNoEvent(other, call, server.name, Custom, w, after);
    OthersSeeNoEvent(other, call, server.name, External, w, after);
    OthersSeeNoUpdate(other, call, server.name, w, after);
  }

  // ----- The whole state -----

  function JobLatches(jobs: seq<Job>): (latches: seq<bool>)
    ensures |latches| == |jobs| && forall i :: 0 <= i < |jobs| ==> latches[i] == jobs[i].latch
  {
    seq(|jobs|, i requires 0 <= i < |jobs| => jobs[i].latch)
  }

  ghost predicate PublishersKnown<M>(servers: seq<MetricServer>, updates: seq<Publication<M>>) {
    forall n :: n in PublishedBy(updates) ==>
      exists j :: 0 <= j < |servers| && servers[j].name == n && PublishedBy(updates)[n].client == ClientOf(servers, j)
  }

  ghost predicate SharedInv(servers: seq<MetricServer>, w: Shared) {
    && Agrees(w.custom, PublishedBy(w.customUpdates)) && Agrees(w.external, PublishedBy(w.externalUpdates))
    && PublishersKnown(servers, w.customUpdates) && PublishersKnown(servers, w.externalUpdates)
  }

  ghost predicate Inv(servers: seq<MetricServer>, s: State) {
    && |s.jobs| == |servers|
    && s.wg == Pending(JobLatches(s.jobs))
    && (s.released ==> s.wg == 0)
    && SharedInv(servers, s.shared)
    && forall j :: 0 <= j < |servers| ==> JobInv(servers[j], ClientOf(servers, j), s.jobs[j], s.shared)
  }

  lemma InitInv(servers: seq<MetricServer>, s: State)
    requires Init(servers, s)
    ensures Inv(servers, s)
  {
    PendingAtStart(JobLatches(s.jobs));
    assert PublishedBy(s.shared.customUpdates) == map[] && PublishedBy(s.shared.externalUpdates) == map[];
  }

  lemma PublishersStayKnown<M>(servers: seq<MetricServer>, updates: seq<Publication<M>>, j: nat, metrics: set<M>)
    requires j < |servers| && PublishersKnown(servers, updates)
    ensures PublishersKnown(servers, updates + [Publication(ClientOf(servers, j), metrics)])
  {
  }

  lemma StepSharedInv(servers: seq<MetricServer>, j: nat, call: Option<Call>, w: Shared, after: Shared)
    requires j < |servers| && SharedInv(servers, w) && Applied(ClientOf(servers, j), call, w, after)
    ensures SharedInv(servers, after)
  {
    var client := ClientOf(servers, j);
    match call
    case None =>
    case Some(UpdateCustom(listener, cms)) =>
      if listener == MetricsRegistry {
        UpdateKeepsAgreement(w.custom, PublishedBy(w.customUpdates), client, cms, after.custom);
        OneMoreUpdate(w.customUpdates, Publication(client, cms), client.name);
        PublishersStayKnown(servers, w.customUpdates, j, cms);
      }
    case Some(UpdateExternal(listener, ems)) =>
      if listener == MetricsRegistry {
        UpdateKeepsAgreement(w.external, PublishedBy(w.externalUpdates), client, ems, after.external);
        OneMoreUpdate(w.externalUpdates, Publication(client, ems), client.name);
        PublishersStayKnown(servers, w.externalUpdates, j, ems);
      }
    case Some(OnError(listener, t)) =>
  }

  lemma StepJobs(servers: seq<MetricServer>, s: State, step: Step, after: State)
    requires Configured(servers) && Inv(servers, s) && step.JobStep? && Next(servers, s, step, after)
    ensures forall i :: 0 <= i < |servers| ==> JobInv(servers[i], ClientOf(servers, i), after.jobs[i], after.shared)
  {
    var j := step.j;
    forall i | 0 <= i < |servers|
      ensures JobInv(servers[i], ClientOf(servers, i), after.jobs[i], after.shared)
    {
      if i == j {
        OwnStepKeepsJobInv(servers[j], ClientOf(servers, j), s.jobs[j], step.action, s.shared, after.shared);
      } else {
        OtherStepKeepsJobInv(servers[i], ClientOf(servers, i), s.jobs[i], ClientOf(servers, j),
                             CallMade(servers[j], s.jobs[j], step.action), s.shared, after.shared);
      }
    }
  }

  lemma StepWaitGroup(servers: seq<MetricServer>, s: State, step: Step, after: State)
    requires Inv(servers, s) && Next(servers, s, step, after)
    ensures after.wg == Pending(JobLatches(after.jobs)) && (after.released ==> after.wg == 0)
  {
    if step.JobStep? {
      PendingAfterFiring(JobLatches(s.jobs), step.j);
      assert JobLatches(after.jobs) ==
        if step.action.Syncs? then JobLatches(s.jobs)[step.j := true] else JobLatches(s.jobs);
    }
  }

  lemma NextInv(servers: seq<MetricServer>, s: State, step: Step, after: State)
    requires Configured(servers) && Inv(servers, s) && Next(servers, s, step, after)
    ensures Inv(servers, after)
  {
    StepWaitGroup(servers, s, step, after);
    if step.JobStep? {
      StepJobs(servers, s, step, after);
      StepSharedInv(servers, step.j, CallMade(servers[step.j], s.jobs[step.j], step.action), s.shared, after.shared);
    }
  }

  lemma {:induction false} ExecutionInv(servers: seq<MetricServer>, states: seq<State>, steps: seq<Step>)
    requires Configured(servers) && IsExecution(servers, states, steps)
    ensures Inv(servers, states[|steps|])
  {
    var k := |steps|;
    if k == 0 {
      InitInv(servers, states[0]);
    } else {
      PrefixIsExecution(servers, states, steps, k - 1);
      ExecutionInv(servers, states[..k], steps[..k - 1]);
      NextInv(servers, states[k - 1], steps[k - 1], states[k]);
    }
  }

  lemma PrefixIsExecution(servers: seq<MetricServer>, states: seq<State>, steps: seq<Step>, k: nat)
    requires IsExecution(servers, states, steps) && k <= |steps|
    ensures IsExecution(servers, states[..k + 1], steps[..k])
  {
  }

  /** Some execution ends in this state. (The number of jobs never changes; saying so here saves saying it
      wherever a job of a reachable state is mentioned.) */
  ghost predicate Reachable(servers: seq<MetricServer>, s: State) {
    && |s.jobs| == |servers|
    && exists states: seq<State>, steps: seq<Step> :: IsExecution(servers, states, steps) && states[|steps|] == s
  }

  lemma ReachableInv(servers: seq<MetricServer>, s: State)
    requires Configured(servers) && Reachable(servers, s)
    ensures Inv(servers, s)
  {
    var states: seq<State>, steps: seq<Step> :| IsExecution(servers, states, steps) && states[|steps|] == s;
    ExecutionInv(servers, states, steps);
  }

  lemma InitReachable(servers: seq<MetricServer>, s: State)
    requires Init(servers, s)
    ensures Reachable(servers, s)
  {
    var steps: seq<Step> := [];
    assert IsExecution(servers, [s], steps) && [s][|steps|] == s;
  }

  lemma NextReachable(servers: seq<MetricServer>, s: State, step: Step, after: State)
    requires Reachable(servers, s) && Next(servers, s, step, after)
    ensures Reachable(servers, after)
  {
    var states: seq<State>, steps: seq<Step> :| IsExecution(servers, states, steps) && states[|steps|] == s;
    var longer, more := states + [after], steps + [step];
    forall i | 0 <= i < |more|
      ensures Next(servers, longer[i], more[i], longer[i + 1])
    {
    }
    assert IsExecution(servers, longer, more) && longer[|more|] == after;
  }

  /** The state after one step of one job that has this effect on the listeners. */
  lemma StepReachable(servers: seq<MetricServer>, s: State, j: nat, a: Action, w: Shared) returns (after: State)
    requires Reachable(servers, s) && j < |servers| && Enabled(servers[j], s.jobs[j], a)
    requires Applied(ClientOf(servers, j), CallMade(servers[j], s.jobs[j], a), s.shared, w)
    ensures Reachable(servers, after) && Next(servers, s, JobStep(j, a), after)
    ensures after == s.(jobs := s.jobs[j := Moved(servers[j], s.jobs[j], a)], shared := w,
                        wg := if a.Syncs? && !s.jobs[j].latch then s.wg - 1 else s.wg)
  {
    after := s.(jobs := s.jobs[j := Moved(servers[j], s.jobs[j], a)], shared := w,
                wg := if a.Syncs? && !s.jobs[j].latch then s.wg - 1 else s.wg);
    NextReachable(servers, s, JobStep(j, a), after);
  }

  /** Every state of every execution is reachable. */
  lemma {:induction false} ExecutionsReach(servers: seq<MetricServer>, states: seq<State>, steps: seq<Step>, k: nat)
    requires IsExecution(servers, states, steps) && k <= |steps|
    ensures Reachable(servers, states[k])
  {
    if k == 0 {
      InitReachable(servers, states[0]);
    } else {
      ExecutionsReach(servers, states, steps, k - 1);
      NextReachable(servers, states[k - 1], steps[k - 1], states[k]);
    }
  }
}
