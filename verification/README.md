# Verified model of the Elasticsearch Kubernetes metrics adapter

The adapter polls several metric servers, each through a client and a refresh job. Every refresh lists the
metrics the server offers and publishes the list to two listeners: a monitoring server, behind the readiness
probe, and a registry, which routes each requested metric to the client of highest priority that offers it. An
Elasticsearch client finds its metrics by walking index mappings; it lists them under aliases, and later turns
an alias back into a field name and reads that field from a search hit.

The project models these parts and proves what they guarantee together.

- `Clients`, `Routing`, `Registry`: the routing registry. It maintains one list object per metric by diffing,
  removing, replacing and re-sorting in place; it is proved to agree at all times with something much simpler,
  the latest publication under each client name.
- `Text`, `Json`, `Query`, `Naming`, `Walk`, `Discovery`, `DiscoveryLaws`, `ListingLaws`, `FieldLaws`, `OrderLaws`:
  discovery, renaming and reading back. The walk is proved to find exactly the numeric leaves of a mapping.
  `ListingLaws` says what a discovery lists, how it fails and what a lookup answers, all in terms of the
  configuration and the documents. `FieldLaws` says
  which fields of a mapping these are, and exactly when a name reads the field it came from. `OrderLaws` says what
  the order in which Go ranges over maps can change, and exactly when.
- `Monitoring`: the readiness probe, proved equal to a predicate on the history of events: which have happened, and
  how many failures no success has followed.
- `Scheduler`, `Protocol`, `ProtocolLaws`, `ProgressLaws`, `NamesakeLaws`, `Delivery`: the jobs. `Scheduler` is the sequential code, `Protocol` a
  transition system in which any number of jobs interleave, one listener call per step. Every theorem of
  `ProtocolLaws` is about all reachable states, and several join all the other parts. `ProgressLaws` says what
  can always still happen: no job is ever blocked, and the initial sync can still be completed. `NamesakeLaws` says
  what is left when two servers share a name. `Delivery` ties the sequential code and the protocol together: a listener call changes the monitoring and registry objects as a protocol step says, and every
  refresh of the sequential code is a run of the protocol.
- `Config`, `Metrics`, `Wrappers`: the configuration, the metric names and two small datatypes.

## How the source is represented

- Code that updates state in place is a class with the same fields and methods, specified by a function or
  relation on values; the theorems are about those. `UpdateStep` relates the routing tables before and after one
  update. It is a relation and not a function because `sort.Sort` is unstable: any sorted permutation may
  result. It is established from any table whatever (`UpdateTable`), including the unsorted ones the tests of the
  repository start from; agreement with the latest publications is kept from the empty registry on.
- A client is an immutable value with an identity, a name and a priority, as `GetConfiguration` never changes.
- A decoded JSON object is the sequence of its entries in one order in which a `range` loop may visit them.
  Two orders of the same document, at every depth, are related by `Reordered`.
- Regular expressions are arbitrary predicates on names and the rename an arbitrary total function. Requests to
  Elasticsearch and to other adapters are parameters: what they bring back, or how they fail.
- A Go panic is an outcome (`Panicked`). A discovery can panic on a template that does not parse, on an index
  that is not an object, and on a leaf whose "type" is not a string.
- In `Protocol` the atomic steps are: the end of a listing (for an Elasticsearch client, the swap of its tables),
  each listener call, and the firing of the once-latch together with `WaitGroup.Done`. A job that is idle may
  start again at any time. The order of the listeners is that of `main`: monitoring first, registry second.
- `Configured` requires distinct server names. The configuration code does not check this; the theorems of
  `NamesakeLaws` are free of it.

## Where a natural expectation is false

- Two fields, one name: the walk leaves out every key "properties", the name of a field or not, and empty keys at
  the start of a path, and it joins the rest by dots. Two fields of a mapping share a name exactly when what is
  left of their field names has the same pieces, each cut at its own dots (`FieldsCollideExactly`; for any two leaf
  paths, `CollisionIsExact`). "a.b" at the top and "b" inside "a" are a case (`DottedFieldNamesCollide`), "x" at
  the top and "x" inside a field "properties" another.
- Listed but not readable: a name reads its own field, in every search hit, exactly when no field name on its path
  holds a dot or is "properties", and the path does not start with an empty one (`YieldedNameReadsItsField`). Two
  failing inputs, of different kinds: a field mapped as "a.b" (`DottedFieldIsNotRead`), and a field "x" inside a
  field called "properties" (`FieldBelowPropertiesIsNotRead`).
- Found but no field, field but not found: the walk may take the "meta" of a field called "properties" for a field
  (`MetaTakenForField`); in a mapping whose only objects at such places are tables of fields it finds nothing but
  fields (`OnlyFieldsAreFound`). A field without fields of its own is passed over exactly when it is called
  "properties", or it or a field around it is called "*" (`FieldIsVisitedExactly`).
- Listed but not resolvable: under a rename, a static field that no mapping yields is listed under its own name
  but never registered as an alias. `StaticFieldLostUnderRename` is a concrete case. It resolves exactly when its
  name happens to be the alias of a mapped field (`ListedResolvesExactly`), and then to that field and never to
  itself (`StaticNeverAnswersItself`).
- The order of map iteration, 1: whether a discovery succeeds does not depend on it, nor do the infos and metadata
  it then leaves (`DiscoveryIgnoresOrder`). How it goes wrong may: by an error or by a panic
  (`FailureDependsOnOrder`), exactly when the first response that is not in order holds both an index without
  "mappings" and an index that makes it panic (`FailureIsAmbiguousExactly`).
- The order of map iteration, 2: when two fields are exposed under one alias, the alias resolves to whichever is
  visited last (`AliasDependsOnOrder`). What an alias resolves to is independent of the order exactly when there
  is no rename, or the last metric set that yields a name exposed under the alias yields only one such name
  (`LookupIgnoresOrderExactly`; for the whole table `AliasesIgnoreOrderExactly`).
- Ready but not routable: the probe may succeed before the registry has received anything (`ReadyBeforeRoutable`);
  this is so for a server and type exactly while its first publication is in flight (`ReadyMeansRoutable`).
- Routable but not resolvable: while a refresh is between the swap of the client's tables and the registry's
  update, a metric that the registry still routes may be gone from the tables (`RoutedButGone`). When the lookup
  succeeds is stated for every reachable state (`RoutedLookupIsExact`).
- Equal priorities: the publications determine the routing exactly when no two publishers of a metric share a
  priority (`DeterminedExactlyByPriorities`). Otherwise the order in which they first published shows, even if no
  sort ever moves clients of equal priority (`OrderOfArrivalShows`); and the contract of `sort.Sort`, which is not
  stable, admits a change when a client merely publishes the same again (`SharedPriorityIsAmbiguous`). Priorities
  taken from configuration positions never collide.
- One name, two servers: a configuration with namesakes is accepted, and then what a client holds need not be
  served (`NamesakeEvicts`). Outside the window the registry attributes to a client what it holds exactly when it
  holds nothing or made the latest update under its name (`MirrorsExactly`).

## Model

| member | source | states |
|---|---|---|
| Clients.MetricClients.Sort | pkg/registry/clients.go:34-45 | sorting through Less and Swap leaves a permutation by descending priority; nothing is promised about equal priorities |
| Clients.MetricClients.Swap | pkg/registry/clients.go:43-45 | exchanges two positions and keeps the members |
| Clients.MetricClients.AddOrUpdateClient | pkg/registry/clients.go:47-61 | the client takes the place of its first namesake or joins the list, which ends up sorted |
| Clients.MetricClients.RemoveClient | pkg/registry/clients.go:63-76 | the first client of that name goes and the rest is sorted; an absent name changes nothing; reports emptiness |
| Clients.ClientTakesFirstPlace | pkg/registry/clients.go:47-61 | the first namesake, and only it, gives its place to the client |
| Clients.FirstPlaceIsLeft | pkg/registry/clients.go:63-76 | the first client of the name, and only it, is left out |
| Registry.MetricIndex.MetricsFrom | pkg/registry/registry.go:56-90 | exactly the metrics whose list holds a client of that name |
| Registry.Removed | pkg/registry/registry.go:154-172 | exactly the metrics served before and not any more, once each |
| Registry.MetricIndex.UpdateTable | pkg/registry/registry.go:96-123 | from any table, an update withdraws the client where it no longer publishes, deletes lists that become empty, announces it where it publishes, and leaves every other metric untouched |
| Registry.MetricIndex.Update | pkg/registry/registry.go:96-123 | the same step keeps the table in agreement with the latest publications |
| Registry.MetricIndex.GetClient | pkg/registry/registry.go:174-199 | a client of maximal priority among the publishers, not found exactly when there are none; the no-backend branch is unreachable |
| Registry.MetricIndex.ListAll | pkg/registry/registry.go:227-238 | every metric somebody publishes, once each |
| Registry.Registry.constructor | pkg/registry/registry.go:47-54 | starts in agreement with no publication at all |
| Registry.Registry.UpdateCustomMetrics | pkg/registry/registry.go:96-123 | follows the update step on custom routing and leaves external routing alone |
| Registry.Registry.UpdateExternalMetrics | pkg/registry/registry.go:125-152 | follows the update step on external routing and leaves custom routing alone |
| Registry.Registry.GetCustomMetricClient | pkg/registry/registry.go:174-199 | routes a custom metric to a publisher of maximal priority or answers that it is not served |
| Registry.Registry.GetExternalMetricClient | pkg/registry/registry.go:201-225 | the same for an external metric |
| Registry.Registry.ListAllCustomMetrics | pkg/registry/registry.go:227-238 | all published custom metrics, once each |
| Registry.Registry.ListAllExternalMetrics | pkg/registry/registry.go:240-251 | all published external metrics, once each |
| Routing.UpdateKeepsAgreement | pkg/registry/registry.go:96-123 | whatever the sort does, an update keeps: a metric has an entry iff some latest publication contains it, listing exactly its publishers, each once and as last passed in, by descending priority |
| Routing.RunAgrees | pkg/registry/registry.go:47-152 | the same after any sequence of updates from an empty registry |
| Routing.LatestPublication | pkg/registry/registry.go:96-152 | what counts for a name is its own last update |
| Routing.AgreeingTables | pkg/registry/clients.go:38-61 | the publications fix keys and members of the routing, and also the order when priorities are unambiguous |
| Routing.DeterminedExactlyByPriorities | pkg/registry/clients.go:38-61 | the publications determine the table iff no two publishers of a metric share a priority |
| Routing.SharedPriorityIsAmbiguous | pkg/registry/clients.go:38-61 | with a shared priority a second, different table is just as legal, and as far as the sort's contract goes an update that publishes the same again may produce it |
| Routing.OrderOfArrivalShows | pkg/registry/clients.go:34-61 | two runs with the same publications, in which a sorted list is always left alone, that end in different tables |
| Routing.Confluence | pkg/registry/registry.go:96-123 | runs in which each client's last update is the same end with the same routing, whatever the interleaving and whatever came before |
| Routing.UpdatesCommute | pkg/registry/registry.go:96-123 | updates by clients of different names commute |
| Routing.UpdateKeepsOthers | pkg/registry/registry.go:96-123 | an update changes no other client's membership |
| Routing.UpdateKeepsOrder | pkg/registry/clients.go:38-76 | nor the relative order of other clients of different priorities |
| Routing.RepublishingIsIdempotent | pkg/registry/registry.go:96-123 | publishing the same set again changes no membership, and nothing at all under unambiguous priorities |
| Routing.RoutingIsOptimal | pkg/registry/clients.go:78-84 | the head of a list is a publisher of maximal priority, and no list is empty |
| Config.FindMetadataIsFirstMatch | pkg/config/config.go:119-128 | the first group of fields one of whose patterns matches, none iff no pattern of any group matches |
| Config.TypesServed | pkg/config/metric_types.go:34-45 | a server without metric types serves both, any other those it lists |
| Config.AssignPriorities | pkg/config/config.go:151-154 | each server's priority becomes its position, nothing else changes |
| Text.SplitOfJoin | pkg/client/elasticsearch/query.go:234-259 | splitting a join gives the segments back iff no segment holds a dot |
| Text.SplitOfJoinIsPieces | pkg/client/elasticsearch/query.go:234-259 | splitting a join cuts every segment at its own dots |
| Text.JoinOfSplit | pkg/client/elasticsearch/query.go:234-259 | joining a split gives the string back |
| Text.SameJoin | pkg/client/elasticsearch/query.go:234-259 | two lists of segments have the same join iff they have the same pieces |
| Query.GetValueIsDescend | pkg/client/elasticsearch/query.go:234-259 | re-joining and re-splitting at each level equals one walk over the segments, successes and errors alike |
| Query.GetValueOfJoined | pkg/client/elasticsearch/query.go:234-259 | a joined name reads what the pieces of its segments lead to |
| Query.JoinedReadsSegments | pkg/client/elasticsearch/query.go:234-259 | it reads what the segments themselves lead to, in every document, iff none holds a dot |
| Json.SameDescend | pkg/client/elasticsearch/query.go:242-257 | descending does not depend on the order of entries |
| Json.DescendFollowsEntries | pkg/client/elasticsearch/query.go:242-258 | descending follows entries to the end of the path, or to where the next key is missing or what was reached is no object |
| Json.DocumentsTellPathsApart | pkg/client/elasticsearch/query.go:242-257 | two lists of keys read the same from every document iff they are the same list |
| Naming.Namer.Register | pkg/config/name.go:62-72 | returns the source expanded when it matches and unchanged otherwise, and records it as the latest under that alias |
| Naming.Namer.Get | pkg/config/name.go:74-77 | the last source registered under the alias; without a rule the alias itself |
| Naming.NewNamer | pkg/config/name.go:47-60 | fails exactly on an expression that does not compile (whether it does is a parameter); otherwise a fresh, empty table |
| Naming.TableHoldsLatestSources | pkg/config/name.go:62-77 | after any registrations the table answers each alias with the last source registered under it |
| Naming.LatestSourceIsRegistered | pkg/config/name.go:62-77 | an answer is a registered source whose rename is the alias asked for, and there is one exactly for such aliases |
| Naming.GetAfterRegister | pkg/config/name.go:62-77 | reading back a registered source succeeds exactly when nothing else was registered last under its alias since |
| Naming.InjectiveRoundTrip | pkg/config/name.go:29-77 | under an injective rename, or none, every registered source reads back |
| Naming.AliasesIgnoreOrder | pkg/config/name.go:62-72 | under an injective rename the table does not depend on the order of registration |
| Naming.OrderShowsExactly | pkg/config/name.go:62-72 | the table is the same for every order of registration iff the rename is injective on the sources |
| Walk.WalkIsSound | pkg/client/elasticsearch/discovery.go:179-237 | each recorded name comes from a numeric leaf at the end of a key path and is its dotted name |
| Walk.WalkIsComplete | pkg/client/elasticsearch/discovery.go:179-237 | each such leaf that matches a pattern is recorded |
| Walk.WalkIsExact | pkg/client/elasticsearch/discovery.go:39-54 | a name is recorded iff a key path yields it |
| Walk.NumericExactly | pkg/client/elasticsearch/discovery.go:39-54 | a leaf is numeric iff its "type" is one of the nine numeric types, and badly typed iff it is no string |
| Walk.PanicIsExact | pkg/client/elasticsearch/discovery.go:204-208 | the type assertion fails iff some key path leads to a leaf whose type is not a string |
| Walk.DottedNameIsJoin | pkg/client/elasticsearch/discovery.go:197-215 | the name is the dotted join of the keys the walk keeps, without empty ones at the start; of all of them iff they do not start with an empty one |
| Walk.CleanPath | pkg/client/elasticsearch/discovery.go:179-203 | in a clean mapping a leaf path is its field names with "properties" between them |
| Walk.NamesIdentifyPaths | pkg/client/elasticsearch/discovery.go:179-215 | in a clean mapping a name belongs to one key path |
| Walk.DottedFieldNamesCollide | pkg/client/elasticsearch/discovery.go:197-215 | a mapping with dots in field names in which two key paths share a name |
| Walk.CollisionIsExact | pkg/client/elasticsearch/discovery.go:197-215 | two leaf paths share a name iff the keys the walk keeps of them, each cut at its own dots, have the same pieces |
| Walk.SplitOfName | pkg/client/elasticsearch/query.go:235 | splitting the name of a path gives the keys the walk keeps iff none holds a dot and the first of several is not empty |
| Walk.WalkIgnoresOrder | pkg/client/elasticsearch/discovery.go:179-237 | reordering entries at any depth changes neither the recorded names nor whether the walk panics |
| Discovery.Recorder.Process | pkg/client/elasticsearch/discovery.go:179-237 | the recursive walk records exactly the names, infos, metadata and registrations of the mapping, or panics |
| Discovery.Recorder.ProcessEntry | pkg/client/elasticsearch/discovery.go:180-236 | the same for one entry |
| Discovery.Recorder.ProcessMappingDocument | pkg/client/elasticsearch/discovery.go:152-163 | the walk starts at the "properties" of the mapping and does nothing without one |
| Discovery.Recorder.RecordMappings | pkg/client/elasticsearch/discovery.go:119-150 | records the mapping of every index of a response, up to the first failure |
| Discovery.Recorder.RecordStatics | pkg/client/elasticsearch/discovery.go:71-103 | records the static fields in configuration order, up to the first that does not parse |
| Discovery.Recorder.RecordAllMappings | pkg/client/elasticsearch/discovery.go:105-109 | records the metric sets in turn, up to the first failure |
| Discovery.MetricsClient.DiscoverMetrics | pkg/client/elasticsearch/discovery.go:64-117 | swaps in new tables exactly when the whole discovery succeeds and otherwise changes nothing |
| Discovery.MetricsClient.ListCustomMetricInfos | pkg/client/elasticsearch/client.go:154-165 | returns exactly the values of the tables just swapped in |
| Discovery.MetricsClient.LookupMetric | pkg/client/elasticsearch/client.go:236-246 | resolves an alias to a name and its metadata in the current tables |
| DiscoveryLaws.DiscoverySucceeds | pkg/client/elasticsearch/discovery.go:64-150 | a discovery succeeds iff rename and static searches parse and all responses are mappings with string leaf types |
| DiscoveryLaws.WinningMetadata | pkg/client/elasticsearch/discovery.go:71-109 | a name's metadata is that of the last metric set whose mapping yields it, first matching group; else of its last static definition |
| ListingLaws.YieldedExactly | pkg/client/elasticsearch/discovery.go:139-163 | a mapping yields a name iff a key path below "mappings" and "properties" of one of its indices does |
| ListingLaws.ListedExactly | pkg/client/elasticsearch/discovery.go:71-103 | listed is what some mapping yields, under its renamed name when it matches, and every static field under its own, as namespaced metrics of pods |
| ListingLaws.LookupAnswersWhatIsStored | pkg/client/elasticsearch/client.go:236-246 | a lookup answers the stored metadata of the name; without a rename each listed name its own |
| ListingLaws.StaticResolvesToLastDefinition | pkg/client/elasticsearch/discovery.go:89-92 | without a rename an unmapped static field resolves to its last definition: its search over the indices of its metric set |
| ListingLaws.MappedResolvesToLastSet | pkg/client/elasticsearch/discovery.go:217-233 | a mapped field resolves to the first matching group of the last metric set that yields it, over its indices |
| ListingLaws.BadRenameFails | pkg/client/elasticsearch/discovery.go:65-68 | a rename that does not compile fails the discovery |
| ListingLaws.BadStaticFails | pkg/client/elasticsearch/discovery.go:76-87 | the first static field that does not parse ends it: a panic for the template, an error for a query, in that order |
| ListingLaws.BadAnswerFails | pkg/client/elasticsearch/discovery.go:119-133 | otherwise the first bad response does, each kind with its own error |
| ListingLaws.BadIndexFails | pkg/client/elasticsearch/discovery.go:139-146 | or the first bad index: no mappings is an error, no object or a leaf type that is no string a panic |
| DiscoveryLaws.DiscoveryIsCoherent | pkg/client/elasticsearch/discovery.go:222-233 | infos and metadata have the same names; mapped names are listed under their alias, the rest are static fields under their own |
| DiscoveryLaws.ListedResolvesExactly | pkg/client/elasticsearch/client.go:236-246 | what is listed resolves, collisions or not, except exactly the static fields lost under a rename |
| DiscoveryLaws.LookupAnswersMappedFields | pkg/client/elasticsearch/client.go:236-246 | a listed mapped field resolves to a mapped field of the same alias; to itself iff there is no rename or it was registered last under the alias |
| DiscoveryLaws.LookupIsExact | pkg/client/elasticsearch/client.go:236-246 | any alias: without a rename it resolves iff it is a listed name, with one iff some mapped field is exposed under it |
| DiscoveryLaws.StaticNeverAnswersItself | pkg/client/elasticsearch/discovery.go:89-100 | under a rename a static field that no mapping yields resolves to nothing or to another, mapped field |
| DiscoveryLaws.StaticFieldLostUnderRename | pkg/client/elasticsearch/discovery.go:89-100 | a static field listed under a rename that cannot be resolved |
| DiscoveryLaws.DiscoveredNameReadsItsField | pkg/client/elasticsearch/query.go:188 | on a clean mapping a name comes from one key path and reads exactly what that path leads to in a hit |
| DiscoveryLaws.YieldedNameReadsItsSegments | pkg/client/elasticsearch/query.go:188 | on any mapping, a name reads what the keys the walk keeps of its path lead to, in every hit, iff none holds a dot and they have no empty start |
| FieldLaws.YieldedNameReadsItsField | pkg/client/elasticsearch/query.go:188 | the name of a field reads that field, in every hit, iff no field name on its path holds a dot or is "properties", and the path has no empty start |
| FieldLaws.FieldBelowPropertiesIsNotRead | pkg/client/elasticsearch/discovery.go:184-190 | a field inside a field called "properties" is recorded without it, and a hit that holds it does not read |
| FieldLaws.FieldsCollideExactly | pkg/client/elasticsearch/discovery.go:184-215 | two fields share a name iff their field names have the same pieces, without those called "properties" and without an empty start |
| FieldLaws.FieldIsVisitedExactly | pkg/client/elasticsearch/discovery.go:180-203 | a field without subfields is visited iff it is not called "properties" and no field on its path is called "*" |
| FieldLaws.OnlyFieldsAreFound | pkg/client/elasticsearch/discovery.go:179-203 | in a structured mapping every leaf the walk finds is a field |
| FieldLaws.NestedFieldIsRecorded | pkg/client/elasticsearch/discovery.go:193-215 | a clean mapping with a field inside another, recorded under the dotted name |
| FieldLaws.MetaTakenForField | pkg/client/elasticsearch/discovery.go:184-203 | elsewhere it may record what is no field |
| DiscoveryLaws.SourceReads | pkg/client/elasticsearch/query.go:188 | any name at all reads what its pieces lead to below _source |
| DiscoveryLaws.DottedFieldIsNotRead | pkg/client/elasticsearch/query.go:188 | a recorded field "a.b" and a hit that holds it and does not read |
| DiscoveryLaws.ListedMetricReadsItsField | pkg/client/elasticsearch/client.go:236-247 | from the listed alias through name and metadata to the value read from a hit |
| OrderLaws.DiscoveryIgnoresOrder | pkg/client/elasticsearch/discovery.go:138-146 | map iteration order changes neither success nor infos, metadata and registered names, nor the aliases under an injective rename |
| OrderLaws.FailureDependsOnOrder | pkg/client/elasticsearch/discovery.go:139-146 | one discovery that fails or panics depending on which index is visited first |
| OrderLaws.FailuresOfIndices | pkg/client/elasticsearch/discovery.go:139-146 | the indices of a response can be visited so that they fail iff one lacks mappings, so that they panic iff one makes them panic |
| OrderLaws.FailureIsAmbiguousExactly | pkg/client/elasticsearch/discovery.go:105-146 | how a discovery ends depends on the order iff the first response not in order holds both kinds of faulty index; then both ends occur |
| OrderLaws.LookupIgnoresOrderExactly | pkg/client/elasticsearch/discovery.go:139-232 | what an alias resolves to is independent of the order iff there is no rename or the last metric set exposing the alias yields one such name only |
| OrderLaws.AliasesIgnoreOrderExactly | pkg/config/name.go:62-72 | the alias table of a discovery is independent of the order iff that holds for every alias |
| OrderLaws.WalkEndsWith | pkg/client/elasticsearch/discovery.go:179-237 | any name a walk records can be the last it records, in some order of the entries |
| OrderLaws.AliasDependsOnOrder | pkg/config/name.go:70 | two fields of one alias: one order resolves it to one, the other order to the other |
| Monitoring.Server.constructor | pkg/monitoring/server.go:68-90 | counters start at zero for exactly the expected types; threshold 0 means 3 |
| Monitoring.Server.OnError | pkg/monitoring/server.go:102-113 | the counters count one more failure of that client and type |
| Monitoring.Server.UpdateCustomMetrics | pkg/monitoring/server.go:128-139 | one more success, failure streak cleared, other counters untouched |
| Monitoring.Server.UpdateExternalMetrics | pkg/monitoring/server.go:115-126 | the same for external metrics |
| Monitoring.Server.IsReadyAndHealthy | pkg/monitoring/server.go:158-184 | succeeds iff the event history is ready; otherwise the complaint about the first server that has one |
| Monitoring.ReadyIsNoComplaint | pkg/monitoring/server.go:164-183 | every check passes iff each expected type has succeeded and no trailing run of failures reaches the threshold |
| Monitoring.CountsAreNumbersOfEvents | pkg/monitoring/server.go:102-139 | the counters are numbers of events: of all successes, and of the failures that no success has followed |
| Monitoring.StreakLength | pkg/monitoring/server.go:102-122 | since its last success a client has failed as often as failures of it were reported |
| Monitoring.ReadyFromEvents | pkg/monitoring/server.go:158-184 | ready, said of the events and the metric types in the configuration alone |
| Monitoring.DiagnosisFromEvents | pkg/monitoring/server.go:164-183 | which complaint is made, said of the events: missing types before streaks, custom before external |
| Monitoring.SuccessClearsStreak | pkg/monitoring/server.go:119-122 | a success clears its own failure streak and no other, and never costs readiness |
| Scheduler.MetricJob.RefreshMetrics | pkg/scheduler/job.go:68-125 | the listener calls of one refresh, in order, and the once-latch fired at the first fully successful one |
| Scheduler.MetricJob.PublishError | pkg/scheduler/job.go:127-131 | every error listener is told, in order |
| Scheduler.RefreshCallByCall | pkg/scheduler/job.go:68-131 | the calls of a refresh one by one, said of the metric types and the two listings; which refreshes count for the first sync |
| Scheduler.Scheduler.constructor | pkg/scheduler/scheduler.go:62-73 | one job per client and a wait group that counts them |
| Scheduler.Scheduler.WithMetricListeners | pkg/scheduler/scheduler.go:43-50 | every job gets the listeners in the given order |
| Scheduler.Scheduler.WithErrorListeners | pkg/scheduler/scheduler.go:52-59 | every job gets the error listeners in the given order |
| Scheduler.Scheduler.Refresh | pkg/scheduler/job.go:117-124 | a refresh fires at most its own latch and keeps the wait group equal to the unfired latches |
| Scheduler.Scheduler.InitialSyncReached | pkg/scheduler/scheduler.go:87-92 | the counter is zero iff every latch has fired |
| Scheduler.Assemble | main.go:112-118 | every job hears monitoring first and the registry second; errors go to monitoring |
| Protocol.NextInv | pkg/scheduler/job.go:68-125 | every step of every job, and the return of the wait, keeps the global invariant |
| Protocol.ReachableInv | pkg/scheduler/job.go:57-125 | the global invariant holds in every reachable state |
| Protocol.ExecutionsReach | pkg/scheduler/job.go:57-66 | every state of every execution counts as reachable |
| ProtocolLaws.InitialSyncBarrier | pkg/scheduler/scheduler.go:87-92 | when the wait returns, each job has completed a successful refresh, the registry has received the very lists of it for every enabled type, and monitoring has counted a success |
| ProgressLaws.WaitReturnsExactly | pkg/scheduler/scheduler.go:87-92 | the wait can return iff every latch has fired |
| ProgressLaws.SyncIsAlwaysPossible | pkg/scheduler/scheduler.go:87-92 | from every reachable state, if the servers can list their metrics, some run completes the initial sync and the wait returns |
| ProgressLaws.ReleasedAfterOneRefresh | pkg/scheduler/job.go:117-124 | a reachable state in which the wait has returned and a metric is routed |
| ProgressLaws.NoJobIsBlocked | pkg/scheduler/job.go:57-66 | from every reachable state every job can finish its refresh, whatever the others are doing |
| ProgressLaws.UpdateExists | pkg/registry/registry.go:96-123 | every update of every table has an outcome |
| ProtocolLaws.WaitGroupCountsLatches | pkg/scheduler/job.go:117-124 | the counter is the number of unfired latches |
| ProtocolLaws.ProgressIsKept | pkg/scheduler/job.go:117-124 | the counter never increases, fired latches stay fired, the wait stays over |
| ProtocolLaws.CallsFollowScript | pkg/scheduler/job.go:68-131 | in every interleaving a refresh has made an initial part of the sequential code's calls, in its order, and all of them when it is over |
| ProtocolLaws.PublicationLag | pkg/monitoring/server.go:115-139 | success count equals registry updates, plus one exactly between the two calls |
| ProtocolLaws.ProbeSeesLastRefresh | pkg/scheduler/job.go:68-131 | between refreshes a failure streak is empty iff the last listing of that type succeeded |
| ProtocolLaws.ReadyMeansRoutable | pkg/monitoring/server.go:158-184 | when the probe succeeds, a type is missing from the registry iff its first publication is between the two listener calls |
| ProtocolLaws.ReadyBeforeRoutable | main.go:114-118 | a reachable state that is ready while nothing is routable |
| ProtocolLaws.RoutesToLastPublisher | pkg/registry/registry.go:174-225 | in every reachable state requests go to the last configured server whose latest publication has the metric |
| ProtocolLaws.SchedulesAreConfluent | pkg/scheduler/job.go:57-66 | routing depends on each client's own last update and not on the interleaving, for each kind of metric by itself |
| ProtocolLaws.RegistryMirrorsClients | pkg/client/elasticsearch/discovery.go:111-116 | outside the window the registry attributes to a client exactly what it holds |
| ProtocolLaws.RegistryServesWhatIsListed | pkg/client/elasticsearch/client.go:154-165 | outside the window the list of a metric holds a client iff the tables it holds, or the infos it was given, hold the metric |
| ProtocolLaws.RoutedClientsHoldSomething | pkg/client/elasticsearch/client.go:236-246 | a routed client has completed a listing, so its namer is never nil |
| ProtocolLaws.RoutedMetricResolves | pkg/client/elasticsearch/client.go:236-246 | outside the window a metric routed to an Elasticsearch client resolves there, with the one exact exception |
| ProtocolLaws.RoutedLookupIsExact | pkg/client/elasticsearch/client.go:236-246 | in every reachable state a routed metric resolves iff the tables its client holds now list it or expose a mapped field under it |
| ProtocolLaws.RoutedButGone | pkg/client/elasticsearch/discovery.go:111-116 | a reachable state in the window in which a routed metric does not resolve |
| ProtocolLaws.ElasticServesNoExternal | pkg/client/elasticsearch/client.go:193-196 | no external metric is routed to an Elasticsearch client |
| ProtocolLaws.QuiescentRouting | pkg/config/config.go:151-154 | with no publication in flight, requests go to the last configured server that holds the metric |
| NamesakeLaws.RoutesByName | pkg/registry/registry.go:174-225 | in every reachable state of every configuration, a request goes to a client of maximal priority among the latest publications by name that contain the metric |
| NamesakeLaws.MirrorsExactly | pkg/registry/clients.go:47-61 | outside the window, in every configuration, the registry attributes to a client what it holds iff it holds nothing or made the latest update under its name |
| NamesakeLaws.NamesakeEvicts | pkg/config/config.go:163-214 | a reachable state of two servers of one name in which what the first holds is not served |
| Delivery.Listeners.Deliver | pkg/scheduler/job.go:88-131 | a call on a listener changes the monitoring server and the registry exactly as a protocol step does |
| Delivery.Listeners.DeliverAll | pkg/scheduler/job.go:68-131 | the calls of a refresh reach the listeners one after the other, in order |
| Delivery.ListElasticsearch | pkg/client/elasticsearch/client.go:154-165 | what an Elasticsearch client lists is what the protocol takes it to hold |
| Delivery.SequentialRefreshIsARun | pkg/scheduler/job.go:57-125 | whatever a refresh of the sequential code does to the listeners, from any reachable state, is a run of the protocol |

## Left out

- Clients.MetricClients: a list is a sequence in a field; sharing and growth of the slice's backing array are not modelled.
- Clients.MetricClients.Sort: the body is an insertion sort through Less and Swap; the library's own algorithm is not modelled, and nothing relies on more than a sorted permutation.
- Scheduler.MetricJob.RefreshMetrics: the two listings are parameters; the calls made are returned as a list, which `Delivery.Listeners.DeliverAll` hands to the listener objects.
- Scheduler.MetricJob.PublishError: likewise returns its calls as a list.
- Naming.NewNamer: whether an expression compiles is a parameter, as regular expressions are abstract.
- Discovery.Recorder.Process: what a recorder holds at the moment of a panic is not stated; the process ends there.
- Concurrent access to single fields: every lock-protected section is one atomic step, and memory-model effects are not modelled.
- The once-latch marks itself done just after `WaitGroup.Done`; the two are one step here, and only the job's own goroutine could tell.
- The one-minute ticker and any fairness: an idle job may start again at any time, or never. `ProgressLaws` says what can happen, not what must.
- The listing code of other adapters' clients (`pkg/client/custom_api/client.go`): their listings return any set or fail.
- `getMetricForPod` beyond the name lookup: query templates, jq, timestamps, conversion of numbers to quantities.
- `getMetricDocument`: easy branching on the shape of a search response.
- Configuration parsing and validation, including the default field group for metric sets without fields.
- `WithClients`: main does not use it.
- The aggregation provider: pure delegation to the registry.
- HTTP, TLS, authentication, Kubernetes object mapping, Prometheus counters, logging and tracing.
