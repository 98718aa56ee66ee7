/** The registry of metric clients (pkg/registry/registry.go). The source writes its update and its lookup
    twice, word for word, for custom and for external metrics; here they are written once, in MetricIndex. */
module Registry {
  import opened Wrappers
  import opened Metrics
  import opened Clients
  import opened Routing

  datatype LookupError = NotServed | NoBackend

  /** A map from metrics to client lists, where every list is an object updated in place. */
  class MetricIndex<Info(==, !new)> {
    var entries: map<Info, MetricClients>
    ghost var updates: seq<Publication<Info>>  // every update received so far, in order
    ghost var published: Published<Info>       // the latest publication under each client name

    /** No two metrics share a list object. */
    ghost predicate Separated()
      reads this`entries
    {
      forall a, b :: a in entries && b in entries && entries[a] == entries[b] ==> a == b
    }

    ghost function Table(): Table<Info>
      reads this`entries, entries.Values
    {
      map m | m in entries :: entries[m].list
    }

    ghost predicate Valid()
      reads this, entries.Values
    {
      Separated() && published == PublishedBy(updates) && Agrees(Table(), published)
    }

    constructor ()
      ensures Valid()
      ensures entries == map[] && Table() == map[] && updates == []
    {
      entries := map[];
      updates := [];
      published := map[];
    }

    /** The metrics currently served by a client. */
    method MetricsFrom(name: string) returns (metrics: set<Info>)
      ensures metrics == set m | m in entries && Serves(entries[m].list, name)
    {
      metrics := {};
      var todo := entries.Keys;
      while todo != {}
        invariant todo <= entries.Keys
        invariant metrics == set m | m in entries && m !in todo && Serves(entries[m].list, name)
        decreases |todo|
      {
        var m :| m in todo;
        var clients := entries[m];
        var held := clients.Holds(name);
        if held {
          metrics := metrics + {m};
        }
        todo := todo - {m};
      }
    }

    /** One client now publishes exactly these metrics; a table in agreement stays in agreement. */
    method Update(client: Client, metrics: set<Info>)
      requires Valid()
      modifies this, entries.Values
      ensures Valid() && fresh(entries.Values - old(entries.Values))
      ensures UpdateStep(old(Table()), client, metrics, Table())
      ensures updates == old(updates) + [Publication(client, metrics)]
      ensures published == old(published)[client.name := Publication(client, metrics)]
    {
      UpdateTable(client, metrics);
      OneMoreUpdate(updates, Publication(client, metrics), client.name);
      updates := updates + [Publication(client, metrics)];
      UpdateKeepsAgreement(old(Table()), published, client, metrics, Table());
      published := published[client.name := Publication(client, metrics)];
    }

    /** The effect of an update on any table at all, whether or not it agrees with anything. */
    method UpdateTable(client: Client, metrics: set<Info>)
      requires Separated()
      modifies this`entries, entries.Values
      ensures Separated() && fresh(entries.Values - old(entries.Values))
      ensures UpdateStep(old(Table()), client, metrics, Table())
    {
      var actual := MetricsFrom(client.name);
      var removed := Removed(actual, metrics);
      Withdraw(client.name, removed);
      ghost var between := Table();
      Announce(client, metrics);
      TwoPhases(old(Table()), client, metrics, (set m | m in removed), between, Table());
    }

    method Withdraw(name: string, removed: seq<Info>)
      requires Separated()
      requires forall m :: m in removed ==> m in entries && Serves(entries[m].list, name)
      requires forall i, j :: 0 <= i < j < |removed| ==> removed[i] != removed[j]
      modifies this`entries, entries.Values
      ensures Separated() && entries.Values <= old(entries.Values)
      ensures WithdrawnFrom(old(Table()), name, (set m | m in removed), Table())
    {
      ghost var before := Table();
      ghost var done: set<Info> := {};
      for i := 0 to |removed|
        invariant done == set m | m in removed[..i]
        invariant Separated() && entries.Values <= old(entries.Values)
        invariant WithdrawnFrom(before, name, done, Table())
      {
        ghost var table := Table();
        assert removed[i] !in done;
        assert removed[i] in before && Serves(before[removed[i]], name);
        assert WithdrawnAt(before, name, done, removed[i], table);
        WithdrawOne(name, removed[i]);
        WithdrawnFromOneMore(before, name, done, table, removed[i], Table());
        done := done + {removed[i]};
      }
      assert done == set m | m in removed;
    }

    method WithdrawOne(name: string, metric: Info)
      requires Separated()
      requires metric in entries && Serves(entries[metric].list, name)
      modifies this`entries, entries[metric]
      ensures Separated() && entries.Values <= old(entries.Values)
      ensures Withdrawn(old(Table()), name, metric, Table())
      ensures SameElsewhere(old(Table()), metric, Table())
    {
      var clients := entries[metric];
      var empty := clients.RemoveClient(name);
      if empty {
        entries := entries - {metric};
      }
    }

    method Announce(client: Client, metrics: set<Info>)
      requires Separated()
      modifies this`entries, entries.Values
      ensures Separated() && fresh(entries.Values - old(entries.Values))
      ensures AnnouncedTo(old(Table()), client, metrics, Table())
    {
      ghost var before := Table();
      ghost var done: set<Info> := {};
      var todo := metrics;
      while todo != {}
        invariant todo !! done && todo + done == metrics
        invariant Separated() && fresh(entries.Values - old(entries.Values))
        invariant AnnouncedTo(before, client, done, Table())
        decreases |todo|
      {
        ghost var table := Table();
        var metric :| metric in todo;
        AnnounceOne(client, metric);
        AnnouncedToOneMore(before, client, done, table, metric, Table());
        todo, done := todo - {metric}, done + {metric};
      }
      assert done == metrics;
    }

    method AnnounceOne(client: Client, metric: Info)
      requires Separated()
      modifies this`entries, if metric in entries then {entries[metric]} else {}
      ensures Separated() && fresh(entries.Values - old(entries.Values))
      ensures Announced(old(Table()), client, metric, Table())
      ensures SameElsewhere(old(Table()), metric, Table())
    {
      if metric !in entries {
        var created := new MetricClients();
        entries := entries[metric := created];
      }
      entries[metric].AddOrUpdateClient(client);
    }

    /** Where a request for a metric goes: a client of maximal priority among those that publish it. The
        error is NotServed exactly when nobody publishes it; NoBackend cannot happen. */
    method GetClient(info: Info) returns (r: Result<Client, LookupError>)
      requires Valid()
      ensures r == match Best(Table(), info) case Some(c) => Ok(c) case None => Err(NotServed)
      ensures r.Err? <==> Servers(published, info) == {}
      ensures r.Ok? ==> MaximalServer(published, info, r.value)
    {
      RoutingIsOptimal(Table(), published, info);
      if info !in entries {
        return Err(NotServed);
      }
      var best := entries[info].GetBestMetricClient();
      if best.None? {
        return Err(NoBackend);
      }
      return Ok(best.value);
    }

    /** Every metric somebody publishes, once each, in no particular order. */
    method ListAll() returns (infos: seq<Info>)
      requires Valid()
      ensures forall i, j :: 0 <= i < j < |infos| ==> infos[i] != infos[j]
      ensures forall m :: m in infos <==> Servers(published, m) != {}
    {
      infos := [];
      var todo := entries.Keys;
      while todo != {}
        invariant todo <= entries.Keys
        invariant forall i, j :: 0 <= i < j < |infos| ==> infos[i] != infos[j]
        invariant forall m :: m in infos <==> m in entries && m !in todo
        decreases |todo|
      {
        var m :| m in todo;
        infos := infos + [m];
        todo := todo - {m};
      }
      forall m: Info
        ensures m in infos <==> Servers(published, m) != {}
      {
        assert AgreesAt(Table(), published, m);
      }
    }
  }

  /** The metrics of `actual` that are missing from `latest`, as a list without repetition. */
  method Removed<Info(==)>(actual: set<Info>, latest: set<Info>) returns (outdated: seq<Info>)
    ensures forall m :: m in outdated <==> m in actual && m !in latest
    ensures forall i, j :: 0 <= i < j < |outdated| ==> outdated[i] != outdated[j]
  {
    outdated := [];
    var todo := actual;
    while todo != {}
      invariant todo <= actual
      invariant forall m :: m in outdated <==> m in actual && m !in todo && m !in latest
      invariant forall i, j :: 0 <= i < j < |outdated| ==> outdated[i] != outdated[j]
      decreases |todo|
    {
      var m :| m in todo;
      if m !in latest {
        outdated := outdated + [m];
      }
      todo := todo - {m};
    }
  }

  // ----- The two loops of an update, as relations between tables -----

  ghost predicate SameElsewhere<Info(!new)>(table: Table<Info>, metric: Info, after: Table<Info>) {
    forall m :: m != metric ==> Same(table, m, after)
  }

  ghost predicate WithdrawnAt<Info>(
    table: Table<Info>, name: string, metrics: set<Info>, metric: Info, after: Table<Info>)
  {
    if metric in metrics then metric in table && Withdrawn(table, name, metric, after) else Same(table, metric, after)
  }

  ghost predicate WithdrawnFrom<Info(!new)>(table: Table<Info>, name: string, metrics: set<Info>, after: Table<Info>) {
    forall m :: WithdrawnAt(table, name, metrics, m, after)
  }

  ghost predicate Announced<Info>(table: Table<Info>, client: Client, metric: Info, after: Table<Info>) {
    metric in after && SortedVersion(after[metric], WithClient(ListAt(table, metric), client))
  }

  ghost predicate AnnouncedAt<Info>(
    table: Table<Info>, client: Client, metrics: set<Info>, metric: Info, after: Table<Info>)
  {
    if metric in metrics then Announced(table, client, metric, after) else Same(table, metric, after)
  }

  ghost predicate AnnouncedTo<Info(!new)>(table: Table<Info>, client: Client, metrics: set<Info>, after: Table<Info>) {
    forall m :: AnnouncedAt(table, client, metrics, m, after)
  }

  lemma WithdrawnFromOneMore<Info(!new)>(
    before: Table<Info>, name: string, done: set<Info>, table: Table<Info>, metric: Info, after: Table<Info>)
    requires WithdrawnFrom(before, name, done, table) && metric !in done
    requires metric in table && Withdrawn(table, name, metric, after) && SameElsewhere(table, metric, after)
    ensures WithdrawnFrom(before, name, done + {metric}, after)
  {
    assert WithdrawnAt(before, name, done, metric, table);
    forall m: Info
      ensures WithdrawnAt(before, name, done + {metric}, m, after)
    {
      assert WithdrawnAt(before, name, done, m, table);
      assert m != metric ==> Same(table, m, after);
    }
  }

  lemma AnnouncedToOneMore<Info(!new)>(
    before: Table<Info>, client: Client, done: set<Info>, table: Table<Info>, metric: Info, after: Table<Info>)
    requires AnnouncedTo(before, client, done, table) && metric !in done
    requires Announced(table, client, metric, after) && SameElsewhere(table, metric, after)
    ensures AnnouncedTo(before, client, done + {metric}, after)
  {
    assert AnnouncedAt(before, client, done, metric, table);
    forall m: Info
      ensures AnnouncedAt(before, client, done + {metric}, m, after)
    {
      assert AnnouncedAt(before, client, done, m, table);
      assert m != metric ==> Same(table, m, after);
    }
  }

  lemma TwoPhases<Info(!new)>(
    before: Table<Info>, client: Client, metrics: set<Info>, removed: set<Info>,
    between: Table<Info>, after: Table<Info>)
    requires forall m :: m in removed <==> m in before && Serves(before[m], client.name) && m !in metrics
    requires WithdrawnFrom(before, client.name, removed, between)
    requires AnnouncedTo(between, client, metrics, after)
    ensures UpdateStep(before, client, metrics, after)
  {
    forall m: Info
      ensures MetricUpdated(before, client, metrics, m, after)
    {
      assert WithdrawnAt(before, client.name, removed, m, between);
      assert AnnouncedAt(between, client, metrics, m, after);
    }
  }

  class Registry {
    const customMetrics: MetricIndex<CustomMetricInfo>
    const externalMetrics: MetricIndex<ExternalMetricInfo>

    ghost function Footprint(): set<object>
      reads this, customMetrics, externalMetrics
    {
      var indexes: set<object> := {customMetrics, externalMetrics};
      indexes + customMetrics.entries.Values + externalMetrics.entries.Values
    }

    ghost predicate Valid()
      reads this, Footprint()
    {
      && customMetrics.Valid() && externalMetrics.Valid()
      && customMetrics.entries.Values !! externalMetrics.entries.Values
    }

    /** NewRegistry: nothing is published yet. */
    constructor ()
      ensures Valid() && fresh(Footprint())
      ensures customMetrics.updates == [] && externalMetrics.updates == []
      ensures customMetrics.Table() == map[] && externalMetrics.Table() == map[]
    {
      customMetrics := new MetricIndex();
      externalMetrics := new MetricIndex();
    }

    /** A custom update follows UpdateStep and leaves all external routing alone. */
    method UpdateCustomMetrics(client: Client, cms: set<CustomMetricInfo>)
      requires Valid()
      modifies customMetrics, customMetrics.entries.Values
      ensures Valid() && fresh(Footprint() - old(Footprint()))
      ensures UpdateStep(old(customMetrics.Table()), client, cms, customMetrics.Table())
      ensures customMetrics.updates == old(customMetrics.updates) + [Publication(client, cms)]
      ensures customMetrics.published == old(customMetrics.published)[client.name := Publication(client, cms)]
      ensures externalMetrics.Table() == old(externalMetrics.Table())
      ensures externalMetrics.updates == old(externalMetrics.updates)
      ensures externalMetrics.published == old(externalMetrics.published)
    {
      customMetrics.Update(client, cms);
    }

    /** An external update follows UpdateStep and leaves all custom routing alone. */
    method UpdateExternalMetrics(client: Client, ems: set<ExternalMetricInfo>)
      requires Valid()
      modifies externalMetrics, externalMetrics.entries.Values
      ensures Valid() && fresh(Footprint() - old(Footprint()))
      ensures UpdateStep(old(externalMetrics.Table()), client, ems, externalMetrics.Table())
      ensures externalMetrics.updates == old(externalMetrics.updates) + [Publication(client, ems)]
      ensures externalMetrics.published == old(externalMetrics.published)[client.name := Publication(client, ems)]
      ensures customMetrics.Table() == old(customMetrics.Table())
      ensures customMetrics.updates == old(customMetrics.updates)
      ensures customMetrics.published == old(customMetrics.published)
    {
      externalMetrics.Update(client, ems);
    }

    method GetCustomMetricClient(info: CustomMetricInfo) returns (r: Result<Client, LookupError>)
      requires Valid()
      ensures r == match Best(customMetrics.Table(), info) case Some(c) => Ok(c) case None => Err(NotServed)
      ensures r.Err? <==> Servers(customMetrics.published, info) == {}
      ensures r.Ok? ==> MaximalServer(customMetrics.published, info, r.value)
    {
      r := customMetrics.GetClient(info);
    }

    method GetExternalMetricClient(info: ExternalMetricInfo) returns (r: Result<Client, LookupError>)
      requires Valid()
      ensures r == match Best(externalMetrics.Table(), info) case Some(c) => Ok(c) case None => Err(NotServed)
      ensures r.Err? <==> Servers(externalMetrics.published, info) == {}
      ensures r.Ok? ==> MaximalServer(externalMetrics.published, info, r.value)
    {
      r := externalMetrics.GetClient(info);
    }

    method ListAllCustomMetrics() returns (infos: seq<CustomMetricInfo>)
      requires Valid()
      ensures forall i, j :: 0 <= i < j < |infos| ==> infos[i] != infos[j]
      ensures forall m :: m in infos <==> Servers(customMetrics.published, m) != {}
    {
      infos := customMetrics.ListAll();
    }

    method ListAllExternalMetrics() returns (infos: seq<ExternalMetricInfo>)
      requires Valid()
      ensures forall i, j :: 0 <= i < j < |infos| ==> infos[i] != infos[j]
      ensures forall m :: m in infos <==> Servers(externalMetrics.published, m) != {}
    {
      infos := externalMetrics.ListAll();
    }
  }
}
