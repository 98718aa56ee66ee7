/** The routing tables as values: metric -> clients in order of preference. The registry keeps one table by
    incremental updates (pkg/registry/registry.go); this module says what such a table means. */
module Routing {
  import opened Wrappers
  import opened Clients

  type Table<M> = map<M, seq<Client>>

  /** One call of UpdateCustomMetrics or UpdateExternalMetrics. */
  datatype Publication<M> = Publication(client: Client, metrics: set<M>)

  /** The latest publication under each client name. */
  type Published<M> = map<string, Publication<M>>

  // ----- What a table should be -----

  function PublishedBy<M>(updates: seq<Publication<M>>): Published<M> {
    if updates == [] then map[]
    else
      var last := updates[|updates| - 1];
      PublishedBy(updates[..|updates| - 1])[last.client.name := last]
  }

  ghost predicate WellKeyed<M>(published: Published<M>) {
    forall n :: n in published ==> published[n].client.name == n
  }

  /** The clients whose latest publication contains the metric. */
  ghost function Servers<M>(published: Published<M>, metric: M): set<Client> {
    set n | n in published && metric in published[n].metrics :: published[n].client
  }

  /** The metric has an entry iff somebody publishes it, and then the entry lists each publisher once, by
      descending priority. */
  ghost predicate AgreesAt<M>(table: Table<M>, published: Published<M>, metric: M) {
    && (metric in table <==> Servers(published, metric) != {})
    && (metric in table ==>
          && multiset(table[metric]) == multiset(Servers(published, metric))
          && SortedByPriority(table[metric]))
  }

  /** The table routes exactly what the latest publications say. */
  ghost predicate Agrees<M(!new)>(table: Table<M>, published: Published<M>) {
    WellKeyed(published) && forall m :: AgreesAt(table, published, m)
  }

  // ----- What one update does to a table -----

  function ListAt<M>(table: Table<M>, metric: M): seq<Client> {
    if metric in table then table[metric] else []
  }

  ghost predicate Withdrawn<M>(table: Table<M>, name: string, metric: M, after: Table<M>)
    requires metric in table
  {
    var rest := WithoutName(table[metric], name);
    if rest == [] then metric !in after
    else metric in after && SortedVersion(after[metric], rest)
  }

  ghost predicate Same<M>(table: Table<M>, metric: M, after: Table<M>) {
    (metric in after <==> metric in table) && ListAt(after, metric) == ListAt(table, metric)
  }

  /** The effect of one update on one metric. */
  ghost predicate MetricUpdated<M>(table: Table<M>, client: Client, metrics: set<M>, metric: M, after: Table<M>) {
    if metric in metrics then
      metric in after && SortedVersion(after[metric], WithClient(ListAt(table, metric), client))
    else if Serves(ListAt(table, metric), client.name) then
      Withdrawn(table, client.name, metric, after)
    else
      Same(table, metric, after)
  }

  /** The effect of one update on any table at all, well formed or not. */
  ghost predicate UpdateStep<M(!new)>(table: Table<M>, client: Client, metrics: set<M>, after: Table<M>) {
    forall m :: MetricUpdated(table, client, metrics, m, after)
  }

  /** The successive tables of a registry that starts empty and receives the updates in this order. */
  ghost predicate IsRun<M(!new)>(tables: seq<Table<M>>, updates: seq<Publication<M>>) {
    && |tables| == |updates| + 1
    && tables[0] == map[]
    && (forall i :: 0 <= i < |updates| ==>
          UpdateStep(tables[i], updates[i].client, updates[i].metrics, tables[i + 1]))
  }

  // ----- An update keeps the table in agreement -----

  ghost predicate DistinctNames(clients: set<Client>) {
    forall c, d :: c in clients && d in clients && c.name == d.name ==> c == d
  }

  ghost function Others(clients: set<Client>, name: string): set<Client> {
    set c | c in clients && c.name != name
  }

  lemma ServersHaveDistinctNames<M>(published: Published<M>, metric: M)
    requires WellKeyed(published)
    ensures DistinctNames(Servers(published, metric))
  {
  }

  lemma ServersAfter<M>(published: Published<M>, client: Client, metrics: set<M>, metric: M)
    requires WellKeyed(published)
    ensures var others := Others(Servers(published, metric), client.name);
            Servers(published[client.name := Publication(client, metrics)], metric) ==
            if metric in metrics then others + {client} else others
  {
    var after := published[client.name := Publication(client, metrics)];
    var others := Others(Servers(published, metric), client.name);
    forall c | c in others
      ensures c in Servers(after, metric)
    {
      var n :| n in published && metric in published[n].metrics && published[n].client == c;
      assert n in after && after[n] == published[n];
    }
    if metric in metrics {
      assert after[client.name].client == client;
    }
  }

  lemma ListWithClient(clients: seq<Client>, members: set<Client>, client: Client)
    requires multiset(clients) == multiset(members) && DistinctNames(members)
    ensures multiset(WithClient(clients, client)) == multiset(Others(members, client.name) + {client})
  {
    MembersOfList(clients, members);
    var k := FirstNamed(clients, client.name);
    if k < |clients| {
      assert Others(members, client.name) == members - {clients[k]};
    } else {
      assert Others(members, client.name) == members;
    }
  }

  lemma DroppedElement(clients: seq<Client>, k: nat)
    requires k < |clients|
    ensures multiset(clients[..k] + clients[k + 1..]) == multiset(clients) - multiset{clients[k]}
  {
    assert clients == clients[..k] + ([clients[k]] + clients[k + 1..]);
  }

  lemma SetWithout(clients: set<Client>, client: Client)
    requires client in clients
    ensures multiset(clients - {client}) == multiset(clients) - multiset{client}
  {
  }

  lemma ListWithoutName(clients: seq<Client>, members: set<Client>, name: string)
    requires multiset(clients) == multiset(members) && DistinctNames(members)
    ensures multiset(WithoutName(clients, name)) == multiset(Others(members, name))
  {
    var k := FirstNamed(clients, name);
    assert Others(members, name) == if k < |clients| then members - {clients[k]} else members by {
      MembersOfList(clients, members);
    }
    if k < |clients| {
      DroppedElement(clients, k);
      assert clients[k] in multiset(clients);
      SetWithout(members, clients[k]);
    }
  }

  lemma MembersOfList(clients: seq<Client>, members: set<Client>)
    requires multiset(clients) == multiset(members)
    ensures forall c :: c in clients <==> c in members
  {
    forall c
      ensures c in clients <==> c in members
    {
      assert c in multiset(clients) <==> c in multiset(members);
    }
  }

  lemma MetricStaysInAgreement<M(!new)>(
    table: Table<M>, published: Published<M>, client: Client, metrics: set<M>, metric: M, after: Table<M>)
    requires Agrees(table, published)
    requires MetricUpdated(table, client, metrics, metric, after)
    ensures AgreesAt(after, published[client.name := Publication(client, metrics)], metric)
  {
    assert AgreesAt(table, published, metric);
    var list := ListAt(table, metric);
    var members := Servers(published, metric);
    ServersHaveDistinctNames(published, metric);
    ServersAfter(published, client, metrics, metric);
    assert multiset(list) == multiset(members);
    MembersOfList(list, members);
    if metric in metrics {
      ListWithClient(list, members, client);
    } else if Serves(list, client.name) {
      ListWithoutName(list, members, client.name);
      var rest := WithoutName(list, client.name);
      MembersOfList(rest, Others(members, client.name));
      assert rest != [] ==> rest[0] in Others(members, client.name);
    } else {
      assert Others(members, client.name) == members;
    }
  }

  /** Whatever unstable sort picks, an update of a table in agreement leaves it in agreement. */
  lemma UpdateKeepsAgreement<M(!new)>(
    table: Table<M>, published: Published<M>, client: Client, metrics: set<M>, after: Table<M>)
    requires Agrees(table, published)
    requires UpdateStep(table, client, metrics, after)
    ensures Agrees(after, published[client.name := Publication(client, metrics)])
  {
    var published' := published[client.name := Publication(client, metrics)];
    forall m: M
      ensures AgreesAt(after, published', m)
    {
      assert MetricUpdated(table, client, metrics, m, after);
      MetricStaysInAgreement(table, published, client, metrics, m, after);
    }
  }

  // ----- Whole runs -----

  /** Every table of every run routes exactly the latest publications. */
  lemma {:induction false} RunAgrees<M(!new)>(tables: seq<Table<M>>, updates: seq<Publication<M>>)
    requires IsRun(tables, updates)
    ensures Agrees(tables[|updates|], PublishedBy(updates))
  {
    var k := |updates|;
    if k == 0 {
      assert PublishedBy(updates) == map[];
    } else {
      var before := updates[..k - 1];
      RunAgrees(tables[..k], before);
      var last := updates[k - 1];
      assert UpdateStep(tables[k - 1], last.client, last.metrics, tables[k]);
      UpdateKeepsAgreement(tables[k - 1], PublishedBy(before), last.client, last.metrics, tables[k]);
    }
  }

  /** The updates made under one client name, in order. */
  function UpdatesOf<M>(updates: seq<Publication<M>>, name: string): seq<Publication<M>> {
    if updates == [] then []
    else
      var last := updates[|updates| - 1];
      var before := UpdatesOf(updates[..|updates| - 1], name);
      if last.client.name == name then before + [last] else before
  }

  lemma OneMoreUpdate<M>(updates: seq<Publication<M>>, u: Publication<M>, name: string)
    ensures UpdatesOf(updates + [u], name) ==
            if u.client.name == name then UpdatesOf(updates, name) + [u] else UpdatesOf(updates, name)
    ensures PublishedBy(updates + [u]) == PublishedBy(updates)[u.client.name := u]
  {
  }

  lemma {:induction false} LatestPublication<M>(updates: seq<Publication<M>>, name: string)
    ensures var own := UpdatesOf(updates, name);
            && (name in PublishedBy(updates) <==> own != [])
            && (own != [] ==> PublishedBy(updates)[name] == own[|own| - 1])
  {
    if updates != [] {
      LatestPublication(updates[..|updates| - 1], name);
    }
  }

  // ----- Determinism and confluence -----

  ghost predicate DistinctPriorities(clients: set<Client>) {
    forall c, d :: c in clients && d in clients && c.priority == d.priority ==> c == d
  }

  lemma HeadOff(a: seq<Client>)
    requires a != []
    ensures multiset(a[1..]) == multiset(a) - multiset{a[0]}
  {
    assert a == [a[0]] + a[1..];
  }

  lemma SameElements(a: seq<Client>, b: seq<Client>)
    requires multiset(a) == multiset(b)
    ensures |a| == |b| && forall c :: c in a <==> c in b
  {
    assert |a| == |multiset(a)| == |multiset(b)| == |b|;
    forall c
      ensures c in a <==> c in b
    {
      assert c in multiset(a) <==> c in multiset(b);
    }
  }

  lemma HeadIsUnique(a: seq<Client>, b: seq<Client>, clients: set<Client>)
    requires a != [] && b != [] && a[0] in b && b[0] in a
    requires SortedByPriority(a) && SortedByPriority(b)
    requires DistinctPriorities(clients) && a[0] in clients && b[0] in clients
    ensures a[0] == b[0]
  {
  }

  lemma {:induction false} SortedOrderIsUnique(a: seq<Client>, b: seq<Client>, clients: set<Client>)
    requires multiset(a) == multiset(b)
    requires SortedByPriority(a) && SortedByPriority(b)
    requires DistinctPriorities(clients) && forall c :: c in a ==> c in clients
    ensures a == b
  {
    SameElements(a, b);
    if a != [] {
      HeadIsUnique(a, b, clients);
      HeadOff(a);
      HeadOff(b);
      SortedOrderIsUnique(a[1..], b[1..], clients);
      assert a == [a[0]] + a[1..] && b == [b[0]] + b[1..];
    }
  }

  /** No two clients that publish the same metric share a priority. */
  ghost predicate UnambiguousPriorities<M(!new)>(published: Published<M>) {
    forall m :: DistinctPriorities(Servers(published, m))
  }

  /** Two tables that agree with the same publications have the same keys and members ... */
  lemma AgreeingTables<M(!new)>(a: Table<M>, b: Table<M>, published: Published<M>)
    requires Agrees(a, published) && Agrees(b, published)
    ensures a.Keys == b.Keys
    ensures forall m :: m in a ==> multiset(a[m]) == multiset(b[m])
    // ... and are the same list for list when no two publishers of a metric share a priority.
    ensures UnambiguousPriorities(published) ==> a == b
  {
    forall m: M
      ensures m in a <==> m in b
      ensures m in a ==> multiset(a[m]) == multiset(b[m]) == multiset(Servers(published, m))
    {
      assert AgreesAt(a, published, m) && AgreesAt(b, published, m);
    }
    if UnambiguousPriorities(published) {
      forall m | m in a
        ensures a[m] == b[m]
      {
        assert AgreesAt(a, published, m) && AgreesAt(b, published, m);
        MembersOfList(a[m], Servers(published, m));
        assert DistinctPriorities(Servers(published, m));
        SortedOrderIsUnique(a[m], b[m], Servers(published, m));
      }
    }
  }

  lemma IndexOf<M(!new)>(table: Table<M>, published: Published<M>, metric: M, c: Client) returns (i: nat)
    requires Agrees(table, published) && c in Servers(published, metric)
    ensures metric in table && i < |table[metric]| && table[metric][i] == c
  {
    assert AgreesAt(table, published, metric);
    MembersOfList(table[metric], Servers(published, metric));
    i :| i < |table[metric]| && table[metric][i] == c;
  }

  lemma SwapKeepsMembers(clients: seq<Client>, i: nat, j: nat)
    requires i < |clients| && j < |clients|
    ensures multiset(clients[i := clients[j]][j := clients[i]]) == multiset(clients)
  {
  }

  /** With a shared priority among the servers of one metric, a second table is just as legal; and as far as the
      contract of sort.Sort goes, it takes no new publication to get there: one of the two publishing again what
      it already publishes will do. */
  lemma SharedPriorityIsAmbiguous<M(!new)>(
    table: Table<M>, published: Published<M>, metric: M, c: Client, d: Client) returns (other: Table<M>)
    requires Agrees(table, published)
    requires c in Servers(published, metric) && d in Servers(published, metric)
    requires c != d && c.priority == d.priority
    ensures Agrees(other, published) && other != table
    ensures c.name in published && published[c.name].client == c
    ensures UpdateStep(table, c, published[c.name].metrics, other)
  {
    var i := IndexOf(table, published, metric, c);
    var j := IndexOf(table, published, metric, d);
    assert AgreesAt(table, published, metric);
    var swapped := table[metric][i := d][j := c];
    SwapKeepsMembers(table[metric], i, j);
    assert SortedByPriority(swapped) by {
      assert forall k :: 0 <= k < |swapped| ==> swapped[k].priority == table[metric][k].priority;
    }
    assert swapped[i] != table[metric][i];
    other := table[metric := swapped];
    forall m: M
      ensures AgreesAt(other, published, m)
    {
      assert AgreesAt(table, published, m);
    }
    forall m: M
      ensures MetricUpdated(table, c, published[c.name].metrics, m, other)
    {
      RepublishingAt(table, published, c, m);
      assert AgreesAt(other, published, m);
    }
  }

  /** A list that is already sorted is left alone, as a stable sort does and many an unstable one. */
  ghost predicate SortedIsKept<M(!new)>(table: Table<M>, u: Publication<M>, after: Table<M>) {
    forall m ::
      && (m in u.metrics && m in after && SortedByPriority(WithClient(ListAt(table, m), u.client)) ==>
            after[m] == WithClient(ListAt(table, m), u.client))
      && (m !in u.metrics && m in after && SortedByPriority(WithoutName(ListAt(table, m), u.client.name)) ==>
            after[m] == WithoutName(ListAt(table, m), u.client.name))
  }

  ghost predicate IsQuietRun<M(!new)>(tables: seq<Table<M>>, updates: seq<Publication<M>>) {
    && IsRun(tables, updates)
    && forall i :: 0 <= i < |updates| ==> SortedIsKept(tables[i], updates[i], tables[i + 1])
  }

  /** Even when no sort ever moves clients of equal priority, the order in which two of them publish first shows:
      two runs with the same latest publications, in which a sorted list is always left alone, end in two tables. */
  lemma OrderOfArrivalShows<M(!new)>(metric: M, c: Client, d: Client)
    returns (uv: seq<Table<M>>, vu: seq<Table<M>>)
    requires c.name != d.name && c.priority == d.priority
    ensures var u, v := Publication(c, {metric}), Publication(d, {metric});
            && IsQuietRun(uv, [u, v]) && IsQuietRun(vu, [v, u])
            && PublishedBy([u, v]) == PublishedBy([v, u]) && uv[2] != vu[2]
  {
    uv := Arrivals(metric, c, d);
    vu := Arrivals(metric, d, c);
    PublishedByTwo(Publication(c, {metric}), Publication(d, {metric}));
    PublishedByTwo(Publication(d, {metric}), Publication(c, {metric}));
    assert uv[2][metric][0] != vu[2][metric][0];
  }

  lemma PublishedByTwo<M>(u: Publication<M>, v: Publication<M>)
    ensures PublishedBy([u, v]) == map[][u.client.name := u][v.client.name := v]
  {
    OneMoreUpdate([], u, "");
    OneMoreUpdate([u], v, "");
    assert [] + [u] == [u] && [u] + [v] == [u, v];
  }

  lemma Arrivals<M(!new)>(metric: M, c: Client, d: Client) returns (tables: seq<Table<M>>)
    requires c.name != d.name && c.priority == d.priority
    ensures IsQuietRun(tables, [Publication(c, {metric}), Publication(d, {metric})])
    ensures tables[2] == map[metric := [c, d]]
  {
    var one, two: Table<M> := map[metric := [c]], map[metric := [c, d]];
    tables := [map[], one, two];
    assert [] + [c] == [c] && [c] + [d] == [c, d];
    Arrives(map[], metric, c, one);
    Arrives(one, metric, d, two);
  }

  lemma Arrives<M(!new)>(table: Table<M>, metric: M, client: Client, after: Table<M>)
    requires table.Keys <= {metric} && !Serves(ListAt(table, metric), client.name)
    requires after == map[metric := ListAt(table, metric) + [client]] && SortedByPriority(after[metric])
    ensures UpdateStep(table, client, {metric}, after)
    ensures SortedIsKept(table, Publication(client, {metric}), after)
  {
    assert WithClient(ListAt(table, metric), client) == after[metric];
  }

  /** Publishing the same again leaves every list as it is, up to the sort. */
  lemma RepublishingAt<M(!new)>(table: Table<M>, published: Published<M>, client: Client, metric: M)
    requires Agrees(table, published)
    requires client.name in published && published[client.name].client == client
    ensures if metric in published[client.name].metrics then
              metric in table && WithClient(table[metric], client) == table[metric]
            else
              !Serves(ListAt(table, metric), client.name)
  {
    var members := Servers(published, metric);
    assert AgreesAt(table, published, metric);
    MembersOfList(ListAt(table, metric), members);
    ServersHaveDistinctNames(published, metric);
    if metric in published[client.name].metrics {
      assert client in members;
      assert table[metric][FirstNamed(table[metric], client.name)] == client;
    }
  }

  /** The publications determine the table exactly when no two publishers of a metric share a priority. */
  lemma DeterminedExactlyByPriorities<M(!new)>(table: Table<M>, published: Published<M>)
    requires Agrees(table, published)
    ensures UnambiguousPriorities(published) <==> forall other :: Agrees(other, published) ==> other == table
  {
    if UnambiguousPriorities(published) {
      forall other | Agrees(other, published)
        ensures other == table
      {
        AgreeingTables(other, table, published);
      }
    } else {
      var m :| !DistinctPriorities(Servers(published, m));
      var c, d :| c in Servers(published, m) && d in Servers(published, m) && c.priority == d.priority && c != d;
      var other := SharedPriorityIsAmbiguous(table, published, m, c, d);
    }
  }

  /** The last update made under a name, if any. */
  function LastOf<M>(updates: seq<Publication<M>>, name: string): Option<Publication<M>> {
    var own := UpdatesOf(updates, name);
    if own == [] then None else Some(own[|own| - 1])
  }

  /** The latest publications depend on each client's own last update and not on how updates interleave. */
  lemma OwnUpdatesDecide<M(!new)>(updates1: seq<Publication<M>>, updates2: seq<Publication<M>>)
    requires forall n :: LastOf(updates1, n) == LastOf(updates2, n)
    ensures PublishedBy(updates1) == PublishedBy(updates2)
  {
    var p1, p2 := PublishedBy(updates1), PublishedBy(updates2);
    forall n: string
      ensures n in p1 <==> n in p2
      ensures n in p1 ==> p1[n] == p2[n]
    {
      assert LastOf(updates1, n) == LastOf(updates2, n);
      LatestPublication(updates1, n);
      LatestPublication(updates2, n);
    }
    assert p1 == p2;
  }

  /** Confluence: two runs in which each client's last update is the same end up with the same routing, however
      they interleave, whatever else was published before, and whatever the sort did with equal priorities. */
  lemma Confluence<M(!new)>(
    tables1: seq<Table<M>>, updates1: seq<Publication<M>>, tables2: seq<Table<M>>, updates2: seq<Publication<M>>)
    requires IsRun(tables1, updates1) && IsRun(tables2, updates2)
    requires forall n :: LastOf(updates1, n) == LastOf(updates2, n)
    ensures tables1[|updates1|].Keys == tables2[|updates2|].Keys
    ensures forall m :: m in tables1[|updates1|] ==>
              multiset(tables1[|updates1|][m]) == multiset(tables2[|updates2|][m])
    ensures UnambiguousPriorities(PublishedBy(updates1)) ==> tables1[|updates1|] == tables2[|updates2|]
  {
    RunAgrees(tables1, updates1);
    RunAgrees(tables2, updates2);
    OwnUpdatesDecide(updates1, updates2);
    AgreeingTables(tables1[|updates1|], tables2[|updates2|], PublishedBy(updates1));
  }

  /** Updates by clients of different names commute. */
  lemma UpdatesCommute<M(!new)>(
    table: Table<M>, published: Published<M>, u: Publication<M>, v: Publication<M>,
    tu: Table<M>, tuv: Table<M>, tv: Table<M>, tvu: Table<M>)
    requires Agrees(table, published) && u.client.name != v.client.name
    requires UpdateStep(table, u.client, u.metrics, tu) && UpdateStep(tu, v.client, v.metrics, tuv)
    requires UpdateStep(table, v.client, v.metrics, tv) && UpdateStep(tv, u.client, u.metrics, tvu)
    ensures tuv.Keys == tvu.Keys
    ensures forall m :: m in tuv ==> multiset(tuv[m]) == multiset(tvu[m])
    ensures UnambiguousPriorities(published[u.client.name := u][v.client.name := v]) ==> tuv == tvu
  {
    UpdateKeepsAgreement(table, published, u.client, u.metrics, tu);
    UpdateKeepsAgreement(tu, published[u.client.name := u], v.client, v.metrics, tuv);
    UpdateKeepsAgreement(table, published, v.client, v.metrics, tv);
    UpdateKeepsAgreement(tv, published[v.client.name := v], u.client, u.metrics, tvu);
    assert published[u.client.name := u][v.client.name := v] == published[v.client.name := v][u.client.name := u];
    AgreeingTables(tuv, tvu, published[u.client.name := u][v.client.name := v]);
  }

  // ----- Frame and idempotence -----

  ghost predicate Before(clients: seq<Client>, c: Client, d: Client) {
    exists i, j :: 0 <= i < j < |clients| && clients[i] == c && clients[j] == d
  }

  lemma BeforeIsPriority(clients: seq<Client>, c: Client, d: Client)
    requires SortedByPriority(clients) && c.priority != d.priority
    ensures Before(clients, c, d) <==> c in clients && d in clients && c.priority > d.priority
  {
  }

  /** An update by one client changes neither the membership of any other client ... */
  lemma UpdateKeepsOthers<M(!new)>(
    table: Table<M>, published: Published<M>, client: Client, metrics: set<M>, after: Table<M>, metric: M, c: Client)
    requires Agrees(table, published) && UpdateStep(table, client, metrics, after)
    requires c.name != client.name
    ensures c in ListAt(after, metric) <==> c in ListAt(table, metric)
  {
    var published' := published[client.name := Publication(client, metrics)];
    UpdateKeepsAgreement(table, published, client, metrics, after);
    ServersAfter(published, client, metrics, metric);
    assert AgreesAt(table, published, metric) && AgreesAt(after, published', metric);
    MembersOfList(ListAt(table, metric), Servers(published, metric));
    MembersOfList(ListAt(after, metric), Servers(published', metric));
  }

  /** ... nor, for clients of different priorities, their relative order. */
  lemma UpdateKeepsOrder<M(!new)>(
    table: Table<M>, published: Published<M>, client: Client, metrics: set<M>, after: Table<M>,
    metric: M, c: Client, d: Client)
    requires Agrees(table, published) && UpdateStep(table, client, metrics, after)
    requires c.name != client.name && d.name != client.name && c.priority != d.priority
    ensures Before(ListAt(after, metric), c, d) <==> Before(ListAt(table, metric), c, d)
  {
    UpdateKeepsOthers(table, published, client, metrics, after, metric, c);
    UpdateKeepsOthers(table, published, client, metrics, after, metric, d);
    UpdateKeepsAgreement(table, published, client, metrics, after);
    assert AgreesAt(table, published, metric);
    assert AgreesAt(after, published[client.name := Publication(client, metrics)], metric);
    BeforeIsPriority(ListAt(table, metric), c, d);
    BeforeIsPriority(ListAt(after, metric), c, d);
  }

  /** Publishing again what one already publishes changes nothing that is determined. */
  lemma RepublishingIsIdempotent<M(!new)>(
    table: Table<M>, published: Published<M>, client: Client, metrics: set<M>, after: Table<M>)
    requires Agrees(table, published) && UpdateStep(table, client, metrics, after)
    requires client.name in published && published[client.name] == Publication(client, metrics)
    ensures after.Keys == table.Keys && forall m :: m in table ==> multiset(after[m]) == multiset(table[m])
    ensures UnambiguousPriorities(published) ==> after == table
  {
    UpdateKeepsAgreement(table, published, client, metrics, after);
    assert published[client.name := Publication(client, metrics)] == published;
    AgreeingTables(after, table, published);
  }

  // ----- Routing a request -----

  /** The client a metric is routed to: the head of its list. */
  function Best<M>(table: Table<M>, metric: M): Option<Client> {
    if metric in table && table[metric] != [] then Some(table[metric][0]) else None
  }

  ghost predicate MaximalServer<M>(published: Published<M>, metric: M, client: Client) {
    && client in Servers(published, metric)
    && forall d :: d in Servers(published, metric) ==> d.priority <= client.priority
  }

  /** A metric is routed to a client of maximal priority among those that publish it, and to nobody exactly
      when nobody publishes it; no entry of the table is ever empty. */
  lemma RoutingIsOptimal<M(!new)>(table: Table<M>, published: Published<M>, metric: M)
    requires Agrees(table, published)
    ensures Best(table, metric) == None <==> Servers(published, metric) == {}
    ensures Best(table, metric).Some? ==> MaximalServer(published, metric, Best(table, metric).value)
    ensures metric in table ==> table[metric] != []
  {
    assert AgreesAt(table, published, metric);
    if metric in table {
      MembersOfList(table[metric], Servers(published, metric));
    }
  }
}
