/** Metric discovery by an Elasticsearch client (pkg/client/elasticsearch/discovery.go and client.go): the
    recorder filled by the walk, the swap of its tables into the client, listing and lookup. */
module Discovery {
  import opened Wrappers
  import opened Metrics
  import opened Json
  import opened Config
  import opened Naming
  import opened Walk

  datatype Metadata =
    | SearchField(search: Search, indices: seq<string>)
    | MappedField(fields: Fields, indices: seq<string>)

  datatype DiscoveryError =
    | BadRename | BadMetricPath | BadTimestampPath | Unreachable | BadStatus | Undecodable | NoMappings

  /** Panicked stands for a Go panic: a template that does not parse, or a type assertion that fails. */
  datatype Outcome<+T> = Done(value: T) | Failed(error: DiscoveryError) | Panicked

  /** What the request for one metric set's mapping brings back. */
  datatype Response = RequestFailed | ErrorStatus | BadBody | Mappings(indexMappings: seq<Field>)

  /** What a recorder has gathered, and what a client holds after a discovery. */
  datatype Tables = Tables(
    rule: Option<Rule>,
    metrics: map<string, CustomMetricInfo>,
    indexed: map<string, Metadata>,
    registered: seq<string>)

  function PodMetric(metric: string): CustomMetricInfo {
    CustomMetricInfo("", "pods", true, metric)
  }

  // ----- Discovery as a function of the responses -----

  function InfosOf(rule: Option<Rule>, names: seq<string>): map<string, CustomMetricInfo> {
    if names == [] then map[] else map n | n in names :: PodMetric(Renamed(rule, n))
  }

  function MetadataOf(fieldsSet: seq<Fields>, indices: seq<string>, names: seq<string>): map<string, Metadata> {
    if names == [] then map[]
    else
      map n | n in names && FindMetadata(fieldsSet, n).Some? ::
        MappedField(FindMetadata(fieldsSet, n).value, indices)
  }

  function WithNames(t: Tables, names: seq<string>, fieldsSet: seq<Fields>, indices: seq<string>): Tables {
    Tables(t.rule,
           t.metrics + InfosOf(t.rule, names),
           t.indexed + MetadataOf(fieldsSet, indices, names),
           t.registered + names)
  }

  /** The "properties" table the walk of a mapping starts from; empty when there is none. */
  function PropertiesOf(mapping: Json): seq<Field> {
    if mapping.Object? && HasKey(mapping.fields, "properties") && Find(mapping.fields, "properties").value.Object? then
      Find(mapping.fields, "properties").value.fields
    else []
  }

  function NamesOfIndex(index: Field, fieldsSet: seq<Fields>): Outcome<seq<string>> {
    if !index.value.Object? then Panicked
    else
      match Find(index.value.fields, "mappings")
      case None => Failed(NoMappings)
      case Some(mapping) =>
        var d := PropertiesOf(mapping);
        if Panics(d) then Panicked else Done(Names("", d, fieldsSet))
  }

  function NamesOfIndices(indexMappings: seq<Field>, fieldsSet: seq<Fields>): Outcome<seq<string>> {
    if indexMappings == [] then Done([])
    else
      match NamesOfIndices(indexMappings[..|indexMappings| - 1], fieldsSet)
      case Done(names) =>
        (match NamesOfIndex(indexMappings[|indexMappings| - 1], fieldsSet)
         case Done(more) => Done(names + more)
         case Failed(e) => Failed(e)
         case Panicked => Panicked)
      case Failed(e) => Failed(e)
      case Panicked => Panicked
  }

  function NamesOfResponse(response: Response, fieldsSet: seq<Fields>): Outcome<seq<string>> {
    match response
    case RequestFailed => Failed(Unreachable)
    case ErrorStatus => Failed(BadStatus)
    case BadBody => Failed(Undecodable)
    case Mappings(indexMappings) => NamesOfIndices(indexMappings, fieldsSet)
  }

  function WithStatic(o: Outcome<Tables>, f: Fields, indices: seq<string>): Outcome<Tables> {
    if !o.Done? || f.name == "" then o
    else if !f.search.templateParses then Panicked
    else if !f.search.metricPathParses then Failed(BadMetricPath)
    else if !f.search.timestampPathParses then Failed(BadTimestampPath)
    else
      var t := o.value;
      Done(t.(metrics := t.metrics[f.name := PodMetric(f.name)],
              indexed := t.indexed[f.name := SearchField(f.search, indices)]))
  }

  /** The static fields among the first `j` of a metric set. */
  function StaticsOfSet(o: Outcome<Tables>, metricSet: MetricSet, j: nat): Outcome<Tables>
    requires j <= |metricSet.fields|
  {
    if j == 0 then o
    else WithStatic(StaticsOfSet(o, metricSet, j - 1), metricSet.fields[j - 1], metricSet.indices)
  }

  /** The static fields of the first `i` metric sets. */
  function Statics(o: Outcome<Tables>, sets: seq<MetricSet>, i: nat): Outcome<Tables>
    requires i <= |sets|
  {
    if i == 0 then o
    else StaticsOfSet(Statics(o, sets, i - 1), sets[i - 1], |sets[i - 1].fields|)
  }

  function WithResponse(o: Outcome<Tables>, metricSet: MetricSet, response: Response): Outcome<Tables> {
    if !o.Done? then o
    else
      match NamesOfResponse(response, metricSet.fields)
      case Done(names) => Done(WithNames(o.value, names, metricSet.fields, metricSet.indices))
      case Failed(e) => Failed(e)
      case Panicked => Panicked
  }

  /** The mappings of the first `i` metric sets, over the tables `o`. */
  function Mapped(o: Outcome<Tables>, sets: seq<MetricSet>, responses: seq<Response>, i: nat): Outcome<Tables>
    requires i <= |sets| == |responses|
  {
    if i == 0 then o
    else WithResponse(Mapped(o, sets, responses, i - 1), sets[i - 1], responses[i - 1])
  }

  function EmptyTables(rule: Option<Rule>): Tables {
    Tables(rule, map[], map[], [])
  }

  function StaticTables(config: MetricServer): Outcome<Tables> {
    if config.rename.InvalidRename? then Failed(BadRename)
    else Statics(Done(EmptyTables(RuleOf(config.rename))), config.metricSets, |config.metricSets|)
  }

  function Discovered(config: MetricServer, responses: seq<Response>): Outcome<Tables>
    requires |responses| == |config.metricSets|
  {
    Mapped(StaticTables(config), config.metricSets, responses, |responses|)
  }

  datatype LookupFailure = NotDiscoveredYet | NoAlias | NoMetadata

  /** An alias requested by a consumer, resolved to a name and its metadata (the lookup in valueFor). */
  function Lookup(tables: Tables, alias: string): Result<(string, Metadata), LookupFailure> {
    match Resolve(tables.rule, AliasesAfter(tables.rule, tables.registered), alias)
    case None => Err(NoAlias)
    case Some(name) => if name in tables.indexed then Ok((name, tables.indexed[name])) else Err(NoMetadata)
  }

  // ----- Small facts about these functions -----

  lemma WithNamesAppend(t: Tables, a: seq<string>, b: seq<string>, fieldsSet: seq<Fields>, indices: seq<string>)
    ensures WithNames(WithNames(t, a, fieldsSet, indices), b, fieldsSet, indices) ==
            WithNames(t, a + b, fieldsSet, indices)
  {
    assert t.metrics + InfosOf(t.rule, a) + InfosOf(t.rule, b) == t.metrics + InfosOf(t.rule, a + b) by {
      InfosAppend(t.rule, a, b);
      MergeIsAssociative(t.metrics, InfosOf(t.rule, a), InfosOf(t.rule, b));
    }
    var x, y := MetadataOf(fieldsSet, indices, a), MetadataOf(fieldsSet, indices, b);
    assert t.indexed + x + y == t.indexed + MetadataOf(fieldsSet, indices, a + b) by {
      MetadataAppend(fieldsSet, indices, a, b);
      MergeIsAssociative(t.indexed, x, y);
    }
  }

  lemma MergeIsAssociative<K, V>(a: map<K, V>, b: map<K, V>, c: map<K, V>)
    ensures a + b + c == a + (b + c)
  {
  }

  lemma InfosAppend(rule: Option<Rule>, a: seq<string>, b: seq<string>)
    ensures InfosOf(rule, a) + InfosOf(rule, b) == InfosOf(rule, a + b)
  {
  }

  lemma MetadataAppend(fieldsSet: seq<Fields>, indices: seq<string>, a: seq<string>, b: seq<string>)
    ensures MetadataOf(fieldsSet, indices, a) + MetadataOf(fieldsSet, indices, b) ==
            MetadataOf(fieldsSet, indices, a + b)
  {
  }

  lemma WithOneName(t: Tables, name: string, fieldsSet: seq<Fields>, indices: seq<string>)
    requires FindMetadata(fieldsSet, name).Some?
    ensures WithNames(t, [name], fieldsSet, indices) ==
            Tables(t.rule,
                   t.metrics[name := PodMetric(Renamed(t.rule, name))],
                   t.indexed[name := MappedField(FindMetadata(fieldsSet, name).value, indices)],
                   t.registered + [name])
  {
    var info, metadata := PodMetric(Renamed(t.rule, name)), MappedField(FindMetadata(fieldsSet, name).value, indices);
    assert InfosOf(t.rule, [name]) == map[name := info];
    MergeOne(t.metrics, name, info);
    assert MetadataOf(fieldsSet, indices, [name]) == map[name := metadata];
    MergeOne(t.indexed, name, metadata);
  }

  lemma MergeOne<K, V>(m: map<K, V>, key: K, value: V)
    ensures m + map[key := value] == m[key := value]
  {
  }

  lemma WalkOneMore(t: Tables, root: string, d: seq<Field>, i: nat, fieldsSet: seq<Fields>, indices: seq<string>)
    requires i < |d|
    ensures WithNames(t, Names(root, d[..i + 1], fieldsSet), fieldsSet, indices) ==
            WithNames(WithNames(t, Names(root, d[..i], fieldsSet), fieldsSet, indices),
                      NamesAt(root, d[i], fieldsSet), fieldsSet, indices)
    ensures Panics(d[..i + 1]) == (Panics(d[..i]) || PanicsAt(d[i]))
    ensures PanicsAt(d[i]) ==> Panics(d)
  {
    PanicsOneMore(d, i);
    NamesOneMore(root, d, i, fieldsSet);
    WithNamesAppend(t, Names(root, d[..i], fieldsSet), NamesAt(root, d[i], fieldsSet), fieldsSet, indices);
  }

  lemma WithNoNames(t: Tables, fieldsSet: seq<Fields>, indices: seq<string>)
    ensures WithNames(t, [], fieldsSet, indices) == t
  {
  }

  lemma IndicesOneMore(indexMappings: seq<Field>, fieldsSet: seq<Fields>, i: nat)
    requires i < |indexMappings| && NamesOfIndices(indexMappings[..i], fieldsSet).Done?
    ensures NamesOfIndices(indexMappings[..i + 1], fieldsSet) ==
            match NamesOfIndex(indexMappings[i], fieldsSet)
            case Done(more) => Done(NamesOfIndices(indexMappings[..i], fieldsSet).value + more)
            case Failed(e) => Failed(e)
            case Panicked => Panicked
  {
    assert indexMappings[..i + 1][..i] == indexMappings[..i];
  }

  lemma {:induction false} IndicesStopEarly(indexMappings: seq<Field>, fieldsSet: seq<Fields>, i: nat)
    requires i <= |indexMappings| && !NamesOfIndices(indexMappings[..i], fieldsSet).Done?
    ensures NamesOfIndices(indexMappings, fieldsSet) == NamesOfIndices(indexMappings[..i], fieldsSet)
  {
    if i == |indexMappings| {
      assert indexMappings[..i] == indexMappings;
    } else {
      var before := indexMappings[..|indexMappings| - 1];
      assert before[..i] == indexMappings[..i];
      IndicesStopEarly(before, fieldsSet, i);
    }
  }

  lemma {:induction false} StaticsOfSetStopEarly(o: Outcome<Tables>, metricSet: MetricSet, i: nat, j: nat)
    requires i <= j <= |metricSet.fields| && !StaticsOfSet(o, metricSet, i).Done?
    ensures StaticsOfSet(o, metricSet, j) == StaticsOfSet(o, metricSet, i)
  {
    if i < j {
      StaticsOfSetStopEarly(o, metricSet, i, j - 1);
    }
  }

  lemma {:induction false} StaticsStopEarly(o: Outcome<Tables>, sets: seq<MetricSet>, i: nat, j: nat)
    requires i <= j <= |sets| && !Statics(o, sets, i).Done?
    ensures Statics(o, sets, j) == Statics(o, sets, i)
  {
    if i < j {
      StaticsStopEarly(o, sets, i, j - 1);
      StaticsOfSetStopEarly(Statics(o, sets, j - 1), sets[j - 1], 0, |sets[j - 1].fields|);
    }
  }

  lemma {:induction false} MappedStopEarly(
    o: Outcome<Tables>, sets: seq<MetricSet>, responses: seq<Response>, i: nat, j: nat)
    requires i <= j <= |sets| == |responses| && !Mapped(o, sets, responses, i).Done?
    ensures Mapped(o, sets, responses, j) == Mapped(o, sets, responses, i)
  {
    if i < j {
      MappedStopEarly(o, sets, responses, i, j - 1);
    }
  }

  // ----- The recorder -----

  /** A method that fills a recorder reports this outcome and, when it is done, leaves these tables. */
  ghost predicate Reports(outcome: Outcome<()>, expected: Outcome<Tables>, gathered: Tables) {
    match expected
    case Done(t) => outcome == Done(()) && gathered == t
    case Failed(e) => outcome == Failed(e)
    case Panicked => outcome == Panicked
  }

  class Recorder {
    var metrics: map<string, CustomMetricInfo>
    var indexedMetrics: map<string, Metadata>
    const namer: Namer

    ghost predicate Valid()
      reads this, namer
    {
      namer.Valid()
    }

    ghost function Gathered(): Tables
      reads this, namer
    {
      Tables(namer.rule, metrics, indexedMetrics, namer.registered)
    }

    constructor (namer: Namer)
      requires namer.Valid() && namer.registered == []
      ensures this.namer == namer && Valid() && Gathered() == EmptyTables(namer.rule)
    {
      metrics := map[];
      indexedMetrics := map[];
      this.namer := namer;
    }

    /** The recursive walk. It stops where a type assertion would panic; otherwise it records exactly Names. */
    method Process(root: string, d: seq<Field>, fieldsSet: seq<Fields>, indices: seq<string>) returns (ok: bool)
      requires Valid()
      modifies this, namer
      ensures Valid()
      ensures ok == !Panics(d)
      ensures ok ==> Gathered() == WithNames(old(Gathered()), Names(root, d, fieldsSet), fieldsSet, indices)
      decreases d
    {
      ghost var before := Gathered();
      WithNoNames(before, fieldsSet, indices);
      for i := 0 to |d|
        invariant Valid()
        invariant !Panics(d[..i])
        invariant Gathered() == WithNames(before, Names(root, d[..i], fieldsSet), fieldsSet, indices)
      {
        WalkOneMore(before, root, d, i, fieldsSet, indices);
        ok := ProcessEntry(root, d[i], fieldsSet, indices);
        if !ok {
          return;
        }
      }
      assert d[..|d|] == d;
      ok := true;
    }

    method ProcessEntry(root: string, entry: Field, fieldsSet: seq<Fields>, indices: seq<string>) returns (ok: bool)
      requires Valid()
      modifies this, namer
      ensures Valid()
      ensures ok == !PanicsAt(entry)
      ensures ok ==> Gathered() == WithNames(old(Gathered()), NamesAt(root, entry, fieldsSet), fieldsSet, indices)
      decreases entry
    {
      WithNoNames(Gathered(), fieldsSet, indices);
      if entry.key == "*" || !entry.value.Object? {
        return true;
      }
      var child := entry.value.fields;
      if entry.key == "properties" {
        ok := Process(root, child, fieldsSet, indices);
        return;
      }
      if HasKey(child, "properties") {
        ok := Process(Extend(root, entry.key), child, fieldsSet, indices);
        return;
      }
      var t := Find(child, "type");
      if t.Some? && !t.value.Str? {
        return false;
      }
      if t.None? || !IsTypeAllowed(t.value.text) {
        return true;
      }
      var metricName := Extend(root, entry.key);
      var fields := FindMetadata(fieldsSet, metricName);
      if fields.None? {
        return true;
      }
      WithOneName(Gathered(), metricName, fieldsSet, indices);
      var alias := namer.Register(metricName);
      metrics := metrics[metricName := PodMetric(alias)];
      indexedMetrics := indexedMetrics[metricName := MappedField(fields.value, indices)];
      return true;
    }

    method ProcessMappingDocument(mapping: Json, fieldsSet: seq<Fields>, indices: seq<string>) returns (ok: bool)
      requires Valid()
      modifies this, namer
      ensures Valid()
      ensures ok == !Panics(PropertiesOf(mapping))
      ensures ok ==> Gathered() ==
                     WithNames(old(Gathered()), Names("", PropertiesOf(mapping), fieldsSet), fieldsSet, indices)
    {
      WithNoNames(Gathered(), fieldsSet, indices);
      if !mapping.Object? {
        return true;
      }
      var properties := Find(mapping.fields, "properties");
      if properties.None? || !properties.value.Object? {
        return true;
      }
      ok := Process("", properties.value.fields, fieldsSet, indices);
    }

    /** getMappingFor, given what its request brought back. */
    method RecordMappings(metricSet: MetricSet, response: Response) returns (outcome: Outcome<()>)
      requires Valid()
      modifies this, namer
      ensures Valid()
      ensures Reports(outcome, WithResponse(Done(old(Gathered())), metricSet, response), Gathered())
    {
      if response.RequestFailed? { return Failed(Unreachable); }
      if response.ErrorStatus? { return Failed(BadStatus); }
      if response.BadBody? { return Failed(Undecodable); }
      var entries := response.indexMappings;
      ghost var before := Gathered();
      ghost var names: seq<string> := [];
      WithNoNames(before, metricSet.fields, metricSet.indices);
      for i := 0 to |entries|
        invariant Valid()
        invariant NamesOfIndices(entries[..i], metricSet.fields) == Done(names)
        invariant Gathered() == WithNames(before, names, metricSet.fields, metricSet.indices)
      {
        IndicesOneMore(entries, metricSet.fields, i);
        ghost var more := NamesOfIndex(entries[i], metricSet.fields);
        outcome := RecordIndex(entries[i], metricSet.fields, metricSet.indices);
        if !outcome.Done? {
          IndicesStopEarly(entries, metricSet.fields, i + 1);
          return;
        }
        WithNamesAppend(before, names, more.value, metricSet.fields, metricSet.indices);
        names := names + more.value;
      }
      assert entries[..|entries|] == entries;
      return Done(());
    }

    method RecordIndex(index: Field, fieldsSet: seq<Fields>, indices: seq<string>) returns (outcome: Outcome<()>)
      requires Valid()
      modifies this, namer
      ensures Valid()
      ensures match NamesOfIndex(index, fieldsSet)
              case Done(names) =>
                outcome == Done(()) && Gathered() == WithNames(old(Gathered()), names, fieldsSet, indices)
              case Failed(e) => outcome == Failed(e)
              case Panicked => outcome == Panicked
    {
      if !index.value.Object? {
        return Panicked;
      }
      var mapping := Find(index.value.fields, "mappings");
      if mapping.None? {
        return Failed(NoMappings);
      }
      var ok := ProcessMappingDocument(mapping.value, fieldsSet, indices);
      return if ok then Done(()) else Panicked;
    }

    /** The second part of discoverMetrics: the mapping of each metric set in turn, up to the first failure. */
    method RecordAllMappings(sets: seq<MetricSet>, responses: seq<Response>) returns (outcome: Outcome<()>)
      requires Valid() && |sets| == |responses|
      modifies this, namer
      ensures Valid()
      ensures Reports(outcome, Mapped(Done(old(Gathered())), sets, responses, |sets|), Gathered())
    {
      ghost var start := Done(Gathered());
      outcome := Done(());
      var i := 0;
      while i < |sets| && outcome.Done?
        invariant i <= |sets| && Valid()
        invariant Reports(outcome, Mapped(start, sets, responses, i), Gathered())
      {
        outcome := RecordMappings(sets[i], responses[i]);
        i := i + 1;
      }
      if !outcome.Done? {
        MappedStopEarly(start, sets, responses, i, |sets|);
      }
    }

    /** The first part of discoverMetrics: static fields need no mapping. */
    method RecordStatics(sets: seq<MetricSet>) returns (outcome: Outcome<()>)
      requires Valid()
      modifies this
      ensures Valid() && namer.registered == old(namer.registered)
      ensures Reports(outcome, Statics(Done(old(Gathered())), sets, |sets|), Gathered())
    {
      ghost var start := Done(Gathered());
      for i := 0 to |sets|
        invariant Valid()
        invariant Statics(start, sets, i) == Done(Gathered())
      {
        outcome := RecordStaticsOf(sets[i]);
        if !outcome.Done? {
          StaticsStopEarly(start, sets, i + 1, |sets|);
          return;
        }
      }
      return Done(());
    }

    method RecordStaticsOf(metricSet: MetricSet) returns (outcome: Outcome<()>)
      requires Valid()
      modifies this
      ensures Valid()
      ensures Reports(outcome, StaticsOfSet(Done(old(Gathered())), metricSet, |metricSet.fields|), Gathered())
    {
      ghost var start := Done(Gathered());
      for j := 0 to |metricSet.fields|
        invariant Valid()
        invariant StaticsOfSet(start, metricSet, j) == Done(Gathered())
      {
        var f := metricSet.fields[j];
        if |f.name| > 0 {
          if !f.search.templateParses || !f.search.metricPathParses || !f.search.timestampPathParses {
            StaticsOfSetStopEarly(start, metricSet, j + 1, |metricSet.fields|);
            return if !f.search.templateParses then Panicked
                   else if !f.search.metricPathParses then Failed(BadMetricPath)
                   else Failed(BadTimestampPath);
          }
          indexedMetrics := indexedMetrics[f.name := SearchField(f.search, metricSet.indices)];
          metrics := metrics[f.name := PodMetric(f.name)];
        }
      }
      return Done(());
    }
  }

  // ----- The client -----

  class MetricsClient {
    const config: MetricServer
    var metrics: map<string, CustomMetricInfo>
    var indexedMetrics: map<string, Metadata>
    var namer: Namer?

    ghost predicate Valid()
      reads this, namer
    {
      namer != null ==> namer.Valid()
    }

    /** The tables of the last successful discovery, if there has been one. */
    ghost function Current(): Option<Tables>
      reads this, namer
    {
      if namer == null then None else Some(Tables(namer.rule, metrics, indexedMetrics, namer.registered))
    }

    constructor (config: MetricServer)
      ensures Valid() && Current() == None && this.config == config && metrics == map[]
    {
      this.config := config;
      metrics := map[];
      indexedMetrics := map[];
      namer := null;
    }

    /** Builds new tables aside and swaps them in only once every request has succeeded: a discovery that
        fails, or panics, leaves the client as it was. */
    method DiscoverMetrics(responses: seq<Response>) returns (outcome: Outcome<()>)
      requires Valid() && |responses| == |config.metricSets|
      modifies this
      ensures Valid()
      ensures match Discovered(config, responses)
              case Done(t) => outcome == Done(()) && Current() == Some(t)
              case Failed(e) => outcome == Failed(e)
              case Panicked => outcome == Panicked
      ensures !outcome.Done? ==> Current() == old(Current()) && metrics == old(metrics)
    {
      var newNamer := NewNamer(config.rename);
      if newNamer == null {
        MappedStopEarly(Failed(BadRename), config.metricSets, responses, 0, |responses|);
        return Failed(BadRename);
      }
      var recorder := new Recorder(newNamer);
      outcome := recorder.RecordStatics(config.metricSets);
      if !outcome.Done? {
        MappedStopEarly(StaticTables(config), config.metricSets, responses, 0, |responses|);
        return;
      }
      outcome := recorder.RecordAllMappings(config.metricSets, responses);
      if !outcome.Done? {
        return;
      }
      metrics := recorder.metrics;
      indexedMetrics := recorder.indexedMetrics;
      namer := newNamer;
      return Done(());
    }

    /** ListCustomMetricInfos: exactly the values of the freshly swapped-in `metrics`. */
    method ListCustomMetricInfos(responses: seq<Response>) returns (outcome: Outcome<set<CustomMetricInfo>>)
      requires Valid() && |responses| == |config.metricSets|
      modifies this
      ensures Valid()
      ensures match Discovered(config, responses)
              case Done(t) => Current() == Some(t) && outcome == Done(t.metrics.Values)
              case Failed(e) => outcome == Failed(e)
              case Panicked => outcome == Panicked
      ensures !outcome.Done? ==> Current() == old(Current()) && metrics == old(metrics)
    {
      var discovery := DiscoverMetrics(responses);
      match discovery
      case Failed(e) => return Failed(e);
      case Panicked => return Panicked;
      case Done(_) =>
        var infos: set<CustomMetricInfo> := {};
        var todo := metrics.Keys;
        while todo != {}
          invariant todo <= metrics.Keys
          invariant infos == set n | n in metrics && n !in todo :: metrics[n]
          decreases |todo|
        {
          var n :| n in todo;
          infos := infos + {metrics[n]};
          todo := todo - {n};
        }
        assert infos == metrics.Values;
        return Done(infos);
    }

    /** The lookup in valueFor. Before the first discovery the source would dereference a nil namer. */
    method LookupMetric(alias: string) returns (r: Result<(string, Metadata), LookupFailure>)
      requires Valid()
      ensures r == match Current() case None => Err(NotDiscoveredYet) case Some(t) => Lookup(t, alias)
    {
      if namer == null {
        return Err(NotDiscoveredYet);
      }
      var name := namer.Get(alias);
      if name.None? {
        return Err(NoAlias);
      }
      if name.value !in indexedMetrics {
        return Err(NoMetadata);
      }
      return Ok((name.value, indexedMetrics[name.value]));
    }
  }
}
