/** What a discovery lists, how it fails and what a lookup answers, said of the configuration and the documents
    themselves: key paths, entries, patterns and positions. */
module ListingLaws {
  import opened Wrappers
  import opened Metrics
  import opened Json
  import opened Config
  import opened Naming
  import opened Walk
  import opened Discovery
  import opened DiscoveryLaws
  import opened OrderLaws

  // ----- What is listed -----

  /** This table is what the index maps under "mappings" and "properties". */
  ghost predicate MappedTable(index: Field, d: seq<Field>) {
    && index.value.Object? && HasKey(index.value.fields, "mappings")
    && var mapping := Find(index.value.fields, "mappings").value;
       mapping.Object? && Find(mapping.fields, "properties") == Some(Object(d))
  }

  /** The k-th mapping yields a name exactly when a key path in the table of one of its indices does. */
  lemma YieldedExactly(sets: seq<MetricSet>, responses: seq<Response>, k: nat, name: string)
    requires k < |sets| == |responses| && Decoded(responses) && ResponseIsFine(responses[k])
    ensures YieldedBy(sets, responses, k, name) <==>
            exists i, d, path :: 0 <= i < |responses[k].indexMappings| &&
              MappedTable(responses[k].indexMappings[i], d) && Yields(d, path, "", sets[k].fields, name)
  {
    var indices, fieldsSet := responses[k].indexMappings, sets[k].fields;
    FineIsDone(responses[k], fieldsSet);
    YieldedByIndices(indices, fieldsSet, name);
    forall i | 0 <= i < |indices|
      ensures name in NamesOfIndex(indices[i], fieldsSet).value <==>
              exists d, path :: MappedTable(indices[i], d) && Yields(d, path, "", fieldsSet, name)
    {
      YieldedByIndex(indices[i], fieldsSet, name);
    }
  }

  lemma YieldedByIndex(index: Field, fieldsSet: seq<Fields>, name: string)
    requires WellFormed(index.value) && IndexIsFine(index)
    ensures NamesOfIndex(index, fieldsSet).Done?
    ensures name in NamesOfIndex(index, fieldsSet).value <==>
            exists d, path :: MappedTable(index, d) && Yields(d, path, "", fieldsSet, name)
  {
    var mapping := Find(index.value.fields, "mappings").value;
    var d := PropertiesOf(mapping);
    FindIsWellFormed(index.value.fields, "mappings");
    if mapping.Object? && HasKey(mapping.fields, "properties") {
      FindIsWellFormed(mapping.fields, "properties");
    }
    WalkIsExact("", d, fieldsSet, name);
    if MappedTable(index, d) {
    } else {
      assert d == [];
    }
  }

  /** Some metric set defines the name as a static field. */
  predicate DefinesStatic(sets: seq<MetricSet>, name: string) {
    name != "" && exists i, j :: 0 <= i < |sets| && 0 <= j < |sets[i].fields| && sets[i].fields[j].name == name
  }

  lemma {:induction false} LastStaticIsSome(sets: seq<MetricSet>, i: nat, name: string)
    requires i <= |sets|
    ensures LastStatic(sets, i, name).Some? <==> DefinesStatic(sets[..i], name)
  {
    if i > 0 {
      LastStaticIsSome(sets, i - 1, name);
      assert sets[..i] == sets[..i - 1] + [sets[i - 1]];
    }
  }

  /** Listed is what some mapping yields, under the name its rename gives it, and every static field, under its
      own; every info is that of a namespaced metric of pods. */
  lemma ListedExactly(config: MetricServer, responses: seq<Response>, name: string)
    requires |responses| == |config.metricSets| && Discovered(config, responses).Done?
    ensures var t, rename := Discovered(config, responses).value, config.rename;
            var yielded := exists k :: 0 <= k < |responses| && YieldedBy(config.metricSets, responses, k, name);
            && (name in t.metrics <==> yielded || DefinesStatic(config.metricSets, name))
            && (yielded && rename.RenameBy? && rename.rule.matches(name) ==>
                  t.metrics[name] == CustomMetricInfo("", "pods", true, rename.rule.expand(name)))
            && (name in t.metrics && !(yielded && rename.RenameBy? && rename.rule.matches(name)) ==>
                  t.metrics[name] == CustomMetricInfo("", "pods", true, name))
  {
    var sets := config.metricSets;
    DiscoveryIsCoherent(config, responses);
    WinningMetadata(config, responses, name);
    LastStaticIsSome(sets, |sets|, name);
    assert sets[..|sets|] == sets;
    assert LastMapping(sets, responses, |sets|, name).Some? <==>
           exists k :: 0 <= k < |responses| && YieldedBy(sets, responses, k, name);
  }

  // ----- Which definition a lookup answers -----

  /** The last definition of a static field: the last of its name in its metric set, and none in a later one. */
  ghost predicate LastDefinition(sets: seq<MetricSet>, i: nat, j: nat, name: string) {
    && name != "" && i < |sets| && j < |sets[i].fields| && sets[i].fields[j].name == name
    && (forall l :: j < l < |sets[i].fields| ==> sets[i].fields[l].name != name)
    && (forall k, l :: i < k < |sets| && 0 <= l < |sets[k].fields| ==> sets[k].fields[l].name != name)
  }

  lemma {:induction false} LastStaticIsLast(sets: seq<MetricSet>, n: nat, i: nat, j: nat, name: string)
    requires i < n <= |sets| && LastDefinition(sets, i, j, name)
    ensures LastStatic(sets, n, name) == Some(SearchField(sets[i].fields[j].search, sets[i].indices))
  {
    if n - 1 > i {
      LastStaticIsLast(sets, n - 1, i, j, name);
    }
  }

  /** A lookup answers what is stored: without a rename, every listed name with its own metadata. */
  lemma LookupAnswersWhatIsStored(t: Tables, alias: string)
    requires Coherent(t)
    ensures forall n, m :: Lookup(t, alias) == Ok((n, m)) ==> n in t.indexed && m == t.indexed[n]
    ensures t.rule.None? && alias in t.metrics ==> Lookup(t, alias) == Ok((alias, t.indexed[alias]))
  {
  }

  /** Without a rename, a static field that no mapping yields resolves to its last definition: its search, over the
      indices of the metric set that holds it. */
  lemma StaticResolvesToLastDefinition(
    config: MetricServer, responses: seq<Response>, i: nat, j: nat, name: string)
    requires |responses| == |config.metricSets| && Discovered(config, responses).Done? && config.rename.NoRename?
    requires LastDefinition(config.metricSets, i, j, name)
    requires forall k :: 0 <= k < |responses| ==> !YieldedBy(config.metricSets, responses, k, name)
    ensures Lookup(Discovered(config, responses).value, name) ==
            Ok((name, SearchField(config.metricSets[i].fields[j].search, config.metricSets[i].indices)))
  {
    DiscoveryIsCoherent(config, responses);
    WinningMetadata(config, responses, name);
    LastStaticIsLast(config.metricSets, |config.metricSets|, i, j, name);
    LookupAnswersWhatIsStored(Discovered(config, responses).value, name);
  }

  /** A name that some mapping yields resolves, when it resolves to itself, to the first group of fields matching it
      in the last metric set that yields it, over the indices of that set. */
  lemma MappedResolvesToLastSet(
    config: MetricServer, responses: seq<Response>, alias: string, k: nat, name: string)
    requires |responses| == |config.metricSets| && Discovered(config, responses).Done? && k < |responses|
    requires YieldedBy(config.metricSets, responses, k, name)
    requires forall l :: k < l < |responses| ==> !YieldedBy(config.metricSets, responses, l, name)
    ensures var r := Lookup(Discovered(config, responses).value, alias);
            var group := FindMetadata(config.metricSets[k].fields, name);
            r.Ok? && r.value.0 == name ==>
              group.Some? && r.value.1 == MappedField(group.value, config.metricSets[k].indices)
  {
    DiscoveryIsCoherent(config, responses);
    WinningMetadata(config, responses, name);
    LookupAnswersWhatIsStored(Discovered(config, responses).value, alias);
    LastMappingIs(config.metricSets, responses, k, name);
  }

  lemma LastMappingIs(sets: seq<MetricSet>, responses: seq<Response>, k: nat, name: string)
    requires k < |sets| == |responses| && YieldedBy(sets, responses, k, name)
    requires forall l :: k < l < |responses| ==> !YieldedBy(sets, responses, l, name)
    ensures LastMapping(sets, responses, |sets|, name) == Some(k)
  {
  }

  // ----- How a discovery fails -----

  lemma BadRenameFails(config: MetricServer, responses: seq<Response>)
    requires |responses| == |config.metricSets| && config.rename.InvalidRename?
    ensures Discovered(config, responses) == Failed(BadRename)
  {
    MappedStopEarly(StaticTables(config), config.metricSets, responses, 0, |responses|);
  }

  /** The first static field that does not parse ends the discovery: by a panic if it is the template, which comes
      first, by an error if it is one of the two queries. */
  lemma BadStaticFails(config: MetricServer, responses: seq<Response>, i: nat, j: nat)
    requires |responses| == |config.metricSets| && !config.rename.InvalidRename?
    requires i < |config.metricSets| && j < |config.metricSets[i].fields|
    requires forall k :: 0 <= k < i ==> StaticsParse(config.metricSets[k])
    requires forall l :: 0 <= l < j ==> StaticParses(config.metricSets[i].fields[l])
    requires config.metricSets[i].fields[j].name != ""
    ensures var search := config.metricSets[i].fields[j].search;
            && (!search.templateParses ==> Discovered(config, responses) == Panicked)
            && (search.templateParses && !search.metricPathParses ==>
                  Discovered(config, responses) == Failed(BadMetricPath))
            && (search.templateParses && search.metricPathParses && !search.timestampPathParses ==>
                  Discovered(config, responses) == Failed(BadTimestampPath))
  {
    var start, sets := Done(EmptyTables(RuleOf(config.rename))), config.metricSets;
    var search := sets[i].fields[j].search;
    if !search.templateParses || !search.metricPathParses || !search.timestampPathParses {
      StaticsSucceed(start, sets, i);
      StaticsOfSetSucceed(Statics(start, sets, i), sets[i], j);
      StaticsOfSetStopEarly(Statics(start, sets, i), sets[i], j + 1, |sets[i].fields|);
      StaticsStopEarly(start, sets, i + 1, |sets|);
      MappedStopEarly(StaticTables(config), sets, responses, 0, |responses|);
    }
  }

  /** Otherwise the first response that is not in order does: by an error when the request or its answer is bad. */
  lemma BadAnswerFails(config: MetricServer, responses: seq<Response>, k: nat)
    requires |responses| == |config.metricSets| && k < |responses| && StaticTables(config).Done?
    requires forall l :: 0 <= l < k ==> ResponseIsFine(responses[l])
    ensures responses[k].RequestFailed? ==> Discovered(config, responses) == Failed(Unreachable)
    ensures responses[k].ErrorStatus? ==> Discovered(config, responses) == Failed(BadStatus)
    ensures responses[k].BadBody? ==> Discovered(config, responses) == Failed(Undecodable)
  {
    if !responses[k].Mappings? {
      FirstBadResponseDecides(config, responses, k);
    }
  }

  /** And within a response the first index that is not in order: an error when it has no mappings, a panic when it
      is no object or some leaf path of its table leads to a type that is no string. */
  lemma BadIndexFails(config: MetricServer, responses: seq<Response>, k: nat, i: nat)
    requires |responses| == |config.metricSets| && k < |responses| && StaticTables(config).Done?
    requires forall l :: 0 <= l < k ==> ResponseIsFine(responses[l])
    requires responses[k].Mappings? && i < |responses[k].indexMappings|
    requires forall l :: 0 <= l < i ==> IndexIsFine(responses[k].indexMappings[l])
    requires WellFormed(responses[k].indexMappings[i].value)
    ensures var value := responses[k].indexMappings[i].value;
            && (!value.Object? ==> Discovered(config, responses) == Panicked)
            && (value.Object? && !HasKey(value.fields, "mappings") ==>
                  Discovered(config, responses) == Failed(NoMappings))
    ensures (exists d, path :: MappedTable(responses[k].indexMappings[i], d) &&
                               LeafPath(d, path) && BadlyTyped(LeafOf(d, path))) ==>
              Discovered(config, responses) == Panicked
  {
    var indices, fieldsSet := responses[k].indexMappings, config.metricSets[k].fields;
    if d, path :| MappedTable(indices[i], d) && LeafPath(d, path) && BadlyTyped(LeafOf(d, path)) {
      PanicIsComplete(d, path);
    }
    if !IndexIsFine(indices[i]) {
      IndicesSucceed(indices[..i], fieldsSet);
      IndicesOneMore(indices, fieldsSet, i);
      IndicesStopEarly(indices, fieldsSet, i + 1);
      FineIsDone(responses[k], fieldsSet);
      FirstBadResponseDecides(config, responses, k);
    }
  }
}
