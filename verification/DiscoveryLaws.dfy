/** What a discovery guarantees: when it succeeds, which of its tables' entries stand, and when what it lists
    can be resolved and read back. */
module DiscoveryLaws {
  import opened Wrappers
  import opened Metrics
  import opened Text
  import opened Json
  import opened Config
  import opened Naming
  import opened Query
  import opened Walk
  import opened Discovery

  // ----- When a discovery succeeds -----

  predicate IndexIsFine(index: Field) {
    && index.value.Object? && HasKey(index.value.fields, "mappings")
    && !Panics(PropertiesOf(Find(index.value.fields, "mappings").value))
  }

  predicate ResponseIsFine(response: Response) {
    response.Mappings? && forall i :: 0 <= i < |response.indexMappings| ==> IndexIsFine(response.indexMappings[i])
  }

  predicate StaticParses(f: Fields) {
    f.name == "" || (f.search.templateParses && f.search.metricPathParses && f.search.timestampPathParses)
  }

  predicate StaticsParse(metricSet: MetricSet) {
    forall j :: 0 <= j < |metricSet.fields| ==> StaticParses(metricSet.fields[j])
  }

  lemma {:induction false} IndicesSucceed(indexMappings: seq<Field>, fieldsSet: seq<Fields>)
    ensures NamesOfIndices(indexMappings, fieldsSet).Done? <==>
            forall i :: 0 <= i < |indexMappings| ==> IndexIsFine(indexMappings[i])
  {
    if indexMappings != [] {
      var before := indexMappings[..|indexMappings| - 1];
      IndicesSucceed(before, fieldsSet);
      assert forall i :: 0 <= i < |before| ==> before[i] == indexMappings[i];
    }
  }

  lemma {:induction false} StaticsOfSetSucceed(o: Outcome<Tables>, metricSet: MetricSet, j: nat)
    requires o.Done? && j <= |metricSet.fields|
    ensures StaticsOfSet(o, metricSet, j).Done? <==> forall k :: 0 <= k < j ==> StaticParses(metricSet.fields[k])
  {
    if j > 0 {
      StaticsOfSetSucceed(o, metricSet, j - 1);
    }
  }

  lemma {:induction false} StaticsSucceed(o: Outcome<Tables>, sets: seq<MetricSet>, i: nat)
    requires o.Done? && i <= |sets|
    ensures Statics(o, sets, i).Done? <==> forall k :: 0 <= k < i ==> StaticsParse(sets[k])
  {
    if i > 0 {
      StaticsSucceed(o, sets, i - 1);
      var before := Statics(o, sets, i - 1);
      if before.Done? {
        StaticsOfSetSucceed(before, sets[i - 1], |sets[i - 1].fields|);
      } else {
        StaticsOfSetStopEarly(before, sets[i - 1], 0, |sets[i - 1].fields|);
      }
    }
  }

  lemma FineIsDone(response: Response, fieldsSet: seq<Fields>)
    ensures ResponseIsFine(response) <==> NamesOfResponse(response, fieldsSet).Done?
  {
    if response.Mappings? {
      IndicesSucceed(response.indexMappings, fieldsSet);
    }
  }

  lemma OneMoreSucceeds(o: Outcome<Tables>, metricSet: MetricSet, response: Response)
    ensures WithResponse(o, metricSet, response).Done? <==> o.Done? && ResponseIsFine(response)
  {
    FineIsDone(response, metricSet.fields);
  }

  predicate AllFine(responses: seq<Response>) {
    forall k :: 0 <= k < |responses| ==> ResponseIsFine(responses[k])
  }

  lemma AllFineOneMore(responses: seq<Response>, i: nat)
    requires i < |responses|
    ensures AllFine(responses[..i + 1]) <==> AllFine(responses[..i]) && ResponseIsFine(responses[i])
  {
    assert responses[..i + 1] == responses[..i] + [responses[i]];
  }

  lemma {:induction false} MappedSucceeds(o: Outcome<Tables>, sets: seq<MetricSet>, responses: seq<Response>, i: nat)
    requires i <= |sets| == |responses|
    ensures Mapped(o, sets, responses, i).Done? <==> o.Done? && forall k :: 0 <= k < i ==> ResponseIsFine(responses[k])
  {
    assert AllFine(responses[..i]) <==> forall k :: 0 <= k < i ==> ResponseIsFine(responses[k]);
    if i > 0 {
      MappedSucceeds(o, sets, responses, i - 1);
      AllFineOneMore(responses, i - 1);
      OneMoreSucceeds(Mapped(o, sets, responses, i - 1), sets[i - 1], responses[i - 1]);
    }
  }

  /** A discovery succeeds exactly when the rename directive is valid, every static search parses, and every
      request brings back index mappings whose visited leaves have string types. */
  lemma DiscoverySucceeds(config: MetricServer, responses: seq<Response>)
    requires |responses| == |config.metricSets|
    ensures Discovered(config, responses).Done? <==>
            && !config.rename.InvalidRename?
            && (forall k :: 0 <= k < |responses| ==> StaticsParse(config.metricSets[k]))
            && (forall k :: 0 <= k < |responses| ==> ResponseIsFine(responses[k]))
  {
    StaticsSucceed(Done(EmptyTables(RuleOf(config.rename))), config.metricSets, |config.metricSets|);
    MappedSucceeds(StaticTables(config), config.metricSets, responses, |responses|);
  }

  // ----- Which definition of a name stands -----

  /** The mapping of the k-th metric set yields the name. */
  predicate YieldedBy(sets: seq<MetricSet>, responses: seq<Response>, k: nat, name: string)
    requires k < |sets| == |responses|
  {
    var names := NamesOfResponse(responses[k], sets[k].fields);
    names.Done? && name in names.value
  }

  lemma {:induction false} NamesHaveMetadata(root: string, d: seq<Field>, fieldsSet: seq<Fields>, name: string)
    requires name in Names(root, d, fieldsSet)
    ensures FindMetadata(fieldsSet, name).Some?
    decreases d
  {
    NamedSomewhere(root, d, fieldsSet, name);
    var i :| 0 <= i < |d| && name in NamesAt(root, d[i], fieldsSet);
    var child := d[i].value.fields;
    if d[i].key == "properties" {
      NamesHaveMetadata(root, child, fieldsSet, name);
    } else if HasKey(child, "properties") {
      NamesHaveMetadata(Extend(root, d[i].key), child, fieldsSet, name);
    }
  }

  lemma {:induction false} YieldedByIndices(indexMappings: seq<Field>, fieldsSet: seq<Fields>, name: string)
    requires NamesOfIndices(indexMappings, fieldsSet).Done?
    ensures forall i :: 0 <= i < |indexMappings| ==> NamesOfIndex(indexMappings[i], fieldsSet).Done?
    ensures name in NamesOfIndices(indexMappings, fieldsSet).value <==>
            exists i :: 0 <= i < |indexMappings| && name in NamesOfIndex(indexMappings[i], fieldsSet).value
    ensures name in NamesOfIndices(indexMappings, fieldsSet).value ==> FindMetadata(fieldsSet, name).Some?
  {
    IndicesSucceed(indexMappings, fieldsSet);
    if indexMappings != [] {
      var k := |indexMappings| - 1;
      var before := indexMappings[..k];
      YieldedByIndices(before, fieldsSet, name);
      assert forall i :: 0 <= i < |before| ==> before[i] == indexMappings[i];
      if name in NamesOfIndex(indexMappings[k], fieldsSet).value {
        NamesHaveMetadata("", PropertiesOf(Find(indexMappings[k].value.fields, "mappings").value), fieldsSet, name);
      }
    }
  }

  lemma YieldedHaveMetadata(response: Response, fieldsSet: seq<Fields>)
    requires NamesOfResponse(response, fieldsSet).Done?
    ensures forall name :: name in NamesOfResponse(response, fieldsSet).value ==> FindMetadata(fieldsSet, name).Some?
  {
    forall name | name in NamesOfResponse(response, fieldsSet).value
      ensures FindMetadata(fieldsSet, name).Some?
    {
      YieldedByIndices(response.indexMappings, fieldsSet, name);
    }
  }

  function MetadataAt(t: Tables, name: string): Option<Metadata> {
    if name in t.indexed then Some(t.indexed[name]) else None
  }

  /** The last of the first `i` metric sets whose mapping yields the name. */
  function LastMapping(sets: seq<MetricSet>, responses: seq<Response>, i: nat, name: string): (k: Option<nat>)
    requires i <= |sets| == |responses|
    ensures match k
            case None => forall l :: 0 <= l < i ==> !YieldedBy(sets, responses, l, name)
            case Some(l) => l < i && YieldedBy(sets, responses, l, name) &&
                            forall m :: l < m < i ==> !YieldedBy(sets, responses, m, name)
  {
    if i == 0 then None
    else if YieldedBy(sets, responses, i - 1, name) then Some(i - 1)
    else LastMapping(sets, responses, i - 1, name)
  }

  /** The last static definition of the name (a static field has one) among the first `j` fields of a set. */
  function LastStaticOfSet(metricSet: MetricSet, j: nat, name: string): (k: Option<nat>)
    requires j <= |metricSet.fields|
    ensures match k
            case None => name == "" || forall l :: 0 <= l < j ==> metricSet.fields[l].name != name
            case Some(l) => l < j && metricSet.fields[l].name == name != "" &&
                            forall m :: l < m < j ==> metricSet.fields[m].name != name
  {
    if j == 0 || name == "" then None
    else if metricSet.fields[j - 1].name == name then Some(j - 1)
    else LastStaticOfSet(metricSet, j - 1, name)
  }

  /** The last static definition of the name among the first `i` metric sets. */
  function LastStatic(sets: seq<MetricSet>, i: nat, name: string): Option<Metadata>
    requires i <= |sets|
  {
    if i == 0 then None
    else
      match LastStaticOfSet(sets[i - 1], |sets[i - 1].fields|, name)
      case Some(j) => Some(SearchField(sets[i - 1].fields[j].search, sets[i - 1].indices))
      case None => LastStatic(sets, i - 1, name)
  }

  lemma {:induction false} StaticsOfSetStand(o: Outcome<Tables>, metricSet: MetricSet, j: nat, name: string)
    requires j <= |metricSet.fields| && o.Done? && StaticsOfSet(o, metricSet, j).Done?
    ensures MetadataAt(StaticsOfSet(o, metricSet, j).value, name) ==
            match LastStaticOfSet(metricSet, j, name)
            case Some(k) => Some(SearchField(metricSet.fields[k].search, metricSet.indices))
            case None => MetadataAt(o.value, name)
  {
    if j > 0 {
      StaticsOfSetStand(o, metricSet, j - 1, name);
    }
  }

  lemma {:induction false} StaticsStand(o: Outcome<Tables>, sets: seq<MetricSet>, i: nat, name: string)
    requires i <= |sets| && o.Done? && Statics(o, sets, i).Done?
    ensures MetadataAt(Statics(o, sets, i).value, name) ==
            match LastStatic(sets, i, name)
            case Some(m) => Some(m)
            case None => MetadataAt(o.value, name)
  {
    if i > 0 {
      var before := Statics(o, sets, i - 1);
      if !before.Done? {
        StaticsOfSetStopEarly(before, sets[i - 1], 0, |sets[i - 1].fields|);
        assert false;
      } else {
        StaticsStand(o, sets, i - 1, name);
        StaticsOfSetStand(before, sets[i - 1], |sets[i - 1].fields|, name);
      }
    }
  }

  lemma WithNamesMetadata(t: Tables, names: seq<string>, fieldsSet: seq<Fields>, indices: seq<string>, name: string)
    requires forall n :: n in names ==> FindMetadata(fieldsSet, n).Some?
    ensures MetadataAt(WithNames(t, names, fieldsSet, indices), name) ==
            if name in names then Some(MappedField(FindMetadata(fieldsSet, name).value, indices))
            else MetadataAt(t, name)
  {
  }

  lemma {:induction false} MappingsStand(
    o: Outcome<Tables>, sets: seq<MetricSet>, responses: seq<Response>, i: nat, name: string)
    requires i <= |sets| == |responses| && o.Done? && Mapped(o, sets, responses, i).Done?
    ensures MetadataAt(Mapped(o, sets, responses, i).value, name) ==
            match LastMapping(sets, responses, i, name)
            case Some(k) =>
              var f := FindMetadata(sets[k].fields, name);
              if f.Some? then Some(MappedField(f.value, sets[k].indices)) else None
            case None => MetadataAt(o.value, name)
  {
    if i > 0 {
      MappingsStand(o, sets, responses, i - 1, name);
      var names := NamesOfResponse(responses[i - 1], sets[i - 1].fields).value;
      YieldedHaveMetadata(responses[i - 1], sets[i - 1].fields);
      WithNamesMetadata(Mapped(o, sets, responses, i - 1).value, names, sets[i - 1].fields, sets[i - 1].indices, name);
    }
  }

  /** The metadata of a name is that of the last metric set whose mapping yields it, with the first group of
      fields of that set that matches; the last static definition of the name stands only when no mapping
      yields it. */
  lemma WinningMetadata(config: MetricServer, responses: seq<Response>, name: string)
    requires |responses| == |config.metricSets| && Discovered(config, responses).Done?
    ensures var sets := config.metricSets;
            MetadataAt(Discovered(config, responses).value, name) ==
            match LastMapping(sets, responses, |sets|, name)
            case Some(k) =>
              var f := FindMetadata(sets[k].fields, name);
              if f.Some? then Some(MappedField(f.value, sets[k].indices)) else None
            case None => LastStatic(sets, |sets|, name)
    ensures forall k :: 0 <= k < |responses| && YieldedBy(config.metricSets, responses, k, name) ==>
              FindMetadata(config.metricSets[k].fields, name).Some?
  {
    DiscoverySucceeds(config, responses);
    var start := Done(EmptyTables(RuleOf(config.rename)));
    StaticsSucceed(start, config.metricSets, |config.metricSets|);
    StaticsStand(start, config.metricSets, |config.metricSets|, name);
    MappingsStand(StaticTables(config), config.metricSets, responses, |responses|, name);
    forall k | 0 <= k < |responses| && YieldedBy(config.metricSets, responses, k, name)
      ensures FindMetadata(config.metricSets[k].fields, name).Some?
    {
      YieldedHaveMetadata(responses[k], config.metricSets[k].fields);
    }
  }

  // ----- Listed means resolvable -----

  /** What every successful discovery leaves: a name has metadata iff it has an info; a name the walk
      registered is listed under its alias, any other name is a static field listed under its own. */
  ghost predicate Coherent(t: Tables) {
    && t.metrics.Keys == t.indexed.Keys
    && (forall n :: n in t.registered ==>
          n in t.metrics && t.metrics[n] == PodMetric(Renamed(t.rule, n)) && t.indexed[n].MappedField?)
    && (forall n :: n in t.metrics && n !in t.registered ==> t.metrics[n] == PodMetric(n) && t.indexed[n].SearchField?)
  }

  lemma WithNamesIsCoherent(t: Tables, names: seq<string>, fieldsSet: seq<Fields>, indices: seq<string>)
    requires Coherent(t) && forall n :: n in names ==> FindMetadata(fieldsSet, n).Some?
    ensures Coherent(WithNames(t, names, fieldsSet, indices))
  {
  }

  lemma {:induction false} StaticsAreCoherent(o: Outcome<Tables>, sets: seq<MetricSet>, i: nat)
    requires i <= |sets| && Statics(o, sets, i).Done?
    requires o.Done? ==> Coherent(o.value) && o.value.registered == []
    ensures o.Done? && Coherent(Statics(o, sets, i).value)
    ensures Statics(o, sets, i).value.registered == [] && Statics(o, sets, i).value.rule == o.value.rule
  {
    if i > 0 {
      var before := Statics(o, sets, i - 1);
      if !before.Done? {
        StaticsOfSetStopEarly(before, sets[i - 1], 0, |sets[i - 1].fields|);
        assert false;
      } else {
        StaticsAreCoherent(o, sets, i - 1);
        StaticsOfSetAreCoherent(before, sets[i - 1], |sets[i - 1].fields|);
      }
    }
  }

  lemma {:induction false} StaticsOfSetAreCoherent(o: Outcome<Tables>, metricSet: MetricSet, j: nat)
    requires j <= |metricSet.fields| && StaticsOfSet(o, metricSet, j).Done?
    requires o.Done? && Coherent(o.value) && o.value.registered == []
    ensures Coherent(StaticsOfSet(o, metricSet, j).value)
    ensures StaticsOfSet(o, metricSet, j).value.registered == []
    ensures StaticsOfSet(o, metricSet, j).value.rule == o.value.rule
  {
    if j > 0 {
      StaticsOfSetAreCoherent(o, metricSet, j - 1);
    }
  }

  lemma {:induction false} MappedIsCoherent(o: Outcome<Tables>, sets: seq<MetricSet>, responses: seq<Response>, i: nat)
    requires i <= |sets| == |responses| && Mapped(o, sets, responses, i).Done?
    requires o.Done? ==> Coherent(o.value)
    ensures o.Done? && Coherent(Mapped(o, sets, responses, i).value)
    ensures Mapped(o, sets, responses, i).value.rule == o.value.rule
  {
    if i > 0 {
      MappedIsCoherent(o, sets, responses, i - 1);
      YieldedHaveMetadata(responses[i - 1], sets[i - 1].fields);
      WithNamesIsCoherent(Mapped(o, sets, responses, i - 1).value,
                          NamesOfResponse(responses[i - 1], sets[i - 1].fields).value,
                          sets[i - 1].fields, sets[i - 1].indices);
    }
  }

  /** Some of the first `i` mappings yields the name. */
  predicate YieldedAmong(sets: seq<MetricSet>, responses: seq<Response>, i: nat, name: string)
    requires i <= |sets| == |responses|
  {
    exists k :: 0 <= k < i && YieldedBy(sets, responses, k, name)
  }

  lemma YieldedAmongOneMore(sets: seq<MetricSet>, responses: seq<Response>, i: nat, name: string)
    requires i < |sets| == |responses|
    ensures YieldedAmong(sets, responses, i + 1, name) <==>
            YieldedAmong(sets, responses, i, name) || YieldedBy(sets, responses, i, name)
  {
  }

  /** The registered names are those some mapping yields. */
  lemma {:induction false} RegisteredAreYielded(
    o: Outcome<Tables>, sets: seq<MetricSet>, responses: seq<Response>, i: nat, name: string)
    requires i <= |sets| == |responses| && Mapped(o, sets, responses, i).Done?
    requires o.Done? ==> o.value.registered == []
    ensures name in Mapped(o, sets, responses, i).value.registered <==> YieldedAmong(sets, responses, i, name)
  {
    if i > 0 {
      RegisteredAreYielded(o, sets, responses, i - 1, name);
      RegisteredOneMoreSet(Mapped(o, sets, responses, i - 1), sets, responses, i - 1, name);
      YieldedAmongOneMore(sets, responses, i - 1, name);
    } else {
      assert Mapped(o, sets, responses, 0) == o;
    }
  }

  lemma RegisteredOneMoreSet(
    o: Outcome<Tables>, sets: seq<MetricSet>, responses: seq<Response>, k: nat, name: string)
    requires k < |sets| == |responses| && WithResponse(o, sets[k], responses[k]).Done?
    ensures o.Done?
    ensures name in WithResponse(o, sets[k], responses[k]).value.registered <==>
            name in o.value.registered || YieldedBy(sets, responses, k, name)
  {
  }

  lemma DiscoveryIsCoherent(config: MetricServer, responses: seq<Response>)
    requires |responses| == |config.metricSets| && Discovered(config, responses).Done?
    ensures var t := Discovered(config, responses).value;
            && Coherent(t) && t.rule == RuleOf(config.rename)
            && forall n :: n in t.registered <==>
                 exists k :: 0 <= k < |responses| && YieldedBy(config.metricSets, responses, k, n)
  {
    DiscoverySucceeds(config, responses);
    var start := Done(EmptyTables(RuleOf(config.rename)));
    StaticsSucceed(start, config.metricSets, |config.metricSets|);
    StaticsAreCoherent(start, config.metricSets, |config.metricSets|);
    MappedIsCoherent(StaticTables(config), config.metricSets, responses, |responses|);
    forall n
      ensures n in Discovered(config, responses).value.registered <==>
              exists k :: 0 <= k < |responses| && YieldedBy(config.metricSets, responses, k, n)
    {
      RegisteredAreYielded(StaticTables(config), config.metricSets, responses, |responses|, n);
    }
  }

  /** Some registered source is exposed under this alias. */
  ghost predicate IsAlias(t: Tables, alias: string) {
    exists s :: s in t.registered && Renamed(t.rule, s) == alias
  }

  /** What a discovery lists can be looked up, whether or not aliases collide, with one exact exception:
      under a rename, a static field that no mapping yields resolves only if its name happens to be the alias
      of some mapped field. */
  lemma ListedResolvesExactly(t: Tables, name: string)
    requires Coherent(t) && name in t.metrics
    ensures Lookup(t, t.metrics[name].metric).Ok? <==>
            t.rule.None? || name in t.registered || IsAlias(t, name)
  {
    var alias := t.metrics[name].metric;
    if t.rule.Some? {
      TableHoldsLatestSources(t.rule, t.registered, alias);
      LatestSourceIsRegistered(t.rule, t.registered, alias);
      if name in t.registered {
        assert IsAlias(t, alias);
      }
    }
  }

  /** Any alias at all: without a rename it resolves exactly when it is the name of something listed, under a
      rename exactly when some mapped field is exposed under it. */
  lemma LookupIsExact(t: Tables, alias: string)
    requires Coherent(t)
    ensures Lookup(t, alias).Ok? <==> if t.rule.None? then alias in t.metrics else IsAlias(t, alias)
  {
    if t.rule.Some? {
      TableHoldsLatestSources(t.rule, t.registered, alias);
      LatestSourceIsRegistered(t.rule, t.registered, alias);
    }
  }

  /** The alias of a mapped field resolves to a mapped field exposed under that alias: to the field itself
      exactly when there is no rename or that field was the last one registered under the alias, and so always
      when the rename is injective on the mapped fields. */
  lemma LookupAnswersMappedFields(t: Tables, name: string)
    requires Coherent(t) && name in t.registered
    ensures var r := Lookup(t, t.metrics[name].metric);
            && r.Ok? && r.value.1 == t.indexed[r.value.0]
            && (r.value.0 in t.registered && Renamed(t.rule, r.value.0) == Renamed(t.rule, name))
            && (r.value.0 == name <==>
                  t.rule.None? || LatestSource(t.rule, t.registered, Renamed(t.rule, name)) == Some(name))
            && (InjectiveOn(t.rule, t.registered) ==> r.value.0 == name)
  {
    ListedResolvesExactly(t, name);
    if t.rule.Some? {
      TableHoldsLatestSources(t.rule, t.registered, t.metrics[name].metric);
      LatestSourceIsRegistered(t.rule, t.registered, t.metrics[name].metric);
    }
  }

  /** Under a rename a static field that no mapping yields never resolves to itself: to nothing, or to a mapped
      field that happens to be exposed under its name. */
  lemma StaticNeverAnswersItself(t: Tables, name: string)
    requires Coherent(t) && t.rule.Some? && name in t.metrics && name !in t.registered
    ensures match Lookup(t, t.metrics[name].metric)
            case Err(e) => e == NoAlias && !IsAlias(t, name)
            case Ok(r) => r.0 != name && r.0 in t.registered && Renamed(t.rule, r.0) == name && r.1.MappedField?
  {
    TableHoldsLatestSources(t.rule, t.registered, name);
    LatestSourceIsRegistered(t.rule, t.registered, name);
  }

  /** The exception is real: a rename, one static field and no mapped field. */
  lemma StaticFieldLostUnderRename()
    ensures var rule := Rule(s => true, (s: string) => "renamed." + s);
            var search := Search("", true, true, true);
            var config := MetricServer("es", Elasticsearch, [],
                                       [MetricSet([], [Fields("static", [], search)])], RenameBy(rule), 0);
            var outcome := Discovered(config, [Mappings([])]);
            && outcome.Done? && "static" in outcome.value.metrics
            && outcome.value.metrics["static"] == CustomMetricInfo("", "pods", true, "static")
            && Lookup(outcome.value, "static") == Err(NoAlias)
  {
    var rule := Rule(s => true, (s: string) => "renamed." + s);
    var search := Search("", true, true, true);
    var metricSet := MetricSet([], [Fields("static", [], search)]);
    var config := MetricServer("es", Elasticsearch, [], [metricSet], RenameBy(rule), 0);
    var start := Done(EmptyTables(Some(rule)));
    assert StaticsOfSet(start, metricSet, 0) == start;
    assert StaticsOfSet(start, metricSet, 1).Done?;
    assert Statics(start, [metricSet], 0) == start;
    var s := Statics(start, [metricSet], 1);
    assert s.Done? && s.value.registered == [] && "static" in s.value.metrics;
    assert Mapped(s, [metricSet], [Mappings([])], 0) == s;
    assert Mapped(s, [metricSet], [Mappings([])], 1) == Done(WithNames(s.value, [], metricSet.fields, []));
    WithNoNames(s.value, metricSet.fields, []);
    assert AliasesAfter(Some(rule), []) == map[];
  }

  // ----- Reading a metric back -----

  /** In a clean mapping, a recorded name comes from exactly one key path, and reading "_source." + name from a
      search hit gives exactly what descending the hit along that path's field names gives. */
  lemma DiscoveredNameReadsItsField(d: seq<Field>, fieldsSet: seq<Fields>, name: string) returns (path: seq<string>)
    requires WellFormed(Object(d)) && CleanTable(d) && name in Names("", d, fieldsSet)
    ensures Yields(d, path, "", fieldsSet, name)
    ensures forall other :: LeafPath(d, other) && DottedName("", Segments(other)) == name ==> other == path
    ensures forall hit :: GetValue("_source." + name, hit) == Descend(hit, ["_source"] + Segments(path))
  {
    path := WalkIsSound("", d, fieldsSet, name);
    forall other | LeafPath(d, other) && DottedName("", Segments(other)) == name
      ensures other == path
    {
      NamesIdentifyPaths(d, path, other);
    }
    CleanPath(d, path);
    NamesAreReadable(Segments(path));
    YieldedNameReadsItsSegments(d, path, fieldsSet, name);
  }

  /** Whatever the mapping: reading "_source." + name gives, in every search hit, what the keys the walk keeps of
      the path lead to exactly when none of these holds a dot and they do not start with an empty one. */
  lemma YieldedNameReadsItsSegments(d: seq<Field>, path: seq<string>, fieldsSet: seq<Fields>, name: string)
    requires Yields(d, path, "", fieldsSet, name)
    ensures (forall hit :: GetValue("_source." + name, hit) == Descend(hit, ["_source"] + Segments(path))) <==>
            Readable(Segments(path))
  {
    LeafHasSegments(path);
    SplitOfName(Segments(path));
    NameReadsExactly(name, Segments(path));
  }

  /** A name reads what some keys lead to below _source, in every search hit, exactly when it splits into them. */
  lemma NameReadsExactly(name: string, keys: seq<string>)
    ensures (forall hit :: GetValue("_source." + name, hit) == Descend(hit, ["_source"] + keys)) <==>
            Split(name) == keys
  {
    var read, meant := ["_source"] + Split(name), ["_source"] + keys;
    assert read[1..] == Split(name) && meant[1..] == keys;
    DocumentsTellPathsApart(read, meant);
    forall hit
      ensures GetValue("_source." + name, hit) == Descend(hit, read)
    {
      SourceReads(name, hit);
    }
  }

  /** What a name reads, whatever it is: what its own pieces lead to. */
  lemma SourceReads(name: string, hit: seq<Field>)
    ensures GetValue("_source." + name, hit) == Descend(hit, ["_source"] + Split(name))
  {
    SplitOfDotFree("_source");
    SplitAtDot("_source", name);
    assert "_source." + name == "_source" + "." + name;
    GetValueIsDescend("_source." + name, hit);
  }

  /** The failure is real: a field mapped as "a.b" is recorded, and a hit that holds it does not read. */
  lemma DottedFieldIsNotRead(fieldsSet: seq<Fields>)
    requires FindMetadata(fieldsSet, "a.b").Some?
    ensures Names("", [Field("a.b", Object([Field("type", Str("long"))]))], fieldsSet) == ["a.b"]
    ensures var hit := [Field("_source", Object([Field("a.b", Scalar("1"))]))];
            && GetValue("_source." + "a.b", hit) == Err(Missing("a"))
            && Descend(hit, ["_source", "a.b"]) == Ok(Scalar("1"))
  {
    var d := [Field("a.b", Object([Field("type", Str("long"))]))];
    assert d[1..] == [] && NamesAt("", d[0], fieldsSet) == ["a.b"];
    ReadsSource([Field("a.b", Scalar("1"))]);
  }

  lemma ReadsSource(source: seq<Field>)
    requires source == [Field("a.b", Scalar("1"))]
    ensures var hit := [Field("_source", Object(source))];
            && GetValue("_source." + "a.b", hit) == Err(Missing("a"))
            && Descend(hit, ["_source", "a.b"]) == Ok(Scalar("1"))
  {
    var hit := [Field("_source", Object(source))];
    SourceReads("a.b", hit);
    SplitOfDotFree("a");
    SplitAtDot("a", "b");
    var read := ["_source"] + Split("a.b");
    assert "a" + "." + "b" == "a.b" && read[0] == "_source" && read[1..] == Split("a.b") && read[1..][0] == "a";
    var rest := read[1..];
    assert rest != [] && rest[0] == "a" && Find(source, rest[0]) == None;
    assert Descend(source, rest) == Err(Missing("a"));
    assert Find(hit, "_source") == Some(Object(source)) && Descend(hit, read) == Descend(source, read[1..]);
    assert ["_source", "a.b"][1..] == ["a.b"];
  }

  /** The mapping of every index in every response is clean. */
  ghost predicate CleanResponse(response: Response) {
    response.Mappings? ==> forall i :: 0 <= i < |response.indexMappings| ==> CleanIndex(response.indexMappings[i])
  }

  ghost predicate CleanIndex(index: Field) {
    index.value.Object? && HasKey(index.value.fields, "mappings") ==>
      var d := PropertiesOf(Find(index.value.fields, "mappings").value);
      WellFormed(Object(d)) && CleanTable(d)
  }

  /** From listing to reading: on clean mappings and under a rename that is injective on the mapped fields, the
      alias under which a mapped field is listed resolves to the field's own name and metadata, and reading that
      name from a search hit descends along the key path of a numeric leaf of one of the mappings. */
  lemma ListedMetricReadsItsField(config: MetricServer, responses: seq<Response>, name: string)
    returns (k: nat, i: nat, path: seq<string>)
    requires |responses| == |config.metricSets| && Discovered(config, responses).Done?
    requires forall r :: r in responses ==> CleanResponse(r)
    requires var t := Discovered(config, responses).value; name in t.registered && InjectiveOn(t.rule, t.registered)
    ensures var t := Discovered(config, responses).value;
            && name in t.metrics && name in t.indexed
            && Lookup(t, t.metrics[name].metric) == Ok((name, t.indexed[name]))
    ensures k < |responses| && responses[k].Mappings? && i < |responses[k].indexMappings|
    ensures IndexIsFine(responses[k].indexMappings[i])
    ensures Yields(PropertiesOf(Find(responses[k].indexMappings[i].value.fields, "mappings").value), path, "",
                   config.metricSets[k].fields, name)
    ensures forall hit :: GetValue("_source." + name, hit) == Descend(hit, ["_source"] + Segments(path))
  {
    DiscoveryIsCoherent(config, responses);
    LookupAnswersMappedFields(Discovered(config, responses).value, name);
    k :| k < |responses| && YieldedBy(config.metricSets, responses, k, name);
    assert responses[k] in responses;
    var entries, fieldsSet := responses[k].indexMappings, config.metricSets[k].fields;
    YieldedByIndices(entries, fieldsSet, name);
    IndicesSucceed(entries, fieldsSet);
    i :| i < |entries| && name in NamesOfIndex(entries[i], fieldsSet).value;
    assert CleanIndex(entries[i]);
    path := DiscoveredNameReadsItsField(PropertiesOf(Find(entries[i].value.fields, "mappings").value), fieldsSet, name);
  }
}
