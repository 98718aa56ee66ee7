/** What the order in which Go ranges over maps can and cannot change in a discovery: it never changes whether
    the discovery succeeds, nor the infos and metadata it leaves; when it changes how a discovery fails, and
    when it changes what an alias resolves to, is stated exactly. */
module OrderLaws {
  import opened Wrappers
  import opened Metrics
  import opened Json
  import opened Config
  import opened Naming
  import opened Walk
  import opened Discovery
  import opened DiscoveryLaws

  // ----- What the order does not change -----

  ghost predicate SameResponse(a: Response, b: Response) {
    a == b || (a.Mappings? && b.Mappings? && SameEntries(a.indexMappings, b.indexMappings))
  }

  /** The same documents, whatever the order in which their maps are visited at any level. */
  ghost predicate SameResponses(a: seq<Response>, b: seq<Response>) {
    |a| == |b| && forall k :: 0 <= k < |a| ==> SameResponse(a[k], b[k])
  }

  lemma PropertiesReordered(a: Json, b: Json)
    requires Reordered(a, b)
    ensures SameEntries(PropertiesOf(a), PropertiesOf(b))
  {
    if a.Object? {
      SameFind(a.fields, b.fields, "properties");
    }
  }

  lemma IndexReordered(x: Field, y: Field, fieldsSet: seq<Fields>)
    requires Reordered(x.value, y.value)
    ensures IndexIsFine(x) <==> IndexIsFine(y)
    ensures IndexIsFine(x) ==> forall name ::
              name in NamesOfIndex(x, fieldsSet).value <==> name in NamesOfIndex(y, fieldsSet).value
  {
    if x.value.Object? {
      SameFind(x.value.fields, y.value.fields, "mappings");
      if HasKey(x.value.fields, "mappings") {
        var a, b := Find(x.value.fields, "mappings").value, Find(y.value.fields, "mappings").value;
        PropertiesReordered(a, b);
        WalkIgnoresOrder("", PropertiesOf(a), PropertiesOf(b), fieldsSet);
      }
    }
  }

  lemma IndicesReordered(a: seq<Field>, b: seq<Field>, fieldsSet: seq<Fields>)
    requires SameEntries(a, b)
    ensures NamesOfIndices(a, fieldsSet).Done? ==> NamesOfIndices(b, fieldsSet).Done?
    ensures NamesOfIndices(a, fieldsSet).Done? ==> forall name ::
              name in NamesOfIndices(a, fieldsSet).value ==> name in NamesOfIndices(b, fieldsSet).value
  {
    if NamesOfIndices(a, fieldsSet).Done? {
      IndicesSucceed(a, fieldsSet);
      IndicesSucceed(b, fieldsSet);
      SameEntriesIsSymmetric(a, b);
      forall j | 0 <= j < |b|
        ensures IndexIsFine(b[j])
      {
        var i := Counterpart(b, a, j);
        IndexReordered(b[j], a[i], fieldsSet);
      }
      forall name | name in NamesOfIndices(a, fieldsSet).value
        ensures name in NamesOfIndices(b, fieldsSet).value
      {
        YieldedByIndices(a, fieldsSet, name);
        YieldedByIndices(b, fieldsSet, name);
        var i :| 0 <= i < |a| && name in NamesOfIndex(a[i], fieldsSet).value;
        var j := Counterpart(a, b, i);
        IndexReordered(a[i], b[j], fieldsSet);
      }
    }
  }

  lemma Counterpart(a: seq<Field>, b: seq<Field>, i: nat) returns (j: nat)
    requires SameEntries(a, b) && i < |a|
    ensures j < |b| && Reordered(a[i].value, b[j].value)
  {
    assert HasKey(b, a[i].key);
    FindGives(b, a[i].key);
    j :| j < |b| && b[j] == Field(a[i].key, Find(b, a[i].key).value);
  }

  lemma ResponseReordered(a: Response, b: Response, fieldsSet: seq<Fields>)
    requires SameResponse(a, b)
    ensures NamesOfResponse(a, fieldsSet).Done? <==> NamesOfResponse(b, fieldsSet).Done?
    ensures NamesOfResponse(a, fieldsSet).Done? ==> forall name ::
              name in NamesOfResponse(a, fieldsSet).value <==> name in NamesOfResponse(b, fieldsSet).value
  {
    if a != b {
      SameEntriesIsSymmetric(a.indexMappings, b.indexMappings);
      IndicesReordered(a.indexMappings, b.indexMappings, fieldsSet);
      IndicesReordered(b.indexMappings, a.indexMappings, fieldsSet);
    }
  }

  /** Equal except for the order in which sources were registered. */
  ghost predicate SameTables(t: Tables, u: Tables) {
    && t.rule == u.rule && t.metrics == u.metrics && t.indexed == u.indexed
    && forall n :: n in t.registered <==> n in u.registered
  }

  lemma {:induction false} MappedReordered(
    o: Outcome<Tables>, sets: seq<MetricSet>, a: seq<Response>, b: seq<Response>, i: nat)
    requires i <= |sets| == |a| && SameResponses(a, b)
    ensures Mapped(o, sets, a, i).Done? <==> Mapped(o, sets, b, i).Done?
    ensures Mapped(o, sets, a, i).Done? ==> SameTables(Mapped(o, sets, a, i).value, Mapped(o, sets, b, i).value)
  {
    if i > 0 {
      MappedReordered(o, sets, a, b, i - 1);
      ResponseReordered(a[i - 1], b[i - 1], sets[i - 1].fields);
      if Mapped(o, sets, a, i).Done? {
        var t, u := Mapped(o, sets, a, i - 1).value, Mapped(o, sets, b, i - 1).value;
        var names := NamesOfResponse(a[i - 1], sets[i - 1].fields).value;
        var others := NamesOfResponse(b[i - 1], sets[i - 1].fields).value;
        SameNamesSameTables(t, u, names, others, sets[i - 1]);
      }
    }
  }

  lemma SameNamesSameTables(t: Tables, u: Tables, names: seq<string>, others: seq<string>, metricSet: MetricSet)
    requires SameTables(t, u) && forall n :: n in names <==> n in others
    ensures SameTables(WithNames(t, names, metricSet.fields, metricSet.indices),
                       WithNames(u, others, metricSet.fields, metricSet.indices))
  {
    assert InfosOf(t.rule, names) == InfosOf(t.rule, others);
    assert MetadataOf(metricSet.fields, metricSet.indices, names) ==
           MetadataOf(metricSet.fields, metricSet.indices, others);
  }

  /** Two discoveries that see the same documents succeed together and leave the same infos, the same metadata
      and the same registered names; under an injective rename also the same alias table. */
  lemma DiscoveryIgnoresOrder(config: MetricServer, a: seq<Response>, b: seq<Response>)
    requires |a| == |config.metricSets| && SameResponses(a, b)
    ensures Discovered(config, a).Done? <==> Discovered(config, b).Done?
    ensures Discovered(config, a).Done? ==>
              var t, u := Discovered(config, a).value, Discovered(config, b).value;
              && SameTables(t, u)
              && (InjectiveOn(t.rule, t.registered) ==>
                    AliasesAfter(t.rule, t.registered) == AliasesAfter(u.rule, u.registered))
  {
    MappedReordered(StaticTables(config), config.metricSets, a, b, |a|);
    if Discovered(config, a).Done? {
      var t, u := Discovered(config, a).value, Discovered(config, b).value;
      if InjectiveOn(t.rule, t.registered) {
        AliasesIgnoreOrder(t.rule, t.registered, u.registered);
      }
    }
  }

  /** Decoded responses: no map, at any depth, holds a key twice. */
  ghost predicate Decoded(responses: seq<Response>) {
    forall k :: 0 <= k < |responses| && responses[k].Mappings? ==> WellFormed(Object(responses[k].indexMappings))
  }

  // ----- What the order may change: how a discovery fails -----

  predicate LacksMappings(index: Field) {
    index.value.Object? && !HasKey(index.value.fields, "mappings")
  }

  predicate Breaks(index: Field) {
    || !index.value.Object?
    || (HasKey(index.value.fields, "mappings") && Panics(PropertiesOf(Find(index.value.fields, "mappings").value)))
  }

  ghost predicate SomeLacksMappings(indexMappings: seq<Field>) {
    exists i :: 0 <= i < |indexMappings| && LacksMappings(indexMappings[i])
  }

  ghost predicate SomeBreaks(indexMappings: seq<Field>) {
    exists i :: 0 <= i < |indexMappings| && Breaks(indexMappings[i])
  }

  lemma {:induction false} IndicesEnd(indexMappings: seq<Field>, fieldsSet: seq<Fields>)
    ensures match NamesOfIndices(indexMappings, fieldsSet)
            case Done(_) => !SomeLacksMappings(indexMappings) && !SomeBreaks(indexMappings)
            case Failed(e) => e == NoMappings && SomeLacksMappings(indexMappings)
            case Panicked => SomeBreaks(indexMappings)
  {
    if indexMappings != [] {
      var k := |indexMappings| - 1;
      var before := indexMappings[..k];
      IndicesEnd(before, fieldsSet);
      IndicesSucceed(indexMappings, fieldsSet);
      assert forall i :: 0 <= i < k ==> before[i] == indexMappings[i];
    }
  }

  /** The first index to go wrong decides. */
  lemma FirstDecides(indexMappings: seq<Field>, i: nat, fieldsSet: seq<Fields>)
    requires i < |indexMappings| && !NamesOfIndex(indexMappings[i], fieldsSet).Done?
    ensures NamesOfIndices(First(indexMappings, i), fieldsSet) == NamesOfIndex(indexMappings[i], fieldsSet)
  {
    var f := First(indexMappings, i);
    assert f[..0] == [] && f[..1] == [indexMappings[i]] && f[0] == indexMappings[i];
    IndicesOneMore(f, fieldsSet, 0);
    IndicesStopEarly(f, fieldsSet, 1);
  }

  lemma EndsReordered(a: seq<Field>, b: seq<Field>)
    requires SameEntries(a, b)
    ensures SomeLacksMappings(a) ==> SomeLacksMappings(b)
    ensures SomeBreaks(a) ==> SomeBreaks(b)
  {
    forall i | 0 <= i < |a|
      ensures LacksMappings(a[i]) ==> SomeLacksMappings(b)
      ensures Breaks(a[i]) ==> SomeBreaks(b)
    {
      var j := Counterpart(a, b, i);
      IndexReordered(a[i], b[j], []);
      if a[i].value.Object? {
        SameFind(a[i].value.fields, b[j].value.fields, "mappings");
      }
    }
  }

  /** The index mappings of one response can be visited so that the first failure is a missing "mappings" entry
      exactly when some index lacks it, and so that it is a panic exactly when some index makes it panic. */
  lemma FailuresOfIndices(indexMappings: seq<Field>, fieldsSet: seq<Fields>)
    requires WellFormed(Object(indexMappings))
    ensures (exists f :: SameEntries(indexMappings, f) && NamesOfIndices(f, fieldsSet) == Failed(NoMappings)) <==>
            SomeLacksMappings(indexMappings)
    ensures (exists f :: SameEntries(indexMappings, f) && NamesOfIndices(f, fieldsSet) == Panicked) <==>
            SomeBreaks(indexMappings)
  {
    forall f | SameEntries(indexMappings, f)
      ensures NamesOfIndices(f, fieldsSet) == Failed(NoMappings) ==> SomeLacksMappings(indexMappings)
      ensures NamesOfIndices(f, fieldsSet) == Panicked ==> SomeBreaks(indexMappings)
    {
      IndicesEnd(f, fieldsSet);
      SameEntriesIsSymmetric(indexMappings, f);
      EndsReordered(f, indexMappings);
    }
    if i :| 0 <= i < |indexMappings| && LacksMappings(indexMappings[i]) {
      FirstIsReordered(indexMappings, i);
      FirstDecides(indexMappings, i, fieldsSet);
    }
    if i :| 0 <= i < |indexMappings| && Breaks(indexMappings[i]) {
      FirstIsReordered(indexMappings, i);
      FirstDecides(indexMappings, i, fieldsSet);
    }
  }

  /** Both succeed, or both go wrong in the same way. */
  predicate EndsLike<A, B>(x: Outcome<A>, y: Outcome<B>) {
    match x
    case Done(_) => y.Done?
    case Failed(e) => y.Failed? && y.error == e
    case Panicked => y.Panicked?
  }

  /** The first response that is not in order decides how a discovery fails. */
  lemma FirstBadResponseDecides(config: MetricServer, responses: seq<Response>, k: nat)
    requires |responses| == |config.metricSets| && k < |responses| && StaticTables(config).Done?
    requires (forall l :: 0 <= l < k ==> ResponseIsFine(responses[l])) && !ResponseIsFine(responses[k])
    ensures EndsLike(NamesOfResponse(responses[k], config.metricSets[k].fields), Discovered(config, responses))
  {
    BadResponseStops(StaticTables(config), config.metricSets, responses, k);
  }

  lemma BadResponseStops(o: Outcome<Tables>, sets: seq<MetricSet>, responses: seq<Response>, k: nat)
    requires k < |responses| == |sets| && o.Done?
    requires (forall l :: 0 <= l < k ==> ResponseIsFine(responses[l])) && !ResponseIsFine(responses[k])
    ensures EndsLike(NamesOfResponse(responses[k], sets[k].fields), Mapped(o, sets, responses, |sets|))
  {
    var before := Mapped(o, sets, responses, k);
    assert before.Done? by {
      MappedSucceeds(o, sets, responses, k);
    }
    assert !NamesOfResponse(responses[k], sets[k].fields).Done? by {
      FineIsDone(responses[k], sets[k].fields);
    }
    WithBadResponse(before, sets[k], responses[k]);
    MappedStopEarly(o, sets, responses, k + 1, |sets|);
  }

  lemma WithBadResponse(o: Outcome<Tables>, metricSet: MetricSet, response: Response)
    requires o.Done? && !NamesOfResponse(response, metricSet.fields).Done?
    ensures EndsLike(NamesOfResponse(response, metricSet.fields), WithResponse(o, metricSet, response))
    ensures !WithResponse(o, metricSet, response).Done?
  {
  }

  /** The first response that is not in order holds both kinds of faulty index. */
  ghost predicate Ambiguous(config: MetricServer, responses: seq<Response>, k: nat)
    requires k < |responses|
  {
    && StaticTables(config).Done?
    && (forall l :: 0 <= l < k ==> ResponseIsFine(responses[l]))
    && responses[k].Mappings?
    && SomeLacksMappings(responses[k].indexMappings) && SomeBreaks(responses[k].indexMappings)
  }

  lemma AmbiguousGoesBothWays(config: MetricServer, a: seq<Response>, k: nat)
    returns (b: seq<Response>, c: seq<Response>)
    requires |a| == |config.metricSets| && k < |a| && Decoded(a) && Ambiguous(config, a, k)
    ensures SameResponses(a, b) && Discovered(config, b) == Failed(NoMappings)
    ensures SameResponses(a, c) && Discovered(config, c) == Panicked
  {
    var e, fieldsSet := a[k].indexMappings, config.metricSets[k].fields;
    FailuresOfIndices(e, fieldsSet);
    var f :| SameEntries(e, f) && NamesOfIndices(f, fieldsSet) == Failed(NoMappings);
    var g :| SameEntries(e, g) && NamesOfIndices(g, fieldsSet) == Panicked;
    b, c := a[k := Mappings(f)], a[k := Mappings(g)];
    FineIsDone(b[k], fieldsSet);
    FineIsDone(c[k], fieldsSet);
    FirstBadResponseDecides(config, b, k);
    FirstBadResponseDecides(config, c, k);
  }

  lemma UnambiguousGoesOneWay(config: MetricServer, a: seq<Response>, b: seq<Response>)
    requires |a| == |config.metricSets| && SameResponses(a, b)
    requires forall k :: 0 <= k < |a| ==> !Ambiguous(config, a, k)
    ensures EndsLike(Discovered(config, a), Discovered(config, b))
  {
    DiscoveryIgnoresOrder(config, a, b);
    if !StaticTables(config).Done? {
      MappedStopEarly(StaticTables(config), config.metricSets, a, 0, |a|);
      MappedStopEarly(StaticTables(config), config.metricSets, b, 0, |b|);
    } else if !Discovered(config, a).Done? {
      MappedSucceeds(StaticTables(config), config.metricSets, a, |a|);
      var k := FirstBad(a);
      forall l | 0 <= l <= k
        ensures ResponseIsFine(a[l]) <==> ResponseIsFine(b[l])
      {
        ResponseReordered(a[l], b[l], config.metricSets[l].fields);
        FineIsDone(a[l], config.metricSets[l].fields);
        FineIsDone(b[l], config.metricSets[l].fields);
      }
      FirstBadResponseDecides(config, a, k);
      FirstBadResponseDecides(config, b, k);
      assert !Ambiguous(config, a, k);
      if a[k] != b[k] {
        IndicesEnd(a[k].indexMappings, config.metricSets[k].fields);
        IndicesEnd(b[k].indexMappings, config.metricSets[k].fields);
        SameEntriesIsSymmetric(a[k].indexMappings, b[k].indexMappings);
        EndsReordered(b[k].indexMappings, a[k].indexMappings);
      }
    }
  }

  lemma FirstBad(responses: seq<Response>) returns (k: nat)
    requires exists i :: 0 <= i < |responses| && !ResponseIsFine(responses[i])
    ensures k < |responses| && !ResponseIsFine(responses[k])
    ensures forall l :: 0 <= l < k ==> ResponseIsFine(responses[l])
  {
    k := 0;
    while ResponseIsFine(responses[k])
      invariant k < |responses| && forall l :: 0 <= l < k ==> ResponseIsFine(responses[l])
      decreases |responses| - k
    {
      k := k + 1;
    }
  }

  /** How a discovery ends depends on the order of map iteration exactly when the first response that is not in
      order holds both an index without "mappings" and an index that makes it panic; then either may happen. */
  lemma FailureIsAmbiguousExactly(config: MetricServer, a: seq<Response>)
    requires |a| == |config.metricSets| && Decoded(a)
    ensures (forall b :: SameResponses(a, b) ==> EndsLike(Discovered(config, a), Discovered(config, b))) <==>
            forall k :: 0 <= k < |a| ==> !Ambiguous(config, a, k)
    ensures (exists b, c :: SameResponses(a, b) && SameResponses(a, c) &&
                            Discovered(config, b) == Failed(NoMappings) && Discovered(config, c) == Panicked) <==>
            exists k :: 0 <= k < |a| && Ambiguous(config, a, k)
  {
    if k :| 0 <= k < |a| && Ambiguous(config, a, k) {
      var b, c := AmbiguousGoesBothWays(config, a, k);
    } else {
      forall b | SameResponses(a, b)
        ensures EndsLike(Discovered(config, a), Discovered(config, b))
      {
        UnambiguousGoesOneWay(config, a, b);
      }
    }
  }

  // ----- What the order may change: what an alias resolves to -----

  function NamesIn(sets: seq<MetricSet>, responses: seq<Response>, k: nat): seq<string>
    requires k < |sets| == |responses|
  {
    var names := NamesOfResponse(responses[k], sets[k].fields);
    if names.Done? then names.value else []
  }

  /** The last of the first `i` metric sets whose mapping yields a name exposed under the alias. */
  function LastExposing(rule: Option<Rule>, sets: seq<MetricSet>, responses: seq<Response>, i: nat, alias: string)
    : (k: Option<nat>)
    requires i <= |sets| == |responses|
    ensures match k
            case None => forall l, n :: 0 <= l < i && YieldedBy(sets, responses, l, n) ==> Renamed(rule, n) != alias
            case Some(k) =>
              && k < i && (exists n :: YieldedBy(sets, responses, k, n) && Renamed(rule, n) == alias)
              && forall l, n :: k < l < i && YieldedBy(sets, responses, l, n) ==> Renamed(rule, n) != alias
  {
    if i == 0 then None
    else
      var names := NamesIn(sets, responses, i - 1);
      LatestSourceIsRegistered(rule, names, alias);
      assert forall n :: n in names <==> YieldedBy(sets, responses, i - 1, n);
      if LatestSource(rule, names, alias).Some? then Some(i - 1)
      else LastExposing(rule, sets, responses, i - 1, alias)
  }

  /** The last metric set that yields a name exposed under the alias yields only one such name. */
  ghost predicate Settled(rule: Option<Rule>, sets: seq<MetricSet>, responses: seq<Response>, alias: string)
    requires |sets| == |responses|
  {
    match LastExposing(rule, sets, responses, |sets|, alias)
    case None => true
    case Some(k) =>
      forall n, m ::
        && YieldedBy(sets, responses, k, n) && Renamed(rule, n) == alias
        && YieldedBy(sets, responses, k, m) && Renamed(rule, m) == alias
        ==> n == m
  }

  /** What stands for an alias is what the last metric set that exposes it registered last. */
  lemma {:induction false} LastSetAnswers(
    o: Outcome<Tables>, sets: seq<MetricSet>, responses: seq<Response>, i: nat, alias: string)
    requires i <= |sets| == |responses| && o.Done? && o.value.registered == []
    requires Mapped(o, sets, responses, i).Done?
    ensures Mapped(o, sets, responses, i).value.rule == o.value.rule
    ensures LatestSource(o.value.rule, Mapped(o, sets, responses, i).value.registered, alias) ==
            match LastExposing(o.value.rule, sets, responses, i, alias)
            case None => None
            case Some(k) => LatestSource(o.value.rule, NamesIn(sets, responses, k), alias)
  {
    if i > 0 {
      LastSetAnswers(o, sets, responses, i - 1, alias);
      LatestSourceOfConcat(o.value.rule, Mapped(o, sets, responses, i - 1).value.registered,
                           NamesIn(sets, responses, i - 1), alias);
    }
  }

  lemma DiscoveryAnswers(config: MetricServer, responses: seq<Response>, alias: string)
    requires |responses| == |config.metricSets| && Discovered(config, responses).Done?
    ensures var t := Discovered(config, responses).value;
            && t.rule == RuleOf(config.rename)
            && LatestSource(t.rule, t.registered, alias) ==
               match LastExposing(t.rule, config.metricSets, responses, |responses|, alias)
               case None => None
               case Some(k) => LatestSource(t.rule, NamesIn(config.metricSets, responses, k), alias)
  {
    DiscoverySucceeds(config, responses);
    var start := Done(EmptyTables(RuleOf(config.rename)));
    StaticsSucceed(start, config.metricSets, |config.metricSets|);
    StaticsAreCoherent(start, config.metricSets, |config.metricSets|);
    LastSetAnswers(StaticTables(config), config.metricSets, responses, |responses|, alias);
  }

  lemma YieldsIgnoreOrder(sets: seq<MetricSet>, a: seq<Response>, b: seq<Response>, k: nat, name: string)
    requires k < |sets| == |a| && SameResponses(a, b)
    ensures YieldedBy(sets, a, k, name) <==> YieldedBy(sets, b, k, name)
    ensures name in NamesIn(sets, a, k) <==> YieldedBy(sets, a, k, name)
  {
    ResponseReordered(a[k], b[k], sets[k].fields);
  }

  lemma {:induction false} LastExposingIgnoresOrder(
    rule: Option<Rule>, sets: seq<MetricSet>, a: seq<Response>, b: seq<Response>, i: nat, alias: string)
    requires i <= |sets| == |a| && SameResponses(a, b)
    ensures LastExposing(rule, sets, a, i, alias) == LastExposing(rule, sets, b, i, alias)
  {
    if i > 0 {
      LastExposingIgnoresOrder(rule, sets, a, b, i - 1, alias);
      ExposesIgnoresOrder(rule, sets, a, b, i - 1, alias);
    }
  }

  lemma ExposesIgnoresOrder(
    rule: Option<Rule>, sets: seq<MetricSet>, a: seq<Response>, b: seq<Response>, k: nat, alias: string)
    requires k < |sets| == |a| && SameResponses(a, b)
    ensures LatestSource(rule, NamesIn(sets, a, k), alias).Some? <==>
            LatestSource(rule, NamesIn(sets, b, k), alias).Some?
  {
    LatestSourceIsRegistered(rule, NamesIn(sets, a, k), alias);
    LatestSourceIsRegistered(rule, NamesIn(sets, b, k), alias);
    forall n
      ensures n in NamesIn(sets, a, k) <==> n in NamesIn(sets, b, k)
    {
      YieldsIgnoreOrder(sets, a, b, k, n);
    }
  }

  lemma SettledKeepsAnswer(config: MetricServer, a: seq<Response>, b: seq<Response>, alias: string)
    requires |a| == |config.metricSets| && SameResponses(a, b)
    requires Discovered(config, a).Done? && Discovered(config, b).Done?
    requires Settled(RuleOf(config.rename), config.metricSets, a, alias)
    ensures var t, u := Discovered(config, a).value, Discovered(config, b).value;
            LatestSource(t.rule, t.registered, alias) == LatestSource(u.rule, u.registered, alias)
  {
    var rule, sets := RuleOf(config.rename), config.metricSets;
    DiscoveryAnswers(config, a, alias);
    DiscoveryAnswers(config, b, alias);
    LastExposingIgnoresOrder(rule, sets, a, b, |sets|, alias);
    match LastExposing(rule, sets, a, |sets|, alias)
    case None =>
    case Some(k) =>
      var n :| YieldedBy(sets, a, k, n) && Renamed(rule, n) == alias;
      forall m
        ensures m in NamesIn(sets, a, k) <==> YieldedBy(sets, a, k, m)
        ensures m in NamesIn(sets, b, k) <==> YieldedBy(sets, a, k, m)
      {
        YieldsIgnoreOrder(sets, a, b, k, m);
      }
      LatestSourceIsRegistered(rule, NamesIn(sets, a, k), alias);
      LatestSourceIsRegistered(rule, NamesIn(sets, b, k), alias);
  }

  // A mapping can be visited so that any one of the names it yields is registered last.

  predicate EndsWith(names: seq<string>, name: string) {
    names != [] && names[|names| - 1] == name
  }

  lemma {:induction false} WalkEndsWith(root: string, d: seq<Field>, fieldsSet: seq<Fields>, name: string)
    returns (e: seq<Field>)
    requires WellFormed(Object(d)) && name in Names(root, d, fieldsSet)
    ensures SameEntries(d, e) && EndsWith(Names(root, e, fieldsSet), name)
    decreases d
  {
    NamedSomewhere(root, d, fieldsSet, name);
    var i :| 0 <= i < |d| && name in NamesAt(root, d[i], fieldsSet);
    var key, child, value := d[i].key, d[i].value.fields, d[i].value;
    if key == "properties" || HasKey(child, "properties") {
      var below := WalkEndsWith(if key == "properties" then root else Extend(root, key), child, fieldsSet, name);
      SameFind(child, below, "properties");
      value := Object(below);
    } else {
      ReorderedIsReflexive(value);
    }
    e := Last(d, i, value);
    LastIsReordered(d, i, value);
    NamesAppend(root, d[..i] + d[i + 1..], [Field(key, value)], fieldsSet);
    assert Names(root, [Field(key, value)], fieldsSet) == NamesAt(root, Field(key, value), fieldsSet);
  }

  /** Replacing the value of one key by a reordering of it. */
  lemma WithValue(fields: seq<Field>, key: string, value: Json) returns (changed: seq<Field>)
    requires WellFormed(Object(fields)) && HasKey(fields, key) && Reordered(Find(fields, key).value, value)
    ensures SameEntries(fields, changed) && Find(changed, key) == Some(value)
  {
    FindGives(fields, key);
    var i :| 0 <= i < |fields| && fields[i] == Field(key, Find(fields, key).value);
    LastIsReordered(fields, i, value);
    changed := Last(fields, i, value);
  }

  lemma IndexEndsWith(index: Field, fieldsSet: seq<Fields>, name: string) returns (value: Json)
    requires WellFormed(index.value)
    requires NamesOfIndex(index, fieldsSet).Done? && name in NamesOfIndex(index, fieldsSet).value
    ensures Reordered(index.value, value)
    ensures var names := NamesOfIndex(Field(index.key, value), fieldsSet); names.Done? && EndsWith(names.value, name)
  {
    var fields := index.value.fields;
    var mapping := Find(fields, "mappings").value;
    FindIsWellFormed(fields, "mappings");
    FindIsWellFormed(mapping.fields, "properties");
    var d := WalkEndsWith("", PropertiesOf(mapping), fieldsSet, name);
    WalkIgnoresOrder("", PropertiesOf(mapping), d, fieldsSet);
    var table := WithValue(mapping.fields, "properties", Object(d));
    var top := WithValue(fields, "mappings", Object(table));
    value := Object(top);
  }

  lemma FindIsWellFormed(fields: seq<Field>, key: string)
    requires WellFormed(Object(fields)) && HasKey(fields, key)
    ensures WellFormed(Find(fields, key).value)
  {
    FindGives(fields, key);
  }

  lemma IndicesEndWith(indexMappings: seq<Field>, fieldsSet: seq<Fields>, name: string) returns (f: seq<Field>)
    requires WellFormed(Object(indexMappings)) && NamesOfIndices(indexMappings, fieldsSet).Done?
    requires name in NamesOfIndices(indexMappings, fieldsSet).value
    ensures SameEntries(indexMappings, f)
    ensures NamesOfIndices(f, fieldsSet).Done? && EndsWith(NamesOfIndices(f, fieldsSet).value, name)
  {
    YieldedByIndices(indexMappings, fieldsSet, name);
    var i :| 0 <= i < |indexMappings| && name in NamesOfIndex(indexMappings[i], fieldsSet).value;
    var value := IndexEndsWith(indexMappings[i], fieldsSet, name);
    f := Last(indexMappings, i, value);
    LastIsReordered(indexMappings, i, value);
    IndicesReordered(indexMappings, f, fieldsSet);
    LastIndexEnds(indexMappings[..i] + indexMappings[i + 1..], Field(indexMappings[i].key, value), fieldsSet, name);
  }

  lemma LastIndexEnds(indexMappings: seq<Field>, last: Field, fieldsSet: seq<Fields>, name: string)
    requires NamesOfIndices(indexMappings + [last], fieldsSet).Done?
    requires NamesOfIndex(last, fieldsSet).Done? && EndsWith(NamesOfIndex(last, fieldsSet).value, name)
    ensures EndsWith(NamesOfIndices(indexMappings + [last], fieldsSet).value, name)
  {
    assert (indexMappings + [last])[..|indexMappings|] == indexMappings;
  }

  /** Any name that the last set exposing an alias yields under it may become the answer. */
  lemma AnswerCanBe(config: MetricServer, a: seq<Response>, alias: string, k: nat, name: string)
    returns (b: seq<Response>)
    requires |a| == |config.metricSets| && Decoded(a) && Discovered(config, a).Done?
    requires LastExposing(RuleOf(config.rename), config.metricSets, a, |a|, alias) == Some(k)
    requires YieldedBy(config.metricSets, a, k, name) && Renamed(RuleOf(config.rename), name) == alias
    ensures SameResponses(a, b) && Discovered(config, b).Done?
    ensures var u := Discovered(config, b).value; LatestSource(u.rule, u.registered, alias) == Some(name)
  {
    var f := IndicesEndWith(a[k].indexMappings, config.metricSets[k].fields, name);
    b := a[k := Mappings(f)];
    DiscoveryIgnoresOrder(config, a, b);
    LastExposingIgnoresOrder(RuleOf(config.rename), config.metricSets, a, b, |a|, alias);
    DiscoveryAnswers(config, b, alias);
    assert EndsWith(NamesIn(config.metricSets, b, k), name);
  }

  lemma UnsettledChangesAnswer(config: MetricServer, a: seq<Response>, alias: string) returns (b: seq<Response>)
    requires |a| == |config.metricSets| && Decoded(a) && Discovered(config, a).Done?
    requires !Settled(RuleOf(config.rename), config.metricSets, a, alias)
    ensures SameResponses(a, b) && Discovered(config, b).Done?
    ensures var t, u := Discovered(config, a).value, Discovered(config, b).value;
            var p, q := LatestSource(t.rule, t.registered, alias), LatestSource(u.rule, u.registered, alias);
            p.Some? && q.Some? && p != q
  {
    var rule, sets := RuleOf(config.rename), config.metricSets;
    var k := LastExposing(rule, sets, a, |a|, alias).value;
    var n, m :| YieldedBy(sets, a, k, n) && YieldedBy(sets, a, k, m) &&
      Renamed(rule, n) == alias && Renamed(rule, m) == alias && n != m;
    DiscoveryAnswers(config, a, alias);
    LatestSourceIsRegistered(rule, NamesIn(sets, a, k), alias);
    var first := LatestSource(rule, NamesIn(sets, a, k), alias);
    b := AnswerCanBe(config, a, alias, k, if first == Some(n) then m else n);
  }

  /** What an alias resolves to is independent of the order of map iteration exactly when there is no rename, or
      the last metric set that yields a name exposed under the alias yields only one such name. */
  lemma LookupIgnoresOrderExactly(config: MetricServer, a: seq<Response>, alias: string)
    requires |a| == |config.metricSets| && Decoded(a) && Discovered(config, a).Done?
    ensures (forall b :: SameResponses(a, b) && Discovered(config, b).Done? ==>
               Lookup(Discovered(config, b).value, alias) == Lookup(Discovered(config, a).value, alias)) <==>
            config.rename.NoRename? || Settled(RuleOf(config.rename), config.metricSets, a, alias)
  {
    var t := Discovered(config, a).value;
    DiscoveryIsCoherent(config, a);
    DiscoverySucceeds(config, a);
    if config.rename.NoRename? || Settled(t.rule, config.metricSets, a, alias) {
      forall b | SameResponses(a, b) && Discovered(config, b).Done?
        ensures Lookup(Discovered(config, b).value, alias) == Lookup(t, alias)
      {
        SameLookup(config, a, b, alias);
      }
    } else {
      var b := UnsettledChangesAnswer(config, a, alias);
      var u := Discovered(config, b).value;
      DiscoveryIsCoherent(config, b);
      TableHoldsLatestSources(t.rule, t.registered, alias);
      TableHoldsLatestSources(u.rule, u.registered, alias);
      LatestSourceIsRegistered(t.rule, t.registered, alias);
      LatestSourceIsRegistered(u.rule, u.registered, alias);
      assert Lookup(u, alias) != Lookup(t, alias);
    }
  }

  lemma SameLookup(config: MetricServer, a: seq<Response>, b: seq<Response>, alias: string)
    requires |a| == |config.metricSets| && SameResponses(a, b)
    requires Discovered(config, a).Done? && Discovered(config, b).Done?
    requires config.rename.NoRename? || Settled(RuleOf(config.rename), config.metricSets, a, alias)
    ensures Lookup(Discovered(config, a).value, alias) == Lookup(Discovered(config, b).value, alias)
  {
    var t, u := Discovered(config, a).value, Discovered(config, b).value;
    DiscoveryIgnoresOrder(config, a, b);
    DiscoveryAnswers(config, a, alias);
    if t.rule.Some? {
      SettledKeepsAnswer(config, a, b, alias);
      TableHoldsLatestSources(t.rule, t.registered, alias);
      TableHoldsLatestSources(u.rule, u.registered, alias);
    }
  }

  /** The whole alias table is independent of the order exactly when every alias is settled. */
  lemma AliasesIgnoreOrderExactly(config: MetricServer, a: seq<Response>)
    requires |a| == |config.metricSets| && Decoded(a) && Discovered(config, a).Done? && config.rename.RenameBy?
    ensures (forall b :: SameResponses(a, b) && Discovered(config, b).Done? ==>
               AliasesAfter(RuleOf(config.rename), Discovered(config, b).value.registered) ==
               AliasesAfter(RuleOf(config.rename), Discovered(config, a).value.registered)) <==>
            forall alias :: Settled(RuleOf(config.rename), config.metricSets, a, alias)
  {
    var rule, t := RuleOf(config.rename), Discovered(config, a).value;
    DiscoveryAnswers(config, a, "");
    if alias :| !Settled(rule, config.metricSets, a, alias) {
      var b := UnsettledChangesAnswer(config, a, alias);
      DiscoveryAnswers(config, b, "");
      TableHoldsLatestSources(rule, t.registered, alias);
      TableHoldsLatestSources(rule, Discovered(config, b).value.registered, alias);
    } else {
      forall b | SameResponses(a, b) && Discovered(config, b).Done?
        ensures AliasesAfter(rule, Discovered(config, b).value.registered) == AliasesAfter(rule, t.registered)
      {
        DiscoveryAnswers(config, b, "");
        forall alias
          ensures LatestSource(rule, t.registered, alias) ==
                  LatestSource(rule, Discovered(config, b).value.registered, alias)
        {
          SettledKeepsAnswer(config, a, b, alias);
        }
        SameAnswersSameTable(rule, t.registered, Discovered(config, b).value.registered);
      }
    }
  }

  // ----- Both are real -----

  lemma {:induction false} NoStatics(o: Outcome<Tables>, metricSet: MetricSet, j: nat)
    requires j <= |metricSet.fields| && forall f :: f in metricSet.fields ==> f.name == ""
    ensures StaticsOfSet(o, metricSet, j) == o
  {
    if j > 0 {
      NoStatics(o, metricSet, j - 1);
      assert metricSet.fields[j - 1] in metricSet.fields;
    }
  }

  lemma OneSetDiscovered(config: MetricServer, response: Response)
    requires |config.metricSets| == 1 && !config.rename.InvalidRename?
    requires forall f :: f in config.metricSets[0].fields ==> f.name == ""
    ensures Discovered(config, [response]) ==
            WithResponse(Done(EmptyTables(RuleOf(config.rename))), config.metricSets[0], response)
  {
    var start, sets := Done(EmptyTables(RuleOf(config.rename))), config.metricSets;
    NoStatics(start, sets[0], |sets[0].fields|);
    assert Statics(start, sets, 0) == start && Statics(start, sets, 1) == start;
    assert Mapped(start, sets, [response], 0) == start;
  }

  /** A response with one index, whose mapping has these properties. */
  function OneIndex(d: seq<Field>): Response {
    Mappings([Field("index", Object([Field("mappings", Object([Field("properties", Object(d))]))]))])
  }

  /** A server with one metric set, all of whose fields are exposed. */
  function OneSetServer(rename: Rename): MetricServer {
    MetricServer("es", Elasticsearch, [Custom],
                 [MetricSet([], [Fields("", [s => true], Search("", true, true, true))])], rename, 0)
  }

  lemma AllFieldsMatch(rename: Rename, name: string)
    ensures FindMetadata(OneSetServer(rename).metricSets[0].fields, name).Some?
  {
    var fields := OneSetServer(rename).metricSets[0].fields[0];
    assert fields.patterns[0](name);
  }

  /** Numeric fields of these names. */
  function Longs(names: seq<string>): seq<Field> {
    if names == [] then [] else [Long(names[0])] + Longs(names[1..])
  }

  function Long(name: string): Field {
    Field(name, Object([Field("type", Str("long"))]))
  }

  lemma {:induction false} LongsAreRecorded(names: seq<string>, fieldsSet: seq<Fields>)
    requires forall n :: n in names ==> n != "*" && n != "properties" && FindMetadata(fieldsSet, n).Some?
    ensures !Panics(Longs(names)) && Names("", Longs(names), fieldsSet) == names
  {
    if names != [] {
      assert names[0] in names && forall n :: n in names[1..] ==> n in names;
      LongsAreRecorded(names[1..], fieldsSet);
      assert Longs(names)[1..] == Longs(names[1..]);
      assert NamesAt("", Long(names[0]), fieldsSet) == [names[0]];
    }
  }

  function LongTables(rename: Rename, names: seq<string>): Tables {
    WithNames(EmptyTables(RuleOf(rename)), names, OneSetServer(rename).metricSets[0].fields, [])
  }

  /** What such a server finds in one index with these numeric fields. */
  lemma LongsDiscovered(rename: Rename, names: seq<string>)
    requires !rename.InvalidRename? && forall n :: n in names ==> n != "*" && n != "properties"
    ensures Discovered(OneSetServer(rename), [OneIndex(Longs(names))]) == Done(LongTables(rename, names))
  {
    var config := OneSetServer(rename);
    var fieldsSet, index := config.metricSets[0].fields, OneIndex(Longs(names)).indexMappings;
    forall n | n in names
      ensures FindMetadata(fieldsSet, n).Some?
    {
      AllFieldsMatch(rename, n);
    }
    LongsAreRecorded(names, fieldsSet);
    OneSetDiscovered(config, OneIndex(Longs(names)));
    assert index[..0] == [];
    assert NamesOfIndices([], fieldsSet) == Done([]);
    assert NamesOfIndex(index[0], fieldsSet) == Done(names);
    assert NamesOfIndices(index, fieldsSet) == Done([] + names) && [] + names == names;
  }

  /** An index without mappings beside one that is not even an object: the discovery fails or panics, whichever
      is visited first. */
  lemma FailureDependsOnOrder()
    ensures var missing, broken := Field("a", Object([])), Field("b", Str(""));
            var config, a, b := OneSetServer(NoRename), [Mappings([missing, broken])], [Mappings([broken, missing])];
            SameResponses(a, b) && Discovered(config, a) == Failed(NoMappings) && Discovered(config, b) == Panicked
  {
    var missing, broken := Field("a", Object([])), Field("b", Str(""));
    var config := OneSetServer(NoRename);
    var e, fieldsSet := [missing, broken], config.metricSets[0].fields;
    assert First(e, 0) == e && First(e, 1) == [broken, missing];
    FirstIsReordered(e, 1);
    FirstDecides(e, 0, fieldsSet);
    FirstDecides(e, 1, fieldsSet);
    OneSetDiscovered(config, Mappings(e));
    OneSetDiscovered(config, Mappings([broken, missing]));
  }

  lemma OneEntryReordered(key: string, v: Json, w: Json)
    requires Reordered(v, w)
    ensures Reordered(Object([Field(key, v)]), Object([Field(key, w)]))
  {
    var d, e := [Field(key, v)], [Field(key, w)];
    assert Find(d, key) == Some(v) && Find(e, key) == Some(w);
    forall k | HasKey(e, k)
      ensures HasKey(d, k)
    {
      FindGives(e, k);
    }
  }

  lemma OneIndexReordered(d: seq<Field>, e: seq<Field>)
    requires SameEntries(d, e)
    ensures SameResponse(OneIndex(d), OneIndex(e))
  {
    OneEntryReordered("properties", Object(d), Object(e));
    OneEntryReordered("mappings", Object([Field("properties", Object(d))]), Object([Field("properties", Object(e))]));
    OneEntryReordered("index", OneIndex(d).indexMappings[0].value, OneIndex(e).indexMappings[0].value);
  }

  function AllToX(): Rename {
    RenameBy(Rule(s => true, s => "x"))
  }

  /** Two numeric fields exposed under one alias: it resolves to whichever is visited last. */
  lemma AliasDependsOnOrder()
    ensures var config := OneSetServer(AllToX());
            var a, b := [OneIndex(Longs(["a", "b"]))], [OneIndex(Longs(["b", "a"]))];
            && SameResponses(a, b) && Discovered(config, a).Done? && Discovered(config, b).Done?
            && (var r := Lookup(Discovered(config, a).value, "x"); r.Ok? && r.value.0 == "b")
            && (var r := Lookup(Discovered(config, b).value, "x"); r.Ok? && r.value.0 == "a")
  {
    LongsSwapped("a", "b");
    OneIndexReordered(Longs(["a", "b"]), Longs(["b", "a"]));
    LastLongAnswers(["a", "b"]);
    LastLongAnswers(["b", "a"]);
  }

  lemma LongsSwapped(x: string, y: string)
    requires x != y
    ensures SameEntries(Longs([x, y]), Longs([y, x]))
  {
    var d := [Long(x), Long(y)];
    assert Longs([x, y]) == d && Longs([y, x]) == First(d, 1) by {
      assert [x, y][1..] == [y] && [y, x][1..] == [x] && Longs([]) == [];
    }
    FirstIsReordered(d, 1);
  }

  lemma LastLongAnswers(names: seq<string>)
    requires names != [] && forall n :: n in names ==> n != "*" && n != "properties"
    ensures var d := Discovered(OneSetServer(AllToX()), [OneIndex(Longs(names))]);
            d.Done? && Lookup(d.value, "x").Ok? && Lookup(d.value, "x").value.0 == names[|names| - 1]
  {
    LongsDiscovered(AllToX(), names);
    LongsAnswer(names);
  }

  lemma LongsAnswer(names: seq<string>)
    requires names != []
    ensures var t := LongTables(AllToX(), names); Lookup(t, "x").Ok? && Lookup(t, "x").value.0 == names[|names| - 1]
  {
    LongsAreCoherent(AllToX(), names);
    LastAnswers(LongTables(AllToX(), names));
  }

  lemma LongsAreCoherent(rename: Rename, names: seq<string>)
    ensures Coherent(LongTables(rename, names)) && LongTables(rename, names).registered == names
  {
    var metricSet := OneSetServer(rename).metricSets[0];
    forall n | n in names
      ensures FindMetadata(metricSet.fields, n).Some?
    {
      AllFieldsMatch(rename, n);
    }
    WithNamesIsCoherent(EmptyTables(RuleOf(rename)), names, metricSet.fields, metricSet.indices);
  }

  lemma LastAnswers(t: Tables)
    requires Coherent(t) && t.rule == RuleOf(AllToX()) && t.registered != []
    ensures Lookup(t, "x").Ok? && Lookup(t, "x").value.0 == t.registered[|t.registered| - 1]
  {
    var last := t.registered[|t.registered| - 1];
    assert last in t.registered && Renamed(t.rule, last) == "x";
    LookupAnswersMappedFields(t, last);
  }
}
