/** The configuration of the metric servers (pkg/config/config.go, pkg/config/metric_types.go). A compiled
    regular expression is the predicate of the strings it matches. */
module Config {
  import opened Wrappers
  import opened Metrics

  type Pattern = string -> bool

  /** A custom search of a static field. The flags say whether its template and its two jq queries parse. */
  datatype Search = Search(body: string, templateParses: bool, metricPathParses: bool, timestampPathParses: bool)

  datatype Fields = Fields(name: string, patterns: seq<Pattern>, search: Search)

  datatype MetricSet = MetricSet(indices: seq<string>, fields: seq<Fields>)

  /** The rename directive: a metric whose name matches is exposed as `expand` of its name. */
  datatype Rule = Rule(matches: Pattern, expand: string -> string)

  datatype Rename = NoRename | InvalidRename | RenameBy(rule: Rule)

  datatype ServerType = Elasticsearch | CustomApi

  datatype MetricServer = MetricServer(
    name: string,
    serverType: ServerType,
    metricTypes: seq<MetricType>,
    metricSets: seq<MetricSet>,
    rename: Rename,
    priority: int)
  {
    /** A server without metric types serves all of them. */
    predicate HasType(t: MetricType) {
      metricTypes == [] || t in metricTypes
    }
  }

  /** Said of its metric types: none means all, otherwise those it lists. */
  lemma TypesServed(server: MetricServer, t: MetricType)
    ensures server.metricTypes == [] ==> server.HasType(t)
    ensures server.metricTypes != [] ==> (server.HasType(t) <==> t in server.metricTypes)
  {
  }

  predicate MatchesSome(fields: Fields, name: string) {
    exists i :: 0 <= i < |fields.patterns| && fields.patterns[i](name)
  }

  /** The first group of fields one of whose patterns matches. */
  function FindMetadata(fieldsSet: seq<Fields>, name: string): Option<Fields> {
    if fieldsSet == [] then None
    else if MatchesSome(fieldsSet[0], name) then Some(fieldsSet[0])
    else FindMetadata(fieldsSet[1..], name)
  }

  lemma {:induction false} FindMetadataIsFirstMatch(fieldsSet: seq<Fields>, name: string)
    ensures match FindMetadata(fieldsSet, name)
            case None => forall i :: 0 <= i < |fieldsSet| ==> !MatchesSome(fieldsSet[i], name)
            case Some(f) =>
              exists i :: 0 <= i < |fieldsSet| && fieldsSet[i] == f && MatchesSome(f, name) &&
                          forall j :: 0 <= j < i ==> !MatchesSome(fieldsSet[j], name)
    ensures FindMetadata(fieldsSet, name).Some? <==>
            exists i, k :: 0 <= i < |fieldsSet| && 0 <= k < |fieldsSet[i].patterns| && fieldsSet[i].patterns[k](name)
  {
    if fieldsSet != [] {
      if MatchesSome(fieldsSet[0], name) {
        assert fieldsSet[0] == FindMetadata(fieldsSet, name).value;
      } else {
        FindMetadataIsFirstMatch(fieldsSet[1..], name);
        if FindMetadata(fieldsSet, name).Some? {
          var f := FindMetadata(fieldsSet, name).value;
          var i :| 0 <= i < |fieldsSet[1..]| && fieldsSet[1..][i] == f &&
            forall j :: 0 <= j < i ==> !MatchesSome(fieldsSet[1..][j], name);
          forall j | 0 <= j < i + 1
            ensures !MatchesSome(fieldsSet[j], name)
          {
            assert j > 0 ==> fieldsSet[j] == fieldsSet[1..][j - 1];
          }
          assert fieldsSet[i + 1] == f;
        }
      }
    }
  }

  /** The loop of From: the later a server stands in the configuration, the higher its priority. No two
      servers share one, and nothing else changes. */
  method AssignPriorities(servers: array<MetricServer>)
    modifies servers
    ensures forall i :: 0 <= i < servers.Length ==> servers[i] == old(servers[i]).(priority := i)
    ensures PrioritiesByPosition(servers[..])
  {
    for i := 0 to servers.Length
      invariant forall j :: 0 <= j < i ==> servers[j] == old(servers[j]).(priority := j)
      invariant forall j :: i <= j < servers.Length ==> servers[j] == old(servers[j])
    {
      servers[i] := servers[i].(priority := i);
    }
  }

  ghost predicate PrioritiesByPosition(servers: seq<MetricServer>) {
    forall i :: 0 <= i < |servers| ==> servers[i].priority == i
  }
}
