/** The table of metric aliases (pkg/config/name.go). The regular expression and its template are abstract:
    a predicate and a total function on names. */
module Naming {
  import opened Wrappers
  import opened Config

  /** The name under which a metric is exposed; without a rule, its own. */
  function Renamed(rule: Option<Rule>, source: string): string {
    match rule
    case None => source
    case Some(r) => if r.matches(source) then r.expand(source) else source
  }

  /** The alias table after registering these sources in this order; without a rule nothing is stored. */
  function AliasesAfter(rule: Option<Rule>, registered: seq<string>): map<string, string> {
    if rule == None || registered == [] then map[]
    else
      var last := registered[|registered| - 1];
      AliasesAfter(rule, registered[..|registered| - 1])[Renamed(rule, last) := last]
  }

  function Resolve(rule: Option<Rule>, aliases: map<string, string>, alias: string): Option<string> {
    if rule.None? then Some(alias)
    else if alias in aliases then Some(aliases[alias])
    else None
  }

  /** Searching the registrations backwards for the alias: what the table should answer. */
  function LatestSource(rule: Option<Rule>, registered: seq<string>, alias: string): Option<string> {
    if registered == [] then None
    else
      var last := registered[|registered| - 1];
      if Renamed(rule, last) == alias then Some(last)
      else LatestSource(rule, registered[..|registered| - 1], alias)
  }

  ghost predicate InjectiveOn(rule: Option<Rule>, sources: seq<string>) {
    forall s, t :: s in sources && t in sources && Renamed(rule, s) == Renamed(rule, t) ==> s == t
  }

  class Namer {
    const rule: Option<Rule>
    var aliases: map<string, string>
    ghost var registered: seq<string>  // every source registered so far, in order

    ghost predicate Valid()
      reads this
    {
      aliases == AliasesAfter(rule, registered)
    }

    constructor (rule: Option<Rule>)
      ensures Valid() && this.rule == rule && registered == []
    {
      this.rule := rule;
      aliases := map[];
      registered := [];
    }

    method Register(source: string) returns (alias: string)
      requires Valid()
      modifies this
      ensures Valid() && registered == old(registered) + [source]
      ensures alias == Renamed(rule, source)
      ensures rule.Some? && rule.value.matches(source) ==> alias == rule.value.expand(source)
      ensures rule.None? || !rule.value.matches(source) ==> alias == source
    {
      alias := source;
      if rule.Some? {
        if rule.value.matches(source) {
          alias := rule.value.expand(source);
        }
        aliases := aliases[alias := source];
      }
      RegisteredOneMore(rule, registered, source);
      registered := registered + [source];
    }

    method Get(alias: string) returns (source: Option<string>)
      requires Valid()
      ensures source == Resolve(rule, AliasesAfter(rule, registered), alias)
      ensures rule.Some? ==> source == LatestSource(rule, registered, alias)
    {
      if rule.None? {
        return Some(alias);
      }
      TableHoldsLatestSources(rule, registered, alias);
      source := if alias in aliases then Some(aliases[alias]) else None;
    }
  }

  /** NewNamer fails exactly when the rename directive is not a valid regular expression. */
  method NewNamer(rename: Rename) returns (namer: Namer?)
    ensures namer == null <==> rename.InvalidRename?
    ensures namer != null ==> fresh(namer) && namer.Valid() && namer.registered == [] && namer.rule == RuleOf(rename)
  {
    match rename
    case NoRename => namer := new Namer(None);
    case InvalidRename => namer := null;
    case RenameBy(rule) => namer := new Namer(Some(rule));
  }

  function RuleOf(rename: Rename): Option<Rule> {
    if rename.RenameBy? then Some(rename.rule) else None
  }

  // ----- Laws of the alias table -----

  lemma RegisteredOneMore(rule: Option<Rule>, registered: seq<string>, source: string)
    ensures AliasesAfter(rule, registered + [source]) ==
            if rule.None? then map[] else AliasesAfter(rule, registered)[Renamed(rule, source) := source]
  {
  }

  /** The table answers every alias with the last source registered under it. */
  lemma {:induction false} TableHoldsLatestSources(rule: Option<Rule>, registered: seq<string>, alias: string)
    requires rule.Some?
    ensures Resolve(rule, AliasesAfter(rule, registered), alias) == LatestSource(rule, registered, alias)
  {
    if registered != [] {
      TableHoldsLatestSources(rule, registered[..|registered| - 1], alias);
    }
  }

  /** An answer was registered, and its alias is the one asked for; there is one exactly for the aliases of
      registered sources. */
  lemma {:induction false} LatestSourceIsRegistered(rule: Option<Rule>, registered: seq<string>, alias: string)
    ensures LatestSource(rule, registered, alias).Some? ==>
              var s := LatestSource(rule, registered, alias).value;
              s in registered && Renamed(rule, s) == alias
    ensures LatestSource(rule, registered, alias).Some? <==> exists s :: s in registered && Renamed(rule, s) == alias
  {
    if registered != [] {
      var before := registered[..|registered| - 1];
      LatestSourceIsRegistered(rule, before, alias);
      assert registered == before + [registered[|registered| - 1]];
    }
  }

  lemma {:induction false} LatestSourceOfConcat(rule: Option<Rule>, a: seq<string>, b: seq<string>, alias: string)
    ensures LatestSource(rule, a + b, alias) ==
            if LatestSource(rule, b, alias).Some? then LatestSource(rule, b, alias) else LatestSource(rule, a, alias)
  {
    if b == [] {
      assert a + b == a;
    } else {
      assert (a + b)[..|a + b| - 1] == a + b[..|b| - 1];
      LatestSourceOfConcat(rule, a, b[..|b| - 1], alias);
    }
  }

  /** Registering a source and asking for its alias later gives the source back exactly when what was
      registered last under that alias in between, if anything, is that source again. */
  lemma GetAfterRegister(rule: Option<Rule>, earlier: seq<string>, source: string, later: seq<string>)
    requires rule.Some?
    ensures var registered := earlier + [source] + later;
            var since := LatestSource(rule, later, Renamed(rule, source));
            Resolve(rule, AliasesAfter(rule, registered), Renamed(rule, source)) == Some(source) <==>
            since == None || since == Some(source)
  {
    var alias := Renamed(rule, source);
    TableHoldsLatestSources(rule, earlier + [source] + later, alias);
    LatestSourceOfConcat(rule, earlier + [source], later, alias);
    LatestSourceOfConcat(rule, earlier, [source], alias);
  }

  /** When the rename is injective on the registered sources, or there is none, every one of them can be
      read back. */
  lemma InjectiveRoundTrip(rule: Option<Rule>, registered: seq<string>, source: string)
    requires InjectiveOn(rule, registered) && source in registered
    ensures Resolve(rule, AliasesAfter(rule, registered), Renamed(rule, source)) == Some(source)
  {
  }

  lemma {:induction false} AliasKeys(rule: Option<Rule>, registered: seq<string>, alias: string)
    ensures alias in AliasesAfter(rule, registered) ==>
              exists s :: s in registered && Renamed(rule, s) == alias && AliasesAfter(rule, registered)[alias] == s
    ensures rule.Some? && (exists s :: s in registered && Renamed(rule, s) == alias) ==>
              alias in AliasesAfter(rule, registered)
  {
    if rule.Some? {
      TableHoldsLatestSources(rule, registered, alias);
      LatestSourceIsRegistered(rule, registered, alias);
    }
  }

  /** Under an injective rename the table depends only on which sources were registered, not on the order. */
  lemma AliasesIgnoreOrder(rule: Option<Rule>, a: seq<string>, b: seq<string>)
    requires forall s :: s in a <==> s in b
    requires InjectiveOn(rule, a)
    ensures AliasesAfter(rule, a) == AliasesAfter(rule, b)
  {
    var p, q := AliasesAfter(rule, a), AliasesAfter(rule, b);
    forall alias: string
      ensures alias in p <==> alias in q
      ensures alias in p && alias in q ==> p[alias] == q[alias]
    {
      AliasKeys(rule, a, alias);
      AliasKeys(rule, b, alias);
    }
    assert p == q;
  }

  lemma SameAnswersSameTable(rule: Option<Rule>, a: seq<string>, b: seq<string>)
    requires forall alias :: LatestSource(rule, a, alias) == LatestSource(rule, b, alias)
    ensures AliasesAfter(rule, a) == AliasesAfter(rule, b)
  {
    if rule.Some? {
      var p, q := AliasesAfter(rule, a), AliasesAfter(rule, b);
      forall alias: string
        ensures Resolve(rule, p, alias) == Resolve(rule, q, alias)
      {
        TableHoldsLatestSources(rule, a, alias);
        TableHoldsLatestSources(rule, b, alias);
      }
      assert forall alias :: alias in p <==> Resolve(rule, p, alias).Some?;
      assert p == q;
    }
  }

  /** ... and only then: when two registered sources share an alias, registering them in another order makes
      another table. */
  lemma OrderShowsExactly(rule: Option<Rule>, a: seq<string>)
    requires rule.Some?
    ensures (forall b :: multiset(b) == multiset(a) ==> AliasesAfter(rule, b) == AliasesAfter(rule, a)) <==>
            InjectiveOn(rule, a)
  {
    if InjectiveOn(rule, a) {
      forall b | multiset(b) == multiset(a)
        ensures AliasesAfter(rule, b) == AliasesAfter(rule, a)
      {
        assert forall s :: s in a <==> s in multiset(a);
        assert forall s :: s in b <==> s in multiset(b);
        AliasesIgnoreOrder(rule, a, b);
      }
    } else {
      var s, t :| s in a && t in a && Renamed(rule, s) == Renamed(rule, t) && s != t;
      var b := RegisteredLast(rule, a, s);
      var c := RegisteredLast(rule, a, t);
      assert AliasesAfter(rule, b)[Renamed(rule, s)] != AliasesAfter(rule, c)[Renamed(rule, s)];
    }
  }

  lemma RegisteredLast(rule: Option<Rule>, a: seq<string>, source: string) returns (b: seq<string>)
    requires rule.Some? && source in a
    ensures multiset(b) == multiset(a)
    ensures var table := AliasesAfter(rule, b);
            Renamed(rule, source) in table && table[Renamed(rule, source)] == source
  {
    var i :| 0 <= i < |a| && a[i] == source;
    assert a == a[..i] + [source] + a[i + 1..];
    b := a[..i] + a[i + 1..] + [source];
  }
}
