/** Decoded JSON documents. A Go map becomes the sequence of its entries in one of the orders in which a
    range loop may visit them; Reordered relates two such orders of the same document. */
module Json {
  import opened Wrappers

  datatype Json =
    | Object(fields: seq<Field>)
    | Array(items: seq<Json>)
    | Str(text: string)
    | Scalar(literal: string)  // a number, a boolean or null

  datatype Field = Field(key: string, value: Json)

  function Find(fields: seq<Field>, key: string): Option<Json> {
    if fields == [] then None
    else if fields[0].key == key then Some(fields[0].value)
    else Find(fields[1..], key)
  }

  predicate HasKey(fields: seq<Field>, key: string) {
    Find(fields, key).Some?
  }

  predicate DistinctKeys(fields: seq<Field>) {
    forall i, j :: 0 <= i < j < |fields| ==> fields[i].key != fields[j].key
  }

  /** A decoded document: no object, at any depth, holds the same key twice. */
  predicate WellFormed(json: Json) {
    match json
    case Object(fields) => DistinctKeys(fields) && forall i :: 0 <= i < |fields| ==> WellFormed(fields[i].value)
    case Array(items) => forall i :: 0 <= i < |items| ==> WellFormed(items[i])
    case Str(_) => true
    case Scalar(_) => true
  }

  datatype PathError = Missing(segment: string) | NotADocument(value: Json)

  /** Walks down a document along keys. */
  function Descend(fields: seq<Field>, path: seq<string>): Result<Json, PathError>
    requires path != []
    decreases |path|
  {
    match Find(fields, path[0])
    case None => Err(Missing(path[0]))
    case Some(value) =>
      if |path| == 1 then Ok(value)
      else if value.Object? then Descend(value.fields, path[1..])
      else Err(NotADocument(value))
  }

  /** These values lie one below the other, each an entry of the one before. */
  ghost predicate Leads(fields: seq<Field>, path: seq<string>, values: seq<Json>)
    decreases |path|
  {
    && |values| == |path| > 0
    && Field(path[0], values[0]) in fields
    && (|path| > 1 ==> values[0].Object? && Leads(values[0].fields, path[1..], values[1..]))
  }

  /** Descending is following entries: along the whole path, or up to where the next key is missing or what has been
      reached is no object. */
  lemma {:induction false} DescendFollowsEntries(fields: seq<Field>, path: seq<string>) returns (values: seq<Json>)
    requires path != [] && WellFormed(Object(fields))
    ensures match Descend(fields, path)
            case Ok(value) => Leads(fields, path, values) && values[|path| - 1] == value
            case Err(NotADocument(value)) =>
              && 0 < |values| < |path| && Leads(fields, path[..|values|], values)
              && values[|values| - 1] == value && !value.Object?
            case Err(Missing(key)) =>
              && |values| < |path| && path[|values|] == key
              && (values != [] ==> Leads(fields, path[..|values|], values) && values[|values| - 1].Object?)
              && forall v :: Field(key, v) !in (if values == [] then fields else values[|values| - 1].fields)
    decreases |path|
  {
    FindGives(fields, path[0]);
    if Find(fields, path[0]).None? {
      return [];
    }
    var value := Find(fields, path[0]).value;
    values := [value];
    assert path[..1] == [path[0]];
    if |path| > 1 && value.Object? {
      var below := DescendFollowsEntries(value.fields, path[1..]);
      values := [value] + below;
      assert values[1..] == below && path[..|values|][1..] == path[1..][..|below|];
    }
  }

  /** The same document, its objects' entries listed in other orders, at any depth. */
  ghost predicate Reordered(a: Json, b: Json)
    decreases a
  {
    match a
    case Object(fields) => b.Object? && SameEntries(fields, b.fields)
    case Array(items) => b.Array? && |items| == |b.items| &&
                         forall i :: 0 <= i < |items| ==> Reordered(items[i], b.items[i])
    case Str(_) => a == b
    case Scalar(_) => a == b
  }

  ghost predicate SameEntries(d: seq<Field>, e: seq<Field>)
    decreases d
  {
    && DistinctKeys(d) && DistinctKeys(e)
    && (forall k :: HasKey(e, k) ==> HasKey(d, k))
    && (forall i :: 0 <= i < |d| ==>
          HasKey(e, d[i].key) && Reordered(d[i].value, Find(e, d[i].key).value))
  }

  lemma {:induction false} FindGives(fields: seq<Field>, key: string)
    ensures match Find(fields, key)
            case None => forall i :: 0 <= i < |fields| ==> fields[i].key != key
            case Some(v) => exists i :: 0 <= i < |fields| && fields[i] == Field(key, v)
  {
    if fields != [] {
      if fields[0].key == key {
        assert fields[0] == Field(key, fields[0].value);
      } else {
        FindGives(fields[1..], key);
        if HasKey(fields, key) {
          var i :| 0 <= i < |fields[1..]| && fields[1..][i] == Field(key, Find(fields, key).value);
          assert fields[i + 1] == fields[1..][i];
        }
      }
    }
  }

  lemma {:induction false} FindAt(fields: seq<Field>, i: nat)
    requires i < |fields| && DistinctKeys(fields)
    ensures Find(fields, fields[i].key) == Some(fields[i].value)
  {
    if i > 0 {
      assert DistinctKeys(fields[1..]);
      FindAt(fields[1..], i - 1);
    }
  }

  /** A permutation of the entries of one object is a reordering of it. */
  lemma PermutedEntries(d: seq<Field>, e: seq<Field>)
    requires multiset(d) == multiset(e) && WellFormed(Object(d)) && DistinctKeys(e)
    ensures SameEntries(d, e)
  {
    forall k | HasKey(e, k)
      ensures HasKey(d, k)
    {
      FindGives(e, k);
      var i :| 0 <= i < |e| && e[i] == Field(k, Find(e, k).value);
      assert e[i] in multiset(d);
      FindGives(d, k);
    }
    forall i | 0 <= i < |d|
      ensures HasKey(e, d[i].key) && Reordered(d[i].value, Find(e, d[i].key).value)
    {
      assert d[i] in multiset(e);
      var j :| 0 <= j < |e| && e[j] == d[i];
      FindAt(e, j);
      ReorderedIsReflexive(d[i].value);
    }
  }

  lemma {:induction false} ReorderedIsReflexive(json: Json)
    requires WellFormed(json)
    ensures Reordered(json, json)
  {
    match json
    case Object(fields) =>
      forall i | 0 <= i < |fields|
        ensures HasKey(fields, fields[i].key) && Reordered(fields[i].value, Find(fields, fields[i].key).value)
      {
        FindAt(fields, i);
        ReorderedIsReflexive(fields[i].value);
      }
    case Array(items) =>
      forall i | 0 <= i < |items|
        ensures Reordered(items[i], items[i])
      {
        ReorderedIsReflexive(items[i]);
      }
    case Str(_) =>
    case Scalar(_) =>
  }

  lemma SameFind(d: seq<Field>, e: seq<Field>, key: string)
    requires SameEntries(d, e)
    ensures HasKey(d, key) <==> HasKey(e, key)
    ensures HasKey(d, key) ==> Reordered(Find(d, key).value, Find(e, key).value)
  {
    FindGives(d, key);
    if HasKey(d, key) {
      var i :| 0 <= i < |d| && d[i] == Field(key, Find(d, key).value);
    }
  }

  lemma {:induction false} ReorderedIsWellFormed(a: Json, b: Json)
    requires Reordered(a, b)
    ensures WellFormed(a)
  {
    match a
    case Object(fields) =>
      forall i | 0 <= i < |fields|
        ensures WellFormed(fields[i].value)
      {
        ReorderedIsWellFormed(fields[i].value, Find(b.fields, fields[i].key).value);
      }
    case Array(items) =>
      forall i | 0 <= i < |items|
        ensures WellFormed(items[i])
      {
        ReorderedIsWellFormed(items[i], b.items[i]);
      }
    case Str(_) =>
    case Scalar(_) =>
  }

  lemma {:induction false} ReorderedIsSymmetric(a: Json, b: Json)
    requires Reordered(a, b)
    ensures Reordered(b, a)
    decreases a, 1
  {
    match a
    case Object(fields) => SameEntriesIsSymmetric(fields, b.fields);
    case Array(items) =>
      forall i | 0 <= i < |items|
        ensures Reordered(b.items[i], items[i])
      {
        ReorderedIsSymmetric(items[i], b.items[i]);
      }
    case Str(_) =>
    case Scalar(_) =>
  }

  lemma {:induction false} SameEntriesIsSymmetric(d: seq<Field>, e: seq<Field>)
    requires SameEntries(d, e)
    ensures SameEntries(e, d)
    decreases d, 0
  {
    forall k | HasKey(d, k)
      ensures HasKey(e, k)
    {
      FindGives(d, k);
    }
    forall j | 0 <= j < |e|
      ensures HasKey(d, e[j].key) && Reordered(e[j].value, Find(d, e[j].key).value)
    {
      FindAt(e, j);
      assert HasKey(e, e[j].key);
      FindGives(d, e[j].key);
      var i :| 0 <= i < |d| && d[i] == Field(e[j].key, Find(d, e[j].key).value);
      ReorderedIsSymmetric(d[i].value, e[j].value);
    }
  }

  /** Descending does not depend on the order of entries. */
  lemma {:induction false} SameDescend(d: seq<Field>, e: seq<Field>, path: seq<string>)
    requires SameEntries(d, e) && path != []
    ensures Descend(d, path).Ok? <==> Descend(e, path).Ok?
    ensures Descend(d, path).Ok? ==> Reordered(Descend(d, path).value, Descend(e, path).value)
    decreases |path|
  {
    SameFind(d, e, path[0]);
    if |path| > 1 && HasKey(d, path[0]) && Find(d, path[0]).value.Object? {
      SameDescend(Find(d, path[0]).value.fields, Find(e, path[0]).value.fields, path[1..]);
    }
  }

  // ----- Telling key lists apart -----

  /** A document in which this one key list leads somewhere, and no other list of keys leads there. */
  function Chain(path: seq<string>): seq<Field>
    requires path != []
  {
    [Field(path[0], if |path| == 1 then Scalar("0") else Object(Chain(path[1..])))]
  }

  lemma {:induction false} ChainReads(path: seq<string>, other: seq<string>)
    requires path != [] && other != []
    ensures Descend(Chain(path), other) == Ok(Scalar("0")) <==> other == path
  {
    assert path == [path[0]] + path[1..] && other == [other[0]] + other[1..];
    assert Find(Chain(path), other[0]) == if other[0] == path[0] then Some(Chain(path)[0].value) else None;
    if |path| > 1 && |other| > 1 && other[0] == path[0] {
      ChainReads(path[1..], other[1..]);
      assert Descend(Chain(path), other) == Descend(Chain(path[1..]), other[1..]);
    }
  }

  /** Two lists of keys read the same from every document only when they are the same list. */
  lemma DocumentsTellPathsApart(p: seq<string>, q: seq<string>)
    requires p != [] && q != []
    ensures (forall doc :: Descend(doc, p) == Descend(doc, q)) <==> p == q
  {
    ChainReads(p, p);
    ChainReads(p, q);
    assert Descend(Chain(p), p) != Descend(Chain(p), q) || p == q;
  }

  // ----- Moving entries -----

  /** Moving one entry to the front. */
  function First(fields: seq<Field>, i: nat): seq<Field>
    requires i < |fields|
  {
    [fields[i]] + fields[..i] + fields[i + 1..]
  }

  lemma FirstKeepsKeysDistinct(fields: seq<Field>, i: nat)
    requires i < |fields| && DistinctKeys(fields)
    ensures DistinctKeys(First(fields, i))
  {
    var moved := First(fields, i);
    forall j, k | 0 <= j < k < |moved|
      ensures moved[j].key != moved[k].key
    {
      assert moved[j] == fields[if j == 0 then i else if j <= i then j - 1 else j];
      assert moved[k] == fields[if k <= i then k - 1 else k];
    }
  }

  lemma FirstKeepsEntries(fields: seq<Field>, i: nat)
    requires i < |fields|
    ensures multiset(First(fields, i)) == multiset(fields)
  {
    assert fields == fields[..i] + [fields[i]] + fields[i + 1..];
  }

  lemma FirstIsReordered(fields: seq<Field>, i: nat)
    requires i < |fields| && WellFormed(Object(fields))
    ensures SameEntries(fields, First(fields, i))
  {
    FirstKeepsEntries(fields, i);
    FirstKeepsKeysDistinct(fields, i);
    PermutedEntries(fields, First(fields, i));
  }

  /** Moving one entry to the end, its value listed in another order. */
  function Last(fields: seq<Field>, i: nat, value: Json): seq<Field>
    requires i < |fields|
  {
    fields[..i] + fields[i + 1..] + [Field(fields[i].key, value)]
  }

  lemma LastHoldsAll(fields: seq<Field>, i: nat, value: Json, j: nat)
    requires i < |fields| && DistinctKeys(fields) && j < |fields|
    ensures Find(Last(fields, i, value), fields[j].key) == Some(if j == i then value else fields[j].value)
  {
    var moved := Last(fields, i, value);
    var at := if j == i then |moved| - 1 else if j < i then j else j - 1;
    assert moved[at] == Field(fields[j].key, if j == i then value else fields[j].value);
    LastKeepsKeysDistinct(fields, i, value);
    FindAt(moved, at);
  }

  lemma LastKeepsKeysDistinct(fields: seq<Field>, i: nat, value: Json)
    requires i < |fields| && DistinctKeys(fields)
    ensures DistinctKeys(Last(fields, i, value))
  {
    var moved := Last(fields, i, value);
    forall j, k | 0 <= j < k < |moved|
      ensures moved[j].key != moved[k].key
    {
      assert moved[j] == fields[if j < i then j else j + 1];
      assert moved[k].key == fields[if k == |moved| - 1 then i else if k < i then k else k + 1].key;
    }
  }

  lemma LastHoldsNoMore(fields: seq<Field>, i: nat, value: Json, key: string)
    requires i < |fields|
    ensures HasKey(Last(fields, i, value), key) ==> HasKey(fields, key)
  {
    var moved := Last(fields, i, value);
    FindGives(moved, key);
    FindGives(fields, key);
    if HasKey(moved, key) {
      var j :| 0 <= j < |moved| && moved[j] == Field(key, Find(moved, key).value);
      assert moved[j].key == fields[if j == |moved| - 1 then i else if j < i then j else j + 1].key;
    }
  }

  lemma LastIsReordered(fields: seq<Field>, i: nat, value: Json)
    requires i < |fields| && WellFormed(Object(fields)) && Reordered(fields[i].value, value)
    ensures SameEntries(fields, Last(fields, i, value))
    ensures Find(Last(fields, i, value), fields[i].key) == Some(value)
  {
    LastKeepsKeysDistinct(fields, i, value);
    LastHoldsAll(fields, i, value, i);
    forall k | HasKey(Last(fields, i, value), k)
      ensures HasKey(fields, k)
    {
      LastHoldsNoMore(fields, i, value, k);
    }
    forall j | 0 <= j < |fields|
      ensures HasKey(Last(fields, i, value), fields[j].key)
      ensures Reordered(fields[j].value, Find(Last(fields, i, value), fields[j].key).value)
    {
      LastHoldsAll(fields, i, value, j);
      ReorderedIsReflexive(fields[j].value);
    }
  }
}
