/** What the walk over an index mapping records (pkg/client/elasticsearch/discovery.go): the walk itself as a
    function of the mapping, and what it means in terms of key paths. */
module Walk {
  import opened Wrappers
  import opened Text
  import opened Json
  import opened Config

  const ALLOWED_TYPES: set<string> := {
    "byte", "double", "float", "half_float", "integer", "long", "scaled_float", "short", "unsigned_long"
  }

  predicate IsTypeAllowed(t: string) {
    t in ALLOWED_TYPES
  }

  /** The name of the child `key` of a node. */
  function Extend(root: string, key: string): string {
    if root == "" then key else root + "." + key
  }

  predicate Numeric(leaf: seq<Field>) {
    var t := Find(leaf, "type");
    t.Some? && t.value.Str? && IsTypeAllowed(t.value.text)
  }

  /** The type assertion of the source would panic on this leaf. */
  predicate BadlyTyped(leaf: seq<Field>) {
    var t := Find(leaf, "type");
    t.Some? && !t.value.Str?
  }

  /** The numeric types of a mapping, one by one. */
  lemma NumericExactly(leaf: seq<Field>)
    requires DistinctKeys(leaf)
    ensures Numeric(leaf) <==>
            exists t :: Field("type", Str(t)) in leaf &&
              (t == "byte" || t == "double" || t == "float" || t == "half_float" || t == "integer" || t == "long" ||
               t == "scaled_float" || t == "short" || t == "unsigned_long")
    ensures BadlyTyped(leaf) <==> exists v :: Field("type", v) in leaf && !v.Str?
  {
    FindGives(leaf, "type");
    forall v | Field("type", v) in leaf
      ensures Find(leaf, "type") == Some(v)
    {
      var i :| 0 <= i < |leaf| && leaf[i] == Field("type", v);
      FindAt(leaf, i);
    }
    if HasKey(leaf, "type") {
      assert Field("type", Find(leaf, "type").value) in leaf;
    }
  }

  /** The names recorded below `d`, in the order in which the walk visits the entries. */
  function Names(root: string, d: seq<Field>, fieldsSet: seq<Fields>): seq<string>
    decreases d
  {
    if d == [] then [] else NamesAt(root, d[0], fieldsSet) + Names(root, d[1..], fieldsSet)
  }

  function NamesAt(root: string, entry: Field, fieldsSet: seq<Fields>): seq<string>
    decreases entry
  {
    if entry.key == "*" || !entry.value.Object? then []
    else
      var child := entry.value.fields;
      if entry.key == "properties" then Names(root, child, fieldsSet)
      else if HasKey(child, "properties") then Names(Extend(root, entry.key), child, fieldsSet)
      else if Numeric(child) && FindMetadata(fieldsSet, Extend(root, entry.key)).Some? then [Extend(root, entry.key)]
      else []
  }

  /** The walk meets a leaf whose "type" is not a string. */
  predicate Panics(d: seq<Field>)
    decreases d
  {
    d != [] && (PanicsAt(d[0]) || Panics(d[1..]))
  }

  predicate PanicsAt(entry: Field)
    decreases entry
  {
    && entry.key != "*" && entry.value.Object?
    && var child := entry.value.fields;
       if entry.key == "properties" || HasKey(child, "properties") then Panics(child) else BadlyTyped(child)
  }

  lemma {:induction false} NamesAppend(root: string, d: seq<Field>, e: seq<Field>, fieldsSet: seq<Fields>)
    ensures Names(root, d + e, fieldsSet) == Names(root, d, fieldsSet) + Names(root, e, fieldsSet)
  {
    if d == [] {
      assert d + e == e;
    } else {
      assert (d + e)[1..] == d[1..] + e;
      NamesAppend(root, d[1..], e, fieldsSet);
    }
  }

  lemma NamesOneMore(root: string, d: seq<Field>, i: nat, fieldsSet: seq<Fields>)
    requires i < |d|
    ensures Names(root, d[..i + 1], fieldsSet) == Names(root, d[..i], fieldsSet) + NamesAt(root, d[i], fieldsSet)
  {
    assert d[..i + 1] == d[..i] + [d[i]];
    NamesAppend(root, d[..i], [d[i]], fieldsSet);
  }

  lemma {:induction false} PanicsSomewhere(d: seq<Field>)
    ensures Panics(d) <==> exists i :: 0 <= i < |d| && PanicsAt(d[i])
  {
    if d != [] {
      PanicsSomewhere(d[1..]);
      if Panics(d) && !PanicsAt(d[0]) {
        var i :| 0 <= i < |d[1..]| && PanicsAt(d[1..][i]);
        assert PanicsAt(d[i + 1]);
      }
      forall i | 0 <= i < |d| && PanicsAt(d[i])
        ensures Panics(d)
      {
        assert i > 0 ==> d[i] == d[1..][i - 1];
      }
    }
  }

  lemma PanicsOneMore(d: seq<Field>, i: nat)
    requires i < |d|
    ensures Panics(d[..i + 1]) == (Panics(d[..i]) || PanicsAt(d[i]))
    ensures PanicsAt(d[i]) ==> Panics(d)
  {
    PanicsAppend(d[..i], [d[i]]);
    assert d[..i + 1] == d[..i] + [d[i]];
    PanicsAppend(d[..i + 1], d[i + 1..]);
    assert d == d[..i + 1] + d[i + 1..];
  }

  lemma {:induction false} PanicsAppend(d: seq<Field>, e: seq<Field>)
    ensures Panics(d + e) == (Panics(d) || Panics(e))
  {
    if d == [] {
      assert d + e == e;
    } else {
      assert (d + e)[1..] == d[1..] + e;
      PanicsAppend(d[1..], e);
    }
  }

  lemma {:induction false} NamedSomewhere(root: string, d: seq<Field>, fieldsSet: seq<Fields>, name: string)
    ensures name in Names(root, d, fieldsSet) <==> exists i :: 0 <= i < |d| && name in NamesAt(root, d[i], fieldsSet)
  {
    if d != [] {
      NamedSomewhere(root, d[1..], fieldsSet, name);
      if name in Names(root, d[1..], fieldsSet) {
        var i :| 0 <= i < |d[1..]| && name in NamesAt(root, d[1..][i], fieldsSet);
        assert name in NamesAt(root, d[i + 1], fieldsSet);
      }
      forall i | 0 <= i < |d| && name in NamesAt(root, d[i], fieldsSet)
        ensures name in Names(root, d, fieldsSet)
      {
        assert i > 0 ==> d[i] == d[1..][i - 1];
      }
    }
  }

  // ----- Key paths -----

  ghost predicate HasProperties(d: seq<Field>, path: seq<string>)
    requires path != []
  {
    var node := Descend(d, path);
    node.Ok? && node.value.Object? && HasKey(node.value.fields, "properties")
  }

  /** A key path to a leaf: plain descent along keys, none of them "*"; every node on the way that is not
      itself reached by "properties" has a "properties" entry, the leaf has none. */
  ghost predicate LeafPath(d: seq<Field>, path: seq<string>) {
    && path != [] && "*" !in path && path[|path| - 1] != "properties"
    && Descend(d, path).Ok? && Descend(d, path).value.Object? && !HasProperties(d, path)
    && (forall i :: 0 < i < |path| && path[i - 1] != "properties" ==> HasProperties(d, path[..i]))
  }

  ghost function LeafOf(d: seq<Field>, path: seq<string>): seq<Field>
    requires LeafPath(d, path)
  {
    Descend(d, path).value.fields
  }

  /** What the walk keeps of a key path: all keys but "properties", which it takes for a step between fields even
      where it is the name of one. */
  function Segments(path: seq<string>): seq<string> {
    if path == [] then []
    else if path[0] == "properties" then Segments(path[1..])
    else [path[0]] + Segments(path[1..])
  }

  /** The name the walk gives to a path. */
  function DottedName(root: string, segments: seq<string>): string
    decreases |segments|
  {
    if segments == [] then root else DottedName(Extend(root, segments[0]), segments[1..])
  }

  /** The segments that show in the name: the walk loses empty ones at the start of a path. */
  function Shown(segments: seq<string>): (shown: seq<string>)
    ensures segments != [] ==> shown != []
  {
    if StartsEmpty(segments) then Shown(segments[1..]) else segments
  }

  predicate StartsEmpty(segments: seq<string>) {
    |segments| > 1 && segments[0] == ""
  }

  lemma {:induction false} DottedNameBelow(root: string, segments: seq<string>)
    requires root != ""
    ensures DottedName(root, segments) == Join([root] + segments)
    decreases |segments|
  {
    if segments == [] {
      assert [root] + segments == [root];
    } else {
      DottedNameBelow(Extend(root, segments[0]), segments[1..]);
      JoinTwo(root, segments[0], segments[1..]);
      assert [root] + segments == [root, segments[0]] + segments[1..];
    }
  }

  lemma JoinTwo(a: string, b: string, rest: seq<string>)
    ensures Join([a, b] + rest) == Join([a + "." + b] + rest)
  {
  }

  /** The name is the dotted join of the segments that show; it is that of all of them exactly when they do not
      start with an empty one. */
  lemma {:induction false} DottedNameIsJoin(segments: seq<string>)
    requires segments != []
    ensures DottedName("", segments) == Join(Shown(segments))
    ensures DottedName("", segments) == Join(segments) <==> !StartsEmpty(segments)
    ensures |DottedName("", segments)| <= |Join(segments)|
    decreases |segments|
  {
    var rest := segments[1..];
    assert segments == [segments[0]] + rest;
    if StartsEmpty(segments) {
      DottedNameIsJoin(rest);
    } else if segments[0] != "" {
      DottedNameBelow(segments[0], rest);
    }
  }

  // ----- Leaf paths, one step at a time -----

  lemma LeafPathOfOne(d: seq<Field>, key: string)
    ensures LeafPath(d, [key]) <==>
              && key != "*" && key != "properties"
              && Find(d, key).Some? && Find(d, key).value.Object? && !HasKey(Find(d, key).value.fields, "properties")
  {
  }

  lemma PropertiesBelow(d: seq<Field>, path: seq<string>, i: nat)
    requires 1 < i <= |path|
    requires Find(d, path[0]).Some? && Find(d, path[0]).value.Object?
    ensures HasProperties(d, path[..i]) <==> HasProperties(Find(d, path[0]).value.fields, path[1..][..i - 1])
  {
    assert path[..i][1..] == path[1..][..i - 1];
  }

  /** The first step of a longer leaf path. */
  ghost predicate Enters(d: seq<Field>, key: string) {
    && key != "*"
    && Find(d, key).Some? && Find(d, key).value.Object?
    && (key == "properties" || HasKey(Find(d, key).value.fields, "properties"))
  }

  lemma LeafPathSteps(d: seq<Field>, path: seq<string>)
    requires |path| > 1
    ensures LeafPath(d, path) <==> Enters(d, path[0]) && LeafPath(Find(d, path[0]).value.fields, path[1..])
    ensures LeafPath(d, path) ==> LeafOf(d, path) == LeafOf(Find(d, path[0]).value.fields, path[1..])
  {
    if LeafPath(d, path) {
      LeafPathDown(d, path);
    }
    if Enters(d, path[0]) && LeafPath(Find(d, path[0]).value.fields, path[1..]) {
      LeafPathUp(d, path);
    }
  }

  lemma LeafPathDown(d: seq<Field>, path: seq<string>)
    requires |path| > 1 && LeafPath(d, path)
    ensures Enters(d, path[0]) && LeafPath(Find(d, path[0]).value.fields, path[1..])
  {
    var sub := Find(d, path[0]).value.fields;
    assert path[0] in path && path[..1] == [path[0]];
    PropertiesBelow(d, path, |path|);
    assert path[..|path|] == path && path[1..][..|path| - 1] == path[1..];
    forall i | 0 < i < |path[1..]| && path[1..][i - 1] != "properties"
      ensures HasProperties(sub, path[1..][..i])
    {
      assert HasProperties(d, path[..i + 1]);
      PropertiesBelow(d, path, i + 1);
    }
  }

  lemma LeafPathUp(d: seq<Field>, path: seq<string>)
    requires |path| > 1 && Enters(d, path[0]) && LeafPath(Find(d, path[0]).value.fields, path[1..])
    ensures LeafPath(d, path)
  {
    var sub := Find(d, path[0]).value.fields;
    assert path == [path[0]] + path[1..];
    PropertiesBelow(d, path, |path|);
    assert path[..|path|] == path && path[1..][..|path| - 1] == path[1..];
    forall i | 0 < i < |path| && path[i - 1] != "properties"
      ensures HasProperties(d, path[..i])
    {
      if i == 1 {
        assert path[..1] == [path[0]];
      } else {
        assert path[1..][i - 2] == path[i - 1];
        PropertiesBelow(d, path, i);
      }
    }
  }

  // ----- The walk finds exactly the leaf paths -----

  ghost predicate Yields(d: seq<Field>, path: seq<string>, root: string, fieldsSet: seq<Fields>, name: string) {
    && LeafPath(d, path) && Numeric(LeafOf(d, path))
    && DottedName(root, Segments(path)) == name && FindMetadata(fieldsSet, name).Some?
  }

  /** Every recorded name comes from a numeric leaf at the end of a key path, by way of the dotted name. */
  lemma {:induction false} WalkIsSound(root: string, d: seq<Field>, fieldsSet: seq<Fields>, name: string)
    returns (path: seq<string>)
    requires WellFormed(Object(d)) && name in Names(root, d, fieldsSet)
    ensures Yields(d, path, root, fieldsSet, name)
    decreases d
  {
    NamedSomewhere(root, d, fieldsSet, name);
    var i :| 0 <= i < |d| && name in NamesAt(root, d[i], fieldsSet);
    var key, child := d[i].key, d[i].value.fields;
    FindAt(d, i);
    assert WellFormed(d[i].value);
    if key == "properties" || HasKey(child, "properties") {
      var root' := if key == "properties" then root else Extend(root, key);
      var rest := WalkIsSound(root', child, fieldsSet, name);
      path := [key] + rest;
      assert path[1..] == rest;
      LeafPathSteps(d, path);
    } else {
      path := [key];
      LeafPathOfOne(d, key);
      assert path[1..] == [] && Segments(path) == [key];
      assert Descend(d, path) == Ok(d[i].value);
    }
  }

  /** Every numeric leaf whose dotted name matches some pattern is recorded. */
  lemma {:induction false} WalkIsComplete(
    root: string, d: seq<Field>, fieldsSet: seq<Fields>, name: string, path: seq<string>)
    requires Yields(d, path, root, fieldsSet, name)
    ensures name in Names(root, d, fieldsSet)
    decreases |path|
  {
    var key := path[0];
    FindGives(d, key);
    var i :| 0 <= i < |d| && d[i] == Field(key, Find(d, key).value);
    if |path| == 1 {
      assert path == [key] && path[1..] == [];
      LeafPathOfOne(d, key);
      assert Segments(path) == [key] && DottedName(root, [key]) == Extend(root, key);
      assert LeafOf(d, path) == d[i].value.fields;
      assert name in NamesAt(root, d[i], fieldsSet);
    } else {
      LeafPathSteps(d, path);
      var child := Find(d, key).value.fields;
      var root' := if key == "properties" then root else Extend(root, key);
      assert DottedName(root, Segments(path)) == DottedName(root', Segments(path[1..]));
      WalkIsComplete(root', child, fieldsSet, name, path[1..]);
      assert name in NamesAt(root, d[i], fieldsSet);
    }
    NamedSomewhere(root, d, fieldsSet, name);
  }

  /** A name is recorded iff a key path yields it. */
  lemma WalkIsExact(root: string, d: seq<Field>, fieldsSet: seq<Fields>, name: string)
    requires WellFormed(Object(d))
    ensures name in Names(root, d, fieldsSet) <==> exists path :: Yields(d, path, root, fieldsSet, name)
  {
    if name in Names(root, d, fieldsSet) {
      var path := WalkIsSound(root, d, fieldsSet, name);
    }
    forall path | Yields(d, path, root, fieldsSet, name)
      ensures name in Names(root, d, fieldsSet)
    {
      WalkIsComplete(root, d, fieldsSet, name, path);
    }
  }

  /** The walk panics iff some key path leads to a leaf whose "type" is not a string. */
  lemma PanicIsExact(d: seq<Field>)
    requires WellFormed(Object(d))
    ensures Panics(d) <==> exists path :: LeafPath(d, path) && BadlyTyped(LeafOf(d, path))
  {
    if Panics(d) {
      var path := PanicIsSound(d);
    }
    forall path | LeafPath(d, path) && BadlyTyped(LeafOf(d, path))
      ensures Panics(d)
    {
      PanicIsComplete(d, path);
    }
  }

  lemma {:induction false} PanicIsSound(d: seq<Field>) returns (path: seq<string>)
    requires WellFormed(Object(d)) && Panics(d)
    ensures LeafPath(d, path) && BadlyTyped(LeafOf(d, path))
    decreases d
  {
    PanicsSomewhere(d);
    var i :| 0 <= i < |d| && PanicsAt(d[i]);
    var key, child := d[i].key, d[i].value.fields;
    FindAt(d, i);
    assert WellFormed(d[i].value);
    if key == "properties" || HasKey(child, "properties") {
      var rest := PanicIsSound(child);
      path := [key] + rest;
      assert path[1..] == rest;
      LeafPathSteps(d, path);
    } else {
      path := [key];
      LeafPathOfOne(d, key);
      assert Descend(d, path) == Ok(d[i].value);
    }
  }

  lemma {:induction false} PanicIsComplete(d: seq<Field>, path: seq<string>)
    requires LeafPath(d, path) && BadlyTyped(LeafOf(d, path))
    ensures Panics(d)
    decreases |path|
  {
    var key := path[0];
    if |path| == 1 {
      assert path == [key];
      LeafPathOfOne(d, key);
    } else {
      LeafPathSteps(d, path);
      PanicIsComplete(Find(d, key).value.fields, path[1..]);
    }
    FindGives(d, key);
    var i :| 0 <= i < |d| && d[i] == Field(key, Find(d, key).value);
    assert PanicsAt(d[i]);
    PanicsSomewhere(d);
  }

  // ----- Independence of the order of entries -----

  lemma LeafPathReordered(d: seq<Field>, e: seq<Field>, path: seq<string>)
    requires SameEntries(d, e) && LeafPath(d, path)
    ensures LeafPath(e, path) && SameEntries(LeafOf(d, path), LeafOf(e, path))
  {
    SameDescend(d, e, path);
    SameFind(Descend(d, path).value.fields, Descend(e, path).value.fields, "properties");
    forall i | 0 < i < |path| && path[i - 1] != "properties"
      ensures HasProperties(e, path[..i])
    {
      assert HasProperties(d, path[..i]);
      SameDescend(d, e, path[..i]);
      SameFind(Descend(d, path[..i]).value.fields, Descend(e, path[..i]).value.fields, "properties");
    }
  }

  lemma YieldsReordered(
    d: seq<Field>, e: seq<Field>, path: seq<string>, root: string, fieldsSet: seq<Fields>, name: string)
    requires SameEntries(d, e) && Yields(d, path, root, fieldsSet, name)
    ensures Yields(e, path, root, fieldsSet, name)
  {
    LeafPathReordered(d, e, path);
    SameFind(LeafOf(d, path), LeafOf(e, path), "type");
  }

  /** Listing the entries of a mapping in other orders, at any depth, changes neither the set of recorded
      names nor whether the walk panics. */
  lemma WalkIgnoresOrder(root: string, d: seq<Field>, e: seq<Field>, fieldsSet: seq<Fields>)
    requires SameEntries(d, e)
    ensures forall name :: name in Names(root, d, fieldsSet) <==> name in Names(root, e, fieldsSet)
    ensures Panics(d) <==> Panics(e)
  {
    SameEntriesIsSymmetric(d, e);
    forall name
      ensures name in Names(root, d, fieldsSet) <==> name in Names(root, e, fieldsSet)
    {
      NamesReordered(root, d, e, fieldsSet, name);
      NamesReordered(root, e, d, fieldsSet, name);
    }
    PanicReordered(d, e);
    PanicReordered(e, d);
  }

  lemma NamesReordered(root: string, d: seq<Field>, e: seq<Field>, fieldsSet: seq<Fields>, name: string)
    requires SameEntries(d, e)
    ensures name in Names(root, d, fieldsSet) ==> name in Names(root, e, fieldsSet)
  {
    ReorderedIsWellFormed(Object(d), Object(e));
    if name in Names(root, d, fieldsSet) {
      var path := WalkIsSound(root, d, fieldsSet, name);
      YieldsReordered(d, e, path, root, fieldsSet, name);
      WalkIsComplete(root, e, fieldsSet, name, path);
    }
  }

  lemma PanicReordered(d: seq<Field>, e: seq<Field>)
    requires SameEntries(d, e)
    ensures Panics(d) ==> Panics(e)
  {
    ReorderedIsWellFormed(Object(d), Object(e));
    if Panics(d) {
      var path := PanicIsSound(d);
      LeafPathReordered(d, e, path);
      SameFind(LeafOf(d, path), LeafOf(e, path), "type");
      PanicIsComplete(e, path);
    }
  }

  // ----- One name, one path -----

  /** A table of field mappings: field names that are not empty, hold no dot and are not "properties"; and
      below each field with a "properties" entry, no other entry that is an object. */
  ghost predicate CleanTable(d: seq<Field>)
    decreases d
  {
    && DistinctKeys(d)
    && forall i :: 0 <= i < |d| ==>
         && FieldName(d[i].key)
         && (d[i].value.Object? ==> CleanNode(d[i].value.fields))
  }

  ghost predicate CleanNode(node: seq<Field>)
    decreases node
  {
    && DistinctKeys(node)
    && (HasKey(node, "properties") ==>
          forall i :: 0 <= i < |node| && node[i].value.Object? ==>
            node[i].key == "properties" && CleanTable(node[i].value.fields))
  }

  predicate FieldName(key: string) {
    key != "" && DotFree(key) && key != "properties"
  }

  /** The key path of a field given by its names: "properties" between any two of them. */
  function Interleaved(segments: seq<string>): seq<string> {
    if |segments| <= 1 then segments else [segments[0], "properties"] + Interleaved(segments[1..])
  }

  lemma {:induction false} CleanPath(d: seq<Field>, path: seq<string>)
    requires CleanTable(d) && LeafPath(d, path)
    ensures path == Interleaved(Segments(path))
    ensures Segments(path) != [] && forall s :: s in Segments(path) ==> FieldName(s)
    decreases |path|
  {
    var key := path[0];
    FindGives(d, key);
    if |path| == 1 {
      assert path == [key] && path[1..] == [];
      LeafPathOfOne(d, key);
    } else {
      LeafPathSteps(d, path);
      var node := Find(d, key).value.fields;
      FindGives(node, path[1]);
      if |path| == 2 {
        assert false;  // the only object below a node with "properties" is "properties", never a leaf
      } else {
        LeafPathSteps(node, path[1..]);
        var table := Find(node, "properties").value.fields;
        assert path[1] == "properties" && path[1..][1..] == path[2..];
        CleanPath(table, path[2..]);
        assert Segments(path) == [key] + Segments(path[2..]);
        assert Segments(path)[1..] == Segments(path[2..]);
        assert path == [key, "properties"] + path[2..];
      }
    }
  }

  lemma {:induction false} LeafHasSegments(path: seq<string>)
    requires path != [] && path[|path| - 1] != "properties"
    ensures Segments(path) != []
  {
    if path[0] == "properties" {
      LeafHasSegments(path[1..]);
    }
  }

  /** Two leaves have the same name exactly when their segments, those that show, have the same pieces once each
      is cut at its own dots. */
  lemma CollisionIsExact(d: seq<Field>, path: seq<string>, other: seq<string>)
    requires LeafPath(d, path) && LeafPath(d, other)
    ensures DottedName("", Segments(path)) == DottedName("", Segments(other)) <==>
            Pieces(Shown(Segments(path))) == Pieces(Shown(Segments(other)))
  {
    LeafHasSegments(path);
    LeafHasSegments(other);
    DottedNameIsJoin(Segments(path));
    DottedNameIsJoin(Segments(other));
    SameJoin(Shown(Segments(path)), Shown(Segments(other)));
  }

  /** Splitting the name of a path gives its segments back exactly when none of them holds a dot and they do not
      start with an empty one. */
  lemma SplitOfName(segments: seq<string>)
    requires segments != []
    ensures Split(DottedName("", segments)) == segments <==> Readable(segments)
  {
    var name := DottedName("", segments);
    DottedNameIsJoin(segments);
    SplitOfJoin(segments);
    JoinOfSplit(name);
    SplitIsDotFree(name);
  }

  ghost predicate Readable(segments: seq<string>) {
    !StartsEmpty(segments) && forall s :: s in segments ==> DotFree(s)
  }

  lemma NamesAreReadable(segments: seq<string>)
    requires forall s :: s in segments ==> FieldName(s)
    ensures Readable(segments)
  {
    assert segments != [] ==> segments[0] in segments;
  }

  /** In a clean table a dotted name belongs to one key path, and splits into the field names along it. */
  lemma OnePathPerName(d: seq<Field>, path: seq<string>)
    requires CleanTable(d) && LeafPath(d, path)
    ensures Split(DottedName("", Segments(path))) == Segments(path)
    ensures path == Interleaved(Split(DottedName("", Segments(path))))
  {
    CleanPath(d, path);
    NamesAreReadable(Segments(path));
    SplitOfName(Segments(path));
  }

  lemma NamesIdentifyPaths(d: seq<Field>, path: seq<string>, other: seq<string>)
    requires CleanTable(d) && LeafPath(d, path) && LeafPath(d, other)
    requires DottedName("", Segments(path)) == DottedName("", Segments(other))
    ensures path == other
  {
    OnePathPerName(d, path);
    OnePathPerName(d, other);
  }

  /** Without the condition on dots two fields share a name: "a.b" at the top, and "b" inside "a". */
  lemma DottedFieldNamesCollide()
    ensures var long := Object([Field("type", Str("long"))]);
            var d := [Field("a.b", long), Field("a", Object([Field("properties", Object([Field("b", long)]))]))];
            && LeafPath(d, ["a.b"]) && LeafPath(d, ["a", "properties", "b"])
            && DottedName("", Segments(["a.b"])) == DottedName("", Segments(["a", "properties", "b"]))
  {
    var long := Object([Field("type", Str("long"))]);
    var table := [Field("b", long)];
    var node := [Field("properties", Object(table))];
    var d := [Field("a.b", long), Field("a", Object(node))];
    LeafPathOfOne(d, "a.b");
    LeafPathOfOne(table, "b");
    LeafPathSteps(node, ["properties", "b"]);
    assert ["properties", "b"][1..] == ["b"];
    var path := ["a", "properties", "b"];
    assert path[1..] == ["properties", "b"];
    assert Find(d, "a") == Some(Object(node)) by {
      assert d[1..] == [Field("a", Object(node))];
    }
    LeafPathSteps(d, path);
    assert Segments(["b"]) == ["b"];
    assert Segments(["properties", "b"]) == ["b"];
    assert Segments(path) == ["a", "b"];
    assert ["a", "b"][1..] == ["b"];
    assert Segments(["a.b"]) == ["a.b"];
    assert DottedName("a", ["b"]) == DottedName("a.b", []);
  }
}
