/** Fields by their position in a mapping: a table of fields, the "properties" of one of them, its fields, and so
    on. The walk goes by keys and not by position, and a field may itself be called "properties"; this module says
    exactly which fields it finds, which of them share a name, and which can be read back. */
module FieldLaws {
  import opened Wrappers
  import opened Text
  import opened Json
  import opened Config
  import opened Query
  import opened Walk
  import opened DiscoveryLaws

  /** A path that alternates between a field name and the "properties" that holds the fields below it. */
  predicate MappingPath(path: seq<string>) {
    && path != []
    && (|path| > 1 ==> |path| > 2 && path[1] == "properties" && MappingPath(path[2..]))
  }

  /** The names of the fields along such a path, outermost first. */
  function FieldsOn(path: seq<string>): (fields: seq<string>)
    requires MappingPath(path)
    ensures fields != [] && forall s :: s in fields ==> s in path
  {
    if |path| == 1 then path else [path[0]] + FieldsOn(path[2..])
  }

  // ----- Which fields are found -----

  /** Every other key of such a path is "properties"; the others are its field names. */
  lemma {:induction false} MappingPathAt(path: seq<string>, i: nat)
    requires MappingPath(path) && i < |path|
    ensures if i % 2 == 1 then path[i] == "properties" && i + 1 < |path| else path[i] in FieldsOn(path)
  {
    if i > 1 {
      MappingPathAt(path[2..], i - 2);
      assert path[2..][i - 2] == path[i];
    }
  }

  lemma DescendsThrough(d: seq<Field>, path: seq<string>, i: nat)
    requires 0 < i < |path| && Descend(d, path).Ok?
    ensures Descend(d, path[..i]).Ok? && Descend(d, path[..i]).value.Object?
    ensures HasKey(Descend(d, path[..i]).value.fields, path[i])
    decreases |path|
  {
    var key := path[0];
    var sub := Find(d, key).value.fields;
    if i == 1 {
      assert path[..1] == [key] && path[1..][0] == path[1];
    } else {
      DescendsThrough(sub, path[1..], i - 1);
      assert path[..i][1..] == path[1..][..i - 1] && path[1..][i - 1] == path[i];
    }
  }

  /** A field without fields of its own is visited exactly when it is not called "properties" itself and neither
      it nor any field around it is called "*". */
  lemma FieldIsVisitedExactly(d: seq<Field>, path: seq<string>)
    requires MappingPath(path)
    requires Descend(d, path).Ok? && Descend(d, path).value.Object?
    requires !HasKey(Descend(d, path).value.fields, "properties")
    ensures LeafPath(d, path) <==> "*" !in FieldsOn(path) && path[|path| - 1] != "properties"
  {
    forall i | 0 < i < |path| && path[i - 1] != "properties"
      ensures HasProperties(d, path[..i])
    {
      MappingPathAt(path, i - 1);
      MappingPathAt(path, i);
      DescendsThrough(d, path, i);
    }
    forall i | 0 <= i < |path|
      ensures path[i] == "*" ==> "*" in FieldsOn(path)
    {
      MappingPathAt(path, i);
    }
  }

  /** A table in which the only object beside or below a "properties" key is the table of the fields there. */
  ghost predicate StructuredTable(d: seq<Field>)
    decreases d
  {
    && DistinctKeys(d)
    && forall i :: 0 <= i < |d| && d[i].value.Object? ==> StructuredField(d[i])
  }

  ghost predicate StructuredField(field: Field)
    requires field.value.Object?
    decreases field
  {
    var node := field.value.fields;
    && DistinctKeys(node)
    && (field.key == "properties" || HasKey(node, "properties") ==>
          forall i :: 0 <= i < |node| && node[i].value.Object? ==>
            node[i].key == "properties" && StructuredTable(node[i].value.fields))
  }

  /** In such a table all that the walk finds are fields. */
  lemma {:induction false} OnlyFieldsAreFound(d: seq<Field>, path: seq<string>)
    requires StructuredTable(d) && LeafPath(d, path)
    ensures MappingPath(path)
    decreases |path|
  {
    if |path| > 1 {
      LeafPathSteps(d, path);
      FindGives(d, path[0]);
      var i :| 0 <= i < |d| && d[i] == Field(path[0], Find(d, path[0]).value);
      assert StructuredField(d[i]);
      var node := d[i].value.fields;
      FindGives(node, path[1]);
      assert path[1..][0] == path[1];
      var k :| 0 <= k < |node| && node[k] == Field(path[1], Find(node, path[1]).value);
      if |path| == 2 {
        assert false;  // the only object there is "properties", never a leaf
      } else {
        LeafPathSteps(node, path[1..]);
        assert path[1..][1..] == path[2..];
        OnlyFieldsAreFound(node[k].value.fields, path[2..]);
      }
    }
  }

  /** A clean table, with one field inside another: the name of the inner one is recorded. */
  lemma NestedFieldIsRecorded(fieldsSet: seq<Fields>)
    requires FindMetadata(fieldsSet, "a.b").Some?
    ensures var b := Field("b", Object([Field("type", Str("long"))]));
            var d := [Field("a", Object([Field("properties", Object([b]))]))];
            CleanTable(d) && StructuredTable(d) && Names("", d, fieldsSet) == ["a.b"]
  {
    var table := [Field("b", Object([Field("type", Str("long"))]))];
    var node := [Field("properties", Object(table))];
    var d := [Field("a", Object(node))];
    assert table[1..] == [] && node[1..] == [] && d[1..] == [];
    assert Extend("a", "b") == "a.b";
    assert NamesAt("a", table[0], fieldsSet) == ["a.b"] && Names("a", table, fieldsSet) == ["a.b"];
    assert NamesAt("a", node[0], fieldsSet) == ["a.b"] && Names("a", node, fieldsSet) == ["a.b"];
    assert NamesAt("", d[0], fieldsSet) == ["a.b"];
  }

  /** Elsewhere it may find what is no field: the "meta" of a numeric field called "properties". */
  lemma MetaTakenForField(fieldsSet: seq<Fields>)
    requires FindMetadata(fieldsSet, "meta").Some?
    ensures var meta := Field("meta", Object([Field("type", Str("long"))]));
            var d := [Field("properties", Object([Field("type", Str("long")), meta]))];
            Names("", d, fieldsSet) == ["meta"] && LeafPath(d, ["properties", "meta"])
    ensures !MappingPath(["properties", "meta"])
  {
    var meta := Field("meta", Object([Field("type", Str("long"))]));
    var node := [Field("type", Str("long")), meta];
    var d := [Field("properties", Object(node))];
    assert node[1..] == [meta] && [meta][1..] == [] && d[1..] == [];
    assert NamesAt("", meta, fieldsSet) == ["meta"] && NamesAt("", node[0], fieldsSet) == [];
    assert Names("", node, fieldsSet) == [] + (["meta"] + []);
    LeafPathOfOne(node, "meta");
    assert ["properties", "meta"][1..] == ["meta"];
    LeafPathSteps(d, ["properties", "meta"]);
  }

  // ----- Names -----

  /** What the walk keeps of a path is what it keeps of its field names: all but those called "properties". */
  lemma {:induction false} KeptFields(path: seq<string>)
    requires MappingPath(path)
    ensures Segments(path) == Segments(FieldsOn(path))
  {
    if |path| > 1 {
      KeptFields(path[2..]);
      assert path[1..][1..] == path[2..] && path[1..][0] == "properties";
      assert FieldsOn(path)[1..] == FieldsOn(path[2..]);
    }
  }

  lemma {:induction false} KeptAll(fields: seq<string>)
    ensures |Segments(fields)| <= |fields| && forall s :: s in Segments(fields) ==> s in fields
    ensures Segments(fields) == fields <==> |Segments(fields)| == |fields|
    ensures Segments(fields) == fields <==> "properties" !in fields
  {
    if fields != [] {
      KeptAll(fields[1..]);
      assert fields == [fields[0]] + fields[1..];
    }
  }

  lemma {:induction false} ShownAll(segments: seq<string>)
    ensures |Shown(segments)| <= |segments| && forall s :: s in Shown(segments) ==> s in segments
    ensures |Shown(segments)| == |segments| <==> !StartsEmpty(segments)
  {
    if StartsEmpty(segments) {
      ShownAll(segments[1..]);
    }
  }

  /** Two fields have the same name exactly when their field names have the same pieces, once those called
      "properties" are left out, then the empty ones at the start, and each is cut at its own dots. */
  lemma FieldsCollideExactly(d: seq<Field>, path: seq<string>, other: seq<string>)
    requires LeafPath(d, path) && MappingPath(path) && LeafPath(d, other) && MappingPath(other)
    ensures DottedName("", Segments(path)) == DottedName("", Segments(other)) <==>
            Pieces(Shown(Segments(FieldsOn(path)))) == Pieces(Shown(Segments(FieldsOn(other))))
  {
    CollisionIsExact(d, path, other);
    KeptFields(path);
    KeptFields(other);
  }

  /** The name of a field splits into the field names on its path exactly when none of them holds a dot or is
      called "properties", and the path does not start with an empty one. */
  lemma SplitOfFieldName(path: seq<string>)
    requires MappingPath(path) && path[|path| - 1] != "properties"
    ensures Split(DottedName("", Segments(path))) == FieldsOn(path) <==>
            Readable(FieldsOn(path)) && "properties" !in FieldsOn(path)
  {
    var fields, kept := FieldsOn(path), Segments(path);
    LeafHasSegments(path);
    KeptFields(path);
    KeptAll(fields);
    SplitOfName(kept);
    if Split(DottedName("", kept)) == fields {
      SplitIsDotFree(DottedName("", kept));
      ShownAll(kept);
      DottedNameIsJoin(kept);
      SplitOfJoinIsPieces(Shown(kept));
      PiecesOfDotFree(Shown(kept));
    }
  }

  // ----- Reading a field back -----

  /** Reading "_source." + name gives, in every search hit, what the field names on the field's path lead to
      exactly when none of them holds a dot or is called "properties", and the path does not start with an empty
      one. */
  lemma YieldedNameReadsItsField(d: seq<Field>, path: seq<string>, fieldsSet: seq<Fields>, name: string)
    requires Yields(d, path, "", fieldsSet, name) && MappingPath(path)
    ensures (forall hit :: GetValue("_source." + name, hit) == Descend(hit, ["_source"] + FieldsOn(path))) <==>
            Readable(FieldsOn(path)) && "properties" !in FieldsOn(path)
  {
    SplitOfFieldName(path);
    NameReadsExactly(name, FieldsOn(path));
  }

  /** A field called "properties" is lost from the names below it: "x" inside it is recorded under the name of a
      top-level "x", and a hit that holds it does not read. */
  lemma FieldBelowPropertiesIsNotRead(fieldsSet: seq<Fields>)
    requires FindMetadata(fieldsSet, "x").Some?
    ensures var x := Field("x", Object([Field("type", Str("long"))]));
            var d := [Field("properties", Object([Field("properties", Object([x]))]))];
            var path := ["properties", "properties", "x"];
            && Yields(d, path, "", fieldsSet, "x") && StructuredTable(d)
            && MappingPath(path) && FieldsOn(path) == ["properties", "x"]
    ensures var hit := [Field("_source", Object([Field("properties", Object([Field("x", Scalar("1"))]))]))];
            && GetValue("_source." + "x", hit) == Err(Missing("x"))
            && Descend(hit, ["_source", "properties", "x"]) == Ok(Scalar("1"))
  {
    PropertiesFieldIsYielded(fieldsSet);
    var inner := [Field("x", Scalar("1"))];
    PropertiesFieldIsNotRead([Field("properties", Object(inner))], inner);
  }

  lemma PropertiesFieldIsYielded(fieldsSet: seq<Fields>)
    requires FindMetadata(fieldsSet, "x").Some?
    ensures var x := Field("x", Object([Field("type", Str("long"))]));
            var d := [Field("properties", Object([Field("properties", Object([x]))]))];
            var path := ["properties", "properties", "x"];
            && Yields(d, path, "", fieldsSet, "x") && StructuredTable(d)
            && MappingPath(path) && FieldsOn(path) == ["properties", "x"]
  {
    var table := [Field("x", Object([Field("type", Str("long"))]))];
    var node := [Field("properties", Object(table))];
    var d := [Field("properties", Object(node))];
    var path := ["properties", "properties", "x"];
    assert path[1..] == ["properties", "x"] && path[2..] == ["x"] && ["properties", "x"][1..] == ["x"];
    LeafPathOfOne(table, "x");
    LeafPathSteps(node, ["properties", "x"]);
    LeafPathSteps(d, path);
    assert LeafOf(table, ["x"]) == [Field("type", Str("long"))];
    assert ["x"][1..] == [] && Segments(["x"]) == ["x"] && Segments(["properties", "x"]) == ["x"];
    assert DottedName("", ["x"]) == DottedName("x", []) == "x";
  }

  lemma PropertiesFieldIsNotRead(source: seq<Field>, inner: seq<Field>)
    requires inner == [Field("x", Scalar("1"))] && source == [Field("properties", Object(inner))]
    ensures var hit := [Field("_source", Object(source))];
            && GetValue("_source." + "x", hit) == Err(Missing("x"))
            && Descend(hit, ["_source", "properties", "x"]) == Ok(Scalar("1"))
  {
    var hit := [Field("_source", Object(source))];
    SourceReads("x", hit);
    SplitOfDotFree("x");
    assert Find(hit, "_source") == Some(Object(source)) && Find(source, "x") == None;
    assert (["_source"] + ["x"])[1..] == ["x"];
    var path := ["_source", "properties", "x"];
    assert path[1..] == ["properties", "x"] && path[1..][1..] == ["x"];
  }
}
