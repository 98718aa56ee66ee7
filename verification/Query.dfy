/** Reading a value out of a search hit by its dotted name (pkg/client/elasticsearch/query.go). */
module Query {
  import opened Wrappers
  import opened Text
  import opened Json

  /** getValue: splits the path, takes one step, joins the rest and starts again. */
  function GetValue(path: string, doc: seq<Field>): Result<Json, PathError>
    decreases |path|
  {
    var segments := Split(path);
    match Find(doc, segments[0])
    case None => Err(Missing(segments[0]))
    case Some(value) =>
      if |segments| == 1 then Ok(value)
      else if value.Object? then
        RestIsShorter(path);
        GetValue(Join(segments[1..]), value.fields)
      else Err(NotADocument(value))
  }

  lemma RestIsShorter(path: string)
    requires |Split(path)| > 1
    ensures |Join(Split(path)[1..])| < |path|
  {
    JoinOfSplit(path);
  }

  /** Re-joining and re-splitting at every level is one walk over the segments of the original path: same
      value when it succeeds, same error when it does not. */
  lemma {:induction false} GetValueIsDescend(path: string, doc: seq<Field>)
    ensures GetValue(path, doc) == Descend(doc, Split(path))
    decreases |path|
  {
    var segments := Split(path);
    if |segments| > 1 && HasKey(doc, segments[0]) && Find(doc, segments[0]).value.Object? {
      RestIsShorter(path);
      SplitIsDotFree(path);
      SplitOfJoin(segments[1..]);
      GetValueIsDescend(Join(segments[1..]), Find(doc, segments[0]).value.fields);
    }
  }

  /** A joined name reads what the pieces of its segments lead to. */
  lemma GetValueOfJoined(segments: seq<string>, doc: seq<Field>)
    requires segments != []
    ensures GetValue(Join(segments), doc) == Descend(doc, Pieces(segments))
  {
    SplitOfJoinIsPieces(segments);
    GetValueIsDescend(Join(segments), doc);
  }

  /** A joined name reads what its segments lead to, in every document, exactly when no segment holds a dot. */
  lemma JoinedReadsSegments(segments: seq<string>)
    requires segments != []
    ensures (forall doc :: GetValue(Join(segments), doc) == Descend(doc, segments)) <==>
            forall t :: t in segments ==> DotFree(t)
  {
    SplitOfJoin(segments);
    SplitOfJoinIsPieces(segments);
    DocumentsTellPathsApart(Pieces(segments), segments);
    forall doc
      ensures GetValue(Join(segments), doc) == Descend(doc, Pieces(segments))
    {
      GetValueOfJoined(segments, doc);
    }
  }
}
