/** strings.Split and strings.Join with the separator ".", on which the dotted metric names rest. */
module Text {

  function Split(s: string): (segments: seq<string>)
    ensures segments != []
  {
    if s == "" then [""] else Prepended(s[0], Split(s[1..]))
  }

  /** One more character in front: a dot starts a new segment, any other joins the first. */
  function Prepended(c: char, segments: seq<string>): seq<string>
    requires segments != []
  {
    if c == '.' then [""] + segments else [[c] + segments[0]] + segments[1..]
  }

  function Join(segments: seq<string>): string {
    if segments == [] then ""
    else if |segments| == 1 then segments[0]
    else segments[0] + "." + Join(segments[1..])
  }

  predicate DotFree(s: string) {
    '.' !in s
  }

  lemma {:induction false} SplitIsDotFree(s: string)
    ensures forall t :: t in Split(s) ==> DotFree(t)
  {
    if s != "" {
      var rest := Split(s[1..]);
      SplitIsDotFree(s[1..]);
      assert rest[0] in rest;
      assert forall t :: t in Split(s) ==> t == "" || t == [s[0]] + rest[0] || t in rest;
    }
  }

  /** Joining what Split produced gives the string back. */
  lemma {:induction false} JoinOfSplit(s: string)
    ensures Join(Split(s)) == s
  {
    if s != "" {
      var rest := Split(s[1..]);
      JoinOfSplit(s[1..]);
      if s[0] == '.' {
        assert Split(s)[1..] == rest;
      } else {
        JoinGrows(s[0], rest);
      }
      assert [s[0]] + s[1..] == s;
    }
  }

  lemma JoinGrows(c: char, segments: seq<string>)
    requires segments != []
    ensures Join([[c] + segments[0]] + segments[1..]) == [c] + Join(segments)
  {
    var longer := [[c] + segments[0]] + segments[1..];
    assert longer[1..] == segments[1..];
    if |segments| > 1 {
      assert Join(longer) == [c] + segments[0] + "." + Join(segments[1..]);
    }
  }

  /** Splitting a join cuts every segment at its own dots. */
  function Pieces(segments: seq<string>): seq<string> {
    if segments == [] then [] else Split(segments[0]) + Pieces(segments[1..])
  }

  lemma {:induction false} SplitOfJoinIsPieces(segments: seq<string>)
    requires segments != []
    ensures Split(Join(segments)) == Pieces(segments)
  {
    if |segments| == 1 {
      assert Pieces(segments[1..]) == [];
    } else {
      SplitOfJoinIsPieces(segments[1..]);
      SplitAtDot(segments[0], Join(segments[1..]));
    }
  }

  lemma {:induction false} SplitAtDot(head: string, tail: string)
    ensures Split(head + "." + tail) == Split(head) + Split(tail)
  {
    var s := head + "." + tail;
    if head == "" {
      assert s[1..] == tail;
      assert Split(s) == [""] + Split(tail);
    } else {
      assert s[0] == head[0] && s[1..] == head[1..] + "." + tail;
      SplitAtDot(head[1..], tail);
      PrependedAppend(head[0], Split(head[1..]), Split(tail));
    }
  }

  lemma PrependedAppend(c: char, a: seq<string>, b: seq<string>)
    requires a != []
    ensures Prepended(c, a + b) == Prepended(c, a) + b
  {
    if c == '.' {
      assert [""] + (a + b) == [""] + a + b;
    } else {
      assert (a + b)[0] == a[0] && (a + b)[1..] == a[1..] + b;
    }
  }

  lemma {:induction false} PiecesOfDotFree(segments: seq<string>)
    requires forall t :: t in segments ==> DotFree(t)
    ensures Pieces(segments) == segments
  {
    if segments != [] {
      SplitOfDotFree(segments[0]);
      PiecesOfDotFree(segments[1..]);
    }
  }

  lemma {:induction false} SplitOfDotFree(s: string)
    requires DotFree(s)
    ensures Split(s) == [s]
  {
    if s != "" {
      SplitOfDotFree(s[1..]);
      assert [s[0]] + s[1..] == s;
    }
  }

  /** Splitting a dotted name gives its segments back exactly when no segment holds a dot itself. */
  lemma SplitOfJoin(segments: seq<string>)
    requires segments != []
    ensures Split(Join(segments)) == segments <==> forall t :: t in segments ==> DotFree(t)
  {
    SplitOfJoinIsPieces(segments);
    SplitIsDotFree(Join(segments));
    if forall t :: t in segments ==> DotFree(t) {
      PiecesOfDotFree(segments);
    }
  }

  /** Two lists of segments join to the same name exactly when they have the same pieces. */
  lemma SameJoin(a: seq<string>, b: seq<string>)
    requires a != [] && b != []
    ensures Join(a) == Join(b) <==> Pieces(a) == Pieces(b)
  {
    SplitOfJoinIsPieces(a);
    SplitOfJoinIsPieces(b);
    JoinOfSplit(Join(a));
    JoinOfSplit(Join(b));
  }
}
