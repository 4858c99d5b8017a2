/**
 Turning line-addressed comments into position-addressed review comments, as
 `createReviewComment` does before posting: each comment is looked up in the
 position map by its path, the first recorded line equal to its line gives
 the position, and comments that find nothing are dropped.
 */
module Resolution {
  import opened Wrappers
  import opened Positions

  /** A comment produced by the analysis: `{ body, path, line }`. */
  datatype Comment = Comment(body: string, path: string, line: int)

  /** A comment ready to post: `{ path, body, position }`. */
  datatype ReviewComment = ReviewComment(path: string, body: string, position: int)

  /** `positions.find(pos => pos.line === line)`, returning the index found:
      the first entry whose line is `line`, or nothing when none is. */
  function FindLine(positions: seq<DiffPosition>, line: int): (r: Option<nat>)
    ensures r.Some? ==> r.value < |positions| && positions[r.value].line == Some(line)
    ensures r.Some? ==> forall j :: 0 <= j < r.value ==> positions[j].line != Some(line)
    ensures r.None? <==> forall j :: 0 <= j < |positions| ==> positions[j].line != Some(line)
  {
    if positions == [] then None
    else if positions[0].line == Some(line) then Some(0)
    else
      match FindLine(positions[1..], line)
      case None => None
      case Some(i) => Some(i + 1)
  }

  /** One comment: dropped when its path has no entry or no recorded line
      matches; otherwise positioned at the first matching entry, with path and
      body unchanged. */
  function Resolve(comment: Comment, diffPositions: map<string, seq<DiffPosition>>): (r: Option<ReviewComment>)
    ensures r.Some? <==>
      comment.path in diffPositions &&
      exists j :: 0 <= j < |diffPositions[comment.path]| && diffPositions[comment.path][j].line == Some(comment.line)
    ensures r.Some? ==> r.value.path == comment.path && r.value.body == comment.body
    ensures r.Some? ==> exists j :: (0 <= j < |diffPositions[comment.path]|
      && diffPositions[comment.path][j].line == Some(comment.line)
      && r.value.position == diffPositions[comment.path][j].position
      && forall l :: 0 <= l < j ==> diffPositions[comment.path][l].line != Some(comment.line))
  {
    if comment.path !in diffPositions then None
    else
      var filePositions := diffPositions[comment.path];
      match FindLine(filePositions, comment.line)
      case None => None
      case Some(i) => Some(ReviewComment(comment.path, comment.body, filePositions[i].position))
  }

  /** `comments.map(...).filter(c => c !== null)`: the survivors, in input order. */
  function ResolveAll(comments: seq<Comment>, diffPositions: map<string, seq<DiffPosition>>): (r: seq<ReviewComment>)
    ensures |r| <= |comments|
    ensures forall k :: 0 <= k < |r| ==> exists i :: 0 <= i < |comments| && Resolve(comments[i], diffPositions) == Some(r[k])
    ensures forall i :: 0 <= i < |comments| && Resolve(comments[i], diffPositions).Some? ==>
      Resolve(comments[i], diffPositions).value in r
  {
    if comments == [] then []
    else
      var rest := ResolveAll(comments[1..], diffPositions);
      var head := match Resolve(comments[0], diffPositions)
        case None => []
        case Some(c) => [c];
      var r := head + rest;
      assert forall k :: 0 <= k < |rest| ==> r[|head| + k] == rest[k];
      assert forall i :: 1 <= i < |comments| ==> comments[i] == comments[1..][i - 1];
      r
  }

  /** Resolution distributes over concatenation, so survivors keep their relative order. */
  lemma {:induction false} ResolveAllAppend(a: seq<Comment>, b: seq<Comment>, diffPositions: map<string, seq<DiffPosition>>)
    ensures ResolveAll(a + b, diffPositions) == ResolveAll(a, diffPositions) + ResolveAll(b, diffPositions)
  {
    if a != [] {
      ResolveAllAppend(a[1..], b, diffPositions);
      assert (a + b)[1..] == a[1..] + b;
      assert (a + b)[0] == a[0];
    } else {
      assert a + b == b;
    }
  }

  /** Resolving a single comment keeps it exactly when `Resolve` does. */
  lemma ResolveAllSingle(c: Comment, diffPositions: map<string, seq<DiffPosition>>)
    ensures ResolveAll([c], diffPositions) == if Resolve(c, diffPositions).Some? then [Resolve(c, diffPositions).value] else []
  {
  }
}
