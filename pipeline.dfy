/**
 The action's pipeline once its inputs are fetched: filter the parsed diff by
 the exclude patterns, review each remaining file chunk by chunk, and post the
 comments that land on a line of the pull request's diff.
 The language model is the parameter `respond(file, chunk, fileType)`; its
 `None` stands for the `null` that `getAIResponse` returns on an API or JSON
 error. `respond` is a fixed function: equal arguments get equal answers, and
 the pull request details and the rules text are folded into it, whereas the
 real call is sampled.
 */
module Pipeline {
  import opened Wrappers
  import opened Seqs
  import opened Diff
  import opened Positions
  import opened Resolution
  import opened Classify
  import opened Comments

  /** A file `analyzeCodeParallel` sends to the model: it has a path, the
      path is not "/dev/null", and it is classified as something. */
  predicate Reviewable(f: DiffFile, patterns: FilePatterns, glob: (string, string) -> bool) {
    HasPath(f) && f.to.value != "/dev/null" && GetFileType(f.to.value, patterns, glob) != Ignored
  }

  /** What one chunk contributes: nothing when the model gave no answer
      (`getAIResponse` returned null), else the structured comments. */
  function ChunkResult(file: DiffFile, response: Option<AIResponse>): (r: seq<Comment>)
    ensures response.None? ==> r == []
    ensures response.Some? ==> r == StructuredComments(file, response.value)
    ensures r != [] ==> HasPath(file)
    ensures forall k :: 0 <= k < |r| ==> r[k].path == PathOf(file)
  {
    match response
    case None => []
    case Some(answer) => StructuredComments(file, answer)
  }

  /** The per-chunk results of one file, in chunk order. */
  function ChunkResults(
    file: DiffFile, fileType: FileType,
    respond: (DiffFile, DiffChunk, FileType) -> Option<AIResponse>): seq<seq<Comment>>
  {
    seq(|file.chunks|, i requires 0 <= i < |file.chunks| => ChunkResult(file, respond(file, file.chunks[i], fileType)))
  }

  /** The per-file task of `analyzeCodeParallel`: skip a file without a path,
      a deleted file and an ignored file; otherwise review every chunk with the
      file's type and flatten the per-chunk comments. */
  function AnalyzeFile(
    file: DiffFile, patterns: FilePatterns, glob: (string, string) -> bool,
    respond: (DiffFile, DiffChunk, FileType) -> Option<AIResponse>): (r: seq<Comment>)
    ensures !Reviewable(file, patterns, glob) ==> r == []
  {
    if !HasPath(file) || file.to.value == "/dev/null" then []
    else
      var fileType := GetFileType(file.to.value, patterns, glob);
      if fileType == Ignored then []
      else Flatten(ChunkResults(file, fileType, respond))
  }

  /** Every comment of a file's analysis is on that file's path. */
  lemma AnalyzeFilePaths(
    file: DiffFile, patterns: FilePatterns, glob: (string, string) -> bool,
    respond: (DiffFile, DiffChunk, FileType) -> Option<AIResponse>, comment: Comment)
    requires comment in AnalyzeFile(file, patterns, glob, respond)
    ensures Reviewable(file, patterns, glob) && file.to == Some(comment.path)
  {
    assert HasPath(file) && file.to.value != "/dev/null";
    var fileType := GetFileType(file.to.value, patterns, glob);
    assert fileType != Ignored;
    var results := ChunkResults(file, fileType, respond);
    assert AnalyzeFile(file, patterns, glob, respond) == Flatten(results);
    FlattenMember(results, comment);
    var i :| 0 <= i < |results| && comment in results[i];
    var k :| 0 <= k < |results[i]| && results[i][k] == comment;
    assert results[i] == ChunkResult(file, respond(file, file.chunks[i], fileType));
    assert comment.path == PathOf(file);
  }

  /** The per-file results of `analyzeCodeParallel`, in file order. */
  function FileResults(
    files: seq<DiffFile>, patterns: FilePatterns, glob: (string, string) -> bool,
    respond: (DiffFile, DiffChunk, FileType) -> Option<AIResponse>): seq<seq<Comment>>
  {
    seq(|files|, i requires 0 <= i < |files| => AnalyzeFile(files[i], patterns, glob, respond))
  }

  /** `analyzeCodeParallel`: the per-file results flattened in file order
      (`Promise.all` keeps the order of its inputs). */
  function AnalyzeCode(
    files: seq<DiffFile>, patterns: FilePatterns, glob: (string, string) -> bool,
    respond: (DiffFile, DiffChunk, FileType) -> Option<AIResponse>): seq<Comment>
  {
    Flatten(FileResults(files, patterns, glob, respond))
  }

  /** Every comment of the analysis is on the path of a reviewable file. */
  lemma AnalyzeCodeSources(
    files: seq<DiffFile>, patterns: FilePatterns, glob: (string, string) -> bool,
    respond: (DiffFile, DiffChunk, FileType) -> Option<AIResponse>)
    ensures forall comment :: comment in AnalyzeCode(files, patterns, glob, respond) ==>
      exists i :: 0 <= i < |files| && Reviewable(files[i], patterns, glob) && files[i].to == Some(comment.path)
  {
    var results := FileResults(files, patterns, glob, respond);
    forall comment: Comment | comment in Flatten(results)
      ensures exists i :: 0 <= i < |files| && Reviewable(files[i], patterns, glob) && files[i].to == Some(comment.path)
    {
      FlattenMember(results, comment);
      var i :| 0 <= i < |results| && comment in results[i];
      AnalyzeFilePaths(files[i], patterns, glob, respond, comment);
    }
  }

  /** Files are analysed independently: the results of two parts of the diff
      concatenate. */
  lemma AnalyzeCodeAppend(
    a: seq<DiffFile>, b: seq<DiffFile>, patterns: FilePatterns, glob: (string, string) -> bool,
    respond: (DiffFile, DiffChunk, FileType) -> Option<AIResponse>)
    ensures AnalyzeCode(a + b, patterns, glob, respond)
         == AnalyzeCode(a, patterns, glob, respond) + AnalyzeCode(b, patterns, glob, respond)
  {
    assert FileResults(a + b, patterns, glob, respond)
        == FileResults(a, patterns, glob, respond) + FileResults(b, patterns, glob, respond);
    FlattenAppend(FileResults(a, patterns, glob, respond), FileResults(b, patterns, glob, respond));
  }

  /** Every comment that survives resolution is on a path of the position map
      and of a file of the parsed diff that is reviewable and not excluded. */
  lemma PostedFromKeptFiles(
    parsedDiff: seq<DiffFile>, excludePatterns: seq<string>, patterns: FilePatterns, glob: (string, string) -> bool,
    respond: (DiffFile, DiffChunk, FileType) -> Option<AIResponse>, diffPositions: map<string, seq<DiffPosition>>)
    ensures forall posted :: posted in ResolveAll(AnalyzeCode(FilterExcluded(parsedDiff, excludePatterns, glob), patterns, glob, respond), diffPositions) ==>
      && posted.path in diffPositions
      && exists i :: (0 <= i < |parsedDiff| && parsedDiff[i].to == Some(posted.path)
           && Reviewable(parsedDiff[i], patterns, glob)
           && !IsExcluded(parsedDiff[i], excludePatterns, glob))
  {
    var filteredDiff := FilterExcluded(parsedDiff, excludePatterns, glob);
    var comments := AnalyzeCode(filteredDiff, patterns, glob, respond);
    var valid := ResolveAll(comments, diffPositions);
    FilterExcludedMembers(parsedDiff, excludePatterns, glob);
    AnalyzeCodeSources(filteredDiff, patterns, glob, respond);
    forall posted: ReviewComment | posted in valid
      ensures posted.path in diffPositions
      ensures exists i :: (0 <= i < |parsedDiff| && parsedDiff[i].to == Some(posted.path)
           && Reviewable(parsedDiff[i], patterns, glob)
           && !IsExcluded(parsedDiff[i], excludePatterns, glob))
    {
      var k :| 0 <= k < |valid| && valid[k] == posted;
      var c :| 0 <= c < |comments| && Resolve(comments[c], diffPositions) == Some(posted);
      assert comments[c] in comments;
      var f :| 0 <= f < |filteredDiff| && Reviewable(filteredDiff[f], patterns, glob)
        && filteredDiff[f].to == Some(comments[c].path);
      assert filteredDiff[f] in filteredDiff;
      var i :| 0 <= i < |parsedDiff| && parsedDiff[i] == filteredDiff[f];
    }
  }

  /**
   `createReviewComment`, from the parsed diff of the pull request onwards:
   build the position map, resolve every comment, and post a review only when
   some comment survives (`None`: nothing is posted).
   */
  method CreateReviewComment(reviewDiff: seq<DiffFile>, comments: seq<Comment>) returns (review: Option<seq<ReviewComment>>)
    ensures review.None? <==> ResolveAll(comments, PositionMap(reviewDiff)) == []
    ensures review.Some? ==> review.value == ResolveAll(comments, PositionMap(reviewDiff))
  {
    var diffPositions := BuildDiffPositions(reviewDiff);
    var validComments := ResolveAll(comments, diffPositions);
    if validComments == [] {
      return None;
    }
    return Some(validComments);
  }

  /**
   `main`, once the inputs are fetched. `parsedDiff` is the diff analysed
   (the whole pull request when it was opened, the pushed commits on a
   synchronize event); `reviewDiff` is the pull request's diff that
   `createReviewComment` fetches again to compute positions. A review is
   posted only when the analysis produced comments and some of them resolve.
   */
  method RunValidation(
    parsedDiff: seq<DiffFile>, exclude: string, patterns: FilePatterns, glob: (string, string) -> bool,
    respond: (DiffFile, DiffChunk, FileType) -> Option<AIResponse>, reviewDiff: seq<DiffFile>)
    returns (review: Option<seq<ReviewComment>>)
    ensures var comments := AnalyzeCode(FilterExcluded(parsedDiff, ExcludePatterns(exclude), glob), patterns, glob, respond);
      review == (if ResolveAll(comments, PositionMap(reviewDiff)) == [] then None
                 else Some(ResolveAll(comments, PositionMap(reviewDiff))))
    ensures review.Some? ==> review.value != [] && forall posted :: posted in review.value ==>
      && posted.path in PositionMap(reviewDiff)
      && exists i :: (0 <= i < |parsedDiff| && parsedDiff[i].to == Some(posted.path)
           && Reviewable(parsedDiff[i], patterns, glob)
           && !IsExcluded(parsedDiff[i], ExcludePatterns(exclude), glob))
  {
    var excludePatterns := ExcludePatterns(exclude);
    var filteredDiff := FilterExcluded(parsedDiff, excludePatterns, glob);
    var comments := AnalyzeCode(filteredDiff, patterns, glob, respond);
    review := None;
    if |comments| > 0 {
      review := CreateReviewComment(reviewDiff, comments);
    }
    PostedFromKeptFiles(parsedDiff, excludePatterns, patterns, glob, respond, PositionMap(reviewDiff));
  }

  /** A comment on a line the diff shows is never dropped: if the last file
      of the diff with the comment's path has a non-deleted change on the
      comment's line, the comment is posted at that change's position or at an
      earlier entry with the same line. */
  lemma CommentOnShownLineResolves(reviewDiff: seq<DiffFile>, fi: nat, c: nat, k: nat, comment: Comment)
    requires fi < |reviewDiff|
    requires forall j :: fi < j < |reviewDiff| ==> PathOf(reviewDiff[j]) != PathOf(reviewDiff[fi])
    requires comment.path == PathOf(reviewDiff[fi])
    requires c < |reviewDiff[fi].chunks| && k < |reviewDiff[fi].chunks[c].changes|
    requires reviewDiff[fi].chunks[c].changes[k].kind != Del
    requires LineOf(reviewDiff[fi].chunks[c].changes[k]) == Some(comment.line)
    ensures Resolve(comment, PositionMap(reviewDiff)).Some?
    ensures Resolve(comment, PositionMap(reviewDiff)).value.position
         <= |Changes(reviewDiff[fi].chunks[..c])| + k + 1
  {
    var f := reviewDiff[fi];
    var m := PositionMap(reviewDiff);
    var shown := |Changes(f.chunks[..c])| + k + 1;
    PositionMapLastWins(reviewDiff, fi);
    var ps := FilePositions(f);
    assert comment.path in m && m[comment.path] == ps;
    FilePositionOfChange(f, c, k);
    var j :| 0 <= j < |ps| && ps[j] == DiffPosition(PathOf(f), shown, LineOf(f.chunks[c].changes[k]));
    assert ps[j].line == Some(comment.line);
    var r := Resolve(comment, m);
    assert r.Some?;
    var j' :| 0 <= j' < |ps| && ps[j'].line == Some(comment.line) && r.value.position == ps[j'].position
      && forall l :: 0 <= l < j' ==> ps[l].line != Some(comment.line);
    assert j' <= j;
    RecordedIncreasing(PathOf(f), Changes(f.chunks));
    assert ps[j'].position <= ps[j].position;
  }
}
