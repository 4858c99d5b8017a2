/**
 The model's findings as the action receives them, and
 `createStructuredComment`, which makes one line-addressed comment per
 finding for the file whose chunk was reviewed.
 */
module Comments {
  import opened Diff
  import opened Strings
  import opened Resolution

  /** One finding, in the shape the source declares for the model's JSON.
      The source only casts the parsed JSON; this type assumes the cast is
      right (an integer line number, string fields). */
  datatype ValidationReview = ValidationReview(
    lineNumber: int,
    issueType: string,
    severity: string,
    problem: string,
    solution: string,
    example: string)

  datatype Verdict = Verdict(status: string, details: seq<string>)

  /** A parsed answer that has a `reviews` list of findings. */
  datatype AIResponse = AIResponse(reviews: seq<ValidationReview>, verdict: Verdict)

  /** The five labelled lines of a comment body. */
  function BodyLines(review: ValidationReview): seq<string> {
    [ "🏷️ ISSUE TYPE: " + review.issueType,
      "⚠️ SEVERITY: " + review.severity,
      "❌ PROBLEM: " + review.problem,
      "✅ SOLUTION: " + review.solution,
      "📝 EXAMPLE: " + review.example ]
  }

  /** The comment body: the labelled lines joined by newlines. */
  function ReviewBody(review: ValidationReview): string {
    Join(BodyLines(review), '\n')
  }

  predicate SingleLine(s: string) {
    '\n' !in s
  }

  /** The body can be read back: when no field holds a newline, its lines are
      exactly the five labelled fields. */
  lemma ReviewBodyLines(review: ValidationReview)
    requires SingleLine(review.issueType) && SingleLine(review.severity) && SingleLine(review.problem)
    requires SingleLine(review.solution) && SingleLine(review.example)
    ensures Split(ReviewBody(review), '\n') == BodyLines(review)
  {
    var lines := BodyLines(review);
    forall i | 0 <= i < |lines|
      ensures '\n' !in lines[i]
    {
      var tag := ["🏷️ ISSUE TYPE: ", "⚠️ SEVERITY: ", "❌ PROBLEM: ", "✅ SOLUTION: ", "📝 EXAMPLE: "][i];
      var field := [review.issueType, review.severity, review.problem, review.solution, review.example][i];
      assert lines[i] == tag + field;
      assert '\n' !in tag;
    }
    SplitJoin(lines, '\n');
  }

  /** `createStructuredComment`: nothing for a file without a path; otherwise
      one comment per finding, in order, on the file's path at the finding's
      line. The verdict is not used. */
  function StructuredComments(file: DiffFile, response: AIResponse): (r: seq<Comment>)
    ensures !HasPath(file) ==> r == []
    ensures HasPath(file) ==> |r| == |response.reviews|
    ensures forall i :: 0 <= i < |r| ==>
      && r[i].path == file.to.value
      && r[i].line == response.reviews[i].lineNumber
      && r[i].body == ReviewBody(response.reviews[i])
  {
    if !HasPath(file) then []
    else
      var filePath := file.to.value;
      seq(|response.reviews|, i requires 0 <= i < |response.reviews| =>
        Comment(ReviewBody(response.reviews[i]), filePath, response.reviews[i].lineNumber))
  }

  /** Findings map one to one: concatenating findings concatenates comments,
      whatever the verdicts. */
  lemma StructuredCommentsAppend(file: DiffFile, a: seq<ValidationReview>, b: seq<ValidationReview>, va: Verdict, vb: Verdict, v: Verdict)
    ensures StructuredComments(file, AIResponse(a + b, v))
         == StructuredComments(file, AIResponse(a, va)) + StructuredComments(file, AIResponse(b, vb))
  {
  }
}
