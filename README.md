# gpt-pr-validator: diff bookkeeping, in Dafny

A GitHub Action reads a pull request's diff. It keeps the changed files that
are not excluded and sorts them into dependency manifests, database
migrations or ignored files. It asks a language model to review every chunk
of a kept file and posts the findings as inline review comments. This
project models the deterministic part of that pipeline and proves its
properties:

- **Position map** (`Positions`). For every file, a counter runs over all
  changes of all chunks. Each change that is not a deletion is recorded with
  the counter's value and its new-file line. The list is stored under
  `file.to || ''`. The imperative loop `BuildDiffPositions` is proved equal
  to the recursive specification `PositionMap`. Lemmas prove the rest: the
  recorded positions, their order and count, what a key maps to when two
  files share it, and that the count continues across chunks.
- **Comment resolution** (`Resolution`). A `{body, path, line}` comment is
  given the position of the first recorded entry on its line. It is dropped
  when there is no such entry. Survivors keep their input order.
- **Classification and exclusion** (`Classify`, `Strings`, `Seqs`).
  `getFileType` is a first-match rule over dependency rules, then migration
  rules. It is proved equal to an ordered rule table. The `exclude` input is
  split on commas and trimmed with JavaScript semantics. A file is kept iff
  no pattern globs its path.
- **Comment construction and the pipeline** (`Comments`, `Pipeline`).
  `createStructuredComment` gives one comment per finding. The per-file skip
  rules of `analyzeCodeParallel` are modelled, along with the final "post
  only when something resolves" step.

Inputs that come from outside are parameters:

- `glob(path, pattern)` stands for `minimatch`; nothing is assumed about it.
- A `FilePatterns` value stands for the imported pattern table.
- `respond(file, chunk, fileType)` stands for the language-model call.
  It is a fixed function: equal arguments get equal answers, and the pull
  request details and the rules text are folded into it. The real call is
  sampled at temperature 0.3, so the model describes one run's answers.
  `None` means `getAIResponse` returned null.
- The parsed diffs are given as values of the `Diff` datatypes.
- `parsedDiff` is the diff that gets analysed. `reviewDiff` is the diff that
  `createReviewComment` fetches again to compute positions. They are separate
  inputs: on a `synchronize` event the first is a commit comparison and the
  second is the pull request's whole diff.

`DiffPosition.line` is an `Option<int>`. The source reads
`'ln2' in change ? change.ln2 : change.ln` and only asserts to the compiler
that the value exists. An absent value never equals a comment's line.

## Model

| member | source | states |
|---|---|---|
| `Positions.BuildDiffPositions` | src/main.ts:307-327 | The nested loops over files, chunks and changes build exactly `PositionMap(parsedDiff)`. Loop invariants: the counter equals the number of changes seen so far in the file, across chunk boundaries, and the pushed list is the specification's list for that prefix. |
| `Positions.RecordedEntry` | src/main.ts:314-321 | Every recorded entry has the file's key as path and a position between 1 and the file's change count. The change at that position is not a deletion, and the entry's line is that change's `ln2`, or `ln` when `ln2` is absent. |
| `Positions.RecordedIncreasing` | src/main.ts:311-322 | Recorded positions strictly increase, so entries appear in diff order. |
| `Positions.RecordedComplete` | src/main.ts:314-322 | Every change that is not a deletion has an entry at its position. |
| `Positions.RecordedCount` | src/main.ts:316-322 | A file has exactly as many entries as it has changes that are not deletions, and never more entries than changes. |
| `Positions.ChangesIndex` | src/main.ts:313-315 | Change `k` of chunk `c` is counted right after all changes of the earlier chunks: the counter does not reset between chunks. |
| `Positions.FilePositionOfChange` | src/main.ts:310-324 | A non-deleted change `k` of chunk `c` is recorded with position (number of changes in the earlier chunks) + k + 1, together with its line and the file's key. |
| `Positions.PositionMapKeys` | src/main.ts:309-326 | The map's keys are exactly the paths `file.to \|\| ''` of the parsed files. |
| `Positions.PositionMapLastWins` | src/main.ts:326 | A key holds the list of the last file with that key; earlier files with the same key are overwritten. |
| `Resolution.FindLine` | src/main.ts:336 | `find` returns the first entry whose line equals the comment's line. It returns nothing exactly when no entry has that line. |
| `Resolution.Resolve` | src/main.ts:329-346 | A comment survives iff its path is a key and some entry of that list has its line. A survivor keeps its path and body, and its position is that of the first such entry. |
| `Resolution.ResolveAll` | src/main.ts:329-347 | There are at most as many survivors as comments. Each survivor is the resolution of some input comment, and every comment that resolves is among the survivors. |
| `Resolution.ResolveAllAppend` | src/main.ts:329-347 | Resolution distributes over concatenation, so survivors keep their input order. |
| `Resolution.ResolveAllSingle` | src/main.ts:329-347 | A one-comment list keeps the comment exactly when `Resolve` does. |
| `Classify.AnyGlob` | src/main.ts:184 | `patterns.some(glob)` holds iff some pattern globs the name. |
| `Classify.AnySuffix` | src/main.ts:185 | `fileTypes.some(endsWith)` holds iff the name ends with some suffix. |
| `Classify.GetFileType` | src/main.ts:183-195 | The result is dependency iff a dependency glob or suffix matches, even when a migration rule matches too. It is migration iff no dependency rule matches and a migration rule does, and ignored iff neither group matches. |
| `Classify.GetFileTypeIsFirstMatch` | src/main.ts:183-195 | `getFileType` equals the first match over the ordered table of dependency globs, dependency suffixes, migration globs and migration suffixes (ignored when none matches). |
| `Classify.ExcludePatterns` | src/main.ts:466-469 | There is one pattern per comma-separated piece of the input, each piece trimmed. An input with n commas gives n + 1 patterns, so an empty input gives one empty pattern. |
| `Classify.FilterExcludedMembers` | src/main.ts:471-475 | A file is kept iff it is in the diff and no exclude pattern globs `file.to ?? ""`. |
| `Classify.FilterExcludedAppend` | src/main.ts:471-475 | The filter distributes over concatenation, so kept files keep their order. |
| `Strings.Split` | src/main.ts:468 | `split(",")` gives one more piece than there are separators, and no piece holds the separator. |
| `Strings.JoinSplit` | src/main.ts:468 | Joining the pieces with the separator gives back the input. |
| `Strings.SplitJoin` | src/main.ts:468 | Splitting a join of separator-free pieces gives back the pieces. |
| `Strings.Trim` | src/main.ts:469 | `trim()` returns an infix of the input. Everything before and after it is JavaScript whitespace or a line terminator, and the infix neither starts nor ends with one. |
| `Strings.TrimIdempotent` | src/main.ts:469 | Trimming twice is the same as trimming once. |
| `Comments.StructuredComments` | src/main.ts:277-292 | There are no comments when `file.to` is null or empty. Otherwise there is one comment per finding, in order, with path `file.to`, the finding's line number and the formatted body. |
| `Comments.ReviewBodyLines` | src/main.ts:284-288 | When no field holds a newline, splitting the body on newlines gives back the five labelled fields in order. |
| `Comments.StructuredCommentsAppend` | src/main.ts:283-291 | Comments follow the findings one to one: concatenating findings concatenates comments, and the verdict plays no part. |
| `Pipeline.ChunkResult` | src/main.ts:163-170 | A chunk with no model answer gives no comments, and any other answer gives exactly `createStructuredComment`'s comments for the file. Every comment a chunk gives is on the file's path, and only a file with a path gives any. |
| `Pipeline.AnalyzeFile` | src/main.ts:141-152 | A file gives no comments when `file.to` is null, empty or "/dev/null", or when it is classified as ignored. |
| `Pipeline.AnalyzeFilePaths` | src/main.ts:141-174 | Every comment of a file's analysis is on that file's path, and the file is reviewable. |
| `Pipeline.AnalyzeCodeSources` | src/main.ts:139-180 | Every comment of the analysis is on the path of a reviewable file of the analysed diff. |
| `Pipeline.AnalyzeCodeAppend` | src/main.ts:178-180 | Files are analysed independently, and the results are concatenated in file order. |
| `Pipeline.CreateReviewComment` | src/main.ts:304-362 | No review is posted when no comment resolves. Otherwise the posted comments are exactly the resolved ones, computed against the position map of the re-fetched diff. |
| `Pipeline.PostedFromKeptFiles` | src/main.ts:466-487 | Every posted comment is on a path that is a key of the position map. That path also belongs to a file of the parsed diff that is not excluded and is reviewable. |
| `Pipeline.RunValidation` | src/main.ts:464-489 | The review is the resolution of the analysis of the filtered diff, and nothing is posted when that resolution is empty. A posted review is non-empty, and each of its comments comes from a kept, reviewable file and lands on a key of the position map. |
| `Pipeline.CommentOnShownLineResolves` | src/main.ts:307-346 | Take a comment whose path is that of the last file with that key, where some non-deleted change shows the comment's line. That comment always survives, at that change's position or at an earlier entry with the same line. |
| `Seqs.FilterMembers` | src/main.ts:471 | `filter` keeps an element iff it occurs in the input and the predicate accepts it. |
| `Seqs.FlattenMember` | src/main.ts:174 | Everything in `flat()` comes from one of the flattened lists. |

## Left out

- Network and API calls are not modelled. This covers `getPRDetails`, `getDiff`, `compareCommits`, `fetchCookbook`, `getAIResponse`'s OpenAI request with its JSON parsing, and `octokit.pulls.createReview`. Their results are parameters, or the point where the model stops.
- The choice between the `opened` and `synchronize` events, the `GITHUB_EVENT_PATH` read, the "no diff" early return, `process.exit` and the `catch`/rethrow blocks are I/O and control glue. They are left out.
- Concurrency is not modelled. `pLimit(5)` and the `Promise.all` fan-out are flattened to per-file results in file order, since `Promise.all` keeps input order.
- `createPrompt`, the default rules text and the `temperature`/`max_tokens` settings build prompt strings and nothing decides on them. They are left out.
- `minimatch`, `parse-diff` and the `./patterns` table are foreign code. They are a parameter, output datatypes and a datatype parameter.
- Console logging is left out.
- `Comments.AIResponse`: the model assumes every non-null answer has the declared shape, a `reviews` list of findings with integer line numbers. When the answer's content is null or blank, `getAIResponse` returns the parsed `{}` (src/main.ts:259). That object passes the null test (165), and `aiResponse.reviews.map` then throws (283). The same happens when `reviews` is not an array. The error passes through both `Promise.all` calls and `main`'s rethrow to `process.exit(1)`, so no review is posted for any file. The model has no such answer, so `RunValidation` always reaches a review decision.
- A `lineNumber` that is not an integer is not modelled. That covers a string or a fraction in the JSON. Under `===` such a comment matches no recorded line and is dropped.
- `Resolution.FindLine`: returns the index of the entry `find` would return, not the entry itself. `Resolve` reads the entry's position through that index.
- `'ln2' in change` tests whether the key exists, not its value. The model treats an absent `ln2` as a missing key, which is how `parse-diff` builds changes.
- dist/src/main.js is the compiled form of the same code and is not modelled separately. The exception is `createPrompt`, whose text differs there and is left out anyway.
- testing/src/migrations/1709584378_UpdateUserTable.ts is a migration fixture that only issues SQL. It is not part of this model.
