/**
 The shape of a parsed unified diff, as the `parse-diff` library hands it to the
 action: a list of files, each a list of chunks, each a list of changes.
 Only the output shape of the parser is modelled, not the parser.
 */
module Diff {
  import opened Wrappers

  /** The three kinds of diff line: added, deleted, unchanged context. */
  datatype ChangeType = Add | Del | Normal

  /** One line of a chunk. `ln` is set on added and deleted lines, `ln1`/`ln2`
      (old and new line number) on context lines. */
  datatype DiffChange = DiffChange(
    kind: ChangeType,
    ln: Option<int>,
    ln1: Option<int>,
    ln2: Option<int>,
    content: string)

  datatype DiffChunk = DiffChunk(
    changes: seq<DiffChange>,
    content: string,
    oldStart: int,
    oldLines: int,
    newStart: int,
    newLines: int)

  /** `to` is the new path; the parser gives `null` when it has none and
      "/dev/null" for a deleted file. */
  datatype DiffFile = DiffFile(to: Option<string>, chunks: seq<DiffChunk>)

  /** `file.to || ''`, and equally `file.to ?? ""`: the two agree on every
      value of type `string | null`, since the only other falsy string is "". */
  function PathOf(f: DiffFile): string {
    match f.to
    case Some(s) => s
    case None => ""
  }

  /** The truthiness of `file.to`: present and non-empty. */
  predicate HasPath(f: DiffFile) {
    f.to.Some? && f.to.value != ""
  }
}
