/**
 The map from a file path to the diff positions of its commentable lines,
 built in `createReviewComment` before the review is posted.  The position
 the action records is the 1-based index of the change among all changes of
 the file's chunks, counted across chunk boundaries; the chunks' `@@` header
 lines are not counted.
 */
module Positions {
  import opened Wrappers
  import opened Diff

  /** One commentable line: its path key, its diff position and its line
      number in the new file (absent when the parser gave none). */
  datatype DiffPosition = DiffPosition(path: string, position: int, line: Option<int>)

  /** `'ln2' in change ? change.ln2 : change.ln`. */
  function LineOf(c: DiffChange): Option<int> {
    if c.ln2.Some? then c.ln2 else c.ln
  }

  /** All changes of the given chunks, chunk after chunk. */
  function Changes(chunks: seq<DiffChunk>): seq<DiffChange> {
    if chunks == [] then []
    else Changes(chunks[..|chunks| - 1]) + chunks[|chunks| - 1].changes
  }

  /** The entries recorded for the change list `cs`, where the change at index
      `i` carries position `i + 1`. */
  function Recorded(path: string, cs: seq<DiffChange>): seq<DiffPosition> {
    if cs == [] then []
    else
      var last := cs[|cs| - 1];
      Recorded(path, cs[..|cs| - 1])
        + (if last.kind == Del then [] else [DiffPosition(path, |cs|, LineOf(last))])
  }

  /** The number of changes that are not deletions. */
  function CountKept(cs: seq<DiffChange>): nat {
    if cs == [] then 0
    else CountKept(cs[..|cs| - 1]) + (if cs[|cs| - 1].kind == Del then 0 else 1)
  }

  /** The list stored for one file. */
  function FilePositions(f: DiffFile): seq<DiffPosition> {
    Recorded(PathOf(f), Changes(f.chunks))
  }

  /** The whole map: each file in turn sets its own key, so a later file with
      the same key replaces an earlier one. */
  function PositionMap(files: seq<DiffFile>): map<string, seq<DiffPosition>> {
    if files == [] then map[]
    else
      var last := files[|files| - 1];
      PositionMap(files[..|files| - 1])[PathOf(last) := FilePositions(last)]
  }

  /** Appending one chunk appends its changes. */
  lemma ChangesSnoc(chunks: seq<DiffChunk>, n: nat)
    requires n < |chunks|
    ensures Changes(chunks[..n + 1]) == Changes(chunks[..n]) + chunks[n].changes
  {
    assert chunks[..n + 1][..n] == chunks[..n];
  }

  /** Appending one change records at most one entry, with position the new length. */
  lemma RecordedSnoc(path: string, cs: seq<DiffChange>, c: DiffChange)
    ensures Recorded(path, cs + [c])
         == Recorded(path, cs) + (if c.kind == Del then [] else [DiffPosition(path, |cs| + 1, LineOf(c))])
  {
  }

  /** Every recorded entry carries the file's key, a position between 1 and the
      number of changes, and stands for a change that is not a deletion, whose
      new-file line it carries. */
  lemma {:induction false} RecordedEntry(path: string, cs: seq<DiffChange>, j: nat)
    requires j < |Recorded(path, cs)|
    ensures Recorded(path, cs)[j].path == path
    ensures 1 <= Recorded(path, cs)[j].position <= |cs|
    ensures cs[Recorded(path, cs)[j].position - 1].kind != Del
    ensures Recorded(path, cs)[j].line == LineOf(cs[Recorded(path, cs)[j].position - 1])
  {
    var init := cs[..|cs| - 1];
    if j < |Recorded(path, init)| {
      RecordedEntry(path, init, j);
      assert Recorded(path, cs)[j] == Recorded(path, init)[j];
      assert cs[Recorded(path, init)[j].position - 1] == init[Recorded(path, init)[j].position - 1];
    }
  }

  /** Entries appear in diff order: their positions strictly increase. */
  lemma {:induction false} RecordedIncreasing(path: string, cs: seq<DiffChange>)
    ensures forall j, l :: 0 <= j < l < |Recorded(path, cs)| ==>
      Recorded(path, cs)[j].position < Recorded(path, cs)[l].position
  {
    if cs != [] {
      var init := cs[..|cs| - 1];
      var last := cs[|cs| - 1];
      var p := Recorded(path, init);
      var r := Recorded(path, cs);
      RecordedIncreasing(path, init);
      assert r == p + (if last.kind == Del then [] else [DiffPosition(path, |cs|, LineOf(last))]);
      forall j, l | 0 <= j < l < |r|
        ensures r[j].position < r[l].position
      {
        assert r[j] == p[j];
        if l < |p| {
          assert r[l] == p[l];
        } else {
          RecordedEntry(path, init, j);
          assert r[l].position == |cs|;
        }
      }
    }
  }

  /** Every change that is not a deletion has an entry at its position. */
  lemma {:induction false} RecordedComplete(path: string, cs: seq<DiffChange>)
    ensures forall i :: 0 <= i < |cs| && cs[i].kind != Del ==>
      exists j :: 0 <= j < |Recorded(path, cs)| && Recorded(path, cs)[j].position == i + 1
  {
    if cs != [] {
      var init := cs[..|cs| - 1];
      var last := cs[|cs| - 1];
      RecordedComplete(path, init);
      assert Recorded(path, cs) == Recorded(path, init)
        + (if last.kind == Del then [] else [DiffPosition(path, |cs|, LineOf(last))]);
      forall i | 0 <= i < |cs| && cs[i].kind != Del
        ensures exists j :: 0 <= j < |Recorded(path, cs)| && Recorded(path, cs)[j].position == i + 1
      {
        if i < |init| {
          assert init[i] == cs[i];
          var j :| 0 <= j < |Recorded(path, init)| && Recorded(path, init)[j].position == i + 1;
          assert Recorded(path, cs)[j] == Recorded(path, init)[j];
        } else {
          var j := |Recorded(path, cs)| - 1;
          assert Recorded(path, cs)[j].position == i + 1;
        }
      }
    }
  }

  /** Exactly one entry per change that is not a deletion. */
  lemma {:induction false} RecordedCount(path: string, cs: seq<DiffChange>)
    ensures |Recorded(path, cs)| == CountKept(cs) <= |cs|
  {
    if cs != [] {
      RecordedCount(path, cs[..|cs| - 1]);
    }
  }

  /** The change at index `k` of chunk `c` sits, in the file's change list, right
      after all changes of the chunks before it: the counter does not reset. */
  lemma {:induction false} ChangesIndex(chunks: seq<DiffChunk>, c: nat, k: nat)
    requires c < |chunks| && k < |chunks[c].changes|
    ensures |Changes(chunks[..c])| + k < |Changes(chunks)|
    ensures Changes(chunks)[|Changes(chunks[..c])| + k] == chunks[c].changes[k]
  {
    var n := |chunks| - 1;
    assert chunks[..n + 1] == chunks;
    ChangesSnoc(chunks, n);
    if c < n {
      ChangesIndex(chunks[..n], c, k);
      assert chunks[..n][..c] == chunks[..c];
    }
  }

  /** A line of chunk `c` at index `k` that is not a deletion is recorded with
      position (number of changes in chunks 0..c-1) + k + 1. */
  lemma FilePositionOfChange(f: DiffFile, c: nat, k: nat)
    requires c < |f.chunks| && k < |f.chunks[c].changes|
    requires f.chunks[c].changes[k].kind != Del
    ensures exists j :: (0 <= j < |FilePositions(f)| &&
      FilePositions(f)[j] == DiffPosition(PathOf(f), |Changes(f.chunks[..c])| + k + 1, LineOf(f.chunks[c].changes[k])))
  {
    var cs := Changes(f.chunks);
    var r := Recorded(PathOf(f), cs);
    var i := |Changes(f.chunks[..c])| + k;
    ChangesIndex(f.chunks, c, k);
    assert cs[i] == f.chunks[c].changes[k];
    RecordedComplete(PathOf(f), cs);
    var j :| 0 <= j < |r| && r[j].position == i + 1;
    RecordedEntry(PathOf(f), cs, j);
    assert r[j].path == PathOf(f) && r[j].line == LineOf(cs[i]);
    assert r[j] == DiffPosition(PathOf(f), i + 1, LineOf(f.chunks[c].changes[k]));
    assert FilePositions(f) == r;
  }

  /** The map's keys are exactly the path keys of the parsed files. */
  lemma {:induction false} PositionMapKeys(files: seq<DiffFile>)
    ensures forall key :: key in PositionMap(files) <==>
      exists i :: 0 <= i < |files| && PathOf(files[i]) == key
  {
    if files != [] {
      var init := files[..|files| - 1];
      PositionMapKeys(init);
      forall key | key in PositionMap(files)
        ensures exists i :: 0 <= i < |files| && PathOf(files[i]) == key
      {
        if key != PathOf(files[|files| - 1]) {
          assert key in PositionMap(init);
          var i :| 0 <= i < |init| && PathOf(init[i]) == key;
          assert files[i] == init[i];
        }
      }
      forall key | exists i :: 0 <= i < |files| && PathOf(files[i]) == key
        ensures key in PositionMap(files)
      {
        var i :| 0 <= i < |files| && PathOf(files[i]) == key;
        if i < |init| {
          assert init[i] == files[i];
        }
      }
    }
  }

  /** A key holds the list of the LAST file with that key. */
  lemma {:induction false} PositionMapLastWins(files: seq<DiffFile>, i: nat)
    requires i < |files|
    requires forall j :: i < j < |files| ==> PathOf(files[j]) != PathOf(files[i])
    ensures PathOf(files[i]) in PositionMap(files)
    ensures PositionMap(files)[PathOf(files[i])] == FilePositions(files[i])
  {
    var n := |files| - 1;
    if i < n {
      var init := files[..n];
      assert init[i] == files[i];
      PositionMapLastWins(init, i);
    }
  }

  /**
   The imperative construction of `createReviewComment`: for every file a
   counter starts at 0, is incremented for every change of every chunk, and
   each change that is not a deletion is pushed with the counter's value; the
   file's list is then set under its path key.
   */
  method BuildDiffPositions(parsedDiff: seq<DiffFile>) returns (diffPositions: map<string, seq<DiffPosition>>)
    ensures diffPositions == PositionMap(parsedDiff)
  {
    diffPositions := map[];
    var fi := 0;
    while fi < |parsedDiff|
      invariant 0 <= fi <= |parsedDiff|
      invariant diffPositions == PositionMap(parsedDiff[..fi])
    {
      var file := parsedDiff[fi];
      var positions: seq<DiffPosition> := [];
      var position := 0;
      var ci := 0;
      while ci < |file.chunks|
        invariant 0 <= ci <= |file.chunks|
        invariant position == |Changes(file.chunks[..ci])|
        invariant positions == Recorded(PathOf(file), Changes(file.chunks[..ci]))
      {
        var chunk := file.chunks[ci];
        ghost var before := Changes(file.chunks[..ci]);
        var k := 0;
        assert before + chunk.changes[..k] == before;
        while k < |chunk.changes|
          invariant 0 <= k <= |chunk.changes|
          invariant position == |before| + k
          invariant positions == Recorded(PathOf(file), before + chunk.changes[..k])
        {
          var change := chunk.changes[k];
          position := position + 1;
          RecordedSnoc(PathOf(file), before + chunk.changes[..k], change);
          assert before + chunk.changes[..k + 1] == before + chunk.changes[..k] + [change];
          if change.kind != Del {
            positions := positions + [DiffPosition(PathOf(file), position, LineOf(change))];
          }
          k := k + 1;
        }
        assert chunk.changes[..k] == chunk.changes;
        ChangesSnoc(file.chunks, ci);
        ci := ci + 1;
      }
      assert file.chunks[..ci] == file.chunks;
      assert parsedDiff[..fi + 1][..fi] == parsedDiff[..fi];
      diffPositions := diffPositions[PathOf(file) := positions];
      fi := fi + 1;
    }
    assert parsedDiff[..fi] == parsedDiff;
  }
}
