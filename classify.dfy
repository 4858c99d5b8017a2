/**
 Which changed files get reviewed: the exclude filter applied to the parsed
 diff in `main`, and `getFileType`, which sorts a path into dependency
 manifests, database migrations, or neither. Glob matching (`minimatch`) is
 a parameter `glob(path, pattern)`; nothing is assumed about it.
 */
module Classify {
  import opened Diff
  import opened Strings
  import opened Seqs

  /** One category of `FilePatterns`: glob patterns and file-name suffixes. */
  datatype PatternGroup = PatternGroup(patterns: seq<string>, fileTypes: seq<string>)

  /** The `FilePatterns` table: the dependency rules and the migration rules. */
  datatype FilePatterns = FilePatterns(dependency: PatternGroup, migration: PatternGroup)

  datatype FileType = Dependency | Migration | Ignored

  /** `patterns.some(pattern => glob(name, pattern))`. */
  function AnyGlob(name: string, patterns: seq<string>, glob: (string, string) -> bool): (r: bool)
    ensures r <==> exists i :: 0 <= i < |patterns| && glob(name, patterns[i])
  {
    if patterns == [] then false
    else glob(name, patterns[0]) || AnyGlob(name, patterns[1..], glob)
  }

  /** `fileTypes.some(ext => name.endsWith(ext))`. */
  function AnySuffix(name: string, fileTypes: seq<string>): (r: bool)
    ensures r <==> exists i :: 0 <= i < |fileTypes| && EndsWith(name, fileTypes[i])
  {
    if fileTypes == [] then false
    else EndsWith(name, fileTypes[0]) || AnySuffix(name, fileTypes[1..])
  }

  /** A group matches when one of its globs or one of its suffixes does. */
  predicate GroupMatches(name: string, group: PatternGroup, glob: (string, string) -> bool) {
    AnyGlob(name, group.patterns, glob) || AnySuffix(name, group.fileTypes)
  }

  /** `getFileType`: the dependency rules are tried first, then the migration
      rules; a path matching neither is ignored. */
  function GetFileType(filename: string, patterns: FilePatterns, glob: (string, string) -> bool): (r: FileType)
    ensures r == Dependency <==> GroupMatches(filename, patterns.dependency, glob)
    ensures r == Migration <==>
      !GroupMatches(filename, patterns.dependency, glob) && GroupMatches(filename, patterns.migration, glob)
    ensures r == Ignored <==>
      !GroupMatches(filename, patterns.dependency, glob) && !GroupMatches(filename, patterns.migration, glob)
  {
    if GroupMatches(filename, patterns.dependency, glob) then Dependency
    else if GroupMatches(filename, patterns.migration, glob) then Migration
    else Ignored
  }

  /** A classification rule of an ordered rule table, as an independent
      reference for `GetFileType`. */
  datatype Rule = GlobRule(pattern: string, fileType: FileType) | SuffixRule(suffix: string, fileType: FileType)

  predicate RuleMatches(rule: Rule, name: string, glob: (string, string) -> bool) {
    match rule
    case GlobRule(p, _) => glob(name, p)
    case SuffixRule(x, _) => EndsWith(name, x)
  }

  /** The type of the first rule that matches, else `Ignored`. */
  function FirstMatch(rules: seq<Rule>, name: string, glob: (string, string) -> bool): FileType {
    if rules == [] then Ignored
    else if RuleMatches(rules[0], name, glob) then rules[0].fileType
    else FirstMatch(rules[1..], name, glob)
  }

  /** The rules of one group, globs before suffixes, all giving `t`. */
  function GroupRules(group: PatternGroup, t: FileType): seq<Rule> {
    seq(|group.patterns|, i requires 0 <= i < |group.patterns| => GlobRule(group.patterns[i], t))
      + seq(|group.fileTypes|, i requires 0 <= i < |group.fileTypes| => SuffixRule(group.fileTypes[i], t))
  }

  /** The table `getFileType` walks: dependency rules, then migration rules. */
  function RuleTable(patterns: FilePatterns): seq<Rule> {
    GroupRules(patterns.dependency, Dependency) + GroupRules(patterns.migration, Migration)
  }

  /** First match over a concatenation: the front part decides when it matches at all. */
  lemma {:induction false} FirstMatchAppend(a: seq<Rule>, b: seq<Rule>, name: string, glob: (string, string) -> bool)
    ensures (exists i :: 0 <= i < |a| && RuleMatches(a[i], name, glob)) ==>
      FirstMatch(a + b, name, glob) == FirstMatch(a, name, glob)
    ensures (forall i :: 0 <= i < |a| ==> !RuleMatches(a[i], name, glob)) ==>
      FirstMatch(a + b, name, glob) == FirstMatch(b, name, glob)
  {
    if a == [] {
      assert a + b == b;
    } else {
      FirstMatchAppend(a[1..], b, name, glob);
      assert (a + b)[1..] == a[1..] + b;
      assert (a + b)[0] == a[0];
      assert forall i :: 1 <= i < |a| ==> a[i] == a[1..][i - 1];
    }
  }

  /** Rules that all give `t`: the first match is `t` exactly when one matches. */
  lemma {:induction false} FirstMatchUniform(rules: seq<Rule>, t: FileType, name: string, glob: (string, string) -> bool)
    requires forall i :: 0 <= i < |rules| ==> rules[i].fileType == t
    ensures (exists i :: 0 <= i < |rules| && RuleMatches(rules[i], name, glob)) ==> FirstMatch(rules, name, glob) == t
    ensures (forall i :: 0 <= i < |rules| ==> !RuleMatches(rules[i], name, glob)) ==> FirstMatch(rules, name, glob) == Ignored
  {
    if rules != [] {
      FirstMatchUniform(rules[1..], t, name, glob);
      assert forall i :: 1 <= i < |rules| ==> rules[i] == rules[1..][i - 1];
    }
  }

  /** A group's rules match exactly when the group matches. */
  lemma GroupRulesMatch(group: PatternGroup, t: FileType, name: string, glob: (string, string) -> bool)
    ensures forall i :: 0 <= i < |GroupRules(group, t)| ==> GroupRules(group, t)[i].fileType == t
    ensures (exists i :: 0 <= i < |GroupRules(group, t)| && RuleMatches(GroupRules(group, t)[i], name, glob))
      <==> GroupMatches(name, group, glob)
  {
    var rules := GroupRules(group, t);
    var n := |group.patterns|;
    if GroupMatches(name, group, glob) {
      if AnyGlob(name, group.patterns, glob) {
        var i :| 0 <= i < n && glob(name, group.patterns[i]);
        assert RuleMatches(rules[i], name, glob);
      } else {
        var i :| 0 <= i < |group.fileTypes| && EndsWith(name, group.fileTypes[i]);
        assert RuleMatches(rules[n + i], name, glob);
      }
    }
    if exists i :: 0 <= i < |rules| && RuleMatches(rules[i], name, glob) {
      var i :| 0 <= i < |rules| && RuleMatches(rules[i], name, glob);
      if i < n {
        assert glob(name, group.patterns[i]);
      } else {
        assert EndsWith(name, group.fileTypes[i - n]);
      }
    }
  }

  /** `getFileType` is the first-match reading of the ordered rule table. */
  lemma GetFileTypeIsFirstMatch(filename: string, patterns: FilePatterns, glob: (string, string) -> bool)
    ensures GetFileType(filename, patterns, glob) == FirstMatch(RuleTable(patterns), filename, glob)
  {
    var dep := GroupRules(patterns.dependency, Dependency);
    var mig := GroupRules(patterns.migration, Migration);
    GroupRulesMatch(patterns.dependency, Dependency, filename, glob);
    GroupRulesMatch(patterns.migration, Migration, filename, glob);
    FirstMatchAppend(dep, mig, filename, glob);
    FirstMatchUniform(dep, Dependency, filename, glob);
    FirstMatchUniform(mig, Migration, filename, glob);
  }

  /** The exclude patterns of `main`: the `exclude` input split on commas,
      each piece trimmed. An empty input still gives one pattern, "". */
  function ExcludePatterns(exclude: string): (patterns: seq<string>)
    ensures |patterns| == Occurrences(exclude, ',') + 1
    ensures forall i :: 0 <= i < |patterns| ==> patterns[i] == Trim(Split(exclude, ',')[i])
  {
    var parts := Split(exclude, ',');
    seq(|parts|, i requires 0 <= i < |parts| => Trim(parts[i]))
  }

  /** A file is excluded when some pattern globs its path (`file.to ?? ""`). */
  predicate IsExcluded(f: DiffFile, patterns: seq<string>, glob: (string, string) -> bool) {
    AnyGlob(PathOf(f), patterns, glob)
  }

  /** `parsedDiff.filter(file => !excluded)`. */
  function FilterExcluded(files: seq<DiffFile>, patterns: seq<string>, glob: (string, string) -> bool): seq<DiffFile> {
    Filter(files, f => !IsExcluded(f, patterns, glob))
  }

  /** A file is kept exactly when it is in the diff and no pattern excludes it. */
  lemma FilterExcludedMembers(files: seq<DiffFile>, patterns: seq<string>, glob: (string, string) -> bool)
    ensures forall f :: f in FilterExcluded(files, patterns, glob) <==> f in files && !IsExcluded(f, patterns, glob)
  {
    FilterMembers(files, f => !IsExcluded(f, patterns, glob));
  }

  /** Kept files keep their order: filtering distributes over concatenation. */
  lemma FilterExcludedAppend(a: seq<DiffFile>, b: seq<DiffFile>, patterns: seq<string>, glob: (string, string) -> bool)
    ensures FilterExcluded(a + b, patterns, glob) == FilterExcluded(a, patterns, glob) + FilterExcluded(b, patterns, glob)
  {
    FilterAppend(a, b, f => !IsExcluded(f, patterns, glob));
  }
}
