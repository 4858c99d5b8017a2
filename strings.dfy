/**
 The three JavaScript string operations the action relies on, with
 JavaScript's semantics: `endsWith`, `split` on a one-character separator,
 and `trim`.
 */
module Strings {

  /** `s.endsWith(suffix)`; every string ends with "". */
  predicate EndsWith(s: string, suffix: string) {
    |suffix| <= |s| && s[|s| - |suffix|..] == suffix
  }

  /** The characters `String.prototype.trim` strips: the ECMAScript WhiteSpace
      set (tab, vertical tab, form feed, space, no-break space, byte order mark
      and the Unicode space separators) and the LineTerminator set. */
  const Trimmable: set<char> := {
    '\t', '\n', '\U{000B}', '\U{000C}', '\r', ' ', '\U{00A0}', '\U{1680}',
    '\U{2000}', '\U{2001}', '\U{2002}', '\U{2003}', '\U{2004}', '\U{2005}',
    '\U{2006}', '\U{2007}', '\U{2008}', '\U{2009}', '\U{200A}',
    '\U{2028}', '\U{2029}', '\U{202F}', '\U{205F}', '\U{3000}', '\U{FEFF}' }

  predicate IsTrimmable(c: char) {
    c in Trimmable
  }

  /** The number of occurrences of `c` in `s`. */
  function Occurrences(s: string, c: char): nat {
    if s == [] then 0 else (if s[0] == c then 1 else 0) + Occurrences(s[1..], c)
  }

  /** `s.split(sep)`: the pieces between separators, so "" gives [""] and a
      string with n separators gives n + 1 pieces, none holding `sep`. */
  function Split(s: string, sep: char): (parts: seq<string>)
    ensures |parts| == Occurrences(s, sep) + 1
    ensures forall i :: 0 <= i < |parts| ==> sep !in parts[i]
  {
    if s == [] then [""]
    else
      var rest := Split(s[1..], sep);
      if s[0] == sep then [""] + rest
      else [[s[0]] + rest[0]] + rest[1..]
  }

  /** `parts.join(sep)`, the inverse of `Split`. */
  function Join(parts: seq<string>, sep: char): string
    requires |parts| >= 1
  {
    if |parts| == 1 then parts[0] else parts[0] + [sep] + Join(parts[1..], sep)
  }

  /** Joining the pieces again gives back the original string. */
  lemma {:induction false} JoinSplit(s: string, sep: char)
    ensures Join(Split(s, sep), sep) == s
  {
    if s != [] {
      JoinSplit(s[1..], sep);
      var rest := Split(s[1..], sep);
      if s[0] != sep && |rest| > 1 {
        assert ([[s[0]] + rest[0]] + rest[1..])[1..] == rest[1..];
      }
    }
  }

  /** Splitting a join of separator-free pieces gives back the pieces. */
  lemma {:induction false} SplitJoin(parts: seq<string>, sep: char)
    requires |parts| >= 1
    requires forall i :: 0 <= i < |parts| ==> sep !in parts[i]
    ensures Split(Join(parts, sep), sep) == parts
  {
    if |parts| == 1 {
      SplitPiece(parts[0], sep);
    } else {
      SplitJoin(parts[1..], sep);
      SplitPrefix(parts[0], Join(parts[1..], sep), sep);
      assert [parts[0]] + parts[1..] == parts;
    }
  }

  /** A separator-free string is one piece. */
  lemma {:induction false} SplitPiece(w: string, sep: char)
    requires sep !in w
    ensures Split(w, sep) == [w]
  {
    if w != [] {
      SplitPiece(w[1..], sep);
      assert [w[0]] + w[1..] == w;
    }
  }

  /** Splitting `w + [sep] + t`, where `w` has no separator, puts `w` in front. */
  lemma {:induction false} SplitPrefix(w: string, t: string, sep: char)
    requires sep !in w
    ensures Split(w + [sep] + t, sep) == [w] + Split(t, sep)
  {
    if w == [] {
      assert w + [sep] + t == [sep] + t;
      assert ([sep] + t)[1..] == t;
    } else {
      var u := w + [sep] + t;
      SplitPrefix(w[1..], t, sep);
      assert u[0] == w[0] && u[1..] == w[1..] + [sep] + t;
      var rest := Split(u[1..], sep);
      assert rest == [w[1..]] + Split(t, sep);
      assert [w[0]] + w[1..] == w;
      assert Split(u, sep) == [[w[0]] + rest[0]] + rest[1..];
    }
  }

  /** The index of the first character at or after `i` that `trim` keeps. */
  function ContentStart(s: string, i: nat): (a: nat)
    requires i <= |s|
    ensures i <= a <= |s|
    ensures forall k :: i <= k < a ==> IsTrimmable(s[k])
    ensures a < |s| ==> !IsTrimmable(s[a])
    decreases |s| - i
  {
    if i < |s| && IsTrimmable(s[i]) then ContentStart(s, i + 1) else i
  }

  /** The end of the kept part when scanning back from `j`, never below `a`. */
  function ContentEnd(s: string, a: nat, j: nat): (b: nat)
    requires a <= j <= |s|
    ensures a <= b <= j
    ensures forall k :: b <= k < j ==> IsTrimmable(s[k])
    ensures a < b ==> !IsTrimmable(s[b - 1])
    decreases j
  {
    if a < j && IsTrimmable(s[j - 1]) then ContentEnd(s, a, j - 1) else j
  }

  /** The number of characters `trim` drops at the front of `s`. */
  function LeadingTrimmable(s: string): nat {
    ContentStart(s, 0)
  }

  /** `s.trim()`: the infix of `s` that neither starts nor ends with a
      trimmable character, everything around it being trimmable. */
  function Trim(s: string): (r: string)
    ensures LeadingTrimmable(s) + |r| <= |s|
    ensures r == s[LeadingTrimmable(s)..LeadingTrimmable(s) + |r|]
    ensures forall k :: 0 <= k < LeadingTrimmable(s) ==> IsTrimmable(s[k])
    ensures forall k :: LeadingTrimmable(s) + |r| <= k < |s| ==> IsTrimmable(s[k])
    ensures r != [] ==> !IsTrimmable(r[0]) && !IsTrimmable(r[|r| - 1])
  {
    var a := ContentStart(s, 0);
    var b := ContentEnd(s, a, |s|);
    s[a..b]
  }

  /** Trimming twice is trimming once. */
  lemma TrimIdempotent(s: string)
    ensures Trim(Trim(s)) == Trim(s)
  {
  }
}
