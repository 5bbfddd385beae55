/**
 * The ignore matcher of env/dev/shared.ts: a gitignore-style line is turned
 * into an anchored regular expression (matchesPattern), a path is ignored when
 * any pattern matches it (isIgnored), and the pattern list is `.git/`, the
 * caller's extra patterns and the cleaned `.gitignore` lines (getIgnorePatterns).
 *
 * The model covers literal patterns: no `*`, no `?` and no `§GLOBSTAR§` text.
 * For those the replace chain builds a regular expression whose body matches
 * exactly the pattern's own characters; `Regex` records that body as text.
 */
module Ignore {
  import opened Wrappers
  import opened JsText
  import opened Seqs

  /** The characters the first replace escapes with a backslash. */
  const RegexSpecial: set<char> := {'.', '+', '^', '$', '{', '}', '(', ')', '|', '[', ']', '\\'}

  /** The placeholder the globstar replace writes. */
  const Globstar: string := "§GLOBSTAR§"

  predicate IsLiteralPattern(p: string) {
    '*' !in p && '?' !in p && !Contains(p, Globstar)
  }

  /** An ignore pattern inside the modelled fragment. */
  type Pattern = p: string | IsLiteralPattern(p) witness ""

  // ---------------------------------------------------------------------------
  // Building the regular expression source

  /** `s.replace(/[.+^${}()|[\]\\]/g, "\\$&")`: a backslash before each special character. */
  function EscapeRegex(s: string): (r: string)
    ensures forall k :: 0 <= k < |r| ==> r[k] == '\\' || r[k] in s
  {
    if s == [] then []
    else
      var head := if s[0] in RegexSpecial then ['\\', s[0]] else [s[0]];
      var r := head + EscapeRegex(s[1..]);
      assert forall k :: 0 <= k < |r| - |head| ==> r[|head| + k] == EscapeRegex(s[1..])[k];
      r
  }

  /** The whole chain of replaces, applied to the pattern once its slashes are stripped. */
  function RegexSource(clean: string): string {
    var escaped := EscapeRegex(clean);
    var noGlobstar := ReplaceAll(escaped, "\\*\\*", Globstar);
    var noStar := ReplaceAll(noGlobstar, "\\*", "[^/]*");
    var anyDepth := ReplaceAll(noStar, Globstar, ".*");
    ReplaceAll(anyDepth, "\\?", "[^/]")
  }

  /**
   * The text matched by a regular expression source made only of escaped
   * special characters and ordinary characters; `None` for a source holding
   * an operator (a quantifier, a group, a class, an anchor), which is outside
   * the fragment modelled here.
   */
  function RegexLiteral(src: string): Option<string>
    decreases |src|
  {
    if src == [] then Some([])
    else if src[0] == '\\' then
      if |src| >= 2 && (src[1] in RegexSpecial || src[1] in {'*', '?', '/'}) then
        match RegexLiteral(src[2..])
        case Some(rest) => Some([src[1]] + rest)
        case None => None
      else None
    else if src[0] in RegexSpecial || src[0] in {'*', '?'} then None
    else
      match RegexLiteral(src[1..])
      case Some(rest) => Some([src[0]] + rest)
      case None => None
  }

  /** An escaped literal matches its own text: every special character matches only itself. */
  lemma {:induction false} LiteralOfEscape(s: string)
    requires '*' !in s && '?' !in s
    ensures RegexLiteral(EscapeRegex(s)) == Some(s)
  {
    if s != [] {
      LiteralOfEscape(s[1..]);
      var rest := EscapeRegex(s[1..]);
      if s[0] in RegexSpecial {
        assert EscapeRegex(s) == ['\\', s[0]] + rest;
        assert EscapeRegex(s)[2..] == rest;
      } else {
        assert EscapeRegex(s) == [s[0]] + rest;
        assert EscapeRegex(s)[1..] == rest;
      }
      assert [s[0]] + s[1..] == s;
    }
  }

  /** A prefix of an escaped string that holds no special character is a prefix of the string itself. */
  lemma {:induction false} EscapePrefix(s: string, t: string)
    requires forall k :: 0 <= k < |t| ==> t[k] !in RegexSpecial
    requires OccursAt(EscapeRegex(s), t, 0)
    ensures OccursAt(s, t, 0)
  {
    if t != [] && s != [] {
      var rest := EscapeRegex(s[1..]);
      assert EscapeRegex(s)[0] == t[0];
      assert s[0] !in RegexSpecial;
      assert EscapeRegex(s) == [s[0]] + rest;
      {
        assert rest[0..|t| - 1] == EscapeRegex(s)[1..|t|];
        assert t[1..] == EscapeRegex(s)[1..|t|];
        EscapePrefix(s[1..], t[1..]);
        assert s[0..|t|] == [s[0]] + s[1..][0..|t| - 1];
      }
    }
  }

  /** An occurrence past the escape of the first character is an occurrence in the escape of the rest. */
  lemma EscapeShift(s: string, t: string, i: int)
    requires s != [] && OccursAt(EscapeRegex(s), t, i)
    requires i >= (if s[0] in RegexSpecial then 2 else 1)
    ensures OccursAt(EscapeRegex(s[1..]), t, i - (if s[0] in RegexSpecial then 2 else 1))
  {
    var rest := EscapeRegex(s[1..]);
    var head := if s[0] in RegexSpecial then ['\\', s[0]] else [s[0]];
    assert EscapeRegex(s) == head + rest;
    SliceOfAppend(head, rest, i, i + |t|);
  }

  /** An occurrence in `s[1..]` is one in `s`. */
  lemma ContainsTail(s: string, t: string)
    requires s != [] && Contains(s[1..], t)
    ensures Contains(s, t)
  {
    var j :| 0 <= j <= |s[1..]| - |t| && OccursAt(s[1..], t, j);
    assert s[j + 1..j + 1 + |t|] == s[1..][j..j + |t|];
    assert OccursAt(s, t, j + 1);
  }

  /** Escaping creates no new occurrence of a text that holds no special character. */
  lemma {:induction false} EscapeOccurrence(s: string, t: string, i: int)
    requires t != [] && forall k :: 0 <= k < |t| ==> t[k] !in RegexSpecial
    requires OccursAt(EscapeRegex(s), t, i)
    ensures Contains(s, t)
    decreases |s|
  {
    var e := EscapeRegex(s);
    assert e[i] == t[0];
    var h := if s[0] in RegexSpecial then 2 else 1;
    if i >= h {
      EscapeShift(s, t, i);
      EscapeOccurrence(s[1..], t, i - h);
      ContainsTail(s, t);
    } else if h == 1 {
      EscapePrefix(s, t);
      assert OccursAt(s, t, 0);
    }
  }

  /** A replace whose text holds a character the string lacks changes nothing. */
  lemma ReplaceAbsentChar(s: string, from: string, to: string, c: char)
    requires c in from && c !in s
    ensures ReplaceAll(s, from, to) == s
  {
    ContainsChar(s, from, c);
    ReplaceAllAbsent(s, from, to);
  }

  /** The escape of a literal pattern holds no `§GLOBSTAR§` placeholder. */
  lemma EscapeNoGlobstar(clean: string)
    requires IsLiteralPattern(clean)
    ensures !Contains(EscapeRegex(clean), Globstar)
  {
    var escaped := EscapeRegex(clean);
    if Contains(escaped, Globstar) {
      var i :| 0 <= i <= |escaped| - |Globstar| && OccursAt(escaped, Globstar, i);
      EscapeOccurrence(clean, Globstar, i);
    }
  }

  /** On a literal pattern the four replaces after the escape find nothing to replace. */
  lemma RegexSourceOfLiteral(clean: string)
    requires IsLiteralPattern(clean)
    ensures RegexSource(clean) == EscapeRegex(clean)
  {
    var escaped := EscapeRegex(clean);
    assert '*' !in escaped && '?' !in escaped;
    ReplaceAbsentChar(escaped, "\\*\\*", Globstar, '*');
    ReplaceAbsentChar(escaped, "\\*", "[^/]*", '*');
    EscapeNoGlobstar(clean);
    ReplaceAllAbsent(escaped, Globstar, ".*");
    ReplaceAbsentChar(escaped, "\\?", "[^/]", '?');
  }

  lemma LiteralSlice(p: string, lo: int, hi: int)
    requires IsLiteralPattern(p) && 0 <= lo <= hi <= |p|
    ensures IsLiteralPattern(p[lo..hi])
  {
    var q := p[lo..hi];
    assert forall c :: c in q ==> c in p;
    forall i | 0 <= i <= |q| - |Globstar| ensures !OccursAt(q, Globstar, i) {
      assert !OccursAt(p, Globstar, lo + i);
      SliceOfSlice(p, lo, hi, i, i + |Globstar|);
    }
  }

  // ---------------------------------------------------------------------------
  // The compiled regular expression and how RegExp.prototype.test runs it

  /** The start of a compiled pattern: `^` (root-relative) or `(^|/)` (any segment). */
  datatype Anchor = PathStart | SegmentStart

  /** The regular expression `${anchor}${body}(/.*)?$`, where `body` matches exactly `literal`. */
  datatype Regex = Regex(anchor: Anchor, literal: string)

  predicate IsDirectoryPattern(p: string) {
    |p| > 0 && p[|p| - 1] == '/'
  }

  predicate IsRootRelative(p: string) {
    var clean := if IsDirectoryPattern(p) then p[..|p| - 1] else p;
    |clean| > 0 && clean[0] == '/'
  }

  /**
   * The regular expression `matchesPattern` builds: one trailing `/` and then
   * one leading `/` are stripped, each setting a flag, and the rest is the
   * body. Only the leading `/` changes the anchor.
   */
  function Compile(pattern: Pattern): (re: Regex)
    ensures re.anchor == if IsRootRelative(pattern) then PathStart else SegmentStart
    ensures pattern == (if IsRootRelative(pattern) then "/" else "") + re.literal
                       + (if IsDirectoryPattern(pattern) then "/" else "")
  {
    var isDirectoryPattern := IsDirectoryPattern(pattern);
    var hi := if isDirectoryPattern then |pattern| - 1 else |pattern|;
    var isRootRelative := hi > 0 && pattern[0] == '/';
    var lo := if isRootRelative then 1 else 0;
    var clean := pattern[lo..hi];
    LiteralSlice(pattern, lo, hi);
    RegexSourceOfLiteral(clean);
    LiteralOfEscape(clean);
    var literal := RegexLiteral(RegexSource(clean)).value;
    assert isRootRelative == IsRootRelative(pattern);
    assert literal == clean;
    assert pattern[..lo] == (if isRootRelative then "/" else "");
    assert pattern[hi..] == (if isDirectoryPattern then "/" else "");
    SliceAround(pattern, lo, hi);
    if isRootRelative then
      if isDirectoryPattern then Regex(PathStart, literal) else Regex(PathStart, literal)
    else
      if isDirectoryPattern then Regex(SegmentStart, literal) else Regex(SegmentStart, literal)
  }

  /** `.*$` from index `j`: `.` refuses line terminators and `$` is the end of input. */
  predicate RestOfLine(f: string, j: int)
    requires 0 <= j <= |f|
    decreases |f| - j
  {
    j == |f| || (!IsLineTerminator(f[j]) && RestOfLine(f, j + 1))
  }

  /** `(/.*)?$` from index `j`. */
  predicate SubtreeSuffix(f: string, j: int)
    requires 0 <= j <= |f|
  {
    j == |f| || (f[j] == '/' && RestOfLine(f, j + 1))
  }

  /** The body and then the suffix, from index `j`. */
  predicate BodyAt(re: Regex, f: string, j: int)
    requires 0 <= j <= |f|
  {
    j + |re.literal| <= |f| && f[j..j + |re.literal|] == re.literal && SubtreeSuffix(f, j + |re.literal|)
  }

  /** One attempt at start index `k`: `^` holds only at 0; `(^|/)` may also consume a `/` at `k`. */
  predicate MatchAt(re: Regex, f: string, k: int)
    requires 0 <= k <= |f|
  {
    || (k == 0 && BodyAt(re, f, 0))
    || (re.anchor == SegmentStart && k < |f| && f[k] == '/' && BodyAt(re, f, k + 1))
  }

  /** `re.test(f)` tries every start index from `k` on, left to right. */
  predicate TestFrom(re: Regex, f: string, k: int)
    requires 0 <= k <= |f|
    decreases |f| - k
  {
    MatchAt(re, f, k) || (k < |f| && TestFrom(re, f, k + 1))
  }

  predicate Test(re: Regex, f: string) {
    TestFrom(re, f, 0)
  }

  /** `matchesPattern(filePath, pattern)`. */
  predicate MatchesPattern(filePath: string, pattern: Pattern) {
    Test(Compile(pattern), filePath)
  }

  // ---------------------------------------------------------------------------
  // What a compiled pattern matches, stated without the search

  /** What `(/.*)?$` accepts: nothing, or a `/` followed by no line terminator. */
  predicate SubtreeRest(r: string) {
    r == [] || (r[0] == '/' && NoLineTerminator(r[1..]))
  }

  /** `p` occurs in `f` at `i`, where a segment starts, and what follows is a subtree or nothing. */
  predicate SegmentMatchAt(f: string, p: string, i: int) {
    && 0 <= i <= |f| - |p|
    && (i == 0 || f[i - 1] == '/')
    && f[i..i + |p|] == p
    && SubtreeRest(f[i + |p|..])
  }

  /** `p` covers whole segments of `f` from index `i` on. */
  predicate CoversSegmentsAt(f: string, p: string, i: int) {
    && 0 <= i <= |f| - |p|
    && (i == 0 || f[i - 1] == '/')
    && f[i..i + |p|] == p
    && (i + |p| == |f| || f[i + |p|] == '/')
  }

  lemma {:induction false} RestOfLineSpec(f: string, j: int)
    requires 0 <= j <= |f|
    ensures RestOfLine(f, j) <==> NoLineTerminator(f[j..])
    decreases |f| - j
  {
    if j < |f| {
      RestOfLineSpec(f, j + 1);
      assert f[j..][0] == f[j];
      assert f[j + 1..] == f[j..][1..];
    }
  }

  lemma BodyAtSpec(re: Regex, f: string, j: int)
    requires 0 <= j <= |f|
    ensures BodyAt(re, f, j) <==>
            (j + |re.literal| <= |f| && f[j..j + |re.literal|] == re.literal && SubtreeRest(f[j + |re.literal|..]))
  {
    var e := j + |re.literal|;
    if e < |f| {
      RestOfLineSpec(f, e + 1);
      assert f[e..][0] == f[e];
      assert f[e + 1..] == f[e..][1..];
    }
  }

  predicate Reachable(re: Regex, k: int, i: int) {
    (k == 0 && i == 0) || (re.anchor == SegmentStart && i > k)
  }

  /** One attempt at `k` succeeds exactly when the match index is 0 (from 0) or `k + 1` (after a `/`). */
  lemma MatchAtSpec(re: Regex, f: string, k: int)
    requires 0 <= k <= |f|
    ensures MatchAt(re, f, k) <==>
            || (k == 0 && SegmentMatchAt(f, re.literal, 0))
            || (re.anchor == SegmentStart && SegmentMatchAt(f, re.literal, k + 1))
  {
    BodyAtSpec(re, f, 0);
    if k < |f| {
      BodyAtSpec(re, f, k + 1);
    }
  }

  /** The search from `k` succeeds exactly when some match index can be reached from `k`. */
  lemma {:induction false} TestFromSpec(re: Regex, f: string, k: int)
    requires 0 <= k <= |f|
    ensures TestFrom(re, f, k) <==> exists i :: SegmentMatchAt(f, re.literal, i) && Reachable(re, k, i)
    decreases |f| - k
  {
    var p := re.literal;
    MatchAtSpec(re, f, k);
    if k < |f| {
      TestFromSpec(re, f, k + 1);
      assert TestFrom(re, f, k) == (MatchAt(re, f, k) || TestFrom(re, f, k + 1));
    } else {
      assert TestFrom(re, f, k) == MatchAt(re, f, k);
    }
    if TestFrom(re, f, k) && !MatchAt(re, f, k) {
      var i :| SegmentMatchAt(f, p, i) && Reachable(re, k + 1, i);
      assert Reachable(re, k, i);
    }
    if exists i :: SegmentMatchAt(f, p, i) && Reachable(re, k, i) {
      var i :| SegmentMatchAt(f, p, i) && Reachable(re, k, i);
      if i != 0 && i != k + 1 {
        assert Reachable(re, k + 1, i);
      }
    }
  }

  /**
   * `matchesPattern` holds exactly when the stripped pattern text occurs at
   * a segment start followed by a subtree or nothing; a root-relative
   * pattern only at index 0.
   */
  lemma MatchesPatternSpec(f: string, pattern: Pattern)
    ensures MatchesPattern(f, pattern) <==>
            exists i :: SegmentMatchAt(f, Compile(pattern).literal, i) && (!IsRootRelative(pattern) || i == 0)
  {
    var re := Compile(pattern);
    TestFromSpec(re, f, 0);
    if MatchesPattern(f, pattern) {
      var i :| SegmentMatchAt(f, re.literal, i) && Reachable(re, 0, i);
    }
    if exists i :: SegmentMatchAt(f, re.literal, i) && (!IsRootRelative(pattern) || i == 0) {
      var i :| SegmentMatchAt(f, re.literal, i) && (!IsRootRelative(pattern) || i == 0);
      assert Reachable(re, 0, i);
    }
  }

  /**
   * A pattern with no leading or trailing `/` matches a path without line
   * terminators exactly when it covers whole segments of it, at any depth.
   */
  lemma SegmentPatternMatch(f: string, p: Pattern)
    requires !IsDirectoryPattern(p) && (p == [] || p[0] != '/')
    requires NoLineTerminator(f)
    ensures MatchesPattern(f, p) <==> exists i :: CoversSegmentsAt(f, p, i)
  {
    MatchesPatternSpec(f, p);
    assert !IsRootRelative(p);
    assert Compile(p).literal == p;
    SegmentMatchIsCover(f, p);
  }

  lemma SegmentMatchIsCover(f: string, p: string)
    requires NoLineTerminator(f)
    ensures (exists i :: SegmentMatchAt(f, p, i)) <==> exists i :: CoversSegmentsAt(f, p, i)
  {
    if exists i :: SegmentMatchAt(f, p, i) {
      var i :| SegmentMatchAt(f, p, i);
      SubtreeRestOfLine(f, i + |p|);
      assert CoversSegmentsAt(f, p, i);
    }
    if exists i :: CoversSegmentsAt(f, p, i) {
      var i :| CoversSegmentsAt(f, p, i);
      SubtreeRestOfLine(f, i + |p|);
      assert SegmentMatchAt(f, p, i);
    }
  }

  /** On a path without line terminators, what follows a match only has to be nothing or a `/`. */
  lemma SubtreeRestOfLine(f: string, j: int)
    requires NoLineTerminator(f) && 0 <= j <= |f|
    ensures SubtreeRest(f[j..]) <==> (j == |f| || f[j] == '/')
  {
    var r := f[j..];
    if r != [] {
      assert r[0] == f[j];
      assert forall k :: 0 <= k < |r| - 1 ==> r[1..][k] == f[j + 1 + k];
    }
  }

  /**
   * For a non-empty `q` that does not end in `/`, the root-relative pattern
   * `/q` matches a path without line terminators exactly when the path is `q`
   * or lies under `q/`; never at a deeper segment.
   */
  lemma RootRelativeMatch(f: string, q: string)
    requires IsLiteralPattern("/" + q)
    requires q != [] && q[|q| - 1] != '/'
    requires NoLineTerminator(f)
    ensures MatchesPattern(f, "/" + q) <==> f == q || (|f| > |q| && f[..|q| + 1] == q + "/")
  {
    var p: Pattern := "/" + q;
    MatchesPatternSpec(f, p);
    assert IsRootRelative(p) && !IsDirectoryPattern(p);
    var re := Compile(p);
    assert p == "/" + re.literal;
    assert re.literal == p[1..] == q;
    if MatchesPattern(f, p) {
      assert SegmentMatchAt(f, q, 0);
    }
    RootSegmentMatch(f, q);
  }

  /** A match at index 0 is the whole path or its first segments. */
  lemma RootSegmentMatch(f: string, q: string)
    requires NoLineTerminator(f)
    ensures SegmentMatchAt(f, q, 0) <==> f == q || (|f| > |q| && f[..|q| + 1] == q + "/")
  {
    if |f| >= |q| {
      SubtreeRestOfLine(f, |q|);
      assert |f| > |q| ==> f[..|q| + 1] == f[..|q|] + [f[|q|]];
    }
  }

  /**
   * One `/` added to a pattern that does not already end in `/` never changes
   * what it matches (only one trailing `/` is stripped).
   */
  lemma DirectorySlashIrrelevant(f: string, q: Pattern)
    requires IsLiteralPattern(q + "/") && !IsDirectoryPattern(q)
    ensures MatchesPattern(f, q + "/") == MatchesPattern(f, q)
  {
    var p: Pattern := q + "/";
    assert p[..|p| - 1] == q;
    assert Compile(p) == Compile(q);
  }

  /** `.git/` matches a path without line terminators exactly when the path has a `.git` segment. */
  lemma GitDirectoryMatch(f: string)
    requires NoLineTerminator(f)
    ensures MatchesPattern(f, GitDirectory) <==> exists i :: CoversSegmentsAt(f, ".git", i)
  {
    var q: Pattern := ".git";
    assert GitDirectory == q + "/";
    SegmentPatternMatch(f, q);
    DirectorySlashIrrelevant(f, q);
  }

  /**
   * `.` refuses line terminators, so a carriage return after the `.git/`
   * segment keeps `.git/` from ignoring the path: `(/.*)?$` cannot reach its end.
   */
  lemma GitDirectoryMissesLineTerminator(f: string)
    requires f == ".git/a\rb"
    ensures !MatchesPattern(f, GitDirectory)
  {
    MatchesPatternSpec(f, GitDirectory);
    GitDirectoryBody();
    CarriageReturnStopsGit(f, ".git");
  }

  lemma GitDirectoryBody()
    ensures Compile(GitDirectory).literal == ".git"
  {
    var q: Pattern := ".git";
    assert GitDirectory == q + "/";
    assert Compile(GitDirectory) == Compile(q);
  }

  lemma CarriageReturnStopsGit(f: string, p: string)
    requires f == ".git/a\rb" && p == ".git"
    ensures forall i :: !SegmentMatchAt(f, p, i)
  {
    forall i | 0 <= i <= |f| - |p| ensures !SegmentMatchAt(f, p, i) {
      if i == 0 {
        assert f[4..][1..][1] == '\r';
      } else {
        assert f[i - 1] != '/';
      }
    }
  }

  // The examples below are stated on literal strings, but their helpers
  // (`XgitNotMatched`, `NestedGitMatched`, `DistMatchesSubtree`,
  // `DistToolsNotMatched`) take the strings through parameters pinned by a
  // `requires`: on literal arguments the solver unfolds the matcher's
  // definitions eagerly, which is far slower.

  /** `.` is literal: `.git` does not match `xgit`. */
  lemma DotIsLiteral()
    ensures !MatchesPattern("xgit", ".git")
  {
    XgitNotMatched(".git", "xgit");
  }

  lemma XgitNotMatched(q: Pattern, f: string)
    requires q == ".git" && f == "xgit"
    ensures !MatchesPattern(f, q)
  {
    SegmentPatternMatch(f, q);
    assert forall i :: !CoversSegmentsAt(f, q, i) by {
      forall i | 0 <= i <= 0 ensures !CoversSegmentsAt(f, q, i) {
        assert f[0] != q[0];
      }
    }
  }

  /** ... while `.git` does match a `.git` segment below the top. */
  lemma DotGitMatchesNested()
    ensures MatchesPattern("src/.git", ".git")
  {
    NestedGitMatched(".git", "src/.git");
  }

  lemma NestedGitMatched(q: Pattern, g: string)
    requires q == ".git" && g == "src/.git"
    ensures MatchesPattern(g, q)
  {
    SegmentPatternMatch(g, q);
    NestedGitCovered(q, g);
  }

  lemma NestedGitCovered(q: Pattern, g: string)
    requires q == ".git" && g == "src/.git"
    ensures CoversSegmentsAt(g, q, 4)
  {
  }

  /** Segment anchoring: `dist` matches `dist/out.js` but not `dist-tools/readme.md`. */
  lemma DistIsSegmentOnly()
    ensures MatchesPattern("dist/out.js", "dist") && !MatchesPattern("dist-tools/readme.md", "dist")
  {
    DistMatchesSubtree("dist", "dist/out.js");
    DistToolsNotMatched("dist", "dist-tools/readme.md");
  }

  lemma DistMatchesSubtree(q: Pattern, f: string)
    requires q == "dist" && f == "dist/out.js"
    ensures MatchesPattern(f, q)
  {
    SegmentPatternMatch(f, q);
    DistCovered(q, f);
  }

  lemma DistToolsNotMatched(q: Pattern, g: string)
    requires q == "dist" && g == "dist-tools/readme.md"
    ensures !MatchesPattern(g, q)
  {
    SegmentPatternMatch(g, q);
    DistToolsNotCovered(q, g);
  }

  lemma DistCovered(q: Pattern, f: string)
    requires q == "dist" && f == "dist/out.js"
    ensures CoversSegmentsAt(f, q, 0)
  {
  }

  lemma DistToolsNotCovered(q: Pattern, g: string)
    requires q == "dist" && g == "dist-tools/readme.md"
    ensures forall i :: !CoversSegmentsAt(g, q, i)
  {
    forall i | 0 <= i <= |g| - 4 ensures !CoversSegmentsAt(g, q, i) {
      if i == 0 {
        assert g[4] == '-';
      } else if i == 11 {
        assert g[11] == 'r';
      } else {
        assert g[i - 1] != '/';
      }
    }
  }

  // ---------------------------------------------------------------------------
  // isIgnored and getIgnorePatterns

  /** `patterns.some((pattern) => matchesPattern(filePath, pattern))`. */
  predicate IsIgnored(filePath: string, patterns: seq<Pattern>) {
    |patterns| > 0 && (MatchesPattern(filePath, patterns[0]) || IsIgnored(filePath, patterns[1..]))
  }

  /** A path is ignored exactly when some pattern of the list matches it; so never by the empty list. */
  lemma {:induction false} IsIgnoredSpec(filePath: string, patterns: seq<Pattern>)
    ensures IsIgnored(filePath, patterns) <==>
            exists i :: 0 <= i < |patterns| && MatchesPattern(filePath, patterns[i])
    ensures !IsIgnored(filePath, [])
    decreases |patterns|
  {
    if |patterns| > 0 {
      IsIgnoredSpec(filePath, patterns[1..]);
      if IsIgnored(filePath, patterns[1..]) {
        var i :| 0 <= i < |patterns| - 1 && MatchesPattern(filePath, patterns[1..][i]);
        assert MatchesPattern(filePath, patterns[i + 1]);
      }
      if exists i :: 0 <= i < |patterns| && MatchesPattern(filePath, patterns[i]) {
        var i :| 0 <= i < |patterns| && MatchesPattern(filePath, patterns[i]);
        if i > 0 {
          assert MatchesPattern(filePath, patterns[1..][i - 1]);
        }
      }
    }
  }

  /** Adding patterns never un-ignores a path, whatever their order. */
  lemma IsIgnoredMonotone(filePath: string, ps: seq<Pattern>, qs: seq<Pattern>)
    requires forall p :: p in ps ==> p in qs
    ensures IsIgnored(filePath, ps) ==> IsIgnored(filePath, qs)
  {
    IsIgnoredSpec(filePath, ps);
    IsIgnoredSpec(filePath, qs);
    if IsIgnored(filePath, ps) {
      var i :| 0 <= i < |ps| && MatchesPattern(filePath, ps[i]);
      var j := FirstIndex(qs, ps[i]);
    }
  }

  /** The built-in first pattern. */
  const GitDirectory: Pattern := ".git/"

  /** `line && !line.startsWith("#")`. */
  predicate IsPatternLine(line: string) {
    line != [] && line[0] != '#'
  }

  /** The `.gitignore` lines, trimmed, with blank lines and `#` comments dropped. */
  function GitignoreLines(content: string): seq<string> {
    Filter(MapSeq(Split(content, '\n'), Trim), IsPatternLine)
  }

  predicate AllLiteral(lines: seq<string>) {
    forall i :: 0 <= i < |lines| ==> IsLiteralPattern(lines[i])
  }

  /** The pattern list `getIgnorePatterns` returns once the `.gitignore` text is read. */
  function IgnorePatterns(extras: seq<Pattern>, content: string): seq<Pattern>
    requires AllLiteral(GitignoreLines(content))
  {
    var fromFile: seq<Pattern> := GitignoreLines(content);
    [GitDirectory] + extras + fromFile
  }

  /** The list is `.git/`, then the extras in the caller's order, then the file's lines. */
  lemma IgnorePatternsLayout(extras: seq<Pattern>, content: string)
    requires AllLiteral(GitignoreLines(content))
    ensures var ps := IgnorePatterns(extras, content);
            && |ps| == 1 + |extras| + |GitignoreLines(content)|
            && ps[0] == ".git/"
            && ps[1..1 + |extras|] == extras
            && ps[1 + |extras|..] == GitignoreLines(content)
  {
    var ps := IgnorePatterns(extras, content);
    assert ps[1..1 + |extras|] == extras;
  }

  /**
   * Every entry taken from `.gitignore` is trimmed, non-empty and not a
   * comment; an entry is taken exactly when some line trims to it; and the
   * entries keep the file's line order.
   */
  lemma GitignoreLinesSpec(content: string)
    ensures var lines := GitignoreLines(content);
            && (forall x :: x in lines ==> Trim(x) == x && x != [] && x[0] != '#')
            && (forall x :: x in lines <==>
                  IsPatternLine(x) && exists line :: line in Split(content, '\n') && Trim(line) == x)
            && IsSubsequence(lines, MapSeq(Split(content, '\n'), Trim))
  {
    var trimmed := MapSeq(Split(content, '\n'), Trim);
    forall x ensures x in trimmed <==> exists line :: line in Split(content, '\n') && Trim(line) == x {
      MapSeqMember(Split(content, '\n'), Trim, x);
    }
    forall x | x in GitignoreLines(content) ensures Trim(x) == x {
      var line :| line in Split(content, '\n') && Trim(line) == x;
      TrimIdempotent(line);
    }
  }
}
