/**
 * The two file enumerators of env/dev/shared.ts. `getAllFiles` walks the
 * directory tree and `getChangedFiles` asks git for changed and untracked
 * files; both drop what the ignore patterns match.
 *
 * What the file system and git answer is passed in: the `.gitignore` text
 * (`None` when it cannot be read), the recursive directory listing (`None`
 * when it cannot be read) and one command result per git query. Every run also
 * returns the log of the I/O calls it made, in order, so that the model can say
 * which calls a failure prevents.
 */
module Files {
  import opened Wrappers
  import opened JsText
  import opened Seqs
  import opened Ignore

  /** A `Dirent` from the recursive `readdir`: the directory it is in, its name, and whether it is a file. */
  datatype Entry = Entry(parentPath: string, name: string, isFile: bool)

  /** What `executeCommand` reports: the exit status as a flag, and the trimmed standard output. */
  datatype CommandResult = CommandResult(success: bool, stdout: string)

  datatype IoCall = ReadFile(path: string) | ReadDir(path: string) | Exec(command: string)

  /** A rejected promise: an I/O error, or one of the errors thrown after a failed git query. */
  datatype Failure = ReadFailed(path: string) | CommandFailed(message: string)

  /** The outcome of a run and the I/O calls it made. */
  datatype Run<+T> = Run(result: Result<T, Failure>, io: seq<IoCall>)

  /** `path.join(a, b)` for a relative `b`, without normalisation. */
  function PathJoin(a: string, b: string): string {
    if a == [] then b else a + "/" + b
  }

  const DiffFailedMessage: string := "Failed to get changed files from git"
  const UntrackedFailedMessage: string := "Failed to get untracked files from git"

  function GitignorePath(rootDir: string): string {
    PathJoin(rootDir, ".gitignore")
  }

  function DiffCommand(rootDir: string): string {
    "cd \"" + rootDir + "\" && git diff --name-only --diff-filter=ACM HEAD"
  }

  function UntrackedCommand(rootDir: string): string {
    "cd \"" + rootDir + "\" && git ls-files --others --exclude-standard"
  }

  /** The `.gitignore` text holds only patterns inside the modelled fragment. */
  predicate LiteralGitignore(gitignore: Option<string>) {
    gitignore.Some? ==> AllLiteral(GitignoreLines(gitignore.value))
  }

  /** `getIgnorePatterns(rootDir, ignorePatterns)`: reads `<rootDir>/.gitignore` and builds the list. */
  function GetIgnorePatterns(rootDir: string, extras: seq<Pattern>, gitignore: Option<string>): Run<seq<Pattern>>
    requires LiteralGitignore(gitignore)
  {
    var io := [ReadFile(GitignorePath(rootDir))];
    match gitignore
    case None => Run(Err(ReadFailed(GitignorePath(rootDir))), io)
    case Some(content) => Run(Ok(IgnorePatterns(extras, content)), io)
  }

  function NotIgnoredBy(patterns: seq<Pattern>): string -> bool {
    f => !IsIgnored(f, patterns)
  }

  predicate IsFileEntry(e: Entry) {
    e.isFile
  }

  function EntryPath(e: Entry): string {
    PathJoin(e.parentPath, e.name)
  }

  /** The `filter(isFile) / map(join) / filter(!isIgnored)` pipeline of `getAllFiles`. */
  function ListedFiles(entries: seq<Entry>, patterns: seq<Pattern>): seq<string> {
    Filter(MapSeq(Filter(entries, IsFileEntry), EntryPath), NotIgnoredBy(patterns))
  }

  /** `getAllFiles(rootDir, ignorePatterns)`: the pattern list first, then the directory walk. */
  function GetAllFiles(rootDir: string, extras: seq<Pattern>, gitignore: Option<string>,
                       listing: Option<seq<Entry>>): Run<seq<string>>
    requires LiteralGitignore(gitignore)
  {
    var loaded := GetIgnorePatterns(rootDir, extras, gitignore);
    match loaded.result
    case Err(e) => Run(Err(e), loaded.io)
    case Ok(patterns) =>
      var io := loaded.io + [ReadDir(rootDir)];
      match listing
      case None => Run(Err(ReadFailed(rootDir)), io)
      case Some(entries) => Run(Ok(ListedFiles(entries, patterns)), io)
  }

  /** `line.trim()` is truthy. */
  predicate IsNonBlank(line: string) {
    Trim(line) != []
  }

  function JoinTo(rootDir: string): string -> string {
    line => PathJoin(rootDir, line)
  }

  /**
   * The `filter(trim) / map(join) / filter(!isIgnored)` pipeline applied to
   * the lines of a git query's output, one line at a time: a non-blank line
   * is joined, untrimmed, to the root and kept unless a pattern matches it.
   * `QueryPathsPipeline` shows this is the three-stage pipeline.
   */
  function QueryPaths(rootDir: string, lines: seq<string>, patterns: seq<Pattern>): seq<string>
    decreases |lines|
  {
    if lines == [] then []
    else
      var path := PathJoin(rootDir, lines[0]);
      (if IsNonBlank(lines[0]) && !IsIgnored(path, patterns) then [path] else [])
      + QueryPaths(rootDir, lines[1..], patterns)
  }

  /**
   * `getChangedFiles(rootDir, ignorePatterns)`: the pattern list, then the
   * diff query and then the untracked query, each failure ending the run; the
   * answer is `[...new Set([...changedFiles, ...untrackedFiles])]`.
   */
  function GetChangedFiles(rootDir: string, extras: seq<Pattern>, gitignore: Option<string>,
                           diff: CommandResult, untracked: CommandResult): Run<seq<string>>
    requires LiteralGitignore(gitignore)
  {
    var loaded := GetIgnorePatterns(rootDir, extras, gitignore);
    match loaded.result
    case Err(e) => Run(Err(e), loaded.io)
    case Ok(patterns) =>
      var afterDiff := loaded.io + [Exec(DiffCommand(rootDir))];
      if !diff.success then Run(Err(CommandFailed(DiffFailedMessage)), afterDiff)
      else
        var changedFiles := QueryPaths(rootDir, Split(diff.stdout, '\n'), patterns);
        var afterUntracked := afterDiff + [Exec(UntrackedCommand(rootDir))];
        if !untracked.success then Run(Err(CommandFailed(UntrackedFailedMessage)), afterUntracked)
        else
          var untrackedFiles := QueryPaths(rootDir, Split(untracked.stdout, '\n'), patterns);
          Run(Ok(Dedup(changedFiles + untrackedFiles)), afterUntracked)
  }

  // ---------------------------------------------------------------------------
  // The pattern list

  /** Reading `.gitignore` is the one I/O call; a missing file rejects, otherwise the list is as built. */
  lemma GetIgnorePatternsSpec(rootDir: string, extras: seq<Pattern>, gitignore: Option<string>)
    requires LiteralGitignore(gitignore)
    ensures var r := GetIgnorePatterns(rootDir, extras, gitignore);
            && r.io == [ReadFile(PathJoin(rootDir, ".gitignore"))]
            && (r.result.Err? <==> gitignore.None?)
            && (gitignore.None? ==> r.result.error == ReadFailed(PathJoin(rootDir, ".gitignore")))
            && (gitignore.Some? ==> r.result.value[0] == ".git/"
                                    && r.result.value[1..1 + |extras|] == extras
                                    && r.result.value[1 + |extras|..] == GitignoreLines(gitignore.value))
  {
    if gitignore.Some? {
      IgnorePatternsLayout(extras, gitignore.value);
    }
  }

  /** A path that survives a pattern list holding `.git/` has no `.git` segment. */
  lemma KeptPathHasNoGitSegment(f: string, patterns: seq<Pattern>)
    requires GitDirectory in patterns && !IsIgnored(f, patterns)
    requires NoLineTerminator(f)
    ensures forall i :: !CoversSegmentsAt(f, ".git", i)
  {
    GitDirectoryMatch(f);
    IsIgnoredMonotone(f, [GitDirectory], patterns);
    IsIgnoredSpec(f, [GitDirectory]);
  }

  // ---------------------------------------------------------------------------
  // getAllFiles

  /**
   * The walk happens only once `.gitignore` has been read; either read
   * failing rejects with its error, and otherwise the answer is the pipeline.
   */
  lemma GetAllFilesSpec(rootDir: string, extras: seq<Pattern>, gitignore: Option<string>,
                        listing: Option<seq<Entry>>)
    requires LiteralGitignore(gitignore)
    ensures var r := GetAllFiles(rootDir, extras, gitignore, listing);
            && (gitignore.None? ==> r == Run(Err(ReadFailed(GitignorePath(rootDir))), [ReadFile(GitignorePath(rootDir))]))
            && (gitignore.Some? ==> r.io == [ReadFile(GitignorePath(rootDir)), ReadDir(rootDir)])
            && (gitignore.Some? && listing.None? ==> r.result == Err(ReadFailed(rootDir)))
            && (gitignore.Some? && listing.Some? ==>
                  r.result == Ok(ListedFiles(listing.value, IgnorePatterns(extras, gitignore.value))))
  {
  }

  /** A path is listed exactly when a file entry joins to it and no pattern matches it. */
  lemma ListedFilesMember(entries: seq<Entry>, patterns: seq<Pattern>, f: string)
    ensures f in ListedFiles(entries, patterns) <==>
            (exists e :: e in entries && e.isFile && EntryPath(e) == f) && !IsIgnored(f, patterns)
  {
    MapSeqMember(Filter(entries, IsFileEntry), EntryPath, f);
  }

  /** The listing is processed entry by entry: the output keeps the directory-listing order. */
  lemma ListedFilesAppend(a: seq<Entry>, b: seq<Entry>, patterns: seq<Pattern>)
    ensures ListedFiles(a + b, patterns) == ListedFiles(a, patterns) + ListedFiles(b, patterns)
  {
    FilterAppend(a, b, IsFileEntry);
    MapSeqAppend(Filter(a, IsFileEntry), Filter(b, IsFileEntry), EntryPath);
    FilterAppend(MapSeq(Filter(a, IsFileEntry), EntryPath), MapSeq(Filter(b, IsFileEntry), EntryPath), NotIgnoredBy(patterns));
  }

  /** One entry contributes its joined path if it is a file that is not ignored, and nothing otherwise. */
  lemma ListedFilesSingle(e: Entry, patterns: seq<Pattern>)
    ensures ListedFiles([e], patterns) == if e.isFile && !IsIgnored(EntryPath(e), patterns) then [EntryPath(e)] else []
  {
    assert [e][1..] == [];
  }

  /** No listed path has a `.git` segment. */
  lemma ListedFilesSkipGit(entries: seq<Entry>, extras: seq<Pattern>, content: string, f: string)
    requires AllLiteral(GitignoreLines(content))
    requires f in ListedFiles(entries, IgnorePatterns(extras, content)) && NoLineTerminator(f)
    ensures forall i :: !CoversSegmentsAt(f, ".git", i)
  {
    var patterns := IgnorePatterns(extras, content);
    assert patterns[0] == GitDirectory;
    KeptPathHasNoGitSegment(f, patterns);
  }

  // ---------------------------------------------------------------------------
  // getChangedFiles

  /** The query pipeline over `a + b` is the pipeline over `a` followed by the pipeline over `b`. */
  lemma QueryPipelineAppend(rootDir: string, a: seq<string>, b: seq<string>, patterns: seq<Pattern>)
    ensures Filter(MapSeq(Filter(a + b, IsNonBlank), JoinTo(rootDir)), NotIgnoredBy(patterns))
            == Filter(MapSeq(Filter(a, IsNonBlank), JoinTo(rootDir)), NotIgnoredBy(patterns))
               + Filter(MapSeq(Filter(b, IsNonBlank), JoinTo(rootDir)), NotIgnoredBy(patterns))
  {
    FilterAppend(a, b, IsNonBlank);
    MapSeqAppend(Filter(a, IsNonBlank), Filter(b, IsNonBlank), JoinTo(rootDir));
    FilterAppend(MapSeq(Filter(a, IsNonBlank), JoinTo(rootDir)),
                 MapSeq(Filter(b, IsNonBlank), JoinTo(rootDir)), NotIgnoredBy(patterns));
  }

  /** One output line gives its joined path when it is not blank and the path is not ignored. */
  lemma QueryPipelineSingle(rootDir: string, line: string, patterns: seq<Pattern>)
    ensures Filter(MapSeq(Filter([line], IsNonBlank), JoinTo(rootDir)), NotIgnoredBy(patterns))
            == if IsNonBlank(line) && !IsIgnored(PathJoin(rootDir, line), patterns) then [PathJoin(rootDir, line)] else []
  {
    assert [line][1..] == [];
    if IsNonBlank(line) {
      var mapped := MapSeq([line], JoinTo(rootDir));
      assert mapped == [PathJoin(rootDir, line)];
      assert mapped[1..] == [];
    }
  }

  /** Line by line is the same as stage by stage. */
  lemma {:induction false} QueryPathsPipeline(rootDir: string, lines: seq<string>, patterns: seq<Pattern>)
    ensures QueryPaths(rootDir, lines, patterns)
            == Filter(MapSeq(Filter(lines, IsNonBlank), JoinTo(rootDir)), NotIgnoredBy(patterns))
    decreases |lines|
  {
    if lines != [] {
      var line := lines[0];
      var rest := lines[1..];
      var path := PathJoin(rootDir, line);
      var head := if IsNonBlank(line) && !IsIgnored(path, patterns) then [path] else [];
      assert QueryPaths(rootDir, lines, patterns) == head + QueryPaths(rootDir, rest, patterns);
      QueryPathsPipeline(rootDir, rest, patterns);
      assert lines == [line] + rest;
      QueryPipelineAppend(rootDir, [line], rest, patterns);
      QueryPipelineSingle(rootDir, line, patterns);
    }
  }

  /**
   * A path comes out of a git query exactly when some non-blank output line,
   * joined untrimmed to the root, gives it and no pattern matches it.
   */
  lemma QueryPathsMember(rootDir: string, stdout: string, patterns: seq<Pattern>, f: string)
    ensures f in QueryPaths(rootDir, Split(stdout, '\n'), patterns) <==>
            (exists line :: line in Split(stdout, '\n') && !AllWhitespace(line) && PathJoin(rootDir, line) == f)
            && !IsIgnored(f, patterns)
  {
    var lines := Split(stdout, '\n');
    QueryPathsPipeline(rootDir, lines, patterns);
    var kept := Filter(lines, IsNonBlank);
    MapSeqMember(kept, JoinTo(rootDir), f);
    forall line ensures IsNonBlank(line) <==> !AllWhitespace(line) {
      TrimBlank(line);
    }
  }

  /** If the `.gitignore` read fails, neither query runs. */
  lemma GetChangedFilesNoGitignore(rootDir: string, extras: seq<Pattern>, diff: CommandResult, untracked: CommandResult)
    ensures GetChangedFiles(rootDir, extras, None, diff, untracked)
            == Run(Err(ReadFailed(GitignorePath(rootDir))), [ReadFile(GitignorePath(rootDir))])
  {
  }

  /** If the diff query fails the run rejects with its message and the untracked query is never run. */
  lemma GetChangedFilesDiffFails(rootDir: string, extras: seq<Pattern>, content: string,
                                 diff: CommandResult, untracked: CommandResult)
    requires AllLiteral(GitignoreLines(content)) && !diff.success
    ensures var r := GetChangedFiles(rootDir, extras, Some(content), diff, untracked);
            && r.result == Err(CommandFailed("Failed to get changed files from git"))
            && r.io == [ReadFile(GitignorePath(rootDir)), Exec(DiffCommand(rootDir))]
            && Exec(UntrackedCommand(rootDir)) !in r.io
  {
    assert |DiffCommand(rootDir)| != |UntrackedCommand(rootDir)|;
  }

  /** If only the untracked query fails the run rejects with its message, after both queries ran. */
  lemma GetChangedFilesUntrackedFails(rootDir: string, extras: seq<Pattern>, content: string,
                                      diff: CommandResult, untracked: CommandResult)
    requires AllLiteral(GitignoreLines(content)) && diff.success && !untracked.success
    ensures var r := GetChangedFiles(rootDir, extras, Some(content), diff, untracked);
            && r.result == Err(CommandFailed("Failed to get untracked files from git"))
            && r.io == [ReadFile(GitignorePath(rootDir)), Exec(DiffCommand(rootDir)), Exec(UntrackedCommand(rootDir))]
  {
  }

  /**
   * When everything succeeds: no path twice; exactly the paths of either
   * query; the changed files first, in order, followed by the untracked files
   * the diff did not report, in order.
   */
  lemma GetChangedFilesSuccess(rootDir: string, extras: seq<Pattern>, content: string,
                               diff: CommandResult, untracked: CommandResult)
    requires AllLiteral(GitignoreLines(content)) && diff.success && untracked.success
    ensures var r := GetChangedFiles(rootDir, extras, Some(content), diff, untracked);
            var patterns := IgnorePatterns(extras, content);
            var changedFiles := QueryPaths(rootDir, Split(diff.stdout, '\n'), patterns);
            var untrackedFiles := QueryPaths(rootDir, Split(untracked.stdout, '\n'), patterns);
            && r.result.Ok?
            && NoDuplicates(r.result.value)
            && (forall f :: f in r.result.value <==> f in changedFiles || f in untrackedFiles)
            && r.result.value == Dedup(changedFiles) + Dedup(Filter(untrackedFiles, NotIn(changedFiles)))
  {
    var patterns := IgnorePatterns(extras, content);
    var changedFiles := QueryPaths(rootDir, Split(diff.stdout, '\n'), patterns);
    var untrackedFiles := QueryPaths(rootDir, Split(untracked.stdout, '\n'), patterns);
    DedupAppend(changedFiles, untrackedFiles, NotIn(changedFiles));
  }

  function NotIn(xs: seq<string>): string -> bool {
    x => x !in xs
  }

  /** The answer keeps first-occurrence order of the changed-then-untracked list. */
  lemma GetChangedFilesOrder(rootDir: string, extras: seq<Pattern>, content: string,
                             diff: CommandResult, untracked: CommandResult)
    requires AllLiteral(GitignoreLines(content)) && diff.success && untracked.success
    ensures var patterns := IgnorePatterns(extras, content);
            var all := QueryPaths(rootDir, Split(diff.stdout, '\n'), patterns) + QueryPaths(rootDir, Split(untracked.stdout, '\n'), patterns);
            var out := GetChangedFiles(rootDir, extras, Some(content), diff, untracked).result.value;
            forall i, j :: 0 <= i < j < |out| ==> FirstIndex(all, out[i]) < FirstIndex(all, out[j])
  {
    var patterns := IgnorePatterns(extras, content);
    var all := QueryPaths(rootDir, Split(diff.stdout, '\n'), patterns) + QueryPaths(rootDir, Split(untracked.stdout, '\n'), patterns);
    DedupOrder(all);
  }

  /** No reported changed path has a `.git` segment. */
  lemma ChangedFilesSkipGit(rootDir: string, extras: seq<Pattern>, content: string,
                            diff: CommandResult, untracked: CommandResult, f: string)
    requires AllLiteral(GitignoreLines(content)) && diff.success && untracked.success
    requires f in GetChangedFiles(rootDir, extras, Some(content), diff, untracked).result.value
    requires NoLineTerminator(f)
    ensures forall i :: !CoversSegmentsAt(f, ".git", i)
  {
    var patterns := IgnorePatterns(extras, content);
    assert patterns[0] == GitDirectory;
    GetChangedFilesSuccess(rootDir, extras, content, diff, untracked);
    QueryPathsMember(rootDir, diff.stdout, patterns, f);
    QueryPathsMember(rootDir, untracked.stdout, patterns, f);
    KeptPathHasNoGitSegment(f, patterns);
  }

  /**
   * Patterns are matched against the joined path, not the path relative to
   * the root: with the root `proj`, the root-relative `/build` does not ignore
   * `proj/build/x`, while the segment pattern `proj` matches it through the root's own
   * name.
   */
  lemma JoinedPathsAndAnchors(rootDir: string, rel: string, q: string)
    requires rootDir == "proj" && rel == "build/x" && q == "build"
    ensures !MatchesPattern(PathJoin(rootDir, rel), "/" + q)
    ensures MatchesPattern(PathJoin(rootDir, rel), rootDir)
  {
    var f := PathJoin(rootDir, rel);
    RootRelativeMatch(f, q);
    assert f[..|q| + 1] != q + "/" by {
      assert f[0] != (q + "/")[0];
    }
    SegmentPatternMatch(f, rootDir);
    assert CoversSegmentsAt(f, rootDir, 0);
  }
}
