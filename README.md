# Ignore-aware file enumeration, error flattening and the state store

This project models three parts of a small web application's code base in Dafny and proves properties of the model.

1. **The developer scripts' file enumeration** (`env/dev/shared.ts`).
   - `matchesPattern` turns a gitignore-style pattern into an anchored regular expression and tests a path against it.
   - `isIgnored` asks whether any pattern matches.
   - `getIgnorePatterns` builds the pattern list: `.git/`, then the caller's extra patterns, then the cleaned lines of `.gitignore`.
   - `getAllFiles` walks the directory tree and `getChangedFiles` asks git for changed and untracked files. Both drop the paths the pattern list ignores.
2. **`errorToFlatObject`** (`src/lib/errors.ts`). It flattens a thrown value into a record from field name to message.
3. **The client state store** (`src/lib/store.ts`). A proxy over the state record announces every real change with two events. `toggleSidebar` flips the sidebar flag through that proxy.

## Modules

- **`Wrappers`**: `Option` and `Result`.
- **`JsText`**: the JavaScript string built-ins the matcher relies on, written out:
  - `trim` and the JavaScript whitespace set;
  - `split` on one character, with `join` as its inverse;
  - a global `replace` of a fixed text;
  - the line terminators that `.` refuses.
- **`Seqs`**: `filter`, `map`, and `[...new Set(xs)]` as `Dedup`, with their laws.
- **`Ignore`**: the matcher.
  - `Compile` follows the code's slash stripping and its whole replace chain.
  - `Regex` records the compiled expression: its anchor, `^` or `(^|/)`, and the text its body matches.
  - `TestFrom` runs the search the way `RegExp.prototype.test` does, trying one start index after another.
  - `MatchesPatternSpec` states the same search without the scan.
- **`Files`**:
  - the pattern list and both enumerators;
  - what the file system and git answer is passed in as parameters;
  - every run also returns the log of the I/O calls it made, so the lemmas can say which calls a failure prevents.
- **`Errors`**: `ErrorToFlatObject` is a method. A loop over the field entries writes the record, and the method's contract is stated case by case.
- **`Store`**: class `StateStore` has:
  - the state field;
  - the log of dispatched events;
  - the `get` and `set` traps;
  - `ToggleSidebar`;
  - an invariant that the log replays to the current state.

Patterns are restricted to literal patterns: no `*`, no `?` and no `§GLOBSTAR§` text. This is the `Ignore.Pattern` subset type. The wildcard replaces of the code do not build working globs, and how a regular-expression engine reads the result is not modelled (see "Left out"). Inside the fragment, the model proves that the four replaces after the escape change nothing. It also proves that the escaped body matches exactly the pattern's own characters.

Line terminators matter. `.` in the compiled expression refuses LF, CR, U+2028 and U+2029, so `(/.*)?$` fails on a path that holds one after the matched segments. Such a path is not ignored, even by `.git/` (`Ignore.GitDirectoryMissesLineTerminator`). Because of this, `getAllFiles` and `getChangedFiles` can report a file inside `.git` whose name holds a carriage return. The lemmas that rule out `.git` segments (`Files.ListedFilesSkipGit`, `Files.ChangedFilesSkipGit`) therefore require a path without line terminators.

## Model

| member | source | states |
|---|---|---|
| Ignore.MatchesPattern | env/dev/shared.ts:38-80 | The model of `matchesPattern`: `Compile`, then the left-to-right search `TestFrom` over the path. It has no contract beyond its definition. `MatchesPatternSpec`, `SegmentPatternMatch`, `RootRelativeMatch`, `DirectorySlashIrrelevant` and `GitDirectoryMatch` state its properties. |
| Ignore.EscapeRegex | env/dev/shared.ts:50 | The model of the escape replace. Its contract says that every character of the result is a `\` or a character of the input. `LiteralOfEscape` and `EscapeOccurrence` state the rest. |
| Ignore.RegexSource | env/dev/shared.ts:48-58 | The model of the whole replace chain. It has no contract beyond its definition. `RegexSourceOfLiteral` states what it does on literal patterns. |
| Ignore.Compile | env/dev/shared.ts:38-77 | The anchor is `^` exactly when the pattern, after one trailing `/` is dropped, starts with `/`. The pattern is that optional `/`, then the regex body's text, then the optional trailing `/`. |
| Ignore.RegexSourceOfLiteral | env/dev/shared.ts:48-58 | On a literal pattern, the globstar, star, placeholder and `?` replaces leave the escaped text as it is. |
| Ignore.LiteralOfEscape | env/dev/shared.ts:50 | The escaped text, read as a regular expression, matches exactly the original characters. Each of `. + ^ $ { } ( ) \| [ ] \` stands only for itself. |
| Ignore.EscapeOccurrence | env/dev/shared.ts:50-52 | Escaping never creates an occurrence of a text free of special characters, such as the `§GLOBSTAR§` placeholder, that the input did not have. |
| Ignore.EscapeNoGlobstar | env/dev/shared.ts:52-56 | The escape of a literal pattern never holds the `§GLOBSTAR§` placeholder, so the placeholder replace on line 56 finds nothing. |
| Ignore.RestOfLineSpec | env/dev/shared.ts:63 | `.*$` matches a rest exactly when the rest has no JavaScript line terminator. |
| Ignore.BodyAtSpec | env/dev/shared.ts:72-75 | The body followed by `(/.*)?$` matches from `j` exactly when the pattern text occurs at `j` and what follows is nothing or a `/` and no line terminator. |
| Ignore.MatchAtSpec | env/dev/shared.ts:63 | One attempt at start index `k` succeeds exactly when the body matches at index 0 from `k = 0`. For `(^|/)` it also succeeds when the body matches right after a `/` at `k`. See also shared.ts:72. |
| Ignore.TestFromSpec | env/dev/shared.ts:79 | The left-to-right search succeeds from a start index exactly when some segment-start match lies at a position that anchor can reach from that index. |
| Ignore.MatchesPatternSpec | env/dev/shared.ts:60-79 | `matchesPattern` holds exactly when the body's text occurs where a segment starts and is followed by nothing or by a `/` and no line terminator. For a root-relative pattern, that occurrence must be at index 0. |
| Ignore.SegmentPatternMatch | env/dev/shared.ts:48-50 | A pattern with no leading or trailing `/` matches a path without line terminators exactly when it covers whole path segments somewhere. See also shared.ts:75. |
| Ignore.RootRelativeMatch | env/dev/shared.ts:41-45 | For a non-empty literal `q` that does not end in `/`, `/q` matches a path without line terminators exactly when the path is `q` or starts with `q/`. It never matches at a deeper segment. See also shared.ts:60-66. |
| Ignore.RootSegmentMatch | env/dev/shared.ts:63 | A match at index 0 is the whole path, or its leading segments followed by `/`. |
| Ignore.DirectorySlashIrrelevant | env/dev/shared.ts:39-40 | Adding one `/` to a pattern that does not already end in `/` never changes what it matches: both forms compile to the same expression. Only one trailing `/` is stripped, so `x//` keeps the body `x/`. |
| Ignore.GitDirectoryMatch | env/dev/shared.ts:93 | `.git/` matches a path without line terminators exactly when the path has a `.git` segment. |
| Ignore.GitDirectoryMissesLineTerminator | env/dev/shared.ts:72 | `.git/` does not ignore `.git/a\rb`. `.` refuses the carriage return, so `(/.*)?$` cannot reach the end of the path. |
| Ignore.DotIsLiteral | env/dev/shared.ts:50 | `.git` does not match `xgit`. |
| Ignore.DotGitMatchesNested | env/dev/shared.ts:72 | `.git` matches `src/.git`. |
| Ignore.DistIsSegmentOnly | env/dev/shared.ts:75 | `dist` matches `dist/out.js` and does not match `dist-tools/readme.md`. |
| Ignore.IsIgnored | env/dev/shared.ts:82-84 | The model of `isIgnored`, written as recursion over the list. It has no contract beyond its definition. `IsIgnoredSpec` and `IsIgnoredMonotone` state its properties. |
| Ignore.IsIgnoredSpec | env/dev/shared.ts:82-84 | A path is ignored exactly when some pattern of the list matches it. The empty list ignores nothing. |
| Ignore.IsIgnoredMonotone | env/dev/shared.ts:82-84 | Adding patterns, in any order, never un-ignores a path. |
| Ignore.IgnorePatternsLayout | env/dev/shared.ts:92-99 | The list is `.git/`, then the extras in the caller's order, then the `.gitignore` entries. |
| Ignore.GitignoreLinesSpec | env/dev/shared.ts:95-98 | Every `.gitignore` entry is trimmed, non-empty and not a `#` comment. An entry is taken exactly when some line trims to it. The entries keep the file's line order. |
| JsText.TrimSpec | env/dev/shared.ts:97 | `trim` gives the one slice that neither starts nor ends with whitespace, with only whitespace outside it. |
| JsText.TrimBlank | env/dev/shared.ts:130 | A line trims to nothing exactly when all its characters are whitespace. |
| JsText.TrimIdempotent | env/dev/shared.ts:97 | Trimming twice is trimming once. |
| JsText.Split | env/dev/shared.ts:96 | `split("\n")` yields at least one piece and no piece holds a newline. |
| JsText.JoinSplit | env/dev/shared.ts:96 | Joining the pieces of `split("\n")` gives back the text. |
| JsText.SplitJoin | env/dev/shared.ts:96 | Splitting a join of newline-free pieces gives back the pieces. |
| JsText.ReplaceAllAbsent | env/dev/shared.ts:52-58 | A global replace whose text does not occur leaves the string unchanged. |
| Seqs.Filter | env/dev/shared.ts:110-112 | `filter` keeps exactly the elements that pass, as a subsequence of the input. `FilterCounts` adds that no passing occurrence is dropped. |
| Seqs.FilterCounts | env/dev/shared.ts:110-112 | Each passing element appears in the result as often as in the input, and a failing one not at all. With the subsequence clause of `Filter`, this fixes the result exactly. |
| Seqs.FilterAppend | env/dev/shared.ts:110-112 | Filtering distributes over concatenation. |
| Seqs.MapSeq | env/dev/shared.ts:111 | `map` keeps the length and puts the image of each element at its position. |
| Seqs.MapSeqMember | env/dev/shared.ts:131 | A value is in a mapped list exactly when some element maps to it. |
| Seqs.MapSeqAppend | env/dev/shared.ts:111 | Mapping distributes over concatenation. |
| Seqs.Dedup | env/dev/shared.ts:147 | `[...new Set(xs)]` has no duplicates and has the same elements as `xs`. |
| Seqs.DedupOrder | env/dev/shared.ts:147 | Of two kept elements, the one that occurs first in the input comes first. |
| Seqs.DedupAppend | env/dev/shared.ts:147 | Deduplicating `a + b` gives `Dedup(a)`, followed in order by the first occurrences of the elements of `b` that are not in `a`. |
| Seqs.DedupOfDistinct | env/dev/shared.ts:147 | A list with no repeats is its own deduplication. |
| Files.GetIgnorePatterns | env/dev/shared.ts:86-100 | The model of `getIgnorePatterns`. It has no contract beyond its definition. `GetIgnorePatternsSpec`, `IgnorePatternsLayout` and `GitignoreLinesSpec` state its properties. |
| Files.GetAllFiles | env/dev/shared.ts:102-113 | The model of `getAllFiles`. It has no contract beyond its definition. `GetAllFilesSpec` and the `ListedFiles` lemmas state its properties. |
| Files.GetIgnorePatternsSpec | env/dev/shared.ts:86-100 | Reading `<rootDir>/.gitignore` is the only I/O call. A failed read rejects with that path. Otherwise the list is laid out as above. |
| Files.KeptPathHasNoGitSegment | env/dev/shared.ts:93 | A path without line terminators that a list containing `.git/` does not ignore has no `.git` segment. |
| Files.GetAllFilesSpec | env/dev/shared.ts:102-113 | The directory walk happens only after `.gitignore` has been read. Either read failing rejects with its error. Otherwise the answer is the filter/map/filter pipeline over the listing. |
| Files.ListedFilesMember | env/dev/shared.ts:109-112 | A path is listed exactly when some file entry joins to it and no pattern matches it. |
| Files.ListedFilesAppend | env/dev/shared.ts:109-112 | The listing is processed entry by entry, so the output keeps the listing's order. |
| Files.ListedFilesSingle | env/dev/shared.ts:110-112 | A single entry contributes its joined path when it is a file that is not ignored. Otherwise it contributes nothing, so directories never appear. |
| Files.ListedFilesSkipGit | env/dev/shared.ts:112 | No listed path without line terminators has a `.git` segment. |
| Files.QueryPaths | env/dev/shared.ts:128-132 | The processing of one git query's output, line by line. It has no contract beyond its definition. `QueryPathsPipeline` ties it to the code's chain and `QueryPathsMember` states its members. See also shared.ts:141-145. |
| Files.GetChangedFiles | env/dev/shared.ts:115-148 | The model of `getChangedFiles`. It has no contract beyond its definition. The `GetChangedFiles` lemmas and `ChangedFilesSkipGit` state its properties. |
| Files.QueryPathsPipeline | env/dev/shared.ts:128-132 | The line-by-line form of a git query's processing equals the code's filter(trim), map(join), filter(!isIgnored) pipeline. |
| Files.QueryPathsMember | env/dev/shared.ts:141-145 | A path comes out of a query exactly when some non-blank output line gives it and no pattern matches it. The line is joined to the root untrimmed. |
| Files.GetChangedFilesNoGitignore | env/dev/shared.ts:119 | If `.gitignore` cannot be read, neither git query runs. |
| Files.GetChangedFilesDiffFails | env/dev/shared.ts:120-126 | A failed diff query rejects with "Failed to get changed files from git". The untracked query is never run. |
| Files.GetChangedFilesUntrackedFails | env/dev/shared.ts:133-139 | A failed untracked query rejects with "Failed to get untracked files from git". This happens after both queries ran. |
| Files.GetChangedFilesSuccess | env/dev/shared.ts:147 | The answer has no duplicates. It holds exactly the paths of either query. It is the deduplicated changed files, followed by the untracked files the diff did not report, in order. |
| Files.GetChangedFilesOrder | env/dev/shared.ts:147 | The answer keeps the first-occurrence order of the changed-then-untracked list. |
| Files.ChangedFilesSkipGit | env/dev/shared.ts:145 | No reported path without line terminators has a `.git` segment. |
| Files.JoinedPathsAndAnchors | env/dev/shared.ts:131 | With root `proj`, the root-relative `/build` does not match `proj/build/x`. The segment pattern `proj` matches it through the root's own name. |
| Errors.FieldRecord | src/lib/errors.ts:10-12 | The record the field loop builds, one assignment per field in order. It has no contract beyond its definition. `FieldRecordSpec` states its keys and values, and `ErrorToFlatObject` is proved equal to it. |
| Errors.FieldRecordSpec | src/lib/errors.ts:10-12 | The field loop's record has a key for exactly the field names. Each key holds the message of the last field with that name. |
| Errors.ErrorToFlatObject | src/lib/errors.ts:3-23 | The `ClientResponseError` branch comes first. A `ClientResponseError` with field data yields exactly the field record; without field data it yields `{general: response.message}`. Another `Error` yields `{general: message}`. A non-Error yields `{general: "Unknown Error"}`. The record is never empty. |
| Errors.ClientMessageUnused | src/lib/errors.ts:6 | Two `ClientResponseError`s that differ only in their own `message` give the same record. See also errors.ts:16. |
| Store.ChangeKeepsLogValid | src/lib/store.ts:17-29 | Announcing a real change of the replayed value keeps the log valid. The log then replays to the new value. |
| Store.ValidLogPairs | src/lib/store.ts:19-29 | A valid log is made of `state:set` / `state:set:isSidebarOpen` pairs. |
| Store.StateStore.constructor | src/lib/store.ts:5-7 | The store starts with `isSidebarOpen == false` and an empty log. |
| Store.StateStore.Get | src/lib/store.ts:10-12 | The `get` trap: the stored value of the property. It has no contract beyond its definition. The contracts of `Set` and `ToggleSidebar` are stated through it. |
| Store.StateStore.Set | src/lib/store.ts:14-33 | The trap returns true. An unchanged value leaves the state and the log as they were. A changed value is stored and announced by `state:set` and then `state:set:<property>`, both carrying `value` and `oldValue`. Either way the log still replays to the state. |
| Store.StateStore.ToggleSidebar | src/lib/store.ts:36-38 | Negates the flag and appends exactly the two change events. |
| Store.ToggleTwice | src/lib/store.ts:36-38 | Two toggles restore the flag. The log gains exactly the flip's two events and then the flip back's two events. |

## Left out

- `executeCommand` (spawning `sh -c`, reading the streams, trimming the output) is not modelled. Each git query's result is a `CommandResult` parameter whose `stdout` is the already trimmed text. `stderr` and `exitCode` are not part of it, because the code reads neither.
- `readFile` and `readdir` are not modelled. Their results are `Option` parameters, where `None` stands for a rejected read.
- The `Dirent` kinds other than "file" are not modelled. Only `isFile()` is kept, so symbolic links and directories both count as "not a file".
- `path.join` is modelled as `a + "/" + b`, or `b` when `a` is empty. Normalisation (`.`, `..`, repeated slashes, trailing slashes) is not part of this model.
- Wildcard patterns are not modelled. The `Pattern` type excludes `*`, `?` and the `§GLOBSTAR§` text. How a regular-expression engine reads the wildcard replacements, including the `SyntaxError` that `**` produces, is regex-engine behaviour.
- Ignore.Compile: does not model the `RegExp` object itself. The compiled expression is kept as its anchor and the literal text its body matches, which covers every literal pattern.
- getIgnorePatterns: a `.gitignore` line that itself holds a wildcard is outside the fragment. This is why `GetIgnorePatterns` requires that every entry be a literal pattern.
- Key order of `errorToFlatObject`'s record is not modelled: the result is a `map`. Object key order plays no part in the record's equality.
- The JavaScript quirk where a field named `__proto__` does not become an own key is not modelled. Field objects without a `message` are not modelled either: the model gives every field entry a message string.
- The internals of PocketBase's `ClientResponseError` (how `data` and `response` relate) are not modelled. The error carries its own message, the response message and the field entries.
- Event delivery through `globalThis.dispatchEvent` and its listeners is not modelled. The store keeps only the log of dispatched events.
- Store.StateStore.Set: requires the store's invariant `Valid()`. The constructor establishes it and every method keeps it, so every reachable store meets it.
- The `target` member of each event's `detail` is not recorded in the log: it is `stateSource` itself. A listener could therefore write the state directly, past the `set` trap. The invariant `Valid()` (the state is what the log replays to) holds in the program only if no listener does so, and the model assumes none does.
- The store's values are `bool`, the type `State` declares. A write of another type through the untyped proxy, and a read of a key outside `State`, are not modelled.
- Text is a sequence of Unicode scalar values (Dafny's `char`), while JavaScript strings are UTF-16 code units. A lone surrogate in a path or in git's output cannot be represented; on well-formed text, matching and trimming agree.
- `env/dev/format.ts`, `env/dev/lint.ts`, `env/dev/langs.ts`, the authentication middleware and the tool configuration files are not part of this model.
