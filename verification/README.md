# mdlint driver, modelled in Dafny

`mdlint` is a small command-line driver around the markdownlint engine. Its
module `index.js` does five things, and this project models each one:

- It decides which paths are Markdown files (`hasKnownExtension`).
- It resolves two run options with fallbacks:
  - the engine configuration (`readConfig`);
  - the list of ignored sub-directories (`readIgnore`).
- It expands the command-line paths into the files to lint (`readFiles`):
  - every argument is joined to the working directory and stat-ed;
  - a directory becomes a recursive glob listing that prunes the ignored
    sub-trees;
  - the first failure aborts the expansion;
  - the candidates are concatenated in argument order and filtered by
    extension.
- Its exported function calls the engine only when the expansion
  succeeded.
- It prints a report (`printResults`): a header per file that has
  diagnostics, then one line per diagnostic.

The file system, the glob walk and the engine are inputs of the model. The
`Env` datatype carries the working directory, a `stat` function and a `glob`
function. The engine is a function from files and configuration to its
result. Report lines are returned as a sequence of strings instead of being
logged.

Modules, one file each:

- `Outcomes`: the `Option`, `Result` and `Error` types.
- `Sequences`: two generic sequence facts.
- `Text`: the JavaScript string built-ins the driver uses, with their
  ECMAScript meaning. These are `split` with a one-character separator,
  `join`, `join('')`, `trim`, `toLowerCase`, and the decimal text of a line
  number.
- `Extension`: `hasKnownExtension`.
- `Options`: `readConfig` and `readIgnore`.
- `Expansion`: `readFiles`, as a loop method specified by a function.
- `Report`: `printResults`, as nested loops specified by functions.
- `Pipeline`: the exported function.

## Model

| member | source | states |
|---|---|---|
| Text.Split | index.js:35 | `split` with a one-character separator always gives at least one part. `SplitParts`, `JoinSplit`, `SplitJoin` and `SplitLast` state what the parts are. |
| Text.SplitParts | index.js:35 | The split of a string without the separator is that string alone. A string with the separator gives at least two parts. No part contains the separator. |
| Text.JoinSplit | index.js:35 | Joining the parts of a split with the same separator gives back the original string. |
| Text.SplitJoin | index.js:35 | Splitting the join of a non-empty list of separator-free parts gives back the list. |
| Text.Join | index.js:35 | `join` with a one-character separator. It has no contract of its own; `JoinSplit` and `SplitJoin` prove it is the inverse of `Split`. |
| Text.SplitLast | index.js:47 | The last part of a split is a suffix of the string. It is either the whole string or preceded by the separator. |
| Text.TrimTrailingWhitespace | index.js:35 | Whitespace after a non-empty trimmed text is all that `trim` removes. |
| Text.Trim | index.js:35 | The result has no whitespace at either end. It is cut out of the input by removing only whitespace at the front and back. A string already trimmed is unchanged. The result is empty exactly when the input is all whitespace. |
| Text.ToLower | index.js:88 | Length is kept. Each upper-case ASCII letter becomes the lower-case letter at the same place in the alphabet. Every other character is unchanged, so no upper-case ASCII letter is left. |
| Text.Decimal | index.js:82 | The text of a line number is a non-empty run of digits. It has no leading zero, except for zero itself. |
| Text.DecimalRoundTrip | index.js:82 | Reading the decimal text back as a number gives the number: the rendering loses nothing. |
| Text.Concat | index.js:81-89 | `join('')`: the parts one after the other, and no parts give the empty string. `ConcatAppend` and `ConcatReplace` give its algebra. |
| Text.ConcatAppend | index.js:81-89 | Joining two runs of pieces with no separator is concatenating the two joins. |
| Text.ConcatReplace | index.js:81-89 | Replacing one part of a `join('')` puts the new text between the join of the parts before it and the join of the parts after it. |
| Extension.ExtensionToken | index.js:47 | `fname.split('.').pop()`. It has no contract of its own; `TokenShape`, `TokenAfterLastDot` and `TokenWithoutDot` state what it is. |
| Extension.HasKnownExtension | index.js:41-47 | The filter itself: the token is one of the five extensions. It has no contract of its own; `KnownExtensionIff` characterises it in both directions. |
| Extension.TokenShape | index.js:47 | `fname.split('.').pop()` holds no dot, is a suffix of the name, and is either the whole name or preceded by a dot. |
| Extension.TokenAfterLastDot | index.js:47 | When the name has a dot with no dot after it, the token is exactly the text after that dot. |
| Extension.KnownExtensionIff | index.js:41-47 | A name passes the filter exactly when it is one of the five extensions, or some dot in it is followed by one of them up to the end of the name. Both directions are proved. |
| Extension.KnownSuffixPasses | index.js:41-47 | Any name ending in `.` plus a known extension passes, whatever precedes it. |
| Extension.BareExtensionPasses | index.js:41-47 | A name without a dot is compared whole, so a bare `md` passes. |
| Extension.OtherSuffixRejected | index.js:41-47 | A name whose last dot is followed by anything other than the five extensions is rejected. |
| Extension.UpperCaseRejected | index.js:41-47 | The comparison is case-sensitive, so `.MD` is rejected. |
| Extension.LastExtensionDecides | index.js:41-47 | Only the last extension counts, so `.md.txt` is rejected. |
| Options.ReadConfig | index.js:19-23 | Never an error. The engine's configuration when it was read and is truthy, `{ default: true }` otherwise. |
| Options.ParseIgnore | index.js:35 | At least one pattern. No pattern holds a line feed. Joining the patterns with line feeds gives the trimmed content. |
| Options.ReadIgnore | index.js:26-38 | Never an error. The list is empty exactly when the file is missing or unreadable. Otherwise its patterns hold no line feed and rejoin with line feeds to the trimmed content. By `ParseIgnoreUnique`, only the split of the trimmed content at its line feeds meets this. |
| Options.ParseIgnoreUnique | index.js:35 | The contract of `ParseIgnore` determines its result. Any non-empty list of line-feed-free patterns that rejoins to the trimmed content is the parsed list. |
| Options.OuterWhitespaceIgnored | index.js:35 | Trimming the content first changes nothing: a file and its trimmed content give the same patterns. |
| Options.WhitespaceOnlyIgnoreFile | index.js:35 | A whitespace-only ignore file gives the single pattern `""`, not an empty list. |
| Options.IgnoreRoundTrip | index.js:35 | Any list of line-feed-free patterns with no outer whitespace, written one per line, is read back unchanged. |
| Options.CarriageReturnKept | index.js:35 | Lines are not trimmed one by one. Take any non-empty list of line-feed-free patterns, the first starting and the last ending with a non-whitespace character, written one per line with CRLF line ends (a final CRLF included). Reading it back gives every pattern but the last with its carriage return, and the last without. |
| Options.WithCarriageReturns | index.js:35 | The patterns as read from a CRLF file: same number, each but the last followed by a carriage return, the last unchanged. |
| Options.CrlfFileJoin | index.js:35 | A CRLF file is its carriage-returned lines joined with line feeds, followed by the final CRLF. |
| Expansion.JoinPath | index.js:51 | `Path.join` of two segments, without normalisation. It has no contract of its own; see `Left out`. |
| Expansion.Resolve | index.js:51 | Each argument is joined to the working directory. No contract of its own; `FileArgument` and `DirectoryArgument` state what the joined path contributes. |
| Expansion.GlobPattern | index.js:58 | The glob for everything below a directory, `join(dir, '**', '**')`. No contract of its own; `DirectoryArgument` states how it is used. |
| Expansion.IgnoreGlobs | index.js:59 | One ignore glob per ignore pattern, in order. Pattern `p` becomes `join(dir, p + '/**')`. |
| Expansion.Candidates | index.js:52-64 | What one resolved argument contributes: its stat failure, its glob listing for a directory, or itself. No contract of its own; `StatFailureAborts`, `FileArgument` and `DirectoryArgument` state each case. |
| Expansion.Collect | index.js:51-69 | The per-argument lists in argument order, or the first failure. No contract of its own; `CollectSucceeds`, `CollectFailsAtFirst`, `CollectFailureSticks` and `CollectAppend` characterise it. |
| Expansion.Flatten | index.js:70 | `[].concat(...lists)`: no lists give no names. `FlattenMembers` and `FlattenAppend` state membership and order. |
| Expansion.FlattenMembers | index.js:70 | A name is in the concatenated candidates exactly when it is in one argument's candidates. |
| Expansion.FilterKnown | index.js:70 | Every kept name has a known extension and comes from the input. |
| Expansion.FilterKnownCounts | index.js:70 | A name with a known extension is kept as often as it occurs. Every other name is dropped. |
| Expansion.FilterKnownAppend | index.js:70 | The filter keeps order: filtering a concatenation filters each part. |
| Expansion.ReadFilesResult | index.js:50-72 | What `readFiles` hands its callback: the first failure, or the flattened lists filtered by extension. No contract of its own; `ReadFiles` is proved equal to it, and `ExpansionAppend`, `DuplicatesKept` and `SingleArgument` state its properties. |
| Expansion.CollectFailureSticks | index.js:51-69 | Once a prefix of the arguments has failed, the whole expansion fails with that error. |
| Expansion.CollectSucceeds | index.js:51-69 | The expansion succeeds exactly when every argument's stat succeeds, and its glob too for a directory. It then holds each argument's candidates, one list per argument, in argument order. |
| Expansion.CollectFailsAtFirst | index.js:51-69 | On failure, the error is that of a failing argument, and every argument before it succeeded. |
| Expansion.ReadFiles | index.js:50-72 | The loop's result equals the expansion function. Every returned path has a known extension. No arguments give `Ok([])`. |
| Expansion.StatFailureAborts | index.js:52-54 | A stat failure on any argument fails the whole expansion. |
| Expansion.SingleArgument | index.js:51-70 | A single argument yields its own candidates filtered by extension, or its failure. |
| Expansion.FileArgument | index.js:62-63 | A non-directory argument contributes exactly its joined path. It survives only with a known extension. |
| Expansion.DirectoryArgument | index.js:56-60 | A directory argument contributes its glob listing, filtered by extension. The glob is asked for everything below the directory, with one pruning glob per ignore pattern. |
| Expansion.CollectAppend | index.js:51-70 | The per-argument lists of two runs of arguments are those of the first run followed by those of the second. |
| Expansion.FlattenAppend | index.js:70 | Concatenating two runs of lists concatenates their flattenings. |
| Expansion.ExpansionAppend | index.js:50-72 | Expanding two runs of arguments gives the first run's files followed by the second's, with nothing merged. |
| Expansion.DuplicatesKept | index.js:70 | Naming the same arguments twice lints every file they expand to twice. |
| Expansion.IgnoredSubtreePruned | index.js:56-60 | With a glob walk that honours its ignore list, a directory's expansion holds nothing inside a sub-tree an ignore pattern names. |
| Pipeline.Mdlint | index.js:115-124 | On an expansion error, the engine is never called and the error reaches the callback. Otherwise the engine gets exactly the expanded files and the configuration, and its outcome is the result. The engine only sees files with a known extension. No paths hand the engine an empty list. |
| Report.ColumnSegment | index.js:83 | The `:<column>` segment is empty exactly when there is no range. `ColumnSegmentAlone` states its text. |
| Report.DetailSegment | index.js:86 | The ` [<detail>]` segment is empty exactly when the detail is absent or empty. |
| Report.ContextSegment | index.js:87 | The ` "<context>"` segment is empty exactly when the context is absent or empty. |
| Report.UrlSegment | index.js:88 | The link segment is empty exactly when the run is not verbose. |
| Report.LinePieces | index.js:81-88 | The seven pieces of a diagnostic line, in source order. No contract of its own; `DetailPieces` and `ContextPieces` state how a field change affects them. |
| Report.DiagnosticLine | index.js:81-89 | The `join('')` of the pieces. No contract of its own; `DiagnosticLineStart`, `LineWithoutLink`, `VerboseOnlyAppends`, `DetailSegmentAlone`, `ContextSegmentAlone` and `MissingSegmentsOmitted` characterise it. |
| Report.DiagnosticLineStart | index.js:82-83 | Every diagnostic line starts with two spaces and the line number. A `:` follows the number exactly when there is a range. |
| Report.LineWithoutLink | index.js:81-89 | A line is its first six pieces followed by the verbose link segment. |
| Report.VerboseLineEnd | index.js:88 | In verbose mode the line ends with `#` and the rule name lower-cased. |
| Report.VerboseOnlyAppends | index.js:81-89 | The verbose line is the plain line followed by a space, the rules URL, `#` and the lower-cased rule name. |
| Report.MissingSegmentsOmitted | index.js:83-88 | Missing range, missing or empty detail and context, and no verbose flag: the line is just the number, alias and description. |
| Report.ColumnPieces | index.js:83 | Changing the range changes the second piece of the line and nothing else. |
| Report.ColumnSegmentAlone | index.js:82-83 | With a range, the line is the line without a range with `:` and the decimal column (`errorRange[0]`, not the length) inserted right after the line number. |
| Report.DetailPieces | index.js:86 | Changing the detail changes the fifth piece of the line and nothing else. |
| Report.DetailSegmentAlone | index.js:86 | With a non-empty detail `x`, the line is the line without a detail with ` [x]` inserted after the description and before the context. |
| Report.FalsyDetailOmitted | index.js:86 | An absent or empty detail prints nothing: the line equals that of the same diagnostic without a detail. |
| Report.ContextPieces | index.js:87 | Changing the context changes the sixth piece of the line and nothing else. |
| Report.ContextSegmentAlone | index.js:87 | With a non-empty context `x`, the line is the line without a context with ` "x"` inserted after the detail and before the link. |
| Report.FalsyContextOmitted | index.js:87 | An absent or empty context prints nothing: the line equals that of the same diagnostic without a context. |
| Report.DiagnosticLines | index.js:80-90 | One line per diagnostic. `DiagnosticLinesAt` states that the k-th line belongs to the k-th diagnostic. |
| Report.DiagnosticLinesAt | index.js:80-90 | The k-th diagnostic line of a file is the line of its k-th diagnostic. Engine order is kept. |
| Report.FileSection | index.js:78-91 | A file prints nothing when it has no diagnostics, and otherwise one header plus one line per diagnostic. `SectionLayout` states the lines themselves. |
| Report.ReportLines | index.js:77-92 | The sections of the files in key order. No contract of its own; `PrintResults` is proved equal to it, and `ReportAppend`, `EmptyFilesSilent` and `ReportLineCount` characterise it. |
| Report.PrintDiagnostics | index.js:80-90 | The inner loop yields exactly the file's diagnostic lines. |
| Report.PrintFile | index.js:78-91 | One key yields nothing when its list is empty. Otherwise it yields its path, then its diagnostic lines. |
| Report.PrintResults | index.js:75-93 | The outer loop yields exactly the report, the files' sections in key order. |
| Report.SectionLayout | index.js:78-91 | A file with diagnostics prints its path, then exactly one line per diagnostic in engine order. A file without diagnostics prints nothing. |
| Report.ReportSnoc | index.js:77 | One more key at the end adds its section at the end. |
| Report.ReportAppend | index.js:77 | The report of two runs of keys is the first run's report followed by the second's. |
| Report.EmptyFilesSilent | index.js:78 | The report equals the report of only the files that have diagnostics. |
| Report.ReportLineCount | index.js:77-92 | The report has one header plus one line per diagnostic for each file with diagnostics. |
| Report.CleanRunPrintsNothing | index.js:78 | A run in which every file is clean prints nothing. |

## Left out

- The command-line block (index.js:127-156) is not part of this model: argument parsing, help and version output, `process.exit`, and the default option file names. Neither is `printError` (index.js:96-99) or the help text with its year taken from the clock (index.js:102-112).
- The markdownlint engine and its own configuration reader are inputs, not modelled. So are `fs.exists`, `fs.readFile`, `fs.stat` and the glob walk. Directory traversal and glob matching are not modelled. `IgnoredSubtreePruned` assumes a glob walk that honours its ignore globs.
- `readConfig` and `readIgnore` receive the outcomes of their reads as parameters, so their callbacks and early returns are not modelled. Neither is the race between `fs.exists` and `fs.readFile`.
- Expansion.JoinPath: `Path.join` is modelled as concatenation with `/`. Normalisation (`..`, `.`, repeated or trailing slashes, absolute arguments) is not modelled. The most visible case is a blank ignore file. It parses to the single pattern `""` (`WhitespaceOnlyIgnoreFile`), so `Path.join(dir, '/**')` normalises to `dir/**` and prunes the whole directory, and a directory argument lints nothing. The model builds `dir//**` and leaves the outcome to the glob input, so this case is not reproduced.
- `Async.map` runs its calls concurrently. The model runs them in argument order, and the reported error is that of the first failing argument in that order. The real error is whichever failure arrives first.
- Chalk colouring and `console.log` are left out. The report is the sequence of uncoloured lines.
- Report.UrlSegment: `verbose` is a bool. If the JavaScript value is literally `false`, `join('')` appends the text `false`; the model appends nothing, as for an absent flag. Other truthy non-boolean values are not modelled either.
- Text.ToLower: lower-cases ASCII letters only. Unicode case mapping is not modelled; rule names are ASCII.
- The engine's result is taken to be an ordered list of keys, each with its diagnostics. Other result shapes are not modelled.
- The tests in index.spec.js:8-15 expect the exported function to return a Promise. The code at index.js:115 takes a callback. The model follows the code.
- De-duplication of files, sorting of diagnostics, summary counts and a non-zero exit status when diagnostics are found are not modelled. The code at index.js:66-93 and 146-153 does none of them.
