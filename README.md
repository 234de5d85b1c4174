# PHP backdoor scanner: rule-matching core

This project models the core of `scanner.py`, a defensive scanner. It walks a
PHP project and reports text that matches suspicious patterns. The model proves
properties of that core in Dafny.

A run has these steps:

- **Load the rules.** Each entry of the rule document has a name, a pattern and
  an optional severity and description. Every pattern is compiled
  case-insensitively in multi-line mode. Loading stops at the first pattern
  that does not compile.
- **Merge extensions.** The caller's extra file extensions are lower-cased and
  added to the default set `.php`, `.phtml`, `.php5`, `.inc`.
- **Walk the tree.** The walk goes top-down from the root, whatever the root's
  own name. It never descends into a subdirectory named `.git`, `vendor`,
  `node_modules`, `.idea` or `.vscode`. It yields the files whose lower-cased
  extension is recognised.
- **Scan each file.** The scanner records one finding for each rule and, within
  a rule, for each match from left to right. A finding holds:
  - the file;
  - the 1-based line of the match;
  - the rule's name;
  - its severity, `medium` when the rule has none;
  - its description, empty when the rule has none;
  - the matched text;
  - a snippet of up to 60 characters of context on each side, with every line
    break written as a backslash and an `n`.

  A file that cannot be read gives no findings, only its error message.
- **Aggregate.** The findings of all files are concatenated in walk order. A
  read error is recorded only when its message is not empty.
- **Output.** The console lists at most 200 findings and 50 read errors. A
  count of the ones left out follows only when there are more than 200
  findings or more than 50 errors. The optional export report holds
  the root and every finding and error. The exit code is 1 exactly when there is
  a finding.

The modules follow that structure:

- `Options`: optional values and results.
- `Text`: line numbers, the snippet window, escaping and ASCII lower-casing.
- `Paths`: `str.rfind`, `PurePath.suffix` and path joining.
- `Rules`: rule records, the compiler and matcher oracles, and rule loading.
- `FileSystem`: the directory tree and what reading a file gives.
- `Discovery`: the walk and the extension merge.
- `Scanner`: the scan of one file.
- `Run`: aggregation, console caps, the export report, the exit code and the
  whole run.

Two library facilities are parameters of the model:

- The regular-expression engine is a matcher oracle `finditer` that returns the
  match spans of a pattern in a text. The engine guarantees that the spans are
  in bounds, in order and not overlapping (`Rules.MatcherContract`). Building
  findings needs only the bounds (`Rules.MatchesInBounds`).
- Compiling a pattern is an oracle that returns either nothing or the error
  message.

The directory tree is a finite datatype. Every file in it carries what reading
it gives: the decoded text, or the failure and its message. The decoded text is
the text after text-mode newline translation: every `"\r\n"` and lone `"\r"`
has already become `"\n"`, so line numbers count those line ends too.

The loops of the source are methods, each proved equal to a specification
function. The specification functions carry the properties:

- `Scanner.ScanFile` and `Scanner.AppendRuleFindings` are the two nested loops
  of `scan_file`.
- `Discovery.IterFiles` with `Discovery.YieldFiles` is the walk of `iter_files`.
- `Discovery.MergeExtensions` is the extension loop.
- `Run.Accumulate` is the run loop.
- `Rules.LoadRules` is the compile loop.
- `Run.RunScanner` is `main`.

## Model

| member | source | states |
|---|---|---|
| `Text.CountNewlines` | scanner.py:48 | The number of line breaks in a text never exceeds its length. |
| `Text.CountNewlinesConcat` | scanner.py:48 | Line breaks add up over concatenation. |
| `Text.LineNumber` | scanner.py:48 | The line of an offset: one more than the line breaks before it. Its bounds are in `Text.LineNumberBounds` and its growth in `Text.LineNumberAdvance`. |
| `Text.LineNumberBounds` | scanner.py:47-48 | The line of an offset is at least 1 and at most one more than the line breaks in the whole text. |
| `Text.LineNumberAdvance` | scanner.py:48 | From an offset to a later one, the line grows by exactly the line breaks in between, so it never goes back. |
| `Text.SnippetWindow` | scanner.py:49-50 | The window contains the match, stays within the text and adds at most 60 characters on each side. Each side is cut short only at the start or end of the text. |
| `Text.Escape` | scanner.py:51 | Every line break replaced by a backslash and an `n`. Its properties are in `Text.EscapeShape`, `Text.EscapeConcat`, `Text.EscapeKeepsPlainText` and `Text.EscapeIsNotInjective`. |
| `Text.EscapeShape` | scanner.py:51 | An escaped text has no line break. It is as long as the original plus the number of line breaks in it. |
| `Text.EscapeConcat` | scanner.py:51 | Escaping a concatenation escapes each part. |
| `Text.EscapeKeepsPlainText` | scanner.py:51 | A text without line breaks is unchanged by escaping. |
| `Text.EscapeIsNotInjective` | scanner.py:51 | A line break and a literal backslash-n escape to the same snippet text, so escaping is lossy. |
| `Text.EscapedSliceOccurs` | scanner.py:49-51 | The escaped window contains the escaped match verbatim, right after the escaped leading context. |
| `Text.Lower` | scanner.py:34 | Lower-casing keeps the length. |
| `Text.LowerAt` | scanner.py:34 | Lower-casing works character by character, on ASCII letters. |
| `Text.LowerIsIdempotent` | scanner.py:76 | A lower-cased text has no upper-case ASCII letter, and lower-casing it again changes nothing. |
| `Paths.RFind` | scanner.py:34 | The result is -1 exactly when the character is absent. Otherwise it is the offset of the last occurrence. |
| `Paths.Suffix` | scanner.py:34 | pathlib's suffix: the text from the last dot, or "" when that dot starts or ends the name or there is none. `Paths.SuffixIsExtension` and `Paths.SuffixShape` characterise it. |
| `Paths.SuffixIsExtension` | scanner.py:34 | A non-empty suffix is the part of the name from a dot that neither starts nor ends the name, with no dot after it. An empty suffix means no such dot exists. |
| `Paths.SuffixShape` | scanner.py:34 | A non-empty suffix is a dot followed by at least one character that is not a dot, and is shorter than the name. |
| `Paths.JoinPath` | scanner.py:33 | A directory and a name joined with one `/` between them, as `Path(dirpath) / fn` gives for a relative name. |
| `Paths.PathString` | scanner.py:33 | The path of a file below the root: the root joined with each directory name and then the file name. |
| `Rules.Compiled` | scanner.py:25 | A loaded rule keeps its name, pattern, severity and description. Its pattern is compiled case-insensitively and in multi-line mode. |
| `Rules.CompileAll` | scanner.py:24-26 | Success keeps every rule, in order, each compiled, and every pattern was accepted. Failure names the first rejected pattern and the compiler's message, and every earlier pattern was accepted. |
| `Rules.CompileAllSucceedsIff` | scanner.py:24-26 | Loading succeeds if and only if every pattern compiles. |
| `Rules.CompileAllPrefixFailure` | scanner.py:24-25 | A failure on a prefix of the rules is the failure of the whole list, with the same error. |
| `Rules.LoadSpec` | scanner.py:20-26 | What loading gives: a document error, or what `Rules.CompileAll` gives. `Rules.LoadRules` is proved equal to it. |
| `Rules.LoadRules` | scanner.py:20-26 | The compile loop returns what `LoadSpec` gives. An unreadable document gives a document error. On success there is one rule per entry. |
| `Scanner.MakeFinding` | scanner.py:47-60 | A finding holds the path and the rule name. Its severity falls back to "medium" and its description to "". It holds the match verbatim, and its line is one more than the line breaks before the match. |
| `Scanner.FindingShape` | scanner.py:47-51 | The line lies within the text. The snippet has no line break and contains the escaped match at most 120 characters in. Its length is the window length plus the window's line breaks. |
| `Scanner.RuleFindings` | scanner.py:45-60 | The findings of one rule, one per match, in match order. Its length is the number of matches. |
| `Scanner.MatchCount` | scanner.py:44-45 | The number of matches of all rules in a text. |
| `Scanner.FileFindings` | scanner.py:44-60 | The findings of all rules, rule by rule. `Scanner.FileFindingsCount`, `Scanner.FileFindingsAt` and `Scanner.FileFindingsSound` give its length, layout and contents. |
| `Scanner.IsFindingOf` | scanner.py:45-60 | A finding is the finding of some match of a given rule in a given file. |
| `Scanner.AppendRuleFindings` | scanner.py:45-60 | The inner loop appends exactly the findings of the rule's matches, in match order. |
| `Scanner.ScanFile` | scanner.py:37-61 | A read failure gives no findings and the error message. Otherwise there is no error and the findings are those of every rule, rule by rule. |
| `Scanner.FileFindingsCount` | scanner.py:44-60 | A file has one finding per match of every rule. |
| `Scanner.MatchCountZeroIff` | scanner.py:44-45 | A text has no matches if and only if no rule matches in it. |
| `Scanner.FileFindingsAt` | scanner.py:44-60 | Rule-major order: the finding of match j of rule i sits after the findings of all earlier rules and the j earlier matches of rule i. |
| `Scanner.FileFindingsSound` | scanner.py:44-60 | Every finding of a file is the finding of a match of one of the rules. |
| `Scanner.RuleFindingsLinesAscend` | scanner.py:45-48 | Within one rule, the line numbers of the findings never decrease. |
| `Scanner.FileFindingsLinesAscend` | scanner.py:44-48 | Under the engine's full contract, a later match of a rule is never reported on an earlier line, at the positions `Scanner.FileFindingsAt` gives. |
| `Scanner.EvalUseFinding` | scanner.py:47-59 | The match "eval(" at offset 6 of a one-line PHP text is on line 1, and its snippet is the whole line. |
| `Scanner.EvalUseExample` | scanner.py:37-61 | A single rule "eval-use" of severity high with a single match gives exactly one finding, with those fields. |
| `Discovery.Recognised` | scanner.py:34 | A file is scanned when its lower-cased suffix is in the extension set. |
| `Discovery.Yielded` | scanner.py:32-35 | The recognised files of one listing. Its own contract is only the bound that it never yields more files than the listing has entries. `Discovery.YieldedSound` and `Discovery.YieldedComplete` carry its meaning, and `Discovery.YieldFiles` builds it in listing order. |
| `Discovery.YieldedSound` | scanner.py:32-35 | Every file yielded from a directory listing is a file of that listing, at that directory, with a recognised extension. |
| `Discovery.YieldedComplete` | scanner.py:32-35 | Every file of the listing with a recognised extension is yielded. |
| `Discovery.Pruned` | scanner.py:31 | The subdirectories the walk enters, in listing order. It keeps at most as many as the listing has. `Discovery.PrunedSound`, `Discovery.PrunedComplete` and `Discovery.PrunedAppend` carry its meaning. |
| `Discovery.PrunedAppend` | scanner.py:31 | Pruning keeps listing order: pruning two listings one after the other gives the first's subdirectories, then the second's. |
| `Discovery.PrunedSound` | scanner.py:31 | The walk enters only subdirectories of the listing whose name is not skipped. |
| `Discovery.PrunedComplete` | scanner.py:31 | The walk enters every subdirectory whose name is not skipped. |
| `Discovery.Walk` | scanner.py:28-35 | The walk from a directory: its recognised files, then the walk of each entered subdirectory, in order. `Discovery.WalkCharacterization` and `Discovery.WalkFilesFirst` carry its meaning. |
| `Discovery.YieldFiles` | scanner.py:32-35 | The file loop yields exactly the recognised files of one listing, in listing order. |
| `Discovery.IterFiles` | scanner.py:28-35 | The walk yields exactly `Walk`: the recognised files of a directory, then the walk of each entered subdirectory, in order. |
| `Discovery.WalkSound` | scanner.py:28-35 | Everything yielded lies below the start of the walk, exists in the tree and has a recognised extension. No directory on its path is skipped. |
| `Discovery.WalkComplete` | scanner.py:28-35 | Every recognised file of the tree whose path has no skipped directory is yielded. |
| `Discovery.WalkCharacterization` | scanner.py:28-35 | From the root, a file is yielded if and only if it is in the tree, no directory on its path is skipped, and its extension is recognised. |
| `Discovery.WalkFilesFirst` | scanner.py:29-35 | Top-down order: a directory's own recognised files come first, and everything after them lies strictly deeper. |
| `Discovery.VendorIsSkippedExample` | scanner.py:28-35 | From a root with `app.php` and `vendor/evil.php`, the walk yields only `app.php`. |
| `Discovery.AppPhpIsRecognised` | scanner.py:34 | `app.php` has the suffix `.php` and is recognised by the default extensions. |
| `Discovery.Lowered` | scanner.py:74-76 | The extra extensions, lower-cased. `Discovery.LoweredMembers` states its members. |
| `Discovery.LoweredMembers` | scanner.py:74-76 | The merged extras are exactly the lower-cased forms of the given extras. |
| `Discovery.MergeExtensions` | scanner.py:74-76 | The extension loop gives the defaults plus every extra, lower-cased. |
| `Discovery.DotlessExtensionIsInert` | scanner.py:74-76 | An extra extension that does not start with a dot never makes a file recognised. |
| `Discovery.EmptyExtensionAdmitsDotlessNames` | scanner.py:74-76 | An empty extra extension makes every file name without a dot recognised. |
| `Run.FilePath` | scanner.py:33 | The path string of a yielded file below the root. |
| `Run.RunFindings` | scanner.py:81-86 | The findings of a run: those of each readable yielded file, in walk order. `Run.RunFindingsCount`, `Run.RunFindingsSound` and `Run.RunFindingsComplete` carry its meaning. |
| `Run.RunErrors` | scanner.py:83-84 | One read error per unreadable yielded file with a non-empty message, in walk order. `Run.RunErrorsSound` and `Run.RunErrorsComplete` carry its meaning. |
| `Run.TotalMatches` | scanner.py:81-86 | The number of matches of all rules in all readable yielded files. |
| `Run.Accumulate` | scanner.py:78-86 | The run loop gives the concatenated findings of the readable files, in walk order. It records one error for each unreadable file with a non-empty message. |
| `Run.RunFindingsCount` | scanner.py:81-86 | The run keeps one finding per match in every readable file. |
| `Run.TotalMatchesZeroIff` | scanner.py:81-86 | A run has no matches if and only if no rule matches in any readable file. |
| `Run.RunFindingsSound` | scanner.py:81-86 | Every finding of a run is the finding of a match of a loaded rule in the text of a readable yielded file, at that file's path. |
| `Run.RunFindingsComplete` | scanner.py:81-86 | Every match of every loaded rule in every readable yielded file is reported as its finding, at that file's path. |
| `Run.RunErrorsComplete` | scanner.py:83-84 | Every unreadable file with a non-empty message is reported, with its path and message. |
| `Run.RunErrorsSound` | scanner.py:83-84 | Every reported error has a non-empty message and is the failure of some yielded file, at that file's path. |
| `Run.Cap` | scanner.py:92-95 | The shown entries are the first ones, at most the limit. The suppressed count is present if and only if there are more than the limit, and shown plus suppressed accounts for every entry. |
| `Run.ConsoleView` | scanner.py:89-104 | The console says nothing was found if and only if there are no findings; otherwise it gives the total and the listing capped at 200. The errors part appears if and only if there are errors, capped at 50. |
| `Run.ExitCode` | scanner.py:120 | The exit code is 0 or 1, and it is 1 if and only if there is a finding. |
| `Run.ExitStatus` | scanner.py:72-120 | A run that could not load its rules ends with status 1. A completed run ends with its exit code. |
| `Run.RunSpec` | scanner.py:63-120 | What a run gives: an abort on a load failure, otherwise the console summary, the optional report and the exit code of the walk's findings and errors. |
| `Run.RunScanner` | scanner.py:63-120 | A run (load, merge, walk, scan, accumulate, shape) gives exactly `RunSpec`. |
| `Run.RunAbortsIff` | scanner.py:72 | A run aborts if and only if the rule document cannot be read or one of its patterns does not compile. |
| `Run.RunFindingsNonEmptyIff` | scanner.py:81-86 | A run has findings if and only if some rule matches in some readable yielded file. |
| `Run.YieldedMatchIsScanned` | scanner.py:81-86 | A match in a yielded file is a match in a readable file of the tree that the walk admits. |
| `Run.ScannedMatchIsYielded` | scanner.py:81-86 | A match in a readable file of the tree that the walk admits is a match in a yielded file. |
| `Run.ExitCodeIff` | scanner.py:120 | A completed run exits with 1 if and only if some rule matches in the text of some scanned file of the tree, and with 0 otherwise, whatever the read errors. |
| `Run.ConsoleAgreesWithExport` | scanner.py:92-112 | The export holds the root and one finding per match. The console listings are prefixes of the export's lists, capped at 200 and 50, and with the suppressed counts they account for every entry. |
| `Run.ExportIsSideChannel` | scanner.py:107-112 | Requesting an export changes neither the console summary nor the exit code. |

## Left out

- Regular-expression compilation and matching (`re.compile`, `finditer`,
  scanner.py:25, 45) are oracles with the contract above. Their semantics
  belong to Python's `re` engine.
- Reading a file and decoding it as UTF-8 with undecodable bytes dropped
  (scanner.py:39) are given as each file's `ReadResult`. Its text is taken
  after text mode's universal-newline translation. The exception text `str(e)`
  is the failure's message.
- `os.walk` (scanner.py:29) is modelled on a static, finite tree. Its listing
  order is the order of each directory's entries. Symbolic links, permission
  errors (which `os.walk` ignores by default), changes to the tree during the
  walk, and the lazy interleaving of the generator with the scan loop are not
  modelled.
- JSON parsing of the rule document (scanner.py:21-22) is not modelled.
  - The document is given as parsed entries or as the error that prevented
    reading it.
  - Entries without `name` or `regex` keys, and a `severity` or `description`
    that is present but null, are not modelled: a rule's severity and
    description are either present strings or absent.
- Serialising and writing the export report (scanner.py:114-117) and the chance
  that the write fails are not modelled. The report is the record of its three
  fields.
- argparse, the console text, `print` and `sys.exit` (scanner.py:64-68, 90-117,
  120) are not modelled. The console is modelled as the counts and listings it
  shows, and the exit as its status value.
- `Path.resolve` and path normalisation are not modelled.
  - The scanned root is a parameter and is used as given.
  - File paths are joined with `/` (`Paths.JoinPath`).
  - Redundant separators and `.` components are left as they are, where
    pathlib would collapse them.
- `Text.Lower` lower-cases ASCII letters only. Python's `str.lower` also folds
  non-ASCII letters, so an extension with such letters may be recognised by
  the source but not by the model.
- The mutable global `DEFAULT_EXTS` that `main` extends in place
  (scanner.py:74-76) is modelled as a value: `MergeExtensions` returns the
  merged set, and the walk takes the set as a parameter.
- A failure to load the rules ends the source with an uncaught exception.
  Only its exit status 1 is modelled, as `Run.Aborted`. The traceback is not.
