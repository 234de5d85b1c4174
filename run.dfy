/** One run of the scanner: load the rules, merge the extra extensions, walk
    the tree, scan every yielded file, and shape the outcome into the console
    summary (capped), the export report (uncapped) and the exit code. */
module Run {
  import opened Options
  import opened Text
  import opened Paths
  import opened Rules
  import opened FileSystem
  import opened Scanner
  import opened Discovery

  /** At most this many findings are listed on the console. */
  const FindingsShown: nat := 200

  /** At most this many read errors are listed on the console. */
  const ErrorsShown: nat := 50

  /** A file that could not be read, and the message of the error. */
  datatype ReadError = ReadError(file: string, error: string)

  /** The export report: the scanned root and every finding and read error. */
  datatype Report = Report(root: string, findings: seq<Finding>, errors: seq<ReadError>)

  /** The path string of a yielded file below `root`. */
  function FilePath(root: string, c: Candidate): string {
    PathString(root, c.dirs + [c.name])
  }

  /** The findings of a run over the yielded files `cands`, file by file. */
  function RunFindings(root: string, cands: seq<Candidate>, rules: seq<Rule>, finditer: MatchOracle): seq<Finding>
    requires MatchesInBounds(finditer)
  {
    if cands == [] then []
    else
      var n := |cands| - 1;
      var c := cands[n];
      RunFindings(root, cands[..n], rules, finditer)
        + (if c.content.Decoded? then FileFindings(FilePath(root, c), rules, c.content.text, finditer) else [])
  }

  /** The read errors of a run: one per file that could not be read, in walk
      order, except the errors whose message is empty. */
  function RunErrors(root: string, cands: seq<Candidate>): seq<ReadError>
  {
    if cands == [] then []
    else
      var n := |cands| - 1;
      var c := cands[n];
      RunErrors(root, cands[..n])
        + (if c.content.ReadFailed? && c.content.message != "" then [ReadError(FilePath(root, c), c.content.message)] else [])
  }

  /** Scan the yielded files in order, collecting their findings and the
      non-empty messages of the files that could not be read. */
  method Accumulate(root: string, cands: seq<Candidate>, rules: seq<Rule>, finditer: MatchOracle)
    returns (findings: seq<Finding>, errors: seq<ReadError>)
    requires MatchesInBounds(finditer)
    ensures findings == RunFindings(root, cands, rules, finditer)
    ensures errors == RunErrors(root, cands)
  {
    findings, errors := [], [];
    for k := 0 to |cands|
      invariant findings == RunFindings(root, cands[..k], rules, finditer)
      invariant errors == RunErrors(root, cands[..k])
    {
      var p := FilePath(root, cands[k]);
      var fnds, err := ScanFile(p, rules, cands[k].content, finditer);
      if err.Some? && err.value != "" {
        errors := errors + [ReadError(p, err.value)];
      }
      if fnds != [] {
        findings := findings + fnds;
      }
      assert cands[..k + 1][..k] == cands[..k];
    }
    assert cands[..|cands|] == cands;
  }

  /** The number of matches of all rules in all readable yielded files. */
  function TotalMatches(cands: seq<Candidate>, rules: seq<Rule>, finditer: MatchOracle): nat
  {
    if cands == [] then 0
    else
      var n := |cands| - 1;
      var c := cands[n];
      TotalMatches(cands[..n], rules, finditer) + (if c.content.Decoded? then MatchCount(rules, c.content.text, finditer) else 0)
  }

  /** The run keeps one finding per match: none is lost on the way to the report. */
  lemma {:induction false} RunFindingsCount(root: string, cands: seq<Candidate>, rules: seq<Rule>, finditer: MatchOracle)
    requires MatchesInBounds(finditer)
    ensures |RunFindings(root, cands, rules, finditer)| == TotalMatches(cands, rules, finditer)
  {
    if cands != [] {
      var n := |cands| - 1;
      RunFindingsCount(root, cands[..n], rules, finditer);
      if cands[n].content.Decoded? {
        FileFindingsCount(FilePath(root, cands[n]), rules, cands[n].content.text, finditer);
      }
    }
  }

  /** A run has no matches exactly when no rule matches in any readable file. */
  lemma {:induction false} TotalMatchesZeroIff(cands: seq<Candidate>, rules: seq<Rule>, finditer: MatchOracle)
    ensures TotalMatches(cands, rules, finditer) == 0
        <==> forall k, i :: 0 <= k < |cands| && cands[k].content.Decoded? && 0 <= i < |rules|
               ==> finditer(rules[i].compiled, cands[k].content.text) == []
  {
    if cands != [] {
      var n := |cands| - 1;
      TotalMatchesZeroIff(cands[..n], rules, finditer);
      assert forall k :: 0 <= k < n ==> cands[..n][k] == cands[k];
      if cands[n].content.Decoded? {
        MatchCountZeroIff(rules, cands[n].content.text, finditer);
      }
    }
  }

  /** Every finding of a run is the finding of a match of a loaded rule in
      the text of a readable yielded file, at that file's path. */
  lemma {:induction false} RunFindingsSound(root: string, cands: seq<Candidate>, rules: seq<Rule>, finditer: MatchOracle, f: Finding)
    requires MatchesInBounds(finditer)
    requires f in RunFindings(root, cands, rules, finditer)
    ensures exists k, i :: 0 <= k < |cands| && cands[k].content.Decoded? && 0 <= i < |rules|
              && IsFindingOf(f, FilePath(root, cands[k]), rules[i], cands[k].content.text, finditer)
  {
    var n := |cands| - 1;
    var c := cands[n];
    if f in RunFindings(root, cands[..n], rules, finditer) {
      RunFindingsSound(root, cands[..n], rules, finditer, f);
      var k, i :| 0 <= k < n && cands[..n][k].content.Decoded? && 0 <= i < |rules|
                  && IsFindingOf(f, FilePath(root, cands[..n][k]), rules[i], cands[..n][k].content.text, finditer);
      assert cands[..n][k] == cands[k];
    } else {
      assert c.content.Decoded?;
      FileFindingsSound(FilePath(root, c), rules, c.content.text, finditer, f);
      var i :| 0 <= i < |rules| && IsFindingOf(f, FilePath(root, c), rules[i], c.content.text, finditer);
      assert IsFindingOf(f, FilePath(root, cands[n]), rules[i], cands[n].content.text, finditer);
    }
  }

  /** Every match of every loaded rule in every readable yielded file is
      reported, at that file's path. */
  lemma {:induction false} RunFindingsComplete(root: string, cands: seq<Candidate>, rules: seq<Rule>, finditer: MatchOracle, k: nat, i: nat, j: nat)
    requires MatchesInBounds(finditer)
    requires k < |cands| && cands[k].content.Decoded? && i < |rules|
    requires j < |finditer(rules[i].compiled, cands[k].content.text)|
    ensures MakeFinding(FilePath(root, cands[k]), rules[i], cands[k].content.text, finditer(rules[i].compiled, cands[k].content.text)[j])
            in RunFindings(root, cands, rules, finditer)
  {
    var n := |cands| - 1;
    if k < n {
      assert cands[..n][k] == cands[k];
      RunFindingsComplete(root, cands[..n], rules, finditer, k, i, j);
    } else {
      FileFindingsAt(FilePath(root, cands[k]), rules, cands[k].content.text, finditer, i, j);
    }
  }

  /** Every file that could not be read, with a non-empty message, is
      reported with its path and message. */
  lemma {:induction false} RunErrorsComplete(root: string, cands: seq<Candidate>, k: nat)
    requires k < |cands| && cands[k].content.ReadFailed? && cands[k].content.message != ""
    ensures ReadError(FilePath(root, cands[k]), cands[k].content.message) in RunErrors(root, cands)
  {
    var n := |cands| - 1;
    if k < n {
      assert cands[..n][k] == cands[k];
      RunErrorsComplete(root, cands[..n], k);
    }
  }

  /** Every reported error is the non-empty message of a yielded file that
      could not be read. */
  lemma {:induction false} RunErrorsSound(root: string, cands: seq<Candidate>, e: ReadError)
    requires e in RunErrors(root, cands)
    ensures e.error != ""
    ensures exists k :: 0 <= k < |cands| && cands[k].content == ReadFailed(e.error) && e.file == FilePath(root, cands[k])
  {
    var n := |cands| - 1;
    if e in RunErrors(root, cands[..n]) {
      RunErrorsSound(root, cands[..n], e);
      var k :| 0 <= k < n && cands[..n][k].content == ReadFailed(e.error) && e.file == FilePath(root, cands[..n][k]);
      assert cands[..n][k] == cands[k];
    } else {
      assert cands[n].content == ReadFailed(e.error);
    }
  }

  /** The console listing of a sequence: at most `limit` entries shown, and
      how many more were left out when there were more. */
  datatype Listing<T> = Listing(shown: seq<T>, suppressed: Option<nat>)

  /** Cap `s` at `limit` entries: the shown entries are the first ones of
      `s`, and the suppressed count, present exactly when `s` is longer than
      the cap, makes up the rest. */
  function Cap<T>(s: seq<T>, limit: nat): (l: Listing<T>)
    ensures |l.shown| <= limit && |l.shown| <= |s| && l.shown == s[..|l.shown|]
    ensures l.suppressed.Some? <==> |s| > limit
    ensures |l.shown| + l.suppressed.GetOr(0) == |s|
    ensures l.suppressed.Some? ==> l.suppressed.value > 0 && |l.shown| == limit
  {
    if |s| <= limit then Listing(s, None) else Listing(s[..limit], Some(|s| - limit))
  }

  /** The findings part of the console summary: either the message that
      nothing was found, or the total and the capped listing. */
  datatype FindingsSection = NothingFound | Found(total: nat, listing: Listing<Finding>)

  /** The console summary: the findings part and, only when some file could
      not be read, the capped listing of the read errors. */
  datatype Console = Console(findings: FindingsSection, errors: Option<Listing<ReadError>>)

  /** The console summary of `findings` and `errors`. */
  function ConsoleView(findings: seq<Finding>, errors: seq<ReadError>): (c: Console)
    ensures c.findings.NothingFound? <==> findings == []
    ensures c.findings.Found? ==> c.findings.total == |findings| && c.findings.listing == Cap(findings, FindingsShown)
    ensures c.errors.None? <==> errors == []
    ensures c.errors.Some? ==> c.errors.value == Cap(errors, ErrorsShown)
  {
    Console(if findings == [] then NothingFound else Found(|findings|, Cap(findings, FindingsShown)),
            if errors == [] then None else Some(Cap(errors, ErrorsShown)))
  }

  /** The process exit status after a completed scan. */
  function ExitCode(findings: seq<Finding>): (code: int)
    ensures code == 0 || code == 1
    ensures code == 1 <==> |findings| > 0
  {
    if findings != [] then 1 else 0
  }

  /** The outcome of a run: aborted because the rules could not be loaded,
      or completed with its console summary, its export report when one was
      requested, and its exit code. */
  datatype RunResult =
    | Aborted(error: LoadError)
    | Completed(console: Console, report: Option<Report>, exitCode: int)

  /** The exit status of the process: a load failure ends it as an uncaught
      error does, with status 1. */
  function ExitStatus(r: RunResult): (status: int)
    ensures r.Completed? ==> status == r.exitCode
    ensures r.Aborted? ==> status == 1
  {
    match r
    case Aborted(_) => 1
    case Completed(_, _, code) => code
  }

  /** The extensions a run recognises: the defaults and the lower-cased extras. */
  function RunExtensions(extra: seq<string>): set<string> {
    DefaultExts + Lowered(extra)
  }

  /** What a run yields, from the rule document, the extra extensions, the
      scanned root and its tree, and whether an export was requested. */
  function RunSpec(document: RuleDocument, compileError: CompileOracle, extra: seq<string>,
                   root: string, tree: Entry, finditer: MatchOracle, exportRequested: bool): RunResult
    requires MatchesInBounds(finditer)
  {
    match LoadSpec(document, compileError)
    case Err(e) => Aborted(e)
    case Ok(rules) =>
      var cands := Walk([], tree, RunExtensions(extra));
      var findings := RunFindings(root, cands, rules, finditer);
      var errors := RunErrors(root, cands);
      Completed(ConsoleView(findings, errors),
                if exportRequested then Some(Report(root, findings, errors)) else None,
                ExitCode(findings))
  }

  /** A run of the scanner. */
  method RunScanner(document: RuleDocument, compileError: CompileOracle, extra: seq<string>,
                    root: string, tree: Entry, finditer: MatchOracle, exportRequested: bool)
    returns (result: RunResult)
    requires MatchesInBounds(finditer)
    ensures result == RunSpec(document, compileError, extra, root, tree, finditer, exportRequested)
  {
    var loaded := LoadRules(document, compileError);
    if loaded.Err? {
      return Aborted(loaded.error);
    }
    var rules := loaded.value;
    var exts := MergeExtensions(DefaultExts, extra);
    var cands := IterFiles([], tree, exts);
    var findings, errors := Accumulate(root, cands, rules, finditer);
    var report := if exportRequested then Some(Report(root, findings, errors)) else None;
    result := Completed(ConsoleView(findings, errors), report, ExitCode(findings));
  }

  /** A run aborts exactly when the rule document cannot be read or one of
      its patterns does not compile. */
  lemma RunAbortsIff(document: RuleDocument, compileError: CompileOracle, extra: seq<string>,
                     root: string, tree: Entry, finditer: MatchOracle, exportRequested: bool)
    requires MatchesInBounds(finditer)
    ensures RunSpec(document, compileError, extra, root, tree, finditer, exportRequested).Aborted?
        <==> document.Err? || exists i :: 0 <= i < |document.value| && compileError(document.value[i].regex).Some?
  {
    if document.Ok? {
      CompileAllSucceedsIff(document.value, compileError);
    }
  }

  /** Some rule matches somewhere in the text of a readable file of `cands`. */
  ghost predicate SomeFileMatches(cands: seq<Candidate>, rules: seq<Rule>, finditer: MatchOracle) {
    exists k, i :: 0 <= k < |cands| && cands[k].content.Decoded? && 0 <= i < |rules|
                   && finditer(rules[i].compiled, cands[k].content.text) != []
  }

  /** A run has findings exactly when some rule matches in some readable file. */
  lemma RunFindingsNonEmptyIff(root: string, cands: seq<Candidate>, rules: seq<Rule>, finditer: MatchOracle)
    requires MatchesInBounds(finditer)
    ensures RunFindings(root, cands, rules, finditer) != [] <==> SomeFileMatches(cands, rules, finditer)
  {
    RunFindingsCount(root, cands, rules, finditer);
    TotalMatchesZeroIff(cands, rules, finditer);
  }

  /** Some readable file of the tree that the walk yields from `tree` with
      the extensions `exts` has the text `text`. */
  ghost predicate ScannedText(tree: Entry, exts: set<string>, text: string) {
    exists rel, name :: Reachable(tree, rel, name, Decoded(text)) && NoneSkipped(rel) && Recognised(name, exts)
  }

  /** Some rule matches somewhere in the text of a file the walk scans. */
  ghost predicate SomeScannedTextMatches(tree: Entry, exts: set<string>, rules: seq<Rule>, finditer: MatchOracle) {
    exists text, i :: ScannedText(tree, exts, text) && 0 <= i < |rules| && finditer(rules[i].compiled, text) != []
  }

  /** A match in a yielded file is a match in a scanned file of the tree. */
  lemma YieldedMatchIsScanned(tree: Entry, exts: set<string>, rules: seq<Rule>, finditer: MatchOracle)
    requires SomeFileMatches(Walk([], tree, exts), rules, finditer)
    ensures SomeScannedTextMatches(tree, exts, rules, finditer)
  {
    var cands := Walk([], tree, exts);
    var k, i :| 0 <= k < |cands| && cands[k].content.Decoded? && 0 <= i < |rules|
                && finditer(rules[i].compiled, cands[k].content.text) != [];
    var c := cands[k];
    WalkCharacterization(tree, exts, c.dirs, c.name, c.content);
    assert ScannedText(tree, exts, c.content.text);
  }

  /** A match in a scanned file of the tree is a match in a yielded file. */
  lemma ScannedMatchIsYielded(tree: Entry, exts: set<string>, rules: seq<Rule>, finditer: MatchOracle)
    requires SomeScannedTextMatches(tree, exts, rules, finditer)
    ensures SomeFileMatches(Walk([], tree, exts), rules, finditer)
  {
    var cands := Walk([], tree, exts);
    var text, i :| ScannedText(tree, exts, text) && 0 <= i < |rules| && finditer(rules[i].compiled, text) != [];
    var rel, name :| Reachable(tree, rel, name, Decoded(text)) && NoneSkipped(rel) && Recognised(name, exts);
    WalkCharacterization(tree, exts, rel, name, Decoded(text));
    var k :| 0 <= k < |cands| && cands[k] == Candidate(rel, name, Decoded(text));
    assert cands[k].content.Decoded?;
  }

  /** A completed run exits with 1 exactly when some rule matches somewhere
      in the text of a scanned file, and with 0 otherwise. */
  lemma ExitCodeIff(document: RuleDocument, compileError: CompileOracle, extra: seq<string>,
                    root: string, tree: Entry, finditer: MatchOracle, exportRequested: bool)
    requires MatchesInBounds(finditer)
    requires document.Ok? && CompileAll(document.value, compileError).Ok?
    ensures var r := RunSpec(document, compileError, extra, root, tree, finditer, exportRequested);
      var rules := CompileAll(document.value, compileError).value;
      && r.Completed?
      && (r.exitCode == 1 <==> SomeScannedTextMatches(tree, RunExtensions(extra), rules, finditer))
      && (r.exitCode == 0 <==> !SomeScannedTextMatches(tree, RunExtensions(extra), rules, finditer))
  {
    var rules := CompileAll(document.value, compileError).value;
    var cands := Walk([], tree, RunExtensions(extra));
    RunFindingsNonEmptyIff(root, cands, rules, finditer);
    if SomeFileMatches(cands, rules, finditer) {
      YieldedMatchIsScanned(tree, RunExtensions(extra), rules, finditer);
    }
    if SomeScannedTextMatches(tree, RunExtensions(extra), rules, finditer) {
      ScannedMatchIsYielded(tree, RunExtensions(extra), rules, finditer);
    }
  }

  /** The console lists at most 200 findings and 50 read errors, each the
      first ones of the export report, and accounts for every other one in
      its suppressed counts; the report itself is complete. */
  lemma ConsoleAgreesWithExport(document: RuleDocument, compileError: CompileOracle, extra: seq<string>,
                                root: string, tree: Entry, finditer: MatchOracle)
    requires MatchesInBounds(finditer)
    requires RunSpec(document, compileError, extra, root, tree, finditer, true).Completed?
    ensures var r := RunSpec(document, compileError, extra, root, tree, finditer, true);
      var rules := CompileAll(document.value, compileError).value;
      && r.report.Some?
      && var report := r.report.value;
      && report.root == root
      && |report.findings| == TotalMatches(Walk([], tree, RunExtensions(extra)), rules, finditer)
      && (r.console.findings.Found? ==>
            var l := r.console.findings.listing;
            && r.console.findings.total == |report.findings|
            && |l.shown| <= FindingsShown && l.shown == report.findings[..|l.shown|]
            && |l.shown| + l.suppressed.GetOr(0) == |report.findings|)
      && (r.console.findings.NothingFound? <==> report.findings == [])
      && (r.console.errors.Some? ==>
            var l := r.console.errors.value;
            && |l.shown| <= ErrorsShown && l.shown == report.errors[..|l.shown|]
            && |l.shown| + l.suppressed.GetOr(0) == |report.errors|)
      && (r.console.errors.None? <==> report.errors == [])
  {
    var rules := CompileAll(document.value, compileError).value;
    RunFindingsCount(root, Walk([], tree, RunExtensions(extra)), rules, finditer);
  }

  /** Whether an export is requested changes neither the console summary nor
      the exit code. */
  lemma ExportIsSideChannel(document: RuleDocument, compileError: CompileOracle, extra: seq<string>,
                            root: string, tree: Entry, finditer: MatchOracle)
    requires MatchesInBounds(finditer)
    ensures var a := RunSpec(document, compileError, extra, root, tree, finditer, true);
      var b := RunSpec(document, compileError, extra, root, tree, finditer, false);
      && (a.Aborted? <==> b.Aborted?)
      && (a.Completed? ==> a.console == b.console && a.exitCode == b.exitCode && b.report.None?)
  {
  }
}
