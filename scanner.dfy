/** The file scanner: the findings of every rule in one file's text, rule by
    rule and, within a rule, match by match from left to right. */
module Scanner {
  import opened Options
  import opened Text
  import opened Rules
  import opened FileSystem

  /** Severity of a rule that does not name one. */
  const DefaultSeverity: string := "medium"

  /** Description of a rule that does not give one. */
  const DefaultDescription: string := ""

  /** One match of one rule in one file. */
  datatype Finding = Finding(
    file: string,
    line: nat,
    rule: string,
    severity: string,
    description: string,
    matched: string,
    snippet: string)

  /** The finding for the match `m` of `rule` in the text of file `path`:
      the rule's severity and description or their defaults, the matched
      text, and the line of the match: one more than the line breaks before
      it. */
  function MakeFinding(path: string, rule: Rule, text: string, m: Span): (f: Finding)
    requires m.start <= m.end <= |text|
    ensures f.file == path && f.rule == rule.name
    ensures f.severity == (if rule.severity.Some? then rule.severity.value else DefaultSeverity)
    ensures f.description == (if rule.description.Some? then rule.description.value else DefaultDescription)
    ensures f.matched == text[m.start..m.end]
    ensures f.line == CountNewlines(text[..m.start]) + 1
  {
    var w := SnippetWindow(|text|, m.start, m.end);
    Finding(path, LineNumber(text, m.start), rule.name, rule.severity.GetOr(DefaultSeverity),
            rule.description.GetOr(DefaultDescription), text[m.start..m.end], Escape(text[w.from..w.to]))
  }

  /** The line of a finding lies within the text. Its snippet is one line
      that holds the escaped match, after at most `Context` characters of
      escaped context; it is as long as the context window plus the line
      breaks in it, so never longer than twice the match with its largest
      context. */
  lemma FindingShape(path: string, rule: Rule, text: string, m: Span)
    requires m.start <= m.end <= |text|
    ensures var f := MakeFinding(path, rule, text, m);
      var w := SnippetWindow(|text|, m.start, m.end);
      && 1 <= f.line <= CountNewlines(text) + 1
      && '\n' !in f.snippet
      && (exists k: nat :: k <= 2 * Context && OccursAt(Escape(f.matched), f.snippet, k))
      && |f.snippet| == (w.to - w.from) + CountNewlines(text[w.from..w.to])
      && |f.snippet| <= 2 * (m.end - m.start + 2 * Context)
  {
    LineNumberBounds(text, m.start);
    var w := SnippetWindow(|text|, m.start, m.end);
    EscapedSliceOccurs(text, w.from, m.start, m.end, w.to);
    EscapeShape(text[w.from..w.to]);
    EscapeShape(text[w.from..m.start]);
    var k := |Escape(text[w.from..m.start])|;
    assert k <= 2 * Context;
    assert OccursAt(Escape(text[m.start..m.end]), Escape(text[w.from..w.to]), k);
  }

  /** The findings of one rule whose matches are `spans`, in match order. */
  function RuleFindings(path: string, rule: Rule, text: string, spans: seq<Span>): (fs: seq<Finding>)
    requires SpansInBounds(spans, |text|)
    ensures |fs| == |spans|
  {
    seq(|spans|, k requires 0 <= k < |spans| => MakeFinding(path, rule, text, spans[k]))
  }

  /** The number of matches of all rules in a text. */
  function MatchCount(rules: seq<Rule>, text: string, finditer: MatchOracle): nat
  {
    if rules == [] then 0
    else MatchCount(rules[..|rules| - 1], text, finditer) + |finditer(rules[|rules| - 1].compiled, text)|
  }

  /** The sequences of `xss` one after the other. */
  function Concat<T>(xss: seq<seq<T>>): seq<T>
  {
    if xss == [] then [] else Concat(xss[..|xss| - 1]) + xss[|xss| - 1]
  }

  /** One more sequence adds its elements at the end. */
  lemma ConcatAppend<T>(xss: seq<seq<T>>, ys: seq<T>)
    ensures Concat(xss + [ys]) == Concat(xss) + ys
  {
    assert (xss + [ys])[..|xss|] == xss;
  }

  /** The first `m` sequences give a prefix of all of them. */
  lemma {:induction false} ConcatPrefix<T>(xss: seq<seq<T>>, m: nat)
    requires m <= |xss|
    ensures Concat(xss[..m]) <= Concat(xss)
  {
    if m < |xss| {
      var n := |xss| - 1;
      assert xss[..n][..m] == xss[..m];
      ConcatPrefix(xss[..n], m);
    } else {
      assert xss[..m] == xss;
    }
  }

  /** Element `j` of `xss[i]` comes right after all elements of the earlier sequences. */
  lemma ConcatAt<T>(xss: seq<seq<T>>, i: nat, j: nat)
    requires i < |xss| && j < |xss[i]|
    ensures |Concat(xss[..i])| + j < |Concat(xss)|
    ensures Concat(xss)[|Concat(xss[..i])| + j] == xss[i][j]
  {
    ConcatPrefix(xss, i + 1);
    assert xss[..i + 1] == xss[..i] + [xss[i]];
    ConcatAppend(xss[..i], xss[i]);
  }

  /** Every element of the concatenation is an element of one of the sequences. */
  lemma {:induction false} ConcatMember<T>(xss: seq<seq<T>>, x: T) returns (i: nat, j: nat)
    requires x in Concat(xss)
    ensures i < |xss| && j < |xss[i]| && xss[i][j] == x
  {
    var n := |xss| - 1;
    if x in Concat(xss[..n]) {
      i, j := ConcatMember(xss[..n], x);
      assert xss[..n][i] == xss[i];
    } else {
      assert x in xss[n];
      i := n;
      j :| 0 <= j < |xss[n]| && xss[n][j] == x;
    }
  }

  /** The findings of every rule, one sequence per rule. */
  function PerRule(path: string, rules: seq<Rule>, text: string, finditer: MatchOracle): (r: seq<seq<Finding>>)
    requires MatchesInBounds(finditer)
    ensures |r| == |rules|
  {
    seq(|rules|, i requires 0 <= i < |rules| => RuleFindings(path, rules[i], text, finditer(rules[i].compiled, text)))
  }

  /** The findings of all rules in the text of file `path`: rule by rule, in
      rule order. */
  function FileFindings(path: string, rules: seq<Rule>, text: string, finditer: MatchOracle): (fs: seq<Finding>)
    requires MatchesInBounds(finditer)
  {
    Concat(PerRule(path, rules, text, finditer))
  }

  /** The per-rule findings of the first `m` rules are those of all rules, cut at `m`. */
  lemma PerRulePrefix(path: string, rules: seq<Rule>, text: string, finditer: MatchOracle, m: nat)
    requires MatchesInBounds(finditer) && m <= |rules|
    ensures PerRule(path, rules[..m], text, finditer) == PerRule(path, rules, text, finditer)[..m]
  {
  }

  /** One more match adds its finding at the end. */
  lemma RuleFindingsExtend(path: string, rule: Rule, text: string, spans: seq<Span>, j: nat)
    requires SpansInBounds(spans, |text|) && j < |spans|
    ensures SpansInBounds(spans[..j], |text|) && SpansInBounds(spans[..j + 1], |text|)
    ensures RuleFindings(path, rule, text, spans[..j + 1])
         == RuleFindings(path, rule, text, spans[..j]) + [MakeFinding(path, rule, text, spans[j])]
  {
    assert spans[..j + 1][..j] == spans[..j];
  }

  /** The inner loop of the scan: append the finding of every match of
      `rule`, from left to right, to `findings`. */
  method AppendRuleFindings(findings: seq<Finding>, path: string, rule: Rule, text: string, spans: seq<Span>)
    returns (out: seq<Finding>)
    requires SpansInBounds(spans, |text|)
    ensures out == findings + RuleFindings(path, rule, text, spans)
  {
    out := findings;
    for j := 0 to |spans|
      invariant SpansInBounds(spans[..j], |text|)
      invariant out == findings + RuleFindings(path, rule, text, spans[..j])
    {
      RuleFindingsExtend(path, rule, text, spans, j);
      out := out + [MakeFinding(path, rule, text, spans[j])];
    }
    assert spans[..|spans|] == spans;
  }

  /** One more rule adds its findings at the end. */
  lemma FileFindingsExtend(path: string, rules: seq<Rule>, text: string, finditer: MatchOracle, i: nat)
    requires MatchesInBounds(finditer) && i < |rules|
    ensures SpansInBounds(finditer(rules[i].compiled, text), |text|)
    ensures FileFindings(path, rules[..i + 1], text, finditer)
         == FileFindings(path, rules[..i], text, finditer) + RuleFindings(path, rules[i], text, finditer(rules[i].compiled, text))
  {
    var p := PerRule(path, rules[..i + 1], text, finditer);
    assert p == PerRule(path, rules[..i], text, finditer) + [RuleFindings(path, rules[i], text, finditer(rules[i].compiled, text))];
    ConcatAppend(PerRule(path, rules[..i], text, finditer), RuleFindings(path, rules[i], text, finditer(rules[i].compiled, text)));
  }

  /** Scan one file: no findings and the error message when it cannot be
      read, otherwise every rule's findings in its text, in rule order, and
      no error. */
  method ScanFile(path: string, rules: seq<Rule>, read: ReadResult, finditer: MatchOracle)
    returns (findings: seq<Finding>, err: Option<string>)
    requires MatchesInBounds(finditer)
    ensures read.ReadFailed? ==> findings == [] && err == Some(read.message)
    ensures read.Decoded? ==> err == None && findings == FileFindings(path, rules, read.text, finditer)
  {
    if read.ReadFailed? {
      return [], Some(read.message);
    }
    var text := read.text;
    findings, err := [], None;
    for i := 0 to |rules|
      invariant findings == FileFindings(path, rules[..i], text, finditer)
    {
      FileFindingsExtend(path, rules, text, finditer, i);
      findings := AppendRuleFindings(findings, path, rules[i], text, finditer(rules[i].compiled, text));
    }
    assert rules[..|rules|] == rules;
  }

  /** A file yields one finding per match of every rule. */
  lemma {:induction false} FileFindingsCount(path: string, rules: seq<Rule>, text: string, finditer: MatchOracle)
    requires MatchesInBounds(finditer)
    ensures |FileFindings(path, rules, text, finditer)| == MatchCount(rules, text, finditer)
  {
    if rules != [] {
      var n := |rules| - 1;
      FileFindingsCount(path, rules[..n], text, finditer);
      FileFindingsExtend(path, rules, text, finditer, n);
      assert rules[..n + 1] == rules;
    }
  }

  /** A text has no matches exactly when no rule matches in it. */
  lemma {:induction false} MatchCountZeroIff(rules: seq<Rule>, text: string, finditer: MatchOracle)
    ensures MatchCount(rules, text, finditer) == 0 <==> forall i :: 0 <= i < |rules| ==> finditer(rules[i].compiled, text) == []
  {
    if rules != [] {
      var n := |rules| - 1;
      MatchCountZeroIff(rules[..n], text, finditer);
      assert forall i :: 0 <= i < n ==> rules[..n][i] == rules[i];
    }
  }

  /** Rule-major order: the finding of match `j` of rule `i` comes right
      after the findings of all earlier rules and the earlier matches of
      rule `i`. */
  lemma FileFindingsAt(path: string, rules: seq<Rule>, text: string, finditer: MatchOracle, i: nat, j: nat)
    requires MatchesInBounds(finditer)
    requires i < |rules| && j < |finditer(rules[i].compiled, text)|
    ensures var fs := FileFindings(path, rules, text, finditer);
      MatchCount(rules[..i], text, finditer) + j < |fs| &&
      fs[MatchCount(rules[..i], text, finditer) + j] == MakeFinding(path, rules[i], text, finditer(rules[i].compiled, text)[j])
  {
    var p := PerRule(path, rules, text, finditer);
    PerRulePrefix(path, rules, text, finditer, i);
    FileFindingsCount(path, rules[..i], text, finditer);
    ConcatAt(p, i, j);
  }

  /** `f` is the finding of some match of `rule` in the text of file `path`. */
  ghost predicate IsFindingOf(f: Finding, path: string, rule: Rule, text: string, finditer: MatchOracle)
    requires MatchesInBounds(finditer)
  {
    exists j :: 0 <= j < |finditer(rule.compiled, text)| && f == MakeFinding(path, rule, text, finditer(rule.compiled, text)[j])
  }

  /** Every finding of a file is the finding of a match of one of the rules. */
  lemma FileFindingsSound(path: string, rules: seq<Rule>, text: string, finditer: MatchOracle, f: Finding)
    requires MatchesInBounds(finditer)
    requires f in FileFindings(path, rules, text, finditer)
    ensures exists i :: 0 <= i < |rules| && IsFindingOf(f, path, rules[i], text, finditer)
  {
    var p := PerRule(path, rules, text, finditer);
    var i, j := ConcatMember(p, f);
    assert IsFindingOf(f, path, rules[i], text, finditer);
  }

  /** Within one rule the findings go down the file: their line numbers never decrease. */
  lemma RuleFindingsLinesAscend(path: string, rule: Rule, text: string, spans: seq<Span>, a: nat, b: nat)
    requires SpansWellFormed(spans, |text|)
    requires a <= b < |spans|
    ensures RuleFindings(path, rule, text, spans)[a].line <= RuleFindings(path, rule, text, spans)[b].line
  {
    if a < b {
      assert spans[a].start <= spans[a].end <= spans[b].start;
    }
    LineNumberAdvance(text, spans[a].start, spans[b].start);
  }

  /** Within one rule the findings of a file go down the file: a later match
      of rule `i` is never reported on an earlier line. This relies on the
      engine reporting matches from left to right. */
  lemma FileFindingsLinesAscend(path: string, rules: seq<Rule>, text: string, finditer: MatchOracle, i: nat, a: nat, b: nat)
    requires MatcherContract(finditer)
    requires i < |rules| && a <= b < |finditer(rules[i].compiled, text)|
    ensures MatchesInBounds(finditer)
    ensures var fs := FileFindings(path, rules, text, finditer);
      var base := MatchCount(rules[..i], text, finditer);
      base + b < |fs| && fs[base + a].line <= fs[base + b].line
  {
    ContractGivesBounds(finditer);
    FileFindingsAt(path, rules, text, finditer, i, a);
    FileFindingsAt(path, rules, text, finditer, i, b);
    RuleFindingsLinesAscend(path, rules[i], text, finditer(rules[i].compiled, text), a, b);
  }

  /** The finding of the match "eval(" at offset 6 of the one-line text
      "<?php eval($_GET['x']); ?>": line 1, and the whole line as snippet. */
  lemma EvalUseFinding(rule: Rule, text: string)
    requires text == "<?php eval($_GET['x']); ?>"
    ensures var f := MakeFinding("app.php", rule, text, Span(6, 11));
      f.line == 1 && f.matched == "eval(" && f.snippet == text
  {
    assert '\n' !in text[..6];
    CountNewlinesOfPlainText(text[..6]);
    assert text[6..11] == "eval(";
    assert '\n' !in text;
    EscapeKeepsPlainText(text);
    assert text[0..|text|] == text;
    assert SnippetWindow(|text|, 6, 11) == Window(0, |text|);
  }

  /** The concrete case of a rule "eval-use" of severity "high" whose pattern
      matches "eval(" in "<?php eval($_GET['x']); ?>": one finding on line 1
      whose snippet is the whole line. */
  lemma EvalUseExample(finditer: MatchOracle, rule: Rule, text: string)
    requires MatchesInBounds(finditer)
    requires text == "<?php eval($_GET['x']); ?>"
    requires rule.name == "eval-use" && rule.severity == Some("high")
    requires finditer(rule.compiled, text) == [Span(6, 11)]
    ensures var fs := FileFindings("app.php", [rule], text, finditer);
      && |fs| == 1
      && fs[0].line == 1 && fs[0].severity == "high" && fs[0].rule == "eval-use"
      && fs[0].matched == "eval(" && fs[0].snippet == text
  {
    var spans := [Span(6, 11)];
    var fs := RuleFindings("app.php", rule, text, spans);
    assert PerRule("app.php", [rule], text, finditer) == [] + [fs];
    ConcatAppend([], fs);
    EvalUseFinding(rule, text);
  }
}
