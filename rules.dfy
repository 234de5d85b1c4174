/** Rule records, their compilation and the pattern-matching oracle.

    The regular-expression engine is not modelled: compiling a pattern is an
    oracle that either accepts it or names the error, and matching is an
    oracle that returns the spans of the matches, which are in bounds, in
    left-to-right order and do not overlap. */
module Rules {
  import opened Options

  /** One entry of the rule document: name, pattern source and the optional
      severity and description. */
  datatype RawRule = RawRule(name: string, regex: string, severity: Option<string>, description: Option<string>)

  /** A compiled pattern: its source and the two flags it is compiled with. */
  datatype Pattern = Pattern(source: string, ignoreCase: bool, multiLine: bool)

  /** A loaded rule: the entry of the rule document plus its compiled pattern. */
  datatype Rule = Rule(name: string, regex: string, severity: Option<string>, description: Option<string>, compiled: Pattern)

  /** Why loading the rules failed: the rule document could not be read or
      parsed, or the pattern of the rule at `index` did not compile. */
  datatype LoadError = DocumentError(message: string) | PatternError(index: nat, message: string)

  /** The regular-expression compiler: the error message for a pattern it
      rejects, None for one it accepts. */
  type CompileOracle = string -> Option<string>

  /** The rule with its pattern compiled case-insensitively and in multi-line mode. */
  function Compiled(raw: RawRule): (r: Rule)
    ensures r.compiled.ignoreCase && r.compiled.multiLine && r.compiled.source == raw.regex
    ensures r.name == raw.name && r.regex == raw.regex
    ensures r.severity == raw.severity && r.description == raw.description
  {
    Rule(raw.name, raw.regex, raw.severity, raw.description, Pattern(raw.regex, true, true))
  }

  /** Compile the rules in order, stopping at the first pattern that does not
      compile. On success every rule is kept, in order; on failure the error
      names the first rejected pattern and its message. */
  function CompileAll(raws: seq<RawRule>, compileError: CompileOracle): (r: Result<seq<Rule>, LoadError>)
    ensures r.Ok? ==> |r.value| == |raws|
    ensures r.Ok? ==> forall i :: 0 <= i < |raws| ==> r.value[i] == Compiled(raws[i]) && compileError(raws[i].regex).None?
    ensures r.Err? ==> r.error.PatternError? && r.error.index < |raws|
    ensures r.Err? ==> compileError(raws[r.error.index].regex) == Some(r.error.message)
    ensures r.Err? ==> forall i :: 0 <= i < r.error.index ==> compileError(raws[i].regex).None?
  {
    if raws == [] then Ok([])
    else
      var n := |raws| - 1;
      match CompileAll(raws[..n], compileError)
      case Err(e) => Err(e)
      case Ok(rules) =>
        match compileError(raws[n].regex)
        case Some(message) => Err(PatternError(n, message))
        case None => Ok(rules + [Compiled(raws[n])])
  }

  /** Loading succeeds exactly when every pattern compiles. */
  lemma {:induction false} CompileAllSucceedsIff(raws: seq<RawRule>, compileError: CompileOracle)
    ensures CompileAll(raws, compileError).Ok? <==> forall i :: 0 <= i < |raws| ==> compileError(raws[i].regex).None?
  {
    if raws != [] {
      var n := |raws| - 1;
      CompileAllSucceedsIff(raws[..n], compileError);
      assert forall i :: 0 <= i < n ==> raws[..n][i] == raws[i];
    }
  }

  /** Once a prefix of the rules fails to compile, so does the whole list,
      with the same error. */
  lemma {:induction false} CompileAllPrefixFailure(raws: seq<RawRule>, k: nat, compileError: CompileOracle)
    requires k <= |raws|
    requires CompileAll(raws[..k], compileError).Err?
    ensures CompileAll(raws, compileError) == CompileAll(raws[..k], compileError)
  {
    if k < |raws| {
      var n := |raws| - 1;
      assert raws[..n][..k] == raws[..k];
      CompileAllPrefixFailure(raws[..n], k, compileError);
    } else {
      assert raws[..k] == raws;
    }
  }

  /** The rule document: its entries, or why it could not be read or parsed. */
  type RuleDocument = Result<seq<RawRule>, string>

  /** What loading the rule document gives. */
  function LoadSpec(document: RuleDocument, compileError: CompileOracle): Result<seq<Rule>, LoadError>
  {
    match document
    case Err(message) => Err(DocumentError(message))
    case Ok(raws) => CompileAll(raws, compileError)
  }

  /** Load the rules: read the document, then compile every rule in order,
      failing at the first pattern that does not compile. */
  method LoadRules(document: RuleDocument, compileError: CompileOracle) returns (result: Result<seq<Rule>, LoadError>)
    ensures result == LoadSpec(document, compileError)
    ensures document.Err? ==> result == Err(DocumentError(document.error))
    ensures result.Ok? ==> document.Ok? && |result.value| == |document.value|
  {
    if document.Err? {
      return Err(DocumentError(document.error));
    }
    var raws := document.value;
    var rules: seq<Rule> := [];
    var i := 0;
    while i < |raws|
      invariant 0 <= i <= |raws|
      invariant CompileAll(raws[..i], compileError) == Ok(rules)
    {
      var raw := raws[i];
      var error := compileError(raw.regex);
      if error.Some? {
        assert raws[..i + 1][..i] == raws[..i];
        CompileAllPrefixFailure(raws, i + 1, compileError);
        return Err(PatternError(i, error.value));
      }
      rules := rules + [Compiled(raw)];
      assert raws[..i + 1][..i] == raws[..i];
      i := i + 1;
    }
    assert raws[..i] == raws;
    result := Ok(rules);
  }

  /** A match of a pattern: the text `[start, end)`. */
  datatype Span = Span(start: nat, end: nat)

  /** The matches of one pattern in a text of length `len`, as the engine
      reports them: each in bounds, in left-to-right order, none overlapping
      a later one. */
  ghost predicate SpansWellFormed(spans: seq<Span>, len: nat) {
    && SpansInBounds(spans, len)
    && (forall i, j :: 0 <= i < j < |spans| ==> spans[i].end <= spans[j].start)
  }

  /** Every span lies within a text of length `len`. */
  ghost predicate SpansInBounds(spans: seq<Span>, len: nat) {
    forall i :: 0 <= i < |spans| ==> spans[i].start <= spans[i].end <= len
  }

  /** The matching engine: all non-overlapping matches of a pattern in a text. */
  type MatchOracle = (Pattern, string) -> seq<Span>

  /** What the engine guarantees of every pattern and every text. */
  ghost predicate MatcherContract(finditer: MatchOracle) {
    forall p, t :: SpansWellFormed(finditer(p, t), |t|)
  }

  /** The part of the engine's guarantee that building findings relies on:
      every match lies within the text. */
  ghost predicate MatchesInBounds(finditer: MatchOracle) {
    forall p, t :: SpansInBounds(finditer(p, t), |t|)
  }

  /** The engine's guarantee includes the bounds. */
  lemma ContractGivesBounds(finditer: MatchOracle)
    requires MatcherContract(finditer)
    ensures MatchesInBounds(finditer)
  {
  }
}
