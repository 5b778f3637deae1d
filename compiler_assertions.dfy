/** The fluent assertion object a test builds around one captured compiler
    run: `assertThat(result).passCompilation().passDetekt().withNoViolations()`.
    Every check either hands back the very same object, so that the next
    check can be chained, or stops with a failure that carries what was
    found and what was expected. */
module CompilerAssertions {
  import opened KotlinText
  import opened DetektLog

  /** How the compiler run ended (`KotlinCompilation.ExitCode`). */
  datatype ExitCode = OK | INTERNAL_ERROR | COMPILATION_ERROR | SCRIPT_EXECUTION_ERROR

  /** A finished compiler run: its exit code and everything it printed. */
  datatype CompilationResult = CompilationResult(exitCode: ExitCode, messages: string)

  /** Why a check failed, with the actual value first and the expected one
      second, as the failure report carries them. */
  datatype Failure =
    | CompilationOutcomeMismatch(actualCode: ExitCode, expectedCode: ExitCode)
    | DetektStatusMismatch(actualStatus: bool, expectedStatus: bool)
    | MissingStatusLine
    | ViolationCountMismatch(actualCount: int, expectedCount: int)
    | MissingExpectedViolation(expectedRules: seq<string>, foundViolations: seq<string>)

  /** The outcome of one check: the object itself, ready for the next check,
      or the failure that stops the chain (usable with `:-`). */
  datatype Checked = Passed(subject: CompilationAssert) | Failed(failure: Failure) {
    predicate IsFailure() {
      Failed?
    }

    function PropagateFailure(): Checked
      requires Failed?
    {
      this
    }

    function Extract(): CompilationAssert
      requires Passed?
    {
      subject
    }
  }

  /** `assertThat(result)` */
  function AssertThat(result: CompilationResult): CompilationAssert {
    CompilationAssert(result)
  }

  /** The exit code a compilation that should (or should not) succeed is
      expected to end with. */
  function ExpectedExitCode(expectedStatus: bool): ExitCode {
    if expectedStatus then OK else COMPILATION_ERROR
  }

  datatype CompilationAssert = CompilationAssert(result: CompilationResult) {

    /** The lines printed by the detekt run. */
    function DetektMessages(): seq<string> {
      RunBlock(Lines(result.messages))
    }

    /** The rule identifiers the detekt run reported, in order. */
    function DetektViolations(): seq<string> {
      Violations(DetektMessages())
    }

    /** `passCompilation(expectedStatus)`: a run expected to succeed must end
        with `OK`, one expected to fail with `COMPILATION_ERROR`. */
    function PassCompilation(expectedStatus: bool := true): (r: Checked)
      ensures r.Passed? ==> r.subject == this
      ensures r.Passed? <==> (expectedStatus && result.exitCode == OK)
                             || (!expectedStatus && result.exitCode == COMPILATION_ERROR)
      ensures r.Failed? ==> r.failure.CompilationOutcomeMismatch?
                            && r.failure.actualCode == result.exitCode
                            && r.failure.expectedCode != result.exitCode
                            && r.failure.expectedCode == (if expectedStatus then OK else COMPILATION_ERROR)
    {
      var expectedErrorCode := ExpectedExitCode(expectedStatus);
      if result.exitCode != expectedErrorCode then
        Failed(CompilationOutcomeMismatch(result.exitCode, expectedErrorCode))
      else
        Passed(this)
    }

    /** `passDetekt(expectedStatus)`: the status printed by the run must be
        the expected one; a run block without a status line is a failure of
        its own kind. */
    function PassDetekt(expectedStatus: bool := true): (r: Checked)
      ensures r.Passed? ==> r.subject == this
      ensures r.Passed? <==> Status(DetektMessages()) == Some(expectedStatus)
      ensures r == Failed(MissingStatusLine) <==> DetektMessages() == []
      ensures r.Failed? && r.failure != MissingStatusLine ==>
                r.failure == DetektStatusMismatch(!expectedStatus, expectedStatus)
    {
      StatusMissingIffEmpty(Lines(result.messages));
      match Status(DetektMessages())
      case None => Failed(MissingStatusLine)
      case Some(status) =>
        if status != expectedStatus then
          Failed(DetektStatusMismatch(status, expectedStatus))
        else
          Passed(this)
    }

    /** `withNoViolations()`, i.e. `withViolations(0)`: no line of the run
        block reports an issue. */
    function WithNoViolations(): (r: Checked)
      ensures r.Passed? ==> r.subject == this
      ensures r.Passed? <==> forall i :: 0 <= i < |DetektMessages()| ==> !IsViolationLine(DetektMessages()[i])
      ensures r.Failed? ==> r.failure == ViolationCountMismatch(|DetektViolations()|, 0)
                            && |DetektViolations()| > 0
    {
      NoViolationsIffNoViolationLines(DetektMessages());
      WithViolations(0)
    }

    /** `withViolations(expectedViolationNumber)`: the run block reports
        exactly that many issues. */
    function WithViolations(expectedViolationNumber: int): (r: Checked)
      ensures r.Passed? ==> r.subject == this
      ensures r.Passed? <==> |Positions(DetektMessages(), IsViolationLine)| == expectedViolationNumber
      ensures r.Failed? ==> r.failure == ViolationCountMismatch(|DetektViolations()|, expectedViolationNumber)
                            && |DetektViolations()| != expectedViolationNumber
    {
      ViolationCount(DetektMessages());
      if |DetektViolations()| != expectedViolationNumber then
        Failed(ViolationCountMismatch(|DetektViolations()|, expectedViolationNumber))
      else
        Passed(this)
    }

    /** `withRuleViolation(*expectedRuleName)`: every named rule was reported
        at least once; any other violations are allowed. */
    function WithRuleViolation(expectedRuleName: seq<string>): (r: Checked)
      ensures r.Passed? ==> r.subject == this
      ensures r.Passed? <==> forall i :: 0 <= i < |expectedRuleName| ==> expectedRuleName[i] in DetektViolations()
      ensures r.Failed? ==> r.failure == MissingExpectedViolation(expectedRuleName, DetektViolations())
    {
      var found := DetektViolations();
      if Any(expectedRuleName, (name: string) => name !in found) then
        Failed(MissingExpectedViolation(expectedRuleName, found))
      else
        Passed(this)
    }
  }

  // -----------------------------------------------------------------------
  // Properties of the checks
  // -----------------------------------------------------------------------

  /** A run that ended with neither `OK` nor `COMPILATION_ERROR` fails
      `passCompilation` whichever outcome was expected, reporting `OK` as
      expected for a run meant to succeed and `COMPILATION_ERROR` for one
      meant to fail; and no run passes both expectations. */
  lemma PassCompilationExclusive(a: CompilationAssert)
    ensures var code := a.result.exitCode;
            code !in {OK, COMPILATION_ERROR} ==>
              && a.PassCompilation(true) == Failed(CompilationOutcomeMismatch(code, OK))
              && a.PassCompilation(false) == Failed(CompilationOutcomeMismatch(code, COMPILATION_ERROR))
    ensures !(a.PassCompilation(true).Passed? && a.PassCompilation(false).Passed?)
  {
  }

  /** With a status line present exactly one of `passDetekt(true)` and
      `passDetekt(false)` passes; without one both fail for the missing
      line, and that happens exactly when the log has no run-start line at or
      before a status line. */
  lemma PassDetektDichotomy(a: CompilationAssert)
    ensures a.DetektMessages() != [] ==>
              a.PassDetekt(true).Passed? != a.PassDetekt(false).Passed?
    ensures a.DetektMessages() == [] ==>
              a.PassDetekt(true) == a.PassDetekt(false) == Failed(MissingStatusLine)
    ensures a.PassDetekt(true) == Failed(MissingStatusLine) <==>
              !exists i, j :: 0 <= i <= j < |Lines(a.result.messages)|
                              && IsRunStart(Lines(a.result.messages)[i])
                              && IsStatusLine(Lines(a.result.messages)[j])
  {
    RunBlockNonEmpty(Lines(a.result.messages));
  }

  /** `withNoViolations()` and `withViolations(0)` agree on every run. */
  lemma NoViolationsIsZeroViolations(a: CompilationAssert)
    ensures a.WithNoViolations() == a.WithViolations(0)
  {
  }

  /** `withRuleViolation` is a superset test: it depends only on the set of
      names asked for, never on their order or repetitions, ... */
  lemma RuleViolationIsSuperset(a: CompilationAssert, names: seq<string>)
    ensures a.WithRuleViolation(names).Passed? <==>
              (set n | n in names) <= (set v | v in a.DetektViolations())
  {
    EveryInIffSubset(names, a.DetektViolations());
  }

  /** ... so asking for two lists at once is asking for each in turn, and
      asking for nothing always passes. */
  lemma RuleViolationSplits(a: CompilationAssert, xs: seq<string>, ys: seq<string>)
    ensures a.WithRuleViolation(xs + ys).Passed? <==>
              a.WithRuleViolation(xs).Passed? && a.WithRuleViolation(ys).Passed?
    ensures a.WithRuleViolation([]).Passed?
  {
    var both := xs + ys;
    if a.WithRuleViolation(xs).Passed? && a.WithRuleViolation(ys).Passed? {
      forall i | 0 <= i < |both| ensures both[i] in a.DetektViolations() {
        if i < |xs| {
          assert both[i] == xs[i];
        } else {
          assert both[i] == ys[i - |xs|];
        }
      }
    }
    if a.WithRuleViolation(both).Passed? {
      forall i | 0 <= i < |xs| ensures xs[i] in a.DetektViolations() {
        assert both[i] == xs[i];
      }
      forall i | 0 <= i < |ys| ensures ys[i] in a.DetektViolations() {
        assert both[|xs| + i] == ys[i];
      }
    }
  }

  /** Checks chain: a chain of checks passes exactly when each check passes
      on the original object, and then it yields that object. */
  lemma ChainIsConjunction(a: CompilationAssert, compiles: bool, succeeds: bool, count: int, rules: seq<string>)
    ensures var chain := (var b :- a.PassCompilation(compiles);
                          var c :- b.PassDetekt(succeeds);
                          var d :- c.WithViolations(count);
                          d.WithRuleViolation(rules));
            && (chain.Passed? <==> a.PassCompilation(compiles).Passed? && a.PassDetekt(succeeds).Passed?
                                   && a.WithViolations(count).Passed? && a.WithRuleViolation(rules).Passed?)
            && (chain.Passed? ==> chain.subject == a)
  {
  }
}
