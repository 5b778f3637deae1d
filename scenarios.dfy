/** Typical compiler logs and what the checks make of them. Each log is
    described by the kind of each of its lines, so every scenario holds for
    all logs of its shape. */
module DetektScenarios {
  import opened KotlinText
  import opened DetektLog
  import opened CompilerAssertions

  /** A line of the log that is neither a marker nor a violation. */
  predicate Noise(line: string) {
    !IsRunStart(line) && !IsStatusLine(line) && !IsViolationLine(line)
  }

  /** A line that opens the detekt run. */
  predicate Marker(line: string) {
    IsRunStart(line) && !IsStatusLine(line) && !IsViolationLine(line)
  }

  /** A line that reports one issue of `rule`. */
  predicate ViolationOf(line: string, rule: string) {
    IsViolationLine(line) && !IsRunStart(line) && !IsStatusLine(line) && Identifier(line) == rule
  }

  /** A status line that is not a violation line. */
  predicate StatusReport(line: string) {
    IsStatusLine(line) && !IsViolationLine(line)
  }

  /** Joining lines free of line breaks and splitting them again gives back
      the same lines. */
  lemma LinesOfJoin(lines: seq<string>)
    requires forall i :: 0 <= i < |lines| ==> '\n' !in lines[i]
    ensures |lines| > 0 ==> Lines(Join(lines, '\n')) == lines
  {
    if |lines| > 0 {
      SplitJoin(lines, '\n');
    }
  }

  /** The block of a marker, one violation and a status line reports that
      violation, and its status is the one the status line gives. */
  lemma OneViolationBlock(marker: string, violation: string, status: string, rule: string)
    requires Marker(marker) && ViolationOf(violation, rule) && StatusReport(status)
    ensures Violations([marker, violation, status]) == [rule]
    ensures Status([marker, violation, status]) == Some(ToBoolean(LastToken(status)))
  {
    var block := [marker, violation, status];
    assert block[..2] == [marker, violation] && block[..2][..1] == [marker] && [marker][..0] == [];
    assert Filter([marker], IsViolationLine) == [];
    assert Filter(block, IsViolationLine) == [violation];
    assert !IsStatusLine(block[0]) && !IsStatusLine(block[1]) && IsStatusLine(block[2]);
  }

  /** The block of a marker and a status line reports no violation. */
  lemma QuietBlock(marker: string, status: string)
    requires Marker(marker) && StatusReport(status)
    ensures Violations([marker, status]) == []
    ensures Status([marker, status]) == Some(ToBoolean(LastToken(status)))
  {
    var block := [marker, status];
    assert block[..1] == [marker] && [marker][..0] == [];
    assert Filter(block, IsViolationLine) == [];
    assert !IsStatusLine(block[0]) && IsStatusLine(block[1]);
  }

  /** Plain text, the marker, one violation, a status line and more plain
      text: the run block is the three lines from the marker to the status
      line. */
  lemma FiveLineBlock(noise: string, marker: string, violation: string, status: string,
                      trailer: string, rule: string)
    requires Noise(noise) && Marker(marker) && ViolationOf(violation, rule) && StatusReport(status) && Noise(trailer)
    ensures RunBlock([noise, marker, violation, status, trailer]) == [marker, violation, status]
  {
    var lines := [noise, marker, violation, status, trailer];
    assert !IsRunStart(lines[0]) && IsRunStart(lines[1]);
    assert IsStatusLine(lines[3]) && !IsStatusLine(lines[4]);
    assert IndexOfFirst(lines, IsRunStart) == Some(1);
    assert IndexOfLast(lines, IsStatusLine) == Some(3);
    RunBlockSlice(lines);
    assert lines[1..4] == [marker, violation, status];
  }

  /** A log with a failed or passed run that reports one issue: the checks
      see exactly that rule, and the status line decides `passDetekt`. */
  lemma RunWithOneViolation(noise: string, marker: string, violation: string, status: string,
                            trailer: string, rule: string, code: ExitCode)
    requires forall line | line in [noise, marker, violation, status, trailer] :: '\n' !in line
    requires Noise(noise) && Marker(marker) && ViolationOf(violation, rule) && StatusReport(status) && Noise(trailer)
    ensures var a := AssertThat(CompilationResult(code, Join([noise, marker, violation, status, trailer], '\n')));
            var passed := ToBoolean(LastToken(status));
            && a.DetektMessages() == [marker, violation, status]
            && a.DetektViolations() == [rule]
            && a.WithViolations(1) == Passed(a)
            && a.WithNoViolations() == Failed(ViolationCountMismatch(1, 0))
            && a.WithRuleViolation([rule]) == Passed(a)
            && a.PassDetekt(passed) == Passed(a)
            && a.PassDetekt(!passed) == Failed(DetektStatusMismatch(passed, !passed))
  {
    var lines := [noise, marker, violation, status, trailer];
    assert forall i :: 0 <= i < |lines| ==> '\n' !in lines[i];
    LinesOfJoin(lines);
    FiveLineBlock(noise, marker, violation, status, trailer, rule);
    OneViolationBlock(marker, violation, status, rule);
  }

  /** A log with just the marker and a status line: no violations. */
  lemma RunWithoutViolations(marker: string, status: string, code: ExitCode)
    requires '\n' !in marker && '\n' !in status
    requires Marker(marker) && StatusReport(status)
    ensures var a := AssertThat(CompilationResult(code, Join([marker, status], '\n')));
            var passed := ToBoolean(LastToken(status));
            && a.DetektMessages() == [marker, status]
            && a.PassDetekt(passed) == Passed(a)
            && a.WithNoViolations() == Passed(a)
            && a.WithViolations(1) == Failed(ViolationCountMismatch(0, 1))
  {
    var lines := [marker, status];
    assert forall i :: 0 <= i < |lines| ==> '\n' !in lines[i];
    LinesOfJoin(lines);
    assert IndexOfFirst(lines, IsRunStart) == Some(0);
    assert IndexOfLast(lines, IsStatusLine) == Some(1);
    RunBlockSlice(lines);
    assert lines[0..2] == lines;
    QuietBlock(marker, status);
  }

  /** A log without the run marker has an empty run block, so `passDetekt`
      reports the missing status line whatever it expects. */
  lemma LogWithoutRun(messages: string, code: ExitCode)
    requires forall i :: 0 <= i < |Lines(messages)| ==> !IsRunStart(Lines(messages)[i])
    ensures var a := AssertThat(CompilationResult(code, messages));
            && a.DetektMessages() == []
            && a.PassDetekt(true) == a.PassDetekt(false) == Failed(MissingStatusLine)
            && a.WithNoViolations() == Passed(a)
  {
    RunBlockSlice(Lines(messages));
  }
}
