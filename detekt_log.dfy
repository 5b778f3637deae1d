/** What the assertion helper reads out of a compiler log: the block of
    lines printed by the detekt run, the rule identifiers it reports as
    violated, and its success status. */
module DetektLog {
  import opened KotlinText

  /** The line that opens the detekt run contains this. */
  const RUN_MARKER: string := "Running detekt"
  /** The status line, `i: Success?: <bool>`, contains this. */
  const STATUS_MARKER: string := "Success?"
  /** A tab followed by the ANSI escape that turns the text yellow. */
  const COLOR_PREFIX: string := "\t\U{1B}[33m"

  /** `messages.split("\n")` */
  function Lines(messages: string): seq<string> {
    Split(messages, '\n')
  }

  predicate IsRunStart(line: string) {
    Contains(line, RUN_MARKER)
  }

  predicate NotRunStart(line: string) {
    !IsRunStart(line)
  }

  predicate IsStatusLine(line: string) {
    Contains(line, STATUS_MARKER)
  }

  predicate NotStatusLine(line: string) {
    !IsStatusLine(line)
  }

  // ---------------------------------------------------------------------
  // The run block (`detektMessages`)
  // ---------------------------------------------------------------------

  /** `lines.dropWhile { "Running detekt" !in it }
             .dropLastWhile { "Success?" !in it }` */
  function RunBlock(lines: seq<string>): seq<string> {
    DropLastWhile(DropWhile(lines, NotRunStart), NotStatusLine)
  }

  /** The run block is the inclusive slice from the first run-start line to
      the last status line, and empty when either is missing or the last
      status line comes before the first run-start line. */
  lemma {:induction false} RunBlockSlice(lines: seq<string>)
    ensures var first, last := IndexOfFirst(lines, IsRunStart), IndexOfLast(lines, IsStatusLine);
            RunBlock(lines) ==
              if first.Some? && last.Some? && first.value <= last.value
              then lines[first.value..last.value + 1] else []
  {
    DropBothSlice(lines, IsRunStart, NotRunStart, IsStatusLine, NotStatusLine);
  }

  /** The run block is non-empty exactly when some run-start line comes no
      later than some status line. */
  lemma {:induction false} RunBlockNonEmpty(lines: seq<string>)
    ensures RunBlock(lines) != [] <==>
      exists i, j :: 0 <= i <= j < |lines| && IsRunStart(lines[i]) && IsStatusLine(lines[j])
  {
    RunBlockSlice(lines);
    var first, last := IndexOfFirst(lines, IsRunStart), IndexOfLast(lines, IsStatusLine);
    if first.Some? && last.Some? && first.value <= last.value {
      assert IsRunStart(lines[first.value]) && IsStatusLine(lines[last.value]);
    }
  }

  /** A non-empty run block opens with a run-start line and closes with a
      status line; no earlier line starts a run and no later line reports a
      status. */
  lemma {:induction false} RunBlockEndpoints(lines: seq<string>)
    requires RunBlock(lines) != []
    ensures var block := RunBlock(lines);
            && IsRunStart(block[0])
            && IsStatusLine(block[|block| - 1])
            && exists k: nat :: SliceAt(lines, block, k)
                             && (forall i :: 0 <= i < k ==> !IsRunStart(lines[i]))
                             && (forall i :: k + |block| <= i < |lines| ==> !IsStatusLine(lines[i]))
  {
    DropBothEndpoints(lines, IsRunStart, NotRunStart, IsStatusLine, NotStatusLine);
  }

  // ---------------------------------------------------------------------
  // Violations (`detektViolations`)
  // ---------------------------------------------------------------------

  /** A reported issue is printed on a line that starts with a tab. */
  predicate IsViolationLine(line: string) {
    |line| > 0 && line[0] == '\t'
  }

  /** `removePrefix("\t\u001B[33m")` */
  function StripColor(line: string): string {
    RemovePrefix(line, COLOR_PREFIX)
  }

  /** `split(' ').first()`: everything before the first space. */
  function FirstToken(s: string): (t: string)
    ensures ' ' !in t
    ensures s == t || StartsWith(s, t + [' '])
  {
    var parts := Split(s, ' ');
    assert |parts| > 1 ==> Join(parts, ' ') == parts[0] + [' '] + Join(parts[1..], ' ');
    parts[0]
  }

  /** The rule identifier a violation line reports. */
  function Identifier(line: string): string {
    FirstToken(StripColor(line))
  }

  /** `block.filter { it.startsWith('\t') }
              .map { it.removePrefix("\t\u001B[33m") }
              .map { it.split(' ').first() }` */
  function Violations(block: seq<string>): seq<string> {
    Map(Map(Filter(block, IsViolationLine), StripColor), FirstToken)
  }

  /** Every identifier is space-free and is the leading token of its line
      once the colour prefix is removed. */
  lemma IdentifierShape(line: string)
    ensures var id, stripped := Identifier(line), StripColor(line);
            && ' ' !in id
            && (stripped == id || StartsWith(stripped, id + [' ']))
            && (StartsWith(line, COLOR_PREFIX) ==> COLOR_PREFIX + stripped == line)
            && (!StartsWith(line, COLOR_PREFIX) ==> stripped == line)
  {
  }

  /** A violation line without the colour prefix keeps its tab, so its
      identifier starts with the tab. */
  lemma UncolouredIdentifierKeepsTab(line: string)
    requires IsViolationLine(line) && !StartsWith(line, COLOR_PREFIX)
    ensures |Identifier(line)| > 0 && Identifier(line)[0] == '\t'
  {
    var id := Identifier(line);
    assert StripColor(line) == line;
    if line != id {
      assert line[..|id| + 1] == id + [' '];
      assert line[0] == (id + [' '])[0];
    }
  }

  /** Violation `j` is the identifier of the `j`-th tab-led line of the
      block, located through the increasing positions of those lines. */
  lemma ViolationsInOrder(block: seq<string>)
    ensures var ix, vs := FilterIndices(block, IsViolationLine), Violations(block);
            && |vs| == |ix|
            && (forall j :: 0 <= j < |ix| ==> ix[j] < |block| && vs[j] == Identifier(block[ix[j]]))
            && (forall j, k :: 0 <= j < k < |ix| ==> ix[j] < ix[k])
            && (forall k :: 0 <= k < |block| ==> (IsViolationLine(block[k]) <==> k in ix))
  {
    var ix, kept := FilterIndices(block, IsViolationLine), Filter(block, IsViolationLine);
    FilterIndicesSource(block, IsViolationLine);
    FilterIndicesExact(block, IsViolationLine);
    forall j | 0 <= j < |ix| ensures Violations(block)[j] == Identifier(block[ix[j]]) {
      assert kept[j] == block[ix[j]];
    }
  }

  /** There are exactly as many violations as tab-led lines in the block. */
  lemma ViolationCount(block: seq<string>)
    ensures |Violations(block)| == |Positions(block, IsViolationLine)|
  {
    FilterCount(block, IsViolationLine);
  }

  /** A block reports no violations exactly when none of its lines starts
      with a tab. */
  lemma NoViolationsIffNoViolationLines(block: seq<string>)
    ensures Violations(block) == [] <==> forall i :: 0 <= i < |block| ==> !IsViolationLine(block[i])
  {
    ViolationCount(block);
    var positions := Positions(block, IsViolationLine);
    if |positions| == 0 {
      assert positions == {};
      forall i | 0 <= i < |block| ensures !IsViolationLine(block[i]) {
        assert i !in positions;
      }
    } else {
      var i :| i in positions;
      assert IsViolationLine(block[i]);
    }
  }

  /** Violations of two consecutive stretches of lines are the violations of
      the first followed by those of the second: duplicates are kept and
      nothing is sorted. */
  lemma ViolationsAppend(a: seq<string>, b: seq<string>)
    ensures Violations(a + b) == Violations(a) + Violations(b)
  {
    FilterAppend(a, b, IsViolationLine);
  }

  // ---------------------------------------------------------------------
  // Status (the value `passDetekt` compares)
  // ---------------------------------------------------------------------

  /** `split(" ").last()`: everything after the last space. */
  function LastToken(s: string): (t: string)
    ensures ' ' !in t
    ensures s == t || EndsWith(s, [' '] + t)
  {
    var parts := Split(s, ' ');
    JoinLast(parts, ' ');
    parts[|parts| - 1]
  }

  /** `block.first { "Success?" in it }.split(" ").last().toBoolean()`,
      with `None` where `first` finds no status line and throws. */
  function Status(block: seq<string>): (r: Option<bool>)
    ensures r.None? <==> forall i :: 0 <= i < |block| ==> !IsStatusLine(block[i])
    ensures r.Some? ==>
      exists i :: 0 <= i < |block| && IsStatusLine(block[i])
                  && (forall j :: 0 <= j < i ==> !IsStatusLine(block[j]))
                  && r.value == ToBoolean(LastToken(block[i]))
  {
    match First(block, IsStatusLine)
    case None => None
    case Some(line) => Some(ToBoolean(LastToken(line)))
  }

  /** Inside a run block a status line is missing exactly when the block is
      empty: a non-empty block always ends with one. */
  lemma {:induction false} StatusMissingIffEmpty(lines: seq<string>)
    ensures Status(RunBlock(lines)).None? <==> RunBlock(lines) == []
  {
    var block := RunBlock(lines);
    if block != [] {
      RunBlockEndpoints(lines);
      assert IsStatusLine(block[|block| - 1]);
    }
  }
}
