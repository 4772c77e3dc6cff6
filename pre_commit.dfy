/**
 * The pre-commit script: it validates the interface names of the candidate
 * configuration, builds the report lines, and vetoes the commit when any
 * name breaks the convention.
 */
module PreCommit {
  import opened Wrappers
  import opened Text
  import opened Ordering
  import opened Naming
  import opened Layout

  const TITLE := "PRE-COMMIT INTERFACE NAMING VALIDATION"
  const DETAILS_HEADING := "\nInterface Validation Details:"
  const PASS_TAG := "  [PASS] "
  const FAIL_TAG := "  [FAIL] "
  const TOTAL_LABEL := "Total interfaces: "
  const PASSED_LABEL := "Passed: "
  const FAILED_LABEL := "Failed: "
  const ERROR_HEADING := "\nERROR: " + "Non-compliant interfaces detected:"
  const BULLET := "  - "
  const ABORTED_LINE := "\nCOMMIT ABORTED: " + "Fix interface naming convention before committing."
  const SUCCESS_LINE := "\nSUCCESS: " + "All interfaces comply with naming convention."
  const NO_INTERFACES_LINE := "\nNo interfaces found " + "in candidate configuration."
  const ABORT_PREFIX := "Non-compliant interfaces detected: "

  /** One entry of the script's `output` list; `Render` gives the text that is printed for it */
  datatype Line =
    | OpeningRuleLine
    | TitleLine
    | EqualsRule
    | Stamp(timestamp: string)
    | DetailsHeading
    | Checked(name: string, pass: bool)
    | DashRule
    | TotalCount(count: nat)
    | PassedCount(count: nat)
    | FailedCount(count: nat)
    | ErrorHeading
    | Bullet(name: string)
    | Aborted
    | Succeeded
    | NoInterfaces
    | ClosingRuleLine

  /** The text of a report line */
  function Render(line: Line): string {
    match line
    case OpeningRuleLine => OpeningRule()
    case TitleLine => TITLE
    case EqualsRule => Rule('=')
    case Stamp(timestamp) => TimestampLine(timestamp)
    case DetailsHeading => DETAILS_HEADING
    case Checked(name, pass) => (if pass then PASS_TAG else FAIL_TAG) + name
    case DashRule => Rule('-')
    case TotalCount(n) => TOTAL_LABEL + NatToString(n)
    case PassedCount(n) => PASSED_LABEL + NatToString(n)
    case FailedCount(n) => FAILED_LABEL + NatToString(n)
    case ErrorHeading => ERROR_HEADING
    case Bullet(name) => BULLET + name
    case Aborted => ABORTED_LINE
    case Succeeded => SUCCESS_LINE
    case NoInterfaces => NO_INTERFACES_LINE
    case ClosingRuleLine => ClosingRule()
  }

  /** The commit gate: let the commit go ahead, or raise with a message */
  datatype Verdict = Proceed | Abort(message: string)

  /** The script's counters and failure list once the loop has visited every name */
  datatype Tally = Tally(passed: nat, failed: nat, failedInterfaces: seq<string>)

  function Banner(timestamp: string): seq<Line> {
    [OpeningRuleLine, TitleLine, EqualsRule, Stamp(timestamp)]
  }

  /** One tagged line per name, in the order the names are visited */
  function CheckedLines(names: seq<string>): seq<Line> {
    seq(|names|, i requires 0 <= i < |names| => Checked(names[i], IsCompliant(names[i])))
  }

  function Bullets(names: seq<string>): seq<Line> {
    seq(|names|, i requires 0 <= i < |names| => Bullet(names[i]))
  }

  /** Appending one more name appends one more bullet. */
  lemma BulletsSnoc(names: seq<string>, j: nat)
    requires j < |names|
    ensures Bullets(names[..j + 1]) == Bullets(names[..j]) + [Bullet(names[j])]
  {
    assert names[..j + 1][..j] == names[..j];
  }

  function Outcome(failed: nat, failing: seq<string>): seq<Line> {
    if failed > 0 then [ErrorHeading] + Bullets(failing) + [Aborted] else [Succeeded]
  }

  /** The closing dash rule, the three counts and the verdict lines that follow the per-name lines */
  function Summary(passed: nat, failed: nat, failing: seq<string>): seq<Line> {
    [DashRule, TotalCount(passed + failed), PassedCount(passed), FailedCount(failed)] + Outcome(failed, failing)
  }

  /** The heading and dash rule, the per-name lines, then the summary */
  function DetailsBlock(checked: seq<Line>, passed: nat, failed: nat, failing: seq<string>): seq<Line> {
    [DetailsHeading, DashRule] + checked + Summary(passed, failed, failing)
  }

  /** The lines written between the banner and the closing rule when the configuration has interfaces */
  function Details(names: seq<string>): seq<Line> {
    DetailsBlock(CheckedLines(names), |Compliant(names)|, |NonCompliant(names)|, NonCompliant(names))
  }

  /** The report the script prints and writes, line by line */
  function Report(config: RouterConfig, timestamp: string): seq<Line> {
    Banner(timestamp)
      + (match config.interfaceKeys
         case None => [NoInterfaces]
         case Some(keys) => Details(SortNames(keys)))
      + [ClosingRuleLine]
  }

  /** The counters and failure list, which exist only when the `interface` key does */
  function TallyOf(config: RouterConfig): Option<Tally> {
    match config.interfaceKeys
    case None => None
    case Some(keys) =>
      var names := SortNames(keys);
      Some(Tally(|Compliant(names)|, |NonCompliant(names)|, NonCompliant(names)))
  }

  /** Abort exactly when the key is present and something failed, naming the failures */
  function VerdictOf(config: RouterConfig): Verdict {
    match TallyOf(config)
    case Some(t) =>
      if t.failed > 0 then Abort(ABORT_PREFIX + Join(t.failedInterfaces, ", ")) else Proceed
    case None => Proceed
  }

  /** The loop over the sorted names: one tagged line per name, the two counters and the failure list */
  method Validate(names: seq<string>) returns (lines: seq<Line>, passed: nat, failed: nat, failedInterfaces: seq<string>)
    ensures lines == CheckedLines(names)
    ensures passed == |Compliant(names)| && failed == |NonCompliant(names)|
    ensures failedInterfaces == NonCompliant(names)
  {
    lines, passed, failed, failedInterfaces := [], 0, 0, [];
    var i := 0;
    while i < |names|
      invariant 0 <= i <= |names|
      invariant lines == CheckedLines(names[..i])
      invariant passed == |Compliant(names[..i])|
      invariant failed == |NonCompliant(names[..i])|
      invariant failedInterfaces == NonCompliant(names[..i])
    {
      var name := names[i];
      assert names[..i + 1][..i] == names[..i];
      assert CheckedLines(names[..i + 1]) == CheckedLines(names[..i]) + [Checked(name, IsCompliant(name))];
      var isValid := AnyStartsWith(name, ALLOWED_PREFIXES);
      if isValid {
        lines := lines + [Checked(name, true)];
        passed := passed + 1;
      } else {
        lines := lines + [Checked(name, false)];
        failed := failed + 1;
        failedInterfaces := failedInterfaces + [name];
      }
      i := i + 1;
    }
    assert names[..i] == names;
  }

  /** The closing rule, the counts, and either the failure list with the abort notice or the success line */
  method Summarize(passed: nat, failed: nat, failedInterfaces: seq<string>) returns (lines: seq<Line>)
    ensures lines == Summary(passed, failed, failedInterfaces)
  {
    lines := [DashRule, TotalCount(passed + failed), PassedCount(passed), FailedCount(failed)];
    if failed > 0 {
      lines := lines + [ErrorHeading];
      ghost var counted := lines;
      var j := 0;
      while j < |failedInterfaces|
        invariant 0 <= j <= |failedInterfaces|
        invariant lines == counted + Bullets(failedInterfaces[..j])
      {
        BulletsSnoc(failedInterfaces, j);
        lines := lines + [Bullet(failedInterfaces[j])];
        j := j + 1;
      }
      assert failedInterfaces[..j] == failedInterfaces;
      lines := lines + [Aborted];
      ghost var counts := [DashRule, TotalCount(passed + failed), PassedCount(passed), FailedCount(failed)];
      Regroup(counts, [ErrorHeading], Bullets(failedInterfaces));
      Regroup(counts, [ErrorHeading] + Bullets(failedInterfaces), [Aborted]);
    } else {
      lines := lines + [Succeeded];
    }
  }

  /**
   * One run of the script on the candidate configuration: the report lines in order,
   * the counters and failure list when there are interfaces, and the commit verdict.
   */
  method Run(config: RouterConfig, timestamp: string) returns (output: seq<Line>, tally: Option<Tally>, verdict: Verdict)
    ensures output == Report(config, timestamp)
    ensures tally == TallyOf(config)
    ensures verdict == VerdictOf(config)
  {
    output := [OpeningRuleLine, TitleLine, EqualsRule, Stamp(timestamp)];
    match config.interfaceKeys {
      case None =>
        output := output + [NoInterfaces];
        tally := None;
      case Some(keys) =>
        ghost var banner := output;
        output := output + [DetailsHeading, DashRule];
        var names := SortNames(keys);
        var lines, passed, failed, failedInterfaces := Validate(names);
        output := output + lines;
        Regroup(banner, [DetailsHeading, DashRule], lines);
        var summary := Summarize(passed, failed, failedInterfaces);
        output := output + summary;
        Regroup(banner, [DetailsHeading, DashRule] + lines, summary);
        tally := Some(Tally(passed, failed, failedInterfaces));
    }
    output := output + [ClosingRuleLine];

    if tally.Some? && tally.value.failed > 0 {
      verdict := Abort(ABORT_PREFIX + Join(tally.value.failedInterfaces, ", "));
    } else {
      verdict := Proceed;
    }
  }

  // Where the lines sit

  /** The fixed lines of a details block, around the per-name lines and before the outcome */
  lemma BlockLayout(checked: seq<Line>, passed: nat, failed: nat, failing: seq<string>)
    ensures var d, n := DetailsBlock(checked, passed, failed, failing), |checked|;
      && |d| == 6 + n + |Outcome(failed, failing)|
      && d[0] == DetailsHeading && d[1] == DashRule
      && d[2 + n] == DashRule
      && d[3 + n] == TotalCount(passed + failed)
      && d[4 + n] == PassedCount(passed)
      && d[5 + n] == FailedCount(failed)
  {
  }

  /** The i-th per-name line is line 2 + i of the block. */
  lemma BlockCheckedAt(checked: seq<Line>, passed: nat, failed: nat, failing: seq<string>, i: nat)
    requires i < |checked|
    ensures DetailsBlock(checked, passed, failed, failing)[2 + i] == checked[i]
  {
  }

  /** The k-th outcome line is line 6 + n + k of the block, after the n per-name lines. */
  lemma BlockOutcomeAt(checked: seq<Line>, passed: nat, failed: nat, failing: seq<string>, k: nat)
    requires k < |Outcome(failed, failing)|
    ensures DetailsBlock(checked, passed, failed, failing)[6 + |checked| + k] == Outcome(failed, failing)[k]
  {
  }

  /** Where the heading, the per-name lines, the dash rules and the counts sit in a report around a details block */
  lemma BlockPositions(timestamp: string, checked: seq<Line>, passed: nat, failed: nat, failing: seq<string>)
    ensures var r, n := Banner(timestamp) + DetailsBlock(checked, passed, failed, failing) + [ClosingRuleLine], |checked|;
      && |r| == 11 + n + |Outcome(failed, failing)|
      && r[4] == DetailsHeading && r[5] == DashRule
      && (forall i :: 0 <= i < n ==> r[6 + i] == checked[i])
      && r[6 + n] == DashRule
      && r[7 + n] == TotalCount(passed + failed)
      && r[8 + n] == PassedCount(passed)
      && r[9 + n] == FailedCount(failed)
  {
    var n := |checked|;
    var d := DetailsBlock(checked, passed, failed, failing);
    var r := Banner(timestamp) + d + [ClosingRuleLine];
    Framed(Banner(timestamp), d, ClosingRuleLine);
    BlockLayout(checked, passed, failed, failing);
    FramedAt(Banner(timestamp), d, ClosingRuleLine, 0);
    FramedAt(Banner(timestamp), d, ClosingRuleLine, 1);
    FramedAt(Banner(timestamp), d, ClosingRuleLine, 2 + n);
    FramedAt(Banner(timestamp), d, ClosingRuleLine, 3 + n);
    FramedAt(Banner(timestamp), d, ClosingRuleLine, 4 + n);
    FramedAt(Banner(timestamp), d, ClosingRuleLine, 5 + n);
    forall i | 0 <= i < n ensures r[6 + i] == checked[i] {
      FramedAt(Banner(timestamp), d, ClosingRuleLine, 2 + i);
      BlockCheckedAt(checked, passed, failed, failing, i);
    }
  }

  /** The outcome lines: the error heading, the bullets and the abort notice, or the success notice alone */
  lemma OutcomeLines(failed: nat, failing: seq<string>)
    ensures var oc := Outcome(failed, failing);
      && oc[|oc| - 1] == (if failed > 0 then Aborted else Succeeded)
      && (failed > 0 ==> |oc| == |failing| + 2 && oc[0] == ErrorHeading)
      && (failed == 0 ==> |oc| == 1)
  {
  }

  /** With failures, the bullet for the j-th failing name is outcome line 1 + j. */
  lemma OutcomeBulletAt(failed: nat, failing: seq<string>, j: nat)
    requires failed > 0 && j < |failing|
    ensures Outcome(failed, failing)[1 + j] == Bullet(failing[j])
  {
  }

  /** The notice lines appear among the outcome lines exactly as the failure count decides. */
  lemma OutcomeContains(failed: nat, failing: seq<string>)
    ensures Aborted in Outcome(failed, failing) <==> failed > 0
    ensures Succeeded in Outcome(failed, failing) <==> failed == 0
  {
    if failed > 0 {
      assert Outcome(failed, failing)[|failing| + 1] == Aborted;
    }
  }

  /** In a report around a details block whose per-name lines hold no notice, a notice occurs exactly as the failure count decides. */
  lemma NoticeMembership(timestamp: string, checked: seq<Line>, passed: nat, failed: nat, failing: seq<string>)
    requires Aborted !in checked && Succeeded !in checked
    ensures var r := Banner(timestamp) + DetailsBlock(checked, passed, failed, failing) + [ClosingRuleLine];
      && (Aborted in r <==> failed > 0)
      && (Succeeded in r <==> failed == 0)
  {
    var oc := Outcome(failed, failing);
    var summary := Summary(passed, failed, failing);
    var d := DetailsBlock(checked, passed, failed, failing);
    OutcomeContains(failed, failing);
    assert Aborted in summary <==> Aborted in oc;
    assert Succeeded in summary <==> Succeeded in oc;
    assert Aborted in d <==> Aborted in summary;
    assert Succeeded in d <==> Succeeded in summary;
  }

  /** The per-name lines hold no notice. */
  lemma CheckedLinesNoNotice(names: seq<string>)
    ensures Aborted !in CheckedLines(names) && Succeeded !in CheckedLines(names)
  {
  }

  /** In a report around a details block, the line before the closing rule is the outcome notice. */
  lemma NoticePosition(timestamp: string, checked: seq<Line>, passed: nat, failed: nat, failing: seq<string>)
    ensures var r := Banner(timestamp) + DetailsBlock(checked, passed, failed, failing) + [ClosingRuleLine];
      && |r| >= 2
      && r[|r| - 2] == (if failed > 0 then Aborted else Succeeded)
  {
    var oc := Outcome(failed, failing);
    var d := DetailsBlock(checked, passed, failed, failing);
    Framed(Banner(timestamp), d, ClosingRuleLine);
    BlockLayout(checked, passed, failed, failing);
    OutcomeLines(failed, failing);
    FramedAt(Banner(timestamp), d, ClosingRuleLine, |d| - 1);
    BlockOutcomeAt(checked, passed, failed, failing, |oc| - 1);
  }

  /** With failures, the error heading follows the counts and one bullet per failing name follows it. */
  lemma BulletPositions(timestamp: string, checked: seq<Line>, passed: nat, failed: nat, failing: seq<string>)
    ensures var r, n := Banner(timestamp) + DetailsBlock(checked, passed, failed, failing) + [ClosingRuleLine], |checked|;
      failed > 0 ==>
        && |r| == 13 + n + |failing| && r[10 + n] == ErrorHeading
        && forall j :: 0 <= j < |failing| ==> r[11 + n + j] == Bullet(failing[j])
  {
    var n := |checked|;
    var d := DetailsBlock(checked, passed, failed, failing);
    Framed(Banner(timestamp), d, ClosingRuleLine);
    BlockLayout(checked, passed, failed, failing);
    OutcomeLines(failed, failing);
    if failed > 0 {
      FramedAt(Banner(timestamp), d, ClosingRuleLine, 6 + n);
      BlockOutcomeAt(checked, passed, failed, failing, 0);
      forall j | 0 <= j < |failing| ensures (Banner(timestamp) + d + [ClosingRuleLine])[11 + n + j] == Bullet(failing[j]) {
        FramedAt(Banner(timestamp), d, ClosingRuleLine, 7 + n + j);
        BlockOutcomeAt(checked, passed, failed, failing, 1 + j);
        OutcomeBulletAt(failed, failing, j);
      }
    }
  }

  /** The report for the interface keys `keys`, spelled out as banner, details block and closing rule */
  lemma PresentReport(keys: seq<string>, timestamp: string)
    ensures var names := SortNames(keys);
      Report(RouterConfig(Some(keys)), timestamp)
        == Banner(timestamp)
           + DetailsBlock(CheckedLines(names), |Compliant(names)|, |NonCompliant(names)|, NonCompliant(names))
           + [ClosingRuleLine]
  {
  }

  // What the lines print

  /** The printed tag of a name's line says whether the name passed, and the name follows the tag. */
  lemma TagOf(name: string, pass: bool)
    ensures StartsWith(Render(Checked(name, pass)), PASS_TAG) <==> pass
    ensures StartsWith(Render(Checked(name, pass)), FAIL_TAG) <==> !pass
    ensures Render(Checked(name, pass))[|if pass then PASS_TAG else FAIL_TAG|..] == name
  {
    var text := Render(Checked(name, pass));
    assert text[..|PASS_TAG|] == if pass then PASS_TAG else FAIL_TAG;
    if pass {
      DiffersAt(text, FAIL_TAG, 3);
    } else {
      DiffersAt(text, PASS_TAG, 3);
    }
  }

  /** A count line prints its label followed by the decimal digits of the count, which read back as the count. */
  lemma CountTexts(n: nat)
    ensures var t, p, f := Render(TotalCount(n)), Render(PassedCount(n)), Render(FailedCount(n));
      && StartsWith(t, TOTAL_LABEL) && AllDigits(t[|TOTAL_LABEL|..]) && DecimalValue(t[|TOTAL_LABEL|..]) == n
      && StartsWith(p, PASSED_LABEL) && AllDigits(p[|PASSED_LABEL|..]) && DecimalValue(p[|PASSED_LABEL|..]) == n
      && StartsWith(f, FAILED_LABEL) && AllDigits(f[|FAILED_LABEL|..]) && DecimalValue(f[|FAILED_LABEL|..]) == n
  {
    var digits := NatToString(n);
    DecimalRoundTrip(n);
    assert Render(TotalCount(n))[|TOTAL_LABEL|..] == digits;
    assert Render(PassedCount(n))[|PASSED_LABEL|..] == digits;
    assert Render(FailedCount(n))[|FAILED_LABEL|..] == digits;
  }

  /** A text that differs from all three count labels at position `k` starts with none of them. */
  lemma NoCountLabel(text: string, k: nat)
    requires k < |text| && k < 2
    requires text[k] != TOTAL_LABEL[k] && text[k] != PASSED_LABEL[k] && text[k] != FAILED_LABEL[k]
    ensures !StartsWith(text, TOTAL_LABEL) && !StartsWith(text, PASSED_LABEL) && !StartsWith(text, FAILED_LABEL)
  {
    DiffersAt(text, TOTAL_LABEL, k);
    DiffersAt(text, PASSED_LABEL, k);
    DiffersAt(text, FAILED_LABEL, k);
  }

  /** Is `line` one of the rules, the title or the timestamp line? */
  predicate IsFrameLine(line: Line) {
    line.OpeningRuleLine? || line.ClosingRuleLine? || line.EqualsRule? || line.DashRule? || line.Stamp? || line.TitleLine?
  }

  /** The rules, the title and the timestamp line print with no count label. */
  lemma FrameLineTexts(line: Line)
    requires IsFrameLine(line)
    ensures !StartsWith(Render(line), TOTAL_LABEL) && !StartsWith(Render(line), PASSED_LABEL)
      && !StartsWith(Render(line), FAILED_LABEL)
  {
    var text := Render(line);
    if line.OpeningRuleLine? || line.ClosingRuleLine? {
      FrameStarts();
      NoCountLabel(text, 0);
    } else if line.EqualsRule? {
      assert text[0] == '=';
      NoCountLabel(text, 0);
    } else if line.DashRule? {
      assert text[0] == '-';
      NoCountLabel(text, 0);
    } else if line.Stamp? {
      assert text[1] == 'i';
      NoCountLabel(text, 1);
    } else {
      assert text[1] == 'R';
      NoCountLabel(text, 1);
    }
  }

  /** The headings, the per-name lines, the bullets and the notices print with no count label. */
  lemma BodyLineTexts(line: Line)
    requires !IsFrameLine(line) && !line.TotalCount? && !line.PassedCount? && !line.FailedCount?
    ensures !StartsWith(Render(line), TOTAL_LABEL) && !StartsWith(Render(line), PASSED_LABEL)
      && !StartsWith(Render(line), FAILED_LABEL)
  {
    var text := Render(line);
    if line.Checked? || line.Bullet? {
      assert text[0] == ' ';
    } else {
      assert text[0] == '\n';
    }
    NoCountLabel(text, 0);
  }

  /** Only a count line of the matching kind prints with a count label. */
  lemma CountLabelTexts(line: Line)
    ensures StartsWith(Render(line), TOTAL_LABEL) ==> line.TotalCount?
    ensures StartsWith(Render(line), PASSED_LABEL) ==> line.PassedCount?
    ensures StartsWith(Render(line), FAILED_LABEL) ==> line.FailedCount?
  {
    var text := Render(line);
    if line.TotalCount? {
      DiffersAt(text, PASSED_LABEL, 0);
      DiffersAt(text, FAILED_LABEL, 0);
    } else if line.PassedCount? {
      DiffersAt(text, TOTAL_LABEL, 0);
      DiffersAt(text, FAILED_LABEL, 0);
    } else if line.FailedCount? {
      DiffersAt(text, TOTAL_LABEL, 0);
      DiffersAt(text, PASSED_LABEL, 0);
    } else if IsFrameLine(line) {
      FrameLineTexts(line);
    } else {
      BodyLineTexts(line);
    }
  }

  /** A text that differs from both notices at position `k` is neither of them. */
  lemma NoNotice(text: string, k: nat)
    requires k < |text| && k < 2
    requires text[k] != ABORTED_LINE[k] && text[k] != SUCCESS_LINE[k]
    ensures text != ABORTED_LINE && text != SUCCESS_LINE
  {
  }

  /** The lines that start with a newline, other than the notices, print as neither notice. */
  lemma HeadingTexts(line: Line)
    requires line.OpeningRuleLine? || line.ClosingRuleLine? || line.DetailsHeading? || line.ErrorHeading? || line.NoInterfaces?
    ensures Render(line) != ABORTED_LINE && Render(line) != SUCCESS_LINE
  {
    var text := Render(line);
    if line.OpeningRuleLine? || line.ClosingRuleLine? {
      FrameStarts();
    } else if line.DetailsHeading? {
      assert text[1] == 'I';
    } else if line.ErrorHeading? {
      assert text[1] == 'E';
    } else {
      assert text[1] == 'N';
    }
    NoNotice(text, 1);
  }

  /** Only the abort line prints as the abort notice, and only the success line as the success notice. */
  lemma OutcomeTexts(line: Line)
    ensures Render(line) == ABORTED_LINE <==> line == Aborted
    ensures Render(line) == SUCCESS_LINE <==> line == Succeeded
  {
    var text := Render(line);
    if line.Aborted? || line.Succeeded? {
      assert ABORTED_LINE[1] == 'C' && SUCCESS_LINE[1] == 'S';
    } else if line.OpeningRuleLine? || line.ClosingRuleLine? || line.DetailsHeading? || line.ErrorHeading? || line.NoInterfaces? {
      HeadingTexts(line);
    } else {
      assert text[0] != '\n' by {
        if IsFrameLine(line) {
          assert text[0] == '=' || text[0] == '-' || text[0] == 'T' || text[0] == 'P';
        } else if line.Checked? || line.Bullet? {
          assert text[0] == ' ';
        } else {
          assert text[0] == 'T' || text[0] == 'P' || text[0] == 'F';
        }
      }
      NoNotice(text, 0);
    }
  }

  /** The printed report holds a notice exactly when the report holds the corresponding line. */
  lemma PrintedNotices(report: seq<Line>)
    ensures ABORTED_LINE in Printed(report, Render) <==> Aborted in report
    ensures SUCCESS_LINE in Printed(report, Render) <==> Succeeded in report
  {
    var text := Printed(report, Render);
    forall k | 0 <= k < |report|
      ensures (text[k] == ABORTED_LINE <==> report[k] == Aborted) && (text[k] == SUCCESS_LINE <==> report[k] == Succeeded)
    {
      OutcomeTexts(report[k]);
    }
    if Aborted in report {
      var k :| 0 <= k < |report| && report[k] == Aborted;
      assert text[k] == ABORTED_LINE;
    }
    if Succeeded in report {
      var k :| 0 <= k < |report| && report[k] == Succeeded;
      assert text[k] == SUCCESS_LINE;
    }
  }

  // Properties of the report and the verdict

  /** Is some interface name non-compliant? */
  predicate AnyNonCompliant(keys: seq<string>) {
    exists k :: k in keys && !IsCompliant(k)
  }

  /** The failure list is non-empty exactly when some key is non-compliant. */
  lemma NonCompliantEmptyIff(keys: seq<string>)
    ensures |NonCompliant(SortNames(keys))| > 0 <==> AnyNonCompliant(keys)
  {
    var f := NonCompliant(SortNames(keys));
    SortNamesSpec(keys);
    SelectSpec(SortNames(keys), false);
    if AnyNonCompliant(keys) {
      var k :| k in keys && !IsCompliant(k);
      assert k in f;
    }
    if |f| > 0 {
      assert f[0] in f;
    }
  }

  /** The report opens with the opening rule, the title, a rule of '=' and the timestamp, and ends with the closing rule. */
  lemma ReportFrame(config: RouterConfig, timestamp: string)
    ensures var r := Report(config, timestamp);
      && |r| >= 6
      && r[0] == OpeningRuleLine && r[1] == TitleLine && r[2] == EqualsRule && r[3] == Stamp(timestamp)
      && r[|r| - 1] == ClosingRuleLine
  {
    var body: seq<Line>;
    match config.interfaceKeys {
      case None =>
        body := [NoInterfaces];
      case Some(keys) =>
        var names := SortNames(keys);
        PresentReport(keys, timestamp);
        body := DetailsBlock(CheckedLines(names), |Compliant(names)|, |NonCompliant(names)|, NonCompliant(names));
        BlockLayout(CheckedLines(names), |Compliant(names)|, |NonCompliant(names)|, NonCompliant(names));
    }
    Framed(Banner(timestamp), body, ClosingRuleLine);
    BannerAt(Banner(timestamp), body, ClosingRuleLine, 0);
    BannerAt(Banner(timestamp), body, ClosingRuleLine, 1);
    BannerAt(Banner(timestamp), body, ClosingRuleLine, 2);
    BannerAt(Banner(timestamp), body, ClosingRuleLine, 3);
  }

  /**
   * With the `interface` key present, line 6 + i of the report is the line for the i-th
   * name in ascending order, carrying that name's verdict; the dash rule follows the last name.
   */
  lemma LinePerName(keys: seq<string>, timestamp: string)
    ensures var r, names := Report(RouterConfig(Some(keys)), timestamp), SortNames(keys);
      && |r| > 6 + |names|
      && (forall i :: 0 <= i < |names| ==> r[6 + i] == Checked(names[i], IsCompliant(names[i])))
      && r[6 + |names|] == DashRule
  {
    var names := SortNames(keys);
    var checked := CheckedLines(names);
    var r := Report(RouterConfig(Some(keys)), timestamp);
    PresentReport(keys, timestamp);
    BlockPositions(timestamp, checked, |Compliant(names)|, |NonCompliant(names)|, NonCompliant(names));
    forall i | 0 <= i < |names|
      ensures r[6 + i] == Checked(names[i], IsCompliant(names[i]))
    {
      assert r[6 + i] == checked[i];
    }
  }

  /**
   * With the `interface` key present, printed line 6 + i is the i-th name in ascending
   * order behind the tag of its verdict.
   */
  lemma PrintedNameLines(keys: seq<string>, timestamp: string)
    ensures var text, names := Printed(Report(RouterConfig(Some(keys)), timestamp), Render), SortNames(keys);
      && |text| > 6 + |names|
      && forall i :: 0 <= i < |names| ==>
           text[6 + i] == (if IsCompliant(names[i]) then PASS_TAG else FAIL_TAG) + names[i]
  {
    LinePerName(keys, timestamp);
    PrintedChecked(Report(RouterConfig(Some(keys)), timestamp), SortNames(keys));
  }

  /** Name lines at 6, 7, ... of a report print as the tagged names. */
  lemma PrintedChecked(r: seq<Line>, names: seq<string>)
    requires |r| > 6 + |names|
    requires forall i :: 0 <= i < |names| ==> r[6 + i] == Checked(names[i], IsCompliant(names[i]))
    ensures var text := Printed(r, Render);
      && |text| > 6 + |names|
      && forall i :: 0 <= i < |names| ==>
           text[6 + i] == (if IsCompliant(names[i]) then PASS_TAG else FAIL_TAG) + names[i]
  {
  }

  /**
   * passed + failed is the number of distinct names, and the three count lines carry
   * the total, the passes and the failures.
   */
  lemma CountLinesExact(keys: seq<string>, timestamp: string)
    ensures var r, names, t := Report(RouterConfig(Some(keys)), timestamp), SortNames(keys), TallyOf(RouterConfig(Some(keys))).value;
      && t.passed + t.failed == |names|
      && (Distinct(keys) ==> t.passed + t.failed == |keys|)
      && |r| > 9 + |names|
      && r[7 + |names|] == TotalCount(|names|)
      && r[8 + |names|] == PassedCount(t.passed)
      && r[9 + |names|] == FailedCount(t.failed)
  {
    var names := SortNames(keys);
    var passed, fails := |Compliant(names)|, NonCompliant(names);
    var r := Report(RouterConfig(Some(keys)), timestamp);
    TallySize(keys);
    PresentReport(keys, timestamp);
    BlockPositions(timestamp, CheckedLines(names), passed, |fails|, fails);
    assert TallyOf(RouterConfig(Some(keys))).value == Tally(passed, |fails|, fails);
  }

  /** The counters add up to the number of sorted names, which is the number of keys when they are distinct. */
  lemma TallySize(keys: seq<string>)
    ensures var t := TallyOf(RouterConfig(Some(keys))).value;
      && t.passed + t.failed == |SortNames(keys)|
      && (Distinct(keys) ==> t.passed + t.failed == |keys|)
  {
    SortNamesSpec(keys);
    PartitionSizes(SortNames(keys));
  }

  /**
   * The failure list holds exactly the non-compliant names, in ascending order, and
   * its length is the failure counter.
   */
  lemma FailedListExact(keys: seq<string>)
    ensures var t := TallyOf(RouterConfig(Some(keys))).value;
      && (forall x :: x in t.failedInterfaces <==> x in keys && !IsCompliant(x))
      && StrictlySorted(t.failedInterfaces)
      && |t.failedInterfaces| == t.failed
  {
    SortNamesSpec(keys);
    SelectSpec(SortNames(keys), false);
    SelectSorted(SortNames(keys), false);
  }

  /**
   * With failures the report lists every failing name as a bullet after the error
   * heading and its second-to-last line is the abort notice; without failures that line
   * is the success notice. The report never holds both notices.
   */
  lemma OutcomeExclusive(keys: seq<string>, timestamp: string)
    ensures var r, fails := Report(RouterConfig(Some(keys)), timestamp), NonCompliant(SortNames(keys));
      var n := |SortNames(keys)|;
      && |r| >= 2
      && (Aborted in r <==> AnyNonCompliant(keys))
      && (Succeeded in r <==> !AnyNonCompliant(keys))
      && r[|r| - 2] == (if AnyNonCompliant(keys) then Aborted else Succeeded)
      && (!AnyNonCompliant(keys) ==> |r| == 12 + n)
      && (AnyNonCompliant(keys) ==>
            |r| == 13 + n + |fails| && r[10 + n] == ErrorHeading
            && forall j :: 0 <= j < |fails| ==> r[11 + n + j] == Bullet(fails[j]))
  {
    NonCompliantEmptyIff(keys);
    NoticeLines(keys, timestamp);
    BulletLines(keys, timestamp);
  }

  /**
   * The report holds the abort notice, or else the success notice, as its second-to-last
   * line; without failures it has one line per name and twelve more.
   */
  lemma NoticeLines(keys: seq<string>, timestamp: string)
    ensures var r, failed := Report(RouterConfig(Some(keys)), timestamp), |NonCompliant(SortNames(keys))|;
      && |r| >= 2
      && (Aborted in r <==> failed > 0)
      && (Succeeded in r <==> failed == 0)
      && r[|r| - 2] == (if failed > 0 then Aborted else Succeeded)
      && (failed == 0 ==> |r| == 12 + |SortNames(keys)|)
  {
    var names := SortNames(keys);
    var checked := CheckedLines(names);
    var passed, fails := |Compliant(names)|, NonCompliant(names);
    PresentReport(keys, timestamp);
    BlockPositions(timestamp, checked, passed, |fails|, fails);
    OutcomeLines(|fails|, fails);
    CheckedLinesNoNotice(names);
    NoticeMembership(timestamp, checked, passed, |fails|, fails);
    NoticePosition(timestamp, checked, passed, |fails|, fails);
  }

  /** With failures, the error heading and one bullet per failing name follow the counts. */
  lemma BulletLines(keys: seq<string>, timestamp: string)
    ensures var r, fails := Report(RouterConfig(Some(keys)), timestamp), NonCompliant(SortNames(keys));
      var n := |SortNames(keys)|;
      |fails| > 0 ==>
        && |r| == 13 + n + |fails| && r[10 + n] == ErrorHeading
        && forall j :: 0 <= j < |fails| ==> r[11 + n + j] == Bullet(fails[j])
  {
    var names := SortNames(keys);
    var fails := NonCompliant(names);
    PresentReport(keys, timestamp);
    BulletPositions(timestamp, CheckedLines(names), |Compliant(names)|, |fails|, fails);
  }

  /** The abort message mentions every non-compliant name. */
  lemma AbortMessageMentions(keys: seq<string>)
    ensures forall name :: name in keys && !IsCompliant(name) ==>
      Mentions(ABORT_PREFIX + Join(NonCompliant(SortNames(keys)), ", "), name)
  {
    var fails := NonCompliant(SortNames(keys));
    var joined := Join(fails, ", ");
    SortNamesSpec(keys);
    SelectSpec(SortNames(keys), false);
    forall name | name in keys && !IsCompliant(name)
      ensures Mentions(ABORT_PREFIX + joined, name)
    {
      assert name in fails;
      var i :| 0 <= i < |fails| && fails[i] == name;
      JoinMentions(fails, ", ", i);
      var k: nat :| OccursAt(joined, name, k);
      OccursAfter(ABORT_PREFIX, joined, name, k);
    }
  }

  /**
   * The commit is aborted exactly when the `interface` key is present and some name is
   * non-compliant; the message joins the failing names with ", " and mentions each of them.
   */
  lemma AbortIff(config: RouterConfig)
    ensures VerdictOf(config).Abort? <==> config.interfaceKeys.Some? && AnyNonCompliant(config.interfaceKeys.value)
    ensures VerdictOf(config).Abort? ==>
      var fails := NonCompliant(SortNames(config.interfaceKeys.value));
      && VerdictOf(config).message == ABORT_PREFIX + Join(fails, ", ")
      && forall name :: name in config.interfaceKeys.value && !IsCompliant(name) ==>
           Mentions(VerdictOf(config).message, name)
  {
    if config.interfaceKeys.Some? {
      var keys := config.interfaceKeys.value;
      NonCompliantEmptyIff(keys);
      AbortMessageMentions(keys);
      if VerdictOf(config).Abort? {
        assert VerdictOf(config).message == ABORT_PREFIX + Join(NonCompliant(SortNames(keys)), ", ");
      }
    }
  }

  /**
   * Without the `interface` key the report is the banner, the no-interfaces line and the
   * closing rule: no line prints as a count line and the commit goes ahead.
   */
  lemma AbsentReport(timestamp: string)
    ensures var r := Report(RouterConfig(None), timestamp);
      && r == Banner(timestamp) + [NoInterfaces, ClosingRuleLine]
      && (forall k :: 0 <= k < |r| ==>
            !StartsWith(Render(r[k]), TOTAL_LABEL) && !StartsWith(Render(r[k]), PASSED_LABEL)
            && !StartsWith(Render(r[k]), FAILED_LABEL))
      && TallyOf(RouterConfig(None)).None?
      && VerdictOf(RouterConfig(None)) == Proceed
  {
    var r := Report(RouterConfig(None), timestamp);
    forall k | 0 <= k < |r|
      ensures !StartsWith(Render(r[k]), TOTAL_LABEL) && !StartsWith(Render(r[k]), PASSED_LABEL)
        && !StartsWith(Render(r[k]), FAILED_LABEL)
    {
      CountLabelTexts(r[k]);
    }
  }

  /** A present but empty `interface` mapping gives zero counts, the success line and no abort. */
  lemma EmptyInterfaces(timestamp: string)
    ensures var r := Report(RouterConfig(Some([])), timestamp);
      && |r| == 12
      && r[6] == DashRule && r[7] == TotalCount(0) && r[8] == PassedCount(0) && r[9] == FailedCount(0)
      && r[10] == Succeeded
      && VerdictOf(RouterConfig(Some([]))) == Proceed
  {
    PresentReport([], timestamp);
    BlockPositions(timestamp, [], 0, 0, []);
    NoticePosition(timestamp, [], 0, 0, []);
  }
}
