/**
 * The post-commit script: once a commit is in, it reads the running configuration,
 * sorts the interface names into compliant and non-compliant ones and reports them.
 * It only informs: there is no verdict and nothing is vetoed.
 */
module PostCommit {
  import opened Wrappers
  import opened Text
  import opened Ordering
  import opened Naming
  import opened Layout
  import PreCommit

  const TITLE := "SUCCESS: All configuration changes " + "have been applied successfully!"
  const ACTIVE_NOTE := "Committed configuration is now " + "active on the router."
  const SUMMARY_HEADING := "\nInterface Summary " + "(Naming Convention Compliance):"
  const OK_TAG := "  [OK] "
  const FAIL_TAG := "  [FAIL] "
  const COMPLIANT_LABEL := "Total compliant interfaces: "
  const NON_COMPLIANT_LABEL := "Total non-compliant interfaces: "
  const NO_INTERFACES_LINE := "\nNo interfaces found in configuration."

  /** One entry of the script's `output` list; `Render` gives the text that is printed for it */
  datatype Line =
    | OpeningRuleLine
    | TitleLine
    | EqualsRule
    | Stamp(timestamp: string)
    | ActiveNote
    | SummaryHeading
    | Checked(name: string, ok: bool)
    | DashRule
    | CompliantTotal(count: nat)
    | NonCompliantTotal(count: nat)
    | NoInterfaces
    | ClosingRuleLine

  /** The text of a report line */
  function Render(line: Line): string {
    match line
    case OpeningRuleLine => OpeningRule()
    case TitleLine => TITLE
    case EqualsRule => Rule('=')
    case Stamp(timestamp) => TimestampLine(timestamp)
    case ActiveNote => ACTIVE_NOTE
    case SummaryHeading => SUMMARY_HEADING
    case Checked(name, ok) => (if ok then OK_TAG else FAIL_TAG) + name
    case DashRule => Rule('-')
    case CompliantTotal(n) => COMPLIANT_LABEL + NatToString(n)
    case NonCompliantTotal(n) => NON_COMPLIANT_LABEL + NatToString(n)
    case NoInterfaces => NO_INTERFACES_LINE
    case ClosingRuleLine => ClosingRule()
  }

  /** The `compliant` and `non_compliant` lists once the loop has visited every name */
  datatype Partition = Partition(compliant: seq<string>, nonCompliant: seq<string>)

  function Banner(timestamp: string): seq<Line> {
    [OpeningRuleLine, TitleLine, EqualsRule, Stamp(timestamp), ActiveNote]
  }

  /** One tagged line per name, in the order the names are visited */
  function CheckedLines(names: seq<string>): seq<Line> {
    seq(|names|, i requires 0 <= i < |names| => Checked(names[i], IsCompliant(names[i])))
  }

  /** The heading and dash rule, the per-name lines, a dash rule and the two totals */
  function SummaryBlock(checked: seq<Line>, compliant: nat, nonCompliant: nat): seq<Line> {
    [SummaryHeading, DashRule] + checked + [DashRule, CompliantTotal(compliant), NonCompliantTotal(nonCompliant)]
  }

  /** The report the script prints and writes, line by line */
  function Report(config: RouterConfig, timestamp: string): seq<Line> {
    Banner(timestamp)
      + (match config.interfaceKeys
         case None => [NoInterfaces]
         case Some(keys) =>
           var names := SortNames(keys);
           SummaryBlock(CheckedLines(names), |Compliant(names)|, |NonCompliant(names)|))
      + [ClosingRuleLine]
  }

  /** The two lists, which exist only when the `interface` key does */
  function PartitionOf(config: RouterConfig): Option<Partition> {
    match config.interfaceKeys
    case None => None
    case Some(keys) =>
      var names := SortNames(keys);
      Some(Partition(Compliant(names), NonCompliant(names)))
  }

  /** The loop over the sorted names: one tagged line per name, and each name appended to one of the two lists */
  method Classify(names: seq<string>) returns (lines: seq<Line>, compliant: seq<string>, nonCompliant: seq<string>)
    ensures lines == CheckedLines(names)
    ensures compliant == Compliant(names) && nonCompliant == NonCompliant(names)
  {
    lines, compliant, nonCompliant := [], [], [];
    var i := 0;
    while i < |names|
      invariant 0 <= i <= |names|
      invariant lines == CheckedLines(names[..i])
      invariant compliant == Compliant(names[..i])
      invariant nonCompliant == NonCompliant(names[..i])
    {
      var name := names[i];
      assert names[..i + 1][..i] == names[..i];
      assert CheckedLines(names[..i + 1]) == CheckedLines(names[..i]) + [Checked(name, IsCompliant(name))];
      var isValid := AnyStartsWith(name, ALLOWED_PREFIXES);
      if isValid {
        compliant := compliant + [name];
        lines := lines + [Checked(name, true)];
      } else {
        nonCompliant := nonCompliant + [name];
        lines := lines + [Checked(name, false)];
      }
      i := i + 1;
    }
    assert names[..i] == names;
  }

  /**
   * One run of the script on the running configuration: the report lines in order and,
   * when there are interfaces, the two lists. The script returns no verdict.
   */
  method Run(config: RouterConfig, timestamp: string) returns (output: seq<Line>, partition: Option<Partition>)
    ensures output == Report(config, timestamp)
    ensures partition == PartitionOf(config)
  {
    output := [OpeningRuleLine, TitleLine, EqualsRule, Stamp(timestamp), ActiveNote];
    match config.interfaceKeys {
      case None =>
        output := output + [NoInterfaces];
        partition := None;
      case Some(keys) =>
        ghost var banner := output;
        output := output + [SummaryHeading, DashRule];
        var names := SortNames(keys);
        var lines, compliant, nonCompliant := Classify(names);
        output := output + lines;
        Regroup(banner, [SummaryHeading, DashRule], lines);
        var totals := [DashRule, CompliantTotal(|compliant|), NonCompliantTotal(|nonCompliant|)];
        output := output + totals;
        Regroup(banner, [SummaryHeading, DashRule] + lines, totals);
        partition := Some(Partition(compliant, nonCompliant));
    }
    output := output + [ClosingRuleLine];
  }

  // Where the lines sit

  /** The fixed lines of a summary block, around the per-name lines */
  lemma BlockLayout(checked: seq<Line>, compliant: nat, nonCompliant: nat)
    ensures var b, n := SummaryBlock(checked, compliant, nonCompliant), |checked|;
      && |b| == 5 + n
      && b[0] == SummaryHeading && b[1] == DashRule
      && b[2 + n] == DashRule
      && b[3 + n] == CompliantTotal(compliant)
      && b[4 + n] == NonCompliantTotal(nonCompliant)
  {
  }

  /** The i-th per-name line is line 2 + i of the block. */
  lemma BlockCheckedAt(checked: seq<Line>, compliant: nat, nonCompliant: nat, i: nat)
    requires i < |checked|
    ensures SummaryBlock(checked, compliant, nonCompliant)[2 + i] == checked[i]
  {
  }

  /** Where the heading, the per-name lines, the dash rules and the totals sit in a report around a summary block */
  lemma BlockPositions(timestamp: string, checked: seq<Line>, compliant: nat, nonCompliant: nat)
    ensures var r, n := Banner(timestamp) + SummaryBlock(checked, compliant, nonCompliant) + [ClosingRuleLine], |checked|;
      && |r| == 11 + n
      && r[5] == SummaryHeading && r[6] == DashRule
      && (forall i :: 0 <= i < n ==> r[7 + i] == checked[i])
      && r[7 + n] == DashRule
      && r[8 + n] == CompliantTotal(compliant)
      && r[9 + n] == NonCompliantTotal(nonCompliant)
  {
    var n := |checked|;
    var b := SummaryBlock(checked, compliant, nonCompliant);
    var r := Banner(timestamp) + b + [ClosingRuleLine];
    Framed(Banner(timestamp), b, ClosingRuleLine);
    BlockLayout(checked, compliant, nonCompliant);
    FramedAt(Banner(timestamp), b, ClosingRuleLine, 0);
    FramedAt(Banner(timestamp), b, ClosingRuleLine, 1);
    FramedAt(Banner(timestamp), b, ClosingRuleLine, 2 + n);
    FramedAt(Banner(timestamp), b, ClosingRuleLine, 3 + n);
    FramedAt(Banner(timestamp), b, ClosingRuleLine, 4 + n);
    forall i | 0 <= i < n ensures r[7 + i] == checked[i] {
      FramedAt(Banner(timestamp), b, ClosingRuleLine, 2 + i);
      BlockCheckedAt(checked, compliant, nonCompliant, i);
    }
  }

  /** The report for the interface keys `keys`, spelled out as banner, summary block and closing rule */
  lemma PresentReport(keys: seq<string>, timestamp: string)
    ensures var names := SortNames(keys);
      Report(RouterConfig(Some(keys)), timestamp)
        == Banner(timestamp)
           + SummaryBlock(CheckedLines(names), |Compliant(names)|, |NonCompliant(names)|)
           + [ClosingRuleLine]
  {
  }

  // What the lines print

  /** The printed tag of a name's line says whether the name is compliant, and the name follows the tag. */
  lemma TagOf(name: string, ok: bool)
    ensures StartsWith(Render(Checked(name, ok)), OK_TAG) <==> ok
    ensures StartsWith(Render(Checked(name, ok)), FAIL_TAG) <==> !ok
    ensures Render(Checked(name, ok))[|if ok then OK_TAG else FAIL_TAG|..] == name
  {
    var text := Render(Checked(name, ok));
    if ok {
      assert text[..|OK_TAG|] == OK_TAG;
      DiffersAt(text, FAIL_TAG, 3);
    } else {
      assert text[..|FAIL_TAG|] == FAIL_TAG;
      DiffersAt(text, OK_TAG, 3);
    }
  }

  /** A totals line prints its label followed by the decimal digits of the count, which read back as the count. */
  lemma TotalTexts(n: nat)
    ensures var c, nc := Render(CompliantTotal(n)), Render(NonCompliantTotal(n));
      && StartsWith(c, COMPLIANT_LABEL) && AllDigits(c[|COMPLIANT_LABEL|..]) && DecimalValue(c[|COMPLIANT_LABEL|..]) == n
      && StartsWith(nc, NON_COMPLIANT_LABEL) && AllDigits(nc[|NON_COMPLIANT_LABEL|..])
      && DecimalValue(nc[|NON_COMPLIANT_LABEL|..]) == n
  {
    var digits := NatToString(n);
    DecimalRoundTrip(n);
    assert Render(CompliantTotal(n))[|COMPLIANT_LABEL|..] == digits;
    assert Render(NonCompliantTotal(n))[|NON_COMPLIANT_LABEL|..] == digits;
  }

  /** A text that differs from both totals labels at position `k` starts with neither of them. */
  lemma NoTotalLabel(text: string, k: nat)
    requires k < |text| && k < 2
    requires text[k] != COMPLIANT_LABEL[k] && text[k] != NON_COMPLIANT_LABEL[k]
    ensures !StartsWith(text, COMPLIANT_LABEL) && !StartsWith(text, NON_COMPLIANT_LABEL)
  {
    DiffersAt(text, COMPLIANT_LABEL, k);
    DiffersAt(text, NON_COMPLIANT_LABEL, k);
  }

  /** Is `line` one of the rules, the title or the timestamp line? */
  predicate IsFrameLine(line: Line) {
    line.OpeningRuleLine? || line.ClosingRuleLine? || line.EqualsRule? || line.DashRule? || line.Stamp? || line.TitleLine?
  }

  /** The rules, the title and the timestamp line print with no totals label. */
  lemma FrameLineTexts(line: Line)
    requires IsFrameLine(line)
    ensures !StartsWith(Render(line), COMPLIANT_LABEL) && !StartsWith(Render(line), NON_COMPLIANT_LABEL)
  {
    var text := Render(line);
    if line.OpeningRuleLine? || line.ClosingRuleLine? {
      FrameStarts();
      NoTotalLabel(text, 0);
    } else if line.EqualsRule? {
      assert text[0] == '=';
      NoTotalLabel(text, 0);
    } else if line.DashRule? {
      assert text[0] == '-';
      NoTotalLabel(text, 0);
    } else if line.Stamp? {
      assert text[1] == 'i';
      NoTotalLabel(text, 1);
    } else {
      assert text[0] == 'S';
      NoTotalLabel(text, 0);
    }
  }

  /** The note, the heading, the per-name lines and the no-interfaces line print with no totals label. */
  lemma BodyLineTexts(line: Line)
    requires !IsFrameLine(line) && !line.CompliantTotal? && !line.NonCompliantTotal?
    ensures !StartsWith(Render(line), COMPLIANT_LABEL) && !StartsWith(Render(line), NON_COMPLIANT_LABEL)
  {
    var text := Render(line);
    if line.Checked? {
      assert text[0] == ' ';
    } else if line.ActiveNote? {
      assert text[0] == 'C';
    } else {
      assert text[0] == '\n';
    }
    NoTotalLabel(text, 0);
  }

  /** Only a totals line of the matching kind prints with a totals label. */
  lemma TotalLabelTexts(line: Line)
    ensures StartsWith(Render(line), COMPLIANT_LABEL) ==> line.CompliantTotal?
    ensures StartsWith(Render(line), NON_COMPLIANT_LABEL) ==> line.NonCompliantTotal?
  {
    var text := Render(line);
    if line.CompliantTotal? {
      assert text[6] == 'c';
      DiffersAt(text, NON_COMPLIANT_LABEL, 6);
    } else if line.NonCompliantTotal? {
      assert text[6] == 'n';
      DiffersAt(text, COMPLIANT_LABEL, 6);
    } else if IsFrameLine(line) {
      FrameLineTexts(line);
    } else {
      BodyLineTexts(line);
    }
  }

  // Properties of the report and the two lists

  /**
   * The two lists are disjoint, together hold exactly the interface names, are both
   * ascending, and their lengths add up to the number of distinct names.
   */
  lemma PartitionExactly(keys: seq<string>)
    ensures var p := PartitionOf(RouterConfig(Some(keys))).value;
      && (forall x :: x in p.compliant ==> x !in p.nonCompliant)
      && (forall x :: x in keys <==> x in p.compliant || x in p.nonCompliant)
      && (forall x :: x in p.compliant ==> IsCompliant(x))
      && (forall x :: x in p.nonCompliant ==> !IsCompliant(x))
      && StrictlySorted(p.compliant) && StrictlySorted(p.nonCompliant)
      && |p.compliant| + |p.nonCompliant| == |SortNames(keys)|
      && (Distinct(keys) ==> |p.compliant| + |p.nonCompliant| == |keys|)
  {
    var names := SortNames(keys);
    SortNamesSpec(keys);
    SelectSpec(names, true);
    SelectSpec(names, false);
    PartitionExact(names);
    PartitionSizes(names);
    SelectSorted(names, true);
    SelectSorted(names, false);
  }

  /** The report opens with the banner and the note that the configuration is active, and ends with the closing rule. */
  lemma ReportFrame(config: RouterConfig, timestamp: string)
    ensures var r := Report(config, timestamp);
      && |r| >= 7
      && r[0] == OpeningRuleLine && r[1] == TitleLine && r[2] == EqualsRule
      && r[3] == Stamp(timestamp) && r[4] == ActiveNote
      && r[|r| - 1] == ClosingRuleLine
  {
    var body: seq<Line>;
    match config.interfaceKeys {
      case None =>
        body := [NoInterfaces];
      case Some(keys) =>
        var names := SortNames(keys);
        PresentReport(keys, timestamp);
        body := SummaryBlock(CheckedLines(names), |Compliant(names)|, |NonCompliant(names)|);
        BlockLayout(CheckedLines(names), |Compliant(names)|, |NonCompliant(names)|);
    }
    Framed(Banner(timestamp), body, ClosingRuleLine);
    BannerAt(Banner(timestamp), body, ClosingRuleLine, 0);
    BannerAt(Banner(timestamp), body, ClosingRuleLine, 1);
    BannerAt(Banner(timestamp), body, ClosingRuleLine, 2);
    BannerAt(Banner(timestamp), body, ClosingRuleLine, 3);
    BannerAt(Banner(timestamp), body, ClosingRuleLine, 4);
  }

  /**
   * With the `interface` key present, line 7 + i of the report is the line for the i-th
   * name in ascending order, tagged [OK] exactly when the name is compliant; a dash rule
   * follows the last name, then the two totals, then the closing rule.
   */
  lemma LinePerName(keys: seq<string>, timestamp: string)
    ensures var r, names, p := Report(RouterConfig(Some(keys)), timestamp), SortNames(keys), PartitionOf(RouterConfig(Some(keys))).value;
      && |r| == 11 + |names|
      && (forall i :: 0 <= i < |names| ==> r[7 + i] == Checked(names[i], IsCompliant(names[i])))
      && r[7 + |names|] == DashRule
      && r[8 + |names|] == CompliantTotal(|p.compliant|)
      && r[9 + |names|] == NonCompliantTotal(|p.nonCompliant|)
  {
    var names := SortNames(keys);
    PresentReport(keys, timestamp);
    BlockPositions(timestamp, CheckedLines(names), |Compliant(names)|, |NonCompliant(names)|);
  }

  /**
   * With the `interface` key present, printed line 7 + i is the i-th name in ascending
   * order behind the tag of its verdict.
   */
  lemma PrintedNameLines(keys: seq<string>, timestamp: string)
    ensures var text, names := Printed(Report(RouterConfig(Some(keys)), timestamp), Render), SortNames(keys);
      && |text| == 11 + |names|
      && forall i :: 0 <= i < |names| ==>
           text[7 + i] == (if IsCompliant(names[i]) then OK_TAG else FAIL_TAG) + names[i]
  {
    LinePerName(keys, timestamp);
    PrintedChecked(Report(RouterConfig(Some(keys)), timestamp), SortNames(keys));
  }

  /** Name lines at 7, 8, ... of a report print as the tagged names. */
  lemma PrintedChecked(r: seq<Line>, names: seq<string>)
    requires |r| == 11 + |names|
    requires forall i :: 0 <= i < |names| ==> r[7 + i] == Checked(names[i], IsCompliant(names[i]))
    ensures var text := Printed(r, Render);
      && |text| == 11 + |names|
      && forall i :: 0 <= i < |names| ==>
           text[7 + i] == (if IsCompliant(names[i]) then OK_TAG else FAIL_TAG) + names[i]
  {
  }

  /** Only the no-interfaces line prints as the no-interfaces notice. */
  lemma NoInterfacesText(line: Line)
    ensures Render(line) == NO_INTERFACES_LINE <==> line == NoInterfaces
  {
    var text := Render(line);
    if line.OpeningRuleLine? || line.ClosingRuleLine? {
      FrameStarts();
      assert text[1] != NO_INTERFACES_LINE[1];
    } else if line.SummaryHeading? {
      assert text[1] != NO_INTERFACES_LINE[1];
    } else if !line.NoInterfaces? {
      assert text[0] != NO_INTERFACES_LINE[0] by {
        if IsFrameLine(line) {
          assert text[0] == '=' || text[0] == '-' || text[0] == 'T' || text[0] == 'S';
        } else if line.Checked? {
          assert text[0] == ' ';
        } else {
          assert text[0] == 'C' || text[0] == 'T';
        }
      }
    }
  }

  /** The printed report holds the no-interfaces notice exactly when the `interface` key is absent. */
  lemma PrintedNoInterfaces(config: RouterConfig, timestamp: string)
    ensures NO_INTERFACES_LINE in Printed(Report(config, timestamp), Render) <==> config.interfaceKeys.None?
  {
    var r := Report(config, timestamp);
    var text := Printed(r, Render);
    forall k | 0 <= k < |r|
      ensures text[k] == NO_INTERFACES_LINE <==> r[k] == NoInterfaces
    {
      NoInterfacesText(r[k]);
    }
    match config.interfaceKeys {
      case None =>
        AbsentReport(timestamp);
        assert text[5] == NO_INTERFACES_LINE;
      case Some(keys) =>
        PresentNoNotice(keys, timestamp);
    }
  }

  /** With the `interface` key present, no line of the report is the no-interfaces line. */
  lemma PresentNoNotice(keys: seq<string>, timestamp: string)
    ensures NoInterfaces !in Report(RouterConfig(Some(keys)), timestamp)
  {
    var r := Report(RouterConfig(Some(keys)), timestamp);
    var names := SortNames(keys);
    var b := SummaryBlock(CheckedLines(names), |Compliant(names)|, |NonCompliant(names)|);
    PresentReport(keys, timestamp);
    Framed(Banner(timestamp), b, ClosingRuleLine);
    BlockPositions(timestamp, CheckedLines(names), |Compliant(names)|, |NonCompliant(names)|);
    forall k | 0 <= k < |r|
      ensures r[k] != NoInterfaces
    {
      if k < 5 {
        BannerAt(Banner(timestamp), b, ClosingRuleLine, k);
      } else if 7 <= k < 7 + |names| {
        assert r[7 + (k - 7)] == CheckedLines(names)[k - 7];
      }
    }
  }

  /**
   * Without the `interface` key the report is the banner, the no-interfaces line and the
   * closing rule: no line prints as a totals line and there are no lists.
   */
  lemma AbsentReport(timestamp: string)
    ensures var r := Report(RouterConfig(None), timestamp);
      && r == Banner(timestamp) + [NoInterfaces, ClosingRuleLine]
      && (forall k :: 0 <= k < |r| ==>
            !StartsWith(Render(r[k]), COMPLIANT_LABEL) && !StartsWith(Render(r[k]), NON_COMPLIANT_LABEL))
      && PartitionOf(RouterConfig(None)).None?
  {
    var r := Report(RouterConfig(None), timestamp);
    forall k | 0 <= k < |r|
      ensures !StartsWith(Render(r[k]), COMPLIANT_LABEL) && !StartsWith(Render(r[k]), NON_COMPLIANT_LABEL)
    {
      TotalLabelTexts(r[k]);
    }
  }

  // Agreement with the pre-commit script

  /**
   * On the same configuration, the post-commit lists agree with the pre-commit counters:
   * as many compliant names as passes, and the non-compliant list is the failure list.
   */
  lemma AgreesWithPreCommit(config: RouterConfig)
    ensures PartitionOf(config).Some? <==> PreCommit.TallyOf(config).Some?
    ensures PartitionOf(config).Some? ==>
      var p, t := PartitionOf(config).value, PreCommit.TallyOf(config).value;
      && |p.compliant| == t.passed
      && |p.nonCompliant| == t.failed
      && p.nonCompliant == t.failedInterfaces
  {
  }

  /**
   * A configuration the pre-commit script let through has no non-compliant name: every
   * per-name line of the post-commit report is tagged [OK] and the non-compliant total is 0.
   */
  lemma CommittedAllCompliant(keys: seq<string>, timestamp: string)
    requires PreCommit.VerdictOf(RouterConfig(Some(keys))) == PreCommit.Proceed
    ensures var r, names, p := Report(RouterConfig(Some(keys)), timestamp), SortNames(keys), PartitionOf(RouterConfig(Some(keys))).value;
      && p.nonCompliant == []
      && |p.compliant| == |names|
      && (forall i :: 0 <= i < |names| ==> r[7 + i] == Checked(names[i], true))
      && r[9 + |names|] == NonCompliantTotal(0)
  {
    var names := SortNames(keys);
    PreCommit.NonCompliantEmptyIff(keys);
    PreCommit.AbortIff(RouterConfig(Some(keys)));
    SortNamesSpec(keys);
    forall i | 0 <= i < |names| ensures IsCompliant(names[i]) {
      assert names[i] in keys;
    }
    PartitionSizes(names);
    LinePerName(keys, timestamp);
  }
}
