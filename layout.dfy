/**
 * What both reports share: rules of 70 characters, the opening and closing rules, the
 * timestamp line, the printed text of a report, and a report's frame of banner, body
 * and closing line.
 */
module Layout {
  import opened Text

  const RULE_WIDTH: nat := 70

  /** `c * 70` */
  function Rule(c: char): (r: string)
    ensures |r| == RULE_WIDTH && forall i :: 0 <= i < |r| ==> r[i] == c
  {
    seq(RULE_WIDTH, _ => c)
  }

  /** The report's first line: a newline and a rule of '=' */
  function OpeningRule(): string {
    "\n" + Rule('=')
  }

  /** The report's last line: a rule of '=' between two newlines */
  function ClosingRule(): string {
    "\n" + Rule('=') + "\n"
  }

  /** The line that stamps the report with the time of the run */
  function TimestampLine(timestamp: string): string {
    "Timestamp: " + timestamp
  }

  /** The text lines printed to the console (and written to the results file) for a report whose entries `render` prints */
  function Printed<L>(report: seq<L>, render: L -> string): (text: seq<string>)
    ensures |text| == |report| && forall i :: 0 <= i < |report| ==> text[i] == render(report[i])
  {
    seq(|report|, i requires 0 <= i < |report| => render(report[i]))
  }

  /** A report is a banner, a body and a closing line: the closing line comes last. */
  lemma Framed<L>(banner: seq<L>, body: seq<L>, closing: L)
    ensures var r := banner + body + [closing];
      && |r| == |banner| + |body| + 1
      && r[|r| - 1] == closing
  {
  }

  /** Line `i` of the banner is line `i` of the report. */
  lemma BannerAt<L>(banner: seq<L>, body: seq<L>, closing: L, i: nat)
    requires i < |banner|
    ensures (banner + body + [closing])[i] == banner[i]
  {
  }

  /** Line `k` of the body is the line that many places after the banner. */
  lemma FramedAt<L>(banner: seq<L>, body: seq<L>, closing: L, k: nat)
    requires k < |body|
    ensures (banner + body + [closing])[|banner| + k] == body[k]
  {
  }

  /** Lines appended one group at a time form the same report as the groups appended together. */
  lemma Regroup<L>(a: seq<L>, b: seq<L>, c: seq<L>)
    ensures (a + b) + c == a + (b + c)
  {
  }

  /** The frame's texts: the rules are 70 copies of their character, with the opening and closing newlines. */
  lemma FrameTexts()
    ensures |OpeningRule()| == 71 && OpeningRule()[0] == '\n'
    ensures forall i :: 1 <= i < 71 ==> OpeningRule()[i] == '='
    ensures |ClosingRule()| == 72 && ClosingRule()[0] == '\n' && ClosingRule()[71] == '\n'
    ensures forall i :: 1 <= i < 71 ==> ClosingRule()[i] == '='
  {
    var r := Rule('=');
    assert forall i :: 1 <= i < 71 ==> OpeningRule()[i] == r[i - 1];
    assert forall i :: 1 <= i < 71 ==> ClosingRule()[i] == r[i - 1];
  }

  /** The first two characters of the opening and closing rules: a newline, then '='. */
  lemma FrameStarts()
    ensures |OpeningRule()| >= 2 && OpeningRule()[0] == '\n' && OpeningRule()[1] == '='
    ensures |ClosingRule()| >= 2 && ClosingRule()[0] == '\n' && ClosingRule()[1] == '='
  {
    assert OpeningRule()[1] == Rule('=')[0];
    assert ClosingRule()[1] == Rule('=')[0];
  }
}
