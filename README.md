# Interface naming commit scripts, modelled in Dafny

Two scripts run on a router around a configuration commit and check the names of the
base router's interfaces:

- The pre-commit script (`pre.py`) reads the candidate configuration. It checks every
  interface name against the allowed prefixes `to_`, `system`, `loopback` and `lo`. It
  prints a report and then aborts the commit when a name fails, naming the failures.
- The post-commit script (`post.py`) reads the running configuration once the commit is
  in. It prints the same split into compliant and non-compliant names. It never aborts.

The project models both scripts in Dafny:

| file | module | what it holds |
|---|---|---|
| `wrappers.dfy` | `Wrappers` | `Option` |
| `text.dfy` | `Text` | `str.startswith`, `str(n)` with its read-back, `", ".join` and substring occurrence |
| `ordering.dfy` | `Ordering` | Python's `<` on strings and `sorted()` applied to the keys of a dict |
| `naming.dfy` | `Naming` | the prefix rule, the configuration as the scripts see it, and the compliant / non-compliant filters |
| `layout.dfy` | `Layout` | the 70-character rules, the timestamp line, the printed text of a report and the banner-body-closing frame that both reports share |
| `pre_commit.dfy` | `PreCommit` | the pre-commit script: report, counters, failure list and commit verdict |
| `post_commit.dfy` | `PostCommit` | the post-commit script: report and the two lists |
| `worked_example.dfy` | `WorkedExample` | both scripts on five concrete names |

Each script is modelled as a method `Run` that builds the same `output` list as the
source. The loops in `Validate`, `Summarize` and `Classify` append the per-name lines
and the bullets one by one, and `Run` appends each group to the output.

- Each report entry is a `Line` value. `Render` gives the text printed for it, and
  `Printed` gives the printed text of a whole report.
- `Run` is proved against specification functions: `Report`, `TallyOf` and `VerdictOf`
  for the pre-commit script, `Report` and `PartitionOf` for the post-commit script.
- The lemmas state what the scripts promise about those functions.
- The configuration is a `RouterConfig`. It holds the keys of the `interface` mapping in
  the order the device lists them, or `None` when the configuration has no `interface` key.
- The post-commit `Run` returns no verdict, so the model cannot abort after a commit.

A configuration whose `interface` key is present but empty does not produce the "No
interfaces found" line. It produces an empty details block with zero counts and the
success line (pre.py:25-59, `PreCommit.EmptyInterfaces`). The "No interfaces found" line
appears only when the `interface` key is absent (pre.py:60-61).

## Model

| member | source | states |
|---|---|---|
| Text.NatToString | pre.py:49-51 | `str(n)` is a non-empty string of decimal digits, with a leading zero only for 0 |
| Text.DecimalRoundTrip | pre.py:49-51 | the digits that `str(n)` prints read back as `n`, so a printed count is exact |
| Text.NatToStringInjective | pre.py:49-51 | different counts never print as the same digits |
| Text.JoinMentions | pre.py:79 | every element of the list appears inside its `", ".join` |
| Layout.FrameTexts | pre.py:63 | the closing line is a newline, 70 '=' and a newline; the opening line (line 17) is a newline and 70 '=' |
| Ordering.LessAsymmetric | pre.py:36 | Python's `<` on strings is asymmetric |
| Ordering.LessTransitive | pre.py:36 | Python's `<` on strings is transitive |
| Ordering.LessTotal | pre.py:36 | two different strings are always ordered one way or the other |
| Ordering.InsertSpec | pre.py:36 | inserting a name keeps the list ascending, adds exactly that name, and grows the list by one unless the name was already there |
| Ordering.SortNamesSpec | pre.py:36 | `sorted(keys)` is strictly ascending, holds exactly the keys, and has one entry per key when the keys are distinct |
| Ordering.SortedUnique | pre.py:36 | two ascending lists with the same members are equal |
| Ordering.SortNamesCanonical | pre.py:36 | the sorted order depends only on which names there are, not on the order the device lists them |
| Naming.AnyStartsWithIff | pre.py:37 | the short-circuit `any(...startswith...)` holds iff the name starts with one of the prefixes |
| Naming.CompliantIff | pre.py:28-37 | a name is compliant iff it starts with `to_`, `system`, `loopback` or `lo` |
| Naming.LoopbackRedundant | pre.py:28 | dropping `loopback` from the prefix list accepts exactly the same names, because `lo` already covers it |
| Naming.SelectSpec | post.py:35-44 | a list built by the loop holds exactly the visited names with that verdict, and is no longer than the input |
| Naming.PartitionSizes | pre.py:36-46 | the two lists together are as long as the list of visited names |
| Naming.PartitionExact | post.py:35-44 | the compliant and non-compliant lists are disjoint, and together they hold every visited name |
| Naming.SelectSorted | post.py:35-44 | appending in ascending visiting order keeps both lists ascending |
| PreCommit.Validate | pre.py:36-46 | the loop produces one tagged line per sorted name, passed = number of compliant names, failed = number of non-compliant names, and `failed_interfaces` = the non-compliant names in visiting order |
| PreCommit.Summarize | pre.py:48-59 | after the per-name lines: the dash rule and three counts, then either the error heading, one bullet per failure and the abort notice, or the success notice |
| PreCommit.Run | pre.py:16-79 | the run's report, counters and verdict are exactly `Report`, `TallyOf` and `VerdictOf` of the configuration |
| PreCommit.BlockPositions | pre.py:33-51 | in a report around a details block, the heading, the per-name lines, the dash rules and the three counts sit at lines 4, 5, 6+i, 6+n and 7+n to 9+n |
| PreCommit.NoticeMembership | pre.py:53-59 | around a details block, the report contains the abort notice iff failed > 0, and the success notice iff failed = 0 |
| PreCommit.NoticePosition | pre.py:53-59 | the line just before the closing rule is the abort notice when failed > 0, and the success notice otherwise |
| PreCommit.BulletPositions | pre.py:53-57 | with failures, the error heading follows the counts, with one bullet per failing name after it, in order |
| PreCommit.TagOf | pre.py:38-44 | a name's line starts with `[PASS]` iff the name passed and with `[FAIL]` iff it failed, and the name follows the tag |
| PreCommit.CountTexts | pre.py:49-51 | each count line is its label followed by digits that read back as the count |
| PreCommit.CountLabelTexts | pre.py:49-51 | only a count line of the matching kind starts with "Total interfaces: ", "Passed: " or "Failed: " |
| PreCommit.OutcomeTexts | pre.py:57-59 | only the abort entry prints as the COMMIT ABORTED line, and only the success entry prints as the SUCCESS line |
| PreCommit.PrintedNotices | pre.py:73-75 | the printed report contains a notice's text iff the report contains that notice's entry |
| PreCommit.NonCompliantEmptyIff | pre.py:45-53 | the failure count is positive iff some interface name is non-compliant |
| PreCommit.ReportFrame | pre.py:16-20 | every report starts with the opening rule, the title, a rule of '=' and the timestamp, and ends with the closing rule (line 63) |
| PreCommit.LinePerName | pre.py:36-48 | line 6 + i is the i-th name in ascending order, carrying its verdict; the dash rule follows the last name |
| PreCommit.PrintedNameLines | pre.py:36-44 | printed line 6 + i is `"  [PASS] "` or `"  [FAIL] "`, as the i-th name in ascending order passes or fails, followed by that name |
| PreCommit.CountLinesExact | pre.py:48-51 | passed + failed equals the number of names, and that equals the number of keys when the keys are distinct; the Total, Passed and Failed lines carry these counts |
| PreCommit.TallySize | pre.py:29-51 | passed + failed equals the number of sorted names, and the number of keys when they are distinct |
| PreCommit.FailedListExact | pre.py:31-46 | `failed_interfaces` holds exactly the non-compliant keys, in ascending order, and its length is `failed` |
| PreCommit.NoticeLines | pre.py:53-59 | the report holds the abort notice iff failed > 0 and the success notice iff failed = 0, with the notice just before the closing rule; with no failures the report has exactly 12 + n lines |
| PreCommit.BulletLines | pre.py:53-57 | with failures, line 10 + n is the error heading and one bullet per failing name follows it |
| PreCommit.OutcomeExclusive | pre.py:53-59 | the report has the failure bullets and the abort notice iff some name is non-compliant, the success notice otherwise, and never both; the report has 12 + n lines without failures and 13 + n + (number of failures) with them |
| PreCommit.AbortMessageMentions | pre.py:79 | the abort message names every non-compliant key |
| PreCommit.AbortIff | pre.py:78-79 | the commit is aborted iff the `interface` key is present and some name fails; the message is "Non-compliant interfaces detected: " followed by the failures joined with ", " |
| PreCommit.AbsentReport | pre.py:60-61 | without the `interface` key, the report is the banner, the no-interfaces line and the closing rule; no line prints as a count, there are no counters, and the commit proceeds |
| PreCommit.EmptyInterfaces | pre.py:25-59 | an empty `interface` mapping gives zero counts, the success line, and no abort |
| PostCommit.Classify | post.py:35-44 | the loop produces one tagged line per sorted name, and appends each name to `compliant` or `non_compliant` according to its verdict |
| PostCommit.Run | post.py:15-53 | the run's report and lists are exactly `Report` and `PartitionOf` of the configuration; there is no verdict |
| PostCommit.BlockPositions | post.py:32-48 | in a report around a summary block, the heading, the per-name lines, the dash rules and the two totals sit at lines 5, 6, 7+i, 7+n, 8+n and 9+n |
| PostCommit.TagOf | post.py:36-44 | a name's line starts with `[OK]` iff the name is compliant and with `[FAIL]` iff it is not, and the name follows the tag |
| PostCommit.TotalTexts | post.py:47-48 | each totals line is its label followed by digits that read back as the count |
| PostCommit.TotalLabelTexts | post.py:47-48 | only a totals line of the matching kind starts with a totals label |
| PostCommit.PartitionExactly | post.py:25-44 | the two lists are disjoint and together hold exactly the keys; every compliant-list name is compliant and every other name is not; both lists are ascending; their lengths add up to the number of names |
| PostCommit.ReportFrame | post.py:15-20 | every report starts with the opening rule, the title, a rule of '=', the timestamp and the active-configuration note, and ends with the closing rule (line 53) |
| PostCommit.LinePerName | post.py:32-48 | line 7 + i is the i-th name in ascending order, tagged by its verdict; then come the dash rule and the two totals, which carry the lengths of the two lists |
| PostCommit.PrintedNameLines | post.py:35-44 | printed line 7 + i is `"  [OK] "` or `"  [FAIL] "`, as the i-th name in ascending order is compliant or not, followed by that name |
| PostCommit.NoInterfacesText | post.py:49-51 | only the no-interfaces entry prints as "No interfaces found in configuration." |
| PostCommit.PrintedNoInterfaces | post.py:24-51 | the printed report contains the no-interfaces line iff the configuration has no `interface` key |
| PostCommit.AbsentReport | post.py:49-51 | without the `interface` key, the report is the banner, the no-interfaces line and the closing rule; no line prints as a total, and there are no lists |
| PostCommit.AgreesWithPreCommit | post.py:29-48 | on the same configuration, the compliant list is as long as the pre-commit passed count, and the non-compliant list equals the pre-commit failure list |
| PostCommit.CommittedAllCompliant | post.py:35-48 | on a configuration that the pre-commit script lets through, every post-commit name line is tagged `[OK]` and the non-compliant total is 0 |
| WorkedExample.SortedExample | pre.py:36 | "to_core1", "eth0", "loopback1", "system0", "WAN1" sort as WAN1, eth0, loopback1, system0, to_core1 |
| WorkedExample.VerdictsExample | pre.py:37 | of those names, WAN1 and eth0 are non-compliant and the other three are compliant |
| WorkedExample.SplitExample | post.py:35-44 | the compliant list is [loopback1, system0, to_core1] and the non-compliant list is [WAN1, eth0] |
| WorkedExample.ScriptsExample | pre.py:78-79 | on those keys: passed 3, failed 2, and the abort message "Non-compliant interfaces detected: WAN1, eth0"; the post-commit script reports the same split |

## Left out

- The device session is not modelled: `connect()` and the `candidate.get` / `running.get` queries (pre.py:7,23; post.py:7,23). The configuration they return is the `RouterConfig` parameter. A failing session or malformed device data is not modelled.
- The per-interface data inside the `interface` mapping is not modelled. The scripts read only its keys.
- The clock is not modelled. The time printed on the Timestamp line (pre.py:20, post.py:19) is a `timestamp` parameter. The time stamped into the results file name (pre.py:13-14, post.py:12-13) is left out with the file.
- Writing the results file is not modelled (pre.py:65-71, post.py:59-65). Each line would be written followed by a newline. The pre-commit script swallows every exception (bare `except:`, pre.py:70); the post-commit script swallows every `Exception` (post.py:64). Console printing (pre.py:73-75, post.py:55-57) is modelled only as the text `Printed` gives for each line. The pre-commit script writes before it prints and the post-commit script prints before it writes; the model does not capture this order of side effects.
- Raising `SystemError` (pre.py:78-79) is modelled as the returned `Verdict.Abort(message)`. Exception propagation to the commit machinery is not modelled.
- Dictionary keys are distinct, so `SortNames` drops repeated keys rather than assuming there are none. The count lemmas state that the counts match the number of keys when the keys are distinct.
- A Python `str` is a sequence of code points. The model uses Dafny strings (sequences of `char`), compared by code point as Python compares them.

