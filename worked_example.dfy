/**
 * Both scripts on one concrete configuration: the interfaces "to_core1", "eth0",
 * "loopback1", "system0" and "WAN1", in the order the device lists them.
 */
module WorkedExample {
  import opened Wrappers
  import opened Text
  import opened Ordering
  import opened Naming
  import PreCommit
  import PostCommit

  const KEYS: seq<string> := ["to_core1", "eth0", "loopback1", "system0", "WAN1"]
  const SORTED: seq<string> := ["WAN1", "eth0", "loopback1", "system0", "to_core1"]

  /** Names whose first characters ascend are in ascending order. */
  lemma FirstCharsAscend(s: seq<string>)
    requires forall i :: 0 <= i < |s| ==> s[i] != []
    requires forall i, j :: 0 <= i < j < |s| ==> s[i][0] < s[j][0]
    ensures StrictlySorted(s)
  {
  }

  /** Python's `sorted` puts the upper-case name first, since 'W' comes before every lower-case letter. */
  lemma SortedExample()
    ensures SortNames(KEYS) == SORTED
  {
    FirstCharsAscend(SORTED);
    SortNamesSpec(KEYS);
    assert forall y :: y in SortNames(KEYS) <==> y in SORTED;
    SortedUnique(SortNames(KEYS), SORTED);
  }

  /** The verdict of the naming convention on each of the five names */
  lemma VerdictsExample()
    ensures !IsCompliant("WAN1") && !IsCompliant("eth0")
    ensures IsCompliant("loopback1") && IsCompliant("system0") && IsCompliant("to_core1")
  {
    forall name | name in ["WAN1", "eth0"] ensures !IsCompliant(name) {
      CompliantIff(name);
      DiffersAt(name, "to_", 0);
      DiffersAt(name, "system", 0);
      DiffersAt(name, "loopback", 0);
      DiffersAt(name, "lo", 0);
    }
    assert "loopback1"[..8] == "loopback";
    assert "system0"[..6] == "system";
    assert "to_core1"[..3] == "to_";
    CompliantIff("loopback1");
    CompliantIff("system0");
    CompliantIff("to_core1");
  }

  /** Visiting the sorted names in order, the compliant and non-compliant lists come out as follows. */
  lemma SplitExample()
    ensures Compliant(SORTED) == ["loopback1", "system0", "to_core1"]
    ensures NonCompliant(SORTED) == ["WAN1", "eth0"]
  {
    VerdictsExample();
    var s1, s2, s3, s4 := SORTED[..1], SORTED[..2], SORTED[..3], SORTED[..4];
    assert s1 == ["WAN1"] && s2 == ["WAN1", "eth0"] && s3 == ["WAN1", "eth0", "loopback1"];
    assert s4 == ["WAN1", "eth0", "loopback1", "system0"];
    assert s2[..1] == s1 && s3[..2] == s2 && s4[..3] == s3;
    assert Select(s1, true) == [] && Select(s1, false) == ["WAN1"];
    assert Select(s2, true) == [] && Select(s2, false) == ["WAN1", "eth0"];
    assert Select(s3, true) == ["loopback1"] && Select(s3, false) == ["WAN1", "eth0"];
    assert Select(s4, true) == ["loopback1", "system0"] && Select(s4, false) == ["WAN1", "eth0"];
  }

  /**
   * Three names pass and two fail; the pre-commit script aborts the commit naming the two
   * failures, and the post-commit script lists the same split.
   */
  lemma ScriptsExample()
    ensures PreCommit.TallyOf(RouterConfig(Some(KEYS))) == Some(PreCommit.Tally(3, 2, ["WAN1", "eth0"]))
    ensures PreCommit.VerdictOf(RouterConfig(Some(KEYS)))
      == PreCommit.Abort("Non-compliant interfaces detected: " + "WAN1, eth0")
    ensures PostCommit.PartitionOf(RouterConfig(Some(KEYS)))
      == Some(PostCommit.Partition(["loopback1", "system0", "to_core1"], ["WAN1", "eth0"]))
  {
    SortedExample();
    SplitExample();
    assert Join(["WAN1", "eth0"], ", ") == "WAN1, eth0";
  }
}
