/**
 * The naming convention both scripts enforce, and the part of the router
 * configuration they read.
 */
module Naming {
  import opened Wrappers
  import opened Text
  import opened Ordering

  /** The allowed prefixes, in the order the scripts list them */
  const ALLOWED_PREFIXES: seq<string> := ["to_", "system", "loopback", "lo"]

  /**
   * The base router's configuration as the device session returns it, reduced to what
   * the scripts look at: the keys of its `interface` mapping in the order the device
   * lists them, or None when the configuration has no `interface` key at all.
   * The per-interface metadata is never read, so it is not modelled.
   */
  datatype RouterConfig = RouterConfig(interfaceKeys: Option<seq<string>>)

  /** `any(name.startswith(p) for p in prefixes)`: scans the prefixes left to right, stopping at the first match */
  predicate AnyStartsWith(name: string, prefixes: seq<string>) {
    prefixes != [] && (StartsWith(name, prefixes[0]) || AnyStartsWith(name, prefixes[1..]))
  }

  predicate IsCompliant(name: string) {
    AnyStartsWith(name, ALLOWED_PREFIXES)
  }

  /** The short-circuit scan accepts exactly the names that start with some listed prefix. */
  lemma {:induction false} AnyStartsWithIff(name: string, prefixes: seq<string>)
    ensures AnyStartsWith(name, prefixes) <==> exists i :: 0 <= i < |prefixes| && StartsWith(name, prefixes[i])
  {
    if prefixes != [] {
      AnyStartsWithIff(name, prefixes[1..]);
      if exists i :: 0 <= i < |prefixes| && StartsWith(name, prefixes[i]) {
        var i :| 0 <= i < |prefixes| && StartsWith(name, prefixes[i]);
        if i > 0 {
          assert prefixes[1..][i - 1] == prefixes[i];
        }
      }
      if exists i :: 0 <= i < |prefixes[1..]| && StartsWith(name, prefixes[1..][i]) {
        var i :| 0 <= i < |prefixes[1..]| && StartsWith(name, prefixes[1..][i]);
        assert prefixes[i + 1] == prefixes[1..][i];
      }
    }
  }

  /** A name is compliant iff it starts with "to_", "system", "loopback" or "lo". */
  lemma CompliantIff(name: string)
    ensures IsCompliant(name) <==>
      StartsWith(name, "to_") || StartsWith(name, "system") || StartsWith(name, "loopback") || StartsWith(name, "lo")
  {
    AnyStartsWithIff(name, ALLOWED_PREFIXES);
    if StartsWith(name, "to_") { assert StartsWith(name, ALLOWED_PREFIXES[0]); }
    if StartsWith(name, "system") { assert StartsWith(name, ALLOWED_PREFIXES[1]); }
    if StartsWith(name, "loopback") { assert StartsWith(name, ALLOWED_PREFIXES[2]); }
    if StartsWith(name, "lo") { assert StartsWith(name, ALLOWED_PREFIXES[3]); }
  }

  /** "loopback" starts with "lo", so dropping it from the list changes no verdict. */
  lemma LoopbackRedundant(name: string)
    ensures IsCompliant(name) <==> AnyStartsWith(name, ["to_", "system", "lo"])
  {
    CompliantIff(name);
    var shorter: seq<string> := ["to_", "system", "lo"];
    AnyStartsWithIff(name, shorter);
    if StartsWith(name, "loopback") {
      assert name[..2] == name[..8][..2];
      assert StartsWith(name, shorter[2]);
    }
    if StartsWith(name, "to_") { assert StartsWith(name, shorter[0]); }
    if StartsWith(name, "system") { assert StartsWith(name, shorter[1]); }
    if StartsWith(name, "lo") { assert StartsWith(name, shorter[2]); }
  }

  /**
   * The names whose verdict is `ok`, in the order they are visited: what appending
   * each visited name to the `compliant` (ok) or `non_compliant` (not ok) list builds.
   */
  function Select(names: seq<string>, ok: bool): seq<string> {
    if names == [] then []
    else
      var last := names[|names| - 1];
      Select(names[..|names| - 1], ok) + (if IsCompliant(last) == ok then [last] else [])
  }

  /** The selected names are exactly the given names whose verdict is `ok`. */
  lemma {:induction false} SelectSpec(names: seq<string>, ok: bool)
    ensures |Select(names, ok)| <= |names|
    ensures forall x :: x in Select(names, ok) <==> x in names && IsCompliant(x) == ok
  {
    if names != [] {
      var init, last := names[..|names| - 1], names[|names| - 1];
      SelectSpec(init, ok);
      assert names == init + [last];
    }
  }

  function Compliant(names: seq<string>): seq<string> {
    Select(names, true)
  }

  function NonCompliant(names: seq<string>): seq<string> {
    Select(names, false)
  }

  /** Every name lands in exactly one of the two lists, so their lengths add up to the number of names. */
  lemma {:induction false} PartitionSizes(names: seq<string>)
    ensures |Compliant(names)| + |NonCompliant(names)| == |names|
  {
    if names != [] {
      PartitionSizes(names[..|names| - 1]);
    }
  }

  /** The two lists are disjoint and together hold exactly the given names. */
  lemma PartitionExact(names: seq<string>)
    ensures forall x :: x in Compliant(names) ==> x !in NonCompliant(names)
    ensures forall x :: x in names <==> x in Compliant(names) || x in NonCompliant(names)
  {
    SelectSpec(names, true);
    SelectSpec(names, false);
  }

  /** Only appending, in visiting order, keeps both lists ascending when the names are. */
  lemma {:induction false} SelectSorted(names: seq<string>, ok: bool)
    requires StrictlySorted(names)
    ensures StrictlySorted(Select(names, ok))
  {
    if names != [] {
      var init, last := names[..|names| - 1], names[|names| - 1];
      SelectSorted(init, ok);
      SelectSpec(init, ok);
      if IsCompliant(last) == ok {
        var r := Select(init, ok);
        forall x | x in r ensures Less(x, last) {
          var k :| 0 <= k < |init| && init[k] == x;
        }
      }
    }
  }
}
