/**
 * Python's ordering of `str` values and `sorted()` applied to the keys of a dict.
 */
module Ordering {

  /** `a < b` on Python strings: lexicographic by code point, a proper prefix before its extensions */
  predicate Less(a: string, b: string) {
    if a == [] then b != []
    else b != [] && (a[0] < b[0] || (a[0] == b[0] && Less(a[1..], b[1..])))
  }

  lemma {:induction false} LessAsymmetric(a: string, b: string)
    ensures Less(a, b) ==> !Less(b, a)
  {
    if a != [] && b != [] && a[0] == b[0] {
      LessAsymmetric(a[1..], b[1..]);
    }
  }

  lemma {:induction false} LessTransitive(a: string, b: string, c: string)
    requires Less(a, b) && Less(b, c)
    ensures Less(a, c)
  {
    if a != [] && a[0] == b[0] && b[0] == c[0] {
      LessTransitive(a[1..], b[1..], c[1..]);
    }
  }

  lemma {:induction false} LessTotal(a: string, b: string)
    requires a != b
    ensures Less(a, b) || Less(b, a)
  {
    if a != [] && b != [] && a[0] == b[0] {
      assert a == [a[0]] + a[1..] && b == [b[0]] + b[1..];
      LessTotal(a[1..], b[1..]);
    }
  }

  /** Ascending, hence free of duplicates */
  predicate StrictlySorted(s: seq<string>) {
    forall i, j :: 0 <= i < j < |s| ==> Less(s[i], s[j])
  }

  predicate Distinct(s: seq<string>) {
    forall i, j :: 0 <= i < j < |s| ==> s[i] != s[j]
  }

  /** Places `x` into an ascending sequence, leaving it as it is when `x` is already there */
  function Insert(x: string, s: seq<string>): seq<string> {
    if s == [] then [x]
    else if x == s[0] then s
    else if Less(x, s[0]) then [x] + s
    else [s[0]] + Insert(x, s[1..])
  }

  /** Insertion keeps a sequence ascending, adds exactly `x`, and grows it by one unless `x` was there. */
  lemma {:induction false} InsertSpec(x: string, s: seq<string>)
    requires StrictlySorted(s)
    ensures var r := Insert(x, s);
      && StrictlySorted(r)
      && (forall y :: y in r <==> y == x || y in s)
      && |r| == if x in s then |s| else |s| + 1
  {
    if s == [] {
    } else if x == s[0] {
    } else if Less(x, s[0]) {
      forall j | 0 < j < |s| ensures Less(x, s[j]) {
        LessTransitive(x, s[0], s[j]);
      }
      LessAsymmetric(x, x);
      assert x !in s;
    } else {
      LessTotal(x, s[0]);
      InsertSpec(x, s[1..]);
      var rest := Insert(x, s[1..]);
      assert forall y :: y in s[1..] ==> Less(s[0], y);
      assert s == [s[0]] + s[1..];
      assert Insert(x, s) == [s[0]] + rest;
    }
  }

  /** `sorted(d.keys())`: the distinct keys in ascending order */
  function SortNames(keys: seq<string>): seq<string> {
    if keys == [] then [] else Insert(keys[0], SortNames(keys[1..]))
  }

  /**
   * The sorted names are ascending and are exactly the keys; there are no more of them
   * than keys, and as many when the keys are distinct, as a dict's keys are.
   */
  lemma {:induction false} SortNamesSpec(keys: seq<string>)
    ensures var r := SortNames(keys);
      && StrictlySorted(r)
      && (forall y :: y in r <==> y in keys)
      && |r| <= |keys|
      && (Distinct(keys) ==> |r| == |keys|)
  {
    if keys != [] {
      SortNamesSpec(keys[1..]);
      InsertSpec(keys[0], SortNames(keys[1..]));
      assert keys == [keys[0]] + keys[1..];
      assert Distinct(keys) ==> keys[0] !in keys[1..];
    }
  }

  /** Two ascending sequences with the same elements are the same sequence. */
  lemma {:induction false} SortedUnique(a: seq<string>, b: seq<string>)
    requires StrictlySorted(a) && StrictlySorted(b)
    requires forall y :: y in a <==> y in b
    ensures a == b
  {
    if a != [] { assert a[0] in b; }
    if b != [] { assert b[0] in a; }
    if a != [] && b != [] {
      if a[0] != b[0] {
        var i :| 0 <= i < |b| && b[i] == a[0];
        var j :| 0 <= j < |a| && a[j] == b[0];
        assert Less(b[0], a[0]) && Less(a[0], b[0]);
        LessAsymmetric(a[0], b[0]);
        assert false;
      }
      forall y ensures y in a[1..] <==> y in b[1..] {
        LessAsymmetric(y, y);
        if y in a[1..] {
          var k :| 0 <= k < |a[1..]| && a[1..][k] == y;
          assert Less(a[0], a[k + 1]);
          assert y in a && y in b;
          var m :| 0 <= m < |b| && b[m] == y;
          assert b[1..][m - 1] == y;
        }
        if y in b[1..] {
          var k :| 0 <= k < |b[1..]| && b[1..][k] == y;
          assert Less(b[0], b[k + 1]);
          assert y in b && y in a;
          var m :| 0 <= m < |a| && a[m] == y;
          assert a[1..][m - 1] == y;
        }
      }
      SortedUnique(a[1..], b[1..]);
      assert a == [a[0]] + a[1..] && b == [b[0]] + b[1..];
    }
  }

  /** The sorted names depend only on which keys there are, not on the order the device lists them. */
  lemma SortNamesCanonical(keys1: seq<string>, keys2: seq<string>)
    requires forall y :: y in keys1 <==> y in keys2
    ensures SortNames(keys1) == SortNames(keys2)
  {
    SortNamesSpec(keys1);
    SortNamesSpec(keys2);
    SortedUnique(SortNames(keys1), SortNames(keys2));
  }
}
