/**
 * The handful of Python string operations the two scripts use: `str.startswith`,
 * `str(n)` on a non-negative integer, `sep.join(xs)` and substring search
 * (`c * n` is in Layout, which builds the rules).
 */
module Text {

  /** `s.startswith(p)` */
  predicate StartsWith(s: string, p: string) {
    |p| <= |s| && s[..|p|] == p
  }

  /** A string that differs from `p` at some position of `p` does not start with `p`. */
  lemma DiffersAt(s: string, p: string, k: nat)
    requires k < |p| && k < |s| && s[k] != p[k]
    ensures !StartsWith(s, p)
  {
  }

  /** `t` occurs inside `s` starting at offset `k` */
  predicate OccursAt(s: string, t: string, k: nat) {
    k + |t| <= |s| && s[k..k + |t|] == t
  }

  /** `t in s`: `t` occurs somewhere inside `s` */
  ghost predicate Mentions(s: string, t: string) {
    exists k :: OccursAt(s, t, k)
  }

  /** An occurrence inside `s` is an occurrence inside `p + s`, shifted by the length of `p`. */
  lemma OccursAfter(p: string, s: string, t: string, k: nat)
    requires OccursAt(s, t, k)
    ensures OccursAt(p + s, t, |p| + k)
  {
    assert (p + s)[|p| + k..|p| + k + |t|] == s[k..k + |t|];
  }

  predicate IsDigit(c: char) {
    '0' <= c <= '9'
  }

  predicate AllDigits(s: string) {
    forall i :: 0 <= i < |s| ==> IsDigit(s[i])
  }

  function DigitChar(d: nat): (c: char)
    requires d < 10
    ensures IsDigit(c)
  {
    ('0' as int + d) as char
  }

  function DigitValue(c: char): (d: nat)
    requires IsDigit(c)
    ensures d < 10 && DigitChar(d) == c
  {
    c as int - '0' as int
  }

  /** `str(n)` for a non-negative integer: its decimal digits, without leading zeros */
  function NatToString(n: nat): (s: string)
    ensures |s| >= 1 && AllDigits(s)
    ensures s[0] == '0' <==> n == 0
    ensures n == 0 ==> s == "0"
    decreases n
  {
    if n < 10 then [DigitChar(n)] else NatToString(n / 10) + [DigitChar(n % 10)]
  }

  /** The number a string of decimal digits denotes */
  function DecimalValue(s: string): nat
    requires AllDigits(s)
  {
    if s == [] then 0 else 10 * DecimalValue(s[..|s| - 1]) + DigitValue(s[|s| - 1])
  }

  /** Reading back what `str(n)` printed gives `n`: the printed counts are exact. */
  lemma {:induction false} DecimalRoundTrip(n: nat)
    ensures DecimalValue(NatToString(n)) == n
    decreases n
  {
    var s := NatToString(n);
    if n >= 10 {
      assert s[..|s| - 1] == NatToString(n / 10);
      DecimalRoundTrip(n / 10);
    }
  }

  /** Different counts never print the same. */
  lemma NatToStringInjective(m: nat, n: nat)
    requires NatToString(m) == NatToString(n)
    ensures m == n
  {
    DecimalRoundTrip(m);
    DecimalRoundTrip(n);
  }

  /** `sep.join(xs)` */
  function Join(xs: seq<string>, sep: string): string {
    if xs == [] then ""
    else if |xs| == 1 then xs[0]
    else xs[0] + sep + Join(xs[1..], sep)
  }

  /** Every joined element appears in the joined string. */
  lemma {:induction false} JoinMentions(xs: seq<string>, sep: string, i: nat)
    requires i < |xs|
    ensures exists k :: OccursAt(Join(xs, sep), xs[i], k)
  {
    if |xs| == 1 {
      assert OccursAt(Join(xs, sep), xs[i], 0);
    } else if i == 0 {
      var j := Join(xs, sep);
      assert j == xs[0] + (sep + Join(xs[1..], sep));
      assert j[0..|xs[0]|] == xs[0];
      assert OccursAt(j, xs[i], 0);
    } else {
      JoinMentions(xs[1..], sep, i - 1);
      var rest := Join(xs[1..], sep);
      assert xs[1..][i - 1] == xs[i];
      var k: nat :| OccursAt(rest, xs[i], k);
      var head := xs[0] + sep;
      assert Join(xs, sep) == head + rest;
      OccursAfter(head, rest, xs[i], k);
    }
  }
}
