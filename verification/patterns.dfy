/** The two name patterns that tie commits and branches to stack positions:
    the commit trailer `\[(\d+)/n\].*` and the branch name `<base>-(\d+)(-.*)?`,
    both applied with `re.match`, which anchors at the start only. */
module Patterns {
  import opened Wrappers
  import opened Text

  /** The stack position a commit subject announces, e.g. `[3/n] fix parser`. */
  function ParseTrailer(msg: string): Option<nat> {
    if |msg| > 0 && msg[0] == '[' then
      var d := LeadingDigits(msg[1..]);
      var rest := msg[1 + |d|..];
      if |d| > 0 && |rest| >= 3 && rest[..3] == "/n]" then Some(DecimalValue(d)) else None
    else None
  }

  /** `msg` is `[`, the digits `msg[1..k]` of value `n`, `/n]`, then anything. */
  ghost predicate TrailerMatch(msg: string, k: int, n: nat) {
    && 1 < k && k + 3 <= |msg|
    && msg[0] == '['
    && AllDigits(msg[1..k])
    && msg[k..k + 3] == "/n]"
    && n == DecimalValue(msg[1..k])
  }

  /** The trailer parser finds position `n` exactly when the subject starts
      with `[`, one or more digits worth `n`, and `/n]`; trailing text is ignored. */
  lemma ParseTrailerIff(msg: string, n: nat)
    ensures ParseTrailer(msg) == Some(n) <==> exists k :: TrailerMatch(msg, k, n)
  {
    if ParseTrailer(msg) == Some(n) {
      var d := LeadingDigits(msg[1..]);
      var k := 1 + |d|;
      assert msg[1..k] == d;
      assert TrailerMatch(msg, k, n);
    }
    if exists k :: TrailerMatch(msg, k, n) {
      var k :| TrailerMatch(msg, k, n);
      var tail := msg[1..];
      assert tail[..k - 1] == msg[1..k];
      assert tail[k - 1] == msg[k] == '/';
      LeadingDigitsUnique(tail, k - 1);
    }
  }

  /** A subject written as `[<digits>/n]<title>` announces the value of the digits. */
  lemma ParseTrailerDigits(d: string, title: string)
    requires |d| > 0 && AllDigits(d)
    ensures ParseTrailer("[" + d + "/n]" + title) == Some(DecimalValue(d))
  {
    var msg := "[" + d + "/n]" + title;
    var k := 1 + |d|;
    assert msg[1..k] == d;
    assert msg[k..k + 3] == "/n]";
    assert TrailerMatch(msg, k, DecimalValue(d));
    ParseTrailerIff(msg, DecimalValue(d));
  }

  /** A subject written as `[<n>/n]<title>`, the way `str(n)` prints `n`,
      announces position `n`. */
  lemma ParseTrailerWritten(n: nat, title: string)
    ensures ParseTrailer("[" + Decimal(n) + "/n]" + title) == Some(n)
  {
    ParseTrailerDigits(Decimal(n), title);
    DecimalRoundTrip(n);
  }

  /** The stack position a branch name carries, e.g. `feat-3` or `feat-3-old`.
      Without an end anchor the greedy digit run is all that is needed: the
      optional `(-.*)?` never rejects, so `feat-3x` still yields 3. */
  function ParseBranch(base: string, name: string): Option<nat> {
    var prefix := base + "-";
    if prefix <= name then
      var d := LeadingDigits(name[|prefix|..]);
      if |d| > 0 then Some(DecimalValue(d)) else None
    else None
  }

  /** `name` is `base`, `-`, the maximal digit run `name[|base| + 1..k]` of
      value `n`, then anything not starting with a digit. */
  ghost predicate BranchMatch(base: string, name: string, k: int, n: nat) {
    && |base| + 1 < k <= |name|
    && name[..|base| + 1] == base + "-"
    && AllDigits(name[|base| + 1..k])
    && (k == |name| || !IsDigit(name[k]))
    && n == DecimalValue(name[|base| + 1..k])
  }

  /** The branch parser finds position `n` exactly when the name starts with
      `base-` and the digit run right after it is non-empty and worth `n`. */
  lemma ParseBranchIff(base: string, name: string, n: nat)
    ensures ParseBranch(base, name) == Some(n) <==> exists k :: BranchMatch(base, name, k, n)
  {
    var m := |base| + 1;
    if ParseBranch(base, name) == Some(n) {
      var d := LeadingDigits(name[m..]);
      var k := m + |d|;
      assert name[m..k] == d;
      assert k < |name| ==> name[k] == name[m..][|d|];
      assert BranchMatch(base, name, k, n);
    }
    if exists k :: BranchMatch(base, name, k, n) {
      var k :| BranchMatch(base, name, k, n);
      var tail := name[m..];
      assert tail[..k - m] == name[m..k];
      assert k - m < |tail| ==> tail[k - m] == name[k];
      LeadingDigitsUnique(tail, k - m);
      assert base + "-" <= name;
    }
  }

  /** A branch named `<base>-<digits><suffix>` carries the value of the
      digits, whatever the suffix, provided it does not extend the digit run. */
  lemma ParseBranchDigits(base: string, d: string, suffix: string)
    requires |d| > 0 && AllDigits(d)
    requires suffix == [] || !IsDigit(suffix[0])
    ensures ParseBranch(base, base + "-" + d + suffix) == Some(DecimalValue(d))
  {
    var name := base + "-" + d + suffix;
    var m := |base| + 1;
    var k := m + |d|;
    assert name[..m] == base + "-";
    assert name[m..k] == d;
    assert k < |name| ==> name[k] == suffix[0];
    assert BranchMatch(base, name, k, DecimalValue(d));
    ParseBranchIff(base, name, DecimalValue(d));
  }

  /** A branch named `<base>-<n>`, bare or with a suffix such as `-old`,
      carries position `n`. */
  lemma ParseBranchWritten(base: string, n: nat, suffix: string)
    requires suffix == [] || !IsDigit(suffix[0])
    ensures ParseBranch(base, base + "-" + Decimal(n) + suffix) == Some(n)
  {
    ParseBranchDigits(base, Decimal(n), suffix);
    DecimalRoundTrip(n);
  }

  /** The sentinel branch `<base>-MASTER` never carries a position. */
  lemma SentinelCarriesNoPosition(base: string)
    ensures ParseBranch(base, base + "-MASTER") == None
  {
    var name := base + "-MASTER";
    var m := |base| + 1;
    assert (base + "-") <= name;
    assert name[m..] == "MASTER";
  }
}
