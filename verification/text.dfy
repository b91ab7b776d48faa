/** Character classes, decimal numerals and whitespace stripping, as the
    regular expressions and `str` methods used by the tool treat them. */
module Text {

  /** `\d` restricted to the ASCII digits. */
  predicate IsDigit(c: char) {
    '0' <= c <= '9'
  }

  predicate AllDigits(s: string) {
    forall i :: 0 <= i < |s| ==> IsDigit(s[i])
  }

  function DigitValue(c: char): (d: nat)
    requires IsDigit(c)
    ensures d < 10
  {
    (c as int) - ('0' as int)
  }

  function DigitChar(d: nat): (c: char)
    requires d < 10
    ensures IsDigit(c) && DigitValue(c) == d
  {
    ('0' as int + d) as char
  }

  /** The value `int()` gives a run of decimal digits (leading zeros allowed). */
  function DecimalValue(s: string): nat
    requires AllDigits(s)
  {
    if s == [] then 0 else DecimalValue(s[..|s| - 1]) * 10 + DigitValue(s[|s| - 1])
  }

  /** The shortest decimal numeral of `n`, as `str(n)` writes it. */
  function Decimal(n: nat): (s: string)
    ensures |s| > 0 && AllDigits(s)
    ensures |s| > 1 ==> s[0] != '0'
  {
    if n < 10 then [DigitChar(n)] else Decimal(n / 10) + [DigitChar(n % 10)]
  }

  /** Reading back a numeral gives the number it was written from. */
  lemma {:induction false} DecimalRoundTrip(n: nat)
    ensures DecimalValue(Decimal(n)) == n
  {
    if n >= 10 {
      var s := Decimal(n);
      assert s[..|s| - 1] == Decimal(n / 10);
      DecimalRoundTrip(n / 10);
    }
  }

  /** The longest prefix of `s` made of digits: what a greedy `\d*` consumes. */
  function LeadingDigits(s: string): (d: string)
    ensures d <= s && AllDigits(d)
    ensures |d| == |s| || !IsDigit(s[|d|])
  {
    if s != [] && IsDigit(s[0]) then [s[0]] + LeadingDigits(s[1..]) else []
  }

  /** A digit prefix followed by a non-digit (or the end) is the greedy run. */
  lemma {:induction false} LeadingDigitsUnique(s: string, k: nat)
    requires k <= |s| && AllDigits(s[..k])
    requires k == |s| || !IsDigit(s[k])
    ensures LeadingDigits(s) == s[..k]
  {
    if k > 0 {
      assert IsDigit(s[..k][0]);
      assert s[1..][..k - 1] == s[..k][1..];
      LeadingDigitsUnique(s[1..], k - 1);
    }
  }

  /** The code points for which Python's `str.isspace` holds. */
  predicate IsSpace(c: char) {
    var n := c as int;
    || 0x09 <= n <= 0x0D
    || 0x1C <= n <= 0x20
    || n == 0x85 || n == 0xA0 || n == 0x1680
    || 0x2000 <= n <= 0x200A
    || n == 0x2028 || n == 0x2029 || n == 0x202F || n == 0x205F || n == 0x3000
  }

  predicate AllSpace(s: string) {
    forall i :: 0 <= i < |s| ==> IsSpace(s[i])
  }

  /** `s.lstrip()`: the suffix of `s` left after dropping leading whitespace. */
  function TrimStart(s: string): (r: string)
    ensures |r| <= |s| && r == s[|s| - |r|..]
    ensures AllSpace(s[..|s| - |r|])
    ensures r == [] || !IsSpace(r[0])
  {
    if s != [] && IsSpace(s[0]) then TrimStart(s[1..]) else s
  }

  /** `s.rstrip()`: the prefix of `s` left after dropping trailing whitespace. */
  function TrimEnd(s: string): (r: string)
    ensures r <= s
    ensures AllSpace(s[|r|..])
    ensures r == [] || !IsSpace(r[|r| - 1])
  {
    if s != [] && IsSpace(s[|s| - 1]) then TrimEnd(s[..|s| - 1]) else s
  }

  /** `s.strip()`: `s` without its leading and trailing whitespace. */
  function Strip(s: string): (r: string)
    ensures exists i :: Padding(s, i, r)
    ensures r == [] || (!IsSpace(r[0]) && !IsSpace(r[|r| - 1]))
  {
    StripCuts(s);
    TrimEnd(TrimStart(s))
  }

  /** `s` is whitespace, then `r` from index `i`, then whitespace. */
  ghost predicate Padding(s: string, i: int, r: string) {
    0 <= i <= |s| - |r| && r == s[i..i + |r|] && AllSpace(s[..i]) && AllSpace(s[i + |r|..])
  }

  lemma StripCuts(s: string)
    ensures Padding(s, |s| - |TrimStart(s)|, TrimEnd(TrimStart(s)))
  {
    PaddingOf(s, TrimStart(s), TrimEnd(TrimStart(s)));
  }

  /** Dropping a whitespace prefix of `s`, then a whitespace suffix of what
      is left, leaves `r` padded by whitespace on both sides. */
  lemma PaddingOf(s: string, t: string, r: string)
    requires |t| <= |s| && t == s[|s| - |t|..] && AllSpace(s[..|s| - |t|])
    requires r <= t && AllSpace(t[|r|..])
    ensures Padding(s, |s| - |t|, r)
  {
    var i := |s| - |t|;
    assert r == s[i..i + |r|] by {
      assert forall j :: 0 <= j < |r| ==> r[j] == t[j] == s[i + j];
    }
    assert s[i + |r|..] == t[|r|..];
  }

  /** Whitespace up to index `k`, then a non-space (or the end): `lstrip` cuts at `k`. */
  lemma {:induction false} TrimStartAt(s: string, k: nat)
    requires k <= |s| && AllSpace(s[..k])
    requires k == |s| || !IsSpace(s[k])
    ensures TrimStart(s) == s[k..]
  {
    if k > 0 {
      assert IsSpace(s[..k][0]);
      assert s[1..][..k - 1] == s[..k][1..];
      TrimStartAt(s[1..], k - 1);
      assert s[1..][k - 1..] == s[k..];
    }
  }

  /** A non-space (or the start) before index `k`, then whitespace: `rstrip` cuts at `k`. */
  lemma {:induction false} TrimEndAt(s: string, k: nat)
    requires k <= |s| && AllSpace(s[k..])
    requires k == 0 || !IsSpace(s[k - 1])
    ensures TrimEnd(s) == s[..k]
  {
    if k < |s| {
      assert IsSpace(s[k..][|s| - 1 - k]);
      var p := s[..|s| - 1];
      assert p[k..] == s[k..][..|s| - 1 - k];
      TrimEndAt(p, k);
      assert p[..k] == s[..k];
    }
  }

  /** Stripping yields exactly the core `x` of `s` when `s` is `x` padded with
      whitespace and `x` neither starts nor ends with whitespace. */
  lemma StripPadded(w1: string, x: string, w2: string)
    requires AllSpace(w1) && AllSpace(w2)
    requires x != [] && !IsSpace(x[0]) && !IsSpace(x[|x| - 1])
    ensures Strip(w1 + x + w2) == x
  {
    var s := w1 + x + w2;
    assert s[..|w1|] == w1;
    TrimStartAt(s, |w1|);
    var t := s[|w1|..];
    assert t == x + w2;
    assert t[|x|..] == w2;
    TrimEndAt(t, |x|);
    assert t[..|x|] == x;
  }

  /** `s` is a lone `y` padded with whitespace, the `y` at index `i`. */
  ghost predicate PaddedY(s: string, i: int) {
    0 <= i < |s| && s[i] == 'y' && AllSpace(s[..i]) && AllSpace(s[i + 1..])
  }

  /** The confirmation gate passes exactly for a lone `y` surrounded by
      whitespace: `"y"`, `" y\n"`, but not `"Y"`, `"n"`, `""` or `"yes"`. */
  lemma StripIsY(s: string)
    ensures Strip(s) == "y" <==> exists i :: PaddedY(s, i)
  {
    if Strip(s) == "y" {
      var i := StripYAt(s);
    }
    if exists i :: PaddedY(s, i) {
      var i :| PaddedY(s, i);
      YAtStrips(s, i);
    }
  }

  lemma StripYAt(s: string) returns (i: int)
    requires Strip(s) == "y"
    ensures PaddedY(s, i)
  {
    var t := TrimStart(s);
    i := |s| - |t|;
    assert t[..1] == "y";
    assert s[i..] == t;
    assert s[i] == t[0];
    assert s[i + 1..] == t[1..];
  }

  lemma YAtStrips(s: string, i: int)
    requires PaddedY(s, i)
    ensures Strip(s) == "y"
  {
    assert s == s[..i] + "y" + s[i + 1..];
    StripPadded(s[..i], "y", s[i + 1..]);
  }
}
