/** The string operations the chunk handler relies on: `str::split_once`,
    `str::starts_with`, `str::parse::<usize>` and `format!("{}")` of a
    `usize`, over `seq<char>` (text) and `seq<byte>` (a part's raw data). */
module Text {
  import opened Common

  // ---------------------------------------------------------------------
  // starts_with / split_once
  // ---------------------------------------------------------------------

  predicate StartsWith(s: string, prefix: string) {
    |prefix| <= |s| && s[..|prefix|] == prefix
  }

  /** `pat` occurs in `s` starting at position `k`. */
  predicate OccursAt(s: string, pat: string, k: int) {
    0 <= k && k + |pat| <= |s| && s[k..k + |pat|] == pat
  }

  /** The first position at or after `from` where `pat` occurs. */
  function FindFrom(s: string, pat: string, from: nat): (r: Option<nat>)
    requires from <= |s|
    ensures r.Some? ==> from <= r.value && OccursAt(s, pat, r.value)
    ensures r.Some? ==> forall k :: from <= k < r.value ==> !OccursAt(s, pat, k)
    ensures r.None? ==> forall k :: from <= k ==> !OccursAt(s, pat, k)
    decreases |s| - from
  {
    if from + |pat| > |s| then None
    else if s[from..from + |pat|] == pat then Some(from)
    else if from == |s| then None
    else FindFrom(s, pat, from + 1)
  }

  /** `s.split_once(pat)`: the text before the first occurrence of `pat`
      and the text after it, or `None` when `pat` does not occur. */
  function SplitOnce(s: string, pat: string): (r: Option<(string, string)>)
    ensures r.Some? ==> s == r.value.0 + pat + r.value.1
    ensures r.Some? ==> OccursAt(s, pat, |r.value.0|)
    ensures r.Some? ==> forall k :: 0 <= k < |r.value.0| ==> !OccursAt(s, pat, k)
    ensures r.None? <==> forall k :: !OccursAt(s, pat, k)
  {
    match FindFrom(s, pat, 0)
    case None => None
    case Some(k) =>
      assert s == s[..k] + pat + s[k + |pat|..] by {
        assert s[k..k + |pat|] == pat;
        assert s == s[..k] + s[k..k + |pat|] + s[k + |pat|..];
      }
      Some((s[..k], s[k + |pat|..]))
  }

  // ---------------------------------------------------------------------
  // Decimal digits
  // ---------------------------------------------------------------------

  const PLUS: byte := 0x2B
  const ZERO: byte := 0x30

  predicate IsDigit(b: byte) {
    ZERO <= b <= ZERO + 9
  }

  predicate AllDigits(s: seq<byte>) {
    forall i :: 0 <= i < |s| ==> IsDigit(s[i])
  }

  /** The value of a string of decimal digits, most significant first. */
  function DigitsValue(s: seq<byte>): nat
    requires AllDigits(s)
  {
    if s == [] then 0
    else DigitsValue(s[..|s| - 1]) * 10 + (s[|s| - 1] - ZERO) as nat
  }

  /** `str::parse::<usize>()`: an optional `+`, then one or more ASCII
      digits (leading zeros allowed) whose value fits in a `usize`. An
      empty string, a lone `+`, a `-`, any other character and a value
      above `usize::MAX` all fail. Rust checks overflow digit by digit;
      since the running value only grows, that is the same as comparing
      the final value with `usize::MAX`. */
  function ParseUsize(s: seq<byte>): (r: Option<usize>)
    ensures r.Some? ==> |s| > 0
    ensures r.Some? && s[0] != PLUS ==> AllDigits(s) && r.value == DigitsValue(s)
    ensures r.Some? && s[0] == PLUS ==> AllDigits(s[1..]) && |s| > 1 && r.value == DigitsValue(s[1..])
    ensures |s| > 0 && s[0] != PLUS && AllDigits(s) && DigitsValue(s) <= USIZE_MAX ==> r == Some(DigitsValue(s))
    ensures |s| > 1 && s[0] == PLUS && AllDigits(s[1..]) && DigitsValue(s[1..]) <= USIZE_MAX
            ==> r == Some(DigitsValue(s[1..]))
  {
    var digits := if |s| > 0 && s[0] == PLUS then s[1..] else s;
    if digits == [] || !AllDigits(digits) then None
    else if DigitsValue(digits) > USIZE_MAX then None
    else Some(DigitsValue(digits))
  }

  /** `format!("{n}")`: the shortest decimal text of `n`. */
  function Decimal(n: nat): (r: string)
    ensures |r| > 0
    ensures forall i :: 0 <= i < |r| ==> '0' <= r[i] <= '9'
    ensures |r| > 1 ==> r[0] != '0'
  {
    if n < 10 then [DigitChar(n)]
    else Decimal(n / 10) + [DigitChar(n % 10)]
  }

  function DigitChar(d: nat): (c: char)
    requires d < 10
    ensures '0' <= c <= '9'
  {
    (d + '0' as int) as char
  }

  /** The bytes of an ASCII text, as a client sends them back in a form part. */
  function AsciiBytes(s: string): (r: seq<byte>)
    requires forall i :: 0 <= i < |s| ==> s[i] as int < 0x80
    ensures |r| == |s|
    ensures forall i :: 0 <= i < |s| ==> r[i] == s[i] as int
  {
    if s == [] then [] else AsciiBytes(s[..|s| - 1]) + [s[|s| - 1] as int as byte]
  }

  lemma AsciiBytesSnoc(s: string, c: char)
    requires forall i :: 0 <= i < |s| ==> s[i] as int < 0x80
    requires c as int < 0x80
    ensures AsciiBytes(s + [c]) == AsciiBytes(s) + [c as int as byte]
  {
    assert (s + [c])[..|s|] == s;
  }

  lemma DigitsValueSnoc(p: seq<byte>, x: byte)
    requires AllDigits(p) && IsDigit(x)
    ensures AllDigits(p + [x])
    ensures DigitsValue(p + [x]) == DigitsValue(p) * 10 + (x - ZERO) as nat
  {
    assert (p + [x])[..|p|] == p;
  }

  lemma {:induction false} DecimalValue(n: nat)
    ensures AllDigits(AsciiBytes(Decimal(n)))
    ensures DigitsValue(AsciiBytes(Decimal(n))) == n
  {
    if n >= 10 {
      DecimalValue(n / 10);
      var c := DigitChar(n % 10);
      assert Decimal(n) == Decimal(n / 10) + [c];
      AsciiBytesSnoc(Decimal(n / 10), c);
      DigitsValueSnoc(AsciiBytes(Decimal(n / 10)), c as int as byte);
      assert (n / 10) * 10 + n % 10 == n;
    } else {
      var b := AsciiBytes(Decimal(n));
      assert b == [DigitChar(n) as int as byte];
      assert b[..0] == [];
    }
  }

  /** What the chunk handler replies is what the next request may send
      back as its `index`: formatting then parsing gives the number back. */
  lemma {:induction false} ParseDecimal(n: usize)
    ensures ParseUsize(AsciiBytes(Decimal(n))) == Some(n)
  {
    DecimalValue(n);
    var d := Decimal(n);
    var b := AsciiBytes(d);
    assert b[0] == d[0] as int && '0' <= d[0] <= '9';
    assert AllDigits(b) && DigitsValue(b) == n <= USIZE_MAX;
  }

  /** A leading `+` is accepted and does not change the value. */
  lemma {:induction false} ParseLeadingPlus(s: seq<byte>)
    requires |s| > 0 && s[0] != PLUS
    ensures ParseUsize([PLUS] + s) == ParseUsize(s)
  {
    assert ([PLUS] + s)[1..] == s;
  }

  /** An index of zero is exactly a string of zero digits after an optional `+`. */
  lemma {:induction false} ZeroDigits(s: seq<byte>)
    requires AllDigits(s)
    ensures DigitsValue(s) == 0 <==> forall i :: 0 <= i < |s| ==> s[i] == ZERO
  {
    if s != [] {
      ZeroDigits(s[..|s| - 1]);
      assert forall i :: 0 <= i < |s| - 1 ==> s[..|s| - 1][i] == s[i];
    }
  }

  /** The texts of the totals in a three-chunk upload. */
  lemma DecimalExamples()
    ensures Decimal(4000) == "4000" && Decimal(8000) == "8000" && Decimal(9000) == "9000"
  {
    DecimalThousands(4);
    DecimalThousands(8);
    DecimalThousands(9);
  }

  lemma DecimalThousands(d: nat)
    requires 0 < d < 10
    ensures Decimal(d * 1000) == [DigitChar(d), '0', '0', '0']
  {
    assert Decimal(d) == [DigitChar(d)];
    assert Decimal(d * 10) == Decimal(d) + [DigitChar(0)];
    assert Decimal(d * 100) == Decimal(d * 10) + [DigitChar(0)];
    assert Decimal(d * 1000) == Decimal(d * 100) + [DigitChar(0)];
  }
}
