/** Decimal text: `std::to_string` of a count and the prefix parse `std::stof`
    performs on a numeric literal. */
module Literals {
  import opened Wrappers
  import opened Tokenizer

  predicate IsDigit(c: char) {
    '0' <= c <= '9'
  }

  function DigitChar(d: nat): char
    requires d < 10
  {
    "0123456789"[d]
  }

  /** `std::to_string(n)` for an unsigned count. */
  function NatToString(n: nat): (r: string)
    ensures r != [] && forall i :: 0 <= i < |r| ==> IsDigit(r[i])
  {
    if n < 10 then [DigitChar(n)] else NatToString(n / 10) + [DigitChar(n % 10)]
  }

  /** The value of a run of decimal digits. */
  function DigitsValue(s: string): nat
    requires forall i :: 0 <= i < |s| ==> IsDigit(s[i])
  {
    if s == [] then 0
    else
      assert IsDigit(s[|s| - 1]);
      DigitsValue(s[..|s| - 1]) * 10 + (s[|s| - 1] as int - '0' as int) as nat
  }

  /** The value of the digits from position `k` up to `d`, read in place. */
  function DigitsValueAt(s: string, k: nat, d: nat): nat
    requires k <= d <= |s| && forall i :: k <= i < d ==> IsDigit(s[i])
    decreases d - k
  {
    if d == k then 0
    else
      assert IsDigit(s[d - 1]);
      DigitsValueAt(s, k, d - 1) * 10 + (s[d - 1] as int - '0' as int) as nat
  }

  lemma {:induction false} DigitsValueAtSlice(s: string, k: nat, d: nat)
    requires k <= d <= |s| && forall i :: k <= i < d ==> IsDigit(s[i])
    ensures DigitsValueAt(s, k, d) == DigitsValue(s[k..d])
    decreases d - k
  {
    if d > k {
      DigitsValueAtSlice(s, k, d - 1);
      assert s[k..d][..d - k - 1] == s[k..d - 1];
    }
  }

  /** End of the run of digits starting at `i`. */
  function DigitsEnd(s: string, i: nat): (k: nat)
    requires i <= |s|
    ensures i <= k <= |s|
    ensures forall j :: i <= j < k ==> IsDigit(s[j])
    ensures k < |s| ==> !IsDigit(s[k])
    decreases |s| - i
  {
    if i < |s| && IsDigit(s[i]) then DigitsEnd(s, i + 1) else i
  }

  /** End of the run of whitespace starting at `i`. */
  function SpacesEnd(s: string, i: nat): (k: nat)
    requires i <= |s|
    ensures i <= k <= |s|
    ensures forall j :: i <= j < k ==> IsSpace(s[j])
    ensures k < |s| ==> !IsSpace(s[k])
    decreases |s| - i
  {
    if i < |s| && IsSpace(s[i]) then SpacesEnd(s, i + 1) else i
  }

  function Pow10(n: nat): (r: real)
    ensures r >= 1.0
  {
    if n == 0 then 1.0 else 10.0 * Pow10(n - 1)
  }

  /** Position just past an optional `+` or `-` at `i`, and whether it was `-`. */
  function SignAt(s: string, i: nat): (r: (bool, nat))
    requires i <= |s|
    ensures r.1 == i || (r.1 == i + 1 && i < |s| && (s[i] == '+' || s[i] == '-'))
    ensures r.0 ==> r.1 == i + 1 && s[i] == '-'
  {
    if i < |s| && s[i] == '-' then (true, i + 1)
    else if i < |s| && s[i] == '+' then (false, i + 1)
    else (false, i)
  }

  /** The scale factor of an exponent part `e[sign]digits` starting at `i`;
      1 when there is none, since `strtof` then stops before the `e`. */
  function ExponentScale(s: string, i: nat): real
    requires i <= |s|
  {
    if i < |s| && (s[i] == 'e' || s[i] == 'E') then
      var (neg, j) := SignAt(s, i + 1);
      var k := DigitsEnd(s, j);
      if k == j then 1.0
      else if neg then 1.0 / Pow10(DigitsValue(s[j..k]))
      else Pow10(DigitsValue(s[j..k]))
    else 1.0
  }

  /** True when a decimal literal starts at `i`: a digit, or a point followed by one. */
  predicate StartsDecimal(s: string, i: nat)
    requires i <= |s|
  {
    (i < |s| && IsDigit(s[i])) || (i + 1 < |s| && s[i] == '.' && IsDigit(s[i + 1]))
  }

  /** `std::stof(s)`: skips leading whitespace, reads an optional sign, digits with an
      optional fraction and an optional exponent, and ignores whatever follows.
      `None` is the `std::invalid_argument` it throws when no digits start the text. */
  function ParseFloat(s: string): (r: Option<real>)
    ensures r.Some? <==> StartsDecimal(s, SignAt(s, SpacesEnd(s, 0)).1)
  {
    var (neg, j) := SignAt(s, SpacesEnd(s, 0));
    var k := DigitsEnd(s, j);
    var fracEnd := if k < |s| && s[k] == '.' then DigitsEnd(s, k + 1) else k;
    var fraction := if fracEnd > k then s[k + 1..fracEnd] else [];
    if k == j && fraction == [] then None
    else
      var magnitude := DigitsValue(s[j..k]) as real + DigitsValue(fraction) as real / Pow10(|fraction|);
      var scaled := magnitude * ExponentScale(s, fracEnd);
      Some(if neg then -scaled else scaled)
  }

  lemma {:induction false} DigitsValueOfNatToString(n: nat)
    ensures DigitsValue(NatToString(n)) == n
  {
    var r := NatToString(n);
    if n >= 10 {
      DigitsValueOfNatToString(n / 10);
      assert r[..|r| - 1] == NatToString(n / 10);
    }
  }

  /** Printing a count and parsing it back gives the count again. */
  lemma {:induction false} ParseFloatOfNatToString(n: nat)
    ensures ParseFloat(NatToString(n)) == Some(n as real)
  {
    var s := NatToString(n);
    assert !IsSpace(s[0]) && s[0] != '-' && s[0] != '+';
    assert SpacesEnd(s, 0) == 0;
    assert SignAt(s, 0) == (false, 0);
    DigitsEndAll(s, 0);
    assert s[0..|s|] == s;
    DigitsValueOfNatToString(n);
  }

  lemma {:induction false} DigitsEndAll(s: string, i: nat)
    requires i <= |s| && forall j :: i <= j < |s| ==> IsDigit(s[j])
    ensures DigitsEnd(s, i) == |s|
    decreases |s| - i
  {
    if i < |s| {
      DigitsEndAll(s, i + 1);
    }
  }
}
