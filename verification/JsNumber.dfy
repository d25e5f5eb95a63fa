/** JavaScript `parseInt(text, 10)`: skip leading white space, read an
    optional sign and then as many decimal digits as there are, ignore the
    rest; no digit at all gives `NaN`, modelled as `None`. */
module JsNumber {
  import opened Wrappers
  import opened Text

  predicate AllDigits(ds: string) {
    forall k :: 0 <= k < |ds| ==> IsDigit(ds[k])
  }

  function DigitValue(c: char): (v: nat)
    requires IsDigit(c)
    ensures v <= 9
  {
    c as int - '0' as int
  }

  /** The value of a string of decimal digits, most significant first. */
  function DecimalValue(ds: string): nat
    requires AllDigits(ds)
  {
    if ds == [] then 0 else 10 * DecimalValue(ds[..|ds| - 1]) + DigitValue(ds[|ds| - 1])
  }

  /** `parseInt(s, 10)`. */
  function ParseInt(s: string): Option<int>
  {
    var t := s[Lead(s, IsJsSpace)..];
    var negative := t != [] && t[0] == '-';
    var body := if t != [] && (t[0] == '-' || t[0] == '+') then t[1..] else t;
    var n := Lead(body, IsDigit);
    if n == 0 then None
    else
      assert AllDigits(body[..n]);
      Some(if negative then 0 - DecimalValue(body[..n]) else DecimalValue(body[..n]))
  }

  /** A run of digits, possibly followed by text that does not continue the
      run, parses to the value of the digits. */
  lemma ParseIntDigits(ds: string, rest: string)
    requires ds != [] && AllDigits(ds)
    requires rest != [] ==> !IsDigit(rest[0])
    ensures ParseInt(ds + rest) == Some(DecimalValue(ds))
  {
    var s := ds + rest;
    assert !IsJsSpace(s[0]);
    assert Lead(s, IsJsSpace) == 0;
    assert s[0..] == s;
    LeadOfPadded(ds, rest, IsDigit);
    assert s[..|ds|] == ds;
  }

  /** A leading minus sign negates the value. */
  lemma ParseIntNegative(ds: string)
    requires ds != [] && AllDigits(ds)
    ensures ParseInt("-" + ds) == Some(0 - DecimalValue(ds))
  {
    var s := "-" + ds;
    assert Lead(s, IsJsSpace) == 0;
    assert s[0..] == s && s[1..] == ds;
    LeadOfPadded(ds, "", IsDigit);
    assert ds + "" == ds;
    assert ds[..|ds|] == ds;
  }

  /** Text without a single digit is `NaN`. */
  lemma ParseIntNoDigit(s: string)
    requires forall k :: 0 <= k < |s| ==> !IsDigit(s[k])
    ensures ParseInt(s) == None
  {
    var t := s[Lead(s, IsJsSpace)..];
    var body := if t != [] && (t[0] == '-' || t[0] == '+') then t[1..] else t;
    assert forall k :: 0 <= k < |body| ==> body[k] in s;
    assert body != [] ==> !IsDigit(body[0]);
  }

  /** The decimal text of a natural number (JavaScript's `${n}`). */
  function DecimalString(n: nat): (ds: string)
    ensures ds != [] && AllDigits(ds)
    ensures DecimalValue(ds) == n
    decreases n
  {
    var last := ['0' + (n % 10) as char];
    if n < 10 then last
    else
      var ds := DecimalString(n / 10) + last;
      assert ds[..|ds| - 1] == DecimalString(n / 10);
      ds
  }
}
