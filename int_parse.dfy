/** Decimal integers as java.lang.Integer.parseInt reads them and as Java string
    concatenation writes them, restricted to ASCII digits. */
module IntParse {
  import opened Results

  /** The range of a Java int. */
  const IntMin: int := -0x8000_0000
  const IntMax: int := 0x7fff_ffff

  predicate IsDigit(c: char) {
    '0' <= c <= '9'
  }

  function DigitValue(c: char): (d: nat)
    requires IsDigit(c)
    ensures d < 10
  {
    c as int - '0' as int
  }

  function DigitChar(d: nat): (c: char)
    requires d < 10
    ensures IsDigit(c) && DigitValue(c) == d
  {
    ('0' as int + d) as char
  }

  predicate AllDigits(s: string) {
    forall k :: 0 <= k < |s| ==> IsDigit(s[k])
  }

  /** The value of a string of decimal digits, most significant digit first. */
  function DigitsValue(s: string): nat
    requires AllDigits(s)
  {
    if s == [] then 0 else 10 * DigitsValue(s[..|s| - 1]) + DigitValue(s[|s| - 1])
  }

  /** The digits that follow an optional leading sign. */
  function Unsigned(s: string): string {
    if |s| > 0 && (s[0] == '-' || s[0] == '+') then s[1..] else s
  }

  /** The shape parseInt accepts: an optional '+' or '-' and then at least one digit. */
  predicate IsIntSyntax(s: string) {
    |s| > 0 && |Unsigned(s)| > 0 && AllDigits(Unsigned(s))
  }

  /** Integer.parseInt: None stands for NumberFormatException. */
  function ParseInt(s: string): (r: Option<int>)
    ensures r.Some? ==> IsIntSyntax(s) && IntMin <= r.value <= IntMax
    ensures r.Some? ==> r.value == (if s[0] == '-' then -1 else 1) * DigitsValue(Unsigned(s))
    ensures IsIntSyntax(s) && IntMin <= (if s[0] == '-' then -1 else 1) * DigitsValue(Unsigned(s)) <= IntMax ==> r.Some?
  {
    if |s| == 0 then None
    else
      var digits := Unsigned(s);
      if |digits| == 0 || !AllDigits(digits) then None
      else
        var magnitude: int := DigitsValue(digits);
        var value: int := if s[0] == '-' then -magnitude else magnitude;
        if IntMin <= value <= IntMax then Some(value) else None
  }

  /** The decimal rendering of a natural number, without leading zeros. */
  function NatToString(n: nat): (r: string)
    ensures |r| > 0 && AllDigits(r) && DigitsValue(r) == n
    ensures r[0] == '0' ==> r == "0"
  {
    if n < 10 then [DigitChar(n)]
    else
      var r := NatToString(n / 10) + [DigitChar(n % 10)];
      assert r[..|r| - 1] == NatToString(n / 10);
      r
  }

  /** The decimal rendering of an integer, as Java's string concatenation produces it. */
  function IntToString(n: int): string {
    if n < 0 then "-" + NatToString(-n) else NatToString(n)
  }

  /** parseInt reads back every Java int that IntToString writes. */
  lemma ParseIntToString(n: int)
    requires IntMin <= n <= IntMax
    ensures ParseInt(IntToString(n)) == Some(n)
  {
    var s := IntToString(n);
    if n < 0 {
      assert s[1..] == NatToString(-n);
    } else {
      assert Unsigned(s) == NatToString(n);
    }
  }

  lemma {:induction false} LeadingZeroValue(t: string)
    requires AllDigits(t)
    ensures AllDigits("0" + t) && DigitsValue("0" + t) == DigitsValue(t)
    decreases |t|
  {
    var z := "0" + t;
    assert AllDigits(z) by {
      forall k | 0 <= k < |z| ensures IsDigit(z[k]) {
        if k > 0 { assert z[k] == t[k - 1]; }
      }
    }
    if t != [] {
      var init := t[..|t| - 1];
      LeadingZeroValue(init);
      assert z[..|z| - 1] == "0" + init;
    }
  }

  /** A leading zero after the optional sign does not change the number parseInt reads. */
  lemma ParseIntLeadingZero(sign: string, t: string)
    requires sign == "" || sign == "+" || sign == "-"
    requires |t| > 0 && AllDigits(t)
    ensures ParseInt(sign + "0" + t) == ParseInt(sign + t)
  {
    LeadingZeroValue(t);
    var zeroed, plain := sign + "0" + t, sign + t;
    if sign == "" {
      assert zeroed == "0" + t && plain == t;
      assert Unsigned(zeroed) == "0" + t;
      assert Unsigned(plain) == t;
    } else {
      assert zeroed[0] == sign[0] && plain[0] == sign[0];
      assert Unsigned(zeroed) == "0" + t;
      assert Unsigned(plain) == t;
    }
  }

  /** An explicit '+' sign does not change the number parseInt reads. */
  lemma ParseIntPlusSign(t: string)
    requires |t| > 0 && AllDigits(t)
    ensures ParseInt("+" + t) == ParseInt(t)
  {
    assert Unsigned("+" + t) == t;
    assert Unsigned(t) == t;
  }

  /** Outside the 32-bit range parseInt fails: together with ParseIntToString,
      the rendering of n parses exactly when n is a Java int. */
  lemma ParseIntOverflow(n: int)
    requires n < IntMin || IntMax < n
    ensures ParseInt(IntToString(n)) == None
  {
    var s := IntToString(n);
    if n < 0 {
      assert Unsigned(s) == NatToString(-n);
    } else {
      assert Unsigned(s) == NatToString(n);
    }
  }

  /** No empty string, no sign alone and no string with a non-digit is a number. */
  lemma ParseIntRejects(s: string, k: nat)
    requires |s| == 0 || (k < |s| && !IsDigit(s[k]) && (k > 0 || (s[0] != '-' && s[0] != '+') || |s| == 1))
    ensures ParseInt(s) == None
  {
    if |s| > 0 && (s[0] == '-' || s[0] == '+') && k > 0 {
      assert Unsigned(s)[k - 1] == s[k];
    }
  }
}
