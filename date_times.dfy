/** Date-times read with the fixed pattern dd/MM/yyyy HH:mm (24-hour clock), a
    simplified stand-in for LocalDateTime.parse with that formatter. */
module DateTimes {
  import opened Results
  import opened IntParse

  /** A date-time at minute precision. */
  datatype DateTime = DateTime(day: nat, month: nat, year: nat, hour: nat, minute: nat)

  /** The field ranges the parser checks. */
  predicate InRange(dt: DateTime) {
    && 1 <= dt.day <= 31
    && 1 <= dt.month <= 12
    && dt.year <= 9999
    && dt.hour <= 23
    && dt.minute <= 59
  }

  /** The tens digit and the units digit of n. */
  function Tens(n: nat): (c: char)
    ensures IsDigit(c)
  {
    DigitChar((n / 10) % 10)
  }

  function Units(n: nat): (c: char)
    ensures IsDigit(c)
  {
    DigitChar(n % 10)
  }

  /** The value of a two-digit field. */
  function Two(c1: char, c0: char): (n: nat)
    requires IsDigit(c1) && IsDigit(c0)
    ensures n < 100
  {
    10 * DigitValue(c1) + DigitValue(c0)
  }

  /** The value of a four-digit field: two two-digit halves. */
  function Four(c3: char, c2: char, c1: char, c0: char): nat
    requires IsDigit(c3) && IsDigit(c2) && IsDigit(c1) && IsDigit(c0)
  {
    100 * Two(c3, c2) + Two(c1, c0)
  }

  /** The rendering of a date-time in the pattern dd/MM/yyyy HH:mm, zero-padded. */
  function Format(dt: DateTime): (s: string)
    ensures |s| == 16
  {
    [Tens(dt.day), Units(dt.day), '/',
     Tens(dt.month), Units(dt.month), '/',
     Tens(dt.year / 100), Units(dt.year / 100), Tens(dt.year % 100), Units(dt.year % 100), ' ',
     Tens(dt.hour), Units(dt.hour), ':',
     Tens(dt.minute), Units(dt.minute)]
  }

  /** The shape of the pattern: digits in the field positions, the literal separators between. */
  predicate HasPattern(s: string) {
    && |s| == 16
    && s[2] == '/' && s[5] == '/' && s[10] == ' ' && s[13] == ':'
    && IsDigit(s[0]) && IsDigit(s[1]) && IsDigit(s[3]) && IsDigit(s[4])
    && IsDigit(s[6]) && IsDigit(s[7]) && IsDigit(s[8]) && IsDigit(s[9])
    && IsDigit(s[11]) && IsDigit(s[12]) && IsDigit(s[14]) && IsDigit(s[15])
  }

  /** The fields of a string of that shape. */
  function Fields(s: string): DateTime
    requires HasPattern(s)
  {
    DateTime(Two(s[0], s[1]), Two(s[3], s[4]), Four(s[6], s[7], s[8], s[9]), Two(s[11], s[12]), Two(s[14], s[15]))
  }

  /** LocalDateTime.parse(s, ofPattern("dd/MM/yyyy HH:mm")): None stands for the
      DateTimeParseException. Each field has a fixed width; the separators are literal. */
  function ParseDateTime(s: string): (r: Option<DateTime>)
    ensures r.Some? ==> InRange(r.value) && Format(r.value) == s
  {
    if !HasPattern(s) then None
    else
      var dt := Fields(s);
      if InRange(dt) then
        FieldsFormatBack(s);
        Some(dt)
      else None
  }

  lemma TwoDigits(c1: char, c0: char)
    requires IsDigit(c1) && IsDigit(c0)
    ensures Tens(Two(c1, c0)) == c1 && Units(Two(c1, c0)) == c0
  {
    var n := Two(c1, c0);
    assert n / 10 == DigitValue(c1) && n % 10 == DigitValue(c0);
  }

  lemma Halves(high: nat, low: nat)
    requires low < 100
    ensures (100 * high + low) / 100 == high && (100 * high + low) % 100 == low
  {
  }

  lemma FieldsFormatBack(s: string)
    requires HasPattern(s)
    ensures Format(Fields(s)) == s
  {
    var dt := Fields(s);
    TwoDigits(s[0], s[1]);
    TwoDigits(s[3], s[4]);
    TwoDigits(s[6], s[7]);
    TwoDigits(s[8], s[9]);
    TwoDigits(s[11], s[12]);
    TwoDigits(s[14], s[15]);
    Halves(Two(s[6], s[7]), Two(s[8], s[9]));
    assert dt.year / 100 == Two(s[6], s[7]) && dt.year % 100 == Two(s[8], s[9]);
    var f := Format(dt);
    assert f[0] == s[0] && f[1] == s[1] && f[3] == s[3] && f[4] == s[4];
    assert f[6] == s[6] && f[7] == s[7] && f[8] == s[8] && f[9] == s[9];
    assert f[11] == s[11] && f[12] == s[12] && f[14] == s[14] && f[15] == s[15];
  }

  lemma TwoOfDigits(n: nat)
    requires n < 100
    ensures Two(Tens(n), Units(n)) == n
  {
  }

  lemma FourOfDigits(n: nat)
    requires n < 10000
    ensures Four(Tens(n / 100), Units(n / 100), Tens(n % 100), Units(n % 100)) == n
  {
    TwoOfDigits(n / 100);
    TwoOfDigits(n % 100);
  }

  /** Every in-range date-time reads back from its rendering: parse and format are inverse. */
  lemma ParseFormat(dt: DateTime)
    requires InRange(dt)
    ensures ParseDateTime(Format(dt)) == Some(dt)
  {
    var s := Format(dt);
    assert HasPattern(s);
    TwoOfDigits(dt.day);
    TwoOfDigits(dt.month);
    FourOfDigits(dt.year);
    TwoOfDigits(dt.hour);
    TwoOfDigits(dt.minute);
  }

  /** A month outside 1..12 is rejected, as in 31/13/2024 10:00. */
  lemma ParseRejectsMonth13()
    ensures ParseDateTime("31/13/2024 10:00") == None
  {
    var s := "31/13/2024 10:00";
    assert HasPattern(s);
    assert Two(s[3], s[4]) == 13;
  }

  /** A rendered date-time holds digits and the separators '/', ' ' and ':' only. */
  lemma FormatCharacters(dt: DateTime)
    ensures forall k :: 0 <= k < 16 ==> IsDigit(Format(dt)[k]) || Format(dt)[k] in "/ :"
  {
  }
}
