/** The validated field types of a contact: `Phone` (characters filtered, length
    checked) and `Birthday` (a `DD.MM.YYYY` text and the date it names). */
module Fields {
  import opened Wrappers
  import opened Calendar
  import opened Text

  const PHONE_LENGTH_MESSAGE: string := "Phone number must contain 10 digits."
  const DATE_FORMAT_MESSAGE: string := "Invalid date format. Use DD.MM.YYYY"

  /** The characters a phone number keeps: digits and `+ - ( )`. */
  predicate Kept(c: char) {
    IsDigit(c) || c == '+' || c == '-' || c == '(' || c == ')'
  }

  /** The input with every character that is not kept deleted, in order. */
  function Sanitize(s: string): (r: string)
    ensures |r| <= |s|
    ensures forall i :: 0 <= i < |r| ==> Kept(r[i])
    ensures forall c :: c in r <==> c in s && Kept(c)
  {
    if s == [] then []
    else if Kept(s[0]) then [s[0]] + Sanitize(s[1..])
    else Sanitize(s[1..])
  }

  lemma {:induction false} SanitizeAppend(s: string, t: string)
    ensures Sanitize(s + t) == Sanitize(s) + Sanitize(t)
  {
    if s == [] {
      assert s + t == t;
    } else {
      assert (s + t)[0] == s[0] && (s + t)[1..] == s[1..] + t;
      SanitizeAppend(s[1..], t);
    }
  }

  /** Sanitizing changes a string exactly when it holds a character that is not kept. */
  lemma {:induction false} SanitizeFixesKept(s: string)
    ensures Sanitize(s) == s <==> forall i :: 0 <= i < |s| ==> Kept(s[i])
  {
    if s != [] {
      SanitizeFixesKept(s[1..]);
      if !Kept(s[0]) {
        assert |Sanitize(s)| < |s|;
      }
    }
  }

  lemma SanitizeIdempotent(s: string)
    ensures Sanitize(Sanitize(s)) == Sanitize(s)
  {
    SanitizeFixesKept(Sanitize(s));
  }

  datatype Phone = Phone(value: string)

  predicate ValidPhoneValue(v: string) {
    |v| == 10 && forall i :: 0 <= i < |v| ==> Kept(v[i])
  }

  /** `Phone(raw)`: stores the sanitized text, and raises unless it has 10 characters. */
  function NewPhone(raw: string): (r: Result<Phone, string>)
    ensures r.Success? <==> |Sanitize(raw)| == 10
    ensures r.Success? ==> r.value.value == Sanitize(raw) && ValidPhoneValue(r.value.value)
    ensures r.Failure? ==> r.error == PHONE_LENGTH_MESSAGE
  {
    var v := Sanitize(raw);
    if |v| != 10 then Failure(PHONE_LENGTH_MESSAGE) else Success(Phone(v))
  }

  /** A stored phone value, given again as input, yields the same phone. */
  lemma PhoneRoundTrip(raw: string)
    requires NewPhone(raw).Success?
    ensures NewPhone(NewPhone(raw).value.value) == NewPhone(raw)
  {
    SanitizeIdempotent(raw);
  }

  /** Which inputs are accepted: exactly those with 10 kept characters, so the
      separators `+ - ( )` count toward the length. */
  lemma PhoneAcceptsExactlyValidValues(v: string)
    ensures NewPhone(v) == Success(Phone(v)) <==> ValidPhoneValue(v)
  {
    SanitizeFixesKept(v);
  }

  /** A birthday as the record keeps it: the text given and the date it names. */
  datatype Birthday = Birthday(value: string, date: Date)

  /** `DD.MM.YYYY`: ten characters, dots at positions 2 and 5, digits elsewhere. */
  predicate IsDatePattern(s: string) {
    |s| == 10 && s[2] == '.' && s[5] == '.' &&
    IsDigit(s[0]) && IsDigit(s[1]) && IsDigit(s[3]) && IsDigit(s[4]) &&
    IsDigit(s[6]) && IsDigit(s[7]) && IsDigit(s[8]) && IsDigit(s[9])
  }

  /** The date whose fields the digits of a `DD.MM.YYYY` text spell. */
  function PatternDate(s: string): Date
    requires IsDatePattern(s)
  {
    Date(1000 * DigitValue(s[6]) + 100 * DigitValue(s[7]) + 10 * DigitValue(s[8]) + DigitValue(s[9]),
         10 * DigitValue(s[3]) + DigitValue(s[4]),
         10 * DigitValue(s[0]) + DigitValue(s[1]))
  }

  /** `Birthday(text)`: `strptime(text, "%d.%m.%Y")`, which fails unless the text
      names a real date. */
  function ParseBirthday(text: string): (r: Result<Birthday, string>)
    ensures r.Success? <==> IsDatePattern(text) && ValidDate(PatternDate(text))
    ensures r.Success? ==> r.value.value == text && ValidDate(r.value.date)
    ensures r.Failure? ==> r.error == DATE_FORMAT_MESSAGE
  {
    if IsDatePattern(text) && ValidDate(PatternDate(text)) then Success(Birthday(text, PatternDate(text)))
    else Failure(DATE_FORMAT_MESSAGE)
  }

  function TwoDigits(n: int): (s: string)
    requires 0 <= n < 100
  {
    [DigitChar(n / 10), DigitChar(n % 10)]
  }

  /** The year zero-padded to four digits: its hundreds, then the rest. */
  function FourDigits(n: int): (s: string)
    requires 0 <= n < 10000
  {
    TwoDigits(n / 100) + TwoDigits(n % 100)
  }

  /** `strftime("%d.%m.%Y")`. */
  function FormatDate(d: Date): (s: string)
    requires ValidDate(d)
  {
    TwoDigits(d.day) + "." + TwoDigits(d.month) + "." + FourDigits(d.year)
  }

  lemma DigitRoundTrip(n: int)
    requires 0 <= n <= 9
    ensures IsDigit(DigitChar(n)) && DigitValue(DigitChar(n)) == n
  {
  }

  lemma TwoDigitsValue(n: int)
    requires 0 <= n < 100
    ensures var s := TwoDigits(n); IsDigit(s[0]) && IsDigit(s[1]) && 10 * DigitValue(s[0]) + DigitValue(s[1]) == n
  {
    DigitRoundTrip(n / 10);
    DigitRoundTrip(n % 10);
  }

  lemma FourDigitsValue(n: int)
    requires 0 <= n < 10000
    ensures var s := FourDigits(n);
      IsDigit(s[0]) && IsDigit(s[1]) && IsDigit(s[2]) && IsDigit(s[3]) &&
      1000 * DigitValue(s[0]) + 100 * DigitValue(s[1]) + 10 * DigitValue(s[2]) + DigitValue(s[3]) == n
  {
    var high, low := n / 100, n % 100;
    TwoDigitsValue(high);
    TwoDigitsValue(low);
    assert n == 100 * high + low;
  }

  /** Formatting a date and parsing the text back gives the same date. */
  lemma FormatThenParse(d: Date)
    requires ValidDate(d)
    ensures ParseBirthday(FormatDate(d)) == Success(Birthday(FormatDate(d), d))
  {
    var s := FormatDate(d);
    TwoDigitsValue(d.day);
    TwoDigitsValue(d.month);
    FourDigitsValue(d.year);
    assert s[0..2] == TwoDigits(d.day) && s[3..5] == TwoDigits(d.month) && s[6..10] == FourDigits(d.year);
    assert IsDatePattern(s);
    assert PatternDate(s) == d;
  }

  lemma TwoDigitsOf(c0: char, c1: char)
    requires IsDigit(c0) && IsDigit(c1)
    ensures TwoDigits(10 * DigitValue(c0) + DigitValue(c1)) == [c0, c1]
  {
  }

  lemma FourDigitsOf(c0: char, c1: char, c2: char, c3: char)
    requires IsDigit(c0) && IsDigit(c1) && IsDigit(c2) && IsDigit(c3)
    ensures FourDigits(1000 * DigitValue(c0) + 100 * DigitValue(c1) + 10 * DigitValue(c2) + DigitValue(c3)) == [c0, c1, c2, c3]
  {
    var high, low := 10 * DigitValue(c0) + DigitValue(c1), 10 * DigitValue(c2) + DigitValue(c3);
    var n := 1000 * DigitValue(c0) + 100 * DigitValue(c1) + 10 * DigitValue(c2) + DigitValue(c3);
    assert n == 100 * high + low && 0 <= low < 100;
    assert n / 100 == high && n % 100 == low;
    TwoDigitsOf(c0, c1);
    TwoDigitsOf(c2, c3);
  }

  /** Every accepted text is the formatted form of its own date. */
  lemma ParseThenFormat(text: string)
    requires ParseBirthday(text).Success?
    ensures FormatDate(ParseBirthday(text).value.date) == text
  {
    TwoDigitsOf(text[0], text[1]);
    TwoDigitsOf(text[3], text[4]);
    FourDigitsOf(text[6], text[7], text[8], text[9]);
    assert text == text[0..2] + "." + text[3..5] + "." + text[6..10];
  }
}
