/** One contact: a name, an ordered list of phones and an optional birthday.
    `Contact` is the value a record holds at one moment; `Record` is the object
    whose methods change it in place. Every mutating method is specified by a
    function on `Contact`, and the properties are proved about those functions. */
module Records {
  import opened Wrappers
  import opened Calendar
  import opened Fields
  import Text

  const PHONE_NOT_FOUND_MESSAGE: string := "Phone number not found in record."
  /** The prefix `add_birthday` puts before the message of an invalid date. */
  const BIRTHDAY_ERROR_PREFIX: string := "Error adding birthday: "

  datatype Contact = Contact(name: string, phones: seq<Phone>, birthday: Option<Birthday>)

  /** What every record satisfies: its phones passed `Phone` validation, and its
      birthday is the parse of its own text. */
  predicate ValidContact(c: Contact) {
    (forall i :: 0 <= i < |c.phones| ==> ValidPhoneValue(c.phones[i].value)) &&
    (c.birthday.Some? ==> ParseBirthday(c.birthday.value.value) == Success(c.birthday.value))
  }

  predicate HasPhone(phones: seq<Phone>, x: string) {
    exists j :: 0 <= j < |phones| && phones[j].value == x
  }

  /** Position of the first phone whose value equals `x`. */
  function FirstIndex(phones: seq<Phone>, x: string): (r: Option<nat>)
    ensures r.Some? ==> r.value < |phones| && phones[r.value].value == x
    ensures r.Some? ==> forall j :: 0 <= j < r.value ==> phones[j].value != x
    ensures r.None? ==> forall j :: 0 <= j < |phones| ==> phones[j].value != x
  {
    if phones == [] then None
    else if phones[0].value == x then Some(0)
    else match FirstIndex(phones[1..], x)
      case None => None
      case Some(i) => Some(i + 1)
  }

  /** The search loop the record's phone operations share. */
  method FirstMatch(phones: seq<Phone>, x: string) returns (r: Option<nat>)
    ensures r == FirstIndex(phones, x)
  {
    var i := 0;
    while i < |phones|
      invariant 0 <= i <= |phones|
      invariant forall j :: 0 <= j < i ==> phones[j].value != x
    {
      if phones[i].value == x {
        return Some(i);
      }
      i := i + 1;
    }
    return None;
  }

  /** `add_phone`. */
  function AddPhoneTo(c: Contact, raw: string): (r: Result<Contact, string>)
    ensures r.Success? <==> |Sanitize(raw)| == 10
    ensures r.Success? ==> r.value == c.(phones := c.phones + [Phone(Sanitize(raw))])
    ensures r.Failure? ==> r.error == "Error adding phone: " + PHONE_LENGTH_MESSAGE
  {
    match NewPhone(raw)
    case Success(p) => Success(c.(phones := c.phones + [p]))
    case Failure(e) => Failure("Error adding phone: " + e)
  }

  /** `remove_phone`. */
  function RemovePhoneFrom(c: Contact, x: string): (r: Result<Contact, string>)
    ensures r.Success? <==> HasPhone(c.phones, x)
    ensures r.Failure? ==> r.error == PHONE_NOT_FOUND_MESSAGE
    ensures r.Success? ==> r.value.name == c.name && r.value.birthday == c.birthday &&
                           |r.value.phones| == |c.phones| - 1
  {
    match FirstIndex(c.phones, x)
    case None => Failure(PHONE_NOT_FOUND_MESSAGE)
    case Some(i) => Success(c.(phones := c.phones[..i] + c.phones[i + 1..]))
  }

  /** `edit_phone`: the search comes first, so a missing `oldPhone` is reported
      even when `newPhone` is invalid. */
  function EditPhoneIn(c: Contact, oldPhone: string, newPhone: string): (r: Result<Contact, string>)
    ensures r.Success? <==> HasPhone(c.phones, oldPhone) && |Sanitize(newPhone)| == 10
    ensures !HasPhone(c.phones, oldPhone) ==> r == Failure(PHONE_NOT_FOUND_MESSAGE)
    ensures HasPhone(c.phones, oldPhone) && r.Failure? ==> r.error == "Error: " + PHONE_LENGTH_MESSAGE
    ensures r.Success? ==> r.value.name == c.name && r.value.birthday == c.birthday &&
                           |r.value.phones| == |c.phones|
  {
    match FirstIndex(c.phones, oldPhone)
    case None => Failure(PHONE_NOT_FOUND_MESSAGE)
    case Some(i) =>
      match NewPhone(newPhone)
      case Failure(e) => Failure("Error: " + e)
      case Success(p) => Success(c.(phones := c.phones[i := p]))
  }

  /** `add_birthday` on the record: replaces any earlier birthday. */
  function SetBirthday(c: Contact, text: string): (r: Result<Contact, string>)
    ensures r.Success? <==> ParseBirthday(text).Success?
    ensures r.Success? ==> r.value.name == c.name && r.value.phones == c.phones &&
                           r.value.birthday == Some(Birthday(text, ParseBirthday(text).value.date))
    ensures r.Failure? ==> r.error == BIRTHDAY_ERROR_PREFIX + DATE_FORMAT_MESSAGE
  {
    match ParseBirthday(text)
    case Success(b) => Success(c.(birthday := Some(b)))
    case Failure(e) => Failure(BIRTHDAY_ERROR_PREFIX + e)
  }

  /** Removing deletes exactly the first matching phone and keeps the others in order. */
  lemma RemoveDeletesFirstMatch(c: Contact, x: string)
    requires HasPhone(c.phones, x)
    ensures var i := FirstIndex(c.phones, x).value;
      && RemovePhoneFrom(c, x).value.phones == c.phones[..i] + c.phones[i + 1..]
      && (forall j :: 0 <= j < i ==> c.phones[j].value != x)
      && multiset(RemovePhoneFrom(c, x).value.phones) + multiset{Phone(x)} == multiset(c.phones)
  {
    var i := FirstIndex(c.phones, x).value;
    assert c.phones[i] == Phone(x);
    SpliceOut(c.phones, i);
  }

  /** Cutting one element out of a sequence removes just that element. */
  lemma SpliceOut<T>(p: seq<T>, i: nat)
    requires i < |p|
    ensures multiset(p[..i] + p[i + 1..]) + multiset{p[i]} == multiset(p)
  {
    assert p == p[..i] + [p[i]] + p[i + 1..];
    calc {
      multiset(p);
      multiset(p[..i] + [p[i]] + p[i + 1..]);
      multiset(p[..i]) + multiset{p[i]} + multiset(p[i + 1..]);
      multiset(p[..i] + p[i + 1..]) + multiset{p[i]};
    }
  }

  /** Editing changes only the first matching phone, to the sanitized new value. */
  lemma EditChangesFirstMatchOnly(c: Contact, oldPhone: string, newPhone: string)
    requires EditPhoneIn(c, oldPhone, newPhone).Success?
    ensures var i := FirstIndex(c.phones, oldPhone).value;
      var after := EditPhoneIn(c, oldPhone, newPhone).value.phones;
      && after[i] == Phone(Sanitize(newPhone))
      && (forall j :: 0 <= j < |after| && j != i ==> after[j] == c.phones[j])
      && (forall j :: 0 <= j < i ==> c.phones[j].value != oldPhone)
  {
  }

  /** Every record operation keeps the record invariant. */
  lemma OperationsKeepValid(c: Contact, a: string, b: string)
    requires ValidContact(c)
    ensures AddPhoneTo(c, a).Success? ==> ValidContact(AddPhoneTo(c, a).value)
    ensures RemovePhoneFrom(c, a).Success? ==> ValidContact(RemovePhoneFrom(c, a).value)
    ensures EditPhoneIn(c, a, b).Success? ==> ValidContact(EditPhoneIn(c, a, b).value)
    ensures SetBirthday(c, a).Success? ==> ValidContact(SetBirthday(c, a).value)
  {
    if RemovePhoneFrom(c, a).Success? {
      var i := FirstIndex(c.phones, a).value;
      var after := RemovePhoneFrom(c, a).value.phones;
      assert forall j :: 0 <= j < |after| ==> after[j] == (if j < i then c.phones[j] else c.phones[j + 1]);
    }
    if AddPhoneTo(c, a).Success? {
      var after := AddPhoneTo(c, a).value.phones;
      assert forall j :: 0 <= j < |after| ==> after[j] == (if j < |c.phones| then c.phones[j] else NewPhone(a).value);
    }
  }

  /** One entry of the upcoming-birthdays list. */
  datatype Congratulation = Congratulation(name: string, congratulationDate: string)

  /** The birthday's month and day in the current year, or in the next year if
      that date has already passed (`replace(year=...)`, which can raise). */
  function NextAnniversary(birth: Date, today: Date): (r: Result<Date, DateError>)
    requires ValidDate(birth) && ValidDate(today)
    ensures r.Success? ==> ValidDate(r.value) && r.value.month == birth.month && r.value.day == birth.day
    ensures r.Success? ==> !Before(r.value, today)
    ensures r.Success? ==> (r.value.year == today.year ||
      (r.value.year == today.year + 1 && Before(Date(today.year, birth.month, birth.day), today)))
  {
    match WithYear(birth, today.year)
    case Failure(e) => Failure(e)
    case Success(d) => if Before(d, today) then WithYear(birth, today.year + 1) else Success(d)
  }

  /** Exactly when the projection raises, and with which error: 29 February
      cannot be moved to a common year, and no year after 9999 exists. */
  lemma AnniversaryFailures(birth: Date, today: Date)
    requires ValidDate(birth) && ValidDate(today)
    ensures var leapDay := birth.month == 2 && birth.day == 29;
      var passed := Before(Date(today.year, birth.month, birth.day), today);
      && (NextAnniversary(birth, today).Failure? <==>
           (leapDay && (!IsLeap(today.year) || passed)) || (today.year == MAX_YEAR && passed))
      && (NextAnniversary(birth, today).Failure? && leapDay ==> NextAnniversary(birth, today).error == DayOutOfRange)
      && (NextAnniversary(birth, today).Failure? && !leapDay ==> NextAnniversary(birth, today).error == YearOutOfRange(MAX_YEAR + 1))
  {
    var y := today.year;
    if IsLeap(y) {
      assert y % 4 == 0;
      assert (y + 1) % 4 == 1;
      assert !IsLeap(y + 1);
      assert y != MAX_YEAR;
    }
  }

  /** The date to congratulate on, if it falls within the coming week. */
  function CongratulationDate(birth: Date, today: Date): (r: Result<Option<Date>, DateError>)
    requires ValidDate(birth) && ValidDate(today)
    ensures r.Failure? <==> NextAnniversary(birth, today).Failure?
  {
    match NextAnniversary(birth, today)
    case Failure(e) => Failure(e)
    case Success(a) =>
      var d := NextWeekday(a);
      var delta := Ordinal(d) - Ordinal(today);
      if 0 <= delta <= 7 then Success(Some(d)) else Success(None)
  }

  /** The rule as a whole: the reported date is the first Monday-to-Friday on or
      after the first anniversary that is not before today, and it is reported
      exactly when it is 0 to 7 days away; the lower bound never excludes anything. */
  lemma CongratulationWindow(birth: Date, today: Date)
    requires ValidDate(birth) && ValidDate(today)
    requires NextAnniversary(birth, today).Success?
    ensures var a := NextAnniversary(birth, today).value;
      var d := NextWeekday(a);
      && Ordinal(today) <= Ordinal(a) <= Ordinal(d)
      && (CongratulationDate(birth, today) == Success(Some(d)) <==> Ordinal(d) <= Ordinal(today) + 7)
      && (CongratulationDate(birth, today) == Success(None) <==> Ordinal(d) > Ordinal(today) + 7)
  {
    var a := NextAnniversary(birth, today).value;
    BeforeIsEarlier(a, today);
  }

  /** `get_upcoming_birthdays` as a value: at most one entry, named after the contact. */
  function UpcomingBirthdays(c: Contact, today: Date): (r: Result<seq<Congratulation>, DateError>)
    requires ValidContact(c) && ValidDate(today)
    ensures c.birthday.None? ==> r == Success([])
    ensures r.Success? ==> |r.value| <= 1 && forall e :: e in r.value ==> e.name == c.name
  {
    if c.birthday.None? then Success([])
    else
      match CongratulationDate(c.birthday.value.date, today)
      case Failure(e) => Failure(e)
      case Success(None) => Success([])
      case Success(Some(d)) => Success([Congratulation(c.name, FormatDate(d))])
  }

  /** What `get_upcoming_birthdays` returns for a contact with a birthday whose
      projection succeeds: one entry for the rolled date, formatted, exactly when
      that date is at most 7 days after today, and nothing otherwise. */
  lemma UpcomingWindow(c: Contact, today: Date)
    requires ValidContact(c) && ValidDate(today) && c.birthday.Some?
    requires NextAnniversary(c.birthday.value.date, today).Success?
    ensures var d := NextWeekday(NextAnniversary(c.birthday.value.date, today).value);
      && (Ordinal(d) <= Ordinal(today) + 7 ==> UpcomingBirthdays(c, today) == Success([Congratulation(c.name, FormatDate(d))]))
      && (Ordinal(d) > Ordinal(today) + 7 ==> UpcomingBirthdays(c, today) == Success([]))
  {
    CongratulationWindow(c.birthday.value.date, today);
  }

  /** When the projection of one contact raises: a 29 February birthday in a
      common year always does, and before year 9999 nothing else can. */
  lemma UpcomingFailures(c: Contact, today: Date)
    requires ValidContact(c) && ValidDate(today)
    ensures var leapDay := c.birthday.Some? && c.birthday.value.date.month == 2 && c.birthday.value.date.day == 29;
      && (leapDay && !IsLeap(today.year) ==> UpcomingBirthdays(c, today).Failure?)
      && (UpcomingBirthdays(c, today).Failure? && today.year < MAX_YEAR ==>
            leapDay && UpcomingBirthdays(c, today).error == DayOutOfRange)
  {
    if c.birthday.Some? {
      AnniversaryFailures(c.birthday.value.date, today);
    }
  }

  /** 1 January 2024, day 738886, is a Monday; a birthday on Wednesday
      3 January is congratulated that same day. */
  lemma WeekdayBirthdayExample()
    ensures Weekday(Date(2024, 1, 1)) == 0
    ensures CongratulationDate(Date(1990, 1, 3), Date(2024, 1, 1)) == Success(Some(Date(2024, 1, 3)))
  {
    assert DaysBeforeYear(2024) == 738885;
    assert Weekday(Date(2024, 1, 3)) == 2;
  }

  /** A birthday on Saturday 6 January 2024 rolls to Monday 8 January, which is
      reported on 1 January, 7 days before. */
  lemma SaturdayBirthdayExample()
    ensures CongratulationDate(Date(1990, 1, 6), Date(2024, 1, 1)) == Success(Some(Date(2024, 1, 8)))
  {
    var saturday := Date(2024, 1, 6);
    assert DaysBeforeYear(2024) == 738885;
    assert Weekday(saturday) == 5;
    SaturdayRoll(saturday);
  }

  /** On 31 December 2023 the same birthday lies 8 days ahead once rolled, and
      is not reported. */
  lemma RolledPastWindowExample()
    ensures CongratulationDate(Date(1990, 1, 6), Date(2023, 12, 31)) == Success(None)
  {
    var saturday := Date(2024, 1, 6);
    assert DaysBeforeYear(2024) == 738885 && DaysBeforeYear(2023) == 738520;
    assert Weekday(saturday) == 5;
    SaturdayRoll(saturday);
  }

  function PhoneValues(phones: seq<Phone>): (r: seq<string>)
    ensures |r| == |phones| && forall i :: 0 <= i < |r| ==> r[i] == phones[i].value
  {
    if phones == [] then [] else [phones[0].value] + PhoneValues(phones[1..])
  }

  /** Appending a phone appends its value. */
  lemma PhoneValuesAppend(phones: seq<Phone>, p: Phone)
    ensures PhoneValues(phones + [p]) == PhoneValues(phones) + [p.value]
  {
    var r := PhoneValues(phones + [p]);
    assert forall i :: 0 <= i < |phones| ==> r[i] == phones[i].value;
  }

  /** `Record.__str__`. */
  function Render(c: Contact): string {
    "Contact name: " + c.name + RenderDetails(c)
  }

  /** What `__str__` prints after the name: the phones and the birthday. */
  function RenderDetails(c: Contact): string {
    ", phones: " + Text.Join(", ", PhoneValues(c.phones)) +
    ", birthday: " + (if c.birthday.Some? then c.birthday.value.value else "None")
  }

  /** Valid phone values joined by ", " hold no line break. */
  lemma PhonesAreOneLine(phones: seq<Phone>)
    requires forall i :: 0 <= i < |phones| ==> ValidPhoneValue(phones[i].value)
    ensures '\n' !in Text.Join(", ", PhoneValues(phones))
  {
    var values := PhoneValues(phones);
    forall i | 0 <= i < |values|
      ensures '\n' !in values[i]
    {
      assert ValidPhoneValue(values[i]);
    }
    Text.JoinAvoids(", ", values, '\n');
  }

  /** Neither the phones nor the birthday of a valid contact hold a line break. */
  lemma DetailsAreOneLine(c: Contact)
    requires ValidContact(c)
    ensures '\n' !in RenderDetails(c)
  {
    PhonesAreOneLine(c.phones);
    if c.birthday.Some? {
      assert IsDatePattern(c.birthday.value.value);
    }
  }

  /** The rendering names the contact first, and is a single line whenever the
      name is. */
  lemma RenderIsOneLine(c: Contact)
    requires ValidContact(c)
    ensures Render(c)[..14 + |c.name|] == "Contact name: " + c.name
    ensures '\n' !in c.name ==> '\n' !in Render(c)
  {
    DetailsAreOneLine(c);
  }

  /** Whether a step on a contact value was carried out on the record: on success
      the record holds the new value; on failure it raised and kept the old one. */
  predicate Applied(step: Result<Contact, string>, outcome: Outcome<string>, before: Contact, after: Contact) {
    match step
    case Success(c) => outcome == Pass && after == c
    case Failure(e) => outcome == Fail(e) && after == before
  }

  class Record {
    const name: string
    var phones: seq<Phone>
    var birthday: Option<Birthday>

    function Value(): Contact
      reads this
    {
      Contact(name, phones, birthday)
    }

    ghost predicate Valid()
      reads this
    {
      ValidContact(Value())
    }

    constructor (name: string)
      ensures Valid() && Value() == Contact(name, [], None)
    {
      this.name := name;
      phones := [];
      birthday := None;
    }

    method AddPhone(raw: string) returns (r: Outcome<string>)
      requires Valid()
      modifies this
      ensures Valid() && Applied(AddPhoneTo(old(Value()), raw), r, old(Value()), Value())
    {
      OperationsKeepValid(Value(), raw, raw);
      var phone := NewPhone(raw);
      if phone.Failure? {
        return Fail("Error adding phone: " + phone.error);
      }
      phones := phones + [phone.value];
      r := Pass;
    }

    method RemovePhone(x: string) returns (r: Outcome<string>)
      requires Valid()
      modifies this
      ensures Valid() && Applied(RemovePhoneFrom(old(Value()), x), r, old(Value()), Value())
    {
      OperationsKeepValid(Value(), x, x);
      var i := FirstMatch(phones, x);
      if i.None? {
        return Fail(PHONE_NOT_FOUND_MESSAGE);
      }
      phones := phones[..i.value] + phones[i.value + 1..];
      r := Pass;
    }

    method EditPhone(oldPhone: string, newPhone: string) returns (r: Outcome<string>)
      requires Valid()
      modifies this
      ensures Valid() && Applied(EditPhoneIn(old(Value()), oldPhone, newPhone), r, old(Value()), Value())
    {
      OperationsKeepValid(Value(), oldPhone, newPhone);
      var i := FirstMatch(phones, oldPhone);
      if i.None? {
        return Fail(PHONE_NOT_FOUND_MESSAGE);
      }
      var phone := NewPhone(newPhone);
      if phone.Failure? {
        return Fail("Error: " + phone.error);
      }
      phones := phones[i.value := phone.value];
      r := Pass;
    }

    /** `find_phone`: the first phone equal to `x`, or nothing. */
    method FindPhone(x: string) returns (r: Option<Phone>)
      ensures r.Some? <==> HasPhone(phones, x)
      ensures r.Some? ==> r.value.value == x && r.value == phones[FirstIndex(phones, x).value]
    {
      var i := FirstMatch(phones, x);
      if i.None? {
        return None;
      }
      return Some(phones[i.value]);
    }

    method AddBirthday(text: string) returns (r: Outcome<string>)
      requires Valid()
      modifies this
      ensures Valid() && Applied(SetBirthday(old(Value()), text), r, old(Value()), Value())
    {
      OperationsKeepValid(Value(), text, text);
      var parsed := ParseBirthday(text);
      if parsed.Failure? {
        return Fail(BIRTHDAY_ERROR_PREFIX + parsed.error);
      }
      birthday := Some(parsed.value);
      r := Pass;
    }

    /** `get_upcoming_birthdays`, with today's date passed in. */
    method GetUpcomingBirthdays(today: Date) returns (r: Result<seq<Congratulation>, DateError>)
      requires Valid() && ValidDate(today)
      ensures r == UpcomingBirthdays(Value(), today)
    {
      r := Success([]);
      if birthday.Some? {
        var birth := birthday.value.date;
        var next := WithYear(birth, today.year);
        if next.Failure? {
          return Failure(next.error);
        }
        var nextBirthday := next.value;
        if Before(nextBirthday, today) {
          next := WithYear(birth, today.year + 1);
          if next.Failure? {
            return Failure(next.error);
          }
          nextBirthday := next.value;
        }
        ghost var anniversary := nextBirthday;
        while Weekday(nextBirthday) >= 5
          invariant ValidDate(nextBirthday)
          invariant NextWeekday(nextBirthday) == NextWeekday(anniversary)
          decreases Ordinal(NextWeekday(anniversary)) - Ordinal(nextBirthday)
        {
          RollStep(nextBirthday);
          nextBirthday := NextDay(nextBirthday);
        }
        var daysUntilBirthday := Ordinal(nextBirthday) - Ordinal(today);
        if 0 <= daysUntilBirthday <= 7 {
          r := Success([Congratulation(name, FormatDate(nextBirthday))]);
        }
      }
    }
  }
}
