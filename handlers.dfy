/** The command handlers and `input_error`: each handler takes the argument list
    and the book, may change the book, and produces the text the command loop
    prints. A handler's undecorated behaviour is a `Completion` (it returned a
    text or raised); `InputError` turns that into the printed text. */
module Handlers {
  import opened Wrappers
  import opened Calendar
  import opened Fields
  import opened Records
  import opened Book
  import Text

  const ADD_ARGS_MESSAGE: string := "Not enough arguments. Please provide both name and phone number."
  const CHANGE_ARGS_MESSAGE: string := "Not enough arguments. Please provide both name and new phone number."
  const BIRTHDAY_ARGS_MESSAGE: string := "Not enough arguments. Please provide both name and birthday (DD.MM.YYYY)."
  const PHONES_ARGS_MESSAGE: string := "Not enough arguments. Please provide a name."
  const RECORD_NOT_FOUND_MESSAGE: string := "Record not found."
  const NO_BIRTHDAYS_MESSAGE: string := "No upcoming birthdays in the next 7 days."
  const EMPTY_BOOK_MESSAGE: string := "Address book is empty."
  /** What Python raises for `name, value = args` when `args` has more than two items. */
  const UNPACK_MESSAGE: string := "too many values to unpack (expected 2)"

  datatype Exception = KeyError | ValueError(message: string) | IndexError

  /** How an undecorated handler finished. */
  datatype Completion = Returned(text: string) | Raised(exception: Exception)

  /** A handler's completion and the book it leaves behind. */
  datatype Step = Step(completion: Completion, book: BookValue)

  /** `input_error`: a returned text is passed through, and each exception the
      decorator catches becomes a fixed text. */
  function InputError(c: Completion): (s: string)
    ensures c.Returned? ==> s == c.text
    ensures c == Raised(KeyError) ==> s == "KeyError"
    ensures c == Raised(IndexError) ==> s == "IndexError"
    ensures c.Raised? && c.exception.ValueError? ==> s == "ValueError: " + c.exception.message
  {
    match c
    case Returned(t) => t
    case Raised(KeyError) => "KeyError"
    case Raised(ValueError(m)) => "ValueError: " + m
    case Raised(IndexError) => "IndexError"
  }

  /** The message of the `ValueError` that `date.replace` raises. */
  function DateErrorMessage(e: DateError): string {
    match e
    case DayOutOfRange => "day is out of range for month"
    case YearOutOfRange(y) => "year " + (if y >= 0 then Text.Decimal(y) else "-" + Text.Decimal(-y)) + " is out of range"
  }

  // ---------------------------------------------------------------- add

  /** `add_contact`: an unknown name is stored as a new, empty record before the
      phone is validated. */
  function AddContactSpec(args: seq<string>, b: BookValue): (r: Step)
    requires WellFormed(b)
    ensures WellFormed(r.book)
    ensures |args| < 2 ==> r == Step(Returned(ADD_ARGS_MESSAGE), b)
    ensures |args| >= 2 ==> (r.book.order == KeysAfterPut(b.order, args[0]) &&
      forall k :: k != args[0] ==> Find(r.book, k) == Find(b, k))
  {
    if |args| < 2 then Step(Returned(ADD_ARGS_MESSAGE), b)
    else
      var name, phone := args[0], args[1];
      var found := Find(b, name);
      var contact := if found.Some? then found.value else Contact(name, [], None);
      var message := if found.Some? then "Contact updated." else "Contact added.";
      var stored := if found.Some? then b else Put(b, contact);
      PutStores(b, contact);
      if phone == "" then Step(Returned(message), stored)
      else
        match AddPhoneTo(contact, phone)
        case Failure(e) => Step(Raised(ValueError(e)), stored)
        case Success(c) =>
          OperationsKeepValid(contact, phone, phone);
          PutStores(stored, c);
          Step(Returned(message), Put(stored, c))
  }

  /** What `add` does to the named contact: a valid phone is appended at the end
      (duplicates allowed); an invalid one raises, yet an unknown name has been
      stored already, without phones. */
  lemma AddContactEffect(args: seq<string>, b: BookValue)
    requires WellFormed(b) && |args| >= 2
    ensures var name, phone := args[0], args[1];
      var r := AddContactSpec(args, b);
      var known := name in b.entries;
      var before := if known then b.entries[name].phones else [];
      var valid := |Sanitize(phone)| == 10;
      && name in r.book.entries
      && r.book.entries[name].phones == (if phone != "" && valid then before + [Phone(Sanitize(phone))] else before)
      && r.book.entries[name].birthday == (if known then b.entries[name].birthday else None)
      && r.completion == (if phone != "" && !valid then Raised(ValueError("Error adding phone: " + PHONE_LENGTH_MESSAGE))
                          else Returned(if known then "Contact updated." else "Contact added."))
  {
  }

  /** The first half of `add_contact`: the record stored under `name`, created
      empty and stored when there is none. */
  method FindOrCreate(name: string, book: AddressBook) returns (record: Record, created: bool)
    requires book.Valid()
    modifies book
    ensures book.Valid() && name in book.data && book.data[name] == record
    ensures created <==> name !in old(book.data)
    ensures if created then fresh(record) else record == old(book.data[name])
    ensures record.Value() == if created then Contact(name, [], None) else old(book.Value()).entries[name]
    ensures book.Value() == Put(old(book.Value()), record.Value())
    ensures forall k :: k in book.data && k != name ==> k in old(book.data) && book.data[k] == old(book.data[k])
  {
    book.ValueWellFormed();
    ghost var b := book.Value();
    var found := book.FindRecord(name);
    if found == null {
      record := new Record(name);
      assert book.Value() == b;
      book.AddRecord(record);
      created := true;
    } else {
      record := found;
      assert b.entries[name] == record.Value();
      PutUnchanged(b, name);
      created := false;
    }
  }

  method AddContact(args: seq<string>, book: AddressBook) returns (s: string)
    requires book.Valid()
    modifies book, book.data.Values
    ensures book.Valid()
    ensures var step := AddContactSpec(args, old(book.Value()));
      s == InputError(step.completion) && book.Value() == step.book
  {
    book.ValueWellFormed();
    ghost var b := book.Value();
    if |args| < 2 {
      return ADD_ARGS_MESSAGE;
    }
    var name, phone := args[0], args[1];
    var record, created := FindOrCreate(name, book);
    var message := if created then "Contact added." else "Contact updated.";
    ghost var stored := book.Value();
    ghost var contact := record.Value();
    ghost var step := AddContactSpec(args, b);
    assert stored == if created then Put(b, contact) else b by {
      if !created {
        PutUnchanged(b, name);
      }
    }
    if phone != "" {
      label L:
      var added := record.AddPhone(phone);
      assert forall k :: k in book.data && k != name ==> book.data[k] != record;
      book.OneRecordChanged@L(record);
      if added.Fail? {
        assert AddPhoneTo(contact, phone) == Failure(added.error);
        assert step == Step(Raised(ValueError(added.error)), stored);
        PutStores(b, contact);
        PutUnchanged(stored, name);
        return InputError(Raised(ValueError(added.error)));
      }
      assert AddPhoneTo(contact, phone) == Success(record.Value());
      assert step == Step(Returned(message), Put(stored, record.Value()));
    } else {
      assert step == Step(Returned(message), stored);
    }
    s := message;
  }

  // ---------------------------------------------------------------- change

  /** `change_contact`: sets the contact's first phone to the new number. */
  function ChangeContactSpec(args: seq<string>, b: BookValue): (r: Step)
    requires WellFormed(b)
    ensures WellFormed(r.book)
    ensures r.book != b ==> |args| == 2 && r.completion == Returned("Phone number updated for " + args[0] + ".")
    ensures |args| < 2 ==> r == Step(Returned(CHANGE_ARGS_MESSAGE), b)
    ensures |args| == 2 && args[0] !in b.entries ==> r == Step(Returned(RECORD_NOT_FOUND_MESSAGE), b)
    ensures |args| > 2 ==> r == Step(Raised(ValueError(UNPACK_MESSAGE)), b)
  {
    if |args| < 2 then Step(Returned(CHANGE_ARGS_MESSAGE), b)
    else if |args| > 2 then Step(Raised(ValueError(UNPACK_MESSAGE)), b)
    else
      var name, newPhone := args[0], args[1];
      match Find(b, name)
      case None => Step(Returned(RECORD_NOT_FOUND_MESSAGE), b)
      case Some(c) =>
        if |c.phones| == 0 then Step(Raised(IndexError), b)
        else
          match EditPhoneIn(c, c.phones[0].value, newPhone)
          case Failure(e) => Step(Returned("Error: " + e), b)
          case Success(c2) =>
            OperationsKeepValid(c, c.phones[0].value, newPhone);
            PutStores(b, c2);
            Step(Returned("Phone number updated for " + name + "."), Put(b, c2))
  }

  /** `change` replaces the first stored phone and no other; a contact without
      phones raises `IndexError`; an invalid number changes nothing. */
  lemma ChangeContactEffect(args: seq<string>, b: BookValue)
    requires WellFormed(b) && |args| == 2 && args[0] in b.entries
    ensures var name, newPhone := args[0], args[1];
      var c := b.entries[name];
      var r := ChangeContactSpec(args, b);
      && (c.phones == [] ==> r == Step(Raised(IndexError), b))
      && (c.phones != [] && |Sanitize(newPhone)| != 10 ==>
            r == Step(Returned("Error: Error: " + PHONE_LENGTH_MESSAGE), b))
      && (c.phones != [] && |Sanitize(newPhone)| == 10 ==>
            r == Step(Returned("Phone number updated for " + name + "."),
                      Put(b, c.(phones := c.phones[0 := Phone(Sanitize(newPhone))]))))
  {
    var c := b.entries[args[0]];
    if c.phones != [] {
      assert FirstIndex(c.phones, c.phones[0].value) == Some(0);
      assert HasPhone(c.phones, c.phones[0].value);
      assert "Error: " + ("Error: " + PHONE_LENGTH_MESSAGE) == "Error: Error: " + PHONE_LENGTH_MESSAGE;
    }
  }

  method ChangeContact(args: seq<string>, book: AddressBook) returns (s: string)
    requires book.Valid()
    modifies book.data.Values
    ensures book.Valid()
    ensures var step := ChangeContactSpec(args, old(book.Value()));
      s == InputError(step.completion) && book.Value() == step.book
  {
    book.ValueWellFormed();
    ghost var b := book.Value();
    if |args| < 2 {
      return CHANGE_ARGS_MESSAGE;
    }
    if |args| > 2 {
      return InputError(Raised(ValueError(UNPACK_MESSAGE)));
    }
    var name, newPhone := args[0], args[1];
    var record := book.FindRecord(name);
    if record == null {
      return RECORD_NOT_FOUND_MESSAGE;
    }
    if |record.phones| == 0 {
      return InputError(Raised(IndexError));
    }
    ghost var contact := record.Value();
    label L:
    var edited := record.EditPhone(record.phones[0].value, newPhone);
    assert forall k :: k in book.data && k != name ==> book.data[k] != record;
    book.OneRecordChanged@L(record);
    PutUnchanged(b, name);
    if edited.Fail? {
      return "Error: " + edited.error;
    }
    s := "Phone number updated for " + name + ".";
  }

  // ---------------------------------------------------------------- add_birthday

  /** `add_birthday` (the handler): never overwrites a birthday that is set. */
  function AddBirthdaySpec(args: seq<string>, b: BookValue): (r: Step)
    requires WellFormed(b)
    ensures WellFormed(r.book)
    ensures r.book != b ==> |args| == 2 && r.completion == Returned("Birthday added successfully for " + args[0] + ".")
  {
    if |args| < 2 then Step(Returned(BIRTHDAY_ARGS_MESSAGE), b)
    else if |args| > 2 then Step(Raised(ValueError(UNPACK_MESSAGE)), b)
    else
      var name, text := args[0], args[1];
      match Find(b, name)
      case None => Step(Returned(RECORD_NOT_FOUND_MESSAGE), b)
      case Some(c) =>
        if c.birthday.Some? then Step(Returned("Birthday already exists for " + name + "."), b)
        else
          match SetBirthday(c, text)
          case Failure(e) => Step(Returned(BIRTHDAY_ERROR_PREFIX + e), b)
          case Success(c2) =>
            OperationsKeepValid(c, text, text);
            PutStores(b, c2);
            Step(Returned("Birthday added successfully for " + name + "."), Put(b, c2))
  }

  /** The only change `add_birthday` ever makes is to give a contact without a
      birthday the date its text names; a birthday once set stays as it was. */
  lemma AddBirthdayNeverOverwrites(args: seq<string>, b: BookValue)
    requires WellFormed(b)
    ensures var r := AddBirthdaySpec(args, b);
      && (forall k :: k in b.entries && b.entries[k].birthday.Some? ==> r.book.entries[k] == b.entries[k])
      && (r.book != b ==>
            var c := b.entries[args[0]];
            && c.birthday.None?
            && ParseBirthday(args[1]).Success?
            && r.book == Put(b, c.(birthday := Some(ParseBirthday(args[1]).value))))
      && (|args| == 2 && args[0] in b.entries && b.entries[args[0]].birthday.Some? ==>
            r == Step(Returned("Birthday already exists for " + args[0] + "."), b))
      && (|args| == 2 && args[0] !in b.entries ==> r == Step(Returned(RECORD_NOT_FOUND_MESSAGE), b))
      && (|args| > 2 ==> r == Step(Raised(ValueError(UNPACK_MESSAGE)), b))
  {
  }

  /** Too few arguments: the handler asks for both and changes nothing. */
  lemma AddBirthdayTooFewArguments(args: seq<string>, b: BookValue)
    requires WellFormed(b) && |args| < 2
    ensures AddBirthdaySpec(args, b) == Step(Returned(BIRTHDAY_ARGS_MESSAGE), b)
  {
  }

  /** An invalid date for a contact without a birthday changes nothing; the
      handler wraps the record's message in the same prefix a second time. */
  lemma AddBirthdayInvalidDate(name: string, text: string, b: BookValue)
    requires WellFormed(b) && name in b.entries && b.entries[name].birthday.None?
    requires ParseBirthday(text).Failure?
    ensures AddBirthdaySpec([name, text], b) ==
      Step(Returned(BIRTHDAY_ERROR_PREFIX + (BIRTHDAY_ERROR_PREFIX + DATE_FORMAT_MESSAGE)), b)
  {
    assert SetBirthday(b.entries[name], text) == Failure(BIRTHDAY_ERROR_PREFIX + DATE_FORMAT_MESSAGE);
  }

  method AddBirthday(args: seq<string>, book: AddressBook) returns (s: string)
    requires book.Valid()
    modifies book.data.Values
    ensures book.Valid()
    ensures var step := AddBirthdaySpec(args, old(book.Value()));
      s == InputError(step.completion) && book.Value() == step.book
  {
    book.ValueWellFormed();
    ghost var b := book.Value();
    if |args| < 2 {
      return BIRTHDAY_ARGS_MESSAGE;
    }
    if |args| > 2 {
      return InputError(Raised(ValueError(UNPACK_MESSAGE)));
    }
    var name, text := args[0], args[1];
    var record := book.FindRecord(name);
    if record == null {
      return RECORD_NOT_FOUND_MESSAGE;
    }
    if record.birthday.Some? {
      return "Birthday already exists for " + name + ".";
    }
    label L:
    var added := record.AddBirthday(text);
    assert forall k :: k in book.data && k != name ==> book.data[k] != record;
    book.OneRecordChanged@L(record);
    PutUnchanged(b, name);
    if added.Fail? {
      return BIRTHDAY_ERROR_PREFIX + added.error;
    }
    s := "Birthday added successfully for " + name + ".";
  }

  // ---------------------------------------------------------------- queries

  /** `show_birthday`. */
  function ShowBirthday(args: seq<string>, b: BookValue): (r: Completion)
    ensures |args| == 0 ==> r == Raised(IndexError)
    ensures |args| > 0 && Find(b, args[0]).Some? && Find(b, args[0]).value.birthday.Some? ==>
      r == Returned(args[0] + "'s birthday: " + Find(b, args[0]).value.birthday.value.value)
    ensures |args| > 0 && Find(b, args[0]).Some? && Find(b, args[0]).value.birthday.None? ==>
      r == Returned(args[0] + " has no birthday information.")
    ensures |args| > 0 && Find(b, args[0]).None? ==> r == Returned(RECORD_NOT_FOUND_MESSAGE)
  {
    if |args| == 0 then Raised(IndexError)
    else
      var name := args[0];
      match Find(b, name)
      case None => Returned(RECORD_NOT_FOUND_MESSAGE)
      case Some(c) =>
        if c.birthday.Some? then Returned(name + "'s birthday: " + c.birthday.value.value)
        else Returned(name + " has no birthday information.")
  }

  /** `show_phones`. */
  function ShowPhones(args: seq<string>, b: BookValue): (r: Completion)
    ensures r.Returned?
    ensures |args| == 0 ==> r.text == PHONES_ARGS_MESSAGE
    ensures |args| > 0 && Find(b, args[0]).None? ==> r.text == "Record for " + args[0] + " not found."
    ensures |args| > 0 && Find(b, args[0]).Some? ==>
      r.text == "Phones for " + args[0] + ": " + Text.Join(", ", PhoneValues(Find(b, args[0]).value.phones))
  {
    if |args| < 1 then Returned(PHONES_ARGS_MESSAGE)
    else
      var name := args[0];
      match Find(b, name)
      case None => Returned("Record for " + name + " not found.")
      case Some(c) => Returned("Phones for " + name + ": " + Text.Join(", ", PhoneValues(c.phones)))
  }

  /** One line of `show_all`: the key, then the record's rendering. */
  function Line(b: BookValue, k: string): string
    requires k in b.entries
  {
    k + ": " + Render(b.entries[k])
  }

  /** The lines of `show_all`, one per record in insertion order. */
  function Lines(b: BookValue): (r: seq<string>)
    requires WellFormed(b)
    ensures |r| == |b.order|
  {
    seq(|b.order|, i requires 0 <= i < |b.order| => assert b.order[i] in b.order; Line(b, b.order[i]))
  }

  /** `show_all`. */
  function ShowAll(b: BookValue): (s: string)
    requires WellFormed(b)
    ensures b.entries == map[] <==> s == EMPTY_BOOK_MESSAGE
  {
    if b.entries == map[] then EMPTY_BOOK_MESSAGE
    else
      assert b.order[0] in b.entries;
      Text.Join("\n", Lines(b))
  }

  /** Each line of `show_all` starts with the key and then the contact's own name. */
  lemma LineNamesRecord(b: BookValue, k: string)
    requires WellFormed(b) && k in b.entries
    ensures Line(b, k)[..16 + 2 * |k|] == k + ": Contact name: " + k
    ensures '\n' !in k ==> '\n' !in Line(b, k)
  {
    var c := b.entries[k];
    var head, details := k + ": Contact name: " + k, RenderDetails(c);
    assert Line(b, k) == head + details;
    if '\n' !in k {
      DetailsAreOneLine(c);
      assert '\n' !in head;
    }
  }

  /** When no name holds a line break, `show_all` prints exactly one line per
      record, in insertion order. */
  lemma ShowAllLines(b: BookValue)
    requires WellFormed(b) && b.entries != map[]
    requires forall k :: k in b.order ==> '\n' !in k
    ensures Text.Split(ShowAll(b), '\n') == Lines(b)
  {
    var ls := Lines(b);
    assert b.order[0] in b.entries;
    forall i | 0 <= i < |ls|
      ensures '\n' !in ls[i]
    {
      assert b.order[i] in b.order;
      LineNamesRecord(b, b.order[i]);
    }
    Text.SplitOfJoin(ls, '\n');
  }

  // ---------------------------------------------------------------- birthdays

  type Projection = Result<seq<Congratulation>, DateError>

  /** Concatenates the entries of a sequence of per-record projections, in
      order; the first projection that raised stops the concatenation. */
  function Gather(rs: seq<Projection>): Projection
    decreases |rs|
  {
    if rs == [] then Success([])
    else
      match Gather(rs[..|rs| - 1])
      case Failure(e) => Failure(e)
      case Success(xs) =>
        match rs[|rs| - 1]
        case Failure(e) => Failure(e)
        case Success(ys) => Success(xs + ys)
  }

  /** Each record's upcoming-birthday projection, in insertion order. */
  function Projections(b: BookValue, today: Date): (rs: seq<Projection>)
    requires WellFormed(b) && ValidDate(today)
    ensures |rs| == |b.order|
    ensures forall j :: 0 <= j < |rs| ==> b.order[j] in b.entries && rs[j] == UpcomingBirthdays(b.entries[b.order[j]], today)
  {
    seq(|b.order|, j requires 0 <= j < |b.order| => assert b.order[j] in b.order; UpcomingBirthdays(b.entries[b.order[j]], today))
  }

  /** One line of `birthdays` per collected entry. */
  function EntryLines(xs: seq<Congratulation>): (r: seq<string>)
    ensures |r| == |xs|
  {
    seq(|xs|, i requires 0 <= i < |xs| => xs[i].name + " - " + xs[i].congratulationDate)
  }

  /** The text `birthdays` builds from the collected entries. */
  function BirthdaysText(xs: seq<Congratulation>): string {
    if xs == [] then NO_BIRTHDAYS_MESSAGE
    else "Upcoming birthdays:\n" + Text.Join("\n", EntryLines(xs))
  }

  /** With at least one entry, the text is a header line followed by one line per
      entry, in order. */
  lemma BirthdaysTextLines(xs: seq<Congratulation>)
    requires xs != []
    requires forall i :: 0 <= i < |xs| ==> '\n' !in xs[i].name && '\n' !in xs[i].congratulationDate
    ensures Text.Split(BirthdaysText(xs), '\n') == ["Upcoming birthdays:"] + EntryLines(xs)
  {
    var ls := EntryLines(xs);
    forall i | 0 <= i < |ls|
      ensures '\n' !in ls[i]
    {
      assert ls[i] == xs[i].name + " - " + xs[i].congratulationDate;
    }
    Text.SplitOfJoin(ls, '\n');
    assert BirthdaysText(xs) == "Upcoming birthdays:" + ['\n'] + Text.Join("\n", ls);
    Text.SplitOfPiece("Upcoming birthdays:", Text.Join("\n", ls), '\n');
  }

  /** `birthdays`. */
  function BirthdaysSpec(b: BookValue, today: Date): Completion
    requires WellFormed(b) && ValidDate(today)
  {
    match Gather(Projections(b, today))
    case Failure(e) => Raised(ValueError(DateErrorMessage(e)))
    case Success(xs) => Returned(BirthdaysText(xs))
  }

  /** Gathering one more projection. */
  lemma GatherStep(rs: seq<Projection>, n: nat)
    requires n < |rs|
    ensures Gather(rs[..n + 1]) ==
      if Gather(rs[..n]).Failure? then Gather(rs[..n])
      else if rs[n].Failure? then Failure(rs[n].error)
      else Success(Gather(rs[..n]).value + rs[n].value)
  {
    assert rs[..n + 1][..n] == rs[..n];
  }

  /** Once a projection raised, the whole gathering raises that error. */
  lemma {:induction false} GatherFailurePersists(rs: seq<Projection>, n: nat)
    requires n <= |rs| && Gather(rs[..n]).Failure?
    ensures Gather(rs) == Gather(rs[..n])
    decreases |rs| - n
  {
    if n < |rs| {
      GatherStep(rs, n);
      GatherFailurePersists(rs, n + 1);
    } else {
      assert rs[..n] == rs;
    }
  }

  /** The gathering succeeds exactly when every projection succeeded, and then
      holds exactly the entries of the projections. */
  lemma {:induction false} GatheredEntries(rs: seq<Projection>)
    ensures Gather(rs).Success? <==> forall j :: 0 <= j < |rs| ==> rs[j].Success?
    ensures Gather(rs).Success? ==> forall x :: x in Gather(rs).value <==>
      exists j :: 0 <= j < |rs| && x in rs[j].value
    ensures Gather(rs).Success? && (forall j :: 0 <= j < |rs| ==> |rs[j].value| <= 1) ==>
      |Gather(rs).value| <= |rs|
    decreases |rs|
  {
    if rs != [] {
      var init := rs[..|rs| - 1];
      GatheredEntries(init);
      assert forall j :: 0 <= j < |init| ==> init[j] == rs[j];
      if Gather(rs).Success? {
        var last := rs[|rs| - 1];
        forall x
          ensures x in Gather(rs).value <==> exists j :: 0 <= j < |rs| && x in rs[j].value
        {
          if x in last.value {
            assert x in rs[|rs| - 1].value;
          }
          if exists j :: 0 <= j < |rs| && x in rs[j].value {
            var j :| 0 <= j < |rs| && x in rs[j].value;
            if j < |init| {
              assert x in init[j].value;
            }
          }
        }
      } else if Gather(init).Success? {
        assert rs[|rs| - 1].Failure?;
      }
    }
  }

  /** What `birthdays` reports: the congratulations of exactly the records whose
      projection yields one, or the first projection error. */
  lemma BirthdaysReport(b: BookValue, today: Date)
    requires WellFormed(b) && ValidDate(today)
    ensures var rs := Projections(b, today);
      && (BirthdaysSpec(b, today).Raised? <==> exists j :: 0 <= j < |rs| && rs[j].Failure?)
      && (Gather(rs).Success? ==>
            && |Gather(rs).value| <= |b.order|
            && forall x :: x in Gather(rs).value <==>
                 exists k :: k in b.entries && x in UpcomingBirthdays(b.entries[k], today).value)
      && (Gather(rs) == Success([]) ==> BirthdaysSpec(b, today) == Returned(NO_BIRTHDAYS_MESSAGE))
  {
    var rs := Projections(b, today);
    GatheredEntries(rs);
    if Gather(rs).Success? {
      forall x
        ensures x in Gather(rs).value <==>
          exists k :: k in b.entries && x in UpcomingBirthdays(b.entries[k], today).value
      {
        if exists k :: k in b.entries && x in UpcomingBirthdays(b.entries[k], today).value {
          var k :| k in b.entries && x in UpcomingBirthdays(b.entries[k], today).value;
          assert k in b.order;
          var j :| 0 <= j < |b.order| && b.order[j] == k;
          assert x in rs[j].value;
        }
      }
    }
  }

  /** The error of a failed gathering is the error of one of the projections. */
  lemma {:induction false} GatherError(rs: seq<Projection>)
    requires Gather(rs).Failure?
    ensures exists j :: 0 <= j < |rs| && rs[j] == Failure(Gather(rs).error)
    decreases |rs|
  {
    assert rs != [];
    var init := rs[..|rs| - 1];
    if Gather(init).Failure? {
      GatherError(init);
      var j :| 0 <= j < |init| && init[j] == Failure(Gather(init).error);
      assert rs[j] == init[j];
    } else {
      assert rs[|rs| - 1] == Failure(Gather(rs).error);
    }
  }

  /** One contact born on 29 February makes `birthdays` raise in a common year;
      before year 9999 the text is the one for a day missing from the month. */
  lemma LeapDayBirthdayRaises(b: BookValue, today: Date, name: string)
    requires WellFormed(b) && ValidDate(today) && !IsLeap(today.year)
    requires name in b.entries && b.entries[name].birthday.Some?
    requires b.entries[name].birthday.value.date.month == 2 && b.entries[name].birthday.value.date.day == 29
    ensures BirthdaysSpec(b, today).Raised?
    ensures today.year < MAX_YEAR ==> BirthdaysSpec(b, today) == Raised(ValueError(DateErrorMessage(DayOutOfRange)))
  {
    var rs := Projections(b, today);
    assert name in b.order;
    var j :| 0 <= j < |b.order| && b.order[j] == name;
    UpcomingFailures(b.entries[name], today);
    GatheredEntries(rs);
    assert Gather(rs).Failure?;
    if today.year < MAX_YEAR {
      GatherError(rs);
      var i :| 0 <= i < |rs| && rs[i] == Failure(Gather(rs).error);
      UpcomingFailures(b.entries[b.order[i]], today);
    }
  }

  /** The `if record.birthday:` guard of `birthdays`, applied to the `i`-th
      record: records without a birthday contribute nothing. */
  method ProjectRecord(book: AddressBook, i: nat, today: Date) returns (r: Projection)
    requires book.Valid() && ValidDate(today) && i < |book.keys|
    ensures book.Value().order == book.keys && WellFormed(book.Value())
    ensures r == Projections(book.Value(), today)[i]
  {
    book.ValueWellFormed();
    var record := book.data[book.keys[i]];
    assert book.Value().entries[book.keys[i]] == record.Value();
    if record.birthday.Some? {
      r := record.GetUpcomingBirthdays(today);
    } else {
      r := Success([]);
    }
  }

  /** The loop of `birthdays`: extends the list record by record, in insertion
      order; an error from a record's projection propagates at once. */
  method CollectUpcoming(book: AddressBook, today: Date) returns (r: Projection)
    requires book.Valid() && ValidDate(today)
    ensures WellFormed(book.Value()) && r == Gather(Projections(book.Value(), today))
  {
    book.ValueWellFormed();
    ghost var b := book.Value();
    ghost var rs := Projections(b, today);
    var upcoming: seq<Congratulation> := [];
    for i := 0 to |book.keys|
      invariant Gather(rs[..i]) == Success(upcoming)
      invariant book.Value() == b
    {
      var entries := ProjectRecord(book, i, today);
      GatherStep(rs, i);
      if entries.Failure? {
        assert Gather(rs[..i + 1]) == entries;
        GatherFailurePersists(rs, i + 1);
        assert book.Value() == b;
        return entries;
      }
      upcoming := upcoming + entries.value;
    }
    assert rs[..|rs|] == rs;
    assert book.Value() == b;
    r := Success(upcoming);
  }

  method Birthdays(args: seq<string>, book: AddressBook, today: Date) returns (s: string)
    requires book.Valid() && ValidDate(today)
    ensures s == InputError(BirthdaysSpec(book.Value(), today))
  {
    var upcoming := CollectUpcoming(book, today);
    if upcoming.Failure? {
      return InputError(Raised(ValueError(DateErrorMessage(upcoming.error))));
    }
    s := BirthdaysText(upcoming.value);
  }

  // ---------------------------------------------------------------- sessions

  /** `add_birthday` followed by `show_birthday` reports the text just stored. */
  lemma AddBirthdayThenShow(name: string, text: string, b: BookValue)
    requires WellFormed(b) && name in b.entries && b.entries[name].birthday.None?
    requires ParseBirthday(text).Success?
    ensures var r := AddBirthdaySpec([name, text], b);
      && r.completion == Returned("Birthday added successfully for " + name + ".")
      && ShowBirthday([name], r.book) == Returned(name + "'s birthday: " + text)
  {
    var c := b.entries[name];
    var r := AddBirthdaySpec([name, text], b);
    PutStores(b, SetBirthday(c, text).value);
    assert Find(r.book, name) == Some(SetBirthday(c, text).value);
  }

  /** `add` with a valid number followed by `phone` lists that number last. */
  lemma AddContactThenShowPhones(name: string, phone: string, b: BookValue)
    requires WellFormed(b) && phone != "" && |Sanitize(phone)| == 10
    ensures var r := AddContactSpec([name, phone], b);
      var before := if name in b.entries then PhoneValues(b.entries[name].phones) else [];
      ShowPhones([name], r.book) ==
        Returned("Phones for " + name + ": " + Text.Join(", ", before + [Sanitize(phone)]))
  {
    AddContactEffect([name, phone], b);
    var phones := if name in b.entries then b.entries[name].phones else [];
    PhoneValuesAppend(phones, Phone(Sanitize(phone)));
  }

  // ---------------------------------------------------------------- parse_input

  /** `parse_input`: the whitespace-separated words of the line. */
  function ParseInput(line: string): (r: seq<string>)
    ensures forall i :: 0 <= i < |r| ==> Text.IsWord(r[i])
  {
    if line != "" then Text.Words(line) else []
  }

  /** A command typed as words separated by single spaces parses back into
      those words; a blank line parses into none. */
  lemma ParseInputRoundTrip(ws: seq<string>, line: string)
    requires forall i :: 0 <= i < |ws| ==> Text.IsWord(ws[i])
    ensures ParseInput(Text.Join(" ", ws)) == ws
    ensures (forall i :: 0 <= i < |line| ==> Text.IsSpace(line[i])) ==> ParseInput(line) == []
  {
    Text.WordsOfJoin(ws);
    Text.BlankHasNoWords(line);
  }
}
