# Contact book assistant: a verified model

This project models the core of a command-line contact book written in Python
(`task.py`):

- **Field validation.** `Phone` drops every character that is not a digit or one of
  `+ - ( )` and accepts the result only when it is 10 characters long.
  `Birthday` accepts a `DD.MM.YYYY` text that names a real Gregorian date and
  keeps both the text and the date.
- **Records.** A `Record` has a name, an ordered list of phones that may repeat,
  and an optional birthday. Its methods append a phone, remove the first match,
  edit the first match, find the first match, set the birthday (with no guard)
  and render the record as `Contact name: …, phones: …, birthday: …`.
- **Upcoming birthdays.** The birthday is moved to this year, or to next year if
  that date has passed. A Saturday or Sunday rolls forward to Monday. The date is
  reported when it is 0 to 7 days after today. `date.replace(year=…)` raises for
  29 February in a common year, and the model carries that as an error.
- **The address book.** A map from name to record that keeps Python's dict
  insertion order.
- **The command handlers.** `add`, `change`, `phone`, `all`, `add_birthday`,
  `show_birthday` and `birthdays`, plus the `input_error` decorator and
  `parse_input`.

`Record` and `AddressBook` are classes whose methods update their fields in place,
as the source's do. Each method is specified by a function on plain values
(`Records.Contact`, `Book.BookValue`). The properties are proved as lemmas about
those functions. A handler that changes the book ensures two things: the text it
returns is `InputError` of the completion its specification function computes,
and the book's new value is the book that function computes. `today` is a
parameter wherever the source reads the clock.

Files:

| file | module | contents |
|---|---|---|
| `wrappers.dfy` | `Wrappers` | `Option`, `Result`, `Outcome` |
| `text.dfy` | `Text` | `sep.join`, `str.split()`, `str.split(c)`, `str(n)`, digits |
| `calendar.dfy` | `Calendar` | dates, `toordinal`, `weekday`, `replace(year=…)`, `+ timedelta(days=1)` |
| `fields.dfy` | `Fields` | `Phone`, `Birthday`, `strftime("%d.%m.%Y")` |
| `records.dfy` | `Records` | `Contact`, class `Record`, the upcoming-birthday rule |
| `address_book.dfy` | `Book` | `BookValue`, class `AddressBook` |
| `handlers.dfy` | `Handlers` | the handlers and `input_error` |

Where the program's behaviour may be unexpected, the model follows the code:

- A 29 February birthday in a common year makes `birthdays` fail with a
  `ValueError` text. It is not moved to 28 February, and the year is not skipped.
- A contact with no phones makes `change` raise `IndexError`, which is shown as
  `"IndexError"`.
- Both doubled prefixes are kept as written. An invalid date in `add_birthday`
  reads `Error adding birthday: Error adding birthday: …`. An invalid number in
  `change` reads `Error: Error: …`.

## Model

| member | source | states |
|---|---|---|
| Fields.Sanitize | task.py:22 | keeps exactly the digits and `+ - ( )` of the input and nothing longer than it |
| Fields.SanitizeAppend | task.py:22 | the filter works character by character: filtering a concatenation concatenates the filtered parts, so order is kept |
| Fields.SanitizeFixesKept | task.py:22 | filtering leaves a text unchanged if and only if every character of it is kept |
| Fields.SanitizeIdempotent | task.py:22 | filtering twice is filtering once |
| Fields.NewPhone | task.py:19-25 | succeeds if and only if the filtered text has 10 characters and then stores it; otherwise fails with "Phone number must contain 10 digits." |
| Fields.PhoneRoundTrip | task.py:20-25 | a stored phone value, given again as input, yields the same phone |
| Fields.PhoneAcceptsExactlyValidValues | task.py:20-25 | a text is stored unchanged if and only if it is 10 kept characters, so separators count toward the length |
| Fields.ParseBirthday | task.py:28-34 | succeeds if and only if the text is `DD.MM.YYYY` naming a valid date; keeps the text and that date; otherwise fails with "Invalid date format. Use DD.MM.YYYY" |
| Fields.FormatThenParse | task.py:31 | formatting a valid date as `DD.MM.YYYY` (the form used at line 92) and parsing it gives back the same date |
| Fields.ParseThenFormat | task.py:31 | every accepted text is the formatted form of the date it names |
| Calendar.YearStep | task.py:86 | the day count before year y+1 is the count before y plus the length of y |
| Calendar.BeforeIsEarlier | task.py:82 | Python's date order `<` agrees with the order of day numbers, and equal dates have equal day numbers |
| Calendar.NextDay | task.py:86 | adding one day gives a valid date whose day number is one more |
| Calendar.LastDateIsFriday | task.py:85-86 | 9999-12-31, the last date Python can represent, is a Friday |
| Calendar.WeekendIsNotLast | task.py:85-86 | a Saturday or Sunday is never the last date, so the roll never overflows |
| Calendar.WeekdayOfNextDay | task.py:85-86 | the next day's weekday is one more, modulo 7 |
| Calendar.SaturdayRoll | task.py:85-86 | a Saturday rolls through Sunday to Monday, two days later, with no overflow |
| Calendar.SundayRoll | task.py:85-86 | a Sunday rolls to Monday, one day later, with no overflow |
| Calendar.NextWeekday | task.py:85-86 | the roll ends on a weekday 0 to 2 days later, and a weekday does not move |
| Calendar.NextWeekdaySkipsOnlyWeekend | task.py:85-86 | every day the roll passes over is a Saturday or a Sunday, so it stops at the first weekday |
| Calendar.RollStep | task.py:85-86 | one step of the loop does not change where the roll ends (the loop's invariant) |
| Calendar.WithYear | task.py:81 | `replace(year=y)`: keeps month and day; fails with the year error outside 1..9999, and otherwise fails exactly for 29 February in a common year |
| Records.FirstIndex | task.py:51-52 | the position of the first phone equal to the value, or none when no phone is equal |
| Records.FirstMatch | task.py:68-72 | the search loop finds the position `FirstIndex` names |
| Records.AddPhoneTo | task.py:43-48 | succeeds if and only if the phone is valid, and then appends the filtered phone at the end; otherwise fails with "Error adding phone: …" |
| Records.RemovePhoneFrom | task.py:50-55 | succeeds if and only if some phone is equal, and then has one phone fewer and the same name and birthday; otherwise fails with "Phone number not found in record." |
| Records.RemoveDeletesFirstMatch | task.py:50-55 | removal cuts out exactly the first match, keeps the other phones in order, and the multiset of phones loses exactly that one phone |
| Records.EditPhoneIn | task.py:57-66 | succeeds if and only if the old phone is present and the new one valid; a missing old phone is reported even when the new one is invalid; an invalid new one fails with "Error: …"; length, name and birthday are kept |
| Records.EditChangesFirstMatchOnly | task.py:57-66 | editing sets only the first match to the filtered new value; every other position is unchanged |
| Records.SetBirthday | task.py:97-101 | succeeds if and only if the text parses, and then replaces any earlier birthday; otherwise fails with "Error adding birthday: …" |
| Records.OperationsKeepValid | task.py:43-101 | adding, removing or editing a phone and setting a birthday keep every stored phone valid and the birthday equal to the parse of its text |
| Records.NextAnniversary | task.py:81-83 | on success the date has the birthday's month and day, is not before today, and is in this year, or in next year when this year's date has passed |
| Records.AnniversaryFailures | task.py:81-83 | the projection fails exactly for 29 February when the year it needs is common, or past year 9999; the leap-day failure is the day error and the other is the year error |
| Records.CongratulationDate | task.py:81-89 | fails exactly when the projection fails |
| Records.CongratulationWindow | task.py:81-89 | today ≤ anniversary ≤ reported date; the date is reported if and only if it is at most 7 days after today; the `0 <=` bound never excludes a date |
| Records.UpcomingBirthdays | task.py:74-95 | no birthday gives an empty list; otherwise at most one entry, carrying the contact's name |
| Records.UpcomingWindow | task.py:85-93 | for a contact with a birthday whose projection succeeds: the list is the one entry with the name and the formatted rolled date exactly when that date is at most 7 days after today, and empty otherwise |
| Records.UpcomingFailures | task.py:78-83 | a 29 February birthday in a common year always fails; before year 9999 nothing else fails, and the failure is the day error |
| Records.WeekdayBirthdayExample | task.py:85-89 | 1 January 2024 is a Monday, and a birthday on 3 January is reported on 3 January |
| Records.SaturdayBirthdayExample | task.py:85-89 | a birthday on Saturday 6 January 2024 is reported, as of 1 January, for Monday 8 January |
| Records.RolledPastWindowExample | task.py:85-89 | as of 31 December 2023 that rolled date is 8 days ahead and is not reported |
| Records.PhoneValuesAppend | task.py:232 | listing the values of the phones with one appended lists that value last |
| Records.DetailsAreOneLine | task.py:104-105 | the phones and birthday part of the rendering of a valid contact has no line break |
| Records.RenderIsOneLine | task.py:103-105 | the rendering starts with "Contact name: " and the name, and has no line break unless the name has one |
| Records.Record.constructor | task.py:38-41 | a new record has the name, no phones and no birthday |
| Records.Record.AddPhone | task.py:43-48 | the record's new value is `AddPhoneTo` of the old one, or it raised and is unchanged |
| Records.Record.RemovePhone | task.py:50-55 | the record's new value is `RemovePhoneFrom` of the old one, or it raised and is unchanged |
| Records.Record.EditPhone | task.py:57-66 | the record's new value is `EditPhoneIn` of the old one, or it raised and is unchanged |
| Records.Record.FindPhone | task.py:68-72 | returns a phone if and only if one is equal, and then the first one equal; changes nothing |
| Records.Record.AddBirthday | task.py:97-101 | the record's new value is `SetBirthday` of the old one, or it raised and is unchanged |
| Records.Record.GetUpcomingBirthdays | task.py:74-95 | the loop-based computation, with today passed in, returns `UpcomingBirthdays` of the record |
| Book.KeysAfterDelete | task.py:114 | deleting a key keeps exactly the other keys |
| Book.DeleteCutsOut | task.py:114 | deleting the key at position i gives the keys before i followed by the keys after i, so the other keys keep their insertion order |
| Book.DeleteAbsentKey | task.py:113-117 | deleting an absent key leaves the order as it was |
| Book.DeleteKeepsDistinct | task.py:114 | deleting keeps keys distinct and removes exactly one entry when the key is present |
| Book.PutKeepsDistinct | task.py:110 | storing keeps keys distinct |
| Book.DeleteThenPutMovesToEnd | task.py:110-114 | overwriting a present key keeps its position; deleting and re-adding it moves it to the end, the other keys keeping their order |
| Book.PutStores | task.py:109-110 | `add_record` stores the record under its own name, replacing any earlier one, and changes no other name |
| Book.DeleteRemoves | task.py:112-117 | `delete_record` removes that name only; deleting an absent name changes nothing |
| Book.PutUnchanged | task.py:110 | storing the record a name already holds changes nothing |
| Book.AddressBook.constructor | task.py:108 | a new book is empty |
| Book.AddressBook.AddRecord | task.py:109-110 | the book's new value is `Put` of the old one, and the map points the name at that very record |
| Book.AddressBook.FindRecord | task.py:119-120 | returns the record stored under the name, or null exactly when there is none |
| Book.AddressBook.DeleteRecord | task.py:112-117 | the book's new value is `Delete` of the old one; the message is "Record removed successfully." exactly when the name was present, and "Record not found." otherwise |
| Book.AddressBook.RemovePresent | task.py:113-114 | `del self.data[name]` for a present name: the new value is `Delete` of the old one |
| Handlers.InputError | task.py:131-141 | a returned text passes through; `KeyError`, `ValueError(m)` and `IndexError` become "KeyError", "ValueError: m" and "IndexError" |
| Handlers.AddContactSpec | task.py:193-206 | fewer than two arguments changes nothing; otherwise only the named entry changes and the key order is that of storing the name |
| Handlers.AddContactEffect | task.py:194-206 | a valid phone is appended at the end, duplicates allowed; an invalid one raises "Error adding phone: …" after an unknown name was already stored without phones; the birthday is kept; the message is "Contact added." or "Contact updated." |
| Handlers.FindOrCreate | task.py:198-203 | the record under the name, created empty and stored only when the name was absent; no other entry changes |
| Handlers.AddContact | task.py:193-206 | the text and the new book are those `AddContactSpec` gives, through `input_error` |
| Handlers.ChangeContactSpec | task.py:209-222 | the book changes only by a successful update, which answers "Phone number updated for <name>."; fewer than two arguments answers "Not enough arguments. Please provide both name and new phone number." and an unknown name "Record not found.", both with no change; more than two arguments raises the unpacking `ValueError` with no change |
| Handlers.ChangeContactEffect | task.py:210-222 | only the first phone is replaced, by the filtered new number; no phones raises `IndexError`; an invalid number answers "Error: Error: …" and changes nothing |
| Handlers.ChangeContact | task.py:209-222 | the text and the new book are those `ChangeContactSpec` gives, through `input_error` |
| Handlers.AddBirthdaySpec | task.py:144-161 | the book changes only by a successful addition, which answers "Birthday added successfully for <name>." |
| Handlers.AddBirthdayNeverOverwrites | task.py:145-161 | a set birthday is never changed; the only change gives a contact without a birthday the parsed date; the already-exists, not-found and too-many-arguments cases change nothing |
| Handlers.AddBirthdayTooFewArguments | task.py:146-147 | fewer than two arguments answers "Not enough arguments. Please provide both name and birthday (DD.MM.YYYY)." and changes nothing |
| Handlers.AddBirthdayInvalidDate | task.py:155-159 | an invalid date for a contact without a birthday answers "Error adding birthday: " twice, then "Invalid date format. Use DD.MM.YYYY", and changes nothing |
| Handlers.AddBirthday | task.py:144-161 | the text and the new book are those `AddBirthdaySpec` gives, through `input_error` |
| Handlers.ShowBirthday | task.py:164-173 | no arguments raises `IndexError`; a known name with a birthday answers "<name>'s birthday: <text>"; one without answers "<name> has no birthday information."; an unknown name answers "Record not found." |
| Handlers.ShowPhones | task.py:225-235 | never raises; no arguments answers "Not enough arguments. Please provide a name."; an unknown name answers "Record for <name> not found."; a known one lists its phone values joined by ", ", in order |
| Handlers.AddBirthdayThenShow | task.py:144-173 | `add_birthday` on a contact without a birthday, then `show_birthday`, shows the text just given |
| Handlers.AddContactThenShowPhones | task.py:193-235 | `add` with a valid number, then `phone`, lists the earlier phones followed by the new one |
| Handlers.Lines | task.py:241 | one line per record |
| Handlers.ShowAll | task.py:238-243 | the text is "Address book is empty." exactly when the book is empty |
| Handlers.LineNamesRecord | task.py:241 | each line starts with "<name>: Contact name: <name>" and has no line break unless the name has one |
| Handlers.ShowAllLines | task.py:238-243 | when no name has a line break, splitting the listing at line breaks gives one line per record, in insertion order |
| Handlers.Projections | task.py:179-181 | the projections of the records, in insertion order |
| Handlers.EntryLines | task.py:184-185 | one line per collected entry |
| Handlers.BirthdaysTextLines | task.py:187-190 | with entries, the text is the header line followed by one line per entry, in order |
| Handlers.GatherStep | task.py:178-181 | one more step of the collecting loop extends the list, or propagates the first error |
| Handlers.GatherFailurePersists | task.py:178-181 | once a projection raised, the whole collection raises that error |
| Handlers.GatheredEntries | task.py:178-181 | collecting succeeds if and only if every projection succeeds; it then holds exactly their entries, at most one per record |
| Handlers.GatherError | task.py:178-181 | a failed collection carries the error of one of the projections |
| Handlers.BirthdaysReport | task.py:176-190 | `birthdays` raises if and only if some record's projection raises; otherwise it reports exactly the entries of the records' projections, and with none it answers "No upcoming birthdays in the next 7 days." |
| Handlers.LeapDayBirthdayRaises | task.py:176-190 | a contact born on 29 February makes `birthdays` raise in a common year; before 9999 the text is that of the day error |
| Handlers.ProjectRecord | task.py:179-181 | the `if record.birthday:` step for the i-th record yields that record's projection |
| Handlers.CollectUpcoming | task.py:178-181 | the collecting loop returns the gathering of the projections in insertion order |
| Handlers.Birthdays | task.py:176-190 | the text is `input_error` of the `birthdays` specification |
| Handlers.ParseInput | task.py:261-265 | every item is a non-empty run of non-whitespace characters |
| Handlers.ParseInputRoundTrip | task.py:261-265 | words joined by single spaces parse back into the same words; a blank line parses into none |
| Text.WordsOfJoin | task.py:263 | `" ".join(ws).split() == ws` for words without whitespace |
| Text.BlankHasNoWords | task.py:263 | `s.split()` is empty exactly when `s` is all whitespace |
| Text.SplitOfJoin | task.py:241 | pieces without the separator, joined by it, split back into the same pieces |
| Text.JoinAvoids | task.py:104 | a character in neither the separator nor the pieces is not in the join |

## Left out

- The `main` loop, `input()` and the command dispatch (task.py:269-306) are console I/O and are not modelled. Its crash on an empty line belongs to the loop.
- `save_data` and `load_data` (task.py:246-257) are not modelled: they are pickle file I/O.
- `show_all_records` (task.py:122-128) only prints and is not modelled. For a non-empty book it prints the header "All records in the address book:", which `show_all` does not return, followed by the lines `show_all` returns.
- `print` in `delete_record` is modelled as the returned `message`.
- `datetime.today()` (task.py:76) reads the clock. `today` is a parameter instead, and `birthdays` uses one `today` for every record.
- `strptime` leniency is not modelled. Python also accepts one-digit day or month fields, a space before a one-digit day, and non-ASCII digits. The model accepts only `DD.MM.YYYY` with ASCII digits.
- `str.isdigit` and `str.split()` are modelled on ASCII only: ASCII digits, and the ASCII whitespace set.
- `strftime("%Y")` is modelled as the year zero-padded to four digits. The platform's `strftime` may not pad years below 1000. A congratulation date always falls in today's year or the next one.
- Handlers.DateErrorMessage: the texts of `date.replace` errors ("day is out of range for month", "year N is out of range") and of the tuple-unpacking error (`UNPACK_MESSAGE`, "too many values to unpack (expected 2)") come from the Python runtime, not from the source. They follow CPython with its C `datetime` module; the pure-Python `datetime` words the date errors differently. Contracts that state these texts: `Handlers.AddBirthdayNeverOverwrites` and `Handlers.ChangeContactSpec` (the unpacking text for more than two arguments) and `Handlers.LeapDayBirthdayRaises` (the day-out-of-range text, which `Handlers.Birthdays` then shows as "ValueError: day is out of range for month").
- Records.Record.EditPhone: the source updates the `Phone` object inside the list in place (`p.value = …`). The model replaces the list element by a new value. `find_phone` (task.py:71) returns the stored object itself, so a caller that kept it would see the edit; nothing in the program keeps what `find_phone` returns, so no one observes the difference.
- Python exceptions outside `input_error`'s three kinds are not modelled. `OverflowError` cannot arise, because the weekend roll never passes 9999-12-31.
