# calendar_bot — a verified model of the event store and its validators

`calendar_bot.py` is a Discord bot that keeps a calendar of events in a
SQLite table `events(event_name, event_date, event_time, contact)`. Users
drive it with commands:

- `.add_event <name> <date> <time> <contact>` adds an event;
- `.update_event <name> field=value ...` changes fields of an event;
- `.delete_event <name>` and `.view_event <name>` remove or show one;
- `.calendar [-a|-w|-m]` lists all events, or those of the current week or month;
- `.clear_events` empties the calendar.

Dates are typed as `MM/DD/YYYY`, with `-` and `/` interchangeable. Times are
typed as `H:MM` or `HH:MM` followed by `AM`/`PM` in any case, and stored as
the canonical text `H:MM AM|PM`.

This project models that logic in Dafny, with these choices:

- The SQLite table is a sequence of `Event` records. `COLLATE NOCASE` is an
  ASCII lower-case comparison. `fetchone` is the first match in store order.
- The clock (`date.today()`, `datetime.now()`) is a `today` parameter.
- Every handler is a pure function from the store and its arguments to the
  new store and a reply or error. A refused command leaves the store as it
  was.

Modules, one per file:

- `Wrappers`: `Option` and `Result`.
- `Text`: digits, case folding, `str.split`, `str.replace`.
- `Dates`: the proleptic Gregorian calendar, Python's `toordinal`/`weekday`
  and `timedelta` steps, with the range 0001-01-01 .. 9999-12-31.
- `Validators`: `validate_time_format` and `validate_date_format`.
- `Events`: the record, the errors, the case-insensitive lookup, and the
  store invariant `Consistent`. `Consistent` means names are unique ignoring
  case and every stored date is real.
- `UpdateTokens`: the `field=value` grammar of `update_event` and its merge
  rule.
- `CalendarRange`: the option check, the week and month ranges, and range
  selection.
- `Handlers`: the six commands. Update, delete and the monthly listing are
  given twice, once as the script is written and once corrected (the
  `AsWritten` members), because the script as written departs from what it
  evidently means; see Findings. Add, view and clear are given once.
- `Scenarios`: concrete runs, including a witness for each finding.

## Model

| member | source | states |
|---|---|---|
| Validators.ParseTime | calendar_bot.py:83-89 | accepts exactly the inputs that fully match one or two digits, `:`, two digits and `AM` or `PM` in any case, with hour 1..12 and minute 0..59; the result is the hour, minute and period of the match |
| Validators.ValidateTime | calendar_bot.py:81-94 | returns a value exactly when the input fully matches the pattern with hour 1..12 and minute 0..59; the value is the canonical text of the input's own hour, minute and period: hour without leading zero, two-digit minute, one space, upper-case period |
| Validators.ParseCompact | calendar_bot.py:83-92 | the canonical text of any valid time, without its space, parses back to that time |
| Validators.FormatTimeRoundTrip | calendar_bot.py:91-92 | removing the space from the canonical text `FormatTime` writes and parsing gives the same time back |
| Validators.ValidateTimeIdempotent | calendar_bot.py:83-92 | validating an accepted result with its space removed gives the same result again |
| Validators.ValidateTimeIgnoresCase | calendar_bot.py:83-87 | two inputs that differ only in letter case validate to the same result |
| Validators.ValidateTimeLeadingZero | calendar_bot.py:83-85 | a leading zero before a one-digit hour changes nothing (`09:05pm` and `9:05pm` validate alike) |
| Validators.MonthField | calendar_bot.py:77 | accepts exactly the `%m` forms (`10`-`12`, `01`-`09`, `1`-`9`) and reads their value |
| Validators.DayField | calendar_bot.py:77 | accepts exactly the `%d` forms (`30`, `31`, `10`-`29`, `01`-`09`, `1`-`9`, and a space before `1`-`9`) and reads their value |
| Validators.ValidateDate | calendar_bot.py:74-79 | an accepted input is three `/`-separated fields, once `-` became `/`, matching `%m`, `%d` and `%Y`; the result is a real calendar date |
| Validators.ValidateDateOfFields | calendar_bot.py:74-79 | three separator-free fields joined by any mix of `-` and `/` validate exactly when each matches its pattern and the date they spell exists, and then to that date |
| Validators.ValidateDateSeparators | calendar_bot.py:76 | turning every `/` into `-` does not change the result |
| Validators.LeapDay | calendar_bot.py:77 | `02/29/YYYY` validates exactly in leap years |
| Validators.PaddedMonth | calendar_bot.py:280-281 | a month written with two digits by `strftime` matches `%m` and reads back as the same month |
| Validators.PaddedDay | calendar_bot.py:280-281 | a day written with two digits matches `%d` and reads back as the same day |
| Validators.FormatDateRoundTrip | calendar_bot.py:280-281 | a date written as `%m/%d/%Y`, with either separator, validates back to the same date |
| Text.Split | calendar_bot.py:152 | `str.split`: at least one field, no field contains the separator, and joining the fields gives the input back |
| Text.SplitFields | calendar_bot.py:152-158 | the split has one field exactly when the separator is absent; field 0 is the text before the first separator, and the rest is the split of what follows it |
| Dates.Weekday | calendar_bot.py:272 | Python's `weekday()` is a number from 0 (Monday) to 6 |
| Dates.WeekdayCycle | calendar_bot.py:272 | 0001-01-01 is a Monday and each next day has the next weekday, wrapping from Sunday to Monday |
| Dates.DaysInMonth | calendar_bot.py:77 | 28 to 31 days, and 29 exactly for February of a leap year |
| Dates.OrdinalOrder | calendar_bot.py:116 | Python's date comparison (year, then month, then day) agrees with the day number, and equal day numbers mean equal dates |
| Dates.NextDay | calendar_bot.py:273 | the next day has the next day number, and is a real date exactly when the day is not 9999-12-31 |
| Dates.PrevDay | calendar_bot.py:277 | the day before (any day but 0001-01-01) is real, has the previous day number, and its next day is the given day |
| Dates.AddDays | calendar_bot.py:273 | `d + timedelta(days=n)` exists exactly when the day number stays within 9999-12-31, and then has day number `Ordinal(d) + n` |
| Dates.SubtractDays | calendar_bot.py:272 | `d - timedelta(days=n)` exists exactly when `n` is below the day number, and then has day number `Ordinal(d) - n` |
| Events.Find | calendar_bot.py:120-121 | the lookup finds a record exactly when some name equals the argument ignoring case, and then the first such record |
| Events.FindUnique | calendar_bot.py:119-122 | in a store with unique names, every record matching a name is the found one |
| UpdateTokens.TokenParts | calendar_bot.py:152-158 | for `k=v` with no `=` in `k` or `v`, the field is `k` and the value is `v` |
| UpdateTokens.ApplyToken | calendar_bot.py:151-172 | one token: a token with no `=` or an unknown field is a usage error; a `date` value that does not validate is refused as a bad date and a `time` value as a bad time; otherwise the named field takes the value |
| UpdateTokens.CollectPatchSpec | calendar_bot.py:151-172 | the token loop `CollectPatch` succeeds exactly when every token is well formed, and then each field holds the value of the last token naming it |
| UpdateTokens.CollectPatchFirstError | calendar_bot.py:151-172 | the token loop stops at the first token that is not well formed and reports that token's error |
| UpdateTokens.MergeTokens | calendar_bot.py:174-181 | after the fallbacks (`Merge`), the record is `Expected`: a field left unnamed or given the empty value keeps its stored value, and otherwise takes the last value supplied for it |
| CalendarRange.ParseOption | calendar_bot.py:255-262 | no option, the empty text or `-a` lists everything; `-w` and `-m` select the week and the month; any other text is a usage error |
| CalendarRange.WeekRange | calendar_bot.py:271-273 | the start is the Monday on or before today, at most six days back, and the end is six days after it; it fails, as a date overflow, exactly when that Monday plus six days passes 9999-12-31, which can happen only in December 9999 |
| CalendarRange.MondayStart | calendar_bot.py:272 | stepping back by today's weekday stays in range and lands on a Monday |
| CalendarRange.WeekEndOverflow | calendar_bot.py:273 | the Sunday can overflow only when today is in December 9999 |
| CalendarRange.WeekRangeExact | calendar_bot.py:271-273 | a real date lies in the week range exactly when it is in today's Monday-to-Sunday week |
| CalendarRange.MonthRange | calendar_bot.py:276-277 | the range runs from the 1st to the month's true last day, and a real date lies in it exactly when it is in today's month |
| CalendarRange.MonthRangeAsWritten | calendar_bot.py:276-277 | as written, the range fails exactly in December (month 13); in every other month it is the corrected range |
| CalendarRange.EventsWithin | calendar_bot.py:285-289 | a record is selected exactly when it is in the store and its date lies in the range, and it occurs in the selection as many times as in the store |
| Handlers.AddEvent | calendar_bot.py:101-134 | a wrong argument count is a usage error; then a date or time that does not validate is refused as bad format, then a past date as past, then a name on record ignoring case as a duplicate; otherwise the add succeeds and the store grows by exactly that record with the canonical date and time; any failure keeps the store |
| Handlers.AppendConsistent | calendar_bot.py:119-128 | appending a record whose name is free and whose date is real keeps names unique and dates real |
| Handlers.UpdateAt | calendar_bot.py:149-191 | once the record is found, the update succeeds exactly when the tokens are well formed and no other record has the new name; a bad token is refused with the token loop's error, a taken name as a duplicate; on success only that record changes, to `Expected` |
| Handlers.UpdateEvent | calendar_bot.py:138-199 | usage error outside 2..4 arguments, not found when no name matches, the token loop's error for a bad token, and a duplicate when another record has the new name; on success the found record becomes `Expected` (last token per field wins, empty values keep the stored value) and every other record is untouched; the invariant is kept |
| Handlers.ReplaceConsistent | calendar_bot.py:185-191 | replacing a record by one whose name no other record has and whose date is real keeps the invariant |
| Handlers.WriteAsWritten | calendar_bot.py:185-191 | the row write as written hits only rows named exactly as typed, and puts the contact into their time column while their contact stays |
| Handlers.UpdateAsWritten | calendar_bot.py:138-199 | as written, the update succeeds exactly when the argument count, the lookup and the tokens are good, and its store is `WriteAsWritten` of the merged record; every refusal is the corrected update's refusal, with the same error and the store kept |
| Handlers.RenameClashAsWritten | calendar_bot.py:159-191 | as written, renaming the found record onto another record's name succeeds and leaves two records of one name |
| Handlers.RemoveConsistent | calendar_bot.py:219 | removing one record keeps the invariant, and in a consistent store no record of its name is left |
| Handlers.DeleteEvent | calendar_bot.py:207-222 | an empty name is a usage error and a name not on record ignoring case is not found, both keeping the store; a delete succeeds exactly for a non-empty name on record, and then removes that record alone |
| Handlers.RemoveNamed | calendar_bot.py:219 | `DELETE ... WHERE event_name=?` keeps exactly the records whose name differs from the argument, case-sensitively, each as many times as it occurs in the store |
| Handlers.DeleteAsWritten | calendar_bot.py:207-222 | as written, the delete reports success exactly when the name is on record ignoring case, but removes only the records named exactly as typed; every refusal is the corrected delete's refusal |
| Handlers.ViewEvent | calendar_bot.py:229-245 | a view never changes the store; an empty name is a usage error and a name not on record is not found; otherwise it shows the first record whose name matches ignoring case, as `fetchone` does, which is the only match in a store with unique names |
| Handlers.FoundIsOnly | calendar_bot.py:234-239 | in a store with unique names, the record a lookup finds is the only match |
| Handlers.ShowCalendar | calendar_bot.py:252-294 | the listing with its month range corrected: the store never changes; a bad option is a usage error; the whole calendar is the store itself; a week or month listing holds exactly the stored records of that week or month, each as many times as it occurs in the store; the week or month listing succeeds exactly when some stored record falls in that week or month, and otherwise is refused as empty; the only other refusal is a week that runs past 9999-12-31 |
| Handlers.ShowCalendarAsWritten | calendar_bot.py:276-277 | as written, the month listing fails in December whatever the store holds; with every other option, or in any other month, it is the corrected listing |
| Handlers.Listing | calendar_bot.py:293-294 | a listing succeeds exactly when it has records, and then shows them; an empty one is refused as empty |
| Handlers.ClearEvents | calendar_bot.py:313-319 | the store becomes empty and the command never fails |
| Handlers.ClearLeavesNothing | calendar_bot.py:316-318 | after a clear, no name is found and the calendar has no events |
| Handlers.Dispatch | calendar_bot.py:100-319 | with the corrected update, delete and month listing, every command keeps names unique and dates real, and a refused command keeps the store |
| Handlers.RunConsistent | calendar_bot.py:119-122 | with the corrected update and delete, names stay unique ignoring case and dates stay real across any sequence of commands run one after another (`Run`) |
| Scenarios.TimesRefused | calendar_bot.py:83-89 | `13:00AM`, `0:30PM` and `9:05 PM` are refused |
| Scenarios.LeadingZeroHour | calendar_bot.py:83-92 | `01:05pm` validates to `1:05 PM` |
| Scenarios.February29Common | calendar_bot.py:77 | `02/29/2023` is refused |
| Scenarios.Month13 | calendar_bot.py:77 | `13/01/2024` is refused |
| Scenarios.AddStandup | calendar_bot.py:101-130 | adding to an empty calendar stores exactly the record with the canonical date and time |
| Scenarios.AddDuplicate | calendar_bot.py:119-122 | adding `standup` when `Standup` is on record is refused as a duplicate and keeps the store |
| Scenarios.UpdateTimeOnly | calendar_bot.py:149-181 | the corrected update of the time alone changes the time and nothing else |
| Scenarios.UpdateAsWrittenOverwritesTime | calendar_bot.py:185-191 | as written, the same update writes the contact into the time column |
| Scenarios.UpdateAsWrittenIgnoresCase | calendar_bot.py:144-191 | as written, an update typed in another case reports success and changes no row; the corrected update changes the record |
| Scenarios.UpdateAsWrittenDuplicatesName | calendar_bot.py:159-191 | as written, renaming `Retro` to `STANDUP` leaves two records of one name |
| Scenarios.UpdateRefusesDuplicateName | calendar_bot.py:159-191 | the corrected update refuses that rename as a duplicate |
| Scenarios.DeleteAsWrittenIgnoresCase | calendar_bot.py:213-222 | as written, deleting `standup` reports success and removes nothing; the corrected delete removes the record |
| Scenarios.DeleteMissing | calendar_bot.py:213-216 | deleting a name not on record is refused and keeps the store |
| Scenarios.DecemberMonth | calendar_bot.py:276-277 | as written, the monthly range fails on 2026-12-10; the corrected range is December 1 to 31 |
| Scenarios.DecemberListing | calendar_bot.py:276-294 | on 2026-12-10 with a Christmas Eve party on record, `.calendar -m` as written fails, and the corrected listing shows the party |
| Scenarios.WeekExample | calendar_bot.py:271-273 | the week of Saturday 2026-10-10 runs from Monday 10-05 to Sunday 10-11 |

## Left out

- Discord transport and presentation: bot setup, the welcome message,
  embeds, `ctx.send`, the usage and `num_events` commands and `exit`. They are
  I/O with no state to reason about. Replies are the `Reply` and `Error`
  datatypes instead of message text.
- The global `num_events` counter. The count of events is `|store|`. The
  counter itself can drift from the table, because delete decrements it even
  when nothing was removed, so no claim ties the two.
- `WHERE event_date BETWEEN ? AND ?` (calendar_bot.py:285-288) compares
  text. Python's default `sqlite3` adapter stores a `date` as `YYYY-MM-DD`
  text, and the bounds are `MM/DD/YYYY` text. For years from 2000 on, the
  stored text starts with a digit from `2` to `9` and each bound starts with
  `0` or `1`, so no
  stored date lies between the bounds: the `-w` and `-m` listings as written
  come back empty. The model selects by date range instead
  (`CalendarRange.EventsWithin`), which is what the query evidently means.
- `datetime.now()` carries a time of day. Only its date part is modelled,
  because the week and month bounds are written with `%m/%d/%Y`.
- Unicode digits (which Python's `\d` and `strptime` also accept) and locale
  effects on `strptime`. Digits are ASCII `0`-`9`.
- The missing `await` on `view_event`'s error reply (calendar_bot.py:248).
  It only changes whether the error text is shown; the store outcome is
  modelled.
- Listing order: the queries have no `ORDER BY`, so listings come in store
  order and the model sorts nothing. The month range ends on the month's
  true last day, as the script computes it.
- Validators.ValidateDate: its own contract states only the direction
  "accepted ⇒ three matching fields naming a real date". The converse, for
  text made of three separator-free fields, is `ValidateDateOfFields`.
- Validators.FormatDateRoundTrip: the year is padded to four digits. The C
  library's `strftime('%Y')` may write years below 1000 without padding; the
  model does not follow that.
- Handlers.ShowCalendar: the week and month membership clauses assume every
  stored date is real (`DatesValid`). Every command keeps that true.

## Findings

| source | as written | input that shows it | evidently intended | confidence | as-written member | corrected member |
|---|---|---|---|---|---|---|
| calendar_bot.py:188 | `SET event_name=?, event_date=?, event_time=?, event_time=?` with (name, date, time, contact): SQLite keeps the rightmost assignment, so the time column gets the contact and the contact column is never written | `.update_event Standup time=10:30AM` on `Standup, 01/10/2030, 9:00 AM, Alice` leaves time `Alice` | the last assignment is `contact=?` | not executed | Scenarios.UpdateAsWrittenOverwritesTime | Handlers.UpdateEvent |
| calendar_bot.py:189 | the write matches `event_name=?` case-sensitively after a `NOCASE` lookup found the record | `.update_event standup contact=Bob` with `Standup` on record reports success and changes no row | update the record the lookup found | not executed | Scenarios.UpdateAsWrittenIgnoresCase | Handlers.UpdateEvent |
| calendar_bot.py:219 | `DELETE ... WHERE event_name=?` is case-sensitive after a `NOCASE` lookup | `.delete_event standup` with `Standup` on record reports a deletion and removes nothing | delete the record the lookup found | not executed | Handlers.DeleteAsWritten | Handlers.DeleteEvent |
| calendar_bot.py:277 | `today.replace(day=1, month=today.month+1)` | `.calendar -m` on 2026-12-10: month 13 raises and the listing fails | the last day of December is the 31st | not executed | Handlers.ShowCalendarAsWritten | Handlers.ShowCalendar |
| calendar_bot.py:159-160 | `name=` sets the new name with no duplicate check, unlike `add_event` (calendar_bot.py:119-122) | `.update_event Retro name=STANDUP` with `Standup` on record leaves two records of one name | refuse a new name another record has | not executed | Handlers.RenameClashAsWritten | Handlers.UpdateEvent |
