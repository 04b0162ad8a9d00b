# Birthday Bot — verified model of its core

Birthday Bot is a Discord bot. Users register a birthday with `/setbirthday`,
read it back with `/mybirthday` and delete it with `/removebirthday`. An
hourly task messages every user whose stored date is today's date. Each
message carries a "historical fact" about the date, fetched from the numbers
service, with two fixed fallback sentences for when the fetch fails.

This project models the logic of `bot.py` around the Discord and HTTP glue.
It has four modules:

- `Text` (Text.dfy) holds the Python runtime behaviour the bot relies on:
  decimal rendering of integers (`f"{n}"`), `int(s)` on digit strings, and
  `str.split`. It proves round trips between them.
- `Dates` (Dates.dfy) covers `is_valid_date`, `format_date` and
  `get_today_date`.
  - The regular expression `^(0?[1-9]|1[0-2])[/-](0?[1-9]|[12][0-9]|3[01])$`
    is the predicate `IsValidDate`, which tries the two lengths the month
    group can take. It is proved equal to the pattern's language stated
    with an arbitrary split point. The month and day groups are proved to
    be exactly the one- or two-digit spellings of 1 to 12 and 1 to 31.
    Python's `$` accepts one final newline, and so does the model.
  - `get_today_date` is `TodayString(month, day)`, with the clock's month
    and day as inputs.
  - Dates match with string equality. The model proves that a valid date
    equals some `month/day` rendering of today exactly when it is
    canonical: `/` as separator, no leading zero, no trailing newline.
- `Facts` (Facts.dfy) covers `get_historical_fact` as the function
  `HistoricalFact`. The HTTP exchange is an input (`fetch`), a function from
  the request URL to a status and body, or to an exception.
- `Birthdays` (Birthdays.dfy) holds the store and the scheduler.
  - The store is a class `BirthdayStore`. Its field `birthdays` is the
    in-memory map from user id to `{date, username}`. Its field `saved` is
    the map that `save_birthdays` last wrote.
  - The three commands are methods. Their contracts state which key
    changes and what is saved. Whether `save_birthdays` succeeds is the
    input `saveOk`. When it raises, the map has already changed, the file
    keeps its old contents and no reply is sent.
  - `Due` is the selection `birthday_data['date'] == today_str`, and
    `Notify` is `send_birthday_message` for one user.
  - `CheckBirthdays` is one pass of the hourly loop, and it is proved
    against the set of due users.

The command's help text asks for "MM/DD", but a stored date is the
validated input with only `-` replaced. So `03/15` and `3/15` followed by a
newline are stored verbatim, and neither ever equals `get_today_date()`,
which pads nothing. `LeadingZeroNeverToday` and `DueRecordsAreCanonical`
state this. The code never validates what it loads from the file, so the
store keeps `WellFormed` (every date valid and formatted) only when it
started well-formed. The lemmas about the scheduler therefore assume
nothing about the store: a record is due only if it equals today's string,
and that string is always a canonical stored date.

## Model

| member | source | states |
|---|---|---|
| `Text.NatToString` | bot.py:48 | `f"{n}"` renders a natural number as a non-empty run of digits with no leading zero (it starts with `0` only for `0` itself) |
| `Text.ParseInt` | bot.py:140 | `int(s)` succeeds exactly on non-empty ASCII digit strings |
| `Text.ParseNatToString` | bot.py:48 | `int` reading back what `f"{n}"` wrote gives `n` |
| `Text.NatToStringParse` | bot.py:140 | rendering the value of a digit string with no leading zero gives the same string back |
| `Text.Split` | bot.py:137 | `split('/')` returns one more piece than the string has separators, and no piece contains the separator |
| `Text.JoinSplit` | bot.py:137 | joining the pieces of `split` with the separator rebuilds the string |
| `Text.SplitAtSeparator` | bot.py:137 | a string with exactly one separator splits into the two sides of it, so `month, day = ...` unpacks |
| `Dates.MonthTextIsMonthNumber` | bot.py:38 | the pattern's month group matches a text exactly when it is one or two digits whose value is 1 to 12 |
| `Dates.DayTextIsDayNumber` | bot.py:38 | the pattern's day group matches a text exactly when it is one or two digits whose value is 1 to 31 |
| `Dates.ValidDateGrammar` | bot.py:37-39 | `IsValidDate(s)`, the model of `is_valid_date(s)`, holds exactly when `s` is a month (`1`-`9`, `01`-`09`, `10`-`12`), `/` or `-`, a day (`1`-`9`, `01`-`09`, `10`-`29`, `30`, `31`) and at most one final newline |
| `Dates.ValidationAccepts` | bot.py:37-39 | `12/25`, `3-15` and `2/30` (no days-per-month check) are in the pattern's language |
| `Dates.ValidationAcceptsUnusualSpellings` | bot.py:37-39 | so are `03/15` (leading zero) and `3/5` followed by one newline |
| `Dates.ValidationRejectsOutOfRange` | bot.py:37-39 | `13/01`, `0/5` and `3/32` are not |
| `Dates.ValidationRejectsMalformed` | bot.py:37-39 | two trailing newlines, `3.15` and `1/1/1` are not |
| `Dates.SeparatorIndex` | bot.py:38 | a valid date has exactly one separator, at index 1 or 2, right after the month group |
| `Dates.MonthOf` | bot.py:140 | `int(month)` of a valid date's month text is between 1 and 12 |
| `Dates.DayOf` | bot.py:38 | the day text of a valid date reads as a number between 1 and 31 |
| `Dates.FormatDate` | bot.py:42-43 | `replace('-', '/')` keeps the length and leaves no `-` |
| `Dates.FormatDateAt` | bot.py:42-43 | each `-` becomes `/` and every other character stays as it was, position by position |
| `Dates.FormatAtOnePosition` | bot.py:42-43 | on a string whose only possible `-` is at one position, formatting rewrites that position and copies the rest |
| `Dates.FormatDateFixesDashFree` | bot.py:42-43 | a string without `-` is unchanged by `format_date` |
| `Dates.FormatDateIdempotent` | bot.py:42-43 | formatting twice is formatting once |
| `Dates.FormatReplacesSeparator` | bot.py:74 | on a valid date, formatting replaces the separator with `/`, and the text on either side holds no other `/` |
| `Dates.FormattedStaysValid` | bot.py:74 | formatting a valid date keeps it valid, with the separator, month text, day text and any trailing newline in place |
| `Dates.FormatValidDate` | bot.py:42-43 | on a valid date, formatting gives a valid date with exactly one `/`, equal to the input with its separator replaced, with the same month and day text |
| `Dates.TodayStringIsStoredDate` | bot.py:46-48 | `TodayString` models `get_today_date`: for month 1-12 and day 1-31, `f"{month}/{day}"` is a valid, already formatted, canonical date whose month and day read back as `month` and `day` |
| `Dates.TodayMatchIsCanonical` | bot.py:46-48 | a valid date equal to `f"{month}/{day}"` is canonical and names that month and day |
| `Dates.CanonicalIsTodayString` | bot.py:46-48 | a canonical valid date is `f"{month}/{day}"` of its own month and day |
| `Dates.LeadingZeroNeverToday` | bot.py:46-48 | a valid date with a leading zero in the month or the day never equals today's string, on any day |
| `Facts.DayPart` | bot.py:137 | the text after a stored date's separator is its day, possibly followed by the one newline the pattern admits |
| `Facts.StoredDateSplits` | bot.py:137 | a stored date splits on `/` into exactly its month text and its day part |
| `Facts.StoredDateFact` | bot.py:134-153 | `HistoricalFact` models `get_historical_fact`. For a stored date, `month_names[int(month)]` is in bounds and is not the empty entry. The fact is the body on status 200, the "On {month_name} {day}, history was made" sentence on any other status, and the generic sentence when the request raises |
| `Facts.TodayStringFact` | bot.py:144-150 | on today's own date string the request goes to `/{month}/{day}/date` with today's numbers, and the non-200 sentence names `month_names[month]` and the day |
| `Facts.FallbackExample` | bot.py:149-150 | on `6/1` with a non-200 answer the fact is the sentence about "June" "1", not the service's body |
| `Birthdays.BirthdayStore.constructor` | bot.py:34 | the store starts from the map loaded from the file, and the saved map equals it |
| `Birthdays.BirthdayStore.SetBirthday` | bot.py:66-87 | an invalid date gives `InvalidDate` and changes neither the map nor the saved file. A valid one maps `user_id` to `{format_date(date), display_name}`, overwriting any earlier record. If the save succeeds, the file holds the whole new map and the reply is the formatted date. If it raises, the file keeps its old contents and no reply is sent. Every other key is unchanged, and a well-formed store stays well-formed |
| `Birthdays.BirthdayStore.MyBirthday` | bot.py:91-103 | read-only: the reply is the stored date exactly when the user has a record, else "not set" |
| `Birthdays.BirthdayStore.RemoveBirthday` | bot.py:107-121 | replies "not set" exactly when the user had no record, and then nothing changes. Otherwise the record is deleted from the map; the reply is `Removed` and the file holds the new map exactly when the save succeeds, and a raising save leaves the file as it was with no reply. Afterwards the user has none, and every other key is unchanged, so a second call reports "not set" |
| `Birthdays.BirthdayStore.CheckBirthdays` | bot.py:125-131 | a pass on the local date `month/day` attempts a notification for exactly the users whose stored date equals `f"{month}/{day}"`, each once. Each attempt is `send_birthday_message` for that user's record, and an unreachable user does not stop the pass |
| `Birthdays.DueRecordsAreCanonical` | bot.py:125-131 | for any store, including one loaded unvalidated, and any day the clock can show, every record that `Due` selects is a valid, canonical date naming today's month and day |
| `Birthdays.LeadingZeroNeverDue` | bot.py:129-130 | `Due` models the selection `birthday_data['date'] == today_str`: a record stored with a leading zero is never selected, whatever the day |
| `Birthdays.CanonicalRecordDueOnItsDay` | bot.py:129-130 | a record with a canonical date is selected exactly on its own month and day |
| `Birthdays.DueNotification` | bot.py:156-187 | `Notify` models `send_birthday_message`. For a due user of any store, the message carries their username and one of three facts: the service's body for `/{month}/{day}/date` on 200, the month-and-day sentence on another status, or the generic sentence on an exception. An unreachable user gets `Failed` |
| `Birthdays.SchedulerExample` | bot.py:125-131 | with today `6/1` and records A on `6/1` and B on `6/2`, only A is due |

`Birthdays.SetAndReloadScenario`, `Birthdays.DashScenario`,
`Birthdays.ValidationScenarios` and `Birthdays.RemoveTwiceScenario` are
client methods. They derive typical command sequences from the contracts
alone: set then read back, reload from the saved map, refusal of `13/01`,
acceptance of `2/30`, and removal twice, even when the first removal's save
raised.

## Left out

- Reading and writing `birthdays.json` (`load_birthdays`, `save_birthdays`, bot.py:18-31) is file I/O. The constructor takes the loaded map as a parameter, and the `saved` field stands for the file's contents after each successful save. Whether a save raises is the parameter `saveOk`. JSON encoding, a partly written file, and a failed load falling back to `{}` are not modelled.
- Discord plumbing is library code: bot setup, `on_ready` with its command sync and task start guard, `on_command_error`, the token from the environment, and the embed layout and texts of the replies. Replies are the datatypes `SetReply`, `LookupReply` and `RemoveReply`. A notification is an `Attempt` carrying the fact, not a rendered embed.
- Resolving and messaging a user (`get_user`, `fetch_user`, `user.send`) is the parameter `reachable`. Every exception that `send_birthday_message` catches, including an id that `int()` cannot read, appears as `Failed`.
- The aiohttp request is the parameter `fetch`, from URL to `HttpOutcome`. A call is a function of its URL, so two requests for the same URL within a pass give the same answer.
- The clock is an input: `CheckBirthdays` takes the local month and day. The hourly `tasks.loop` cadence, async suspension and interleaving between handlers are not modelled. So the repeated notification on every hourly pass of the same day is not modelled either: each pass is independent.
- Birthdays.BirthdayStore.CheckBirthdays: visits the keys in an arbitrary order, not in the dict's insertion order. The set of users notified and each attempt's content are exact; the order of attempts is not.
- Text.ParseInt: accepts only non-empty ASCII digit strings. Python's `int` also accepts surrounding whitespace, a sign, underscores between digits and non-ASCII digits, and Python would index `month_names` with a negative number. These cases only arise for a record that `set_birthday` did not write (a hand-edited file), and there the model takes the exception fallback.
- The broken import `from datetime import datetimea` (bot.py:5) is an import-time defect. `TodayString` models the intended `f"{month}/{day}"`.
- Logging with `print` is not modelled.
