# Reminder core of a to-do Telegram bot, in Dafny

This project models the reminder core of a small Telegram to-do bot written in
Python (`main.py`). The bot's user types `/remind <time> <category> <text>`. The bot
turns the time expression into the next firing instant, stores the reminder in an
SQLite table, and hands the scheduler one job that sends the text at that instant.
The other commands edit, delete or complete a stored reminder by id.

The model has three parts, one module each. Three helper modules sit under them.

- `TimeParse` (`timeparse.dfy`) is `parse_time_input`. It is a pure function of the
  input text and the current Moscow time `now`, which becomes a parameter. It tries
  three grammars in order: a daily `H:MM`, a Cyrillic weekday abbreviation (`пн` … `вс`,
  any case) with a time, and a day of the month with a time. Each branch returns the
  next instant, the descriptor the bot prints (`ежедневно`, `по <abbreviation>`,
  `<day> числа`) and the input as typed. Otherwise it returns the error Python would raise.
- `Store` (`store.dfy`) is the `reminders` table as a `TaskStore` class. It holds the
  rows in insertion order and the AUTOINCREMENT counter. Each store function is one method.
- `Handlers` (`handlers.dfy`) is a `Bot` class holding the store and a ghost list of
  the jobs handed to the scheduler. Its methods are `cmd_remind`, `cmd_edit`,
  `cmd_delete` and the `done_<id>` button callback. Each reply is a datatype value
  naming the message the bot would send.
- The helpers: `Calendar` (`calendar.dfy`) gives proleptic Gregorian dates as Python's
  `datetime` has them: ordinals, weekdays, adding days, and field-by-field comparison
  proved equal to time-line order. `Text` (`text.dfy`) gives the few `str` operations
  the handlers use: `split(sep, maxsplit)`, `strip`, `lower`/`upper`, `int()` and
  `str()`. `Wrappers` (`wrappers.dfy`) gives `Option` and `Result`.
- `ParseExamples` (`parse_examples.dfy`) proves worked instances of the parser at
  fixed clock readings.

Europe/Moscow has had a fixed UTC offset since 2014. So `now` and every result are
naive civil date-times, compared field by field as Python compares them.

Behaviours of the code the model keeps:

- A day of the month that has passed this month and is missing from the next month is
  an error. The `except` branch retries the same impossible date. The code does not
  cascade to a later month.
- `/remind` cuts its arguments at single spaces (`split(" ", 2)`). A weekday or
  day-of-month expression typed with a space therefore never reaches its branch, and
  the command fails with a format error (`Handlers.SpacedFormRejected`).
- Deleting a task does not cancel its job, and the job does not consult the table.
  A deleted task still fires.
- The `done_<id>` callback marks any id done, with no ownership check. An id with no
  row changes nothing.
- The table lives in the file `todo_pro.db` and survives a restart together with its
  AUTOINCREMENT counter; the scheduler lives in memory and starts empty. Rows created
  before the latest start-up have no job. The bot is modelled from one start-up on,
  with whatever valid table the file holds at that moment.

## Model

| member | source | states |
|---|---|---|
| `TimeParse.Body` | main.py:204 | a pattern ending in `$` matches the input less exactly one trailing newline, when the input ends in one, and the whole input otherwise |
| `TimeParse.Replace` | main.py:246-260 | `replace(year, month, day, ...)` succeeds exactly when the date exists with a year up to 9999, and then gives that date at the parsed hour and minute with zero seconds and microseconds |
| `TimeParse.WeekdayIndex` | main.py:213 | `day_map`: exactly the seven abbreviations map to 0..6, Monday first |
| `TimeParse.Strptime` | main.py:205 | `strptime("%H:%M")` only ever yields an hour in 0..23 and a minute in 0..59 |
| `TimeParse.StrptimeOnClock` | main.py:205 | on a `\d{1,2}:\d{2}` text, `strptime` succeeds exactly when hour <= 23 and minute <= 59, reads the digits as written, and fails when a trailing newline is left |
| `TimeParse.WeeklyTokens` | main.py:214-216 | `lower().split()` of a weekly expression gives the abbreviation and the time, separated in the input by whitespace only |
| `TimeParse.MonthlyTokens` | main.py:235-237 | `split()` of a monthly expression gives one or two day digits and the time, separated by whitespace only |
| `TimeParse.WeeklyShapeExact` | main.py:212-216 | every abbreviation, whitespace run and time put together matches the weekly pattern and splits back into those two tokens |
| `TimeParse.MonthlyShapeExact` | main.py:234-237 | every one- or two-digit day, whitespace run and time put together matches the monthly pattern and splits back into those two tokens |
| `TimeParse.DigitFirstNotWeekly` | main.py:212 | a text starting with a digit never matches the weekday pattern |
| `TimeParse.FormsExclusive` | main.py:204-234 | at most one of the three patterns matches any input |
| `TimeParse.ParseDaily` | main.py:204-209 | daily branch: the result is valid, strictly after `now`, at most one day after it, on the parsed hour and minute with zero seconds and microseconds; descriptor `ежедневно`, input kept verbatim; a bad time exactly when `strptime` fails; overflow only on 9999-12-31 |
| `TimeParse.DaysAhead` | main.py:222-226 | `days_ahead` is at most 7 and lands on the target weekday; 0 only when today's time is still ahead; 7 exactly when today is the target and the time has passed |
| `TimeParse.WeeklyOccurrence` | main.py:222-229 | the weekly instant is valid, on the target weekday, strictly after `now`, at most seven days ahead, and exactly seven days ahead when today's time has passed; it is missing only in the last week of 9999 |
| `TimeParse.ParseWeekly` | main.py:212-231 | weekly branch: the result falls on `day_map[abbrev]`, strictly after `now`, at most 7 days ahead, at the parsed time; a passed same-day time rolls exactly 7 days; descriptor `по <abbrev>`; a bad time exactly when `strptime` fails |
| `TimeParse.MonthlyTryCases` | main.py:245-252 | the `try` block keeps this month's date exactly when it exists and is still ahead; otherwise, when it succeeds, it gives the next month's date |
| `TimeParse.MonthlyRetryCases` | main.py:253-260 | the `except` block succeeds exactly when the next month (January of the next year after December) has the day, and then lands on it, after `now` |
| `TimeParse.MonthlyOccurrence` | main.py:245-260 | the `try`/`except` yields no date exactly when this month's occurrence is not ahead and the next month lacks the day; otherwise a valid instant on that day, strictly after `now`, in this month or the next |
| `TimeParse.ParseMonthly` | main.py:234-262 | monthly branch: a day outside 1..31, a bad time and a missing next-month day are each an error in exactly their cases; a result has the requested day, hour and minute, is strictly after `now`, and lies in this month when that occurrence is ahead, else in the next month; descriptor `<day> числа` |
| `TimeParse.MonthlyLandsThisMonth` | main.py:246-247 | when this month's occurrence exists and is ahead, the monthly branch returns exactly it |
| `TimeParse.MonthlyLandsNextMonth` | main.py:247-252 | when this month's occurrence is gone and the next month has the day, the monthly branch returns exactly that day of the next month |
| `TimeParse.ParseTimeInput` | main.py:198-265 | any instant the parser returns is valid, strictly after `now`, on a whole minute, with the input kept verbatim |
| `TimeParse.DailyFormResult` | main.py:204-209 | a daily-shaped input: the result has the hour and minute the input spells, is after `now` and at most a day ahead; a bad-time error exactly when hour > 23, minute > 59 or a newline is left |
| `TimeParse.WeeklyFormResult` | main.py:212-231 | a weekday-shaped input: the result falls on the named weekday at the spelled time, after `now`, at most 7 days ahead, 7 days when today's time passed; a bad-time error exactly when hour > 23 or minute > 59 |
| `TimeParse.MonthlyFormResult` | main.py:234-262 | a day-of-month-shaped input: out-of-range day, out-of-range time and missing next-month day are the errors, each in exactly its case; a result has the spelled day and time, after `now`, in this month or the next |
| `TimeParse.BadFormatExactly` | main.py:264-265 | the parser reports a format error exactly when none of the three patterns matches |
| `Calendar.DaysInMonth` | main.py:246 | the month lengths `replace` checks against, Gregorian leap years included, between 28 and 31 |
| `Calendar.Weekday` | main.py:222 | `weekday()` is in 0..6 |
| `Calendar.NextDay` | main.py:208 | `+ timedelta(days=1)` gives a valid date, later than the start, whose ordinal is one more |
| `Calendar.AddDays` | main.py:228 | `+ timedelta(days=n)` lands on the date whose ordinal is `n` more, later than the start when `n > 0` |
| `Calendar.WeekdayAddDays` | main.py:222-228 | adding `n` days moves the weekday by `n` modulo 7 |
| `Calendar.BeforeIsInstantOrder` | main.py:207 | Python's field-by-field `<` on datetimes is the order of the time line |
| `Calendar.OrdinalInjective` | main.py:228 | two dates with the same ordinal are the same date |
| `Calendar.AddDaysYearBound` | main.py:228 | adding up to 28 days moves at most into the next year, and only from late December |
| `Text.SplitOn` | main.py:274 | `split(" ", maxsplit)`: at most `maxsplit` cuts at the leftmost separators; the pieces join back to the input |
| `Text.Upper` | main.py:284 | `upper()` keeps the length, leaves no lower-case letter and changes only letter case |
| `Text.Strip` | main.py:567 | `strip()` is a contiguous middle part of the input with only whitespace cut off before and after it, and starts and ends with no whitespace; an all-whitespace text strips to empty |
| `Text.Lower` | main.py:212-214 | `lower()` keeps the length |
| `Text.LowerFoldsCase` | main.py:212-214 | `lower()` leaves no upper-case letter, gives the same letter up to case at every position, and keeps everything that is not an upper-case letter, digits and whitespace included |
| `Text.PyInt` | main.py:312 | `int()` on a text with no whitespace at either end reads the text as it stands: an optional sign and a digit run |
| `Text.IntTrimStrips` | main.py:567 | whatever `int(s)` accepts, `s.strip()` cuts off exactly the whitespace `int()` skips, and reading what is left gives the same value |
| `Text.StripKeepsPyInt` | main.py:567 | when `int(s)` succeeds, `int(s.strip())` succeeds with the same value |
| `Text.SeparatorRefusedByInt` | main.py:312 | `int()` refuses a digit run followed by U+001F, a character `str.isspace()` counts as whitespace |
| `Text.StripDropsSeparator` | main.py:567 | `strip()` removes a U+001F after a digit run, so `int(s.strip())` can succeed where `int(s)` fails |
| `Text.ShowInt` | main.py:160 | `str(n)`: a minus sign exactly when `n` is negative, then decimal digits without leading zeros whose value is the magnitude of `n` |
| `Text.ShowIntRoundTrip` | main.py:545 | `int(str(n)) == n` |
| `Store.Reminders` | main.py:62-68 | `get_reminders` lists exactly the projections of the chat's rows with that status |
| `Store.WithText` | main.py:55-60 | the text `UPDATE` changes `message_text` of the rows with that id and nothing else |
| `Store.WithStatus` | main.py:70-75 | the status `UPDATE` changes `is_done` of the rows with that id and nothing else |
| `Store.Without` | main.py:77-82 | the `DELETE` keeps exactly the rows with another id |
| `Store.WithoutIncreasing` | main.py:77-82 | deleting keeps ids unique and increasing |
| `Store.TaskStore.constructor` | main.py:29-43 | `init_db` on a fresh database file gives an empty table with the counter at 0 |
| `Store.TaskStore.Open` | main.py:29-43 | `init_db` on an existing database file (`CREATE TABLE IF NOT EXISTS`) keeps its rows and counter |
| `Store.TaskStore.Add` | main.py:45-53 | `add_reminder` appends one row with the given fields and `is_done = 0`, and returns an id above every id ever issued, deleted ones included |
| `Store.TaskStore.UpdateText` | main.py:55-60 | `update_task_text` rewrites only that row's text and keeps the table valid |
| `Store.TaskStore.Get` | main.py:62-68 | `get_reminders` returns the chat's listing with that status and changes nothing |
| `Store.TaskStore.UpdateStatus` | main.py:70-75 | `update_status` rewrites only that row's status and keeps the table valid |
| `Store.TaskStore.Delete` | main.py:77-82 | `delete_task` removes only that row and leaves the counter, so the id is never reused |
| `Store.TaskStore.Exists` | main.py:84-90 | `task_exists` holds exactly when a row has both that id and that chat |
| `Store.AddThenList` | main.py:45-68 | after `add_reminder`, the chat's pending listing is the old listing followed by the new row |
| `Store.StatusIdempotent` | main.py:70-75 | setting a status twice is setting it once |
| `Store.DoneLeavesActiveList` | main.py:62-75 | a task marked done is no longer in its chat's pending listing |
| `Store.DeleteRemoves` | main.py:77-90 | after `delete_task(id)`, `task_exists(id, chat)` is false for every chat |
| `Store.DeleteKeepsOthers` | main.py:77-90 | `delete_task(id)` leaves every other task's existence as it was |
| `Store.UpdatesKeepOwnership` | main.py:55-90 | editing or completing a task changes neither which tasks exist nor who owns them |
| `Store.AbsentIdNoOp` | main.py:55-82 | the three writes leave the table unchanged when no row has the id |
| `Handlers.ParseFailure` | main.py:300-303 | a `ValueError` from the parser gets the format reply; the date overflow gets the generic one |
| `Handlers.PlanRemind` | main.py:269-281 | `/remind` arguments with fewer than three space-separated pieces are a usage error; otherwise the first piece alone is parsed, and the pieces join back to the arguments |
| `Handlers.SpacedFormRejected` | main.py:274-281 | a weekday or day-of-month expression typed with a space never reaches its branch: the command fails and nothing is created |
| `Handlers.ShortInputRejected` | main.py:204-265 | no pattern matches a text of at most two characters |
| `Handlers.PlanEdit` | main.py:308-312 | `/edit` arguments: a usage error exactly when there is no space, an id error exactly when the head is not an integer, otherwise the id and the rest of the text |
| `Handlers.EditSplit` | main.py:308-311 | `split(" ", 1)` cuts exactly when there is a space, at the first one |
| `Handlers.DeleteTarget` | main.py:564-567 | `/delete` arguments: a usage error exactly when empty, an id error exactly when `int()` refuses the stripped arguments, otherwise the id `int()` reads from them |
| `Handlers.DeleteReadsInt` | main.py:567 | an id `int()` would read from the unstripped arguments is the id `/delete` acts on |
| `Handlers.DoneTarget` | main.py:545 | the id is `int()` of the text between `done_` and the next underscore |
| `Handlers.DoneData` | main.py:160 | the button data passes the `done_` prefix filter, holds no further underscore, and after the prefix is a numeral `int()` reads as the task id |
| `Handlers.DoneDataRoundTrip` | main.py:545 | the `done_<id>` button a reminder carries reads back as that reminder's id |
| `Handlers.ScheduledAfterAdd` | main.py:284-292 | storing a row under the next id and scheduling its job keeps one job per id issued since start-up |
| `Handlers.ScheduledAfterText` | main.py:318 | editing a text keeps one job per id issued since start-up |
| `Handlers.ScheduledAfterStatus` | main.py:546 | changing a status keeps one job per id issued since start-up |
| `Handlers.ScheduledAfterDelete` | main.py:573 | deleting a row keeps the job of every id issued since start-up, the deleted one's included |
| `Handlers.JobOfStoredTask` | main.py:284-292 | a stored task created since start-up has exactly the job carrying its id; one from before start-up has no job |
| `Handlers.Bot.constructor` | main.py:580-582 | start-up: `init_db` keeps whatever valid table and counter the database file holds (empty on a fresh file), the scheduler has no jobs, and no row from before start-up has one |
| `Handlers.Bot.Remind` | main.py:267-303 | `cmd_remind`: on a usage or parse error nothing is stored or scheduled; otherwise exactly one row with the upper-cased category and exactly one job for the parsed instant, carrying that row's id, are added |
| `Handlers.Bot.Register` | main.py:284-298 | the storing half of `cmd_remind`: one `add_reminder`, then one job with the new id |
| `Handlers.Bot.Edit` | main.py:305-323 | `cmd_edit` changes the text only when the caller's chat owns the task; jobs keep the text they were created with |
| `Handlers.Bot.Delete` | main.py:561-578 | `cmd_delete` removes the row only when the caller's chat owns it; a row created since start-up keeps its job, one from before start-up has none |
| `Handlers.Bot.DeleteOwned` | main.py:569-574 | once the id is read: the row goes exactly when the caller's chat owns it, the counter and the jobs stay as they were |
| `Handlers.Bot.Done` | main.py:542-559 | `callbacks_done` sets the status to 1 for any id, with no ownership check |
| `ParseExamples.JuneTenthIsMonday` | main.py:222 | 2024-06-10 has ordinal 739047 and is a Monday |
| `ParseExamples.DailyLaterToday` | main.py:204-209 | `15:30` at Monday 09:00 fires the same day at 15:30 |
| `ParseExamples.DailyTomorrow` | main.py:204-209 | `08:05` at Monday 09:00 fires the next day at 08:05 |
| `ParseExamples.WeeklyNextTuesday` | main.py:212-231 | `ВТ 10:00` at Monday 09:00 fires Tuesday 10:00, descriptor `по вт` |
| `ParseExamples.WeeklySameDayPassed` | main.py:222-229 | `пн 08:00` at Monday 09:00 fires a week later |
| `ParseExamples.MonthlyNextMonth` | main.py:246-252 | `10 18:00` on the 10th at 20:00 fires on the 10th of the next month |
| `ParseExamples.MonthlyDecemberRollover` | main.py:249-250 | from December the next month is January of the next year |
| `ParseExamples.MonthlyMissingDay` | main.py:252-260 | `31 10:00` on 31 January at 20:00 is an error: February has no 31st and the retry repeats it |
| `ParseExamples.HourTooLarge` | main.py:205 | `25:00` is a bad time |
| `ParseExamples.DayTooLarge` | main.py:239-240 | `32 10:00` is a day out of range |
| `ParseExamples.UnknownWeekday` | main.py:264-265 | `xx 10:00` is a format error |
| `ParseExamples.EmptyInput` | main.py:264-265 | the empty text is a format error |

## Left out

- Keyboards, welcome and help text, `/list` formatting and the menu callbacks (main.py:94-156, 163-196, 325-540): presentation only.
- `callback_execute_command` (main.py:449-474): it builds framework message objects and re-dispatches commands.
- The reply texts: each reply is a datatype value naming the message. Errors raised while sending a reply are not modelled.
- `send_reminder_job` and all sending (main.py:158-161): network I/O. Jobs are recorded and never fired.
- APScheduler timing and `scheduler.start` (main.py:25, 582): the job list is ghost state, and firing, misfire handling and past instants are not modelled.
- SQLite connections, commits and storage failures (main.py:29-90): the table is in memory and every statement succeeds.
- Ids beyond SQLite's signed 64-bit range: the model's ids are unbounded integers. In the bot, such an id in `/edit`, `/delete` or a `done_` button makes `sqlite3` raise `OverflowError`, and the handler sends its generic `Ошибка при …` / `❌ Ошибка: …` reply (main.py:322-323, 557-559, 577-578). The model answers "not found" for `/edit` and `/delete` and "completed" for the button instead.
- `Text.PyInt`: reads numerals of any length. Python 3.11 and later refuse numerals of more than 4300 digits in `int()` with a `ValueError`, which the bot answers with its id error.
- `load_dotenv`, the token check, webhook deletion and polling (main.py:13-23, 585-587): bootstrapping and I/O.
- The clock read and pytz (main.py:200-201): `now` is a parameter, a naive date-time in the bot's fixed-offset zone.
- asyncio concurrency: each handler runs to completion, and each store call is one atomic step.
- Unicode digits: the model's `\d` and `int()` accept ASCII digits only. Python also accepts other Unicode decimal digits.
- `Text.Upper`: only ASCII and Cyrillic letters change case. Case mappings that change length (`ß` to `SS`) are not modelled.
- `Text.Lower`: only ASCII and Cyrillic letters change case. This does not change which inputs match the weekday pattern, since only Cyrillic letters can lower to an abbreviation.
- How aiogram extracts `command.args`: each handler takes the argument text as given, with a missing argument as the empty text.
