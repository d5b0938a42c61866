# Alohomora allow-list manager, modelled in Dafny

Alohomora keeps a table of IP addresses that may reach a protected site
through nginx. Each entry is an IP, a free-text label and an expiration time,
where 0 means permanent. An authenticated web user adds and deletes entries.
After every change the whole table is rendered as `allow <ip>;` lines into
`data/allow.conf`. A background sweeper wakes every 600 seconds, deletes the
entries whose time has passed, and re-renders the file when it removed any.

The model covers the following parts of the system:

- **The store** (module `Store`, class `AlohomoraDatabase`). It models the
  SQLite `white_list` table as a sequence of rows in ascending ROWID order.
  - `insert` gives a new row SQLite's plain ROWID: the largest id plus one,
    or 1 for an empty table.
  - `select_expired` and `delete_expired` use the strict test
    `expiration > 0 && expiration < now`.
  - `Entries` holds the pure filters that specify these operations.
- **The expiration parser** (module `Duration`).
  - `forever` in any letter case gives 0.
  - Otherwise `hour`, `day` and `week` are tried in that order. The first
    match gives `now` plus the unit times the number formed from all digits
    in the text.
  - A keyword with no digits is the `ValueError` that `int('')` raises.
  - Anything else gives `now`.
- **The renderer** (modules `Render`, `Calendar`, `Text` and `Decimal`).
  - `dbrow_to_str` uses fixed-width fields.
  - `time.gmtime` is computed with integer civil-from-days arithmetic.
  - `'\n'.join` builds the file.
  - A reader parses the file back. It is proved to recover the table exactly
    for every table the modelled handlers can build, as long as ids stay below
    1000 and years below 10000. The modelled add handler uses the corrected IP
    check; with the check as written, an IP with a trailing newline breaks the
    file (see "## Findings").
- **The input checks** (module `Validation`): the IPv4-shape regex, the label
  filter and the token comparison.
- **The handlers and the sweeper** (module `Alohomora`).
  - Pure step functions cover `handle_add`, `handle_delete`,
    `handle_login_form` and one pass of `refresh_list` over the state
    (rows, text of `allow.conf`).
  - Class `App` performs the same steps in place.
  - The main invariant is that the file equals the rendering of the table. It
    holds after every step, and after any interleaving of requests and
    sweeps, once the sweeper has made its first render.

`time.time()` is an explicit `now` parameter. Every `print` log line is
dropped. The session cookie is a parameter: `None` when the field is
absent, otherwise its value.

The model follows the code; in particular:

- **Ids are reused.** The table has no AUTOINCREMENT, so deleting the newest
  row frees its id for the next insert (`Entries.NewestIdReused`).
- **`delete_expired` returns a bool**, not a count.
- **A unit keyword with no digits** (`hours`) raises. It is not 0.
- **Any expiration of 0 or less** renders as `Permanent`, not only exactly 0.
- **The sweeper loop ends** on any exception other than cancellation. It does
  not continue.
- **The file is written with a plain truncating open**, not an atomic
  replace.
- **Values outside SQLite's 64-bit INTEGER range are refused.** `sqlite3`
  raises `OverflowError` when it binds such an expiration or id, so the add
  or delete fails with a 500 before anything is stored or rendered.

The model departs from the code in one behaviour on purpose: the IP check
of `handle_add`. The step functions use the intended check, and the check as
written is modelled beside it (see "## Findings"). The narrower points, such
as ASCII-only digits, are listed under "## Left out".

## Model

| member | source | states |
|---|---|---|
| Store.AlohomoraDatabase.constructor | web-alohomora/.build-alohomora/app/alohomora.py:38-53 | opening the database yields a valid table holding the existing rows |
| Store.AlohomoraDatabase.Select | web-alohomora/.build-alohomora/app/alohomora.py:55-58 | returns every row, in ascending id order with unique positive ids |
| Store.AlohomoraDatabase.SelectExpired | web-alohomora/.build-alohomora/app/alohomora.py:60-63 | returns exactly the rows with `expiration > 0 && expiration < now`, in table order |
| Store.AlohomoraDatabase.Insert | web-alohomora/.build-alohomora/app/alohomora.py:65-68 | binds only an expiration inside the 64-bit INTEGER range, else the `OverflowError` leaves the table as it was; when bound, appends exactly one row with the given ip, label and expiration, under an id larger than every existing id, existing rows unchanged |
| Store.AlohomoraDatabase.Delete | web-alohomora/.build-alohomora/app/alohomora.py:71-75 | an id outside the 64-bit INTEGER range raises and changes nothing; otherwise removes only the row with that id; an absent id leaves the table unchanged; at most one row goes |
| Store.AlohomoraDatabase.DeleteExpired | web-alohomora/.build-alohomora/app/alohomora.py:77-83 | leaves exactly the non-expired rows in order; returns true iff some row was expired; the count removed equals the count `select_expired` returns |
| Entries.IsExpired | web-alohomora/.build-alohomora/app/alohomora.py:62 | the cleanup's test `expiration > 0 AND expiration < now`, strict at both ends; its consequences are `PermanentRowsSurvive` and `SweepOneRowSample` |
| Entries.ExpiredRows | web-alohomora/.build-alohomora/app/alohomora.py:62 | a row is kept iff it is in the table and expired |
| Entries.LiveRows | web-alohomora/.build-alohomora/app/alohomora.py:79 | a row is kept iff it is in the table and not expired |
| Entries.ExpiredLiveCount | web-alohomora/.build-alohomora/app/alohomora.py:79-83 | expired and surviving rows partition the table by count |
| Entries.PermanentRowsSurvive | web-alohomora/.build-alohomora/app/alohomora.py:62 | a row with expiration 0 or less is never expired, whatever `now` is |
| Entries.LiveRowsUnchanged | web-alohomora/.build-alohomora/app/alohomora.py:79-83 | the table is unchanged by a sweep iff nothing was expired |
| Entries.NothingExpiredKeepsAll | web-alohomora/.build-alohomora/app/alohomora.py:79-83 | with nothing expired the sweep keeps the table as is |
| Entries.LiveRowsWellFormed | web-alohomora/.build-alohomora/app/alohomora.py:79 | a sweep keeps ids unique and ascending |
| Entries.ExpiredRowsWellFormed | web-alohomora/.build-alohomora/app/alohomora.py:62 | the expired selection is id-ordered |
| Entries.LiveRowsLater | web-alohomora/.build-alohomora/app/alohomora.py:190-193 | sweeping at `t1` then at a later `t2` leaves the same rows as one sweep at `t2` |
| Entries.WithoutId | web-alohomora/.build-alohomora/app/alohomora.py:73 | a row survives iff its id differs from the deleted one |
| Entries.WithoutAbsentId | web-alohomora/.build-alohomora/app/alohomora.py:73 | deleting an id no row carries changes nothing |
| Entries.WithoutIdWellFormed | web-alohomora/.build-alohomora/app/alohomora.py:73 | deleting keeps ids unique and ascending |
| Entries.WithoutIdCount | web-alohomora/.build-alohomora/app/alohomora.py:73 | deleting removes one row if the id exists, none otherwise |
| Entries.MaxId | web-alohomora/.build-alohomora/app/alohomora.py:67 | the largest id in a non-empty table |
| Entries.NextId | web-alohomora/.build-alohomora/app/alohomora.py:67 | the new ROWID exceeds every existing id, is 1 for an empty table and positive for a valid one |
| Entries.NextIdOfWellFormed | web-alohomora/.build-alohomora/app/alohomora.py:67 | in an id-ordered table the new ROWID is the last id plus one |
| Entries.AppendWellFormed | web-alohomora/.build-alohomora/app/alohomora.py:65-68 | inserting keeps ids unique and ascending |
| Entries.NewestIdReused | web-alohomora/.build-alohomora/app/alohomora.py:65-75 | after the newest row is deleted, the next insert gets the same id again |
| Entries.WithoutIdAppend | web-alohomora/.build-alohomora/app/alohomora.py:67-73 | deleting the id just appended removes exactly that row |
| Duration.DigitsOf | web-alohomora/.build-alohomora/app/alohomora.py:166 | `re.sub('[^0-9]+', '', text)`: only ASCII digits, never longer than the text |
| Duration.DigitsOfMembers | web-alohomora/.build-alohomora/app/alohomora.py:166 | a character is in the extracted digits iff it is an ASCII digit of the text |
| Duration.DigitsOfConcat | web-alohomora/.build-alohomora/app/alohomora.py:166 | digit extraction distributes over concatenation |
| Duration.DigitsOfDigits | web-alohomora/.build-alohomora/app/alohomora.py:166 | a text of digits is its own extraction |
| Duration.ContainsLowerMentions | web-alohomora/.build-alohomora/app/alohomora.py:165-169 | `word in text.lower()` holds iff the word occurs in the text ignoring ASCII case |
| Duration.Scaled | web-alohomora/.build-alohomora/app/alohomora.py:166-170 | fails iff the text has no digits, else gives `now + unit * n` |
| Duration.DurationMeaning | web-alohomora/.build-alohomora/app/alohomora.py:162-171 | `forever` in any case gives 0; otherwise the first of hour/day/week mentioned, in any case, gives `now + unit*n` or the no-digits error; otherwise `now` |
| Duration.Duration | web-alohomora/.build-alohomora/app/alohomora.py:162-171 | a parsed expiration is 0 ("never") or not before `now`; the only error is a text without digits |
| Duration.DurationForeverSample | web-alohomora/.build-alohomora/app/alohomora.py:163-164 | `forever`, `Forever` and `FOREVER` give 0 |
| Duration.DurationHoursSample | web-alohomora/.build-alohomora/app/alohomora.py:165-166 | `3 hours` gives `now + 10800` |
| Duration.DurationDaysSample | web-alohomora/.build-alohomora/app/alohomora.py:167-168 | `2 days` gives `now + 172800` |
| Duration.DurationWeekSample | web-alohomora/.build-alohomora/app/alohomora.py:169-170 | `1 week` gives `now + 604800` |
| Duration.DurationUnrecognisedSample | web-alohomora/.build-alohomora/app/alohomora.py:171 | text with no keyword gives `now` |
| Duration.DurationNoDigitsSample | web-alohomora/.build-alohomora/app/alohomora.py:165-166 | `hours` with no digits is the `int('')` error |
| Text.LJust | web-alohomora/.build-alohomora/app/alohomora.py:176-177 | `str.ljust`: the text then spaces up to the width, never truncated |
| Text.TrimEndLJust | web-alohomora/.build-alohomora/app/alohomora.py:176-177 | trailing spaces added by `ljust` can be removed to recover a text not ending in a space |
| Text.Lower | web-alohomora/.build-alohomora/app/alohomora.py:163 | `str.lower` maps each ASCII letter to lower case, length kept |
| Text.LowerEqualsWord | web-alohomora/.build-alohomora/app/alohomora.py:163 | `text.lower() == word` for a lower-case word iff the text equals it ignoring case |
| Text.Contains | web-alohomora/.build-alohomora/app/alohomora.py:165 | substring test: true iff the pattern occurs at some position |
| Text.Join | web-alohomora/.build-alohomora/app/alohomora.py:183 | `'\n'.join(lines)`: the first line starts the text |
| Text.Split | web-alohomora/.build-alohomora/app/alohomora.py:183 | the reader's inverse of the `'\n'.join` that writes the file: at least one part, and no part holds the separator |
| Text.SplitJoin | web-alohomora/.build-alohomora/app/alohomora.py:146 | splitting a `'\n'.join` of newline-free lines gives the lines back |
| Text.JoinSplit | web-alohomora/.build-alohomora/app/alohomora.py:146 | joining the parts of a split gives the text back |
| Decimal.ParseDigits | web-alohomora/.build-alohomora/app/alohomora.py:166 | `int` of a digit string: fails iff the string is empty |
| Decimal.ToDecimal | web-alohomora/.build-alohomora/app/alohomora.py:177 | `str(n)`: non-empty digits without a leading zero |
| Decimal.ValueToDecimal | web-alohomora/.build-alohomora/app/alohomora.py:177 | `int(str(n)) == n` |
| Decimal.ToDecimalLength | web-alohomora/.build-alohomora/app/alohomora.py:177 | `str(n)` has k digits exactly when `10^(k-1) <= n < 10^k` |
| Decimal.ToDecimalAtMostThree | web-alohomora/.build-alohomora/app/alohomora.py:177 | ids below 1000 fit the 3-wide id field |
| Decimal.Pad2 | web-alohomora/.build-alohomora/app/alohomora.py:175 | `%m %d %H %M %S` print two digits whose value is the field |
| Validation.IpShapeParts | web-alohomora/.build-alohomora/app/alohomora.py:125 | an accepted IP is four groups joined by dots |
| Validation.DottedQuadIsIpShape | web-alohomora/.build-alohomora/app/alohomora.py:125 | any four groups of 1-3 digits joined by dots are accepted |
| Validation.IpShapeChars | web-alohomora/.build-alohomora/app/alohomora.py:125 | an accepted IP has 7 to 15 characters, only digits and dots, ending in a digit |
| Validation.TrailingNewlineAccepted | web-alohomora/.build-alohomora/app/alohomora.py:125 | the regex as written, whose `$` matches before a final newline, accepts `10.0.0.5\n` although it has not the dotted-quad shape |
| Validation.SanitizeLabel | web-alohomora/.build-alohomora/app/alohomora.py:128 | the stored label has only characters from `[A-Za-z0-9_.,# '-]` and is no longer than the input |
| Validation.SanitizeConcat | web-alohomora/.build-alohomora/app/alohomora.py:128 | the filter works character by character |
| Validation.SanitizeClean | web-alohomora/.build-alohomora/app/alohomora.py:128 | a label of allowed characters is kept as is |
| Validation.SanitizeIdempotent | web-alohomora/.build-alohomora/app/alohomora.py:128 | filtering twice is filtering once |
| Validation.SanitizeMembers | web-alohomora/.build-alohomora/app/alohomora.py:128 | a character survives iff it was in the input and is allowed |
| Validation.TokenMatches | web-alohomora/.build-alohomora/app/alohomora.py:152-156 | with no token configured nothing matches; otherwise exactly the configured string matches |
| Validation.IpShape | web-alohomora/.build-alohomora/app/alohomora.py:125 | the intended reading of the pattern: exactly four dot-separated groups of one to three ASCII digits; its consequences are `IpShapeParts`, `DottedQuadIsIpShape` and `IpShapeChars` |
| Validation.IpMatchAsWritten | web-alohomora/.build-alohomora/app/alohomora.py:125 | the pattern as `re.match` runs it: the intended shape, or that shape followed by one newline |
| Calendar.CivilFromDaysInverse | web-alohomora/.build-alohomora/app/alohomora.py:175 | converting the date back gives the same day number |
| Calendar.CivilYearBounds | web-alohomora/.build-alohomora/app/alohomora.py:175 | days up to 9999-12-31 land in years 1970 to 9999 |
| Calendar.EpochSample | web-alohomora/.build-alohomora/app/alohomora.py:175 | day 0 is 1970-01-01 |
| Calendar.LastFourDigitDaySample | web-alohomora/.build-alohomora/app/alohomora.py:175 | day 2932896 is 9999-12-31 |
| Calendar.CivilFromDays | web-alohomora/.build-alohomora/app/alohomora.py:175 | the date `time.gmtime` shows for a day count: always a real calendar day |
| Calendar.DaysFromCivil | web-alohomora/.build-alohomora/app/alohomora.py:175 | the day count of a date; its meaning is fixed by the inverse and successor lemmas below |
| Calendar.NextDate | web-alohomora/.build-alohomora/app/alohomora.py:175 | the wall-calendar successor: next day of the month, else the 1st of the next month, else 1 January; the year changes only from 31 December |
| Calendar.FebToMar | web-alohomora/.build-alohomora/app/alohomora.py:175 | from the last day of February (28 or 29 by the Gregorian leap rule) to 1 March is one day |
| Calendar.DaysFromCivilNext | web-alohomora/.build-alohomora/app/alohomora.py:175 | the next calendar day is a real day whose day count is one more |
| Calendar.DaysFromCivilInverse | web-alohomora/.build-alohomora/app/alohomora.py:175 | the day count of a real date converts back to that date |
| Calendar.CivilFromDaysNext | web-alohomora/.build-alohomora/app/alohomora.py:175 | one day count later is the wall calendar's next day |
| Render.Gmtime | web-alohomora/.build-alohomora/app/alohomora.py:175 | `time.gmtime` of a non-negative time: a valid UTC date and time whose timestamp is the input; years 1970-9999 below 253402300800 |
| Render.GmtimeNextDay | web-alohomora/.build-alohomora/app/alohomora.py:175 | 86400 seconds later, `gmtime` shows the next calendar day at the same time of day |
| Render.StrftimeLayout | web-alohomora/.build-alohomora/app/alohomora.py:175 | `%Y-%m-%d %H:%M:%S` is 19 characters with separators at fixed places |
| Render.Strftime | web-alohomora/.build-alohomora/app/alohomora.py:175 | `%Y-%m-%d %H:%M:%S`: the unpadded year followed by 15 fixed characters |
| Render.ExpirationField | web-alohomora/.build-alohomora/app/alohomora.py:175 | 19 wide below the end of year 9999; 0 or less shows `Permanent` padded with spaces |
| Render.ExpirationFieldRoundTrip | web-alohomora/.build-alohomora/app/alohomora.py:175 | the expiration field is 19 wide and reads back to the expiration, `Permanent` being 0 |
| Render.DirectiveWidth | web-alohomora/.build-alohomora/app/alohomora.py:176 | for an accepted IP, `allow <ip>;` padded is exactly 22 wide and trims back to the directive |
| Render.Directive | web-alohomora/.build-alohomora/app/alohomora.py:176 | `f"allow {ip};".ljust(22)`: starts with the directive and is at least 22 wide |
| Render.IdFieldLayout | web-alohomora/.build-alohomora/app/alohomora.py:177 | an id below 1000 fills 3 columns and trims back to `str(id)` |
| Render.DbRowToStrLayout | web-alohomora/.build-alohomora/app/alohomora.py:174-177 | the line is the directive, ` # `, the id, a bar separator, the expiration, a bar separator and the label, at fixed columns |
| Render.DbRowToStr | web-alohomora/.build-alohomora/app/alohomora.py:174-177 | the line starts with the padded directive and ends with the label |
| Render.ParseDbRowToStr | web-alohomora/.build-alohomora/app/alohomora.py:174-177 | a rendered line reads back to the row |
| Render.DirectiveOneLine | web-alohomora/.build-alohomora/app/alohomora.py:176 | the directive of an accepted IP holds no newline |
| Render.ExpirationFieldOneLine | web-alohomora/.build-alohomora/app/alohomora.py:175 | the expiration field holds no newline |
| Render.DbRowToStrOneLine | web-alohomora/.build-alohomora/app/alohomora.py:174-177 | a row with an accepted IP and a newline-free label renders to one line |
| Render.ConfLines | web-alohomora/.build-alohomora/app/alohomora.py:183 | one rendered line per row, in table order |
| Render.AllowConf | web-alohomora/.build-alohomora/app/alohomora.py:183 | the file is empty iff the table is |
| Render.AllowConfEmpty | web-alohomora/.build-alohomora/app/alohomora.py:183 | an empty table renders as the empty file |
| Render.AllowConfLines | web-alohomora/.build-alohomora/app/alohomora.py:183 | the file splits on newlines into exactly the rendered rows, no trailing newline |
| Render.ParseLinesOfRows | web-alohomora/.build-alohomora/app/alohomora.py:183 | the rendered lines read back to the rows |
| Render.ParseAllowConf | web-alohomora/.build-alohomora/app/alohomora.py:180-183 | the whole file reads back to the table |
| Render.AllowConfInjective | web-alohomora/.build-alohomora/app/alohomora.py:180-183 | two tables with the same file are the same table |
| Render.NewlineInIpBreaksLine | web-alohomora/.build-alohomora/app/alohomora.py:176-177 | a newline inside the IP ends up inside the rendered line |
| Render.NewlineIpBreaksConf | web-alohomora/.build-alohomora/app/alohomora.py:125-131 | the as-written regex admits `10.0.0.5\n`, and a table of that one row renders as two lines |
| Alohomora.AddStep | web-alohomora/.build-alohomora/app/alohomora.py:121-132 | answers the login redirect iff the session is not authenticated; any change appends exactly one row and answers the redirect to `/`; a file showing the table keeps showing it |
| Alohomora.DeleteStep | web-alohomora/.build-alohomora/app/alohomora.py:135-140 | answers the login redirect iff the session is not authenticated; only an answer of `/` changes anything, and then the file shows the table and no row was added |
| Alohomora.SweepStep | web-alohomora/.build-alohomora/app/alohomora.py:191-192 | keeps exactly the rows not expired; reports a removal iff some row was expired; a file showing the table keeps showing it |
| Alohomora.LoginStep | web-alohomora/.build-alohomora/app/alohomora.py:110-118 | succeeds iff the posted token matches; then the stored session is authenticated; otherwise the session is unchanged and the answer is the login page |
| Alohomora.Apply | web-alohomora/.build-alohomora/app/alohomora.py:121-140 | one request or wake-up keeps a file that shows the table showing it |
| Alohomora.Run | web-alohomora/.build-alohomora/app/alohomora.py:121-140 | any sequence of requests and wake-ups keeps a file that shows the table showing it |
| Alohomora.AddStepCases | web-alohomora/.build-alohomora/app/alohomora.py:121-132 | unauthenticated: redirect to login, nothing changes; no ip field: error, nothing changes; bad IP shape: redirect, nothing changes; unparsable expiration or one outside the 64-bit INTEGER range: error, nothing changes; any change is exactly the new row with filtered label and parsed expiration, and the file re-rendered |
| Alohomora.AddStepFreshRow | web-alohomora/.build-alohomora/app/alohomora.py:126-130 | a successful add appends one row whose id no existing row has, keeping ids ordered |
| Alohomora.AddThenDelete | web-alohomora/.build-alohomora/app/alohomora.py:126-139 | deleting the id an add assigned restores the previous table (when that id is past the 64-bit range the delete raises instead and changes nothing) |
| Alohomora.DeleteStepEffect | web-alohomora/.build-alohomora/app/alohomora.py:135-140 | delete keeps ids ordered, drops only rows with that id, only when authenticated and the id is in the 64-bit range; an absent id changes nothing |
| Alohomora.SweepStepEffect | web-alohomora/.build-alohomora/app/alohomora.py:191-192 | a sweep drops exactly the expired rows, reports whether any went, re-renders only then, and otherwise changes nothing |
| Alohomora.SweepAllLast | web-alohomora/.build-alohomora/app/alohomora.py:190-193 | with non-decreasing wake-up times, repeated sweeps leave the rows live at the last wake-up |
| Alohomora.UnsetTokenLocksOut | web-alohomora/.build-alohomora/app/alohomora.py:110-118 | with no token configured, login never succeeds and no session is authenticated |
| Alohomora.AddTwoDaysSample | web-alohomora/.build-alohomora/app/alohomora.py:121-131 | adding an accepted IP with a clean label for `2 days` at `t` to an empty table stores it under id 1, expiring at `t + 172800` |
| Alohomora.SweepOneRowSample | web-alohomora/.build-alohomora/app/alohomora.py:77-83 | a one-row table survives a sweep at the row's own expiration second, and one second later the row goes and the file is re-rendered empty |
| Alohomora.TwoDayEntryScenario | web-alohomora/.build-alohomora/app/alohomora.py:121-132 | a two-day entry survives a sweep at `t + 172800` and is removed, with the file emptied, at `t + 172801` |
| Alohomora.AddKeepsGood | web-alohomora/.build-alohomora/app/alohomora.py:121-132 | an add keeps the file in sync, ids ordered, IPs checked and labels filtered |
| Alohomora.DeleteKeepsGood | web-alohomora/.build-alohomora/app/alohomora.py:135-140 | a delete keeps the file in sync, ids ordered, IPs checked and labels filtered |
| Alohomora.SweepKeepsGood | web-alohomora/.build-alohomora/app/alohomora.py:187-193 | a sweep keeps the file in sync, ids ordered, IPs checked and labels filtered |
| Alohomora.ApplyKeepsGood | web-alohomora/.build-alohomora/app/alohomora.py:121-140 | each request or wake-up keeps the file in sync, ids ordered, IPs checked and labels filtered |
| Alohomora.RunKeepsGood | web-alohomora/.build-alohomora/app/alohomora.py:121-140 | any interleaving of requests and wake-ups keeps those invariants |
| Alohomora.ConfReadsBack | web-alohomora/.build-alohomora/app/alohomora.py:180-183 | in such a state, with ids below 1000 and years below 10000, the file reads back to exactly the table |
| Alohomora.App.constructor | web-alohomora/.build-alohomora/app/alohomora.py:87-88 | the process holds the opened database, the configured token and the file as found on disk |
| Alohomora.App.UpdateAllowConf | web-alohomora/.build-alohomora/app/alohomora.py:180-184 | the file becomes the rendering of the table; the table is untouched |
| Alohomora.App.HandleAdd | web-alohomora/.build-alohomora/app/alohomora.py:121-132 | the new table, file and response are those of the add step |
| Alohomora.App.HandleDelete | web-alohomora/.build-alohomora/app/alohomora.py:135-140 | the new table, file and response are those of the delete step, for the id the route's digits spell |
| Alohomora.App.HandleIndex | web-alohomora/.build-alohomora/app/alohomora.py:91-99 | the table is handed to the page iff the session is authenticated |
| Alohomora.App.DownloadConf | web-alohomora/.build-alohomora/app/alohomora.py:143-149 | an authenticated session gets the rendering of the table, which is the file when it is in sync; others get nothing |
| Alohomora.App.SweepOnce | web-alohomora/.build-alohomora/app/alohomora.py:191-192 | the new table, file and result are those of one sweep step |
| Alohomora.App.RefreshList | web-alohomora/.build-alohomora/app/alohomora.py:187-193 | after the initial render and a sweep at each wake-up time, the file shows the table and the rows are those the successive sweeps leave |

## Left out

- The aiohttp routes, HTTP responses, the encrypted cookie session store, jinja2 templates, static files, `get_ip_address`, the `token_is_not_set` template flag of the login page and the download's Content-Type header are web glue. Handlers are modelled from the point where the form or the session value is in hand. A redirect or a 500 is a `Response` value.
- The SQLite connection, commits, `CREATE TABLE` and `__del__` are left out. The table is a sequence of rows. `SELECT` without `ORDER BY` is taken to return ascending ROWID order, which is how SQLite scans a plain rowid table.
- Writing `data/allow.conf` is left out. The file is a string field that each render replaces whole. The real write truncates the file before rendering, so a render that raises leaves an empty file. The model has no renders that raise; see `Render.Gmtime` below.
- asyncio is left out: `create_task`, `sleep(600)`, cancellation and cleanup. Concurrency is modelled as a sequence of whole steps (`Alohomora.Run`). This is faithful because nothing awaits between reading the table and writing the file.
- The sweeper's exit on an exception other than cancellation is left out. The model has no exceptions inside the loop, so `RefreshList` sweeps at every time it is given.
- `time.time()` is the parameter `now`. The wake-up times of the sweeper are the sequence `clock`.
- The `print` logs, all in local time, are left out.
- Python's `\d` also matches non-ASCII decimal digits, and `int()` accepts them. The model accepts ASCII digits only, both for the IP check and for the `/delete/{id}` route.
- `str.lower` also lower-cases non-ASCII letters. One case matters here: the Kelvin sign lower-cases to `k`, which could turn `wee\u212A` into `week`. The model lower-cases ASCII only.
- Python's limit on converting very long digit strings to `int` is left out.
- Render.Gmtime: does not model the error `time.gmtime` raises for timestamps whose year does not fit the platform's `struct tm`. Such a timestamp would take a digit string of about 17 digits or more. The round-trip and one-line lemmas are stated only for expirations below 253402300800, the end of year 9999.
- Render.IdFieldLayout: ids of 1000 or more overflow the 3-wide id field. They are outside the lemma's precondition, not rejected by the code.
- Alohomora.ConfReadsBack: the read-back needs ids below 1000 and years below 10000. The handlers do not enforce either bound, so the lemma takes them as preconditions.
- Alohomora.App.HandleDelete: requires a non-empty ASCII digit string, which is what the route pattern lets through.
- Alohomora.AddStep: uses the intended IP check, not the pattern as `re.match` runs it, which also accepts one trailing newline (see "## Findings"). The invariants proved about the handlers rely on the intended check.
- Alohomora.AddStepCases: states the add handler with the intended IP check; with the check as written, `10.0.0.5\n` would be stored too.
- Alohomora.App.HandleAdd: performs the add step with the intended IP check; the as-written check is `Validation.IpMatchAsWritten`.
- Entries.NextId: when the largest id is already the 64-bit maximum, SQLite picks some unused rowid at random; the model keeps "largest plus one" and does not model that case.

## Findings

| source | as written | input that shows it | evidently intended | confidence | as-written member | corrected member |
|---|---|---|---|---|---|---|
| web-alohomora/.build-alohomora/app/alohomora.py:125 | `re.match` with a final `$` also matches just before a trailing newline, so an IP field ending in `\n` passes the check and is stored with the newline | ip = `10.0.0.5\n`: the entry renders as `allow 10.0.0.5` on one line and `;` plus the rest of the entry on the next, so `allow.conf` no longer has one directive per line | accept only the four dot-separated digit groups with nothing after them (`\Z` or `re.fullmatch`) | not executed; high — this is documented `$` behaviour | Validation.IpMatchAsWritten, Render.NewlineIpBreaksConf | Validation.IpShape, Alohomora.ConfReadsBack |
