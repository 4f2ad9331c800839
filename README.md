# Financial Tracker — a Dafny model of its ledger core

Financial Tracker is a console ledger. Transactions are kept in one list and in
the file `transactions.csv`, one line `date|time|description|vendor|amount` per transaction.
The program provides the following:

- it loads the file at start-up;
- it adds deposits and payments from answers typed at prompts;
- it sorts the list newest first when the ledger opens;
- it prints filtered views: deposits, payments, a date range, the four report presets, and a vendor search.

This project models that core and proves what the program promises about it.

Modules, in dependency order:

- `Text`: the string operations the program relies on.
  - Digit texts.
  - `String.trim`.
  - `String.split("\\|")`, with Java's removal of trailing empty pieces.
  - An ASCII `equalsIgnoreCase`.
  - Padding and truncation.
- `Calendar`: the proleptic Gregorian calendar.
  - Dates, times, and their order.
  - Month and year ends.
  - `minusMonths`/`minusYears` with the day clamped.
  - The next day.
- `Formats`: the text forms the program applies to dates, times and amounts.
  - `yyyy-MM-dd`, `HH:mm:ss` and `yyyy-MM-dd HH:mm:ss`; these follow the ISO 8601 calendar-date and time extended formats.
    - The parser resolves the day *smartly*: a day past the month's end is clamped, so `2023-02-30` is February 28.
    - In `yyyy-MM-dd HH:mm:ss`, `24:00:00` reads as midnight of the next day. With `HH:mm:ss` alone, as the file loader uses it, `24:00:00` reads as midnight and the extra day is dropped.
  - `parseDouble` on exact decimal text.
  - `%.2f`.
- `Transactions`: `Transaction.java`.
  - A class with five mutable fields, its getters and setters.
  - `toString`, whose columns have widths 30 and 20, with truncation to 27 characters plus `...` or 17 plus `...`.
- `Codec`:
  - the line an add flow writes;
  - the decoding of one line;
  - the reading of a whole file, which stops at the first line that does not decode.
- `Queries`:
  - the view criteria (sign, inclusive date range, vendor ignoring case);
  - the stable newest-first sort;
  - the four report presets, computed from a "today" passed in.
- `Input`:
  - the date-time prompt (blank means now, otherwise the text must parse, otherwise ask again);
  - the whole add dialogue as a function of the answers given.
- `Tracker`: `FinancialTracker.java`.
  - A class holding the transaction list and the file's lines.
  - Its methods load, add, sort and display.

Amounts are integer cents. `Math.round(x * 100) / 100` is modelled as rounding to the
nearest cent, with a half rounded up (`Formats.RoundToCents`, proved nearest by
`Formats.RoundToCentsIsNearest`).

An add dialogue is a sequence of answers. Each round takes:

1. one or more date-time answers (asked again until one reads);
2. description;
3. vendor;
4. amount.

A round whose amount is not positive asks again. The dialogue ends early when the answers run out. In Java, that is the
`NoSuchElementException` caught by the outer `catch`. The model keeps Java's
reuse of the `amount` variable. If an amount answer does not parse, the unboxing of `null` throws.
The inner `catch` handles that, and the previous round's (non-positive) value stays.

Two behaviours are modelled as the code has them:

- **Loading a file with a bad line.** Loading stops at the first malformed line, and the lines before it stay loaded.
- **Adding a transaction.** The addition to the list comes before the file write, and a failed write does not undo it. The parameter `writeOk` says whether the write succeeded.

A `|` inside a description or vendor shifts the fields of the written line when it is read back.
`Codec.DecodeEncodeWithSeparator` states what comes back.

## Model

| member | source | states |
|---|---|---|
| Text.Trim | src/main/java/com/pluralsight/FinancialTracker.java:559 | the result is a slice of the input with only blanks before and after it and no blank at either end, so exactly the input without its leading and trailing blanks; it is empty exactly when the input is all blanks, and is the input itself when that has no blank at either end |
| Text.Split | src/main/java/com/pluralsight/FinancialTracker.java:101 | `String.split` at `\|`, with trailing empty pieces removed, specified by Text.SplitJoin: the join of pieces free of `\|` whose last piece is not empty splits back into those pieces |
| Text.EqualsIgnoreCase | src/main/java/com/pluralsight/FinancialTracker.java:461 | `equalsIgnoreCase`, specified by Text.EqualsIgnoreCaseIsLowerEquality: equality of the lower-case forms |
| Text.SplitJoin | src/main/java/com/pluralsight/FinancialTracker.java:101 | splitting at `\|` the join of pieces free of `\|` (last piece non-empty) gives the pieces back |
| Text.EqualsIgnoreCaseIsLowerEquality | src/main/java/com/pluralsight/FinancialTracker.java:461 | two strings are equal ignoring case exactly when their lower-case forms are equal, and then they have equal length |
| Calendar.DaysInMonth | src/main/java/com/pluralsight/FinancialTracker.java:385 | every month has 28 to 31 days |
| Calendar.YearLength | src/main/java/com/pluralsight/FinancialTracker.java:402 | a leap year has 366 days and any other year 365 |
| Calendar.FirstDayOfMonth | src/main/java/com/pluralsight/FinancialTracker.java:374 | `withDayOfMonth(1)`: day 1 of the same year and month |
| Calendar.LastDayOfMonth | src/main/java/com/pluralsight/FinancialTracker.java:385 | `lastDayOfMonth()`: a valid date of the same month on or after every valid date of that month |
| Calendar.FirstDayOfYear | src/main/java/com/pluralsight/FinancialTracker.java:391 | `withDayOfYear(1)`: January 1 of the same year |
| Calendar.LastDayOfYear | src/main/java/com/pluralsight/FinancialTracker.java:402 | `lastDayOfYear()`: a date of the same year on or after every valid date of that year |
| Calendar.MinusMonths | src/main/java/com/pluralsight/FinancialTracker.java:382 | a valid date exactly n months earlier, with the day clamped to that month's length |
| Calendar.MinusYears | src/main/java/com/pluralsight/FinancialTracker.java:399 | a valid date n years earlier in the same month and day, except that February 29 becomes the 28th in a common year |
| Calendar.NextDay | src/main/java/com/pluralsight/FinancialTracker.java:526 | the valid date directly after the given one, with no valid date in between |
| Formats.FormatYear | src/main/java/com/pluralsight/FinancialTracker.java:146 | `yyyy` prints at least four characters, exactly four up to year 9999, and only digits and a sign |
| Formats.ParseFormatYear | src/main/java/com/pluralsight/FinancialTracker.java:496 | every supported year prints to text that parses back to that year |
| Formats.FormatDate | src/main/java/com/pluralsight/FinancialTracker.java:146 | `yyyy-MM-dd` has dashes six and three characters from the end, is ten characters long exactly up to year 9999, and contains no `\|` |
| Formats.ParseDate | src/main/java/com/pluralsight/FinancialTracker.java:494-501 | `parseDate` returns only valid dates in the supported years; which texts it rejects (None for null) is stated by Formats.ParseDateOfFields, Formats.ParseDateRejectsMonth and Formats.ParseDateRejectsDay |
| Formats.ParseYear | src/main/java/com/pluralsight/FinancialTracker.java:496 | the `yyyy` field reads only years from 1 to 999,999,999, with Formats.ParseFormatYear as its inverse |
| Formats.ResolveDate | src/main/java/com/pluralsight/FinancialTracker.java:496 | the SMART resolution of year, month and day gives only valid dates in the supported years, with the day clamped as Formats.ParseDateOfFields states |
| Formats.ParseDateOfParts | src/main/java/com/pluralsight/FinancialTracker.java:496 | a text of year, two-digit month and two-digit day parses to the resolution of those three numbers |
| Formats.ParseDateOfFields | src/main/java/com/pluralsight/FinancialTracker.java:496 | a month outside 1..12 or a day outside 1..31 is rejected; otherwise the day is clamped to the month's length |
| Formats.ParseFormatDate | src/main/java/com/pluralsight/FinancialTracker.java:494-501 | every valid date prints to text that parses back to that date |
| Formats.ParseDateClampsDay | src/main/java/com/pluralsight/FinancialTracker.java:496 | `2023-02-30` reads as February 28, 2023 |
| Formats.ParseDateClampsLeapDay | src/main/java/com/pluralsight/FinancialTracker.java:496 | `2024-02-31` reads as February 29, 2024 |
| Formats.ParseDateRejectsMonth | src/main/java/com/pluralsight/FinancialTracker.java:496 | `2023-13-01` is rejected |
| Formats.ParseDateRejectsDay | src/main/java/com/pluralsight/FinancialTracker.java:496 | `2023-02-32` is rejected |
| Formats.FormatTime | src/main/java/com/pluralsight/FinancialTracker.java:147 | `HH:mm:ss` is eight characters with colons at positions 2 and 5, and contains no `\|` |
| Formats.ParseTime | src/main/java/com/pluralsight/FinancialTracker.java:509-516 | `parseTime` returns only valid times with no nanoseconds; Formats.FormatParseTime states that every text it accepts is a printed time or `24:00:00` |
| Formats.ResolveTime | src/main/java/com/pluralsight/FinancialTracker.java:511 | the resolution of hour, minute and second gives only valid times with no nanoseconds, with one day carried for `24:00:00` alone (Formats.ResolveEndOfDay) |
| Formats.ParseFormatTime | src/main/java/com/pluralsight/FinancialTracker.java:509-516 | every valid time prints to text that parses back to it without its nanoseconds, with no day carried |
| Formats.FormatParseTime | src/main/java/com/pluralsight/FinancialTracker.java:509-516 | a time text that parses prints back unchanged, except `24:00:00` |
| Formats.ResolveEndOfDay | src/main/java/com/pluralsight/FinancialTracker.java:526 | `24:00:00` resolves to midnight with one day carried |
| Formats.ParseDateTime | src/main/java/com/pluralsight/FinancialTracker.java:524-531 | `parseDateTime` returns only valid date-times in the supported years with no nanoseconds; Formats.ParseDateTimeOfParts reduces it to the date and time parses, so their rejections apply, and Formats.ParseDateTimeEndOfDay states the rejection past the last date |
| Formats.ParseDateTimeOfParts | src/main/java/com/pluralsight/FinancialTracker.java:526 | a date text, a space and an eight-character time text parse as the date joined with the time |
| Formats.ParseFormatDateTime | src/main/java/com/pluralsight/FinancialTracker.java:524-531 | every valid date-time prints to text that parses back to it without nanoseconds |
| Formats.ParseDateTimeEndOfDay | src/main/java/com/pluralsight/FinancialTracker.java:526 | a date followed by `24:00:00` reads as midnight of the next day, crossing month and year ends; past the last supported date it is rejected |
| Formats.ParseNumber | src/main/java/com/pluralsight/FinancialTracker.java:541 | `Double.parseDouble` on plain decimal text, specified by Formats.ParseNumberOfSigned and Formats.ParseNumberOfAmount |
| Formats.RoundToCents | src/main/java/com/pluralsight/FinancialTracker.java:541 | `Math.round(x * 100)`, specified by Formats.RoundToCentsIsNearest |
| Formats.ParseAmount | src/main/java/com/pluralsight/FinancialTracker.java:539-545 | the `parseDouble` helper, specified by Formats.ParseFormatAmount (printed amounts read back) and Formats.ParseAmountRejects (non-numbers give None) |
| Formats.RoundToCentsIsNearest | src/main/java/com/pluralsight/FinancialTracker.java:541 | the rounded amount is the one whole number of cents within half a cent of the number, with a half rounded up |
| Formats.FormatAmount | src/main/java/com/pluralsight/FinancialTracker.java:169 | `%.2f` is a '-' exactly for a negative amount, at least one digit of whole units, a point and two digits, and contains no `\|`; that the digits are the cents is stated by Formats.ParseNumberOfAmount and Formats.ParseFormatAmount |
| Formats.ParseNumberOfSigned | src/main/java/com/pluralsight/FinancialTracker.java:541 | a leading `-` negates the number read from the rest of the text |
| Formats.ParseNumberOfAmount | src/main/java/com/pluralsight/FinancialTracker.java:541 | the text of an amount parses as its cents over a hundred |
| Formats.RoundWholeCents | src/main/java/com/pluralsight/FinancialTracker.java:541 | a number with two decimals rounds to itself |
| Formats.ParseFormatAmount | src/main/java/com/pluralsight/FinancialTracker.java:539-545 | every amount printed with `%.2f` parses back to the same number of cents |
| Formats.ParseAmountRejects | src/main/java/com/pluralsight/FinancialTracker.java:539-545 | `abc`, `.` and the empty text give null (None) |
| Transactions.Transaction.constructor | src/main/java/com/pluralsight/Transaction.java:15-21 | the five fields hold the five arguments unchanged |
| Transactions.Transaction.Value | src/main/java/com/pluralsight/Transaction.java:9-13 | a definition with no contract of its own: the five fields as one Record. Its meaning is stated by the setters' ensures, `Value() == old(Value()).(field := x)` |
| Transactions.Transaction.GetDate | src/main/java/com/pluralsight/Transaction.java:23-25 | returns the date field |
| Transactions.Transaction.SetDate | src/main/java/com/pluralsight/Transaction.java:27-29 | sets the date; the other four fields are unchanged |
| Transactions.Transaction.GetTime | src/main/java/com/pluralsight/Transaction.java:31-33 | returns the time field |
| Transactions.Transaction.SetTime | src/main/java/com/pluralsight/Transaction.java:35-37 | sets the time; the other four fields are unchanged |
| Transactions.Transaction.GetDescription | src/main/java/com/pluralsight/Transaction.java:40-42 | returns the description field |
| Transactions.Transaction.SetDescription | src/main/java/com/pluralsight/Transaction.java:44-46 | sets the description; the other four fields are unchanged |
| Transactions.Transaction.GetVendor | src/main/java/com/pluralsight/Transaction.java:48-50 | returns the vendor field |
| Transactions.Transaction.SetVendor | src/main/java/com/pluralsight/Transaction.java:52-54 | sets the vendor; the other four fields are unchanged |
| Transactions.Transaction.GetAmount | src/main/java/com/pluralsight/Transaction.java:56-58 | returns the amount field |
| Transactions.Transaction.SetAmount | src/main/java/com/pluralsight/Transaction.java:60-62 | sets the amount; the other four fields are unchanged |
| Transactions.DescriptionCell | src/main/java/com/pluralsight/Transaction.java:67 | the description column is exactly 30 wide: a description of up to 30 characters is padded with spaces; a longer one becomes its first 27 characters and `...` |
| Transactions.VendorCell | src/main/java/com/pluralsight/Transaction.java:68 | the vendor column is exactly 20 wide: a vendor of up to 20 characters is padded with spaces; a longer one becomes its first 17 characters and `...` |
| Transactions.PadCell | src/main/java/com/pluralsight/Transaction.java:67-68 | a column of width w: the text padded to w when it fits, otherwise its first w-3 characters and `...` |
| Transactions.DisplayLine | src/main/java/com/pluralsight/Transaction.java:76-77 | the `String.format` of `toString`, specified column by column by Transactions.DisplayColumns |
| Transactions.Transaction.ToString | src/main/java/com/pluralsight/Transaction.java:64-78 | `toString` is the display line of the current field values; its columns are stated by Transactions.DisplayColumns |
| Transactions.DisplayColumns | src/main/java/com/pluralsight/Transaction.java:76-77 | a display line is the date, then `\|` and the time, `\|` and the 30-wide description cell, `\|` and the 20-wide vendor cell, `\|` and the amount; the date is ten characters up to year 9999 |
| Codec.Encode | src/main/java/com/pluralsight/FinancialTracker.java:169 | the line `date\|time\|description\|vendor\|amount`, specified by Codec.EncodeParts (its five fields) and Codec.DecodeEncode (it reads back) |
| Codec.Decode | src/main/java/com/pluralsight/FinancialTracker.java:101-106 | a line that decodes gives a printable record without nanoseconds |
| Codec.Stored | src/main/java/com/pluralsight/FinancialTracker.java:169 | a definition with no contract of its own: the record with its time's nanoseconds set to 0. What it means is stated by Codec.DecodeEncode (a written record reads back as its Stored form) and Codec.LoadEncoded (a written file loads back as the Stored forms, in order) |
| Codec.EncodeParts | src/main/java/com/pluralsight/FinancialTracker.java:169 | a written line of a record free of `\|` splits into exactly its five printed fields |
| Codec.DecodeEncode | src/main/java/com/pluralsight/FinancialTracker.java:101-106 | reading back a written line gives the record, without nanoseconds |
| Codec.DecodeEncodeWithSeparator | src/main/java/com/pluralsight/FinancialTracker.java:101-106 | with one `\|` in the description, the text after it is read as the vendor and the vendor is read as the amount |
| Codec.LoadPrefix | src/main/java/com/pluralsight/FinancialTracker.java:100-109 | the loaded records are the decodings of the first lines, in file order, up to the first line that does not decode |
| Codec.Load | src/main/java/com/pluralsight/FinancialTracker.java:100-109 | every loaded record is printable and has no nanoseconds |
| Codec.LoadPrefixUnique | src/main/java/com/pluralsight/FinancialTracker.java:100-114 | the loaded prefix is the only sequence of decoded lines that stops at a line that does not decode or at the end |
| Codec.LoadAppend | src/main/java/com/pluralsight/FinancialTracker.java:100-109 | after lines that all decode, reading goes on into the following lines |
| Codec.LoadEncoded | src/main/java/com/pluralsight/FinancialTracker.java:100-108 | a file written record by record loads back to the same records, in order, without nanoseconds |
| Codec.LoadAfterWrite | src/main/java/com/pluralsight/FinancialTracker.java:167-171 | a record appended to a file whose lines all decode is read back last on the next load |
| Queries.InDateRange | src/main/java/com/pluralsight/FinancialTracker.java:437 | the date test of the range report, specified by Queries.DateRangeInclusive |
| Queries.Matches | src/main/java/com/pluralsight/FinancialTracker.java:319 | the test of each view: amount > 0, amount < 0, the date range, or the vendor ignoring case; specified by Queries.SignViewsPartition, Queries.DateRangeInclusive and Queries.VendorMatch |
| Queries.Select | src/main/java/com/pluralsight/FinancialTracker.java:317-322 | a view shows at most the transactions in the list; its contents are pinned by Queries.SelectMembers (a transaction is shown exactly when it is in the list and matches) and its order by Queries.SelectAppend (the view of a concatenation is the concatenation of the views) |
| Queries.SelectMembers | src/main/java/com/pluralsight/FinancialTracker.java:317-322 | a view shows a transaction exactly when the list holds it and the transaction matches |
| Queries.SelectAppend | src/main/java/com/pluralsight/FinancialTracker.java:435-441 | views keep list order: the view of a concatenation is the concatenation of the views |
| Queries.SelectAllOrNone | src/main/java/com/pluralsight/FinancialTracker.java:435-441 | a list whose transactions all match is shown whole; a view is empty exactly when no transaction matches |
| Queries.SignViewsPartition | src/main/java/com/pluralsight/FinancialTracker.java:317-340 | every transaction is in exactly one of the deposit view, the payment view and the zero amounts, and a zero amount appears in neither view |
| Queries.DateRangeInclusive | src/main/java/com/pluralsight/FinancialTracker.java:437 | a date is in the range exactly when start ≤ date ≤ end, and both endpoints are included |
| Queries.VendorMatch | src/main/java/com/pluralsight/FinancialTracker.java:461 | a vendor matches exactly when it equals the query after folding case; a vendor of another length, such as one that only contains the query, never matches |
| Queries.Insert | src/main/java/com/pluralsight/FinancialTracker.java:266-267 | inserting adds exactly that transaction to the multiset |
| Queries.SortNewestFirst | src/main/java/com/pluralsight/FinancialTracker.java:266-267 | the sorted list is newest first by (date, time) and a permutation of the list |
| Queries.InsertSorted | src/main/java/com/pluralsight/FinancialTracker.java:266-267 | inserting into a newest-first list keeps it newest first |
| Queries.SortStable | src/main/java/com/pluralsight/FinancialTracker.java:266-267 | transactions with equal date and time keep their relative order |
| Queries.SortSorted | src/main/java/com/pluralsight/FinancialTracker.java:266-267 | a list already newest first is left as it is |
| Queries.SortIdempotent | src/main/java/com/pluralsight/FinancialTracker.java:266-267 | sorting twice gives the same list as sorting once |
| Queries.MonthToDate | src/main/java/com/pluralsight/FinancialTracker.java:374-375 | the month-to-date range, specified by Queries.MonthToDateRange |
| Queries.PreviousMonth | src/main/java/com/pluralsight/FinancialTracker.java:382-385 | the previous-month range, specified by Queries.PreviousMonthRange and Queries.PreviousMonthExamples |
| Queries.YearToDate | src/main/java/com/pluralsight/FinancialTracker.java:391-392 | the year-to-date range, specified by Queries.YearToDateRange |
| Queries.PreviousYear | src/main/java/com/pluralsight/FinancialTracker.java:399-402 | the previous-year range, specified by Queries.PreviousYearRange |
| Queries.MonthToDateRange | src/main/java/com/pluralsight/FinancialTracker.java:374-375 | month to date holds exactly the dates from day 1 of today's month through today |
| Queries.PreviousMonthRange | src/main/java/com/pluralsight/FinancialTracker.java:382-385 | previous month holds exactly the dates of the calendar month before today's, December of the year before in January |
| Queries.YearToDateRange | src/main/java/com/pluralsight/FinancialTracker.java:391-392 | year to date holds exactly the dates from January 1 through today |
| Queries.PreviousYearRange | src/main/java/com/pluralsight/FinancialTracker.java:399-402 | previous year holds exactly the dates of the year before today's |
| Queries.PresetsOrdered | src/main/java/com/pluralsight/FinancialTracker.java:372-405 | every preset starts no later than it ends |
| Queries.PreviousMonthExamples | src/main/java/com/pluralsight/FinancialTracker.java:382-385 | the month before March 2024 ends on February 29, before March 2023 on February 28, and before January 2024 is December 2023 |
| Input.ReadDateTime | src/main/java/com/pluralsight/FinancialTracker.java:559-567 | one answer to the date-time prompt, specified by Input.ReadDateTimeCases and Input.ReadDateTimeOfText |
| Input.ReadDateTimeCases | src/main/java/com/pluralsight/FinancialTracker.java:559-567 | a blank answer gives now; any other answer gives the parse of its trimmed text |
| Input.ReadDateTimeOfText | src/main/java/com/pluralsight/FinancialTracker.java:565-567 | the text of a date and time is read as that date and time |
| Input.FirstAnswer | src/main/java/com/pluralsight/FinancialTracker.java:556-573 | the answer found is among the answers given and reads as the date-time returned |
| Input.FirstAnswerIsFirst | src/main/java/com/pluralsight/FinancialTracker.java:556-573 | no earlier answer reads, and no date-time is found exactly when no answer reads |
| Input.PromptUserDateTime | src/main/java/com/pluralsight/FinancialTracker.java:554-575 | the prompt loop returns the first answer that reads and how many answers it used, or none after using them all |
| Input.Prompts | src/main/java/com/pluralsight/FinancialTracker.java:150-157 | a definition with no contract of its own: the program's readers (the date-time prompt at the clock reading, `trim`, the parseDouble helper in cents). What it means is stated by Input.PromptsValid (with a valid clock it reads only valid date-times) and Input.AddFlowAccepted (with any readers, the stored record is made of the accepted round's readings) |
| Input.AddFlow | src/main/java/com/pluralsight/FinancialTracker.java:137-257 | the `isDone` dialogue of addDeposit and addPayment as a function of the answers, specified by Input.FirstRoundStored (the first round with a positive amount is the one stored), Input.AddFlowAccepted, Input.AddFlowSign and Input.PaymentIsNegatedDeposit |
| Input.RoundAmount | src/main/java/com/pluralsight/FinancialTracker.java:154-161 | the `amount` variable after a round: the parsed amount, or the previous value when `parseDouble` gives null or the amount answer is missing (both caught by the inner `catch`); Input.AddFlowAccepted states that a stored amount is the positive value read from the round's amount answer |
| Input.FirstRoundStored | src/main/java/com/pluralsight/FinancialTracker.java:163-175 | when a round's amount is positive and the carried amount is not, the dialogue stores exactly that round's record (its date-time, trimmed description and vendor, and the amount, negated for a payment) and reads no line after that round; so the first round with a positive amount is the one stored, since a round with a non-positive amount passes on to the lines after it (Input.LaterRound) |
| Input.AddFlowAccepted | src/main/java/com/pluralsight/FinancialTracker.java:164-165 | a stored record holds the date-time, the trimmed description and vendor and the positive amount (negated for a payment) of the round that was accepted |
| Input.AddFlowSign | src/main/java/com/pluralsight/FinancialTracker.java:233-235 | a deposit is always stored positive and a payment negative |
| Input.PaymentIsNegatedDeposit | src/main/java/com/pluralsight/FinancialTracker.java:232-235 | on the same answers a payment is stored exactly when a deposit is, after the same answers, as the deposit with its amount negated once |
| Input.PromptsValid | src/main/java/com/pluralsight/FinancialTracker.java:561-567 | with a valid clock reading the prompts read only valid, printable date-times |
| Input.AddFlowDisplayable | src/main/java/com/pluralsight/FinancialTracker.java:164-165 | a record an add dialogue stores with valid readers is printable |
| Tracker.Lines | src/main/java/com/pluralsight/FinancialTracker.java:302-304 | one printed line per record: line i is the display of record i |
| Tracker.ShowAll | src/main/java/com/pluralsight/FinancialTracker.java:302-304 | the for-each loop prints the line of every record, in list order |
| Tracker.SelectLinesSnoc | src/main/java/com/pluralsight/FinancialTracker.java:435-441 | one more transaction adds its printed line exactly when it matches |
| Tracker.ShowSelected | src/main/java/com/pluralsight/FinancialTracker.java:435-441 | the for-each loop prints the line of each selected transaction, in list order |
| Tracker.ShowVendor | src/main/java/com/pluralsight/FinancialTracker.java:456-468 | prints the transactions of the vendor in order; found is set exactly when some transaction's vendor equals the query ignoring case |
| Tracker.FinancialTracker.constructor | src/main/java/com/pluralsight/FinancialTracker.java:18 | the list starts empty over the file's lines |
| Tracker.FinancialTracker.LoadTransactions | src/main/java/com/pluralsight/FinancialTracker.java:81-116 | appends the records of the file's lines up to the first bad one, in file order; the file is unchanged |
| Tracker.FinancialTracker.ReadFile | src/main/java/com/pluralsight/FinancialTracker.java:100-109 | the reading loop appends the decodings of the lines up to the first that does not decode |
| Tracker.FinancialTracker.AddEntry | src/main/java/com/pluralsight/FinancialTracker.java:137-186 | when the dialogue stores a record, the record is appended at the end of the list and its line is appended to the file if the write succeeds, with earlier entries unchanged; otherwise nothing changes |
| Tracker.FinancialTracker.Add | src/main/java/com/pluralsight/FinancialTracker.java:165 | appends one record at the end of the list, with the file unchanged |
| Tracker.FinancialTracker.Store | src/main/java/com/pluralsight/FinancialTracker.java:165-171 | appends the record to the list, then its line to the file when the write succeeds |
| Tracker.FinancialTracker.AddDeposit | src/main/java/com/pluralsight/FinancialTracker.java:127-188 | addDeposit: as AddEntry with the program's readers and a positive amount |
| Tracker.FinancialTracker.AddPayment | src/main/java/com/pluralsight/FinancialTracker.java:195-259 | addPayment: as AddEntry with the program's readers and the amount negated |
| Tracker.FinancialTracker.SortLedger | src/main/java/com/pluralsight/FinancialTracker.java:266-267 | the list becomes its stable newest-first sort, a permutation of it |
| Tracker.FinancialTracker.Show | src/main/java/com/pluralsight/FinancialTracker.java:435-441 | prints the toString of each selected transaction, in list order |
| Tracker.FinancialTracker.DisplayLedger | src/main/java/com/pluralsight/FinancialTracker.java:296-309 | displayLedger prints the toString of every transaction, in list order |
| Tracker.FinancialTracker.DisplayDeposits | src/main/java/com/pluralsight/FinancialTracker.java:311-328 | prints exactly the transactions with amount > 0, in list order |
| Tracker.FinancialTracker.DisplayPayments | src/main/java/com/pluralsight/FinancialTracker.java:330-347 | prints exactly the transactions with amount < 0, in list order |
| Tracker.FinancialTracker.FilterTransactionsByDate | src/main/java/com/pluralsight/FinancialTracker.java:428-446 | prints exactly the transactions dated from start through end, in list order |
| Tracker.FinancialTracker.FilterTransactionsByVendor | src/main/java/com/pluralsight/FinancialTracker.java:453-474 | prints exactly the transactions whose vendor equals the query ignoring case; found (no "did not find" message) exactly when one matched |

## Left out

- Console I/O is not modelled: the menus of `main`, `ledgerMenu` and `reportsMenu`, the prompt and message texts, and the ANSI colours. A view returns the lines it prints. The header line `firstLine` and the report titles are not among them.
- Real file access is not modelled: creating, reading and appending `transactions.csv`. The file is a sequence of lines, and a write appends one line. Whether the write succeeds is the parameter `writeOk`.
- `LocalDateTime.now()` and `LocalDate.now()` are parameters: `now` for an add dialogue, and "today" for the presets. The Java reads the clock again on every blank date-time answer; the model uses one clock reading per dialogue.
- The readers of the add dialogue are parameters of `Tracker.FinancialTracker.AddEntry`, and the reader of the file loop is a parameter of `Tracker.FinancialTracker.ReadFile`. `Input.Prompts(now)` and `Codec.Decode` are the instances the program uses.
- Floating point is not modelled.
  - Amounts are exact cents.
  - `Double.parseDouble` is modelled on plain decimal text after `String.trim`. Exponents, hexadecimal, `NaN`, `Infinity` and the `f`/`d` suffixes are not modelled.
- `%.2f` in `String.format` uses the default locale. The model always writes a '.' before the cents. Under a locale with a decimal comma, Java writes `89,50`. `Double.parseDouble` then rejects that line on the next load, and loading stops there. So Codec.DecodeEncode and Codec.LoadAfterWrite describe the program under a locale whose decimal separator is '.'. Locales are not modelled.
- Formats.RoundToCents: `Math.round` returns a `long` and saturates at `Long.MIN_VALUE`/`Long.MAX_VALUE`. An answer beyond about 9.2 × 10^16, such as `100000000000000000`, is stored by Java as `Long.MAX_VALUE / 100.0`, while the model keeps the value exact.
- Codec.Decode: rounds the amount read to the nearest cent, where `loadTransactions` keeps the raw double. This changes more than precision. A hand-edited file line whose amount is in [-0.005, 0.005) (`0.004`, `-0.004`, `-0.005`) is loaded with amount 0 in the model, since a half cent rounds up. It then appears in neither sign view. Java keeps `0.004`, which `displayDeposits` shows because it is `> 0`; likewise `-0.004` and `-0.005` are shown by `displayPayments`. The display differs too: for a negative half cent such as `-0.125`, Java's `%.2f` rounds half away from zero and prints `-0.13`, while the model loads -12 cents and prints `-0.12`. Lines written by the program itself have two decimals, so they are unaffected.
- `customSearch` is not modelled: it is an unimplemented stub that only prints.
- Java strings are UTF-16; the model uses `seq<char>`. `equalsIgnoreCase` folds ASCII letters only.
- Years are 1 to 999,999,999.
  - `yyyy` prints a sign and more digits above 9999 and parses them back.
  - Years before 1, and the region near the limit of `LocalDate`, are not modelled.
- The list holds transaction values (`Transactions.Record`), not references to `Transaction` objects. No code changes a stored transaction through a setter, so this is not observable.
- A `|` typed into a description or vendor is not rejected in Java, and the model does not reject it either.
  - `Codec.DecodeEncode` requires a record without `|`.
  - `Codec.DecodeEncodeWithSeparator` states what a description with one `|` reads back as.
