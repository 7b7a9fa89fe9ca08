# Studio Lumi booking engine, modelled in Dafny

Studio Lumi is a one-file booking service for a photo studio with three
halls (`app.py`). A client asks which one-hour slots of a hall are free on a
date, books one (with optional add-ons), gets a price and a calendar file,
lists their bookings by phone number, and may cancel a booking. This
project models the engine behind those requests and proves properties of
it:

- **Time grid** (`TimeGrid`, `time_grid.dfy`): `time_to_min` is
  `TimeGrid.TimeToMin`, `parse_slot` is `TimeGrid.ParseSlot` and
  `min_to_range` is `TimeGrid.MinToRange`, on `HH:MM` and `HH:MM–HH:MM` text.
- **Dates** (`Dates`, `dates.dfy`): the `int(...)`/`datetime(y, m, d)` parsing of
  `YYYY-MM-DD` (`Dates.ParseDate`), the proleptic Gregorian ordinal and ISO
  weekday behind `is_weekend` (`Dates.IsWeekend`), and the text order of
  ISO dates.
- **Pricing** (`Pricing`, `pricing.dfy`): `calc_price` is the method
  `Pricing.CalcPrice`, proved equal to the function `Pricing.Price`, with
  the weekend and prime-time surcharges and Python's round-half-to-even.
- **Availability** (`Availability`, `availability.dfy`): the loop of `slots`
  over the 09:00–21:00 grid is the method `Availability.Slots`, proved
  equal to the range texts of `Availability.FreeStarts`, with a 15-minute
  buffer around every confirmed booking.
- **Calendar text** (`Ics`, `ics.dfy`): the iCalendar text `make_ics` writes
  is `Ics.Content`; the module also states what a line-by-line reader
  (`Ics.Property`) reads back from it.
- **Ledger** (`Ledger`, `ledger.dfy`): the `bookings` table as a class whose
  rows `book` appends to and `cancel` updates in place. `book` is the
  method `Ledger.Ledger.Book`, specified by `Ledger.BookDecision`; `cancel`
  is `Ledger.Ledger.Cancel`, specified by `Ledger.CancelRows`; `slots` is
  `Ledger.Ledger.ListSlots` over `Ledger.BusyFor`; `bookings` is
  `Ledger.Ledger.Bookings`, specified by `Ledger.Listing`. It also holds
  the invariant that confirmed bookings of one hall under the same date text never come within the
  buffer of each other. Dates are compared as text, as the SQL does, so
  one calendar day written two ways (`2024-06-01` and `2024-6-1`) can hold
  two bookings of the same hall and hour (`Ledger.SameDayBookedTwice`).
- `Text` (`text.dfy`) holds the Python string operations the code relies on
  (`split`, `strip`, `replace`, `int` on decimal digits, `f"{n:02d}"`) and
  SQLite's BINARY text order. `Wrappers` (`wrappers.dfy`) holds `Option`
  and `Result`.

Some modelling decisions:

- **Failures.** The HTTP 400 and 409 refusals, and three exceptions the
  code can raise, become values of `Ledger.Error`. The refusals are
  `MissingField`, `SlotNotAvailable` and `UnknownHall`. The exceptions are
  `BadSlot` (`int` rejects the slot text), `BadDate` (`int` or `datetime`
  rejects the date) and `DuplicateBookingId` (the PRIMARY KEY rejects the
  insert). Other exceptions are listed under "Left out".
  The model keeps the code's order of checks: fields, slot text, conflict,
  hall, date, booking id. On an arbitrary table a slot conflict would be
  reported even for an unknown hall (`Ledger.ConflictBeforeHall`). On the
  tables `book` builds from an empty one this cannot happen, because a
  row is appended only after its hall was found.
- **Duplicate booking ids.** The booking id is derived from date, hall and
  hour. Inserting a row whose id is already in the table violates the
  `booking_id` PRIMARY KEY. The code does a plain `INSERT`, so the request
  fails and nothing is overwritten. The model follows the code.
  - One consequence is proved (`Ledger.RebookAfterCancelRefused`): after a
    cancellation, `slots` lists the slot as free again, yet booking it
    again fails.
- **Coefficients.** The hall coefficients are kept exactly, in hundredths:
  A is 110, B is 115 and C is 120. The prime-time factor is 13/10.
  `round` is round-half-to-even on the exact product.
- **Environment inputs are parameters.** These are the generation stamp
  of the calendar file, the `created_at` time and the public base URL.

## Model

| member | source | states |
|---|---|---|
| Text.NatToString | app.py:115 | the decimal text of n is a non-empty run of digits, one digit exactly when n < 10; `int` reads it back (see ParseNatToString) |
| Text.Pad2 | app.py:113 | `f"{n:02d}"` is a run of digits, exactly two of them below 100; `int` reads it back (see ParsePad2) |
| Text.Split | app.py:92 | `split` gives at least one part and no part holds the separator; see SplitAtFirst, SplitNoSep and SplitJoin |
| Text.ParseNatToString | app.py:92 | `int` reads the decimal text of n back as n |
| Text.ParsePad2 | app.py:113 | `int` reads the zero-padded text `f"{n:02d}"` back as n |
| Text.DigitsValueLeadingZero | app.py:113 | a leading zero does not change the value `int` reads |
| Text.SplitAtFirst | app.py:98 | `split` cuts at the first separator: the first part is exactly the text before it |
| Text.SplitNoSep | app.py:92 | text without the separator splits into one part, itself |
| Text.SplitJoin | app.py:78 | `split` undoes joining parts that hold no separator |
| Text.Replace | app.py:97 | `replace` of one character keeps the length, leaves text without that character unchanged, and leaves none of it behind |
| Text.ReplaceOne | app.py:97 | on a one-character text, `replace` yields `to` if the character is `from` and the character itself otherwise; with ReplaceAppend this fixes the result on every text |
| Text.ReplaceAppend | app.py:97 | replacing in a concatenation is replacing in each part |
| Text.TrimLeft | app.py:98 | the left-stripped text is a suffix of the input that starts with a non-space (or is empty), and every removed character is whitespace |
| Text.TrimRight | app.py:98 | the right-stripped text is a prefix of the input that ends with a non-space (or is empty), and every removed character is whitespace |
| Text.StrLeTotal | app.py:228 | any two texts are comparable in the order `ORDER BY date` uses |
| Text.StrLeAntisymmetric | app.py:228 | texts that precede each other are equal |
| Text.StrLeTransitive | app.py:228 | the text order is transitive |
| Text.StrLtConcat | app.py:228 | texts with equal-length heads compare by head first, then by tail |
| Text.DigitsOrder | app.py:228 | on digit strings of equal length, text order is numeric order |
| TimeGrid.TimeToMinOf | app.py:91-93 | `H:M` gives 60·H + M for decimal H and M, zero-padded or not |
| TimeGrid.TimeToMinFields | app.py:91-93 | two fields `int` accepts, joined by `:`, give 60·hours + minutes |
| TimeGrid.TimeToMinUnchecked | app.py:91-93 | there is no range check: `25:99` means 1599 minutes |
| TimeGrid.TimeToMinClock | app.py:91-105 | `time_to_min` reads a clock time written by `min_to_range` back as its minute offset |
| TimeGrid.StripUnchanged | app.py:98 | `strip` leaves text with non-space ends unchanged |
| TimeGrid.ParseSlotAnySeparator | app.py:95-99 | a clock time followed by `-`, an en dash or an em dash and any text parses to that clock's minute offset |
| TimeGrid.ParseSlotRoundTrip | app.py:95-105 | `parse_slot(min_to_range(m, dur)) == m` for every m and dur |
| TimeGrid.MinToRangeInjective | app.py:101-105 | different start minutes give different range texts |
| Dates.IsoWeekday | app.py:79 | the ISO weekday is between 1 and 7 |
| Dates.LeapRule | app.py:79 | the leap-year rule counted as +1 per multiple of 4, -1 per 100, +1 per 400 |
| Dates.DaysBeforeYearStep | app.py:79 | the day count before year y+1 is the count before y plus the length of y |
| Dates.DaysBeforeMonthStep | app.py:79 | the month-offset table agrees with the month lengths, and its last entry with the year length |
| Dates.OrdinalNextDay | app.py:79 | for every valid date but 9999-12-31, the next day is valid and has the next ordinal |
| Dates.WeekdayNextDay | app.py:79 | for every valid date but 9999-12-31, the ISO weekday advances by one each day, Sunday wrapping to Monday |
| Dates.FirstDayIsMonday | app.py:79 | 0001-01-01 is a Monday |
| Dates.OrdinalOfExampleDate | app.py:79 | 2024-06-01 is day 739038 |
| Dates.ExampleDateIsSaturday | app.py:79 | 2024-06-01 is a Saturday |
| Dates.DateFieldsIsoText | app.py:78 | splitting an ISO date text at `-` and applying `int` gives back the date |
| Dates.ParseDateIsoText | app.py:78-79 | `datetime` accepts the fields of an ISO date text exactly when the date is valid |
| Dates.IsWeekendIsoText | app.py:77-79 | `is_weekend` of a valid date is its weekday being 6 or 7; an invalid date is refused |
| Dates.IsWeekendExamples | app.py:77-79 | 2024-06-01 is a weekend day; 2023-02-29 is refused |
| Dates.DateFieldsUnpaddedText | app.py:78 | `int` also reads the unpadded text `Y-M-D` of a date back as that date |
| Dates.TwoTextsOneDay | app.py:77-79 | padded and unpadded texts of a date name the same day to `datetime` and `is_weekend`, and differ as texts for months before October |
| Dates.IsoTextOrder | app.py:228 | for four-digit years, the text order of ISO dates is calendar order, in both directions |
| Pricing.RoundHalfEven | app.py:84-86 | the result is within half a unit of n/d, and a tie goes to the even neighbour |
| Pricing.RoundHalfEvenUnique | app.py:84-86 | only one integer meets those two conditions |
| Pricing.RoundHalfEvenMonotone | app.py:84-86 | rounding preserves order |
| Pricing.RoundHalfEvenTies | app.py:84-86 | 2.5 rounds to 2, 3.5 to 4 and -2.5 to -2 |
| Pricing.CalcPrice | app.py:81-89 | no price exactly when the date is refused; otherwise the price of the hall, the weekend flag of the date, the start and the add-ons |
| Pricing.AddonsAddFlat | app.py:87-88 | each add-on adds its price once, after the surcharges |
| Pricing.PlainSlotPrice | app.py:81-89 | on a weekday outside prime time, the price is the base price plus the add-ons |
| Pricing.SurchargesCompound | app.py:83-86 | on a weekend prime-time slot, the weekend coefficient is applied and rounded first, then the prime-time factor |
| Pricing.SurchargesNeverLower | app.py:82-86 | with a coefficient of at least 1, neither surcharge lowers the price |
| Pricing.SeedHallPrimeTimePrices | app.py:16-20 | 18:00 slots of the seeded halls: A costs 14300 on a weekend and 13000 on a weekday, B 17940 and C 23400 on a weekend |
| Availability.AnyConflict | app.py:162 | the conflict flag is set exactly when some busy interval comes within the buffer of the slot |
| Availability.FreeFrom | app.py:159-165 | every start listed from `start` on is at least `start` |
| Availability.FreeFromMember | app.py:159-165 | from a grid start on, m is listed iff it is a later grid start and not blocked |
| Availability.FreeFromAscending | app.py:159-165 | listed starts strictly ascend |
| Availability.FreeFromCount | app.py:159-165 | at most one start per remaining hour, and all of them when nothing is busy |
| Availability.FreeStartsExact | app.py:157-165 | m is listed iff it is a grid start from 09:00 to 20:00 and no busy interval blocks it |
| Availability.FreeStartsShape | app.py:157-165 | the listed starts ascend, number at most 12, and are all 12 when nothing is busy |
| Availability.Ranges | app.py:164 | one range text per start |
| Availability.RangesMember | app.py:164 | a slot's range text is listed iff its start is |
| Availability.RangesStep | app.py:160-165 | one loop step appends the slot's range exactly when it is not blocked |
| Availability.Slots | app.py:157-165 | the loop's output is the range texts of the free grid starts |
| Availability.SlotListedExactly | app.py:157-165 | a slot's range text is in the output iff the slot is on the grid and not blocked |
| Ics.EventLines | app.py:123-128 | the event carries six property lines |
| Ics.LocalDateTimeNoBreak | app.py:115-116 | a local date-time value holds no line break |
| Ics.TerminateAppend | app.py:118-132 | terminating two runs of lines is terminating each in turn |
| Ics.SplitTerminated | app.py:118-132 | CRLF-terminated lines cut at each LF give back each line with its CR |
| Ics.LookupSkips | app.py:118-132 | a reader skips lines that do not hold the property |
| Ics.ReadBackAt | app.py:118-132 | a `name:value` line after lines without LF and without `name` is what a reader finds for `name` |
| Ics.OpeningHoldsNoProperty | app.py:119-122 | the four fixed opening lines hold none of the booking's properties |
| Ics.EventPropertyReadsBack | app.py:118-132 | an event property preceded only by lines without it reads back from the calendar text |
| Ics.UidReadsBack | app.py:123 | the UID property reads back as the booking id |
| Ics.DtStampReadsBack | app.py:124 | the DTSTAMP property reads back as the generation stamp |
| Ics.DtStartReadsBack | app.py:110-125 | DTSTART reads back as `YYYYMMDDTHHMM00` of the start |
| Ics.DtEndReadsBack | app.py:111-126 | DTEND reads back as `YYYYMMDDTHHMM00` of the end |
| Ics.SummaryNamesHall | app.py:127 | SUMMARY reads back as the fixed title with the hall id in parentheses |
| Ics.NoBreakAppend | app.py:118-132 | a concatenation holds no LF iff neither part does |
| Ics.StampLinesNoBreak | app.py:123-126 | the UID, DTSTAMP, DTSTART and DTEND lines hold no LF when the id and stamp hold none |
| Ics.TextLinesNoBreak | app.py:127-128 | the SUMMARY and DESCRIPTION lines hold no LF when the id, hall, name and phone hold none |
| Ics.ContentLinesEndInCrlf | app.py:118-132 | when the booking's text fields hold no LF, cutting the calendar text at each LF gives every content line followed by CR, then an empty rest: every line ends in CRLF |
| Ledger.FindHall | app.py:196-198 | a found hall is in the table with that id; nothing is found iff no hall has it |
| Ledger.ResolveAddons | app.py:200 | one add-on per name, in order, priced from ADDONS_PRICE and 0 for an unknown name |
| Ledger.SeedHallWithAddons | app.py:21-25 | hall A on a weekend at 18:00 with "Набор свет A" and "Фон белый" from the price list costs 14300 + 4500 |
| Ledger.BusyFor | app.py:153-157 | at most one busy interval per row; which intervals, see BusyForExact |
| Ledger.BusyForExact | app.py:153-157 | the busy intervals are exactly those of the confirmed rows of that hall and date text |
| Ledger.BlockedByRow | app.py:184-194 | a start is blocked iff some confirmed row of that hall and date text comes within the buffer |
| Ledger.DecisionAfterParse | app.py:176-180 | with all fields present and a parsed slot, `book` goes on to the placement checks |
| Ledger.BookDecision | app.py:168-209 | an accepted booking has a date `datetime` accepts; the order of refusals is in BookErrorOrder and DecisionAfterParse, the new row in BookSuccessRow |
| Ledger.Placement | app.py:182-209 | an accepted booking has a date `datetime` accepts; each refusal and the new row are in PlacementChecks |
| Ledger.PlacementChecks | app.py:182-209 | each refusal holds exactly when its check fails and the earlier ones pass, in the order conflict, hall, date, id; an accepted booking is the new confirmed row |
| Ledger.BookErrorOrder | app.py:176-198 | missing fields are reported first, then an unreadable slot, then a conflict with a confirmed row; an unknown hall is one no hall has |
| Ledger.ConflictBeforeHall | app.py:183-198 | an overlapping confirmed row refuses the request as a conflict, whatever the hall |
| Ledger.BookAccepted | app.py:176-209 | an accepted request has all fields, a parsed slot, no conflict, a known hall, a valid date and a fresh id |
| Ledger.BookSuccessRow | app.py:179-209 | the new row: the request's hall, date, name and phone, one hour from the parsed start, the derived id, each add-on priced from the table (0 if unknown), the computed price, confirmed |
| Ledger.AppendKeepsInvariant | app.py:204-209 | appending a fresh-id one-hour row that nothing blocks keeps the table invariant |
| Ledger.BookRowFits | app.py:184-209 | an accepted row has a fresh id, lasts one hour, is confirmed and is not blocked |
| Ledger.BookKeepsInvariant | app.py:168-209 | an accepted booking keeps the table invariant |
| Ledger.CancelRows | app.py:220 | the UPDATE keeps the number of rows; what it changes, see CancelOnlyStatus and CancelUnknownNoop |
| Ledger.CancelOnlyStatus | app.py:220 | cancel changes only the status, and only of the rows with that id |
| Ledger.CancelUnknownNoop | app.py:220 | canceling an id no row has changes nothing |
| Ledger.CancelKeepsInvariant | app.py:214-222 | cancel keeps the table invariant |
| Ledger.CancelFreesInterval | app.py:214-222 | when the only confirmed rows of a hall and date text carry the canceled id, nothing blocks that hall and date text afterwards |
| Ledger.RunKeepsInvariant | app.py:168-222 | any sequence of book and cancel requests keeps the table invariant: unique ids, one-hour rows, and confirmed rows of one hall and date text a buffer apart |
| Ledger.ApplyKeepsInvariant | app.py:168-222 | one book or cancel request keeps the table invariant |
| Ledger.ListedIffBookable | app.py:157-194 | a grid slot is listed by `slots` iff `book` does not refuse it as a conflict |
| Ledger.SlotHiddenBy | app.py:162 | a slot that comes within the buffer of a confirmed row is not listed |
| Ledger.LiveRowHidesNeighbours | app.py:162 | a confirmed one-hour row hides every slot within the buffer of it |
| Ledger.BookedSlotHidden | app.py:162-209 | after a booking, its slot and the grid slots just before and after it are no longer listed |
| Ledger.Matching | app.py:227-230 | the selection has at most as many rows as the table; which rows, see MatchingExact |
| Ledger.MatchingExact | app.py:227-230 | the rows `bookings` selects are exactly the confirmed rows with that phone |
| Ledger.RowLeTotal | app.py:228 | any two rows are ordered by (date, start) one way or the other |
| Ledger.RowLeTransitive | app.py:228 | the (date, start) order is transitive |
| Ledger.Insert | app.py:228 | insertion adds exactly one row (as multisets) and puts either it or the old head first; see InsertSorted |
| Ledger.SortRows | app.py:228 | the sort keeps the number of rows; ordered and a permutation, see SortRowsCorrect |
| Ledger.InsertSorted | app.py:228 | inserting into a sorted listing keeps it sorted |
| Ledger.SortRowsCorrect | app.py:228 | the sorted rows are ordered by (date, start) and are a permutation of the input |
| Ledger.SortedPairs | app.py:228 | in a sorted listing every earlier row precedes every later one |
| Ledger.ListingComplete | app.py:224-234 | every confirmed row with the phone appears in the listing |
| Ledger.ListingSound | app.py:224-234 | every listed entry comes from a confirmed row with the phone |
| Ledger.ListingOrdered | app.py:228 | the listing has one entry per matching row, in non-decreasing date text order |
| Ledger.ListingStartOrder | app.py:228 | rows of the same date are listed by start time |
| Ledger.ListingChronological | app.py:228 | for ISO dates with four-digit years, no later date is listed before an earlier one |
| Ledger.CancelAppendedFrees | app.py:214-222 | canceling a just-booked row frees its start and leaves its id in the table |
| Ledger.RebookedRequest | app.py:202-209 | repeating an accepted request on a table that still holds its id, with the slot free, is refused as a duplicate id |
| Ledger.RebookAfterCancelRefused | app.py:202-222 | after a booking is canceled, its grid slot is listed again, yet the same request is refused as a duplicate id |
| Ledger.AcceptedBesideOtherDates | app.py:176-209 | a well-formed request is accepted, as the new row, when no row has its date text and its id is fresh |
| Ledger.AcceptedBesideOneRow | app.py:176-209 | beside one row of another date text and id, a well-formed request for a known hall and a valid date is accepted |
| Ledger.IdsOfDifferentLength | app.py:202 | ids built from date texts of different lengths differ |
| Ledger.SameDayBookedTwice | app.py:154-209 | one hall and hour of one calendar day is booked twice, both confirmed: once under the padded date text, once under the unpadded one |
| Ledger.BookingIdExample | app.py:202 | a 15:00 booking of hall A on 2024-06-01 has id `BK-2024-06-01-A-1500` |
| Ledger.AcceptedOnEmptyTable | app.py:168-209 | on an empty table, a well-formed request for a known hall and valid date is accepted with the computed price and derived id |
| Ledger.FirstBookingExample | app.py:16-20 | on the seeded halls, Saturday 2024-06-01 18:00–19:00 in hall A is accepted at 14300 |
| Ledger.Ledger.constructor | app.py:45-75 | the ledger starts with the three seeded halls and no bookings |
| Ledger.Ledger.Book | app.py:168-212 | a refused request leaves the table unchanged and returns the decision's error; an accepted one appends the new row and returns its id, price, calendar URL and text; the invariant is kept |
| Ledger.Ledger.Place | app.py:182-212 | the conflict, hall, date and id checks and the insert, on the same terms as `Book` |
| Ledger.Ledger.Cancel | app.py:214-222 | a missing id is refused and changes nothing; otherwise the rows with that id are marked canceled and the call succeeds, even for an unknown id |
| Ledger.Ledger.ListSlots | app.py:148-166 | refused iff the hall or date is missing; otherwise the free grid slots for the confirmed rows of that hall and date text |
| Ledger.Ledger.Bookings | app.py:224-234 | one entry per confirmed row with that phone: every such row is listed, every entry comes from one, and entries are in non-decreasing date-text order (start order within a date, see ListingStartOrder) |

## Left out

- HTTP routing, CORS, status codes and the `/health` and `/ics/{fname}` endpoints. Errors become `Ledger.Error` values.
- SQLite plumbing: connections, WAL mode, the `CREATE TABLE` statements, commits. The `bookings` table is a sequence of rows in insertion order and `halls` is a constant sequence.
- Concurrency: each request is one atomic step on the ledger. Interleaved requests are not modelled.
- Writing the calendar file to disk and serving it. `IcsFor` is the text that would be written, and the URL is `baseUrl` followed by the relative path. The code writes the file after `db.commit()` (app.py:209-211). If the write fails, for example because a date text padded with leading zeros makes the file name longer than 255 bytes, the row stays confirmed while the request fails with a 500. `Ledger.Ledger.Book` returns `Success` in that case.
- Clock and environment: `datetime.utcnow()` (the DTSTAMP value), SQLite's `datetime('now')` and `BASE_URL` are parameters (`dtstamp`, `createdAt`, `baseUrl`).
- The add-on list's JSON encoding in the `addons` column. Rows keep the resolved add-ons as a sequence.
- Request payloads are modelled as optional strings. Non-string JSON values (numbers, lists) and Python truthiness of such values are not modelled.
- Pricing.CalcPrice: the weekend coefficient is applied exactly, in hundredths, where the code multiplies floats. A product whose float value lands on the other side of a .5 boundary than the exact one would round differently. This does not happen for the seeded halls.
- Text.ParseNat: accepts ASCII decimal digits only. Python's `int` also accepts surrounding whitespace, a sign, `_` separators and non-ASCII digits. CPython 3.11 and later also refuse decimal text of more than 4300 digits, leading zeros included (`sys.get_int_max_str_digits`), with a `ValueError` at app.py:78 and app.py:92. The model reads any number of digits, so a slot or date padded with thousands of zeros is accepted here but refused there.
- Text.Strip: strips the characters of Python's `string.whitespace` only. Python's `strip` also strips U+001C to U+001F and non-ASCII whitespace.
- Ics.Content: no line folding and no TEXT escaping, as in the code. The model makes no claim that long lines or values holding `,`, `;` or line breaks are valid iCalendar. A name or phone holding LF is inserted raw into DESCRIPTION and breaks the CRLF line structure; `Ics.ContentLinesEndInCrlf` requires the booking's text fields to hold no LF for that reason. DTSTART and DTEND are not valid DATE-TIME values for a slot ending at or after midnight (the hour prints as 24 or more, e.g. `20240603T243000` for a 23:30 start) or for a year below 1000 (the year is not padded to four digits).
- Ledger.Ledger.Bookings: rows with equal date and start are listed in insertion order. SQLite leaves their order unspecified.
- Ledger.Placement: start and end offsets are unbounded. The code binds `start_min` and `end_min` as SQLite INTEGER parameters of the conflict query, and Python's `sqlite3` raises `OverflowError` when `start_min + 60` reaches 2^63. Such a request inserts nothing in the code, while the model accepts it.
- Double booking of one calendar day under two date texts: the model keeps the code's text comparison of dates and shows the consequence in `Ledger.SameDayBookedTwice`. It does not model a canonical date comparison.
- An exception raised inside `calc_price` (an invalid date after the hall check) is modelled as the `BadDate` refusal.
