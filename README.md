# bookqueens: slot selection and retry driver

`bookit.py` books a facility (a BBQ pit, a tennis court, ...) on a condominium's
booking portal. It logs in, fetches the facility's listing page, scans the
links of that page for the requested date and start time, submits the booking
form of the chosen slot, and optionally retries. This project models the logic
of that script in Dafny and proves properties of it:

- `scan.dfy` (module `Scan`): leftmost search for fixed-length patterns. It
  covers the two regular expressions `dDate=(\d\d\d\d-\d\d-\d\d)` and
  `cDesc=(\d\d\d\d)-(\d\d\d\d)` with their capture groups, and Python's
  substring test `sub in s`.
- `booking.dfy` (module `Booking`): the decision made by `BookingControl.book`.
  The listing is a sequence of links, each an anchor text and a URL. The
  decision is a first-match scan in page order with three outcomes: book this
  link, the slot is already booked (`RuntimeError`), or nothing is available
  (`ValueError`). The module also holds the `SUCCESS` test on the portal's
  reply and the `FACILITIES` table.
- `retry.dfy` (module `Retry`): the `--retry` loop at the end of the script, as
  a method over local variables. It is proved equal to a recursive
  specification, and lemmas about that specification follow. The network is
  replaced by `outcome(i)`, which says how the i-th call of `book` ends.
- `wrappers.dfy` (module `Wrappers`): `Option`.

Three consequences of the code are worth stating up front:

- An earlier `cancel=true` link on the requested date, whose start time is
  missing or different and whose anchor text starts with the hour, raises the
  already-booked error before a later open slot for the same date and time is
  reached (`Booking.CancelLinkAlreadyBooked`).
- The retry loop catches only `ValueError`. The `RuntimeError` for an
  already-booked slot is not retried: it ends the script at once, without the
  trailing call (`Retry.LoopStopsAtFirstDecisive`, `Retry.RunCrashesOnLoopError`).
- With `--retry 3`, two not-available results and then a booking, "Booked!"
  is printed only if the trailing fourth call also returns true
  (`Retry.ThirdAttemptBooks`, `Retry.LoopBookingOverridden`).

## Model

| member | source | states |
|---|---|---|
| `Scan.FirstMatch` | bookit.py:57-58 | the result is the leftmost index at or after `from` where every position of the pattern matches; None means no index matches |
| `Scan.Search` | bookit.py:63-64 | `re.search(...).group(n)`: None exactly when the pattern matches nowhere; otherwise the group has the group's length and each character fits the group's position in the pattern |
| `Scan.SearchIsLeftmostGroup` | bookit.py:63-64 | the group returned is exactly the slice of the group's positions within the leftmost match |
| `Scan.LiteralMatchesAt` | bookit.py:68 | a pattern made only of literals matches at `i` exactly when the string occurs at `i` |
| `Scan.Contains` | bookit.py:68 | `sub in s` holds exactly when `sub` occurs somewhere in `s` |
| `Booking.DateOf` | bookit.py:57 | the extracted date is None exactly when `dDate=dddd-dd-dd` occurs nowhere in the URL; otherwise it is 10 characters shaped `dddd-dd-dd` |
| `Booking.TimeOf` | bookit.py:58 | the extracted start time is None exactly when `cDesc=dddd-dddd` occurs nowhere in the URL; otherwise it is four digits |
| `Booking.DateOfIsLeftmost` | bookit.py:57 | the extracted date is the ten characters after `dDate=` at the leftmost match of the date pattern |
| `Booking.TimeOfIsLeftmostStart` | bookit.py:58 | the extracted time is the start time, the four digits after `cDesc=` at the leftmost match of the time pattern; the end time is never compared |
| `Booking.LinkVerdict` | bookit.py:63-69 | a link decides only when its date is the requested one and never says not-available; it books only its own URL and only when its start time is the hour; it says already-booked only when its start time is missing or different, its URL contains `cancel=true` and its anchor text starts with the hour |
| `Booking.Choose` | bookit.py:62-72 | a booking or an already-booked verdict always comes from some link of the listing that produces that verdict |
| `Booking.ChooseFirstHit` | bookit.py:62-69 | the first link in page order that produces a verdict decides the outcome |
| `Booking.NotAvailableIffNoVerdict` | bookit.py:62-72 | nothing is available exactly when no link produces a verdict, including for the empty listing |
| `Booking.OpenSlotBooked` | bookit.py:65-67 | the first link whose date and start time equal the request is booked if no earlier link decided, even when its URL carries `cancel=true` |
| `Booking.CancelLinkAlreadyBooked` | bookit.py:65-69 | a `cancel=true` link on the requested date with a missing or different start time, whose anchor text starts with the hour, raises already-booked if no earlier link decided |
| `Booking.ChooseBooksOnlyRequestedSlot` | bookit.py:65-67 | a booking is only ever of a listed link whose date and start time both equal the request |
| `Booking.ChooseAlreadyBookedOnlyFromCancelLink` | bookit.py:65-69 | already-booked only comes from a listed `cancel=true` link on the requested date, with a missing or different start time, whose anchor text starts with the hour |
| `Booking.OtherDateIgnored` | bookit.py:65 | a link with no date or another date never decides: inserting it anywhere leaves the outcome unchanged |
| `Booking.MalformedDateNotAvailable` | bookit.py:57-65 | a requested date not shaped `dddd-dd-dd` can never match, so the outcome is not-available |
| `Booking.MalformedHourNeverBooks` | bookit.py:58-66 | a requested hour that is not four digits never leads to a booking |
| `Booking.BookingSucceeded` | bookit.py:55 | the booking result is true exactly when the reply body contains `SUCCESS` |
| `Booking.BookFacility` | bookit.py:60-72 | `book` returns a boolean exactly when the scan chose a link, true exactly when that link's reply contains `SUCCESS`; otherwise it raises already-booked or not-available, carrying facility, date and hour |
| `Booking.FacilityNumbers` | bookit.py:75-91 | the facility numbers lie in 1..15 and no two names share a number |
| `Booking.ExampleDate` | bookit.py:57 | the date extracted from `dDate=2024-06-01&cDesc=1400-1600` is `2024-06-01` |
| `Booking.ExampleTime` | bookit.py:58 | the start time extracted from that URL is `1400`; no `cDesc=` match starts earlier in it |
| `Booking.ExampleListing` | bookit.py:62-67 | a listing holding that URL, requested for 2024-06-01 at 1400, books it |
| `Retry.Loop` | bookit.py:115-127 | the loop makes at most `attempts` calls; it stops early only right after a call that returned true; it aborts only on an exception other than `ValueError`, which it passes on |
| `Retry.Run` | bookit.py:112-133 | the script prints at most `retry` dots, and a printed verdict is always the result of the call made after the loop |
| `Retry.RetryThenBook` | bookit.py:112-133 | the imperative driver ends exactly as the specification `Run` says: loop, then one trailing call |
| `Retry.LoopStopsAtFirstDecisive` | bookit.py:115-127 | the loop stops right after the first call that neither returned false nor raised `ValueError`: finished with result true, or aborted with that call's exception |
| `Retry.LoopExhausted` | bookit.py:115-127 | when every call returns false or raises `ValueError`, the loop makes exactly `attempts` calls and ends with result false |
| `Retry.RunAfterLoopBooking` | bookit.py:119-133 | after a booking by the k-th loop call, the trailing call alone decides: its result is printed after k + 1 dots, or its exception, a `ValueError` included, ends the script |
| `Retry.RunAfterExhaustion` | bookit.py:112-133 | when every loop call fails or raises `ValueError`, the call after `retry` dots alone decides: its result is printed or its exception ends the script; without `--retry` (0) the single call decides with no dots |
| `Retry.RunCrashesOnLoopError` | bookit.py:115-133 | an exception other than `ValueError` (already-booked, a transport error) raised by the k-th loop call ends the script after k + 1 dots with that exception; the trailing call is never made |
| `Retry.ThirdAttemptBooks` | bookit.py:112-133 | with `--retry 3`, two not-available results and then bookings, the loop stops after three calls and "Booked!" is printed |
| `Retry.LoopBookingOverridden` | bookit.py:124-133 | as written, a booking made in the loop is followed by a trailing call; if that call does not return true, the script prints failure or crashes |
| `Retry.IntendedReportsLoopBooking` | bookit.py:112-131 | in the corrected driver, a booking made by the k-th call is reported as booked after k + 1 dots |
| `Retry.IntendedReportsExhaustion` | bookit.py:112-131 | in the corrected driver, when every call fails or raises `ValueError`, failure is reported after `retry` dots |

## Left out

- Login, `personal_info` and every HTTP request (bookit.py:12-33, 46-54) are network I/O. The listing and the portal's reply to a booking are inputs to `Booking.BookFacility`. An HTTP error status is the abstract `TransportError` outcome of a call. A network or parsing failure that Python raises as a `ValueError` (a form without an action URL, an invalid URL) is caught by the retry loop like a missing slot, so it appears as `Raised(NotAvailableError(..))`.
- HTML parsing with lxml is left out because it is a foreign library on opaque markup. This covers `make_links_absolute`, the lookup of the `content-primary` list, and form extraction, including the `reader` field copied from its own default. A link's anchor text is a plain string, so a link with no text, on which `el.text.startswith` would raise `AttributeError`, is not modelled.
- `Scan.Search` and `Scan.FirstMatch`: `\d` is modelled as an ASCII digit `0`-`9`. Python's `\d` on `str` also accepts other Unicode decimal digits.
- Credential prompting, argparse and printing (bookit.py:16-20, 95-110, 116-117, 129, 133) are terminal glue. Only the number of dots and the printed verdict are kept, in `Retry.RunEnd`.
- The `--retry` option declares `choices=range(1, 100)` without `type=int`, so argparse compares a string with integers and rejects every value. The loop is therefore unreachable from the command line. `Retry.RetryThenBook` models it as written anyway, with `retry` as an already-converted number (0 standing for an absent option).
- The exit status is not modelled: 0 whenever a verdict is printed, 1 when an uncaught exception ends the script (`Crashed`).

## Findings

| source | as written | input that shows it | evidently intended | confidence | as-written member | corrected member |
|---|---|---|---|---|---|---|
| bookit.py:131 | after the `--retry` loop, `bookit()` is called once more even when the loop already booked the slot, and only that call decides the printed outcome; its `ValueError` is not caught | `--retry 1` (reachable only once `--retry` is parsed as an integer, see "## Left out"); the first call books (returns true); the second finds the slot gone and raises not-available: the script crashes instead of printing "Booked!" | the trailing call only when `--retry` is absent; with `--retry`, report the loop's result | medium, not executed | `Retry.LoopBookingOverridden` | `Retry.RunIntended` (proved by `Retry.IntendedReportsLoopBooking` and `Retry.IntendedReportsExhaustion`) |
