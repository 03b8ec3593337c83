# times-scraper in Dafny

times-scraper fetches the listing page of printable puzzles and looks at every puzzle link on it. It turns each link's date into a file-safe `DDMMYY` identifier. An identifier already in the persistent record (`puzzles`) is skipped. Otherwise the PDF is downloaded, and the identifier is appended to the record only when the download succeeds.

This project models two pieces of `app.js` and proves properties of them:

- **The identifier encoder `getFileSafeDate`.** The JavaScript string operations it uses are written out over `seq<char>`: `String(n)`, `padStart` with a one-character pad, and `slice` with a single argument. The encoder takes the calendar fields a `Date` reports: day of month, zero-based month and full year.
- **The record's skip-or-download step.** The scan `puzzles.includes(id)` is a loop. The per-link decision is `PuzzleStore.Step`. The whole listing is `PuzzleStore.Run`, which processes entries one at a time in page order. Whether a download succeeds is an input.

Files:

- `js_string.dfy` (module `JsString`): decimal rendering and parsing, `padStart`, `slice`, and the two-digit reference form.
- `file_safe_date.dfy` (module `FileSafeDate`): the encoder, its decoder and their round trips, injectivity, and the century collision.
- `puzzle_store.dfy` (module `PuzzleStore`): `includes`, the step, the run, and the record invariants.
- `scraper.dfy` (module `Scraper`): the encoder and the record together over a listing.

For 2 January 2024 the code gives the identifier `020124`: day `02`, month `01`, year `24`. See `Scraper.January2024Scenario`.

## Model

| member | source | states |
|---|---|---|
| JsString.NatToString | app.js:54-56 | `String(n)` of a natural number is a non-empty string of decimal digits, one character exactly when n < 10, and with no leading zero when longer |
| JsString.IntToString | app.js:54-56 | `String(n)` of an integer in its canonical form: for n ≥ 0, digits with no leading zero, one character exactly when n < 10; for n < 0, a '-' then digits with no leading zero, two characters exactly when n > -10 |
| JsString.ParseNatToString | app.js:54-56 | parsing the decimal rendering of n gives back n, so `String(n)` is the decimal form of n |
| JsString.IntToStringRoundTrip | app.js:54-56 | `String(n)` reads back as n: the digits give the magnitude, and a leading '-' gives the sign |
| JsString.PadStart | app.js:54-55 | `padStart(t, c)` returns a string whose length is the larger of t and the length of s: fill characters in front, then s unchanged at the end |
| JsString.Slice | app.js:56 | `slice(start)` returns a suffix of s; a negative start keeps the last -start characters, or all of s if s is shorter |
| JsString.TwoDigitsRoundTrip | app.js:54-56 | two-digit rendering and decimal parsing are mutually inverse on 0..99 and on two-digit strings |
| JsString.PadStartToTwo | app.js:54-55 | padding to width two adds exactly one fill character to a one-character string and leaves longer strings unchanged |
| JsString.PadTwoDigits | app.js:54-55 | `String(n).padStart(2, "0")` is the two-digit zero-padded form of n, for every n in 0..99 |
| JsString.LastTwoDigits | app.js:56 | for n ≥ 10, `String(n).slice(-2)` is the two-digit form of n mod 100 |
| FileSafeDate.GetFileSafeDate | app.js:53-59 | for a valid date whose year has at least two digits, the identifier is the reference DDMMYY form: day, one-based month, and the last two digits of the year's magnitude |
| FileSafeDate.DayFieldIsTwoDigits | app.js:54 | the day field is two digits: a day below 10 gets a leading '0', and a two-digit day is kept as it is |
| FileSafeDate.MonthFieldIsTwoDigits | app.js:55 | the month field is the two-digit form of the zero-based month plus one, and it reads as a number from 1 to 12 |
| FileSafeDate.YearFieldIsLastTwoDigits | app.js:56 | for a year of two or more digits, of either sign, the year field is the two-digit form of the year's magnitude mod 100 |
| FileSafeDate.SingleDigitYearGivesFiveCharacters | app.js:56-58 | a year from 0 to 9 keeps its single digit, so the identifier is five characters long |
| FileSafeDate.PairValue | app.js:54-56 | the value of two digit characters is in 0..99 and renders back to those two characters |
| FileSafeDate.Decode | app.js:53-59 | an identifier is accepted exactly when it is six decimal digits, and it is then the reference form of the three numbers it decodes to |
| FileSafeDate.DecodeParsesPairs | app.js:54-58 | decoding a six-digit identifier reads characters 0-1, 2-3 and 4-5 as decimal numbers |
| FileSafeDate.DecodeEncode | app.js:53-59 | decoding an encoded date gives back its day, one-based month and the last two digits of the year's magnitude |
| FileSafeDate.EncodeDecode | app.js:53-59 | every six-digit identifier whose day is in 1..31 and month in 1..12 is the encoding of the calendar fields (day, month - 1, 2000 + YY) |
| FileSafeDate.Injective | app.js:53-59 | two valid dates share an identifier if and only if they agree on day, month and the last two digits of the year's magnitude (so 2024 and -2024 collide too) |
| FileSafeDate.CenturiesCollide | app.js:56 | the same day and month in 1924 and in 2024 give the same identifier |
| FileSafeDate.IdentifierShape | app.js:54-55 | the first character of an identifier is '0' to '3', and the third is '0' or '1' |
| FileSafeDate.January2024Ids | app.js:53-59 | 1 January 2024 encodes as "010124" and 2 January 2024 as "020124" |
| PuzzleStore.Includes | app.js:35 | the record scan answers true exactly when the identifier is in the record |
| PuzzleStore.Step | app.js:35-45 | a download starts exactly when the identifier is not recorded; a successful download of a new identifier gives old record ++ [id], and every other case leaves the record unchanged; the identifier is recorded afterwards exactly when it was before or its download succeeded |
| PuzzleStore.StepIdempotent | app.js:35-40 | once an identifier has been downloaded successfully, a second step with it is skipped and changes nothing |
| PuzzleStore.StepPreservesNoDuplicates | app.js:35-40 | the check before the append keeps a duplicate-free record duplicate-free |
| PuzzleStore.Run | app.js:25-46 | over a listing, the old record stays as a prefix; downloads start only for identifiers not in the starting record; every identifier added had a download started |
| PuzzleStore.NewEntryIsDownloaded | app.js:35-45 | every entry whose identifier is neither in the starting record nor the identifier of an earlier successful entry has its download started, whatever happened to the downloads before it |
| PuzzleStore.RunRecordsExactlySuccesses | app.js:35-45 | after a listing, an identifier is recorded if and only if it was recorded before or a listed download of it succeeded |
| PuzzleStore.RunPreservesNoDuplicates | app.js:35-40 | in the sequential page-order model, a duplicate-free record stays duplicate-free over a whole listing |
| PuzzleStore.RunOnRecordedListing | app.js:35 | a listing whose identifiers are all recorded starts no download and leaves the record unchanged |
| PuzzleStore.RerunDownloadsNothing | app.js:25-46 | after a run in which every download succeeded, rerunning the same listing downloads nothing and changes nothing |
| PuzzleStore.FailuresDoNotAffectRecord | app.js:38-45 | failed downloads leave the record alone: the final record is the one the successful entries alone produce |
| PuzzleStore.TwoNewEntries | app.js:35-45 | two new, distinct identifiers are both downloaded, and the successful ones are appended in listing order |
| PuzzleStore.TwoIntoEmpty | app.js:35-45 | into an empty record, two distinct identifiers whose second download succeeds give [id1, id2], or [id2] when the first fails |
| PuzzleStore.RepeatAfterSuccessSkipped | app.js:35-40 | in the sequential page-order model, a repeated identifier in one listing is skipped once its first download succeeded |
| Scraper.ToEntries | app.js:32 | one entry per link, in page order: its identifier is the link date's `GetFileSafeDate`, with the same download outcome |
| Scraper.Scrape | app.js:25-46 | one run is `Run` over the listing's identifiers in page order: the loaded record stays a prefix, downloads start only for identifiers not loaded, and an identifier ends up recorded exactly when it was loaded or a listed download of it succeeded |
| Scraper.ScrapeTwiceDownloadsNothing | app.js:25-46 | rerunning the scraper on an unchanged listing after an all-successful run downloads nothing |
| Scraper.CenturyLaterPuzzleSkipped | app.js:32-35 | in the sequential page-order model, a puzzle dated a century after one downloaded earlier in the listing counts as downloaded and is skipped |
| Scraper.CenturyLaterSkippedAcrossRuns | app.js:32-35 | once a 1924 puzzle is recorded, the puzzle for the same day and month of 2024 is skipped with the record unchanged, whatever its download would do |
| Scraper.ScrapeTwoNew | app.js:25-46 | two listed puzzles with distinct, new identifiers are both downloaded and recorded in page order when they succeed |
| Scraper.January2024Scenario | app.js:25-59 | 1 and 2 January 2024 into an empty record give ["010124", "020124"], or ["020124"] when the first download fails |

## Left out

- Fetching the listing page and extracting links and date text with cheerio (app.js:20-28): network and DOM access. The model starts from a listing of already-parsed dates.
- `new Date(htmlDate)` and `toLocaleDateString()` (app.js:29, 31): date parsing and locale formatting depend on the host's time zone and locale. The encoder takes the local calendar fields. An unparseable date (an `Invalid Date`, whose fields are `NaN`) is not modelled.
- `downloadPuzzle` (app.js:66-80): the HTTP request, the status check and the file stream are I/O. Whether a download succeeds is an input boolean per puzzle. The output path under `DOWNLOAD_PATH` is not modelled.
- Opening and saving the lowdb JSON store (app.js:11-17, 40): persistence is I/O. The record is the `puzzles` sequence passed in and returned.
- Concurrency: the source starts every download without awaiting it, so successful identifiers are appended in completion order. The whole `.each` loop runs before any `.then` callback, so every check at app.js:35 sees the record as it was loaded. Two listed puzzles with the same identifier therefore always both pass the check, are both downloaded and are both appended when both downloads succeed. The model processes entries sequentially in page order, each step seeing the appends before it. Three things hold for that order only: the record order, the skipping of a repeated identifier within one listing (`PuzzleStore.RepeatAfterSuccessSkipped`, `Scraper.CenturyLaterPuzzleSkipped`), and the record staying duplicate-free over a listing (`PuzzleStore.RunPreservesNoDuplicates`). Skipping across runs (`Scraper.CenturyLaterSkippedAcrossRuns`, `PuzzleStore.RerunDownloadsNothing`) holds for the source under any scheduling.
- The rethrow in `.catch` (app.js:43-45) ends up as an unhandled rejection. The model treats a failed download as leaving the record unchanged and going on with the rest of the listing, and does not model the process-level effect of the rejection.
- The success log line (app.js:41): output only.
- FileSafeDate.GetFileSafeDate: its contract gives no shape for years -9 to -1. For those years `String(year)` is "-d", which `slice(-2)` keeps whole, so the identifier has a '-' in it.
