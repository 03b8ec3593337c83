/**
  The main loop end to end: each listed puzzle's date is turned into its
  file-safe identifier, and the identifiers go through the record's
  skip-or-download step in listing order.
 */
module Scraper {
  import opened FileSafeDate
  import opened PuzzleStore

  /** A puzzle link from the listing page: its parsed date and whether its download succeeds. */
  datatype ListedPuzzle = ListedPuzzle(date: CalendarFields, downloadOk: bool)

  /** The listing as the record sees it: one identifier per puzzle, in page order. */
  function ToEntries(puzzles: seq<ListedPuzzle>): (r: seq<Entry>)
    ensures |r| == |puzzles|
    ensures forall i :: 0 <= i < |r| ==>
      r[i].id == GetFileSafeDate(puzzles[i].date) && r[i].downloadOk == puzzles[i].downloadOk
  {
    seq(|puzzles|, i requires 0 <= i < |puzzles| => Entry(GetFileSafeDate(puzzles[i].date), puzzles[i].downloadOk))
  }

  /** One run of the scraper over a listing, starting from the loaded record. */
  function Scrape(store: seq<string>, puzzles: seq<ListedPuzzle>): (r: RunResult)
    ensures store <= r.store
    ensures |r.downloads| <= |puzzles|
    ensures forall x :: x in r.downloads ==> x !in store
    ensures forall x :: x in r.store <==> x in store || x in SucceededIds(ToEntries(puzzles))
  {
    RunRecordsExactlySuccesses(store, ToEntries(puzzles));
    Run(store, ToEntries(puzzles))
  }

  /**
    Running the scraper a second time over an unchanged listing, after a run
    in which every download succeeded, downloads nothing and leaves the record
    as the first run left it.
   */
  lemma ScrapeTwiceDownloadsNothing(store: seq<string>, puzzles: seq<ListedPuzzle>, again: seq<ListedPuzzle>)
    requires forall i :: 0 <= i < |puzzles| ==> puzzles[i].downloadOk
    requires |again| == |puzzles|
    requires forall i :: 0 <= i < |again| ==> again[i].date == puzzles[i].date
    ensures var first := Scrape(store, puzzles).store;
      Scrape(first, again) == RunResult(first, [])
  {
    RerunDownloadsNothing(store, ToEntries(puzzles), ToEntries(again));
  }

  /**
    Because the identifier keeps only two digits of the year, a puzzle dated a
    century after one already downloaded counts as downloaded and is skipped.
   */
  lemma CenturyLaterPuzzleSkipped(store: seq<string>, day: int, monthIndex: int, secondOk: bool)
    requires 1 <= day <= 31 && 0 <= monthIndex <= 11
    ensures var p1 := ListedPuzzle(CalendarFields(day, monthIndex, 1924), true);
      var p2 := ListedPuzzle(CalendarFields(day, monthIndex, 2024), secondOk);
      var id := GetFileSafeDate(p1.date);
      Scrape(store, [p1, p2]) == if id in store then RunResult(store, []) else RunResult(store + [id], [id])
  {
    var p1 := ListedPuzzle(CalendarFields(day, monthIndex, 1924), true);
    var p2 := ListedPuzzle(CalendarFields(day, monthIndex, 2024), secondOk);
    CenturiesCollide(day, monthIndex);
    var ps := [p1, p2];
    assert ps[0] == p1 && ps[1] == p2;
    RepeatAfterSuccessSkipped(store, ToEntries(ps));
  }

  /**
    Across runs: once a puzzle from 1924 is recorded, the puzzle for the same
    day and month of 2024 is skipped by every later run, whatever its download
    would do.
   */
  lemma CenturyLaterSkippedAcrossRuns(store: seq<string>, day: int, monthIndex: int, ok: bool)
    requires 1 <= day <= 31 && 0 <= monthIndex <= 11
    requires GetFileSafeDate(CalendarFields(day, monthIndex, 1924)) in store
    ensures Step(store, GetFileSafeDate(CalendarFields(day, monthIndex, 2024)), ok) == StepResult(store, false)
  {
    CenturiesCollide(day, monthIndex);
  }

  /** Two listed puzzles with distinct identifiers, neither recorded yet: both are downloaded, the successful ones recorded in page order. */
  lemma ScrapeTwoNew(store: seq<string>, p1: ListedPuzzle, p2: ListedPuzzle)
    requires GetFileSafeDate(p1.date) !in store && GetFileSafeDate(p2.date) !in store
    requires GetFileSafeDate(p1.date) != GetFileSafeDate(p2.date)
    ensures var id1, id2 := GetFileSafeDate(p1.date), GetFileSafeDate(p2.date);
      Scrape(store, [p1, p2]) ==
        RunResult(store + (if p1.downloadOk then [id1] else []) + (if p2.downloadOk then [id2] else []), [id1, id2])
  {
    var ps := [p1, p2];
    assert ps[0] == p1 && ps[1] == p2;
    TwoNewEntries(store, ToEntries(ps));
  }

  /**
    Puzzles for 1 and 2 January 2024 into an empty record: with both downloads
    succeeding the record becomes ["010124", "020124"]; when the first fails
    it becomes ["020124"]. Both downloads are started either way.
   */
  lemma January2024Scenario(firstOk: bool)
    ensures var jan1 := ListedPuzzle(CalendarFields(1, 0, 2024), firstOk);
      var jan2 := ListedPuzzle(CalendarFields(2, 0, 2024), true);
      Scrape([], [jan1, jan2]) == RunResult(if firstOk then ["010124", "020124"] else ["020124"], ["010124", "020124"])
  {
    var ps := [ListedPuzzle(CalendarFields(1, 0, 2024), firstOk), ListedPuzzle(CalendarFields(2, 0, 2024), true)];
    January2024Ids();
    assert "010124" != "020124" by {
      assert "010124"[1] != "020124"[1];
    }
    TwoIntoEmpty(ToEntries(ps), "010124", "020124");
  }
}
