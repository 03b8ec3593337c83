/**
  The download record and the per-entry decision of the scraper's main loop.
  The record is the `puzzles` array of the JSON store, here a sequence of
  identifiers. For each listed puzzle the loop skips it when its identifier
  is already recorded; otherwise it downloads, and only a download that
  succeeds appends the identifier. Entries are processed one at a time, in
  listing order; whether a download succeeds is an input.
 */
module PuzzleStore {
  /** A listed puzzle by identifier, and whether downloading its file succeeds. */
  datatype Entry = Entry(id: string, downloadOk: bool)

  /** The record after one entry, and whether a download was started for it. */
  datatype StepResult = StepResult(store: seq<string>, attempted: bool)

  /** The record after a whole listing, and the identifiers downloads were started for, in order. */
  datatype RunResult = RunResult(store: seq<string>, downloads: seq<string>)

  predicate NoDuplicates(s: seq<string>) {
    forall i, j :: 0 <= i < j < |s| ==> s[i] != s[j]
  }

  /** `puzzles.includes(id)`: a front-to-back scan that stops at the first match. */
  method Includes(store: seq<string>, id: string) returns (found: bool)
    ensures found <==> id in store
  {
    var i := 0;
    while i < |store|
      invariant 0 <= i <= |store|
      invariant id !in store[..i]
    {
      if store[i] == id {
        return true;
      }
      i := i + 1;
    }
    assert store[..i] == store;
    return false;
  }

  /**
    One entry of the loop: a recorded identifier is skipped with no download;
    otherwise a download is started, and the identifier is appended only if
    it succeeds. Nothing already recorded moves or disappears.
   */
  function Step(store: seq<string>, id: string, downloadOk: bool): (r: StepResult)
    ensures r.attempted <==> id !in store
    ensures store <= r.store
    ensures |r.store| == |store| + (if r.attempted && downloadOk then 1 else 0)
    ensures id in r.store <==> id in store || downloadOk
    ensures r.attempted && downloadOk ==> r.store == store + [id]
    ensures !(r.attempted && downloadOk) ==> r.store == store
  {
    if id in store then
      StepResult(store, false)
    else if downloadOk then
      StepResult(store + [id], true)
    else
      StepResult(store, true)
  }

  /** After an entry has been processed with a successful download, the same identifier is skipped. */
  lemma StepIdempotent(store: seq<string>, id: string, firstOk: bool, secondOk: bool)
    requires id in store || firstOk
    ensures var once := Step(store, id, firstOk).store;
      Step(once, id, secondOk) == StepResult(once, false)
  {
  }

  /** The loop's pre-check keeps the record free of duplicates, although the append itself is blind. */
  lemma StepPreservesNoDuplicates(store: seq<string>, id: string, downloadOk: bool)
    requires NoDuplicates(store)
    ensures NoDuplicates(Step(store, id, downloadOk).store)
  {
  }

  /**
    The loop over a whole listing, sequentially. A download is only ever
    started for an identifier not in the record it started from; the record
    only grows at the end; and every identifier it gains had a download
    started for it.
   */
  function Run(store: seq<string>, entries: seq<Entry>): (r: RunResult)
    ensures store <= r.store
    ensures |r.downloads| <= |entries|
    ensures forall x :: x in r.downloads ==> x !in store
    ensures forall k :: |store| <= k < |r.store| ==> r.store[k] in r.downloads
    decreases |entries|
  {
    if |entries| == 0 then
      RunResult(store, [])
    else
      var id := entries[0].id;
      var s := Step(store, id, entries[0].downloadOk);
      var rest := Run(s.store, entries[1..]);
      RunResult(rest.store, (if s.attempted then [id] else []) + rest.downloads)
  }

  /**
    Every entry whose identifier is not recorded when the loop reaches it has
    a download started: its identifier is neither in the starting record nor
    the identifier of an earlier entry whose download succeeded. A failed
    download does not stop the entries after it.
   */
  lemma {:induction false} NewEntryIsDownloaded(store: seq<string>, entries: seq<Entry>, i: int)
    requires 0 <= i < |entries| && entries[i].id !in store
    requires forall j :: 0 <= j < i ==> !(entries[j].id == entries[i].id && entries[j].downloadOk)
    ensures entries[i].id in Run(store, entries).downloads
    decreases i
  {
    var s := Step(store, entries[0].id, entries[0].downloadOk);
    if i > 0 {
      assert entries[i].id !in s.store;
      var tail := entries[1..];
      assert tail[i - 1] == entries[i];
      forall j | 0 <= j < i - 1
        ensures !(tail[j].id == tail[i - 1].id && tail[j].downloadOk)
      {
        assert tail[j] == entries[j + 1];
      }
      NewEntryIsDownloaded(s.store, tail, i - 1);
    }
  }

  /** The identifiers of the entries whose download succeeds. */
  function SucceededIds(entries: seq<Entry>): set<string>
    decreases |entries|
  {
    if |entries| == 0 then {}
    else (if entries[0].downloadOk then {entries[0].id} else {}) + SucceededIds(entries[1..])
  }

  /** The record afterwards holds exactly what it held before plus every successfully downloaded identifier. */
  lemma {:induction false} RunRecordsExactlySuccesses(store: seq<string>, entries: seq<Entry>)
    ensures forall x :: x in Run(store, entries).store <==> x in store || x in SucceededIds(entries)
    decreases |entries|
  {
    if |entries| > 0 {
      var s := Step(store, entries[0].id, entries[0].downloadOk);
      RunRecordsExactlySuccesses(s.store, entries[1..]);
      assert forall x :: x in s.store <==> x in store || (entries[0].downloadOk && x == entries[0].id) by {
        if s.store != store {
          assert s.store == store + [entries[0].id];
        }
      }
    }
  }

  /** Processing a listing keeps a duplicate-free record duplicate-free. */
  lemma {:induction false} RunPreservesNoDuplicates(store: seq<string>, entries: seq<Entry>)
    requires NoDuplicates(store)
    ensures NoDuplicates(Run(store, entries).store)
    decreases |entries|
  {
    if |entries| > 0 {
      var s := Step(store, entries[0].id, entries[0].downloadOk);
      StepPreservesNoDuplicates(store, entries[0].id, entries[0].downloadOk);
      RunPreservesNoDuplicates(s.store, entries[1..]);
    }
  }

  /** A listing whose every identifier is already recorded starts no download and leaves the record as it was. */
  lemma {:induction false} RunOnRecordedListing(store: seq<string>, entries: seq<Entry>)
    requires forall i :: 0 <= i < |entries| ==> entries[i].id in store
    ensures Run(store, entries) == RunResult(store, [])
    decreases |entries|
  {
    if |entries| > 0 {
      RunOnRecordedListing(store, entries[1..]);
    }
  }

  /**
    Re-run idempotence: after a run in which every download succeeded, a
    second run over the same listing (whatever its downloads would do) starts
    no download and changes nothing.
   */
  lemma RerunDownloadsNothing(store: seq<string>, entries: seq<Entry>, again: seq<Entry>)
    requires forall i :: 0 <= i < |entries| ==> entries[i].downloadOk
    requires |again| == |entries|
    requires forall i :: 0 <= i < |again| ==> again[i].id == entries[i].id
    ensures var first := Run(store, entries).store;
      Run(first, again) == RunResult(first, [])
  {
    var first := Run(store, entries).store;
    RunRecordsExactlySuccesses(store, entries);
    forall i | 0 <= i < |again|
      ensures again[i].id in first
    {
      SucceededIdsContains(entries, i);
    }
    RunOnRecordedListing(first, again);
  }

  lemma {:induction false} SucceededIdsContains(entries: seq<Entry>, i: int)
    requires 0 <= i < |entries| && entries[i].downloadOk
    ensures entries[i].id in SucceededIds(entries)
    decreases i
  {
    if i > 0 {
      SucceededIdsContains(entries[1..], i - 1);
    }
  }

  /** The entries whose download succeeds, in listing order. */
  function Successful(entries: seq<Entry>): (r: seq<Entry>)
    ensures |r| <= |entries|
    ensures forall i :: 0 <= i < |r| ==> r[i].downloadOk && r[i] in entries
    decreases |entries|
  {
    if |entries| == 0 then []
    else (if entries[0].downloadOk then [entries[0]] else []) + Successful(entries[1..])
  }

  /**
    A failed download is isolated: it leaves the record untouched and does
    not stop the loop, so the final record is the one the successful entries
    alone would have produced.
   */
  lemma {:induction false} FailuresDoNotAffectRecord(store: seq<string>, entries: seq<Entry>)
    ensures Run(store, entries).store == Run(store, Successful(entries)).store
    decreases |entries|
  {
    if |entries| > 0 {
      var e := entries[0];
      var s := Step(store, e.id, e.downloadOk);
      FailuresDoNotAffectRecord(s.store, entries[1..]);
      if e.downloadOk {
        assert Successful(entries) == [e] + Successful(entries[1..]);
        assert ([e] + Successful(entries[1..]))[1..] == Successful(entries[1..]);
      } else {
        assert Successful(entries) == Successful(entries[1..]);
      }
    }
  }

  /** Two new puzzles with distinct identifiers: both are downloaded, and the successful ones are recorded in listing order. */
  lemma TwoNewEntries(store: seq<string>, entries: seq<Entry>)
    requires |entries| == 2
    requires entries[0].id !in store && entries[1].id !in store && entries[0].id != entries[1].id
    ensures Run(store, entries).downloads == [entries[0].id, entries[1].id]
    ensures Run(store, entries).store == store
      + (if entries[0].downloadOk then [entries[0].id] else [])
      + (if entries[1].downloadOk then [entries[1].id] else [])
  {
    var e1, e2 := entries[0], entries[1];
    var s1 := Step(store, e1.id, e1.downloadOk);
    var s2 := Step(s1.store, e2.id, e2.downloadOk);
    assert s1.store == store + (if e1.downloadOk then [e1.id] else []);
    assert s2.store == s1.store + (if e2.downloadOk then [e2.id] else []);
    var tail := entries[1..];
    assert |tail| == 1 && tail[0] == e2 && |tail[1..]| == 0;
    assert Run(s1.store, tail) == RunResult(s2.store, [e2.id]);
    assert Run(store, entries) == RunResult(s2.store, [e1.id] + [e2.id]);
  }

  /** Two new distinct identifiers into an empty record, the second download succeeding. */
  lemma TwoIntoEmpty(entries: seq<Entry>, id1: string, id2: string)
    requires |entries| == 2 && entries[0].id == id1 && entries[1].id == id2 && id1 != id2
    requires entries[1].downloadOk
    ensures Run([], entries) == RunResult(if entries[0].downloadOk then [id1, id2] else [id2], [id1, id2])
  {
    TwoNewEntries([], entries);
    assert [] + (if entries[0].downloadOk then [id1] else []) + [id2]
      == if entries[0].downloadOk then [id1, id2] else [id2];
  }

  /**
    Within one listing, a second entry with the identifier of an earlier entry
    whose download succeeded is skipped.
   */
  lemma RepeatAfterSuccessSkipped(store: seq<string>, entries: seq<Entry>)
    requires |entries| == 2 && entries[0].downloadOk && entries[1].id == entries[0].id
    ensures var id := entries[0].id;
      Run(store, entries) == if id in store then RunResult(store, []) else RunResult(store + [id], [id])
  {
    var s1 := Step(store, entries[0].id, true);
    var tail := entries[1..];
    assert |tail| == 1 && tail[0].id == entries[0].id && |tail[1..]| == 0;
    assert Run(s1.store, tail) == RunResult(s1.store, []);
  }
}
