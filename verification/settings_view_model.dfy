/** The export part of the settings page: which entries go into the PDF for
    the chosen date range. */
module Settings {
  import opened Dates
  import opened Models
  import opened Seqs
  import opened Storage
  import opened Journal

  /** What ExportPdf does: refuse a range that starts after it ends, report
      that no entry lies in the range, or hand the entries and the range to
      the exporter. */
  datatype ExportDecision =
    | RangeError
    | NothingToExport
    | Export(entries: seq<JournalEntry>, start: DateTime, end: DateTime)

  /** The entry's day lies between the days of start and end. */
  predicate InExportRange(e: JournalEntry, start: DateTime, end: DateTime) {
    start.day <= e.entryDate.day <= end.day
  }

  /** Ascending by EntryDate. */
  function DateAsc(e: JournalEntry): int {
    Ticks(e.entryDate)
  }

  function InRange(all: seq<JournalEntry>, start: DateTime, end: DateTime): seq<JournalEntry> {
    Filter(all, (e: JournalEntry) => InExportRange(e, start, end))
  }

  /** The decision for the entries all and the chosen range. */
  function ExportOf(all: seq<JournalEntry>, start: DateTime, end: DateTime): (d: ExportDecision)
    ensures d == RangeError <==> Ticks(start) > Ticks(end)
  {
    if Ticks(start) > Ticks(end) then RangeError
    else
      var filtered := SortBy(InRange(all, start, end), DateAsc);
      if filtered == [] then NothingToExport else Export(filtered, start, end)
  }

  /** A valid range with entries in it exports exactly those entries, oldest
      first, with the chosen range; no entry in range means no export. */
  lemma ExportOfExact(all: seq<JournalEntry>, start: DateTime, end: DateTime)
    requires Ticks(start) <= Ticks(end)
    ensures ExportOf(all, start, end) == NothingToExport <==> forall i :: 0 <= i < |all| ==> !InExportRange(all[i], start, end)
    ensures ExportOf(all, start, end).Export? ==>
      && ExportOf(all, start, end).start == start && ExportOf(all, start, end).end == end
      && SortedBy(ExportOf(all, start, end).entries, DateAsc)
      && multiset(ExportOf(all, start, end).entries) <= multiset(all)
      && forall e :: e in ExportOf(all, start, end).entries <==> e in all && InExportRange(e, start, end)
  {
    var f := InRange(all, start, end);
    var sorted := SortBy(f, DateAsc);
    forall e ensures e in sorted <==> e in f {
      assert e in sorted <==> e in multiset(sorted);
      assert e in f <==> e in multiset(f);
    }
    if sorted == [] {
      forall i | 0 <= i < |all| ensures !InExportRange(all[i], start, end) {
        assert all[i] in all;
      }
    } else {
      assert sorted[0] in f;
    }
  }

  class SettingsViewModel {
    const journal: JournalService
    var startDate: DateTime
    var endDate: DateTime

    /** A new page: the range is the last month. */
    constructor(journal: JournalService, now: DateTime)
      ensures this.journal == journal
      ensures startDate == AddMonths(Date(now), -1) && endDate == Date(now)
    {
      this.journal := journal;
      startDate := AddMonths(Date(now), -1);
      endDate := Date(now);
    }

    /** Checks the range, then selects the entries to export; the entries
        are not read when the range is refused. */
    method ExportPdf() returns (d: ExportDecision)
      modifies journal.db
      requires journal.db.Valid()
      ensures journal.db.Valid()
      ensures d == ExportOf(SortBy(journal.db.entries, DateDesc), startDate, endDate)
      ensures d == RangeError ==> unchanged(journal.db)
      ensures d != RangeError ==> journal.db.ReadOnly()
    {
      var start, end := startDate, endDate;
      if Ticks(start) > Ticks(end) {
        return RangeError;
      }
      d := ExportEntries(start, end);
    }

    /** Reads the entries and picks those in the range, oldest first. */
    method ExportEntries(start: DateTime, end: DateTime) returns (d: ExportDecision)
      modifies journal.db
      requires journal.db.Valid() && Ticks(start) <= Ticks(end)
      ensures journal.db.Valid() && journal.db.ReadOnly()
      ensures d == ExportOf(SortBy(journal.db.entries, DateDesc), start, end)
    {
      var entries := journal.GetAllEntries();
      var filtered := SortBy(InRange(entries, start, end), DateAsc);
      if filtered == [] {
        return NothingToExport;
      }
      d := Export(filtered, start, end);
    }
  }
}
