/** The journal service: entries by day, today's entry made on demand, and
    saving that keeps entry dates at midnight. */
module Journal {
  import opened Wrappers
  import opened Dates
  import opened Models
  import opened Seqs
  import opened Storage

  /** The title a new entry for the day gets: "Entry for " and the long date. */
  function DefaultTitle(day: int): string {
    "Entry for " + LongDate(day)
  }

  /** Whether the entry is dated in the same year and month as month. */
  predicate SameMonth(e: JournalEntry, month: DateTime) {
    YearMonthOf(e.entryDate.day) == YearMonthOf(month.day)
  }

  /** The entries dated in the calendar month of month, in the order given. */
  function InMonth(es: seq<JournalEntry>, month: DateTime): (r: seq<JournalEntry>)
    ensures forall e :: e in r <==> e in es && SameMonth(e, month)
  {
    Filter(es, (e: JournalEntry) => SameMonth(e, month))
  }

  /** Picking a month out of a list sorted newest first keeps it so. */
  lemma InMonthSorted(es: seq<JournalEntry>, month: DateTime)
    requires SortedBy(es, DateDesc)
    ensures SortedBy(InMonth(es, month), DateDesc)
  {
    FilterSorted(es, (e: JournalEntry) => SameMonth(e, month), DateDesc);
  }

  /** Every stored date has no time of day. */
  ghost predicate AllMidnight(es: seq<JournalEntry>) {
    forall i :: 0 <= i < |es| ==> es[i].entryDate.time == 0
  }

  /** With dates at midnight, the UNIQUE date column allows one entry per day. */
  lemma OneEntryPerDay(es: seq<JournalEntry>, next: int)
    requires EntriesValid(es, next) && AllMidnight(es)
    ensures forall i, j :: 0 <= i < j < |es| ==> es[i].entryDate.day != es[j].entryDate.day
  {
    forall i, j | 0 <= i < j < |es| ensures es[i].entryDate.day != es[j].entryDate.day {
      assert es[i].entryDate != es[j].entryDate;
    }
  }

  /** With dates at midnight, the entry found for a time is the one stored on
      its day, whatever the time of day. */
  lemma EntryForDay(es: seq<JournalEntry>, next: int, t: DateTime, k: int)
    requires EntriesValid(es, next) && AllMidnight(es) && 0 <= k < |es|
    ensures EntryOnDate(es, Date(t)) == Some(es[k]) <==> es[k].entryDate.day == t.day
  {
    EntryLookups(es, next, k);
    if es[k].entryDate.day == t.day {
      assert es[k].entryDate == Date(t);
    }
  }

  /** A save through the service keeps the dates at midnight. */
  lemma SaveKeepsMidnight(es: seq<JournalEntry>, next: int, entry: JournalEntry, now: DateTime)
    requires AllMidnight(es) && entry.entryDate.time == 0
    ensures AllMidnight(SaveEntryOutcome(es, next, entry, now).entries)
  {
  }

  /** Today's entry and the Entry table after asking for it. */
  datatype TodayResult = TodayResult(entry: JournalEntry, entries: seq<JournalEntry>, nextId: int)

  /** Create-or-get: the entry stored for the day of now, or a new one with
      the day's default title, inserted. */
  function CreateForToday(es: seq<JournalEntry>, next: int, now: DateTime): TodayResult {
    match EntryOnDate(es, Date(now))
    case Some(e) => TodayResult(e, es, next)
    case None =>
      var o := SaveEntryOutcome(es, next, NewEntry(Date(now), now).(title := DefaultTitle(now.day)), now);
      TodayResult(o.saved, o.entries, o.nextId)
  }

  /** Asking for today's entry twice gives the same entry and adds nothing
      the second time; the day then holds exactly that one entry. */
  lemma CreateForTodayIdempotent(es: seq<JournalEntry>, next: int, now: DateTime)
    requires EntriesValid(es, next)
    ensures var a := CreateForToday(es, next, now);
      && EntriesValid(a.entries, a.nextId)
      && EntryOnDate(a.entries, Date(now)) == Some(a.entry)
      && CreateForToday(a.entries, a.nextId, now) == a
      && forall i :: 0 <= i < |a.entries| && a.entries[i].entryDate == Date(now) ==> a.entries[i] == a.entry
  {
    var a := CreateForToday(es, next, now);
    var entry := NewEntry(Date(now), now).(title := DefaultTitle(now.day));
    SaveEntryValid(es, next, entry, now);
    SaveEntryWrites(es, next, entry, now);
    forall i | 0 <= i < |a.entries| && a.entries[i].entryDate == Date(now) ensures a.entries[i] == a.entry {
      EntryLookups(a.entries, a.nextId, i);
    }
  }

  class JournalService {
    const db: DatabaseService

    constructor(db: DatabaseService)
      ensures this.db == db
    {
      this.db := db;
    }

    /** The entry stored under the date part of date, if any. */
    method GetEntryForDate(date: DateTime) returns (r: Option<JournalEntry>)
      modifies db
      requires db.Valid()
      ensures db.Valid() && db.ReadOnly()
      ensures r == EntryOnDate(db.entries, Date(date))
    {
      r := db.GetEntryByDate(date);
    }

    /** Today's entry: the stored one if there is one, otherwise a new entry
        for today titled after the day, inserted. Either way the day's entry
        is stored afterwards, so a second call returns the same entry. */
    method CreateEntryForToday(now: DateTime) returns (r: JournalEntry)
      modifies db
      requires db.Valid()
      ensures db.Valid() && db.Opened() && db.TagsKept() && db.UsersKept()
      ensures old(EntryOnDate(db.entries, Date(now))).Some? ==>
                r == old(EntryOnDate(db.entries, Date(now))).value && db.EntriesKept()
      ensures old(EntryOnDate(db.entries, Date(now))).None? ==>
                r == JournalEntry(old(db.nextEntryId), Date(now), DefaultTitle(now.day), "", "", "", now, now)
                && db.entries == old(db.entries) + [r] && db.nextEntryId == old(db.nextEntryId) + 1
      ensures EntryOnDate(db.entries, Date(now)) == Some(r)
      ensures var t := CreateForToday(old(db.entries), old(db.nextEntryId), now);
        r == t.entry && db.entries == t.entries && db.nextEntryId == t.nextId
    {
      var today := Date(now);
      var existing := GetEntryForDate(today);
      if existing.Some? {
        return existing.value;
      }
      var newEntry := NewEntry(today, now).(title := DefaultTitle(today.day));
      SaveEntryWrites(db.entries, db.nextEntryId, newEntry, now);
      var res, saved := db.SaveEntry(newEntry, now);
      r := saved;
    }

    /** Stamps UpdatedAt, cuts the date to midnight and saves the entry;
        afterwards the stored dates are still at midnight if they were. */
    method SaveEntry(entry: JournalEntry, now: DateTime) returns (res: Result<int, DbError>, saved: JournalEntry)
      modifies db
      requires db.Valid()
      ensures db.Valid() && db.Opened() && db.TagsKept() && db.UsersKept()
      ensures var o := SaveEntryOutcome(old(db.entries), old(db.nextEntryId),
                                        entry.(updatedAt := now, entryDate := Date(entry.entryDate)), now);
        res == o.res && saved == o.saved && db.entries == o.entries && db.nextEntryId == o.nextId
      ensures saved.entryDate == Date(entry.entryDate) && saved.updatedAt == now
      ensures AllMidnight(old(db.entries)) ==> AllMidnight(db.entries)
    {
      var e := entry.(updatedAt := now, entryDate := Date(entry.entryDate));
      if AllMidnight(db.entries) {
        SaveKeepsMidnight(db.entries, db.nextEntryId, e, now);
      }
      res, saved := db.SaveEntry(e, now);
    }

    /** Deletes the entry by id. */
    method DeleteEntry(entry: JournalEntry)
      modifies db
      requires db.Valid()
      ensures db.Valid() && db.Opened() && db.TagsKept() && db.UsersKept()
      ensures db.entries == WithoutEntry(old(db.entries), entry.id)
      ensures EntryWithId(db.entries, entry.id).None?
    {
      var _ := db.DeleteEntry(entry);
    }

    /** The entries dated in the month of month, newest first. */
    method GetEntriesForMonth(month: DateTime) returns (r: seq<JournalEntry>)
      modifies db
      requires db.Valid()
      ensures db.Valid() && db.ReadOnly()
      ensures r == InMonth(SortBy(db.entries, DateDesc), month)
      ensures forall e :: e in r <==> e in db.entries && SameMonth(e, month)
      ensures SortedBy(r, DateDesc)
    {
      db.Init();
      var all := db.GetEntries();
      InMonthSorted(all, month);
      forall e ensures e in all <==> e in db.entries {
        assert e in all <==> e in multiset(all);
        assert e in db.entries <==> e in multiset(db.entries);
      }
      r := InMonth(all, month);
    }

    /** All entries, newest first. */
    method GetAllEntries() returns (r: seq<JournalEntry>)
      modifies db
      requires db.Valid()
      ensures db.Valid() && db.ReadOnly()
      ensures r == SortBy(db.entries, DateDesc)
    {
      r := db.GetEntries();
    }

    /** Whether an entry is stored under the date part of date. */
    method HasEntryForDate(date: DateTime) returns (r: bool)
      modifies db
      requires db.Valid()
      ensures db.Valid() && db.ReadOnly()
      ensures r <==> exists i :: 0 <= i < |db.entries| && db.entries[i].entryDate == Date(date)
    {
      var entry := GetEntryForDate(date);
      r := entry.Some?;
    }

    /** Replaces the entry's tags by the named ones. */
    method SaveTagsForEntry(entryId: int, names: seq<string>)
      modifies db
      requires db.Valid()
      ensures db.Valid() && db.Opened() && db.EntriesKept() && db.UsersKept()
      ensures |db.tags| >= |old(db.tags)| && db.tags[..|old(db.tags)|] == old(db.tags)
      ensures forall j :: |old(db.tags)| <= j < |db.tags| ==> db.tags[j].name in names
      ensures db.entryTags == OtherLinks(old(db.entryTags), entryId) + LinksFor(entryId, names, db.tags)
      ensures TagsForEntry(db.entryTags, db.tags, entryId) == NamedTags(db.tags, names)
    {
      db.SaveTagsForEntry(entryId, names);
    }
  }
}
