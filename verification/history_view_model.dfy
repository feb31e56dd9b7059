/** The history page: all entries filtered by a date range, a search text
    and a mood, newest first, with the list of moods to choose from. */
module History {
  import opened Dates
  import opened Models
  import opened Seqs
  import opened Text
  import opened Storage
  import opened Journal

  /** The mood option that applies no mood filter. */
  const AllMoods := "All"

  /** The entry's day lies in the range of days of start and end. */
  predicate InDateRange(e: JournalEntry, start: DateTime, end: DateTime) {
    start.day <= e.entryDate.day <= end.day
  }

  /** A blank search matches everything; otherwise the lower-cased title or
      content must contain the lower-cased search text. */
  predicate MatchesSearch(e: JournalEntry, search: string) {
    IsBlank(search)
    || Contains(ToLower(e.title), ToLower(search))
    || Contains(ToLower(e.content), ToLower(search))
  }

  /** "All" matches every mood; any other choice the primary mood exactly. */
  predicate MatchesMood(e: JournalEntry, mood: string) {
    mood == AllMoods || e.primaryMood == mood
  }

  /** The three filters of the page, applied one after the other. */
  function Keep(start: DateTime, end: DateTime, search: string, mood: string): JournalEntry -> bool {
    e => InDateRange(e, start, end) && MatchesSearch(e, search) && MatchesMood(e, mood)
  }

  /** The entries the page lists: those passing every filter, newest first. */
  function HistoryView(all: seq<JournalEntry>, start: DateTime, end: DateTime, search: string, mood: string): seq<JournalEntry> {
    SortBy(Filter(all, Keep(start, end, search, mood)), DateDesc)
  }

  /** The list holds exactly the entries that pass the date range, the search
      and the mood filter, each as often as in the input, newest first. */
  lemma HistoryViewExact(all: seq<JournalEntry>, start: DateTime, end: DateTime, search: string, mood: string)
    ensures var r := HistoryView(all, start, end, search, mood);
      && SortedBy(r, DateDesc)
      && (forall e :: multiset(r)[e] == if Keep(start, end, search, mood)(e) then multiset(all)[e] else 0)
      && forall e :: e in r <==> e in all && InDateRange(e, start, end) && MatchesSearch(e, search) && MatchesMood(e, mood)
  {
    var f := Filter(all, Keep(start, end, search, mood));
    forall e ensures multiset(HistoryView(all, start, end, search, mood))[e] == if Keep(start, end, search, mood)(e) then multiset(all)[e] else 0 {
      FilterCount(all, Keep(start, end, search, mood), e);
    }
    forall e ensures e in HistoryView(all, start, end, search, mood) <==> e in f {
      assert e in HistoryView(all, start, end, search, mood) <==> e in multiset(HistoryView(all, start, end, search, mood));
      assert e in f <==> e in multiset(f);
    }
  }

  /** A start day after the end day leaves nothing to show. */
  lemma EmptyRangeShowsNothing(all: seq<JournalEntry>, start: DateTime, end: DateTime, search: string, mood: string)
    requires start.day > end.day
    ensures HistoryView(all, start, end, search, mood) == []
  {
    FilterNone(all, Keep(start, end, search, mood));
  }

  /** A blank search text and the "All" mood filter by date range only. */
  lemma NoTextNoMoodFilter(all: seq<JournalEntry>, start: DateTime, end: DateTime, search: string)
    requires IsBlank(search)
    ensures forall e :: e in HistoryView(all, start, end, search, AllMoods) <==> e in all && InDateRange(e, start, end)
  {
    HistoryViewExact(all, start, end, search, AllMoods);
  }

  class HistoryViewModel {
    const journal: JournalService
    const db: DatabaseService
    var searchText: string
    var startDate: DateTime
    var endDate: DateTime
    var selectedMood: string
    var moodOptions: seq<string>
    var filteredEntries: seq<JournalEntry>
    var allEntries: seq<JournalEntry>

    /** A new page: no search, the last three months, every mood. */
    constructor(journal: JournalService, db: DatabaseService, now: DateTime)
      ensures this.journal == journal && this.db == db
      ensures searchText == "" && selectedMood == AllMoods
      ensures startDate == AddMonths(Date(now), -3) && endDate == Date(now)
      ensures moodOptions == [AllMoods] && filteredEntries == [] && allEntries == []
    {
      this.journal := journal;
      this.db := db;
      searchText := "";
      startDate := AddMonths(Date(now), -3);
      endDate := Date(now);
      selectedMood := AllMoods;
      moodOptions := [AllMoods];
      filteredEntries := [];
      allEntries := [];
    }

    /** The mood options: "All", then every mood name in table order. */
    method LoadMoods()
      modifies this, db
      requires db.Valid()
      ensures db.Valid() && db.ReadOnly()
      ensures |moodOptions| == |db.moods| + 1 && moodOptions[0] == AllMoods
      ensures forall i :: 0 <= i < |db.moods| ==> moodOptions[i + 1] == db.moods[i].name
      ensures filteredEntries == old(filteredEntries) && allEntries == old(allEntries)
      ensures searchText == old(searchText) && selectedMood == old(selectedMood)
      ensures startDate == old(startDate) && endDate == old(endDate)
    {
      moodOptions := [AllMoods];
      var moods := db.GetMoods();
      AddMoodNames(moods);
    }

    method AddMoodNames(moods: seq<Mood>)
      modifies this
      ensures moodOptions == old(moodOptions) + MoodNames(moods)
      ensures filteredEntries == old(filteredEntries) && allEntries == old(allEntries)
      ensures searchText == old(searchText) && selectedMood == old(selectedMood)
      ensures startDate == old(startDate) && endDate == old(endDate)
    {
      for i := 0 to |moods|
        invariant moodOptions == old(moodOptions) + MoodNames(moods)[..i]
        invariant filteredEntries == old(filteredEntries) && allEntries == old(allEntries)
        invariant searchText == old(searchText) && selectedMood == old(selectedMood)
        invariant startDate == old(startDate) && endDate == old(endDate)
      {
        assert MoodNames(moods)[..i + 1] == MoodNames(moods)[..i] + [moods[i].name];
        moodOptions := moodOptions + [moods[i].name];
      }
    }

    /** Reloads all entries and filters them again. */
    method LoadEntries()
      modifies this, journal.db
      requires journal.db.Valid()
      ensures journal.db.Valid() && journal.db.ReadOnly()
      ensures allEntries == SortBy(journal.db.entries, DateDesc)
      ensures filteredEntries == HistoryView(allEntries, startDate, endDate, searchText, selectedMood)
      ensures moodOptions == old(moodOptions)
      ensures searchText == old(searchText) && selectedMood == old(selectedMood)
      ensures startDate == old(startDate) && endDate == old(endDate)
    {
      allEntries := journal.GetAllEntries();
      ApplyFilters();
    }

    /** Refills the list with the entries that pass every filter, newest
        first. */
    method ApplyFilters()
      modifies this
      ensures filteredEntries == HistoryView(allEntries, startDate, endDate, searchText, selectedMood)
      ensures allEntries == old(allEntries) && moodOptions == old(moodOptions)
      ensures searchText == old(searchText) && selectedMood == old(selectedMood)
      ensures startDate == old(startDate) && endDate == old(endDate)
    {
      var query := Filter(allEntries, Keep(startDate, endDate, searchText, selectedMood));
      filteredEntries := [];
      AddFiltered(SortBy(query, DateDesc));
    }

    method AddFiltered(sorted: seq<JournalEntry>)
      modifies this
      requires filteredEntries == []
      ensures filteredEntries == sorted
      ensures allEntries == old(allEntries) && moodOptions == old(moodOptions)
      ensures searchText == old(searchText) && selectedMood == old(selectedMood)
      ensures startDate == old(startDate) && endDate == old(endDate)
    {
      for i := 0 to |sorted|
        invariant filteredEntries == sorted[..i]
        invariant allEntries == old(allEntries) && moodOptions == old(moodOptions)
        invariant searchText == old(searchText) && selectedMood == old(selectedMood)
        invariant startDate == old(startDate) && endDate == old(endDate)
      {
        filteredEntries := filteredEntries + [sorted[i]];
      }
    }

    /** Changing the search text filters again. */
    method SetSearchText(value: string)
      modifies this
      ensures searchText == value && selectedMood == old(selectedMood)
      ensures startDate == old(startDate) && endDate == old(endDate)
      ensures filteredEntries == HistoryView(allEntries, startDate, endDate, value, selectedMood)
      ensures allEntries == old(allEntries) && moodOptions == old(moodOptions)
    {
      searchText := value;
      ApplyFilters();
    }

    /** Changing the start date filters again. */
    method SetStartDate(value: DateTime)
      modifies this
      ensures startDate == value && endDate == old(endDate)
      ensures searchText == old(searchText) && selectedMood == old(selectedMood)
      ensures filteredEntries == HistoryView(allEntries, value, endDate, searchText, selectedMood)
      ensures allEntries == old(allEntries) && moodOptions == old(moodOptions)
    {
      startDate := value;
      ApplyFilters();
    }

    /** Changing the end date filters again. */
    method SetEndDate(value: DateTime)
      modifies this
      ensures endDate == value && startDate == old(startDate)
      ensures searchText == old(searchText) && selectedMood == old(selectedMood)
      ensures filteredEntries == HistoryView(allEntries, startDate, value, searchText, selectedMood)
      ensures allEntries == old(allEntries) && moodOptions == old(moodOptions)
    {
      endDate := value;
      ApplyFilters();
    }

    /** Changing the selected mood filters again. */
    method SetSelectedMood(value: string)
      modifies this
      ensures selectedMood == value && searchText == old(searchText)
      ensures startDate == old(startDate) && endDate == old(endDate)
      ensures filteredEntries == HistoryView(allEntries, startDate, endDate, searchText, value)
      ensures allEntries == old(allEntries) && moodOptions == old(moodOptions)
    {
      selectedMood := value;
      ApplyFilters();
    }
  }
}
