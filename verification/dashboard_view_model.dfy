/** The dashboard: a greeting for the time of day, whether today's entry
    exists, and the five latest entries. */
module Dashboard {
  import opened Wrappers
  import opened Dates
  import opened Models
  import opened Seqs
  import opened Storage
  import opened Journal

  const TicksPerHour: int := 36_000_000_000

  /** DateTime.Hour: the hour of the day, 0 to 23. */
  function Hour(t: DateTime): (h: int)
    ensures 0 <= h < 24
  {
    t.time / TicksPerHour
  }

  /** The greeting for the hour: morning before noon, afternoon until six in
      the evening, evening after that. */
  function GreetingFor(hour: int): (g: string)
    ensures g == "Good Morning" <==> hour < 12
    ensures g == "Good Afternoon" <==> 12 <= hour < 18
    ensures g == "Good Evening" <==> 18 <= hour
  {
    if hour < 12 then "Good Morning" else if hour < 18 then "Good Afternoon" else "Good Evening"
  }

  /** Enumerable.Take(n): the first n elements, or all when there are fewer. */
  function Take<T>(s: seq<T>, n: nat): (r: seq<T>)
    ensures |r| == if |s| < n then |s| else n
    ensures r <= s
  {
    if |s| < n then s else s[..n]
  }

  /** The number of recent entries shown. */
  const RecentCount := 5

  class DashboardViewModel {
    const journal: JournalService
    var greeting: string
    var todayStatus: string
    var todayButtonText: string
    var recentEntries: seq<JournalEntry>

    constructor(journal: JournalService)
      ensures this.journal == journal && recentEntries == []
      ensures greeting == "Hello!" && todayStatus == "You haven't journaled today."
      ensures todayButtonText == "Create Today's Entry"
    {
      this.journal := journal;
      greeting := "Hello!";
      todayStatus := "You haven't journaled today.";
      todayButtonText := "Create Today's Entry";
      recentEntries := [];
    }

    /** Greeting, today's status and the recent entries, as the page appears. */
    method Appearing(now: DateTime)
      modifies this, journal.db
      requires journal.db.Valid()
      ensures journal.db.Valid() && journal.db.ReadOnly()
      ensures greeting == GreetingFor(Hour(now))
      ensures todayStatus == (if EntryOnDate(journal.db.entries, Date(now)).Some? then "You have journaled today!" else "You haven't journaled today.")
      ensures todayButtonText == (if EntryOnDate(journal.db.entries, Date(now)).Some? then "Edit Today's Entry" else "Create Today's Entry")
      ensures recentEntries == Take(SortBy(journal.db.entries, DateDesc), RecentCount)
    {
      UpdateGreeting(now);
      CheckTodayEntry(now);
      LoadRecentEntries();
    }

    method UpdateGreeting(now: DateTime)
      modifies this
      ensures greeting == GreetingFor(Hour(now))
      ensures todayStatus == old(todayStatus) && todayButtonText == old(todayButtonText)
      ensures recentEntries == old(recentEntries)
    {
      var hour := Hour(now);
      greeting := if hour < 12 then "Good Morning" else if hour < 18 then "Good Afternoon" else "Good Evening";
    }

    /** Says whether today's entry exists, and what the button will do. */
    method CheckTodayEntry(now: DateTime)
      modifies this, journal.db
      requires journal.db.Valid()
      ensures journal.db.Valid() && journal.db.ReadOnly()
      ensures EntryOnDate(journal.db.entries, Date(now)).Some? ==>
                todayStatus == "You have journaled today!" && todayButtonText == "Edit Today's Entry"
      ensures EntryOnDate(journal.db.entries, Date(now)).None? ==>
                todayStatus == "You haven't journaled today." && todayButtonText == "Create Today's Entry"
      ensures greeting == old(greeting) && recentEntries == old(recentEntries)
    {
      var todayEntry := journal.GetEntryForDate(Date(now));
      if todayEntry.Some? {
        todayStatus := "You have journaled today!";
        todayButtonText := "Edit Today's Entry";
      } else {
        todayStatus := "You haven't journaled today.";
        todayButtonText := "Create Today's Entry";
      }
    }

    /** Refills the recent entries with the first five of the newest-first list. */
    method LoadRecentEntries()
      modifies this, journal.db
      requires journal.db.Valid()
      ensures journal.db.Valid() && journal.db.ReadOnly()
      ensures recentEntries == Take(SortBy(journal.db.entries, DateDesc), RecentCount)
      ensures greeting == old(greeting) && todayStatus == old(todayStatus)
      ensures todayButtonText == old(todayButtonText)
    {
      recentEntries := [];
      var entries := journal.GetAllEntries();
      AddRecent(Take(entries, RecentCount));
    }

    /** Adds the entries to the (cleared) recent list one by one. */
    method AddRecent(first: seq<JournalEntry>)
      modifies this
      requires recentEntries == []
      ensures recentEntries == first
      ensures greeting == old(greeting) && todayStatus == old(todayStatus)
      ensures todayButtonText == old(todayButtonText)
    {
      for i := 0 to |first|
        invariant recentEntries == first[..i]
        invariant greeting == old(greeting) && todayStatus == old(todayStatus)
        invariant todayButtonText == old(todayButtonText)
      {
        recentEntries := recentEntries + [first[i]];
      }
    }

    /** Gets or creates today's entry and gives the id the editor is opened
        with; opening it again the same day finds the same entry. */
    method OpenTodayEntry(now: DateTime) returns (id: int)
      modifies journal.db
      requires journal.db.Valid()
      ensures journal.db.Valid() && journal.db.Opened() && journal.db.TagsKept() && journal.db.UsersKept()
      ensures var t := CreateForToday(old(journal.db.entries), old(journal.db.nextEntryId), now);
        id == t.entry.id && journal.db.entries == t.entries && journal.db.nextEntryId == t.nextId
      ensures EntryOnDate(journal.db.entries, Date(now)).Some?
      ensures id == EntryOnDate(journal.db.entries, Date(now)).value.id
    {
      var todayEntry := journal.CreateEntryForToday(now);
      id := todayEntry.id;
    }
  }
}
