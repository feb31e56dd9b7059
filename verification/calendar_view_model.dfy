/** The calendar page: a month grid that starts on Sunday, with a mark on
    every day that has an entry, and the rule for opening a tapped day. */
module Calendar {
  import opened Wrappers
  import opened Dates
  import opened Models
  import opened Seqs
  import opened Storage
  import opened Journal

  /** One cell of the grid. */
  datatype CalendarDay = CalendarDay(date: DateTime, displayText: string, isCurrentMonth: bool,
                                     hasEntry: bool, indicatorColor: string)

  const EntryColor := "#3B82F6"
  const NoColor := "Transparent"

  /** A blank cell before the first of the month (its date is DateTime's
      default, day 0 at midnight). */
  function Padding(): CalendarDay {
    CalendarDay(DateTime(0, 0), "", false, false, NoColor)
  }

  /** The year and month shown for a date in it. */
  function ShownMonth(month: DateTime): (ym: YearMonth)
    ensures ym == YearMonthOf(month.day) && 1 <= ym.month <= 12
  {
    YearMonthOf(month.day)
  }

  /** A year and month of the calendar. */
  predicate ValidMonth(ym: YearMonth) {
    1 <= ym.month <= 12
  }

  /** The number of padding cells: the weekday of the first, Sunday being 0. */
  function MonthOffset(ym: YearMonth): (off: int)
    requires ValidMonth(ym)
    ensures 0 <= off <= 6
  {
    DayOfWeek(DayNumber(Civil(ym.year, ym.month, 1)))
  }

  function MonthLength(ym: YearMonth): (n: int)
    requires ValidMonth(ym)
    ensures 28 <= n <= 31
  {
    DaysInMonth(ym.year, ym.month)
  }

  /** Midnight of day i of the month. */
  function DayOfMonth(ym: YearMonth, i: int): DateTime
    requires ValidMonth(ym) && 1 <= i <= MonthLength(ym)
  {
    Midnight(DayNumber(Civil(ym.year, ym.month, i)))
  }

  /** The title names the month the grid shows: it is the month's name and
      its year, and every day of the grid carries the same title. */
  lemma TitleNamesShownMonth(month: DateTime, i: int)
    requires 1 <= i <= MonthLength(ShownMonth(month))
    ensures var ym := ShownMonth(month);
      && MonthAndYear(month.day) == MonthNames[ym.month - 1] + " " + YearText(ym.year)
      && MonthAndYear(DayOfMonth(ym, i).day) == MonthAndYear(month.day)
  {
    var ym := ShownMonth(month);
    CivilRoundTrip(Civil(ym.year, ym.month, i));
  }

  function OnDay(date: DateTime): JournalEntry -> bool {
    (e: JournalEntry) => Date(e.entryDate) == date
  }

  /** The cell of day i: its date and number, marked exactly when an entry
      falls on it. */
  function DayCell(ym: YearMonth, i: int, entries: seq<JournalEntry>): (cell: CalendarDay)
    requires ValidMonth(ym) && 1 <= i <= MonthLength(ym)
    ensures cell.date == DayOfMonth(ym, i) && cell.displayText == NatToString(i)
    ensures cell.isCurrentMonth
    ensures cell.hasEntry <==> exists e :: e in entries && Date(e.entryDate) == cell.date
    ensures cell.indicatorColor == EntryColor <==> cell.hasEntry
  {
    var date := DayOfMonth(ym, i);
    var entry := First(entries, OnDay(date));
    CalendarDay(date, NatToString(i), true, entry.Some?, if entry.Some? then EntryColor else NoColor)
  }

  /** The grid of the month: the padding cells, then one cell per day, day i
      at index offset + i - 1. */
  function MonthGrid(ym: YearMonth, entries: seq<JournalEntry>): (g: seq<CalendarDay>)
    requires ValidMonth(ym)
    ensures |g| == MonthOffset(ym) + MonthLength(ym)
  {
    var padding := seq(MonthOffset(ym), _ => Padding());
    var cells := seq(MonthLength(ym), j requires 0 <= j < MonthLength(ym) => DayCell(ym, j + 1, entries));
    padding + cells
  }

  /** The cells of the grid: padding up to the weekday of the first, then
      day i at index offset + i - 1. */
  lemma MonthGridCells(ym: YearMonth, entries: seq<JournalEntry>)
    requires ValidMonth(ym)
    ensures var g := MonthGrid(ym, entries);
      && (forall k :: 0 <= k < MonthOffset(ym) ==> g[k] == Padding())
      && (forall k :: MonthOffset(ym) <= k < |g| ==> g[k] == DayCell(ym, k - MonthOffset(ym) + 1, entries))
  {
  }

  /** A day of the month has an entry of the month exactly when the store
      has an entry on that day. */
  lemma MonthEntriesOnDay(es: seq<JournalEntry>, month: DateTime, i: int)
    requires 1 <= i <= MonthLength(ShownMonth(month))
    ensures var date := DayOfMonth(ShownMonth(month), i);
      (exists e :: e in InMonth(SortBy(es, DateDesc), month) && Date(e.entryDate) == date)
        <==> (exists e :: e in es && Date(e.entryDate) == date)
  {
    var ym := ShownMonth(month);
    var date := DayOfMonth(ym, i);
    CivilRoundTrip(Civil(ym.year, ym.month, i));
    forall e | e in es && Date(e.entryDate) == date
      ensures e in InMonth(SortBy(es, DateDesc), month)
    {
      assert e in multiset(SortBy(es, DateDesc));
      assert SameMonth(e, month);
    }
    forall e | e in InMonth(SortBy(es, DateDesc), month) ensures e in es {
      assert e in multiset(SortBy(es, DateDesc));
    }
  }

  /** In the grid of a month, a day is marked exactly when the store has an
      entry on that day. */
  lemma GridMarksStore(es: seq<JournalEntry>, month: DateTime)
    ensures var g := MonthGrid(ShownMonth(month), InMonth(SortBy(es, DateDesc), month));
      forall k :: MonthOffset(ShownMonth(month)) <= k < |g| ==>
        (g[k].hasEntry <==> exists e :: e in es && Date(e.entryDate) == g[k].date)
  {
    var ym := ShownMonth(month);
    var g := MonthGrid(ym, InMonth(SortBy(es, DateDesc), month));
    MonthGridCells(ym, InMonth(SortBy(es, DateDesc), month));
    forall k | MonthOffset(ym) <= k < |g|
      ensures g[k].hasEntry <==> exists e :: e in es && Date(e.entryDate) == g[k].date
    {
      MonthEntriesOnDay(es, month, k - MonthOffset(ym) + 1);
    }
  }

  /** What tapping a cell does. */
  datatype TapResult =
    | Ignored
    | FutureRefused
    | OpenEditor(id: int, date: DateTime)

  /** A padding cell is ignored; a day with an entry opens it by id; a day
      without one opens a new entry (id 0) unless it lies after today. */
  function TapOutcome(es: seq<JournalEntry>, day: CalendarDay, today: DateTime): TapResult {
    if !day.isCurrentMonth then Ignored
    else
      var id := match EntryOnDate(es, Date(day.date)) case Some(e) => e.id case None => 0;
      if id == 0 && Ticks(day.date) > Ticks(today) then FutureRefused
      else OpenEditor(id, day.date)
  }

  /** Only padding cells are ignored; a day is refused exactly when it has no
      entry and lies after today; otherwise the editor opens on its entry, or
      on a new one when it has none. */
  lemma TapRules(es: seq<JournalEntry>, next: int, day: CalendarDay, today: DateTime)
    requires EntriesValid(es, next)
    ensures TapOutcome(es, day, today) == Ignored <==> !day.isCurrentMonth
    ensures TapOutcome(es, day, today) == FutureRefused <==>
              day.isCurrentMonth && EntryOnDate(es, Date(day.date)).None? && Ticks(day.date) > Ticks(today)
    ensures TapOutcome(es, day, today).OpenEditor? ==>
              TapOutcome(es, day, today).id == (if EntryOnDate(es, Date(day.date)).Some? then EntryOnDate(es, Date(day.date)).value.id else 0)
  {
    match EntryOnDate(es, Date(day.date))
    case Some(e) =>
      var k :| 0 <= k < |es| && es[k] == e;
      assert e.id >= 1;
    case None =>
  }

  class CalendarViewModel {
    const journal: JournalService
    var currentMonth: DateTime
    var monthName: string
    var days: seq<CalendarDay>

    /** A calendar on the current month. */
    constructor(journal: JournalService, now: DateTime)
      modifies journal.db
      requires journal.db.Valid()
      ensures this.journal == journal && currentMonth == Date(now)
      ensures journal.db.Valid() && journal.db.ReadOnly()
      ensures monthName == MonthAndYear(currentMonth.day)
      ensures days == MonthGrid(ShownMonth(currentMonth), InMonth(SortBy(journal.db.entries, DateDesc), currentMonth))
    {
      this.journal := journal;
      currentMonth := Date(now);
      monthName := "";
      days := [];
      new;
      LoadMonth();
    }

    /** Rebuilds the grid of the current month from the month's entries,
        newest first (GridMarksStore: a cell is marked exactly when the store
        has an entry on its day). */
    method LoadMonth()
      modifies this, journal.db
      requires journal.db.Valid()
      ensures journal.db.Valid() && journal.db.ReadOnly()
      ensures currentMonth == old(currentMonth)
      ensures monthName == MonthAndYear(currentMonth.day)
      ensures days == MonthGrid(ShownMonth(currentMonth), InMonth(SortBy(journal.db.entries, DateDesc), currentMonth))
    {
      var name, grid := FetchMonth(currentMonth);
      monthName, days := name, grid;
    }

    /** The page appearing: the current month is loaded again. */
    method Appearing()
      modifies this, journal.db
      requires journal.db.Valid()
      ensures journal.db.Valid() && journal.db.ReadOnly()
      ensures currentMonth == old(currentMonth)
      ensures monthName == MonthAndYear(currentMonth.day)
      ensures days == MonthGrid(ShownMonth(currentMonth), InMonth(SortBy(journal.db.entries, DateDesc), currentMonth))
    {
      LoadMonth();
    }

    /** The title and the cells of month, its entries read from the store. */
    method FetchMonth(month: DateTime) returns (name: string, grid: seq<CalendarDay>)
      modifies journal.db
      requires journal.db.Valid()
      ensures journal.db.Valid() && journal.db.ReadOnly()
      ensures name == MonthAndYear(month.day)
      ensures grid == MonthGrid(ShownMonth(month), InMonth(SortBy(journal.db.entries, DateDesc), month))
    {
      var entries := journal.GetEntriesForMonth(month);
      grid := MonthDays(ShownMonth(month), entries);
      name := MonthAndYear(month.day);
    }

    /** The cells of the month, built as the page adds them: the padding
        cells first, then one cell per day, marked when an entry of entries
        falls on it. */
    static method MonthDays(ym: YearMonth, entries: seq<JournalEntry>) returns (cells: seq<CalendarDay>)
      requires ValidMonth(ym)
      ensures cells == MonthGrid(ym, entries)
    {
      var offset := MonthOffset(ym);
      cells := [];
      for i := 0 to offset
        invariant cells == seq(i, _ => Padding())
      {
        cells := cells + [Padding()];
      }
      var daysInMonth := MonthLength(ym);
      for i := 1 to daysInMonth + 1
        invariant |cells| == offset + i - 1
        invariant forall k :: 0 <= k < offset ==> cells[k] == Padding()
        invariant forall k :: offset <= k < |cells| ==> cells[k] == DayCell(ym, k - offset + 1, entries)
      {
        var date := DayOfMonth(ym, i);
        var entry := First(entries, OnDay(date));
        cells := cells + [CalendarDay(date, NatToString(i), true, entry.Some?, if entry.Some? then EntryColor else NoColor)];
      }
      ghost var grid := MonthGrid(ym, entries);
      MonthGridCells(ym, entries);
      assert forall k :: 0 <= k < |grid| ==> cells[k] == grid[k];
    }

    /** Shows the month of month. */
    method ShowMonth(month: DateTime)
      modifies this, journal.db
      requires journal.db.Valid()
      ensures journal.db.Valid() && journal.db.ReadOnly()
      ensures currentMonth == month
      ensures monthName == MonthAndYear(month.day)
      ensures days == MonthGrid(ShownMonth(month), InMonth(SortBy(journal.db.entries, DateDesc), month))
    {
      currentMonth := month;
      LoadMonth();
    }

    /** Shows the next month. */
    method NextMonth()
      modifies this, journal.db
      requires journal.db.Valid()
      ensures journal.db.Valid() && journal.db.ReadOnly()
      ensures currentMonth == AddMonths(old(currentMonth), 1)
      ensures monthName == MonthAndYear(currentMonth.day)
      ensures YearMonthOf(currentMonth.day) == ShiftMonth(YearMonthOf(old(currentMonth).day), 1)
      ensures days == MonthGrid(ShownMonth(currentMonth), InMonth(SortBy(journal.db.entries, DateDesc), currentMonth))
    {
      AddMonthsShifts(currentMonth, 1);
      ShowMonth(AddMonths(currentMonth, 1));
    }

    /** Shows the previous month. */
    method PrevMonth()
      modifies this, journal.db
      requires journal.db.Valid()
      ensures journal.db.Valid() && journal.db.ReadOnly()
      ensures currentMonth == AddMonths(old(currentMonth), -1)
      ensures monthName == MonthAndYear(currentMonth.day)
      ensures YearMonthOf(currentMonth.day) == ShiftMonth(YearMonthOf(old(currentMonth).day), -1)
      ensures days == MonthGrid(ShownMonth(currentMonth), InMonth(SortBy(journal.db.entries, DateDesc), currentMonth))
    {
      AddMonthsShifts(currentMonth, -1);
      ShowMonth(AddMonths(currentMonth, -1));
    }

    /** Opens the tapped day, as TapOutcome says; a padding cell does not
        reach the store. */
    method DayTapped(day: CalendarDay, now: DateTime) returns (r: TapResult)
      modifies journal.db
      requires journal.db.Valid()
      ensures journal.db.Valid()
      ensures r == TapOutcome(journal.db.entries, day, Date(now))
      ensures !day.isCurrentMonth ==> unchanged(journal.db)
      ensures day.isCurrentMonth ==> journal.db.ReadOnly()
    {
      if !day.isCurrentMonth {
        return Ignored;
      }
      var existing := journal.GetEntryForDate(day.date);
      var id := if existing.Some? then existing.value.id else 0;
      if id == 0 {
        if Ticks(day.date) > Ticks(Date(now)) {
          return FutureRefused;
        }
      }
      r := OpenEditor(id, day.date);
    }
  }
}
