# SecureDailyJournal, modelled in Dafny

SecureDailyJournal is a single-user journaling app. Everything lives in a
local SQLite file: journal entries (at most one per calendar day, with a
title, content, a primary mood and secondary moods), a seeded list of
moods, free-text tags linked to entries, and one user row holding the hash
of a four-digit PIN. The app opens on a PIN pad that either sets up a new
PIN or checks it. The dashboard greets by the time of day, says whether
today's entry exists and lists the five newest entries. The calendar shows a
month grid with a mark on every day that has an entry. The history page
filters entries by date range, search text and mood. The analytics page
reports writing streaks, the mood distribution and the total word count.
The settings page picks a date range of entries for export.

The model follows the program's layers:

- `Models` (models.dfy): the stored records as datatypes.
- `Storage` (database_service.dfy): the database service as a class. Its
  tables are `seq` fields and the AUTOINCREMENT counters are `int` fields.
  A store operation is a method whose contract states the new tables in
  terms of pure functions (`SaveEntryOutcome`, `WithoutEntry`, `LinksFor`,
  ...). The table invariants (unique ids, unique entry dates, unique mood
  and tag names) are kept by every write.
- `Journal`, `Analytics`, `Security` (the services): classes over the
  database service.
- `Login`, `Dashboard`, `History`, `Calendar`, `Editor`, `Settings` (the
  view models): classes whose fields are the bound properties.
- `Dates`, `Text`, `Seqs` and `Wrappers`: the parts of .NET and LINQ that
  the core relies on:
  - `DateTime` as a day number plus a time of day, with the proleptic
    Gregorian calendar;
  - `Trim`, `Split`, `Join`, `ToLower`;
  - a stable `OrderBy`, `Where`, `Distinct`, `FirstOrDefault`;
  - `Option` and `Result`.

The current time is never read. Every operation that needs "now" or
"today" takes it as a parameter. The PIN hash is a function value held by
the security service. The only thing assumed about it is that its results
are never empty.

## Model

| member | source | states |
|---|---|---|
| Models.MoodNames | ViewModels/EntryEditorViewModel.cs:61 | the mood names, one per mood, in table order |
| Models.TagNames | ViewModels/EntryEditorViewModel.cs:64-66 | the tag names, one per tag, in table order |
| Seqs.Map | ViewModels/EntryEditorViewModel.cs:61 | one result per element, the function applied to the element at the same position |
| Storage.EntryLookups | Models/JournalEntry.cs:5-27 | in a valid Entry table (unique Id, UNIQUE EntryDate), each row is the one found by its id and the one found by its date |
| Storage.ReplaceEntryValid | Services/DatabaseService.cs:72-76 | an UPDATE of an existing id to a date no other row holds keeps the table valid; it puts the entry under its id and date and leaves every other row as it was |
| Storage.ReplaceEntryRows | Services/DatabaseService.cs:72-76 | the UPDATE writes the entry into the row with its id and changes no other row |
| Storage.AppendEntryValid | Services/DatabaseService.cs:78-83 | an INSERT of a free date under the next id keeps the table valid, and the entry is then found by its id and by its date |
| Storage.WithoutEntryGone | Services/DatabaseService.cs:86-90 | after a DELETE no row has the id, the table stays valid, and every other row stays |
| Storage.SeedMoodsValid | Services/DatabaseService.cs:29-39 | the five seeded moods form a valid Mood table (distinct ids and names) |
| Storage.AppendTagValid | Services/DatabaseService.cs:142-148 | inserting a tag under an unused name keeps the Tag table valid; the new tag is found by name and earlier lookups do not change |
| Storage.LinksForSnoc | Services/DatabaseService.cs:140-150 | the links of a list of names grow one name at a time |
| Storage.LinksForStable | Services/DatabaseService.cs:140-150 | creating a tag does not change the links of names that already had one |
| Storage.LinksStep | Services/DatabaseService.cs:140-150 | one more round of the loop over the names appends exactly that name's link |
| Storage.TagsGrownStep | Services/DatabaseService.cs:140-150 | one round of the loop keeps the old tags as a prefix and only adds tags named in the list |
| Storage.LinksForFrom | Services/DatabaseService.cs:140-150 | every link written points from the entry to the tag of a listed name |
| Storage.LinksForHas | Services/DatabaseService.cs:140-150 | every listed name that has a tag gets a link from the entry to that tag |
| Storage.TagsForEntryNamed | Services/DatabaseService.cs:121-131 | the tags of an entry are the named tags when the two selections agree tag by tag |
| Storage.SavedTagsListed | Services/DatabaseService.cs:133-151 | after replacing an entry's links, the tags read back for it are exactly the tags of the listed names |
| Storage.NamedTagsMembers | Services/DatabaseService.cs:121-131 | a tag is among the named tags exactly when it is in the table and its name is listed |
| Storage.SaveEntryValid | Services/DatabaseService.cs:69-84 | a save keeps the Entry table valid, and the next id never goes back |
| Storage.SaveEntryWrites | Services/DatabaseService.cs:69-84 | a save writes one row exactly when the row to update exists and no other row holds its date, or the date to insert is free; a written row is then found by its id and its date; otherwise nothing changes; UpdatedAt is stamped, and an insert is dated at midnight and created now |
| Storage.SaveEntryKeepsOthers | Services/DatabaseService.cs:69-84 | a successful save keeps every row whose id differs from the saved one |
| Storage.DatabaseService.constructor | Services/DatabaseService.cs:14-40 | a service over existing valid tables, not yet opened |
| Storage.DatabaseService.Init | Services/DatabaseService.cs:14-40 | opens once; on the first opening an empty Mood table gets the five seeded moods; nothing else changes, and a second call changes nothing |
| Storage.DatabaseService.GetEntries | Services/DatabaseService.cs:42-46 | all entries, a permutation of the table sorted newest date first |
| Storage.DatabaseService.GetEntry | Services/DatabaseService.cs:48-52 | the row with the id, or None exactly when no row has it |
| Storage.DatabaseService.GetEntryByDate | Services/DatabaseService.cs:54-67 | the row whose date is the date part of the argument, or None exactly when no row has that date |
| Storage.DatabaseService.SaveEntry | Services/DatabaseService.cs:69-84 | an UPDATE by id when the id is not 0 (0 rows when no row has it), otherwise an INSERT under a fresh id; a UNIQUE date clash is a failure that changes nothing; the result and the tables are those of SaveEntryOutcome |
| Storage.DatabaseService.DeleteEntry | Services/DatabaseService.cs:86-90 | removes the row with the id and returns the number of rows deleted (0 or 1); the links and other tables stay |
| Storage.DatabaseService.GetUser | Services/DatabaseService.cs:93-97 | the first User row, None exactly when the table is empty |
| Storage.DatabaseService.SaveUser | Services/DatabaseService.cs:99-106 | UPDATE of the user's row when the id is not 0, otherwise INSERT under a fresh id; the other tables stay |
| Storage.DatabaseService.GetMoods | Services/DatabaseService.cs:109-113 | the Mood table, which after opening is never empty |
| Storage.DatabaseService.GetAllTags | Services/DatabaseService.cs:115-119 | the Tag table |
| Storage.DatabaseService.GetTagsForEntry | Services/DatabaseService.cs:121-131 | the tags linked to the entry, in table order |
| Storage.DatabaseService.SaveTagsForEntry | Services/DatabaseService.cs:133-151 | the evidently intended save (see Findings): drops the entry's links, creates a tag for every name without one (old tags kept as a prefix, new ones named in the list), links the entry to each listed name; the tags read back are exactly the listed ones |
| Storage.DatabaseService.SaveTagsForEntryAsWritten | Services/DatabaseService.cs:133-151 | the save as the code stands: it fails, with the tag tables unchanged, exactly when the entry already has a link; otherwise it links the listed names as the intended save does |
| Storage.ClearLinksAsWritten | Services/DatabaseService.cs:137-138 | deleting the entry's links by object fails exactly when the entry has a link (EntryTag has no primary key), and otherwise leaves the table as it was |
| Storage.ClearAsWrittenAgrees | Services/DatabaseService.cs:137-138 | where the clearing as written succeeds, its result equals the intended clearing |
| Storage.RetagKeepsStaleLink | Services/DatabaseService.cs:137-138 | for an entry with a link, the clearing as written fails and the link survives, while the intended clearing removes it |
| Storage.DatabaseService.LinkTags | Services/DatabaseService.cs:140-150 | the loop over the names: old tags kept as a prefix, every name has a tag, one link per name appended in order |
| Storage.DatabaseService.LinkNext | Services/DatabaseService.cs:140-150 | one round of the loop keeps the loop's invariant one name further |
| Storage.DatabaseService.LinkTag | Services/DatabaseService.cs:142-149 | finds the tag with the name or inserts it under a fresh id, then appends the link to it |
| Journal.InMonth | Services/JournalService.cs:64 | an entry is kept exactly when it is in the list and dated in the same year and month |
| Journal.InMonthSorted | Services/JournalService.cs:50-65 | the month's entries of a newest-first list are still newest first |
| Journal.OneEntryPerDay | Models/JournalEntry.cs:10-11 | with every date at midnight, the UNIQUE date column allows one entry per calendar day |
| Journal.EntryForDay | Services/JournalService.cs:14-17 | with dates at midnight, the entry found for any time of a day is exactly the one stored on that day |
| Journal.SaveKeepsMidnight | Services/JournalService.cs:37-43 | a save of a midnight-dated entry keeps every stored date at midnight |
| Journal.CreateForTodayIdempotent | Services/JournalService.cs:19-35 | asking for today's entry keeps the table valid, leaves the day holding exactly that entry, and a second request returns it without adding anything |
| Journal.JournalService.constructor | Services/JournalService.cs:9-12 | the service over the given database service |
| Journal.JournalService.GetEntryForDate | Services/JournalService.cs:14-17 | the entry stored on the date part of the argument |
| Journal.JournalService.CreateEntryForToday | Services/JournalService.cs:19-35 | returns the stored entry of today, or inserts one titled "Entry for" and the long date with empty content; either way the day's entry is then stored |
| Journal.JournalService.SaveEntry | Services/JournalService.cs:37-43 | stamps UpdatedAt, cuts the date to midnight and saves; dates at midnight stay at midnight |
| Journal.JournalService.DeleteEntry | Services/JournalService.cs:45-48 | no row with the entry's id remains |
| Journal.JournalService.GetEntriesForMonth | Services/JournalService.cs:50-65 | exactly the stored entries of the month, newest first |
| Journal.JournalService.GetAllEntries | Services/JournalService.cs:67-70 | all stored entries, newest first |
| Journal.JournalService.HasEntryForDate | Services/JournalService.cs:73-77 | true exactly when some row is dated on the date part of the argument |
| Journal.JournalService.SaveTagsForEntry | Services/JournalService.cs:78-81 | the entry's tags become exactly the listed ones; existing tags are kept as a prefix and new tags carry listed names; entries and users are untouched |
| Analytics.EntryDays | Services/AnalyticsService.cs:19 | one day per entry, and a day occurs exactly when some entry is on it |
| Analytics.RunSpan | Services/AnalyticsService.cs:31-50 | the run ending at a day is exactly the consecutive days before it that have entries: all of them are present and the day before them is absent |
| Analytics.CurrentStreakRuns | Services/AnalyticsService.cs:31-50 | the current streak is the run ending today if today has an entry, else the run ending yesterday, and it is positive exactly when today or yesterday has an entry |
| Analytics.RunInIncreasing | Services/AnalyticsService.cs:57-76 | in strictly increasing days, the run ending at a day extends the previous day's run by one when the days are consecutive, and is 1 otherwise |
| Analytics.CountBack | Services/AnalyticsService.cs:33-38 | the loop walking back day by day from a day with an entry counts the run ending there, at least 1 |
| Analytics.LongestRun | Services/AnalyticsService.cs:57-76 | the one-pass scan over the ascending days returns the greatest run: no day's run exceeds it and some day's run equals it |
| Analytics.StreakStats | Services/AnalyticsService.cs:14-79 | no entries give 0 and 0; otherwise the current streak as above and the longest streak as the maximum run, at least 1 and at least the current one |
| Analytics.DistinctDays | Services/AnalyticsService.cs:19 | the days of the entries, each once, latest first |
| Analytics.AscendingDays | Services/AnalyticsService.cs:60 | sorting distinct days ascending gives strictly increasing days over the same set |
| Analytics.StreakExampleToday | Services/AnalyticsService.cs:31-76 | entries today and on the two days before, plus one four days ago, give a current streak of 3, and no day's run is longer than the run of 3 ending today |
| Analytics.StreakExampleLongest | Services/AnalyticsService.cs:57-76 | on those days, a longest streak with the properties StreakStats states (no run longer, some run that long) is 3 |
| Analytics.StreakExampleYesterday | Services/AnalyticsService.cs:41-50 | entries on the three days before today and none today still give a current streak of 3 |
| Analytics.NamedMoodsMembers | Services/AnalyticsService.cs:86-92 | a mood is counted exactly when it is non-empty and some entry has it as its primary mood |
| Analytics.NamedMoodsAppend | Services/AnalyticsService.cs:86-92 | the named moods of two lists joined are those of the first followed by those of the second |
| Analytics.NamedMoodsPerm | Services/AnalyticsService.cs:86-92 | lists with the same entries, in any order, have the same named moods, each as often |
| Analytics.MoodDistribution | Services/AnalyticsService.cs:81-95 | the keys are exactly the non-empty primary moods, each mapped to the number of entries that have it |
| Analytics.CountSumSnoc | Services/AnalyticsService.cs:86-92 | one more entry adds one to the count of its mood |
| Analytics.DistinctCountSum | Services/AnalyticsService.cs:81-95 | counting every distinct mood once adds up to the number of moods counted |
| Analytics.DistributionTotal | Services/AnalyticsService.cs:81-95 | the values of the distribution add up to the number of entries with a non-empty mood |
| Analytics.MapTotalCounts | Services/AnalyticsService.cs:81-95 | a map holding the counts of a list sums to the same as the counts |
| Analytics.WordCount | Services/AnalyticsService.cs:100 | the number of non-empty pieces of the content split on space, line feed and carriage return is the number of places where a word starts |
| Analytics.NoWords | Services/AnalyticsService.cs:100 | the count is zero exactly when the content has only separators |
| Analytics.TokenCons | Services/AnalyticsService.cs:100 | counting word starts one character at a time |
| Analytics.WordThen | Services/AnalyticsService.cs:100 | a non-empty word without separators in front of the rest starts exactly one word when a word may start there, and the rest follows a word |
| Analytics.WordCountExample | Services/AnalyticsService.cs:100 | "one two", a line feed and "three" count three words |
| Analytics.TotalWords | Services/AnalyticsService.cs:97-101 | the sum of the word counts of the entries; 0 for no entries |
| Analytics.TotalWordsAppend | Services/AnalyticsService.cs:100 | the total of two lists joined is the sum of their totals |
| Analytics.TotalWordsPerm | Services/AnalyticsService.cs:100 | lists with the same entries, in any order, have the same total |
| Analytics.SameDays | Services/AnalyticsService.cs:14-19 | reordering the entries keeps their days and their emptiness |
| Analytics.AnalyticsService.constructor | Services/AnalyticsService.cs:9-12 | the service over the given database service |
| Analytics.AnalyticsService.GetStreakStats | Services/AnalyticsService.cs:14-79 | the streaks of the stored entries, as StreakStats states them |
| Analytics.AnalyticsService.GetMoodDistribution | Services/AnalyticsService.cs:81-95 | the keys are exactly the non-empty primary moods of the stored entries, each mapped to how many stored entries have it, whatever order the store reads them in |
| Analytics.AnalyticsService.GetTotalWords | Services/AnalyticsService.cs:97-101 | the total word count of the stored entries, whatever order the store reads them in |
| Security.SetPinThenVerify | Services/SecurityService.cs:22-44 | setting a PIN never adds a second user row; afterwards the PIN is set, its hash is accepted and every other hash is refused |
| Security.SetPinKeepsRows | Services/SecurityService.cs:22-35 | setting the PIN changes only the hash of the first user row |
| Security.SecurityService.constructor | Services/SecurityService.cs:11-14 | the service over the database service and a hash whose results are never empty |
| Security.SecurityService.IsPinSet | Services/SecurityService.cs:16-20 | true exactly when a user row exists and its hash is not empty |
| Security.SecurityService.SetPin | Services/SecurityService.cs:22-35 | stores the PIN's hash in the first user row, inserting it when there is none; the PIN is then set and accepted |
| Security.SecurityService.VerifyPin | Services/SecurityService.cs:37-44 | true exactly when a user row exists and holds the hash of the PIN; false without a user row |
| Login.LoginViewModel.constructor | ViewModels/LoginViewModel.cs:25-30 | an empty pad in setup mode exactly when no PIN is set, with that mode's title and prompt; the store is only read |
| Login.LoginViewModel.CheckStatus | ViewModels/LoginViewModel.cs:32-45 | setup mode exactly when no PIN is set; the title and prompt follow the mode |
| Login.LoginViewModel.SubmitPin | ViewModels/LoginViewModel.cs:67-97 | in setup mode the PIN is stored (only the user table changes) and the pad cleared for login; otherwise the store is only read, with "Success!" for the right PIN, or "Incorrect PIN" and a cleared pad |
| Login.LoginViewModel.AddDigit | ViewModels/LoginViewModel.cs:47-58 | a digit is added only below four, the fourth submits the PIN, and one character per key keeps the pad at four at most |
| Login.LoginViewModel.Clear | ViewModels/LoginViewModel.cs:60-65 | empties the pad and shows the mode's prompt again |
| Dashboard.Hour | ViewModels/DashboardViewModel.cs:39 | the hour of the day, 0 to 23 |
| Dashboard.GreetingFor | ViewModels/DashboardViewModel.cs:36-40 | "Good Morning" exactly before noon, "Good Afternoon" exactly from noon to six, "Good Evening" exactly from six |
| Dashboard.Take | ViewModels/DashboardViewModel.cs:62 | a prefix of the list, of length n or the whole list when shorter |
| Dashboard.DashboardViewModel.constructor | ViewModels/DashboardViewModel.cs:14-26 | the initial greeting, status and button text, and no recent entries |
| Dashboard.DashboardViewModel.Appearing | ViewModels/DashboardViewModel.cs:28-34 | greeting by the hour, today's status and button text by whether today's entry exists, and the five newest entries |
| Dashboard.DashboardViewModel.UpdateGreeting | ViewModels/DashboardViewModel.cs:36-40 | the greeting for the current hour, nothing else changed |
| Dashboard.DashboardViewModel.CheckTodayEntry | ViewModels/DashboardViewModel.cs:42-55 | "journaled today" and "Edit" exactly when today's entry exists, "haven't journaled" and "Create" otherwise |
| Dashboard.DashboardViewModel.LoadRecentEntries | ViewModels/DashboardViewModel.cs:57-65 | the first five of the newest-first entries |
| Dashboard.DashboardViewModel.AddRecent | ViewModels/DashboardViewModel.cs:61-64 | the cleared list refilled with exactly the given entries, in order |
| Dashboard.DashboardViewModel.OpenTodayEntry | ViewModels/DashboardViewModel.cs:67-77 | gets or creates today's entry and opens the editor on its id, which is then the id of the entry stored for today; only the entries table can change |
| History.HistoryViewExact | ViewModels/HistoryViewModel.cs:59-85 | the list holds exactly the entries in the date range that match the search and the mood, each as often as in the input, newest first |
| History.EmptyRangeShowsNothing | ViewModels/HistoryViewModel.cs:64 | a start day after the end day shows nothing |
| History.NoTextNoMoodFilter | ViewModels/HistoryViewModel.cs:67-78 | a blank search and the "All" mood filter by date range only |
| History.HistoryViewModel.constructor | ViewModels/HistoryViewModel.cs:14-35 | empty search, mood "All", range from three months ago to today, nothing loaded |
| History.HistoryViewModel.LoadMoods | ViewModels/HistoryViewModel.cs:44-50 | the options are "All" followed by every mood name in table order; the filters and the lists of entries are kept |
| History.HistoryViewModel.AddMoodNames | ViewModels/HistoryViewModel.cs:49 | appends the mood names in order; nothing else changes |
| History.HistoryViewModel.LoadEntries | ViewModels/HistoryViewModel.cs:52-57 | all entries reloaded newest first, then filtered; the filters and the mood options are kept |
| History.HistoryViewModel.ApplyFilters | ViewModels/HistoryViewModel.cs:59-85 | the shown list is the filtered view of all entries; the filters themselves do not change |
| History.HistoryViewModel.AddFiltered | ViewModels/HistoryViewModel.cs:80-84 | the cleared list refilled with exactly the given entries, in order |
| History.HistoryViewModel.SetSearchText | ViewModels/HistoryViewModel.cs:88 | a new search text filters again; the other filters, all entries and the mood options are kept |
| History.HistoryViewModel.SetStartDate | ViewModels/HistoryViewModel.cs:89 | a new start date filters again; the other filters, all entries and the mood options are kept |
| History.HistoryViewModel.SetEndDate | ViewModels/HistoryViewModel.cs:90 | a new end date filters again; the other filters, all entries and the mood options are kept |
| History.HistoryViewModel.SetSelectedMood | ViewModels/HistoryViewModel.cs:91 | a new mood filters again; the other filters, all entries and the mood options are kept |
| Calendar.ShownMonth | ViewModels/CalendarViewModel.cs:62-63 | the year and month of the shown date, the month between 1 and 12 |
| Calendar.MonthOffset | ViewModels/CalendarViewModel.cs:63-64 | the number of padding cells, between 0 and 6: the weekday of the first, Sunday being 0 |
| Calendar.MonthLength | ViewModels/CalendarViewModel.cs:62 | the number of days of the month, between 28 and 31 |
| Calendar.DayCell | ViewModels/CalendarViewModel.cs:75-88 | day i's cell has the date and number of that day, and is marked, in the entry colour, exactly when an entry of the month is on that day |
| Calendar.MonthGrid | ViewModels/CalendarViewModel.cs:66-88 | the grid has the padding cells plus one cell per day of the month |
| Calendar.MonthGridCells | ViewModels/CalendarViewModel.cs:66-88 | the first cells are padding and cell offset + i - 1 is day i |
| Calendar.MonthEntriesOnDay | ViewModels/CalendarViewModel.cs:73-78 | a day of the month has an entry of the month exactly when the store has an entry on that day |
| Calendar.TitleNamesShownMonth | ViewModels/CalendarViewModel.cs:59-63 | the "MMMM yyyy" title is the name and year of the month the grid shows, and every day of the grid has that same title |
| Calendar.GridMarksStore | ViewModels/CalendarViewModel.cs:57-89 | in the month's grid a cell is marked exactly when the store has an entry on its day |
| Calendar.TapRules | ViewModels/CalendarViewModel.cs:91-127 | only padding cells are ignored; a day with an entry opens that entry by its id; a day without one is refused exactly when it is after today, and otherwise opens a new entry for that day |
| Calendar.CalendarViewModel.constructor | ViewModels/CalendarViewModel.cs:30-35 | the calendar opens on today's month with its title and grid loaded |
| Calendar.CalendarViewModel.LoadMonth | ViewModels/CalendarViewModel.cs:57-89 | the title is the month and year, and the grid is that of the current month over its stored entries |
| Calendar.CalendarViewModel.Appearing | ViewModels/CalendarViewModel.cs:51-55 | reloads the title and grid of the current month, which stays; the store is only read |
| Calendar.CalendarViewModel.FetchMonth | ViewModels/CalendarViewModel.cs:57-89 | the title and the grid of a month, its entries read from the store |
| Calendar.CalendarViewModel.MonthDays | ViewModels/CalendarViewModel.cs:66-88 | the two loops that add the padding and the day cells build exactly the month's grid |
| Calendar.CalendarViewModel.ShowMonth | ViewModels/CalendarViewModel.cs:37-49 | shows the given month and reloads its title and grid |
| Calendar.CalendarViewModel.NextMonth | ViewModels/CalendarViewModel.cs:37-42 | moves one calendar month on and reloads the title and grid |
| Calendar.CalendarViewModel.PrevMonth | ViewModels/CalendarViewModel.cs:44-49 | moves one calendar month back and reloads the title and grid |
| Calendar.CalendarViewModel.DayTapped | ViewModels/CalendarViewModel.cs:91-127 | does what TapRules states, and a padding cell does not touch the store |
| Editor.Chosen | ViewModels/EntryEditorViewModel.cs:162-164 | the non-empty secondary moods, at most two |
| Editor.JoinMoods | ViewModels/EntryEditorViewModel.cs:162-165 | the stored string is empty exactly when no secondary mood is chosen |
| Editor.SplitMoods | ViewModels/EntryEditorViewModel.cs:122-132 | an empty stored string clears the first slot, and a non-empty one fills it |
| Editor.SaveThenLoadMoods | ViewModels/EntryEditorViewModel.cs:122-165 | saving the slots and loading them back returns each chosen mood, first slot first; with one mood chosen the second slot keeps its old value |
| Editor.MoodsRoundTrip | ViewModels/EntryEditorViewModel.cs:122-165 | two non-empty moods without commas come back in the same slots |
| Editor.LoadedMoods | ViewModels/EntryEditorViewModel.cs:122-132 | a string without a comma fills the first slot only; "a,b" fills both slots |
| Editor.WithTag | ViewModels/EntryEditorViewModel.cs:74-78 | the list with the tag added unless it is already there; nothing else changes |
| Editor.WithTagDistinct | ViewModels/EntryEditorViewModel.cs:74-78 | adding a tag keeps a list without duplicates free of them |
| Editor.RemoveFirst | ViewModels/EntryEditorViewModel.cs:86 | the list without one occurrence of the tag, or unchanged when it is absent |
| Editor.RemoveFirstDistinct | ViewModels/EntryEditorViewModel.cs:83-87 | in a list without duplicates, removing a tag takes it out entirely and keeps everything else |
| Editor.Edited | ViewModels/EntryEditorViewModel.cs:158-165 | the entry with the editor's title, content and primary mood copied on; id, date and creation time kept |
| Editor.EntryEditorViewModel.constructor | ViewModels/EntryEditorViewModel.cs:51-56 | an empty editor, dated DateTime's default, with the mood names and every tag name loaded |
| Editor.EntryEditorViewModel.LoadMoods | ViewModels/EntryEditorViewModel.cs:58-67 | the mood names and the tag names, in table order |
| Editor.EntryEditorViewModel.CollectNames | ViewModels/EntryEditorViewModel.cs:65-66 | the loop adding each tag name to the cleared list gives exactly the tag names |
| Editor.EntryEditorViewModel.AddTag | ViewModels/EntryEditorViewModel.cs:69-81 | a blank input changes nothing; otherwise the trimmed tag is selected and offered once each and the input is cleared |
| Editor.EntryEditorViewModel.AddedTag | ViewModels/EntryEditorViewModel.cs:69-81 | the input and the two tag lists after AddTag, as above |
| Editor.EntryEditorViewModel.RemoveTag | ViewModels/EntryEditorViewModel.cs:83-87 | the tag leaves the selected tags; nothing else changes |
| Editor.EntryEditorViewModel.LoadEntry | ViewModels/EntryEditorViewModel.cs:114-140 | the entry's fields, date and mood slots are shown, the selected tags are the names of its stored tags, and the picker lists and tag input are kept; the store is only read |
| Editor.EntryEditorViewModel.ShowEntry | ViewModels/EntryEditorViewModel.cs:116-137 | copies the fields, splits the moods and shows the given tag names |
| Editor.EntryEditorViewModel.Initialize | ViewModels/EntryEditorViewModel.cs:108-112 | the given entry becomes current and the form shows it as LoadEntry does; the store is only read |
| Editor.EntryEditorViewModel.SetEntryId | ViewModels/EntryEditorViewModel.cs:89-105 | the same id does nothing; a new id is stored and handled as OnEntryIdChanged states |
| Editor.EntryEditorViewModel.OnEntryIdChanged | ViewModels/EntryEditorViewModel.cs:89-105 | a positive id makes the entry with that id (or none) current; whenever there is then a current entry, the form shows it as LoadEntry does, and otherwise the form is unchanged; with a non-positive id and no current entry the store is not touched |
| Editor.EntryEditorViewModel.FetchEntry | ViewModels/EntryEditorViewModel.cs:91-97 | after the lookup by today's date, the entry with the id |
| Editor.EntryEditorViewModel.Save | ViewModels/EntryEditorViewModel.cs:153-173 | with no current entry nothing happens; otherwise the edited entry is saved through the journal service and on success its tags become exactly the selected ones, older tags kept; the form and the id are kept |
| Settings.ExportOf | ViewModels/SettingsViewModel.cs:36-61 | a range error exactly when the start is after the end |
| Settings.ExportOfExact | ViewModels/SettingsViewModel.cs:44-53 | for a valid range: nothing to export exactly when no entry is in it; otherwise exactly the entries in range, oldest first |
| Settings.SettingsViewModel.constructor | ViewModels/SettingsViewModel.cs:14-29 | the range from one month ago to today |
| Settings.SettingsViewModel.ExportPdf | ViewModels/SettingsViewModel.cs:36-61 | the decision for the stored entries and the range; a range error does not read the store |
| Settings.SettingsViewModel.ExportEntries | ViewModels/SettingsViewModel.cs:43-53 | reads the entries and picks those in the range, oldest first |
| Dates.TicksOrder | ViewModels/SettingsViewModel.cs:39 | DateTime values compare by day first and by time of day second |
| Dates.TicksInjective | Services/DatabaseService.cs:66 | two DateTime values are equal exactly when their ticks are |
| Dates.YearOf | ViewModels/CalendarViewModel.cs:62 | the year whose days include the given day |
| Dates.CivilOf | ViewModels/CalendarViewModel.cs:62-63 | the year, month and day of a day number: a valid date whose day number is that day |
| Dates.CivilRoundTrip | ViewModels/CalendarViewModel.cs:77 | dates and day numbers are in one-to-one correspondence |
| Dates.DayNumberInjective | ViewModels/CalendarViewModel.cs:77 | two valid dates with the same day number are the same date |
| Dates.DayOfWeek | ViewModels/CalendarViewModel.cs:64 | the weekday, from 0 to 6 |
| Dates.MonthTarget | ViewModels/CalendarViewModel.cs:40 | a valid date in the calendar month k months away; the day of the month is kept, or clamped to the last day of the target month when that month is shorter |
| Dates.AddMonths | ViewModels/CalendarViewModel.cs:40 | keeps the time of day; the day of the month is kept, or clamped to the last day of the target month when that month is shorter |
| Dates.AddMonthsShifts | ViewModels/CalendarViewModel.cs:37-49 | AddMonths(k) lands in the calendar month k months away |
| Dates.AddMonthsUndo | ViewModels/CalendarViewModel.cs:37-49 | next month and then previous month returns to the same year and month |
| Dates.ShiftMonthUndo | ViewModels/CalendarViewModel.cs:37-49 | moving a month on and back gives the same month |
| Dates.NatToString | ViewModels/CalendarViewModel.cs:83 | the decimal digits of a number, at least one (NatToStringValue: they spell the number) |
| Dates.NatToStringValue | ViewModels/CalendarViewModel.cs:83 | the decimal digits written spell the number, with a leading zero only for 0 |
| Dates.ZeroPad | ViewModels/CalendarViewModel.cs:59 | the text, preceded by as many zeros as bring it to the width; a text already that long is unchanged |
| Text.TrimStart | ViewModels/EntryEditorViewModel.cs:73 | a suffix whose leading white space is removed, and which does not start with white space |
| Text.TrimEnd | ViewModels/EntryEditorViewModel.cs:73 | a prefix whose trailing white space is removed, and which does not end with white space |
| Text.Trim | ViewModels/EntryEditorViewModel.cs:72-73 | no white space at either end, and empty exactly when the input is blank |
| Text.TrimBounds | ViewModels/EntryEditorViewModel.cs:72-73 | trimming both ends leaves nothing exactly when the string is blank |
| Text.SplitAny | Services/AnalyticsService.cs:100 | at least one piece; no piece holds a separator; the first piece is empty exactly when the string is empty or starts with a separator |
| Text.JoinSplit | ViewModels/EntryEditorViewModel.cs:124 | joining the pieces of a split with the separator gives back the string |
| Text.SplitJoin | ViewModels/EntryEditorViewModel.cs:124-165 | splitting a join of pieces without the separator gives back the pieces |
| Text.SplitPiece | ViewModels/EntryEditorViewModel.cs:124 | a string without the separator splits into itself |
| Text.SplitPrefix | ViewModels/EntryEditorViewModel.cs:124 | a piece followed by the separator is the first piece of the split |
| Text.NonEmpty | Services/AnalyticsService.cs:100 | no more pieces than given |
| Text.NonEmptyPiecesAreTokens | Services/AnalyticsService.cs:100 | the non-empty pieces of a split are as many as the places where a token starts |
| Text.ToLower | ViewModels/HistoryViewModel.cs:69-71 | same length, every character lowered |
| Seqs.Insert | Services/DatabaseService.cs:45 | inserting into a sorted list keeps it sorted and adds exactly that element |
| Seqs.SortBy | Services/DatabaseService.cs:45 | sorted by the key, a permutation of the input |
| Seqs.LeastKey | Services/AnalyticsService.cs:60 | the head of a sorted list has the least key |
| Seqs.Filter | Services/JournalService.cs:64 | an element is kept exactly when it is in the list and passes, and nothing is added |
| Seqs.FilterSorted | Services/JournalService.cs:64 | a filter keeps a sorted list sorted |
| Seqs.FilterPairwise | ViewModels/HistoryViewModel.cs:64-81 | a relation between earlier and later elements survives a filter |
| Seqs.FilterNone | ViewModels/HistoryViewModel.cs:64 | a filter that no element passes leaves nothing |
| Seqs.FilterCongruent | ViewModels/HistoryViewModel.cs:64-78 | filters that agree on the list's elements give the same list |
| Seqs.Distinct | Services/AnalyticsService.cs:19 | no duplicates and the same elements |
| Seqs.NoDuplicatesCount | Services/AnalyticsService.cs:19 | a list without duplicates holds every element at most once |
| Seqs.PermutationNoDuplicates | Services/AnalyticsService.cs:19 | reordering keeps a list free of duplicates |
| Seqs.SortedDistinctIncreases | Services/AnalyticsService.cs:60 | a sorted list without duplicates, whose keys identify elements, increases strictly |
| Seqs.First | Services/DatabaseService.cs:51 | None exactly when no element passes, otherwise the first passing element of the list |
| Seqs.FirstUnique | Services/DatabaseService.cs:54-67 | when exactly one element passes, it is the one found |
| Seqs.FirstAppend | Services/DatabaseService.cs:142-148 | appending a row does not change a match found before |
| Seqs.FirstAppendNone | Services/DatabaseService.cs:142-148 | after a failed search, appending a row makes it the only possible match |

## Left out

- The SQLite connection, the async plumbing and the table creation are not modelled. The tables are the fields of the database service, and opening is a flag.
- The async void handlers (LoadMonth, LoadMoods, LoadEntry, OnEntryIdChanged, and Login's CheckStatus and SubmitPin) are modelled as running to completion, one after the other. Interleavings of overlapping handlers are not modelled.
- The clock is not read. "Now" and "today" are parameters of every operation that uses them.
- HashPin (SHA-256 and then base64) is a function value with non-empty results. The model does not assume that it is collision free: SetPinThenVerify refuses every other hash, not every other PIN.
- The DateTime range (years 1 to 9999) and its exceptions are not modelled. The Gregorian calendar is extended to every day number.
- The "D" and "MMMM yyyy" formats use the invariant culture only.
- Text.ToLower: lowers ASCII letters only, not all Unicode letters.
- The Markdown preview (UpdatePreview, OnContentChanged, HtmlPreview) is not part of this model.
- Navigation, alerts and the theme are not modelled:
  - Shell routes and DisplayAlert;
  - the "Success!" navigation to the main shell;
  - OnIsDarkThemeChanged and the theme read in the settings constructor.
- Calendar.CalendarViewModel.DayTapped: returns the navigation it would make as a TapResult value.
- Settings.SettingsViewModel.ExportPdf: returns the export decision, that is, the entries handed to the exporter. Writing the PDF is not modelled; PdfExportService is not part of this model.
- The History and Dashboard OpenEntry commands only navigate, so they are left out.
- History's Appearing command runs LoadMoods and then LoadEntries. Both are modelled, but the command itself is not.
- The history setters are modelled as refiltering on every assignment. The generated property setters refilter only when the value changes, and refiltering twice gives the same list.
- The editor's Cancel command, the analytics charts, dependency injection and the pages are not part of this model.
- Null strings are not modelled. The editor's nullable pickers are Option values. Editor.EntryEditorViewModel.Save stores a null primary mood as "", where the source would store null. Stored titles and contents are never null.
- Storage.DatabaseService.SaveTagsForEntry: models the evidently intended replacement of the entry's links, which the rest of the model uses. As written, the save fails for an entry that already has links (see Findings); that version is Storage.DatabaseService.SaveTagsForEntryAsWritten.
- A save that breaks the UNIQUE date constraint raises in the source. Here it is a Failure result that changes nothing. Editor.EntryEditorViewModel.Save then leaves the tags alone, as the raised exception would.
- GetEntriesForMonthAsync computes a first and last day that it never uses. The model keeps only the year-and-month filter it applies.
- Editor.SplitMoods: when the stored string has one part, the second slot keeps its previous value. This is modelled as written (see LoadedMoods).
- Calendar.CalendarViewModel.NextMonth and PrevMonth state the new month through AddMonths. The calendar-month fact is the lemma AddMonthsShifts.
- The padding cells carry DateTime's default date (day 0) and an empty text.

## Findings

| source | as written | input that shows it | evidently intended | confidence | as-written member | corrected member |
|---|---|---|---|---|---|---|
| Services/DatabaseService.cs:137-138 | the entry's old links are deleted one by one with DeleteAsync(map), but EntryTag (Models/EntryTag.cs:5-12) declares no [PrimaryKey], and sqlite-net refuses to delete such a row by object | re-saving the tags of an entry that already has one link, e.g. links [EntryTag(1, 1)] and entry 1: the first delete raises NotSupportedException, so the link stays and no new link is inserted | the entry's old links are removed and replaced by one link per listed tag name | not executed | Storage.ClearLinksAsWritten, Storage.RetagKeepsStaleLink, Storage.DatabaseService.SaveTagsForEntryAsWritten | Storage.DatabaseService.SaveTagsForEntry |
