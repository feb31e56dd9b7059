/** The statistics shown on the analytics page: writing streaks over the days
    that have an entry, how often each primary mood was chosen, and the
    number of words written. */
module Analytics {
  import opened Dates
  import opened Models
  import opened Seqs
  import opened Text
  import opened Storage

  // ---------------------------------------------------------------------
  // Streaks

  /** The days (day numbers) that hold at least one entry. */
  function DaySet(es: seq<JournalEntry>): set<int> {
    set e | e in es :: e.entryDate.day
  }

  /** The day of every entry, entry by entry. */
  function EntryDays(es: seq<JournalEntry>): (days: seq<int>)
    ensures |days| == |es|
    ensures forall d :: d in days <==> d in DaySet(es)
  {
    var days := seq(|es|, i requires 0 <= i < |es| => es[i].entryDate.day);
    assert forall d :: d in DaySet(es) ==> d in days by {
      forall d | d in DaySet(es) ensures d in days {
        var e :| e in es && e.entryDate.day == d;
        var i :| 0 <= i < |es| && es[i] == e;
        assert days[i] == d;
      }
    }
    days
  }

  /** The length of the unbroken run of days in S that ends at d: d, d - 1,
      ... are all in S down to the first day that is not. */
  function Run(S: set<int>, d: int): (n: nat)
    decreases |set x | x in S && x <= d|
  {
    if d in S then
      var below := set x | x in S && x <= d - 1;
      assert (set x | x in S && x <= d) == below + {d};
      assert d !in below;
      1 + Run(S, d - 1)
    else 0
  }

  /** The run ending at d is exactly the days d - n + 1 .. d: all of them
      have an entry and the day before them has none. */
  lemma {:induction false} RunSpan(S: set<int>, d: int)
    ensures var n := Run(S, d);
      && (forall k :: d - n < k <= d ==> k in S)
      && d - n !in S
    decreases |set x | x in S && x <= d|
  {
    if d in S {
      var below := set x | x in S && x <= d - 1;
      assert (set x | x in S && x <= d) == below + {d};
      assert d !in below;
      RunSpan(S, d - 1);
    }
  }

  /** The current streak: the run ending today if today has an entry,
      otherwise the run ending yesterday, which is 0 when yesterday has none. */
  function CurrentStreak(S: set<int>, today: int): nat {
    if today in S then Run(S, today)
    else if today - 1 in S then Run(S, today - 1)
    else 0
  }

  /** The current streak is the run ending today or, failing that, the one
      ending yesterday; it is positive exactly when one of the two days has
      an entry. */
  lemma CurrentStreakRuns(S: set<int>, today: int)
    ensures CurrentStreak(S, today) == (if today in S then Run(S, today) else Run(S, today - 1))
    ensures CurrentStreak(S, today) > 0 <==> today in S || today - 1 in S
  {
  }

  /** Days strictly increasing, as the distinct days sorted ascending are. */
  ghost predicate Increasing(a: seq<int>) {
    forall i, j :: 0 <= i < j < |a| ==> a[i] < a[j]
  }

  ghost function Elems(a: seq<int>): set<int> {
    set x | x in a
  }

  /** In increasing days, the run ending at a day continues the run ending at
      the day before it when the two are adjacent, and starts afresh
      otherwise. */
  lemma RunInIncreasing(a: seq<int>, i: int)
    requires Increasing(a) && 0 <= i < |a|
    ensures Run(Elems(a), a[i]) == if i > 0 && a[i] == a[i - 1] + 1 then Run(Elems(a), a[i - 1]) + 1 else 1
  {
    var S := Elems(a);
    assert a[i] in S;
    assert Run(S, a[i]) == 1 + Run(S, a[i] - 1);
    if !(i > 0 && a[i] == a[i - 1] + 1) {
      forall k | 0 <= k < |a| ensures a[k] != a[i] - 1 {
        if 0 <= k < i - 1 {
          assert a[k] < a[i - 1];
        }
      }
      assert a[i] - 1 !in S;
    }
  }

  /** Counts back from start, a day with an entry, while the previous day
      also has one: the length of the run ending at start. */
  method CountBack(days: seq<int>, start: int) returns (n: int)
    requires start in days
    ensures n == Run(Elems(days), start)
    ensures n >= 1
  {
    ghost var S := Elems(days);
    n := 1;
    var checkDate := start - 1;
    while checkDate in days
      invariant n == start - checkDate
      invariant Run(S, start) == n + Run(S, checkDate)
      decreases Run(S, checkDate)
    {
      n := n + 1;
      checkDate := checkDate - 1;
    }
  }

  /** The longest run among increasing days, found in one pass that extends
      the current run on adjacent days and restarts it otherwise. */
  method LongestRun(asc: seq<int>) returns (longest: int)
    requires Increasing(asc) && asc != []
    ensures forall d :: d in asc ==> Run(Elems(asc), d) <= longest
    ensures exists d :: d in asc && Run(Elems(asc), d) == longest
    ensures longest >= 1
  {
    ghost var S := Elems(asc);
    ghost var best := 0;
    var tempStreak := 1;
    longest := 1;
    RunInIncreasing(asc, 0);
    for i := 1 to |asc|
      invariant tempStreak == Run(S, asc[i - 1])
      invariant forall j :: 0 <= j < i ==> Run(S, asc[j]) <= longest
      invariant 0 <= best < i && Run(S, asc[best]) == longest
    {
      RunInIncreasing(asc, i);
      if asc[i] == asc[i - 1] + 1 {
        tempStreak := tempStreak + 1;
      } else {
        tempStreak := 1;
      }
      if tempStreak > longest {
        longest := tempStreak;
        best := i;
      }
    }
    assert asc[best] in asc;
    forall d | d in asc ensures Run(S, d) <= longest {
      var j :| 0 <= j < |asc| && asc[j] == d;
    }
  }

  function Descending(d: int): int { -d }

  function Ascending(d: int): int { d }

  /** The current and the longest streak of the entries es, today being the
      day number today. Several entries on one day count once; with no
      entries both are 0; the longest is the longest run among the days and
      is never shorter than the current one. */
  method StreakStats(es: seq<JournalEntry>, today: int) returns (current: int, longest: int)
    ensures current == CurrentStreak(DaySet(es), today)
    ensures es == [] ==> current == 0 && longest == 0
    ensures es != [] ==>
              && longest >= 1
              && (forall d :: d in DaySet(es) ==> Run(DaySet(es), d) <= longest)
              && (exists d :: d in DaySet(es) && Run(DaySet(es), d) == longest)
    ensures current <= longest
  {
    if es == [] {
      return 0, 0;
    }
    var sortedDates := DistinctDays(es);
    assert es[0].entryDate.day in Elems(sortedDates);
    current := 0;
    if today in sortedDates {
      current := CountBack(sortedDates, today);
    } else if today - 1 in sortedDates {
      current := CountBack(sortedDates, today - 1);
    }
    longest := 0;
    if |sortedDates| > 0 {
      var ascDates := SortBy(sortedDates, Ascending);
      AscendingDays(sortedDates, ascDates);
      longest := LongestRun(ascDates);
    }
  }

  /** The distinct days of the entries, latest first. */
  method DistinctDays(es: seq<JournalEntry>) returns (sortedDates: seq<int>)
    ensures Elems(sortedDates) == DaySet(es)
    ensures NoDuplicates(sortedDates)
    ensures SortedBy(sortedDates, Descending)
  {
    var days := EntryDays(es);
    sortedDates := SortBy(Distinct(days), Descending);
    PermutationNoDuplicates(Distinct(days), sortedDates);
    forall x ensures x in sortedDates <==> x in Distinct(days) {
      assert x in sortedDates <==> x in multiset(sortedDates);
      assert x in Distinct(days) <==> x in multiset(Distinct(days));
    }
  }

  /** Distinct days sorted ascending increase strictly and keep their set. */
  lemma AscendingDays(dates: seq<int>, asc: seq<int>)
    requires NoDuplicates(dates) && asc == SortBy(dates, Ascending)
    ensures Increasing(asc) && Elems(asc) == Elems(dates)
  {
    PermutationNoDuplicates(dates, asc);
    SortedDistinctIncreases(asc, Ascending);
    forall x ensures x in asc <==> x in dates {
      assert x in asc <==> x in multiset(asc);
      assert x in dates <==> x in multiset(dates);
    }
  }

  /** Entries today, yesterday, the day before and four days ago. */
  function ExampleDays(t: int): set<int> {
    {t, t - 1, t - 2, t - 4}
  }

  /** On those days the current streak is 3 and no run is longer than the
      run of 3 ending today. */
  lemma StreakExampleToday(t: int)
    ensures CurrentStreak(ExampleDays(t), t) == 3
    ensures Run(ExampleDays(t), t) == 3
    ensures Run(ExampleDays(t), t - 1) == 2 && Run(ExampleDays(t), t - 2) == 1
    ensures Run(ExampleDays(t), t - 4) == 1
    ensures forall d :: d in ExampleDays(t) ==> Run(ExampleDays(t), d) <= 3
  {
    var S := ExampleDays(t);
    assert Run(S, t - 3) == 0;
    assert Run(S, t - 2) == 1;
    assert Run(S, t - 1) == 2;
    assert Run(S, t - 5) == 0;
    assert Run(S, t - 4) == 1;
  }

  /** On those days the longest streak as StreakStats states it (no run
      longer, some run that long) is 3. */
  lemma StreakExampleLongest(t: int, longest: int)
    requires forall d :: d in ExampleDays(t) ==> Run(ExampleDays(t), d) <= longest
    requires exists d :: d in ExampleDays(t) && Run(ExampleDays(t), d) == longest
    ensures longest == 3
  {
    StreakExampleToday(t);
  }

  /** With entries on the three days before today and none today, the
      current streak is 3. */
  lemma StreakExampleYesterday(t: int)
    ensures CurrentStreak({t - 1, t - 2, t - 3}, t) == 3
  {
    var S := {t - 1, t - 2, t - 3};
    assert Run(S, t - 4) == 0;
    assert Run(S, t - 3) == 1;
    assert Run(S, t - 2) == 2;
  }

  // ---------------------------------------------------------------------
  // Mood distribution

  /** The non-empty primary moods, entry by entry. */
  function NamedMoods(es: seq<JournalEntry>): seq<string> {
    if es == [] then []
    else
      var last := es[|es| - 1].primaryMood;
      NamedMoods(es[..|es| - 1]) + (if last == "" then [] else [last])
  }

  /** The named moods of two parts of a list are those of each part in turn. */
  lemma {:induction false} NamedMoodsAppend(a: seq<JournalEntry>, b: seq<JournalEntry>)
    ensures NamedMoods(a + b) == NamedMoods(a) + NamedMoods(b)
    decreases |b|
  {
    if b == [] {
      assert a + b == a;
    } else {
      var c := b[..|b| - 1];
      assert (a + b)[..|a + b| - 1] == a + c;
      NamedMoodsAppend(a, c);
    }
  }

  /** Reordering the entries reorders their named moods and keeps how often
      each occurs. */
  lemma {:induction false} NamedMoodsPerm(a: seq<JournalEntry>, b: seq<JournalEntry>)
    requires multiset(a) == multiset(b)
    ensures multiset(NamedMoods(a)) == multiset(NamedMoods(b))
    decreases |a|
  {
    if a != [] {
      var x := a[|a| - 1];
      var rest := a[..|a| - 1];
      assert a == rest + [x];
      assert x in multiset(b);
      var k :| 0 <= k < |b| && b[k] == x;
      var left, right := b[..k], b[k + 1..];
      assert b == left + [x] + right;
      RemoveMatching(a, b, k);
      NamedMoodsPerm(rest, left + right);
      var ms := NamedMoods([x]);
      NamedMoodsAppend(rest, [x]);
      NamedMoodsAppend(left + [x], right);
      NamedMoodsAppend(left, [x]);
      NamedMoodsAppend(left, right);
      assert multiset(NamedMoods(a)) == multiset(NamedMoods(rest)) + multiset(ms);
      assert multiset(NamedMoods(b)) == multiset(NamedMoods(left)) + multiset(ms) + multiset(NamedMoods(right));
    }
  }

  /** A mood is among the named moods exactly when it is non-empty and some
      entry has it as its primary mood. */
  lemma {:induction false} NamedMoodsMembers(es: seq<JournalEntry>)
    ensures forall m :: m in NamedMoods(es) <==> m != "" && exists i :: 0 <= i < |es| && es[i].primaryMood == m
  {
    if es != [] {
      var init := es[..|es| - 1];
      NamedMoodsMembers(init);
      forall m | m != "" && exists i :: 0 <= i < |es| && es[i].primaryMood == m
        ensures m in NamedMoods(es)
      {
        var i :| 0 <= i < |es| && es[i].primaryMood == m;
        if i < |es| - 1 {
          assert init[i].primaryMood == m;
        }
      }
    }
  }

  /** Counts the entries per non-empty primary mood, in one pass that adds a
      key the first time a mood is seen and increments it afterwards. */
  method MoodDistribution(es: seq<JournalEntry>) returns (stats: map<string, int>)
    ensures forall m :: m in stats <==> m != "" && exists i :: 0 <= i < |es| && es[i].primaryMood == m
    ensures forall m :: m in stats <==> m in NamedMoods(es)
    ensures forall m :: m in stats ==> stats[m] == multiset(NamedMoods(es))[m]
  {
    stats := map[];
    for i := 0 to |es|
      invariant forall m :: m in stats <==> m in NamedMoods(es[..i])
      invariant forall m :: m in stats ==> stats[m] == multiset(NamedMoods(es[..i]))[m]
    {
      assert es[..i + 1][..i] == es[..i];
      var mood := es[i].primaryMood;
      if mood == "" {
        continue;
      }
      if mood in stats {
        stats := stats[mood := stats[mood] + 1];
      } else {
        stats := stats[mood := 1];
      }
    }
    assert es[..|es|] == es;
    NamedMoodsMembers(es);
  }

  /** The sum of the counts that t has for the keys, taken once per key. */
  function CountSum(keys: seq<string>, t: seq<string>): int {
    if keys == [] then 0
    else CountSum(keys[..|keys| - 1], t) + multiset(t)[keys[|keys| - 1]]
  }

  /** The sum of the values of m at the keys, taken once per key. */
  function MapTotal(m: map<string, int>, keys: seq<string>): int {
    if keys == [] then 0
    else MapTotal(m, keys[..|keys| - 1]) + (if keys[|keys| - 1] in m then m[keys[|keys| - 1]] else 0)
  }

  /** One more element adds one to the count sum of keys that list it once. */
  lemma {:induction false} CountSumSnoc(keys: seq<string>, t: seq<string>, x: string)
    requires NoDuplicates(keys)
    ensures CountSum(keys, t + [x]) == CountSum(keys, t) + (if x in keys then 1 else 0)
  {
    if keys != [] {
      var init := keys[..|keys| - 1];
      CountSumSnoc(init, t, x);
      assert x in keys <==> x in init || x == keys[|keys| - 1];
      assert keys[|keys| - 1] !in init;
    }
  }

  /** Counting every distinct element once adds up to the length. */
  lemma {:induction false} DistinctCountSum(t: seq<string>)
    ensures CountSum(Distinct(t), t) == |t|
  {
    if t != [] {
      var init := t[..|t| - 1];
      var x := t[|t| - 1];
      assert t == init + [x];
      DistinctCountSum(init);
      CountSumSnoc(Distinct(init), init, x);
      if x !in Distinct(init) {
        var keys := Distinct(init) + [x];
        assert keys[..|keys| - 1] == Distinct(init);
        assert multiset(init)[x] == 0;
      }
    }
  }

  /** The values of the mood distribution add up to the number of entries
      with a non-empty primary mood. */
  lemma DistributionTotal(es: seq<JournalEntry>, stats: map<string, int>)
    requires forall m :: m in stats <==> m in NamedMoods(es)
    requires forall m :: m in stats ==> stats[m] == multiset(NamedMoods(es))[m]
    ensures MapTotal(stats, Distinct(NamedMoods(es))) == |NamedMoods(es)|
  {
    var t := NamedMoods(es);
    MapTotalCounts(stats, Distinct(t), t);
    DistinctCountSum(t);
  }

  lemma {:induction false} MapTotalCounts(m: map<string, int>, keys: seq<string>, t: seq<string>)
    requires forall k :: k in keys ==> k in m && m[k] == multiset(t)[k]
    ensures MapTotal(m, keys) == CountSum(keys, t)
  {
    if keys != [] {
      MapTotalCounts(m, keys[..|keys| - 1], t);
    }
  }

  // ---------------------------------------------------------------------
  // Words

  /** The characters words are split on: space, line feed and carriage
      return (a tab is not one). */
  const WordSeparators: set<char> := {' ', '\n', '\r'}

  /** The number of non-empty pieces of the content split on the separators:
      one per place where a word starts. */
  function WordCount(content: string): (r: nat)
    ensures r == TokenStarts(content, WordSeparators, true)
  {
    NonEmptyPiecesAreTokens(content, WordSeparators);
    |NonEmpty(SplitAny(content, WordSeparators))|
  }

  /** Content has no words exactly when it is made of separators only. */
  lemma {:induction false} NoWords(s: string)
    ensures WordCount(s) == 0 <==> forall i :: 0 <= i < |s| ==> s[i] in WordSeparators
  {
    if s != [] && s[0] in WordSeparators {
      NoWords(s[1..]);
      assert forall i :: 1 <= i < |s| ==> s[1..][i - 1] == s[i];
    }
  }

  /** One step of counting word starts, on a first character c. */
  lemma TokenCons(c: char, rest: string, a: bool)
    ensures TokenStarts([c] + rest, WordSeparators, a)
         == (if c !in WordSeparators && a then 1 else 0) + TokenStarts(rest, WordSeparators, c in WordSeparators)
  {
    assert ([c] + rest)[1..] == rest;
  }

  /** A word, free of separators, in front of the rest starts one word
      exactly when a word may start there; the rest then follows a word. */
  lemma {:induction false} WordThen(w: string, rest: string, a: bool)
    requires w != [] && forall i :: 0 <= i < |w| ==> w[i] !in WordSeparators
    ensures TokenStarts(w + rest, WordSeparators, a) == (if a then 1 else 0) + TokenStarts(rest, WordSeparators, false)
    decreases |w|
  {
    assert w + rest == [w[0]] + (w[1..] + rest);
    TokenCons(w[0], w[1..] + rest, a);
    if |w| > 1 {
      WordThen(w[1..], rest, false);
    } else {
      assert w[1..] + rest == rest;
    }
  }

  /** Two separators of different kinds between three words: three words. */
  lemma WordCountExample()
    ensures WordCount("one two\nthree") == 3
  {
    var three := "three" + [];
    var two := "two" + (['\n'] + three);
    var one := "one" + ([' '] + two);
    assert one == "one two\nthree";
    WordThen("three", [], true);
    TokenCons('\n', three, false);
    WordThen("two", ['\n'] + three, true);
    TokenCons(' ', two, false);
    WordThen("one", [' '] + two, true);
  }

  /** The total of the word counts of all entries. */
  function TotalWords(es: seq<JournalEntry>): (r: nat)
    ensures es == [] ==> r == 0
  {
    if es == [] then 0 else TotalWords(es[..|es| - 1]) + WordCount(es[|es| - 1].content)
  }

  /** Words add up over the two parts of a list of entries. */
  lemma {:induction false} TotalWordsAppend(a: seq<JournalEntry>, b: seq<JournalEntry>)
    ensures TotalWords(a + b) == TotalWords(a) + TotalWords(b)
    decreases |b|
  {
    if b == [] {
      assert a + b == a;
    } else {
      var c := b[..|b| - 1];
      assert (a + b)[..|a + b| - 1] == a + c;
      TotalWordsAppend(a, c);
    }
  }

  /** The total does not depend on the order of the entries. */
  lemma {:induction false} TotalWordsPerm(a: seq<JournalEntry>, b: seq<JournalEntry>)
    requires multiset(a) == multiset(b)
    ensures TotalWords(a) == TotalWords(b)
    decreases |a|
  {
    if a != [] {
      var x := a[|a| - 1];
      var rest := a[..|a| - 1];
      assert a == rest + [x];
      assert x in multiset(b);
      var k :| 0 <= k < |b| && b[k] == x;
      var left, right := b[..k], b[k + 1..];
      assert b == left + [x] + right;
      RemoveMatching(a, b, k);
      TotalWordsPerm(rest, left + right);
      TotalWordsAppend(rest, [x]);
      TotalWordsAppend(left + [x], right);
      TotalWordsAppend(left, [x]);
      TotalWordsAppend(left, right);
    }
  }

  // ---------------------------------------------------------------------
  // The service

  class AnalyticsService {
    const db: DatabaseService

    constructor(db: DatabaseService)
      ensures this.db == db
    {
      this.db := db;
    }

    /** The streaks of the stored entries, today being the day number today. */
    method GetStreakStats(today: int) returns (current: int, longest: int)
      modifies db
      requires db.Valid()
      ensures db.Valid() && db.ReadOnly()
      ensures current == CurrentStreak(DaySet(db.entries), today)
      ensures db.entries == [] ==> current == 0 && longest == 0
      ensures db.entries != [] ==>
                && longest >= 1
                && (forall d :: d in DaySet(db.entries) ==> Run(DaySet(db.entries), d) <= longest)
                && (exists d :: d in DaySet(db.entries) && Run(DaySet(db.entries), d) == longest)
      ensures current <= longest
    {
      var entries := db.GetEntries();
      SameDays(entries, db.entries);
      current, longest := StreakStats(entries, today);
    }

    /** The number of stored entries per non-empty primary mood. */
    method GetMoodDistribution() returns (stats: map<string, int>)
      modifies db
      requires db.Valid()
      ensures db.Valid() && db.ReadOnly()
      ensures forall m :: m in stats <==> m in NamedMoods(db.entries)
      ensures forall m :: m in stats ==> stats[m] == multiset(NamedMoods(db.entries))[m]
    {
      var entries := db.GetEntries();
      stats := MoodDistribution(entries);
      NamedMoodsPerm(entries, db.entries);
      assert forall m :: m in NamedMoods(entries) <==> m in multiset(NamedMoods(entries));
      assert forall m :: m in NamedMoods(db.entries) <==> m in multiset(NamedMoods(db.entries));
    }

    /** The total number of words in the stored entries. */
    method GetTotalWords() returns (r: int)
      modifies db
      requires db.Valid()
      ensures db.Valid() && db.ReadOnly()
      ensures r == TotalWords(db.entries)
    {
      var entries := db.GetEntries();
      r := TotalWords(entries);
      TotalWordsPerm(entries, db.entries);
    }
  }

  /** Reordering the entries does not change their days. */
  lemma SameDays(a: seq<JournalEntry>, b: seq<JournalEntry>)
    requires multiset(a) == multiset(b)
    ensures DaySet(a) == DaySet(b)
    ensures a == [] <==> b == []
  {
    forall e ensures e in a <==> e in b {
      assert e in a <==> e in multiset(a);
      assert e in b <==> e in multiset(b);
    }
  }
}
