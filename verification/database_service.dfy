/** The SQLite store behind the journal: one table per record type, reached
    through a connection that Init opens once, seeding the Mood table. */
module Storage {
  import opened Wrappers
  import opened Dates
  import opened Models
  import opened Seqs

  /** The errors a write can raise: a UNIQUE column already holds the value,
      or a row is deleted by object from a table without a primary key
      (sqlite-net's NotSupportedException). */
  datatype DbError = UniqueConstraintFailed | MissingPrimaryKey

  /** The five moods Init puts into an empty Mood table, numbered from next. */
  function SeedMoods(next: int): seq<Mood> {
    [Mood(next, "Happy", "Positive", "\U{1F60A}"),
     Mood(next + 1, "Excited", "Positive", "\U{1F929}"),
     Mood(next + 2, "Neutral", "Neutral", "\U{1F610}"),
     Mood(next + 3, "Sad", "Negative", "\U{1F622}"),
     Mood(next + 4, "Angry", "Negative", "\U{1F620}")]
  }

  // ---------------------------------------------------------------------
  // Table constraints: AUTOINCREMENT ids below the next id to hand out,
  // PRIMARY KEY ids distinct, UNIQUE columns distinct.

  ghost predicate EntriesValid(es: seq<JournalEntry>, next: int) {
    next >= 1
    && (forall i :: 0 <= i < |es| ==> 1 <= es[i].id < next)
    && (forall i, j :: 0 <= i < j < |es| ==> es[i].id != es[j].id)
    && (forall i, j :: 0 <= i < j < |es| ==> es[i].entryDate != es[j].entryDate)
  }

  ghost predicate MoodsValid(ms: seq<Mood>, next: int) {
    next >= 1
    && (forall i :: 0 <= i < |ms| ==> 1 <= ms[i].id < next)
    && (forall i, j :: 0 <= i < j < |ms| ==> ms[i].id != ms[j].id)
    && (forall i, j :: 0 <= i < j < |ms| ==> ms[i].name != ms[j].name)
  }

  ghost predicate TagsValid(ts: seq<Tag>, next: int) {
    next >= 1
    && (forall i :: 0 <= i < |ts| ==> 1 <= ts[i].id < next)
    && (forall i, j :: 0 <= i < j < |ts| ==> ts[i].id != ts[j].id)
    && (forall i, j :: 0 <= i < j < |ts| ==> ts[i].name != ts[j].name)
  }

  ghost predicate UsersValid(us: seq<User>, next: int) {
    next >= 1
    && (forall i :: 0 <= i < |us| ==> 1 <= us[i].id < next)
    && (forall i, j :: 0 <= i < j < |us| ==> us[i].id != us[j].id)
  }

  // ---------------------------------------------------------------------
  // Queries, as functions of the tables

  /** Table<JournalEntry>().Where(e => e.Id == id).FirstOrDefault(). */
  function EntryWithId(es: seq<JournalEntry>, id: int): Option<JournalEntry> {
    First(es, (e: JournalEntry) => e.id == id)
  }

  /** Table<JournalEntry>().Where(e => e.EntryDate == date).FirstOrDefault(). */
  function EntryOnDate(es: seq<JournalEntry>, date: DateTime): Option<JournalEntry> {
    First(es, (e: JournalEntry) => e.entryDate == date)
  }

  /** Table<Tag>().Where(t => t.Name == name).FirstOrDefault(). */
  function TagNamed(ts: seq<Tag>, name: string): Option<Tag> {
    First(ts, (t: Tag) => t.name == name)
  }

  /** Table<User>().FirstOrDefault(). */
  function FirstUser(us: seq<User>): Option<User> {
    if us == [] then None else Some(us[0])
  }

  /** Whether a row other than the one with this id holds the date. */
  predicate DateTakenByOther(es: seq<JournalEntry>, date: DateTime, id: int) {
    exists i :: 0 <= i < |es| && es[i].entryDate == date && es[i].id != id
  }

  /** The rows after UPDATE ... WHERE Id = e.Id. */
  function ReplaceEntry(es: seq<JournalEntry>, e: JournalEntry): seq<JournalEntry> {
    seq(|es|, i requires 0 <= i < |es| => if es[i].id == e.id then e else es[i])
  }

  /** The rows after DELETE ... WHERE Id = id. */
  function WithoutEntry(es: seq<JournalEntry>, id: int): seq<JournalEntry> {
    Filter(es, (e: JournalEntry) => e.id != id)
  }

  /** The rows after UPDATE ... WHERE Id = u.Id. */
  function ReplaceUser(us: seq<User>, u: User): seq<User> {
    seq(|us|, i requires 0 <= i < |us| => if us[i].id == u.id then u else us[i])
  }

  /** The links that do not belong to the entry. */
  function OtherLinks(links: seq<EntryTag>, entryId: int): seq<EntryTag> {
    Filter(links, (l: EntryTag) => l.entryId != entryId)
  }

  /** The entry's own links, as SaveTagsForEntryAsync queries them. */
  function LinksOf(links: seq<EntryTag>, entryId: int): seq<EntryTag> {
    Filter(links, (l: EntryTag) => l.entryId == entryId)
  }

  /** The clearing loop of SaveTagsForEntryAsync as the code stands: EntryTag
      declares no primary key, so deleting one of the entry's links by object
      fails before any row is removed. An entry with links fails; one without
      gets through with the table as it was. */
  function ClearLinksAsWritten(links: seq<EntryTag>, entryId: int): (r: Result<seq<EntryTag>, DbError>)
    ensures r.Failure? <==> exists l :: l in links && l.entryId == entryId
    ensures r.Failure? ==> r.error == MissingPrimaryKey
    ensures r.Success? ==> r.value == links
  {
    var mine := LinksOf(links, entryId);
    if mine != [] then
      assert mine[0] in mine;
      Failure(MissingPrimaryKey)
    else
      assert forall l :: l in links && l.entryId == entryId ==> l in mine;
      Success(links)
  }

  /** Where the clearing as written gets through, it agrees with the
      intended one: an entry without links takes no other link with it. */
  lemma ClearAsWrittenAgrees(links: seq<EntryTag>, entryId: int)
    ensures ClearLinksAsWritten(links, entryId).Success? ==>
              ClearLinksAsWritten(links, entryId).value == OtherLinks(links, entryId)
  {
    if ClearLinksAsWritten(links, entryId).Success? {
      FilterAll(links, (l: EntryTag) => l.entryId != entryId);
    }
  }

  /** Re-saving the tags of an entry that has a link: the clearing as written
      fails and keeps the link, where the intended clearing drops it. */
  lemma RetagKeepsStaleLink(links: seq<EntryTag>, entryId: int, l: EntryTag)
    requires l in links && l.entryId == entryId
    ensures ClearLinksAsWritten(links, entryId) == Failure(MissingPrimaryKey)
    ensures l !in OtherLinks(links, entryId)
  {
  }

  /** The links that a list of tag names gives the entry: one per name that
      names a tag, in the order of the names. */
  function LinksFor(entryId: int, names: seq<string>, ts: seq<Tag>): seq<EntryTag> {
    if names == [] then []
    else
      (match TagNamed(ts, names[0])
       case Some(t) => [EntryTag(entryId, t.id)]
       case None => [])
      + LinksFor(entryId, names[1..], ts)
  }

  /** The tags linked to the entry, in the order of the Tag table. */
  function TagsForEntry(links: seq<EntryTag>, ts: seq<Tag>, entryId: int): seq<Tag> {
    if ts == [] then []
    else (if EntryTag(entryId, ts[0].id) in links then [ts[0]] else []) + TagsForEntry(links, ts[1..], entryId)
  }

  /** The tags whose names are listed, in the order of the Tag table. */
  function NamedTags(ts: seq<Tag>, names: seq<string>): seq<Tag> {
    if ts == [] then []
    else (if ts[0].name in names then [ts[0]] else []) + NamedTags(ts[1..], names)
  }

  /** The ordering key of OrderByDescending(e => e.EntryDate). */
  function DateDesc(e: JournalEntry): int {
    -Ticks(e.entryDate)
  }

  // ---------------------------------------------------------------------
  // What the queries find in tables that keep their constraints

  /** In a valid Entry table each row is the one found by its id and by its date. */
  lemma EntryLookups(es: seq<JournalEntry>, next: int, k: int)
    requires EntriesValid(es, next) && 0 <= k < |es|
    ensures EntryWithId(es, es[k].id) == Some(es[k])
    ensures EntryOnDate(es, es[k].entryDate) == Some(es[k])
  {
    FirstUnique(es, (e: JournalEntry) => e.id == es[k].id, k);
    FirstUnique(es, (e: JournalEntry) => e.entryDate == es[k].entryDate, k);
  }

  /** An UPDATE that keeps the dates distinct keeps the table valid, and the
      id then finds the new row. */
  lemma ReplaceEntryValid(es: seq<JournalEntry>, next: int, e: JournalEntry)
    requires EntriesValid(es, next) && EntryWithId(es, e.id).Some?
    requires !DateTakenByOther(es, e.entryDate, e.id)
    ensures EntriesValid(ReplaceEntry(es, e), next)
    ensures |ReplaceEntry(es, e)| == |es|
    ensures EntryWithId(ReplaceEntry(es, e), e.id) == Some(e)
    ensures EntryOnDate(ReplaceEntry(es, e), e.entryDate) == Some(e)
    ensures forall i :: 0 <= i < |es| && es[i].id != e.id ==> ReplaceEntry(es, e)[i] == es[i]
  {
    var old_e := EntryWithId(es, e.id).value;
    var k :| 0 <= k < |es| && es[k] == old_e;
    ReplaceEntryRows(es, next, e, k);
    EntryLookups(ReplaceEntry(es, e), next, k);
  }

  /** The UPDATE puts e in the row k that has its id and leaves the others. */
  lemma ReplaceEntryRows(es: seq<JournalEntry>, next: int, e: JournalEntry, k: int)
    requires EntriesValid(es, next) && 0 <= k < |es| && es[k].id == e.id
    requires !DateTakenByOther(es, e.entryDate, e.id)
    ensures EntriesValid(ReplaceEntry(es, e), next)
    ensures |ReplaceEntry(es, e)| == |es| && ReplaceEntry(es, e)[k] == e
    ensures forall i :: 0 <= i < |es| && es[i].id != e.id ==> ReplaceEntry(es, e)[i] == es[i]
  {
  }

  /** An INSERT of a date not yet taken keeps the table valid, and the date
      then finds the new row. */
  lemma AppendEntryValid(es: seq<JournalEntry>, next: int, e: JournalEntry)
    requires EntriesValid(es, next) && EntryOnDate(es, e.entryDate).None?
    requires e.id == next
    ensures EntriesValid(es + [e], next + 1)
    ensures EntryOnDate(es + [e], e.entryDate) == Some(e)
    ensures EntryWithId(es + [e], e.id) == Some(e)
  {
    EntryLookups(es + [e], next + 1, |es|);
  }

  /** After a DELETE no row has the id, and every other row stays. */
  lemma WithoutEntryGone(es: seq<JournalEntry>, next: int, id: int)
    requires EntriesValid(es, next)
    ensures EntriesValid(WithoutEntry(es, id), next)
    ensures EntryWithId(WithoutEntry(es, id), id).None?
    ensures forall e :: e in es && e.id != id ==> e in WithoutEntry(es, id)
  {
    FilterPairwise(es, (e: JournalEntry) => e.id != id, (a: JournalEntry, b: JournalEntry) => a.id != b.id);
    FilterPairwise(es, (e: JournalEntry) => e.id != id, (a: JournalEntry, b: JournalEntry) => a.entryDate != b.entryDate);
    var r := WithoutEntry(es, id);
    forall i | 0 <= i < |r| ensures 1 <= r[i].id < next {
      assert r[i] in es;
    }
  }

  /** Seeding keeps the Mood table valid. */
  lemma SeedMoodsValid(next: int)
    requires next >= 1
    ensures MoodsValid(SeedMoods(next), next + 5)
  {
  }

  /** Adding a tag under an unused name keeps the Tag table valid, earlier
      lookups find what they found, and the name now finds the new tag. */
  lemma AppendTagValid(ts: seq<Tag>, next: int, t: Tag)
    requires TagsValid(ts, next) && TagNamed(ts, t.name).None? && t.id == next
    ensures TagsValid(ts + [t], next + 1)
    ensures TagNamed(ts + [t], t.name) == Some(t)
    ensures forall n :: TagNamed(ts, n).Some? ==> TagNamed(ts + [t], n) == TagNamed(ts, n)
  {
    FirstAppendNone(ts, t, (x: Tag) => x.name == t.name);
    forall n | TagNamed(ts, n).Some? ensures TagNamed(ts + [t], n) == TagNamed(ts, n) {
      FirstAppend(ts, t, (x: Tag) => x.name == n);
    }
  }

  /** Links of a list of names grow one name at a time. */
  lemma {:induction false} LinksForSnoc(entryId: int, names: seq<string>, name: string, ts: seq<Tag>)
    ensures LinksFor(entryId, names + [name], ts) == LinksFor(entryId, names, ts) + LinksFor(entryId, [name], ts)
  {
    if names != [] {
      assert (names + [name])[1..] == names[1..] + [name];
      LinksForSnoc(entryId, names[1..], name, ts);
    }
  }

  /** Adding tags does not change the links of names that already had a tag. */
  lemma {:induction false} LinksForStable(entryId: int, names: seq<string>, ts: seq<Tag>, t: Tag)
    requires forall k :: 0 <= k < |names| ==> TagNamed(ts, names[k]).Some?
    ensures LinksFor(entryId, names, ts + [t]) == LinksFor(entryId, names, ts)
  {
    if names != [] {
      FirstAppend(ts, t, (x: Tag) => x.name == names[0]);
      LinksForStable(entryId, names[1..], ts, t);
    }
  }

  /** One name more, resolved to a tag that is either found or appended,
      adds one link. */
  lemma LinksStep(base: seq<EntryTag>, entryId: int, names: seq<string>, i: int,
                  before: seq<Tag>, after: seq<Tag>, tag: Tag)
    requires 0 <= i < |names|
    requires forall k :: 0 <= k < i ==> TagNamed(before, names[k]).Some?
    requires after == before || after == before + [tag]
    requires TagNamed(after, names[i]) == Some(tag)
    ensures base + LinksFor(entryId, names[..i + 1], after)
         == (base + LinksFor(entryId, names[..i], before)) + [EntryTag(entryId, tag.id)]
  {
    PrefixSnoc(names, i);
    if after != before {
      LinksForStable(entryId, names[..i], before, tag);
    }
    LinksForSnoc(entryId, names[..i], names[i], after);
  }

  /** The Tag table while the loop over the names runs: the old rows first,
      then rows for listed names only, and every name handled so far has a tag. */
  ghost predicate TagsGrown(tags0: seq<Tag>, ts: seq<Tag>, names: seq<string>, i: int) {
    0 <= i <= |names| && |ts| >= |tags0| && ts[..|tags0|] == tags0
    && (forall j :: |tags0| <= j < |ts| ==> ts[j].name in names)
    && (forall k {:trigger TagNamed(ts, names[k])} :: 0 <= k < i ==> TagNamed(ts, names[k]).Some?)
  }

  /** One round of the loop over the names keeps TagsGrown. */
  lemma TagsGrownStep(tags0: seq<Tag>, before: seq<Tag>, after: seq<Tag>, names: seq<string>, i: int, tag: Tag)
    requires TagsGrown(tags0, before, names, i) && 0 <= i < |names|
    requires after == before || (after == before + [tag] && tag.name == names[i])
    requires TagNamed(after, names[i]).Some?
    ensures TagsGrown(tags0, after, names, i + 1)
  {
    forall j | |tags0| <= j < |after| ensures after[j].name in names {
      if j < |before| {
        assert after[j] == before[j];
      }
    }
    forall k | 0 <= k < i + 1 ensures TagNamed(after, names[k]).Some? {
      if k < i && after != before {
        assert TagNamed(before, names[k]).Some?;
        FirstAppend(before, tag, (x: Tag) => x.name == names[k]);
      }
    }
  }

  /** Every link of a list of names points from the entry to the tag of a listed name. */
  lemma {:induction false} LinksForFrom(entryId: int, names: seq<string>, ts: seq<Tag>, l: EntryTag)
    requires l in LinksFor(entryId, names, ts)
    ensures exists n :: n in names && TagNamed(ts, n).Some? && l == EntryTag(entryId, TagNamed(ts, n).value.id)
  {
    assert LinksFor(entryId, names, ts) == LinksFor(entryId, [names[0]], ts) + LinksFor(entryId, names[1..], ts);
    if l in LinksFor(entryId, [names[0]], ts) {
      assert names[0] in names;
    } else {
      LinksForFrom(entryId, names[1..], ts, l);
      var n :| n in names[1..] && TagNamed(ts, n).Some? && l == EntryTag(entryId, TagNamed(ts, n).value.id);
      assert n in names;
    }
  }

  /** Every listed name that names a tag links the entry to that tag. */
  lemma {:induction false} LinksForHas(entryId: int, names: seq<string>, ts: seq<Tag>, n: string)
    requires n in names && TagNamed(ts, n).Some?
    ensures EntryTag(entryId, TagNamed(ts, n).value.id) in LinksFor(entryId, names, ts)
  {
    if names[0] != n {
      LinksForHas(entryId, names[1..], ts, n);
    }
  }

  /** Tag lists agree when their selection conditions agree tag by tag. */
  lemma {:induction false} TagsForEntryNamed(links: seq<EntryTag>, ts: seq<Tag>, entryId: int, names: seq<string>)
    requires forall i :: 0 <= i < |ts| ==> (EntryTag(entryId, ts[i].id) in links <==> ts[i].name in names)
    ensures TagsForEntry(links, ts, entryId) == NamedTags(ts, names)
  {
    if ts != [] {
      TagsForEntryNamed(links, ts[1..], entryId, names);
    }
  }

  /** Replacing an entry's links by those of a list of names, all of which
      name tags, makes the entry's tags exactly the tags so named. */
  lemma SavedTagsListed(links: seq<EntryTag>, ts: seq<Tag>, next: int, entryId: int, names: seq<string>)
    requires TagsValid(ts, next)
    requires forall k :: 0 <= k < |names| ==> TagNamed(ts, names[k]).Some?
    ensures TagsForEntry(OtherLinks(links, entryId) + LinksFor(entryId, names, ts), ts, entryId) == NamedTags(ts, names)
  {
    var other := OtherLinks(links, entryId);
    var saved := LinksFor(entryId, names, ts);
    forall i | 0 <= i < |ts| ensures EntryTag(entryId, ts[i].id) in other + saved <==> ts[i].name in names {
      var t := ts[i];
      if t.name in names {
        FirstUnique(ts, (x: Tag) => x.name == t.name, i);
        LinksForHas(entryId, names, ts, t.name);
      }
      if EntryTag(entryId, t.id) in other + saved {
        assert EntryTag(entryId, t.id) !in other;
        LinksForFrom(entryId, names, ts, EntryTag(entryId, t.id));
        var n :| n in names && TagNamed(ts, n).Some? && EntryTag(entryId, t.id) == EntryTag(entryId, TagNamed(ts, n).value.id);
        var u := TagNamed(ts, n).value;
        var j :| 0 <= j < |ts| && ts[j] == u;
        assert ts[j].id == ts[i].id;
      }
    }
    TagsForEntryNamed(other + saved, ts, entryId, names);
  }

  /** The tags so named are the tags of the table whose name is listed. */
  lemma {:induction false} NamedTagsMembers(ts: seq<Tag>, names: seq<string>)
    ensures forall t :: t in NamedTags(ts, names) <==> t in ts && t.name in names
  {
    if ts != [] {
      NamedTagsMembers(ts[1..], names);
    }
  }

  // ---------------------------------------------------------------------
  // Saving an entry

  /** What SaveEntryAsync returns and leaves behind: the rows written or the
      error, the entry object as the call leaves it, and the Entry table with
      its next id. */
  datatype SaveResult = SaveResult(res: Result<int, DbError>, saved: JournalEntry,
                                   entries: seq<JournalEntry>, nextId: int)

  /** SaveEntryAsync on the Entry table es: an entry with an id is an UPDATE
      by id (0 rows when the id is missing), an entry without one an INSERT;
      either fails when another row already holds its date. */
  function SaveEntryOutcome(es: seq<JournalEntry>, next: int, entry: JournalEntry, now: DateTime): SaveResult {
    if entry.id != 0 then
      var saved := entry.(updatedAt := now);
      if EntryWithId(es, entry.id).None? then SaveResult(Success(0), saved, es, next)
      else if DateTakenByOther(es, saved.entryDate, saved.id) then
        SaveResult(Failure(UniqueConstraintFailed), saved, es, next)
      else SaveResult(Success(1), saved, ReplaceEntry(es, saved), next)
    else
      var inserted := entry.(entryDate := Date(entry.entryDate), createdAt := now, updatedAt := now);
      if EntryOnDate(es, inserted.entryDate).Some? then SaveResult(Failure(UniqueConstraintFailed), inserted, es, next)
      else SaveResult(Success(1), inserted.(id := next), es + [inserted.(id := next)], next + 1)
  }

  /** Saving keeps the Entry table valid. */
  lemma SaveEntryValid(es: seq<JournalEntry>, next: int, entry: JournalEntry, now: DateTime)
    requires EntriesValid(es, next)
    ensures var o := SaveEntryOutcome(es, next, entry, now);
      EntriesValid(o.entries, o.nextId) && o.nextId >= next
  {
    var o := SaveEntryOutcome(es, next, entry, now);
    if entry.id != 0 && o.res == Success(1) {
      ReplaceEntryValid(es, next, o.saved);
    } else if entry.id == 0 && o.res.Success? {
      AppendEntryValid(es, next, o.saved);
    }
  }

  /** A save writes exactly when the row to update exists, or the date to
      insert is free, and no other row holds the date; a written entry is
      then found by its id, and a failed or empty save changes nothing. */
  lemma SaveEntryWrites(es: seq<JournalEntry>, next: int, entry: JournalEntry, now: DateTime)
    requires EntriesValid(es, next)
    ensures var o := SaveEntryOutcome(es, next, entry, now);
      && (o.res == Success(1) <==>
            if entry.id != 0 then EntryWithId(es, entry.id).Some? && !DateTakenByOther(es, entry.entryDate, entry.id)
            else EntryOnDate(es, Date(entry.entryDate)).None?)
      && (o.res == Success(1) ==> EntryWithId(o.entries, o.saved.id) == Some(o.saved))
      && (o.res == Success(1) ==> EntryOnDate(o.entries, o.saved.entryDate) == Some(o.saved))
      && (o.res != Success(1) ==> o.entries == es && o.nextId == next)
      && o.saved.updatedAt == now
      && (entry.id == 0 ==> o.saved.entryDate == Date(entry.entryDate) && o.saved.createdAt == now)
      && (entry.id != 0 ==> o.saved == entry.(updatedAt := now))
  {
    var o := SaveEntryOutcome(es, next, entry, now);
    if entry.id != 0 && o.res == Success(1) {
      ReplaceEntryValid(es, next, o.saved);
    } else if entry.id == 0 && o.res.Success? {
      AppendEntryValid(es, next, o.saved);
    }
  }

  /** A successful save leaves every other row in the table. */
  lemma SaveEntryKeepsOthers(es: seq<JournalEntry>, next: int, entry: JournalEntry, now: DateTime)
    requires EntriesValid(es, next)
    ensures var o := SaveEntryOutcome(es, next, entry, now);
      forall e :: e in es && e.id != o.saved.id ==> e in o.entries
  {
    var o := SaveEntryOutcome(es, next, entry, now);
    if entry.id != 0 && o.res == Success(1) {
      forall e | e in es && e.id != o.saved.id ensures e in o.entries {
        var i :| 0 <= i < |es| && es[i] == e;
        assert o.entries[i] == e;
      }
    }
  }

  // ---------------------------------------------------------------------
  // The service

  /** The database service. The tables are the contents of the database file;
      the counters are its AUTOINCREMENT sequences. */
  class DatabaseService {
    /** Whether Init has opened the connection. */
    var initialized: bool
    var entries: seq<JournalEntry>
    var moods: seq<Mood>
    var tags: seq<Tag>
    var entryTags: seq<EntryTag>
    var users: seq<User>
    var nextEntryId: int
    var nextMoodId: int
    var nextTagId: int
    var nextUserId: int

    ghost predicate Valid()
      reads this
    {
      EntriesValid(entries, nextEntryId) && MoodsValid(moods, nextMoodId)
      && TagsValid(tags, nextTagId) && UsersValid(users, nextUserId)
      && (initialized ==> moods != [])
    }

    /** The Mood table as Init leaves it. */
    function SeededMoods(): seq<Mood>
      reads this
    {
      if !initialized && moods == [] then SeedMoods(nextMoodId) else moods
    }

    function SeededNextMoodId(): int
      reads this
    {
      if !initialized && moods == [] then nextMoodId + 5 else nextMoodId
    }

    /** The connection is open and the Mood table seeded. */
    twostate predicate Opened()
      reads this
    {
      initialized && moods == old(SeededMoods()) && nextMoodId == old(SeededNextMoodId())
    }

    /** Nothing but opening the connection happened. */
    twostate predicate ReadOnly()
      reads this
    {
      Opened() && EntriesKept() && TagsKept() && UsersKept()
    }

    twostate predicate EntriesKept()
      reads this
    {
      entries == old(entries) && nextEntryId == old(nextEntryId)
    }

    twostate predicate TagsKept()
      reads this
    {
      tags == old(tags) && entryTags == old(entryTags) && nextTagId == old(nextTagId)
    }

    twostate predicate UsersKept()
      reads this
    {
      users == old(users) && nextUserId == old(nextUserId)
    }

    /** A service over an existing database file, before Init. */
    constructor(entries0: seq<JournalEntry>, moods0: seq<Mood>, tags0: seq<Tag>,
                links0: seq<EntryTag>, users0: seq<User>,
                nextEntry: int, nextMood: int, nextTag: int, nextUser: int)
      requires EntriesValid(entries0, nextEntry) && MoodsValid(moods0, nextMood)
      requires TagsValid(tags0, nextTag) && UsersValid(users0, nextUser)
      ensures Valid() && !initialized
      ensures entries == entries0 && moods == moods0 && tags == tags0
      ensures entryTags == links0 && users == users0
    {
      initialized := false;
      entries, moods, tags, entryTags, users := entries0, moods0, tags0, links0, users0;
      nextEntryId, nextMoodId, nextTagId, nextUserId := nextEntry, nextMood, nextTag, nextUser;
    }

    /** Opens the connection once; on first opening, seeds an empty Mood table. */
    method Init()
      modifies this
      requires Valid()
      ensures Valid() && ReadOnly()
    {
      if initialized {
        return;
      }
      initialized := true;
      if |moods| == 0 {
        SeedMoodsValid(nextMoodId);
        moods := SeedMoods(nextMoodId);
        nextMoodId := nextMoodId + 5;
      }
    }

    /** All entries, newest date first. */
    method GetEntries() returns (r: seq<JournalEntry>)
      modifies this
      requires Valid()
      ensures Valid() && ReadOnly()
      ensures multiset(r) == multiset(entries) && SortedBy(r, DateDesc)
      ensures r == SortBy(entries, DateDesc)
    {
      Init();
      r := SortBy(entries, DateDesc);
    }

    /** The entry with the id, if any. */
    method GetEntry(id: int) returns (r: Option<JournalEntry>)
      modifies this
      requires Valid()
      ensures Valid() && ReadOnly()
      ensures r == EntryWithId(entries, id)
      ensures r.Some? ==> r.value in entries && r.value.id == id
      ensures r.None? <==> forall i :: 0 <= i < |entries| ==> entries[i].id != id
    {
      Init();
      r := EntryWithId(entries, id);
    }

    /** The entry stored under the date part of the given time, if any. */
    method GetEntryByDate(date: DateTime) returns (r: Option<JournalEntry>)
      modifies this
      requires Valid()
      ensures Valid() && ReadOnly()
      ensures r == EntryOnDate(entries, Date(date))
      ensures r.Some? ==> r.value in entries && r.value.entryDate == Date(date)
      ensures r.None? <==> forall i :: 0 <= i < |entries| ==> entries[i].entryDate != Date(date)
    {
      Init();
      r := EntryOnDate(entries, Date(date));
    }

    /** Updates the row of a stored entry (id not 0), stamping UpdatedAt, or
        inserts a new one with its date cut to midnight and both timestamps
        set: see SaveEntryOutcome. */
    method SaveEntry(entry: JournalEntry, now: DateTime) returns (res: Result<int, DbError>, saved: JournalEntry)
      modifies this
      requires Valid()
      ensures Valid() && Opened() && TagsKept() && UsersKept()
      ensures var o := SaveEntryOutcome(old(entries), old(nextEntryId), entry, now);
        res == o.res && saved == o.saved && entries == o.entries && nextEntryId == o.nextId
    {
      Init();
      SaveEntryValid(entries, nextEntryId, entry, now);
      var o := SaveEntryOutcome(entries, nextEntryId, entry, now);
      res, saved := o.res, o.saved;
      entries, nextEntryId := o.entries, o.nextId;
    }

    /** Deletes the entry's row by id, leaving its tag links in place; the
        result is the number of rows deleted. */
    method DeleteEntry(entry: JournalEntry) returns (rows: int)
      modifies this
      requires Valid()
      ensures Valid() && Opened() && TagsKept() && UsersKept() && nextEntryId == old(nextEntryId)
      ensures entries == WithoutEntry(old(entries), entry.id)
      ensures EntryWithId(entries, entry.id).None?
      ensures rows == if EntryWithId(old(entries), entry.id).Some? then 1 else 0
    {
      Init();
      rows := if EntryWithId(entries, entry.id).Some? then 1 else 0;
      WithoutEntryGone(entries, nextEntryId, entry.id);
      entries := WithoutEntry(entries, entry.id);
    }

    /** The first row of the User table, if any. */
    method GetUser() returns (r: Option<User>)
      modifies this
      requires Valid()
      ensures Valid() && ReadOnly()
      ensures r == FirstUser(users)
      ensures r.None? <==> users == []
    {
      Init();
      r := FirstUser(users);
    }

    /** Updates the user's row (id not 0) or inserts a new one; the result is
        the number of rows written. */
    method SaveUser(user: User) returns (rows: int)
      modifies this
      requires Valid()
      ensures Valid() && Opened() && EntriesKept() && TagsKept()
      ensures user.id != 0 ==>
                users == ReplaceUser(old(users), user) && nextUserId == old(nextUserId)
                && rows == if exists i :: 0 <= i < |old(users)| && old(users)[i].id == user.id then 1 else 0
      ensures user.id == 0 ==>
                users == old(users) + [user.(id := old(nextUserId))]
                && nextUserId == old(nextUserId) + 1 && rows == 1
    {
      Init();
      if user.id != 0 {
        rows := if exists i :: 0 <= i < |users| && users[i].id == user.id then 1 else 0;
        users := ReplaceUser(users, user);
      } else {
        users := users + [user.(id := nextUserId)];
        nextUserId := nextUserId + 1;
        rows := 1;
      }
    }

    /** All moods, in table order. */
    method GetMoods() returns (r: seq<Mood>)
      modifies this
      requires Valid()
      ensures Valid() && ReadOnly()
      ensures r == moods && r != []
    {
      Init();
      r := moods;
    }

    /** All tags, in table order. */
    method GetAllTags() returns (r: seq<Tag>)
      modifies this
      requires Valid()
      ensures Valid() && ReadOnly()
      ensures r == tags
    {
      Init();
      r := tags;
    }

    /** The tags linked to the entry, in table order. */
    method GetTagsForEntry(entryId: int) returns (r: seq<Tag>)
      modifies this
      requires Valid()
      ensures Valid() && ReadOnly()
      ensures r == TagsForEntry(entryTags, tags, entryId)
    {
      Init();
      r := TagsForEntry(entryTags, tags, entryId);
    }

    /** Replaces the entry's tag links by one link per name, creating a tag
        for every name that has none yet. Afterwards the entry's tags are
        exactly the tags bearing the listed names. */
    method SaveTagsForEntry(entryId: int, names: seq<string>)
      modifies this
      requires Valid()
      ensures Valid() && Opened() && EntriesKept() && UsersKept()
      ensures |tags| >= |old(tags)| && tags[..|old(tags)|] == old(tags)
      ensures forall j :: |old(tags)| <= j < |tags| ==> tags[j].name in names
      ensures forall k :: 0 <= k < |names| ==> TagNamed(tags, names[k]).Some?
      ensures entryTags == OtherLinks(old(entryTags), entryId) + LinksFor(entryId, names, tags)
      ensures TagsForEntry(entryTags, tags, entryId) == NamedTags(tags, names)
    {
      Init();
      entryTags := OtherLinks(entryTags, entryId);
      LinkTags(entryId, names);
      SavedTagsListed(old(entryTags), tags, nextTagId, entryId, names);
    }

    /** SaveTagsForEntryAsync as the code stands (ClearLinksAsWritten): after
        opening the store, an entry that already has links fails with the
        tables unchanged; an entry without links gets one link per name as in
        SaveTagsForEntry. */
    method SaveTagsForEntryAsWritten(entryId: int, names: seq<string>) returns (res: Result<(), DbError>)
      modifies this
      requires Valid()
      ensures Valid() && Opened() && EntriesKept() && UsersKept()
      ensures res.Failure? <==> exists l :: l in old(entryTags) && l.entryId == entryId
      ensures res.Failure? ==> res.error == MissingPrimaryKey && TagsKept()
      ensures res.Success? ==>
                && entryTags == OtherLinks(old(entryTags), entryId) + LinksFor(entryId, names, tags)
                && TagsForEntry(entryTags, tags, entryId) == NamedTags(tags, names)
    {
      Init();
      var cleared := ClearLinksAsWritten(entryTags, entryId);
      if cleared.Failure? {
        return Failure(cleared.error);
      }
      ClearAsWrittenAgrees(entryTags, entryId);
      entryTags := cleared.value;
      LinkTags(entryId, names);
      SavedTagsListed(old(entryTags), tags, nextTagId, entryId, names);
      res := Success(());
    }

    /** The loop over the names: links the entry to the tag of every name in
        turn, inserting the tags that are missing. */
    method LinkTags(entryId: int, names: seq<string>)
      modifies this
      requires Valid() && initialized
      ensures Valid() && initialized
      ensures moods == old(moods) && nextMoodId == old(nextMoodId) && EntriesKept() && UsersKept()
      ensures |tags| >= |old(tags)| && tags[..|old(tags)|] == old(tags)
      ensures forall j :: |old(tags)| <= j < |tags| ==> tags[j].name in names
      ensures forall k :: 0 <= k < |names| ==> TagNamed(tags, names[k]).Some?
      ensures entryTags == old(entryTags) + LinksFor(entryId, names, tags)
    {
      for i := 0 to |names|
        invariant LinkedUpTo(entryId, names, i, old(tags), old(entryTags))
        invariant moods == old(moods) && nextMoodId == old(nextMoodId) && EntriesKept() && UsersKept()
      {
        LinkNext(entryId, names, i, old(tags), old(entryTags));
      }
      assert names[..|names|] == names;
    }

    /** What the loop over the names has done after its first i rounds. */
    ghost predicate LinkedUpTo(entryId: int, names: seq<string>, i: int, tags0: seq<Tag>, links0: seq<EntryTag>)
      reads this
    {
      Valid() && initialized && 0 <= i <= |names| && TagsGrown(tags0, tags, names, i)
      && entryTags == links0 + LinksFor(entryId, names[..i], tags)
    }

    /** Round i of the loop over the names. */
    method LinkNext(entryId: int, names: seq<string>, i: int, ghost tags0: seq<Tag>, ghost links0: seq<EntryTag>)
      modifies this
      requires LinkedUpTo(entryId, names, i, tags0, links0) && i < |names|
      ensures LinkedUpTo(entryId, names, i + 1, tags0, links0)
      ensures moods == old(moods) && nextMoodId == old(nextMoodId) && EntriesKept() && UsersKept()
    {
      ghost var before := tags;
      var tag := LinkTag(entryId, names[i]);
      TagsGrownStep(tags0, before, tags, names, i, tag);
      LinksStep(links0, entryId, names, i, before, tags, tag);
    }

    /** One round of the loop over the names: finds the tag with the name,
        inserting it when there is none, and links the entry to it. */
    method LinkTag(entryId: int, name: string) returns (tag: Tag)
      modifies this
      requires Valid() && initialized
      ensures Valid() && initialized
      ensures moods == old(moods) && nextMoodId == old(nextMoodId) && EntriesKept() && UsersKept()
      ensures TagNamed(old(tags), name).Some? ==>
                tag == TagNamed(old(tags), name).value && tags == old(tags) && nextTagId == old(nextTagId)
      ensures TagNamed(old(tags), name).None? ==>
                tag == Tag(old(nextTagId), name) && tags == old(tags) + [tag] && nextTagId == old(nextTagId) + 1
      ensures TagNamed(tags, name) == Some(tag)
      ensures entryTags == old(entryTags) + [EntryTag(entryId, tag.id)]
    {
      var found := TagNamed(tags, name);
      if found.Some? {
        tag := found.value;
      } else {
        tag := Tag(nextTagId, name);
        AppendTagValid(tags, nextTagId, tag);
        tags := tags + [tag];
        nextTagId := nextTagId + 1;
      }
      entryTags := entryTags + [EntryTag(entryId, tag.id)];
    }
  }
}
