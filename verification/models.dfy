/** The stored records of the journal: one row type per SQLite table. */
module Models {
  import opened Dates
  import opened Seqs

  /** A journal entry. The store keeps at most one entry per EntryDate
      (a UNIQUE column); an id of 0 marks an entry not yet inserted. */
  datatype JournalEntry = JournalEntry(
    id: int,
    entryDate: DateTime,
    title: string,
    content: string,
    primaryMood: string,
    /** The secondary mood names, joined by commas. */
    secondaryMoods: string,
    createdAt: DateTime,
    updatedAt: DateTime)

  /** A fresh JournalEntry object: the string columns empty and both
      timestamps the current time. */
  function NewEntry(entryDate: DateTime, now: DateTime): JournalEntry {
    JournalEntry(0, entryDate, "", "", "", "", now, now)
  }

  /** A mood a user can pick; Name is UNIQUE, Category defaults to "Neutral". */
  datatype Mood = Mood(id: int, name: string, category: string, icon: string)

  /** moods.Select(m => m.Name): the names of the moods, in order. */
  function MoodNames(ms: seq<Mood>): (names: seq<string>)
    ensures |names| == |ms| && forall i :: 0 <= i < |ms| ==> names[i] == ms[i].name
  {
    Map(ms, (m: Mood) => m.name)
  }

  /** A free-text tag; Name is UNIQUE. */
  datatype Tag = Tag(id: int, name: string)

  /** The names of the tags, in order. */
  function TagNames(ts: seq<Tag>): (names: seq<string>)
    ensures |names| == |ts| && forall i :: 0 <= i < |ts| ==> names[i] == ts[i].name
  {
    Map(ts, (t: Tag) => t.name)
  }

  /** A link between an entry and a tag; the table has no primary key. */
  datatype EntryTag = EntryTag(entryId: int, tagId: int)

  /** The single app user: the hash of the PIN and when the row was made. */
  datatype User = User(id: int, pinHash: string, createdAt: DateTime)
}
