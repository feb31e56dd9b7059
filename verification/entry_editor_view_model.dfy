/** The entry editor: the fields of one entry, its two secondary-mood slots
    stored as one comma-separated string, and its list of tags. */
module Editor {
  import opened Wrappers
  import opened Dates
  import opened Models
  import opened Seqs
  import opened Text
  import opened Storage
  import opened Journal

  // ---------------------------------------------------------------------
  // The secondary moods

  /** The two secondary-mood pickers; None is a picker left null. */
  datatype MoodSlots = MoodSlots(first: Option<string>, second: Option<string>)

  /** String.IsNullOrEmpty. */
  predicate IsNullOrEmpty(s: Option<string>) {
    s.None? || s.value == ""
  }

  /** The slot values that Save keeps: the non-empty ones, first slot first. */
  function Chosen(slots: MoodSlots): (r: seq<string>)
    ensures |r| <= 2
    ensures forall i :: 0 <= i < |r| ==> r[i] != ""
  {
    (if IsNullOrEmpty(slots.first) then [] else [slots.first.value])
    + (if IsNullOrEmpty(slots.second) then [] else [slots.second.value])
  }

  /** The SecondaryMoods string Save stores: the chosen moods joined by ",". */
  function JoinMoods(slots: MoodSlots): (r: string)
    ensures r == "" <==> Chosen(slots) == []
  {
    var c := Chosen(slots);
    assert |c| == 2 ==> Join(",", c) == c[0] + "," + c[1];
    Join(",", c)
  }

  /** The slots LoadEntry fills from a stored SecondaryMoods string: an empty
      string clears both; otherwise the first piece goes to the first slot
      and the second piece, if there is one, to the second slot, which keeps
      its earlier value when there is no second piece. */
  function SplitMoods(stored: string, slots: MoodSlots): (r: MoodSlots)
    ensures stored == "" <==> r.first.None?
  {
    if stored == "" then MoodSlots(None, None)
    else
      var parts := Split(stored, ',');
      MoodSlots(Some(parts[0]), if |parts| > 1 then Some(parts[1]) else slots.second)
  }

  /** A mood without a comma survives the comma encoding. */
  predicate CommaFree(s: Option<string>) {
    s.Some? ==> ',' !in s.value
  }

  /** Saving the slots and loading them again: each chosen mood comes back,
      in order from the first slot; nothing chosen clears both slots, and a
      single chosen mood leaves the second slot as it was before loading. */
  lemma SaveThenLoadMoods(slots: MoodSlots, before: MoodSlots)
    requires CommaFree(slots.first) && CommaFree(slots.second)
    ensures var c := Chosen(slots);
      var r := SplitMoods(JoinMoods(slots), before);
      && (|c| == 0 ==> r == MoodSlots(None, None))
      && (|c| == 1 ==> r == MoodSlots(Some(c[0]), before.second))
      && (|c| == 2 ==> r == MoodSlots(Some(c[0]), Some(c[1])))
  {
    var c := Chosen(slots);
    if |c| >= 1 {
      assert forall i :: 0 <= i < |c| ==> ',' !in c[i];
      SplitJoin(c, ',');
    }
  }

  /** Two non-empty, comma-free moods come back in the same slots. */
  lemma MoodsRoundTrip(m1: string, m2: string, before: MoodSlots)
    requires m1 != "" && m2 != "" && ',' !in m1 && ',' !in m2
    ensures SplitMoods(JoinMoods(MoodSlots(Some(m1), Some(m2))), before) == MoodSlots(Some(m1), Some(m2))
  {
    SaveThenLoadMoods(MoodSlots(Some(m1), Some(m2)), before);
  }

  /** A stored string with no comma fills the first slot and leaves the
      second one untouched; one with a single comma fills both. */
  lemma LoadedMoods(a: string, b: string, before: MoodSlots)
    requires ',' !in a && ',' !in b
    ensures a != "" ==> SplitMoods(a, before) == MoodSlots(Some(a), before.second)
    ensures SplitMoods(a + "," + b, before) == MoodSlots(Some(a), Some(b))
  {
    SplitPiece(a, ',');
    SplitPrefix(a, b, ',');
    SplitPiece(b, ',');
  }

  // ---------------------------------------------------------------------
  // The tag list

  /** The list after adding a tag unless it is already listed. */
  function WithTag(tags: seq<string>, tag: string): (r: seq<string>)
    ensures forall x :: x in r <==> x in tags || x == tag
    ensures tags <= r && |r| <= |tags| + 1
  {
    if tag in tags then tags else tags + [tag]
  }

  /** Adding a tag keeps a list free of duplicates. */
  lemma WithTagDistinct(tags: seq<string>, tag: string)
    requires NoDuplicates(tags)
    ensures NoDuplicates(WithTag(tags, tag))
  {
  }

  /** Collection.Remove: the list without the first occurrence of tag, or
      the list itself when tag does not occur. */
  function RemoveFirst(tags: seq<string>, tag: string): (r: seq<string>)
    ensures tag !in tags ==> r == tags
    ensures tag in tags ==> |r| == |tags| - 1 && multiset(r) == multiset(tags) - multiset{tag}
  {
    if tags == [] then []
    else
      assert tags == [tags[0]] + tags[1..];
      if tags[0] == tag then tags[1..] else [tags[0]] + RemoveFirst(tags[1..], tag)
  }

  /** Removing a tag from a list free of duplicates takes it out entirely
      and keeps every other tag. */
  lemma {:induction false} RemoveFirstDistinct(tags: seq<string>, tag: string)
    requires NoDuplicates(tags)
    ensures NoDuplicates(RemoveFirst(tags, tag))
    ensures forall x :: x in RemoveFirst(tags, tag) <==> x in tags && x != tag
  {
    if tags != [] {
      var rest := tags[1..];
      assert tags[0] !in rest;
      if tags[0] != tag {
        RemoveFirstDistinct(rest, tag);
        assert RemoveFirst(tags, tag) == [tags[0]] + RemoveFirst(rest, tag);
      }
    }
  }

  // ---------------------------------------------------------------------
  // Saving

  /** String "" for a null picker value. */
  function OrEmpty(s: Option<string>): string {
    if s.None? then "" else s.value
  }

  /** The current entry with the editor's fields copied onto it, as Save
      passes it to the journal service. */
  function Edited(e: JournalEntry, title: string, content: string, mood: Option<string>, slots: MoodSlots): (r: JournalEntry)
    ensures r.id == e.id && r.entryDate == e.entryDate && r.createdAt == e.createdAt
    ensures r.title == title && r.content == content && r.primaryMood == OrEmpty(mood)
    ensures r.secondaryMoods == "" <==> Chosen(slots) == []
  {
    e.(title := title, content := content, primaryMood := OrEmpty(mood), secondaryMoods := JoinMoods(slots))
  }

  class EntryEditorViewModel {
    /** The journal service; its database service is the one the editor
        reads moods and tags from. */
    const journal: JournalService
    var entryId: int
    var title: string
    var content: string
    var entryDate: DateTime
    var selectedMoodName: Option<string>
    var secondaryMood1: Option<string>
    var secondaryMood2: Option<string>
    var moodValues: seq<string>
    var newTag: string
    var selectedTags: seq<string>
    var availableTags: seq<string>
    var currentEntry: Option<JournalEntry>

    /** The slots as the pickers show them. */
    function Slots(): MoodSlots
      reads this
    {
      MoodSlots(secondaryMood1, secondaryMood2)
    }

    /** The fields that only loading an entry changes. */
    twostate predicate FormKept()
      reads this
    {
      title == old(title) && content == old(content) && entryDate == old(entryDate)
      && selectedMoodName == old(selectedMoodName)
      && secondaryMood1 == old(secondaryMood1) && secondaryMood2 == old(secondaryMood2)
      && entryId == old(entryId) && currentEntry == old(currentEntry)
    }

    /** The form shows the entry: its title, content, date and primary mood,
        its secondary moods split into the slots as they were, and the names
        of the tags the store links it to; the picker lists and the tag input
        stay as they were. */
    twostate predicate Shows(entry: JournalEntry)
      reads this, journal.db
    {
      && title == entry.title && content == entry.content && entryDate == entry.entryDate
      && selectedMoodName == Some(entry.primaryMood)
      && Slots() == SplitMoods(entry.secondaryMoods, old(Slots()))
      && selectedTags == TagNames(TagsForEntry(journal.db.entryTags, journal.db.tags, entry.id))
      && moodValues == old(moodValues) && newTag == old(newTag) && availableTags == old(availableTags)
    }

    /** Nothing the form shows has changed. */
    twostate predicate ShowsSame()
      reads this
    {
      && title == old(title) && content == old(content) && entryDate == old(entryDate)
      && selectedMoodName == old(selectedMoodName) && Slots() == old(Slots())
      && selectedTags == old(selectedTags)
      && moodValues == old(moodValues) && newTag == old(newTag) && availableTags == old(availableTags)
    }

    /** An empty editor, with the mood and tag lists loaded. */
    constructor(journal: JournalService)
      modifies journal.db
      requires journal.db.Valid()
      ensures this.journal == journal
      ensures journal.db.Valid() && journal.db.ReadOnly()
      ensures entryId == 0 && title == "" && content == "" && entryDate == DateTime(0, 0) && currentEntry.None?
      ensures selectedMoodName.None? && Slots() == MoodSlots(None, None)
      ensures newTag == "" && selectedTags == []
      ensures moodValues == MoodNames(journal.db.moods) && availableTags == TagNames(journal.db.tags)
    {
      this.journal := journal;
      entryId := 0;
      title := "";
      content := "";
      entryDate := DateTime(0, 0);
      selectedMoodName := None;
      secondaryMood1 := None;
      secondaryMood2 := None;
      moodValues := [];
      newTag := "";
      selectedTags := [];
      availableTags := [];
      currentEntry := None;
      new;
      LoadMoods();
    }

    /** The mood names for the pickers, and every stored tag name. */
    method LoadMoods()
      modifies this, journal.db
      requires journal.db.Valid()
      ensures journal.db.Valid() && journal.db.ReadOnly()
      ensures moodValues == MoodNames(journal.db.moods) && availableTags == TagNames(journal.db.tags)
      ensures FormKept() && newTag == old(newTag) && selectedTags == old(selectedTags)
    {
      var moods := journal.db.GetMoods();
      moodValues := MoodNames(moods);
      var tags := journal.db.GetAllTags();
      var names := CollectNames(tags);
      availableTags := names;
    }

    /** The names of the tags, added one by one to a cleared list. */
    static method CollectNames(tags: seq<Tag>) returns (names: seq<string>)
      ensures names == TagNames(tags)
    {
      names := [];
      for i := 0 to |tags|
        invariant names == TagNames(tags[..i])
      {
        assert tags[..i + 1] == tags[..i] + [tags[i]];
        names := names + [tags[i].name];
      }
      assert tags[..|tags|] == tags;
    }

    /** Adds the trimmed new tag unless it is blank: to the selected tags if
        missing there, and then to the available tags if missing there too;
        the input is cleared. A blank input changes nothing. */
    method AddTag()
      modifies this
      ensures FormKept() && moodValues == old(moodValues)
      ensures IsBlank(old(newTag)) ==>
                newTag == old(newTag) && selectedTags == old(selectedTags) && availableTags == old(availableTags)
      ensures !IsBlank(old(newTag)) ==>
                var tag := Trim(old(newTag));
                && tag != ""
                && selectedTags == WithTag(old(selectedTags), tag)
                && availableTags == (if tag in old(selectedTags) then old(availableTags) else WithTag(old(availableTags), tag))
                && newTag == ""
      ensures NoDuplicates(old(selectedTags)) ==> NoDuplicates(selectedTags)
    {
      var input, selected, available := AddedTag(newTag, selectedTags, availableTags);
      newTag, selectedTags, availableTags := input, selected, available;
    }

    /** The tag input and the selected and available tags after adding the
        input as a tag. */
    static method AddedTag(input: string, selected: seq<string>, available: seq<string>)
      returns (i: string, s: seq<string>, a: seq<string>)
      ensures IsBlank(input) ==> i == input && s == selected && a == available
      ensures !IsBlank(input) ==>
                var tag := Trim(input);
                && tag != ""
                && s == WithTag(selected, tag)
                && a == (if tag in selected then available else WithTag(available, tag))
                && i == ""
      ensures NoDuplicates(selected) ==> NoDuplicates(s)
    {
      i, s, a := input, selected, available;
      if IsBlank(input) {
        return;
      }
      var tag := Trim(input);
      if NoDuplicates(selected) {
        WithTagDistinct(selected, tag);
      }
      if tag !in selected {
        s := selected + [tag];
        if tag !in available {
          a := available + [tag];
        }
      }
      i := "";
    }

    /** Removes the tag from the selected tags if it is there. */
    method RemoveTag(tag: string)
      modifies this
      ensures FormKept() && moodValues == old(moodValues)
      ensures newTag == old(newTag) && availableTags == old(availableTags)
      ensures selectedTags == RemoveFirst(old(selectedTags), tag)
      ensures NoDuplicates(old(selectedTags)) ==> NoDuplicates(selectedTags) && tag !in selectedTags
    {
      if NoDuplicates(selectedTags) {
        RemoveFirstDistinct(selectedTags, tag);
      }
      if tag in selectedTags {
        selectedTags := RemoveFirst(selectedTags, tag);
      }
    }

    /** Shows the entry: its fields, its secondary moods split into the
        slots, and its tags. */
    method LoadEntry(entry: JournalEntry)
      modifies this, journal.db
      requires journal.db.Valid()
      ensures journal.db.Valid() && journal.db.ReadOnly()
      ensures Shows(entry)
      ensures entryId == old(entryId) && currentEntry == old(currentEntry)
    {
      var tags := journal.db.GetTagsForEntry(entry.id);
      var names := CollectNames(tags);
      ShowEntry(entry, names);
    }

    /** Copies the entry's fields into the form, splits its secondary moods
        into the slots and lists the tag names. */
    method ShowEntry(entry: JournalEntry, tagNames: seq<string>)
      modifies this
      ensures title == entry.title && content == entry.content && entryDate == entry.entryDate
      ensures selectedMoodName == Some(entry.primaryMood)
      ensures Slots() == SplitMoods(entry.secondaryMoods, old(Slots()))
      ensures selectedTags == tagNames
      ensures entryId == old(entryId) && currentEntry == old(currentEntry)
      ensures moodValues == old(moodValues) && newTag == old(newTag) && availableTags == old(availableTags)
    {
      title, content, entryDate := entry.title, entry.content, entry.entryDate;
      selectedMoodName := Some(entry.primaryMood);
      var slots := SplitMoods(entry.secondaryMoods, Slots());
      secondaryMood1, secondaryMood2 := slots.first, slots.second;
      selectedTags := tagNames;
    }

    /** Edits the given entry: it becomes the current entry and is shown. */
    method Initialize(entry: JournalEntry)
      modifies this, journal.db
      requires journal.db.Valid()
      ensures journal.db.Valid() && journal.db.ReadOnly()
      ensures currentEntry == Some(entry) && entryId == old(entryId) && Shows(entry)
    {
      currentEntry := Some(entry);
      LoadEntry(entry);
    }

    /** Setting the Id query property: a new value is stored and handled by
        OnEntryIdChanged; setting the same id again does nothing. */
    method SetEntryId(value: int, now: DateTime)
      modifies this, journal.db
      requires journal.db.Valid()
      ensures journal.db.Valid() && journal.db.EntriesKept() && journal.db.TagsKept() && journal.db.UsersKept()
      ensures entryId == value
      ensures value == old(entryId) ==> unchanged(this) && unchanged(journal.db)
      ensures value != old(entryId) && value > 0 ==> currentEntry == EntryWithId(journal.db.entries, value)
      ensures value != old(entryId) && value <= 0 ==> currentEntry == old(currentEntry)
      ensures value != old(entryId) && (value > 0 || old(currentEntry).Some?) ==> journal.db.Opened()
      ensures value != old(entryId) && value <= 0 && old(currentEntry).None? ==> unchanged(journal.db)
      ensures value != old(entryId) && currentEntry.Some? ==> Shows(currentEntry.value)
      ensures currentEntry.None? ==> ShowsSame()
    {
      if value == entryId {
        return;
      }
      entryId := value;
      OnEntryIdChanged(value, now);
    }

    /** A positive id looks the entry up by id (after a lookup by today's
        date whose result is dropped); the current entry, if there is one,
        is then shown. */
    method OnEntryIdChanged(value: int, now: DateTime)
      modifies this, journal.db
      requires journal.db.Valid()
      ensures journal.db.Valid() && journal.db.EntriesKept() && journal.db.TagsKept() && journal.db.UsersKept()
      ensures entryId == old(entryId)
      ensures value > 0 ==> currentEntry == EntryWithId(journal.db.entries, value)
      ensures value <= 0 ==> currentEntry == old(currentEntry)
      ensures value > 0 || old(currentEntry).Some? ==> journal.db.Opened()
      ensures value <= 0 && old(currentEntry).None? ==> unchanged(journal.db)
      ensures currentEntry.Some? ==> Shows(currentEntry.value)
      ensures currentEntry.None? ==> ShowsSame()
    {
      if value > 0 {
        var found := FetchEntry(value, now);
        currentEntry := found;
      }
      if currentEntry.Some? {
        LoadEntry(currentEntry.value);
      }
    }

    /** The two lookups of OnEntryIdChanged: by today's date, then by id;
        only the second one counts. */
    method FetchEntry(id: int, now: DateTime) returns (r: Option<JournalEntry>)
      modifies journal.db
      requires journal.db.Valid()
      ensures journal.db.Valid() && journal.db.ReadOnly()
      ensures r == EntryWithId(journal.db.entries, id)
    {
      r := journal.GetEntryForDate(Date(now));
      r := journal.db.GetEntry(id);
    }

    /** Copies the title, content and moods onto the current entry, saves it
        through the journal service and then replaces its tags by the
        selected ones. Without a current entry nothing happens (None); a
        failed save raises, so the tags are left as they were. */
    method Save(now: DateTime) returns (res: Option<Result<int, DbError>>)
      modifies this, journal.db
      requires journal.db.Valid()
      ensures journal.db.Valid()
      ensures old(currentEntry).None? ==> res.None? && unchanged(this) && unchanged(journal.db)
      ensures old(currentEntry).Some? ==>
                var e := Edited(old(currentEntry).value, title, content, selectedMoodName, Slots());
                var o := SaveEntryOutcome(old(journal.db.entries), old(journal.db.nextEntryId),
                                          e.(updatedAt := now, entryDate := Date(e.entryDate)), now);
                && res == Some(o.res) && currentEntry == Some(o.saved)
                && journal.db.entries == o.entries && journal.db.nextEntryId == o.nextId
                && journal.db.Opened() && journal.db.UsersKept()
                && (o.res.Failure? ==> journal.db.TagsKept())
                && (o.res.Success? ==>
                      && |journal.db.tags| >= |old(journal.db.tags)|
                      && journal.db.tags[..|old(journal.db.tags)|] == old(journal.db.tags)
                      && (forall j :: |old(journal.db.tags)| <= j < |journal.db.tags| ==> journal.db.tags[j].name in selectedTags)
                      && journal.db.entryTags == OtherLinks(old(journal.db.entryTags), o.saved.id)
                                                 + LinksFor(o.saved.id, selectedTags, journal.db.tags)
                      && TagsForEntry(journal.db.entryTags, journal.db.tags, o.saved.id) == NamedTags(journal.db.tags, selectedTags))
      ensures ShowsSame() && entryId == old(entryId)
    {
      if currentEntry.None? {
        return None;
      }
      var e := Edited(currentEntry.value, title, content, selectedMoodName, Slots());
      var r, saved := journal.SaveEntry(e, now);
      currentEntry := Some(saved);
      res := Some(r);
      if r.Failure? {
        return;
      }
      journal.SaveTagsForEntry(saved.id, selectedTags);
    }
  }
}
