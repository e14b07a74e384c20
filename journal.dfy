/** The write side of the journal: parsing the comma-separated tag field,
    the tag table's get-or-create, and attaching tags when an entry is
    written or edited. The database is an object whose tables are
    sequences that its methods replace. */
module Journal {
  import opened Text
  import opened Cipher
  import opened Entries
  import opened Filters
  import opened Paginator

  // ------------------------------------------------------------ the tag field

  /** The stripped pieces that are not blank, in order. */
  function StripPieces(parts: seq<string>): (names: seq<string>)
    ensures |names| <= |parts|
    ensures forall k :: 0 <= k < |names| ==> names[k] != [] && IsTrimmed(names[k])
  {
    if parts == [] then []
    else
      var t := Strip(parts[0]);
      (if t != [] then [t] else []) + StripPieces(parts[1..])
  }

  /** `[t.strip() for t in tags_str.split(',') if t.strip()]`: the tag
      names of the form field, each non-empty, trimmed and free of commas. */
  function ParseTags(tagsArg: string): (names: seq<string>)
    ensures forall k :: 0 <= k < |names| ==> names[k] != [] && IsTrimmed(names[k]) && ',' !in names[k]
  {
    var parts := SplitOn(tagsArg, ',');
    var names := StripPieces(parts);
    StripPiecesFrom(parts);
    names
  }

  /** Every name comes from a piece, so holds no character the pieces do
      not hold. */
  lemma {:induction false} StripPiecesFrom(parts: seq<string>)
    requires forall k :: 0 <= k < |parts| ==> ',' !in parts[k]
    ensures forall k :: 0 <= k < |StripPieces(parts)| ==> ',' !in StripPieces(parts)[k]
  {
    if parts != [] {
      StripPiecesFrom(parts[1..]);
      var p := parts[0];
      var t := Strip(p);
      var a := LeadingSpaces(p);
      var u := p[a..];
      assert t == u[..|u| - TrailingSpaces(u)];
      assert forall i :: 0 <= i < |t| ==> t[i] == p[a + i];
    }
  }

  /** Pieces that are already tag names come back unchanged. */
  lemma {:induction false} StripPiecesOfNames(names: seq<string>)
    requires forall k :: 0 <= k < |names| ==> names[k] != [] && IsTrimmed(names[k])
    ensures StripPieces(names) == names
  {
    if names != [] {
      StripTrimmed(names[0]);
      StripPiecesOfNames(names[1..]);
    }
  }

  /** Parsing gives back any list of tag names written with commas between
      them: the field the edit form shows for an entry's tags parses to
      those tags. */
  lemma ParseTagsOfJoin(names: seq<string>)
    requires forall k :: 0 <= k < |names| ==> names[k] != [] && IsTrimmed(names[k]) && ',' !in names[k]
    ensures ParseTags(JoinWith(names, ",")) == names
  {
    if names == [] {
      assert JoinWith(names, ",") == [];
      assert SplitOn([], ',') == [[]];
      assert Strip([]) == [];
    } else {
      SplitOnJoin(names, ',');
      StripPiecesOfNames(names);
    }
  }

  /** Names written with a comma and a space between them, as people
      usually type a list ("work, travel"), parse back to those names: the
      spaces after the commas are stripped away. */
  lemma ParseTagsOfSpacedJoin(names: seq<string>)
    requires forall k :: 0 <= k < |names| ==> names[k] != [] && IsTrimmed(names[k]) && ',' !in names[k]
    ensures ParseTags(JoinWith(names, ", ")) == names
  {
    if names == [] {
      assert JoinWith(names, ", ") == [];
      assert SplitOn([], ',') == [[]];
      assert Strip([]) == [];
    } else {
      var field := JoinWith(names, ", ");
      var pieces := [names[0]] + Padded(names[1..]);
      JoinSpaced(names);
      SpacedNoComma(names);
      SplitOnJoin(pieces, ',');
      assert SplitOn(field, ',') == pieces;
      StripSpaced(names);
      assert ParseTags(field) == StripPieces(pieces);
    }
  }

  /** The list joined with ", " is the first name and the padded others
      joined with ",". */
  lemma JoinSpaced(names: seq<string>)
    requires names != []
    ensures JoinWith(names, ", ") == JoinWith([names[0]] + Padded(names[1..]), ",")
  {
    var rest := names[1..];
    var pieces := [names[0]] + Padded(rest);
    if rest != [] {
      JoinPadded(rest);
      assert pieces[1..] == Padded(rest);
      CommaSpace(names[0], JoinWith(rest, ", "));
    }
  }

  lemma CommaSpace(a: string, b: string)
    ensures a + ", " + b == a + "," + (" " + b)
  {
    assert ", " == "," + " ";
  }

  /** Padding adds no comma. */
  lemma SpacedNoComma(names: seq<string>)
    requires names != []
    requires forall k :: 0 <= k < |names| ==> ',' !in names[k]
    ensures forall k :: 0 <= k < |names| ==> ',' !in ([names[0]] + Padded(names[1..]))[k]
  {
    var pieces := [names[0]] + Padded(names[1..]);
    forall k | 0 <= k < |names| ensures ',' !in pieces[k] {
      if k > 0 {
        assert pieces[k] == " " + names[k];
      }
    }
  }

  /** Stripping the first name and the padded others gives the names. */
  lemma StripSpaced(names: seq<string>)
    requires names != []
    requires forall k :: 0 <= k < |names| ==> names[k] != [] && IsTrimmed(names[k])
    ensures StripPieces([names[0]] + Padded(names[1..])) == names
  {
    var pieces := [names[0]] + Padded(names[1..]);
    StripTrimmed(names[0]);
    assert pieces[1..] == Padded(names[1..]);
    StripPadded(names[1..]);
    assert [names[0]] + names[1..] == names;
  }

  /** Each name with one space in front of it. */
  function Padded(names: seq<string>): (r: seq<string>)
    ensures |r| == |names|
    ensures forall k :: 0 <= k < |r| ==> r[k] == " " + names[k]
  {
    seq(|names|, k requires 0 <= k < |names| => " " + names[k])
  }

  /** Joining with ", " is joining the padded names with "," after a space. */
  lemma {:induction false} JoinPadded(names: seq<string>)
    requires names != []
    ensures JoinWith(Padded(names), ",") == " " + JoinWith(names, ", ")
  {
    if |names| > 1 {
      var rest := names[1..];
      JoinPadded(rest);
      assert Padded(names)[1..] == Padded(rest);
      calc {
        JoinWith(Padded(names), ",");
        " " + names[0] + "," + JoinWith(Padded(rest), ",");
        " " + names[0] + "," + (" " + JoinWith(rest, ", "));
        " " + (names[0] + ", " + JoinWith(rest, ", "));
        " " + JoinWith(names, ", ");
      }
    }
  }

  /** Stripping padded names gives the names back. */
  lemma {:induction false} StripPadded(names: seq<string>)
    requires forall k :: 0 <= k < |names| ==> names[k] != [] && IsTrimmed(names[k])
    ensures StripPieces(Padded(names)) == names
  {
    if names != [] {
      StripPadding(" ", names[0], []);
      assert " " + names[0] + [] == Padded(names)[0];
      assert Padded(names)[1..] == Padded(names[1..]);
      StripPadded(names[1..]);
    }
  }

  // ------------------------------------------------------------ the page

  /** `per_page_words`: the journal page shows 200 words at a time. */
  const WordsPerPage := 200

  /** The `journal` GET request: the filtered entries, paginated by words. */
  function JournalPage(
    key: Key, es: seq<Entry>, tags: seq<Tag>, owner: int,
    keywordArg: string, day: Option<int>, tagArg: string, page: int): (seq<Group>, Pagination)
  {
    Paginated(key, JournalQuery(key, es, tags, owner, keywordArg, day, tagArg), page, WordsPerPage)
  }

  /** Every entry the journal page shows is a stored entry that meets every
      filter of the request, and is shown as one block. */
  lemma JournalPageShowsSelected(
    key: Key, es: seq<Entry>, tags: seq<Tag>, owner: int,
    keywordArg: string, day: Option<int>, tagArg: string, page: int)
    requires DistinctIds(es)
    ensures var gs := JournalPage(key, es, tags, owner, keywordArg, day, tagArg, page).0;
      && DistinctGroups(gs)
      && forall k :: 0 <= k < |gs| ==>
           gs[k].entry in es && Selected(key, tags, owner, Strip(keywordArg), day, Strip(tagArg), gs[k].entry)
  {
    var r := JournalQuery(key, es, tags, owner, keywordArg, day, tagArg);
    JournalQuerySelects(key, es, tags, owner, keywordArg, day, tagArg);
    SubsequenceDistinctIds(r, es);
    PaginatedPage(key, r, page, WordsPerPage);
    var gs := JournalPage(key, es, tags, owner, keywordArg, day, tagArg, page).0;
    forall k | 0 <= k < |gs|
      ensures gs[k].entry in es && Selected(key, tags, owner, Strip(keywordArg), day, Strip(tagArg), gs[k].entry)
    {
      assert gs[k].entry in r;
      assert multiset(r)[gs[k].entry] > 0;
    }
  }

  // ------------------------------------------------------------ the database

  /** The tag ids `ids` are those of the tags called `names`, one for one. */
  predicate Attached(tags: seq<Tag>, names: seq<string>, ids: seq<int>)
  {
    && |ids| == |names|
    && forall k :: 0 <= k < |names| ==> FindTag(tags, names[k]) == Some(Tag(ids[k], names[k]))
  }

  /** Position of the first entry with id `id` (`|es|` when there is
      none): `JournalEntry.query.get(id)`. */
  function EntryPos(es: seq<Entry>, id: int): (k: nat)
    ensures k <= |es|
    ensures k < |es| ==> es[k].id == id
    ensures forall j :: 0 <= j < k ==> es[j].id != id
    ensures k == |es| <==> forall j :: 0 <= j < |es| ==> es[j].id != id
  {
    if es == [] then 0
    else if es[0].id == id then 0
    else 1 + EntryPos(es[1..], id)
  }

  /** Entry ids are distinct and below the next id. */
  predicate EntryTable(es: seq<Entry>, nextId: int)
  {
    DistinctIds(es) && forall k :: 0 <= k < |es| ==> es[k].id < nextId
  }

  /** Tag ids are distinct and below the next id; names are unique,
      non-empty and trimmed. */
  predicate TagTable(tags: seq<Tag>, nextId: int)
  {
    && (forall i, j :: 0 <= i < j < |tags| ==> tags[i].id != tags[j].id && tags[i].name != tags[j].name)
    && (forall k :: 0 <= k < |tags| ==> tags[k].id < nextId && tags[k].name != [] && IsTrimmed(tags[k].name))
  }

  /** Inserting a row with the next id keeps the entry table's invariant. */
  lemma InsertEntry(es: seq<Entry>, nextId: int, e: Entry)
    requires EntryTable(es, nextId) && e.id == nextId
    ensures EntryTable(es + [e], nextId + 1)
  {
    var r := es + [e];
    forall i, j | 0 <= i < j < |r| ensures r[i].id != r[j].id {
      if j < |es| {
        assert r[i] == es[i] && r[j] == es[j];
      } else {
        assert r[i] == es[i];
      }
    }
  }

  /** Updating a row in place, without touching its id, keeps the entry
      table's invariant and every id. */
  lemma UpdateEntry(es: seq<Entry>, nextId: int, i: nat, e: Entry)
    requires EntryTable(es, nextId) && i < |es| && e.id == es[i].id
    ensures EntryTable(es[i := e], nextId)
    ensures forall k :: 0 <= k < |es| ==> es[i := e][k].id == es[k].id
  {
  }

  /** Inserting a tag with a new, trimmed, non-empty name and the next id
      keeps the tag table's invariant. */
  lemma InsertTag(tags: seq<Tag>, nextId: int, t: Tag)
    requires TagTable(tags, nextId) && t.id == nextId
    requires t.name != [] && IsTrimmed(t.name)
    requires forall k :: 0 <= k < |tags| ==> tags[k].name != t.name
    ensures TagTable(tags + [t], nextId + 1)
  {
    var r := tags + [t];
    forall i, j | 0 <= i < j < |r| ensures r[i].id != r[j].id && r[i].name != r[j].name {
      if j < |tags| {
        assert r[i] == tags[i] && r[j] == tags[j];
      } else {
        assert r[i] == tags[i];
      }
    }
  }

  /** Result of the edit form's POST. */
  datatype EditOutcome =
    | NotFound  // 404: no entry with that id
    | Denied    // the entry belongs to another user
    | Blank     // the new text is empty or only whitespace: nothing changes
    | Updated

  class Database {
    /** The process-wide encryption key, fixed at start-up. */
    const key: Key
    /** The `journal_entry` table with each entry's tag list. */
    var entries: seq<Entry>
    /** The `tag` table. */
    var tags: seq<Tag>
    /** The next primary key of each table. */
    var nextEntryId: int
    var nextTagId: int

    /** Primary keys are distinct and below the next key; tag names are
        unique, non-empty and trimmed (only get-or-create adds tags). */
    ghost predicate Valid()
      reads this
    {
      EntryTable(entries, nextEntryId) && TagTable(tags, nextTagId)
    }

    constructor (key: Key)
      ensures Valid()
      ensures this.key == key && entries == [] && tags == []
    {
      this.key := key;
      entries, tags := [], [];
      nextEntryId, nextTagId := 1, 1;
    }

    /** `get_or_create_tag(nom)`: nothing for a blank name; otherwise the tag
        called by the stripped name, created at the end of the table (with
        the next id) only when no tag has that name yet. */
    method GetOrCreateTag(name: string) returns (tag: Option<Tag>)
      requires Valid()
      modifies this
      ensures Valid()
      ensures entries == old(entries) && nextEntryId == old(nextEntryId)
      ensures tag.None? <==> IsBlank(name)
      ensures tag.None? ==> tags == old(tags) && nextTagId == old(nextTagId)
      ensures tag.Some? ==> tag.value.name == Strip(name) && FindTag(tags, Strip(name)) == tag
      ensures old(FindTag(tags, Strip(name))).Some? ==>
        tags == old(tags) && nextTagId == old(nextTagId) && tag == old(FindTag(tags, Strip(name)))
      ensures tag.Some? && old(FindTag(tags, Strip(name))).None? ==>
        tags == old(tags) + [tag.value] && tag.value.id == old(nextTagId) && nextTagId == old(nextTagId) + 1
      ensures old(tags) <= tags
      ensures forall j :: |old(tags)| <= j < |tags| ==> tags[j].name == Strip(name)
    {
      var nom := Strip(name);
      if nom == [] {
        return None;
      }
      var found := FindTag(tags, nom);
      if found.None? {
        var t := Tag(nextTagId, nom);
        InsertTag(tags, nextTagId, t);
        tags := tags + [t];
        nextTagId := nextTagId + 1;
        FindTagNew(old(tags), t);
        return Some(t);
      }
      return found;
    }

    /** The loop `for tag_nom in tags_list: tag = get_or_create_tag(tag_nom);
        if tag: entry.tags.append(tag)`: the ids of the tags called `names`,
        one per name and in order, creating the missing ones. Tags already
        in the table stay, in place. */
    method AttachTags(names: seq<string>) returns (ids: seq<int>)
      requires Valid()
      requires forall k :: 0 <= k < |names| ==> names[k] != [] && IsTrimmed(names[k])
      modifies this
      ensures Valid()
      ensures entries == old(entries) && nextEntryId == old(nextEntryId)
      ensures old(tags) <= tags
      ensures forall j :: |old(tags)| <= j < |tags| ==> tags[j].name in names
      ensures Attached(tags, names, ids)
    {
      ids := [];
      for i := 0 to |names|
        invariant Valid()
        invariant entries == old(entries) && nextEntryId == old(nextEntryId)
        invariant old(tags) <= tags
        invariant forall j :: |old(tags)| <= j < |tags| ==> tags[j].name in names
        invariant Attached(tags, names[..i], ids)
      {
        StripTrimmed(names[i]);
        ghost var before := tags;
        var tag := GetOrCreateTag(names[i]);
        AttachedExtends(before, tags, names[..i], ids);
        NewNamesExtend(old(tags), before, tags, names, i);
        if tag.Some? {
          AttachedSnoc(tags, names[..i], ids, tag.value);
          ids := ids + [tag.value.id];
        }
        PrefixSnoc(names, i);
      }
      assert names[..|names|] == names;
    }

    /** The POST branch of `journal` (app.py lines 355-369): a text that is
        not blank becomes a new entry of `owner`, encrypted, with the tags of
        the tag field attached in order; a blank text changes nothing.
        `day` and `wire` stand for the clock and the randomness of the
        encryption. */
    method CreateEntry(owner: int, text: string, mood: Option<string>, tagsArg: string, day: int, wire: string)
      returns (created: bool)
      requires Valid()
      modifies this
      ensures Valid()
      ensures created <==> !IsBlank(text)
      ensures !created ==>
        entries == old(entries) && tags == old(tags)
        && nextEntryId == old(nextEntryId) && nextTagId == old(nextTagId)
      ensures created ==>
        && nextEntryId == old(nextEntryId) + 1
        && |entries| == |old(entries)| + 1
        && entries[..|old(entries)|] == old(entries)
        && var e := entries[|entries| - 1];
           && e.id == old(nextEntryId) && e.owner == owner && e.day == day && e.mood == mood
           && TextOf(key, e) == text
           && Attached(tags, ParseTags(tagsArg), e.tagIds)
      ensures old(tags) <= tags
      ensures forall j :: |old(tags)| <= j < |tags| ==> tags[j].name in ParseTags(tagsArg)
    {
      if Strip(text) == [] {
        return false;
      }
      var entry := Entry(nextEntryId, owner, day, mood, Encrypt(key, text, wire), []);
      InsertEntry(entries, nextEntryId, entry);
      entries := entries + [entry];
      nextEntryId := nextEntryId + 1;
      var names := ParseTags(tagsArg);
      var ids := AttachTags(names);
      var n := |entries| - 1;
      UpdateEntry(entries, nextEntryId, n, entries[n].(tagIds := ids));
      entries := entries[n := entries[n].(tagIds := ids)];
      created := true;
    }

    /** Row `i` of the entry table replaced in place by `e`, which keeps
        its id (the attribute updates before `db.session.commit()`). */
    method SetEntry(i: nat, e: Entry)
      requires Valid() && i < |entries| && e.id == entries[i].id
      modifies this
      ensures Valid()
      ensures entries == old(entries)[i := e]
      ensures tags == old(tags) && nextEntryId == old(nextEntryId) && nextTagId == old(nextTagId)
    {
      UpdateEntry(entries, nextEntryId, i, e);
      entries := entries[i := e];
    }

    /** `edit_entry` on POST (app.py lines 430-451): an unknown id is not
        found, another user's entry is refused, a blank text changes
        nothing; otherwise the entry gets the new encrypted text and mood,
        and its tag list is cleared and rebuilt from the tag field. No other
        entry changes. */
    method EditEntry(entryId: int, requester: int, text: string, mood: Option<string>, tagsArg: string, wire: string)
      returns (outcome: EditOutcome)
      requires Valid()
      modifies this
      ensures Valid()
      ensures outcome == NotFound <==> forall k :: 0 <= k < |old(entries)| ==> old(entries)[k].id != entryId
      ensures outcome != NotFound ==> EntryPos(old(entries), entryId) < |old(entries)|
      ensures outcome == Denied <==>
        outcome != NotFound && old(entries)[EntryPos(old(entries), entryId)].owner != requester
      ensures outcome == Blank ==> IsBlank(text)
      ensures outcome != Updated ==>
        entries == old(entries) && tags == old(tags)
        && nextEntryId == old(nextEntryId) && nextTagId == old(nextTagId)
      ensures outcome == Updated ==>
        var i := EntryPos(old(entries), entryId);
        && nextEntryId == old(nextEntryId)
        && !IsBlank(text)
        && |entries| == |old(entries)|
        && (forall k :: 0 <= k < |entries| && k != i ==> entries[k] == old(entries)[k])
        && entries[i].id == entryId && entries[i].owner == requester && entries[i].day == old(entries)[i].day
        && entries[i].mood == mood
        && TextOf(key, entries[i]) == text
        && Attached(tags, ParseTags(tagsArg), entries[i].tagIds)
      ensures old(tags) <= tags
      ensures forall j :: |old(tags)| <= j < |tags| ==> tags[j].name in ParseTags(tagsArg)
    {
      var i := EntryPos(entries, entryId);
      if i == |entries| {
        return NotFound;
      }
      if entries[i].owner != requester {
        return Denied;
      }
      if Strip(text) == [] {
        return Blank;
      }
      var edited := entries[i].(payload := Encrypt(key, text, wire), mood := mood, tagIds := []);
      var names := ParseTags(tagsArg);
      var ids := AttachTags(names);
      var updated := edited.(tagIds := edited.tagIds + ids);
      assert updated.tagIds == ids;
      assert TextOf(key, updated) == text;
      SetEntry(i, updated);
      outcome := Updated;
    }
  }

  /** A name that no tag has, appended at the end, is found there. */
  lemma {:induction false} FindTagNew(tags: seq<Tag>, t: Tag)
    requires FindTag(tags, t.name).None?
    ensures FindTag(tags + [t], t.name) == Some(t)
  {
    if tags != [] {
      assert (tags + [t])[1..] == tags[1..] + [t];
      FindTagNew(tags[1..], t);
    }
  }

  /** Lookups that succeed keep their answers when tags are added at the
      end of the table. */
  lemma AttachedExtends(before: seq<Tag>, after: seq<Tag>, names: seq<string>, ids: seq<int>)
    requires before <= after
    requires Attached(before, names, ids)
    ensures Attached(after, names, ids)
  {
    forall k | 0 <= k < |names|
      ensures FindTag(after, names[k]) == Some(Tag(ids[k], names[k]))
    {
      FindTagAppend(before, after[|before|..], names[k]);
      assert before + after[|before|..] == after;
    }
  }

  /** A prefix one longer is the prefix followed by the next element. */
  lemma PrefixSnoc<T>(s: seq<T>, i: int)
    requires 0 <= i < |s|
    ensures s[..i + 1] == s[..i] + [s[i]]
  {
  }

  /** Tags appended under `names[i]` after tags appended under names of
      the list keep every appended tag named from the list. */
  lemma NewNamesExtend(t0: seq<Tag>, before: seq<Tag>, after: seq<Tag>, names: seq<string>, i: int)
    requires 0 <= i < |names|
    requires t0 <= before <= after
    requires forall j :: |t0| <= j < |before| ==> before[j].name in names
    requires forall j :: |before| <= j < |after| ==> after[j].name == names[i]
    ensures t0 <= after
    ensures forall j :: |t0| <= j < |after| ==> after[j].name in names
  {
    forall j | |t0| <= j < |after| ensures after[j].name in names {
      if j < |before| {
        assert after[j] == before[j];
      }
    }
  }

  /** One more name, whose tag is found, extends the attached ids by that
      tag's id. */
  lemma AttachedSnoc(tags: seq<Tag>, names: seq<string>, ids: seq<int>, t: Tag)
    requires Attached(tags, names, ids)
    requires FindTag(tags, t.name) == Some(t)
    ensures Attached(tags, names + [t.name], ids + [t.id])
  {
    var names', ids' := names + [t.name], ids + [t.id];
    forall k | 0 <= k < |names'|
      ensures FindTag(tags, names'[k]) == Some(Tag(ids'[k], names'[k]))
    {
      if k < |names| {
        assert names'[k] == names[k] && ids'[k] == ids[k];
      }
    }
  }
}
