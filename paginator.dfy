/** `paginate_by_words`: pages measured in words rather than entries. The
    entries' words are flattened into one list tagged with their entry id,
    the requested page is clamped into range, its window of words is cut
    out and regrouped by entry in first-occurrence order. */
module Paginator {
  import opened Text
  import opened Cipher
  import opened Entries

  /** One element of `all_words`: a word and the id of its entry. */
  datatype Tagged = Tagged(entryId: int, word: string)

  /** One value of `grouped_entries`: an entry and its words on the page. */
  datatype Group = Group(entry: Entry, words: seq<string>)

  /** The `pagination` record. */
  datatype Pagination = Pagination(
    page: int,
    pages: int,
    hasPrev: bool,
    hasNext: bool,
    prevNum: int,
    nextNum: int)

  function Max(a: int, b: int): int { if a < b then b else a }

  function Min(a: int, b: int): int { if a < b then a else b }

  // ------------------------------------------------------------ flattening

  /** The words `ws` of entry `id`, each tagged with `id`. */
  function Label(id: int, ws: seq<string>): (r: seq<Tagged>)
    ensures |r| == |ws|
    ensures forall k :: 0 <= k < |r| ==> r[k] == Tagged(id, ws[k])
  {
    if ws == [] then [] else Label(id, ws[..|ws| - 1]) + [Tagged(id, ws[|ws| - 1])]
  }

  /** `all_words`: the words of every entry, entry by entry and word by word
      within an entry, each tagged with its entry's id. */
  function FlatWords(key: Key, es: seq<Entry>): seq<Tagged>
  {
    if es == [] then []
    else
      var e := es[|es| - 1];
      FlatWords(key, es[..|es| - 1]) + Label(e.id, Words(TextOf(key, e)))
  }

  /** `all_entries_dict`: each id to the last entry that carries it. */
  function EntryIndex(es: seq<Entry>): (m: map<int, Entry>)
    ensures forall k :: 0 <= k < |es| ==> es[k].id in m
    ensures forall id :: id in m ==> m[id].id == id && m[id] in es
  {
    if es == [] then map[]
    else
      var e := es[|es| - 1];
      var m := EntryIndex(es[..|es| - 1]);
      assert forall k :: 0 <= k < |es| - 1 ==> es[k] == es[..|es| - 1][k];
      m[e.id := e]
  }

  /** The index keys each entry under its own id. */
  predicate WellKeyed(index: map<int, Entry>)
  {
    forall id :: id in index ==> index[id].id == id
  }

  /** Every word is tagged with the id of an entry of the index. */
  predicate Indexed(ts: seq<Tagged>, index: map<int, Entry>)
  {
    forall k :: 0 <= k < |ts| ==> ts[k].entryId in index
  }

  /** Every word of `all_words` belongs to an entry of `all_entries_dict`,
      so the lookup `all_entries_dict[entry_id]` never fails. */
  lemma {:induction false} FlatWordsIndexed(key: Key, es: seq<Entry>)
    ensures Indexed(FlatWords(key, es), EntryIndex(es))
  {
    if es != [] {
      var init, e := es[..|es| - 1], es[|es| - 1];
      FlatWordsIndexed(key, init);
      var f := FlatWords(key, es);
      forall k | 0 <= k < |f| ensures f[k].entryId in EntryIndex(es) {
        if k < |FlatWords(key, init)| {
          assert f[k] == FlatWords(key, init)[k];
        }
      }
    }
  }

  /** The loops at the top of `paginate_by_words`: build `all_words` and
      `all_entries_dict` in one pass over the entries. */
  method Flatten(key: Key, entries: seq<Entry>) returns (allWords: seq<Tagged>, index: map<int, Entry>)
    ensures allWords == FlatWords(key, entries)
    ensures index == EntryIndex(entries)
  {
    allWords, index := [], map[];
    for i := 0 to |entries|
      invariant allWords == FlatWords(key, entries[..i])
      invariant index == EntryIndex(entries[..i])
    {
      var entry := entries[i];
      index := index[entry.id := entry];
      var words := Words(TextOf(key, entry));
      for j := 0 to |words|
        invariant allWords == FlatWords(key, entries[..i]) + Label(entry.id, words[..j])
      {
        LabelPrefix(entry.id, words, j);
        allWords := allWords + [Tagged(entry.id, words[j])];
      }
      assert words[..|words|] == words;
      FlattenPrefix(key, entries, i);
    }
    assert entries[..|entries|] == entries;
  }

  /** Labelling one more word of `ws` appends that word. */
  lemma LabelPrefix(id: int, ws: seq<string>, j: int)
    requires 0 <= j < |ws|
    ensures Label(id, ws[..j + 1]) == Label(id, ws[..j]) + [Tagged(id, ws[j])]
  {
    assert ws[..j + 1][..j] == ws[..j];
  }

  /** One more entry appends its labelled words and its index entry. */
  lemma FlattenPrefix(key: Key, es: seq<Entry>, i: int)
    requires 0 <= i < |es|
    ensures FlatWords(key, es[..i + 1]) == FlatWords(key, es[..i]) + Label(es[i].id, Words(TextOf(key, es[i])))
    ensures EntryIndex(es[..i + 1]) == EntryIndex(es[..i])[es[i].id := es[i]]
  {
    assert es[..i + 1][..i] == es[..i];
  }

  // ------------------------------------------------------------ page arithmetic

  /** `total_pages`: the ceiling of `totalWords / wordsPerPage`, at least 1.
      It is the least page count that holds every word, and 1 when there
      are no words. */
  function PageCount(totalWords: nat, wordsPerPage: int): (n: int)
    requires wordsPerPage > 0
    ensures n >= 1
    ensures totalWords <= n * wordsPerPage
    ensures n == 1 || (n - 1) * wordsPerPage < totalWords
  {
    var q := (totalWords + wordsPerPage - 1) / wordsPerPage;
    assert q * wordsPerPage + (totalWords + wordsPerPage - 1) % wordsPerPage
      == totalWords + wordsPerPage - 1;
    assert (q - 1) * wordsPerPage == q * wordsPerPage - wordsPerPage;
    Max(1, q)
  }

  /** The requested page clamped into `[1, pages]`: a page in range is kept,
      one below is raised to the first page and one above lowered to the
      last, and nothing is rejected. */
  function ClampPage(page: int, pages: int): (p: int)
    requires pages >= 1
    ensures 1 <= p <= pages
    ensures 1 <= page <= pages ==> p == page
    ensures page < 1 ==> p == 1
    ensures page > pages ==> p == pages
  {
    Max(1, Min(page, pages))
  }

  /** `start_idx` of a page. */
  function PageStart(page: int, wordsPerPage: int): int
  {
    (page - 1) * wordsPerPage
  }

  /** `end_idx` of a page. */
  function PageEnd(totalWords: nat, page: int, wordsPerPage: int): int
  {
    Min(PageStart(page, wordsPerPage) + wordsPerPage, totalWords)
  }

  /** For a page in range the slice bounds are valid; a page holds at most
      `wordsPerPage` words, exactly that many unless it is the last page,
      and at least one word whenever there is any. */
  lemma PageBounds(totalWords: nat, page: int, wordsPerPage: int)
    requires wordsPerPage > 0
    requires 1 <= page <= PageCount(totalWords, wordsPerPage)
    ensures 0 <= PageStart(page, wordsPerPage) <= PageEnd(totalWords, page, wordsPerPage) <= totalWords
    ensures PageEnd(totalWords, page, wordsPerPage) - PageStart(page, wordsPerPage) <= wordsPerPage
    ensures page < PageCount(totalWords, wordsPerPage) ==>
      PageEnd(totalWords, page, wordsPerPage) - PageStart(page, wordsPerPage) == wordsPerPage
    ensures totalWords > 0 ==> PageStart(page, wordsPerPage) < PageEnd(totalWords, page, wordsPerPage)
  {
    var n := PageCount(totalWords, wordsPerPage);
    MulMonotone(page - 1, n - 1, wordsPerPage);
    if page < n {
      MulMonotone(page, n - 1, wordsPerPage);
      assert page * wordsPerPage == PageStart(page, wordsPerPage) + wordsPerPage;
    }
  }

  lemma MulMonotone(a: int, b: int, c: int)
    requires 0 <= a <= b && c >= 0
    ensures a * c <= b * c
  {
  }

  /** `page_words`: the words of a page in range. */
  function Window(all: seq<Tagged>, page: int, wordsPerPage: int): (w: seq<Tagged>)
    requires wordsPerPage > 0
    requires 1 <= page <= PageCount(|all|, wordsPerPage)
  {
    PageBounds(|all|, page, wordsPerPage);
    all[PageStart(page, wordsPerPage)..PageEnd(|all|, page, wordsPerPage)]
  }

  /** The windows of pages `1..k` one after the other. */
  function PagesUpTo(all: seq<Tagged>, wordsPerPage: int, k: int): seq<Tagged>
    requires wordsPerPage > 0
    requires 0 <= k <= PageCount(|all|, wordsPerPage)
  {
    if k == 0 then [] else PagesUpTo(all, wordsPerPage, k - 1) + Window(all, k, wordsPerPage)
  }

  /** The pages tile the word list: read one after the other, pages `1` to
      `total_pages` give back every word, in order, once. */
  lemma PagesTile(all: seq<Tagged>, wordsPerPage: int)
    requires wordsPerPage > 0
    ensures PagesUpTo(all, wordsPerPage, PageCount(|all|, wordsPerPage)) == all
  {
    var n := PageCount(|all|, wordsPerPage);
    PagesPrefix(all, wordsPerPage, n);
    assert PageEnd(|all|, n, wordsPerPage) == |all|;
    assert all[..|all|] == all;
  }

  /** Pages `1..k` are the words before the end of page `k`. */
  lemma {:induction false} PagesPrefix(all: seq<Tagged>, wordsPerPage: int, k: int)
    requires wordsPerPage > 0
    requires 1 <= k <= PageCount(|all|, wordsPerPage)
    ensures PageEnd(|all|, k, wordsPerPage) <= |all|
    ensures PagesUpTo(all, wordsPerPage, k) == all[..PageEnd(|all|, k, wordsPerPage)]
  {
    PageBounds(|all|, k, wordsPerPage);
    if k == 1 {
      assert PagesUpTo(all, wordsPerPage, 0) == [];
    } else {
      PagesPrefix(all, wordsPerPage, k - 1);
      PagesMeet(|all|, wordsPerPage, k - 1);
      var e1, e2 := PageEnd(|all|, k - 1, wordsPerPage), PageEnd(|all|, k, wordsPerPage);
      assert all[..e1] + all[e1..e2] == all[..e2];
    }
  }

  /** Each page but the last ends where the next one starts. */
  lemma PagesMeet(totalWords: nat, wordsPerPage: int, p: int)
    requires wordsPerPage > 0
    requires 1 <= p < PageCount(totalWords, wordsPerPage)
    ensures PageEnd(totalWords, p, wordsPerPage) == PageStart(p + 1, wordsPerPage)
  {
    PageBounds(totalWords, p, wordsPerPage);
  }

  /** Distinct pages cover disjoint ranges of the word list: an earlier page
      ends no later than a later page starts. */
  lemma PagesDisjoint(totalWords: nat, wordsPerPage: int, p: int, q: int)
    requires wordsPerPage > 0
    requires 1 <= p < q <= PageCount(totalWords, wordsPerPage)
    ensures PageEnd(totalWords, p, wordsPerPage) <= PageStart(q, wordsPerPage)
  {
    MulMonotone(p, q - 1, wordsPerPage);
  }

  // ------------------------------------------------------------ regrouping

  /** Position of the group for `id` (`|gs|` when there is none): the
      `entry_id in grouped_entries` test and lookup. */
  function GroupPos(gs: seq<Group>, id: int): (k: nat)
    ensures k <= |gs|
    ensures k < |gs| ==> gs[k].entry.id == id
    ensures forall j :: 0 <= j < k ==> gs[j].entry.id != id
  {
    if gs == [] then 0
    else if gs[0].entry.id == id then 0
    else 1 + GroupPos(gs[1..], id)
  }

  /** One step of the regrouping loop: append the word to its entry's
      group, opening a new group at the end the first time the entry is
      met. */
  function AddWord(gs: seq<Group>, t: Tagged, index: map<int, Entry>): seq<Group>
    requires t.entryId in index
  {
    var k := GroupPos(gs, t.entryId);
    if k == |gs| then gs + [Group(index[t.entryId], [t.word])]
    else gs[k := gs[k].(words := gs[k].words + [t.word])]
  }

  /** `list(grouped_entries.values())` for the words `ts`. No group is
      empty and there are never more groups than words. */
  function Grouped(ts: seq<Tagged>, index: map<int, Entry>): (gs: seq<Group>)
    requires Indexed(ts, index)
    ensures |gs| <= |ts|
    ensures forall k :: 0 <= k < |gs| ==> gs[k].words != []
  {
    if ts == [] then []
    else AddWord(Grouped(ts[..|ts| - 1], index), ts[|ts| - 1], index)
  }


  /** The regrouping loop of `paginate_by_words`. */
  method GroupWords(pageWords: seq<Tagged>, index: map<int, Entry>) returns (groups: seq<Group>)
    requires Indexed(pageWords, index)
    ensures groups == Grouped(pageWords, index)
  {
    groups := [];
    for i := 0 to |pageWords|
      invariant groups == Grouped(pageWords[..i], index)
    {
      var t := pageWords[i];
      assert pageWords[..i + 1][..i] == pageWords[..i];
      ghost var before := groups;
      var k := GroupPos(groups, t.entryId);
      if k == |groups| {
        groups := groups + [Group(index[t.entryId], [])];
      }
      groups := groups[k := groups[k].(words := groups[k].words + [t.word])];
      assert groups == AddWord(before, t, index) by {
        if k == |before| {
          assert [] + [t.word] == [t.word];
        }
      }
    }
    assert pageWords[..|pageWords|] == pageWords;
  }

  function GroupIds(gs: seq<Group>): (ids: seq<int>)
    ensures |ids| == |gs|
    ensures forall k :: 0 <= k < |gs| ==> ids[k] == gs[k].entry.id
  {
    if gs == [] then [] else GroupIds(gs[..|gs| - 1]) + [gs[|gs| - 1].entry.id]
  }

  function TaggedIds(ts: seq<Tagged>): (ids: seq<int>)
    ensures |ids| == |ts|
    ensures forall k :: 0 <= k < |ts| ==> ids[k] == ts[k].entryId
  {
    if ts == [] then [] else TaggedIds(ts[..|ts| - 1]) + [ts[|ts| - 1].entryId]
  }

  function TaggedWords(ts: seq<Tagged>): (ws: seq<string>)
    ensures |ws| == |ts|
    ensures forall k :: 0 <= k < |ts| ==> ws[k] == ts[k].word
  {
    if ts == [] then [] else TaggedWords(ts[..|ts| - 1]) + [ts[|ts| - 1].word]
  }

  /** The words of `ts` that belong to entry `id`, in order. */
  function WordsOf(ts: seq<Tagged>, id: int): seq<string>
  {
    if ts == [] then []
    else
      var t := ts[|ts| - 1];
      WordsOf(ts[..|ts| - 1], id) + (if t.entryId == id then [t.word] else [])
  }

  /** The ids of `s` without repeats, each at its first occurrence. */
  function FirstOccurrences(s: seq<int>): seq<int>
  {
    if s == [] then []
    else
      var d := FirstOccurrences(s[..|s| - 1]);
      if s[|s| - 1] in d then d else d + [s[|s| - 1]]
  }

  lemma {:induction false} FirstOccurrencesMembers(s: seq<int>)
    ensures forall x :: x in FirstOccurrences(s) <==> x in s
  {
    if s != [] {
      FirstOccurrencesMembers(s[..|s| - 1]);
      assert s == s[..|s| - 1] + [s[|s| - 1]];
    }
  }

  /** The ids of no two groups are equal. */
  predicate DistinctGroups(gs: seq<Group>)
  {
    forall i, j :: 0 <= i < j < |gs| ==> gs[i].entry.id != gs[j].entry.id
  }

  /** One step of the regrouping, seen from the groups' ids: a known id
      changes nothing, a new one is appended. */
  lemma AddWordIds(gs: seq<Group>, t: Tagged, index: map<int, Entry>)
    requires t.entryId in index && WellKeyed(index)
    ensures var r := AddWord(gs, t, index);
      && (t.entryId in GroupIds(gs) ==> GroupIds(r) == GroupIds(gs))
      && (t.entryId !in GroupIds(gs) ==> GroupIds(r) == GroupIds(gs) + [t.entryId])
      && (DistinctGroups(gs) ==> DistinctGroups(r))
  {
    var k := GroupPos(gs, t.entryId);
    var r := AddWord(gs, t, index);
    if k < |gs| {
      assert t.entryId in GroupIds(gs);
      assert GroupIds(r) == GroupIds(gs);
    } else {
      assert t.entryId !in GroupIds(gs);
      assert GroupIds(r) == GroupIds(gs) + [t.entryId];
    }
  }

  /** The groups are keyed by distinct entry ids, in the order in which the
      ids first occur among the words. */
  lemma {:induction false} GroupedIds(ts: seq<Tagged>, index: map<int, Entry>)
    requires Indexed(ts, index) && WellKeyed(index)
    ensures DistinctGroups(Grouped(ts, index))
    ensures GroupIds(Grouped(ts, index)) == FirstOccurrences(TaggedIds(ts))
  {
    if ts != [] {
      var init, t := ts[..|ts| - 1], ts[|ts| - 1];
      assert Indexed(init, index);
      GroupedIds(init, index);
      FirstOccurrencesMembers(TaggedIds(init));
      assert TaggedIds(ts) == TaggedIds(init) + [t.entryId];
      AddWordIds(Grouped(init, index), t, index);
    }
  }

  /** The groups' ids are distinct and are the ids of the words. */
  lemma GroupedIdMembers(ts: seq<Tagged>, index: map<int, Entry>)
    requires Indexed(ts, index) && WellKeyed(index)
    ensures DistinctGroups(Grouped(ts, index))
    ensures forall id :: id in GroupIds(Grouped(ts, index)) <==> id in TaggedIds(ts)
  {
    GroupedIds(ts, index);
    FirstOccurrencesMembers(TaggedIds(ts));
  }

  /** Each group holds its entry as the index gives it, and exactly that
      entry's words among `ts`, in their order. */
  predicate HoldsWords(gs: seq<Group>, ts: seq<Tagged>, index: map<int, Entry>)
  {
    forall k :: 0 <= k < |gs| ==>
      && gs[k].entry.id in index
      && gs[k].entry == index[gs[k].entry.id]
      && gs[k].words == WordsOf(ts, gs[k].entry.id)
  }

  /** One step of the regrouping keeps every group holding its entry's
      words. */
  lemma AddWordContents(gs: seq<Group>, ts: seq<Tagged>, t: Tagged, index: map<int, Entry>)
    requires t.entryId in index && WellKeyed(index) && DistinctGroups(gs)
    requires HoldsWords(gs, ts, index)
    requires t.entryId !in GroupIds(gs) ==> WordsOf(ts, t.entryId) == []
    ensures HoldsWords(AddWord(gs, t, index), ts + [t], index)
  {
    var ts' := ts + [t];
    assert ts'[..|ts|] == ts;
    assert forall id :: WordsOf(ts', id) == WordsOf(ts, id) + (if t.entryId == id then [t.word] else []);
    var k := GroupPos(gs, t.entryId);
    if k == |gs| {
      assert t.entryId !in GroupIds(gs);
    }
  }

  /** Each group holds its entry as the index gives it, and exactly that
      entry's words, in their order. */
  lemma {:induction false} GroupedContents(ts: seq<Tagged>, index: map<int, Entry>)
    requires Indexed(ts, index) && WellKeyed(index)
    ensures HoldsWords(Grouped(ts, index), ts, index)
  {
    if ts != [] {
      var init, t := ts[..|ts| - 1], ts[|ts| - 1];
      assert Indexed(init, index);
      GroupedContents(init, index);
      GroupedIdMembers(init, index);
      var g0 := Grouped(init, index);
      if t.entryId !in GroupIds(g0) {
        assert t.entryId !in TaggedIds(init);
        WordsOfAbsent(init, t.entryId);
      }
      AddWordContents(g0, init, t, index);
      assert init + [t] == ts;
      assert Grouped(ts, index) == AddWord(g0, t, index);
      assert TaggedWords(ts) == TaggedWords(init) + [t.word];
    }
  }

  lemma {:induction false} WordsOfAbsent(ts: seq<Tagged>, id: int)
    requires id !in TaggedIds(ts)
    ensures WordsOf(ts, id) == []
  {
    if ts != [] {
      assert TaggedIds(ts) == TaggedIds(ts[..|ts| - 1]) + [ts[|ts| - 1].entryId];
      WordsOfAbsent(ts[..|ts| - 1], id);
    }
  }

  /** Each id occupies one contiguous run of the sequence. */
  predicate Contiguous(s: seq<int>)
  {
    forall i, j, k :: 0 <= i < j < k < |s| && s[i] == s[k] ==> s[j] == s[i]
  }

  /** All the words of the groups, group after group. */
  function GroupedWords(gs: seq<Group>): seq<string>
  {
    if gs == [] then [] else GroupedWords(gs[..|gs| - 1]) + gs[|gs| - 1].words
  }

  /** A word for the entry of the last group goes to the end of that group. */
  lemma AddWordToLast(gs: seq<Group>, t: Tagged, index: map<int, Entry>)
    requires t.entryId in index && DistinctGroups(gs)
    requires gs != [] && gs[|gs| - 1].entry.id == t.entryId
    ensures var r := AddWord(gs, t, index);
      && GroupedWords(r) == GroupedWords(gs) + [t.word]
      && r != [] && r[|r| - 1].entry.id == t.entryId
  {
    var n := |gs|;
    var k := GroupPos(gs, t.entryId);
    assert k == n - 1;
    var r := AddWord(gs, t, index);
    assert r[..n - 1] == gs[..n - 1];
  }

  /** A word for an entry without a group opens a new group at the end. */
  lemma AddWordToNew(gs: seq<Group>, t: Tagged, index: map<int, Entry>)
    requires t.entryId in index && WellKeyed(index)
    requires t.entryId !in GroupIds(gs)
    ensures var r := AddWord(gs, t, index);
      && GroupedWords(r) == GroupedWords(gs) + [t.word]
      && r != [] && r[|r| - 1].entry.id == t.entryId
  {
    var r := AddWord(gs, t, index);
    assert GroupPos(gs, t.entryId) == |gs|;
    assert r[..|r| - 1] == gs;
  }

  /** When each entry's words form one run (as they do in a window of
      `all_words` over entries with distinct ids), regrouping loses and
      reorders nothing: the groups' words, group after group, are the
      window's words; and the last group is that of the last word. */
  lemma {:induction false} GroupedKeepsWords(ts: seq<Tagged>, index: map<int, Entry>)
    requires Indexed(ts, index) && WellKeyed(index)
    requires Contiguous(TaggedIds(ts))
    ensures var gs := Grouped(ts, index);
      && GroupedWords(gs) == TaggedWords(ts)
      && (ts != [] ==> gs != [] && gs[|gs| - 1].entry.id == ts[|ts| - 1].entryId)
  {
    if ts != [] {
      var init, t := ts[..|ts| - 1], ts[|ts| - 1];
      assert Indexed(init, index);
      TaggedIdsSlice(ts, 0, |ts| - 1);
      ContiguousSlice(TaggedIds(ts), 0, |ts| - 1);
      GroupedKeepsWords(init, index);
      KeepsWordsStep(ts, index);
      assert Grouped(ts, index) == AddWord(Grouped(init, index), t, index);
    }
  }

  /** One step of `GroupedKeepsWords`: in a contiguous sequence the last
      word goes either to the last group or to a new group at the end. */
  lemma KeepsWordsStep(ts: seq<Tagged>, index: map<int, Entry>)
    requires ts != [] && Indexed(ts, index) && WellKeyed(index)
    requires Contiguous(TaggedIds(ts))
    requires var init := ts[..|ts| - 1];
      init != [] ==> var g0 := Grouped(init, index);
        g0 != [] && g0[|g0| - 1].entry.id == init[|init| - 1].entryId
    ensures var init, t := ts[..|ts| - 1], ts[|ts| - 1];
      var r := AddWord(Grouped(init, index), t, index);
      && GroupedWords(r) == GroupedWords(Grouped(init, index)) + [t.word]
      && r != [] && r[|r| - 1].entry.id == t.entryId
  {
    var init, t := ts[..|ts| - 1], ts[|ts| - 1];
    assert Indexed(init, index);
    GroupedIdMembers(init, index);
    var g0 := Grouped(init, index);
    if init != [] && t.entryId == init[|init| - 1].entryId {
      AddWordToLast(g0, t, index);
    } else {
      NewRun(TaggedIds(ts));
      assert t.entryId !in TaggedIds(init);
      AddWordToNew(g0, t, index);
    }
  }

  /** In a contiguous sequence, an element that differs from its predecessor
      has not occurred before. */
  lemma NewRun(s: seq<int>)
    requires Contiguous(s) && |s| >= 1
    requires |s| >= 2 ==> s[|s| - 1] != s[|s| - 2]
    ensures s[|s| - 1] !in s[..|s| - 1]
  {
  }

  /** Over entries with distinct ids, `all_words` has each entry's words as
      one run, and so has any window of it. */
  lemma {:induction false} FlatWordsContiguous(key: Key, es: seq<Entry>)
    requires DistinctIds(es)
    ensures Contiguous(TaggedIds(FlatWords(key, es)))
  {
    if es != [] {
      var init, e := es[..|es| - 1], es[|es| - 1];
      FlatWordsContiguous(key, init);
      FlatWordsIndexed(key, init);
      var f0 := FlatWords(key, init);
      var run := Label(e.id, Words(TextOf(key, e)));
      assert e.id !in EntryIndex(init);
      assert e.id !in TaggedIds(f0);
      TaggedIdsAppend(f0, run);
      ContiguousAddRun(TaggedIds(f0), TaggedIds(run), e.id);
    }
  }

  /** A run of a value not met before keeps a sequence contiguous. */
  lemma ContiguousAddRun(a: seq<int>, b: seq<int>, x: int)
    requires Contiguous(a) && x !in a
    requires forall k :: 0 <= k < |b| ==> b[k] == x
    ensures Contiguous(a + b)
  {
    var s := a + b;
    forall i, j, k | 0 <= i < j < k < |s| && s[i] == s[k] ensures s[j] == s[i] {
      if k < |a| {
        assert s[i] == a[i] && s[j] == a[j] && s[k] == a[k];
      } else if |a| <= i {
        assert s[j] == x && s[i] == x;
      }
    }
  }

  lemma ContiguousSlice(s: seq<int>, a: int, b: int)
    requires 0 <= a <= b <= |s| && Contiguous(s)
    ensures Contiguous(s[a..b])
  {
    var t := s[a..b];
    forall i, j, k | 0 <= i < j < k < |t| && t[i] == t[k] ensures t[j] == t[i] {
      assert s[a + i] == s[a + k];
    }
  }

  lemma TaggedIdsAppend(a: seq<Tagged>, b: seq<Tagged>)
    ensures TaggedIds(a + b) == TaggedIds(a) + TaggedIds(b)
  {
  }

  lemma TaggedIdsSlice(ts: seq<Tagged>, a: int, b: int)
    requires 0 <= a <= b <= |ts|
    ensures TaggedIds(ts[a..b]) == TaggedIds(ts)[a..b]
  {
  }

  // ------------------------------------------------------------ the whole

  /** The pagination record for page `page` of `pages`. */
  function PaginationOf(page: int, pages: int): Pagination
  {
    Pagination(page, pages, page > 1, page < pages, page - 1, page + 1)
  }

  /** The page actually shown for a request of `page`. */
  function ShownPage(key: Key, entries: seq<Entry>, page: int, wordsPerPage: int): (p: int)
    requires wordsPerPage > 0
  {
    ClampPage(page, PageCount(|FlatWords(key, entries)|, wordsPerPage))
  }

  /** What `paginate_by_words(entries, page, words_per_page)` returns. */
  function Paginated(key: Key, entries: seq<Entry>, page: int, wordsPerPage: int): (seq<Group>, Pagination)
    requires wordsPerPage > 0
  {
    var all := FlatWords(key, entries);
    var n := PageCount(|all|, wordsPerPage);
    var p := ClampPage(page, n);
    FlatWordsIndexed(key, entries);
    PageBounds(|all|, p, wordsPerPage);
    (Grouped(Window(all, p, wordsPerPage), EntryIndex(entries)), PaginationOf(p, n))
  }

  /** `paginate_by_words`: flatten, count pages, clamp, slice, regroup. */
  method PaginateByWords(key: Key, entries: seq<Entry>, page: int, wordsPerPage: int)
    returns (groups: seq<Group>, info: Pagination)
    requires wordsPerPage > 0
    ensures (groups, info) == Paginated(key, entries, page, wordsPerPage)
    ensures info.pages == PageCount(|FlatWords(key, entries)|, wordsPerPage)
    ensures 1 <= info.page <= info.pages
    ensures info.hasPrev <==> info.page > 1
    ensures info.hasNext <==> info.page < info.pages
    ensures info.prevNum == info.page - 1 && info.nextNum == info.page + 1
  {
    var allWords, index := Flatten(key, entries);
    var totalWords := |allWords|;
    var totalPages := PageCount(totalWords, wordsPerPage);
    var p := ClampPage(page, totalPages);
    var startIdx := PageStart(p, wordsPerPage);
    var endIdx := PageEnd(totalWords, p, wordsPerPage);
    WindowIsSlice(allWords, p, wordsPerPage);
    var pageWords := allWords[startIdx..endIdx];
    FlatWordsIndexed(key, entries);
    groups := GroupWords(pageWords, index);
    info := Pagination(p, totalPages, p > 1, p < totalPages, p - 1, p + 1);
  }

  /** The slice `all_words[start_idx:end_idx]` of a page in range is within
      bounds and is that page's window. */
  lemma WindowIsSlice(all: seq<Tagged>, p: int, wordsPerPage: int)
    requires wordsPerPage > 0
    requires 1 <= p <= PageCount(|all|, wordsPerPage)
    ensures 0 <= PageStart(p, wordsPerPage) <= PageEnd(|all|, p, wordsPerPage) <= |all|
    ensures Window(all, p, wordsPerPage) == all[PageStart(p, wordsPerPage)..PageEnd(|all|, p, wordsPerPage)]
  {
    PageBounds(|all|, p, wordsPerPage);
  }

  /** With no words at all (no entries, or only blank ones) there is one
      page, it is empty, and neither neighbour exists; whatever page was
      asked for. */
  lemma PaginatedNoWords(key: Key, entries: seq<Entry>, page: int, wordsPerPage: int)
    requires wordsPerPage > 0
    requires FlatWords(key, entries) == []
    ensures Paginated(key, entries, page, wordsPerPage) == ([], Pagination(1, 1, false, false, 0, 2))
  {
    assert (wordsPerPage - 1) / wordsPerPage == 0;
    assert PageCount(0, wordsPerPage) == 1;
    assert Window([], 1, wordsPerPage) == [];
  }

  /** Any window of a word list whose entries form runs regroups into
      groups that name each entry once, carry the index's entries, and hold
      the window's words in order. */
  lemma WindowGroups(all: seq<Tagged>, index: map<int, Entry>, a: int, b: int)
    requires 0 <= a <= b <= |all|
    requires Indexed(all, index) && WellKeyed(index) && Contiguous(TaggedIds(all))
    ensures Indexed(all[a..b], index)
    ensures var gs := Grouped(all[a..b], index);
      && DistinctGroups(gs)
      && (forall k :: 0 <= k < |gs| ==> gs[k].entry.id in index && gs[k].entry == index[gs[k].entry.id])
      && GroupedWords(gs) == TaggedWords(all[a..b])
  {
    var w := all[a..b];
    assert forall k :: 0 <= k < |w| ==> w[k] == all[a + k];
    ContiguousSlice(TaggedIds(all), a, b);
    TaggedIdsSlice(all, a, b);
    GroupedIds(w, index);
    GroupedContents(w, index);
    GroupedKeepsWords(w, index);
  }

  /** Over entries with distinct ids, the groups of the shown page name each
      entry at most once and carry the entries themselves, and together
      they hold exactly the page's window of words, in order. */
  lemma PaginatedPage(key: Key, entries: seq<Entry>, page: int, wordsPerPage: int)
    requires wordsPerPage > 0
    requires DistinctIds(entries)
    ensures var gs := Paginated(key, entries, page, wordsPerPage).0;
      && DistinctGroups(gs)
      && (forall k :: 0 <= k < |gs| ==> gs[k].entry in entries)
      && GroupedWords(gs) == TaggedWords(Window(FlatWords(key, entries), ShownPage(key, entries, page, wordsPerPage), wordsPerPage))
  {
    var all := FlatWords(key, entries);
    var p := ShownPage(key, entries, page, wordsPerPage);
    var index := EntryIndex(entries);
    FlatWordsIndexed(key, entries);
    FlatWordsContiguous(key, entries);
    PageBounds(|all|, p, wordsPerPage);
    var a, b := PageStart(p, wordsPerPage), PageEnd(|all|, p, wordsPerPage);
    WindowGroups(all, index, a, b);
    assert Window(all, p, wordsPerPage) == all[a..b];
    assert Paginated(key, entries, page, wordsPerPage).0 == Grouped(all[a..b], index);
  }
}
