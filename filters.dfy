/** The filtering half of the `journal` GET request: the owner's entries,
    narrowed by tag and by day in the database, then by keyword in memory
    on the decrypted text. The database's rows are a sequence here, in the
    order the query returns them (newest first); every filter keeps that
    order. */
module Filters {
  import opened Text
  import opened Cipher
  import opened Entries

  /** `r` is `s` with some elements left out, the rest in their order. */
  predicate IsSubsequence<T(==)>(r: seq<T>, s: seq<T>)
    decreases |s|
  {
    r == [] || (s != [] && (IsSubsequence(r, s[1..]) || (r[0] == s[0] && IsSubsequence(r[1..], s[1..]))))
  }

  /** Every element of a subsequence is an element of the whole. */
  lemma {:induction false} SubsequenceMembers<T>(r: seq<T>, s: seq<T>)
    requires IsSubsequence(r, s)
    ensures forall k :: 0 <= k < |r| ==> r[k] in s
    decreases |s|
  {
    if r != [] {
      if IsSubsequence(r, s[1..]) {
        SubsequenceMembers(r, s[1..]);
      } else {
        SubsequenceMembers(r[1..], s[1..]);
        forall k | 0 <= k < |r| ensures r[k] in s {
          if k > 0 {
            assert r[k] == r[1..][k - 1];
          }
        }
      }
    }
  }

  /** Rows picked out of rows with distinct ids have distinct ids. */
  lemma {:induction false} SubsequenceDistinctIds(r: seq<Entry>, s: seq<Entry>)
    requires IsSubsequence(r, s) && DistinctIds(s)
    ensures DistinctIds(r)
    decreases |s|
  {
    if r != [] {
      assert DistinctIds(s[1..]);
      if IsSubsequence(r, s[1..]) {
        SubsequenceDistinctIds(r, s[1..]);
      } else {
        SubsequenceDistinctIds(r[1..], s[1..]);
        SubsequenceMembers(r[1..], s[1..]);
        forall i, j | 0 <= i < j < |r| ensures r[i].id != r[j].id {
          assert r[j] == r[1..][j - 1];
          if i > 0 {
            assert r[i] == r[1..][i - 1];
          } else {
            var m :| 0 <= m < |s[1..]| && s[1..][m] == r[j];
            assert s[m + 1] == r[j];
          }
        }
      }
    }
  }

  /** Leaving out elements twice is leaving out elements once. */
  lemma {:induction false} SubsequenceTransitive<T>(a: seq<T>, b: seq<T>, c: seq<T>)
    requires IsSubsequence(a, b) && IsSubsequence(b, c)
    ensures IsSubsequence(a, c)
    decreases |c|
  {
    if a != [] {
      if IsSubsequence(b, c[1..]) {
        SubsequenceTransitive(a, b, c[1..]);
      } else if IsSubsequence(a, b[1..]) {
        SubsequenceTransitive(a, b[1..], c[1..]);
      } else {
        SubsequenceTransitive(a[1..], b[1..], c[1..]);
      }
    }
  }

  /** The elements of `s` that satisfy `p`, in their order: a list
      comprehension with a condition, or a SQL `WHERE`. It keeps every
      occurrence of a selected element and nothing else. */
  function Filter<T(==, !new)>(s: seq<T>, p: T -> bool): (r: seq<T>)
    ensures IsSubsequence(r, s)
    ensures forall x :: multiset(r)[x] == if p(x) then multiset(s)[x] else 0
    ensures forall x :: x in r <==> x in s && p(x)
  {
    if s == [] then []
    else
      var rest := Filter(s[1..], p);
      assert s == [s[0]] + s[1..];
      if p(s[0]) then
        var r := [s[0]] + rest;
        assert r[1..] == rest;
        r
      else rest
  }

  /** The first tag called `name`: `Tag.query.filter_by(nom=name).first()`. */
  function FindTag(tags: seq<Tag>, name: string): (r: Option<Tag>)
    ensures r.Some? ==> r.value in tags && r.value.name == name
    ensures r.None? ==> forall k :: 0 <= k < |tags| ==> tags[k].name != name
  {
    if tags == [] then None
    else if tags[0].name == name then Some(tags[0])
    else FindTag(tags[1..], name)
  }

  /** A lookup that succeeds keeps its answer when rows are added after the
      ones searched: the first match stays the first. */
  lemma {:induction false} FindTagAppend(tags: seq<Tag>, more: seq<Tag>, name: string)
    requires FindTag(tags, name).Some?
    ensures FindTag(tags + more, name) == FindTag(tags, name)
  {
    if tags[0].name != name {
      assert (tags + more)[1..] == tags[1..] + more;
      FindTagAppend(tags[1..], more, name);
    }
  }

  /** The SQL half, owner and tag (app.py lines 389-396): with a tag name,
      the owner's entries carrying the tag of that name, or no entries at
      all when no tag has that name; without one, all the owner's
      entries. */
  function Candidates(es: seq<Entry>, tags: seq<Tag>, owner: int, tagName: string): seq<Entry>
  {
    if tagName != [] then
      match FindTag(tags, tagName)
      case Some(t) => Filter(es, (e: Entry) => e.owner == owner && t.id in e.tagIds)
      case None => []
    else Filter(es, (e: Entry) => e.owner == owner)
  }

  /** The date filter, for a date that parsed (a date that does not parse is
      reported and the filter dropped, which the caller expresses as
      `None`). */
  function OnDay(es: seq<Entry>, day: Option<int>): seq<Entry>
  {
    match day
    case Some(d) => Filter(es, (e: Entry) => e.day == d)
    case None => es
  }

  /** The entry's decrypted text contains the keyword, ignoring case. */
  predicate MatchesKeyword(key: Key, e: Entry, keyword: string)
  {
    Contains(Lower(TextOf(key, e)), Lower(keyword))
  }

  /** `[e for e in entries if mot_cle.lower() in e.texte.lower()]`. */
  function KeywordFilter(key: Key, es: seq<Entry>, keyword: string): seq<Entry>
  {
    Filter(es, (e: Entry) => MatchesKeyword(key, e, keyword))
  }

  /** The entries the `journal` page lists for `owner`, before pagination.
      The keyword and tag arguments are stripped first; an empty one means
      no filter. */
  function JournalQuery(
    key: Key, es: seq<Entry>, tags: seq<Tag>, owner: int,
    keywordArg: string, day: Option<int>, tagArg: string): seq<Entry>
  {
    var keyword := Strip(keywordArg);
    var tagName := Strip(tagArg);
    var rows := OnDay(Candidates(es, tags, owner, tagName), day);
    if keyword != [] then KeywordFilter(key, rows, keyword) else rows
  }

  /** What an entry must satisfy to be listed, stated filter by filter:
      it is the owner's; it carries the tag named (when one is named, and
      a tag of that name must exist); it was written on the day given (when
      one is); and its text contains the keyword regardless of case (when
      one is given). */
  predicate Selected(
    key: Key, tags: seq<Tag>, owner: int, keyword: string, day: Option<int>,
    tagName: string, e: Entry)
  {
    && e.owner == owner
    && (tagName != [] ==> FindTag(tags, tagName).Some? && FindTag(tags, tagName).value.id in e.tagIds)
    && (day.Some? ==> e.day == day.value)
    && (keyword != [] ==> MatchesKeyword(key, e, keyword))
  }

  /** The owner and tag part of `Selected`. */
  predicate OwnedAndTagged(tags: seq<Tag>, owner: int, tagName: string, e: Entry)
  {
    && e.owner == owner
    && (tagName != [] ==> FindTag(tags, tagName).Some? && FindTag(tags, tagName).value.id in e.tagIds)
  }

  lemma CandidatesSelect(es: seq<Entry>, tags: seq<Tag>, owner: int, tagName: string)
    ensures var c := Candidates(es, tags, owner, tagName);
      && IsSubsequence(c, es)
      && forall e :: multiset(c)[e] == if OwnedAndTagged(tags, owner, tagName, e) then multiset(es)[e] else 0
  {
  }

  lemma OnDaySelects(es: seq<Entry>, day: Option<int>)
    ensures var d := OnDay(es, day);
      && IsSubsequence(d, es)
      && forall e :: multiset(d)[e] == if day.Some? ==> e.day == day.value then multiset(es)[e] else 0
  {
    if day.None? {
      SubsequenceReflexive(es);
    }
  }

  lemma {:induction false} SubsequenceReflexive<T>(s: seq<T>)
    ensures IsSubsequence(s, s)
  {
    if s != [] {
      SubsequenceReflexive(s[1..]);
    }
  }

  /** The query lists exactly the selected entries, each as often as it is
      stored, in the stored order. */
  lemma JournalQuerySelects(
    key: Key, es: seq<Entry>, tags: seq<Tag>, owner: int,
    keywordArg: string, day: Option<int>, tagArg: string)
    ensures var r := JournalQuery(key, es, tags, owner, keywordArg, day, tagArg);
      && IsSubsequence(r, es)
      && forall e :: multiset(r)[e] ==
           if Selected(key, tags, owner, Strip(keywordArg), day, Strip(tagArg), e) then multiset(es)[e] else 0
  {
    var keyword, tagName := Strip(keywordArg), Strip(tagArg);
    var c := Candidates(es, tags, owner, tagName);
    var d := OnDay(c, day);
    var r := JournalQuery(key, es, tags, owner, keywordArg, day, tagArg);
    CandidatesSelect(es, tags, owner, tagName);
    OnDaySelects(c, day);
    SubsequenceTransitive(d, c, es);
    if keyword != [] {
      assert r == KeywordFilter(key, d, keyword);
      SubsequenceTransitive(r, d, es);
    } else {
      assert r == d;
    }
  }

  /** A tag name that names no tag selects nothing (rather than everything). */
  lemma UnknownTagSelectsNothing(
    key: Key, es: seq<Entry>, tags: seq<Tag>, owner: int,
    keywordArg: string, day: Option<int>, tagArg: string)
    requires Strip(tagArg) != []
    requires forall k :: 0 <= k < |tags| ==> tags[k].name != Strip(tagArg)
    ensures JournalQuery(key, es, tags, owner, keywordArg, day, tagArg) == []
  {
    var tagName := Strip(tagArg);
    assert FindTag(tags, tagName).None?;
  }

  /** Filtering on a condition every element meets changes nothing. */
  lemma {:induction false} FilterAll<T(!new)>(s: seq<T>, p: T -> bool)
    requires forall k :: 0 <= k < |s| ==> p(s[k])
    ensures Filter(s, p) == s
  {
    if s != [] {
      FilterAll(s[1..], p);
    }
  }

  /** An empty keyword keeps every entry: the substring test is then always
      true, so skipping the filter for it loses nothing. */
  lemma KeywordEmpty(key: Key, es: seq<Entry>)
    ensures KeywordFilter(key, es, []) == es
  {
    forall k | 0 <= k < |es| ensures MatchesKeyword(key, es[k], []) {
      assert Lower([]) == [];
      ContainsEmpty(Lower(TextOf(key, es[k])));
    }
    FilterAll(es, (e: Entry) => MatchesKeyword(key, e, []));
  }

  /** The keyword match ignores case on both sides: a keyword and its
      lower-case form select the same entries. */
  lemma KeywordIgnoresCase(key: Key, e: Entry, keyword: string)
    ensures MatchesKeyword(key, e, keyword) <==> MatchesKeyword(key, e, Lower(keyword))
  {
    LowerIdempotent(keyword);
  }

  /** "Hello World" matches the keyword "world". */
  lemma KeywordExample(key: Key, e: Entry)
    requires TextOf(key, e) == "Hello World"
    ensures MatchesKeyword(key, e, "world")
  {
    assert Lower("Hello World") == "hello world";
    assert Lower("world") == "world";
    assert OccursAt("hello world", "world", 6);
    ContainsIff("hello world", "world");
  }
}
