# Encrypted journal: word pagination, search filters and tags

A model, in Dafny, of the pagination, search and tag logic of a Flask
diary application (`app.py`).
Users write journal entries. Each entry's text is stored encrypted. Entries
carry a mood and free-form tags. The journal page lists a user's entries
filtered by tag, by day and by keyword, and pages them by word count
rather than by entry count.

The model has six modules:

- `Text`: the Python string operations this logic relies on. These are
  `isspace`, `strip()`, `split()` on whitespace, `split(',')`, `lower()`
  and the substring test `in`.
- `Cipher`: the `texte` column. A stored value is either a token that a
  key made from a plaintext, or raw text. Decryption is total: a value it
  cannot open comes back as its stored text.
- `Entries`: the rows. An entry has an id, an owner, a day, a mood, an
  encrypted payload and a list of tag ids. A tag has an id and a name.
  `TextOf` is the `texte` getter (app.py:87-92): it decrypts the entry's
  payload with `Decrypt`, whose row below states what it returns.
- `Paginator`: `paginate_by_words` (app.py:119-175). It flattens the
  entries into `(entry id, word)` pairs, counts the pages, clamps the
  requested page, cuts out that page's window of words and regroups it by
  entry.
  - `Flatten` and `GroupWords` are methods that keep the source's loops
    (app.py:132-141 and 156-163). `PaginateByWords` is the method that
    runs the whole procedure and calls both.
  - Each method is proved equal to a specification function: `FlatWords`,
    `Grouped` and `Paginated`, respectively.
  - `Window` is the slice `all_words[start_idx:end_idx]` (app.py:153).
    `WindowIsSlice` and `PageBounds` state its bounds, and `PagesTile`
    and `PagesDisjoint` state how the windows cover the words.
  - The lemmas state what those functions promise.
- `Filters`: the `journal` GET request's filters (app.py:384-412). Database
  rows are a sequence in the order the query returns them. Each filter
  keeps an order-preserving subsequence.
  - `Candidates` is the query on owner and tag (app.py:389-396).
    `UnknownTagSelectsNothing` states its unknown-tag case.
  - `OnDay` is the date filter (app.py:399-404).
  - `MatchesKeyword` and `KeywordFilter` are the keyword comprehension
    (app.py:410-412). `KeywordEmpty`, `KeywordIgnoresCase` and
    `KeywordExample` state what they do.
  - `JournalQuery` chains the three stages (app.py:384-412).
    `JournalQuerySelects` characterises its result against the
    independent predicate `Selected`.
- `Journal`: the write side, plus the whole page.
  - The tag field parser `ParseTags` (app.py:364 and 445).
  - A `Database` object whose `entries` and `tags` tables are sequences
    that its methods replace.
  - `get_or_create_tag`.
  - Creating an entry, and editing one (this clears the entry's tag list
    and rebuilds it).
  - `JournalPage` is the journal page at 200 words per page
    (app.py:415-417). `JournalPageShowsSelected` states what it shows.

Two points of `app.py` shape the model.

- An entry's `tags` is a list relationship over an association table
  with no key (app.py:37-40, 85). A field such as `"work, work"` therefore
  attaches the same tag twice, and the model's `tagIds` is a sequence
  that keeps repeats.
- Flatten and regroup are loops over the `entries` and `page_words` lists
  that fill dictionaries (app.py:132-163), and the model keeps them as
  loops.

## Model

| member | source | states |
|---|---|---|
| Text.Strip | app.py:341 | `strip()` returns a trimmed string no longer than its input; it is empty exactly when the input is all whitespace |
| Text.StripPadding | app.py:384-386 | whitespace around a trimmed core is removed and the core is returned unchanged |
| Text.StripTrimmed | app.py:364 | an already trimmed string is left unchanged by `strip()` |
| Text.Words | app.py:139 | every piece returned by `split()` is a non-empty word with no whitespace; no pieces exactly when the text is blank |
| Text.WordsOfJoin | app.py:139 | `split()` gives back any list of words joined by single spaces |
| Text.WordsKeepText | app.py:139 | the words, concatenated, are the text with its whitespace removed: `split()` drops no other character |
| Text.SplitOn | app.py:364 | `split(',')` returns at least one piece, no piece holds a comma, and joining the pieces with commas gives back the input |
| Text.SplitOnJoin | app.py:364 | `split(',')` gives back any comma-free pieces joined with commas |
| Text.LowerChar | app.py:411 | a capital letter is lowered to the letter 32 code points above it, the result is never upper case, and any other character is unchanged |
| Text.Lower | app.py:411-412 | `lower()` keeps the length and leaves no upper-case letter; a text without one comes back unchanged |
| Text.LowerIdempotent | app.py:411-412 | lower-casing twice is the same as lower-casing once |
| Text.ContainsIff | app.py:412 | the substring test holds exactly when the needle occurs at some index of the haystack |
| Text.ContainsEmpty | app.py:412 | the empty string occurs in every text |
| Cipher.Encrypt | app.py:94-96 | the setter's token decrypts, under the same key, to the plaintext it was given |
| Cipher.Decrypt | app.py:87-92 | the accessor returns the plaintext of a token made under the process key; anything else comes back as its stored text, and no error is raised |
| Paginator.Label | app.py:140-141 | each word of an entry is paired with that entry's id, in order |
| Paginator.EntryIndex | app.py:133-137 | every entry's id is a key of `all_entries_dict`, and each key maps to a stored entry with that id |
| Paginator.FlatWordsIndexed | app.py:135-160 | every word's entry id is in the dictionary, so the lookup `all_entries_dict[entry_id]` cannot fail |
| Paginator.Flatten | app.py:132-141 | the nested loops build exactly the flattened word list (entry order, then word order) and the id dictionary |
| Paginator.PageCount | app.py:144-145 | the page count is at least 1, the pages hold all the words, and there is no empty page beyond the first (ceiling division) |
| Paginator.ClampPage | app.py:148 | the shown page lies in `[1, pages]`; a page in range is kept, a low one becomes 1 and a high one becomes the last |
| Paginator.PageBounds | app.py:151-153 | the window bounds lie within the word list; a page holds at most `words_per_page` words, exactly that many on every page but the last, and at least one when there are words |
| Paginator.PagesTile | app.py:135-153 | the windows of pages 1 to the page count, concatenated in order, give back the flattened word list |
| Paginator.PagesDisjoint | app.py:151-153 | an earlier page's window ends before a later page's window starts |
| Paginator.Grouped | app.py:156-163 | regrouping yields no more groups than words, and no group is empty |
| Paginator.GroupWords | app.py:156-163 | the regrouping loop computes exactly `Grouped` of the page's words |
| Paginator.GroupedIds | app.py:156-163 | each entry id heads at most one group, and the groups follow the ids' first occurrences in the window |
| Paginator.GroupedContents | app.py:156-163 | each group carries the dictionary's entry for its id, and that id's words from the window, in order |
| Paginator.WindowIsSlice | app.py:151-153 | for a page in range, the slice `all_words[start_idx:end_idx]` is within bounds and is exactly that page's window |
| Paginator.WindowGroups | app.py:151-163 | regrouping a slice of the flattened words gives groups with distinct ids, each carrying the stored entry for its id, whose words concatenated are the slice's words |
| Paginator.KeepsWordsStep | app.py:156-163 | over a window in which each entry's words form one run, the next word joins the last group or opens a new group at the end, and the groups' words grow by that word |
| Paginator.GroupedKeepsWords | app.py:156-163 | when each entry's words are contiguous, the groups' words, concatenated, are the window's words unchanged |
| Paginator.FlatWordsContiguous | app.py:135-141 | over entries with distinct ids, each entry's words form one contiguous run of the flattened list |
| Paginator.PaginateByWords | app.py:119-175 | the procedure returns `Paginated`; the record has `1 <= page <= pages`, `has_prev` iff `page > 1`, `has_next` iff `page < pages`, and unclamped `prev_num`/`next_num` |
| Paginator.PaginatedNoWords | app.py:144-173 | with no words, the result is one empty page and neither neighbour exists, whatever page was asked for |
| Paginator.PaginatedPage | app.py:119-175 | over entries with distinct ids, the shown page's groups name each entry once, carry stored entries, and hold exactly the page's window of words in order |
| Filters.Filter | app.py:412 | a comprehension with a condition keeps an order-preserving subsequence holding every occurrence of a kept element and no other element |
| Filters.FindTag | app.py:390 | the lookup by name returns a stored tag with that name, or nothing when no tag has the name |
| Filters.FindTagAppend | app.py:344 | a name already found keeps its answer when tags are added after it |
| Filters.SubsequenceDistinctIds | app.py:407 | rows picked out of rows with distinct ids have distinct ids |
| Filters.JournalQuerySelects | app.py:384-412 | the filtered list is an order-preserving subsequence of the stored entries, holding exactly the entries that are the owner's, carry the named tag, fall on the given day and contain the keyword ignoring case |
| Filters.UnknownTagSelectsNothing | app.py:389-394 | a non-blank tag filter naming no tag selects no entry, not every entry |
| Filters.KeywordEmpty | app.py:410-412 | an empty keyword keeps every entry |
| Filters.KeywordIgnoresCase | app.py:410-412 | a keyword and its lower-case form select the same entries |
| Filters.KeywordExample | app.py:410-412 | an entry reading "Hello World" matches the keyword "world" |
| Journal.StripPieces | app.py:364 | the stripped non-blank pieces are no more than the pieces, and each is non-empty and trimmed |
| Journal.ParseTags | app.py:364 | every parsed tag name is non-empty, trimmed and holds no comma |
| Journal.ParseTagsOfJoin | app.py:364 | a list of tag names written with commas between them parses back to that list |
| Journal.ParseTagsOfSpacedJoin | app.py:445 | tag names written with a comma and a space between them parse back to the same names: the spaces after the commas are stripped |
| Journal.JournalPageShowsSelected | app.py:384-417 | every entry on the journal page is stored, shown as one block, and meets every filter of the request |
| Journal.EntryPos | app.py:430 | the lookup by id finds the first entry with that id, or reports that none has it |
| Journal.Database.constructor | app.py:37-85 | the tables start empty and the invariants hold |
| Journal.Database.GetOrCreateTag | app.py:340-349 | a blank name gives nothing and changes nothing. Otherwise the tag returned has the stripped name: an existing one leaves the table unchanged, a new one is appended with the next id. Tag names stay unique |
| Journal.Database.AttachTags | app.py:365-368 | each name gets the id of the tag with that name, in order; existing tags stay in place; new tags carry names from the list |
| Journal.Database.CreateEntry | app.py:355-369 | a blank text changes nothing, counters included. Otherwise one entry is appended with the next id, which advances by one, and with the owner, the day and the mood; its text decrypts to the input and its tags are those of the parsed field. Existing tags stay in place, and every tag created is named in the parsed field |
| Journal.Database.SetEntry | app.py:440-451 | the edited row replaces the stored row in place, keeping its id. No other row changes, the tag table and the counters stay as they were, and the table invariants still hold |
| Journal.Database.EditEntry | app.py:430-451 | an unknown id is not found and another user's entry is refused; both change nothing, counters included, as does a blank text. Otherwise only that entry changes: new text and mood, and a tag list rebuilt from the parsed field. Existing tags stay in place, and every tag created is named in the parsed field |

## Left out

- Fernet itself is not modelled: no AES, no HMAC, no base64, no timestamps. A token records the key and the plaintext it was made from, and the random bytes are a parameter `wire`. The start-up key check reads the environment.
- Cipher.Decrypt: is total. The source's fallback `self._texte.decode()` can raise on stored bytes that are not valid UTF-8, and that error is not modelled.
- SQLAlchemy sessions, commits and SQL queries are not modelled. Tables are sequences. A query's `ORDER BY date_created DESC` is taken to be the order of the input sequence.
- The date filter's parsing (`strptime` on `YYYY-MM-DD`) and the database's `date()` over timestamps are not modelled. A parsed day is an `Option<int>` compared with the entry's day, and `None` stands for a missing or unparsable date. The error message is not modelled.
- Paginator.PageCount: requires `words_per_page > 0`. The source divides by it, and its only caller passes 200.
- Text.LowerChar: lower-cases ASCII and the Latin-1 capitals only. Python's full Unicode case mapping is not modelled.
- Text.Lower: keeps the length of its input. Python's `lower()` can lengthen a string (`'İ'.lower()` is two characters), and that mapping is not modelled.
- Journal.Database.CreateEntry: a missing `texte` form field (`None`) is modelled as the empty string. The source treats both the same way.
- Journal.Database.GetOrCreateTag: the model treats requests one at a time. The Flask development server (`app.run(debug=True)`, app.py:479) serves requests on threads, and the race between two requests creating the same tag is not modelled. The `db.String(50)` column type of tag names (app.py:71) is not enforced by SQLite (app.py:26), so the program has no length limit and the model has none either.
- Flask routes, templates, flash messages, redirects, login, sessions and password hashing are not modelled.
- The export to text, the random encouragement quotes, the quote chosen by the current second, the dashboard mood counter and the browser service worker are not modelled.
- Deleting an entry is not modelled.
