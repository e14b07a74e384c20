/** The records of the journal's database: entries and tags. */
module Entries {
  import opened Cipher

  datatype Option<+T> = None | Some(value: T)

  /** A row of the `tag` table: names are unique and trimmed. */
  datatype Tag = Tag(id: int, name: string)

  /** A row of the `journal_entry` table with its tag list. `day` is the
      calendar date of `date_created` (what the date filter compares);
      `tagIds` is the `tags` relationship, in the order tags were attached. */
  datatype Entry = Entry(
    id: int,
    owner: int,
    day: int,
    mood: Option<string>,
    payload: Ciphertext,
    tagIds: seq<int>)

  /** The `texte` property: the entry's plaintext, under the process key. */
  function TextOf(key: Key, e: Entry): string
  {
    Decrypt(key, e.payload)
  }

  /** No two entries share an id (true of any list of rows of one table). */
  predicate DistinctIds(es: seq<Entry>)
  {
    forall i, j :: 0 <= i < j < |es| ==> es[i].id != es[j].id
  }
}
