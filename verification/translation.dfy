/** The `t(key)` lookup both pages use: a static table from keys to a text per
    language, with the key itself as the fallback. */
module Translation {
  import opened Preferences

  datatype Entry = Entry(tr: string, en: string)

  /** A translation table; its text content is not part of the model. */
  type Table = map<string, Entry>

  function Text(e: Entry, l: Language): string {
    match l
    case Tr => e.tr
    case En => e.en
  }

  /** `table[key]?.[language] || key`: the table's text when the entry exists
      and its text is non-empty (the empty string is falsy), else the key.
      Anything other than the key is the entry's text; a missing key and an
      empty text both fall back to the key, so only the empty key can give
      an empty result. */
  function Lookup(table: Table, l: Language, key: string): (r: string)
    ensures key in table && Text(table[key], l) != [] ==> r == Text(table[key], l)
    ensures r != key ==> key in table && r == Text(table[key], l)
    ensures key !in table ==> r == key
    ensures r == [] ==> key == []
  {
    if key in table && Text(table[key], l) != [] then Text(table[key], l) else key
  }

  /** The set of all texts a table holds for one language. */
  function Texts(table: Table, l: Language): set<string> {
    set k | k in table :: Text(table[k], l)
  }

  /** A lookup yields either the key or one of the table's texts for the
      active language, and is empty only for the empty key. */
  lemma LookupRange(table: Table, l: Language, key: string)
    ensures Lookup(table, l, key) == key || Lookup(table, l, key) in Texts(table, l)
    ensures Lookup(table, l, key) == [] ==> key == []
  {
  }

  /** A key missing from the table is echoed verbatim in every language. */
  lemma LookupMissingKey(table: Table, key: string)
    requires key !in table
    ensures forall l: Language :: Lookup(table, l, key) == key
  {
  }

  /** Adding entries for other keys never changes a lookup. */
  lemma LookupFrame(table: Table, extra: Table, l: Language, key: string)
    requires key !in extra
    ensures Lookup(table + extra, l, key) == Lookup(table, l, key)
  {
  }
}
