/** The privacy-policy page (`PrivacyPolicy`): its language state, its `t`
    lookup, and `formatContent`, which lays a policy text out line by line. */
module Policy {
  import opened Wrappers
  import opened Strings
  import opened Preferences
  import opened Translation

  /** The page's only state hook. */
  datatype PolicyState = PolicyState(language: Language)

  /** The page together with the browser storage it writes to. */
  datatype Page = Page(view: PolicyState, storage: Storage)

  /** The state once the page has mounted and read the saved language. */
  function Init(stg: Storage): (p: PolicyState)
    ensures Saved(stg) == Some("tr") || Saved(stg) == Some("en") ==> Saved(stg) == Some(Code(p.language))
    ensures !(Saved(stg) == Some("tr") || Saved(stg) == Some("en")) ==> p.language == DefaultLanguage
  {
    PolicyState(StartupLanguage(stg))
  }

  /** `handleLanguageChange`: the page's language and the saved preference
      both become `l`; no other storage entry changes. */
  function HandleLanguageChange(p: Page, l: Language): (r: Page)
    ensures r.view.language == l && Saved(r.storage) == Some(Code(l))
    ensures r.storage.Keys == p.storage.Keys + {LanguageKey}
    ensures forall k :: k in p.storage && k != LanguageKey ==> k in r.storage && r.storage[k] == p.storage[k]
  {
    Page(PolicyState(l), Persist(p.storage, l))
  }

  /** `t(key)` over the page's own table, in the page's active language: the
      key itself, or its non-empty text for that language; a key missing
      from the table is always echoed. */
  function T(table: Table, s: PolicyState, key: string): (r: string)
    ensures key in table && Text(table[key], s.language) != [] ==> r == Text(table[key], s.language)
    ensures r == key || (key in table && r == Text(table[key], s.language) != [])
    ensures key !in table ==> r == key
  {
    Lookup(table, s.language, key)
  }

  /** One rendered line: its text and whether it is drawn as a spacer. */
  datatype Line = Line(text: string, spacer: bool)

  /** `formatContent`: one line per piece of the text between newlines, in
      order, each a spacer exactly when it is blank after trimming. */
  function FormatContent(content: string): (r: seq<Line>)
    ensures |r| == Occurrences(content, '\n') + 1
    ensures forall i :: 0 <= i < |r| ==> r[i].text == Split(content, '\n')[i]
    ensures forall i :: 0 <= i < |r| ==> '\n' !in r[i].text
    ensures forall i :: 0 <= i < |r| ==> (r[i].spacer <==> AllWhitespace(r[i].text))
  {
    var pieces := Split(content, '\n');
    seq(|pieces|, i requires 0 <= i < |pieces| => Line(pieces[i], Trim(pieces[i]) == []))
  }

  /** The texts of the rendered lines, in order. */
  function LineTexts(lines: seq<Line>): (r: seq<string>)
    ensures |r| == |lines|
    ensures forall i :: 0 <= i < |lines| ==> r[i] == lines[i].text
  {
    seq(|lines|, i requires 0 <= i < |lines| => lines[i].text)
  }

  /** Joining the rendered lines with newlines gives back the policy text. */
  lemma FormatContentJoins(content: string)
    ensures Join(LineTexts(FormatContent(content)), '\n') == content
  {
    assert LineTexts(FormatContent(content)) == Split(content, '\n');
    JoinSplit(content, '\n');
  }

  /** Conversely, newline-free lines joined and laid out come back as the
      same lines. */
  lemma FormatContentOfJoin(texts: seq<string>)
    requires |texts| >= 1
    requires forall i :: 0 <= i < |texts| ==> '\n' !in texts[i]
    ensures LineTexts(FormatContent(Join(texts, '\n'))) == texts
  {
    SplitJoin(texts, '\n');
  }

  /** The empty text is laid out as a single spacer line. */
  lemma FormatContentEmpty()
    ensures FormatContent([]) == [Line([], true)]
  {
  }
}
