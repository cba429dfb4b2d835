/** The language preference shared by both pages: an in-memory language and
    one entry of the browser's local key-value storage. */
module Preferences {
  import opened Wrappers

  datatype Language = Tr | En

  /** The two-letter code a language is stored and compared as. */
  function Code(l: Language): string {
    match l
    case Tr => "tr"
    case En => "en"
  }

  /** Both pages start in Turkish. */
  const DefaultLanguage: Language := Tr

  /** Browser-local storage, as string keys to string values. */
  type Storage = map<string, string>

  /** The one storage key either page reads or writes. */
  const LanguageKey: string := "url-viewer-language"

  /** `localStorage.getItem(LanguageKey)`: None stands for `null`. */
  function Saved(stg: Storage): (r: Option<string>)
    ensures r.Some? <==> LanguageKey in stg
    ensures r.Some? ==> r.value == stg[LanguageKey]
  {
    if LanguageKey in stg then Some(stg[LanguageKey]) else None
  }

  /** The language a page adopts when it starts: the saved value when it is
      exactly one of the two codes, the default otherwise. */
  function StartupLanguage(stg: Storage): (l: Language)
    ensures Saved(stg) == Some(Code(l)) || (l == DefaultLanguage && Saved(stg) != Some("en"))
    ensures Saved(stg) == Some("en") <==> l == En
  {
    var saved := Saved(stg);
    if saved.Some? && (saved.value == "tr" || saved.value == "en") then
      (if saved.value == "tr" then Tr else En)
    else
      Tr
  }

  /** `localStorage.setItem(LanguageKey, Code(l))`: the language entry is
      overwritten and every other entry is left as it was. */
  function Persist(stg: Storage, l: Language): (r: Storage)
    ensures Saved(r) == Some(Code(l))
    ensures r.Keys == stg.Keys + {LanguageKey}
    ensures forall k :: k in stg && k != LanguageKey ==> r[k] == stg[k]
  {
    stg[LanguageKey := Code(l)]
  }

  /** Distinct languages are stored as distinct codes. */
  lemma CodeInjective(a: Language, b: Language)
    ensures Code(a) == Code(b) <==> a == b
  {
  }

  /** A page started after a language was persisted adopts that language. */
  lemma StartupAfterPersist(stg: Storage, l: Language)
    ensures StartupLanguage(Persist(stg, l)) == l
  {
  }

  /** Persisting the startup language rewrites the storage unchanged exactly
      when the saved value was one of the two codes. */
  lemma PersistStartupIsStable(stg: Storage)
    ensures Persist(stg, StartupLanguage(stg)) == stg <==> Saved(stg) == Some("tr") || Saved(stg) == Some("en")
  {
    var r := Persist(stg, StartupLanguage(stg));
    if r == stg {
      assert Saved(stg) == Saved(r);
    }
  }
}
