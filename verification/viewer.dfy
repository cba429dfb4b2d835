/** The viewer page (`URLViewer`): its state record, its event handlers, and
    the page as a machine driven by user and frame events. */
module Viewer {
  import opened Wrappers
  import opened Strings
  import opened Preferences
  import opened Translation
  import opened Urls

  /** What the handlers consult but never change: the URL parser and the
      page's translation table. */
  datatype Env = Env(parse: UrlParser, table: Table)

  /** The page's state hooks. */
  datatype ViewerState = ViewerState(
    url: string,          // raw text of the input field
    currentUrl: string,   // address shown in the frame, "" when none
    isLoading: bool,
    error: string,        // message shown under the input, "" when none
    language: Language)

  /** `t(key)` in the page's active language: the key itself, or its
      non-empty text for that language; a key missing from the table is
      always echoed. */
  function T(env: Env, s: ViewerState, key: string): (r: string)
    ensures key in env.table && Text(env.table[key], s.language) != [] ==> r == Text(env.table[key], s.language)
    ensures r == key || (key in env.table && r == Text(env.table[key], s.language) != [])
    ensures key !in env.table ==> r == key
  {
    Lookup(env.table, s.language, key)
  }

  /** The state once the page has mounted and read the saved language. */
  function Init(stg: Storage): (s: ViewerState)
    ensures s.url == [] && s.currentUrl == [] && !s.isLoading && s.error == []
    ensures s.language == StartupLanguage(stg)
  {
    ViewerState([], [], false, [], StartupLanguage(stg))
  }

  /** The input's `onChange`: only the raw text changes. */
  function Edit(s: ViewerState, text: string): (r: ViewerState)
    ensures r.url == text
    ensures r.(url := s.url) == s
  {
    s.(url := text)
  }

  /** `loadUrl`: a blank input shows the empty-input message, an input whose
      formatted form is not a valid URL shows the invalid-URL message, and any
      other input starts loading its formatted form and clears the message.
      The raw text and the language are never touched. */
  function LoadUrl(env: Env, s: ViewerState): (r: ViewerState)
    ensures r.url == s.url && r.language == s.language
    ensures AllWhitespace(s.url) ==> r == s.(error := T(env, s, "errorEmpty"))
    ensures !AllWhitespace(s.url) && !IsValidUrl(env.parse, FormatUrl(Trim(s.url))) ==>
      r == s.(error := T(env, s, "errorInvalid"))
    ensures !AllWhitespace(s.url) && IsValidUrl(env.parse, FormatUrl(Trim(s.url))) ==>
      r == s.(error := [], isLoading := true, currentUrl := FormatUrl(Trim(s.url)))
  {
    var trimmed := Trim(s.url);
    if trimmed == [] then
      s.(error := T(env, s, "errorEmpty"))
    else
      var formatted := FormatUrl(trimmed);
      if !IsValidUrl(env.parse, formatted) then
        s.(error := T(env, s, "errorInvalid"))
      else
        s.(error := [], isLoading := true, currentUrl := formatted)
  }

  /** `handleIframeLoad`: loading ends and the message is cleared, whatever
      the state was; address, input and language stay. */
  function HandleIframeLoad(s: ViewerState): (r: ViewerState)
    ensures !r.isLoading && r.error == []
    ensures r.url == s.url && r.currentUrl == s.currentUrl && r.language == s.language
  {
    s.(isLoading := false, error := [])
  }

  /** `handleIframeError`: loading ends and the cannot-embed message is shown,
      whatever the state was; address, input and language stay. */
  function HandleIframeError(env: Env, s: ViewerState): (r: ViewerState)
    ensures !r.isLoading && r.error == T(env, s, "errorIframe")
    ensures r.url == s.url && r.currentUrl == s.currentUrl && r.language == s.language
  {
    s.(isLoading := false, error := T(env, s, "errorIframe"))
  }

  /** `refreshPage`: without an address nothing happens; with one, loading
      starts again on the same address and any message stays. */
  function RefreshPage(s: ViewerState): (r: ViewerState)
    ensures s.currentUrl == [] ==> r == s
    ensures s.currentUrl != [] ==> r.isLoading
    ensures r.(isLoading := s.isLoading) == s
  {
    if s.currentUrl != [] then s.(isLoading := true) else s
  }

  /** The page together with the browser storage it writes to. */
  datatype Page = Page(view: ViewerState, storage: Storage)

  /** `handleLanguageChange`: the page's language and the saved preference
      both become `l`; nothing else in the page or the storage changes. */
  function HandleLanguageChange(p: Page, l: Language): (r: Page)
    ensures r.view.language == l && Saved(r.storage) == Some(Code(l))
    ensures r.view.(language := p.view.language) == p.view
    ensures r.storage.Keys == p.storage.Keys + {LanguageKey}
    ensures forall k :: k in p.storage && k != LanguageKey ==> k in r.storage && r.storage[k] == p.storage[k]
  {
    Page(p.view.(language := l), Persist(p.storage, l))
  }

  /** What can happen to the page. */
  datatype Event =
    | Typed(text: string)       // the input's text changes
    | ClickView                 // the View button is clicked
    | KeyPress(key: string)     // a key is pressed in the input
    | FrameLoaded               // the frame's load event
    | FrameFailed               // the frame's error event
    | ClickRefresh              // the refresh button is clicked
    | SelectLanguage(l: Language)

  /** One event.  The View button is disabled while loading; the Enter key
      submits from any state; the frame events are taken as they come. */
  function Step(env: Env, p: Page, e: Event): (r: Page)
    ensures e.ClickView? && p.view.isLoading ==> r == p
    ensures e.ClickView? && !p.view.isLoading ==> r == p.(view := LoadUrl(env, p.view))
    ensures e == KeyPress("Enter") ==> r == p.(view := LoadUrl(env, p.view))
    ensures e.KeyPress? && e.key != "Enter" ==> r == p
    ensures e.Typed? ==> r == p.(view := Edit(p.view, e.text))
    ensures e == FrameLoaded ==> r == p.(view := HandleIframeLoad(p.view))
    ensures e == FrameFailed ==> r == p.(view := HandleIframeError(env, p.view))
    ensures e == ClickRefresh ==> r == p.(view := RefreshPage(p.view))
    ensures e.SelectLanguage? ==> r == HandleLanguageChange(p, e.l)
    ensures !e.SelectLanguage? ==> r.storage == p.storage
  {
    match e
    case Typed(text) => p.(view := Edit(p.view, text))
    case ClickView => if p.view.isLoading then p else p.(view := LoadUrl(env, p.view))
    case KeyPress(key) => if key == "Enter" then p.(view := LoadUrl(env, p.view)) else p
    case FrameLoaded => p.(view := HandleIframeLoad(p.view))
    case FrameFailed => p.(view := HandleIframeError(env, p.view))
    case ClickRefresh => p.(view := RefreshPage(p.view))
    case SelectLanguage(l) => HandleLanguageChange(p, l)
  }

  /** A sequence of events, in order. */
  function Run(env: Env, p: Page, es: seq<Event>): Page
    decreases |es|
  {
    if es == [] then p else Run(env, Step(env, p, es[0]), es[1..])
  }

  /** The page's invariant: the shown address is empty or a valid http(s)
      URL, and loading is only ever shown over an address. */
  predicate Good(env: Env, s: ViewerState) {
    && (s.currentUrl == [] || (IsValidUrl(env.parse, s.currentUrl) && HasWebScheme(s.currentUrl)))
    && (s.isLoading ==> s.currentUrl != [])
  }

  /** Every event keeps the invariant and never clears a shown address. */
  lemma StepKeepsGood(env: Env, p: Page, e: Event)
    requires Good(env, p.view)
    ensures Good(env, Step(env, p, e).view)
    ensures p.view.currentUrl != [] ==> Step(env, p, e).view.currentUrl != []
  {
  }

  /** The invariant holds after any sequence of events from the started page,
      and once an address is shown it stays non-empty. */
  lemma {:induction false} RunKeepsGood(env: Env, p: Page, es: seq<Event>)
    requires Good(env, p.view)
    ensures Good(env, Run(env, p, es).view)
    ensures p.view.currentUrl != [] ==> Run(env, p, es).view.currentUrl != []
    decreases |es|
  {
    if es != [] {
      StepKeepsGood(env, p, es[0]);
      RunKeepsGood(env, Step(env, p, es[0]), es[1..]);
    }
  }

  /** The started page satisfies the invariant, so every reachable one does. */
  lemma ReachableIsGood(env: Env, stg: Storage, es: seq<Event>)
    ensures Good(env, Run(env, Page(Init(stg), stg), es).view)
  {
    RunKeepsGood(env, Page(Init(stg), stg), es);
  }

  /** Only typing changes the raw input text. */
  lemma {:induction false} RunKeepsUrlWithoutTyping(env: Env, p: Page, es: seq<Event>)
    requires forall i :: 0 <= i < |es| ==> !es[i].Typed?
    ensures Run(env, p, es).view.url == p.view.url
    decreases |es|
  {
    if es != [] {
      RunKeepsUrlWithoutTyping(env, Step(env, p, es[0]), es[1..]);
    }
  }

  /** A rejected submission, blank or invalid, from any state: a message is
      always shown, and nothing but the message changes. */
  lemma RejectionShowsMessage(env: Env, s: ViewerState)
    requires AllWhitespace(s.url) || !IsValidUrl(env.parse, FormatUrl(Trim(s.url)))
    ensures LoadUrl(env, s).error != []
    ensures LoadUrl(env, s).(error := s.error) == s
  {
    LookupRange(env.table, s.language, "errorEmpty");
    LookupRange(env.table, s.language, "errorInvalid");
  }

  /** The frame events carry no tag: their outcome depends only on the
      address, input and language, never on whether a load was pending or
      which submission it belonged to. */
  lemma FrameEventsIgnoreHistory(env: Env, s1: ViewerState, s2: ViewerState)
    requires s1.url == s2.url && s1.currentUrl == s2.currentUrl && s1.language == s2.language
    ensures HandleIframeLoad(s1) == HandleIframeLoad(s2)
    ensures HandleIframeError(env, s1) == HandleIframeError(env, s2)
  {
  }

  /** The loading overlay sits inside the frame panel, which is shown only
      when there is an address; under the invariant it is visible exactly
      while loading. */
  predicate OverlayVisible(s: ViewerState) {
    s.currentUrl != [] && s.isLoading
  }

  lemma OverlayIffLoading(env: Env, s: ViewerState)
    requires Good(env, s)
    ensures OverlayVisible(s) <==> s.isLoading
  {
  }

  /** Changing the language does not retranslate a message already shown:
      the message holds the text looked up when it was set. */
  lemma LanguageChangeKeepsMessage(p: Page, l: Language)
    ensures HandleLanguageChange(p, l).view.error == p.view.error
  {
  }

  /** Example, for any bare host name such as the `github.com` of the input's
      placeholder text (App.tsx line 34):
      typing it and clicking View on the started page loads it with the
      https prefix; the frame's load event then leaves it loaded with no
      message. */
  lemma BareHostScenario(env: Env, stg: Storage, host: string)
    requires host != [] && !IsWhitespace(host[0]) && !IsWhitespace(host[|host| - 1])
    requires !HasWebScheme(host)
    requires env.parse(HttpsPrefix + host) == Some("https:")
    ensures Run(env, Page(Init(stg), stg), [Typed(host), ClickView]).view.currentUrl == HttpsPrefix + host
    ensures Run(env, Page(Init(stg), stg), [Typed(host), ClickView]).view.isLoading
    ensures Run(env, Page(Init(stg), stg), [Typed(host), ClickView, FrameLoaded]).view.error == []
    ensures !Run(env, Page(Init(stg), stg), [Typed(host), ClickView, FrameLoaded]).view.isLoading
  {
    TrimNoEdges(host);
    assert FormatUrl(Trim(host)) == HttpsPrefix + host;
    assert IsValidUrl(env.parse, HttpsPrefix + host);
    assert !AllWhitespace(host);
    var p0 := Page(Init(stg), stg);
    var p1 := Step(env, p0, Typed(host));
    assert p1.view.url == host && !p1.view.isLoading;
    var p2 := Step(env, p1, ClickView);
    assert p2.view == LoadUrl(env, p1.view);
    assert p2.view.currentUrl == HttpsPrefix + host && p2.view.isLoading;
    var p3 := Step(env, p2, FrameLoaded);
    assert [Typed(host), ClickView][1..] == [ClickView];
    assert [Typed(host), ClickView, FrameLoaded][1..] == [ClickView, FrameLoaded];
    assert [ClickView, FrameLoaded][1..] == [FrameLoaded];
    assert Run(env, p0, [Typed(host), ClickView]) == Run(env, p1, [ClickView]) == p2;
    assert Run(env, p0, [Typed(host), ClickView, FrameLoaded]) == Run(env, p2, [FrameLoaded]) == p3;
  }
}
