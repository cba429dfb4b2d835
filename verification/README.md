# url-viewer: a Dafny model of the page logic

The url-viewer is a two-page React application. The viewer page takes a web
address typed by the user, normalises and checks it, and shows the site in an
embedded frame. The privacy-policy page shows fixed bilingual text. Both pages
share one language preference (Turkish or English), which is kept in the
browser's local storage.

This project models the logic under the markup as pure functions over
immutable records:

- `Strings` covers `String.prototype.trim` and `split`/`join` on one character.
- `Preferences` covers the language, its storage entry, the read at startup and
  the write on change.
- `Translation` covers the `t(key)` lookup. A key whose entry is missing or
  whose text is empty falls back to the key itself.
- `Urls` covers `formatUrl` and `isValidUrl`. The platform URL parser is a
  parameter, so it is not modelled.
- `Viewer` covers the viewer page's state record `{url, currentUrl, isLoading,
  error, language}`, its handlers, and the page as a machine driven by events.
  The invariant is that the shown address is empty or a valid http(s) URL,
  and that loading is shown only over an address.
- `Policy` covers the policy page's language state, its `t`, and
  `formatContent`.
- `SharedPreference` covers how a choice made on one page reaches the other.

Two consequences of the code are worth noting:

- A non-web scheme such as `ftp://x` is not rejected because of its scheme.
  `formatUrl` turns it into `https://ftp://x` first. After `formatUrl`, the
  protocol test in `isValidUrl` can only fail if the parser itself fails
  (`Urls.ProtocolCheckFollowsParse`).
- A message already shown is not translated again when the language
  changes. `error` holds the text as it was looked up when the message was
  set (`Viewer.LanguageChangeKeepsMessage`).

## Model

| member | source | states |
|---|---|---|
| Strings.Trim | url-viewer/src/App.tsx:155-160 | the trimmed text is empty exactly when every character is whitespace; otherwise it starts and ends with non-whitespace |
| Strings.TrimIsCore | url-viewer/src/App.tsx:160 | reference characterisation: for any split of the text into whitespace, a core with non-whitespace ends, and whitespace, trim returns that core |
| Strings.TrimIdempotent | url-viewer/src/App.tsx:160 | trimming an already trimmed text changes nothing |
| Strings.Split | url-viewer/src/components/PrivacyPolicy.tsx:122 | splitting on a character gives one more piece than there are occurrences of it, and no piece contains it |
| Strings.JoinSplit | url-viewer/src/components/PrivacyPolicy.tsx:122 | joining the pieces of a split with the separator gives back the original text |
| Strings.SplitJoin | url-viewer/src/components/PrivacyPolicy.tsx:122 | splitting a join of one or more separator-free pieces gives back the same pieces in order |
| Preferences.StartupLanguage | url-viewer/src/App.tsx:112-117 | the stored value is adopted only if it is exactly "tr" or "en"; a missing or any other value leaves Turkish |
| Preferences.Persist | url-viewer/src/App.tsx:127-130 | writing the preference makes the stored language entry the language's code, and leaves every other storage entry as it was |
| Preferences.StartupAfterPersist | url-viewer/src/App.tsx:112-130 | a page that starts after a language was written starts in that language |
| Preferences.PersistStartupIsStable | url-viewer/src/App.tsx:112-130 | writing back the startup language leaves storage unchanged exactly when the stored value was already a valid code |
| Preferences.CodeInjective | url-viewer/src/App.tsx:11 | the two languages are stored as different codes |
| Translation.Lookup | url-viewer/src/App.tsx:133-135 | the entry's text for the active language when the entry exists and the text is non-empty; any result other than the key is that text; a missing key (or an empty text) gives the key verbatim, so the result is empty only for the empty key |
| Translation.LookupRange | url-viewer/src/App.tsx:133-135 | a lookup returns either the key or one of the table's texts for the active language, and is empty only for the empty key |
| Translation.LookupMissingKey | url-viewer/src/components/PrivacyPolicy.tsx:117-119 | a key absent from the table is returned unchanged in both languages |
| Translation.LookupFrame | url-viewer/src/App.tsx:133-135 | entries for other keys never change what a key looks up to |
| Urls.FormatUrl | url-viewer/src/App.tsx:146-152 | the result is empty exactly for empty input, a non-empty result starts with http:// or https://, and the input is always a suffix of the result |
| Urls.FormatUrlCases | url-viewer/src/App.tsx:146-152 | "" stays "", input with an http:// or https:// prefix is returned unchanged (case-sensitive), any other input gets https:// prepended |
| Urls.FormatUrlIdempotent | url-viewer/src/App.tsx:146-152 | formatting an already formatted URL changes nothing |
| Urls.IsValidUrl | url-viewer/src/App.tsx:137-144 | a string is accepted only if the parser does not throw, and a parsed string is accepted exactly when its protocol is http: or https: |
| Urls.IsValidUrlMeaning | url-viewer/src/App.tsx:137-144 | a string is valid exactly when the parser accepts it and reports protocol http: or https:; a parse failure is never valid |
| Urls.ProtocolCheckFollowsParse | url-viewer/src/App.tsx:137-165 | if the parser reports the scheme that is written, a formatted non-empty input is valid exactly when it parses |
| Viewer.T | url-viewer/src/App.tsx:133-135 | the viewer's t(key) is the entry's text for the page's language when that text exists and is non-empty, otherwise the key; a missing key is echoed |
| Viewer.Init | url-viewer/src/App.tsx:104-117 | the page starts with no input, no address, no loading and no message, in the stored language or Turkish |
| Viewer.Edit | url-viewer/src/App.tsx:242 | typing replaces the raw input text and nothing else |
| Viewer.LoadUrl | url-viewer/src/App.tsx:154-170 | blank input: only the message changes, to t('errorEmpty'); invalid formatted input: only the message changes, to t('errorInvalid'); otherwise the message is cleared, loading starts and the address becomes the formatted trimmed input; the raw input and language never change |
| Viewer.HandleIframeLoad | url-viewer/src/App.tsx:172-175 | the frame's load event ends loading and clears the message, keeps address, input and language, and does not check that a load was pending |
| Viewer.HandleIframeError | url-viewer/src/App.tsx:177-180 | the frame's error event ends loading and shows t('errorIframe'), keeps address, input and language, and does not check that a load was pending |
| Viewer.RefreshPage | url-viewer/src/App.tsx:188-193 | with no address nothing changes; with one, loading starts again and the address and message are kept |
| Viewer.HandleLanguageChange | url-viewer/src/App.tsx:127-130 | the page language and the stored preference both become the chosen language; no other page field changes, no other storage entry is changed, and no entry but the language key is added |
| Viewer.Step | url-viewer/src/App.tsx:182-313 | a View click while loading does nothing because the button is disabled, and otherwise submits; the Enter key submits from any state and any other key does nothing; typing runs the input's onChange, the frame's load and error events run their handlers, the refresh button runs refreshPage and a language choice runs handleLanguageChange; only a language choice writes storage |
| Viewer.StepKeepsGood | url-viewer/src/App.tsx:154-193 | every event keeps the address empty or a valid http(s) URL, keeps loading only over an address, and never clears a shown address |
| Viewer.RunKeepsGood | url-viewer/src/App.tsx:105-193 | the invariant holds after any sequence of events, and once an address is shown it never becomes empty again |
| Viewer.ReachableIsGood | url-viewer/src/App.tsx:104-193 | every state reachable from the started page satisfies the invariant |
| Viewer.RunKeepsUrlWithoutTyping | url-viewer/src/App.tsx:241-242 | no event other than typing changes the raw input text |
| Viewer.RejectionShowsMessage | url-viewer/src/App.tsx:154-165 | a blank or invalid submission always shows a non-empty message and changes nothing else |
| Viewer.FrameEventsIgnoreHistory | url-viewer/src/App.tsx:172-180 | the result of a frame event depends only on address, input and language, not on whether or which load was pending |
| Viewer.OverlayIffLoading | url-viewer/src/App.tsx:297-308 | under the invariant, the loading overlay is visible exactly while isLoading holds |
| Viewer.LanguageChangeKeepsMessage | url-viewer/src/App.tsx:127-130 | changing the language leaves a shown message's text as it was |
| Viewer.BareHostScenario | url-viewer/src/App.tsx:154-175 | typing a bare host such as github.com and clicking View loads https:// plus the host; the load event then leaves it loaded with no message |
| Policy.Init | url-viewer/src/components/PrivacyPolicy.tsx:93-101 | the page starts in the stored language if it is exactly "tr" or "en", else in Turkish |
| Policy.HandleLanguageChange | url-viewer/src/components/PrivacyPolicy.tsx:111-114 | the page language and the stored preference both become the chosen language; other storage entries are untouched and no entry but the language key is added |
| Policy.T | url-viewer/src/components/PrivacyPolicy.tsx:117-119 | the policy page's t(key) is the entry's text for the page's language when that text exists and is non-empty, otherwise the key; a missing key is echoed |
| Policy.FormatContent | url-viewer/src/components/PrivacyPolicy.tsx:121-127 | there is one line per newline plus one; each line is the matching piece, in order, and contains no newline; a line is a spacer exactly when it is blank after trimming |
| Policy.FormatContentJoins | url-viewer/src/components/PrivacyPolicy.tsx:121-124 | joining the line texts with newlines reconstructs the content |
| Policy.FormatContentOfJoin | url-viewer/src/components/PrivacyPolicy.tsx:121-124 | newline-free texts joined and laid out come back as the same texts |
| Policy.FormatContentEmpty | url-viewer/src/components/PrivacyPolicy.tsx:121-123 | the empty text is laid out as a single spacer line |
| SharedPreference.ViewerChoiceReachesPolicy | url-viewer/src/components/PrivacyPolicy.tsx:96-101 | a policy page started after a choice on the viewer page starts in that language |
| SharedPreference.PolicyChoiceReachesViewer | url-viewer/src/App.tsx:112-117 | a viewer page started after a choice on the policy page starts in that language |

## Left out

- The URL parser behind `new URL(...)` is the WHATWG URL Standard basic URL parser (section 4.4, "URL parsing"). It is a platform call, so it is a parameter (`Urls.UrlParser`) that returns the `protocol` or fails. `Urls.ReportsWrittenScheme` names the one property of it that a lemma relies on.
- Whitespace for `trim` is the fixed set of code points from ECMAScript 2023, sections 12.2 and 12.3. There is no Unicode database behind it.
- Local storage is a map from strings to strings. Other tabs, storage events and quota errors are not modelled.
- `localStorage.getItem` and `setItem` can throw `SecurityError` when storage is disabled; that exception is not modelled.
- JavaScript strings are UTF-16 code units, and a Dafny `string` cannot hold a lone surrogate; such strings are not modelled.
- Each page's `useEffect` is modelled as the `Init` state, that is, after mount. The first render in Turkish, before the stored language is read, is not modelled.
- The `document.title` writes, the frame's fixed `sandbox` permission list, router links and all markup, styles and icons are static effects. They are not modelled.
- Viewer.RefreshPage: `refreshPage` also sets the frame's `src` and checks that the frame element exists. The frame is rendered exactly when there is an address, so only the address check is modelled, and the frame's navigation is not modelled.
- The frame's load and error events are arbitrary inputs to `Viewer.Step`. There is no tagging of stale events, and the code has none.
- The translation tables are parameters. Their text content is not copied.
- Keys inherited from the JavaScript object prototype (such as `constructor`) have no `tr`/`en` field, so they also fall back to the key. They need no separate case, because the table is a map that has no such entries.
