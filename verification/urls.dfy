/** `formatUrl` and `isValidUrl` of the viewer page.  The platform URL parser
    (the WHATWG URL Standard, section 4.4 "URL parsing") is not modelled: it is
    a parameter that either rejects a string or reports its `protocol`. */
module Urls {
  import opened Wrappers
  import opened Strings

  const HttpPrefix: string := "http://"
  const HttpsPrefix: string := "https://"

  /** `new URL(s).protocol`, or None when the constructor throws. */
  type UrlParser = string -> Option<string>

  /** The input already names an http or https scheme (case-sensitive). */
  predicate HasWebScheme(s: string) {
    StartsWith(s, HttpPrefix) || StartsWith(s, HttpsPrefix)
  }

  /** `formatUrl`: empty stays empty; anything already carrying an http or
      https prefix is kept; anything else gets `https://` in front. */
  function FormatUrl(input: string): (r: string)
    ensures r == [] <==> input == []
    ensures r != [] ==> HasWebScheme(r)
    ensures |input| <= |r| && r[|r| - |input|..] == input
  {
    if input == [] then []
    else if HasWebScheme(input) then input
    else HttpsPrefix + input
  }

  /** The three cases of `formatUrl`, one by one. */
  lemma FormatUrlCases(input: string)
    ensures input == [] ==> FormatUrl(input) == []
    ensures input != [] && HasWebScheme(input) ==> FormatUrl(input) == input
    ensures !HasWebScheme(input) && input != [] ==> FormatUrl(input) == HttpsPrefix + input
  {
  }

  /** Formatting a formatted URL changes nothing. */
  lemma FormatUrlIdempotent(input: string)
    ensures FormatUrl(FormatUrl(input)) == FormatUrl(input)
  {
  }

  /** `isValidUrl`: the parser accepts the string and reports protocol
      `http:` or `https:`. */
  predicate IsValidUrl(parse: UrlParser, s: string)
    ensures IsValidUrl(parse, s) ==> parse(s).Some?
    ensures parse(s).Some? ==> (IsValidUrl(parse, s) <==> parse(s).value in {"http:", "https:"})
  {
    match parse(s)
    case None => false
    case Some(protocol) => protocol == "http:" || protocol == "https:"
  }

  /** The predicate's own contract restated as one disjunction over the
      parser's answer: accepted exactly for `http:` or `https:`. */
  lemma IsValidUrlMeaning(parse: UrlParser, s: string)
    ensures IsValidUrl(parse, s) <==> parse(s) == Some("http:") || parse(s) == Some("https:")
    ensures parse(s).None? ==> !IsValidUrl(parse, s)
  {
  }

  /** A parser that, whenever it accepts a string written with an http or
      https prefix, reports that scheme as the protocol, as the standard's
      scheme state does. */
  ghost predicate ReportsWrittenScheme(parse: UrlParser) {
    forall s :: HasWebScheme(s) && parse(s).Some? ==>
      parse(s).value == (if StartsWith(s, HttpsPrefix) then "https:" else "http:")
  }

  /** After `formatUrl` the protocol test can never fail on its own: for such a
      parser a formatted non-empty input is valid exactly when it parses.  A
      non-web scheme such as `ftp://x` is therefore not rejected for its
      scheme; it is turned into `https://ftp://x` and judged by the parser. */
  lemma ProtocolCheckFollowsParse(parse: UrlParser, input: string)
    requires ReportsWrittenScheme(parse)
    requires input != []
    ensures IsValidUrl(parse, FormatUrl(input)) <==> parse(FormatUrl(input)).Some?
  {
    var f := FormatUrl(input);
    if parse(f).Some? {
      assert HasWebScheme(f);
    }
  }
}
