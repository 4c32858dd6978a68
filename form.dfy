/**
 The state of the request form and `parseCurl`, which fills the URL,
 method, header and body fields from a pasted cURL command. Each field is
 set from its own independent search of the command; the URL, method and
 body are left as they were when their search finds nothing, while the
 header text is always replaced (`matchAll` returns an array, and an array
 is truthy), by "" when the command has no -H.
 */
module Form {

  import opened Wrappers
  import opened Strings
  import opened CurlPatterns

  /** The capture of a search, or `current` when the search found nothing. */
  function CaptureOr(found: Option<Match>, current: string): string {
    if found.Some? then found.value.group else current
  }

  /** The header text parseCurl writes: every -H token, in order, joined
      with '\n'. */
  function HeaderLinesOf(curl: string): string {
    Join(Groups(SearchAll(HeaderPattern, curl, 0)), '\n')
  }

  /** The component's state. `curlCommand` and `loading` are bound to the
      page; parseCurl leaves them alone. */
  class ApiRequestForm {
    var url: string
    var requestMethod: string
    var headers: string
    var body: string
    var curlCommand: string
    var loading: bool

    /** The initial values of each `useState`. */
    constructor ()
      ensures url == "" && requestMethod == "GET" && headers == "" && body == ""
      ensures curlCommand == "" && !loading
    {
      url, requestMethod, headers, body := "", "GET", "", "";
      curlCommand, loading := "", false;
    }

    /** `parseCurl(curl)` */
    method ParseCurl(curl: string)
      modifies this`url, this`requestMethod, this`headers, this`body
      ensures url == CaptureOr(Search(UrlPattern, curl, 0), old(url))
      ensures requestMethod == CaptureOr(Search(MethodPattern, curl, 0), old(requestMethod))
      ensures headers == HeaderLinesOf(curl)
      ensures body == CaptureOr(Search(BodyPattern, curl, 0), old(body))
      ensures curlCommand == old(curlCommand) && loading == old(loading)
    {
      var urlMatch := Search(UrlPattern, curl, 0);
      var methodMatch := Search(MethodPattern, curl, 0);
      var headersMatch := SearchAll(HeaderPattern, curl, 0);
      var bodyMatch := Search(BodyPattern, curl, 0);

      // React applies the setters called in one event handler together, so
      // the new values are collected first and committed at the end
      var newUrl, newMethod, newBody := url, requestMethod, body;
      if urlMatch.Some? {
        newUrl := urlMatch.value.group;
      }
      if methodMatch.Some? {
        newMethod := methodMatch.value.group;
      }
      // the array of matches is never falsy, so this setter is always called
      var newHeaders := Join(Groups(headersMatch), '\n');
      if bodyMatch.Some? {
        newBody := bodyMatch.value.group;
      }
      url, requestMethod, headers, body := newUrl, newMethod, newHeaders, newBody;
    }
  }

  /** The URL field changes exactly when the command has "curl", white
      space and a quoted http:// or https:// token; the new value starts
      with the scheme and has no white space. */
  lemma ParsedUrl(curl: string)
    ensures Search(UrlPattern, curl, 0).Some? <==> exists m: Match :: Matches(UrlPattern, curl, m)
    ensures var found := Search(UrlPattern, curl, 0);
      found.Some? ==> (
        var u := found.value.group;
        ((|u| > 7 && u[..7] == "http://") || (|u| > 8 && u[..8] == "https://")) &&
        forall k :: 0 <= k < |u| ==> !IsSpace(u[k]))
  {
    SearchFindsFirst(UrlPattern, curl, 0);
  }

  /** A URL quoted right after "curl " is extracted exactly, as long as it
      ends the command or white space follows its closing quote. (A quote
      inside the URL does not cut it short: the match runs to the last quote
      before white space.) */
  lemma UrlRightAfterCurl(u: string, rest: string)
    requires IsUrl(u)
    requires rest == [] || IsSpace(rest[0])
    ensures Search(UrlPattern, "curl '" + u + "'" + rest, 0) == Some(Match(0, |u| + 7, u))
  {
    var s := "curl '" + u + "'" + rest;
    var want := Match(0, |u| + 7, u);
    UrlAfterCurlMatches(u, rest);
    SearchStartsAt(UrlPattern, s, 0, want);
    if rest != [] {
      assert s[|u| + 7] == rest[0];
    }
    UrlMatchUnique(s, want, Search(UrlPattern, s, 0).value);
  }

  /** The URL quoted right after "curl " is a URL match. */
  lemma UrlAfterCurlMatches(u: string, rest: string)
    requires IsUrl(u)
    ensures Matches(UrlPattern, "curl '" + u + "'" + rest, Match(0, |u| + 7, u))
  {
    var s := "curl '" + u + "'" + rest;
    assert s[..4] == "curl" && s[4] == ' ' && s[5] == '\'';
    assert s[6..|u| + 6] == u && s[|u| + 6] == '\'';
    assert s[4..5] == [' '];
  }

  /** A method is taken only from -X, one white space character and a quoted
      run of word characters; any word is taken, not only the four methods
      the form offers. */
  lemma ParsedMethod(curl: string)
    ensures Search(MethodPattern, curl, 0).Some? <==> exists m: Match :: Matches(MethodPattern, curl, m)
    ensures var found := Search(MethodPattern, curl, 0);
      found.Some? ==> found.value.group != [] && forall k :: 0 <= k < |found.value.group| ==> IsWordChar(found.value.group[k])
  {
    SearchFindsFirst(MethodPattern, curl, 0);
  }

  /** Every -H token and the --data-raw token is non-empty and has no
      quote in it. */
  lemma ParsedTokens(curl: string)
    ensures var tokens := Groups(SearchAll(HeaderPattern, curl, 0));
      forall k :: 0 <= k < |tokens| ==> tokens[k] != [] && '\'' !in tokens[k]
    ensures var found := Search(BodyPattern, curl, 0);
      found.Some? ==> found.value.group != [] && '\'' !in found.value.group
  {
    SearchFindsFirst(BodyPattern, curl, 0);
    var ms := SearchAll(HeaderPattern, curl, 0);
    forall k | 0 <= k < |ms| ensures ms[k].group != [] && '\'' !in ms[k].group {
      SearchAllChained(HeaderPattern, curl, 0, k);
    }
  }

  /** The header tokens are the -H matches in order of appearance: the
      first is the leftmost match and each later one the leftmost after the
      previous. */
  lemma ParsedHeaderOrder(curl: string, k: nat)
    requires k < |SearchAll(HeaderPattern, curl, 0)|
    ensures var ms := SearchAll(HeaderPattern, curl, 0);
      IsFirstMatch(HeaderPattern, curl, ResumeAt(ms, 0, k), ms[k])
  {
    SearchAllChained(HeaderPattern, curl, 0, k);
  }

  /** No -H match is skipped: each one starts inside a match whose token
      parseCurl keeps. */
  lemma ParsedHeadersComplete(curl: string, m: Match)
    requires Matches(HeaderPattern, curl, m)
    ensures Covered(SearchAll(HeaderPattern, curl, 0), m.start)
  {
    SearchAllCovers(HeaderPattern, curl, 0, m);
  }

  /** The header text is "" exactly when the command has no -H match. */
  lemma HeaderTextEmpty(curl: string)
    ensures HeaderLinesOf(curl) == "" <==> forall m: Match :: !Matches(HeaderPattern, curl, m)
  {
    var ms := SearchAll(HeaderPattern, curl, 0);
    if ms == [] {
      forall m: Match | Matches(HeaderPattern, curl, m) ensures false {
        SearchAllCovers(HeaderPattern, curl, 0, m);
      }
    } else {
      SearchAllChained(HeaderPattern, curl, 0, 0);
      var g := Groups(ms);
      assert g[0] != [];
      if |g| > 1 {
        assert |HeaderLinesOf(curl)| >= |g[0]|;
      }
    }
  }

  /** When no header token has a line break in it, the header text splits
      back into exactly the tokens: one header line per -H match. */
  lemma HeaderLinesRoundTrip(curl: string)
    requires SearchAll(HeaderPattern, curl, 0) != []
    requires var tokens := Groups(SearchAll(HeaderPattern, curl, 0));
      forall k :: 0 <= k < |tokens| ==> '\n' !in tokens[k]
    ensures Split(HeaderLinesOf(curl), '\n') == Groups(SearchAll(HeaderPattern, curl, 0))
  {
    SplitJoin(Groups(SearchAll(HeaderPattern, curl, 0)), '\n');
  }

  /** A command in which no pattern matches leaves the URL, method and body
      as they were but still clears the header text. */
  lemma NothingRecognised(curl: string, url: string, requestMethod: string, body: string)
    requires forall m: Match :: !Matches(UrlPattern, curl, m)
    requires forall m: Match :: !Matches(MethodPattern, curl, m)
    requires forall m: Match :: !Matches(HeaderPattern, curl, m)
    requires forall m: Match :: !Matches(BodyPattern, curl, m)
    ensures CaptureOr(Search(UrlPattern, curl, 0), url) == url
    ensures CaptureOr(Search(MethodPattern, curl, 0), requestMethod) == requestMethod
    ensures CaptureOr(Search(BodyPattern, curl, 0), body) == body
    ensures HeaderLinesOf(curl) == ""
  {
    SearchFindsFirst(UrlPattern, curl, 0);
    SearchFindsFirst(MethodPattern, curl, 0);
    SearchFindsFirst(BodyPattern, curl, 0);
    HeaderTextEmpty(curl);
  }

}
