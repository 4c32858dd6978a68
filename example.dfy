/**
 A one-line command of the shape

   curl '<url>' -X '<method>' -H '<header>' --data-raw '<body>'

 (single spaces between the flags, one -H, a quoted -X) and what the four
 searches of `parseCurl` take from it. The command is built from its four
 parts, so every position in it is a sum of their lengths. `PasteExample`
 at the end pastes one such command into a fresh form.
 */
module CurlExample {

  import opened Wrappers
  import opened Strings
  import opened CurlPatterns
  import opened Form

  /** The pasted command. */
  function Command(u: string, meth: string, h: string, b: string): string {
    "curl '" + u + "' -X '" + meth + "' -H '" + h + "' --data-raw '" + b + "'"
  }

  /** Parts each pattern accepts whole: a URL, a method word, a header and a
      body without quotes, the header not ending in white space. */
  predicate Plain(u: string, meth: string, h: string, b: string) {
    IsUrl(u) && meth != [] && AllIn(meth, Word) &&
    h != [] && AllIn(h, NotQuote) && !IsSpace(h[|h| - 1]) &&
    b != [] && AllIn(b, NotQuote)
  }

  /** A character of a stretch of `s` known to equal `t`. */
  lemma CharOf(s: string, a: nat, t: string, j: nat)
    requires a + |t| <= |s| && s[a..a + |t|] == t && a <= j < a + |t|
    ensures s[j] == t[j - a]
  {
    assert s[a..a + |t|][j - a] == s[j];
  }

  /** Where each part of the command sits. With U, M, H and B the lengths of
      the parts, the quotes around them are at 5 and U+6, U+11 and U+M+12,
      U+M+17 and U+M+H+18, U+M+H+31 and U+M+H+B+32. */
  predicate LaidOut(s: string, u: string, meth: string, h: string, b: string) {
    var U, M, H, B := |u|, |meth|, |h|, |b|;
    |s| == U + M + H + B + 33 &&
    s[..6] == "curl '" && s[6..U + 6] == u &&
    s[U + 6..U + 12] == "' -X '" && s[U + 12..U + M + 12] == meth &&
    s[U + M + 12..U + M + 18] == "' -H '" && s[U + M + 18..U + M + H + 18] == h &&
    s[U + M + H + 18..U + M + H + 32] == "' --data-raw '" &&
    s[U + M + H + 32..U + M + H + B + 32] == b && s[U + M + H + B + 32] == '\''
  }

  /** Peeling the last piece off a prefix of `s`. */
  lemma Peel(s: string, p: string, t: string)
    requires |p| + |t| <= |s| && s[..|p| + |t|] == p + t
    ensures s[..|p|] == p && s[|p|..|p| + |t|] == t
  {
    assert s[..|p|] == s[..|p| + |t|][..|p|];
    assert s[|p|..|p| + |t|] == s[..|p| + |t|][|p|..];
  }

  lemma Layout(u: string, meth: string, h: string, b: string)
    ensures LaidOut(Command(u, meth, h, b), u, meth, h, b)
  {
    var s := Command(u, meth, h, b);
    var p1 := "curl '" + u;
    var p2 := p1 + "' -X '";
    var p3 := p2 + meth;
    var p4 := p3 + "' -H '";
    var p5 := p4 + h;
    var p6 := p5 + "' --data-raw '";
    var p7 := p6 + b;
    assert s == p7 + "'";
    assert s[..|p7| + 1] == s;
    Peel(s, p7, "'");
    Peel(s, p6, b);
    Peel(s, p5, "' --data-raw '");
    Peel(s, p4, h);
    Peel(s, p3, "' -H '");
    Peel(s, p2, meth);
    Peel(s, p1, "' -X '");
    Peel(s, "curl '", u);
    assert s[..6] == "curl '";
  }

  /** A token of a class without the quote holds no quote. */
  lemma NoQuoteIn(s: string, a: nat, t: string, cls: CharClass)
    requires a + |t| <= |s| && s[a..a + |t|] == t && AllIn(t, cls) && !InClass('\'', cls)
    ensures forall o :: a <= o < a + |t| ==> s[o] != '\''
  {
    forall o | a <= o < a + |t| ensures s[o] != '\'' {
      CharOf(s, a, t, o);
    }
  }

  /** A token without white space. */
  lemma NoSpaceIn(s: string, a: nat, t: string)
    requires a + |t| <= |s| && s[a..a + |t|] == t
    requires forall k :: 0 <= k < |t| ==> !IsSpace(t[k])
    ensures forall o :: a <= o < a + |t| ==> !IsSpace(s[o])
  {
    forall o | a <= o < a + |t| ensures !IsSpace(s[o]) {
      CharOf(s, a, t, o);
    }
  }

  /** Inside a literal whose only quotes are its first and last characters,
      no other character is a quote. */
  lemma QuotesOfLiteral(s: string, a: nat, t: string)
    requires a + |t| <= |s| && s[a..a + |t|] == t
    requires forall j :: 0 < j < |t| - 1 ==> t[j] != '\''
    ensures forall o :: a < o < a + |t| - 1 ==> s[o] != '\''
  {
    forall o | a < o < a + |t| - 1 ensures s[o] != '\'' {
      CharOf(s, a, t, o);
    }
  }

  /** The places in the first half of the command (up to the method) where
      a quote follows a white-space character: before the URL and before
      the method. */
  lemma SpaceThenQuoteBefore(s: string, u: string, meth: string, o: nat)
    requires IsUrl(u) && AllIn(meth, Word)
    requires |u| + |meth| + 12 <= |s|
    requires s[..6] == "curl '" && s[6..|u| + 6] == u
    requires s[|u| + 6..|u| + 12] == "' -X '" && s[|u| + 12..|u| + |meth| + 12] == meth
    requires 1 <= o < |u| + |meth| + 12 && IsSpace(s[o - 1]) && s[o] == '\''
    ensures o == 5 || o == |u| + 11
  {
    var U := |u|;
    assert s[0..4] == s[..6][..4];
    NoSpaceIn(s, 0, "curl");
    CharOf(s, 0, "curl '", 5);
    NoSpaceIn(s, 6, u);
    CharOf(s, U + 6, "' -X '", U + 6);
    QuotesOfLiteral(s, U + 6, "' -X '");
    NoQuoteIn(s, U + 12, meth, Word);
  }

  /** The same for the second half: before the header, before the body and
      at the very end. */
  lemma SpaceThenQuoteAfter(s: string, meth: string, h: string, b: string, a: nat, o: nat)
    requires meth != [] && AllIn(meth, Word) && a >= |meth|
    requires h != [] && AllIn(h, NotQuote) && !IsSpace(h[|h| - 1]) && AllIn(b, NotQuote)
    requires |s| == a + |h| + |b| + 21
    requires s[a - |meth|..a] == meth && s[a..a + 6] == "' -H '" && s[a + 6..a + |h| + 6] == h
    requires s[a + |h| + 6..a + |h| + 20] == "' --data-raw '"
    requires s[a + |h| + 20..a + |h| + |b| + 20] == b
    requires a <= o < |s| && IsSpace(s[o - 1]) && s[o] == '\''
    ensures o == a + 5 || o == a + |h| + 19 || o == a + |h| + |b| + 20
  {
    var H := |h|;
    // the characters before the two quotes that open the literals
    CharOf(s, a - |meth|, meth, a - 1);
    CharOf(s, a + 6, h, a + H + 5);
    QuotesOfLiteral(s, a, "' -H '");
    NoQuoteIn(s, a + 6, h, NotQuote);
    QuotesOfLiteral(s, a + H + 6, "' --data-raw '");
    NoQuoteIn(s, a + H + 20, b, NotQuote);
  }

  /** Position `o` holds a quote right after a white-space character. */
  predicate SpaceQuote(s: string, o: int) {
    1 <= o < |s| && IsSpace(s[o - 1]) && s[o] == '\''
  }

  /** The only places where a quote follows a white-space character: before
      the URL, the method, the header and the body, and at the very end. */
  lemma SpaceThenQuote(s: string, u: string, meth: string, h: string, b: string, o: nat)
    requires Plain(u, meth, h, b) && LaidOut(s, u, meth, h, b)
    requires SpaceQuote(s, o)
    ensures var U, M, H, B := |u|, |meth|, |h|, |b|;
      o == 5 || o == U + 11 || o == U + M + 17 || o == U + M + H + 31 || o == U + M + H + B + 32
  {
    var U, M := |u|, |meth|;
    if o < U + M + 12 {
      SpaceThenQuoteBefore(s, u, meth, o);
    } else {
      SpaceThenQuoteAfter(s, meth, h, b, U + M + 12, o);
    }
  }


  /** A stretch of a stretch of `s` known to equal `t`. */
  lemma SliceOf(s: string, a: nat, t: string, i: nat, j: nat)
    requires a + |t| <= |s| && s[a..a + |t|] == t && i <= j <= |t|
    ensures s[a + i..a + j] == t[i..j]
  {
    var x, y := s[a + i..a + j], t[i..j];
    forall k | 0 <= k < |x| ensures x[k] == y[k] {
      CharOf(s, a, t, a + i + k);
    }
  }

  /** `flag` is written at position `i` of `s`. */
  predicate FlagAt(s: string, i: nat, flag: string) {
    i + |flag| <= |s| && s[i..i + |flag|] == flag
  }

  /** A flag is not written where one of its characters is missing. */
  lemma FlagChar(s: string, i: nat, flag: string, k: nat)
    requires i + |flag| <= |s| && k < |flag| && s[i + k] != flag[k]
    ensures !FlagAt(s, i, flag)
  {
    assert s[i..i + |flag|][k] == s[i + k];
  }

  /** No quoted match starts in [lo, hi) when no position there holds the
      flag followed by white space, a quote and room for a token and its
      closing quote. */
  lemma NoQuotedIn(flag: string, token: CharClass, s: string, lo: nat, hi: nat)
    requires forall i: nat :: lo <= i < hi && i + |flag| + 4 <= |s| && SpaceQuote(s, i + |flag| + 1) ==>
      !FlagAt(s, i, flag)
    ensures forall m: Match :: lo <= m.start < hi ==> !Matches(Quoted(flag, token), s, m)
  {
    forall m: Match | lo <= m.start < hi && Matches(Quoted(flag, token), s, m) ensures false {
      assert SpaceQuote(s, m.start + |flag| + 1);
      assert FlagAt(s, m.start, flag);
    }
  }

  /** A flag written inside the literal "' <flag> '", followed by a token
      and a quote, is a match of the flag's pattern. */
  lemma QuotedMatchOf(s: string, a: nat, flag: string, token: CharClass, g: string)
    requires var lit := "' " + flag + " '";
      a + |lit| + |g| < |s| && s[a..a + |lit|] == lit &&
      s[a + |lit|..a + |lit| + |g|] == g && s[a + |lit| + |g|] == '\''
    requires g != [] && AllIn(g, token)
    ensures Matches(Quoted(flag, token), s, Match(a + 2, a + |flag| + |g| + 5, g))
  {
    var lit := "' " + flag + " '";
    var F := |flag|;
    SliceOf(s, a, lit, 2, F + 2);
    assert lit[2..F + 2] == flag;
    CharOf(s, a, lit, a + F + 2);
    CharOf(s, a, lit, a + F + 3);
  }

  /** The URL is the quoted token right after "curl ". */
  lemma UrlOfCommand(u: string, meth: string, h: string, b: string)
    requires Plain(u, meth, h, b)
    ensures Search(UrlPattern, Command(u, meth, h, b), 0) == Some(Match(0, |u| + 7, u))
  {
    var rest := " -X '" + meth + "' -H '" + h + "' --data-raw '" + b + "'";
    assert Command(u, meth, h, b) == "curl '" + u + "'" + rest;
    UrlRightAfterCurl(u, rest);
  }

  /** In a command with parts of lengths U, M, H and B, a quote follows
      white space only before each part and at the end. */
  ghost predicate QuotesAfterSpace(s: string, U: nat, M: nat, H: nat, B: nat) {
    forall o :: SpaceQuote(s, o) ==>
      o == 5 || o == U + 11 || o == U + M + 17 || o == U + M + H + 31 || o == U + M + H + B + 32
  }

  lemma QuotesOfCommand(s: string, u: string, meth: string, h: string, b: string)
    requires Plain(u, meth, h, b) && LaidOut(s, u, meth, h, b)
    ensures QuotesAfterSpace(s, |u|, |meth|, |h|, |b|)
  {
    forall o | SpaceQuote(s, o)
      ensures o == 5 || o == |u| + 11 || o == |u| + |meth| + 17 ||
        o == |u| + |meth| + |h| + 31 || o == |u| + |meth| + |h| + |b| + 32
    {
      SpaceThenQuote(s, u, meth, h, b, o);
    }
  }

  /** The method is the token after -X: the only other place where a quote
      follows white space before it is the URL's opening quote, and "rl"
      of "curl" is not "-X". */
  lemma MethodFound(s: string, U: nat, M: nat, H: nat, B: nat, m: Match)
    requires |s| == U + M + H + B + 33 && QuotesAfterSpace(s, U, M, H, B)
    requires s[2] == 'r'
    requires m.start == U + 8 && Matches(MethodPattern, s, m)
    ensures Search(MethodPattern, s, 0) == Some(m)
  {
    forall i: nat | i < U + 8 && i + 6 <= |s| && SpaceQuote(s, i + 3) ensures !FlagAt(s, i, "-X") {
      FlagChar(s, i, "-X", 0);
    }
    NoQuotedIn("-X", Word, s, 0, U + 8);
    SearchFindsQuoted(MethodPattern, s, 0, m);
  }

  /** The header is the only token after -H: the other places where a quote
      follows white space come after "rl" of "curl", after "-X" and after
      "aw" of "--data-raw", or leave no room for a token. */
  lemma HeaderFound(s: string, U: nat, M: nat, H: nat, B: nat, m: Match)
    requires |s| == U + M + H + B + 33 && QuotesAfterSpace(s, U, M, H, B)
    requires s[2] == 'r' && s[U + 9] == 'X' && s[U + M + H + 28] == 'a'
    requires m.start == U + M + 14 && Matches(HeaderPattern, s, m)
    ensures SearchAll(HeaderPattern, s, 0) == [m]
  {
    forall i: nat | i + 6 <= |s| && SpaceQuote(s, i + 3) && i != U + M + 14
      ensures !FlagAt(s, i, "-H")
    {
      if i == U + 8 {
        FlagChar(s, i, "-H", 1);
      } else {
        FlagChar(s, i, "-H", 0);
      }
    }
    NoQuotedIn("-H", NotQuote, s, 0, U + M + 14);
    SearchFindsQuoted(HeaderPattern, s, 0, m);
    NoQuotedIn("-H", NotQuote, s, m.end, |s|);
    forall m': Match | m.end <= m'.start ensures !Matches(HeaderPattern, s, m') {
      if |s| <= m'.start && Matches(HeaderPattern, s, m') {
        MatchSpan(HeaderPattern, s, m');
      }
    }
    SearchFindsNothing(HeaderPattern, s, m.end);
    assert SearchAll(HeaderPattern, s, 0) == [m] + SearchAll(HeaderPattern, s, m.end);
  }

  /** The body is the token after --data-raw: the other places where a
      quote follows white space and that leave room for the flag before
      them have a quote where the flag has its 'r'. */
  lemma BodyFound(s: string, U: nat, M: nat, H: nat, B: nat, m: Match)
    requires |s| == U + M + H + B + 33 && QuotesAfterSpace(s, U, M, H, B)
    requires s[U + 6] == '\'' && s[U + M + 12] == '\''
    requires m.start == U + M + H + 20 && Matches(BodyPattern, s, m)
    ensures Search(BodyPattern, s, 0) == Some(m)
  {
    forall i: nat | i < U + M + H + 20 && i + 14 <= |s| && SpaceQuote(s, i + 11)
      ensures !FlagAt(s, i, "--data-raw")
    {
      FlagChar(s, i, "--data-raw", 6);
    }
    NoQuotedIn("--data-raw", NotQuote, s, 0, U + M + H + 20);
    SearchFindsQuoted(BodyPattern, s, 0, m);
  }

  /** The method of the command. */
  lemma MethodOfCommand(s: string, u: string, meth: string, h: string, b: string)
    requires Plain(u, meth, h, b) && LaidOut(s, u, meth, h, b)
    ensures Search(MethodPattern, s, 0) == Some(Match(|u| + 8, |u| + |meth| + 13, meth))
  {
    var U, M := |u|, |meth|;
    QuotesOfCommand(s, u, meth, h, b);
    CharOf(s, 0, "curl '", 2);
    CharOf(s, U + M + 12, "' -H '", U + M + 12);
    QuotedMatchOf(s, U + 6, "-X", Word, meth);
    MethodFound(s, U, M, |h|, |b|, Match(U + 8, U + M + 13, meth));
  }

  /** The header text of the command. */
  lemma HeaderOfCommand(s: string, u: string, meth: string, h: string, b: string)
    requires Plain(u, meth, h, b) && LaidOut(s, u, meth, h, b)
    ensures SearchAll(HeaderPattern, s, 0) == [Match(|u| + |meth| + 14, |u| + |meth| + |h| + 19, h)]
  {
    var U, M, H := |u|, |meth|, |h|;
    QuotesOfCommand(s, u, meth, h, b);
    CharOf(s, 0, "curl '", 2);
    CharOf(s, U + 6, "' -X '", U + 9);
    CharOf(s, U + M + H + 18, "' --data-raw '", U + M + H + 18);
    CharOf(s, U + M + H + 18, "' --data-raw '", U + M + H + 28);
    QuotedMatchOf(s, U + M + 12, "-H", NotQuote, h);
    HeaderFound(s, U, M, H, |b|, Match(U + M + 14, U + M + H + 19, h));
  }

  /** The body of the command. */
  lemma BodyOfCommand(s: string, u: string, meth: string, h: string, b: string)
    requires Plain(u, meth, h, b) && LaidOut(s, u, meth, h, b)
    ensures Search(BodyPattern, s, 0) == Some(Match(|u| + |meth| + |h| + 20, |u| + |meth| + |h| + |b| + 33, b))
  {
    var U, M, H := |u|, |meth|, |h|;
    QuotesOfCommand(s, u, meth, h, b);
    CharOf(s, U + 6, "' -X '", U + 6);
    CharOf(s, U + M + 12, "' -H '", U + M + 12);
    QuotedMatchOf(s, U + M + H + 18, "--data-raw", NotQuote, b);
    BodyFound(s, U, M, H, |b|, Match(U + M + H + 20, U + M + H + |b| + 33, b));
  }

  /** Parsing the command fills the URL, method and body with its parts,
      whatever they held before, and the header text with its header. */
  lemma ParseCurlOfCommand(u: string, meth: string, h: string, b: string, url: string, requestMethod: string, body: string)
    requires Plain(u, meth, h, b)
    ensures var s := Command(u, meth, h, b);
      CaptureOr(Search(UrlPattern, s, 0), url) == u &&
      CaptureOr(Search(MethodPattern, s, 0), requestMethod) == meth &&
      HeaderLinesOf(s) == h &&
      CaptureOr(Search(BodyPattern, s, 0), body) == b
  {
    var s := Command(u, meth, h, b);
    Layout(u, meth, h, b);
    UrlOfCommand(u, meth, h, b);
    MethodOfCommand(s, u, meth, h, b);
    HeaderOfCommand(s, u, meth, h, b);
    BodyOfCommand(s, u, meth, h, b);
    assert Groups(SearchAll(HeaderPattern, s, 0)) == [h];
  }

  /** The parts of
      curl 'https://api.example.com/data' -X 'POST' -H 'Authorization: Bearer xyz' --data-raw '{"a":1}'
      are each accepted whole by their pattern. */
  lemma ExampleIsPlain(u: string, meth: string, h: string, b: string)
    requires u == "https://api.example.com/data" && meth == "POST"
    requires h == "Authorization: Bearer xyz" && b == "{\"a\":1}"
    ensures Plain(u, meth, h, b)
  {
    assert u[..8] == "https://";
  }

  /** Pasting that command into a fresh form. */
  method PasteExample() returns (form: ApiRequestForm)
    ensures form.url == "https://api.example.com/data" && form.requestMethod == "POST"
    ensures form.headers == "Authorization: Bearer xyz" && form.body == "{\"a\":1}"
  {
    var u, meth, h, b := "https://api.example.com/data", "POST", "Authorization: Bearer xyz", "{\"a\":1}";
    form := new ApiRequestForm();
    ExampleIsPlain(u, meth, h, b);
    ParseCurlOfCommand(u, meth, h, b, form.url, form.requestMethod, form.body);
    form.ParseCurl(Command(u, meth, h, b));
  }

}
