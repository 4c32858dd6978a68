/**
 The four regular expressions `parseCurl` runs over a pasted cURL command,
 each written out as one of two pattern shapes:

   /curl\s+'(https?:\/\/[^\s]+)'/      the URL
   /-X\s'(\w+)'/                       the method
   /-H\s'([^']+)'/g                    every header
   /--data-raw\s'([^']+)'/             the body

 `Matches` says declaratively when a pattern matches a stretch of the input
 (with which capture); `Search` and `SearchAll` are the JavaScript choices
 among those matches: `String.prototype.match` takes the leftmost start and,
 at that start, the alternative the backtracking engine tries first, which
 for these four patterns is the longest one; `matchAll` repeats the search
 from the end of each match.
 */
module CurlPatterns {

  import opened Wrappers
  import opened Strings

  /** `\w` (no `u` flag): ASCII letters, digits and the underscore. */
  predicate IsWordChar(c: char) {
    ('A' <= c <= 'Z') || ('a' <= c <= 'z') || ('0' <= c <= '9') || c == '_'
  }

  /** The character classes the four patterns use. */
  datatype CharClass = Space | NonSpace | Word | NotQuote

  predicate InClass(c: char, cls: CharClass) {
    match cls
    case Space => IsSpace(c)
    case NonSpace => !IsSpace(c)
    case Word => IsWordChar(c)
    case NotQuote => c != '\''
  }

  predicate AllIn(t: string, cls: CharClass) {
    forall k :: 0 <= k < |t| ==> InClass(t[k], cls)
  }

  /** `Url` is /curl\s+'(https?:\/\/[^\s]+)'/; `Quoted(flag, token)` is
      /<flag>\s'(<token>+)'/. */
  datatype Pattern =
    | Url
    | Quoted(flag: string, token: CharClass)

  const UrlPattern: Pattern := Url
  const MethodPattern: Pattern := Quoted("-X", Word)
  const HeaderPattern: Pattern := Quoted("-H", NotQuote)
  const BodyPattern: Pattern := Quoted("--data-raw", NotQuote)

  /** The token class of a quoted pattern cannot swallow its closing quote,
      so a quoted token ends at the first quote after it opens. */
  predicate WellFormed(p: Pattern) {
    p.Quoted? ==> !InClass('\'', p.token)
  }

  /** One match: the matched text is s[start..end] and `group` is capture 1. */
  datatype Match = Match(start: nat, end: nat, group: string)

  /** `g` is "http://" or "https://" followed by at least one character. */
  predicate HasScheme(g: string) {
    (|g| > 7 && g[..7] == "http://") || (|g| > 8 && g[..8] == "https://")
  }

  /** The text https?:\/\/[^\s]+ matches as a whole. */
  predicate IsUrl(g: string) {
    HasScheme(g) && forall k :: 0 <= k < |g| ==> !IsSpace(g[k])
  }

  /** Pattern `p` matches s[m.start..m.end] with capture `m.group`. */
  predicate Matches(p: Pattern, s: string, m: Match) {
    match p
    case Url =>
      // "curl", one or more spaces, a quote at q, the URL, a quote
      var q := m.end - |m.group| - 2;
      m.start + 5 <= q && m.end <= |s| &&
      s[m.start..m.start + 4] == "curl" &&
      AllSpace(s[m.start + 4..q]) &&
      s[q] == '\'' && s[q + 1..m.end - 1] == m.group && s[m.end - 1] == '\'' &&
      IsUrl(m.group)
    case Quoted(flag, token) =>
      // the flag, exactly one space, a quote at q, the token, a quote
      var q := m.start + |flag| + 1;
      q + |m.group| + 2 == m.end && m.end <= |s| &&
      s[m.start..m.start + |flag|] == flag && IsSpace(s[m.start + |flag|]) &&
      s[q] == '\'' && s[q + 1..m.end - 1] == m.group && s[m.end - 1] == '\'' &&
      m.group != [] && AllIn(m.group, token)
  }

  /** `m` is the match the engine reports for a search that starts at m.start:
      no match starting there is longer. */
  ghost predicate Greediest(p: Pattern, s: string, m: Match) {
    Matches(p, s, m) &&
    forall m': Match :: m'.start == m.start && Matches(p, s, m') ==> m'.end <= m.end
  }

  /** `m` is what a search of `s` from position `from` reports: the greediest
      match at the leftmost start at or after `from`. */
  ghost predicate IsFirstMatch(p: Pattern, s: string, from: nat, m: Match) {
    from <= m.start && Greediest(p, s, m) &&
    forall m': Match :: from <= m'.start < m.start ==> !Matches(p, s, m')
  }

  /** End of the longest run of `cls` characters starting at `from`. */
  function RunEnd(s: string, from: nat, cls: CharClass): (e: nat)
    requires from <= |s|
    ensures from <= e <= |s|
    ensures forall k :: from <= k < e ==> InClass(s[k], cls)
    ensures e == |s| || !InClass(s[e], cls)
    decreases |s| - from
  {
    if from < |s| && InClass(s[from], cls) then RunEnd(s, from + 1, cls) else from
  }

  /** The last quote in s[lo..hi]: where a greedy [^\s]+ that has to be
      followed by a quote stops after backtracking. */
  function LastQuote(s: string, lo: nat, hi: nat): (r: Option<nat>)
    requires hi <= |s|
    ensures r.Some? ==> lo <= r.value < hi && s[r.value] == '\''
    ensures forall k :: lo <= k < hi && s[k] == '\'' ==> r.Some? && k <= r.value
    decreases hi
  {
    if hi <= lo then None
    else if s[hi - 1] == '\'' then Some(hi - 1)
    else LastQuote(s, lo, hi - 1)
  }

  /** Length of the https?:\/\/ prefix at `at`, or 0 when there is none. */
  function SchemeLength(s: string, at: nat): nat {
    if at + 8 <= |s| && s[at..at + 8] == "https://" then 8
    else if at + 7 <= |s| && s[at..at + 7] == "http://" then 7
    else 0
  }

  /** The URL pattern tried at start `i`. The spaces after "curl" are taken
      whole (a quote must follow them); the URL then runs to the last quote
      before the next white space. */
  function UrlAt(s: string, i: nat): Option<Match> {
    if i + 4 <= |s| && s[i..i + 4] == "curl" then
      var q := RunEnd(s, i + 4, Space);
      if i + 4 < q < |s| && s[q] == '\'' then QuotedUrl(s, i, q) else None
    else None
  }

  /** The quoted URL after the opening quote at `q` of a match starting at `i`. */
  function QuotedUrl(s: string, i: nat, q: nat): Option<Match>
    requires q < |s|
  {
    var n := SchemeLength(s, q + 1);
    if n > 0 then
      var e := RunEnd(s, q + 1, NonSpace);
      var last := LastQuote(s, q + 2 + n, e);
      if last.Some? then Some(Match(i, last.value + 1, s[q + 1..last.value])) else None
    else None
  }

  /** A quoted pattern tried at start `i`: the token runs to the end of its
      character class, and a quote must follow. */
  function QuotedAt(s: string, i: nat, flag: string, token: CharClass): Option<Match> {
    var q := i + |flag| + 1;
    if q < |s| && s[i..i + |flag|] == flag && IsSpace(s[i + |flag|]) && s[q] == '\'' then
      var e := RunEnd(s, q + 1, token);
      if q + 1 < e < |s| && s[e] == '\'' then Some(Match(i, e + 1, s[q + 1..e])) else None
    else None
  }

  /** The text from the opening quote `q` to a quote `k` past the scheme
      and inside the following non-space run is a URL. */
  lemma UrlTextOf(s: string, q: nat, k: nat)
    requires q < |s| && SchemeLength(s, q + 1) > 0
    requires q + 2 + SchemeLength(s, q + 1) <= k <= RunEnd(s, q + 1, NonSpace)
    ensures IsUrl(s[q + 1..k])
  {
    var g := s[q + 1..k];
    SchemeOfText(s, q + 1, g);
    forall j | 0 <= j < |g| ensures !IsSpace(g[j]) {
      assert g[j] == s[q + 1 + j];
    }
  }

  /** "curl", white space, a quote at `q`, a URL and a quote at `k` make a
      URL match. */
  lemma UrlMatchOf(s: string, i: nat, q: nat, k: nat)
    requires i + 4 < q < k < |s| && s[i..i + 4] == "curl" && AllSpace(s[i + 4..q])
    requires s[q] == '\'' && s[k] == '\'' && IsUrl(s[q + 1..k])
    ensures Matches(Url, s, Match(i, k + 1, s[q + 1..k]))
  {
    var m := Match(i, k + 1, s[q + 1..k]);
    assert m.end - |m.group| - 2 == q;
  }

  /** What QuotedUrl finds after a well-formed "curl" and opening quote is a
      URL match. */
  lemma QuotedUrlSound(s: string, i: nat, q: nat)
    requires i + 4 < q < |s| && s[i..i + 4] == "curl" && AllSpace(s[i + 4..q]) && s[q] == '\''
    ensures QuotedUrl(s, i, q).Some? ==>
      QuotedUrl(s, i, q).value.start == i && Matches(Url, s, QuotedUrl(s, i, q).value)
  {
    if QuotedUrl(s, i, q).Some? {
      var n := SchemeLength(s, q + 1);
      var e := RunEnd(s, q + 1, NonSpace);
      var k := LastQuote(s, q + 2 + n, e).value;
      assert QuotedUrl(s, i, q).value == Match(i, k + 1, s[q + 1..k]);
      UrlTextOf(s, q, k);
      UrlMatchOf(s, i, q, k);
    }
  }

  lemma UrlAtSound(s: string, i: nat)
    ensures UrlAt(s, i).Some? ==> UrlAt(s, i).value.start == i && Matches(Url, s, UrlAt(s, i).value)
  {
    if UrlAt(s, i).Some? {
      var q := RunEnd(s, i + 4, Space);
      assert UrlAt(s, i) == QuotedUrl(s, i, q);
      assert AllSpace(s[i + 4..q]);
      QuotedUrlSound(s, i, q);
    }
  }

  /** A run that stops exactly at `to` is the longest run from `from`. */
  lemma RunEndAt(s: string, from: nat, to: nat, cls: CharClass)
    requires from <= to <= |s|
    requires forall j :: from <= j < to ==> InClass(s[j], cls)
    requires to == |s| || !InClass(s[to], cls)
    ensures RunEnd(s, from, cls) == to
  {
  }

  /** A run through position `to` goes past it. */
  lemma RunEndPast(s: string, from: nat, to: nat, cls: CharClass)
    requires from <= to < |s|
    requires forall j :: from <= j <= to ==> InClass(s[j], cls)
    ensures RunEnd(s, from, cls) > to
  {
  }

  /** A URL written at `at` starts with the scheme SchemeLength finds there,
      and has more after it. */
  lemma SchemeOfUrl(s: string, at: nat, g: string)
    requires IsUrl(g) && at + |g| <= |s| && s[at..at + |g|] == g
    ensures 0 < SchemeLength(s, at) < |g|
  {
    if g[..7] == "http://" {
      assert s[at..at + 7] == g[..7];
      assert s[at + 4] == ':';
    } else {
      assert s[at..at + 8] == g[..8];
    }
  }

  /** Text that starts where SchemeLength finds a scheme, and is longer than
      the scheme, has that scheme. */
  lemma SchemeOfText(s: string, at: nat, g: string)
    requires at + |g| <= |s| && s[at..at + |g|] == g
    requires 0 < SchemeLength(s, at) < |g|
    ensures HasScheme(g)
  {
    var n := SchemeLength(s, at);
    assert g[..n] == s[at..at + n];
  }

  /** In a URL match the white space after "curl" is the whole run. */
  lemma UrlOpeningQuote(s: string, m: Match)
    requires Matches(Url, s, m)
    ensures RunEnd(s, m.start + 4, Space) == m.end - |m.group| - 2
  {
    var i := m.start;
    var q := m.end - |m.group| - 2;
    forall j | i + 4 <= j < q ensures IsSpace(s[j]) {
      assert s[i + 4..q][j - (i + 4)] == s[j];
    }
    RunEndAt(s, i + 4, q, Space);
  }

  /** In a URL match the scheme is where SchemeLength finds it, and the
      closing quote lies inside the non-space run that follows the opening
      quote. */
  lemma UrlClosingQuote(s: string, m: Match)
    requires Matches(Url, s, m)
    ensures var q := m.end - |m.group| - 2;
      0 < SchemeLength(s, q + 1) < |m.group| && m.end - 1 < RunEnd(s, q + 1, NonSpace)
  {
    var g := m.group;
    var q := m.end - |g| - 2;
    SchemeOfUrl(s, q + 1, g);
    var k := m.end - 1;
    forall j | q + 1 <= j <= k ensures !IsSpace(s[j]) {
      if j < k {
        assert s[j] == g[j - (q + 1)];
      }
    }
    RunEndPast(s, q + 1, k, NonSpace);
  }

  /** A URL match stops before the first white space after its opening
      quote. */
  lemma UrlStopsAtSpace(s: string, m: Match, j: nat)
    requires Matches(Url, s, m)
    requires m.end - |m.group| - 2 < j < |s| && IsSpace(s[j])
    ensures m.end <= j
  {
  }

  /** A closing quote `k` after the scheme and inside the non-space run that
      follows "curl", white space and an opening quote at `q` is reached by
      the URL pattern tried at `i`. */
  lemma UrlAtReaches(s: string, i: nat, q: nat, k: nat)
    requires i + 4 <= |s| && s[i..i + 4] == "curl"
    requires q == RunEnd(s, i + 4, Space) && i + 4 < q < |s| && s[q] == '\''
    requires SchemeLength(s, q + 1) > 0
    requires q + 2 + SchemeLength(s, q + 1) <= k < RunEnd(s, q + 1, NonSpace) && s[k] == '\''
    ensures UrlAt(s, i).Some? && k < UrlAt(s, i).value.end
  {
    assert UrlAt(s, i) == QuotedUrl(s, i, q);
  }

  /** Two URL matches at one start are the same when the shorter one is
      followed by white space or the end of the input. */
  lemma UrlMatchUnique(s: string, m: Match, f: Match)
    requires Matches(Url, s, m) && Matches(Url, s, f)
    requires m.start == f.start && m.end <= f.end
    requires m.end == |s| || IsSpace(s[m.end])
    ensures f == m
  {
    UrlOpeningQuote(s, m);
    UrlOpeningQuote(s, f);
    var q := m.end - |m.group| - 2;
    assert f.end - |f.group| - 2 == q;
    if m.end < |s| {
      UrlStopsAtSpace(s, f, m.end);
    }
    assert f.end == m.end && |f.group| == |m.group|;
    assert f.group == s[q + 1..m.end - 1] == m.group;
  }

  lemma UrlAtCovers(s: string, m: Match)
    requires Matches(Url, s, m)
    ensures UrlAt(s, m.start).Some? && m.end <= UrlAt(s, m.start).value.end
  {
    var i, q, k := m.start, m.end - |m.group| - 2, m.end - 1;
    UrlOpeningQuote(s, m);
    UrlClosingQuote(s, m);
    var n, e := SchemeLength(s, q + 1), RunEnd(s, q + 1, NonSpace);
    assert 0 < n < |m.group| && k < e;
    assert i + 4 <= |s| && s[i..i + 4] == "curl";
    assert i + 4 < q < |s| && s[q] == '\'' && s[k] == '\'';
    UrlAtReaches(s, i, q, k);
    var r := UrlAt(s, i);
    assert r.Some? && k < r.value.end;
  }

  lemma QuotedAtSound(s: string, i: nat, flag: string, token: CharClass)
    ensures QuotedAt(s, i, flag, token).Some? ==>
      QuotedAt(s, i, flag, token).value.start == i && Matches(Quoted(flag, token), s, QuotedAt(s, i, flag, token).value)
  {
    if QuotedAt(s, i, flag, token).Some? {
      var q := i + |flag| + 1;
      var e := RunEnd(s, q + 1, token);
      var g := s[q + 1..e];
      assert forall j :: 0 <= j < |g| ==> g[j] == s[q + 1 + j];
    }
  }

  lemma QuotedAtCovers(s: string, flag: string, token: CharClass, m: Match)
    requires !InClass('\'', token)
    requires Matches(Quoted(flag, token), s, m)
    ensures QuotedAt(s, m.start, flag, token) == Some(m)
  {
    var q, e := m.start + |flag| + 1, m.end - 1;
    var g := m.group;
    assert s[q + 1..e] == g && AllIn(g, token);
    forall j | q + 1 <= j < e ensures InClass(s[j], token) {
      assert s[j] == g[j - (q + 1)];
    }
    RunEndAt(s, q + 1, e, token);
    assert q + 1 < e < |s| && s[e] == '\'';
    assert QuotedAt(s, m.start, flag, token) == Some(Match(m.start, e + 1, s[q + 1..e]));
  }

  /** The pattern tried at one start position, as the regular-expression
      engine does it. */
  function MatchAt(p: Pattern, s: string, i: nat): (r: Option<Match>)
    requires WellFormed(p)
    ensures r.Some? ==> r.value.start == i && Greediest(p, s, r.value)
    ensures r.None? ==> forall m: Match :: m.start == i ==> !Matches(p, s, m)
  {
    match p
    case Url =>
      UrlAtSound(s, i);
      assert forall m: Match :: m.start == i && Matches(p, s, m) ==>
        UrlAt(s, i).Some? && m.end <= UrlAt(s, i).value.end by {
        forall m: Match | m.start == i && Matches(p, s, m)
          ensures UrlAt(s, i).Some? && m.end <= UrlAt(s, i).value.end {
          UrlAtCovers(s, m);
        }
      }
      UrlAt(s, i)
    case Quoted(flag, token) =>
      QuotedAtSound(s, i, flag, token);
      assert forall m: Match :: m.start == i && Matches(p, s, m) ==> QuotedAt(s, i, flag, token) == Some(m) by {
        forall m: Match | m.start == i && Matches(p, s, m) ensures QuotedAt(s, i, flag, token) == Some(m) {
          QuotedAtCovers(s, flag, token, m);
        }
      }
      QuotedAt(s, i, flag, token)
  }

  /** A search of `s` from position `from` (`s.match(p)` is the search from
      0): the pattern tried at each start in turn. */
  function Search(p: Pattern, s: string, from: nat): (r: Option<Match>)
    requires WellFormed(p) && from <= |s|
    ensures r.Some? ==> from <= r.value.start < r.value.end <= |s|
    decreases |s| - from
  {
    if from == |s| then None
    else
      match MatchAt(p, s, from)
      case Some(m) => MatchSpan(p, s, m); Some(m)
      case None => Search(p, s, from + 1)
  }

  /** The search reports the leftmost match, the greediest one at its start,
      and finds nothing only when there is no match at all. */
  lemma {:induction false} SearchFindsFirst(p: Pattern, s: string, from: nat)
    requires WellFormed(p) && from <= |s|
    ensures Search(p, s, from).Some? ==> IsFirstMatch(p, s, from, Search(p, s, from).value)
    ensures Search(p, s, from).None? ==> forall m: Match :: from <= m.start ==> !Matches(p, s, m)
    decreases |s| - from
  {
    if from == |s| {
      forall m: Match | from <= m.start && Matches(p, s, m) ensures false {
        MatchSpan(p, s, m);
      }
    } else if MatchAt(p, s, from).None? {
      SearchFindsFirst(p, s, from + 1);
    }
  }

  /** A match with none before it (from `from` on) is where the search
      stops, and the search's match there is at least as long. */
  lemma SearchStartsAt(p: Pattern, s: string, from: nat, m: Match)
    requires WellFormed(p) && from <= m.start && Matches(p, s, m)
    requires forall m': Match :: from <= m'.start < m.start ==> !Matches(p, s, m')
    ensures from <= |s| && Search(p, s, from).Some?
    ensures var f := Search(p, s, from).value;
      f.start == m.start && m.end <= f.end && Matches(p, s, f)
  {
    MatchSpan(p, s, m);
    SearchFindsFirst(p, s, from);
  }

  /** For a quoted pattern, a match is unique at its start, so a match with
      none before it is exactly what the search reports. */
  lemma SearchFindsQuoted(p: Pattern, s: string, from: nat, m: Match)
    requires p.Quoted? && WellFormed(p) && from <= m.start && Matches(p, s, m)
    requires forall m': Match :: from <= m'.start < m.start ==> !Matches(p, s, m')
    ensures from <= |s| && Search(p, s, from) == Some(m)
  {
    SearchStartsAt(p, s, from, m);
    var f := Search(p, s, from).value;
    QuotedAtCovers(s, p.flag, p.token, f);
    QuotedAtCovers(s, p.flag, p.token, m);
  }

  /** With no match from `from` on, the search reports nothing. */
  lemma SearchFindsNothing(p: Pattern, s: string, from: nat)
    requires WellFormed(p) && from <= |s|
    requires forall m: Match :: from <= m.start ==> !Matches(p, s, m)
    ensures Search(p, s, from) == None
  {
    SearchFindsFirst(p, s, from);
  }

  /** `[...s.matchAll(p)]` for the global form of `p`, continued from
      `from`: each search resumes where the previous match ended. */
  function SearchAll(p: Pattern, s: string, from: nat): (r: seq<Match>)
    requires WellFormed(p) && from <= |s|
    ensures forall k :: 0 <= k < |r| ==> from <= r[k].start && r[k].end <= |s|
    decreases |s| - from
  {
    match Search(p, s, from)
    case None => []
    case Some(m) => [m] + SearchAll(p, s, m.end)
  }

  /** Where the search for the k-th match of matchAll starts: `from` for the
      first, the end of the previous match after that. */
  function ResumeAt(r: seq<Match>, from: nat, k: nat): nat
    requires k < |r|
  {
    if k == 0 then from else r[k - 1].end
  }

  /** Each match matchAll reports is the one a search from the end of the
      previous match reports; so they come in order and do not overlap. */
  lemma {:induction false} SearchAllChained(p: Pattern, s: string, from: nat, k: nat)
    requires WellFormed(p) && from <= |s|
    requires k < |SearchAll(p, s, from)|
    ensures IsFirstMatch(p, s, ResumeAt(SearchAll(p, s, from), from, k), SearchAll(p, s, from)[k])
    decreases |s| - from
  {
    SearchFindsFirst(p, s, from);
    var m := Search(p, s, from).value;
    var rest := SearchAll(p, s, m.end);
    var r := [m] + rest;
    assert SearchAll(p, s, from) == r;
    if k > 0 {
      SearchAllChained(p, s, m.end, k - 1);
      assert r[k] == rest[k - 1];
      assert ResumeAt(r, from, k) == ResumeAt(rest, m.end, k - 1);
    }
  }

  /** Position `i` lies inside one of the matches `ms`. */
  predicate Covered(ms: seq<Match>, i: nat) {
    exists k :: 0 <= k < |ms| && ms[k].start <= i < ms[k].end
  }

  /** No match of `p` is skipped: every match starting at or after `from`
      starts inside one that matchAll reports. */
  lemma {:induction false} SearchAllCovers(p: Pattern, s: string, from: nat, m: Match)
    requires WellFormed(p) && from <= |s|
    requires from <= m.start && Matches(p, s, m)
    ensures Covered(SearchAll(p, s, from), m.start)
    decreases |s| - from
  {
    SearchFindsFirst(p, s, from);
    var f := Search(p, s, from).value;
    assert f.start <= m.start;
    var rest := SearchAll(p, s, f.end);
    var r := [f] + rest;
    assert SearchAll(p, s, from) == r;
    if m.start < f.end {
      assert r[0].start <= m.start < r[0].end;
    } else {
      SearchAllCovers(p, s, f.end, m);
      var k :| 0 <= k < |rest| && rest[k].start <= m.start < rest[k].end;
      assert r[k + 1] == rest[k];
    }
  }

  /** A match is a non-empty stretch of the input. */
  lemma MatchSpan(p: Pattern, s: string, m: Match)
    requires Matches(p, s, m)
    ensures m.start < m.end <= |s|
  {
  }

  /** The captures of a sequence of matches, in order (`match[1]` of each). */
  function Groups(ms: seq<Match>): (r: seq<string>)
    ensures |r| == |ms|
    ensures forall k :: 0 <= k < |ms| ==> r[k] == ms[k].group
  {
    seq(|ms|, k requires 0 <= k < |ms| => ms[k].group)
  }

}
