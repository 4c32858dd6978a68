/**
 The JavaScript string primitives the form relies on, over `seq<char>`:
 the `\s` character set, `String.prototype.trim`, `indexOf` of one
 character, `split` on a one-character separator and `Array.prototype.join`.
 */
module Strings {

  /** The code points JavaScript counts as WhiteSpace or LineTerminator:
      exactly the set `\s` matches in a regular expression and the set
      `trim` removes from both ends of a string. */
  predicate IsSpace(c: char) {
    var n := c as int;
    n == 0x09 || n == 0x0A || n == 0x0B || n == 0x0C || n == 0x0D ||
    n == 0x20 || n == 0xA0 || n == 0x1680 || (0x2000 <= n <= 0x200A) ||
    n == 0x2028 || n == 0x2029 || n == 0x202F || n == 0x205F ||
    n == 0x3000 || n == 0xFEFF
  }

  predicate AllSpace(s: string) {
    forall k :: 0 <= k < |s| ==> IsSpace(s[k])
  }

  /** True if `t` has no white space at either end. */
  predicate Trimmed(t: string) {
    t == [] || (!IsSpace(t[0]) && !IsSpace(t[|t| - 1]))
  }

  /** Leading white space removed: `r` is the suffix of `s` that starts at
      its first non-space character. */
  function TrimStart(s: string): (r: string)
    ensures |r| <= |s| && r == s[|s| - |r|..]
    ensures AllSpace(s[..|s| - |r|])
    ensures r == [] || !IsSpace(r[0])
  {
    if |s| > 0 && IsSpace(s[0]) then
      var r := TrimStart(s[1..]);
      var n := |s| - |r|;
      assert s[1..][n - 1..] == s[n..];
      assert forall k :: 1 <= k < n ==> s[k] == s[1..][..n - 1][k - 1];
      r
    else s
  }

  /** Trailing white space removed: `r` is the prefix of `s` that ends at
      its last non-space character. */
  function TrimEnd(s: string): (r: string)
    ensures |r| <= |s| && r == s[..|r|]
    ensures AllSpace(s[|r|..])
    ensures r == [] || !IsSpace(r[|r| - 1])
  {
    if |s| > 0 && IsSpace(s[|s| - 1]) then
      var r := TrimEnd(s[..|s| - 1]);
      assert s[..|s| - 1][..|r|] == s[..|r|];
      assert forall k :: |r| <= k < |s| - 1 ==> s[k] == s[..|s| - 1][|r|..][k - |r|];
      r
    else s
  }

  /** `s.trim()` */
  function Trim(s: string): (r: string)
    ensures Trimmed(r)
  {
    TrimEnd(TrimStart(s))
  }

  lemma {:induction false} TrimStartOfSpaced(x: string, t: string)
    requires AllSpace(x)
    requires t == [] || !IsSpace(t[0])
    ensures TrimStart(x + t) == t
    decreases |x|
  {
    if x != [] {
      assert (x + t)[1..] == x[1..] + t;
      TrimStartOfSpaced(x[1..], t);
    } else {
      assert x + t == t;
    }
  }

  lemma {:induction false} TrimEndOfSpaced(t: string, y: string)
    requires AllSpace(y)
    requires t == [] || !IsSpace(t[|t| - 1])
    ensures TrimEnd(t + y) == t
    decreases |y|
  {
    if y != [] {
      assert (t + y)[..|t + y| - 1] == t + y[..|y| - 1];
      TrimEndOfSpaced(t, y[..|y| - 1]);
    } else {
      assert t + y == t;
    }
  }

  /** Trim characterised independently of how it is computed: whatever
      white space surrounds a string with non-space ends, trimming gives
      back exactly that string. */
  lemma TrimOfPadded(x: string, t: string, y: string)
    requires AllSpace(x) && AllSpace(y) && Trimmed(t)
    ensures Trim(x + t + y) == t
  {
    if t == [] {
      assert x + t + y == x + y;
      TrimStartOfSpaced(x + y, []);
      assert x + y + [] == x + y;
      assert TrimStart(x + y) == [];
    } else {
      assert x + t + y == x + (t + y);
      TrimStartOfSpaced(x, t + y);
      TrimEndOfSpaced(t, y);
    }
  }

  /** A string without white space at either end is its own trim. */
  lemma TrimmedIsTrim(t: string)
    requires Trimmed(t)
    ensures Trim(t) == t
  {
    assert [] + t + [] == t;
    TrimOfPadded([], t, []);
  }

  /** Trimming twice is trimming once. */
  lemma TrimIdempotent(s: string)
    ensures Trim(Trim(s)) == Trim(s)
  {
    TrimmedIsTrim(Trim(s));
  }

  /** `s.indexOf(c)` when `c` occurs in `s`: its first position. */
  function IndexOf(s: string, c: char): (i: nat)
    requires c in s
    ensures i < |s| && s[i] == c && c !in s[..i]
  {
    if s[0] == c then 0
    else
      var j := IndexOf(s[1..], c);
      assert s[..j + 1] == [s[0]] + s[1..][..j];
      1 + j
  }

  /** `s.split(sep)` for a one-character separator: the pieces between
      consecutive occurrences of `sep`; "" splits into [""]. */
  function Split(s: string, sep: char): (r: seq<string>)
    ensures |r| > 0
    ensures forall k :: 0 <= k < |r| ==> sep !in r[k]
    decreases |s|
  {
    if sep in s then
      var i := IndexOf(s, sep);
      [s[..i]] + Split(s[i + 1..], sep)
    else
      [s]
  }

  /** `parts.join(sep)`: [] joins to "". */
  function Join(parts: seq<string>, sep: char): string
    decreases |parts|
  {
    if |parts| == 0 then ""
    else if |parts| == 1 then parts[0]
    else parts[0] + [sep] + Join(parts[1..], sep)
  }

  /** Joining the pieces of a split gives back the original text. */
  lemma {:induction false} JoinSplit(s: string, sep: char)
    ensures Join(Split(s, sep), sep) == s
    decreases |s|
  {
    if sep in s {
      var i := IndexOf(s, sep);
      var before, after := s[..i], s[i + 1..];
      var rest := Split(after, sep);
      assert Split(s, sep) == [before] + rest;
      JoinSplit(after, sep);
      JoinCons(before, rest, sep);
      assert s == before + [sep] + after;
    }
  }

  /** Joining a piece in front of a non-empty list puts a separator
      between them. */
  lemma JoinCons(head: string, rest: seq<string>, sep: char)
    requires |rest| > 0
    ensures Join([head] + rest, sep) == head + [sep] + Join(rest, sep)
  {
    assert ([head] + rest)[1..] == rest;
  }

  /** IndexOf is the first position: any occurrence with none before it. */
  lemma IndexOfFirst(s: string, c: char, i: nat)
    requires i < |s| && s[i] == c && c !in s[..i]
    ensures IndexOf(s, c) == i
  {
    var j := IndexOf(s, c);
  }

  /** The first piece of a split runs up to the first separator. */
  lemma SplitHead(s: string, sep: char, i: nat)
    requires i <= |s| && sep !in s[..i]
    requires i == |s| || s[i] == sep
    ensures Split(s, sep)[0] == s[..i]
  {
    if i < |s| {
      IndexOfFirst(s, sep, i);
    } else {
      assert s[..i] == s;
    }
  }

  /** After the first separator, a split continues with the split of the
      rest. */
  lemma SplitTail(s: string, sep: char, i: nat)
    requires i < |s| && s[i] == sep && sep !in s[..i]
    ensures Split(s, sep) == [s[..i]] + Split(s[i + 1..], sep)
  {
    IndexOfFirst(s, sep, i);
  }

  /** With a first separator at i and the next one (or the end) at j, the
      first two pieces are the text before i and the text between. */
  lemma SplitFirstTwo(s: string, sep: char, i: nat, j: nat)
    requires i < j <= |s| && s[i] == sep
    requires sep !in s[..i] && sep !in s[i + 1..j]
    requires j == |s| || s[j] == sep
    ensures |Split(s, sep)| > 1
    ensures Split(s, sep)[0] == s[..i] && Split(s, sep)[1] == s[i + 1..j]
  {
    var rest, k := s[i + 1..], j - (i + 1);
    assert rest[..k] == s[i + 1..j];
    assert k == |rest| || rest[k] == s[j];
    SplitHead(rest, sep, k);
    SplitTail(s, sep, i);
    var tail := Split(rest, sep);
    assert Split(s, sep) == [s[..i]] + tail;
    assert tail[0] == s[i + 1..j];
  }

  /** Splitting a join of separator-free pieces gives back the pieces; the
      one exception is [], which joins to "" and splits to [""]. */
  lemma {:induction false} SplitJoin(parts: seq<string>, sep: char)
    requires |parts| > 0
    requires forall k :: 0 <= k < |parts| ==> sep !in parts[k]
    ensures Split(Join(parts, sep), sep) == parts
    decreases |parts|
  {
    if |parts| > 1 {
      var head, tail := parts[0], Join(parts[1..], sep);
      var s := head + [sep] + tail;
      assert Join(parts, sep) == s;
      var n := |head|;
      assert s[..n] == head;
      assert s[n] == sep;
      assert s[n + 1..] == tail;
      SplitTail(s, sep, n);
      SplitJoin(parts[1..], sep);
      assert parts == [parts[0]] + parts[1..];
    }
  }

}
