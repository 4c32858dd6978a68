/**
 `parseHeaders`: the header text of the form, one "Key: Value" per line,
 turned into the object sent as request headers. Each line is split on
 every ':' and the first two pieces, trimmed, become key and value;
 `Object.fromEntries` then builds the object, a later line overriding an
 earlier one with the same key. A value is None where JavaScript has
 `undefined`: a line without a colon.
 */
module HeaderText {

  import opened Wrappers
  import opened Strings

  type Entry = (string, Option<string>)

  /** `const [key, value] = line.split(':').map(str => str.trim())` */
  function ParseLine(line: string): Entry {
    var parts := Split(line, ':');
    (Trim(parts[0]), if |parts| > 1 then Some(Trim(parts[1])) else None)
  }

  /** One entry per '\n'-separated line, in order. */
  function HeaderEntries(text: string): seq<Entry> {
    var lines := Split(text, '\n');
    seq(|lines|, k requires 0 <= k < |lines| => ParseLine(lines[k]))
  }

  /** `Object.fromEntries(entries)`: each entry in turn defines its key,
      overriding any earlier entry with that key. */
  function FromEntries(entries: seq<Entry>): map<string, Option<string>>
    decreases |entries|
  {
    if entries == [] then map[]
    else
      var n := |entries| - 1;
      FromEntries(entries[..n])[entries[n].0 := entries[n].1]
  }

  /** The keys of the object are exactly the keys of the entries. */
  lemma {:induction false} FromEntriesKeys(entries: seq<Entry>, key: string)
    ensures key in FromEntries(entries) <==> exists k :: 0 <= k < |entries| && entries[k].0 == key
    decreases |entries|
  {
    if entries != [] {
      var n := |entries| - 1;
      var init := entries[..n];
      FromEntriesKeys(init, key);
      assert forall k :: 0 <= k < n ==> init[k] == entries[k];
      if key != entries[n].0 && key in FromEntries(entries) {
        var k :| 0 <= k < n && init[k].0 == key;
        assert entries[k].0 == key;
      }
    }
  }

  /** A key keeps the value of its last entry. */
  lemma {:induction false} FromEntriesLast(entries: seq<Entry>, k: nat)
    requires k < |entries|
    requires forall j :: k < j < |entries| ==> entries[j].0 != entries[k].0
    ensures entries[k].0 in FromEntries(entries) && FromEntries(entries)[entries[k].0] == entries[k].1
    decreases |entries|
  {
    var n := |entries| - 1;
    if k < n {
      var init := entries[..n];
      assert init[k] == entries[k];
      FromEntriesLast(init, k);
    }
  }

  /** `parseHeaders(headersStr)` */
  function ParseHeaders(text: string): map<string, Option<string>> {
    FromEntries(HeaderEntries(text))
  }

  /** A line without a colon is all key; its value is undefined. */
  lemma ParseLineWithoutColon(line: string)
    requires ':' !in line
    ensures ParseLine(line) == (Trim(line), None)
  {
  }

  /** With a colon at i, the key is the trimmed text before it and the value
      the trimmed text up to the next colon (or the end); anything after a
      second colon is dropped. */
  lemma ParseLineWithColon(line: string, i: nat, j: nat)
    requires i < j <= |line| && line[i] == ':'
    requires ':' !in line[..i] && ':' !in line[i + 1..j]
    requires j == |line| || line[j] == ':'
    ensures ParseLine(line) == (Trim(line[..i]), Some(Trim(line[i + 1..j])))
  {
    SplitFirstTwo(line, ':', i, j);
  }

  /** A key is in the object iff some line has it as its key. */
  lemma ParseHeadersKeys(text: string, key: string)
    ensures var lines := Split(text, '\n');
      key in ParseHeaders(text) <==> exists k :: 0 <= k < |lines| && ParseLine(lines[k]).0 == key
  {
    var lines := Split(text, '\n');
    var es := HeaderEntries(text);
    FromEntriesKeys(es, key);
    assert forall k :: 0 <= k < |lines| ==> es[k] == ParseLine(lines[k]);
  }

  /** A key that occurs on several lines keeps the value of its last line. */
  lemma ParseHeadersLast(text: string, k: nat)
    requires k < |Split(text, '\n')|
    requires var lines := Split(text, '\n');
      forall j :: k < j < |lines| ==> ParseLine(lines[j]).0 != ParseLine(lines[k]).0
    ensures var line := ParseLine(Split(text, '\n')[k]);
      line.0 in ParseHeaders(text) && ParseHeaders(text)[line.0] == line.1
  {
    var lines := Split(text, '\n');
    var es := HeaderEntries(text);
    assert forall j :: 0 <= j < |lines| ==> es[j] == ParseLine(lines[j]);
    FromEntriesLast(es, k);
  }

  /** The empty header text is one empty line: one entry, key "" with an
      undefined value, not an empty object. */
  lemma ParseHeadersOfEmpty()
    ensures ParseHeaders("") == map["" := None]
  {
    assert Split("", '\n') == [""];
    assert Split("", ':') == [""];
    assert Trim("") == "";
    assert HeaderEntries("") == [("", None)];
  }

  /** A line written as `key + ": " + value` parses back to that key and
      value, for a key and a value with no colon and no surrounding white
      space. */
  lemma ParseLineOfPair(key: string, value: string)
    requires ':' !in key && ':' !in value
    requires Trimmed(key) && Trimmed(value)
    ensures ParseLine(key + ": " + value) == (key, Some(value))
  {
    var line := key + ": " + value;
    PairLineShape(key, value);
    var i := |key|;
    var before, after := line[..i], line[i + 1..];
    assert before == key;
    assert after == [' '] + value;
    assert line[i + 1..|line|] == after;
    ParseLineWithColon(line, i, |line|);
    TrimmedIsTrim(key);
    PaddedValue(value);
    assert Trim(before) == key;
    assert Trim(after) == value;
  }

  /** Where the colon of a "Key: Value" line sits, and what follows it. */
  lemma PairLineShape(key: string, value: string)
    requires ':' !in key && ':' !in value
    ensures var line := key + ": " + value;
      |key| < |line| && line[..|key|] == key && line[|key|] == ':' &&
      line[|key| + 1..] == [' '] + value && ':' !in [' '] + value
  {
    var line := key + ": " + value;
    assert line[..|key|] == key;
    assert line[|key| + 1..] == [' '] + value;
    var after := [' '] + value;
    forall j | 0 <= j < |after| ensures after[j] != ':' {
      if j > 0 {
        assert after[j] == value[j - 1];
      }
    }
  }

  /** One space before a trimmed value is trimmed away. */
  lemma PaddedValue(value: string)
    requires Trimmed(value)
    ensures Trim([' '] + value) == value
  {
    assert [' '] + value + [] == [' '] + value;
    TrimOfPadded([' '], value, []);
  }

  /** Header text made of lines without line breaks has exactly one entry
      per line. */
  lemma HeaderEntriesOfLines(lines: seq<string>)
    requires |lines| > 0
    requires forall k :: 0 <= k < |lines| ==> '\n' !in lines[k]
    ensures |HeaderEntries(Join(lines, '\n'))| == |lines|
    ensures forall k :: 0 <= k < |lines| ==> HeaderEntries(Join(lines, '\n'))[k] == ParseLine(lines[k])
  {
    SplitJoin(lines, '\n');
  }

  /** A "Key: Value" line has a line break only where its key or value has
      one. */
  lemma PairLineFree(key: string, value: string)
    requires '\n' !in key && '\n' !in value
    ensures '\n' !in key + ": " + value
  {
    var line := key + ": " + value;
    forall i | 0 <= i < |line| ensures line[i] != '\n' {
      if i < |key| {
        assert line[i] == key[i];
      } else if i >= |key| + 2 {
        assert line[i] == value[i - |key| - 2];
      }
    }
  }

  /** Two lines joined with '\n' give the two entries of those lines. */
  lemma HeaderEntriesOfTwoLines(l1: string, l2: string, text: string)
    requires '\n' !in l1 && '\n' !in l2
    requires text == Join([l1, l2], '\n')
    ensures HeaderEntries(text) == [ParseLine(l1), ParseLine(l2)]
  {
    var lines := [l1, l2];
    HeaderEntriesOfLines(lines);
    var es := HeaderEntries(text);
    assert |es| == 2;
    assert es[0] == ParseLine(lines[0]);
    assert es[1] == ParseLine(lines[1]);
  }

  lemma TwoPairLinesJoined(k1: string, v1: string, k2: string, v2: string)
    ensures k1 + ": " + v1 + "\n" + k2 + ": " + v2 == Join([k1 + ": " + v1, k2 + ": " + v2], '\n')
  {
    var l1, l2 := k1 + ": " + v1, k2 + ": " + v2;
    assert [l1, l2][1..] == [l2];
    assert Join([l1, l2], '\n') == l1 + ['\n'] + l2;
  }

  lemma FromEntriesOfTwo(e1: Entry, e2: Entry)
    ensures FromEntries([e1, e2]) == map[e1.0 := e1.1][e2.0 := e2.1]
  {
    assert [e1, e2][..1] == [e1];
    assert [e1][..0] == [];
    assert FromEntries([]) == map[];
    assert FromEntries([e1]) == map[][e1.0 := e1.1];
  }

  /** Two "Key: Value" lines with different keys give an object with the
      two trimmed pairs ("A: 1\nB: 2" gives {A: "1", B: "2"}). */
  lemma ParseHeadersOfTwoLines(k1: string, v1: string, k2: string, v2: string)
    requires ':' !in k1 && ':' !in v1 && ':' !in k2 && ':' !in v2
    requires '\n' !in k1 && '\n' !in v1 && '\n' !in k2 && '\n' !in v2
    requires Trimmed(k1) && Trimmed(v1) && Trimmed(k2) && Trimmed(v2)
    requires k1 != k2
    ensures ParseHeaders(k1 + ": " + v1 + "\n" + k2 + ": " + v2) == map[k1 := Some(v1), k2 := Some(v2)]
  {
    var l1, l2 := k1 + ": " + v1, k2 + ": " + v2;
    var text := k1 + ": " + v1 + "\n" + k2 + ": " + v2;
    PairLineFree(k1, v1);
    PairLineFree(k2, v2);
    TwoPairLinesJoined(k1, v1, k2, v2);
    HeaderEntriesOfTwoLines(l1, l2, text);
    ParseLineOfPair(k1, v1);
    ParseLineOfPair(k2, v2);
    FromEntriesOfTwo((k1, Some(v1)), (k2, Some(v2)));
  }

  /** The two-line example: "A: 1\nB: 2" gives {A: "1", B: "2"}. */
  lemma ParseHeadersExample(text: string)
    requires text == "A: 1\nB: 2"
    ensures ParseHeaders(text) == map["A" := Some("1"), "B" := Some("2")]
  {
    var k1, v1, k2, v2 := "A", "1", "B", "2";
    assert text == k1 + ": " + v1 + "\n" + k2 + ": " + v2;
    ParseHeadersOfTwoLines(k1, v1, k2, v2);
  }

}
