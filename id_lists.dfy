/**
 * Reading the id-list files of the two batch commands.
 * `export_blocks` keeps the first word of every line that is neither blank nor a
 * `#` comment; `push_olx` keeps every word of such a line (the old and the new key).
 */
module IdLists {
  import opened Strings
  import opened Wrappers

  /** The comprehension's filter: `line.strip() and line.strip()[0] != '#'`. */
  predicate KeepLine(line: string)
  {
    Strip(line) != [] && Strip(line)[0] != '#'
  }

  /** `i` is the index of the first non-whitespace character of `line`. */
  predicate FirstNonSpaceAt(line: string, i: nat)
  {
    i < |line| && !IsSpace(line[i]) && forall j :: 0 <= j < i ==> IsSpace(line[j])
  }

  lemma FirstNonSpaceUnique(line: string, i: nat, j: nat)
    requires FirstNonSpaceAt(line, i) && FirstNonSpaceAt(line, j)
    ensures i == j
  {
  }

  /** A line is kept exactly when it has a first non-whitespace character and that character is not `#`. */
  lemma KeepLineIff(line: string)
    ensures KeepLine(line) <==> exists i: nat :: FirstNonSpaceAt(line, i) && line[i] != '#'
  {
    StripEmptyIff(line);
    var t := TrimStart(line);
    var k := |line| - |t|;
    assert t == line[k..];
    if t != [] {
      assert line[k] == t[0];
      assert AllSpace(line[..k]);
      forall j | 0 <= j < k ensures IsSpace(line[j]) {
        assert line[..k][j] == line[j];
      }
      assert FirstNonSpaceAt(line, k);
      forall i: nat | FirstNonSpaceAt(line, i) ensures i == k {
        FirstNonSpaceUnique(line, i, k);
      }
    } else {
      assert AllSpace(line);
    }
  }

  /** The lines the comprehensions keep, in file order. */
  function KeptLines(lines: seq<string>): (r: seq<string>)
    ensures |r| <= |lines|
    ensures forall k :: 0 <= k < |r| ==> KeepLine(r[k]) && r[k] in lines
  {
    if lines == [] then []
    else (if KeepLine(lines[0]) then [lines[0]] else []) + KeptLines(lines[1..])
  }

  /**
   * The filter keeps every line that passes it and no other, in file order: the
   * kept lines of two parts of a file are those of the first part, then those of the second.
   */
  lemma {:induction false} KeptLinesConcat(a: seq<string>, b: seq<string>)
    ensures KeptLines(a + b) == KeptLines(a) + KeptLines(b)
    decreases |a|
  {
    if a == [] {
      assert a + b == b;
    } else {
      var head := if KeepLine(a[0]) then [a[0]] else [];
      assert (a + b)[0] == a[0] && (a + b)[1..] == a[1..] + b;
      assert KeptLines(a + b) == head + KeptLines(a[1..] + b);
      assert KeptLines(a) == head + KeptLines(a[1..]);
      KeptLinesConcat(a[1..], b);
      AppendAssoc(head, KeptLines(a[1..]), KeptLines(b));
    }
  }

  /** One more line of the file is kept, after all earlier ones, exactly when it passes the filter. */
  lemma KeptLinesSnoc(lines: seq<string>, line: string)
    ensures KeptLines(lines + [line]) == KeptLines(lines) + (if KeepLine(line) then [line] else [])
  {
    KeptLinesConcat(lines, [line]);
    assert [line][1..] == [];
  }

  /** A kept line always splits into at least one word, so `split()[0]` cannot fail. */
  lemma KeptLineHasWord(line: string)
    requires KeepLine(line)
    ensures Split(line) != []
  {
    StripEmptyIff(line);
    SplitHead(line);
  }

  /** `[line.split()[0] for line in lines if line.strip() and line.strip()[0] != '#']` (export_blocks). */
  function ExportIds(lines: seq<string>): (ids: seq<string>)
    ensures |ids| == |KeptLines(lines)|
  {
    if lines == [] then []
    else if KeepLine(lines[0]) then
      KeptLineHasWord(lines[0]);
      [Split(lines[0])[0]] + ExportIds(lines[1..])
    else ExportIds(lines[1..])
  }

  /**
   * The k-th id is the first word of the k-th kept line: a non-empty run of
   * non-whitespace, the line's first one; later words are ignored.
   */
  lemma {:induction false} ExportIdIsFirstWord(lines: seq<string>, k: nat)
    requires k < |ExportIds(lines)|
    ensures Split(KeptLines(lines)[k]) != []
    ensures ExportIds(lines)[k] == Split(KeptLines(lines)[k])[0]
    ensures ExportIds(lines)[k] != [] && NoSpace(ExportIds(lines)[k])
    ensures ExportIds(lines)[k] == Word(TrimStart(KeptLines(lines)[k]))
  {
    if KeepLine(lines[0]) {
      if k > 0 {
        ExportIdIsFirstWord(lines[1..], k - 1);
      }
    } else {
      ExportIdIsFirstWord(lines[1..], k);
    }
    SplitHead(KeptLines(lines)[k]);
  }

  /** `[line.split() for line in lines if ...]` (push_olx): the words of every kept line. */
  function PushIdTokens(lines: seq<string>): (rows: seq<seq<string>>)
    ensures |rows| == |KeptLines(lines)|
  {
    if lines == [] then []
    else if KeepLine(lines[0]) then [Split(lines[0])] + PushIdTokens(lines[1..])
    else PushIdTokens(lines[1..])
  }

  /** The k-th row holds the words of the k-th kept line, and there is always at least one. */
  lemma {:induction false} PushRowIsSplitLine(lines: seq<string>, k: nat)
    requires k < |PushIdTokens(lines)|
    ensures PushIdTokens(lines)[k] == Split(KeptLines(lines)[k])
    ensures PushIdTokens(lines)[k] != []
  {
    if KeepLine(lines[0]) {
      if k > 0 {
        PushRowIsSplitLine(lines[1..], k - 1);
      }
    } else {
      PushRowIsSplitLine(lines[1..], k);
    }
    KeptLineHasWord(KeptLines(lines)[k]);
  }

  /**
   * What `for old_key_str, new_key_str in block_key_list` does with one row: a row of
   * exactly two words unpacks into a pair, any other row raises `ValueError`.
   */
  function Unpack(row: seq<string>): (r: Option<(string, string)>)
    ensures r.Some? <==> |row| == 2
    ensures r.Some? ==> r.value.0 == row[0] && r.value.1 == row[1]
  {
    if |row| == 2 then Some((row[0], row[1])) else None
  }


}
