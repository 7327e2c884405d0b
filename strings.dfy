/**
 * The handful of Python `str` operations the exporter relies on: `strip()`,
 * `split()` with no separator, and `replace(old, new)`.
 * Python's notion of whitespace (`str.isspace`) is modelled by `IsSpace`.
 */
module Strings {

  /** The code-point ranges, each inclusive, of the characters `str.isspace()` accepts. */
  const SpaceRanges: seq<(char, char)> := [
    ('\U{0009}', '\U{000D}'), ('\U{001C}', '\U{001F}'), (' ', ' '), ('\U{0085}', '\U{0085}'),
    ('\U{00A0}', '\U{00A0}'), ('\U{1680}', '\U{1680}'), ('\U{2000}', '\U{200A}'), ('\U{2028}', '\U{2029}'),
    ('\U{202F}', '\U{202F}'), ('\U{205F}', '\U{205F}'), ('\U{3000}', '\U{3000}')]

  predicate InRanges(c: char, ranges: seq<(char, char)>)
  {
    ranges != [] && (ranges[0].0 <= c <= ranges[0].1 || InRanges(c, ranges[1..]))
  }

  /** The characters `str.isspace()` accepts, which `strip()` and `split()` remove. */
  predicate IsSpace(c: char)
  {
    InRanges(c, SpaceRanges)
  }

  predicate AllSpace(s: string)
  {
    forall i :: 0 <= i < |s| ==> IsSpace(s[i])
  }

  predicate NoSpace(s: string)
  {
    forall i :: 0 <= i < |s| ==> !IsSpace(s[i])
  }

  /** `pat` occurs in `s` starting at index `i`. */
  predicate OccursAt(s: string, i: nat, pat: string)
  {
    i + |pat| <= |s| && s[i..i + |pat|] == pat
  }

  predicate Contains(s: string, pat: string)
  {
    exists i: nat | i <= |s| :: OccursAt(s, i, pat)
  }

  /** Dropping one more leading whitespace character keeps the dropped part all whitespace. */
  lemma TrimStartStep(s: string, r: string)
    requires s != [] && IsSpace(s[0])
    requires |r| <= |s| - 1 && r == s[1..][|s| - 1 - |r|..] && AllSpace(s[1..][..|s| - 1 - |r|])
    ensures r == s[|s| - |r|..] && AllSpace(s[..|s| - |r|])
  {
    forall i | 0 <= i < |s| - |r| ensures IsSpace(s[i]) {
      if i > 0 {
        assert s[i] == s[1..][..|s| - 1 - |r|][i - 1];
      }
    }
  }

  /** `lstrip()`: drop the leading whitespace. */
  function TrimStart(s: string): (r: string)
    ensures |r| <= |s| && r == s[|s| - |r|..]
    ensures AllSpace(s[..|s| - |r|])
    ensures r == [] || !IsSpace(r[0])
  {
    if s != [] && IsSpace(s[0]) then
      var r := TrimStart(s[1..]);
      TrimStartStep(s, r);
      r
    else s
  }

  /** Dropping one more trailing whitespace character keeps the dropped part all whitespace. */
  lemma TrimEndStep(s: string, r: string)
    requires s != [] && IsSpace(s[|s| - 1])
    requires |r| <= |s| - 1 && r == s[..|s| - 1][..|r|] && AllSpace(s[..|s| - 1][|r|..])
    ensures r == s[..|r|] && AllSpace(s[|r|..])
  {
    forall i | |r| <= i < |s| ensures IsSpace(s[i]) {
      if i < |s| - 1 {
        assert s[i] == s[..|s| - 1][|r|..][i - |r|];
      }
    }
  }

  /** `rstrip()`: drop the trailing whitespace. */
  function TrimEnd(s: string): (r: string)
    ensures |r| <= |s| && r == s[..|r|]
    ensures AllSpace(s[|r|..])
    ensures r == [] || !IsSpace(r[|r| - 1])
    ensures s != [] && !IsSpace(s[0]) ==> r != [] && r[0] == s[0]
  {
    if s != [] && IsSpace(s[|s| - 1]) then
      var r := TrimEnd(s[..|s| - 1]);
      TrimEndStep(s, r);
      r
    else s
  }

  /** `strip()` with no argument. */
  function Strip(s: string): string
  {
    TrimEnd(TrimStart(s))
  }

  /** A string that neither starts nor ends with whitespace is left as it is by `strip()`. */
  lemma StripUntrimmed(s: string)
    requires s != [] && !IsSpace(s[0]) && !IsSpace(s[|s| - 1])
    ensures Strip(s) == s
  {
    assert TrimStart(s) == s;
  }

  /** `strip()` removes only whitespace, and leaves nothing exactly when there is nothing else. */
  lemma StripEmptyIff(s: string)
    ensures Strip(s) == [] <==> AllSpace(s)
    ensures Strip(s) != [] ==> Strip(s)[0] == TrimStart(s)[0]
  {
    var t := TrimStart(s);
    var k := |s| - |t|;
    assert Strip(s) == TrimEnd(t);
    if t == [] {
      assert s[..k] == s;
    } else {
      assert s[k] == t[0] && !IsSpace(s[k]);
      assert TrimEnd(t) != [] && TrimEnd(t)[0] == t[0];
    }
  }

  /** The first run of non-whitespace characters at the front of `t`. */
  function Word(t: string): (w: string)
    ensures |w| <= |t| && w == t[..|w|]
    ensures NoSpace(w)
    ensures |w| < |t| ==> IsSpace(t[|w|])
  {
    if t == [] || IsSpace(t[0]) then [] else [t[0]] + Word(t[1..])
  }

  /** Every element is a non-empty run of non-whitespace characters. */
  predicate Words(ws: seq<string>)
  {
    forall k :: 0 <= k < |ws| ==> ws[k] != [] && NoSpace(ws[k])
  }

  lemma WordsCons(w: string, rest: seq<string>)
    requires w != [] && NoSpace(w) && Words(rest)
    ensures Words([w] + rest)
  {
    forall k | 0 <= k < |[w] + rest| ensures ([w] + rest)[k] != [] && NoSpace(([w] + rest)[k]) {
      if k > 0 {
        assert ([w] + rest)[k] == rest[k - 1];
      }
    }
  }

  /** `split()` with no separator: the maximal runs of non-whitespace characters, in order. */
  function Split(s: string): (r: seq<string>)
    ensures Words(r)
    decreases |s|
  {
    var t := TrimStart(s);
    if t == [] then []
    else
      var w := Word(t);
      assert w != [] by { assert !IsSpace(t[0]); }
      WordsCons(w, Split(t[|w|..]));
      [w] + Split(t[|w|..])
  }

  /** The first token is the first maximal run of non-whitespace characters. */
  lemma SplitHead(s: string)
    ensures Split(s) == [] <==> AllSpace(s)
    ensures Split(s) != [] ==> Split(s)[0] == Word(TrimStart(s))
  {
    var t := TrimStart(s);
    assert s == s[..|s| - |t|] + t;
    if t != [] {
      assert !IsSpace(s[|s| - |t|]);
    }
  }

  /** All the characters of `s` except the whitespace, in order. */
  function NonSpace(s: string): (r: string)
    ensures NoSpace(r)
  {
    if s == [] then [] else (if IsSpace(s[0]) then [] else [s[0]]) + NonSpace(s[1..])
  }

  function Concat(ws: seq<string>): string
  {
    if ws == [] then [] else ws[0] + Concat(ws[1..])
  }

  lemma {:induction false} NonSpaceAppend(a: string, b: string)
    ensures NonSpace(a + b) == NonSpace(a) + NonSpace(b)
    decreases |a|
  {
    if a != [] {
      assert (a + b)[1..] == a[1..] + b;
      NonSpaceAppend(a[1..], b);
    } else {
      assert a + b == b;
    }
  }

  lemma {:induction false} NonSpaceOfSpaces(s: string)
    requires AllSpace(s)
    ensures NonSpace(s) == []
    decreases |s|
  {
    if s != [] {
      NonSpaceOfSpaces(s[1..]);
    }
  }

  lemma {:induction false} NonSpaceOfWord(s: string)
    requires NoSpace(s)
    ensures NonSpace(s) == s
    decreases |s|
  {
    if s != [] {
      NonSpaceOfWord(s[1..]);
    }
  }

  /** Leading whitespace contributes nothing to `NonSpace`. */
  lemma NonSpaceTrimStart(s: string)
    ensures NonSpace(s) == NonSpace(TrimStart(s))
  {
    var t := TrimStart(s);
    var lead := s[..|s| - |t|];
    assert s == lead + t;
    NonSpaceAppend(lead, t);
    NonSpaceOfSpaces(lead);
  }

  /** A text that starts with a non-whitespace character splits into its first word and the rest. */
  lemma NonSpaceWordRest(t: string)
    ensures NonSpace(t) == Word(t) + NonSpace(t[|Word(t)|..])
  {
    var w := Word(t);
    assert t == w + t[|w|..];
    NonSpaceAppend(w, t[|w|..]);
    NonSpaceOfWord(w);
  }

  lemma ConcatCons(w: string, ws: seq<string>)
    ensures Concat([w] + ws) == w + Concat(ws)
  {
    assert ([w] + ws)[1..] == ws;
  }

  /** Splitting loses exactly the whitespace: the tokens put back together give every other character of `s`. */
  lemma {:induction false} SplitKeepsNonSpace(s: string)
    ensures Concat(Split(s)) == NonSpace(s)
    decreases |s|
  {
    var t := TrimStart(s);
    NonSpaceTrimStart(s);
    if t != [] {
      var w := Word(t);
      var rest := t[|w|..];
      ConcatCons(w, Split(rest));
      NonSpaceWordRest(t);
      SplitKeepsNonSpace(rest);
    }
  }

  /** The text `lead[0] + ws[0] + lead[1] + ws[1] + ... + tail`. */
  function Layout(lead: seq<string>, ws: seq<string>, tail: string): string
    requires |lead| == |ws|
  {
    if ws == [] then tail else lead[0] + ws[0] + Layout(lead[1..], ws[1..], tail)
  }

  /** Words separated by whitespace: every gap is whitespace, and the gaps between two words are not empty. */
  predicate Separated(lead: seq<string>, ws: seq<string>, tail: string)
  {
    |lead| == |ws| && Words(ws) && AllSpace(tail)
    && forall k :: 0 <= k < |lead| ==> AllSpace(lead[k]) && (k > 0 ==> lead[k] != [])
  }

  lemma {:induction false} TrimStartSpaces(a: string, b: string)
    requires AllSpace(a) && (b == [] || !IsSpace(b[0]))
    ensures TrimStart(a + b) == b
    decreases |a|
  {
    if a != [] {
      assert (a + b)[1..] == a[1..] + b;
      TrimStartSpaces(a[1..], b);
    } else {
      assert a + b == b;
    }
  }

  lemma {:induction false} WordPrefix(w: string, rest: string)
    requires NoSpace(w) && (rest == [] || IsSpace(rest[0]))
    ensures Word(w + rest) == w
    decreases |w|
  {
    if w != [] {
      assert (w + rest)[1..] == w[1..] + rest;
      WordPrefix(w[1..], rest);
    } else {
      assert w + rest == rest;
    }
  }

  lemma AppendAssoc<T>(x: seq<T>, y: seq<T>, z: seq<T>)
    ensures x + (y + z) == (x + y) + z
  {
  }

  lemma HeadTail<T>(xs: seq<T>)
    requires xs != []
    ensures xs == [xs[0]] + xs[1..]
  {
  }

  lemma SeparatedTail(lead: seq<string>, ws: seq<string>, tail: string)
    requires Separated(lead, ws, tail) && ws != []
    ensures Separated(lead[1..], ws[1..], tail)
  {
    forall k | 0 <= k < |ws| - 1 ensures ws[1..][k] != [] && NoSpace(ws[1..][k]) {
      assert ws[1..][k] == ws[k + 1];
    }
    forall k | 0 <= k < |lead| - 1 ensures AllSpace(lead[1..][k]) && (k > 0 ==> lead[1..][k] != []) {
      assert lead[1..][k] == lead[k + 1];
    }
  }

  /** After the first word, the layout goes on with whitespace or ends. */
  lemma LayoutRestStartsSpace(lead: seq<string>, ws: seq<string>, tail: string)
    requires Separated(lead, ws, tail) && ws != []
    ensures var rest := Layout(lead[1..], ws[1..], tail); rest == [] || IsSpace(rest[0])
  {
    if ws[1..] != [] {
      var rest := Layout(lead[1..], ws[1..], tail);
      assert rest == lead[1..][0] + ws[1..][0] + Layout(lead[1..][1..], ws[1..][1..], tail);
      assert lead[1] != [] && AllSpace(lead[1]);
      assert rest[0] == lead[1][0];
    }
  }

  /** A text whose first non-whitespace run is `w`, followed by `rest`, splits into `w` and the split of `rest`. */
  lemma SplitFirst(lead: string, w: string, rest: string)
    requires AllSpace(lead) && w != [] && NoSpace(w) && (rest == [] || IsSpace(rest[0]))
    ensures Split(lead + (w + rest)) == [w] + Split(rest)
  {
    assert !IsSpace(w[0]);
    TrimStartSpaces(lead, w + rest);
    WordPrefix(w, rest);
    assert (w + rest)[|w|..] == rest;
  }

  /**
   * `split()` gives back exactly the words of any text made of whitespace-separated
   * words: its tokens are the maximal runs of non-whitespace, however much whitespace
   * surrounds them, so the number of tokens is the number of such runs.
   */
  lemma {:induction false} SplitLayout(lead: seq<string>, ws: seq<string>, tail: string)
    requires Separated(lead, ws, tail)
    ensures Split(Layout(lead, ws, tail)) == ws
    decreases |ws|
  {
    if ws == [] {
      SplitHead(tail);
    } else {
      var rest := Layout(lead[1..], ws[1..], tail);
      SeparatedTail(lead, ws, tail);
      LayoutRestStartsSpace(lead, ws, tail);
      assert Layout(lead, ws, tail) == lead[0] + (ws[0] + rest);
      SplitFirst(lead[0], ws[0], rest);
      SplitLayout(lead[1..], ws[1..], tail);
      HeadTail(ws);
    }
  }

  /** Python's `s.replace(pat, rep)` for a non-empty `pat`: every leftmost, non-overlapping occurrence is replaced. */
  function Replace(s: string, pat: string, rep: string): string
    requires pat != []
    decreases |s|
  {
    if |s| < |pat| then s
    else if s[..|pat|] == pat then rep + Replace(s[|pat|..], pat, rep)
    else [s[0]] + Replace(s[1..], pat, rep)
  }

  /** A text in which `pat` does not occur is returned unchanged. */
  lemma {:induction false} ReplaceAbsent(s: string, pat: string, rep: string)
    requires pat != []
    requires !Contains(s, pat)
    ensures Replace(s, pat, rep) == s
    decreases |s|
  {
    if |s| >= |pat| {
      assert !OccursAt(s, 0, pat);
      assert s[..|pat|] != pat;
      forall i: nat | OccursAt(s[1..], i, pat) ensures false {
        assert s[1..][i..i + |pat|] == s[i + 1..i + 1 + |pat|];
        assert OccursAt(s, i + 1, pat);
      }
      ReplaceAbsent(s[1..], pat, rep);
    }
  }

  /** Replacing a one-character pattern by text without that character removes it everywhere. */
  lemma {:induction false} ReplaceRemovesChar(s: string, c: char, rep: string)
    requires c !in rep
    ensures c !in Replace(s, [c], rep)
    decreases |s|
  {
    if |s| >= 1 {
      if s[..1] == [c] {
        ReplaceRemovesChar(s[1..], c, rep);
      } else {
        assert s[0] != c by { assert s[..1] == [s[0]]; }
        ReplaceRemovesChar(s[1..], c, rep);
      }
    }
  }

  /** Where `pat` does not start at the front, `replace` copies the first character. */
  lemma ReplaceCopiesHead(s: string, pat: string, rep: string)
    requires pat != [] && s != [] && !OccursAt(s, 0, pat)
    ensures Replace(s, pat, rep) == [s[0]] + Replace(s[1..], pat, rep)
  {
    if |s| >= |pat| {
      assert s[..|pat|] == s[0..|pat|];
    }
  }

  lemma NoOccurrenceShift(s: string, pat: string, k: nat)
    requires 0 < k <= |s|
    requires forall i: nat :: i < k ==> !OccursAt(s, i, pat)
    ensures forall i: nat :: i < k - 1 ==> !OccursAt(s[1..], i, pat)
  {
    forall i: nat | i < k - 1 ensures !OccursAt(s[1..], i, pat) {
      assert !OccursAt(s, i + 1, pat);
      if i + |pat| <= |s[1..]| {
        assert s[1..][i..i + |pat|] == s[i + 1..i + 1 + |pat|];
      }
    }
  }

  /** Where `pat` starts nowhere before `k`, the first `k` characters are copied unchanged. */
  lemma {:induction false} ReplaceUpTo(s: string, pat: string, rep: string, k: nat)
    requires pat != [] && k <= |s|
    requires forall i: nat :: i < k ==> !OccursAt(s, i, pat)
    ensures Replace(s, pat, rep) == s[..k] + Replace(s[k..], pat, rep)
    decreases k
  {
    if k == 0 {
      assert s[..0] == [] && s[0..] == s;
    } else {
      ReplaceCopiesHead(s, pat, rep);
      NoOccurrenceShift(s, pat, k);
      ReplaceUpTo(s[1..], pat, rep, k - 1);
      assert s[1..][..k - 1] == s[1..k] && s[1..][k - 1..] == s[k..];
      assert s[..k] == [s[0]] + s[1..k];
    }
  }

  /** An occurrence at the front is replaced first. */
  lemma ReplaceAtFront(t: string, pat: string, rep: string)
    requires pat != [] && OccursAt(t, 0, pat)
    ensures Replace(t, pat, rep) == rep + Replace(t[|pat|..], pat, rep)
  {
    assert t[..|pat|] == t[0..|pat|];
  }

  /**
   * The leftmost occurrence of `pat` is the first one replaced: the text before it is
   * kept, the occurrence becomes `rep`, and replacing goes on after it.
   */
  lemma ReplaceLeftmost(s: string, pat: string, rep: string, k: nat)
    requires pat != [] && OccursAt(s, k, pat)
    requires forall i: nat :: i < k ==> !OccursAt(s, i, pat)
    ensures Replace(s, pat, rep) == s[..k] + rep + Replace(s[k + |pat|..], pat, rep)
  {
    var t := s[k..];
    var after := s[k + |pat|..];
    ReplaceUpTo(s, pat, rep, k);
    assert OccursAt(t, 0, pat) by {
      assert t[0..|pat|] == s[k..k + |pat|];
    }
    ReplaceAtFront(t, pat, rep);
    assert t[|pat|..] == after;
    AppendAssoc(s[..k], rep, Replace(after, pat, rep));
  }

  /** When `pat` occurs, the replacement text occurs in the result. */
  lemma {:induction false} ReplaceIntroducesRep(s: string, pat: string, rep: string)
    requires pat != [] && Contains(s, pat)
    ensures Contains(Replace(s, pat, rep), rep)
    decreases |s|
  {
    var i: nat :| i <= |s| && OccursAt(s, i, pat);
    if s[..|pat|] == pat {
      var r := Replace(s, pat, rep);
      assert r[0..|rep|] == rep;
      assert OccursAt(r, 0, rep);
    } else {
      assert i > 0;
      assert OccursAt(s[1..], i - 1, pat) by {
        assert s[1..][i - 1..i - 1 + |pat|] == s[i..i + |pat|];
      }
      ReplaceIntroducesRep(s[1..], pat, rep);
      var r' := Replace(s[1..], pat, rep);
      var j: nat :| j <= |r'| && OccursAt(r', j, rep);
      var r := [s[0]] + r';
      assert r[j + 1..j + 1 + |rep|] == r'[j..j + |rep|];
      assert OccursAt(r, j + 1, rep);
    }
  }
}
