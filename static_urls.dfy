/**
 * Static-asset URL handling of the edx-platform compatibility layer.
 *
 * `RewriteAbsoluteStaticUrls` is the `re.sub` that turns absolute asset URLs
 * `http(s)://<host>/asset-v1:<course>+type@asset+block@<filename>` into
 * `/static/<filename>`; it is written out here as a left-to-right scanner whose
 * matcher, `MatchAt`, is proved to find exactly the matches of the regular expression.
 * `CollectAssetsFromText` keeps the reported static paths whose content can be found
 * and logs the others.
 */
module StaticUrls {
  import opened Wrappers
  import opened Strings

  const AssetMarker: string := "/asset-v1:"
  const AssetInfix: string := "+type@asset+block@"
  const StaticPrefix: string := "/static/"
  const CoursePrefix: string := "course-v1:"

  /** `[\w\-\. \+]`, with `\w` taken as ASCII letters, digits and `_`. */
  predicate IsFilenameChar(c: char)
  {
    ('a' <= c <= 'z') || ('A' <= c <= 'Z') || ('0' <= c <= '9')
    || c == '_' || c == '-' || c == '.' || c == ' ' || c == '+'
  }

  predicate IsFilename(f: string)
  {
    f != [] && forall k :: 0 <= k < |f| ==> IsFilenameChar(f[k])
  }

  /** `[^/]+` */
  predicate IsHost(h: string)
  {
    h != [] && forall k :: 0 <= k < |h| ==> h[k] != '/'
  }

  /** The course part of the pattern: the course id with every `course-v1:` removed (then matched literally). */
  function CoursePart(courseId: string): string
  {
    Replace(courseId, CoursePrefix, "")
  }

  /** For a usual course key `course-v1:<org>+<course>+<run>` the course part is `<org>+<course>+<run>`. */
  lemma CoursePartDropsPrefix(rest: string)
    requires !Contains(rest, CoursePrefix)
    ensures CoursePart(CoursePrefix + rest) == rest
  {
    assert (CoursePrefix + rest)[..|CoursePrefix|] == CoursePrefix;
    assert (CoursePrefix + rest)[|CoursePrefix|..] == rest;
    ReplaceAbsent(rest, CoursePrefix, "");
  }

  function Scheme(secure: bool): string
  {
    if secure then "https://" else "http://"
  }

  /** The fixed middle of the pattern, with the course part matched literally. */
  function UrlLiteral(coursePart: string): string
  {
    AssetMarker + coursePart + AssetInfix
  }

  /** The absolute URL the pattern describes. */
  function AssetUrl(secure: bool, host: string, coursePart: string, filename: string): string
  {
    Scheme(secure) + host + UrlLiteral(coursePart) + filename
  }

  /** One match of the pattern: where it ends and the parts it captured. */
  datatype UrlMatch = UrlMatch(secure: bool, host: string, filename: string, end: nat)

  /**
   * `m` matches at `i` the pattern with this scheme and this fixed middle: the scheme,
   * a host without `/`, the middle, then a filename run that cannot be extended (the
   * `+` quantifier is greedy).
   */
  predicate MatchesWith(text: string, i: nat, scheme: string, literal: string, m: UrlMatch)
  {
    var h0 := i + |scheme|;
    var h1 := h0 + |m.host|;
    var f0 := h1 + |literal|;
    && m.end == f0 + |m.filename| && m.end <= |text|
    && OccursAt(text, i, scheme)
    && OccursAt(text, h0, m.host)
    && OccursAt(text, h1, literal)
    && OccursAt(text, f0, m.filename)
    && IsHost(m.host) && IsFilename(m.filename)
    && (m.end == |text| || !IsFilenameChar(text[m.end]))
  }

  /**
   * `m` is a match of the pattern starting at `i`: `http://` or `https://` as `m.secure`
   * says, and `/asset-v1:<course part>+type@asset+block@` as the middle.
   */
  predicate IsMatch(text: string, i: nat, coursePart: string, m: UrlMatch)
  {
    MatchesWith(text, i, Scheme(m.secure), UrlLiteral(coursePart), m)
  }

  lemma SliceSplit(s: string, a: nat, b: nat, c: nat)
    requires a <= b <= c <= |s|
    ensures s[a..c] == s[a..b] + s[b..c]
  {
  }

  lemma MatchCovers(text: string, i: nat, scheme: string, literal: string, m: UrlMatch)
    requires MatchesWith(text, i, scheme, literal, m)
    ensures i < m.end && text[i..m.end] == scheme + m.host + literal + m.filename
  {
    var h0 := i + |scheme|;
    var h1 := h0 + |m.host|;
    var f0 := h1 + |literal|;
    assert text[i..h0] == scheme;
    assert text[h0..h1] == m.host;
    assert text[h1..f0] == literal;
    assert text[f0..m.end] == m.filename;
    SliceSplit(text, i, h0, h1);
    SliceSplit(text, i, h1, f0);
    SliceSplit(text, i, f0, m.end);
  }

  /** A match covers exactly the absolute URL built from its parts. */
  lemma MatchIsAssetUrl(text: string, i: nat, coursePart: string, m: UrlMatch)
    requires IsMatch(text, i, coursePart, m)
    ensures i < m.end && text[i..m.end] == AssetUrl(m.secure, m.host, coursePart, m.filename)
  {
    MatchCovers(text, i, Scheme(m.secure), UrlLiteral(coursePart), m);
  }

  /** `[^/]+` run greedily from `i`: the index of the first `/` at or after `i`, or the end of the text. */
  function HostEnd(text: string, i: nat): (j: nat)
    requires i <= |text|
    ensures i <= j <= |text|
    ensures forall k :: i <= k < j ==> text[k] != '/'
    ensures j < |text| ==> text[j] == '/'
    decreases |text| - i
  {
    if i == |text| || text[i] == '/' then i else HostEnd(text, i + 1)
  }

  /** `[\w\-\. \+]+` run greedily from `i`: the end of the longest run of filename characters. */
  function FilenameEnd(text: string, i: nat): (j: nat)
    requires i <= |text|
    ensures i <= j <= |text|
    ensures forall k :: i <= k < j ==> IsFilenameChar(text[k])
    ensures j < |text| ==> !IsFilenameChar(text[j])
    decreases |text| - i
  {
    if i == |text| || !IsFilenameChar(text[i]) then i else FilenameEnd(text, i + 1)
  }

  lemma HostRun(text: string, a: nat, b: nat)
    requires a < b <= |text|
    requires forall k :: a <= k < b ==> text[k] != '/'
    ensures IsHost(text[a..b])
  {
  }

  lemma FilenameRun(text: string, a: nat, b: nat)
    requires a < b <= |text|
    requires forall k :: a <= k < b ==> IsFilenameChar(text[k])
    ensures IsFilename(text[a..b])
  {
  }

  /** Which scheme, if any, the text has at `i` (`https?://`, trying `https` first). */
  function SchemeAt(text: string, i: nat): (s: Option<bool>)
    ensures s.Some? ==> OccursAt(text, i, Scheme(s.value))
    ensures s.None? ==> !OccursAt(text, i, Scheme(true)) && !OccursAt(text, i, Scheme(false))
  {
    if OccursAt(text, i, Scheme(true)) then Some(true)
    else if OccursAt(text, i, Scheme(false)) then Some(false)
    else None
  }

  /** The rest of the match once the scheme `http://` or `https://` has been found at `i`. */
  function MatchAfterScheme(text: string, i: nat, coursePart: string, secure: bool): (m: Option<UrlMatch>)
    requires OccursAt(text, i, Scheme(secure))
    ensures m.Some? ==> m.value.secure == secure && IsMatch(text, i, coursePart, m.value)
  {
    var scheme := Scheme(secure);
    var literal := UrlLiteral(coursePart);
    var h0 := i + |scheme|;
    var h1 := HostEnd(text, h0);
    if h1 == h0 || !OccursAt(text, h1, literal) then None
    else
      var f0 := h1 + |literal|;
      var f1 := FilenameEnd(text, f0);
      if f1 == f0 then None
      else
        FoundMatches(text, i, scheme, literal, secure, h1, f1);
        Some(UrlMatch(secure, text[h0..h1], text[f0..f1], f1))
  }

  /** The runs `MatchAfterScheme` measures form a match. */
  lemma FoundMatches(text: string, i: nat, scheme: string, literal: string, secure: bool, h1: nat, f1: nat)
    requires OccursAt(text, i, scheme)
    requires HostEnd(text, i + |scheme|) == h1 != i + |scheme|
    requires OccursAt(text, h1, literal)
    requires FilenameEnd(text, h1 + |literal|) == f1 != h1 + |literal|
    ensures MatchesWith(text, i, scheme, literal, UrlMatch(secure, text[i + |scheme|..h1], text[h1 + |literal|..f1], f1))
  {
    HostRun(text, i + |scheme|, h1);
    FilenameRun(text, h1 + |literal|, f1);
  }

  /**
   * The match of `https?://[^/]+/asset-v1:<course part>\+type@asset\+block@(?P<filename>[\w\-\. \+]+)`
   * that starts at index `i`, if any.
   */
  function MatchAt(text: string, i: nat, coursePart: string): (m: Option<UrlMatch>)
    ensures m.Some? ==> IsMatch(text, i, coursePart, m.value)
  {
    match SchemeAt(text, i)
    case None => None
    case Some(secure) => MatchAfterScheme(text, i, coursePart, secure)
  }

  lemma SchemeAtIs(text: string, i: nat, secure: bool)
    requires OccursAt(text, i, Scheme(secure))
    ensures SchemeAt(text, i) == Some(secure)
  {
    assert text[i + 4] == Scheme(secure)[4];
    assert OccursAt(text, i, Scheme(true)) ==> text[i + 4] == 's';
  }

  lemma HostEndIs(text: string, a: nat, b: nat)
    requires a <= b < |text| && text[b] == '/'
    requires forall k :: a <= k < b ==> text[k] != '/'
    ensures HostEnd(text, a) == b
  {
    var j := HostEnd(text, a);
    assert !(j < b) && !(b < j);
  }

  lemma FilenameEndIs(text: string, a: nat, b: nat)
    requires a <= b <= |text|
    requires forall k :: a <= k < b ==> IsFilenameChar(text[k])
    requires b == |text| || !IsFilenameChar(text[b])
    ensures FilenameEnd(text, a) == b
  {
    var j := FilenameEnd(text, a);
    assert !(j < b) && !(b < j);
  }

  /** The slices of the text a match covers, one per part of the pattern. */
  lemma MatchParts(text: string, i: nat, scheme: string, literal: string, m: UrlMatch)
    requires MatchesWith(text, i, scheme, literal, m)
    ensures var h0 := i + |scheme|;
      var h1 := h0 + |m.host|;
      var f0 := h1 + |literal|;
      && f0 + |m.filename| == m.end <= |text|
      && text[h0..h1] == m.host
      && OccursAt(text, h1, literal)
      && text[f0..m.end] == m.filename
  {
  }

  /** When the middle starts with `/`, the greedy host run stops exactly where the match's host ends. */
  lemma MatchHostEnd(text: string, i: nat, scheme: string, literal: string, m: UrlMatch)
    requires MatchesWith(text, i, scheme, literal, m)
    requires literal != [] && literal[0] == '/'
    ensures HostEnd(text, i + |scheme|) == i + |scheme| + |m.host|
  {
    var h0 := i + |scheme|;
    var h1 := h0 + |m.host|;
    var f0 := h1 + |literal|;
    forall k | h0 <= k < h1 ensures text[k] != '/' {
      assert text[k] == text[h0..h1][k - h0];
    }
    assert text[h1] == text[h1..f0][0];
    HostEndIs(text, h0, h1);
  }

  /** The greedy filename run stops exactly where the match ends. */
  lemma MatchFilenameEnd(text: string, i: nat, scheme: string, literal: string, m: UrlMatch)
    requires MatchesWith(text, i, scheme, literal, m)
    ensures FilenameEnd(text, m.end - |m.filename|) == m.end
  {
    var f0 := m.end - |m.filename|;
    forall k | f0 <= k < m.end ensures IsFilenameChar(text[k]) {
      assert text[k] == text[f0..m.end][k - f0];
    }
    FilenameEndIs(text, f0, m.end);
  }

  lemma MatchAfterSchemeFound(text: string, i: nat, coursePart: string, secure: bool, h1: nat, f1: nat)
    requires OccursAt(text, i, Scheme(secure))
    requires HostEnd(text, i + |Scheme(secure)|) == h1 != i + |Scheme(secure)|
    requires OccursAt(text, h1, UrlLiteral(coursePart))
    requires FilenameEnd(text, h1 + |UrlLiteral(coursePart)|) == f1 != h1 + |UrlLiteral(coursePart)|
    ensures MatchAfterScheme(text, i, coursePart, secure)
      == Some(UrlMatch(secure, text[i + |Scheme(secure)|..h1], text[h1 + |UrlLiteral(coursePart)|..f1], f1))
  {
  }

  /** The matcher's result, given the runs it measures, is the match with those parts. */
  lemma MatchAfterSchemeIs(text: string, i: nat, coursePart: string, m: UrlMatch, h1: nat)
    requires OccursAt(text, i, Scheme(m.secure))
    requires h1 == i + |Scheme(m.secure)| + |m.host| && m.host != []
    requires HostEnd(text, i + |Scheme(m.secure)|) == h1
    requires OccursAt(text, h1, UrlLiteral(coursePart))
    requires m.end == h1 + |UrlLiteral(coursePart)| + |m.filename| && m.filename != []
    requires FilenameEnd(text, h1 + |UrlLiteral(coursePart)|) == m.end
    requires text[i + |Scheme(m.secure)|..h1] == m.host
    requires text[h1 + |UrlLiteral(coursePart)|..m.end] == m.filename
    ensures MatchAfterScheme(text, i, coursePart, m.secure) == Some(m)
  {
    MatchAfterSchemeFound(text, i, coursePart, m.secure, h1, m.end);
  }

  lemma MatchAfterSchemeComplete(text: string, i: nat, coursePart: string, m: UrlMatch)
    requires IsMatch(text, i, coursePart, m)
    ensures MatchAfterScheme(text, i, coursePart, m.secure) == Some(m)
  {
    var scheme := Scheme(m.secure);
    var literal := UrlLiteral(coursePart);
    assert literal[0] == AssetMarker[0] == '/';
    MatchParts(text, i, scheme, literal, m);
    MatchHostEnd(text, i, scheme, literal, m);
    MatchFilenameEnd(text, i, scheme, literal, m);
    MatchAfterSchemeIs(text, i, coursePart, m, i + |scheme| + |m.host|);
  }

  /** The matcher finds every match of the pattern: whatever matches at `i` is what `MatchAt` returns. */
  lemma MatchAtComplete(text: string, i: nat, coursePart: string, m: UrlMatch)
    requires IsMatch(text, i, coursePart, m)
    ensures MatchAt(text, i, coursePart) == Some(m)
  {
    SchemeAtIs(text, i, m.secure);
    MatchAfterSchemeComplete(text, i, coursePart, m);
  }

  /** `re.sub(pattern, r'/static/\g<filename>', text[i..])`: leftmost, non-overlapping matches replaced. */
  function RewriteFrom(text: string, i: nat, coursePart: string): (r: string)
    requires i <= |text|
    ensures |r| <= |text| - i
    decreases |text| - i
  {
    if i == |text| then []
    else
      match MatchAt(text, i, coursePart)
      case Some(m) => StaticPrefix + m.filename + RewriteFrom(text, m.end, coursePart)
      case None => [text[i]] + RewriteFrom(text, i + 1, coursePart)
  }

  /** `rewrite_absolute_static_urls(text, course_id)` */
  function RewriteAbsoluteStaticUrls(text: string, courseId: string): string
  {
    RewriteFrom(text, 0, CoursePart(courseId))
  }

  lemma RewriteStepCopy(text: string, i: nat, coursePart: string)
    requires i < |text| && MatchAt(text, i, coursePart).None?
    ensures RewriteFrom(text, i, coursePart) == [text[i]] + RewriteFrom(text, i + 1, coursePart)
  {
  }

  lemma RewriteStepMatch(text: string, i: nat, coursePart: string)
    requires i < |text| && MatchAt(text, i, coursePart).Some?
    ensures RewriteFrom(text, i, coursePart)
      == StaticPrefix + MatchAt(text, i, coursePart).value.filename
         + RewriteFrom(text, MatchAt(text, i, coursePart).value.end, coursePart)
  {
  }

  lemma ConsSlice(s: string, i: nat, k: nat)
    requires i < k <= |s|
    ensures s[i..k] == [s[i]] + s[i + 1..k]
  {
  }

  lemma ConsThenAppend(r: string, rest: string, c: char, mid: string, tail: string)
    requires r == [c] + rest && rest == mid + tail
    ensures r == ([c] + mid) + tail
  {
  }

  /** Text before the first match is copied unchanged; the match becomes `/static/<filename>`. */
  lemma {:induction false} RewriteUpToFirstMatch(text: string, i: nat, k: nat, coursePart: string, m: UrlMatch)
    requires i <= k < |text|
    requires forall p :: i <= p < k ==> MatchAt(text, p, coursePart).None?
    requires MatchAt(text, k, coursePart) == Some(m)
    ensures RewriteFrom(text, i, coursePart) == text[i..k] + (StaticPrefix + m.filename + RewriteFrom(text, m.end, coursePart))
    decreases k - i
  {
    if i < k {
      RewriteStepCopy(text, i, coursePart);
      RewriteUpToFirstMatch(text, i + 1, k, coursePart, m);
      ConsSlice(text, i, k);
      ConsThenAppend(RewriteFrom(text, i, coursePart), RewriteFrom(text, i + 1, coursePart), text[i],
        text[i + 1..k], StaticPrefix + m.filename + RewriteFrom(text, m.end, coursePart));
    } else {
      RewriteStepMatch(text, i, coursePart);
      assert text[i..k] == [];
    }
  }

  /** Text in which the pattern matches nowhere is returned unchanged. */
  lemma {:induction false} RewriteWithoutMatch(text: string, i: nat, coursePart: string)
    requires i <= |text|
    requires forall p :: i <= p < |text| ==> MatchAt(text, p, coursePart).None?
    ensures RewriteFrom(text, i, coursePart) == text[i..]
    decreases |text| - i
  {
    if i < |text| {
      RewriteWithoutMatch(text, i + 1, coursePart);
      assert text[i..] == [text[i]] + text[i + 1..];
    }
  }

  /** Every match contains `/asset-v1:<course part>+type@asset+block@`. */
  lemma MatchHasMarker(text: string, p: nat, coursePart: string)
    requires p <= |text|
    requires MatchAt(text, p, coursePart).Some?
    ensures Contains(text, UrlLiteral(coursePart))
  {
    var m := MatchAt(text, p, coursePart).value;
    var a := p + |Scheme(m.secure)| + |m.host|;
    assert OccursAt(text, a, UrlLiteral(coursePart));
  }

  /**
   * A text without `/asset-v1:<course part>+type@asset+block@` is returned unchanged: in
   * particular text already in `/static/` form, and URLs naming another course.
   */
  lemma RewriteWithoutCourseUrl(text: string, courseId: string)
    requires !Contains(text, UrlLiteral(CoursePart(courseId)))
    ensures RewriteAbsoluteStaticUrls(text, courseId) == text
  {
    forall p | 0 <= p < |text| ensures MatchAt(text, p, CoursePart(courseId)).None? {
      if MatchAt(text, p, CoursePart(courseId)).Some? {
        MatchHasMarker(text, p, CoursePart(courseId));
      }
    }
    RewriteWithoutMatch(text, 0, CoursePart(courseId));
  }

  /** Text containing no `/asset-v1:` at all is returned unchanged. */
  lemma RewriteWithoutAssetMarker(text: string, courseId: string)
    requires !Contains(text, AssetMarker)
    ensures RewriteAbsoluteStaticUrls(text, courseId) == text
  {
    var literal := UrlLiteral(CoursePart(courseId));
    forall i: nat | i <= |text| && OccursAt(text, i, literal) ensures OccursAt(text, i, AssetMarker) {
      assert literal[..|AssetMarker|] == AssetMarker;
      assert text[i..i + |AssetMarker|] == text[i..i + |literal|][..|AssetMarker|];
    }
    RewriteWithoutCourseUrl(text, courseId);
  }

  /** One `{'content': ..., 'path': ...}` dict yielded by `collect_assets_from_text`. */
  datatype AssetRecord = AssetRecord(content: seq<bv8>, path: string)

  /**
   * The records `collect_assets_from_text` yields for the `(path, uri)` pairs that
   * `replace_static_urls` reported, given the asset lookup of the course.
   */
  function Collected(staticPaths: seq<(string, string)>, lookup: string -> Option<seq<bv8>>): seq<AssetRecord>
  {
    if staticPaths == [] then []
    else
      var last := staticPaths[|staticPaths| - 1];
      var before := Collected(staticPaths[..|staticPaths| - 1], lookup);
      match lookup(last.0)
      case Some(content) => before + [AssetRecord(content, last.0)]
      case None => before
  }

  /** How many of the reported pairs name `path`. */
  function CountPath(staticPaths: seq<(string, string)>, path: string): nat
  {
    if staticPaths == [] then 0
    else CountPath(staticPaths[..|staticPaths| - 1], path) + (if staticPaths[|staticPaths| - 1].0 == path then 1 else 0)
  }

  function CountRecords(records: seq<AssetRecord>, path: string): nat
  {
    if records == [] then 0
    else CountRecords(records[..|records| - 1], path) + (if records[|records| - 1].path == path then 1 else 0)
  }

  lemma CountRecordsAppend(records: seq<AssetRecord>, r: AssetRecord, path: string)
    ensures CountRecords(records + [r], path) == CountRecords(records, path) + (if r.path == path then 1 else 0)
  {
    assert (records + [r])[..|records|] == records;
  }

  /**
   * Found assets are kept and missing ones dropped, path by path: a path yields one
   * record per report when its content is found (duplicates are kept) and none otherwise,
   * each carrying the content the lookup found.
   */
  lemma {:induction false} CollectedCounts(staticPaths: seq<(string, string)>, lookup: string -> Option<seq<bv8>>, path: string)
    ensures CountRecords(Collected(staticPaths, lookup), path)
      == if lookup(path).Some? then CountPath(staticPaths, path) else 0
    ensures |Collected(staticPaths, lookup)| <= |staticPaths|
    ensures forall k :: 0 <= k < |Collected(staticPaths, lookup)| ==>
      lookup(Collected(staticPaths, lookup)[k].path) == Some(Collected(staticPaths, lookup)[k].content)
    decreases |staticPaths|
  {
    if staticPaths != [] {
      var last := staticPaths[|staticPaths| - 1];
      CollectedCounts(staticPaths[..|staticPaths| - 1], lookup, path);
      if lookup(last.0).Some? {
        CountRecordsAppend(Collected(staticPaths[..|staticPaths| - 1], lookup), AssetRecord(lookup(last.0).value, last.0), path);
      }
    }
  }

  /**
   * The `(path, uri)` pairs `collect_assets_from_text` logs as not found: those whose
   * content the lookup does not find, in report order, duplicates kept.
   */
  function Missing(staticPaths: seq<(string, string)>, lookup: string -> Option<seq<bv8>>): seq<(string, string)>
  {
    if staticPaths == [] then []
    else
      var last := staticPaths[|staticPaths| - 1];
      var before := Missing(staticPaths[..|staticPaths| - 1], lookup);
      if lookup(last.0).None? then before + [last] else before
  }

  /** A pair is logged as missing exactly when it was reported and its content is not found. */
  lemma {:induction false} MissingIff(staticPaths: seq<(string, string)>, lookup: string -> Option<seq<bv8>>, pair: (string, string))
    ensures pair in Missing(staticPaths, lookup) <==> pair in staticPaths && lookup(pair.0).None?
    decreases |staticPaths|
  {
    if staticPaths != [] {
      var init := staticPaths[..|staticPaths| - 1];
      MissingIff(init, lookup, pair);
      assert staticPaths == init + [staticPaths[|staticPaths| - 1]];
    }
  }

  /**
   * `collect_assets_from_text`: walks the reported pairs in order, yielding a record for
   * each path whose content is found and logging (here: returning) the others.
   */
  method CollectAssetsFromText(staticPaths: seq<(string, string)>, lookup: string -> Option<seq<bv8>>)
    returns (records: seq<AssetRecord>, notFound: seq<(string, string)>)
    ensures records == Collected(staticPaths, lookup)
    ensures |records| + |notFound| == |staticPaths|
    ensures forall k :: 0 <= k < |notFound| ==> notFound[k] in staticPaths && lookup(notFound[k].0).None?
    ensures notFound == Missing(staticPaths, lookup)
  {
    records, notFound := [], [];
    for i := 0 to |staticPaths|
      invariant records == Collected(staticPaths[..i], lookup)
      invariant |records| + |notFound| == i
      invariant forall k :: 0 <= k < |notFound| ==> notFound[k] in staticPaths[..i] && lookup(notFound[k].0).None?
      invariant notFound == Missing(staticPaths[..i], lookup)
    {
      var (path, uri) := staticPaths[i];
      assert staticPaths[..i + 1][..i] == staticPaths[..i];
      var content := lookup(path);
      if content.None? {
        notFound := notFound + [(path, uri)];
      } else {
        records := records + [AssetRecord(content.value, path)];
      }
    }
    assert staticPaths[..|staticPaths|] == staticPaths;
  }
}
