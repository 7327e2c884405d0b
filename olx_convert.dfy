/**
 * The per-pair decision of the `push_olx` command: which OLX the new block
 * receives, given the old and the new usage key and the exported files.
 *
 * A same-type pair of `html`, `video` or `drag-and-drop-v2` blocks copies the
 * exported `definition-1.xml` unchanged; an `html` block becomes an `lx_image`
 * or an `lx_simulation` element whose attributes are taken from the first quoted
 * `src=`/`alt=`/`href=` values of the HTML and the root's `display_name`; every
 * other pair is refused. The searches are the `re.search` calls of the command,
 * written out as a scanner and proved to find the leftmost match.
 */
module OlxConvert {
  import opened Wrappers
  import opened Strings
  import opened BlockTree
  import opened Export

  predicate IsQuote(c: char)
  {
    c == '\'' || c == '"'
  }

  /** `[^'"]+` run greedily from `k`: the index of the first quote at or after `k`, or the end of the text. */
  function QuoteFreeEnd(text: string, k: nat): (j: nat)
    requires k <= |text|
    ensures k <= j <= |text|
    ensures forall m :: k <= m < j ==> !IsQuote(text[m])
    ensures j < |text| ==> IsQuote(text[j])
    decreases |text| - k
  {
    if k == |text| || IsQuote(text[k]) then k else QuoteFreeEnd(text, k + 1)
  }

  /**
   * `v` is matched at `i` by `<name>=['"]([^'"]+)['"]`: the name and `=`, a quote,
   * the non-empty quote-free value, a closing quote (either kind).
   */
  predicate IsQuotedMatch(text: string, i: nat, name: string, v: string)
  {
    var q := i + |name| + 1;
    && OccursAt(text, i, name + "=")
    && q + 1 + |v| < |text|
    && IsQuote(text[q])
    && v != [] && OccursAt(text, q + 1, v)
    && (forall m :: 0 <= m < |v| ==> !IsQuote(v[m]))
    && IsQuote(text[q + 1 + |v|])
  }

  /** The value the pattern `<name>=['"]([^'"]+)['"]` captures when it is tried at `i`. */
  function QuotedAt(text: string, i: nat, name: string): (r: Option<string>)
    ensures r.Some? ==> IsQuotedMatch(text, i, name, r.value)
  {
    var q := i + |name| + 1;
    if !OccursAt(text, i, name + "=") || q >= |text| || !IsQuote(text[q]) then None
    else
      var j := QuoteFreeEnd(text, q + 1);
      if j == q + 1 || j == |text| then None
      else
        QuoteFreeSlice(text, q + 1, j);
        Some(text[q + 1..j])
  }

  lemma QuoteFreeSlice(text: string, a: nat, b: nat)
    requires a <= b <= |text|
    requires forall m :: a <= m < b ==> !IsQuote(text[m])
    ensures forall m :: 0 <= m < |text[a..b]| ==> !IsQuote(text[a..b][m])
  {
    forall m | 0 <= m < |text[a..b]| ensures !IsQuote(text[a..b][m]) {
      assert text[a..b][m] == text[a + m];
    }
  }

  /** Whatever the pattern matches at `i`, `QuotedAt` returns (the greedy run can only stop at a quote). */
  lemma QuotedAtComplete(text: string, i: nat, name: string, v: string)
    requires IsQuotedMatch(text, i, name, v)
    ensures QuotedAt(text, i, name) == Some(v)
  {
    var q := i + |name| + 1;
    var e := q + 1 + |v|;
    forall m | q + 1 <= m < e ensures !IsQuote(text[m]) {
      assert text[m] == text[q + 1..e][m - (q + 1)];
    }
    QuoteFreeEndIs(text, q + 1, e);
  }

  lemma QuoteFreeEndIs(text: string, a: nat, b: nat)
    requires a <= b < |text| && IsQuote(text[b])
    requires forall m :: a <= m < b ==> !IsQuote(text[m])
    ensures QuoteFreeEnd(text, a) == b
  {
    var j := QuoteFreeEnd(text, a);
    assert !(j < b) && !(b < j);
  }

  /** The alternation `(n1|n2|...)=['"]...['"]` tried at `i`: the first alternative that matches there. */
  function AnyQuotedAt(text: string, i: nat, names: seq<string>): Option<string>
  {
    if names == [] then None
    else
      match QuotedAt(text, i, names[0])
      case Some(v) => Some(v)
      case None => AnyQuotedAt(text, i, names[1..])
  }

  /** The alternation captures a value exactly when one of the alternatives matches at `i`. */
  lemma {:induction false} AnyQuotedAtIff(text: string, i: nat, names: seq<string>)
    ensures AnyQuotedAt(text, i, names).Some? ==> exists n :: n in names && IsQuotedMatch(text, i, n, AnyQuotedAt(text, i, names).value)
    ensures AnyQuotedAt(text, i, names).None? ==> forall n, v :: n in names ==> !IsQuotedMatch(text, i, n, v)
    decreases |names|
  {
    if names != [] {
      AnyQuotedAtIff(text, i, names[1..]);
      if QuotedAt(text, i, names[0]).None? {
        forall v | IsQuotedMatch(text, i, names[0], v) ensures false {
          QuotedAtComplete(text, i, names[0], v);
        }
        assert forall n :: n in names ==> n == names[0] || n in names[1..];
      }
    }
  }

  /** No alternative matches at any index in `[i, j)`. */
  predicate NoMatchBetween(text: string, names: seq<string>, i: nat, j: nat)
  {
    forall k :: i <= k < j ==> AnyQuotedAt(text, k, names).None?
  }

  /**
   * `re.search` from index `i`: the leftmost position at or after `i` where the
   * pattern matches, with the value it captures there.
   */
  function SearchFrom(text: string, names: seq<string>, i: nat): (r: Option<(nat, string)>)
    requires i <= |text|
    ensures r.Some? ==> i <= r.value.0 <= |text| && AnyQuotedAt(text, r.value.0, names) == Some(r.value.1)
    ensures r.Some? ==> NoMatchBetween(text, names, i, r.value.0)
    ensures r.None? ==> NoMatchBetween(text, names, i, |text| + 1)
    decreases |text| - i
  {
    match AnyQuotedAt(text, i, names)
    case Some(v) => Some((i, v))
    case None => if i == |text| then None else SearchFrom(text, names, i + 1)
  }

  /** `re.search(pattern, text).group(...)`, with `None` where the search finds nothing. */
  function Search(text: string, names: seq<string>): Option<string>
  {
    match SearchFrom(text, names, 0)
    case Some(found) => Some(found.1)
    case None => None
  }

  /**
   * The search returns the value at the leftmost match: it is captured there by one
   * of the alternatives, and no alternative matches anywhere before it.
   */
  lemma SearchIsLeftmost(text: string, names: seq<string>, v: string)
    requires Search(text, names) == Some(v)
    ensures exists i: nat, n ::
      (i <= |text| && n in names && IsQuotedMatch(text, i, n, v)
       && forall k: nat, n', v' :: k < i && n' in names ==> !IsQuotedMatch(text, k, n', v'))
  {
    var found := SearchFrom(text, names, 0).value;
    var i := found.0;
    AnyQuotedAtIff(text, i, names);
    var n :| n in names && IsQuotedMatch(text, i, n, v);
    forall k: nat, n', v' | k < i && n' in names ensures !IsQuotedMatch(text, k, n', v') {
      AnyQuotedAtIff(text, k, names);
    }
  }

  /** The search finds nothing exactly when no alternative matches anywhere. */
  lemma SearchNoneIff(text: string, names: seq<string>)
    ensures Search(text, names).None? <==> forall i: nat, n, v :: n in names ==> !IsQuotedMatch(text, i, n, v)
  {
    if Search(text, names).None? {
      forall i: nat, n, v | n in names ensures !IsQuotedMatch(text, i, n, v) {
        if i <= |text| {
          AnyQuotedAtIff(text, i, names);
        }
      }
    } else {
      SearchIsLeftmost(text, names, Search(text, names).value);
    }
  }

  /** Why a pair could not be pushed: the exception the command raises. */
  datatype PushError =
    | UnsupportedType(blockType: string)      // NotImplementedError for a same-type pair
    | UnsupportedPair(oldKey: BlockKey, newKey: BlockKey)  // NotImplementedError for any other pair
    | MissingImageSrc                         // ValueError: no quoted `src=` value
    | MissingSimulationSrc                    // ValueError: no quoted `src=` or `href=` value
    | FileMissing(path: string)               // IOError from `read_olx`
    | XmlSyntax                               // `etree.fromstring` rejects the text
    | MissingDisplayName                      // KeyError on the root's `display_name`
    | BadRow(row: seq<string>)                // ValueError unpacking a row without two words
    | BadKey(key: string)                     // InvalidKeyError from `UsageKey.from_string`

  /** The OLX a block is given: the text of a file, or a new element with its attributes in order. */
  datatype NewOlx = Text(text: string) | Element(tag: string, attrs: seq<(string, string)>)

  /** The block types whose OLX is copied unchanged when the type stays the same. */
  const CopyTypes: set<string> := {"html", "video", "drag-and-drop-v2"}

  /** `olx_dir` for a pair: the export directory of the old block, `<olx_dir>/<type>-<id>`. */
  function SourceDir(olxDir: string, oldKey: BlockKey): string
  {
    JoinPath(olxDir, oldKey.blockType + "-" + oldKey.blockId)
  }

  /** `read_olx("definition-1.xml")` opens this path. */
  function DefinitionPath(olxDir: string, oldKey: BlockKey): string
  {
    SourceDir(olxDir, oldKey) + "/" + "definition-1.xml"
  }

  /**
   * The file the command reads is the one `export_data` wrote for the old key as the
   * root of an export into the same directory.
   */
  lemma DefinitionPathIsExportedRootFile(olxDir: string, oldKey: BlockKey)
    ensures DefinitionPath(olxDir, oldKey) == OutputDir(olxDir, oldKey) + "definition-1.xml"
  {
    assert BlockDirName(oldKey) == oldKey.blockType + "-" + oldKey.blockId;
  }

  /**
   * The `display_name` attribute of the parsed root element: `parseRoot` stands for
   * `etree.fromstring(text).attrib`, `None` when the text is not well-formed XML.
   */
  function DisplayName(text: string, parseRoot: string -> Option<map<string, string>>): (r: Result<string, PushError>)
    ensures r.Ok? <==> parseRoot(text).Some? && "display_name" in parseRoot(text).value
    ensures r.Ok? ==> r.value == parseRoot(text).value["display_name"]
    ensures r == Err(XmlSyntax) <==> parseRoot(text).None?
    ensures r.Err? ==> r.error == XmlSyntax || r.error == MissingDisplayName
  {
    match parseRoot(text)
    case None => Err(XmlSyntax)
    case Some(attrs) => if "display_name" in attrs then Ok(attrs["display_name"]) else Err(MissingDisplayName)
  }

  /**
   * The branch of `handle` that decides the new OLX of one pair, in the order the
   * command does its steps: the file read, the searches, the XML parse, the
   * `display_name` lookup. `files` maps paths to the text they hold.
   */
  function Convert(oldKey: BlockKey, newKey: BlockKey, olxDir: string, files: map<string, string>,
                   parseRoot: string -> Option<map<string, string>>): (r: Result<NewOlx, PushError>)
    ensures r.Ok? && oldKey.blockType == newKey.blockType ==>
      DefinitionPath(olxDir, oldKey) in files && r.value == Text(files[DefinitionPath(olxDir, oldKey)])
    ensures r.Ok? && oldKey.blockType != newKey.blockType ==>
      oldKey.blockType == "html" && r.value.Element? && r.value.tag == newKey.blockType
  {
    var path := DefinitionPath(olxDir, oldKey);
    if oldKey.blockType == newKey.blockType then
      if newKey.blockType in CopyTypes then
        if path in files then Ok(Text(files[path])) else Err(FileMissing(path))
      else Err(UnsupportedType(newKey.blockType))
    else if newKey.blockType == "lx_image" && oldKey.blockType == "html" then
      if path !in files then Err(FileMissing(path))
      else
        var html := files[path];
        match Search(html, ["src"])
        case None => Err(MissingImageSrc)
        case Some(imageUrl) =>
          var altText := match Search(html, ["alt"]) case Some(alt) => alt case None => "";
          match DisplayName(html, parseRoot)
          case Err(e) => Err(e)
          case Ok(displayName) =>
            Ok(Element("lx_image", [("image_url", imageUrl), ("alt_text", altText), ("display_name", displayName)]))
    else if newKey.blockType == "lx_simulation" && oldKey.blockType == "html" then
      if path !in files then Err(FileMissing(path))
      else
        var html := files[path];
        match Search(html, ["src", "href"])
        case None => Err(MissingSimulationSrc)
        case Some(simUrl) =>
          match DisplayName(html, parseRoot)
          case Err(e) => Err(e)
          case Ok(displayName) =>
            Ok(Element("lx_simulation", [("simulation_url", simUrl), ("display_name", displayName)]))
    else Err(UnsupportedPair(oldKey, newKey))
  }

  /**
   * Same-type pairs: `html`, `video` and `drag-and-drop-v2` blocks get the exported
   * file's text unchanged (an error only when the file is missing); any other type is refused.
   */
  lemma ConvertSameType(oldKey: BlockKey, newKey: BlockKey, olxDir: string, files: map<string, string>,
                        parseRoot: string -> Option<map<string, string>>)
    requires oldKey.blockType == newKey.blockType
    ensures var r := Convert(oldKey, newKey, olxDir, files, parseRoot);
      var path := DefinitionPath(olxDir, oldKey);
      && (newKey.blockType in CopyTypes && path in files ==> r == Ok(Text(files[path])))
      && (newKey.blockType in CopyTypes && path !in files ==> r == Err(FileMissing(path)))
      && (newKey.blockType !in CopyTypes ==> r == Err(UnsupportedType(newKey.blockType)))
  {
  }

  /**
   * A pair of different types converts only from `html` to `lx_image` or
   * `lx_simulation`; every other pair is refused whatever the files hold.
   */
  lemma ConvertOtherPairs(oldKey: BlockKey, newKey: BlockKey, olxDir: string, files: map<string, string>,
                          parseRoot: string -> Option<map<string, string>>)
    requires oldKey.blockType != newKey.blockType
    requires !(oldKey.blockType == "html" && newKey.blockType in {"lx_image", "lx_simulation"})
    ensures Convert(oldKey, newKey, olxDir, files, parseRoot) == Err(UnsupportedPair(oldKey, newKey))
  {
  }

  /**
   * `html` to `lx_image`: the element has exactly the attributes `image_url` (the first
   * quoted `src=` value), `alt_text` (the first quoted `alt=` value, or empty) and the
   * root's `display_name`; without a `src=` value the conversion fails with `ValueError`.
   */
  lemma ConvertImage(oldKey: BlockKey, newKey: BlockKey, olxDir: string, files: map<string, string>,
                     parseRoot: string -> Option<map<string, string>>)
    requires oldKey.blockType == "html" && newKey.blockType == "lx_image"
    requires DefinitionPath(olxDir, oldKey) in files
    ensures var html := files[DefinitionPath(olxDir, oldKey)];
      var r := Convert(oldKey, newKey, olxDir, files, parseRoot);
      && (Search(html, ["src"]).None? <==> r == Err(MissingImageSrc))
      && (r.Ok? ==>
            && Search(html, ["src"]).Some?
            && DisplayName(html, parseRoot).Ok?
            && r.value == Element("lx_image", [
                 ("image_url", Search(html, ["src"]).value),
                 ("alt_text", if Search(html, ["alt"]).Some? then Search(html, ["alt"]).value else ""),
                 ("display_name", DisplayName(html, parseRoot).value)]))
      && (Search(html, ["src"]).Some? && DisplayName(html, parseRoot).Ok? ==> r.Ok?)
  {
  }

  /**
   * `html` to `lx_simulation`: the element has exactly `simulation_url` (the first quoted
   * `src=` or `href=` value) and the root's `display_name`; without such a value the
   * conversion fails with `ValueError`.
   */
  lemma ConvertSimulation(oldKey: BlockKey, newKey: BlockKey, olxDir: string, files: map<string, string>,
                          parseRoot: string -> Option<map<string, string>>)
    requires oldKey.blockType == "html" && newKey.blockType == "lx_simulation"
    requires DefinitionPath(olxDir, oldKey) in files
    ensures var html := files[DefinitionPath(olxDir, oldKey)];
      var r := Convert(oldKey, newKey, olxDir, files, parseRoot);
      && (Search(html, ["src", "href"]).None? <==> r == Err(MissingSimulationSrc))
      && (r.Ok? ==>
            && Search(html, ["src", "href"]).Some?
            && DisplayName(html, parseRoot).Ok?
            && r.value == Element("lx_simulation", [
                 ("simulation_url", Search(html, ["src", "href"]).value),
                 ("display_name", DisplayName(html, parseRoot).value)]))
      && (Search(html, ["src", "href"]).Some? && DisplayName(html, parseRoot).Ok? ==> r.Ok?)
  {
  }

  /** Only `definition-1.xml` of the old block's directory is read: the result depends on no other file. */
  lemma ConvertReadsOnlyDefinition(oldKey: BlockKey, newKey: BlockKey, olxDir: string,
                                   files: map<string, string>, files': map<string, string>,
                                   parseRoot: string -> Option<map<string, string>>)
    requires var path := DefinitionPath(olxDir, oldKey);
      (path in files <==> path in files') && (path in files ==> files[path] == files'[path])
    ensures Convert(oldKey, newKey, olxDir, files, parseRoot) == Convert(oldKey, newKey, olxDir, files', parseRoot)
  {
  }
}
