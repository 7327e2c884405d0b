# lx_modulestore_exporter, modelled in Dafny

`lx_modulestore_exporter` is a Django app. It exports blocks from an Open edX
modulestore as OLX files and uploads their static assets to S3. It then pushes the
exported OLX into Blockstore content libraries, converting some block types on the way.
This project models the core of that app and proves properties of the model:

- **`export_data`** (`export_data.py`) walks a block tree from its root and serializes
  every block once, in a manifest keyed by usage key. For each serialized block it then:
  - uploads each static asset the bucket does not have yet;
  - rewrites `/static/<name>` references to the bucket URL;
  - writes `definition-1.xml` (for the root) or `definition-<def_id>.xml` into
    `<out_dir>/<type>-<id>/`.

  The manifest is the class `BlockTree.Manifest`. The S3 bucket and the local disk
  are the classes `Export.Bucket` and `Export.Disk`, which the methods update in place.
  Each method is proved against a functional specification:
  - `Visit` for the walk;
  - `UploadAll`, `NewPuts` and `WriteAll` for the output stage.
- **`export_blocks`** (`management/commands/export_blocks.py`) reads an id file. It
  keeps the first word of every line that is neither blank nor a `#` comment, and
  exports each key in turn. The first exception ends the run.
- **`compat.py`**:
  - `rewrite_absolute_static_urls` is the regular-expression substitution that turns
    absolute asset URLs of one course into `/static/<filename>`. It is written out as
    a left-to-right scanner, proved sound and complete against a declarative
    description of a match.
  - `collect_assets_from_text` is a loop that keeps the reported static paths whose
    asset content exists.
- **`push_olx`** (`management/commands/push_olx.py`) reads pairs (old modulestore key,
  new library key) and decides the new OLX of each pair:
  - a same-type copy of `html`, `video` or `drag-and-drop-v2`;
  - `html` to `lx_image`, or `html` to `lx_simulation`, from the first quoted `src=`,
    `alt=` and `href=` values;
  - an exception for every other pair.

  It sends the result through `set_block_olx`, which writes and commits only when the
  stripped texts differ. The Studio library is the class `PushOlx.Library`.

Python's `str.strip`, `str.split` and `str.replace` are written out in `Strings`, with
Python 3's whitespace set. The id-file comprehensions are in `IdLists`.

Facts about the code that the model keeps:
- When the block type stays the same, only `html`, `video` and `drag-and-drop-v2` are
  copied unchanged (`push_olx.py:114-116`). Every other same-type pair raises
  `NotImplementedError` (`push_olx.py:117-118`).
- Every exception ends the `push_olx` run, and the pairs after it are not processed
  (`push_olx.py:102-153`). This includes a missing `src=` value (`push_olx.py:125`,
  `push_olx.py:144`) and an unsupported pair (`push_olx.py:153`). In the same way, the
  first failing key ends an `export_blocks` run (`export_blocks.py:57-59`).
- The rewrite of absolute URLs (`compat.py:81-82`) is not idempotent in general. Its
  filename run may take in the `http` of an adjacent URL, and a second pass can then
  match that URL. The model does not claim idempotence.
- Collected assets follow the order in which the static-URL reporter lists them
  (`compat.py:99-104`).

## Model

| member | source | states |
|---|---|---|
| Strings.TrimStart | lx_modulestore_exporter/management/commands/export_blocks.py:55 | the left part of `strip()`: the result is a suffix of the input, everything dropped is whitespace, and it does not start with whitespace |
| Strings.TrimEnd | lx_modulestore_exporter/management/commands/export_blocks.py:55 | the right part of `strip()`: the result is a prefix, everything dropped is whitespace, it does not end with whitespace, and a non-whitespace first character survives |
| Strings.StripEmptyIff | lx_modulestore_exporter/management/commands/export_blocks.py:55 | `line.strip()` is empty exactly when the line is all whitespace; otherwise its first character is the line's first non-whitespace character |
| Strings.StripUntrimmed | lx_modulestore_exporter/management/commands/push_olx.py:90 | `strip()` leaves a text that neither starts nor ends with whitespace unchanged |
| Strings.Word | lx_modulestore_exporter/management/commands/export_blocks.py:55 | the first word is a whitespace-free prefix that ends at whitespace or at the end |
| Strings.Split | lx_modulestore_exporter/management/commands/push_olx.py:99 | `split()` yields only non-empty, whitespace-free words |
| Strings.SplitLayout | lx_modulestore_exporter/management/commands/push_olx.py:99 | for any text made of words separated by non-empty whitespace (with any leading and trailing whitespace), `split()` returns exactly those words. So the tokens are the maximal runs of non-whitespace, and their number is the number of such runs |
| Strings.SplitHead | lx_modulestore_exporter/management/commands/export_blocks.py:55 | `split()` is empty exactly when the line is all whitespace; otherwise its first word is the word at the first non-whitespace character |
| Strings.SplitKeepsNonSpace | lx_modulestore_exporter/management/commands/push_olx.py:99 | the words of `split()`, concatenated, are exactly the line's non-whitespace characters in order: splitting loses only whitespace |
| Strings.ReplaceAbsent | lx_modulestore_exporter/export_data.py:100 | `replace` with a pattern that does not occur returns the text unchanged |
| Strings.ReplaceUpTo | lx_modulestore_exporter/export_data.py:100 | where the pattern starts nowhere before `k`, `replace` keeps the first `k` characters unchanged |
| Strings.ReplaceLeftmost | lx_modulestore_exporter/export_data.py:100 | the leftmost occurrence is the first replaced: the text before it is kept, it becomes the replacement, and replacing goes on after it |
| Strings.ReplaceIntroducesRep | lx_modulestore_exporter/export_data.py:100 | when the pattern occurs, the replacement text occurs in the result |
| Strings.ReplaceRemovesChar | lx_modulestore_exporter/export_data.py:105 | after replacing every `c` by a text without `c`, no `c` remains |
| IdLists.KeepLineIff | lx_modulestore_exporter/management/commands/export_blocks.py:55 | a line is kept exactly when it has a first non-whitespace character and that character is not `#` |
| IdLists.KeptLines | lx_modulestore_exporter/management/commands/export_blocks.py:55 | the kept lines are lines of the file, each passes the filter, and there are no more of them than lines |
| IdLists.KeptLinesConcat | lx_modulestore_exporter/management/commands/export_blocks.py:55 | the filter keeps lines independently and in file order: the kept lines of two parts of a file are those of the first part, then those of the second |
| IdLists.KeptLinesSnoc | lx_modulestore_exporter/management/commands/export_blocks.py:55 | one more line is kept, after all the earlier ones, exactly when it passes the filter. With `KeptLines([]) == []` this fixes the kept lines as every passing line, in file order |
| IdLists.KeptLineHasWord | lx_modulestore_exporter/management/commands/export_blocks.py:55 | a kept line always has a word, so `split()[0]` cannot fail |
| IdLists.ExportIds | lx_modulestore_exporter/management/commands/export_blocks.py:55 | one id per kept line |
| IdLists.ExportIdIsFirstWord | lx_modulestore_exporter/management/commands/export_blocks.py:55 | the k-th id is the first word of the k-th kept line: non-empty, whitespace-free, later words ignored |
| IdLists.PushIdTokens | lx_modulestore_exporter/management/commands/push_olx.py:99 | one row per kept line |
| IdLists.PushRowIsSplitLine | lx_modulestore_exporter/management/commands/push_olx.py:99 | the k-th row is the word list of the k-th kept line and is never empty |
| StaticUrls.CoursePartDropsPrefix | lx_modulestore_exporter/compat.py:80 | removing `course-v1:` from `course-v1:<rest>` leaves `<rest>` when `<rest>` has no further prefix |
| StaticUrls.HostEnd | lx_modulestore_exporter/compat.py:81 | `[^/]+` runs greedily: every character before the end is not `/`, and the end is `/` or the end of the text |
| StaticUrls.FilenameEnd | lx_modulestore_exporter/compat.py:81 | `[\w\-\. \+]+` runs greedily: every character before the end is a filename character, the one at the end is not |
| StaticUrls.SchemeAt | lx_modulestore_exporter/compat.py:81 | `https?://` tried at a position: which scheme occurs there, or that neither does |
| StaticUrls.MatchAfterScheme | lx_modulestore_exporter/compat.py:81 | what the scanner finds after a scheme is a match of the pattern at that position |
| StaticUrls.MatchAt | lx_modulestore_exporter/compat.py:81 | the match tried at a position is a match of the pattern (soundness) |
| StaticUrls.MatchAtComplete | lx_modulestore_exporter/compat.py:81 | every match of the pattern at a position is the one the scanner finds there (completeness, greedy runs) |
| StaticUrls.MatchAfterSchemeComplete | lx_modulestore_exporter/compat.py:81 | every match after a given scheme is found by the scanner |
| StaticUrls.MatchIsAssetUrl | lx_modulestore_exporter/compat.py:81 | the matched text is exactly `<scheme><host>/asset-v1:<course>+type@asset+block@<filename>` |
| StaticUrls.MatchHasMarker | lx_modulestore_exporter/compat.py:81 | any match contains the literal `/asset-v1:<course part>+type@asset+block@` |
| StaticUrls.RewriteFrom | lx_modulestore_exporter/compat.py:82 | the rewritten text is never longer than the input |
| StaticUrls.RewriteUpToFirstMatch | lx_modulestore_exporter/compat.py:82 | text before the leftmost match is copied unchanged, then the match is replaced |
| StaticUrls.RewriteWithoutMatch | lx_modulestore_exporter/compat.py:82 | text with no match from a position on is copied unchanged |
| StaticUrls.RewriteWithoutCourseUrl | lx_modulestore_exporter/compat.py:80-82 | text that lacks this course's asset literal, including URLs of other courses, is returned unchanged |
| StaticUrls.RewriteWithoutAssetMarker | lx_modulestore_exporter/compat.py:80-82 | text with no `/asset-v1:` is returned unchanged |
| StaticUrls.CollectedCounts | lx_modulestore_exporter/compat.py:99-104 | each path is yielded as often as it is reported when its content exists, and never otherwise; no more records than reported paths; every record holds the content found for its path |
| StaticUrls.MissingIff | lx_modulestore_exporter/compat.py:99-102 | a `(path, uri)` pair is logged as not found exactly when it was reported and its content cannot be found |
| StaticUrls.CollectAssetsFromText | lx_modulestore_exporter/compat.py:97-104 | the loop yields the collected records in reported order, and logs exactly the pairs whose content is missing, in reported order with duplicates kept; together each reported pair is either yielded or logged, never both |
| BlockTree.Visit | lx_modulestore_exporter/export_data.py:64-74 | the walk only appends to the manifest order, and the key is in it afterwards |
| BlockTree.VisitAll | lx_modulestore_exporter/export_data.py:73-74 | the children loop only appends to the manifest order |
| BlockTree.VisitDistinct | lx_modulestore_exporter/export_data.py:66-70 | no key is serialized twice: the order has no duplicates |
| BlockTree.VisitAllDistinct | lx_modulestore_exporter/export_data.py:66-74 | no key is serialized twice across the children loop |
| BlockTree.VisitClosed | lx_modulestore_exporter/export_data.py:72-74 | every newly serialized block with children has all of its children in the manifest |
| BlockTree.VisitAllClosed | lx_modulestore_exporter/export_data.py:72-74 | the same closure holds after the children loop, and every child is in the manifest |
| BlockTree.VisitSound | lx_modulestore_exporter/export_data.py:64-74 | every newly serialized key is reachable from the key being walked |
| BlockTree.VisitAllSound | lx_modulestore_exporter/export_data.py:72-74 | every key the children loop adds is reachable from one of the children |
| BlockTree.VisitMissing | lx_modulestore_exporter/export_data.py:69 | the walk fails only when a reachable key is missing from the store (`get_block` raises) |
| BlockTree.VisitAllMissing | lx_modulestore_exporter/export_data.py:69-74 | the children loop fails only when a key reachable from a child is missing |
| BlockTree.VisitParentFirst | lx_modulestore_exporter/export_data.py:69-74 | every key after the first has a parent earlier in the order: keys are inserted before their children |
| BlockTree.VisitAllParentFirst | lx_modulestore_exporter/export_data.py:72-74 | the parent-first order holds across the children loop |
| BlockTree.WalkCoversReachable | lx_modulestore_exporter/export_data.py:64-76 | after a successful walk from the root, the manifest keys are exactly the keys reachable through `children` of blocks with `has_children`, all in the store |
| BlockTree.WalkInStore | lx_modulestore_exporter/export_data.py:69-70 | every serialized key was fetched from the store |
| BlockTree.WalkOrder | lx_modulestore_exporter/export_data.py:69-74 | the order starts with the root, has no duplicates, and every other key follows a parent |
| BlockTree.WalkSucceedsIff | lx_modulestore_exporter/export_data.py:64-76 | the walk succeeds exactly when every reachable key is in the store, cycles included |
| BlockTree.Manifest.constructor | lx_modulestore_exporter/export_data.py:62 | the manifest starts empty |
| BlockTree.Manifest.Values | lx_modulestore_exporter/export_data.py:89 | `serialized_blocks.values()` yields one entry per inserted key, in insertion order |
| BlockTree.Manifest.SerializeBlock | lx_modulestore_exporter/export_data.py:64-74 | `serialize_block` keeps the manifest consistent, only appends, succeeds exactly when the walk does, and leaves the walk's order |
| BlockTree.Manifest.SerializeChildren | lx_modulestore_exporter/export_data.py:72-74 | the `for child_id` loop does what the walk of the children specifies |
| Export.Bucket.constructor | lx_modulestore_exporter/export_data.py:27-28 | the bucket starts with its existing objects and no puts |
| Export.Bucket.PutObject | lx_modulestore_exporter/export_data.py:96 | `put_object` stores the data under the path and logs the put |
| Export.Disk.constructor | lx_modulestore_exporter/export_data.py:80-81 | the disk starts with the given directories and files |
| Export.Disk.Mkdir | lx_modulestore_exporter/export_data.py:81-82 | `os.mkdir` adds the directory and leaves the files |
| Export.Disk.WriteFile | lx_modulestore_exporter/export_data.py:106-108 | writing a file sets its text and leaves the directories |
| Export.JoinPathAppend | lx_modulestore_exporter/export_data.py:80 | joining the type and then appending `-<id>` equals joining `<type>-<id>` |
| Export.OutputDir | lx_modulestore_exporter/export_data.py:80 | the output directory is `out_dir` joined with `<type>-<id>`, ending in `/` |
| Export.OlxFileNameShape | lx_modulestore_exporter/export_data.py:102-105 | the root's file is `definition-1.xml`, any other is `definition-<def_id with / as ->.xml`; no file name contains `/` |
| Export.OtherFileName | lx_modulestore_exporter/export_data.py:102-105 | a non-root block's file is `definition-1.xml` only when its replaced def_id is `1` |
| Export.UploadAllKeys | lx_modulestore_exporter/export_data.py:92-98 | after the asset loop the bucket holds exactly the old objects and every asset's path |
| Export.UploadAllKeeps | lx_modulestore_exporter/export_data.py:93-96 | an object already in the bucket is never overwritten |
| Export.UploadAllNew | lx_modulestore_exporter/export_data.py:92-96 | every new object is the data of an asset with that path |
| Export.NewPutsOnce | lx_modulestore_exporter/export_data.py:93-96 | each path is put at most once, and exactly the paths the bucket lacked are put |
| Export.RewriteAppendLeftmost | lx_modulestore_exporter/export_data.py:99-100 | for one more asset, its leftmost `/static/<name>` reference becomes the asset's bucket URL; the text before it is kept, and replacing goes on after it |
| Export.RewritePointsAtBucket | lx_modulestore_exporter/export_data.py:99-100 | when the OLX still refers to `/static/<name>`, the rewritten OLX contains the asset's bucket URL |
| Export.RewriteWithoutStaticRefs | lx_modulestore_exporter/export_data.py:99-100 | OLX with no `/static/<name>` reference is written unchanged |
| Export.ManifestBlocks | lx_modulestore_exporter/export_data.py:89 | `serialized_blocks.values()` holds one entry per manifest key, in insertion order |
| Export.UploadConcat | lx_modulestore_exporter/export_data.py:89-98 | uploading two asset lists in turn is uploading their concatenation |
| Export.PutsConcat | lx_modulestore_exporter/export_data.py:89-98 | the puts of a concatenation are those of the first list, then those of the second against the updated bucket |
| Export.UploadBlocksFlat | lx_modulestore_exporter/export_data.py:89-98 | the per-block upload loops amount to one upload of all assets in manifest order |
| Export.WriteAllKeys | lx_modulestore_exporter/export_data.py:102-108 | after the loop the disk holds the old files and one file per block; other files are untouched |
| Export.WriteAllFileOf | lx_modulestore_exporter/export_data.py:102-108 | a block's file holds its rewritten OLX unless a later block has the same file name |
| Export.ExportBlock | lx_modulestore_exporter/export_data.py:89-108 | one block: its assets are uploaded, its OLX rewritten and written, and nothing else changes |
| Export.SerializeTree | lx_modulestore_exporter/export_data.py:62-76 | serialization succeeds exactly when the walk does, and yields the manifest entries in walk order |
| Export.ExportNextBlock | lx_modulestore_exporter/export_data.py:89-108 | one turn of the output loop advances the bucket and the disk to the specification of one more block |
| Export.ExportEachBlock | lx_modulestore_exporter/export_data.py:89-108 | the loop over `serialized_blocks.values()` leaves the bucket and the files as the upload and write specifications of all the blocks, in order, say; the directories are unchanged |
| Export.WriteBlocks | lx_modulestore_exporter/export_data.py:80-108 | the output stage (mkdir, asset loop, rewrite, write) does exactly what `WriteOutputs` specifies |
| Export.ExportData | lx_modulestore_exporter/export_data.py:48-108 | `export_data` changes the outputs exactly as `ExportOutcome` specifies, and nothing when it fails |
| Export.ExportGuarantees | lx_modulestore_exporter/export_data.py:48-108 | an export succeeds exactly when the tree is complete. Then every reachable asset is in the bucket, no object is overwritten, only missing paths are put, each at most once, and the output directory exists |
| Export.ExportWritesRootFile | lx_modulestore_exporter/export_data.py:102-108 | the root's rewritten OLX is in `<out_dir>/<type>-<id>/definition-1.xml` |
| ExportBlocks.ExportAll | lx_modulestore_exporter/management/commands/export_blocks.py:57-59 | a run completes at most as many exports as there are ids |
| ExportBlocks.ExportAllStopsAtFirstFailure | lx_modulestore_exporter/management/commands/export_blocks.py:57-59 | ids are exported in file order. Each completed id parsed, and its export succeeded from the state the earlier exports left. The final state is the state after those exports. An early stop is at an id that does not parse, or whose export fails from that final state |
| ExportBlocks.ExportRunStopsAtIncompleteTree | lx_modulestore_exporter/management/commands/export_blocks.py:57-59 | with `export_data` as the step, every completed id had a complete tree, and an early stop is at an id that does not parse or whose tree reaches a missing block |
| ExportBlocks.ExportNextId | lx_modulestore_exporter/management/commands/export_blocks.py:58-59 | one turn of the loop: parse, export, and either go on or stop with nothing changed |
| ExportBlocks.ExportBlocks | lx_modulestore_exporter/management/commands/export_blocks.py:54-59 | `handle` calls `export_data` once per parsed id, in order, into the same directory, until the first failure |
| OlxConvert.QuoteFreeEnd | lx_modulestore_exporter/management/commands/push_olx.py:123 | `[^'"]+` runs greedily up to the first quote or the end |
| OlxConvert.QuotedAt | lx_modulestore_exporter/management/commands/push_olx.py:123 | a value captured at a position is a match of `<name>=['"]([^'"]+)['"]` there |
| OlxConvert.QuotedAtComplete | lx_modulestore_exporter/management/commands/push_olx.py:123 | any match at a position is the value captured there |
| OlxConvert.AnyQuotedAtIff | lx_modulestore_exporter/management/commands/push_olx.py:142 | the alternation `(src\|href)` captures at a position exactly when one alternative matches there |
| OlxConvert.SearchFrom | lx_modulestore_exporter/management/commands/push_olx.py:123 | the search returns the first position at which the pattern matches, with its value, or reports that it matches nowhere |
| OlxConvert.SearchIsLeftmost | lx_modulestore_exporter/management/commands/push_olx.py:123 | `re.search` returns the value of the leftmost match |
| OlxConvert.SearchNoneIff | lx_modulestore_exporter/management/commands/push_olx.py:123-125 | the search fails (the `AttributeError` case) exactly when the pattern matches nowhere |
| OlxConvert.DefinitionPathIsExportedRootFile | lx_modulestore_exporter/management/commands/push_olx.py:107-111 | the file read is `<olx_dir>/<type>-<id>/definition-1.xml`, the root file `export_data` writes for the old key |
| OlxConvert.DisplayName | lx_modulestore_exporter/management/commands/push_olx.py:130-131 | the result is the root element's `display_name` attribute. Reading it fails with an XML syntax error exactly when the text does not parse, and with a `KeyError` exactly when the parsed root lacks the attribute |
| OlxConvert.Convert | lx_modulestore_exporter/management/commands/push_olx.py:113-153 | a same-type success is the file's text; a cross-type success is from `html` and yields an element of the new type |
| OlxConvert.ConvertSameType | lx_modulestore_exporter/management/commands/push_olx.py:114-118 | `html`, `video`, `drag-and-drop-v2` are copied unchanged (failing only if the file is missing); any other same-type pair raises `NotImplementedError` |
| OlxConvert.ConvertOtherPairs | lx_modulestore_exporter/management/commands/push_olx.py:152-153 | every cross-type pair other than html to lx_image or lx_simulation raises `NotImplementedError` |
| OlxConvert.ConvertImage | lx_modulestore_exporter/management/commands/push_olx.py:119-137 | no `src=` value gives `ValueError`; otherwise the `lx_image` element has exactly `image_url`, `alt_text` (or empty) and `display_name` |
| OlxConvert.ConvertSimulation | lx_modulestore_exporter/management/commands/push_olx.py:138-151 | no `src=`/`href=` value gives `ValueError`; otherwise the `lx_simulation` element has exactly `simulation_url` and `display_name` |
| OlxConvert.ConvertReadsOnlyDefinition | lx_modulestore_exporter/management/commands/push_olx.py:107-111 | the decision depends on no file other than the old block's `definition-1.xml` |
| PushOlx.StripUnknown | lx_modulestore_exporter/management/commands/push_olx.py:89 | the placeholder `"unknown"` has no surrounding whitespace |
| PushOlx.DiffersIsStrippedCompare | lx_modulestore_exporter/management/commands/push_olx.py:84-90 | the model's test is `existing_olx.strip() != new_olx.strip()`, with `"unknown"` for a failed read |
| PushOlx.SetOlx | lx_modulestore_exporter/management/commands/push_olx.py:90-95 | `set_block_olx` never changes which reads fail and only appends to the write and commit logs |
| PushOlx.SetOlxWritesIff | lx_modulestore_exporter/management/commands/push_olx.py:90-95 | a write happens exactly when the stripped texts differ; each write is followed by one commit of the block's library; otherwise nothing changes |
| PushOlx.SetOlxOnlyTouchesKey | lx_modulestore_exporter/management/commands/push_olx.py:91 | no other block's OLX changes |
| PushOlx.SetOlxMakesCurrent | lx_modulestore_exporter/management/commands/push_olx.py:90-92 | unless the read fails, the block afterwards compares equal to the new text |
| PushOlx.SetOlxAgain | lx_modulestore_exporter/management/commands/push_olx.py:90-95 | pushing the same text twice writes at most once |
| PushOlx.SetOlxFailingReadAlwaysWrites | lx_modulestore_exporter/management/commands/push_olx.py:84-92 | where the read keeps failing, every push of a text other than `"unknown"` writes and commits again |
| PushOlx.Library.constructor | lx_modulestore_exporter/management/commands/push_olx.py:67-70 | the client starts with the library's blocks and empty write and commit logs |
| PushOlx.Library.SetBlockOlx | lx_modulestore_exporter/management/commands/push_olx.py:76-95 | `set_block_olx` serializes an element, reads, compares, and writes and commits as `SetOlx` specifies |
| PushOlx.PushRow | lx_modulestore_exporter/management/commands/push_olx.py:102-153 | a pair that gets through has two words and its block is the parsed new key |
| PushOlx.PushRowOrder | lx_modulestore_exporter/management/commands/push_olx.py:102-104 | failures come in order: row shape, old key, new key, then the conversion, whose result is passed on |
| PushOlx.Pushed | lx_modulestore_exporter/management/commands/push_olx.py:102-153 | a run pushes at most as many pairs as there are rows |
| PushOlx.PushState | lx_modulestore_exporter/management/commands/push_olx.py:102-153 | a run never changes which reads fail and only appends to the logs |
| PushOlx.PushedThenFirstError | lx_modulestore_exporter/management/commands/push_olx.py:102-153 | pairs are pushed in file order: the pushed rows all succeed, and the run ends with an exception exactly when it stops early, with the exception of the next row |
| PushOlx.PushAllFrame | lx_modulestore_exporter/management/commands/push_olx.py:102-153 | a block that is no row's new key is unchanged by the run |
| PushOlx.PushAllMakesCurrent | lx_modulestore_exporter/management/commands/push_olx.py:90-153 | after a complete run with distinct, readable new keys, every new block compares equal to its row's OLX |
| PushOlx.PushAllCurrentIsNoop | lx_modulestore_exporter/management/commands/push_olx.py:90-95 | when every block already holds its OLX, a run writes and commits nothing |
| PushOlx.PushAgainIsNoop | lx_modulestore_exporter/management/commands/push_olx.py:90-153 | re-running after a complete run with distinct, readable new keys changes nothing |
| PushOlx.PushNextRow | lx_modulestore_exporter/management/commands/push_olx.py:102-153 | one turn of the loop: either the pair is pushed and the run goes on, or its exception ends the run with nothing changed |
| PushOlx.PushOlx | lx_modulestore_exporter/management/commands/push_olx.py:97-153 | `handle` parses the pairs and pushes them in order, ending at the first exception, exactly as `PushAll` specifies |

## Left out

- Network transport:
  - S3 is a map of existing objects. `s3_bucket_has_object` is membership in that map.
    Its re-raise of non-404 errors (`export_data.py:35-45`) is not modelled.
  - The Studio client (`studio_client.py`) is the abstract state `LibState`:
    - a block whose read raises an HTTP error, being in `failing` or missing, reads as
      `"unknown"`;
    - writes and commits always succeed;
    - OAuth, token refresh and the connection check at `push_olx.py:72-73` are not
      modelled;
    - `block_key.lib_key` is the key's `context`.
- The modulestore: `compat.get_block` is lookup in a `Store` map, and a missing key
  makes the export fail. `XBlockSerializer` (not part of this model) is the
  `serialization` each block carries. The second fetch of the root at
  `export_data.py:78` has no effect on the outputs and is left out.
- lxml: `etree.fromstring(...).attrib` is the parameter `parseRoot`, and
  `etree.tostring` is the parameter `render`. The model treats the serialized element
  as text. Under Python 3 `tostring` returns bytes, so the comparison at
  `push_olx.py:90` would always find a difference. The model follows the Python 2
  reading, where the comparison is between texts.
- File I/O: the disk is a set of directories and a map of files. A failing `mkdir` or
  write and UTF-8 encoding are not modelled. `read_olx` failing is the `FileMissing` error.
- `UsageKey.from_string` is the parameter `parseKey`. A key that does not parse is the
  `BadKey` error.
- `replace_static_urls` (edx-platform) is the input list of reported static paths, and
  `get_asset_content_from_path` is the parameter `lookup`. The generator is modelled as
  the list it yields. Error logging is the returned list of missing paths.
- `\w` in the filename run of `compat.py:81` is ASCII letters, digits and `_`. Unicode
  word characters are not modelled.
- Python version: the source is Python 2 code in places. Examples are
  `import_error.message` at `compat.py:35` and the text comparison after
  `etree.tostring` at `push_olx.py:82-90`. In other places the model takes Python 3
  behaviour:
  - `IsSpace` is Python 3's Unicode `str.isspace` set. Under Python 2 the id-file lines
    are byte strings, so `strip()` and `split()` remove ASCII whitespace only.
  - `serialized_blocks.values()` is taken in insertion order, as for Python 3.7
    dictionaries. Under Python 2 that order is unspecified, and with it the order of
    the puts log and which block wins a file-name collision.
    `Export.ExportData`, `Export.WriteAllFileOf` and `Export.ExportWritesRootFile` fix
    both from the walk order.
- BlockTree.Serialize: the serializer's `orig_block_key` is taken to be the usage key
  that was passed to `compat.get_block`. The serializer (`block_serializer.py`) is not
  part of this model. The test at `export_data.py:102` compares this field with the root
  key, so the root-file naming rests on this assumption. That naming is stated in
  `Export.OlxFileNameShape`, `Export.ExportWritesRootFile` and
  `OlxConvert.DefinitionPathIsExportedRootFile`.
- Logging, `print`, `set_logging`, argument parsing, `apps.py`, `settings.py`: not
  modelled.
- `management/commands/export_block.py` is not part of this model. It parses one key
  and calls `export_data` without its required `out_dir`.
- Export.ExportWritesRootFile: proved only when no other block's replaced `def_id` is
  `1`. The root comes first in the manifest, so a later block whose replaced `def_id`
  is `1` writes `definition-1.xml` after it and overwrites the root's file.
- BlockTree.WalkSucceedsIff: Python's recursion limit is not modelled. `serialize_block`
  (`export_data.py:64-74`) calls itself once per tree level, so a complete but deep
  tree (a chain of about 1000 blocks) raises `RecursionError` in the source. The
  model's walk has no depth bound. "Succeeds exactly when the tree is complete" in
  `BlockTree.WalkSucceedsIff`, `BlockTree.Manifest.SerializeBlock`,
  `Export.SerializeTree` and `Export.ExportGuarantees` holds only for trees within
  that limit.
- PushOlx.PushAgainIsNoop: proved only for runs whose new keys are distinct and
  readable. When two rows share a new key, the first row's text is written again on
  every run. When a key's read fails, every run writes again
  (`PushOlx.SetOlxFailingReadAlwaysWrites`).
- The idempotence of `rewrite_absolute_static_urls` is not claimed: it does not hold in
  general (see above).
