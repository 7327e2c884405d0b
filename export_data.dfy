/**
 * `export_data(root_block_key, out_dir)`: serialise every block reachable from the
 * root, then, block by block in the dict's order, upload each static asset to the
 * S3 bucket unless it is already there, point the OLX's `/static/<name>` references
 * at the bucket, and write the OLX into the output directory.
 */
module Export {
  import opened Wrappers
  import opened Strings
  import opened BlockTree

  /** `LX_EXPORTER_STATIC_FILES_PATH` and `LX_EXPORTER_STATIC_FILES_BUCKET`. */
  datatype Config = Config(staticFilesPath: string, bucketName: string)

  /** The S3 bucket: its objects by key, and the log of `put_object` calls. */
  class Bucket {
    var objects: map<string, seq<bv8>>
    var puts: seq<string>

    constructor(existing: map<string, seq<bv8>>)
      ensures objects == existing && puts == []
    {
      objects := existing;
      puts := [];
    }

    /** `s3_bucket_has_object(path)`. */
    predicate HasObject(path: string)
      reads this
    {
      path in objects
    }

    /** `s3_bucket.put_object(Key=path, Body=data)`. */
    method PutObject(path: string, data: seq<bv8>)
      modifies this
      ensures objects == old(objects)[path := data]
      ensures puts == old(puts) + [path]
    {
      objects := objects[path := data];
      puts := puts + [path];
    }
  }

  /** The local file system: existing directories and files with their text. */
  class Disk {
    var dirs: set<string>
    var files: map<string, string>

    constructor(dirs0: set<string>, files0: map<string, string>)
      ensures dirs == dirs0 && files == files0
    {
      dirs := dirs0;
      files := files0;
    }

    /** `os.mkdir(path)`. */
    method Mkdir(path: string)
      modifies this
      ensures dirs == old(dirs) + {path} && files == old(files)
    {
      dirs := dirs + {path};
    }

    /** `open(path, 'wb').write(text.encode('utf-8'))`. */
    method WriteFile(path: string, text: string)
      modifies this
      ensures files == old(files)[path := text] && dirs == old(dirs)
    {
      files := files[path := text];
    }
  }

  /** `posixpath.join(a, b)`. */
  function JoinPath(a: string, b: string): (r: string)
    ensures b != [] && b[0] == '/' ==> r == b
    ensures (b == [] || b[0] != '/') ==> r == a + (if a == [] || a[|a| - 1] == '/' then [] else "/") + b
  {
    if b != [] && b[0] == '/' then b
    else if a == [] || a[|a| - 1] == '/' then a + b
    else a + "/" + b
  }

  /** Joining the block type and then appending `-<id>` names the same path as joining `<type>-<id>`. */
  lemma JoinPathAppend(a: string, t: string, id: string)
    ensures JoinPath(a, t) + "-" + id == JoinPath(a, t + "-" + id)
  {
    if t != [] {
      assert (t + "-" + id)[0] == t[0];
    } else {
      assert t + "-" + id == "-" + id;
    }
  }

  /** `<type>-<id>`: the name the exported block's directory and assets are filed under. */
  function BlockDirName(root: BlockKey): string
  {
    root.blockType + "-" + root.blockId
  }

  /** `os.path.join(out_dir, type) + '-' + id + '/'` */
  function OutputDir(outDir: string, root: BlockKey): (r: string)
    ensures r == JoinPath(outDir, BlockDirName(root)) + "/"
    ensures r[|r| - 1] == '/'
  {
    JoinPathAppend(outDir, root.blockType, root.blockId);
    JoinPath(outDir, root.blockType) + "-" + root.blockId + "/"
  }

  /** `STATIC_FILES_PATH + type + '-' + id + '/'` */
  function S3PathPrefix(cfg: Config, root: BlockKey): (r: string)
    ensures r == cfg.staticFilesPath + BlockDirName(root) + "/"
  {
    cfg.staticFilesPath + root.blockType + "-" + root.blockId + "/"
  }

  /** `'https://' + BUCKET + '/' + s3_path_prefix` */
  function S3UrlPrefix(cfg: Config, root: BlockKey): string
  {
    "https://" + cfg.bucketName + "/" + S3PathPrefix(cfg, root)
  }

  /** The file name a serialised block is written to. */
  function OlxFileName(data: SerializedBlock, root: BlockKey): string
  {
    if data.origKey == root then "definition-1.xml"
    else "definition-" + Replace(data.defId, "/", "-") + ".xml"
  }

  /**
   * The root's file is `definition-1.xml`; every other block's is
   * `definition-<def id with '/' turned into '-'>.xml`; no name has a '/', so every
   * file lands directly inside the output directory.
   */
  lemma OlxFileNameShape(data: SerializedBlock, root: BlockKey)
    ensures data.origKey == root ==> OlxFileName(data, root) == "definition-1.xml"
    ensures data.origKey != root ==> OlxFileName(data, root) == "definition-" + Replace(data.defId, "/", "-") + ".xml"
    ensures '/' !in OlxFileName(data, root)
    ensures !Contains(data.defId, "/") ==> data.origKey != root ==> OlxFileName(data, root) == "definition-" + data.defId + ".xml"
  {
    ReplaceRemovesChar(data.defId, '/', "-");
    var name := OlxFileName(data, root);
    if data.origKey != root {
      var mid := Replace(data.defId, "/", "-");
      assert name == "definition-" + mid + ".xml";
      assert '/' !in "definition-" && '/' !in ".xml";
      if !Contains(data.defId, "/") {
        ReplaceAbsent(data.defId, "/", "-");
      }
    }
  }

  /** The bucket key of an asset. */
  function AssetPath(prefix: string, asset: AssetFile): string
  {
    prefix + asset.name
  }

  /** The bucket's objects after the upload-if-absent step for each asset in turn. */
  function UploadAll(objects: map<string, seq<bv8>>, prefix: string, assets: seq<AssetFile>): map<string, seq<bv8>>
  {
    if assets == [] then objects
    else
      var before := UploadAll(objects, prefix, assets[..|assets| - 1]);
      var asset := assets[|assets| - 1];
      if AssetPath(prefix, asset) in before then before
      else before[AssetPath(prefix, asset) := asset.data]
  }

  /** The `put_object` calls the same steps make, in order. */
  function NewPuts(objects: map<string, seq<bv8>>, prefix: string, assets: seq<AssetFile>): seq<string>
  {
    if assets == [] then []
    else
      var before := UploadAll(objects, prefix, assets[..|assets| - 1]);
      var asset := assets[|assets| - 1];
      NewPuts(objects, prefix, assets[..|assets| - 1])
        + (if AssetPath(prefix, asset) in before then [] else [AssetPath(prefix, asset)])
  }

  /** After uploading, the bucket holds exactly the paths it held plus every asset's path. */
  lemma {:induction false} UploadAllKeys(objects: map<string, seq<bv8>>, prefix: string, assets: seq<AssetFile>)
    ensures UploadAll(objects, prefix, assets).Keys == objects.Keys + set a | a in assets :: AssetPath(prefix, a)
    decreases |assets|
  {
    if assets != [] {
      var init := assets[..|assets| - 1];
      var last := assets[|assets| - 1];
      UploadAllKeys(objects, prefix, init);
      assert assets == init + [last];
      assert (set a | a in assets :: AssetPath(prefix, a))
        == (set a | a in init :: AssetPath(prefix, a)) + {AssetPath(prefix, last)};
    }
  }

  /** Uploading never overwrites: objects already in the bucket keep their content. */
  lemma {:induction false} UploadAllKeeps(objects: map<string, seq<bv8>>, prefix: string, assets: seq<AssetFile>)
    ensures forall p :: p in objects ==> p in UploadAll(objects, prefix, assets) && UploadAll(objects, prefix, assets)[p] == objects[p]
    decreases |assets|
  {
    if assets != [] {
      UploadAllKeeps(objects, prefix, assets[..|assets| - 1]);
    }
  }

  /** Each object the upload adds holds the data of an asset filed under that path. */
  lemma {:induction false} UploadAllNew(objects: map<string, seq<bv8>>, prefix: string, assets: seq<AssetFile>)
    ensures forall p :: p in UploadAll(objects, prefix, assets) && p !in objects ==>
      exists a :: a in assets && AssetPath(prefix, a) == p && UploadAll(objects, prefix, assets)[p] == a.data
    decreases |assets|
  {
    if assets != [] {
      var init := assets[..|assets| - 1];
      var last := assets[|assets| - 1];
      UploadAllNew(objects, prefix, init);
      var before := UploadAll(objects, prefix, init);
      var after := UploadAll(objects, prefix, assets);
      forall p | p in after && p !in objects
        ensures exists a :: a in assets && AssetPath(prefix, a) == p && after[p] == a.data
      {
        if p == AssetPath(prefix, last) && AssetPath(prefix, last) !in before {
          assert last in assets;
        } else {
          assert p in before && after[p] == before[p];
          var a :| a in init && AssetPath(prefix, a) == p && before[p] == a.data;
          assert a in assets;
        }
      }
    }
  }

  /**
   * `put_object` is called only for paths the bucket lacked, at most once per path,
   * and exactly for the paths that were new.
   */
  lemma {:induction false} NewPutsOnce(objects: map<string, seq<bv8>>, prefix: string, assets: seq<AssetFile>)
    ensures forall a, b :: 0 <= a < b < |NewPuts(objects, prefix, assets)| ==>
      NewPuts(objects, prefix, assets)[a] != NewPuts(objects, prefix, assets)[b]
    ensures forall p :: p in NewPuts(objects, prefix, assets) <==> p in UploadAll(objects, prefix, assets) && p !in objects
    decreases |assets|
  {
    if assets != [] {
      var init := assets[..|assets| - 1];
      NewPutsOnce(objects, prefix, init);
      UploadAllKeeps(objects, prefix, init);
    }
  }

  /** The OLX after each asset's `/static/<name>` has been pointed at the bucket, in asset order. */
  function RewriteStaticRefs(olx: string, urlPrefix: string, assets: seq<AssetFile>): string
  {
    if assets == [] then olx
    else
      var asset := assets[|assets| - 1];
      Replace(RewriteStaticRefs(olx, urlPrefix, assets[..|assets| - 1]), "/static/" + asset.name, urlPrefix + asset.name)
  }

  /** OLX that mentions none of the block's assets as `/static/<name>` is written unchanged. */
  lemma {:induction false} RewriteWithoutStaticRefs(olx: string, urlPrefix: string, assets: seq<AssetFile>)
    requires forall a :: a in assets ==> !Contains(olx, "/static/" + a.name)
    ensures RewriteStaticRefs(olx, urlPrefix, assets) == olx
    decreases |assets|
  {
    if assets != [] {
      var init := assets[..|assets| - 1];
      var asset := assets[|assets| - 1];
      assert forall a :: a in init ==> a in assets;
      RewriteWithoutStaticRefs(olx, urlPrefix, init);
      ReplaceAbsent(olx, "/static/" + asset.name, urlPrefix + asset.name);
    }
  }

  /** The values of the dict in insertion order, as `serialized_blocks.values()` yields them. */
  function ManifestBlocks(store: Store, order: seq<BlockKey>): (blocks: seq<SerializedBlock>)
    requires forall k :: k in order ==> k in store
    ensures |blocks| == |order|
    ensures forall i :: 0 <= i < |order| ==> blocks[i].origKey == order[i]
  {
    seq(|order|, i requires 0 <= i < |order| => Serialize(order[i], store[order[i]]))
  }

  /** All static files of the blocks, block by block, in list order. */
  function AllAssets(blocks: seq<SerializedBlock>): seq<AssetFile>
  {
    if blocks == [] then [] else AllAssets(blocks[..|blocks| - 1]) + blocks[|blocks| - 1].staticFiles
  }

  /** The bucket after the upload loops of all blocks, block by block. */
  function UploadBlocks(objects: map<string, seq<bv8>>, prefix: string, blocks: seq<SerializedBlock>): map<string, seq<bv8>>
  {
    if blocks == [] then objects
    else UploadAll(UploadBlocks(objects, prefix, blocks[..|blocks| - 1]), prefix, blocks[|blocks| - 1].staticFiles)
  }

  /** The `put_object` calls of the upload loops of all blocks, in order. */
  function PutsBlocks(objects: map<string, seq<bv8>>, prefix: string, blocks: seq<SerializedBlock>): seq<string>
  {
    if blocks == [] then []
    else
      var init := blocks[..|blocks| - 1];
      PutsBlocks(objects, prefix, init) + NewPuts(UploadBlocks(objects, prefix, init), prefix, blocks[|blocks| - 1].staticFiles)
  }

  /** Uploading two lists one after the other is uploading their concatenation. */
  lemma {:induction false} UploadConcat(objects: map<string, seq<bv8>>, prefix: string, xs: seq<AssetFile>, ys: seq<AssetFile>)
    ensures UploadAll(objects, prefix, xs + ys) == UploadAll(UploadAll(objects, prefix, xs), prefix, ys)
    decreases |ys|
  {
    if ys == [] {
      assert xs + ys == xs;
    } else {
      var init := ys[..|ys| - 1];
      var last := ys[|ys| - 1];
      UploadConcat(objects, prefix, xs, init);
      assert xs + ys == (xs + init) + [last];
      UploadAllAppend(objects, prefix, xs + init, last);
      UploadAllAppend(UploadAll(objects, prefix, xs), prefix, init, last);
      assert ys == init + [last];
    }
  }

  /** The puts of a concatenation are the puts of the first list, then those of the second from the bucket it left. */
  lemma {:induction false} PutsConcat(objects: map<string, seq<bv8>>, prefix: string, xs: seq<AssetFile>, ys: seq<AssetFile>)
    ensures NewPuts(objects, prefix, xs + ys) == NewPuts(objects, prefix, xs) + NewPuts(UploadAll(objects, prefix, xs), prefix, ys)
    decreases |ys|
  {
    if ys == [] {
      assert xs + ys == xs;
    } else {
      var init := ys[..|ys| - 1];
      var last := ys[|ys| - 1];
      var mid := UploadAll(objects, prefix, xs);
      var path := AssetPath(prefix, last);
      var put := if path in UploadAll(mid, prefix, init) then [] else [path];
      calc {
        NewPuts(objects, prefix, xs + ys);
        { assert xs + ys == (xs + init) + [last]; UploadAllAppend(objects, prefix, xs + init, last); }
        NewPuts(objects, prefix, xs + init) + (if path in UploadAll(objects, prefix, xs + init) then [] else [path]);
        { UploadConcat(objects, prefix, xs, init); }
        NewPuts(objects, prefix, xs + init) + put;
        { PutsConcat(objects, prefix, xs, init); }
        (NewPuts(objects, prefix, xs) + NewPuts(mid, prefix, init)) + put;
        NewPuts(objects, prefix, xs) + (NewPuts(mid, prefix, init) + put);
        { assert ys == init + [last]; UploadAllAppend(mid, prefix, init, last); }
        NewPuts(objects, prefix, xs) + NewPuts(mid, prefix, ys);
      }
    }
  }

  /** The block-by-block upload is the upload of all assets in one list. */
  lemma {:induction false} UploadBlocksFlat(objects: map<string, seq<bv8>>, prefix: string, blocks: seq<SerializedBlock>)
    ensures UploadBlocks(objects, prefix, blocks) == UploadAll(objects, prefix, AllAssets(blocks))
    ensures PutsBlocks(objects, prefix, blocks) == NewPuts(objects, prefix, AllAssets(blocks))
    decreases |blocks|
  {
    if blocks != [] {
      var init := blocks[..|blocks| - 1];
      UploadBlocksFlat(objects, prefix, init);
      UploadConcat(objects, prefix, AllAssets(init), blocks[|blocks| - 1].staticFiles);
      PutsConcat(objects, prefix, AllAssets(init), blocks[|blocks| - 1].staticFiles);
    }
  }

  lemma BlocksAppend(objects: map<string, seq<bv8>>, prefix: string, blocks: seq<SerializedBlock>, data: SerializedBlock)
    ensures UploadBlocks(objects, prefix, blocks + [data])
      == UploadAll(UploadBlocks(objects, prefix, blocks), prefix, data.staticFiles)
    ensures PutsBlocks(objects, prefix, blocks + [data])
      == PutsBlocks(objects, prefix, blocks) + NewPuts(UploadBlocks(objects, prefix, blocks), prefix, data.staticFiles)
  {
    assert (blocks + [data])[..|blocks|] == blocks;
  }

  /** The text each block's file receives. */
  function OutputText(data: SerializedBlock, urlPrefix: string): string
  {
    RewriteStaticRefs(data.olx, urlPrefix, data.staticFiles)
  }

  /** The files after each block's OLX has been written, in list order (a later write to the same name wins). */
  function WriteAll(files: map<string, string>, dir: string, root: BlockKey, urlPrefix: string, blocks: seq<SerializedBlock>): map<string, string>
  {
    if blocks == [] then files
    else
      var data := blocks[|blocks| - 1];
      WriteAll(files, dir, root, urlPrefix, blocks[..|blocks| - 1])[dir + OlxFileName(data, root) := OutputText(data, urlPrefix)]
  }

  /** One file per block, named after it, inside the output directory; no other file is touched. */
  lemma {:induction false} WriteAllKeys(files: map<string, string>, dir: string, root: BlockKey, urlPrefix: string,
                                        blocks: seq<SerializedBlock>)
    ensures WriteAll(files, dir, root, urlPrefix, blocks).Keys
      == files.Keys + set data | data in blocks :: dir + OlxFileName(data, root)
    ensures forall p :: p in files && p !in (set data | data in blocks :: dir + OlxFileName(data, root)) ==>
      WriteAll(files, dir, root, urlPrefix, blocks)[p] == files[p]
    decreases |blocks|
  {
    if blocks != [] {
      var init := blocks[..|blocks| - 1];
      var last := blocks[|blocks| - 1];
      assert blocks == init + [last];
      assert (set data | data in blocks :: dir + OlxFileName(data, root))
        == (set data | data in init :: dir + OlxFileName(data, root)) + {dir + OlxFileName(last, root)};
      WriteAllKeys(files, dir, root, urlPrefix, init);
    }
  }

  /** The file of block `i` holds that block's rewritten OLX unless a later block writes the same file name. */
  lemma {:induction false} WriteAllFileOf(files: map<string, string>, dir: string, root: BlockKey, urlPrefix: string,
                                          blocks: seq<SerializedBlock>, i: nat)
    requires i < |blocks|
    requires forall j :: i < j < |blocks| ==> OlxFileName(blocks[j], root) != OlxFileName(blocks[i], root)
    ensures dir + OlxFileName(blocks[i], root) in WriteAll(files, dir, root, urlPrefix, blocks)
      && WriteAll(files, dir, root, urlPrefix, blocks)[dir + OlxFileName(blocks[i], root)] == OutputText(blocks[i], urlPrefix)
    decreases |blocks|
  {
    var init := blocks[..|blocks| - 1];
    var last := blocks[|blocks| - 1];
    if i < |blocks| - 1 {
      forall j | i < j < |init| ensures OlxFileName(init[j], root) != OlxFileName(init[i], root) {
        assert init[j] == blocks[j];
      }
      WriteAllFileOf(files, dir, root, urlPrefix, init, i);
      assert init[i] == blocks[i];
      assert (dir + OlxFileName(last, root))[|dir|..] == OlxFileName(last, root);
      assert (dir + OlxFileName(blocks[i], root))[|dir|..] == OlxFileName(blocks[i], root);
    }
  }

  lemma TakeOneMore(blocks: seq<SerializedBlock>, i: nat)
    requires i < |blocks|
    ensures blocks[..i + 1] == blocks[..i] + [blocks[i]]
  {
  }

  lemma AllAssetsAppend(blocks: seq<SerializedBlock>, data: SerializedBlock)
    ensures AllAssets(blocks + [data]) == AllAssets(blocks) + data.staticFiles
  {
    assert (blocks + [data])[..|blocks|] == blocks;
  }

  lemma UploadAllAppend(objects: map<string, seq<bv8>>, prefix: string, assets: seq<AssetFile>, asset: AssetFile)
    ensures UploadAll(objects, prefix, assets + [asset])
      == var before := UploadAll(objects, prefix, assets);
         if AssetPath(prefix, asset) in before then before else before[AssetPath(prefix, asset) := asset.data]
    ensures NewPuts(objects, prefix, assets + [asset])
      == NewPuts(objects, prefix, assets)
         + (if AssetPath(prefix, asset) in UploadAll(objects, prefix, assets) then [] else [AssetPath(prefix, asset)])
  {
    assert (assets + [asset])[..|assets|] == assets;
  }

  /** One more asset of the current block, as the upload loop takes it. */
  lemma UploadStep(objects: map<string, seq<bv8>>, prefix: string, files: seq<AssetFile>, j: nat)
    requires j < |files|
    ensures var before := UploadAll(objects, prefix, files[..j]);
      && UploadAll(objects, prefix, files[..j + 1])
         == (if AssetPath(prefix, files[j]) in before then before else before[AssetPath(prefix, files[j]) := files[j].data])
      && NewPuts(objects, prefix, files[..j + 1])
         == NewPuts(objects, prefix, files[..j])
            + (if AssetPath(prefix, files[j]) in before then [] else [AssetPath(prefix, files[j])])
  {
    assert files[..j + 1] == files[..j] + [files[j]];
    UploadAllAppend(objects, prefix, files[..j], files[j]);
  }

  lemma RewriteStep(olx: string, urlPrefix: string, files: seq<AssetFile>, j: nat)
    requires j < |files|
    ensures RewriteStaticRefs(olx, urlPrefix, files[..j + 1])
      == Replace(RewriteStaticRefs(olx, urlPrefix, files[..j]), "/static/" + files[j].name, urlPrefix + files[j].name)
  {
    assert files[..j + 1] == files[..j] + [files[j]];
    RewriteAppend(olx, urlPrefix, files[..j], files[j]);
  }

  lemma RewriteAppend(olx: string, urlPrefix: string, assets: seq<AssetFile>, asset: AssetFile)
    ensures RewriteStaticRefs(olx, urlPrefix, assets + [asset])
      == Replace(RewriteStaticRefs(olx, urlPrefix, assets), "/static/" + asset.name, urlPrefix + asset.name)
  {
    assert (assets + [asset])[..|assets|] == assets;
  }

  /**
   * Rewriting for one more asset replaces its leftmost `/static/<name>` reference in
   * the OLX rewritten so far by the asset's bucket URL, keeps the text before it, and
   * goes on replacing after it.
   */
  lemma RewriteAppendLeftmost(olx: string, urlPrefix: string, assets: seq<AssetFile>, asset: AssetFile, k: nat)
    requires OccursAt(RewriteStaticRefs(olx, urlPrefix, assets), k, "/static/" + asset.name)
    requires forall i: nat :: i < k ==> !OccursAt(RewriteStaticRefs(olx, urlPrefix, assets), i, "/static/" + asset.name)
    ensures var text := RewriteStaticRefs(olx, urlPrefix, assets);
      RewriteStaticRefs(olx, urlPrefix, assets + [asset])
        == text[..k] + (urlPrefix + asset.name) + Replace(text[k + |"/static/" + asset.name|..], "/static/" + asset.name, urlPrefix + asset.name)
  {
    RewriteAppend(olx, urlPrefix, assets, asset);
    ReplaceLeftmost(RewriteStaticRefs(olx, urlPrefix, assets), "/static/" + asset.name, urlPrefix + asset.name, k);
  }

  /** When the OLX so far still refers to `/static/<name>`, the rewritten OLX links to the asset's bucket URL. */
  lemma RewritePointsAtBucket(olx: string, urlPrefix: string, assets: seq<AssetFile>, asset: AssetFile)
    requires Contains(RewriteStaticRefs(olx, urlPrefix, assets), "/static/" + asset.name)
    ensures Contains(RewriteStaticRefs(olx, urlPrefix, assets + [asset]), urlPrefix + asset.name)
  {
    RewriteAppend(olx, urlPrefix, assets, asset);
    ReplaceIntroducesRep(RewriteStaticRefs(olx, urlPrefix, assets), "/static/" + asset.name, urlPrefix + asset.name);
  }

  lemma WriteAllAppend(files: map<string, string>, dir: string, root: BlockKey, urlPrefix: string,
                       blocks: seq<SerializedBlock>, data: SerializedBlock)
    ensures WriteAll(files, dir, root, urlPrefix, blocks + [data])
      == WriteAll(files, dir, root, urlPrefix, blocks)[dir + OlxFileName(data, root) := OutputText(data, urlPrefix)]
  {
    assert (blocks + [data])[..|blocks|] == blocks;
  }

  /**
   * The body of the output loop for one block: each asset in turn is uploaded unless
   * its path is already in the bucket and its `/static/<name>` references are pointed
   * at the bucket URL; the result is written to the block's file.
   */
  method ExportBlock(data: SerializedBlock, dir: string, root: BlockKey, pathPrefix: string, urlPrefix: string,
                     bucket: Bucket, disk: Disk)
    modifies bucket, disk
    ensures bucket.objects == UploadAll(old(bucket.objects), pathPrefix, data.staticFiles)
    ensures bucket.puts == old(bucket.puts) + NewPuts(old(bucket.objects), pathPrefix, data.staticFiles)
    ensures disk.files == old(disk.files)[dir + OlxFileName(data, root) := OutputText(data, urlPrefix)]
    ensures disk.dirs == old(disk.dirs)
  {
    ghost var objects0 := bucket.objects;
    var olx := data.olx;
    for j := 0 to |data.staticFiles|
      invariant bucket.objects == UploadAll(objects0, pathPrefix, data.staticFiles[..j])
      invariant bucket.puts == old(bucket.puts) + NewPuts(objects0, pathPrefix, data.staticFiles[..j])
      invariant olx == RewriteStaticRefs(data.olx, urlPrefix, data.staticFiles[..j])
      invariant disk.files == old(disk.files) && disk.dirs == old(disk.dirs)
    {
      var asset := data.staticFiles[j];
      UploadStep(objects0, pathPrefix, data.staticFiles, j);
      RewriteStep(data.olx, urlPrefix, data.staticFiles, j);
      var destPath := pathPrefix + asset.name;
      if !bucket.HasObject(destPath) {
        bucket.PutObject(destPath, asset.data);
      }
      var destUrl := urlPrefix + asset.name;
      olx := Replace(olx, "/static/" + asset.name, destUrl);
    }
    assert data.staticFiles[..|data.staticFiles|] == data.staticFiles;
    var olxPath := dir + OlxFileName(data, root);
    disk.WriteFile(olxPath, olx);
  }

  /**
   * Step 1 of `export_data`: run `serialize_block` from the root into a fresh dict and
   * list its values in insertion order; `None` when `get_block` fails on the way.
   */
  method SerializeTree(store: Store, root: BlockKey) returns (blocks: Option<seq<SerializedBlock>>)
    ensures blocks.Some? <==> Visit(store, root, []).Some?
    ensures blocks.Some? ==>
      (forall k :: k in Visit(store, root, []).value ==> k in store)
      && blocks.value == ManifestBlocks(store, Visit(store, root, []).value)
  {
    var manifest := new Manifest();
    var ok := manifest.SerializeBlock(store, root);
    if !ok {
      return None;
    }
    WalkInStore(store, root);
    var values := manifest.Values();
    assert values == ManifestBlocks(store, manifest.order);
    return Some(values);
  }

  /** What an export can change: the bucket's objects and put log, and the local directories and files. */
  datatype Outputs = Outputs(objects: map<string, seq<bv8>>, puts: seq<string>, dirs: set<string>, files: map<string, string>)

  function Snapshot(bucket: Bucket, disk: Disk): Outputs
    reads bucket, disk
  {
    Outputs(bucket.objects, bucket.puts, disk.dirs, disk.files)
  }

  /** The output stage over the serialised blocks, in order: uploads, the output directory, the OLX files. */
  function WriteOutputs(before: Outputs, root: BlockKey, outDir: string, cfg: Config, blocks: seq<SerializedBlock>): Outputs
  {
    var prefix := S3PathPrefix(cfg, root);
    var dir := OutputDir(outDir, root);
    Outputs(
      UploadBlocks(before.objects, prefix, blocks),
      before.puts + PutsBlocks(before.objects, prefix, blocks),
      before.dirs + {dir},
      WriteAll(before.files, dir, root, S3UrlPrefix(cfg, root), blocks))
  }

  /**
   * The effect of `export_data(root, out_dir)` on `before`: `None` when `get_block`
   * fails during the walk (nothing has been uploaded or written by then).
   */
  function ExportOutcome(store: Store, root: BlockKey, outDir: string, cfg: Config, before: Outputs): Option<Outputs>
  {
    match Visit(store, root, [])
    case None => None
    case Some(order) =>
      WalkInStore(store, root);
      Some(WriteOutputs(before, root, outDir, cfg, ManifestBlocks(store, order)))
  }

  lemma AllAssetsMember(blocks: seq<SerializedBlock>, i: nat, a: AssetFile)
    requires i < |blocks| && a in blocks[i].staticFiles
    ensures a in AllAssets(blocks)
    decreases |blocks|
  {
    var init := blocks[..|blocks| - 1];
    if i < |blocks| - 1 {
      assert init[i] == blocks[i];
      AllAssetsMember(init, i, a);
    }
  }

  /**
   * What one successful export guarantees: the export succeeds exactly when every
   * block reachable from the root is in the store; afterwards every static file of
   * every reachable block is in the bucket under the block's path prefix, objects
   * that were there keep their content, each put was for a path the bucket lacked
   * and no path was put twice; the output directory exists and the root's OLX is in
   * its `definition-1.xml` unless another block's definition id also maps to that name.
   */
  lemma ExportGuarantees(store: Store, root: BlockKey, outDir: string, cfg: Config, before: Outputs)
    ensures ExportOutcome(store, root, outDir, cfg, before).Some? <==> forall k :: Reaches(store, root, k) ==> k in store
    ensures ExportOutcome(store, root, outDir, cfg, before).Some? ==>
      var after := ExportOutcome(store, root, outDir, cfg, before).value;
      && (forall k, a :: Reaches(store, root, k) && a in store[k].serialization.staticFiles ==>
            S3PathPrefix(cfg, root) + a.name in after.objects)
      && (forall p :: p in before.objects ==> p in after.objects && after.objects[p] == before.objects[p])
      && (forall p :: p in after.puts[|before.puts|..] <==> p in after.objects && p !in before.objects)
      && (forall i, j :: |before.puts| <= i < j < |after.puts| ==> after.puts[i] != after.puts[j])
      && OutputDir(outDir, root) in after.dirs
  {
    WalkSucceedsIff(store, root);
    var r := ExportOutcome(store, root, outDir, cfg, before);
    if r.Some? {
      var order := Visit(store, root, []).value;
      WalkCoversReachable(store, root);
      var blocks := ManifestBlocks(store, order);
      var prefix := S3PathPrefix(cfg, root);
      var assets := AllAssets(blocks);
      UploadBlocksFlat(before.objects, prefix, blocks);
      UploadAllKeys(before.objects, prefix, assets);
      UploadAllKeeps(before.objects, prefix, assets);
      NewPutsOnce(before.objects, prefix, assets);
      var after := r.value;
      assert after.puts[|before.puts|..] == NewPuts(before.objects, prefix, assets);
      forall k, a | Reaches(store, root, k) && a in store[k].serialization.staticFiles
        ensures prefix + a.name in after.objects
      {
        var i :| 0 <= i < |order| && order[i] == k;
        assert blocks[i] == Serialize(k, store[k]);
        AllAssetsMember(blocks, i, a);
        assert AssetPath(prefix, a) in (set x | x in assets :: AssetPath(prefix, x));
      }
    }
  }

  lemma OtherFileName(data: SerializedBlock, root: BlockKey)
    requires data.origKey != root && Replace(data.defId, "/", "-") != "1"
    ensures OlxFileName(data, root) != "definition-1.xml"
  {
    var mid := Replace(data.defId, "/", "-");
    var name := "definition-" + mid + ".xml";
    if |mid| == 1 {
      assert name[11] == mid[0] && "definition-1.xml"[11] == '1';
      assert mid == [mid[0]];
    } else {
      assert |name| != |"definition-1.xml"|;
    }
  }

  /** The root block's OLX lands in `definition-1.xml` unless another block's file has that name too. */
  lemma ExportWritesRootFile(store: Store, root: BlockKey, outDir: string, cfg: Config, before: Outputs)
    requires Visit(store, root, []).Some?
    requires forall k :: k in Visit(store, root, []).value && k != root ==>
      k in store && Replace(store[k].serialization.defId, "/", "-") != "1"
    ensures root in store
    ensures var after := ExportOutcome(store, root, outDir, cfg, before).value;
      var path := OutputDir(outDir, root) + "definition-1.xml";
      path in after.files
      && after.files[path] == RewriteStaticRefs(store[root].serialization.olx, S3UrlPrefix(cfg, root), store[root].serialization.staticFiles)
  {
    var order := Visit(store, root, []).value;
    WalkCoversReachable(store, root);
    WalkOrder(store, root);
    var blocks := ManifestBlocks(store, order);
    assert blocks[0] == Serialize(root, store[root]);
    forall j | 0 < j < |blocks| ensures OlxFileName(blocks[j], root) != OlxFileName(blocks[0], root) {
      var k := order[j];
      assert k != root;
      assert blocks[j] == Serialize(k, store[k]);
      OtherFileName(blocks[j], root);
    }
    WriteAllFileOf(before.files, OutputDir(outDir, root), root, S3UrlPrefix(cfg, root), blocks, 0);
  }

  /** One turn of the output loop: the state after the first `i` blocks becomes the state after `i + 1`. */
  method ExportNextBlock(blocks: seq<SerializedBlock>, i: nat, dir: string, root: BlockKey, pathPrefix: string,
                         urlPrefix: string, ghost objects0: map<string, seq<bv8>>, ghost puts0: seq<string>,
                         ghost files0: map<string, string>, bucket: Bucket, disk: Disk)
    requires i < |blocks|
    requires bucket.objects == UploadBlocks(objects0, pathPrefix, blocks[..i])
    requires bucket.puts == puts0 + PutsBlocks(objects0, pathPrefix, blocks[..i])
    requires disk.files == WriteAll(files0, dir, root, urlPrefix, blocks[..i])
    modifies bucket, disk
    ensures bucket.objects == UploadBlocks(objects0, pathPrefix, blocks[..i + 1])
    ensures bucket.puts == puts0 + PutsBlocks(objects0, pathPrefix, blocks[..i + 1])
    ensures disk.files == WriteAll(files0, dir, root, urlPrefix, blocks[..i + 1])
    ensures disk.dirs == old(disk.dirs)
  {
    var data := blocks[i];
    TakeOneMore(blocks, i);
    BlocksAppend(objects0, pathPrefix, blocks[..i], data);
    WriteAllAppend(files0, dir, root, urlPrefix, blocks[..i], data);
    ExportBlock(data, dir, root, pathPrefix, urlPrefix, bucket, disk);
  }

  /** The `for block_data in serialized_blocks.values()` loop: export each block in order. */
  method ExportEachBlock(blocks: seq<SerializedBlock>, dir: string, root: BlockKey, pathPrefix: string, urlPrefix: string,
                         bucket: Bucket, disk: Disk)
    modifies bucket, disk
    ensures bucket.objects == UploadBlocks(old(bucket.objects), pathPrefix, blocks)
    ensures bucket.puts == old(bucket.puts) + PutsBlocks(old(bucket.objects), pathPrefix, blocks)
    ensures disk.files == WriteAll(old(disk.files), dir, root, urlPrefix, blocks)
    ensures disk.dirs == old(disk.dirs)
  {
    ghost var objects0 := bucket.objects;
    ghost var puts0 := bucket.puts;
    ghost var files0 := disk.files;
    assert blocks[..0] == [];
    for i := 0 to |blocks|
      invariant bucket.objects == UploadBlocks(objects0, pathPrefix, blocks[..i])
      invariant bucket.puts == puts0 + PutsBlocks(objects0, pathPrefix, blocks[..i])
      invariant disk.files == WriteAll(files0, dir, root, urlPrefix, blocks[..i])
      invariant disk.dirs == old(disk.dirs)
    {
      ExportNextBlock(blocks, i, dir, root, pathPrefix, urlPrefix, objects0, puts0, files0, bucket, disk);
    }
    assert blocks[..|blocks|] == blocks;
  }

  /**
   * The output stage of `export_data` for the serialised `blocks`: create the output
   * directory when it is missing, then export each block in order.
   */
  method WriteBlocks(blocks: seq<SerializedBlock>, root: BlockKey, outDir: string, cfg: Config, bucket: Bucket, disk: Disk)
    modifies bucket, disk
    ensures Snapshot(bucket, disk) == WriteOutputs(old(Snapshot(bucket, disk)), root, outDir, cfg, blocks)
  {
    var dir := OutputDir(outDir, root);
    if dir !in disk.dirs {
      disk.Mkdir(dir);
    }
    assert disk.dirs == old(disk.dirs) + {dir};
    ExportEachBlock(blocks, dir, root, S3PathPrefix(cfg, root), S3UrlPrefix(cfg, root), bucket, disk);
  }

  /**
   * `export_data(root_block_key, out_dir)`: the bucket and disk end as `ExportOutcome`
   * says, and are untouched when the walk fails.
   */
  method ExportData(store: Store, root: BlockKey, outDir: string, cfg: Config, bucket: Bucket, disk: Disk)
    returns (exported: bool)
    modifies bucket, disk
    ensures var r := ExportOutcome(store, root, outDir, cfg, old(Snapshot(bucket, disk)));
      && (exported <==> r.Some?)
      && Snapshot(bucket, disk) == if r.Some? then r.value else old(Snapshot(bucket, disk))
  {
    var serialized := SerializeTree(store, root);
    if serialized.None? {
      return false;
    }
    exported := true;
    WriteBlocks(serialized.value, root, outDir, cfg, bucket, disk);
  }
}
