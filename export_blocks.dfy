/**
 * The `export_blocks` management command: read the id file, keep the first word of
 * every line that is neither blank nor a `#` comment, and export each of those
 * usage keys in turn into the same output directory. Any exception (a key that
 * does not parse, a block that cannot be fetched) ends the run; exports that
 * already finished stay in place.
 */
module ExportBlocks {
  import opened Wrappers
  import opened BlockTree
  import opened IdLists
  import opened Export

  /** One call of `export_data` with this store, output directory and settings. */
  function ExportStep(store: Store, outDir: string, cfg: Config): (BlockKey, Outputs) -> Option<Outputs>
  {
    (key: BlockKey, before: Outputs) => ExportOutcome(store, key, outDir, cfg, before)
  }

  /**
   * The state after exporting `ids` in order from `before` with `step`, and how
   * many exports completed before the first failure (or all of them).
   */
  function ExportAll(ids: seq<string>, parseKey: string -> Option<BlockKey>, step: (BlockKey, Outputs) -> Option<Outputs>,
                     before: Outputs): (r: (Outputs, nat))
    ensures r.1 <= |ids|
  {
    if ids == [] then (before, 0)
    else
      match parseKey(ids[0])
      case None => (before, 0)
      case Some(key) =>
        match step(key, before)
        case None => (before, 0)
        case Some(after) =>
          var rest := ExportAll(ids[1..], parseKey, step, after);
          (rest.0, rest.1 + 1)
  }

  /**
   * The run exports the ids strictly in file order: the first `done` ids parsed and
   * their exports succeeded one after the other, the run's final state is the state
   * after those `done` exports, and when the run stops early the next id failed to
   * parse or its export failed from that state.
   */
  lemma {:induction false} ExportAllStopsAtFirstFailure(ids: seq<string>, parseKey: string -> Option<BlockKey>,
                                                        step: (BlockKey, Outputs) -> Option<Outputs>, before: Outputs)
    ensures var done := ExportAll(ids, parseKey, step, before).1;
      && (forall j :: 0 <= j < done ==>
            (parseKey(ids[j]).Some? && step(parseKey(ids[j]).value, ExportAll(ids[..j], parseKey, step, before).0).Some?))
      && ExportAll(ids[..done], parseKey, step, before) == (ExportAll(ids, parseKey, step, before).0, done)
      && (done < |ids| ==> parseKey(ids[done]).None?
                           || step(parseKey(ids[done]).value, ExportAll(ids, parseKey, step, before).0).None?)
    decreases |ids|
  {
    if ids != [] {
      var key := parseKey(ids[0]);
      if key.Some? && step(key.value, before).Some? {
        var after := step(key.value, before).value;
        ExportAllStopsAtFirstFailure(ids[1..], parseKey, step, after);
        var done := ExportAll(ids, parseKey, step, before).1;
        forall j | 0 <= j < done
          ensures parseKey(ids[j]).Some? && step(parseKey(ids[j]).value, ExportAll(ids[..j], parseKey, step, before).0).Some?
        {
          if j == 0 {
            assert ids[..0] == [];
          } else {
            assert ids[j] == ids[1..][j - 1];
            assert ids[..j][0] == ids[0] && ids[..j][1..] == ids[1..][..j - 1];
          }
        }
        assert ids[..done][0] == ids[0] && ids[..done][1..] == ids[1..][..done - 1];
        if done < |ids| {
          assert ids[done] == ids[1..][done - 1];
        }
      } else {
        assert ids[..0] == [];
      }
    }
  }

  /**
   * With `export_data` as the step, an export fails exactly when its walk reaches a
   * block the store lacks; so a run that stops early stops at an id that does not
   * parse or whose tree is incomplete, and every id before it had a complete tree.
   */
  lemma ExportRunStopsAtIncompleteTree(ids: seq<string>, parseKey: string -> Option<BlockKey>, store: Store,
                                       outDir: string, cfg: Config, before: Outputs)
    ensures var done := ExportAll(ids, parseKey, ExportStep(store, outDir, cfg), before).1;
      && (forall j, k :: 0 <= j < done && parseKey(ids[j]).Some? && Reaches(store, parseKey(ids[j]).value, k) ==> k in store)
      && (done < |ids| ==> parseKey(ids[done]).None? || exists k :: Reaches(store, parseKey(ids[done]).value, k) && k !in store)
  {
    var step := ExportStep(store, outDir, cfg);
    ExportAllStopsAtFirstFailure(ids, parseKey, step, before);
    var done := ExportAll(ids, parseKey, step, before).1;
    forall j, k | 0 <= j < done && parseKey(ids[j]).Some? && Reaches(store, parseKey(ids[j]).value, k) ensures k in store {
      ExportGuarantees(store, parseKey(ids[j]).value, outDir, cfg, ExportAll(ids[..j], parseKey, step, before).0);
    }
    if done < |ids| && parseKey(ids[done]).Some? {
      var key := parseKey(ids[done]).value;
      ExportGuarantees(store, key, outDir, cfg, ExportAll(ids, parseKey, step, before).0);
    }
  }

  lemma ExportAllStops(ids: seq<string>, parseKey: string -> Option<BlockKey>, step: (BlockKey, Outputs) -> Option<Outputs>,
                       before: Outputs)
    requires ids != []
    requires parseKey(ids[0]).None? || step(parseKey(ids[0]).value, before).None?
    ensures ExportAll(ids, parseKey, step, before) == (before, 0)
  {
  }

  lemma ExportAllNext(ids: seq<string>, rest: seq<string>, parseKey: string -> Option<BlockKey>,
                      step: (BlockKey, Outputs) -> Option<Outputs>, before: Outputs, after: Outputs)
    requires ids != [] && rest == ids[1..]
    requires parseKey(ids[0]).Some? && step(parseKey(ids[0]).value, before) == Some(after)
    ensures ExportAll(ids, parseKey, step, before).0 == ExportAll(rest, parseKey, step, after).0
    ensures ExportAll(ids, parseKey, step, before).1 == ExportAll(rest, parseKey, step, after).1 + 1
  {
  }

  /**
   * One turn of the command's loop: parse the next id and export its tree. On success
   * the run goes on with the next id from the new state; otherwise the run ends here
   * and nothing changed.
   */
  method ExportNextId(ids: seq<string>, done: nat, parseKey: string -> Option<BlockKey>, store: Store, outDir: string,
                      cfg: Config, bucket: Bucket, disk: Disk)
    returns (ok: bool)
    requires done < |ids|
    modifies bucket, disk
    ensures var step := ExportStep(store, outDir, cfg);
      if ok then
        && ExportAll(ids[done..], parseKey, step, old(Snapshot(bucket, disk))).0
           == ExportAll(ids[done + 1..], parseKey, step, Snapshot(bucket, disk)).0
        && ExportAll(ids[done..], parseKey, step, old(Snapshot(bucket, disk))).1
           == ExportAll(ids[done + 1..], parseKey, step, Snapshot(bucket, disk)).1 + 1
      else
        Snapshot(bucket, disk) == old(Snapshot(bucket, disk))
        && ExportAll(ids[done..], parseKey, step, Snapshot(bucket, disk)) == (Snapshot(bucket, disk), 0)
  {
    ghost var step := ExportStep(store, outDir, cfg);
    ghost var before := Snapshot(bucket, disk);
    assert ids[done..][0] == ids[done];
    var key := parseKey(ids[done]);
    if key.None? {
      ExportAllStops(ids[done..], parseKey, step, before);
      return false;
    }
    ok := ExportData(store, key.value, outDir, cfg, bucket, disk);
    assert step(key.value, before) == ExportOutcome(store, key.value, outDir, cfg, before);
    if !ok {
      ExportAllStops(ids[done..], parseKey, step, before);
      return;
    }
    ExportAllNext(ids[done..], ids[done + 1..], parseKey, step, before, Snapshot(bucket, disk));
  }

  /**
   * `Command.handle`: parse the id list from the file's lines, then call
   * `export_data` for each key in order, stopping at the first failure.
   */
  method ExportBlocks(lines: seq<string>, parseKey: string -> Option<BlockKey>, store: Store, outDir: string, cfg: Config,
                      bucket: Bucket, disk: Disk)
    returns (done: nat)
    modifies bucket, disk
    ensures var r := ExportAll(ExportIds(lines), parseKey, ExportStep(store, outDir, cfg), old(Snapshot(bucket, disk)));
      Snapshot(bucket, disk) == r.0 && done == r.1
  {
    var ids := ExportIds(lines);
    ghost var step := ExportStep(store, outDir, cfg);
    ghost var start := Snapshot(bucket, disk);
    done := 0;
    assert ids[done..] == ids;
    while done < |ids|
      invariant done <= |ids|
      invariant ExportAll(ids, parseKey, step, start).0 == ExportAll(ids[done..], parseKey, step, Snapshot(bucket, disk)).0
      invariant ExportAll(ids, parseKey, step, start).1 == ExportAll(ids[done..], parseKey, step, Snapshot(bucket, disk)).1 + done
    {
      var ok := ExportNextId(ids, done, parseKey, store, outDir, cfg, bucket, disk);
      if !ok {
        return;
      }
      done := done + 1;
    }
  }
}
