/**
 * The `push_olx` management command: read the pairs (old modulestore key, new
 * Blockstore key) from the id file and, pair by pair, give the new library block
 * the OLX that `OlxConvert.Convert` decides, through `set_block_olx`, which writes
 * and commits only when the stripped texts differ. The first exception ends the
 * run; pairs already pushed stay pushed.
 */
module PushOlx {
  import opened Wrappers
  import opened Strings
  import opened BlockTree
  import opened IdLists
  import opened OlxConvert

  /**
   * What a run works from besides the library: the key parser (`UsageKey.from_string`),
   * the OLX directory, the files under it, the XML root parser and the element
   * serializer (`etree.tostring`).
   */
  datatype Env = Env(parseKey: string -> Option<BlockKey>, olxDir: string, files: map<string, string>,
                     parseRoot: string -> Option<map<string, string>>,
                     render: (string, seq<(string, string)>) -> string)

  /**
   * The Studio library as the command sees it: each block's OLX, the blocks whose
   * OLX read fails with an HTTP error, and the log of OLX writes and commits.
   */
  datatype LibState = LibState(olx: map<BlockKey, string>, failing: set<BlockKey>,
                               writes: seq<(BlockKey, string)>, commits: seq<string>)

  /** `get_library_block_olx`: the block's OLX, or `None` where the read raises an HTTP error. */
  function ReadOlx(s: LibState, key: BlockKey): Option<string>
  {
    if key in s.olx && key !in s.failing then Some(s.olx[key]) else None
  }

  /** The text `set_block_olx` compares against when the OLX read raised an HTTP error. */
  const Unknown: string := "unknown"

  /** `existing_olx` after the `try`: the OLX read, or the placeholder. */
  function ExistingOlx(existing: Option<string>): string
  {
    match existing
    case Some(e) => e
    case None => Unknown
  }

  /**
   * The test of `set_block_olx`, with the placeholder's `strip()` already done (it
   * has no surrounding whitespace).
   */
  predicate Differs(existing: Option<string>, text: string)
  {
    match existing
    case Some(e) => Strip(e) != Strip(text)
    case None => Strip(text) != Unknown
  }

  lemma StripUnknown()
    ensures Strip(Unknown) == Unknown
  {
    assert !IsSpace('u') && !IsSpace('n');
    StripUntrimmed(Unknown);
  }

  /** `Differs` is the command's `existing_olx.strip() != new_olx.strip()`. */
  lemma DiffersIsStrippedCompare(existing: Option<string>, text: string)
    ensures Differs(existing, text) <==> Strip(ExistingOlx(existing)) != Strip(text)
  {
    if existing.None? {
      StripUnknown();
    }
  }

  /** The text `set_block_olx` sends: a string as it is, an element serialized. */
  function OlxText(o: NewOlx, render: (string, seq<(string, string)>) -> string): string
  {
    match o
    case Text(t) => t
    case Element(tag, attrs) => render(tag, attrs)
  }

  /**
   * The library after `set_block_olx(key, text)`: when the existing OLX differs from
   * the new text, the text is written and the block's library committed; otherwise
   * nothing happens.
   */
  function SetOlx(s: LibState, key: BlockKey, text: string): (r: LibState)
    ensures r.failing == s.failing
    ensures s.writes <= r.writes && s.commits <= r.commits
  {
    if Differs(ReadOlx(s, key), text) then
      LibState(s.olx[key := text], s.failing, s.writes + [(key, text)], s.commits + [key.context])
    else s
  }

  /**
   * A write happens exactly when the stripped texts differ; each write is followed by
   * one commit of the written block's library, and no commit happens without a write.
   */
  lemma SetOlxWritesIff(s: LibState, key: BlockKey, text: string)
    ensures var r := SetOlx(s, key, text);
      && (r.writes != s.writes <==> Strip(ExistingOlx(ReadOlx(s, key))) != Strip(text))
      && (r.commits != s.commits <==> r.writes != s.writes)
      && (r.writes != s.writes ==> r.writes[|s.writes|..] == [(key, text)] && r.commits[|s.commits|..] == [key.context])
      && (r.writes == s.writes ==> r == s)
  {
    var r := SetOlx(s, key, text);
    DiffersIsStrippedCompare(ReadOlx(s, key), text);
    if Differs(ReadOlx(s, key), text) {
      assert |r.writes| == |s.writes| + 1;
      assert |r.commits| == |s.commits| + 1;
    }
  }

  /** Only the target block changes: every other block reads back as before. */
  lemma SetOlxOnlyTouchesKey(s: LibState, key: BlockKey, text: string, other: BlockKey)
    requires other != key
    ensures ReadOlx(SetOlx(s, key, text), other) == ReadOlx(s, other)
  {
  }

  /**
   * Unless its read fails, the block afterwards compares equal to the new text: it
   * holds that text up to surrounding whitespace (or, for a block that does not
   * exist, the text strips to `"unknown"` and nothing was written).
   */
  lemma SetOlxMakesCurrent(s: LibState, key: BlockKey, text: string)
    requires key !in s.failing
    ensures !Differs(ReadOlx(SetOlx(s, key, text), key), text)
  {
  }

  /** Pushing the same text twice writes once: the second call changes nothing, unless the read fails. */
  lemma SetOlxAgain(s: LibState, key: BlockKey, text: string)
    requires key !in s.failing
    ensures SetOlx(SetOlx(s, key, text), key, text) == SetOlx(s, key, text)
  {
    SetOlxMakesCurrent(s, key, text);
  }

  /**
   * Where the read fails, the comparison is against the placeholder: every push of
   * any text other than `"unknown"` (up to surrounding whitespace) writes and commits again.
   */
  lemma SetOlxFailingReadAlwaysWrites(s: LibState, key: BlockKey, text: string)
    requires key in s.failing && Strip(text) != Unknown
    ensures SetOlx(s, key, text).writes == s.writes + [(key, text)]
    ensures SetOlx(SetOlx(s, key, text), key, text).writes == s.writes + [(key, text), (key, text)]
  {
    var s1 := SetOlx(s, key, text);
    assert ReadOlx(s1, key) == ReadOlx(s, key) == None;
  }

  /** The Studio library the command talks to, updated in place by `set_block_olx`. */
  class Library {
    var olx: map<BlockKey, string>
    var failing: set<BlockKey>
    var writes: seq<(BlockKey, string)>
    var commits: seq<string>

    function State(): LibState
      reads this
    {
      LibState(olx, failing, writes, commits)
    }

    constructor(olx0: map<BlockKey, string>, failing0: set<BlockKey>)
      ensures State() == LibState(olx0, failing0, [], [])
    {
      olx := olx0;
      failing := failing0;
      writes := [];
      commits := [];
    }

    /** `set_block_olx`: serialize an element, read the existing OLX, write and commit when they differ. */
    method SetBlockOlx(key: BlockKey, newOlx: NewOlx, render: (string, seq<(string, string)>) -> string)
      modifies this
      ensures State() == SetOlx(old(State()), key, OlxText(newOlx, render))
    {
      var text := OlxText(newOlx, render);
      var existing := ReadOlx(State(), key);
      if Differs(existing, text) {
        olx := olx[key := text];
        writes := writes + [(key, text)];
        commits := commits + [key.context];
      }
    }
  }

  /**
   * One pair of the loop up to `set_block_olx`: unpack the row, parse the old and the
   * new key, decide the new OLX; the block to write and its OLX, or the exception.
   */
  function PushRow(row: seq<string>, env: Env): (r: Result<(BlockKey, NewOlx), PushError>)
    ensures r.Ok? ==> |row| == 2 && env.parseKey(row[1]) == Some(r.value.0)
  {
    match Unpack(row)
    case None => Err(BadRow(row))
    case Some(pair) =>
      match env.parseKey(pair.0)
      case None => Err(BadKey(pair.0))
      case Some(oldKey) =>
        match env.parseKey(pair.1)
        case None => Err(BadKey(pair.1))
        case Some(newKey) =>
          match Convert(oldKey, newKey, env.olxDir, env.files, env.parseRoot)
          case Err(e) => Err(e)
          case Ok(o) => Ok((newKey, o))
  }

  /**
   * The failure points of one pair, in the order the command meets them: a row that is
   * not exactly two words, then the old key, then the new key, then the conversion.
   */
  lemma PushRowOrder(row: seq<string>, env: Env)
    ensures |row| != 2 ==> PushRow(row, env) == Err(BadRow(row))
    ensures |row| == 2 && env.parseKey(row[0]).None? ==> PushRow(row, env) == Err(BadKey(row[0]))
    ensures |row| == 2 && env.parseKey(row[0]).Some? && env.parseKey(row[1]).None? ==>
      PushRow(row, env) == Err(BadKey(row[1]))
    ensures |row| == 2 && env.parseKey(row[0]).Some? && env.parseKey(row[1]).Some? ==>
      var c := Convert(env.parseKey(row[0]).value, env.parseKey(row[1]).value, env.olxDir, env.files, env.parseRoot);
      && (c.Err? ==> PushRow(row, env) == Err(c.error))
      && (c.Ok? ==> PushRow(row, env) == Ok((env.parseKey(row[1]).value, c.value)))
  {
  }

  /** A row's effect as the loop sees it: the block and the text sent to it, or the exception. */
  type Step = seq<string> -> Result<(BlockKey, string), PushError>

  /** The command's step: `PushRow` with the element serialized. */
  function PushStep(env: Env): Step
  {
    (row: seq<string>) =>
      match PushRow(row, env)
      case Err(e) => Err(e)
      case Ok(p) => Ok((p.0, OlxText(p.1, env.render)))
  }

  /** How many pairs the loop pushes before the first exception (all of them when there is none). */
  function Pushed(rows: seq<seq<string>>, step: Step): (n: nat)
    ensures n <= |rows|
  {
    if rows == [] || step(rows[0]).Err? then 0 else Pushed(rows[1..], step) + 1
  }

  /** The exception that ends the loop, if any. */
  function FirstError(rows: seq<seq<string>>, step: Step): Option<PushError>
  {
    if rows == [] then None
    else
      match step(rows[0])
      case Err(e) => Some(e)
      case Ok(_) => FirstError(rows[1..], step)
  }

  /** The library after the loop from `s`: `set_block_olx` for each pair up to the first exception. */
  function PushState(rows: seq<seq<string>>, step: Step, s: LibState): (r: LibState)
    ensures r.failing == s.failing
    ensures s.writes <= r.writes && s.commits <= r.commits
  {
    if rows == [] || step(rows[0]).Err? then s
    else PushState(rows[1..], step, SetOlx(s, step(rows[0]).value.0, step(rows[0]).value.1))
  }

  /** The outcome of a run: the library afterwards, how many pairs were pushed, and the exception that ended it. */
  datatype Run = Run(state: LibState, done: nat, error: Option<PushError>)

  /** The loop over the pairs from `s`, stopping at the first exception. */
  function PushAll(rows: seq<seq<string>>, step: Step, s: LibState): Run
  {
    Run(PushState(rows, step, s), Pushed(rows, step), FirstError(rows, step))
  }

  /**
   * The pairs are pushed strictly in file order: the first `Pushed` rows all succeed,
   * the run ends with an exception exactly when it stops short of the end, and that
   * exception is the one of the row after the last pushed.
   */
  lemma {:induction false} PushedThenFirstError(rows: seq<seq<string>>, step: Step)
    ensures forall j :: 0 <= j < Pushed(rows, step) ==> step(rows[j]).Ok?
    ensures FirstError(rows, step).None? <==> Pushed(rows, step) == |rows|
    ensures FirstError(rows, step).Some? ==> step(rows[Pushed(rows, step)]) == Err(FirstError(rows, step).value)
    decreases |rows|
  {
    if rows != [] && step(rows[0]).Ok? {
      PushedThenFirstError(rows[1..], step);
      var n := Pushed(rows, step);
      forall j | 0 < j < n ensures step(rows[j]).Ok? {
        assert rows[j] == rows[1..][j - 1];
      }
      if n < |rows| {
        assert rows[n] == rows[1..][n - 1];
      }
    }
  }

  /** `block` is the new key of none of the rows. */
  predicate NotTargeted(rows: seq<seq<string>>, step: Step, block: BlockKey)
  {
    forall j :: 0 <= j < |rows| && step(rows[j]).Ok? ==> step(rows[j]).value.0 != block
  }

  lemma NotTargetedTail(rows: seq<seq<string>>, step: Step, block: BlockKey)
    requires rows != [] && NotTargeted(rows, step, block)
    ensures NotTargeted(rows[1..], step, block)
  {
    forall j | 0 <= j < |rows[1..]| && step(rows[1..][j]).Ok? ensures step(rows[1..][j]).value.0 != block {
      assert rows[1..][j] == rows[j + 1];
    }
  }

  /** A block that is the new key of no row reads back after the run exactly as before it. */
  lemma {:induction false} PushAllFrame(rows: seq<seq<string>>, step: Step, s: LibState, block: BlockKey)
    requires NotTargeted(rows, step, block)
    ensures ReadOlx(PushState(rows, step, s), block) == ReadOlx(s, block)
    decreases |rows|
  {
    if rows != [] && step(rows[0]).Ok? {
      var p := step(rows[0]).value;
      SetOlxOnlyTouchesKey(s, p.0, p.1, block);
      NotTargetedTail(rows, step, block);
      PushAllFrame(rows[1..], step, SetOlx(s, p.0, p.1), block);
    }
  }

  /** No two rows push to the same new block. */
  predicate DistinctTargets(rows: seq<seq<string>>, step: Step)
  {
    forall i, j :: 0 <= i < j < |rows| && step(rows[i]).Ok? && step(rows[j]).Ok? ==>
      step(rows[i]).value.0 != step(rows[j]).value.0
  }

  /** No row pushes to a block whose OLX read fails. */
  predicate ReadableTargets(rows: seq<seq<string>>, step: Step, s: LibState)
  {
    forall j :: 0 <= j < |rows| && step(rows[j]).Ok? ==> step(rows[j]).value.0 !in s.failing
  }

  /** Every row's block already holds that row's OLX, up to surrounding whitespace. */
  predicate Current(rows: seq<seq<string>>, step: Step, s: LibState)
  {
    forall j :: 0 <= j < |rows| && step(rows[j]).Ok? ==>
      !Differs(ReadOlx(s, step(rows[j]).value.0), step(rows[j]).value.1)
  }

  lemma TargetsTail(rows: seq<seq<string>>, step: Step, s: LibState)
    requires rows != []
    ensures DistinctTargets(rows, step) ==> DistinctTargets(rows[1..], step)
    ensures ReadableTargets(rows, step, s) ==> ReadableTargets(rows[1..], step, s)
    ensures Current(rows, step, s) ==> Current(rows[1..], step, s)
  {
    forall j | 0 <= j < |rows[1..]| ensures rows[1..][j] == rows[j + 1] {
    }
  }

  lemma DistinctHeadNotTargeted(rows: seq<seq<string>>, step: Step)
    requires rows != [] && DistinctTargets(rows, step) && step(rows[0]).Ok?
    ensures NotTargeted(rows[1..], step, step(rows[0]).value.0)
  {
    forall j | 0 <= j < |rows[1..]| && step(rows[1..][j]).Ok?
      ensures step(rows[1..][j]).value.0 != step(rows[0]).value.0
    {
      assert rows[1..][j] == rows[j + 1];
    }
  }

  /**
   * After a run that pushed every row, with distinct, readable new keys, every new
   * block holds its row's OLX.
   */
  lemma {:induction false} PushAllMakesCurrent(rows: seq<seq<string>>, step: Step, s: LibState)
    requires FirstError(rows, step).None?
    requires DistinctTargets(rows, step) && ReadableTargets(rows, step, s)
    ensures Current(rows, step, PushState(rows, step, s))
    decreases |rows|
  {
    if rows != [] {
      var p := step(rows[0]).value;
      var s1 := SetOlx(s, p.0, p.1);
      var r := PushState(rows, step, s);
      TargetsTail(rows, step, s);
      TargetsTail(rows, step, s1);
      PushAllMakesCurrent(rows[1..], step, s1);
      DistinctHeadNotTargeted(rows, step);
      PushAllFrame(rows[1..], step, s1, p.0);
      SetOlxMakesCurrent(s, p.0, p.1);
      forall j | 0 < j < |rows| && step(rows[j]).Ok?
        ensures !Differs(ReadOlx(r, step(rows[j]).value.0), step(rows[j]).value.1)
      {
        assert rows[j] == rows[1..][j - 1];
      }
    }
  }

  /** When every row's block already holds its OLX, a run writes and commits nothing. */
  lemma {:induction false} PushAllCurrentIsNoop(rows: seq<seq<string>>, step: Step, s: LibState)
    requires Current(rows, step, s)
    ensures PushState(rows, step, s) == s
    decreases |rows|
  {
    if rows != [] && step(rows[0]).Ok? {
      TargetsTail(rows, step, s);
      PushAllCurrentIsNoop(rows[1..], step, s);
    }
  }

  /**
   * Re-running the command over the same id file, after a run that pushed every
   * pair to distinct, readable blocks, changes nothing: no write and no commit.
   */
  lemma PushAgainIsNoop(rows: seq<seq<string>>, step: Step, s: LibState)
    requires FirstError(rows, step).None?
    requires DistinctTargets(rows, step) && ReadableTargets(rows, step, s)
    ensures PushState(rows, step, PushState(rows, step, s)) == PushState(rows, step, s)
  {
    PushAllMakesCurrent(rows, step, s);
    PushAllCurrentIsNoop(rows, step, PushState(rows, step, s));
  }

  /**
   * One turn of the loop: push the next pair. Without an exception the run goes on
   * with the next row from the new library state; otherwise it ends here, with that
   * row's exception, and nothing changed.
   */
  method PushNextRow(rows: seq<seq<string>>, done: nat, env: Env, lib: Library) returns (error: Option<PushError>)
    requires done < |rows|
    modifies lib
    ensures var step := PushStep(env);
      if error.None? then
        && step(rows[done]).Ok?
        && PushState(rows[done..], step, old(lib.State())) == PushState(rows[done + 1..], step, lib.State())
      else
        && step(rows[done]) == Err(error.value)
        && lib.State() == old(lib.State())
  {
    var row := rows[done];
    var pair := Unpack(row);
    if pair.None? {
      return Some(BadRow(row));
    }
    var oldKey := env.parseKey(pair.value.0);
    if oldKey.None? {
      return Some(BadKey(pair.value.0));
    }
    var newKey := env.parseKey(pair.value.1);
    if newKey.None? {
      return Some(BadKey(pair.value.1));
    }
    var converted := Convert(oldKey.value, newKey.value, env.olxDir, env.files, env.parseRoot);
    if converted.Err? {
      return Some(converted.error);
    }
    assert rows[done..][0] == rows[done];
    assert rows[done..][1..] == rows[done + 1..];
    lib.SetBlockOlx(newKey.value, converted.value, env.render);
    return None;
  }

  /** Skipping `k` rows that all push: the count grows by `k`, the exception is the same. */
  lemma {:induction false} SkipPushed(rows: seq<seq<string>>, step: Step, k: nat)
    requires k <= |rows|
    requires forall j :: 0 <= j < k ==> step(rows[j]).Ok?
    ensures Pushed(rows, step) == Pushed(rows[k..], step) + k
    ensures FirstError(rows, step) == FirstError(rows[k..], step)
    decreases k
  {
    if k > 0 {
      assert rows[1..][k - 1..] == rows[k..];
      forall j | 0 <= j < k - 1 ensures step(rows[1..][j]).Ok? {
        assert rows[1..][j] == rows[j + 1];
      }
      SkipPushed(rows[1..], step, k - 1);
    }
  }

  /**
   * `Command.handle`: parse the pairs from the id file's lines, then push them in
   * order, stopping at the first exception.
   */
  method PushOlx(lines: seq<string>, env: Env, lib: Library) returns (done: nat, error: Option<PushError>)
    modifies lib
    ensures PushAll(PushIdTokens(lines), PushStep(env), old(lib.State())) == Run(lib.State(), done, error)
  {
    var rows := PushIdTokens(lines);
    ghost var step := PushStep(env);
    ghost var start := lib.State();
    done := 0;
    assert rows[done..] == rows;
    while done < |rows|
      invariant done <= |rows|
      invariant PushState(rows, step, start) == PushState(rows[done..], step, lib.State())
      invariant forall j :: 0 <= j < done ==> step(rows[j]).Ok?
    {
      error := PushNextRow(rows, done, env, lib);
      if error.Some? {
        SkipPushed(rows, step, done);
        assert rows[done..][0] == rows[done];
        return;
      }
      done := done + 1;
    }
    SkipPushed(rows, step, done);
    error := None;
  }
}
