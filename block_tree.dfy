/**
 * The recursive walk of `export_data`'s inner `serialize_block`: starting from
 * the root usage key, every block reachable through the `children` of blocks whose
 * `has_children` is set is fetched and serialised once, into an insertion-ordered
 * dict keyed by usage key.
 */
module BlockTree {
  import opened Wrappers

  /** An Open edX usage key: the course or library it lives in, its block type and id. */
  datatype BlockKey = BlockKey(context: string, blockType: string, blockId: string)

  /** One static asset a serialised block refers to: its file name and bytes. */
  datatype AssetFile = AssetFile(name: string, data: seq<bv8>)

  /** What `XBlockSerializer` produces for a block: definition id, OLX text and assets. */
  datatype Serialization = Serialization(defId: string, olx: string, staticFiles: seq<AssetFile>)

  /** A block as the modulestore returns it, with the serialiser's output for it. */
  datatype Block = Block(hasChildren: bool, children: seq<BlockKey>, serialization: Serialization)

  /** The modulestore: `compat.get_block` succeeds exactly for the keys of this map. */
  type Store = map<BlockKey, Block>

  /** One value of `serialized_blocks`: the serialiser's output tagged with the block's key. */
  datatype SerializedBlock = SerializedBlock(origKey: BlockKey, defId: string, olx: string, staticFiles: seq<AssetFile>)

  function Serialize(key: BlockKey, block: Block): (s: SerializedBlock)
    ensures s.origKey == key && s.olx == block.serialization.olx
    ensures s.defId == block.serialization.defId && s.staticFiles == block.serialization.staticFiles
  {
    SerializedBlock(key, block.serialization.defId, block.serialization.olx, block.serialization.staticFiles)
  }

  /** The children the walk follows: none unless `has_children` is set. */
  function Kids(block: Block): seq<BlockKey>
  {
    if block.hasChildren then block.children else []
  }

  function Seen(order: seq<BlockKey>): set<BlockKey>
  {
    set k | k in order
  }

  predicate Distinct(s: seq<BlockKey>)
  {
    forall a, b :: 0 <= a < b < |s| ==> s[a] != s[b]
  }

  lemma PrefixSeen(s: seq<BlockKey>, t: seq<BlockKey>)
    requires s <= t
    ensures Seen(s) <= Seen(t)
  {
    forall k | k in Seen(s) ensures k in Seen(t) {
      var j :| 0 <= j < |s| && s[j] == k;
      assert t[j] == k;
    }
  }

  lemma SeenAppend(s: seq<BlockKey>, k: BlockKey)
    ensures Seen(s + [k]) == Seen(s) + {k}
  {
    assert forall x :: x in s + [k] <==> x in s || x == k;
  }

  /**
   * The order in which a walk started at `key`, with `visited` already serialised,
   * leaves the dict's keys; `None` when some block it reaches is missing from the
   * store (`get_block` raises and the export is abandoned).
   */
  function Visit(store: Store, key: BlockKey, visited: seq<BlockKey>): (r: Option<seq<BlockKey>>)
    ensures r.Some? ==> visited <= r.value && key in r.value
    decreases store.Keys - Seen(visited), 0
  {
    if key in visited then Some(visited)
    else if key !in store then None
    else
      SeenAppend(visited, key);
      VisitAll(store, Kids(store[key]), visited + [key])
  }

  /** The walk over a list of children, one after the other, each seeing its predecessors' work. */
  function VisitAll(store: Store, keys: seq<BlockKey>, visited: seq<BlockKey>): (r: Option<seq<BlockKey>>)
    ensures r.Some? ==> visited <= r.value
    decreases store.Keys - Seen(visited), |keys|
  {
    if keys == [] then Some(visited)
    else
      match Visit(store, keys[0], visited)
      case None => None
      case Some(next) =>
        PrefixSeen(visited, next);
        VisitAll(store, keys[1..], next)
  }

  /** `p` is a chain of keys, each a child of the block before it. */
  ghost predicate IsPath(store: Store, p: seq<BlockKey>)
  {
    |p| >= 1 && forall j :: 0 <= j < |p| - 1 ==> p[j] in store && p[j + 1] in Kids(store[p[j]])
  }

  /** `b` is reachable from `a` by following children. */
  ghost predicate Reaches(store: Store, a: BlockKey, b: BlockKey)
  {
    exists p :: IsPath(store, p) && p[0] == a && p[|p| - 1] == b
  }

  lemma ReachesSelf(store: Store, a: BlockKey)
    ensures Reaches(store, a, a)
  {
    assert IsPath(store, [a]);
  }

  lemma ReachesThroughChild(store: Store, a: BlockKey, c: BlockKey, b: BlockKey)
    requires a in store && c in Kids(store[a]) && Reaches(store, c, b)
    ensures Reaches(store, a, b)
  {
    var p :| IsPath(store, p) && p[0] == c && p[|p| - 1] == b;
    var q := [a] + p;
    assert forall j :: 1 <= j < |q| ==> q[j] == p[j - 1];
    assert IsPath(store, q);
  }

  lemma VisitAllPrefix(store: Store, keys: seq<BlockKey>, visited: seq<BlockKey>, next: seq<BlockKey>)
    requires keys != [] && Visit(store, keys[0], visited) == Some(next)
    ensures VisitAll(store, keys, visited) == VisitAll(store, keys[1..], next)
  {
  }

  lemma VisitAllStops(store: Store, keys: seq<BlockKey>, visited: seq<BlockKey>)
    requires keys != [] && Visit(store, keys[0], visited).None?
    ensures VisitAll(store, keys, visited).None?
  {
  }

  /** The walk never serialises a key twice. */
  lemma {:induction false} VisitDistinct(store: Store, key: BlockKey, visited: seq<BlockKey>)
    requires Distinct(visited)
    ensures Visit(store, key, visited).Some? ==> Distinct(Visit(store, key, visited).value)
    decreases store.Keys - Seen(visited), 0
  {
    if key !in visited && key in store {
      var w := visited + [key];
      SeenAppend(visited, key);
      VisitAllDistinct(store, Kids(store[key]), w);
    }
  }

  lemma {:induction false} VisitAllDistinct(store: Store, keys: seq<BlockKey>, visited: seq<BlockKey>)
    requires Distinct(visited)
    ensures VisitAll(store, keys, visited).Some? ==> Distinct(VisitAll(store, keys, visited).value)
    decreases store.Keys - Seen(visited), |keys|
  {
    if keys != [] {
      VisitDistinct(store, keys[0], visited);
      var r := Visit(store, keys[0], visited);
      if r.Some? {
        PrefixSeen(visited, r.value);
        VisitAllDistinct(store, keys[1..], r.value);
      }
    }
  }

  /** Every key the walk adds is in the store, and its children were visited too. */
  ghost predicate ClosedNew(store: Store, visited: seq<BlockKey>, r: seq<BlockKey>)
  {
    forall k :: k in r && k !in visited ==> k in store && forall c :: c in Kids(store[k]) ==> c in r
  }

  lemma {:induction false} VisitClosed(store: Store, key: BlockKey, visited: seq<BlockKey>)
    ensures Visit(store, key, visited).Some? ==> ClosedNew(store, visited, Visit(store, key, visited).value)
    decreases store.Keys - Seen(visited), 0
  {
    if key !in visited && key in store {
      var w := visited + [key];
      SeenAppend(visited, key);
      VisitAllClosed(store, Kids(store[key]), w);
    }
  }

  lemma {:induction false} VisitAllClosed(store: Store, keys: seq<BlockKey>, visited: seq<BlockKey>)
    ensures VisitAll(store, keys, visited).Some? ==>
      ClosedNew(store, visited, VisitAll(store, keys, visited).value)
      && forall c :: c in keys ==> c in VisitAll(store, keys, visited).value
    decreases store.Keys - Seen(visited), |keys|
  {
    if keys != [] {
      VisitClosed(store, keys[0], visited);
      var r := Visit(store, keys[0], visited);
      if r.Some? {
        PrefixSeen(visited, r.value);
        VisitAllClosed(store, keys[1..], r.value);
        var s := VisitAll(store, keys[1..], r.value);
        if s.Some? {
          PrefixSeen(r.value, s.value);
          assert forall k :: k in r.value ==> k in s.value by {
            assert Seen(r.value) <= Seen(s.value);
          }
          assert keys == [keys[0]] + keys[1..];
        }
      }
    }
  }

  /** Every key the walk adds is reachable from where the walk started. */
  lemma {:induction false} VisitSound(store: Store, key: BlockKey, visited: seq<BlockKey>)
    ensures Visit(store, key, visited).Some? ==>
      forall k :: k in Visit(store, key, visited).value && k !in visited ==> Reaches(store, key, k)
    decreases store.Keys - Seen(visited), 0
  {
    if key !in visited && key in store {
      var w := visited + [key];
      SeenAppend(visited, key);
      VisitAllSound(store, Kids(store[key]), w);
      var r := VisitAll(store, Kids(store[key]), w);
      if r.Some? {
        forall k | k in r.value && k !in visited ensures Reaches(store, key, k) {
          if k == key {
            ReachesSelf(store, key);
          } else {
            var c :| c in Kids(store[key]) && Reaches(store, c, k);
            ReachesThroughChild(store, key, c, k);
          }
        }
      }
    }
  }

  lemma {:induction false} VisitAllSound(store: Store, keys: seq<BlockKey>, visited: seq<BlockKey>)
    ensures VisitAll(store, keys, visited).Some? ==>
      forall k :: k in VisitAll(store, keys, visited).value && k !in visited ==>
        exists c :: c in keys && Reaches(store, c, k)
    decreases store.Keys - Seen(visited), |keys|
  {
    if keys != [] {
      VisitSound(store, keys[0], visited);
      var r := Visit(store, keys[0], visited);
      if r.Some? {
        PrefixSeen(visited, r.value);
        VisitAllSound(store, keys[1..], r.value);
        var s := VisitAll(store, keys[1..], r.value);
        if s.Some? {
          forall k | k in s.value && k !in visited ensures exists c :: c in keys && Reaches(store, c, k) {
            if k in r.value {
              assert keys[0] in keys && Reaches(store, keys[0], k);
            } else {
              var c :| c in keys[1..] && Reaches(store, c, k);
              assert c in keys;
            }
          }
        }
      }
    }
  }

  /** A walk that fails has reached a key the store does not have. */
  lemma {:induction false} VisitMissing(store: Store, key: BlockKey, visited: seq<BlockKey>)
    ensures Visit(store, key, visited).None? ==> exists k :: Reaches(store, key, k) && k !in store
    decreases store.Keys - Seen(visited), 0
  {
    if key !in visited {
      if key !in store {
        ReachesSelf(store, key);
      } else {
        var w := visited + [key];
      SeenAppend(visited, key);
        VisitAllMissing(store, Kids(store[key]), w);
        if VisitAll(store, Kids(store[key]), w).None? {
          var c, k :| c in Kids(store[key]) && Reaches(store, c, k) && k !in store;
          ReachesThroughChild(store, key, c, k);
        }
      }
    }
  }

  lemma {:induction false} VisitAllMissing(store: Store, keys: seq<BlockKey>, visited: seq<BlockKey>)
    ensures VisitAll(store, keys, visited).None? ==>
      exists c, k :: c in keys && Reaches(store, c, k) && k !in store
    decreases store.Keys - Seen(visited), |keys|
  {
    if keys != [] {
      VisitMissing(store, keys[0], visited);
      var r := Visit(store, keys[0], visited);
      if r.None? {
        var k :| Reaches(store, keys[0], k) && k !in store;
        assert keys[0] in keys;
      } else {
        PrefixSeen(visited, r.value);
        VisitAllMissing(store, keys[1..], r.value);
        if VisitAll(store, keys[1..], r.value).None? {
          var c, k :| c in keys[1..] && Reaches(store, c, k) && k !in store;
          assert c in keys;
        }
      }
    }
  }

  /** `key` has a parent among the first `n` entries of `r`. */
  ghost predicate HasParentBefore(store: Store, r: seq<BlockKey>, n: nat, key: BlockKey)
    requires n <= |r|
  {
    exists i :: 0 <= i < n && r[i] in store && key in Kids(store[r[i]])
  }

  /** From index `from` on, every entry of `r` is a child of some earlier entry. */
  ghost predicate ParentFirst(store: Store, r: seq<BlockKey>, from: nat)
  {
    forall j :: from <= j < |r| ==> HasParentBefore(store, r, j, r[j])
  }

  lemma HasParentExtends(store: Store, r: seq<BlockKey>, s: seq<BlockKey>, n: nat, key: BlockKey)
    requires r <= s && n <= |r| && HasParentBefore(store, r, n, key)
    ensures HasParentBefore(store, s, n, key)
  {
    var i :| 0 <= i < n && r[i] in store && key in Kids(store[r[i]]);
    assert s[i] == r[i];
  }

  lemma {:induction false} VisitParentFirst(store: Store, key: BlockKey, visited: seq<BlockKey>)
    requires HasParentBefore(store, visited, |visited|, key)
    ensures Visit(store, key, visited).Some? ==> ParentFirst(store, Visit(store, key, visited).value, |visited|)
    decreases store.Keys - Seen(visited), 0
  {
    if key !in visited && key in store {
      var w := visited + [key];
      SeenAppend(visited, key);
      forall c | c in Kids(store[key]) ensures HasParentBefore(store, w, |w|, c) {
        assert w[|visited|] == key;
      }
      VisitAllParentFirst(store, Kids(store[key]), w);
      var r := VisitAll(store, Kids(store[key]), w);
      if r.Some? {
        HasParentExtends(store, visited, r.value, |visited|, key);
        forall j | |visited| <= j < |r.value| ensures HasParentBefore(store, r.value, j, r.value[j]) {
          if j == |visited| {
            assert r.value[j] == w[j] == key;
            var i :| 0 <= i < |visited| && visited[i] in store && key in Kids(store[visited[i]]);
            assert r.value[i] == visited[i];
          }
        }
      }
    }
  }

  lemma {:induction false} VisitAllParentFirst(store: Store, keys: seq<BlockKey>, visited: seq<BlockKey>)
    requires forall c :: c in keys ==> HasParentBefore(store, visited, |visited|, c)
    ensures VisitAll(store, keys, visited).Some? ==> ParentFirst(store, VisitAll(store, keys, visited).value, |visited|)
    decreases store.Keys - Seen(visited), |keys|
  {
    if keys != [] {
      assert keys[0] in keys;
      VisitParentFirst(store, keys[0], visited);
      var r := Visit(store, keys[0], visited);
      if r.Some? {
        PrefixSeen(visited, r.value);
        forall c | c in keys[1..] ensures HasParentBefore(store, r.value, |r.value|, c) {
          assert c in keys;
          HasParentExtends(store, visited, r.value, |visited|, c);
          var i :| 0 <= i < |visited| && r.value[i] in store && c in Kids(store[r.value[i]]);
        }
        VisitAllParentFirst(store, keys[1..], r.value);
        var s := VisitAll(store, keys[1..], r.value);
        if s.Some? {
          forall j | |visited| <= j < |s.value| ensures HasParentBefore(store, s.value, j, s.value[j]) {
            if j < |r.value| {
              assert s.value[j] == r.value[j];
              HasParentExtends(store, r.value, s.value, j, r.value[j]);
            }
          }
        }
      }
    }
  }

  lemma {:induction false} PathInClosed(store: Store, r: seq<BlockKey>, p: seq<BlockKey>)
    requires ClosedNew(store, [], r) && IsPath(store, p) && p[0] in r
    ensures p[|p| - 1] in r
    decreases |p|
  {
    if |p| > 1 {
      var q := p[..|p| - 1];
      forall j | 0 <= j < |q| - 1 ensures q[j] in store && q[j + 1] in Kids(store[q[j]]) {
        assert q[j] == p[j] && q[j + 1] == p[j + 1];
      }
      PathInClosed(store, r, q);
      assert p[|p| - 2] == q[|q| - 1];
    }
  }

  /** A successful walk from the root holds exactly the keys reachable from it. */
  lemma WalkCoversReachable(store: Store, root: BlockKey)
    requires Visit(store, root, []).Some?
    ensures forall k :: k in Visit(store, root, []).value <==> Reaches(store, root, k)
    ensures forall k :: k in Visit(store, root, []).value ==> k in store
  {
    var order := Visit(store, root, []).value;
    VisitClosed(store, root, []);
    VisitSound(store, root, []);
    forall k | Reaches(store, root, k) ensures k in order {
      var p :| IsPath(store, p) && p[0] == root && p[|p| - 1] == k;
      PathInClosed(store, order, p);
    }
  }

  /** Every key of a successful walk from the root names a block of the store. */
  lemma WalkInStore(store: Store, root: BlockKey)
    ensures Visit(store, root, []).Some? ==> forall k :: k in Visit(store, root, []).value ==> k in store
  {
    if Visit(store, root, []).Some? {
      WalkCoversReachable(store, root);
    }
  }

  /**
   * A successful walk from the root puts every key in once, the root first and
   * every other key after a block that has it as a child.
   */
  lemma WalkOrder(store: Store, root: BlockKey)
    requires Visit(store, root, []).Some?
    ensures var order := Visit(store, root, []).value;
      Distinct(order) && order[0] == root && ParentFirst(store, order, 1)
  {
    VisitDistinct(store, root, []);
    SeenAppend([], root);
    assert [] + [root] == [root];
    assert Visit(store, root, []) == VisitAll(store, Kids(store[root]), [root]);
    forall c | c in Kids(store[root]) ensures HasParentBefore(store, [root], 1, c) {
      assert [root][0] == root;
    }
    VisitAllParentFirst(store, Kids(store[root]), [root]);
  }

  /** The walk from the root succeeds exactly when every block reachable from the root is in the store. */
  lemma WalkSucceedsIff(store: Store, root: BlockKey)
    ensures Visit(store, root, []).Some? <==> forall k :: Reaches(store, root, k) ==> k in store
  {
    VisitMissing(store, root, []);
    if Visit(store, root, []).Some? {
      WalkCoversReachable(store, root);
    }
  }

  /**
   * The `serialized_blocks` dict of one `export_data` call: `order` is its insertion
   * order (the order `.values()` yields), `entries` its contents.
   */
  class Manifest {
    var order: seq<BlockKey>
    var entries: map<BlockKey, SerializedBlock>

    constructor()
      ensures order == [] && entries == map[]
    {
      order := [];
      entries := map[];
    }

    /** Every key appears once in `order`, and its entry is the serialisation of its block. */
    predicate Consistent(store: Store)
      reads this
    {
      && Distinct(order)
      && entries.Keys == Seen(order)
      && forall k :: k in entries ==> k in store && entries[k] == Serialize(k, store[k])
    }

    /** `serialized_blocks.values()`: the entries, in the order their keys were inserted. */
    method Values() returns (values: seq<SerializedBlock>)
      requires forall k :: k in order ==> k in entries
      ensures |values| == |order|
      ensures forall i :: 0 <= i < |order| ==> values[i] == entries[order[i]]
    {
      values := [];
      for i := 0 to |order|
        invariant |values| == i
        invariant forall j :: 0 <= j < i ==> values[j] == entries[order[j]]
      {
        values := values + [entries[order[i]]];
      }
    }

    /**
     * `serialize_block(block_key)`: returns at once for a key already in the dict,
     * otherwise fetches the block (failing when the store lacks it), records its
     * serialisation before visiting its children, then walks the children in order.
     */
    method SerializeBlock(store: Store, key: BlockKey) returns (ok: bool)
      requires Consistent(store)
      modifies this
      ensures Consistent(store)
      ensures old(order) <= order
      ensures ok <==> Visit(store, key, old(order)).Some?
      ensures ok ==> order == Visit(store, key, old(order)).value
      decreases store.Keys - Seen(order), 1
    {
      if key in entries {
        return true;
      }
      if key !in store {
        return false;
      }
      var block := store[key];
      ghost var start := order;
      entries := entries[key := Serialize(key, block)];
      order := order + [key];
      SeenAppend(start, key);
      ok := true;
      if block.hasChildren {
        ok := SerializeChildren(store, block.children, store.Keys - Seen(start));
      }
    }

    /**
     * The `for child in block.children` loop of `serialize_block`: each child is
     * serialised in turn, stopping at the first failure. `bound` is the measure of the
     * enclosing call, which the children's walks stay below.
     */
    method SerializeChildren(store: Store, children: seq<BlockKey>, ghost bound: set<BlockKey>) returns (ok: bool)
      requires Consistent(store)
      requires store.Keys - Seen(order) < bound
      modifies this
      ensures Consistent(store)
      ensures old(order) <= order
      ensures ok <==> VisitAll(store, children, old(order)).Some?
      ensures ok ==> order == VisitAll(store, children, old(order)).value
      decreases bound, 0
    {
      ghost var start := order;
      var i := 0;
      while i < |children|
        invariant 0 <= i <= |children|
        invariant Consistent(store)
        invariant start <= order
        invariant VisitAll(store, children, start) == VisitAll(store, children[i..], order)
      {
        PrefixSeen(start, order);
        ghost var before := order;
        ok := SerializeBlock(store, children[i]);
        assert children[i..][0] == children[i];
        if !ok {
          VisitAllStops(store, children[i..], before);
          return false;
        }
        assert children[i..][1..] == children[i + 1..];
        VisitAllPrefix(store, children[i..], before, order);
        i := i + 1;
      }
      return true;
    }
  }
}
