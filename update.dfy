/**
 * The reconciliation step of the `update` command: the entries already in
 * the target manifest are pruned to the walked source files (with the
 * delete option), every source file without an entry is hashed and
 * added, and the resulting map is flattened into the slice that is then
 * written.
 *
 * Go's map iteration order is unspecified; each loop over a map takes its
 * keys in an arbitrary order (`:|`), and the contracts hold for every
 * order.
 */
module Update {
  import opened Wrappers
  import opened Platform
  import opened Checksums
  import opened Manifest
  import opened Scan

  /** A map from paths to entries in which each entry records its own key. */
  predicate KeyedByPath(m: map<string, Checksum>) {
    forall k :: k in m ==> m[k].path == k
  }

  /** The target map after the pruning loop: with `delete`, only the entries whose path is a source remain. */
  function Pruned(target: map<string, Checksum>, source: set<string>, delete: bool): map<string, Checksum> {
    if delete then map k | k in target && k in source :: target[k] else target
  }

  /** The source paths the insert loop must hash: those with no entry yet. */
  function Missing(pruned: map<string, Checksum>, source: set<string>): set<string> {
    set k | k in source && k !in pruned
  }

  /** Whether hashing some source path that has no entry fails. */
  predicate HashFails(pruned: map<string, Checksum>, source: set<string>, md5: Hasher) {
    exists k :: k in Missing(pruned, source) && md5(k).Failure?
  }

  /**
   * `pruned` with an entry added for each path of `keys` it lacks, holding
   * that path's hash; entries already present are kept as they are.
   */
  function Inserted(pruned: map<string, Checksum>, keys: set<string>, md5: Hasher): map<string, Checksum>
    requires forall k :: k in keys && k !in pruned ==> md5(k).Success?
  {
    map k | k in pruned.Keys + keys :: if k in pruned then pruned[k] else Checksum(md5(k).value, k)
  }

  /** The map the insert loop ends with when no hashing fails. */
  function Updated(target: map<string, Checksum>, source: set<string>, delete: bool, md5: Hasher): map<string, Checksum>
    requires !HashFails(Pruned(target, source, delete), source, md5)
  {
    Inserted(Pruned(target, source, delete), source, md5)
  }

  /**
   * `s` lists the entries of `m` along `ks`, a sequence of `m`'s keys in
   * which every key occurs exactly once.
   */
  ghost predicate FlattensAlong(s: seq<Checksum>, m: map<string, Checksum>, ks: seq<string>) {
    && |ks| == |s|
    && (set k | k in ks) == m.Keys
    && (forall i, j :: 0 <= i < j < |ks| ==> ks[i] != ks[j])
    && (forall i :: 0 <= i < |ks| ==> ks[i] in m && s[i] == m[ks[i]])
  }

  /** `s` holds the entries of `m` once each, in some order of the keys. */
  ghost predicate Flattens(s: seq<Checksum>, m: map<string, Checksum>) {
    exists ks: seq<string> :: FlattensAlong(s, m, ks)
  }

  /**
   * What the reconciliation ends with: if hashing a new source path fails,
   * the error of one such path (which one depends on map order); otherwise
   * the entries of the updated map, one per key.
   */
  ghost predicate Reconciled(r: Result<seq<Checksum>, Error>, target: map<string, Checksum>, source: set<string>,
                             delete: bool, md5: Hasher)
  {
    var pruned := Pruned(target, source, delete);
    if HashFails(pruned, source, md5) then
      r.Failure? && exists k :: k in Missing(pruned, source) && md5(k) == Failure(r.error)
    else
      r.Success? && Flattens(r.value, Updated(target, source, delete, md5))
  }

  // ---------------------------------------------------------------------
  // The loops

  /** The three loops of `updateCommand` after the walk (delete, insert, flatten) over `target`, the map read from the manifest. */
  method Reconcile(source: set<string>, target: map<string, Checksum>, delete: bool, md5: Hasher)
    returns (r: Result<seq<Checksum>, Error>)
    ensures Reconciled(r, target, source, delete, md5)
  {
    var targetMap := target;
    if delete {
      targetMap := Prune(targetMap, source);
    }
    ghost var pruned := targetMap;
    assert pruned == Pruned(target, source, delete);
    var inserted := Insert(targetMap, source, md5);
    if inserted.Failure? {
      return Failure(inserted.error);
    }
    targetMap := inserted.value;
    var slice := Flatten(targetMap);
    return Success(slice);
  }

  /** The pruning loop: delete every entry whose path is not a source. */
  method Prune(target: map<string, Checksum>, source: set<string>) returns (targetMap: map<string, Checksum>)
    ensures targetMap == Pruned(target, source, true)
  {
    targetMap := target;
    var keys := target.Keys;
    while keys != {}
      invariant keys <= target.Keys
      invariant targetMap == map k | k in target && (k in keys || k in source) :: target[k]
      decreases keys
    {
      var key :| key in keys;
      if key !in source {
        targetMap := targetMap - {key};
      }
      keys := keys - {key};
    }
  }

  /**
   * The insert loop: each source path without an entry is hashed and
   * added; the first hashing error (in map order) ends the command.
   */
  method Insert(pruned: map<string, Checksum>, source: set<string>, md5: Hasher)
    returns (r: Result<map<string, Checksum>, Error>)
    ensures HashFails(pruned, source, md5) <==> r.Failure?
    ensures r.Failure? ==> exists k :: k in Missing(pruned, source) && md5(k) == Failure(r.error)
    ensures r.Success? ==> r.value == Inserted(pruned, source, md5)
  {
    var targetMap := pruned;
    var keys := source;
    assert source - keys == {};
    while keys != {}
      invariant keys <= source
      invariant Extends(targetMap, pruned, source - keys, md5)
      decreases keys
    {
      var key :| key in keys;
      ghost var done := source - keys;
      assert source - (keys - {key}) == done + {key};
      InsertStep(targetMap, pruned, done, md5, key);
      if key !in targetMap {
        var hash := md5(key);
        if hash.Failure? {
          assert key in Missing(pruned, source);
          return Failure(hash.error);
        }
        targetMap := targetMap[key := Checksum(hash.value, key)];
      }
      keys := keys - {key};
    }
    InsertedIs(pruned, source, keys, md5, targetMap);
    return Success(targetMap);
  }

  /**
   * `m` is `pruned` with entries added for the paths of `done` it lacked,
   * each recording its path and that path's hash.
   */
  predicate Extends(m: map<string, Checksum>, pruned: map<string, Checksum>, done: set<string>, md5: Hasher) {
    && m.Keys == pruned.Keys + done
    && (forall k :: k in pruned ==> m[k] == pruned[k])
    && (forall k :: k in m && k !in pruned ==> md5(k) == Success(m[k].hash) && m[k].path == k)
  }

  /** One step of the insert loop keeps `Extends`. */
  lemma {:induction false} InsertStep(m: map<string, Checksum>, pruned: map<string, Checksum>, done: set<string>,
                                      md5: Hasher, key: string)
    requires Extends(m, pruned, done, md5) && key !in done
    ensures key in m ==> Extends(m, pruned, done + {key}, md5)
    ensures key !in m ==> key !in pruned
    ensures key !in m && md5(key).Success? ==> Extends(m[key := Checksum(md5(key).value, key)], pruned, done + {key}, md5)
  {
  }

  /**
   * A map that extends `pruned` by all of `keys` (nothing of them `rest`)
   * is `Inserted`, and no hashing of those keys failed.
   */
  lemma {:induction false} InsertedIs(pruned: map<string, Checksum>, keys: set<string>, rest: set<string>, md5: Hasher,
                                      m: map<string, Checksum>)
    requires rest == {} && Extends(m, pruned, keys - rest, md5)
    ensures !HashFails(pruned, keys, md5)
    ensures m == Inserted(pruned, keys, md5)
  {
    assert keys - rest == keys;
    forall k | k in Missing(pruned, keys) ensures md5(k).Success? {
      assert k in m;
    }
    var n := Inserted(pruned, keys, md5);
    assert m.Keys == n.Keys;
    forall k | k in m ensures m[k] == n[k] {
      if k !in pruned {
        assert m[k] == Checksum(m[k].hash, m[k].path);
      }
    }
  }

  /** The loop that copies every entry of the map into a slice. */
  method Flatten(m: map<string, Checksum>) returns (slice: seq<Checksum>)
    ensures Flattens(slice, m)
  {
    slice := [];
    ghost var ks: seq<string> := [];
    ghost var done: set<string> := {};
    var keys := m.Keys;
    while keys != {}
      invariant done + keys == m.Keys && done !! keys
      invariant CopiedAlong(slice, m, ks, done)
      decreases keys
    {
      var key :| key in keys;
      CopyStep(slice, m, ks, done, key);
      slice := slice + [m[key]];
      ks := ks + [key];
      done := done + {key};
      keys := keys - {key};
    }
    FlattenedAlong(slice, m, ks, done, keys);
  }

  /** The copying loop so far: `slice` lists the entries of the keys `done`, each once, along `ks`. */
  ghost predicate CopiedAlong(slice: seq<Checksum>, m: map<string, Checksum>, ks: seq<string>, done: set<string>) {
    && |ks| == |slice|
    && (forall i :: 0 <= i < |ks| ==> ks[i] in done)
    && (forall k :: k in done ==> k in ks)
    && (forall i, j :: 0 <= i < j < |ks| ==> ks[i] != ks[j])
    && (forall i :: 0 <= i < |ks| ==> ks[i] in m && slice[i] == m[ks[i]])
  }

  /** Copying the entry of one more key keeps `CopiedAlong`. */
  lemma {:induction false} CopyStep(slice: seq<Checksum>, m: map<string, Checksum>, ks: seq<string>, done: set<string>,
                                    key: string)
    requires CopiedAlong(slice, m, ks, done) && key in m && key !in done
    ensures CopiedAlong(slice + [m[key]], m, ks + [key], done + {key})
  {
    var ks' := ks + [key];
    assert forall i :: 0 <= i < |ks| ==> ks[i] != key;
    forall k | k in done + {key} ensures k in ks' {
      if k == key {
        assert ks'[|ks|] == key;
      } else {
        assert k in ks;
        var i :| 0 <= i < |ks| && ks[i] == k;
        assert ks'[i] == k;
      }
    }
  }

  /** The end of the copying loop: every key taken once, in the order of `ks`. */
  lemma {:induction false} FlattenedAlong(slice: seq<Checksum>, m: map<string, Checksum>, ks: seq<string>, done: set<string>,
                                          rest: set<string>)
    requires rest == {} && done + rest == m.Keys
    requires CopiedAlong(slice, m, ks, done)
    ensures Flattens(slice, m)
  {
    assert done == m.Keys;
    assert (set k | k in ks) == m.Keys;
    assert FlattensAlong(slice, m, ks);
  }

  /**
   * The body of `update` before writing: walk the source, read the target
   * manifest into a map, and reconcile. A walk error comes first, then a
   * read error.
   */
  method UpdateEntries(ops: PathOps, walk: seq<WalkEntry>, target: string, read: Result<string, Error>,
                       delete: bool, md5: Hasher)
    returns (r: Result<seq<Checksum>, Error>)
    ensures Sources(ops, walk, target).Failure? ==> r == Failure(Sources(ops, walk, target).error)
    ensures Sources(ops, walk, target).Success? && read.Failure? ==> r == Failure(read.error)
    ensures Sources(ops, walk, target).Success? && read.Success? ==>
              Reconciled(r, ToMap(ParseManifest(ops, target, read.value)), Sources(ops, walk, target).value, delete, md5)
  {
    var sourceMap := ScanSources(ops, walk, target);
    if sourceMap.Failure? {
      return Failure(sourceMap.error);
    }
    var targetMap := ReadFileToMap(ops, target, read);
    if targetMap.Failure? {
      return Failure(targetMap.error);
    }
    r := Reconcile(sourceMap.value, targetMap.value, delete, md5);
  }

  // ---------------------------------------------------------------------
  // Properties

  /**
   * Pruning: with `delete` every remaining key is a source and every
   * target entry whose path is a source stays; without it nothing is
   * removed. No remaining entry changes.
   */
  lemma {:induction false} PrunedKeys(target: map<string, Checksum>, source: set<string>, delete: bool)
    ensures delete ==> Pruned(target, source, delete).Keys == target.Keys * source
    ensures !delete ==> Pruned(target, source, delete) == target
    ensures forall k :: k in Pruned(target, source, delete) ==> Pruned(target, source, delete)[k] == target[k]
  {
  }

  /**
   * The updated map: every source path has an entry; with `delete` the
   * keys are exactly the sources, without it no target key is lost;
   * entries that existed are kept unchanged (their hash is never
   * recomputed); each new entry records its path and that path's hash; and
   * a map keyed by path stays keyed by path.
   */
  lemma {:induction false} UpdatedEntries(target: map<string, Checksum>, source: set<string>, delete: bool, md5: Hasher)
    requires !HashFails(Pruned(target, source, delete), source, md5)
    ensures source <= Updated(target, source, delete, md5).Keys
    ensures delete ==> Updated(target, source, delete, md5).Keys == source
    ensures !delete ==> Updated(target, source, delete, md5).Keys == target.Keys + source
    ensures forall k :: k in target && k in Updated(target, source, delete, md5) ==>
              Updated(target, source, delete, md5)[k] == target[k]
    ensures forall k :: k in source && k !in target ==>
              Updated(target, source, delete, md5)[k] == Checksum(md5(k).value, k)
    ensures KeyedByPath(target) ==> KeyedByPath(Updated(target, source, delete, md5))
  {
    var pruned := Pruned(target, source, delete);
    forall k | k in source && k !in target ensures md5(k).Success? {
      assert k in Missing(pruned, source);
    }
  }

  /**
   * Updating is idempotent: reconciling the updated map against the same
   * sources prunes nothing, hashes nothing and gives the same map.
   */
  lemma {:induction false} UpdateIdempotent(target: map<string, Checksum>, source: set<string>, delete: bool, md5: Hasher)
    requires !HashFails(Pruned(target, source, delete), source, md5)
    ensures var m := Updated(target, source, delete, md5);
            && Pruned(m, source, delete) == m
            && Missing(m, source) == {}
            && !HashFails(m, source, md5)
            && Updated(m, source, delete, md5) == m
  {
    var m := Updated(target, source, delete, md5);
    UpdatedEntries(target, source, delete, md5);
    assert Pruned(m, source, delete) == m;
    assert Missing(m, source) == {};
  }

  /** A sequence of distinct keys has as many elements as its set of keys. */
  lemma {:induction false} DistinctCardinality(ks: seq<string>)
    requires forall i, j :: 0 <= i < j < |ks| ==> ks[i] != ks[j]
    ensures |set k | k in ks| == |ks|
    decreases |ks|
  {
    if |ks| > 0 {
      var init := ks[..|ks| - 1];
      DistinctCardinality(init);
      assert (set k | k in ks) == (set k | k in init) + {ks[|ks| - 1]};
      assert ks[|ks| - 1] !in (set k | k in init);
    }
  }

  /**
   * The slice has exactly one entry per map key: as many entries as keys,
   * and, for a map keyed by path, distinct paths that are exactly the keys,
   * each with the map's entry.
   */
  lemma {:induction false} OneEntryPerKey(s: seq<Checksum>, m: map<string, Checksum>)
    requires Flattens(s, m)
    ensures |s| == |m|
    ensures KeyedByPath(m) ==>
              && (set c | c in s :: c.path) == m.Keys
              && (forall i, j :: 0 <= i < j < |s| ==> s[i].path != s[j].path)
              && (forall i :: 0 <= i < |s| ==> s[i] == m[s[i].path])
  {
    var ks :| FlattensAlong(s, m, ks);
    DistinctCardinality(ks);
    if KeyedByPath(m) {
      PathsAreKeys(s, m, ks);
    }
  }

  /** Along a key sequence of a map keyed by path, the entries' paths are the keys. */
  lemma {:induction false} PathsAreKeys(s: seq<Checksum>, m: map<string, Checksum>, ks: seq<string>)
    requires FlattensAlong(s, m, ks) && KeyedByPath(m)
    ensures forall i :: 0 <= i < |s| ==> s[i].path == ks[i]
    ensures (set c | c in s :: c.path) == m.Keys
  {
    assert forall i :: 0 <= i < |s| ==> s[i].path == ks[i];
    forall p | p in m ensures p in (set c | c in s :: c.path) {
      assert p in (set k | k in ks);
      var i :| 0 <= i < |ks| && ks[i] == p;
      assert s[i] in s;
    }
  }
}
