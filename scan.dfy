/**
 * The directory walks of the `new` and `update` commands: which walked
 * entries are recorded, and the rule that keeps the manifest being written
 * out of its own contents.
 *
 * The walk itself is the sequence of entries `filepath.Walk` hands to the
 * callback, in the order it hands them; the first error the callback
 * returns ends the walk and becomes its result.
 */
module Scan {
  import opened Wrappers
  import opened Platform
  import opened GoStrings
  import opened Checksums

  // ---------------------------------------------------------------------
  // The callback

  /**
   * Whether `path` is the output manifest itself: only a path that ends
   * in the output's base name is examined, and it is the output when both
   * absolute paths agree. An error from `Abs` is the callback's error.
   */
  function IsOutput(ops: PathOps, path: string, output: string): Result<bool, Error> {
    if HasSuffix(path, ops.base(output)) then
      match ops.abs(path)
      case Failure(e) => Failure(e)
      case Success(pathAbs) =>
        match ops.abs(output)
        case Failure(e) => Failure(e)
        case Success(outputAbs) => Success(pathAbs == outputAbs)
    else
      Success(false)
  }

  /**
   * The callback's decision for one walked entry: a walk error is returned,
   * a directory is passed over, the output manifest is passed over, and
   * every other file is recorded (`Success(true)`).
   */
  function Admit(ops: PathOps, e: WalkEntry, output: string): Result<bool, Error> {
    if e.err.Some? then Failure(e.err.value)
    else if e.isDir then Success(false)
    else
      match IsOutput(ops, e.path, output)
      case Failure(err) => Failure(err)
      case Success(isOutput) => Success(!isOutput)
  }

  /**
   * A file that is the output manifest is never recorded: when its
   * absolute path is the output's and it ends in the output's base name
   * (as a walked path does when both name the same file), `Admit` passes
   * over it.
   */
  lemma {:induction false} OutputNotAdmitted(ops: PathOps, e: WalkEntry, output: string)
    requires ops.abs(e.path).Success? && ops.abs(e.path) == ops.abs(output)
    requires HasSuffix(e.path, ops.base(output))
    ensures Admit(ops, e, output) != Success(true)
  {
  }

  /** `Admit` records a file exactly when it is a plain file and not the output manifest. */
  lemma {:induction false} AdmitExact(ops: PathOps, e: WalkEntry, output: string)
    ensures Admit(ops, e, output) == Success(true) <==>
              && e.err.None? && !e.isDir
              && (HasSuffix(e.path, ops.base(output)) ==>
                    ops.abs(e.path).Success? && ops.abs(output).Success? && ops.abs(e.path) != ops.abs(output))
  {
  }

  // ---------------------------------------------------------------------
  // The update walk: a set of source paths

  /** The source set the `update` walk over `walk` builds, or the error that ended it. */
  function Sources(ops: PathOps, walk: seq<WalkEntry>, output: string): Result<set<string>, Error>
    decreases |walk|
  {
    if |walk| == 0 then Success({})
    else
      match Sources(ops, walk[..|walk| - 1], output)
      case Failure(e) => Failure(e)
      case Success(ps) =>
        var e := walk[|walk| - 1];
        match Admit(ops, e, output)
        case Failure(err) => Failure(err)
        case Success(keep) => Success(if keep then ps + {e.path} else ps)
  }

  /** Once the walk of a prefix fails, the whole walk fails with the same error. */
  lemma {:induction false} SourcesPrefixFailure(ops: PathOps, walk: seq<WalkEntry>, output: string, k: nat)
    requires k <= |walk| && Sources(ops, walk[..k], output).Failure?
    ensures Sources(ops, walk, output) == Sources(ops, walk[..k], output)
    decreases |walk| - k
  {
    if k < |walk| {
      assert walk[..k + 1][..k] == walk[..k];
      SourcesPrefixFailure(ops, walk, output, k + 1);
    } else {
      assert walk[..k] == walk;
    }
  }

  /** The source set holds exactly the paths of the entries `Admit` records. */
  lemma {:induction false} SourcesExact(ops: PathOps, walk: seq<WalkEntry>, output: string, p: string)
    requires Sources(ops, walk, output).Success?
    ensures p in Sources(ops, walk, output).value <==>
              exists i :: 0 <= i < |walk| && walk[i].path == p && Admit(ops, walk[i], output) == Success(true)
    decreases |walk|
  {
    if |walk| > 0 {
      var w' := walk[..|walk| - 1];
      SourcesExact(ops, w', output, p);
      assert forall i :: 0 <= i < |w'| ==> w'[i] == walk[i];
    }
  }

  /**
   * The walk fails exactly when the callback fails on some entry, and then
   * with the error of the first such entry.
   */
  lemma {:induction false} SourcesFailure(ops: PathOps, walk: seq<WalkEntry>, output: string)
    ensures Sources(ops, walk, output).Failure? <==> exists i :: 0 <= i < |walk| && Admit(ops, walk[i], output).Failure?
    ensures Sources(ops, walk, output).Failure? ==>
              exists i :: && 0 <= i < |walk|
                          && Admit(ops, walk[i], output) == Failure(Sources(ops, walk, output).error)
                          && forall j :: 0 <= j < i ==> Admit(ops, walk[j], output).Success?
    decreases |walk|
  {
    if |walk| > 0 {
      var w' := walk[..|walk| - 1];
      SourcesFailure(ops, w', output);
      assert forall i :: 0 <= i < |w'| ==> w'[i] == walk[i];
    }
  }

  /**
   * The output manifest is never a source: no recorded path has the
   * output's absolute path while ending in its base name.
   */
  lemma {:induction false} OutputNotASource(ops: PathOps, walk: seq<WalkEntry>, output: string, p: string)
    requires Sources(ops, walk, output).Success?
    requires ops.abs(p).Success? && ops.abs(p) == ops.abs(output)
    requires HasSuffix(p, ops.base(output))
    ensures p !in Sources(ops, walk, output).value
  {
    SourcesExact(ops, walk, output, p);
    forall i | 0 <= i < |walk| && walk[i].path == p ensures Admit(ops, walk[i], output) != Success(true) {
      OutputNotAdmitted(ops, walk[i], output);
    }
  }

  /** The `filepath.Walk` callback of `updateCommand`, run over the whole walk. */
  method ScanSources(ops: PathOps, walk: seq<WalkEntry>, output: string) returns (r: Result<set<string>, Error>)
    ensures r == Sources(ops, walk, output)
  {
    var sourceMap: set<string> := {};
    var i := 0;
    while i < |walk|
      invariant 0 <= i <= |walk|
      invariant Sources(ops, walk[..i], output) == Success(sourceMap)
    {
      var e := walk[i];
      assert walk[..i + 1][..i] == walk[..i];
      if e.err.Some? {
        SourcesPrefixFailure(ops, walk, output, i + 1);
        return Failure(e.err.value);
      }
      if !e.isDir {
        var skip := false;
        if HasSuffix(e.path, ops.base(output)) {
          var pathAbs := ops.abs(e.path);
          if pathAbs.Failure? {
            SourcesPrefixFailure(ops, walk, output, i + 1);
            return Failure(pathAbs.error);
          }
          var outputAbs := ops.abs(output);
          if outputAbs.Failure? {
            SourcesPrefixFailure(ops, walk, output, i + 1);
            return Failure(outputAbs.error);
          }
          skip := pathAbs.value == outputAbs.value;
        }
        if !skip {
          sourceMap := sourceMap + {e.path};
        }
      }
      i := i + 1;
    }
    assert walk[..i] == walk;
    return Success(sourceMap);
  }

  // ---------------------------------------------------------------------
  // The new walk: hashed entries

  /**
   * The entries the `new` walk over `walk` collects, in walk order, or the
   * error that ended it: each recorded file is hashed, and a hashing error
   * ends the walk.
   */
  function Hashed(ops: PathOps, walk: seq<WalkEntry>, output: string, md5: Hasher): Result<seq<Checksum>, Error>
    decreases |walk|
  {
    if |walk| == 0 then Success([])
    else
      match Hashed(ops, walk[..|walk| - 1], output, md5)
      case Failure(e) => Failure(e)
      case Success(sums) =>
        var e := walk[|walk| - 1];
        match Admit(ops, e, output)
        case Failure(err) => Failure(err)
        case Success(keep) =>
          if !keep then Success(sums)
          else
            match md5(e.path)
            case Failure(err) => Failure(err)
            case Success(hash) => Success(sums + [Checksum(hash, e.path)])
  }

  /** Once the walk of a prefix fails, the whole walk fails with the same error. */
  lemma {:induction false} HashedPrefixFailure(ops: PathOps, walk: seq<WalkEntry>, output: string, md5: Hasher, k: nat)
    requires k <= |walk| && Hashed(ops, walk[..k], output, md5).Failure?
    ensures Hashed(ops, walk, output, md5) == Hashed(ops, walk[..k], output, md5)
    decreases |walk| - k
  {
    if k < |walk| {
      assert walk[..k + 1][..k] == walk[..k];
      HashedPrefixFailure(ops, walk, output, md5, k + 1);
    } else {
      assert walk[..k] == walk;
    }
  }

  /**
   * The two walks record the same files: when the `new` walk succeeds, the
   * `update` walk over the same entries succeeds with exactly the paths of
   * the collected entries, and every collected hash is the hash of its path.
   */
  lemma {:induction false} HashedAgreesWithSources(ops: PathOps, walk: seq<WalkEntry>, output: string, md5: Hasher)
    requires Hashed(ops, walk, output, md5).Success?
    ensures var sums := Hashed(ops, walk, output, md5).value;
            && Sources(ops, walk, output) == Success(set c | c in sums :: c.path)
            && forall i :: 0 <= i < |sums| ==> md5(sums[i].path) == Success(sums[i].hash)
    decreases |walk|
  {
    if |walk| > 0 {
      var w' := walk[..|walk| - 1];
      HashedAgreesWithSources(ops, w', output, md5);
      var sums' := Hashed(ops, w', output, md5).value;
      var sums := Hashed(ops, walk, output, md5).value;
      var e := walk[|walk| - 1];
      var keep := Admit(ops, e, output).value;
      var ps := Sources(ops, w', output).value;
      assert Sources(ops, walk, output) == Success(if keep then ps + {e.path} else ps);
      if keep {
        assert sums == sums' + [Checksum(md5(e.path).value, e.path)];
        assert (set c | c in sums :: c.path) == (set c | c in sums' :: c.path) + {e.path};
      } else {
        assert sums == sums';
      }
    } else {
      var sums := Hashed(ops, walk, output, md5).value;
      assert sums == [];
      assert (set c | c in sums :: c.path) == {};
    }
  }

  /**
   * The output manifest is never among the entries the `new` walk
   * collects: the exclusion applies to `new` as it does to `update`.
   */
  lemma {:induction false} OutputNotHashed(ops: PathOps, walk: seq<WalkEntry>, output: string, md5: Hasher, p: string)
    requires Hashed(ops, walk, output, md5).Success?
    requires ops.abs(p).Success? && ops.abs(p) == ops.abs(output)
    requires HasSuffix(p, ops.base(output))
    ensures forall c :: c in Hashed(ops, walk, output, md5).value ==> c.path != p
  {
    HashedAgreesWithSources(ops, walk, output, md5);
    OutputNotASource(ops, walk, output, p);
  }

  /** The `filepath.Walk` callback of `newCommand`, run over the whole walk. */
  method ScanNew(ops: PathOps, walk: seq<WalkEntry>, output: string, md5: Hasher) returns (r: Result<seq<Checksum>, Error>)
    ensures r == Hashed(ops, walk, output, md5)
  {
    var sums: seq<Checksum> := [];
    var i := 0;
    while i < |walk|
      invariant 0 <= i <= |walk|
      invariant Hashed(ops, walk[..i], output, md5) == Success(sums)
    {
      var e := walk[i];
      assert walk[..i + 1][..i] == walk[..i];
      if e.err.Some? {
        HashedPrefixFailure(ops, walk, output, md5, i + 1);
        return Failure(e.err.value);
      }
      if !e.isDir {
        var skip := false;
        if HasSuffix(e.path, ops.base(output)) {
          var pathAbs := ops.abs(e.path);
          if pathAbs.Failure? {
            HashedPrefixFailure(ops, walk, output, md5, i + 1);
            return Failure(pathAbs.error);
          }
          var outputAbs := ops.abs(output);
          if outputAbs.Failure? {
            HashedPrefixFailure(ops, walk, output, md5, i + 1);
            return Failure(outputAbs.error);
          }
          skip := pathAbs.value == outputAbs.value;
        }
        if !skip {
          var hash := md5(e.path);
          if hash.Failure? {
            HashedPrefixFailure(ops, walk, output, md5, i + 1);
            return Failure(hash.error);
          }
          sums := sums + [Checksum(hash.value, e.path)];
        }
      }
      i := i + 1;
    }
    assert walk[..i] == walk;
    return Success(sums);
  }
}
