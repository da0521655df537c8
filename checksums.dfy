/**
 * Manifest entries, their verification against a fresh hash, and the order
 * in which a manifest lists them.
 */
module Checksums {
  import opened Wrappers
  import opened Platform
  import opened GoStrings

  /** The outcome of verifying one entry: Go's `(bool, error)` pair. */
  datatype Verdict = Verdict(valid: bool, err: Option<Error>)

  /** One manifest entry: the recorded hash and the path of the file it describes. */
  datatype Checksum = Checksum(hash: string, path: string) {

    /**
     * `Checksum.String`: the entry as a manifest line, without its line
     * break: a 32-character hash fills the first 32 characters, " *"
     * follows, and the path is the rest.
     */
    function ToString(): (r: string)
      ensures |r| == |hash| + 2 + |path|
      ensures |hash| == 32 ==> r[..32] == hash && r[32..34] == " *" && r[34..] == path
    {
      hash + " *" + path
    }

    /**
     * `Checksum.Verify`: hash the file again. A failure to open or read it
     * gives `(false, err)`; otherwise the entry is valid exactly when the
     * recorded hash is, character for character, the fresh one.
     */
    function Verify(md5: Hasher): (r: Verdict)
      ensures r.err.Some? <==> md5(path).Failure?
      ensures r.err.Some? ==> r.err.value == md5(path).error
      ensures r.valid ==> r.err.None?
      ensures r.valid <==> md5(path) == Success(hash)
    {
      match md5(path)
      case Failure(e) => Verdict(false, Some(e))
      case Success(newHash) => if hash == newHash then Verdict(true, None) else Verdict(false, None)
    }
  }

  predicate IsHexDigit(c: char) {
    '0' <= c <= '9' || 'a' <= c <= 'f' || 'A' <= c <= 'F'
  }

  /** 32 hexadecimal digits of either case: the hash part of a manifest line. */
  predicate IsDigest(h: string) {
    |h| == 32 && forall i :: 0 <= i < |h| ==> IsHexDigit(h[i])
  }

  /** What `fmt.Sprintf("%x", ...)` makes of an MD5 sum: 32 lower-case hexadecimal digits. */
  predicate IsLowerDigest(h: string) {
    |h| == 32 && forall i :: 0 <= i < |h| ==> '0' <= h[i] <= '9' || 'a' <= h[i] <= 'f'
  }

  /**
   * The hasher formats digests in lower case, so a recorded hash with an
   * upper-case digit never verifies, even for an unchanged file.
   */
  lemma {:induction false} UpperCaseHashNeverValid(c: Checksum, md5: Hasher, i: nat)
    requires md5(c.path).Success? ==> IsLowerDigest(md5(c.path).value)
    requires i < |c.hash| && 'A' <= c.hash[i] <= 'F'
    ensures !c.Verify(md5).valid
  {
  }

  /** `Verify` has exactly three outcomes: an error, a mismatch, or a match. */
  lemma {:induction false} VerifyOutcomes(c: Checksum, md5: Hasher)
    ensures var v := c.Verify(md5);
      || (md5(c.path).Failure? && v == Verdict(false, Some(md5(c.path).error)))
      || (md5(c.path).Success? && md5(c.path).value != c.hash && v == Verdict(false, None))
      || (md5(c.path) == Success(c.hash) && v == Verdict(true, None))
  {
  }

  /** The key an entry is sorted by: its directory, then its full path, both lower-cased. */
  function SortKey(ops: PathOps, c: Checksum): (string, string) {
    (ToLower(ops.dir(c.path)), ToLower(c.path))
  }

  /** The lexicographic order on sort keys: by directory first, then by path. */
  predicate KeyBelow(k: (string, string), l: (string, string)) {
    Below(k.0, l.0) || (k.0 == l.0 && Below(k.1, l.1))
  }

  /** `Checksums.Less`: `a` sorts before `b` exactly when its key is lexicographically below. */
  predicate Less(ops: PathOps, a: Checksum, b: Checksum): (r: bool)
    ensures r <==> KeyBelow(SortKey(ops, a), SortKey(ops, b))
  {
    var aDir := ToLower(ops.dir(a.path));
    var bDir := ToLower(ops.dir(b.path));
    BelowIrreflexive(aDir);
    if aDir == bDir then Below(ToLower(a.path), ToLower(b.path)) else Below(aDir, bDir)
  }

  /**
   * `Less` is the strict lexicographic order on `SortKey`: irreflexive and
   * transitive, and two entries are unordered exactly when their keys are
   * equal, which is what `sort.Sort` needs of it.
   */
  lemma {:induction false} LessIsStrictWeakOrder(ops: PathOps, a: Checksum, b: Checksum, c: Checksum)
    ensures !Less(ops, a, a)
    ensures Less(ops, a, b) ==> !Less(ops, b, a)
    ensures Less(ops, a, b) && Less(ops, b, c) ==> Less(ops, a, c)
    ensures !Less(ops, a, b) && !Less(ops, b, a) <==> SortKey(ops, a) == SortKey(ops, b)
  {
    var (ad, ap) := SortKey(ops, a);
    var (bd, bp) := SortKey(ops, b);
    var (cd, cp) := SortKey(ops, c);
    BelowIrreflexive(ap);
    BelowTotal(ad, bd);
    BelowTotal(ap, bp);
    if Less(ops, a, b) {
      if ad == bd {
        BelowAsymmetric(ap, bp);
      } else {
        BelowAsymmetric(ad, bd);
      }
    }
    if Less(ops, a, b) && Less(ops, b, c) {
      if ad == bd && bd == cd {
        BelowTransitive(ap, bp, cp);
      } else if ad != bd && bd != cd {
        BelowTransitive(ad, bd, cd);
        if ad == cd {
          BelowIrreflexive(ad);
        }
      } else if ad == bd {
        assert Below(bd, cd);
      } else {
        assert Below(ad, bd);
      }
    }
  }

  /** "Not after" is transitive: the form of transitivity the sort uses. */
  lemma {:induction false} NotLessTransitive(ops: PathOps, a: Checksum, b: Checksum, c: Checksum)
    requires !Less(ops, b, a) && !Less(ops, c, b)
    ensures !Less(ops, c, a)
  {
    LessIsStrictWeakOrder(ops, c, a, b);
    LessIsStrictWeakOrder(ops, a, b, c);
    LessIsStrictWeakOrder(ops, b, c, a);
    LessIsStrictWeakOrder(ops, c, b, a);
    LessIsStrictWeakOrder(ops, a, c, b);
  }

  /** No entry comes after a later one. */
  ghost predicate Sorted(ops: PathOps, s: seq<Checksum>) {
    forall i, j :: 0 <= i < j < |s| ==> !Less(ops, s[j], s[i])
  }

  /** No two entries share a sort key: no two paths are equal ignoring case. */
  ghost predicate DistinctKeys(ops: PathOps, s: seq<Checksum>) {
    forall i, j :: 0 <= i < j < |s| ==> SortKey(ops, s[i]) != SortKey(ops, s[j])
  }

  /** Two sorted arrangements of the same entries, with distinct keys, start alike. */
  lemma {:induction false} SortedHeadsAgree(ops: PathOps, s: seq<Checksum>, t: seq<Checksum>)
    requires Sorted(ops, s) && Sorted(ops, t)
    requires multiset(s) == multiset(t)
    requires DistinctKeys(ops, s)
    requires |s| > 0 && |t| > 0
    ensures s[0] == t[0]
  {
    assert s[0] in multiset(t);
    var k :| 0 <= k < |t| && t[k] == s[0];
    assert t[0] in multiset(s);
    var m :| 0 <= m < |s| && s[m] == t[0];
    if k != 0 && m != 0 {
      assert !Less(ops, t[k], t[0]);
      assert !Less(ops, s[m], s[0]);
      LessIsStrictWeakOrder(ops, s[0], t[0], s[0]);
    }
  }

  /**
   * The sorted order is determined by the entries alone when no two of them
   * share a key: two sorted arrangements of the same entries are equal. With
   * paths that differ only in case, `sort.Sort` may order them either way.
   */
  lemma {:induction false} SortedArrangementUnique(ops: PathOps, s: seq<Checksum>, t: seq<Checksum>)
    requires Sorted(ops, s) && Sorted(ops, t)
    requires multiset(s) == multiset(t)
    requires DistinctKeys(ops, s)
    ensures s == t
    decreases |s|
  {
    assert |s| == |multiset(s)| == |multiset(t)| == |t|;
    if |s| > 0 {
      SortedHeadsAgree(ops, s, t);
      SameTails(s, t);
      SortedTail(ops, s);
      SortedTail(ops, t);
      SortedArrangementUnique(ops, s[1..], t[1..]);
      assert s == [s[0]] + s[1..] && t == [t[0]] + t[1..];
    }
  }

  /** Removing the same first entry from equal multisets leaves equal multisets. */
  lemma {:induction false} SameTails(s: seq<Checksum>, t: seq<Checksum>)
    requires multiset(s) == multiset(t) && |s| > 0 && |t| > 0 && s[0] == t[0]
    ensures multiset(s[1..]) == multiset(t[1..])
  {
    assert s == [s[0]] + s[1..] && t == [t[0]] + t[1..];
    assert multiset(s) == multiset{s[0]} + multiset(s[1..]);
    assert multiset(t) == multiset{t[0]} + multiset(t[1..]);
    assert multiset(s[1..]) == multiset(s) - multiset{s[0]};
    assert multiset(t[1..]) == multiset(t) - multiset{t[0]};
  }

  /** Dropping the first entry keeps a sequence sorted with distinct keys. */
  lemma {:induction false} SortedTail(ops: PathOps, s: seq<Checksum>)
    requires |s| > 0 && Sorted(ops, s)
    ensures Sorted(ops, s[1..])
    ensures DistinctKeys(ops, s) ==> DistinctKeys(ops, s[1..])
  {
    assert forall i :: 0 <= i < |s| - 1 ==> s[1..][i] == s[i + 1];
  }

  /** `Checksums.Swap`: exchange two entries in place. */
  method Swap(a: array<Checksum>, i: nat, j: nat)
    requires i < a.Length && j < a.Length
    modifies a
    ensures a[..] == old(a[..])[i := old(a[j])][j := old(a[i])]
    ensures multiset(a[..]) == old(multiset(a[..]))
  {
    a[i], a[j] := a[j], a[i];
  }

  /**
   * The in-place sort `writeFile` asks of `sort.Sort`, by `Less` and `Swap`
   * alone: afterwards the entries are in order and are the same entries.
   */
  method Sort(ops: PathOps, a: array<Checksum>)
    modifies a
    ensures Sorted(ops, a[..])
    ensures multiset(a[..]) == old(multiset(a[..]))
  {
    var i := 0;
    while i < a.Length
      invariant 0 <= i <= a.Length
      invariant Sorted(ops, a[..i])
      invariant multiset(a[..]) == old(multiset(a[..]))
    {
      var j := i;
      SortedPrefixInserting(ops, a[..], i);
      while j > 0 && Less(ops, a[j], a[j - 1])
        invariant 0 <= j <= i
        invariant Inserting(ops, a[..], i, j)
        invariant multiset(a[..]) == old(multiset(a[..]))
      {
        InsertingStep(ops, a[..], i, j);
        Swap(a, j, j - 1);
        j := j - 1;
      }
      InsertingDone(ops, a[..], i, j);
      i := i + 1;
    }
    assert a[..a.Length] == a[..];
  }

  /**
   * The state of insertion while entry `j` moves down into the sorted
   * `s[..i + 1]`: apart from position `j` the prefix is in order, and the
   * moving entry comes before everything above it.
   */
  ghost predicate Inserting(ops: PathOps, s: seq<Checksum>, i: nat, j: nat) {
    && j <= i < |s|
    && (forall k, l :: 0 <= k < l <= i && k != j && l != j ==> !Less(ops, s[l], s[k]))
    && (forall l :: j < l <= i ==> Less(ops, s[j], s[l]))
  }

  /** Insertion of entry `i` starts from a sorted `s[..i]`. */
  lemma {:induction false} SortedPrefixInserting(ops: PathOps, s: seq<Checksum>, i: nat)
    requires i < |s| && Sorted(ops, s[..i])
    ensures Inserting(ops, s, i, i)
  {
    forall k, l | 0 <= k < l <= i && k != i && l != i ensures !Less(ops, s[l], s[k]) {
      assert s[..i][k] == s[k] && s[..i][l] == s[l];
    }
  }

  /** Exchanging the moving entry with a larger one below it keeps the insertion state. */
  lemma {:induction false} InsertingStep(ops: PathOps, s: seq<Checksum>, i: nat, j: nat)
    requires Inserting(ops, s, i, j) && 0 < j && Less(ops, s[j], s[j - 1])
    ensures Inserting(ops, s[j := s[j - 1]][j - 1 := s[j]], i, j - 1)
  {
  }

  /** Once the moving entry has stopped, `s[..i + 1]` is sorted. */
  lemma {:induction false} InsertingDone(ops: PathOps, s: seq<Checksum>, i: nat, j: nat)
    requires Inserting(ops, s, i, j) && !(j > 0 && Less(ops, s[j], s[j - 1]))
    ensures Sorted(ops, s[..i + 1])
  {
    forall k, l | 0 <= k < l <= i ensures !Less(ops, s[l], s[k]) {
      if l == j && k < j - 1 {
        NotLessTransitive(ops, s[k], s[j - 1], s[j]);
      } else if k == j {
        LessIsStrictWeakOrder(ops, s[j], s[l], s[j]);
      }
    }
  }
}
