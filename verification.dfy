/**
 * Checking one manifest (`verifyFile`): every entry is re-hashed, and the
 * report is a single OK line when all entries hold, or an ER header once
 * followed by one line per entry that does not.
 *
 * The report is modelled as the sequence of lines printed, without their
 * colour and layout.
 */
module Verification {
  import opened Wrappers
  import opened Platform
  import opened Checksums
  import opened Manifest
  import opened GoStrings

  /** One printed line of a verification report. */
  datatype ReportLine =
    | ReadError(err: Error)      // the manifest could not be read
    | Passed(manifest: string)   // " OK: <manifest>"
    | Failed(manifest: string)   // " ER: <manifest>", printed once before the entry lines
    | EntryError(path: string)   // "   Error: <path>": hashing the file failed
    | EntryInvalid(path: string) // "   Invalid: <path>": the file's hash differs

  /** The line reported for an entry that does not hold. */
  function Finding(c: Checksum, v: Verdict): ReportLine {
    if v.err.Some? then EntryError(c.path) else EntryInvalid(c.path)
  }

  /** The entry lines for `sums`, in order: one for each entry that is not valid. */
  function Findings(sums: seq<Checksum>, md5: Hasher): seq<ReportLine> {
    if |sums| == 0 then []
    else
      var c := sums[|sums| - 1];
      var v := c.Verify(md5);
      Findings(sums[..|sums| - 1], md5) + (if v.valid then [] else [Finding(c, v)])
  }

  /** The report for the entries `sums` of the manifest at `path`. */
  function EntriesReport(path: string, sums: seq<Checksum>, md5: Hasher): seq<ReportLine> {
    var findings := Findings(sums, md5);
    if |findings| == 0 then [Passed(path)] else [Failed(path)] + findings
  }

  /** The report for the manifest at `path`, where `read` is what reading it gave. */
  function Report(ops: PathOps, path: string, read: Result<string, Error>, md5: Hasher): seq<ReportLine> {
    match read
    case Failure(e) => [ReadError(e)]
    case Success(data) => EntriesReport(path, ParseManifest(ops, path, data), md5)
  }

  /** `verifyFile`: read the manifest, verify each entry in turn and report. */
  method VerifyFile(ops: PathOps, path: string, read: Result<string, Error>, md5: Hasher) returns (report: seq<ReportLine>)
    ensures report == Report(ops, path, read, md5)
  {
    var sums := ReadFile(ops, path, read);
    if sums.Failure? {
      return [ReadError(sums.error)];
    }
    report := VerifyEntries(path, sums.value, md5);
  }

  /** The loop of `verifyFile` over the entries read, with its `hasErrors` flag. */
  method VerifyEntries(path: string, sums: seq<Checksum>, md5: Hasher) returns (report: seq<ReportLine>)
    ensures report == EntriesReport(path, sums, md5)
  {
    report := [];
    var hasErrors := false;
    var i := 0;
    while i < |sums|
      invariant 0 <= i <= |sums|
      invariant hasErrors <==> |Findings(sums[..i], md5)| > 0
      invariant report == (if hasErrors then [Failed(path)] else []) + Findings(sums[..i], md5)
    {
      var c := sums[i];
      FindingsStep(sums, i, md5);
      var v := c.Verify(md5);
      if !v.valid {
        ghost var header := [Failed(path)];
        if !hasErrors {
          hasErrors := true;
          report := report + [Failed(path)];
        }
        SeqAssoc(header, Findings(sums[..i], md5), [Finding(c, v)]);
        if v.err.Some? {
          report := report + [EntryError(c.path)];
        } else {
          report := report + [EntryInvalid(c.path)];
        }
      }
      i := i + 1;
    }
    assert sums[..i] == sums;
    if !hasErrors {
      report := report + [Passed(path)];
    }
  }

  /** One more entry adds its line, if it has one, at the end. */
  lemma {:induction false} FindingsStep(sums: seq<Checksum>, i: nat, md5: Hasher)
    requires i < |sums|
    ensures var v := sums[i].Verify(md5);
            Findings(sums[..i + 1], md5) == Findings(sums[..i], md5) + (if v.valid then [] else [Finding(sums[i], v)])
  {
    assert sums[..i + 1][..i] == sums[..i];
  }

  // ---------------------------------------------------------------------
  // Properties

  /**
   * Each entry line belongs to an entry that is not valid, and each entry
   * that is not valid has its line: Error when hashing failed, Invalid
   * otherwise.
   */
  lemma {:induction false} FindingsExact(sums: seq<Checksum>, md5: Hasher, line: ReportLine)
    ensures line in Findings(sums, md5) <==>
              exists i :: 0 <= i < |sums| && !sums[i].Verify(md5).valid && line == Finding(sums[i], sums[i].Verify(md5))
    decreases |sums|
  {
    if |sums| > 0 {
      var init := sums[..|sums| - 1];
      FindingsExact(init, md5, line);
      assert forall i :: 0 <= i < |init| ==> init[i] == sums[i];
    }
  }

  /** There are no entry lines exactly when every entry is valid. */
  lemma {:induction false} NoFindingsIffAllValid(sums: seq<Checksum>, md5: Hasher)
    ensures |Findings(sums, md5)| == 0 <==> forall i :: 0 <= i < |sums| ==> sums[i].Verify(md5).valid
    decreases |sums|
  {
    if |sums| > 0 {
      var init := sums[..|sums| - 1];
      NoFindingsIffAllValid(init, md5);
      assert forall i :: 0 <= i < |init| ==> init[i] == sums[i];
    }
  }

  /** Entry lines are only ever Error or Invalid lines. */
  lemma {:induction false} FindingsAreEntryLines(sums: seq<Checksum>, md5: Hasher)
    ensures forall k :: 0 <= k < |Findings(sums, md5)| ==> Findings(sums, md5)[k].EntryError? || Findings(sums, md5)[k].EntryInvalid?
    decreases |sums|
  {
    if |sums| > 0 {
      FindingsAreEntryLines(sums[..|sums| - 1], md5);
    }
  }

  /**
   * The entries of a readable manifest are reported OK exactly when every
   * entry is valid; otherwise the ER header comes first and appears only
   * once.
   */
  lemma {:induction false} ReportOutcome(path: string, sums: seq<Checksum>, md5: Hasher)
    ensures var report := EntriesReport(path, sums, md5);
            && (report == [Passed(path)] <==> forall i :: 0 <= i < |sums| ==> sums[i].Verify(md5).valid)
            && (report != [Passed(path)] ==>
                  report[0] == Failed(path) && forall k :: 0 < k < |report| ==> !report[k].Failed?)
  {
    NoFindingsIffAllValid(sums, md5);
    FindingsAreEntryLines(sums, md5);
  }
}
