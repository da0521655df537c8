/**
 * The manifest text format: reading a manifest into a sequence of entries
 * (`readFile`) or a map keyed by path (`readFileToMap`), and writing
 * entries back as text (`writeFile`).
 *
 * A manifest line is 32 hexadecimal digits, a space, an asterisk and a
 * path. A relative path is relative to the manifest's own directory.
 */
module Manifest {
  import opened Wrappers
  import opened Platform
  import opened GoStrings
  import opened Checksums

  // ---------------------------------------------------------------------
  // Lines

  /** The lines of a manifest: CR LF pairs become LF, then the text is split at each LF. */
  function Lines(data: string): seq<string> {
    Split(ReplaceCRLF(data), "\n")
  }

  /** `s` without one trailing CR, if it has one. */
  function DropCR(s: string): string {
    if |s| > 0 && s[|s| - 1] == '\r' then s[..|s| - 1] else s
  }

  /** Every piece but the last loses one trailing CR: those are the pieces an LF followed. */
  function DropCRs(pieces: seq<string>): seq<string> {
    if |pieces| <= 1 then pieces else [DropCR(pieces[0])] + DropCRs(pieces[1..])
  }

  /**
   * The lines a manifest is read as are its raw LF-separated lines, each
   * line that ends at an LF losing one CR before it. The last piece, which
   * no LF ends, keeps its CR.
   */
  lemma {:induction false} LinesAreRawLinesWithoutCR(data: string)
    ensures Lines(data) == DropCRs(Split(data, "\n"))
    decreases |data|
  {
    IndexSpec(data, "\n");
    match Index(data, "\n")
    case None =>
      SplitNone(data, "\n");
      assert '\n' !in data by {
        forall j: nat | j < |data| ensures data[j] != '\n' {
          OccursChar(data, '\n', j);
        }
      }
      NoLineBreak(data);
      ReplaceWithoutLF(data);
      SplitNone(ReplaceCRLF(data), "\n");
    case Some(i) =>
      var u, v := data[..i], data[i + 1..];
      assert data == u + "\n" + v;
      assert '\n' !in u by {
        forall j: nat | j < |u| ensures u[j] != '\n' {
          OccursChar(data, '\n', j);
        }
      }
      SplitAt(data, "\n", i);
      LinesAreRawLinesWithoutCR(v);
      FirstLine(u, v);
  }

  /** Text without an LF does not contain "\n". */
  lemma {:induction false} NoLineBreak(s: string)
    requires '\n' !in s
    ensures !Contains(s, "\n")
  {
    forall j: nat | j <= |s| ensures !OccursAt(s, "\n", j) {
      OccursChar(s, '\n', j);
    }
  }

  /** The first line of text whose first LF ends `u` is `u` without a trailing CR. */
  lemma {:induction false} FirstLine(u: string, v: string)
    requires '\n' !in u
    ensures Lines(u + "\n" + v) == [DropCR(u)] + Lines(v)
  {
    var w := DropCR(u);
    assert '\n' !in w;
    NoLineBreak(w);
    SplitNone(w, "\n");
    ReplaceFirstLine(u, v);
    SplitOnChar(w, '\n', ReplaceCRLF(v));
  }

  /** Replacing CR LF in text whose first LF ends `u` drops a CR at the end of `u`. */
  lemma {:induction false} ReplaceFirstLine(u: string, v: string)
    requires '\n' !in u
    ensures ReplaceCRLF(u + "\n" + v) == DropCR(u) + "\n" + ReplaceCRLF(v)
  {
    var w := DropCR(u);
    assert '\n' !in w;
    ReplaceWithoutLF(w);
    if |u| > 0 && u[|u| - 1] == '\r' {
      assert u + "\n" + v == w + ("\r\n" + v);
      ReplaceAppend(w, "\r\n" + v);
      ReplaceLeadingCRLF(v);
    } else {
      assert u + "\n" + v == w + ("\n" + v);
      ReplaceAppend(w, "\n" + v);
      ReplaceLeadingLF(v);
    }
  }

  // ---------------------------------------------------------------------
  // Parsing

  /** `^[0-9a-fA-F]{32} \*.*$`: 32 hexadecimal digits, " *", then anything but a line break. */
  predicate MatchesEntry(line: string) {
    && |line| >= 34
    && IsDigest(line[..32])
    && line[32] == ' ' && line[33] == '*'
    && '\n' !in line[34..]
  }

  /** A recorded path as the tool uses it: an absolute path as it is, a relative one joined onto `dir`. */
  function Resolve(ops: PathOps, dir: string, p: string): string {
    if ops.isAbs(p) then p else ops.join(dir, p)
  }

  /** A matching line splits at " *" into the hash and the text up to the next " *", if any. */
  lemma {:induction false} SplitEntryLine(line: string)
    requires MatchesEntry(line)
    ensures |Split(line, " *")| >= 2
    ensures Split(line, " *")[0] == line[..32]
    ensures Split(line, " *")[1] == Before(line[34..], " *")
  {
    assert line[32..34] == " *";
    forall j: nat | j < 32 ensures !OccursAt(line, " *", j) {
      assert IsHexDigit(line[..32][j]);
    }
    IndexIs(line, " *", 32);
    SplitAt(line, " *", 32);
    SplitFirst(line[34..], " *");
  }

  /**
   * What one line of a manifest contributes: an entry exactly when the line
   * matches the entry pattern, with the first 32 characters as its hash and
   * the text after " *" up to the next " *", resolved against `dir`, as its
   * path (`SplitEntryLine` shows that `strings.Split` gives these pieces).
   */
  function ParseLine(ops: PathOps, dir: string, line: string): Option<Checksum> {
    if MatchesEntry(line) then Some(Checksum(line[..32], Resolve(ops, dir, Before(line[34..], " *"))))
    else None
  }

  /** The entries of a sequence of lines, in order; lines that do not match are skipped. */
  function ParseLines(ops: PathOps, dir: string, lines: seq<string>): seq<Checksum> {
    FlatMap(LineParser(ops, dir), lines)
  }

  /** The entry of one line as a sequence of zero or one entries. */
  function Parsed(ops: PathOps, dir: string, line: string): seq<Checksum> {
    match ParseLine(ops, dir, line)
    case None => []
    case Some(c) => [c]
  }

  /** `Parsed` for the manifests of directory `dir`, as a function of the line. */
  function LineParser(ops: PathOps, dir: string): string -> seq<Checksum> {
    line => Parsed(ops, dir, line)
  }

  /** The results of `f` on each element of `xs`, concatenated in order. */
  function FlatMap<A, B>(f: A -> seq<B>, xs: seq<A>): seq<B> {
    if |xs| == 0 then []
    else FlatMap(f, xs[..|xs| - 1]) + f(xs[|xs| - 1])
  }

  lemma {:induction false} FlatMapAppend<A, B>(f: A -> seq<B>, xs: seq<A>, ys: seq<A>)
    ensures FlatMap(f, xs + ys) == FlatMap(f, xs) + FlatMap(f, ys)
    decreases |ys|
  {
    if |ys| == 0 {
      assert xs + ys == xs;
    } else {
      var ys' := ys[..|ys| - 1];
      var zs := xs + ys;
      assert zs[..|zs| - 1] == xs + ys';
      assert zs[|zs| - 1] == ys[|ys| - 1];
      FlatMapAppend(f, xs, ys');
      SeqAssoc(FlatMap(f, xs), FlatMap(f, ys'), f(ys[|ys| - 1]));
    }
  }

  /** The entries `readFile` finds in manifest text `data` stored at `path`. */
  function ParseManifest(ops: PathOps, path: string, data: string): seq<Checksum> {
    ParseLines(ops, ops.dir(path), Lines(data))
  }

  lemma {:induction false} ParseLinesAppend(ops: PathOps, dir: string, x: seq<string>, y: seq<string>)
    ensures ParseLines(ops, dir, x + y) == ParseLines(ops, dir, x) + ParseLines(ops, dir, y)
  {
    FlatMapAppend(LineParser(ops, dir), x, y);
  }

  lemma {:induction false} ParseLinesNoMatch(ops: PathOps, dir: string, lines: seq<string>)
    requires forall i :: 0 <= i < |lines| ==> !MatchesEntry(lines[i])
    ensures ParseLines(ops, dir, lines) == []
    decreases |lines|
  {
    if |lines| > 0 {
      ParseLinesNoMatch(ops, dir, lines[..|lines| - 1]);
    }
  }

  /** An entry is read from `lines` exactly when some line matches and yields it. */
  lemma {:induction false} ParseLinesExact(ops: PathOps, dir: string, lines: seq<string>, c: Checksum)
    ensures c in ParseLines(ops, dir, lines) <==>
              exists i :: 0 <= i < |lines| && MatchesEntry(lines[i]) && ParseLine(ops, dir, lines[i]) == Some(c)
    decreases |lines|
  {
    if |lines| > 0 {
      var init := lines[..|lines| - 1];
      ParseLinesExact(ops, dir, init, c);
      assert forall i :: 0 <= i < |init| ==> init[i] == lines[i];
      assert ParseLines(ops, dir, lines) == ParseLines(ops, dir, init) + Parsed(ops, dir, lines[|lines| - 1]);
    }
  }

  /**
   * Lines that do not match are skipped silently: a manifest with one
   * matching line among blank, comment or malformed ones has exactly the
   * entry of that line.
   */
  lemma {:induction false} OnlyMatchingLineCounts(ops: PathOps, dir: string, lines: seq<string>, k: nat)
    requires k < |lines| && MatchesEntry(lines[k])
    requires forall i :: 0 <= i < |lines| && i != k ==> !MatchesEntry(lines[i])
    ensures ParseLines(ops, dir, lines) == [ParseLine(ops, dir, lines[k]).value]
  {
    assert lines == lines[..k] + [lines[k]] + lines[k + 1..];
    ParseLinesAppend(ops, dir, lines[..k] + [lines[k]], lines[k + 1..]);
    ParseLinesAppend(ops, dir, lines[..k], [lines[k]]);
    ParseLinesNoMatch(ops, dir, lines[..k]);
    ParseLinesNoMatch(ops, dir, lines[k + 1..]);
    assert [lines[k]][..0] == [];
  }

  /**
   * `readFile`: read the manifest at `path` (`read` is what reading the
   * file gave) into its entries, keeping duplicates, in file order. Only a
   * read error is an error.
   */
  method ReadFile(ops: PathOps, path: string, read: Result<string, Error>) returns (r: Result<seq<Checksum>, Error>)
    ensures read.Failure? ==> r == Failure(read.error)
    ensures read.Success? ==> r == Success(ParseManifest(ops, path, read.value))
  {
    if read.Failure? {
      return Failure(read.error);
    }
    var dir := ops.dir(path);
    var lines := Lines(read.value);
    var sums: seq<Checksum> := [];
    var i := 0;
    while i < |lines|
      invariant 0 <= i <= |lines|
      invariant sums == ParseLines(ops, dir, lines[..i])
    {
      var line := lines[i];
      assert lines[..i + 1][..i] == lines[..i];
      if |line| > 0 && MatchesEntry(line) {
        SplitEntryLine(line);
        var split := Split(line, " *");
        var p := split[1];
        if !ops.isAbs(p) {
          p := ops.join(dir, p);
        }
        sums := sums + [Checksum(split[0], p)];
      }
      i := i + 1;
    }
    assert lines[..i] == lines;
    return Success(sums);
  }

  // ---------------------------------------------------------------------
  // The map form

  /** Entries keyed by path, a later entry replacing an earlier one with the same path. */
  function ToMap(s: seq<Checksum>): (m: map<string, Checksum>)
    ensures forall p :: p in m ==> m[p].path == p
    ensures forall i :: 0 <= i < |s| ==> s[i].path in m
  {
    if |s| == 0 then map[]
    else
      var last := s[|s| - 1];
      ToMap(s[..|s| - 1])[last.path := last]
  }

  /** Every value in the map is one of the entries it was built from. */
  lemma {:induction false} ToMapFromEntries(s: seq<Checksum>, p: string)
    requires p in ToMap(s)
    ensures exists i :: 0 <= i < |s| && s[i] == ToMap(s)[p]
    decreases |s|
  {
    var last := s[|s| - 1];
    if p != last.path {
      ToMapFromEntries(s[..|s| - 1], p);
      var i :| 0 <= i < |s| - 1 && s[..|s| - 1][i] == ToMap(s[..|s| - 1])[p];
      assert s[i] == ToMap(s)[p];
    } else {
      assert s[|s| - 1] == ToMap(s)[p];
    }
  }

  /** When several entries share a path, the map holds the last of them. */
  lemma {:induction false} ToMapLastWins(s: seq<Checksum>, i: nat)
    requires i < |s|
    requires forall j :: i < j < |s| ==> s[j].path != s[i].path
    ensures ToMap(s)[s[i].path] == s[i]
    decreases |s|
  {
    if i < |s| - 1 {
      ToMapLastWins(s[..|s| - 1], i);
    }
  }

  /**
   * `readFileToMap`: read the manifest at `path` into a map from each
   * resolved path to its entry; of several lines with the same resolved
   * path the last one wins.
   */
  method ReadFileToMap(ops: PathOps, path: string, read: Result<string, Error>)
    returns (r: Result<map<string, Checksum>, Error>)
    ensures read.Failure? ==> r == Failure(read.error)
    ensures read.Success? ==> r == Success(ToMap(ParseManifest(ops, path, read.value)))
  {
    if read.Failure? {
      return Failure(read.error);
    }
    var dir := ops.dir(path);
    var checksumMap: map<string, Checksum> := map[];
    var lines := Lines(read.value);
    ghost var sums: seq<Checksum> := [];
    var i := 0;
    while i < |lines|
      invariant 0 <= i <= |lines|
      invariant sums == ParseLines(ops, dir, lines[..i])
      invariant checksumMap == ToMap(sums)
    {
      var line := lines[i];
      assert lines[..i + 1][..i] == lines[..i];
      if |line| > 0 && MatchesEntry(line) {
        SplitEntryLine(line);
        var split := Split(line, " *");
        var p := split[1];
        if !ops.isAbs(p) {
          p := ops.join(dir, p);
        }
        var c := Checksum(split[0], p);
        ToMapSnoc(sums, c);
        sums := sums + [c];
        checksumMap := checksumMap[p := c];
      }
      i := i + 1;
    }
    assert lines[..i] == lines;
    return Success(checksumMap);
  }

  lemma {:induction false} ToMapSnoc(s: seq<Checksum>, c: Checksum)
    ensures ToMap(s + [c]) == ToMap(s)[c.path := c]
  {
    assert (s + [c])[..|s|] == s;
  }

  // ---------------------------------------------------------------------
  // Writing

  /** How `writeFile` writes a path: relative to `dir`, or else absolute. */
  function WrittenPath(ops: PathOps, dir: string, p: string): Result<string, Error> {
    match ops.rel(dir, p)
    case Success(relPath) => Success(relPath)
    case Failure(_) => ops.abs(p)
  }

  /** The manifest line of an entry whose path is written as `written`. */
  function EntryLine(hash: string, written: string): string {
    hash + " *" + written
  }

  /** The text `writeFile` builds from entries in the order given: one line per entry, each ended by LF. */
  function Render(ops: PathOps, dir: string, s: seq<Checksum>): Result<string, Error> {
    if |s| == 0 then Success("")
    else
      match Render(ops, dir, s[..|s| - 1])
      case Failure(e) => Failure(e)
      case Success(out) =>
        match WrittenPath(ops, dir, s[|s| - 1].path)
        case Failure(e) => Failure(e)
        case Success(w) => Success(out + EntryLine(s[|s| - 1].hash, w) + "\n")
  }

  /**
   * Writing fails exactly when some entry's path can be written neither
   * relative nor absolute, and then with the error of the first such entry.
   */
  lemma {:induction false} RenderFailure(ops: PathOps, dir: string, s: seq<Checksum>)
    ensures Render(ops, dir, s).Failure? <==> exists i :: 0 <= i < |s| && WrittenPath(ops, dir, s[i].path).Failure?
    ensures Render(ops, dir, s).Failure? ==>
              exists i :: && 0 <= i < |s|
                          && WrittenPath(ops, dir, s[i].path) == Failure(Render(ops, dir, s).error)
                          && forall j :: 0 <= j < i ==> WrittenPath(ops, dir, s[j].path).Success?
    decreases |s|
  {
    if |s| > 0 {
      var s' := s[..|s| - 1];
      RenderFailure(ops, dir, s');
      assert forall i :: 0 <= i < |s'| ==> s'[i] == s[i];
    }
  }

  /** Once a prefix fails to be written, the whole does, with the same error. */
  lemma {:induction false} RenderPrefixFailure(ops: PathOps, dir: string, s: seq<Checksum>, k: nat)
    requires k <= |s| && Render(ops, dir, s[..k]).Failure?
    ensures Render(ops, dir, s) == Render(ops, dir, s[..k])
    decreases |s| - k
  {
    if k < |s| {
      assert s[..k + 1][..k] == s[..k];
      RenderPrefixFailure(ops, dir, s, k + 1);
    } else {
      assert s[..k] == s;
    }
  }

  /**
   * `writeFile`: sort the entries in place, then write one line per entry
   * to `path`. `write` is what writing the file gave. The result is the
   * text written, or the error: the path error of the first entry that
   * cannot be written, else the write error.
   */
  method WriteFile(ops: PathOps, sums: array<Checksum>, path: string, write: Option<Error>)
    returns (r: Result<string, Error>)
    modifies sums
    ensures Sorted(ops, sums[..]) && multiset(sums[..]) == old(multiset(sums[..]))
    ensures Render(ops, ops.dir(path), sums[..]).Failure? ==> r == Failure(Render(ops, ops.dir(path), sums[..]).error)
    ensures Render(ops, ops.dir(path), sums[..]).Success? ==>
              r == if write.Some? then Failure(write.value) else Success(Render(ops, ops.dir(path), sums[..]).value)
  {
    var dir := ops.dir(path);
    Sort(ops, sums);
    var output := "";
    var i := 0;
    while i < sums.Length
      invariant 0 <= i <= sums.Length
      invariant Render(ops, dir, sums[..i]) == Success(output)
    {
      var sum := sums[i];
      assert sums[..i + 1][..i] == sums[..i];
      var relPath: string;
      match ops.rel(dir, sum.path) {
        case Success(p) =>
          relPath := p;
        case Failure(_) =>
          match ops.abs(sum.path) {
            case Failure(e) =>
              assert WrittenPath(ops, dir, sums[..i + 1][i].path) == Failure(e);
              RenderPrefixFailure(ops, dir, sums[..], i + 1);
              return Failure(e);
            case Success(p) =>
              relPath := p;
          }
      }
      output := output + EntryLine(sum.hash, relPath) + "\n";
      i := i + 1;
    }
    assert sums[..i] == sums[..];
    if write.Some? {
      return Failure(write.value);
    }
    return Success(output);
  }

  /**
   * Writing is deterministic: two sorted arrangements of the same entries,
   * no two of which differ only in the case of their paths, give the same
   * text.
   */
  lemma {:induction false} SerializationDeterministic(ops: PathOps, dir: string, s: seq<Checksum>, t: seq<Checksum>)
    requires Sorted(ops, s) && Sorted(ops, t) && multiset(s) == multiset(t)
    requires DistinctKeys(ops, s)
    ensures Render(ops, dir, s) == Render(ops, dir, t)
  {
    SortedArrangementUnique(ops, s, t);
  }

  // ---------------------------------------------------------------------
  // Round trip

  /**
   * An entry path that survives writing and reading: it can be written,
   * the written form fits on one line, holds no " *", and resolves back
   * to the path (for a relative form, `Join(dir, Rel(dir, p)) == p`).
   */
  predicate ReadsBack(ops: PathOps, dir: string, p: string) {
    var w := WrittenPath(ops, dir, p);
    && w.Success?
    && '\n' !in w.value
    && !(|w.value| > 0 && w.value[|w.value| - 1] == '\r')
    && !Contains(w.value, " *")
    && Resolve(ops, dir, w.value) == p
  }

  /** Reading one written line gives back the hash and the resolved path. */
  lemma {:induction false} LineRoundTrip(ops: PathOps, dir: string, hash: string, w: string)
    requires IsDigest(hash) && '\n' !in w && !Contains(w, " *")
    ensures ParseLine(ops, dir, EntryLine(hash, w)) == Some(Checksum(hash, Resolve(ops, dir, w)))
  {
    var line := EntryLine(hash, w);
    assert line[..32] == hash && line[34..] == w;
    assert MatchesEntry(line);
  }

  /** `Checksum.String` is a manifest line that reads back as the entry, for an absolute path. */
  lemma {:induction false} StringReadsBack(ops: PathOps, dir: string, c: Checksum)
    requires IsDigest(c.hash) && '\n' !in c.path && !Contains(c.path, " *")
    requires ops.isAbs(c.path)
    ensures ParseLine(ops, dir, c.ToString()) == Some(c)
  {
    LineRoundTrip(ops, dir, c.hash, c.path);
  }

  /** Lines, each followed by LF, one after another. */
  function Terminated(ls: seq<string>): (r: string)
    ensures r == "" || r[|r| - 1] == '\n'
  {
    if |ls| == 0 then "" else Terminated(ls[..|ls| - 1]) + ls[|ls| - 1] + "\n"
  }

  /** A line that holds no LF and does not end in CR. */
  predicate PlainLine(l: string) {
    '\n' !in l && !(|l| > 0 && l[|l| - 1] == '\r')
  }

  /** Split at LF, lines each followed by LF and then `t` give the lines and then `t`. */
  lemma {:induction false} SplitTerminated(ls: seq<string>, t: string)
    requires forall i :: 0 <= i < |ls| ==> '\n' !in ls[i]
    requires '\n' !in t
    ensures Split(Terminated(ls) + t, "\n") == ls + [t]
    decreases |ls|
  {
    NoLineBreak(t);
    SplitNone(t, "\n");
    if |ls| == 0 {
      assert Terminated(ls) + t == t;
    } else {
      var init, last := ls[..|ls| - 1], ls[|ls| - 1];
      SplitTerminated(init, last);
      assert Terminated(ls) + t == (Terminated(init) + last) + ['\n'] + t;
      SplitOnChar(Terminated(init) + last, '\n', t);
      assert ls == init + [last];
    }
  }

  /** Plain lines each followed by LF hold no CR LF pair, so reading leaves them as they are. */
  lemma {:induction false} TerminatedHasNoCRLF(ls: seq<string>)
    requires forall i :: 0 <= i < |ls| ==> PlainLine(ls[i])
    ensures ReplaceCRLF(Terminated(ls)) == Terminated(ls)
    decreases |ls|
  {
    if |ls| > 0 {
      var init, last := ls[..|ls| - 1], ls[|ls| - 1];
      var before, line := Terminated(init), last + "\n";
      assert ReplaceCRLF(line) == line by {
        ReplaceWithoutLF(last);
        ReplaceAppend(last, "\n");
        ReplaceLeadingLF("");
        assert "\n" + "" == "\n";
      }
      assert ReplaceCRLF(before + line) == before + line by {
        TerminatedHasNoCRLF(init);
        ReplaceAppend(before, line);
      }
      assert Terminated(ls) == before + line;
    }
  }

  /** The lines `writeFile` writes for the entries `s`, when every path can be written. */
  function WrittenLines(ops: PathOps, dir: string, s: seq<Checksum>): seq<string>
    requires forall i :: 0 <= i < |s| ==> WrittenPath(ops, dir, s[i].path).Success?
  {
    seq(|s|, i requires 0 <= i < |s| => EntryLine(s[i].hash, WrittenPath(ops, dir, s[i].path).value))
  }

  /**
   * Writing succeeds exactly when every path can be written, and the text is
   * then the entries' lines, each followed by LF.
   */
  lemma {:induction false} RenderIsTerminated(ops: PathOps, dir: string, s: seq<Checksum>)
    requires forall i :: 0 <= i < |s| ==> WrittenPath(ops, dir, s[i].path).Success?
    ensures Render(ops, dir, s) == Success(Terminated(WrittenLines(ops, dir, s)))
    decreases |s|
  {
    if |s| > 0 {
      var s' := s[..|s| - 1];
      RenderIsTerminated(ops, dir, s');
      var ls := WrittenLines(ops, dir, s);
      assert ls[..|ls| - 1] == WrittenLines(ops, dir, s');
    }
  }

  /** The written lines of entries that read back are plain lines. */
  lemma {:induction false} WrittenLinesPlain(ops: PathOps, dir: string, s: seq<Checksum>)
    requires forall i :: 0 <= i < |s| ==> IsDigest(s[i].hash) && ReadsBack(ops, dir, s[i].path)
    ensures forall i :: 0 <= i < |s| ==> WrittenPath(ops, dir, s[i].path).Success?
    ensures forall i :: 0 <= i < |s| ==> PlainLine(WrittenLines(ops, dir, s)[i])
  {
    forall i | 0 <= i < |s| ensures PlainLine(WrittenLines(ops, dir, s)[i]) {
      var line := WrittenLines(ops, dir, s)[i];
      assert forall k :: 0 <= k < 32 ==> IsHexDigit(s[i].hash[k]);
      assert line == s[i].hash + " *" + WrittenPath(ops, dir, s[i].path).value;
      assert '\n' !in line;
    }
  }

  /** The written lines of entries that read back are read as those entries. */
  lemma {:induction false} ParseWrittenLines(ops: PathOps, dir: string, s: seq<Checksum>)
    requires forall i :: 0 <= i < |s| ==> IsDigest(s[i].hash) && ReadsBack(ops, dir, s[i].path)
    ensures forall i :: 0 <= i < |s| ==> WrittenPath(ops, dir, s[i].path).Success?
    ensures ParseLines(ops, dir, WrittenLines(ops, dir, s)) == s
    decreases |s|
  {
    if |s| > 0 {
      var s', c := s[..|s| - 1], s[|s| - 1];
      ParseWrittenLines(ops, dir, s');
      var w := WrittenPath(ops, dir, c.path).value;
      var line := EntryLine(c.hash, w);
      assert WrittenLines(ops, dir, s) == WrittenLines(ops, dir, s') + [line];
      LineRoundTrip(ops, dir, c.hash, w);
      ParseLinesAppend(ops, dir, WrittenLines(ops, dir, s'), [line]);
      assert [line][..0] == [];
      assert ParseLines(ops, dir, [line]) == [c];
      assert s == s' + [c];
    }
  }

  /**
   * Reading back what `writeFile` wrote to `path` gives the entries in the
   * order they were written, provided every hash is 32 hexadecimal digits
   * and every path reads back.
   */
  lemma {:induction false} RoundTrip(ops: PathOps, path: string, s: seq<Checksum>, out: string)
    requires Render(ops, ops.dir(path), s) == Success(out)
    requires forall i :: 0 <= i < |s| ==> IsDigest(s[i].hash) && ReadsBack(ops, ops.dir(path), s[i].path)
    ensures ParseManifest(ops, path, out) == s
  {
    var dir := ops.dir(path);
    var ls := WrittenLines(ops, dir, s);
    RenderIsTerminated(ops, dir, s);
    WrittenLinesPlain(ops, dir, s);
    TerminatedHasNoCRLF(ls);
    SplitTerminated(ls, "");
    assert out + "" == out;
    assert Lines(out) == ls + [""];
    ParseWrittenLines(ops, dir, s);
    ParseLinesAppend(ops, dir, ls, [""]);
    assert [""][..0] == [];
    assert ParseLines(ops, dir, [""]) == [];
  }
}
