/**
 * The pieces of Go's `strings` package, and of Go's string comparison,
 * that the checksum tool relies on. A Go string is modelled as the
 * sequence of its characters.
 */
module GoStrings {
  import opened Wrappers

  /** `sep` appears in `s` starting at offset `i`. */
  predicate OccursAt(s: string, sep: string, i: nat) {
    i + |sep| <= |s| && s[i..i + |sep|] == sep
  }

  predicate Contains(s: string, sep: string) {
    exists i: nat :: i <= |s| && OccursAt(s, sep, i)
  }

  /** Occurrences in `s[1..]` are the occurrences in `s` moved one place left. */
  lemma {:induction false} OccursShift(s: string, sep: string)
    requires |s| > 0
    ensures forall i: nat :: OccursAt(s[1..], sep, i) <==> OccursAt(s, sep, i + 1)
    ensures forall i: nat :: 0 < i ==> (OccursAt(s, sep, i) <==> OccursAt(s[1..], sep, i - 1))
  {
    forall i: nat ensures OccursAt(s[1..], sep, i) <==> OccursAt(s, sep, i + 1) {
      if i + 1 + |sep| <= |s| {
        assert s[1..][i..i + |sep|] == s[i + 1..i + 1 + |sep|];
      }
    }
  }

  /** An occurrence inside a prefix of `s` is an occurrence in `s`. */
  lemma {:induction false} OccursInPrefix(s: string, sep: string, k: nat, j: nat)
    requires k <= |s| && OccursAt(s[..k], sep, j)
    ensures OccursAt(s, sep, j) && j + |sep| <= k
  {
    assert s[..k][j..j + |sep|] == s[j..j + |sep|];
  }

  /** With a one-character separator, an occurrence is just that character. */
  lemma {:induction false} OccursChar(s: string, c: char, j: nat)
    ensures OccursAt(s, [c], j) <==> j < |s| && s[j] == c
  {
    if j < |s| {
      assert s[j..j + 1] == [s[j]];
    }
  }

  /** `strings.Index` for a non-empty separator: the offset of the leftmost occurrence of `sep`, if any. */
  function Index(s: string, sep: string): (r: Option<nat>)
    requires |sep| > 0
    ensures r.Some? ==> r.value + |sep| <= |s|
    decreases |s|
  {
    if |s| < |sep| then None
    else if s[..|sep|] == sep then Some(0)
    else
      match Index(s[1..], sep)
      case None => None
      case Some(i) => Some(i + 1)
  }

  /**
   * `Index` finds an occurrence, none lies to its left, and it finds
   * nothing exactly when `sep` does not occur.
   */
  lemma {:induction false} IndexSpec(s: string, sep: string)
    requires |sep| > 0
    ensures Index(s, sep).Some? ==> OccursAt(s, sep, Index(s, sep).value)
    ensures Index(s, sep).Some? ==> forall j: nat :: j < Index(s, sep).value ==> !OccursAt(s, sep, j)
    ensures Index(s, sep).None? <==> !Contains(s, sep)
    decreases |s|
  {
    if |s| < |sep| {
    } else if s[..|sep|] == sep {
      assert OccursAt(s, sep, 0);
    } else {
      IndexSpec(s[1..], sep);
      OccursShift(s, sep);
      assert !OccursAt(s, sep, 0);
      if Contains(s, sep) {
        var i: nat :| i <= |s| && OccursAt(s, sep, i);
        assert OccursAt(s[1..], sep, i - 1);
      }
    }
  }

  /** An occurrence with none to its left is the one `Index` finds. */
  lemma {:induction false} IndexIs(s: string, sep: string, i: nat)
    requires |sep| > 0
    requires OccursAt(s, sep, i)
    requires forall j: nat :: j < i ==> !OccursAt(s, sep, j)
    ensures Index(s, sep) == Some(i)
  {
    IndexSpec(s, sep);
    assert Contains(s, sep);
  }

  /** The text of `s` before the first occurrence of `sep`, or all of `s` if there is none. */
  function Before(s: string, sep: string): (r: string)
    requires |sep| > 0
    ensures |r| <= |s| && r == s[..|r|]
    ensures forall j: nat :: j < |r| ==> !OccursAt(s, sep, j)
    ensures r == s || OccursAt(s, sep, |r|)
  {
    IndexSpec(s, sep);
    match Index(s, sep)
    case None => s
    case Some(i) => s[..i]
  }

  /**
   * `strings.Split` for a non-empty separator: the pieces of `s` between
   * the occurrences of `sep` found left to right without overlap.
   */
  function Split(s: string, sep: string): (r: seq<string>)
    requires |sep| > 0
    ensures |r| >= 1
    decreases |s|
  {
    match Index(s, sep)
    case None => [s]
    case Some(i) => [s[..i]] + Split(s[i + |sep|..], sep)
  }

  /** The first piece of a split is the text before the first separator. */
  lemma {:induction false} SplitFirst(s: string, sep: string)
    requires |sep| > 0
    ensures Split(s, sep)[0] == Before(s, sep)
  {
  }

  /** `strings.Join`. */
  function Join(parts: seq<string>, sep: string): string
  {
    if |parts| == 0 then ""
    else if |parts| == 1 then parts[0]
    else parts[0] + sep + Join(parts[1..], sep)
  }

  /** Splitting loses nothing: joining the pieces gives `s` back. */
  lemma {:induction false} SplitJoin(s: string, sep: string)
    requires |sep| > 0
    ensures Join(Split(s, sep), sep) == s
    decreases |s|
  {
    IndexSpec(s, sep);
    match Index(s, sep)
    case None =>
    case Some(i) =>
      var first, rest := s[..i], s[i + |sep|..];
      var parts := Split(s, sep);
      assert parts == [first] + Split(rest, sep);
      assert Join(parts, sep) == first + sep + Join(Split(rest, sep), sep) by {
        assert parts[0] == first && parts[1..] == Split(rest, sep);
      }
      SplitJoin(rest, sep);
      assert s == first + sep + rest by {
        assert s[i..i + |sep|] == sep;
      }
  }

  /** No piece of a split holds the separator. */
  lemma {:induction false} SplitPiecesFree(s: string, sep: string)
    requires |sep| > 0
    ensures forall k :: 0 <= k < |Split(s, sep)| ==> !Contains(Split(s, sep)[k], sep)
    decreases |s|
  {
    IndexSpec(s, sep);
    match Index(s, sep)
    case None =>
    case Some(i) =>
      var rest := s[i + |sep|..];
      var parts := Split(s, sep);
      assert parts == [s[..i]] + Split(rest, sep);
      SplitPiecesFree(rest, sep);
      forall j: nat | j <= |s[..i]| && OccursAt(s[..i], sep, j) ensures false {
        OccursInPrefix(s, sep, i, j);
      }
      forall k | 1 <= k < |parts| ensures !Contains(parts[k], sep) {
        assert parts[k] == Split(rest, sep)[k - 1];
      }
  }

  /** A string without the separator splits into itself alone. */
  lemma {:induction false} SplitNone(s: string, sep: string)
    requires |sep| > 0 && !Contains(s, sep)
    ensures Split(s, sep) == [s]
  {
    IndexSpec(s, sep);
  }

  /** One step of a split at the first separator. */
  lemma {:induction false} SplitAt(s: string, sep: string, i: nat)
    requires |sep| > 0 && Index(s, sep) == Some(i)
    ensures Split(s, sep) == [s[..i]] + Split(s[i + |sep|..], sep)
  {
  }

  /** The first `c` of `u + [c] + v` is the first of `u`, if `u` has one, else the added one. */
  lemma {:induction false} IndexOfJoined(u: string, c: char, v: string)
    ensures Index(u + [c] + v, [c]) == if Index(u, [c]).Some? then Index(u, [c]) else Some(|u|)
  {
    var w := u + [c] + v;
    IndexSpec(u, [c]);
    var k := if Index(u, [c]).Some? then Index(u, [c]).value else |u|;
    OccursChar(w, c, k);
    if k < |u| {
      OccursChar(u, c, k);
    }
    forall j: nat | j < k ensures !OccursAt(w, [c], j) {
      OccursChar(w, c, j);
      OccursChar(u, c, j);
    }
    IndexIs(w, [c], k);
  }

  /** Splitting on one character distributes over a concatenation joined by that character. */
  lemma {:induction false} SplitOnChar(u: string, c: char, v: string)
    ensures Split(u + [c] + v, [c]) == Split(u, [c]) + Split(v, [c])
    decreases |u|
  {
    var w := u + [c] + v;
    IndexOfJoined(u, c, v);
    match Index(u, [c])
    case None =>
      assert Split(u, [c]) == [u];
      assert w[..|u|] == u && w[|u| + 1..] == v;
      SplitAt(w, [c], |u|);
    case Some(i) =>
      var u', tail := u[i + 1..], Split(v, [c]);
      assert Split(w, [c]) == [u[..i]] + Split(u' + [c] + v, [c]) by {
        assert w[..i] == u[..i];
        assert w[i + 1..] == u' + [c] + v;
        SplitAt(w, [c], i);
      }
      SplitOnChar(u', c, v);
      SplitAt(u, [c], i);
      SeqAssoc([u[..i]], Split(u', [c]), tail);
  }

  /**
   * `strings.Replace(s, "\r\n", "\n", -1)`: every CR LF pair, found left to
   * right, becomes a single LF; every other character is kept.
   */
  function ReplaceCRLF(s: string): (r: string)
    ensures |r| <= |s|
    decreases |s|
  {
    if |s| == 0 then ""
    else if |s| >= 2 && s[0] == '\r' && s[1] == '\n' then "\n" + ReplaceCRLF(s[2..])
    else [s[0]] + ReplaceCRLF(s[1..])
  }

  /** Text without an LF has no CR LF pair to replace. */
  lemma {:induction false} ReplaceWithoutLF(s: string)
    requires '\n' !in s
    ensures ReplaceCRLF(s) == s
    decreases |s|
  {
    if |s| > 0 {
      assert s[1..] + [] == s[1..];
      assert '\n' !in s[1..] by {
        forall j | 0 <= j < |s| - 1 ensures s[1..][j] != '\n' {
          assert s[1..][j] == s[j + 1];
        }
      }
      assert !(|s| >= 2 && s[1] == '\n');
      ReplaceWithoutLF(s[1..]);
      assert s == [s[0]] + s[1..];
    }
  }

  /** Concatenation is associative. */
  lemma SeqAssoc<T>(p: seq<T>, q: seq<T>, r: seq<T>)
    ensures p + (q + r) == (p + q) + r
  {
  }

  /** A leading CR LF pair becomes an LF. */
  lemma {:induction false} ReplaceLeadingCRLF(v: string)
    ensures ReplaceCRLF("\r\n" + v) == "\n" + ReplaceCRLF(v)
  {
    assert ("\r\n" + v)[2..] == v;
  }

  /** A leading LF is kept. */
  lemma {:induction false} ReplaceLeadingLF(v: string)
    ensures ReplaceCRLF("\n" + v) == "\n" + ReplaceCRLF(v)
  {
    assert ("\n" + v)[1..] == v;
  }

  /** Replacement works piecewise unless a CR LF pair straddles the boundary. */
  lemma {:induction false} ReplaceAppend(x: string, y: string)
    requires !(|x| > 0 && x[|x| - 1] == '\r' && |y| > 0 && y[0] == '\n')
    ensures ReplaceCRLF(x + y) == ReplaceCRLF(x) + ReplaceCRLF(y)
    decreases |x|, 1
  {
    if |x| == 0 {
      assert x + y == y;
    } else if |x| >= 2 && x[0] == '\r' && x[1] == '\n' {
      ReplaceAppendPair(x, y);
    } else {
      ReplaceAppendChar(x, y);
    }
  }

  /** `ReplaceAppend` when `x` starts with a CR LF pair. */
  lemma {:induction false} ReplaceAppendPair(x: string, y: string)
    requires |x| >= 2 && x[0] == '\r' && x[1] == '\n'
    requires !(x[|x| - 1] == '\r' && |y| > 0 && y[0] == '\n')
    ensures ReplaceCRLF(x + y) == ReplaceCRLF(x) + ReplaceCRLF(y)
    decreases |x|, 0
  {
    var a, b := ReplaceCRLF(x[2..]), ReplaceCRLF(y);
    assert ReplaceCRLF(x + y) == "\n" + ReplaceCRLF(x[2..] + y) by {
      assert (x + y)[0] == '\r' && (x + y)[1] == '\n';
      assert (x + y)[2..] == x[2..] + y;
    }
    ReplaceAppend(x[2..], y);
    assert ReplaceCRLF(x) == "\n" + a;
    SeqAssoc("\n", a, b);
  }

  /** `ReplaceAppend` when `x` does not start with a CR LF pair. */
  lemma {:induction false} ReplaceAppendChar(x: string, y: string)
    requires |x| > 0 && !(|x| >= 2 && x[0] == '\r' && x[1] == '\n')
    requires !(x[|x| - 1] == '\r' && |y| > 0 && y[0] == '\n')
    ensures ReplaceCRLF(x + y) == ReplaceCRLF(x) + ReplaceCRLF(y)
    decreases |x|, 0
  {
    var a, b := ReplaceCRLF(x[1..]), ReplaceCRLF(y);
    assert ReplaceCRLF(x + y) == [x[0]] + ReplaceCRLF(x[1..] + y) by {
      NoPairAtJoin(x, y);
      assert (x + y)[1..] == x[1..] + y;
    }
    ReplaceAppend(x[1..], y);
    assert ReplaceCRLF(x) == [x[0]] + a by {
      assert !(|x| >= 2 && x[0] == '\r' && x[1] == '\n');
    }
    SeqAssoc([x[0]], a, b);
  }

  /** When `x` does not start with CR LF and no pair straddles `x` and `y`, neither does `x + y`. */
  lemma {:induction false} NoPairAtJoin(x: string, y: string)
    requires |x| > 0 && !(|x| >= 2 && x[0] == '\r' && x[1] == '\n')
    requires !(|x| > 0 && x[|x| - 1] == '\r' && |y| > 0 && y[0] == '\n')
    ensures !(|x + y| >= 2 && (x + y)[0] == '\r' && (x + y)[1] == '\n')
  {
    if |x| == 1 && |y| > 0 {
      assert (x + y)[1] == y[0];
    } else if |x| >= 2 {
      assert (x + y)[1] == x[1];
    }
  }

  /** `strings.HasSuffix`. */
  predicate HasSuffix(s: string, suffix: string) {
    |suffix| <= |s| && s[|s| - |suffix|..] == suffix
  }

  function LowerChar(c: char): char {
    if 'A' <= c <= 'Z' then (c as int + 32) as char else c
  }

  /** `strings.ToLower`, for the ASCII letters. */
  function ToLower(s: string): (r: string)
    ensures |r| == |s|
  {
    seq(|s|, i requires 0 <= i < |s| => LowerChar(s[i]))
  }

  /** Go's `<` on strings: lexicographic, character by character, a proper prefix first. */
  predicate Below(a: string, b: string)
    decreases |a|
  {
    if |a| == 0 then |b| > 0
    else |b| > 0 && (a[0] < b[0] || (a[0] == b[0] && Below(a[1..], b[1..])))
  }

  lemma {:induction false} BelowIrreflexive(a: string)
    ensures !Below(a, a)
    decreases |a|
  {
    if |a| > 0 {
      BelowIrreflexive(a[1..]);
    }
  }

  lemma {:induction false} BelowTransitive(a: string, b: string, c: string)
    requires Below(a, b) && Below(b, c)
    ensures Below(a, c)
    decreases |a|
  {
    if |a| > 0 && a[0] == b[0] && b[0] == c[0] {
      BelowTransitive(a[1..], b[1..], c[1..]);
    }
  }

  lemma {:induction false} BelowAsymmetric(a: string, b: string)
    requires Below(a, b)
    ensures !Below(b, a)
  {
    if Below(b, a) {
      BelowTransitive(a, b, a);
      BelowIrreflexive(a);
    }
  }

  lemma {:induction false} BelowTotal(a: string, b: string)
    ensures a == b || Below(a, b) || Below(b, a)
    decreases |a|
  {
    if |a| > 0 && |b| > 0 && a[0] == b[0] {
      BelowTotal(a[1..], b[1..]);
      if a[1..] == b[1..] {
        assert a == [a[0]] + a[1..] && b == [b[0]] + b[1..];
      }
    }
  }
}
