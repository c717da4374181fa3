/**
 * Python's `str.find`, `str.split(sep)` and `str.join`, for an explicit separator.
 *
 * `s.split(sep)` scans left to right: it finds the leftmost occurrence of `sep`
 * at or after the current position, emits the text before it as a piece and
 * resumes just past the occurrence; when no occurrence is left, the rest of the
 * string is the last piece.  Occurrences therefore never overlap, and the
 * result always has at least one piece.
 */
module PyStr {
  import opened Wrappers

  /** `sep` occurs in `s` starting at index `i`. */
  predicate OccursAt(s: string, sep: string, i: nat)
  {
    i + |sep| <= |s| && s[i..i + |sep|] == sep
  }

  /** `sep in s`, Python's substring test. */
  predicate Contains(s: string, sep: string)
  {
    exists i: nat :: i <= |s| && OccursAt(s, sep, i)
  }

  /** `s.find(sep, k)`: the leftmost occurrence of `sep` at or after `k`, if any. */
  function FindFrom(s: string, sep: string, k: nat): (r: Option<nat>)
    requires |sep| > 0 && k <= |s|
    ensures r.Some? ==> k <= r.value && OccursAt(s, sep, r.value)
    ensures r.Some? ==> forall j: nat :: k <= j < r.value ==> !OccursAt(s, sep, j)
    ensures r.None? ==> forall j: nat :: k <= j ==> !OccursAt(s, sep, j)
    decreases |s| - k
  {
    if k + |sep| > |s| then None
    else if s[k..k + |sep|] == sep then Some(k)
    else FindFrom(s, sep, k + 1)
  }

  /** The pieces of `s[k..]` when split on `sep` (the scan of `str.split` resumed at `k`). */
  function SplitFrom(s: string, sep: string, k: nat): (r: seq<string>)
    requires |sep| > 0 && k <= |s|
    ensures |r| >= 1
    decreases |s| - k
  {
    match FindFrom(s, sep, k)
    case None => [s[k..]]
    case Some(i) => [s[k..i]] + SplitFrom(s, sep, i + |sep|)
  }

  /** `s.split(sep)` for a non-empty separator `sep`. */
  function Split(s: string, sep: string): (r: seq<string>)
    requires |sep| > 0
    ensures |r| >= 1
  {
    SplitFrom(s, sep, 0)
  }

  /** `sep.join(ps)`. */
  function Join(ps: seq<string>, sep: string): string
  {
    if |ps| == 0 then ""
    else if |ps| == 1 then ps[0]
    else ps[0] + sep + Join(ps[1..], sep)
  }

  /** An occurrence in a suffix is an occurrence in the whole string, shifted by the suffix's start. */
  lemma OccursInSuffix(s: string, sep: string, k: nat, j: nat)
    requires k <= |s|
    ensures OccursAt(s[k..], sep, j) <==> OccursAt(s, sep, k + j)
  {
    if k + j + |sep| <= |s| {
      assert s[k..][j..j + |sep|] == s[k + j..k + j + |sep|];
    }
  }

  /** An occurrence inside a slice `s[k..i]` is an occurrence in `s` that ends by `i`. */
  lemma OccursInSlice(s: string, sep: string, k: nat, i: nat, j: nat)
    requires k <= i <= |s|
    requires OccursAt(s[k..i], sep, j)
    ensures OccursAt(s, sep, k + j) && k + j + |sep| <= i
  {
    assert j + |sep| <= i - k;
    forall m | 0 <= m < |sep| ensures s[k + j + m] == sep[m] {
      assert s[k..i][j..j + |sep|][m] == sep[m];
    }
    assert s[k + j..k + j + |sep|] == sep;
  }

  /** When `i` is the leftmost occurrence at or after `k`, `find` returns it. */
  lemma {:induction false} FindFromAt(s: string, sep: string, k: nat, i: nat)
    requires |sep| > 0 && k <= i
    requires OccursAt(s, sep, i)
    requires forall j: nat :: k <= j < i ==> !OccursAt(s, sep, j)
    ensures FindFrom(s, sep, k) == Some(i)
    decreases i - k
  {
    if k < i {
      assert !OccursAt(s, sep, k);
      FindFromAt(s, sep, k + 1, i);
    }
  }

  /** When `i` is the leftmost occurrence at or after `k`, the scan cuts there. */
  lemma SplitFromAt(s: string, sep: string, k: nat, i: nat)
    requires |sep| > 0 && k <= i
    requires OccursAt(s, sep, i)
    requires forall j: nat :: k <= j < i ==> !OccursAt(s, sep, j)
    ensures SplitFrom(s, sep, k) == [s[k..i]] + SplitFrom(s, sep, i + |sep|)
  {
    FindFromAt(s, sep, k, i);
  }

  /** A non-empty sequence is its first element followed by the rest. */
  lemma HeadTail<T>(xs: seq<T>)
    requires |xs| >= 1
    ensures [xs[0]] + xs[1..] == xs
  {
  }

  /** Joining a first piece and a non-empty rest puts the separator between them. */
  lemma JoinCons(p: string, rest: seq<string>, sep: string)
    requires |rest| >= 1
    ensures Join([p] + rest, sep) == p + sep + Join(rest, sep)
  {
    assert ([p] + rest)[1..] == rest;
  }

  /** A suffix `s[k..]` that reads `a + sep + b` has `a`, `sep` and `b` at the matching offsets. */
  lemma SuffixParts(s: string, k: nat, a: string, sep: string, b: string)
    requires k <= |s| && s[k..] == a + sep + b
    ensures k + |a| + |sep| <= |s|
    ensures s[k..k + |a|] == a && s[k + |a|..k + |a| + |sep|] == sep && s[k + |a| + |sep|..] == b
  {
    assert s[k..k + |a|] == s[k..][..|a|];
    assert s[k + |a|..k + |a| + |sep|] == s[k..][|a|..|a| + |sep|];
    assert s[k + |a| + |sep|..] == s[k..][|a| + |sep|..];
  }

  /** The suffix from `k` is the text up to an occurrence at `i`, the separator, and the rest. */
  lemma SuffixAround(s: string, sep: string, k: nat, i: nat)
    requires k <= i && OccursAt(s, sep, i)
    ensures s[k..] == s[k..i] + sep + s[i + |sep|..]
  {
    assert s[k..] == s[k..i] + s[i..i + |sep|] + s[i + |sep|..];
  }

  /** Joining the pieces with the separator gives back the scanned text. */
  lemma {:induction false} JoinSplitFrom(s: string, sep: string, k: nat)
    requires |sep| > 0 && k <= |s|
    ensures Join(SplitFrom(s, sep, k), sep) == s[k..]
    decreases |s| - k
  {
    var r := FindFrom(s, sep, k);
    if r.Some? {
      var i := r.value;
      var piece, rest := s[k..i], SplitFrom(s, sep, i + |sep|);
      assert SplitFrom(s, sep, k) == [piece] + rest;
      JoinSplitFrom(s, sep, i + |sep|);
      JoinCons(piece, rest, sep);
      SuffixAround(s, sep, k, i);
    }
  }

  /** Round trip: `sep.join(s.split(sep)) == s`. */
  lemma JoinSplit(s: string, sep: string)
    requires |sep| > 0
    ensures Join(Split(s, sep), sep) == s
  {
    JoinSplitFrom(s, sep, 0);
  }

  /** No piece produced by the scan contains the separator. */
  lemma {:induction false} SplitFromPiecesFree(s: string, sep: string, k: nat)
    requires |sep| > 0 && k <= |s|
    ensures forall p :: p in SplitFrom(s, sep, k) ==> !Contains(p, sep)
    decreases |s| - k
  {
    match FindFrom(s, sep, k)
    case None =>
      forall j: nat | OccursAt(s[k..], sep, j) ensures false {
        OccursInSuffix(s, sep, k, j);
      }
    case Some(i) =>
      SplitFromPiecesFree(s, sep, i + |sep|);
      forall j: nat | OccursAt(s[k..i], sep, j) ensures false {
        OccursInSlice(s, sep, k, i, j);
      }
  }

  /** No piece of `s.split(sep)` contains `sep`. */
  lemma SplitPiecesFree(s: string, sep: string)
    requires |sep| > 0
    ensures forall p :: p in Split(s, sep) ==> !Contains(p, sep)
  {
    SplitFromPiecesFree(s, sep, 0);
  }

  /** `s.split(sep) == [s]` exactly when `sep` does not occur in `s`. */
  lemma SplitSingleton(s: string, sep: string)
    requires |sep| > 0
    ensures Split(s, sep) == [s] <==> !Contains(s, sep)
  {
    match FindFrom(s, sep, 0)
    case None =>
      assert s[0..] == s;
    case Some(i) =>
      assert Contains(s, sep);
      assert |Split(s, sep)| >= 2;
  }

  /**
   * A one-character separator occurring inside a stretch of `s` that equals a
   * separator-free string `p` is impossible.
   */
  lemma NoOccurrenceWithin(s: string, sep: string, k: nat, p: string, j: nat)
    requires |sep| == 1 && k <= j < k + |p| <= |s|
    requires s[k..k + |p|] == p && !Contains(p, sep)
    ensures !OccursAt(s, sep, j)
  {
    assert p[j - k] == s[k..k + |p|][j - k] == s[j];
    assert s[j..j + 1] == [s[j]] && p[j - k..j - k + 1] == [p[j - k]];
    assert !OccursAt(p, sep, j - k);
  }

  /** A suffix free of the separator is the last piece of the scan. */
  lemma SplitFromLast(s: string, sep: string, k: nat)
    requires |sep| > 0 && k <= |s| && !Contains(s[k..], sep)
    ensures SplitFrom(s, sep, k) == [s[k..]]
  {
    forall j: nat | k <= j ensures !OccursAt(s, sep, j) {
      if j <= |s| {
        OccursInSuffix(s, sep, k, j - k);
      }
    }
    assert FindFrom(s, sep, k) == None;
  }

  /** No string of `ps` contains `sep`. */
  predicate NoneContains(ps: seq<string>, sep: string)
  {
    forall m :: 0 <= m < |ps| ==> !Contains(ps[m], sep)
  }

  /** The separator-free condition passes to the first piece and to the rest. */
  lemma NoneContainsCons(ps: seq<string>, sep: string)
    requires |ps| >= 1 && NoneContains(ps, sep)
    ensures !Contains(ps[0], sep) && NoneContains(ps[1..], sep)
  {
    assert forall m :: 0 <= m < |ps| - 1 ==> ps[1..][m] == ps[m + 1];
  }

  /** A single separator-free piece is split into itself. */
  lemma SplitFromJoinSingle(s: string, sep: string, k: nat, ps: seq<string>)
    requires |sep| > 0 && k <= |s|
    requires |ps| == 1 && NoneContains(ps, sep)
    requires s[k..] == Join(ps, sep)
    ensures SplitFrom(s, sep, k) == ps
  {
    assert s[k..] == ps[0];
    SplitFromLast(s, sep, k);
  }

  /** A separator-free piece followed by a one-character separator is the scan's next piece. */
  lemma CutAfterFreePiece(s: string, sep: string, k: nat, p0: string)
    requires |sep| == 1 && k + |p0| + 1 <= |s| && !Contains(p0, sep)
    requires s[k..k + |p0|] == p0 && s[k + |p0|..k + |p0| + 1] == sep
    ensures SplitFrom(s, sep, k) == [p0] + SplitFrom(s, sep, k + |p0| + 1)
  {
    var i := k + |p0|;
    forall j: nat | k <= j < i ensures !OccursAt(s, sep, j) {
      NoOccurrenceWithin(s, sep, k, p0, j);
    }
    SplitFromAt(s, sep, k, i);
  }

  /**
   * When the suffix `s[k..]` is the join of several separator-free pieces,
   * the scan cuts off the first piece and resumes where the join of the
   * remaining pieces starts.
   */
  lemma SplitFromJoinStep(s: string, sep: string, k: nat, ps: seq<string>) returns (next: nat)
    requires |sep| == 1 && k <= |s|
    requires |ps| >= 2 && NoneContains(ps, sep)
    requires s[k..] == Join(ps, sep)
    ensures next <= |s| && s[next..] == Join(ps[1..], sep) && NoneContains(ps[1..], sep)
    ensures SplitFrom(s, sep, k) == [ps[0]] + SplitFrom(s, sep, next)
  {
    var p0, tail := ps[0], ps[1..];
    NoneContainsCons(ps, sep);
    HeadTail(ps);
    JoinCons(p0, tail, sep);
    SuffixParts(s, k, p0, sep, Join(tail, sep));
    CutAfterFreePiece(s, sep, k, p0);
    next := k + |p0| + 1;
  }

  /**
   * For a one-character separator, splitting undoes joining: pieces that do
   * not contain the separator come back unchanged from `sep.join(ps).split(sep)`.
   * (For longer separators this fails: `"aa".join(["a", ""])` splits on `"aa"`
   * into `["", "a"]`.)
   */
  lemma {:induction false} SplitFromJoin(s: string, sep: string, k: nat, ps: seq<string>)
    requires |sep| == 1 && k <= |s|
    requires |ps| >= 1 && NoneContains(ps, sep)
    requires s[k..] == Join(ps, sep)
    ensures SplitFrom(s, sep, k) == ps
    decreases |ps|
  {
    if |ps| == 1 {
      SplitFromJoinSingle(s, sep, k, ps);
    } else {
      var next := SplitFromJoinStep(s, sep, k, ps);
      SplitFromJoin(s, sep, next, ps[1..]);
      HeadTail(ps);
    }
  }

  /** Round trip the other way for a one-character separator such as `;`. */
  lemma SplitJoin(ps: seq<string>, sep: string)
    requires |sep| == 1
    requires |ps| >= 1 && NoneContains(ps, sep)
    ensures Split(Join(ps, sep), sep) == ps
  {
    var s := Join(ps, sep);
    assert s[0..] == s;
    SplitFromJoin(s, sep, 0, ps);
  }
}
