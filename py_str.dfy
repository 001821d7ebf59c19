/**
 * The few Python `str` operations the metadata reader and `humansize` rely
 * on, with Python's semantics: `isspace`, `strip`, `rstrip(c)`,
 * `startswith`, `find` and `split(sep)` with a non-empty separator.
 */
module PyStr {
  import opened Wrappers

  /** Python's `str.isspace` on one character (the 29 code points it accepts). */
  predicate IsSpace(c: char) {
    || c == ' '
    || ('\t' <= c <= '\r')
    || ('\U{1c}' <= c <= '\U{1f}')
    || c == '\U{85}' || c == '\U{a0}' || c == '\U{1680}'
    || ('\U{2000}' <= c <= '\U{200a}')
    || c == '\U{2028}' || c == '\U{2029}' || c == '\U{202f}'
    || c == '\U{205f}' || c == '\U{3000}'
  }

  /** `s.lstrip()`: the longest suffix of `s` that does not start with whitespace. */
  function StripLeft(s: string): (r: string)
    ensures |r| <= |s| && r == s[|s| - |r|..]
    ensures r == [] || !IsSpace(r[0])
    ensures forall i :: 0 <= i < |s| - |r| ==> IsSpace(s[i])
  {
    if s != [] && IsSpace(s[0]) then StripLeft(s[1..]) else s
  }

  /** `s.rstrip()`: the longest prefix of `s` that does not end with whitespace. */
  function StripRight(s: string): (r: string)
    ensures |r| <= |s| && r == s[..|r|]
    ensures r == [] || !IsSpace(r[|r| - 1])
    ensures forall i :: |r| <= i < |s| ==> IsSpace(s[i])
  {
    if s != [] && IsSpace(s[|s| - 1]) then StripRight(s[..|s| - 1]) else s
  }

  /** `s.strip()`. */
  function Strip(s: string): (r: string)
    ensures |r| <= |s|
    ensures r == [] || (!IsSpace(r[0]) && !IsSpace(r[|r| - 1]))
  {
    StripRight(StripLeft(s))
  }

  /** `s.rstrip(c)` for a one-character argument. */
  function RStripChar(s: string, c: char): (r: string)
    ensures |r| <= |s| && r == s[..|r|]
    ensures r == [] || r[|r| - 1] != c
    ensures forall i :: |r| <= i < |s| ==> s[i] == c
  {
    if s != [] && s[|s| - 1] == c then RStripChar(s[..|s| - 1], c) else s
  }

  /** `s.startswith(prefix)`. */
  predicate StartsWith(s: string, prefix: string) {
    |prefix| <= |s| && s[..|prefix|] == prefix
  }

  /** `sep` occurs in `s` at position `j`. */
  predicate OccursAt(s: string, sep: string, j: int) {
    0 <= j && j + |sep| <= |s| && s[j..j + |sep|] == sep
  }

  /** `sep` occurs nowhere in `s`. */
  ghost predicate Lacks(s: string, sep: string) {
    forall j :: !OccursAt(s, sep, j)
  }

  /** `s.find(sep, i)`: the first position at or after `i` where `sep` occurs, if any. */
  function FindFrom(s: string, sep: string, i: nat): (r: Option<nat>)
    requires sep != []
    ensures r.Some? ==> i <= r.value && r.value + |sep| <= |s|
    decreases |s| - i
  {
    if |s| < i + |sep| then None
    else if OccursAt(s, sep, i) then Some(i)
    else FindFrom(s, sep, i + 1)
  }

  /** What `FindFrom` answers: the first occurrence at or after `i`, or that there is none. */
  lemma {:induction false} FindFromIsFirst(s: string, sep: string, i: nat)
    requires sep != []
    ensures FindFrom(s, sep, i).Some? ==> OccursAt(s, sep, FindFrom(s, sep, i).value)
    ensures FindFrom(s, sep, i).Some? ==>
      forall j :: i <= j < FindFrom(s, sep, i).value ==> !OccursAt(s, sep, j)
    ensures FindFrom(s, sep, i).None? ==> forall j :: i <= j ==> !OccursAt(s, sep, j)
    decreases |s| - i
  {
    if |s| < i + |sep| {
    } else if !OccursAt(s, sep, i) {
      FindFromIsFirst(s, sep, i + 1);
    }
  }

  /** `s.find(sep)`: the first position where `sep` occurs, if any. */
  function Find(s: string, sep: string): (r: Option<nat>)
    requires sep != []
    ensures r.Some? ==> r.value + |sep| <= |s|
  {
    FindFrom(s, sep, 0)
  }

  /** `s.find(sep)` finds nothing exactly when `sep` does not occur in `s`. */
  lemma FindNoneIffLacks(s: string, sep: string)
    requires sep != []
    ensures Find(s, sep).None? <==> Lacks(s, sep)
    ensures Find(s, sep).Some? ==> OccursAt(s, sep, Find(s, sep).value)
    ensures Find(s, sep).Some? ==> forall j :: 0 <= j < Find(s, sep).value ==> !OccursAt(s, sep, j)
  {
    FindFromIsFirst(s, sep, 0);
  }

  /** `sep.join(pieces)` for a non-empty list of pieces. */
  function Join(pieces: seq<string>, sep: string): string
    requires |pieces| >= 1
  {
    if |pieces| == 1 then pieces[0] else pieces[0] + sep + Join(pieces[1..], sep)
  }

  /** The pieces of `s[i..].split(sep)`, found by scanning `s` from position `i`. */
  function SplitFrom(s: string, sep: string, i: nat): (pieces: seq<string>)
    requires sep != [] && i <= |s|
    ensures |pieces| >= 1
    decreases |s| - i
  {
    match FindFrom(s, sep, i)
    case None => [s[i..]]
    case Some(k) => [s[i..k]] + SplitFrom(s, sep, k + |sep|)
  }

  /** `s.split(sep)`: cut `s` at every occurrence of `sep`, scanning from the left. */
  function Split(s: string, sep: string): (pieces: seq<string>)
    requires sep != []
    ensures |pieces| >= 1
  {
    SplitFrom(s, sep, 0)
  }

  /**
   * The first piece of `s.split(sep)` is the text before the first
   * occurrence of `sep` (all of `s` when there is none), and it is the only
   * piece exactly when there is none.
   */
  lemma SplitFirstPiece(s: string, sep: string)
    requires sep != []
    ensures Split(s, sep)[0] == (match Find(s, sep) case None => s case Some(k) => s[..k])
    ensures |Split(s, sep)| == 1 <==> Find(s, sep).None?
  {
    assert s[0..] == s;
  }

  /** With an occurrence at `k` found first, the second piece runs to the next occurrence. */
  lemma SplitSecondPiece(s: string, sep: string, k: nat)
    requires sep != [] && Find(s, sep) == Some(k)
    ensures |Split(s, sep)| >= 2
    ensures Split(s, sep)[1] ==
      (match FindFrom(s, sep, k + |sep|) case None => s[k + |sep|..] case Some(k2) => s[k + |sep|..k2])
  {
    SplitFromStep(s, sep, 0, k);
  }

  /** Joining a piece in front of a non-empty list. */
  lemma JoinCons(x: string, rest: seq<string>, sep: string)
    requires |rest| >= 1
    ensures Join([x] + rest, sep) == x + sep + Join(rest, sep)
  {
    assert ([x] + rest)[1..] == rest;
  }

  /** One step of the scan: the piece before the occurrence at `k`, then the pieces after it. */
  lemma SplitFromStep(s: string, sep: string, i: nat, k: nat)
    requires sep != [] && i <= |s| && FindFrom(s, sep, i) == Some(k)
    ensures SplitFrom(s, sep, i) == [s[i..k]] + SplitFrom(s, sep, k + |sep|)
  {
  }

  /** The last step of the scan: no further occurrence leaves the rest of `s` as one piece. */
  lemma SplitFromLast(s: string, sep: string, i: nat)
    requires sep != [] && i <= |s| && FindFrom(s, sep, i).None?
    ensures SplitFrom(s, sep, i) == [s[i..]]
  {
  }

  /** Joining the pieces found from position `i` with `sep` gives back `s[i..]`. */
  lemma {:induction false} SplitFromJoinsBack(s: string, sep: string, i: nat)
    requires sep != [] && i <= |s|
    ensures Join(SplitFrom(s, sep, i), sep) == s[i..]
    decreases |s| - i
  {
    var r := FindFrom(s, sep, i);
    if r.Some? {
      var k := r.value;
      FindFromIsFirst(s, sep, i);
      var rest := SplitFrom(s, sep, k + |sep|);
      SplitFromStep(s, sep, i, k);
      SplitFromJoinsBack(s, sep, k + |sep|);
      JoinCons(s[i..k], rest, sep);
      assert s[i..] == s[i..k] + s[k..k + |sep|] + s[k + |sep|..];
    }
  }

  /** Joining the pieces of `s.split(sep)` with `sep` gives back `s`. */
  lemma SplitJoinsBack(s: string, sep: string)
    requires sep != []
    ensures Join(Split(s, sep), sep) == s
  {
    SplitFromJoinsBack(s, sep, 0);
    assert s[0..] == s;
  }

  /** No occurrence in `s[i..k]` when `s` has none between `i` and `k - |sep|`. */
  lemma SliceLacks(s: string, sep: string, i: nat, k: nat)
    requires i <= k <= |s|
    requires forall j :: i <= j && j + |sep| <= k ==> !OccursAt(s, sep, j)
    ensures Lacks(s[i..k], sep)
  {
    forall j | OccursAt(s[i..k], sep, j) ensures false {
      forall t | 0 <= t < |sep| ensures s[i + j + t] == sep[t] {
        assert s[i..k][j..j + |sep|][t] == sep[t];
      }
      assert s[i + j..i + j + |sep|] == sep;
      assert OccursAt(s, sep, i + j);
    }
  }

  /** No piece found from position `i` contains `sep`. */
  lemma {:induction false} SplitFromPiecesLackSeparator(s: string, sep: string, i: nat)
    requires sep != [] && i <= |s|
    ensures forall p :: 0 <= p < |SplitFrom(s, sep, i)| ==> Lacks(SplitFrom(s, sep, i)[p], sep)
    decreases |s| - i
  {
    var pieces := SplitFrom(s, sep, i);
    var r := FindFrom(s, sep, i);
    FindFromIsFirst(s, sep, i);
    if r.None? {
      assert pieces == [s[i..]];
      SliceLacks(s, sep, i, |s|);
      assert s[i..|s|] == s[i..];
    } else {
      var k := r.value;
      var rest := SplitFrom(s, sep, k + |sep|);
      SplitFromStep(s, sep, i, k);
      SplitFromPiecesLackSeparator(s, sep, k + |sep|);
      SliceLacks(s, sep, i, k);
      assert forall p :: 1 <= p < |pieces| ==> pieces[p] == rest[p - 1];
    }
  }

  /** No piece of `s.split(sep)` contains `sep`. */
  lemma SplitPiecesLackSeparator(s: string, sep: string)
    requires sep != []
    ensures forall p :: 0 <= p < |Split(s, sep)| ==> Lacks(Split(s, sep)[p], sep)
  {
    SplitFromPiecesLackSeparator(s, sep, 0);
  }
}
