/**
 * The Python string operations the command interpreter relies on:
 * clamped slices with literal bounds, and `str.find`, `str.split`,
 * `str.join` and `str.replace`.
 */
module PyStrings {
  import opened Wrappers

  function Min(a: int, b: int): int { if a < b then a else b }
  function Max(a: int, b: int): int { if a < b then b else a }

  // ---------------------------------------------------------------------
  // Slices. Python clamps every bound to the string, so none of these fail.
  // ---------------------------------------------------------------------

  /** `s[:n]` */
  function Take(s: string, n: nat): (r: string)
    ensures |r| == Min(n, |s|) && r == s[..|r|]
  {
    s[..Min(n, |s|)]
  }

  /** `s[n:]` */
  function Drop(s: string, n: nat): (r: string)
    ensures |r| == Max(0, |s| - n) && r == s[|s| - |r|..]
  {
    s[Min(n, |s|)..]
  }

  /** `s[-n:]`, for a positive literal n */
  function TakeLast(s: string, n: nat): (r: string)
    requires n > 0
    ensures |r| == Min(n, |s|) && r == s[|s| - |r|..]
  {
    s[Max(0, |s| - n)..]
  }

  /** `s[:-n]`, for a positive literal n */
  function DropLast(s: string, n: nat): (r: string)
    requires n > 0
    ensures |r| == Max(0, |s| - n) && r == s[..|r|]
  {
    s[..Max(0, |s| - n)]
  }

  /** `s[i:-n]`, for a positive literal n: empty once the bounds cross */
  function Slice(s: string, i: nat, n: nat): (r: string)
    requires n > 0
    ensures |r| == Max(0, |s| - n - i)
    ensures |r| > 0 ==> r == s[i..|s| - n]
  {
    var lo := Min(i, |s|);
    var hi := Max(0, |s| - n);
    if lo < hi then s[lo..hi] else []
  }

  predicate StartsWith(s: string, p: string) {
    |p| <= |s| && s[..|p|] == p
  }

  predicate EndsWith(s: string, w: string) {
    |w| <= |s| && s[|s| - |w|..] == w
  }

  /** `s[:len(p)] == p` is exactly a prefix test */
  lemma TakeTest(s: string, p: string)
    ensures Take(s, |p|) == p <==> StartsWith(s, p)
  {
  }

  /** `s[-len(w):] == w` is exactly a suffix test, for a non-empty w */
  lemma TakeLastTest(s: string, w: string)
    requires w != []
    ensures TakeLast(s, |w|) == w <==> EndsWith(s, w)
  {
  }

  /** Two suffixes of one string agree on their common length. */
  lemma SuffixesAgree(s: string, v: string, w: string)
    requires EndsWith(s, v) && EndsWith(s, w) && |v| <= |w|
    ensures w[|w| - |v|..] == v
  {
    assert w[|w| - |v|..] == s[|s| - |w|..][|w| - |v|..];
  }

  // ---------------------------------------------------------------------
  // Searching, splitting, joining and replacing.
  // ---------------------------------------------------------------------

  /** `key` occurs in `s` starting at index `i` */
  predicate OccursAt(s: string, key: string, i: nat) {
    i + |key| <= |s| && s[i..i + |key|] == key
  }

  ghost predicate Occurs(s: string, key: string) {
    exists i: nat :: OccursAt(s, key, i)
  }

  /** `s.find(key)`: the first index where `key` occurs, None where Python gives -1 */
  function Find(s: string, key: string): (r: Option<nat>)
    ensures r.Some? ==> OccursAt(s, key, r.value)
    ensures forall j: nat :: OccursAt(s, key, j) ==> r.Some? && r.value <= j
    decreases |s|
  {
    if |s| < |key| then None
    else if s[..|key|] == key then Some(0)
    else
      assert !OccursAt(s, key, 0) by { assert s[0..|key|] == s[..|key|]; }
      assert forall j: nat :: 1 <= j && OccursAt(s, key, j) ==> OccursAt(s[1..], key, j - 1) by {
        forall j: nat | 1 <= j && OccursAt(s, key, j) ensures OccursAt(s[1..], key, j - 1) {
          assert s[1..][j - 1..j - 1 + |key|] == s[j..j + |key|];
        }
      }
      match Find(s[1..], key)
      case None => None
      case Some(i) =>
        assert s[1..][i..i + |key|] == s[i + 1..i + 1 + |key|];
        Some(i + 1)
  }

  /** `s.split(key)` for a non-empty separator */
  function Split(s: string, key: string): (parts: seq<string>)
    requires key != []
    ensures |parts| >= 1
    decreases |s|
  {
    match Find(s, key)
    case None => [s]
    case Some(i) => [s[..i]] + Split(s[i + |key|..], key)
  }

  /** `sep.join(parts)` */
  function Join(sep: string, parts: seq<string>): string {
    if |parts| == 0 then []
    else if |parts| == 1 then parts[0]
    else parts[0] + sep + Join(sep, parts[1..])
  }

  /** `val` before, between and after every character: `s.replace("", val)` */
  function Interleave(s: string, val: string): string {
    if s == [] then val else val + [s[0]] + Interleave(s[1..], val)
  }

  /** No piece that `split` produces contains the separator. */
  lemma {:induction false} SplitPiecesAreFree(s: string, key: string)
    requires key != []
    ensures forall p :: p in Split(s, key) ==> !Occurs(p, key)
    decreases |s|
  {
    match Find(s, key)
    case None =>
      forall j: nat ensures !OccursAt(s, key, j) { }
    case Some(i) =>
      var rest := s[i + |key|..];
      SplitPiecesAreFree(rest, key);
      forall j: nat | OccursAt(s[..i], key, j) ensures false {
        assert s[..i][j..j + |key|] == s[j..j + |key|];
        assert OccursAt(s, key, j);
      }
  }

  /** Joining the pieces with the separator gives the string back. */
  lemma {:induction false} JoinSplit(s: string, key: string)
    requires key != []
    ensures Join(key, Split(s, key)) == s
    decreases |s|
  {
    match Find(s, key)
    case None =>
    case Some(i) =>
      var rest := s[i + |key|..];
      var parts := Split(rest, key);
      JoinSplit(rest, key);
      assert Split(s, key) == [s[..i]] + parts;
      assert ([s[..i]] + parts)[1..] == parts;
      assert Join(key, [s[..i]] + parts) == s[..i] + key + Join(key, parts);
      assert s == s[..i] + key + rest;
  }

  /** One unfolding of `split` at the first occurrence. */
  lemma SplitAt(s: string, key: string, i: nat)
    requires key != [] && Find(s, key) == Some(i) && i + |key| <= |s|
    ensures Split(s, key) == [s[..i]] + Split(s[i + |key|..], key)
  {
  }

  /**
   * `s.replace(key, val)`: scanning left to right, every occurrence of `key`
   * that does not overlap an earlier replaced one becomes `val`. For a
   * non-empty key this is `val.join(s.split(key))`: the string is cut at
   * every leftmost occurrence and the pieces are glued back with `val`.
   */
  function Replace(s: string, key: string, val: string): (r: string)
    ensures key != [] ==> r == Join(val, Split(s, key))
    decreases |s|
  {
    if key == [] then Interleave(s, val)
    else
      match Find(s, key)
      case None =>
        s
      case Some(i) =>
        var rest := s[i + |key|..];
        SplitAt(s, key, i);
        assert ([s[..i]] + Split(rest, key))[1..] == Split(rest, key);
        s[..i] + val + Replace(rest, key, val)
  }

  /** A key that does not occur leaves the string unchanged. */
  lemma ReplaceAbsent(s: string, key: string, val: string)
    requires !Occurs(s, key)
    ensures Replace(s, key, val) == s
  {
    assert OccursAt(s, [], 0);
    assert key != [];
    assert Find(s, key) == None;
  }

  lemma {:induction false} InterleaveEmpty(s: string)
    ensures Interleave(s, []) == s
  {
    if s != [] {
      InterleaveEmpty(s[1..]);
      assert [s[0]] + s[1..] == s;
    }
  }

  /** Replacing a key by itself is the identity, the empty key included. */
  lemma ReplaceSelf(s: string, key: string)
    ensures Replace(s, key, key) == s
  {
    if key == [] {
      InterleaveEmpty(s);
    } else {
      JoinSplit(s, key);
    }
  }
}
