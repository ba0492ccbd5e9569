/**
  Python's `str.split(sep)` (with an explicit, non-empty separator) and
  `sep.join(parts)`, with the facts the name helpers rely on: joining the
  pieces rebuilds the string, no piece contains the separator, the first piece
  is a prefix and the last a suffix, and splitting on one character
  distributes over a concatenation around that character.
 */
module Strings {
  import opened Wrappers

  /** `sep` occurs in `s` starting at index `i`. */
  predicate OccursAt(s: string, sep: string, i: nat)
  {
    i + |sep| <= |s| && s[i..i + |sep|] == sep
  }

  /** Python's `sep in s`. */
  predicate Contains(s: string, sep: string)
  {
    exists i: nat | i <= |s| :: OccursAt(s, sep, i)
  }

  predicate IsSuffix(a: string, s: string)
  {
    |a| <= |s| && s[|s| - |a|..] == a
  }

  /** The index of the first occurrence of `sep` in `s` at or after `from`. */
  function FindFrom(s: string, sep: string, from: nat): (r: Option<nat>)
    requires |sep| > 0
    ensures r.Some? ==> from <= r.value && OccursAt(s, sep, r.value)
    ensures r.Some? ==> forall j: nat :: from <= j < r.value ==> !OccursAt(s, sep, j)
    ensures r.None? ==> forall j: nat :: from <= j ==> !OccursAt(s, sep, j)
    decreases |s| - from
  {
    if from + |sep| > |s| then None
    else if OccursAt(s, sep, from) then Some(from)
    else FindFrom(s, sep, from + 1)
  }

  /** The index of the first occurrence of `sep` in `s` (Python's `str.find`, with `None` for -1). */
  function Find(s: string, sep: string): (r: Option<nat>)
    requires |sep| > 0
    ensures r.Some? ==> OccursAt(s, sep, r.value)
    ensures r.Some? ==> forall j: nat :: j < r.value ==> !OccursAt(s, sep, j)
    ensures r.None? <==> !Contains(s, sep)
  {
    FindFrom(s, sep, 0)
  }

  /** The first occurrence is unique: a least occurrence is what `Find` returns. */
  lemma FindIsLeast(s: string, sep: string, i: nat)
    requires |sep| > 0
    requires OccursAt(s, sep, i)
    requires forall j: nat :: j < i ==> !OccursAt(s, sep, j)
    ensures Find(s, sep) == Some(i)
  {
  }

  /** Python's `s.split(sep)` for a non-empty `sep`. */
  function Split(s: string, sep: string): (parts: seq<string>)
    requires |sep| > 0
    ensures |parts| >= 1
    decreases |s|
  {
    match Find(s, sep)
    case None => [s]
    case Some(i) => [s[..i]] + Split(s[i + |sep|..], sep)
  }

  /** Python's `sep.join(parts)`. */
  function Join(sep: string, parts: seq<string>): string
  {
    if |parts| == 0 then ""
    else if |parts| == 1 then parts[0]
    else parts[0] + sep + Join(sep, parts[1..])
  }

  /** Joining the pieces of a split with the same separator gives back the string. */
  lemma {:induction false} JoinSplit(s: string, sep: string)
    requires |sep| > 0
    ensures Join(sep, Split(s, sep)) == s
    decreases |s|
  {
    var f := Find(s, sep);
    if f.Some? {
      var i := f.value;
      var rest := s[i + |sep|..];
      var tail := Split(rest, sep);
      JoinSplit(rest, sep);
      assert Split(s, sep) == [s[..i]] + tail;
      JoinCons(sep, s[..i], tail);
      assert s == s[..i] + s[i..i + |sep|] + rest;
    }
  }

  /** Joining a piece in front of a non-empty sequence puts the separator between them. */
  lemma JoinCons(sep: string, head: string, tail: seq<string>)
    requires |tail| >= 1
    ensures Join(sep, [head] + tail) == head + sep + Join(sep, tail)
  {
    assert ([head] + tail)[1..] == tail;
  }

  /** No piece of a split contains the separator. */
  lemma {:induction false} SplitPiecesAvoidSep(s: string, sep: string)
    requires |sep| > 0
    ensures forall k :: 0 <= k < |Split(s, sep)| ==> !Contains(Split(s, sep)[k], sep)
    decreases |s|
  {
    match Find(s, sep)
    case None =>
    case Some(i) =>
      var rest := s[i + |sep|..];
      SplitPiecesAvoidSep(rest, sep);
      forall j: nat | j + |sep| <= i
        ensures OccursAt(s[..i], sep, j) == OccursAt(s, sep, j)
      {
        assert s[..i][j..j + |sep|] == s[j..j + |sep|];
      }
      assert Split(s, sep) == [s[..i]] + Split(rest, sep);
  }

  /** A split yields a single piece exactly when the separator does not occur. */
  lemma SplitSingleIff(s: string, sep: string)
    requires |sep| > 0
    ensures |Split(s, sep)| == 1 <==> !Contains(s, sep)
    ensures !Contains(s, sep) ==> Split(s, sep) == [s]
  {
  }

  /** The first piece is a prefix of the string. */
  lemma SplitFirstIsPrefix(s: string, sep: string)
    requires |sep| > 0
    ensures Split(s, sep)[0] <= s
  {
  }

  /** The last piece is a suffix of the string. */
  lemma {:induction false} SplitLastIsSuffix(s: string, sep: string)
    requires |sep| > 0
    ensures IsSuffix(Split(s, sep)[|Split(s, sep)| - 1], s)
    decreases |s|
  {
    match Find(s, sep)
    case None =>
    case Some(i) =>
      var rest := s[i + |sep|..];
      SplitLastIsSuffix(rest, sep);
      assert Split(s, sep) == [s[..i]] + Split(rest, sep);
      var last := Split(rest, sep)[|Split(rest, sep)| - 1];
      assert Split(s, sep)[|Split(s, sep)| - 1] == last;
      assert s[|s| - |last|..] == rest[|rest| - |last|..];
  }

  /** Joining a sequence with one more piece appends the separator and that piece. */
  lemma {:induction false} JoinSnoc(sep: string, parts: seq<string>, last: string)
    requires |parts| >= 1
    ensures Join(sep, parts + [last]) == Join(sep, parts) + sep + last
    decreases |parts|
  {
    if |parts| == 1 {
      assert (parts + [last])[1..] == [last];
    } else {
      assert (parts + [last])[1..] == parts[1..] + [last];
      JoinSnoc(sep, parts[1..], last);
    }
  }

  /** Splitting on the character `c` distributes over a concatenation around a `c`. */
  lemma {:induction false} SplitAround(a: string, c: char, b: string)
    ensures Split(a + [c] + b, [c]) == Split(a, [c]) + Split(b, [c])
    decreases |a|
  {
    var s := a + [c] + b;
    match Find(a, [c])
    case None =>
      assert OccursAt(s, [c], |a|) by { assert s[|a|..|a| + 1] == [c]; }
      forall j: nat | j < |a|
        ensures OccursAt(s, [c], j) == OccursAt(a, [c], j)
      {
        assert s[j..j + 1] == a[j..j + 1];
      }
      FindIsLeast(s, [c], |a|);
      assert s[..|a|] == a;
      assert s[|a| + 1..] == b;
    case Some(i) =>
      assert s[i..i + 1] == a[i..i + 1];
      forall j: nat | j < i
        ensures OccursAt(s, [c], j) == OccursAt(a, [c], j)
      {
        assert s[j..j + 1] == a[j..j + 1];
      }
      FindIsLeast(s, [c], i);
      assert s[..i] == a[..i];
      assert a == a[..i + 1] + a[i + 1..];
      assert s == a[..i + 1] + (a[i + 1..] + [c] + b);
      assert s[i + 1..] == a[i + 1..] + [c] + b;
      SplitAround(a[i + 1..], c, b);
  }
}
