/** Bytes, byte strings and the searches over them that the input framer uses. */
module Bytes {
  datatype Option<+T> = None | Some(value: T)

  type byte = b: int | 0 <= b < 256

  const ESC: byte := 0x1b
  const BEL: byte := 0x07
  const SEMICOLON: byte := 0x3b
  const PLUS: byte := 0x2b

  predicate IsDigit(b: byte) { 0x30 <= b <= 0x39 }

  function Flatten(chunks: seq<seq<byte>>): seq<byte> {
    if chunks == [] then [] else chunks[0] + Flatten(chunks[1..])
  }

  lemma {:induction false} FlattenConcat(a: seq<seq<byte>>, b: seq<seq<byte>>)
    ensures Flatten(a + b) == Flatten(a) + Flatten(b)
  {
    hide Flatten;
    if a == [] {
      assert a + b == b;
      FlattenNothing();
      assert [] + Flatten(b) == Flatten(b);
    } else {
      assert (a + b)[1..] == a[1..] + b;
      FlattenFirst(a);
      FlattenFirst(a + b);
      FlattenConcat(a[1..], b);
    }
  }

  lemma FlattenNothing()
    ensures Flatten([]) == []
  {
  }

  lemma FlattenFirst(chunks: seq<seq<byte>>)
    requires chunks != []
    ensures Flatten(chunks) == chunks[0] + Flatten(chunks[1..])
  {
  }

  // --- First index satisfying a predicate (`iter().position`) ---

  function FirstIndexFrom(s: seq<byte>, p: byte -> bool, from: nat): (r: Option<nat>)
    ensures r.Some? ==>
              && from <= r.value < |s| && p(s[r.value])
              && (forall j :: from <= j < r.value ==> !p(s[j]))
    ensures r.None? ==> forall j :: from <= j < |s| ==> !p(s[j])
    decreases |s| - from
  {
    if from >= |s| then None
    else if p(s[from]) then Some(from)
    else FirstIndexFrom(s, p, from + 1)
  }

  /** The first match does not move when bytes are appended behind it. */
  lemma FirstIndexExtends(s: seq<byte>, e: seq<byte>, p: byte -> bool, from: nat)
    ensures FirstIndexFrom(s, p, from).Some? ==> FirstIndexFrom(s + e, p, from) == FirstIndexFrom(s, p, from)
    ensures FirstIndexFrom(s, p, from).None? && FirstIndexFrom(s + e, p, from).Some? ==>
              FirstIndexFrom(s + e, p, from).value >= |s|
  {
    var t := s + e;
    assert forall j :: 0 <= j < |s| ==> t[j] == s[j];
    assert FirstIndexFrom(s, p, from).Some? ==> p(t[FirstIndexFrom(s, p, from).value]);
  }

  /** A prefix without a match only shifts the first match behind it. */
  lemma FirstIndexSkips(s: seq<byte>, e: seq<byte>, p: byte -> bool)
    requires forall i :: 0 <= i < |s| ==> !p(s[i])
    ensures FirstIndexFrom(e, p, 0).None? ==> FirstIndexFrom(s + e, p, 0).None?
    ensures FirstIndexFrom(e, p, 0).Some? ==> FirstIndexFrom(s + e, p, 0) == Some(|s| + FirstIndexFrom(e, p, 0).value)
  {
    hide FirstIndexFrom;
    var t, j := s + e, FirstIndexFrom(e, p, 0);
    assert forall k :: 0 <= k < |s| ==> t[k] == s[k];
    assert forall k :: |s| <= k < |t| ==> t[k] == e[k - |s|];
    if j.Some? {
      assert t[|s| + j.value] == e[j.value];
      FirstIndexIs(t, p, |s| + j.value);
    }
  }

  lemma FirstIndexIs(s: seq<byte>, p: byte -> bool, i: nat)
    requires i < |s| && p(s[i]) && forall j :: 0 <= j < i ==> !p(s[j])
    ensures FirstIndexFrom(s, p, 0) == Some(i)
  {
    hide FirstIndexFrom;
  }

  // --- Substring search (`find_subsequence`) ---

  predicate OccursAt(haystack: seq<byte>, needle: seq<byte>, i: nat) {
    i + |needle| <= |haystack| && haystack[i..i + |needle|] == needle
  }

  function FindFrom(haystack: seq<byte>, needle: seq<byte>, from: nat): (r: Option<nat>)
    ensures r.Some? ==>
              && from <= r.value && OccursAt(haystack, needle, r.value)
              && (forall j: nat :: from <= j < r.value ==> !OccursAt(haystack, needle, j))
    ensures r.None? ==> forall j: nat :: from <= j ==> !OccursAt(haystack, needle, j)
    decreases |haystack| - from
  {
    if from + |needle| > |haystack| then None
    else if OccursAt(haystack, needle, from) then Some(from)
    else FindFrom(haystack, needle, from + 1)
  }

  function FindSubsequence(haystack: seq<byte>, needle: seq<byte>): Option<nat> {
    FindFrom(haystack, needle, 0)
  }

  lemma OccursAtExtends(s: seq<byte>, e: seq<byte>, needle: seq<byte>, i: nat)
    requires i + |needle| <= |s|
    ensures OccursAt(s + e, needle, i) == OccursAt(s, needle, i)
  {
    assert (s + e)[i..i + |needle|] == s[i..i + |needle|];
  }

  lemma FindExtends(s: seq<byte>, e: seq<byte>, needle: seq<byte>)
    ensures FindSubsequence(s, needle).Some? ==> FindSubsequence(s + e, needle) == FindSubsequence(s, needle)
    ensures FindSubsequence(s, needle).None? && FindSubsequence(s + e, needle).Some? ==>
              FindSubsequence(s + e, needle).value + |needle| > |s|
  {
    var r, q := FindSubsequence(s, needle), FindSubsequence(s + e, needle);
    if r.Some? {
      OccursAtExtends(s, e, needle, r.value);
      if q.value < r.value {
        OccursAtExtends(s, e, needle, q.value);
      }
    } else if q.Some? && q.value + |needle| <= |s| {
      OccursAtExtends(s, e, needle, q.value);
    }
  }

  /** An occurrence with none before it is the one the search finds. */
  lemma FindIs(haystack: seq<byte>, needle: seq<byte>, i: nat)
    requires OccursAt(haystack, needle, i)
    requires forall j: nat :: j < i ==> !OccursAt(haystack, needle, j)
    ensures FindSubsequence(haystack, needle) == Some(i)
  {
  }

  // --- Prefixes ---

  lemma PrefixExtends(p: seq<byte>, s: seq<byte>, e: seq<byte>)
    ensures p <= s ==> p <= s + e
    ensures |p| <= |s| ==> (p <= s + e <==> p <= s)
    ensures |s| < |p| && p <= s + e ==> s == p[..|s|]
  {
    if |s| < |p| && p <= s + e {
      assert forall i :: 0 <= i < |s| ==> p[i] == (s + e)[i] == s[i];
    }
    if |p| <= |s| && p <= s + e {
      assert forall i :: 0 <= i < |p| ==> p[i] == (s + e)[i] == s[i];
    }
  }

  // --- Subsequences: bytes kept in order, some dropped ---

  /** `x` is `y` with some bytes left out and none moved. */
  predicate Subsequence(x: seq<byte>, y: seq<byte>) {
    x == [] || (y != [] && (if x[0] == y[0] then Subsequence(x[1..], y[1..]) else Subsequence(x, y[1..])))
  }

  lemma {:induction false} SubsequenceRefl(x: seq<byte>)
    ensures Subsequence(x, x)
  {
    if x != [] { SubsequenceRefl(x[1..]); }
  }

  lemma {:induction false} SubsequenceTail(x: seq<byte>, y: seq<byte>)
    requires x != [] && Subsequence(x, y)
    ensures Subsequence(x[1..], y)
    decreases |y|
  {
    if x[0] == y[0] {
      SubsequenceDropsFirst(x[1..], y);
    } else {
      SubsequenceTail(x, y[1..]);
      SubsequenceDropsFirst(x[1..], y);
    }
  }

  lemma {:induction false} SubsequenceDropsFirst(x: seq<byte>, y: seq<byte>)
    requires y != [] && Subsequence(x, y[1..])
    ensures Subsequence(x, y)
    decreases |y|, 0
  {
    if x != [] && x[0] == y[0] {
      SubsequenceTail(x, y[1..]);
    }
  }

  lemma {:induction false} SubsequenceTrans(x: seq<byte>, y: seq<byte>, z: seq<byte>)
    requires Subsequence(x, y) && Subsequence(y, z)
    ensures Subsequence(x, z)
    decreases |z|
  {
    if x != [] {
      if y[0] != z[0] {
        SubsequenceTrans(x, y, z[1..]);
        SubsequenceDropsFirst(x, z);
      } else if x[0] == y[0] {
        SubsequenceTrans(x[1..], y[1..], z[1..]);
      } else {
        SubsequenceTrans(x, y[1..], z[1..]);
        SubsequenceDropsFirst(x, z);
      }
    }
  }

  lemma {:induction false} SubsequenceConcat(a: seq<byte>, b: seq<byte>, x: seq<byte>, y: seq<byte>)
    requires Subsequence(a, b) && Subsequence(x, y)
    ensures Subsequence(a + x, b + y)
    decreases |b|
  {
    if b == [] {
      assert a + x == x && b + y == y;
    } else if a == [] {
      SubsequenceConcat(a, b[1..], x, y);
      assert (b + y)[1..] == b[1..] + y;
      SubsequenceDropsFirst(a + x, b + y);
    } else if a[0] == b[0] {
      SubsequenceConcat(a[1..], b[1..], x, y);
      assert (a + x)[1..] == a[1..] + x && (b + y)[1..] == b[1..] + y;
    } else {
      SubsequenceConcat(a, b[1..], x, y);
      assert (b + y)[1..] == b[1..] + y;
      SubsequenceDropsFirst(a + x, b + y);
    }
  }

  /** Dropping a prefix, or everything, keeps a subsequence. */
  lemma SubsequenceSuffix(y: seq<byte>, n: nat)
    requires n <= |y|
    ensures Subsequence(y[n..], y)
  {
    SubsequenceRefl(y[n..]);
    SubsequenceConcat([], y[..n], y[n..], y[n..]);
    assert y[..n] + y[n..] == y && [] + y[n..] == y[n..];
  }
}
