/**
 * Sequence operations with Python's meaning: indexing with negative indices,
 * clamped slicing, the first element satisfying a test, and concatenation of
 * a list of byte chunks.
 */
module Sequences {
  import opened Wrappers

  /** The index of the first element satisfying `p`, or `|s|` when there is none. */
  function IndexOfFirst<T>(s: seq<T>, p: T -> bool): (k: nat)
    ensures k <= |s|
    ensures forall j :: 0 <= j < k ==> !p(s[j])
    ensures k < |s| ==> p(s[k])
    decreases |s|
  {
    if |s| == 0 then 0
    else if p(s[0]) then 0
    else 1 + IndexOfFirst(s[1..], p)
  }

  /** `s[i]` in Python: a negative index counts from the end; out of range raises (None here). */
  function PyIndex<T>(s: seq<T>, i: int): (r: Option<T>)
    ensures r.Some? <==> -|s| <= i < |s|
    ensures 0 <= i < |s| ==> r == Some(s[i])
    ensures -|s| <= i < 0 ==> r == Some(s[|s| + i])
  {
    if 0 <= i < |s| then Some(s[i])
    else if -|s| <= i < 0 then Some(s[|s| + i])
    else None
  }

  /** Python's normalisation of one slice bound: negative counts from the end, then clamp to [0, n]. */
  function SliceBound(i: int, n: nat): (b: nat)
    ensures b <= n
    ensures 0 <= i <= n ==> b == i
    ensures i > n ==> b == n
    ensures i < 0 && i + n >= 0 ==> b == i + n
    ensures i + n < 0 ==> b == 0
  {
    if i < 0 then (if i + n < 0 then 0 else i + n)
    else if i > n then n
    else i
  }

  /** `s[a:b]` in Python: never raises, bounds are normalised and an inverted range is empty. */
  function PySlice<T>(s: seq<T>, a: int, b: int): (r: seq<T>)
    ensures |r| <= |s|
    ensures 0 <= a <= b <= |s| ==> r == s[a..b]
    ensures 0 <= a <= |s| <= b ==> r == s[a..]
    ensures |s| <= a ==> r == []
    ensures SliceBound(a, |s|) <= SliceBound(b, |s|) ==> r == s[SliceBound(a, |s|)..SliceBound(b, |s|)]
    ensures SliceBound(b, |s|) <= SliceBound(a, |s|) ==> r == []
  {
    var lo := SliceBound(a, |s|);
    var hi := SliceBound(b, |s|);
    if hi <= lo then
      assert s[lo..lo] == [];
      []
    else s[lo..hi]
  }

  /** The concatenation of a list of chunks, first chunk first. */
  function Flatten<T>(chunks: seq<seq<T>>): seq<T>
  {
    if chunks == [] then [] else chunks[0] + Flatten(chunks[1..])
  }

  /** Appending one chunk appends its elements to the concatenation. */
  lemma {:induction false} FlattenSnoc<T>(chunks: seq<seq<T>>, c: seq<T>)
    ensures Flatten(chunks + [c]) == Flatten(chunks) + c
    decreases |chunks|
  {
    if chunks == [] {
      assert [] + [c] == [c];
    } else {
      assert (chunks + [c])[1..] == chunks[1..] + [c];
      FlattenSnoc(chunks[1..], c);
    }
  }
}
