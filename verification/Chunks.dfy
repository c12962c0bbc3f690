/** A list cut into batches of a fixed size. */
module Chunks {

  function Concat<T>(chunks: seq<seq<T>>): seq<T> {
    if chunks == [] then [] else Concat(chunks[..|chunks| - 1]) + chunks[|chunks| - 1]
  }

  ghost predicate FullUntilLast<T>(chunks: seq<seq<T>>, size: nat) {
    && (forall i :: 0 <= i < |chunks| ==> 0 < |chunks[i]| <= size)
    && (forall i :: 0 <= i < |chunks| - 1 ==> |chunks[i]| == size)
  }

  function Min(a: int, b: int): int {
    if a <= b then a else b
  }

  /** Takes the next batch off the front until nothing is left; a size of 0 would make no headway. */
  method Chunk<T>(s: seq<T>, size: nat) returns (chunks: seq<seq<T>>)
    requires size > 0
    ensures Concat(chunks) == s
    ensures FullUntilLast(chunks, size)
  {
    chunks := [];
    var i := 0;
    while i < |s|
      invariant Concat(chunks) == s[..Min(i, |s|)]
      invariant FullUntilLast(chunks, size)
      invariant i < |s| ==> forall k :: 0 <= k < |chunks| ==> |chunks[k]| == size
    {
      var end := Min(i + size, |s|);
      assert (chunks + [s[i..end]])[..|chunks|] == chunks;
      assert s[..end] == s[..i] + s[i..end];
      chunks := chunks + [s[i..end]];
      i := i + size;
    }
    assert s[..|s|] == s;
  }
}
