/** Concatenations of byte strings of one size. */
module Chunks {
  import opened Bytes

  function Flatten(xs: seq<Data>): Data {
    if xs == [] then [] else xs[0] + Flatten(xs[1..])
  }

  ghost predicate Sized(xs: seq<Data>, size: nat) {
    forall i :: 0 <= i < |xs| ==> |xs[i]| == size
  }

  /** The first `n` pieces of the given size; short input gives short pieces. */
  function Chunk(b: Data, size: nat, n: nat): (xs: seq<Data>)
    ensures |xs| == n
  {
    if n == 0 then []
    else
      var cut := if size <= |b| then size else |b|;
      [b[..cut]] + Chunk(b[cut..], size, n - 1)
  }

  lemma {:induction false} FlattenLength(xs: seq<Data>, size: nat)
    requires Sized(xs, size)
    ensures |Flatten(xs)| == |xs| * size
  {
    if xs == [] {
      assert 0 * size == 0;
    } else {
      FlattenLength(xs[1..], size);
      assert |xs| * size == size + (|xs| - 1) * size;
    }
  }

  lemma {:induction false} ChunkFlatten(xs: seq<Data>, size: nat)
    requires Sized(xs, size)
    ensures Chunk(Flatten(xs), size, |xs|) == xs
  {
    if xs != [] {
      var b := Flatten(xs);
      assert b[..size] == xs[0] && b[size..] == Flatten(xs[1..]);
      ChunkFlatten(xs[1..], size);
    }
  }

  lemma {:induction false} FlattenChunk(b: Data, size: nat, n: nat)
    requires |b| == n * size
    ensures Sized(Chunk(b, size, n), size) && Flatten(Chunk(b, size, n)) == b
  {
    if n == 0 {
      assert 0 * size == 0;
    } else {
      assert n * size == size + (n - 1) * size;
      assert (n - 1) * size >= 0;
      FlattenChunk(b[size..], size, n - 1);
      var xs := Chunk(b, size, n);
      assert xs[1..] == Chunk(b[size..], size, n - 1);
      assert b == b[..size] + b[size..];
    }
  }
}
