/** Facts about concatenation and slicing of sequences of any element type. Stated
    once here, they keep the proofs about byte streams and strings from rediscovering
    them element by element. */
module Sequences {

  lemma Associative<T>(a: seq<T>, b: seq<T>, c: seq<T>)
    ensures a + b + c == a + (b + c)
  {
  }

  lemma Regroup<T>(e: seq<T>, x: T, y: T, r: seq<T>, tail: seq<T>)
    ensures e + [x, y] + r + tail == e + [x] + [y] + (r + tail)
  {
    assert [x, y] == [x] + [y];
  }

  /** Cutting `a` at `k` and putting `x` after its second part. */
  lemma CutBefore<T>(a: seq<T>, x: seq<T>, k: nat)
    requires k <= |a|
    ensures a + x == a[..k] + (a[k..] + x)
  {
    assert a == a[..k] + a[k..];
  }

  /** The first element of a concatenation. */
  lemma FirstOfConcat<T>(u: seq<T>, x: seq<T>)
    ensures u == [] ==> u + x == x
    ensures u != [] ==> (u + x)[0] == u[0]
  {
  }

  /** Positions in the second part of a concatenation. */
  lemma SliceAfter<T>(a: seq<T>, b: seq<T>, j: nat)
    requires j <= |b|
    ensures (a + b)[..|a| + j] == a + b[..j]
    ensures j < |b| ==> (a + b)[|a| + j] == b[j] && (a + b)[|a| + j + 1..] == b[j + 1..]
  {
  }

  /** The head of a concatenation with a non-empty front comes from the front,
      and its tail is the front's tail followed by the rest. */
  lemma DropFirst<T>(a: seq<T>, x: seq<T>)
    requires a != []
    ensures (a + x)[0] == a[0] && (a + x)[1..] == a[1..] + x
  {
  }
}
