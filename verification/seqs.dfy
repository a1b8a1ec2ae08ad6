/** Sequence helpers shared by the byte utilities, the chunk queues and the scanner. */
module Seqs {

  /** The concatenation of a sequence of chunks, in order. */
  function Flatten<T>(chunks: seq<seq<T>>): seq<T>
  {
    if |chunks| == 0 then [] else chunks[0] + Flatten(chunks[1..])
  }

  /** `n` copies of `s`, one after the other. */
  function Repeat<T>(s: seq<T>, n: nat): seq<T>
  {
    if n == 0 then [] else s + Repeat(s, n - 1)
  }

  lemma {:induction false} FlattenAppend<T>(a: seq<seq<T>>, b: seq<seq<T>>)
    ensures Flatten(a + b) == Flatten(a) + Flatten(b)
    decreases |a|
  {
    if |a| == 0 {
      assert a + b == b;
    } else {
      assert (a + b)[1..] == a[1..] + b;
      FlattenAppend(a[1..], b);
    }
  }

  lemma FlattenSnoc<T>(a: seq<seq<T>>, c: seq<T>)
    ensures Flatten(a + [c]) == Flatten(a) + c
  {
    FlattenAppend(a, [c]);
    assert Flatten([c]) == c + Flatten([c][1..]);
  }

  /** `f` occurs in `s` starting at index `i`. */
  predicate OccursAt<T(==)>(s: seq<T>, f: seq<T>, i: int)
  {
    0 <= i && i + |f| <= |s| && s[i..i + |f|] == f
  }

  /** `f` is a contiguous slice of `s` (Java's `String.contains` on sequences). */
  predicate ContainsSlice<T(==)>(s: seq<T>, f: seq<T>)
  {
    exists i :: 0 <= i <= |s| - |f| && OccursAt(s, f, i)
  }

  function Min(a: int, b: int): int
  {
    if a <= b then a else b
  }

  /** The elements of `s` in reverse order. */
  function Reverse<T>(s: seq<T>): (r: seq<T>)
    ensures |r| == |s|
    ensures forall i :: 0 <= i < |s| ==> r[i] == s[|s| - 1 - i]
  {
    if |s| == 0 then [] else Reverse(s[1..]) + [s[0]]
  }

  lemma ReverseReverse<T>(s: seq<T>)
    ensures Reverse(Reverse(s)) == s
  {
  }
}
