/** Byte strings and their chunks. */
module Bytes {
  type Byte = b: int | 0 <= b < 256

  function Flatten<T>(chunks: seq<seq<T>>): seq<T> {
    if chunks == [] then [] else Flatten(chunks[..|chunks| - 1]) + chunks[|chunks| - 1]
  }

  lemma FlattenNothing<T>()
    ensures Flatten<T>([]) == []
  {
  }

  lemma FlattenPush<T>(chunks: seq<seq<T>>, chunk: seq<T>)
    ensures Flatten(chunks + [chunk]) == Flatten(chunks) + chunk
  {
    assert (chunks + [chunk])[..|chunks|] == chunks;
  }

  lemma {:induction false} FlattenCons<T>(chunk: seq<T>, chunks: seq<seq<T>>)
    ensures Flatten([chunk] + chunks) == chunk + Flatten(chunks)
  {
    if chunks == [] {
      assert [chunk] + chunks == [] + [chunk];
      FlattenPush([], chunk);
    } else {
      var front, last := chunks[..|chunks| - 1], chunks[|chunks| - 1];
      FlattenCons(chunk, front);
      FlattenPush([chunk] + front, last);
      assert [chunk] + chunks == ([chunk] + front) + [last];
    }
  }

  lemma {:induction false} FlattenPrefix<T>(chunks: seq<seq<T>>, n: nat)
    requires n <= |chunks|
    ensures Flatten(chunks[..n]) <= Flatten(chunks)
  {
    if n < |chunks| {
      FlattenPrefix(chunks[..|chunks| - 1], n);
      assert chunks[..|chunks| - 1][..n] == chunks[..n];
    } else {
      assert chunks[..n] == chunks;
    }
  }

  /** The first `n` elements, or all of them when there are fewer. */
  function First<T>(s: seq<T>, n: nat): (r: seq<T>)
    ensures r <= s && |r| == if |s| < n then |s| else n
  {
    if |s| < n then s else s[..n]
  }

  lemma FirstOfExtension<T>(s: seq<T>, chunk: seq<T>, n: nat)
    ensures First(s, n) + First(chunk, n - |First(s, n)|) == First(s + chunk, n)
    ensures |s| >= n ==> First(s + chunk, n) == First(s, n)
  {
  }
}
