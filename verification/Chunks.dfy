/** A stream in the pieces it arrives in. */
module Chunks {
  function Joined<T>(chunks: seq<seq<T>>): seq<T> {
    if |chunks| == 0 then [] else Joined(chunks[..|chunks| - 1]) + chunks[|chunks| - 1]
  }

  lemma JoinedNone<T>()
    ensures Joined<T>([]) == []
  {
  }

  lemma JoinedOne<T>(chunk: seq<T>)
    ensures Joined([chunk]) == chunk
  {
    assert [chunk][..0] == [];
  }

  lemma JoinedNext<T>(chunks: seq<seq<T>>, n: nat)
    requires n < |chunks|
    ensures Joined(chunks[..n + 1]) == Joined(chunks[..n]) + chunks[n]
  {
    assert chunks[..n + 1][..n] == chunks[..n];
  }

  lemma {:induction false} JoinedPrefix<T>(chunks: seq<seq<T>>, n: nat)
    requires n <= |chunks|
    ensures Joined(chunks[..n]) <= Joined(chunks)
    decreases |chunks| - n
  {
    if n < |chunks| {
      JoinedNext(chunks, n);
      JoinedPrefix(chunks, n + 1);
    } else {
      assert chunks[..n] == chunks;
    }
  }
}
