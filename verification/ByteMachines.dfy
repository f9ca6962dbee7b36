/** Decoders that eat a stream byte by byte and emit something now and then. */
module ByteMachines {
  import opened Common

  datatype Fed<S, T> = Fed(state: S, emitted: seq<T>)

  /** One chunk of input. */
  function Feed<S, T>(step: (S, Byte) -> Fed<S, T>, s: S, input: Bytes): Fed<S, T> {
    if input == [] then Fed(s, [])
    else
      var before := Feed(step, s, input[..|input| - 1]);
      var last := step(before.state, input[|input| - 1]);
      Fed(last.state, before.emitted + last.emitted)
  }

  /** A stream that arrives in several reads. */
  function FeedChunks<S, T>(step: (S, Byte) -> Fed<S, T>, s: S, chunks: seq<Bytes>): Fed<S, T>
    decreases chunks
  {
    if chunks == [] then Fed(s, [])
    else
      var first := Feed(step, s, chunks[0]);
      var rest := FeedChunks(step, first.state, chunks[1..]);
      Fed(rest.state, first.emitted + rest.emitted)
  }

  lemma {:induction false} FeedAppend<S, T>(step: (S, Byte) -> Fed<S, T>, s: S, a: Bytes, b: Bytes)
    ensures var first := Feed(step, s, a); var second := Feed(step, first.state, b);
      Feed(step, s, a + b) == Fed(second.state, first.emitted + second.emitted)
  {
    if b == [] {
      assert a + b == a;
    } else {
      var n := |b| - 1;
      assert (a + b)[..|a + b| - 1] == a + b[..n];
      FeedAppend(step, s, a, b[..n]);
    }
  }

  /** How the stream is cut into reads never matters. */
  lemma {:induction false} FeedChunksIsFeed<S, T>(step: (S, Byte) -> Fed<S, T>, s: S, chunks: seq<Bytes>)
    ensures FeedChunks(step, s, chunks) == Feed(step, s, Flatten(chunks))
    decreases chunks
  {
    if chunks != [] {
      FeedChunksIsFeed(step, Feed(step, s, chunks[0]).state, chunks[1..]);
      FeedAppend(step, s, chunks[0], Flatten(chunks[1..]));
    }
  }

  lemma FeedOne<S, T>(step: (S, Byte) -> Fed<S, T>, s: S, value: Byte)
    ensures Feed(step, s, [value]) == step(s, value)
  {
    assert [value][..0] == [];
    assert Feed(step, s, []) == Fed(s, []);
  }

  lemma FeedNone<S, T>(step: (S, Byte) -> Fed<S, T>, s: S)
    ensures Feed(step, s, []) == Fed(s, [])
  {
  }

  lemma FeedSilently<S, T>(step: (S, Byte) -> Fed<S, T>, s: S, a: Bytes, b: Bytes)
    requires Feed(step, s, a).emitted == []
    ensures Feed(step, s, a + b) == Feed(step, Feed(step, s, a).state, b)
  {
    FeedAppend(step, s, a, b);
  }
}
