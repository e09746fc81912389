/** Turning the byte chunks of a decoder's output into four-byte audio samples. */
module SampleFeed {
  import opened Prelude

  const SAMPLE_BYTES := 4

  /** The bytes as consecutive four-byte samples. */
  function Samples(bytes: Bytes): (samples: seq<Bytes>)
    requires |bytes| % SAMPLE_BYTES == 0
    ensures |samples| * SAMPLE_BYTES == |bytes|
    ensures forall i | 0 <= i < |samples| :: |samples[i]| == SAMPLE_BYTES
  {
    if bytes == [] then [] else [bytes[..SAMPLE_BYTES]] + Samples(bytes[SAMPLE_BYTES..])
  }

  function Flatten(samples: seq<Bytes>): (bytes: Bytes) {
    if samples == [] then [] else samples[0] + Flatten(samples[1..])
  }

  /** The `data` handler of a stream: what it keeps back and what it has fed so far. */
  class AudioStream {
    var leftover: Bytes
    var fed: seq<Bytes>

    constructor ()
      ensures leftover == [] && fed == []
    {
      leftover, fed := [], [];
    }

    method OnData(chunk: Bytes)
      modifies this
      ensures (fed, leftover) == Fed(old(fed), old(leftover), chunk)
    {
      var buf := if |leftover| > 0 then leftover + chunk else chunk;
      assert [] + chunk == chunk;
      assert buf == old(leftover) + chunk;
      var usable := |buf| - |buf| % SAMPLE_BYTES;
      leftover := if usable < |buf| then buf[usable..] else [];
      assert buf[usable..] == leftover;
      if usable == 0 {
        assert buf[..0] == [];
        assert fed + [] == fed;
        return;
      }
      fed := fed + Samples(buf[..usable]);
    }
  }

  function Fed(fed: seq<Bytes>, leftover: Bytes, chunk: Bytes): (r: (seq<Bytes>, Bytes)) {
    var buf := leftover + chunk;
    var usable := |buf| - |buf| % SAMPLE_BYTES;
    (fed + Samples(buf[..usable]), buf[usable..])
  }

  function FeedAll(chunks: seq<Bytes>): (r: (seq<Bytes>, Bytes)) {
    if chunks == [] then ([], [])
    else
      var before := FeedAll(chunks[..|chunks| - 1]);
      Fed(before.0, before.1, chunks[|chunks| - 1])
  }

  lemma {:induction false} SamplesAppend(a: Bytes, b: Bytes)
    requires |a| % SAMPLE_BYTES == 0 && |b| % SAMPLE_BYTES == 0
    ensures Samples(a + b) == Samples(a) + Samples(b)
    decreases |a|
  {
    if a == [] {
      assert a + b == b;
    } else {
      assert (a + b)[..SAMPLE_BYTES] == a[..SAMPLE_BYTES];
      assert (a + b)[SAMPLE_BYTES..] == a[SAMPLE_BYTES..] + b;
      SamplesAppend(a[SAMPLE_BYTES..], b);
    }
  }

  lemma {:induction false} FlattenSamples(bytes: Bytes)
    requires |bytes| % SAMPLE_BYTES == 0
    ensures Flatten(Samples(bytes)) == bytes
    decreases |bytes|
  {
    if bytes != [] {
      FlattenSamples(bytes[SAMPLE_BYTES..]);
      assert bytes == bytes[..SAMPLE_BYTES] + bytes[SAMPLE_BYTES..];
    }
  }

  /** The whole four-byte groups of some bytes, and the rest. */
  function Grouped(bytes: Bytes): (r: (seq<Bytes>, Bytes)) {
    var usable := |bytes| - |bytes| % SAMPLE_BYTES;
    (Samples(bytes[..usable]), bytes[usable..])
  }

  /** One more chunk keeps the fed samples the groups of all bytes. */
  lemma FedGroups(before: Bytes, chunk: Bytes)
    ensures Fed(Grouped(before).0, Grouped(before).1, chunk) == Grouped(before + chunk)
  {
    hide Samples;
    var u := |before| - |before| % SAMPLE_BYTES;
    var bytes, buf := before + chunk, before[u..] + chunk;
    var v := |buf| - |buf| % SAMPLE_BYTES;
    assert bytes[..u + v] == before[..u] + buf[..v];
    assert bytes[u + v..] == buf[v..];
    SamplesAppend(before[..u], buf[..v]);
    assert |bytes| - |bytes| % SAMPLE_BYTES == u + v;
  }

  /**
   * However the stream is cut into chunks, the fed samples are the whole
   * four-byte groups of all bytes so far, and what is kept back is the rest.
   */
  lemma {:induction false} FeedIsGrouping(chunks: seq<Bytes>)
    ensures FeedAll(chunks) == Grouped(Concat(chunks))
  {
    if chunks == [] {
      assert Concat(chunks) == [];
    } else {
      var front, chunk := chunks[..|chunks| - 1], chunks[|chunks| - 1];
      hide Fed, Grouped, Samples;
      FeedIsGrouping(front);
      FedGroups(Concat(front), chunk);
    }
  }

  /** Two ways of cutting the same bytes feed the same samples and keep the same rest. */
  lemma ChunkingIrrelevant(chunks: seq<Bytes>, others: seq<Bytes>)
    requires Concat(chunks) == Concat(others)
    ensures FeedAll(chunks) == FeedAll(others)
  {
    FeedIsGrouping(chunks);
    FeedIsGrouping(others);
  }

  /** Nothing is lost, repeated or reordered, and less than one sample is kept back. */
  lemma FeedConserves(chunks: seq<Bytes>)
    ensures Flatten(FeedAll(chunks).0) + FeedAll(chunks).1 == Concat(chunks)
    ensures |FeedAll(chunks).1| < 4 && forall i | 0 <= i < |FeedAll(chunks).0| :: |FeedAll(chunks).0[i]| == 4
  {
    hide FeedAll, Flatten, Concat;
    FeedIsGrouping(chunks);
    var bytes := Concat(chunks);
    var usable := |bytes| - |bytes| % SAMPLE_BYTES;
    FlattenSamples(bytes[..usable]);
    assert bytes == bytes[..usable] + bytes[usable..];
  }
}
