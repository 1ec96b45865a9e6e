/** The full-replace upload of prepared features to the remote feature layer:
    features are sent in chunks of 100, in order, and the per-feature success
    flags of each reply are tallied.  The remote layer is a parameter: for the
    k-th chunk sent it either raises or replies with a list of success flags
    (the reply's `addResults`, empty when the reply has none). */
module BatchUpload {
  import opened Common

  const ChunkSize: nat := 100

  /** What one add call gives back. */
  datatype AddResponse = Raised | Replied(results: seq<bool>)

  /** Features added and failed. */
  datatype Tally = Tally(added: int, failed: int)

  /** `[fs[i:i + size] for i in range(0, len(fs), size)]`. */
  function Chunks<F>(fs: seq<F>, size: nat): (cs: seq<seq<F>>)
    requires size > 0
    ensures fs == [] <==> cs == []
    decreases |fs|
  {
    if fs == [] then []
    else if |fs| <= size then [fs]
    else [fs[..size]] + Chunks(fs[size..], size)
  }

  /** The chunks, put back together, are the features in their order. */
  lemma {:induction false} ChunksFlatten<F>(fs: seq<F>, size: nat)
    requires size > 0
    ensures Flatten(Chunks(fs, size)) == fs
    decreases |fs|
  {
    if fs != [] && |fs| > size {
      ChunksFlatten(fs[size..], size);
      var rest := Chunks(fs[size..], size);
      assert ([fs[..size]] + rest)[1..] == rest;
      assert fs == fs[..size] + fs[size..];
    } else if fs != [] {
      assert [fs][1..] == [];
    }
  }

  /** Every chunk but the last holds exactly `size` features and the last
      holds the remaining 1 to `size`. */
  lemma {:induction false} ChunksSizes<F>(fs: seq<F>, size: nat)
    requires size > 0
    ensures var cs := Chunks(fs, size);
      (forall k :: 0 <= k < |cs| - 1 ==> |cs[k]| == size) &&
      (cs != [] ==> 1 <= |cs[|cs| - 1]| <= size && |fs| == (|cs| - 1) * size + |cs[|cs| - 1]|)
    decreases |fs|
  {
    if fs != [] && |fs| > size {
      ChunksSizes(fs[size..], size);
      var rest := Chunks(fs[size..], size);
      var cs := [fs[..size]] + rest;
      assert cs[1..] == rest;
      assert (|rest| - 1) * size + size == |rest| * size;
    }
  }

  function CountTrue(rs: seq<bool>): (n: nat)
    ensures n <= |rs|
  {
    if rs == [] then 0 else (if rs[0] then 1 else 0) + CountTrue(rs[1..])
  }

  /** The tally of one chunk of `size` features.  A reply with success flags
      counts the successes, and the rest of the chunk as failed; a reply
      without results, or a call that raises, fails the whole chunk. */
  function ChunkTally(response: AddResponse, size: nat): (t: Tally)
    ensures t.added + t.failed == size
    ensures 0 <= t.added
    ensures response.Replied? && |response.results| <= size ==> 0 <= t.failed
    ensures response == Raised || response == Replied([]) ==> t == Tally(0, size)
  {
    match response
    case Raised => Tally(0, size)
    case Replied(rs) =>
      if rs == [] then Tally(0, size) else Tally(CountTrue(rs), size - CountTrue(rs))
  }

  /** The running totals after the given chunks, the k-th of which got
      `respond(k, chunk)`. */
  function Tallied<F>(chunks: seq<seq<F>>, respond: (nat, seq<F>) -> AddResponse): Tally
  {
    if chunks == [] then Tally(0, 0)
    else
      var n := |chunks| - 1;
      var before := Tallied(chunks[..n], respond);
      var t := ChunkTally(respond(n, chunks[n]), |chunks[n]|);
      Tally(before.added + t.added, before.failed + t.failed)
  }

  /** Every feature of every chunk is counted once, as added or as failed;
      nothing is counted as added that was not reported a success, and no
      count of failures is negative while replies are no longer than their
      chunks. */
  lemma {:induction false} TalliedAccounting<F>(chunks: seq<seq<F>>, respond: (nat, seq<F>) -> AddResponse)
    ensures Tallied(chunks, respond).added + Tallied(chunks, respond).failed == |Flatten(chunks)|
    ensures Tallied(chunks, respond).added >= 0
    ensures (forall k :: 0 <= k < |chunks| ==> match respond(k, chunks[k])
                                              case Raised => true
                                              case Replied(rs) => |rs| <= |chunks[k]|)
            ==> Tallied(chunks, respond).failed >= 0
  {
    if chunks != [] {
      var n := |chunks| - 1;
      TalliedAccounting(chunks[..n], respond);
      assert chunks == chunks[..n] + [chunks[n]];
      FlattenConcat(chunks[..n], [chunks[n]]);
      assert Flatten([chunks[n]]) == chunks[n] + Flatten([]);
    }
  }

  /** Sending one more chunk adds its tally to the totals. */
  lemma {:induction false} TalliedStep<F>(chunks: seq<seq<F>>, c: seq<F>, respond: (nat, seq<F>) -> AddResponse)
    ensures var before := Tallied(chunks, respond);
      var t := ChunkTally(respond(|chunks|, c), |c|);
      Tallied(chunks + [c], respond) == Tally(before.added + t.added, before.failed + t.failed)
  {
    assert (chunks + [c])[..|chunks|] == chunks;
  }

  /** The chunk loop: every chunk is sent in order, whatever the earlier
      replies were, and the totals account for every feature. */
  method AddInChunks<F>(features: seq<F>, respond: (nat, seq<F>) -> AddResponse)
    returns (sent: seq<seq<F>>, added: int, failed: int)
    ensures sent == Chunks(features, ChunkSize)
    ensures Tally(added, failed) == Tallied(sent, respond)
    ensures added + failed == |features| && added >= 0
    ensures features == [] ==> sent == [] && added == 0 && failed == 0
  {
    sent := [];
    added, failed := 0, 0;
    var rest := features;
    while rest != []
      invariant sent + Chunks(rest, ChunkSize) == Chunks(features, ChunkSize)
      invariant Tally(added, failed) == Tallied(sent, respond)
      decreases |rest|
    {
      var end := if ChunkSize <= |rest| then ChunkSize else |rest|;
      var chunk := rest[..end];
      if end == |rest| {
        assert chunk == rest && rest[end..] == [];
      }
      assert Chunks(rest, ChunkSize) == [chunk] + Chunks(rest[end..], ChunkSize);
      var t := ChunkTally(respond(|sent|, chunk), |chunk|);
      added, failed := added + t.added, failed + t.failed;
      TalliedStep(sent, chunk, respond);
      sent := sent + [chunk];
      rest := rest[end..];
    }
    ChunksFlatten(features, ChunkSize);
    TalliedAccounting(sent, respond);
  }
}
