/** `reconstruct` end to end, with the Reed–Solomon decoder taken as a
    given function of the slot table. */
module Recovery {
  import opened Types
  import opened Bytes
  import opened Params
  import opened ShardLayout
  import opened ChunkIntake

  /** What the external Reed–Solomon `reconstruct` reports: every shard
      restored, or one of the three errors `reconstruct` maps to its own. */
  datatype RsOutcome =
    | Recovered(shards: seq<seq<byte>>)
    | TooFewShardsPresent
    | InvalidShardFlags
    | TooManyShards

  /** The decoder's error mapped to the crate's, or the byte stream the data
      shards present once their length prefixes are stripped. */
  function AfterRecovery(dataShards: nat, outcome: RsOutcome): (r: Result<seq<byte>>)
    ensures outcome.TooFewShardsPresent? <==> r == Failure(NotEnoughChunks)
    ensures outcome.InvalidShardFlags? <==> r == Failure(WrongValidatorCount)
    ensures outcome.TooManyShards? <==> r == Failure(TooManyChunks)
    ensures outcome.Recovered? <==> r.Success?
  {
    match outcome
    case TooFewShardsPresent => Failure(NotEnoughChunks)
    case InvalidShardFlags => Failure(WrongValidatorCount)
    case TooManyShards => Failure(TooManyChunks)
    case Recovered(shards) =>
      Success(Concat(StripAll(shards[..Min(dataShards, |shards|)])))
  }

  /** `reconstruct`: parameters for the validator count, the intake loop,
      the decoder, then the stream of the first `dataShards` shards, which
      the payload decoder reads through a `ShardInput`. */
  method Reconstruct(nValidators: nat, chunks: seq<Chunk>, recover: Slots -> RsOutcome)
    returns (r: Result<seq<byte>>)
    ensures CodeParamsFor(nValidators).Failure? ==>
      r == Failure(CodeParamsFor(nValidators).error)
    ensures CodeParamsFor(nValidators).Success? && Intake(nValidators, Take(chunks, nValidators)).Failure? ==>
      r == Failure(Intake(nValidators, Take(chunks, nValidators)).error)
    ensures CodeParamsFor(nValidators).Success? && Intake(nValidators, Take(chunks, nValidators)).Success? ==>
      r == AfterRecovery(CodeParamsFor(nValidators).value.dataShards,
                         recover(Intake(nValidators, Take(chunks, nValidators)).value))
  {
    var params := CodeParamsFor(nValidators);
    if params.Failure? {
      return Failure(params.error);
    }
    var slots := IntakeChunks(nValidators, chunks);
    if slots.Failure? {
      return Failure(slots.error);
    }
    var outcome := recover(slots.value);
    r := AfterRecovery(params.value.dataShards, outcome);
  }

  /** The chunks `obtain_chunks` hands out all have the layout's shard
      length, so under in-bounds indices they pass the intake checks when
      that length is even, whatever the parity chunks hold. A data chunk is
      its layout shard unchanged (the encoder only writes the parity
      shards), so every data slot they fill holds the layout shard of its
      index. */
  lemma LayoutChunksPassIntake(nValidators: nat, payload: seq<byte>, chunks: seq<Chunk>)
    requires LayoutChunks(nValidators, payload, chunks)
    requires (ShardLen(CodeParamsFor(nValidators).value, |payload|) + 4) % 2 == 0
    ensures Intake(nValidators, Take(chunks, nValidators)).Success?
    ensures AgreesWithLayout(Intake(nValidators, Take(chunks, nValidators)).value,
                             Layout(CodeParamsFor(nValidators).value, payload),
                             CodeParamsFor(nValidators).value.dataShards)
  {
    var p := CodeParamsFor(nValidators).value;
    var cs := Take(chunks, nValidators);
    PassIntakeByLength(nValidators, ShardLen(p, |payload|) + 4, cs);
    SlotsFromLayout(nValidators, cs, Layout(p, payload), p.dataShards);
  }

  /** Chunks as `obtain_chunks` hands them out, each under an in-bounds
      index: every chunk has the layout's shard length, and a chunk with a
      data index is the layout shard of that index. Parity chunks may hold
      anything. */
  ghost predicate LayoutChunks(nValidators: nat, payload: seq<byte>, chunks: seq<Chunk>)
  {
    && CodeParamsFor(nValidators).Success? && |payload| > 0
    && (forall k :: 0 <= k < |chunks| ==>
          && chunks[k].1 < nValidators
          && |chunks[k].0| == ShardLen(CodeParamsFor(nValidators).value, |payload|) + 4)
    && (forall k :: 0 <= k < |chunks| && chunks[k].1 < CodeParamsFor(nValidators).value.dataShards ==>
          chunks[k].0 == Layout(CodeParamsFor(nValidators).value, payload)[chunks[k].1])
  }

  /** The slot table has one slot per shard, and each of its first `d`
      slots is empty or holds the layout shard of its index. */
  ghost predicate AgreesWithLayout(slots: Slots, layout: seq<seq<byte>>, d: nat)
  {
    && |slots| == |layout|
    && forall i :: 0 <= i < d && i < |slots| ==> slots[i] in {None, Some(layout[i])}
  }

  /** Slots filled only from chunks that carry, below index `d`, the shard
      of their own index hold that shard there. */
  lemma SlotsFromLayout(nValidators: nat, cs: seq<Chunk>, layout: seq<seq<byte>>, d: nat)
    requires |layout| == nValidators && Intake(nValidators, cs).Success?
    requires forall k :: 0 <= k < |cs| && cs[k].1 < d ==> cs[k].1 < nValidators && cs[k].0 == layout[cs[k].1]
    ensures AgreesWithLayout(Intake(nValidators, cs).value, layout, d)
  {
    IntakeSlots(nValidators, cs);
    forall i | 0 <= i < d && i < nValidators
      ensures Latest(cs, i) in {None, Some(layout[i])}
    {
      LatestIsLast(cs, i);
    }
  }

  /** The round trip of `obtain_chunks` and `reconstruct`: once the decoder
      has restored the data shards of a layout, the stream they present is
      the payload. */
  lemma ReconstructRoundTrip(nValidators: nat, payload: seq<byte>, recovered: seq<seq<byte>>)
    requires CodeParamsFor(nValidators).Success? && |payload| > 0
    requires ShardLen(CodeParamsFor(nValidators).value, |payload|) < U32_LIMIT
    requires |recovered| >= CodeParamsFor(nValidators).value.dataShards
    requires recovered[..CodeParamsFor(nValidators).value.dataShards]
          == Layout(CodeParamsFor(nValidators).value, payload)[..CodeParamsFor(nValidators).value.dataShards]
    ensures AfterRecovery(CodeParamsFor(nValidators).value.dataShards, Recovered(recovered)) == Success(payload)
  {
    LayoutRoundTrip(CodeParamsFor(nValidators).value, payload);
  }

  /** The decoder gives back the data shards of the layout. */
  ghost predicate RestoresData(outcome: RsOutcome, layout: seq<seq<byte>>, d: nat)
  {
    outcome.Recovered? && |outcome.shards| >= d && d <= |layout| && outcome.shards[..d] == layout[..d]
  }

  /** `obtain_chunks` followed by `reconstruct`: chunks of the layout's
      shard length under in-bounds indices, whose data chunks are the
      layout's data shards, given to a decoder that restores the data
      shards from the slot table the intake builds, rebuild the payload. */
  method RecoverPayload(nValidators: nat, payload: seq<byte>, chunks: seq<Chunk>, recover: Slots -> RsOutcome)
    returns (r: Result<seq<byte>>)
    requires LayoutChunks(nValidators, payload, chunks)
    requires ShardLen(CodeParamsFor(nValidators).value, |payload|) < U32_LIMIT
    requires (ShardLen(CodeParamsFor(nValidators).value, |payload|) + 4) % 2 == 0
    requires Intake(nValidators, Take(chunks, nValidators)).Success? ==>
      RestoresData(recover(Intake(nValidators, Take(chunks, nValidators)).value),
                   Layout(CodeParamsFor(nValidators).value, payload),
                   CodeParamsFor(nValidators).value.dataShards)
    ensures r == Success(payload)
  {
    LayoutChunksPassIntake(nValidators, payload, chunks);
    r := Reconstruct(nValidators, chunks, recover);
    ReconstructRoundTrip(nValidators, payload, recover(Intake(nValidators, Take(chunks, nValidators)).value).shards);
  }
}
