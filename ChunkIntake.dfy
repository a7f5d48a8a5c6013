/** The loop at the start of `reconstruct` that checks each incoming chunk
    and places it in the slot table handed to the Reed–Solomon decoder. */
module ChunkIntake {
  import opened Types
  import opened Bytes

  /** A chunk as the caller supplies it: its bytes and its validator index. */
  type Chunk = (seq<byte>, nat)

  /** One slot per validator; `None` where no chunk arrived. */
  type Slots = seq<Option<seq<byte>>>

  /** `chunks.into_iter().take(nValidators)`. */
  function Take(chunks: seq<Chunk>, nValidators: nat): (r: seq<Chunk>)
    ensures |r| == Min(|chunks|, nValidators)
    ensures forall k :: 0 <= k < |r| ==> r[k] == chunks[k]
  {
    chunks[..Min(|chunks|, nValidators)]
  }

  /** The checks one turn of the loop makes, in the source's order, where
      `shardLen` is the length of the first chunk: index in bounds, an even
      first length, then a length equal to the first and non-zero. */
  function CheckChunk(nValidators: nat, shardLen: nat, c: Chunk): (r: Option<Error>)
    ensures r.None? <==> c.1 < nValidators && shardLen % 2 == 0 && |c.0| == shardLen > 0
    ensures c.1 >= nValidators ==> r == Some(ChunkIndexOutOfBounds(c.1, nValidators))
    ensures c.1 < nValidators && shardLen % 2 != 0 ==> r == Some(UnevenLength)
    ensures c.1 < nValidators && shardLen % 2 == 0 && (|c.0| != shardLen || shardLen == 0) ==>
      r == Some(NonUniformChunks)
  {
    if c.1 >= nValidators then Some(ChunkIndexOutOfBounds(c.1, nValidators))
    else if shardLen % 2 != 0 then Some(UnevenLength)
    else if shardLen != |c.0| || shardLen == 0 then Some(NonUniformChunks)
    else None
  }

  /** What the loop produces from the chunks `cs`, taken in order: the first
      failed check, or the slot table with every chunk in its slot. */
  function Intake(nValidators: nat, cs: seq<Chunk>): (r: Result<Slots>)
    ensures r.Success? ==> |r.value| == nValidators
    decreases |cs|
  {
    if cs == [] then Success(seq(nValidators, _ => None))
    else
      match Intake(nValidators, cs[..|cs| - 1])
      case Failure(e) => Failure(e)
      case Success(slots) =>
        var c := cs[|cs| - 1];
        match CheckChunk(nValidators, |cs[0].0|, c)
        case Some(e) => Failure(e)
        case None => Success(slots[c.1 := Some(c.0)])
  }

  /** Once a prefix of the chunks fails, the loop has returned: later chunks
      change nothing. */
  lemma {:induction false} IntakeFailureSticks(n: nat, cs: seq<Chunk>, k: nat)
    requires k <= |cs| && Intake(n, cs[..k]).Failure?
    ensures Intake(n, cs) == Intake(n, cs[..k])
    decreases |cs|
  {
    if k < |cs| {
      var front := cs[..|cs| - 1];
      assert front[..k] == cs[..k];
      IntakeFailureSticks(n, front, k);
    } else {
      assert cs[..k] == cs;
    }
  }

  /** The loop of `reconstruct`: `shardLen` is set by the first chunk that
      passes the index check, and each accepted chunk is put in its slot. */
  method IntakeChunks(nValidators: nat, chunks: seq<Chunk>) returns (r: Result<Slots>)
    ensures r == Intake(nValidators, Take(chunks, nValidators))
  {
    var shards: Slots := seq(nValidators, _ => None);
    var shardLen: Option<nat> := None;
    var m := Min(|chunks|, nValidators);
    var k := 0;
    while k < m
      invariant k <= m
      invariant Intake(nValidators, chunks[..k]) == Success(shards)
      invariant k == 0 ==> shardLen == None
      invariant k > 0 ==> shardLen == Some(|chunks[0].0|)
    {
      var (data, idx) := chunks[k];
      assert chunks[..k + 1][..k] == chunks[..k];
      assert chunks[..k + 1][0] == chunks[0];
      if idx >= nValidators {
        r := Failure(ChunkIndexOutOfBounds(idx, nValidators));
        IntakeFailureSticks(nValidators, chunks[..m], k + 1);
        assert chunks[..m][..k + 1] == chunks[..k + 1];
        return;
      }
      if shardLen.None? {
        shardLen := Some(|data|);
      }
      var len := shardLen.value;
      if len % 2 != 0 {
        r := Failure(UnevenLength);
        IntakeFailureSticks(nValidators, chunks[..m], k + 1);
        assert chunks[..m][..k + 1] == chunks[..k + 1];
        return;
      }
      if len != |data| || len == 0 {
        r := Failure(NonUniformChunks);
        IntakeFailureSticks(nValidators, chunks[..m], k + 1);
        assert chunks[..m][..k + 1] == chunks[..k + 1];
        return;
      }
      shards := shards[idx := Some(data)];
      k := k + 1;
    }
    r := Success(shards);
  }

  /** The intake succeeds exactly when every chunk has an index below the
      validator count and the length of the first chunk, which is even and
      non-zero. */
  lemma {:induction false} IntakeSucceedsIff(n: nat, cs: seq<Chunk>)
    ensures Intake(n, cs).Success? <==>
      forall k :: 0 <= k < |cs| ==>
        cs[k].1 < n && |cs[k].0| == |cs[0].0| && |cs[0].0| % 2 == 0 && |cs[0].0| > 0
    decreases |cs|
  {
    if cs != [] {
      var front := cs[..|cs| - 1];
      IntakeSucceedsIff(n, front);
      if front != [] {
        assert front[0] == cs[0];
      }
      assert forall k :: 0 <= k < |front| ==> front[k] == cs[k];
    }
  }

  /** The error the intake reports is the first failed check of the first
      chunk that fails one. */
  lemma {:induction false} IntakeFirstError(n: nat, cs: seq<Chunk>)
    requires Intake(n, cs).Failure?
    ensures exists k ::
      && 0 <= k < |cs|
      && (forall j :: 0 <= j < k ==> CheckChunk(n, |cs[0].0|, cs[j]).None?)
      && CheckChunk(n, |cs[0].0|, cs[k]) == Some(Intake(n, cs).error)
    decreases |cs|
  {
    var front := cs[..|cs| - 1];
    var k := |cs| - 1;
    if Intake(n, front).Failure? {
      IntakeFirstError(n, front);
      assert front[0] == cs[0];
      var i :| 0 <= i < |front|
        && (forall j :: 0 <= j < i ==> CheckChunk(n, |front[0].0|, front[j]).None?)
        && CheckChunk(n, |front[0].0|, front[i]) == Some(Intake(n, front).error);
      assert forall j :: 0 <= j < |front| ==> front[j] == cs[j];
      assert CheckChunk(n, |cs[0].0|, cs[i]) == Some(Intake(n, cs).error);
    } else {
      IntakeSucceedsIff(n, front);
      if front != [] {
        assert front[0] == cs[0];
      }
      forall j | 0 <= j < k
        ensures CheckChunk(n, |cs[0].0|, cs[j]).None?
      {
        assert front[j] == cs[j];
      }
    }
  }

  /** A first chunk with an index in bounds and an odd length is reported
      as `UnevenLength`, whatever the later chunks look like: the loop
      returns on its first turn. */
  lemma IntakeUnevenFirst(n: nat, cs: seq<Chunk>)
    requires |cs| > 0 && |cs[0].0| % 2 == 1 && cs[0].1 < n
    ensures Intake(n, cs) == Failure(UnevenLength)
  {
    IntakeSucceedsIff(n, cs);
    IntakeFirstError(n, cs);
  }

  /** The intake looks only at indices and lengths: chunks of one even,
      non-zero length under in-bounds indices pass, whatever bytes they
      carry. */
  lemma PassIntakeByLength(n: nat, len: nat, cs: seq<Chunk>)
    requires len > 0 && len % 2 == 0
    requires forall k :: 0 <= k < |cs| ==> cs[k].1 < n && |cs[k].0| == len
    ensures Intake(n, cs).Success?
  {
    IntakeSucceedsIff(n, cs);
  }

  /** The chunk most recently given for slot `i`, if any. */
  function Latest(cs: seq<Chunk>, i: nat): (r: Option<seq<byte>>)
    decreases |cs|
  {
    if cs == [] then None
    else if cs[|cs| - 1].1 == i then Some(cs[|cs| - 1].0)
    else Latest(cs[..|cs| - 1], i)
  }

  /** `Latest` finds the last chunk for the slot, and nothing when no chunk
      names it. */
  lemma {:induction false} LatestIsLast(cs: seq<Chunk>, i: nat)
    ensures Latest(cs, i).None? <==> forall k :: 0 <= k < |cs| ==> cs[k].1 != i
    ensures Latest(cs, i).Some? ==> exists k ::
      && 0 <= k < |cs|
      && cs[k] == (Latest(cs, i).value, i)
      && forall j :: k < j < |cs| ==> cs[j].1 != i
    decreases |cs|
  {
    if cs != [] {
      var front := cs[..|cs| - 1];
      LatestIsLast(front, i);
      assert forall k :: 0 <= k < |front| ==> front[k] == cs[k];
      if cs[|cs| - 1].1 == i {
        assert cs[|cs| - 1] == (Latest(cs, i).value, i);
      }
    }
  }

  /** After a successful intake, slot i holds the last chunk given for
      index i, and stays empty when none was given. */
  lemma {:induction false} IntakeSlots(n: nat, cs: seq<Chunk>)
    requires Intake(n, cs).Success?
    ensures forall i :: 0 <= i < n ==> Intake(n, cs).value[i] == Latest(cs, i)
    decreases |cs|
  {
    if cs != [] {
      var front := cs[..|cs| - 1];
      IntakeSlots(n, front);
    }
  }
}
