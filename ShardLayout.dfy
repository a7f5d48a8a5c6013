/** How `make_shards_for` lays a payload out over the shards, and how
    `reconstruct` strips the length prefixes off the data shards again. */
module ShardLayout {
  import opened Types
  import opened Bytes
  import opened Params

  /** The pieces `payload.chunks(size)` yields: consecutive slices of `size`
      bytes, the last one possibly shorter. A size of zero makes the
      iterator panic, hence the precondition. */
  function Pieces(s: seq<byte>, size: nat): (r: seq<seq<byte>>)
    requires size > 0
    ensures forall j :: 0 <= j < |r| ==> 0 < |r[j]| <= size
    ensures |s| > 0 <==> |r| > 0
    decreases |s|
  {
    if |s| == 0 then []
    else if |s| <= size then [s]
    else [s[..size]] + Pieces(s[size..], size)
  }

  /** Joined together, the pieces are the payload. */
  lemma {:induction false} PiecesConcat(s: seq<byte>, size: nat)
    requires size > 0
    ensures Concat(Pieces(s, size)) == s
    decreases |s|
  {
    if |s| == 0 {
    } else if |s| <= size {
      assert Concat([s]) == s + Concat([]);
    } else {
      var rest := Pieces(s[size..], size);
      PiecesConcat(s[size..], size);
      assert ([s[..size]] + rest)[1..] == rest;
      assert s == s[..size] + s[size..];
    }
  }

  /** There are just enough pieces to cover the payload. */
  lemma {:induction false} PiecesCount(s: seq<byte>, size: nat)
    requires size > 0
    ensures |Pieces(s, size)| * size >= |s|
    ensures (|Pieces(s, size)| - 1) * size < |s|
    decreases |s|
  {
    if |s| > size {
      var rest := Pieces(s[size..], size);
      PiecesCount(s[size..], size);
      assert |Pieces(s, size)| == |rest| + 1;
      assert (|rest| + 1) * size == |rest| * size + size;
    }
  }

  /** Piece j is the payload's bytes [j*size, min((j+1)*size, |s|)), and it
      is not empty. */
  lemma {:induction false} PieceAt(s: seq<byte>, size: nat, j: nat)
    requires size > 0 && j < |Pieces(s, size)|
    ensures j * size < |s|
    ensures Pieces(s, size)[j] == s[j * size .. Min((j + 1) * size, |s|)]
    ensures 0 < |Pieces(s, size)[j]| <= size
    decreases |s|
  {
    var r := Pieces(s, size);
    if |s| <= size {
      assert r == [s] && j == 0;
    } else if j == 0 {
      assert r[0] == s[..size];
    } else {
      var rest := Pieces(s[size..], size);
      var i := j - 1;
      assert r[j] == rest[i];
      PieceAt(s[size..], size, i);
      var lo, hi := i * size, Min((i + 1) * size, |s| - size);
      assert rest[i] == s[size..][lo .. hi];
      MulSucc(i, size);
      MulSucc(j, size);
      assert hi + size == Min((j + 1) * size, |s|);
      assert s[size..][lo .. hi] == s[lo + size .. hi + size];
    }
  }

  lemma MulSucc(i: nat, size: nat)
    ensures (i + 1) * size == i * size + size
  {
  }

  lemma MulMonotone(a: nat, b: nat, c: nat)
    requires a <= b
    ensures a * c <= b * c
  {
  }

  /** With `ShardLen`'s piece size, a non-empty payload needs at most
      `dataShards` pieces, so every piece lands in a data shard. */
  lemma PiecesFit(p: CodeParams, s: seq<byte>)
    requires p.dataShards > 0 && |s| > 0
    ensures |Pieces(s, ShardLen(p, |s|))| <= p.dataShards
  {
    var size := ShardLen(p, |s|);
    var count := |Pieces(s, size)|;
    PiecesCount(s, size);
    if count > p.dataShards {
      MulMonotone(p.dataShards, count - 1, size);
      assert false;
    }
  }

  /** One shard as `make_shards_for` fills it: the piece length as a
      little-endian u32 (the `as u32` cast keeps the low 32 bits), then at
      most `shardLen` bytes of the piece, then zeros up to `shardLen + 4`. */
  function Framed(piece: seq<byte>, shardLen: nat): (shard: seq<byte>)
    ensures |shard| == shardLen + 4
  {
    var len := Min(|piece|, shardLen);
    EncodeU32(len % U32_LIMIT) + piece[..len] + Zeros(shardLen - len)
  }

  lemma FramedShape(piece: seq<byte>, shardLen: nat)
    requires |piece| <= shardLen < U32_LIMIT
    ensures |Framed(piece, shardLen)| == shardLen + 4
    ensures DecodeU32(Framed(piece, shardLen)[..4]) == |piece|
    ensures Framed(piece, shardLen)[4 .. 4 + |piece|] == piece
    ensures forall k :: 4 + |piece| <= k < shardLen + 4 ==> Framed(piece, shardLen)[k] == 0
  {
    var f := Framed(piece, shardLen);
    assert f[..4] == EncodeU32(|piece|);
    DecodeEncodeU32(|piece|);
    assert f[4 .. 4 + |piece|] == piece;
  }

  /** Framing the empty piece gives an all-zero shard, so a zero shard is
      the framing of nothing and strips to no bytes. */
  lemma FramedEmpty(shardLen: nat)
    ensures Framed([], shardLen) == Zeros(shardLen + 4)
  {
    assert EncodeU32(0) == Zeros(4);
  }

  /** The shards `make_shards_for` returns for a non-empty payload: one per
      validator, the first pieces framed, the rest zero. */
  function Layout(p: CodeParams, payload: seq<byte>): (r: seq<seq<byte>>)
    requires p.dataShards > 0 && |payload| > 0
    ensures |r| == p.dataShards + p.parityShards
  {
    var shardLen := ShardLen(p, |payload|);
    var pieces := Pieces(payload, shardLen);
    seq(p.dataShards + p.parityShards,
        j => if 0 <= j < |pieces| then Framed(pieces[j], shardLen) else Zeros(shardLen + 4))
  }

  lemma LayoutAt(p: CodeParams, payload: seq<byte>, j: nat)
    requires p.dataShards > 0 && |payload| > 0
    requires j < p.dataShards + p.parityShards
    ensures |Layout(p, payload)| == p.dataShards + p.parityShards
    ensures Layout(p, payload)[j] ==
      var shardLen := ShardLen(p, |payload|);
      var pieces := Pieces(payload, shardLen);
      if j < |pieces| then Framed(pieces[j], shardLen) else Zeros(shardLen + 4)
  {
  }

  lemma LayoutLengths(p: CodeParams, payload: seq<byte>)
    requires p.dataShards > 0 && |payload| > 0
    ensures |Layout(p, payload)| == p.dataShards + p.parityShards
    ensures forall j :: 0 <= j < |Layout(p, payload)| ==>
      |Layout(p, payload)[j]| == ShardLen(p, |payload|) + 4
  {
    forall j | 0 <= j < p.dataShards + p.parityShards
      ensures |Layout(p, payload)[j]| == ShardLen(p, |payload|) + 4
    {
      LayoutAt(p, payload, j);
    }
  }

  /** Every shard is `shardLen + 4` bytes long. The shard of a payload piece
      holds the piece's length as a little-endian u32, then the piece, then
      zeros; a shard without a piece is all zero. `PieceAt` says which bytes
      of the payload each piece holds. */
  lemma LayoutShardAt(p: CodeParams, payload: seq<byte>, j: nat)
    requires p.dataShards > 0 && |payload| > 0 && ShardLen(p, |payload|) < U32_LIMIT
    requires j < p.dataShards + p.parityShards
    ensures |Layout(p, payload)| == p.dataShards + p.parityShards
    ensures |Layout(p, payload)[j]| == ShardLen(p, |payload|) + 4
    ensures j < |Pieces(payload, ShardLen(p, |payload|))| ==>
      var piece := Pieces(payload, ShardLen(p, |payload|))[j];
      var shard := Layout(p, payload)[j];
      && 4 + |piece| <= |shard|
      && DecodeU32(shard[..4]) == |piece|
      && shard[4 .. 4 + |piece|] == piece
      && forall k :: 4 + |piece| <= k < |shard| ==> shard[k] == 0
    ensures j >= |Pieces(payload, ShardLen(p, |payload|))| ==>
      forall k :: 0 <= k < |Layout(p, payload)[j]| ==> Layout(p, payload)[j][k] == 0
  {
    var shardLen := ShardLen(p, |payload|);
    var pieces := Pieces(payload, shardLen);
    LayoutAt(p, payload, j);
    if j < |pieces| {
      PieceAt(payload, shardLen, j);
      FramedShape(pieces[j], shardLen);
    }
  }

  /** `vec![WrappedShard::new(vec![0; len]); count]`: `count` distinct,
      newly allocated zero buffers of `len` bytes. */
  method BlankShards(count: nat, len: nat) returns (shards: seq<array<byte>>)
    ensures |shards| == count
    ensures forall j :: 0 <= j < count ==> fresh(shards[j]) && shards[j][..] == Zeros(len)
    ensures forall i, j :: 0 <= i < j < count ==> shards[i] != shards[j]
  {
    shards := [];
    while |shards| < count
      invariant |shards| <= count
      invariant forall j :: 0 <= j < |shards| ==> fresh(shards[j]) && shards[j][..] == Zeros(len)
      invariant forall i, j :: 0 <= i < j < |shards| ==> shards[i] != shards[j]
    {
      var blank := new byte[len](_ => 0);
      assert blank[..] == Zeros(len);
      shards := shards + [blank];
    }
  }

  /** One turn of the loop in `make_shards_for`: the length prefix goes into
      the first 4 bytes of a zeroed buffer, the piece (cut to fit) after it. */
  method WritePiece(buf: array<byte>, piece: seq<byte>)
    requires buf.Length >= 4 && buf[..] == Zeros(buf.Length)
    modifies buf
    ensures buf[..] == Framed(piece, buf.Length - 4)
  {
    var len := Min(|piece|, buf.Length - 4);
    var prefix := EncodeU32(len % U32_LIMIT);
    forall i | 0 <= i < 4 {
      buf[i] := prefix[i];
    }
    forall i | 0 <= i < len {
      buf[4 + i] := piece[i];
    }
    assert buf[..] == prefix + piece[..len] + Zeros(buf.Length - 4 - len);
  }

  /** The loop of `make_shards_for`: `chunks(shardLen).zip(&mut shards)`
      frames piece k into buffer k and ends with the pieces, leaving the
      remaining buffers zero. */
  method FillShards(shards: seq<array<byte>>, pieces: seq<seq<byte>>, shardLen: nat)
    requires |pieces| <= |shards|
    requires forall i, j :: 0 <= i < j < |shards| ==> shards[i] != shards[j]
    requires forall j :: 0 <= j < |shards| ==> shards[j].Length == shardLen + 4 && shards[j][..] == Zeros(shardLen + 4)
    modifies set j | 0 <= j < |shards| :: shards[j]
    ensures forall j :: 0 <= j < |pieces| ==> shards[j][..] == Framed(pieces[j], shardLen)
    ensures forall j :: |pieces| <= j < |shards| ==> shards[j][..] == Zeros(shardLen + 4)
  {
    var k := 0;
    while k < |pieces| && k < |shards|
      invariant k <= |pieces|
      invariant forall j :: 0 <= j < |shards| ==> shards[j].Length == shardLen + 4
      invariant forall j :: 0 <= j < k ==> shards[j][..] == Framed(pieces[j], shardLen)
      invariant forall j :: k <= j < |shards| ==> shards[j][..] == Zeros(shardLen + 4)
    {
      WritePiece(shards[k], pieces[k]);
      k := k + 1;
    }
  }

  /** `make_shards_for`: one zeroed buffer of `shardLen + 4` bytes per
      validator, then piece k of the payload written into buffer k behind
      its length prefix. The buffers are distinct, newly allocated arrays. */
  method MakeShardsFor(p: CodeParams, payload: seq<byte>) returns (shards: seq<array<byte>>)
    requires p.dataShards > 0 && |payload| > 0
    ensures |shards| == p.dataShards + p.parityShards
    ensures forall j :: 0 <= j < |shards| ==> fresh(shards[j])
    ensures forall i, j :: 0 <= i < j < |shards| ==> shards[i] != shards[j]
    ensures forall j :: 0 <= j < |shards| ==> shards[j][..] == Layout(p, payload)[j]
  {
    var shardLen := ShardLen(p, |payload|);
    shards := BlankShards(p.dataShards + p.parityShards, shardLen + 4);
    var pieces := Pieces(payload, shardLen);
    PiecesFit(p, payload);
    FillShards(shards, pieces, shardLen);
    forall j | 0 <= j < |shards|
      ensures shards[j][..] == Layout(p, payload)[j]
    {
      LayoutAt(p, payload, j);
    }
  }

  /** `obtain_chunks` up to the Reed–Solomon step: the parameters for the
      validator count, a refusal of the empty payload, then the layout. */
  method ObtainChunks(nValidators: nat, encoded: seq<byte>) returns (r: Result<seq<seq<byte>>>)
    ensures CodeParamsFor(nValidators).Failure? ==> r == Failure(CodeParamsFor(nValidators).error)
    ensures CodeParamsFor(nValidators).Success? && |encoded| == 0 ==> r == Failure(BadPayload)
    ensures CodeParamsFor(nValidators).Success? && |encoded| > 0 ==>
      r == Success(Layout(CodeParamsFor(nValidators).value, encoded))
    ensures r.Success? ==> |r.value| == nValidators
  {
    var params := CodeParamsFor(nValidators);
    if params.Failure? {
      return Failure(params.error);
    }
    if |encoded| == 0 {
      return Failure(BadPayload);
    }
    var shards := MakeShardsFor(params.value, encoded);
    var chunks := seq(|shards|, j requires 0 <= j < |shards| reads shards => shards[j][..]);
    assert chunks == Layout(params.value, encoded);
    r := Success(chunks);
  }

  /** The `filter_map` over the data shards in `reconstruct`: read the u32
      length prefix and keep that many of the following bytes; a shard too
      short for its prefix or for the announced length yields nothing. */
  function StripPrefix(shard: seq<byte>): (r: Option<seq<byte>>)
    ensures r.Some? <==> |shard| >= 4 && 4 + DecodeU32(shard[..4]) <= |shard|
    ensures r.Some? ==> r.value == shard[4 .. 4 + DecodeU32(shard[..4])]
  {
    if |shard| < 4 then None
    else
      var dataLen := DecodeU32(shard[..4]);
      var rest := shard[4..];
      if |rest| < dataLen then None else Some(rest[..dataLen])
  }

  function StripAll(shards: seq<seq<byte>>): (r: seq<seq<byte>>)
    ensures |r| <= |shards|
    ensures (forall j :: 0 <= j < |shards| ==> StripPrefix(shards[j]).Some?) ==> |r| == |shards|
  {
    if shards == [] then []
    else match StripPrefix(shards[0])
      case Some(data) => [data] + StripAll(shards[1..])
      case None => StripAll(shards[1..])
  }

  /** Stripping the prefix of a framed piece gives the piece back. */
  lemma StripFramed(piece: seq<byte>, shardLen: nat)
    requires |piece| <= shardLen < U32_LIMIT
    ensures StripPrefix(Framed(piece, shardLen)) == Some(piece)
  {
    var f := Framed(piece, shardLen);
    FramedShape(piece, shardLen);
    assert f[4..][..|piece|] == f[4 .. 4 + |piece|];
  }

  /** The `as u32` cast of the piece length wraps: a piece of exactly 2^32
      bytes is announced as 0 bytes long, and stripping yields nothing. */
  lemma FramedWraps(piece: seq<byte>, shardLen: nat)
    requires |piece| == U32_LIMIT <= shardLen
    ensures Framed(piece, shardLen)[..4] == Zeros(4)
    ensures StripPrefix(Framed(piece, shardLen)) == Some([])
  {
    assert EncodeU32(0) == Zeros(4);
    assert Framed(piece, shardLen)[..4] == EncodeU32(0);
  }

  lemma {:induction false} StripAllKeeps(shards: seq<seq<byte>>, datas: seq<seq<byte>>)
    requires |shards| == |datas|
    requires forall j :: 0 <= j < |shards| ==> StripPrefix(shards[j]) == Some(datas[j])
    ensures StripAll(shards) == datas
  {
    if shards != [] {
      StripAllKeeps(shards[1..], datas[1..]);
      assert datas == [datas[0]] + datas[1..];
    }
  }

  lemma {:induction false} ConcatEmpties(ss: seq<seq<byte>>)
    requires forall j :: 0 <= j < |ss| ==> ss[j] == []
    ensures Concat(ss) == []
  {
    if ss != [] {
      ConcatEmpties(ss[1..]);
    }
  }

  /** Laying a payload out and then stripping and joining the data shards
      gives the payload back. Parity shards are never read. */
  lemma LayoutRoundTrip(p: CodeParams, payload: seq<byte>)
    requires p.dataShards > 0 && |payload| > 0 && ShardLen(p, |payload|) < U32_LIMIT
    ensures Concat(StripAll(Layout(p, payload)[..p.dataShards])) == payload
  {
    var shardLen := ShardLen(p, |payload|);
    var pieces := Pieces(payload, shardLen);
    var d := p.dataShards;
    var data := Layout(p, payload)[..d];
    PiecesFit(p, payload);
    var empties := seq(d - |pieces|, _ => []);
    var datas := pieces + empties;
    forall j | 0 <= j < d
      ensures StripPrefix(data[j]) == Some(datas[j])
    {
      if j < |pieces| {
        PieceAt(payload, shardLen, j);
        StripFramed(pieces[j], shardLen);
      } else {
        FramedEmpty(shardLen);
        StripFramed([], shardLen);
      }
    }
    StripAllKeeps(data, datas);
    ConcatAppend(pieces, empties);
    ConcatEmpties(empties);
    PiecesConcat(payload, shardLen);
  }
}
