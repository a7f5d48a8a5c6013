# Erasure coding of parachain block data — a Dafny model

Polkadot's availability system erasure-codes each block's payload into one
chunk per validator, so that any `f + 1` of the `n = 3f + k` chunks
(`k` in 1..3) are enough to rebuild it. This project models the deterministic
logic of `erasure-coding/src/lib.rs` around the Reed–Solomon code and proves
what it promises:

- **Code parameters** (`code_params`, `CodeParams::shard_len`): the
  data/parity split for a validator count and its error cases, and the size
  of the payload piece each data shard carries (module `Params`).
- **Shard layout** (`make_shards_for`, the layout part of `obtain_chunks`):
  the payload is cut into `shard_len`-byte pieces; each one is written into a
  zeroed buffer of `shard_len + 4` bytes behind its length as a
  little-endian u32 (module `ShardLayout`, with the u32 codec in `Bytes`).
- **Chunk intake** (the loop at the start of `reconstruct`): index, parity of
  length, uniformity and emptiness checks, in the source's order, and the
  slot table they fill (module `ChunkIntake`).
- **Prefix stripping and the shard reader** (the `filter_map` in
  `reconstruct` and `ShardInput::read`): the data shards are turned back into
  one byte stream, which the payload decoder reads in pieces across slice
  boundaries (modules `ShardLayout` and `ShardReader`).
- **`reconstruct` end to end** with the Reed–Solomon decoder as a function
  parameter, and the round trip: laying a payload out, restoring the data
  shards, stripping and joining them gives the payload back (module
  `Recovery`).

`make_shards_for` fills byte buffers in place, so it is modelled with one
`array<byte>` per shard. The intake loop updates a local slot table and the
first chunk length, so it is a method with a loop, proved equal to a
reference function `Intake`. `ShardInput` is a class whose `Read` method
updates its fields and the output array. The arithmetic and the prefix
stripping are functions.

Integers are unbounded. The one cast that matters, `len as u32` for the
length prefix, is written out as a reduction modulo 2^32. `FramedWraps` shows
what it does to a piece of 2^32 bytes: the prefix announces 0 bytes. The
round-trip lemmas therefore require a shard length below 2^32, which holds for
any payload shorter than 2^32 bytes.

The doc comments of `obtain_chunks` and `reconstruct` say they work up to 256
validators. The code checks against the GF(2^16) field order, 65536. The
model follows the code.

## Model

| member | source | states |
|---|---|---|
| Params.CodeParamsFor | erasure-coding/src/lib.rs:125-136 | more than 65536 validators gives `TooManyValidators`, checked before zero, which gives `EmptyValidators`; any other count succeeds with `data + parity == n`, `1 <= data <= n`, `3(data-1) < n <= 3 data` (data is f + 1 for the largest f with 3f < n) and `parity >= 2(data-1)` |
| Params.ShardLen | erasure-coding/src/lib.rs:80-83 | the piece length times the data-shard count covers the payload, it is at least 1 for a non-empty payload and never more than the payload length |
| Bytes.EncodeU32 | erasure-coding/src/lib.rs:106-108 | the little-endian encoding of a u32 is 4 bytes; `DecodeEncodeU32` and `EncodeDecodeU32` make it a bijection with `DecodeU32` |
| Bytes.DecodeU32 | erasure-coding/src/lib.rs:210 | `u32::decode` of 4 bytes is a value below 2^32 |
| Bytes.DecodeEncodeU32 | erasure-coding/src/lib.rs:106-108 | decoding the 4-byte little-endian encoding of a u32 gives the number back |
| Bytes.EncodeDecodeU32 | erasure-coding/src/lib.rs:210 | every 4 bytes are the encoding of the u32 they decode to |
| ShardLayout.Pieces | erasure-coding/src/lib.rs:92 | `chunks(size)`: every piece has between 1 and `size` bytes, and there is a piece exactly when the payload is non-empty |
| ShardLayout.PiecesConcat | erasure-coding/src/lib.rs:92 | the pieces `chunks(shard_len)` yields, joined, are the payload |
| ShardLayout.PiecesCount | erasure-coding/src/lib.rs:92 | the number of pieces is the ceiling of payload length over piece size |
| ShardLayout.PieceAt | erasure-coding/src/lib.rs:92 | piece j is the payload bytes `[j*size, min((j+1)*size, len))` and is non-empty |
| ShardLayout.PiecesFit | erasure-coding/src/lib.rs:86-92 | with `shard_len`'s piece size a non-empty payload has at most `data_shards` pieces, so every piece lands in a data shard |
| ShardLayout.Framed | erasure-coding/src/lib.rs:93-112 | one filled shard is `shard_len + 4` bytes long; its contents are stated by `FramedShape` |
| ShardLayout.FramedShape | erasure-coding/src/lib.rs:92-113 | a filled shard is `shard_len + 4` bytes: the piece length as u32, the piece, then zeros |
| ShardLayout.FramedEmpty | erasure-coding/src/lib.rs:87-113 | framing the empty piece gives an all-zero buffer, so a shard that receives no piece is the framing of nothing and strips to no bytes |
| ShardLayout.FramedWraps | erasure-coding/src/lib.rs:106-108 | the `as u32` cast wraps: a piece of exactly 2^32 bytes gets a zero prefix and strips to no bytes |
| ShardLayout.Layout | erasure-coding/src/lib.rs:85-116 | the shards `make_shards_for` returns: one per validator (`data + parity`); their contents are stated by `LayoutShardAt` and `LayoutRoundTrip` |
| ShardLayout.LayoutLengths | erasure-coding/src/lib.rs:86-90 | one shard per validator, each `shard_len + 4` bytes |
| ShardLayout.LayoutShardAt | erasure-coding/src/lib.rs:85-115 | shard j of the layout holds piece j behind its u32 length and zero padding, and is all zero when there is no piece j |
| ShardLayout.BlankShards | erasure-coding/src/lib.rs:87-90 | `count` distinct fresh buffers, all zero |
| ShardLayout.WritePiece | erasure-coding/src/lib.rs:93-112 | a zeroed buffer ends up holding the framed piece |
| ShardLayout.FillShards | erasure-coding/src/lib.rs:92-113 | the zip loop frames piece k into buffer k for every piece and leaves the other buffers zero |
| ShardLayout.MakeShardsFor | erasure-coding/src/lib.rs:85-116 | returns `data + parity` distinct fresh buffers whose contents are exactly the layout of the payload |
| ShardLayout.ObtainChunks | erasure-coding/src/lib.rs:141-157 | parameter errors first, `BadPayload` for an empty payload, otherwise one chunk per validator holding the layout |
| ShardLayout.StripPrefix | erasure-coding/src/lib.rs:208-218 | a shard yields a slice exactly when it has 4 prefix bytes and at least the announced number of bytes after them; the slice is those bytes |
| ShardLayout.StripAll | erasure-coding/src/lib.rs:202-218 | the `filter_map` yields at most one slice per data shard, and exactly one each when no shard is dropped |
| ShardLayout.StripFramed | erasure-coding/src/lib.rs:208-218 | stripping the prefix of a framed piece returns the piece |
| ShardLayout.StripAllKeeps | erasure-coding/src/lib.rs:208-218 | when no shard is dropped, the `filter_map` keeps one slice per shard, in order |
| ShardLayout.LayoutRoundTrip | erasure-coding/src/lib.rs:203-218 | stripping the prefixes of the first `data_shards` shards of a layout and joining the slices gives the payload back, for any shard length below 2^32 |
| ChunkIntake.Take | erasure-coding/src/lib.rs:173 | `take(n)`: the first `min(len, n)` chunks, unchanged |
| ChunkIntake.CheckChunk | erasure-coding/src/lib.rs:174-186 | a chunk passes exactly when its index is in bounds and the first length is even, non-zero and equal to its own; otherwise an out-of-bounds index gives `ChunkIndexOutOfBounds`, then an odd first length `UnevenLength`, then a length different from the first or zero `NonUniformChunks` |
| ChunkIntake.Intake | erasure-coding/src/lib.rs:171-189 | a successful intake yields a slot table with one slot per validator |
| ChunkIntake.IntakeChunks | erasure-coding/src/lib.rs:171-189 | the loop over the first `n` chunks returns exactly what the reference definition `Intake` gives |
| ChunkIntake.IntakeFailureSticks | erasure-coding/src/lib.rs:174-186 | after the first failed chunk later chunks change nothing (the loop has returned) |
| ChunkIntake.IntakeSucceedsIff | erasure-coding/src/lib.rs:173-189 | intake succeeds exactly when every index is below n and every length equals the first, which is even and non-zero |
| ChunkIntake.IntakeFirstError | erasure-coding/src/lib.rs:174-186 | the error reported is the first failed check, in the order index, odd length, non-uniform or zero length, of the first chunk that fails one |
| ChunkIntake.IntakeUnevenFirst | erasure-coding/src/lib.rs:174-182 | a first chunk with an in-bounds index and an odd length is reported as `UnevenLength`, whatever the later chunks are |
| ChunkIntake.PassIntakeByLength | erasure-coding/src/lib.rs:173-189 | the intake looks only at indices and lengths: chunks of one even, non-zero length under in-bounds indices pass, whatever bytes they carry |
| ChunkIntake.LatestIsLast | erasure-coding/src/lib.rs:188 | `Latest` is the last chunk given for a slot, and nothing exactly when no chunk names it |
| ChunkIntake.IntakeSlots | erasure-coding/src/lib.rs:171-188 | after a successful intake each slot holds the last chunk given for it and other slots stay empty |
| ShardReader.ShardInput.Remaining | erasure-coding/src/lib.rs:313-316 | the reader's abstract state: the rest of the current slice, then every slice not yet taken; the contracts of `Read` and its helpers are stated over it |
| ShardReader.ShardInput.constructor | erasure-coding/src/lib.rs:203-220 | a new reader's unread stream is the concatenation of its slices |
| ShardReader.ShardInput.TakeShard | erasure-coding/src/lib.rs:325-329 | takes the current slice if there is one, else the next slice at offset 0; the stream loses nothing but what that slice still holds |
| ShardReader.ShardInput.CopyFromShard | erasure-coding/src/lib.rs:335-344 | copies `min(room in into, bytes left in slice)` bytes and leaves the slice current at the new offset |
| ShardReader.ShardInput.ReadTurn | erasure-coding/src/lib.rs:322-345 | one loop turn writes exactly the next bytes of the stream and consumes them, or stops when the stream is exhausted |
| ShardReader.ShardInput.Read | erasure-coding/src/lib.rs:319-348 | returns `min(into.len(), bytes left)`, writes those next stream bytes to the front of `into`, leaves the rest of `into` alone, and the next read resumes after them |
| Recovery.AfterRecovery | erasure-coding/src/lib.rs:191-220 | over the decoder outcomes `RsOutcome` (lib.rs:191-199): each decoder error maps to its own crate error (`NotEnoughChunks`, `WrongValidatorCount`, `TooManyChunks`) and only a recovery succeeds |
| Recovery.Reconstruct | erasure-coding/src/lib.rs:166-221 | parameter errors first, then the intake's error, then the decoder's mapped error, otherwise the stream of the stripped data shards |
| Recovery.LayoutChunksPassIntake | erasure-coding/src/lib.rs:171-189 | chunks of the layout's shard length under in-bounds indices pass intake when that length is even, whatever the parity chunks hold; every data slot they fill holds the layout shard of its index |
| Recovery.SlotsFromLayout | erasure-coding/src/lib.rs:188 | slots filled from chunks that carry, below the data-shard count, the shard of their own index hold that shard there |
| Recovery.ReconstructRoundTrip | erasure-coding/src/lib.rs:202-220 | once the decoder has restored the data shards of a layout, `reconstruct` yields the original payload, for any shard length below 2^32 |
| Recovery.RecoverPayload | erasure-coding/src/lib.rs:141-221 | `obtain_chunks` then `reconstruct`: chunks of the layout's length whose data chunks are the layout's data shards, given to a decoder that restores the data shards from the slot table it is given, rebuild the payload |

## Left out

- ObtainChunks: returns the shards as they are handed to the Reed–Solomon encoder. The parity contents that `make_encoder().encode` writes (lines 153-154) come from the external `reed_solomon_erasure` crate and are not modelled.
- The Reed–Solomon decoder in `reconstruct` (lines 191-200) is the parameter `recover` of `Reconstruct`. Its panicking variants (empty shard, wrong shard size, others) are not modelled; the source's comments rule them out after the intake checks.
- The SCALE encoding of `(BlockData, Extrinsic)` and its decoding are external. The payload is an opaque byte sequence, and `Reconstruct` returns the byte stream the decoder reads through `ShardInput`. A `BadPayload` from a failed decode is not modelled.
- The Merkle trie and hashing (`branches`, `Branches::next`, `Branches::root`, `branch_hash`, lines 225-310) are thin wrappers over `substrate_trie` and Blake2, which are not part of this model.
- `WrappedShard` (lines 40-42) is not part of this model. A shard is a plain byte sequence of the length `make_shards_for` allocates; any change that type may make to the length is not modelled. `LayoutChunksPassIntake` therefore assumes an even shard length.
- LayoutChunksPassIntake: the parity chunks are arbitrary bytes of the shard length, because the encoder's output is not modelled; only the data chunks are taken to be the layout's shards unchanged, as a systematic Reed–Solomon encoder leaves them.
- FramedWraps: the `as u32` wrap is modelled but only exhibited; a shard length of 2^32 or more (a payload of at least 4 GiB) is outside the round-trip lemmas.
- `ShardInput` draws its slices from a lazy `filter_map` iterator; the model gives it the evaluated sequence of slices.
- `usize` overflow (for example in `shard_len + 4`) is not modelled.
- `MakeShardsFor` requires a non-empty payload because `chunks(0)` panics; `obtain_chunks` refuses an empty payload before calling it.
