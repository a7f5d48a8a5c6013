/** The Reed–Solomon code parameters chosen for a validator count, and the
    length of the data piece each data shard carries. */
module Params {
  import opened Types

  /** The order of GF(2^16): the code cannot have more shards than this. */
  const MAX_VALIDATORS: nat := 65536

  /** `dataShards` pieces carry the payload; `parityShards` carry redundancy. */
  datatype CodeParams = CodeParams(dataShards: nat, parityShards: nat)

  /** With n = 3f + k validators (k in 1..3), f + 1 data shards, so that any
      f + 1 chunks can rebuild the payload, and the other n - (f + 1) shards
      are parity. The bound check comes before the zero check. */
  function CodeParamsFor(nValidators: nat): (r: Result<CodeParams>)
    ensures nValidators > MAX_VALIDATORS ==> r == Failure(TooManyValidators)
    ensures nValidators == 0 ==> r == Failure(EmptyValidators)
    ensures 0 < nValidators <= MAX_VALIDATORS <==> r.Success?
    ensures r.Success? ==>
      && r.value.dataShards + r.value.parityShards == nValidators
      && 1 <= r.value.dataShards <= nValidators
      // f = dataShards - 1 is the largest number of faulty validators with 3f < n
      && 3 * (r.value.dataShards - 1) < nValidators <= 3 * r.value.dataShards
      && r.value.parityShards >= 2 * (r.value.dataShards - 1)
  {
    if nValidators > MAX_VALIDATORS then Failure(TooManyValidators)
    else if nValidators == 0 then Failure(EmptyValidators)
    else
      // `saturating_sub(1)`: the count is non-zero here, so it never saturates
      var nFaulty := (nValidators - 1) / 3;
      var nGood := nValidators - nFaulty;
      Success(CodeParams(nFaulty + 1, nGood - 1))
  }

  /** Length of each data piece for a payload of `baseLen` bytes. It is not
      the ceiling of baseLen / dataShards, but it is at least that, so the
      payload always fits in the data shards. */
  function ShardLen(p: CodeParams, baseLen: nat): (len: nat)
    requires p.dataShards > 0
    ensures len * p.dataShards >= baseLen
    ensures baseLen > 0 ==> 1 <= len
    ensures len <= baseLen
  {
    DivModCover(baseLen, p.dataShards);
    baseLen / p.dataShards + baseLen % p.dataShards
  }

  lemma DivModCover(b: nat, d: nat)
    requires d > 0
    ensures (b / d + b % d) * d >= b
    ensures b > 0 ==> b / d + b % d >= 1
    ensures b / d + b % d <= b
  {
    var q, rem := b / d, b % d;
    assert b == q * d + rem;
    assert q <= q * d by { MulAtLeast(q, d); }
    assert rem <= rem * d by { MulAtLeast(rem, d); }
    assert (q + rem) * d == q * d + rem * d;
  }

  lemma MulAtLeast(a: nat, d: nat)
    requires d > 0
    ensures a <= a * d
  {
  }
}
