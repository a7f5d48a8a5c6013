/** `ShardInput`: the byte source the payload decoder reads from, which
    presents a list of data slices as one continuous stream. */
module ShardReader {
  import opened Types
  import opened Bytes

  class ShardInput {
    /** The slices the iterator has not yet handed out. */
    var shards: seq<seq<byte>>
    /** The slice being read and the offset reached in it. */
    var curShard: Option<(seq<byte>, nat)>

    ghost predicate Valid()
      reads this
    {
      curShard.Some? ==> curShard.value.1 <= |curShard.value.0|
    }

    /** The bytes still to be read: the rest of the current slice, then every
        slice not yet taken. */
    function Remaining(): seq<byte>
      reads this
      requires Valid()
    {
      (if curShard.Some? then curShard.value.0[curShard.value.1..] else [])
        + Concat(shards)
    }

    constructor (slices: seq<seq<byte>>)
      ensures Valid() && shards == slices && curShard == None
      ensures Remaining() == Concat(slices)
    {
      shards := slices;
      curShard := None;
    }

    /** `self.cur_shard.take().or_else(|| self.shards.next().map(|s| (s, 0)))`:
        the current slice and offset if there is one, else the next slice
        from offset 0; either way nothing is current afterwards. The stream
        is unchanged apart from that slice leaving it. */
    method TakeShard() returns (found: bool, active: seq<byte>, inShard: nat)
      requires Valid()
      modifies this
      ensures Valid() && curShard == None
      ensures found <==> old(curShard).Some? || old(shards) != []
      ensures old(curShard).Some? ==> (active, inShard) == old(curShard).value && shards == old(shards)
      ensures old(curShard).None? && found ==> active == old(shards)[0] && inShard == 0 && shards == old(shards)[1..]
      ensures found ==> inShard <= |active| && old(Remaining()) == active[inShard..] + Remaining()
      ensures !found ==> old(Remaining()) == [] && shards == old(shards)
    {
      if curShard.Some? {
        found, active, inShard := true, curShard.value.0, curShard.value.1;
        curShard := None;
      } else if shards != [] {
        found, active, inShard := true, shards[0], 0;
        shards := shards[1..];
      } else {
        found, active, inShard := false, [], 0;
      }
    }

    /** Lines 335-344 of one turn of the read loop: copy as much of the
        active slice from `inShard` on as fits in `into` from `readBytes`
        on, and make the slice current at the new offset. */
    method CopyFromShard(into: array<byte>, readBytes: nat, active: seq<byte>, inShard: nat)
      returns (writeLen: nat)
      requires readBytes <= into.Length && inShard <= |active|
      modifies this, into
      ensures writeLen == Min(into.Length - readBytes, |active| - inShard)
      ensures forall i :: readBytes <= i < readBytes + writeLen ==> into[i] == active[inShard + (i - readBytes)]
      ensures forall i :: 0 <= i < into.Length && !(readBytes <= i < readBytes + writeLen) ==>
        into[i] == old(into[i])
      ensures curShard == Some((active, inShard + writeLen)) && shards == old(shards)
      ensures Valid() && Remaining() == active[inShard + writeLen ..] + Concat(shards)
    {
      writeLen := Min(into.Length - readBytes, |active| - inShard);
      forall i | readBytes <= i < readBytes + writeLen {
        into[i] := active[inShard + (i - readBytes)];
      }
      curShard := Some((active, inShard + writeLen));
    }

    /** One turn of the read loop once `into` still has room: take the
        current or the next slice, pass over it when it is used up, else
        copy from it what fits and keep it current. It consumes exactly the
        bytes it writes; `stop` means the stream has run out. */
    method ReadTurn(into: array<byte>, readBytes: nat) returns (writeLen: nat, stop: bool)
      requires Valid() && readBytes < into.Length
      modifies this, into
      ensures Valid()
      ensures stop ==> old(Remaining()) == [] && writeLen == 0
      ensures readBytes + writeLen <= into.Length && writeLen <= |old(Remaining())|
      ensures Remaining() == old(Remaining())[writeLen..]
      ensures forall i :: readBytes <= i < readBytes + writeLen ==>
        into[i] == old(Remaining())[i - readBytes]
      ensures forall i :: 0 <= i < into.Length && !(readBytes <= i < readBytes + writeLen) ==>
        into[i] == old(into[i])
      ensures !stop ==>
        || writeLen > 0
        || |shards| < |old(shards)|
        || (shards == old(shards) && old(curShard).Some? && curShard.None?)
    {
      ghost var stream := Remaining();
      var found, activeShard, inShard := TakeShard();
      if !found {
        return 0, true;
      }
      if inShard >= |activeShard| {
        assert activeShard[inShard..] == [];
        return 0, false;
      }
      ghost var later := Concat(shards);
      assert stream == activeShard[inShard..] + later;
      writeLen := CopyFromShard(into, readBytes, activeShard, inShard);
      SplitStream(stream, activeShard, inShard, later, writeLen);
      forall i | readBytes <= i < readBytes + writeLen
        ensures into[i] == stream[i - readBytes]
      {
        assert into[i] == activeShard[inShard + (i - readBytes)];
      }
      stop := false;
    }

    /** Fills `into` from the stream as far as the stream goes, crossing slice
        boundaries and skipping empty slices, and returns how many bytes it
        wrote; the next call carries on where this one stopped. */
    method Read(into: array<byte>) returns (readBytes: nat)
      requires Valid()
      modifies this, into
      ensures Valid()
      ensures readBytes == Min(into.Length, |old(Remaining())|)
      ensures forall i :: 0 <= i < readBytes ==> into[i] == old(Remaining())[i]
      ensures forall i :: readBytes <= i < into.Length ==> into[i] == old(into[i])
      ensures Remaining() == old(Remaining())[readBytes..]
    {
      ghost var stream := Remaining();
      readBytes := 0;
      while true
        invariant Valid()
        invariant readBytes <= into.Length && readBytes <= |stream|
        invariant Remaining() == stream[readBytes..]
        invariant forall i :: 0 <= i < readBytes ==> into[i] == stream[i]
        invariant forall i :: readBytes <= i < into.Length ==> into[i] == old(into[i])
        decreases into.Length - readBytes, |shards|, if curShard.Some? then 1 else 0
      {
        if readBytes == into.Length {
          assert readBytes == Min(into.Length, |stream|);
          break;
        }
        var writeLen, stop := ReadTurn(into, readBytes);
        if stop {
          assert |stream[readBytes..]| == 0;
          assert readBytes == Min(into.Length, |stream|);
          break;
        }
        forall i | readBytes <= i < readBytes + writeLen
          ensures into[i] == stream[i]
        {
          assert stream[readBytes..][i - readBytes] == stream[i];
        }
        assert stream[readBytes..][writeLen..] == stream[readBytes + writeLen..];
        readBytes := readBytes + writeLen;
      }
    }
  }

  /** When the unread stream is the rest of the active slice followed by
      the later slices, its first `len` bytes come from the active slice. */
  lemma SplitStream(stream: seq<byte>, active: seq<byte>, inShard: nat, later: seq<byte>, len: nat)
    requires inShard + len <= |active|
    requires stream == active[inShard..] + later
    ensures forall j :: 0 <= j < len ==> stream[j] == active[inShard + j]
    ensures stream[len..] == active[inShard + len ..] + later
  {
    assert (active[inShard..] + later)[len..] == active[inShard + len ..] + later;
  }
}
