/**
 Rescaling the hash table of a long-lived stream (LZ4_renormDictT), before its 32-bit indices
 would pass 2^31.
 */
module Lz4Renorm {
  import opened Bytes
  import opened Lz4Format
  import opened Lz4Compressor

  const OFFSET_LIMIT := 0x8000_0000

  // The distance test that LZ4_compress_generic applies to a candidate.
  predicate TooFar(index: nat, current: nat) {
    index + DISTANCE_MAX < current
  }

  function Rescaled(index: nat, delta: nat): nat {
    if index < delta then 0 else index - delta
  }

  // The index of the position k bytes into the block that starts at offset.
  function At(offset: nat, k: nat): nat { offset + k }

  // For every position of the blocks to come, two table entries pass or fail the distance test
  // alike, and where they pass they give the same match distance.
  ghost predicate SameAnswers(index: nat, offset: nat, index': nat, offset': nat) {
    forall k: nat ::
      && TooFar(index', At(offset', k)) == TooFar(index, At(offset, k))
      && (!TooFar(index, At(offset, k)) ==> At(offset', k) - index' == At(offset, k) - index)
  }

  lemma RescalingIsInvisible(index: nat, offset: nat)
    requires 64 * KB <= offset && index <= offset
    ensures SameAnswers(index, offset, Rescaled(index, offset - 64 * KB), 64 * KB)
    ensures index < offset - 64 * KB ==> forall k: nat :: TooFar(0, At(64 * KB, k))
  {
  }

  class DictContext {
    const hashTable: array<nat>
    var currentOffset: nat
    var dictionary: int  // the address of the dictionary's first byte
    var dictSize: nat

    // Indices are 32 bits wide, describe past positions, and stay at or below 2^31.
    ghost predicate Valid()
      reads this, hashTable
    {
      && currentOffset <= OFFSET_LIMIT && hashTable.Length == HASH_CELLS / 2
      && forall i :: 0 <= i < hashTable.Length ==> hashTable[i] <= currentOffset
    }

    // LZ4_renormDictT. The sum is taken in 32 bits, as the source takes it.
    method RenormDictT(nextSize: nat)
      requires Valid() && nextSize <= MAX_INPUT_SIZE
      modifies this, hashTable
      ensures Valid() && currentOffset + nextSize <= OFFSET_LIMIT
      ensures dictionary + dictSize == old(dictionary + dictSize)
      ensures if old(currentOffset) + nextSize <= OFFSET_LIMIT then
                hashTable[..] == old(hashTable[..]) && currentOffset == old(currentOffset) && dictSize == old(dictSize)
              else
                && currentOffset == 64 * KB && dictSize == Min(old(dictSize), 64 * KB)
                && forall i :: 0 <= i < hashTable.Length ==>
                     hashTable[i] == Rescaled(old(hashTable[i]), old(currentOffset) - 64 * KB)
      ensures forall i :: 0 <= i < hashTable.Length ==>
                SameAnswers(old(hashTable[i]), old(currentOffset), hashTable[i], currentOffset)
    {
      if (currentOffset + nextSize) % 0x1_0000_0000 > OFFSET_LIMIT {
        var delta := currentOffset - 64 * KB;
        var dictEnd := dictionary + dictSize;
        ghost var offset := currentOffset;
        var i := 0;
        while i < hashTable.Length
          modifies hashTable
          invariant 0 <= i <= hashTable.Length
          invariant forall j :: 0 <= j < i ==> hashTable[j] == Rescaled(old(hashTable[j]), delta)
          invariant forall j :: i <= j < hashTable.Length ==> hashTable[j] == old(hashTable[j])
        {
          if hashTable[i] < delta {
            hashTable[i] := 0;
          } else {
            hashTable[i] := hashTable[i] - delta;
          }
          i := i + 1;
        }
        currentOffset := 64 * KB;
        if dictSize > 64 * KB {
          dictSize := 64 * KB;
        }
        dictionary := dictEnd - dictSize;
        forall j | 0 <= j < hashTable.Length
          ensures SameAnswers(old(hashTable[j]), old(currentOffset), hashTable[j], currentOffset)
        {
          RescalingIsInvisible(old(hashTable[j]), offset);
        }
      }
    }

    // A block of size bytes: any number of its positions go into the table, in any cells. The
    // invariant holds again, so no run of blocks passes 2^31, and every cell that was not written
    // answers for all positions to come as it did before; one that was written holds the last of
    // its positions.
    method NextBlock(size: nat, entries: seq<Entry>)
      requires Valid() && size <= MAX_INPUT_SIZE
      requires forall e <- entries :: e.cell < hashTable.Length && e.p <= size
      modifies this, hashTable
      ensures Valid() && dictionary + dictSize == old(dictionary + dictSize)
      ensures size <= currentOffset
      ensures forall i :: 0 <= i < hashTable.Length ==>
                match LastIn(entries, i)
                case None => SameAnswers(old(hashTable[i]), old(currentOffset), hashTable[i], currentOffset - size)
                case Some(p) => hashTable[i] == currentOffset - size + p
    {
      RenormDictT(size);
      ghost var after := hashTable[..];
      var k := 0;
      while k < |entries|
        modifies hashTable
        invariant 0 <= k <= |entries|
        invariant forall i :: 0 <= i < hashTable.Length ==>
                    match LastIn(entries[..k], i)
                    case None => hashTable[i] == after[i]
                    case Some(p) => hashTable[i] == currentOffset + p && p <= size
      {
        var e := entries[k];
        assert e in entries;
        assert entries[..k + 1][..k] == entries[..k];
        hashTable[e.cell] := currentOffset + e.p;
        k := k + 1;
      }
      assert entries[..k] == entries;
      currentOffset := currentOffset + size;
    }
  }

  // A position that compression enters into a cell of the table.
  datatype Entry = Entry(cell: nat, p: nat)

  // The last position that goes into a cell.
  function LastIn(entries: seq<Entry>, cell: nat): Option<nat> {
    if entries == [] then None
    else
      var last := entries[|entries| - 1];
      if last.cell == cell then Some(last.p) else LastIn(entries[..|entries| - 1], cell)
  }
}
