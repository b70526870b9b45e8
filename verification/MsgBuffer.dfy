/** The read buffer of a connection: unread bytes in a block of memory that is compacted or
  * replaced by a larger one as messages need it. */
module MsgBuffers {
  import opened Seqs

  const POOL_DATA_MIN_LEN := 0x200
  const POOL_DATA_TOTAL_TYPE := 12

  /** The size of the block the memory pool gives for a request of `size` bytes. */
  function BlockSize(size: nat, class_: nat, i: nat): (r: nat)
    requires i <= POOL_DATA_TOTAL_TYPE
    ensures r >= size && (r == size || r >= class_)
    decreases POOL_DATA_TOTAL_TYPE - i
  {
    if i == POOL_DATA_TOTAL_TYPE then size
    else if size <= class_ then class_
    else BlockSize(size, class_ * 2, i + 1)
  }

  class MsgBuffer {
    var data: array<byte>
    var start: nat
    var end: nat

    ghost predicate Valid()
      reads this
    {
      start <= end <= data.Length && data.Length >= 2
    }

    ghost function Contents(): (s: Bytes)
      requires Valid()
      reads this, data
    {
      data[start..end]
    }

    constructor (size: nat)
      requires size >= 2
      ensures Valid() && fresh(data) && Contents() == [] && data.Length >= size && end == 0
    {
      data := new byte[BlockSize(size, POOL_DATA_MIN_LEN, 0)](_ => 0);
      start, end := 0, 0;
    }

    method LeftCapacity() returns (n: nat)
      requires Valid()
      ensures n + |Contents()| == data.Length
    {
      n := data.Length - (end - start);
    }

    method LeftCapacityToEnd() returns (n: nat)
      requires Valid()
      ensures start + |Contents()| + n == data.Length
    {
      n := data.Length - end;
    }

    /** Bytes from the socket, after the last one. */
    method Write(chunk: Bytes)
      requires Valid() && end + |chunk| <= data.Length
      modifies this`end, data
      ensures Valid() && data == old(data) && start == old(start) && end == old(end) + |chunk|
      ensures Contents() == old(Contents()) + chunk
    {
      ghost var before := Contents();
      for i := 0 to |chunk|
        invariant data == old(data) && start == old(start) && end == old(end)
        invariant data[start..end] == before && data[end..end + i] == chunk[..i]
      {
        data[end + i] := chunk[i];
      }
      end := end + |chunk|;
      assert data[start..end] == data[start..old(end)] + data[old(end)..end];
    }

    /** The first `n` bytes are done with. */
    method Read(n: nat)
      requires Valid() && start + n <= end
      modifies this`start
      ensures Valid() && Contents() == old(Contents())[n..]
    {
      start := start + n;
    }

    /** Copy the contents to the front of `block` and go on there. */
    method MoveTo(block: array<byte>)
      requires Valid() && block.Length >= 2 && end - start <= block.Length
      modifies this, block
      ensures Valid() && data == block && start == 0 && Contents() == old(Contents())
    {
      var n := end - start;
      ghost var before := data[start..end];
      if block == data {
        ShiftDown();
        assert data[..n] == before;
      } else {
        for i := 0 to n
          invariant data == old(data) && start == old(start) && end == old(end)
          invariant data[start..end] == before && block[..i] == before[..i]
        {
          block[i] := data[start + i];
        }
      }
      data, start, end := block, 0, n;
    }

    /** Move overlapping bytes to the front of the same block, lowest first. */
    method ShiftDown()
      requires Valid()
      modifies data
      ensures data[..end - start] == old(data[start..end])
    {
      ghost var before := data[start..end];
      for i := 0 to end - start
        invariant data[..i] == before[..i]
        invariant start > 0 ==> forall k | start + i <= k < end :: data[k] == before[k - start]
        invariant start == 0 ==> data[start..end] == before
      {
        if start > 0 {
          data[i] := data[start + i];
        }
      }
    }

    method ResetBuffer()
      requires Valid()
      modifies this, data
      ensures Valid() && data == old(data) && start == 0 && Contents() == old(Contents())
    {
      MoveTo(data);
    }

    /** Take a new block for at least `size` bytes. */
    method ResetMemPool(size: nat)
      requires Valid() && size >= data.Length
      modifies this
      ensures Valid() && fresh(data) && start == 0 && Contents() == old(Contents()) && data.Length >= size
    {
      var block := new byte[BlockSize(size, POOL_DATA_MIN_LEN, 0)](_ => 0);
      MoveTo(block);
    }

    /** Take a block four times as large, or larger when `atLeast` asks for it. */
    method Expand(atLeast: nat)
      requires Valid()
      modifies this
      ensures Valid() && fresh(data) && start == 0 && Contents() == old(Contents())
      ensures data.Length >= 4 * old(data.Length) && data.Length >= atLeast
    {
      ResetMemPool(if atLeast > 4 * data.Length then atLeast else 4 * data.Length);
    }
  }
}
