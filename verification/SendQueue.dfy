/** The circular queue of request buffers behind a backend connection. Its two counters grow
  * without bound and are brought back when they pass a limit. */
module SendQueues {
  import opened Seqs
  import opened RingBuffers

  const MAX_REDIS_MSG_IDENTY_POOL := 65535
  const INDEX_LIMIT := 0xFFFFFFF

  /** The buffer slot of a counter. */
  function SlotNo(index: nat): (k: nat)
    ensures k < MAX_REDIS_MSG_IDENTY_POOL
  {
    Wrap(index, MAX_REDIS_MSG_IDENTY_POOL)
  }

  lemma SlotNoAdd(index: nat, i: nat)
    requires i <= MAX_REDIS_MSG_IDENTY_POOL
    ensures SlotNo(index + i) == (if SlotNo(index) + i < MAX_REDIS_MSG_IDENTY_POOL
                                  then SlotNo(index) + i else SlotNo(index) + i - MAX_REDIS_MSG_IDENTY_POOL)
  {
  }

  class SendQueue {
    const iov: array<Bytes>
    var readIdx: nat
    var writeIdx: nat
    /** The buffers still to be written, oldest first. */
    ghost var pending: seq<Bytes>

    ghost function At(i: nat): nat
      reads `readIdx
    {
      if SlotNo(readIdx) + i < MAX_REDIS_MSG_IDENTY_POOL then SlotNo(readIdx) + i
      else SlotNo(readIdx) + i - MAX_REDIS_MSG_IDENTY_POOL
    }

    ghost predicate Valid()
      reads this, iov
    {
      && iov.Length == MAX_REDIS_MSG_IDENTY_POOL
      && writeIdx == readIdx + |pending|
      && |pending| <= MAX_REDIS_MSG_IDENTY_POOL
      && writeIdx <= INDEX_LIMIT
      && (forall i | 0 <= i < |pending| :: 0 <= At(i) < iov.Length && iov[At(i)] == pending[i])
    }

    constructor ()
      ensures Valid() && fresh(iov) && pending == []
    {
      iov := new Bytes[MAX_REDIS_MSG_IDENTY_POOL](_ => []);
      readIdx, writeIdx, pending := 0, 0, [];
    }

    /** The counters tell how much is queued, and their slots whether it wraps. */
    lemma Counters()
      requires Valid()
      ensures writeIdx - readIdx == |pending| <= MAX_REDIS_MSG_IDENTY_POOL
      ensures pending != [] ==>
                var w, r := SlotNo(writeIdx), SlotNo(readIdx);
                |pending| == if w > r then w - r else MAX_REDIS_MSG_IDENTY_POOL - r + w
    {
      SlotNoAdd(readIdx, |pending|);
    }

    /** Drop everything and count from zero again. */
    method ReInit()
      requires Valid()
      modifies this
      ensures Valid() && pending == [] && SlotNo(readIdx) == 0
    {
      readIdx, writeIdx, pending := 0, 0, [];
    }

    /** Append a buffer, bringing the counters back when the write counter passes its limit. */
    method Push(data: Bytes)
      requires Valid() && |pending| < MAX_REDIS_MSG_IDENTY_POOL
      modifies this, iov
      ensures Valid() && pending == old(pending) + [data]
      ensures SlotNo(readIdx) == old(SlotNo(readIdx))
    {
      hide Wrap;
      SlotNoAdd(readIdx, |pending|);
      var k := SlotNo(writeIdx);
      writeIdx := writeIdx + 1;
      if writeIdx > INDEX_LIMIT {
        var diff := writeIdx - readIdx;
        SlotOfSlot(readIdx);
        readIdx := SlotNo(readIdx);
        writeIdx := readIdx + diff;
      }
      iov[k] := data;
      pending := pending + [data];
    }

    lemma SlotOfSlot(index: nat)
      ensures SlotNo(SlotNo(index)) == SlotNo(index)
    {
    }

    /** Drop the oldest buffer. */
    method Pop()
      requires Valid() && pending != []
      modifies this`readIdx, this`pending
      ensures Valid() && pending == old(pending)[1..]
      ensures SlotNo(readIdx) ==
              (if old(SlotNo(readIdx)) + 1 < MAX_REDIS_MSG_IDENTY_POOL then old(SlotNo(readIdx)) + 1 else 0)
    {
      hide Wrap;
      SlotNoAdd(readIdx, 1);
      readIdx := readIdx + 1;
      pending := pending[1..];
    }

    /** Read and replace the oldest buffer, found by its slot. */
    method Trim(k: nat, rest: Bytes)
      requires Valid() && pending != [] && k == SlotNo(readIdx)
      modifies this`pending, iov
      ensures Valid() && pending == old(pending)[0 := rest]
    {
      iov[k] := rest;
      pending := pending[0 := rest];
    }

    /** The `n` oldest buffers, when they do not wrap. */
    method Buffers(from: nat, n: nat) returns (b: seq<Bytes>)
      requires Valid() && n <= |pending| && from == SlotNo(readIdx) && from + n <= MAX_REDIS_MSG_IDENTY_POOL
      ensures b == pending[..n]
    {
      b := iov[from..from + n];
      assert forall i | 0 <= i < n :: b[i] == iov[At(i)];
    }
  }
}
