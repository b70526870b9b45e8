/** A client's ring of outstanding requests and, slot by slot beside it, the buffers of the
  * replies that wait to be written. */
module WaitRings {
  import opened Seqs
  import opened RingBuffers

  const MAX_WAIT_RING_LEN := 0xFFF

  /** The slot of a request index. */
  function SlotNo(index: nat): (k: nat)
    ensures k < MAX_WAIT_RING_LEN
  {
    Wrap(index, MAX_WAIT_RING_LEN)
  }

  lemma SlotNoAdd(first: nat, i: nat)
    requires SlotNo(first) + i <= MAX_WAIT_RING_LEN
    ensures SlotNo(first + i) == if SlotNo(first) + i < MAX_WAIT_RING_LEN then SlotNo(first) + i else 0
  {
  }

  /** The client's side of a request identity. */
  datatype Waiting = Waiting(index: nat, waitRsp: bool, waitDone: bool, preGood: bool)

  /** One outstanding request and what is left of its reply. */
  datatype Cell = Cell(who: Waiting, buffer: Bytes)

  class WaitRing {
    const ring: RingBuffer<Waiting>
    const iov: array<Bytes>
    /** The window as a list: its first cell is request `first`. */
    ghost var cells: seq<Cell>
    ghost var first: nat
    /** How often the head has gone round the ring. */
    ghost var laps: nat

    ghost predicate Valid()
      reads this, ring, ring.pool, iov
    {
      && ring.Valid()
      && ring.pool.Length == MAX_WAIT_RING_LEN
      && iov.Length == MAX_WAIT_RING_LEN
      && first == laps * MAX_WAIT_RING_LEN + ring.start
      && |cells| == ring.num
      && (forall i | 0 <= i < |cells| ::
            && cells[i].who.index == first + i
            && ring.pool[ring.Slot(i)] == Some(cells[i].who)
            && iov[ring.Slot(i)] == cells[i].buffer)
    }

    constructor ()
      ensures Valid() && fresh(ring) && fresh(ring.pool) && fresh(iov)
      ensures cells == [] && first == 0
    {
      ring := new RingBuffer<Waiting>(MAX_WAIT_RING_LEN);
      iov := new Bytes[MAX_WAIT_RING_LEN](_ => []);
      cells, first, laps := [], 0, 0;
    }

    /** The slot of a request is its index modulo the ring length. */
    lemma SlotOf(i: nat)
      requires Valid() && i < MAX_WAIT_RING_LEN
      ensures SlotNo(first + i) == ring.Slot(i)
    {
    }

    /** Add a request at the tail. */
    method Add(w: Waiting) returns (ok: bool)
      requires Valid() && w.index == first + |cells|
      modifies this`cells, ring, ring.pool
      ensures Valid()
      ensures ok <==> |old(cells)| < MAX_WAIT_RING_LEN
      ensures ok ==> |cells| == |old(cells)| + 1 && cells[..|old(cells)|] == old(cells) && cells[|old(cells)|].who == w
      ensures !ok ==> cells == old(cells)
    {
      hide Wrap;
      if |cells| < MAX_WAIT_RING_LEN {
        SlotOf(|cells|);
      }
      ghost var was := ring.pool[..];
      ghost var tail := ring.end;
      ok := ring.AddDataAt(w, w.index);
      if ok {
        assert ring.pool[..] == was[tail := Some(w)];
        cells := cells + [Cell(w, iov[ring.Slot(|cells|)])];
        assert ring.pool[..][tail] == Some(w);
        forall i | 0 <= i < |cells| - 1
          ensures ring.pool[ring.Slot(i)] == Some(cells[i].who)
        {
          assert ring.pool[..][ring.Slot(i)] == was[ring.Slot(i)];
        }
      }
    }

    /** Drop the head request. */
    method Pop()
      requires Valid() && cells != []
      modifies this`cells, this`first, this`laps, ring, ring.pool
      ensures Valid() && cells == old(cells)[1..] && first == old(first) + 1
    {
      var gone := ring.PopFront();
      if ring.start == 0 {
        laps := laps + 1;
      }
      cells, first := cells[1..], first + 1;
      forall i | 0 <= i < |cells|
        ensures ring.pool[ring.Slot(i)] == Some(cells[i].who) && iov[ring.Slot(i)] == cells[i].buffer
      {
        assert ring.pool[..][ring.Slot(i)] == old(ring.pool[..])[old(ring.Slot(i + 1))];
      }
    }

    /** What a slot holds, counted from the head: a request as long as it is in the window, and
      * nothing behind it. */
    method Get(ghost i: nat, k: nat) returns (r: Option<Waiting>)
      requires Valid() && i < MAX_WAIT_RING_LEN && k == SlotNo(first + i)
      ensures r == if i < |cells| then Some(cells[i].who) else None
    {
      SlotOf(i);
      r := ring.pool[k];
      assert ring.Live(k) <==> i < ring.num;
    }

    /** Replace the cell of request `first + i`. */
    method Put(ghost i: nat, k: nat, w: Waiting, buffer: Bytes)
      requires Valid() && i < |cells| && k == SlotNo(first + i) && w.index == first + i
      modifies this`cells, ring.pool, iov
      ensures Valid() && cells == old(cells)[i := Cell(w, buffer)]
    {
      SlotOf(i);
      ring.pool[k] := Some(w);
      iov[k] := buffer;
      cells := cells[i := Cell(w, buffer)];
    }

    /** The oldest request. */
    method Front() returns (r: Option<Waiting>)
      requires Valid()
      ensures r == if cells == [] then None else Some(cells[0].who)
    {
      r := ring.GetFront();
      assert cells != [] ==> ring.Slot(0) == ring.start;
    }

    /** Note on a request that everything before it is answered. */
    method MarkPreGood(ghost i: nat, k: nat)
      requires Valid() && i < |cells| && k == SlotNo(first + i)
      modifies this`cells, ring.pool
      ensures Valid()
      ensures cells == old(cells)[i := Cell(old(cells)[i].who.(preGood := true), old(cells)[i].buffer)]
    {
      SlotOf(i);
      ring.pool[k] := Some(ring.pool[k].value.(preGood := true));
      cells := cells[i := Cell(cells[i].who.(preGood := true), cells[i].buffer)];
    }

    /** The buffer of the head request, found by its slot. */
    method HeadBuffer(k: nat) returns (b: Bytes)
      requires Valid() && cells != [] && k == SlotNo(first)
      ensures b == cells[0].buffer
    {
      SlotOf(0);
      b := iov[k];
    }

    /** Keep only the end of the head request's buffer. */
    method Trim(k: nat, rest: Bytes)
      requires Valid() && cells != [] && k == SlotNo(first)
      modifies this`cells, iov
      ensures Valid() && cells == old(cells)[0 := Cell(old(cells)[0].who, rest)]
    {
      SlotOf(0);
      iov[k] := rest;
      cells := cells[0 := Cell(cells[0].who, rest)];
    }

    /** The buffers of the first `n` requests, when they do not wrap. */
    method Buffers(from: nat, n: nat) returns (b: seq<Bytes>)
      requires Valid() && n <= |cells| && from + n <= MAX_WAIT_RING_LEN
      requires n > 0 ==> from == SlotNo(first)
      ensures |b| == n && forall i | 0 <= i < n :: b[i] == cells[i].buffer
    {
      b := iov[from..from + n];
      if n > 0 {
        SlotOf(0);
        assert forall i | 0 <= i < n :: b[i] == iov[ring.Slot(i)];
      }
    }
  }
}
