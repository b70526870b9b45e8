/** The fixed pool of slots behind every request queue of the proxy.
  * A slot outside the live window is always empty: the index lookups rely on it. */
module RingBuffers {
  import opened Seqs

  /** The slot an index names in a pool of `len` slots. */
  function Wrap(index: nat, len: nat): (k: nat)
    requires 0 < len
    ensures k < len
  {
    index % len
  }

  class RingBuffer<T> {
    const pool: array<Option<T>>
    var start: nat
    var end: nat
    var num: nat

    /** The slot `i` places after the head. */
    ghost function Slot(i: nat): nat
      reads this
    {
      if start + i < pool.Length then start + i else start + i - pool.Length
    }

    ghost predicate Live(k: nat)
      reads this
    {
      start <= k < start + num || k + pool.Length < start + num
    }

    ghost predicate Valid()
      reads this, pool
    {
      && start < pool.Length
      && num <= pool.Length
      && end == (if start + num < pool.Length then start + num else start + num - pool.Length)
      && (forall k: nat | k < pool.Length :: pool[k].Some? <==> Live(k))
    }

    ghost function Contents(): (s: seq<T>)
      requires Valid()
      reads this, pool
    {
      seq(num, i requires 0 <= i < num && Valid() reads this, pool => pool[Slot(i)].value)
    }

    lemma Size()
      requires Valid()
      ensures |Contents()| == num <= pool.Length
    {
    }

    constructor (capacity: nat)
      requires 0 < capacity
      ensures Valid() && fresh(pool) && pool.Length == capacity && Contents() == [] && start == 0
    {
      pool := new Option<T>[capacity](_ => None);
      start, end, num := 0, 0, 0;
    }

    /** Append `x`; refused exactly when every slot is taken. */
    method AddData(x: T) returns (ok: bool)
      requires Valid()
      modifies this, pool
      ensures Valid() && start == old(start)
      ensures ok <==> old(num) < pool.Length
      ensures Contents() == if ok then old(Contents()) + [x] else old(Contents())
      ensures ok ==> num == old(num) + 1 && pool[..] == old(pool[..])[old(end) := Some(x)]
    {
      if num == pool.Length {
        return false;
      }
      ghost var before := Contents();
      num := num + 1;
      pool[end] := Some(x);
      end := end + 1;
      if end == pool.Length {
        end := 0;
      }
      assert Contents() == before + [x];
      return true;
    }

    /** Append `x` under its own index; refused when full or when the index does not
      * name the slot at the tail. */
    method AddDataAt(x: T, index: nat) returns (ok: bool)
      requires Valid()
      modifies this, pool
      ensures Valid() && start == old(start)
      ensures ok <==> old(num) < pool.Length && Wrap(index, pool.Length) == old(end)
      ensures Contents() == if ok then old(Contents()) + [x] else old(Contents())
      ensures if ok then num == old(num) + 1 && pool[..] == old(pool[..])[old(end) := Some(x)]
              else num == old(num) && pool[..] == old(pool[..])
    {
      if num == pool.Length {
        return false;
      }
      if end != Wrap(index, pool.Length) {
        return false;
      }
      ok := AddData(x);
    }

    /** Take the oldest entry and blank its slot. */
    method PopFront() returns (r: Option<T>)
      requires Valid()
      modifies this, pool
      ensures Valid()
      ensures old(num) == 0 ==> r == None && num == 0 && start == old(start) && pool[..] == old(pool[..])
      ensures old(num) > 0 ==>
                && r == Some(old(Contents())[0])
                && Contents() == old(Contents())[1..]
                && num == old(num) - 1
                && start == (if old(start) + 1 < pool.Length then old(start) + 1 else 0)
                && pool[..] == old(pool[..])[old(start) := None]
    {
      if num == 0 {
        return None;
      }
      ghost var before := Contents();
      num := num - 1;
      r := pool[start];
      pool[start] := None;
      start := start + 1;
      if start >= pool.Length {
        start := 0;
      }
      assert Contents() == before[1..];
    }

    /** The head, read without testing for emptiness: a blank slot answers for it. */
    method GetFront() returns (r: Option<T>)
      requires Valid()
      ensures r == if num == 0 then None else Some(Contents()[0])
    {
      r := pool[start];
    }

    /** The newest entry. */
    method GetBack() returns (r: Option<T>)
      requires Valid()
      ensures r == if num == 0 then None else Some(Contents()[num - 1])
    {
      if num == 0 {
        return None;
      }
      if end == 0 {
        r := pool[pool.Length - 1];
      } else {
        r := pool[end - 1];
      }
    }
  }
}
