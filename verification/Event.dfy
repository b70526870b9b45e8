/** What client and backend connections share: return codes and the gathered write. */
module Events {
  import opened Seqs

  const GR_OK := 0
  const GR_ERROR := -1
  const GR_EAGAIN := -2
  const GR_FULL := -10
  const GR_START_NULL := -11

  lemma CodesDiffer()
    ensures GR_OK != GR_EAGAIN && GR_EAGAIN != GR_ERROR && GR_ERROR != GR_OK
  {
  }

  /** The most buffers handed to one gathered write. */
  const MAX_IOV := 512

  /** What the kernel may answer to one gathered write. */
  datatype Writev = Wrote(count: nat) | Interrupted | WouldBlock | Broken

  /** A socket: what the kernel has answered to every write, and the bytes it has taken. */
  class Socket {
    ghost var answers: seq<Writev>
    ghost var wire: Bytes

    constructor ()
      ensures answers == [] && wire == []
    {
      answers, wire := [], [];
    }

    /** On data the kernel takes a positive count or reports an error; which, and how much, is
      * open. */
    method CallWritev(data: Bytes) returns (r: Writev)
      modifies this
      ensures answers == old(answers) + [r]
      ensures r.Wrote? ==> r.count <= |data| && (|data| > 0 ==> r.count > 0) && wire == old(wire) + data[..r.count]
      ensures !r.Wrote? ==> wire == old(wire)
    {
      var taken: nat, error: int := *, *;
      if taken <= |data| && (taken > 0 || |data| == 0) {
        r := Wrote(taken);
      } else {
        r := if error == 0 then Interrupted else if error == 1 then WouldBlock else Broken;
      }
      answers := answers + [r];
      if r.Wrote? {
        wire := wire + data[..r.count];
      }
    }
  }

  /** What the socket was asked since, and its last answer. */
  ghost predicate Asked(before: seq<Writev>, after: seq<Writev>, last: Writev)
  {
    before < after && after[|after| - 1] == last
  }

  /** What is reported is what the socket answered last: that it can take no more for now, having
    * taken nothing or a part, or that it is broken. */
  ghost predicate Told(before: seq<Writev>, after: seq<Writev>, code: int)
  {
    && before <= after
    && (code == GR_EAGAIN ==>
          exists last :: Asked(before, after, last) && (last.WouldBlock? || (last.Wrote? && last.count > 0)))
    && (code == GR_ERROR ==>
          exists last :: Asked(before, after, last)
                         && (last.Broken? || last.Interrupted? || (last.Wrote? && last.count == 0)))
  }

  lemma ToldNothing(answers: seq<Writev>)
    ensures Told(answers, answers, GR_OK)
  {
  }

  lemma ToldOn(before: seq<Writev>, between: seq<Writev>, after: seq<Writev>, code: int)
    requires before <= between && Told(between, after, code)
    ensures before <= after && Told(before, after, code)
  {
    assert forall last | Asked(between, after, last) :: Asked(before, after, last);
  }

  function Capped(iov: seq<Bytes>): (r: seq<Bytes>)
    ensures r <= iov && |r| == if |iov| > 512 then 512 else |iov|
  {
    if |iov| > MAX_IOV then iov[..MAX_IOV] else iov
  }

  /** Hand the first 512 buffers to the kernel, once more after an interrupt. A positive
    * result is a count of bytes taken from the front of `iov`, which are then on the wire. */
  method DoSendv(sock: Socket, iov: seq<Bytes>) returns (ret: int, ghost last: Writev)
    modifies sock
    ensures ret > 0 ==> ret <= |Flatten(Capped(iov))| <= |Flatten(iov)|
    ensures sock.wire == old(sock.wire) + if ret > 0 then Flatten(iov)[..ret] else []
    ensures ret <= 0 ==> ret == GR_EAGAIN || ret == GR_ERROR || (ret == 0 && Flatten(Capped(iov)) == [])
    ensures Asked(old(sock.answers), sock.answers, last)
    ensures match last
            case Wrote(count) => ret == count
            case Interrupted => ret == GR_ERROR && [Interrupted, Interrupted] == sock.answers[|old(sock.answers)|..]
            case WouldBlock => ret == GR_EAGAIN
            case Broken => ret == GR_ERROR
  {
    var batch := Capped(iov);
    FlattenSplit(iov, |batch|);
    assert iov[..|batch|] == batch;
    for i := 0 to 2
      invariant sock.wire == old(sock.wire) && |sock.answers| == |old(sock.answers)| + i
      invariant old(sock.answers) <= sock.answers
      invariant forall k | |old(sock.answers)| <= k < |sock.answers| :: sock.answers[k] == Interrupted
    {
      var n := sock.CallWritev(Flatten(batch));
      last := n;
      match n {
        case Wrote(count) =>
          assert Flatten(batch)[..count] == Flatten(iov)[..count];
          return count, n;
        case Interrupted =>
        case WouldBlock =>
          return GR_EAGAIN, n;
        case Broken =>
          return GR_ERROR, n;
      }
    }
    return GR_ERROR, Interrupted;
  }
}
