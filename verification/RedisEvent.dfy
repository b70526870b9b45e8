/** A backend connection: requests go out through a circular send queue, their identities
  * wait in a FIFO ring, and the n-th frame that comes back is for the n-th request. */
module RedisEvents {
  import opened Seqs
  import opened Events
  import opened RingBuffers
  import opened SendQueues

  datatype Status = Init | Connecting | Connected | Closed

  /** What became of a request handed to a backend. */
  datatype SendResult = Queued | Refused | Disconnected

  /** What is on the wire and what is still queued make up the payloads in order. */
  ghost predicate OnWire(payloads: seq<Bytes>, pending: seq<Bytes>, wire: Bytes)
  {
    && wire + Flatten(pending) == Flatten(payloads)
    && (forall i | 0 <= i < |pending| :: pending[i] != [])
  }

  /** The bytes written are a prefix of the payloads in the order they were handed over. */
  lemma WireIsPrefix(payloads: seq<Bytes>, pending: seq<Bytes>, wire: Bytes)
    requires OnWire(payloads, pending, wire)
    ensures wire <= Flatten(payloads)
    ensures pending == [] ==> wire == Flatten(payloads)
    ensures pending != [] ==> wire < Flatten(payloads)
  {
  }

  lemma NothingYet()
    ensures OnWire([], [], [])
  {
  }

  lemma Pushed(payloads: seq<Bytes>, pending: seq<Bytes>, wire: Bytes, data: Bytes)
    requires OnWire(payloads, pending, wire) && data != []
    ensures OnWire(payloads + [data], pending + [data], wire)
  {
    FlattenPush(payloads, data);
    FlattenPush(pending, data);
  }

  lemma FrontSent(payloads: seq<Bytes>, pending: seq<Bytes>, wire: Bytes)
    requires OnWire(payloads, pending, wire) && pending != []
    ensures OnWire(payloads, pending[1..], wire + pending[0])
  {
  }

  lemma FrontShortened(payloads: seq<Bytes>, pending: seq<Bytes>, wire: Bytes, d: nat)
    requires OnWire(payloads, pending, wire) && pending != [] && d < |pending[0]|
    ensures OnWire(payloads, pending[0 := pending[0][d..]], wire + pending[0][..d])
  {
    var after := pending[0 := pending[0][d..]];
    assert after[1..] == pending[1..];
    assert pending[0] == pending[0][..d] + pending[0][d..];
  }

  // ---- Queue and write interest, as values ----

  /** What is left of `pending` when the kernel took `n` bytes. */
  function Dropped(pending: seq<Bytes>, n: nat): (r: seq<Bytes>)
    ensures |r| <= |pending|
  {
    if n == 0 || |pending| == 0 then pending
    else if n < |pending[0]| then pending[0 := pending[0][n..]]
    else Dropped(pending[1..], n - |pending[0]|)
  }

  /** The buffers of a backend, the slot of the oldest, and whether a wake-up will come. */
  datatype Line = Line(pending: seq<Bytes>, slot: nat, interest: bool)

  predicate LineOk(l: Line)
  {
    && l.slot < MAX_REDIS_MSG_IDENTY_POOL && |l.pending| <= MAX_REDIS_MSG_IDENTY_POOL
    && forall i | 0 <= i < |l.pending| :: l.pending[i] != []
  }

  /** How many buffers lie before the end of the array. */
  function Leg(l: Line): (n: nat)
    requires l.slot < MAX_REDIS_MSG_IDENTY_POOL
    ensures n <= |l.pending|
  {
    if l.slot + |l.pending| <= MAX_REDIS_MSG_IDENTY_POOL then |l.pending| else MAX_REDIS_MSG_IDENTY_POOL - l.slot
  }

  /** One leg: the kernel took `n` bytes, all of the leg when `all`. */
  function Took(l: Line, n: nat, all: bool): Line
  {
    var rest := Dropped(l.pending, n);
    var k := l.slot + |l.pending| - |rest|;
    Line(rest, if k < MAX_REDIS_MSG_IDENTY_POOL then k else k - MAX_REDIS_MSG_IDENTY_POOL, l.interest && !all)
  }

  /** The socket is writable and the kernel takes `a` bytes of the first leg, and `b` of the
    * second if it comes to that. */
  function Ready(l: Line, a: nat, b: nat): Line
    requires LineOk(l)
  {
    if l.pending == [] then l.(interest := false)
    else if a < |Flatten(l.pending[..Leg(l)])| then Took(l, a, false)
    else
      var m := Took(l, a, true);
      if m.pending == [] then m else Took(m, b, b >= |Flatten(m.pending)|)
  }

  /** What the kernel may take: no more than the first 512 buffers of a leg. */
  predicate Offered(l: Line, a: nat, b: nat)
    requires LineOk(l)
  {
    a <= |Flatten(Capped(l.pending[..Leg(l)]))| && b <= |Flatten(Capped(l.pending[Leg(l)..]))|
  }

  lemma NoLeg(l: Line)
    requires LineOk(l) && l.pending == []
    ensures Ready(l, 0, 0) == l.(interest := false) && Offered(l, 0, 0)
  {
  }

  /** Write is over after the first leg. */
  lemma FirstLeg(l: Line, n: nat, a: nat, all: bool)
    requires LineOk(l) && l.pending != [] && n == Leg(l)
    requires a <= |Flatten(Capped(l.pending[..n]))| && (all ==> Took(l, a, true).pending == [])
    requires a <= |Flatten(l.pending[..n])| && (all <==> a == |Flatten(l.pending[..n])|)
    ensures Ready(l, a, 0) == Took(l, a, all) && Offered(l, a, 0)
  {
  }

  /** The first leg is out and the second, from slot 0, follows. */
  lemma SecondLeg(l: Line, n: nat, a: nat, b: nat, all: bool)
    requires LineOk(l) && l.pending != [] && n == Leg(l)
    requires a == |Flatten(l.pending[..n])| <= |Flatten(Capped(l.pending[..n]))|
    requires Took(l, a, true).pending == l.pending[n..] != []
    requires b <= |Flatten(Capped(l.pending[n..]))|
    requires b <= |Flatten(l.pending[n..])| && (all <==> b == |Flatten(l.pending[n..])|)
    ensures Ready(l, a, b) == Took(Took(l, a, true), b, all) && Offered(l, a, b)
  {
  }

  /** The whole front buffer is out, or a part of it. */
  lemma DroppedFront(payloads: seq<Bytes>, pending: seq<Bytes>, wire: Bytes, n: nat)
    requires OnWire(payloads, pending, wire) && pending != []
    ensures n >= |pending[0]| ==> Dropped(pending, n) == Dropped(pending[1..], n - |pending[0]|)
    ensures n < |pending[0]| ==> Dropped(pending, n) == pending[0 := pending[0][n..]]
  {
    assert pending[0][0..] == pending[0];
  }

  lemma DroppedNone(pending: seq<Bytes>)
    ensures Dropped(pending, 0) == pending
  {
  }

  lemma OneMore(s: seq<nat>, i: nat, j: nat)
    requires i <= j < |s|
    ensures s[i..j + 1] == s[i..j] + [s[j]]
  {
  }

  // ---- Lost wake-ups ----

  /** Buffers are queued and nobody will be woken to write them. */
  predicate Stalled(l: Line)
  {
    l.pending != [] && !l.interest
  }

  lemma {:induction false} FlattenLonger(parts: seq<Bytes>)
    requires forall i | 0 <= i < |parts| :: parts[i] != []
    ensures |Flatten(parts)| >= |parts|
  {
    if |parts| > 0 {
      FlattenLonger(parts[1..]);
    }
  }

  /** A leg can go out in one write exactly if it has no more than 512 buffers. */
  lemma LegFits(leg: seq<Bytes>)
    requires forall i | 0 <= i < |leg| :: leg[i] != []
    ensures |Flatten(leg)| <= |Flatten(Capped(leg))| <==> |leg| <= MAX_IOV
  {
    if |leg| > MAX_IOV {
      FlattenSplit(leg, MAX_IOV);
      FlattenLonger(leg[MAX_IOV..]);
    }
  }

  lemma {:induction false} DroppedAll(pending: seq<Bytes>, n: nat)
    requires n <= |pending| && forall i | 0 <= i < |pending| :: pending[i] != []
    ensures Dropped(pending, |Flatten(pending[..n])|) == pending[n..]
  {
    if n > 0 {
      assert pending[..n][0] == pending[0] && pending[..n][1..] == pending[1..][..n - 1];
      DroppedAll(pending[1..], n - 1);
    }
  }

  /** Whatever the kernel takes, buffers that do not go round the end of the array are not left
    * without a wake-up. And if they go round, they are for some answer of the kernel, unless the
    * first leg is too long for one write. */
  lemma StallsExactly(l: Line)
    requires LineOk(l) && l.interest
    ensures (exists a, b :: Offered(l, a, b) && Stalled(Ready(l, a, b)))
            <==> l.slot + |l.pending| > MAX_REDIS_MSG_IDENTY_POOL && MAX_REDIS_MSG_IDENTY_POOL - l.slot <= MAX_IOV
  {
    var n := Leg(l);
    var leg := l.pending[..n];
    LegFits(leg);
    DroppedAll(l.pending, n);
    if l.pending != [] {
      FlattenLonger(leg);
    }
    forall a, b | Offered(l, a, b) && Stalled(Ready(l, a, b)) ensures |leg| <= MAX_IOV && n < |l.pending| {
      CappedFits(leg);
    }
    if n < |l.pending| && |leg| <= MAX_IOV {
      assert Offered(l, |Flatten(leg)|, 0) && Stalled(Ready(l, |Flatten(leg)|, 0));
    }
  }

  lemma CappedFits(iov: seq<Bytes>)
    ensures |Flatten(Capped(iov))| <= |Flatten(iov)|
  {
    FlattenSplit(iov, |Capped(iov)|);
  }

  /** A backend's buffers over time: one is handed over, or the socket is writable. */
  datatype Happening = Hand(data: Bytes) | Wake(a: nat, b: nat)

  function Happened(l: Line, e: Happening): (m: Line)
    requires LineOk(l)
    ensures LineOk(m)
  {
    match e
    case Hand(data) =>
      if data == [] || |l.pending| == MAX_REDIS_MSG_IDENTY_POOL then l else Line(l.pending + [data], l.slot, true)
    case Wake(a, b) => if l.interest && Offered(l, a, b) then ReadyOk(l, a, b); Ready(l, a, b) else l
  }

  lemma {:induction false} DroppedKeeps(pending: seq<Bytes>, n: nat)
    requires forall i | 0 <= i < |pending| :: pending[i] != []
    ensures forall i | 0 <= i < |Dropped(pending, n)| :: Dropped(pending, n)[i] != []
  {
    if n > 0 && |pending| > 0 && n >= |pending[0]| {
      DroppedKeeps(pending[1..], n - |pending[0]|);
    }
  }

  lemma ReadyOk(l: Line, a: nat, b: nat)
    requires LineOk(l)
    ensures LineOk(Ready(l, a, b))
  {
    DroppedKeeps(l.pending, a);
    DroppedKeeps(Dropped(l.pending, a), b);
  }

  /** From a new connection on. */
  function Course(es: seq<Happening>): (l: Line)
    ensures LineOk(l)
  {
    if |es| == 0 then Line([], 0, true) else Happened(Course(es[..|es| - 1]), es[|es| - 1])
  }

  lemma CourseNext(es: seq<Happening>, e: Happening)
    ensures Course(es + [e]) == Happened(Course(es), e)
  {
    assert (es + [e])[..|es|] == es;
  }

  /** One request after the other, each written at once. */
  function Rounds(x: Bytes, n: nat): seq<Happening>
  {
    if n == 0 then [] else Rounds(x, n - 1) + [Hand(x)] + [Wake(|x|, 0)]
  }

  lemma OneRound(x: Bytes, slot: nat, interest: bool)
    requires x != [] && slot + 1 < MAX_REDIS_MSG_IDENTY_POOL
    ensures Happened(Happened(Line([], slot, interest), Hand(x)), Wake(|x|, 0)) == Line([], slot + 1, false)
  {
    var l := Line([x], slot, true);
    assert [] + [x] == [x] && [x][..1] == [x] && [x][1..] == [];
    FlattenOne(x);
    assert Capped([x]) == [x] && Dropped([x], |x|) == [];
    assert Offered(l, |x|, 0);
  }

  lemma {:induction false} RoundsRun(x: Bytes, n: nat)
    requires x != [] && n < MAX_REDIS_MSG_IDENTY_POOL
    ensures Course(Rounds(x, n)) == Line([], n, n == 0)
  {
    hide Happened, Course, Rounds, LineOk;
    NoRounds(x);
    if n > 0 {
      RoundsRun(x, n - 1);
      OneRound(x, n - 1, n - 1 == 0);
      RoundsNext(x, n);
    }
  }

  lemma NoRounds(x: Bytes)
    ensures Course(Rounds(x, 0)) == Line([], 0, true)
  {
  }

  lemma RoundsNext(x: Bytes, n: nat)
    requires n > 0
    ensures Course(Rounds(x, n)) == Happened(Happened(Course(Rounds(x, n - 1)), Hand(x)), Wake(|x|, 0))
  {
    hide Happened, Course, LineOk;
    CourseNext(Rounds(x, n - 1), Hand(x));
    CourseNext(Rounds(x, n - 1) + [Hand(x)], Wake(|x|, 0));
  }

  lemma StallAtEnd(x: Bytes, y: Bytes)
    requires x != [] && y != []
    ensures Happened(Line([x] + [y], 65534, true), Wake(|x|, 0)) == Line([y], 0, false)
  {
    var l := Line([x] + [y], 65534, true);
    assert l.pending[..1] == [x] && l.pending[1..] == [y];
    FlattenOne(x);
    assert Dropped(l.pending, |x|) == [y];
    assert Offered(l, |x|, 0);
  }

  /** A stall that is reached: the read slot is the last one of the array, two buffers are
    * queued, the first goes out and the second blocks. */
  lemma StallReached(x: Bytes, y: Bytes)
    requires x != [] && y != []
    ensures Course(Rounds(x, 65534) + [Hand(x)] + [Hand(y)] + [Wake(|x|, 0)]) == Line([y], 0, false)
    ensures Stalled(Line([y], 0, false))
  {
    hide Course, Rounds;
    RoundsRun(x, 65534);
    CourseNext(Rounds(x, 65534), Hand(x));
    CourseNext(Rounds(x, 65534) + [Hand(x)], Hand(y));
    CourseNext(Rounds(x, 65534) + [Hand(x)] + [Hand(y)], Wake(|x|, 0));
    assert [] + [x] == [x];
    StallAtEnd(x, y);
  }

  class RedisEvent {
    const ring: RingBuffer<nat>
    const queue: SendQueue
    var sock: Socket
    var status: Status
    var writeInterest: bool

    /** Since this connection was opened: every request identity and payload in the order
      * they were handed over, how many frames came back, and every byte written. */
    ghost var asked: seq<nat>
    ghost var payloads: seq<Bytes>
    ghost var answered: nat
    ghost var wire: Bytes
    /** Write interest was given up while buffers are still queued. */
    ghost var stalled: bool

    ghost predicate Valid()
      reads this, sock, ring, ring.pool, queue, queue.iov
    {
      && wire == sock.wire
      && ring.Valid()
      && ring.pool.Length == MAX_REDIS_MSG_IDENTY_POOL
      && queue.Valid()
      && answered <= |asked|
      && ring.Contents() == asked[answered..]
      && |asked| == |payloads|
      && OnWire(payloads, queue.pending, wire)
      && (status.Connecting? || status.Connected? || status.Closed? || queue.pending == [])
      && ((status.Connecting? || status.Connected?) && queue.pending != [] && !stalled ==> writeInterest)
    }

    constructor ()
      ensures Valid() && status == Init
      ensures fresh(sock) && fresh(ring) && fresh(ring.pool) && fresh(queue) && fresh(queue.iov)
      ensures asked == [] && payloads == [] && wire == [] && answered == 0
    {
      ring := new RingBuffer<nat>(MAX_REDIS_MSG_IDENTY_POOL);
      queue := new SendQueue();
      sock := new Socket();
      status, writeInterest := Init, false;
      asked, payloads, answered, wire, stalled := [], [], 0, [], false;
    }

    ghost function Now(): Line
      reads this, queue
    {
      Line(queue.pending, SlotNo(queue.readIdx), writeInterest)
    }

    /** Start over on a new connection, which is being made, and wait for reads and writes. A
      * connect that succeeds at once leaves the status as it was. */
    method Reconnect(now: bool)
      requires Valid() && (status == Closed || status == Init) && ring.num == 0
      modifies this, queue
      ensures Valid() && status == (if now then old(status) else Connecting) && writeInterest
      ensures asked == [] && payloads == [] && wire == [] && answered == 0 && !stalled && fresh(sock)
      ensures Now() == Line([], 0, true)
    {
      hide SendQueue.Valid, SendQueues.SlotNo, RingBuffer.Valid, RingBuffer.Contents, OnWire;
      ring.Size();
      NothingYet();
      queue.ReInit();
      sock := new Socket();
      if !now {
        status := Connecting;
      }
      asked, payloads, answered, wire, stalled := [], [], 0, [], false;
      writeInterest := true;
    }

    /** Hand over request `who` with its bytes. */
    method SendMsg(who: nat, data: Bytes) returns (r: SendResult)
      requires Valid() && data != []
      modifies this`writeInterest, this`asked, this`payloads, this`stalled, ring, ring.pool, queue, queue.iov
      ensures Valid()
      ensures r == Disconnected <==> !status.Connecting? && !status.Connected?
      ensures r == Refused <==>
                && (status.Connecting? || status.Connected?)
                && (|old(queue.pending)| == MAX_REDIS_MSG_IDENTY_POOL || old(ring.num) == MAX_REDIS_MSG_IDENTY_POOL)
      ensures asked == if r == Queued then old(asked) + [who] else old(asked)
      ensures payloads == if r == Queued then old(payloads) + [data] else old(payloads)
      ensures r == Queued ==> !stalled && Now() == Line(old(queue.pending) + [data], old(SlotNo(queue.readIdx)), true)
    {
      hide SendQueue.Valid, SendQueues.SlotNo, RingBuffer.Valid, RingBuffer.Contents, OnWire;
      queue.Counters();
      ring.Size();
      if !status.Connecting? && !status.Connected? {
        return Disconnected;
      }
      if queue.writeIdx - queue.readIdx == MAX_REDIS_MSG_IDENTY_POOL {
        return Refused;
      }
      var ok := ring.AddData(who);
      if !ok {
        return Refused;
      }
      Pushed(payloads, queue.pending, wire, data);
      queue.Push(data);
      asked, payloads := asked + [who], payloads + [data];
      writeInterest, stalled := true, false;
      return Queued;
    }

    /** A request right after connecting is answered with the disconnect error if and only if
      * the connect succeeded at once. */
    method ConnectAndSend(now: bool, who: nat, data: Bytes) returns (r: SendResult)
      requires Valid() && (status == Closed || status == Init) && ring.num == 0 && data != []
      modifies this, ring, ring.pool, queue, queue.iov
      ensures Valid() && (r == Disconnected <==> now) && (r == Queued <==> !now)
    {
      Reconnect(now);
      r := SendMsg(who, data);
    }

    /** The oldest request without a frame leaves the ring. */
    method Take() returns (who: Option<nat>)
      requires Valid()
      modifies this`answered, ring, ring.pool
      ensures Valid()
      ensures who == if old(answered) < |asked| then Some(asked[old(answered)]) else None
      ensures answered == if who.Some? then old(answered) + 1 else old(answered)
    {
      who := ring.PopFront();
      if who.Some? {
        answered := answered + 1;
      }
    }

    /** The connection is gone: every request still waiting is taken out, in order, and gets
      * the disconnect error. */
    method Close() returns (failed: seq<nat>)
      requires Valid()
      modifies this`status, this`writeInterest, this`answered, ring, ring.pool
      ensures Valid() && status == Closed && !writeInterest
      ensures failed == asked[old(answered)..] && answered == |asked| && ring.num == 0
    {
      hide OnWire, SendQueue.Valid, Flatten, RingBuffer.Valid, RingBuffer.Contents;
      status, writeInterest := Closed, false;
      failed := [];
      var who := Take();
      while who.Some?
        invariant Valid() && status == Closed && !writeInterest
        invariant who.Some? ==> 0 < answered && who.value == asked[answered - 1]
        invariant who.None? ==> answered == |asked|
        invariant old(answered) + |failed| == answered - (if who.Some? then 1 else 0)
        invariant failed == asked[old(answered)..old(answered) + |failed|]
        decreases |asked| - answered, who.Some?
      {
        OneMore(asked, old(answered), answered - 1);
        failed := failed + [who.value];
        who := Take();
      }
      ring.Size();
    }

    /** A whole frame came back: it is for the oldest request without one. When there is none
      * the connection is closed. */
    method Frame() returns (who: Option<nat>)
      requires Valid()
      modifies this`status, this`writeInterest, this`answered, ring, ring.pool
      ensures Valid()
      ensures who == if old(answered) < |asked| then Some(asked[old(answered)]) else None
      ensures answered == if who.Some? then old(answered) + 1 else old(answered)
      ensures if who.Some? then status == old(status) && writeInterest == old(writeInterest)
              else status == Closed && !writeInterest
    {
      who := Take();
      if who.None? {
        var failed := Close();
      }
    }

    /** The kernel took `count` bytes of the buffers from slot `from`: drop the buffers that
      * are out and shorten the one that is half out. */
    method Settle(from: nat, n: nat, count: nat) returns (code: int, ghost dropped: nat)
      requires queue.Valid() && OnWire(payloads, queue.pending, wire)
      requires n <= |queue.pending| && from == SendQueues.SlotNo(queue.readIdx) && from + n <= MAX_REDIS_MSG_IDENTY_POOL
      requires count <= |Flatten(queue.pending[..n])|
      modifies this`wire, queue`readIdx, queue`pending, queue.iov
      ensures queue.Valid() && OnWire(payloads, queue.pending, wire)
      ensures wire == old(wire) + old(Flatten(queue.pending[..n])[..count])
      ensures code == (if count == |old(Flatten(queue.pending[..n]))| then GR_OK else GR_EAGAIN)
      ensures dropped <= n && |queue.pending| == |old(queue.pending)| - dropped
      ensures code == GR_OK ==> dropped == n && queue.pending == old(queue.pending)[n..]
      ensures code == GR_EAGAIN ==> dropped < n
      ensures queue.pending == Dropped(old(queue.pending), count)
      ensures SendQueues.SlotNo(queue.readIdx) ==
              (if from + dropped < MAX_REDIS_MSG_IDENTY_POOL then from + dropped else 0)
    {
      hide SendQueue.Valid, SendQueues.SlotNo, OnWire, Flatten, Dropped;
      ghost var batch := queue.pending[..n];
      ghost var pending := queue.pending;
      FlattenNone(batch[..0]);
      var ret: int := count;
      var i := 0;
      while i < n
        invariant 0 <= i <= n && 0 <= ret
        invariant queue.Valid() && OnWire(payloads, queue.pending, wire)
        invariant queue.pending == pending[i..]
        invariant SendQueues.SlotNo(queue.readIdx) == (if from + i < MAX_REDIS_MSG_IDENTY_POOL then from + i else 0)
        invariant ret + |Flatten(batch[..i])| == count
        invariant Dropped(pending, count) == Dropped(queue.pending, ret)
        invariant wire == old(wire) + Flatten(batch[..i])
      {
        FlattenNext(batch, i);
        var front := queue.Buffers(from + i, 1);
        var buffer := front[0];
        DroppedFront(payloads, queue.pending, wire, ret);
        ret := ret - |buffer|;
        if ret < 0 {
          var d := ret + |buffer|;
          CutFlatten(batch, i, d);
          if d == 0 {
            assert queue.pending[0 := buffer[0..]] == queue.pending;
            return GR_EAGAIN, i;
          }
          FrontShortened(payloads, queue.pending, wire, d);
          wire := wire + buffer[..d];
          queue.Trim(from + i, buffer[d..]);
          return GR_EAGAIN, i;
        }
        FrontSent(payloads, queue.pending, wire);
        wire := wire + buffer;
        queue.Pop();
        i := i + 1;
      }
      assert batch[..n] == batch;
      DroppedNone(queue.pending);
      return GR_OK, n;
    }

    /** Write the `n` oldest buffers, which start at slot `from`. On data the kernel never
      * answers zero, so a result of zero does not arise. */
    method Sendv(from: nat, n: nat) returns (code: int, failed: seq<nat>, ghost a: nat)
      requires Valid() && status == Connected
      requires 0 < n <= |queue.pending| && from == SendQueues.SlotNo(queue.readIdx)
               && from + n <= MAX_REDIS_MSG_IDENTY_POOL
      modifies this`status, this`writeInterest, this`answered, this`wire, this`stalled
      modifies sock, ring, ring.pool, queue`readIdx, queue`pending, queue.iov
      ensures Valid()
      ensures code == GR_OK || code == GR_EAGAIN || code == GR_ERROR
      ensures Told(old(sock.answers), sock.answers, code)
      ensures if code == GR_ERROR then status == Closed && failed == asked[old(answered)..]
              else status == Connected && failed == [] && answered == old(answered)
      ensures old(wire) <= wire
      ensures code == GR_OK ==>
                queue.pending == old(queue.pending)[n..] && !writeInterest && (stalled <==> queue.pending != [])
      ensures code == GR_OK ==>
                SendQueues.SlotNo(queue.readIdx) == (if from + n < MAX_REDIS_MSG_IDENTY_POOL then from + n else 0)
      ensures code == GR_EAGAIN ==> |old(queue.pending)| - n < |queue.pending| <= |old(queue.pending)|
      ensures code == GR_EAGAIN ==> writeInterest == old(writeInterest) && stalled == old(stalled)
      ensures code != GR_ERROR ==> Now() == Took(old(Now()), a, code == GR_OK)
      ensures code != GR_ERROR ==> (code == GR_OK <==> a == |Flatten(old(queue.pending)[..n])|)
      ensures code != GR_ERROR ==> a <= |Flatten(Capped(old(queue.pending)[..n]))| <= |Flatten(old(queue.pending)[..n])|
    {
      hide SendQueue.Valid, SendQueues.SlotNo, OnWire, Flatten, RingBuffer.Valid, RingBuffer.Contents, Capped;
      failed := [];
      CappedFits(queue.pending[..n]);
      var iov := queue.Buffers(from, n);
      FirstHasData(payloads, queue.pending, wire, n);
      var ret;
      ghost var taken;
      ret, taken := DoSendv(sock, iov);
      if ret < 0 {
        if ret != GR_EAGAIN {
          failed := Close();
          return GR_ERROR, failed, 0;
        }
        return ret, [], 0;
      }
      a := ret;
      ghost var dropped;
      code, dropped := Settle(from, n, ret);
      if code == GR_OK {
        writeInterest, stalled := false, queue.pending != [];
      } else {
        assert dropped < n;
      }
    }

    lemma FirstHasData(payloads: seq<Bytes>, pending: seq<Bytes>, wire: Bytes, n: nat)
      requires OnWire(payloads, pending, wire) && 0 < n <= |pending|
      ensures Flatten(Capped(pending[..n])) != [] && Flatten(pending[..n]) != []
    {
      assert pending[..n][0] == pending[0];
      assert Capped(pending[..n])[0] == pending[0];
    }

    /** Send what is queued, in two legs when the queue wraps. `a` and `b` are the bytes the
      * kernel took of either. */
    method SendLegs() returns (code: int, failed: seq<nat>, ghost a: nat, ghost b: nat)
      requires Valid() && status == Connected && queue.pending != [] && LineOk(Now())
      modifies this`status, this`writeInterest, this`answered, this`wire, this`stalled
      modifies sock, ring, ring.pool, queue`readIdx, queue`pending, queue.iov
      ensures Valid()
      ensures code == GR_OK || code == GR_EAGAIN || code == GR_ERROR
      ensures Told(old(sock.answers), sock.answers, code)
      ensures if code == GR_ERROR then status == Closed && failed == asked[old(answered)..]
              else status == Connected && failed == [] && answered == old(answered)
      ensures old(wire) <= wire
      ensures code != GR_ERROR ==> Now() == Ready(old(Now()), a, b) && Offered(old(Now()), a, b)
      ensures code == GR_OK ==> queue.pending == [] && !writeInterest
      ensures code == GR_EAGAIN ==> queue.pending != []
      ensures code == GR_EAGAIN ==>
                if |old(queue.pending)| - |queue.pending| >= MAX_REDIS_MSG_IDENTY_POOL - old(Now().slot)
                then !writeInterest else writeInterest == old(writeInterest)
    {
      hide SendQueue.Valid, SendQueues.SlotNo, OnWire, RingBuffer.Valid, RingBuffer.Contents;
      hide Flatten, Capped, Dropped, Ready, Offered, LineOk, Took;
      b := 0;
      queue.Counters();
      ghost var l := Now();
      var w := SendQueues.SlotNo(queue.writeIdx);
      var r := SendQueues.SlotNo(queue.readIdx);
      if w > r {
        code, failed, a := Sendv(r, w - r);
        if code != GR_ERROR {
          FirstLeg(l, w - r, a, code == GR_OK);
        }
      } else {
        code, failed, a := Sendv(r, MAX_REDIS_MSG_IDENTY_POOL - r);
        if code != GR_OK {
          if code != GR_ERROR {
            FirstLeg(l, MAX_REDIS_MSG_IDENTY_POOL - r, a, false);
          }
          return code, failed, a, 0;
        }
        if w == 0 {
          FirstLeg(l, MAX_REDIS_MSG_IDENTY_POOL - r, a, true);
          return GR_OK, [], a, 0;
        }
        assert queue.pending[..w] == queue.pending;
        code, failed, b := Sendv(0, w);
        if code != GR_ERROR {
          SecondLeg(l, MAX_REDIS_MSG_IDENTY_POOL - r, a, b, code == GR_OK);
        }
      }
    }

    /** The socket is writable: see whether the connection came about, and send what is queued. */
    method Write(connected: bool) returns (code: int, failed: seq<nat>, ghost a: nat, ghost b: nat)
      requires Valid() && (status == Connecting || status == Connected || queue.pending == [])
      modifies this`status, this`writeInterest, this`answered, this`wire, this`stalled
      modifies sock, ring, ring.pool, queue`readIdx, queue`pending, queue.iov
      ensures Valid()
      ensures code == GR_OK || code == GR_EAGAIN || code == GR_ERROR
      ensures if old(status) == Connecting && !connected then code == GR_ERROR && sock.answers == old(sock.answers)
              else Told(old(sock.answers), sock.answers, code)
      ensures if code == GR_ERROR then status == Closed && failed == asked[old(answered)..]
              else && status == (if old(status) == Connecting then Connected else old(status))
                   && failed == [] && answered == old(answered)
      ensures old(wire) <= wire <= Flatten(payloads)
      ensures code == GR_OK ==> wire == Flatten(payloads)
      ensures LineOk(old(Now()))
      ensures code != GR_ERROR ==> Now() == Ready(old(Now()), a, b) && Offered(old(Now()), a, b)
      ensures code == GR_OK ==> queue.pending == [] && !writeInterest
      ensures code == GR_EAGAIN ==> queue.pending != []
      ensures code == GR_EAGAIN ==>
                if |old(queue.pending)| - |queue.pending| >= MAX_REDIS_MSG_IDENTY_POOL - old(Now().slot)
                then !writeInterest else writeInterest == old(writeInterest)
      ensures code == GR_EAGAIN && old(Now().slot + |queue.pending|) <= MAX_REDIS_MSG_IDENTY_POOL ==>
                writeInterest == old(writeInterest)
    {
      hide SendQueue.Valid, SendQueues.SlotNo, OnWire, RingBuffer.Valid, RingBuffer.Contents;
      hide Flatten, Capped, Dropped, Ready, Offered, LineOk, Took;
      Sane();
      WireIsPrefix(payloads, queue.pending, wire);
      failed, a, b := [], 0, 0;
      if status == Connecting {
        if !connected {
          failed := Close();
          return GR_ERROR, failed, 0, 0;
        }
        status := Connected;
      }
      queue.Counters();
      if queue.writeIdx == queue.readIdx {
        NoLeg(Now());
        writeInterest := false;
        return GR_OK, [], 0, 0;
      }
      code, failed, a, b := SendLegs();
      WireIsPrefix(payloads, queue.pending, wire);
    }

    lemma Sane()
      requires Valid()
      ensures LineOk(Now())
    {
    }
  }
}
