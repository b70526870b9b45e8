/** A client connection: requests wait in an indexed ring, replies arrive in any order and
  * leave in request order. */
module ReplyOrder {
  import opened Seqs
  import opened WaitRings

  type Replies = seq<Option<Bytes>>

  function ReplyBytes(r: Option<Bytes>): Bytes
  {
    if r.Some? then r.value else []
  }

  /** The replies to a list of requests, written out in request order. */
  function Stream(replies: Replies): (s: Bytes)
  {
    if |replies| == 0 then [] else Stream(replies[..|replies| - 1]) + ReplyBytes(replies[|replies| - 1])
  }

  lemma StreamNext(replies: Replies, k: nat)
    requires k < |replies|
    ensures Stream(replies[..k + 1]) == Stream(replies[..k]) + ReplyBytes(replies[k])
  {
    assert replies[..k + 1][..k] == replies[..k];
  }

  /** How many requests, from the first, are answered without a gap. */
  function Answered(replies: Replies): (k: nat)
    ensures k <= |replies|
    ensures forall i | 0 <= i < k :: replies[i].Some?
    ensures k < |replies| ==> replies[k].None?
  {
    if |replies| == 0 || replies[0].None? then 0 else 1 + Answered(replies[1..])
  }

  lemma {:induction false} StreamGrows(replies: Replies, i: nat, k: nat)
    requires i <= k <= |replies|
    ensures Stream(replies[..i]) <= Stream(replies[..k])
  {
    if i < k {
      StreamGrows(replies, i, k - 1);
      StreamNext(replies, k - 1);
    }
  }

  /** The window of requests agrees with the replies that came: a request is marked answered
    * exactly when its reply is there, and behind the head the whole reply waits. */
  ghost predicate Matches(cells: seq<Cell>, first: nat, replies: Replies)
  {
    && |replies| == first + |cells|
    && (forall i | 0 <= i < |cells| ::
          && cells[i].who.waitRsp
          && (cells[i].who.waitDone <==> replies[first + i].Some?)
          && (cells[i].who.waitDone ==> 0 < |cells[i].buffer| <= |replies[first + i].value|)
          && (cells[i].who.waitDone && 0 < i ==> cells[i].buffer == replies[first + i].value))
    && (forall j | 0 <= j < first :: replies[j].Some?)
  }

  /** What went out is the stream of replies in request order up to the head request, and
    * of the head reply all but what its buffer still holds. */
  ghost predicate InOrder(cells: seq<Cell>, first: nat, replies: Replies, sent: Bytes)
    requires Matches(cells, first, replies)
  {
    if cells != [] && cells[0].who.waitDone then
      sent + cells[0].buffer == Stream(replies[..first + 1])
    else
      sent == Stream(replies[..first])
  }

  ghost predicate Sound(cells: seq<Cell>, first: nat, replies: Replies, sent: Bytes)
  {
    Matches(cells, first, replies) && InOrder(cells, first, replies, sent)
  }

  /** In every sound state the bytes written are a prefix of the replies in request order. */
  lemma SentIsPrefix(cells: seq<Cell>, first: nat, replies: Replies, sent: Bytes)
    requires Sound(cells, first, replies, sent)
    ensures first <= Answered(replies)
    ensures Stream(replies[..first]) <= sent <= Stream(replies[..Answered(replies)])
  {
    var k := Answered(replies);
    assert first <= k;
    if cells != [] && cells[0].who.waitDone {
      assert first < k;
      StreamGrows(replies, first + 1, k);
      StreamNext(replies, first);
      assert Stream(replies[..first]) == (sent + cells[0].buffer)[..|Stream(replies[..first])|];
    } else {
      StreamGrows(replies, first, k);
    }
  }

  /** What was sent is the beginning of the replies that are due. */
  ghost predicate SentOk(replies: Replies, sent: Bytes)
  {
    sent <= Stream(replies[..Answered(replies)])
  }

  lemma SoundSent(cells: seq<Cell>, first: nat, replies: Replies, sent: Bytes)
    requires Sound(cells, first, replies, sent)
    ensures SentOk(replies, sent)
  {
    hide Sound, Stream, Answered;
    SentIsPrefix(cells, first, replies, sent);
  }

  /** A reply that comes later changes nothing about it. */
  lemma ReplyKeepsSent(replies: Replies, sent: Bytes, i: nat, bytes: Bytes)
    requires SentOk(replies, sent) && i < |replies| && replies[i].None?
    ensures SentOk(replies[i := Some(bytes)], sent)
  {
    hide Stream;
    var after := replies[i := Some(bytes)];
    var n := Answered(replies);
    assert n <= i && after[..n] == replies[..n];
    assert n <= Answered(after);
    StreamGrows(after, n, Answered(after));
  }

  /** With the head request unanswered, or none left, every answered reply is out. */
  lemma AllOut(cells: seq<Cell>, first: nat, replies: Replies, sent: Bytes)
    requires Sound(cells, first, replies, sent) && (cells == [] || !cells[0].who.waitDone)
    ensures first == Answered(replies) && sent == Stream(replies[..Answered(replies)])
  {
  }

  lemma NewRequest(cells: seq<Cell>, first: nat, replies: Replies, sent: Bytes, cell: Cell)
    requires Sound(cells, first, replies, sent) && cell.who.waitRsp && !cell.who.waitDone
    ensures Sound(cells + [cell], first, replies + [None], sent)
  {
    assert (replies + [None])[..first] == replies[..first];
    if cells != [] {
      assert (replies + [None])[..first + 1] == replies[..first + 1];
    }
  }

  lemma NewReply(cells: seq<Cell>, first: nat, replies: Replies, sent: Bytes, i: nat, cell: Cell)
    requires Sound(cells, first, replies, sent) && i < |cells| && !cells[i].who.waitDone
    requires cell.who == cells[i].who.(waitDone := true) && cell.buffer != []
    ensures Sound(cells[i := cell], first, replies[first + i := Some(cell.buffer)], sent)
  {
    var after := replies[first + i := Some(cell.buffer)];
    assert after[..first] == replies[..first];
    if i == 0 {
      StreamNext(after, first);
    } else {
      assert after[..first + 1] == replies[..first + 1];
    }
  }

  lemma PreGoodKeeps(cells: seq<Cell>, first: nat, replies: Replies, sent: Bytes, i: nat)
    requires Sound(cells, first, replies, sent) && i < |cells|
    ensures Sound(cells[i := Cell(cells[i].who.(preGood := true), cells[i].buffer)], first, replies, sent)
  {
  }

  /** The rest of the head reply is written and the head request leaves. */
  lemma HeadSent(cells: seq<Cell>, first: nat, replies: Replies, sent: Bytes)
    requires Sound(cells, first, replies, sent) && cells != [] && cells[0].who.waitDone
    ensures Sound(cells[1..], first + 1, replies, sent + cells[0].buffer)
  {
    if |cells| > 1 {
      StreamNext(replies, first + 1);
    }
  }

  /** Part of the head reply is written. */
  lemma HeadShortened(cells: seq<Cell>, first: nat, replies: Replies, sent: Bytes, d: nat)
    requires Sound(cells, first, replies, sent) && cells != [] && cells[0].who.waitDone
    requires d < |cells[0].buffer|
    ensures Sound(cells[0 := Cell(cells[0].who, cells[0].buffer[d..])], first, replies,
                  sent + cells[0].buffer[..d])
  {
    assert cells[0].buffer[..d] + cells[0].buffer[d..] == cells[0].buffer;
  }

  // ---- Writing, reply by reply ----

  /** The head reply goes out to its end, or its next `d` bytes do. */
  datatype Move = Whole | Part(d: nat)

  /** What writing changes, apart from the marks on waiting requests. */
  datatype View = View(cells: seq<Cell>, first: nat, sent: Bytes)

  function Unmark(cells: seq<Cell>): (r: seq<Cell>)
    ensures |r| == |cells|
    ensures forall i | 0 <= i < |cells| :: r[i] == Cell(cells[i].who.(preGood := false), cells[i].buffer)
  {
    seq(|cells|, i requires 0 <= i < |cells| => Cell(cells[i].who.(preGood := false), cells[i].buffer))
  }

  predicate CanMove(v: View, m: Move)
  {
    v.cells != [] && v.cells[0].who.waitDone && (m.Part? ==> m.d < |v.cells[0].buffer|)
  }

  function Moved(v: View, m: Move): View
    requires CanMove(v, m)
  {
    var head := v.cells[0];
    match m
    case Whole => View(v.cells[1..], v.first + 1, v.sent + head.buffer)
    case Part(d) => View(v.cells[0 := Cell(head.who, head.buffer[d..])], v.first, v.sent + head.buffer[..d])
  }

  /** The moves lead from `v` to `w`. */
  ghost predicate Leads(v: View, ms: seq<Move>, w: View)
    decreases |ms|
  {
    if |ms| == 0 then v == w else CanMove(v, ms[0]) && Leads(Moved(v, ms[0]), ms[1..], w)
  }

  lemma LeadsNowhere(v: View)
    ensures Leads(v, [], v)
  {
  }

  lemma {:induction false} LeadsOn(v: View, ms: seq<Move>, w: View, more: seq<Move>, x: View)
    requires Leads(v, ms, w) && Leads(w, more, x)
    ensures Leads(v, ms + more, x)
    decreases |ms|
  {
    if |ms| == 0 {
      assert ms + more == more;
    } else {
      assert (ms + more)[0] == ms[0] && (ms + more)[1..] == ms[1..] + more;
      LeadsOn(Moved(v, ms[0]), ms[1..], w, more, x);
    }
  }

  lemma WholeLeads(v: View, ms: seq<Move>, cells: seq<Cell>, first: nat, sent: Bytes)
    requires Leads(v, ms, View(Unmark(cells), first, sent)) && cells != [] && cells[0].who.waitDone
    ensures Leads(v, ms + [Whole], View(Unmark(cells[1..]), first + 1, sent + cells[0].buffer))
  {
    var w := View(Unmark(cells), first, sent);
    assert Unmark(cells)[1..] == Unmark(cells[1..]);
    assert Leads(w, [Whole], Moved(w, Whole));
    LeadsOn(v, ms, w, [Whole], Moved(w, Whole));
  }

  lemma PartLeads(v: View, ms: seq<Move>, cells: seq<Cell>, first: nat, sent: Bytes, d: nat)
    requires Leads(v, ms, View(Unmark(cells), first, sent)) && cells != [] && cells[0].who.waitDone
    requires d < |cells[0].buffer|
    ensures var after := cells[0 := Cell(cells[0].who, cells[0].buffer[d..])];
            Leads(v, ms + [Part(d)], View(Unmark(after), first, sent + cells[0].buffer[..d]))
  {
    var w := View(Unmark(cells), first, sent);
    var after := cells[0 := Cell(cells[0].who, cells[0].buffer[d..])];
    assert w.cells[0 := Cell(w.cells[0].who, w.cells[0].buffer[d..])] == Unmark(after);
    assert Leads(w, [Part(d)], Moved(w, Part(d)));
    LeadsOn(v, ms, w, [Part(d)], Moved(w, Part(d)));
  }

  lemma MarkUnseen(cells: seq<Cell>, i: nat)
    requires i < |cells|
    ensures Unmark(cells[i := Cell(cells[i].who.(preGood := true), cells[i].buffer)]) == Unmark(cells)
  {
  }
}

module AccessLayer {
  import opened Seqs
  import opened Events
  import opened WaitRings
  import opened ReplyOrder

  /** The slot the code looks at for "the request before": the subtraction is in 64 bits,
    * so request 0 looks at slot 15. */
  function PreSlot(index: nat): (k: nat)
    ensures k < MAX_WAIT_RING_LEN
    ensures index > 0 ==> k == (index - 1) % MAX_WAIT_RING_LEN
    ensures index == 0 ==> k == 15
  {
    (if index == 0 then 0xFFFF_FFFF_FFFF_FFFF else index - 1) % MAX_WAIT_RING_LEN
  }

  /** Where in the window the request found there stands, counted from its head: the one
    * before, but for the head itself slot 15 of a ring that has not moved yet, and the
    * last slot of one that has. */
  function PrePlace(first: nat, i: nat): (k: nat)
    requires i < MAX_WAIT_RING_LEN
    ensures k < MAX_WAIT_RING_LEN && k != i
  {
    if i > 0 then i - 1 else if first == 0 then 15 else MAX_WAIT_RING_LEN - 1
  }

  lemma PreSlotIsPrePlace(first: nat, i: nat)
    requires i < MAX_WAIT_RING_LEN
    ensures PreSlot(first + i) == SlotNo(first + PrePlace(first, i))
  {
  }

  /** The reply to request `first + i` will not register write interest: what is found for the
    * request before it is unanswered and not known to have everything before it answered. */
  predicate Blocked(cells: seq<Cell>, first: nat, i: nat)
    requires i < MAX_WAIT_RING_LEN
  {
    var k := PrePlace(first, i);
    k < |cells| && !cells[k].who.waitDone && !cells[k].who.preGood
  }

  /** A window of `n` requests none of which is answered; their buffers may hold anything. */
  predicate Unheard(cells: seq<Cell>, first: nat, n: nat)
  {
    |cells| == n && forall i | 0 <= i < n :: cells[i].who == Waiting(first + i, true, false, false)
  }

  /** Sixteen requests on a new connection: the reply to the first of them is due at once, and
    * registers nothing. */
  lemma FirstReplyUnnoticed(cells: seq<Cell>, data: Bytes)
    requires Unheard(cells, 0, 16) && data != []
    ensures var replies := seq(16, _ => None);
            var answered := Cell(Waiting(0, true, true, false), data);
            && Sound(cells, 0, replies, []) && Blocked(cells, 0, 0)
            && Sound(cells[0 := answered], 0, replies[0 := Some(data)], [])
            && Answered(replies[0 := Some(data)]) == 1
  {
    var replies: Replies := seq(16, _ => None);
    var answered := Cell(Waiting(0, true, true, false), data);
    NewReply(cells, 0, replies, [], 0, answered);
    assert replies[0 := Some(data)][1..][0].None?;
  }

  /** One request answered and sent, then a full ring: the reply to the oldest is due at once,
    * and registers nothing. */
  lemma FullRingUnnoticed(cells: seq<Cell>, before: Bytes, data: Bytes)
    requires Unheard(cells, 1, MAX_WAIT_RING_LEN) && before != [] && data != []
    ensures var replies := [Some(before)] + seq(MAX_WAIT_RING_LEN, _ => None);
            var answered := Cell(Waiting(1, true, true, false), data);
            && Sound(cells, 1, replies, before) && Blocked(cells, 1, 0)
            && Sound(cells[0 := answered], 1, replies[1 := Some(data)], before)
            && Answered(replies[1 := Some(data)]) == 2
  {
    var replies: Replies := [Some(before)] + seq(MAX_WAIT_RING_LEN, _ => None);
    var answered := Cell(Waiting(1, true, true, false), data);
    assert replies[..1] == [Some(before)] && [Some(before)][..0] == [];
    assert Stream([Some(before)]) == Stream([]) + before;
    NewReply(cells, 1, replies, before, 0, answered);
    var after := replies[1 := Some(data)];
    assert Answered(after) == 1 + Answered(after[1..]) == 2 + Answered(after[1..][1..]);
    assert after[1..][1..][0].None?;
  }

  lemma FirstSlot()
    ensures SlotNo(0) == 0
  {
  }

  lemma AllWait(cells: seq<Cell>, first: nat, replies: Replies, sent: Bytes)
    requires Sound(cells, first, replies, sent)
    ensures forall i | 0 <= i < |cells| :: cells[i].who.waitRsp
  {
  }

  ghost predicate AllDone(cells: seq<Cell>)
  {
    forall i | 0 <= i < |cells| :: cells[i].who.waitDone
  }

  class AccessEvent {
    const wait: WaitRing
    const sock: Socket
    var nextIndex: nat
    var open: bool
    var writeInterest: bool

    /** The reply to every request of this connection, by request index. */
    ghost var replies: Replies
    /** Every byte given to the socket. */
    ghost var sent: Bytes

    /** No lost wake-up: when every request in a non-empty ring has its reply, the
      * connection is registered for writing. */
    ghost predicate Awake()
      reads this, wait
    {
      open && wait.cells != [] && AllDone(wait.cells) ==> writeInterest
    }

    ghost predicate Valid()
      reads this, sock, wait, wait.ring, wait.ring.pool, wait.iov
    {
      && wait.Valid()
      && nextIndex == wait.first + |wait.cells|
      && sent == sock.wire
      && (open ==> Sound(wait.cells, wait.first, replies, sent))
      && Awake()
    }

    constructor ()
      ensures Valid() && fresh(sock) && fresh(wait) && fresh(wait.ring) && fresh(wait.ring.pool) && fresh(wait.iov)
      ensures open && !writeInterest && replies == [] && sent == [] && wait.cells == []
    {
      wait := new WaitRing();
      sock := new Socket();
      nextIndex, open, writeInterest := 0, true, false;
      replies, sent := [], [];
    }

    /** Take a new request into the ring. */
    method Enqueue() returns (code: int)
      requires Valid() && open
      modifies this`nextIndex, this`replies, wait`cells, wait.ring, wait.ring.pool
      ensures Valid() && wait.first == old(wait.first)
      ensures code == (if |old(wait.cells)| == MAX_WAIT_RING_LEN then GR_FULL else GR_OK)
      ensures replies == if code == GR_OK then old(replies) + [None] else old(replies)
      ensures var n := |old(wait.cells)|;
              if code == GR_OK then
                && |wait.cells| == n + 1 && wait.cells[..n] == old(wait.cells)
                && wait.cells[n].who == Waiting(wait.first + n, true, false, false)
              else wait.cells == old(wait.cells)
    {
      if wait.ring.num == wait.ring.pool.Length {
        return GR_FULL;
      }
      var w := Waiting(nextIndex, true, false, false);
      var ok := wait.Add(w);
      nextIndex := nextIndex + 1;
      ghost var cell := wait.cells[|old(wait.cells)|];
      NewRequest(old(wait.cells), wait.first, replies, sent, cell);
      assert wait.cells == old(wait.cells) + [cell];
      replies := replies + [None];
      return GR_OK;
    }

    /** A reply for request `index`: it may come before the replies to older requests. */
    method DoReply(index: nat, data: Bytes)
      requires Valid() && open && wait.first <= index < nextIndex
      requires replies[index].None? && data != []
      modifies this`replies, this`writeInterest, wait`cells, wait.ring.pool, wait.iov
      ensures Valid() && wait.first == old(wait.first)
      ensures replies == old(replies)[index := Some(data)]
      ensures var i := index - wait.first;
              wait.cells == old(wait.cells)[i := Cell(old(wait.cells)[i].who.(waitDone := true), data)]
      ensures writeInterest <==> old(writeInterest) || !Blocked(old(wait.cells), wait.first, index - wait.first)
    {
      hide Sound, WaitRing.Valid, SlotNo, PrePlace;
      ghost var i := index - wait.first;
      var k := SlotNo(index);
      Facts();
      assert wait.first + i == index && replies[wait.first + i].None?
             && !wait.cells[i].who.waitDone by { Unanswered(i); }
      var me := wait.Get(i, k);
      var w := me.value.(waitDone := true);
      NewReply(wait.cells, wait.first, replies, sent, i, Cell(w, data));
      wait.Put(i, k, w, data);
      replies := replies[index := Some(data)];
      PreSlotIsPrePlace(wait.first, i);
      var pre := wait.Get(PrePlace(wait.first, i), PreSlot(index));
      assert pre.Some? ==> pre.value.waitRsp by { AllWait(wait.cells, wait.first, replies, sent); }
      if pre.None? || !pre.value.waitRsp || pre.value.waitDone || pre.value.preGood {
        writeInterest := true;
      }
    }

    /** Close the connection and let go of every request. */
    method Close()
      requires wait.Valid() && nextIndex == wait.first + |wait.cells| && sent == sock.wire
      modifies this`open, wait`cells, wait`first, wait`laps, wait.ring, wait.ring.pool
      ensures Valid() && !open && wait.cells == []
    {
      open := false;
      while wait.ring.num > 0
        invariant wait.Valid() && !open && nextIndex == wait.first + |wait.cells|
        decreases wait.ring.num
      {
        wait.Pop();
      }
    }

    /** The kernel took `count` bytes of the buffers from slot `from`: drop the requests
      * that are out and shorten the one that is half out. */
    method Settle(from: nat, n: nat, count: nat, ghost batch: seq<Bytes>)
      returns (code: int, dropped: nat, ghost ms: seq<Move>)
      requires wait.Valid() && Sound(wait.cells, wait.first, replies, sent)
      requires n <= |wait.cells| && from + n <= MAX_WAIT_RING_LEN
      requires from == SlotNo(wait.first)
      requires forall i | 0 <= i < n :: wait.cells[i].who.waitDone
      requires |batch| == n && forall i | 0 <= i < n :: batch[i] == wait.cells[i].buffer
      requires count <= |Flatten(batch)|
      modifies this`sent, wait`cells, wait`first, wait`laps, wait.ring, wait.ring.pool, wait.iov
      ensures wait.Valid() && Sound(wait.cells, wait.first, replies, sent)
      ensures sent == old(sent) + Flatten(batch)[..count]
      ensures code == (if count == |Flatten(batch)| then GR_OK else GR_EAGAIN)
      ensures dropped <= n && (code == GR_OK ==> dropped == n)
      ensures wait.first == old(wait.first) + dropped && |wait.cells| == |old(wait.cells)| - dropped
      ensures forall j | 0 <= j < |wait.cells| :: wait.cells[j].who == old(wait.cells)[dropped + j].who
      ensures Leads(old(View(Unmark(wait.cells), wait.first, sent)), ms, View(Unmark(wait.cells), wait.first, sent))
    {
      hide *;
      CodesDiffer();
      FlattenNone(batch[..0]);
      var ret: int := count;
      dropped, ms := 0, [];
      ghost var cells := wait.cells;
      ghost var v := View(Unmark(cells), wait.first, sent);
      LeadsNowhere(v);
      while dropped < n
        invariant 0 <= dropped <= n && 0 <= ret
        invariant wait.Valid() && Sound(wait.cells, wait.first, replies, sent)
        invariant wait.first == old(wait.first) + dropped && wait.cells == cells[dropped..]
        invariant ret + |Flatten(batch[..dropped])| == count
        invariant sent == old(sent) + Flatten(batch[..dropped])
        invariant Leads(v, ms, View(Unmark(wait.cells), wait.first, sent))
      {
        FlattenNext(batch, dropped);
        SlotNoAdd(old(wait.first), dropped);
        var buffer := wait.HeadBuffer(from + dropped);
        ret := ret - |buffer|;
        if ret < 0 {
          var d := ret + |buffer|;
          CutFlatten(batch, dropped, d);
          if d == 0 {
            return GR_EAGAIN, dropped, ms;
          }
          PartLeads(v, ms, wait.cells, wait.first, sent, d);
          ms := ms + [Part(d)];
          HeadShortened(wait.cells, wait.first, replies, sent, d);
          sent := sent + buffer[..d];
          wait.Trim(from + dropped, buffer[d..]);
          return GR_EAGAIN, dropped, ms;
        }
        WholeLeads(v, ms, wait.cells, wait.first, sent);
        ms := ms + [Whole];
        HeadSent(wait.cells, wait.first, replies, sent);
        sent := sent + buffer;
        wait.Pop();
        dropped := dropped + 1;
      }
      assert batch[..n] == batch;
      return GR_OK, n, ms;
    }

    /** Write the `n` answered requests whose buffers start at slot `from`. */
    method Sendv(from: nat, n: nat) returns (code: int, ghost wire: Bytes, ghost dropped: nat, ghost ms: seq<Move>)
      requires Valid() && open
      requires n <= |wait.cells| && from + n <= MAX_WAIT_RING_LEN
      requires from == SlotNo(wait.first)
      requires forall i | 0 <= i < n :: wait.cells[i].who.waitDone
      modifies this`open, this`sent, sock, wait`cells, wait`first, wait`laps, wait.ring, wait.ring.pool, wait.iov
      ensures code == GR_OK || code == GR_EAGAIN || code == GR_ERROR
      ensures Told(old(sock.answers), sock.answers, code)
      ensures Valid() && (code == GR_ERROR <==> !open)
      ensures sent == old(sent) + wire
      ensures sent <= Stream(replies[..Answered(replies)])
      ensures open ==> dropped <= n && wait.first == old(wait.first) + dropped
      ensures open ==> |wait.cells| == |old(wait.cells)| - dropped
      ensures open ==> forall j | 0 <= j < |wait.cells| :: wait.cells[j].who == old(wait.cells)[dropped + j].who
      ensures code == GR_OK ==> dropped == n
      ensures open ==>
                Leads(old(View(Unmark(wait.cells), wait.first, sent)), ms, View(Unmark(wait.cells), wait.first, sent))
    {
      hide Sound, Flatten, WaitRing.Valid, AllDone, Capped, SlotNo, Leads, Unmark, Stream, Answered;
      LeadsNowhere(View(Unmark(wait.cells), wait.first, sent));
      SentIsPrefix(wait.cells, wait.first, replies, sent);
      if n == 0 {
        return GR_OK, [], 0, [];
      }
      var iov := wait.Buffers(from, n);
      var ret;
      ghost var last;
      ret, last := DoSendv(sock, iov);
      wire := if ret > 0 then Flatten(iov)[..ret] else [];
      if ret <= 0 {
        if ret != GR_EAGAIN {
          Close();
          return GR_ERROR, [], 0, [];
        }
        return ret, [], 0, [];
      }
      code, dropped, ms := Settle(from, n, ret, iov);
      SentIsPrefix(wait.cells, wait.first, replies, sent);
      DoneBefore(old(wait.cells), n, dropped, wait.cells);
    }

    /** If all requests left are answered, and so were those that went, all were. */
    lemma DoneBefore(cells: seq<Cell>, n: nat, dropped: nat, left: seq<Cell>)
      requires dropped <= n <= |cells| == dropped + |left|
      requires forall i | 0 <= i < n :: cells[i].who.waitDone
      requires forall j | 0 <= j < |left| :: left[j].who == cells[dropped + j].who
      ensures AllDone(left) ==> AllDone(cells)
    {
      if AllDone(left) {
        assert forall j | dropped <= j < |cells| :: cells[j].who == left[j - dropped].who;
      }
    }

    /** Everything before request `first + n` is answered: note it on that request. */
    method MarkPreGood(ghost n: nat, k: nat)
      requires Valid() && open && n < |wait.cells| && k == SlotNo(wait.first + n)
      modifies wait`cells, wait.ring.pool
      ensures Valid()
      ensures wait.cells ==
              old(wait.cells)[n := Cell(old(wait.cells)[n].who.(preGood := true), old(wait.cells)[n].buffer)]
    {
      hide Sound, WaitRing.Valid;
      PreGoodKeeps(wait.cells, wait.first, replies, sent, n);
      wait.MarkPreGood(n, k);
      assert forall i | 0 <= i < |wait.cells| :: wait.cells[i].who.waitDone == old(wait.cells)[i].who.waitDone;
    }

    lemma Unanswered(i: nat)
      requires Valid() && open && i < |wait.cells|
      ensures wait.first + i < |replies| && (wait.cells[i].who.waitDone <==> replies[wait.first + i].Some?)
      ensures wait.cells[i].who.waitRsp
    {
    }

    /** What a valid open connection gives a reader of its ring. */
    lemma Facts()
      requires Valid() && open
      ensures wait.Valid() && Sound(wait.cells, wait.first, replies, sent)
      ensures wait.ring.num == |wait.cells| <= MAX_WAIT_RING_LEN
      ensures forall i | 0 <= i < |wait.cells| :: wait.cells[i].who.index == wait.first + i
    {
    }

    /** Nothing is due: stop waiting for the socket. */
    method DelWrite()
      requires Valid() && open && (wait.cells == [] || !wait.cells[0].who.waitDone)
      modifies this`writeInterest
      ensures Valid() && !writeInterest
    {
      writeInterest := false;
    }

    /** Send the last run of answered requests; behind it stands an unanswered one or none. */
    method Flush(from: nat, n: nat) returns (code: int, ghost ms: seq<Move>)
      requires Valid() && open
      requires n <= |wait.cells| && from + n <= MAX_WAIT_RING_LEN && from == SlotNo(wait.first)
      requires forall j | 0 <= j < n :: wait.cells[j].who.waitDone
      requires n < |wait.cells| ==> !wait.cells[n].who.waitDone
      modifies this`open, this`sent, this`writeInterest
      modifies sock, wait`cells, wait`first, wait`laps, wait.ring, wait.ring.pool, wait.iov
      ensures code == GR_OK || code == GR_EAGAIN || code == GR_ERROR
      ensures Told(old(sock.answers), sock.answers, code)
      ensures Valid() && (code == GR_ERROR <==> !open)
      ensures old(sent) <= sent <= Stream(replies[..Answered(replies)])
      ensures code == GR_OK ==> sent == Stream(replies[..Answered(replies)]) && wait.first == Answered(replies)
      ensures code == GR_EAGAIN ==> writeInterest == old(writeInterest)
      ensures open ==>
                Leads(old(View(Unmark(wait.cells), wait.first, sent)), ms, View(Unmark(wait.cells), wait.first, sent))
    {
      hide Sound, Valid, WaitRing.Valid, Stream, Answered, Leads, Unmark;
      code, ms := GR_OK, [];
      LeadsNowhere(View(Unmark(wait.cells), wait.first, sent));
      if n > 0 {
        ghost var wire, dropped;
        code, wire, dropped, ms := Sendv(from, n);
        if code == GR_OK {
          DelWrite();
        } else {
          return code, ms;
        }
      }
      Facts();
      SentIsPrefix(wait.cells, wait.first, replies, sent);
      AllOut(wait.cells, wait.first, replies, sent);
    }

    /** The request `cur`, the `n`-th of a run from slot `from`, is the next to look at. */
    ghost predicate AtRun(from: nat, n: nat, cur: Waiting)
      reads this, wait
    {
      && n < |wait.cells| && from == SlotNo(wait.first) && from + n < MAX_WAIT_RING_LEN
      && cur == wait.cells[n].who && cur.index == wait.first + n
      && forall j | 0 <= j < n :: wait.cells[j].who.waitDone
    }

    /** Take `cur` into the run if it is answered, send the run where the array ends, and find
      * the request after it. */
    method Advance(from: nat, n: nat, cur: Waiting)
      returns (code: int, from': nat, n': nat, next: Option<Waiting>, ghost ms: seq<Move>)
      requires Valid() && open && AtRun(from, n, cur)
      modifies this`open, this`sent, sock, wait`cells, wait`first, wait`laps, wait.ring, wait.ring.pool, wait.iov
      ensures code == GR_OK || code == GR_EAGAIN || code == GR_ERROR
      ensures Told(old(sock.answers), sock.answers, code)
      ensures Valid() && (code == GR_ERROR <==> !open)
      ensures old(sent) <= sent <= Stream(replies[..Answered(replies)])
      ensures open ==>
                Leads(old(View(Unmark(wait.cells), wait.first, sent)), ms, View(Unmark(wait.cells), wait.first, sent))
      ensures code == GR_OK ==>
                && n' <= |wait.cells| && from' + n' <= MAX_WAIT_RING_LEN && from' == SlotNo(wait.first)
                && (forall j | 0 <= j < n' :: wait.cells[j].who.waitDone)
      ensures code == GR_OK && next.Some? ==>
                AtRun(from', n', next.value) && |wait.cells| - n' + 1 == |old(wait.cells)| - n
      ensures code == GR_OK && next.None? ==> n' == |wait.cells| || !wait.cells[n'].who.waitDone
    {
      hide SlotNo, Sound, Valid, WaitRing.Valid, Leads, Unmark, Stream, Answered;
      Facts();
      SentIsPrefix(wait.cells, wait.first, replies, sent);
      code, from', n', next := GR_OK, from, n, None;
      SlotNoAdd(wait.first, n);
      SlotNoAdd(wait.first, n + 1);
      var index := cur.index + 1;
      ghost var v := View(Unmark(wait.cells), wait.first, sent);
      ms := [];
      LeadsNowhere(v);
      MarkUnseen(wait.cells, n);
      MarkPreGood(n, from + n);
      if !cur.waitDone {
        return;
      }
      n' := n + 1;
      if SlotNo(index) == 0 {
        ghost var wire, dropped;
        code, wire, dropped, ms := Sendv(from, n');
        if code != GR_OK {
          return;
        }
        n', from', index := 0, 0, 0;
        assert SlotNo(0) == 0 by { FirstSlot(); }
      }
      Facts();
      next := wait.Get(n', SlotNo(index));
    }

    /** The connection is writable: send every reply that is due. */
    method Write() returns (code: int, ghost ms: seq<Move>)
      requires Valid() && open
      modifies this`open, this`sent, this`writeInterest
      modifies sock, wait`cells, wait`first, wait`laps, wait.ring, wait.ring.pool, wait.iov
      ensures code == GR_OK || code == GR_EAGAIN || code == GR_ERROR
      ensures Told(old(sock.answers), sock.answers, code)
      ensures Valid() && (code == GR_ERROR <==> !open)
      ensures old(sent) <= sent <= Stream(replies[..Answered(replies)])
      ensures code == GR_OK ==> sent == Stream(replies[..Answered(replies)]) && wait.first == Answered(replies)
      ensures code == GR_EAGAIN ==> writeInterest == old(writeInterest)
      ensures open ==>
                Leads(old(View(Unmark(wait.cells), wait.first, sent)), ms, View(Unmark(wait.cells), wait.first, sent))
    {
      hide SlotNo, Sound, Valid, WaitRing.Valid, Stream, Answered, Leads, Unmark, Told;
      Facts();
      ToldNothing(sock.answers);
      ghost var v := View(Unmark(wait.cells), wait.first, sent);
      ms := [];
      LeadsNowhere(v);
      var front := wait.Front();
      SentIsPrefix(wait.cells, wait.first, replies, sent);
      if front.None? {
        AllOut(wait.cells, wait.first, replies, sent);
        DelWrite();
        return GR_OK, [];
      }
      var waitNum := wait.ring.num;
      var sendNum: nat := 0;
      var cur := front.value;
      var from := SlotNo(cur.index);
      code := GR_OK;
      var i := 0;
      while i < waitNum
        invariant Valid() && open && code == GR_OK && old(sent) <= sent
        invariant old(sock.answers) <= sock.answers
        invariant writeInterest == old(writeInterest)
        invariant AtRun(from, sendNum, cur) && waitNum + sendNum == i + |wait.cells|
        invariant Leads(v, ms, View(Unmark(wait.cells), wait.first, sent))
      {
        var next;
        ghost var w, more := View(Unmark(wait.cells), wait.first, sent), [];
        ghost var asked := sock.answers;
        code, from, sendNum, next, more := Advance(from, sendNum, cur);
        ToldOn(old(sock.answers), asked, sock.answers, code);
        if open {
          LeadsOn(v, ms, w, more, View(Unmark(wait.cells), wait.first, sent));
        }
        ms := ms + more;
        if code != GR_OK {
          return code, ms;
        }
        if next.None? {
          break;
        }
        cur := next.value;
        i := i + 1;
      }
      ghost var w, more := View(Unmark(wait.cells), wait.first, sent), [];
      ghost var asked := sock.answers;
      code, more := Flush(from, sendNum);
      ToldOn(old(sock.answers), asked, sock.answers, code);
      if open {
        LeadsOn(v, ms, w, more, View(Unmark(wait.cells), wait.first, sent));
      }
      ms := ms + more;
    }
  }
}
