/** The whole proxy as steps: clients, backends and the request identities that both own.
  * A close, which the code does in one go, is a closing step followed by one draining step
  * per queued request, and a write is one step per reply: see `WriteIsARun`. */
module Proxies {
  import opened Seqs
  import opened WaitRings
  import opened ReplyOrder

  const POOL_LEN := 65535

  /** What waits for a frame at a backend: a request identity, or the shared identity under
    * which ASKING is sent. */
  datatype Token = Id(x: nat) | Asking

  /** Whose request it was. */
  datatype Owner = Req(client: nat, index: nat) | Nobody

  /** Where a reply came from: the proxy itself, or frame `n` of a backend connection. */
  datatype Source = Local | Frame(backend: nat, epoch: nat, n: nat)

  /** A request identity: the two owners that hold it, the request index in the client's
    * numbering and, for the proofs, where it waits. */
  datatype Ident = Ident(access: Option<nat>, index: nat, redis: Option<nat>, at: Option<(nat, nat)>)

  datatype Client = Client(open: bool, ids: seq<nat>, cells: seq<Cell>, first: nat,
                           replies: Replies, sources: seq<Source>, sent: Bytes)

  /** What went over a backend connection: whose requests, and the frames that came. */
  datatype Link = Link(owners: seq<Owner>, frames: seq<Bytes>)

  /** A backend: on its present connection every token in the order sent and its owner, how many
    * of them are dealt with, and the frames that came; and its earlier connections. */
  datatype Backend = Backend(up: bool, asked: seq<Token>, owners: seq<Owner>, answered: nat, frames: seq<Bytes>,
                             history: seq<Link>)

  datatype Proxy = Proxy(idents: map<nat, Ident>, pool: seq<nat>, nextId: nat, stranded: set<nat>,
                         clients: map<nat, Client>, backends: map<nat, Backend>)

  datatype Verdict = Deliver | Redirect(target: nat, asking: bool) | RedirectFailed

  datatype Event =
    | Accept(c: nat)
    | RequestLocal(c: nat, bytes: Bytes)
    | Request(c: nat, b: nat)
    | Receive(b: nat, bytes: Bytes, verdict: Verdict)
    | SendPart(c: nat, d: nat)
    | SendHead(c: nat)
    | CloseClient(c: nat)
    | DrainClient(c: nat)
    | OpenBackend(b: nat)
    | CloseBackend(b: nat)
    | DrainBackend(b: nat)

  /** "-redis disconnect" and "-inner error happend", each with its line end. */
  const DISCONNECT: Bytes := [45, 114, 101, 100, 105, 115, 32, 100, 105, 115, 99, 111, 110, 110, 101, 99, 116, 13, 10]
  const INNER_ERROR: Bytes := [45, 105, 110, 110, 101, 114, 32, 101, 114, 114, 111, 114, 32, 104, 97, 112, 112,
                               101, 110, 100, 13, 10]

  // ---- The invariant ----

  ghost predicate Waits(s: Proxy, b: nat, n: nat)
  {
    b in s.backends && s.backends[b].answered <= n < |s.backends[b].asked|
  }

  ghost predicate ClientOk(s: Proxy, c: nat)
    requires c in s.clients
  {
    var k := s.clients[c];
    && |k.ids| == |k.cells| <= MAX_WAIT_RING_LEN
    && |k.replies| == |k.sources| == k.first + |k.cells|
    && (k.open ==> Sound(k.cells, k.first, k.replies, k.sent))
    && SentOk(k.replies, k.sent)
    && (forall j | 0 <= j < |k.ids| ::
          && k.ids[j] in s.idents
          && s.idents[k.ids[j]].access == Some(c)
          && s.idents[k.ids[j]].index == k.first + j
          && (k.cells[j].who.waitDone <==> k.replies[k.first + j].Some?))
  }

  /** An identity held by a client is in that client's ring, and until it is answered it
    * waits at a backend. */
  ghost predicate IdentOk(s: Proxy, x: nat)
    requires x in s.idents
  {
    var i := s.idents[x];
    && x < s.nextId
    && (i.access.Some? ==>
          && i.access.value in s.clients
          && var k := s.clients[i.access.value];
          && k.first <= i.index < k.first + |k.ids|
          && k.ids[i.index - k.first] == x
          && |k.replies| == k.first + |k.ids|
          && (k.replies[i.index].None? <==> i.at.Some?))
    && (i.at.Some? ==>
          && i.redis == Some(i.at.value.0)
          && Waits(s, i.at.value.0, i.at.value.1)
          && s.backends[i.at.value.0].asked[i.at.value.1] == Id(x))
    && (i.redis.Some? && i.at.None? <==> x in s.stranded)
    && (x in s.pool <==> i.access.None? && i.redis.None?)
  }

  ghost predicate BackendOk(s: Proxy, b: nat)
    requires b in s.backends
  {
    var k := s.backends[b];
    && k.answered <= |k.asked| == |k.owners|
    && |k.frames| <= k.answered && (k.up ==> |k.frames| == k.answered)
    && (forall n | k.answered <= n < |k.asked| && k.asked[n].Id? ::
          && k.asked[n].x in s.idents
          && s.idents[k.asked[n].x].at == Some((b, n))
          && (s.idents[k.asked[n].x].access.Some? ==>
                k.owners[n] == Req(s.idents[k.asked[n].x].access.value, s.idents[k.asked[n].x].index)))
  }

  function LinkOf(k: Backend, epoch: nat): Link
  {
    if epoch < |k.history| then k.history[epoch] else if epoch == |k.history| then Link(k.owners, k.frames)
    else Link([], [])
  }

  /** A reply taken from a backend frame is the frame of that very request, byte for byte. */
  ghost predicate SourceOk(s: Proxy, c: nat, i: nat)
  {
    c in s.clients && i < |s.clients[c].replies| && s.clients[c].replies[i].Some?
    && i < |s.clients[c].sources| && s.clients[c].sources[i].Frame? ==>
      var f := s.clients[c].sources[i];
      && f.backend in s.backends
      && var link := LinkOf(s.backends[f.backend], f.epoch);
      && f.n < |link.owners| && link.owners[f.n] == Req(c, i)
      && f.n < |link.frames| && s.clients[c].replies[i].value == link.frames[f.n]
  }

  ghost predicate NoRepeat(p: seq<nat>)
  {
    forall i, j | 0 <= i < j < |p| :: p[i] != p[j]
  }

  ghost predicate PoolOk(s: Proxy)
  {
    && NoRepeat(s.pool)
    && (forall x | x in s.pool :: x in s.idents)
    && (forall x | x in s.stranded :: x in s.idents)
  }

  ghost predicate Inv(s: Proxy)
  {
    && (forall c | c in s.clients :: ClientOk(s, c))
    && (forall x | x in s.idents :: IdentOk(s, x))
    && (forall b | b in s.backends :: BackendOk(s, b))
    && (forall c, i :: SourceOk(s, c, i))
    && PoolOk(s)
  }

  // ---- The steps ----

  /** The identity the pool hands out: its oldest one, or a new one when it is empty. */
  function Pick(s: Proxy): nat
  {
    if |s.pool| > 0 then s.pool[0] else s.nextId
  }

  function Taken(s: Proxy, i: Ident): Proxy
  {
    s.(idents := s.idents[Pick(s) := i],
       pool := if |s.pool| > 0 then s.pool[1..] else s.pool,
       nextId := if |s.pool| > 0 then s.nextId else s.nextId + 1)
  }

  /** An owner lets go of `x`, leaving it as `i`: without owners it goes back to the pool,
    * or is freed when the pool is full. */
  function Released(s: Proxy, x: nat, i: Ident): Proxy
  {
    if i.access.Some? || i.redis.Some? then s.(idents := s.idents[x := i])
    else if |s.pool| < POOL_LEN then s.(idents := s.idents[x := Ident(None, 0, None, None)], pool := s.pool + [x])
    else s.(idents := s.idents - {x})
  }

  /** A new request of client `c`: for backend `to`, or answered by the proxy itself with
    * `bytes`. */
  function Added(s: Proxy, c: nat, to: Option<nat>, bytes: Bytes): Proxy
    requires c in s.clients && (to.Some? ==> to.value in s.backends)
  {
    var k := s.clients[c];
    var index := k.first + |k.ids|;
    var at := if to.Some? then Some((to.value, |s.backends[to.value].asked|)) else None;
    Taken(s, Ident(Some(c), index, to, at)).(
      clients := s.clients[c := k.(ids := k.ids + [Pick(s)],
                                   cells := k.cells + [Cell(Waiting(index, true, to.None?, false), bytes)],
                                   replies := k.replies + [if to.Some? then None else Some(bytes)],
                                   sources := k.sources + [Local])],
      backends := if to.None? then s.backends else
                  s.backends[to.value := Pushed(s.backends[to.value], Id(Pick(s)), Req(c, index))])
  }

  function Pushed(q: Backend, t: Token, o: Owner): Backend
  {
    q.(asked := q.asked + [t], owners := q.owners + [o])
  }

  /** Client `c` gets its reply to request `index`. */
  function Replied(k: Client, index: nat, bytes: Bytes, src: Source): Client
    requires k.first <= index < k.first + |k.cells| && k.first + |k.cells| == |k.replies| == |k.sources|
  {
    var j := index - k.first;
    k.(cells := k.cells[j := Cell(k.cells[j].who.(waitDone := true), bytes)],
       replies := k.replies[index := Some(bytes)],
       sources := k.sources[index := src])
  }

  /** The clients after the holder of `i`, if it still has one, is answered. */
  function Answer(s: Proxy, i: Ident, bytes: Bytes, src: Source): map<nat, Client>
  {
    if i.access.Some? && i.access.value in s.clients
       && var k := s.clients[i.access.value];
          k.first <= i.index < k.first + |k.cells| && k.first + |k.cells| == |k.replies| == |k.sources|
    then s.clients[i.access.value := Replied(s.clients[i.access.value], i.index, bytes, src)]
    else s.clients
  }

  ghost predicate HeadIs(s: Proxy, b: nat, x: nat)
  {
    && b in s.backends
    && Waits(s, b, s.backends[b].answered)
    && s.backends[b].asked[s.backends[b].answered] == Id(x)
    && x in s.idents
  }

  /** The oldest token at a backend is taken, with the frame that came for it, if one did. */
  function Popped(q: Backend, got: seq<Bytes>): Backend
  {
    q.(answered := q.answered + 1, frames := q.frames + got)
  }

  /** A frame comes for every token while the connection is up, and for none when it is drained. */
  predicate Comes(q: Backend, got: seq<Bytes>)
  {
    |got| == if q.up then 1 else 0
  }

  /** The oldest request at `b` is answered and the backend lets go of it. A redirect that
    * cannot be followed ends the request too, but then nobody tells the identity. */
  ghost function Finished(s: Proxy, b: nat, x: nat, bytes: Bytes, src: Source, told: bool, got: seq<Bytes>): Proxy
    requires HeadIs(s, b, x)
  {
    var i := s.idents[x];
    var t := if told then Released(s, x, i.(redis := None, at := None))
             else s.(idents := s.idents[x := i.(at := None)], stranded := s.stranded + {x});
    t.(clients := Answer(s, i, bytes, src), backends := s.backends[b := Popped(s.backends[b], got)])
  }

  /** The oldest request at `b` goes to backend `t`, behind an ASKING when told so. */
  ghost function Resent(s: Proxy, b: nat, x: nat, t: nat, asking: bool, got: seq<Bytes>): Proxy
    requires HeadIs(s, b, x) && t in s.backends
  {
    var i := s.idents[x];
    var left := s.backends[b := Popped(s.backends[b], got)];
    var q := if asking then Pushed(left[t], Asking, Nobody) else left[t];
    s.(idents := s.idents[x := i.(redis := Some(t), at := Some((t, |q.asked|)))],
       backends := left[t := Pushed(q, Id(x), if i.access.Some? then Req(i.access.value, i.index) else Nobody)])
  }

  /** The head request of `c` leaves its ring and the client lets go of it. */
  ghost function HeadLeft(s: Proxy, c: nat, out: Bytes): Proxy
    requires c in s.clients && s.clients[c].ids != [] && s.clients[c].cells != [] && s.clients[c].ids[0] in s.idents
  {
    var k := s.clients[c];
    var x := k.ids[0];
    Released(s, x, s.idents[x].(access := None)).(
      clients := s.clients[c := k.(ids := k.ids[1..], cells := k.cells[1..], first := k.first + 1,
                                   sent := k.sent + out)])
  }

  // ---- Every step keeps the invariant ----

  /** The identity handed out is in no ring, and the pool loses just it. */
  lemma PickIsFree(s: Proxy, i: Ident)
    requires Inv(s)
    ensures Pick(s) in s.idents ==>
              s.idents[Pick(s)].access.None? && s.idents[Pick(s)].redis.None? && s.idents[Pick(s)].at.None?
    ensures Pick(s) !in s.stranded && PoolOk(Taken(s, i)) && Pick(s) < Taken(s, i).nextId
    ensures forall y | y in Taken(s, i).pool :: y in s.pool && y != Pick(s)
    ensures forall y | y in s.pool && y != Pick(s) :: y in Taken(s, i).pool
  {
    var x := Pick(s);
    if |s.pool| > 0 {
      assert x in s.pool && IdentOk(s, x);
      assert s.pool == [x] + s.pool[1..];
    } else {
      assert x in s.idents ==> IdentOk(s, x);
    }
  }

  ghost predicate CanAdd(s: Proxy, c: nat, to: Option<nat>, bytes: Bytes)
  {
    && c in s.clients && s.clients[c].open && |s.clients[c].cells| < MAX_WAIT_RING_LEN
    && (to.None? ==> bytes != [])
    && (to.Some? ==> to.value in s.backends)
  }

  lemma AddedClient(s: Proxy, c: nat, to: Option<nat>, bytes: Bytes, d: nat)
    requires CanAdd(s, c, to, bytes) && d in s.clients && ClientOk(s, c) && ClientOk(s, d)
    requires Pick(s) in s.idents ==> s.idents[Pick(s)].access.None?
    ensures ClientOk(Added(s, c, to, bytes), d)
  {
    hide Sound, SentOk;
    if d == c {
      var k := s.clients[c];
      var w := Waiting(k.first + |k.ids|, true, false, false);
      if to.None? {
        AnsweredAtOnce(k.cells, k.first, k.replies, k.sent, w, bytes);
      } else {
        NewRequest(k.cells, k.first, k.replies, k.sent, Cell(w, bytes));
      }
      var l := Added(s, c, to, bytes).clients[c];
      SoundSent(l.cells, l.first, l.replies, l.sent);
    }
  }

  lemma AddedIdent(s: Proxy, c: nat, to: Option<nat>, bytes: Bytes, y: nat)
    requires CanAdd(s, c, to, bytes) && ClientOk(s, c)
    requires to.Some? ==> BackendOk(s, to.value)
    requires y in s.idents && y != Pick(s) ==> IdentOk(s, y)
    requires y in Added(s, c, to, bytes).idents
    requires Pick(s) !in s.stranded && Pick(s) < Taken(s, Ident(None, 0, None, None)).nextId
    requires y in Taken(s, Ident(None, 0, None, None)).pool <==> y in s.pool && y != Pick(s)
    ensures IdentOk(Added(s, c, to, bytes), y)
  {
    hide Sound, SentOk;
  }

  lemma AddedBackend(s: Proxy, c: nat, to: Option<nat>, bytes: Bytes, b: nat)
    requires CanAdd(s, c, to, bytes) && b in s.backends && BackendOk(s, b)
    requires Pick(s) in s.idents ==> s.idents[Pick(s)].at.None?
    ensures BackendOk(Added(s, c, to, bytes), b)
  {
  }

  lemma AddedSource(s: Proxy, c: nat, to: Option<nat>, bytes: Bytes, d: nat, i: nat)
    requires CanAdd(s, c, to, bytes) && ClientOk(s, c) && SourceOk(s, d, i)
    ensures SourceOk(Added(s, c, to, bytes), d, i)
  {
  }

  lemma AddedKeeps(s: Proxy, c: nat, to: Option<nat>, bytes: Bytes)
    requires Inv(s) && CanAdd(s, c, to, bytes)
    ensures Inv(Added(s, c, to, bytes))
  {
    hide ClientOk, IdentOk, BackendOk, SourceOk, PoolOk;
    var t := Added(s, c, to, bytes);
    PickIsFree(s, t.idents[Pick(s)]);
    SamePool(Taken(s, t.idents[Pick(s)]), t);
    forall d | d in t.clients ensures ClientOk(t, d) { AddedClient(s, c, to, bytes, d); }
    forall y | y in t.idents ensures IdentOk(t, y) { AddedIdent(s, c, to, bytes, y); }
    forall b | b in t.backends ensures BackendOk(t, b) { AddedBackend(s, c, to, bytes, b); }
    forall d, i ensures SourceOk(t, d, i) { AddedSource(s, c, to, bytes, d, i); }
  }

  lemma FinishedClient(s: Proxy, b: nat, x: nat, bytes: Bytes, src: Source, told: bool, got: seq<Bytes>, d: nat)
    requires HeadIs(s, b, x) && IdentOk(s, x) && s.idents[x].at.Some? && d in s.clients && ClientOk(s, d) && bytes != []
    ensures d in Finished(s, b, x, bytes, src, told, got).clients
    ensures ClientOk(Finished(s, b, x, bytes, src, told, got), d)
  {
    hide Finished, ClientOk, IdentOk;
    if s.idents[x].access == Some(d) {
      FinishedAsker(s, b, x, bytes, src, told, got, d);
    } else {
      FinishedBystander(s, b, x, bytes, src, told, got, d);
    }
  }

  lemma FinishedAsker(s: Proxy, b: nat, x: nat, bytes: Bytes, src: Source, told: bool, got: seq<Bytes>, d: nat)
    requires HeadIs(s, b, x) && IdentOk(s, x) && s.idents[x].at.Some? && d in s.clients && ClientOk(s, d) && bytes != []
    requires s.idents[x].access == Some(d)
    ensures d in Finished(s, b, x, bytes, src, told, got).clients
    ensures ClientOk(Finished(s, b, x, bytes, src, told, got), d)
  {
    hide Sound, BackendOk, SentOk;
    var k := s.clients[d];
    var j := s.idents[x].index - k.first;
    ReplyKeepsSent(k.replies, k.sent, s.idents[x].index, bytes);
    if k.open {
      NewReply(k.cells, k.first, k.replies, k.sent, j, Cell(k.cells[j].who.(waitDone := true), bytes));
    }
  }

  lemma FinishedBystander(s: Proxy, b: nat, x: nat, bytes: Bytes, src: Source, told: bool, got: seq<Bytes>, d: nat)
    requires HeadIs(s, b, x) && IdentOk(s, x) && d in s.clients && ClientOk(s, d) && s.idents[x].access != Some(d)
    ensures d in Finished(s, b, x, bytes, src, told, got).clients
    ensures ClientOk(Finished(s, b, x, bytes, src, told, got), d)
  {
    hide Sound, BackendOk, SentOk;
  }

  lemma FinishedIdent(s: Proxy, b: nat, x: nat, bytes: Bytes, src: Source, told: bool, got: seq<Bytes>, y: nat)
    requires HeadIs(s, b, x) && IdentOk(s, x) && BackendOk(s, b) && PoolOk(s)
    requires forall d | d in s.clients :: ClientOk(s, d)
    requires y in s.idents && IdentOk(s, y) && y in Finished(s, b, x, bytes, src, told, got).idents
    ensures IdentOk(Finished(s, b, x, bytes, src, told, got), y)
  {
    hide Finished, IdentOk, PoolOk, BackendOk, ClientOk;
    if y == x {
      FinishedOwn(s, b, x, bytes, src, told, got);
    } else {
      FinishedOther(s, b, x, bytes, src, told, got, y);
    }
  }

  lemma FinishedOwn(s: Proxy, b: nat, x: nat, bytes: Bytes, src: Source, told: bool, got: seq<Bytes>)
    requires HeadIs(s, b, x) && IdentOk(s, x) && BackendOk(s, b) && PoolOk(s)
    requires forall d | d in s.clients :: ClientOk(s, d)
    requires x in Finished(s, b, x, bytes, src, told, got).idents
    ensures IdentOk(Finished(s, b, x, bytes, src, told, got), x)
  {
    hide Sound, SentOk, PoolOk;
    if told {
      ReleasedIdent(s, x, s.idents[x].(redis := None, at := None));
    }
  }

  lemma FinishedOther(s: Proxy, b: nat, x: nat, bytes: Bytes, src: Source, told: bool, got: seq<Bytes>, y: nat)
    requires HeadIs(s, b, x) && IdentOk(s, x) && BackendOk(s, b) && PoolOk(s) && y != x
    requires forall d | d in s.clients :: ClientOk(s, d)
    requires y in s.idents && IdentOk(s, y) && y in Finished(s, b, x, bytes, src, told, got).idents
    ensures IdentOk(Finished(s, b, x, bytes, src, told, got), y)
  {
    hide Sound, SentOk, PoolOk, ClientOk, Answer;
    if s.idents[y].access.Some? {
      AnswerElse(s, x, bytes, src, y);
    }
    if told {
      ReleasedIdent(s, x, s.idents[x].(redis := None, at := None));
    }
  }

  /** An answer changes nothing for another request. */
  lemma AnswerElse(s: Proxy, x: nat, bytes: Bytes, src: Source, y: nat)
    requires x in s.idents && y in s.idents && y != x && IdentOk(s, x) && IdentOk(s, y) && s.idents[y].access.Some?
    ensures var c, i := s.idents[y].access.value, s.idents[y].index;
            var after := Answer(s, s.idents[x], bytes, src);
            && c in after && c in s.clients && after[c].first == s.clients[c].first && after[c].ids == s.clients[c].ids
            && |after[c].replies| == |s.clients[c].replies| && i < |after[c].replies|
            && (after[c].replies[i].None? <==> s.clients[c].replies[i].None?)
  {
  }

  lemma FinishedBackend(s: Proxy, b: nat, x: nat, bytes: Bytes, src: Source, told: bool, got: seq<Bytes>, d: nat)
    requires HeadIs(s, b, x) && BackendOk(s, b) && d in s.backends && BackendOk(s, d) && Comes(s.backends[b], got)
    ensures BackendOk(Finished(s, b, x, bytes, src, told, got), d)
  {
  }

  lemma FinishedSource(s: Proxy, b: nat, x: nat, bytes: Bytes, src: Source, told: bool, got: seq<Bytes>, d: nat, i: nat)
    requires HeadIs(s, b, x) && IdentOk(s, x) && BackendOk(s, b) && SourceOk(s, d, i)
    requires Comes(s.backends[b], got)
    requires src == Local || (src == Frame(b, |s.backends[b].history|, s.backends[b].answered) && got == [bytes])
    ensures SourceOk(Finished(s, b, x, bytes, src, told, got), d, i)
  {
  }

  lemma FinishedKeeps(s: Proxy, b: nat, x: nat, bytes: Bytes, src: Source, told: bool, got: seq<Bytes>)
    requires Inv(s) && HeadIs(s, b, x) && bytes != []
    requires Comes(s.backends[b], got)
    requires src == Local || (src == Frame(b, |s.backends[b].history|, s.backends[b].answered) && got == [bytes])
    ensures Inv(Finished(s, b, x, bytes, src, told, got))
  {
    assert BackendOk(s, b);
    hide ClientOk, IdentOk, BackendOk, SourceOk, PoolOk;
    var t := Finished(s, b, x, bytes, src, told, got);
    forall d | d in t.clients ensures ClientOk(t, d) { FinishedClient(s, b, x, bytes, src, told, got, d); }
    forall y | y in t.idents ensures IdentOk(t, y) { FinishedIdent(s, b, x, bytes, src, told, got, y); }
    forall d | d in t.backends ensures BackendOk(t, d) { FinishedBackend(s, b, x, bytes, src, told, got, d); }
    forall d, i ensures SourceOk(t, d, i) { FinishedSource(s, b, x, bytes, src, told, got, d, i); }
    FinishedPool(s, b, x, bytes, src, told, got);
  }

  lemma FinishedPool(s: Proxy, b: nat, x: nat, bytes: Bytes, src: Source, told: bool, got: seq<Bytes>)
    requires PoolOk(s) && HeadIs(s, b, x) && IdentOk(s, x) && BackendOk(s, b)
    ensures PoolOk(Finished(s, b, x, bytes, src, told, got))
  {
    if told {
      ReleasedIdent(s, x, s.idents[x].(redis := None, at := None));
    }
  }

  lemma ResentIdent(s: Proxy, b: nat, x: nat, t: nat, asking: bool, got: seq<Bytes>, y: nat)
    requires HeadIs(s, b, x) && IdentOk(s, x) && BackendOk(s, b) && t in s.backends && BackendOk(s, t)
    requires y in s.idents && IdentOk(s, y)
    ensures IdentOk(Resent(s, b, x, t, asking, got), y)
  {
    hide Sound, SentOk;
  }

  lemma ResentBackend(s: Proxy, b: nat, x: nat, t: nat, asking: bool, got: seq<Bytes>, d: nat)
    requires HeadIs(s, b, x) && BackendOk(s, b) && t in s.backends && BackendOk(s, t) && Comes(s.backends[b], got)
    requires d in s.backends && BackendOk(s, d)
    ensures BackendOk(Resent(s, b, x, t, asking, got), d)
  {
    var after := Resent(s, b, x, t, asking, got);
    var k, q := s.backends[d], after.backends[d];
    var from := if d == b then k.answered + 1 else k.answered;
    assert q.answered == from && |q.asked| == |q.owners|;
    assert forall n | from <= n < |k.asked| :: q.asked[n] == k.asked[n] && q.owners[n] == k.owners[n];
    forall n | q.answered <= n < |q.asked| && q.asked[n].Id?
      ensures q.asked[n].x in after.idents && after.idents[q.asked[n].x].at == Some((d, n))
      ensures var i := after.idents[q.asked[n].x]; i.access.Some? ==> q.owners[n] == Req(i.access.value, i.index)
    {
      if n < |k.asked| {
        assert s.idents[k.asked[n].x].at == Some((d, n));
        assert k.asked[n].x != x;
      } else {
        assert q.asked[n] == Id(x);
      }
    }
  }

  lemma ResentKeeps(s: Proxy, b: nat, x: nat, t: nat, asking: bool, got: seq<Bytes>)
    requires Inv(s) && HeadIs(s, b, x) && t in s.backends && Comes(s.backends[b], got)
    ensures Inv(Resent(s, b, x, t, asking, got))
  {
    hide IdentOk, BackendOk, ClientOk, SourceOk;
    var after := Resent(s, b, x, t, asking, got);
    forall d | d in after.clients ensures ClientOk(after, d) { ResentClient(s, b, x, t, asking, got, d); }
    forall y | y in after.idents ensures IdentOk(after, y) { ResentIdent(s, b, x, t, asking, got, y); }
    forall d | d in after.backends ensures BackendOk(after, d) { ResentBackend(s, b, x, t, asking, got, d); }
    forall d, i ensures SourceOk(after, d, i) { ResentSource(s, b, x, t, asking, got, d, i); }
  }

  lemma ResentClient(s: Proxy, b: nat, x: nat, t: nat, asking: bool, got: seq<Bytes>, d: nat)
    requires HeadIs(s, b, x) && t in s.backends && d in s.clients && ClientOk(s, d)
    ensures ClientOk(Resent(s, b, x, t, asking, got), d)
  {
    hide Sound, SentOk;
  }

  lemma ResentSource(s: Proxy, b: nat, x: nat, t: nat, asking: bool, got: seq<Bytes>, d: nat, i: nat)
    requires HeadIs(s, b, x) && t in s.backends && SourceOk(s, d, i)
    ensures SourceOk(Resent(s, b, x, t, asking, got), d, i)
  {
  }

  ghost predicate CanLeave(s: Proxy, c: nat)
  {
    && c in s.clients && s.clients[c].cells != []
    && (s.clients[c].open ==> s.clients[c].cells[0].who.waitDone)
  }

  /** What leaves with the head request: the rest of its reply, when the client is there. */
  ghost function HeadBytes(k: Client): Bytes
    requires k.cells != []
  {
    if k.open then k.cells[0].buffer else []
  }

  lemma LeftClient(s: Proxy, c: nat, d: nat)
    requires CanLeave(s, c) && ClientOk(s, c) && d in s.clients && ClientOk(s, d)
    ensures ClientOk(HeadLeft(s, c, HeadBytes(s.clients[c])), d)
  {
    hide Sound, SentOk;
    var k := s.clients[c];
    assert k.sent + [] == k.sent;
    if d == c && k.open {
      HeadSent(k.cells, k.first, k.replies, k.sent);
      SoundSent(k.cells[1..], k.first + 1, k.replies, k.sent + k.cells[0].buffer);
    }
  }

  lemma LeftIdent(s: Proxy, c: nat, y: nat)
    requires CanLeave(s, c) && ClientOk(s, c) && PoolOk(s)
    requires IdentOk(s, s.clients[c].ids[0])
    requires y in s.idents && IdentOk(s, y) && y in HeadLeft(s, c, HeadBytes(s.clients[c])).idents
    ensures IdentOk(HeadLeft(s, c, HeadBytes(s.clients[c])), y)
  {
    hide Sound, SentOk, PoolOk;
    var x := s.clients[c].ids[0];
    ReleasedIdent(s, x, s.idents[x].(access := None));
  }

  /** What the release of `x` does to the pool. */
  lemma ReleasedIdent(s: Proxy, x: nat, i: Ident)
    requires PoolOk(s) && x in s.idents && x !in s.pool && (x in s.stranded ==> i.redis.Some?)
    ensures PoolOk(Released(s, x, i))
    ensures forall y | y != x :: y in Released(s, x, i).pool <==> y in s.pool
    ensures x in Released(s, x, i).idents ==>
              (x in Released(s, x, i).pool <==>
                 Released(s, x, i).idents[x].access.None? && Released(s, x, i).idents[x].redis.None?)
  {
  }

  lemma LeftKeeps(s: Proxy, c: nat)
    requires Inv(s) && CanLeave(s, c) && ClientOk(s, c)
    ensures Inv(HeadLeft(s, c, HeadBytes(s.clients[c])))
  {
    hide Sound, SentOk;
    assert s.clients[c].ids != [] && s.clients[c].ids[0] in s.idents;
    hide ClientOk, IdentOk, BackendOk, SourceOk, PoolOk;
    var t := HeadLeft(s, c, HeadBytes(s.clients[c]));
    forall d | d in t.clients ensures ClientOk(t, d) { LeftClient(s, c, d); }
    forall y | y in t.idents ensures IdentOk(t, y) { LeftIdent(s, c, y); }
    forall d | d in t.backends ensures BackendOk(t, d) { LeftBackend(s, c, d); }
    forall d, i ensures SourceOk(t, d, i) { LeftSource(s, c, d, i); }
    LeftPool(s, c);
  }

  lemma LeftBackend(s: Proxy, c: nat, d: nat)
    requires CanLeave(s, c) && ClientOk(s, c) && IdentOk(s, s.clients[c].ids[0]) && d in s.backends && BackendOk(s, d)
    ensures BackendOk(HeadLeft(s, c, HeadBytes(s.clients[c])), d)
  {
  }

  lemma LeftSource(s: Proxy, c: nat, d: nat, i: nat)
    requires CanLeave(s, c) && ClientOk(s, c) && SourceOk(s, d, i)
    ensures SourceOk(HeadLeft(s, c, HeadBytes(s.clients[c])), d, i)
  {
  }

  lemma LeftPool(s: Proxy, c: nat)
    requires CanLeave(s, c) && ClientOk(s, c) && PoolOk(s) && IdentOk(s, s.clients[c].ids[0])
    ensures PoolOk(HeadLeft(s, c, HeadBytes(s.clients[c])))
  {
    var x := s.clients[c].ids[0];
    ReleasedIdent(s, x, s.idents[x].(access := None));
  }

  lemma SamePool(s: Proxy, t: Proxy)
    requires PoolOk(s) && t.pool == s.pool && t.idents == s.idents && t.stranded == s.stranded
    ensures PoolOk(t)
  {
  }

  /** A request that is answered as it comes in. */
  lemma AnsweredAtOnce(cells: seq<Cell>, first: nat, replies: Replies, sent: Bytes, w: Waiting, bytes: Bytes)
    requires Sound(cells, first, replies, sent) && w.waitRsp && !w.waitDone && bytes != []
    ensures Sound(cells + [Cell(w.(waitDone := true), bytes)], first, replies + [Some(bytes)], sent)
  {
    var cell := Cell(w, bytes);
    var done := Cell(w.(waitDone := true), bytes);
    NewRequest(cells, first, replies, sent, cell);
    NewReply(cells + [cell], first, replies + [None], sent, |cells|, done);
    assert (cells + [cell])[|cells| := done] == cells + [done];
    assert (replies + [None])[first + |cells| := Some(bytes)] == replies + [Some(bytes)];
  }

  // ---- Runs ----

  /** `d` bytes of the head reply of `c` are written. */
  function PartSent(k: Client, d: nat): Client
    requires k.cells != [] && d <= |k.cells[0].buffer|
  {
    k.(cells := k.cells[0 := Cell(k.cells[0].who, k.cells[0].buffer[d..])], sent := k.sent + k.cells[0].buffer[..d])
  }

  const EMPTY_CLIENT := Client(true, [], [], 0, [], [], [])

  const NEW_BACKEND := Backend(true, [], [], 0, [], [])

  ghost function Reopened(q: Backend): Backend
  {
    Backend(true, [], [], 0, [], q.history + [Link(q.owners, q.frames)])
  }

  predicate Room(q: Backend, n: nat)
  {
    |q.asked| - q.answered + n <= POOL_LEN
  }

  /** Whether event `e` can happen in `s`. A full backend queue stops the proxy, so nothing
    * is added to one. */
  ghost predicate Enabled(s: Proxy, e: Event)
  {
    match e
    case Accept(c) => c !in s.clients
    case RequestLocal(c, bytes) => CanAdd(s, c, None, bytes)
    case Request(c, b) => b in s.backends && CanAdd(s, c, Some(b), []) && (s.backends[b].up ==> Room(s.backends[b], 1))
    case Receive(b, bytes, verdict) =>
      && b in s.backends && s.backends[b].up && s.backends[b].answered < |s.backends[b].asked| && bytes != []
      && (verdict.Redirect? && verdict.target in s.backends && s.backends[verdict.target].up ==>
            Room(s.backends[verdict.target], 2))
    case SendPart(c, d) => CanLeave(s, c) && s.clients[c].open && d < |s.clients[c].cells[0].buffer|
    case SendHead(c) => CanLeave(s, c) && s.clients[c].open
    case CloseClient(c) => c in s.clients
    case DrainClient(c) => CanLeave(s, c) && !s.clients[c].open
    case OpenBackend(b) => b in s.backends ==> !s.backends[b].up && s.backends[b].answered == |s.backends[b].asked|
    case CloseBackend(b) => b in s.backends
    case DrainBackend(b) => b in s.backends && !s.backends[b].up && s.backends[b].answered < |s.backends[b].asked|
  }

  /** A frame for the oldest request `x` at `b`. */
  ghost function Framed(s: Proxy, b: nat, x: nat, bytes: Bytes, verdict: Verdict): Proxy
    requires HeadIs(s, b, x)
  {
    match verdict
    case Deliver =>
      Finished(s, b, x, bytes, Frame(b, |s.backends[b].history|, s.backends[b].answered), true, [bytes])
    case Redirect(t, asking) =>
      if t in s.backends && s.backends[t].up then Resent(s, b, x, t, asking, [bytes])
      else Finished(s, b, x, DISCONNECT, Local, false, [bytes])
    case RedirectFailed =>
      Finished(s, b, x, INNER_ERROR, Local, false, [bytes])
  }

  ghost function Step(s: Proxy, e: Event): Proxy
    requires Inv(s) && Enabled(s, e)
  {
    match e
    case Accept(c) => s.(clients := s.clients[c := EMPTY_CLIENT])
    case RequestLocal(c, bytes) => Added(s, c, None, bytes)
    case Request(c, b) => if s.backends[b].up then Added(s, c, Some(b), []) else Added(s, c, None, DISCONNECT)
    case Receive(b, bytes, verdict) =>
      assert BackendOk(s, b);
      match s.backends[b].asked[s.backends[b].answered] {
        case Asking => s.(backends := s.backends[b := Popped(s.backends[b], [bytes])])
        case Id(x) => Framed(s, b, x, bytes, verdict)
      }
    case SendPart(c, d) => s.(clients := s.clients[c := PartSent(s.clients[c], d)])
    case SendHead(c) => assert ClientOk(s, c); HeadLeft(s, c, HeadBytes(s.clients[c]))
    case CloseClient(c) => s.(clients := s.clients[c := s.clients[c].(open := false)])
    case DrainClient(c) => assert ClientOk(s, c); HeadLeft(s, c, HeadBytes(s.clients[c]))
    case OpenBackend(b) =>
      s.(backends := s.backends[b := if b in s.backends then Reopened(s.backends[b]) else NEW_BACKEND])
    case CloseBackend(b) => s.(backends := s.backends[b := s.backends[b].(up := false)])
    case DrainBackend(b) =>
      assert BackendOk(s, b);
      match s.backends[b].asked[s.backends[b].answered] {
        case Asking => s.(backends := s.backends[b := Popped(s.backends[b], [])])
        case Id(x) => Finished(s, b, x, DISCONNECT, Local, true, [])
      }
  }

  /** Steps that change one client's or one backend's own fields only. */
  lemma ClientChanged(s: Proxy, c: nat, k: Client)
    requires Inv(s) && OwnFields(s, c, k)
    ensures Inv(s.(clients := s.clients[c := k]))
  {
    var t := s.(clients := s.clients[c := k]);
    assert ClientOk(s, c);
    hide Sound, SentOk, ClientOk, IdentOk, BackendOk, SourceOk;
    forall d | d in t.clients ensures ClientOk(t, d) { ChangedClient(s, c, k, d); }
    forall y | y in t.idents ensures IdentOk(t, y) { ChangedIdent(s, c, k, y); }
    forall b | b in t.backends ensures BackendOk(t, b) { ChangedBackend(s, c, k, b); }
    forall d, i ensures SourceOk(t, d, i) { ChangedSource(s, c, k, d, i); }
  }

  ghost predicate OwnFields(s: Proxy, c: nat, k: Client)
  {
    && c in s.clients
    && k.ids == s.clients[c].ids && |k.cells| == |k.ids| == |s.clients[c].cells| && k.first == s.clients[c].first
    && k.replies == s.clients[c].replies && k.sources == s.clients[c].sources
    && (forall j | 0 <= j < |k.cells| :: k.cells[j].who == s.clients[c].cells[j].who)
    && (k.open ==> Sound(k.cells, k.first, k.replies, k.sent))
    && (!k.open ==> k.sent == s.clients[c].sent)
  }

  lemma ChangedClient(s: Proxy, c: nat, k: Client, d: nat)
    requires OwnFields(s, c, k) && d in s.clients && ClientOk(s, d)
    ensures ClientOk(s.(clients := s.clients[c := k]), d)
  {
    hide Sound, SentOk;
    if k.open {
      SoundSent(k.cells, k.first, k.replies, k.sent);
    }
  }

  lemma ChangedIdent(s: Proxy, c: nat, k: Client, y: nat)
    requires OwnFields(s, c, k) && y in s.idents && IdentOk(s, y)
    ensures IdentOk(s.(clients := s.clients[c := k]), y)
  {
    hide Sound, SentOk;
  }

  lemma ChangedBackend(s: Proxy, c: nat, k: Client, b: nat)
    requires b in s.backends && BackendOk(s, b)
    ensures BackendOk(s.(clients := s.clients[c := k]), b)
  {
  }

  lemma ChangedSource(s: Proxy, c: nat, k: Client, d: nat, i: nat)
    requires OwnFields(s, c, k) && SourceOk(s, d, i)
    ensures SourceOk(s.(clients := s.clients[c := k]), d, i)
  {
    hide Sound, SentOk;
  }

  /** Backend `b` may be `q` as far as the rest is concerned: the same tokens wait at the same
    * places, the owners on its connections are the same, and the frames that came stay. */
  ghost predicate Replaces(s: Proxy, b: nat, q: Backend)
  {
    && q.answered <= |q.asked| == |q.owners|
    && |q.frames| <= q.answered && (q.up ==> |q.frames| == q.answered)
    && (b !in s.backends ==> q.asked == [])
    && (b in s.backends ==>
          && (forall n | q.answered <= n < |q.asked| ::
                && s.backends[b].answered <= n < |s.backends[b].asked| == |s.backends[b].owners|
                && q.asked[n] == s.backends[b].asked[n] && q.owners[n] == s.backends[b].owners[n])
          && (forall n | s.backends[b].answered <= n < |s.backends[b].asked| && s.backends[b].asked[n].Id? ::
                q.answered <= n < |q.asked|)
          && (forall e | 0 <= e <= |s.backends[b].history| ::
                && LinkOf(q, e).owners == LinkOf(s.backends[b], e).owners
                && LinkOf(s.backends[b], e).frames <= LinkOf(q, e).frames))
  }

  lemma BackendChanged(s: Proxy, b: nat, q: Backend)
    requires Inv(s) && Replaces(s, b, q)
    ensures Inv(s.(backends := s.backends[b := q]))
  {
    hide ClientOk, IdentOk, BackendOk, SourceOk, PoolOk, Replaces;
    var t := s.(backends := s.backends[b := q]);
    SamePool(s, t);
    forall d | d in t.clients ensures ClientOk(t, d) { ReplacedClient(s, b, q, d); }
    forall y | y in t.idents ensures IdentOk(t, y) { ReplacedIdent(s, b, q, y); }
    forall d | d in t.backends ensures BackendOk(t, d) { ReplacedBackend(s, b, q, d); }
    forall d, i ensures SourceOk(t, d, i) { ReplacedSource(s, b, q, d, i); }
  }

  lemma ReplacedClient(s: Proxy, b: nat, q: Backend, d: nat)
    requires d in s.clients && ClientOk(s, d)
    ensures ClientOk(s.(backends := s.backends[b := q]), d)
  {
    hide Sound, SentOk;
  }

  lemma ReplacedIdent(s: Proxy, b: nat, q: Backend, y: nat)
    requires Replaces(s, b, q) && y in s.idents && IdentOk(s, y)
    ensures IdentOk(s.(backends := s.backends[b := q]), y)
  {
    hide LinkOf;
  }

  lemma ReplacedBackend(s: Proxy, b: nat, q: Backend, d: nat)
    requires Replaces(s, b, q) && (d in s.backends ==> BackendOk(s, d)) && (d in s.backends || d == b)
    ensures BackendOk(s.(backends := s.backends[b := q]), d)
  {
    hide LinkOf;
  }

  lemma ReplacedSource(s: Proxy, b: nat, q: Backend, d: nat, i: nat)
    requires Replaces(s, b, q) && SourceOk(s, d, i)
    ensures SourceOk(s.(backends := s.backends[b := q]), d, i)
  {
  }

  /** What the invariant says of one client or one backend. */
  lemma OkAt(s: Proxy, c: nat, b: nat)
    requires Inv(s)
    ensures c in s.clients ==> ClientOk(s, c)
    ensures b in s.backends ==> BackendOk(s, b)
  {
    hide ClientOk, BackendOk;
  }

  /** A token of nobody's is passed over. */
  lemma PoppedReplaces(s: Proxy, b: nat, got: seq<Bytes>)
    requires b in s.backends && BackendOk(s, b) && s.backends[b].answered < |s.backends[b].asked|
    requires s.backends[b].asked[s.backends[b].answered].Asking?
    requires Comes(s.backends[b], got)
    ensures Replaces(s, b, Popped(s.backends[b], got))
  {
  }

  lemma ReopenedReplaces(s: Proxy, b: nat)
    requires b in s.backends ==> BackendOk(s, b) && s.backends[b].answered == |s.backends[b].asked|
    ensures Replaces(s, b, if b in s.backends then Reopened(s.backends[b]) else NEW_BACKEND)
  {
  }

  lemma DownReplaces(s: Proxy, b: nat)
    requires b in s.backends && BackendOk(s, b)
    ensures Replaces(s, b, s.backends[b].(up := false))
  {
  }

  lemma HeadStands(s: Proxy, b: nat)
    requires b in s.backends && BackendOk(s, b) && s.backends[b].answered < |s.backends[b].asked|
    ensures var head := s.backends[b].asked[s.backends[b].answered]; head.Id? ==> HeadIs(s, b, head.x)
  {
  }

  lemma ReceiveKeeps(s: Proxy, b: nat, bytes: Bytes, verdict: Verdict)
    requires Inv(s) && Enabled(s, Receive(b, bytes, verdict))
    ensures Inv(Step(s, Receive(b, bytes, verdict)))
  {
    OkAt(s, 0, b);
    HeadStands(s, b);
    hide Inv, Framed, Popped, BackendOk, HeadIs, Replaces;
    var head := s.backends[b].asked[s.backends[b].answered];
    if head.Asking? {
      PoppedReplaces(s, b, [bytes]);
      BackendChanged(s, b, Popped(s.backends[b], [bytes]));
    } else {
      FramedKeeps(s, b, head.x, bytes, verdict);
    }
  }

  lemma DrainKeeps(s: Proxy, b: nat)
    requires Inv(s) && Enabled(s, DrainBackend(b))
    ensures Inv(Step(s, DrainBackend(b)))
  {
    OkAt(s, 0, b);
    HeadStands(s, b);
    hide Inv, Finished, Popped, BackendOk, HeadIs, Replaces;
    var head := s.backends[b].asked[s.backends[b].answered];
    if head.Asking? {
      PoppedReplaces(s, b, []);
      BackendChanged(s, b, Popped(s.backends[b], []));
    } else {
      FinishedKeeps(s, b, head.x, DISCONNECT, Local, true, []);
    }
  }

  lemma PartKeeps(s: Proxy, c: nat, d: nat)
    requires Inv(s) && Enabled(s, SendPart(c, d))
    ensures Inv(Step(s, SendPart(c, d)))
  {
    OkAt(s, c, 0);
    hide Inv, Sound, SentOk;
    var k := s.clients[c];
    HeadShortened(k.cells, k.first, k.replies, k.sent, d);
    ClientChanged(s, c, PartSent(k, d));
  }

  lemma ClosedKeeps(s: Proxy, c: nat)
    requires Inv(s) && c in s.clients
    ensures Inv(Step(s, CloseClient(c)))
  {
    OkAt(s, c, 0);
    hide Inv, Sound, SentOk;
    ClientChanged(s, c, s.clients[c].(open := false));
  }

  /** No step breaks the invariant. */
  lemma StepKeeps(s: Proxy, e: Event)
    requires Inv(s) && Enabled(s, e)
    ensures Inv(Step(s, e))
  {
    hide Inv, Added, HeadLeft, ClientOk, BackendOk, Replaces, Reopened;
    match e {
      case Accept(c) => AcceptKeeps(s, c);
      case RequestLocal(c, bytes) => AddedKeeps(s, c, None, bytes);
      case Request(c, b) =>
        if s.backends[b].up { AddedKeeps(s, c, Some(b), []); } else { AddedKeeps(s, c, None, DISCONNECT); }
      case Receive(b, bytes, verdict) => ReceiveKeeps(s, b, bytes, verdict);
      case SendPart(c, d) => PartKeeps(s, c, d);
      case SendHead(c) =>
        OkAt(s, c, 0);
        LeftKeeps(s, c);
      case CloseClient(c) => ClosedKeeps(s, c);
      case DrainClient(c) =>
        OkAt(s, c, 0);
        LeftKeeps(s, c);
      case OpenBackend(b) =>
        OkAt(s, 0, b);
        ReopenedReplaces(s, b);
        BackendChanged(s, b, if b in s.backends then Reopened(s.backends[b]) else NEW_BACKEND);
      case CloseBackend(b) =>
        OkAt(s, 0, b);
        DownReplaces(s, b);
        BackendChanged(s, b, s.backends[b].(up := false));
      case DrainBackend(b) => DrainKeeps(s, b);
    }
  }

  lemma FramedKeeps(s: Proxy, b: nat, x: nat, bytes: Bytes, verdict: Verdict)
    requires Inv(s) && HeadIs(s, b, x) && bytes != [] && s.backends[b].up
    ensures Inv(Framed(s, b, x, bytes, verdict))
  {
    hide Inv, Finished, Resent;
    match verdict {
      case Deliver =>
        FinishedKeeps(s, b, x, bytes, Frame(b, |s.backends[b].history|, s.backends[b].answered), true, [bytes]);
      case Redirect(t, asking) =>
        if t in s.backends && s.backends[t].up {
          ResentKeeps(s, b, x, t, asking, [bytes]);
        } else {
          FinishedKeeps(s, b, x, DISCONNECT, Local, false, [bytes]);
        }
      case RedirectFailed =>
        FinishedKeeps(s, b, x, INNER_ERROR, Local, false, [bytes]);
    }
  }

  lemma AcceptKeeps(s: Proxy, c: nat)
    requires Inv(s) && c !in s.clients
    ensures Inv(s.(clients := s.clients[c := EMPTY_CLIENT]))
  {
    hide ClientOk, IdentOk, BackendOk, SourceOk, PoolOk;
    var t := s.(clients := s.clients[c := EMPTY_CLIENT]);
    SamePool(s, t);
    forall d | d in t.clients ensures ClientOk(t, d) { AcceptedClient(s, c, d); }
    forall y | y in t.idents ensures IdentOk(t, y) { AcceptedIdent(s, c, y); }
    forall b | b in t.backends ensures BackendOk(t, b) { AcceptedBackend(s, c, b); }
    forall d, i ensures SourceOk(t, d, i) { AcceptedSource(s, c, d, i); }
  }

  lemma AcceptedClient(s: Proxy, c: nat, d: nat)
    requires c !in s.clients && (d == c || (d in s.clients && ClientOk(s, d)))
    ensures ClientOk(s.(clients := s.clients[c := EMPTY_CLIENT]), d)
  {
    hide Sound, SentOk;
    EmptyIsSound();
  }

  lemma AcceptedIdent(s: Proxy, c: nat, y: nat)
    requires c !in s.clients && y in s.idents && IdentOk(s, y)
    ensures IdentOk(s.(clients := s.clients[c := EMPTY_CLIENT]), y)
  {
  }

  lemma AcceptedBackend(s: Proxy, c: nat, b: nat)
    requires b in s.backends && BackendOk(s, b)
    ensures BackendOk(s.(clients := s.clients[c := EMPTY_CLIENT]), b)
  {
  }

  lemma AcceptedSource(s: Proxy, c: nat, d: nat, i: nat)
    requires c !in s.clients && SourceOk(s, d, i)
    ensures SourceOk(s.(clients := s.clients[c := EMPTY_CLIENT]), d, i)
  {
  }

  lemma EmptyIsSound()
    ensures Sound([], 0, [], []) && SentOk([], [])
  {
  }

  const START := Proxy(map[], [], 0, {}, map[], map[])

  /** A run: the events that cannot happen when their turn comes are passed over. */
  ghost function Run(s: Proxy, es: seq<Event>): (t: Proxy)
    requires Inv(s)
    ensures Inv(t)
    decreases |es|
  {
    if |es| == 0 then s
    else if Enabled(s, es[0]) then StepKeeps(s, es[0]); Run(Step(s, es[0]), es[1..])
    else Run(s, es[1..])
  }

  // ---- What holds in every run ----

  /** Every byte a client has received, whether it is still there or not, is the next byte of its
    * replies in request order, whatever the order in which backends answered. */
  lemma RepliesInRequestOrder(es: seq<Event>, c: nat)
    requires c in Run(START, es).clients
    ensures var k := Run(START, es).clients[c]; k.sent <= Stream(k.replies[..Answered(k.replies)])
    ensures var k := Run(START, es).clients[c]; k.open ==> Stream(k.replies[..k.first]) <= k.sent
  {
    var s := Run(START, es);
    assert ClientOk(s, c);
    if s.clients[c].open {
      SentIsPrefix(s.clients[c].cells, s.clients[c].first, s.clients[c].replies, s.clients[c].sent);
    }
  }

  /** The reply to a client's request `i`, when a backend gave it, is byte for byte the frame with the
    * number that this very request has on that backend's connection. */
  lemma RepliesAnswerOwnRequest(es: seq<Event>, c: nat, i: nat)
    requires c in Run(START, es).clients && i < |Run(START, es).clients[c].replies|
    ensures |Run(START, es).clients[c].sources| == |Run(START, es).clients[c].replies|
    ensures var s := Run(START, es);
            s.clients[c].replies[i].Some? && s.clients[c].sources[i].Frame? ==>
              var f := s.clients[c].sources[i];
              && f.backend in s.backends
              && var link := LinkOf(s.backends[f.backend], f.epoch);
              && f.n < |link.owners| && link.owners[f.n] == Req(c, i)
              && f.n < |link.frames| && s.clients[c].replies[i] == Some(link.frames[f.n])
  {
    var s := Run(START, es);
    assert ClientOk(s, c) && SourceOk(s, c, i);
  }

  /** No request is forgotten: one without a reply waits at a backend, under its own number. */
  lemma NoRequestForgotten(es: seq<Event>, c: nat, i: nat)
    requires c in Run(START, es).clients
    requires Run(START, es).clients[c].first <= i < |Run(START, es).clients[c].replies|
    requires Run(START, es).clients[c].replies[i].None?
    ensures exists b: nat, n: nat :: Waits(Run(START, es), b, n) && n < |Run(START, es).backends[b].owners|
                           && Run(START, es).backends[b].owners[n] == Req(c, i)
  {
    hide Sound, SentOk;
    var s := Run(START, es);
    assert ClientOk(s, c);
    var x := s.clients[c].ids[i - s.clients[c].first];
    assert IdentOk(s, x);
    var at := s.idents[x].at.value;
    assert BackendOk(s, at.0);
    assert Waits(s, at.0, at.1) && s.backends[at.0].owners[at.1] == Req(c, i);
  }

  ghost predicate InClientRing(s: Proxy, x: nat)
  {
    exists c, j :: c in s.clients && 0 <= j < |s.clients[c].ids| && s.clients[c].ids[j] == x
  }

  ghost predicate InBackendRing(s: Proxy, x: nat)
  {
    exists b: nat, n: nat :: Waits(s, b, n) && s.backends[b].asked[n] == Id(x)
  }

  lemma PooledIsFree(s: Proxy, x: nat)
    requires Inv(s) && x in s.pool
    ensures !InClientRing(s, x) && !InBackendRing(s, x) && x !in s.stranded
  {
    hide Sound, SentOk, SourceOk;
    assert IdentOk(s, x);
    assert forall c | c in s.clients :: ClientOk(s, c);
    assert forall b | b in s.backends :: BackendOk(s, b);
  }

  lemma OutsideIsHeld(s: Proxy, x: nat)
    requires Inv(s) && x in s.idents && x !in s.pool
    ensures InClientRing(s, x) || InBackendRing(s, x) || x in s.stranded
  {
    hide Sound, SentOk, SourceOk;
    assert IdentOk(s, x);
    var i := s.idents[x];
    if i.access.Some? {
      assert s.clients[i.access.value].ids[i.index - s.clients[i.access.value].first] == x;
    } else if i.at.Some? {
      assert Waits(s, i.at.value.0, i.at.value.1);
    }
  }

  /** The pool holds no identity twice and none that is still in a ring; and an identity
    * outside the pool is in a ring, unless a redirect of it failed. */
  lemma IdentityLifecycle(es: seq<Event>)
    ensures var s := Run(START, es);
            && NoRepeat(s.pool)
            && (forall x | x in s.pool :: !InClientRing(s, x) && !InBackendRing(s, x) && x !in s.stranded)
            && (forall x | x in s.idents && x !in s.pool ::
                 InClientRing(s, x) || InBackendRing(s, x) || x in s.stranded)
  {
    var s := Run(START, es);
    assert NoRepeat(s.pool);
    hide Inv, InClientRing, InBackendRing;
    forall x | x in s.pool ensures !InClientRing(s, x) && !InBackendRing(s, x) && x !in s.stranded {
      PooledIsFree(s, x);
    }
    forall x | x in s.idents && x !in s.pool ensures InClientRing(s, x) || InBackendRing(s, x) || x in s.stranded {
      OutsideIsHeld(s, x);
    }
  }

  /** A frame that ends the oldest request at a backend without telling its identity: a
    * redirect that failed, or leads to a backend that is absent or down. */
  ghost predicate Fails(s: Proxy, e: Event)
  {
    && e.Receive? && e.b in s.backends && s.backends[e.b].answered < |s.backends[e.b].asked|
    && s.backends[e.b].asked[s.backends[e.b].answered].Id?
    && (|| e.verdict.RedirectFailed?
        || (e.verdict.Redirect? && !(e.verdict.target in s.backends && s.backends[e.verdict.target].up)))
  }

  /** One step strands an identity exactly when such a frame comes, and then it is that of the
    * request the frame was for. */
  lemma StrandsExactly(s: Proxy, e: Event)
    requires Inv(s) && Enabled(s, e)
    ensures Fails(s, e) ==>
              var x := s.backends[e.b].asked[s.backends[e.b].answered].x;
              x !in s.stranded && Step(s, e).stranded == s.stranded + {x}
    ensures !Fails(s, e) ==> Step(s, e).stranded == s.stranded
  {
    hide ClientOk, SourceOk, PoolOk, Answer;
    if e.Receive? {
      assert BackendOk(s, e.b);
      var head := s.backends[e.b].asked[s.backends[e.b].answered];
      if head.Id? {
        assert IdentOk(s, head.x);
      }
    }
  }

  /** No frame of the run ends a request that way. */
  ghost predicate NoneFails(s: Proxy, es: seq<Event>)
    requires Inv(s)
    decreases |es|
  {
    |es| == 0 ||
    if Enabled(s, es[0]) then !Fails(s, es[0]) && (StepKeeps(s, es[0]); NoneFails(Step(s, es[0]), es[1..]))
    else NoneFails(s, es[1..])
  }

  /** A run strands nothing if and only if no redirect in it fails; what is stranded stays so. */
  lemma {:induction false} RunStrands(s: Proxy, es: seq<Event>)
    requires Inv(s)
    ensures s.stranded <= Run(s, es).stranded
    ensures Run(s, es).stranded == s.stranded <==> NoneFails(s, es)
    decreases |es|
  {
    hide Inv, Step, Enabled, Fails;
    if |es| > 0 {
      if Enabled(s, es[0]) {
        StepKeeps(s, es[0]);
        StrandsExactly(s, es[0]);
        RunStrands(Step(s, es[0]), es[1..]);
      } else {
        RunStrands(s, es[1..]);
      }
    }
  }

  /** A stranded identity never comes back to the pool. */
  lemma StrandedForGood(s: Proxy, es: seq<Event>, x: nat)
    requires Inv(s) && x in s.stranded
    ensures x in Run(s, es).stranded && x !in Run(s, es).pool
  {
    RunStrands(s, es);
    assert IdentOk(Run(s, es), x);
  }

  /** In every run an identity is in the pool exactly when neither owner has it in a ring and
    * it was not stranded. */
  lemma PoolExactly(es: seq<Event>, x: nat)
    requires x in Run(START, es).idents
    ensures var s := Run(START, es);
            x in s.pool <==> !InClientRing(s, x) && !InBackendRing(s, x) && x !in s.stranded
  {
    hide Inv, InClientRing, InBackendRing;
    IdentityLifecycle(es);
  }

  /** As long as no redirect fails, an identity is out of the pool exactly while one of its two
    * owners has it in a ring. */
  lemma OutOfPoolWhileOwned(es: seq<Event>, x: nat)
    requires NoneFails(START, es) && x in Run(START, es).idents
    ensures x in Run(START, es).pool <==> !InClientRing(Run(START, es), x) && !InBackendRing(Run(START, es), x)
  {
    hide InClientRing, InBackendRing;
    RunStrands(START, es);
    PoolExactly(es, x);
  }

  lemma RunStep(s: Proxy, e: Event, es: seq<Event>)
    requires Inv(s) && Enabled(s, e)
    ensures Inv(Step(s, e)) && Run(s, [e] + es) == Run(Step(s, e), es)
  {
    hide Inv, Step, Enabled;
    StepKeeps(s, e);
    assert ([e] + es)[0] == e && ([e] + es)[1..] == es;
  }

  /** The proxy with one client and one backend, after the client's request went to the backend,
    * after that request was answered for a redirect that failed, and after the answer went out. */
  const READY := START.(clients := map[0 := EMPTY_CLIENT], backends := map[0 := NEW_BACKEND])
  const WAITING := READY.(
    idents := map[0 := Ident(Some(0), 0, Some(0), Some((0, 0)))], nextId := 1,
    clients := map[0 := EMPTY_CLIENT.(ids := [0], cells := [Cell(Waiting(0, true, false, false), [])],
                                      replies := [None], sources := [Local])],
    backends := map[0 := Backend(true, [Id(0)], [Req(0, 0)], 0, [], [])])
  function AnsweredBy(bytes: Bytes): Proxy
  {
    WAITING.(
      idents := map[0 := Ident(Some(0), 0, Some(0), None)], stranded := {0},
      clients := map[0 := EMPTY_CLIENT.(ids := [0], cells := [Cell(Waiting(0, true, true, false), bytes)],
                                        replies := [Some(bytes)], sources := [Local])],
      backends := map[0 := Backend(true, [Id(0)], [Req(0, 0)], 1, [[43]], [])])
  }

  function LeftBehind(bytes: Bytes): Proxy
  {
    AnsweredBy(bytes).(
      idents := map[0 := Ident(None, 0, Some(0), None)],
      clients := map[0 := EMPTY_CLIENT.(first := 1, replies := [Some(bytes)], sources := [Local], sent := bytes)])
  }

  /** One client and one backend, field by field. */
  lemma SameProxy(s: Proxy, t: Proxy)
    requires s.idents == t.idents && s.pool == t.pool && s.nextId == t.nextId && s.stranded == t.stranded
    requires s.clients.Keys == t.clients.Keys == s.backends.Keys == t.backends.Keys == {0}
    requires var k, l := s.clients[0], t.clients[0];
             && k.open == l.open && k.ids == l.ids && k.cells == l.cells && k.first == l.first
             && k.replies == l.replies && k.sources == l.sources && k.sent == l.sent
    requires var q, r := s.backends[0], t.backends[0];
             q.up == r.up && q.asked == r.asked && q.owners == r.owners && q.answered == r.answered
             && q.frames == r.frames && q.history == r.history
    ensures s == t
  {
    assert s.clients[0] == t.clients[0] && s.backends[0] == t.backends[0];
  }

  lemma ToReady(es: seq<Event>)
    ensures Inv(READY) && Run(START, [Accept(0)] + ([OpenBackend(0)] + es)) == Run(READY, es)
  {
    RunStep(START, Accept(0), [OpenBackend(0)] + es);
    hide Inv;
    var s := Step(START, Accept(0));
    RunStep(s, OpenBackend(0), es);
    SameProxy(Step(s, OpenBackend(0)), READY);
  }

  lemma ToWaiting()
    requires Inv(READY)
    ensures Inv(WAITING) && Enabled(READY, Request(0, 0)) && Step(READY, Request(0, 0)) == WAITING
  {
    hide Inv;
    StepKeeps(READY, Request(0, 0));
    SameProxy(Step(READY, Request(0, 0)), WAITING);
  }

  lemma ToAnswered()
    requires Inv(WAITING)
    ensures var e := Receive(0, [43], RedirectFailed);
            && Inv(AnsweredBy(INNER_ERROR)) && Enabled(WAITING, e) && Step(WAITING, e) == AnsweredBy(INNER_ERROR)
  {
    hide Inv, Finished, AnsweredBy;
    FailedState(INNER_ERROR);
    StepKeeps(WAITING, Receive(0, [43], RedirectFailed));
  }

  lemma FailedState(bytes: Bytes)
    ensures HeadIs(WAITING, 0, 0) && Finished(WAITING, 0, 0, bytes, Local, false, [[43]]) == AnsweredBy(bytes)
  {
    SameProxy(Finished(WAITING, 0, 0, bytes, Local, false, [[43]]), AnsweredBy(bytes));
  }

  lemma ToLeftBehind(bytes: Bytes)
    requires Inv(AnsweredBy(bytes))
    ensures Enabled(AnsweredBy(bytes), SendHead(0)) && Step(AnsweredBy(bytes), SendHead(0)) == LeftBehind(bytes)
    ensures Inv(LeftBehind(bytes))
  {
    hide Inv;
    StepKeeps(AnsweredBy(bytes), SendHead(0));
    SameProxy(Step(AnsweredBy(bytes), SendHead(0)), LeftBehind(bytes));
  }

  lemma InNoRing(bytes: Bytes)
    ensures var s := LeftBehind(bytes); s.stranded == {0} && !InClientRing(s, 0) && !InBackendRing(s, 0)
  {
  }

  /** A redirect fails, its client is answered: the identity is in no ring and not in the pool,
    * and in no later run does it come back. */
  lemma RedirectStrands(later: seq<Event>)
    ensures var es := [Accept(0)] + ([OpenBackend(0)] +
                      ([Request(0, 0)] + ([Receive(0, [43], RedirectFailed)] + ([SendHead(0)] + []))));
            var s := Run(START, es);
            && s.stranded == {0} && !InClientRing(s, 0) && !InBackendRing(s, 0)
            && 0 in Run(s, later).stranded && 0 !in Run(s, later).pool
  {
    hide Inv, Step, Enabled, InClientRing, InBackendRing, AnsweredBy, LeftBehind;
    ToReady([Request(0, 0)] + ([Receive(0, [43], RedirectFailed)] + ([SendHead(0)] + [])));
    ToWaiting();
    RunStep(READY, Request(0, 0), [Receive(0, [43], RedirectFailed)] + ([SendHead(0)] + []));
    ToAnswered();
    RunStep(WAITING, Receive(0, [43], RedirectFailed), [SendHead(0)] + []);
    ToLeftBehind(INNER_ERROR);
    RunStep(AnsweredBy(INNER_ERROR), SendHead(0), []);
    InNoRing(INNER_ERROR);
    StrandedForGood(LeftBehind(INNER_ERROR), later, 0);
  }

  // ---- A write is a run ----

  /** A client as a write sees it. */
  function Seen(k: Client): View
  {
    View(Unmark(k.cells), k.first, k.sent)
  }

  function Sending(c: nat, m: Move): Event
  {
    if m.Whole? then SendHead(c) else SendPart(c, m.d)
  }

  lemma MoveIsStep(s: Proxy, c: nat, m: Move)
    requires Inv(s) && c in s.clients && s.clients[c].open && CanMove(Seen(s.clients[c]), m)
    ensures Enabled(s, Sending(c, m))
    ensures var t := Step(s, Sending(c, m));
            c in t.clients && t.clients[c].open && Seen(t.clients[c]) == Moved(Seen(s.clients[c]), m)
  {
    hide Inv, Released;
    var k := s.clients[c];
    assert Unmark(k.cells)[1..] == Unmark(k.cells[1..]);
    if m.Part? {
      var after := k.cells[0 := Cell(k.cells[0].who, k.cells[0].buffer[m.d..])];
      assert Unmark(after) == Unmark(k.cells)[0 := Cell(Unmark(k.cells)[0].who, k.cells[0].buffer[m.d..])];
    }
  }

  /** Whatever a write of the connection to client `c` did, some steps of the proxy do. */
  lemma {:induction false} WriteIsARun(s: Proxy, c: nat, ms: seq<Move>, w: View) returns (es: seq<Event>)
    requires Inv(s) && c in s.clients && s.clients[c].open && Leads(Seen(s.clients[c]), ms, w)
    ensures |es| == |ms| && forall i | 0 <= i < |es| :: es[i] == Sending(c, ms[i])
    ensures var t := Run(s, es); c in t.clients && t.clients[c].open && Seen(t.clients[c]) == w
    decreases |ms|
  {
    hide Inv, Step, Enabled, Seen, Moved, CanMove;
    if |ms| == 0 {
      es := [];
    } else {
      MoveIsStep(s, c, ms[0]);
      StepKeeps(s, Sending(c, ms[0]));
      var rest := WriteIsARun(Step(s, Sending(c, ms[0])), c, ms[1..], w);
      es := [Sending(c, ms[0])] + rest;
      RunStep(s, Sending(c, ms[0]), rest);
    }
  }

  ghost predicate Has(s: Proxy, c: nat, i: nat, bytes: Bytes, src: Source)
  {
    && c in s.clients && i < |s.clients[c].replies| && i < |s.clients[c].sources|
    && s.clients[c].replies[i] == Some(bytes) && s.clients[c].sources[i] == src
  }

  /** A reply, once there, is never replaced: no later frame or error reaches the request. */
  lemma ReplyStays(s: Proxy, e: Event, c: nat, i: nat, bytes: Bytes, src: Source)
    requires Inv(s) && Enabled(s, e) && Has(s, c, i, bytes, src)
    ensures Has(Step(s, e), c, i, bytes, src)
  {
    hide ClientOk, IdentOk, BackendOk, SourceOk, PoolOk, Sound, SentOk, Added, Finished, Resent, HeadLeft;
    match e {
      case RequestLocal(d, given) => AddedHas(s, d, None, given, c, i, bytes, src);
      case Request(d, b) =>
        AddedHas(s, d, Some(b), [], c, i, bytes, src);
        AddedHas(s, d, None, DISCONNECT, c, i, bytes, src);
      case Receive(b, _, _) => HeadHas(s, b, c, i, bytes, src);
      case DrainBackend(b) => HeadHas(s, b, c, i, bytes, src);
      case SendHead(d) => LeftHas(s, d, c, i, bytes, src);
      case DrainClient(d) => LeftHas(s, d, c, i, bytes, src);
      case _ =>
    }
  }

  lemma AddedHas(s: Proxy, d: nat, to: Option<nat>, given: Bytes, c: nat, i: nat, bytes: Bytes, src: Source)
    requires Has(s, c, i, bytes, src) && CanAdd(s, d, to, given)
    ensures Has(Added(s, d, to, given), c, i, bytes, src)
  {
  }

  lemma LeftHas(s: Proxy, d: nat, c: nat, i: nat, bytes: Bytes, src: Source)
    requires Has(s, c, i, bytes, src) && CanLeave(s, d) && ClientOk(s, d)
    ensures Has(HeadLeft(s, d, HeadBytes(s.clients[d])), c, i, bytes, src)
  {
  }

  lemma HeadHas(s: Proxy, b: nat, c: nat, i: nat, bytes: Bytes, src: Source)
    requires Inv(s) && Has(s, c, i, bytes, src)
    requires b in s.backends && s.backends[b].answered < |s.backends[b].asked|
    ensures s.backends[b].asked[s.backends[b].answered].Id? ==>
              var x := s.backends[b].asked[s.backends[b].answered].x;
              && HeadIs(s, b, x)
              && (forall given, from, told, got :: Has(Finished(s, b, x, given, from, told, got), c, i, bytes, src))
              && (forall t, asking, got | t in s.backends :: Has(Resent(s, b, x, t, asking, got), c, i, bytes, src))
  {
    assert BackendOk(s, b);
    var head := s.backends[b].asked[s.backends[b].answered];
    if head.Id? {
      FinishedElsewhere(s, b, head.x, c, i);
    }
  }

  /** A waiting request has no reply yet, so its answer goes to no answered one. */
  lemma FinishedElsewhere(s: Proxy, b: nat, x: nat, c: nat, i: nat)
    requires Inv(s) && HeadIs(s, b, x) && c in s.clients && i < |s.clients[c].replies| && s.clients[c].replies[i].Some?
    ensures s.idents[x].access == Some(c) ==> s.idents[x].index != i
  {
    assert BackendOk(s, b) && IdentOk(s, x);
  }

  lemma RepliesStay(s: Proxy, es: seq<Event>, c: nat, i: nat, bytes: Bytes, src: Source)
    requires Inv(s) && Has(s, c, i, bytes, src)
    ensures Has(Run(s, es), c, i, bytes, src)
    decreases |es|
  {
    hide Inv, Step, Enabled, Has;
    if |es| > 0 {
      if Enabled(s, es[0]) {
        StepKeeps(s, es[0]);
        ReplyStays(s, es[0], c, i, bytes, src);
        RepliesStay(Step(s, es[0]), es[1..], c, i, bytes, src);
      } else {
        RepliesStay(s, es[1..], c, i, bytes, src);
      }
    }
  }

  /** The events of taking every waiting request out of a closed backend. */
  function Drains(b: nat, n: nat): seq<Event>
  {
    seq(n, _ => DrainBackend(b))
  }

  /** When a backend is gone, every request of a client that still waited there has the
    * disconnect error after the drain, and after anything that happens later. */
  lemma ClosedBackendAnswersAll(s: Proxy, b: nat, n: nat, later: seq<Event>)
    requires Inv(s) && b in s.backends && !s.backends[b].up && Waits(s, b, n) && s.backends[b].asked[n].Id?
    requires s.idents[s.backends[b].asked[n].x].access.Some?
    ensures n < |s.backends[b].owners| && s.backends[b].owners[n].Req?
    ensures Has(Run(s, Drains(b, |s.backends[b].asked| - s.backends[b].answered) + later),
                s.backends[b].owners[n].client, s.backends[b].owners[n].index, DISCONNECT, Local)
    decreases n - s.backends[b].answered
  {
    hide ClientOk, IdentOk, SourceOk, PoolOk, Has, Step;
    var count := |s.backends[b].asked| - s.backends[b].answered;
    var es := Drains(b, count) + later;
    assert es[0] == DrainBackend(b) && es[1..] == Drains(b, count - 1) + later;
    assert BackendOk(s, b);
    var t := Step(s, es[0]);
    StepKeeps(s, es[0]);
    var o := s.backends[b].owners[n];
    if n == s.backends[b].answered {
      DrainedHead(s, b);
      RepliesStay(t, es[1..], o.client, o.index, DISCONNECT, Local);
    } else {
      DrainedOther(s, b, n);
      ClosedBackendAnswersAll(t, b, n, later);
    }
  }

  lemma DrainedHead(s: Proxy, b: nat)
    requires Inv(s) && Enabled(s, DrainBackend(b)) && s.backends[b].asked[s.backends[b].answered].Id?
    requires s.idents[s.backends[b].asked[s.backends[b].answered].x].access.Some?
    ensures s.backends[b].answered < |s.backends[b].owners| && s.backends[b].owners[s.backends[b].answered].Req?
    ensures var o := s.backends[b].owners[s.backends[b].answered];
            Has(Step(s, DrainBackend(b)), o.client, o.index, DISCONNECT, Local)
  {
    hide Sound, SentOk, SourceOk, PoolOk;
    assert BackendOk(s, b);
    var x := s.backends[b].asked[s.backends[b].answered].x;
    assert IdentOk(s, x);
    assert ClientOk(s, s.idents[x].access.value);
  }

  lemma DrainedOther(s: Proxy, b: nat, n: nat)
    requires Inv(s) && Enabled(s, DrainBackend(b)) && s.backends[b].answered < n < |s.backends[b].asked|
    requires s.backends[b].asked[n].Id? && s.idents[s.backends[b].asked[n].x].access.Some?
    ensures var t := Step(s, DrainBackend(b));
            && b in t.backends && t.backends[b] == Popped(s.backends[b], [])
            && s.backends[b].asked[n].x in t.idents
            && t.idents[s.backends[b].asked[n].x] == s.idents[s.backends[b].asked[n].x]
  {
    hide Sound, SentOk, SourceOk, PoolOk, ClientOk;
    assert BackendOk(s, b);
  }
}
