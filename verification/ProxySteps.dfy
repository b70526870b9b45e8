/** What the steps of the proxy bring about: who gets which bytes, and who waits where. */
module ProxySteps {
  import opened Seqs
  import opened WaitRings
  import opened ReplyOrder
  import opened Proxies

  lemma ErrorTexts()
    ensures DISCONNECT == Ascii("-redis disconnect\r\n") && INNER_ERROR == Ascii("-inner error happend\r\n")
  {
  }

  // ---- Frames of backends ----

  /** The oldest request at a backend that is up, with its client there. */
  ghost predicate Asks(s: Proxy, b: nat, o: Owner)
  {
    && b in s.backends && s.backends[b].up && Waits(s, b, s.backends[b].answered)
    && s.backends[b].asked[s.backends[b].answered].Id?
    && s.backends[b].asked[s.backends[b].answered].x in s.idents
    && s.idents[s.backends[b].asked[s.backends[b].answered].x].access.Some?
    && s.backends[b].answered < |s.backends[b].owners| && o == s.backends[b].owners[s.backends[b].answered]
  }

  lemma AsksFor(s: Proxy, b: nat, o: Owner)
    requires Inv(s) && Asks(s, b, o)
    ensures var x := s.backends[b].asked[s.backends[b].answered].x;
            && HeadIs(s, b, x) && o == Req(s.idents[x].access.value, s.idents[x].index)
            && IdentOk(s, x) && o.client in s.clients && ClientOk(s, o.client)
  {
    hide Sound, SentOk, SourceOk, PoolOk;
    assert BackendOk(s, b);
    var x := s.backends[b].asked[s.backends[b].answered].x;
    assert IdentOk(s, x);
    assert ClientOk(s, s.idents[x].access.value);
  }

  lemma FinishedHas(s: Proxy, b: nat, x: nat, bytes: Bytes, src: Source, told: bool, got: seq<Bytes>, o: Owner)
    requires HeadIs(s, b, x) && s.idents[x].access.Some? && o == Req(s.idents[x].access.value, s.idents[x].index)
    requires IdentOk(s, x) && o.client in s.clients && ClientOk(s, o.client)
    ensures Has(Finished(s, b, x, bytes, src, told, got), o.client, o.index, bytes, src)
  {
    hide Sound, SentOk;
  }

  /** A frame that is no redirect is the reply to the oldest request, byte for byte. */
  lemma Delivered(s: Proxy, b: nat, bytes: Bytes, o: Owner)
    requires Inv(s) && Asks(s, b, o) && bytes != []
    ensures o.Req? && Enabled(s, Receive(b, bytes, Deliver))
    ensures Has(Step(s, Receive(b, bytes, Deliver)), o.client, o.index, bytes,
                Frame(b, |s.backends[b].history|, s.backends[b].answered))
  {
    AsksFor(s, b, o);
    hide Inv, Finished, ClientOk, IdentOk, Has;
    FinishedHas(s, b, s.backends[b].asked[s.backends[b].answered].x, bytes,
      Frame(b, |s.backends[b].history|, s.backends[b].answered), true, [bytes], o);
  }

  /** And it stays the reply, whatever happens later. */
  lemma DeliveredForGood(s: Proxy, b: nat, bytes: Bytes, o: Owner, later: seq<Event>)
    requires Inv(s) && Asks(s, b, o) && bytes != []
    ensures o.Req?
    ensures Has(Run(s, [Receive(b, bytes, Deliver)] + later), o.client, o.index, bytes,
                Frame(b, |s.backends[b].history|, s.backends[b].answered))
  {
    assert b in s.backends;
    hide Inv, Step, Enabled, Has, Asks;
    Delivered(s, b, bytes, o);
    var e := Receive(b, bytes, Deliver);
    RunStep(s, e, later);
    RepliesStay(Step(s, e), later, o.client, o.index, bytes, Frame(b, |s.backends[b].history|, s.backends[b].answered));
  }

  /** A redirect that cannot be followed is answered by the proxy. */
  lemma RedirectRefused(s: Proxy, b: nat, bytes: Bytes, t: nat, asking: bool, o: Owner)
    requires Inv(s) && Asks(s, b, o) && bytes != []
    ensures o.Req? && Enabled(s, Receive(b, bytes, RedirectFailed))
    ensures Has(Step(s, Receive(b, bytes, RedirectFailed)), o.client, o.index, INNER_ERROR, Local)
    ensures !(t in s.backends && s.backends[t].up) ==>
              && Enabled(s, Receive(b, bytes, Redirect(t, asking)))
              && Has(Step(s, Receive(b, bytes, Redirect(t, asking))), o.client, o.index, DISCONNECT, Local)
  {
    hide DISCONNECT, INNER_ERROR;
    AsksFor(s, b, o);
    hide Inv, Finished, Resent, ClientOk, IdentOk, Has;
    var x := s.backends[b].asked[s.backends[b].answered].x;
    FinishedHas(s, b, x, INNER_ERROR, Local, false, [bytes], o);
    FinishedHas(s, b, x, DISCONNECT, Local, false, [bytes], o);
  }

  /** Request `o` waits at `t` behind all that was asked there, behind an ASKING of its own if it is
    * to be so. */
  ghost predicate QueuedAt(before: Backend, after: Backend, x: nat, o: Owner, asking: bool)
  {
    && after.asked == before.asked + (if asking then [Asking] else []) + [Id(x)]
    && after.owners == before.owners + (if asking then [Nobody] else []) + [o]
    && after.up == before.up
  }

  /** A redirect that can be followed moves the request to the end of the target's queue, unanswered. */
  lemma RedirectFollowed(s: Proxy, b: nat, bytes: Bytes, t: nat, asking: bool, o: Owner)
    requires Inv(s) && Asks(s, b, o) && bytes != []
    requires t in s.backends && s.backends[t].up && |s.backends[t].asked| - s.backends[t].answered + 2 <= 65535
    ensures Enabled(s, Receive(b, bytes, Redirect(t, asking)))
    ensures var x := s.backends[b].asked[s.backends[b].answered].x;
            var after := Step(s, Receive(b, bytes, Redirect(t, asking)));
            && t in after.backends && QueuedAt(s.backends[t], after.backends[t], x, o, asking)
            && Waits(after, t, |after.backends[t].asked| - 1)
            && b in after.backends && after.backends[b].answered == s.backends[b].answered + 1
            && (t != b ==> after.backends[t].answered == s.backends[t].answered)
            && after.clients == s.clients
            && x in after.idents && after.idents[x].access == s.idents[x].access
            && after.idents[x].at == Some((t, |after.backends[t].asked| - 1))
  {
    AsksFor(s, b, o);
    OkAt(s, 0, b);
    OkAt(s, 0, t);
    hide Inv, ClientOk, IdentOk, Finished;
    var x := s.backends[b].asked[s.backends[b].answered].x;
    ResentQueues(s, b, x, t, asking, [bytes], o);
  }

  lemma ResentQueues(s: Proxy, b: nat, x: nat, t: nat, asking: bool, got: seq<Bytes>, o: Owner)
    requires HeadIs(s, b, x) && t in s.backends && BackendOk(s, b) && BackendOk(s, t)
    requires s.idents[x].access.Some? && o == Req(s.idents[x].access.value, s.idents[x].index)
    ensures var after := Resent(s, b, x, t, asking, got);
            && t in after.backends && QueuedAt(s.backends[t], after.backends[t], x, o, asking)
            && Waits(after, t, |after.backends[t].asked| - 1)
            && b in after.backends && after.backends[b].answered == s.backends[b].answered + 1
            && (t != b ==> after.backends[t].answered == s.backends[t].answered)
            && after.clients == s.clients
            && x in after.idents && after.idents[x].access == s.idents[x].access
            && after.idents[x].at == Some((t, |after.backends[t].asked| - 1))
  {
    var k := s.backends[t];
    assert k.asked + [] + [Id(x)] == k.asked + [Id(x)] && k.owners + [] + [o] == k.owners + [o];
  }

  /** The reply to an ASKING goes to nobody. */
  lemma AskingPasses(s: Proxy, b: nat, bytes: Bytes)
    requires Inv(s) && b in s.backends && s.backends[b].up && Waits(s, b, s.backends[b].answered) && bytes != []
    requires s.backends[b].asked[s.backends[b].answered].Asking?
    ensures Enabled(s, Receive(b, bytes, Deliver))
    ensures var t := Step(s, Receive(b, bytes, Deliver));
            && t.clients == s.clients && t.idents == s.idents && b in t.backends
            && t.backends[b].answered == s.backends[b].answered + 1 && t.backends[b].asked == s.backends[b].asked
  {
    hide Inv;
  }

  // ---- Requests ----

  ghost predicate HasRoom(s: Proxy, c: nat)
  {
    c in s.clients && s.clients[c].open && |s.clients[c].cells| < 4095
  }

  /** A request is the next of its client, and waits at the end of the queue of a backend that is up. */
  lemma Requested(s: Proxy, c: nat, b: nat)
    requires Inv(s) && HasRoom(s, c) && b in s.backends && s.backends[b].up
    requires |s.backends[b].asked| - s.backends[b].answered < 65535
    ensures Enabled(s, Request(c, b))
    ensures var i, t := |s.clients[c].replies|, Step(s, Request(c, b));
            && c in t.clients && t.clients[c].replies == s.clients[c].replies + [None]
            && b in t.backends && Waits(t, b, |s.backends[b].asked|) && t.backends[b].up
            && t.backends[b].owners == s.backends[b].owners + [Req(c, i)]
            && |t.backends[b].asked| == |s.backends[b].asked| + 1 && t.backends[b].asked[|s.backends[b].asked|].Id?
  {
    OkAt(s, c, b);
    hide Inv, Sound, SentOk, Taken;
  }

  /** At a backend that is down it is answered at once, as is a request the proxy answers itself. */
  lemma AnsweredHere(s: Proxy, c: nat, b: nat, bytes: Bytes)
    requires Inv(s) && HasRoom(s, c) && bytes != []
    ensures Enabled(s, RequestLocal(c, bytes))
    ensures Has(Step(s, RequestLocal(c, bytes)), c, |s.clients[c].replies|, bytes, Local)
    ensures b in s.backends && !s.backends[b].up ==>
              && Enabled(s, Request(c, b))
              && Has(Step(s, Request(c, b)), c, |s.clients[c].replies|, DISCONNECT, Local)
  {
    OkAt(s, c, b);
    hide Inv, Sound, SentOk;
  }

  // ---- Connections ----

  /** A new client has asked nothing; one that closes is gone for good as far as writing goes. */
  lemma Clients(s: Proxy, c: nat)
    requires Inv(s)
    ensures c !in s.clients ==>
              && Enabled(s, Accept(c)) && c in Step(s, Accept(c)).clients
              && Step(s, Accept(c)).clients[c].open && Step(s, Accept(c)).clients[c].replies == []
              && Step(s, Accept(c)).clients[c].sent == []
    ensures c in s.clients ==>
              && Enabled(s, CloseClient(c)) && c in Step(s, CloseClient(c)).clients
              && !Step(s, CloseClient(c)).clients[c].open
  {
    hide Inv;
  }

  /** A backend that connects again starts with nothing asked, and its last connection is history. */
  lemma Backends(s: Proxy, b: nat)
    requires Inv(s)
    ensures b !in s.backends ==> Enabled(s, OpenBackend(b))
    ensures b in s.backends && !s.backends[b].up && s.backends[b].answered == |s.backends[b].asked| ==>
              && Enabled(s, OpenBackend(b)) && b in Step(s, OpenBackend(b)).backends
              && Step(s, OpenBackend(b)).backends[b].history
                 == s.backends[b].history + [Link(s.backends[b].owners, s.backends[b].frames)]
    ensures Enabled(s, OpenBackend(b)) ==>
              && b in Step(s, OpenBackend(b)).backends && Step(s, OpenBackend(b)).backends[b].up
              && Step(s, OpenBackend(b)).backends[b].asked == []
    ensures b in s.backends ==>
              && Enabled(s, CloseBackend(b)) && b in Step(s, CloseBackend(b)).backends
              && !Step(s, CloseBackend(b)).backends[b].up
              && Step(s, CloseBackend(b)).backends[b].asked == s.backends[b].asked
  {
    hide Inv;
  }

  /** What a client is when its oldest request leaves. */
  lemma HeadLeftIs(s: Proxy, c: nat, out: Bytes)
    requires c in s.clients && ClientOk(s, c) && s.clients[c].cells != []
    ensures |s.clients[c].ids| > 0 && s.clients[c].ids[0] in s.idents
    ensures var t := HeadLeft(s, c, out);
            && c in t.clients
            && var k, l := s.clients[c], t.clients[c];
            && l.open == k.open && l.ids == k.ids[1..] && l.sent == k.sent + out && l.first == k.first + 1
            && l.replies == k.replies
            && t.pool == Released(s, k.ids[0], s.idents[k.ids[0]].(access := None)).pool
            && t.idents == Released(s, k.ids[0], s.idents[k.ids[0]].(access := None)).idents
  {
    hide Sound, SentOk;
  }

  /** Writing takes the bytes of the oldest reply, some or all of them. */
  lemma Written(s: Proxy, c: nat, d: nat)
    requires Inv(s) && c in s.clients && s.clients[c].open && s.clients[c].cells != []
    requires s.clients[c].cells[0].who.waitDone
    ensures Enabled(s, SendHead(c)) && c in Step(s, SendHead(c)).clients
    ensures var k := Step(s, SendHead(c)).clients[c];
            && k.open && k.sent == s.clients[c].sent + s.clients[c].cells[0].buffer
            && k.first == s.clients[c].first + 1 && k.replies == s.clients[c].replies
    ensures d < |s.clients[c].cells[0].buffer| ==>
              && Enabled(s, SendPart(c, d)) && c in Step(s, SendPart(c, d)).clients
              && var k := Step(s, SendPart(c, d)).clients[c];
              && k.open && k.sent == s.clients[c].sent + s.clients[c].cells[0].buffer[..d]
              && k.first == s.clients[c].first && k.replies == s.clients[c].replies
  {
    OkAt(s, c, 0);
    hide Inv, HeadLeft, ClientOk;
    HeadLeftIs(s, c, HeadBytes(s.clients[c]));
  }

  // ---- Identities ----

  /** The pool after an owner let go of `x`, which nobody holds then: its last, or as it was when it
    * is full. */
  ghost predicate Pooled(before: Proxy, after: Proxy, x: nat)
  {
    if |before.pool| < 65535 then after.pool == before.pool + [x] && x in after.idents
    else after.pool == before.pool && x !in after.idents
  }

  /** A new request takes the identity that is in the pool longest, or a new one. */
  lemma TakesIdentity(s: Proxy, c: nat, bytes: Bytes)
    requires Inv(s) && HasRoom(s, c) && bytes != []
    ensures Enabled(s, RequestLocal(c, bytes)) && c in Step(s, RequestLocal(c, bytes)).clients
    ensures var t, x := Step(s, RequestLocal(c, bytes)), if |s.pool| > 0 then s.pool[0] else s.nextId;
            && t.clients[c].ids == s.clients[c].ids + [x]
            && t.pool == (if |s.pool| > 0 then s.pool[1..] else [])
            && t.nextId == (if |s.pool| > 0 then s.nextId else s.nextId + 1)
  {
    hide Inv;
  }

  /** When a reply is out, or a client that is gone is drained, the oldest identity of the client
    * leaves its ring, and goes to the pool unless a backend still holds it. */
  lemma LeavesClient(s: Proxy, c: nat, e: Event)
    requires Inv(s) && c in s.clients && s.clients[c].cells != []
    requires if s.clients[c].open then e == SendHead(c) && s.clients[c].cells[0].who.waitDone else e == DrainClient(c)
    ensures |s.clients[c].ids| > 0 && s.clients[c].ids[0] in s.idents && Enabled(s, e)
    ensures var t, x := Step(s, e), s.clients[c].ids[0];
            && c in t.clients && t.clients[c].ids == s.clients[c].ids[1..]
            && (s.idents[x].redis.None? ==> Pooled(s, t, x))
            && (s.idents[x].redis.Some? ==> t.pool == s.pool && x in t.idents && t.idents[x].access.None?)
  {
    OkAt(s, c, 0);
    hide Inv, HeadLeft, ClientOk;
    HeadLeftIs(s, c, HeadBytes(s.clients[c]));
  }

  /** A frame for a client that is gone goes to nobody, and its identity to the pool. */
  lemma NobodyWaits(s: Proxy, b: nat, x: nat, bytes: Bytes)
    requires Inv(s) && HeadIs(s, b, x) && s.backends[b].up && s.idents[x].access.None? && bytes != []
    ensures Enabled(s, Receive(b, bytes, Deliver))
    ensures var t := Step(s, Receive(b, bytes, Deliver)); t.clients == s.clients && Pooled(s, t, x)
  {
    hide Inv;
  }

  // ---- A whole exchange ----

  /** One client, one backend, one request: what the backend answers is what the client gets. */
  lemma RequestAnswered(bytes: Bytes)
    requires bytes != []
    ensures var es := [Accept(0)] + ([OpenBackend(0)] +
                      ([Request(0, 0)] + ([Receive(0, bytes, Deliver)] + ([SendHead(0)] + []))));
            0 in Run(START, es).clients && Run(START, es).clients[0].sent == bytes
  {
    hide Inv, Step, Enabled, Has, Asks;
    var rest := [SendHead(0)] + [];
    ToReady([Request(0, 0)] + ([Receive(0, bytes, Deliver)] + rest));
    ToWaiting();
    RunStep(READY, Request(0, 0), [Receive(0, bytes, Deliver)] + rest);
    var o := Req(0, 0);
    WaitingAsks();
    Delivered(WAITING, 0, bytes, o);
    var e := Receive(0, bytes, Deliver);
    RunStep(WAITING, e, rest);
    var s := Step(WAITING, e);
    OneReply(bytes);
    Written(s, 0, 0);
    RunStep(s, SendHead(0), []);
    var t := Step(s, SendHead(0));
    assert Run(t, []) == t;
  }

  lemma WaitingAsks()
    ensures Asks(WAITING, 0, Req(0, 0))
  {
  }

  lemma OneReply(bytes: Bytes)
    requires Inv(WAITING) && Enabled(WAITING, Receive(0, bytes, Deliver))
    ensures var s := Step(WAITING, Receive(0, bytes, Deliver));
            && 0 in s.clients && s.clients[0].open && |s.clients[0].cells| == 1 && s.clients[0].sent == []
            && s.clients[0].cells[0].who.waitDone && s.clients[0].cells[0].buffer == bytes
  {
    hide Inv;
  }
}
