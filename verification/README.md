# A model of the Redis proxy and its Redis server

The repository is a proxy in front of Redis servers, with a patched Redis 5.0.6 beside it. This project models the parts
whose correctness is not visible in any one function, and proves what they promise over every input and every run.

**Ordering.** Redis replies carry no request number. The proxy matches by order alone: every client has a ring of
outstanding requests, every backend a ring of what it was asked, and a request identity is owned by both sides. The model
has the rings, the gathered writes with their short and capped outcomes and the circular send queue as classes that
change in place (`RingBuffer`, `WaitRing`, `AccessEvent`, `SendQueue`, `RedisEvent`), and the whole proxy as a state
machine over all interleavings of requests, frames, redirects, short writes and closes (`Proxy`, `ProxySteps`).

**Framing.** The reader of the Redis serialization protocol is a resumable state machine with a layer for every open
array, over a buffer that is moved and enlarged between reads (`RespParser`, `Resp`, `RedisMsg`, `MsgBuffer`, `Reader`,
`Package`), and is compared with a grammar of what it takes (`RespForms`, `RespExact`, `RespStrict`). Positions are offsets instead of pointers.

**Persistence.** The append only file is modelled from the requests of clients to the bytes on disk and back: what is
logged (`AofLog`, `AofServe`, `AofCodec`, `AofBuffer`), how a file is read, whole or cut short (`AofLoad`), how it is rewritten
(`AofRewrite`, `AofWalk`), and the handover of changes to the rewriting child (`AofHandoff`). The background job queue is in `Bio`.

**Bits.** Bitfields, bit counts, bit searches and bit operations, word forms against bit definitions (`Bitfield`, `Bitcount`,
`Bitpos`, `Bitop`).

**Hashing and dispatch.** Streamed MD5, Jenkins' hash by alignment, the cluster slot of a key, the ketama continuum and
remainders (`Md5`, `Hashing`, `Ketama`, `KetamaMoves`), and the decimal conversions (`Utils`).

Where the outside world decides, the model leaves the choice open: how many bytes a write takes, in which order backends
answer, when a child reads its pipe, in which order a dictionary is walked. MD5's block function, Jenkins' scrambling and
the CRC table are parameters, so the results hold for any of them, but where a table is said to be that of a polynomial.

## What the code does that its comments do not say

- Whether a reply registers write interest depends on what is found in the slot before its own. For request 0 that is
  slot 15, because the index wraps in 64 bits, and for the head of a full ring it is the newest request. Either may be
  unanswered, and then a reply that is due registers nothing by itself. `AccessLayer.AccessEvent.DoReply` gives the exact
  condition, `AccessLayer.FirstReplyUnnoticed` and `AccessLayer.FullRingUnnoticed` a case each; that no wake-up is lost once
  every waiting request is answered is proved all the same.
- When the backend's send queue goes round the end of its array, the first leg withdraws the write interest and a second leg
  that cannot finish leaves it withdrawn. `RedisEvents.StallsExactly` says for which queues the kernel can bring this about,
  and `RedisEvents.StallReached` gives a run that ends so.
- A connect that succeeds at once leaves the connection in its former state, in which every request is answered with the
  disconnect error. `RedisEvents.RedisEvent.ConnectAndSend` says so.
- A redirect that cannot be followed answers the client but never tells the identity, which then stays out of the pool for
  good. `Proxies.RunStrands` says that exactly the runs with such a redirect lose one, `Proxies.RedirectStrands` gives a run.
- The reader takes more for a message than the protocol has: any text behind a colon, a length with needless zeros or no
  digits at all, a list length with "-1" behind it, and a line that begins with a "P". `RespForms` writes all of it down as a
  grammar of forms. `RespExact.EndsExactly` and `RespExact.FailsExactly` prove that feeding bytes one by one ends exactly where
  such a form ends and fails exactly where the bytes are no part of one, and `Readers.FineExactly` the same of whole streams.
  `RespStrict.StrictExactly` says which forms are values of the protocol; `RespStrict.NotANumber`, `RespStrict.NoLength` and
  `RespStrict.OneMinusOne` are cases of forms that are none and pass.
- A byte that stands where the line feed behind the length of a bulk string belongs is skipped, and the call returns without
  an error. But the loop that opened an inner list in the same call reads on in it once more, so each inner list has one
  skipped byte to its credit. The grammar counts skipped bytes and credits. `RespExact.AnswersExactly` says for all bytes of
  a new message what a call answers: nothing is reported if and only if the bytes begin with or are part of a form that
  skips no more than it has credit for, or skip more than that somewhere; the message ends if and only if the bytes begin with
  such a form. `RespExact.OwnLineUnreported` draws from it that a fault in a line of the message itself is never reported.
  `RedisMsg.LineFeedMissing` is a case of this, `RespExact.FaultReported` one of a skipped byte in an inner list behind which
  an error is reported, and `RespExact.FaultFramed` one in which the message ends in the same call.
- An empty key that is followed by more arguments is not recognised. `Package.ReadsBack` gives the exact condition.
- A relative expiry is computed from the clock when the command runs and again when it is logged, so a logged expiry
  can lie later than the live one. `AofLog.LogReplays` says by how much, `AofLog.ExpiryCanSlip` gives a case.
- A server that leaves the ketama continuum takes only its own keys along if every other server keeps its share of names, as
  it does when the weights are equal, or when the weight that leaves is the average, and sometimes for others too
  (`KetamaMoves.LighterLeaves`). When shares change, keys can move between servers that stay: `KetamaMoves.OthersMoveExactly`
  says exactly for which weights there is a digest that moves one, and `KetamaMoves.OtherKeysCanMove` gives a case.
- Storing a number far below zero in a signed bitfield with saturation gives the largest value instead of the smallest.
  `Bitfields.SignedSetExact` gives the exact condition, `Bitfields.SaturatesTheWrongWay` a case. Both assume that a signed
  subtraction wraps round in two's complement, which C leaves undefined.

## Model

| member | source | states |
|---|---|---|
| RingBuffers.RingBuffer.constructor | src/common/ringbuffer.cpp:209-215 | a new ring is empty, with every slot blank |
| RingBuffers.RingBuffer.AddData | src/common/ringbuffer.cpp:27-42 | appends to the queue the ring stands for exactly when there is room, across the end of the array |
| RingBuffers.RingBuffer.AddDataAt | src/common/ringbuffer.cpp:44-65 | appends exactly when there is room and the index names the slot where the queue ends; nothing changes otherwise |
| RingBuffers.RingBuffer.PopFront | src/common/ringbuffer.h:8-27 | takes the oldest element out and blanks its slot, or does nothing on an empty ring |
| RingBuffers.RingBuffer.GetFront | src/common/ringbuffer.h:29-36 | the oldest element or nothing: the unguarded read of the slot is right because slots outside the queue are blank |
| RingBuffers.RingBuffer.GetBack | src/common/ringbuffer.cpp:125-140 | the newest element or nothing, across the end of the array |
| Events.Socket.CallWritev | src/common/event.cpp:89-121 | the one assumption on the socket: a write of something takes an error or a positive count, never more than given, and these bytes are on the wire |
| Events.DoSendv | src/common/event.cpp:89-121 | whatever the cap of 512 buffers, interruptions and short writes, what goes on the wire is the first `ret` bytes of the buffers in order, and the result is what the socket answered last, an interruption being tried once more |
| Events.Capped | src/common/event.cpp:91-94 | the first 512 buffers, or all if there are fewer |
| WaitRings.WaitRing.Add | src/common/ringbuffer.cpp:44-65 | the ring and the buffers beside it keep one window of consecutive request numbers; a full ring refuses |
| WaitRings.WaitRing.Pop | src/common/ringbuffer.h:8-27 | the window moves on by one request |
| WaitRings.WaitRing.Get | src/common/ringbuffer.h:38-39 | any slot gives the request that waits in it, and nothing when it lies behind the window |
| WaitRings.WaitRing.Put | src/proxy/accesslayer.cpp:81-107 | stores the reply of one request and leaves all others |
| WaitRings.WaitRing.Buffers | src/proxy/accesslayer.cpp:109-118 | the buffers of a run of slots are the replies of consecutive requests |
| ReplyOrder.NewRequest | src/proxy/accesslayer.cpp:345-402 | a new request keeps the correspondence of window, replies and bytes sent |
| ReplyOrder.NewReply | src/proxy/accesslayer.cpp:81-107 | a reply to any waiting request keeps it, also out of order |
| ReplyOrder.HeadSent | src/proxy/accesslayer.cpp:120-148 | writing the rest of the head reply and dropping its request keeps it |
| ReplyOrder.HeadShortened | src/proxy/accesslayer.cpp:120-140 | writing part of the head reply keeps it |
| ReplyOrder.SentIsPrefix | src/proxy/accesslayer.cpp:81-215 | the bytes sent are a prefix of the replies in request order, at least those of all requests already dropped and at most those answered without a gap |
| ReplyOrder.ReplyKeepsSent | src/proxy/accesslayer.cpp:81-107 | a later reply, also to a connection that is gone, keeps the bytes sent a prefix of the replies that are due |
| ReplyOrder.AllOut | src/proxy/accesslayer.cpp:150-215 | with an unanswered head or none, every reply that is due has been sent |
| ReplyOrder.LeadsOn | src/proxy/accesslayer.cpp:150-215 | what two writes do one after the other is one sequence of replies written whole or in part |
| AccessLayer.PreSlot | src/common/ringbuffer.cpp:175-178 | the slot looked at for the request before, which is 15 for request 0 |
| AccessLayer.PreSlotIsPrePlace | src/common/ringbuffer.cpp:175-178 | that slot holds the request before, except that the head looks at slot 15 of a ring that never moved and otherwise at the last slot of a full ring |
| AccessLayer.FirstReplyUnnoticed | src/proxy/accesslayer.cpp:100-104 | a case: with sixteen requests on a new connection, whatever their buffers hold, the reply to the first is due and registers no write interest |
| AccessLayer.FullRingUnnoticed | src/proxy/accesslayer.cpp:100-104 | a case: with 4095 requests waiting, whatever their buffers hold, the reply to the oldest is due and registers no write interest |
| AccessLayer.AccessEvent.constructor | src/proxy/accesslayer.cpp:24-45 | a new connection satisfies the invariant with nothing sent |
| AccessLayer.AccessEvent.Enqueue | src/proxy/accesslayer.cpp:345-402 | a request takes the next number and waits unanswered and unmarked behind the others, or is refused exactly when 4095 wait |
| AccessLayer.AccessEvent.DoReply | src/proxy/accesslayer.cpp:81-107 | stores the reply under its number, registers write interest if and only if the request found before it is gone, answered or marked, and never loses the wake-up: all answered implies write interest |
| AccessLayer.AccessEvent.Settle | src/proxy/accesslayer.cpp:120-148 | after a write of `count` bytes exactly those bytes are gone from the waiting replies, in order |
| AccessLayer.AccessEvent.Sendv | src/proxy/accesslayer.cpp:109-148 | a gathered write sends a prefix of the run, drops exactly the finished requests, and closes on an error; what counts as sent is on the wire, and a short write or an error is reported only if the socket answered so |
| AccessLayer.AccessEvent.MarkPreGood | src/proxy/accesslayer.cpp:157-214 | the mark on the first unanswered request changes nothing else |
| AccessLayer.AccessEvent.Flush | src/proxy/accesslayer.cpp:196-215 | after the last run everything due is out, or interest is kept |
| AccessLayer.AccessEvent.Advance | src/proxy/accesslayer.cpp:167-200 | one turn of the loop: the run grows by one answered request, goes out where the array ends, and the request after it is found |
| AccessLayer.AccessEvent.Write | src/proxy/accesslayer.cpp:150-215 | across the wrap of the ring and whatever the outcome, the bytes sent are a prefix of the replies answered without a gap; on success they are all of them, and on a full socket write interest stays; what happened is a sequence of head replies written whole or in part; a short write or an error is reported only if the socket was asked and answered so |
| AccessLayer.AccessEvent.Close | src/proxy/accesslayer.cpp:633-660 | a closed connection holds no request |
| SendQueues.SendQueue.Push | src/proxy/redisevent.cpp:169-196 | appends to the pending payloads; renormalising the counters past 0xFFFFFFF moves nothing |
| SendQueues.SendQueue.Counters | src/proxy/redisevent.cpp:207-244 | the counters give the number of pending payloads, whole or in two legs |
| SendQueues.SendQueue.Pop | src/proxy/redisevent.cpp:246-287 | the oldest payload leaves, across the end of the array |
| SendQueues.SendQueue.Trim | src/proxy/redisevent.cpp:246-287 | a payload half written keeps its rest and its place |
| SendQueues.SendQueue.Buffers | src/proxy/redisevent.cpp:207-244 | the slots from the read counter on hold the pending payloads in order |
| SendQueues.SendQueue.ReInit | src/proxy/redisevent.cpp:74-82 | nothing is pending after a reconnect |
| RedisEvents.Pushed | src/proxy/redisevent.cpp:183-196 | a new payload keeps what is on the wire and what is queued equal to the payloads in order |
| RedisEvents.FrontSent | src/proxy/redisevent.cpp:268-284 | so does writing the oldest payload to its end |
| RedisEvents.FrontShortened | src/proxy/redisevent.cpp:271-281 | and writing part of it |
| RedisEvents.RedisEvent.Reconnect | src/proxy/redisevent.cpp:614-706 | a new connection starts with nothing asked, sent or pending and waits for reads and writes; its status changes only if it has to wait for the connect |
| RedisEvents.RedisEvent.SendMsg | src/proxy/redisevent.cpp:159-205 | queues token and payload together or neither, with exactly the conditions of refusal, and registers write interest |
| RedisEvents.RedisEvent.ConnectAndSend | src/proxy/redisevent.cpp:614-706 | a request right after connecting is answered with the disconnect error if and only if the connect succeeded at once |
| RedisEvents.RedisEvent.Frame | src/proxy/redisevent.cpp:294-326 | the n-th frame is given to the n-th request asked; a frame nobody asked for closes the connection |
| RedisEvents.RedisEvent.Close | src/proxy/redisevent.cpp:556-585 | every request still waiting fails, once each and in order |
| RedisEvents.RedisEvent.Settle | src/proxy/redisevent.cpp:246-287 | after a write of `count` bytes exactly those bytes have gone from the pending payloads to the wire, which stays a prefix of the payloads in order |
| RedisEvents.RedisEvent.Sendv | src/proxy/redisevent.cpp:246-287 | one leg of a write: what is sent, what remains, and whether interest stays; what counts as sent is on the wire, and the outcome is what the socket answered |
| RedisEvents.RedisEvent.SendLegs | src/proxy/redisevent.cpp:221-243 | for any answers of the kernel to the two legs, the queue, its read slot and the interest afterwards |
| RedisEvents.RedisEvent.Write | src/proxy/redisevent.cpp:207-244 | both legs: the wire is a prefix of the payloads in order, all of them on success; otherwise something remains, and then interest is lost exactly when the first leg was completed, which needs a queue that goes round the end of the array; a short write or an error is reported only if the socket was asked and answered so, or the connect failed |
| RedisEvents.StallsExactly | src/proxy/redisevent.cpp:207-287 | some answers of the kernel leave payloads queued without write interest if and only if the queue goes round the end of its array and the first leg has no more than 512 buffers |
| RedisEvents.StallReached | src/proxy/redisevent.cpp:207-287 | a case from a new connection on: after 65534 requests two are queued, the first goes out, the second blocks and waits without interest |
| Proxies.StepKeeps | src/proxy/redismsg.cpp:734-858 | every step of the proxy keeps the invariant that ties clients, backends, identities and pool together |
| Proxies.RepliesInRequestOrder | src/proxy/accesslayer.cpp:81-215 | in every run the bytes a client received, whether it is still connected or not, are a prefix of its replies in request order |
| Proxies.RepliesAnswerOwnRequest | src/proxy/redisevent.cpp:294-360 | in every run, with any number of clients and backends, a backend's reply to a request is, byte for byte, the frame with that request's own number on that connection |
| Proxies.NoRequestForgotten | src/proxy/redisevent.cpp:159-205 | in every run an unanswered request waits at a backend under its own number |
| Proxies.ReplyStays | src/proxy/redismsg.cpp:754-774 | no step replaces a reply once given |
| Proxies.RepliesStay | src/proxy/redismsg.cpp:754-774 | nor does any run |
| Proxies.ClosedBackendAnswersAll | src/proxy/redisevent.cpp:556-585 | when a backend closes, every client request that waited there gets the disconnect error, which no later event replaces |
| Proxies.IdentityLifecycle | src/proxy/redismsg.cpp:734-858 | in every run the pool holds no identity twice and none that is in a ring; one outside it is in a ring unless its redirect failed |
| Proxies.StrandsExactly | src/proxy/redisevent.cpp:372-446 | a step loses an identity if and only if it is a frame whose redirect fails or leads to a backend that is not there, and then it is that of the request the frame was for |
| Proxies.RunStrands | src/proxy/native/gr_clusterroute.cpp:548-608 | a run loses identities if and only if some redirect in it fails, and what is lost stays lost |
| Proxies.StrandedForGood | src/proxy/redismsg.cpp:734-752 | a lost identity is not in the pool after any later events |
| Proxies.RedirectStrands | src/proxy/redisevent.cpp:372-446 | a case: one client, one backend, one redirect that fails; the answer goes out and the identity is in no ring and never in the pool again |
| Proxies.PoolExactly | src/proxy/redismsg.cpp:734-752 | in every run an identity is in the pool if and only if no owner has it in a ring and no redirect of it failed |
| Proxies.OutOfPoolWhileOwned | src/proxy/redismsg.cpp:734-752 | as long as no redirect fails, an identity is back in the pool exactly when both owners have let go |
| Proxies.WriteIsARun | src/proxy/accesslayer.cpp:109-215 | whatever a write to a client did, the steps of the proxy that send one reply or part of one do the same |
| ProxySteps.Delivered | src/proxy/redisevent.cpp:316-354 | a frame that is no redirect is, byte for byte, the reply to the oldest request at its backend |
| ProxySteps.DeliveredForGood | src/proxy/redisevent.cpp:316-354 | and stays it, whatever happens later |
| ProxySteps.RequestAnswered | src/proxy/redisevent.cpp:294-360 | a whole run: what the backend answers to the one request of the one client is what that client receives |
| ProxySteps.RedirectRefused | src/proxy/redisevent.cpp:372-446 | a redirect that cannot be read or followed gives the request its own error text |
| ProxySteps.RedirectFollowed | src/proxy/native/gr_clusterroute.cpp:548-608 | a redirect that can be followed puts the request, unanswered, at the end of the target's queue, right behind an ASKING when it is to ask |
| ProxySteps.AskingPasses | src/proxy/native/gr_clusterroute.cpp:583-592 | the reply to an ASKING goes to nobody |
| ProxySteps.Requested | src/proxy/redisevent.cpp:159-205 | a request is the next of its client and waits at the end of its backend's queue |
| ProxySteps.AnsweredHere | src/proxy/redisevent.cpp:159-205 | at a backend that is down it gets the disconnect error at once |
| ProxySteps.Clients | src/proxy/accesslayer.cpp:81-148 | a new client has nothing sent and nothing due, and one that closes is written to no more |
| ProxySteps.Backends | src/proxy/redisevent.cpp:556-585 | a backend that connects again starts with nothing asked; one that closes keeps what waits there |
| ProxySteps.Written | src/proxy/accesslayer.cpp:109-215 | writing takes the bytes of the oldest reply, some or all of them |
| ProxySteps.TakesIdentity | src/proxy/redismsg.cpp:807-827 | a request takes the identity that is in the pool longest, or a new one |
| ProxySteps.LeavesClient | src/proxy/redismsg.cpp:734-752 | an identity leaves the ring of its client, and goes to the pool of 65535, or is freed, unless a backend holds it |
| ProxySteps.NobodyWaits | src/proxy/redismsg.cpp:734-772 | a frame for a client that is gone goes to nobody, and its identity to the pool |
| ProxySteps.ErrorTexts | src/common/define.h:101-102 | the two error replies, spelled out |
| RespParser.StepAdvances | src/proxy/redismsg.cpp:225-690 | every byte moves the reader on by one place and keeps its layers well formed |
| RespParser.StepExtends | src/proxy/redismsg.cpp:225-690 | a byte means the same whatever follows it |
| RespParser.FeedInTwo | src/proxy/redismsg.cpp:225-690 | reading a first part and then going on is reading the whole |
| RespFraming.TopValue | src/proxy/redismsg.cpp:225-690 | any value, with arrays nested to any depth, is read to its end in exactly its own bytes |
| RespFraming.FeedValue | src/proxy/redismsg.cpp:225-405 | the reader ends at a value's last byte with its length, whatever follows |
| RespFraming.FeedPart | src/proxy/redismsg.cpp:225-405 | and never before it |
| RespFraming.CutAtValues | src/proxy/redismsg.cpp:721-727 | the frames of a stream of values are the values, one by one |
| RedisMsg.ParseRsp | src/proxy/redismsg.cpp:225-405 | from any state and on any bytes the loop over lines and layers answers and leaves what `Run` says: bytes fed one by one, a reported fault, or a return behind a missing line feed for which no list opened in this call is read on in; on bytes that can all be fed it is feeding them |
| RedisMsg.FeedRuns | src/proxy/redismsg.cpp:225-690 | where the bytes can be fed one by one, a call reads them all, whatever lists are read on in |
| RedisMsg.RunInner | src/proxy/redismsg.cpp:407-506 | what the inner layer makes of the bytes decides what the outer one does: a fault is passed on, an end ends a line, an early return is passed on or, with credit, read on from |
| RedisMsg.ReadLine | src/proxy/redismsg.cpp:407-690 | so does the loop inside a line, with its recursion into inner arrays and its one retry of an array opened in this call |
| RedisMsg.ReadInner | src/proxy/redismsg.cpp:415-436 | reading on in the inner layer is reading on in the outer one; without credit an early return is the answer |
| RedisMsg.Opens | src/proxy/redismsg.cpp:473-503 | an array that is opened is read from its first byte, with credit |
| RedisMsg.LineFeedMissing | src/proxy/redismsg.cpp:589-596 | a case: after a bulk length, a carriage return and any other byte than a line feed the call returns without an error, having counted the byte |
| RedisMsg.DataStart | src/proxy/redismsg.cpp:407-690 | skipping over the data of a bulk string at once is reading it byte by byte |
| RespForms.NextDebt | src/proxy/redismsg.cpp:407-596 | a byte adds one to what a part skips beyond its credit if and only if it stands for a line feed behind a length and no open inner list has credit left, at any depth |
| RespForms.ReadsBack | src/proxy/redismsg.cpp:225-690 | the bytes of every part of a form, taken one by one, lead back to it, or stop where more is skipped than is let pass |
| RespForms.ReadsExactly | src/proxy/redismsg.cpp:225-690 | taking bytes one by one leads to a form or a part of one if and only if they begin with a form that is let pass or are part of one, and stops for skipped bytes if and only if they begin with a part that skips too many |
| RespForms.Unambiguous | src/proxy/redismsg.cpp:225-690 | no two forms are spelled alike |
| RespForms.Completes | src/proxy/redismsg.cpp:225-690 | whatever has been taken so far can be completed to a form that skips no more |
| RespExact.StepAgrees | src/proxy/redismsg.cpp:225-690 | the reader takes a byte if and only if the part of a form it stands in can go on with that byte, and then stands in the longer part, at any depth of nesting; a byte for a missing line feed is left to `SkipAgrees` |
| RespExact.SkipAgrees | src/proxy/redismsg.cpp:589-596 | a byte for a missing line feed is counted by the innermost layer, which then stands in the part that skips it |
| RespExact.RunAgrees | src/proxy/redismsg.cpp:225-690 | a call does with the bytes what the grammar does that lets each inner list skip one byte: it reports where they do not fit, ends or goes on where they do, and returns early where too many are skipped |
| RespExact.EndsExactly | src/proxy/redismsg.cpp:225-690 | feeding bytes one by one ends after `n` bytes if and only if those are a form with nothing skipped |
| RespExact.FailsExactly | src/proxy/redismsg.cpp:225-690 | it fails if and only if the bytes neither begin with such a form nor are part of one |
| RespExact.CallEndsExactly | src/proxy/redismsg.cpp:225-690 | a call on a new message ends it after `n` bytes if and only if those are a form in which each inner list skips no more than it has credit for |
| RespExact.PausesExactly | src/proxy/redismsg.cpp:589-596 | it returns early and without an error if and only if the bytes begin with a part that skips more |
| RespExact.AnswersExactly | src/proxy/redismsg.cpp:225-690 | for all bytes of a new message, in terms of forms, whether the call reports an error, a leading null byte or nothing, whether and where the message ends, and the state in which it is left |
| RespExact.OwnLineUnreported | src/proxy/redismsg.cpp:589-596 | a byte for the line feed behind a length in a line of the message itself makes the call return without an error, whatever follows, although the bytes are part of no form |
| RespExact.FaultReported | src/proxy/redismsg.cpp:415-506 | a case: a list in a list, a byte skipped in the inner one, and then a byte too many of data, for which an error is reported |
| RespExact.FaultFramed | src/proxy/redismsg.cpp:415-506 | a case: the same with the data complete, where the call ends the message after 15 bytes that cannot be fed one by one |
| RespExact.ErrorFlag | src/proxy/redismsg.cpp:288-294 | a message that is read counts as an error reply if and only if it begins with a minus sign |
| RespStrict.ValueIsForm | src/proxy/redismsg.cpp:225-690 | every value is a form spelled as the value is encoded |
| RespStrict.StrictExactly | src/proxy/redismsg.cpp:225-690 | a form is the encoding of a value if and only if its numbers are written as the protocol writes them and it has no "P" |
| RespStrict.LoosePasses | src/proxy/redismsg.cpp:225-690 | any other form, with no more skipped than it has credit for, is read to its end in one call although no value is encoded so |
| RespStrict.NotANumber | src/proxy/redismsg.cpp:297-302 | a case: a colon and a letter pass for an integer |
| RespStrict.PingPasses | src/proxy/redismsg.cpp:314-322 | a case: a bare line that begins with a capital "P" is a message |
| RespStrict.NoLength | src/proxy/redismsg.cpp:336-352 | a case: a list without a length passes for an empty one |
| RespStrict.OneMinusOne | src/proxy/redismsg.cpp:336-383 | a case: "1-1" passes for the length of a list of one |
| MsgBuffers.MsgBuffer.Write | src/common/msgbuffer.cpp:94-98 | appends to the unread bytes |
| MsgBuffers.MsgBuffer.Read | src/common/msgbuffer.cpp:100-104 | takes from their front |
| MsgBuffers.MsgBuffer.ResetBuffer | src/common/msgbuffer.cpp:106-111 | moving them to the front of the block, overlapping or not, changes none |
| MsgBuffers.MsgBuffer.ResetMemPool | src/common/msgbuffer.cpp:62-92 | nor does moving them to a new block |
| MsgBuffers.MsgBuffer.Expand | src/common/msgbuffer.cpp:48-60 | nor does enlarging, which gives at least four times the room and what was asked |
| MsgBuffers.MsgBuffer.LeftCapacity | src/common/msgbuffer.cpp:113-116 | what is free and what is unread make up the block |
| Readers.CutAndRest | src/proxy/redismsg.cpp:721-727 | frames and rest make up the stream |
| Readers.CutGrows | src/proxy/redismsg.cpp:721-727 | more bytes only add frames |
| Readers.ValuesAreFine | src/proxy/redismsg.cpp:225-690 | every stream of values, cut off anywhere, is read without an error into its whole values |
| Readers.FineExactly | src/proxy/redismsg.cpp:721-727 | feeding a stream byte by byte fails nowhere if and only if it is forms with nothing skipped and part of one more, and then its frames are those forms |
| Readers.Rebased | src/proxy/redismsg.cpp:171-191 | moving the buffer shifts a message in reading as a whole |
| Readers.Reader.ProcessMsg | src/proxy/redisevent.cpp:294-360 | all whole messages in the buffer come out, and what is left is the rest of the stream; an error is reported if and only if reading the message at the front of the buffer is a reported fault |
| Readers.Reader.StartNext | src/proxy/redisevent.cpp:537-546 | the bytes behind a message are unchanged in their new block, and reading starts afresh with room to spare |
| Readers.Reader.OnRead | src/proxy/accesslayer.cpp:238-343 | whatever the reads, their sizes and the moves of the buffer in between, the frames given out are those of the whole stream; with no frame given out, an error is reported if and only if the bytes so far and the new ones are a reported fault |
| Readers.Reader.MakeRoom | src/proxy/accesslayer.cpp:238-343 | moving or enlarging the buffer keeps the message in reading and leaves room |
| Package.CountDigits | src/proxy/redismsg.cpp:10-25 | four digits at a time, the length of the decimal number |
| Package.PackageMsg | src/proxy/redismsg.cpp:1152-1186 | writes exactly the precomputed number of bytes, which are the command's encoding, and a terminator |
| Package.EvalNames | src/proxy/redismsg.cpp:706-718 | the letter by letter comparison knows "eval" and "evalsha" in any mix of case, and no other name |
| Package.ReadsBack | src/proxy/redismsg.cpp:225-405 | a packaged command reads back to its last byte, with its first argument as command; the key, the fourth argument of EVAL and EVALSHA and the second of all others, is its second argument (fourth for scripts) if and only if that is not empty or comes last |
| AofLog.ReplayAppend | src/redis/src/aof.c:843-928 | a log is replayed piece by piece |
| AofLog.ServedAsLogged | src/redis/src/aof.c:614-691 | what is logged for a request does to a loader's database what the request did, expiries late by the slip of the clock |
| AofLog.UnloggedIsUnchanged | src/redis/src/t_string.c:67-93 | a request that is not logged has changed nothing |
| AofLog.EventKeepsUp | src/redis/src/aof.c:644-735 | SELECT only when the database changes, translated entries and time stamps keep a loader in step |
| AofLog.LogReplays | src/redis/src/aof.c:644-735 | for any requests in any databases, replaying the log gives the same keys, values and databases, each expiry late by exactly its slip |
| AofLog.SlipsBounded | src/redis/src/aof.c:614-642 | the slip is nothing when request and entry read the same clock, and never negative when the entry is later |
| AofLog.RestartRebuilds | src/redis/src/aof.c:582-735 | with one clock reading the log rebuilds values, absolute expiries and databases from nothing |
| AofLog.ExpiryComesBack | src/redis/src/expire.c:405-451 | an expiry comes back as it was if and only if its slip is nothing, and never early |
| AofLog.ExpiryCanSlip | src/redis/src/t_string.c:86-88 | one millisecond between serving and logging, and a key comes back a millisecond late |
| AofServe.SetReplaces | src/redis/src/t_string.c:67-93 | SET replaces whatever a key holds, also its expiry |
| AofServe.SetIfMissing | src/redis/src/t_string.c:79-84 | with NX it stores under a missing key, is logged only then, and leaves a present one as it is |
| AofServe.SetIfPresent | src/redis/src/t_string.c:79-84 | with XX it replaces a present key, is logged only then, and makes no missing one |
| AofServe.SetTimed | src/redis/src/t_string.c:70-88 | with a time to live it stores under the same conditions a key that expires so many seconds or milliseconds later, and nothing if that is not positive |
| AofServe.SetExServed | src/redis/src/t_string.c:147-155 | SETEX and PSETEX are SET with that time to live |
| AofServe.FirstLockWins | src/redis/src/t_string.c:79-84 | of any number of SET NX in a row only the first stores and only it is logged |
| AofServe.ExpireServed | src/redis/src/expire.c:405-451 | a deadline that has passed deletes the key, any other becomes its expiry, and a missing key stays missing |
| AofServe.ExpireLogged | src/redis/src/expire.c:424-450 | a deletion is logged if and only if the deadline had passed |
| AofServe.DelServed | src/redis/src/db.c:468-484 | exactly the named keys are gone, and it is logged if and only if one was there |
| AofServe.GrowServed | src/redis/src/t_list.c:197-228 | RPUSH appends in order, SADD joins, ZADD and HMSET give each member or field the last value named for it; the expiry stays, and a key of another type is left alone |
| AofServe.AfterServes | src/redis/src/t_string.c:67-93 | a request works on its own database alone |
| Resp.DecReads | src/redis/src/aof.c:863-881 | a number written in decimal reads back |
| Resp.Spelled | src/proxy/redismsg.h:13-26 | the encoding of every kind of value, spelled out in ASCII |
| Resp.DigitsSpelled | src/redis/src/aof.c:582-604 | a number of all ten digits, spelled out |
| AofLoad.ReadsCommand | src/redis/src/aof.c:857-893 | a logged command reads back, whatever follows it |
| AofLoad.ReadsCutCommand | src/redis/src/aof.c:857-893 | a command the file ends inside of, at any byte, is a short read and never a format error |
| AofLoad.LoadsWhole | src/redis/src/aof.c:843-928 | a log reads back as its commands |
| AofLoad.LoadsCut | src/redis/src/aof.c:927-981 | a log cut off at any byte reads back as the commands that were whole, and the place to truncate at is right behind them |
| AofLoad.ReadArgv | src/redis/src/aof.c:872-893 | the argument loop reads what the definition reads |
| AofLoad.LoadAppendOnlyFile | src/redis/src/aof.c:843-991 | so does the command loop, which remembers where the last whole command ended |
| AofCodec.ParsesBack | src/redis/src/aof.c:582-691 | the arguments written for an entry stand for that entry again |
| AofCodec.ArgsSpelled | src/redis/src/aof.c:582-720 | the name and the order of the arguments of every entry, spelled out |
| AofCodec.DecodesBack | src/redis/src/aof.c:582-735 | the bytes of a log decode to the log |
| AofCodec.DecodesCut | src/redis/src/aof.c:958-981 | a first part of the bytes decodes to a first part of the log |
| AofCodec.CatGenericCommand | src/redis/src/aof.c:582-604 | appends the encoding of the command |
| AofBuffers.RewriteBuffer.Append | src/redis/src/aof.c:125-169 | filling and allocating blocks of 10 MB appends the bytes, and a handler is installed to send them |
| AofBuffers.RewriteBuffer.WriteDiffData | src/redis/src/aof.c:95-122 | what is sent and what remains are the old contents in order, for any partial writes; nothing is sent after the stop; the handler goes only when there is nothing to send; it stops only when all is sent, the child asked to, or the pipe takes no more |
| AofBuffers.RewriteBuffer.WriteTo | src/redis/src/aof.c:174-194 | all contents are written, or the write is given up as short, which happens only on an answer of the file |
| AofBuffers.RewriteBuffer.Stop | src/redis/src/aof.c:1567-1588 | stopping keeps what is unsent |
| AofBuffers.RewriteBuffer.Reset | src/redis/src/aof.c:70-76 | nothing is left over for the next rewrite; the stop and the handler are as they were |
| AofBuffers.RewriteBuffer.OpenPipes | src/redis/src/aof.c:1595-1621 | a new rewrite starts without a stop and without a handler |
| AofBuffers.RewriteBuffer.ClosePipes | src/redis/src/aof.c:1623-1632 | the handler is gone, and only then may unsent bytes be left without one |
| AofBuffers.Aof.Stamp | src/redis/src/aof.c:693-717 | a stamp exactly when enough entries and more than a second have passed, and the count of entries starts again only with a stamp |
| AofBuffers.Aof.CatEvent | src/redis/src/aof.c:644-720 | the bytes for one request are those of its entries: a change of database when needed, the translated command, a stamp when due, with a stamp if and only if one is due |
| AofBuffers.Aof.Feed | src/redis/src/aof.c:721-735 | both buffers gain exactly the bytes of the entries for the request, the file's when logging is on and the child's while one runs |
| AofBuffers.Aof.CatTranslated | src/redis/src/aof.c:657-691 | each kind of command is translated as the log's meaning demands |
| AofBuffers.Aof.CatExpireAt | src/redis/src/aof.c:614-642 | seconds and relative times become milliseconds since the epoch |
| AofRewrite.AddsCarryAll | src/redis/src/aof.c:1013-1213 | a collection of any size goes into commands of 1 to 64 items that together hold the items in order |
| AofRewrite.RestIs | src/redis/src/aof.c:1013-1213 | what the item loop writes is the encoding of those commands, so each announces as many arguments as follow |
| AofRewrite.RewriteItems | src/redis/src/aof.c:1013-1213 | the loop with its running counts writes exactly that |
| AofRewrite.AddsReplay | src/redis/src/aof.c:1013-1213 | replaying the commands rebuilds the list, set, sorted set or hash |
| AofRewrite.RowReplay | src/redis/src/aof.c:1399-1435 | replaying what is written for a key rebuilds its value and its expiry |
| AofRewrite.RewriteReplays | src/redis/src/aof.c:1380-1453 | whatever order the databases are walked in, replaying the rewritten log from nothing gives the keyspace |
| AofRewrite.RewriteRow | src/redis/src/aof.c:1399-1435 | writes one key |
| AofRewrite.RewriteDb | src/redis/src/aof.c:1386-1444 | writes one database behind its SELECT, or nothing for an empty one |
| AofRewrite.RewriteAppendOnlyFile | src/redis/src/aof.c:1380-1453 | writes the rewritten log of all databases |
| AofHandoff.StepInv | src/redis/src/aof.c:1462-1588 | whatever the timing of appends, partial pipe writes, reads, the stop and its acknowledgement, every byte logged since the fork is in exactly one place and in order |
| AofHandoff.FileComplete | src/redis/src/aof.c:1773-1779 | a completed file is the rewritten base and every byte logged since the fork, once and in order |
| AofHandoff.SentIsRead | src/redis/src/aof.c:95-122 | what the parent sends while it may, the child reads behind what was in the pipe |
| AofHandoff.CanFinish | src/redis/src/aof.c:1462-1588 | from any moment at which the child writes, the two messages and reading the pipe empty finish its file, which then lacks only what the parent holds |
| AofSystem.StepInv | src/redis/src/aof.c:1650-1708 | requests, forks, child steps, completions, failures and crashes keep both the file and the one being written reloadable |
| AofSystem.FileReloads | src/redis/src/aof.c:1751-1900 | at every moment of every run, with any rewrites begun, completed or failed and any crashes and restarts, the file loads whole and replays to the server's keyspace |
| AofSystem.ServesAndLogs | src/redis/src/aof.c:644-735 | a request is served and its entries go to the end of the file, and to the child's if there is one |
| AofSystem.ForkBegins | src/redis/src/aof.c:1650-1708 | a rewrite begins from the keyspace as it is and leaves file and keys alone |
| AofSystem.CompleteSwaps | src/redis/src/aof.c:1773-1838 | a finished rewrite takes the place of the file: the rewritten base and all logged since the fork |
| AofSystem.GiveUpKeeps | src/redis/src/aof.c:1840-1900 | one that is given up leaves file and keys as they are |
| AofSystem.RewriteReplacesFile | src/redis/src/aof.c:1650-1838 | from a fork to its completion, whatever is served meanwhile, the file becomes the rewritten keyspace followed by the log of just those requests |
| AofSystem.RewriteCanComplete | src/redis/src/aof.c:1462-1838 | whenever a child writes, steps of its own lead to the completion of its rewrite |
| AofWalks.RewriteCanBegin | src/redis/src/aof.c:1380-1453 | in every reachable state without a rewrite the keyspace can be walked, so one can be begun |
| AofSystem.CrashRestarts | src/redis/src/aof.c:843-991 | a crash that leaves any first part of the file is a restart from that part |
| AofSystem.CrashLosesTheTail | src/redis/src/aof.c:958-981 | a crash that leaves any first part of the file loses whole entries from the end and nothing else |
| AofSystem.RestartsFrom | src/redis/src/aof.c:843-991 | after a crash that leaves any first part of the file the server starts again from exactly the entries that are whole in it, and its file is cut to those |
| AofSystem.CleanRestart | src/redis/src/aof.c:843-928 | restarted from its whole file a server has its keys and values back, each expiry late by its slip |
| Lists.List.AddTail | src/redis/src/adlist.c:114-132 | the values gain one at the end; links both ways follow |
| Lists.List.Unlink | src/redis/src/adlist.c:167-176 | the neighbours or the ends are linked around the node |
| Lists.List.DelNode | src/redis/src/adlist.c:167-180 | exactly the given node's value leaves |
| BioQueues.JobQueue.Create | src/redis/src/bio.c:131-143 | a job is queued and counted, and the head node in work stays the head |
| BioQueues.JobQueue.First | src/redis/src/bio.c:171-184 | the oldest job, which stays in the list |
| BioQueues.JobQueue.Remove | src/redis/src/bio.c:209-211 | the finished job leaves and the count drops |
| Bio.StepInv | src/redis/src/bio.c:131-216 | queueing, looking, working and taking out, in any interleaving, keep the invariant |
| Bio.OnceAndInOrder | src/redis/src/bio.c:131-225 | jobs are done once each in the order queued; a count of zero means all are done; the worker never sleeps on a job |
| Bio.TakesUp | src/redis/src/bio.c:145-216 | the worker takes up the oldest job, sleeps only without one, and is woken by the next |
| Bio.WorksOff | src/redis/src/bio.c:145-216 | left alone it does every queued job and takes it out, in three steps for each |
| Bits.PutBitIn | src/redis/src/bitops.c:212-221 | setting one bit through its byte changes that bit of the map and no other |
| Bits.BitOrder | src/redis/src/bitops.c:209-222 | bit 0 is the highest of a byte and bit 7 the lowest |
| Bits.FieldOfNumber | src/redis/src/bitops.c:209-222 | bits that are those of a number read as the number modulo the width |
| Bitfields.SetUnsigned | src/redis/src/bitops.c:209-222 | the field holds the value modulo 2^width and every other bit stays |
| Bitfields.GetUnsigned | src/redis/src/bitops.c:229-241 | reads the number in the bits, most significant first |
| Bitfields.SetSigned | src/redis/src/bitops.c:224-227 | the same for a signed value through its 64-bit pattern |
| Bitfields.GetSigned | src/redis/src/bitops.c:243-263 | the two's complement number in the bits |
| Bitfields.WrapsToItself | src/redis/src/bitops.c:209-263 | a value that fits, signed or not, comes back from its bits |
| Bitfields.UnsignedExact | src/redis/src/bitops.c:288-323 | in 64-bit arithmetic the check and its limit are exact for values in range, and for values set as they are |
| Bitfields.SignedExact | src/redis/src/bitops.c:325-375 | the same for signed values in range |
| Bitfields.SignedSetExact | src/redis/src/bitops.c:325-375 | for a signed value set as it is the check is right if and only if wrapping is asked for or its distance from the largest value is a 64-bit number |
| Bitfields.SaturatesTheWrongWay | src/redis/src/bitops.c:325-353 | the smallest 64-bit number saturates to 127 in eight bits |
| Bitfields.CheckDecides | src/redis/src/bitops.c:1027-1080 | the checks give what the overflow policy says, except in that case |
| Bitfields.Execute | src/redis/src/bitops.c:1017-1088 | SET and INCRBY store what the policy says of the target, reply the old or the new value, store nothing and reply nothing on failure, and change no other bit |
| Bitfields.Get | src/redis/src/bitops.c:1089-1121 | GET through nine copied bytes reads the string as if zeros followed it |
| Bitcount.SpreadWord | src/redis/src/bitops.c:66-86 | the masks and shifts leave in each byte of a word the number of its own set bits |
| Bitcount.TopIsTotal | src/redis/src/bitops.c:80-86 | multiplying by 0x01010101 adds the four bytes up in the top one, without a carry for up to seven words |
| Bitcount.SevenCounts | src/redis/src/bitops.c:54-87 | 28 bytes are counted right at once |
| Bitcount.Popcount | src/redis/src/bitops.c:40-92 | for every string and alignment the result is the number of set bits |
| Bitpos.TestIs | src/redis/src/bitops.c:151-180 | bit i of the loaded word is bit i of the eight bytes |
| Bitpos.Load | src/redis/src/bitops.c:151-159 | the load loop gives the next eight bytes, zeros where the string is over |
| Bitpos.Scan | src/redis/src/bitops.c:172-185 | the scan finds the first matching bit and its final panic cannot be reached |
| Bitpos.FirstBit | src/redis/src/bitops.c:101-186 | for every string and alignment: the first set bit or -1 if there is none, the first clear bit or the length if there is none |
| Bitop.Lookup | src/redis/src/bitops.c:623-655 | the lengths kept in the loop over the keys are those of the shortest and the longest string, a missing key being an empty one |
| Bitop.FoldedBit | src/redis/src/bitops.c:733-746 | combining bytes is combining bits: all set, one set, an odd number set, or not set, strings that are over counting as zeros |
| Bitop.SplitApply | src/redis/src/bitops.c:678-724 | combining two words of eight bytes is combining their bytes |
| Bitop.FastPath | src/redis/src/bitops.c:667-729 | the loop over four words at a time leaves in the result what combining byte by byte gives |
| Bitop.OneByte | src/redis/src/bitops.c:733-746 | a byte of the result is that byte of all strings combined |
| Bitop.BitopCommand | src/redis/src/bitops.c:591-747 | for every operation and any number and lengths of strings, by words or by bytes, the result is as long as the longest and every bit of it is the combination of that bit of all strings |
| Md5.LengthGrows | src/common/hash.cpp:402-406 | the wrapped 29-bit count and its carry are the length |
| Md5.Md5Context.Update | src/common/hash.cpp:396-430 | whatever the pieces, the state is that of the whole message so far |
| Md5.Md5Context.Absorb | src/common/hash.cpp:424-429 | whole blocks are folded straight from the data and the rest is kept |
| Md5.Md5Context.TopUp | src/common/hash.cpp:408-422 | part of a block is filled up first |
| Md5.Md5Context.Pad | src/common/hash.cpp:437-450 | the bytes before the length are the padding of section 3.1 of RFC 1321, in one block or two |
| Md5.Md5Context.PutLength | src/common/hash.cpp:452-460 | the last eight bytes are the number of bits modulo 2^64, as in section 3.2 of RFC 1321 |
| Md5.Md5Context.Final | src/common/hash.cpp:432-482 | the digest is that of the padded message |
| Md5.StartsWith | src/common/hash.cpp:384-394 | the chaining words start as the bytes of section 3.3 of RFC 1321 |
| Md5.DigestOrder | src/common/hash.cpp:461-482 | the digest is the four words the last block leaves, first word and lowest byte first |
| Slots.Crc16 | src/common/hash.cpp:121-131 | the low half of the unmasked 32-bit register is the 16-bit checksum |
| Slots.CrcIsDivision | src/common/hash.cpp:121-131 | with the table of x^16 + x^12 + x^5 + 1, a byte at a time is the remainder bit by bit |
| Slots.KeyHashSlot | src/proxy/native/gr_clusterroute.cpp:719-739 | the slot is the checksum of the hashed part modulo 16384 |
| Slots.SlotIsRemainder | src/proxy/native/gr_clusterroute.cpp:719-739 | the low 14 bits are that remainder |
| Slots.SlotOfFoo | src/proxy/native/gr_clusterroute.cpp:719-739 | a case: the checksum and the slot of "foo" with that table |
| Slots.OnlyTheTag | src/proxy/native/gr_clusterroute.cpp:719-739 | of a key with a tag only the tag is hashed, so equal tags share a slot |
| Slots.NoTagWholeKey | src/proxy/native/gr_clusterroute.cpp:719-739 | without one, or with an empty one, the whole key is |
| Jenkins.LastAgrees | src/common/hash.cpp:707-819 | the twelve cases of the last block add the same words however they are read |
| Jenkins.BlockAgrees | src/common/hash.cpp:685-798 | so do whole blocks |
| Jenkins.HashKey | src/common/hash.cpp:672-826 | words, half words and bytes give one hash for a key, whatever lies behind it in memory |
| Jenkins.StartsWith | src/common/hash.cpp:678 | the three words start alike, at 0xdeadbeef with the length and 13 added |
| Ketama.HostsFit | src/proxy/twem/dispatch.cpp:78-107 | the servers' shares, rounded down, never exceed the whole |
| Ketama.PutServer | src/proxy/twem/dispatch.cpp:88-105 | writes four points for each name of a server |
| Ketama.HostSpelled | src/proxy/twem/dispatch.cpp:92-100 | a case of a name: the server's, a dash and a number |
| Ketama.EqualPoints | src/proxy/twem/dispatch.cpp:78-107 | servers of equal weight get 160 points each |
| Ketama.KetamaUpdate | src/proxy/twem/dispatch.cpp:43-113 | never writes past its allocation and gives every server's points, sorted |
| Ketama.Lookup | src/proxy/twem/dispatch.cpp:115-139 | the first point at or after the key, or the first of all |
| Ketama.AverageLeaves | src/proxy/twem/dispatch.cpp:84-86 | a server of average weight, any one if all weigh the same, leaves every other share as it was |
| Ketama.SamePoints | src/proxy/twem/dispatch.cpp:43-113 | when the shares of the others stay, the smaller continuum is the larger one without the points of the server that left |
| Ketama.OnlyItsKeysMove | src/proxy/twem/dispatch.cpp:43-139 | then, with distinct points, every key of another server stays with it |
| KetamaMoves.MovesArePulled | src/proxy/twem/dispatch.cpp:43-139 | a key moves between two servers that stay only if one of them gains names while the other had some, or loses names while the other keeps some |
| KetamaMoves.PulledMoves | src/proxy/twem/dispatch.cpp:15-139 | whenever that is so, there are a digest of 32 bits that keeps all points apart and a key that moves |
| KetamaMoves.OthersMoveExactly | src/proxy/twem/dispatch.cpp:15-139 | both directions: for servers with different names and no more points than 32 bits can tell apart, keys can move between those that stay if and only if the shares say so |
| KetamaMoves.FewEnough | src/proxy/twem/dispatch.cpp:84-86 | with up to thirteen million servers there are no more points than that |
| KetamaMoves.ChangedSharePulls | src/proxy/twem/dispatch.cpp:84-86 | with two servers that hold points before and after, that is if and only if some share changes |
| KetamaMoves.OtherKeysCanMove | src/proxy/twem/dispatch.cpp:15-139 | a case: two light servers and a heavy one that leaves; for some digest of 32 bits a key moves between the light ones |
| KetamaMoves.LighterLeaves | src/proxy/twem/dispatch.cpp:84-86 | weights 100, 100 and 95: the last one leaves, below the average, and no share changes |
| Ketama.ModulaUpdate | src/proxy/twem/dispatch.cpp:141-179 | as many places for each server as it weighs, within the allocation |
| Ketama.EachItsWeight | src/proxy/twem/dispatch.cpp:182-187 | of every round of remainders each server gets as many as it weighs |
| Utils.Digits10Counts | src/common/utils.cpp:294-313 | the comparisons count the decimal digits |
| Utils.LlToString | src/common/utils.cpp:325-377 | writes the decimal number and a terminator, or nothing into a buffer that is too small |
| Utils.CharToInt | src/common/utils.cpp:122-143 | reads back every decimal number |

## Left out

- Sockets, epoll, fork, signals, shared memory, logging, configuration, the RocksDB wrapper and the web front end: only reads, writes and interest are modelled, as choices of the outside world.
- Requests broadcast to all backends: one identity then has more than two owners, which the ownership rules do not describe.
- Buffer ownership on the routing error path: the lifecycle of identities is modelled, not that of buffers.
- The reader after a fault: the connection is closed, and no frames are claimed behind it.
- Lengths and counts of more than 32 bits in a message, which overflow in the code.
- What a client connection does behind a leading null byte of a stream, and the position of the command name after the buffer moved: the code does not rebase it.
- Timers, the server registry, pending clients, the ring message buffer, filters, the RDB reader and the replica handshake.
- Streams, modules and the RDB preamble in the append only file, MULTI and EXEC, scripts, FLUSHALL and replicas: the log covers strings, collections, expiries and deletions.
- The append only file switched off: a rewrite then records the snapshot alone, because nothing is fed to the child.
- Object encodings: objects are sequences, sets and maps, a score is the text it is written as, and UNLINK counts as DEL.
- Overflow of 64-bit times in expiry arithmetic, and blanks or a plus sign before a number in a loaded file.
- AofLoad.LoadAppendOnlyFile: a header line longer than the 127 bytes read at once and a negative argument length are not modelled as the code treats them, because no log contains either.
- Bitfields.GetSigned: a field of 64 bits with its sign bit set is excluded, because the code then shifts by 64, which C leaves undefined.
- Bitfields.Execute: fields of 64 bits are excluded for the same reason.
- Bitfields.SignedSetExact: rests on two's complement wrap-around of a signed subtraction, which C leaves undefined.
- Bitfields.SaturatesTheWrongWay: the same.
- Parsing of the BITFIELD and BITOP command lines, values that are no strings, and the 256-entry table behind the byte counts.
- Ketama.KetamaUpdate: weights are exact fractions instead of single precision numbers, and names fit the buffer they are built in.
- Utils.CharToInt: 32-bit overflow, and digits that are none.
- Hsieh's and the other hashes, which are single loops without a second form to compare.
