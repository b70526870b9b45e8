/** The read side of a connection: chunks of any size go into the buffer, whole messages
  * come out, and the buffer is moved whenever it is full. */
module Readers {
  import opened Seqs
  import opened Events
  import opened RespParser
  import opened Resp
  import opened RespFraming
  import opened RedisMsg
  import opened MsgBuffers
  import opened RespForms
  import RespExact

  // ---- What framing does not depend on ----

  /** A layer without its notes on command and key. */
  function Bare(m: Msg): (r: Msg)
    ensures m.Msg? <==> r.Msg?
  {
    match m
    case NoMsg => NoMsg
    case Msg(start, len, st, need, argLen, maxLen, err, _, next) =>
      Msg(start, len, st, need, argLen, maxLen, err, NO_KEY, Bare(next))
  }

  lemma {:induction false} BarePos(m: Msg, k: Msg)
    requires Bare(m) == Bare(k)
    ensures Pos(m) == Pos(k) && (WellFormed(m) <==> WellFormed(k))
    decreases m
  {
    if m.Msg? {
      BarePos(m.next, k.next);
    }
  }

  lemma BareOwnByte(buf: Bytes, m: Msg, k: Msg, b: byte)
    requires m.Msg? && k.Msg? && Bare(m) == Bare(k)
    ensures OwnByte(buf, m, b).Some? <==> OwnByte(buf, k, b).Some?
    ensures OwnByte(buf, m, b).Some? ==> Bare(OwnByte(buf, m, b).value) == Bare(OwnByte(buf, k, b).value)
  {
    hide Noted, NextLine, KeyStart, KeyEnd, FirstByte, HeaderByte, LineByte;
    BareFirstByte(m, k, b);
    BareHeaderByte(m, k, b);
    BareLineByte(m, k, b);
  }

  lemma BareFirstByte(m: Msg, k: Msg, b: byte)
    requires m.Msg? && k.Msg? && Bare(m) == Bare(k)
    ensures FirstByte(m, b).Some? <==> FirstByte(k, b).Some?
    ensures FirstByte(m, b).Some? ==> Bare(FirstByte(m, b).value) == Bare(FirstByte(k, b).value)
  {
  }

  lemma BareHeaderByte(m: Msg, k: Msg, b: byte)
    requires m.Msg? && k.Msg? && Bare(m) == Bare(k)
    ensures HeaderByte(m, b).Some? <==> HeaderByte(k, b).Some?
    ensures HeaderByte(m, b).Some? ==> Bare(HeaderByte(m, b).value) == Bare(HeaderByte(k, b).value)
  {
  }

  lemma BareLineByte(m: Msg, k: Msg, b: byte)
    requires m.Msg? && k.Msg? && Bare(m) == Bare(k)
    ensures LineByte(m, b).Some? <==> LineByte(k, b).Some?
    ensures LineByte(m, b).Some? ==> Bare(LineByte(m, b).value) == Bare(LineByte(k, b).value)
  {
    hide LineByte;
    if m.st.ReadingLine? {
      BareLineFirst(m, k, b);
    } else if m.st.UsdNum? || m.st.UsdNumCrlf? {
      BareLength(m, k, b);
    } else if m.st.UsdStr? {
      BareData(m, k, b);
    } else {
      BareText(m, k, b);
    }
  }

  lemma BareLineFirst(m: Msg, k: Msg, b: byte)
    requires m.Msg? && k.Msg? && Bare(m) == Bare(k) && m.st.ReadingLine?
    ensures LineByte(m, b).Some? <==> LineByte(k, b).Some?
    ensures LineByte(m, b).Some? ==> Bare(LineByte(m, b).value) == Bare(LineByte(k, b).value)
  {
    hide KeyStart;
  }

  lemma BareLength(m: Msg, k: Msg, b: byte)
    requires m.Msg? && k.Msg? && Bare(m) == Bare(k) && (m.st.UsdNum? || m.st.UsdNumCrlf?)
    ensures LineByte(m, b).Some? <==> LineByte(k, b).Some?
    ensures LineByte(m, b).Some? ==> Bare(LineByte(m, b).value) == Bare(LineByte(k, b).value)
  {
    hide LineFirst, Noted;
  }

  lemma BareData(m: Msg, k: Msg, b: byte)
    requires m.Msg? && k.Msg? && Bare(m) == Bare(k) && m.st.UsdStr?
    ensures LineByte(m, b).Some? <==> LineByte(k, b).Some?
    ensures LineByte(m, b).Some? ==> Bare(LineByte(m, b).value) == Bare(LineByte(k, b).value)
  {
    hide LineFirst, Noted;
  }

  lemma BareText(m: Msg, k: Msg, b: byte)
    requires m.Msg? && k.Msg? && Bare(m) == Bare(k)
    requires !m.st.ReadingLine? && !m.st.UsdNum? && !m.st.UsdNumCrlf? && !m.st.UsdStr?
    ensures LineByte(m, b).Some? <==> LineByte(k, b).Some?
    ensures LineByte(m, b).Some? ==> Bare(LineByte(m, b).value) == Bare(LineByte(k, b).value)
  {
    hide LineFirst, Noted;
  }

  lemma {:induction false} BareStep(buf: Bytes, m: Msg, k: Msg)
    requires Bare(m) == Bare(k) && WellFormed(m) && WellFormed(k) && Pos(m) < |buf| && Pos(k) < |buf|
    ensures Step(buf, m).Some? <==> Step(buf, k).Some?
    ensures Step(buf, m).Some? ==> Bare(Step(buf, m).value) == Bare(Step(buf, k).value)
    decreases m
  {
    BarePos(m, k);
    hide OwnByte;
    if m.st.InNextLayer? {
      BareStep(buf, m.next, k.next);
    } else {
      BareOwnByte(buf, m, k, buf[Pos(m)]);
    }
  }

  /** Where messages end does not depend on what was noted about command and key. */
  lemma {:induction false} BareFeed(buf: Bytes, m: Msg, k: Msg)
    requires Bare(m) == Bare(k) && WellFormed(m) && WellFormed(k) && Pos(m) <= |buf| && Pos(k) <= |buf|
    ensures Feed(buf, m).Some? <==> Feed(buf, k).Some?
    ensures Feed(buf, m).Some? ==> Bare(Feed(buf, m).value) == Bare(Feed(buf, k).value)
    decreases |buf| - Pos(m)
  {
    BarePos(m, k);
    hide Step;
    if !m.st.End? && Pos(m) < |buf| {
      BareStep(buf, m, k);
      if Step(buf, m).Some? {
        StepAdvances(buf, m);
        StepAdvances(buf, k);
        BareFeed(buf, Step(buf, m).value, Step(buf, k).value);
      }
    }
  }

  /** The buffer has moved: positions move with it, but the command pointer is left behind. */
  function Rebased(m: Msg, line: nat): (r: Msg)
    ensures Bare(r) == Bare(m)
  {
    match m
    case NoMsg => NoMsg
    case Msg(_, _, _, _, _, _, _, key, next) =>
      m.(key := if key.cmd.CommandAt? then key.(cmd := Dangling(line)) else key, next := Rebased(next, line))
  }

  // ---- The stream ----

  /** What is left of a stream after its whole messages. */
  function Rest(stream: Bytes): (r: Bytes)
    ensures |r| <= |stream|
    decreases |stream|
  {
    var r := Feed(stream, Fresh(0));
    if r.Some? && r.value.st.End? && 0 < r.value.len <= |stream| then Rest(stream[r.value.len..]) else stream
  }

  lemma RestOff(stream: Bytes, n: nat)
    requires Begins(stream, n)
    ensures Rest(stream) == Rest(stream[n..])
  {
    hide Feed;
  }

  /** The stream does not begin with a whole message. */
  lemma NothingOff(stream: Bytes)
    requires forall n: nat :: !Begins(stream, n)
    ensures Cut(stream) == [] && Rest(stream) == stream
  {
    hide Feed;
    var r := Feed(stream, Fresh(0));
    assert r.Some? ==> !Begins(stream, r.value.len);
  }

  /** The reader fails nowhere in the stream so far: see `FineExactly`. */
  predicate Fine(stream: Bytes)
  {
    Feed(Rest(stream), Fresh(0)).Some?
  }

  /** The frames and the rest make up the stream. */
  lemma {:induction false} CutAndRest(stream: Bytes)
    ensures stream == Flatten(Cut(stream)) + Rest(stream)
    decreases |stream|
  {
    hide Feed, Cut, Rest, Begins;
    if n: nat :| Begins(stream, n) {
      BeginsWithin(stream, n);
      var tail := stream[n..];
      CutOff(stream, n);
      RestOff(stream, n);
      CutAndRest(tail);
      assert Cut(stream)[0] == stream[..n] && Cut(stream)[1..] == Cut(tail);
      assert stream == stream[..n] + tail;
    } else {
      NothingOff(stream);
    }
  }

  lemma BeginsWithin(stream: Bytes, n: nat)
    requires Begins(stream, n)
    ensures 0 < n <= |stream|
  {
  }

  /** More bytes only add frames: what was cut stays cut, and the rest goes on. */
  lemma {:induction false} CutGrows(stream: Bytes, more: Bytes)
    ensures Cut(stream + more) == Cut(stream) + Cut(Rest(stream) + more)
    ensures Rest(stream + more) == Rest(Rest(stream) + more)
    decreases |stream|
  {
    hide Feed, Cut, Rest, Begins;
    if n: nat :| Begins(stream, n) {
      BeginsWithin(stream, n);
      BeginsStill(stream, more, n);
      var ext := stream + more;
      assert ext[..n] == stream[..n] && ext[n..] == stream[n..] + more;
      CutOff(stream, n);
      CutOff(ext, n);
      RestOff(stream, n);
      RestOff(ext, n);
      CutGrows(stream[n..], more);
    } else {
      NothingOff(stream);
    }
  }

  lemma BeginsStill(stream: Bytes, more: Bytes, n: nat)
    requires Begins(stream, n)
    ensures Begins(stream + more, n)
  {
    hide Feed;
    FeedInTwo(stream, stream + more, Fresh(0));
    AtEnd(stream + more, Feed(stream, Fresh(0)).value);
  }

  lemma AtEnd(buf: Bytes, m: Msg)
    requires WellFormed(m) && m.st.End? && Pos(m) <= |buf|
    ensures Feed(buf, m) == Some(m)
  {
  }

  /** A stream that the reader fails on stays so. */
  lemma FineBefore(stream: Bytes, more: Bytes)
    requires Fine(stream + more)
    ensures Fine(stream)
  {
    CutGrows(stream, more);
    var rest := Rest(stream);
    RestNotWhole(stream);
    FeedInTwo(rest, rest + more, Fresh(0));
  }

  lemma {:induction false} RestNotWhole(stream: Bytes)
    ensures var r := Feed(Rest(stream), Fresh(0));
            r.Some? ==> !r.value.st.End? || r.value.len == 0 || r.value.len > |Rest(stream)|
    ensures Cut(Rest(stream)) == [] && Rest(Rest(stream)) == Rest(stream)
    decreases |stream|
  {
    var r := Feed(stream, Fresh(0));
    if r.Some? && r.value.st.End? && 0 < r.value.len <= |stream| {
      RestNotWhole(stream[r.value.len..]);
    }
  }

  /** A stream of values, the last one perhaps not all there, is fine, and its frames are the
    * encodings of the whole values. */
  lemma {:induction false} ValuesAreFine(vs: seq<Value>, tail: Bytes, last: Value)
    requires LegalAll(vs) && Legal(last) && tail < Enc(last)
    ensures Fine(EncAll(vs) + tail) && Cut(EncAll(vs) + tail) == EncEach(vs) && Rest(EncAll(vs) + tail) == tail
    decreases |vs|
  {
    hide Feed, Enc, Legal, Cut, Rest;
    CutAtValues(vs, tail, last);
    if |vs| == 0 {
      assert EncAll(vs) + tail == tail;
      FeedPart(tail, last);
      NothingOff(tail);
    } else {
      var rest := EncAll(vs[1..]) + tail;
      assert EncAll(vs) + tail == Enc(vs[0]) + rest;
      CutValue(vs[0], rest);
      RestOff(Enc(vs[0]) + rest, |Enc(vs[0])|);
      assert (Enc(vs[0]) + rest)[|Enc(vs[0])|..] == rest;
      ValuesAreFine(vs[1..], tail, last);
    }
  }

  // ---- Streams of forms ----

  ghost predicate SoundEach(fs: seq<Form>)
  {
    forall i | 0 <= i < |fs| :: Sound(fs[i], Never)
  }

  function SpellEach(fs: seq<Form>): (ss: seq<Bytes>)
    ensures |ss| == |fs| && forall i | 0 <= i < |fs| :: ss[i] == Spell(fs[i])
  {
    seq(|fs|, i requires 0 <= i < |fs| => Spell(fs[i]))
  }

  /** Whole forms with nothing skipped, and part of one more. */
  ghost predicate Framed(fs: seq<Form>, tail: Bytes, stream: Bytes)
  {
    && SoundEach(fs) && stream == Flatten(SpellEach(fs)) + tail
    && exists last :: Sound(last, Never) && tail < Spell(last)
  }

  lemma BeginsAtForm(f: Form, rest: Bytes)
    requires Sound(f, Never)
    ensures Begins(Spell(f) + rest, |Spell(f)|) && (Spell(f) + rest)[|Spell(f)|..] == rest
  {
    hide Feed, Sound, Spell;
    RespExact.EndsAtForm(Spell(f) + rest, f);
  }

  lemma PartIsFine(tail: Bytes, last: Form)
    requires Sound(last, Never) && tail < Spell(last)
    ensures Feed(tail, Fresh(0)).Some? && !Feed(tail, Fresh(0)).value.st.End?
  {
    hide Feed, Sound, Spell;
    RespExact.FailsExactly(tail);
    if Feed(tail, Fresh(0)).value.st.End? {
      var f := RespExact.FormAtEnd(tail);
      NoneWithin(f, tail, last);
    }
  }

  /** No form is a proper part of another. */
  lemma NoneWithin(f: Form, tail: Bytes, last: Form)
    requires Sound(f, Never) && Sound(last, Never) && tail < Spell(last)
    ensures !(Spell(f) <= tail)
  {
    hide Sound, Spell, Feed;
    RespExact.EndsAtForm(Spell(last), last);
    if Spell(f) <= tail {
      RespExact.EndsAtForm(Spell(last), f);
    }
  }

  lemma {:induction false} FramedIsFine(fs: seq<Form>, tail: Bytes, stream: Bytes)
    requires Framed(fs, tail, stream)
    ensures Fine(stream) && Cut(stream) == SpellEach(fs) && Rest(stream) == tail
    decreases |fs|
  {
    hide Feed, Sound, Spell, Cut, Rest;
    if |fs| == 0 {
      assert stream == tail;
      var last :| Sound(last, Never) && tail < Spell(last);
      PartIsFine(tail, last);
      NothingOff(tail);
    } else {
      var rest := Flatten(SpellEach(fs[1..])) + tail;
      assert SpellEach(fs)[1..] == SpellEach(fs[1..]);
      assert stream == Spell(fs[0]) + rest;
      BeginsAtForm(fs[0], rest);
      CutOff(stream, |Spell(fs[0])|);
      RestOff(stream, |Spell(fs[0])|);
      assert stream[..|Spell(fs[0])|] == Spell(fs[0]);
      FramedIsFine(fs[1..], tail, rest);
      assert SpellEach(fs) == [Spell(fs[0])] + SpellEach(fs[1..]);
    }
  }

  lemma {:induction false} FineIsFramed(stream: Bytes) returns (fs: seq<Form>)
    requires Fine(stream)
    ensures Framed(fs, Rest(stream), stream)
    decreases |stream|
  {
    hide Feed, Sound, Spell, Cut, Rest, Begins;
    if n: nat :| Begins(stream, n) {
      BeginsWithin(stream, n);
      RestOff(stream, n);
      var f := FormBegins(stream, n);
      var rest := FineIsFramed(stream[n..]);
      fs := [f] + rest;
      assert SpellEach(fs)[0] == Spell(f) && SpellEach(fs)[1..] == SpellEach(rest);
      assert stream == stream[..n] + stream[n..];
    } else {
      NothingOff(stream);
      fs := [];
      var last := RestIsPart(stream);
    }
  }

  lemma FormBegins(stream: Bytes, n: nat) returns (f: Form)
    requires Begins(stream, n) && n <= |stream|
    ensures Sound(f, Never) && Spell(f) == stream[..n]
  {
    hide Feed, Sound, Spell;
    f := RespExact.FormAtEnd(stream);
  }

  lemma RestIsPart(stream: Bytes) returns (last: Form)
    requires Feed(stream, Fresh(0)).Some? && forall n: nat :: !Begins(stream, n)
    ensures Sound(last, Never) && stream < Spell(last)
  {
    hide Feed, Sound, Spell, Begins;
    RespExact.FailsExactly(stream);
    last :| Sound(last, Never) && (Spell(last) <= stream || stream <= Spell(last));
    if Spell(last) <= stream {
      assert stream == Spell(last) + stream[|Spell(last)|..];
      BeginsAtForm(last, stream[|Spell(last)|..]);
    }
  }

  /** Feeding fails nowhere if and only if the stream is such forms and part of one more; and then
    * its frames are just those. */
  lemma FineExactly(stream: Bytes)
    ensures Fine(stream) <==> exists fs, tail :: Framed(fs, tail, stream)
    ensures forall fs, tail | Framed(fs, tail, stream) :: Cut(stream) == SpellEach(fs) && Rest(stream) == tail
  {
    hide Framed, Fine, Cut, Rest;
    if Fine(stream) {
      var fs := FineIsFramed(stream);
    }
    forall fs, tail | Framed(fs, tail, stream)
      ensures Fine(stream) && Cut(stream) == SpellEach(fs) && Rest(stream) == tail
    {
      FramedIsFine(fs, tail, stream);
    }
  }

  /** Reading `buf` on from `m` frames it as reading it from its start. */
  ghost predicate Agrees(buf: Bytes, m: Msg)
  {
    && WellFormed(m) && Pos(m) <= |buf|
    && Feed(buf, Fresh(0)).Some? && Feed(buf, m).Some?
    && Bare(Feed(buf, m).value) == Bare(Feed(buf, Fresh(0)).value)
  }

  lemma FineFeeds(buf: Bytes)
    requires Feed(Rest(buf), Fresh(0)).Some?
    ensures Feed(buf, Fresh(0)).Some?
  {
  }

  /** A reader in step with what it has, and more bytes. */
  lemma AgreesOn(buf: Bytes, more: Bytes, m: Msg)
    requires Feed(buf, Fresh(0)).Some? && Bare(m) == Bare(Feed(buf, Fresh(0)).value) && WellFormed(m) && Pos(m) <= |buf|
    requires Feed(buf + more, Fresh(0)).Some?
    ensures Agrees(buf + more, m)
  {
    FeedInTwo(buf, buf + more, Fresh(0));
    BarePos(m, Feed(buf, Fresh(0)).value);
    BareFeed(buf + more, m, Feed(buf, Fresh(0)).value);
  }

  /** `frames` are handed on, `buf` is unread and `m` is where the reader stands in it. */
  ghost predicate OnTrack(stream: Bytes, frames: seq<Bytes>, buf: Bytes, m: Msg)
  {
    Fine(stream) ==> frames + Cut(buf) == Cut(stream) && Rest(buf) == Rest(stream) && Agrees(buf, m)
  }

  /** A whole message is cut off. */
  lemma TrackFrame(stream: Bytes, frames: seq<Bytes>, buf: Bytes, m: Msg, r: Msg)
    requires OnTrack(stream, frames, buf, m) && WellFormed(m) && Pos(m) <= |buf|
    requires Feed(buf, m).Some? ==> Feed(buf, m) == Some(r)
    requires r.Msg? && r.st.End? && 0 < r.len <= |buf|
    ensures OnTrack(stream, frames + [buf[..r.len]], buf[r.len..], Fresh(0))
  {
    if Fine(stream) {
      var tail := buf[r.len..];
      FineFeeds(buf);
      assert Feed(buf, Fresh(0)).value.len == r.len;
      assert frames + Cut(buf) == frames + [buf[..r.len]] + Cut(tail);
      FineFeeds(tail);
    }
  }

  /** More bytes arrive at a reader that is in step. */
  lemma Arrived(stream: Bytes, frames: seq<Bytes>, chunk: Bytes, buf: Bytes, m: Msg)
    requires WellFormed(m) && Pos(m) <= |buf|
    requires Fine(stream) ==>
               && frames == Cut(stream) && buf == Rest(stream)
               && Bare(m) == Bare(Feed(Rest(stream), Fresh(0)).value)
    ensures OnTrack(stream + chunk, frames, buf + chunk, m)
  {
    if Fine(stream + chunk) {
      FineBefore(stream, chunk);
      CutGrows(stream, chunk);
      FineFeeds(buf + chunk);
      AgreesOn(buf, chunk, m);
    }
  }

  /** When the reader fails, the stream is at fault. */
  lemma StreamBroken(stream: Bytes, frames: seq<Bytes>, buf: Bytes, m: Msg)
    requires OnTrack(stream, frames, buf, m) && WellFormed(m) && Pos(m) <= |buf| && Feed(buf, m).None?
    ensures !Fine(stream)
  {
  }

  /** No whole message is left. */
  lemma TrackStop(stream: Bytes, frames: seq<Bytes>, buf: Bytes, m: Msg, r: Msg)
    requires OnTrack(stream, frames, buf, m) && Fine(stream) && WellFormed(m) && Pos(m) <= |buf|
    requires Feed(buf, m).Some? ==> Feed(buf, m) == Some(r)
    requires r.Msg? && !r.st.End?
    ensures Feed(Rest(stream), Fresh(0)).Some? && frames == Cut(stream) && buf == Rest(stream)
    ensures Bare(r) == Bare(Feed(Rest(stream), Fresh(0)).value)
  {
    FineFeeds(buf);
    assert Cut(buf) == [] && Rest(buf) == buf;
  }

  const REDIS_MSG_INIT_BUFFER := 1024

  class Reader {
    const cache: MsgBuffer
    /** Whether exactly half free is enough to compact instead of growing: the client side
      * asks for more than half, the backend side for half. */
    const halfIsEnough: bool
    var msg: Msg

    /** Every byte read from the socket, and every message handed on. */
    ghost var stream: Bytes
    ghost var frames: seq<Bytes>

    ghost predicate MsgOk()
      requires cache.Valid()
      reads this, cache, cache.data
    {
      && WellFormed(msg) && !msg.st.End? && Pos(msg) <= |cache.Contents()| && msg.start == 0
    }

    /** The messages handed on are the frames of the stream, and the reader stands where the
      * bytes after them lead. */
    ghost predicate InStep()
      requires cache.Valid()
      reads this, cache, cache.data
    {
      && Feed(Rest(stream), Fresh(0)).Some?
      && frames == Cut(stream)
      && cache.Contents() == Rest(stream)
      && Bare(msg) == Bare(Feed(Rest(stream), Fresh(0)).value)
    }

    /** There is always room for one more byte, so a read of nothing means a closed peer. */
    ghost predicate Valid()
      reads this, cache, cache.data
    {
      && cache.Valid()
      && cache.end < cache.data.Length
      && MsgOk()
      && (Fine(stream) ==> InStep())
    }

    constructor (halfIsEnough: bool)
      ensures Valid() && stream == [] && frames == [] && fresh(cache) && fresh(cache.data)
    {
      cache := new MsgBuffer(REDIS_MSG_INIT_BUFFER);
      this.halfIsEnough := halfIsEnough;
      msg := Fresh(0);
      stream, frames := [], [];
    }

    /** The message of `n` bytes goes its way with its block; the bytes after it move to a new one. */
    method StartNext(n: nat)
      requires cache.Valid() && 0 < n <= |cache.Contents()|
      modifies this`msg, cache
      ensures cache.Valid() && MsgOk() && msg == Fresh(0)
      ensures fresh(cache.data) && cache.end < cache.data.Length && cache.Contents() == old(cache.Contents())[n..]
    {
      cache.Read(n);
      cache.ResetMemPool(cache.data.Length);
      msg := Fresh(0);
    }

    /** The message whose bytes are in the buffer: the one that was being read, until it is handed on. */
    ghost function Left(m: Msg, out: seq<Bytes>): Msg
    {
      if out == [] then m else Fresh(0)
    }

    /** Hand on every whole message in the buffer, until there is none or a fault is reported. */
    method ProcessMsg() returns (code: int, out: seq<Bytes>)
      requires cache.Valid() && MsgOk()
      requires OnTrack(stream, frames, cache.Contents(), msg)
      modifies this`msg, this`frames, cache
      ensures cache.Valid() && MsgOk()
      ensures frames == old(frames) + out
      ensures Fine(stream) ==> code == GR_OK && InStep()
      ensures code == GR_OK || code == GR_ERROR
      ensures WellFormed(Left(old(msg), out)) && Pos(Left(old(msg), out)) <= |cache.Contents()|
      ensures code == GR_ERROR <==> Call(cache.Contents(), Left(old(msg), out)).Fault?
      ensures out != [] ==> !Call(old(cache.Contents()), old(msg)).Fault?
      ensures if out == []
              then cache.data == old(cache.data) && cache.end == old(cache.end) && cache.start == old(cache.start)
              else fresh(cache.data) && cache.end < cache.data.Length
    {
      hide Feed, Cut, Rest, OnTrack, Fine, Bare, Call;
      out := [];
      code := GR_OK;
      while true
        invariant cache.Valid() && MsgOk() && code == GR_OK
        invariant frames == old(frames) + out
        invariant if out == []
                  then cache.data == old(cache.data) && cache.end == old(cache.end) && cache.start == old(cache.start)
                  else fresh(cache.data) && cache.end < cache.data.Length
        invariant OnTrack(stream, frames, cache.Contents(), msg) && msg == Left(old(msg), out)
        invariant out != [] ==> !Call(old(cache.Contents()), old(msg)).Fault?
        decreases |cache.Contents()|
      {
        var buf := cache.data[cache.start..cache.end];
        var m, ret := ParseRsp(buf, msg);
        if ret != GR_OK {
          StreamBroken(stream, frames, buf, msg);
          return GR_ERROR, out;
        }
        if !m.st.End? {
          if Fine(stream) {
            TrackStop(stream, frames, buf, msg, m);
          }
          msg := m;
          break;
        }
        TrackFrame(stream, frames, buf, msg, m);
        out := out + [buf[..m.len]];
        frames := frames + [buf[..m.len]];
        StartNext(m.len);
      }
    }

    /** A read of `chunk` bytes, at most what the buffer has room for. */
    method OnRead(chunk: Bytes) returns (code: int, out: seq<Bytes>)
      requires Valid() && 0 < |chunk| <= cache.data.Length - cache.end
      modifies this, cache, cache.data
      ensures stream == old(stream) + chunk
      ensures frames == old(frames) + out
      ensures code == GR_OK ==> Valid()
      ensures Fine(stream) ==> code == GR_OK
      ensures code == GR_OK || code == GR_ERROR
      ensures code == GR_ERROR && out == [] <==> Call(old(cache.Contents()) + chunk, old(msg)).Fault?
    {
      var room := cache.LeftCapacityToEnd();
      ghost var before := cache.Contents();
      cache.Write(chunk);
      stream := stream + chunk;
      Arrived(old(stream), old(frames), chunk, before, msg);
      code, out := ProcessMsg();
      if code != GR_OK {
        return code, out;
      }
      if |chunk| < room {
        return GR_OK, out;
      }
      MakeRoom();
    }

    /** The buffer is full to its end: move its contents to the front, or to a larger block
      * when the message needs it. */
    method MakeRoom()
      requires cache.Valid() && MsgOk() && (Fine(stream) ==> InStep())
      modifies this`msg, cache, cache.data
      ensures Valid()
    {
      hide Feed, Cut, Rest, Fine;
      var left := cache.LeftCapacity();
      var capacity := cache.data.Length;
      if msg.maxLen + 256 > capacity {
        cache.Expand(msg.maxLen + 256);
      } else if left > capacity / 2 || (halfIsEnough && left >= capacity / 2) {
        cache.ResetBuffer();
      } else {
        cache.Expand(0);
      }
      var line: nat := *;
      BarePos(msg, Rebased(msg, line));
      msg := Rebased(msg, line);
    }
  }
}
