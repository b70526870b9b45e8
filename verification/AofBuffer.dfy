/** The buffers of the append only file: feeding entries to them, and handing a rewriting
  * child what has changed since it was forked. */
module AofBuffers {
  import opened Seqs
  import opened Resp
  import opened AofLog
  import opened AofCodec
  import Package

  const BLOCK_SIZE := 10485760

  datatype Block = Block(buf: Bytes, free: nat)

  function Bufs(blocks: seq<Block>): (r: seq<Bytes>)
    ensures |r| == |blocks| && forall i | 0 <= i < |r| :: r[i] == blocks[i].buf
  {
    seq(|blocks|, i requires 0 <= i < |blocks| => blocks[i].buf)
  }

  function BytesOf(blocks: seq<Block>): Bytes
  {
    Flatten(Bufs(blocks))
  }

  predicate BlocksValid(blocks: seq<Block>)
  {
    forall i | 0 <= i < |blocks| :: |blocks[i].buf| + blocks[i].free == BLOCK_SIZE
  }

  lemma LastBlock(blocks: seq<Block>, b: Block)
    ensures BytesOf(blocks + [b]) == BytesOf(blocks) + b.buf
  {
    assert Bufs(blocks + [b]) == Bufs(blocks) + [b.buf];
    FlattenPush(Bufs(blocks), b.buf);
  }

  lemma FirstBlock(blocks: seq<Block>)
    requires |blocks| > 0
    ensures BytesOf(blocks) == blocks[0].buf + BytesOf(blocks[1..])
    ensures BlocksValid(blocks) ==> BlocksValid(blocks[1..])
  {
    assert Bufs(blocks)[1..] == Bufs(blocks[1..]);
  }

  lemma Taken(blocks: seq<Block>, n: nat, sent: Bytes)
    requires |blocks| > 0 && n <= |blocks[0].buf|
    ensures var less := [Block(blocks[0].buf[n..], blocks[0].free + n)] + blocks[1..];
            sent + BytesOf(blocks) == sent + blocks[0].buf[..n] + BytesOf(less)
            && (BlocksValid(blocks) ==> BlocksValid(less))
  {
    hide BytesOf;
    var less := [Block(blocks[0].buf[n..], blocks[0].free + n)] + blocks[1..];
    FirstBlock(blocks);
    FirstBlock(less);
    assert less[1..] == blocks[1..];
    assert blocks[0].buf == blocks[0].buf[..n] + blocks[0].buf[n..];
  }

  /** A file or a pipe: what it answered to every write, and the bytes it has taken. A write takes
    * any number of bytes from none on, or fails. */
  class Pipe {
    ghost var answers: seq<int>
    ghost var data: Bytes

    constructor ()
      ensures answers == [] && data == []
    {
      answers, data := [], [];
    }

    method Write(buf: Bytes) returns (n: int)
      modifies this
      ensures n <= |buf| && answers == old(answers) + [n]
      ensures data == old(data) + if n > 0 then buf[..n] else []
    {
      n := *;
      if n > |buf| {
        n := -1;
      }
      answers := answers + [n];
      data := data + if n > 0 then buf[..n] else [];
    }
  }

  /** The list of blocks that holds what has been logged since the fork and not yet been sent
    * to the child. */
  class RewriteBuffer {
    var blocks: seq<Block>
    /** The child has asked to stop. */
    var stop: bool
    /** The handler that sends to the child is installed. */
    var armed: bool

    /** As long as the child listens, what is left for it is going to be sent. */
    ghost predicate Valid()
      reads this
    {
      BlocksValid(blocks) && (!stop && |blocks| > 0 ==> armed)
    }

    ghost function Contents(): Bytes
      reads this
    {
      BytesOf(blocks)
    }

    constructor ()
      ensures Valid() && Contents() == [] && !stop
    {
      blocks, stop, armed := [], false, false;
    }

    /** Forget what is left of a rewrite. */
    method Reset()
      modifies this`blocks
      ensures Valid() && Contents() == []
    {
      blocks := [];
    }

    /** New pipes for the next rewrite: the child listens, and no handler is on its pipe yet. */
    method OpenPipes()
      requires Valid() && blocks == []
      modifies this`stop, this`armed
      ensures Valid() && !stop && !armed
    {
      stop, armed := false, false;
    }

    /** The rewrite is over and with it the handler on its pipe. */
    method ClosePipes()
      requires Valid()
      modifies this`armed
      ensures !armed && (stop || blocks == [] ==> Valid())
    {
      armed := false;
    }

    /** The child asks for no more. */
    method Stop()
      requires Valid()
      modifies this
      ensures Valid() && Contents() == old(Contents()) && stop
    {
      stop := true;
    }

    /** Fill the last block, then allocate more. */
    method Append(s: Bytes)
      requires Valid()
      modifies this
      ensures Valid() && Contents() == old(Contents()) + s && stop == old(stop)
    {
      hide BytesOf;
      var at := 0;
      while at < |s|
        invariant at <= |s| && BlocksValid(blocks) && stop == old(stop) && Contents() == old(Contents()) + s[..at]
        decreases |s| - at, if |blocks| > 0 && blocks[|blocks| - 1].free > 0 then 0 else 1
      {
        if |blocks| > 0 {
          var last := blocks[|blocks| - 1];
          var len := if last.free < |s| - at then last.free else |s| - at;
          if len > 0 {
            FillLast(blocks, s[at..at + len]);
            blocks := blocks[..|blocks| - 1] + [Block(last.buf + s[at..at + len], last.free - len)];
            assert s[..at + len] == s[..at] + s[at..at + len];
            at := at + len;
          }
        }
        if at < |s| {
          LastBlock(blocks, Block([], BLOCK_SIZE));
          blocks := blocks + [Block([], BLOCK_SIZE)];
        }
      }
      if !armed {
        armed := true;
      }
    }

    /** Bytes that fit the last block go to the end of it. */
    lemma FillLast(blocks: seq<Block>, part: Bytes)
      requires BlocksValid(blocks) && |blocks| > 0 && |part| <= blocks[|blocks| - 1].free
      ensures var last := blocks[|blocks| - 1];
              var after := blocks[..|blocks| - 1] + [Block(last.buf + part, last.free - |part|)];
              BlocksValid(after) && BytesOf(after) == BytesOf(blocks) + part
    {
      hide BytesOf;
      var front, last := blocks[..|blocks| - 1], blocks[|blocks| - 1];
      assert blocks == front + [last];
      LastBlock(front, last);
      LastBlock(front, Block(last.buf + part, last.free - |part|));
    }

    /** Send the child what it will take, in order, unless it has asked to stop. */
    method WriteDiffData(pipe: Pipe) returns (ghost sent: Bytes)
      requires Valid() && armed
      modifies this, pipe
      ensures Valid() && stop == old(stop) && old(Contents()) == sent + Contents()
      ensures pipe.data == old(pipe.data) + sent && old(pipe.answers) <= pipe.answers
      ensures stop ==> sent == []
      ensures !armed <==> stop || blocks == []
      ensures armed ==> old(pipe.answers) < pipe.answers && pipe.answers[|pipe.answers| - 1] <= 0
    {
      hide BytesOf, BlocksValid;
      sent := [];
      while true
        invariant Valid() && armed && stop == old(stop) && old(Contents()) == sent + Contents()
        invariant pipe.data == old(pipe.data) + sent && old(pipe.answers) <= pipe.answers
        invariant stop ==> sent == []
        decreases |blocks|, if |blocks| > 0 then |blocks[0].buf| else 0
      {
        if stop || |blocks| == 0 {
          armed := false;
          return;
        }
        var block := blocks[0];
        if |block.buf| > 0 {
          var n := pipe.Write(block.buf);
          if n <= 0 { return; }
          Taken(blocks, n, sent);
          sent := sent + block.buf[..n];
          blocks := [Block(block.buf[n..], block.free + n)] + blocks[1..];
        }
        if |blocks[0].buf| == 0 {
          FirstBlock(blocks);
          blocks := blocks[1..];
        }
      }
    }

    /** Write everything to the child's finished file; a short write gives up. */
    method WriteTo(file: Pipe) returns (count: int, ghost written: Bytes)
      requires Valid()
      modifies file
      ensures file.data == old(file.data) + written && old(file.answers) <= file.answers
      ensures count >= 0 ==> written == Contents() && count == |Contents()|
      ensures count < 0 ==> count == -1 && written < Contents() && old(file.answers) < file.answers
    {
      hide BytesOf;
      count, written := 0, [];
      var i := 0;
      assert blocks[0..] == blocks;
      NoBytes();
      while i < |blocks|
        invariant i <= |blocks| && count == |written|
        invariant file.data == old(file.data) + written && old(file.answers) <= file.answers
        invariant written + BytesOf(blocks[i..]) == Contents()
      {
        FirstBlock(blocks[i..]);
        assert blocks[i..][1..] == blocks[i + 1..];
        var block := blocks[i];
        if |block.buf| > 0 {
          var n := file.Write(block.buf);
          if n != |block.buf| {
            written := written + block.buf[..if n > 0 then n else 0];
            return -1, written;
          }
          written := written + block.buf;
          count := count + n;
        }
        i := i + 1;
      }
      assert blocks[i..] == [];
    }
  }

  lemma NoBytes()
    ensures BytesOf([]) == []
  {
  }

  // ---- Feeding ----

  /** Where entries go: the buffer of the current file, and the rewrite buffer while a child
    * is at work. */
  class Aof {
    var on: bool
    var selected: Option<nat>
    var buf: Bytes
    var child: bool
    const diff: RewriteBuffer
    /** Time stamps: whether they are on, how many entries to let pass between two, how many
      * have passed since the last and when that was. */
    var stamping: bool
    var skipNum: int
    var skipped: int
    var lastMs: int

    constructor (on: bool, stamping: bool, skipNum: int)
      ensures Valid() && fresh(diff) && buf == [] && selected == None && !child && diff.Contents() == []
    {
      this.on, this.selected, this.buf, this.child := on, None, [], false;
      this.stamping, this.skipNum, this.skipped, this.lastMs := stamping, skipNum, 0, 0;
      diff := new RewriteBuffer();
    }

    ghost predicate Valid()
      reads this, diff
    {
      diff.Valid()
    }

    /** The stamp at a time, if one is due: stamps are on, enough entries went by without one, and
      * more than a second since the last one. */
    ghost function Due(clock: int): Option<int>
      reads this
    {
      if stamping && skipped + 1 >= skipNum && clock - lastMs > 1000 then Some(clock) else None
    }

    /** What is kept for the next stamp. */
    ghost predicate Stamped(wasSkipped: int, wasLast: int, stamp: Option<int>)
      reads this
    {
      && lastMs == (if stamp.Some? then stamp.value else wasLast)
      && skipped == if !stamping then wasSkipped else if stamp.Some? then 0 else wasSkipped + 1
    }

    /** Give the stamp that is due. */
    method Stamp(clock: int) returns (stamp: Option<int>)
      modifies `skipped, `lastMs
      ensures stamp == old(Due(clock)) && Stamped(old(skipped), old(lastMs), stamp)
    {
      stamp := None;
      if stamping {
        skipped := skipped + 1;
        if skipped >= skipNum {
          if clock - lastMs > 1000 {
            skipped := 0;
            lastMs := clock;
            stamp := Some(clock);
          }
        }
      }
    }

    /** The entries for one request: a change of database, what it did, and a stamp when due. */
    method CatEvent(db: nat, request: Request, clock: Clock, stampMs: int) returns (data: Bytes, stamp: Option<int>)
      requires Plain(request)
      modifies `selected, `skipped, `lastMs
      ensures selected == Some(db) && data == Encode(Fed(old(selected), Event(db, request, clock, stamp)))
      ensures stamp == old(Due(stampMs)) && Stamped(old(skipped), old(lastMs), stamp)
    {
      hide Encode, Package.Command, Translate;
      data := [];
      ghost var first := if selected == Some(db) then [] else [Select(db)];
      EncodeNone();
      if selected != Some(db) {
        EncodeOne(Select(db));
        data := CatGenericCommand([], [SELECT, Dec(db)]);
        selected := Some(db);
      }
      data := CatTranslated(data, request, clock);
      stamp := Stamp(stampMs);
      ghost var last := if stamp.Some? then [TimeFlag(stamp.value)] else [];
      if stamp.Some? {
        EncodeOne(TimeFlag(stamp.value));
        data := CatGenericCommand(data, [TIMEFLAG, DecInt(stamp.value)]);
      }
      EncodeAppend(Translate(request, clock), last);
      EncodeAppend(first, Translate(request, clock) + last);
    }

    /** Write one request down: both buffers gain the bytes of its entries. */
    method Feed(db: nat, request: Request, clock: Clock, stampMs: int) returns (stamp: Option<int>)
      requires Valid() && Plain(request)
      modifies this, diff
      ensures Valid() && on == old(on) && child == old(child) && selected == Some(db)
      ensures var data := Encode(Fed(old(selected), Event(db, request, clock, stamp)));
              && buf == old(buf) + (if on then data else [])
              && diff.Contents() == old(diff.Contents()) + (if child then data else [])
      ensures diff.stop == old(diff.stop)
      ensures stamp == old(Due(stampMs)) && Stamped(old(skipped), old(lastMs), stamp)
      ensures stamping == old(stamping) && skipNum == old(skipNum)
    {
      hide Encode, Fed;
      var data;
      data, stamp := CatEvent(db, request, clock, stampMs);
      if on {
        buf := buf + data;
      }
      if child {
        diff.Append(data);
      }
    }

    /** The entries of a request by the kind of command it is. */
    method CatTranslated(dst: Bytes, r: Request, t: Clock) returns (data: Bytes)
      requires Plain(r)
      ensures data == dst + Encode(Translate(r, t))
    {
      hide Encode, Package.Command;
      match r
      case SetRequest(key, value, _, expiry) =>
        EncodeOne(SetText(key, value));
        data := CatGenericCommand(dst, [SET, key, value]);
        ghost var rest := if expiry.None? then []
                          else [PExpireAt(key, Millis(expiry.value.0, expiry.value.1) + t.later)];
        assert [SetText(key, value)] + rest
               == if expiry.Some? then [SetText(key, value), rest[0]] else [SetText(key, value)];
        if expiry.Some? {
          EncodePair(SetText(key, value), PExpireAt(key, Millis(expiry.value.0, expiry.value.1) + t.later));
          data := CatExpireAt(data, key, expiry.value.0, expiry.value.1, true, t.later);
        }
      case SetExRequest(key, ttl, unit, value) =>
        EncodePair(SetText(key, value), PExpireAt(key, Millis(ttl, unit) + t.later));
        data := CatGenericCommand(dst, [SET, key, value]);
        data := CatExpireAt(data, key, ttl, unit, true, t.later);
      case ExpireRequest(key, ttl, unit) =>
        if t.now + Millis(ttl, unit) <= t.seen {
          EncodeOne(Del([key]));
          assert [DEL] + [key] == [DEL, key];
          data := CatGenericCommand(dst, [DEL, key]);
        } else {
          data := CatExpireAt(dst, key, ttl, unit, true, t.later);
        }
      case ExpireAtRequest(key, when, unit) =>
        if Millis(when, unit) <= t.seen {
          EncodeOne(Del([key]));
          assert [DEL] + [key] == [DEL, key];
          data := CatGenericCommand(dst, [DEL, key]);
        } else {
          data := CatExpireAt(dst, key, when, unit, false, t.later);
        }
      case DelRequest(keys) =>
        EncodeOne(Del(keys));
        data := CatGenericCommand(dst, [DEL] + keys);
      case GrowRequest(command) =>
        EncodeOne(command);
        data := CatGenericCommand(dst, Args(command));
    }

    /** A time to live or a time, as PEXPIREAT. */
    method CatExpireAt(dst: Bytes, key: Bytes, n: int, unit: Unit, relative: bool, later: int) returns (data: Bytes)
      ensures data == dst + Encode([PExpireAt(key, Millis(n, unit) + if relative then later else 0)])
    {
      var when := n;
      if unit.Seconds? {
        when := when * 1000;
      }
      if relative {
        when := when + later;
      }
      EncodeOne(PExpireAt(key, when));
      data := CatGenericCommand(dst, [PEXPIREAT, key, DecInt(when)]);
    }
  }

  lemma EncodePair(a: Command, b: Command)
    ensures Encode([a, b]) == Encode([a]) + Encode([b])
    ensures Encode([a]) == Package.Command(Args(a))
  {
    EncodeAppend([a], [b]);
    EncodeOne(a);
    assert [a] + [b] == [a, b];
  }
}
