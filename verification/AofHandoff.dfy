/** A background rewrite: a forked child writes a new file from its snapshot while the parent
  * goes on serving, and at the end nothing of what the parent logged meanwhile is missing
  * from the new file. */
module AofHandoff {
  import opened Seqs

  /** The child writes its snapshot, asks the parent to stop, reads what is left in the pipe
    * once the parent has agreed, and finishes its file. */
  datatype Phase = Writing | Asked | Draining | Finished | Failed

  /** What the child has read from the data pipe, what is in it, and what the parent still
    * holds; the two one-byte messages; and all that was logged since the fork. */
  datatype Handoff = Handoff(
    base: Bytes,
    phase: Phase,
    read: Bytes,
    pipe: Bytes,
    buffer: Bytes,
    ask: bool,
    ack: bool,
    stop: bool,
    file: Bytes,
    logged: Bytes)

  datatype Step =
    | Append(data: Bytes)
    | Send(n: nat)
    | Read(n: nat)
    | Ask
    | Agree(acked: bool)
    | GetAck
    | Finish
    | Fail

  function Forked(base: Bytes): Handoff
  {
    Handoff(base, Writing, [], [], [], false, false, false, [], [])
  }

  /** When a step can be taken. The parent sends only until it has agreed to stop; the child
    * stops reading for good only when the pipe is empty after that. */
  predicate Enabled(h: Handoff, step: Step)
  {
    match step
    case Append(data) => true
    case Send(n) => !h.stop && n <= |h.buffer|
    case Read(n) => (h.phase.Writing? || h.phase.Draining?) && n <= |h.pipe|
    case Ask => h.phase.Writing?
    case Agree(acked) => h.ask
    case GetAck => h.phase.Asked? && h.ack
    case Finish => h.phase.Draining? && h.pipe == []
    case Fail => !h.phase.Finished?
  }

  function Next(h: Handoff, step: Step): Handoff
    requires Enabled(h, step)
  {
    match step
    case Append(data) => h.(buffer := h.buffer + data, logged := h.logged + data)
    case Send(n) => h.(buffer := h.buffer[n..], pipe := h.pipe + h.buffer[..n])
    case Read(n) => h.(pipe := h.pipe[n..], read := h.read + h.pipe[..n])
    case Ask => h.(phase := Asked, ask := true)
    case Agree(acked) => h.(ask := false, stop := true, ack := acked)
    case GetAck => h.(phase := Draining, ack := false)
    case Finish => h.(phase := Finished, file := h.base + h.read)
    case Fail => h.(phase := Failed)
  }

  /** Every logged byte is in exactly one place, in order, and once the child drains the pipe
    * the parent adds nothing more to it. */
  predicate Inv(h: Handoff)
  {
    && h.read + h.pipe + h.buffer == h.logged
    && (h.ack || h.phase.Draining? || h.phase.Finished? ==> h.stop)
    && (h.phase.Finished? ==> h.pipe == [] && h.file == h.base + h.read)
  }

  lemma ForkedInv(base: Bytes)
    ensures Inv(Forked(base))
  {
  }

  lemma StepInv(h: Handoff, step: Step)
    requires Inv(h) && Enabled(h, step)
    ensures Inv(Next(h, step)) && Next(h, step).base == h.base
  {
    match step
    case Append(data) => assert h.read + h.pipe + (h.buffer + data) == h.logged + data;
    case Send(n) =>
      assert h.buffer == h.buffer[..n] + h.buffer[n..];
      assert h.read + (h.pipe + h.buffer[..n]) + h.buffer[n..] == h.read + h.pipe + (h.buffer[..n] + h.buffer[n..]);
    case Read(n) =>
      assert h.pipe == h.pipe[..n] + h.pipe[n..];
      assert h.read + h.pipe[..n] + h.pipe[n..] == h.read + (h.pipe[..n] + h.pipe[n..]);
    case Ask =>
    case Agree(acked) =>
    case GetAck =>
    case Finish =>
    case Fail =>
  }

  /** What the parent makes of the child's file by appending all it still holds is the
    * snapshot and everything logged since, once and in order. */
  lemma FileComplete(h: Handoff)
    requires Inv(h) && h.phase.Finished?
    ensures h.file + h.buffer == h.base + h.logged
  {
    assert h.read + h.pipe + h.buffer == h.read + h.buffer;
    assert h.base + h.read + h.buffer == h.base + (h.read + h.buffer);
  }

  /** What the parent sends while it may, the child can read while it writes or drains. */
  lemma SentIsRead(h: Handoff, n: nat)
    requires Inv(h) && (h.phase.Writing? || h.phase.Draining?) && !h.stop && n <= |h.buffer|
    ensures Enabled(h, Send(n)) && Enabled(Next(h, Send(n)), Read(|h.pipe| + n))
    ensures var r := Next(Next(h, Send(n)), Read(|h.pipe| + n));
            r.read == h.read + h.pipe + h.buffer[..n] && r.pipe == [] && r.buffer == h.buffer[n..]
  {
  }

  ghost predicate CanRun(h: Handoff, steps: seq<Step>)
    decreases |steps|
  {
    |steps| == 0 || (Enabled(h, steps[0]) && CanRun(Next(h, steps[0]), steps[1..]))
  }

  ghost function Run(h: Handoff, steps: seq<Step>): Handoff
    requires CanRun(h, steps)
    decreases |steps|
  {
    if |steps| == 0 then h else Run(Next(h, steps[0]), steps[1..])
  }

  lemma RunStep(h: Handoff, step: Step, rest: seq<Step>)
    requires Enabled(h, step) && CanRun(Next(h, step), rest)
    ensures CanRun(h, [step] + rest) && Run(h, [step] + rest) == Run(Next(h, step), rest)
  {
    hide Next, Enabled;
    assert ([step] + rest)[1..] == rest;
  }

  /** What is left to do when the parent has agreed: empty the pipe and finish. */
  function Drain(h: Handoff): seq<Step>
  {
    [GetAck, Read(|h.pipe|), Finish]
  }

  lemma DrainFinishes(h: Handoff)
    requires Inv(h) && h.phase.Asked? && h.ack
    ensures CanRun(h, Drain(h))
    ensures var r := Run(h, Drain(h)); r.phase.Finished? && r.file == h.base + (h.read + h.pipe) && r.buffer == h.buffer
  {
    var a := Next(h, GetAck);
    var b := Next(a, Read(|h.pipe|));
    var c := Next(b, Finish);
    RunStep(b, Finish, []);
    RunStep(a, Read(|h.pipe|), [Finish]);
    RunStep(h, GetAck, [Read(|h.pipe|), Finish]);
  }

  /** From any moment at which the child writes, the two messages and reading what is in the pipe
    * finish its file; nothing but what the parent still holds is missing from it. */
  lemma CanFinish(h: Handoff)
    requires Inv(h) && h.phase.Writing?
    ensures var steps := [Ask, Agree(true)] + Drain(h);
            && CanRun(h, steps) && var r := Run(h, steps);
            && r.phase.Finished? && r.buffer == h.buffer && r.file + h.buffer == h.base + h.logged
  {
    var a := Next(h, Ask);
    var b := Next(a, Agree(true));
    DrainFinishes(b);
    hide CanRun, Run;
    RunStep(a, Agree(true), Drain(h));
    RunStep(h, Ask, [Agree(true)] + Drain(h));
    assert [Ask] + ([Agree(true)] + Drain(h)) == [Ask, Agree(true)] + Drain(h);
    assert h.base + (h.read + h.pipe) + h.buffer == h.base + (h.read + h.pipe + h.buffer);
  }
}

/** A server with its append only file, over any run of requests and rewrites. */
module AofSystem {
  import opened Seqs
  import opened AofLog
  import opened AofCodec
  import opened AofRewrite
  import AofLoad
  import H = AofHandoff

  /** The rewrite in progress, with the log its file is going to be. */
  datatype Rewrite = Rewrite(handoff: H.Handoff, log: seq<Command>, slips: Slips)

  /** The file with what is buffered for it, and the log it holds. */
  datatype State = State(server: Server, file: Bytes, log: seq<Command>, slips: Slips, rewrite: Option<Rewrite>)

  datatype Action =
    | Serve(event: Event)
    | Fork(dbs: seq<seq<Row>>)
    | Child(step: H.Step)
    | Complete
    | GiveUp
    | Crash(left: nat)

  const START := State(Server(map[], None), [], [], map[], None)

  /** A rewrite starts when none is running, from a walk over the keyspace as it is. Steps of
    * the child and the pipes are any that the protocol allows. It is completed only from a
    * finished child, and given up at any time: the child failed, was killed, or the last
    * write came out short. A crash leaves any first part of the file. */
  ghost predicate Enabled(s: State, a: Action)
  {
    match a
    case Serve(e) => Plain(e.request)
    case Fork(dbs) => s.rewrite.None? && WalksAll(dbs, s.server.ks) && DbsSound(dbs)
    case Child(step) => s.rewrite.Some? && !step.Append? && H.Enabled(s.rewrite.value.handoff, step)
    case Complete => s.rewrite.Some? && s.rewrite.value.handoff.phase.Finished?
    case GiveUp => s.rewrite.Some?
    case Crash(n) => n <= |s.file|
  }

  /** The server starts again from the first `n` bytes of its file: what loads whole is replayed
    * from nothing, the rest is cut off, and a rewrite that was running is forgotten. On a file it
    * cannot load it does not start. */
  ghost function Restarted(s: State, n: nat): State
    requires n <= |s.file|
  {
    var file := s.file[..n];
    var loaded, log := AofLoad.Load(file), Decode(file);
    if loaded.ending == AofLoad.Malformed || log.None? || !AllSound(log.value) || |loaded.left| > n then s
    else State(Server(Replay(EMPTY, log.value).ks, None), file[..n - |loaded.left|], log.value, map[], None)
  }

  ghost function Next(s: State, a: Action): State
    requires Enabled(s, a)
  {
    match a
    case Serve(e) =>
      var entries := Entries(s.server, e);
      var data := Encode(entries);
      State(After(s.server, e), s.file + data, s.log + entries, Slipped(s.slips, s.server, e),
            if s.rewrite.None? then None
            else
              var w := s.rewrite.value;
              Some(Rewrite(H.Next(w.handoff, H.Append(data)), w.log + entries, Slipped(w.slips, s.server, e))))
    case Fork(dbs) =>
      s.(server := s.server.(selected := None),
         rewrite := Some(Rewrite(H.Forked(Encode(DbsLog(dbs, 0))), DbsLog(dbs, 0), map[])))
    case Child(step) =>
      s.(rewrite := Some(s.rewrite.value.(handoff := H.Next(s.rewrite.value.handoff, step))))
    case Complete =>
      var w := s.rewrite.value;
      State(s.server.(selected := None), w.handoff.file + w.handoff.buffer, w.log, w.slips, None)
    case GiveUp => s.(rewrite := None)
    case Crash(n) => Restarted(s, n)
  }

  /** The file reloads to where the server is, and so will the file being written. */
  ghost predicate Reloads(file: Bytes, log: seq<Command>, server: Server, slips: Slips)
  {
    AllSound(log) && file == Encode(log) && CaughtUp(Replay(EMPTY, log), server, slips)
  }

  ghost predicate Inv(s: State)
  {
    && Reloads(s.file, s.log, s.server, s.slips)
    && (s.rewrite.Some? ==>
          var w := s.rewrite.value;
          H.Inv(w.handoff) && Reloads(w.handoff.base + w.handoff.logged, w.log, s.server, w.slips))
  }

  lemma FedReloads(file: Bytes, log: seq<Command>, server: Server, slips: Slips, e: Event)
    requires Reloads(file, log, server, slips) && Plain(e.request)
    ensures Reloads(file + Encode(Entries(server, e)), log + Entries(server, e), After(server, e),
              Slipped(slips, server, e))
  {
    hide CaughtUp, Entries, After, Slipped, Encode;
    EncodeAppend(log, Entries(server, e));
    ReplayAppend(EMPTY, log, Entries(server, e));
    EventKeepsUp(Replay(EMPTY, log), server, slips, e);
  }

  /** Forgetting which database the log has selected is always safe. */
  lemma Reselected(file: Bytes, log: seq<Command>, server: Server, slips: Slips)
    requires Reloads(file, log, server, slips)
    ensures Reloads(file, log, server.(selected := None), slips)
  {
    hide Encode, Replay, DbAgrees;
  }

  lemma ForkReloads(dbs: seq<seq<Row>>, server: Server)
    requires WalksAll(dbs, server.ks) && DbsSound(dbs)
    ensures Reloads(Encode(DbsLog(dbs, 0)) + [], DbsLog(dbs, 0), server.(selected := None), map[])
  {
    hide Encode;
    RewriteReplays(dbs, server.ks);
    SameAgrees(Replay(EMPTY, DbsLog(dbs, 0)), server.(selected := None));
    assert Encode(DbsLog(dbs, 0)) + [] == Encode(DbsLog(dbs, 0));
  }

  lemma SameAgrees(l: Loader, s: Server)
    requires Same(l.ks, s.ks) && s.selected == None
    ensures CaughtUp(l, s, map[])
  {
    assert forall d :: DbOf(l.ks, d) == DbOf(s.ks, d);
  }

  lemma StepInv(s: State, a: Action)
    requires Inv(s) && Enabled(s, a)
    ensures Inv(Next(s, a))
  {
    hide Reloads, H.Inv, H.Next, WalksAll, DbsSound, Entries, Encode, After, Slipped;
    match a
    case Serve(e) =>
      FedReloads(s.file, s.log, s.server, s.slips, e);
      if s.rewrite.Some? {
        var w := s.rewrite.value;
        var data := Encode(Entries(s.server, e));
        FedReloads(w.handoff.base + w.handoff.logged, w.log, s.server, w.slips, e);
        H.StepInv(w.handoff, H.Append(data));
        AppendLogs(w.handoff, data);
      }
    case Fork(dbs) =>
      Reselected(s.file, s.log, s.server, s.slips);
      ForkReloads(dbs, s.server);
      H.ForkedInv(Encode(DbsLog(dbs, 0)));
    case Child(step) =>
      H.StepInv(s.rewrite.value.handoff, step);
      OthersLogNothing(s.rewrite.value.handoff, step);
    case Complete =>
      var w := s.rewrite.value;
      H.FileComplete(w.handoff);
      Reselected(w.handoff.base + w.handoff.logged, w.log, s.server, w.slips);
    case GiveUp =>
    case Crash(n) =>
      Unpack(s);
      var k := RestartsFrom(s, n);
  }

  /** A server always starts again, from the entries that are whole in what is left of its file. */
  lemma RestartsFrom(s: State, n: nat) returns (k: nat)
    requires AllSound(s.log) && s.file == Encode(s.log) && n <= |s.file|
    ensures k <= |s.log| && |Encode(s.log[..k])| <= n && (k < |s.log| ==> n < |Encode(s.log[..k + 1])|)
    ensures var t := Restarted(s, n);
            && t.log == s.log[..k] && t.server == Server(Replay(EMPTY, s.log[..k]).ks, None)
            && t.rewrite.None? && t.slips == map[] && Reloads(t.file, t.log, t.server, t.slips)
  {
    hide Encode, Decode, AofLoad.Load, Replay, CaughtUp;
    k := DecodesCut(s.log, n);
    var file, log := s.file[..n], s.log[..k];
    var left := AofLoad.Load(file).left;
    Kept(Encode(log), left, file);
    SameAgrees(Replay(EMPTY, log), Server(Replay(EMPTY, log).ks, None));
  }

  lemma Kept(a: Bytes, b: Bytes, s: Bytes)
    requires a + b == s
    ensures |b| <= |s| && s[..|s| - |b|] == a
  {
  }

  lemma AppendLogs(h: H.Handoff, data: Bytes)
    ensures H.Next(h, H.Append(data)).base + H.Next(h, H.Append(data)).logged == h.base + h.logged + data
  {
  }

  lemma OthersLogNothing(h: H.Handoff, step: H.Step)
    requires !step.Append? && H.Enabled(h, step)
    ensures H.Next(h, step).base == h.base && H.Next(h, step).logged == h.logged
  {
  }

  // ---- Runs ----

  ghost predicate CanRun(s: State, actions: seq<Action>)
    decreases |actions|
  {
    |actions| == 0 || (Enabled(s, actions[0]) && CanRun(Next(s, actions[0]), actions[1..]))
  }

  ghost function Run(s: State, actions: seq<Action>): State
    requires CanRun(s, actions)
    decreases |actions|
  {
    if |actions| == 0 then s else Run(Next(s, actions[0]), actions[1..])
  }

  lemma {:induction false} RunInv(s: State, actions: seq<Action>)
    requires Inv(s) && CanRun(s, actions)
    ensures Inv(Run(s, actions))
    decreases |actions|
  {
    hide Inv, Next, Enabled;
    if |actions| > 0 {
      StepInv(s, actions[0]);
      RunInv(Next(s, actions[0]), actions[1..]);
    }
  }

  lemma StartInv()
    ensures Inv(START)
  {
    EncodeNone();
  }

  /** At every moment of every run, whatever was served, however many rewrites were begun,
    * completed or given up and however often the server crashed and started again, loading the
    * append only file and replaying it from nothing gives the server's keys and values in the
    * server's databases, each expiry late by its slip. */
  lemma FileReloads(actions: seq<Action>)
    requires CanRun(START, actions)
    ensures var s := Run(START, actions);
            && AofLoad.Load(s.file).ending == AofLoad.Whole
            && Decode(s.file) == Some(s.log) && AllSound(s.log)
            && CaughtUp(Replay(EMPTY, s.log), s.server, s.slips)
  {
    hide Inv, Decode, Encode, CaughtUp;
    StartInv();
    RunInv(START, actions);
    Unpack(Run(START, actions));
    DecodesBack(Run(START, actions).log);
  }

  /** A crash that leaves any first part of the file loses whole entries from the end and
    * nothing else, and the rest still loads. */
  lemma CrashLosesTheTail(actions: seq<Action>, n: nat) returns (k: nat)
    requires CanRun(START, actions) && n <= |Run(START, actions).file|
    ensures var s := Run(START, actions);
            && k <= |s.log| && Decode(s.file[..n]) == Some(s.log[..k])
            && |Encode(s.log[..k])| <= n && (k < |s.log| ==> n < |Encode(s.log[..k + 1])|)
            && AofLoad.Load(s.file[..n]).ending != AofLoad.Malformed
  {
    hide Inv, Decode, Encode, CaughtUp, AofLoad.Load;
    StartInv();
    RunInv(START, actions);
    Unpack(Run(START, actions));
    k := DecodesCut(Run(START, actions).log, n);
  }

  /** A server that starts again from its whole file has its keys and values back, each expiry
    * late by its slip. */
  lemma CleanRestart(actions: seq<Action>, d: nat)
    requires CanRun(START, actions)
    ensures var s := Run(START, actions);
            var t := Restarted(s, |s.file|);
            DbAgrees(DbOf(t.server.ks, d), DbOf(s.server.ks, d), s.slips, d)
  {
    hide Inv, Decode, Encode, DbAgrees, AofLoad.Load, Replay, Reloads;
    StartInv();
    RunInv(START, actions);
    var s := Run(START, actions);
    Unpack(s);
    var k := RestartsFrom(s, |s.file|);
    WholeLog(s.log, k);
  }

  lemma WholeLog(log: seq<Command>, k: nat)
    requires AllSound(log) && k <= |log| && (k < |log| ==> |Encode(log)| < |Encode(log[..k + 1])|)
    ensures log[..k] == log
  {
    if k < |log| {
      hide Encode;
      assert log == log[..k + 1] + log[k + 1..];
      EncodeAppend(log[..k + 1], log[k + 1..]);
    }
  }

  lemma Unpack(s: State)
    requires Inv(s)
    ensures AllSound(s.log) && s.file == Encode(s.log) && CaughtUp(Replay(EMPTY, s.log), s.server, s.slips)
  {
  }

  // ---- What each action does ----

  /** A request is served, and its entries go to the end of the file and to what the child is to
    * get. */
  lemma ServesAndLogs(s: State, e: Event)
    requires Plain(e.request)
    ensures Enabled(s, Serve(e))
    ensures var t := Next(s, Serve(e));
            && t.server == After(s.server, e) && t.log == s.log + Entries(s.server, e)
            && t.file == s.file + Encode(Entries(s.server, e))
            && (t.rewrite.Some? <==> s.rewrite.Some?)
            && (s.rewrite.Some? ==>
                  t.rewrite.value.handoff.logged == s.rewrite.value.handoff.logged + Encode(Entries(s.server, e)))
  {
    hide Entries, After, Encode;
  }

  /** A rewrite is begun from the keyspace as it is; the file and the keys stay as they are. */
  lemma ForkBegins(s: State, dbs: seq<seq<Row>>)
    requires Enabled(s, Fork(dbs))
    ensures var t := Next(s, Fork(dbs));
            && t.rewrite.Some? && t.file == s.file && t.log == s.log && t.server == s.server.(selected := None)
            && var h := t.rewrite.value.handoff;
            && h.phase.Writing? && h.base == Encode(DbsLog(dbs, 0)) && h.logged == []
  {
    hide Encode, DbsLog;
  }

  /** A finished rewrite takes the place of the file: the new base and all that was logged since. */
  lemma CompleteSwaps(s: State)
    requires Inv(s) && Enabled(s, Complete)
    ensures var t, h := Next(s, Complete), s.rewrite.value.handoff;
            && t.file == h.base + h.logged && t.rewrite.None? && t.log == s.rewrite.value.log
            && t.server == s.server.(selected := None)
  {
    hide Reloads;
    H.FileComplete(s.rewrite.value.handoff);
  }

  /** A rewrite that is given up leaves file and keys as they are. */
  lemma GiveUpKeeps(s: State)
    requires s.rewrite.Some?
    ensures Enabled(s, GiveUp) && Next(s, GiveUp) == s.(rewrite := None)
  {
  }

  /** A crash is possible at any time, and the server starts again from what is left of the file. */
  lemma CrashRestarts(s: State, n: nat)
    requires n <= |s.file|
    ensures Enabled(s, Crash(n)) && Next(s, Crash(n)) == Restarted(s, n)
  {
  }

  // ---- A whole rewrite ----

  /** Requests and steps of the child, and nothing else. */
  predicate Undisturbed(actions: seq<Action>)
  {
    forall i | 0 <= i < |actions| :: actions[i].Serve? || actions[i].Child?
  }

  /** The requests among the actions. */
  function Served(actions: seq<Action>): (es: seq<Event>)
    decreases |actions|
  {
    if |actions| == 0 then []
    else (if actions[0].Serve? then [actions[0].event] else []) + Served(actions[1..])
  }

  lemma {:induction false} ServedPlain(s: State, actions: seq<Action>)
    requires CanRun(s, actions)
    ensures AllPlain(Served(actions))
    decreases |actions|
  {
    hide Next;
    if |actions| > 0 {
      ServedPlain(Next(s, actions[0]), actions[1..]);
    }
  }

  /** Meanwhile the requests are served and their log gathers for the child. */
  lemma {:induction false} Gathers(s: State, actions: seq<Action>)
    requires CanRun(s, actions) && Undisturbed(actions) && s.rewrite.Some? && AllPlain(Served(actions))
    ensures var t, log := Run(s, actions), Log(s.server, Served(actions));
            && t.rewrite.Some? && t.server == RunAll(s.server, Served(actions))
            && t.rewrite.value.handoff.base == s.rewrite.value.handoff.base
            && t.rewrite.value.handoff.logged == s.rewrite.value.handoff.logged + Encode(log)
    decreases |actions|
  {
    hide Encode, Entries, After, Enabled;
    if |actions| == 0 {
      EncodeNone();
    } else {
      var a := actions[0];
      var u := Next(s, a);
      GathersOne(s, a);
      var rest := Served(actions[1..]);
      assert a.Serve? ==> Served(actions)[0] == a.event && Served(actions)[1..] == rest;
      assert !a.Serve? ==> Served(actions) == rest;
      assert AllPlain(rest);
      hide Next;
      Gathers(u, actions[1..]);
      if a.Serve? {
        EncodeAppend(Entries(s.server, a.event), Log(u.server, rest));
      }
    }
  }

  lemma GathersOne(s: State, a: Action)
    requires Enabled(s, a) && (a.Serve? || a.Child?) && s.rewrite.Some?
    ensures var t, h := Next(s, a), s.rewrite.value.handoff;
            && t.rewrite.Some? && t.rewrite.value.handoff.base == h.base
            && t.server == (if a.Serve? then After(s.server, a.event) else s.server)
            && t.rewrite.value.handoff.logged
               == if a.Serve? then h.logged + Encode(Entries(s.server, a.event)) else h.logged
  {
    hide Encode, Entries, After;
    if a.Child? {
      OthersLogNothing(s.rewrite.value.handoff, a.step);
    }
  }

  /** A rewrite that runs from its fork to its completion leaves a file that is the rewritten keyspace
    * followed by the log of the requests served meanwhile, and nothing of the file before. */
  lemma RewriteReplacesFile(s: State, dbs: seq<seq<Row>>, actions: seq<Action>)
    requires Inv(s) && Enabled(s, Fork(dbs)) && Undisturbed(actions)
    requires CanRun(Next(s, Fork(dbs)), actions) && Enabled(Run(Next(s, Fork(dbs)), actions), Complete)
    ensures AllPlain(Served(actions))
    ensures var t := Next(Run(Next(s, Fork(dbs)), actions), Complete);
            var server := s.server.(selected := None);
            && t.file == Encode(DbsLog(dbs, 0) + Log(server, Served(actions))) && t.rewrite.None?
            && t.server.ks == RunAll(server, Served(actions)).ks
  {
    assert DbsSound(dbs);
    hide Inv, Next, Enabled, Encode, DbsLog, Log, RunAll;
    var begun := Next(s, Fork(dbs));
    ForkBegins(s, dbs);
    StepInv(s, Fork(dbs));
    ServedPlain(begun, actions);
    Gathers(begun, actions);
    RunInv(begun, actions);
    CompleteSwaps(Run(begun, actions));
    var log := Log(s.server.(selected := None), Served(actions));
    assert [] + Encode(log) == Encode(log);
    EncodeAppend(DbsLog(dbs, 0), log);
  }

  function Children(steps: seq<H.Step>): (actions: seq<Action>)
    ensures |actions| == |steps| && Undisturbed(actions)
  {
    seq(|steps|, i requires 0 <= i < |steps| => Child(steps[i]))
  }

  lemma {:induction false} ChildrenRun(s: State, steps: seq<H.Step>)
    requires s.rewrite.Some? && H.CanRun(s.rewrite.value.handoff, steps)
    requires forall i | 0 <= i < |steps| :: !steps[i].Append?
    ensures CanRun(s, Children(steps))
    ensures Run(s, Children(steps))
            == s.(rewrite := Some(s.rewrite.value.(handoff := H.Run(s.rewrite.value.handoff, steps))))
    decreases |steps|
  {
    hide H.Next, H.Enabled;
    if |steps| > 0 {
      var t := Next(s, Child(steps[0]));
      assert Children(steps)[1..] == Children(steps[1..]);
      ChildrenRun(t, steps[1..]);
    }
  }

  /** Whenever the child of a rewrite is writing, there are steps of its own that lead to its
    * completion, and then the file is what it was forked to write and all logged since. */
  lemma RewriteCanComplete(s: State) returns (actions: seq<Action>)
    requires Inv(s) && s.rewrite.Some? && s.rewrite.value.handoff.phase.Writing?
    ensures CanRun(s, actions) && Undisturbed(actions) && Served(actions) == []
    ensures var t, h := Run(s, actions), s.rewrite.value.handoff;
            && Enabled(t, Complete) && Next(t, Complete).file == h.base + h.logged
            && Next(t, Complete).server.ks == s.server.ks
  {
    hide Reloads, H.Enabled, H.Next, H.CanRun, H.Run, CanRun, Run;
    var h := s.rewrite.value.handoff;
    var steps := [H.Ask, H.Agree(true)] + H.Drain(h);
    H.CanFinish(h);
    ChildrenRun(s, steps);
    actions := Children(steps);
    NoneServed(actions);
  }

  lemma {:induction false} NoneServed(actions: seq<Action>)
    requires forall i | 0 <= i < |actions| :: actions[i].Child?
    ensures Served(actions) == []
    decreases |actions|
  {
    if |actions| > 0 {
      NoneServed(actions[1..]);
    }
  }
}
