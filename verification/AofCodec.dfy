/** Log entries as arguments of a command, and as bytes. */
module AofCodec {
  import opened Seqs
  import RespParser
  import opened Resp
  import opened AofLog
  import AofLoad
  import Package

  const SELECT: Bytes := [83, 69, 76, 69, 67, 84]
  const SET: Bytes := [83, 69, 84]
  const PEXPIREAT: Bytes := [80, 69, 88, 80, 73, 82, 69, 65, 84]
  const DEL: Bytes := [68, 69, 76]
  const RPUSH: Bytes := [82, 80, 85, 83, 72]
  const SADD: Bytes := [83, 65, 68, 68]
  const ZADD: Bytes := [90, 65, 68, 68]
  const HMSET: Bytes := [72, 77, 83, 69, 84]
  const TIMEFLAG: Bytes := [116, 105, 109, 101, 102, 108, 97, 103]

  function Name(kind: Kind): Bytes
  {
    match kind
    case RPush => RPUSH
    case SAdd => SADD
    case ZAdd => ZADD
    case HMSet => HMSET
  }

  function Args(c: Command): (args: seq<Bytes>)
    ensures |args| > 0
  {
    match c
    case Select(db) => [SELECT, Dec(db)]
    case SetText(key, value) => [SET, key, value]
    case PExpireAt(key, when) => [PEXPIREAT, key, DecInt(when)]
    case Del(keys) => [DEL] + keys
    case Add(kind, key, items) => [Name(kind), key] + Flatten(items)
    case TimeFlag(ms) => [TIMEFLAG, DecInt(ms)]
  }

  /** The arguments of each entry, in their order and spelled out. */
  lemma ArgsSpelled(db: nat, key: Bytes, value: Bytes, when: int, keys: seq<Bytes>, items: seq<seq<Bytes>>)
    ensures Args(Select(db)) == [Ascii("SELECT"), Dec(db)]
    ensures Args(SetText(key, value)) == [Ascii("SET"), key, value]
    ensures Args(PExpireAt(key, when)) == [Ascii("PEXPIREAT"), key, DecInt(when)]
    ensures Args(Del(keys)) == [Ascii("DEL")] + keys
    ensures Args(Add(RPush, key, items)) == [Ascii("RPUSH"), key] + Flatten(items)
    ensures Args(Add(SAdd, key, items)) == [Ascii("SADD"), key] + Flatten(items)
    ensures Args(Add(ZAdd, key, items)) == [Ascii("ZADD"), key] + Flatten(items)
    ensures Args(Add(HMSet, key, items)) == [Ascii("HMSET"), key] + Flatten(items)
    ensures Args(TimeFlag(when)) == [Ascii("timeflag"), DecInt(when)]
  {
    NamesSpelled();
    hide SELECT, SET, PEXPIREAT, DEL, RPUSH, SADD, ZADD, HMSET, TIMEFLAG, Dec, DecInt, Ascii;
  }

  lemma NamesSpelled()
    ensures SELECT == Ascii("SELECT") && SET == Ascii("SET") && PEXPIREAT == Ascii("PEXPIREAT") && DEL == Ascii("DEL")
    ensures RPUSH == Ascii("RPUSH") && SADD == Ascii("SADD") && ZADD == Ascii("ZADD") && HMSET == Ascii("HMSET")
    ensures TIMEFLAG == Ascii("timeflag")
  {
  }

  // ---- Back from arguments ----

  /** Arguments in groups of `w`, if they come out even. */
  function Grouped(args: seq<Bytes>, w: nat): Option<seq<seq<Bytes>>>
    requires w > 0
    decreases |args|
  {
    if |args| == 0 then Some([])
    else if |args| < w then None
    else
      match Grouped(args[w..], w)
      case None => None
      case Some(more) => Some([args[..w]] + more)
  }

  function KindOf(name: Bytes): Option<Kind>
  {
    if name == RPUSH then Some(RPush)
    else if name == SADD then Some(SAdd)
    else if name == ZADD then Some(ZAdd)
    else if name == HMSET then Some(HMSet)
    else None
  }

  /** The command an argument vector stands for; none if there is no such command or it has
    * the wrong number of arguments. */
  function Parse(args: seq<Bytes>): Option<Command>
  {
    if |args| == 0 then None
    else if args[0] == SELECT then
      if |args| == 2 && Number(args[1]) >= 0 then Some(Select(Number(args[1]))) else None
    else if args[0] == SET then if |args| == 3 then Some(SetText(args[1], args[2])) else None
    else if args[0] == PEXPIREAT then if |args| == 3 then Some(PExpireAt(args[1], Number(args[2]))) else None
    else if args[0] == DEL then if |args| > 1 then Some(Del(args[1..])) else None
    else if args[0] == TIMEFLAG then if |args| == 2 then Some(TimeFlag(Number(args[1]))) else None
    else if KindOf(args[0]).None? || |args| < 3 then None
    else
      match Grouped(args[2..], Width(KindOf(args[0]).value))
      case None => None
      case Some(items) => Some(Add(KindOf(args[0]).value, args[1], items))
  }

  lemma {:induction false} GroupsBack(items: seq<seq<Bytes>>, w: nat)
    requires w > 0 && forall i | 0 <= i < |items| :: |items[i]| == w
    ensures Grouped(Flatten(items), w) == Some(items)
    decreases |items|
  {
    if |items| > 0 {
      GroupsBack(items[1..], w);
      var flat := Flatten(items);
      assert flat[..w] == items[0] && flat[w..] == Flatten(items[1..]);
      assert [items[0]] + items[1..] == items;
    }
  }

  lemma Names(kind: Kind)
    ensures KindOf(Name(kind)) == Some(kind)
    ensures Name(kind) !in {SELECT, SET, PEXPIREAT, DEL, TIMEFLAG}
  {
    assert RPUSH[0] == 82 && SADD[1] == 65 && ZADD[0] == 90 && HMSET[0] == 72;
    assert SELECT[1] == 69 && SET[1] == 69 && PEXPIREAT[0] == 80 && DEL[0] == 68 && TIMEFLAG[0] == 116;
  }

  lemma OtherNames()
    ensures SET != SELECT && PEXPIREAT != SELECT && PEXPIREAT != SET && DEL != SELECT && DEL != SET && DEL != PEXPIREAT
    ensures TIMEFLAG !in {SELECT, SET, PEXPIREAT, DEL}
  {
    assert SELECT[0] == 83 && |SELECT| == 6 && SET[0] == 83 && |SET| == 3;
    assert PEXPIREAT[0] == 80 && DEL[0] == 68 && TIMEFLAG[0] == 116;
  }

  /** Every entry the log can hold is read back as itself. */
  lemma ParsesBack(c: Command)
    requires Sound(c)
    ensures Parse(Args(c)) == Some(c)
  {
    hide Name, KindOf, Number, DecInt, Dec, SELECT, SET, PEXPIREAT, DEL, TIMEFLAG, RPUSH, SADD, ZADD, HMSET;
    OtherNames();
    match c
    case Select(db) =>
      NumberReads(db);
      NatIsInt(db);
    case SetText(key, value) =>
    case PExpireAt(key, when) => NumberReads(when);
    case Del(keys) => assert Args(c)[1..] == keys;
    case Add(kind, key, items) =>
      Names(kind);
      var args := Args(c);
      assert args[0] == Name(kind) && args[1] == key && args[2..] == Flatten(items);
      assert Flatten(items) == items[0] + Flatten(items[1..]);
      GroupsBack(items, Width(kind));
    case TimeFlag(ms) => NumberReads(ms);
  }

  lemma NatIsInt(n: nat)
    ensures DecInt(n) == Dec(n)
  {
  }

  // ---- Whole logs ----

  function ArgsAll(log: seq<Command>): (r: seq<seq<Bytes>>)
    ensures |r| == |log| && AofLoad.NoneEmpty(r)
  {
    seq(|log|, i requires 0 <= i < |log| => Args(log[i]))
  }

  /** The bytes of a log. */
  function Encode(log: seq<Command>): Bytes
  {
    AofLoad.File(ArgsAll(log))
  }

  lemma EncodeAppend(a: seq<Command>, b: seq<Command>)
    ensures Encode(a + b) == Encode(a) + Encode(b)
  {
    assert ArgsAll(a + b) == ArgsAll(a) + ArgsAll(b);
    AofLoad.FileAppend(ArgsAll(a), ArgsAll(b));
  }

  lemma EncodeNone()
    ensures Encode([]) == []
  {
  }

  lemma EncodeOne(c: Command)
    ensures Encode([c]) == Package.Command(Args(c))
  {
    assert ArgsAll([c]) == [Args(c)];
    AofLoad.FileOne(Args(c));
  }

  /** The commands of a list of argument vectors, up to the first that is none. */
  function ParseAll(commands: seq<seq<Bytes>>): (r: Option<seq<Command>>)
    decreases |commands|
  {
    if |commands| == 0 then Some([])
    else
      match (Parse(commands[0]), ParseAll(commands[1..]))
      case (Some(c), Some(more)) => Some([c] + more)
      case _ => None
  }

  lemma {:induction false} ParsesAllBack(log: seq<Command>)
    requires AllSound(log)
    ensures ParseAll(ArgsAll(log)) == Some(log)
    decreases |log|
  {
    if |log| > 0 {
      hide Parse, Args;
      ParsesBack(log[0]);
      ParsesAllBack(log[1..]);
      assert ArgsAll(log)[1..] == ArgsAll(log[1..]);
      assert [log[0]] + log[1..] == log;
    }
  }

  /** The log a file holds. */
  function Decode(file: Bytes): Option<seq<Command>>
  {
    ParseAll(AofLoad.Load(file).commands)
  }

  /** Writing a log and loading the file gives the log. */
  lemma DecodesBack(log: seq<Command>)
    requires AllSound(log)
    ensures Decode(Encode(log)) == Some(log)
    ensures AofLoad.Load(Encode(log)).ending == AofLoad.Whole
  {
    AofLoad.LoadsWhole(ArgsAll(log));
    ParsesAllBack(log);
  }

  /** A file that ends anywhere in a log holds a first part of that log. */
  lemma DecodesCut(log: seq<Command>, n: nat) returns (k: nat)
    requires AllSound(log) && n <= |Encode(log)|
    ensures k <= |log| && Decode(Encode(log)[..n]) == Some(log[..k])
    ensures |Encode(log[..k])| <= n && (k < |log| ==> n < |Encode(log[..k + 1])|)
    ensures AofLoad.Load(Encode(log)[..n]).ending != AofLoad.Malformed
    ensures Encode(log[..k]) + AofLoad.Load(Encode(log)[..n]).left == Encode(log)[..n]
  {
    hide AofLoad.Load, AofLoad.File, ParseAll, ArgsAll;
    k := AofLoad.LoadsCut(ArgsAll(log), n);
    ArgsPrefix(log, k);
    if k < |log| {
      ArgsPrefix(log, k + 1);
    }
    ParsesAllBack(log[..k]);
  }

  lemma ArgsPrefix(log: seq<Command>, k: nat)
    requires k <= |log|
    ensures ArgsAll(log)[..k] == ArgsAll(log[..k])
  {
  }

  // ---- Writing entries ----

  /** Append one command, argument by argument. */
  method CatGenericCommand(dst: Bytes, argv: seq<Bytes>) returns (r: Bytes)
    ensures r == dst + Package.Command(argv)
  {
    hide Package.Command, Enc;
    r := dst + ArrayHead(|argv|);
    var j := 0;
    while j < |argv|
      invariant j <= |argv| && r == dst + Package.Written(argv, j)
    {
      Package.Regroup(r, [RespParser.USD], Dec(|argv[j]|), CRLF, argv[j]);
      Package.WrittenNext(argv, j);
      r := r + [RespParser.USD] + Dec(|argv[j]|) + CRLF + argv[j] + CRLF;
      j := j + 1;
    }
    Package.WrittenAll(argv);
  }
}
