/** Reading an append only file back, whole or cut short by a crash. */
module AofLoad {
  import opened Seqs
  import opened RespParser
  import opened Resp
  import Package

  // ---- Lines ----

  /** The length of the first line, with its end of line if there is one. */
  function LineLength(s: Bytes): (n: nat)
    ensures n <= |s| && (|s| > 0 ==> n > 0)
    decreases |s|
  {
    if |s| == 0 then 0 else if s[0] == LF then 1 else 1 + LineLength(s[1..])
  }

  lemma {:induction false} LineAt(a: Bytes, rest: Bytes)
    requires LF !in a
    ensures LineLength(a + ([LF] + rest)) == |a| + 1 && LineLength(a) == |a|
    decreases |a|
  {
    if |a| == 0 {
      assert a + ([LF] + rest) == [LF] + rest;
    } else {
      assert (a + ([LF] + rest))[0] == a[0] && (a + ([LF] + rest))[1..] == a[1..] + ([LF] + rest);
      LineAt(a[1..], rest);
    }
  }

  // ---- Reading ----

  datatype Arg = GotArg(data: Bytes, rest: Bytes) | ShortArg | BadArg

  /** One bulk string: its line, its bytes and two more. */
  function ReadArg(s: Bytes): (r: Arg)
    ensures r.GotArg? ==> |r.rest| < |s|
  {
    if |s| == 0 then ShortArg
    else if s[0] != USD then BadArg
    else
      var line, rest := s[..LineLength(s)], s[LineLength(s)..];
      var n := Number(line[1..]);
      if n < 0 then BadArg
      else if n + 2 > |rest| then ShortArg
      else GotArg(rest[..n], rest[n + 2..])
  }

  datatype Args = GotArgs(args: seq<Bytes>, rest: Bytes) | ShortArgs | BadArgs

  function ReadArgs(s: Bytes, n: nat): (r: Args)
    ensures r.GotArgs? ==> |r.args| == n && |r.rest| + n <= |s|
    decreases n
  {
    if n == 0 then GotArgs([], s)
    else
      match ReadArg(s)
      case ShortArg => ShortArgs
      case BadArg => BadArgs
      case GotArg(data, rest) =>
        match ReadArgs(rest, n - 1)
        case GotArgs(args, rest') => GotArgs([data] + args, rest')
        case ShortArgs => ShortArgs
        case BadArgs => BadArgs
  }

  /** One command, from the first byte after the last one. */
  function ReadCommand(s: Bytes): (r: Args)
    requires |s| > 0
    ensures r.GotArgs? ==> |r.args| > 0 && |r.rest| < |s|
  {
    var line, rest := s[..LineLength(s)], s[LineLength(s)..];
    if s[0] != STAR then BadArgs
    else if |line| == 1 then ShortArgs
    else if Number(line[1..]) < 1 then BadArgs
    else ReadArgs(rest, Number(line[1..]))
  }

  datatype Ending = Whole | CutShort | Malformed

  /** The commands in a file, what is left after the last of them, and why it stopped. */
  datatype Loaded = Loaded(commands: seq<seq<Bytes>>, left: Bytes, ending: Ending)

  function Load(s: Bytes): (r: Loaded)
    ensures |r.left| <= |s| && s[|s| - |r.left|..] == r.left
    decreases |s|
  {
    if |s| == 0 then Loaded([], s, Whole)
    else
      match ReadCommand(s)
      case ShortArgs => Loaded([], s, CutShort)
      case BadArgs => Loaded([], s, Malformed)
      case GotArgs(args, rest) =>
        ReadIsSuffix(s);
        var more := Load(rest);
        Loaded([args] + more.commands, more.left, more.ending)
  }

  predicate EndsWith(s: Bytes, rest: Bytes)
  {
    |rest| <= |s| && s[|s| - |rest|..] == rest
  }

  lemma EndsWithin(s: Bytes, a: Bytes, b: Bytes)
    requires EndsWith(s, a) && EndsWith(a, b)
    ensures EndsWith(s, b)
  {
  }

  lemma ArgEndsWith(s: Bytes)
    ensures ReadArg(s).GotArg? ==> EndsWith(s, ReadArg(s).rest)
    ensures EndsWith(s, s)
  {
    hide Number, LineLength;
  }

  lemma {:induction false} ArgsEndWith(s: Bytes, n: nat)
    requires ReadArgs(s, n).GotArgs?
    ensures EndsWith(s, ReadArgs(s, n).rest)
    decreases n
  {
    hide ReadArg, EndsWith;
    ArgEndsWith(s);
    if n > 0 {
      ArgsEndWith(ReadArg(s).rest, n - 1);
      EndsWithin(s, ReadArg(s).rest, ReadArgs(s, n).rest);
    }
  }

  lemma ReadIsSuffix(s: Bytes)
    requires |s| > 0 && ReadCommand(s).GotArgs?
    ensures var rest := ReadCommand(s).rest; |rest| < |s| && s[|s| - |rest|..] == rest
  {
    hide ReadArgs, Number;
    var k := LineLength(s);
    ArgsEndWith(s[k..], Number(s[..k][1..]));
    EndsWithin(s, s[k..], ReadCommand(s).rest);
  }

  // ---- What was written, and what was cut off ----

  /** The arguments of a command, without its header. */
  function Body(args: seq<Bytes>): Bytes
  {
    EncAll(Package.Bulks(args))
  }

  lemma BodyNext(args: seq<Bytes>)
    requires |args| > 0
    ensures Body(args) == Enc(Bulk(args[0])) + Body(args[1..])
  {
    assert Package.Bulks(args)[1..] == Package.Bulks(args[1..]);
  }

  /** The header line of a bulk string, up to its line feed. */
  function BulkLine(n: nat): (l: Bytes)
    ensures LF !in l && |l| > 0 && l[0] == USD
  {
    [USD] + Dec(n) + [CR]
  }

  lemma BulkParts(data: Bytes)
    ensures Enc(Bulk(data)) == BulkLine(|data|) + ([LF] + (data + CRLF))
  {
    assert CRLF == [CR] + [LF];
  }

  lemma BulkNumber(n: nat, tail: Bytes)
    requires tail == [] || tail == [LF]
    ensures Number((BulkLine(n) + tail)[1..]) == n
  {
    assert (BulkLine(n) + tail)[1..] == Dec(n) + ([CR] + tail);
    DecReads(n, [CR] + tail);
    assert (Dec(n) + ([CR] + tail))[0] == Dec(n)[0];
  }

  lemma ReadsArg(data: Bytes, more: Bytes)
    ensures ReadArg(Enc(Bulk(data)) + more) == GotArg(data, more)
  {
    hide Number, Dec, BulkLine;
    var line := BulkLine(|data|);
    var s := Enc(Bulk(data)) + more;
    BulkParts(data);
    assert s == line + ([LF] + (data + CRLF + more));
    LineAt(line, data + CRLF + more);
    assert s[..|line| + 1] == line + [LF] && s[|line| + 1..] == data + CRLF + more;
    BulkNumber(|data|, [LF]);
    assert (data + CRLF + more)[..|data|] == data && (data + CRLF + more)[|data| + 2..] == more;
  }

  /** A bulk string that the file ends inside of is a short read. */
  lemma ReadsCutArg(data: Bytes, n: nat)
    requires n < |Enc(Bulk(data))|
    ensures ReadArg(Enc(Bulk(data))[..n]) == ShortArg
  {
    hide Dec, Number, Enc;
    var line := BulkLine(|data|);
    BulkParts(data);
    var s := Enc(Bulk(data))[..n];
    if n == 0 {
    } else if n <= |line| {
      assert s == line[..n];
      LineAt(s, []);
      assert s[..n] == s && s[n..] == [];
      NotNegative(|data|, n);
    } else {
      var rest := (data + CRLF)[..n - |line| - 1];
      assert s == line + ([LF] + rest);
      LineAt(line, rest);
      assert s[..|line| + 1] == line + [LF] && s[|line| + 1..] == rest;
      BulkNumber(|data|, [LF]);
    }
  }

  lemma NotNegative(len: nat, n: nat)
    requires 0 < n <= |BulkLine(len)|
    ensures Number(BulkLine(len)[..n][1..]) >= 0
  {
    hide Digits;
    var s := BulkLine(len)[..n][1..];
    if |s| > 0 {
      assert s[0] == (Dec(len) + [CR])[0] == Dec(len)[0];
    }
  }

  lemma {:induction false} ReadsArgs(args: seq<Bytes>, more: Bytes)
    ensures ReadArgs(Body(args) + more, |args|) == GotArgs(args, more)
    decreases |args|
  {
    hide ReadArg, Enc;
    if |args| == 0 {
      assert Body(args) + more == more;
    } else {
      BodyNext(args);
      assert Body(args) + more == Enc(Bulk(args[0])) + (Body(args[1..]) + more);
      ReadsArg(args[0], Body(args[1..]) + more);
      ReadsArgs(args[1..], more);
      assert [args[0]] + args[1..] == args;
    }
  }

  lemma {:induction false} ReadsCutArgs(args: seq<Bytes>, n: nat)
    requires n < |Body(args)|
    ensures ReadArgs(Body(args)[..n], |args|) == ShortArgs
    decreases |args|
  {
    hide ReadArg, Enc;
    BodyNext(args);
    var first := Enc(Bulk(args[0]));
    if n < |first| {
      assert Body(args)[..n] == first[..n];
      ReadsCutArg(args[0], n);
    } else {
      assert Body(args)[..n] == first + Body(args[1..])[..n - |first|];
      ReadsArg(args[0], Body(args[1..])[..n - |first|]);
      ReadsCutArgs(args[1..], n - |first|);
    }
  }

  /** A command's header line, up to its line feed. */
  function HeadLine(n: nat): (l: Bytes)
    ensures LF !in l && |l| > 1 && l[0] == STAR
  {
    [STAR] + Dec(n) + [CR]
  }

  lemma CommandParts(args: seq<Bytes>)
    ensures Package.Command(args) == HeadLine(|args|) + ([LF] + Body(args))
  {
    assert CRLF == [CR] + [LF];
  }

  lemma HeadNumber(n: nat)
    ensures Number((HeadLine(n) + [LF])[1..]) == n
  {
    assert (HeadLine(n) + [LF])[1..] == Dec(n) + CRLF;
    DecReads(n, CRLF);
    assert (Dec(n) + CRLF)[0] == Dec(n)[0];
  }

  lemma HeadNumberCut(k: nat, n: nat)
    requires k > 0 && 1 < n <= |HeadLine(k)|
    ensures Number(HeadLine(k)[..n][1..]) >= 1
  {
    var s := HeadLine(k)[..n][1..];
    assert s[0] == (Dec(k) + [CR])[0] == Dec(k)[0];
    NoLeadingZero(k);
  }

  lemma ReadsCommand(args: seq<Bytes>, more: Bytes)
    requires |args| > 0
    ensures |Package.Command(args)| > 0 && ReadCommand(Package.Command(args) + more) == GotArgs(args, more)
  {
    hide ReadArgs, HeadLine, Body, Number, Package.Command;
    var line := HeadLine(|args|);
    var s := Package.Command(args) + more;
    CommandParts(args);
    assert s == line + ([LF] + (Body(args) + more));
    LineAt(line, Body(args) + more);
    assert s[..|line| + 1] == line + [LF] && s[|line| + 1..] == Body(args) + more;
    HeadNumber(|args|);
    ReadsArgs(args, more);
  }

  lemma ReadsCutCommand(args: seq<Bytes>, n: nat)
    requires |args| > 0 && 0 < n < |Package.Command(args)|
    ensures ReadCommand(Package.Command(args)[..n]) == ShortArgs
  {
    hide HeadLine, Body, Number, Package.Command;
    var line := HeadLine(|args|);
    var s := Package.Command(args)[..n];
    CommandParts(args);
    if n <= |line| {
      assert s == line[..n];
      LineAt(s, []);
      assert s[..n] == s && s[n..] == [];
      if n > 1 {
        HeadNumberCut(|args|, n);
        assert ReadArgs([], Number(s[1..])) == ShortArgs;
      }
    } else {
      var rest := Body(args)[..n - |line| - 1];
      assert s == line + ([LF] + rest);
      LineAt(line, rest);
      assert s[..|line| + 1] == line + [LF] && s[|line| + 1..] == rest;
      HeadNumber(|args|);
      ReadsCutArgs(args, n - |line| - 1);
    }
  }

  /** The bytes of a log. */
  function File(commands: seq<seq<Bytes>>): Bytes
    decreases |commands|
  {
    if |commands| == 0 then [] else Package.Command(commands[0]) + File(commands[1..])
  }

  predicate NoneEmpty(commands: seq<seq<Bytes>>)
  {
    forall i | 0 <= i < |commands| :: |commands[i]| > 0
  }

  lemma {:induction false} FileAppend(a: seq<seq<Bytes>>, b: seq<seq<Bytes>>)
    ensures File(a + b) == File(a) + File(b)
    decreases |a|
  {
    if |a| == 0 {
      assert a + b == b;
    } else {
      assert (a + b)[0] == a[0] && (a + b)[1..] == a[1..] + b;
      FileAppend(a[1..], b);
    }
  }

  /** A log comes back whole. */
  lemma {:induction false} LoadsWhole(commands: seq<seq<Bytes>>)
    requires NoneEmpty(commands)
    ensures Load(File(commands)) == Loaded(commands, [], Whole)
    decreases |commands|
  {
    if |commands| > 0 {
      hide ReadCommand, Package.Command, Load, File;
      FileFirst(commands);
      ReadsCommand(commands[0], File(commands[1..]));
      LoadGot(File(commands), commands[0], File(commands[1..]));
      LoadsWhole(commands[1..]);
      assert [commands[0]] + commands[1..] == commands;
    }
  }

  /** Of a log cut at byte `n`, the first `k` commands are whole, and just they are loaded. */
  ghost predicate CutAt(commands: seq<seq<Bytes>>, n: nat, k: nat)
  {
    && n <= |File(commands)| && k <= |commands|
    && File(commands[..k]) <= File(commands)[..n]
    && (k < |commands| ==> n < |File(commands[..k + 1])|)
    && var left := File(commands)[|File(commands[..k])|..n];
       Load(File(commands)[..n]) == Loaded(commands[..k], left, if |left| == 0 then Whole else CutShort)
  }

  /** A log that a crash cut off anywhere comes back as the commands that were whole, and
    * stops right after them: it is never taken for a file in the wrong format, and its end
    * counts as cut short exactly when something was left over. */
  lemma {:induction false} LoadsCut(commands: seq<seq<Bytes>>, n: nat) returns (k: nat)
    requires NoneEmpty(commands) && n <= |File(commands)|
    ensures k <= |commands| && File(commands[..k]) <= File(commands)[..n]
    ensures k < |commands| ==> n < |File(commands[..k + 1])|
    ensures var left := File(commands)[|File(commands[..k])|..n];
            Load(File(commands)[..n]) == Loaded(commands[..k], left, if |left| == 0 then Whole else CutShort)
  {
    hide Load, File;
    k := CutSomewhere(commands, n);
  }

  lemma {:induction false} CutSomewhere(commands: seq<seq<Bytes>>, n: nat) returns (k: nat)
    requires NoneEmpty(commands) && n <= |File(commands)|
    ensures CutAt(commands, n, k)
    decreases |commands|
  {
    hide Package.Command, Load, File, CutAt;
    if |commands| == 0 || n < |File(commands[..1])| {
      k := 0;
      CutInFirst(commands, n);
    } else {
      FileStep(commands, 0);
      FileFirst(commands);
      var m := n - |Package.Command(commands[0])|;
      var j := CutSomewhere(commands[1..], m);
      CutLater(commands, m, j);
      k := j + 1;
    }
  }

  /** One command more in front. */
  lemma CutLater(commands: seq<seq<Bytes>>, m: nat, j: nat)
    requires |commands| > 0 && |commands[0]| > 0 && CutAt(commands[1..], m, j)
    ensures CutAt(commands, |Package.Command(commands[0])| + m, j + 1)
  {
    hide Package.Command, Load, File, ReadCommand;
    var first, rest, tail := Package.Command(commands[0]), File(commands[1..]), commands[1..];
    FileFirst(commands);
    FileStep(commands, j);
    if j + 1 < |commands| {
      FileStep(commands, j + 1);
    }
    Behind(first, rest, File(tail[..j]), m);
    ReadsCommand(commands[0], rest[..m]);
    LoadGot(first + rest[..m], commands[0], rest[..m]);
    assert [commands[0]] + tail[..j] == commands[..j + 1];
  }

  lemma Behind(first: Bytes, rest: Bytes, done: Bytes, m: nat)
    requires m <= |rest| && done <= rest[..m]
    ensures (first + rest)[..|first| + m] == first + rest[..m] && first + done <= first + rest[..m]
    ensures (first + rest)[|first + done|..|first| + m] == rest[|done|..m]
  {
  }

  lemma FileFirst(commands: seq<seq<Bytes>>)
    requires |commands| > 0
    ensures File(commands) == Package.Command(commands[0]) + File(commands[1..])
  {
  }

  lemma LoadGot(s: Bytes, args: seq<Bytes>, rest: Bytes)
    requires |s| > 0 && ReadCommand(s) == GotArgs(args, rest)
    ensures Load(s) == Loaded([args] + Load(rest).commands, Load(rest).left, Load(rest).ending)
  {
    hide ReadCommand;
  }

  lemma CutInFirst(commands: seq<seq<Bytes>>, n: nat)
    requires NoneEmpty(commands) && n <= |File(commands)| && (|commands| == 0 || n < |File(commands[..1])|)
    ensures CutAt(commands, n, 0)
  {
    hide Package.Command, ReadCommand;
    var s := File(commands)[..n];
    assert commands[..0] == [] && File([]) == [];
    if n > 0 {
      FileOne(commands[0]);
      assert commands[..1] == [commands[0]];
      assert s == Package.Command(commands[0])[..n];
      ReadsCutCommand(commands[0], n);
    }
    assert File(commands)[0..n] == s;
  }

  lemma FileOne(command: seq<Bytes>)
    ensures File([command]) == Package.Command(command)
  {
    assert [command][1..] == [];
  }

  lemma FileStep(commands: seq<seq<Bytes>>, j: nat)
    requires j < |commands|
    ensures File(commands[..j + 1]) == Package.Command(commands[0]) + File(commands[1..][..j])
  {
    assert commands[..j + 1][1..] == commands[1..][..j];
  }

  // ---- The loader itself ----

  /** The arguments of one command, read one by one from `start`. */
  method ReadArgv(file: Bytes, start: nat, argc: nat) returns (args: seq<Bytes>, next: nat, ending: Ending)
    requires start <= |file|
    ensures next <= |file|
    ensures match ReadArgs(file[start..], argc)
            case GotArgs(all, rest) => ending == Whole && args == all && file[next..] == rest
            case ShortArgs => ending == CutShort
            case BadArgs => ending == Malformed
  {
    hide ReadArg, ReadArgs;
    args, next, ending := [], start, Whole;
    var j := 0;
    while j < argc
      invariant j <= argc && next <= |file| && ending == Whole
      invariant ReadArgs(file[start..], argc) == Joined(args, ReadArgs(file[next..], argc - j))
    {
      ArgIn(file, next);
      JoinedNext(args, file[next..], argc - j);
      if next == |file| { return args, next, CutShort; }
      if file[next] != USD { return args, next, Malformed; }
      var data := next + LineLength(file[next..]);
      var len := Number(file[next + 1..data]);
      if len < 0 { return args, next, Malformed; }
      if data + len > |file| { return args, next, CutShort; }
      if data + len + 2 > |file| { return args, next, CutShort; }
      args := args + [file[data..data + len]];
      next := data + len + 2;
      j := j + 1;
    }
    NoMoreArgs(args, file[next..]);
  }

  /** Arguments read before the rest of them. */
  function Joined(args: seq<Bytes>, more: Args): Args
  {
    if more.GotArgs? then GotArgs(args + more.args, more.rest) else more
  }

  lemma NoMoreArgs(args: seq<Bytes>, s: Bytes)
    ensures Joined(args, ReadArgs(s, 0)) == GotArgs(args, s)
  {
    assert args + [] == args;
  }

  lemma JoinedNext(args: seq<Bytes>, s: Bytes, n: nat)
    requires n > 0
    ensures match ReadArg(s)
            case GotArg(data, rest) => Joined(args, ReadArgs(s, n)) == Joined(args + [data], ReadArgs(rest, n - 1))
            case ShortArg => Joined(args, ReadArgs(s, n)) == ShortArgs
            case BadArg => Joined(args, ReadArgs(s, n)) == BadArgs
  {
    hide ReadArg;
    if ReadArg(s).GotArg? {
      var more := ReadArgs(ReadArg(s).rest, n - 1);
      if more.GotArgs? {
        assert args + ([ReadArg(s).data] + more.args) == args + [ReadArg(s).data] + more.args;
      }
    }
  }

  lemma ArgIn(file: Bytes, next: nat)
    requires next <= |file|
    ensures next == |file| ==> ReadArg(file[next..]) == ShortArg
    ensures next < |file| ==>
              var data := next + LineLength(file[next..]);
              var len := Number(file[next + 1..data]);
              && next < data <= |file|
              && ReadArg(file[next..]) ==
                 if file[next] != USD || len < 0 then BadArg
                 else if data + len + 2 > |file| then ShortArg
                 else GotArg(file[data..data + len], file[data + len + 2..])
  {
    hide Number, LineLength;
    if next < |file| {
      var s := file[next..];
      var data := next + LineLength(s);
      assert s[..LineLength(s)][1..] == file[next + 1..data] && s[LineLength(s)..] == file[data..];
      var len := Number(file[next + 1..data]);
      if 0 <= len && data + len + 2 <= |file| {
        assert file[data..][..len] == file[data..data + len] && file[data..][len + 2..] == file[data + len + 2..];
      }
    }
  }

  /** Read a file command by command, remembering where the last whole one ended. */
  method LoadAppendOnlyFile(file: Bytes) returns (commands: seq<seq<Bytes>>, validUpTo: nat, ending: Ending)
    ensures validUpTo <= |file|
    ensures Load(file) == Loaded(commands, file[validUpTo..], ending)
  {
    hide ReadArgs, Load, ReadCommand, Number, LineLength;
    commands, validUpTo := [], 0;
    assert file[0..] == file;
    while true
      invariant validUpTo <= |file|
      invariant Load(file) == After(commands, Load(file[validUpTo..]))
      decreases |file| - validUpTo
    {
      LoadNext(commands, file[validUpTo..]);
      CommandIn(file, validUpTo);
      if validUpTo == |file| { return commands, validUpTo, Whole; }
      if file[validUpTo] != STAR { return commands, validUpTo, Malformed; }
      var next := validUpTo + LineLength(file[validUpTo..]);
      if next == validUpTo + 1 { return commands, validUpTo, CutShort; }
      var argc := Number(file[validUpTo + 1..next]);
      if argc < 1 { return commands, validUpTo, Malformed; }
      var args, end, how := ReadArgv(file, next, argc);
      if how != Whole { return commands, validUpTo, how; }
      assert |file[end..]| < |file[validUpTo..]|;
      commands := commands + [args];
      validUpTo := end;
    }
  }

  /** Commands read before the rest of the file. */
  function After(commands: seq<seq<Bytes>>, more: Loaded): Loaded
  {
    Loaded(commands + more.commands, more.left, more.ending)
  }

  lemma LoadNext(commands: seq<seq<Bytes>>, s: Bytes)
    ensures |s| == 0 ==> After(commands, Load(s)) == Loaded(commands, s, Whole)
    ensures |s| > 0 ==>
              match ReadCommand(s)
              case ShortArgs => After(commands, Load(s)) == Loaded(commands, s, CutShort)
              case BadArgs => After(commands, Load(s)) == Loaded(commands, s, Malformed)
              case GotArgs(args, rest) => After(commands, Load(s)) == After(commands + [args], Load(rest))
  {
    hide ReadCommand;
    assert commands + [] == commands;
    if |s| > 0 && ReadCommand(s).GotArgs? {
      var args, more := ReadCommand(s).args, Load(ReadCommand(s).rest);
      assert commands + ([args] + more.commands) == commands + [args] + more.commands;
    }
  }

  lemma CommandIn(file: Bytes, at: nat)
    requires at <= |file|
    ensures at < |file| ==>
              var next := at + LineLength(file[at..]);
              && at < next <= |file|
              && ReadCommand(file[at..]) ==
                 if file[at] != STAR then BadArgs
                 else if next == at + 1 then ShortArgs
                 else if Number(file[at + 1..next]) < 1 then BadArgs
                 else ReadArgs(file[next..], Number(file[at + 1..next]))
  {
    hide ReadArgs, Number, LineLength;
    if at < |file| {
      var s := file[at..];
      var next := at + LineLength(s);
      assert s[..LineLength(s)] == file[at..next] && s[LineLength(s)..] == file[next..];
      assert file[at..next][1..] == file[at + 1..next];
    }
  }
}
