/** Building a command and reading it back. */
module Package {
  import opened Seqs
  import opened Resp
  import opened RespParser
  import opened RespFraming

  // ---- Encoding ----

  /** The number of decimal digits of `v`, four at a time. */
  method CountDigits(v: nat) returns (n: nat)
    ensures n == |Dec(v)|
  {
    var w := v;
    n := 1;
    while true
      invariant n - 1 + |Dec(w)| == |Dec(v)|
      decreases w
    {
      SmallDigits(w);
      if w < 10 { return n; }
      if w < 100 { return n + 1; }
      if w < 1000 { return n + 2; }
      if w < 10000 { return n + 3; }
      DropFour(w);
      w := w / 10000;
      n := n + 4;
    }
  }

  lemma SmallDigits(w: nat)
    ensures w < 10 ==> |Dec(w)| == 1
    ensures 10 <= w < 100 ==> |Dec(w)| == 2
    ensures 100 <= w < 1000 ==> |Dec(w)| == 3
    ensures 1000 <= w < 10000 ==> |Dec(w)| == 4
  {
    assert w >= 10 ==> |Dec(w)| == |Dec(w / 10)| + 1;
    assert w / 10 >= 10 ==> |Dec(w / 10)| == |Dec(w / 10 / 10)| + 1;
    assert w / 10 / 10 >= 10 ==> |Dec(w / 10 / 10)| == |Dec(w / 10 / 10 / 10)| + 1;
  }

  lemma DropFour(w: nat)
    requires w >= 10000
    ensures |Dec(w)| == |Dec(w / 10000)| + 4
  {
    assert w / 10 / 10 / 10 / 10 == w / 10000;
    assert |Dec(w)| == |Dec(w / 10)| + 1;
    assert |Dec(w / 10)| == |Dec(w / 10 / 10)| + 1;
    assert |Dec(w / 10 / 10)| == |Dec(w / 10 / 10 / 10)| + 1;
    assert |Dec(w / 10 / 10 / 10)| == |Dec(w / 10 / 10 / 10 / 10)| + 1;
  }

  function Bulks(args: seq<Bytes>): (vs: seq<Value>)
    ensures |vs| == |args| && forall i | 0 <= i < |args| :: vs[i] == Bulk(args[i])
  {
    seq(|args|, i requires 0 <= i < |args| => Bulk(args[i]))
  }

  /** A command: an array of bulk strings. */
  function Command(args: seq<Bytes>): Bytes
  {
    Enc(Array(Bulks(args)))
  }

  /** The first `k` arguments, written out. */
  function Written(args: seq<Bytes>, k: nat): (r: Bytes)
    requires k <= |args|
  {
    if k == 0 then ArrayHead(|args|) else Written(args, k - 1) + Enc(Bulk(args[k - 1]))
  }

  lemma {:induction false} EncAllSplit(vs: seq<Value>, k: nat)
    requires k <= |vs|
    ensures EncAll(vs) == EncAll(vs[..k]) + EncAll(vs[k..])
    decreases k
  {
    if k == 0 {
      assert vs[..0] == [] && vs[0..] == vs;
    } else {
      var head := vs[..k];
      calc {
        EncAll(vs);
        Enc(vs[0]) + EncAll(vs[1..]);
        { EncAllSplit(vs[1..], k - 1); }
        Enc(vs[0]) + (EncAll(vs[1..][..k - 1]) + EncAll(vs[1..][k - 1..]));
        { assert vs[1..][..k - 1] == head[1..] && vs[1..][k - 1..] == vs[k..]; }
        Enc(head[0]) + (EncAll(head[1..]) + EncAll(vs[k..]));
        Enc(head[0]) + EncAll(head[1..]) + EncAll(vs[k..]);
        EncAll(head) + EncAll(vs[k..]);
      }
    }
  }

  lemma {:induction false} WrittenIs(args: seq<Bytes>, k: nat)
    requires k <= |args|
    ensures Written(args, k) == ArrayHead(|args|) + EncAll(Bulks(args)[..k])
    decreases k
  {
    hide Enc, ArrayHead;
    var vs := Bulks(args);
    if k > 0 {
      WrittenIs(args, k - 1);
      EncAllSplit(vs[..k], k - 1);
      assert vs[..k][..k - 1] == vs[..k - 1] && vs[..k][k - 1..] == [vs[k - 1]];
      assert EncAll([vs[k - 1]]) == Enc(vs[k - 1]) + EncAll([vs[k - 1]][1..]);
    }
  }

  lemma WrittenAll(args: seq<Bytes>)
    ensures Written(args, |args|) == Command(args)
  {
    WrittenIs(args, |args|);
    assert Bulks(args)[..|args|] == Bulks(args);
  }

  lemma {:induction false} WrittenGrows(args: seq<Bytes>, i: nat, k: nat)
    requires i <= k <= |args|
    ensures Written(args, i) <= Written(args, k)
    decreases k
  {
    if i < k {
      WrittenGrows(args, i, k - 1);
    }
  }

  /** Copy `s` into the buffer at `pos`. */
  method Put(cmd: array<byte>, pos: nat, s: Bytes) returns (next: nat)
    requires pos + |s| <= cmd.Length
    modifies cmd
    ensures next == pos + |s| && cmd[..next] == old(cmd[..pos]) + s
  {
    for i := 0 to |s|
      invariant cmd[..pos + i] == old(cmd[..pos]) + s[..i]
    {
      cmd[pos + i] := s[i];
    }
    next := pos + |s|;
  }

  lemma WrittenNext(args: seq<Bytes>, j: nat)
    requires j < |args|
    ensures Written(args, j + 1) == Written(args, j) + ([USD] + BulkRest(args[j]))
    ensures |Written(args, j + 1)| == |Written(args, j)| + (1 + |Dec(|args[j]|)| + 2 + |args[j]| + 2)
  {
  }

  /** One argument: its length line, its bytes and a line end. */
  method PutArg(cmd: array<byte>, pos: nat, arg: Bytes) returns (next: nat)
    requires pos + (1 + |Dec(|arg|)| + 2 + |arg| + 2) <= cmd.Length
    modifies cmd
    ensures next == pos + (1 + |Dec(|arg|)| + 2 + |arg| + 2)
    ensures cmd[..next] == old(cmd[..pos]) + ([USD] + BulkRest(arg))
  {
    hide Dec;
    next := Put(cmd, pos, [USD] + Dec(|arg|) + CRLF);
    next := Put(cmd, next, arg);
    next := Put(cmd, next, [CR]);
    next := Put(cmd, next, [LF]);
  }

  /** Build a command in a buffer of its precomputed length and one byte more for the
    * terminator. */
  method PackageMsg(args: seq<Bytes>) returns (cmd: array<byte>, used: nat)
    ensures used == |Command(args)| && used + 1 == cmd.Length && cmd[..used] == Command(args) && cmd[used] == 0
  {
    WrittenAll(args);
    var digits := CountDigits(|args|);
    var total := 1 + digits + 2;
    assert total == |Written(args, 0)|;
    hide Dec, Command;
    for j := 0 to |args|
      invariant total == |Written(args, j)|
    {
      WrittenNext(args, j);
      digits := CountDigits(|args[j]|);
      total := total + (1 + digits + 2 + |args[j]| + 2);
    }
    cmd := new byte[total + 1](_ => 0);
    WrittenGrows(args, 0, |args|);
    var pos := Put(cmd, 0, ArrayHead(|args|));
    for j := 0 to |args|
      invariant pos == |Written(args, j)| < cmd.Length == |Written(args, |args|)| + 1
      invariant cmd[..pos] == Written(args, j)
    {
      WrittenGrows(args, j + 1, |args|);
      WrittenNext(args, j);
      pos := PutArg(cmd, pos, args[j]);
    }
    cmd[pos] := 0;
    used := pos;
  }

  // ---- Reading it back ----

  /** A capital letter as a small one. */
  function Lower(name: Bytes): (r: Bytes)
    ensures |r| == |name|
  {
    seq(|name|, i requires 0 <= i < |name| =>
      if Ascii("A")[0] <= name[i] <= Ascii("Z")[0] then name[i] + 32 else name[i])
  }

  /** The argument that holds the key: the fourth for EVAL and EVALSHA in any mix of case, the second
    * otherwise. */
  function KeyArg(args: seq<Bytes>): (i: nat)
    requires |args| > 0
  {
    if Lower(args[0]) == Ascii("eval") || Lower(args[0]) == Ascii("evalsha") then 3 else 1
  }

  /** The comparison of the code knows just these two names. */
  lemma EvalNames(name: Bytes)
    ensures IsEval(name) <==> Lower(name) == Ascii("eval") || Lower(name) == Ascii("evalsha")
  {
    var low := Lower(name);
    assert |name| == 4 ==> (low == Ascii("eval") <==> low[0] == 101 && low[1] == 118 && low[2] == 97 && low[3] == 108);
    assert |name| == 7 ==>
        (low == Ascii("evalsha") <==> low[0] == 101 && low[1] == 118 && low[2] == 97 && low[3] == 108 && low[4] == 115
                                      && low[5] == 104 && low[6] == 97);
  }

  /** Where the bytes of argument `i` begin. */
  function ArgOffset(args: seq<Bytes>, i: nat): (p: nat)
    requires i < |args|
  {
    |Written(args, i)| + 1 + |Dec(|args[i]|)| + 2
  }

  lemma ArgAt(args: seq<Bytes>, i: nat)
    requires i < |args|
    ensures ArgOffset(args, i) + |args[i]| + 2 == |Written(args, i + 1)| <= |Command(args)|
    ensures Command(args)[ArgOffset(args, i)..ArgOffset(args, i) + |args[i]|] == args[i]
  {
    hide Command, Written, Dec, Enc;
    WrittenAll(args);
    WrittenGrows(args, i + 1, |args|);
    WrittenNext(args, i);
    ArgPlace(Command(args), Written(args, i), Dec(|args[i]|), args[i]);
  }

  lemma ArgPlace(whole: Bytes, w: Bytes, d: Bytes, arg: Bytes)
    requires w + ([USD] + (d + CRLF + arg + CRLF)) <= whole
    ensures |w| + 1 + |d| + 2 + |arg| + 2 <= |whole|
    ensures whole[|w| + 1 + |d| + 2..|w| + 1 + |d| + 2 + |arg|] == arg
  {
    Regroup(w, [USD], d, CRLF, arg);
    MiddleOf(whole, w + [USD] + d + CRLF, arg, CRLF);
  }

  lemma Regroup(a: Bytes, b: Bytes, c: Bytes, d: Bytes, e: Bytes)
    ensures a + (b + (c + d + e + d)) == a + b + c + d + e + d
  {
  }

  lemma MiddleOf(whole: Bytes, a: Bytes, b: Bytes, c: Bytes)
    requires a + b + c <= whole
    ensures whole[|a|..|a| + |b|] == b
  {
    assert whole[..|a + b + c|] == a + b + c;
    assert (a + b + c)[|a|..|a| + |b|] == b;
    assert whole[|a|..|a| + |b|] == whole[..|a + b + c|][|a|..|a| + |b|];
  }

  /** What has been noted about command and key after `i` whole arguments. */
  ghost predicate KeyState(args: seq<Bytes>, i: nat, k: Key)
    requires i <= |args|
  {
    && k.nowLine == i
    && (i == 0 ==> k == NO_KEY)
    && (i > 0 ==>
          && k.cmd == CommandAt(ArgOffset(args, 0)) && k.cmdLen == |args[0]|
          && k.inLines == KeyArg(args) + 1
          && (i <= KeyArg(args) ==> k.start.None? && k.len == 0 && (k.line <==> i == KeyArg(args)))
          && (i > KeyArg(args) ==>
                && k.start == Some(ArgOffset(args, KeyArg(args)))
                && (args[KeyArg(args)] != [] ==> k.len == |args[KeyArg(args)]|)
                && (args[KeyArg(args)] == [] ==> (k.len == 0 <==> i == KeyArg(args) + 1))))
  }

  /** The notes over one more argument. */
  lemma KeyOverArg(args: seq<Bytes>, i: nat, k: Key)
    requires i < |args| && KeyState(args, i, k)
    ensures var p := ArgOffset(args, i);
            KeyState(args, i + 1,
              NextLine(Command(args), KeyEnd(Noted(k, p, |args[i]|), p + |args[i]| + 1), p + |args[i]| + 2))
  {
    hide Command, Dec, Written;
    EvalNames(args[0]);
    hide IsEval, Lower;
    ArgAt(args, 0);
    ArgAt(args, i);
    if i > KeyArg(args) {
      ArgAt(args, KeyArg(args));
      WrittenGrows(args, KeyArg(args) + 1, i);
    } else if i > 0 {
      WrittenGrows(args, 1, i);
    }
  }

  /** The reader after `i` whole arguments. */
  ghost predicate AtArg(args: seq<Bytes>, i: nat, m: Msg)
    requires i <= |args|
  {
    && m.Msg? && m.start == 0 && m.len == |Written(args, i)| && m.need == |args| - i
    && m.st == (if i == |args| then End else ReadingLine)
    && KeyState(args, i, m.key)
  }

  lemma {:induction false} ReadArgs(args: seq<Bytes>, i: nat, m: Msg) returns (r: Msg)
    requires i <= |args| && AtArg(args, i, m)
    ensures AtArg(args, |args|, r) && Pos(m) <= |Command(args)| && Feed(Command(args), m) == Some(r)
    decreases |args| - i
  {
    hide Command, Enc, Written, KeyState, Feed;
    var buf := Command(args);
    WrittenAll(args);
    WrittenGrows(args, i, |args|);
    if i == |args| {
      r := m;
      EndIsEnd(buf, m);
    } else {
      var k := ReadArg(args, i, m);
      r := ReadArgs(args, i + 1, k);
      FeedSteps(buf, m, |Enc(Bulk(args[i]))|);
    }
  }

  lemma EndIsEnd(buf: Bytes, m: Msg)
    requires WellFormed(m) && m.st.End? && Pos(m) <= |buf|
    ensures Feed(buf, m) == Some(m)
  {
  }

  lemma ReadArg(args: seq<Bytes>, i: nat, m: Msg) returns (r: Msg)
    requires i < |args| && AtArg(args, i, m)
    ensures AtArg(args, i + 1, r) && Goes(Command(args), m, Enc(Bulk(args[i])), r)
  {
    hide Goes, OwnByte, Command, Written, Dec, KeyState, AfterBulk, Ahead, Enc;
    var buf := Command(args);
    var data := args[i];
    var rest := BulkRest(data);
    var k := m.(st := UsdNum, argLen := 0, len := m.len + 1);
    r := AfterBulk(buf, k, data);
    AfterArg(args, i, m);
    ArgAhead(args, i, m);
    BulkBytes(buf, m, data);
    AheadSplit(buf, m, [USD], rest);
    GoesByte(buf, m, USD);
    BulkLine(buf, k, data);
    GoesThrough(buf, m, [USD], k, rest, r);
  }

  lemma BulkBytes(buf: Bytes, m: Msg, data: Bytes)
    requires m.Msg? && m.st.ReadingLine?
    ensures OwnByte(buf, m, USD) == Some(m.(st := UsdNum, argLen := 0, len := m.len + 1))
    ensures Enc(Bulk(data)) == [USD] + BulkRest(data)
  {
  }

  lemma AfterArg(args: seq<Bytes>, i: nat, m: Msg)
    requires i < |args| && AtArg(args, i, m)
    ensures AtArg(args, i + 1, AfterBulk(Command(args), m.(st := UsdNum, argLen := 0, len := m.len + 1), args[i]))
  {
    hide KeyState, Command, Written, Dec, NextLine, KeyEnd, Noted;
    WrittenNext(args, i);
    KeyOverArg(args, i, m.key);
  }

  lemma ArgAhead(args: seq<Bytes>, i: nat, m: Msg)
    requires i < |args| && AtArg(args, i, m)
    ensures Ahead(Command(args), m, Enc(Bulk(args[i])))
  {
    hide Command, Enc, KeyState;
    WrittenAll(args);
    WrittenGrows(args, i + 1, |args|);
    var w := Written(args, i + 1);
    assert w == Written(args, i) + Enc(Bulk(args[i]));
    hide Written;
    assert Command(args)[..|w|] == w;
  }

  /** A packaged command reads back whole: the reader ends exactly at its last byte, the
    * command is the first argument, and the key is found if and only if it is not empty or
    * is the last argument. */
  lemma ReadsBack(args: seq<Bytes>) returns (r: Msg)
    requires |args| > 0
    ensures Feed(Command(args), Fresh(0)) == Some(r) && r.Msg? && r.st.End? && r.len == |Command(args)|
    ensures r.key.cmd.CommandAt? && r.key.cmdLen == |args[0]|
    ensures r.key.cmd.offset + r.key.cmdLen <= |Command(args)|
            && Command(args)[r.key.cmd.offset..r.key.cmd.offset + r.key.cmdLen] == args[0]
    ensures var n := KeyArg(args);
            if n >= |args| then r.key.start.None? && r.key.len == 0
            else
              && r.key.start.Some? && r.key.start.value + |args[n]| <= |Command(args)|
              && Command(args)[r.key.start.value..r.key.start.value + |args[n]|] == args[n]
              && (r.key.len == |args[n]| <==> args[n] != [] || n == |args| - 1)
  {
    hide Feed, Command, Written, Dec, AfterHeader;
    HeaderRead(args);
    r := ReadArgs(args, 0, AfterHeader(0, |args|));
    WrittenAll(args);
    ArgAt(args, 0);
    if KeyArg(args) < |args| {
      ArgAt(args, KeyArg(args));
    }
  }

  lemma HeaderRead(args: seq<Bytes>)
    requires |args| > 0
    ensures var m := AfterHeader(0, |args|);
            && AtArg(args, 0, m) && WellFormed(m) && Pos(m) <= |Command(args)|
            && Feed(Command(args), Fresh(0)) == Feed(Command(args), m)
  {
    HeaderBytes(args);
    hide Feed, Command, Written, Dec, ArrayHead;
    HeaderAhead(args);
    ArrayHeader(Command(args), 0, |args|);
    FeedSteps(Command(args), Fresh(0), |ArrayHead(|args|)|);
  }

  lemma HeaderAhead(args: seq<Bytes>)
    ensures Ahead(Command(args), Fresh(0), ArrayHead(|args|))
  {
    WrittenAll(args);
    WrittenGrows(args, 0, |args|);
    HeaderBytes(args);
    hide Command, Dec, Written;
    Front(Command(args), ArrayHead(|args|));
  }

  lemma HeaderBytes(args: seq<Bytes>)
    ensures Written(args, 0) == ArrayHead(|args|)
  {
    hide Dec;
  }

  lemma Front(buf: Bytes, s: Bytes)
    requires s <= buf
    ensures Ahead(buf, Fresh(0), s)
  {
    assert buf[0..0 + |s|] == buf[..|s|];
  }
}
