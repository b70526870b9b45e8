/** The incremental reader of the Redis serialization protocol: one byte moves one state
  * machine, whose layers are the arrays that are open. Positions count from the first byte
  * of the message. */
module RespParser {
  import opened Seqs

  const CR: byte := 13
  const LF: byte := 10
  const PLUS: byte := 43
  const MINUS: byte := 45
  const COLON: byte := 58
  const USD: byte := 36
  const STAR: byte := 42
  const PING: byte := 80
  const ZERO: byte := 48
  const ONE: byte := 49

  datatype State =
    | Start | NArg | NArgNegOne | NArgZero | NArgCrlf
    | ReadingLine | InNextLayer
    | UsdNum | UsdNumCrlf | UsdStr | UsdEmpty | UsdEmptyOne
    | Str | StrCrlf
    | End

  /** Where the command name is. Moving the buffer does not move this pointer with it; what
    * the code then reads there decides on line 2 or line 4 for the key. */
  datatype Command = NoCommand | CommandAt(offset: nat) | Dangling(line: nat)

  /** What a layer has noted about the command and its key. */
  datatype Key = Key(start: Option<nat>, len: int, line: bool, cmd: Command, cmdLen: nat, nowLine: nat, inLines: nat)

  /** One layer of the reader. The read position is always `start + len`. */
  datatype Msg =
    | NoMsg
    | Msg(start: nat, len: nat, st: State, need: int, argLen: nat, maxLen: nat, err: bool, key: Key, next: Msg)

  const NO_KEY := Key(None, 0, false, NoCommand, 0, 0, 0)

  /** A layer about to read its first byte at `start`. */
  function Fresh(start: nat): (m: Msg)
    ensures m.Msg?
  {
    Msg(start, 0, Start, 0, 0, 0, false, NO_KEY, NoMsg)
  }

  predicate IsDigit(b: byte)
  {
    ZERO <= b <= ZERO + 9
  }

  /** In these states the layer is inside one of its lines. */
  predicate Reading(st: State)
  {
    st.ReadingLine? || st.InNextLayer? || st.UsdNum? || st.UsdNumCrlf? || st.UsdStr? || st.UsdEmpty?
    || st.UsdEmptyOne? || st.Str? || st.StrCrlf?
  }

  /** The position of the next byte. */
  function Pos(m: Msg): nat
  {
    match m
    case NoMsg => 0
    case Msg(start, len, st, _, _, _, _, _, next) =>
      if st.InNextLayer? && next.Msg? then Pos(next) else start + len
  }

  /** An open inner layer starts where the outer one stopped, and has read something. */
  predicate WellFormed(m: Msg)
  {
    && m.Msg?
    && (m.st.InNextLayer? ==>
          m.next.Msg? && !m.next.st.End? && m.next.start == m.start + m.len && m.next.len > 0 && WellFormed(m.next))
  }

  predicate SameLetter(b: byte, lower: byte)
  {
    b == lower || b == lower - 32
  }

  /** "eval" or "evalsha", in any mix of case. */
  predicate IsEval(name: Bytes)
  {
    || (|name| == 4 && SameLetter(name[0], 101) && SameLetter(name[1], 118) && SameLetter(name[2], 97)
        && SameLetter(name[3], 108))
    || (|name| == 7 && SameLetter(name[0], 101) && SameLetter(name[1], 118) && SameLetter(name[2], 97)
        && SameLetter(name[3], 108) && SameLetter(name[4], 115) && SameLetter(name[5], 104) && SameLetter(name[6], 97))
  }

  /** The line that holds the key: the fourth for scripts, the second otherwise. The name
    * of the command lies before the read position `p`. */
  function KeyInLine(buf: Bytes, k: Key, p: nat): (line: nat)
  {
    match k.cmd
    case NoCommand => 2
    case Dangling(line) => line
    case CommandAt(off) =>
      if off + k.cmdLen <= p <= |buf| && IsEval(buf[off..off + k.cmdLen]) then 4 else 2
  }

  /** One more line is complete; with the command known and the key not yet begun, see
    * whether the next line is the key's. */
  function NextLine(buf: Bytes, k: Key, p: nat): (r: Key)
  {
    var line := k.nowLine + 1;
    if !k.cmd.NoCommand? && k.start.None? then
      var inLines := if k.inLines == 0 then KeyInLine(buf, k, p) else k.inLines;
      k.(nowLine := line, inLines := inLines, line := k.line || inLines == line + 1)
    else
      k.(nowLine := line)
  }

  /** Argument data begins at `p`: the first argument is the command, and in the key's line
    * the key begins. */
  function Noted(k: Key, p: nat, argLen: nat): (r: Key)
  {
    var s := KeyStart(k, p);
    if s.cmd.NoCommand? then s.(cmd := CommandAt(p), cmdLen := argLen) else s
  }

  /** Only the first byte of an argument is noted. */
  lemma NotedOnce(k: Key, p: nat, argLen: nat, q: nat, rest: nat)
    ensures Noted(Noted(k, p, argLen), q, rest) == Noted(k, p, argLen)
  {
  }

  function KeyStart(k: Key, p: nat): (r: Key)
  {
    if k.start.None? && k.line then k.(start := Some(p)) else k
  }

  /** A line ends with its line feed at `p`, and with it the key that began. */
  function KeyEnd(k: Key, p: nat): (r: Key)
  {
    if k.start.Some? && k.len == 0 then k.(len := p - 1 - k.start.value) else k
  }

  /** A line of the layer is complete. */
  function LineDone(buf: Bytes, m: Msg): (r: Msg)
    requires m.Msg?
  {
    m.(key := NextLine(buf, m.key, m.start + m.len), need := m.need - 1, st := if m.need == 1 then End else ReadingLine)
  }

  /** The first byte of a message. */
  function FirstByte(m: Msg, b: byte): (r: Option<Msg>)
    requires m.Msg?
  {
    var one := m.(need := 1, len := m.len + 1);
    if b == PLUS || b == COLON || b == PING then Some(one.(st := Str))
    else if b == MINUS then Some(one.(st := Str, err := true))
    else if b == USD then Some(one.(st := UsdNum, argLen := 0))
    else if b == STAR then Some(one.(st := NArg, need := 0))
    else None
  }

  /** A byte of an array header. */
  function HeaderByte(m: Msg, b: byte): (r: Option<Msg>)
    requires m.Msg?
  {
    var on := m.(len := m.len + 1);
    match m.st
    case NArg =>
      if IsDigit(b) then
        var need := m.need * 10 + (b - ZERO);
        Some(on.(need := need, st := if need == 0 then NArgZero else NArg))
      else if b == CR then Some(on.(st := NArgCrlf))
      else if b == MINUS then Some(on.(st := NArgNegOne))
      else None
    case NArgZero => if b == CR then Some(on.(st := NArgCrlf)) else None
    case NArgNegOne => if b == ONE then Some(on.(st := NArgZero)) else None
    case NArgCrlf =>
      if b == LF then Some(on.(st := if m.need == 0 then End else ReadingLine)) else None
    case _ => None
  }

  /** The first byte of a line: a nested array opens a new layer on this very byte. */
  function LineFirst(m: Msg, b: byte): (r: Option<Msg>)
    requires m.Msg?
  {
    var p := m.start + m.len;
    if b == PLUS || b == MINUS || b == COLON then Some(m.(st := Str, len := m.len + 1, key := KeyStart(m.key, p)))
    else if b == USD then Some(m.(st := UsdNum, argLen := 0, len := m.len + 1))
    else if b == STAR then Some(m.(st := InNextLayer, next := FirstByte(Fresh(p), STAR).value))
    else None
  }

  /** A byte inside a line that does not end it. */
  function LineByte(m: Msg, b: byte): (r: Option<Msg>)
    requires m.Msg?
  {
    var p := m.start + m.len;
    var on := m.(len := m.len + 1);
    match m.st
    case ReadingLine => LineFirst(m, b)
    case Str => Some(if b == CR then on.(st := StrCrlf) else on)
    case UsdNum =>
      if IsDigit(b) then Some(on.(argLen := m.argLen * 10 + (b - ZERO)))
      else if b == CR then Some(on.(maxLen := if m.argLen > m.maxLen then m.argLen else m.maxLen, st := UsdNumCrlf))
      else if b == MINUS && m.argLen == 0 then Some(on.(st := UsdEmpty))
      else None
    case UsdNumCrlf => if b == LF then Some(on.(st := UsdStr)) else None
    case UsdStr =>
      var at := on.(key := Noted(m.key, p, m.argLen));
      if m.argLen > 0 then Some(at.(argLen := m.argLen - 1))
      else if b == CR then Some(at.(st := StrCrlf))
      else None
    case UsdEmpty => if b == ONE then Some(on.(st := UsdEmptyOne)) else None
    case UsdEmptyOne => if b == CR then Some(on.(st := StrCrlf)) else None
    case _ => None
  }

  /** A byte for a layer with no inner layer open. */
  function OwnByte(buf: Bytes, m: Msg, b: byte): (r: Option<Msg>)
    requires m.Msg?
  {
    match m.st
    case Start => FirstByte(m, b)
    case StrCrlf =>
      if b == LF then Some(LineDone(buf, m.(len := m.len + 1, key := KeyEnd(m.key, m.start + m.len)))) else None
    case _ => if Reading(m.st) then LineByte(m, b) else HeaderByte(m, b)
  }

  /** The inner layer is now `n`: when it is complete, so is the outer layer's line. */
  function Inner(buf: Bytes, m: Msg, n: Msg): (r: Msg)
    requires m.Msg? && n.Msg?
  {
    if n.st.End? then LineDone(buf, m.(len := m.len + n.len, next := n)) else m.(next := n)
  }

  /** One byte, the one at the read position, goes to the innermost open layer. */
  function Step(buf: Bytes, m: Msg): (r: Option<Msg>)
    requires WellFormed(m) && Pos(m) < |buf|
    ensures r.Some? ==> r.value.Msg?
    decreases m
  {
    if m.st.InNextLayer? then
      match Step(buf, m.next)
      case None => None
      case Some(n) => Some(Inner(buf, m, n))
    else OwnByte(buf, m, buf[Pos(m)])
  }

  lemma OwnByteAdvances(buf: Bytes, m: Msg, b: byte)
    requires m.Msg? && !m.st.InNextLayer? && OwnByte(buf, m, b).Some?
    ensures var r := OwnByte(buf, m, b).value;
            r.Msg? && WellFormed(r) && !r.st.Start? && Pos(r) == m.start + m.len + 1 && r.start == m.start
            && (if r.st.InNextLayer? then r.len == m.len && m.st.ReadingLine? else r.len == m.len + 1)
  {
  }

  /** A byte moves the read position by one and keeps the layers lined up. */
  lemma {:induction false} StepAdvances(buf: Bytes, m: Msg)
    requires WellFormed(m) && Pos(m) < |buf| && Step(buf, m).Some?
    ensures var r := Step(buf, m).value;
            WellFormed(r) && Pos(r) == Pos(m) + 1 && r.start == m.start && r.len >= m.len
            && (m.len > 0 || m.st.Start? ==> r.len > 0)
    decreases m
  {
    hide OwnByte, LineDone;
    if m.st.InNextLayer? {
      StepAdvances(buf, m.next);
      var n := Step(buf, m.next).value;
      LineDoneKeeps(buf, m.(len := m.len + n.len, next := n));
    } else {
      OwnByteAdvances(buf, m, buf[Pos(m)]);
    }
  }

  lemma LineDoneKeeps(buf: Bytes, m: Msg)
    requires m.Msg?
    ensures var r := LineDone(buf, m);
            r.Msg? && r.len == m.len && r.start == m.start && (r.st.End? || r.st.ReadingLine?)
  {
  }

  /** The bytes of `buf` that are not yet read, up to the end of the message. */
  function Feed(buf: Bytes, m: Msg): (r: Option<Msg>)
    requires WellFormed(m) && Pos(m) <= |buf|
    ensures r.Some? ==> WellFormed(r.value) && Pos(m) <= Pos(r.value) <= |buf|
    ensures r.Some? && !r.value.st.End? ==> Pos(r.value) == |buf|
    decreases |buf| - Pos(m)
  {
    if m.st.End? || Pos(m) == |buf| then Some(m)
    else
      match Step(buf, m)
      case None => None
      case Some(n) => StepAdvances(buf, m); Feed(buf, n)
  }

  /** A byte that has arrived means the same however many follow it. */
  lemma {:induction false} StepExtends(buf: Bytes, ext: Bytes, m: Msg)
    requires WellFormed(m) && Pos(m) < |buf| && buf <= ext
    ensures Step(ext, m) == Step(buf, m)
    decreases m
  {
    if m.st.InNextLayer? {
      hide OwnByte;
      StepExtends(buf, ext, m.next);
      if Step(buf, m.next).Some? {
        StepAdvances(buf, m.next);
        var n := Step(buf, m.next).value;
        if n.st.End? {
          NextLineExtends(buf, ext, m.key, m.start + m.len + n.len);
        }
      }
    } else {
      NextLineExtends(buf, ext, KeyEnd(m.key, m.start + m.len), m.start + m.len + 1);
    }
  }

  lemma NextLineExtends(buf: Bytes, ext: Bytes, k: Key, p: nat)
    requires buf <= ext && p <= |buf|
    ensures NextLine(buf, k, p) == NextLine(ext, k, p)
  {
    if k.cmd.CommandAt? && k.cmd.offset + k.cmdLen <= p {
      assert buf[k.cmd.offset..k.cmd.offset + k.cmdLen] == ext[k.cmd.offset..k.cmd.offset + k.cmdLen];
    }
  }

  /** Reading in two goes, with more bytes arriving in between, is reading in one. */
  lemma {:induction false} FeedInTwo(buf: Bytes, ext: Bytes, m: Msg)
    requires WellFormed(m) && Pos(m) <= |buf| && buf <= ext
    ensures Feed(buf, m).None? ==> Feed(ext, m).None?
    ensures Feed(buf, m).Some? ==> Feed(ext, m) == Feed(ext, Feed(buf, m).value)
    decreases |buf| - Pos(m)
  {
    if !m.st.End? && Pos(m) < |buf| {
      StepExtends(buf, ext, m);
      if Step(buf, m).Some? {
        StepAdvances(buf, m);
        FeedInTwo(buf, ext, Step(buf, m).value);
      }
    }
  }
}
