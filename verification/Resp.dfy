/** Values of the Redis serialization protocol and their bytes. */
module Resp {
  import opened Seqs
  import opened RespParser

  datatype Value =
    | Simple(text: Bytes)
    | Error(text: Bytes)
    | Integer(n: int)
    | Bulk(data: Bytes)
    | NullBulk
    | Array(elems: seq<Value>)
    | NullArray

  /** Decimal digits, without leading zeros. */
  function Dec(n: nat): (d: Bytes)
    ensures |d| > 0 && forall i | 0 <= i < |d| :: IsDigit(d[i])
  {
    if n < 10 then [ZERO + n] else Dec(n / 10) + [ZERO + n % 10]
  }

  function DecInt(n: int): (d: Bytes)
    ensures |d| > 0 && CR !in d
  {
    if n < 0 then [MINUS] + Dec(-n) else Dec(n)
  }

  predicate AllDigits(s: Bytes)
  {
    forall i | 0 <= i < |s| :: IsDigit(s[i])
  }

  /** The number in the leading digits. */
  function Digits(s: Bytes, acc: nat): (n: nat)
    ensures n >= acc
    decreases |s|
  {
    if |s| == 0 || !IsDigit(s[0]) then acc else Digits(s[1..], acc * 10 + (s[0] - ZERO))
  }

  function Number(s: Bytes): int
  {
    if |s| > 0 && s[0] == MINUS then -(Digits(s[1..], 0) as int) else Digits(s, 0)
  }

  lemma {:induction false} DigitsSplit(a: Bytes, b: Bytes, acc: nat)
    requires AllDigits(a)
    ensures Digits(a + b, acc) == Digits(b, Digits(a, acc))
    decreases |a|
  {
    if |a| == 0 {
      assert a + b == b;
    } else {
      assert (a + b)[0] == a[0] && (a + b)[1..] == a[1..] + b;
      DigitsSplit(a[1..], b, acc * 10 + (a[0] - ZERO));
    }
  }

  /** Reading a written number gives it back. */
  lemma {:induction false} DecReads(n: nat, rest: Bytes)
    requires |rest| > 0 ==> !IsDigit(rest[0])
    ensures Digits(Dec(n) + rest, 0) == n
    decreases n
  {
    if n < 10 {
      var d := Dec(n) + rest;
      assert d[0] == ZERO + n && d[1..] == rest;
    } else {
      var last: Bytes := [ZERO + n % 10];
      DecReads(n / 10, []);
      assert Dec(n / 10) + [] == Dec(n / 10);
      assert Dec(n) + rest == Dec(n / 10) + (last + rest);
      DigitsSplit(Dec(n / 10), last + rest, 0);
      assert (last + rest)[0] == last[0] && (last + rest)[1..] == rest;
    }
  }

  lemma NumberReads(n: int)
    ensures Number(DecInt(n)) == n
  {
    DecReads(if n < 0 then -n else n, []);
    assert Dec(if n < 0 then -n else n) + [] == Dec(if n < 0 then -n else n);
    if n < 0 {
      assert DecInt(n)[1..] == Dec(-n);
    }
  }

  /** A number above zero is written without a leading zero. */
  lemma {:induction false} NoLeadingZero(n: nat)
    requires n > 0
    ensures Dec(n)[0] > ZERO
    decreases n
  {
    if n >= 10 {
      NoLeadingZero(n / 10);
    }
  }

  const CRLF: Bytes := [CR, LF]

  /** A bulk string after its first byte. */
  function BulkRest(data: Bytes): (e: Bytes)
  {
    Dec(|data|) + CRLF + data + CRLF
  }

  /** The header of an array of `n` elements. */
  function ArrayHead(n: nat): (e: Bytes)
  {
    [STAR] + Dec(n) + CRLF
  }

  function Enc(v: Value): (e: Bytes)
    ensures |e| > 0
    decreases v, 1
  {
    match v
    case Simple(text) => [PLUS] + (text + CRLF)
    case Error(text) => [MINUS] + (text + CRLF)
    case Integer(n) => [COLON] + (DecInt(n) + CRLF)
    case Bulk(data) => [USD] + BulkRest(data)
    case NullBulk => [USD] + ([MINUS, ONE] + CRLF)
    case Array(elems) => ArrayHead(|elems|) + EncAll(elems)
    case NullArray => [STAR, MINUS, ONE] + CRLF
  }

  /** The protocol, spelled out. */
  lemma Spelled(text: Bytes, n: int, elems: seq<Value>)
    ensures Enc(Simple(text)) == Ascii("+") + text + Ascii("\r\n")
    ensures Enc(Error(text)) == Ascii("-") + text + Ascii("\r\n")
    ensures n >= 0 ==> Enc(Integer(n)) == Ascii(":") + Dec(n) + Ascii("\r\n")
    ensures n > 0 ==> Enc(Integer(-n)) == Ascii(":-") + Dec(n) + Ascii("\r\n")
    ensures Enc(Bulk(text)) == Ascii("$") + Dec(|text|) + Ascii("\r\n") + text + Ascii("\r\n")
    ensures Enc(Array(elems)) == Ascii("*") + Dec(|elems|) + Ascii("\r\n") + EncAll(elems)
    ensures Enc(NullBulk) == Ascii("$-1\r\n") && Enc(NullArray) == Ascii("*-1\r\n")
  {
    hide Dec, EncAll;
  }

  lemma DigitsSpelled()
    ensures Dec(1234567890) == Ascii("1234567890")
  {
    assert Dec(1) == [49] && Dec(12) == Dec(1) + [50] && Dec(123) == Dec(12) + [51] && Dec(1234) == Dec(123) + [52];
    assert Dec(12345) == Dec(1234) + [53] && Dec(123456) == Dec(12345) + [54] && Dec(1234567) == Dec(123456) + [55];
    assert Dec(12345678) == Dec(1234567) + [56] && Dec(123456789) == Dec(12345678) + [57];
    assert Dec(1234567890) == Dec(123456789) + [48];
  }

  function EncAll(vs: seq<Value>): (e: Bytes)
    decreases vs, 0
  {
    if |vs| == 0 then [] else Enc(vs[0]) + EncAll(vs[1..])
  }

  /** The text of a line holds no carriage return. */
  predicate Legal(v: Value)
    decreases v, 1
  {
    match v
    case Simple(text) => CR !in text
    case Error(text) => CR !in text
    case Array(elems) => LegalAll(elems)
    case _ => true
  }

  predicate LegalAll(vs: seq<Value>)
    decreases vs, 0
  {
    |vs| == 0 || (Legal(vs[0]) && LegalAll(vs[1..]))
  }
}

/** The reader takes a value in exactly the bytes that encode it. */
module RespFraming {
  import opened Seqs
  import opened RespParser
  import opened Resp

  /** `n` bytes, one after the other. */
  function Steps(buf: Bytes, m: Msg, n: nat): (r: Option<Msg>)
    requires WellFormed(m) && Pos(m) + n <= |buf|
    ensures r.Some? ==> WellFormed(r.value) && Pos(r.value) == Pos(m) + n && r.value.start == m.start
    decreases n
  {
    if n == 0 then Some(m)
    else
      match Step(buf, m)
      case None => None
      case Some(k) => StepAdvances(buf, m); Steps(buf, k, n - 1)
  }

  lemma {:induction false} StepsAdd(buf: Bytes, m: Msg, a: nat, b: nat)
    requires WellFormed(m) && Pos(m) + a + b <= |buf|
    ensures Steps(buf, m, a).None? ==> Steps(buf, m, a + b).None?
    ensures Steps(buf, m, a).Some? ==> Steps(buf, m, a + b) == Steps(buf, Steps(buf, m, a).value, b)
    decreases a
  {
    hide Step;
    if a > 0 && Step(buf, m).Some? {
      StepAdvances(buf, m);
      StepsAdd(buf, Step(buf, m).value, a - 1, b);
    }
  }

  /** The bytes at the read position of `m`. */
  predicate Ahead(buf: Bytes, m: Msg, s: Bytes)
  {
    Pos(m) + |s| <= |buf| && buf[Pos(m)..Pos(m) + |s|] == s
  }

  lemma AheadSplit(buf: Bytes, m: Msg, a: Bytes, b: Bytes)
    requires Ahead(buf, m, a + b)
    ensures Ahead(buf, m, a) && Pos(m) + |a| + |b| <= |buf|
    ensures forall k | Pos(k) == Pos(m) + |a| :: Ahead(buf, k, b)
  {
    var p := Pos(m);
    var w := buf[p..p + |a + b|];
    assert buf[p..p + |a|] == w[..|a|];
    assert buf[p + |a|..p + |a| + |b|] == w[|a|..];
    forall k | Pos(k) == p + |a| ensures Ahead(buf, k, b) {
    }
  }

  /** What `m` becomes over the bytes `s`. */
  ghost predicate Goes(buf: Bytes, m: Msg, s: Bytes, r: Msg)
  {
    WellFormed(m) && Ahead(buf, m, s) && Steps(buf, m, |s|) == Some(r)
  }

  lemma GoesThrough(buf: Bytes, m: Msg, a: Bytes, k: Msg, b: Bytes, r: Msg)
    requires Ahead(buf, m, a + b) && Goes(buf, m, a, k) && Goes(buf, k, b, r)
    ensures Goes(buf, m, a + b, r)
  {
    StepsAdd(buf, m, |a|, |b|);
  }

  /** One byte of the layer itself. */
  lemma GoesByte(buf: Bytes, m: Msg, b: byte)
    requires WellFormed(m) && Ahead(buf, m, [b]) && !m.st.InNextLayer? && OwnByte(buf, m, b).Some?
    ensures Goes(buf, m, [b], OwnByte(buf, m, b).value)
  {
    hide OwnByte;
    assert buf[Pos(m)] == buf[Pos(m)..Pos(m) + 1][0] == b;
    var r := Step(buf, m);
    StepAdvances(buf, m);
    assert Steps(buf, r.value, 0) == r;
  }

  /** The digits of an array header. */
  lemma {:induction false} CountDigits(buf: Bytes, m: Msg, n: nat)
    requires WellFormed(m) && m.st.NArg? && m.need == 0 && n > 0 && Ahead(buf, m, Dec(n))
    ensures Goes(buf, m, Dec(n), m.(need := n, len := m.len + |Dec(n)|))
    decreases n
  {
    hide Goes, Steps;
    if n < 10 {
      GoesByte(buf, m, ZERO + n);
    } else {
      var d := ZERO + n % 10;
      AheadSplit(buf, m, Dec(n / 10), [d]);
      CountDigits(buf, m, n / 10);
      var k := m.(need := n / 10, len := m.len + |Dec(n / 10)|);
      GoesByte(buf, k, d);
      GoesThrough(buf, m, Dec(n / 10), k, [d], m.(need := n, len := m.len + |Dec(n)|));
    }
  }

  /** The digits of a bulk length. */
  lemma {:induction false} LengthDigits(buf: Bytes, m: Msg, n: nat)
    requires WellFormed(m) && m.st.UsdNum? && m.argLen == 0 && Ahead(buf, m, Dec(n))
    ensures Goes(buf, m, Dec(n), m.(argLen := n, len := m.len + |Dec(n)|))
    decreases n
  {
    hide Goes, Ahead, OwnByte;
    var d := ZERO + n % 10;
    if n < 10 {
      LengthDigit(buf, m, d);
      GoesByte(buf, m, d);
    } else {
      AheadSplit(buf, m, Dec(n / 10), [d]);
      LengthDigits(buf, m, n / 10);
      var k := m.(argLen := n / 10, len := m.len + |Dec(n / 10)|);
      LengthDigit(buf, k, d);
      GoesByte(buf, k, d);
      GoesThrough(buf, m, Dec(n / 10), k, [d], m.(argLen := n, len := m.len + |Dec(n)|));
    }
  }

  lemma LengthDigit(buf: Bytes, m: Msg, d: byte)
    requires m.Msg? && m.st.UsdNum? && IsDigit(d)
    ensures OwnByte(buf, m, d) == Some(m.(argLen := m.argLen * 10 + (d - ZERO), len := m.len + 1))
  {
  }

  /** The text of a line. */
  lemma {:induction false} TextBytes(buf: Bytes, m: Msg, text: Bytes)
    requires WellFormed(m) && m.st.Str? && CR !in text && Ahead(buf, m, text)
    ensures Goes(buf, m, text, m.(len := m.len + |text|))
    decreases |text|
  {
    if |text| > 0 {
      var last := text[|text| - 1];
      var init := text[..|text| - 1];
      assert text == init + [last];
      AheadSplit(buf, m, init, [last]);
      TextBytes(buf, m, init);
      var k := m.(len := m.len + |init|);
      GoesByte(buf, k, last);
      GoesThrough(buf, m, init, k, [last], m.(len := m.len + |text|));
    }
  }

  /** The data of a bulk string. */
  lemma {:induction false} DataBytes(buf: Bytes, m: Msg, data: Bytes)
    requires WellFormed(m) && m.st.UsdStr? && |data| <= m.argLen && Ahead(buf, m, data)
    ensures Goes(buf, m, data, AfterData(m, |data|))
    decreases |data|
  {
    hide Goes, Ahead, OwnByte, AfterData;
    if |data| == 0 {
      NoData(buf, m);
      assert data == [];
    } else {
      var last := data[|data| - 1];
      var init := data[..|data| - 1];
      assert data == init + [last];
      AheadSplit(buf, m, init, [last]);
      DataBytes(buf, m, init);
      OneData(buf, m, |init|, last);
      GoesByte(buf, AfterData(m, |init|), last);
      GoesThrough(buf, m, init, AfterData(m, |init|), [last], AfterData(m, |data|));
    }
  }

  lemma NoData(buf: Bytes, m: Msg)
    requires WellFormed(m) && m.st.UsdStr? && Ahead(buf, m, [])
    ensures Goes(buf, m, [], AfterData(m, 0))
  {
  }

  lemma OneData(buf: Bytes, m: Msg, n: nat, b: byte)
    requires WellFormed(m) && m.st.UsdStr? && n < m.argLen
    ensures var k := AfterData(m, n);
            && WellFormed(k) && k.st.UsdStr? && Pos(k) == Pos(m) + n
            && OwnByte(buf, k, b) == Some(AfterData(m, n + 1))
  {
    hide Noted, OwnByte;
    DataByte(buf, AfterData(m, n), b);
    AfterOne(m, n);
  }

  lemma AfterOne(m: Msg, n: nat)
    requires m.Msg? && n < m.argLen
    ensures var k := AfterData(m, n);
            AfterData(m, n + 1)
            == k.(key := Noted(k.key, k.start + k.len, k.argLen), argLen := k.argLen - 1, len := k.len + 1)
  {
    hide Noted;
    NotedOnce(m.key, m.start + m.len, m.argLen, m.start + m.len + n, m.argLen - n);
  }

  lemma DataByte(buf: Bytes, k: Msg, b: byte)
    requires k.Msg? && k.st.UsdStr? && k.argLen > 0
    ensures OwnByte(buf, k, b)
            == Some(k.(key := Noted(k.key, k.start + k.len, k.argLen), argLen := k.argLen - 1, len := k.len + 1))
  {
    hide Noted;
  }

  /** A bulk string after `n` bytes of its data. */
  function AfterData(m: Msg, n: nat): (r: Msg)
    requires m.Msg? && n <= m.argLen
    ensures r.Msg?
  {
    if n == 0 then m
    else m.(key := Noted(m.key, m.start + m.len, m.argLen), argLen := m.argLen - n, len := m.len + n)
  }

  /** The end of a line, from a state in which it may end. */
  lemma LineEnd(buf: Bytes, m: Msg, k: Msg)
    requires WellFormed(m) && Ahead(buf, m, CRLF) && !m.st.InNextLayer?
    requires k.Msg? && k.st.StrCrlf? && OwnByte(buf, m, CR) == Some(k)
    ensures Goes(buf, m, CRLF, LineDone(buf, k.(len := k.len + 1, key := KeyEnd(k.key, k.start + k.len))))
  {
    var r := LineDone(buf, k.(len := k.len + 1, key := KeyEnd(k.key, k.start + k.len)));
    assert OwnByte(buf, k, LF) == Some(r);
    hide OwnByte, LineDone, KeyEnd;
    assert CRLF == [CR] + [LF];
    AheadSplit(buf, m, [CR], [LF]);
    GoesByte(buf, m, CR);
    GoesByte(buf, k, LF);
    GoesThrough(buf, m, [CR], k, [LF], r);
  }

  /** A text line after its first byte. */
  function AfterText(buf: Bytes, m: Msg, text: Bytes): (r: Msg)
    requires m.Msg?
  {
    LineDone(buf, m.(len := m.len + |text| + 2, st := StrCrlf, key := KeyEnd(m.key, m.start + m.len + |text| + 1)))
  }

  lemma TextLine(buf: Bytes, m: Msg, text: Bytes)
    requires WellFormed(m) && m.st.Str? && CR !in text && Ahead(buf, m, text + CRLF)
    ensures Goes(buf, m, text + CRLF, AfterText(buf, m, text))
  {
    hide Goes, Steps, LineDone, KeyEnd, CRLF;
    AheadSplit(buf, m, text, CRLF);
    TextBytes(buf, m, text);
    var k := m.(len := m.len + |text|);
    LineEnd(buf, k, k.(len := k.len + 1, st := StrCrlf));
    GoesThrough(buf, m, text, k, CRLF, AfterText(buf, m, text));
  }

  /** The layer before the data of a bulk string, after its first byte. */
  function AfterLength(m: Msg, n: nat): (r: Msg)
    requires m.Msg?
    ensures r.Msg?
  {
    m.(st := UsdStr, argLen := n, maxLen := if n > m.maxLen then n else m.maxLen, len := m.len + |Dec(n)| + 2)
  }

  /** A bulk string after its first byte. */
  function AfterBulk(buf: Bytes, m: Msg, data: Bytes): (r: Msg)
    requires m.Msg?
  {
    var h := AfterLength(m, |data|);
    var p := h.start + h.len;
    LineDone(buf, h.(argLen := 0, len := h.len + |data| + 2, st := StrCrlf,
                     key := KeyEnd(Noted(h.key, p, |data|), p + |data| + 1)))
  }

  /** The two bytes after a bulk length. */
  lemma LengthEnds(buf: Bytes, m: Msg, n: nat)
    requires WellFormed(m) && m.st.UsdNum? && m.argLen == 0
    ensures var k := m.(argLen := n, len := m.len + |Dec(n)|);
            var l := OwnByte(buf, k, CR);
            && WellFormed(k) && l.Some? && WellFormed(l.value) && l.value.start == k.start && Pos(l.value) == Pos(k) + 1
            && !l.value.st.InNextLayer? && l.value.st != End
            && OwnByte(buf, l.value, LF) == Some(AfterLength(m, n))
  {
    hide Dec;
  }

  lemma LengthLine(buf: Bytes, m: Msg, n: nat)
    requires WellFormed(m) && m.st.UsdNum? && m.argLen == 0 && Ahead(buf, m, Dec(n) + CRLF)
    ensures Goes(buf, m, Dec(n) + CRLF, AfterLength(m, n))
  {
    AheadSplit(buf, m, Dec(n), CRLF);
    LengthDigits(buf, m, n);
    var k := m.(argLen := n, len := m.len + |Dec(n)|);
    assert CRLF == [CR] + [LF];
    AheadSplit(buf, k, [CR], [LF]);
    hide Goes, OwnByte, Steps, Dec, CRLF;
    LengthEnds(buf, m, n);
    GoesByte(buf, k, CR);
    var l := OwnByte(buf, k, CR).value;
    GoesByte(buf, l, LF);
    GoesThrough(buf, k, [CR], l, [LF], AfterLength(m, n));
    GoesThrough(buf, m, Dec(n), k, CRLF, AfterLength(m, n));
  }

  lemma BulkLine(buf: Bytes, m: Msg, data: Bytes)
    requires WellFormed(m) && m.st.UsdNum? && m.argLen == 0
    requires Ahead(buf, m, BulkRest(data))
    ensures Goes(buf, m, BulkRest(data), AfterBulk(buf, m, data))
  {
    hide Goes, Steps, LineDone, KeyEnd, Dec, Ahead;
    var head := Dec(|data|) + CRLF;
    AheadSplit(buf, m, head + data, CRLF);
    AheadSplit(buf, m, head, data);
    LengthLine(buf, m, |data|);
    var h := AfterLength(m, |data|);
    var d := AfterData(h, |data|);
    DataBytes(buf, h, data);
    GoesThrough(buf, m, head, h, data, d);
    var k := h.(argLen := 0, len := h.len + |data| + 1, st := StrCrlf, key := Noted(h.key, h.start + h.len, |data|));
    assert OwnByte(buf, d, CR) == Some(k);
    LineEnd(buf, d, k);
    GoesThrough(buf, m, head + data, d, CRLF, AfterBulk(buf, m, data));
  }

  /** An outer layer follows its inner layer byte by byte. */
  lemma {:induction false} Nested(buf: Bytes, m: Msg, n: nat, k: Msg)
    requires WellFormed(m) && m.st.InNextLayer? && Pos(m) + n <= |buf| && k.Msg?
    requires Steps(buf, m.next, n) == Some(k)
    ensures Steps(buf, m, n) == Some(Inner(buf, m, k))
    decreases n
  {
    hide OwnByte, LineDone;
    if n > 0 {
      var k1 := Step(buf, m.next).value;
      StepAdvances(buf, m.next);
      StepAdvances(buf, m);
      if k1.st.End? {
        EndIsFinal(buf, k1, n - 1);
      } else {
        Nested(buf, m.(next := k1), n - 1, k);
      }
    }
  }

  /** No byte belongs to a message after its end. */
  lemma EndIsFinal(buf: Bytes, m: Msg, n: nat)
    requires WellFormed(m) && m.st.End? && Pos(m) + n <= |buf| && Steps(buf, m, n).Some?
    ensures n == 0
  {
  }

  /** How a layer stands after a whole value has filled one of its lines. */
  ghost predicate LineTaken(m: Msg, v: Value, r: Msg)
    requires m.Msg?
  {
    && r.Msg? && r.start == m.start && r.len == m.len + |Enc(v)| && r.need == m.need - 1
    && r.st == (if m.need == 1 then End else ReadingLine)
  }

  /** A value in a line of an open array. */
  lemma {:induction false} LineValue(buf: Bytes, m: Msg, v: Value) returns (r: Msg)
    requires WellFormed(m) && m.st.ReadingLine? && Legal(v) && Ahead(buf, m, Enc(v))
    ensures Goes(buf, m, Enc(v), r) && LineTaken(m, v, r)
    decreases v, 2
  {
    match v {
      case Array(_) => r := LineArray(buf, m, v);
      case NullArray => r := LineArray(buf, m, v);
      case Simple(text) => r := LineText(buf, m, PLUS, text);
      case Error(text) => r := LineText(buf, m, MINUS, text);
      case Integer(n) => r := LineText(buf, m, COLON, DecInt(n));
      case Bulk(data) =>
        var rest := BulkRest(data);
        AheadSplit(buf, m, [USD], rest);
        GoesByte(buf, m, USD);
        var k := OwnByte(buf, m, USD).value;
        BulkLine(buf, k, data);
        r := AfterBulk(buf, k, data);
        GoesThrough(buf, m, [USD], k, rest, r);
      case NullBulk =>
        var rest := [MINUS, ONE] + CRLF;
        AheadSplit(buf, m, [USD], rest);
        GoesByte(buf, m, USD);
        var k := OwnByte(buf, m, USD).value;
        r := NullLine(buf, k);
        GoesThrough(buf, m, [USD], k, rest, r);
    }
  }

  /** The rest of a null bulk string. */
  lemma NullLine(buf: Bytes, m: Msg) returns (r: Msg)
    requires WellFormed(m) && m.st.UsdNum? && m.argLen == 0 && Ahead(buf, m, [MINUS, ONE] + CRLF)
    ensures Goes(buf, m, [MINUS, ONE] + CRLF, r) && r.Msg?
    ensures r.start == m.start && r.len == m.len + 4 && r.need == m.need - 1
    ensures r.st == (if m.need == 1 then End else ReadingLine)
  {
    assert [MINUS, ONE] == [MINUS] + [ONE];
    AheadSplit(buf, m, [MINUS, ONE], CRLF);
    AheadSplit(buf, m, [MINUS], [ONE]);
    GoesByte(buf, m, MINUS);
    var k := m.(st := UsdEmpty, len := m.len + 1);
    GoesByte(buf, k, ONE);
    var l := m.(st := UsdEmptyOne, len := m.len + 2);
    GoesThrough(buf, m, [MINUS], k, [ONE], l);
    var e := m.(st := StrCrlf, len := m.len + 3);
    LineEnd(buf, l, e);
    r := LineDone(buf, e.(len := e.len + 1, key := KeyEnd(e.key, e.start + e.len)));
    hide Goes, Steps, OwnByte;
    GoesThrough(buf, m, [MINUS, ONE], l, CRLF, r);
  }

  lemma LineText(buf: Bytes, m: Msg, sign: byte, text: Bytes) returns (r: Msg)
    requires WellFormed(m) && m.st.ReadingLine? && (sign == PLUS || sign == MINUS || sign == COLON) && CR !in text
    requires Ahead(buf, m, [sign] + (text + CRLF))
    ensures Goes(buf, m, [sign] + (text + CRLF), r) && r.Msg?
    ensures r.start == m.start && r.len == m.len + |text| + 3 && r.need == m.need - 1
    ensures r.st == (if m.need == 1 then End else ReadingLine)
  {
    var k := m.(st := Str, len := m.len + 1, key := KeyStart(m.key, m.start + m.len));
    assert OwnByte(buf, m, sign) == Some(k);
    r := AfterText(buf, k, text);
    hide OwnByte, Goes, Steps;
    AheadSplit(buf, m, [sign], text + CRLF);
    GoesByte(buf, m, sign);
    TextLine(buf, k, text);
    GoesThrough(buf, m, [sign], k, text + CRLF, r);
  }

  /** A nested array: the outer layer follows the whole inner message. */
  lemma {:induction false} LineArray(buf: Bytes, m: Msg, v: Value) returns (r: Msg)
    requires WellFormed(m) && m.st.ReadingLine? && Legal(v) && (v.Array? || v.NullArray?) && Ahead(buf, m, Enc(v))
    ensures Goes(buf, m, Enc(v), r) && LineTaken(m, v, r)
    decreases v, 1
  {
    var p := m.start + m.len;
    assert buf[p] == buf[p..p + |Enc(v)|][0] == STAR;
    Opening(buf, m);
    hide OwnByte, Enc, Legal;
    var n := TopValue(buf, p, v);
    var m1 := Step(buf, m).value;
    StepAdvances(buf, m);
    StepAdvances(buf, Fresh(p));
    Nested(buf, m1, |Enc(v)| - 1, n);
    r := Inner(buf, m1, n);
  }

  /** The first byte of a nested array opens a layer that has read it. */
  lemma Opening(buf: Bytes, m: Msg)
    requires WellFormed(m) && m.st.ReadingLine? && m.start + m.len < |buf| && buf[m.start + m.len] == STAR
    ensures var f := Fresh(m.start + m.len);
            && Pos(f) == Pos(m) == m.start + m.len && Step(buf, f).Some? && Step(buf, m).Some?
            && Step(buf, m).value == m.(st := InNextLayer, next := Step(buf, f).value)
  {
  }

  /** A value read from its first byte: the reader is at its end exactly when the encoding
    * is, with the length of the encoding. */
  lemma {:induction false} TopValue(buf: Bytes, start: nat, v: Value) returns (r: Msg)
    requires Legal(v) && Ahead(buf, Fresh(start), Enc(v))
    ensures Goes(buf, Fresh(start), Enc(v), r) && r.Msg? && r.st.End? && r.len == |Enc(v)|
    decreases v, 0
  {
    var m := Fresh(start);
    match v {
      case Array(elems) =>
        r := TopArray(buf, start, elems);
      case NullArray =>
        assert Enc(v) == [STAR] + ([MINUS] + ([ONE] + CRLF));
        AheadSplit(buf, m, [STAR], [MINUS] + ([ONE] + CRLF));
        GoesByte(buf, m, STAR);
        var k := OwnByte(buf, m, STAR).value;
        r := NullArrayRest(buf, k);
        GoesThrough(buf, m, [STAR], k, [MINUS] + ([ONE] + CRLF), r);
      case Simple(text) => r := TopText(buf, m, PLUS, text);
      case Error(text) => r := TopText(buf, m, MINUS, text);
      case Integer(n) => r := TopText(buf, m, COLON, DecInt(n));
      case Bulk(data) =>
        var rest := BulkRest(data);
        AheadSplit(buf, m, [USD], rest);
        GoesByte(buf, m, USD);
        var k := OwnByte(buf, m, USD).value;
        BulkLine(buf, k, data);
        r := AfterBulk(buf, k, data);
        GoesThrough(buf, m, [USD], k, rest, r);
      case NullBulk =>
        var rest := [MINUS, ONE] + CRLF;
        AheadSplit(buf, m, [USD], rest);
        GoesByte(buf, m, USD);
        var k := OwnByte(buf, m, USD).value;
        r := NullLine(buf, k);
        GoesThrough(buf, m, [USD], k, rest, r);
    }
  }

  /** A message of one text line. */
  lemma TopText(buf: Bytes, m: Msg, sign: byte, text: Bytes) returns (r: Msg)
    requires m.Msg? && m == Fresh(m.start) && (sign == PLUS || sign == MINUS || sign == COLON || sign == PING)
             && CR !in text
    requires Ahead(buf, m, [sign] + (text + CRLF))
    ensures Goes(buf, m, [sign] + (text + CRLF), r) && r.Msg? && r.st.End? && r.len == |text| + 3
  {
    var k := m.(st := Str, len := 1, need := 1, err := sign == MINUS);
    assert OwnByte(buf, m, sign) == Some(k);
    r := AfterText(buf, k, text);
    hide OwnByte, Goes, Steps;
    AheadSplit(buf, m, [sign], text + CRLF);
    GoesByte(buf, m, sign);
    TextLine(buf, k, text);
    GoesThrough(buf, m, [sign], k, text + CRLF, r);
  }

  /** The end of an array header. */
  lemma HeaderEnd(buf: Bytes, m: Msg)
    requires WellFormed(m) && Ahead(buf, m, CRLF) && (m.st.NArg? || m.st.NArgZero?)
    ensures Goes(buf, m, CRLF, m.(len := m.len + 2, st := if m.need == 0 then End else ReadingLine))
  {
    var k := m.(len := m.len + 1, st := NArgCrlf);
    assert OwnByte(buf, m, CR) == Some(k);
    assert OwnByte(buf, k, LF) == Some(m.(len := m.len + 2, st := if m.need == 0 then End else ReadingLine));
    hide OwnByte;
    assert CRLF == [CR] + [LF];
    AheadSplit(buf, m, [CR], [LF]);
    GoesByte(buf, m, CR);
    GoesByte(buf, k, LF);
    GoesThrough(buf, m, [CR], k, [LF], m.(len := m.len + 2, st := if m.need == 0 then End else ReadingLine));
  }

  lemma NullArrayRest(buf: Bytes, m: Msg) returns (r: Msg)
    requires WellFormed(m) && m.st.NArg? && m.need == 0 && Ahead(buf, m, [MINUS] + ([ONE] + CRLF))
    ensures Goes(buf, m, [MINUS] + ([ONE] + CRLF), r) && r.Msg? && r.st.End? && r.len == m.len + 4 && r.start == m.start
  {
    var k := m.(st := NArgNegOne, len := m.len + 1);
    var l := m.(st := NArgZero, len := m.len + 2);
    assert OwnByte(buf, m, MINUS) == Some(k) && OwnByte(buf, k, ONE) == Some(l);
    r := m.(st := End, len := m.len + 4);
    hide OwnByte, Goes;
    AheadSplit(buf, m, [MINUS], [ONE] + CRLF);
    GoesByte(buf, m, MINUS);
    AheadSplit(buf, k, [ONE], CRLF);
    GoesByte(buf, k, ONE);
    HeaderEnd(buf, l);
    GoesThrough(buf, k, [ONE], l, CRLF, r);
    GoesThrough(buf, m, [MINUS], k, [ONE] + CRLF, r);
  }

  /** The header of an array of `n` elements. */
  function AfterHeader(start: nat, n: nat): (r: Msg)
    ensures r.Msg?
  {
    Msg(start, 3 + |Dec(n)|, if n == 0 then End else ReadingLine, n, 0, 0, false, NO_KEY, NoMsg)
  }

  lemma ArrayHeader(buf: Bytes, start: nat, n: nat)
    requires Ahead(buf, Fresh(start), ArrayHead(n))
    ensures Goes(buf, Fresh(start), ArrayHead(n), AfterHeader(start, n))
  {
    var m := Fresh(start);
    var k := m.(st := NArg, len := 1);
    assert OwnByte(buf, m, STAR) == Some(k);
    AheadSplit(buf, m, [STAR] + Dec(n), CRLF);
    AheadSplit(buf, m, [STAR], Dec(n));
    GoesByte(buf, m, STAR);
    var l := k.(need := n, len := 1 + |Dec(n)|, st := if n == 0 then NArgZero else NArg);
    if n == 0 {
      assert Dec(n) == [ZERO];
      GoesByte(buf, k, ZERO);
    } else {
      CountDigits(buf, k, n);
    }
    assert Goes(buf, k, Dec(n), l);
    hide OwnByte, Goes, Dec;
    GoesThrough(buf, m, [STAR], k, Dec(n), l);
    HeaderEnd(buf, l);
    GoesThrough(buf, m, [STAR] + Dec(n), l, CRLF, AfterHeader(start, n));
  }

  lemma {:induction false} TopArray(buf: Bytes, start: nat, elems: seq<Value>) returns (r: Msg)
    requires LegalAll(elems) && Ahead(buf, Fresh(start), Enc(Array(elems)))
    ensures Goes(buf, Fresh(start), Enc(Array(elems)), r) && r.Msg? && r.st.End? && r.len == |Enc(Array(elems))|
    decreases elems, 1
  {
    var head := ArrayHead(|elems|);
    AheadSplit(buf, Fresh(start), head, EncAll(elems));
    ArrayHeader(buf, start, |elems|);
    var k := AfterHeader(start, |elems|);
    r := Elements(buf, k, elems);
    hide Goes;
    GoesThrough(buf, Fresh(start), head, k, EncAll(elems), r);
  }

  /** The elements of an open array, to its end. */
  lemma {:induction false} Elements(buf: Bytes, m: Msg, vs: seq<Value>) returns (r: Msg)
    requires WellFormed(m) && LegalAll(vs) && m.need == |vs| && Ahead(buf, m, EncAll(vs))
    requires m.st == if |vs| == 0 then End else ReadingLine
    ensures Goes(buf, m, EncAll(vs), r) && r.Msg? && r.st.End? && r.len == m.len + |EncAll(vs)|
    decreases vs, 0
  {
    if |vs| == 0 {
      r := m;
    } else {
      AheadSplit(buf, m, Enc(vs[0]), EncAll(vs[1..]));
      var k := LineValue(buf, m, vs[0]);
      r := Elements(buf, k, vs[1..]);
      hide Steps;
      GoesThrough(buf, m, Enc(vs[0]), k, EncAll(vs[1..]), r);
    }
  }

  lemma {:induction false} FeedSteps(buf: Bytes, m: Msg, n: nat)
    requires WellFormed(m) && Pos(m) + n <= |buf| && Steps(buf, m, n).Some?
    ensures Feed(buf, m) == Feed(buf, Steps(buf, m, n).value)
    decreases n
  {
    hide Step;
    if n > 0 {
      StepAdvances(buf, m);
      assert !m.st.End? by { if m.st.End? { EndIsFinal(buf, m, n); } }
      FeedSteps(buf, Step(buf, m).value, n - 1);
    }
  }

  /** Whole values at the front of the buffer: the reader stops at the end of the first. */
  lemma FeedValue(buf: Bytes, v: Value) returns (r: Msg)
    requires Legal(v) && Enc(v) <= buf
    ensures Feed(buf, Fresh(0)) == Some(r) && r.Msg? && r.st.End? && r.len == |Enc(v)|
  {
    r := TopValue(buf, 0, v);
    FeedSteps(buf, Fresh(0), |Enc(v)|);
  }

  /** Part of a value: the reader takes all of it and is not at an end. */
  lemma FeedPart(buf: Bytes, v: Value)
    requires Legal(v) && buf < Enc(v)
    ensures Feed(buf, Fresh(0)).Some? && Feed(buf, Fresh(0)).value.Msg? && !Feed(buf, Fresh(0)).value.st.End?
  {
    var r := FeedValue(Enc(v), v);
    FeedInTwo(buf, Enc(v), Fresh(0));
  }

  /** The frames of a byte stream: as long as a whole message is at the front, cut it off. */
  function Cut(stream: Bytes): (frames: seq<Bytes>)
    decreases |stream|
  {
    var r := Feed(stream, Fresh(0));
    if r.Some? && r.value.st.End? && 0 < r.value.len <= |stream| then
      [stream[..r.value.len]] + Cut(stream[r.value.len..])
    else
      []
  }

  /** The stream begins with a message of `n` bytes. */
  predicate Begins(stream: Bytes, n: nat)
  {
    var r := Feed(stream, Fresh(0));
    r.Some? && r.value.st.End? && r.value.len == n && 0 < n <= |stream|
  }

  lemma CutOff(stream: Bytes, n: nat)
    requires Begins(stream, n)
    ensures Cut(stream) == [stream[..n]] + Cut(stream[n..])
  {
    hide Feed;
  }

  /** A value and what follows it. */
  lemma CutValue(v: Value, rest: Bytes)
    requires Legal(v)
    ensures Begins(Enc(v) + rest, |Enc(v)|) && Cut(Enc(v) + rest) == [Enc(v)] + Cut(rest)
  {
    hide Feed, Cut, Legal, Enc;
    var stream := Enc(v) + rest;
    assert Enc(v) <= stream;
    var r := FeedValue(stream, v);
    CutOff(stream, |Enc(v)|);
    assert stream[..|Enc(v)|] == Enc(v) && stream[|Enc(v)|..] == rest;
  }

  function EncEach(vs: seq<Value>): (es: seq<Bytes>)
    ensures |es| == |vs| && forall i | 0 <= i < |vs| :: es[i] == Enc(vs[i])
  {
    seq(|vs|, i requires 0 <= i < |vs| => Enc(vs[i]))
  }

  /** A stream of values, the last one perhaps not all there, is cut at the value boundaries. */
  lemma {:induction false} CutAtValues(vs: seq<Value>, tail: Bytes, last: Value)
    requires LegalAll(vs) && Legal(last) && tail < Enc(last)
    ensures Cut(EncAll(vs) + tail) == EncEach(vs)
    decreases |vs|
  {
    hide Feed, Enc, Legal;
    if |vs| == 0 {
      assert EncAll(vs) + tail == tail;
      FeedPart(tail, last);
    } else {
      var rest := EncAll(vs[1..]) + tail;
      assert EncAll(vs) + tail == Enc(vs[0]) + rest;
      CutValue(vs[0], rest);
      CutAtValues(vs[1..], tail, last);
      assert EncEach(vs) == [Enc(vs[0])] + EncEach(vs[1..]);
    }
  }
}
