/** Hashing keys: the slot of a key in a cluster, and Bob Jenkins' hash read in words, half
  * words or bytes. */
module Slots {

  const OPEN: bv8 := 123
  const CLOSE: bv8 := 125

  /** The contribution of each byte, by table. */
  type Table = bv8 -> bv16

  /** Which entry of the table the next byte picks, and shifting the entry in: with a register
    * of 32 bits, and of 16. */
  function WideIndex(crc: bv32, b: bv8): bv8
  {
    (((crc >> 8) & 0xFF) as bv8) ^ b
  }

  function WidePush(crc: bv32, v: bv16): bv32
  {
    (crc << 8) ^ (v as bv32)
  }

  function NarrowIndex(crc: bv16, b: bv8): bv8
  {
    ((crc >> 8) as bv8) ^ b
  }

  function NarrowPush(crc: bv16, v: bv16): bv16
  {
    (crc << 8) ^ v
  }

  /** The checksum of 16 bits. */
  function Crc(t: Table, key: seq<bv8>): bv16
  {
    if |key| == 0 then 0
    else
      var crc := Crc(t, key[..|key| - 1]);
      NarrowPush(crc, t(NarrowIndex(crc, key[|key| - 1])))
  }

  function Low(crc: bv32): bv16
  {
    (crc & 0xFFFF) as bv16
  }

  lemma SameIndex(crc: bv32, b: bv8)
    ensures WideIndex(crc, b) == NarrowIndex(Low(crc), b)
  {
  }

  lemma SamePush(crc: bv32, v: bv16)
    ensures Low(WidePush(crc, v)) == NarrowPush(Low(crc), v)
  {
  }

  method Crc16(t: Table, key: seq<bv8>) returns (crc: bv32)
    ensures Low(crc) == Crc(t, key)
  {
    hide WideIndex, NarrowIndex, WidePush, NarrowPush, Low;
    crc := 0;
    LowZero();
    for x := 0 to |key|
      invariant Low(crc) == Crc(t, key[..x])
    {
      SameIndex(crc, key[x]);
      SamePush(crc, t(WideIndex(crc, key[x])));
      assert key[..x + 1][..x] == key[..x];
      crc := WidePush(crc, t(WideIndex(crc, key[x])));
    }
    assert key[..|key|] == key;
  }

  lemma LowZero()
    ensures Low(0) == 0
  {
  }

  /** The low 14 bits, of either register. */
  function Slot(crc: bv16): bv16
  {
    crc & 0x3FFF
  }

  function WideSlot(crc: bv32): bv16
  {
    (crc & 0x3FFF) as bv16
  }

  lemma SlotOfLow(crc: bv32)
    ensures WideSlot(crc) == Slot(Low(crc))
  {
  }

  /** One of 16384 slots. */
  function Remainder(crc: bv16): (slot: bv16)
    ensures slot < 16384
  {
    crc % 16384
  }

  lemma SlotIsRemainder(crc: bv16)
    ensures Slot(crc) == Remainder(crc)
  {
  }

  // ---- The checksum as a remainder of polynomials ----

  /** One bit is shifted out; if it was set, x^16 is replaced by x^12 + x^5 + 1. */
  function Divide(x: bv16): bv16
  {
    if x & 0x8000 != 0 then (x << 1) ^ 0x1021 else x << 1
  }

  function Divide2(x: bv16): bv16
  {
    Divide(Divide(x))
  }

  function Divide4(x: bv16): bv16
  {
    Divide2(Divide2(x))
  }

  function Divide8(x: bv16): bv16
  {
    Divide4(Divide4(x))
  }

  function High(b: bv8): bv16
  {
    (b as bv16) << 8
  }

  function Sum(x: bv16, y: bv16): bv16
  {
    x ^ y
  }

  /** The checksum bit by bit: the next byte is added at the top and eight bits are divided out. */
  function BitCrc(key: seq<bv8>): bv16
  {
    if |key| == 0 then 0 else Divide8(Sum(BitCrc(key[..|key| - 1]), High(key[|key| - 1])))
  }

  /** The table holds what each byte alone leaves. */
  ghost predicate IsTable(t: Table)
  {
    forall b :: t(b) == Divide8(High(b))
  }

  predicate Top(x: bv16)
  {
    x & 0x8000 != 0
  }

  function Up(x: bv16): bv16
  {
    x << 1
  }

  lemma TopOfSum(x: bv16, y: bv16)
    ensures Top(Sum(x, y)) <==> (Top(x) != Top(y))
  {
  }

  lemma UpOfSum(x: bv16, y: bv16)
    ensures Up(Sum(x, y)) == Sum(Up(x), Up(y))
  {
  }

  lemma SumOrder(x: bv16, y: bv16)
    ensures Sum(x, y) == Sum(y, x)
  {
  }

  lemma SumAssociates(x: bv16, y: bv16, z: bv16)
    ensures Sum(Sum(x, y), z) == Sum(x, Sum(y, z))
  {
  }

  lemma SumCancels(x: bv16, p: bv16)
    ensures Sum(Sum(x, p), p) == x
  {
  }

  lemma SumTwice(x: bv16, y: bv16, p: bv16)
    ensures Sum(Sum(x, p), y) == Sum(Sum(x, y), p) == Sum(x, Sum(y, p))
    ensures Sum(Sum(x, p), Sum(y, p)) == Sum(x, y)
  {
    hide Sum;
    SumOrder(y, p);
    SumAssociates(x, p, y);
    SumAssociates(x, y, p);
    SumAssociates(Sum(x, p), y, p);
    SumCancels(Sum(x, y), p);
  }

  lemma DivideIs(x: bv16)
    ensures Divide(x) == if Top(x) then Sum(Up(x), 0x1021) else Up(x)
  {
  }

  lemma DivideSum(x: bv16, y: bv16)
    ensures Divide(Sum(x, y)) == Sum(Divide(x), Divide(y))
  {
    hide Divide, Sum, Top, Up;
    DivideIs(x);
    DivideIs(y);
    DivideIs(Sum(x, y));
    TopOfSum(x, y);
    UpOfSum(x, y);
    SumTwice(Up(x), Up(y), 0x1021);
  }

  lemma Divide8Sum(x: bv16, y: bv16)
    ensures Divide8(Sum(x, y)) == Sum(Divide8(x), Divide8(y))
  {
    hide Divide, Sum;
    var x1, y1 := Divide(x), Divide(y);
    var x2, y2 := Divide(x1), Divide(y1);
    var x3, y3 := Divide(x2), Divide(y2);
    var x4, y4 := Divide(x3), Divide(y3);
    var x5, y5 := Divide(x4), Divide(y4);
    var x6, y6 := Divide(x5), Divide(y5);
    var x7, y7 := Divide(x6), Divide(y6);
    DivideSum(x, y);
    DivideSum(x1, y1);
    DivideSum(x2, y2);
    DivideSum(x3, y3);
    DivideSum(x4, y4);
    DivideSum(x5, y5);
    DivideSum(x6, y6);
    DivideSum(x7, y7);
  }

  function LowByte(x: bv16): bv16
  {
    x & 0xFF
  }

  /** Eight bits below the top are only moved up. */
  lemma LowMovesUp(x: bv16)
    ensures Divide8(LowByte(x)) == x << 8
  {
  }

  lemma Apart(crc: bv16, b: bv8)
    ensures Sum(crc, High(b)) == Sum(LowByte(crc), High(NarrowIndex(crc, b)))
  {
  }

  lemma PushIs(crc: bv16, v: bv16)
    ensures NarrowPush(crc, v) == Sum(crc << 8, v)
  {
  }

  /** With such a table a byte at a time is eight bits at a time. */
  lemma {:induction false} CrcIsDivision(t: Table, key: seq<bv8>)
    requires IsTable(t)
    ensures Crc(t, key) == BitCrc(key)
  {
    if |key| > 0 {
      var init, b := key[..|key| - 1], key[|key| - 1];
      CrcIsDivision(t, init);
      var crc := BitCrc(init);
      hide Divide8, Sum, LowByte, High, NarrowIndex, NarrowPush;
      Apart(crc, b);
      Divide8Sum(LowByte(crc), High(NarrowIndex(crc, b)));
      LowMovesUp(crc);
      PushIs(crc, t(NarrowIndex(crc, b)));
    }
  }

  /** The key "foo". */
  lemma SlotOfFoo(t: Table)
    requires IsTable(t)
    ensures Crc(t, [102, 111, 111]) == 44950 && Remainder(Crc(t, [102, 111, 111])) == 12182
  {
    var one: seq<bv8>, two: seq<bv8>, foo: seq<bv8> := [102], [102, 111], [102, 111, 111];
    assert one[..0] == [] && two[..1] == one && foo[..2] == two;
    CrcIsDivision(t, foo);
    assert BitCrc(one) == Divide8(0x6600);
    assert BitCrc(two) == Divide8(Sum(BitCrc(one), 0x6f00));
    assert BitCrc(foo) == Divide8(Sum(BitCrc(two), 0x6f00));
  }

  /** The first `c` at or after `from`, or the end. */
  function Find(key: seq<bv8>, c: bv8, from: nat): (i: nat)
    requires from <= |key|
    ensures from <= i <= |key| && (i < |key| ==> key[i] == c) && forall j | from <= j < i :: key[j] != c
    decreases |key| - from
  {
    if from == |key| || key[from] == c then from else Find(key, c, from + 1)
  }

  /** What of a key is hashed: what stands between its first `{` and the next `}`, if there is
    * anything there, and all of it otherwise. */
  function Hashed(key: seq<bv8>): seq<bv8>
  {
    var s := Find(key, OPEN, 0);
    if s == |key| then key
    else
      var e := Find(key, CLOSE, s + 1);
      if e == |key| || e == s + 1 then key else key[s + 1..e]
  }

  method KeyHashSlot(t: Table, key: seq<bv8>) returns (slot: bv16)
    ensures slot == Remainder(Crc(t, Hashed(key)))
  {
    hide Low, Slot, WideSlot, Crc, Remainder;
    var s := 0;
    while s < |key|
      invariant s <= |key| && Find(key, OPEN, 0) == Find(key, OPEN, s)
    {
      if key[s] == OPEN { break; }
      s := s + 1;
    }
    var crc;
    if s == |key| {
      crc := Crc16(t, key);
      SlotOfLow(crc);
      SlotIsRemainder(Low(crc));
      return WideSlot(crc);
    }
    var e := s + 1;
    while e < |key|
      invariant e <= |key| && Find(key, CLOSE, s + 1) == Find(key, CLOSE, e)
    {
      if key[e] == CLOSE { break; }
      e := e + 1;
    }
    if e == |key| || e == s + 1 {
      crc := Crc16(t, key);
    } else {
      crc := Crc16(t, key[s + 1..e]);
    }
    SlotOfLow(crc);
    SlotIsRemainder(Low(crc));
    slot := WideSlot(crc);
  }

  lemma FindIs(key: seq<bv8>, c: bv8, from: nat, i: nat)
    requires from <= i < |key| && key[i] == c && forall j | from <= j < i :: key[j] != c
    ensures Find(key, c, from) == i
  {
  }

  /** Only the tag is hashed, whatever stands around it: keys with the same tag share a slot. A tag
    * stands between the bytes 0x7B and 0x7D, the curly brackets. */
  lemma OnlyTheTag(before: seq<bv8>, tag: seq<bv8>, after: seq<bv8>)
    requires 0x7B !in before && 0x7D !in tag && |tag| > 0
    ensures Hashed(before + [0x7B] + tag + [0x7D] + after) == tag
  {
    var key := before + [OPEN] + tag + [CLOSE] + after;
    var s := |before|;
    var e := s + 1 + |tag|;
    assert forall j | 0 <= j < s :: key[j] == before[j];
    FindIs(key, OPEN, 0, s);
    assert forall j | s + 1 <= j < e :: key[j] == tag[j - (s + 1)];
    FindIs(key, CLOSE, s + 1, e);
    assert key[s + 1..e] == tag;
  }

  /** A key without a tag is hashed whole: no `{`, no `}` after the first `{`, or nothing in
    * between. */
  lemma NoTagWholeKey(before: seq<bv8>, after: seq<bv8>)
    requires 0x7B !in before
    ensures Hashed(before) == before
    ensures 0x7D !in after ==> Hashed(before + [0x7B] + after) == before + [0x7B] + after
    ensures Hashed(before + [0x7B, 0x7D] + after) == before + [0x7B, 0x7D] + after
  {
    var s := |before|;
    var a, b := before + [OPEN] + after, before + [OPEN, CLOSE] + after;
    assert forall j | 0 <= j < s :: a[j] == before[j] && b[j] == before[j];
    FindIs(a, OPEN, 0, s);
    FindIs(b, OPEN, 0, s);
    assert forall j | s + 1 <= j < |a| :: a[j] == after[j - (s + 1)];
  }
}

/** Bob Jenkins' hash: the same for a key at any address. */
module Jenkins {
  import opened Seqs

  const TWO8 := 0x100
  const TWO16 := 0x1_0000
  const TWO24 := 0x100_0000
  const TWO32 := 0x1_0000_0000

  type word = x: int | 0 <= x < 0x1_0000_0000

  datatype Abc = Abc(a: word, b: word, c: word)

  /** The scrambling of the state after a block, and what is made of it after the last one. */
  datatype Scramble = Scramble(mix: Abc -> Abc, last: Abc -> word)

  /** Addition of 32-bit words. */
  function Plus(x: word, y: nat): word
  {
    (x + y) % TWO32
  }

  // ---- The hash of a key ----

  /** A word of four bytes, lowest first. */
  function Quad(b0: byte, b1: byte, b2: byte, b3: byte): word
  {
    b0 + TWO8 * b1 + TWO16 * b2 + TWO24 * b3
  }

  function ByteAt(key: Bytes, i: nat): byte
  {
    if i < |key| then key[i] else 0
  }

  function QuadAt(key: Bytes, i: nat): word
  {
    Quad(ByteAt(key, i), ByteAt(key, i + 1), ByteAt(key, i + 2), ByteAt(key, i + 3))
  }

  /** Twelve bytes, with zeros where the key is over, added to the state. */
  function Absorb(s: Abc, key: Bytes): Abc
  {
    Abc(Plus(s.a, QuadAt(key, 0)), Plus(s.b, QuadAt(key, 4)), Plus(s.c, QuadAt(key, 8)))
  }

  /** All blocks but the last are mixed in; the last, of one to twelve bytes, is finished. */
  function Hash(f: Scramble, s: Abc, key: Bytes): word
    decreases |key|
  {
    if |key| > 12 then Hash(f, f.mix(Absorb(s, key)), key[12..])
    else if |key| == 0 then s.c
    else f.last(Absorb(s, key))
  }

  function Init(len: nat): Abc
  {
    var v := (0xdeadbeef + len + 13) % TWO32;
    Abc(v, v, v)
  }

  /** The three words start alike: with the empty key, and seen through a key that is a zero byte. */
  lemma StartsWith(f: Scramble)
    ensures Hash(f, Init(0), []) == 0xdeadbefc
    ensures (forall s: Abc :: f.last(s) == s.a) ==> Hash(f, Init(1), [0]) == 0xdeadbefd
    ensures (forall s: Abc :: f.last(s) == s.b) ==> Hash(f, Init(1), [0]) == 0xdeadbefd
    ensures (forall s: Abc :: f.last(s) == s.c) ==> Hash(f, Init(1), [0]) == 0xdeadbefd
  {
    assert Absorb(Init(1), [0]) == Init(1);
  }

  // ---- One word's worth of a block, read in three ways ----

  /** From a word of memory, cut to the bytes that are the key's own. */
  function InWords(x: word, mem: Bytes, i: nat, bytes: nat): word
    requires 1 <= bytes <= 4 && i + 4 <= |mem|
  {
    var k := Quad(mem[i], mem[i + 1], mem[i + 2], mem[i + 3]);
    if bytes == 4 then Plus(x, k)
    else if bytes == 3 then Plus(x, k % TWO24)
    else if bytes == 2 then Plus(x, k % TWO16)
    else Plus(x, k % TWO8)
  }

  function Half(b0: byte, b1: byte): nat
  {
    b0 + TWO8 * b1
  }

  /** From half words, and a byte if their number is odd. */
  function InHalves(x: word, mem: Bytes, i: nat, bytes: nat): word
    requires 1 <= bytes <= 4 && i + bytes <= |mem|
  {
    if bytes == 4 then Plus(x, Half(mem[i], mem[i + 1]) + TWO16 * Half(mem[i + 2], mem[i + 3]))
    else if bytes == 3 then Plus(Plus(x, TWO16 * mem[i + 2]), Half(mem[i], mem[i + 1]))
    else if bytes == 2 then Plus(x, Half(mem[i], mem[i + 1]))
    else Plus(x, mem[i])
  }

  /** From bytes, the first of them first, as in whole blocks. */
  function Rising(x: word, mem: Bytes, i: nat): word
    requires i + 4 <= |mem|
  {
    Plus(Plus(Plus(Plus(x, mem[i]), TWO8 * mem[i + 1]), TWO16 * mem[i + 2]), TWO24 * mem[i + 3])
  }

  /** From bytes, the last of them first, as the cases of the last block fall through. */
  function Falling(x: word, mem: Bytes, i: nat, bytes: nat): word
    requires 1 <= bytes <= 4 && i + bytes <= |mem|
  {
    var x3 := if bytes == 4 then Plus(x, TWO24 * mem[i + 3]) else x;
    var x2 := if bytes >= 3 then Plus(x3, TWO16 * mem[i + 2]) else x3;
    var x1 := if bytes >= 2 then Plus(x2, TWO8 * mem[i + 1]) else x2;
    Plus(x1, mem[i])
  }

  /** The part of the key at `i` of a block at `p` with `n` bytes left. */
  predicate PartOf(mem: Bytes, p: nat, n: nat, i: nat, bytes: nat)
  {
    p + n <= |mem| && 1 <= bytes <= 4 && (i + bytes == n || (bytes == 4 && i + 4 <= n))
  }

  lemma PlusTwice(x: word, y: nat, z: nat)
    ensures Plus(Plus(x, y), z) == Plus(x, y + z)
  {
  }

  lemma Cuts(b0: byte, b1: byte, b2: byte, b3: byte)
    ensures Quad(b0, b1, b2, b3) % TWO24 == Quad(b0, b1, b2, 0)
    ensures Quad(b0, b1, b2, b3) % TWO16 == Quad(b0, b1, 0, 0)
    ensures Quad(b0, b1, b2, b3) % TWO8 == Quad(b0, 0, 0, 0)
  {
  }

  lemma WordsAgree(x: word, mem: Bytes, p: nat, n: nat, i: nat, bytes: nat)
    requires PartOf(mem, p, n, i, bytes) && p + i + 4 <= |mem|
    ensures InWords(x, mem, p + i, bytes) == Plus(x, QuadAt(mem[p..p + n], i))
  {
    hide Quad, Plus;
    var q := p + i;
    Cuts(mem[q], mem[q + 1], mem[q + 2], mem[q + 3]);
  }

  lemma HalvesAgree(x: word, mem: Bytes, p: nat, n: nat, i: nat, bytes: nat)
    requires PartOf(mem, p, n, i, bytes)
    ensures InHalves(x, mem, p + i, bytes) == Plus(x, QuadAt(mem[p..p + n], i))
  {
    hide Plus;
    var q := p + i;
    if bytes == 3 {
      PlusTwice(x, TWO16 * mem[q + 2], Half(mem[q], mem[q + 1]));
    }
  }

  lemma RisingAgrees(x: word, mem: Bytes, p: nat, n: nat, i: nat)
    requires PartOf(mem, p, n, i, 4)
    ensures Rising(x, mem, p + i) == Plus(x, QuadAt(mem[p..p + n], i))
  {
    hide Plus;
    var q := p + i;
    PlusTwice(x, mem[q], TWO8 * mem[q + 1]);
    PlusTwice(x, mem[q] + TWO8 * mem[q + 1], TWO16 * mem[q + 2]);
    PlusTwice(x, mem[q] + TWO8 * mem[q + 1] + TWO16 * mem[q + 2], TWO24 * mem[q + 3]);
  }

  lemma FallingAgrees(x: word, mem: Bytes, p: nat, n: nat, i: nat, bytes: nat)
    requires PartOf(mem, p, n, i, bytes)
    ensures Falling(x, mem, p + i, bytes) == Plus(x, QuadAt(mem[p..p + n], i))
  {
    hide Plus;
    var q := p + i;
    if bytes == 4 {
      PlusTwice(x, TWO24 * mem[q + 3], TWO16 * mem[q + 2]);
      PlusTwice(x, TWO24 * mem[q + 3] + TWO16 * mem[q + 2], TWO8 * mem[q + 1]);
      PlusTwice(x, TWO24 * mem[q + 3] + TWO16 * mem[q + 2] + TWO8 * mem[q + 1], mem[q]);
    } else if bytes == 3 {
      PlusTwice(x, TWO16 * mem[q + 2], TWO8 * mem[q + 1]);
      PlusTwice(x, TWO16 * mem[q + 2] + TWO8 * mem[q + 1], mem[q]);
    } else if bytes == 2 {
      PlusTwice(x, TWO8 * mem[q + 1], mem[q]);
    }
  }

  lemma NothingThere(x: word, key: Bytes, i: nat)
    requires |key| <= i
    ensures Plus(x, QuadAt(key, i)) == x
  {
  }

  // ---- The last block ----

  datatype Reading = Words | Halves | Singles

  predicate Readable(r: Reading, mem: Bytes, i: nat, bytes: nat)
  {
    1 <= bytes <= 4 && i + (if r.Words? then 4 else bytes) <= |mem|
  }

  function Part(r: Reading, x: word, mem: Bytes, i: nat, bytes: nat): word
    requires Readable(r, mem, i, bytes)
  {
    match r
    case Words => InWords(x, mem, i, bytes)
    case Halves => InHalves(x, mem, i, bytes)
    case Singles => Falling(x, mem, i, bytes)
  }

  lemma PartsAgree(r: Reading, x: word, mem: Bytes, p: nat, n: nat, i: nat, bytes: nat)
    requires PartOf(mem, p, n, i, bytes) && Readable(r, mem, p + i, bytes)
    ensures Part(r, x, mem, p + i, bytes) == Plus(x, QuadAt(mem[p..p + n], i))
  {
    hide InWords, InHalves, Falling, Plus, QuadAt;
    match r
    case Words => WordsAgree(x, mem, p, n, i, bytes);
    case Halves => HalvesAgree(x, mem, p, n, i, bytes);
    case Singles => FallingAgrees(x, mem, p, n, i, bytes);
  }

  /** Memory that can be read from `p` on for `n` bytes: up to the end of the last word when
    * it is read in words. */
  predicate Mapped(r: Reading, mem: Bytes, p: nat, n: nat)
  {
    p + (if r.Words? then (n + 3) / 4 * 4 else n) <= |mem|
  }

  /** The last block: one case for every length. */
  function Last(r: Reading, s: Abc, mem: Bytes, p: nat, n: nat): Abc
    requires 1 <= n <= 12 && Mapped(r, mem, p, n)
  {
    if n > 8 then Abc(Part(r, s.a, mem, p, 4), Part(r, s.b, mem, p + 4, 4), Part(r, s.c, mem, p + 8, n - 8))
    else if n > 4 then Abc(Part(r, s.a, mem, p, 4), Part(r, s.b, mem, p + 4, n - 4), s.c)
    else Abc(Part(r, s.a, mem, p, n), s.b, s.c)
  }

  lemma LastAgrees(r: Reading, s: Abc, mem: Bytes, p: nat, n: nat)
    requires 1 <= n <= 12 && Mapped(r, mem, p, n) && p + n <= |mem|
    ensures Last(r, s, mem, p, n) == Absorb(s, mem[p..p + n])
  {
    hide Part, Plus, QuadAt;
    var key := mem[p..p + n];
    if n > 8 {
      PartsAgree(r, s.a, mem, p, n, 0, 4);
      PartsAgree(r, s.b, mem, p, n, 4, 4);
      PartsAgree(r, s.c, mem, p, n, 8, n - 8);
    } else if n > 4 {
      PartsAgree(r, s.a, mem, p, n, 0, 4);
      PartsAgree(r, s.b, mem, p, n, 4, n - 4);
      NothingThere(s.c, key, 8);
    } else {
      PartsAgree(r, s.a, mem, p, n, 0, n);
      NothingThere(s.b, key, 4);
      NothingThere(s.c, key, 8);
    }
  }

  // ---- Whole blocks ----

  function Block(r: Reading, s: Abc, mem: Bytes, p: nat): Abc
    requires p + 12 <= |mem|
  {
    match r
    case Words => Abc(InWords(s.a, mem, p, 4), InWords(s.b, mem, p + 4, 4), InWords(s.c, mem, p + 8, 4))
    case Halves => Abc(InHalves(s.a, mem, p, 4), InHalves(s.b, mem, p + 4, 4), InHalves(s.c, mem, p + 8, 4))
    case Singles => Abc(Rising(s.a, mem, p), Rising(s.b, mem, p + 4), Rising(s.c, mem, p + 8))
  }

  lemma BlockAgrees(r: Reading, s: Abc, mem: Bytes, p: nat, n: nat)
    requires n >= 12 && p + n <= |mem|
    ensures Block(r, s, mem, p) == Absorb(s, mem[p..p + n])
  {
    hide InWords, InHalves, Rising, Plus, QuadAt;
    match r
    case Words =>
      WordsAgree(s.a, mem, p, n, 0, 4);
      WordsAgree(s.b, mem, p, n, 4, 4);
      WordsAgree(s.c, mem, p, n, 8, 4);
    case Halves =>
      HalvesAgree(s.a, mem, p, n, 0, 4);
      HalvesAgree(s.b, mem, p, n, 4, 4);
      HalvesAgree(s.c, mem, p, n, 8, 4);
    case Singles =>
      RisingAgrees(s.a, mem, p, n, 0);
      RisingAgrees(s.b, mem, p, n, 4);
      RisingAgrees(s.c, mem, p, n, 8);
  }

  /** The hash of the first `len` bytes of memory at any address: in words, half words or
    * bytes, whichever the address allows, and whatever follows the key in its last word. */
  method HashKey(f: Scramble, mem: Bytes, len: nat, address: nat) returns (h: word)
    requires len <= |mem| && (address % 4 == 0 ==> (len + 3) / 4 * 4 <= |mem|)
    ensures h == Hash(f, Init(len), mem[..len])
  {
    hide Block, Last, Absorb, Init;
    var r := if address % 4 == 0 then Words else if address % 2 == 0 then Halves else Singles;
    var s, p := Init(len), 0;
    assert mem[0..len] == mem[..len];
    while len - p > 12
      invariant p <= len && p % 4 == 0 && Hash(f, s, mem[p..len]) == Hash(f, Init(len), mem[..len])
    {
      BlockAgrees(r, s, mem, p, len - p);
      assert mem[p..len][12..] == mem[p + 12..len];
      s := f.mix(Block(r, s, mem, p));
      p := p + 12;
    }
    if len == p { return s.c; }
    LastAgrees(r, s, mem, p, len - p);
    h := f.last(Last(r, s, mem, p, len - p));
  }
}
