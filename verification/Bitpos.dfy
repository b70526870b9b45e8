/** Finding the first set or clear bit of a string, a word at a time. */
module Bitpos {
  import opened Bits

  /** A bit of a string that goes on with zeros. */
  predicate BitOrZero(s: seq<bv8>, i: nat)
  {
    i < 8 * |s| && BitAt(s, i)
  }

  // ---- A word of eight bytes ----

  /** A word of eight bytes, the first one highest. */
  function Word(b0: bv8, b1: bv8, b2: bv8, b3: bv8, b4: bv8, b5: bv8, b6: bv8, b7: bv8): bv64
  {
    ((b0 as bv64) << 56) | ((b1 as bv64) << 48) | ((b2 as bv64) << 40) | ((b3 as bv64) << 32)
    | ((b4 as bv64) << 24) | ((b5 as bv64) << 16) | ((b6 as bv64) << 8) | (b7 as bv64)
  }

  function WordOf(bs: seq<bv8>): bv64
    requires |bs| == 8
  {
    Word(bs[0], bs[1], bs[2], bs[3], bs[4], bs[5], bs[6], bs[7])
  }

  lemma ShiftIn(b0: bv8, b1: bv8, b2: bv8, b3: bv8, b4: bv8, b5: bv8, b6: bv8, b7: bv8, b: bv8)
    ensures (Word(b0, b1, b2, b3, b4, b5, b6, b7) << 8) | (b as bv64) == Word(b1, b2, b3, b4, b5, b6, b7, b)
  {
  }

  lemma Loads(bs: seq<bv8>, b: bv8)
    requires |bs| == 8
    ensures (WordOf(bs) << 8) | (b as bv64) == WordOf(bs[1..] + [b])
  {
    hide Word;
    ShiftIn(bs[0], bs[1], bs[2], bs[3], bs[4], bs[5], bs[6], bs[7], b);
  }

  lemma DropByte(b0: bv8, b1: bv8, b2: bv8, b3: bv8, b4: bv8, b5: bv8, b6: bv8, b7: bv8)
    ensures Word(b0, b1, b2, b3, b4, b5, b6, b7) << 8 == Word(b1, b2, b3, b4, b5, b6, b7, 0)
  {
  }

  lemma HighByte(b0: bv8, b1: bv8, b2: bv8, b3: bv8, b4: bv8, b5: bv8, b6: bv8, b7: bv8)
    ensures Word(b0, b1, b2, b3, b4, b5, b6, b7) >> 56 == b0 as bv64
  {
  }

  lemma NoByte(b0: bv8, b1: bv8, b2: bv8, b3: bv8, b4: bv8, b5: bv8, b6: bv8, b7: bv8)
    ensures Word(b0, b1, b2, b3, b4, b5, b6, b7) == 0 <==>
            b0 == 0 && b1 == 0 && b2 == 0 && b3 == 0 && b4 == 0 && b5 == 0 && b6 == 0 && b7 == 0
  {
  }

  /** The highest bit, moved down `i` places. */
  function Mask(i: nat): bv64
  {
    if i == 0 then 0x8000_0000_0000_0000 else Halved(Mask(i - 1))
  }

  function Halved(x: bv64): bv64
  {
    x >> 1
  }

  /** A word a byte further down, or up. */
  function ByteDown(x: bv64): bv64
  {
    x >> 8
  }

  function ByteUp(x: bv64): bv64
  {
    x << 8
  }

  predicate Meets(x: bv64, y: bv64)
  {
    x & y != 0
  }

  predicate Test(word: bv64, i: nat)
  {
    Meets(Mask(i), word)
  }

  lemma MaskNext(i: nat)
    ensures Mask(i + 1) == Mask(i) >> 1
  {
  }

  lemma FirstMasks()
    ensures Mask(0) == 0x8000_0000_0000_0000 && Mask(1) == 0x4000_0000_0000_0000 && Mask(2) == 0x2000_0000_0000_0000
    ensures Mask(3) == 0x1000_0000_0000_0000 && Mask(4) == 0x0800_0000_0000_0000 && Mask(5) == 0x0400_0000_0000_0000
    ensures Mask(6) == 0x0200_0000_0000_0000 && Mask(7) == 0x0100_0000_0000_0000
  {
    MaskNext(0);
    MaskNext(1);
    MaskNext(2);
    MaskNext(3);
    MaskNext(4);
    MaskNext(5);
    MaskNext(6);
  }

  lemma TopBits(word: bv64, b: bv8)
    requires word >> 56 == b as bv64
    ensures (0x8000_0000_0000_0000 & word != 0) == ((b >> 7) & 1 != 0)
    ensures (0x4000_0000_0000_0000 & word != 0) == ((b >> 6) & 1 != 0)
    ensures (0x2000_0000_0000_0000 & word != 0) == ((b >> 5) & 1 != 0)
    ensures (0x1000_0000_0000_0000 & word != 0) == ((b >> 4) & 1 != 0)
    ensures (0x0800_0000_0000_0000 & word != 0) == ((b >> 3) & 1 != 0)
    ensures (0x0400_0000_0000_0000 & word != 0) == ((b >> 2) & 1 != 0)
    ensures (0x0200_0000_0000_0000 & word != 0) == ((b >> 1) & 1 != 0)
    ensures (0x0100_0000_0000_0000 & word != 0) == ((b >> 0) & 1 != 0)
  {
  }

  lemma TestTop(word: bv64, b: bv8, i: nat)
    requires word >> 56 == b as bv64 && i < 8
    ensures Test(word, i) == ByteBit(b, i)
  {
    hide Mask;
    FirstMasks();
    TopBits(word, b);
  }

  lemma ShiftEither(x: bv64, w: bv64)
    requires x & 0xFF == 0
    ensures Meets(x >> 8, w) == Meets(x, w << 8)
  {
  }

  lemma ShiftTest(x: bv64, w: bv64)
    requires GoodMask(x, false)
    ensures Meets(ByteDown(x), w) == Meets(x, ByteUp(w))
  {
    hide Meets;
    ShiftEither(x, w);
  }

  lemma MaskTwo(i: nat)
    ensures Mask(i + 2) == Mask(i) >> 2
  {
    hide Mask;
    MaskNext(i);
    MaskNext(i + 1);
  }

  lemma MaskFour(i: nat)
    ensures Mask(i + 4) == Mask(i) >> 4
  {
    hide Mask;
    MaskTwo(i);
    MaskTwo(i + 2);
  }

  lemma MaskThree(i: nat)
    ensures Mask(i + 3) == Mask(i) >> 3
  {
    hide Mask;
    MaskTwo(i);
    MaskNext(i + 2);
  }

  lemma MaskFive(i: nat)
    ensures Mask(i + 5) == Mask(i) >> 5
  {
    hide Mask;
    MaskFour(i);
    MaskNext(i + 4);
  }

  lemma MaskSix(i: nat)
    ensures Mask(i + 6) == Mask(i) >> 6
  {
    hide Mask;
    MaskFour(i);
    MaskTwo(i + 4);
  }

  lemma MaskSeven(i: nat)
    ensures Mask(i + 7) == Mask(i) >> 7
  {
    hide Mask;
    MaskSix(i);
    MaskNext(i + 6);
  }

  lemma MaskEight(i: nat)
    ensures Mask(i + 8) == Mask(i) >> 8
  {
    hide Mask;
    MaskFour(i);
    MaskFour(i + 4);
  }

  lemma MaskByte(i: nat)
    ensures Mask(i + 8) == ByteDown(Mask(i))
  {
    hide Mask;
    MaskEight(i);
  }

  lemma ByteMasks()
    ensures Mask(0) == 0x8000_0000_0000_0000 && Mask(8) == 0x0080_0000_0000_0000
    ensures Mask(16) == 0x0000_8000_0000_0000 && Mask(24) == 0x0000_0080_0000_0000
    ensures Mask(32) == 0x0000_0000_8000_0000 && Mask(40) == 0x0000_0000_0080_0000
    ensures Mask(48) == 0x0000_0000_0000_8000 && Mask(56) == 0x0000_0000_0000_0080
  {
    hide Mask;
    FirstMasks();
    MaskEight(0);
    MaskEight(8);
    MaskEight(16);
    MaskEight(24);
    MaskEight(32);
    MaskEight(40);
    MaskEight(48);
  }

  /** A byte's worth of masks from its first one. */
  predicate GoodMask(x: bv64, low: bool)
  {
    x != 0 && (low || x & 0xFF == 0)
  }

  lemma GoodByte(x: bv64, low: bool)
    requires x in {0x8000_0000_0000_0000, 0x0080_0000_0000_0000, 0x0000_8000_0000_0000, 0x0000_0080_0000_0000,
                   0x0000_0000_8000_0000, 0x0000_0000_0080_0000, 0x0000_0000_0000_8000} || (low && x == 0x80)
    ensures GoodMask(x, low) && GoodMask(x >> 1, low) && GoodMask(x >> 2, low) && GoodMask(x >> 3, low)
    ensures GoodMask(x >> 4, low) && GoodMask(x >> 5, low) && GoodMask(x >> 6, low) && GoodMask(x >> 7, low)
  {
  }

  /** The mask is there for 64 places, and clear of the lowest byte for 56. */
  lemma MaskGood(i: nat)
    requires i < 64
    ensures GoodMask(Mask(i), i >= 56)
  {
    hide Mask, GoodMask;
    var j := i / 8 * 8;
    ByteMasks();
    assert j == 0 || j == 8 || j == 16 || j == 24 || j == 32 || j == 40 || j == 48 || j == 56;
    GoodByte(Mask(j), i >= 56);
    MaskNext(j);
    MaskTwo(j);
    MaskThree(j);
    MaskFour(j);
    MaskFive(j);
    MaskSix(j);
    MaskSeven(j);
    assert i == j || i == j + 1 || i == j + 2 || i == j + 3 || i == j + 4 || i == j + 5 || i == j + 6 || i == j + 7;
  }

  lemma TestFirst(bs: seq<bv8>, i: nat)
    requires |bs| == 8 && i < 8
    ensures Test(WordOf(bs), i) == ByteBit(bs[0], i)
  {
    hide Word, Mask, ByteBit;
    HighByte(bs[0], bs[1], bs[2], bs[3], bs[4], bs[5], bs[6], bs[7]);
    TestTop(WordOf(bs), bs[0], i);
  }

  lemma TestDown(w: bv64, i: nat)
    requires 8 <= i < 64
    ensures Test(w, i) == Test(ByteUp(w), i - 8)
  {
    hide Mask, Meets, ByteDown, ByteUp, GoodMask;
    MaskByte(i - 8);
    MaskGood(i - 8);
    ShiftTest(Mask(i - 8), w);
  }

  lemma TestLater(bs: seq<bv8>, i: nat)
    requires |bs| == 8 && 8 <= i < 64
    ensures Test(WordOf(bs), i) == Test(WordOf(bs[1..] + [0]), i - 8)
  {
    hide Word, Test;
    DropByte(bs[0], bs[1], bs[2], bs[3], bs[4], bs[5], bs[6], bs[7]);
    TestDown(WordOf(bs), i);
  }

  /** Bit `i` of a word is bit `i` of its bytes. */
  lemma {:induction false} TestIs(bs: seq<bv8>, i: nat)
    requires |bs| == 8 && i < 64
    ensures Test(WordOf(bs), i) == BitAt(bs, i)
    decreases i
  {
    hide Test, WordOf, ByteBit;
    if i < 8 {
      TestFirst(bs, i);
    } else {
      var next := bs[1..] + [0];
      TestLater(bs, i);
      TestIs(next, i - 8);
      assert next[(i - 8) / 8] == bs[i / 8];
    }
  }

  // ---- The search ----

  /** None of the first `p` bytes has the bit. */
  ghost predicate Passed(s: seq<bv8>, p: nat, bit: bool)
  {
    forall i: nat | i < 8 * p :: BitOrZero(s, i) != bit
  }

  function Skip(bit: bool): bv8
  {
    if bit then 0 else 0xFF
  }

  /** A word of them. */
  function Skips(bit: bool): (w: seq<bv8>)
    ensures |w| == 8 && forall k | 0 <= k < 8 :: w[k] == Skip(bit)
  {
    seq(8, _ => Skip(bit))
  }

  lemma SkipBits(bit: bool, i: nat)
    requires i < 8
    ensures ByteBit(Skip(bit), i) != bit
  {
  }

  lemma PassByte(s: seq<bv8>, p: nat, bit: bool)
    requires p < |s| && Passed(s, p, bit) && s[p] == Skip(bit)
    ensures Passed(s, p + 1, bit)
  {
    hide ByteBit, Skip;
    forall i: nat | 8 * p <= i < 8 * (p + 1) ensures BitOrZero(s, i) != bit {
      SkipBits(bit, i - 8 * p);
    }
  }

  lemma PassWord(s: seq<bv8>, p: nat, n: nat, bit: bool)
    requires p + n <= |s| && Passed(s, p, bit) && forall k | p <= k < p + n :: s[k] == Skip(bit)
    ensures Passed(s, p + n, bit)
    decreases n
  {
    hide Passed, Skip;
    if n > 0 {
      PassByte(s, p, bit);
      PassWord(s, p + 1, n - 1, bit);
    }
  }

  /** The eight bytes at `p`, with zeros where the string is over. */
  function Window(s: seq<bv8>, p: nat): (bs: seq<bv8>)
    ensures |bs| == 8 && forall k | 0 <= k < 8 :: bs[k] == if p + k < |s| then s[p + k] else 0
  {
    seq(8, k requires 0 <= k < 8 => if p + k < |s| then s[p + k] else 0)
  }

  lemma ZeroByte(i: nat)
    requires i < 8
    ensures !ByteBit(0, i)
  {
  }

  lemma InWindow(s: seq<bv8>, p: nat, i: nat)
    requires i < 64
    ensures BitAt(Window(s, p), i) == BitOrZero(s, 8 * p + i)
  {
    hide ByteBit;
    ZeroByte(i % 8);
    assert (8 * p + i) / 8 == p + i / 8 && (8 * p + i) % 8 == i % 8;
  }

  /** A byte that is not all of one kind has the other. */
  lemma HasBit(b: bv8, bit: bool) returns (i: nat)
    requires b != Skip(bit)
    ensures i < 8 && ByteBit(b, i) == bit
  {
    if ByteBit(b, 0) == bit { return 0; }
    if ByteBit(b, 1) == bit { return 1; }
    if ByteBit(b, 2) == bit { return 2; }
    if ByteBit(b, 3) == bit { return 3; }
    if ByteBit(b, 4) == bit { return 4; }
    if ByteBit(b, 5) == bit { return 5; }
    if ByteBit(b, 6) == bit { return 6; }
    i := 7;
  }

  lemma HasBitIn(bs: seq<bv8>, k: nat, bit: bool) returns (t: nat)
    requires |bs| == 8 && k < 8 && bs[k] != Skip(bit)
    ensures t < 64 && BitAt(bs, t) == bit
  {
    hide ByteBit, Skip;
    var i := HasBit(bs[k], bit);
    t := 8 * k + i;
  }

  lemma ZeroWord(bs: seq<bv8>)
    requires |bs| == 8
    ensures WordOf(bs) == 0 <==> forall k | 0 <= k < 8 :: bs[k] == 0
  {
    hide Word;
    NoByte(bs[0], bs[1], bs[2], bs[3], bs[4], bs[5], bs[6], bs[7]);
  }

  /** Load the window byte by byte, shifting zeros in where the string is over. */
  method Load(s: seq<bv8>, p: nat) returns (word: bv64)
    requires p <= |s|
    ensures word == WordOf(Window(s, p))
  {
    hide Word;
    ghost var bs, w: seq<bv8> := Window(s, p), seq(8, _ => 0);
    word := 0;
    ZeroWord(w);
    var c := p;
    for j := 0 to 8
      invariant c == (if p + j < |s| then p + j else |s|)
      invariant |w| == 8 && word == WordOf(w)
      invariant w[8 - j..] == bs[..j]
    {
      var b: bv8 := 0;
      if c < |s| {
        b := s[c];
        c := c + 1;
      }
      assert b == bs[j];
      Loads(w, b);
      word := (word << 8) | (b as bv64);
      assert w[8 - j..] == bs[..j];
      ghost var v := w;
      w := w[1..] + [b];
      assert w[8 - (j + 1)..] == v[8 - j..] + [b] == bs[..j] + [bs[j]] == bs[..j + 1];
    }
    assert w == bs;
  }

  lemma FirstMask()
    ensures Mask(0) == 0x8000_0000_0000_0000
  {
  }

  lemma MaskStep(one: bv64, i: nat)
    requires one == Mask(i)
    ensures Halved(one) == Mask(i + 1)
  {
    hide Halved;
  }

  lemma TestOne(one: bv64, word: bv64, bs: seq<bv8>, i: nat)
    requires one == Mask(i) && |bs| == 8 && word == WordOf(bs) && i < 64
    ensures Meets(one, word) == BitAt(bs, i)
  {
    hide Mask, WordOf, BitAt, Meets;
    TestIs(bs, i);
  }

  lemma MaskThere(i: nat)
    requires i < 64
    ensures Mask(i) != 0
  {
    hide Mask;
    MaskGood(i);
  }

  /** The first bit of a kind in a word that has one. */
  method Scan(word: bv64, bit: bool, ghost bs: seq<bv8>, ghost t: nat) returns (i: nat)
    requires |bs| == 8 && word == WordOf(bs) && t < 64 && BitAt(bs, t) == bit
    ensures i < 64 && BitAt(bs, i) == bit && forall k: nat | k < i :: BitAt(bs, k) != bit
  {
    hide Mask, WordOf, ByteBit, BitAt, Meets, Halved;
    FirstMask();
    var one: bv64 := 0x8000_0000_0000_0000;
    i := 0;
    while one != 0
      invariant i <= t && one == Mask(i)
      invariant forall k: nat | k < i :: BitAt(bs, k) != bit
      decreases 64 - i
    {
      TestOne(one, word, bs, i);
      if Meets(one, word) == bit { return; }
      MaskStep(one, i);
      one := Halved(one);
      i := i + 1;
    }
    MaskThere(i);
    assert false;
  }

  lemma NonePassed(s: seq<bv8>, bit: bool)
    ensures Passed(s, 0, bit)
  {
  }

  /** The search stopped at `p`: less than a word is left, or a byte among the next eight has
    * what is looked for. */
  ghost predicate Stopped(s: seq<bv8>, p: nat, bit: bool)
  {
    p <= |s| && (|s| - p < 8 || exists k: nat | k < 8 :: Window(s, p)[k] != Skip(bit))
  }

  lemma StopsAtWord(s: seq<bv8>, p: nat, bit: bool)
    requires p + 8 <= |s| && s[p..p + 8] != Skips(bit)
    ensures Stopped(s, p, bit)
  {
    var w := s[p..p + 8];
    assert forall k: nat | k < 8 :: w[k] == Window(s, p)[k];
    assert (forall k: nat | k < 8 :: w[k] == Skip(bit)) ==> w == Skips(bit);
  }

  /** Nothing but zeros at the end. */
  lemma Exhausted(s: seq<bv8>, p: nat)
    requires Passed(s, p, true) && Stopped(s, p, true) && forall k | 0 <= k < 8 :: Window(s, p)[k] == 0
    ensures forall i: nat :: !BitOrZero(s, i)
  {
    hide ByteBit;
    forall i: nat ensures !BitOrZero(s, i) {
      if 8 * p <= i < 8 * |s| {
        InWindow(s, p, i - 8 * p);
        ZeroByte((i - 8 * p) % 8);
      }
    }
  }

  /** A byte of the window that has what is looked for. */
  lemma OddByte(s: seq<bv8>, p: nat, bit: bool) returns (k: nat)
    requires Stopped(s, p, bit) && (bit ==> exists j: nat | j < 8 :: Window(s, p)[j] != 0)
    ensures k < 8 && Window(s, p)[k] != Skip(bit)
  {
    if |s| - p < 8 && !bit {
      k := 7;
    } else {
      k :| k < 8 && Window(s, p)[k] != Skip(bit);
    }
  }

  lemma FoundAt(s: seq<bv8>, p: nat, bit: bool, i: nat)
    requires Passed(s, p, bit) && i < 64 && BitAt(Window(s, p), i) == bit
    requires forall k: nat | k < i :: BitAt(Window(s, p), k) != bit
    ensures BitOrZero(s, 8 * p + i) == bit && forall j: nat | j < 8 * p + i :: BitOrZero(s, j) != bit
  {
    hide BitAt, Window;
    InWindow(s, p, i);
    forall j: nat | j < 8 * p + i ensures BitOrZero(s, j) != bit {
      if j >= 8 * p {
        InWindow(s, p, j - 8 * p);
        assert BitAt(Window(s, p), j - 8 * p) != bit;
      }
    }
  }

  /** The position of the first bit of a kind, whatever the string's address; looking for a
    * set bit there may be none, a clear bit is found after the end at the latest. */
  method FirstBit(s: seq<bv8>, address: nat, bit: bool) returns (pos: int)
    ensures pos >= 0 ==> BitOrZero(s, pos) == bit && forall i: nat | i < pos :: BitOrZero(s, i) != bit
    ensures pos < 0 ==> pos == -1 && bit && forall i: nat :: !BitOrZero(s, i)
  {
    hide BitAt, WordOf, Skip, Passed;
    var p, found := 0, false;
    NonePassed(s, bit);
    while (address + p) % 8 != 0 && p < |s|
      invariant p <= |s| && Passed(s, p, bit)
      decreases |s| - p
    {
      if s[p] != Skip(bit) {
        found := true;
        break;
      }
      PassByte(s, p, bit);
      p := p + 1;
    }
    if !found {
      while |s| - p >= 8
        invariant p <= |s| && Passed(s, p, bit)
      {
        if s[p..p + 8] != Skips(bit) {
          StopsAtWord(s, p, bit);
          break;
        }
        assert forall k | p <= k < p + 8 :: s[k] == s[p..p + 8][k - p];
        PassWord(s, p, 8, bit);
        p := p + 8;
      }
    }
    ghost var bs := Window(s, p);
    assert found ==> bs[0] != Skip(bit);
    var word := Load(s, p);
    ZeroWord(bs);
    if bit && word == 0 {
      Exhausted(s, p);
      return -1;
    }
    ghost var k := OddByte(s, p, bit);
    ghost var t := HasBitIn(bs, k, bit);
    var i := Scan(word, bit, bs, t);
    pos := 8 * p + i;
    FoundAt(s, p, bit, i);
  }
}
