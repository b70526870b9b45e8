/** The message digest of a stream that comes in pieces. */
module Md5 {
  import opened Seqs

  const TWO8 := 0x100
  const TWO29 := 0x2000_0000
  const TWO32 := 0x1_0000_0000
  const TWO64 := 0x1_0000_0000_0000_0000

  type word = x: int | 0 <= x < 0x1_0000_0000

  /** The four chaining words. */
  datatype Chain = Chain(a: word, b: word, c: word, d: word)

  const INIT := Chain(0x67452301, 0xefcdab89, 0x98badcfe, 0x10325476)

  /** Folding one block of 64 bytes into the chaining words. */
  type Compress = (Chain, Bytes) -> Chain

  /** The blocks of a message folded in one after the other. */
  function Fold(f: Compress, c: Chain, m: Bytes): Chain
    requires |m| % 64 == 0
    decreases |m|
  {
    if |m| == 0 then c else Fold(f, f(c, m[..64]), m[64..])
  }

  lemma {:induction false} FoldAppend(f: Compress, c: Chain, a: Bytes, b: Bytes)
    requires |a| % 64 == 0 && |b| % 64 == 0
    ensures Fold(f, c, a + b) == Fold(f, Fold(f, c, a), b)
    decreases |a|
  {
    if |a| == 0 {
      assert a + b == b;
    } else {
      assert (a + b)[..64] == a[..64] && (a + b)[64..] == a[64..] + b;
      FoldAppend(f, f(c, a[..64]), a[64..], b);
    }
  }

  // ---- The digest as sections 3.1 to 3.5 of RFC 1321 define it ----

  /** The low `n` bytes of a number, least significant first. */
  function Little(v: nat, n: nat): (r: Bytes)
    ensures |r| == n
  {
    if n == 0 then [] else [v % 256] + Little(v / 256, n - 1)
  }

  function Zeros(n: nat): (r: Bytes)
    ensures |r| == n
  {
    seq(n, _ => 0)
  }

  /** Section 3.1: a one bit and as few zero bits as leave 8 bytes short of a block. */
  function Padding(len: nat): (r: Bytes)
    ensures 1 <= |r| <= 64 && (len + |r|) % 64 == 56
  {
    [0x80] + Zeros((119 - len % 64) % 64)
  }

  /** Section 3.2: the number of bits, or its low 64 bits. */
  function Length(len: nat): (r: Bytes)
    ensures |r| == 8
  {
    Little(8 * len % TWO64, 8)
  }

  function Padded(m: Bytes): Bytes
  {
    m + Padding(|m|) + Length(|m|)
  }

  lemma PaddedWhole(m: Bytes)
    ensures |Padded(m)| % 64 == 0
  {
    hide Padding, Length;
  }

  /** Sections 3.3 to 3.5. */
  function Digest(f: Compress, m: Bytes): (r: Bytes)
    ensures |r| == 16
  {
    PaddedWhole(m);
    var c := Fold(f, INIT, Padded(m));
    Little(c.a, 4) + Little(c.b, 4) + Little(c.c, 4) + Little(c.d, 4)
  }

  /** Section 3.3: the chaining words start as these bytes, lowest first. */
  lemma StartsWith()
    ensures Little(INIT.a, 4) + Little(INIT.b, 4) + Little(INIT.c, 4) + Little(INIT.d, 4)
            == [0x01, 0x23, 0x45, 0x67, 0x89, 0xab, 0xcd, 0xef, 0xfe, 0xdc, 0xba, 0x98, 0x76, 0x54, 0x32, 0x10]
  {
    hide Little;
    LittleWord(0x01, 0x23, 0x45, 0x67);
    LittleWord(0x89, 0xab, 0xcd, 0xef);
    LittleWord(0xfe, 0xdc, 0xba, 0x98);
    LittleWord(0x76, 0x54, 0x32, 0x10);
  }

  lemma LittleStep(b: byte, more: nat, n: nat)
    ensures Little(b + TWO8 * more, n + 1) == [b] + Little(more, n)
  {
    assert (b + TWO8 * more) % 256 == b && (b + TWO8 * more) / 256 == more;
  }

  /** The word of four bytes, lowest first. */
  function WordOf(b0: byte, b1: byte, b2: byte, b3: byte): word
  {
    b0 + TWO8 * (b1 + TWO8 * (b2 + TWO8 * b3))
  }

  lemma LittleWord(b0: byte, b1: byte, b2: byte, b3: byte)
    ensures Little(WordOf(b0, b1, b2, b3), 4) == [b0, b1, b2, b3]
  {
    hide Little;
    LittleStep(b0, b1 + TWO8 * (b2 + TWO8 * b3), 3);
    LittleStep(b1, b2 + TWO8 * b3, 2);
    LittleStep(b2, b3, 1);
    LittleStep(b3, 0, 0);
    assert |Little(0, 0)| == 0;
  }

  function WordAt(bs: Bytes, i: nat): word
    requires i + 4 <= |bs|
  {
    WordOf(bs[i], bs[i + 1], bs[i + 2], bs[i + 3])
  }

  lemma {:induction false} FoldConstant(f: Compress, c: Chain, last: Chain, m: Bytes)
    requires |m| % 64 == 0 && (|m| > 0 || c == last) && forall x, b :: f(x, b) == last
    ensures Fold(f, c, m) == last
    decreases |m|
  {
    if |m| > 0 {
      FoldConstant(f, f(c, m[..64]), last, m[64..]);
    }
  }

  /** Section 3.5: whatever the last block leaves in the words is the digest, first word first and
    * lowest byte first. */
  lemma DigestOrder(f: Compress, bs: Bytes, m: Bytes)
    requires |bs| == 16
    requires forall x, b :: f(x, b) == Chain(WordAt(bs, 0), WordAt(bs, 4), WordAt(bs, 8), WordAt(bs, 12))
    ensures Digest(f, m) == bs
  {
    PaddedWhole(m);
    hide Little, WordAt;
    FoldConstant(f, INIT, Chain(WordAt(bs, 0), WordAt(bs, 4), WordAt(bs, 8), WordAt(bs, 12)), Padded(m));
    WordBytes(bs, 0);
    WordBytes(bs, 4);
    WordBytes(bs, 8);
    WordBytes(bs, 12);
  }

  lemma WordBytes(bs: Bytes, i: nat)
    requires i + 4 <= |bs|
    ensures Little(WordAt(bs, i), 4) == bs[i..i + 4]
  {
    hide Little;
    LittleWord(bs[i], bs[i + 1], bs[i + 2], bs[i + 3]);
  }

  // ---- The stream ----

  function Whole(n: nat): (w: nat)
    ensures w <= n && w % 64 == 0 && n - w == n % 64
  {
    n - n % 64
  }

  /** The length in 29 and 32 bits, the words so far, and what is left of the last block. */
  ghost predicate Tracks(f: Compress, fed: Bytes, chain: Chain, lo: nat, hi: nat, buffer: Bytes)
  {
    && lo == |fed| % TWO29
    && hi == |fed| / TWO29 % TWO32
    && chain == Fold(f, INIT, fed[..Whole(|fed|)])
    && |buffer| == 64
    && buffer[..|fed| % 64] == fed[Whole(|fed|)..]
  }

  /** The carry out of the low 29 bits is seen by their wrapping round. */
  lemma LengthGrows(n: nat, size: nat, lo: nat, carry: nat)
    requires lo == (n % TWO29 + size) % TWO29 && carry == if lo < n % TWO29 then 1 else 0
    ensures lo == (n + size) % TWO29
    ensures (n / TWO29 % TWO32 + carry) % TWO32 == (n / TWO29 + carry) % TWO32
    ensures ((n / TWO29 + carry) % TWO32 + size / TWO29) % TWO32 == (n + size) / TWO29 % TWO32
  {
    assert (n + size) / TWO29 == n / TWO29 + carry + size / TWO29;
  }

  /** A message cut after its last whole block. */
  lemma CutAtBlock(done: Bytes, rest: Bytes)
    requires |done| % 64 == 0 && |rest| < 64
    ensures Whole(|done + rest|) == |done| && (done + rest)[..|done|] == done && (done + rest)[|done|..] == rest
    ensures |done + rest| % 64 == |rest|
  {
  }

  class Md5Context {
    const f: Compress
    var chain: Chain
    var lo: nat
    var hi: nat
    const buffer: array<byte>
    ghost var fed: Bytes

    ghost predicate Valid()
      reads this, buffer
    {
      buffer.Length == 64 && Tracks(f, fed, chain, lo, hi, buffer[..])
    }

    constructor (f: Compress)
      ensures Valid() && fresh(buffer) && fed == [] && this.f == f
    {
      this.f := f;
      chain, lo, hi, fed := INIT, 0, 0, [];
      buffer := new byte[64](_ => 0);
    }

    /** Fold whole blocks of `data`. */
    method Body(data: Bytes)
      requires |data| % 64 == 0
      modifies `chain
      ensures chain == Fold(f, old(chain), data)
    {
      var ptr := 0;
      assert data[0..] == data;
      while ptr < |data|
        invariant ptr <= |data| && ptr % 64 == 0
        invariant Fold(f, chain, data[ptr..]) == Fold(f, old(chain), data)
      {
        assert data[ptr..][..64] == data[ptr..ptr + 64] && data[ptr..][64..] == data[ptr + 64..];
        chain := f(chain, data[ptr..ptr + 64]);
        ptr := ptr + 64;
      }
      assert data[ptr..] == [];
    }

    /** Count more bytes. */
    method Count(size: nat)
      requires lo == |fed| % TWO29 && hi == |fed| / TWO29 % TWO32
      modifies `lo, `hi
      ensures lo == (|fed| + size) % TWO29 && hi == (|fed| + size) / TWO29 % TWO32
    {
      var savedLo := lo;
      lo := (savedLo + size) % TWO29;
      LengthGrows(|fed|, size, lo, if lo < savedLo then 1 else 0);
      if lo < savedLo {
        hi := (hi + 1) % TWO32;
      }
      hi := (hi + size / TWO29) % TWO32;
    }

    /** Take what comes after a whole number of blocks. */
    method Absorb(rest: Bytes, ghost done: Bytes)
      requires buffer.Length == 64 && |done| % 64 == 0 && chain == Fold(f, INIT, done)
      modifies `chain, buffer
      ensures chain == Fold(f, INIT, (done + rest)[..Whole(|done + rest|)])
      ensures buffer[..|done + rest| % 64] == (done + rest)[Whole(|done + rest|)..]
    {
      var n := |rest| - |rest| % 64;
      var tail := rest[n..];
      assert done + rest == done + rest[..n] + tail;
      CutAtBlock(done + rest[..n], tail);
      FoldAppend(f, INIT, done, rest[..n]);
      if |rest| >= 64 {
        Body(rest[..n]);
      }
      assert n == 0 ==> rest[..n] == [] && done + rest[..n] == done;
      forall i | 0 <= i < |tail| { buffer[i] := tail[i]; }
      assert buffer[..|tail|] == tail;
    }

    /** Take what comes after part of a block. */
    method TopUp(data: Bytes, used: nat, ghost done: Bytes, ghost left: Bytes)
      requires buffer.Length == 64 && |done| % 64 == 0 && chain == Fold(f, INIT, done)
      requires 0 < used < 64 && buffer[..used] == left
      modifies `chain, buffer
      ensures var all := done + left + data;
              chain == Fold(f, INIT, all[..Whole(|all|)]) && buffer[..|all| % 64] == all[Whole(|all|)..]
    {
      hide Fold;
      var free := 64 - used;
      if |data| < free {
        forall i | 0 <= i < |data| { buffer[used + i] := data[i]; }
        assert done + left + data == done + (left + data);
        CutAtBlock(done, left + data);
        assert buffer[..used + |data|] == left + data;
        return;
      }
      forall i | 0 <= i < free { buffer[used + i] := data[i]; }
      assert buffer[..] == left + data[..free];
      FoldAppend(f, INIT, done, buffer[..]);
      assert done + left + data == done + buffer[..] + data[free..];
      Body(buffer[..]);
      Absorb(data[free..], done + buffer[..]);
    }

    /** Take more of the stream, in any piece. */
    method Update(data: Bytes)
      requires Valid()
      modifies this, buffer
      ensures Valid() && fed == old(fed) + data
    {
      hide Fold;
      ghost var cut := Whole(|fed|);
      ghost var done, left := fed[..cut], fed[cut..];
      assert fed == done + left;
      LowBits(|fed|);
      var used := lo % 64;
      Count(|data|);
      fed := fed + data;
      if used == 0 {
        assert left == [] && done + left == done;
        Absorb(data, done);
      } else {
        TopUp(data, used, done, left);
      }
    }

    /** The number of bits in the last eight bytes of the block. */
    method PutLength(ghost n: nat)
      requires buffer.Length == 64 && lo == n % TWO29 && hi == n / TWO29 % TWO32
      modifies `lo, buffer
      ensures buffer[..56] == old(buffer[..56]) && buffer[56..] == Length(n)
    {
      lo := lo * 8;
      LengthIs(n, lo, hi);
      buffer[56], buffer[57], buffer[58], buffer[59] := lo % 256, lo / 256 % 256, lo / 65536 % 256, lo / 16777216 % 256;
      buffer[60], buffer[61], buffer[62], buffer[63] := hi % 256, hi / 256 % 256, hi / 65536 % 256, hi / 16777216 % 256;
    }

    /** The one bit and the zeros after it, in a block of their own if there is no room for the
      * length behind them. */
    method Pad(used: nat, ghost done: Bytes, ghost left: Bytes) returns (ghost head: Bytes)
      requires buffer.Length == 64 && |done| % 64 == 0 && chain == Fold(f, INIT, done)
      requires used < 64 && buffer[..used] == left
      modifies `chain, buffer
      ensures |head| % 64 == 0 && chain == Fold(f, INIT, head)
      ensures head + buffer[..56] == done + left + Padding(|done + left|)
    {
      hide Fold, Padding;
      PaddingParts(done, left);
      buffer[used] := 0x80;
      head := done;
      var at := used + 1;
      ghost var block := left + [0x80];
      assert buffer[..at] == block;
      var free := 64 - at;
      if free < 8 {
        forall i | 0 <= i < free { buffer[at + i] := 0; }
        assert buffer[..] == block + Zeros(free);
        FoldAppend(f, INIT, done, buffer[..]);
        head := done + buffer[..];
        Body(buffer[..]);
        block := [];
        at := 0;
        free := 64;
      }
      forall i | 0 <= i < free - 8 { buffer[at + i] := 0; }
      assert buffer[..56] == block + Zeros(free - 8);
    }

    /** End the stream and give its digest. */
    method Final() returns (result: Bytes)
      requires Valid()
      modifies this, buffer
      ensures result == Digest(f, old(fed))
    {
      hide Fold, Padding, Length, Little;
      ghost var cut := Whole(|fed|);
      ghost var done, left := fed[..cut], fed[cut..];
      assert fed == done + left;
      LowBits(|fed|);
      ghost var head := Pad(lo % 64, done, left);
      PutLength(|fed|);
      assert head + buffer[..] == head + buffer[..56] + buffer[56..];
      FoldAppend(f, INIT, head, buffer[..]);
      Body(buffer[..]);
      result := Little(chain.a, 4) + Little(chain.b, 4) + Little(chain.c, 4) + Little(chain.d, 4);
    }
  }

  /** How the padding falls into blocks. */
  lemma PaddingParts(done: Bytes, left: Bytes)
    requires |done| % 64 == 0 && |left| < 64
    ensures var block := left + [0x80];
            var free := 64 - |block|;
            done + left + Padding(|done + left|) ==
              if free < 8 then done + (block + Zeros(free)) + ([] + Zeros(56)) else done + (block + Zeros(free - 8))
  {
    var free := 63 - |left|;
    assert |done + left| % 64 == |left|;
    if free < 8 {
      assert Zeros(free + 56) == Zeros(free) + Zeros(56);
    }
  }

  lemma LittleNext(v: nat, n: nat)
    ensures Little(v, n + 1) == [v % 256] + Little(v / 256, n)
  {
  }

  lemma Towers(v: nat)
    ensures v / 256 / 256 == v / 65536 && v / 256 / 256 / 256 == v / 16777216 && v / 256 / 256 / 256 / 256 == v / TWO32
  {
  }

  lemma LittleChain(v: nat, v1: nat, v2: nat, v3: nat, v4: nat)
    requires v1 == v / 256 && v2 == v1 / 256 && v3 == v2 / 256 && v4 == v3 / 256
    ensures Little(v, 4) == [v % 256, v1 % 256, v2 % 256, v3 % 256]
    ensures Little(v, 8) == Little(v, 4) + Little(v4, 4)
  {
    assert Little(v4, 0) == [];
    hide Little;
    LittleNext(v, 3);
    LittleNext(v1, 2);
    LittleNext(v2, 1);
    LittleNext(v3, 0);
    LittleNext(v, 7);
    LittleNext(v1, 6);
    LittleNext(v2, 5);
    LittleNext(v3, 4);
  }

  lemma LittleFour(v: nat)
    ensures Little(v, 4) == [v % 256, v / 256 % 256, v / 65536 % 256, v / 16777216 % 256]
    ensures Little(v, 8) == Little(v, 4) + Little(v / TWO32, 4)
  {
    hide Little;
    Towers(v);
    LittleChain(v, v / 256, v / 65536, v / 16777216, v / TWO32);
  }

  /** A number with `n` bytes put below it. */
  function Above(hi: nat, n: nat): nat
  {
    if n == 0 then hi else 256 * Above(hi, n - 1)
  }

  lemma {:induction false} LowBytes(low: nat, hi: nat, n: nat)
    ensures Little(low + Above(hi, n), n) == Little(low, n)
    decreases n
  {
    if n > 0 {
      var t := Above(hi, n - 1);
      assert (low + 256 * t) % 256 == low % 256 && (low + 256 * t) / 256 == low / 256 + t;
      LowBytes(low / 256, hi, n - 1);
    }
  }

  /** The bit count of `n` bytes in two words. */
  lemma Halves(n: nat, low: nat, hi: nat)
    requires low == n % TWO29 * 8 && hi == n / TWO29 % TWO32
    ensures 8 * n % TWO64 == low + TWO32 * hi && 8 * n % TWO64 / TWO32 == hi
  {
    var p, t, r := n / TWO29 / TWO32, hi, n % TWO29;
    assert n == (p * TWO32 + t) * TWO29 + r;
    assert 8 * n == p * TWO64 + (t * TWO32 + 8 * r);
    Remainder(8 * n, p, t * TWO32 + 8 * r, TWO64);
  }

  lemma Remainder(v: nat, q: nat, r: nat, m: nat)
    requires v == q * m + r && r < m
    ensures v % m == r
  {
    var k := v / m - q;
    assert k * m == r - v % m;
    Multiples(k, m);
  }

  lemma Multiples(k: int, m: int)
    requires m >= 0
    ensures (k >= 1 ==> k * m >= m) && (k <= -1 ==> k * m <= -m)
  {
  }

  lemma Shifted(hi: nat)
    ensures Above(hi, 2) == 65536 * hi && Above(hi, 4) == TWO32 * hi
  {
    assert Above(hi, 2) == 256 * Above(hi, 1) == 65536 * hi;
    assert Above(hi, 4) == 256 * Above(hi, 3) == 65536 * Above(hi, 2);
  }

  lemma LengthIs(n: nat, low: nat, hi: nat)
    requires low == n % TWO29 * 8 && hi == n / TWO29 % TWO32
    ensures Length(n) == [low % 256, low / 256 % 256, low / 65536 % 256, low / 16777216 % 256]
                         + [hi % 256, hi / 256 % 256, hi / 65536 % 256, hi / 16777216 % 256]
  {
    hide Little, Above;
    var v := 8 * n % TWO64;
    Halves(n, low, hi);
    LittleFour(v);
    LittleFour(low);
    LittleFour(hi);
    LowBytes(low, hi, 4);
    Shifted(hi);
  }

  lemma LowBits(n: nat)
    ensures n % TWO29 % 64 == n % 64
  {
  }
}
