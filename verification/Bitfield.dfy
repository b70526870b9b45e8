/** Bitmaps, bit 0 being the most significant bit of the first byte. */
module Bits {

  /** The distance of bit `i` of a byte from its least significant bit. */
  function Shift(i: nat): (k: bv8)
    requires i < 8
    ensures k < 8
  {
    match i
    case 0 => 7
    case 1 => 6
    case 2 => 5
    case 3 => 4
    case 4 => 3
    case 5 => 2
    case 6 => 1
    case 7 => 0
  }

  predicate ByteBit(b: bv8, i: nat)
    requires i < 8
  {
    (b >> Shift(i)) & 1 != 0
  }

  /** Bit 0 is the highest of a byte and bit 7 the lowest. */
  lemma BitOrder(i: nat)
    requires i < 8
    ensures ByteBit(0x80, i) <==> i == 0
    ensures ByteBit(0x01, i) <==> i == 7
  {
  }

  predicate BitAt(p: seq<bv8>, i: nat)
    requires i < 8 * |p|
  {
    ByteBit(p[i / 8], i % 8)
  }

  /** A byte with bit `i` cleared and then set to `v`. */
  function PutBit(b: bv8, i: nat, v: bool): bv8
    requires i < 8
  {
    (b & !(1 << Shift(i))) | ((if v then 1 else 0) << Shift(i))
  }

  lemma PutBv(b: bv8, k: bv8, j: bv8, v: bv8)
    requires k < 8 && j < 8 && v <= 1
    ensures (((b & !(1 << k)) | (v << k)) >> j) & 1 == if j == k then v else (b >> j) & 1
  {
  }

  lemma ShiftDiffers(i: nat, j: nat)
    requires i < 8 && j < 8
    ensures Shift(i) == Shift(j) <==> i == j
  {
  }

  lemma PutBitAt(b: bv8, i: nat, j: nat, v: bool)
    requires i < 8 && j < 8
    ensures ByteBit(PutBit(b, i, v), j) == if i == j then v else ByteBit(b, j)
  {
    hide Shift;
    ShiftDiffers(i, j);
    PutBv(b, Shift(i), Shift(j), if v then 1 else 0);
  }

  /** A bitmap with one bit put. */
  lemma PutBitIn(p: seq<bv8>, i: nat, v: bool, q: seq<bv8>)
    requires i < 8 * |p| && q == p[i / 8 := PutBit(p[i / 8], i % 8, v)]
    ensures forall j: nat | j < 8 * |p| :: BitAt(q, j) == if j == i then v else BitAt(p, j)
  {
    hide ByteBit, PutBit;
    forall j: nat | j < 8 * |p| ensures BitAt(q, j) == if j == i then v else BitAt(p, j) {
      PutBitAt(p[i / 8], i % 8, j % 8, v);
    }
  }

  function Pow2(n: nat): (r: nat)
    ensures r > 0
  {
    if n == 0 then 1 else 2 * Pow2(n - 1)
  }

  /** The number in `n` bits from `at` on, most significant first. */
  function Field(p: seq<bv8>, at: nat, n: nat): (r: nat)
    requires at + n <= 8 * |p|
    ensures r < Pow2(n)
  {
    if n == 0 then 0 else 2 * Field(p, at, n - 1) + (if BitAt(p, at + n - 1) then 1 else 0)
  }

  /** Bit `k` of a number, least significant first. */
  predicate NumberBit(v: nat, k: nat)
  {
    v / Pow2(k) % 2 == 1
  }

  /** Bits that are a number's own give back the number. */
  lemma {:induction false} FieldOfNumber(p: seq<bv8>, at: nat, n: nat, v: nat, k: nat)
    requires at + n <= 8 * |p|
    requires forall i: nat | at <= i < at + n :: BitAt(p, i) == NumberBit(v, k + (at + n - 1 - i))
    ensures Field(p, at, n) == v / Pow2(k) % Pow2(n)
    decreases n
  {
    hide BitAt, NumberBit;
    if n > 0 {
      FieldOfNumber(p, at, n - 1, v, k + 1);
      assert BitAt(p, at + n - 1) == NumberBit(v, k);
      NextBit(v, k, n);
    } else {
      assert v / Pow2(k) % 1 == 0;
    }
  }

  lemma NextBit(v: nat, k: nat, n: nat)
    requires n > 0
    ensures v / Pow2(k) % Pow2(n) == 2 * (v / Pow2(k + 1) % Pow2(n - 1)) + if NumberBit(v, k) then 1 else 0
  {
    HalfDivides(v, k);
    LastBit(v / Pow2(k), n);
  }

  lemma HalfDivides(v: nat, k: nat)
    ensures v / Pow2(k + 1) == v / Pow2(k) / 2
  {
    var d := Pow2(k);
    var q := v / d;
    assert Pow2(k + 1) == 2 * d;
    DivDiv(v, d);
  }

  lemma DivDiv(v: nat, d: nat)
    requires d > 0
    ensures v / (2 * d) == v / d / 2
  {
    var q, r := v / d, v % d;
    var h, b := q / 2, q % 2;
    assert v == q * d + r;
    assert q == 2 * h + b;
    assert v == h * (2 * d) + (b * d + r);
    assert 0 <= b * d + r < 2 * d;
    DivUnique(v, 2 * d, h, b * d + r);
  }

  lemma Times(k: int, d: int)
    requires d > 0
    ensures k >= 1 ==> k * d >= d
    ensures k <= -1 ==> k * d <= -d
  {
  }

  lemma DivUnique(v: nat, d: nat, q: nat, r: nat)
    requires d > 0 && v == q * d + r && r < d
    ensures v / d == q && v % d == r
  {
    var q1, r1 := v / d, v % d;
    var k := q1 - q;
    assert k * d == q1 * d - q * d == r - r1;
    Times(k, d);
  }

  lemma LastBit(w: nat, n: nat)
    requires n > 0
    ensures w % Pow2(n) == 2 * (w / 2 % Pow2(n - 1)) + w % 2
  {
    var d := Pow2(n - 1);
    var h := w / 2;
    var q, r := h / d, h % d;
    assert h == q * d + r;
    assert w == 2 * h + w % 2;
    assert w == q * (2 * d) + (2 * r + w % 2);
    DivUnique(w, 2 * d, q, 2 * r + w % 2);
  }
}

/** Integers of any width at any place of a bitmap. */
module Bitfields {
  import opened Seqs
  import opened Bits

  const TWO64: int := 0x1_0000_0000_0000_0000
  const TWO63: int := 0x8000_0000_0000_0000

  /** The 64 bits of a number, and the signed number 64 bits stand for. */
  function Unsigned64(v: int): (r: nat)
    ensures r < TWO64
  {
    v % TWO64
  }

  function Signed64(v: int): int
  {
    (v + TWO63) % TWO64 - TWO63
  }

  /** Put `bits` bits of `value` at `offset`. */
  method SetUnsigned(p: array<bv8>, offset: nat, bits: nat, value: nat)
    requires offset + bits <= 8 * p.Length
    modifies p
    ensures Field(p[..], offset, bits) == value % Pow2(bits)
    ensures forall i: nat | i < 8 * p.Length && !(offset <= i < offset + bits) ::
            BitAt(p[..], i) == old(BitAt(p[..], i))
  {
    hide BitAt, Field, NumberBit, PutBit;
    ghost var before := p[..];
    var at, j := offset, 0;
    while j < bits
      invariant j <= bits && at == offset + j
      invariant forall i: nat | offset <= i < offset + j :: BitAt(p[..], i) == NumberBit(value, offset + bits - 1 - i)
      invariant forall i: nat | i < 8 * p.Length && !(offset <= i < offset + j) :: BitAt(p[..], i) == BitAt(before, i)
    {
      ghost var q := p[..];
      var bitval := NumberBit(value, bits - 1 - j);
      var byte := at / 8;
      p[byte] := PutBit(p[byte], at % 8, bitval);
      PutBitIn(q, at, bitval, p[..]);
      at := at + 1;
      j := j + 1;
    }
    FieldOfNumber(p[..], offset, bits, value, 0);
  }

  /** Read `bits` bits at `offset`. */
  method GetUnsigned(p: seq<bv8>, offset: nat, bits: nat) returns (value: nat)
    requires offset + bits <= 8 * |p|
    ensures value == Field(p, offset, bits)
  {
    var at, j := offset, 0;
    value := 0;
    while j < bits
      invariant j <= bits && at == offset + j && value == Field(p, offset, j)
    {
      var bitval := ByteBit(p[at / 8], at % 8);
      value := value * 2 + (if bitval then 1 else 0);
      at := at + 1;
      j := j + 1;
    }
  }

  // ---- Signed integers ----

  /** The signed number that `bits` bits stand for. */
  function ToSigned(u: nat, bits: nat): int
    requires bits > 0
  {
    if u >= Pow2(bits - 1) then u - Pow2(bits) else u
  }

  /** The number congruent to `v` that fits `bits` bits. */
  function Wrapped(v: int, signed: bool, bits: nat): int
    requires bits > 0
  {
    if signed then ToSigned(v % Pow2(bits), bits) else v % Pow2(bits)
  }

  function Max(signed: bool, bits: nat): int
    requires bits > 0
  {
    if signed then Pow2(bits - 1) - 1 else Pow2(bits) - 1
  }

  function Min(signed: bool, bits: nat): int
    requires bits > 0
  {
    if signed then -(Pow2(bits - 1) as int) else 0
  }

  predicate Fits(v: int, signed: bool, bits: nat)
    requires bits > 0
  {
    Min(signed, bits) <= v <= Max(signed, bits)
  }

  lemma PowerOf64()
    ensures Pow2(63) == TWO63 && Pow2(64) == TWO64
  {
    assert Pow2(8) == 256;
    PowAdd(8, 8);
    PowAdd(16, 16);
    PowAdd(32, 31);
    PowAdd(31, 1);
    PowAdd(32, 32);
  }

  lemma {:induction false} PowAdd(a: nat, b: nat)
    ensures Pow2(a + b) == Pow2(a) * Pow2(b)
    decreases a
  {
    if a > 0 {
      PowAdd(a - 1, b);
      assert Pow2(a + b) == 2 * Pow2(a - 1 + b);
    }
  }

  lemma {:induction false} PowGrows(a: nat, b: nat)
    requires a <= b
    ensures Pow2(a) <= Pow2(b)
    decreases b
  {
    if a < b {
      PowGrows(a, b - 1);
    }
  }

  /** A number's remainder, however many multiples are put on it first. */
  lemma ModShift(v: int, q: int, d: nat)
    requires d > 0
    ensures (v + q * d) % d == v % d
  {
    var a, b := v / d, (v + q * d) / d;
    var k := b - a - q;
    assert k * d == b * d - a * d - q * d;
    assert k * d == v % d - (v + q * d) % d;
    Times(k, d);
  }

  lemma ModOfMultiple(v: int, m: nat, d: nat, k: nat)
    requires d > 0 && m > 0 && m == k * d
    ensures v % m % d == v % d
  {
    var q := v / m;
    var w := v % m;
    assert w == v - q * m;
    assert q * m == (q * k) * d;
    ModShift(w, q * k, d);
  }

  /** Taking 64 bits first loses none of the lower ones. */
  lemma LowBits(v: int, bits: nat)
    requires bits <= 64
    ensures Unsigned64(v) % Pow2(bits) == v % Pow2(bits)
  {
    PowerOf64();
    PowAdd(64 - bits, bits);
    hide Pow2;
    ModOfMultiple(v, TWO64, Pow2(bits), Pow2(64 - bits));
  }

  lemma SmallMod(v: int, d: nat)
    requires d > 0
    ensures 0 <= v < d ==> v % d == v
    ensures -(d as int) <= v < 0 ==> v % d == v + d
  {
    if 0 <= v < d {
      DivUnique(v, d, 0, v);
    } else if -(d as int) <= v < 0 {
      DivUnique(v + d, d, 0, v + d);
      ModShift(v, 1, d);
    }
  }

  /** A number that fits comes back from its bits. */
  lemma WrapsToItself(v: int, signed: bool, bits: nat)
    requires bits > 0 && Fits(v, signed, bits)
    ensures Wrapped(v, signed, bits) == v
  {
    assert Pow2(bits) == 2 * Pow2(bits - 1);
    SmallMod(v, Pow2(bits));
    hide Pow2;
  }

  lemma WrappedFits(v: int, signed: bool, bits: nat)
    requires bits > 0
    ensures Fits(Wrapped(v, signed, bits), signed, bits)
  {
  }

  method SetSigned(p: array<bv8>, offset: nat, bits: nat, value: int)
    requires offset + bits <= 8 * p.Length && bits <= 64
    modifies p
    ensures Field(p[..], offset, bits) == value % Pow2(bits)
    ensures forall i: nat | i < 8 * p.Length && !(offset <= i < offset + bits) ::
            BitAt(p[..], i) == old(BitAt(p[..], i))
  {
    LowBits(value, bits);
    SetUnsigned(p, offset, bits, Unsigned64(value));
  }

  /** Read the bits and spread the sign bit over all higher ones. A shift by 64 is not defined,
    * so a field of 64 bits is read only while its sign bit is clear. */
  method GetSigned(p: seq<bv8>, offset: nat, bits: nat) returns (value: int)
    requires offset + bits <= 8 * |p| && 0 < bits <= 64
    requires bits == 64 ==> Field(p, offset, bits) < TWO63
    ensures value == ToSigned(Field(p, offset, bits), bits)
  {
    hide Pow2, Signed64, NumberBit;
    var u := GetUnsigned(p, offset, bits);
    SignBit(u, bits);
    if bits < 64 {
      SignSpread(u, bits);
    } else {
      PowerOf64();
      SmallSigned(u);
    }
    value := Signed64(u);
    if NumberBit(u, bits - 1) {
      value := Signed64(u + (TWO64 - Pow2(bits)));
    }
  }

  lemma SignBit(u: nat, bits: nat)
    requires 0 < bits && u < Pow2(bits)
    ensures NumberBit(u, bits - 1) <==> u >= Pow2(bits - 1)
  {
    var d := Pow2(bits - 1);
    if u >= d {
      DivUnique(u, d, 1, u - d);
    } else {
      DivUnique(u, d, 0, u);
    }
  }

  // ---- Overflow ----

  datatype Overflow = Wrap | Sat | Fail

  /** Zero if nothing overflows, 1 or -1 for too much or too little, and the number to store
    * instead; with `Fail` none is given. */
  datatype Check = Check(code: int, limit: Option<int>)

  predicate Int64(v: int)
  {
    -TWO63 <= v < TWO63
  }

  /** The low bits of a 64-bit sum, and the same with the sign bit spread. */
  function WrapUnsigned(value: int, incr: int, bits: nat): int
  {
    Unsigned64(value + incr) % Pow2(bits)
  }

  function WrapSigned(value: int, incr: int, bits: nat): int
    requires 0 < bits
  {
    var low := Unsigned64(Unsigned64(value) + Unsigned64(incr)) % Pow2(bits);
    Signed64(if low >= Pow2(bits - 1) then low + (TWO64 - Pow2(bits)) else low)
  }

  /** Whether `value + incr` overflows `bits` unsigned bits, in 64-bit arithmetic. */
  function CheckUnsigned(value: nat, incr: int, bits: nat, ow: Overflow): (c: Check)
    requires 0 < bits < 64 && value < TWO64 && Int64(incr)
  {
    var max := Pow2(bits) - 1;
    var maxincr, minincr := Signed64(max - value), Signed64(0 - value);
    if value > max || (incr > 0 && incr > maxincr) then
      match ow
      case Wrap => Check(1, Some(WrapUnsigned(value, incr, bits)))
      case Sat => Check(1, Some(max))
      case Fail => Check(1, None)
    else if incr < 0 && incr < minincr then
      match ow
      case Wrap => Check(1, Some(WrapUnsigned(value, incr, bits)))
      case Sat => Check(-1, Some(0))
      case Fail => Check(-1, None)
    else Check(0, None)
  }

  /** The same for signed bits. The differences are 64-bit too, and may themselves overflow. */
  function CheckSigned(value: int, incr: int, bits: nat, ow: Overflow): (c: Check)
    requires 0 < bits <= 64 && Int64(value) && Int64(incr) && (ow == Wrap ==> bits < 64)
  {
    var max := Pow2(bits - 1) - 1;
    var min := -max - 1;
    var maxincr, minincr := Signed64(max - value), Signed64(min - value);
    if value > max || (bits != 64 && incr > maxincr) || (value >= 0 && incr > 0 && incr > maxincr) then
      match ow
      case Wrap => Check(1, Some(WrapSigned(value, incr, bits)))
      case Sat => Check(1, Some(max))
      case Fail => Check(1, None)
    else if value < min || (bits != 64 && incr < minincr) || (value < 0 && incr < 0 && incr < minincr) then
      match ow
      case Wrap => Check(1, Some(WrapSigned(value, incr, bits)))
      case Sat => Check(-1, Some(min))
      case Fail => Check(-1, None)
    else Check(0, None)
  }

  /** What a check should say of a sum: whether it fits, which way it does not, and its
    * wrapped or nearest fitting value. A wrapped result is always reported as 1. */
  predicate Right(c: Check, sum: int, signed: bool, bits: nat, ow: Overflow)
    requires bits > 0
  {
    && (c.code == 0 <==> Fits(sum, signed, bits))
    && (ow != Wrap ==> (c.code == 1 <==> sum > Max(signed, bits)) && (c.code == -1 <==> sum < Min(signed, bits)))
    && (c.code != 0 && ow == Wrap ==> c == Check(1, Some(Wrapped(sum, signed, bits))))
    && (c.code != 0 && ow == Sat ==>
         c.limit == Some(if sum > Max(signed, bits) then Max(signed, bits) else Min(signed, bits)))
    && (c.code != 0 && ow == Fail ==> c.limit == None)
  }

  lemma SmallSigned(v: int)
    requires Int64(v)
    ensures Signed64(v) == v
  {
    SmallMod(v + TWO63, TWO64);
  }

  /** The sign bit spread over 64 bits gives the number the low bits stand for. */
  lemma SignSpread(low: nat, bits: nat)
    requires 0 < bits < 64 && low < Pow2(bits)
    ensures Signed64(if low >= Pow2(bits - 1) then low + (TWO64 - Pow2(bits)) else low) == ToSigned(low, bits)
  {
    PowerOf64();
    PowGrows(bits, 63);
    hide Pow2;
    SmallMod(low + TWO63, TWO64);
    SmallMod(low - Pow2(bits) + TWO63, TWO64);
    ModShift(low - Pow2(bits) + TWO63, 1, TWO64);
  }

  lemma WrapsRight(value: int, incr: int, bits: nat)
    requires 0 < bits < 64
    ensures WrapUnsigned(value, incr, bits) == Wrapped(value + incr, false, bits)
    ensures WrapSigned(value, incr, bits) == Wrapped(value + incr, true, bits)
  {
    hide Signed64, ToSigned;
    LowBits(value + incr, bits);
    SumOfBits(value, incr);
    SignSpread((value + incr) % Pow2(bits), bits);
  }

  lemma SumOfBits(a: int, b: int)
    ensures Unsigned64(Unsigned64(a) + Unsigned64(b)) == Unsigned64(a + b)
  {
  }

  /** An unsigned check is right for every value that fits its bits, and calls any other too
    * much. */
  lemma UnsignedExact(value: nat, incr: int, bits: nat, ow: Overflow)
    requires 0 < bits < 64 && value < TWO64 && Int64(incr)
    ensures Fits(value, false, bits) || incr == 0 ==>
              Right(CheckUnsigned(value, incr, bits, ow), value + incr, false, bits, ow)
  {
    hide Pow2, Signed64, WrapUnsigned, Wrapped, CheckUnsigned, Right;
    PowerOf64();
    PowGrows(bits, 63);
    WrapsRight(value, incr, bits);
    if value < Pow2(bits) {
      SmallSigned(Pow2(bits) - 1 - value);
      SmallSigned(0 - value);
      UnsignedFits(value, incr, bits, ow);
    } else if incr == 0 {
      UnsignedTooLarge(value, bits, ow);
    }
  }

  lemma UnsignedFits(value: nat, incr: int, bits: nat, ow: Overflow)
    requires 0 < bits < 64 && value < TWO64 && Int64(incr) && value < Pow2(bits)
    requires Signed64(Pow2(bits) - 1 - value) == Pow2(bits) - 1 - value && Signed64(0 - value) == 0 - value
    requires WrapUnsigned(value, incr, bits) == Wrapped(value + incr, false, bits)
    ensures Right(CheckUnsigned(value, incr, bits, ow), value + incr, false, bits, ow)
  {
    hide Pow2, Signed64, WrapUnsigned, Wrapped;
  }

  lemma UnsignedTooLarge(value: nat, bits: nat, ow: Overflow)
    requires 0 < bits < 64 && Pow2(bits) <= value < TWO64
    requires WrapUnsigned(value, 0, bits) == Wrapped(value, false, bits)
    ensures Right(CheckUnsigned(value, 0, bits, ow), value, false, bits, ow)
  {
    hide Pow2, Signed64, WrapUnsigned, Wrapped;
  }

  /** A signed check is right for every value that fits its bits. */
  lemma SignedExact(value: int, incr: int, bits: nat, ow: Overflow)
    requires 0 < bits <= 64 && Int64(incr) && (ow == Wrap ==> bits < 64) && Fits(value, true, bits)
    ensures Int64(value) && Right(CheckSigned(value, incr, bits, ow), value + incr, true, bits, ow)
  {
    hide Pow2, Signed64, WrapSigned, Wrapped;
    PowerOf64();
    PowGrows(bits - 1, 63);
    if bits < 64 {
      HalfPower(bits);
      WrapsRight(value, incr, bits);
    }
    var max := Pow2(bits - 1) - 1;
    if bits < 64 || value >= 0 {
      SmallSigned(max - value);
    }
    if bits < 64 || value < 0 {
      SmallSigned(-max - 1 - value);
    }
  }

  lemma HalfPower(bits: nat)
    requires 0 < bits < 64
    ensures 2 * Pow2(bits - 1) <= TWO63
  {
    PowerOf64();
    PowGrows(bits, 63);
  }

  /** For a value that is stored as it is, the signed check is right exactly when the distance
    * from the largest fitting value down to it is itself a 64-bit number, or saturation and
    * the sign of the result do not matter. */
  lemma SignedSetExact(value: int, bits: nat, ow: Overflow)
    requires 0 < bits < 64 && Int64(value)
    ensures Right(CheckSigned(value, 0, bits, ow), value, true, bits, ow) <==>
              ow == Wrap || value >= Pow2(bits - 1) - TWO63
    ensures value < Pow2(bits - 1) - TWO63 && ow == Sat ==>
              CheckSigned(value, 0, bits, ow) == Check(1, Some(Max(true, bits)))
  {
    hide Pow2, Signed64, WrapSigned, Wrapped;
    HalfPower(bits);
    WrapsRight(value, 0, bits);
    var max := Pow2(bits - 1) - 1;
    if value >= Pow2(bits - 1) - TWO63 {
      SmallSigned(max - value);
    } else {
      SmallSigned(max - value - TWO64);
      SignedRound(max - value);
    }
    if value <= -max - 1 + TWO63 {
      SmallSigned(-max - 1 - value);
    }
  }

  lemma SignedRound(v: int)
    ensures Signed64(v) == Signed64(v - TWO64)
  {
    ModShift(v - TWO64 + TWO63, 1, TWO64);
  }

  /** The smallest 64-bit number, stored with saturation in 8 signed bits, becomes 127. */
  lemma SaturatesTheWrongWay()
    ensures CheckSigned(-TWO63, 0, 8, Sat) == Check(1, Some(127))
  {
    assert Pow2(7) == 128;
    SignedSetExact(-TWO63, 8, Sat);
  }

  // ---- The BITFIELD command ----

  function Value(p: seq<bv8>, signed: bool, offset: nat, bits: nat): int
    requires offset + bits <= 8 * |p| && bits > 0
  {
    if signed then ToSigned(Field(p, offset, bits), bits) else Field(p, offset, bits)
  }

  /** SET or INCRBY of one field, of fewer than 64 bits. */
  datatype Op = Op(signed: bool, offset: nat, bits: nat, incrBy: bool, arg: int, ow: Overflow)

  predicate OpSound(op: Op)
  {
    0 < op.bits < 64 && Int64(op.arg)
  }

  /** The number to store if it fits. What is set in an unsigned field is read as unsigned. */
  function Target(op: Op, before: int): int
  {
    if op.incrBy then before + op.arg else if op.signed then op.arg else Unsigned64(op.arg)
  }

  /** What is stored according to the overflow policy; nothing on failure. */
  function Stored(op: Op, before: int): (r: Option<int>)
    requires OpSound(op)
  {
    var v := Target(op, before);
    if Fits(v, op.signed, op.bits) then Some(v)
    else
      match op.ow
      case Wrap => Some(Wrapped(v, op.signed, op.bits))
      case Sat => Some(if v > Max(op.signed, op.bits) then Max(op.signed, op.bits) else Min(op.signed, op.bits))
      case Fail => None
  }

  /** Storing a number so far below zero that its distance from the largest is no 64-bit
    * number, with saturation. */
  predicate Misjudged(op: Op)
    requires OpSound(op)
  {
    op.signed && !op.incrBy && op.ow == Sat && op.arg < Pow2(op.bits - 1) - TWO63
  }

  lemma StoredFits(op: Op, before: int)
    requires OpSound(op) && Stored(op, before).Some?
    ensures Fits(Stored(op, before).value, op.signed, op.bits)
  {
    hide Pow2;
    WrappedFits(Target(op, before), op.signed, op.bits);
    hide Wrapped;
  }

  /** The value kept after the check, given what the check says. */
  function Kept(op: Op, before: int, c: Check): Option<int>
  {
    if c.code == 0 then Some(Target(op, before)) else c.limit
  }

  function CheckOf(op: Op, before: int): Check
    requires OpSound(op) && Fits(before, op.signed, op.bits) && Int64(before)
  {
    if op.signed then
      if op.incrBy then CheckSigned(before, op.arg, op.bits, op.ow) else CheckSigned(op.arg, 0, op.bits, op.ow)
    else if op.incrBy then CheckUnsigned(before, op.arg, op.bits, op.ow)
    else CheckUnsigned(Unsigned64(op.arg), 0, op.bits, op.ow)
  }

  lemma FitsInt64(v: int, signed: bool, bits: nat)
    requires 0 < bits < 64 && Fits(v, signed, bits)
    ensures Int64(v)
  {
    HalfPower(bits);
  }

  lemma RightIsStored(op: Op, before: int, c: Check)
    requires OpSound(op) && Right(c, Target(op, before), op.signed, op.bits, op.ow)
    ensures Kept(op, before, c) == Stored(op, before)
  {
    hide Pow2, Wrapped, Target;
  }

  /** The checks decide as the policy says, except in the one case. */
  lemma CheckDecides(op: Op, before: int)
    requires OpSound(op) && Fits(before, op.signed, op.bits) && Int64(before)
    ensures !Misjudged(op) ==> Kept(op, before, CheckOf(op, before)) == Stored(op, before)
    ensures Misjudged(op) ==> CheckOf(op, before) == Check(1, Some(Max(true, op.bits)))
  {
    hide Right, CheckSigned, CheckUnsigned, Pow2, Max, Min, Fits, Wrapped, Stored, Kept, Unsigned64;
    var c := CheckOf(op, before);
    if op.incrBy {
      if op.signed {
        SignedExact(before, op.arg, op.bits, op.ow);
      } else {
        NotNegative(before, op.bits);
        UnsignedExact(before, op.arg, op.bits, op.ow);
      }
      RightIsStored(op, before, c);
    } else if !op.signed {
      UnsignedExact(Unsigned64(op.arg), 0, op.bits, op.ow);
      RightIsStored(op, before, c);
    } else {
      SignedSetExact(op.arg, op.bits, op.ow);
      if op.ow == Fail {
        FailAnyway(op, before);
      } else if !Misjudged(op) {
        RightIsStored(op, before, c);
      }
    }
  }

  /** A failing check stores nothing whichever way it failed. */
  lemma FailAnyway(op: Op, before: int)
    requires OpSound(op) && op.signed && !op.incrBy && op.ow == Fail
    ensures Kept(op, before, CheckSigned(op.arg, 0, op.bits, Fail)) == Stored(op, before)
  {
    hide Pow2, Signed64;
    HalfPower(op.bits);
    var max := Pow2(op.bits - 1) - 1;
    if op.arg >= Pow2(op.bits - 1) - TWO63 {
      SmallSigned(max - op.arg);
    }
    if op.arg <= -max - 1 + TWO63 {
      SmallSigned(-max - 1 - op.arg);
    }
  }

  /** What comes of a check: nothing is stored exactly on a failure, and what is stored fits. */
  lemma Outcome(op: Op, before: int)
    requires OpSound(op) && Fits(before, op.signed, op.bits) && Int64(before)
    ensures var c := CheckOf(op, before);
            && (c.code != 0 && op.ow == Fail <==> Stored(op, before).None?)
            && (Stored(op, before).Some? ==>
                  && Kept(op, before, c).Some? && Fits(Kept(op, before, c).value, op.signed, op.bits)
                  && Kept(op, before, c).value
                     == if Misjudged(op) then Max(true, op.bits) else Stored(op, before).value)
  {
    hide Right, CheckOf, Pow2, Wrapped, Unsigned64;
    CheckDecides(op, before);
    if Stored(op, before).Some? {
      StoredFits(op, before);
    }
    if op.ow == Fail {
      FailsWithout(op, before);
    }
  }

  lemma FailsWithout(op: Op, before: int)
    requires OpSound(op) && Fits(before, op.signed, op.bits) && Int64(before) && op.ow == Fail
    ensures CheckOf(op, before).code != 0 ==> CheckOf(op, before).limit == None
  {
    hide Pow2, Unsigned64, Signed64;
  }

  lemma ValueFits(p: seq<bv8>, signed: bool, offset: nat, bits: nat)
    requires offset + bits <= 8 * |p| && bits > 0
    ensures Fits(Value(p, signed, offset, bits), signed, bits)
  {
    hide Field;
    assert Pow2(bits) == 2 * Pow2(bits - 1);
  }

  lemma ReadsBack(p: seq<bv8>, signed: bool, offset: nat, bits: nat, v: int)
    requires offset + bits <= 8 * |p| && bits > 0 && Field(p, offset, bits) == v % Pow2(bits) && Fits(v, signed, bits)
    ensures Value(p, signed, offset, bits) == v
  {
    hide Field, Pow2;
    WrapsToItself(v, signed, bits);
  }

  /** One SET or INCRBY: the field takes the value the policy gives, the reply is the new
    * value or, for SET, the old one, and nothing else in the string changes. */
  method Execute(p: array<bv8>, op: Op) returns (reply: Option<int>)
    requires OpSound(op) && op.offset + op.bits <= 8 * p.Length
    modifies p
    ensures var before := old(Value(p[..], op.signed, op.offset, op.bits));
            var now := Value(p[..], op.signed, op.offset, op.bits);
            && (Stored(op, before).Some? ==>
                 now == if Misjudged(op) then Max(true, op.bits) else Stored(op, before).value)
            && (Stored(op, before).None? ==> p[..] == old(p[..]))
            && (reply.None? <==> Stored(op, before).None?)
            && (reply.Some? ==> reply.value == if op.incrBy then now else before)
    ensures forall i: nat | i < 8 * p.Length && !(op.offset <= i < op.offset + op.bits) ::
            BitAt(p[..], i) == old(BitAt(p[..], i))
  {
    hide Pow2, Wrapped, Stored, CheckOf, Field, BitAt, ToSigned, Unsigned64, Fits, Max, Min, Misjudged;
    var before: int;
    if op.signed {
      before := GetSigned(p[..], op.offset, op.bits);
    } else {
      before := GetUnsigned(p[..], op.offset, op.bits);
    }
    ValueFits(p[..], op.signed, op.offset, op.bits);
    FitsInt64(before, op.signed, op.bits);
    Outcome(op, before);
    var c := CheckOf(op, before);
    if c.code != 0 && op.ow == Fail { return None; }
    var now := if c.code == 0 then Target(op, before) else c.limit.value;
    if op.signed {
      SetSigned(p, op.offset, op.bits, now);
    } else {
      NotNegative(now, op.bits);
      SetUnsigned(p, op.offset, op.bits, now);
    }
    ReadsBack(p[..], op.signed, op.offset, op.bits, now);
    reply := Some(if op.incrBy then now else before);
  }

  lemma NotNegative(v: int, bits: nat)
    requires bits > 0 && Fits(v, false, bits)
    ensures v >= 0
  {
  }

  // ---- GET ----

  /** A string with as many zero bytes after it as a read needs. */
  function Padded(src: seq<bv8>, n: nat): (r: seq<bv8>)
    ensures |r| >= n && |r| >= |src|
  {
    src + seq(n, _ => 0)
  }

  lemma {:induction false} FieldSame(p: seq<bv8>, a: nat, q: seq<bv8>, b: nat, n: nat)
    requires a + n <= 8 * |p| && b + n <= 8 * |q|
    requires forall i: nat | a <= i < a + n :: BitAt(p, i) == BitAt(q, i - a + b)
    ensures Field(p, a, n) == Field(q, b, n)
    decreases n
  {
    hide BitAt;
    if n > 0 {
      FieldSame(p, a, q, b, n - 1);
      assert BitAt(p, a + n - 1) == BitAt(q, b + n - 1);
    }
  }

  /** GET of a field of up to 64 bits, through a window of nine bytes: whatever the string's
    * length, it reads what the string holds with zeros after it. */
  method Get(src: seq<bv8>, signed: bool, offset: nat, bits: nat) returns (value: int)
    requires 0 < bits <= 64
    requires signed && bits == 64 ==> Field(Padded(src, offset / 8 + 9), offset, bits) < TWO63
    ensures value == Value(Padded(src, offset / 8 + 9), signed, offset, bits)
  {
    hide Field, ByteBit;
    var buf := new bv8[9](_ => 0);
    var byte := offset / 8;
    var i := 0;
    while i < 9 && i + byte < |src|
      invariant i <= 9 && (i > 0 ==> byte + i <= |src|)
      invariant forall k | 0 <= k < 9 :: buf[k] == if k < i then src[byte + k] else 0
    {
      buf[i] := src[i + byte];
      i := i + 1;
    }
    ghost var whole := Padded(src, byte + 9);
    assert forall k | 0 <= k < 9 :: buf[k] == whole[byte + k];
    SameInWindow(whole, buf[..], offset, bits);
    var at := offset - byte * 8;
    if signed {
      value := GetSigned(buf[..], at, bits);
    } else {
      value := GetUnsigned(buf[..], at, bits);
    }
  }

  lemma SameInWindow(whole: seq<bv8>, buf: seq<bv8>, offset: nat, bits: nat)
    requires bits <= 64 && |buf| == 9 && |whole| >= offset / 8 + 9
    requires forall k | 0 <= k < 9 :: buf[k] == whole[offset / 8 + k]
    ensures Field(buf, offset - offset / 8 * 8, bits) == Field(whole, offset, bits)
  {
    hide ByteBit;
    var at := offset % 8;
    forall i: nat | at <= i < at + bits ensures BitAt(buf, i) == BitAt(whole, i - at + offset) {
      assert i - at + offset == 8 * (offset / 8) + i;
    }
    FieldSame(buf, at, whole, offset, bits);
  }
}
