/** Counting the set bits of a string, 28 bytes at a time. */
module Bitcount {
  import opened Bits

  function One(b: bv8, i: nat): (n: nat)
    requires i < 8
    ensures n <= 1
  {
    if ByteBit(b, i) then 1 else 0
  }

  /** The set bits of a byte. */
  function Ones(b: bv8): (n: nat)
    ensures n <= 8
  {
    One(b, 0) + One(b, 1) + One(b, 2) + One(b, 3) + One(b, 4) + One(b, 5) + One(b, 6) + One(b, 7)
  }

  /** The set bits of a string. */
  function Count(s: seq<bv8>): nat
  {
    if |s| == 0 then 0 else Ones(s[0]) + Count(s[1..])
  }

  lemma {:induction false} CountSplit(s: seq<bv8>, k: nat)
    requires k <= |s|
    ensures Count(s) == Count(s[..k]) + Count(s[k..])
    decreases k
  {
    hide Ones;
    if k == 0 {
      assert s[0..] == s;
    } else {
      CountSplit(s[1..], k - 1);
      assert s[1..][..k - 1] == s[..k][1..] && s[1..][k - 1..] == s[k..];
    }
  }

  // ---- Bytes of a word ----

  /** The number a byte stands for. */
  function Number(x: bv8): nat
    decreases x
  {
    if x == 0 then 0 else 1 + Number(x - 1)
  }

  lemma NumberZero()
    ensures Number(0) == 0
  {
  }

  lemma NumberNext(x: bv8)
    requires x != 0
    ensures Number(x) == 1 + Number(x - 1)
  {
  }

  lemma OneLess(a: bv8, b: bv8, c: bv8, d: bv8, e: bv8)
    requires b != 0 && a <= 255 - b && c == b - 1 && d == a + b && e == a + c
    ensures e == d - 1 && d != 0 && a <= 255 - c && c < b
  {
  }

  /** Adding bytes that do not overflow adds their numbers. */
  lemma {:induction false} NumberAdds(a: bv8, b: bv8, d: bv8)
    requires a <= 255 - b && d == a + b
    ensures Number(d) == Number(a) + Number(b)
    decreases b
  {
    hide Number;
    if b == 0 {
      NumberZero();
    } else {
      var c := b - 1;
      var e := a + c;
      OneLess(a, b, c, d, e);
      NumberAdds(a, c, e);
      NumberNext(b);
      NumberNext(d);
    }
  }

  /** A sum of bytes. */
  function Plus(a: bv8, b: bv8): bv8
  {
    a + b
  }

  /** `a` is `m` and `d` more. */
  predicate More(a: bv8, m: bv8, d: bv8)
  {
    m <= 255 - d && a == m + d && d != 0
  }

  lemma Difference(a: bv8, m: bv8) returns (d: bv8)
    requires a > m
    ensures More(a, m, d)
  {
    d := a - m;
  }

  lemma NumberMore(a: bv8, m: bv8, d: bv8)
    requires More(a, m, d)
    ensures Number(a) > Number(m)
  {
    hide Number;
    NumberAdds(m, d, a);
    NumberNext(d);
  }

  lemma NumberGrows(a: bv8, m: bv8)
    requires a > m
    ensures Number(a) > Number(m)
  {
    hide Number, More;
    var d := Difference(a, m);
    NumberMore(a, m, d);
  }

  lemma Below(a: bv8, m: bv8)
    requires Number(a) <= Number(m)
    ensures a <= m
  {
    hide Number;
    if a > m {
      NumberGrows(a, m);
    }
  }

  lemma Doubled(a: bv8, b: bv8, n: nat)
    requires a <= 127 && Number(a) == n && b == a + a
    ensures Number(b) == 2 * n
  {
    hide Number;
    NumberAdds(a, a, b);
  }

  lemma Numbers()
    ensures Number(1) == 1 && Number(8) == 8 && Number(48) == 48 && Number(56) == 56 && Number(112) == 112
            && Number(255) == 255
  {
    hide Number;
    NumberZero();
    NumberNext(1);
    Doubled(1, 2, 1);
    Doubled(2, 4, 2);
    Doubled(4, 8, 4);
    Doubled(8, 16, 8);
    Doubled(16, 32, 16);
    Doubled(32, 64, 32);
    NumberAdds(32, 16, 48);
    NumberAdds(48, 8, 56);
    Doubled(56, 112, 56);
    NumberAdds(64, 48, 112);
    NumberAdds(112, 8, 120);
    NumberAdds(120, 4, 124);
    NumberAdds(124, 2, 126);
    NumberAdds(126, 1, 127);
    Doubled(127, 254, 127);
    NumberAdds(254, 1, 255);
  }

  lemma Complement(a: bv8, b: bv8, c: bv8)
    requires c == 255 - b
    ensures c <= 255 - b && 255 == c + b && (a <= c ==> a <= 255 - b)
  {
  }

  /** Adding bytes adds their numbers as long as the sum is a byte. */
  lemma PlusNumber(a: bv8, b: bv8)
    requires Number(a) + Number(b) <= 255
    ensures Number(Plus(a, b)) == Number(a) + Number(b)
  {
    hide Number;
    var c := 255 - b;
    Complement(a, b, c);
    NumberAdds(c, b, 255);
    Numbers();
    Below(a, c);
    NumberAdds(a, b, Plus(a, b));
  }

  /** A word read from four bytes. */
  function Word(b0: bv8, b1: bv8, b2: bv8, b3: bv8): bv32
  {
    (b0 as bv32) | ((b1 as bv32) << 8) | ((b2 as bv32) << 16) | ((b3 as bv32) << 24)
  }

  /** Bits summed in pairs, pairs in fours, fours in bytes: in a word, and in one byte. */
  function Twos(x: bv32): bv32
  {
    x - ((x >> 1) & 0x55555555)
  }

  function Fours(x: bv32): bv32
  {
    (x & 0x33333333) + ((x >> 2) & 0x33333333)
  }

  function Eights(x: bv32): bv32
  {
    (x + (x >> 4)) & 0x0F0F0F0F
  }

  function TwosOf(x: bv8): bv8
  {
    (x & 0x55) + ((x >> 1) & 0x55)
  }

  function FoursOf(x: bv8): bv8
  {
    (x & 0x33) + ((x >> 2) & 0x33)
  }

  function EightsOf(x: bv8): bv8
  {
    (x + (x >> 4)) & 0x0F
  }

  lemma TwosIs(x: bv32)
    ensures Twos(x) == (x & 0x55555555) + ((x >> 1) & 0x55555555)
  {
  }

  lemma TwosWord(b0: bv8, b1: bv8, b2: bv8, b3: bv8)
    ensures Twos(Word(b0, b1, b2, b3)) == Word(TwosOf(b0), TwosOf(b1), TwosOf(b2), TwosOf(b3))
  {
    hide Twos;
    TwosIs(Word(b0, b1, b2, b3));
  }

  lemma FoursWord(b0: bv8, b1: bv8, b2: bv8, b3: bv8)
    ensures Fours(Word(b0, b1, b2, b3)) == Word(FoursOf(b0), FoursOf(b1), FoursOf(b2), FoursOf(b3))
  {
  }

  lemma EightsWord(b0: bv8, b1: bv8, b2: bv8, b3: bv8)
    requires b0 & 0x88 == 0 && b1 & 0x88 == 0 && b2 & 0x88 == 0 && b3 & 0x88 == 0
    ensures Eights(Word(b0, b1, b2, b3)) == Word(EightsOf(b0), EightsOf(b1), EightsOf(b2), EightsOf(b3))
  {
  }

  function BitOf(b: bv8, k: bv8): bv8
    requires k < 8
  {
    (b >> k) & 1
  }

  /** The set bits of a byte, as a byte. */
  function OnesOf(b: bv8): bv8
  {
    Plus(Plus(Plus(Plus(Plus(Plus(Plus(BitOf(b, 7), BitOf(b, 6)), BitOf(b, 5)), BitOf(b, 4)), BitOf(b, 3)),
      BitOf(b, 2)),
              BitOf(b, 1)), BitOf(b, 0))
  }

  lemma SumsToOnes(b: bv8)
    ensures FoursOf(TwosOf(b)) & 0x88 == 0
    ensures EightsOf(FoursOf(TwosOf(b))) == OnesOf(b) && OnesOf(b) <= 8
  {
  }

  lemma SpreadWord(b0: bv8, b1: bv8, b2: bv8, b3: bv8)
    ensures Eights(Fours(Twos(Word(b0, b1, b2, b3)))) == Word(OnesOf(b0), OnesOf(b1), OnesOf(b2), OnesOf(b3))
  {
    hide Word, Twos, Fours, Eights, TwosOf, FoursOf, EightsOf, OnesOf, Plus;
    TwosWord(b0, b1, b2, b3);
    FoursWord(TwosOf(b0), TwosOf(b1), TwosOf(b2), TwosOf(b3));
    SumsToOnes(b0);
    SumsToOnes(b1);
    SumsToOnes(b2);
    SumsToOnes(b3);
    EightsWord(FoursOf(TwosOf(b0)), FoursOf(TwosOf(b1)), FoursOf(TwosOf(b2)), FoursOf(TwosOf(b3)));
  }

  lemma BitNumber(b: bv8, i: nat, k: bv8)
    requires i < 8 && k == Shift(i)
    ensures Number(BitOf(b, k)) == One(b, i)
  {
    NumberZero();
    NumberNext(1);
    BitIsBit(b, k);
  }

  lemma BitIsBit(b: bv8, k: bv8)
    requires k < 8
    ensures BitOf(b, k) == 0 || BitOf(b, k) == 1
  {
  }

  lemma AddBit(sum: bv8, b: bv8, i: nat, k: bv8)
    requires i < 8 && k == Shift(i) && Number(sum) <= 7
    ensures Number(Plus(sum, BitOf(b, k))) == Number(sum) + One(b, i)
  {
    hide Number, One, Shift, BitOf, Plus;
    BitNumber(b, i, k);
    PlusNumber(sum, BitOf(b, k));
  }

  lemma Shifts()
    ensures Shift(0) == 7 && Shift(1) == 6 && Shift(2) == 5 && Shift(3) == 4
    ensures Shift(4) == 3 && Shift(5) == 2 && Shift(6) == 1 && Shift(7) == 0
  {
  }

  function HighFour(b: bv8): bv8
  {
    Plus(Plus(Plus(BitOf(b, 7), BitOf(b, 6)), BitOf(b, 5)), BitOf(b, 4))
  }

  lemma HighNumber(b: bv8)
    ensures Number(HighFour(b)) == One(b, 0) + One(b, 1) + One(b, 2) + One(b, 3)
  {
    hide Number, One, BitOf, Plus, Shift;
    Shifts();
    BitNumber(b, 0, 7);
    AddBit(BitOf(b, 7), b, 1, 6);
    AddBit(Plus(BitOf(b, 7), BitOf(b, 6)), b, 2, 5);
    AddBit(Plus(Plus(BitOf(b, 7), BitOf(b, 6)), BitOf(b, 5)), b, 3, 4);
  }

  lemma LowNumber(h: bv8, b: bv8)
    requires Number(h) <= 4
    ensures Number(Plus(Plus(Plus(Plus(h, BitOf(b, 3)), BitOf(b, 2)), BitOf(b, 1)), BitOf(b, 0)))
            == Number(h) + One(b, 4) + One(b, 5) + One(b, 6) + One(b, 7)
  {
    hide Number, One, BitOf, Plus, Shift;
    Shifts();
    AddBit(h, b, 4, 3);
    AddBit(Plus(h, BitOf(b, 3)), b, 5, 2);
    AddBit(Plus(Plus(h, BitOf(b, 3)), BitOf(b, 2)), b, 6, 1);
    AddBit(Plus(Plus(Plus(h, BitOf(b, 3)), BitOf(b, 2)), BitOf(b, 1)), b, 7, 0);
  }

  lemma OnesNumber(b: bv8)
    ensures Number(OnesOf(b)) == Ones(b)
  {
    hide Number, One, BitOf, Plus;
    HighNumber(b);
    LowNumber(HighFour(b), b);
  }

  // ---- Four counts side by side ----

  /** A sum of words. */
  function AddWords(x: bv32, y: bv32): bv32
  {
    x + y
  }

  /** The bytes of a word of counts. */
  datatype Lanes = Lanes(a0: bv8, a1: bv8, a2: bv8, a3: bv8)

  function WordOf(l: Lanes): bv32
  {
    Word(l.a0, l.a1, l.a2, l.a3)
  }

  predicate AtMost(l: Lanes, m: nat)
  {
    Number(l.a0) <= m && Number(l.a1) <= m && Number(l.a2) <= m && Number(l.a3) <= m
  }

  function Total(l: Lanes): nat
  {
    Number(l.a0) + Number(l.a1) + Number(l.a2) + Number(l.a3)
  }

  function PlusLanes(l: Lanes, o: Lanes): Lanes
  {
    Lanes(Plus(l.a0, o.a0), Plus(l.a1, o.a1), Plus(l.a2, o.a2), Plus(l.a3, o.a3))
  }

  /** The same of the bytes themselves. */
  predicate Small(l: Lanes, m: bv8)
  {
    l.a0 <= m && l.a1 <= m && l.a2 <= m && l.a3 <= m
  }

  lemma AllBelow(l: Lanes, m: bv8)
    requires AtMost(l, Number(m))
    ensures Small(l, m)
  {
    hide Number;
    Below(l.a0, m);
    Below(l.a1, m);
    Below(l.a2, m);
    Below(l.a3, m);
  }

  lemma AddWord(l: Lanes, o: Lanes)
    requires l.a0 <= 48 && l.a1 <= 48 && l.a2 <= 48 && l.a3 <= 48
    requires o.a0 <= 8 && o.a1 <= 8 && o.a2 <= 8 && o.a3 <= 8
    ensures WordOf(l) + WordOf(o) == WordOf(PlusLanes(l, o))
  {
  }

  lemma AddedWords(l: Lanes, o: Lanes)
    requires Small(l, 48) && Small(o, 8)
    ensures AddWords(WordOf(l), WordOf(o)) == WordOf(PlusLanes(l, o))
  {
    hide WordOf, PlusLanes;
    AddWord(l, o);
  }

  lemma AddedBounds(l: Lanes, o: Lanes, m: nat)
    requires m <= 48 && AtMost(l, m) && AtMost(o, 8)
    ensures AtMost(PlusLanes(l, o), m + 8)
  {
    hide Number, Plus;
    LaneAdds(l.a0, o.a0, m);
    LaneAdds(l.a1, o.a1, m);
    LaneAdds(l.a2, o.a2, m);
    LaneAdds(l.a3, o.a3, m);
  }

  lemma TotalIs(l: Lanes)
    ensures Total(l) == (Number(l.a0) + Number(l.a1)) + (Number(l.a2) + Number(l.a3))
  {
  }

  lemma AddedTotal(l: Lanes, o: Lanes)
    requires AtMost(l, 48) && AtMost(o, 8)
    ensures Total(PlusLanes(l, o)) == Total(l) + Total(o)
  {
    hide Number, Plus, Total;
    TotalIs(l);
    TotalIs(o);
    TotalIs(PlusLanes(l, o));
    LaneAdds(l.a0, o.a0, 48);
    LaneAdds(l.a1, o.a1, 48);
    LaneAdds(l.a2, o.a2, 48);
    LaneAdds(l.a3, o.a3, 48);
  }

  lemma LaneAdds(a: bv8, b: bv8, m: nat)
    requires m <= 48 && Number(a) <= m && Number(b) <= 8
    ensures Number(Plus(a, b)) == Number(a) + Number(b) <= m + 8
  {
    hide Number, Plus;
    PlusNumber(a, b);
  }

  /** Counts that are small enough are added side by side without a carry. */
  lemma NoCarry(l: Lanes, o: Lanes, m: nat)
    requires m <= 48 && AtMost(l, m) && AtMost(o, 8)
    ensures AddWords(WordOf(l), WordOf(o)) == WordOf(PlusLanes(l, o))
    ensures AtMost(PlusLanes(l, o), m + 8) && Total(PlusLanes(l, o)) == Total(l) + Total(o)
  {
    AddedBounds(l, o, m);
    AddedTotal(l, o);
    hide Number, PlusLanes, WordOf, AddWords, Small, Total;
    Numbers();
    AllBelow(l, 48);
    AllBelow(o, 8);
    AddedWords(l, o);
  }

  // ---- Adding the four up ----

  /** Multiplying by 0x01010101 adds a word at all four places; the top byte of that. */
  function TopByte(x: bv32): bv8
  {
    ((x * 0x01010101) >> 24) as bv8
  }

  function TopOfHalves(y: bv32): bv8
  {
    ((y + (y << 16)) >> 24) as bv8
  }

  lemma TopIs(x: bv32)
    ensures TopByte(x) == TopOfHalves(x + (x << 8))
  {
  }

  /** Each byte and the one below it. */
  function Neighbours(l: Lanes): Lanes
  {
    Lanes(l.a0, Plus(l.a0, l.a1), Plus(l.a1, l.a2), Plus(l.a2, l.a3))
  }

  lemma ShiftByte(l: Lanes)
    requires Small(l, 56)
    ensures WordOf(l) + (WordOf(l) << 8) == WordOf(Neighbours(l))
  {
  }

  lemma ShiftHalf(l: Lanes)
    requires Small(l, 112)
    ensures TopOfHalves(WordOf(l)) == Plus(l.a1, l.a3)
  {
  }

  lemma NeighbourNumbers(l: Lanes)
    requires AtMost(l, 56)
    ensures var n := Neighbours(l);
            AtMost(n, 112) && Number(n.a1) + Number(n.a3) == Total(l) && Number(Plus(n.a1, n.a3)) == Total(l)
  {
    hide Number, Plus;
    PlusNumber(l.a0, l.a1);
    PlusNumber(l.a1, l.a2);
    PlusNumber(l.a2, l.a3);
    PlusNumber(Plus(l.a0, l.a1), Plus(l.a2, l.a3));
  }

  lemma TopIsSum(l: Lanes)
    requires Small(l, 56) && Small(Neighbours(l), 112)
    ensures TopByte(WordOf(l)) == Plus(Neighbours(l).a1, Neighbours(l).a3)
  {
    hide Plus, WordOf, TopByte, TopOfHalves, Small, Neighbours;
    TopIs(WordOf(l));
    ShiftByte(l);
    ShiftHalf(Neighbours(l));
  }

  /** The top byte is then the total of the four. */
  lemma TopIsTotal(l: Lanes)
    requires AtMost(l, 56)
    ensures Number(TopByte(WordOf(l))) == Total(l)
  {
    NeighbourNumbers(l);
    hide Number, Plus, WordOf, TopByte, Small, Total, Neighbours;
    Numbers();
    AllBelow(l, 56);
    AllBelow(Neighbours(l), 112);
    TopIsSum(l);
  }

  // ---- A string ----

  /** The four bytes at `i`, each summed up. */
  function Summed(s: seq<bv8>, i: nat): bv32
    requires i + 4 <= |s|
  {
    Eights(Fours(Twos(Word(s[i], s[i + 1], s[i + 2], s[i + 3]))))
  }

  function LanesAt(s: seq<bv8>, i: nat): Lanes
    requires i + 4 <= |s|
  {
    Lanes(OnesOf(s[i]), OnesOf(s[i + 1]), OnesOf(s[i + 2]), OnesOf(s[i + 3]))
  }

  lemma CountFour(s: seq<bv8>)
    requires |s| == 4
    ensures Count(s) == Ones(s[0]) + Ones(s[1]) + Ones(s[2]) + Ones(s[3])
  {
    hide Ones;
    assert s[1..][1..][1..][1..] == [];
    assert Count(s[1..][1..]) == Ones(s[2]) + Count(s[1..][1..][1..]);
    assert Count(s[1..][1..][1..]) == Ones(s[3]) + Count(s[1..][1..][1..][1..]);
  }

  lemma SummedIs(s: seq<bv8>, i: nat)
    requires i + 4 <= |s|
    ensures Summed(s, i) == WordOf(LanesAt(s, i))
    ensures AtMost(LanesAt(s, i), 8) && Total(LanesAt(s, i)) == Count(s[i..i + 4])
  {
    hide Number, OnesOf, Ones, Word, Twos, Fours, Eights, Count;
    SpreadWord(s[i], s[i + 1], s[i + 2], s[i + 3]);
    OnesNumber(s[i]);
    OnesNumber(s[i + 1]);
    OnesNumber(s[i + 2]);
    OnesNumber(s[i + 3]);
    CountFour(s[i..i + 4]);
  }

  /** Four more bytes on a word of counts. */
  lemma FourMore(s: seq<bv8>, from: nat, i: nat, l: Lanes, m: nat) returns (r: Lanes)
    requires from <= i && i + 4 <= |s| && m <= 48 && AtMost(l, m) && Total(l) == Count(s[from..i])
    ensures WordOf(r) == AddWords(WordOf(l), Summed(s, i)) && AtMost(r, m + 8) && Total(r) == Count(s[from..i + 4])
  {
    hide WordOf, Summed, AtMost, Total, LanesAt, PlusLanes, Count, AddWords;
    SummedIs(s, i);
    NoCarry(l, LanesAt(s, i), m);
    r := PlusLanes(l, LanesAt(s, i));
    CountSplit(s[from..i + 4], i - from);
    assert s[from..i + 4][..i - from] == s[from..i] && s[from..i + 4][i - from..] == s[i..i + 4];
  }

  /** What seven words come to: 28 bytes counted at once. */
  function Seven(s: seq<bv8>, i: nat): nat
    requires i + 28 <= |s|
  {
    var sum := AddWords(AddWords(AddWords(Summed(s, i), Summed(s, i + 4)), Summed(s, i + 8)), Summed(s, i + 12));
    Number(TopByte(AddWords(AddWords(AddWords(sum, Summed(s, i + 16)), Summed(s, i + 20)), Summed(s, i + 24))))
  }

  lemma SevenCounts(s: seq<bv8>, i: nat)
    requires i + 28 <= |s|
    ensures Seven(s, i) == Count(s[i..i + 28])
  {
    hide WordOf, Summed, AtMost, Total, LanesAt, Count, Number, TopByte, AddWords;
    SummedIs(s, i);
    var l := LanesAt(s, i);
    l := FourMore(s, i, i + 4, l, 8);
    l := FourMore(s, i, i + 8, l, 16);
    l := FourMore(s, i, i + 12, l, 24);
    l := FourMore(s, i, i + 16, l, 32);
    l := FourMore(s, i, i + 20, l, 40);
    l := FourMore(s, i, i + 24, l, 48);
    TopIsTotal(l);
  }

  lemma CountOne(s: seq<bv8>, i: nat)
    requires i < |s|
    ensures Count(s[..i + 1]) == Count(s[..i]) + Ones(s[i])
  {
    hide Ones;
    CountSplit(s[..i + 1], i);
    assert s[..i + 1][..i] == s[..i] && s[..i + 1][i..] == [s[i]];
    assert Count([s[i]]) == Ones(s[i]) + Count([s[i]][1..]);
  }

  lemma CountMany(s: seq<bv8>, i: nat, n: nat)
    requires i + n <= |s|
    ensures Count(s[..i + n]) == Count(s[..i]) + Count(s[i..i + n])
  {
    CountSplit(s[..i + n], i);
    assert s[..i + n][..i] == s[..i] && s[..i + n][i..] == s[i..i + n];
  }

  /** The number of set bits in a string that starts at any address: bytes up to an aligned
    * word, then seven words at a time, then the bytes that are left. */
  method Popcount(s: seq<bv8>, address: nat) returns (bits: nat)
    ensures bits == Count(s)
  {
    hide Count, Ones, Seven;
    bits := 0;
    var p, count := 0, |s|;
    NoneCounted(s);
    while (address + p) % 4 != 0 && count > 0
      invariant 0 <= count && p + count == |s| && bits == Count(s[..p])
      decreases count
    {
      CountOne(s, p);
      bits := bits + Ones(s[p]);
      p := p + 1;
      count := count - 1;
    }
    while count >= 28
      invariant 0 <= count && p + count == |s| && bits == Count(s[..p])
    {
      SevenCounts(s, p);
      CountMany(s, p, 28);
      bits := bits + Seven(s, p);
      p := p + 28;
      count := count - 28;
    }
    while count > 0
      invariant 0 <= count && p + count == |s| && bits == Count(s[..p])
    {
      CountOne(s, p);
      bits := bits + Ones(s[p]);
      p := p + 1;
      count := count - 1;
    }
    assert s[..p] == s;
  }

  lemma NoneCounted(s: seq<bv8>)
    ensures Count(s[..0]) == 0
  {
  }
}
