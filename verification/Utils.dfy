/** Numbers and their decimal digits. */
module Utils {
  import opened Seqs
  import opened RespParser
  import opened Resp

  const INT64_MIN := -0x8000_0000_0000_0000
  const INT64_MAX := 0x7FFF_FFFF_FFFF_FFFF

  /** How many digits a number has, by comparisons, twelve digits at a time. */
  function Digits10(v: nat): nat
  {
    if v < 10 then 1
    else if v < 100 then 2
    else if v < 1000 then 3
    else if v < 1000000000000 then
      if v < 100000000 then
        if v < 1000000 then
          if v < 10000 then 4 else 5 + (if v >= 100000 then 1 else 0)
        else 7 + (if v >= 10000000 then 1 else 0)
      else if v < 10000000000 then 9 + (if v >= 1000000000 then 1 else 0)
      else 11 + (if v >= 100000000000 then 1 else 0)
    else 12 + Digits10(v / 1000000000000)
  }

  lemma OneDigitLess(v: nat)
    requires v >= 10
    ensures |Dec(v)| == |Dec(v / 10)| + 1
  {
  }

  lemma ThreeDigitsLess(v: nat)
    requires v >= 1000
    ensures |Dec(v)| == |Dec(v / 1000)| + 3
  {
    hide Dec;
    OneDigitLess(v);
    OneDigitLess(v / 10);
    OneDigitLess(v / 10 / 10);
    assert v / 10 / 10 / 10 == v / 1000;
  }

  lemma UpToThree(v: nat)
    requires v < 1000
    ensures |Dec(v)| == if v < 10 then 1 else if v < 100 then 2 else 3
  {
    if v >= 10 {
      OneDigitLess(v);
      if v >= 100 {
        OneDigitLess(v / 10);
      }
    }
  }

  /** The comparisons count the digits that are written. */
  lemma {:induction false} Digits10Counts(v: nat)
    ensures Digits10(v) == |Dec(v)|
    decreases v
  {
    hide Dec;
    var v1, v2, v3, v4 := v / 1000, v / 1000000, v / 1000000000, v / 1000000000000;
    assert v1 / 1000 == v2 && v2 / 1000 == v3 && v3 / 1000 == v4;
    if v < 1000 {
      UpToThree(v);
    } else if v < 1000000 {
      ThreeDigitsLess(v);
      UpToThree(v1);
    } else if v < 1000000000 {
      ThreeDigitsLess(v);
      ThreeDigitsLess(v1);
      UpToThree(v2);
    } else if v < 1000000000000 {
      ThreeDigitsLess(v);
      ThreeDigitsLess(v1);
      ThreeDigitsLess(v2);
      UpToThree(v3);
    } else {
      ThreeDigitsLess(v);
      ThreeDigitsLess(v1);
      ThreeDigitsLess(v2);
      ThreeDigitsLess(v3);
      Digits10Counts(v4);
    }
  }

  function Pair(i: nat): (r: Bytes)
    requires i < 100
    ensures |r| == 2
  {
    [ZERO + i / 10, ZERO + i % 10]
  }

  /** The last two digits. */
  lemma TwoDigits(v: nat)
    requires v >= 10
    ensures v >= 100 ==> Dec(v) == Dec(v / 100) + Pair(v % 100)
    ensures v < 100 ==> Dec(v) == Pair(v)
  {
    if v >= 100 {
      assert Dec(v) == Dec(v / 10) + [ZERO + v % 10];
      assert Dec(v / 10) == Dec(v / 10 / 10) + [ZERO + v / 10 % 10];
      assert v / 10 / 10 == v / 100 && v / 10 % 10 == v % 100 / 10 && v % 10 == v % 100 % 10;
    }
  }

  /** Two digits from the table, in front of those up to `end`. */
  method PutTwo(dst: array<byte>, at: nat, ghost end: nat, i: nat)
    requires at + 2 <= end <= dst.Length && i < 100
    modifies dst
    ensures dst[at..end] == Pair(i) + old(dst[at + 2..end])
    ensures forall k | 0 <= k < dst.Length && !(at <= k < end) :: dst[k] == old(dst[k])
  {
    dst[at + 1] := ZERO + i % 10;
    dst[at] := ZERO + i / 10;
    assert dst[at..end] == dst[at..at + 2] + dst[at + 2..end];
  }

  lemma Joins(v: nat, tail: Bytes, whole: Bytes, digits: Bytes)
    requires v >= 100 && Dec(v) + tail == whole && digits == Pair(v % 100) + tail
    ensures Dec(v / 100) + digits == whole && |Dec(v)| == |Dec(v / 100)| + 2
  {
    TwoDigits(v);
    hide Dec;
  }

  /** Write digits from the end of their place to its start, two at a time. */
  method WriteDigits(dst: array<byte>, from: nat, number: nat)
    requires from + |Dec(number)| <= dst.Length
    modifies dst
    ensures dst[from..from + |Dec(number)|] == Dec(number)
    ensures forall i | 0 <= i < dst.Length && !(from <= i < from + |Dec(number)|) :: dst[i] == old(dst[i])
  {
    hide Dec, Digits10, Pair;
    var value := number;
    ghost var end := from + |Dec(number)|;
    var next := Digits10(number) + from - 1;
    Digits10Counts(number);
    while value >= 100
      invariant from <= next < end && next + 1 - from == |Dec(value)|
      invariant Dec(value) + dst[next + 1..end] == Dec(number)
      invariant forall i | 0 <= i < dst.Length && !(from <= i < end) :: dst[i] == old(dst[i])
    {
      AtLeastThree(value);
      ghost var tail := dst[next + 1..end];
      PutTwo(dst, next - 1, end, value % 100);
      Joins(value, tail, Dec(number), dst[next - 1..end]);
      value := value / 100;
      next := next - 2;
    }
    if value < 10 {
      OneDigit(value);
      ghost var tail := dst[next + 1..end];
      dst[next] := ZERO + value;
      assert dst[from..end] == Dec(value) + tail;
    } else {
      TwoDigits(value);
      PutTwo(dst, next - 1, end, value);
    }
  }

  lemma AtLeastThree(v: nat)
    requires v >= 100
    ensures |Dec(v)| >= 3
  {
    OneDigitLess(v);
    OneDigitLess(v / 10);
  }

  lemma OneDigit(v: nat)
    requires v < 10
    ensures Dec(v) == [ZERO + v]
  {
  }

  /** Write a number into a buffer; one that is too small for it and the terminator is left
    * as it is. */
  method LlToString(dst: array<byte>, svalue: int) returns (length: nat)
    requires INT64_MIN <= svalue <= INT64_MAX
    modifies dst
    ensures |DecInt(svalue)| >= dst.Length ==> length == 0 && dst[..] == old(dst[..])
    ensures |DecInt(svalue)| < dst.Length ==>
              length == |DecInt(svalue)| && dst[..length] == DecInt(svalue) && dst[length] == 0
    ensures forall i | length < i < dst.Length :: dst[i] == old(dst[i])
  {
    hide Dec;
    var negative := if svalue < 0 then 1 else 0;
    var value: nat := if svalue < 0 then -svalue else svalue;
    Digits10Counts(value);
    var size := Digits10(value) + negative;
    if size >= dst.Length { return 0; }
    length := size;
    dst[length] := 0;
    WriteDigits(dst, negative, value);
    if negative == 1 {
      dst[0] := MINUS;
      assert dst[..length] == [MINUS] + dst[1..length];
    } else {
      assert dst[..length] == dst[0..length];
    }
  }

  /** Read a number; only an empty string is an error. */
  method CharToInt(data: Bytes) returns (result: int, ok: bool)
    ensures ok <==> |data| > 0
    ensures forall n | data == DecInt(n) :: result == n
  {
    if |data| <= 0 { return 0, false; }
    var symbol, idx := 1, 0;
    if data[0] == MINUS {
      idx := 1;
      symbol := -1;
    }
    ghost var start := idx;
    result := 0;
    while idx < |data|
      invariant start <= idx <= |data|
      invariant AllDigits(data[start..]) ==>
                  result >= 0 && Digits(data[start..], 0) == Digits(data[idx..], result)
    {
      assert data[idx..][1..] == data[idx + 1..];
      assert AllDigits(data[start..]) ==> data[start..][idx - start] == data[idx];
      result := result * 10 + (data[idx] - ZERO);
      idx := idx + 1;
    }
    result := result * symbol;
    ok := true;
    forall n | data == DecInt(n) ensures result == n {
      NumberReads(n);
    }
  }
}
