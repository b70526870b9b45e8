/** Combining strings bit by bit, 32 bytes at a time as long as all of them last. */
module Bitop {
  import opened Seqs
  import opened Bits
  import opened Bitpos

  datatype Op = And | Or | Xor | Not

  type Str = seq<bv8>

  // ---- What is asked for ----

  /** In how many of the strings the bit is set. */
  function Setting(src: seq<Str>, p: nat): nat
  {
    if |src| == 0 then 0
    else Setting(src[..|src| - 1], p) + if BitOrZero(src[|src| - 1], p) then 1 else 0
  }

  /** Bit `p` of the result. Strings that are over count as zeros. */
  predicate Combined(op: Op, src: seq<Str>, p: nat)
    requires |src| > 0
  {
    match op
    case And => forall k | 0 <= k < |src| :: BitOrZero(src[k], p)
    case Or => exists k | 0 <= k < |src| :: BitOrZero(src[k], p)
    case Xor => Setting(src, p) % 2 == 1
    case Not => !BitOrZero(src[0], p)
  }

  /** The length of the longest string. */
  function MaxLen(src: seq<Str>): (n: nat)
    ensures forall k | 0 <= k < |src| :: |src[k]| <= n
    ensures n == 0 || exists k | 0 <= k < |src| :: |src[k]| == n
  {
    if |src| == 0 then 0
    else
      var init, last := src[..|src| - 1], src[|src| - 1];
      var n := MaxLen(init);
      assert forall k | 0 <= k < |init| :: src[k] == init[k];
      if |last| > n then |last| else n
  }

  /** A key that is not there counts as an empty string. */
  function Strings(keys: seq<Option<Str>>): (src: seq<Str>)
    ensures |src| == |keys|
  {
    seq(|keys|, i requires 0 <= i < |keys| => if keys[i].Some? then keys[i].value else [])
  }

  // ---- Byte by byte ----

  function AndByte(a: bv8, b: bv8): bv8
  {
    a & b
  }

  function OrByte(a: bv8, b: bv8): bv8
  {
    a | b
  }

  function XorByte(a: bv8, b: bv8): bv8
  {
    a ^ b
  }

  function NotByte(a: bv8): bv8
  {
    !a
  }

  function Apply(op: Op, a: bv8, b: bv8): bv8
  {
    match op
    case And => AndByte(a, b)
    case Or => OrByte(a, b)
    case Xor => XorByte(a, b)
    case Not => NotByte(a)
  }

  function ByteAt(s: Str, j: nat): bv8
  {
    if j < |s| then s[j] else 0
  }

  /** Byte `j` of the first `n` strings, combined. */
  function Folded(op: Op, src: seq<Str>, j: nat, n: nat): bv8
    requires 0 < n <= |src| && (op.Not? ==> n == 1)
  {
    if n > 1 then Apply(op, Folded(op, src, j, n - 1), ByteAt(src[n - 1], j))
    else if op.Not? then Apply(op, ByteAt(src[0], j), ByteAt(src[0], j)) else ByteAt(src[0], j)
  }

  predicate ApplyBit(op: Op, x: bool, y: bool)
  {
    match op
    case And => x && y
    case Or => x || y
    case Xor => x != y
    case Not => !x
  }

  lemma AndShifted(a: bv8, b: bv8, k: bv8)
    requires k < 8
    ensures ((a & b) >> k) & 1 != 0 <==> ((a >> k) & 1 != 0) && ((b >> k) & 1 != 0)
  {
  }

  lemma OrShifted(a: bv8, b: bv8, k: bv8)
    requires k < 8
    ensures ((a | b) >> k) & 1 != 0 <==> ((a >> k) & 1 != 0) || ((b >> k) & 1 != 0)
  {
  }

  lemma XorShifted(a: bv8, b: bv8, k: bv8)
    requires k < 8
    ensures ((a ^ b) >> k) & 1 != 0 <==> ((a >> k) & 1 != 0) != ((b >> k) & 1 != 0)
  {
  }

  lemma NotShifted(a: bv8, k: bv8)
    requires k < 8
    ensures ((!a) >> k) & 1 != 0 <==> (a >> k) & 1 == 0
  {
  }

  lemma AndBits(a: bv8, b: bv8, i: nat)
    requires i < 8
    ensures ByteBit(AndByte(a, b), i) <==> ByteBit(a, i) && ByteBit(b, i)
  {
    hide Shift;
    AndShifted(a, b, Shift(i));
  }

  lemma OrBits(a: bv8, b: bv8, i: nat)
    requires i < 8
    ensures ByteBit(OrByte(a, b), i) <==> ByteBit(a, i) || ByteBit(b, i)
  {
    hide Shift;
    OrShifted(a, b, Shift(i));
  }

  lemma XorBits(a: bv8, b: bv8, i: nat)
    requires i < 8
    ensures ByteBit(XorByte(a, b), i) <==> (ByteBit(a, i) != ByteBit(b, i))
  {
    hide Shift;
    XorShifted(a, b, Shift(i));
  }

  lemma NotBits(a: bv8, i: nat)
    requires i < 8
    ensures ByteBit(NotByte(a), i) <==> !ByteBit(a, i)
  {
    hide Shift;
    NotShifted(a, Shift(i));
  }

  lemma ApplyBits(op: Op, a: bv8, b: bv8, i: nat)
    requires i < 8
    ensures ByteBit(Apply(op, a, b), i) <==> ApplyBit(op, ByteBit(a, i), ByteBit(b, i))
  {
    hide ByteBit, AndByte, OrByte, XorByte, NotByte;
    match op
    case And => AndBits(a, b, i);
    case Or => OrBits(a, b, i);
    case Xor => XorBits(a, b, i);
    case Not => NotBits(a, i);
  }

  lemma BitOfByte(s: Str, p: nat)
    ensures BitOrZero(s, p) <==> ByteBit(ByteAt(s, p / 8), p % 8)
  {
    if p / 8 >= |s| {
      ZeroByte(p % 8);
    }
  }

  /** Folding bytes is combining bits. */
  lemma {:induction false} FoldedBit(op: Op, src: seq<Str>, p: nat, n: nat)
    requires 0 < n <= |src| && (op.Not? ==> n == 1)
    ensures ByteBit(Folded(op, src, p / 8, n), p % 8) <==> Combined(op, src[..n], p)
    decreases n
  {
    hide ByteBit, Apply, BitOrZero, ByteAt;
    var last := src[n - 1];
    BitOfByte(last, p);
    if n == 1 {
      CombinedOne(op, last, p);
      assert src[..1] == [last];
      ApplyBits(op, ByteAt(last, p / 8), ByteAt(last, p / 8), p % 8);
    } else {
      FoldedBit(op, src, p, n - 1);
      ApplyBits(op, Folded(op, src, p / 8, n - 1), ByteAt(last, p / 8), p % 8);
      CombinedNext(op, src[..n - 1], last, p);
      assert src[..n] == src[..n - 1] + [last];
    }
  }

  lemma CombinedOne(op: Op, s: Str, p: nat)
    ensures Combined(op, [s], p) <==> if op.Not? then !BitOrZero(s, p) else BitOrZero(s, p)
  {
    hide BitOrZero;
    var one := [s];
    assert one[0] == s && one[..0] == [];
    assert Setting(one[..0], p) == 0;
    assert Setting(one, p) == if BitOrZero(s, p) then 1 else 0;
  }

  lemma CombinedNext(op: Op, src: seq<Str>, s: Str, p: nat)
    requires |src| > 0 && !op.Not?
    ensures Combined(op, src + [s], p) <==> ApplyBit(op, Combined(op, src, p), BitOrZero(s, p))
  {
    hide BitOrZero;
    var all := src + [s];
    assert all[..|src|] == src && all[|src|] == s;
    assert forall k | 0 <= k < |src| :: all[k] == src[k];
  }

  // ---- A word at a time ----

  function Low(w: bv64): bv8
  {
    (w & 0xFF) as bv8
  }

  /** The eight bytes of a word, the highest first. */
  function Split(w: bv64): (bs: Str)
    ensures |bs| == 8
  {
    [Low(w >> 56), Low(w >> 48), Low(w >> 40), Low(w >> 32), Low(w >> 24), Low(w >> 16), Low(w >> 8), Low(w)]
  }

  function AndWord(a: bv64, b: bv64): bv64
  {
    a & b
  }

  function OrWord(a: bv64, b: bv64): bv64
  {
    a | b
  }

  function XorWord(a: bv64, b: bv64): bv64
  {
    a ^ b
  }

  function NotWord(a: bv64): bv64
  {
    !a
  }

  function ApplyWord(op: Op, x: bv64, y: bv64): bv64
  {
    match op
    case And => AndWord(x, y)
    case Or => OrWord(x, y)
    case Xor => XorWord(x, y)
    case Not => NotWord(x)
  }

  lemma AndWords(a0: bv8, a1: bv8, a2: bv8, a3: bv8, a4: bv8, a5: bv8, a6: bv8, a7: bv8,
                   b0: bv8, b1: bv8, b2: bv8, b3: bv8, b4: bv8, b5: bv8, b6: bv8, b7: bv8)
    ensures AndWord(Word(a0, a1, a2, a3, a4, a5, a6, a7), Word(b0, b1, b2, b3, b4, b5, b6, b7))
            == Word(AndByte(a0, b0), AndByte(a1, b1), AndByte(a2, b2), AndByte(a3, b3),
                    AndByte(a4, b4), AndByte(a5, b5), AndByte(a6, b6), AndByte(a7, b7))
  {
  }

  lemma OrWords(a0: bv8, a1: bv8, a2: bv8, a3: bv8, a4: bv8, a5: bv8, a6: bv8, a7: bv8,
                  b0: bv8, b1: bv8, b2: bv8, b3: bv8, b4: bv8, b5: bv8, b6: bv8, b7: bv8)
    ensures OrWord(Word(a0, a1, a2, a3, a4, a5, a6, a7), Word(b0, b1, b2, b3, b4, b5, b6, b7))
            == Word(OrByte(a0, b0), OrByte(a1, b1), OrByte(a2, b2), OrByte(a3, b3),
                    OrByte(a4, b4), OrByte(a5, b5), OrByte(a6, b6), OrByte(a7, b7))
  {
  }

  lemma XorWords(a0: bv8, a1: bv8, a2: bv8, a3: bv8, a4: bv8, a5: bv8, a6: bv8, a7: bv8,
                   b0: bv8, b1: bv8, b2: bv8, b3: bv8, b4: bv8, b5: bv8, b6: bv8, b7: bv8)
    ensures XorWord(Word(a0, a1, a2, a3, a4, a5, a6, a7), Word(b0, b1, b2, b3, b4, b5, b6, b7))
            == Word(XorByte(a0, b0), XorByte(a1, b1), XorByte(a2, b2), XorByte(a3, b3),
                    XorByte(a4, b4), XorByte(a5, b5), XorByte(a6, b6), XorByte(a7, b7))
  {
  }

  /** Negation is exclusive or with ones. */
  lemma NotIsXor(x: bv64)
    ensures NotWord(x) == XorWord(x, Word(255, 255, 255, 255, 255, 255, 255, 255))
  {
  }

  lemma NotByteIsXor(a: bv8)
    ensures NotByte(a) == XorByte(a, 255)
  {
  }

  lemma NotWords(a0: bv8, a1: bv8, a2: bv8, a3: bv8, a4: bv8, a5: bv8, a6: bv8, a7: bv8)
    ensures NotWord(Word(a0, a1, a2, a3, a4, a5, a6, a7))
            == Word(NotByte(a0), NotByte(a1), NotByte(a2), NotByte(a3),
                    NotByte(a4), NotByte(a5), NotByte(a6), NotByte(a7))
  {
    hide Word, NotWord, XorWord, NotByte, XorByte;
    NotIsXor(Word(a0, a1, a2, a3, a4, a5, a6, a7));
    XorWords(a0, a1, a2, a3, a4, a5, a6, a7, 255, 255, 255, 255, 255, 255, 255, 255);
    forall a: bv8 ensures NotByte(a) == XorByte(a, 255) {
      NotByteIsXor(a);
    }
  }

  lemma SplitWord(b0: bv8, b1: bv8, b2: bv8, b3: bv8, b4: bv8, b5: bv8, b6: bv8, b7: bv8)
    ensures Split(Word(b0, b1, b2, b3, b4, b5, b6, b7)) == [b0, b1, b2, b3, b4, b5, b6, b7]
  {
  }

  lemma Splits(bs: Str)
    requires |bs| == 8
    ensures Split(WordOf(bs)) == bs
  {
    hide Word, Split;
    SplitWord(bs[0], bs[1], bs[2], bs[3], bs[4], bs[5], bs[6], bs[7]);
  }

  function ApplyEach(op: Op, a: Str, b: Str): (c: Str)
    requires |a| == |b| == 8
    ensures |c| == 8 && forall k | 0 <= k < 8 :: c[k] == Apply(op, a[k], b[k])
  {
    hide Apply;
    seq(8, k requires 0 <= k < 8 => Apply(op, a[k], b[k]))
  }

  lemma AndEach(a: Str, b: Str)
    requires |a| == |b| == 8
    ensures AndWord(WordOf(a), WordOf(b)) == WordOf(ApplyEach(And, a, b))
  {
    hide Word, AndWord, AndByte;
    AndWords(a[0], a[1], a[2], a[3], a[4], a[5], a[6], a[7], b[0], b[1], b[2], b[3], b[4], b[5], b[6], b[7]);
  }

  lemma OrEach(a: Str, b: Str)
    requires |a| == |b| == 8
    ensures OrWord(WordOf(a), WordOf(b)) == WordOf(ApplyEach(Or, a, b))
  {
    hide Word, OrWord, OrByte;
    OrWords(a[0], a[1], a[2], a[3], a[4], a[5], a[6], a[7], b[0], b[1], b[2], b[3], b[4], b[5], b[6], b[7]);
  }

  lemma XorEach(a: Str, b: Str)
    requires |a| == |b| == 8
    ensures XorWord(WordOf(a), WordOf(b)) == WordOf(ApplyEach(Xor, a, b))
  {
    hide Word, XorWord, XorByte;
    XorWords(a[0], a[1], a[2], a[3], a[4], a[5], a[6], a[7], b[0], b[1], b[2], b[3], b[4], b[5], b[6], b[7]);
  }

  lemma NotEach(a: Str, b: Str)
    requires |a| == |b| == 8
    ensures NotWord(WordOf(a)) == WordOf(ApplyEach(Not, a, b))
  {
    hide Word, NotWord, NotByte;
    NotWords(a[0], a[1], a[2], a[3], a[4], a[5], a[6], a[7]);
  }

  lemma ApplyWords(op: Op, a: Str, b: Str)
    requires |a| == |b| == 8
    ensures ApplyWord(op, WordOf(a), WordOf(b)) == WordOf(ApplyEach(op, a, b))
  {
    hide WordOf, ApplyEach, AndWord, OrWord, XorWord, NotWord;
    match op
    case And => AndEach(a, b);
    case Or => OrEach(a, b);
    case Xor => XorEach(a, b);
    case Not => NotEach(a, b);
  }

  /** Combining words is combining their bytes. */
  lemma SplitApply(op: Op, a: Str, b: Str)
    requires |a| == |b| == 8
    ensures Split(ApplyWord(op, WordOf(a), WordOf(b))) == ApplyEach(op, a, b)
  {
    hide Split, ApplyWord, ApplyEach, WordOf;
    ApplyWords(op, a, b);
    Splits(ApplyEach(op, a, b));
  }

  // ---- The command ----

  lemma MaxLenNext(src: seq<Str>, s: Str)
    ensures MaxLen(src + [s]) == if |s| > MaxLen(src) then |s| else MaxLen(src)
  {
    assert (src + [s])[..|src|] == src;
  }

  /** No string is shorter than `n`, and one is just as long. */
  ghost predicate Shortest(src: seq<Str>, n: nat)
  {
    && (forall k | 0 <= k < |src| :: n <= |src[k]|)
    && (|src| > 0 ==> exists k | 0 <= k < |src| :: n == |src[k]|)
  }

  lemma ShortestNext(src: seq<Str>, s: Str, n: nat)
    requires Shortest(src, n)
    ensures Shortest(src + [s], if |src| == 0 || |s| < n then |s| else n)
  {
    var all := src + [s];
    assert all[|src|] == s && forall k | 0 <= k < |src| :: all[k] == src[k];
  }

  /** The strings, the length of the shortest and that of the longest. */
  method Lookup(keys: seq<Option<Str>>) returns (src: seq<Str>, minlen: nat, maxlen: nat)
    ensures src == Strings(keys) && maxlen == MaxLen(src) && Shortest(src, minlen)
  {
    hide MaxLen, Shortest;
    src, minlen, maxlen := [], 0, 0;
    assert MaxLen([]) == 0 && Shortest([], 0) by { Nothing(); }
    for j := 0 to |keys|
      invariant src == Strings(keys)[..j] && maxlen == MaxLen(src) && Shortest(src, minlen)
    {
      var s := if keys[j].Some? then keys[j].value else [];
      MaxLenNext(src, s);
      ShortestNext(src, s, minlen);
      src := src + [s];
      if keys[j].None? {
        minlen := 0;
      } else {
        if |s| > maxlen {
          maxlen := |s|;
        }
        if j == 0 || |s| < minlen {
          minlen := |s|;
        }
      }
    }
  }

  lemma Nothing()
    ensures MaxLen([]) == 0 && Shortest([], 0)
  {
  }

  /** One word of the result is combined with one of another string. */
  method CombineWord(a: array<bv8>, p: nat, op: Op, s: Str)
    requires p + 8 <= a.Length && p + 8 <= |s|
    modifies a
    ensures forall q | 0 <= q < a.Length ::
              a[q] == if p <= q < p + 8 then Apply(op, old(a[q]), s[q]) else old(a[q])
  {
    hide Apply, ApplyWord, WordOf, Split, ApplyEach;
    var x, y := a[p..p + 8], s[p..p + 8];
    var w := Split(ApplyWord(op, WordOf(x), WordOf(y)));
    SplitApply(op, x, y);
    for k := 0 to 8
      invariant forall q | 0 <= q < a.Length && !(p <= q < p + k) :: a[q] == old(a[q])
      invariant forall q | p <= q < p + k :: a[q] == w[q - p]
    {
      a[p + k] := w[k];
    }
    assert forall q | p <= q < p + 8 :: x[q - p] == old(a[q]) && y[q - p] == s[q];
  }

  method CombineFour(a: array<bv8>, p: nat, op: Op, s: Str)
    requires p + 32 <= a.Length && p + 32 <= |s|
    modifies a
    ensures forall q | 0 <= q < a.Length ::
              a[q] == if p <= q < p + 32 then Apply(op, old(a[q]), s[q]) else old(a[q])
  {
    hide Apply;
    CombineWord(a, p, op, s);
    CombineWord(a, p + 8, op, s);
    CombineWord(a, p + 16, op, s);
    CombineWord(a, p + 24, op, s);
  }

  /** The 32 bytes at `j` start as those of the first string, and the others are combined in. */
  method Block(a: array<bv8>, op: Op, src: seq<Str>, j: nat, ghost minlen: nat)
    requires 0 < |src| && !op.Not? && j + 32 <= minlen <= a.Length
    requires forall k | 0 <= k < |src| :: minlen <= |src[k]|
    requires forall q | j <= q < minlen :: a[q] == src[0][q]
    modifies a
    ensures forall q | 0 <= q < a.Length && !(j <= q < j + 32) :: a[q] == old(a[q])
    ensures forall q | j <= q < j + 32 :: a[q] == Folded(op, src, q, |src|)
  {
    hide Apply;
    for i := 1 to |src|
      invariant forall q | 0 <= q < a.Length && !(j <= q < j + 32) :: a[q] == old(a[q])
      invariant forall q | j <= q < j + 32 :: a[q] == Folded(op, src, q, i)
    {
      CombineFour(a, j, op, src[i]);
    }
  }

  /** Four words at a time, as far as there are four in every string. */
  method FastPath(a: array<bv8>, op: Op, src: seq<Str>, minlen: nat) returns (j: nat)
    requires 0 < |src| && (op.Not? ==> |src| == 1)
    requires minlen <= a.Length && forall k | 0 <= k < |src| :: minlen <= |src[k]|
    modifies a
    ensures j <= minlen < j + 32
    ensures forall q | 0 <= q < j :: a[q] == Folded(op, src, q, |src|)
  {
    hide Apply;
    for i := 0 to minlen
      invariant forall q | 0 <= q < i :: a[q] == src[0][q]
    {
      a[i] := src[0][i];
    }
    j := 0;
    var left := minlen;
    while left >= 32
      invariant j + left == minlen
      invariant forall q | 0 <= q < j :: a[q] == Folded(op, src, q, |src|)
      invariant forall q | j <= q < minlen :: a[q] == src[0][q]
    {
      if op.Not? {
        CombineFour(a, j, op, src[0]);
      } else {
        Block(a, op, src, j, minlen);
      }
      j := j + 32;
      left := left - 32;
    }
  }

  /** BITOP: the result is as long as the longest string, and each of its bits is what the operation
    * makes of that bit in all strings, whether words are combined or bytes. */
  method BitopCommand(op: Op, keys: seq<Option<Str>>, words: bool) returns (res: Str)
    requires 0 < |keys| && (op.Not? ==> |keys| == 1)
    ensures |res| == MaxLen(Strings(keys))
    ensures forall p | 0 <= p < 8 * |res| :: BitAt(res, p) <==> Combined(op, Strings(keys), p)
  {
    hide Apply, Combined, Folded, BitAt, ByteAt;
    var src, minlen, maxlen := Lookup(keys);
    if maxlen == 0 {
      return [];
    }
    var a := new bv8[maxlen];
    var from := 0;
    if words && minlen >= 32 && |src| <= 16 {
      from := FastPath(a, op, src, minlen);
    }
    for j := from to maxlen
      invariant forall q | 0 <= q < j :: a[q] == Folded(op, src, q, |src|)
    {
      a[j] := OneByte(op, src, j);
    }
    res := a[..];
    forall p | 0 <= p < 8 * |res| ensures BitAt(res, p) <==> Combined(op, src, p) {
      FoldedAt(op, src, res, p);
    }
  }

  lemma FoldedAt(op: Op, src: seq<Str>, res: Str, p: nat)
    requires 0 < |src| && (op.Not? ==> |src| == 1) && p < 8 * |res|
    requires res[p / 8] == Folded(op, src, p / 8, |src|)
    ensures BitAt(res, p) <==> Combined(op, src, p)
  {
    hide Folded, Combined;
    FoldedBit(op, src, p, |src|);
    assert src[..|src|] == src;
  }

  /** One byte of the result from one byte of each string. */
  method OneByte(op: Op, src: seq<Str>, j: nat) returns (output: bv8)
    requires 0 < |src| && (op.Not? ==> |src| == 1)
    ensures output == Folded(op, src, j, |src|)
  {
    hide Apply;
    output := if |src[0]| <= j then 0 else src[0][j];
    if op.Not? {
      output := Apply(op, output, output);
    }
    for i := 1 to |src|
      invariant output == Folded(op, src, j, i)
    {
      var byte := if |src[i]| <= j then 0 else src[i][j];
      output := Apply(op, output, byte);
    }
  }
}
