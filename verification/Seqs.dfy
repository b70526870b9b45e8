/** Bytes, optional values and the concatenation of a list of byte strings. */
module Seqs {

  type byte = x: int | 0 <= x < 256

  type Bytes = seq<byte>

  /** The bytes of a text in ASCII. */
  function Ascii(s: string): (b: Bytes)
    requires forall i | 0 <= i < |s| :: s[i] as int < 128
    ensures |b| == |s| && forall i | 0 <= i < |s| :: b[i] == s[i] as int
  {
    seq(|s|, i requires 0 <= i < |s| => s[i] as int)
  }

  datatype Option<+T> = None | Some(value: T)

  /** The byte strings of `parts`, one after the other. */
  function Flatten<T>(parts: seq<seq<T>>): (r: seq<T>)
  {
    if |parts| == 0 then [] else parts[0] + Flatten(parts[1..])
  }

  lemma FlattenNone<T>(parts: seq<seq<T>>)
    requires parts == []
    ensures Flatten(parts) == []
  {
  }

  lemma {:induction false} FlattenAppend<T>(a: seq<seq<T>>, b: seq<seq<T>>)
    ensures Flatten(a + b) == Flatten(a) + Flatten(b)
  {
    if |a| == 0 {
      assert a + b == b;
    } else {
      calc {
        Flatten(a + b);
        { assert (a + b)[0] == a[0] && (a + b)[1..] == a[1..] + b; }
        a[0] + Flatten(a[1..] + b);
        { FlattenAppend(a[1..], b); }
        a[0] + (Flatten(a[1..]) + Flatten(b));
        Flatten(a) + Flatten(b);
      }
    }
  }

  lemma FlattenOne<T>(a: seq<T>)
    ensures Flatten([a]) == a
  {
    assert [a][1..] == [];
  }

  /** One more part at the end is one more string at the end. */
  lemma FlattenPush<T>(parts: seq<seq<T>>, x: seq<T>)
    ensures Flatten(parts + [x]) == Flatten(parts) + x
  {
    FlattenAppend(parts, [x]);
    FlattenOne(x);
  }

  /** The first `k + 1` parts are the first `k` and then part `k`. */
  lemma FlattenNext<T>(parts: seq<seq<T>>, k: nat)
    requires k < |parts|
    ensures Flatten(parts[..k + 1]) == Flatten(parts[..k]) + parts[k]
  {
    assert parts[..k + 1] == parts[..k] + [parts[k]];
    FlattenPush(parts[..k], parts[k]);
  }

  lemma FlattenSplit<T>(parts: seq<seq<T>>, k: nat)
    requires k <= |parts|
    ensures Flatten(parts) == Flatten(parts[..k]) + Flatten(parts[k..])
  {
    FlattenAppend(parts[..k], parts[k..]);
    assert parts[..k] + parts[k..] == parts;
  }

  /** Cutting a gathered write at a byte count is cutting one buffer. */
  lemma CutFlatten(parts: seq<Bytes>, i: nat, d: nat)
    requires i < |parts| && d <= |parts[i]|
    ensures var n := |Flatten(parts[..i])| + d;
            && n <= |Flatten(parts)| && (d < |parts[i]| ==> n < |Flatten(parts)|)
            && Flatten(parts)[..n] == Flatten(parts[..i]) + parts[i][..d]
  {
    FlattenNext(parts, i);
    FlattenSplit(parts, i + 1);
  }
}
