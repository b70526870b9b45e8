/** The reader as the program runs it: a loop over header bytes around a loop over the bytes
  * of a line, which takes the data of a bulk string in one go and calls the outer loop again
  * for a nested array. */
module RedisMsg {
  import opened Seqs
  import opened Events
  import opened RespParser

  function Innermost(m: Msg): (k: Msg)
    requires WellFormed(m)
    ensures k.Msg? && !k.st.InNextLayer?
    decreases m
  {
    if m.st.InNextLayer? then Innermost(m.next) else m
  }

  /** The number of nested arrays that are open. */
  function Depth(m: Msg): nat
    requires WellFormed(m)
    decreases m
  {
    if m.st.InNextLayer? then 1 + Depth(m.next) else 0
  }

  // ---- The line feed behind a length ----

  /** Another byte stands where the line feed behind the length of a bulk string belongs. */
  predicate LacksLf(buf: Bytes, m: Msg)
    requires WellFormed(m) && Pos(m) < |buf|
  {
    Innermost(m).st.UsdNumCrlf? && buf[Pos(m)] != LF
  }

  /** The innermost layer counts the byte and is where it was. */
  function SkipByte(m: Msg): (r: Msg)
    requires WellFormed(m)
    decreases m
  {
    if m.st.InNextLayer? then m.(next := SkipByte(m.next)) else m.(len := m.len + 1)
  }

  lemma {:induction false} SkipByteKeeps(m: Msg)
    requires WellFormed(m) && Innermost(m).st.UsdNumCrlf?
    ensures var r := SkipByte(m);
            && r.Msg? && WellFormed(r) && r.start == m.start && r.st == m.st && r.len >= m.len
            && Pos(r) == Pos(m) + 1 && Depth(r) == Depth(m)
    decreases m
  {
    if m.st.InNextLayer? {
      SkipByteKeeps(m.next);
    }
  }

  lemma {:induction false} LacksLfStops(buf: Bytes, m: Msg)
    requires WellFormed(m) && Pos(m) < |buf| && LacksLf(buf, m)
    ensures Step(buf, m).None?
    decreases m
  {
    if m.st.InNextLayer? {
      LacksLfStops(buf, m.next);
    }
  }

  /** For each open array, from the outermost, whether the call that opened it still runs and will
    * read on in it once more. */
  type Credits = seq<bool>

  function NoCredit(n: nat): (c: Credits)
    ensures |c| == n
  {
    if n == 0 then [] else [false] + NoCredit(n - 1)
  }

  predicate AnyCredit(c: Credits)
  {
    |c| > 0 && (c[0] || AnyCredit(c[1..]))
  }

  /** The innermost array that can be read on in is read on in. */
  function Spend(c: Credits): (r: Credits)
    requires AnyCredit(c)
    ensures |r| == |c|
  {
    if AnyCredit(c[1..]) then [c[0]] + Spend(c[1..]) else [false] + c[1..]
  }

  /** The credits when `depth` arrays are open: an array that is opened has credit. */
  function Fit(c: Credits, depth: nat): (r: Credits)
    requires depth <= |c| + 1
    ensures |r| == depth
  {
    if depth > |c| then c + [true] else c[..depth]
  }

  lemma {:induction false} StepDepth(buf: Bytes, m: Msg)
    requires WellFormed(m) && Pos(m) < |buf| && Step(buf, m).Some? && WellFormed(Step(buf, m).value)
    ensures Depth(Step(buf, m).value) <= Depth(m) + 1
    decreases m
  {
    hide OwnByte, LineDone;
    if m.st.InNextLayer? {
      StepAdvances(buf, m.next);
      var n := Step(buf, m.next).value;
      StepDepth(buf, m.next);
      LineDoneKeeps(buf, m.(len := m.len + n.len, next := n));
    } else {
      OwnDepth(buf, m, buf[Pos(m)]);
    }
  }

  lemma OwnDepth(buf: Bytes, m: Msg, b: byte)
    requires m.Msg? && !m.st.InNextLayer? && OwnByte(buf, m, b).Some? && WellFormed(OwnByte(buf, m, b).value)
    ensures Depth(OwnByte(buf, m, b).value) <= 1
  {
  }

  /** What a call makes of the bytes: a fault it reports, a state in which they are read or the
    * message is complete, or a state in which it returns before they are read. */
  datatype Outcome = Fault(code: int) | Through(m: Msg) | Pause(m: Msg)

  /** What is reported of a byte that does not fit: a message that starts with a null byte is none. */
  function Code(buf: Bytes, m: Msg): int
    requires WellFormed(m) && Pos(m) < |buf|
  {
    if Innermost(m).st.Start? && buf[Pos(m)] == 0 then GR_START_NULL else GR_ERROR
  }

  /** Feeding the bytes one by one, where a missing line feed behind a length is skipped: an array
    * with credit is read on in, and without one the call returns. */
  ghost function Run(buf: Bytes, m: Msg, c: Credits): (r: Outcome)
    requires WellFormed(m) && Pos(m) <= |buf| && |c| == Depth(m)
    ensures !r.Fault? ==> WellFormed(r.m) && Pos(r.m) <= |buf|
    ensures r.Through? ==> r.m.st.End? || Pos(r.m) == |buf|
    ensures r.Pause? ==> !r.m.st.End?
    ensures r.Fault? ==> r.code == GR_ERROR || r.code == GR_START_NULL
    decreases |buf| - Pos(m)
  {
    if m.st.End? || Pos(m) == |buf| then Through(m)
    else if LacksLf(buf, m) then
      SkipByteKeeps(m);
      var k := SkipByte(m);
      if AnyCredit(c) then Run(buf, k, Spend(c)) else Pause(k)
    else
      match Step(buf, m)
      case None => Fault(Code(buf, m))
      case Some(n) =>
        StepAdvances(buf, m);
        StepDepth(buf, m);
        Run(buf, n, Fit(c, Depth(n)))
  }

  /** Where the bytes can be fed one by one, a call reads them all. */
  lemma {:induction false} FeedRuns(buf: Bytes, m: Msg, c: Credits)
    requires WellFormed(m) && Pos(m) <= |buf| && |c| == Depth(m) && Feed(buf, m).Some?
    ensures Run(buf, m, c) == Through(Feed(buf, m).value)
    decreases |buf| - Pos(m)
  {
    hide Step, LacksLf;
    if !m.st.End? && Pos(m) < |buf| {
      if LacksLf(buf, m) {
        LacksLfStops(buf, m);
      } else {
        StepAdvances(buf, m);
        StepDepth(buf, m);
        FeedRuns(buf, Step(buf, m).value, Fit(c, Depth(Step(buf, m).value)));
      }
    }
  }

  /** What a call from `m` on makes of the bytes: the arrays that are open already are not read on in. */
  ghost function Call(buf: Bytes, m: Msg): (r: Outcome)
    requires WellFormed(m) && Pos(m) <= |buf|
    ensures !r.Fault? ==> WellFormed(r.m) && Pos(r.m) <= |buf|
    ensures r.Through? ==> r.m.st.End? || Pos(r.m) == |buf|
    ensures r.Pause? ==> !r.m.st.End?
    ensures r.Fault? ==> r.code == GR_ERROR || r.code == GR_START_NULL
  {
    Run(buf, m, NoCredit(Depth(m)))
  }

  lemma FeedCalls(buf: Bytes, m: Msg)
    requires WellFormed(m) && Pos(m) <= |buf|
    ensures Feed(buf, m).Some? ==> Call(buf, m) == Through(Feed(buf, m).value)
  {
    hide Feed, Run;
    if Feed(buf, m).Some? {
      FeedRuns(buf, m, NoCredit(Depth(m)));
    }
  }

  /** From `m` the bytes so far lead to `k`. */
  ghost predicate Reached(buf: Bytes, m: Msg, k: Msg)
  {
    && WellFormed(m) && Pos(m) <= |buf|
    && WellFormed(k) && Pos(k) <= |buf|
    && Call(buf, k) == Call(buf, m)
  }

  /** A fault is reported, and nothing else is. */
  predicate Answers(o: Outcome, m: Msg, ret: int)
  {
    if o.Fault? then ret == o.code else ret == GR_OK && m == o.m
  }

  /** A complete message takes no more bytes, and where there are none nothing is read. */
  lemma RunStays(buf: Bytes, m: Msg, c: Credits)
    requires WellFormed(m) && Pos(m) <= |buf| && (m.st.End? || Pos(m) == |buf|) && |c| == Depth(m)
    ensures Run(buf, m, c) == Through(m)
  {
  }

  lemma Stays(buf: Bytes, m: Msg)
    requires WellFormed(m) && Pos(m) <= |buf| && (m.st.End? || Pos(m) == |buf|)
    ensures Call(buf, m) == Through(m)
  {
    RunStays(buf, m, NoCredit(Depth(m)));
  }

  lemma ReachedByte(buf: Bytes, m: Msg, k: Msg, r: Msg)
    requires Reached(buf, m, k) && Pos(k) < |buf| && !k.st.End? && !k.st.InNextLayer?
    requires k.st.UsdNumCrlf? ==> buf[Pos(k)] == LF
    requires OwnByte(buf, k, buf[Pos(k)]) == Some(r) && !r.st.InNextLayer?
    ensures Reached(buf, m, r) && Pos(r) == Pos(k) + 1
  {
    hide OwnByte;
    StepAdvances(buf, k);
  }

  /** The innermost layer is at or past the position of the outer one. */
  lemma {:induction false} PosAtLeast(m: Msg)
    requires WellFormed(m)
    ensures m.start + m.len <= Pos(m) && (m.st.InNextLayer? ==> m.start + m.len < Pos(m))
    decreases m
  {
    if m.st.InNextLayer? {
      PosAtLeast(m.next);
    }
  }

  /** A byte inside a line, other than the last one and than the start of a nested array. */
  lemma ReachedInLine(buf: Bytes, m: Msg, k: Msg, r: Msg)
    requires Reached(buf, m, k) && k.start + k.len < |buf|
    requires Reading(k.st) && !k.st.InNextLayer? && !k.st.StrCrlf? && !k.st.UsdNumCrlf?
    requires !(k.st.ReadingLine? && buf[k.start + k.len] == STAR)
    requires LineByte(k, buf[k.start + k.len]) == Some(r)
    ensures r.Msg? && Reached(buf, m, r) && r.start == k.start && r.len == k.len + 1 && Reading(r.st)
            && !r.st.InNextLayer?
  {
    ReachedByte(buf, m, k, r);
  }

  /** A byte that does not fit the line ends the reading. */
  lemma StuckInLine(buf: Bytes, m: Msg, k: Msg)
    requires Reached(buf, m, k) && k.start + k.len < |buf| && Reading(k.st) && !k.st.InNextLayer?
    requires if k.st.StrCrlf? || k.st.UsdNumCrlf? then buf[k.start + k.len] != LF
             else LineByte(k, buf[k.start + k.len]) == None
    ensures Call(buf, m) == if k.st.UsdNumCrlf? then Pause(k.(len := k.len + 1)) else Fault(GR_ERROR)
  {
    assert !k.st.UsdNumCrlf? ==> Step(buf, k).None?;
  }

  /** The last byte of a line. */
  lemma ReachedLineEnd(buf: Bytes, m: Msg, k: Msg)
    requires Reached(buf, m, k) && k.start + k.len < |buf| && k.st.StrCrlf? && buf[k.start + k.len] == LF
    ensures Reached(buf, m, LineDone(buf, k.(len := k.len + 1, key := KeyEnd(k.key, k.start + k.len))))
  {
    ReachedByte(buf, m, k, LineDone(buf, k.(len := k.len + 1, key := KeyEnd(k.key, k.start + k.len))));
  }

  /** The data of a bulk string, `n` bytes at a time. */
  lemma {:induction false} SkipData(buf: Bytes, m: Msg, k: Msg, n: nat)
    requires Reached(buf, m, k) && k.st.UsdStr? && 0 < n <= k.argLen && Pos(k) + n <= |buf|
    ensures var r := k.(key := Noted(k.key, k.start + k.len, k.argLen), argLen := k.argLen - n, len := k.len + n);
            Reached(buf, m, r)
    decreases n
  {
    hide Run, OwnByte, Noted;
    var one := k.(key := Noted(k.key, k.start + k.len, k.argLen), argLen := k.argLen - 1, len := k.len + 1);
    DataByte(buf, k, buf[Pos(k)]);
    ReachedByte(buf, m, k, one);
    if n > 1 {
      NotedOnce(k.key, k.start + k.len, k.argLen, k.start + k.len + 1, k.argLen - 1);
      SkipData(buf, m, one, n - 1);
    }
  }

  lemma DataByte(buf: Bytes, k: Msg, b: byte)
    requires k.Msg? && k.st.UsdStr? && 0 < k.argLen
    ensures OwnByte(buf, k, b) ==
            Some(k.(key := Noted(k.key, k.start + k.len, k.argLen), argLen := k.argLen - 1, len := k.len + 1))
  {
    hide Noted;
  }

  // ---- Nested arrays ----

  /** What a call makes of the bytes when it reads `next` as the inner layer of `m`, with or without
    * credit for it. */
  ghost predicate AsInner(buf: Bytes, m: Msg, o: Outcome, inner: Outcome, credit: bool)
    requires m.Msg? && (!inner.Fault? ==> WellFormed(inner.m) && Pos(inner.m) <= |buf|)
  {
    match inner
    case Fault(_) => o == inner
    case Through(n) =>
      if n.st.End? then
        var r := LineDone(buf, m.(st := InNextLayer, len := m.len + n.len, next := n));
        WellFormed(r) && Pos(r) <= |buf| && o == Call(buf, r)
      else o == Through(m.(st := InNextLayer, next := n))
    case Pause(n) =>
      var r := m.(st := InNextLayer, next := n);
      WellFormed(r) && (if credit then o == Call(buf, r) else o == Pause(r))
  }

  lemma NestedStep(buf: Bytes, m: Msg)
    requires WellFormed(m) && m.st.InNextLayer? && Pos(m) < |buf|
    ensures Step(buf, m.next).None? ==> Step(buf, m).None?
    ensures Step(buf, m.next).Some? ==>
              var n := Step(buf, m.next).value;
              var k := if n.st.End? then LineDone(buf, m.(len := m.len + n.len, next := n)) else m.(next := n);
              Step(buf, m) == Some(k)
  {
    hide OwnByte, LineDone;
  }

  lemma {:induction false} RunInner(buf: Bytes, m: Msg, c: Credits)
    requires WellFormed(m) && m.st.InNextLayer? && Pos(m) <= |buf| && |c| == Depth(m)
    ensures AsInner(buf, m, Run(buf, m, c), Run(buf, m.next, c[1..]), c[0])
    decreases |buf| - Pos(m)
  {
    if Pos(m) == |buf| {
      assert m == m.(st := InNextLayer, next := m.next);
    } else {
      hide Run, AsInner, Step, Call, AnyCredit, Spend;
      if LacksLf(buf, m) {
        SkipByteKeeps(m);
        if AnyCredit(c[1..]) {
          SpendInner(c);
          RunInner(buf, SkipByte(m), Spend(c));
        }
        InnerSkips(buf, m, c);
      } else if Step(buf, m.next).None? {
        InnerFaults(buf, m, c);
      } else {
        StepAdvances(buf, m.next);
        var n := Step(buf, m.next).value;
        if n.st.End? {
          InnerEnds(buf, m, c, n);
        } else {
          StepDepth(buf, m.next);
          FitInner(c, Depth(n));
          RunInner(buf, m.(next := n), Fit(c, 1 + Depth(n)));
          InnerSteps(buf, m, c, n);
        }
      }
    }
  }

  lemma SpendInner(c: Credits)
    requires |c| > 0 && AnyCredit(c[1..])
    ensures AnyCredit(c) && Spend(c)[0] == c[0] && Spend(c)[1..] == Spend(c[1..])
  {
  }

  /** The byte is skipped in the inner layer, or the inner layer is left. */
  lemma InnerSkips(buf: Bytes, m: Msg, c: Credits)
    requires WellFormed(m) && m.st.InNextLayer? && Pos(m) < |buf| && |c| == Depth(m) && LacksLf(buf, m)
    requires WellFormed(SkipByte(m)) && Pos(SkipByte(m)) <= |buf| && Depth(SkipByte(m)) == |c|
    requires AnyCredit(c[1..]) ==>
               AnyCredit(c) && AsInner(buf, SkipByte(m), Run(buf, SkipByte(m), Spend(c)),
                                       Run(buf, SkipByte(m).next, Spend(c)[1..]), c[0])
    requires AnyCredit(c[1..]) ==> Spend(c)[1..] == Spend(c[1..])
    ensures AsInner(buf, m, Run(buf, m, c), Run(buf, m.next, c[1..]), c[0])
  {
    hide Run, Step;
    RunSkips(buf, m, c);
    RunSkips(buf, m.next, c[1..]);
    if AnyCredit(c[1..]) {
      AsInnerOf(buf, m, SkipByte(m), Run(buf, m, c), Run(buf, m.next, c[1..]), c[0]);
    } else {
      SpentAll(c[1..]);
      assert SkipByte(m) == m.(st := InNextLayer, next := SkipByte(m.next));
      assert c[0] ==> Spend(c) == NoCredit(|c|);
    }
  }

  lemma InnerFaults(buf: Bytes, m: Msg, c: Credits)
    requires WellFormed(m) && m.st.InNextLayer? && Pos(m) < |buf| && |c| == Depth(m) && !LacksLf(buf, m)
    requires Step(buf, m.next).None?
    ensures AsInner(buf, m, Run(buf, m, c), Run(buf, m.next, c[1..]), c[0])
  {
    hide OwnByte, LineDone;
  }

  lemma EndsAs(buf: Bytes, m: Msg, n: Msg, r: Msg, credit: bool)
    requires m.Msg? && m.st.InNextLayer? && WellFormed(n) && n.st.End? && Pos(n) <= |buf|
    requires WellFormed(r) && Pos(r) <= |buf| && r == LineDone(buf, m.(len := m.len + n.len, next := n))
    ensures AsInner(buf, m, Call(buf, r), Through(n), credit)
  {
    hide Call, LineDone;
    assert m.(len := m.len + n.len, next := n) == m.(st := InNextLayer, len := m.len + n.len, next := n);
  }

  lemma FlatCall(buf: Bytes, r: Msg, c: Credits)
    requires WellFormed(r) && Pos(r) <= |buf| && !r.st.InNextLayer?
    ensures Call(buf, r) == Run(buf, r, Fit(c, Depth(r)))
  {
    assert Fit(c, 0) == NoCredit(0);
  }

  lemma InnerEnds(buf: Bytes, m: Msg, c: Credits, n: Msg)
    requires WellFormed(m) && m.st.InNextLayer? && Pos(m) < |buf| && |c| == Depth(m) && !LacksLf(buf, m)
    requires Step(buf, m.next) == Some(n) && WellFormed(n) && n.st.End? && Pos(n) <= |buf|
    ensures AsInner(buf, m, Run(buf, m, c), Run(buf, m.next, c[1..]), c[0])
  {
    hide Run, Step, LineDone, AsInner, Call;
    var k := m.(len := m.len + n.len, next := n);
    var r := LineDone(buf, k);
    NestedStep(buf, m);
    LineDoneKeeps(buf, k);
    RunSteps(buf, m, c, r);
    FlatCall(buf, r, c);
    RunSteps(buf, m.next, c[1..], n);
    RunStays(buf, n, Fit(c[1..], Depth(n)));
    EndsAs(buf, m, n, r, c[0]);
  }

  lemma InnerSteps(buf: Bytes, m: Msg, c: Credits, n: Msg)
    requires WellFormed(m) && m.st.InNextLayer? && Pos(m) < |buf| && |c| == Depth(m) && !LacksLf(buf, m)
    requires Step(buf, m.next) == Some(n) && WellFormed(n) && !n.st.End? && n.start == m.next.start && n.len > 0
    requires Pos(n) <= |buf| && Depth(n) <= |c|
    requires AsInner(buf, m.(next := n), Run(buf, m.(next := n), Fit(c, 1 + Depth(n))),
                     Run(buf, n, Fit(c[1..], Depth(n))), c[0])
    ensures AsInner(buf, m, Run(buf, m, c), Run(buf, m.next, c[1..]), c[0])
  {
    hide Run, Step, LineDone, AsInner, Fit;
    NestedStep(buf, m);
    RunSteps(buf, m, c, m.(next := n));
    RunSteps(buf, m.next, c[1..], n);
    AsInnerOf(buf, m, m.(next := n), Run(buf, m, c), Run(buf, m.next, c[1..]), c[0]);
  }

  /** The inner layer that was is not looked at again. */
  lemma AsInnerOf(buf: Bytes, m: Msg, r: Msg, o: Outcome, inner: Outcome, credit: bool)
    requires m.Msg? && r.Msg? && (!inner.Fault? ==> WellFormed(inner.m) && Pos(inner.m) <= |buf|)
    requires r == m.(st := InNextLayer, next := r.next) && AsInner(buf, r, o, inner, credit)
    ensures AsInner(buf, m, o, inner, credit)
  {
    hide LineDone, Call;
    if !inner.Fault? {
      assert r.(st := InNextLayer, next := inner.m) == m.(st := InNextLayer, next := inner.m);
      assert r.(st := InNextLayer, len := m.len + inner.m.len, next := inner.m)
          == m.(st := InNextLayer, len := m.len + inner.m.len, next := inner.m);
    }
  }

  lemma RunSkips(buf: Bytes, m: Msg, c: Credits)
    requires WellFormed(m) && Pos(m) < |buf| && |c| == Depth(m) && LacksLf(buf, m)
    ensures var k := SkipByte(m);
            && WellFormed(k) && Pos(k) == Pos(m) + 1 && Depth(k) == |c|
            && Run(buf, m, c) == if AnyCredit(c) then Run(buf, k, Spend(c)) else Pause(k)
  {
    hide Step;
    SkipByteKeeps(m);
    NotEnded(m);
  }

  lemma NotEnded(m: Msg)
    requires WellFormed(m) && Innermost(m).st.UsdNumCrlf?
    ensures !m.st.End?
  {
  }

  lemma RunSteps(buf: Bytes, m: Msg, c: Credits, n: Msg)
    requires WellFormed(m) && Pos(m) < |buf| && |c| == Depth(m) && !m.st.End? && !LacksLf(buf, m)
    requires Step(buf, m) == Some(n)
    ensures WellFormed(n) && Pos(n) == Pos(m) + 1 && Depth(n) <= |c| + 1
    ensures Run(buf, m, c) == Run(buf, n, Fit(c, Depth(n)))
  {
    hide Step;
    StepAdvances(buf, m);
    StepDepth(buf, m);
  }

  lemma FitInner(c: Credits, depth: nat)
    requires 0 < |c| && depth <= |c|
    ensures Fit(c, 1 + depth)[0] == c[0] && Fit(c, 1 + depth)[1..] == Fit(c[1..], depth)
  {
  }

  lemma {:induction false} SpentAll(c: Credits)
    requires !AnyCredit(c)
    ensures c == NoCredit(|c|)
  {
    if |c| > 0 {
      SpentAll(c[1..]);
    }
  }

  /** A byte that does not fit an array header, or the first of a message. */
  lemma StuckInHeader(buf: Bytes, m: Msg, k: Msg)
    requires Reached(buf, m, k) && k.start + k.len < |buf| && !Reading(k.st) && !k.st.End?
    requires OwnByte(buf, k, buf[k.start + k.len]) == None
    ensures Call(buf, m) == Fault(Code(buf, k))
  {
    hide OwnByte;
    assert Step(buf, k).None?;
  }

  /** Read on from layer `m0` until its message ends or the bytes run out, or until a line feed is
    * missing behind a length and no array is read on in. On bytes that are well formed so far
    * the result is exactly that of feeding them one by one. */
  method ParseRsp(buf: Bytes, m0: Msg) returns (m: Msg, ret: int)
    requires WellFormed(m0) && Pos(m0) <= |buf| && !m0.st.End?
    ensures WellFormed(m) && Pos(m) <= |buf| && m.start == m0.start && m.len >= m0.len
    ensures ret == GR_OK && m0.st.Start? && m0.start + m0.len < |buf| ==> m.len > 0
    ensures m.st.End? ==> m.len > m0.len
    ensures m.st.Start? ==> m0.st.Start?
    ensures Answers(Call(buf, m0), m, ret)
    ensures Feed(buf, m0).Some? ==> ret == GR_OK && Feed(buf, m0) == Some(m)
    decreases |buf| - m0.start - m0.len, if m0.st.Start? then 0 else 3
  {
    hide Feed, Call, OwnByte, LineDone;
    FeedCalls(buf, m0);
    m := m0;
    while m.start + m.len < |buf|
      invariant Reached(buf, m0, m) && m.start == m0.start && m.len >= m0.len && !m.st.End?
      invariant m == m0 || m.len > 0
      invariant m == m0 || !m.st.Start?
      invariant m0.st.Start? && !m.st.Start? ==> m.len > m0.len
      decreases |buf| - m.start - m.len
    {
      if Reading(m.st) {
        var done;
        m, done, ret := ReadLine(buf, m);
        if done {
          LineDoneKeeps(buf, m);
          m := LineDone(buf, m);
          if m.st.End? {
            Stays(buf, m);
            return m, GR_OK;
          }
          continue;
        }
        return m, ret;
      }
      var b := buf[m.start + m.len];
      var r := OwnByte(buf, m, b);
      if r.None? {
        StuckInHeader(buf, m0, m);
        return m, if m.st.Start? && b == 0 then GR_START_NULL else GR_ERROR;
      }
      OwnByteAdvances(buf, m, b);
      ReachedByte(buf, m0, m, r.value);
      m := r.value;
      if m.st.End? {
        Stays(buf, m);
        return m, GR_OK;
      }
    }
    PosAtLeast(m);
    Stays(buf, m);
    return m, GR_OK;
  }

  /** Read on in the present line. When it completes, the layer is returned as it stands
    * before the line is counted. */
  method ReadLine(buf: Bytes, m0: Msg) returns (m: Msg, done: bool, ret: int)
    requires WellFormed(m0) && Reading(m0.st) && m0.start + m0.len < |buf| && Pos(m0) <= |buf|
    ensures m.Msg? && m.start == m0.start && m.len >= m0.len
    ensures done ==> m.start + m.len <= |buf| && m.len > m0.len && Reached(buf, m0, LineDone(buf, m))
    ensures !done ==> WellFormed(m) && Pos(m) <= |buf| && Reading(m.st) && Answers(Call(buf, m0), m, ret)
    decreases |buf| - m0.start - m0.len, 2
  {
    hide LineDone, KeyEnd, LineByte, OwnByte, Run, Call;
    m, ret := m0, GR_OK;
    var p := m.start + m.len;
    PosAtLeast(m);
    while p < |buf|
      invariant Reached(buf, m0, m) && m.start == m0.start && m.len >= m0.len && Reading(m.st)
      invariant m.start + m.len <= p <= |buf|
      invariant if m.st.InNextLayer? then m.start + m.len < |buf| && p <= Pos(m) else p == m.start + m.len
      decreases |buf| - p
    {
      if m.st.InNextLayer? {
        Goes(buf, m);
        m, done, ret := ReadInner(buf, m, m.next, false);
        return m, done, ret;
      }
      var b := buf[p];
      if m.st.StrCrlf? {
        if b != LF {
          StuckInLine(buf, m0, m);
          return m, false, GR_ERROR;
        }
        ReachedLineEnd(buf, m0, m);
        return m.(len := m.len + 1, key := KeyEnd(m.key, p)), true, GR_OK;
      } else if m.st.UsdNumCrlf? {
        if b != LF {
          StuckInLine(buf, m0, m);
          return m.(len := m.len + 1), false, GR_OK;
        }
        m := DataStart(buf, m0, m);
        p := m.start + m.len;
      } else if m.st.ReadingLine? && b == STAR {
        Opens(buf, m);
        m, done, ret := ReadInner(buf, m, Fresh(p), true);
        if done || ret != GR_OK {
          return m, done, ret;
        }
        PosAtLeast(m);
        p := p + 1;
      } else {
        var r := LineByte(m, b);
        if r.None? {
          StuckInLine(buf, m0, m);
          return m, false, GR_ERROR;
        }
        ReachedInLine(buf, m0, m, r.value);
        m := r.value;
        p := p + 1;
      }
    }
    Stays(buf, m);
    return m, false, GR_OK;
  }

  /** Read on in the inner layer `next` of `m`, or open it; what is opened is read on in once more. */
  method ReadInner(buf: Bytes, m: Msg, next: Msg, ghost again: bool) returns (r: Msg, done: bool, ret: int)
    requires WellFormed(m) && m.start + m.len < |buf| && Pos(m) <= |buf|
    requires if m.st.InNextLayer? then next == m.next else m.st.ReadingLine? && next == Fresh(m.start + m.len)
    requires WellFormed(next) && Pos(next) <= |buf| && AsInner(buf, m, Call(buf, m), Call(buf, next), again)
    ensures r.Msg? && r.start == m.start && r.len >= m.len
    ensures done ==> r.start + r.len <= |buf| && r.len > m.len && Reached(buf, m, LineDone(buf, r))
    ensures !done ==> WellFormed(r) && Pos(r) <= |buf| && Reading(r.st)
    ensures !done && (!again || ret != GR_OK) ==> Answers(Call(buf, m), r, ret)
    ensures !done && ret == GR_OK ==> r.st.InNextLayer? && r.len == m.len && (again ==> Reached(buf, m, r))
    decreases |buf| - m.start - m.len, 1
  {
    hide LineDone, Run, Call;
    var n;
    n, ret := ParseRsp(buf, next);
    if ret != GR_OK {
      return m, false, ret;
    }
    if n.st.End? {
      return m.(st := InNextLayer, len := m.len + n.len, next := n), true, GR_OK;
    }
    r := m.(st := InNextLayer, next := n);
    if Call(buf, next).Through? {
      Stays(buf, r);
    }
    return r, false, GR_OK;
  }

  /** The line feed before the data of a bulk string: with it goes all of the data that has
    * arrived. */
  method DataStart(buf: Bytes, ghost m0: Msg, m: Msg) returns (r: Msg)
    requires Reached(buf, m0, m) && m.st.UsdNumCrlf? && m.start + m.len < |buf| && buf[m.start + m.len] == LF
    ensures Reached(buf, m0, r) && r.st.UsdStr? && r.start == m.start && r.len > m.len && r.start + r.len <= |buf|
  {
    hide Run, Call, Noted, OwnByte;
    var avail := |buf| - (m.start + m.len);
    r := m.(len := m.len + 1, st := UsdStr);
    LengthEnds(buf, m);
    ReachedByte(buf, m0, m, r);
    if avail == 1 || m.argLen == 0 {
      return r;
    }
    var p := m.start + m.len + 1;
    if avail > m.argLen {
      SkipData(buf, m0, r, m.argLen);
      r := r.(key := Noted(m.key, p, m.argLen), len := r.len + m.argLen, argLen := 0);
    } else {
      SkipData(buf, m0, r, avail - 1);
      r := r.(key := Noted(m.key, p, m.argLen), len := r.len + avail - 1, argLen := m.argLen - (avail - 1));
    }
  }

  lemma LengthEnds(buf: Bytes, m: Msg)
    requires m.Msg? && m.st.UsdNumCrlf?
    ensures OwnByte(buf, m, LF) == Some(m.(len := m.len + 1, st := UsdStr))
  {
  }

  /** An array that was open before is read on in without credit. */
  lemma Goes(buf: Bytes, m: Msg)
    requires WellFormed(m) && m.st.InNextLayer? && Pos(m) <= |buf|
    ensures AsInner(buf, m, Call(buf, m), Call(buf, m.next), false)
  {
    hide Run, AsInner;
    RunInner(buf, m, NoCredit(Depth(m)));
    assert NoCredit(Depth(m))[1..] == NoCredit(Depth(m.next));
  }

  /** A line that opens a nested array: reading it is reading the inner message from its
    * first byte, with credit. */
  lemma Opens(buf: Bytes, m: Msg)
    requires WellFormed(m) && m.st.ReadingLine? && m.start + m.len < |buf| && buf[m.start + m.len] == STAR
    ensures var f := Fresh(m.start + m.len);
            WellFormed(f) && Pos(f) <= |buf| && AsInner(buf, m, Call(buf, m), Call(buf, f), true)
  {
    hide Step, Run, AsInner;
    var f := Fresh(m.start + m.len);
    FirstOfInner(buf, m);
    var n := Step(buf, f).value;
    var r := m.(st := InNextLayer, next := n);
    RunSteps(buf, f, [], n);
    RunSteps(buf, m, [], r);
    var one: Credits := [true];
    assert Depth(n) == 0 && Depth(r) == 1 && Fit([], 1) == one && Fit([], 0) == [] && one[1..] == [];
    assert Call(buf, m) == Run(buf, r, one) && Call(buf, f) == Run(buf, n, []);
    RunInner(buf, r, one);
    AsInnerOf(buf, m, r, Call(buf, m), Call(buf, f), true);
  }

  /** The first byte of a nested array is the first byte of the inner message. */
  lemma FirstOfInner(buf: Bytes, m: Msg)
    requires WellFormed(m) && m.st.ReadingLine? && m.start + m.len < |buf| && buf[m.start + m.len] == STAR
    ensures var f := Fresh(m.start + m.len);
            && WellFormed(f) && Pos(f) == Pos(m) == m.start + m.len
            && Step(buf, f).Some? && Step(buf, f).value.st.NArg?
            && Step(buf, m) == Some(m.(st := InNextLayer, next := Step(buf, f).value))
  {
  }

  /** "$3" with a carriage return and another letter behind it: no error is reported. */
  lemma LineFeedMissing(b: byte)
    requires b != LF
    ensures Call([USD, ZERO + 3, CR, b], Fresh(0)) == Pause(Msg(0, 4, UsdNumCrlf, 1, 3, 3, false, NO_KEY, NoMsg))
    ensures Feed([USD, ZERO + 3, CR, b], Fresh(0)).None?
  {
    var buf, m := [USD, ZERO + 3, CR, b], Fresh(0);
    var m1 := Msg(0, 1, UsdNum, 1, 0, 0, false, NO_KEY, NoMsg);
    var m2 := Msg(0, 2, UsdNum, 1, 3, 0, false, NO_KEY, NoMsg);
    var m3 := Msg(0, 3, UsdNumCrlf, 1, 3, 3, false, NO_KEY, NoMsg);
    assert OwnByte(buf, m, USD) == Some(m1) && OwnByte(buf, m1, ZERO + 3) == Some(m2);
    assert OwnByte(buf, m2, CR) == Some(m3);
    hide Run, Call, Feed, OwnByte;
    ReachedByte(buf, m, m, m1);
    ReachedByte(buf, m, m1, m2);
    ReachedByte(buf, m, m2, m3);
    StuckInLine(buf, m, m3);
    FeedCalls(buf, m);
  }
}
