/** The reader against the grammar of forms: it ends exactly where a form ends, and fails exactly
  * where the bytes are no part of one. */
module RespExact {
  import opened Seqs
  import opened Events
  import opened RespParser
  import opened Resp
  import opened RespForms
  import opened RedisMsg

  // ---- States of the reader and parts of forms ----

  /** How many elements are still to come, the one being read among them. */
  function Left(front: Front): nat
    requires ProperFront(front)
  {
    if front.NoFront? then 1 else Decimal(front.digits) - |front.items|
  }

  predicate AtLine(l: Within, m: Msg)
    requires m.Msg? && ProperLine(l, true) && !l.Nested?
  {
    match l
    case InText(_, _) => m.st.Str?
    case TextCr(_, _) => m.st.StrCrlf?
    case InLength(ds) => m.st.UsdNum? && m.argLen == Decimal(ds)
    case LengthCr(ds, _) => m.st.UsdNumCrlf? && m.argLen == Decimal(ds)
    case InData(ds, _, data) => m.st.UsdStr? && m.argLen == Decimal(ds) - |data|
    case DataCr(_, _, _) => m.st.StrCrlf?
    case NilMinus(_) => m.st.UsdEmpty?
    case NilOne(_) => m.st.UsdEmptyOne?
    case NilCr(_) => m.st.StrCrlf?
  }

  predicate AtHead(p: Part, m: Msg)
    requires m.Msg? && ProperPart(p) && (p.InHead? || p.HeadMinus? || p.HeadOne? || p.HeadCr?)
  {
    && m.need == Decimal(p.digits) && m.len == |SpellPart(p)|
    && match p
       case InHead(ds) => m.st == if ds == [ZERO] then NArgZero else NArg
       case HeadMinus(_) => m.st.NArgNegOne?
       case HeadOne(_) => m.st.NArgZero?
       case HeadCr(_, _) => m.st.NArgCrlf?
  }

  ghost predicate Matches(p: Part, m: Msg)
    requires ProperPart(p)
    decreases p
  {
    && m.Msg?
    && match p
       case Begin => m.st.Start? && m.len == 0
       case InHead(_) => AtHead(p, m)
       case HeadMinus(_) => AtHead(p, m)
       case HeadOne(_) => AtHead(p, m)
       case HeadCr(_, _) => AtHead(p, m)
       case Between(front) => m.st.ReadingLine? && m.len == |SpellFront(front)| && m.need == Left(front)
       case In(front, line) =>
         && m.need == Left(front)
         && if line.Nested? then
              InnerProper(line, front.NoFront?);
              && m.st.InNextLayer? && m.len == |SpellFront(front)|
              && m.next.Msg? && m.next.start == m.start + m.len && Matches(line.part, m.next)
            else
              LineAtTop(line, front.NoFront?);
              m.len == |SpellFront(front)| + |SpellLine(line)| && AtLine(line, m)
       case Whole(f) => m.st.End? && m.len == |Spell(f)|
  }

  /** The byte at the read position is the next of the part. */
  ghost predicate Agree(q: Option<Part>, r: Option<Msg>)
  {
    && (q.Some? ==> ProperPart(q.value))
    && (q.Some? <==> r.Some?) && (q.Some? ==> Matches(q.value, r.value))
  }

  lemma {:induction false} MatchesWell(p: Part, m: Msg)
    requires ProperPart(p) && Matches(p, m)
    ensures WellFormed(m) && Pos(m) == m.start + |SpellPart(p)| && (m.st.End? <==> p.Whole?)
    ensures Listing(p) ==> m.len > 0
    decreases p
  {
    hide Spell, SpellAll, Proper, ProperAll, Decimal;
    if p.In? && p.line.Nested? {
      InnerProper(p.line, p.front.NoFront?);
      MatchesWell(p.line.part, m.next);
    }
  }

  lemma BeginAgrees(buf: Bytes, m: Msg, b: byte)
    requires Matches(Begin, m)
    ensures Agree(Next(Begin, b), OwnByte(buf, m, b))
  {
  }

  lemma {:induction false} HeadPositive(ds: Bytes)
    requires Header(ds, false) && ds != [] && ds != [ZERO]
    ensures Decimal(ds) > 0
  {
    if |ds| > 1 {
      var init := ds[..|ds| - 1];
      assert init[0] == ds[0];
      HeadPositive(init);
    }
  }

  lemma InHeadDigit(m: Msg, ds: Bytes, b: byte, k: Msg)
    requires m.Msg? && ProperPart(InHead(ds)) && AtHead(InHead(ds), m) && IsDigit(b) && ds != [ZERO]
    requires k.Msg? && k.len == m.len + 1 && k.need == m.need * 10 + (b - ZERO)
    requires k.st == if k.need == 0 then NArgZero else NArg
    ensures Next(InHead(ds), b) == Some(InHead(ds + [b]))
    ensures ProperPart(InHead(ds + [b])) && Matches(InHead(ds + [b]), k)
  {
    hide Decimal;
    HeadZero(ds);
    DecimalNext(ds, b);
    HeadZero(ds + [b]);
  }

  lemma InHeadByte(buf: Bytes, m: Msg, b: byte)
    requires m.Msg? && (m.st.NArg? || m.st.NArgZero?)
    ensures var on := m.(len := m.len + 1);
            var need := m.need * 10 + (b - ZERO);
            OwnByte(buf, m, b)
            == if b == CR then Some(on.(st := NArgCrlf))
               else if m.st.NArgZero? then None
               else if IsDigit(b) then Some(on.(need := need, st := if need == 0 then NArgZero else NArg))
               else if b == MINUS then Some(on.(st := NArgNegOne))
               else None
  {
  }

  lemma InHeadAgrees(buf: Bytes, m: Msg, ds: Bytes, b: byte)
    requires ProperPart(InHead(ds)) && Matches(InHead(ds), m)
    ensures Agree(Next(InHead(ds), b), OwnByte(buf, m, b))
  {
    hide Decimal, OwnByte;
    InHeadByte(buf, m, b);
    if IsDigit(b) && ds != [ZERO] {
      InHeadDigit(m, ds, b, OwnByte(buf, m, b).value);
    }
  }

  /** A list length that is there is zero only as a zero that stands alone. */
  lemma HeadZero(ds: Bytes)
    requires AllDigits(ds)
    ensures ds == [] || ds == [ZERO] ==> Decimal(ds) == 0
    ensures Header(ds, false) && ds != [] && ds != [ZERO] ==> Decimal(ds) > 0
  {
    assert [ZERO][..0] == [];
    if Header(ds, false) && ds != [] && ds != [ZERO] {
      HeadPositive(ds);
    }
  }

  lemma HeadAgrees(buf: Bytes, m: Msg, p: Part, b: byte)
    requires ProperPart(p) && Matches(p, m) && (p.HeadMinus? || p.HeadOne? || p.HeadCr?)
    ensures Agree(Next(p, b), OwnByte(buf, m, b))
  {
    if p.HeadCr? && b == LF {
      HeadEndSpells(p.digits, p.minus, b);
    }
  }

  lemma BetweenAgrees(buf: Bytes, m: Msg, front: Front, b: byte)
    requires ProperPart(Between(front)) && Matches(Between(front), m)
    ensures Agree(Next(Between(front), b), OwnByte(buf, m, b))
  {
    hide Spell, SpellAll, Proper, ProperAll, SpellHead;
    if b == STAR {
      var k := FirstByte(Fresh(m.start + m.len), STAR).value;
      NewList(k);
      var q := In(front, Nested(InHead([])));
      assert ProperLine(q.line, false) && ProperPart(q);
      assert OwnByte(buf, m, b) == Some(m.(st := InNextLayer, next := k));
      assert Matches(q, m.(st := InNextLayer, next := k));
    } else if Sign(b, false) || b == USD {
      var l := FirstInLine(b, false).value;
      var k := OwnByte(buf, m, b).value;
      assert ProperLine(l, false) && ProperLine(l, true) && |SpellLine(l)| == 1 && ProperPart(In(front, l));
      assert k.need == m.need && k.len == m.len + 1 && AtLine(l, k);
      assert Matches(In(front, l), k);
    }
  }

  lemma NewList(k: Msg)
    requires k.Msg? && k.st.NArg? && k.len == 1 && k.need == 0
    ensures ProperPart(InHead([])) && Matches(InHead([]), k)
  {
  }

  // ---- Inside a line ----

  /** What a byte makes of a line and of the reader in it. */
  ghost predicate LineAgree(buf: Bytes, l: Line1, m: Msg, r: Option<Msg>)
    requires m.Msg?
  {
    match l
    case Stop => r.None?
    case More(k) =>
      && r.Some? && r.value.Msg? && r.value.len == m.len + 1 && r.value.start == m.start && r.value.need == m.need
      && !k.Nested? && ProperLine(k, true) && AtLine(k, r.value)
    case Full(f) =>
      && r.Some? && r.value.Msg? && r.value.len == m.len + 1 && r.value.start == m.start && r.value.need == m.need - 1
      && r.value.st == if m.need == 1 then End else ReadingLine
  }

  lemma TextAgrees(buf: Bytes, m: Msg, l: Within, b: byte)
    requires m.Msg? && (l.InText? || l.TextCr?) && ProperLine(l, true) && AtLine(l, m)
    ensures LineAgree(buf, NextInLine(l, b), m, OwnByte(buf, m, b))
  {
  }

  lemma LengthAgrees(buf: Bytes, m: Msg, l: Within, b: byte)
    requires m.Msg? && (l.InLength? || (l.LengthCr? && b == LF)) && ProperLine(l, true) && AtLine(l, m)
    ensures LineAgree(buf, NextInLine(l, b), m, OwnByte(buf, m, b))
  {
    hide Decimal, Zeros;
    NoDigits(l.digits);
    if IsDigit(b) {
      DecimalNext(l.digits, b);
    }
  }

  lemma DataAgrees(buf: Bytes, m: Msg, l: Within, b: byte)
    requires m.Msg? && (l.InData? || l.DataCr?) && ProperLine(l, true) && AtLine(l, m)
    ensures LineAgree(buf, NextInLine(l, b), m, OwnByte(buf, m, b))
  {
    hide Noted;
  }

  lemma NilAgrees(buf: Bytes, m: Msg, l: Within, b: byte)
    requires m.Msg? && (l.NilMinus? || l.NilOne? || l.NilCr?) && ProperLine(l, true) && AtLine(l, m)
    ensures LineAgree(buf, NextInLine(l, b), m, OwnByte(buf, m, b))
  {
  }

  lemma LineAgrees(buf: Bytes, m: Msg, l: Within, b: byte)
    requires m.Msg? && !l.Nested? && ProperLine(l, true) && AtLine(l, m) && (l.LengthCr? ==> b == LF)
    ensures LineAgree(buf, NextInLine(l, b), m, OwnByte(buf, m, b))
  {
    hide LineAgree, ProperLine, AtLine, OwnByte, NextInLine;
    match l {
      case InText(_, _) => TextAgrees(buf, m, l, b);
      case TextCr(_, _) => TextAgrees(buf, m, l, b);
      case InLength(_) => LengthAgrees(buf, m, l, b);
      case LengthCr(_, _) => LengthAgrees(buf, m, l, b);
      case InData(_, _, _) => DataAgrees(buf, m, l, b);
      case DataCr(_, _, _) => DataAgrees(buf, m, l, b);
      case NilMinus(_) => NilAgrees(buf, m, l, b);
      case NilOne(_) => NilAgrees(buf, m, l, b);
      case NilCr(_) => NilAgrees(buf, m, l, b);
    }
  }

  /** An element is complete for both. */
  lemma DoneAgrees(front: Front, f: Form, r: Msg, m: Msg)
    requires ProperFront(front) && Proper(f, front.NoFront?) && m.Msg? && m.need == Left(front)
    requires r.Msg? && r.len == |SpellFront(front)| + |Spell(f)| && r.need == m.need - 1
    requires r.st == if m.need == 1 then End else ReadingLine
    ensures ProperPart(Done(front, f)) && Matches(Done(front, f), r)
  {
    hide Spell, SpellAll, Proper, ProperAll, SpellHead, Decimal, SpellFront;
    DoneSpells(front, f);
  }

  lemma InAgrees(buf: Bytes, m: Msg, front: Front, line: Within, b: byte)
    requires ProperPart(In(front, line)) && Matches(In(front, line), m) && !line.Nested?
    requires line.LengthCr? ==> b == LF
    ensures Agree(Next(In(front, line), b), OwnByte(buf, m, b))
  {
    hide Spell, SpellAll, Proper, ProperAll, ProperFront, SpellFront, NextInLine, AtLine, OwnByte, Done, SpellLine;
    LineAtTop(line, front.NoFront?);
    LineAgrees(buf, m, line, b);
    NextLineSpells(line, b, front.NoFront?);
    var l := NextInLine(line, b);
    if l.Full? {
      DoneAgrees(front, l.f, OwnByte(buf, m, b).value, m);
    }
  }

  lemma {:induction false} StepAgrees(buf: Bytes, m: Msg, p: Part)
    requires ProperPart(p) && Matches(p, m) && !p.Whole? && WellFormed(m) && Pos(m) < |buf|
    requires AtLength(p) ==> buf[Pos(m)] == LF
    ensures Agree(Next(p, buf[Pos(m)]), Step(buf, m))
    decreases p
  {
    hide OwnByte, Agree;
    var b := buf[Pos(m)];
    MatchesWell(p, m);
    match p {
      case Begin => BeginAgrees(buf, m, b);
      case InHead(ds) => InHeadAgrees(buf, m, ds, b);
      case HeadMinus(_) => HeadAgrees(buf, m, p, b);
      case HeadOne(_) => HeadAgrees(buf, m, p, b);
      case HeadCr(_, _) => HeadAgrees(buf, m, p, b);
      case Between(front) => BetweenAgrees(buf, m, front, b);
      case In(front, line) =>
        if line.Nested? {
          InnerProper(line, front.NoFront?);
          StepAgrees(buf, m.next, line.part);
          NestedAgrees(buf, m, front, line.part, b);
        } else {
          InAgrees(buf, m, front, line, b);
        }
    }
  }

  /** The inner layer goes on. */
  lemma NestedOn(front: Front, r: Part, m: Msg, n: Msg)
    requires ProperFront(front) && front.Items? && ProperPart(r) && Listing(r) && Matches(r, n)
    requires m.Msg? && m.need == Left(front) && m.st.InNextLayer? && m.len == |SpellFront(front)|
    requires n.Msg? && n.start == m.start + m.len
    ensures ProperPart(In(front, Nested(r))) && Matches(In(front, Nested(r)), m.(next := n))
  {
    hide ProperFront, SpellFront, Left;
    assert ProperLine(Nested(r), false);
  }

  /** The inner layer is complete, and with it an element of the outer one. */
  lemma NestedDone(buf: Bytes, front: Front, f: Form, m: Msg, n: Msg)
    requires ProperFront(front) && front.Items? && Proper(f, true) && f.List? && Matches(Whole(f), n)
    requires m.Msg? && m.need == Left(front) && m.len == |SpellFront(front)|
    ensures var p := Done(front, f); ProperPart(p) && Matches(p, LineDone(buf, m.(len := m.len + n.len, next := n)))
  {
    ListAnywhere(f);
    hide ProperFront, SpellFront, Left, Proper, LineDone, Done;
    var k := m.(len := m.len + n.len, next := n);
    LineDoneIs(buf, k);
    DoneAgrees(front, f, LineDone(buf, k), m);
  }

  lemma NestedIs(front: Front, q: Part, m: Msg)
    requires ProperPart(In(front, Nested(q))) && Matches(In(front, Nested(q)), m)
    ensures ProperFront(front) && front.Items? && ProperPart(q) && Listing(q)
    ensures m.Msg? && m.need == Left(front) && m.st.InNextLayer? && m.len == |SpellFront(front)|
    ensures m.next.Msg? && m.next.start == m.start + m.len && Matches(q, m.next)
  {
    InnerProper(Nested(q), front.NoFront?);
    hide ProperFront, SpellFront, Left;
  }

  lemma NestedAgrees(buf: Bytes, m: Msg, front: Front, q: Part, b: byte)
    requires ProperPart(In(front, Nested(q))) && Matches(In(front, Nested(q)), m)
    requires WellFormed(m) && m.st.InNextLayer? && Pos(m) < |buf| && b == buf[Pos(m)]
    requires ProperPart(q) && Agree(Next(q, b), Step(buf, m.next))
    ensures Agree(Next(In(front, Nested(q)), b), Step(buf, m))
  {
    hide ProperFront, SpellFront, Done, LineDone, Left, Matches, Step, Next, ProperPart, SpellPart;
    NestedIs(front, q, m);
    NestedNext(front, q, b);
    NestedStep(buf, m);
    var r := Next(q, b);
    if r.Some? {
      NextSpells(q, b);
      var n := Step(buf, m.next).value;
      StepAdvances(buf, m.next);
      MatchesWell(r.value, n);
      if r.value.Whole? {
        WholeProper(r.value.f);
        NestedDone(buf, front, r.value.f, m, n);
      } else {
        NestedOn(front, r.value, m, n);
      }
    }
  }

  lemma WholeProper(f: Form)
    requires ProperPart(Whole(f))
    ensures Proper(f, true)
  {
  }

  lemma LineDoneIs(buf: Bytes, m: Msg)
    requires m.Msg?
    ensures var r := LineDone(buf, m);
            && r.Msg? && r.len == m.len && r.start == m.start && r.need == m.need - 1
            && r.st == if m.need == 1 then End else ReadingLine
  {
  }

  // ---- Skipped bytes ----

  lemma {:induction false} LengthState(p: Part, m: Msg)
    requires ProperPart(p) && Matches(p, m) && WellFormed(m)
    ensures AtLength(p) <==> Innermost(m).st.UsdNumCrlf?
    decreases p
  {
    hide ProperFront, Spell, SpellAll, Proper, SpellFront, Decimal;
    if p.In? && p.line.Nested? {
      InnerProper(p.line, p.front.NoFront?);
      LengthState(p.line.part, m.next);
    }
  }

  lemma OwnSkipAgrees(front: Front, line: Within, m: Msg, b: byte)
    requires ProperPart(In(front, line)) && Matches(In(front, line), m) && line.LengthCr? && b != LF
    ensures Agree(Next(In(front, line), b), Some(m.(len := m.len + 1)))
  {
    hide ProperFront, SpellFront, Left, Decimal, Done;
    LineAtTop(line, front.NoFront?);
    var next := LengthCr(line.digits, line.junk + [b]);
    assert ProperLine(next, front.NoFront?) && ProperLine(next, true);
    assert ProperPart(In(front, next)) && |SpellLine(next)| == |SpellLine(line)| + 1;
  }

  /** A skipped byte is counted in the part and by the reader. */
  lemma {:induction false} SkipAgrees(p: Part, m: Msg, b: byte)
    requires ProperPart(p) && Matches(p, m) && WellFormed(m) && AtLength(p) && b != LF
    ensures Agree(Next(p, b), Some(SkipByte(m))) && !Next(p, b).value.Whole?
    decreases p
  {
    hide ProperFront, SpellFront, Left, Agree, Done, Matches, ProperPart, Next, SpellPart;
    LengthState(p, m);
    if p.line.Nested? {
      var q := p.line.part;
      NestedIs(p.front, q, m);
      SkipAgrees(q, m.next, b);
      NestedSkips(p.front, q, m, b);
    } else {
      NoLayer(p, m);
      OwnSkipAgrees(p.front, p.line, m, b);
      OwnSkips(p.front, p.line, b);
    }
  }

  lemma NoLayer(p: Part, m: Msg)
    requires ProperPart(p) && Matches(p, m) && WellFormed(m) && p.In? && p.line.LengthCr?
    ensures !m.st.InNextLayer?
  {
    hide ProperFront, SpellFront, Left, Decimal;
  }

  lemma OwnSkips(front: Front, line: Within, b: byte)
    requires ProperPart(In(front, line)) && line.LengthCr? && b != LF
    ensures Next(In(front, line), b) == Some(In(front, LengthCr(line.digits, line.junk + [b])))
  {
    hide ProperFront;
  }

  lemma NestedSkips(front: Front, q: Part, m: Msg, b: byte)
    requires ProperPart(In(front, Nested(q))) && Matches(In(front, Nested(q)), m) && WellFormed(m)
    requires m.st.InNextLayer? && WellFormed(m.next) && Innermost(m.next).st.UsdNumCrlf?
    requires ProperPart(q) && Agree(Next(q, b), Some(SkipByte(m.next))) && !Next(q, b).value.Whole?
    ensures Agree(Next(In(front, Nested(q)), b), Some(SkipByte(m)))
    ensures !Next(In(front, Nested(q)), b).value.Whole?
  {
    hide ProperFront, SpellFront, Left, Done, Matches, Next, ProperPart, SpellPart;
    NestedIs(front, q, m);
    NestedNext(front, q, b);
    NextSpells(q, b);
    SkipByteKeeps(m.next);
    NestedOn(front, Next(q, b).value, m, SkipByte(m.next));
  }

  /** Which of the open inner lists have their credit left, from the outermost. */
  function CreditsOf(p: Part): Credits
    decreases p
  {
    if p.In? && p.line.Nested? then [DebtPart(p.line.part, true) == 0] + CreditsOf(p.line.part) else []
  }

  lemma {:induction false} CreditsDepth(p: Part, m: Msg)
    requires ProperPart(p) && Matches(p, m) && WellFormed(m)
    ensures |CreditsOf(p)| == Depth(m)
    decreases p
  {
    hide ProperFront, Spell, SpellAll, Proper, SpellFront, Decimal, Left;
    if p.In? && p.line.Nested? {
      InnerProper(p.line, p.front.NoFront?);
      CreditsDepth(p.line.part, m.next);
    }
  }

  lemma {:induction false} CreditLeft(p: Part)
    ensures AnyCredit(CreditsOf(p)) <==> HasCredit(p)
    decreases p
  {
    if p.In? && p.line.Nested? {
      CreditLeft(p.line.part);
      assert CreditsOf(p)[1..] == CreditsOf(p.line.part);
    }
  }

  /** A byte that fits opens or closes a list, or leaves the credits as they are. */
  lemma {:induction false} FitsCredits(p: Part, b: byte)
    requires ProperPart(p) && Next(p, b).Some? && (AtLength(p) ==> b == LF)
    ensures var q := Next(p, b).value;
            |CreditsOf(q)| <= |CreditsOf(p)| + 1 && CreditsOf(q) == Fit(CreditsOf(p), |CreditsOf(q)|)
    decreases p
  {
    if p.In? && p.line.Nested? {
      InnerProper(p.line, p.front.NoFront?);
      NestedFront(p.front, p.line.part);
      hide ProperFront, Done, DebtPart, Next, ProperPart, CreditsOf, AtLength;
      var q := p.line.part;
      AtLengthInner(p.front, q);
      NestedNext(p.front, q, b);
      NextSpells(q, b);
      FitsCredits(q, b);
      NextDebt(q, b, true);
      NestedCredits(p.front, q);
      var r := Next(q, b).value;
      if r.Whole? {
        DoneCredits(p.front, r.f);
      } else {
        NestedCredits(p.front, r);
        FitInner(CreditsOf(p), |CreditsOf(r)|);
      }
    } else {
      OwnCredits(p, b);
    }
  }

  lemma NestedFront(front: Front, q: Part)
    requires ProperPart(In(front, Nested(q)))
    ensures ProperFront(front)
  {
  }

  lemma AtLengthInner(front: Front, q: Part)
    ensures AtLength(In(front, Nested(q))) <==> AtLength(q)
  {
  }

  lemma NestedCredits(front: Front, q: Part)
    ensures var c := CreditsOf(In(front, Nested(q)));
            |c| == 1 + |CreditsOf(q)| && (c[0] <==> DebtPart(q, true) == 0) && c[1..] == CreditsOf(q)
  {
    hide DebtPart;
  }

  lemma DoneCredits(front: Front, f: Form)
    requires ProperFront(front)
    ensures CreditsOf(Done(front, f)) == []
  {
  }

  lemma OwnCredits(p: Part, b: byte)
    requires ProperPart(p) && Next(p, b).Some? && !(p.In? && p.line.Nested?)
    ensures CreditsOf(Next(p, b).value) == [] || CreditsOf(Next(p, b).value) == [true]
  {
    hide ProperFront, Decimal;
    if p.In? {
      LineAtTop(p.line, p.front.NoFront?);
      NextLineSpells(p.line, b, p.front.NoFront?);
    }
  }

  /** A skipped byte uses the innermost credit. */
  lemma {:induction false} SpendsCredit(p: Part, b: byte)
    requires ProperPart(p) && Next(p, b).Some? && AtLength(p) && b != LF && HasCredit(p)
    ensures AnyCredit(CreditsOf(p)) && CreditsOf(Next(p, b).value) == Spend(CreditsOf(p))
    decreases p
  {
    hide ProperFront, Done, DebtPart;
    InnerProper(p.line, p.front.NoFront?);
    var q := p.line.part;
    NestedNext(p.front, q, b);
    NextDebt(q, b, true);
    CreditLeft(p);
    CreditLeft(q);
    assert CreditsOf(p)[1..] == CreditsOf(q);
    StaysOpen(q, b);
    if HasCredit(q) {
      SpendsCredit(q, b);
    } else {
      KeepsCredits(q, b);
    }
  }

  lemma {:induction false} StaysOpen(p: Part, b: byte)
    requires ProperPart(p) && Next(p, b).Some? && AtLength(p) && b != LF
    ensures !Next(p, b).value.Whole?
    decreases p
  {
    hide ProperFront, Done;
    if p.line.Nested? {
      InnerProper(p.line, p.front.NoFront?);
      NestedNext(p.front, p.line.part, b);
      StaysOpen(p.line.part, b);
    } else {
      OwnSkips(p.front, p.line, b);
    }
  }

  /** Without any credit, skipping a byte leaves the credits at none. */
  lemma {:induction false} KeepsCredits(p: Part, b: byte)
    requires ProperPart(p) && Next(p, b).Some? && AtLength(p) && b != LF && !HasCredit(p)
    ensures CreditsOf(Next(p, b).value) == CreditsOf(p)
    decreases p
  {
    hide ProperFront, Done, DebtPart;
    if p.line.Nested? {
      InnerProper(p.line, p.front.NoFront?);
      var q := p.line.part;
      NestedNext(p.front, q, b);
      NextDebt(q, b, true);
      StaysOpen(q, b);
      KeepsCredits(q, b);
    } else {
      OwnSkips(p.front, p.line, b);
    }
  }

  // ---- Whole buffers ----

  /** The reader fails where the bytes do not fit, or something is skipped. */
  lemma {:induction false} FeedAgrees(buf: Bytes, m: Msg, p: Part)
    requires ProperPart(p) && Matches(p, m) && WellFormed(m) && Pos(m) <= |buf| && Allowed(Never, p)
    ensures var r := Reads(p, buf[Pos(m)..], Never); Agree(if r.At? then Some(r.part) else None, Feed(buf, m))
    decreases |buf| - Pos(m)
  {
    hide Step, Next, Matches, ProperPart, Allowed, AtLength;
    MatchesWell(p, m);
    if !p.Whole? && Pos(m) < |buf| {
      var b := buf[Pos(m)];
      assert buf[Pos(m)..][1..] == buf[Pos(m) + 1..];
      LengthState(p, m);
      if AtLength(p) && b != LF {
        LacksLfStops(buf, m);
        SkipAgrees(p, m, b);
        Forbidden(p, b);
      } else {
        StepAgrees(buf, m, p);
        if Step(buf, m).Some? {
          StepAdvances(buf, m);
          Permitted(p, b, Never);
          FeedAgrees(buf, Step(buf, m).value, Next(p, b).value);
        }
      }
    }
  }

  lemma Forbidden(p: Part, b: byte)
    requires ProperPart(p) && Next(p, b).Some? && AtLength(p) && b != LF
    ensures !Allowed(Never, Next(p, b).value)
  {
    hide Next, ProperPart, DebtPart;
    NextDebt(p, b, false);
  }

  lemma Permitted(p: Part, b: byte, skip: Skipping)
    requires ProperPart(p) && Next(p, b).Some? && Allowed(skip, p) && (AtLength(p) ==> b == LF)
    ensures Allowed(skip, Next(p, b).value)
  {
    hide Next, ProperPart, DebtPart;
    NextDebt(p, b, skip.OncePerList?);
  }

  /** A call that opens every list it reads in has one skipped byte for each of them. */
  ghost predicate RunAgree(r: Course, o: Outcome)
  {
    && (r.Wrong? <==> o.Fault?) && (r.At? <==> o.Through?)
    && (!r.Wrong? ==> ProperPart(r.part) && Matches(r.part, o.m))
  }

  lemma {:induction false} RunAgrees(buf: Bytes, m: Msg, p: Part, c: Credits)
    requires ProperPart(p) && Matches(p, m) && WellFormed(m) && Pos(m) <= |buf| && Allowed(OncePerList, p)
    requires c == CreditsOf(p) && |c| == Depth(m)
    ensures RunAgree(Reads(p, buf[Pos(m)..], OncePerList), Run(buf, m, c))
    decreases |buf| - Pos(m)
  {
    hide Step, Next, Matches, ProperPart, Allowed, AtLength, AnyCredit, Spend, HasCredit, CreditsOf, Run;
    MatchesWell(p, m);
    if p.Whole? || Pos(m) == |buf| {
      RunStays(buf, m, c);
    } else {
      var b := buf[Pos(m)];
      assert buf[Pos(m)..][1..] == buf[Pos(m) + 1..];
      LengthState(p, m);
      if AtLength(p) && b != LF {
        SkipAgrees(p, m, b);
        CreditLeft(p);
        RunSkips(buf, m, c);
        Charged(p, b);
        if HasCredit(p) {
          SpendsCredit(p, b);
          RunAgrees(buf, SkipByte(m), Next(p, b).value, Spend(c));
        }
      } else {
        StepAgrees(buf, m, p);
        if Step(buf, m).Some? {
          var n := Step(buf, m).value;
          Permitted(p, b, OncePerList);
          RunSteps(buf, m, c, n);
          FitsCredits(p, b);
          CreditsDepth(Next(p, b).value, n);
          RunAgrees(buf, n, Next(p, b).value, Fit(c, Depth(n)));
        } else {
          RunFaults(buf, m, c);
        }
      }
    }
  }

  lemma Charged(p: Part, b: byte)
    requires ProperPart(p) && Next(p, b).Some? && Allowed(OncePerList, p) && AtLength(p) && b != LF
    ensures Allowed(OncePerList, Next(p, b).value) <==> HasCredit(p)
  {
    hide Next, ProperPart, DebtPart, HasCredit;
    NextDebt(p, b, true);
  }

  lemma RunFaults(buf: Bytes, m: Msg, c: Credits)
    requires WellFormed(m) && Pos(m) < |buf| && |c| == Depth(m) && !m.st.End? && !LacksLf(buf, m)
    requires Step(buf, m).None?
    ensures Run(buf, m, c) == Fault(Code(buf, m))
  {
    hide Step;
  }

  lemma FeedIs(buf: Bytes)
    ensures var r := Reads(Begin, buf, Never); Agree(if r.At? then Some(r.part) else None, Feed(buf, Fresh(0)))
  {
    hide Reads, Feed;
    FeedAgrees(buf, Fresh(0), Begin);
    assert buf[0..] == buf;
  }

  lemma CallIs(buf: Bytes)
    ensures RunAgree(Reads(Begin, buf, OncePerList), Call(buf, Fresh(0)))
  {
    hide Reads, Run, RunAgree;
    RunAgrees(buf, Fresh(0), Begin, []);
    assert buf[0..] == buf;
  }

  // ---- What is fed byte by byte ----

  lemma EndsAtForm(buf: Bytes, f: Form)
    requires Sound(f, Never) && Spell(f) <= buf
    ensures var r := Feed(buf, Fresh(0)); r.Some? && r.value.st.End? && r.value.len == |Spell(f)|
  {
    hide Reads, Feed, Proper, Spell, Allowed;
    FeedIs(buf);
    ReadsForm(buf, f, Never);
  }

  lemma FormAtEnd(buf: Bytes) returns (f: Form)
    requires Feed(buf, Fresh(0)).Some? && Feed(buf, Fresh(0)).value.st.End?
    ensures Sound(f, Never) && Spell(f) <= buf
    ensures |Spell(f)| == Feed(buf, Fresh(0)).value.len
  {
    hide Reads, Feed, Proper, Spell, Allowed;
    FeedIs(buf);
    var q := Reads(Begin, buf, Never).part;
    MatchesWell(q, Feed(buf, Fresh(0)).value);
    f := q.f;
    ReadsExactly(buf, Never);
  }

  /** The reader ends after `n` bytes if and only if those are a form with nothing skipped. */
  lemma EndsExactly(buf: Bytes, n: nat)
    ensures (Feed(buf, Fresh(0)).Some? && Feed(buf, Fresh(0)).value.st.End? && Feed(buf, Fresh(0)).value.len == n)
            <==> n <= |buf| && IsForm(buf[..n], Never)
  {
    hide Feed, Proper, Spell, Allowed;
    if Feed(buf, Fresh(0)).Some? && Feed(buf, Fresh(0)).value.st.End? && Feed(buf, Fresh(0)).value.len == n {
      var f := FormAtEnd(buf);
      assert Spell(f) == buf[..n];
    }
    if n <= |buf| && IsForm(buf[..n], Never) {
      var f :| Sound(f, Never) && Spell(f) == buf[..n];
      EndsAtForm(buf, f);
    }
  }

  /** It fails if and only if the bytes neither begin with such a form nor are part of one. */
  lemma FailsExactly(buf: Bytes)
    ensures Feed(buf, Fresh(0)).None? <==> !PartOfForm(buf, Never)
  {
    hide Reads, Feed, Proper, Spell, Allowed;
    FeedIs(buf);
    ReadsExactly(buf, Never);
  }

  // ---- What the code answers ----

  /** A byte that does not fit the first place is a null byte, or an error is reported. */
  lemma FaultCode(buf: Bytes)
    ensures var o := Call(buf, Fresh(0)); o.Fault? && o.code == GR_START_NULL <==> |buf| > 0 && buf[0] == 0
  {
    hide Run;
    if |buf| > 0 {
      var m := Fresh(0);
      if Step(buf, m).None? {
        RunFaults(buf, m, []);
      } else {
        var n := Step(buf, m).value;
        RunSteps(buf, m, [], n);
        Begun(buf, n, Fit([], Depth(n)));
      }
    } else {
      Stays(buf, Fresh(0));
    }
  }

  /** No layer starts over. */
  predicate Started(m: Msg)
    requires WellFormed(m)
  {
    !Innermost(m).st.Start?
  }

  lemma {:induction false} StepStarts(buf: Bytes, m: Msg)
    requires WellFormed(m) && Pos(m) < |buf| && Step(buf, m).Some? && WellFormed(Step(buf, m).value)
    ensures Started(Step(buf, m).value)
    decreases m
  {
    hide OwnByte, LineDone;
    if m.st.InNextLayer? {
      StepAdvances(buf, m.next);
      var n := Step(buf, m.next).value;
      StepStarts(buf, m.next);
      LineDoneKeeps(buf, m.(len := m.len + n.len, next := n));
    } else {
      OwnStarts(buf, m, buf[Pos(m)]);
    }
  }

  lemma OwnStarts(buf: Bytes, m: Msg, b: byte)
    requires m.Msg? && !m.st.InNextLayer? && OwnByte(buf, m, b).Some? && WellFormed(OwnByte(buf, m, b).value)
    ensures Started(OwnByte(buf, m, b).value)
  {
  }

  lemma {:induction false} SkipStarts(m: Msg)
    requires WellFormed(m) && WellFormed(SkipByte(m))
    ensures Innermost(SkipByte(m)).st == Innermost(m).st
    decreases m
  {
    if m.st.InNextLayer? {
      SkipStarts(m.next);
    }
  }

  lemma {:induction false} Begun(buf: Bytes, m: Msg, c: Credits)
    requires WellFormed(m) && Pos(m) <= |buf| && |c| == Depth(m) && Started(m)
    ensures Run(buf, m, c).Fault? ==> Run(buf, m, c).code == GR_ERROR
    decreases |buf| - Pos(m)
  {
    hide Run, Step, LacksLf;
    if m.st.End? || Pos(m) == |buf| {
      RunStays(buf, m, c);
    } else if LacksLf(buf, m) {
      RunSkips(buf, m, c);
      SkipStarts(m);
      if AnyCredit(c) {
        Begun(buf, SkipByte(m), Spend(c));
      }
    } else if Step(buf, m).None? {
      RunFaults(buf, m, c);
    } else {
      var n := Step(buf, m).value;
      RunSteps(buf, m, c, n);
      StepStarts(buf, m);
      Begun(buf, n, Fit(c, Depth(n)));
    }
  }

  /** The flag of an error reply, once the first byte is there. */
  lemma {:induction false} StepFlag(buf: Bytes, m: Msg)
    requires WellFormed(m) && Pos(m) < |buf| && Step(buf, m).Some?
    ensures !m.st.Start? ==> Step(buf, m).value.err == m.err && !Step(buf, m).value.st.Start?
  {
    hide OwnByte, LineDone;
    if m.st.InNextLayer? {
      StepAdvances(buf, m.next);
      var n := Step(buf, m.next).value;
      LineDoneFlag(buf, m.(len := m.len + n.len, next := n));
    } else {
      OwnFlag(buf, m, buf[Pos(m)]);
    }
  }

  lemma LineDoneFlag(buf: Bytes, m: Msg)
    requires m.Msg?
    ensures LineDone(buf, m).err == m.err && !LineDone(buf, m).st.Start?
  {
  }

  lemma OwnFlag(buf: Bytes, m: Msg, b: byte)
    requires m.Msg? && !m.st.InNextLayer? && OwnByte(buf, m, b).Some?
    ensures var r := OwnByte(buf, m, b).value;
            r.Msg? && !r.st.Start? && (r.err <==> if m.st.Start? then m.err || b == MINUS else m.err)
  {
  }

  lemma SkipFlag(m: Msg)
    requires WellFormed(m)
    ensures SkipByte(m).Msg? && SkipByte(m).err == m.err && SkipByte(m).st == m.st
  {
  }

  lemma {:induction false} RunFlag(buf: Bytes, m: Msg, c: Credits)
    requires WellFormed(m) && Pos(m) <= |buf| && |c| == Depth(m) && !m.st.Start?
    ensures !Run(buf, m, c).Fault? ==> Run(buf, m, c).m.err == m.err
    decreases |buf| - Pos(m)
  {
    hide Run, Step, LacksLf;
    if m.st.End? || Pos(m) == |buf| {
      RunStays(buf, m, c);
    } else if LacksLf(buf, m) {
      RunSkips(buf, m, c);
      SkipFlag(m);
      if AnyCredit(c) {
        RunFlag(buf, SkipByte(m), Spend(c));
      }
    } else if Step(buf, m).None? {
      RunFaults(buf, m, c);
    } else {
      var n := Step(buf, m).value;
      RunSteps(buf, m, c, n);
      StepFlag(buf, m);
      RunFlag(buf, n, Fit(c, Depth(n)));
    }
  }

  /** A message counts as an error reply if and only if it begins with a minus sign. */
  lemma ErrorFlag(buf: Bytes)
    requires |buf| > 0
    ensures var o := Call(buf, Fresh(0)); !o.Fault? ==> (o.m.err <==> buf[0] == Ascii("-")[0])
  {
    hide Run;
    var m := Fresh(0);
    if Step(buf, m).None? {
      RunFaults(buf, m, []);
    } else {
      var n := Step(buf, m).value;
      RunSteps(buf, m, [], n);
      OwnFlag(buf, m, buf[0]);
      RunFlag(buf, n, Fit([], Depth(n)));
    }
  }

  /** A call ends a message after `n` bytes if and only if those are a form in which each inner list
    * has credit for what it skips. */
  lemma CallEndsExactly(buf: Bytes, n: nat)
    ensures var o := Call(buf, Fresh(0));
            o.Through? && o.m.st.End? && o.m.len == n <==> n <= |buf| && IsForm(buf[..n], OncePerList)
  {
    hide Reads, Call, Proper, Spell, Allowed, Matches, ProperPart;
    NothingSpelled(OncePerList);
    CallIs(buf);
    ReadsExactly(buf, OncePerList);
    var r, o := Reads(Begin, buf, OncePerList), Call(buf, Fresh(0));
    if r.At? {
      MatchesWell(r.part, o.m);
      if r.part.Whole? {
        WholeEnds(r.part.f, o.m);
        assert Spell(r.part.f) == buf[..o.m.len];
      }
    }
    if n <= |buf| && IsForm(buf[..n], OncePerList) {
      var f :| Sound(f, OncePerList) && Spell(f) == buf[..n];
      assert Spell(f) <= buf;
    }
  }

  lemma WholeEnds(f: Form, m: Msg)
    requires ProperPart(Whole(f)) && Matches(Whole(f), m)
    ensures m.st.End? && m.len == |Spell(f)|
  {
  }

  /** A call returns early if and only if somewhere more is skipped than there is credit for. */
  lemma PausesExactly(buf: Bytes)
    ensures Call(buf, Fresh(0)).Pause? <==> SkipsTooMany(buf, OncePerList)
  {
    hide Reads, Call, Allowed, Matches, ProperPart;
    CallIs(buf);
    ReadsExactly(buf, OncePerList);
  }

  /** What the code answers on a new message, in terms of the bytes alone. In front of the line feed
    * behind a length other bytes may be skipped: nothing is reported when a form, or a part of one,
    * skips one byte for each inner list, and nothing either when more is skipped. In the first
    * case only the message can end. */
  lemma AnswersExactly(buf: Bytes, m: Msg, ret: int)
    requires WellFormed(m) && Answers(Call(buf, Fresh(0)), m, ret)
    ensures ret == GR_OK <==> PartOfForm(buf, OncePerList) || SkipsTooMany(buf, OncePerList)
    ensures ret == GR_START_NULL <==> |buf| > 0 && buf[0] == 0
    ensures ret == GR_OK || ret == GR_START_NULL || ret == GR_ERROR
    ensures ret == GR_OK ==> forall n: nat :: m.st.End? && m.len == n <==> n <= |buf| && IsForm(buf[..n], OncePerList)
    ensures ret == GR_OK ==> exists p :: ProperPart(p) && Matches(p, m) && SpellPart(p) <= buf
  {
    hide Reads, Call, Allowed, Matches, ProperPart, SpellPart, IsForm;
    CallIs(buf);
    FaultCode(buf);
    ReadsExactly(buf, OncePerList);
    if ret == GR_OK {
      ReadIsPart(buf, OncePerList);
      forall n: nat ensures m.st.End? && m.len == n <==> n <= |buf| && IsForm(buf[..n], OncePerList) {
        CallEndsExactly(buf, n);
      }
    }
  }

  /** In a line of the message itself a missing line feed is never reported, whatever follows. */
  lemma OwnLineUnreported(buf: Bytes, p: Part, b: byte)
    requires ProperPart(p) && Allowed(OncePerList, p) && p.In? && p.line.LengthCr? && b != LF
    requires SpellPart(p) + [b] <= buf
    ensures Call(buf, Fresh(0)).Pause? && !PartOfForm(buf, OncePerList)
  {
    hide Reads, Call, ProperPart, SpellPart, Allowed;
    OwnSkips(p.front, p.line, b);
    NextSpells(p, b);
    Charged(p, b);
    PausesExactly(buf);
    ReadsExactly(buf, OncePerList);
  }

  // ---- Cases ----

  /** A list of one, up to its element. */
  const ONE_ITEM := Items([ONE], false, [])

  lemma OneItem()
    ensures ProperFront(ONE_ITEM) && SpellFront(ONE_ITEM) == [STAR, ONE, CR, LF] && Decimal([ONE]) == 1
    ensures Decimal([ZERO]) == 0 && AllDigits([ZERO])
  {
    assert Decimal([]) == 0;
    assert [ONE][..0] == [] && [ZERO][..0] == [];
  }

  /** A list in a list, with a byte skipped in the inner one: it is read on in. */
  function SkipsOne(b: byte): Part
  {
    In(ONE_ITEM, Nested(In(ONE_ITEM, InData([ZERO], [b], []))))
  }

  lemma SkipsOneIs(b: byte)
    requires b != LF
    ensures var p := SkipsOne(b);
            && ProperPart(p) && Allowed(OncePerList, p) && !Allowed(Never, p)
            && SpellPart(p) == [STAR, ONE, CR, LF, STAR, ONE, CR, LF, USD, ZERO, CR, b, LF]
  {
    OneItem();
    hide ProperFront, SpellFront, Decimal, AllDigits;
    var line := InData([ZERO], [b], []);
    assert ProperLine(line, false) && SpellLine(line) == [USD, ZERO, CR, b, LF];
    var inner := In(ONE_ITEM, line);
    assert ProperPart(inner) && SpellPart(inner) == [STAR, ONE, CR, LF, USD, ZERO, CR, b, LF];
    assert DebtPart(inner, true) == DebtPart(inner, false) == 1 by {
      assert DebtAll([], true) == DebtAll([], false) == 0;
    }
    var nested := Nested(inner);
    assert ProperLine(nested, false) && SpellLine(nested) == SpellPart(inner);
    assert DebtLine(nested, true) == 0 && DebtLine(nested, false) == 1;
    assert DebtPart(In(ONE_ITEM, nested), true) == 0 && DebtPart(In(ONE_ITEM, nested), false) == 1 by {
      assert DebtAll([], true) == DebtAll([], false) == 0;
    }
  }

  /** In a list in a list the line feed is missing, and the data that follows has a byte too many:
    * that is reported. */
  lemma FaultReported(b: byte, c: byte)
    requires b != LF && c != CR
    ensures Call(SpellPart(SkipsOne(b)) + [c], Fresh(0)) == Fault(GR_ERROR)
  {
    var p := SkipsOne(b);
    var buf := SpellPart(p) + [c];
    SkipsOneIs(b);
    OneItem();
    assert Next(p, c).None?;
    hide Next, Call, Reads;
    ReadsBack(p, OncePerList);
    ReadsOn(Begin, SpellPart(p), [c], OncePerList);
    assert Reads(p, [c], OncePerList).Wrong?;
    CallIs(buf);
    FaultCode(buf);
  }

  /** With the data complete, the message ends in the same call, although nothing is skipped in a
    * message of the protocol. */
  lemma FaultFramed(b: byte)
    requires b != LF
    ensures var buf := SpellPart(SkipsOne(b)) + CRLF;
            && |buf| == 15 && Feed(buf, Fresh(0)).None?
            && Call(buf, Fresh(0)).Through? && Call(buf, Fresh(0)).m.st.End? && Call(buf, Fresh(0)).m.len == 15
  {
    var p := SkipsOne(b);
    var buf := SpellPart(p) + CRLF;
    SkipsOneIs(b);
    var q, f := SkipsOneOn(b);
    hide Next, Call, Reads, Feed, Allowed, SpellPart, Spell, Proper, SkipsOne;
    NextSpells(p, CR);
    NextSpells(q, LF);
    WholeIs(f);
    Permitted(p, CR, OncePerList);
    Permitted(q, LF, OncePerList);
    assert SpellPart(p) + [CR] + [LF] == buf;
    ReadsForm(buf, f, OncePerList);
    CallIs(buf);
    ReadsOver(buf, p, Never);
    FeedIs(buf);
  }

  lemma SkipsOneOn(b: byte) returns (q: Part, f: Form)
    requires b != LF && ProperPart(SkipsOne(b))
    ensures Next(SkipsOne(b), CR) == Some(q) && ProperPart(q) && Next(q, LF) == Some(Whole(f))
    ensures !AtLength(SkipsOne(b)) && !AtLength(q)
  {
    q := In(ONE_ITEM, Nested(In(ONE_ITEM, DataCr([ZERO], [b], []))));
    f := List([ONE], false, [List([ONE], false, [Block([ZERO], [b], [])])]);
    OneItem();
    assert Next(SkipsOne(b).line.part, CR) == Some(q.line.part);
    NextSpells(SkipsOne(b), CR);
    var block := Block([ZERO], [b], []);
    assert [] + [block] == [block] && Done(ONE_ITEM, block) == Whole(f.items[0]);
    assert Next(q.line.part, LF) == Some(Done(ONE_ITEM, block));
    assert [] + [f.items[0]] == f.items && Done(ONE_ITEM, f.items[0]) == Whole(f);
  }
}
