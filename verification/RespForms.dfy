/** What the reader takes for a message, written down as a grammar: more than the protocol has,
  * but nothing else. In front of the line feed behind a length it may skip other bytes; how many
  * it skips is a matter of what is asked of a form. */
module RespForms {
  import opened Seqs
  import opened RespParser
  import opened Resp

  // ---- The grammar ----

  /** A line of text, a block of announced length, a block that is not there, or a list. Lengths
    * are kept as they are written, and so are bytes that are skipped behind the carriage return
    * of a length. */
  datatype Form =
    | Line(sign: byte, text: Bytes)
    | Block(digits: Bytes, junk: Bytes, data: Bytes)
    | Nil(zeros: Bytes)
    | List(digits: Bytes, minus: bool, items: seq<Form>)

  /** The number a string of digits stands for; none stand for zero. */
  function Decimal(ds: Bytes): nat
    requires AllDigits(ds)
  {
    if |ds| == 0 then 0 else 10 * Decimal(ds[..|ds| - 1]) + (ds[|ds| - 1] - ZERO)
  }

  predicate Zeros(ds: Bytes)
  {
    forall i | 0 <= i < |ds| :: ds[i] == ZERO
  }

  /** The length of a list: a zero stands alone, and anything else may have "-1" behind it. */
  predicate Header(ds: Bytes, minus: bool)
  {
    AllDigits(ds) && (|ds| > 0 && ds[0] == ZERO ==> |ds| == 1 && !minus)
  }

  /** The first byte of a line of text. Only a whole message may begin with a "P". */
  predicate Sign(b: byte, top: bool)
  {
    b == PLUS || b == MINUS || b == COLON || (top && b == PING)
  }

  function SpellHead(ds: Bytes, minus: bool): Bytes
  {
    [STAR] + ds + (if minus then [MINUS, ONE] else []) + CRLF
  }

  function SpellLength(ds: Bytes, junk: Bytes): Bytes
  {
    [USD] + ds + [CR] + junk + [LF]
  }

  function Spell(f: Form): (s: Bytes)
    ensures |s| > 0
    decreases f, 1
  {
    match f
    case Line(sign, text) => [sign] + text + CRLF
    case Block(digits, junk, data) => SpellLength(digits, junk) + data + CRLF
    case Nil(zeros) => [USD] + zeros + [MINUS, ONE] + CRLF
    case List(digits, minus, items) => SpellHead(digits, minus) + SpellAll(items)
  }

  function SpellAll(fs: seq<Form>): Bytes
    decreases fs, 0
  {
    if |fs| == 0 then [] else SpellAll(fs[..|fs| - 1]) + Spell(fs[|fs| - 1])
  }

  predicate Proper(f: Form, top: bool)
    decreases f, 1
  {
    match f
    case Line(sign, text) => Sign(sign, top) && CR !in text
    case Block(digits, junk, data) => AllDigits(digits) && LF !in junk && |data| == Decimal(digits)
    case Nil(zeros) => Zeros(zeros)
    case List(digits, minus, items) => Header(digits, minus) && |items| == Decimal(digits) && ProperAll(items)
  }

  predicate ProperAll(fs: seq<Form>)
    decreases fs, 0
  {
    |fs| == 0 || (ProperAll(fs[..|fs| - 1]) && Proper(fs[|fs| - 1], false))
  }

  // ---- A form that is not all there ----

  /** The elements of a list that are there. */
  datatype Front = NoFront | Items(digits: Bytes, minus: bool, items: seq<Form>)

  datatype Within =
    | InText(sign: byte, text: Bytes) | TextCr(sign: byte, text: Bytes)
    | InLength(digits: Bytes) | LengthCr(digits: Bytes, junk: Bytes)
    | InData(digits: Bytes, junk: Bytes, data: Bytes) | DataCr(digits: Bytes, junk: Bytes, data: Bytes)
    | NilMinus(zeros: Bytes) | NilOne(zeros: Bytes) | NilCr(zeros: Bytes)
    | Nested(part: Part)

  datatype Part =
    | Begin
    | InHead(digits: Bytes) | HeadMinus(digits: Bytes) | HeadOne(digits: Bytes) | HeadCr(digits: Bytes, minus: bool)
    | Between(front: Front)
    | In(front: Front, line: Within)
    | Whole(f: Form)

  function SpellFront(f: Front): Bytes
  {
    if f.NoFront? then [] else SpellHead(f.digits, f.minus) + SpellAll(f.items)
  }

  function SpellLine(l: Within): Bytes
    decreases l, 0
  {
    match l
    case InText(sign, text) => [sign] + text
    case TextCr(sign, text) => [sign] + text + [CR]
    case InLength(digits) => [USD] + digits
    case LengthCr(digits, junk) => [USD] + digits + [CR] + junk
    case InData(digits, junk, data) => SpellLength(digits, junk) + data
    case DataCr(digits, junk, data) => SpellLength(digits, junk) + data + [CR]
    case NilMinus(zeros) => [USD] + zeros + [MINUS]
    case NilOne(zeros) => [USD] + zeros + [MINUS, ONE]
    case NilCr(zeros) => [USD] + zeros + [MINUS, ONE] + [CR]
    case Nested(part) => SpellPart(part)
  }

  function SpellPart(p: Part): Bytes
    decreases p, 1
  {
    match p
    case Begin => []
    case InHead(ds) => [STAR] + ds
    case HeadMinus(ds) => [STAR] + ds + [MINUS]
    case HeadOne(ds) => [STAR] + ds + [MINUS, ONE]
    case HeadCr(ds, minus) => [STAR] + ds + (if minus then [MINUS, ONE] else []) + [CR]
    case Between(front) => SpellFront(front)
    case In(front, line) => SpellFront(front) + SpellLine(line)
    case Whole(f) => Spell(f)
  }

  predicate ProperFront(f: Front)
  {
    f.Items? ==> Header(f.digits, f.minus) && ProperAll(f.items) && |f.items| < Decimal(f.digits)
  }

  predicate ProperLine(l: Within, top: bool)
    decreases l, 0
  {
    match l
    case InText(sign, text) => Sign(sign, top) && CR !in text
    case TextCr(sign, text) => Sign(sign, top) && CR !in text
    case InLength(digits) => AllDigits(digits)
    case LengthCr(digits, junk) => AllDigits(digits) && LF !in junk
    case InData(digits, junk, data) => AllDigits(digits) && LF !in junk && |data| <= Decimal(digits)
    case DataCr(digits, junk, data) => AllDigits(digits) && LF !in junk && |data| == Decimal(digits)
    case NilMinus(zeros) => Zeros(zeros)
    case NilOne(zeros) => Zeros(zeros)
    case NilCr(zeros) => Zeros(zeros)
    case Nested(part) => !top && Listing(part) && ProperPart(part)
  }

  /** The part has the first byte of a list. */
  predicate Listing(p: Part)
  {
    || p.InHead? || p.HeadMinus? || p.HeadOne? || p.HeadCr? || p.Between? || (p.In? && p.front.Items?)
  }

  predicate ProperPart(p: Part)
    decreases p, 1
  {
    match p
    case Begin => true
    case InHead(ds) => Header(ds, false)
    case HeadMinus(ds) => Header(ds, true)
    case HeadOne(ds) => Header(ds, true)
    case HeadCr(ds, minus) => Header(ds, minus)
    case Between(front) => front.Items? && ProperFront(front)
    case In(front, line) => ProperFront(front) && ProperLine(line, front.NoFront?)
    case Whole(f) => Proper(f, true)
  }

  // ---- One byte more ----

  /** An element is complete, and perhaps the list with it. */
  function Done(front: Front, f: Form): Part
    requires ProperFront(front)
  {
    match front
    case NoFront => Whole(f)
    case Items(ds, minus, items) =>
      if |items| + 1 == Decimal(ds) then Whole(List(ds, minus, items + [f])) else Between(Items(ds, minus, items + [f]))
  }

  datatype Line1 = Stop | More(line: Within) | Full(f: Form)

  function NextInLine(l: Within, b: byte): Line1
    requires !l.Nested? && ProperLine(l, true)
  {
    match l
    case InText(sign, text) => More(if b == CR then TextCr(sign, text) else InText(sign, text + [b]))
    case TextCr(sign, text) => if b == LF then Full(Line(sign, text)) else Stop
    case InLength(ds) =>
      if IsDigit(b) then More(InLength(ds + [b]))
      else if b == CR then More(LengthCr(ds, []))
      else if b == MINUS && Decimal(ds) == 0 then More(NilMinus(ds))
      else Stop
    case LengthCr(ds, junk) => More(if b == LF then InData(ds, junk, []) else LengthCr(ds, junk + [b]))
    case InData(ds, junk, data) =>
      if |data| < Decimal(ds) then More(InData(ds, junk, data + [b]))
      else if b == CR then More(DataCr(ds, junk, data)) else Stop
    case DataCr(ds, junk, data) => if b == LF then Full(Block(ds, junk, data)) else Stop
    case NilMinus(zs) => if b == ONE then More(NilOne(zs)) else Stop
    case NilOne(zs) => if b == CR then More(NilCr(zs)) else Stop
    case NilCr(zs) => if b == LF then Full(Nil(zs)) else Stop
  }

  /** The first byte of an element, or of a message that is no list. */
  function FirstInLine(b: byte, top: bool): Option<Within>
  {
    if Sign(b, top) then Some(InText(b, []))
    else if b == USD then Some(InLength([]))
    else if b == STAR && !top then Some(Nested(InHead([])))
    else None
  }

  function Next(p: Part, b: byte): Option<Part>
    requires ProperPart(p)
    decreases p
  {
    match p
    case Begin =>
      if b == STAR then Some(InHead([]))
      else if FirstInLine(b, true).Some? then Some(In(NoFront, FirstInLine(b, true).value)) else None
    case InHead(ds) =>
      if IsDigit(b) then if ds == [ZERO] then None else Some(InHead(ds + [b]))
      else if b == CR then Some(HeadCr(ds, false))
      else if b == MINUS && ds != [ZERO] then Some(HeadMinus(ds))
      else None
    case HeadMinus(ds) => if b == ONE then Some(HeadOne(ds)) else None
    case HeadOne(ds) => if b == CR then Some(HeadCr(ds, true)) else None
    case HeadCr(ds, minus) =>
      if b != LF then None
      else if Decimal(ds) == 0 then Some(Whole(List(ds, minus, []))) else Some(Between(Items(ds, minus, [])))
    case Between(front) =>
      if FirstInLine(b, false).Some? then Some(In(front, FirstInLine(b, false).value)) else None
    case In(front, line) =>
      if line.Nested? then
        InnerProper(line, front.NoFront?);
        var q := Next(line.part, b);
        if q.None? then None
        else if q.value.Whole? then Some(Done(front, q.value.f)) else Some(In(front, Nested(q.value)))
      else
        LineAtTop(line, front.NoFront?);
        LineOn(front, NextInLine(line, b))
    case Whole(_) => None
  }

  function LineOn(front: Front, l: Line1): Option<Part>
    requires ProperFront(front)
  {
    match l
    case Stop => None
    case More(line) => Some(In(front, line))
    case Full(f) => Some(Done(front, f))
  }

  lemma InnerProper(l: Within, top: bool)
    requires l.Nested? && ProperLine(l, top)
    ensures !top && Listing(l.part) && ProperPart(l.part)
  {
  }

  lemma LineAtTop(l: Within, top: bool)
    requires ProperLine(l, top) && !l.Nested?
    ensures ProperLine(l, true)
  {
  }

  // ---- It adds just that byte ----

  /** What one byte more makes of a line says the same bytes. */
  predicate Says(l: Within, b: byte, top: bool)
    requires !l.Nested? && ProperLine(l, true)
  {
    match NextInLine(l, b)
    case Stop => true
    case More(k) => !k.Nested? && ProperLine(k, top) && SpellLine(k) == SpellLine(l) + [b]
    case Full(f) => Proper(f, top) && !f.List? && Spell(f) == SpellLine(l) + [b]
  }

  lemma TextSpells(l: Within, b: byte, top: bool)
    requires (l.InText? || l.TextCr?) && ProperLine(l, top) && ProperLine(l, true)
    ensures Says(l, b, top)
  {
    assert l.InText? ==> [l.sign] + (l.text + [b]) == [l.sign] + l.text + [b];
    assert l.TextCr? && b == LF ==> [l.sign] + l.text + CRLF == [l.sign] + l.text + [CR] + [b];
  }

  lemma LengthSpells(l: Within, b: byte, top: bool)
    requires (l.InLength? || l.LengthCr?) && ProperLine(l, top) && ProperLine(l, true)
    ensures Says(l, b, top)
  {
    NoDigits(l.digits);
    hide Decimal;
    assert [USD] + (l.digits + [b]) == [USD] + l.digits + [b];
    if l.LengthCr? {
      var head := [USD] + l.digits + [CR];
      assert head + (l.junk + [b]) == head + l.junk + [b];
      assert SpellLength(l.digits, l.junk) + [] == head + l.junk + [LF];
    }
    assert [USD] + l.digits + [CR] + [] == [USD] + l.digits + [CR];
  }

  lemma DataSpells(l: Within, b: byte, top: bool)
    requires (l.InData? || l.DataCr?) && ProperLine(l, top) && ProperLine(l, true)
    ensures Says(l, b, top)
  {
    hide Decimal, AllDigits;
    var head := SpellLength(l.digits, l.junk);
    assert head + (l.data + [b]) == head + l.data + [b];
    assert l.DataCr? && b == LF ==> head + l.data + CRLF == head + l.data + [CR] + [b];
  }

  lemma NilSpells(l: Within, b: byte, top: bool)
    requires (l.NilMinus? || l.NilOne? || l.NilCr?) && ProperLine(l, top) && ProperLine(l, true)
    ensures Says(l, b, top)
  {
    hide Zeros;
    var head := [USD] + l.zeros;
    assert head + [MINUS, ONE] == head + [MINUS] + [ONE];
    assert head + [MINUS, ONE] + CRLF == head + [MINUS, ONE] + [CR] + [LF];
  }

  lemma NextLineSpells(l: Within, b: byte, top: bool)
    requires !l.Nested? && ProperLine(l, top) && ProperLine(l, true)
    ensures Says(l, b, top)
  {
    hide Says, ProperLine;
    match l {
      case InText(_, _) => TextSpells(l, b, top);
      case TextCr(_, _) => TextSpells(l, b, top);
      case InLength(_) => LengthSpells(l, b, top);
      case LengthCr(_, _) => LengthSpells(l, b, top);
      case InData(_, _, _) => DataSpells(l, b, top);
      case DataCr(_, _, _) => DataSpells(l, b, top);
      case NilMinus(_) => NilSpells(l, b, top);
      case NilOne(_) => NilSpells(l, b, top);
      case NilCr(_) => NilSpells(l, b, top);
    }
  }

  lemma {:induction false} NoDigits(ds: Bytes)
    requires AllDigits(ds)
    ensures Decimal(ds) == 0 <==> Zeros(ds)
  {
    if |ds| > 0 {
      NoDigits(ds[..|ds| - 1]);
      assert ds == ds[..|ds| - 1] + [ds[|ds| - 1]];
    }
  }

  lemma FirstLineSpells(b: byte, top: bool)
    requires FirstInLine(b, top).Some?
    ensures var l := FirstInLine(b, top).value; ProperLine(l, top) && SpellLine(l) == [b]
  {
  }

  lemma SpellAllNext(fs: seq<Form>, f: Form)
    ensures SpellAll(fs + [f]) == SpellAll(fs) + Spell(f)
    ensures ProperAll(fs + [f]) <==> ProperAll(fs) && Proper(f, false)
  {
    assert (fs + [f])[..|fs|] == fs;
  }

  lemma DoneSpells(front: Front, f: Form)
    requires ProperFront(front) && Proper(f, front.NoFront?)
    ensures var p := Done(front, f);
            && ProperPart(p) && SpellPart(p) == SpellFront(front) + Spell(f)
            && (p.Whole? <==> front.NoFront? || |front.items| + 1 == Decimal(front.digits))
            && (front.Items? ==> if p.Whole? then p.f.List? else Listing(p))
  {
    if front.Items? {
      SpellAllNext(front.items, f);
    }
  }

  lemma BeginSpells(b: byte)
    requires Next(Begin, b).Some?
    ensures var q := Next(Begin, b).value; ProperPart(q) && SpellPart(q) == [b] && !q.Begin? && !q.Whole?
  {
    if b != STAR {
      FirstLineSpells(b, true);
    }
  }

  lemma HeadSpells(p: Part, b: byte)
    requires ProperPart(p) && (p.InHead? || p.HeadMinus? || p.HeadOne?) && Next(p, b).Some?
    ensures var q := Next(p, b).value; ProperPart(q) && SpellPart(q) == SpellPart(p) + [b] && Listing(q)
  {
  }

  lemma HeadEndSpells(ds: Bytes, minus: bool, b: byte)
    requires Header(ds, minus) && Next(HeadCr(ds, minus), b).Some?
    ensures var q := Next(HeadCr(ds, minus), b).value;
            && ProperPart(q) && SpellPart(q) == SpellPart(HeadCr(ds, minus)) + [b]
            && if q.Whole? then q.f.List? else Listing(q)
  {
    var head := [STAR] + ds + (if minus then [MINUS, ONE] else []);
    assert SpellHead(ds, minus) + SpellAll([]) == head + [CR] + [LF];
    assert Spell(List(ds, minus, [])) == SpellHead(ds, minus) + SpellAll([]);
  }

  lemma InSpells(front: Front, line: Within, b: byte)
    requires ProperFront(front) && ProperLine(line, front.NoFront?) && !line.Nested? && Next(In(front, line), b).Some?
    ensures var q := Next(In(front, line), b).value;
            && ProperPart(q) && SpellPart(q) == SpellPart(In(front, line)) + [b] && !q.Begin?
            && (front.Items? ==> if q.Whole? then q.f.List? else Listing(q))
  {
    hide Spell, SpellAll, SpellLine, Proper, ProperAll, ProperLine, ProperFront, SpellFront, NextInLine, Done;
    LineAtTop(line, front.NoFront?);
    NextLineSpells(line, b, front.NoFront?);
    var l := NextInLine(line, b);
    if l.Full? {
      DoneSpells(front, l.f);
    }
  }

  lemma {:induction false} NextSpells(p: Part, b: byte)
    requires ProperPart(p) && Next(p, b).Some?
    ensures var q := Next(p, b).value;
            && ProperPart(q) && SpellPart(q) == SpellPart(p) + [b] && !q.Begin?
            && (Listing(p) ==> if q.Whole? then q.f.List? else Listing(q))
    decreases p
  {
    hide Spell, SpellAll, Proper, ProperAll, Decimal, SpellFront, ProperFront, Done;
    match p {
      case Begin => BeginSpells(b);
      case InHead(ds) => HeadSpells(p, b);
      case HeadMinus(ds) => HeadSpells(p, b);
      case HeadOne(ds) => HeadSpells(p, b);
      case HeadCr(ds, minus) => HeadEndSpells(ds, minus, b);
      case Between(front) => FirstLineSpells(b, false);
      case In(front, line) =>
        if line.Nested? {
          NextSpells(line.part, b);
          var q := Next(line.part, b).value;
          if q.Whole? {
            ListAnywhere(q.f);
            DoneSpells(front, q.f);
          }
        } else {
          InSpells(front, line, b);
        }
      case Whole(_) =>
    }
  }

  lemma ListAnywhere(f: Form)
    requires f.List? && Proper(f, true)
    ensures Proper(f, false)
  {
  }

  // ---- Skipped bytes ----

  /** A list may have one skipped byte among its elements for nothing. */
  function Relief(n: nat, credit: bool): nat
  {
    if credit && n > 0 then n - 1 else n
  }

  /** How many bytes are skipped in a form, less one for every inner list that has any left when
    * its elements are counted, if lists have credit. */
  function Debt(f: Form, credit: bool): nat
    decreases f, 1
  {
    match f
    case Line(_, _) => 0
    case Block(_, junk, _) => |junk|
    case Nil(_) => 0
    case List(_, _, items) => DebtAll(items, credit)
  }

  function DebtAll(fs: seq<Form>, credit: bool): nat
    decreases fs, 0
  {
    if |fs| == 0 then 0
    else
      var last := fs[|fs| - 1];
      DebtAll(fs[..|fs| - 1], credit) + if last.List? then Relief(Debt(last, credit), credit) else Debt(last, credit)
  }

  function DebtFront(front: Front, credit: bool): nat
  {
    if front.NoFront? then 0 else DebtAll(front.items, credit)
  }

  function DebtLine(l: Within, credit: bool): nat
    decreases l, 0
  {
    match l
    case LengthCr(_, junk) => |junk|
    case InData(_, junk, _) => |junk|
    case DataCr(_, junk, _) => |junk|
    case Nested(part) => Relief(DebtPart(part, credit), credit)
    case _ => 0
  }

  function DebtPart(p: Part, credit: bool): nat
    decreases p, 1
  {
    match p
    case Between(front) => DebtFront(front, credit)
    case In(front, line) => DebtFront(front, credit) + DebtLine(line, credit)
    case Whole(f) => Debt(f, credit)
    case _ => 0
  }

  /** The innermost line stands behind the carriage return of a length. */
  predicate AtLength(p: Part)
    decreases p
  {
    p.In? && (p.line.LengthCr? || (p.line.Nested? && AtLength(p.line.part)))
  }

  /** One of the inner lists has its credit left. */
  predicate HasCredit(p: Part)
    decreases p
  {
    p.In? && p.line.Nested? && (HasCredit(p.line.part) || DebtPart(p.line.part, true) == 0)
  }

  /** What the next byte adds to the debt. */
  function Charge(p: Part, b: byte, credit: bool): nat
  {
    if AtLength(p) && b != LF && !(credit && HasCredit(p)) then 1 else 0
  }

  lemma DebtAllNext(fs: seq<Form>, f: Form, credit: bool)
    ensures DebtAll(fs + [f], credit)
            == DebtAll(fs, credit) + if f.List? then Relief(Debt(f, credit), credit) else Debt(f, credit)
  {
    assert (fs + [f])[..|fs|] == fs;
  }

  lemma DoneDebt(front: Front, f: Form, credit: bool)
    requires ProperFront(front)
    ensures DebtPart(Done(front, f), credit)
            == DebtFront(front, credit)
               + if front.Items? && f.List? then Relief(Debt(f, credit), credit) else Debt(f, credit)
  {
    hide ProperFront;
    if front.Items? {
      DebtAllNext(front.items, f, credit);
    }
  }

  lemma LineDebt(front: Front, line: Within, b: byte, credit: bool)
    requires ProperPart(In(front, line)) && !line.Nested? && Next(In(front, line), b).Some?
    ensures DebtPart(Next(In(front, line), b).value, credit)
            == DebtPart(In(front, line), credit) + Charge(In(front, line), b, credit)
  {
    hide ProperFront, Decimal, Done, DebtFront;
    LineAtTop(line, front.NoFront?);
    var l := NextInLine(line, b);
    if l.Full? {
      DoneDebt(front, l.f, credit);
    }
  }

  lemma NestedNext(front: Front, q: Part, b: byte)
    requires ProperPart(In(front, Nested(q))) && ProperPart(q) && ProperFront(front)
    ensures var r := Next(q, b);
            Next(In(front, Nested(q)), b)
            == if r.None? then None
               else if r.value.Whole? then Some(Done(front, r.value.f)) else Some(In(front, Nested(r.value)))
  {
    hide ProperFront, Done;
  }

  /** What an inner list is charged reaches the outer one, unless the inner one has credit for it. */
  lemma ChargePasses(front: Front, q: Part, r: Part, b: byte, credit: bool)
    requires DebtPart(r, credit) == DebtPart(q, credit) + Charge(q, b, credit)
    ensures Relief(DebtPart(r, credit), credit)
            == Relief(DebtPart(q, credit), credit) + Charge(In(front, Nested(q)), b, credit)
  {
  }

  lemma NestedDebt(front: Front, q: Part, b: byte, credit: bool)
    requires ProperPart(In(front, Nested(q))) && Next(In(front, Nested(q)), b).Some? && ProperPart(q)
    requires Next(q, b).Some? ==> DebtPart(Next(q, b).value, credit) == DebtPart(q, credit) + Charge(q, b, credit)
    ensures DebtPart(Next(In(front, Nested(q)), b).value, credit)
            == DebtPart(In(front, Nested(q)), credit) + Charge(In(front, Nested(q)), b, credit)
  {
    assert ProperFront(front) && front.Items?;
    InnerProper(Nested(q), front.NoFront?);
    hide Next, ProperPart, ProperFront, Done, Charge, Relief, Spell, SpellAll, SpellPart, DebtFront;
    NestedNext(front, q, b);
    NextSpells(q, b);
    var r := Next(q, b).value;
    ChargePasses(front, q, r, b, credit);
    if r.Whole? {
      DoneDebt(front, r.f, credit);
    }
  }

  lemma OpenDebt(p: Part, b: byte, credit: bool)
    requires ProperPart(p) && !p.In? && Next(p, b).Some?
    ensures DebtPart(Next(p, b).value, credit) == DebtPart(p, credit) && Charge(p, b, credit) == 0
  {
    hide Spell, SpellAll, Proper, ProperAll, Decimal, ProperFront, Done;
    assert DebtAll([], credit) == 0;
  }

  lemma {:induction false} NextDebt(p: Part, b: byte, credit: bool)
    requires ProperPart(p) && Next(p, b).Some?
    ensures DebtPart(Next(p, b).value, credit) == DebtPart(p, credit) + Charge(p, b, credit)
    decreases p
  {
    hide DebtPart, Charge;
    if p.In? {
      if p.line.Nested? {
        InnerProper(p.line, p.front.NoFront?);
        if Next(p.line.part, b).Some? {
          NextDebt(p.line.part, b, credit);
        }
        NestedDebt(p.front, p.line.part, b, credit);
      } else {
        LineDebt(p.front, p.line, b, credit);
      }
    } else {
      OpenDebt(p, b, credit);
    }
  }

  /** Which skipped bytes are let pass: none, those that the lists have credit for, or all. */
  datatype Skipping = Never | OncePerList | Always

  predicate Allowed(skip: Skipping, p: Part)
  {
    match skip
    case Never => DebtPart(p, false) == 0
    case OncePerList => DebtPart(p, true) == 0
    case Always => true
  }

  /** A message that is let pass. */
  predicate Sound(f: Form, skip: Skipping)
  {
    Proper(f, true) && Allowed(skip, Whole(f))
  }

  lemma AllowedBefore(skip: Skipping, p: Part, b: byte)
    requires ProperPart(p) && Next(p, b).Some? && Allowed(skip, Next(p, b).value)
    ensures Allowed(skip, p)
  {
    hide Next, ProperPart, DebtPart, Charge;
    NextDebt(p, b, skip.OncePerList?);
  }

  // ---- Byte after byte ----

  /** Where the bytes lead: to a byte that does not fit, to a part, or past what may be skipped. */
  datatype Course = Wrong | At(part: Part) | Over(part: Part)

  /** The part after the bytes `s`, or what is complete before they end. */
  function Reads(p: Part, s: Bytes, skip: Skipping): (r: Course)
    requires ProperPart(p)
    ensures !r.Wrong? ==> ProperPart(r.part)
    ensures r.Over? ==> !Allowed(skip, r.part)
    decreases |s|
  {
    if p.Whole? || |s| == 0 then At(p)
    else if Next(p, s[0]).None? then Wrong
    else
      NextSpells(p, s[0]);
      var q := Next(p, s[0]).value;
      if Allowed(skip, q) then Reads(q, s[1..], skip) else Over(q)
  }

  lemma {:induction false} ReadsOn(p: Part, s: Bytes, t: Bytes, skip: Skipping)
    requires ProperPart(p)
    ensures var r := Reads(p, s, skip); Reads(p, s + t, skip) == if r.At? then Reads(r.part, t, skip) else r
    decreases |s|
  {
    hide Next, ProperPart, Allowed;
    if |s| == 0 {
      assert s + t == t;
    } else if !p.Whole? {
      assert (s + t)[0] == s[0] && (s + t)[1..] == s[1..] + t;
      if Next(p, s[0]).Some? {
        NextSpells(p, s[0]);
        ReadsOn(Next(p, s[0]).value, s[1..], t, skip);
      }
    }
  }

  /** What is read is spelled so. */
  lemma {:induction false} ReadsSpells(p: Part, s: Bytes, skip: Skipping)
    requires ProperPart(p) && Allowed(skip, p) && !Reads(p, s, skip).Wrong?
    ensures var r := Reads(p, s, skip);
            && SpellPart(p) <= SpellPart(r.part) <= SpellPart(p) + s
            && (r.At? ==> Allowed(skip, r.part) && (r.part.Whole? || SpellPart(r.part) == SpellPart(p) + s))
    decreases |s|
  {
    hide Next, ProperPart, SpellPart, Allowed;
    if |s| == 0 || p.Whole? {
      assert SpellPart(p) + [] == SpellPart(p);
    } else {
      NextSpells(p, s[0]);
      assert SpellPart(p) + [s[0]] + s[1..] == SpellPart(p) + s;
      if Allowed(skip, Next(p, s[0]).value) {
        ReadsSpells(Next(p, s[0]).value, s[1..], skip);
      }
    }
  }

  // ---- What is spelled so is read ----

  /** `q` and one byte more is `p`. */
  ghost predicate Comes(q: Part, b: byte, p: Part)
  {
    ProperPart(q) && !q.Whole? && Next(q, b) == Some(p)
  }

  lemma DecimalNext(ds: Bytes, d: byte)
    requires AllDigits(ds) && IsDigit(d)
    ensures AllDigits(ds + [d]) && Decimal(ds + [d]) == 10 * Decimal(ds) + (d - ZERO)
  {
    assert (ds + [d])[..|ds|] == ds;
  }

  lemma HeadCame(p: Part) returns (q: Part, b: byte)
    requires ProperPart(p) && (p.InHead? || p.HeadMinus? || p.HeadOne? || p.HeadCr?)
    ensures Comes(q, b, p)
    ensures !(p.InHead? && p.digits == []) ==> Listing(q)
  {
    match p {
      case InHead(ds) =>
        if ds == [] {
          q, b := Begin, STAR;
        } else {
          q, b := InHead(ds[..|ds| - 1]), ds[|ds| - 1];
          assert ds == ds[..|ds| - 1] + [b];
        }
      case HeadMinus(ds) => q, b := InHead(ds), MINUS;
      case HeadOne(ds) => q, b := HeadMinus(ds), ONE;
      case HeadCr(ds, minus) => q, b := if minus then HeadOne(ds) else InHead(ds), CR;
    }
  }

  /** A line of which more than its first byte is there. */
  lemma LineCame(l: Within, top: bool) returns (k: Within, b: byte)
    requires ProperLine(l, top) && !l.Nested? && !(l.InText? && l.text == []) && !(l.InLength? && l.digits == [])
    ensures !k.Nested? && ProperLine(k, top) && ProperLine(k, true) && NextInLine(k, b) == More(l)
  {
    match l {
      case InText(sign, text) =>
        k, b := InText(sign, text[..|text| - 1]), text[|text| - 1];
        assert text == text[..|text| - 1] + [b];
      case TextCr(sign, text) => k, b := InText(sign, text), CR;
      case InLength(ds) =>
        k, b := InLength(ds[..|ds| - 1]), ds[|ds| - 1];
        assert ds == ds[..|ds| - 1] + [b];
      case LengthCr(ds, junk) =>
        if junk == [] {
          k, b := InLength(ds), CR;
        } else {
          k, b := LengthCr(ds, junk[..|junk| - 1]), junk[|junk| - 1];
          assert junk == junk[..|junk| - 1] + [b];
        }
      case InData(ds, junk, data) =>
        if data == [] {
          k, b := LengthCr(ds, junk), LF;
        } else {
          k, b := InData(ds, junk, data[..|data| - 1]), data[|data| - 1];
          assert data == data[..|data| - 1] + [b];
        }
      case DataCr(ds, junk, data) => k, b := InData(ds, junk, data), CR;
      case NilMinus(zs) =>
        NoDigits(zs);
        k, b := InLength(zs), MINUS;
      case NilOne(zs) => k, b := NilMinus(zs), ONE;
      case NilCr(zs) => k, b := NilOne(zs), CR;
    }
  }

  /** The line before its last byte. */
  lemma FormCame(f: Form, top: bool) returns (k: Within)
    requires Proper(f, top) && !f.List?
    ensures !k.Nested? && ProperLine(k, top) && ProperLine(k, true) && NextInLine(k, LF) == Full(f)
  {
    match f {
      case Line(sign, text) => k := TextCr(sign, text);
      case Block(ds, junk, data) => k := DataCr(ds, junk, data);
      case Nil(zs) => k := NilCr(zs);
    }
  }

  /** The first byte of a line. */
  lemma FirstCame(front: Front, l: Within) returns (q: Part, b: byte)
    requires ProperFront(front) && ProperLine(l, front.NoFront?)
    requires (l.InText? && l.text == []) || (l.InLength? && l.digits == []) || (l.Nested? && l.part == InHead([]))
    ensures Comes(q, b, In(front, l)) && (front.Items? ==> Listing(q))
  {
    b := if l.InText? then l.sign else if l.InLength? then USD else STAR;
    q := if front.NoFront? then Begin else Between(front);
  }

  /** A line with more than its first byte, none of an inner list. */
  lemma OwnCame(front: Front, l: Within) returns (q: Part, b: byte)
    requires ProperFront(front) && ProperLine(l, front.NoFront?) && !l.Nested?
    requires !(l.InText? && l.text == []) && !(l.InLength? && l.digits == [])
    ensures Comes(q, b, In(front, l)) && (front.Items? ==> Listing(q))
  {
    hide NextInLine, ProperFront, ProperLine, Done;
    var k;
    k, b := LineCame(l, front.NoFront?);
    q := In(front, k);
  }

  lemma SpellLonger(front: Front, f: Form)
    requires ProperFront(front) && Proper(f, front.NoFront?) && front.Items?
    ensures |Spell(f)| < |SpellPart(Done(front, f))|
  {
    DoneSpells(front, f);
  }

  /** The last byte of an element. */
  lemma {:induction false} DoneCame(front: Front, f: Form) returns (q: Part, b: byte)
    requires ProperFront(front) && Proper(f, front.NoFront?) && (f.List? ==> front.Items?)
    ensures Comes(q, b, Done(front, f)) && (front.Items? ==> Listing(q))
    decreases |Spell(f)|, 1
  {
    hide NextInLine, ProperFront, Done, Proper, Spell;
    if f.List? {
      var r;
      r, b := ListCame(f);
      q := In(front, Nested(r));
      InnerCame(front, r, b, f);
    } else {
      var k := FormCame(f, front.NoFront?);
      b, q := LF, In(front, k);
    }
  }

  lemma InnerCame(front: Front, r: Part, b: byte, f: Form)
    requires ProperFront(front) && front.Items? && Comes(r, b, Whole(f)) && Listing(r)
    ensures Comes(In(front, Nested(r)), b, Done(front, f))
  {
    hide ProperFront, Done;
    assert ProperLine(Nested(r), false) && ProperPart(In(front, Nested(r)));
  }

  lemma {:induction false} ListCame(f: Form) returns (q: Part, b: byte)
    requires f.List? && Proper(f, false)
    ensures Comes(q, b, Whole(f)) && Listing(q)
    decreases |Spell(f)|, 0
  {
    var ds, minus, items := f.digits, f.minus, f.items;
    if items == [] {
      q, b := HeadCr(ds, minus), LF;
    } else {
      var init, last := items[..|items| - 1], items[|items| - 1];
      assert items == init + [last];
      SpellLonger(Items(ds, minus, init), last);
      q, b := DoneCame(Items(ds, minus, init), last);
    }
  }

  lemma {:induction false} Came(p: Part) returns (q: Part, b: byte)
    requires ProperPart(p) && !p.Begin?
    ensures Comes(q, b, p) && (Listing(p) && p != InHead([]) ==> Listing(q))
    decreases p
  {
    hide NextInLine, Done, Proper, Spell, Comes, Next, Header;
    match p {
      case InHead(_) => q, b := HeadCame(p);
      case HeadMinus(_) => q, b := HeadCame(p);
      case HeadOne(_) => q, b := HeadCame(p);
      case HeadCr(_, _) => q, b := HeadCame(p);
      case Between(front) => q, b := BetweenCame(front);
      case In(front, line) =>
        if line.Nested? && line.part != InHead([]) {
          InnerProper(line, front.NoFront?);
          var r;
          r, b := Came(line.part);
          q := In(front, Nested(r));
          NestedCame(front, r, b, line.part);
        } else if line.Nested? || (line.InText? && line.text == []) || (line.InLength? && line.digits == []) {
          q, b := FirstCame(front, line);
        } else {
          q, b := OwnCame(front, line);
        }
      case Whole(f) => q, b := WholeCame(f);
    }
  }

  lemma NestedCame(front: Front, r: Part, b: byte, p: Part)
    requires ProperFront(front) && front.Items? && Comes(r, b, p) && Listing(r) && !p.Whole?
    ensures Comes(In(front, Nested(r)), b, In(front, Nested(p)))
  {
    hide ProperFront, Done;
    assert ProperLine(Nested(r), false) && ProperPart(In(front, Nested(r)));
  }

  lemma BetweenCame(front: Front) returns (q: Part, b: byte)
    requires ProperPart(Between(front))
    ensures Comes(q, b, Between(front)) && Listing(q)
  {
    var ds, minus, items := front.digits, front.minus, front.items;
    if items == [] {
      q, b := HeadCr(ds, minus), LF;
    } else {
      var init, last := items[..|items| - 1], items[|items| - 1];
      assert items == init + [last];
      q, b := DoneCame(Items(ds, minus, init), last);
    }
  }

  lemma WholeCame(f: Form) returns (q: Part, b: byte)
    requires Proper(f, true)
    ensures Comes(q, b, Whole(f))
  {
    if f.List? {
      q, b := ListCame(f);
    } else {
      q, b := DoneCame(NoFront, f);
    }
  }

  /** Reading what a part is spelled as gives the part, or stops where too much is skipped. */
  lemma {:induction false} ReadsBack(p: Part, skip: Skipping)
    requires ProperPart(p)
    ensures Allowed(skip, p) ==> Reads(Begin, SpellPart(p), skip) == At(p)
    ensures !Allowed(skip, p) ==> Reads(Begin, SpellPart(p), skip).Over?
    decreases |SpellPart(p)|
  {
    hide Next, ProperPart, SpellPart, Allowed;
    NothingSpelled(skip);
    if !p.Begin? {
      var q, b := Came(p);
      NextSpells(q, b);
      ReadsBack(q, skip);
      ReadsOn(Begin, SpellPart(q), [b], skip);
      if Allowed(skip, q) {
        ReadsOne(q, b, p, skip);
      } else if Allowed(skip, p) {
        AllowedBefore(skip, q, b);
      }
    }
  }

  lemma NothingSpelled(skip: Skipping)
    ensures ProperPart(Begin) && SpellPart(Begin) == [] && Allowed(skip, Begin)
    ensures Reads(Begin, [], skip) == At(Begin)
  {
  }

  lemma ReadsOne(q: Part, b: byte, p: Part, skip: Skipping)
    requires Comes(q, b, p)
    ensures Reads(q, [b], skip) == if Allowed(skip, p) then At(p) else Over(p)
  {
    hide Next, ProperPart, Allowed;
    NextSpells(q, b);
    assert [b][1..] == [];
  }

  /** No two forms are spelled alike. */
  lemma Unambiguous(f: Form, g: Form)
    requires Proper(f, true) && Proper(g, true) && Spell(f) == Spell(g)
    ensures f == g
  {
    ReadsBack(Whole(f), Always);
    ReadsBack(Whole(g), Always);
  }

  // ---- Every part can be completed ----

  function Fill(n: nat): (fs: seq<Form>)
    ensures |fs| == n
  {
    if n == 0 then [] else Fill(n - 1) + [Line(PLUS, [])]
  }

  lemma {:induction false} FillProper(n: nat)
    ensures ProperAll(Fill(n)) && forall c :: DebtAll(Fill(n), c) == 0
  {
    if n > 0 {
      FillProper(n - 1);
      SpellAllNext(Fill(n - 1), Line(PLUS, []));
    }
  }

  lemma {:induction false} SpellAllAppend(a: seq<Form>, b: seq<Form>)
    ensures SpellAll(a + b) == SpellAll(a) + SpellAll(b)
    ensures ProperAll(a + b) <==> ProperAll(a) && ProperAll(b)
    ensures forall c :: DebtAll(a + b, c) == DebtAll(a, c) + DebtAll(b, c)
    decreases |b|
  {
    hide Spell, Proper, Debt, Relief;
    if |b| == 0 {
      assert a + b == a;
    } else {
      var init, last := b[..|b| - 1], b[|b| - 1];
      assert a + b == (a + init) + [last];
      SpellAllNext(a + init, last);
      SpellAllAppend(a, init);
      forall c ensures DebtAll(a + b, c) == DebtAll(a, c) + DebtAll(b, c) {
        DebtAllNext(a + init, last, c);
      }
    }
  }

  /** With more elements behind it, a list that is partly there is complete. */
  lemma ListCompletes(ds: Bytes, minus: bool, items: seq<Form>, more: seq<Form>)
    requires Header(ds, minus) && ProperAll(items) && ProperAll(more) && |items| + |more| == Decimal(ds)
    ensures var f := List(ds, minus, items + more);
            && Proper(f, false) && Proper(f, true) && Spell(f) == SpellFront(Items(ds, minus, items)) + SpellAll(more)
            && forall c :: Debt(f, c) == DebtAll(items, c) + DebtAll(more, c)
  {
    hide ProperAll, SpellAll, SpellHead;
    SpellAllAppend(items, more);
  }

  lemma LineCompletes(l: Within, top: bool) returns (f: Form)
    requires ProperLine(l, top) && !l.Nested?
    ensures Proper(f, top) && SpellLine(l) <= Spell(f) && !f.List? && forall c :: Debt(f, c) == DebtLine(l, c)
  {
    match l {
      case InText(sign, text) => f := Line(sign, text);
      case TextCr(sign, text) => f := Line(sign, text);
      case InLength(ds) => f := Block(ds, [], seq(Decimal(ds), _ => ZERO));
      case LengthCr(ds, junk) => f := Block(ds, junk, seq(Decimal(ds), _ => ZERO));
      case InData(ds, junk, data) => f := Block(ds, junk, data + seq(Decimal(ds) - |data|, _ => ZERO));
      case DataCr(ds, junk, data) => f := Block(ds, junk, data);
      case NilMinus(zs) => f := Nil(zs);
      case NilOne(zs) => f := Nil(zs);
      case NilCr(zs) => f := Nil(zs);
    }
  }

  lemma HeadCompletes(p: Part) returns (f: Form)
    requires ProperPart(p) && (p.InHead? || p.HeadMinus? || p.HeadOne? || p.HeadCr?)
    ensures Proper(f, false) && Proper(f, true) && SpellPart(p) <= Spell(f)
    ensures f.List? && forall c :: Debt(f, c) == DebtPart(p, c) == 0
  {
    var minus := if p.HeadCr? then p.minus else !p.InHead?;
    HeadBegins(p, minus);
    assert ProperAll([]) && SpellAll([]) == [];
    hide Spell, SpellHead, ProperAll, SpellAll, SpellPart, Proper;
    FillProper(Decimal(p.digits));
    ListCompletes(p.digits, minus, [], Fill(Decimal(p.digits)));
    f := List(p.digits, minus, [] + Fill(Decimal(p.digits)));
  }

  lemma HeadBegins(p: Part, minus: bool)
    requires ProperPart(p) && (p.InHead? || p.HeadMinus? || p.HeadOne? || p.HeadCr?)
    requires minus == if p.HeadCr? then p.minus else !p.InHead?
    ensures Header(p.digits, minus) && SpellPart(p) <= SpellHead(p.digits, minus)
  {
  }

  lemma SpellOne(g: Form)
    ensures SpellAll([g]) == Spell(g) && (ProperAll([g]) <==> Proper(g, false))
    ensures forall c :: DebtAll([g], c) == if g.List? then Relief(Debt(g, c), c) else Debt(g, c)
  {
    SpellAllNext([], g);
    assert [] + [g] == [g];
  }

  lemma Longer(a: Bytes, s: Bytes, t: Bytes, u: Bytes)
    requires s <= t
    ensures a + s <= a + (t + u)
  {
  }

  /** An element begun is an element, and the rest of the list follows. */
  lemma FrontCompletes(front: Front, s: Bytes, g: Form) returns (f: Form)
    requires ProperFront(front) && Proper(g, front.NoFront?) && s <= Spell(g)
    ensures Proper(f, true) && (front.Items? ==> Proper(f, false) && f.List?) && SpellFront(front) + s <= Spell(f)
    ensures forall c :: Debt(f, c) == DebtFront(front, c)
                        + if front.Items? && g.List? then Relief(Debt(g, c), c) else Debt(g, c)
  {
    if front.NoFront? {
      f := g;
    } else {
      var n := Decimal(front.digits) - |front.items| - 1;
      hide Proper, Spell, ProperAll, SpellAll, SpellFront, Header, Fill, Debt, DebtAll, Relief;
      FillProper(n);
      SpellOne(g);
      SpellAllAppend([g], Fill(n));
      ListCompletes(front.digits, front.minus, front.items, [g] + Fill(n));
      f := List(front.digits, front.minus, front.items + ([g] + Fill(n)));
      Longer(SpellFront(front), s, Spell(g), SpellAll(Fill(n)));
    }
  }

  lemma {:induction false} Completes(p: Part) returns (f: Form)
    requires ProperPart(p)
    ensures Proper(f, true) && (Listing(p) ==> Proper(f, false) && f.List?) && SpellPart(p) <= Spell(f)
    ensures forall c :: Debt(f, c) == DebtPart(p, c)
    decreases p
  {
    hide Spell, SpellFront, ProperFront, Header, Proper, Debt, DebtFront, Relief;
    match p {
      case Begin => f := SomeForm();
      case InHead(_) => f := HeadCompletes(p);
      case HeadMinus(_) => f := HeadCompletes(p);
      case HeadOne(_) => f := HeadCompletes(p);
      case HeadCr(_, _) => f := HeadCompletes(p);
      case Between(front) =>
        var g := SomeForm();
        f := FrontCompletes(front, [], g);
      case In(front, line) =>
        var g;
        if line.Nested? {
          InnerProper(line, front.NoFront?);
          g := Completes(line.part);
        } else {
          g := LineCompletes(line, front.NoFront?);
        }
        f := FrontCompletes(front, SpellLine(line), g);
      case Whole(g) => f := g;
    }
  }

  lemma SomeForm() returns (f: Form)
    ensures Proper(f, true) && Proper(f, false) && [] <= Spell(f) && !f.List? && forall c :: Debt(f, c) == 0
  {
    f := Line(PLUS, []);
  }

  // ---- Where the bytes stop being a part of a form ----

  ghost predicate IsForm(s: Bytes, skip: Skipping)
  {
    exists f :: Sound(f, skip) && Spell(f) == s
  }

  /** The bytes begin with a form, or are part of one. */
  ghost predicate PartOfForm(s: Bytes, skip: Skipping)
  {
    exists f :: Sound(f, skip) && (Spell(f) <= s || s <= Spell(f))
  }

  /** The bytes begin with a part in which too much is skipped. */
  ghost predicate SkipsTooMany(s: Bytes, skip: Skipping)
  {
    exists p :: ProperPart(p) && !Allowed(skip, p) && SpellPart(p) <= s
  }

  lemma ReadsForm(s: Bytes, f: Form, skip: Skipping)
    requires Sound(f, skip)
    ensures Spell(f) <= s ==> Reads(Begin, s, skip) == At(Whole(f))
    ensures s < Spell(f) ==> Reads(Begin, s, skip).At? && !Reads(Begin, s, skip).part.Whole?
  {
    hide Next, Proper, Spell, Allowed;
    ReadsBack(Whole(f), skip);
    if Spell(f) <= s {
      ReadsOn(Begin, Spell(f), s[|Spell(f)|..], skip);
      assert s == Spell(f) + s[|Spell(f)|..];
    } else if s < Spell(f) {
      var t := Spell(f)[|s|..];
      assert Spell(f) == s + t;
      ReadsOn(Begin, s, t, skip);
      var r := Reads(Begin, s, skip);
      if r.At? && r.part.Whole? {
        NothingSpelled(skip);
        ReadsSpells(Begin, s, skip);
      }
    }
  }

  /** A part with too much skipped is where reading stops. */
  lemma ReadsOver(s: Bytes, p: Part, skip: Skipping)
    requires ProperPart(p) && !Allowed(skip, p) && SpellPart(p) <= s
    ensures Reads(Begin, s, skip).Over?
  {
    hide ProperPart, SpellPart, Allowed;
    NothingSpelled(skip);
    ReadsBack(p, skip);
    ReadsOn(Begin, SpellPart(p), s[|SpellPart(p)|..], skip);
    assert s == SpellPart(p) + s[|SpellPart(p)|..];
  }

  /** A form is read to its end, part of one to the end of the bytes, and nothing else is read. */
  lemma ReadsExactly(s: Bytes, skip: Skipping)
    ensures Reads(Begin, s, skip).At? <==> PartOfForm(s, skip)
    ensures Reads(Begin, s, skip).Over? <==> SkipsTooMany(s, skip)
    ensures forall f :: Reads(Begin, s, skip) == At(Whole(f))
                        <==> Sound(f, skip) && Spell(f) <= s
  {
    hide Next, Proper, Spell, Allowed, ProperPart, SpellPart;
    NothingSpelled(skip);
    var r := Reads(Begin, s, skip);
    if !r.Wrong? {
      ReadIsPart(s, skip);
    }
    forall f | Sound(f, skip) ensures (Spell(f) <= s || s < Spell(f)) ==> r.At? {
      ReadsForm(s, f, skip);
    }
    forall p | ProperPart(p) && !Allowed(skip, p) && SpellPart(p) <= s ensures r.Over? {
      ReadsOver(s, p, skip);
    }
    forall f ensures r == At(Whole(f)) <==> Sound(f, skip) && Spell(f) <= s {
      WholeIs(f);
      if Sound(f, skip) {
        ReadsForm(s, f, skip);
      }
    }
  }

  lemma WholeIs(f: Form)
    ensures SpellPart(Whole(f)) == Spell(f) && (ProperPart(Whole(f)) ==> Proper(f, true))
  {
  }

  lemma ReadIsPart(s: Bytes, skip: Skipping)
    requires !Reads(Begin, s, skip).Wrong?
    ensures var r := Reads(Begin, s, skip);
            && ProperPart(r.part) && SpellPart(r.part) <= s
            && (r.At? ==> Allowed(skip, r.part) && PartOfForm(s, skip))
  {
    hide Next, Proper, Spell, Allowed, ProperPart, SpellPart;
    NothingSpelled(skip);
    ReadsSpells(Begin, s, skip);
    assert [] + s == s;
    var r := Reads(Begin, s, skip);
    if r.At? {
      if r.part.Whole? {
        WholeIs(r.part.f);
      } else {
        var f := Completes(r.part);
        CompleteAllowed(skip, r.part, f);
      }
    }
  }

  lemma CompleteAllowed(skip: Skipping, p: Part, f: Form)
    requires Allowed(skip, p) && forall credit :: Debt(f, credit) == DebtPart(p, credit)
    ensures Allowed(skip, Whole(f))
  {
  }
}
