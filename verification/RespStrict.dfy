/** The forms that are values of the protocol, and those that are not but pass all the same. */
module RespStrict {
  import opened Seqs
  import opened RespParser
  import opened Resp
  import opened RespForms
  import opened RespExact
  import opened RedisMsg

  /** A number as the protocol writes it: no needless zeros, and no minus before zero. */
  predicate Plain(t: Bytes)
  {
    |t| > 0 && AllDigits(t) && (t[0] == ZERO ==> |t| == 1)
  }

  predicate Numeral(t: Bytes)
  {
    Plain(t) || (|t| > 1 && t[0] == MINUS && Plain(t[1..]) && t[1..] != [ZERO])
  }

  /** The form is written as the protocol has it. */
  predicate Strict(f: Form)
    decreases f, 1
  {
    match f
    case Line(sign, text) => sign != PING && (sign == COLON ==> Numeral(text))
    case Block(digits, junk, _) => Plain(digits) && junk == []
    case Nil(zeros) => zeros == []
    case List(digits, minus, items) => (if minus then digits == [] else Plain(digits)) && StrictAll(items)
  }

  predicate StrictAll(fs: seq<Form>)
    decreases fs, 0
  {
    |fs| == 0 || (StrictAll(fs[..|fs| - 1]) && Strict(fs[|fs| - 1]))
  }

  // ---- Numbers ----

  lemma {:induction false} DecPlain(n: nat)
    ensures Plain(Dec(n)) && Decimal(Dec(n)) == n && (n > 0 ==> Dec(n)[0] != ZERO)
  {
    if n < 10 {
      assert Dec(n)[..0] == [];
    } else {
      DecPlain(n / 10);
      assert Dec(n)[0] == Dec(n / 10)[0];
      DecimalNext(Dec(n / 10), ZERO + n % 10);
    }
  }

  lemma {:induction false} PlainDec(t: Bytes)
    requires Plain(t)
    ensures Dec(Decimal(t)) == t
  {
    var init, last := t[..|t| - 1], t[|t| - 1];
    assert t == init + [last];
    DecimalNext(init, last);
    if |t| == 1 {
      assert init == [];
    } else {
      assert init[0] == t[0];
      PlainDec(init);
      PlainPositive(init);
    }
  }

  lemma PlainPositive(t: Bytes)
    requires Plain(t) && t != [ZERO]
    ensures Decimal(t) > 0
  {
    HeadPositive(t);
  }

  lemma NumeralIs(t: Bytes)
    ensures Numeral(t) <==> exists n :: t == DecInt(n)
  {
    if Plain(t) {
      PlainDec(t);
      assert t == DecInt(Decimal(t));
    } else if Numeral(t) {
      PlainDec(t[1..]);
      PlainPositive(t[1..]);
      assert t == [MINUS] + t[1..];
      var n: int := Decimal(t[1..]);
      assert t == DecInt(-n);
    }
    if n :| t == DecInt(n) {
      DecPlain(if n < 0 then -n else n);
      if n < 0 {
        assert t[1..] == Dec(-n);
      }
    }
  }

  // ---- Values as forms ----

  function AsForm(v: Value): Form
    decreases v, 1
  {
    match v
    case Simple(text) => Line(PLUS, text)
    case Error(text) => Line(MINUS, text)
    case Integer(n) => Line(COLON, DecInt(n))
    case Bulk(data) => Block(Dec(|data|), [], data)
    case NullBulk => Nil([])
    case Array(elems) => List(Dec(|elems|), false, AsForms(elems))
    case NullArray => List([], true, [])
  }

  function AsForms(vs: seq<Value>): (fs: seq<Form>)
    ensures |fs| == |vs|
    decreases vs, 0
  {
    if |vs| == 0 then [] else AsForms(vs[..|vs| - 1]) + [AsForm(vs[|vs| - 1])]
  }

  lemma {:induction false} EncAllLast(vs: seq<Value>, v: Value)
    ensures EncAll(vs + [v]) == EncAll(vs) + Enc(v) && (LegalAll(vs + [v]) <==> LegalAll(vs) && Legal(v))
    decreases |vs|
  {
    hide Enc, Legal;
    if |vs| == 0 {
      assert vs + [v] == [v] && [v][1..] == [];
    } else {
      assert (vs + [v])[0] == vs[0] && (vs + [v])[1..] == vs[1..] + [v];
      EncAllLast(vs[1..], v);
    }
  }

  /** A value is a form, spelled as it is encoded. */
  lemma {:induction false} ValueIsForm(v: Value)
    requires Legal(v)
    ensures Proper(AsForm(v), false) && Proper(AsForm(v), true) && Strict(AsForm(v)) && Spell(AsForm(v)) == Enc(v)
    decreases v, 1
  {
    match v {
      case Simple(text) => assert [PLUS] + text + CRLF == [PLUS] + (text + CRLF);
      case Error(text) => assert [MINUS] + text + CRLF == [MINUS] + (text + CRLF);
      case Integer(n) =>
        NumeralIs(DecInt(n));
        assert [COLON] + DecInt(n) + CRLF == [COLON] + (DecInt(n) + CRLF);
      case Bulk(data) => BulkIsForm(data);
      case NullBulk => assert [USD] + [] + [MINUS, ONE] + CRLF == [USD] + ([MINUS, ONE] + CRLF);
      case Array(elems) =>
        DecPlain(|elems|);
        ValuesAreForms(elems);
        assert [STAR] + Dec(|elems|) + [] + CRLF == ArrayHead(|elems|);
      case NullArray => assert SpellHead([], true) + [] == [STAR, MINUS, ONE] + CRLF;
    }
  }

  lemma BulkIsForm(data: Bytes)
    ensures var f := AsForm(Bulk(data)); Proper(f, false) && Proper(f, true) && Strict(f) && Spell(f) == Enc(Bulk(data))
  {
    DecPlain(|data|);
    hide Dec, Decimal;
    assert SpellLength(Dec(|data|), []) + data + CRLF == [USD] + BulkRest(data);
  }

  lemma {:induction false} ValuesAreForms(vs: seq<Value>)
    requires LegalAll(vs)
    ensures ProperAll(AsForms(vs)) && StrictAll(AsForms(vs)) && SpellAll(AsForms(vs)) == EncAll(vs)
    decreases vs, 0
  {
    hide Enc, Legal, Proper, Strict, Spell, AsForm;
    if |vs| > 0 {
      var init, last := vs[..|vs| - 1], vs[|vs| - 1];
      assert vs == init + [last];
      EncAllLast(init, last);
      ValuesAreForms(init);
      ValueIsForm(last);
      SpellAllNext(AsForms(init), AsForm(last));
      assert AsForms(vs)[..|vs| - 1] == AsForms(init);
    }
  }

  // ---- Forms as values ----

  lemma {:induction false} StrictIsValue(f: Form, top: bool) returns (v: Value)
    requires Proper(f, top) && Strict(f)
    ensures Legal(v) && AsForm(v) == f
    decreases f, 1
  {
    match f {
      case Line(sign, text) =>
        if sign == COLON {
          NumeralIs(text);
          var n :| text == DecInt(n);
          v := Integer(n);
        } else {
          v := if sign == PLUS then Simple(text) else Error(text);
        }
      case Block(digits, _, data) =>
        PlainDec(digits);
        v := Bulk(data);
      case Nil(_) => v := NullBulk;
      case List(digits, minus, items) =>
        if minus {
          assert items == [];
          v := NullArray;
        } else {
          PlainDec(digits);
          var vs := StrictAreValues(items);
          v := Array(vs);
        }
    }
  }

  lemma {:induction false} StrictAreValues(fs: seq<Form>) returns (vs: seq<Value>)
    requires ProperAll(fs) && StrictAll(fs)
    ensures LegalAll(vs) && AsForms(vs) == fs
    decreases fs, 0
  {
    hide Legal, Proper, Strict, AsForm;
    if |fs| == 0 {
      vs := [];
    } else {
      var init := StrictAreValues(fs[..|fs| - 1]);
      var last := StrictIsValue(fs[|fs| - 1], false);
      vs := init + [last];
      EncAllLast(init, last);
      assert vs[..|vs| - 1] == init;
    }
  }

  /** Of all the reader takes for a message, the values of the protocol are exactly the strict
    * forms. */
  lemma StrictExactly(f: Form)
    requires Proper(f, true)
    ensures Strict(f) <==> exists v :: Legal(v) && Enc(v) == Spell(f)
  {
    hide Legal, Proper, Strict, Spell, Enc, AsForm;
    if Strict(f) {
      var v := StrictIsValue(f, true);
      ValueIsForm(v);
    }
    if v :| Legal(v) && Enc(v) == Spell(f) {
      ValueIsForm(v);
      Unambiguous(f, AsForm(v));
    }
  }

  /** Any other form that skips no more than one byte for each inner list is read to its end in one
    * call, although no value is written so. */
  lemma LoosePasses(f: Form)
    requires Sound(f, OncePerList) && !Strict(f)
    ensures var o := Call(Spell(f), Fresh(0)); o.Through? && o.m.st.End? && o.m.len == |Spell(f)|
    ensures Allowed(Never, Whole(f)) ==>
              var r := Feed(Spell(f), Fresh(0)); r.Some? && r.value.st.End? && r.value.len == |Spell(f)|
    ensures forall v | Legal(v) :: Enc(v) != Spell(f)
  {
    hide Legal, Proper, Strict, Spell, Enc, Feed, Call, Allowed;
    assert Spell(f) == Spell(f)[..|Spell(f)|];
    CallEndsExactly(Spell(f), |Spell(f)|);
    if Allowed(Never, Whole(f)) {
      EndsAtForm(Spell(f), f);
    }
    StrictExactly(f);
  }

  // ---- Cases ----

  /** ":x" is taken for an integer. */
  lemma NotANumber()
    ensures var s := [COLON, 120, CR, LF];
            var r := Feed(s, Fresh(0));
            r.Some? && r.value.st.End? && r.value.len == 4 && forall v | Legal(v) :: Enc(v) != s
  {
    var f := Line(COLON, [120]);
    assert Spell(f) == [COLON, 120, CR, LF];
    LoosePasses(f);
  }

  /** A line that begins with a capital "P" is taken for a message. */
  lemma PingPasses()
    ensures var s := Ascii("PING\r\n");
            var r := Feed(s, Fresh(0));
            r.Some? && r.value.st.End? && r.value.len == 6 && forall v | Legal(v) :: Enc(v) != s
  {
    var f := Line(PING, Ascii("ING"));
    assert Spell(f) == Ascii("PING\r\n");
    LoosePasses(f);
  }

  /** A list without a length is taken for an empty one. */
  lemma NoLength()
    ensures var s := [STAR, CR, LF];
            var r := Feed(s, Fresh(0));
            r.Some? && r.value.st.End? && r.value.len == 3 && forall v | Legal(v) :: Enc(v) != s
  {
    var f := List([], false, []);
    assert Spell(f) == [STAR, CR, LF];
    LoosePasses(f);
  }

  const ONE_MINUS_ONE := List([ONE], true, [Line(PLUS, [])])

  lemma OneMinusOneSpelled()
    ensures Proper(ONE_MINUS_ONE, true) && !Strict(ONE_MINUS_ONE)
    ensures Spell(ONE_MINUS_ONE) == [STAR, ONE, MINUS, ONE, CR, LF, PLUS, CR, LF]
  {
    var item := Line(PLUS, []);
    DecimalNext([], ONE);
    SpellOne(item);
    assert [] + [ONE] == [ONE] && Decimal([ONE]) == 1;
    hide SpellAll, ProperAll, Decimal;
    assert Spell(item) == [PLUS, CR, LF] && Proper(item, false);
  }

  lemma OneMinusOneSkips()
    ensures Allowed(OncePerList, Whole(ONE_MINUS_ONE)) && Allowed(Never, Whole(ONE_MINUS_ONE))
  {
    var item := Line(PLUS, []);
    SpellOne(item);
    assert DebtAll([item], true) == 0 && DebtAll([item], false) == 0;
    assert Debt(ONE_MINUS_ONE, true) == 0 && Debt(ONE_MINUS_ONE, false) == 0;
  }

  /** "*1-1" is taken for the length of a list of one. */
  lemma OneMinusOne()
    ensures var s := [STAR, ONE, MINUS, ONE, CR, LF, PLUS, CR, LF];
            var r := Feed(s, Fresh(0));
            r.Some? && r.value.st.End? && r.value.len == 9 && forall v | Legal(v) :: Enc(v) != s
  {
    OneMinusOneSpelled();
    OneMinusOneSkips();
    hide Feed, Call, Legal, Enc, Spell, Strict, Proper, Allowed;
    LoosePasses(ONE_MINUS_ONE);
  }
}
