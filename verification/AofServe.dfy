/** What requests do to the live keyspace, key by key, and what goes to the log for them. */
module AofServe {
  import opened Seqs
  import opened AofLog

  /** All keys but one are as they were. */
  ghost predicate OthersStay(db: Db, after: Db, key: Bytes)
  {
    forall k | k != key :: (k in after <==> k in db) && (k in db ==> after[k] == db[k])
  }

  /** A time to live in milliseconds. */
  function Span(ttl: (int, Unit)): int
  {
    match ttl.1
    case Seconds => 1000 * ttl.0
    case Milliseconds => ttl.0
  }

  // ---- SET and SETEX ----

  /** SET without a condition replaces whatever is there, also its expiry. */
  lemma SetReplaces(db: Db, key: Bytes, value: Bytes, t: Clock)
    ensures var after := Serve(db, SetRequest(key, value, Always, None), t);
            key in after && after[key] == Entry(Text(value), None) && OthersStay(db, after, key)
    ensures Logged(db, SetRequest(key, value, Always, None))
  {
  }

  /** SET with NX stores under a missing key and leaves a present one as it is. */
  lemma SetIfMissing(db: Db, key: Bytes, value: Bytes, t: Clock)
    ensures var after := Serve(db, SetRequest(key, value, IfMissing, None), t);
            && key in after && OthersStay(db, after, key)
            && after[key] == if key in db then db[key] else Entry(Text(value), None)
    ensures Logged(db, SetRequest(key, value, IfMissing, None)) <==> key !in db
  {
  }

  /** SET with XX replaces a present key and makes no missing one. */
  lemma SetIfPresent(db: Db, key: Bytes, value: Bytes, t: Clock)
    ensures var after := Serve(db, SetRequest(key, value, IfPresent, None), t);
            && (key in after <==> key in db) && OthersStay(db, after, key)
            && (key in db ==> after[key] == Entry(Text(value), None))
    ensures Logged(db, SetRequest(key, value, IfPresent, None)) <==> key in db
  {
  }

  /** SET with a time to live stores, under the same conditions, a key that expires so much later;
    * with one that is not positive it does nothing. */
  lemma SetTimed(db: Db, key: Bytes, value: Bytes, condition: Condition, ttl: (int, Unit), t: Clock)
    ensures var after := Serve(db, SetRequest(key, value, condition, Some(ttl)), t);
            var plain := Serve(db, SetRequest(key, value, condition, None), t);
            && (ttl.0 <= 0 ==> after == db)
            && (ttl.0 > 0 ==> after.Keys == plain.Keys && OthersStay(plain, after, key))
            && (ttl.0 > 0 && Logged(db, SetRequest(key, value, condition, None)) ==>
                  key in after && after[key] == Entry(Text(value), Some(t.now + Span(ttl))))
            && (ttl.0 > 0 && !Logged(db, SetRequest(key, value, condition, None)) ==> after == db)
    ensures Logged(db, SetRequest(key, value, condition, Some(ttl)))
            <==> ttl.0 > 0 && Logged(db, SetRequest(key, value, condition, None))
  {
  }

  lemma SetExServed(db: Db, key: Bytes, ttl: (int, Unit), value: Bytes, t: Clock)
    ensures Serve(db, SetExRequest(key, ttl.0, ttl.1, value), t)
            == Serve(db, SetRequest(key, value, Always, Some(ttl)), t)
    ensures Logged(db, SetExRequest(key, ttl.0, ttl.1, value)) <==> ttl.0 > 0
  {
  }

  /** The requests of clients that want a lock, one after the other. */
  function Locks(key: Bytes, values: seq<Bytes>, t: Clock): (es: seq<Event>)
    ensures |es| == |values| && AllPlain(es)
  {
    seq(|values|, i requires 0 <= i < |values| => Event(0, SetRequest(key, values[i], IfMissing, None), t, None))
  }

  function Selecting(s: Server): seq<Command>
  {
    if s.selected == Some(0) then [] else [Select(0)]
  }

  /** Of any number of clients that set a missing key with NX only the first gets it, and only its
    * request is logged. */
  lemma {:induction false} FirstLockWins(s: Server, key: Bytes, values: seq<Bytes>, t: Clock)
    requires key !in DbOf(s.ks, 0) && |values| > 0
    ensures var db := DbOf(RunAll(s, Locks(key, values, t)).ks, 0);
            key in db && db[key] == Entry(Text(values[0]), None)
    ensures Log(s, Locks(key, values, t)) == Selecting(s) + [SetText(key, values[0])]
  {
    var es := Locks(key, values, t);
    var after := After(s, es[0]);
    SetIfMissing(DbOf(s.ks, 0), key, values[0], t);
    assert es[1..] == Locks(key, values[1..], t);
    hide Serve, Logged;
    LockHeld(after, key, values[1..], t);
    assert Entries(s, es[0]) == Selecting(s) + ([SetText(key, values[0])] + [] + []);
  }

  lemma {:induction false} LockHeld(s: Server, key: Bytes, values: seq<Bytes>, t: Clock)
    requires key in DbOf(s.ks, 0)
    ensures var db := DbOf(RunAll(s, Locks(key, values, t)).ks, 0); key in db && db[key] == DbOf(s.ks, 0)[key]
    ensures Log(s, Locks(key, values, t)) == []
    decreases |values|
  {
    if |values| > 0 {
      var es := Locks(key, values, t);
      SetIfMissing(DbOf(s.ks, 0), key, values[0], t);
      assert es[1..] == Locks(key, values[1..], t);
      hide Serve, Logged;
      LockHeld(After(s, es[0]), key, values[1..], t);
    }
  }

  // ---- Expiry and deletion ----

  /** A deadline that has passed deletes the key; any other becomes its expiry. */
  ghost predicate Deadline(db: Db, after: Db, key: Bytes, when: int, seen: int)
  {
    && OthersStay(db, after, key)
    && (key in after <==> key in db && when > seen)
    && (key in after ==> after[key].data == db[key].data && after[key].expire == Some(when))
  }

  lemma ExpireServed(db: Db, key: Bytes, ttl: (int, Unit), t: Clock)
    ensures Deadline(db, Serve(db, ExpireRequest(key, ttl.0, ttl.1), t), key, t.now + Span(ttl), t.seen)
    ensures Deadline(db, Serve(db, ExpireAtRequest(key, ttl.0, ttl.1), t), key, Span(ttl), t.seen)
    ensures Logged(db, ExpireRequest(key, ttl.0, ttl.1)) <==> key in db
    ensures Logged(db, ExpireAtRequest(key, ttl.0, ttl.1)) <==> key in db
  {
  }

  /** What is logged for it: a deletion if and only if the deadline had passed. */
  lemma ExpireLogged(key: Bytes, ttl: (int, Unit), t: Clock)
    ensures Translate(ExpireRequest(key, ttl.0, ttl.1), t)
            == if t.now + Span(ttl) > t.seen then [PExpireAt(key, t.later + Span(ttl))] else [Del([key])]
    ensures Translate(ExpireAtRequest(key, ttl.0, ttl.1), t)
            == if Span(ttl) > t.seen then [PExpireAt(key, Span(ttl))] else [Del([key])]
  {
  }

  lemma DelServed(db: Db, keys: seq<Bytes>, t: Clock)
    requires |keys| > 0
    ensures var after := Serve(db, DelRequest(keys), t);
            forall k :: (k in after <==> k in db && k !in keys) && (k in after ==> after[k] == db[k])
    ensures Logged(db, DelRequest(keys)) <==> exists i | 0 <= i < |keys| :: keys[i] in db
  {
  }

  // ---- Collections ----

  /** The first argument of every item. */
  function Firsts(items: seq<seq<Bytes>>): (r: seq<Bytes>)
    requires forall i | 0 <= i < |items| :: |items[i]| > 0
    ensures |r| == |items|
  {
    seq(|items|, i requires 0 <= i < |items| => items[i][0])
  }

  lemma {:induction false} Pushed(o: Object, items: seq<seq<Bytes>>)
    requires o.List? && Sized(RPush, items)
    ensures AddAll(RPush, o, items) == List(o.items + Firsts(items))
    decreases |items|
  {
    if |items| == 0 {
      assert o.items + Firsts(items) == o.items;
    } else {
      Pushed(AddItem(RPush, o, items[0]), items[1..]);
      assert o.items + [items[0][0]] + Firsts(items[1..]) == o.items + Firsts(items);
    }
  }

  lemma {:induction false} Joined(o: Object, items: seq<seq<Bytes>>)
    requires o.Set? && Sized(SAdd, items)
    ensures AddAll(SAdd, o, items) == Set(o.members + (set m | m in Firsts(items)))
    decreases |items|
  {
    if |items| == 0 {
      assert o.members + (set m | m in Firsts(items)) == o.members;
    } else {
      Joined(AddItem(SAdd, o, items[0]), items[1..]);
      var firsts, rest := Firsts(items), Firsts(items[1..]);
      assert firsts == [items[0][0]] + rest;
      assert o.members + {items[0][0]} + (set m | m in rest) == o.members + (set m | m in firsts);
    }
  }

  /** Names with values: the last value given for a name counts, and names not given stay. The name
    * is argument `at` of an item, and the value the other one. */
  ghost predicate Named(before: map<Bytes, Bytes>, after: map<Bytes, Bytes>, items: seq<seq<Bytes>>, at: nat)
    requires at < 2 && forall i | 0 <= i < |items| :: |items[i]| == 2
  {
    && (forall n :: n in after <==> n in before || exists i | 0 <= i < |items| :: items[i][at] == n)
    && (forall n | n in before && (forall i | 0 <= i < |items| :: items[i][at] != n) :: after[n] == before[n])
    && (forall i | 0 <= i < |items| && (forall j | i < j < |items| :: items[j][at] != items[i][at]) ::
          after[items[i][at]] == items[i][1 - at])
  }

  lemma NamedNone(before: map<Bytes, Bytes>, items: seq<seq<Bytes>>, at: nat)
    requires at < 2 && items == []
    ensures Named(before, before, items, at)
  {
  }

  /** One item more in front. */
  lemma NamedNext(before: map<Bytes, Bytes>, after: map<Bytes, Bytes>, items: seq<seq<Bytes>>, at: nat)
    requires at < 2 && |items| > 0 && forall i | 0 <= i < |items| :: |items[i]| == 2
    requires Named(before[items[0][at] := items[0][1 - at]], after, items[1..], at)
    ensures Named(before, after, items, at)
  {
    var rest := items[1..];
    assert forall i | 1 <= i < |items| :: items[i] == rest[i - 1];
    assert forall i | 0 <= i < |rest| :: rest[i] == items[i + 1];
    forall n ensures n in after <==> n in before || exists i | 0 <= i < |items| :: items[i][at] == n {
      if i :| 0 <= i < |items| && items[i][at] == n {
        assert i == 0 || rest[i - 1][at] == n;
      }
    }
    forall i | 0 <= i < |items| && (forall j | i < j < |items| :: items[j][at] != items[i][at])
      ensures after[items[i][at]] == items[i][1 - at]
    {
      if i == 0 {
        assert forall j | 0 <= j < |rest| :: rest[j][at] != items[0][at];
      } else {
        assert forall j | i - 1 < j < |rest| :: rest[j][at] != rest[i - 1][at];
      }
    }
  }

  lemma {:induction false} Scored(o: Object, items: seq<seq<Bytes>>)
    requires o.ZSet? && Sized(ZAdd, items)
    ensures Named(o.scores, AddAll(ZAdd, o, items).scores, items, 1)
    decreases |items|
  {
    hide Named;
    if |items| == 0 {
      NamedNone(o.scores, items, 1);
    } else {
      Scored(AddItem(ZAdd, o, items[0]), items[1..]);
      NamedNext(o.scores, AddAll(ZAdd, o, items).scores, items, 1);
    }
  }

  lemma {:induction false} Filled(o: Object, items: seq<seq<Bytes>>)
    requires o.Hash? && Sized(HMSet, items)
    ensures Named(o.fields, AddAll(HMSet, o, items).fields, items, 0)
    decreases |items|
  {
    hide Named;
    if |items| == 0 {
      NamedNone(o.fields, items, 0);
    } else {
      Filled(AddItem(HMSet, o, items[0]), items[1..]);
      NamedNext(o.fields, AddAll(HMSet, o, items).fields, items, 0);
    }
  }

  /** What a key holds of each type; a missing one is empty. */
  function ItemsAt(db: Db, key: Bytes): seq<Bytes>
  {
    if key in db && db[key].data.List? then db[key].data.items else []
  }

  function MembersAt(db: Db, key: Bytes): set<Bytes>
  {
    if key in db && db[key].data.Set? then db[key].data.members else {}
  }

  function ScoresAt(db: Db, key: Bytes): map<Bytes, Bytes>
  {
    if key in db && db[key].data.ZSet? then db[key].data.scores else map[]
  }

  function FieldsAt(db: Db, key: Bytes): map<Bytes, Bytes>
  {
    if key in db && db[key].data.Hash? then db[key].data.fields else map[]
  }

  /** RPUSH appends in the order given, SADD joins, ZADD takes a score and then a member, HMSET a
    * field and then its value; the last one given counts. The expiry stays, and a key of another
    * type is left alone. */
  lemma GrowServed(db: Db, kind: Kind, key: Bytes, items: seq<seq<Bytes>>, t: Clock)
    requires |items| > 0 && Sized(kind, items)
    ensures var after := Serve(db, GrowRequest(Add(kind, key, items)), t);
            if key in db && !OfKind(kind, db[key].data) then after == db
            else
              && OthersStay(db, after, key) && key in after
              && after[key].expire == (if key in db then db[key].expire else None)
              && (kind.RPush? ==> after[key].data == List(ItemsAt(db, key) + Firsts(items)))
              && (kind.SAdd? ==> after[key].data == Set(MembersAt(db, key) + (set m | m in Firsts(items))))
              && (kind.ZAdd? ==>
                    after[key].data.ZSet? && Named(ScoresAt(db, key), after[key].data.scores, items, 1))
              && (kind.HMSet? ==>
                    after[key].data.Hash? && Named(FieldsAt(db, key), after[key].data.fields, items, 0))
  {
    hide AddAll, Named;
    var o := if key in db then db[key].data else Empty(kind);
    if OfKind(kind, o) {
      match kind
      case RPush => Pushed(o, items);
      case SAdd => Joined(o, items);
      case ZAdd => Scored(o, items);
      case HMSet => Filled(o, items);
    }
  }

  // ---- The server ----

  /** A request works on its own database and on no other. */
  lemma AfterServes(s: Server, e: Event, d: nat)
    requires Plain(e.request)
    ensures DbOf(After(s, e).ks, d)
            == if d == e.db then Serve(DbOf(s.ks, d), e.request, e.clock) else DbOf(s.ks, d)
  {
    hide Serve;
  }
}
