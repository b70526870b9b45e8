/** A rewrite can always be begun: whatever was served, the keyspace can be walked. */
module AofWalks {
  import opened Seqs
  import opened AofLog
  import opened AofRewrite
  import AofCodec
  import AofLoad
  import AofSystem

  /** No collection is empty. */
  predicate FilledObject(o: Object)
  {
    match o
    case Text(_) => true
    case List(items) => |items| > 0
    case Set(members) => members != {}
    case ZSet(scores) => scores != map[]
    case Hash(fields) => fields != map[]
  }

  ghost predicate FilledDb(db: Db)
  {
    forall k | k in db :: FilledObject(db[k].data)
  }

  ghost predicate Filled(ks: Keyspace)
  {
    forall d | d in ks :: FilledDb(ks[d])
  }

  // ---- Serving keeps collections filled ----

  lemma AddItemFilled(kind: Kind, o: Object, item: seq<Bytes>)
    requires OfKind(kind, o) && |item| == Width(kind)
    ensures FilledObject(AddItem(kind, o, item))
  {
    match kind
    case RPush =>
    case SAdd => assert item[0] in o.members + {item[0]};
    case ZAdd => assert item[1] in o.scores[item[1] := item[0]];
    case HMSet => assert item[0] in o.fields[item[0] := item[1]];
  }

  lemma {:induction false} AddAllFilled(kind: Kind, o: Object, items: seq<seq<Bytes>>)
    requires OfKind(kind, o) && Sized(kind, items) && (|items| > 0 || FilledObject(o))
    ensures FilledObject(AddAll(kind, o, items))
    decreases |items|
  {
    hide FilledObject, AddItem;
    if |items| > 0 {
      AddItemFilled(kind, o, items[0]);
      AddAllFilled(kind, AddItem(kind, o, items[0]), items[1..]);
    }
  }

  lemma ServeFilled(db: Db, r: Request, t: Clock)
    requires FilledDb(db) && Plain(r)
    ensures FilledDb(Serve(db, r, t))
  {
    hide AddAll;
    if r.GrowRequest? {
      var c := r.command;
      AddAllFilled(c.kind, Empty(c.kind), c.items);
      if c.key in db && OfKind(c.kind, db[c.key].data) {
        AddAllFilled(c.kind, db[c.key].data, c.items);
      }
    }
  }

  lemma OnDbFilled(db: Db, c: Command)
    requires FilledDb(db) && Sound(c)
    ensures FilledDb(OnDb(db, c))
  {
    hide AddAll;
    if c.Add? {
      AddAllFilled(c.kind, Empty(c.kind), c.items);
      if c.key in db && OfKind(c.kind, db[c.key].data) {
        AddAllFilled(c.kind, db[c.key].data, c.items);
      }
    }
  }

  lemma {:induction false} ReplayFilled(l: Loader, log: seq<Command>)
    requires Filled(l.ks) && AllSound(log)
    ensures Filled(Replay(l, log).ks)
    decreases |log|
  {
    hide FilledDb, OnDb;
    if |log| > 0 {
      NothingIsFilled();
      OnDbFilled(DbOf(l.ks, l.db), log[0]);
      ReplayFilled(Exec(l, log[0]), log[1..]);
    }
  }

  lemma NextFilled(s: AofSystem.State, a: AofSystem.Action)
    requires AofSystem.Enabled(s, a) && Filled(s.server.ks)
    ensures Filled(AofSystem.Next(s, a).server.ks)
  {
    hide FilledDb, Serve, AofCodec.Decode, AofLoad.Load, Replay;
    if a.Serve? {
      var e := a.event;
      NothingIsFilled();
      ServeFilled(DbOf(s.server.ks, e.db), e.request, e.clock);
    } else if a.Crash? {
      var log := AofCodec.Decode(s.file[..a.left]);
      if log.Some? && AllSound(log.value) {
        ReplayFilled(EMPTY, log.value);
      }
    }
  }

  lemma NothingIsFilled()
    ensures FilledDb(map[])
  {
  }

  lemma {:induction false} RunFilled(s: AofSystem.State, actions: seq<AofSystem.Action>)
    requires AofSystem.CanRun(s, actions) && Filled(s.server.ks)
    ensures Filled(AofSystem.Run(s, actions).server.ks)
    decreases |actions|
  {
    hide AofSystem.Next, AofSystem.Enabled, Filled;
    if |actions| > 0 {
      NextFilled(s, actions[0]);
      RunFilled(AofSystem.Next(s, actions[0]), actions[1..]);
    }
  }

  // ---- Filled keyspaces can be walked ----

  lemma AddLast(kind: Kind, o: Object, items: seq<seq<Bytes>>, item: seq<Bytes>)
    requires OfKind(kind, o) && Sized(kind, items) && |item| == Width(kind)
    ensures Sized(kind, items + [item])
    ensures AddAll(kind, o, items + [item]) == AddItem(kind, AddAll(kind, o, items), item)
  {
    hide AddItem;
    AddAllAppend(kind, o, items, [item]);
    assert [item][1..] == [];
    assert AddAll(kind, AddAll(kind, o, items), [item]) ==
           AddAll(kind, AddItem(kind, AddAll(kind, o, items), item), []);
  }

  lemma {:induction false} ListItems(items: seq<Bytes>) returns (r: seq<seq<Bytes>>)
    ensures |r| == |items| && Sized(RPush, r) && AddAll(RPush, Empty(RPush), r) == List(items)
    decreases |items|
  {
    if |items| == 0 {
      r := [];
    } else {
      var n := |items| - 1;
      var front := ListItems(items[..n]);
      r := front + [[items[n]]];
      AddLast(RPush, Empty(RPush), front, [items[n]]);
      assert items == items[..n] + [items[n]];
    }
  }

  lemma {:induction false} SetItems(members: set<Bytes>) returns (r: seq<seq<Bytes>>)
    ensures Sized(SAdd, r) && AddAll(SAdd, Empty(SAdd), r) == Set(members) && (members != {} ==> |r| > 0)
    decreases members
  {
    if members == {} {
      r := [];
    } else {
      var x :| x in members;
      var front := SetItems(members - {x});
      r := front + [[x]];
      AddLast(SAdd, Empty(SAdd), front, [x]);
      assert members - {x} + {x} == members;
    }
  }

  lemma {:induction false} ScoreItems(scores: map<Bytes, Bytes>) returns (r: seq<seq<Bytes>>)
    ensures Sized(ZAdd, r) && AddAll(ZAdd, Empty(ZAdd), r) == ZSet(scores) && (scores != map[] ==> |r| > 0)
    decreases scores.Keys
  {
    if scores.Keys == {} {
      assert scores == map[];
      r := [];
    } else {
      var x :| x in scores.Keys;
      var front := ScoreItems(scores - {x});
      r := front + [[scores[x], x]];
      AddLast(ZAdd, Empty(ZAdd), front, [scores[x], x]);
      assert (scores - {x})[x := scores[x]] == scores;
    }
  }

  lemma {:induction false} FieldItems(fields: map<Bytes, Bytes>) returns (r: seq<seq<Bytes>>)
    ensures Sized(HMSet, r) && AddAll(HMSet, Empty(HMSet), r) == Hash(fields) && (fields != map[] ==> |r| > 0)
    decreases fields.Keys
  {
    if fields.Keys == {} {
      assert fields == map[];
      r := [];
    } else {
      var x :| x in fields.Keys;
      var front := FieldItems(fields - {x});
      r := front + [[x, fields[x]]];
      AddLast(HMSet, Empty(HMSet), front, [x, fields[x]]);
      assert (fields - {x})[x := fields[x]] == fields;
    }
  }

  lemma RowOf(key: Bytes, e: Entry) returns (row: Row)
    requires FilledObject(e.data)
    ensures RowSound(row) && row.key == key && Made(row) == e
  {
    hide AddAll;
    match e.data
    case Text(value) => row := Row(key, Whole(value), e.expire);
    case List(items) =>
      var r := ListItems(items);
      row := Row(key, Items(RPush, r), e.expire);
    case Set(members) =>
      var r := SetItems(members);
      row := Row(key, Items(SAdd, r), e.expire);
    case ZSet(scores) =>
      var r := ScoreItems(scores);
      row := Row(key, Items(ZAdd, r), e.expire);
    case Hash(fields) =>
      var r := FieldItems(fields);
      row := Row(key, Items(HMSet, r), e.expire);
  }

  lemma {:induction false} WalkDb(db: Db) returns (rows: seq<Row>)
    requires FilledDb(db)
    ensures Walks(rows, db)
    decreases db.Keys
  {
    if db.Keys == {} {
      rows := [];
    } else {
      var k :| k in db.Keys;
      var rest := db - {k};
      assert forall x | x in rest :: FilledObject(db[x].data);
      var front := WalkDb(rest);
      var row := RowOf(k, db[k]);
      rows := front + [row];
      OneMore(front, row, rest, db);
    }
  }

  lemma OneMore(front: seq<Row>, row: Row, rest: Db, db: Db)
    requires Walks(front, rest) && row.key in db && rest == db - {row.key} && RowSound(row) && Made(row) == db[row.key]
    ensures Walks(front + [row], db)
  {
    hide Made;
    var rows := front + [row];
    assert forall i | 0 <= i < |front| :: rows[i] == front[i] && rows[i].key in rest;
    forall k | k in db ensures exists i | 0 <= i < |rows| :: rows[i].key == k {
      if k == row.key {
        assert rows[|front|].key == k;
      } else {
        assert k in rest;
        var i :| 0 <= i < |front| && front[i].key == k;
        assert rows[i].key == k;
      }
    }
  }

  lemma {:induction false} Bound(ds: set<nat>) returns (n: nat)
    ensures forall d | d in ds :: d < n
    decreases ds
  {
    if ds == {} {
      n := 0;
    } else {
      var x :| x in ds;
      var m := Bound(ds - {x});
      n := if x < m then m else x + 1;
      assert forall d | d in ds :: d == x || d in ds - {x};
    }
  }

  lemma {:induction false} WalkDbs(ks: Keyspace, n: nat) returns (dbs: seq<seq<Row>>)
    requires Filled(ks)
    ensures |dbs| == n && forall j | 0 <= j < n :: Walks(dbs[j], DbOf(ks, j))
    decreases n
  {
    hide Walks, FilledDb;
    if n == 0 {
      dbs := [];
    } else {
      var front := WalkDbs(ks, n - 1);
      NothingIsFilled();
      var rows := WalkDb(DbOf(ks, n - 1));
      dbs := front + [rows];
    }
  }

  /** In every reachable state without a rewrite, one can be begun. */
  lemma RewriteCanBegin(actions: seq<AofSystem.Action>) returns (dbs: seq<seq<Row>>)
    requires AofSystem.CanRun(AofSystem.START, actions) && AofSystem.Run(AofSystem.START, actions).rewrite.None?
    ensures AofSystem.Enabled(AofSystem.Run(AofSystem.START, actions), AofSystem.Fork(dbs))
  {
    hide Walks, FilledDb, AofSystem.Next;
    RunFilled(AofSystem.START, actions);
    var ks := AofSystem.Run(AofSystem.START, actions).server.ks;
    var n := Bound(ks.Keys);
    dbs := WalkDbs(ks, n);
    forall j | 0 <= j < n ensures RowsSound(dbs[j]) {
      RowsOfWalk(dbs[j], DbOf(ks, j));
    }
  }

  lemma RowsOfWalk(rows: seq<Row>, db: Db)
    requires Walks(rows, db)
    ensures RowsSound(rows)
  {
  }
}
