/** Rewriting the log: commands that rebuild the keyspace as it is. */
module AofRewrite {
  import opened Seqs
  import opened Resp
  import opened AofLog
  import opened AofCodec
  import AofLoad
  import Package

  const ITEMS_PER_CMD := 64

  function Most(n: nat): (m: nat)
    ensures m <= n && m <= ITEMS_PER_CMD && (n > 0 ==> m > 0)
  {
    if n > ITEMS_PER_CMD then ITEMS_PER_CMD else n
  }

  /** The commands that add `items` under `key`, as many as fit to a command. */
  function Adds(kind: Kind, key: Bytes, items: seq<seq<Bytes>>): (log: seq<Command>)
    requires Sized(kind, items)
    ensures AllSound(log) && NoSelect(log)
    decreases |items|
  {
    if |items| == 0 then []
    else [Add(kind, key, items[..Most(|items|)])] + Adds(kind, key, items[Most(|items|)..])
  }

  /** Every command adds one item or more, and no more than fit; together they add the items
    * in their order, once each. */
  lemma {:induction false} AddsCarryAll(kind: Kind, key: Bytes, items: seq<seq<Bytes>>)
    requires Sized(kind, items)
    ensures forall i | 0 <= i < |Adds(kind, key, items)| ::
              var c := Adds(kind, key, items)[i];
              && c.Add? && c.kind == kind && c.key == key && 1 <= |c.items| <= 64
              && (i + 1 < |Adds(kind, key, items)| ==> |c.items| == 64)
    ensures ItemsOf(Adds(kind, key, items)) == items
    decreases |items|
  {
    if |items| > 0 {
      var n := Most(|items|);
      AddsCarryAll(kind, key, items[n..]);
      assert Adds(kind, key, items)[1..] == Adds(kind, key, items[n..]);
      assert items[..n] + items[n..] == items;
    }
  }

  function ItemsOf(log: seq<Command>): seq<seq<Bytes>>
    decreases |log|
  {
    if |log| == 0 then [] else (if log[0].Add? then log[0].items else []) + ItemsOf(log[1..])
  }

  // ---- The bytes of a collection ----

  /** A command's header and first two arguments, announcing `n` items. */
  function Announced(kind: Kind, key: Bytes, n: nat): Bytes
  {
    ArrayHead(2 + n * Width(kind)) + AofLoad.Body([Name(kind), key])
  }

  /** What is still to be written when `room` items of the current command are. */
  function Rest(kind: Kind, key: Bytes, items: seq<seq<Bytes>>, room: nat): Bytes
    requires room <= |items|
    decreases |items|, if room == 0 then 1 else 0
  {
    if room > 0 then AofLoad.Body(items[0]) + Rest(kind, key, items[1..], room - 1)
    else if |items| == 0 then []
    else Announced(kind, key, Most(|items|)) + Rest(kind, key, items, Most(|items|))
  }

  lemma {:induction false} BodyAppend(a: seq<Bytes>, b: seq<Bytes>)
    ensures AofLoad.Body(a + b) == AofLoad.Body(a) + AofLoad.Body(b)
    decreases |a|
  {
    hide Enc;
    if |a| == 0 {
      assert a + b == b;
    } else {
      AofLoad.BodyNext(a);
      AofLoad.BodyNext(a + b);
      assert (a + b)[0] == a[0] && (a + b)[1..] == a[1..] + b;
      BodyAppend(a[1..], b);
    }
  }

  lemma {:induction false} RestTakes(kind: Kind, key: Bytes, items: seq<seq<Bytes>>, room: nat)
    requires room <= |items|
    ensures Rest(kind, key, items, room) == AofLoad.Body(Flatten(items[..room])) + Rest(kind, key, items[room..], 0)
    decreases room
  {
    hide AofLoad.Body, Announced;
    if room == 0 {
      assert items[0..] == items;
      NoBody();
    } else {
      RestTakes(kind, key, items[1..], room - 1);
      assert items[1..][..room - 1] == items[..room][1..] && items[1..][room - 1..] == items[room..];
      assert Flatten(items[..room]) == items[0] + Flatten(items[..room][1..]);
      BodyAppend(items[0], Flatten(items[..room][1..]));
    }
  }

  lemma NoBody()
    ensures AofLoad.Body([]) == []
  {
  }

  lemma {:induction false} FlatSize(kind: Kind, items: seq<seq<Bytes>>)
    requires Sized(kind, items)
    ensures |Flatten(items)| == |items| * Width(kind)
    decreases |items|
  {
    if |items| > 0 {
      FlatSize(kind, items[1..]);
    }
  }

  lemma OneAdd(kind: Kind, key: Bytes, items: seq<seq<Bytes>>)
    requires Sized(kind, items) && |items| > 0
    ensures Package.Command(Args(Add(kind, key, items))) == Announced(kind, key, |items|) + AofLoad.Body(Flatten(items))
  {
    hide Name, AofLoad.Body, Package.Command, ArrayHead, Flatten, Width, Sized;
    var first, flat := [Name(kind), key], Flatten(items);
    FlatSize(kind, items);
    BodyAppend(first, flat);
    CommandIs(first + flat);
    Assoc(ArrayHead(|first + flat|), AofLoad.Body(first), AofLoad.Body(flat));
  }

  lemma Assoc(a: Bytes, b: Bytes, c: Bytes)
    ensures a + (b + c) == a + b + c
  {
  }

  lemma CommandIs(args: seq<Bytes>)
    ensures Package.Command(args) == ArrayHead(|args|) + AofLoad.Body(args)
  {
  }

  /** What is written from the start is the bytes of the commands: each one announces the
    * arguments it has. */
  lemma {:induction false} RestIs(kind: Kind, key: Bytes, items: seq<seq<Bytes>>)
    requires Sized(kind, items)
    ensures Rest(kind, key, items, 0) == Encode(Adds(kind, key, items))
    decreases |items|
  {
    hide Announced, AofLoad.Body, Args, Package.Command;
    if |items| > 0 {
      var n := Most(|items|);
      var chunk, more := items[..n], items[n..];
      RestTakes(kind, key, items, n);
      OneAdd(kind, key, chunk);
      EncodeOne(Add(kind, key, chunk));
      EncodeAppend([Add(kind, key, chunk)], Adds(kind, key, more));
      RestIs(kind, key, more);
      Assoc(Announced(kind, key, n), AofLoad.Body(Flatten(chunk)), Rest(kind, key, more, 0));
    }
  }

  /** Write a collection item by item, opening a new command whenever the last one is full. */
  method RewriteItems(kind: Kind, key: Bytes, items: seq<seq<Bytes>>) returns (out: Bytes)
    requires Sized(kind, items)
    ensures out == Encode(Adds(kind, key, items))
  {
    hide Announced, AofLoad.Body, Encode, Adds, Rest;
    out := [];
    var count, left, i := 0, |items|, 0;
    RestIs(kind, key, items);
    assert items[0..] == items;
    while i < |items|
      invariant i <= |items| && left == |items| - i && count < ITEMS_PER_CMD
      invariant out + Rest(kind, key, items[i..], Open(count, left)) == Encode(Adds(kind, key, items))
    {
      if count == 0 {
        var n := if left > ITEMS_PER_CMD then ITEMS_PER_CMD else left;
        RestOpens(kind, key, items[i..], out);
        out := out + Announced(kind, key, n);
      }
      RestWrites(kind, key, items, i, if count == 0 then Most(left) else Open(count, left), out);
      out := out + AofLoad.Body(items[i]);
      count := count + 1;
      if count == ITEMS_PER_CMD {
        count := 0;
      }
      left := left - 1;
      i := i + 1;
    }
    RestEnds(kind, key);
    assert items[i..] == [];
  }

  lemma RestOpens(kind: Kind, key: Bytes, items: seq<seq<Bytes>>, out: Bytes)
    requires |items| > 0
    ensures out + Announced(kind, key, Most(|items|)) + Rest(kind, key, items, Most(|items|)) ==
            out + Rest(kind, key, items, 0)
  {
    hide Announced;
  }

  lemma RestWrites(kind: Kind, key: Bytes, items: seq<seq<Bytes>>, i: nat, room: nat, out: Bytes)
    requires i < |items| && 0 < room <= |items| - i
    ensures out + AofLoad.Body(items[i]) + Rest(kind, key, items[i + 1..], room - 1) ==
            out + Rest(kind, key, items[i..], room)
  {
    hide AofLoad.Body;
    assert items[i..][1..] == items[i + 1..];
  }

  lemma RestEnds(kind: Kind, key: Bytes)
    ensures Rest(kind, key, [], 0) == []
  {
  }

  /** How many items the open command still announces. */
  function Open(count: nat, left: nat): (room: nat)
    requires count < ITEMS_PER_CMD
    ensures room <= left
  {
    if count == 0 then 0 else if left > ITEMS_PER_CMD - count then ITEMS_PER_CMD - count else left
  }

  // ---- Replaying a collection ----

  lemma {:induction false} AddAllAppend(kind: Kind, o: Object, a: seq<seq<Bytes>>, b: seq<seq<Bytes>>)
    requires OfKind(kind, o) && Sized(kind, a) && Sized(kind, b)
    ensures AddAll(kind, o, a + b) == AddAll(kind, AddAll(kind, o, a), b)
    decreases |a|
  {
    hide AddItem;
    if |a| == 0 {
      assert a + b == b;
    } else {
      assert (a + b)[0] == a[0] && (a + b)[1..] == a[1..] + b;
      AddAllAppend(kind, AddItem(kind, o, a[0]), a[1..], b);
    }
  }

  lemma {:induction false} OnDbAllAppend(db: Db, a: seq<Command>, b: seq<Command>)
    requires AllSound(a) && AllSound(b)
    ensures OnDbAll(db, a + b) == OnDbAll(OnDbAll(db, a), b)
    decreases |a|
  {
    hide OnDb;
    if |a| == 0 {
      assert a + b == b;
    } else {
      assert (a + b)[0] == a[0] && (a + b)[1..] == a[1..] + b;
      OnDbAllAppend(OnDb(db, a[0]), a[1..], b);
    }
  }

  /** However a collection was cut into commands, together they add all of it. */
  lemma {:induction false} AddsReplay(db: Db, kind: Kind, key: Bytes, o: Object, items: seq<seq<Bytes>>)
    requires Sized(kind, items) && OfKind(kind, o)
    requires if key in db then db[key].data == o else o == Empty(kind) && |items| > 0
    ensures var e := if key in db then db[key].expire else None;
            OnDbAll(db, Adds(kind, key, items))
            == if |items| == 0 then db else db[key := Entry(AddAll(kind, o, items), e)]
    decreases |items|
  {
    if |items| > 0 {
      hide AddAll, OnDb;
      var e := if key in db then db[key].expire else None;
      var n := Most(|items|);
      var chunk, more := items[..n], items[n..];
      var log := Adds(kind, key, items);
      var o1 := AddAll(kind, o, chunk);
      assert log[0] == Add(kind, key, chunk) && log[1..] == Adds(kind, key, more);
      AddChunk(db, kind, key, o, chunk);
      AddsReplay(db[key := Entry(o1, e)], kind, key, o1, more);
      AddAllAppend(kind, o, chunk, more);
      assert chunk + more == items;
      SetTwice(db, key, Entry(o1, e), Entry(AddAll(kind, o1, more), e));
      if |more| == 0 {
        assert chunk == items;
      }
    }
  }

  lemma SetTwice(db: Db, key: Bytes, a: Entry, b: Entry)
    ensures db[key := a][key := b] == db[key := b]
  {
  }

  /** One command adds its items. */
  lemma AddChunk(db: Db, kind: Kind, key: Bytes, o: Object, chunk: seq<seq<Bytes>>)
    requires Sized(kind, chunk) && OfKind(kind, o) && |chunk| > 0
    requires if key in db then db[key].data == o else o == Empty(kind)
    ensures OnDb(db, Add(kind, key, chunk))
            == db[key := Entry(AddAll(kind, o, chunk), if key in db then db[key].expire else None)]
    ensures OfKind(kind, AddAll(kind, o, chunk))
  {
    hide AddItem;
  }

  // ---- The whole keyspace ----

  /** A key as the walk over its database meets it: a collection in the order of its walk. */
  datatype Shape = Whole(text: Bytes) | Items(kind: Kind, items: seq<seq<Bytes>>)

  datatype Row = Row(key: Bytes, shape: Shape, expire: Option<int>)

  /** Collections hold something; an empty one would have been deleted. */
  predicate RowSound(row: Row)
  {
    row.shape.Items? ==> |row.shape.items| > 0 && Sized(row.shape.kind, row.shape.items)
  }

  predicate RowsSound(rows: seq<Row>)
  {
    forall i | 0 <= i < |rows| :: RowSound(rows[i])
  }

  function Made(row: Row): Entry
    requires RowSound(row)
  {
    Entry(if row.shape.Whole? then Text(row.shape.text)
          else AddAll(row.shape.kind, Empty(row.shape.kind), row.shape.items),
          row.expire)
  }

  /** A walk over a database meets every key once and no other. */
  ghost predicate Walks(rows: seq<Row>, db: Db)
  {
    && RowsSound(rows)
    && (forall i, j | 0 <= i < j < |rows| :: rows[i].key != rows[j].key)
    && (forall i | 0 <= i < |rows| :: rows[i].key in db && db[rows[i].key] == Made(rows[i]))
    && (forall k | k in db :: exists i | 0 <= i < |rows| :: rows[i].key == k)
  }

  function RowValue(row: Row): (log: seq<Command>)
    requires RowSound(row)
    ensures AllSound(log) && NoSelect(log)
  {
    if row.shape.Whole? then [SetText(row.key, row.shape.text)] else Adds(row.shape.kind, row.key, row.shape.items)
  }

  function RowExpire(row: Row): (log: seq<Command>)
    ensures AllSound(log) && NoSelect(log)
  {
    if row.expire.Some? then [PExpireAt(row.key, row.expire.value)] else []
  }

  function RowsLog(rows: seq<Row>): (log: seq<Command>)
    requires RowsSound(rows)
    ensures AllSound(log) && NoSelect(log)
    decreases |rows|
  {
    if |rows| == 0 then [] else RowValue(rows[0]) + RowExpire(rows[0]) + RowsLog(rows[1..])
  }

  predicate DbsSound(dbs: seq<seq<Row>>)
  {
    forall j | 0 <= j < |dbs| :: RowsSound(dbs[j])
  }

  /** The log of databases `j` and up; an empty one is not even selected. */
  function DbsLog(dbs: seq<seq<Row>>, j: nat): (log: seq<Command>)
    requires DbsSound(dbs) && j <= |dbs|
    ensures AllSound(log)
    decreases |dbs| - j
  {
    if j == |dbs| then []
    else DbLog(dbs[j], j) + DbsLog(dbs, j + 1)
  }

  lemma RowReplay(db: Db, row: Row)
    requires RowSound(row) && row.key !in db
    ensures OnDbAll(db, RowValue(row) + RowExpire(row)) == db[row.key := Made(row)]
  {
    hide AddAll;
    OnDbAllAppend(db, RowValue(row), RowExpire(row));
    var db1 := db[row.key := Made(row).(expire := None)];
    if row.shape.Whole? {
      TwoEntries(db, RowValue(row)[0], RowValue(row)[0]);
    } else {
      AddsReplay(db, row.shape.kind, row.key, Empty(row.shape.kind), row.shape.items);
    }
    assert OnDbAll(db, RowValue(row)) == db1;
    if row.expire.Some? {
      TwoEntries(db1, RowExpire(row)[0], RowExpire(row)[0]);
    }
  }

  /** `db` and the rows from `i` on. */
  ghost predicate PartOf(db: Db, rows: seq<Row>, i: nat, whole: Db)
  {
    && db.Keys == (set j | 0 <= j < i && j < |rows| :: rows[j].key)
    && (forall k | k in db :: k in whole && db[k] == whole[k])
  }

  lemma {:induction false} RowsReplay(db: Db, rows: seq<Row>, i: nat, whole: Db)
    requires RowsSound(rows) && Walks(rows, whole) && i <= |rows| && PartOf(db, rows, i, whole)
    ensures OnDbAll(db, RowsLog(rows[i..])) == whole
    decreases |rows| - i
  {
    hide PartOf, Walks, RowValue, RowExpire, Made, OnDb;
    PartNext(db, rows, i, whole);
    if i < |rows| {
      var row, more := rows[i], rows[i..][1..];
      assert more == rows[i + 1..];
      OnDbAllAppend(db, RowValue(row) + RowExpire(row), RowsLog(more));
      RowReplay(db, row);
      RowsReplay(db[row.key := Made(row)], rows, i + 1, whole);
    }
  }

  lemma PartNext(db: Db, rows: seq<Row>, i: nat, whole: Db)
    requires Walks(rows, whole) && i <= |rows| && PartOf(db, rows, i, whole)
    ensures i == |rows| ==> db == whole
    ensures i < |rows| ==> rows[i].key !in db && PartOf(db[rows[i].key := Made(rows[i])], rows, i + 1, whole)
  {
    hide Made;
    if i == |rows| {
      assert forall k :: k in whole ==> k in db;
    }
  }

  /** The walk over all databases. */
  ghost predicate WalksAll(dbs: seq<seq<Row>>, ks: Keyspace)
  {
    && (forall j | 0 <= j < |dbs| :: Walks(dbs[j], DbOf(ks, j)))
    && (forall d | d in ks && d >= |dbs| :: ks[d] == map[])
  }

  /** The part of the log for database `j`. */
  function DbLog(rows: seq<Row>, j: nat): (log: seq<Command>)
    requires RowsSound(rows)
    ensures AllSound(log)
  {
    if |rows| == 0 then [] else [Select(j)] + RowsLog(rows)
  }

  lemma DbReplay(l: Loader, rows: seq<Row>, j: nat, db: Db)
    requires Walks(rows, db) && DbOf(l.ks, j) == map[]
    ensures forall d: nat :: DbOf(Replay(l, DbLog(rows, j)).ks, d) == if d == j then db else DbOf(l.ks, d)
  {
    if |rows| == 0 {
      assert db == map[];
    } else {
      hide Walks, RowsLog;
      ReplayAppend(l, [Select(j)], RowsLog(rows));
      var l1 := Exec(l, Select(j));
      assert Replay(l, [Select(j)]) == Replay(l1, [Select(j)][1..]) == l1;
      ReplayHere(l1, RowsLog(rows));
      assert rows[0..] == rows;
      RowsReplay(map[], rows, 0, db);
    }
  }

  lemma {:induction false} DbsReplay(l: Loader, dbs: seq<seq<Row>>, j: nat, ks: Keyspace)
    requires WalksAll(dbs, ks) && j <= |dbs|
    requires forall d: nat :: DbOf(l.ks, d) == if d < j then DbOf(ks, d) else map[]
    ensures DbsSound(dbs) && Same(Replay(l, DbsLog(dbs, j)).ks, ks)
    decreases |dbs| - j
  {
    if j < |dbs| {
      hide RowsLog, DbLog;
      ReplayAppend(l, DbLog(dbs[j], j), DbsLog(dbs, j + 1));
      DbReplay(l, dbs[j], j, DbOf(ks, j));
      DbsReplay(Replay(l, DbLog(dbs[j], j)), dbs, j + 1, ks);
    }
  }

  /** Whatever order the walk takes, replaying the rewritten log from nothing rebuilds the
    * keyspace: values, expiries and databases. */
  lemma RewriteReplays(dbs: seq<seq<Row>>, ks: Keyspace)
    requires WalksAll(dbs, ks)
    ensures DbsSound(dbs) && Same(Replay(EMPTY, DbsLog(dbs, 0)).ks, ks)
  {
    DbsReplay(EMPTY, dbs, 0, ks);
  }

  /** Write one key: its value and then its expiry. */
  method RewriteRow(out: Bytes, row: Row) returns (r: Bytes)
    requires RowSound(row)
    ensures r == out + Encode(RowValue(row) + RowExpire(row))
  {
    hide Encode, Adds, Package.Command;
    EncodeAppend(RowValue(row), RowExpire(row));
    EncodeNone();
    if row.shape.Whole? {
      EncodeOne(SetText(row.key, row.shape.text));
      r := CatGenericCommand(out, [SET, row.key, row.shape.text]);
    } else {
      var items := RewriteItems(row.shape.kind, row.key, row.shape.items);
      r := out + items;
    }
    if row.expire.Some? {
      EncodeOne(PExpireAt(row.key, row.expire.value));
      r := CatGenericCommand(r, [PEXPIREAT, row.key, DecInt(row.expire.value)]);
    }
  }

  /** Write one database, with the SELECT before it, unless it is empty. */
  method RewriteDb(out: Bytes, rows: seq<Row>, j: nat) returns (r: Bytes)
    requires RowsSound(rows)
    ensures r == out + Encode(DbLog(rows, j))
  {
    hide Encode, Package.Command, RowValue, RowExpire;
    EncodeNone();
    if |rows| == 0 { return out; }
    EncodeAppend([Select(j)], RowsLog(rows));
    EncodeOne(Select(j));
    r := CatGenericCommand(out, [SELECT, Dec(j)]);
    ghost var start := r;
    var i := 0;
    assert rows[0..] == rows;
    while i < |rows|
      invariant i <= |rows| && r + Encode(RowsLog(rows[i..])) == start + Encode(RowsLog(rows))
    {
      assert rows[i..][1..] == rows[i + 1..];
      EncodeAppend(RowValue(rows[i]) + RowExpire(rows[i]), RowsLog(rows[i + 1..]));
      r := RewriteRow(r, rows[i]);
      i := i + 1;
    }
    assert RowsLog(rows[i..]) == [] && r + [] == r;
    Assoc(out, Encode([Select(j)]), Encode(RowsLog(rows)));
  }

  /** Write every key of every database. */
  method RewriteAppendOnlyFile(dbs: seq<seq<Row>>) returns (out: Bytes)
    requires DbsSound(dbs)
    ensures out == Encode(DbsLog(dbs, 0))
  {
    hide Encode, DbLog;
    out := [];
    EncodeNone();
    for j := 0 to |dbs|
      invariant out + Encode(DbsLog(dbs, j)) == Encode(DbsLog(dbs, 0))
    {
      EncodeAppend(DbLog(dbs[j], j), DbsLog(dbs, j + 1));
      out := RewriteDb(out, dbs[j], j);
    }
    assert DbsLog(dbs, |dbs|) == [] && out + [] == out;
  }
}
