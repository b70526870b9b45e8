/** The append only log: what the server does to its keyspace, what it writes down for it,
  * and what reading the log back does. */
module AofLog {
  import opened Seqs

  /** A value. A score is the text it is written as. */
  datatype Object =
    | Text(value: Bytes)
    | List(items: seq<Bytes>)
    | Set(members: set<Bytes>)
    | ZSet(scores: map<Bytes, Bytes>)
    | Hash(fields: map<Bytes, Bytes>)

  /** A key's value and the time in milliseconds at which it expires, if it does. */
  datatype Entry = Entry(data: Object, expire: Option<int>)

  type Db = map<Bytes, Entry>

  /** All databases; a missing one is empty. */
  type Keyspace = map<nat, Db>

  function DbOf(ks: Keyspace, d: nat): Db
  {
    if d in ks then ks[d] else map[]
  }

  /** Keyspaces with the same keys in the same databases. */
  ghost predicate Same(a: Keyspace, b: Keyspace)
  {
    forall d :: DbOf(a, d) == DbOf(b, d)
  }

  // ---- Commands as they stand in the log ----

  /** Commands that add to a collection, each with its own shape of item: an element, a
    * member, a score and a member, a field and its value. */
  datatype Kind = RPush | SAdd | ZAdd | HMSet

  function Width(kind: Kind): (w: nat)
    ensures 1 <= w <= 2
  {
    if kind.RPush? || kind.SAdd? then 1 else 2
  }

  datatype Command =
    | Select(db: nat)
    | SetText(key: Bytes, value: Bytes)
    | PExpireAt(key: Bytes, when: int)
    | Del(keys: seq<Bytes>)
    | Add(kind: Kind, key: Bytes, items: seq<seq<Bytes>>)
    | TimeFlag(ms: int)

  predicate OfKind(kind: Kind, o: Object)
  {
    match kind
    case RPush => o.List?
    case SAdd => o.Set?
    case ZAdd => o.ZSet?
    case HMSet => o.Hash?
  }

  function Empty(kind: Kind): (o: Object)
    ensures OfKind(kind, o)
  {
    match kind
    case RPush => List([])
    case SAdd => Set({})
    case ZAdd => ZSet(map[])
    case HMSet => Hash(map[])
  }

  predicate Sized(kind: Kind, items: seq<seq<Bytes>>)
  {
    forall i | 0 <= i < |items| :: |items[i]| == Width(kind)
  }

  function AddItem(kind: Kind, o: Object, item: seq<Bytes>): (r: Object)
    requires OfKind(kind, o) && |item| == Width(kind)
    ensures OfKind(kind, r)
  {
    match kind
    case RPush => List(o.items + [item[0]])
    case SAdd => Set(o.members + {item[0]})
    case ZAdd => ZSet(o.scores[item[1] := item[0]])
    case HMSet => Hash(o.fields[item[0] := item[1]])
  }

  function AddAll(kind: Kind, o: Object, items: seq<seq<Bytes>>): (r: Object)
    requires OfKind(kind, o) && Sized(kind, items)
    ensures OfKind(kind, r)
    decreases |items|
  {
    if |items| == 0 then o else AddAll(kind, AddItem(kind, o, items[0]), items[1..])
  }

  /** A command with something to work on. */
  predicate Sound(c: Command)
  {
    && (c.Add? ==> |c.items| > 0 && Sized(c.kind, c.items))
    && (c.Del? ==> |c.keys| > 0)
  }

  function ObjectAt(db: Db, key: Bytes): Option<Object>
  {
    if key in db then Some(db[key].data) else None
  }

  /** The value a collection command leaves, given the one there before, if any; none when
    * that one is of another type. */
  function Grown(c: Command, before: Option<Object>): Option<Object>
    requires c.Add? && Sound(c)
  {
    if before.None? then Some(AddAll(c.kind, Empty(c.kind), c.items))
    else if OfKind(c.kind, before.value) then Some(AddAll(c.kind, before.value, c.items))
    else None
  }

  /** One command on its database. A collection command makes a missing key, keeps the
    * expiry of a present one and leaves one of another type alone. While loading, an expiry
    * in the past is set like any other and deletes nothing. */
  function OnDb(db: Db, c: Command): Db
    requires Sound(c)
  {
    if c.SetText? then db[c.key := Entry(Text(c.value), None)]
    else if c.PExpireAt? then if c.key in db then db[c.key := db[c.key].(expire := Some(c.when))] else db
    else if c.Del? then db - (set k | k in c.keys)
    else if c.Add? && Grown(c, ObjectAt(db, c.key)).Some? then
      db[c.key := Entry(Grown(c, ObjectAt(db, c.key)).value, if c.key in db then db[c.key].expire else None)]
    else db
  }

  /** A reader of the log: its keyspace and the database it has selected. */
  datatype Loader = Loader(ks: Keyspace, db: nat)

  function Exec(l: Loader, c: Command): Loader
    requires Sound(c)
  {
    if c.Select? then l.(db := c.db) else l.(ks := l.ks[l.db := OnDb(DbOf(l.ks, l.db), c)])
  }

  predicate AllSound(log: seq<Command>)
  {
    forall i | 0 <= i < |log| :: Sound(log[i])
  }

  function Replay(l: Loader, log: seq<Command>): Loader
    requires AllSound(log)
    decreases |log|
  {
    if |log| == 0 then l else Replay(Exec(l, log[0]), log[1..])
  }

  lemma {:induction false} ReplayAppend(l: Loader, a: seq<Command>, b: seq<Command>)
    requires AllSound(a) && AllSound(b)
    ensures Replay(l, a + b) == Replay(Replay(l, a), b)
    decreases |a|
  {
    if |a| == 0 {
      assert a + b == b;
    } else {
      assert (a + b)[0] == a[0] && (a + b)[1..] == a[1..] + b;
      ReplayAppend(Exec(l, a[0]), a[1..], b);
    }
  }

  const EMPTY := Loader(map[], 0)

  // ---- What clients ask for ----

  datatype Unit = Seconds | Milliseconds

  function Millis(n: int, unit: Unit): int
  {
    if unit.Seconds? then n * 1000 else n
  }

  /** NX writes only a missing key, XX only an existing one. */
  datatype Condition = Always | IfMissing | IfPresent

  /** SET with its options, SETEX and PSETEX, EXPIRE and PEXPIRE, EXPIREAT and PEXPIREAT, DEL (also
    * for a key found expired), and the commands that add to a collection. */
  datatype Request =
    | SetRequest(key: Bytes, value: Bytes, condition: Condition, expiry: Option<(int, Unit)>)
    | SetExRequest(key: Bytes, ttl: int, unit: Unit, value: Bytes)
    | ExpireRequest(key: Bytes, ttl: int, unit: Unit)
    | ExpireAtRequest(key: Bytes, when: int, unit: Unit)
    | DelRequest(keys: seq<Bytes>)
    | GrowRequest(command: Command)

  /** What the command table demands of a request: something to delete, something to add. */
  predicate Plain(r: Request)
  {
    (r.DelRequest? ==> |r.keys| > 0) && (r.GrowRequest? ==> r.command.Add? && Sound(r.command))
  }

  /** The clock as a request reads it: to make a relative time absolute, to see whether an
    * expiry has passed, and again when the log entry is written. */
  datatype Clock = Clock(now: int, seen: int, later: int)

  /** Set an expiry on a key of the live keyspace: one that has passed deletes the key. */
  function ExpireLive(db: Db, key: Bytes, when: int, seen: int): Db
  {
    if key !in db then db
    else if when <= seen then db - {key}
    else db[key := db[key].(expire := Some(when))]
  }

  /** Whether SET is refused: a time to live that is not positive, or its condition. */
  predicate Refused(db: Db, key: Bytes, condition: Condition, ttl: Option<(int, Unit)>)
  {
    || (ttl.Some? && ttl.value.0 <= 0)
    || (condition.IfMissing? && key in db)
    || (condition.IfPresent? && key !in db)
  }

  /** What a request does to its database. */
  function Serve(db: Db, r: Request, t: Clock): Db
    requires Plain(r)
  {
    match r
    case SetRequest(key, value, condition, ttl) =>
      if Refused(db, key, condition, ttl) then db
      else db[key := Entry(Text(value), if ttl.Some? then Some(t.now + Millis(ttl.value.0, ttl.value.1)) else None)]
    case SetExRequest(key, ttl, unit, value) =>
      if ttl <= 0 then db else db[key := Entry(Text(value), Some(t.now + Millis(ttl, unit)))]
    case ExpireRequest(key, ttl, unit) => ExpireLive(db, key, t.now + Millis(ttl, unit), t.seen)
    case ExpireAtRequest(key, when, unit) => ExpireLive(db, key, Millis(when, unit), t.seen)
    case DelRequest(keys) => db - (set k | k in keys)
    case GrowRequest(command) => OnDb(db, command)
  }

  /** Whether a request counts as a change, so that it goes to the log. */
  predicate Logged(db: Db, r: Request)
    requires Plain(r)
  {
    match r
    case SetRequest(key, value, condition, ttl) => !Refused(db, key, condition, ttl)
    case SetExRequest(_, ttl, _, _) => ttl > 0
    case ExpireRequest(key, _, _) => key in db
    case ExpireAtRequest(key, _, _) => key in db
    case DelRequest(keys) => exists k | k in keys :: k in db
    case GrowRequest(c) => OnDb(db, c) != db || (c.kind.HMSet? && c.key in db && db[c.key].data.Hash?)
  }

  // ---- What is written for them ----

  predicate NoSelect(log: seq<Command>)
  {
    forall i | 0 <= i < |log| :: !log[i].Select?
  }

  /** An expiry that was seen to have passed was turned into DEL. */
  function TranslateExpire(key: Bytes, served: int, seen: int, written: int): seq<Command>
  {
    if served <= seen then [Del([key])] else [PExpireAt(key, written)]
  }

  /** The log entries for a request. A relative time is made absolute against the clock as it
    * reads when the entry is written. */
  function Translate(r: Request, t: Clock): (log: seq<Command>)
    requires Plain(r)
    ensures AllSound(log) && NoSelect(log)
  {
    match r
    case SetRequest(key, value, _, ttl) =>
      [SetText(key, value)] + (if ttl.Some? then [PExpireAt(key, Millis(ttl.value.0, ttl.value.1) + t.later)] else [])
    case SetExRequest(key, ttl, unit, value) => [SetText(key, value), PExpireAt(key, Millis(ttl, unit) + t.later)]
    case ExpireRequest(key, ttl, unit) =>
      TranslateExpire(key, t.now + Millis(ttl, unit), t.seen, Millis(ttl, unit) + t.later)
    case ExpireAtRequest(key, when, unit) => TranslateExpire(key, Millis(when, unit), t.seen, Millis(when, unit))
    case DelRequest(keys) => [Del(keys)]
    case GrowRequest(command) => [command]
  }

  /** The server: its keyspace, and the database its log has selected last, if any. */
  datatype Server = Server(ks: Keyspace, selected: Option<nat>)

  /** A request for database `db`, the clock it reads, and the time stamp logged behind it when
    * one is due. */
  datatype Event = Event(db: nat, request: Request, clock: Clock, stamp: Option<int>)

  /** What feeding the log appends: a SELECT if the database changes, the entries, and the
    * stamp. */
  function Fed(selected: Option<nat>, e: Event): (log: seq<Command>)
    requires Plain(e.request)
    ensures AllSound(log)
  {
    (if selected == Some(e.db) then [] else [Select(e.db)])
    + (Translate(e.request, e.clock) + (if e.stamp.Some? then [TimeFlag(e.stamp.value)] else []))
  }

  /** What the log gains. */
  function Entries(s: Server, e: Event): (log: seq<Command>)
    requires Plain(e.request)
    ensures AllSound(log)
  {
    if Logged(DbOf(s.ks, e.db), e.request) then Fed(s.selected, e) else []
  }

  function After(s: Server, e: Event): Server
    requires Plain(e.request)
  {
    Server(s.ks[e.db := Serve(DbOf(s.ks, e.db), e.request, e.clock)],
           if Logged(DbOf(s.ks, e.db), e.request) then Some(e.db) else s.selected)
  }

  /** The log of a run, and the server after it. */
  function Log(s: Server, es: seq<Event>): (log: seq<Command>)
    requires AllPlain(es)
    ensures AllSound(log)
    decreases |es|
  {
    if |es| == 0 then [] else Entries(s, es[0]) + Log(After(s, es[0]), es[1..])
  }

  function RunAll(s: Server, es: seq<Event>): Server
    requires AllPlain(es)
    decreases |es|
  {
    if |es| == 0 then s else RunAll(After(s, es[0]), es[1..])
  }

  predicate AllPlain(es: seq<Event>)
  {
    forall i | 0 <= i < |es| :: Plain(es[i].request)
  }

  // ---- How late the log's expiries are ----

  /** How far the logged expiry of each key lies past the live one; a missing key is on time. */
  type Slips = map<(nat, Bytes), int>

  function Slip(slips: Slips, d: nat, key: Bytes): int
  {
    if (d, key) in slips then slips[(d, key)] else 0
  }

  /** The key whose expiry a request sets, and whether it does so from the clock. */
  function Timed(r: Request): Option<(Bytes, bool)>
  {
    match r
    case SetRequest(key, _, _, ttl) => if ttl.Some? then Some((key, true)) else None
    case SetExRequest(key, _, _, _) => Some((key, true))
    case ExpireRequest(key, _, _) => Some((key, true))
    case ExpireAtRequest(key, _, _) => Some((key, false))
    case DelRequest(_) => None
    case GrowRequest(_) => None
  }

  /** The last request that set a key's expiry decides how late it is: by the time between
    * serving and logging if it was relative, not at all otherwise. */
  function Slipped(slips: Slips, s: Server, e: Event): Slips
    requires Plain(e.request)
  {
    if !Logged(DbOf(s.ks, e.db), e.request) || Timed(e.request).None? then slips
    else slips[(e.db, Timed(e.request).value.0) := if Timed(e.request).value.1 then e.clock.later - e.clock.now else 0]
  }

  function SlipsOf(slips: Slips, s: Server, es: seq<Event>): Slips
    requires AllPlain(es)
    decreases |es|
  {
    if |es| == 0 then slips else SlipsOf(Slipped(slips, s, es[0]), After(s, es[0]), es[1..])
  }

  predicate EntryAgrees(read: Entry, live: Entry, slip: int)
  {
    && read.data == live.data
    && read.expire == if live.expire.Some? then Some(live.expire.value + slip) else None
  }

  /** The same keys, the same values, and each expiry late by its slip. */
  ghost predicate DbAgrees(read: Db, live: Db, slips: Slips, d: nat)
  {
    && read.Keys == live.Keys
    && forall k :: k in live ==> EntryAgrees(read[k], live[k], Slip(slips, d, k))
  }

  /** A loader that has read the log so far is where the server is. */
  ghost predicate CaughtUp(l: Loader, s: Server, slips: Slips)
  {
    && (forall d :: DbAgrees(DbOf(l.ks, d), DbOf(s.ks, d), slips, d))
    && (s.selected.Some? ==> l.db == s.selected.value)
  }

  // ---- One database through a piece of log ----

  function OnDbAll(db: Db, log: seq<Command>): Db
    requires AllSound(log)
    decreases |log|
  {
    if |log| == 0 then db else OnDbAll(OnDb(db, log[0]), log[1..])
  }

  /** Without a SELECT in it, a piece of log works on the selected database alone. */
  lemma {:induction false} ReplayHere(l: Loader, log: seq<Command>)
    requires NoSelect(log) && AllSound(log)
    ensures Replay(l, log).db == l.db
    ensures forall d :: DbOf(Replay(l, log).ks, d) == if d == l.db then OnDbAll(DbOf(l.ks, d), log) else DbOf(l.ks, d)
    decreases |log|
  {
    if |log| > 0 {
      ReplayHere(Exec(l, log[0]), log[1..]);
    }
  }

  lemma TwoEntries(db: Db, a: Command, b: Command)
    requires Sound(a) && Sound(b)
    ensures OnDbAll(db, [a]) == OnDb(db, a)
    ensures OnDbAll(db, [a, b]) == OnDb(OnDb(db, a), b)
  {
    assert [a, b][1..] == [b] && [b][1..] == [];
    assert OnDbAll(OnDb(db, a), [b]) == OnDbAll(OnDb(OnDb(db, a), b), []);
  }

  lemma GrownAgrees(read: Db, live: Db, slips: Slips, d: nat, c: Command)
    requires DbAgrees(read, live, slips, d) && c.Add? && Sound(c)
    ensures DbAgrees(OnDb(read, c), OnDb(live, c), slips, d)
  {
    hide Grown;
    assert c.key in live ==> EntryAgrees(read[c.key], live[c.key], Slip(slips, d, c.key));
    assert ObjectAt(read, c.key) == ObjectAt(live, c.key);
  }

  lemma ExpiredAgrees(read: Db, live: Db, slips: Slips, d: nat, key: Bytes, when: int, slip: int, seen: int)
    requires DbAgrees(read, live, slips, d) && key in live
    ensures DbAgrees(OnDbAll(read, TranslateExpire(key, when, seen, when + slip)), ExpireLive(live, key, when, seen),
                     slips[(d, key) := slip], d)
  {
    var slips' := slips[(d, key) := slip];
    var t := TranslateExpire(key, when, seen, when + slip);
    TwoEntries(read, t[0], t[0]);
    assert t == [t[0]];
    assert (set k | k in [key]) == {key};
    assert forall k | k != key :: Slip(slips', d, k) == Slip(slips, d, k);
  }

  lemma WrittenAgrees(read: Db, live: Db, slips: Slips, d: nat, key: Bytes, value: Bytes, when: int, slip: int)
    requires DbAgrees(read, live, slips, d)
    ensures DbAgrees(OnDb(read, SetText(key, value)), live[key := Entry(Text(value), None)], slips, d)
    ensures DbAgrees(OnDb(OnDb(read, SetText(key, value)), PExpireAt(key, when + slip)),
                     live[key := Entry(Text(value), Some(when))], slips[(d, key) := slip], d)
  {
    assert forall k | k != key :: Slip(slips[(d, key) := slip], d, k) == Slip(slips, d, k);
  }

  /** One request: what its entries do to a loader's database agrees with what it did. */
  lemma ServedAsLogged(read: Db, s: Server, slips: Slips, e: Event)
    requires Plain(e.request) && Logged(DbOf(s.ks, e.db), e.request)
    requires DbAgrees(read, DbOf(s.ks, e.db), slips, e.db)
    ensures DbAgrees(OnDbAll(read, Translate(e.request, e.clock)), Serve(DbOf(s.ks, e.db), e.request, e.clock),
                     Slipped(slips, s, e), e.db)
  {
    hide OnDb, DbAgrees, Grown;
    var live := DbOf(s.ks, e.db);
    var t := Translate(e.request, e.clock);
    match e.request
    case SetRequest(key, value, condition, expiry) =>
      if expiry.Some? {
        TwoEntries(read, t[0], t[1]);
        assert t == [t[0], t[1]];
        WrittenAgrees(read, live, slips, e.db, key, value, e.clock.now + Millis(expiry.value.0, expiry.value.1),
          e.clock.later - e.clock.now);
      } else {
        TwoEntries(read, t[0], t[0]);
        assert t == [t[0]];
        WrittenAgrees(read, live, slips, e.db, key, value, 0, 0);
      }
    case SetExRequest(key, ttl, unit, value) =>
      TwoEntries(read, t[0], t[1]);
      assert t == [t[0], t[1]];
      WrittenAgrees(read, live, slips, e.db, key, value, e.clock.now + Millis(ttl, unit), e.clock.later - e.clock.now);
    case ExpireRequest(key, ttl, unit) =>
      ExpiredAgrees(read, live, slips, e.db, key, e.clock.now + Millis(ttl, unit), e.clock.later - e.clock.now,
        e.clock.seen);
    case ExpireAtRequest(key, when, unit) =>
      ExpiredAgrees(read, live, slips, e.db, key, Millis(when, unit), 0, e.clock.seen);
    case DelRequest(keys) =>
      TwoEntries(read, t[0], t[0]);
      DeletedAgrees(read, live, slips, e.db, keys);
    case GrowRequest(c) =>
      TwoEntries(read, t[0], t[0]);
      GrownAgrees(read, live, slips, e.db, c);
  }

  lemma DeletedAgrees(read: Db, live: Db, slips: Slips, d: nat, keys: seq<Bytes>)
    requires DbAgrees(read, live, slips, d) && |keys| > 0
    ensures DbAgrees(OnDb(read, Del(keys)), live - (set k | k in keys), slips, d)
  {
  }

  /** Nothing logged means nothing changed. */
  lemma UnloggedIsUnchanged(db: Db, r: Request, t: Clock)
    requires Plain(r) && !Logged(db, r)
    ensures Serve(db, r, t) == db
  {
    hide OnDb;
    if r.DelRequest? {
      assert db - (set k | k in r.keys) == db;
    }
  }

  lemma StampDoesNothing(l: Loader, stamp: seq<Command>)
    requires |stamp| <= 1 && AllSound(stamp) && (|stamp| == 1 ==> stamp[0].TimeFlag?)
    ensures Replay(l, stamp).db == l.db
    ensures forall d :: DbOf(Replay(l, stamp).ks, d) == DbOf(l.ks, d)
  {
    if |stamp| == 1 {
      assert Replay(l, stamp) == Replay(Exec(l, stamp[0]), stamp[1..]);
    }
  }

  /** A database a request does not name is as late as before. */
  lemma OthersAgree(read: Db, live: Db, slips: Slips, s: Server, e: Event, d: nat)
    requires d != e.db && Plain(e.request) && DbAgrees(read, live, slips, d)
    ensures DbAgrees(read, live, Slipped(slips, s, e), d)
  {
    assert forall k :: Slip(Slipped(slips, s, e), d, k) == Slip(slips, d, k);
  }

  /** One event: a loader that was caught up is caught up again. */
  lemma EventKeepsUp(l: Loader, s: Server, slips: Slips, e: Event)
    requires CaughtUp(l, s, slips) && Plain(e.request)
    ensures CaughtUp(Replay(l, Entries(s, e)), After(s, e), Slipped(slips, s, e))
  {
    hide OnDb, DbAgrees, Serve, Translate, Logged;
    if !Logged(DbOf(s.ks, e.db), e.request) {
      UnloggedIsUnchanged(DbOf(s.ks, e.db), e.request, e.clock);
    } else {
      var first := if s.selected == Some(e.db) then [] else [Select(e.db)];
      var middle := Translate(e.request, e.clock);
      var last := if e.stamp.Some? then [TimeFlag(e.stamp.value)] else [];
      ReplayAppend(l, first, middle + last);
      var l1 := Replay(l, first);
      assert l1 == Loader(l.ks, e.db) by {
        if |first| > 0 { assert Replay(l, first) == Replay(Exec(l, first[0]), first[1..]); }
      }
      ReplayAppend(l1, middle, last);
      ServedAsLogged(DbOf(l.ks, e.db), s, slips, e);
      ReplayHere(l1, middle);
      var l2 := Replay(l1, middle);
      StampDoesNothing(l2, last);
      forall d | d != e.db ensures DbAgrees(DbOf(l2.ks, d), DbOf(s.ks, d), Slipped(slips, s, e), d) {
        OthersAgree(DbOf(l.ks, d), DbOf(s.ks, d), slips, s, e, d);
      }
    }
  }

  // ---- Whole runs ----

  /** Whatever requests came, in whatever databases, a loader that reads what the server
    * logged for them ends with the server's keys and values and the log's selected database,
    * and with each expiry late by its slip. */
  lemma {:induction false} LogReplays(l: Loader, s: Server, slips: Slips, es: seq<Event>)
    requires CaughtUp(l, s, slips) && AllPlain(es)
    ensures CaughtUp(Replay(l, Log(s, es)), RunAll(s, es), SlipsOf(slips, s, es))
    decreases |es|
  {
    if |es| > 0 {
      hide CaughtUp, Entries, After, Slipped;
      ReplayAppend(l, Entries(s, es[0]), Log(After(s, es[0]), es[1..]));
      EventKeepsUp(l, s, slips, es[0]);
      LogReplays(Replay(l, Entries(s, es[0])), After(s, es[0]), Slipped(slips, s, es[0]), es[1..]);
    }
  }

  /** Every entry is written within the millisecond for which its request was served. */
  predicate Steady(es: seq<Event>)
  {
    forall i | 0 <= i < |es| :: es[i].clock.later == es[i].clock.now
  }

  /** Entries are written after their requests are served. */
  predicate Causal(es: seq<Event>)
  {
    forall i | 0 <= i < |es| :: es[i].clock.later >= es[i].clock.now
  }

  ghost predicate NoneLate(slips: Slips)
  {
    forall x :: x in slips ==> slips[x] == 0
  }

  ghost predicate NoneEarly(slips: Slips)
  {
    forall x :: x in slips ==> slips[x] >= 0
  }

  lemma {:induction false} SlipsBounded(slips: Slips, s: Server, es: seq<Event>)
    requires AllPlain(es)
    ensures Steady(es) && NoneLate(slips) ==> NoneLate(SlipsOf(slips, s, es))
    ensures Causal(es) && NoneEarly(slips) ==> NoneEarly(SlipsOf(slips, s, es))
    decreases |es|
  {
    if |es| > 0 {
      hide Logged, After;
      SlipsBounded(Slipped(slips, s, es[0]), After(s, es[0]), es[1..]);
      assert Steady(es) ==> es[0].clock.later == es[0].clock.now && Steady(es[1..]);
      assert Causal(es) ==> es[0].clock.later >= es[0].clock.now && Causal(es[1..]);
    }
  }

  lemma AgreeingIsSame(l: Loader, s: Server, slips: Slips)
    requires CaughtUp(l, s, slips) && NoneLate(slips)
    ensures Same(l.ks, s.ks)
  {
    forall d ensures DbOf(l.ks, d) == DbOf(s.ks, d) {
      var read, live := DbOf(l.ks, d), DbOf(s.ks, d);
      assert DbAgrees(read, live, slips, d);
      assert forall k | k in live :: EntryAgrees(read[k], live[k], Slip(slips, d, k)) && Slip(slips, d, k) == 0;
    }
  }

  /** A log from the start of an empty server rebuilds it. */
  lemma RestartRebuilds(es: seq<Event>)
    requires AllPlain(es) && Steady(es)
    ensures Same(Replay(EMPTY, Log(Server(map[], None), es)).ks, RunAll(Server(map[], None), es).ks)
  {
    var s := Server(map[], None);
    assert CaughtUp(EMPTY, s, map[]);
    LogReplays(EMPTY, s, map[], es);
    SlipsBounded(map[], s, es);
    AgreeingIsSame(Replay(EMPTY, Log(s, es)), RunAll(s, es), SlipsOf(map[], s, es));
  }

  /** An expiry comes back from the log exactly when its slip is nothing, and when entries
    * are never written before they are served it never comes back early. */
  lemma ExpiryComesBack(es: seq<Event>, d: nat, key: Bytes)
    requires AllPlain(es)
    requires key in DbOf(RunAll(Server(map[], None), es).ks, d)
    ensures var read := DbOf(Replay(EMPTY, Log(Server(map[], None), es)).ks, d);
            var live := DbOf(RunAll(Server(map[], None), es).ks, d);
            var slip := Slip(SlipsOf(map[], Server(map[], None), es), d, key);
            && key in read && read[key].data == live[key].data
            && (read[key].expire == live[key].expire <==> live[key].expire.None? || slip == 0)
            && (Causal(es) && live[key].expire.Some? ==>
                 read[key].expire.Some? && read[key].expire.value >= live[key].expire.value)
  {
    var s := Server(map[], None);
    assert CaughtUp(EMPTY, s, map[]);
    LogReplays(EMPTY, s, map[], es);
    SlipsBounded(map[], s, es);
    assert DbAgrees(DbOf(Replay(EMPTY, Log(s, es)).ks, d), DbOf(RunAll(s, es).ks, d), SlipsOf(map[], s, es), d);
  }

  /** The clock is read once to serve SET with a time to live and again to log it: a
    * millisecond between the two and the key comes back a millisecond late. */
  lemma ExpiryCanSlip(key: Bytes, value: Bytes)
    ensures var es := [Event(0, SetRequest(key, value, Always, Some((1, Seconds))), Clock(0, 0, 1), None)];
            && DbOf(RunAll(Server(map[], None), es).ks, 0) == map[key := Entry(Text(value), Some(1000))]
            && DbOf(Replay(EMPTY, Log(Server(map[], None), es)).ks, 0) == map[key := Entry(Text(value), Some(1001))]
  {
    var s := Server(map[], None);
    var e := Event(0, SetRequest(key, value, Always, Some((1, Seconds))), Clock(0, 0, 1), None);
    assert [e][1..] == [];
    assert RunAll(s, [e]) == RunAll(After(s, e), []);
    assert Log(s, [e]) == Entries(s, e) + Log(After(s, e), []) == Entries(s, e);
    var log := [Select(0), SetText(key, value), PExpireAt(key, 1001)];
    assert Entries(s, e) == log;
    assert log[1..] == [SetText(key, value), PExpireAt(key, 1001)];
    assert log[1..][1..] == [PExpireAt(key, 1001)];
    assert log[1..][1..][1..] == [];
    assert Replay(EMPTY, log) == Replay(Exec(EMPTY, log[0]), log[1..])
        == Replay(Exec(Exec(EMPTY, log[0]), log[1]), log[1..][1..])
        == Replay(Exec(Exec(Exec(EMPTY, log[0]), log[1]), log[2]), []);
  }
}
