/** Spreading keys over servers: a continuum of points, and plain remainders. */
module Ketama {
  import opened Seqs
  import opened Resp

  const POINTS_PER_SERVER := 160
  const EXTRA_SERVERS := 10
  const MINUS_SIGN: byte := 45

  datatype Server = Server(name: Bytes, weight: nat)

  function Total(servers: seq<Server>): nat
  {
    if |servers| == 0 then 0 else Total(servers[..|servers| - 1]) + servers[|servers| - 1].weight
  }

  // ---- How many points a server gets ----

  /** How many names a server gets, and four points for each: the whole fortieth parts of its
    * share of `n` servers. */
  function Hosts(n: nat, weight: nat, total: nat): nat
    requires total > 0
  {
    40 * n * weight / total
  }

  function AllHosts(servers: seq<Server>, n: nat, total: nat): nat
    requires total > 0
  {
    if |servers| == 0 then 0
    else AllHosts(servers[..|servers| - 1], n, total) + Hosts(n, servers[|servers| - 1].weight, total)
  }

  lemma FloorAdds(a: nat, b: nat, d: nat)
    requires d > 0
    ensures a / d + b / d <= (a + b) / d
  {
    var q := a / d + b / d;
    assert a / d * d <= a && b / d * d <= b;
    assert q * d == a / d * d + b / d * d <= a + b;
    FloorAtLeast(a + b, d, q);
  }

  lemma FloorAtLeast(v: nat, d: nat, q: nat)
    requires d > 0 && q * d <= v
    ensures q <= v / d
  {
    var k := q - v / d;
    assert k * d == q * d - v / d * d <= v % d;
    AtLeast(k, d);
  }

  lemma AtLeast(k: int, d: nat)
    ensures k >= 1 ==> k * d >= d
  {
  }

  lemma FloorAtMost(v: nat, d: nat, q: nat)
    requires d > 0 && v <= q * d
    ensures v / d <= q
  {
    var k := v / d - q;
    assert k * d == v / d * d - q * d <= 0;
    AtLeast(k, d);
  }

  lemma Distribute(c: nat, a: nat, b: nat)
    ensures c * (a + b) == c * a + c * b
  {
  }

  /** Together the servers get no more than their shares. */
  lemma {:induction false} HostsFit(servers: seq<Server>, n: nat, total: nat)
    requires total > 0
    ensures AllHosts(servers, n, total) <= 40 * n * Total(servers) / total
  {
    if |servers| > 0 {
      var front, last := servers[..|servers| - 1], servers[|servers| - 1];
      HostsFit(front, n, total);
      FloorAdds(40 * n * Total(front), 40 * n * last.weight, total);
      Distribute(40 * n, Total(front), last.weight);
    }
  }

  lemma {:induction false} TotalSplit(servers: seq<Server>, i: nat)
    requires i <= |servers|
    ensures Total(servers[..i]) <= Total(servers)
    decreases |servers| - i
  {
    if i < |servers| {
      TotalSplit(servers, i + 1);
      assert servers[..i + 1][..i] == servers[..i];
    } else {
      assert servers[..i] == servers;
    }
  }

  lemma ShareAtMost(c: nat, w: nat, total: nat)
    requires total > 0 && w <= total
    ensures c * w / total <= c
  {
    assert c * w <= c * total;
    FloorAtMost(c * w, total, c);
  }

  // ---- The continuum ----

  /** A point of a server, by its place in the list of servers. */
  datatype Point = Point(index: nat, value: nat)

  const TWO32 := 0x1_0000_0000

  type word = x: nat | x < TWO32

  /** Four numbers of 32 bits from the digest of a name. */
  type Hash = (Bytes, nat) -> word

  /** The names whose digests a server's points are. */
  function Host(name: Bytes, k: nat): Bytes
  {
    name + [MINUS_SIGN] + Dec(k)
  }

  function HostPoints(h: Hash, index: nat, name: Bytes, k: nat): (r: seq<Point>)
    ensures |r| == 4
  {
    seq(4, x requires 0 <= x < 4 => Point(index, h(Host(name, k), x)))
  }

  function ServerPoints(h: Hash, index: nat, name: Bytes, hosts: nat): (r: seq<Point>)
    ensures |r| == 4 * hosts
  {
    if hosts == 0 then [] else ServerPoints(h, index, name, hosts - 1) + HostPoints(h, index, name, hosts - 1)
  }

  /** The points of the first `i` servers. */
  function AllPoints(h: Hash, servers: seq<Server>, i: nat): (r: seq<Point>)
    requires i <= |servers| && Total(servers) > 0
    ensures |r| == 4 * AllHosts(servers[..i], |servers|, Total(servers))
  {
    if i == 0 then []
    else
      assert servers[..i][..i - 1] == servers[..i - 1];
      AllPoints(h, servers, i - 1)
      + ServerPoints(h, i - 1, servers[i - 1].name, Hosts(|servers|, servers[i - 1].weight, Total(servers)))
  }

  /** A name is the server's, a dash and a number. */
  lemma HostSpelled()
    ensures Host(Ascii("10.0.0.1:6379"), 39) == Ascii("10.0.0.1:6379-39")
  {
    assert Dec(3) == [51] && Dec(39) == Dec(3) + [57];
  }

  lemma {:induction false} EqualHosts(servers: seq<Server>, n: nat, w: nat)
    requires n > 0 && w > 0 && forall i | 0 <= i < |servers| :: servers[i].weight == w
    ensures AllHosts(servers, n, n * w) == 40 * |servers| && Total(servers) == |servers| * w
  {
    if |servers| > 0 {
      EqualHosts(servers[..|servers| - 1], n, w);
      Forty(n, w);
    }
  }

  lemma Forty(n: nat, w: nat)
    requires n > 0 && w > 0
    ensures n * w > 0 && 40 * n * w / (n * w) == 40
  {
    assert 40 * n * w == 40 * (n * w);
    AtLeast(n, w);
    FloorAtLeast(40 * n * w, n * w, 40);
    FloorAtMost(40 * n * w, n * w, 40);
  }

  /** Servers of equal weight get 160 points each. */
  lemma EqualPoints(h: Hash, servers: seq<Server>, w: nat)
    requires |servers| > 0 && w > 0 && forall i | 0 <= i < |servers| :: servers[i].weight == w
    ensures Total(servers) > 0 && |AllPoints(h, servers, |servers|)| == 160 * |servers|
  {
    EqualHosts(servers, |servers|, w);
    Forty(|servers|, w);
    assert servers[..|servers|] == servers;
  }

  predicate Sorted(ring: seq<Point>)
  {
    forall i, j | 0 <= i < j < |ring| :: ring[i].value <= ring[j].value
  }

  /** Sorting by value; points of equal value may come in any order. */
  method SortPoints(points: seq<Point>) returns (ring: seq<Point>)
    ensures Sorted(ring) && multiset(ring) == multiset(points)
  {
    ring := [];
    for i := 0 to |points|
      invariant Sorted(ring) && multiset(ring) == multiset(points[..i])
    {
      var k := |ring|;
      while k > 0 && ring[k - 1].value > points[i].value
        invariant 0 <= k <= |ring|
        invariant forall j | k <= j < |ring| :: ring[j].value > points[i].value
      {
        k := k - 1;
      }
      assert points[..i + 1] == points[..i] + [points[i]];
      Inserted(ring, k, points[i]);
      ring := ring[..k] + [points[i]] + ring[k..];
    }
    assert points[..|points|] == points;
  }

  lemma Inserted(ring: seq<Point>, k: nat, p: Point)
    requires Sorted(ring) && k <= |ring|
    requires k > 0 ==> ring[k - 1].value <= p.value
    requires forall j | k <= j < |ring| :: ring[j].value > p.value
    ensures var r := ring[..k] + [p] + ring[k..]; Sorted(r) && multiset(r) == multiset(ring) + multiset{p}
  {
    var r := ring[..k] + [p] + ring[k..];
    forall i, j | 0 <= i < j < |r| ensures r[i].value <= r[j].value {
      InsertedOrder(ring, k, p, i, j);
    }
    InsertedOnce(ring, k, p);
  }

  lemma InsertedOnce(ring: seq<Point>, k: nat, p: Point)
    requires k <= |ring|
    ensures multiset(ring[..k] + [p] + ring[k..]) == multiset(ring) + multiset{p}
  {
    assert ring == ring[..k] + ring[k..];
  }

  lemma InsertedOrder(ring: seq<Point>, k: nat, p: Point, i: nat, j: nat)
    requires Sorted(ring) && k <= |ring| && i < j <= |ring|
    requires k > 0 ==> ring[k - 1].value <= p.value
    requires forall m | k <= m < |ring| :: ring[m].value > p.value
    ensures (ring[..k] + [p] + ring[k..])[i].value <= (ring[..k] + [p] + ring[k..])[j].value
  {
    InsertedAt(ring, k, p, i);
    InsertedAt(ring, k, p, j);
    assert i < k ==> ring[i].value <= ring[k - 1].value;
  }

  lemma InsertedAt(ring: seq<Point>, k: nat, p: Point, j: nat)
    requires k <= |ring| && j <= |ring|
    ensures (ring[..k] + [p] + ring[k..])[j] == if j < k then ring[j] else if j == k then p else ring[j - 1]
  {
  }

  /** Write the points of one server. */
  method PutServer(continuum: array<Point>, from: nat, h: Hash, i: nat, name: Bytes, hosts: nat) returns (at: nat)
    requires from + 4 * hosts <= continuum.Length
    modifies continuum
    ensures at == from + 4 * hosts && continuum[..at] == old(continuum[..from]) + ServerPoints(h, i, name, hosts)
  {
    at := from;
    ghost var before := continuum[..from];
    for k := 0 to hosts
      invariant at == from + 4 * k && continuum[..at] == before + ServerPoints(h, i, name, k)
    {
      ghost var now := continuum[..at];
      for x := 0 to 4
        invariant at == |now| + x && continuum[..at] == now + HostPoints(h, i, name, k)[..x]
      {
        continuum[at] := Point(i, h(Host(name, k), x));
        at := at + 1;
      }
    }
  }

  /** Build the continuum: allocate for the servers and some more, write every server's points
    * and sort. */
  method KetamaUpdate(h: Hash, servers: seq<Server>) returns (ring: seq<Point>)
    requires Total(servers) > 0
    ensures Sorted(ring) && multiset(ring) == multiset(AllPoints(h, servers, |servers|))
  {
    var n, total := |servers|, Total(servers);
    var continuum := new Point[(n + EXTRA_SERVERS) * POINTS_PER_SERVER](_ => Point(0, 0));
    var at := 0;
    for i := 0 to n
      invariant at == |AllPoints(h, servers, i)| && at <= continuum.Length
                && continuum[..at] == AllPoints(h, servers, i)
    {
      Room(h, servers, i + 1);
      at := PutServer(continuum, at, h, i, servers[i].name, Hosts(n, servers[i].weight, total));
    }
    ring := SortPoints(continuum[..at]);
  }

  lemma Room(h: Hash, servers: seq<Server>, i: nat)
    requires i <= |servers| && Total(servers) > 0
    ensures |AllPoints(h, servers, i)| <= POINTS_PER_SERVER * |servers|
  {
    HostsFit(servers[..i], |servers|, Total(servers));
    TotalSplit(servers, i);
    ShareAtMost(40 * |servers|, Total(servers[..i]), Total(servers));
  }

  // ---- Finding a key's server ----

  /** The first point at or after the key, or the first of all: where the continuum wraps. */
  ghost predicate Next(ring: seq<Point>, key: nat, i: nat)
  {
    && i < |ring|
    && if exists j | 0 <= j < |ring| :: ring[j].value >= key
       then ring[i].value >= key && forall j | 0 <= j < i :: ring[j].value < key
       else i == 0
  }

  /** Bisect for the next point. */
  method Lookup(ring: seq<Point>, key: nat) returns (right: nat)
    requires Sorted(ring) && |ring| > 0
    ensures Next(ring, key, right)
  {
    var left := 0;
    right := |ring|;
    while left < right
      invariant left <= right <= |ring|
      invariant forall j | 0 <= j < left :: ring[j].value < key
      invariant forall j | right <= j < |ring| :: ring[j].value >= key
    {
      var middle := left + (right - left) / 2;
      if ring[middle].value < key {
        left := middle + 1;
      } else {
        right := middle;
      }
    }
    if right == |ring| {
      right := 0;
    }
  }

  // ---- Taking a server away ----

  /** The points of a server, by its name. */
  ghost function PointsOf(h: Hash, name: Bytes, hosts: nat): set<(Bytes, nat)>
  {
    set k: nat, x: nat | k < hosts && x < 4 :: (name, h(Host(name, k), x))
  }

  lemma {:induction false} ServerPointsAre(h: Hash, index: nat, name: Bytes, hosts: nat, v: nat)
    ensures Point(index, v) in ServerPoints(h, index, name, hosts) <==> (name, v) in PointsOf(h, name, hosts)
    ensures forall p | p in ServerPoints(h, index, name, hosts) :: p.index == index
  {
    if hosts > 0 {
      ServerPointsAre(h, index, name, hosts - 1, v);
      var last := HostPoints(h, index, name, hosts - 1);
      var p := Point(index, v);
      assert p in last <==> last[0] == p || last[1] == p || last[2] == p || last[3] == p;
      LastHost(h, name, hosts, v);
    }
  }

  lemma LastHost(h: Hash, name: Bytes, hosts: nat, v: nat)
    requires hosts > 0
    ensures (name, v) in PointsOf(h, name, hosts) <==>
            || (name, v) in PointsOf(h, name, hosts - 1)
            || h(Host(name, hosts - 1), 0) == v || h(Host(name, hosts - 1), 1) == v
            || h(Host(name, hosts - 1), 2) == v || h(Host(name, hosts - 1), 3) == v
  {
    if (name, v) in PointsOf(h, name, hosts) {
      var k: nat, x: nat :| k < hosts && x < 4 && (name, v) == (name, h(Host(name, k), x));
      if k < hosts - 1 {
        assert (name, h(Host(name, k), x)) in PointsOf(h, name, hosts - 1);
      } else {
        assert x == 0 || x == 1 || x == 2 || x == 3;
      }
    }
  }

  lemma {:induction false} AllPointsAre(h: Hash, servers: seq<Server>, i: nat, p: Point)
    requires i <= |servers| && Total(servers) > 0
    ensures p in AllPoints(h, servers, i) <==>
            p.index < i && (servers[p.index].name, p.value)
                           in PointsOf(h, servers[p.index].name,
                             Hosts(|servers|, servers[p.index].weight, Total(servers)))
    decreases i
  {
    if i > 0 {
      hide PointsOf, Hosts, ServerPoints;
      AllPointsAre(h, servers, i - 1, p);
      ServerPointsAre(h, i - 1, servers[i - 1].name, Hosts(|servers|, servers[i - 1].weight, Total(servers)), p.value);
    }
  }

  /** A continuum built for `servers`. */
  ghost predicate Built(h: Hash, servers: seq<Server>, ring: seq<Point>)
  {
    && Total(servers) > 0 && |ring| > 0
    && Sorted(ring) && multiset(ring) == multiset(AllPoints(h, servers, |servers|))
  }

  lemma BuiltFrom(h: Hash, servers: seq<Server>, ring: seq<Point>, p: Point)
    requires Built(h, servers, ring)
    ensures p in ring <==>
            p.index < |servers| && (servers[p.index].name, p.value)
                                   in PointsOf(h, servers[p.index].name,
                                     Hosts(|servers|, servers[p.index].weight, Total(servers)))
  {
    hide PointsOf, Hosts, AllPoints;
    assert p in ring <==> p in multiset(ring);
    AllPointsAre(h, servers, |servers|, p);
  }

  function Without(servers: seq<Server>, r: nat): seq<Server>
    requires r < |servers|
  {
    servers[..r] + servers[r + 1..]
  }

  lemma {:induction false} TotalAppend(a: seq<Server>, b: seq<Server>)
    ensures Total(a + b) == Total(a) + Total(b)
    decreases |b|
  {
    if |b| == 0 {
      assert a + b == a;
    } else {
      assert (a + b)[..|a + b| - 1] == a + b[..|b| - 1];
      TotalAppend(a, b[..|b| - 1]);
    }
  }

  lemma TotalWithout(servers: seq<Server>, r: nat)
    requires r < |servers|
    ensures Total(Without(servers, r)) + servers[r].weight == Total(servers)
  {
    hide Total;
    Around(servers, r);
    TotalAround(servers[..r], servers[r], servers[r + 1..]);
    TotalAppend(servers[..r], servers[r + 1..]);
  }

  lemma Around(servers: seq<Server>, r: nat)
    requires r < |servers|
    ensures servers == servers[..r] + ([servers[r]] + servers[r + 1..])
  {
  }

  lemma TotalAround(a: seq<Server>, s: Server, b: seq<Server>)
    ensures Total(a + ([s] + b)) == Total(a) + s.weight + Total(b)
  {
    TotalOne(s);
    hide Total;
    TotalAppend([s], b);
    TotalAppend(a, [s] + b);
  }

  lemma TotalOne(s: Server)
    ensures Total([s]) == s.weight
  {
    assert [s][..0] == [];
  }

  /** Cancelling a common factor. */
  lemma Cancel(a: nat, b: nat, c: nat)
    requires b > 0 && c > 0
    ensures c * b > 0 && c * a / (c * b) == a / b
  {
    var q, r := a / b, a % b;
    assert a == q * b + r;
    assert c * a == q * (c * b) + c * r;
    assert 0 <= c * r < c * b;
    FloorAtLeast(c * a, c * b, q);
    if c * a / (c * b) >= q + 1 {
      FloorBelow(c * a, c * b, q);
    }
  }

  lemma FloorBelow(v: nat, d: nat, q: nat)
    requires d > 0 && v < (q + 1) * d
    ensures v / d <= q
  {
    var k := v / d - q;
    assert (v / d - q) * d == v / d * d - q * d;
    AtLeast(k, d);
  }

  /** The number of names of server `i`. */
  function Share(servers: seq<Server>, i: nat): nat
    requires i < |servers| && Total(servers) > 0
  {
    Hosts(|servers|, servers[i].weight, Total(servers))
  }

  /** Every server that stays has the same share before and after server `r` leaves. */
  ghost predicate SameShares(servers: seq<Server>, r: nat)
  {
    && r < |servers| && Total(servers) > 0 && Total(Without(servers, r)) > 0
    && forall i | 0 <= i < |Without(servers, r)| :: Share(Without(servers, r), i) == Share(servers, Before(r, i))
  }

  lemma HostsStay(n: nat, total: nat, removed: nat, weight: nat)
    requires n > 1 && total > 0 && n * removed == total
    ensures total - removed > 0 && Hosts(n - 1, weight, total - removed) == Hosts(n, weight, total)
  {
    assert total - removed == (n - 1) * removed;
    Cancel(40 * weight, removed, n);
    Cancel(40 * weight, removed, n - 1);
    assert n * (40 * weight) == 40 * n * weight;
    assert (n - 1) * (40 * weight) == 40 * (n - 1) * weight;
  }

  /** A server of average weight, any one if all weigh the same, leaves all shares as they are. */
  lemma AverageLeaves(servers: seq<Server>, r: nat)
    requires r < |servers| && |servers| > 1 && Total(servers) > 0 && |servers| * servers[r].weight == Total(servers)
    ensures SameShares(servers, r)
  {
    hide Hosts, Total;
    TotalWithout(servers, r);
    var rest := Without(servers, r);
    HostsStay(|servers|, Total(servers), servers[r].weight, 0);
    forall i | 0 <= i < |rest| ensures Share(rest, i) == Share(servers, Before(r, i)) {
      HostsStay(|servers|, Total(servers), servers[r].weight, rest[i].weight);
    }
  }

  /** No two points have the same value. */
  predicate Distinct(ring: seq<Point>)
  {
    forall i, j | 0 <= i < j < |ring| :: ring[i].value != ring[j].value
  }

  /** A place in the list before and after server `r` is taken out of it. */
  function Before(r: nat, index: nat): nat
  {
    if index < r then index else index + 1
  }

  function After(r: nat, index: nat): (i: nat)
    requires index != r
    ensures Before(r, i) == index
  {
    if index < r then index else index - 1
  }

  /** Leaving and rejoining: the points of the smaller continuum are those of the larger one
    * that are not the leaving server's. */
  lemma SamePoints(h: Hash, servers: seq<Server>, r: nat, ring: seq<Point>, less: seq<Point>, index: nat, v: nat)
    requires SameShares(servers, r) && Built(h, servers, ring) && Built(h, Without(servers, r), less)
    ensures Point(index, v) in less <==> Point(Before(r, index), v) in ring
  {
    hide PointsOf, Hosts, Built, Total;
    var rest := Without(servers, r);
    BuiltFrom(h, servers, ring, Point(Before(r, index), v));
    BuiltFrom(h, rest, less, Point(index, v));
    if index < |rest| {
      assert rest[index] == servers[Before(r, index)];
      assert Share(rest, index) == Share(servers, Before(r, index));
    }
  }

  /** The next point's value is the least at or after the key, or the least of all. */
  lemma NextIsLeast(ring: seq<Point>, key: nat, i: nat, p: Point)
    requires Sorted(ring) && Next(ring, key, i) && p in ring
    ensures p.value >= key ==> key <= ring[i].value <= p.value
    ensures ring[i].value < key ==> p.value < key && ring[i].value <= p.value
  {
    var m :| 0 <= m < |ring| && ring[m] == p;
  }

  /** When all others keep their shares, only the keys of the server that leaves move: every
    * other key stays with its server, at the same point. */
  lemma OnlyItsKeysMove(h: Hash, servers: seq<Server>, r: nat, ring: seq<Point>, less: seq<Point>,
                        key: nat, i: nat, j: nat)
    requires SameShares(servers, r)
    requires Built(h, servers, ring) && Built(h, Without(servers, r), less) && Distinct(ring)
    requires Next(ring, key, i) && Next(less, key, j) && i < |ring| && j < |less| && ring[i].index != r
    ensures less[j].index == After(r, ring[i].index) && less[j].value == ring[i].value
    ensures less[j].index < |Without(servers, r)| && Without(servers, r)[less[j].index] == servers[ring[i].index]
  {
    hide PointsOf, Hosts, Total, Distinct, Next, Without, AllPoints;
    var p := ring[i];
    var p' := Point(After(r, p.index), p.value);
    var q' := less[j];
    var q := Point(Before(r, q'.index), q'.value);
    SamePoints(h, servers, r, ring, less, p'.index, p'.value);
    SamePoints(h, servers, r, ring, less, q'.index, q'.value);
    NextIsLeast(ring, key, i, q);
    NextIsLeast(less, key, j, p');
    ValueDecides(ring, p, q);
    BuiltFrom(h, servers, ring, p);
    AtSamePlace(servers, r, p.index);
  }

  lemma ValueDecides(ring: seq<Point>, p: Point, q: Point)
    requires Distinct(ring) && p in ring && q in ring && p.value == q.value
    ensures p == q
  {
    var i :| 0 <= i < |ring| && ring[i] == p;
    var j :| 0 <= j < |ring| && ring[j] == q;
    assert !(i < j) && !(j < i);
  }

  lemma AtSamePlace(servers: seq<Server>, r: nat, index: nat)
    requires r < |servers| && index < |servers| && index != r
    ensures After(r, index) < |Without(servers, r)| && Without(servers, r)[After(r, index)] == servers[index]
  {
  }

  // ---- Remainders ----

  /** As many places for a server as it weighs. */
  function Places(servers: seq<Server>, i: nat): (r: seq<nat>)
    requires i <= |servers|
    ensures |r| == Total(servers[..i])
  {
    if i == 0 then []
    else
      assert servers[..i][..i - 1] == servers[..i - 1];
      Places(servers, i - 1) + seq(servers[i - 1].weight, _ => i - 1)
  }

  method ModulaUpdate(servers: seq<Server>) returns (places: seq<nat>)
    ensures places == Places(servers, |servers|)
  {
    var continuum := new nat[Total(servers) + EXTRA_SERVERS](_ => 0);
    var at := 0;
    for i := 0 to |servers|
      invariant at == |Places(servers, i)| && at <= continuum.Length && continuum[..at] == Places(servers, i)
    {
      TotalSplit(servers, i + 1);
      assert servers[..i + 1][..i] == servers[..i];
      ghost var before := continuum[..at];
      for k := 0 to servers[i].weight
        invariant at == |before| + k && at <= continuum.Length
        invariant continuum[..at] == before + seq(k, _ => i)
      {
        continuum[at] := i;
        at := at + 1;
      }
    }
    places := continuum[..at];
  }

  /** Of every round of keys as long as the total weight, each server gets as many as it
    * weighs. */
  lemma {:induction false} EachItsWeight(servers: seq<Server>, i: nat, s: nat)
    requires i <= |servers|
    ensures multiset(Places(servers, i))[s] == if s < i then servers[s].weight else 0
    decreases i
  {
    if i > 0 {
      EachItsWeight(servers, i - 1, s);
      Copies(servers[i - 1].weight, i - 1, s);
    }
  }

  lemma {:induction false} Copies(n: nat, v: nat, s: nat)
    ensures multiset(seq(n, _ => v))[s] == if s == v then n else 0
    decreases n
  {
    if n > 0 {
      Copies(n - 1, v, s);
      assert seq(n, _ => v) == seq(n - 1, _ => v) + [v];
    }
  }
}
