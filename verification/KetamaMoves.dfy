/** Keys that change servers when another server leaves the continuum: exactly when they can. */
module KetamaMoves {
  import opened Seqs
  import opened Resp
  import opened Ketama

  // ---- The condition ----

  /** Server `s` of those that stay gains names while `t` has some already, or loses names while
    * `t` keeps some. */
  ghost predicate Pulls(servers: seq<Server>, r: nat, s: nat, t: nat)
    requires r < |servers| && Total(servers) > 0 && Total(Without(servers, r)) > 0
  {
    var rest := Without(servers, r);
    && s < |rest| && t < |rest| && s != t
    && (|| (Share(rest, s) > Share(servers, Before(r, s)) && Share(servers, Before(r, t)) > 0)
        || (Share(rest, s) < Share(servers, Before(r, s)) && Share(rest, t) > 0))
  }

  /** A key moves between two servers that both stay. */
  ghost predicate Moves(h: Hash, servers: seq<Server>, r: nat, ring: seq<Point>, less: seq<Point>,
                        key: nat, i: nat, j: nat)
    requires r < |servers|
  {
    && Built(h, servers, ring) && Built(h, Without(servers, r), less) && Distinct(ring) && Distinct(less)
    && Next(ring, key, i) && Next(less, key, j)
    && ring[i].index != r && less[j].index != After(r, ring[i].index)
  }

  /** More names of a server, more points. */
  lemma MorePoints(h: Hash, name: Bytes, fewer: nat, more: nat, v: nat)
    requires fewer <= more && (name, v) in PointsOf(h, name, fewer)
    ensures more > 0 && (name, v) in PointsOf(h, name, more)
  {
    var k: nat, x: nat :| k < fewer && x < 4 && (name, v) == (name, h(Host(name, k), x));
    assert (name, h(Host(name, k), x)) in PointsOf(h, name, more);
  }

  /** A server with a point has a share. */
  lemma HasShare(h: Hash, servers: seq<Server>, ring: seq<Point>, p: Point)
    requires Built(h, servers, ring) && p in ring
    ensures p.index < |servers| && Total(servers) > 0 && Share(servers, p.index) > 0
    ensures (servers[p.index].name, p.value) in PointsOf(h, servers[p.index].name, Share(servers, p.index))
  {
    hide PointsOf, Hosts, Built, Total;
    BuiltFrom(h, servers, ring, p);
    Positive(h, servers, ring);
    MorePoints(h, servers[p.index].name, Share(servers, p.index), Share(servers, p.index), p.value);
  }

  lemma Positive(h: Hash, servers: seq<Server>, ring: seq<Point>)
    requires Built(h, servers, ring)
    ensures Total(servers) > 0 && Sorted(ring)
  {
  }

  /** A point of a server whose share does not shrink is there in the other continuum too. */
  lemma PointThere(h: Hash, servers: seq<Server>, ring: seq<Point>, others: seq<Server>, its: seq<Point>,
                   p: Point, index: nat)
    requires Built(h, servers, ring) && Built(h, others, its) && p in ring
    requires p.index < |servers| && index < |others| && others[index] == servers[p.index]
    requires Share(servers, p.index) <= Share(others, index)
    ensures Point(index, p.value) in its
  {
    hide PointsOf, Hosts, Built, Total;
    Positive(h, others, its);
    HasShare(h, servers, ring, p);
    MorePoints(h, servers[p.index].name, Share(servers, p.index), Share(others, index), p.value);
    BuiltFrom(h, others, its, Point(index, p.value));
  }

  /** A key moves between servers that stay only if one of the two pulls. */
  lemma MovesArePulled(h: Hash, servers: seq<Server>, r: nat, ring: seq<Point>, less: seq<Point>,
                  key: nat, i: nat, j: nat, s: nat, t: nat)
    requires r < |servers| && Total(servers) > 0 && Total(Without(servers, r)) > 0
    requires Moves(h, servers, r, ring, less, key, i, j)
    requires s == less[j].index && t == After(r, ring[i].index)
    ensures Pulls(servers, r, s, t) || Pulls(servers, r, t, s)
  {
    hide PointsOf, Hosts, Built, Total, Distinct;
    var rest := Without(servers, r);
    var p, q' := ring[i], less[j];
    var p', q := Point(t, p.value), Point(Before(r, s), q'.value);
    Positive(h, servers, ring);
    Positive(h, rest, less);
    HasShare(h, servers, ring, p);
    HasShare(h, rest, less, q');
    AtSamePlace(servers, r, p.index);
    AtSamePlace(servers, r, Before(r, s));
    if !Pulls(servers, r, s, t) && !Pulls(servers, r, t, s) {
      PointThere(h, servers, ring, rest, less, p, t);
      PointThere(h, rest, less, servers, ring, q', Before(r, s));
      NextIsLeast(ring, key, i, q);
      NextIsLeast(less, key, j, p');
      ValueDecides(ring, p, q);
    }
  }

  // ---- Names ----

  /** A name a point is made from tells the server and the number. */
  lemma HostTells(a: Bytes, j: nat, b: Bytes, k: nat)
    requires Host(a, j) == Host(b, k)
    ensures a == b && j == k
  {
    NotLonger(a, Dec(j), b, Dec(k));
    NotLonger(b, Dec(k), a, Dec(j));
    DecReads(j, []);
    DecReads(k, []);
    assert Dec(j) + [] == Dec(j) && Dec(k) + [] == Dec(k);
    var host := Host(a, j);
    assert host[..|a|] == a && host[..|b|] == b && host[|a| + 1..] == Dec(j) && host[|b| + 1..] == Dec(k);
  }

  lemma NotLonger(a: Bytes, c: Bytes, b: Bytes, d: Bytes)
    requires a + [MINUS_SIGN] + c == b + [MINUS_SIGN] + d && MINUS_SIGN !in d
    ensures |a| <= |b|
  {
    var s := b + [MINUS_SIGN] + d;
    assert s[|a|] == (a + [MINUS_SIGN] + c)[|a|] == MINUS_SIGN;
    assert forall i | |b| < i < |s| :: s[i] == d[i - |b| - 1] && s[i] in d;
  }

  /** The names of the first `hosts` points of a server, and of the first `i` servers. */
  function ServerNames(name: Bytes, hosts: nat): (r: seq<Bytes>)
    ensures |r| == hosts
  {
    if hosts == 0 then [] else ServerNames(name, hosts - 1) + [Host(name, hosts - 1)]
  }

  function Names(servers: seq<Server>, i: nat): (r: seq<Bytes>)
    requires i <= |servers| && Total(servers) > 0
    ensures |r| == AllHosts(servers[..i], |servers|, Total(servers))
  {
    if i == 0 then []
    else
      assert servers[..i][..i - 1] == servers[..i - 1];
      Names(servers, i - 1) + ServerNames(servers[i - 1].name, Share(servers, i - 1))
  }

  lemma {:induction false} ServerNameThere(name: Bytes, hosts: nat, k: nat)
    requires k < hosts
    ensures Host(name, k) in ServerNames(name, hosts)
  {
    if k < hosts - 1 {
      ServerNameThere(name, hosts - 1, k);
    }
  }

  lemma {:induction false} NameThere(servers: seq<Server>, i: nat, j: nat, k: nat)
    requires j < i <= |servers| && Total(servers) > 0 && k < Share(servers, j)
    ensures Host(servers[j].name, k) in Names(servers, i)
  {
    hide Hosts, Total, Host;
    if j < i - 1 {
      NameThere(servers, i - 1, j, k);
    } else {
      ServerNameThere(servers[j].name, Share(servers, j), k);
    }
  }

  // ---- A digest for the case ----

  function IndexOf(names: seq<Bytes>, s: Bytes): (i: nat)
    ensures i <= |names| && (s in names <==> i < |names|) && (i < |names| ==> names[i] == s)
  {
    if |names| == 0 then 0 else if names[0] == s then 0 else 1 + IndexOf(names[1..], s)
  }

  /** The names but for two of them. */
  function Others(names: seq<Bytes>, low: Bytes, next: Bytes): (r: seq<Bytes>)
    ensures forall s :: s in r <==> s in names && s != low && s != next
  {
    if |names| == 0 then []
    else (if names[0] == low || names[0] == next then [] else [names[0]]) + Others(names[1..], low, next)
  }

  lemma {:induction false} OthersFewer(names: seq<Bytes>, low: Bytes, next: Bytes)
    requires low != next
    ensures |Others(names, low, next)| + (if low in names then 1 else 0) + (if next in names then 1 else 0) <= |names|
  {
    if |names| > 0 {
      OthersFewer(names[1..], low, next);
      assert names == [names[0]] + names[1..];
    }
  }

  /** `low` comes first, then `next`, then the others in their order. */
  function Rank(low: Bytes, next: Bytes, others: seq<Bytes>, s: Bytes): nat
  {
    if s == low then 0 else if s == next then 1 else 2 + IndexOf(others, s)
  }

  /** A digest of 32 bits that puts the names in this order. */
  function Aimed(low: Bytes, next: Bytes, names: seq<Bytes>): Hash
  {
    (s, x) => var v := 4 * Rank(low, next, Others(names, low, next), s) + x; if v < TWO32 then v else 0
  }

  /** No two points have the same value. */
  ghost predicate Apart(h: Hash, names: seq<Bytes>)
  {
    forall a, b, x: nat, y: nat | a in names && b in names && x < 4 && y < 4 && h(a, x) == h(b, y) :: a == b && x == y
  }

  lemma RankTells(low: Bytes, next: Bytes, others: seq<Bytes>, a: Bytes, b: Bytes)
    requires low != next && Rank(low, next, others, a) == Rank(low, next, others, b)
    requires (a == low || a == next || a in others) && (b == low || b == next || b in others)
    ensures a == b
  {
  }

  lemma RankBelow(low: Bytes, next: Bytes, names: seq<Bytes>, s: Bytes)
    requires low != next && low in names && next in names && s in names
    ensures Rank(low, next, Others(names, low, next), s) < |names|
  {
    OthersFewer(names, low, next);
  }

  /** While there are no more points than 32 bits can tell apart, its value is the place. */
  lemma AimedIs(low: Bytes, next: Bytes, names: seq<Bytes>, s: Bytes, x: nat)
    requires low != next && low in names && next in names && s in names && x < 4 && 4 * |names| <= TWO32
    ensures Aimed(low, next, names)(s, x) == 4 * Rank(low, next, Others(names, low, next), s) + x
  {
    hide Rank, Others;
    RankBelow(low, next, names, s);
  }

  lemma AimedApart(low: Bytes, next: Bytes, names: seq<Bytes>)
    requires low != next && low in names && next in names && 4 * |names| <= TWO32
    ensures Apart(Aimed(low, next, names), names)
  {
    hide Rank, Others, Aimed;
    var h := Aimed(low, next, names);
    forall a, b, x: nat, y: nat | a in names && b in names && x < 4 && y < 4 && h(a, x) == h(b, y)
      ensures a == b && x == y
    {
      AimedIs(low, next, names, a, x);
      AimedIs(low, next, names, b, y);
      RankTells(low, next, Others(names, low, next), a, b);
    }
  }

  lemma IsPoint(h: Hash, name: Bytes, hosts: nat, v: nat) returns (k: nat, x: nat)
    requires (name, v) in PointsOf(h, name, hosts)
    ensures k < hosts && x < 4 && v == h(Host(name, k), x)
  {
    k, x :| k < hosts && x < 4 && (name, v) == (name, h(Host(name, k), x));
  }

  ghost predicate DistinctNames(servers: seq<Server>)
  {
    forall i, j | 0 <= i < j < |servers| :: servers[i].name != servers[j].name
  }

  lemma NameTells(servers: seq<Server>, i: nat, j: nat)
    requires DistinctNames(servers) && i < |servers| && j < |servers| && servers[i].name == servers[j].name
    ensures i == j
  {
    assert !(i < j) && !(j < i);
  }

  lemma DistinctAppend(a: seq<Point>, b: seq<Point>)
    requires Distinct(a) && Distinct(b)
    requires forall p, q | p in a && q in b :: p.value != q.value
    ensures Distinct(a + b)
  {
    var c := a + b;
    forall i, j | 0 <= i < j < |c| ensures c[i].value != c[j].value {
      if i < |a| <= j {
        assert a[i] in a && b[j - |a|] in b;
      }
    }
  }

  lemma {:induction false} ServerDistinct(h: Hash, names: seq<Bytes>, index: nat, name: Bytes, hosts: nat)
    requires Apart(h, names) && forall k: nat | k < hosts :: Host(name, k) in names
    ensures Distinct(ServerPoints(h, index, name, hosts))
  {
    hide Apart, Host;
    if hosts > 0 {
      var front, last := ServerPoints(h, index, name, hosts - 1), HostPoints(h, index, name, hosts - 1);
      ServerDistinct(h, names, index, name, hosts - 1);
      OneHost(h, names, index, name, hosts - 1);
      forall p, q | p in front && q in last ensures p.value != q.value {
        HostApart(h, names, index, name, hosts - 1, p, q);
      }
      DistinctAppend(front, last);
    }
  }

  lemma OneHost(h: Hash, names: seq<Bytes>, index: nat, name: Bytes, k: nat)
    requires Apart(h, names) && Host(name, k) in names
    ensures Distinct(HostPoints(h, index, name, k))
  {
    hide Host;
    var points := HostPoints(h, index, name, k);
    forall i, j | 0 <= i < j < 4 ensures points[i].value != points[j].value {
      PointsApart(h, names, Host(name, k), i, Host(name, k), j);
    }
  }

  lemma PointsApart(h: Hash, names: seq<Bytes>, a: Bytes, x: nat, b: Bytes, y: nat)
    requires Apart(h, names) && a in names && b in names && x < 4 && y < 4
    ensures h(a, x) == h(b, y) ==> a == b && x == y
  {
  }

  lemma HostApart(h: Hash, names: seq<Bytes>, index: nat, name: Bytes, k: nat, p: Point, q: Point)
    requires Apart(h, names) && forall j: nat | j <= k :: Host(name, j) in names
    requires p in ServerPoints(h, index, name, k) && q in HostPoints(h, index, name, k)
    ensures p.value != q.value
  {
    hide Apart, ServerPoints, PointsOf, Host;
    ServerPointsAre(h, index, name, k, p.value);
    var k', x := IsPoint(h, name, k, p.value);
    var y :| 0 <= y < 4 && HostPoints(h, index, name, k)[y] == q;
    PointsApart(h, names, Host(name, k'), x, Host(name, k), y);
    if Host(name, k') == Host(name, k) {
      HostTells(name, k', name, k);
    }
  }

  /** The names of all points of `servers` are among `names`. */
  ghost predicate Named(servers: seq<Server>, names: seq<Bytes>)
    requires Total(servers) > 0
  {
    forall j: nat, k: nat | j < |servers| && k < Share(servers, j) :: Host(servers[j].name, k) in names
  }

  lemma {:induction false} AllDistinct(h: Hash, names: seq<Bytes>, servers: seq<Server>, i: nat)
    requires i <= |servers| && Total(servers) > 0 && DistinctNames(servers) && Apart(h, names) && Named(servers, names)
    ensures Distinct(AllPoints(h, servers, i))
  {
    if i > 0 {
      var name, hosts := servers[i - 1].name, Share(servers, i - 1);
      var front, last := AllPoints(h, servers, i - 1), ServerPoints(h, i - 1, name, hosts);
      hide Apart, Distinct, DistinctNames, Hosts, ServerPoints, Total, Host;
      AllDistinct(h, names, servers, i - 1);
      ServerDistinct(h, names, i - 1, name, hosts);
      forall p, q | p in front && q in last ensures p.value != q.value {
        ServerApart(h, names, servers, i - 1, p, q);
      }
      DistinctAppend(front, last);
    }
  }

  lemma ServerApart(h: Hash, names: seq<Bytes>, servers: seq<Server>, i: nat, p: Point, q: Point)
    requires i < |servers| && Total(servers) > 0 && DistinctNames(servers) && Apart(h, names) && Named(servers, names)
    requires p in AllPoints(h, servers, i)
    requires q in ServerPoints(h, i, servers[i].name, Share(servers, i))
    ensures p.value != q.value
  {
    hide Apart, AllPoints, ServerPoints, PointsOf, Host, DistinctNames, Hosts, Total;
    AllPointsAre(h, servers, i, p);
    ServerPointsAre(h, i, servers[i].name, Share(servers, i), q.value);
    assert Point(i, q.value) == q;
    var j, x := IsPoint(h, servers[p.index].name, Share(servers, p.index), p.value);
    var k, y := IsPoint(h, servers[i].name, Share(servers, i), q.value);
    PointsApart(h, names, Host(servers[p.index].name, j), x, Host(servers[i].name, k), y);
    if Host(servers[p.index].name, j) == Host(servers[i].name, k) {
      HostTells(servers[p.index].name, j, servers[i].name, k);
      NameTells(servers, p.index, i);
    }
  }

  lemma {:induction false} AtMostOnce(a: seq<Point>, p: Point)
    requires Distinct(a)
    ensures multiset(a)[p] <= 1
  {
    if |a| > 0 {
      var front := a[..|a| - 1];
      AtMostOnce(front, p);
      assert a == front + [a[|a| - 1]];
      if p == a[|a| - 1] {
        assert p !in front;
      }
    }
  }

  lemma Twice(a: seq<Point>, i: nat, j: nat)
    requires i < j < |a| && a[i] == a[j]
    ensures multiset(a)[a[i]] >= 2
  {
    assert a == a[..j] + a[j..] && a[i] in a[..j] && a[j] in a[j..];
  }

  lemma DistinctPermuted(a: seq<Point>, b: seq<Point>)
    requires Distinct(a) && multiset(a) == multiset(b)
    ensures Distinct(b)
  {
    forall i, j | 0 <= i < j < |b| ensures b[i].value != b[j].value {
      if b[i].value == b[j].value {
        assert b[i] in multiset(b) && b[j] in multiset(b);
        ValueDecides(a, b[i], b[j]);
        Twice(b, i, j);
        AtMostOnce(a, b[i]);
      }
    }
  }

  // ---- The key that moves ----

  lemma {:induction false} CanSort(points: seq<Point>) returns (ring: seq<Point>)
    ensures Sorted(ring) && multiset(ring) == multiset(points)
  {
    ring := [];
    if |points| > 0 {
      var front, p := points[..|points| - 1], points[|points| - 1];
      assert points == front + [p];
      var less := CanSort(front);
      var k := Place(less, p.value);
      Inserted(less, k, p);
      ring := less[..k] + [p] + less[k..];
    }
  }

  lemma {:induction false} Place(ring: seq<Point>, v: nat) returns (k: nat)
    requires Sorted(ring)
    ensures k <= |ring| && (k > 0 ==> ring[k - 1].value <= v)
    ensures forall j | k <= j < |ring| :: ring[j].value > v
  {
    k := |ring|;
    while k > 0 && ring[k - 1].value > v
      invariant k <= |ring| && forall j | k <= j < |ring| :: ring[j].value > v
    {
      k := k - 1;
    }
  }

  /** A continuum for a digest of that kind, and where key 0 is found in it. */
  lemma CanBuild(h: Hash, names: seq<Bytes>, servers: seq<Server>, s: nat) returns (ring: seq<Point>)
    requires s < |servers| && Total(servers) > 0 && DistinctNames(servers) && Share(servers, s) > 0
    requires Apart(h, names) && Named(servers, names)
    ensures Built(h, servers, ring) && Distinct(ring) && Next(ring, 0, 0)
  {
    hide Apart, Named, Distinct, DistinctNames, Hosts, Total, PointsOf, Host;
    var points := AllPoints(h, servers, |servers|);
    ring := CanSort(points);
    AllDistinct(h, names, servers, |servers|);
    DistinctPermuted(points, ring);
    PointNumber(h, servers, s, 0);
    assert Point(s, h(Host(servers[s].name, 0), 0)) in multiset(ring);
    assert ring[0].value >= 0;
  }

  lemma PointNumber(h: Hash, servers: seq<Server>, s: nat, k: nat)
    requires s < |servers| && Total(servers) > 0 && k < Share(servers, s)
    ensures Point(s, h(Host(servers[s].name, k), 0)) in AllPoints(h, servers, |servers|)
  {
    hide Hosts, Total, AllPoints, Host;
    var name := servers[s].name;
    assert (name, h(Host(name, k), 0)) in PointsOf(h, name, Share(servers, s));
    AllPointsAre(h, servers, |servers|, Point(s, h(Host(name, k), 0)));
  }

  /** With name `k` of server `s` lowest and the first name of `t` next, key 0 is found at `s` if
    * it has that name, and at `t` otherwise. */
  lemma KeyZero(servers: seq<Server>, names: seq<Bytes>, s: nat, k: nat, t: nat, ring: seq<Point>, i: nat)
    requires s < |servers| && t < |servers| && s != t && DistinctNames(servers)
    requires var low, next := Host(servers[s].name, k), Host(servers[t].name, 0);
             && low != next && low in names && next in names && 4 * |names| <= TWO32
             && Built(Aimed(low, next, names), servers, ring) && Next(ring, 0, i) && Named(servers, names)
    ensures k < Share(servers, s) ==> ring[i].index == s
    ensures k >= Share(servers, s) && Share(servers, t) > 0 ==> ring[i].index == t
  {
    var low, next := Host(servers[s].name, k), Host(servers[t].name, 0);
    var h := Aimed(low, next, names);
    var p := ring[i];
    hide Aimed, Hosts, DistinctNames, PointsOf, Host, AllPoints, Rank;
    LowAndNext(low, next, names);
    HasShare(h, servers, ring, p);
    var k', x := IsPoint(h, servers[p.index].name, Share(servers, p.index), p.value);
    var host := Host(servers[p.index].name, k');
    if k < Share(servers, s) {
      PointNumber(h, servers, s, k);
      assert Point(s, 0) in multiset(ring);
      NextIsLeast(ring, 0, i, Point(s, 0));
    } else if Share(servers, t) > 0 {
      PointNumber(h, servers, t, 0);
      assert Point(t, 4) in multiset(ring);
      NextIsLeast(ring, 0, i, Point(t, 4));
    }
    Early(low, next, names, host, x);
    if host == low {
      HostTells(servers[p.index].name, k', servers[s].name, k);
      NameTells(servers, p.index, s);
    } else if host == next {
      HostTells(servers[p.index].name, k', servers[t].name, 0);
      NameTells(servers, p.index, t);
    }
  }

  lemma LowAndNext(low: Bytes, next: Bytes, names: seq<Bytes>)
    requires low != next && low in names && next in names && 4 * |names| <= TWO32
    ensures Aimed(low, next, names)(low, 0) == 0 && Aimed(low, next, names)(next, 0) == 4
  {
    hide Aimed;
    AimedIs(low, next, names, low, 0);
    AimedIs(low, next, names, next, 0);
  }

  lemma Early(low: Bytes, next: Bytes, names: seq<Bytes>, s: Bytes, x: nat)
    requires low != next && low in names && next in names && s in names && x < 4 && 4 * |names| <= TWO32
    ensures Aimed(low, next, names)(s, x) <= 4 ==> s == low || s == next
    ensures Aimed(low, next, names)(s, x) == 0 ==> s == low
  {
    hide Aimed;
    AimedIs(low, next, names, s, x);
  }

  lemma NamesStay(servers: seq<Server>, r: nat)
    requires DistinctNames(servers) && r < |servers|
    ensures DistinctNames(Without(servers, r))
  {
    var rest := Without(servers, r);
    forall i, j | 0 <= i < j < |rest| ensures rest[i].name != rest[j].name {
      assert rest[i] == servers[Before(r, i)] && rest[j] == servers[Before(r, j)];
    }
  }

  /** The points before and after are no more than 32 bits can tell apart. */
  ghost predicate Fits(servers: seq<Server>, r: nat)
    requires r < |servers| && Total(servers) > 0 && Total(Without(servers, r)) > 0
  {
    var rest := Without(servers, r);
    4 * (AllHosts(servers, |servers|, Total(servers)) + AllHosts(rest, |rest|, Total(rest))) <= TWO32
  }

  /** All names, before and after. */
  lemma BothNames(servers: seq<Server>, r: nat) returns (names: seq<Bytes>)
    requires r < |servers| && Total(servers) > 0 && Total(Without(servers, r)) > 0 && Fits(servers, r)
    ensures 4 * |names| <= TWO32 && Named(servers, names) && Named(Without(servers, r), names)
  {
    hide Total, Hosts, Host, Without;
    var rest := Without(servers, r);
    var a, b := Names(servers, |servers|), Names(rest, |rest|);
    names := a + b;
    assert servers[..|servers|] == servers && rest[..|rest|] == rest;
    forall j: nat, k: nat | j < |servers| && k < Share(servers, j) ensures Host(servers[j].name, k) in names {
      NameThere(servers, |servers|, j, k);
    }
    forall j: nat, k: nat | j < |rest| && k < Share(rest, j) ensures Host(rest[j].name, k) in names {
      NameThere(rest, |rest|, j, k);
    }
  }

  /** If one server that stays pulls, there are a digest and a key that moves. */
  lemma PulledMoves(servers: seq<Server>, r: nat, s: nat, t: nat)
    returns (h: Hash, ring: seq<Point>, less: seq<Point>)
    requires r < |servers| && Total(servers) > 0 && Total(Without(servers, r)) > 0 && DistinctNames(servers)
    requires Pulls(servers, r, s, t) && Fits(servers, r)
    ensures Moves(h, servers, r, ring, less, 0, 0, 0)
  {
    hide Aimed, Hosts, Total, Distinct, DistinctNames, Built, Host, Fits, Apart, Named;
    var rest := Without(servers, r);
    var s', t' := Before(r, s), Before(r, t);
    assert rest[s] == servers[s'] && rest[t] == servers[t'];
    NamesStay(servers, r);
    var gains := Share(rest, s) > Share(servers, s');
    var k := if gains then Share(servers, s') else Share(rest, s);
    var low, next := Host(rest[s].name, k), Host(rest[t].name, 0);
    var names := BothNames(servers, r);
    NamedAt(servers, names, if gains then t' else s', if gains then 0 else k);
    NamedAt(rest, names, if gains then s else t, if gains then k else 0);
    TwoNames(rest, s, k, t);
    h := Aimed(low, next, names);
    AimedApart(low, next, names);
    ring := CanBuild(h, names, servers, if gains then t' else s');
    less := CanBuild(h, names, rest, if gains then s else t);
    KeyZero(servers, names, s', k, t', ring, 0);
    KeyZero(rest, names, s, k, t, less, 0);
  }

  lemma NamedAt(servers: seq<Server>, names: seq<Bytes>, j: nat, k: nat)
    requires Total(servers) > 0 && Named(servers, names) && j < |servers| && k < Share(servers, j)
    ensures Host(servers[j].name, k) in names
  {
  }

  lemma TwoNames(servers: seq<Server>, s: nat, k: nat, t: nat)
    requires DistinctNames(servers) && s < |servers| && t < |servers| && s != t
    ensures Host(servers[s].name, k) != Host(servers[t].name, 0)
  {
    hide Host, DistinctNames;
    if Host(servers[s].name, k) == Host(servers[t].name, 0) {
      HostTells(servers[s].name, k, servers[t].name, 0);
      NameTells(servers, s, t);
    }
  }

  /** A key can move between servers that stay, for some digest of 32 bits that keeps all points
    * apart, if and only if one of them pulls. */
  lemma OthersMoveExactly(servers: seq<Server>, r: nat)
    requires r < |servers| && Total(servers) > 0 && Total(Without(servers, r)) > 0 && DistinctNames(servers)
    requires Fits(servers, r)
    ensures (exists h, ring, less, key, i, j :: Moves(h, servers, r, ring, less, key, i, j))
            <==> exists s, t :: Pulls(servers, r, s, t)
  {
    hide Moves, Pulls, Total, DistinctNames, Fits;
    if s, t :| Pulls(servers, r, s, t) {
      var h, ring, less := PulledMoves(servers, r, s, t);
      assert Moves(h, servers, r, ring, less, 0, 0, 0);
    }
    if h, ring, less, key, i, j :| Moves(h, servers, r, ring, less, key, i, j) {
      SomePulls(h, servers, r, ring, less, key, i, j);
    }
  }

  /** That is so for any number of servers the code could hold. */
  lemma FewEnough(servers: seq<Server>, r: nat)
    requires r < |servers| && Total(servers) > 0 && Total(Without(servers, r)) > 0 && 320 * |servers| <= TWO32
    ensures Fits(servers, r)
  {
    hide Total, AllHosts, Without;
    var rest := Without(servers, r);
    HostsFit(servers, |servers|, Total(servers));
    HostsFit(rest, |rest|, Total(rest));
    ShareAtMost(40 * |servers|, Total(servers), Total(servers));
    ShareAtMost(40 * |rest|, Total(rest), Total(rest));
    OneLess(servers, r);
  }

  lemma OneLess(servers: seq<Server>, r: nat)
    requires r < |servers|
    ensures |Without(servers, r)| < |servers|
  {
  }

  lemma SomePulls(h: Hash, servers: seq<Server>, r: nat, ring: seq<Point>, less: seq<Point>, key: nat, i: nat, j: nat)
    requires r < |servers| && Total(servers) > 0 && Total(Without(servers, r)) > 0
    requires Moves(h, servers, r, ring, less, key, i, j)
    ensures exists s, t :: Pulls(servers, r, s, t)
  {
    MovesArePulled(h, servers, r, ring, less, key, i, j, less[j].index, After(r, ring[i].index));
  }

  /** With two servers that hold points before and after, that is whenever a share changes. */
  lemma ChangedSharePulls(servers: seq<Server>, r: nat, a: nat, b: nat)
    requires r < |servers| && Total(servers) > 0 && Total(Without(servers, r)) > 0
    requires a < b < |Without(servers, r)|
    requires Share(servers, Before(r, a)) > 0 && Share(Without(servers, r), a) > 0
    requires Share(servers, Before(r, b)) > 0 && Share(Without(servers, r), b) > 0
    ensures (exists s, t :: Pulls(servers, r, s, t)) <==> !SameShares(servers, r)
  {
    hide Total, Hosts;
    if !SameShares(servers, r) {
      var s :| 0 <= s < |Without(servers, r)| && Share(Without(servers, r), s) != Share(servers, Before(r, s));
      assert Pulls(servers, r, s, if s == a then b else a);
    }
  }

  // ---- Two cases ----

  const TRIO := [Server([65], 1), Server([66], 1), Server([67], 78)]

  lemma Weighed(a: Server, b: Server, c: Server)
    ensures Without([a, b, c], 2) == [a, b] && Total([a, b]) == a.weight + b.weight
    ensures Total([a, b, c]) == a.weight + b.weight + c.weight
  {
    assert [a, b, c][..2] == [a, b] && [a, b][..1] == [a];
    TotalOne(a);
    assert Without([a, b, c], 2) == [a, b] + [];
  }

  /** Two light servers and a heavy one: when it leaves, the light ones get forty names for one,
    * and keys move between them. */
  lemma OtherKeysCanMove()
    ensures Pulls(TRIO, 2, 0, 1)
    ensures exists h, ring, less, key, i, j :: Moves(h, TRIO, 2, ring, less, key, i, j)
  {
    Weighed(TRIO[0], TRIO[1], TRIO[2]);
    assert TRIO == [TRIO[0], TRIO[1], TRIO[2]];
    assert Hosts(3, 1, 80) == 1 && Hosts(2, 1, 2) == 40;
    hide Moves, Hosts, Total, Fits;
    FewEnough(TRIO, 2);
    OthersMoveExactly(TRIO, 2);
  }

  /** Not only a server of average weight leaves the shares as they are. */
  lemma LighterLeaves(a: Bytes, b: Bytes, c: Bytes)
    ensures SameShares([Server(a, 100), Server(b, 100), Server(c, 95)], 2)
  {
    Weighed(Server(a, 100), Server(b, 100), Server(c, 95));
    assert Hosts(3, 100, 295) == 40 == Hosts(2, 100, 200);
  }
}
