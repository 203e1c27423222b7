/** The route lookup both user-space configurations fall back on when no
    interface name is configured (hardworker/user/src/config.rs, lines
    144-168, and logger/user/src/config.rs, lines 112-136): the routes whose
    destination agrees with the target address under their mask are kept,
    and `max_by` picks among them the one with the most one-bits in its mask,
    then the smaller metric; on a full tie `max_by` keeps the later route.
    The table is given as a list (reading it from procfs is not modelled). */
module Route {
  import opened Bytes
  import opened Wrappers

  /** The fields of a procfs route entry that the lookup reads. */
  datatype Route = Route(iface: string, destination: u32, mask: u32, metrics: u32)

  /** `a & b` on non-negative integers, bit by bit from the lowest. */
  function And(a: nat, b: nat): (r: nat)
    ensures r <= a && r <= b
    decreases a
  {
    if a == 0 || b == 0 then 0 else 2 * And(a / 2, b / 2) + (a % 2) * (b % 2)
  }

  /** `count_ones()`. */
  function Popcount(x: nat): nat
    decreases x
  {
    if x == 0 then 0 else Popcount(x / 2) + x % 2
  }

  function Pow2(n: nat): (p: nat)
    ensures p >= 1
  {
    if n == 0 then 1 else 2 * Pow2(n - 1)
  }

  /** The filter: `ip & mask == destination & mask`. */
  predicate Matches(ip: u32, r: Route)
    ensures ip == r.destination ==> Matches(ip, r)
  {
    And(ip, r.mask) == And(r.destination, r.mask)
  }

  /** The `max_by` comparison: `a` is strictly greater than `b` when its mask
      has more one-bits, or as many and a smaller metric. */
  predicate Better(a: Route, b: Route)
    ensures Better(a, b) ==> Popcount(a.mask) >= Popcount(b.mask)
    ensures Popcount(a.mask) > Popcount(b.mask) ==> Better(a, b)
  {
    Popcount(a.mask) > Popcount(b.mask)
    || (Popcount(a.mask) == Popcount(b.mask) && a.metrics < b.metrics)
  }

  /** `filter(..).max_by(..)` over the first `n` routes, as an index: the
      fold keeps its current maximum only when that is strictly greater than
      the next matching route, and otherwise takes the next one. */
  function BestIndex(ip: u32, routes: seq<Route>, n: nat): (b: Option<nat>)
    requires n <= |routes|
    ensures b.Some? ==> b.value < n
  {
    if n == 0 then None
    else
      var prev := BestIndex(ip, routes, n - 1);
      if !Matches(ip, routes[n - 1]) then prev
      else if prev.Some? && Better(routes[prev.value], routes[n - 1]) then prev
      else Some(n - 1)
  }

  /** The route chosen for `ip`, or none when no route matches. */
  function BestRoute(ip: u32, routes: seq<Route>): (r: Option<Route>)
    ensures r.None? <==> forall j :: 0 <= j < |routes| ==> !Matches(ip, routes[j])
    ensures r.Some? ==> r.value in routes && Matches(ip, r.value)
  {
    BestIndexSpec(ip, routes, |routes|);
    match BestIndex(ip, routes, |routes|)
    case None => None
    case Some(i) => Some(routes[i])
  }

  /** The index chosen among the first `n` routes matches; no matching route
      before `n` is better; every matching route after it is strictly worse
      (so on a full tie the last one wins); and there is no choice exactly
      when no route matches. */
  lemma {:induction false} BestIndexSpec(ip: u32, routes: seq<Route>, n: nat)
    requires n <= |routes|
    ensures var b := BestIndex(ip, routes, n);
      && (b.None? <==> forall j :: 0 <= j < n ==> !Matches(ip, routes[j]))
      && (b.Some? ==>
            && Matches(ip, routes[b.value])
            && (forall j :: 0 <= j < n && Matches(ip, routes[j]) ==> !Better(routes[j], routes[b.value]))
            && (forall j :: b.value < j < n && Matches(ip, routes[j]) ==> Better(routes[b.value], routes[j])))
  {
    if n > 0 {
      BestIndexSpec(ip, routes, n - 1);
      var prev, last := BestIndex(ip, routes, n - 1), routes[n - 1];
      if Matches(ip, last) && !(prev.Some? && Better(routes[prev.value], last)) {
        forall j | 0 <= j < n - 1 && Matches(ip, routes[j]) ensures !Better(routes[j], last) {
          NotBetterChain(routes[j], routes[prev.value], last);
        }
      }
    }
  }

  /** Not being better is transitive: `Better` orders routes by a key. */
  lemma NotBetterChain(a: Route, b: Route, c: Route)
    requires !Better(a, b) && !Better(b, c)
    ensures !Better(a, c)
  {
  }

  /** The route chosen is an entry of the table that matches `ip`, none
      matching is better, every later matching entry is worse, and nothing is
      chosen exactly when nothing matches. */
  lemma BestRouteSpec(ip: u32, routes: seq<Route>)
    ensures BestRoute(ip, routes).None? <==> forall j :: 0 <= j < |routes| ==> !Matches(ip, routes[j])
    ensures BestRoute(ip, routes).Some? ==>
      exists i :: 0 <= i < |routes| && routes[i] == BestRoute(ip, routes).value
        && Matches(ip, routes[i])
        && (forall j :: 0 <= j < |routes| && Matches(ip, routes[j]) ==> !Better(routes[j], routes[i]))
        && (forall j :: i < j < |routes| && Matches(ip, routes[j]) ==> Better(routes[i], routes[j]))
  {
    BestIndexSpec(ip, routes, |routes|);
  }

  /** Among two matching routes with masks of the same length, the one with
      the smaller metric is chosen whatever their order in the table. */
  lemma SmallerMetricWins(ip: u32, r1: Route, r2: Route)
    requires Matches(ip, r1) && Matches(ip, r2)
    requires Popcount(r1.mask) == Popcount(r2.mask) && r1.metrics < r2.metrics
    ensures BestRoute(ip, [r1, r2]) == Some(r1) && BestRoute(ip, [r2, r1]) == Some(r1)
  {
    assert BestIndex(ip, [r1, r2], 1) == Some(0);
    assert BestIndex(ip, [r2, r1], 1) == Some(0);
  }

  /** Two matching routes that tie on mask length and metric: the later one
      is chosen. */
  lemma LaterTieWins(ip: u32, r1: Route, r2: Route)
    requires Matches(ip, r1) && Matches(ip, r2)
    requires Popcount(r1.mask) == Popcount(r2.mask) && r1.metrics == r2.metrics
    ensures BestRoute(ip, [r1, r2]) == Some(r2)
  {
  }

  /** An all-ones mask of `n` bits keeps a number below 2^n unchanged and
      has `n` one-bits. */
  lemma {:induction false} LowOnes(x: nat, n: nat)
    requires x < Pow2(n)
    ensures And(x, Pow2(n) - 1) == x && Popcount(Pow2(n) - 1) == n
  {
    if n > 0 {
      LowOnes(x / 2, n - 1);
      assert (Pow2(n) - 1) / 2 == Pow2(n - 1) - 1 && (Pow2(n) - 1) % 2 == 1;
    }
  }

  lemma {:induction false} Pow2Add(a: nat, b: nat)
    ensures Pow2(a + b) == Pow2(a) * Pow2(b)
  {
    if a > 0 {
      Pow2Add(a - 1, b);
    }
  }

  lemma Pow2ThirtyTwo()
    ensures Pow2(32) == 0x1_0000_0000
  {
    assert Pow2(8) == 0x100;
    Pow2Add(8, 8);
    Pow2Add(16, 16);
  }

  /** A host route (mask 255.255.255.255, 32 one-bits) matches exactly its
      own destination, and a default route (mask 0) matches every address. */
  lemma HostAndDefaultRoutes(ip: u32, r: Route)
    ensures r.mask == 0xFFFF_FFFF ==> (Matches(ip, r) <==> ip == r.destination) && Popcount(r.mask) == 32
    ensures r.mask == 0 ==> Matches(ip, r) && Popcount(r.mask) == 0
  {
    Pow2ThirtyTwo();
    LowOnes(ip, 32);
    LowOnes(r.destination, 32);
  }

  /** A matching host route is chosen over any default route, wherever
      each stands in the table. */
  lemma HostRouteBeatsDefault(ip: u32, host: Route, default: Route)
    requires host.mask == 0xFFFF_FFFF && host.destination == ip && default.mask == 0
    ensures BestRoute(ip, [host, default]) == Some(host) && BestRoute(ip, [default, host]) == Some(host)
  {
    HostAndDefaultRoutes(ip, host);
    HostAndDefaultRoutes(ip, default);
    assert BestIndex(ip, [host, default], 1) == Some(0);
    assert BestIndex(ip, [default, host], 1) == Some(0);
  }

  /** The errors of both `try_from`s: a missing `tcp` section, a route
      table that could not be read, and no route to the target. */
  datatype ConfigError = MissingTcp | RouteTable(reason: string) | NoRoute

  /** The `ifname` match of both `try_from`s: a configured name is used as
      it is; otherwise the route table (`table`, the result of reading it) is
      consulted for the target `ip`. */
  function Interface(ifname: Option<string>, ip: u32, table: Result<seq<Route>, string>): (r: Result<string, ConfigError>)
    ensures r != Err(MissingTcp)
    ensures r.Ok? && ifname.None? ==> table.Ok? && exists route :: route in table.value && route.iface == r.value && Matches(ip, route)
  {
    match ifname
    case Some(name) => Ok(name)
    case None =>
      if table.Err? then Err(RouteTable(table.error))
      else
        match BestRoute(ip, table.value)
        case None => Err(NoRoute)
        case Some(route) => Ok(route.iface)
  }

  /** A configured name is taken whatever the table holds; without one, a
      table that cannot be read is an error, a readable table yields the
      interface of a matching route that no matching route beats, and
      `NoRoute` exactly when no route matches. */
  lemma InterfaceSpec(ifname: Option<string>, ip: u32, table: Result<seq<Route>, string>)
    ensures ifname.Some? ==> Interface(ifname, ip, table) == Ok(ifname.value)
    ensures ifname.None? && table.Err? ==> Interface(ifname, ip, table) == Err(RouteTable(table.error))
    ensures ifname.None? && table.Ok? ==>
      var rs := table.value;
      && (Interface(ifname, ip, table) == Err(NoRoute) <==> forall j :: 0 <= j < |rs| ==> !Matches(ip, rs[j]))
      && (Interface(ifname, ip, table).Ok? ==>
            exists i :: 0 <= i < |rs| && rs[i].iface == Interface(ifname, ip, table).value
              && Matches(ip, rs[i])
              && forall j :: 0 <= j < |rs| && Matches(ip, rs[j]) ==> !Better(rs[j], rs[i]))
  {
    if ifname.None? && table.Ok? {
      BestRouteSpec(ip, table.value);
    }
  }
}
