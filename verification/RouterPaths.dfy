/** Where the routes of the policy table lead: through which device, to which gateway and from which address. */
module RouterPaths {
  import opened IpPrefix
  import opened Router
  import opened RouterState
  import opened Wrappers

  /** A candidate that can be used for a subnet of the family; otherwise the zero address of the family is. */
  ghost predicate IsUsed(sn: Prefix, candidate: Addr, used: Addr) {
    if candidate != [] && (|candidate| == 4 <==> |sn.addr| == 4) then used == candidate
    else |used| == (if |sn.addr| == 4 then 4 else 16) && forall i :: 0 <= i < |used| ==> used[i] == 0
  }

  /** The route leads to the subnet. */
  ghost predicate LeadsTo(r: Route, sn: Prefix) {
    !r.isDefault && (IsValid(sn) ==> r.routedNet.bits == sn.bits && r.routedNet.addr == Masked(sn.addr, sn.bits))
  }

  /** And it takes the same way as another route. */
  ghost predicate Takes(r: Route, sn: Prefix, way: Route) {
    && LeadsTo(r, sn) && r.interfaceIndex == way.interfaceIndex && r.interfaceName == way.interfaceName
    && IsUsed(sn, way.gateway, r.gateway) && IsUsed(sn, way.localIP, r.localIP)
  }

  /** Or it goes through our own device, from the given address if there is one. */
  ghost predicate IsOwn(r: Route, cfg: Config, sn: Prefix, from: Option<Addr>) {
    && LeadsTo(r, sn) && r.interfaceIndex == cfg.index && r.interfaceName == cfg.name && IsUsed(sn, [], r.gateway)
    && (if from.Some? then r.localIP == from.value else IsUsed(sn, [], r.localIP))
  }

  /** The way that leads to a subnet that is not to be proxied: the default route, except for a local DNS server,
      where it is what the operating system answers, unless that is our own device, or the most specific other
      route. */
  ghost predicate IsWay(cfg: Config, os: OsView, localDNS: seq<Prefix>, sn: Prefix, dr: Route, way: Route) {
    if sn !in localDNS then way == dr
    else
      var asked := os.bestRoute(sn);
      if asked.Some? && asked.value.interfaceIndex != cfg.index && asked.value.interfaceName != cfg.name
      then way == asked.value
      else MostSpecific(os.routes, sn.addr, cfg.name, Some(way))
           || (MostSpecific(os.routes, sn.addr, cfg.name, None) && way == dr)
  }

  lemma {:induction false} BestIsMostSpecific(table: seq<Route>, a: Addr, ourName: string)
    ensures MostSpecific(table, a, ourName, BestOf(table, a, ourName))
    decreases |table|
  {
    if table != [] {
      var front, r := table[..|table| - 1], table[|table| - 1];
      BestIsMostSpecific(front, a, ourName);
      LastDecides(front, r, a, ourName, BestOf(front, a, ourName));
      assert table == front + [r];
    }
  }

  lemma LastDecides(front: seq<Route>, r: Route, a: Addr, ourName: string, best: Option<Route>)
    requires MostSpecific(front, a, ourName, best)
    ensures var wins := Eligible(r, a, ourName) && (best.None? || r.routedNet.bits > best.value.routedNet.bits);
            MostSpecific(front + [r], a, ourName, if wins then Some(r) else best)
  {
    var table := front + [r];
    assert forall i :: 0 <= i < |front| ==> table[i] == front[i];
    if Eligible(r, a, ourName) && (best.None? || r.routedNet.bits > best.value.routedNet.bits) {
      LastWins(front, r, a, ourName, best);
    } else if best.Some? {
      var k :| 0 <= k < |front| && front[k] == best.value && Eligible(front[k], a, ourName)
        && AtMost(front, |front|, a, ourName, front[k].routedNet.bits)
        && AtMost(front, k, a, ourName, front[k].routedNet.bits - 1);
      assert table[k] == best.value;
      assert AtMost(table, |table|, a, ourName, table[k].routedNet.bits);
      assert AtMost(table, k, a, ourName, table[k].routedNet.bits - 1);
    }
  }

  lemma LastWins(front: seq<Route>, r: Route, a: Addr, ourName: string, best: Option<Route>)
    requires MostSpecific(front, a, ourName, best) && Eligible(r, a, ourName)
    requires best.None? || r.routedNet.bits > best.value.routedNet.bits
    ensures MostSpecific(front + [r], a, ourName, Some(r))
  {
    var table, k := front + [r], |front|;
    assert forall i :: 0 <= i < |front| ==> table[i] == front[i];
    assert AtMost(front, |front|, a, ourName, r.routedNet.bits - 1);
    assert table[k] == r;
    assert AtMost(table, k, a, ourName, r.routedNet.bits - 1);
    assert AtMost(table, |table|, a, ourName, r.routedNet.bits);
  }

  /** What the search of the table finds is a route of it, not the default route or half of it, not on our own
      device, and no such route is more specific. */
  lemma FoundIsBest(table: seq<Route>, a: Addr, ourName: string, best: Route)
    requires MostSpecific(table, a, ourName, Some(best))
    ensures best in table && !best.isDefault && best.routedNet.bits != 1 && best.interfaceName != ourName
    ensures Contains(best.routedNet, a)
    ensures forall r :: r in table && Contains(r.routedNet, a) && r.routedNet.bits > best.routedNet.bits ==>
              r.isDefault || r.routedNet.bits == 1 || r.interfaceName == ourName
  {
    forall r | r in table && Eligible(r, a, ourName)
      ensures r.routedNet.bits <= best.routedNet.bits
    {
      var i :| 0 <= i < |table| && table[i] == r;
    }
  }

  lemma RouteViaTakes(sn: Prefix, way: Route)
    ensures Takes(RouteVia(sn, way), sn, way)
  {
  }

  lemma NeverProxyTakes(cfg: Config, os: OsView, localDNS: seq<Prefix>, sn: Prefix, dr: Route) returns (way: Route)
    ensures IsWay(cfg, os, localDNS, sn, dr, way) && Takes(NeverProxyRoute(cfg, os, localDNS, sn, dr), sn, way)
  {
    BestIsMostSpecific(os.routes, sn.addr, cfg.name);
    var asked, best := os.bestRoute(sn), BestOf(os.routes, sn.addr, cfg.name);
    if sn !in localDNS {
      way := dr;
    } else if asked.Some? && asked.value.interfaceIndex != cfg.index && asked.value.interfaceName != cfg.name {
      way := asked.value;
    } else {
      way := if best.Some? then best.value else dr;
    }
    RouteViaTakes(sn, way);
  }

  /** After an update every subnet that is not to be proxied has a route that takes its way. */
  lemma NeverProxiedTakesItsWay(cfg: Config, os: OsView, localDNS: seq<Prefix>, s: State, req: Request, sn: Prefix)
    returns (r: Route, way: Route)
    requires os.defaultRoute.Some? && sn in req.dontProxy
    ensures r in Updated(cfg, os, localDNS, s, req).routes
    ensures IsWay(cfg, os, localDNS, sn, os.defaultRoute.value, way) && Takes(r, sn, way)
  {
    var dr := os.defaultRoute.value;
    r := NeverProxyRoute(cfg, os, localDNS, sn, dr);
    way := NeverProxyTakes(cfg, os, localDNS, sn, dr);
    var i :| 0 <= i < |req.dontProxy| && req.dontProxy[i] == sn;
    assert StaticRoutes(cfg, os, localDNS, req, dr)[i] == r;
  }

  lemma NewRouteIsOwn(cfg: Config, sn: Prefix)
    ensures IsOwn(NewRoute(sn, cfg.index, cfg.name), cfg, sn, None)
  {
  }

  lemma StaticAt(cfg: Config, os: OsView, localDNS: seq<Prefix>, req: Request, dr: Route, i: nat)
    requires i < |StaticRoutes(cfg, os, localDNS, req, dr)|
    ensures var rs, n := StaticRoutes(cfg, os, localDNS, req, dr), |req.dontProxy|;
            && |rs| == n + |req.overrides|
            && rs[i] == if i < n then NeverProxyRoute(cfg, os, localDNS, req.dontProxy[i], dr)
                        else NewRoute(req.overrides[i - n], cfg.index, cfg.name)
  {
  }

  /** An exception to these goes through our own device. */
  lemma OverrideGoesThroughDevice(cfg: Config, os: OsView, localDNS: seq<Prefix>, s: State, req: Request, sn: Prefix)
    returns (r: Route)
    requires os.defaultRoute.Some? && sn in req.overrides
    ensures r in Updated(cfg, os, localDNS, s, req).routes && IsOwn(r, cfg, sn, None)
  {
    r := NewRoute(sn, cfg.index, cfg.name);
    NewRouteIsOwn(cfg, sn);
    var i :| 0 <= i < |req.overrides| && req.overrides[i] == sn;
    StaticAt(cfg, os, localDNS, req, os.defaultRoute.value, |req.dontProxy| + i);
    assert r in SetOf(StaticRoutes(cfg, os, localDNS, req, os.defaultRoute.value));
  }

  /** The route of a subnet that is not to be proxied. */
  ghost predicate IsNeverProxy(cfg: Config, os: OsView, localDNS: seq<Prefix>, sn: Prefix, dr: Route, r: Route) {
    r.routedNet == MaskedPrefix(sn) && exists way :: IsWay(cfg, os, localDNS, sn, dr, way) && Takes(r, sn, way)
  }

  ghost predicate IsOverride(cfg: Config, sn: Prefix, r: Route) {
    r.routedNet == MaskedPrefix(sn) && IsOwn(r, cfg, sn, None)
  }

  lemma StaticIsNeverProxy(cfg: Config, os: OsView, localDNS: seq<Prefix>, sn: Prefix, dr: Route)
    ensures IsNeverProxy(cfg, os, localDNS, sn, dr, NeverProxyRoute(cfg, os, localDNS, sn, dr))
  {
    var way := NeverProxyTakes(cfg, os, localDNS, sn, dr);
  }

  /** There are no other static routes. */
  lemma EveryStaticIsAsked(cfg: Config, os: OsView, localDNS: seq<Prefix>, req: Request, dr: Route, r: Route)
    requires r in StaticRoutes(cfg, os, localDNS, req, dr)
    ensures || (exists sn :: sn in req.dontProxy && IsNeverProxy(cfg, os, localDNS, sn, dr, r))
            || (exists sn :: sn in req.overrides && IsOverride(cfg, sn, r))
  {
    var n := |req.dontProxy|;
    var i :| 0 <= i < |StaticRoutes(cfg, os, localDNS, req, dr)| && StaticRoutes(cfg, os, localDNS, req, dr)[i] == r;
    StaticAt(cfg, os, localDNS, req, dr, i);
    if i < n {
      StaticIsNeverProxy(cfg, os, localDNS, req.dontProxy[i], dr);
      assert req.dontProxy[i] in req.dontProxy;
    } else {
      NewRouteIsOwn(cfg, req.overrides[i - n]);
      assert req.overrides[i - n] in req.overrides && IsOverride(cfg, req.overrides[i - n], r);
    }
  }

  /** The way to a subnet that is not to be proxied never leads through our own device, unless the default route
      does. */
  lemma WayAvoidsDevice(cfg: Config, os: OsView, localDNS: seq<Prefix>, sn: Prefix, dr: Route, way: Route)
    requires IsWay(cfg, os, localDNS, sn, dr, way) && dr.interfaceName != cfg.name
    ensures way.interfaceName != cfg.name
  {
  }

  lemma RoutedIsRequested(cfg: Config, os: OsView, localDNS: seq<Prefix>, s: State, req: Request, r: Route)
    requires Inv(cfg, s) && WellFormed(req) && r in Updated(cfg, os, localDNS, s, req).routes
    ensures r in NewStatics(cfg, os, localDNS, req) || r.routedNet in req.pleaseProxy
  {
    UpdateKeepsInv(cfg, os, localDNS, s, req);
    UpdatedRoutes(cfg, os, localDNS, s, req);
    var s' := Updated(cfg, os, localDNS, s, req);
    if r !in s'.statics {
      assert r in RoutesFor(cfg, s'.routed);
      var p :| p in s'.routed && SubnetRoute(cfg, p) == r;
      assert Canonical(p);
    }
  }

  /** Nothing that must not be proxied is: in the whole table no route to such a subnet goes through our own
      device, unless it is an exception, or the default route does. */
  lemma NeverProxiedAvoidsDevice(cfg: Config, os: OsView, localDNS: seq<Prefix>, s: State, req: Request, sn: Prefix,
                                 r: Route)
    requires Inv(cfg, s) && WellFormed(req) && os.defaultRoute.Some? && os.defaultRoute.value.interfaceName != cfg.name
    requires sn in req.dontProxy && forall o :: o in req.overrides ==> MaskedPrefix(o) != MaskedPrefix(sn)
    requires r in Updated(cfg, os, localDNS, s, req).routes && r.routedNet == MaskedPrefix(sn)
    ensures r.interfaceName != cfg.name
  {
    var dr := os.defaultRoute.value;
    RoutedIsRequested(cfg, os, localDNS, s, req, r);
    EveryStaticIsAsked(cfg, os, localDNS, req, dr, r);
    var sn' :| sn' in req.dontProxy && IsNeverProxy(cfg, os, localDNS, sn', dr, r);
    var way :| IsWay(cfg, os, localDNS, sn', dr, way) && Takes(r, sn', way);
    WayAvoidsDevice(cfg, os, localDNS, sn', dr, way);
  }

  lemma SubnetRouteIsOwn(cfg: Config, p: Prefix)
    ensures IsOwn(SubnetRoute(cfg, p), cfg, p, if |p.addr| == 4 then cfg.owned4 else cfg.owned6)
  {
  }

  /** Every requested subnet is routed through our own device, from its owned address of the family. */
  lemma RequestedGoesThroughDevice(cfg: Config, os: OsView, localDNS: seq<Prefix>, s: State, req: Request, p: Prefix)
    returns (r: Route)
    requires Exact(cfg, s) && AllSpared(cfg, os, localDNS, s, req) && p in req.pleaseProxy
    ensures r in Updated(cfg, os, localDNS, s, req).routes
    ensures IsOwn(r, cfg, p, if |p.addr| == 4 then cfg.owned4 else cfg.owned6)
  {
    r := SubnetRoute(cfg, p);
    SubnetRouteIsOwn(cfg, p);
    UpdateIsExactly(cfg, os, localDNS, s, req);
    var s' := Updated(cfg, os, localDNS, s, req);
    assert p in s'.routed;
    assert r in RoutesFor(cfg, s'.routed);
  }
}
