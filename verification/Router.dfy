/** The Router of pkg/vif on Linux: it keeps the policy routing table in step with the subnets that
    are to be routed through the device and with the never-proxied ones. */
module Router {
  import opened IpPrefix
  import opened Wrappers

  datatype Route = Route(interfaceIndex: int, interfaceName: string, localIP: Addr, routedNet: Prefix,
                         gateway: Addr, isDefault: bool)

  /** The device, and the owned address of each family; these do not change. */
  datatype Config = Config(index: int, name: string, owned4: Option<Addr>, owned6: Option<Addr>)

  /** What the operating system answers: the default route, the best route to a prefix, and all routes. */
  datatype OsView = OsView(defaultRoute: Option<Route>, bestRoute: Prefix -> Option<Route>, routes: seq<Route>)

  /** The arguments of UpdateRoutes. */
  datatype Request = Request(pleaseProxy: seq<Prefix>, dontProxy: seq<Prefix>, overrides: seq<Prefix>)

  // ---------- Routes ----------

  function MaskedPrefix(p: Prefix): Prefix {
    if IsValid(p) then Prefix(Masked(p.addr, p.bits), p.bits) else Prefix([], -1)
  }

  function Unspecified(a: Addr): Addr {
    if Is4(a) then [0, 0, 0, 0] else [0, 0, 0, 0, 0, 0, 0, 0, 0, 0, 0, 0, 0, 0, 0, 0]
  }

  /** `routing.NewRoute`. */
  function NewRoute(p: Prefix, index: int, name: string): Route {
    Route(index, name, Unspecified(p.addr), MaskedPrefix(p), Unspecified(p.addr), false)
  }

  /** `subnetRoute`. */
  function SubnetRoute(cfg: Config, sn: Prefix): Route {
    var r := NewRoute(sn, cfg.index, cfg.name);
    var owned := if Is4(sn.addr) then cfg.owned4 else cfg.owned6;
    if owned.Some? then r.(localIP := owned.value) else r
  }

  predicate SameAddrFamily(a: Addr, candidate: Addr) {
    candidate != [] && Is4(a) == Is4(candidate)
  }

  /** `routeVia`. */
  function RouteVia(sn: Prefix, base: Route): Route {
    var r := NewRoute(sn, base.interfaceIndex, base.interfaceName);
    var r1 := if SameAddrFamily(sn.addr, base.gateway) then r.(gateway := base.gateway) else r;
    if SameAddrFamily(sn.addr, base.localIP) then r1.(localIP := base.localIP) else r1
  }

  /** A route that may lead to the address without going through our device or a default route. */
  predicate Eligible(r: Route, a: Addr, ourName: string) {
    !r.isDefault && r.routedNet.bits != 1 && r.interfaceName != ourName && Contains(r.routedNet, a)
  }

  /** No eligible route among the first `n` has more bits. */
  ghost predicate AtMost(table: seq<Route>, n: nat, a: Addr, ourName: string, bits: int) {
    forall i :: 0 <= i < n && i < |table| && Eligible(table[i], a, ourName) ==> table[i].routedNet.bits <= bits
  }

  /** The first of the most specific eligible routes. */
  ghost predicate MostSpecific(table: seq<Route>, a: Addr, ourName: string, best: Option<Route>) {
    if best.None? then forall i :: 0 <= i < |table| ==> !Eligible(table[i], a, ourName)
    else exists k ::
      && 0 <= k < |table| && table[k] == best.value && Eligible(table[k], a, ourName)
      && AtMost(table, |table|, a, ourName, table[k].routedNet.bits)
      && AtMost(table, k, a, ourName, table[k].routedNet.bits - 1)
  }

  /** `mostSpecificRoute`. */
  method MostSpecificRoute(table: seq<Route>, a: Addr, ourName: string) returns (best: Option<Route>)
    ensures MostSpecific(table, a, ourName, best)
    ensures best == BestOf(table, a, ourName)
  {
    best := None;
    ghost var k := 0;
    for i := 0 to |table|
      invariant best == BestOf(table[..i], a, ourName)
      invariant best.None? ==> forall j :: 0 <= j < i ==> !Eligible(table[j], a, ourName)
      invariant best.Some? ==> 0 <= k < i && table[k] == best.value && Eligible(table[k], a, ourName)
      invariant best.Some? ==> AtMost(table, i, a, ourName, best.value.routedNet.bits)
      invariant best.Some? ==> AtMost(table, k, a, ourName, best.value.routedNet.bits - 1)
    {
      assert table[..i + 1][..i] == table[..i];
      var r := table[i];
      if r.isDefault || r.routedNet.bits == 1 || r.interfaceName == ourName {
        continue;
      }
      if !Contains(r.routedNet, a) {
        continue;
      }
      if best.None? || r.routedNet.bits > best.value.routedNet.bits {
        best, k := Some(r), i;
      }
    }
    assert table[..|table|] == table;
  }

  /** The same choice as a function, for use in specifications. */
  function BestOf(table: seq<Route>, a: Addr, ourName: string): Option<Route> {
    if table == [] then None else
    var best := BestOf(table[..|table| - 1], a, ourName);
    var r := table[|table| - 1];
    if Eligible(r, a, ourName) && (best.None? || r.routedNet.bits > best.value.routedNet.bits) then Some(r) else best
  }

  /** `routeViaExisting`. */
  function RouteViaExisting(cfg: Config, os: OsView, sn: Prefix, dr: Route): Route {
    var asked := os.bestRoute(sn);
    if asked.Some? && asked.value.interfaceIndex != cfg.index && asked.value.interfaceName != cfg.name then
      RouteVia(sn, asked.value)
    else
      var best := BestOf(os.routes, sn.addr, cfg.name);
      if best.Some? then RouteVia(sn, best.value) else RouteVia(sn, dr)
  }

  /** The static route of a subnet that is not to be proxied. */
  function NeverProxyRoute(cfg: Config, os: OsView, localDNS: seq<Prefix>, sn: Prefix, dr: Route): Route {
    if sn in localDNS then RouteViaExisting(cfg, os, sn, dr) else RouteVia(sn, dr)
  }

  function NeverProxyRoutes(cfg: Config, os: OsView, localDNS: seq<Prefix>, sns: seq<Prefix>, dr: Route)
      : (rs: seq<Route>)
    ensures |rs| == |sns| && forall i :: 0 <= i < |sns| ==> rs[i] == NeverProxyRoute(cfg, os, localDNS, sns[i], dr)
  {
    seq(|sns|, i requires 0 <= i < |sns| => NeverProxyRoute(cfg, os, localDNS, sns[i], dr))
  }

  function OverrideRoutes(cfg: Config, sns: seq<Prefix>): (rs: seq<Route>)
    ensures |rs| == |sns| && forall i :: 0 <= i < |sns| ==> rs[i] == NewRoute(sns[i], cfg.index, cfg.name)
  {
    seq(|sns|, i requires 0 <= i < |sns| => NewRoute(sns[i], cfg.index, cfg.name))
  }

  /** The static routes that a request asks for, in order. */
  function StaticRoutes(cfg: Config, os: OsView, localDNS: seq<Prefix>, req: Request, dr: Route): seq<Route> {
    NeverProxyRoutes(cfg, os, localDNS, req.dontProxy, dr) + OverrideRoutes(cfg, req.overrides)
  }

  /** Whatever path a static route takes, its destination is the subnet it was asked for. */
  lemma StaticRoutesGoWhereAsked(cfg: Config, os: OsView, localDNS: seq<Prefix>, req: Request, dr: Route, r: Route)
    requires r in StaticRoutes(cfg, os, localDNS, req, dr)
    ensures exists sn :: sn in req.dontProxy + req.overrides && r.routedNet == MaskedPrefix(sn)
  {
    var rs := StaticRoutes(cfg, os, localDNS, req, dr);
    var i :| 0 <= i < |rs| && rs[i] == r;
    StaticRouteAt(cfg, os, localDNS, req, dr, i);
    assert (req.dontProxy + req.overrides)[i] in req.dontProxy + req.overrides;
  }

  lemma StaticRouteAt(cfg: Config, os: OsView, localDNS: seq<Prefix>, req: Request, dr: Route, i: nat)
    requires i < |req.dontProxy + req.overrides|
    ensures |StaticRoutes(cfg, os, localDNS, req, dr)| == |req.dontProxy + req.overrides|
    ensures StaticRoutes(cfg, os, localDNS, req, dr)[i].routedNet == MaskedPrefix((req.dontProxy + req.overrides)[i])
  {
  }
}
