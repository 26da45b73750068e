/** The Router object and the policy table it drives, method by method as in pkg/vif/router.go. */
module RouterObject {
  import opened IpPrefix
  import opened Router
  import opened RouterState
  import opened Wrappers

  /** The Linux policy table, as far as adding and removing routes goes; both always succeed. */
  class Table {
    var routes: set<Route>

    constructor ()
      ensures routes == {}
    {
      routes := {};
    }

    method Add(r: Route)
      modifies this
      ensures routes == old(routes) + {r}
    {
      routes := routes + {r};
    }

    method Remove(r: Route)
      modifies this
      ensures routes == old(routes) - {r}
    {
      routes := routes - {r};
    }
  }

  /** `subnet.Partition` by membership in `wanted`. */
  method Partition(ps: seq<Prefix>, wanted: seq<Prefix>) returns (matched: seq<Prefix>, notMatched: seq<Prefix>)
    ensures matched == Select(ps, wanted, true) && notMatched == Select(ps, wanted, false)
  {
    matched, notMatched := [], [];
    for i := 0 to |ps|
      invariant matched == Select(ps[..i], wanted, true) && notMatched == Select(ps[..i], wanted, false)
    {
      assert ps[..i + 1][..i] == ps[..i];
      if ps[i] in wanted {
        matched := matched + [ps[i]];
      } else {
        notMatched := notMatched + [ps[i]];
      }
    }
    assert ps[..|ps|] == ps;
  }

  /** The routes of `rs` that do not occur in `others`. */
  method Missing(rs: seq<Route>, others: seq<Route>) returns (missing: seq<Route>)
    ensures forall r :: r in missing <==> r in rs && r !in others
  {
    missing := [];
    for i := 0 to |rs|
      invariant forall r :: r in missing <==> r in rs[..i] && r !in others
    {
      if rs[i] !in others {
        missing := missing + [rs[i]];
      }
    }
  }

  class RouterObject {
    const cfg: Config
    const table: Table
    var routedSubnets: seq<Prefix>
    var staticOverrides: seq<Route>
    var localDNSRoutes: seq<Prefix>

    constructor (cfg: Config, table: Table)
      ensures this.cfg == cfg && this.table == table
      ensures routedSubnets == [] && staticOverrides == [] && localDNSRoutes == []
    {
      this.cfg, this.table := cfg, table;
      routedSubnets, staticOverrides, localDNSRoutes := [], [], [];
    }

    ghost function View(): State
      reads this, table
    {
      State(table.routes, routedSubnets, staticOverrides)
    }

    /** `SetLocalDNSRoutes`. */
    method SetLocalDNSRoutes(routes: seq<Prefix>)
      modifies this`localDNSRoutes
      ensures localDNSRoutes == routes
    {
      localDNSRoutes := routes;
    }

    /** `dropStaticOverrides`. */
    method DropStaticOverrides()
      modifies this`staticOverrides, table
      ensures table.routes == old(table.routes) - SetOf(old(staticOverrides)) && staticOverrides == []
    {
      for i := 0 to |staticOverrides|
        invariant staticOverrides == old(staticOverrides)
        invariant table.routes == old(table.routes) - SetOf(staticOverrides[..i])
      {
        table.Remove(staticOverrides[i]);
      }
      assert staticOverrides[..|staticOverrides|] == staticOverrides;
      staticOverrides := [];
    }

    method RemoveSubnets(sns: seq<Prefix>)
      modifies table
      ensures table.routes == old(table.routes) - RoutesFor(cfg, sns)
    {
      for i := 0 to |sns|
        invariant table.routes == old(table.routes) - RoutesFor(cfg, sns[..i])
      {
        table.Remove(SubnetRoute(cfg, sns[i]));
        assert sns[..i + 1] == sns[..i] + [sns[i]];
        RoutesForAppend(cfg, sns[..i], [sns[i]]);
        assert RoutesFor(cfg, [sns[i]]) == {SubnetRoute(cfg, sns[i])};
      }
      assert sns[..|sns|] == sns;
    }

    method AddSubnets(sns: seq<Prefix>)
      modifies table
      ensures table.routes == old(table.routes) + RoutesFor(cfg, sns)
    {
      for i := 0 to |sns|
        invariant table.routes == old(table.routes) + RoutesFor(cfg, sns[..i])
      {
        table.Add(SubnetRoute(cfg, sns[i]));
        assert sns[..i + 1] == sns[..i] + [sns[i]];
        RoutesForAppend(cfg, sns[..i], [sns[i]]);
        assert RoutesFor(cfg, [sns[i]]) == {SubnetRoute(cfg, sns[i])};
      }
      assert sns[..|sns|] == sns;
    }

    /** `createRoutesDelta`. */
    method CreateRoutesDelta(rs: seq<Route>) returns (added: seq<Route>, removed: seq<Route>)
      ensures forall r :: r in added <==> r in rs && r !in staticOverrides
      ensures forall r :: r in removed <==> r in staticOverrides && r !in rs
    {
      added := Missing(rs, staticOverrides);
      removed := Missing(staticOverrides, rs);
    }

    /** `routeViaExisting` for a local DNS server, `routeViaDefault` for other subnets. */
    method MakeNeverProxyRoute(os: OsView, sn: Prefix, dr: Route) returns (r: Route)
      ensures r == NeverProxyRoute(cfg, os, localDNSRoutes, sn, dr)
    {
      if sn !in localDNSRoutes {
        return RouteVia(sn, dr);
      }
      var asked := os.bestRoute(sn);
      if asked.Some? && asked.value.interfaceIndex != cfg.index && asked.value.interfaceName != cfg.name {
        return RouteVia(sn, asked.value);
      }
      var best := MostSpecificRoute(os.routes, sn.addr, cfg.name);
      r := RouteVia(sn, if best.Some? then best.value else dr);
    }

    method MakeStaticRoutes(os: OsView, req: Request, dr: Route) returns (rs: seq<Route>)
      ensures rs == StaticRoutes(cfg, os, localDNSRoutes, req, dr)
    {
      rs := MakeNeverProxyRoutes(os, req.dontProxy, dr);
      var overrides := MakeOverrideRoutes(req.overrides);
      rs := rs + overrides;
    }

    method MakeNeverProxyRoutes(os: OsView, sns: seq<Prefix>, dr: Route) returns (rs: seq<Route>)
      ensures rs == NeverProxyRoutes(cfg, os, localDNSRoutes, sns, dr)
    {
      rs := [];
      for i := 0 to |sns|
        invariant |rs| == i && forall k :: 0 <= k < i ==> rs[k] == NeverProxyRoute(cfg, os, localDNSRoutes, sns[k], dr)
      {
        var r := MakeNeverProxyRoute(os, sns[i], dr);
        rs := rs + [r];
      }
    }

    method MakeOverrideRoutes(sns: seq<Prefix>) returns (rs: seq<Route>)
      ensures rs == OverrideRoutes(cfg, sns)
    {
      rs := [];
      for i := 0 to |sns|
        invariant |rs| == i && forall k :: 0 <= k < i ==> rs[k] == NewRoute(sns[k], cfg.index, cfg.name)
      {
        rs := rs + [NewRoute(sns[i], cfg.index, cfg.name)];
      }
    }

    /** Exchange the current static routes for new ones. */
    method ReplaceStatics(staticRoutes: seq<Route>)
      modifies this`staticOverrides, table
      ensures staticOverrides == staticRoutes
      ensures var before, after := SetOf(old(staticOverrides)), SetOf(staticRoutes);
              table.routes == (old(table.routes) + (after - before)) - (before - after)
    {
      var addRts, removeRts := CreateRoutesDelta(staticRoutes);
      assert SetOf(addRts) == SetOf(staticRoutes) - SetOf(staticOverrides);
      assert SetOf(removeRts) == SetOf(staticOverrides) - SetOf(staticRoutes);
      ExchangeRoutes(addRts, removeRts);
      staticOverrides := staticRoutes;
    }

    method ExchangeRoutes(addRts: seq<Route>, removeRts: seq<Route>)
      modifies table
      ensures table.routes == (old(table.routes) + SetOf(addRts)) - SetOf(removeRts)
    {
      for i := 0 to |addRts|
        invariant table.routes == old(table.routes) + SetOf(addRts[..i])
      {
        table.Add(addRts[i]);
      }
      assert addRts[..|addRts|] == addRts;
      for i := 0 to |removeRts|
        invariant table.routes == (old(table.routes) + SetOf(addRts)) - SetOf(removeRts[..i])
      {
        table.Remove(removeRts[i]);
      }
      assert removeRts[..|removeRts|] == removeRts;
    }

    /** `UpdateRoutes`. It fails, after the subnets are updated, when there is no default route. */
    method UpdateRoutes(os: OsView, req: Request) returns (ok: bool)
      modifies this`routedSubnets, this`staticOverrides, table
      ensures View() == Updated(cfg, os, localDNSRoutes, old(View()), req)
      ensures ok <==> os.defaultRoute.Some?
    {
      DropStaticOverrides();
      var kept, removed := Partition(routedSubnets, req.pleaseProxy);
      var _, added := Partition(req.pleaseProxy, kept);
      routedSubnets := kept + added;
      RemoveSubnets(removed);
      AddSubnets(added);
      if os.defaultRoute.None? {
        return false;
      }
      var staticRoutes := MakeStaticRoutes(os, req, os.defaultRoute.value);
      assert SetOf([]) == {};
      ReplaceStatics(staticRoutes);
      return true;
    }

    /** `Close`. */
    method Close()
      modifies this`staticOverrides, table
      ensures View() == Closed(cfg, old(View()))
    {
      RemoveSubnets(routedSubnets);
      DropStaticOverrides();
    }
  }
}
