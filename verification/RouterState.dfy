/** The bookkeeping of the Router: what UpdateRoutes and Close make of the policy table. */
module RouterState {
  import opened IpPrefix
  import opened Router
  import opened Wrappers

  /** The policy table, the subnets being routed, and the static routes that were added. */
  datatype State = State(routes: set<Route>, routed: seq<Prefix>, statics: seq<Route>)

  /** The elements of `ps` that do (`keep`) or do not occur in `wanted`, in order. */
  function Select(ps: seq<Prefix>, wanted: seq<Prefix>, keep: bool): (r: seq<Prefix>)
    ensures forall p :: p in r <==> p in ps && (p in wanted) == keep
  {
    if ps == [] then [] else
    var p := ps[|ps| - 1];
    var r := Select(ps[..|ps| - 1], wanted, keep);
    assert ps == ps[..|ps| - 1] + [p];
    if (p in wanted) == keep then r + [p] else r
  }

  ghost function RoutesFor(cfg: Config, sns: seq<Prefix>): set<Route> {
    set sn | sn in sns :: SubnetRoute(cfg, sn)
  }

  ghost function SetOf(rs: seq<Route>): set<Route> {
    set r | r in rs
  }

  /** UpdateRoutes, for a request, on a table whose additions and removals succeed. */
  ghost function Updated(cfg: Config, os: OsView, localDNS: seq<Prefix>, s: State, req: Request): State {
    var kept := Select(s.routed, req.pleaseProxy, true);
    var removed := Select(s.routed, req.pleaseProxy, false);
    var added := Select(req.pleaseProxy, kept, false);
    var routes := s.routes - SetOf(s.statics) - RoutesFor(cfg, removed) + RoutesFor(cfg, added);
    match os.defaultRoute
    case None => State(routes, kept + added, [])
    case Some(dr) =>
      var statics := StaticRoutes(cfg, os, localDNS, req, dr);
      State(routes + SetOf(statics), kept + added, statics)
  }

  /** Close, which forgets the static routes but not the routed subnets. */
  ghost function Closed(cfg: Config, s: State): State {
    State(s.routes - RoutesFor(cfg, s.routed) - SetOf(s.statics), s.routed, [])
  }

  // ---------- The invariant ----------

  /** The prefix is valid and has no bits beyond its mask, as the prefixes of cluster subnets have. */
  predicate Canonical(p: Prefix) {
    IsValid(p) && MaskedPrefix(p) == p
  }

  /** A request for canonical subnets whose exceptions are not the very subnets it asks to be routed. */
  ghost predicate WellFormed(req: Request) {
    && (forall p :: p in req.pleaseProxy ==> Canonical(p))
    && (forall p :: p in req.dontProxy || p in req.overrides ==> MaskedPrefix(p) !in req.pleaseProxy)
  }

  ghost predicate Inv(cfg: Config, s: State) {
    && s.routes == RoutesFor(cfg, s.routed) + SetOf(s.statics)
    && (forall p :: p in s.routed ==> Canonical(p))
    && (forall r :: r in s.statics ==> r.routedNet !in s.routed)
  }

  lemma RoutesForAppend(cfg: Config, ps: seq<Prefix>, qs: seq<Prefix>)
    ensures RoutesFor(cfg, ps + qs) == RoutesFor(cfg, ps) + RoutesFor(cfg, qs)
  {
    forall r | r in RoutesFor(cfg, ps) + RoutesFor(cfg, qs) ensures r in RoutesFor(cfg, ps + qs) {
      var p :| (p in ps || p in qs) && SubnetRoute(cfg, p) == r;
      assert p in ps + qs;
    }
  }

  /** After every update, with or without a default route, the table holds one route for each requested
      subnet and the static routes, and nothing else. */
  lemma UpdateKeepsInv(cfg: Config, os: OsView, localDNS: seq<Prefix>, s: State, req: Request)
    requires Inv(cfg, s) && WellFormed(req)
    ensures Inv(cfg, Updated(cfg, os, localDNS, s, req))
  {
    var kept := Select(s.routed, req.pleaseProxy, true);
    var added := Select(req.pleaseProxy, kept, false);
    RoutesForAppend(cfg, kept, added);
    WellFormedResult(cfg, os, localDNS, s, req);
  }

  lemma WellFormedResult(cfg: Config, os: OsView, localDNS: seq<Prefix>, s: State, req: Request)
    requires WellFormed(req)
    ensures var s' := Updated(cfg, os, localDNS, s, req);
            && (forall p :: p in s'.routed ==> Canonical(p))
            && (forall r :: r in s'.statics ==> r.routedNet !in s'.routed)
  {
    var s' := Updated(cfg, os, localDNS, s, req);
    if os.defaultRoute.Some? {
      forall r | r in s'.statics ensures r.routedNet !in s'.routed {
        StaticRoutesGoWhereAsked(cfg, os, localDNS, req, os.defaultRoute.value, r);
      }
    }
  }

  // ---------- Any subnets ----------

  ghost predicate Exact(cfg: Config, s: State) {
    s.routes == RoutesFor(cfg, s.routed) + SetOf(s.statics)
  }

  /** Two spellings of one network. */
  predicate SameNetwork(p: Prefix, q: Prefix) {
    MaskedPrefix(p) == MaskedPrefix(q) && Is4(p.addr) == Is4(q.addr)
  }

  /** These, and no others, share a route. */
  lemma SharedRouteExactly(cfg: Config, p: Prefix, q: Prefix)
    ensures SubnetRoute(cfg, p) == SubnetRoute(cfg, q) <==> SameNetwork(p, q)
  {
    assert Unspecified(p.addr) == Unspecified(q.addr) <==> Is4(p.addr) == Is4(q.addr);
  }

  /** The static routes that the update adds. */
  function NewStatics(cfg: Config, os: OsView, localDNS: seq<Prefix>, req: Request): seq<Route> {
    if os.defaultRoute.Some? then StaticRoutes(cfg, os, localDNS, req, os.defaultRoute.value) else []
  }

  /** The update drops the network under another spelling. */
  ghost predicate Dropped(s: State, req: Request, p: Prefix) {
    exists q :: q in s.routed && q !in req.pleaseProxy && SameNetwork(q, p)
  }

  /** The update adds the network under another spelling, or as a static route through the device. */
  ghost predicate Renewed(cfg: Config, os: OsView, localDNS: seq<Prefix>, s: State, req: Request, p: Prefix) {
    || (exists q :: q in req.pleaseProxy && q !in s.routed && SameNetwork(q, p))
    || SubnetRoute(cfg, p) in NewStatics(cfg, os, localDNS, req)
  }

  /** A subnet that stays: it is not dropped under another spelling and no static route takes its place, or it
      is renewed. */
  ghost predicate Spared(cfg: Config, os: OsView, localDNS: seq<Prefix>, s: State, req: Request, p: Prefix) {
    (!Dropped(s, req, p) && SubnetRoute(cfg, p) !in s.statics) || Renewed(cfg, os, localDNS, s, req, p)
  }

  /** Every subnet that is routed and requested again is spared. */
  ghost predicate AllSpared(cfg: Config, os: OsView, localDNS: seq<Prefix>, s: State, req: Request) {
    forall p :: p in s.routed && p in req.pleaseProxy ==> Spared(cfg, os, localDNS, s, req, p)
  }

  /** The subnets that an update adds. */
  function AddedBy(s: State, req: Request): seq<Prefix> {
    Select(req.pleaseProxy, Select(s.routed, req.pleaseProxy, true), false)
  }

  lemma RenewedMeansAdded(cfg: Config, os: OsView, localDNS: seq<Prefix>, s: State, req: Request, p: Prefix)
    ensures Renewed(cfg, os, localDNS, s, req, p) <==>
              SubnetRoute(cfg, p) in RoutesFor(cfg, AddedBy(s, req)) + SetOf(NewStatics(cfg, os, localDNS, req))
  {
    assert forall q :: q in AddedBy(s, req) <==> q in req.pleaseProxy && q !in s.routed;
  }

  lemma UpdatedRoutes(cfg: Config, os: OsView, localDNS: seq<Prefix>, s: State, req: Request)
    ensures var s' := Updated(cfg, os, localDNS, s, req);
            && s'.statics == NewStatics(cfg, os, localDNS, req)
            && s'.routes == s.routes - SetOf(s.statics) - RoutesFor(cfg, Select(s.routed, req.pleaseProxy, false))
                            + (RoutesFor(cfg, AddedBy(s, req)) + SetOf(s'.statics))
  {
    if os.defaultRoute.None? {
      assert SetOf([]) == {};
    }
  }

  lemma SparedMeansThere(cfg: Config, os: OsView, localDNS: seq<Prefix>, s: State, req: Request, p: Prefix)
    requires Exact(cfg, s) && p in s.routed && p in req.pleaseProxy
    ensures Spared(cfg, os, localDNS, s, req, p) <==> SubnetRoute(cfg, p) in Updated(cfg, os, localDNS, s, req).routes
  {
    assert SubnetRoute(cfg, p) in s.routes;
    UpdatedRoutes(cfg, os, localDNS, s, req);
    RenewedMeansAdded(cfg, os, localDNS, s, req, p);
  }

  lemma RoutesSplit(cfg: Config, ps: seq<Prefix>, wanted: seq<Prefix>)
    ensures RoutesFor(cfg, ps) == RoutesFor(cfg, Select(ps, wanted, true)) + RoutesFor(cfg, Select(ps, wanted, false))
  {
    var kept, removed := Select(ps, wanted, true), Select(ps, wanted, false);
    assert forall p :: p in ps ==> p in kept || p in removed;
    RoutesForAppend(cfg, kept, removed);
    assert forall p :: p in ps <==> p in kept + removed;
  }

  /** Taking away and adding: only what is kept can be missing afterwards. */
  lemma OnlyKeptCanBeMissing(kept: set<Route>, removed: set<Route>, statics: set<Route>, added: set<Route>)
    ensures var routes := kept + removed + statics - statics - removed + added;
            routes == kept + added <==> kept <= routes
  {
  }

  lemma KeptRoutes(cfg: Config, s: State, req: Request, routes: set<Route>)
    ensures RoutesFor(cfg, Select(s.routed, req.pleaseProxy, true)) <= routes <==>
              forall p :: p in s.routed && p in req.pleaseProxy ==> SubnetRoute(cfg, p) in routes
  {
    var kept := Select(s.routed, req.pleaseProxy, true);
    assert forall p :: p in s.routed && p in req.pleaseProxy ==>
        p in kept && SubnetRoute(cfg, p) in RoutesFor(cfg, kept);
  }

  lemma ExactWhenKept(cfg: Config, os: OsView, localDNS: seq<Prefix>, s: State, req: Request)
    requires Exact(cfg, s)
    ensures var s' := Updated(cfg, os, localDNS, s, req);
            Exact(cfg, s') <==> RoutesFor(cfg, Select(s.routed, req.pleaseProxy, true)) <= s'.routes
  {
    var kept, removed := Select(s.routed, req.pleaseProxy, true), Select(s.routed, req.pleaseProxy, false);
    var added := RoutesFor(cfg, AddedBy(s, req)) + SetOf(NewStatics(cfg, os, localDNS, req));
    UpdatedRoutes(cfg, os, localDNS, s, req);
    RoutesSplit(cfg, s.routed, req.pleaseProxy);
    RoutesForAppend(cfg, kept, AddedBy(s, req));
    OnlyKeptCanBeMissing(RoutesFor(cfg, kept), RoutesFor(cfg, removed), SetOf(s.statics), added);
    assert RoutesFor(cfg, kept) + RoutesFor(cfg, AddedBy(s, req)) + SetOf(NewStatics(cfg, os, localDNS, req))
        == RoutesFor(cfg, kept) + added;
  }

  /** An update of an exact table, for any subnets, masked or not, and any exceptions, makes an exact table if
      and only if every subnet that stays is spared. */
  lemma UpdateIsExactly(cfg: Config, os: OsView, localDNS: seq<Prefix>, s: State, req: Request)
    requires Exact(cfg, s)
    ensures Exact(cfg, Updated(cfg, os, localDNS, s, req)) <==> AllSpared(cfg, os, localDNS, s, req)
  {
    var routes := Updated(cfg, os, localDNS, s, req).routes;
    forall p | p in s.routed && p in req.pleaseProxy
      ensures Spared(cfg, os, localDNS, s, req, p) <==> SubnetRoute(cfg, p) in routes
    {
      SparedMeansThere(cfg, os, localDNS, s, req, p);
    }
    ExactWhenKept(cfg, os, localDNS, s, req);
    KeptRoutes(cfg, s, req, routes);
  }

  /** Two ways to write one network: dropping one of them takes the route of the other, which is still routed. */
  lemma SameNetworkTwice(cfg: Config, os: OsView, p: Prefix, q: Prefix)
    requires p != q && IsValid(p) && IsValid(q) && MaskedPrefix(p) == MaskedPrefix(q) && os.defaultRoute == None
    ensures var s1 := Updated(cfg, os, [], NEW, Request([p, q], [], []));
            var s2 := Updated(cfg, os, [], s1, Request([q], [], []));
            s1 == State({SubnetRoute(cfg, q)}, [p, q], []) && s2 == State({}, [q], []) && !Exact(cfg, s2)
  {
    SharedRouteExactly(cfg, p, q);
    SelectPair(p, q);
    assert RoutesFor(cfg, [p, q]) == {SubnetRoute(cfg, q)};
    assert SubnetRoute(cfg, q) in RoutesFor(cfg, [q]);
  }

  lemma SelectPair(p: Prefix, q: Prefix)
    requires p != q
    ensures Select([p, q], [], false) == [p, q] && Select([p, q], [q], false) == [p] && Select([p, q], [q], true) == [q]
    ensures Select([q], [q], false) == []
  {
    SelectTwo(p, q, [], false);
    SelectTwo(p, q, [q], false);
    SelectTwo(p, q, [q], true);
    SelectOne(q, [q], false);
  }

  lemma SelectOne(p: Prefix, wanted: seq<Prefix>, keep: bool)
    ensures Select([p], wanted, keep) == if (p in wanted) == keep then [p] else []
  {
    assert [p][..0] == [];
  }

  lemma SelectTwo(p: Prefix, q: Prefix, wanted: seq<Prefix>, keep: bool)
    ensures Select([p, q], wanted, keep) == Select([p], wanted, keep) + if (q in wanted) == keep then [q] else []
    ensures Select([p], wanted, keep) == if (p in wanted) == keep then [p] else []
  {
    SelectOne(p, wanted, keep);
    assert [p, q][..1] == [p];
  }

  /** One UpdateRoutes call: what the operating system answers and what is requested. */
  datatype Update = Update(os: OsView, localDNS: seq<Prefix>, req: Request)

  ghost function Run(cfg: Config, s: State, updates: seq<Update>): State
    decreases |updates|
  {
    if updates == [] then s
    else Run(cfg, Updated(cfg, updates[0].os, updates[0].localDNS, s, updates[0].req), updates[1..])
  }

  lemma {:induction false} RunKeepsInv(cfg: Config, s: State, updates: seq<Update>)
    requires Inv(cfg, s)
    requires forall i :: 0 <= i < |updates| ==> WellFormed(updates[i].req)
    ensures Inv(cfg, Run(cfg, s, updates))
    decreases |updates|
  {
    if updates != [] {
      UpdateKeepsInv(cfg, updates[0].os, updates[0].localDNS, s, updates[0].req);
      RunKeepsInv(cfg, Updated(cfg, updates[0].os, updates[0].localDNS, s, updates[0].req), updates[1..]);
    }
  }

  const NEW := State({}, [], [])

  ghost predicate ExactThroughout(cfg: Config, s: State, updates: seq<Update>)
    decreases |updates|
  {
    && Exact(cfg, s)
    && (updates != [] ==>
          ExactThroughout(cfg, Updated(cfg, updates[0].os, updates[0].localDNS, s, updates[0].req), updates[1..]))
  }

  ghost predicate SparedThroughout(cfg: Config, s: State, updates: seq<Update>)
    decreases |updates|
  {
    updates != [] ==>
      && AllSpared(cfg, updates[0].os, updates[0].localDNS, s, updates[0].req)
      && SparedThroughout(cfg, Updated(cfg, updates[0].os, updates[0].localDNS, s, updates[0].req), updates[1..])
  }

  /** Over every run, for any subnets: the table is exact after each update if and only if each update spares
      the subnets that stay. */
  lemma {:induction false} RunIsExactly(cfg: Config, s: State, updates: seq<Update>)
    requires Exact(cfg, s)
    ensures ExactThroughout(cfg, s, updates) <==> SparedThroughout(cfg, s, updates)
    decreases |updates|
  {
    if updates != [] {
      var u := updates[0];
      var s' := Updated(cfg, u.os, u.localDNS, s, u.req);
      UpdateIsExactly(cfg, u.os, u.localDNS, s, u.req);
      if Exact(cfg, s') {
        RunIsExactly(cfg, s', updates[1..]);
      }
    }
  }

  /** Whatever is requested, the routed set is the last requested one. */
  lemma {:induction false} RunRoutesTheLast(cfg: Config, s: State, updates: seq<Update>, p: Prefix)
    requires updates != []
    ensures p in Run(cfg, s, updates).routed <==> p in updates[|updates| - 1].req.pleaseProxy
    decreases |updates|
  {
    var u, rest := updates[0], updates[1..];
    var s' := Updated(cfg, u.os, u.localDNS, s, u.req);
    assert Run(cfg, s, updates) == Run(cfg, s', rest);
    if rest != [] {
      RunRoutesTheLast(cfg, s', rest, p);
      assert rest[|rest| - 1] == updates[|updates| - 1];
    }
  }

  /** After any run of updates the table is exact, the routed set is the last requested one, and Close leaves
      nothing in the table. */
  lemma TableIsExact(cfg: Config, updates: seq<Update>)
    requires forall i :: 0 <= i < |updates| ==> WellFormed(updates[i].req)
    ensures var s := Run(cfg, NEW, updates);
            && Exact(cfg, s) && Closed(cfg, s).routes == {}
            && (updates != [] ==> forall p :: p in s.routed <==> p in updates[|updates| - 1].req.pleaseProxy)
  {
    RunKeepsInv(cfg, NEW, updates);
    if updates != [] {
      forall p
        ensures p in Run(cfg, NEW, updates).routed <==> p in updates[|updates| - 1].req.pleaseProxy
      {
        RunRoutesTheLast(cfg, NEW, updates, p);
      }
    }
  }

  /** For any subnets: an update after Close makes an exact table if and only if it renews every subnet that was
      routed before and is requested again. */
  lemma UpdateAfterCloseExactly(cfg: Config, os: OsView, localDNS: seq<Prefix>, s: State, req: Request)
    requires Exact(cfg, s)
    ensures Closed(cfg, s).routes == {}
    ensures Exact(cfg, Updated(cfg, os, localDNS, Closed(cfg, s), req)) <==>
              forall p :: p in s.routed && p in req.pleaseProxy ==> Renewed(cfg, os, localDNS, s, req, p)
  {
    var c := Closed(cfg, s);
    var added := RoutesFor(cfg, AddedBy(s, req)) + SetOf(NewStatics(cfg, os, localDNS, req));
    var kept := Select(s.routed, req.pleaseProxy, true);
    UpdatedRoutes(cfg, os, localDNS, c, req);
    assert Updated(cfg, os, localDNS, c, req).routes == added;
    RoutesForAppend(cfg, kept, AddedBy(s, req));
    assert Exact(cfg, Updated(cfg, os, localDNS, c, req)) <==> RoutesFor(cfg, kept) <= added;
    forall p | p in s.routed && p in req.pleaseProxy
      ensures Renewed(cfg, os, localDNS, s, req, p) <==> SubnetRoute(cfg, p) in added
    {
      RenewedMeansAdded(cfg, os, localDNS, s, req, p);
    }
    KeptRoutes(cfg, s, req, added);
  }

  /** Masked subnets are renewed by nothing but themselves. */
  lemma MaskedIsNotRenewed(cfg: Config, os: OsView, localDNS: seq<Prefix>, s: State, req: Request, p: Prefix)
    requires WellFormed(req) && p in s.routed && p in req.pleaseProxy
    ensures !Renewed(cfg, os, localDNS, s, req, p)
  {
    if SubnetRoute(cfg, p) in NewStatics(cfg, os, localDNS, req) {
      StaticRoutesGoWhereAsked(cfg, os, localDNS, req, os.defaultRoute.value, SubnetRoute(cfg, p));
    }
  }

  /** Close keeps the list of routed subnets, so for masked subnets an update after it adds the routes of the
      other requested subnets only. */
  lemma UpdateAfterClose(cfg: Config, os: OsView, localDNS: seq<Prefix>, s: State, req: Request)
    requires Inv(cfg, s) && WellFormed(req)
    ensures var s' := Updated(cfg, os, localDNS, Closed(cfg, s), req);
            && s'.routes == RoutesFor(cfg, AddedBy(s, req)) + SetOf(s'.statics)
            && (Inv(cfg, s') <==> forall p :: p in req.pleaseProxy ==> p !in s.routed)
  {
    UpdateAfterCloseExactly(cfg, os, localDNS, s, req);
    UpdatedRoutes(cfg, os, localDNS, Closed(cfg, s), req);
    WellFormedResult(cfg, os, localDNS, Closed(cfg, s), req);
    if p :| p in req.pleaseProxy && p in s.routed {
      MaskedIsNotRenewed(cfg, os, localDNS, s, req, p);
    }
  }
}
