/** What holds of every generated sidecar: its agent ports, proxy ports and environment prefixes. */
module AgentPorts {
  import opened AgentConfig
  import Base26

  // ---------- The invariant ----------

  /** Agent ports are handed out in this order of container ports, upwards from the first one and modulo the
      size of a port number. */
  ghost predicate Ordered(base: Port, pns: map<Port, Port>, order: seq<Port>) {
    && |order| == |pns|
    && (forall i, j :: 0 <= i < j < |order| ==> order[i] != order[j])
    && (forall k :: k in pns <==> k in order)
    && (forall i :: 0 <= i < |order| ==> order[i] in pns && pns[order[i]] == (base + i) % 65536)
  }

  ghost predicate Agrees(pns: map<Port, Port>, ics: seq<Intercept>) {
    forall i :: 0 <= i < |ics| ==> ics[i].containerPort in pns && ics[i].agentPort == pns[ics[i].containerPort]
  }

  ghost predicate Intercepted(ccs: seq<Container>, k: Port) {
    exists n :: 0 <= n < |ccs| && HasPort(ccs[n].intercepts, k)
  }

  ghost predicate Consistent(pns: map<Port, Port>, ccs: seq<Container>) {
    && (forall n :: 0 <= n < |ccs| ==> Agrees(pns, ccs[n].intercepts))
    && (forall k :: k in pns ==> Intercepted(ccs, k))
  }

  ghost predicate Named(ccs: seq<Container>) {
    && (forall n :: 0 <= n < |ccs| ==> ccs[n].envPrefix == Base26.EnvPrefix(n))
    && (forall m, n :: 0 <= m < n < |ccs| ==> ccs[m].name != ccs[n].name)
  }

  ghost predicate Inv(base: Port, s: State) {
    (exists order :: Ordered(base, s.pns, order)) && Consistent(s.pns, s.ccs) && Named(s.ccs)
  }

  // ---------- Every step keeps it ----------

  lemma AllocatedKeepsOrder(base: Port, pns: map<Port, Port>, k: Port)
    requires exists order :: Ordered(base, pns, order)
    ensures exists order :: Ordered(base, Allocated(base, pns, k), order)
  {
    var order :| Ordered(base, pns, order);
    if k in pns {
      assert Ordered(base, Allocated(base, pns, k), order);
    } else {
      OrderGrows(base, pns, order, k);
    }
  }

  lemma OrderGrows(base: Port, pns: map<Port, Port>, order: seq<Port>, k: Port)
    requires Ordered(base, pns, order) && k !in pns
    ensures Ordered(base, Allocated(base, pns, k), order + [k])
  {
  }

  lemma PlacedKeepsNames(ccs: seq<Container>, name: string, ic: Intercept, once: bool)
    requires Named(ccs)
    ensures Named(Placed(ccs, name, ic, once))
  {
    var after := Placed(ccs, name, ic, once);
    forall k | 0 <= k < |ccs|
      ensures after[k].name == ccs[k].name && after[k].envPrefix == ccs[k].envPrefix
    {
    }
    assert |after| > |ccs| ==> after[|ccs|] == NewContainer(name, |ccs|, [ic]);
  }

  lemma PlacedAgrees(pns: map<Port, Port>, ccs: seq<Container>, name: string, ic: Intercept, once: bool)
    requires forall n :: 0 <= n < |ccs| ==> Agrees(pns, ccs[n].intercepts)
    requires ic.containerPort in pns && ic.agentPort == pns[ic.containerPort]
    ensures var after := Placed(ccs, name, ic, once); forall n :: 0 <= n < |after| ==> Agrees(pns, after[n].intercepts)
  {
  }

  lemma StillHas(ics: seq<Intercept>, ic: Intercept, k: Port)
    requires HasPort(ics, k) || ic.containerPort == k
    ensures HasPort(ics + [ic], k)
  {
    if HasPort(ics, k) {
      var i :| 0 <= i < |ics| && ics[i].containerPort == k;
      assert (ics + [ic])[i].containerPort == k;
    } else {
      assert (ics + [ic])[|ics|].containerPort == k;
    }
  }

  lemma PlacedIntercepts(ccs: seq<Container>, name: string, ic: Intercept, once: bool, k: Port)
    requires Intercepted(ccs, k) || ic.containerPort == k
    ensures Intercepted(Placed(ccs, name, ic, once), k)
  {
    var after, i := Placed(ccs, name, ic, once), IndexOf(ccs, name);
    if Intercepted(ccs, k) {
      var n :| 0 <= n < |ccs| && HasPort(ccs[n].intercepts, k);
      if n == i {
        StillHas(ccs[n].intercepts, ic, k);
      }
      assert HasPort(after[n].intercepts, k);
    } else if i == |ccs| {
      StillHas([], ic, k);
      assert [] + [ic] == [ic];
      assert HasPort(after[i].intercepts, k);
    } else {
      StillHas(ccs[i].intercepts, ic, k);
      assert HasPort(after[i].intercepts, k);
    }
  }

  lemma PlacedKeeps(base: Port, s: State, name: string, ic: Intercept, once: bool)
    requires Inv(base, s)
    requires ic.agentPort == Allocated(base, s.pns, ic.containerPort)[ic.containerPort]
    ensures Inv(base, State(Allocated(base, s.pns, ic.containerPort), Placed(s.ccs, name, ic, once)))
  {
    var pns, ccs := Allocated(base, s.pns, ic.containerPort), Placed(s.ccs, name, ic, once);
    AllocatedKeepsOrder(base, s.pns, ic.containerPort);
    PlacedKeepsNames(s.ccs, name, ic, once);
    PlacedAgrees(pns, s.ccs, name, ic, once);
    forall k | k in pns
      ensures Intercepted(ccs, k)
    {
      PlacedIntercepts(s.ccs, name, ic, once, k);
    }
  }

  lemma {:induction false} ServicePortsKeep(base: Port, s: State, svc: string, ports: seq<ServicePort>,
                                            cns: seq<PodContainer>)
    requires Inv(base, s)
    ensures Inv(base, WithServicePorts(s, base, svc, ports, cns))
    decreases |ports|
  {
    if ports != [] {
      var port := ports[|ports| - 1];
      ServicePortsKeep(base, s, svc, ports[..|ports| - 1], cns);
      var before := WithServicePorts(s, base, svc, ports[..|ports| - 1], cns);
      var place := FindContainerMatchingPort(port, cns);
      if place.Place? {
        var app := AppPort(port, place, cns);
        var p := Allocated(base, before.pns, app.port)[app.port];
        PlacedKeeps(base, before, cns[place.ci].name, ServiceIntercept(svc, port, app, p), false);
      }
    }
  }

  lemma {:induction false} ServicesKeep(base: Port, s: State, svcs: seq<Service>, ids: seq<PortId>,
                                        cns: seq<PodContainer>)
    requires Inv(base, s)
    ensures Inv(base, WithServices(s, base, svcs, ids, cns))
    decreases |svcs|
  {
    if svcs != [] {
      var last := svcs[|svcs| - 1];
      ServicesKeep(base, s, svcs[..|svcs| - 1], ids, cns);
      var before := WithServices(s, base, svcs[..|svcs| - 1], ids, cns);
      ServicePortsKeep(base, before, last.name, Filtered(ids, last.ports), cns);
    }
  }

  lemma {:induction false} ContainerPortsKeep(base: Port, s: State, ids: seq<PortId>, cns: seq<PodContainer>)
    requires Inv(base, s)
    ensures var r := WithContainerPorts(s, base, ids, cns); r.Done? ==> Inv(base, r.state)
    decreases |ids|
  {
    if ids != [] {
      ContainerPortsKeep(base, s, ids[..|ids| - 1], cns);
      var before := WithContainerPorts(s, base, ids[..|ids| - 1], cns);
      var place := FindContainerPort(ids[|ids| - 1], cns);
      if before.Done? && place.Place? {
        var app := cns[place.ci].ports[place.pi];
        var p := Allocated(base, before.state.pns, app.port)[app.port];
        PlacedKeeps(base, before.state, cns[place.ci].name, ContainerIntercept(app, p), true);
      }
    }
  }

  lemma OtherKeepsConsistent(pns: map<Port, Port>, ccs: seq<Container>, c: Container)
    requires Consistent(pns, ccs) && c.intercepts == []
    ensures Consistent(pns, ccs + [c])
  {
    forall k | k in pns
      ensures Intercepted(ccs + [c], k)
    {
      var n :| 0 <= n < |ccs| && HasPort(ccs[n].intercepts, k);
      assert (ccs + [c])[n] == ccs[n];
    }
  }

  lemma OtherKeepsNames(ccs: seq<Container>, cn: PodContainer)
    requires Named(ccs)
    ensures Named(WithOther(ccs, cn))
  {
  }

  lemma OtherKeeps(base: Port, s: State, cn: PodContainer)
    requires Inv(base, s)
    ensures Inv(base, State(s.pns, WithOther(s.ccs, cn)))
  {
    OtherKeepsNames(s.ccs, cn);
    OtherKeepsConsistent(s.pns, s.ccs, NewContainer(cn.name, |s.ccs|, []));
  }

  lemma {:induction false} OthersKeep(base: Port, s: State, cns: seq<PodContainer>)
    requires Inv(base, s)
    ensures Inv(base, State(s.pns, WithOthers(s.ccs, cns)))
    decreases |cns|
  {
    if cns != [] {
      OthersKeep(base, s, cns[..|cns| - 1]);
      OtherKeeps(base, State(s.pns, WithOthers(s.ccs, cns[..|cns| - 1])), cns[|cns| - 1]);
    }
  }

  /** Every sidecar that is generated, from any pod, satisfies the invariant. */
  lemma GeneratedKeepsInv(base: Port, pod: Pod)
    ensures Generated(base, pod).Done? ==> Inv(base, Generated(base, pod).state)
  {
    var start := State(map[], []);
    assert Ordered(base, start.pns, []);
    ServicesKeep(base, start, pod.services, pod.servicePorts, pod.containers);
    var s := WithServices(start, base, pod.services, pod.servicePorts, pod.containers);
    ContainerPortsKeep(base, s, pod.containerPorts, pod.containers);
    var r := WithContainerPorts(s, base, pod.containerPorts, pod.containers);
    if r.Done? {
      OthersKeep(base, r.state, pod.containers);
    }
  }

  ghost predicate Declared(ids: seq<PortId>, cns: seq<PodContainer>) {
    forall i :: 0 <= i < |ids| ==> FindContainerPort(ids[i], cns) != Nowhere
  }

  lemma DeclaredLast(ids: seq<PortId>, cns: seq<PodContainer>)
    requires ids != []
    ensures Declared(ids, cns) <==> Declared(ids[..|ids| - 1], cns) && FindContainerPort(ids[|ids| - 1], cns) != Nowhere
  {
    var front := ids[..|ids| - 1];
    assert forall i :: 0 <= i < |front| ==> front[i] == ids[i];
  }

  lemma {:induction false} ContainerPortsExactly(s: State, base: Port, ids: seq<PortId>, cns: seq<PodContainer>)
    ensures WithContainerPorts(s, base, ids, cns).Done? <==> Declared(ids, cns)
    decreases |ids|
  {
    if ids != [] {
      ContainerPortsExactly(s, base, ids[..|ids| - 1], cns);
      DeclaredLast(ids, cns);
    }
  }

  /** When there is a sidecar: no container may expose the agent's port, and every port that an annotation asks
      for must be declared by some container. */
  lemma GeneratedExactly(base: Port, pod: Pod)
    ensures Generated(base, pod).Done? <==>
              && (forall c, k :: 0 <= c < |pod.containers| && 0 <= k < |pod.containers[c].ports| ==>
                    pod.containers[c].name == AGENT_CONTAINER || pod.containers[c].ports[k].port != base)
              && Declared(pod.containerPorts, pod.containers)
  {
    var s := WithServices(State(map[], []), base, pod.services, pod.servicePorts, pod.containers);
    ContainerPortsExactly(s, base, pod.containerPorts, pod.containers);
  }

  /** The first annotation that no container declares decides how it fails. For a port number nothing is
      reported; the container that the made-up port belongs to is nil. */
  lemma FirstUndeclaredDecides(s: State, base: Port, ids: seq<PortId>, i: nat, cns: seq<PodContainer>)
    requires i < |ids| && Declared(ids[..i], cns) && FindContainerPort(ids[i], cns) == Nowhere
    ensures WithContainerPorts(s, base, ids, cns) == if ids[i].Named? then UserError else NilContainer
  {
    var upTo := ids[..i + 1];
    assert upTo[..i] == ids[..i] && upTo[i] == ids[i];
    ContainerPortsExactly(s, base, ids[..i], cns);
    ErrorsStay(s, base, ids, i + 1, cns);
  }

  // ---------- Agent ports ----------

  lemma {:induction false} CountBelow(ports: set<Port>, n: nat)
    requires forall p :: p in ports ==> p < n
    ensures |ports| <= n
  {
    if n == 0 {
      assert ports == {};
    } else if n - 1 in ports {
      CountBelow(ports - {n - 1}, n - 1);
    } else {
      CountBelow(ports, n - 1);
    }
  }

  lemma AtMostAllPorts(pns: map<Port, Port>)
    ensures |pns| <= 65536
  {
    CountBelow(pns.Keys, 65536);
    assert |pns.Keys| == |pns|;
  }

  /** How far a port is above another one, around the circle of port numbers. */
  function Above(base: int, p: Port): Port {
    (p - base) % 65536
  }

  lemma OffsetOf(base: Port, i: nat, p: Port)
    requires i < 65536
    ensures (base + i) % 65536 == p <==> Above(base, p) == i
  {
  }

  lemma PositionOf(order: seq<Port>, k: Port) returns (i: nat)
    requires k in order
    ensures i < |order| && order[i] == k
  {
    i :| i < |order| && order[i] == k;
  }

  lemma AgentPortsDiffer(base: Port, pns: map<Port, Port>, k: Port, l: Port)
    requires exists order :: Ordered(base, pns, order)
    requires k in pns && l in pns && pns[k] == pns[l]
    ensures k == l
  {
    var order :| Ordered(base, pns, order);
    AtMostAllPorts(pns);
    var i := PositionOf(order, k);
    var j := PositionOf(order, l);
    OffsetOf(base, i, pns[k]);
    OffsetOf(base, j, pns[k]);
  }

  /** Two intercepts of a sidecar, of whatever containers, share an agent port exactly when they share a
      container port. */
  lemma SharedExactly(base: Port, s: State, m: nat, i: nat, n: nat, j: nat)
    requires Inv(base, s)
    requires m < |s.ccs| && i < |s.ccs[m].intercepts| && n < |s.ccs| && j < |s.ccs[n].intercepts|
    ensures s.ccs[m].intercepts[i].agentPort == s.ccs[n].intercepts[j].agentPort <==>
              s.ccs[m].intercepts[i].containerPort == s.ccs[n].intercepts[j].containerPort
  {
    var a, b := s.ccs[m].intercepts[i], s.ccs[n].intercepts[j];
    assert Agrees(s.pns, s.ccs[m].intercepts) && Agrees(s.pns, s.ccs[n].intercepts);
    if a.agentPort == b.agentPort {
      AgentPortsDiffer(base, s.pns, a.containerPort, b.containerPort);
    }
  }

  // ---------- Intercept targets ----------

  predicate IsFor(ic: Intercept, port: Port, proto: Protocol) {
    ic.containerPort == port && ic.protocol == proto
  }

  function Matching(ics: seq<Intercept>, port: Port, proto: Protocol): (r: seq<Intercept>)
    ensures forall i :: 0 <= i < |r| ==> r[i] in ics && IsFor(r[i], port, proto)
    ensures forall ic :: ic in ics && IsFor(ic, port, proto) ==> ic in r
  {
    if ics == [] then []
    else
      var last := ics[|ics| - 1];
      Matching(ics[..|ics| - 1], port, proto) + if IsFor(last, port, proto) then [last] else []
  }

  /** The intercepts of the port in the first container that has any. */
  function Lookup(ccs: seq<Container>, port: Port, proto: Protocol): seq<Intercept> {
    if ccs == [] then []
    else
      var here := Matching(ccs[0].intercepts, port, proto);
      if here != [] then here else Lookup(ccs[1..], port, proto)
  }

  ghost predicate Lacks(ics: seq<Intercept>, port: Port, proto: Protocol) {
    forall i :: 0 <= i < |ics| ==> ics[i].containerPort != port || ics[i].protocol != proto
  }

  lemma NothingMatches(ics: seq<Intercept>, port: Port, proto: Protocol)
    requires Matching(ics, port, proto) == []
    ensures Lacks(ics, port, proto)
  {
    forall i | 0 <= i < |ics|
      ensures !IsFor(ics[i], port, proto)
    {
      assert ics[i] in ics;
    }
  }

  /** `InterceptTarget`; `n` is the first container with such an intercept, if there is one. */
  method InterceptTarget(ccs: seq<Container>, port: Port, proto: Protocol) returns (n: nat, it: seq<Intercept>)
    ensures it == Lookup(ccs, port, proto)
    ensures if it == [] then n == |ccs| else n < |ccs| && it == Matching(ccs[n].intercepts, port, proto)
    ensures forall m :: 0 <= m < n ==> Lacks(ccs[m].intercepts, port, proto)
  {
    assert ccs[0..] == ccs;
    for c := 0 to |ccs|
      invariant Lookup(ccs[c..], port, proto) == Lookup(ccs, port, proto)
      invariant forall m :: 0 <= m < c ==> Lacks(ccs[m].intercepts, port, proto)
    {
      assert ccs[c..][1..] == ccs[c + 1..];
      it := Collect(ccs[c].intercepts, port, proto);
      if it != [] {
        return c, it;
      }
      NothingMatches(ccs[c].intercepts, port, proto);
    }
    n, it := |ccs|, [];
  }

  method Collect(ics: seq<Intercept>, port: Port, proto: Protocol) returns (it: seq<Intercept>)
    ensures it == Matching(ics, port, proto)
  {
    it := [];
    for i := 0 to |ics|
      invariant it == Matching(ics[..i], port, proto)
    {
      assert ics[..i + 1][..i] == ics[..i];
      if IsFor(ics[i], port, proto) {
        it := it + [ics[i]];
      }
    }
    assert ics[..|ics|] == ics;
  }

  predicate SamePorts(a: Intercept, b: Intercept) {
    a.agentPort == b.agentPort && a.containerPort == b.containerPort && a.protocol == b.protocol
  }

  /** The parameter assertion of `NewInterceptTarget`. */
  ghost predicate IsTarget(ics: seq<Intercept>) {
    && ics != []
    && forall i :: 0 <= i < |ics| ==> SamePorts(ics[i], ics[0])
  }

  method NewInterceptTarget(ics: seq<Intercept>) returns (ok: bool)
    ensures ok == IsTarget(ics)
  {
    if ics == [] {
      return false;
    }
    var zero := ics[0];
    for i := 1 to |ics|
      invariant forall k :: 0 <= k < i ==> SamePorts(ics[k], zero)
    {
      var ic := ics[i];
      if zero.agentPort != ic.agentPort || zero.containerPort != ic.containerPort || zero.protocol != ic.protocol {
        return false;
      }
    }
    ok := true;
  }

  lemma MatchingIsTarget(pns: map<Port, Port>, ics: seq<Intercept>, port: Port, proto: Protocol)
    requires Agrees(pns, ics) && Matching(ics, port, proto) != []
    ensures IsTarget(Matching(ics, port, proto))
    ensures port in pns && Matching(ics, port, proto)[0].agentPort == pns[port]
  {
    var it := Matching(ics, port, proto);
    forall i | 0 <= i < |it|
      ensures port in pns && it[i].agentPort == pns[port]
    {
      assert it[i] in ics && IsFor(it[i], port, proto);
    }
  }

  /** On a generated sidecar the assertion holds for whatever a lookup finds, and the agent port that is found is
      the one of the container port. */
  lemma {:induction false} LookupIsTarget(pns: map<Port, Port>, ccs: seq<Container>, port: Port, proto: Protocol)
    requires forall n :: 0 <= n < |ccs| ==> Agrees(pns, ccs[n].intercepts)
    requires Lookup(ccs, port, proto) != []
    ensures IsTarget(Lookup(ccs, port, proto))
    ensures port in pns && Lookup(ccs, port, proto)[0].agentPort == pns[port]
    decreases |ccs|
  {
    if Matching(ccs[0].intercepts, port, proto) != [] {
      MatchingIsTarget(pns, ccs[0].intercepts, port, proto);
    } else {
      LookupIsTarget(pns, ccs[1..], port, proto);
    }
  }

  // ---------- Port-unique intercepts ----------

  predicate SameKey(a: Intercept, b: Intercept) {
    a.agentPort == b.agentPort && a.protocol == b.protocol
  }

  predicate Represented(r: seq<Intercept>, ic: Intercept) {
    exists j :: 0 <= j < |r| && SameKey(r[j], ic)
  }

  /** One intercept of each agent port and protocol: the first. */
  function Unique(ics: seq<Intercept>): seq<Intercept> {
    if ics == [] then []
    else
      var r, last := Unique(ics[..|ics| - 1]), ics[|ics| - 1];
      if Represented(r, last) then r else r + [last]
  }

  /** The keys that were seen are those of the result so far. */
  ghost predicate Seen(um: set<(Port, Protocol)>, r: seq<Intercept>) {
    forall ic: Intercept :: (ic.agentPort, ic.protocol) in um <==> Represented(r, ic)
  }

  lemma SeenMore(um: set<(Port, Protocol)>, r: seq<Intercept>, ic: Intercept)
    requires Seen(um, r)
    ensures Seen(um + {(ic.agentPort, ic.protocol)}, r + [ic])
  {
    forall x: Intercept
      ensures (x.agentPort, x.protocol) in um + {(ic.agentPort, ic.protocol)} <==> Represented(r + [ic], x)
    {
      RepresentedAppend(r, ic, x);
    }
  }

  lemma RepresentedAppend(r: seq<Intercept>, ic: Intercept, x: Intercept)
    ensures Represented(r + [ic], x) <==> Represented(r, x) || SameKey(ic, x)
  {
    var e := r + [ic];
    if Represented(r, x) {
      var j :| 0 <= j < |r| && SameKey(r[j], x);
      assert SameKey(e[j], x);
    }
    if SameKey(ic, x) {
      assert SameKey(e[|r|], x);
    }
    if Represented(e, x) {
      var j :| 0 <= j < |e| && SameKey(e[j], x);
      assert j < |r| ==> SameKey(r[j], x);
    }
  }

  method PortUniqueIntercepts(ics: seq<Intercept>) returns (r: seq<Intercept>)
    ensures r == Unique(ics)
  {
    var um: set<(Port, Protocol)> := {};
    r := [];
    for i := 0 to |ics|
      invariant r == Unique(ics[..i]) && Seen(um, r)
    {
      assert ics[..i + 1][..i] == ics[..i];
      var k := (ics[i].agentPort, ics[i].protocol);
      if k !in um {
        SeenMore(um, r, ics[i]);
        um := um + {k};
        r := r + [ics[i]];
      }
    }
    assert ics[..|ics|] == ics;
  }

  lemma {:induction false} UniqueIsFrom(ics: seq<Intercept>, ic: Intercept)
    requires ic in Unique(ics)
    ensures ic in ics
    decreases |ics|
  {
    if ic != ics[|ics| - 1] {
      UniqueIsFrom(ics[..|ics| - 1], ic);
    }
  }

  lemma {:induction false} UniqueRepresents(ics: seq<Intercept>, i: nat)
    requires i < |ics|
    ensures Represented(Unique(ics), ics[i])
    decreases |ics|
  {
    var front, last := ics[..|ics| - 1], ics[|ics| - 1];
    RepresentedAppend(Unique(front), last, ics[i]);
    if i < |front| {
      UniqueRepresents(front, i);
    }
  }

  lemma {:induction false} UniqueIsUnique(ics: seq<Intercept>, i: nat, j: nat)
    requires i < j < |Unique(ics)|
    ensures !SameKey(Unique(ics)[i], Unique(ics)[j])
    decreases |ics|
  {
    var r := Unique(ics[..|ics| - 1]);
    if j < |r| {
      UniqueIsUnique(ics[..|ics| - 1], i, j);
    }
  }

  /** What is kept is the first intercept of its agent port and protocol. */
  lemma {:induction false} UniqueIsFirst(ics: seq<Intercept>, n: nat) returns (i: nat)
    requires n < |Unique(ics)|
    ensures i < |ics| && ics[i] == Unique(ics)[n]
    ensures forall j :: 0 <= j < i ==> ics[j].agentPort != ics[i].agentPort || ics[j].protocol != ics[i].protocol
    decreases |ics|
  {
    var front := ics[..|ics| - 1];
    if n < |Unique(front)| {
      i := UniqueIsFirst(front, n);
      assert forall j :: 0 <= j < |front| ==> front[j] == ics[j];
    } else {
      i := |ics| - 1;
      forall j | 0 <= j < i
        ensures !SameKey(ics[j], ics[i])
      {
        UniqueRepresents(front, j);
        assert front[j] == ics[j];
      }
    }
  }

  /** On a generated sidecar that is one intercept of each container port and protocol of the container. */
  lemma UniqueByContainerPort(pns: map<Port, Port>, ics: seq<Intercept>, i: nat, j: nat)
    requires Agrees(pns, ics) && i < j < |Unique(ics)|
    ensures var r := Unique(ics); (r[i].containerPort, r[i].protocol) != (r[j].containerPort, r[j].protocol)
  {
    UniqueIsUnique(ics, i, j);
    UniqueIsFrom(ics, Unique(ics)[i]);
    UniqueIsFrom(ics, Unique(ics)[j]);
  }

  // ---------- Proxy ports ----------

  function Count(ccs: seq<Container>): nat {
    if ccs == [] then 0 else Count(ccs[..|ccs| - 1]) + |ccs[|ccs| - 1].intercepts|
  }

  method NumberOfPossibleIntercepts(ccs: seq<Container>) returns (count: nat)
    ensures count == Count(ccs)
  {
    count := 0;
    for i := 0 to |ccs|
      invariant count == Count(ccs[..i])
    {
      assert ccs[..i + 1][..i] == ccs[..i];
      count := count + |ccs[i].intercepts|;
    }
    assert ccs[..|ccs|] == ccs;
  }

  function ProxyPort(ccs: seq<Container>, agentPort: Port): Port {
    (agentPort + 11 + Count(ccs)) % 65536
  }

  lemma {:induction false} KeysCounted(keys: set<Port>, ics: seq<Intercept>)
    requires forall k :: k in keys ==> HasPort(ics, k)
    ensures |keys| <= |ics|
    decreases |ics|
  {
    if ics == [] {
      assert keys == {};
    } else {
      var front, last := ics[..|ics| - 1], ics[|ics| - 1].containerPort;
      forall k | k in keys - {last}
        ensures HasPort(front, k)
      {
        var i :| 0 <= i < |ics| && ics[i].containerPort == k;
        assert front[i].containerPort == k;
      }
      KeysCounted(keys - {last}, front);
    }
  }

  lemma {:induction false} InterceptedCounted(keys: set<Port>, ccs: seq<Container>)
    requires forall k :: k in keys ==> Intercepted(ccs, k)
    ensures |keys| <= Count(ccs)
    decreases |ccs|
  {
    if ccs == [] {
      assert keys == {};
    } else {
      var front, last := ccs[..|ccs| - 1], ccs[|ccs| - 1].intercepts;
      var here := set k | k in keys && HasPort(last, k);
      KeysCounted(here, last);
      forall k | k in keys - here
        ensures Intercepted(front, k)
      {
        var n :| 0 <= n < |ccs| && HasPort(ccs[n].intercepts, k);
        assert front[n] == ccs[n];
      }
      InterceptedCounted(keys - here, front);
      assert |keys| <= |keys - here| + |here|;
    }
  }

  /** There are not more agent ports than intercepts. */
  lemma AgentPortsAreCounted(base: Port, s: State)
    requires Inv(base, s)
    ensures |s.pns| <= Count(s.ccs)
  {
    InterceptedCounted(s.pns.Keys, s.ccs);
    assert |s.pns.Keys| == |s.pns|;
  }

  lemma ProxyPortsDiffer(ccs: seq<Container>, a: Port, b: Port)
    ensures ProxyPort(ccs, a) == ProxyPort(ccs, b) <==> a == b
  {
  }

  ghost predicate Disjoint(s: State) {
    forall k, l :: k in s.pns && l in s.pns ==> ProxyPort(s.ccs, s.pns[k]) != s.pns[l]
  }

  /** Far enough from every agent port, in both directions around the circle of port numbers. */
  ghost predicate Apart(s: State) {
    |s.pns| == 0 || |s.pns| <= (Count(s.ccs) + 11) % 65536 <= 65536 - |s.pns|
  }

  lemma OffsetsCollide(base: Port, c: nat, i: nat, j: nat)
    requires i < 65536 && j < 65536
    ensures ((base + i) % 65536 + 11 + c) % 65536 == (base + j) % 65536 <==>
              i + (c + 11) % 65536 == j || i + (c + 11) % 65536 == j + 65536
  {
  }

  /** No port lies in both blocks. */
  lemma BlocksApart(base: Port, c: nat, d: nat, p: Port)
    requires d <= (c + 11) % 65536 <= 65536 - d
    ensures Above(base, p) >= d || Above(base + 11 + c, p) >= d
  {
  }

  lemma ApartIsDisjoint(base: Port, s: State)
    requires Inv(base, s) && Apart(s)
    ensures Disjoint(s)
  {
    forall k, l | k in s.pns && l in s.pns
      ensures ProxyPort(s.ccs, s.pns[k]) != s.pns[l]
    {
      NotBoth(base, s, s.pns[l]);
    }
  }

  lemma NotBoth(base: Port, s: State, p: Port)
    requires Inv(base, s) && Apart(s)
    ensures !(IsAgentPort(s, p) && IsProxyPort(s, p))
  {
    IsAgentPortExactly(base, s, p);
    IsProxyPortExactly(base, s, p);
    ApartAt(base, s, p);
  }

  lemma ApartAt(base: Port, s: State, p: Port)
    requires Apart(s)
    ensures Above(base, p) >= |s.pns| || Above(base + 11 + Count(s.ccs), p) >= |s.pns|
  {
    if |s.pns| > 0 {
      BlocksApart(base, Count(s.ccs), |s.pns|, p);
    }
  }

  /** Two blocks that are too close meet. */
  lemma BlocksMeet(base: Port, s: State, order: seq<Port>, i: nat, j: nat)
    requires Ordered(base, s.pns, order) && i < |order| && j < |order| && |order| <= 65536
    requires i + (Count(s.ccs) + 11) % 65536 == j || i + (Count(s.ccs) + 11) % 65536 == j + 65536
    ensures !Disjoint(s)
  {
    OffsetsCollide(base, Count(s.ccs), i, j);
    assert order[i] in s.pns && order[j] in s.pns;
    assert ProxyPort(s.ccs, s.pns[order[i]]) == s.pns[order[j]];
  }

  lemma DisjointIsApart(base: Port, s: State)
    requires Inv(base, s) && Disjoint(s)
    ensures Apart(s)
  {
    var order :| Ordered(base, s.pns, order);
    AtMostAllPorts(s.pns);
    var c := (Count(s.ccs) + 11) % 65536;
    if c < |order| {
      BlocksMeet(base, s, order, 0, c);
    } else if 65536 - |order| < c {
      BlocksMeet(base, s, order, 65536 - c, 0);
    }
  }

  /** No proxy port is an agent port, exactly when the two blocks of port numbers do not meet by running over
      the end of the range. */
  lemma ProxiesAreDisjointExactly(base: Port, s: State)
    requires Inv(base, s)
    ensures Disjoint(s) <==> Apart(s)
  {
    if Apart(s) {
      ApartIsDisjoint(base, s);
    } else if Disjoint(s) {
      DisjointIsApart(base, s);
    }
  }

  /** In particular as long as no port number overflows. */
  lemma ProxiesAreDisjoint(base: Port, s: State)
    requires Inv(base, s) && base + 2 * Count(s.ccs) + 11 <= 65536
    ensures Disjoint(s)
  {
    AgentPortsAreCounted(base, s);
    FewAreApart(|s.pns|, Count(s.ccs));
    ApartIsDisjoint(base, s);
  }

  lemma FewAreApart(d: nat, c: nat)
    requires d <= c && 2 * c + 11 <= 65536
    ensures d <= (c + 11) % 65536 <= 65536 - d
  {
  }

  predicate IsNumeric(it: seq<Intercept>) {
    exists i :: 0 <= i < |it| && it[i].targetPortNumeric
  }

  function InactivePort(ccs: seq<Container>, port: Port, proto: Protocol): Port {
    var it := Lookup(ccs, port, proto);
    if IsNumeric(it) then ProxyPort(ccs, it[0].agentPort) else port
  }

  method InterceptorInactivePort(ccs: seq<Container>, port: Port, proto: Protocol) returns (r: Port)
    ensures r == InactivePort(ccs, port, proto)
  {
    var n, it := InterceptTarget(ccs, port, proto);
    if it != [] {
      var numeric := TargetPortNumeric(it);
      if numeric {
        return ProxyPort(ccs, it[0].agentPort);
      }
    }
    r := port;
  }

  method TargetPortNumeric(it: seq<Intercept>) returns (r: bool)
    ensures r <==> IsNumeric(it)
  {
    for k := 0 to |it|
      invariant forall i :: 0 <= i < k ==> !it[i].targetPortNumeric
    {
      if it[k].targetPortNumeric {
        return true;
      }
    }
    r := false;
  }

  /** Traffic that is not intercepted is written to a port that is no agent port, so that it does not come back
      to the agent, and each container port has its own. */
  lemma NoRedirectLoop(base: Port, s: State, port: Port, proto: Protocol, port': Port, proto': Protocol)
    requires Inv(base, s) && Apart(s)
    requires IsNumeric(Lookup(s.ccs, port, proto)) && IsNumeric(Lookup(s.ccs, port', proto'))
    ensures forall k :: k in s.pns ==> InactivePort(s.ccs, port, proto) != s.pns[k]
    ensures InactivePort(s.ccs, port, proto) == InactivePort(s.ccs, port', proto') <==> port == port'
  {
    ApartIsDisjoint(base, s);
    LookupIsTarget(s.pns, s.ccs, port, proto);
    LookupIsTarget(s.pns, s.ccs, port', proto');
    ProxyPortsDiffer(s.ccs, s.pns[port], s.pns[port']);
    if s.pns[port] == s.pns[port'] {
      AgentPortsDiffer(base, s.pns, port, port');
    }
  }

  // ---------- Ports of the application ----------

  ghost predicate IsAgentPort(s: State, p: Port) {
    exists k :: k in s.pns && s.pns[k] == p
  }

  lemma IsAgentPortExactly(base: Port, s: State, p: Port)
    requires Inv(base, s)
    ensures IsAgentPort(s, p) <==> Above(base, p) < |s.pns|
  {
    var order :| Ordered(base, s.pns, order);
    AtMostAllPorts(s.pns);
    if Above(base, p) < |s.pns| {
      InBlock(base, s, order, p);
    }
    if k :| k in s.pns && s.pns[k] == p {
      var i := PositionOf(order, k);
      OffsetOf(base, i, p);
    }
  }

  lemma InBlock(base: Port, s: State, order: seq<Port>, p: Port)
    requires Ordered(base, s.pns, order) && Above(base, p) < |order|
    ensures IsAgentPort(s, p)
  {
    OffsetOf(base, Above(base, p), p);
    assert order[Above(base, p)] in s.pns;
  }

  /** The port that the service port leads to, in a container of the application. */
  predicate LeadsTo(port: ServicePort, cns: seq<PodContainer>, k: Port) {
    var place := FindContainerMatchingPort(port, cns);
    place.Place? && cns[place.ci].name != AGENT_CONTAINER && AppPort(port, place, cns).port == k
  }

  /** The port that the annotation asks for. */
  predicate AsksFor(id: PortId, cns: seq<PodContainer>, k: Port) {
    var place := FindContainerPort(id, cns);
    place.Place? && cns[place.ci].ports[place.pi].port == k
  }

  predicate SomeSelects(ids: seq<PortId>, port: ServicePort) {
    exists i :: 0 <= i < |ids| && Selects(ids[i], port)
  }

  /** Is the port of a service intercepted? All are, or those that an annotation selects. */
  predicate Admits(ids: seq<PortId>, port: ServicePort) {
    ids == [] || SomeSelects(ids, port)
  }

  predicate ServiceWants(svc: Service, ids: seq<PortId>, cns: seq<PodContainer>, k: Port) {
    exists i :: 0 <= i < |svc.ports| && Admits(ids, svc.ports[i]) && LeadsTo(svc.ports[i], cns, k)
  }

  predicate SomeServiceWants(svcs: seq<Service>, ids: seq<PortId>, cns: seq<PodContainer>, k: Port) {
    exists n :: 0 <= n < |svcs| && ServiceWants(svcs[n], ids, cns, k)
  }

  predicate SomeAsksFor(ids: seq<PortId>, cns: seq<PodContainer>, k: Port) {
    exists i :: 0 <= i < |ids| && AsksFor(ids[i], cns, k)
  }

  /** Does the pod, with its services and annotations, want the port to be intercepted? */
  predicate Wants(pod: Pod, k: Port) {
    || SomeServiceWants(pod.services, pod.servicePorts, pod.containers, k)
    || SomeAsksFor(pod.containerPorts, pod.containers, k)
  }

  ghost function WantedPorts(pod: Pod): set<Port> {
    set k: Port | 0 <= k < 65536 && Wants(pod, k)
  }

  lemma {:induction false} SelectedExactly(id: PortId, ports: seq<ServicePort>, port: ServicePort)
    ensures port in Selected(id, ports) <==> port in ports && Selects(id, port)
    decreases |ports|
  {
    if ports != [] {
      SelectedExactly(id, ports[..|ports| - 1], port);
      assert ports == ports[..|ports| - 1] + [ports[|ports| - 1]];
    }
  }

  lemma {:induction false} SelectedByAnyExactly(ids: seq<PortId>, ports: seq<ServicePort>, port: ServicePort)
    ensures port in SelectedByAny(ids, ports) <==> port in ports && SomeSelects(ids, port)
    decreases |ids|
  {
    if ids != [] {
      SelectedByAnyExactly(ids[..|ids| - 1], ports, port);
      SelectedExactly(ids[|ids| - 1], ports, port);
      SomeSelectsLast(ids, port);
    }
  }

  lemma SomeSelectsLast(ids: seq<PortId>, port: ServicePort)
    requires ids != []
    ensures SomeSelects(ids, port) <==> SomeSelects(ids[..|ids| - 1], port) || Selects(ids[|ids| - 1], port)
  {
    var front := ids[..|ids| - 1];
    assert forall i :: 0 <= i < |front| ==> front[i] == ids[i];
  }

  /** The filter keeps the ports that the annotations admit. */
  lemma FilteredExactly(ids: seq<PortId>, ports: seq<ServicePort>, port: ServicePort)
    ensures port in Filtered(ids, ports) <==> port in ports && Admits(ids, port)
  {
    if ids != [] {
      SelectedByAnyExactly(ids, ports, port);
    }
  }

  ghost predicate SomeLeadsTo(ports: seq<ServicePort>, cns: seq<PodContainer>, k: Port) {
    exists port :: port in ports && LeadsTo(port, cns, k)
  }

  lemma SomeLeadsToLast(ports: seq<ServicePort>, cns: seq<PodContainer>, k: Port)
    requires ports != []
    ensures SomeLeadsTo(ports, cns, k) <==>
              SomeLeadsTo(ports[..|ports| - 1], cns, k) || LeadsTo(ports[|ports| - 1], cns, k)
  {
    assert ports == ports[..|ports| - 1] + [ports[|ports| - 1]];
  }

  lemma ServicePortMaps(base: Port, s: State, svc: string, port: ServicePort, cns: seq<PodContainer>, k: Port)
    ensures k in WithServicePort(s, base, svc, port, cns).pns <==> k in s.pns || LeadsTo(port, cns, k)
  {
  }

  lemma {:induction false} ServicePortsMap(base: Port, s: State, svc: string, ports: seq<ServicePort>,
                                           cns: seq<PodContainer>, k: Port)
    ensures k in WithServicePorts(s, base, svc, ports, cns).pns <==> k in s.pns || SomeLeadsTo(ports, cns, k)
    decreases |ports|
  {
    if ports != [] {
      var front := ports[..|ports| - 1];
      ServicePortsMap(base, s, svc, front, cns, k);
      ServicePortMaps(base, WithServicePorts(s, base, svc, front, cns), svc, ports[|ports| - 1], cns, k);
      SomeLeadsToLast(ports, cns, k);
    }
  }

  /** What the annotations admit of a service is what leads to its wanted ports. */
  lemma ServiceWantsExactly(svc: Service, ids: seq<PortId>, cns: seq<PodContainer>, k: Port)
    ensures SomeLeadsTo(Filtered(ids, svc.ports), cns, k) <==> ServiceWants(svc, ids, cns, k)
  {
    forall port: ServicePort
      ensures port in Filtered(ids, svc.ports) <==> port in svc.ports && Admits(ids, port)
    {
      FilteredExactly(ids, svc.ports, port);
    }
  }

  lemma {:induction false} ServicesMap(base: Port, s: State, svcs: seq<Service>, ids: seq<PortId>,
                                       cns: seq<PodContainer>, k: Port)
    ensures k in WithServices(s, base, svcs, ids, cns).pns <==> k in s.pns || SomeServiceWants(svcs, ids, cns, k)
    decreases |svcs|
  {
    if svcs != [] {
      var front, last := svcs[..|svcs| - 1], svcs[|svcs| - 1];
      ServicesMap(base, s, front, ids, cns, k);
      ServicePortsMap(base, WithServices(s, base, front, ids, cns), last.name, Filtered(ids, last.ports), cns, k);
      ServiceWantsExactly(last, ids, cns, k);
      SomeServiceWantsLast(svcs, ids, cns, k);
    }
  }

  lemma SomeServiceWantsLast(svcs: seq<Service>, ids: seq<PortId>, cns: seq<PodContainer>, k: Port)
    requires svcs != []
    ensures SomeServiceWants(svcs, ids, cns, k) <==>
              SomeServiceWants(svcs[..|svcs| - 1], ids, cns, k) || ServiceWants(svcs[|svcs| - 1], ids, cns, k)
  {
    var front := svcs[..|svcs| - 1];
    assert forall n :: 0 <= n < |front| ==> front[n] == svcs[n];
  }

  lemma {:induction false} ContainerPortsMap(base: Port, s: State, ids: seq<PortId>, cns: seq<PodContainer>, k: Port)
    requires WithContainerPorts(s, base, ids, cns).Done?
    ensures k in WithContainerPorts(s, base, ids, cns).state.pns <==> k in s.pns || SomeAsksFor(ids, cns, k)
    decreases |ids|
  {
    if ids != [] {
      var front := ids[..|ids| - 1];
      ContainerPortsMap(base, s, front, cns, k);
      ContainerPortMaps(base, WithContainerPorts(s, base, front, cns).state, ids[|ids| - 1], cns, k);
      SomeAsksForLast(ids, cns, k);
    }
  }

  lemma SomeAsksForLast(ids: seq<PortId>, cns: seq<PodContainer>, k: Port)
    requires ids != []
    ensures SomeAsksFor(ids, cns, k) <==> SomeAsksFor(ids[..|ids| - 1], cns, k) || AsksFor(ids[|ids| - 1], cns, k)
  {
    var front := ids[..|ids| - 1];
    assert forall i :: 0 <= i < |front| ==> front[i] == ids[i];
  }

  lemma ContainerPortMaps(base: Port, s: State, id: PortId, cns: seq<PodContainer>, k: Port)
    requires WithContainerPort(s, base, id, cns).Done?
    ensures k in WithContainerPort(s, base, id, cns).state.pns <==> k in s.pns || AsksFor(id, cns, k)
  {
  }

  /** The generator maps exactly the ports that the pod wants, for every pod. */
  lemma WantedIsMapped(base: Port, pod: Pod)
    requires Generated(base, pod).Done?
    ensures Generated(base, pod).state.pns.Keys == WantedPorts(pod)
    ensures |Generated(base, pod).state.pns| == |WantedPorts(pod)|
  {
    var start := State(map[], []);
    var s := WithServices(start, base, pod.services, pod.servicePorts, pod.containers);
    var pns := Generated(base, pod).state.pns;
    forall k: Port
      ensures k in pns <==> Wants(pod, k)
    {
      ServicesMap(base, start, pod.services, pod.servicePorts, pod.containers, k);
      ContainerPortsMap(base, s, pod.containerPorts, pod.containers, k);
    }
    assert pns.Keys == WantedPorts(pod);
    assert |pns.Keys| == |pns|;
  }

  /** Every port that a container of the application exposes is at least `d` numbers above `base`. */
  ghost predicate AllAbove(base: int, cns: seq<PodContainer>, d: nat) {
    forall p: Port :: ExposesAgentPort(p, cns) ==> Above(base, p) >= d
  }

  /** No container of the application exposes a port that the agent listens to. */
  ghost predicate AgentPortsFree(s: State, cns: seq<PodContainer>) {
    forall p: Port :: ExposesAgentPort(p, cns) ==> !IsAgentPort(s, p)
  }

  lemma FreeOfAgentPorts(base: Port, s: State, cns: seq<PodContainer>)
    requires Inv(base, s)
    ensures AgentPortsFree(s, cns) <==> AllAbove(base, cns, |s.pns|)
  {
    forall p: Port
      ensures IsAgentPort(s, p) <==> Above(base, p) < |s.pns|
    {
      IsAgentPortExactly(base, s, p);
    }
  }

  /** The agent listens to no port that a container of the application exposes, if and only if those ports keep
      a distance from the agent's first port: as many numbers above it as the pod wants ports to be intercepted.
      The generator checks the first of these numbers only. */
  lemma AgentPortsAreFreeExactly(base: Port, pod: Pod)
    requires Generated(base, pod).Done?
    ensures AgentPortsFree(Generated(base, pod).state, pod.containers) <==>
              AllAbove(base, pod.containers, |WantedPorts(pod)|)
  {
    GeneratedKeepsInv(base, pod);
    WantedIsMapped(base, pod);
    FreeOfAgentPorts(base, Generated(base, pod).state, pod.containers);
  }

  ghost predicate IsProxyPort(s: State, p: Port) {
    exists k :: k in s.pns && ProxyPort(s.ccs, s.pns[k]) == p
  }

  /** The agent port whose proxy is `p`. */
  function ProxiedBy(ccs: seq<Container>, p: Port): (a: Port)
    ensures ProxyPort(ccs, a) == p
  {
    (p - 11 - Count(ccs)) % 65536
  }

  lemma IsProxyPortExactly(base: Port, s: State, p: Port)
    requires Inv(base, s)
    ensures IsProxyPort(s, p) <==> Above(base + 11 + Count(s.ccs), p) < |s.pns|
  {
    IsAgentPortExactly(base, s, ProxiedBy(s.ccs, p));
    AboveShifted(base, Count(s.ccs), p);
    ProxyOfAgent(s, p);
  }

  lemma AboveShifted(base: Port, c: nat, p: Port)
    ensures Above(base, (p - 11 - c) % 65536) == Above(base + 11 + c, p)
  {
  }

  lemma ProxyOfAgent(s: State, p: Port)
    ensures IsProxyPort(s, p) <==> IsAgentPort(s, ProxiedBy(s.ccs, p))
  {
    if k :| k in s.pns && ProxyPort(s.ccs, s.pns[k]) == p {
      ProxyPortsDiffer(s.ccs, s.pns[k], ProxiedBy(s.ccs, p));
    }
  }

  /** Where the proxy ports start, before they are cut to 16 bits. */
  function FirstProxyPort(base: Port, ccs: seq<Container>): int {
    base + 11 + Count(ccs)
  }

  ghost predicate ProxyPortsFree(s: State, cns: seq<PodContainer>) {
    forall p: Port :: ExposesAgentPort(p, cns) ==> !IsProxyPort(s, p)
  }

  lemma FreeOfProxyPorts(base: Port, s: State, cns: seq<PodContainer>, first: int, d: nat)
    requires Inv(base, s) && first == base + 11 + Count(s.ccs) && d == |s.pns|
    ensures ProxyPortsFree(s, cns) <==> AllAbove(first, cns, d)
  {
    forall p: Port
      ensures IsProxyPort(s, p) <==> Above(first, p) < d
    {
      IsProxyPortExactly(base, s, p);
    }
  }

  /** The same for the proxy ports, which the generator does not check at all. They start where the number of
      intercepts of the sidecar puts them. */
  lemma ProxyPortsAreFreeExactly(base: Port, pod: Pod)
    requires Generated(base, pod).Done?
    ensures ProxyPortsFree(Generated(base, pod).state, pod.containers) <==>
              AllAbove(FirstProxyPort(base, Generated(base, pod).state.ccs), pod.containers, |WantedPorts(pod)|)
  {
    GeneratedKeepsInv(base, pod);
    WantedIsMapped(base, pod);
    var s := Generated(base, pod).state;
    FreeOfProxyPorts(base, s, pod.containers, FirstProxyPort(base, s.ccs), |WantedPorts(pod)|);
  }

  /** A container with two ports, both intercepted, of which one is next to the agent's. */
  function TwoPorts(name: string, x: Port, y: Port): Pod {
    Pod([PodContainer(name, [PodPort("", x, TCP), PodPort("", y, TCP)])], [], [], [Numbered(TCP, x), Numbered(TCP, y)])
  }

  lemma FoundAmongTwo(name: string, x: Port, y: Port)
    requires name != AGENT_CONTAINER && x != y
    ensures var cns := TwoPorts(name, x, y).containers;
            && FindContainerPort(Numbered(TCP, x), cns) == Place(0, 0)
            && FindContainerPort(Numbered(TCP, y), cns) == Place(0, 1)
  {
    var cns := TwoPorts(name, x, y).containers;
    assert cns[0].ports[0].port == x && cns[0].ports[1].port == y;
    assert Identifies(Numbered(TCP, x), cns[0].ports[0]) && Identifies(Numbered(TCP, y), cns[0].ports[1]);
  }

  lemma TwoPortsAreMapped(base: Port, name: string, x: Port, y: Port)
    requires name != AGENT_CONTAINER && x != y && x != base && y != base
    ensures Generated(base, TwoPorts(name, x, y)).Done?
    ensures Generated(base, TwoPorts(name, x, y)).state.pns == map[x := base, y := (base + 1) % 65536]
  {
    var pod := TwoPorts(name, x, y);
    var cns, ids, start := pod.containers, pod.containerPorts, State(map[], []);
    FoundAmongTwo(name, x, y);
    assert WithServices(start, base, [], [], cns) == start;
    assert ids[..1] == [Numbered(TCP, x)] && ids[..1][..0] == [];
    assert WithContainerPorts(start, base, [], cns) == Done(start);
    var one := WithContainerPorts(start, base, ids[..1], cns);
    assert one.Done? && one.state.pns == map[x := base];
    assert WithContainerPorts(start, base, ids, cns) == WithContainerPort(one.state, base, ids[1], cns);
  }

  /** The generator accepts such a pod, and the agent's second port is the container's own. */
  lemma NextPortClashes(base: Port, name: string, x: Port)
    requires name != AGENT_CONTAINER && base < 65535 && x != base && x != base + 1
    ensures var pod := TwoPorts(name, x, base + 1);
            && Generated(base, pod).Done? && ExposesAgentPort(base + 1, pod.containers)
            && IsAgentPort(Generated(base, pod).state, base + 1)
  {
    TwoPortsAreMapped(base, name, x, base + 1);
    MapsToItself(Generated(base, TwoPorts(name, x, base + 1)).state, x, base);
    SecondIsExposed(name, x, base + 1);
  }

  lemma MapsToItself(s: State, x: Port, base: Port)
    requires base < 65535 && s.pns == map[x := base, base + 1 := (base + 1) % 65536]
    ensures IsAgentPort(s, base + 1)
  {
    assert base + 1 in s.pns;
  }

  lemma SecondIsExposed(name: string, x: Port, y: Port)
    requires name != AGENT_CONTAINER
    ensures ExposesAgentPort(y, TwoPorts(name, x, y).containers)
  {
    assert TwoPorts(name, x, y).containers[0].ports[1].port == y;
  }

  // ---------- Environment variables ----------

  /** Variables that are copied from two containers of a generated sidecar never get the same name. */
  lemma VariablesNeverClash(base: Port, s: State, n: nat, m: nat, name1: string, name2: string)
    requires Inv(base, s) && n < |s.ccs| && m < |s.ccs|
    ensures var app := Base26.ENV_PREFIX_APP;
            app + s.ccs[n].envPrefix + name1 == app + s.ccs[m].envPrefix + name2 <==> n == m && name1 == name2
  {
    Base26.CopiedNamesDiffer(n, m, name1, name2);
  }

  ghost predicate Configured(ccs: seq<Container>, cn: PodContainer) {
    cn.name == AGENT_CONTAINER || exists n :: 0 <= n < |ccs| && ccs[n].name == cn.name
  }

  lemma {:induction false} OthersConfigured(ccs: seq<Container>, cns: seq<PodContainer>, i: nat)
    requires i < |cns|
    ensures Configured(WithOthers(ccs, cns), cns[i])
    decreases |cns|
  {
    var front := cns[..|cns| - 1];
    var before, after := WithOthers(ccs, front), WithOthers(ccs, cns);
    if i == |cns| - 1 {
      var k := IndexOf(before, cns[i].name);
      assert cns[i].name != AGENT_CONTAINER ==> after[k].name == cns[i].name;
    } else {
      OthersConfigured(ccs, front, i);
      if cns[i].name != AGENT_CONTAINER {
        var n :| 0 <= n < |before| && before[n].name == front[i].name;
        assert after[n].name == cns[i].name;
      }
    }
  }

  /** Every container of the pod except the traffic-agent has exactly one configuration, intercepted or not. */
  lemma EveryContainerIsConfigured(base: Port, pod: Pod, i: nat)
    requires i < |pod.containers| && Generated(base, pod).Done?
    ensures var s := Generated(base, pod).state;
            && Configured(s.ccs, pod.containers[i])
            && forall m, n :: 0 <= m < n < |s.ccs| ==> s.ccs[m].name != s.ccs[n].name
  {
    GeneratedKeepsInv(base, pod);
    var s := WithServices(State(map[], []), base, pod.services, pod.servicePorts, pod.containers);
    OthersConfigured(WithContainerPorts(s, base, pod.containerPorts, pod.containers).state.ccs, pod.containers, i);
  }
}
