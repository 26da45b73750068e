/** Where the intercepts of a generated sidecar come from: for each container, in order, the service ports and
    the annotations of the pod that lead to it, and what each of them says. */
module AgentOrigins {
  import opened AgentConfig
  import opened AgentPorts

  datatype Origin = OfService(service: string, port: ServicePort) | OfAnnotation(id: PortId)

  // ---------- Which ports are meant ----------

  /** Without a protocol a port is a TCP port. */
  predicate SameProtocol(a: Protocol, b: Protocol) {
    (if a == Unset then TCP else a) == (if b == Unset then TCP else b)
  }

  /** A service port means the container port with the name or the number of its target, or with its own number when
      the target is zero. */
  lemma TargetedExactly(port: ServicePort, p: PodPort)
    ensures port.target.Name? ==>
              (Targets(port, p) <==> p.name == port.target.s && SameProtocol(port.protocol, p.protocol))
    ensures port.target.Number? && port.target.n != 0 ==>
              (Targets(port, p) <==> p.port == port.target.n && SameProtocol(port.protocol, p.protocol))
    ensures port.target == Number(0) ==>
              (Targets(port, p) <==> p.port == port.port && SameProtocol(port.protocol, p.protocol))
  {
  }

  /** An annotation selects the service ports of its name, or those whose target, or own number when the target is no
      number or zero, is its number. */
  lemma SelectionExactly(id: PortId, port: ServicePort)
    ensures id.Named? ==> (Selects(id, port) <==> id.name == port.name)
    ensures id.Numbered? && port.target.Number? && port.target.n != 0 ==>
              (Selects(id, port) <==> port.target.n == id.num && SameProtocolAs(port.protocol, id.proto))
    ensures id.Numbered? && (port.target.Name? || port.target.n == 0) ==>
              (Selects(id, port) <==> port.port == id.num && SameProtocolAs(port.protocol, id.proto))
  {
  }

  /** An annotation means the container port of its name or its number; a name also means a port with number zero. */
  lemma IdentifiedExactly(id: PortId, p: PodPort)
    requires id.proto != Unset
    ensures Identifies(id, p) <==>
              && SameProtocolAs(p.protocol, id.proto)
              && if id.Named? then p.name == id.name || p.port == 0 else p.port == id.num
  {
  }

  predicate SameProtocolAs(declared: Protocol, proto: Protocol) {
    proto == if declared == Unset then TCP else declared
  }

  // ---------- What an intercept says ----------

  /** The port of the container that the service port leads to: one that is declared, or the number that it asks
      for, without a name. */
  function FoundName(port: ServicePort, cns: seq<PodContainer>): string {
    var place := FindContainerMatchingPort(port, cns);
    if place.Place? && place.pi >= 0 then cns[place.ci].ports[place.pi].name else ""
  }

  function FoundNumber(port: ServicePort, cns: seq<PodContainer>): Port {
    var place := FindContainerMatchingPort(port, cns);
    if place.Place? && place.pi >= 0 then cns[place.ci].ports[place.pi].port
    else if port.target.Number? then port.target.n
    else 0
  }

  predicate SaysService(ic: Intercept, service: string, port: ServicePort, cns: seq<PodContainer>) {
    && ic.service == service && ic.servicePortName == port.name && ic.servicePort == port.port
    && ic.targetPortNumeric == port.target.Number? && SameProtocolAs(port.protocol, ic.protocol)
    && ic.containerPortName == FoundName(port, cns) && ic.containerPort == FoundNumber(port, cns)
  }

  predicate SaysAnnotation(ic: Intercept, id: PortId, cns: seq<PodContainer>) {
    var place := FindContainerPort(id, cns);
    && place.Place?
    && var p := cns[place.ci].ports[place.pi];
       && ic.service == "" && ic.servicePortName == "" && ic.servicePort == 0 && ic.targetPortNumeric
       && SameProtocolAs(p.protocol, ic.protocol) && ic.containerPortName == p.name && ic.containerPort == p.port
  }

  predicate Says(ic: Intercept, o: Origin, cns: seq<PodContainer>) {
    match o
    case OfService(service, port) => SaysService(ic, service, port, cns)
    case OfAnnotation(id) => SaysAnnotation(ic, id, cns)
  }

  /** One intercept for each origin, in order. */
  ghost predicate AllSay(ics: seq<Intercept>, os: seq<Origin>, cns: seq<PodContainer>) {
    |ics| == |os| && forall i :: 0 <= i < |ics| ==> Says(ics[i], os[i], cns)
  }

  // ---------- The origins of a container ----------

  /** Does the service port lead to a container of this name, which is not the traffic-agent? */
  predicate PortGoesTo(port: ServicePort, cns: seq<PodContainer>, c: string) {
    var place := FindContainerMatchingPort(port, cns);
    place.Place? && cns[place.ci].name == c && c != AGENT_CONTAINER
  }

  predicate IdGoesTo(id: PortId, cns: seq<PodContainer>, c: string) {
    var place := FindContainerPort(id, cns);
    place.Place? && cns[place.ci].name == c
  }

  /** The number of the port that the annotation asks for. */
  function IdNumber(id: PortId, cns: seq<PodContainer>): Port {
    var place := FindContainerPort(id, cns);
    if place.Place? then cns[place.ci].ports[place.pi].port else 0
  }

  function PortOrigins(service: string, ports: seq<ServicePort>, cns: seq<PodContainer>, c: string): seq<Origin> {
    if ports == [] then []
    else
      var front, last := PortOrigins(service, ports[..|ports| - 1], cns, c), ports[|ports| - 1];
      if PortGoesTo(last, cns, c) then front + [OfService(service, last)] else front
  }

  function ServiceOrigins(svcs: seq<Service>, ids: seq<PortId>, cns: seq<PodContainer>, c: string): seq<Origin> {
    if svcs == [] then []
    else
      var front, last := ServiceOrigins(svcs[..|svcs| - 1], ids, cns, c), svcs[|svcs| - 1];
      front + PortOrigins(last.name, Filtered(ids, last.ports), cns, c)
  }

  function NumberOf(o: Origin, cns: seq<PodContainer>): Port {
    match o
    case OfService(_, port) => FoundNumber(port, cns)
    case OfAnnotation(id) => IdNumber(id, cns)
  }

  predicate Concerns(os: seq<Origin>, cns: seq<PodContainer>, number: Port) {
    exists i :: 0 <= i < |os| && NumberOf(os[i], cns) == number
  }

  /** Does the annotation lead to a port of the container that nothing else is about? */
  predicate IsNew(os: seq<Origin>, id: PortId, cns: seq<PodContainer>, c: string) {
    IdGoesTo(id, cns, c) && !Concerns(os, cns, IdNumber(id, cns))
  }

  /** An annotation for a port that is intercepted already adds nothing. */
  function WithAnnotations(os: seq<Origin>, ids: seq<PortId>, cns: seq<PodContainer>, c: string): seq<Origin> {
    if ids == [] then os
    else
      var front, last := WithAnnotations(os, ids[..|ids| - 1], cns, c), ids[|ids| - 1];
      if IsNew(front, last, cns, c) then front + [OfAnnotation(last)] else front
  }

  function Origins(pod: Pod, c: string): seq<Origin> {
    WithAnnotations(ServiceOrigins(pod.services, pod.servicePorts, pod.containers, c), pod.containerPorts,
                    pod.containers, c)
  }

  // ---------- The generator follows them ----------

  /** The intercepts of the container of this name, if it is configured. */
  function InterceptsOf(ccs: seq<Container>, c: string): seq<Intercept> {
    var i := IndexOf(ccs, c);
    if i < |ccs| then ccs[i].intercepts else []
  }

  lemma IndexIs(ccs: seq<Container>, c: string, i: nat)
    requires i <= |ccs| && (i < |ccs| ==> ccs[i].name == c) && forall k :: 0 <= k < i ==> ccs[k].name != c
    ensures IndexOf(ccs, c) == i
  {
  }

  lemma PlacedElsewhere(ccs: seq<Container>, name: string, ic: Intercept, once: bool, c: string)
    requires c != name
    ensures InterceptsOf(Placed(ccs, name, ic, once), c) == InterceptsOf(ccs, c)
  {
    var after, i, j := Placed(ccs, name, ic, once), IndexOf(ccs, name), IndexOf(ccs, c);
    assert forall k :: 0 <= k < |ccs| ==> after[k].name == ccs[k].name && (k != i ==> after[k] == ccs[k]);
    if j < |ccs| {
      IndexIs(after, c, j);
    } else {
      IndexIs(after, c, |after|);
    }
  }

  lemma PlacedHere(ccs: seq<Container>, name: string, ic: Intercept, once: bool)
    ensures var before := InterceptsOf(ccs, name);
            InterceptsOf(Placed(ccs, name, ic, once), name)
              == if once && HasPort(before, ic.containerPort) then before else before + [ic]
  {
    var after, i := Placed(ccs, name, ic, once), IndexOf(ccs, name);
    assert forall k :: 0 <= k < |ccs| ==> after[k].name == ccs[k].name;
    IndexIs(after, name, i);
  }

  lemma OtherChangesNothing(ccs: seq<Container>, cn: PodContainer, c: string)
    ensures InterceptsOf(WithOther(ccs, cn), c) == InterceptsOf(ccs, c)
  {
    var after, i := WithOther(ccs, cn), IndexOf(ccs, c);
    assert forall k :: 0 <= k < |ccs| ==> after[k] == ccs[k];
    if i < |ccs| || after == ccs || cn.name != c {
      IndexIs(after, c, if i < |ccs| then i else |after|);
    } else {
      IndexIs(after, c, i);
    }
  }

  lemma {:induction false} OthersChangeNothing(ccs: seq<Container>, cns: seq<PodContainer>, c: string)
    ensures InterceptsOf(WithOthers(ccs, cns), c) == InterceptsOf(ccs, c)
    decreases |cns|
  {
    if cns != [] {
      OthersChangeNothing(ccs, cns[..|cns| - 1], c);
      OtherChangesNothing(WithOthers(ccs, cns[..|cns| - 1]), cns[|cns| - 1], c);
    }
  }

  lemma PortSays(service: string, port: ServicePort, cns: seq<PodContainer>, agentPort: Port)
    requires FindContainerMatchingPort(port, cns).Place?
    ensures var app := AppPort(port, FindContainerMatchingPort(port, cns), cns);
            SaysService(ServiceIntercept(service, port, app, agentPort), service, port, cns)
  {
  }

  lemma SayOneMore(ics: seq<Intercept>, os: seq<Origin>, cns: seq<PodContainer>, ic: Intercept, o: Origin)
    requires AllSay(ics, os, cns) && Says(ic, o, cns)
    ensures AllSay(ics + [ic], os + [o], cns)
  {
  }

  lemma ServicePortFollows(base: Port, s: State, service: string, port: ServicePort, cns: seq<PodContainer>, c: string,
                           os: seq<Origin>)
    requires AllSay(InterceptsOf(s.ccs, c), os, cns)
    ensures AllSay(InterceptsOf(WithServicePort(s, base, service, port, cns).ccs, c),
                   if PortGoesTo(port, cns, c) then os + [OfService(service, port)] else os, cns)
  {
    var place := FindContainerMatchingPort(port, cns);
    if place.Place? && cns[place.ci].name != AGENT_CONTAINER {
      var app := AppPort(port, place, cns);
      var p := Allocated(base, s.pns, app.port)[app.port];
      var ic, name := ServiceIntercept(service, port, app, p), cns[place.ci].name;
      PortSays(service, port, cns, p);
      if name == c {
        PlacedHere(s.ccs, name, ic, false);
        SayOneMore(InterceptsOf(s.ccs, c), os, cns, ic, OfService(service, port));
      } else {
        PlacedElsewhere(s.ccs, name, ic, false, c);
      }
    }
  }

  lemma {:induction false} ServicePortsFollow(base: Port, s: State, service: string, ports: seq<ServicePort>,
                                              cns: seq<PodContainer>, c: string, os: seq<Origin>)
    requires AllSay(InterceptsOf(s.ccs, c), os, cns)
    ensures AllSay(InterceptsOf(WithServicePorts(s, base, service, ports, cns).ccs, c),
                   os + PortOrigins(service, ports, cns, c), cns)
    decreases |ports|
  {
    if ports == [] {
      assert os + [] == os;
    } else {
      var front, last := ports[..|ports| - 1], ports[|ports| - 1];
      ServicePortsFollow(base, s, service, front, cns, c, os);
      var before := os + PortOrigins(service, front, cns, c);
      ServicePortFollows(base, WithServicePorts(s, base, service, front, cns), service, last, cns, c, before);
      assert before + [OfService(service, last)]
          == os + (PortOrigins(service, front, cns, c) + [OfService(service, last)]);
    }
  }

  lemma {:induction false} ServicesFollow(base: Port, s: State, svcs: seq<Service>, ids: seq<PortId>,
                                          cns: seq<PodContainer>, c: string)
    requires InterceptsOf(s.ccs, c) == []
    ensures AllSay(InterceptsOf(WithServices(s, base, svcs, ids, cns).ccs, c), ServiceOrigins(svcs, ids, cns, c), cns)
    decreases |svcs|
  {
    if svcs != [] {
      var front, last := svcs[..|svcs| - 1], svcs[|svcs| - 1];
      ServicesFollow(base, s, front, ids, cns, c);
      ServicePortsFollow(base, WithServices(s, base, front, ids, cns), last.name, Filtered(ids, last.ports), cns, c,
                         ServiceOrigins(front, ids, cns, c));
    }
  }

  lemma SameNumbers(ics: seq<Intercept>, os: seq<Origin>, cns: seq<PodContainer>, number: Port)
    requires AllSay(ics, os, cns)
    ensures HasPort(ics, number) <==> Concerns(os, cns, number)
  {
    assert forall i :: 0 <= i < |ics| ==> ics[i].containerPort == NumberOf(os[i], cns);
  }

  lemma ContainerPortFollows(base: Port, s: State, id: PortId, cns: seq<PodContainer>, c: string, os: seq<Origin>)
    requires AllSay(InterceptsOf(s.ccs, c), os, cns) && WithContainerPort(s, base, id, cns).Done?
    ensures AllSay(InterceptsOf(WithContainerPort(s, base, id, cns).state.ccs, c),
                   if IsNew(os, id, cns, c) then os + [OfAnnotation(id)] else os, cns)
  {
    var place := FindContainerPort(id, cns);
    var app := cns[place.ci].ports[place.pi];
    var p := Allocated(base, s.pns, app.port)[app.port];
    var ic, name := ContainerIntercept(app, p), cns[place.ci].name;
    assert Says(ic, OfAnnotation(id), cns);
    if name == c {
      PlacedHere(s.ccs, name, ic, true);
      SameNumbers(InterceptsOf(s.ccs, c), os, cns, app.port);
      SayOneMore(InterceptsOf(s.ccs, c), os, cns, ic, OfAnnotation(id));
    } else {
      PlacedElsewhere(s.ccs, name, ic, true, c);
    }
  }

  lemma {:induction false} ContainerPortsFollow(base: Port, s: State, ids: seq<PortId>, cns: seq<PodContainer>,
                                                c: string, os: seq<Origin>)
    requires AllSay(InterceptsOf(s.ccs, c), os, cns) && WithContainerPorts(s, base, ids, cns).Done?
    ensures var ccs := WithContainerPorts(s, base, ids, cns).state.ccs;
            AllSay(InterceptsOf(ccs, c), WithAnnotations(os, ids, cns, c), cns)
    decreases |ids|
  {
    if ids != [] {
      var front := ids[..|ids| - 1];
      ContainerPortsFollow(base, s, front, cns, c, os);
      ContainerPortFollows(base, WithContainerPorts(s, base, front, cns).state, ids[|ids| - 1], cns, c,
                           WithAnnotations(os, front, cns, c));
    }
  }

  /** In every generated sidecar a container has exactly the intercepts of its origins, in order. */
  lemma InterceptsFollowOrigins(base: Port, pod: Pod, n: nat)
    requires Generated(base, pod).Done? && n < |Generated(base, pod).state.ccs|
    ensures var cc := Generated(base, pod).state.ccs[n]; AllSay(cc.intercepts, Origins(pod, cc.name), pod.containers)
  {
    var ccs, c := Generated(base, pod).state.ccs, Generated(base, pod).state.ccs[n].name;
    FollowOrigins(base, pod, c);
    GeneratedKeepsInv(base, pod);
    IndexIs(ccs, c, n);
  }

  lemma FollowOrigins(base: Port, pod: Pod, c: string)
    requires Generated(base, pod).Done?
    ensures AllSay(InterceptsOf(Generated(base, pod).state.ccs, c), Origins(pod, c), pod.containers)
  {
    var start := State(map[], []);
    var s := WithServices(start, base, pod.services, pod.servicePorts, pod.containers);
    ServicesFollow(base, start, pod.services, pod.servicePorts, pod.containers, c);
    ContainerPortsFollow(base, s, pod.containerPorts, pod.containers, c,
                         ServiceOrigins(pod.services, pod.servicePorts, pod.containers, c));
    var t := WithContainerPorts(s, base, pod.containerPorts, pod.containers).state;
    OthersChangeNothing(t.ccs, pod.containers, c);
  }

  // ---------- Which origins there are ----------

  lemma {:induction false} PortOriginExactly(service: string, ports: seq<ServicePort>, cns: seq<PodContainer>,
                                             c: string, o: Origin)
    ensures o in PortOrigins(service, ports, cns, c) <==>
              o.OfService? && o.service == service && o.port in ports && PortGoesTo(o.port, cns, c)
    decreases |ports|
  {
    if ports != [] {
      PortOriginExactly(service, ports[..|ports| - 1], cns, c, o);
      assert ports == ports[..|ports| - 1] + [ports[|ports| - 1]];
    }
  }

  /** The service has the port, the annotations admit it, and it leads to the container. */
  predicate Offers(svc: Service, ids: seq<PortId>, cns: seq<PodContainer>, c: string, o: Origin) {
    o.OfService? && o.service == svc.name && o.port in svc.ports && Admits(ids, o.port) && PortGoesTo(o.port, cns, c)
  }

  predicate SomeOffers(svcs: seq<Service>, ids: seq<PortId>, cns: seq<PodContainer>, c: string, o: Origin) {
    exists n :: 0 <= n < |svcs| && Offers(svcs[n], ids, cns, c, o)
  }

  lemma SomeOffersLast(svcs: seq<Service>, ids: seq<PortId>, cns: seq<PodContainer>, c: string, o: Origin)
    requires svcs != []
    ensures SomeOffers(svcs, ids, cns, c, o) <==>
              SomeOffers(svcs[..|svcs| - 1], ids, cns, c, o) || Offers(svcs[|svcs| - 1], ids, cns, c, o)
  {
    var front := svcs[..|svcs| - 1];
    assert forall n :: 0 <= n < |front| ==> front[n] == svcs[n];
  }

  lemma {:induction false} ServiceOriginsExactly(svcs: seq<Service>, ids: seq<PortId>, cns: seq<PodContainer>,
                                                 c: string, o: Origin)
    ensures o in ServiceOrigins(svcs, ids, cns, c) <==> SomeOffers(svcs, ids, cns, c, o)
    decreases |svcs|
  {
    if svcs != [] {
      var last := svcs[|svcs| - 1];
      ServiceOriginsExactly(svcs[..|svcs| - 1], ids, cns, c, o);
      PortOriginExactly(last.name, Filtered(ids, last.ports), cns, c, o);
      if o.OfService? {
        FilteredExactly(ids, last.ports, o.port);
      }
      SomeOffersLast(svcs, ids, cns, c, o);
    }
  }

  /** An annotation that leads to this port of the container. */
  predicate IsFor(id: PortId, cns: seq<PodContainer>, c: string, number: Port) {
    IdGoesTo(id, cns, c) && IdNumber(id, cns) == number
  }

  predicate SomeIsFor(ids: seq<PortId>, cns: seq<PodContainer>, c: string, number: Port) {
    exists i :: 0 <= i < |ids| && IsFor(ids[i], cns, c, number)
  }

  lemma SomeIsForLast(ids: seq<PortId>, cns: seq<PodContainer>, c: string, number: Port)
    requires ids != []
    ensures SomeIsFor(ids, cns, c, number) <==>
              SomeIsFor(ids[..|ids| - 1], cns, c, number) || IsFor(ids[|ids| - 1], cns, c, number)
  {
    var front := ids[..|ids| - 1];
    assert forall i :: 0 <= i < |front| ==> front[i] == ids[i];
  }

  lemma ConcernsOneMore(os: seq<Origin>, cns: seq<PodContainer>, o: Origin, number: Port)
    ensures Concerns(os + [o], cns, number) <==> Concerns(os, cns, number) || NumberOf(o, cns) == number
  {
    var more := os + [o];
    assert more[|os|] == o && forall i :: 0 <= i < |os| ==> more[i] == os[i];
  }

  /** A port of the container is intercepted for a service, or for an annotation. */
  lemma {:induction false} ConcernedExactly(os: seq<Origin>, ids: seq<PortId>, cns: seq<PodContainer>, c: string,
                                            number: Port)
    ensures Concerns(WithAnnotations(os, ids, cns, c), cns, number) <==>
              Concerns(os, cns, number) || SomeIsFor(ids, cns, c, number)
    decreases |ids|
  {
    if ids != [] {
      var front, last := ids[..|ids| - 1], ids[|ids| - 1];
      ConcernedExactly(os, front, cns, c, number);
      ConcernsOneMore(WithAnnotations(os, front, cns, c), cns, OfAnnotation(last), number);
      SomeIsForLast(ids, cns, c, number);
    }
  }

  /** The annotation at `i` leads to the container, no service does to the same port, and no annotation before. */
  ghost predicate IsFirst(os: seq<Origin>, ids: seq<PortId>, i: nat, cns: seq<PodContainer>, c: string) {
    && i < |ids| && IdGoesTo(ids[i], cns, c) && !Concerns(os, cns, IdNumber(ids[i], cns))
    && !SomeIsFor(ids[..i], cns, c, IdNumber(ids[i], cns))
  }

  ghost predicate SomeIsFirst(os: seq<Origin>, ids: seq<PortId>, cns: seq<PodContainer>, c: string, id: PortId) {
    exists i :: 0 <= i < |ids| && ids[i] == id && IsFirst(os, ids, i, cns, c)
  }

  lemma SomeIsFirstLast(os: seq<Origin>, ids: seq<PortId>, cns: seq<PodContainer>, c: string, id: PortId)
    requires ids != []
    ensures var n := |ids| - 1;
            SomeIsFirst(os, ids, cns, c, id) <==>
              SomeIsFirst(os, ids[..n], cns, c, id) || (ids[n] == id && IsFirst(os, ids, n, cns, c))
  {
    var n := |ids| - 1;
    forall i | 0 <= i < n
      ensures IsFirst(os, ids[..n], i, cns, c) <==> IsFirst(os, ids, i, cns, c)
    {
      FirstInFront(os, ids, i, cns, c);
    }
    FirstIndex(os, ids, cns, c, id);
  }

  lemma FirstIndex(os: seq<Origin>, ids: seq<PortId>, cns: seq<PodContainer>, c: string, id: PortId)
    requires ids != []
    requires forall i :: 0 <= i < |ids| - 1 ==>
               (IsFirst(os, ids[..|ids| - 1], i, cns, c) <==> IsFirst(os, ids, i, cns, c))
    ensures SomeIsFirst(os, ids, cns, c, id) <==>
              || SomeIsFirst(os, ids[..|ids| - 1], cns, c, id)
              || (ids[|ids| - 1] == id && IsFirst(os, ids, |ids| - 1, cns, c))
  {
    var front := ids[..|ids| - 1];
    assert forall i :: 0 <= i < |front| ==> front[i] == ids[i];
  }

  lemma FirstInFront(os: seq<Origin>, ids: seq<PortId>, i: nat, cns: seq<PodContainer>, c: string)
    requires i < |ids| - 1
    ensures IsFirst(os, ids[..|ids| - 1], i, cns, c) <==> IsFirst(os, ids, i, cns, c)
  {
    assert ids[..|ids| - 1][..i] == ids[..i];
  }

  lemma {:induction false} AnnotationOriginsExactly(os: seq<Origin>, ids: seq<PortId>, cns: seq<PodContainer>,
                                                    c: string, id: PortId)
    requires OfAnnotation(id) !in os
    ensures OfAnnotation(id) in WithAnnotations(os, ids, cns, c) <==> SomeIsFirst(os, ids, cns, c, id)
    decreases |ids|
  {
    if ids != [] {
      var n := |ids| - 1;
      AnnotationOriginsExactly(os, ids[..n], cns, c, id);
      ConcernedExactly(os, ids[..n], cns, c, IdNumber(ids[n], cns));
      SomeIsFirstLast(os, ids, cns, c, id);
    }
  }

  lemma {:induction false} ServicesStay(os: seq<Origin>, ids: seq<PortId>, cns: seq<PodContainer>, c: string, o: Origin)
    requires o.OfService?
    ensures o in WithAnnotations(os, ids, cns, c) <==> o in os
    decreases |ids|
  {
    if ids != [] {
      ServicesStay(os, ids[..|ids| - 1], cns, c, o);
    }
  }

  /** An intercept of a service stands in a container if and only if some service has a port that the annotations
      admit and that leads to a container of this name, which is not the traffic-agent. */
  lemma ServiceOriginExactly(pod: Pod, c: string, o: Origin)
    requires o.OfService?
    ensures o in Origins(pod, c) <==> SomeOffers(pod.services, pod.servicePorts, pod.containers, c, o)
  {
    var os := ServiceOrigins(pod.services, pod.servicePorts, pod.containers, c);
    ServicesStay(os, pod.containerPorts, pod.containers, c, o);
    ServiceOriginsExactly(pod.services, pod.servicePorts, pod.containers, c, o);
  }

  /** And an intercept of an annotated port if and only if the annotation leads to the container and is the first
      to do so for that port, where no service does. */
  lemma AnnotationOriginExactly(pod: Pod, c: string, id: PortId)
    ensures OfAnnotation(id) in Origins(pod, c) <==>
              SomeIsFirst(ServiceOrigins(pod.services, pod.servicePorts, pod.containers, c), pod.containerPorts,
                          pod.containers, c, id)
  {
    var os := ServiceOrigins(pod.services, pod.servicePorts, pod.containers, c);
    ServiceOriginsExactly(pod.services, pod.servicePorts, pod.containers, c, OfAnnotation(id));
    AnnotationOriginsExactly(os, pod.containerPorts, pod.containers, c, id);
  }

  // ---------- Traffic that is not intercepted ----------

  function ProtocolOf(o: Origin, cns: seq<PodContainer>): Protocol {
    match o
    case OfService(_, port) => if port.protocol == Unset then TCP else port.protocol
    case OfAnnotation(id) =>
      var place := FindContainerPort(id, cns);
      if place == Nowhere || cns[place.ci].ports[place.pi].protocol == Unset then TCP
      else cns[place.ci].ports[place.pi].protocol
  }

  /** The origin is about this port and protocol, and its target is a number if that is asked for. */
  predicate Asks(o: Origin, cns: seq<PodContainer>, port: Port, proto: Protocol, numeric: bool) {
    && NumberOf(o, cns) == port && ProtocolOf(o, cns) == proto
    && (numeric ==> o.OfAnnotation? || o.port.target.Number?)
  }

  predicate SomeAsks(os: seq<Origin>, cns: seq<PodContainer>, port: Port, proto: Protocol, numeric: bool) {
    exists i :: 0 <= i < |os| && Asks(os[i], cns, port, proto, numeric)
  }

  lemma SaysWhatIsAsked(ic: Intercept, o: Origin, cns: seq<PodContainer>, port: Port, proto: Protocol, numeric: bool)
    requires Says(ic, o, cns)
    ensures Asks(o, cns, port, proto, numeric) <==>
              AgentPorts.IsFor(ic, port, proto) && (numeric ==> ic.targetPortNumeric)
  {
  }

  lemma AskedIsFound(ics: seq<Intercept>, os: seq<Origin>, cns: seq<PodContainer>, port: Port, proto: Protocol,
                     numeric: bool) returns (ic: Intercept)
    requires AllSay(ics, os, cns) && SomeAsks(os, cns, port, proto, numeric)
    ensures ic in Matching(ics, port, proto) && (numeric ==> ic.targetPortNumeric)
  {
    var i :| 0 <= i < |os| && Asks(os[i], cns, port, proto, numeric);
    ic := ics[i];
    SaysWhatIsAsked(ic, os[i], cns, port, proto, numeric);
    assert ic in ics;
  }

  lemma FoundIsAsked(ics: seq<Intercept>, os: seq<Origin>, cns: seq<PodContainer>, port: Port, proto: Protocol,
                     numeric: bool, ic: Intercept)
    requires AllSay(ics, os, cns) && ic in Matching(ics, port, proto) && (numeric ==> ic.targetPortNumeric)
    ensures SomeAsks(os, cns, port, proto, numeric)
  {
    assert ic in ics && AgentPorts.IsFor(ic, port, proto);
    var i :| 0 <= i < |ics| && ics[i] == ic;
    SaysWhatIsAsked(ic, os[i], cns, port, proto, numeric);
  }

  lemma AskedIsMatched(ics: seq<Intercept>, os: seq<Origin>, cns: seq<PodContainer>, port: Port, proto: Protocol)
    requires AllSay(ics, os, cns)
    ensures Matching(ics, port, proto) != [] <==> SomeAsks(os, cns, port, proto, false)
  {
    if Matching(ics, port, proto) != [] {
      FoundIsAsked(ics, os, cns, port, proto, false, Matching(ics, port, proto)[0]);
    } else if SomeAsks(os, cns, port, proto, false) {
      var ic := AskedIsFound(ics, os, cns, port, proto, false);
    }
  }

  lemma AskedIsNumeric(ics: seq<Intercept>, os: seq<Origin>, cns: seq<PodContainer>, port: Port, proto: Protocol)
    requires AllSay(ics, os, cns)
    ensures IsNumeric(Matching(ics, port, proto)) <==> SomeAsks(os, cns, port, proto, true)
  {
    var it := Matching(ics, port, proto);
    if k :| 0 <= k < |it| && it[k].targetPortNumeric {
      FoundIsAsked(ics, os, cns, port, proto, true, it[k]);
    } else if SomeAsks(os, cns, port, proto, true) {
      var ic := AskedIsFound(ics, os, cns, port, proto, true);
    }
  }

  lemma {:induction false} LookupIsFirst(ccs: seq<Container>, port: Port, proto: Protocol, n: nat)
    requires n <= |ccs| && forall m :: 0 <= m < n ==> Matching(ccs[m].intercepts, port, proto) == []
    requires n < |ccs| ==> Matching(ccs[n].intercepts, port, proto) != []
    ensures Lookup(ccs, port, proto) == if n < |ccs| then Matching(ccs[n].intercepts, port, proto) else []
    decreases |ccs|
  {
    if ccs != [] && n > 0 {
      LookupIsFirst(ccs[1..], port, proto, n - 1);
    }
  }

  /** Container `n` is the first whose origins ask for the port; or none does, and `n` is their number. */
  ghost predicate IsAsked(pod: Pod, ccs: seq<Container>, port: Port, proto: Protocol, n: nat) {
    && n <= |ccs|
    && (forall m :: 0 <= m < n ==> !SomeAsks(Origins(pod, ccs[m].name), pod.containers, port, proto, false))
    && (n < |ccs| ==> SomeAsks(Origins(pod, ccs[n].name), pod.containers, port, proto, false))
  }

  lemma AskedIsLookedUp(base: Port, pod: Pod, port: Port, proto: Protocol, n: nat)
    requires Generated(base, pod).Done? && IsAsked(pod, Generated(base, pod).state.ccs, port, proto, n)
    ensures var ccs := Generated(base, pod).state.ccs;
            Lookup(ccs, port, proto) == if n < |ccs| then Matching(ccs[n].intercepts, port, proto) else []
  {
    var ccs := Generated(base, pod).state.ccs;
    forall m | 0 <= m < |ccs|
      ensures Matching(ccs[m].intercepts, port, proto) != [] <==>
                SomeAsks(Origins(pod, ccs[m].name), pod.containers, port, proto, false)
    {
      InterceptsFollowOrigins(base, pod, m);
      AskedIsMatched(ccs[m].intercepts, Origins(pod, ccs[m].name), pod.containers, port, proto);
    }
    LookupIsFirst(ccs, port, proto, n);
  }

  /** Where traffic that is not intercepted goes, from the pod alone: to the proxy port of the container port when
      the first container that is asked for it is asked for it by number, and to the port itself otherwise. */
  lemma InactivePortExactly(base: Port, pod: Pod, port: Port, proto: Protocol, n: nat)
    requires Generated(base, pod).Done? && IsAsked(pod, Generated(base, pod).state.ccs, port, proto, n)
    ensures var s := Generated(base, pod).state;
            if n < |s.ccs| && SomeAsks(Origins(pod, s.ccs[n].name), pod.containers, port, proto, true)
            then port in s.pns && InactivePort(s.ccs, port, proto) == ProxyPort(s.ccs, s.pns[port])
            else InactivePort(s.ccs, port, proto) == port
  {
    var s := Generated(base, pod).state;
    AskedIsLookedUp(base, pod, port, proto, n);
    if n < |s.ccs| {
      InterceptsFollowOrigins(base, pod, n);
      AskedIsMatched(s.ccs[n].intercepts, Origins(pod, s.ccs[n].name), pod.containers, port, proto);
      AskedIsNumeric(s.ccs[n].intercepts, Origins(pod, s.ccs[n].name), pod.containers, port, proto);
      GeneratedKeepsInv(base, pod);
      MatchingIsTarget(s.pns, s.ccs[n].intercepts, port, proto);
    }
  }

  // ---------- Which containers are configured ----------

  /** Every configuration is that of a container of the pod, and never that of the traffic-agent. */
  ghost predicate OfPod(ccs: seq<Container>, cns: seq<PodContainer>) {
    forall n :: 0 <= n < |ccs| ==> ccs[n].name != AGENT_CONTAINER && HasName(cns, ccs[n].name)
  }

  predicate HasName(cns: seq<PodContainer>, name: string) {
    exists i :: 0 <= i < |cns| && cns[i].name == name
  }

  lemma PlacedStaysOfPod(ccs: seq<Container>, cns: seq<PodContainer>, name: string, ic: Intercept, once: bool)
    requires OfPod(ccs, cns) && name != AGENT_CONTAINER && HasName(cns, name)
    ensures OfPod(Placed(ccs, name, ic, once), cns)
  {
  }

  lemma {:induction false} ServicePortsStayOfPod(base: Port, s: State, service: string, ports: seq<ServicePort>,
                                                 cns: seq<PodContainer>)
    requires OfPod(s.ccs, cns)
    ensures OfPod(WithServicePorts(s, base, service, ports, cns).ccs, cns)
    decreases |ports|
  {
    if ports != [] {
      var port := ports[|ports| - 1];
      ServicePortsStayOfPod(base, s, service, ports[..|ports| - 1], cns);
      var before := WithServicePorts(s, base, service, ports[..|ports| - 1], cns);
      var place := FindContainerMatchingPort(port, cns);
      if place.Place? && cns[place.ci].name != AGENT_CONTAINER {
        var app := AppPort(port, place, cns);
        var p := Allocated(base, before.pns, app.port)[app.port];
        PlacedStaysOfPod(before.ccs, cns, cns[place.ci].name, ServiceIntercept(service, port, app, p), false);
      }
    }
  }

  lemma {:induction false} ServicesStayOfPod(base: Port, s: State, svcs: seq<Service>, ids: seq<PortId>,
                                             cns: seq<PodContainer>)
    requires OfPod(s.ccs, cns)
    ensures OfPod(WithServices(s, base, svcs, ids, cns).ccs, cns)
    decreases |svcs|
  {
    if svcs != [] {
      var last := svcs[|svcs| - 1];
      ServicesStayOfPod(base, s, svcs[..|svcs| - 1], ids, cns);
      var before := WithServices(s, base, svcs[..|svcs| - 1], ids, cns);
      ServicePortsStayOfPod(base, before, last.name, Filtered(ids, last.ports), cns);
    }
  }

  lemma {:induction false} ContainerPortsStayOfPod(base: Port, s: State, ids: seq<PortId>, cns: seq<PodContainer>)
    requires OfPod(s.ccs, cns)
    ensures var r := WithContainerPorts(s, base, ids, cns); r.Done? ==> OfPod(r.state.ccs, cns)
    decreases |ids|
  {
    if ids != [] {
      ContainerPortsStayOfPod(base, s, ids[..|ids| - 1], cns);
      var before := WithContainerPorts(s, base, ids[..|ids| - 1], cns);
      var place := FindContainerPort(ids[|ids| - 1], cns);
      if before.Done? && place.Place? {
        var app := cns[place.ci].ports[place.pi];
        var p := Allocated(base, before.state.pns, app.port)[app.port];
        PlacedStaysOfPod(before.state.ccs, cns, cns[place.ci].name, ContainerIntercept(app, p), true);
      }
    }
  }

  lemma {:induction false} OthersStayOfPod(ccs: seq<Container>, cns: seq<PodContainer>, n: nat)
    requires OfPod(ccs, cns) && n <= |cns|
    ensures OfPod(WithOthers(ccs, cns[..n]), cns)
    decreases n
  {
    if n > 0 {
      OthersStayOfPod(ccs, cns, n - 1);
      assert cns[..n][..n - 1] == cns[..n - 1] && cns[..n][n - 1] == cns[n - 1];
      assert HasName(cns, cns[n - 1].name);
    }
  }

  /** A container is configured if and only if it is one of the pod and not the traffic-agent. */
  lemma ConfiguredExactly(base: Port, pod: Pod, name: string)
    requires Generated(base, pod).Done?
    ensures (exists n :: 0 <= n < |Generated(base, pod).state.ccs| && Generated(base, pod).state.ccs[n].name == name)
            <==> name != AGENT_CONTAINER && HasName(pod.containers, name)
  {
    var start, cns := State(map[], []), pod.containers;
    var s := WithServices(start, base, pod.services, pod.servicePorts, cns);
    ServicesStayOfPod(base, start, pod.services, pod.servicePorts, cns);
    ContainerPortsStayOfPod(base, s, pod.containerPorts, cns);
    OthersStayOfPod(WithContainerPorts(s, base, pod.containerPorts, cns).state.ccs, cns, |cns|);
    assert cns[..|cns|] == cns;
    if i :| 0 <= i < |cns| && cns[i].name == name {
      EveryContainerIsConfigured(base, pod, i);
    }
  }
}
