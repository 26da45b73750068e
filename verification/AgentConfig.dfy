/** What the generator of pkg/agentmap makes of a pod: the containers of a sidecar, their intercepts and the
    ports that the traffic-agent listens to. */
module AgentConfig {
  import Base26

  const AGENT_CONTAINER := "traffic-agent"

  type Port = p: int | 0 <= p < 65536

  /** The protocol of a Kubernetes port. No protocol means TCP. */
  datatype Protocol = Unset | TCP | UDP | SCTP

  datatype PodPort = PodPort(name: string, port: Port, protocol: Protocol)

  datatype PodContainer = PodContainer(name: string, ports: seq<PodPort>)

  datatype Target = Number(n: Port) | Name(s: string)

  datatype ServicePort = ServicePort(name: string, port: Port, protocol: Protocol, target: Target)

  datatype Service = Service(name: string, ports: seq<ServicePort>)

  /** A port of an annotation, parsed. */
  datatype PortId = Named(proto: Protocol, name: string) | Numbered(proto: Protocol, num: Port)

  datatype Intercept = Intercept(service: string, servicePortName: string, servicePort: Port, targetPortNumeric: bool,
                                 protocol: Protocol, agentPort: Port, containerPortName: string, containerPort: Port)

  datatype Container = Container(name: string, envPrefix: string, intercepts: seq<Intercept>)

  /** The agent port of each container port, and the containers so far. */
  datatype State = State(pns: map<Port, Port>, ccs: seq<Container>)

  function FromK8s(p: Protocol): Protocol {
    if p == Unset then TCP else p
  }

  predicate ProtoEqual(p: Protocol, proto: Protocol) {
    p == proto || (p == Unset && proto == TCP)
  }

  // ---------- Finding the container of a port ----------

  /** `pi` is negative for a container that declares no ports. */
  datatype Place = Nowhere | Place(ci: nat, pi: int)

  /** Port `k` of container `c` comes before the place; everything comes before nowhere. */
  predicate Earlier(c: int, k: int, place: Place) {
    place.Place? ==> c < place.ci || (c == place.ci && k < place.pi)
  }

  function FirstPort(ports: seq<PodPort>, f: PodPort -> bool): (i: int)
    ensures -1 <= i < |ports|
    ensures i >= 0 ==> f(ports[i])
    ensures forall k :: 0 <= k < (if i < 0 then |ports| else i) ==> !f(ports[k])
  {
    if ports == [] then -1
    else if f(ports[0]) then 0
    else
      var i := FirstPort(ports[1..], f);
      assert forall k :: 0 < k < |ports| ==> ports[k] == ports[1..][k - 1];
      if i < 0 then -1 else i + 1
  }

  /** The first port that satisfies `f`, in a container that `eligible` admits. */
  function FirstPlace(cns: seq<PodContainer>, from: nat, eligible: string -> bool, f: PodPort -> bool): (r: Place)
    requires from <= |cns|
    ensures r.Place? ==> from <= r.ci < |cns| && 0 <= r.pi < |cns[r.ci].ports| && eligible(cns[r.ci].name)
    ensures r.Place? ==> f(cns[r.ci].ports[r.pi]) && forall k :: 0 <= k < r.pi ==> !f(cns[r.ci].ports[k])
    ensures forall c, k ::
              from <= c < (if r.Place? then r.ci else |cns|) && 0 <= k < |cns[c].ports| && eligible(cns[c].name) ==>
                !f(cns[c].ports[k])
    decreases |cns| - from
  {
    if from == |cns| then Nowhere
    else
      var i := FirstPort(cns[from].ports, f);
      if eligible(cns[from].name) && i >= 0 then Place(from, i) else FirstPlace(cns, from + 1, eligible, f)
  }

  function FirstBare(cns: seq<PodContainer>, from: nat): (r: Place)
    requires from <= |cns|
    ensures r.Place? ==> from <= r.ci < |cns| && cns[r.ci].ports == [] && r.pi == -1
    ensures forall c :: from <= c < (if r.Place? then r.ci else |cns|) ==> cns[c].ports != []
    decreases |cns| - from
  {
    if from == |cns| then Nowhere
    else if cns[from].ports == [] then Place(from, -1)
    else FirstBare(cns, from + 1)
  }

  /** The port that a service port leads to. A numeric target defaults to the port itself. */
  predicate Targets(port: ServicePort, p: PodPort) {
    && ProtoEqual(p.protocol, FromK8s(port.protocol))
    && match port.target
       case Name(s) => p.name == s
       case Number(n) => p.port == (if n == 0 then port.port else n)
  }

  /** `findContainerMatchingPort`: as a last resort a numeric target takes a container without ports. */
  function FindContainerMatchingPort(port: ServicePort, cns: seq<PodContainer>): (r: Place)
    ensures r.Place? ==> r.ci < |cns| && r.pi < |cns[r.ci].ports|
    ensures r.Place? && r.pi >= 0 ==> Targets(port, cns[r.ci].ports[r.pi])
    ensures r.Place? && r.pi < 0 ==> cns[r.ci].ports == [] && port.target.Number?
    ensures r == Nowhere || r.pi < 0 ==>
              forall c, k :: 0 <= c < |cns| && 0 <= k < |cns[c].ports| ==> !Targets(port, cns[c].ports[k])
    ensures r.Place? && r.pi >= 0 ==>
              forall c, k :: 0 <= c < |cns| && 0 <= k < |cns[c].ports| && Earlier(c, k, r) ==>
                !Targets(port, cns[c].ports[k])
    ensures r.Place? && r.pi < 0 ==> forall c :: 0 <= c < r.ci ==> cns[c].ports != []
    ensures r == Nowhere && port.target.Number? ==> forall c :: 0 <= c < |cns| ==> cns[c].ports != []
  {
    var place := FirstPlace(cns, 0, name => true, p => Targets(port, p));
    if place.Place? || port.target.Name? then place else FirstBare(cns, 0)
  }

  predicate Identifies(id: PortId, p: PodPort) {
    && ProtoEqual(p.protocol, id.proto)
    && match id
       case Named(_, name) => name == p.name || p.port == 0
       case Numbered(_, num) => num == p.port
  }

  /** `findContainerPort`: never in the traffic-agent itself. */
  function FindContainerPort(id: PortId, cns: seq<PodContainer>): (r: Place)
    ensures r.Place? ==>
              r.ci < |cns| && 0 <= r.pi < |cns[r.ci].ports| && cns[r.ci].name != AGENT_CONTAINER &&
              Identifies(id, cns[r.ci].ports[r.pi])
    ensures forall c, k ::
              0 <= c < |cns| && 0 <= k < |cns[c].ports| && cns[c].name != AGENT_CONTAINER && Earlier(c, k, r) ==>
                !Identifies(id, cns[c].ports[k])
  {
    FirstPlace(cns, 0, name => name != AGENT_CONTAINER, p => Identifies(id, p))
  }

  // ---------- Ports and containers ----------

  /** The closure that numbers agent ports: the next one is the first plus the number of ports so far. */
  function Allocated(base: Port, pns: map<Port, Port>, cnPort: Port): map<Port, Port> {
    if cnPort in pns then pns else pns[cnPort := (base + |pns|) % 65536]
  }

  function IndexOf(ccs: seq<Container>, name: string): (i: nat)
    ensures i <= |ccs|
    ensures i < |ccs| ==> ccs[i].name == name
    ensures forall k :: 0 <= k < i ==> ccs[k].name != name
  {
    if ccs == [] || ccs[0].name == name then 0
    else
      assert forall k :: 0 < k < |ccs| ==> ccs[k] == ccs[1..][k - 1];
      IndexOf(ccs[1..], name) + 1
  }

  predicate HasPort(ics: seq<Intercept>, port: Port) {
    exists i :: 0 <= i < |ics| && ics[i].containerPort == port
  }

  function NewContainer(name: string, index: nat, ics: seq<Intercept>): Container {
    Container(name, Base26.EnvPrefix(index), ics)
  }

  /** The intercept goes to the container's configuration, which is made when it is not there. With `once` an
      intercept of a port that is already intercepted is not added. */
  function Placed(ccs: seq<Container>, name: string, ic: Intercept, once: bool): seq<Container> {
    var i := IndexOf(ccs, name);
    if i == |ccs| then ccs + [NewContainer(name, i, [ic])]
    else if once && HasPort(ccs[i].intercepts, ic.containerPort) then ccs
    else ccs[i := ccs[i].(intercepts := ccs[i].intercepts + [ic])]
  }

  // ---------- Intercepts of services ----------

  function AppPort(port: ServicePort, place: Place, cns: seq<PodContainer>): PodPort
    requires place.Place? && place.ci < |cns| && place.pi < |cns[place.ci].ports|
  {
    if place.pi < 0 then PodPort("", if port.target.Number? then port.target.n else 0, port.protocol)
    else cns[place.ci].ports[place.pi]
  }

  function ServiceIntercept(svc: string, port: ServicePort, app: PodPort, agentPort: Port): Intercept {
    Intercept(svc, port.name, port.port, port.target.Number?, FromK8s(port.protocol), agentPort, app.name, app.port)
  }

  function WithServicePort(s: State, base: Port, svc: string, port: ServicePort, cns: seq<PodContainer>): State {
    var place := FindContainerMatchingPort(port, cns);
    if place == Nowhere || cns[place.ci].name == AGENT_CONTAINER then s
    else
      var app := AppPort(port, place, cns);
      var pns := Allocated(base, s.pns, app.port);
      State(pns, Placed(s.ccs, cns[place.ci].name, ServiceIntercept(svc, port, app, pns[app.port]), false))
  }

  function WithServicePorts(s: State, base: Port, svc: string, ports: seq<ServicePort>, cns: seq<PodContainer>): State {
    if ports == [] then s
    else WithServicePort(WithServicePorts(s, base, svc, ports[..|ports| - 1], cns), base, svc, ports[|ports| - 1], cns)
  }

  /** Does the annotation ask for this port of a service? */
  predicate Selects(id: PortId, port: ServicePort) {
    match id
    case Named(_, name) => port.name == name
    case Numbered(proto, num) =>
      var n := if port.target.Number? then port.target.n else 0;
      (if n == 0 then port.port else n) == num && FromK8s(port.protocol) == proto
  }

  function Selected(id: PortId, ports: seq<ServicePort>): seq<ServicePort> {
    if ports == [] then []
    else
      var last := ports[|ports| - 1];
      Selected(id, ports[..|ports| - 1]) + if Selects(id, last) then [last] else []
  }

  function SelectedByAny(ids: seq<PortId>, ports: seq<ServicePort>): seq<ServicePort> {
    if ids == [] then [] else SelectedByAny(ids[..|ids| - 1], ports) + Selected(ids[|ids| - 1], ports)
  }

  function Filtered(ids: seq<PortId>, ports: seq<ServicePort>): seq<ServicePort> {
    if ids == [] then ports else SelectedByAny(ids, ports)
  }

  function WithServices(s: State, base: Port, svcs: seq<Service>, ids: seq<PortId>, cns: seq<PodContainer>): State {
    if svcs == [] then s
    else
      var last := svcs[|svcs| - 1];
      var before := WithServices(s, base, svcs[..|svcs| - 1], ids, cns);
      WithServicePorts(before, base, last.name, Filtered(ids, last.ports), cns)
  }

  // ---------- Intercepts without a service ----------

  /** A port that no container declares: an error when it has a name. With a number a container port is made
      up, but there is no container, and the reference to it is nil. */
  datatype Outcome = Done(state: State) | UserError | NilContainer

  /** How it ends, without the state. */
  datatype Status = Ok | BadConfiguration | NilDereference

  function StatusOf(r: Outcome): Status {
    match r
    case Done(_) => Ok
    case UserError => BadConfiguration
    case NilContainer => NilDereference
  }

  function ContainerIntercept(app: PodPort, agentPort: Port): Intercept {
    Intercept("", "", 0, true, FromK8s(app.protocol), agentPort, app.name, app.port)
  }

  function WithContainerPort(s: State, base: Port, id: PortId, cns: seq<PodContainer>): Outcome {
    var place := FindContainerPort(id, cns);
    if place == Nowhere then if id.Named? then UserError else NilContainer
    else
      var app := cns[place.ci].ports[place.pi];
      var pns := Allocated(base, s.pns, app.port);
      Done(State(pns, Placed(s.ccs, cns[place.ci].name, ContainerIntercept(app, pns[app.port]), true)))
  }

  function WithContainerPorts(s: State, base: Port, ids: seq<PortId>, cns: seq<PodContainer>): Outcome {
    if ids == [] then Done(s)
    else
      var before := WithContainerPorts(s, base, ids[..|ids| - 1], cns);
      if before.Done? then WithContainerPort(before.state, base, ids[|ids| - 1], cns) else before
  }

  /** After an error nothing changes any more. */
  lemma {:induction false} ErrorsStay(s: State, base: Port, ids: seq<PortId>, i: nat, cns: seq<PodContainer>)
    requires i <= |ids|
    requires !WithContainerPorts(s, base, ids[..i], cns).Done?
    ensures WithContainerPorts(s, base, ids, cns) == WithContainerPorts(s, base, ids[..i], cns)
    decreases |ids|
  {
    if i == |ids| {
      assert ids[..i] == ids;
    } else {
      var front := ids[..|ids| - 1];
      assert front[..i] == ids[..i];
      ErrorsStay(s, base, front, i, cns);
    }
  }

  // ---------- All containers ----------

  function WithOther(ccs: seq<Container>, cn: PodContainer): seq<Container> {
    if cn.name == AGENT_CONTAINER || IndexOf(ccs, cn.name) < |ccs| then ccs
    else ccs + [NewContainer(cn.name, |ccs|, [])]
  }

  function WithOthers(ccs: seq<Container>, cns: seq<PodContainer>): seq<Container> {
    if cns == [] then ccs else WithOther(WithOthers(ccs, cns[..|cns| - 1]), cns[|cns| - 1])
  }

  /** Does a container expose the agent's first port? */
  ghost predicate ExposesAgentPort(base: Port, cns: seq<PodContainer>) {
    exists c, k ::
      0 <= c < |cns| && 0 <= k < |cns[c].ports| && cns[c].name != AGENT_CONTAINER && cns[c].ports[k].port == base
  }

  datatype Pod = Pod(containers: seq<PodContainer>, services: seq<Service>, servicePorts: seq<PortId>,
                     containerPorts: seq<PortId>)

  /** `Generate`. */
  ghost function Generated(base: Port, pod: Pod): Outcome {
    if ExposesAgentPort(base, pod.containers) then UserError
    else
      var s := WithServices(State(map[], []), base, pod.services, pod.servicePorts, pod.containers);
      match WithContainerPorts(s, base, pod.containerPorts, pod.containers)
      case Done(s) => Done(State(s.pns, WithOthers(s.ccs, pod.containers)))
      case UserError => UserError
      case NilContainer => NilContainer
  }
}
