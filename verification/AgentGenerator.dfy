/** The generator itself: loops that update the port map and the list of container configurations. */
module AgentGenerator {
  import opened AgentConfig

  /** Slices end one element further on each round. */
  lemma Snoc<T>(s: seq<T>, i: nat)
    requires i < |s|
    ensures s[..i + 1][..i] == s[..i] && s[..i + 1][i] == s[i] && |s[..i + 1]| == i + 1
  {
  }

  method FilterServicePorts(ports: seq<ServicePort>, ids: seq<PortId>) returns (r: seq<ServicePort>)
    ensures r == Filtered(ids, ports)
  {
    if ids == [] {
      return ports;
    }
    r := [];
    for i := 0 to |ids|
      invariant r == SelectedByAny(ids[..i], ports)
    {
      r := AppendSelected(r, ids[i], ports);
      Snoc(ids, i);
    }
    assert ids[..|ids|] == ids;
  }

  method AppendSelected(start: seq<ServicePort>, id: PortId, ports: seq<ServicePort>) returns (r: seq<ServicePort>)
    ensures r == start + Selected(id, ports)
  {
    r := start;
    for j := 0 to |ports|
      invariant r == start + Selected(id, ports[..j])
    {
      if Selects(id, ports[j]) {
        r := r + [ports[j]];
      }
      Snoc(ports, j);
    }
    assert ports[..|ports|] == ports;
  }

  class Generator {
    const agentPort: Port
    var pns: map<Port, Port>
    var ccs: seq<Container>

    constructor (agentPort: Port)
      ensures this.agentPort == agentPort && Abs() == State(map[], [])
    {
      this.agentPort, pns, ccs := agentPort, map[], [];
    }

    ghost function Abs(): State
      reads this
    {
      State(pns, ccs)
    }

    method AgentPortNumber(cnPort: Port) returns (p: Port)
      modifies `pns
      ensures pns == Allocated(agentPort, old(pns), cnPort) && p == pns[cnPort]
    {
      if cnPort in pns {
        return pns[cnPort];
      }
      p := (agentPort + |pns|) % 65536;
      pns := pns[cnPort := p];
    }

    method Place(name: string, ic: Intercept, once: bool)
      modifies `ccs
      ensures ccs == Placed(old(ccs), name, ic, once)
    {
      for i := 0 to |ccs|
        invariant ccs == old(ccs)
        invariant forall k :: 0 <= k < i ==> ccs[k].name != name
      {
        if ccs[i].name == name {
          assert IndexOf(ccs, name) == i;
          if once {
            var found := IsIntercepted(i, ic.containerPort);
            if found {
              return;
            }
          }
          ccs := ccs[i := ccs[i].(intercepts := ccs[i].intercepts + [ic])];
          return;
        }
      }
      ccs := ccs + [NewContainer(name, |ccs|, [ic])];
    }

    method IsIntercepted(i: nat, port: Port) returns (found: bool)
      requires i < |ccs|
      ensures found == HasPort(ccs[i].intercepts, port)
    {
      for j := 0 to |ccs[i].intercepts|
        invariant forall k :: 0 <= k < j ==> ccs[i].intercepts[k].containerPort != port
      {
        if ccs[i].intercepts[j].containerPort == port {
          return true;
        }
      }
      found := false;
    }

    method AppendServicePort(svc: string, port: ServicePort, cns: seq<PodContainer>)
      modifies this
      ensures Abs() == WithServicePort(old(Abs()), agentPort, svc, port, cns)
    {
      var place := FindContainerMatchingPort(port, cns);
      if place == Nowhere || cns[place.ci].name == AGENT_CONTAINER {
        return;
      }
      var app := AppPort(port, place, cns);
      var p := AgentPortNumber(app.port);
      Place(cns[place.ci].name, ServiceIntercept(svc, port, app, p), false);
    }

    method AppendAgentContainerConfigs(svc: Service, ids: seq<PortId>, cns: seq<PodContainer>)
      modifies this
      ensures Abs() == WithServicePorts(old(Abs()), agentPort, svc.name, Filtered(ids, svc.ports), cns)
    {
      var ports := FilterServicePorts(svc.ports, ids);
      for i := 0 to |ports|
        invariant Abs() == WithServicePorts(old(Abs()), agentPort, svc.name, ports[..i], cns)
      {
        AppendServicePort(svc.name, ports[i], cns);
        Snoc(ports, i);
      }
      assert ports[..|ports|] == ports;
    }

    method AppendServiceLess(ids: seq<PortId>, cns: seq<PodContainer>) returns (status: Status)
      modifies this
      ensures var r := WithContainerPorts(old(Abs()), agentPort, ids, cns);
              status == StatusOf(r) && (status == Ok ==> Done(Abs()) == r)
    {
      for i := 0 to |ids|
        invariant Done(Abs()) == WithContainerPorts(old(Abs()), agentPort, ids[..i], cns)
      {
        Snoc(ids, i);
        var place := FindContainerPort(ids[i], cns);
        if place == Nowhere {
          ErrorsStay(old(Abs()), agentPort, ids, i + 1, cns);
          return if ids[i].Named? then BadConfiguration else NilDereference;
        }
        var app := cns[place.ci].ports[place.pi];
        var p := AgentPortNumber(app.port);
        Place(cns[place.ci].name, ContainerIntercept(app, p), true);
      }
      assert ids[..|ids|] == ids;
      status := Ok;
    }

    method AppendOthers(cns: seq<PodContainer>)
      modifies `ccs
      ensures ccs == WithOthers(old(ccs), cns)
    {
      for i := 0 to |cns|
        invariant ccs == WithOthers(old(ccs), cns[..i])
      {
        if cns[i].name != AGENT_CONTAINER && IndexOf(ccs, cns[i].name) == |ccs| {
          ccs := ccs + [NewContainer(cns[i].name, |ccs|, [])];
        }
        Snoc(cns, i);
      }
      assert cns[..|cns|] == cns;
    }

    method AppendServices(svcs: seq<Service>, ids: seq<PortId>, cns: seq<PodContainer>)
      modifies this
      ensures Abs() == WithServices(old(Abs()), agentPort, svcs, ids, cns)
    {
      for i := 0 to |svcs|
        invariant Abs() == WithServices(old(Abs()), agentPort, svcs[..i], ids, cns)
      {
        AppendAgentContainerConfigs(svcs[i], ids, cns);
        Snoc(svcs, i);
      }
      assert svcs[..|svcs|] == svcs;
    }

    /** From an empty configuration. */
    method Generate(pod: Pod) returns (status: Status)
      requires Abs() == State(map[], [])
      modifies this
      ensures var r := Generated(agentPort, pod); status == StatusOf(r) && (status == Ok ==> Done(Abs()) == r)
    {
      var taken := Exposes(agentPort, pod.containers);
      if taken {
        return BadConfiguration;
      }
      AppendServices(pod.services, pod.servicePorts, pod.containers);
      status := AppendServiceLess(pod.containerPorts, pod.containers);
      if status == Ok {
        AppendOthers(pod.containers);
      }
    }
  }

  /** The check for a container that exposes the agent's port. */
  method Exposes(base: Port, cns: seq<PodContainer>) returns (r: bool)
    ensures r == ExposesAgentPort(base, cns)
  {
    for c := 0 to |cns|
      invariant forall d, k :: 0 <= d < c && 0 <= k < |cns[d].ports| && cns[d].name != AGENT_CONTAINER ==>
                  cns[d].ports[k].port != base
    {
      if cns[c].name == AGENT_CONTAINER {
        continue;
      }
      for k := 0 to |cns[c].ports|
        invariant forall l :: 0 <= l < k ==> cns[c].ports[l].port != base
      {
        if cns[c].ports[k].port == base {
          return true;
        }
      }
    }
    r := false;
  }
}
