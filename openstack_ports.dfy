/**
 * Port selection in the OpenStack cloud provider (openstack.go): the container port a
 * load-balancer member forwards to (`getContainerPort`, `findDefaultPort`) and the Neutron
 * port of a VM (`getVMPortIDbyFQDN`).
 */
module OpenStackPorts {
  import opened Wrappers
  import opened OpenStackCommon

  /** Kubernetes' `intstr.IntOrString`. */
  datatype IntOrString = IntVal(i: int) | StrVal(s: string)

  datatype ServicePort = ServicePort(port: int, protocol: string, targetPort: IntOrString)
  datatype ContainerPort = ContainerPort(name: string, containerPort: int, protocol: string)
  datatype Container = Container(ports: seq<ContainerPort>)
  datatype Pod = Pod(uid: string, containers: seq<Container>)

  /** The container ports of a pod in the order the nested loops visit them. */
  function AllPorts(containers: seq<Container>): seq<ContainerPort> {
    if containers == [] then [] else containers[0].ports + AllPorts(containers[1..])
  }

  /** Whether a container port has the protocol and, when one is given, the name. */
  predicate PortMatches(p: ContainerPort, name: Option<string>, protocol: string) {
    p.protocol == protocol && (name.Some? ==> p.name == name.value)
  }

  /** The index of the first matching port, or `|ports|` when none matches. */
  function FirstMatch(ports: seq<ContainerPort>, name: Option<string>, protocol: string): (i: nat)
    ensures i <= |ports|
    ensures i < |ports| ==> PortMatches(ports[i], name, protocol)
    ensures forall k :: 0 <= k < i ==> !PortMatches(ports[k], name, protocol)
  {
    if ports == [] then 0
    else if PortMatches(ports[0], name, protocol) then 0
    else 1 + FirstMatch(ports[1..], name, protocol)
  }

  /** `findDefaultPort`: the first container port with the protocol, else the service port. */
  function FindDefaultPort(pod: Pod, servicePort: int, protocol: string): int {
    var ports := AllPorts(pod.containers);
    var i := FirstMatch(ports, None, protocol);
    if i < |ports| then ports[i].containerPort else servicePort
  }

  /**
   * `getContainerPort`: a non-zero numeric target is used as is, a named target picks the
   * first container port with that name and protocol, and an empty name or zero falls back
   * to `findDefaultPort`.
   */
  function GetContainerPort(svc: ServicePort, pod: Pod): Result<int, Error> {
    match svc.targetPort
    case StrVal(name) =>
      if |name| == 0 then Ok(FindDefaultPort(pod, svc.port, svc.protocol))
      else
        var ports := AllPorts(pod.containers);
        var i := FirstMatch(ports, Some(name), svc.protocol);
        if i < |ports| then Ok(ports[i].containerPort)
        else Err(Failure("no suitable port for manifest"))
    case IntVal(n) =>
      if n == 0 then Ok(FindDefaultPort(pod, svc.port, svc.protocol)) else Ok(n)
  }

  /** The default port is the first container port with the protocol, and the service port only when there is none. */
  lemma FindDefaultPortSpec(pod: Pod, servicePort: int, protocol: string)
    ensures (forall k :: 0 <= k < |AllPorts(pod.containers)| ==> AllPorts(pod.containers)[k].protocol != protocol) ==>
      FindDefaultPort(pod, servicePort, protocol) == servicePort
    ensures forall i :: FirstWithProtocol(AllPorts(pod.containers), protocol, i) ==>
      FindDefaultPort(pod, servicePort, protocol) == AllPorts(pod.containers)[i].containerPort
  {
    var ports := AllPorts(pod.containers);
    var j := FirstMatch(ports, None, protocol);
    if j < |ports| {
      assert PortMatches(ports[j], None, protocol);
      assert FirstWithProtocol(ports, protocol, j);
    }
  }

  /** Whether `ports[i]` is the first port with the protocol. */
  predicate FirstWithProtocol(ports: seq<ContainerPort>, protocol: string, i: int) {
    0 <= i < |ports| && ports[i].protocol == protocol
    && forall k :: 0 <= k < i ==> ports[k].protocol != protocol
  }

  /** Whether `ports[k]` has the name and the protocol. */
  predicate NamedPortAt(ports: seq<ContainerPort>, name: string, protocol: string, k: int) {
    0 <= k < |ports| && ports[k].name == name && ports[k].protocol == protocol
  }

  /** A named target resolves to a port with that name and protocol, and fails only when the pod has none. */
  lemma NamedTargetSpec(svc: ServicePort, pod: Pod)
    requires svc.targetPort.StrVal? && svc.targetPort.s != ""
    ensures GetContainerPort(svc, pod).Err? <==>
      !exists k :: NamedPortAt(AllPorts(pod.containers), svc.targetPort.s, svc.protocol, k)
    ensures GetContainerPort(svc, pod).Ok? ==>
      exists k :: NamedPortAt(AllPorts(pod.containers), svc.targetPort.s, svc.protocol, k)
        && GetContainerPort(svc, pod).value == AllPorts(pod.containers)[k].containerPort
  {
    var ports := AllPorts(pod.containers);
    var name := svc.targetPort.s;
    var i := FirstMatch(ports, Some(name), svc.protocol);
    if i < |ports| {
      assert PortMatches(ports[i], Some(name), svc.protocol);
      assert NamedPortAt(ports, name, svc.protocol, i);
      assert GetContainerPort(svc, pod) == Ok(ports[i].containerPort);
      assert exists k :: NamedPortAt(AllPorts(pod.containers), svc.targetPort.s, svc.protocol, k);
      assert !GetContainerPort(svc, pod).Err?;
    } else {
      assert GetContainerPort(svc, pod) == Err(Failure("no suitable port for manifest"));
      forall k ensures !NamedPortAt(ports, name, svc.protocol, k) {
        if 0 <= k < |ports| {
          assert !PortMatches(ports[k], Some(name), svc.protocol);
        }
      }
    }
  }

  /** A non-zero numeric target is never looked up in the pod. */
  lemma NumericTargetSpec(svc: ServicePort, pod: Pod)
    requires svc.targetPort.IntVal?
    ensures svc.targetPort.i != 0 ==> GetContainerPort(svc, pod) == Ok(svc.targetPort.i)
    ensures svc.targetPort.i == 0 ==> GetContainerPort(svc, pod) == Ok(FindDefaultPort(pod, svc.port, svc.protocol))
  {
  }

  // ---------------------------------------------------------------------------
  // getVMPortIDbyFQDN
  // ---------------------------------------------------------------------------

  datatype Port = Port(id: string, fixedIps: seq<string>)

  /** One page of the port listing for a device. */
  datatype PortPage = PortPage(ports: seq<Port>) | MalformedPortPage

  /** What one page decides: a port id and whether the walk goes on to the next page. */
  datatype PageStep = PageStep(portId: string, more: bool)

  /**
   * The per-page rule: one port is the VM's port; of two, the first if it has more than one
   * fixed IP, else the second; none, more than two, or a page that does not decode stop the
   * walk and keep the id chosen so far.
   */
  function PortOfPage(page: PortPage, chosen: string): (r: PageStep)
    ensures r.more <==> page.PortPage? && 1 <= |page.ports| <= 2
  {
    match page
    case MalformedPortPage => PageStep(chosen, false)
    case PortPage(ps) =>
      if |ps| == 0 then PageStep(chosen, false)
      else if |ps| == 1 then PageStep(ps[0].id, true)
      else if |ps| == 2 then PageStep(if |ps[0].fixedIps| > 1 then ps[0].id else ps[1].id, true)
      else PageStep(chosen, false)
  }

  /** The id chosen after walking the pages from `chosen`; the pager's error is not looked at. */
  function PortScan(pages: seq<PortPage>, chosen: string): string
    decreases |pages|
  {
    if pages == [] then chosen
    else
      var step := PortOfPage(pages[0], chosen);
      if step.more then PortScan(pages[1..], step.portId) else step.portId
  }

  /**
   * `getVMPortIDbyFQDN`, given the result of the fqdn lookup (the server's id) and the pages
   * listed for that device. The pages are walked by the loop below, as the pager does.
   */
  method VmPortIdByFqdn(server: Result<string, Error>, pages: seq<PortPage>) returns (r: Result<string, Error>)
    ensures server.Err? ==> r == Err(server.error)
    ensures server.Ok? ==>
      r == (var id := PortScan(pages, ""); if id == "" then Err(Failure("second port not found")) else Ok(id))
  {
    if server.Err? {
      return Err(server.error);
    }
    var portId := "";
    var k := 0;
    var more := true;
    while k < |pages| && more
      invariant k <= |pages|
      invariant PortScan(pages, "") == if more then PortScan(pages[k..], portId) else portId
      decreases |pages| - k, more
    {
      assert pages[k..][1..] == pages[k + 1..];
      var step := PortOfPage(pages[k], portId);
      portId := step.portId;
      more := step.more;
      k := k + 1;
    }
    if more {
      assert pages[k..] == [];
    }
    if portId == "" {
      return Err(Failure("second port not found"));
    }
    return Ok(portId);
  }

  /** The port chosen on a single page, by its number of ports. */
  lemma SinglePageChoice(ps: seq<Port>)
    ensures |ps| == 1 ==> PortScan([PortPage(ps)], "") == ps[0].id
    ensures |ps| == 2 && |ps[0].fixedIps| > 1 ==> PortScan([PortPage(ps)], "") == ps[0].id
    ensures |ps| == 2 && |ps[0].fixedIps| <= 1 ==> PortScan([PortPage(ps)], "") == ps[1].id
    ensures (|ps| == 0 || |ps| > 2) ==> PortScan([PortPage(ps)], "") == ""
  {
    assert [PortPage(ps)][1..] == [];
  }

  /** A failing later page does not undo the choice an earlier page made: the pager's error is ignored. */
  lemma LaterPageErrorIgnored(p: Port, rest: seq<PortPage>)
    requires p.id != ""
    ensures PortScan([PortPage([p]), MalformedPortPage] + rest, "") == p.id
  {
    var pages := [PortPage([p]), MalformedPortPage] + rest;
    assert pages[1..] == [MalformedPortPage] + rest;
    assert PortOfPage(pages[0], "") == PageStep(p.id, true);
  }

  /** A chosen id is always the id of some listed port (or the empty string). */
  lemma {:induction false} PortScanProvenance(pages: seq<PortPage>, chosen: string)
    ensures var id := PortScan(pages, chosen);
      id == chosen || exists j, k :: 0 <= j < |pages| && pages[j].PortPage? && 0 <= k < |pages[j].ports| && pages[j].ports[k].id == id
    decreases |pages|
  {
    if pages != [] {
      var step := PortOfPage(pages[0], chosen);
      if step.more {
        PortScanProvenance(pages[1..], step.portId);
        var id := PortScan(pages, chosen);
        if id != step.portId {
          var j, k :| 0 <= j < |pages[1..]| && pages[1..][j].PortPage? && 0 <= k < |pages[1..][j].ports| && pages[1..][j].ports[k].id == id;
          assert pages[j + 1] == pages[1..][j];
        } else if step.portId != chosen {
          assert pages[0].ports[0].id == id || pages[0].ports[1].id == id;
        }
      }
    }
  }
}
