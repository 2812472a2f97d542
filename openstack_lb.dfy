/**
 * The load-balancer half of the OpenStack cloud provider (openstack.go): finding pools and
 * VIPs by name, creating or reusing pools, members and VIPs, the floating IPs of pods, and
 * the two operations that walk a whole load balancer, `UpdateLoadBalancer` and
 * `EnsureLoadBalancerDeleted`. Every gophercloud call goes to the `Neutron` store.
 */
module OpenStackLb {
  import opened Wrappers
  import opened GoText
  import opened OpenStackCommon
  import opened OpenStackWait
  import opened OpenStackPorts
  import opened OpenStackNeutron

  /** `pools.LBMethodRoundRobin`, the method a pool gets when none is configured. */
  const RoundRobin: string := "ROUND_ROBIN"

  /** The configured load-balancing method, defaulted. */
  function PoolMethod(configured: string): (m: string)
    ensures m != ""
    ensures configured != "" ==> m == configured
    ensures configured == "" ==> m == RoundRobin
  {
    if configured == "" then RoundRobin else configured
  }

  // ---------------------------------------------------------------------------
  // getPoolByName, getVipByName
  // ---------------------------------------------------------------------------

  /** The pools whose name contains `name`, in listing order. */
  function NamedPools(ps: seq<Pool>, name: string): (r: seq<Pool>)
    ensures forall p :: p in r <==> p in ps && Contains(p.name, name)
  {
    if ps == [] then []
    else (if Contains(ps[0].name, name) then [ps[0]] else []) + NamedPools(ps[1..], name)
  }

  /** The VIPs whose name contains `name`, in listing order. */
  function NamedVips(vs: seq<Vip>, name: string): (r: seq<Vip>)
    ensures forall v :: v in r <==> v in vs && Contains(v.name, name)
  {
    if vs == [] then []
    else (if Contains(vs[0].name, name) then [vs[0]] else []) + NamedVips(vs[1..], name)
  }

  /**
   * `getPoolByName` over the answer of `pools.List`: "not found" when the tenant has no pool
   * at all, and otherwise the pools whose name contains `name`, which may be none.
   */
  function PoolsByName(listing: Result<seq<Pool>, Error>, name: string): (r: Result<seq<Pool>, Error>)
    ensures r.Ok? <==> listing.Ok? && listing.value != []
    ensures r.Ok? ==> forall p :: p in r.value <==> p in listing.value && Contains(p.name, name)
    ensures r.Err? ==> r.error == (if listing.Err? && !IsNotFound(listing.error) then listing.error else ErrNotFound)
  {
    match listing
    case Err(e) => if IsNotFound(e) then Err(ErrNotFound) else Err(e)
    case Ok(all) => if |all| == 0 then Err(ErrNotFound) else Ok(NamedPools(all, name))
  }

  /**
   * `getVipByName` over the answer of `vips.List`: the VIPs whose name contains `name`, and
   * "not found" when there is none.
   */
  function VipsByName(listing: Result<seq<Vip>, Error>, name: string): (r: Result<seq<Vip>, Error>)
    ensures r.Ok? ==> listing.Ok? && r.value != [] && forall v :: v in r.value <==> v in listing.value && Contains(v.name, name)
    ensures r.Err? <==> listing.Err? || forall v :: v in listing.value ==> !Contains(v.name, name)
    ensures r.Err? ==> r.error == (if listing.Err? && !IsNotFound(listing.error) then listing.error else ErrNotFound)
  {
    match listing
    case Err(e) => if IsNotFound(e) then Err(ErrNotFound) else Err(e)
    case Ok(all) =>
      var named := NamedVips(all, name);
      if |named| == 0 then Err(ErrNotFound)
      else
        assert named[0] in named;
        Ok(named)
  }

  // ---------------------------------------------------------------------------
  // Create or reuse
  // ---------------------------------------------------------------------------

  /** What a create-or-reuse lookup settles: an answer without creating anything, or a create. */
  datatype Lookup<T> = Decided(result: Result<T, Error>) | CreateNew

  /** Whether `createPool`'s switch stops at this pool. */
  predicate DecidesPool(p: Pool, portText: string) {
    Contains(p.name, portText) && !StatusRule(p.status).Ignore?
  }

  function FirstDeciding(ps: seq<Pool>, portText: string): (i: nat)
    ensures i <= |ps|
    ensures i < |ps| ==> DecidesPool(ps[i], portText)
    ensures forall k :: 0 <= k < i ==> !DecidesPool(ps[k], portText)
  {
    if ps == [] then 0
    else if DecidesPool(ps[0], portText) then 0
    else 1 + FirstDeciding(ps[1..], portText)
  }

  /**
   * The lookup half of `createPool`: a lookup error other than "not found" is returned; the
   * first pool whose name contains the port number and whose status is ACTIVE, PENDING_CREATE
   * or ERROR settles the call; anything else leads to a create.
   */
  function PoolPlan(lookup: Result<seq<Pool>, Error>, port: int): (r: Lookup<Pool>)
    ensures lookup.Err? && lookup.error != ErrNotFound ==> r == Decided(Err(lookup.error))
    ensures r == CreateNew <==>
      && (lookup.Ok? || lookup.error == ErrNotFound)
      && (lookup.Ok? ==> forall p :: p in lookup.value && Contains(p.name, Itoa(port)) ==> StatusRule(p.status) == Ignore)
    ensures r.Decided? && r.result.Ok? ==>
      && lookup.Ok? && r.result.value in lookup.value
      && Contains(r.result.value.name, Itoa(port)) && r.result.value.status == Active
    ensures r.Decided? && r.result.Err? && (lookup.Ok? || lookup.error == ErrNotFound) ==>
      r.result.error == ErrLBPendigCreateStatus || r.result.error == ErrLBErrorStatus
  {
    if lookup.Err? && lookup.error != ErrNotFound then Decided(Err(lookup.error))
    else
      var list := if lookup.Ok? then lookup.value else [];
      var i := FirstDeciding(list, Itoa(port));
      if i == |list| then
        assert forall p :: p in list && Contains(p.name, Itoa(port)) ==> StatusRule(p.status) == Ignore by {
          forall p | p in list && Contains(p.name, Itoa(port)) ensures StatusRule(p.status) == Ignore {
            var k :| 0 <= k < |list| && list[k] == p;
            assert !DecidesPool(list[k], Itoa(port));
          }
        }
        CreateNew
      else match StatusRule(list[i].status)
        case ReuseIt => Decided(Ok(list[i]))
        case Refuse(e) => Decided(Err(e))
  }

  /**
   * The lookup half of `createMember`, over the first page of `members.List` filtered by pool
   * and address: more than one member is an error, a single one is reused or refused by its
   * status, and no member (or one in another status) leads to a create.
   */
  function MemberPlan(listing: Result<seq<Member>, Error>): (r: Lookup<Member>)
    ensures listing.Err? ==> r == Decided(Err(listing.error))
    ensures r == CreateNew <==>
      listing.Ok? && (listing.value == [] || (|listing.value| == 1 && StatusRule(listing.value[0].status) == Ignore))
    ensures r.Decided? && r.result.Ok? ==> listing.Ok? && listing.value == [r.result.value] && r.result.value.status == Active
    ensures listing.Ok? && |listing.value| > 1 ==> r == Decided(Err(Failure("more than 1 member found")))
  {
    match listing
    case Err(e) => Decided(Err(e))
    case Ok(list) =>
      if |list| > 1 then Decided(Err(Failure("more than 1 member found")))
      else if |list| == 1 then
        match StatusRule(list[0].status)
        case ReuseIt => Decided(Ok(list[0]))
        case Refuse(e) => Decided(Err(e))
        case Ignore => CreateNew
      else CreateNew
  }

  /**
   * The lookup half of `createVip`: a lookup error other than "not found" is returned, a
   * single VIP is reused or refused by its status, more than one is an error, and otherwise
   * a VIP is created.
   */
  function VipPlan(lookup: Result<seq<Vip>, Error>): (r: Lookup<Vip>)
    ensures lookup.Err? && lookup.error != ErrNotFound ==> r == Decided(Err(lookup.error))
    ensures r == CreateNew <==>
      || (lookup.Err? && lookup.error == ErrNotFound)
      || (lookup.Ok? && (lookup.value == [] || (|lookup.value| == 1 && StatusRule(lookup.value[0].status) == Ignore)))
    ensures r.Decided? && r.result.Ok? ==> lookup.Ok? && lookup.value == [r.result.value] && r.result.value.status == Active
    ensures lookup.Ok? && |lookup.value| > 1 ==> r == Decided(Err(Failure("more than one vip found")))
  {
    if lookup.Err? && lookup.error != ErrNotFound then Decided(Err(lookup.error))
    else
      var list := if lookup.Ok? then lookup.value else [];
      if |list| == 1 then
        match StatusRule(list[0].status)
        case ReuseIt => Decided(Ok(list[0]))
        case Refuse(e) => Decided(Err(e))
        case Ignore => CreateNew
      else if |list| > 1 then Decided(Err(Failure("more than one vip found")))
      else CreateNew
  }

  /** The member port `createMember` asks for: a missing service port is a nil dereference. */
  function TargetPort(svcPort: Option<ServicePort>, pod: Pod): (r: Result<int, Error>)
    ensures svcPort.None? ==> r == Err(NilDereference)
    ensures svcPort.Some? && GetContainerPort(svcPort.value, pod).Ok? ==> r == GetContainerPort(svcPort.value, pod)
    ensures svcPort.Some? && GetContainerPort(svcPort.value, pod).Err? ==> r == Err(Failure("failed get target port"))
  {
    match svcPort
    case None => Err(NilDereference)
    case Some(sp) =>
      match GetContainerPort(sp, pod)
      case Ok(p) => Ok(p)
      case Err(_) => Err(Failure("failed get target port"))
  }

  /**
   * An illustration of the substring rule `PoolPlan` states in general: a pool made for port
   * 8080 answers a lookup for port 80.
   */
  lemma PoolLookupBySubstring(name: string)
    ensures var p := Pool(7, name + "-8080", Active, RoundRobin, []);
      PoolPlan(Ok([p]), 80) == Decided(Ok(p))
  {
    var p := Pool(7, name + "-8080", Active, RoundRobin, []);
    assert Itoa(80) == "80";
    ContainsInfix(name + "-", "80", "80");
    assert name + "-" + "80" + "80" == p.name;
    assert FirstDeciding([p], Itoa(80)) == 0;
  }

  /** The scan of `createPool` over the pools found by name. */
  method FindDecidingPool(list: seq<Pool>, portText: string) returns (i: nat)
    ensures i == FirstDeciding(list, portText)
  {
    i := 0;
    while i < |list|
      invariant i <= |list|
      invariant forall k :: 0 <= k < i ==> !DecidesPool(list[k], portText)
    {
      var p := list[i];
      if Contains(p.name, portText) {
        match StatusRule(p.status)
        case ReuseIt => return;
        case Refuse(_) => return;
        case Ignore =>
      }
      i := i + 1;
    }
  }

  /** Two different elements of a sequence make it at least two long. */
  lemma TwoDistinct<T>(s: seq<T>, x: T, y: T)
    requires x in s && y in s && x != y
    ensures |s| >= 2
  {
  }

  // ---------------------------------------------------------------------------
  // The state UpdateLoadBalancer works on
  // ---------------------------------------------------------------------------

  /**
   * A pod of the service as `getPoolMembersByPodsList` meets it: the pod, what
   * `getVMPortIDbyFQDN` answers for its node, its IP, whether that IP parses as an IP, and
   * the address Neutron allocates if a floating IP has to be created for it.
   */
  datatype PodTarget = PodTarget(pod: Pod, portId: Result<string, Error>, podIp: string, validIp: bool, freshAddress: string)

  /** What `getServicePodListbyLBName` fetches: the service's pods and its ports. */
  datatype ServiceView = ServiceView(pods: seq<PodTarget>, ports: seq<ServicePort>)

  /** Whether a floating IP is bound to the pod's IP on its node's port. */
  predicate BoundTo(f: FloatingIp, t: PodTarget) {
    t.portId.Ok? && f.portId == t.portId.value && f.fixedIp == t.podIp
  }

  /**
   * Whether `a` can be the floating IP found or created for the `i`-th pod: the address
   * allocated for it, the address of a floating IP already bound to it, or the address
   * allocated for an earlier pod bound to the same port and IP.
   */
  predicate ServesPod(a: string, pods: seq<PodTarget>, i: nat, fips: seq<FloatingIp>)
    requires i < |pods|
  {
    && pods[i].portId.Ok?
    && (|| a == pods[i].freshAddress
        || (exists f :: f in fips && BoundTo(f, pods[i]) && f.address == a)
        || (exists k :: 0 <= k < i && pods[k].portId == pods[i].portId && pods[k].podIp == pods[i].podIp && a == pods[k].freshAddress))
  }

  /** Whether one of the addresses serves the `i`-th pod. */
  predicate PodServed(wanted: set<string>, pods: seq<PodTarget>, i: nat, fips: seq<FloatingIp>)
    requires i < |pods|
  {
    exists a :: a in wanted && ServesPod(a, pods, i, fips)
  }

  /**
   * The addresses `getPoolMembersByPodsList` collects: each serves some pod, and every pod
   * is served by one of them.
   */
  predicate WantedFor(wanted: set<string>, pods: seq<PodTarget>, fips: seq<FloatingIp>) {
    && (forall a :: a in wanted ==> exists i :: 0 <= i < |pods| && ServesPod(a, pods, i, fips))
    && (forall i :: 0 <= i < |pods| ==> PodServed(wanted, pods, i, fips))
  }

  /** A floating IP created for one of the pods: at the address allocated for it, bound to it. */
  predicate CreatedForPods(f: FloatingIp, pods: seq<PodTarget>) {
    exists i :: 0 <= i < |pods| && f.address == pods[i].freshAddress && BoundTo(f, pods[i])
  }

  /**
   * The two maps `UpdateLoadBalancer` keeps for the VIP at hand, `poolMembersForVip` and
   * `fipPodMapForVip`: the floating IPs still to be made members, and the pod behind each.
   */
  class WorkingSet {
    var members: map<string, bool>
    var pods: map<string, Pod>

    constructor ()
      ensures members == map[] && pods == map[]
    {
      members, pods := map[], map[];
    }
  }

  /** The first loop of `copyPoolMembersForVip`: every pool member is written into the working set. */
  method CopyMembers(poolMembers: map<string, bool>, ws: WorkingSet)
    modifies ws
    ensures ws.members == old(ws.members) + poolMembers && ws.pods == old(ws.pods)
  {
    var keys := poolMembers.Keys;
    while keys != {}
      invariant keys <= poolMembers.Keys
      invariant ws.pods == old(ws.pods)
      invariant ws.members == old(ws.members) + map k | k in poolMembers && k !in keys :: poolMembers[k]
      decreases keys
    {
      var k :| k in keys;
      ws.members := ws.members[k := poolMembers[k]];
      keys := keys - {k};
    }
    assert (map k | k in poolMembers && k !in keys :: poolMembers[k]) == poolMembers;
  }

  /** The second loop of `copyPoolMembersForVip`: every pod is written into the working set. */
  method CopyPods(fipPodMap: map<string, Pod>, ws: WorkingSet)
    modifies ws
    ensures ws.pods == old(ws.pods) + fipPodMap && ws.members == old(ws.members)
  {
    var keys := fipPodMap.Keys;
    while keys != {}
      invariant keys <= fipPodMap.Keys
      invariant ws.members == old(ws.members)
      invariant ws.pods == old(ws.pods) + map k | k in fipPodMap && k !in keys :: fipPodMap[k]
      decreases keys
    {
      var k :| k in keys;
      ws.pods := ws.pods[k := fipPodMap[k]];
      keys := keys - {k};
    }
    assert (map k | k in fipPodMap && k !in keys :: fipPodMap[k]) == fipPodMap;
  }

  /** `copyPoolMembersForVip`: every entry of the two maps is written into the working set. */
  method CopyPoolMembersForVip(poolMembers: map<string, bool>, fipPodMap: map<string, Pod>, ws: WorkingSet)
    modifies ws
    ensures ws.members == old(ws.members) + poolMembers
    ensures ws.pods == old(ws.pods) + fipPodMap
  {
    CopyMembers(poolMembers, ws);
    CopyPods(fipPodMap, ws);
  }

  /**
   * A working set whose keys are all desired becomes exactly the desired map when the desired
   * map is copied over it: every VIP starts from the full set of pool members.
   */
  lemma CopyOverCoveredKeys<V>(current: map<string, V>, desired: map<string, V>)
    requires current.Keys <= desired.Keys
    ensures current + desired == desired
  {
  }

  /** `portServicePortMap`: the service ports by number; a later port with the same number wins. */
  function PortMap(ports: seq<ServicePort>): (m: map<int, ServicePort>)
    ensures forall k :: 0 <= k < |ports| ==> ports[k].port in m
    ensures forall p :: p in m ==> m[p] in ports && m[p].port == p
  {
    if ports == [] then map[]
    else
      var last := ports[|ports| - 1];
      var m := PortMap(ports[..|ports| - 1]);
      assert forall k :: 0 <= k < |ports| - 1 ==> ports[..|ports| - 1][k] == ports[k];
      m[last.port := last]
  }

  /** A service port is the map's entry for its number unless a later port has the same number. */
  lemma {:induction false} PortMapLastWins(ports: seq<ServicePort>, k: nat)
    requires k < |ports|
    requires forall j :: k < j < |ports| ==> ports[j].port != ports[k].port
    ensures PortMap(ports)[ports[k].port] == ports[k]
    decreases |ports|
  {
    if k < |ports| - 1 {
      var init := ports[..|ports| - 1];
      assert init[k] == ports[k];
      forall j | k < j < |init| ensures init[j].port != init[k].port {
        assert init[j] == ports[j];
      }
      PortMapLastWins(init, k);
    }
  }

  /** The loop that fills `portServicePortMap`. */
  method BuildPortMap(ports: seq<ServicePort>) returns (m: map<int, ServicePort>)
    ensures m == PortMap(ports)
  {
    m := map[];
    var k := 0;
    while k < |ports|
      invariant k <= |ports|
      invariant m == PortMap(ports[..k])
    {
      assert ports[..k + 1][..k] == ports[..k];
      m := m[ports[k].port := ports[k]];
      k := k + 1;
    }
    assert ports[..k] == ports;
  }

  /** The addresses of a pool's members. */
  function AddressesOf(ms: seq<Member>, poolId: nat): set<string> {
    set m | m in ms && m.poolId == poolId :: m.address
  }

  /** The pools the VIPs forward to. */
  function PoolsOf(vs: seq<Vip>): set<nat> {
    set v | v in vs :: v.poolId
  }

  /** Every member that is gone from `before` to `after` left no floating IP at its address. */
  ghost predicate Removed(before: seq<Member>, after: seq<Member>, fips: seq<FloatingIp>) {
    forall m :: m in before && m !in after ==> forall f :: f in fips ==> f.address != m.address
  }

  /** A pool's addresses depend only on its own members. */
  lemma AddressesOfSame(before: seq<Member>, after: seq<Member>, poolId: nat)
    requires forall m :: m in before && m.poolId == poolId ==> m in after
    requires forall m :: m in after && m.poolId == poolId ==> m in before
    ensures AddressesOf(before, poolId) == AddressesOf(after, poolId)
  {
  }

  /**
   * Syncing the pool of the `i`-th VIP leaves the addresses of the pools synced before it as
   * they were.
   */
  lemma SyncedPoolsStay(before: seq<Member>, after: seq<Member>, vipList: seq<Vip>, i: nat, wanted: set<string>)
    requires i < |vipList|
    requires forall k :: 0 <= k < i ==> AddressesOf(before, vipList[k].poolId) == wanted
    requires AddressesOf(after, vipList[i].poolId) == wanted
    requires forall m :: m in before && m.poolId != vipList[i].poolId ==> m in after
    requires forall m :: m in after && m.poolId != vipList[i].poolId ==> m in before
    ensures forall k :: 0 <= k < i + 1 ==> AddressesOf(after, vipList[k].poolId) == wanted
  {
    forall k | 0 <= k < i + 1 ensures AddressesOf(after, vipList[k].poolId) == wanted {
      if vipList[k].poolId != vipList[i].poolId {
        AddressesOfSame(before, after, vipList[k].poolId);
      }
    }
  }

  /**
   * The pools `EnsureLoadBalancerDeleted` tears down: those the VIPs named after the load
   * balancer forward to, or, when there is no such VIP, those whose name contains its name.
   */
  function PoolsToDelete(vips: seq<Vip>, pools: seq<Pool>, name: string): set<Pool> {
    if exists v :: v in vips && Contains(v.name, name) then
      set p | p in pools && exists v :: v in vips && Contains(v.name, name) && v.poolId == p.id
    else
      set p | p in pools && Contains(p.name, name)
  }

  /** The ids of the pools `EnsureLoadBalancerDeleted` tears down. */
  function PoolIdsToDelete(vips: seq<Vip>, pools: seq<Pool>, name: string): set<nat> {
    set p | p in PoolsToDelete(vips, pools, name) :: p.id
  }

  /** The pools fetched for the named VIPs are exactly the pools `EnsureLoadBalancerDeleted` must remove. */
  lemma CollectedPoolsCover(vips: seq<Vip>, pools: seq<Pool>, name: string, vipList: seq<Vip>, poolList: seq<Pool>)
    requires PoolIdsUnique(pools)
    requires forall v :: v in vips && Contains(v.name, name) <==> v in vipList
    requires |vipList| > 0 && |poolList| == |vipList|
    requires forall k :: 0 <= k < |vipList| ==> poolList[k] in pools && poolList[k].id == vipList[k].poolId
    ensures forall p :: p in PoolsToDelete(vips, pools, name) ==> p in poolList
    ensures forall p :: p in poolList ==> p in PoolsToDelete(vips, pools, name)
  {
    assert vipList[0] in vipList;
    forall p | p in poolList ensures p in PoolsToDelete(vips, pools, name) {
      var k :| 0 <= k < |poolList| && poolList[k] == p;
      assert vipList[k] in vipList;
    }
    PoolIdsUniqueValues(pools);
    forall p | p in PoolsToDelete(vips, pools, name) ensures p in poolList {
      var v :| v in vips && Contains(v.name, name) && v.poolId == p.id;
      var k :| 0 <= k < |vipList| && vipList[k] == v;
      assert poolList[k] == p;
    }
  }

  /**
   * A VIP whose id no VIP of the list outside PENDING_DELETE carries is kept, once every VIP
   * of the first `j + 1` entries of the list has been dealt with.
   */
  lemma KeptVips(vipList: seq<Vip>, j: nat, before: seq<Vip>, after: seq<Vip>)
    requires j <= |vipList|
    requires forall v :: v in before && (forall k :: 0 <= k < j && vipList[k].status != PendingDelete ==> vipList[k].id != v.id) ==>
      v in after
    ensures forall v :: v in before && (forall w :: w in vipList && w.status != PendingDelete ==> w.id != v.id) ==> v in after
  {
    forall v | v in before && (forall w :: w in vipList && w.status != PendingDelete ==> w.id != v.id) ensures v in after {
      forall k | 0 <= k < j && vipList[k].status != PendingDelete ensures vipList[k].id != v.id {
        assert vipList[k] in vipList;
      }
    }
  }

  /** The pools of the first `j` entries of a list are pools of the list. */
  lemma PoolsDealtWith(poolList: seq<Pool>, j: nat)
    requires j <= |poolList|
    ensures PoolIds(poolList[..j]) <= PoolIds(poolList)
    ensures forall mon, k :: 0 <= k < j && (forall p :: p in poolList ==> mon !in p.monitorIds) ==> mon !in poolList[k].monitorIds
  {
    forall x | x in PoolIds(poolList[..j]) ensures x in PoolIds(poolList) {
      var p :| p in poolList[..j] && p.id == x;
    }
    forall mon, k | (forall p :: p in poolList ==> mon !in p.monitorIds) && 0 <= k < j ensures mon !in poolList[k].monitorIds {
      assert poolList[k] in poolList;
    }
  }

  class LoadBalancer {
    const network: Neutron
    /** `opts.LBMethod`, possibly empty. */
    const lbMethod: string

    constructor (network: Neutron, lbMethod: string)
      ensures this.network == network && this.lbMethod == lbMethod
    {
      this.network := network;
      this.lbMethod := lbMethod;
    }

    /**
     * `createPool`: reuse or refuse a pool named for the port, else create `name-port` and
     * wait for it to become ACTIVE. The created pool is returned as the create call answered
     * it; `polls` are the answers the wait sees.
     */
    method CreatePool(name: string, port: int, polls: seq<Poll>) returns (r: Result<Pool, Error>)
      requires network.Valid()
      modifies network
      ensures network.Valid()
      ensures old(PoolPlan(PoolsByName(network.ListPools(), name), port)).Decided? ==>
        && r == old(PoolPlan(PoolsByName(network.ListPools(), name), port)).result
        && network.pools == old(network.pools) && network.nextId == old(network.nextId)
      ensures old(PoolPlan(PoolsByName(network.ListPools(), name), port)) == CreateNew && network.faults.quotaExhausted ==>
        r == Err(ApiError("pools.Create")) && network.pools == old(network.pools) && network.nextId == old(network.nextId)
      ensures old(PoolPlan(PoolsByName(network.ListPools(), name), port)) == CreateNew && !network.faults.quotaExhausted ==>
        var created := Pool(old(network.nextId), name + "-" + Itoa(port), PendingCreate, PoolMethod(lbMethod), []);
        var wait := WaitFrom("pool", Active, polls, 0, 0).result;
        && network.pools == old(network.pools) + [created]
        && r == (if wait == Reached then Ok(created) else Err(WaitError(wait).value))
      ensures network.members == old(network.members) && network.vips == old(network.vips)
      ensures network.fips == old(network.fips) && network.monitors == old(network.monitors)
    {
      var chosenMethod := PoolMethod(lbMethod);
      var lookup := PoolsByName(network.ListPools(), name);
      if lookup.Err? && lookup.error != ErrNotFound {
        return Err(lookup.error);
      }
      var list := if lookup.Ok? then lookup.value else [];
      var portText := Itoa(port);
      var i := FindDecidingPool(list, portText);
      if i < |list| {
        match StatusRule(list[i].status)
        case ReuseIt => return Ok(list[i]);
        case Refuse(e) => return Err(e);
      }
      var created := network.CreatePool(name + "-" + portText, chosenMethod);
      if created.Err? {
        return Err(created.error);
      }
      var err, _ := TimedWait("pool", Active, polls);
      if err.Some? {
        return Err(err.value);
      }
      return created;
    }

    /**
     * `createMember`: reuse or refuse the member the pool already has at `address`, else
     * create one forwarding to the pod's target port.
     */
    method CreateMember(poolId: nat, svcPort: Option<ServicePort>, address: string, pod: Pod) returns (r: Result<Member, Error>)
      requires network.Valid()
      modifies network
      ensures network.Valid()
      ensures old(MemberPlan(network.ListMembersAt(poolId, address))).Decided? ==>
        r == old(MemberPlan(network.ListMembersAt(poolId, address))).result
        && network.members == old(network.members) && network.nextId == old(network.nextId)
      ensures old(MemberPlan(network.ListMembersAt(poolId, address))) == CreateNew && TargetPort(svcPort, pod).Err? ==>
        r == Err(TargetPort(svcPort, pod).error) && network.members == old(network.members)
      ensures old(MemberPlan(network.ListMembersAt(poolId, address))) == CreateNew && TargetPort(svcPort, pod).Ok? ==>
        if network.faults.quotaExhausted then
          r == Err(ApiError("members.Create")) && network.members == old(network.members)
        else
          && r == Ok(Member(old(network.nextId), poolId, address, TargetPort(svcPort, pod).value, PendingCreate))
          && network.members == old(network.members) + [r.value]
      ensures r.Ok? ==> r.value in network.members && r.value.poolId == poolId && r.value.address == address
      ensures network.members == old(network.members) || (r.Ok? && network.members == old(network.members) + [r.value])
      ensures network.pools == old(network.pools) && network.vips == old(network.vips)
      ensures network.fips == old(network.fips) && network.monitors == old(network.monitors)
    {
      var listing := network.ListMembersAt(poolId, address);
      if listing.Err? {
        return Err(listing.error);
      }
      var list := listing.value;
      if |list| > 1 {
        return Err(Failure("more than 1 member found"));
      } else if |list| == 1 {
        assert list[0] in list;
        match StatusRule(list[0].status)
        case ReuseIt => return Ok(list[0]);
        case Refuse(e) => return Err(e);
        case Ignore =>
      }
      var target := TargetPort(svcPort, pod);
      if target.Err? {
        return Err(target.error);
      }
      r := network.CreateMember(poolId, address, target.value);
    }

    /**
     * `createVip`: reuse or refuse the VIP named `name-port`, else create it on the pool,
     * at `address` when one is given and otherwise at the address Neutron allocates.
     */
    method CreateVip(name: string, port: int, poolId: nat, address: string, neutronAddress: string) returns (r: Result<Vip, Error>)
      requires network.Valid()
      modifies network
      ensures network.Valid()
      ensures old(VipPlan(VipsByName(network.ListVips(), name + "-" + Itoa(port)))).Decided? ==>
        r == old(VipPlan(VipsByName(network.ListVips(), name + "-" + Itoa(port)))).result
        && network.vips == old(network.vips) && network.nextId == old(network.nextId)
      ensures old(VipPlan(VipsByName(network.ListVips(), name + "-" + Itoa(port)))) == CreateNew ==>
        if network.faults.quotaExhausted then
          r == Err(ApiError("vips.Create")) && network.vips == old(network.vips)
        else
          && r == Ok(Vip(old(network.nextId), name + "-" + Itoa(port), poolId, port, if |address| > 0 then address else neutronAddress, PendingCreate))
          && network.vips == old(network.vips) + [r.value]
      ensures r.Ok? ==> r.value in network.vips && Contains(r.value.name, name + "-" + Itoa(port))
      ensures network.pools == old(network.pools) && network.members == old(network.members)
      ensures network.fips == old(network.fips) && network.monitors == old(network.monitors)
    {
      var vipName := name + "-" + Itoa(port);
      var lookup := VipsByName(network.ListVips(), vipName);
      if lookup.Err? && lookup.error != ErrNotFound {
        return Err(lookup.error);
      }
      var list := if lookup.Ok? then lookup.value else [];
      if |list| == 1 {
        assert list[0] in list;
        match StatusRule(list[0].status)
        case ReuseIt => return Ok(list[0]);
        case Refuse(e) => return Err(e);
        case Ignore =>
      } else if |list| > 1 {
        return Err(Failure("more than one vip found"));
      }
      r := network.CreateVip(vipName, poolId, port, if |address| > 0 then address else neutronAddress);
      if r.Ok? {
        assert [] + vipName + [] == vipName;
        ContainsInfix([], vipName, []);
      }
    }

    // -------------------------------------------------------------------------
    // Floating IPs
    // -------------------------------------------------------------------------

    /**
     * `deleteFloatingIP`: no floating IP with the address is fine, more than one is an error,
     * and a single one is deleted.
     */
    method DeleteFloatingIp(address: string) returns (err: Option<Error>)
      requires network.Valid()
      modifies network
      ensures network.Valid()
      ensures old(network.ListFipsWithAddress(address)).Err? ==>
        err == Some(old(network.ListFipsWithAddress(address)).error) && network.fips == old(network.fips)
      ensures old(network.ListFipsWithAddress(address)) == Ok([]) ==> err == None && network.fips == old(network.fips)
      ensures old(network.ListFipsWithAddress(address)).Ok? && |old(network.ListFipsWithAddress(address)).value| > 1 ==>
        err == Some(Failure("more than one floating ip found")) && network.fips == old(network.fips)
      ensures old(network.ListFipsWithAddress(address)).Ok? && |old(network.ListFipsWithAddress(address)).value| == 1 ==>
        var f := old(network.ListFipsWithAddress(address)).value[0];
        if f.id in network.faults.broken then err == Some(ApiError("floatingips.Delete")) && network.fips == old(network.fips)
        else err == None && network.fips == FipsWithout(old(network.fips), f.id)
      ensures err.None? ==> forall f :: f in network.fips ==> f.address != address
      ensures |FipsWithAddress(old(network.fips), address)| != 1 ==> network.fips == old(network.fips)
      ensures forall f :: f in network.fips ==> f in old(network.fips)
      ensures forall f :: f in old(network.fips) && f.address != address ==> f in network.fips
      ensures network.pools == old(network.pools) && network.members == old(network.members)
      ensures network.vips == old(network.vips) && network.monitors == old(network.monitors)
      ensures network.nextId == old(network.nextId)
    {
      var listing := network.ListFipsWithAddress(address);
      if listing.Err? {
        return Some(listing.error);
      }
      var list := listing.value;
      if |list| == 0 {
        return None;
      } else if |list| > 1 {
        return Some(Failure("more than one floating ip found"));
      }
      var f := list[0];
      assert f in list;
      FipIdsUniqueValues(network.fips);
      err := network.DeleteFloatingIpById(f.id);
    }

    /**
     * `findFloatingIP`: the floating IP bound to the pod's fixed IP on a port, "" when there
     * is none; when there are several the first is kept and the others are deleted, each
     * deletion's error ignored. `validIp` says whether the trimmed pod IP parses as an IP.
     */
    method FindFloatingIp(portId: string, podIp: string, validIp: bool) returns (r: Result<string, Error>)
      requires network.Valid()
      modifies network
      ensures network.Valid()
      ensures !validIp ==> r == Err(Failure("not a valid pod ip")) && network.fips == old(network.fips)
      ensures validIp && old(network.ListFipsOfPort(portId, podIp)).Err? ==>
        r == Err(old(network.ListFipsOfPort(portId, podIp)).error) && network.fips == old(network.fips)
      ensures validIp && old(network.ListFipsOfPort(portId, podIp)).Ok? ==>
        var found := old(network.ListFipsOfPort(portId, podIp)).value;
        && r == Ok(if found == [] then "" else found[0].address)
        && (|found| <= 1 ==> network.fips == old(network.fips))
      ensures r.Ok? && |r.value| > 0 ==>
        exists f :: f in network.fips && f.address == r.value && f.portId == portId && f.fixedIp == podIp
      ensures forall f :: f in network.fips ==> f in old(network.fips)
      ensures forall f :: f in old(network.fips) && (f.portId != portId || f.fixedIp != podIp) ==> f in network.fips
      ensures network.pools == old(network.pools) && network.members == old(network.members)
      ensures network.vips == old(network.vips) && network.monitors == old(network.monitors)
      ensures network.nextId == old(network.nextId)
    {
      if !validIp {
        return Err(Failure("not a valid pod ip"));
      }
      var listing := network.ListFipsOfPort(portId, podIp);
      if listing.Err? {
        return Err(listing.error);
      }
      var found := listing.value;
      if |found| == 0 {
        return Ok("");
      }
      FipsOfPortUnique(network.fips, portId, podIp);
      assert found[0] in found;
      var k := 1;
      while k < |found|
        invariant 1 <= k <= |found|
        invariant network.Valid()
        invariant FipIdsUnique(found)
        invariant found[0] in network.fips
        invariant forall j :: k <= j < |found| ==> found[j] in network.fips
        invariant |found| <= 1 ==> network.fips == old(network.fips)
        invariant forall f :: f in network.fips ==> f in old(network.fips)
        invariant forall f :: f in old(network.fips) && (f.portId != portId || f.fixedIp != podIp) ==> f in network.fips
        invariant network.pools == old(network.pools) && network.members == old(network.members)
        invariant network.vips == old(network.vips) && network.monitors == old(network.monitors)
        invariant network.nextId == old(network.nextId)
      {
        ghost var before := network.fips;
        var address := found[k].address;
        assert found[k] in before && found[k] in found;
        var ignored := DeleteFloatingIp(address);
        forall g | g in before && (g.portId != portId || g.fixedIp != podIp) ensures g in network.fips {
          if g.address == address {
            TwoDistinct(FipsWithAddress(before, address), g, found[k]);
          }
        }
        forall j | (j == 0 || k < j) && j < |found| ensures found[j] in network.fips {
          if found[j].address == address {
            assert found[j].id != found[k].id by {
              if j < k { assert FipIdAt(found, j) != FipIdAt(found, k); } else { assert FipIdAt(found, k) != FipIdAt(found, j); }
            }
            TwoDistinct(FipsWithAddress(before, address), found[j], found[k]);
          }
        }
        k := k + 1;
      }
      return Ok(found[0].address);
    }

    /**
     * `createFloatingIPsforPods`, given the answer of `getVMPortIDbyFQDN` for the pod's node:
     * the pod's existing floating IP, or a new one at `freshAddress` (the address Neutron
     * allocates) bound to the pod's fixed IP on that port.
     */
    method CreateFloatingIpForPod(portId: Result<string, Error>, podIp: string, validIp: bool, freshAddress: string)
      returns (r: Result<string, Error>)
      requires network.Valid()
      modifies network
      ensures network.Valid()
      ensures portId.Err? ==> r == Err(portId.error) && network.fips == old(network.fips)
      ensures portId.Ok? && !validIp ==> r == Err(Failure("not a valid pod ip")) && network.fips == old(network.fips)
      ensures portId.Ok? && validIp && old(network.ListFipsOfPort(portId.value, podIp)).Err? ==>
        r == Err(old(network.ListFipsOfPort(portId.value, podIp)).error) && network.fips == old(network.fips)
      ensures portId.Ok? && validIp && old(network.ListFipsOfPort(portId.value, podIp)) == Ok([]) ==>
        if network.faults.quotaExhausted then r == Err(ApiError("floatingips.Create")) && network.fips == old(network.fips)
        else
          && r == Ok(freshAddress)
          && network.fips == old(network.fips) + [FloatingIp(old(network.nextId), freshAddress, portId.value, podIp)]
      ensures portId.Ok? && validIp && old(network.ListFipsOfPort(portId.value, podIp)).Ok? ==>
        var found := old(network.ListFipsOfPort(portId.value, podIp)).value;
        found != [] && found[0].address != "" ==> r == Ok(found[0].address)
      ensures r.Ok? ==>
        portId.Ok? && exists f :: f in network.fips && f.address == r.value && f.portId == portId.value && f.fixedIp == podIp
      ensures forall f :: f in network.fips ==>
        f in old(network.fips) || (portId.Ok? && f.address == freshAddress && f.portId == portId.value && f.fixedIp == podIp)
      ensures forall f :: f in old(network.fips) && (portId.Err? || f.portId != portId.value || f.fixedIp != podIp) ==> f in network.fips
      ensures network.pools == old(network.pools) && network.members == old(network.members)
      ensures network.vips == old(network.vips) && network.monitors == old(network.monitors)
    {
      if portId.Err? {
        return Err(portId.error);
      }
      var existing := FindFloatingIp(portId.value, podIp, validIp);
      if existing.Err? {
        return Err(existing.error);
      } else if |existing.value| > 0 {
        return existing;
      }
      var created := network.CreateFloatingIp(freshAddress, portId.value, podIp);
      if created.Err? {
        return Err(created.error);
      }
      assert created.value in network.fips;
      return Ok(created.value.address);
    }

    // -------------------------------------------------------------------------
    // UpdateLoadBalancer
    // -------------------------------------------------------------------------

    /**
     * `getPoolMembersByPodsList`: a floating IP is found or created for every pod in turn,
     * and the first failure ends the walk with empty maps. Every pool member is `true`, and
     * because the map stores the address of the loop variable, every floating IP maps to the
     * last pod of the list.
     */
    method PoolMembersByPods(pods: seq<PodTarget>) returns (err: Option<Error>, poolMembers: map<string, bool>, fipPodMap: map<string, Pod>)
      requires network.Valid()
      modifies network
      ensures network.Valid()
      ensures err.Some? ==> poolMembers == map[] && fipPodMap == map[]
      ensures poolMembers.Keys == fipPodMap.Keys
      ensures forall a :: a in poolMembers ==> poolMembers[a]
      ensures forall a :: a in fipPodMap ==> |pods| > 0 && fipPodMap[a] == pods[|pods| - 1].pod
      ensures err.None? ==> WantedFor(poolMembers.Keys, pods, old(network.fips))
      ensures forall f :: f in network.fips ==> f in old(network.fips) || CreatedForPods(f, pods)
      ensures forall f :: f in old(network.fips) && (forall i :: 0 <= i < |pods| ==> !BoundTo(f, pods[i])) ==> f in network.fips
      ensures network.pools == old(network.pools) && network.members == old(network.members)
      ensures network.vips == old(network.vips) && network.monitors == old(network.monitors)
    {
      poolMembers := map[];
      var i := 0;
      while i < |pods|
        invariant i <= |pods|
        invariant network.Valid()
        invariant forall a :: a in poolMembers ==> poolMembers[a]
        invariant forall a :: a in poolMembers ==> exists k :: 0 <= k < i && ServesPod(a, pods, k, old(network.fips))
        invariant forall k :: 0 <= k < i ==> PodServed(poolMembers.Keys, pods, k, old(network.fips))
        invariant forall f :: f in network.fips ==>
          f in old(network.fips) || exists k :: 0 <= k < i && f.address == pods[k].freshAddress && BoundTo(f, pods[k])
        invariant forall f :: f in old(network.fips) && (forall k :: 0 <= k < i ==> !BoundTo(f, pods[k])) ==> f in network.fips
        invariant network.pools == old(network.pools) && network.members == old(network.members)
        invariant network.vips == old(network.vips) && network.monitors == old(network.monitors)
      {
        var t := pods[i];
        ghost var before, keysBefore := network.fips, poolMembers.Keys;
        var fip := CreateFloatingIpForPod(t.portId, t.podIp, t.validIp, t.freshAddress);
        forall f | f in network.fips
          ensures f in old(network.fips) || exists k :: 0 <= k < i + 1 && f.address == pods[k].freshAddress && BoundTo(f, pods[k])
        {
          if f !in before {
            assert f.address == pods[i].freshAddress && BoundTo(f, pods[i]);
          }
        }
        if fip.Err? {
          return Some(fip.error), map[], map[];
        }
        assert ServesPod(fip.value, pods, i, old(network.fips)) by {
          if fip.value != t.freshAddress {
            var f :| f in network.fips && f.address == fip.value && BoundTo(f, t);
            assert f in before;
            if f !in old(network.fips) {
              var k :| 0 <= k < i && f.address == pods[k].freshAddress && BoundTo(f, pods[k]);
              assert BoundTo(f, pods[k]) && BoundTo(f, t);
              assert pods[k].portId == t.portId;
            }
          }
        }
        poolMembers := poolMembers[fip.value := true];
        forall k | 0 <= k < i + 1 ensures PodServed(poolMembers.Keys, pods, k, old(network.fips)) {
          if k < i {
            assert PodServed(keysBefore, pods, k, old(network.fips));
            var a :| a in keysBefore && ServesPod(a, pods, k, old(network.fips));
            assert a in poolMembers.Keys;
          } else {
            assert fip.value in poolMembers.Keys;
          }
        }
        i := i + 1;
      }
      fipPodMap := map a | a in poolMembers :: pods[|pods| - 1].pod;
      return None, poolMembers, fipPodMap;
    }

    /**
     * One existing member of the pool, as `UpdateLoadBalancer` treats it: when its address is
     * still wanted it is kept and the address struck off the working set; otherwise the member
     * and then its floating IP are deleted.
     */
    method PruneMember(m: Member, ws: WorkingSet) returns (err: Option<Error>)
      requires network.Valid() && m in network.members
      modifies network, ws
      ensures network.Valid()
      ensures ws.pods == old(ws.pods)
      ensures m.address in old(ws.members) ==>
        && err.None? && ws.members == old(ws.members) - {m.address}
        && network.members == old(network.members) && network.fips == old(network.fips)
      ensures m.address !in old(ws.members) ==> ws.members == old(ws.members)
      ensures m.address !in old(ws.members) && err.None? ==>
        && (forall n :: n in network.members <==> n in old(network.members) && n != m)
        && (forall f :: f in network.fips ==> f.address != m.address)
      ensures forall n :: n in network.members ==> n in old(network.members)
      ensures forall n :: n in old(network.members) && n != m ==> n in network.members
      ensures m in network.members ==> network.fips == old(network.fips)
      ensures forall f :: f in network.fips ==> f in old(network.fips)
      ensures forall f :: f in old(network.fips) && f.address != m.address ==> f in network.fips
      ensures network.pools == old(network.pools) && network.vips == old(network.vips) && network.monitors == old(network.monitors)
      ensures network.nextId == old(network.nextId)
    {
      if m.address in ws.members {
        ws.members := ws.members - {m.address};
        return None;
      }
      UniqueIdsValues(network.members);
      err := network.DeleteMember(m.id);
      if err.Some? {
        return;
      }
      err := DeleteFloatingIp(m.address);
    }

    /**
     * The first half of `UpdateLoadBalancer`'s work on one VIP's pool: every member the pool
     * lists goes through `PruneMember`, and the first failure ends the update. Afterwards the
     * pool's members are exactly the kept ones, one per address struck off the working set.
     */
    method PruneMembers(poolId: nat, ws: WorkingSet) returns (err: Option<Error>)
      requires network.Valid()
      modifies network, ws
      ensures network.Valid()
      ensures ws.pods == old(ws.pods) && ws.members.Keys <= old(ws.members.Keys)
      ensures old(network.ListMembers(poolId)).Err? ==> err == Some(old(network.ListMembers(poolId)).error)
      ensures err.None? ==> forall a :: a in old(ws.members) && a !in ws.members ==> a in AddressesOf(network.members, poolId)
      ensures err.None? ==> forall m :: m in network.members && m.poolId == poolId ==> m.address in old(ws.members) && m.address !in ws.members
      ensures err.None? ==> Removed(old(network.members), network.members, network.fips)
      ensures forall m :: m in network.members ==> m in old(network.members)
      ensures forall m :: m in old(network.members) && m.poolId != poolId ==> m in network.members
      ensures forall f :: f in network.fips ==> f in old(network.fips)
      ensures forall f ::
        && f in old(network.fips)
        && (forall m :: m in old(network.members) && m !in network.members ==> m.address != f.address)
        ==> f in network.fips
      ensures network.pools == old(network.pools) && network.vips == old(network.vips) && network.monitors == old(network.monitors)
      ensures network.nextId == old(network.nextId)
    {
      var listing := network.ListMembers(poolId);
      if listing.Err? {
        return Some(listing.error);
      }
      var existing := listing.value;
      MembersOfUnique(network.members, poolId);
      ghost var todo := set n | n in existing;
      ghost var keptBy: map<string, Member> := map[];
      var j := 0;
      while j < |existing|
        invariant j <= |existing|
        invariant network.Valid()
        invariant UniqueIds(existing)
        invariant forall n :: j <= n < |existing| ==> existing[n] in todo
        invariant forall m :: m in todo ==> m in network.members && m.poolId == poolId
        invariant forall m :: m in todo ==> exists n :: j <= n < |existing| && existing[n] == m
        invariant ws.pods == old(ws.pods) && ws.members.Keys <= old(ws.members.Keys)
        invariant forall a :: a in old(ws.members) && a !in ws.members ==>
          a in keptBy && keptBy[a].address == a && keptBy[a].poolId == poolId && keptBy[a] in network.members && keptBy[a] !in todo
        invariant forall m :: m in network.members && m.poolId == poolId ==>
          (m.address in old(ws.members) && m.address !in ws.members) || m in todo
        invariant Removed(old(network.members), network.members, network.fips)
        invariant forall m :: m in network.members ==> m in old(network.members)
        invariant forall m :: m in old(network.members) && m.poolId != poolId ==> m in network.members
        invariant forall f :: f in network.fips ==> f in old(network.fips)
        invariant forall f ::
          && f in old(network.fips)
          && (forall m :: m in old(network.members) && m !in network.members ==> m.address != f.address)
          ==> f in network.fips
        invariant network.pools == old(network.pools) && network.vips == old(network.vips) && network.monitors == old(network.monitors)
        invariant network.nextId == old(network.nextId)
      {
        var m := existing[j];
        forall n | j < n < |existing| ensures existing[n] != m {
          assert MemberIdAt(existing, j) != MemberIdAt(existing, n);
        }
        ghost var kept := m.address in ws.members;
        ghost var membersBefore, fipsBefore := network.members, network.fips;
        err := PruneMember(m, ws);
        forall f | f in old(network.fips) && (forall n :: n in old(network.members) && n !in network.members ==> n.address != f.address)
          ensures f in network.fips
        {
          assert f in fipsBefore;
          if m !in network.members {
            assert m.address != f.address;
          }
        }
        if err.Some? {
          return;
        }
        if kept {
          keptBy := keptBy[m.address := m];
        }
        todo := todo - {m};
        j := j + 1;
      }
      return None;
    }

    /**
     * The second half: a member is created (or found) for every address left in the working
     * set, in any order, and the first failure ends the update.
     */
    method AddMembers(poolId: nat, svcPort: Option<ServicePort>, ws: WorkingSet) returns (err: Option<Error>)
      requires network.Valid()
      requires ws.members.Keys <= ws.pods.Keys
      modifies network
      ensures network.Valid()
      ensures err.None? ==> forall a :: a in ws.members ==> a in AddressesOf(network.members, poolId)
      ensures forall m :: m in old(network.members) ==> m in network.members
      ensures forall m :: m in network.members ==> m in old(network.members) || (m.poolId == poolId && m.address in ws.members)
      ensures network.fips == old(network.fips) && network.pools == old(network.pools)
      ensures network.vips == old(network.vips) && network.monitors == old(network.monitors)
    {
      var pending := ws.members.Keys;
      while pending != {}
        invariant pending <= ws.members.Keys
        invariant network.Valid()
        invariant forall a :: a in ws.members && a !in pending ==> a in AddressesOf(network.members, poolId)
        invariant forall m :: m in old(network.members) ==> m in network.members
        invariant forall m :: m in network.members ==> m in old(network.members) || (m.poolId == poolId && m.address in ws.members)
        invariant network.fips == old(network.fips) && network.pools == old(network.pools)
        invariant network.vips == old(network.vips) && network.monitors == old(network.monitors)
        decreases pending
      {
        var address :| address in pending;
        ghost var before := network.members;
        var created := CreateMember(poolId, svcPort, address, ws.pods[address]);
        if created.Err? {
          return Some(created.error);
        }
        assert address in AddressesOf(network.members, poolId);
        forall a | a in ws.members && a !in pending ensures a in AddressesOf(network.members, poolId) {
          var m :| m in before && m.poolId == poolId && m.address == a;
          assert m in network.members;
        }
        pending := pending - {address};
      }
      return None;
    }

    /**
     * The body of `UpdateLoadBalancer`'s loop for one VIP: refill the working set, prune the
     * pool, add what is missing. On success the pool's member addresses are exactly the
     * wanted floating IPs, and no other pool's members changed.
     */
    method SyncPool(poolId: nat, svcPort: Option<ServicePort>, poolMembers: map<string, bool>, fipPodMap: map<string, Pod>, ws: WorkingSet)
      returns (err: Option<Error>)
      requires network.Valid()
      requires poolMembers.Keys == fipPodMap.Keys
      requires ws.members.Keys <= poolMembers.Keys && (ws.pods == map[] || ws.pods == fipPodMap)
      modifies network, ws
      ensures network.Valid()
      ensures ws.members.Keys <= poolMembers.Keys && ws.pods == fipPodMap
      ensures err.None? ==> AddressesOf(network.members, poolId) == poolMembers.Keys
      ensures err.None? ==> Removed(old(network.members), network.members, network.fips)
      ensures forall m :: m in old(network.members) && m.poolId != poolId ==> m in network.members
      ensures forall m :: m in network.members && m.poolId != poolId ==> m in old(network.members)
      ensures forall m :: m in network.members ==> m in old(network.members) || (m.poolId == poolId && m.address in poolMembers)
      ensures forall f :: f in network.fips ==> f in old(network.fips)
      ensures forall f ::
        && f in old(network.fips)
        && (forall m :: m in old(network.members) && m.poolId == poolId ==> m.address != f.address)
        ==> f in network.fips
      ensures network.pools == old(network.pools) && network.vips == old(network.vips) && network.monitors == old(network.monitors)
    {
      CopyOverCoveredKeys(ws.members, poolMembers);
      CopyPoolMembersForVip(poolMembers, fipPodMap, ws);
      assert ws.members == poolMembers && ws.pods == fipPodMap;
      err := PruneMembers(poolId, ws);
      if err.Some? {
        return;
      }
      ghost var pruned := network.members;
      err := AddMembers(poolId, svcPort, ws);
      if err.Some? {
        return;
      }
      forall a | a in poolMembers ensures a in AddressesOf(network.members, poolId) {
        if a !in ws.members {
          var m :| m in pruned && m.poolId == poolId && m.address == a;
          assert m in network.members;
        }
      }
    }

    /**
     * The loop of `UpdateLoadBalancer` over the VIPs it found, with one working set shared by
     * all of them: each VIP's pool is synced to the wanted floating IPs, and the first failure
     * ends the update.
     */
    method SyncPools(vipList: seq<Vip>, portMap: map<int, ServicePort>, poolMembers: map<string, bool>, fipPodMap: map<string, Pod>)
      returns (err: Option<Error>)
      requires network.Valid()
      requires poolMembers.Keys == fipPodMap.Keys
      modifies network
      ensures network.Valid()
      ensures err.None? ==> forall v :: v in vipList ==> AddressesOf(network.members, v.poolId) == poolMembers.Keys
      ensures err.None? ==> Removed(old(network.members), network.members, network.fips)
      ensures forall m :: m in old(network.members) && m.poolId !in PoolsOf(vipList) ==> m in network.members
      ensures forall m :: m in network.members ==>
        m in old(network.members) || (m.poolId in PoolsOf(vipList) && m.address in poolMembers)
      ensures forall f :: f in network.fips ==> f in old(network.fips)
      ensures forall f ::
        && f in old(network.fips)
        && f.address !in poolMembers
        && (forall m :: m in old(network.members) && m.poolId in PoolsOf(vipList) ==> m.address != f.address)
        ==> f in network.fips
      ensures network.pools == old(network.pools) && network.vips == old(network.vips) && network.monitors == old(network.monitors)
    {
      var ws := new WorkingSet();
      var i := 0;
      while i < |vipList|
        invariant i <= |vipList|
        invariant network.Valid()
        invariant ws.members.Keys <= poolMembers.Keys
        invariant ws.pods == map[] || ws.pods == fipPodMap
        invariant forall k :: 0 <= k < i ==> AddressesOf(network.members, vipList[k].poolId) == poolMembers.Keys
        invariant Removed(old(network.members), network.members, network.fips)
        invariant forall m :: m in old(network.members) && m.poolId !in PoolsOf(vipList) ==> m in network.members
        invariant forall m :: m in network.members ==>
          m in old(network.members) || (m.poolId in PoolsOf(vipList) && m.address in poolMembers)
        invariant forall f :: f in network.fips ==> f in old(network.fips)
        invariant forall f ::
          && f in old(network.fips)
          && f.address !in poolMembers
          && (forall m :: m in old(network.members) && m.poolId in PoolsOf(vipList) ==> m.address != f.address)
          ==> f in network.fips
        invariant network.pools == old(network.pools) && network.vips == old(network.vips) && network.monitors == old(network.monitors)
      {
        var vip := vipList[i];
        assert vip.poolId in PoolsOf(vipList);
        ghost var start, startFips := network.members, network.fips;
        var svcPort := if vip.port in portMap then Some(portMap[vip.port]) else None;
        err := SyncPool(vip.poolId, svcPort, poolMembers, fipPodMap, ws);
        forall f |
          && f in old(network.fips)
          && f.address !in poolMembers
          && (forall m :: m in old(network.members) && m.poolId in PoolsOf(vipList) ==> m.address != f.address)
          ensures f in network.fips
        {
          assert f in startFips;
          forall m | m in start && m.poolId == vip.poolId ensures m.address != f.address {
          }
        }
        if err.Some? {
          return;
        }
        SyncedPoolsStay(start, network.members, vipList, i, poolMembers.Keys);
        i := i + 1;
      }
      forall v | v in vipList ensures AddressesOf(network.members, v.poolId) == poolMembers.Keys {
        var k :| 0 <= k < |vipList| && vipList[k] == v;
      }
      return None;
    }

    /**
     * `UpdateLoadBalancer`: the VIPs named after the load balancer are looked up, then the
     * service (`fetched`, the answer of `getServicePodListbyLBName`), then a floating IP is
     * found or created for every pod. The pool of every VIP found ends up with exactly one
     * member address per wanted floating IP, and a member that is dropped loses its floating IP.
     * `wanted` names the floating IPs collected for the pods.
     */
    method UpdateLoadBalancer(name: string, fetched: Result<ServiceView, Error>) returns (err: Option<Error>, ghost wanted: set<string>)
      requires network.Valid()
      modifies network
      ensures network.Valid()
      ensures old(VipsByName(network.ListVips(), name)).Err? ==>
        err == Some(old(VipsByName(network.ListVips(), name)).error)
        && network.members == old(network.members) && network.fips == old(network.fips)
      ensures old(VipsByName(network.ListVips(), name)).Ok? && fetched.Err? ==>
        err == Some(fetched.error) && network.members == old(network.members) && network.fips == old(network.fips)
      ensures err.None? ==> fetched.Ok? && WantedFor(wanted, fetched.value.pods, old(network.fips))
      ensures err.None? ==> forall v :: v in old(network.vips) && Contains(v.name, name) ==>
        AddressesOf(network.members, v.poolId) == wanted
      ensures err.None? ==> Removed(old(network.members), network.members, network.fips)
      ensures forall m :: m in old(network.members) && m.poolId !in PoolsOf(NamedVips(old(network.vips), name)) ==> m in network.members
      ensures forall m :: m in network.members ==>
        m in old(network.members) || (m.poolId in PoolsOf(NamedVips(old(network.vips), name)) && m.address in wanted)
      ensures forall f :: f in network.fips ==> f in old(network.fips) || (fetched.Ok? && CreatedForPods(f, fetched.value.pods))
      ensures forall f ::
        && f in old(network.fips)
        && (fetched.Ok? ==> forall i :: 0 <= i < |fetched.value.pods| ==> !BoundTo(f, fetched.value.pods[i]))
        && f.address !in wanted
        && (forall m :: m in old(network.members) && m.poolId in PoolsOf(NamedVips(old(network.vips), name)) ==> m.address != f.address)
        ==> f in network.fips
      ensures network.pools == old(network.pools) && network.vips == old(network.vips) && network.monitors == old(network.monitors)
    {
      wanted := {};
      var lookup := VipsByName(network.ListVips(), name);
      if lookup.Err? {
        return Some(lookup.error), wanted;
      }
      var vipList := lookup.value;
      assert vipList == NamedVips(network.vips, name);
      if fetched.Err? {
        return Some(fetched.error), wanted;
      }
      var poolMembers, fipPodMap;
      err, poolMembers, fipPodMap := PoolMembersByPods(fetched.value.pods);
      if err.Some? {
        return;
      }
      wanted := poolMembers.Keys;
      var portMap := BuildPortMap(fetched.value.ports);
      err := SyncPools(vipList, portMap, poolMembers, fipPodMap);
    }

    // -------------------------------------------------------------------------
    // EnsureLoadBalancerDeleted
    // -------------------------------------------------------------------------

    /**
     * `deletePoolMembers`: the floating IP of every member of the pool is deleted (the
     * members themselves go with the pool); the first failure ends the walk.
     */
    method DeletePoolMembers(poolId: nat) returns (err: Option<Error>)
      requires network.Valid()
      modifies network
      ensures network.Valid()
      ensures old(network.ListMembers(poolId)).Err? ==>
        err == Some(old(network.ListMembers(poolId)).error) && network.fips == old(network.fips)
      ensures err.None? ==> forall m :: m in old(network.members) && m.poolId == poolId ==>
        forall f :: f in network.fips ==> f.address != m.address
      ensures forall f :: f in network.fips ==> f in old(network.fips)
      ensures forall f :: f in old(network.fips) && (forall m :: m in old(network.members) && m.poolId == poolId ==> m.address != f.address) ==>
        f in network.fips
      ensures network.pools == old(network.pools) && network.members == old(network.members)
      ensures network.vips == old(network.vips) && network.monitors == old(network.monitors)
      ensures network.nextId == old(network.nextId)
    {
      var listing := network.ListMembers(poolId);
      if listing.Err? {
        return Some(listing.error);
      }
      var list := listing.value;
      var j := 0;
      while j < |list|
        invariant j <= |list|
        invariant network.Valid()
        invariant forall k :: 0 <= k < j ==> forall f :: f in network.fips ==> f.address != list[k].address
        invariant forall f :: f in network.fips ==> f in old(network.fips)
        invariant forall f :: f in old(network.fips) && (forall k :: 0 <= k < |list| ==> list[k].address != f.address) ==> f in network.fips
        invariant forall k :: 0 <= k < |list| ==> list[k] in old(network.members) && list[k].poolId == poolId
        invariant network.pools == old(network.pools) && network.members == old(network.members)
        invariant network.vips == old(network.vips) && network.monitors == old(network.monitors)
        invariant network.nextId == old(network.nextId)
      {
        var e := DeleteFloatingIp(list[j].address);
        if e.Some? {
          return e;
        }
        j := j + 1;
      }
      forall m | m in old(network.members) && m.poolId == poolId ensures forall f :: f in network.fips ==> f.address != m.address {
        var k :| 0 <= k < |list| && list[k] == m;
      }
      return None;
    }

    /** The first loop of `EnsureLoadBalancerDeleted`: every VIP not already in PENDING_DELETE is deleted. */
    method DeleteVips(vipList: seq<Vip>) returns (err: Option<Error>)
      requires network.Valid()
      modifies network
      ensures network.Valid()
      ensures err.None? ==> forall v :: v in vipList && v.status != PendingDelete ==> forall w :: w in network.vips ==> w.id != v.id
      ensures err.Some? ==> !IsNotFound(err.value) && err != Some(NilDereference)
      ensures forall v :: v in network.vips ==> v in old(network.vips)
      ensures forall v :: v in old(network.vips) && (forall w :: w in vipList && w.status != PendingDelete ==> w.id != v.id) ==>
        v in network.vips
      ensures network.pools == old(network.pools) && network.members == old(network.members)
      ensures network.fips == old(network.fips) && network.monitors == old(network.monitors)
      ensures network.nextId == old(network.nextId)
    {
      var j := 0;
      while j < |vipList|
        invariant j <= |vipList|
        invariant network.Valid()
        invariant forall k :: 0 <= k < j && vipList[k].status != PendingDelete ==> forall w :: w in network.vips ==> w.id != vipList[k].id
        invariant forall v :: v in network.vips ==> v in old(network.vips)
        invariant forall v :: v in old(network.vips) && (forall k :: 0 <= k < j && vipList[k].status != PendingDelete ==> vipList[k].id != v.id) ==>
          v in network.vips
        invariant network.pools == old(network.pools) && network.members == old(network.members)
        invariant network.fips == old(network.fips) && network.monitors == old(network.monitors)
        invariant network.nextId == old(network.nextId)
      {
        var vip := vipList[j];
        if vip.status != PendingDelete {
          var e := network.DeleteVip(vip.id);
          if e.Some? && !IsNotFound(e.value) {
            KeptVips(vipList, j, old(network.vips), network.vips);
            return e;
          }
        }
        j := j + 1;
      }
      forall v | v in vipList && v.status != PendingDelete ensures forall w :: w in network.vips ==> w.id != v.id {
        var k :| 0 <= k < |vipList| && vipList[k] == v;
      }
      KeptVips(vipList, j, old(network.vips), network.vips);
      return None;
    }

    /**
     * The pools of the deleted VIPs, fetched one by one with `pools.Get`. A pool that is not
     * found is dereferenced all the same, which this model reports as `NilDereference`.
     */
    method CollectPools(vipList: seq<Vip>) returns (err: Option<Error>, poolList: seq<Pool>)
      ensures err.None? ==> |poolList| == |vipList|
      ensures err.None? ==> forall k :: 0 <= k < |vipList| ==> poolList[k] in network.pools && poolList[k].id == vipList[k].poolId
      ensures err == Some(NilDereference) ==> exists v :: v in vipList && forall p :: p in network.pools ==> p.id != v.poolId
    {
      poolList := [];
      var j := 0;
      while j < |vipList|
        invariant j <= |vipList|
        invariant |poolList| == j
        invariant forall k :: 0 <= k < j ==> poolList[k] in network.pools && poolList[k].id == vipList[k].poolId
      {
        var got := network.GetPool(vipList[j].poolId);
        if got.Err? && !IsNotFound(got.error) {
          return Some(got.error), poolList;
        } else if got.Err? {
          assert vipList[j] in vipList;
          return Some(NilDereference), poolList;
        }
        poolList := poolList + [got.value];
        j := j + 1;
      }
      return None, poolList;
    }

    /** One monitor is disassociated from the pool and deleted; a monitor already gone is tolerated. */
    method DropMonitor(poolId: nat, monitorId: nat) returns (err: Option<Error>)
      requires network.Valid()
      modifies network
      ensures network.Valid()
      ensures err.None? ==> monitorId !in network.monitors
      ensures err != Some(NilDereference)
      ensures PoolIds(network.pools) == PoolIds(old(network.pools))
      ensures forall p :: p in old(network.pools) && p.id != poolId ==> p in network.pools
      ensures network.monitors <= old(network.monitors)
      ensures forall mon :: mon in old(network.monitors) && mon != monitorId ==> mon in network.monitors
      ensures network.vips == old(network.vips) && network.members == old(network.members) && network.fips == old(network.fips)
      ensures network.nextId == old(network.nextId)
    {
      err := network.DisassociateMonitor(poolId, monitorId);
      if err.Some? {
        return;
      }
      err := network.DeleteMonitor(monitorId);
      if err.Some? && IsNotFound(err.value) {
        err := None;
      }
    }

    /** The monitors of one pool are disassociated from it and deleted; the first failure ends the walk. */
    method DeletePoolMonitors(pool: Pool) returns (err: Option<Error>)
      requires network.Valid()
      modifies network
      ensures network.Valid()
      ensures err.None? ==> forall mon :: mon in pool.monitorIds ==> mon !in network.monitors
      ensures err != Some(NilDereference)
      ensures PoolIds(network.pools) == PoolIds(old(network.pools))
      ensures forall p :: p in old(network.pools) && p.id != pool.id ==> p in network.pools
      ensures network.monitors <= old(network.monitors)
      ensures forall mon :: mon in old(network.monitors) && mon !in pool.monitorIds ==> mon in network.monitors
      ensures network.vips == old(network.vips) && network.members == old(network.members) && network.fips == old(network.fips)
      ensures network.nextId == old(network.nextId)
    {
      var t := 0;
      while t < |pool.monitorIds|
        invariant t <= |pool.monitorIds|
        invariant network.Valid()
        invariant forall s :: 0 <= s < t ==> pool.monitorIds[s] !in network.monitors
        invariant PoolIds(network.pools) == PoolIds(old(network.pools))
        invariant forall p :: p in old(network.pools) && p.id != pool.id ==> p in network.pools
        invariant network.monitors <= old(network.monitors)
        invariant forall mon :: mon in old(network.monitors) && mon !in pool.monitorIds ==> mon in network.monitors
        invariant network.vips == old(network.vips) && network.members == old(network.members) && network.fips == old(network.fips)
        invariant network.nextId == old(network.nextId)
      {
        err := DropMonitor(pool.id, pool.monitorIds[t]);
        if err.Some? {
          return;
        }
        t := t + 1;
      }
      forall mon | mon in pool.monitorIds ensures mon !in network.monitors {
        var s :| 0 <= s < |pool.monitorIds| && pool.monitorIds[s] == mon;
      }
      return None;
    }

    /**
     * One pass of the second loop of `EnsureLoadBalancerDeleted`: the pool's members' floating
     * IPs (errors ignored), then its monitors, then the pool unless it is already in
     * PENDING_DELETE; a pool that is already gone is tolerated.
     */
    method DeletePoolAndMonitors(pool: Pool) returns (err: Option<Error>)
      requires network.Valid()
      modifies network
      ensures network.Valid()
      ensures err.None? ==> pool.status != PendingDelete ==> pool.id !in PoolIds(network.pools)
      ensures err.None? ==> forall mon :: mon in pool.monitorIds ==> mon !in network.monitors
      ensures err != Some(NilDereference)
      ensures PoolIds(network.pools) <= PoolIds(old(network.pools))
      ensures forall p :: p in old(network.pools) && p.id != pool.id ==> p in network.pools
      ensures forall m :: m in network.members ==> m in old(network.members)
      ensures forall m :: m in old(network.members) && m.poolId != pool.id ==> m in network.members
      ensures forall f :: f in network.fips ==> f in old(network.fips)
      ensures forall f :: f in old(network.fips) && (forall m :: m in old(network.members) && m.poolId == pool.id ==> m.address != f.address) ==>
        f in network.fips
      ensures network.monitors <= old(network.monitors)
      ensures forall mon :: mon in old(network.monitors) && mon !in pool.monitorIds ==> mon in network.monitors
      ensures network.vips == old(network.vips) && network.nextId == old(network.nextId)
    {
      var ignored := DeletePoolMembers(pool.id);
      err := DeletePoolMonitors(pool);
      if err.Some? {
        return;
      }
      if pool.status != PendingDelete {
        ghost var before := network.pools;
        var e := network.DeletePool(pool.id);
        if e.Some? && !IsNotFound(e.value) {
          return e;
        }
        assert forall x :: x !in PoolIds(before) ==> x !in PoolIds(network.pools);
      }
      return None;
    }

    /** The second loop of `EnsureLoadBalancerDeleted`, over the pools to remove; the first failure ends it. */
    method DeletePools(poolList: seq<Pool>) returns (err: Option<Error>)
      requires network.Valid()
      modifies network
      ensures network.Valid()
      ensures err.None? ==> forall p :: p in poolList ==>
        && (p.status != PendingDelete ==> p.id !in PoolIds(network.pools))
        && (forall mon :: mon in p.monitorIds ==> mon !in network.monitors)
      ensures err != Some(NilDereference)
      ensures forall p :: p in old(network.pools) && p.id !in PoolIds(poolList) ==> p in network.pools
      ensures forall m :: m in network.members ==> m in old(network.members)
      ensures forall m :: m in old(network.members) && m.poolId !in PoolIds(poolList) ==> m in network.members
      ensures forall f :: f in network.fips ==> f in old(network.fips)
      ensures forall f :: f in old(network.fips) && (forall m :: m in old(network.members) && m.poolId in PoolIds(poolList) ==> m.address != f.address) ==>
        f in network.fips
      ensures network.monitors <= old(network.monitors)
      ensures forall mon :: mon in old(network.monitors) && (forall p :: p in poolList ==> mon !in p.monitorIds) ==> mon in network.monitors
      ensures network.vips == old(network.vips) && network.nextId == old(network.nextId)
    {
      var j := 0;
      while j < |poolList|
        invariant j <= |poolList|
        invariant network.Valid()
        invariant forall k :: 0 <= k < j && poolList[k].status != PendingDelete ==> poolList[k].id !in PoolIds(network.pools)
        invariant forall k :: 0 <= k < j ==> forall mon :: mon in poolList[k].monitorIds ==> mon !in network.monitors
        invariant forall p :: p in old(network.pools) && p.id !in PoolIds(poolList[..j]) ==> p in network.pools
        invariant forall m :: m in network.members ==> m in old(network.members)
        invariant forall m :: m in old(network.members) && m.poolId !in PoolIds(poolList[..j]) ==> m in network.members
        invariant forall f :: f in network.fips ==> f in old(network.fips)
        invariant forall f :: f in old(network.fips) && (forall m :: m in old(network.members) && m.poolId in PoolIds(poolList[..j]) ==> m.address != f.address) ==>
          f in network.fips
        invariant network.monitors <= old(network.monitors)
        invariant forall mon :: mon in old(network.monitors) && (forall k :: 0 <= k < j ==> mon !in poolList[k].monitorIds) ==> mon in network.monitors
        invariant network.vips == old(network.vips) && network.nextId == old(network.nextId)
      {
        assert PoolIds(poolList[..j + 1]) == PoolIds(poolList[..j]) + {poolList[j].id} by {
          assert poolList[..j + 1] == poolList[..j] + [poolList[j]];
        }
        err := DeletePoolAndMonitors(poolList[j]);
        if err.Some? {
          PoolsDealtWith(poolList, j);
          return;
        }
        j := j + 1;
      }
      PoolsDealtWith(poolList, j);
      forall p | p in poolList ensures
        && (p.status != PendingDelete ==> p.id !in PoolIds(network.pools))
        && (forall mon :: mon in p.monitorIds ==> mon !in network.monitors)
      {
        var k :| 0 <= k < |poolList| && poolList[k] == p;
      }
      return None;
    }

    /**
     * `EnsureLoadBalancerDeleted`: the VIPs named after the load balancer are deleted, then
     * for each of their pools (or, without VIPs, each pool named after it) the members'
     * floating IPs, the monitors and the pool. Objects already in PENDING_DELETE are skipped
     * and "404 Not Found" answers to deletes are tolerated.
     */
    method EnsureLoadBalancerDeleted(name: string) returns (err: Option<Error>)
      requires network.Valid()
      modifies network
      ensures network.Valid()
      ensures old(VipsByName(network.ListVips(), name)).Err? && old(VipsByName(network.ListVips(), name)).error != ErrNotFound ==>
        err == Some(old(VipsByName(network.ListVips(), name)).error)
        && network.vips == old(network.vips) && network.pools == old(network.pools)
      ensures err.None? ==> forall v :: v in old(network.vips) && Contains(v.name, name) && v.status != PendingDelete ==>
        forall w :: w in network.vips ==> w.id != v.id
      ensures err.None? ==> forall p :: p in PoolsToDelete(old(network.vips), old(network.pools), name) ==>
        && (p.status != PendingDelete ==> p.id !in PoolIds(network.pools))
        && (forall mon :: mon in p.monitorIds ==> mon !in network.monitors)
      ensures err == Some(NilDereference) ==>
        exists v :: v in old(network.vips) && Contains(v.name, name) && forall p :: p in old(network.pools) ==> p.id != v.poolId
      ensures forall v :: v in network.vips ==> v in old(network.vips)
      ensures forall v ::
        && v in old(network.vips)
        && (forall w :: w in old(network.vips) && Contains(w.name, name) && w.status != PendingDelete ==> w.id != v.id)
        ==> v in network.vips
      ensures forall p :: p in old(network.pools) && p.id !in PoolIdsToDelete(old(network.vips), old(network.pools), name) ==>
        p in network.pools
      ensures forall m :: m in network.members ==> m in old(network.members)
      ensures forall m :: m in old(network.members) && m.poolId !in PoolIdsToDelete(old(network.vips), old(network.pools), name) ==>
        m in network.members
      ensures forall f :: f in network.fips ==> f in old(network.fips)
      ensures forall f ::
        && f in old(network.fips)
        && (forall m :: m in old(network.members) && m.poolId in PoolIdsToDelete(old(network.vips), old(network.pools), name) ==> m.address != f.address)
        ==> f in network.fips
      ensures network.monitors <= old(network.monitors)
      ensures forall mon ::
        && mon in old(network.monitors)
        && (forall p :: p in PoolsToDelete(old(network.vips), old(network.pools), name) ==> mon !in p.monitorIds)
        ==> mon in network.monitors
      ensures network.nextId == old(network.nextId)
    {
      var lookup := VipsByName(network.ListVips(), name);
      if lookup.Err? && lookup.error != ErrNotFound {
        return Some(lookup.error);
      }
      var vipList := if lookup.Ok? then lookup.value else [];
      assert forall v :: v in network.vips && Contains(v.name, name) <==> v in vipList;
      err := DeleteVips(vipList);
      if err.Some? {
        return;
      }
      var poolList: seq<Pool>;
      if |vipList| > 0 {
        err, poolList := CollectPools(vipList);
        if err.Some? {
          return;
        }
        CollectedPoolsCover(old(network.vips), network.pools, name, vipList, poolList);
      } else {
        var byName := PoolsByName(network.ListPools(), name);
        if byName.Err? && byName.error != ErrNotFound {
          return Some(byName.error);
        }
        poolList := if byName.Ok? then byName.value else [];
        assert forall p :: p in PoolsToDelete(old(network.vips), old(network.pools), name) ==> p in poolList;
        assert forall p :: p in poolList ==> p in PoolsToDelete(old(network.vips), old(network.pools), name);
      }
      assert PoolIds(poolList) <= PoolIdsToDelete(old(network.vips), old(network.pools), name);
      err := DeletePools(poolList);
    }
  }
}
