# Local disks, tessnet and OpenStack load balancers in a Kubernetes fork

This project models the core of a Kubernetes fork. That core has four parts:

- the OpenStack cloud provider (`openstack.go`): instances, addresses, flavors, status waits, ports, volumes and the Neutron LBaaS v1 load balancer;
- the local-disk volume plugin (`local_disk.go`);
- the tessnet network plugin's configuration (`tessnet/config.go`);
- the registry strategy for local volume claims (`localvolumeclaim/strategy.go`).

Each Dafny module follows one of these files:

| module | file | what it holds |
|---|---|---|
| `Wrappers` | `wrappers.dfy` | `Option` and `Result` |
| `GoText` | `gotext.dfy` | the Go `strings`, `strconv` and `%x` behaviour the core relies on: `TrimSpace`, `Trim` with a cutset, `Index`, `Fields`, `Split`, `Atoi`, hex formatting |
| `OpenStackCommon` | `openstack_common.dfy` | errors, statuses, the shared status switch |
| `OpenStackInstances` | `openstack_instances.dfy` | `findAddrs`, server lookup by name and fqdn, address choice, `NodeAddresses`, flavors |
| `OpenStackWait` | `openstack_wait.dfy` | `timedWait`, `timedWaitForAll` |
| `OpenStackPorts` | `openstack_ports.dfy` | `getContainerPort`, `findDefaultPort`, `getVMPortIDbyFQDN` |
| `OpenStackVolumes` | `openstack_volumes.dfy` | `getVolume`, `AttachDisk`, `DetachDisk` |
| `OpenStackNeutron` | `openstack_neutron.dfy` | a model of the Neutron service the load balancer talks to |
| `OpenStackLb` | `openstack_lb.dfy` | lookups by name, `createPool`, `createMember`, `createVip`, floating IPs, `UpdateLoadBalancer`, `EnsureLoadBalancerDeleted` |
| `LocalDisk` | `local_disk.dfy` | the `[disks]`/`[lvm]` config file, `newUUID`, disk and volume-group registration, volume sources, provisioning, the delete guard |
| `TessnetConfig` | `tessnet_config.dfy` | `InitConfig`, `fillDefaults` |
| `LocalVolumeClaimStrategy` | `localvolumeclaim_strategy.dfy` | `PrepareForCreate`, both `PrepareForUpdate`s, validation, flags, selectable fields, the matcher |

## Modelling choices

**Outside services become inputs or a store.** What an outside service answers is an input:

- the compute API's server, flavor, port and volume pages;
- the status polls;
- the output of `blkid`, `df` and `vgs`;
- the random bytes;
- the decoded configuration.

Neutron is the exception. Its state is what the load balancer changes, so it is a class: `OpenStackNeutron.Neutron`. It holds:

- the sequences of pools, vips, members and floating IPs;
- the set of monitors;
- a counter that issues ids;
- a fault description saying which calls fail.

`Valid()` says every id is below the counter and names one entry. The store's own methods state its new contents exactly. The load-balancer methods state what they remove, add and leave standing: every object outside what they state they may touch survives.

**Go panics are explicit outcomes.** A nil dereference, a slice out of range or a failed type assertion is modelled as a value:

- `NilDereference` and `SlicePanic`;
- a `panicked` result;
- the `Panicked` outcome.

**Go string semantics are kept.** `strings.Trim` takes a cutset, not a prefix. `strings.Contains` is a substring test. `regexp.MatchString` is unanchored, and its `.` does not match a newline. `strconv.Atoi` errors read as 0, because the source ignores them.

**A Go range variable's address is kept.** `getPoolMembersByPodsList` stores `&pod` for every floating IP. In Go before 1.22 the loop reuses one variable, so every entry ends up naming the last pod. `PoolMembersByPods` states exactly that.

**An empty device overwrites the tessnet bridge.** In `fillDefaults`, an empty `Device` overwrites `Bridge` with "eth1". This happens even when a bridge was just defaulted to "obr0". The model follows the code.

## Model

| member | source | states |
|---|---|---|
| OpenStackCommon.StatusRule | pkg/cloudprovider/providers/openstack/openstack.go:999-1010 | ACTIVE is reused; PENDING_CREATE and ERROR are refused with their own errors; any other status is ignored. Each holds in both directions. |
| OpenStackInstances.FindAddrs | pkg/cloudprovider/providers/openstack/openstack.go:341-364 | A network entry that is not a list yields no addresses. |
| OpenStackInstances.AddrsOfMembership | pkg/cloudprovider/providers/openstack/openstack.go:341-364 | An address is reported exactly when some entry of the list is an object whose "addr" is that string. |
| OpenStackInstances.AddrsOfWellFormed | pkg/cloudprovider/providers/openstack/openstack.go:346-362 | A list of well-formed entries yields one address per entry, in order. |
| OpenStackInstances.NameScan | pkg/cloudprovider/providers/openstack/openstack.go:266-297 | The name walk keeps at most one server and fails only with ErrMultipleResults or a page that does not decode. |
| OpenStackInstances.NameScanSpec | pkg/cloudprovider/providers/openstack/openstack.go:266-297 | The name walk succeeds exactly when every page decodes and at most one server is listed, and then returns the servers listed. |
| OpenStackInstances.FqdnScan | pkg/cloudprovider/providers/openstack/openstack.go:305-330 | Every server the fqdn walk collects has that fqdn. |
| OpenStackInstances.ServerByFqdn | pkg/cloudprovider/providers/openstack/openstack.go:299-339 | A server found by fqdn carries that fqdn in its metadata. |
| OpenStackInstances.FqdnFirstPageDecides | pkg/cloudprovider/providers/openstack/openstack.go:320-325 | A first page without a match ends the search with ErrNotFound, whatever later pages hold. |
| OpenStackInstances.AllMatching | pkg/cloudprovider/providers/openstack/openstack.go:305-330 | The matching servers of a listing are exactly its servers with that fqdn. |
| OpenStackInstances.FqdnScanComplete | pkg/cloudprovider/providers/openstack/openstack.go:305-330 | Once something has matched, the walk collects every matching server of the remaining pages in order, or fails with the decoding error when a page does not decode. |
| OpenStackInstances.ServerByFqdnSpec | pkg/cloudprovider/providers/openstack/openstack.go:299-339 | With a match on the first page, the search returns the one matching server of the whole listing. Two or more matches give ErrMultipleResults, and a page that does not decode gives the decoding error. |
| OpenStackInstances.FqdnUniqueFound | pkg/cloudprovider/providers/openstack/openstack.go:299-339 | An fqdn held by exactly one server of a single page is found. |
| OpenStackInstances.ServerByNameOutcome | pkg/cloudprovider/providers/openstack/openstack.go:266-297 | The exact-name query's single server wins. In every other case the answer is the fqdn search's. |
| OpenStackInstances.ServerByNameNeverAmbiguousItself | pkg/cloudprovider/providers/openstack/openstack.go:287-296 | ErrMultipleResults from the name lookup can only come from the fqdn search. |
| OpenStackInstances.ServerAddress | pkg/cloudprovider/providers/openstack/openstack.go:372-391 | Picking an address fails only with ErrNoAddressFound. |
| OpenStackInstances.ServerAddressPriority | pkg/cloudprovider/providers/openstack/openstack.go:372-391 | The address is the first non-empty candidate among private, public, AccessIPv4 and AccessIPv6. ErrNoAddressFound is returned exactly when all four are empty. |
| OpenStackInstances.PrivateAddressWins | pkg/cloudprovider/providers/openstack/openstack.go:374-377 | A non-empty first private address is always the one chosen. |
| OpenStackInstances.AddressByName | pkg/cloudprovider/providers/openstack/openstack.go:366-393 | A found server's address choice is the result, an error included. A lookup error is returned unchanged. |
| OpenStackInstances.PrivateNetworkExamples | pkg/cloudprovider/providers/openstack/openstack.go:501-503 | `^kubernetes.*tess-network$` accepts "kubernetes-tess-network" and "kubernetestess-network". It rejects a suffix after "tess-network" and a missing "kubernetes" prefix. |
| OpenStackInstances.Tagged | pkg/cloudprovider/providers/openstack/openstack.go:504-516 | One node address of the given kind per address, in order. |
| OpenStackInstances.ClassifiedMembership | pkg/cloudprovider/providers/openstack/openstack.go:500-518 | An address is classified with a kind exactly when a network of that kind lists it. |
| OpenStackInstances.FlavorTable | pkg/cloudprovider/providers/openstack/openstack.go:200-225 | A flavor walk that completes keeps every id already in the table. |
| OpenStackInstances.FlavorTableSpec | pkg/cloudprovider/providers/openstack/openstack.go:200-225 | The walk fails exactly when some page does not decode. Otherwise the table is the old one with every listed flavor added in listing order. |
| OpenStackInstances.AddFlavorsAppend | pkg/cloudprovider/providers/openstack/openstack.go:208-219 | Adding two runs of flavors one after the other is adding their concatenation. |
| OpenStackInstances.AddFlavors | pkg/cloudprovider/providers/openstack/openstack.go:208-219 | The table's ids are the old ids plus every listed flavor id. |
| OpenStackInstances.AddFlavorsLastWins | pkg/cloudprovider/providers/openstack/openstack.go:218 | The entry for an id is the capacity of the last flavor listed with that id. |
| OpenStackInstances.AddFlavorsKeeps | pkg/cloudprovider/providers/openstack/openstack.go:208-219 | An id that no listed flavor carries keeps its entry. |
| OpenStackInstances.NodeResourcesOf | pkg/cloudprovider/providers/openstack/openstack.go:556-583 | A lookup error is passed on. A missing or non-string flavor id gives ErrAttrNotFound. An id the table lacks gives ErrNotFound, and an id it has gives that entry. |
| OpenStackInstances.NodeResourcesFromFlavors | pkg/cloudprovider/providers/openstack/openstack.go:556-583 | A node's resources are those of the last listed flavor with its flavor id: the vCPU count, RAM and swap in MiB and disk in decimal GB. An id no listed flavor carries gives ErrNotFound. |
| OpenStackWait.WaitFrom | pkg/cloudprovider/providers/openstack/openstack.go:396-439 | The wait consumes polls only forward and never waits beyond 300 seconds. |
| OpenStackWait.TimedWait | pkg/cloudprovider/providers/openstack/openstack.go:396-439 | The loop ends as the wait function says. Its error is nil on reaching the status, ErrLBErrorStatus on ERROR and ErrLBTimedOut after the timeout. |
| OpenStackWait.WaitIsOutcome | pkg/cloudprovider/providers/openstack/openstack.go:400-438 | Failed fetches are retried without waiting. The wait is decided by the successful observations, with a budget of the sleeps still left before the 300-second timeout. |
| OpenStackWait.OutcomeReached | pkg/cloudprovider/providers/openstack/openstack.go:424-426 | The desired status is reached exactly when the first observation that is desired or ERROR is desired and falls within the budget. |
| OpenStackWait.OutcomeTimedOut | pkg/cloudprovider/providers/openstack/openstack.go:431-434 | Timing out happens exactly when more observations than the budget arrive and none of the first budget+1 is desired or ERROR. |
| OpenStackWait.TimedWaitReached | pkg/cloudprovider/providers/openstack/openstack.go:396-439 | The wait succeeds exactly when the first decisive status among the first 61 observations is the desired one. |
| OpenStackWait.TimedWaitTimesOutAfter61 | pkg/cloudprovider/providers/openstack/openstack.go:431-437 | ErrLBTimedOut comes exactly after 61 observations that are neither desired nor ERROR. |
| OpenStackWait.UnknownKindWait | pkg/cloudprovider/providers/openstack/openstack.go:402-423 | For an object type other than pool, member or vip, the status stays "". The wait then succeeds at once if "" is desired, and otherwise times out without fetching. |
| OpenStackWait.Judge | pkg/cloudprovider/providers/openstack/openstack.go:460-469 | A listing fails exactly when some member is in ERROR. It is complete exactly when every member is ACTIVE. |
| OpenStackWait.TimedWaitForAll | pkg/cloudprovider/providers/openstack/openstack.go:444-481 | The loop's result is the wait-for-all function's. |
| OpenStackWait.FirstListingAllActive | pkg/cloudprovider/providers/openstack/openstack.go:470-480 | All members ACTIVE at the first listing ends the wait with nil. |
| OpenStackWait.SingleMemberListedOnce | pkg/cloudprovider/providers/openstack/openstack.go:458 | As written, a single pending member is listed once. The wait then times out even though the member is ACTIVE at the next listing. |
| OpenStackWait.WaitAllBoundedSucceeds | pkg/cloudprovider/providers/openstack/openstack.go:446-451 | With the 18-retry bound, a listing that is all ACTIVE within 18 retries, with no ERROR before it, succeeds. |
| OpenStackWait.SingleMemberBoundedSucceeds | pkg/cloudprovider/providers/openstack/openstack.go:446-451 | With the 18-retry bound, the single-member case above succeeds. |
| OpenStackPorts.FirstMatch | pkg/cloudprovider/providers/openstack/openstack.go:1650-1656 | The index returned is the first port matching the name and protocol, or the number of ports. |
| OpenStackPorts.FindDefaultPortSpec | pkg/cloudprovider/providers/openstack/openstack.go:1649-1658 | The result is the container port of the first port with the protocol, or the service port when there is none. |
| OpenStackPorts.NamedTargetSpec | pkg/cloudprovider/providers/openstack/openstack.go:1628-1639 | A named target port fails exactly when no port has that name and protocol. Otherwise it is such a port's container port. |
| OpenStackPorts.NumericTargetSpec | pkg/cloudprovider/providers/openstack/openstack.go:1640-1644 | A non-zero numeric target port is used as it is. Zero falls back to the default port. |
| OpenStackPorts.PortOfPage | pkg/cloudprovider/providers/openstack/openstack.go:1094-1116 | The port walk continues exactly after a page of one or two ports. |
| OpenStackPorts.VmPortIdByFqdn | pkg/cloudprovider/providers/openstack/openstack.go:1085-1124 | A server lookup error is returned. Otherwise the result is the chosen port, and an empty choice is an error. |
| OpenStackPorts.SinglePageChoice | pkg/cloudprovider/providers/openstack/openstack.go:1099-1114 | One port is chosen. Of two ports, the first is chosen if it has several fixed IPs, else the second. Zero or more than two ports give no choice. |
| OpenStackPorts.LaterPageErrorIgnored | pkg/cloudprovider/providers/openstack/openstack.go:1094-1120 | A port chosen on the first page survives a later page that does not decode. |
| OpenStackPorts.PortScanProvenance | pkg/cloudprovider/providers/openstack/openstack.go:1094-1116 | A chosen id is the id of a port of some page. |
| OpenStackVolumes.FirstAnswering | pkg/cloudprovider/providers/openstack/openstack.go:1548-1582 | The index returned is the first volume whose name equals the disk name or whose id contains it, or the number of volumes. |
| OpenStackVolumes.GetVolumeAnswers | pkg/cloudprovider/providers/openstack/openstack.go:1548-1582 | A volume returned answers to the disk name, unless no pages were listed. |
| OpenStackVolumes.PageVolume | pkg/cloudprovider/providers/openstack/openstack.go:1560-1568 | The volume a page contributes is one of its volumes and answers to the disk name. |
| OpenStackVolumes.GetVolumeSpec | pkg/cloudprovider/providers/openstack/openstack.go:1548-1582 | The lookup succeeds exactly when every page decodes and holds an answering volume, and returns the last page's first answering volume. Otherwise the first failing page decides the error: the decoding error, or "unable to find disk". |
| OpenStackVolumes.FirstPageWithoutMatch | pkg/cloudprovider/providers/openstack/openstack.go:1548-1582 | A first page without a match is an error, whatever later pages hold. |
| OpenStackVolumes.LastPageWins | pkg/cloudprovider/providers/openstack/openstack.go:1548-1582 | When two pages each hold a match, the later page's volume is returned. |
| OpenStackVolumes.DetachDisk | pkg/cloudprovider/providers/openstack/openstack.go:1516-1545 | Success means the volume is attached to this compute node. At most one detach is issued, and only for this node. |
| OpenStackVolumes.DetachDiskRequestsIff | pkg/cloudprovider/providers/openstack/openstack.go:1516-1545 | A detach is issued exactly when the volume is found attached to this node. |
| OpenStackVolumes.AttachAlreadyAttached | pkg/cloudprovider/providers/openstack/openstack.go:1467-1513 | A disk already attached here returns its id and issues no calls. |
| OpenStackVolumes.AttachElsewhereNotDetachable | pkg/cloudprovider/providers/openstack/openstack.go:1467-1513 | A disk attached elsewhere that may not be detached is an error and issues no calls. |
| OpenStackVolumes.AttachDiskRequests | pkg/cloudprovider/providers/openstack/openstack.go:1467-1513 | A success returns the found disk's id. The calls issued are detaches from other servers followed by one attach to this node. |
| OpenStackLb.PoolMethod | pkg/cloudprovider/providers/openstack/openstack.go:1036-1039 | The configured method is used, and ROUND_ROBIN when none is configured. |
| OpenStackLb.PoolsByName | pkg/cloudprovider/providers/openstack/openstack.go:636-675 | The pools returned are exactly those whose name contains the given name. ErrNotFound is returned only for an empty listing; a non-empty listing without a match gives an empty list. A listing error is passed on unless it is a 404. |
| OpenStackLb.VipsByName | pkg/cloudprovider/providers/openstack/openstack.go:679-718 | The vips returned are exactly those whose name contains the given name. No match is ErrNotFound, and a listing error is passed on unless it is a 404. |
| OpenStackLb.FirstDeciding | pkg/cloudprovider/providers/openstack/openstack.go:1047-1062 | The index returned is the first pool whose name holds the port and whose status decides. |
| OpenStackLb.PoolPlan | pkg/cloudprovider/providers/openstack/openstack.go:1040-1063 | A pool is created exactly when no pool holding the port in its name has a deciding status. A reused pool is ACTIVE and holds the port in its name, and a refusal is PENDING_CREATE or ERROR. |
| OpenStackLb.MemberPlan | pkg/cloudprovider/providers/openstack/openstack.go:979-1011 | More than one member is an error. A member is created exactly when none, or one with an ignored status, is listed. A reused member is the single ACTIVE one. |
| OpenStackLb.VipPlan | pkg/cloudprovider/providers/openstack/openstack.go:931-955 | More than one vip is an error. A vip is created exactly when the lookup finds none, or one with an ignored status. A reused vip is the single ACTIVE one. |
| OpenStackLb.TargetPort | pkg/cloudprovider/providers/openstack/openstack.go:1013-1016 | A missing service port is a nil dereference. A failed port lookup becomes "failed get target port". |
| OpenStackLb.PoolLookupBySubstring | pkg/cloudprovider/providers/openstack/openstack.go:1048 | The port is matched as a substring: the pool "<name>-8080" is reused for port 80. |
| OpenStackLb.FindDecidingPool | pkg/cloudprovider/providers/openstack/openstack.go:1045-1062 | The loop finds the first deciding pool. |
| OpenStackLb.CopyMembers | pkg/cloudprovider/providers/openstack/openstack.go:1239-1241 | The working member set becomes the old set overwritten by the pool members. |
| OpenStackLb.CopyPods | pkg/cloudprovider/providers/openstack/openstack.go:1242-1244 | The working pod map becomes the old map overwritten by the pod map. |
| OpenStackLb.CopyPoolMembersForVip | pkg/cloudprovider/providers/openstack/openstack.go:1237-1245 | Both working maps are overwritten by their sources, and nothing else changes. |
| OpenStackLb.CopyOverCoveredKeys | pkg/cloudprovider/providers/openstack/openstack.go:1275-1277 | Copying over a map whose keys the source covers yields the source, so every vip starts from the full member set. |
| OpenStackLb.PortMap | pkg/cloudprovider/providers/openstack/openstack.go:1268-1273 | Every service port number is mapped, and to a service port with that number. |
| OpenStackLb.PortMapLastWins | pkg/cloudprovider/providers/openstack/openstack.go:1270-1273 | The last service port with a given number wins. |
| OpenStackLb.BuildPortMap | pkg/cloudprovider/providers/openstack/openstack.go:1268-1273 | The loop builds the port map. |
| OpenStackLb.SyncedPoolsStay | pkg/cloudprovider/providers/openstack/openstack.go:1275-1317 | Syncing one vip's pool leaves the pools synced earlier as they were. |
| OpenStackLb.CollectedPoolsCover | pkg/cloudprovider/providers/openstack/openstack.go:1348-1367 | The pools collected for the vips are exactly the pools that deletion is meant to remove. |
| OpenStackLb.LoadBalancer.CreatePool | pkg/cloudprovider/providers/openstack/openstack.go:1034-1083 | A decided lookup's result is returned and nothing is created. Otherwise pool "<name>-<port>" is appended in PENDING_CREATE with the configured method, and the wait for ACTIVE decides the result. A quota fault creates nothing. |
| OpenStackLb.LoadBalancer.CreateMember | pkg/cloudprovider/providers/openstack/openstack.go:978-1027 | A decided listing's result is returned and nothing is created. A missing target port is an error. Otherwise a PENDING_CREATE member with the pool, address and target port is appended. Other collections do not change. |
| OpenStackLb.LoadBalancer.CreateVip | pkg/cloudprovider/providers/openstack/openstack.go:929-975 | A decided lookup's result is returned. Otherwise vip "<name>-<port>" is appended, with the requested address or else Neutron's. |
| OpenStackLb.LoadBalancer.DeleteFloatingIp | pkg/cloudprovider/providers/openstack/openstack.go:1425-1448 | No match is nil. More than one match is an error and deletes nothing. One match is deleted. Success leaves no floating IP with that address, and every other floating IP remains. |
| OpenStackLb.LoadBalancer.FindFloatingIp | pkg/cloudprovider/providers/openstack/openstack.go:1126-1163 | An invalid pod IP is an error. Otherwise the result is the first listed floating IP's address, or "". A non-empty result belongs to the port and pod IP. At most one match leaves the floating IPs unchanged, and a floating IP of another port or IP always remains. |
| OpenStackLb.LoadBalancer.CreateFloatingIpForPod | pkg/cloudprovider/providers/openstack/openstack.go:1165-1190 | A port lookup error, an invalid pod IP and a listing error are each returned with the floating IPs unchanged. A found floating IP is reused. With none found, one is created for the port and pod IP, or the create error is returned. A success names a floating IP of that port and pod IP. The only floating IP added is the new one, and only floating IPs of that port and IP can go. |
| OpenStackLb.LoadBalancer.PoolMembersByPods | pkg/cloudprovider/providers/openstack/openstack.go:1220-1235 | The first pod whose floating IP fails ends the walk with empty maps. On success every collected address serves some pod and every pod is served. Every member is true, and every entry of the pod map is the last pod. Only floating IPs for the pods are added, and only floating IPs bound to a pod can go. |
| OpenStackLb.LoadBalancer.PruneMember | pkg/cloudprovider/providers/openstack/openstack.go:1286-1302 | A wanted member is struck from the working set. Any other member is deleted with its floating IP, and every other member remains. Floating IPs at other addresses remain, and while the member stays no floating IP changes. |
| OpenStackLb.LoadBalancer.PruneMembers | pkg/cloudprovider/providers/openstack/openstack.go:1280-1308 | A listing error is passed on. On success, the pool's remaining members are exactly wanted addresses now struck from the working set. Every removed member's floating IP is gone, and other pools' members remain. A floating IP at no removed member's address remains. |
| OpenStackLb.LoadBalancer.AddMembers | pkg/cloudprovider/providers/openstack/openstack.go:1310-1316 | On success every address left in the working set is a member of the pool. Only such members are added, and none is removed. |
| OpenStackLb.LoadBalancer.SyncPool | pkg/cloudprovider/providers/openstack/openstack.go:1277-1316 | On success the pool's member addresses are exactly the wanted ones, and removed members lost their floating IPs. Other pools are untouched, and a floating IP at no address of the pool's old members remains. |
| OpenStackLb.LoadBalancer.SyncPools | pkg/cloudprovider/providers/openstack/openstack.go:1275-1318 | On success every listed vip's pool has exactly the wanted member addresses. Removed members lost their floating IPs, and pools of unlisted vips are untouched. A floating IP that is not wanted and is at no address of the synced pools' old members remains. |
| OpenStackLb.LoadBalancer.UpdateLoadBalancer | pkg/cloudprovider/providers/openstack/openstack.go:1247-1319 | A vip lookup error and a service fetch error are returned with members and floating IPs unchanged. On success the wanted addresses serve the pods, and every pool behind a vip of that name has exactly those member addresses. Only those pools' members change. Floating IPs are added only for the pods. A floating IP survives when it is bound to no pod, not wanted, and at no address of those pools' old members. |
| OpenStackLb.LoadBalancer.DeletePoolMembers | pkg/cloudprovider/providers/openstack/openstack.go:1405-1423 | A listing error is passed on. On success no floating IP remains for any member of the pool, and the members themselves stay. A floating IP at no address of the pool's members remains. |
| OpenStackLb.LoadBalancer.DeleteVips | pkg/cloudprovider/providers/openstack/openstack.go:1331-1347 | On success every listed vip not in PENDING_DELETE is gone. A 404 is never returned, and only vips are removed. A vip whose id no such listed vip carries remains. |
| OpenStackLb.LoadBalancer.CollectPools | pkg/cloudprovider/providers/openstack/openstack.go:1349-1357 | The pools are collected one per vip, each the vip's pool. A nil dereference means some vip's pool is gone. |
| OpenStackLb.LoadBalancer.DropMonitor | pkg/cloudprovider/providers/openstack/openstack.go:1375-1383 | A monitor is disassociated from the pool and deleted. A 404 on the delete is tolerated, and on success the monitor is gone. Other pools and other monitors remain, and members, floating IPs and vips are unchanged. |
| OpenStackLb.LoadBalancer.DeletePoolMonitors | pkg/cloudprovider/providers/openstack/openstack.go:1373-1385 | On success every monitor of the pool is deleted, and the pools stay. Other pools, other monitors, members, floating IPs and vips are unchanged. |
| OpenStackLb.LoadBalancer.DeletePoolAndMonitors | pkg/cloudprovider/providers/openstack/openstack.go:1370-1396 | On success the pool's monitors are deleted, and so is the pool unless it is PENDING_DELETE. Other pools, other pools' members, other monitors and vips remain, and so does every floating IP at no address of the pool's members. |
| OpenStackLb.LoadBalancer.DeletePools | pkg/cloudprovider/providers/openstack/openstack.go:1369-1400 | On success every listed pool's monitors are deleted, and so is every listed pool not in PENDING_DELETE. Unlisted pools, their members, other monitors and vips remain, and so does every floating IP at no address of the listed pools' members. |
| OpenStackLb.LoadBalancer.EnsureLoadBalancerDeleted | pkg/cloudprovider/providers/openstack/openstack.go:1321-1403 | A lookup error other than ErrNotFound is returned with no change. On success the named vips not in PENDING_DELETE are gone, with their pools (or, without vips, the pools of that name) and those pools' monitors. A nil dereference means a vip's pool was already gone. Other vips, pools, members and monitors remain, and so does every floating IP at no address of the doomed pools' members. |
| LocalDisk.HeaderType | pkg/volume/local_disk/local_disk.go:113-117 | A header opens "disks", "lvm", or no section. |
| LocalDisk.Section | pkg/volume/local_disk/local_disk.go:108-119 | The section in effect is "", "disks" or "lvm". |
| LocalDisk.ParsedKeys | pkg/volume/local_disk/local_disk.go:108-124 | The parsed map's keys are among "disks" and "lvm". |
| LocalDisk.ParsedIsCollected | pkg/volume/local_disk/local_disk.go:108-124 | A section is in the map exactly when some line is collected under it. Its entries are the trimmed non-header lines under it, in file order, blank lines included. |
| LocalDisk.ParsedBeforeHeader | pkg/volume/local_disk/local_disk.go:120-122 | A file in which no section is ever opened parses to the empty map. |
| LocalDisk.LinesBeforeHeaderIgnored | pkg/volume/local_disk/local_disk.go:108-124 | Lines before any valid header change nothing: neither the section nor the map. |
| LocalDisk.ParseConfigFile | pkg/volume/local_disk/local_disk.go:94-126 | A file that cannot be opened gives the empty map. Otherwise the scanning loop yields the parsed map. |
| LocalDisk.Stamp | pkg/volume/local_disk/local_disk.go:135-138 | Byte 8's top two bits become 10 (section 4.1.1 of RFC 4122) and byte 6's top nibble becomes 0100 (section 4.1.3). Their other bits and all other bytes are unchanged. |
| LocalDisk.UuidText | pkg/volume/local_disk/local_disk.go:139 | The text is 36 characters: dashes at 8, 13, 18 and 23 and lowercase hex digits elsewhere. |
| LocalDisk.UuidTextRoundTrip | pkg/volume/local_disk/local_disk.go:139 | With its dashes removed, the text reads back as the 16 bytes in order. |
| LocalDisk.StampedUuidDigits | pkg/volume/local_disk/local_disk.go:135-139 | A stamped UUID's version digit is '4' and its variant digit is one of 8, 9, a, b. |
| LocalDisk.NewUuid | pkg/volume/local_disk/local_disk.go:129-140 | No random bytes is EOF, and fewer than 16 is "unexpected EOF". Otherwise the result is the text of the stamped first 16 bytes. |
| LocalDisk.BlkidUuid | pkg/volume/local_disk/local_disk.go:166-174 | No "UUID=" means exactly that no UUID is found. A UUID found has no quote and is followed by a quote, 6 characters after "UUID=". |
| LocalDisk.BlkidReadsUuid | pkg/volume/local_disk/local_disk.go:166-174 | Output shaped like `<device>: UUID="<uuid>"…` yields that UUID. |
| GoText.FieldsSpell | pkg/volume/local_disk/local_disk.go:192 | The fields `strings.Fields` splits a `df` line into, one after another, are the line's non-space characters in order; each field is non-empty and holds no space. |
| LocalDisk.SizeFieldFirst | pkg/volume/local_disk/local_disk.go:190-201 | The size is the second field of the first six-field line whose sixth field is the mount point. |
| LocalDisk.SizeFieldNone | pkg/volume/local_disk/local_disk.go:190-201 | There is no size field exactly when no line is mounted on the mount point. |
| LocalDisk.DfSizeReadsMegabytes | pkg/volume/local_disk/local_disk.go:202-203 | A size field "<n>MB" reads as n. |
| LocalDisk.ReadDfSize | pkg/volume/local_disk/local_disk.go:188-203 | The loop over `df` lines yields the df size. |
| LocalDisk.VgsSizeReadsMegabytes | pkg/volume/local_disk/local_disk.go:220-226 | Trimmed `vgs` output "<n>.<fraction>" reads as n. |
| LocalDisk.LocalVolume.constructor | pkg/volume/local_disk/local_disk.go:256 | A new local volume is empty. |
| LocalDisk.LocalVolume.RegisterBlockDisk | pkg/volume/local_disk/local_disk.go:142-210 | A mounted device, a failed format, a failed `blkid`, a missing UUID or a failed mount leaves the volume unchanged, and an uncuttable UUID panics. Otherwise it is named "lv-"+UUID, of type "disk", on /var/vol-pool/disks/UUID, with size and available size both the df size. |
| LocalDisk.LocalVolume.RegisterLvm | pkg/volume/local_disk/local_disk.go:212-234 | A failed `vgs` leaves the volume unchanged. Otherwise it is named "lv-"+the new UUID ("lv-" alone without enough random bytes), of type "lvm", on the trimmed path, with size and available size both the vgs size. |
| LocalDisk.RegisteredDiskCarriesUuid | pkg/volume/local_disk/local_disk.go:166-209 | A registered block device's name and mount point carry the UUID `blkid` printed. |
| LocalDisk.RegisteredLvmName | pkg/volume/local_disk/local_disk.go:228-229 | A volume group's name is "lv-" and a 36-character version-4 UUID. |
| LocalDisk.GetVolumeSource | pkg/volume/local_disk/local_disk.go:546-556 | The inline volume's source comes before the persistent volume's. With neither, the result is the error. The read-only flag is the spec's. |
| LocalDisk.CanSupportIffSource | pkg/volume/local_disk/local_disk.go:325-328 | The plugin supports a spec exactly when a volume source can be read from it. |
| LocalDisk.GetVolumeName | pkg/volume/local_disk/local_disk.go:316-323 | The name is the source's path, available exactly for supported specs. |
| LocalDisk.NewMounter | pkg/volume/local_disk/local_disk.go:340-349 | A mounter is built exactly for supported specs, with the source's path and the spec's read-only flag. |
| LocalDisk.NewProvisioner | pkg/volume/local_disk/local_disk.go:365-370 | Empty access modes become ReadWriteOnce, and given ones are kept. |
| LocalDisk.NewProvisionerDefaults | pkg/volume/local_disk/local_disk.go:334-338 | The provisioner's access modes are never empty, and defaulting is idempotent. |
| LocalDisk.Provision | pkg/volume/local_disk/local_disk.go:495-520 | The volume carries the options' name, policy, modes and capacity, and the created-by annotation. Its path is /tmp/localdisk_pv/<uuid>, and the mkdir error is returned beside it. |
| LocalDisk.UnderTmpContainsTmp | pkg/volume/local_disk/local_disk.go:539-540 | A path passing the guard contains "/tmp/". |
| LocalDisk.UnderTmpRejects | pkg/volume/local_disk/local_disk.go:539-540 | "/tmp/" alone, and "/tmp/" followed only by a newline, fail the guard. |
| LocalDisk.Delete | pkg/volume/local_disk/local_disk.go:538-544 | A path failing the guard gets the error naming it. Otherwise the removal's error is returned. |
| LocalDisk.ProvisionedPathDeletable | pkg/volume/local_disk/local_disk.go:496 | Every provisioned path passes the delete guard, whatever the UUID. |
| LocalDisk.NewRecycler | pkg/volume/local_disk/local_disk.go:372-385 | A recycler is built exactly for a persistent volume with a local-disk source, carrying its path. |
| LocalDisk.NewDeleterAsWritten | pkg/volume/local_disk/local_disk.go:387-393 | As written, a spec without a persistent volume is dereferenced. A deleter that is built agrees with the corrected one. |
| LocalDisk.InlineSpecCrashesDeleter | pkg/volume/local_disk/local_disk.go:387-393 | An inline local-disk volume, which the plugin supports, crashes the deleter as written. |
| LocalDisk.NewDeleter | pkg/volume/local_disk/local_disk.go:387-393 | Corrected: a deleter is built exactly for a persistent volume with a local-disk source. |
| LocalDisk.ProvisionedVolumeDeletes | pkg/volume/local_disk/local_disk.go:387-393 | A provisioned volume gets a deleter whose path passes the guard. |
| TessnetConfig.WithDefaults | pkg/kubelet/network/tessnet/config.go:55-74 | Pipework, bridge and socket get their defaults when empty, and an empty device makes the bridge "eth1". All other fields are kept. |
| TessnetConfig.DefaultsFillEmptyFields | pkg/kubelet/network/tessnet/config.go:55-74 | After the defaults, pipework, bridge and socket are non-empty. |
| TessnetConfig.DefaultsIdempotent | pkg/kubelet/network/tessnet/config.go:55-74 | Filling the defaults twice is filling them once. |
| TessnetConfig.SampleConfigKeepsValues | pkg/kubelet/network/tessnet/config_test.go:88-110 | The test configuration's values survive the defaults. |
| TessnetConfig.Config.FillDefaults | pkg/kubelet/network/tessnet/config.go:55-74 | The configuration becomes its defaulted value, and the error is nil. |
| TessnetConfig.ConfigPath | pkg/kubelet/network/tessnet/config.go:29-37 | The path is the argument, else TESS_CONFIG, else /etc/sysconfig/tess, and never empty. |
| TessnetConfig.InitConfig | pkg/kubelet/network/tessnet/config.go:28-53 | The file at the chosen path is read. A decode error returns the decoded configuration with the error. Otherwise the defaults are filled and the error is nil. |
| LocalVolumeClaimStrategy.NamespaceScoped | pkg/registry/localvolumeclaim/strategy.go:42-44 | Claims are namespaced. |
| LocalVolumeClaimStrategy.AllowCreateOnUpdate | pkg/registry/localvolumeclaim/strategy.go:62-64 | An update does not create a claim. |
| LocalVolumeClaimStrategy.AllowUnconditionalUpdate | pkg/registry/localvolumeclaim/strategy.go:79-81 | Unconditional updates are allowed. |
| LocalVolumeClaimStrategy.PrepareForCreate | pkg/registry/localvolumeclaim/strategy.go:47-50 | A claim's status is reset, with spec and metadata untouched. Another object panics. |
| LocalVolumeClaimStrategy.Validate | pkg/registry/localvolumeclaim/strategy.go:52-56 | No errors. |
| LocalVolumeClaimStrategy.PrepareForUpdate | pkg/registry/localvolumeclaim/strategy.go:67-71 | The new claim takes the old claim's status and keeps its own spec and metadata. A non-claim panics. |
| LocalVolumeClaimStrategy.ValidateUpdate | pkg/registry/localvolumeclaim/strategy.go:73-77 | No errors. |
| LocalVolumeClaimStrategy.PrepareForStatusUpdate | pkg/registry/localvolumeclaim/strategy.go:90-94 | The new claim takes the old claim's spec and keeps its own status and metadata. A non-claim panics. |
| LocalVolumeClaimStrategy.ValidateStatusUpdate | pkg/registry/localvolumeclaim/strategy.go:96-99 | No errors. |
| LocalVolumeClaimStrategy.SelectableFields | pkg/registry/localvolumeclaim/strategy.go:114-121 | "name" maps to the claim's name. The other keys are the metadata fields, with their values. |
| LocalVolumeClaimStrategy.Match | pkg/registry/localvolumeclaim/strategy.go:102-112 | A non-claim is the error "not a localvolumeclaim". A claim matches exactly when its labels satisfy the label selector and its selectable fields satisfy the field selector. |

## Left out

- Pagination of Neutron listings is collapsed to one listing per call. Paging is kept where its quirks matter: server lookup, volume lookup and port lookup.
- The goroutine fan-out of `EnsureLoadBalancer` and `createPort` is left out; it is concurrency.
- HTTP calls, authentication, `getKubeClient`, `getServicePodListbyLBName` and `getServiceNamefromlbname` are left out. What they fetch, or their error, is an input to `UpdateLoadBalancer`. Each pod comes with the answer `getVMPortIDbyFQDN` gives for its node, whether its IP parses, and the address Neutron would allocate for it.
- OpenStackLb.LoadBalancer.UpdateLoadBalancer: a floating IP at a wanted address or at an old member's address is not promised to survive. Two members of one pool at the same wanted address make the second one's deletion delete the floating IP the first one still uses.
- OpenStackLb.LoadBalancer.PoolMembersByPods: when two pods share a node port and pod IP, which of their floating IPs survives the clean-up of extras is not stated.
- `MyDuration` parsing, the monitor delay conversion and the float RxTxFactor are left out; they are floating point or configuration parsing.
- `AddToNodeAddresses`, the label and field selectors and `ObjectMetaFieldsSet` are left out. The selectors are function parameters, and the metadata fields are a map parameter.
- OpenStackWait.TimedWait: the status that polling writes back into the caller's object is not modelled; only the returned error and the polls consumed are.
- OpenStackLb.LoadBalancer.FindFloatingIp: when several floating IPs match, the extra ones are cleaned up best-effort and their errors are ignored. The contract does not say which of them are removed, only that nothing else changes.
- LocalDisk: the shell commands (`mkfs.ext4`, `blkid`, `mount`, `df`, `vgs`), `mount.GetMounts`, `MkdirAll`, `RemoveAll` and `rand.Reader` are inputs: their outputs, success flags and errors.
- LocalDisk.ParseConfigFile: the file is given as its lines. `bufio.Scanner`'s line splitting, its carriage-return stripping and its 64 KiB line limit are not modelled.
- `initLocalDisk`, the asynchronous registration loop that posts volumes to the API server, is not part of this model.
- Recycling (`Recycle`) builds a pod through the API server and is not part of this model. Neither are the trivial mounter and unmounter hooks (`SetUp`, `TearDown`, `GetAttributes`).
- TessnetConfig: reading the file and JSON decoding are an input function. `writeConfigToFile` and `PersistToFile` are not part of this model.
- `net_linux.go`, `tessnet.go`, `net.go`, the generated clients, the fakes, `etcd.go`, `localvolume/strategy.go` and the keystone authenticator are not part of this model.
- LocalVolumeClaimStrategy: the claim's spec and status are reduced to a few fields, since the strategy only copies them whole.

## Findings

| source | as written | input that shows it | evidently intended | confidence | as-written member | corrected member |
|---|---|---|---|---|---|---|
| pkg/cloudprovider/providers/openstack/openstack.go:458 | `maxRetries = len(memList)` sets the retry limit to the member count on every listing | one member still PENDING_CREATE at the first listing and ACTIVE at the second: the wait returns ErrLBTimedOut after a single listing | up to 18 retries (`maxRetries := 18`), whatever the member count | medium, not executed | OpenStackWait.SingleMemberListedOnce | OpenStackWait.WaitAllBoundedSucceeds |
| pkg/volume/local_disk/local_disk.go:388 | `spec.PersistentVolume != nil && spec.PersistentVolume.Spec.LocalDisk == nil` lets a spec without a persistent volume through to `spec.PersistentVolume.Spec` | a spec with only an inline local-disk volume: nil dereference | the test `newRecycler` uses (`== nil \|\| ... == nil`), returning the error | medium, not executed; callers normally build the spec from a persistent volume | LocalDisk.InlineSpecCrashesDeleter | LocalDisk.NewDeleter |
