/**
 * The compute side of the OpenStack cloud provider: finding a server by name or by its
 * "fqdn" metadata, extracting its addresses, classifying them for the node, and turning
 * flavors into node resources (openstack.go).
 */
module OpenStackInstances {
  import opened Wrappers
  import opened GoText
  import opened OpenStackCommon

  /** A JSON value as the compute API hands it to Go in an `interface{}`. */
  datatype Json =
    | JNull
    | JBool(b: bool)
    | JNumber(n: int)
    | JString(s: string)
    | JList(items: seq<Json>)
    | JObject(fields: map<string, Json>)

  /** Indexing a Go `map[string]interface{}`: a missing key reads as nil. */
  function Lookup(m: map<string, Json>, key: string): Json {
    if key in m then m[key] else JNull
  }

  /** The fields of a compute server the provider reads. */
  datatype Server = Server(
    id: string,
    addresses: map<string, Json>,
    accessIPv4: string,
    accessIPv6: string,
    metadata: map<string, Json>,
    flavor: map<string, Json>)

  // ---------------------------------------------------------------------------
  // findAddrs
  // ---------------------------------------------------------------------------

  /** The "addr" string of one address entry, when the entry is an object holding one. */
  function AddrOf(item: Json): Option<string> {
    if item.JObject? && "addr" in item.fields && item.fields["addr"].JString?
    then Some(item.fields["addr"].s)
    else None
  }

  /** The "addr" strings of a list of address entries, in order, skipping malformed entries. */
  function AddrsOf(items: seq<Json>): (r: seq<string>)
    ensures |r| <= |items|
  {
    if items == [] then []
    else
      (match AddrOf(items[0]) case Some(a) => [a] case None => []) + AddrsOf(items[1..])
  }

  /** `findAddrs`: the addresses of one network's entry; anything but a list yields none. */
  function FindAddrs(netblob: Json): (r: seq<string>)
    ensures !netblob.JList? ==> r == []
  {
    if netblob.JList? then AddrsOf(netblob.items) else []
  }

  lemma {:induction false} AddrsOfAppend(a: seq<Json>, b: seq<Json>)
    ensures AddrsOf(a + b) == AddrsOf(a) + AddrsOf(b)
    decreases |a|
  {
    if a == [] {
      assert a + b == b;
    } else {
      var head := match AddrOf(a[0]) case Some(x) => [x] case None => [];
      assert (a + b)[0] == a[0] && (a + b)[1..] == a[1..] + b;
      AddrsOfAppend(a[1..], b);
      assert AddrsOf(a + b) == head + AddrsOf(a[1..] + b);
      assert AddrsOf(a) == head + AddrsOf(a[1..]);
    }
  }

  /** An address is reported exactly when some entry of the list carries it. */
  lemma {:induction false} AddrsOfMembership(items: seq<Json>, addr: string)
    ensures addr in AddrsOf(items) <==> exists j :: 0 <= j < |items| && AddrOf(items[j]) == Some(addr)
    decreases |items|
  {
    if items != [] {
      AddrsOfMembership(items[1..], addr);
      if exists j :: 0 <= j < |items[1..]| && AddrOf(items[1..][j]) == Some(addr) {
        var j :| 0 <= j < |items[1..]| && AddrOf(items[1..][j]) == Some(addr);
        assert AddrOf(items[j + 1]) == Some(addr);
      }
      if exists j :: 0 <= j < |items| && AddrOf(items[j]) == Some(addr) {
        var j :| 0 <= j < |items| && AddrOf(items[j]) == Some(addr);
        if j > 0 {
          assert AddrOf(items[1..][j - 1]) == Some(addr);
        }
      }
    }
  }

  /** Every well-formed entry contributes exactly one address. */
  lemma {:induction false} AddrsOfWellFormed(items: seq<Json>)
    requires forall j :: 0 <= j < |items| ==> AddrOf(items[j]).Some?
    ensures |AddrsOf(items)| == |items|
    ensures forall j :: 0 <= j < |items| ==> AddrsOf(items)[j] == AddrOf(items[j]).value
    decreases |items|
  {
    if items != [] {
      AddrsOfWellFormed(items[1..]);
    }
  }

  // ---------------------------------------------------------------------------
  // getServerByName / getServerByFQDN
  // ---------------------------------------------------------------------------

  /** One page of a server listing: the servers it holds, or a page that does not decode. */
  datatype ServerPage = ServerPage(servers: seq<Server>) | MalformedServerPage

  /** Whether a server's "fqdn" metadata is the string `fqdn` (Go's interface comparison). */
  predicate FqdnIs(srv: Server, fqdn: string) {
    Lookup(srv.metadata, "fqdn") == JString(fqdn)
  }

  function Matching(servers: seq<Server>, fqdn: string): (r: seq<Server>)
    ensures |r| <= |servers|
    ensures forall k :: 0 <= k < |r| ==> FqdnIs(r[k], fqdn)
    ensures (forall k :: 0 <= k < |servers| ==> !FqdnIs(servers[k], fqdn)) ==> r == []
    ensures forall srv :: srv in r <==> srv in servers && FqdnIs(srv, fqdn)
  {
    if servers == [] then []
    else (if FqdnIs(servers[0], fqdn) then [servers[0]] else []) + Matching(servers[1..], fqdn)
  }

  /**
   * The page walk of `getServerByName`: servers accumulate across pages and the walk stops
   * with ErrMultipleResults as soon as more than one has been seen.
   */
  function NameScan(pages: seq<ServerPage>, acc: seq<Server>): (r: Result<seq<Server>, Error>)
    requires |acc| <= 1
    ensures r.Ok? ==> |r.value| <= 1
    ensures r.Err? ==> r.error in {ErrMultipleResults, ApiError("servers.ExtractServers")}
    decreases |pages|
  {
    if pages == [] then Ok(acc)
    else match pages[0]
      case MalformedServerPage => Err(ApiError("servers.ExtractServers"))
      case ServerPage(s) =>
        var acc' := acc + s;
        if |acc'| > 1 then Err(ErrMultipleResults) else NameScan(pages[1..], acc')
  }

  /**
   * The page walk of `getServerByFQDN`: matching servers accumulate, and the walk fails with
   * ErrNotFound at the first page after which nothing has matched yet.
   */
  function FqdnScan(pages: seq<ServerPage>, fqdn: string, acc: seq<Server>): (r: Result<seq<Server>, Error>)
    requires forall k :: 0 <= k < |acc| ==> FqdnIs(acc[k], fqdn)
    ensures r.Ok? ==> |r.value| >= |acc|
    ensures r.Ok? ==> forall k :: 0 <= k < |r.value| ==> FqdnIs(r.value[k], fqdn)
    decreases |pages|
  {
    if pages == [] then Ok(acc)
    else match pages[0]
      case MalformedServerPage => Err(ApiError("servers.ExtractServers"))
      case ServerPage(s) =>
        var acc' := acc + Matching(s, fqdn);
        if acc' == [] then Err(ErrNotFound) else FqdnScan(pages[1..], fqdn, acc')
  }

  /** `getServerByFQDN`, given the pages the compute API answers for the "." name query. */
  function ServerByFqdn(pages: seq<ServerPage>, fqdn: string): (r: Result<Server, Error>)
    ensures r.Ok? ==> FqdnIs(r.value, fqdn)
  {
    match FqdnScan(pages, fqdn, [])
    case Err(e) => Err(e)
    case Ok(list) =>
      if |list| == 0 then Err(ErrNotFound)
      else if |list| > 1 then Err(ErrMultipleResults)
      else Ok(list[0])
  }

  /**
   * `getServerByName`, given the pages answered for the exact-name query and those answered
   * for the fallback query. Any failure of the name walk, and an empty result, fall back to
   * the fqdn search.
   */
  function ServerByName(namePages: seq<ServerPage>, fqdnPages: seq<ServerPage>, name: string): (r: Result<Server, Error>)
  {
    match NameScan(namePages, [])
    case Err(_) => ServerByFqdn(fqdnPages, name)
    case Ok(list) =>
      if |list| == 0 then ServerByFqdn(fqdnPages, name)
      else if |list| > 1 then Err(ErrMultipleResults)
      else Ok(list[0])
  }

  /** All servers of a listing, page after page. */
  function AllServers(pages: seq<ServerPage>): seq<Server> {
    if pages == [] then []
    else (match pages[0] case ServerPage(s) => s case MalformedServerPage => []) + AllServers(pages[1..])
  }

  predicate WellFormed(pages: seq<ServerPage>) {
    forall k :: 0 <= k < |pages| ==> pages[k].ServerPage?
  }

  /** The name walk succeeds exactly when every page decodes and at most one server is listed. */
  lemma {:induction false} NameScanSpec(pages: seq<ServerPage>, acc: seq<Server>)
    requires |acc| <= 1
    ensures WellFormed(pages) && |acc + AllServers(pages)| <= 1 ==> NameScan(pages, acc) == Ok(acc + AllServers(pages))
    ensures NameScan(pages, acc).Ok? ==> WellFormed(pages) && |acc + AllServers(pages)| <= 1
    decreases |pages|
  {
    if pages == [] {
      assert acc + [] == acc;
    } else {
      assert WellFormed(pages) ==> WellFormed(pages[1..]);
      match pages[0]
      case MalformedServerPage =>
      case ServerPage(s) =>
        var acc' := acc + s;
        assert acc + AllServers(pages) == acc' + AllServers(pages[1..]);
        if |acc'| <= 1 {
          NameScanSpec(pages[1..], acc');
          if NameScan(pages, acc).Ok? {
            assert WellFormed(pages[1..]);
            forall k | 0 <= k < |pages| ensures pages[k].ServerPage? {
              if k > 0 { assert pages[k] == pages[1..][k - 1]; }
            }
          }
        }
    }
  }

  /** The exact-name query's one server wins; otherwise the answer is the fqdn search's. */
  lemma ServerByNameOutcome(namePages: seq<ServerPage>, fqdnPages: seq<ServerPage>, name: string)
    ensures WellFormed(namePages) && |AllServers(namePages)| == 1 ==>
      ServerByName(namePages, fqdnPages, name) == Ok(AllServers(namePages)[0])
    ensures !(WellFormed(namePages) && |AllServers(namePages)| == 1) ==>
      ServerByName(namePages, fqdnPages, name) == ServerByFqdn(fqdnPages, name)
  {
    NameScanSpec(namePages, []);
    assert [] + AllServers(namePages) == AllServers(namePages);
  }

  /** Because a second server aborts the name walk, the "more than one" branch after it is never taken. */
  lemma ServerByNameNeverAmbiguousItself(namePages: seq<ServerPage>, fqdnPages: seq<ServerPage>, name: string)
    ensures ServerByName(namePages, fqdnPages, name) == Err(ErrMultipleResults) ==>
      ServerByFqdn(fqdnPages, name) == Err(ErrMultipleResults)
  {
    ServerByNameOutcome(namePages, fqdnPages, name);
  }

  /** A first page with no matching server ends the fqdn search, whatever later pages hold. */
  lemma FqdnFirstPageDecides(s: seq<Server>, rest: seq<ServerPage>, fqdn: string)
    requires forall k :: 0 <= k < |s| ==> !FqdnIs(s[k], fqdn)
    ensures ServerByFqdn([ServerPage(s)] + rest, fqdn) == Err(ErrNotFound)
  {
    assert ([ServerPage(s)] + rest)[0] == ServerPage(s);
  }

  /** An fqdn held by exactly one server of a single well-formed page is found. */
  lemma FqdnUniqueFound(s: seq<Server>, fqdn: string, j: nat)
    requires j < |s| && FqdnIs(s[j], fqdn)
    requires forall k :: 0 <= k < |s| && k != j ==> !FqdnIs(s[k], fqdn)
    ensures ServerByFqdn([ServerPage(s)], fqdn) == Ok(s[j])
  {
    MatchingUnique(s, fqdn, j);
    assert [ServerPage(s)][1..] == [];
    assert [] + Matching(s, fqdn) == [s[j]];
    assert FqdnScan([ServerPage(s)], fqdn, []) == FqdnScan([], fqdn, [s[j]]);
  }

  lemma {:induction false} MatchingUnique(s: seq<Server>, fqdn: string, j: nat)
    requires j < |s| && FqdnIs(s[j], fqdn)
    requires forall k :: 0 <= k < |s| && k != j ==> !FqdnIs(s[k], fqdn)
    ensures Matching(s, fqdn) == [s[j]]
    decreases |s|
  {
    if j == 0 {
      assert Matching(s[1..], fqdn) == [] by {
        forall k | 0 <= k < |s[1..]| ensures !FqdnIs(s[1..][k], fqdn) {
          assert s[1..][k] == s[k + 1];
        }
      }
    } else {
      forall k | 0 <= k < |s[1..]| && k != j - 1 ensures !FqdnIs(s[1..][k], fqdn) {
        assert s[1..][k] == s[k + 1];
      }
      MatchingUnique(s[1..], fqdn, j - 1);
    }
  }

  /** Every server of a listing whose fqdn matches, page after page. */
  function AllMatching(pages: seq<ServerPage>, fqdn: string): (r: seq<Server>)
    ensures forall srv :: srv in r <==> srv in AllServers(pages) && FqdnIs(srv, fqdn)
  {
    if pages == [] then []
    else (match pages[0] case ServerPage(s) => Matching(s, fqdn) case MalformedServerPage => []) + AllMatching(pages[1..], fqdn)
  }

  /**
   * Once something has matched, the fqdn walk collects every matching server of the rest of
   * the listing, or fails on the first page that does not decode.
   */
  lemma {:induction false} FqdnScanComplete(pages: seq<ServerPage>, fqdn: string, acc: seq<Server>)
    requires acc != [] && forall k :: 0 <= k < |acc| ==> FqdnIs(acc[k], fqdn)
    ensures WellFormed(pages) ==> FqdnScan(pages, fqdn, acc) == Ok(acc + AllMatching(pages, fqdn))
    ensures !WellFormed(pages) ==> FqdnScan(pages, fqdn, acc) == Err(ApiError("servers.ExtractServers"))
    decreases |pages|
  {
    if pages == [] {
      assert acc + [] == acc;
    } else {
      assert WellFormed(pages) ==> WellFormed(pages[1..]);
      match pages[0]
      case MalformedServerPage =>
      case ServerPage(s) =>
        var acc' := acc + Matching(s, fqdn);
        assert acc + AllMatching(pages, fqdn) == acc' + AllMatching(pages[1..], fqdn);
        FqdnScanComplete(pages[1..], fqdn, acc');
        if !WellFormed(pages) {
          var k :| 0 <= k < |pages| && !pages[k].ServerPage?;
          assert pages[1..][k - 1] == pages[k];
        }
    }
  }

  /**
   * When the first page holds a match, the fqdn search answers the one matching server of
   * the whole listing, ErrMultipleResults when more than one server of the listing matches,
   * and the decoding error when some page does not decode.
   */
  lemma ServerByFqdnSpec(s: seq<Server>, rest: seq<ServerPage>, fqdn: string)
    requires Matching(s, fqdn) != []
    ensures var pages := [ServerPage(s)] + rest;
      && (WellFormed(pages) && |AllMatching(pages, fqdn)| == 1 ==> ServerByFqdn(pages, fqdn) == Ok(AllMatching(pages, fqdn)[0]))
      && (WellFormed(pages) && |AllMatching(pages, fqdn)| > 1 ==> ServerByFqdn(pages, fqdn) == Err(ErrMultipleResults))
      && (!WellFormed(pages) ==> ServerByFqdn(pages, fqdn) == Err(ApiError("servers.ExtractServers")))
  {
    var pages := [ServerPage(s)] + rest;
    assert pages[0] == ServerPage(s) && pages[1..] == rest;
    assert [] + Matching(s, fqdn) == Matching(s, fqdn);
    assert FqdnScan(pages, fqdn, []) == FqdnScan(rest, fqdn, Matching(s, fqdn));
    FqdnScanComplete(rest, fqdn, Matching(s, fqdn));
    assert AllMatching(pages, fqdn) == Matching(s, fqdn) + AllMatching(rest, fqdn);
    assert WellFormed(pages) <==> WellFormed(rest) by {
      if WellFormed(rest) {
        forall k | 0 <= k < |pages| ensures pages[k].ServerPage? {
          if k > 0 { assert pages[k] == rest[k - 1]; }
        }
      }
      if WellFormed(pages) {
        forall k | 0 <= k < |rest| ensures rest[k].ServerPage? {
          assert rest[k] == pages[k + 1];
        }
      }
    }
  }

  // ---------------------------------------------------------------------------
  // getAddressByName
  // ---------------------------------------------------------------------------

  function FirstOrEmpty(list: seq<string>): string {
    if |list| >= 1 then list[0] else ""
  }

  /** The four places an address is looked for, in priority order. */
  function AddressCandidates(srv: Server): seq<string> {
    [ FirstOrEmpty(FindAddrs(Lookup(srv.addresses, "private"))),
      FirstOrEmpty(FindAddrs(Lookup(srv.addresses, "public"))),
      srv.accessIPv4,
      srv.accessIPv6 ]
  }

  /**
   * The address `getAddressByName` picks for a server: the first non-empty of the first
   * "private" address, the first "public" address, AccessIPv4 and AccessIPv6.
   */
  function ServerAddress(srv: Server): (r: Result<string, Error>)
    ensures r.Err? ==> r.error == ErrNoAddressFound
  {
    var s1 := FirstOrEmpty(FindAddrs(Lookup(srv.addresses, "private")));
    var s2 := if s1 == "" then FirstOrEmpty(FindAddrs(Lookup(srv.addresses, "public"))) else s1;
    var s3 := if s2 == "" then srv.accessIPv4 else s2;
    var s4 := if s3 == "" then srv.accessIPv6 else s3;
    if s4 == "" then Err(ErrNoAddressFound) else Ok(s4)
  }

  /** `getAddressByName`: find the server, then pick its address. */
  function AddressByName(namePages: seq<ServerPage>, fqdnPages: seq<ServerPage>, name: string): (r: Result<string, Error>)
    ensures r.Ok? ==> exists srv :: ServerByName(namePages, fqdnPages, name) == Ok(srv) && ServerAddress(srv) == r
    ensures ServerByName(namePages, fqdnPages, name).Ok? ==> r == ServerAddress(ServerByName(namePages, fqdnPages, name).value)
    ensures ServerByName(namePages, fqdnPages, name).Err? ==> r == Err(ServerByName(namePages, fqdnPages, name).error)
  {
    match ServerByName(namePages, fqdnPages, name)
    case Err(e) => Err(e)
    case Ok(srv) => ServerAddress(srv)
  }

  /**
   * The address picked is the first non-empty candidate, and ErrNoAddressFound is returned
   * exactly when all four are empty.
   */
  lemma ServerAddressPriority(srv: Server)
    ensures var c := AddressCandidates(srv);
      ServerAddress(srv).Err? <==> forall k :: 0 <= k < 4 ==> c[k] == ""
    ensures var c := AddressCandidates(srv);
      ServerAddress(srv).Ok? ==>
        exists k :: 0 <= k < 4 && ServerAddress(srv).value == c[k] != "" && forall j :: 0 <= j < k ==> c[j] == ""
  {
    var c := AddressCandidates(srv);
    if c[0] != "" {
      assert ServerAddress(srv) == Ok(c[0]);
    } else if c[1] != "" {
      assert ServerAddress(srv) == Ok(c[1]);
    } else if c[2] != "" {
      assert ServerAddress(srv) == Ok(c[2]);
    } else if c[3] != "" {
      assert ServerAddress(srv) == Ok(c[3]);
    }
  }

  /** A private address always wins over every other candidate. */
  lemma PrivateAddressWins(srv: Server, addr: string)
    requires FindAddrs(Lookup(srv.addresses, "private")) != []
    requires FindAddrs(Lookup(srv.addresses, "private"))[0] == addr != ""
    ensures ServerAddress(srv) == Ok(addr)
  {
  }

  // ---------------------------------------------------------------------------
  // NodeAddresses
  // ---------------------------------------------------------------------------

  /** The regular expression `^kubernetes.*tess-network$` (`.` matches any character but a newline). */
  predicate IsPrivateNetwork(name: string) {
    |name| >= |"kubernetes"| + |"tess-network"|
    && HasPrefix(name, "kubernetes")
    && HasSuffix(name, "tess-network")
    && forall k :: |"kubernetes"| <= k < |name| - |"tess-network"| ==> name[k] != '\n'
  }

  /**
   * Illustrations of the anchored match on single names; `ClassifiedMembership` states in
   * general how the match decides each address's kind.
   */
  lemma PrivateNetworkExamples()
    ensures IsPrivateNetwork("kubernetes-tess-network")
    ensures IsPrivateNetwork("kubernetestess-network")
    ensures !IsPrivateNetwork("kubernetes-tess-network-2")
    ensures !IsPrivateNetwork("tess-network")
  {
    assert "kubernetes-tess-network"[..10] == "kubernetes";
    assert "kubernetes-tess-network"[11..] == "tess-network";
    assert "kubernetestess-network"[..10] == "kubernetes";
    assert "kubernetestess-network"[10..] == "tess-network";
    assert "kubernetes-tess-network-2"[13..] != "tess-network" by {
      assert "kubernetes-tess-network-2"[13..][11] == '2';
    }
  }

  datatype AddressType = InternalIP | ExternalIP
  datatype NodeAddress = NodeAddress(kind: AddressType, address: string)

  function AddressKind(network: string): AddressType {
    if IsPrivateNetwork(network) then InternalIP else ExternalIP
  }

  function Tagged(kind: AddressType, addrs: seq<string>): (r: seq<NodeAddress>)
    ensures |r| == |addrs|
    ensures forall k :: 0 <= k < |r| ==> r[k] == NodeAddress(kind, addrs[k])
  {
    if addrs == [] then [] else [NodeAddress(kind, addrs[0])] + Tagged(kind, addrs[1..])
  }

  /**
   * The addresses `NodeAddresses` collects before the access IPs are merged in: each
   * network's addresses, tagged internal for the private-network pattern and external
   * otherwise, network by network in `order`, Go's iteration order over the map.
   */
  function ClassifiedAddresses(addresses: map<string, Json>, order: seq<string>): seq<NodeAddress>
    requires forall k :: 0 <= k < |order| ==> order[k] in addresses
  {
    if order == [] then []
    else Tagged(AddressKind(order[0]), FindAddrs(addresses[order[0]])) + ClassifiedAddresses(addresses, order[1..])
  }

  /** An address is classified with a kind exactly when a network of that kind lists it. */
  lemma {:induction false} ClassifiedMembership(addresses: map<string, Json>, order: seq<string>, a: NodeAddress)
    requires forall k :: 0 <= k < |order| ==> order[k] in addresses
    ensures a in ClassifiedAddresses(addresses, order) <==>
      exists k :: 0 <= k < |order| && AddressKind(order[k]) == a.kind && a.address in FindAddrs(addresses[order[k]])
    decreases |order|
  {
    if order != [] {
      var head := Tagged(AddressKind(order[0]), FindAddrs(addresses[order[0]]));
      ClassifiedMembership(addresses, order[1..], a);
      assert a in head <==> AddressKind(order[0]) == a.kind && a.address in FindAddrs(addresses[order[0]]) by {
        if a.address in FindAddrs(addresses[order[0]]) && AddressKind(order[0]) == a.kind {
          var i :| 0 <= i < |FindAddrs(addresses[order[0]])| && FindAddrs(addresses[order[0]])[i] == a.address;
          assert head[i] == a;
        }
      }
      if exists k :: 0 <= k < |order| && AddressKind(order[k]) == a.kind && a.address in FindAddrs(addresses[order[k]]) {
        var k :| 0 <= k < |order| && AddressKind(order[k]) == a.kind && a.address in FindAddrs(addresses[order[k]]);
        if k > 0 { assert order[1..][k - 1] == order[k]; }
      }
      if exists k :: 0 <= k < |order[1..]| && AddressKind(order[1..][k]) == a.kind && a.address in FindAddrs(addresses[order[1..][k]]) {
        var k :| 0 <= k < |order[1..]| && AddressKind(order[1..][k]) == a.kind && a.address in FindAddrs(addresses[order[1..][k]]);
        assert order[k + 1] == order[1..][k];
      }
    }
  }

  // ---------------------------------------------------------------------------
  // Flavors and node resources
  // ---------------------------------------------------------------------------

  const MiB: int := 1024 * 1024
  const GB: int := 1000 * 1000 * 1000

  datatype Flavor = Flavor(id: string, vcpus: int, ram: int, disk: int, swap: int)

  /** Capacity of a node, with memory and swap in bytes and disk in bytes. */
  datatype NodeResources = NodeResources(cpu: int, memoryBytes: int, diskBytes: int, swapBytes: int)

  /** The capacity a flavor gives: RAM and swap are MiB, disk is decimal GB. */
  function FlavorResources(f: Flavor): NodeResources {
    NodeResources(f.vcpus, f.ram * MiB, f.disk * GB, f.swap * MiB)
  }

  /** A page of the flavor listing. */
  datatype FlavorPage = FlavorPage(flavors: seq<Flavor>) | MalformedFlavorPage

  /**
   * The flavor table `Instances()` builds, keyed by flavor id; a later flavor with the same
   * id overwrites an earlier one. A page that does not decode makes `Instances()` give up.
   */
  function FlavorTable(pages: seq<FlavorPage>, table: map<string, NodeResources>): (r: Option<map<string, NodeResources>>)
    ensures r.Some? ==> table.Keys <= r.value.Keys
    decreases |pages|
  {
    if pages == [] then Some(table)
    else match pages[0]
      case MalformedFlavorPage => None
      case FlavorPage(fs) => FlavorTable(pages[1..], AddFlavors(table, fs))
  }

  /** Every flavor of a listing, page after page. */
  function AllFlavors(pages: seq<FlavorPage>): seq<Flavor> {
    if pages == [] then []
    else (match pages[0] case FlavorPage(fs) => fs case MalformedFlavorPage => []) + AllFlavors(pages[1..])
  }

  /**
   * The flavor walk fails exactly when some page does not decode, and otherwise it is the
   * table with every listed flavor added in listing order.
   */
  lemma {:induction false} FlavorTableSpec(pages: seq<FlavorPage>, table: map<string, NodeResources>)
    ensures FlavorTable(pages, table).None? <==> exists k :: 0 <= k < |pages| && pages[k].MalformedFlavorPage?
    ensures FlavorTable(pages, table).Some? ==> FlavorTable(pages, table).value == AddFlavors(table, AllFlavors(pages))
    decreases |pages|
  {
    if pages != [] {
      match pages[0]
      case MalformedFlavorPage =>
      case FlavorPage(fs) =>
        FlavorTableSpec(pages[1..], AddFlavors(table, fs));
        AddFlavorsAppend(table, fs, AllFlavors(pages[1..]));
        if exists k :: 0 <= k < |pages| && pages[k].MalformedFlavorPage? {
          var k :| 0 <= k < |pages| && pages[k].MalformedFlavorPage?;
          assert pages[1..][k - 1] == pages[k];
        }
        if exists k :: 0 <= k < |pages[1..]| && pages[1..][k].MalformedFlavorPage? {
          var k :| 0 <= k < |pages[1..]| && pages[1..][k].MalformedFlavorPage?;
          assert pages[k + 1] == pages[1..][k];
        }
    }
  }

  /** Adding two runs of flavors is adding their concatenation. */
  lemma {:induction false} AddFlavorsAppend(table: map<string, NodeResources>, a: seq<Flavor>, b: seq<Flavor>)
    ensures AddFlavors(table, a + b) == AddFlavors(AddFlavors(table, a), b)
    decreases |a|
  {
    if a == [] {
      assert a + b == b;
    } else {
      assert (a + b)[0] == a[0] && (a + b)[1..] == a[1..] + b;
      AddFlavorsAppend(table[a[0].id := FlavorResources(a[0])], a[1..], b);
    }
  }

  function AddFlavors(table: map<string, NodeResources>, fs: seq<Flavor>): (r: map<string, NodeResources>)
    ensures r.Keys == table.Keys + set k | 0 <= k < |fs| :: fs[k].id
    decreases |fs|
  {
    if fs == [] then table
    else
      var r := AddFlavors(table[fs[0].id := FlavorResources(fs[0])], fs[1..]);
      assert (set k | 0 <= k < |fs| :: fs[k].id) == {fs[0].id} + set k | 0 <= k < |fs[1..]| :: fs[1..][k].id by {
        forall k | 0 <= k < |fs| ensures fs[k].id in {fs[0].id} + set k | 0 <= k < |fs[1..]| :: fs[1..][k].id {
          if k > 0 { assert fs[k] == fs[1..][k - 1]; }
        }
      }
      r
  }

  /** The entry for an id is the capacity of the last flavor listed with it. */
  lemma {:induction false} AddFlavorsLastWins(table: map<string, NodeResources>, fs: seq<Flavor>, j: nat)
    requires j < |fs|
    requires forall k :: j < k < |fs| ==> fs[k].id != fs[j].id
    ensures AddFlavors(table, fs)[fs[j].id] == FlavorResources(fs[j])
    decreases |fs|
  {
    if j == 0 {
      AddFlavorsKeeps(table[fs[0].id := FlavorResources(fs[0])], fs[1..], fs[0].id);
    } else {
      forall k | j - 1 < k < |fs[1..]| ensures fs[1..][k].id != fs[1..][j - 1].id {
        assert fs[1..][k] == fs[k + 1];
      }
      AddFlavorsLastWins(table[fs[0].id := FlavorResources(fs[0])], fs[1..], j - 1);
    }
  }

  /** An id no flavor carries keeps its entry. */
  lemma {:induction false} AddFlavorsKeeps(table: map<string, NodeResources>, fs: seq<Flavor>, id: string)
    requires id in table
    requires forall k :: 0 <= k < |fs| ==> fs[k].id != id
    ensures AddFlavors(table, fs)[id] == table[id]
    decreases |fs|
  {
    if fs != [] {
      forall k | 0 <= k < |fs[1..]| ensures fs[1..][k].id != id {
        assert fs[1..][k] == fs[k + 1];
      }
      AddFlavorsKeeps(table[fs[0].id := FlavorResources(fs[0])], fs[1..], id);
    }
  }

  /**
   * `GetNodeResources`: the resources of the server's flavor, failing when the flavor has no
   * string "id" or the id is not in the table.
   */
  function NodeResourcesOf(srv: Result<Server, Error>, table: map<string, NodeResources>): (r: Result<NodeResources, Error>)
    ensures r.Ok? ==>
      && srv.Ok?
      && Lookup(srv.value.flavor, "id").JString?
      && Lookup(srv.value.flavor, "id").s in table
      && r.value == table[Lookup(srv.value.flavor, "id").s]
    ensures srv.Ok? && !Lookup(srv.value.flavor, "id").JString? ==> r == Err(ErrAttrNotFound)
    ensures srv.Err? ==> r == Err(srv.error)
    ensures srv.Ok? && Lookup(srv.value.flavor, "id").JString? && Lookup(srv.value.flavor, "id").s !in table ==>
      r == Err(ErrNotFound)
    ensures srv.Ok? && Lookup(srv.value.flavor, "id").JString? && Lookup(srv.value.flavor, "id").s in table ==>
      r == Ok(table[Lookup(srv.value.flavor, "id").s])
  {
    match srv
    case Err(e) => Err(e)
    case Ok(s) =>
      if "id" !in s.flavor then Err(ErrAttrNotFound)
      else if !s.flavor["id"].JString? then Err(ErrAttrNotFound)
      else if s.flavor["id"].s !in table then Err(ErrNotFound)
      else Ok(table[s.flavor["id"].s])
  }

  /**
   * A node's resources come from the last flavor listed with its server's flavor id: its
   * vCPU count, its RAM and swap in MiB and its disk in decimal GB. A flavor id the listing
   * does not carry gives ErrNotFound.
   */
  lemma NodeResourcesFromFlavors(srv: Result<Server, Error>, pages: seq<FlavorPage>, id: string)
    requires FlavorTable(pages, map[]).Some?
    requires srv.Ok? && Lookup(srv.value.flavor, "id") == JString(id)
    ensures var fs := AllFlavors(pages);
      forall j :: 0 <= j < |fs| && fs[j].id == id && (forall k :: j < k < |fs| ==> fs[k].id != id) ==>
        NodeResourcesOf(srv, FlavorTable(pages, map[]).value)
          == Ok(NodeResources(fs[j].vcpus, fs[j].ram * MiB, fs[j].disk * GB, fs[j].swap * MiB))
    ensures var fs := AllFlavors(pages);
      (forall k :: 0 <= k < |fs| ==> fs[k].id != id) ==>
        NodeResourcesOf(srv, FlavorTable(pages, map[]).value) == Err(ErrNotFound)
  {
    var fs := AllFlavors(pages);
    FlavorTableSpec(pages, map[]);
    forall j | 0 <= j < |fs| && fs[j].id == id && (forall k :: j < k < |fs| ==> fs[k].id != id)
      ensures NodeResourcesOf(srv, FlavorTable(pages, map[]).value)
        == Ok(NodeResources(fs[j].vcpus, fs[j].ram * MiB, fs[j].disk * GB, fs[j].swap * MiB))
    {
      AddFlavorsLastWins(map[], fs, j);
    }
  }
}
