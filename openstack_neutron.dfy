/**
 * The Neutron load-balancer (LBaaS v1) and floating-IP state the OpenStack cloud provider
 * works on, as an abstract store. Each gophercloud call the provider makes is a method or a
 * function of `Neutron`. Which calls fail is fixed by `Faults`: a call naming a broken id
 * fails with a server error, the listings of each kind of object can fail to decode, and
 * every create can be refused. Ids are numbers handed out from a counter.
 */
module OpenStackNeutron {
  import opened Wrappers
  import opened OpenStackCommon

  datatype Pool = Pool(id: nat, name: string, status: string, lbMethod: string, monitorIds: seq<nat>)
  datatype Member = Member(id: nat, poolId: nat, address: string, port: int, status: string)
  datatype Vip = Vip(id: nat, name: string, poolId: nat, port: int, address: string, status: string)
  datatype FloatingIp = FloatingIp(id: nat, address: string, portId: string, fixedIp: string)

  /** The kinds of object Neutron lists. */
  datatype Kind = Pools | Vips | Members | FloatingIps

  datatype Faults = Faults(broken: set<nat>, failingListings: set<Kind>, quotaExhausted: bool)

  // ---------------------------------------------------------------------------
  // Filters over the store's sequences
  // ---------------------------------------------------------------------------

  function PoolsWithout(ps: seq<Pool>, id: nat): (r: seq<Pool>)
    ensures forall p :: p in r <==> p in ps && p.id != id
  {
    if ps == [] then []
    else (if ps[0].id == id then [] else [ps[0]]) + PoolsWithout(ps[1..], id)
  }

  function VipsWithout(vs: seq<Vip>, id: nat): (r: seq<Vip>)
    ensures forall v :: v in r <==> v in vs && v.id != id
  {
    if vs == [] then []
    else (if vs[0].id == id then [] else [vs[0]]) + VipsWithout(vs[1..], id)
  }

  function MembersWithout(ms: seq<Member>, id: nat): (r: seq<Member>)
    ensures forall m :: m in r <==> m in ms && m.id != id
  {
    if ms == [] then []
    else (if ms[0].id == id then [] else [ms[0]]) + MembersWithout(ms[1..], id)
  }

  function FipsWithout(fs: seq<FloatingIp>, id: nat): (r: seq<FloatingIp>)
    ensures forall f :: f in r <==> f in fs && f.id != id
  {
    if fs == [] then []
    else (if fs[0].id == id then [] else [fs[0]]) + FipsWithout(fs[1..], id)
  }

  /** The members of one pool, in listing order. */
  function MembersOf(ms: seq<Member>, poolId: nat): (r: seq<Member>)
    ensures forall m :: m in r <==> m in ms && m.poolId == poolId
  {
    if ms == [] then []
    else (if ms[0].poolId == poolId then [ms[0]] else []) + MembersOf(ms[1..], poolId)
  }

  /** The members outside one pool. */
  function MembersOutside(ms: seq<Member>, poolId: nat): (r: seq<Member>)
    ensures forall m :: m in r <==> m in ms && m.poolId != poolId
  {
    if ms == [] then []
    else (if ms[0].poolId == poolId then [] else [ms[0]]) + MembersOutside(ms[1..], poolId)
  }

  /** The members of a pool with an address, as `members.List` with both filters answers. */
  function MembersAt(ms: seq<Member>, poolId: nat, address: string): (r: seq<Member>)
    ensures forall m :: m in r <==> m in ms && m.poolId == poolId && m.address == address
  {
    if ms == [] then []
    else (if ms[0].poolId == poolId && ms[0].address == address then [ms[0]] else []) + MembersAt(ms[1..], poolId, address)
  }

  /** The floating IPs with an address. */
  function FipsWithAddress(fs: seq<FloatingIp>, address: string): (r: seq<FloatingIp>)
    ensures forall f :: f in r <==> f in fs && f.address == address
  {
    if fs == [] then []
    else (if fs[0].address == address then [fs[0]] else []) + FipsWithAddress(fs[1..], address)
  }

  /** The floating IPs bound to a port's fixed IP. */
  function FipsOfPort(fs: seq<FloatingIp>, portId: string, fixedIp: string): (r: seq<FloatingIp>)
    ensures forall f :: f in r <==> f in fs && f.portId == portId && f.fixedIp == fixedIp
  {
    if fs == [] then []
    else (if fs[0].portId == portId && fs[0].fixedIp == fixedIp then [fs[0]] else []) + FipsOfPort(fs[1..], portId, fixedIp)
  }

  /** The pools with `monitorId` dropped from the monitors of pool `poolId`. */
  function Disassociated(ps: seq<Pool>, poolId: nat, monitorId: nat): (r: seq<Pool>)
    ensures |r| == |ps|
    ensures forall k :: 0 <= k < |ps| ==> r[k] == ps[k].(monitorIds := r[k].monitorIds)
    ensures forall k :: 0 <= k < |ps| && ps[k].id != poolId ==> r[k] == ps[k]
    ensures forall k :: 0 <= k < |ps| && ps[k].id == poolId ==> r[k].monitorIds == SeqWithout(ps[k].monitorIds, monitorId)
    ensures forall p :: p in ps && p.id != poolId ==> p in r
  {
    if ps == [] then []
    else
      var p := ps[0];
      [if p.id == poolId then p.(monitorIds := SeqWithout(p.monitorIds, monitorId)) else p]
        + Disassociated(ps[1..], poolId, monitorId)
  }

  function SeqWithout(xs: seq<nat>, x: nat): (r: seq<nat>)
    ensures forall y :: y in r <==> y in xs && y != x
  {
    if xs == [] then [] else (if xs[0] == x then [] else [xs[0]]) + SeqWithout(xs[1..], x)
  }

  /** Dropping a monitor keeps the set of pool ids. */
  lemma DisassociatedKeepsIds(ps: seq<Pool>, poolId: nat, monitorId: nat)
    ensures PoolIds(Disassociated(ps, poolId, monitorId)) == PoolIds(ps)
  {
    var r := Disassociated(ps, poolId, monitorId);
    forall x | x in PoolIds(r) ensures x in PoolIds(ps) {
      var p :| p in r && p.id == x;
      var k :| 0 <= k < |r| && r[k] == p;
      assert ps[k] in ps;
    }
    forall x | x in PoolIds(ps) ensures x in PoolIds(r) {
      var p :| p in ps && p.id == x;
      var k :| 0 <= k < |ps| && ps[k] == p;
      assert r[k] in r;
    }
  }

  function PoolIds(ps: seq<Pool>): set<nat> {
    set p | p in ps :: p.id
  }

  // Uniqueness is stated over positions through `MemberIdAt`/`FipIdAt`, so that the solver
  // compares two entries only when a proof names both positions.

  /** The id at a position of a pool listing. */
  function PoolIdAt(ps: seq<Pool>, i: nat): nat
    requires i < |ps|
  {
    ps[i].id
  }

  /** No two entries of a pool listing share an id. */
  predicate PoolIdsUnique(ps: seq<Pool>) {
    forall i, j :: 0 <= i < j < |ps| ==> PoolIdAt(ps, i) != PoolIdAt(ps, j)
  }

  lemma PoolIdsUniqueSnoc(ps: seq<Pool>, p: Pool)
    requires PoolIdsUnique(ps) && forall q :: q in ps ==> q.id != p.id
    ensures PoolIdsUnique(ps + [p])
  {
    forall i, j | 0 <= i < j < |ps + [p]| ensures PoolIdAt(ps + [p], i) != PoolIdAt(ps + [p], j) {
      assert (ps + [p])[i] == ps[i];
      if j == |ps| {
        assert ps[i] in ps;
      } else {
        assert (ps + [p])[j] == ps[j];
        assert PoolIdAt(ps, i) != PoolIdAt(ps, j);
      }
    }
  }

  lemma {:induction false} PoolsWithoutUnique(ps: seq<Pool>, id: nat)
    requires PoolIdsUnique(ps)
    ensures PoolIdsUnique(PoolsWithout(ps, id))
    decreases |ps|
  {
    if ps != [] {
      assert PoolIdsUnique(ps[1..]) by {
        forall i, j | 0 <= i < j < |ps[1..]| ensures PoolIdAt(ps[1..], i) != PoolIdAt(ps[1..], j) {
          assert PoolIdAt(ps, i + 1) != PoolIdAt(ps, j + 1);
        }
      }
      PoolsWithoutUnique(ps[1..], id);
      var r := PoolsWithout(ps[1..], id);
      if ps[0].id != id {
        forall i, j | 0 <= i < j < |[ps[0]] + r| ensures PoolIdAt([ps[0]] + r, i) != PoolIdAt([ps[0]] + r, j) {
          assert ([ps[0]] + r)[j] == r[j - 1];
          if i == 0 {
            assert r[j - 1] in ps[1..];
            var k :| 0 <= k < |ps[1..]| && ps[1..][k] == r[j - 1];
            assert PoolIdAt(ps, 0) != PoolIdAt(ps, k + 1);
          } else {
            assert ([ps[0]] + r)[i] == r[i - 1];
            assert PoolIdAt(r, i - 1) != PoolIdAt(r, j - 1);
          }
        }
      } else {
        assert PoolsWithout(ps, id) == r;
      }
    }
  }

  /** Dropping a monitor keeps every position's id, hence their uniqueness. */
  lemma DisassociatedUnique(ps: seq<Pool>, poolId: nat, monitorId: nat)
    requires PoolIdsUnique(ps)
    ensures PoolIdsUnique(Disassociated(ps, poolId, monitorId))
  {
    var r := Disassociated(ps, poolId, monitorId);
    forall i, j | 0 <= i < j < |r| ensures PoolIdAt(r, i) != PoolIdAt(r, j) {
      assert PoolIdAt(ps, i) != PoolIdAt(ps, j);
    }
  }

  /** In a listing with unique ids, two entries with the same id are the same pool. */
  lemma PoolIdsUniqueValues(ps: seq<Pool>)
    requires PoolIdsUnique(ps)
    ensures forall p, q :: p in ps && q in ps && p.id == q.id ==> p == q
  {
    forall p, q | p in ps && q in ps && p.id == q.id ensures p == q {
      var i :| 0 <= i < |ps| && ps[i] == p;
      var j :| 0 <= j < |ps| && ps[j] == q;
      assert PoolIdAt(ps, i) == PoolIdAt(ps, j);
      assert !(i < j) && !(j < i);
    }
  }

  /** The id at a position of a member listing. */
  function MemberIdAt(ms: seq<Member>, i: nat): nat
    requires i < |ms|
  {
    ms[i].id
  }

  /** No two entries of a member listing share an id. */
  predicate UniqueIds(ms: seq<Member>) {
    forall i, j :: 0 <= i < j < |ms| ==> MemberIdAt(ms, i) != MemberIdAt(ms, j)
  }

  lemma UniqueIdsCons(m: Member, ms: seq<Member>)
    requires UniqueIds(ms) && forall n :: n in ms ==> n.id != m.id
    ensures UniqueIds([m] + ms)
  {
    forall i, j | 0 <= i < j < |[m] + ms| ensures MemberIdAt([m] + ms, i) != MemberIdAt([m] + ms, j) {
      assert ([m] + ms)[j] == ms[j - 1];
      if i == 0 {
        assert ms[j - 1] in ms;
      } else {
        assert ([m] + ms)[i] == ms[i - 1];
        assert MemberIdAt(ms, i - 1) != MemberIdAt(ms, j - 1);
      }
    }
  }

  lemma UniqueIdsSnoc(ms: seq<Member>, m: Member)
    requires UniqueIds(ms) && forall n :: n in ms ==> n.id != m.id
    ensures UniqueIds(ms + [m])
  {
    forall i, j | 0 <= i < j < |ms + [m]| ensures MemberIdAt(ms + [m], i) != MemberIdAt(ms + [m], j) {
      assert (ms + [m])[i] == ms[i];
      if j == |ms| {
        assert ms[i] in ms;
      } else {
        assert (ms + [m])[j] == ms[j];
        assert MemberIdAt(ms, i) != MemberIdAt(ms, j);
      }
    }
  }

  lemma UniqueIdsTail(ms: seq<Member>)
    requires UniqueIds(ms) && ms != []
    ensures UniqueIds(ms[1..])
  {
    forall i, j | 0 <= i < j < |ms[1..]| ensures MemberIdAt(ms[1..], i) != MemberIdAt(ms[1..], j) {
      assert MemberIdAt(ms, i + 1) != MemberIdAt(ms, j + 1);
    }
  }

  /** The head of a listing with unique ids shares its id with no entry of the tail. */
  lemma UniqueIdsHead(ms: seq<Member>)
    requires UniqueIds(ms) && ms != []
    ensures forall n :: n in ms[1..] ==> n.id != ms[0].id
  {
    forall n | n in ms[1..] ensures n.id != ms[0].id {
      var k :| 0 <= k < |ms[1..]| && ms[1..][k] == n;
      assert MemberIdAt(ms, 0) != MemberIdAt(ms, k + 1);
    }
  }

  /** In a listing with unique ids, two entries with the same id are the same member. */
  lemma UniqueIdsValues(ms: seq<Member>)
    requires UniqueIds(ms)
    ensures forall m, n :: m in ms && n in ms && m.id == n.id ==> m == n
  {
    forall m, n | m in ms && n in ms && m.id == n.id ensures m == n {
      var i :| 0 <= i < |ms| && ms[i] == m;
      var j :| 0 <= j < |ms| && ms[j] == n;
      assert MemberIdAt(ms, i) == MemberIdAt(ms, j);
      assert !(i < j) && !(j < i);
    }
  }

  lemma {:induction false} MembersWithoutUnique(ms: seq<Member>, id: nat)
    requires UniqueIds(ms)
    ensures UniqueIds(MembersWithout(ms, id))
    decreases |ms|
  {
    if ms != [] {
      UniqueIdsTail(ms);
      UniqueIdsHead(ms);
      MembersWithoutUnique(ms[1..], id);
      if ms[0].id != id {
        UniqueIdsCons(ms[0], MembersWithout(ms[1..], id));
      } else {
        assert MembersWithout(ms, id) == MembersWithout(ms[1..], id);
      }
    }
  }

  lemma {:induction false} MembersOutsideUnique(ms: seq<Member>, poolId: nat)
    requires UniqueIds(ms)
    ensures UniqueIds(MembersOutside(ms, poolId))
    decreases |ms|
  {
    if ms != [] {
      UniqueIdsTail(ms);
      UniqueIdsHead(ms);
      MembersOutsideUnique(ms[1..], poolId);
      if ms[0].poolId != poolId {
        UniqueIdsCons(ms[0], MembersOutside(ms[1..], poolId));
      } else {
        assert MembersOutside(ms, poolId) == MembersOutside(ms[1..], poolId);
      }
    }
  }

  lemma {:induction false} MembersOfUnique(ms: seq<Member>, poolId: nat)
    requires UniqueIds(ms)
    ensures UniqueIds(MembersOf(ms, poolId))
    decreases |ms|
  {
    if ms != [] {
      UniqueIdsTail(ms);
      UniqueIdsHead(ms);
      MembersOfUnique(ms[1..], poolId);
      if ms[0].poolId == poolId {
        UniqueIdsCons(ms[0], MembersOf(ms[1..], poolId));
      } else {
        assert MembersOf(ms, poolId) == MembersOf(ms[1..], poolId);
      }
    }
  }

  /** The id at a position of a floating-IP listing. */
  function FipIdAt(fs: seq<FloatingIp>, i: nat): nat
    requires i < |fs|
  {
    fs[i].id
  }

  /** No two entries of a floating-IP listing share an id. */
  predicate FipIdsUnique(fs: seq<FloatingIp>) {
    forall i, j :: 0 <= i < j < |fs| ==> FipIdAt(fs, i) != FipIdAt(fs, j)
  }

  lemma FipIdsUniqueCons(f: FloatingIp, fs: seq<FloatingIp>)
    requires FipIdsUnique(fs) && forall g :: g in fs ==> g.id != f.id
    ensures FipIdsUnique([f] + fs)
  {
    forall i, j | 0 <= i < j < |[f] + fs| ensures FipIdAt([f] + fs, i) != FipIdAt([f] + fs, j) {
      assert ([f] + fs)[j] == fs[j - 1];
      if i == 0 {
        assert fs[j - 1] in fs;
      } else {
        assert ([f] + fs)[i] == fs[i - 1];
        assert FipIdAt(fs, i - 1) != FipIdAt(fs, j - 1);
      }
    }
  }

  lemma FipIdsUniqueSnoc(fs: seq<FloatingIp>, f: FloatingIp)
    requires FipIdsUnique(fs) && forall g :: g in fs ==> g.id != f.id
    ensures FipIdsUnique(fs + [f])
  {
    forall i, j | 0 <= i < j < |fs + [f]| ensures FipIdAt(fs + [f], i) != FipIdAt(fs + [f], j) {
      assert (fs + [f])[i] == fs[i];
      if j == |fs| {
        assert fs[i] in fs;
      } else {
        assert (fs + [f])[j] == fs[j];
        assert FipIdAt(fs, i) != FipIdAt(fs, j);
      }
    }
  }

  lemma FipIdsUniqueTail(fs: seq<FloatingIp>)
    requires FipIdsUnique(fs) && fs != []
    ensures FipIdsUnique(fs[1..])
  {
    forall i, j | 0 <= i < j < |fs[1..]| ensures FipIdAt(fs[1..], i) != FipIdAt(fs[1..], j) {
      assert FipIdAt(fs, i + 1) != FipIdAt(fs, j + 1);
    }
  }

  lemma FipIdsUniqueHead(fs: seq<FloatingIp>)
    requires FipIdsUnique(fs) && fs != []
    ensures forall g :: g in fs[1..] ==> g.id != fs[0].id
  {
    forall g | g in fs[1..] ensures g.id != fs[0].id {
      var k :| 0 <= k < |fs[1..]| && fs[1..][k] == g;
      assert FipIdAt(fs, 0) != FipIdAt(fs, k + 1);
    }
  }

  lemma {:induction false} FipsWithoutUnique(fs: seq<FloatingIp>, id: nat)
    requires FipIdsUnique(fs)
    ensures FipIdsUnique(FipsWithout(fs, id))
    decreases |fs|
  {
    if fs != [] {
      FipIdsUniqueTail(fs);
      FipIdsUniqueHead(fs);
      FipsWithoutUnique(fs[1..], id);
      if fs[0].id != id {
        FipIdsUniqueCons(fs[0], FipsWithout(fs[1..], id));
      } else {
        assert FipsWithout(fs, id) == FipsWithout(fs[1..], id);
      }
    }
  }

  lemma {:induction false} FipsOfPortUnique(fs: seq<FloatingIp>, portId: string, fixedIp: string)
    requires FipIdsUnique(fs)
    ensures FipIdsUnique(FipsOfPort(fs, portId, fixedIp))
    decreases |fs|
  {
    if fs != [] {
      FipIdsUniqueTail(fs);
      FipIdsUniqueHead(fs);
      FipsOfPortUnique(fs[1..], portId, fixedIp);
      if fs[0].portId == portId && fs[0].fixedIp == fixedIp {
        FipIdsUniqueCons(fs[0], FipsOfPort(fs[1..], portId, fixedIp));
      } else {
        assert FipsOfPort(fs, portId, fixedIp) == FipsOfPort(fs[1..], portId, fixedIp);
      }
    }
  }

  /** In a listing with unique ids, two entries with the same id are the same floating IP. */
  lemma FipIdsUniqueValues(fs: seq<FloatingIp>)
    requires FipIdsUnique(fs)
    ensures forall f, g :: f in fs && g in fs && f.id == g.id ==> f == g
  {
    forall f, g | f in fs && g in fs && f.id == g.id ensures f == g {
      var i :| 0 <= i < |fs| && fs[i] == f;
      var j :| 0 <= j < |fs| && fs[j] == g;
      assert FipIdAt(fs, i) == FipIdAt(fs, j);
      assert !(i < j) && !(j < i);
    }
  }

  /** The first pool with an id, if any. */
  function FindPool(ps: seq<Pool>, id: nat): (r: Option<Pool>)
    ensures r.Some? ==> r.value in ps && r.value.id == id
    ensures r.None? ==> forall p :: p in ps ==> p.id != id
  {
    if ps == [] then None
    else if ps[0].id == id then Some(ps[0])
    else FindPool(ps[1..], id)
  }

  // ---------------------------------------------------------------------------
  // The store
  // ---------------------------------------------------------------------------

  class Neutron {
    var pools: seq<Pool>
    var members: seq<Member>
    var vips: seq<Vip>
    var fips: seq<FloatingIp>
    var monitors: set<nat>
    var nextId: nat
    const faults: Faults

    /** Pool, member and floating-IP ids are below the counter and identify one entry each. */
    ghost predicate Valid()
      reads this
    {
      && (forall p :: p in pools ==> p.id < nextId)
      && (forall m :: m in members ==> m.id < nextId)
      && (forall f :: f in fips ==> f.id < nextId)
      && PoolIdsUnique(pools)
      && UniqueIds(members)
      && FipIdsUnique(fips)
    }

    constructor (faults: Faults)
      ensures Valid() && this.faults == faults
      ensures pools == [] && members == [] && vips == [] && fips == [] && monitors == {} && nextId == 0
    {
      this.faults := faults;
      pools, members, vips, fips, monitors, nextId := [], [], [], [], {}, 0;
    }

    // --- listings (one page; pagination is not modelled) ---

    function ListPools(): (r: Result<seq<Pool>, Error>)
      reads this
      ensures r.Ok? ==> r.value == pools
    {
      if Pools in faults.failingListings then Err(ApiError("pools.List")) else Ok(pools)
    }

    function ListVips(): (r: Result<seq<Vip>, Error>)
      reads this
      ensures r.Ok? ==> r.value == vips
    {
      if Vips in faults.failingListings then Err(ApiError("vips.List")) else Ok(vips)
    }

    function ListMembers(poolId: nat): (r: Result<seq<Member>, Error>)
      reads this
      ensures r.Ok? ==> r.value == MembersOf(members, poolId)
    {
      if Members in faults.failingListings then Err(ApiError("members.List")) else Ok(MembersOf(members, poolId))
    }

    function ListMembersAt(poolId: nat, address: string): (r: Result<seq<Member>, Error>)
      reads this
      ensures r.Ok? ==> r.value == MembersAt(members, poolId, address)
    {
      if Members in faults.failingListings then Err(ApiError("members.List")) else Ok(MembersAt(members, poolId, address))
    }

    function ListFipsWithAddress(address: string): (r: Result<seq<FloatingIp>, Error>)
      reads this
      ensures r.Ok? ==> r.value == FipsWithAddress(fips, address)
    {
      if FloatingIps in faults.failingListings then Err(ApiError("floatingips.List")) else Ok(FipsWithAddress(fips, address))
    }

    function ListFipsOfPort(portId: string, fixedIp: string): (r: Result<seq<FloatingIp>, Error>)
      reads this
      ensures r.Ok? ==> r.value == FipsOfPort(fips, portId, fixedIp)
    {
      if FloatingIps in faults.failingListings then Err(ApiError("floatingips.List")) else Ok(FipsOfPort(fips, portId, fixedIp))
    }

    /** `pools.Get`. */
    function GetPool(id: nat): (r: Result<Pool, Error>)
      reads this
      ensures r.Ok? ==> r.value in pools && r.value.id == id
      ensures r == Err(HttpNotFound("pools.Get")) <==> id !in faults.broken && forall p :: p in pools ==> p.id != id
    {
      if id in faults.broken then Err(ApiError("pools.Get"))
      else match FindPool(pools, id)
        case None => Err(HttpNotFound("pools.Get"))
        case Some(p) => Ok(p)
    }

    // --- creates ---

    method CreatePool(name: string, lbMethod: string) returns (r: Result<Pool, Error>)
      requires Valid()
      modifies this
      ensures Valid()
      ensures faults.quotaExhausted ==> r == Err(ApiError("pools.Create")) && pools == old(pools) && nextId == old(nextId)
      ensures !faults.quotaExhausted ==>
        && r == Ok(Pool(old(nextId), name, PendingCreate, lbMethod, []))
        && pools == old(pools) + [r.value] && nextId == old(nextId) + 1
      ensures members == old(members) && vips == old(vips) && fips == old(fips) && monitors == old(monitors)
    {
      if faults.quotaExhausted {
        return Err(ApiError("pools.Create"));
      }
      var p := Pool(nextId, name, PendingCreate, lbMethod, []);
      PoolIdsUniqueSnoc(pools, p);
      pools, nextId := pools + [p], nextId + 1;
      return Ok(p);
    }

    method CreateMember(poolId: nat, address: string, port: int) returns (r: Result<Member, Error>)
      requires Valid()
      modifies this
      ensures Valid()
      ensures faults.quotaExhausted ==> r == Err(ApiError("members.Create")) && members == old(members) && nextId == old(nextId)
      ensures !faults.quotaExhausted ==>
        && r == Ok(Member(old(nextId), poolId, address, port, PendingCreate))
        && members == old(members) + [r.value] && nextId == old(nextId) + 1
      ensures pools == old(pools) && vips == old(vips) && fips == old(fips) && monitors == old(monitors)
    {
      if faults.quotaExhausted {
        return Err(ApiError("members.Create"));
      }
      var m := Member(nextId, poolId, address, port, PendingCreate);
      UniqueIdsSnoc(members, m);
      members, nextId := members + [m], nextId + 1;
      return Ok(m);
    }

    method CreateVip(name: string, poolId: nat, port: int, address: string) returns (r: Result<Vip, Error>)
      requires Valid()
      modifies this
      ensures Valid()
      ensures faults.quotaExhausted ==> r == Err(ApiError("vips.Create")) && vips == old(vips) && nextId == old(nextId)
      ensures !faults.quotaExhausted ==>
        && r == Ok(Vip(old(nextId), name, poolId, port, address, PendingCreate))
        && vips == old(vips) + [r.value] && nextId == old(nextId) + 1
      ensures pools == old(pools) && members == old(members) && fips == old(fips) && monitors == old(monitors)
    {
      if faults.quotaExhausted {
        return Err(ApiError("vips.Create"));
      }
      var v := Vip(nextId, name, poolId, port, address, PendingCreate);
      vips, nextId := vips + [v], nextId + 1;
      return Ok(v);
    }

    method CreateFloatingIp(address: string, portId: string, fixedIp: string) returns (r: Result<FloatingIp, Error>)
      requires Valid()
      modifies this
      ensures Valid()
      ensures faults.quotaExhausted ==> r == Err(ApiError("floatingips.Create")) && fips == old(fips) && nextId == old(nextId)
      ensures !faults.quotaExhausted ==>
        && r == Ok(FloatingIp(old(nextId), address, portId, fixedIp))
        && fips == old(fips) + [r.value] && nextId == old(nextId) + 1
      ensures pools == old(pools) && members == old(members) && vips == old(vips) && monitors == old(monitors)
    {
      if faults.quotaExhausted {
        return Err(ApiError("floatingips.Create"));
      }
      var f := FloatingIp(nextId, address, portId, fixedIp);
      FipIdsUniqueSnoc(fips, f);
      fips, nextId := fips + [f], nextId + 1;
      return Ok(f);
    }

    // --- deletes ---

    /** `pools.Delete`; the members of the pool go with it. */
    method DeletePool(id: nat) returns (err: Option<Error>)
      requires Valid()
      modifies this
      ensures Valid()
      ensures id in faults.broken ==> err == Some(ApiError("pools.Delete")) && pools == old(pools) && members == old(members)
      ensures id !in faults.broken && (forall p :: p in old(pools) ==> p.id != id) ==>
        err == Some(HttpNotFound("pools.Delete")) && pools == old(pools) && members == old(members)
      ensures id !in faults.broken && (exists p :: p in old(pools) && p.id == id) ==>
        err == None && pools == PoolsWithout(old(pools), id) && members == MembersOutside(old(members), id)
      ensures vips == old(vips) && fips == old(fips) && monitors == old(monitors) && nextId == old(nextId)
    {
      if id in faults.broken {
        return Some(ApiError("pools.Delete"));
      }
      if FindPool(pools, id).None? {
        return Some(HttpNotFound("pools.Delete"));
      }
      MembersOutsideUnique(members, id);
      PoolsWithoutUnique(pools, id);
      pools := PoolsWithout(pools, id);
      members := MembersOutside(members, id);
      return None;
    }

    method DeleteVip(id: nat) returns (err: Option<Error>)
      requires Valid()
      modifies this
      ensures Valid()
      ensures id in faults.broken ==> err == Some(ApiError("vips.Delete")) && vips == old(vips)
      ensures id !in faults.broken && (forall v :: v in old(vips) ==> v.id != id) ==>
        err == Some(HttpNotFound("vips.Delete")) && vips == old(vips)
      ensures id !in faults.broken && (exists v :: v in old(vips) && v.id == id) ==>
        err == None && vips == VipsWithout(old(vips), id)
      ensures pools == old(pools) && members == old(members) && fips == old(fips) && monitors == old(monitors) && nextId == old(nextId)
    {
      if id in faults.broken {
        return Some(ApiError("vips.Delete"));
      }
      if forall v :: v in vips ==> v.id != id {
        return Some(HttpNotFound("vips.Delete"));
      }
      vips := VipsWithout(vips, id);
      return None;
    }

    method DeleteMember(id: nat) returns (err: Option<Error>)
      requires Valid()
      modifies this
      ensures Valid()
      ensures id in faults.broken ==> err == Some(ApiError("members.Delete")) && members == old(members)
      ensures id !in faults.broken && (forall m :: m in old(members) ==> m.id != id) ==>
        err == Some(HttpNotFound("members.Delete")) && members == old(members)
      ensures id !in faults.broken && (exists m :: m in old(members) && m.id == id) ==>
        err == None && members == MembersWithout(old(members), id)
      ensures pools == old(pools) && vips == old(vips) && fips == old(fips) && monitors == old(monitors) && nextId == old(nextId)
    {
      if id in faults.broken {
        return Some(ApiError("members.Delete"));
      }
      if forall m :: m in members ==> m.id != id {
        return Some(HttpNotFound("members.Delete"));
      }
      MembersWithoutUnique(members, id);
      members := MembersWithout(members, id);
      return None;
    }

    method DeleteFloatingIpById(id: nat) returns (err: Option<Error>)
      requires Valid()
      modifies this
      ensures Valid()
      ensures id in faults.broken ==> err == Some(ApiError("floatingips.Delete")) && fips == old(fips)
      ensures id !in faults.broken && (forall f :: f in old(fips) ==> f.id != id) ==>
        err == Some(HttpNotFound("floatingips.Delete")) && fips == old(fips)
      ensures id !in faults.broken && (exists f :: f in old(fips) && f.id == id) ==>
        err == None && fips == FipsWithout(old(fips), id)
      ensures pools == old(pools) && members == old(members) && vips == old(vips) && monitors == old(monitors) && nextId == old(nextId)
    {
      if id in faults.broken {
        return Some(ApiError("floatingips.Delete"));
      }
      if forall f :: f in fips ==> f.id != id {
        return Some(HttpNotFound("floatingips.Delete"));
      }
      FipsWithoutUnique(fips, id);
      fips := FipsWithout(fips, id);
      return None;
    }

    /** `pools.DisassociateMonitor`. */
    method DisassociateMonitor(poolId: nat, monitorId: nat) returns (err: Option<Error>)
      requires Valid()
      modifies this
      ensures Valid()
      ensures (poolId in faults.broken || monitorId in faults.broken) ==> err == Some(ApiError("pools.DisassociateMonitor")) && pools == old(pools)
      ensures poolId !in faults.broken && monitorId !in faults.broken && FindPool(old(pools), poolId).None? ==>
        err == Some(HttpNotFound("pools.DisassociateMonitor")) && pools == old(pools)
      ensures poolId !in faults.broken && monitorId !in faults.broken && FindPool(old(pools), poolId).Some? ==>
        err == None && pools == Disassociated(old(pools), poolId, monitorId)
      ensures PoolIds(pools) == PoolIds(old(pools))
      ensures members == old(members) && vips == old(vips) && fips == old(fips) && monitors == old(monitors) && nextId == old(nextId)
    {
      if poolId in faults.broken || monitorId in faults.broken {
        return Some(ApiError("pools.DisassociateMonitor"));
      }
      if FindPool(pools, poolId).None? {
        return Some(HttpNotFound("pools.DisassociateMonitor"));
      }
      DisassociatedKeepsIds(pools, poolId, monitorId);
      DisassociatedUnique(pools, poolId, monitorId);
      pools := Disassociated(pools, poolId, monitorId);
      return None;
    }

    /** `monitors.Delete`. */
    method DeleteMonitor(monitorId: nat) returns (err: Option<Error>)
      requires Valid()
      modifies this
      ensures Valid()
      ensures monitorId in faults.broken ==> err == Some(ApiError("monitors.Delete")) && monitors == old(monitors)
      ensures monitorId !in faults.broken && monitorId !in old(monitors) ==> err == Some(HttpNotFound("monitors.Delete")) && monitors == old(monitors)
      ensures monitorId !in faults.broken && monitorId in old(monitors) ==> err == None && monitors == old(monitors) - {monitorId}
      ensures pools == old(pools) && members == old(members) && vips == old(vips) && fips == old(fips) && nextId == old(nextId)
    {
      if monitorId in faults.broken {
        return Some(ApiError("monitors.Delete"));
      }
      if monitorId !in monitors {
        return Some(HttpNotFound("monitors.Delete"));
      }
      monitors := monitors - {monitorId};
      return None;
    }
  }
}
