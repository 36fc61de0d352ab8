/** Every operation of the L3 database as a function on the database value, branch by branch,
    with the two kinds of index-linked lists read as sequences. */
module L3Spec {
  import opened Words
  import opened L3Types
  import opened SeqLib

  // ----- Slots -----

  function FreeVr(vrs: VrTable): nat { FirstIndex(vrs, (v: Vr) => !v.valid, 0) }
  function FreeRif(rifs: RifTable): nat { FirstIndex(rifs, (r: Rif) => !r.valid, 0) }
  function FreeNbr(nbrs: NbrTable): nat { FirstIndex(nbrs, (n: Nbr) => !n.used, 0) }
  function FreeNh(nhs: NhTable): nat { FirstIndex(nhs, (h: Nh) => !h.used, 0) }

  function HasSize(size: u32): MtuProfile -> bool { (m: MtuProfile) => m.size == size }

  /** The profile a size is interned in: the one that holds it, else the first empty one, else |mtus|. */
  function MtuSlot(mtus: MtuTable, size: u32): nat
  {
    var hit := FirstIndex(mtus, HasSize(size), 0);
    if hit < |mtus| then hit else FirstIndex(mtus, HasSize(0), 0)
  }

  // ----- Addresses -----

  /** How the sources compare: as many bytes as the family of the query has, whatever the family of the stored one. */
  predicate Matches(stored: IpUnion, query: IpUnion) {
    stored.word == query.word && (query.v4 || stored.tail == query.tail)
  }

  /** The comparison takes the stored address for one of the other family. */
  predicate Mistaken(stored: IpUnion, query: IpUnion) { stored.v4 != query.v4 && Matches(stored, query) }

  /** One of the two may be taken for the other. */
  predicate Mixed(a: IpUnion, b: IpUnion) { Mistaken(a, b) || Mistaken(b, a) }

  /** What the neighbour table keeps: an IPv4 address goes into a zeroed union. */
  function Kept(ip: IpUnion): IpUnion { if ip.v4 then ip.(tail := 0) else ip }

  // ----- Lists headed by an interface -----

  /** Walk a neighbour list for an address. */
  function WalkNbrs(nbrs: NbrTable, list: seq<NbrId>, ip: IpUnion): (n: u32)
    ensures n != INVALID_ID ==> n < NBR_TABLE_SIZE && n in list && nbrs[n].used && Matches(nbrs[n].ip, ip)
  {
    if list == [] || !nbrs[list[0]].used then INVALID_ID
    else if Matches(nbrs[list[0]].ip, ip) then list[0]
    else WalkNbrs(nbrs, list[1..], ip)
  }

  /** Walk a next-hop list for an address. */
  function WalkNhs(nhs: NhTable, list: seq<NhId>, ip: IpUnion): (h: u32)
    ensures h != INVALID_ID ==> h < NH_TABLE_SIZE && h in list && nhs[h].used && Matches(nhs[h].ip, ip)
  {
    if list == [] || !nhs[list[0]].used then INVALID_ID
    else if Matches(nhs[list[0]].ip, ip) then list[0]
    else WalkNhs(nhs, list[1..], ip)
  }

  function FindNbr(db: Db, r: RifId, ip: IpUnion): u32 { WalkNbrs(db.nbrs, db.rifs[r].nbrs, ip) }
  function FindNh(db: Db, r: RifId, ip: IpUnion): u32 { WalkNhs(db.nhs, db.rifs[r].nhs, ip) }

  /** The reserved neighbour id that stands for an interface's miss action. */
  function MissId(act: PacketAction): u32 { if act.Trap? then NBR_TRAP_ID else NBR_DROP_ID }

  /** From-scratch resolution of an address on an interface. */
  function Resolve(db: Db, r: RifId, ip: IpUnion): u32
  {
    var n := FindNbr(db, r, ip);
    if n != INVALID_ID then n else MissId(db.rifs[r].conf.missAct)
  }

  // ----- Routes and their flow entries -----

  /** An entry that forwards needs a next hop; without one it cannot be compiled. */
  predicate Refused(route: Route) {
    (route.action.Forward? || route.action.Log?) && !route.nhValid
  }

  /** The compiler from a route entry to a flow entry. */
  function Compile(key: RouteKey, route: Route): Flow
  {
    var toCpu := route.nbrIdx == NBR_TRAP_ID || route.action.Trap? || route.action.Log?;
    var clear := !toCpu && (route.nbrIdx == NBR_DROP_ID || route.action.Drop?);
    var group := if (route.action.Forward? || route.action.Log?) && route.nbrIdx < NBR_RESERVED_ID
                 then Some(route.nbrIdx) else None;
    Flow(key.vr, key.dest, group, toCpu, clear)
  }

  /** Delete and re-add the entry of a route. */
  function Recompile(flows: map<Cookie, Flow>, key: RouteKey, route: Route): map<Cookie, Flow>
  {
    flows[RouteCookie(key) := Compile(key, route)]
  }

  /** Every route on the list caches `id`. */
  function RepointRoutes(routes: map<RouteKey, Route>, list: seq<RouteKey>, id: u32): map<RouteKey, Route>
  {
    map k | k in routes :: if k in list then routes[k].(nbrIdx := id, follows := true) else routes[k]
  }

  /** Every route on the list has its entry compiled again, no other entry moves. */
  function RepointFlows(flows: map<Cookie, Flow>, routes: map<RouteKey, Route>, list: seq<RouteKey>): map<Cookie, Flow>
  {
    map c | c in flows ::
      if c.RouteCookie? && c.key in list && c.key in routes then Compile(c.key, routes[c.key]) else flows[c]
  }

  /** Next hop `h` caches `id`, and with it every route on its list and the entry of every such route. */
  function PointNextHop(db: Db, h: NhId, id: u32): Db
  {
    var list := db.nhs[h].routes;
    var routes := RepointRoutes(db.routes, list, id);
    db.(nhs := db.nhs[h := db.nhs[h].(nbrId := id)],
        routes := routes,
        flows := RepointFlows(db.flows, routes, list))
  }

  /** What a changed neighbour does to the next hop of its address; INVALID_ID means it went away. */
  function UpdateNextHop(db: Db, r: RifId, id: u32, ip: IpUnion): Db
  {
    var h := FindNh(db, r, ip);
    if h == INVALID_ID then db
    else PointNextHop(db, h, if id == INVALID_ID then MissId(db.rifs[r].conf.missAct) else id)
  }

  function HostFlow(vr: u32, ip4: u32, group: u32): Flow
  {
    Flow(vr, Prefix(V4(ip4), HOST_MASK4), Some(group), false, false)
  }

  function AddHost(db: Db, r: RifId, ip: IpUnion, group: u32): Db
  {
    if ip.v4 && HostCookie(ip.word, r) !in db.flows
    then db.(flows := db.flows[HostCookie(ip.word, r) := HostFlow(db.rifs[r].conf.vr, ip.word, group)])
    else db
  }

  function DelHost(db: Db, r: RifId, ip: IpUnion): Db
  {
    if ip.v4 then db.(flows := db.flows - {HostCookie(ip.word, r)}) else db
  }

  // ----- Virtual routers -----

  function CreateVirtualRouter(db: Db, v4: Option<bool>, v6: Option<bool>): (Db, Status)
  {
    if v4 == Some(false) || v6 == Some(false) then (db, InvalidParameter)
    else
      var v := FreeVr(db.vrs);
      if v >= VR_TABLE_SIZE then (db, TableFull)
      else (db.(vrs := db.vrs[v := Vr(true, 0)]), Success)
  }

  function RemoveVirtualRouter(db: Db, v: u32): (Db, Status)
  {
    if v >= VR_TABLE_SIZE || !db.vrs[v].valid || db.vrs[v].rifRefs > 0 then (db, Failure)
    else (db.(vrs := db.vrs[v := NO_VR]), Success)
  }

  predicate VrValid(db: Db, v: u32) { v < VR_TABLE_SIZE && db.vrs[v].valid }

  function CountRef(vrs: VrTable, v: VrId, add: bool): VrTable
  {
    if !vrs[v].valid then vrs
    else if add then vrs[v := vrs[v].(rifRefs := vrs[v].rifRefs + 1)]
    else if vrs[v].rifRefs == 0 then vrs
    else vrs[v := vrs[v].(rifRefs := vrs[v].rifRefs - 1)]
  }

  // ----- Router interfaces -----

  function ToStatus(s: FpaStatus): Status
  {
    match s
    case FpaOk => Success
    case FpaAlreadyExist => ItemAlreadyExists
    case FpaNotFound => ItemNotFound
    case FpaFail => Failure
  }

  /** Interface `i`, another one than `r`, sits on this port or vlan (and in virtual router `vr`, if given). */
  predicate SharesWith(rifs: RifTable, i: RifId, r: RifId, kind: IntfKind, portVlan: u32, vr: Option<u32>) {
    i != r && rifs[i].valid && rifs[i].conf.kind == kind && rifs[i].conf.portVlan == portVlan
    && (vr.Some? ==> rifs[i].conf.vr == vr.value)
  }

  predicate Shared(rifs: RifTable, r: RifId, kind: IntfKind, portVlan: u32, vr: Option<u32>) {
    exists i: RifId :: SharesWith(rifs, i, r, kind, portVlan, vr)
  }

  /** The first call that fails, in order; `soft` calls may also report that the entry exists. */
  function FirstFailure(calls: seq<(RifCall, bool)>, fpa: RifOracle): Status
  {
    if calls == [] then Success
    else
      var s := fpa(calls[0].0);
      if s.FpaOk? || (s.FpaAlreadyExist? && calls[0].1) then FirstFailure(calls[1..], fpa) else ToStatus(s)
  }

  lemma {:induction false} FirstFailureConcat(a: seq<(RifCall, bool)>, b: seq<(RifCall, bool)>, fpa: RifOracle)
    ensures FirstFailure(a + b, fpa) ==
            if FirstFailure(a, fpa) == Success then FirstFailure(b, fpa) else FirstFailure(a, fpa)
  {
    if a == [] {
      assert a + b == b;
    } else {
      assert (a + b)[1..] == a[1..] + b;
      FirstFailureConcat(a[1..], b, fpa);
    }
  }

  /** The calls that creating an interface on slot `r` makes. The test for another interface on the same
      port reads the kind of the slot itself, which is not filled yet. */
  function CreateCalls(db: Db, r: RifId, a: RifAttrs, portVlan: u32): seq<(RifCall, bool)>
  {
    var kind := db.rifs[r].conf.kind;
    if a.kind.Loopback? then []
    else
      TermCalls(a.v4, a.v6)
      + (if !Shared(db.rifs, r, kind, portVlan, Some(a.vr)) then VR_CALLS else [])
      + (if !Shared(db.rifs, r, kind, portVlan, None) then CONTROL_CALLS + FDB_CALLS else [])
  }

  function TermCalls(v4: bool, v6: bool): seq<(RifCall, bool)>
  {
    (if v4 then [(InitTermV4, false), (AddTermV4, false)] else []) +
    (if v6 then [(InitTermV6, false), (AddTermV6, false)] else [])
  }

  const VR_CALLS: seq<(RifCall, bool)> := [(InitVrId, false), (AddVrId, true)]
  const CONTROL_CALLS: seq<(RifCall, bool)> := [(InitControl, false), (AddControl, true), (InitFdb, false)]
  const FDB_CALLS: seq<(RifCall, bool)> := [(AddFdb, true)]

  function RemoveCalls(db: Db, r: RifId): seq<(RifCall, bool)>
  {
    var c := db.rifs[r].conf;
    if c.kind.Port? || c.kind.Vlan? then
      [(DelTermV4, false), (DelTermV6, false)] +
      (if !Shared(db.rifs, r, c.kind, c.portVlan, Some(c.vr)) then [(DelVrId, false)] else []) +
      (if !Shared(db.rifs, r, c.kind, c.portVlan, None) then [(DelControl, false), (DelFdb, false)] else [])
    else []
  }

  /** The attributes that fix where the interface sits. */
  function PortVlanOf(a: RifAttrs): (u32, Status)
  {
    match a.kind
    case Vlan => if a.vlan.None? then (0, MandatoryAttributeMissing)
                 else if a.port.Some? then (0, InvalidAttribute) else (a.vlan.value, Success)
    case Port => if a.port.None? then (0, MandatoryAttributeMissing)
                 else if a.vlan.Some? then (0, InvalidAttribute) else (a.port.value, Success)
    case Loopback => if a.port.Some? || a.vlan.Some? || a.hasMac then (0, InvalidAttribute) else (0, Success)
    case OtherKind => (0, InvalidAttrValue)
  }

  function MtuOf(a: RifAttrs): u32 { if a.mtu.Some? then a.mtu.value else DEFAULT_MTU }

  function MissActOf(a: RifAttrs): PacketAction { if a.missAct.Some? then a.missAct.value else Trap }

  function AddRif(db: Db, r: RifId, conf: RifConf, mtu: u32): Db
  {
    db.(mtus := db.mtus[conf.mtuIdx := MtuProfile(mtu, db.mtus[conf.mtuIdx].refs + 1)],
        rifs := db.rifs[r := Rif(true, conf, mtu, [], [])],
        vrs := CountRef(db.vrs, conf.vr, true))
  }

  /** The switch first and, if it takes all of it, the tables. */
  function EnterRif(db: Db, r: RifId, a: RifAttrs, conf: RifConf, fpa: RifOracle): (Db, Status)
  {
    var st := FirstFailure(CreateCalls(db, r, a, conf.portVlan), fpa);
    if st != Success then (db, st) else (AddRif(db, r, conf, MtuOf(a)), Success)
  }

  function CreateRif(db: Db, a: RifAttrs, fpa: RifOracle): (Db, Status)
  {
    if !VrValid(db, a.vr) then (db, InvalidParameter)
    else
      var m := MtuSlot(db.mtus, MtuOf(a));
      var r := FreeRif(db.rifs);
      if m >= MTU_TABLE_SIZE || r >= RIF_TABLE_SIZE then (db, TableFull)
      else
        var (portVlan, bad) := PortVlanOf(a);
        if bad != Success then (db, bad)
        else EnterRif(db, r, a, RifConf(a.kind, portVlan, a.vr, m, MissActOf(a)), fpa)
  }

  function ReleaseMtu(mtus: MtuTable, m: MtuId): MtuTable
    requires mtus[m].refs > 0
  {
    mtus[m := MtuProfile(if mtus[m].refs == 1 then 0 else mtus[m].size, mtus[m].refs - 1)]
  }

  function RemoveRif(db: Db, r: RifId, fpa: RifOracle): (Db, Status)
  {
    var rif := db.rifs[r];
    if !rif.valid then (db, ItemNotFound)
    else if rif.nbrs != [] || rif.nhs != [] then (db, Failure)
    else
      var st := FirstFailure(RemoveCalls(db, r), fpa);
      if st != Success then (db, st)
      else if db.mtus[rif.conf.mtuIdx].refs == 0 then (db, Failure)
      else (db.(mtus := ReleaseMtu(db.mtus, rif.conf.mtuIdx),
                vrs := CountRef(db.vrs, rif.conf.vr, false),
                rifs := db.rifs[r := NO_RIF]), Success)
  }

  predicate RifValid(db: Db, r: u32) { r < RIF_TABLE_SIZE && db.rifs[r].valid }

  function GetMtu(db: Db, r: u32): Option<u32>
  {
    if RifValid(db, r) then Some(db.mtus[db.rifs[r].conf.mtuIdx].size) else None
  }

  // ----- Neighbours -----

  /** mrvl_sai_utl_create_l3_unicast_group: a VLAN interface needs the port from the bridging table first, and where the
      entry there has no group, the status of the lookup is returned: success, with no group made. */
  function MakeGroup(kind: IntfKind, lib: GroupOracle): GroupResult
  {
    if kind.Vlan? && lib.fdb.FdbFails? then GroupRefused
    else if kind.Vlan? && lib.fdb.FdbNoGroup? then GroupReported
    else if lib.added then GroupMade
    else GroupRefused
  }

  function LinkNbr(db: Db, r: RifId, n: NbrId, ip: IpUnion, made: bool): Db
  {
    db.(groups := if made then db.groups + {n} else db.groups,
        nbrs := db.nbrs[n := Nbr(true, ip, r, INVALID_ID)],
        rifs := db.rifs[r := db.rifs[r].(nbrs := [n] + db.rifs[r].nbrs)])
  }

  function SetNextHopOf(nbrs: NbrTable, n: u32, h: u32): NbrTable
  {
    if n < NBR_TABLE_SIZE && nbrs[n].used then nbrs[n := nbrs[n].(nextHop := h)] else nbrs
  }

  /** Fill slot `n`, with or without a group. `stale` is what the source's uninitialised next-hop index holds when no
      next hop matches. */
  function AddNeighbor(db: Db, r: RifId, n: NbrId, ip: IpUnion, made: bool, stale: u32): Db
  {
    var linked := LinkNbr(db, r, n, ip, made);
    var h := FindNh(db, r, ip);
    var pointed := UpdateNextHop(linked, r, n, ip);
    var back := pointed.(nbrs := SetNextHopOf(pointed.nbrs, n, if h == INVALID_ID then stale else h));
    AddHost(back, r, ip, n)
  }

  function CreateNeighbor(db: Db, r: u32, ip: IpUnion, action: Option<PacketAction>, lib: GroupOracle, stale: u32)
      : (Db, Status)
  {
    if !RifValid(db, r) then (db, InvalidParameter)
    else if action.Some? && !action.value.Forward? then (db, NotSupported)
    else
      var n := FreeNbr(db.nbrs);
      if n >= NBR_TABLE_SIZE then (db, TableFull)
      else if FindNbr(db, r, ip) != INVALID_ID then (db, Failure)
      else
        var result := MakeGroup(db.rifs[r].conf.kind, lib);
        if result.GroupRefused? then (db, Failure)
        else (AddNeighbor(db, r, n, Kept(ip), result.GroupMade?, stale), Success)
  }

  function UnlinkNbr(db: Db, r: RifId, n: NbrId): Db
  {
    db.(groups := db.groups - {n},
        nbrs := db.nbrs[n := NO_NBR],
        rifs := db.rifs[r := db.rifs[r].(nbrs := Without(db.rifs[r].nbrs, n))])
  }

  /** The host entry of `host` goes, and the next hop of neighbour `n` falls back on the miss action. */
  function ForgetNbr(db: Db, r: RifId, n: NbrId, host: IpUnion): Db
  {
    UpdateNextHop(DelHost(db, r, host), r, INVALID_ID, db.nbrs[n].ip)
  }

  /** Take neighbour `n` off interface `r`: first host entry and next hop, and only then group and slot. */
  function DropNeighbor(db: Db, r: RifId, n: NbrId): Db
  {
    UnlinkNbr(ForgetNbr(db, r, n, db.nbrs[n].ip), r, n)
  }

  /** The same for a removal that asks for `ip`, which decides which host entry goes. Without its group the neighbour
      stays: the library refuses to delete what is not there. */
  function DropAsked(db: Db, r: RifId, n: NbrId, ip: IpUnion): Db
  {
    var mid := ForgetNbr(db, r, n, ip);
    if n in db.groups then UnlinkNbr(mid, r, n) else mid
  }

  function RemoveNeighbor(db: Db, r: u32, ip: IpUnion): (Db, Status)
  {
    if !RifValid(db, r) then (db, Failure)
    else
      var n := FindNbr(db, r, ip);
      if n == INVALID_ID then (db, ItemNotFound) else (DropAsked(db, r, n, ip), Success)
  }

  /** Destroy the list of interface `r` from its head on. */
  function DrainRif(db: Db, r: RifId): Db
    decreases |db.rifs[r].nbrs|
  {
    var list := db.rifs[r].nbrs;
    if list == [] then db else DrainRif(DropNeighbor(db, r, list[0]), r)
  }

  function RemoveAllFrom(db: Db, r: nat): Db
    requires r <= RIF_TABLE_SIZE
    decreases RIF_TABLE_SIZE - r, db
  {
    if r == RIF_TABLE_SIZE then db else RemoveAllFrom(DrainRif(db, r), r + 1)
  }

  function RemoveAllNeighbors(db: Db): (Db, Status) { (RemoveAllFrom(db, 0), Success) }

  // ----- Next hops -----

  function AddNextHop(db: Db, r: RifId, h: NhId, ip: IpUnion): Db
  {
    var id := Resolve(db, r, ip);
    db.(rifs := db.rifs[r := db.rifs[r].(nhs := [h] + db.rifs[r].nhs)],
        nbrs := SetNextHopOf(db.nbrs, id, h),
        nhs := db.nhs[h := Nh(true, ip, r, id, [])])
  }

  function CreateNextHop(db: Db, isIp: bool, r: u32, ip: IpUnion): (Db, Status)
  {
    if !isIp then (db, InvalidAttrValue)
    else if !RifValid(db, r) then (db, InvalidParameter)
    else if FindNh(db, r, ip) != INVALID_ID then (db, Failure)
    else
      var h := FreeNh(db.nhs);
      if h >= NH_TABLE_SIZE then (db, TableFull) else (AddNextHop(db, r, h, ip), Success)
  }

  function DropNextHop(db: Db, h: NhId): Db
  {
    var r := db.nhs[h].rif;
    db.(nbrs := SetNextHopOf(db.nbrs, db.nhs[h].nbrId, INVALID_ID),
        nhs := db.nhs[h := NO_NH],
        rifs := db.rifs[r := db.rifs[r].(nhs := Without(db.rifs[r].nhs, h))])
  }

  function RemoveNextHop(db: Db, h: NhId): (Db, Status)
  {
    if !db.nhs[h].used || db.nhs[h].routes != [] then (db, Failure)
    else if db.rifs[db.nhs[h].rif].nhs == [] then (db, Failure)
    else (DropNextHop(db, h), Success)
  }

  // ----- Routes -----

  function JoinRoutes(nhs: NhTable, h: NhId, key: RouteKey): NhTable
  {
    nhs[h := nhs[h].(routes := nhs[h].routes + [key])]
  }

  function LeaveRoutes(nhs: NhTable, h: NhId, key: RouteKey): NhTable
  {
    nhs[h := nhs[h].(routes := Without(nhs[h].routes, key))]
  }

  predicate Settable(action: PacketAction) { action.Forward? || action.Trap? || action.Drop? }

  /** The entry a creation asks for, or why it is turned down before the table is looked at. */
  function NewRoute(db: Db, key: RouteKey, action: PacketAction, target: Option<RouteTarget>): (Route, Status)
  {
    var own := if action.Trap? then NBR_TRAP_ID else NBR_DROP_ID;
    var plain := Route(action, false, 0, own, false);
    match target
    case None => (plain, Success)
    case Some(ToNextHop(h)) =>
      if !db.nhs[h].used then (plain, ItemNotFound)
      else if !RifValid(db, db.nhs[h].rif) || db.rifs[db.nhs[h].rif].conf.vr != key.vr then (plain, InvalidParameter)
      else (Route(action, true, h, if action.Forward? then db.nhs[h].nbrId else own, action.Forward?), Success)
    case Some(ToPort(p)) =>
      if p != CPU_PORT then (plain, InvalidPortNumber)
      else (if action.Forward? then Route(Trap, false, 0, NBR_TRAP_ID, false) else plain, Success)
    case Some(ToRif(_)) => (if action.Forward? then Route(Trap, false, 0, NBR_TRAP_ID, false) else plain, Success)
    case Some(ToUnknown) => (plain, InvalidParameter)
  }

  function AddRoute(db: Db, key: RouteKey, route: Route): Db
  {
    db.(routes := db.routes[key := route],
        flows := Recompile(db.flows, key, route),
        nhs := if route.nhValid then JoinRoutes(db.nhs, route.nhIdx, key) else db.nhs)
  }

  /** What table and compiler answer to a checked entry. */
  function EnterRoute(db: Db, key: RouteKey, route: Route): (Db, Status)
  {
    if key in db.routes then (db, ItemAlreadyExists)
    else if |db.routes| >= ROUTE_TABLE_SIZE then (db, TableFull)
    else if Refused(route) then (db, InvalidParameter)
    else (AddRoute(db, key, route), Success)
  }

  function CreateRoute(db: Db, key: RouteKey, priority: Option<u32>, action: Option<PacketAction>,
                       target: Option<RouteTarget>): (Db, Status)
  {
    var act := if action.Some? then action.value else Forward;
    if priority.Some? && priority.value != 0 then (db, NotSupported)
    else if !Settable(act) then (db, NotSupported)
    else if !VrValid(db, key.vr) then (db, InvalidParameter)
    else
      var (route, bad) := NewRoute(db, key, act, target);
      if bad != Success then (db, bad) else EnterRoute(db, key, route)
  }

  function LookupRoute(db: Db, key: RouteKey): Status
  {
    if !VrValid(db, key.vr) then InvalidParameter
    else if key !in db.routes then ItemNotFound
    else Success
  }

  function DropRoute(db: Db, key: RouteKey): Db
    requires key in db.routes
  {
    var route := db.routes[key];
    db.(routes := db.routes - {key},
        flows := db.flows - {RouteCookie(key)},
        nhs := if route.nhValid && db.nhs[route.nhIdx].used then LeaveRoutes(db.nhs, route.nhIdx, key) else db.nhs)
  }

  function RemoveRoute(db: Db, key: RouteKey): (Db, Status)
  {
    if LookupRoute(db, key) != Success then (db, ItemNotFound)
    else
      var route := db.routes[key];
      (DropRoute(db, key), if route.nhValid && !db.nhs[route.nhIdx].used then ItemNotFound else Success)
  }

  /** A route with a next hop takes over the id that one caches now. */
  function TakeOver(route: Route, nhs: NhTable): Route
  {
    if route.nhValid then route.(nbrIdx := nhs[route.nhIdx].nbrId, follows := true) else route
  }

  /** A new action. A route with a next hop first takes over the id its next hop caches now (and moves to the
      tail of the list if that changes it); an action that cannot be compiled destroys the route. */
  function ChangeAction(db: Db, key: RouteKey, action: PacketAction): Db
    requires key in db.routes
  {
    var was := db.routes[key];
    var h := was.nhIdx;
    var route := TakeOver(was.(action := action), db.nhs);
    if Refused(route) then DropRoute(db, key)
    else
      db.(routes := db.routes[key := route],
          flows := Recompile(db.flows, key, route),
          nhs := if route.nbrIdx != was.nbrIdx then JoinRoutes(LeaveRoutes(db.nhs, h, key), h, key) else db.nhs)
  }

  function SetRouteAction(db: Db, key: RouteKey, action: PacketAction): (Db, Status)
  {
    if LookupRoute(db, key) != Success then (db, LookupRoute(db, key))
    else if !Settable(action) then (db, NotSupported)
    else
      var route := db.routes[key];
      if action == route.action then (db, Success)
      else if route.nhValid && !db.nhs[route.nhIdx].used then
        (db.(routes := db.routes[key := route.(action := action)]), ItemNotFound)
      else (ChangeAction(db, key, action), if Refused(route.(action := action)) then InvalidParameter else Success)
  }

  /** A new next hop. Only a route that already had one takes over the id cached by the new one, and nothing
      checks that the new one is in use. */
  function ChangeNextHop(db: Db, key: RouteKey, h: NhId): Db
    requires key in db.routes
  {
    var was := db.routes[key];
    var moved := was.(nhValid := true, nhIdx := h);
    var route := if was.nhValid && db.nhs[h].used then TakeOver(moved, db.nhs) else moved;
    var left := if was.nhValid && db.nhs[was.nhIdx].used then LeaveRoutes(db.nhs, was.nhIdx, key) else db.nhs;
    db.(routes := db.routes[key := route],
        flows := Recompile(db.flows, key, route),
        nhs := if db.nhs[h].used then JoinRoutes(left, h, key) else left)
  }

  function SetRouteNextHop(db: Db, key: RouteKey, h: NhId): (Db, Status)
  {
    if LookupRoute(db, key) != Success then (db, LookupRoute(db, key))
    else if db.routes[key].nhValid && db.routes[key].nhIdx == h then (db, Success)
    else (ChangeNextHop(db, key, h), if db.nhs[h].used then Success else ItemNotFound)
  }
}
