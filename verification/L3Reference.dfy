/** A reference machine without lists, caches, counters or flow entries: only what callers configured. It shares nothing
    with the operations but the types; sizes and numbers are those of inc/mrvl_sai.h, written out. */
module L3Reference {
  import opened Words
  import opened L3Types
  import opened Hardware

  /** Where a neighbour or a next hop sits. */
  datatype Seat = Seat(rif: nat, ip: Ip)

  datatype RifCfg = RifCfg(kind: IntfKind, portVlan: u32, vr: u32, mtu: u32, missAct: PacketAction)

  /** What a route caches: the reserved id it was created with, or whatever its next hop resolves to. */
  datatype Cached = OwnTrap | OwnDrop | FollowsHop

  datatype RouteCfg = RouteCfg(action: PacketAction, hop: Option<nat>, cached: Cached)

  datatype Config = Config(
    vrs: set<nat>,
    rifs: map<nat, RifCfg>,
    nbrs: map<nat, Seat>,
    hops: map<nat, Seat>,
    routes: map<RouteKey, RouteCfg>
  )

  const EMPTY_CONFIG := Config({}, map[], map[], map[], map[])

  // ----- What the database says was configured -----

  ghost function VrsOf(vrs: VrTable): set<nat> { set v: nat | v < |vrs| && vrs[v].valid }

  ghost function RifsOf(rifs: RifTable): map<nat, RifCfg> {
    map r: nat | r < |rifs| && rifs[r].valid ::
      RifCfg(rifs[r].conf.kind, rifs[r].conf.portVlan, rifs[r].conf.vr, rifs[r].mtu, rifs[r].conf.missAct)
  }

  ghost function NbrsOf(nbrs: NbrTable): map<nat, Seat> {
    map n: nat | n < |nbrs| && nbrs[n].used :: Seat(nbrs[n].rif, Addr(nbrs[n].ip))
  }

  ghost function HopsOf(nhs: NhTable): map<nat, Seat> {
    map h: nat | h < |nhs| && nhs[h].used :: Seat(nhs[h].rif, Addr(nhs[h].ip))
  }

  function RouteOf(route: Route): RouteCfg
  {
    RouteCfg(route.action, if route.nhValid then Some(route.nhIdx) else None,
             if route.follows then FollowsHop else if route.nbrIdx == 0xFFFF_FFFE then OwnTrap else OwnDrop)
  }

  ghost function RoutesOf(routes: map<RouteKey, Route>): map<RouteKey, RouteCfg> {
    map k | k in routes :: RouteOf(routes[k])
  }

  ghost function ConfigOf(db: Db): Config {
    Config(VrsOf(db.vrs), RifsOf(db.rifs), NbrsOf(db.nbrs), HopsOf(db.nhs), RoutesOf(db.routes))
  }

  // ----- The reference machine -----

  /** Every slot of a table is taken. */
  ghost predicate Full(ids: set<nat>, size: nat) { forall i: nat :: i < size ==> i in ids }

  ghost predicate Taken(seats: map<nat, Seat>, seat: Seat) { exists i :: i in seats && seats[i] == seat }

  ghost predicate OnRif(seats: map<nat, Seat>, r: nat) { exists i :: i in seats && seats[i].rif == r }

  /** The first id that is free. */
  ghost predicate First(ids: set<nat>, size: nat, i: nat) {
    i < size && i !in ids && forall j: nat :: j < i ==> j in ids
  }

  /** A seat is given under the first id that was free. */
  ghost predicate Seated(was: map<nat, Seat>, now: map<nat, Seat>, size: nat, seat: Seat) {
    exists i: nat :: First(was.Keys, size, i) && now == was[i := seat]
  }

  ghost predicate Placed(was: map<nat, RifCfg>, now: map<nat, RifCfg>, rif: RifCfg) {
    exists r: nat :: First(was.Keys, 128, r) && now == was[r := rif]
  }

  ghost function Mtus(rifs: map<nat, RifCfg>): set<u32> { set r | r in rifs :: rifs[r].mtu }

  /** A neighbour that comes or goes makes every route whose next hop has its seat follow that next hop. */
  ghost function Touched(routes: map<RouteKey, RouteCfg>, hops: map<nat, Seat>, seats: set<Seat>)
      : map<RouteKey, RouteCfg> {
    map k | k in routes ::
      if routes[k].hop.Some? && routes[k].hop.value in hops && hops[routes[k].hop.value] in seats
      then routes[k].(cached := FollowsHop) else routes[k]
  }

  /** Another interface than `r` sits on this port or vlan (and in virtual router `vr`, if given). */
  ghost predicate RefShared(rifs: map<nat, RifCfg>, r: Option<nat>, kind: IntfKind, portVlan: u32, vr: Option<u32>) {
    exists i :: i in rifs && r != Some(i) && rifs[i].kind == kind && rifs[i].portVlan == portVlan
                && (vr.Some? ==> rifs[i].vr == vr.value)
  }

  /** The calls into the switch that creating an interface makes. The source compares the others with the kind that a
      slot not yet filled has, which is that of a port. */
  ghost function RefCreateCalls(c: Config, a: RifAttrs): seq<RifCall> {
    var place := WantedRif(a).portVlan;
    if a.kind.Loopback? then []
    else
      (if a.v4 then [InitTermV4, AddTermV4] else [])
      + (if a.v6 then [InitTermV6, AddTermV6] else [])
      + (if RefShared(c.rifs, None, Port, place, Some(a.vr)) then [] else [InitVrId, AddVrId])
      + (if RefShared(c.rifs, None, Port, place, None) then [] else [InitControl, AddControl, InitFdb, AddFdb])
  }

  ghost function RefRemoveCalls(c: Config, r: nat): seq<RifCall>
    requires r in c.rifs
  {
    var rif := c.rifs[r];
    if rif.kind.Port? || rif.kind.Vlan? then
      [DelTermV4, DelTermV6]
      + (if RefShared(c.rifs, Some(r), rif.kind, rif.portVlan, Some(rif.vr)) then [] else [DelVrId])
      + (if RefShared(c.rifs, Some(r), rif.kind, rif.portVlan, None) then [] else [DelControl, DelFdb])
    else []
  }

  /** Three calls take it for success that the entry is there already. */
  predicate Goes(call: RifCall, s: FpaStatus) {
    s == FpaOk || (s == FpaAlreadyExist && call in {AddVrId, AddControl, AddFdb})
  }

  /** The answer is success if all calls go, else what the first that does not go returned. */
  ghost predicate Answers(calls: seq<RifCall>, fpa: RifOracle, st: Status) {
    if forall i :: 0 <= i < |calls| ==> Goes(calls[i], fpa(calls[i])) then st == Success
    else exists i :: FirstToFail(calls, fpa, i) && Returned(fpa(calls[i]), st)
  }

  ghost predicate FirstToFail(calls: seq<RifCall>, fpa: RifOracle, i: int) {
    && 0 <= i < |calls| && !Goes(calls[i], fpa(calls[i]))
    && forall j :: 0 <= j < i ==> Goes(calls[j], fpa(calls[j]))
  }

  predicate Returned(s: FpaStatus, st: Status) {
    match st
    case ItemAlreadyExists => s == FpaAlreadyExist
    case ItemNotFound => s == FpaNotFound
    case Failure => s == FpaFail
    case _ => false
  }

  ghost predicate RefCreateVr(c: Config, v4: Option<bool>, v6: Option<bool>, to: Config, st: Status) {
    if v4 == Some(false) || v6 == Some(false) then to == c && st == InvalidParameter
    else if Full(c.vrs, 128) then to == c && st == TableFull
    else st == Success && exists v: nat :: First(c.vrs, 128, v) && to == c.(vrs := c.vrs + {v})
  }

  /** A virtual router can go when no interface is in it. */
  ghost predicate RefRemoveVr(c: Config, v: nat, to: Config, st: Status) {
    if v in c.vrs && forall r :: r in c.rifs ==> c.rifs[r].vr != v then to == c.(vrs := c.vrs - {v}) && st == Success
    else to == c && st == Failure
  }

  /** What the attributes ask for. */
  function WantedRif(a: RifAttrs): RifCfg
  {
    RifCfg(a.kind,
           if a.kind.Port? && a.port.Some? then a.port.value
           else if a.kind.Vlan? && a.vlan.Some? then a.vlan.value
           else 0,
           a.vr,
           if a.mtu.Some? then a.mtu.value else 1514,
           if a.missAct.Some? then a.missAct.value else Trap)
  }

  /** A port needs its number, a VLAN its id, and none may have more than its kind has use for. */
  function BadAttrs(a: RifAttrs): Status
  {
    if a.kind.OtherKind? then InvalidAttrValue
    else if (a.kind.Port? && a.port.None?) || (a.kind.Vlan? && a.vlan.None?) then MandatoryAttributeMissing
    else if (!a.kind.Port? && a.port.Some?) || (!a.kind.Vlan? && a.vlan.Some?) then InvalidAttribute
    else if a.kind.Loopback? && a.hasMac then InvalidAttribute
    else Success
  }

  /** There is room for eight different MTUs. */
  ghost predicate RefCreateRif(c: Config, a: RifAttrs, fpa: RifOracle, to: Config, st: Status) {
    var rif := WantedRif(a);
    if a.vr !in c.vrs then to == c && st == InvalidParameter
    else if rif.mtu !in Mtus(c.rifs) && |Mtus(c.rifs)| >= 8 then to == c && st == TableFull
    else if Full(c.rifs.Keys, 128) then to == c && st == TableFull
    else if BadAttrs(a) != Success then to == c && st == BadAttrs(a)
    else
      && Answers(RefCreateCalls(c, a), fpa, st)
      && if st != Success then to == c else Placed(c.rifs, to.rifs, rif) && to == c.(rifs := to.rifs)
  }

  /** An interface can go when nothing sits on it. */
  ghost predicate RefRemoveRif(c: Config, r: nat, fpa: RifOracle, to: Config, st: Status) {
    if r !in c.rifs then to == c && st == ItemNotFound
    else if OnRif(c.nbrs, r) || OnRif(c.hops, r) then to == c && st == Failure
    else Answers(RefRemoveCalls(c, r), fpa, st) && to == if st != Success then c else c.(rifs := c.rifs - {r})
  }

  /** What the library must answer if a neighbour is to be entered. On a VLAN an entry of the bridging table without
      group is enough, and no group is made. */
  predicate Welcome(kind: IntfKind, lib: GroupOracle) {
    if kind == Vlan && lib.fdb == FdbFails then false
    else if kind == Vlan && lib.fdb == FdbNoGroup then true
    else lib.added
  }

  ghost predicate RefCreateNbr(c: Config, r: nat, ip: Ip, action: Option<PacketAction>, lib: GroupOracle, to: Config,
      st: Status) {
    if r !in c.rifs then to == c && st == InvalidParameter
    else if action.Some? && action.value != Forward then to == c && st == NotSupported
    else if Full(c.nbrs.Keys, 8192) then to == c && st == TableFull
    else if Taken(c.nbrs, Seat(r, ip)) || !Welcome(c.rifs[r].kind, lib) then to == c && st == Failure
    else
      && st == Success && Seated(c.nbrs, to.nbrs, 8192, Seat(r, ip))
      && to == c.(nbrs := to.nbrs, routes := Touched(c.routes, c.hops, {Seat(r, ip)}))
  }

  ghost predicate RefRemoveNbr(c: Config, r: nat, ip: Ip, to: Config, st: Status) {
    if r !in c.rifs then to == c && st == Failure
    else if !Taken(c.nbrs, Seat(r, ip)) then to == c && st == ItemNotFound
    else
      && st == Success
      && to == c.(nbrs := map n | n in c.nbrs && c.nbrs[n] != Seat(r, ip) :: c.nbrs[n],
                  routes := Touched(c.routes, c.hops, {Seat(r, ip)}))
  }

  ghost function RefRemoveAllNbrs(c: Config): Config {
    c.(nbrs := map[], routes := Touched(c.routes, c.hops, c.nbrs.Values))
  }

  ghost predicate RefCreateNh(c: Config, isIp: bool, r: nat, ip: Ip, to: Config, st: Status) {
    if !isIp then to == c && st == InvalidAttrValue
    else if r !in c.rifs then to == c && st == InvalidParameter
    else if Taken(c.hops, Seat(r, ip)) then to == c && st == Failure
    else if Full(c.hops.Keys, 1024) then to == c && st == TableFull
    else st == Success && Seated(c.hops, to.hops, 1024, Seat(r, ip)) && to == c.(hops := to.hops)
  }

  /** A next hop can go when no route goes through it. */
  ghost predicate RefRemoveNh(c: Config, h: nat, to: Config, st: Status) {
    if h in c.hops && forall k :: k in c.routes ==> c.routes[k].hop != Some(h)
    then to == c.(hops := c.hops - {h}) && st == Success
    else to == c && st == Failure
  }

  /** What a route creation asks for: forwarding to the CPU port or to an interface means trapping. A route that does
      not forward starts with an id of its own. */
  ghost function RefNewRoute(c: Config, key: RouteKey, action: PacketAction, target: Option<RouteTarget>)
      : (RouteCfg, Status) {
    var own := RouteCfg(action, None, if action == Trap then OwnTrap else OwnDrop);
    var trapped := if action == Forward then RouteCfg(Trap, None, OwnTrap) else own;
    match target
    case None => (own, Success)
    case Some(ToNextHop(h)) =>
      if h !in c.hops then (own, ItemNotFound)
      else if c.hops[h].rif !in c.rifs || c.rifs[c.hops[h].rif].vr != key.vr then (own, InvalidParameter)
      else (own.(hop := Some(h), cached := if action == Forward then FollowsHop else own.cached), Success)
    case Some(ToPort(p)) => (trapped, if p == 63 then Success else InvalidPortNumber)
    case Some(ToRif(_)) => (trapped, Success)
    case Some(ToUnknown) => (own, InvalidParameter)
  }

  ghost predicate RefCreateRoute(c: Config, key: RouteKey, priority: Option<u32>, action: Option<PacketAction>,
                                 target: Option<RouteTarget>, to: Config, st: Status)
  {
    var act := if action.Some? then action.value else Forward;
    var (route, bad) := RefNewRoute(c, key, act, target);
    if priority.Some? && priority.value != 0 then to == c && st == NotSupported
    else if act != Forward && act != Trap && act != Drop then to == c && st == NotSupported
    else if key.vr !in c.vrs then to == c && st == InvalidParameter
    else if bad != Success then to == c && st == bad
    else if key in c.routes then to == c && st == ItemAlreadyExists
    else if |c.routes| >= 8192 then to == c && st == TableFull
    else if route.action == Forward && route.hop == None then to == c && st == InvalidParameter
    else to == c.(routes := c.routes[key := route]) && st == Success
  }

  /** A route onto a next hop that is not there. */
  ghost predicate Astray(c: Config, route: RouteCfg) { route.hop.Some? && route.hop.value !in c.hops }

  /** The route goes, astray or not. */
  ghost predicate RefRemoveRoute(c: Config, key: RouteKey, to: Config, st: Status) {
    if key.vr !in c.vrs || key !in c.routes then to == c && st == ItemNotFound
    else to == c.(routes := c.routes - {key}) && st == if Astray(c, c.routes[key]) then ItemNotFound else Success
  }

  /** A route without next hop that is set to forward is lost; one with a next hop follows it from a new action on, if
      that is in use. */
  ghost predicate RefSetAction(c: Config, key: RouteKey, action: PacketAction, to: Config, st: Status) {
    if key.vr !in c.vrs then to == c && st == InvalidParameter
    else if key !in c.routes then to == c && st == ItemNotFound
    else if action != Forward && action != Trap && action != Drop then to == c && st == NotSupported
    else
      var route := c.routes[key];
      if action == route.action then to == c && st == Success
      else if Astray(c, route) then
        to == c.(routes := c.routes[key := route.(action := action)]) && st == ItemNotFound
      else if action == Forward && route.hop == None then to == c.(routes := c.routes - {key}) && st == InvalidParameter
      else
        && st == Success
        && to == c.(routes := c.routes[key :=
             RouteCfg(action, route.hop, if route.hop.Some? then FollowsHop else route.cached)])
  }

  /** A route that had a next hop follows the new one, if that is in use; one that had none keeps its own id. */
  ghost predicate RefSetNextHop(c: Config, key: RouteKey, h: nat, to: Config, st: Status) {
    if key.vr !in c.vrs then to == c && st == InvalidParameter
    else if key !in c.routes then to == c && st == ItemNotFound
    else
      var route := c.routes[key];
      if route.hop == Some(h) then to == c && st == Success
      else
        && st == (if h in c.hops then Success else ItemNotFound)
        && to == c.(routes := c.routes[key :=
             RouteCfg(route.action, Some(h), if route.hop.Some? && h in c.hops then FollowsHop else route.cached)])
  }

  ghost predicate RefStep(c: Config, cmd: Command, to: Config, st: Status) {
    match cmd
    case CreateVrCmd(v4, v6) => RefCreateVr(c, v4, v6, to, st)
    case RemoveVrCmd(v) => RefRemoveVr(c, v, to, st)
    case CreateRifCmd(a, fpa) => RefCreateRif(c, a, fpa, to, st)
    case RemoveRifCmd(r, fpa) => RefRemoveRif(c, r, fpa, to, st)
    case CreateNbrCmd(r, ip, action, lib, _) => RefCreateNbr(c, r, Addr(ip), action, lib, to, st)
    case RemoveNbrCmd(r, ip) => RefRemoveNbr(c, r, Addr(ip), to, st)
    case RemoveAllNbrsCmd => to == RefRemoveAllNbrs(c) && st == Success
    case CreateNhCmd(isIp, r, ip) => RefCreateNh(c, isIp, r, Addr(ip), to, st)
    case RemoveNhCmd(h) => RefRemoveNh(c, h, to, st)
    case CreateRouteCmd(key, priority, action, target) => RefCreateRoute(c, key, priority, action, target, to, st)
    case RemoveRouteCmd(key) => RefRemoveRoute(c, key, to, st)
    case SetActionCmd(key, action) => RefSetAction(c, key, action, to, st)
    case SetNextHopCmd(key, h) => RefSetNextHop(c, key, h, to, st)
  }

  // ----- What the switch is to do -----

  /** Where packets for a seat go: to the neighbour in it, or by the miss action of the interface. */
  ghost predicate SeatFate(c: Config, seat: Seat, fate: Fate) {
    && seat.rif in c.rifs
    && if Taken(c.nbrs, seat) then exists n :: n in c.nbrs && c.nbrs[n] == seat && fate == ToNeighbor(n)
       else fate == if c.rifs[seat.rif].missAct == Trap then ToController else Discard
  }

  /** A route caches the TRAP id: its own, or that of a next hop that misses to the controller. */
  ghost predicate RefTraps(c: Config, route: RouteCfg) {
    match route.cached
    case OwnTrap => true
    case OwnDrop => false
    case FollowsHop =>
      route.hop.Some? && route.hop.value in c.hops && SeatFate(c, c.hops[route.hop.value], ToController)
  }

  /** What the switch does with a route, straight from the configuration. A route set to drop does not drop while it
      caches the TRAP id. */
  ghost predicate RefFate(c: Config, route: RouteCfg, fate: Fate) {
    match route.action
    case Forward => route.hop.Some? && route.hop.value in c.hops && SeatFate(c, c.hops[route.hop.value], fate)
    case Trap => fate == ToController
    case Drop => fate == if RefTraps(c, route) then ToController else Discard
    case _ => false
  }

  /** The entry of a host sends what is for that address in its interface's virtual router to the neighbour's group, and
      does nothing else. */
  ghost predicate HostFollows(c: Config, ip4: u32, r: nat, flow: Flow) {
    && r in c.rifs && flow.vr == c.rifs[r].vr && flow.dest.addr == V4(ip4) && flow.dest.mask == 0xFFFF_FFFF
    && flow.group.Some? && !flow.toCpu && !flow.clear
    && flow.group.value in c.nbrs && c.nbrs[flow.group.value] == Seat(r, V4(ip4))
  }

  /** The switch holds one entry per route and one per IPv4 neighbour, each for the packets it is there for, and does
      with them what the configuration says. */
  ghost predicate Follows(c: Config, flows: map<Cookie, Flow>, groups: set<NbrId>) {
    && (forall k :: k in c.routes <==> RouteCookie(k) in flows)
    && (forall k :: k in c.routes ==>
          var flow := flows[RouteCookie(k)];
          flow.vr == k.vr && flow.dest == k.dest && RefFate(c, c.routes[k], FateOf(flow)))
    && (forall ip4: u32, r: RifId :: HostCookie(ip4, r) in flows <==> Taken(c.nbrs, Seat(r, V4(ip4))))
    && (forall ip4: u32, r: RifId :: HostCookie(ip4, r) in flows ==>
          HostFollows(c, ip4, r, flows[HostCookie(ip4, r)]))
    && (forall n: NbrId :: n in groups <==> n in c.nbrs)
  }
}
