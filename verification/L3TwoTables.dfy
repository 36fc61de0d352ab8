/** What becomes of IPv6 routes if the switch library keeps its two L3 unicast tables apart: the sources add an IPv6
    route to the one for IPv6 and delete every route from the other. */
module L3TwoTables {
  import opened Words
  import opened L3Types
  import opened SeqLib
  import opened L3Spec
  import opened L3Invariant
  import opened L3Neighbors
  import opened L3Routes
  import opened L3Runs

  datatype FlowTable = Unicast | UnicastIpv6

  /** The table that the entry behind a cookie was added to. */
  function TableOf(c: Cookie): FlowTable
  {
    if c.RouteCookie? && c.key.dest.addr.V6? then UnicastIpv6 else Unicast
  }

  /** Deletion by cookie from the table that the sources name. */
  function DeleteApart(flows: map<Cookie, Flow>, c: Cookie): (map<Cookie, Flow>, FpaStatus)
  {
    if c in flows && TableOf(c) == Unicast then (flows - {c}, FpaOk) else (flows, FpaNotFound)
  }

  /** mrvl_sai_remove_route. What the library answers is no SAI status, so its test for one never holds. */
  function RemoveRouteApart(db: Db, key: RouteKey): (Db, Status)
  {
    if LookupRoute(db, key) != Success then (db, ItemNotFound)
    else
      var (_, s) := DeleteApart(db.flows, RouteCookie(key));
      if s != FpaOk then (db, ToStatus(s)) else RemoveRoute(db, key)
  }

  /** A route that could not be modified leaves the hash; its element leaves the list of its next hop only if the id
      that one caches is new to it. */
  function Lost(db: Db, key: RouteKey): Db
    requires key in db.routes
  {
    var route := db.routes[key];
    var moved := route.nhValid && route.nbrIdx != db.nhs[route.nhIdx].nbrId;
    db.(routes := db.routes - {key}, nhs := if moved then LeaveRoutes(db.nhs, route.nhIdx, key) else db.nhs)
  }

  /** mrvl_sai_route_packet_action_set_prv */
  function SetRouteActionApart(db: Db, key: RouteKey, action: PacketAction): (Db, Status)
  {
    if LookupRoute(db, key) != Success || !Settable(action) || action == db.routes[key].action then
      SetRouteAction(db, key, action)
    else
      var route := db.routes[key];
      var (_, s) := DeleteApart(db.flows, RouteCookie(key));
      if (route.nhValid && !db.nhs[route.nhIdx].used) || s == FpaOk then SetRouteAction(db, key, action)
      else (Lost(db, key), ToStatus(s))
  }

  /** mrvl_sai_route_next_hop_id_set_prv. The element has left the list of the old next hop when the modification
      fails. */
  function SetRouteNextHopApart(db: Db, key: RouteKey, h: NhId): (Db, Status)
  {
    if LookupRoute(db, key) != Success || (db.routes[key].nhValid && db.routes[key].nhIdx == h) then
      SetRouteNextHop(db, key, h)
    else
      var was := db.routes[key];
      var (_, s) := DeleteApart(db.flows, RouteCookie(key));
      if s == FpaOk then SetRouteNextHop(db, key, h)
      else
        var left := if was.nhValid && db.nhs[was.nhIdx].used then LeaveRoutes(db.nhs, was.nhIdx, key) else db.nhs;
        (db.(routes := db.routes - {key}, nhs := left), ToStatus(s))
  }

  /** mrvl_sai_route_update_nbr_id. A route that could not be modified leaves the hash, and its element the walk goes
      over stays on the ring; such an element changes nothing when it is met again. */
  function UpdateRouteApart(db: Db, key: RouteKey, id: u32): (to: Db)
    ensures to == db.(routes := to.routes, flows := to.flows)
  {
    if key !in db.routes then db
    else
      var route := db.routes[key].(nbrIdx := id, follows := true);
      var (flows, s) := DeleteApart(db.flows, RouteCookie(key));
      if s != FpaOk || Refused(route) then db.(routes := db.routes - {key}, flows := flows)
      else db.(routes := db.routes[key := route], flows := Recompile(db.flows, key, route))
  }

  /** The walk of mrvl_sai_next_hop_update_nbr_id, which looks at none of the answers. */
  function RepointApart(db: Db, list: seq<RouteKey>, id: u32): (to: Db)
    ensures to == db.(routes := to.routes, flows := to.flows)
    decreases |list|
  {
    if list == [] then db else RepointApart(UpdateRouteApart(db, list[0], id), list[1..], id)
  }

  function PointNextHopApart(db: Db, h: NhId, id: u32): Db
  {
    RepointApart(db.(nhs := db.nhs[h := db.nhs[h].(nbrId := id)]), db.nhs[h].routes, id)
  }

  function UpdateNextHopApart(db: Db, r: RifId, id: u32, ip: IpUnion): (to: Db)
    ensures to == db.(nhs := to.nhs, routes := to.routes, flows := to.flows)
  {
    var h := FindNh(db, r, ip);
    if h == INVALID_ID then db
    else PointNextHopApart(db, h, if id == INVALID_ID then MissId(db.rifs[r].conf.missAct) else id)
  }

  function AddNeighborApart(db: Db, r: RifId, n: NbrId, ip: IpUnion, made: bool, stale: u32): Db
  {
    var linked := LinkNbr(db, r, n, ip, made);
    var h := FindNh(db, r, ip);
    var pointed := UpdateNextHopApart(linked, r, n, ip);
    var back := pointed.(nbrs := SetNextHopOf(pointed.nbrs, n, if h == INVALID_ID then stale else h));
    AddHost(back, r, ip, n)
  }

  /** mrvl_sai_create_neighbor_entry */
  function CreateNeighborApart(db: Db, r: u32, ip: IpUnion, action: Option<PacketAction>, lib: GroupOracle, stale: u32)
      : (Db, Status)
  {
    var (to, st) := CreateNeighbor(db, r, ip, action, lib, stale);
    if st != Success then (to, st)
    else
      var made := MakeGroup(db.rifs[r].conf.kind, lib).GroupMade?;
      (AddNeighborApart(db, r, FreeNbr(db.nbrs), Kept(ip), made, stale), Success)
  }

  function ForgetNbrApart(db: Db, r: RifId, n: NbrId, host: IpUnion): Db
  {
    UpdateNextHopApart(DelHost(db, r, host), r, INVALID_ID, db.nbrs[n].ip)
  }

  function DropNeighborApart(db: Db, r: RifId, n: NbrId): Db
  {
    UnlinkNbr(ForgetNbrApart(db, r, n, db.nbrs[n].ip), r, n)
  }

  /** mrvl_sai_remove_neighbor_entry */
  function RemoveNeighborApart(db: Db, r: u32, ip: IpUnion): (Db, Status)
  {
    if !RifValid(db, r) then (db, Failure)
    else
      var n := FindNbr(db, r, ip);
      if n == INVALID_ID then (db, ItemNotFound)
      else
        var mid := ForgetNbrApart(db, r, n, ip);
        (if n in db.groups then UnlinkNbr(mid, r, n) else mid, Success)
  }

  /** mrvl_sai_remove_all_neighbor_entries */
  function DrainRifApart(db: Db, r: RifId): Db
    decreases |db.rifs[r].nbrs|
  {
    var list := db.rifs[r].nbrs;
    if list == [] then db else DrainRifApart(DropNeighborApart(db, r, list[0]), r)
  }

  function RemoveAllApart(db: Db, r: nat): Db
    requires r <= RIF_TABLE_SIZE
    decreases RIF_TABLE_SIZE - r, db
  {
    if r == RIF_TABLE_SIZE then db else RemoveAllApart(DrainRifApart(db, r), r + 1)
  }

  function StepApart(db: Db, cmd: Command): (Db, Status)
  {
    match cmd
    case CreateNbrCmd(r, ip, action, lib, stale) => CreateNeighborApart(db, r, ip, action, lib, stale)
    case RemoveNbrCmd(r, ip) => RemoveNeighborApart(db, r, ip)
    case RemoveAllNbrsCmd => (RemoveAllApart(db, 0), Success)
    case RemoveRouteCmd(key) => RemoveRouteApart(db, key)
    case SetActionCmd(key, action) => SetRouteActionApart(db, key, action)
    case SetNextHopCmd(key, h) => SetRouteNextHopApart(db, key, h)
    case _ => Step(db, cmd)
  }

  function RunApart(db: Db, cmds: seq<Command>): Db
    decreases |cmds|
  {
    if cmds == [] then db else RunApart(StepApart(db, cmds[0]).0, cmds[1..])
  }

  // ----- One route -----

  /** The table that deletion names has the entries of hosts and of IPv4 routes, and no other entry goes. */
  lemma DeletesFromOne(flows: map<Cookie, Flow>, c: Cookie)
    ensures var (to, s) := DeleteApart(flows, c);
            var there := c in flows && (c.HostCookie? || c.key.dest.addr.V4?);
            to == (if there then flows - {c} else flows) && (s == FpaOk <==> there)
  {
  }

  /** The two readings of the library agree on a removal exactly when there is no such route or it is an IPv4 one. */
  lemma RemoveAgreesIff(db: Db, key: RouteKey)
    requires RouteFlows(db.routes, db.flows) && Mirror(db.nhs, db.routes)
    ensures RemoveRouteApart(db, key) == RemoveRoute(db, key) <==> LookupRoute(db, key) != Success || key.dest.addr.V4?
  {
    if LookupRoute(db, key) == Success {
      assert key in db.routes && key !in RemoveRoute(db, key).0.routes;
    }
  }

  /** An IPv6 route that has been created cannot be removed any more. */
  lemma Ipv6RouteStays(db: Db, key: RouteKey, action: Option<PacketAction>, target: Option<RouteTarget>)
    requires key.dest.addr.V6? && CreateRoute(db, key, None, action, target).1 == Success
    ensures var to := CreateRoute(db, key, None, action, target).0;
            key in to.routes && RemoveRouteApart(to, key) == (to, ItemNotFound)
  {
  }

  /** A new action keeps the invariant exactly when the route is an IPv4 one or nothing changes. */
  lemma SetActionKeepsIff(db: Db, key: RouteKey, action: PacketAction)
    requires Inv(db)
    ensures var to := SetRouteActionApart(db, key, action).0;
            Inv(to) <==> key.dest.addr.V4? || to == db
  {
    var to := SetRouteActionApart(db, key, action).0;
    if LookupRoute(db, key) == Success && Settable(action) && action != db.routes[key].action && key.dest.addr.V6? {
      LostStays(db, key, action);
      assert !RouteFlows(to.routes, to.flows);
    } else {
      SetRouteActionKeeps(db, key, action);
    }
  }

  /** The route is gone for every later call, and its entry stays in the switch. Its element stays on the list of its
      next hop exactly if the id that this one caches is the one the route had. */
  lemma LostStays(db: Db, key: RouteKey, action: PacketAction)
    requires Mirror(db.nhs, db.routes) && RouteFlows(db.routes, db.flows) && key.dest.addr.V6?
    requires LookupRoute(db, key) == Success && Settable(action) && action != db.routes[key].action
    ensures var (to, st) := SetRouteActionApart(db, key, action);
            && st == ItemNotFound && key !in to.routes && LookupRoute(to, key) == ItemNotFound
            && RouteCookie(key) in to.flows && to.flows[RouteCookie(key)] == Compile(key, db.routes[key])
            && forall h: NhId :: OffHash(to.nhs, to.routes, h, key) <==>
                 db.routes[key].nhValid && db.routes[key].nhIdx == h && db.routes[key].nbrIdx == db.nhs[h].nbrId
  {
    if db.routes[key].nhValid {
      WithoutNoDup(db.nhs[db.routes[key].nhIdx].routes, key);
    }
  }

  /** A new next hop keeps the invariant exactly when nothing changes, or it is in use and the route an IPv4 one. */
  lemma SetNextHopKeepsIff(db: Db, key: RouteKey, h: NhId)
    requires Inv(db)
    ensures var to := SetRouteNextHopApart(db, key, h).0;
            Inv(to) <==> to == db || (key.dest.addr.V4? && db.nhs[h].used)
  {
    var to := SetRouteNextHopApart(db, key, h).0;
    if LookupRoute(db, key) == Success && !(db.routes[key].nhValid && db.routes[key].nhIdx == h) && key.dest.addr.V6? {
      assert !RouteFlows(to.routes, to.flows);
    } else {
      SetRouteNextHopKeeps(db, key, h);
    }
  }

  /** The lost route has left every list, and its entry stays as it was. */
  lemma LostOffTheLists(db: Db, key: RouteKey, h: NhId)
    requires Mirror(db.nhs, db.routes) && RouteFlows(db.routes, db.flows) && key.dest.addr.V6?
    requires LookupRoute(db, key) == Success && !(db.routes[key].nhValid && db.routes[key].nhIdx == h)
    ensures var (to, st) := SetRouteNextHopApart(db, key, h);
            && st == ItemNotFound && key !in to.routes && Mirror(to.nhs, to.routes)
            && RouteCookie(key) in to.flows && to.flows[RouteCookie(key)] == Compile(key, db.routes[key])
  {
    LeaveKeepsMirror(db.nhs, db.routes, key);
  }

  lemma LeaveKeepsMirror(nhs: NhTable, routes: map<RouteKey, Route>, key: RouteKey)
    requires Mirror(nhs, routes) && key in routes
    ensures Mirror(if routes[key].nhValid then LeaveRoutes(nhs, routes[key].nhIdx, key) else nhs, routes - {key})
  {
    if routes[key].nhValid {
      WithoutNoDup(nhs[routes[key].nhIdx].routes, key);
    }
  }

  // ----- The routes of a next hop -----

  /** No IPv6 route goes through next hop `h`. */
  ghost predicate OnlyV4(db: Db, h: u32) {
    forall k :: k in db.routes && db.routes[k].nhValid && db.routes[k].nhIdx == h ==> k.dest.addr.V4?
  }

  /** What the walk does, entry by entry: the IPv4 routes on the list move, the IPv6 ones leave the hash and their
      entries stay. */
  lemma {:induction false} RepointApartExact(db: Db, list: seq<RouteKey>, id: u32)
    requires NoDup(list)
    requires forall k :: k in list ==> k in db.routes && db.routes[k].nhValid && RouteCookie(k) in db.flows
    ensures var to := RepointApart(db, list, id);
            && (forall k :: k in to.routes <==> k in db.routes && !(k in list && k.dest.addr.V6?))
            && (forall k :: k in to.routes ==>
                  to.routes[k] == if k in list then db.routes[k].(nbrIdx := id, follows := true) else db.routes[k])
            && to.flows.Keys == db.flows.Keys
            && (forall c :: c in to.flows ==>
                  to.flows[c] == if c.RouteCookie? && c.key in list && c.key.dest.addr.V4?
                                 then Compile(c.key, db.routes[c.key].(nbrIdx := id, follows := true)) else db.flows[c])
    decreases |list|
  {
    if list != [] {
      var mid := UpdateRouteApart(db, list[0], id);
      assert forall k :: k in list <==> k == list[0] || k in list[1..];
      assert list[0] !in list[1..];
      RepointApartExact(mid, list[1..], id);
    }
  }

  lemma PointApartIs(db: Db, h: NhId, id: u32)
    requires db.nhs[h].used && Mirror(db.nhs, db.routes) && RouteFlows(db.routes, db.flows) && OnlyV4(db, h)
    ensures PointNextHopApart(db, h, id) == PointNextHop(db, h, id)
  {
    var to, one := PointNextHopApart(db, h, id), PointNextHop(db, h, id);
    RepointApartExact(db.(nhs := db.nhs[h := db.nhs[h].(nbrId := id)]), db.nhs[h].routes, id);
    assert to.routes == one.routes;
    assert to.flows == one.flows;
  }

  /** A route that has left the hash while its element is still on a list */
  ghost predicate OffHash(nhs: NhTable, routes: map<RouteKey, Route>, h: NhId, key: RouteKey) {
    key in nhs[h].routes && key !in routes
  }

  lemma AllMoveKeepsMirror(nhs: NhTable, routes: map<RouteKey, Route>, routes': map<RouteKey, Route>, h: NhId, id: u32)
    requires Mirror(nhs, routes) && nhs[h].used && forall k :: k in routes' <==> k in routes
    requires forall k :: k in routes ==>
               routes'[k] == if k in nhs[h].routes then routes[k].(nbrIdx := id, follows := true) else routes[k]
    ensures Mirror(nhs[h := nhs[h].(nbrId := id)], routes')
  {
  }

  /** An IPv6 route on the list leaves the hash, and its element and its entry stay. */
  lemma SixLeave(db: Db, h: NhId, id: u32, key: RouteKey)
    requires db.nhs[h].used && Mirror(db.nhs, db.routes) && RouteFlows(db.routes, db.flows)
    requires key in db.nhs[h].routes && key.dest.addr.V6?
    ensures var to := PointNextHopApart(db, h, id);
            && OffHash(to.nhs, to.routes, h, key)
            && RouteCookie(key) in to.flows && to.flows[RouteCookie(key)] == Compile(key, db.routes[key])
  {
    RepointApartExact(db.(nhs := db.nhs[h := db.nhs[h].(nbrId := id)]), db.nhs[h].routes, id);
  }

  /** The lists still mirror the routes exactly when no IPv6 route went through the next hop. */
  lemma MirrorSurvivesIff(db: Db, h: NhId, id: u32)
    requires db.nhs[h].used && Mirror(db.nhs, db.routes) && RouteFlows(db.routes, db.flows)
    ensures var to := PointNextHopApart(db, h, id); Mirror(to.nhs, to.routes) <==> OnlyV4(db, h)
  {
    if OnlyV4(db, h) {
      RepointApartExact(db.(nhs := db.nhs[h := db.nhs[h].(nbrId := id)]), db.nhs[h].routes, id);
      AllMoveKeepsMirror(db.nhs, db.routes, PointNextHopApart(db, h, id).routes, h, id);
    } else {
      var k :| k in db.routes && db.routes[k].nhValid && db.routes[k].nhIdx == h && k.dest.addr.V6?;
      SixLeave(db, h, id, k);
    }
  }

  // ----- Neighbours -----

  /** No IPv6 route goes through the next hop that has address `ip` on interface `r`, if there is one. */
  ghost predicate OnlyV4Through(db: Db, r: RifId, ip: IpUnion) {
    FindNh(db, r, ip) != INVALID_ID ==> OnlyV4(db, FindNh(db, r, ip))
  }

  lemma UpdateApartIs(db: Db, r: RifId, id: u32, ip: IpUnion)
    requires NhLists(db.rifs, db.nhs) && Mirror(db.nhs, db.routes) && RouteFlows(db.routes, db.flows)
    ensures var to := UpdateNextHopApart(db, r, id, ip);
            if OnlyV4Through(db, r, ip) then to == UpdateNextHop(db, r, id, ip) else !Mirror(to.nhs, to.routes)
  {
    FindNhMatches(db, r, ip);
    var h := FindNh(db, r, ip);
    if h != INVALID_ID {
      var to := if id == INVALID_ID then MissId(db.rifs[r].conf.missAct) else id;
      MirrorSurvivesIff(db, h, to);
      if OnlyV4(db, h) {
        PointApartIs(db, h, to);
      }
    }
  }

  lemma AddApartIs(db: Db, r: RifId, n: NbrId, ip: IpUnion, made: bool, stale: u32)
    requires NhLists(db.rifs, db.nhs) && Mirror(db.nhs, db.routes) && RouteFlows(db.routes, db.flows)
    ensures var to := AddNeighborApart(db, r, n, ip, made, stale);
            if OnlyV4Through(db, r, ip) then to == AddNeighbor(db, r, n, ip, made, stale)
            else !Mirror(to.nhs, to.routes)
  {
    var linked := LinkNbr(db, r, n, ip, made);
    assert FindNh(linked, r, ip) == FindNh(db, r, ip);
    UpdateApartIs(linked, r, n, ip);
  }

  /** A neighbour created keeps the invariant exactly when it does so with one table and no IPv6 route goes through the
      next hop of its address. */
  lemma CreateNeighborKeepsIff(db: Db, r: u32, ip: IpUnion, action: Option<PacketAction>, lib: GroupOracle, stale: u32)
    requires Inv(db)
    ensures var (one, st) := CreateNeighbor(db, r, ip, action, lib, stale);
            var (to, st') := CreateNeighborApart(db, r, ip, action, lib, stale);
            && st' == st
            && (Inv(to) <==> st != Success || (Inv(one) && OnlyV4Through(db, r, Kept(ip))))
            && (st == Success && OnlyV4Through(db, r, Kept(ip)) ==> to == one)
  {
    var (one, st) := CreateNeighbor(db, r, ip, action, lib, stale);
    if st == Success {
      AddApartIs(db, r, FreeNbr(db.nbrs), Kept(ip), MakeGroup(db.rifs[r].conf.kind, lib).GroupMade?, stale);
    }
  }

  lemma ForgetApartIs(db: Db, r: RifId, n: NbrId, host: IpUnion)
    requires NhLists(db.rifs, db.nhs) && Mirror(db.nhs, db.routes) && RouteFlows(db.routes, db.flows)
    ensures var to := ForgetNbrApart(db, r, n, host);
            if OnlyV4Through(db, r, db.nbrs[n].ip) then to == ForgetNbr(db, r, n, host)
            else !Mirror(to.nhs, to.routes)
  {
    var mid := DelHost(db, r, host);
    assert FindNh(mid, r, db.nbrs[n].ip) == FindNh(db, r, db.nbrs[n].ip);
    UpdateApartIs(mid, r, INVALID_ID, db.nbrs[n].ip);
  }

  /** A neighbour removed likewise. */
  lemma RemoveNeighborKeepsIff(db: Db, r: u32, ip: IpUnion)
    requires Inv(db)
    ensures var (one, st) := RemoveNeighbor(db, r, ip);
            var (to, st') := RemoveNeighborApart(db, r, ip);
            && st' == st
            && (Inv(to) <==> st != Success || (Inv(one) && OnlyV4Through(db, r, db.nbrs[FindNbr(db, r, ip)].ip)))
            && (st == Success && OnlyV4Through(db, r, db.nbrs[FindNbr(db, r, ip)].ip) ==> to == one)
  {
    if RifValid(db, r) && FindNbr(db, r, ip) != INVALID_ID {
      ForgetApartIs(db, r, FindNbr(db, r, ip), ip);
    }
  }

  /** The next hop that caches a neighbour is the one that its address finds. */
  lemma CacherIsFound(db: Db, r: RifId, n: NbrId, h: NhId)
    requires NhLists(db.rifs, db.nhs) && Apart(db.nbrs, db.nhs) && Coherent(db.rifs, db.nbrs, db.nhs)
    requires db.nbrs[n].used && db.nbrs[n].rif == r && db.nhs[h].used && db.nhs[h].nbrId == n
    ensures FindNh(db, r, db.nbrs[n].ip) == h
  {
    assert Resolved(db.rifs, db.nbrs, db.nhs[h].rif, Addr(db.nhs[h].ip), n);
    assert IsNh(db.nhs, r, Addr(db.nbrs[n].ip), h);
    UnmixedIsClear(db.nbrs, db.nhs, r, db.nbrs[n].ip);
    FindNhExact(db, r, db.nbrs[n].ip, h);
  }

  /** The entry of an IPv6 route that forwards to a neighbour goes on naming its group when the neighbour is removed. */
  lemma LostStillSends(db: Db, r: RifId, n: NbrId, h: NhId, key: RouteKey)
    requires Inv(db) && db.nbrs[n].used && db.nbrs[n].rif == r && db.nhs[h].used && db.nhs[h].nbrId == n
    requires key in db.nhs[h].routes && key.dest.addr.V6? && db.routes[key].action.Forward?
    ensures var to := DropNeighborApart(db, r, n);
            && n !in to.groups && key !in to.routes
            && RouteCookie(key) in to.flows && to.flows[RouteCookie(key)].group == Some(n)
  {
    CacherIsFound(db, r, n, h);
    assert db.routes[key].nhIdx == h && Fits(db.nhs, db.routes[key]);
    ForgetLoses(db, r, n, h, key);
  }

  lemma ForgetLoses(db: Db, r: RifId, n: NbrId, h: NhId, key: RouteKey)
    requires Mirror(db.nhs, db.routes) && RouteFlows(db.routes, db.flows) && FindNh(db, r, db.nbrs[n].ip) == h
    requires db.nhs[h].used && key in db.nhs[h].routes && key.dest.addr.V6?
    ensures var to := ForgetNbrApart(db, r, n, db.nbrs[n].ip);
            && key !in to.routes
            && RouteCookie(key) in to.flows && to.flows[RouteCookie(key)] == Compile(key, db.routes[key])
  {
    var mid := DelHost(db, r, db.nbrs[n].ip);
    assert FindNh(mid, r, db.nbrs[n].ip) == h;
    SixLeave(mid, h, MissId(db.rifs[r].conf.missAct), key);
  }

  // ----- Removing every neighbour -----

  ghost predicate Stuck(db: Db) {
    exists h: NhId, k: RouteKey :: OffHash(db.nhs, db.routes, h, k)
  }

  /** No IPv6 route goes through a next hop that caches a neighbour. */
  ghost predicate Spared(db: Db) {
    forall h: NhId :: db.nhs[h].used && db.nhs[h].nbrId < 8192 ==> OnlyV4(db, h)
  }

  /** A route that is off the hash never gets back. */
  lemma {:induction false} RepointKeepsOff(db: Db, list: seq<RouteKey>, id: u32, h: NhId, key: RouteKey)
    requires OffHash(db.nhs, db.routes, h, key)
    ensures var to := RepointApart(db, list, id); OffHash(to.nhs, to.routes, h, key)
    decreases |list|
  {
    if list != [] {
      RepointKeepsOff(UpdateRouteApart(db, list[0], id), list[1..], id, h, key);
    }
  }

  lemma DropKeepsStuck(db: Db, r: RifId, n: NbrId)
    requires Stuck(db)
    ensures Stuck(DropNeighborApart(db, r, n))
  {
    var h: NhId, k: RouteKey :| OffHash(db.nhs, db.routes, h, k);
    var mid := DelHost(db, r, db.nbrs[n].ip);
    var g := FindNh(mid, r, db.nbrs[n].ip);
    if g != INVALID_ID {
      var id := MissId(db.rifs[r].conf.missAct);
      RepointKeepsOff(mid.(nhs := mid.nhs[g := mid.nhs[g].(nbrId := id)]), mid.nhs[g].routes, id, h, k);
    }
    var to := DropNeighborApart(db, r, n);
    assert OffHash(to.nhs, to.routes, h, k);
  }

  lemma {:induction false} DrainKeepsStuck(db: Db, r: RifId)
    requires Stuck(db)
    ensures Stuck(DrainRifApart(db, r))
    decreases |db.rifs[r].nbrs|
  {
    if db.rifs[r].nbrs != [] {
      DropKeepsStuck(db, r, db.rifs[r].nbrs[0]);
      DrainKeepsStuck(DropNeighborApart(db, r, db.rifs[r].nbrs[0]), r);
    }
  }

  lemma {:induction false} AllKeepsStuck(db: Db, r: nat)
    requires Stuck(db) && r <= RIF_TABLE_SIZE
    ensures Stuck(RemoveAllApart(db, r))
    decreases RIF_TABLE_SIZE - r
  {
    if r < RIF_TABLE_SIZE {
      DrainKeepsStuck(db, r);
      AllKeepsStuck(DrainRifApart(db, r), r + 1);
    }
  }

  /** The next hop that the address of a neighbour finds caches it. */
  lemma FoundCaches(db: Db, r: RifId, n: NbrId)
    requires NbrLists(db.rifs, db.nbrs) && NhLists(db.rifs, db.nhs) && Apart(db.nbrs, db.nhs)
    requires Coherent(db.rifs, db.nbrs, db.nhs) && db.nbrs[n].used && db.nbrs[n].rif == r
    ensures var h := FindNh(db, r, db.nbrs[n].ip); h != INVALID_ID ==> db.nhs[h].used && db.nhs[h].nbrId == n
  {
    var h := FindNh(db, r, db.nbrs[n].ip);
    UnmixedIsClear(db.nbrs, db.nhs, r, db.nbrs[n].ip);
    FindNhExact(db, r, db.nbrs[n].ip, h);
    if h != INVALID_ID {
      assert IsNbr(db.nbrs, r, Addr(db.nbrs[n].ip), n);
      assert Resolved(db.rifs, db.nbrs, db.nhs[h].rif, Addr(db.nhs[h].ip), db.nhs[h].nbrId);
    }
  }

  // The databases that are stuck, and those in which no IPv6 route is in the way.
  ghost const STUCK := iset db: Db | Stuck(db)
  ghost const SPARED := iset db: Db | Spared(db)

  /** With two tables, dropping neighbours gets stuck, or does what it does with one. */
  ghost predicate StuckOrSame(db: Db, to: Db, one: Db) {
    if to in STUCK then db !in SPARED else to == one && (db in SPARED <==> one in SPARED)
  }

  lemma DropStuckOrSame(db: Db, r: RifId, n: NbrId)
    requires Inv(db) && db.nbrs[n].used && db.nbrs[n].rif == r
    ensures StuckOrSame(db, DropNeighborApart(db, r, n), DropNeighbor(db, r, n))
  {
    FoundCaches(db, r, n);
    if OnlyV4Through(db, r, db.nbrs[n].ip) {
      ForgetApartIs(db, r, n, db.nbrs[n].ip);
      SameSpared(db, r, n);
      DropNeighborKeeps(db, r, n);
      SoundIsFree(DropNeighbor(db, r, n));
    } else {
      var h := FindNh(db, r, db.nbrs[n].ip);
      var k :| k in db.routes && db.routes[k].nhValid && db.routes[k].nhIdx == h && k.dest.addr.V6?;
      GetsStuck(db, r, n, h, k);
    }
  }

  lemma SoundIsFree(db: Db)
    requires Mirror(db.nhs, db.routes)
    ensures db !in STUCK
  {
  }

  lemma GetsStuck(db: Db, r: RifId, n: NbrId, h: NhId, key: RouteKey)
    requires Mirror(db.nhs, db.routes) && RouteFlows(db.routes, db.flows) && FindNh(db, r, db.nbrs[n].ip) == h
    requires db.nhs[h].used && key in db.nhs[h].routes && key.dest.addr.V6?
    ensures Stuck(DropNeighborApart(db, r, n))
  {
    var mid := DelHost(db, r, db.nbrs[n].ip);
    assert FindNh(mid, r, db.nbrs[n].ip) == h;
    SixLeave(mid, h, MissId(db.rifs[r].conf.missAct), key);
    var to := DropNeighborApart(db, r, n);
    assert OffHash(to.nhs, to.routes, h, key);
  }

  lemma SameSpared(db: Db, r: RifId, n: NbrId)
    requires NhLists(db.rifs, db.nhs) && OnlyV4Through(db, r, db.nbrs[n].ip)
    ensures Spared(db) <==> Spared(DropNeighbor(db, r, n))
  {
    var to, h := DropNeighbor(db, r, n), FindNh(db, r, db.nbrs[n].ip);
    DropNeighborShape(db, r, n);
    DropNeighborFollows(db, r, n);
    forall g: NhId ensures OnlyV4(to, g) <==> OnlyV4(db, g) {
    }
    assert forall g: NhId :: g != h ==> to.nhs[g] == db.nhs[g];
    assert h != INVALID_ID ==> to.nhs[h].nbrId >= 8192 && to.nhs[h].used == db.nhs[h].used;
  }

  lemma {:induction false} DrainStuckOrSame(db: Db, r: RifId)
    requires Inv(db)
    ensures StuckOrSame(db, DrainRifApart(db, r), DrainRif(db, r))
    decreases |db.rifs[r].nbrs|
  {
    if db.rifs[r].nbrs == [] {
      SoundIsFree(db);
    } else {
      var n := db.rifs[r].nbrs[0];
      assert n in db.rifs[r].nbrs;
      DropStuckOrSame(db, r, n);
      if DropNeighborApart(db, r, n) in STUCK {
        DrainKeepsStuck(DropNeighborApart(db, r, n), r);
      } else {
        var next := DropHead(db, r);
        DrainStuckOrSame(next, r);
      }
    }
  }

  lemma {:induction false} AllStuckOrSame(db: Db, r: nat)
    requires Inv(db) && r <= RIF_TABLE_SIZE
    ensures StuckOrSame(db, RemoveAllApart(db, r), RemoveAllFrom(db, r))
    decreases RIF_TABLE_SIZE - r
  {
    if r == RIF_TABLE_SIZE {
      SoundIsFree(db);
    } else {
      DrainStuckOrSame(db, r);
      if DrainRifApart(db, r) in STUCK {
        AllKeepsStuck(DrainRifApart(db, r), r + 1);
      } else {
        DrainRifKeeps(db, r);
        AllStuckOrSame(DrainRif(db, r), r + 1);
      }
    }
  }

  /** Removing every neighbour keeps the invariant exactly when no IPv6 route goes through a next hop that caches
      one. */
  lemma RemoveAllKeepsIff(db: Db)
    requires Inv(db)
    ensures var to := RemoveAllApart(db, 0);
            && (Inv(to) <==> Spared(db))
            && (Spared(db) ==> to == RemoveAllNeighbors(db).0)
  {
    AllStuckOrSame(db, 0);
    RemoveAllClears(db);
    ClearedIsSpared(db, RemoveAllNeighbors(db).0);
    if RemoveAllApart(db, 0) in STUCK {
      StuckIsBroken(RemoveAllApart(db, 0));
    }
  }

  lemma ClearedIsSpared(db: Db, to: Db)
    requires Cleared(db, to)
    ensures Spared(to)
  {
  }

  lemma StuckIsBroken(db: Db)
    requires Stuck(db)
    ensures !Mirror(db.nhs, db.routes)
  {
  }

  // ----- Whole runs -----

  ghost predicate NoV6(db: Db) {
    forall k :: k in db.routes ==> k.dest.addr.V4?
  }

  predicate MakesV6(cmd: Command) { cmd.CreateRouteCmd? && cmd.key.dest.addr.V6? }

  lemma DropApartIs(db: Db, r: RifId, n: NbrId)
    requires NhLists(db.rifs, db.nhs) && Mirror(db.nhs, db.routes) && RouteFlows(db.routes, db.flows) && NoV6(db)
    ensures DropNeighborApart(db, r, n) == DropNeighbor(db, r, n)
  {
    ForgetApartIs(db, r, n, db.nbrs[n].ip);
  }

  lemma {:induction false} DrainApartIs(db: Db, r: RifId)
    requires Inv(db) && NoV6(db)
    ensures DrainRifApart(db, r) == DrainRif(db, r)
    decreases |db.rifs[r].nbrs|
  {
    if db.rifs[r].nbrs != [] {
      DropApartIs(db, r, db.rifs[r].nbrs[0]);
      var next := DropHead(db, r);
      DrainApartIs(next, r);
    }
  }

  lemma {:induction false} RemoveAllApartIs(db: Db, r: nat)
    requires Inv(db) && NoV6(db) && r <= RIF_TABLE_SIZE
    ensures RemoveAllApart(db, r) == RemoveAllFrom(db, r)
    decreases RIF_TABLE_SIZE - r
  {
    if r < RIF_TABLE_SIZE {
      DrainApartIs(db, r);
      DrainRifKeeps(db, r);
      RemoveAllApartIs(DrainRif(db, r), r + 1);
    }
  }

  lemma StepApartIs(db: Db, cmd: Command)
    requires Inv(db) && NoV6(db)
    ensures StepApart(db, cmd) == Step(db, cmd)
  {
    match cmd
    case CreateNbrCmd(r, ip, action, lib, stale) => CreateNeighborKeepsIff(db, r, ip, action, lib, stale);
    case RemoveNbrCmd(r, ip) => RemoveNeighborKeepsIff(db, r, ip);
    case RemoveAllNbrsCmd => RemoveAllApartIs(db, 0);
    case _ =>
  }

  /** No call but a creation makes a route. */
  lemma StepNoV6(db: Db, cmd: Command)
    requires Inv(db) && NoV6(db) && !MakesV6(cmd)
    ensures NoV6(Step(db, cmd).0)
  {
    if cmd.RemoveAllNbrsCmd? {
      RemoveAllFromKeeps(db, 0);
    } else if cmd.CreateNbrCmd? || cmd.RemoveNbrCmd? {
      NbrStepNoV6(db, cmd);
    } else if cmd.CreateRouteCmd? || cmd.RemoveRouteCmd? || cmd.SetActionCmd? || cmd.SetNextHopCmd? {
      RouteStepNoV6(db, cmd);
    } else {
      OtherStepNoV6(db, cmd);
    }
  }

  lemma OtherStepNoV6(db: Db, cmd: Command)
    requires NoV6(db)
    requires cmd.CreateVrCmd? || cmd.RemoveVrCmd? || cmd.CreateRifCmd? || cmd.RemoveRifCmd? || cmd.CreateNhCmd?
             || cmd.RemoveNhCmd?
    ensures NoV6(Step(db, cmd).0)
  {
  }

  lemma NbrStepNoV6(db: Db, cmd: Command)
    requires NoV6(db) && (cmd.CreateNbrCmd? || cmd.RemoveNbrCmd?)
    ensures NoV6(Step(db, cmd).0)
  {
    if Step(db, cmd).1 == Success {
      if cmd.CreateNbrCmd? {
        var n := FreeNbr(db.nbrs);
        UpdateKeepsKeys(LinkNbr(db, cmd.on, n, Kept(cmd.ip), MakeGroup(db.rifs[cmd.on].conf.kind, cmd.lib).GroupMade?),
                        cmd.on, n, Kept(cmd.ip));
      } else {
        UpdateKeepsKeys(DelHost(db, cmd.on, cmd.ip), cmd.on, INVALID_ID, db.nbrs[FindNbr(db, cmd.on, cmd.ip)].ip);
      }
    }
  }

  lemma UpdateKeepsKeys(db: Db, r: RifId, id: u32, ip: IpUnion)
    ensures UpdateNextHop(db, r, id, ip).routes.Keys == db.routes.Keys
  {
  }

  lemma RouteStepNoV6(db: Db, cmd: Command)
    requires NoV6(db) && !MakesV6(cmd)
    requires cmd.CreateRouteCmd? || cmd.RemoveRouteCmd? || cmd.SetActionCmd? || cmd.SetNextHopCmd?
    ensures NoV6(Step(db, cmd).0)
  {
  }

  /** As long as nobody creates an IPv6 route, the two readings of the library agree, call by call: all that is proved
      of runs with one table holds of those with two. */
  lemma {:induction false} RunApartIs(db: Db, cmds: seq<Command>)
    requires Inv(db) && NoV6(db) && AllowedRun(db, cmds) && forall cmd :: cmd in cmds ==> !MakesV6(cmd)
    ensures RunApart(db, cmds) == Run(db, cmds)
    decreases |cmds|
  {
    if cmds != [] {
      var next := Step(db, cmds[0]).0;
      StepApartIs(db, cmds[0]);
      StepKeeps(db, cmds[0]);
      StepNoV6(db, cmds[0]);
      assert forall cmd :: cmd in cmds[1..] ==> cmd in cmds;
      RunApartIs(next, cmds[1..]);
    }
  }
}
