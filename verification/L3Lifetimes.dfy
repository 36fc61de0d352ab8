/** What stays fixed while an object lives, and what one call undoes of another. */
module L3Lifetimes {
  import opened Words
  import opened L3Types
  import opened SeqLib
  import opened L3Spec
  import opened L3Invariant
  import opened L3Neighbors
  import opened L3Interfaces
  import opened L3Runs

  // ----- What no call changes -----

  /** Interfaces and next hops keep what they were created with until they are zeroed. */
  ghost predicate Stable(db: Db, to: Db) {
    && (forall r: RifId :: db.rifs[r].valid && to.rifs[r].valid ==>
          to.rifs[r].conf == db.rifs[r].conf && to.rifs[r].mtu == db.rifs[r].mtu)
    && (forall h: NhId :: db.nhs[h].used && to.nhs[h].used ==>
          to.nhs[h].rif == db.nhs[h].rif && to.nhs[h].ip == db.nhs[h].ip)
  }

  /** The routes that go through a next hop, and which. */
  ghost predicate SeatsKept(db: Db, to: Db) {
    forall k :: k in to.routes && to.routes[k].nhValid ==>
      k in db.routes && db.routes[k].nhValid && db.routes[k].nhIdx == to.routes[k].nhIdx
  }

  lemma CreateNbrStable(db: Db, r: u32, ip: IpUnion, action: Option<PacketAction>, lib: GroupOracle, stale: u32)
    ensures var to := CreateNeighbor(db, r, ip, action, lib, stale).0;
            Stable(db, to) && SeatsKept(db, to)
  {
    var (to, st) := CreateNeighbor(db, r, ip, action, lib, stale);
    if st == Success {
      AddNeighborFollows(db, r, FreeNbr(db.nbrs), Kept(ip), MakeGroup(db.rifs[r].conf.kind, lib).GroupMade?, stale);
      FollowIsStable(db, to);
    }
  }

  lemma RemoveNbrStable(db: Db, r: u32, ip: IpUnion)
    requires NhLists(db.rifs, db.nhs)
    ensures var to := RemoveNeighbor(db, r, ip).0;
            Stable(db, to) && SeatsKept(db, to)
  {
    var (to, st) := RemoveNeighbor(db, r, ip);
    if st == Success {
      DropAskedFollows(db, r, FindNbr(db, r, ip), ip);
      FollowIsStable(db, to);
    }
  }

  lemma RemoveAllStable(db: Db)
    requires Inv(db)
    ensures var to := RemoveAllNeighbors(db).0;
            Stable(db, to) && SeatsKept(db, to)
  {
    RemoveAllFromKeeps(db, 0);
    CutIsStable(db, RemoveAllFrom(db, 0));
  }

  lemma CutIsStable(db: Db, to: Db)
    requires RoutesFollow(db, to) && CutFrom(db.rifs, to.rifs, 0)
    ensures Stable(db, to) && SeatsKept(db, to)
  {
    FollowIsStable(db, to);
  }

  lemma DropAskedFollows(db: Db, r: RifId, n: NbrId, ip: IpUnion)
    ensures var to := DropAsked(db, r, n, ip);
            && RoutesFollow(db, to)
            && forall q: RifId :: to.rifs[q] == db.rifs[q].(nbrs := to.rifs[q].nbrs)
  {
    ForgetShape(db, r, n, ip);
  }

  lemma AddNeighborFollows(db: Db, r: RifId, n: NbrId, ip: IpUnion, made: bool, stale: u32)
    ensures var to := AddNeighbor(db, r, n, ip, made, stale);
            && RoutesFollow(db, to)
            && forall q: RifId :: to.rifs[q] == db.rifs[q].(nbrs := to.rifs[q].nbrs)
  {
    AddNeighborShape(db, r, n, ip, made, stale);
  }

  lemma FollowIsStable(db: Db, to: Db)
    requires RoutesFollow(db, to) && forall q: RifId :: to.rifs[q] == db.rifs[q].(nbrs := to.rifs[q].nbrs)
    ensures Stable(db, to) && SeatsKept(db, to)
  {
  }

  lemma VrStable(db: Db, cmd: Command)
    requires cmd.CreateVrCmd? || cmd.RemoveVrCmd?
    ensures Stable(db, Step(db, cmd).0) && SeatsKept(db, Step(db, cmd).0)
  {
  }

  lemma RifStable(db: Db, cmd: Command)
    requires cmd.CreateRifCmd? || cmd.RemoveRifCmd?
    ensures Stable(db, Step(db, cmd).0) && SeatsKept(db, Step(db, cmd).0)
  {
  }

  lemma NhStable(db: Db, cmd: Command)
    requires cmd.CreateNhCmd? || cmd.RemoveNhCmd?
    ensures Stable(db, Step(db, cmd).0) && SeatsKept(db, Step(db, cmd).0)
  {
  }

  lemma CreateRouteStable(db: Db, key: RouteKey, priority: Option<u32>, action: Option<PacketAction>,
        target: Option<RouteTarget>)
    ensures Stable(db, CreateRoute(db, key, priority, action, target).0)
  {
  }

  lemma RemoveRouteStable(db: Db, key: RouteKey)
    ensures var to := RemoveRoute(db, key).0;
            Stable(db, to) && SeatsKept(db, to)
  {
  }

  lemma SetActionStable(db: Db, key: RouteKey, action: PacketAction)
    ensures var to := SetRouteAction(db, key, action).0;
            Stable(db, to) && SeatsKept(db, to)
  {
  }

  lemma SetNextHopStable(db: Db, key: RouteKey, h: NhId)
    ensures Stable(db, SetRouteNextHop(db, key, h).0)
  {
  }

  lemma StepStable(db: Db, cmd: Command)
    requires Inv(db)
    ensures Stable(db, Step(db, cmd).0)
    ensures !cmd.CreateRouteCmd? && !cmd.SetNextHopCmd? ==> SeatsKept(db, Step(db, cmd).0)
  {
    if cmd.CreateNbrCmd? {
      CreateNbrStable(db, cmd.on, cmd.ip, cmd.nbrAction, cmd.lib, cmd.stale);
    } else if cmd.RemoveNbrCmd? {
      RemoveNbrStable(db, cmd.on, cmd.ip);
    } else if cmd.RemoveAllNbrsCmd? {
      RemoveAllStable(db);
    } else if cmd.CreateRouteCmd? {
      CreateRouteStable(db, cmd.key, cmd.priority, cmd.routeAction, cmd.target);
    } else if cmd.RemoveRouteCmd? {
      RemoveRouteStable(db, cmd.key);
    } else if cmd.SetActionCmd? {
      SetActionStable(db, cmd.key, cmd.action);
    } else if cmd.SetNextHopCmd? {
      SetNextHopStable(db, cmd.key, cmd.nh);
    } else if cmd.CreateVrCmd? || cmd.RemoveVrCmd? {
      VrStable(db, cmd);
    } else if cmd.CreateRifCmd? || cmd.RemoveRifCmd? {
      RifStable(db, cmd);
    } else {
      NhStable(db, cmd);
    }
  }

  /** A call that stays inside the virtual routers of its routes. */
  predicate InVr(db: Db, cmd: Command) {
    cmd.SetNextHopCmd? ==> db.rifs[db.nhs[cmd.nh].rif].conf.vr == cmd.key.vr
  }

  lemma SeatsKeepVr(db: Db, to: Db)
    requires Mirror(db.nhs, db.routes) && NhLists(db.rifs, db.nhs) && SameVr(db)
    requires Mirror(to.nhs, to.routes) && NhLists(to.rifs, to.nhs)
    requires Stable(db, to) && SeatsKept(db, to)
    ensures SameVr(to)
  {
  }

  lemma StepKeepsVr(db: Db, cmd: Command)
    requires Inv(db) && SameVr(db) && Allowed(db, cmd) && InVr(db, cmd)
    ensures SameVr(Step(db, cmd).0)
  {
    if cmd.CreateRouteCmd? {
      CreateRouteKeepsVr(db, cmd);
    } else if cmd.SetNextHopCmd? {
      SetNextHopVr(db, cmd.key, cmd.nh);
    } else {
      StepStable(db, cmd);
      StepKeeps(db, cmd);
      SeatsKeepVr(db, Step(db, cmd).0);
    }
  }

  lemma CreateRouteKeepsVr(db: Db, cmd: Command)
    requires SameVr(db) && cmd.CreateRouteCmd?
    ensures SameVr(Step(db, cmd).0)
  {
    var to := Step(db, cmd).0;
    assert to.rifs == db.rifs && forall h: NhId :: to.nhs[h].rif == db.nhs[h].rif;
  }

  /** Setting a next hop in another virtual router is the one call that leaves a route in the wrong one. */
  lemma SetNextHopVr(db: Db, key: RouteKey, h: NhId)
    requires SameVr(db)
    ensures SameVr(SetRouteNextHop(db, key, h).0)
            <==> LookupRoute(db, key) != Success || InVr(db, SetNextHopCmd(key, h))
  {
    var to := SetRouteNextHop(db, key, h).0;
    assert to.rifs == db.rifs && forall g: NhId :: to.nhs[g].rif == db.nhs[g].rif;
    if LookupRoute(db, key) == Success {
      assert to.routes[key].nhValid && to.routes[key].nhIdx == h;
    }
  }

  ghost predicate InVrRun(db: Db, cmds: seq<Command>)
    decreases |cmds|
  {
    cmds == [] || (Allowed(db, cmds[0]) && InVr(db, cmds[0]) && InVrRun(Step(db, cmds[0]).0, cmds[1..]))
  }

  lemma {:induction false} RunKeepsVr(db: Db, cmds: seq<Command>)
    requires Inv(db) && SameVr(db) && InVrRun(db, cmds)
    ensures Inv(Run(db, cmds)) && SameVr(Run(db, cmds))
    decreases |cmds|
  {
    if cmds != [] {
      StepKeeps(db, cmds[0]);
      StepKeepsVr(db, cmds[0]);
      RunKeepsVr(Step(db, cmds[0]).0, cmds[1..]);
    }
  }

  /** No dangling chain: a route via a next hop has a used next hop on a valid interface of the route's own,
      valid virtual router. */
  lemma NoDanglingChain(cmds: seq<Command>, key: RouteKey)
    requires InVrRun(EMPTY_DB, cmds)
    ensures var db := Run(EMPTY_DB, cmds);
            key in db.routes && db.routes[key].nhValid ==>
              && var nh := db.nhs[db.routes[key].nhIdx];
              && nh.used && key in nh.routes
              && db.rifs[nh.rif].valid && db.routes[key].nhIdx in db.rifs[nh.rif].nhs
              && db.rifs[nh.rif].conf.vr == key.vr
              && VrValid(db, key.vr)
  {
    EmptyInv();
    RunKeepsVr(EMPTY_DB, cmds);
    var db := Run(EMPTY_DB, cmds);
    if key in db.routes && db.routes[key].nhValid {
      ChainHolds(db, key);
    }
  }

  lemma ChainHolds(db: Db, key: RouteKey)
    requires Mirror(db.nhs, db.routes) && NhLists(db.rifs, db.nhs) && VrRefs(db.vrs, db.rifs) && SameVr(db)
    requires key in db.routes && db.routes[key].nhValid
    ensures var nh := db.nhs[db.routes[key].nhIdx];
            && nh.used && key in nh.routes
            && db.rifs[nh.rif].valid && db.routes[key].nhIdx in db.rifs[nh.rif].nhs
            && db.rifs[nh.rif].conf.vr == key.vr && VrValid(db, key.vr)
  {
  }

  // ----- The MTU an interface was created with -----

  /** Interface `r` is there all along. */
  predicate Survives(db: Db, cmds: seq<Command>, r: RifId)
    decreases |cmds|
  {
    db.rifs[r].valid && (cmds == [] || Survives(Step(db, cmds[0]).0, cmds[1..], r))
  }

  lemma {:induction false} RunKeepsRif(db: Db, cmds: seq<Command>, r: RifId)
    requires Inv(db) && AllowedRun(db, cmds) && Survives(db, cmds, r)
    ensures var to := Run(db, cmds);
            && to.rifs[r].valid && to.rifs[r].conf == db.rifs[r].conf
            && GetMtu(to, r) == GetMtu(db, r) && GetMtu(to, r) == Some(db.rifs[r].mtu)
    decreases |cmds|
  {
    if cmds != [] {
      var next := Step(db, cmds[0]).0;
      StepKeeps(db, cmds[0]);
      StepStable(db, cmds[0]);
      RunKeepsRif(next, cmds[1..], r);
    }
  }

  /** An interface reports the MTU it was created with for its whole life, whatever else comes and goes. */
  lemma MtuForLife(before: seq<Command>, a: RifAttrs, fpa: RifOracle, after: seq<Command>)
    requires AllowedRun(EMPTY_DB, before) && a.mtu != Some(0)
    requires var db := Run(EMPTY_DB, before);
             && CreateRif(db, a, fpa).1 == Success
             && AllowedRun(CreateRif(db, a, fpa).0, after)
             && Survives(CreateRif(db, a, fpa).0, after, FreeRif(db.rifs))
    ensures var db := Run(EMPTY_DB, before);
            GetMtu(Run(CreateRif(db, a, fpa).0, after), FreeRif(db.rifs)) == if a.mtu.Some? then a.mtu else Some(1514)
  {
    EmptyInv();
    RunKeeps(EMPTY_DB, before);
    var db := Run(EMPTY_DB, before);
    CreateRifKeeps(db, a, fpa);
    RunKeepsRif(CreateRif(db, a, fpa).0, after, FreeRif(db.rifs));
  }

  const LOOPBACK := RifAttrs(0, Loopback, None, None, false, true, true, None, None)

  /** With MTU zero that fails: the next interface takes over the profile. */
  lemma MtuZeroIsLost(fpa: RifOracle)
    ensures var d0 := CreateVirtualRouter(EMPTY_DB, None, None).0;
            var d1 := CreateRif(d0, LOOPBACK.(mtu := Some(0)), fpa).0;
            var (d2, st) := CreateRif(d1, LOOPBACK.(mtu := Some(1500)), fpa);
            st == Success && GetMtu(d1, 0) == Some(0) && GetMtu(d2, 0) == Some(1500)
  {
    var d0 := CreateVirtualRouter(EMPTY_DB, None, None).0;
    assert d0.vrs[0].valid && FreeRif(d0.rifs) == 0 && MtuSlot(d0.mtus, 0) == 0;
    var d1 := CreateRif(d0, LOOPBACK.(mtu := Some(0)), fpa).0;
    assert d1.vrs[0].valid && d1.rifs[0].valid && d1.mtus[0] == MtuProfile(0, 1);
    assert forall m: MtuId :: d1.mtus[m].size == 0;
    assert MtuSlot(d1.mtus, 1500) == 0 && !d1.rifs[1].valid && FreeRif(d1.rifs) == 1;
  }

  // ----- What one call undoes -----

  lemma UndoVirtualRouter(db: Db)
    requires Inv(db) && FreeVr(db.vrs) < VR_TABLE_SIZE
    ensures RemoveVirtualRouter(CreateVirtualRouter(db, None, None).0, FreeVr(db.vrs)) == (db, Success)
  {
    var v := FreeVr(db.vrs);
    CountZero(db.rifs, UsesVr(v));
    assert RemoveVirtualRouter(CreateVirtualRouter(db, None, None).0, v).0.vrs == db.vrs;
  }

  /** Removing the interface just created gives back the three tables as they were. */
  lemma UndoRif(db: Db, a: RifAttrs, fpa: RifOracle)
    requires Inv(db) && a.mtu != Some(0) && CreateRif(db, a, fpa).1 == Success
    ensures var to := CreateRif(db, a, fpa).0;
            FirstFailure(RemoveCalls(to, FreeRif(db.rifs)), fpa) == Success
            ==> RemoveRif(to, FreeRif(db.rifs), fpa) == (db, Success)
  {
    var to := CreateRif(db, a, fpa).0;
    var r := FreeRif(db.rifs);
    var m := MtuSlot(db.mtus, MtuOf(a));
    MtuSlotFinds(db.mtus, MtuOf(a));
    if FirstFailure(RemoveCalls(to, r), fpa) == Success {
      var back := RemoveRif(to, r, fpa).0;
      assert back.mtus[m] == db.mtus[m];
      assert back.mtus == db.mtus && back.rifs == db.rifs && back.vrs == db.vrs;
    }
  }

  /** Removing the next hop just created gives everything back, but for the back pointer of the neighbour
      it resolved to, which is left invalid. */
  lemma UndoNextHop(db: Db, r: RifId, ip: IpUnion)
    requires Zeroed(db.rifs, db.nbrs, db.nhs)
    requires CreateNextHop(db, true, r, ip).1 == Success
    ensures RemoveNextHop(CreateNextHop(db, true, r, ip).0, FreeNh(db.nhs))
            == (db.(nbrs := SetNextHopOf(db.nbrs, Resolve(db, r, ip), 0xFFFF_FFFF)), Success)
  {
    var h := FreeNh(db.nhs);
    var to := CreateNextHop(db, true, r, ip).0;
    var back := RemoveNextHop(to, h).0;
    assert back.nbrs == SetNextHopOf(db.nbrs, Resolve(db, r, ip), INVALID_ID);
    assert back.nhs == db.nhs;
    assert back.rifs[r].nhs == db.rifs[r].nhs;
    assert back.rifs == db.rifs;
  }

  lemma {:induction false} WithoutAppended<T>(s: seq<T>, x: T)
    requires x !in s
    ensures Without(s + [x], x) == s
  {
    if s != [] {
      assert (s + [x])[1..] == s[1..] + [x];
      WithoutAppended(s[1..], x);
    }
  }

  lemma UndoAddRoute(db: Db, key: RouteKey, route: Route)
    requires key !in db.routes && RouteCookie(key) !in db.flows
    requires route.nhValid ==> db.nhs[route.nhIdx].used && key !in db.nhs[route.nhIdx].routes
    ensures DropRoute(AddRoute(db, key, route), key) == db
  {
    var back := DropRoute(AddRoute(db, key, route), key);
    assert back.routes == db.routes;
    assert back.flows == db.flows;
    if route.nhValid {
      WithoutAppended(db.nhs[route.nhIdx].routes, key);
    }
    assert back.nhs == db.nhs;
  }

  /** Removing the route just created gives everything back. */
  lemma UndoRoute(db: Db, key: RouteKey, action: Option<PacketAction>, target: Option<RouteTarget>)
    requires Mirror(db.nhs, db.routes) && RouteFlows(db.routes, db.flows)
    requires CreateRoute(db, key, None, action, target).1 == Success
    ensures RemoveRoute(CreateRoute(db, key, None, action, target).0, key) == (db, Success)
  {
    var act := if action.Some? then action.value else Forward;
    var route := NewRoute(db, key, act, target).0;
    CreatedIs(db, key, action, target);
    UndoAddRoute(db, key, route);
  }

  lemma CreatedIs(db: Db, key: RouteKey, action: Option<PacketAction>, target: Option<RouteTarget>)
    requires CreateRoute(db, key, None, action, target).1 == Success
    ensures var route := NewRoute(db, key, if action.Some? then action.value else Forward, target).0;
            && key !in db.routes && (route.nhValid ==> db.nhs[route.nhIdx].used)
            && CreateRoute(db, key, None, action, target).0 == AddRoute(db, key, route)
            && RemoveRoute(AddRoute(db, key, route), key) == (DropRoute(AddRoute(db, key, route), key), Success)
  {
  }

  /** Interfaces and neighbours determine what next hops cache, which groups exist, and the entries of every host
      and of every route that does not drop. */
  lemma Determined(db: Db, to: Db)
    requires Inv(db) && Inv(to) && to.rifs == db.rifs && to.nbrs == db.nbrs && RoutesFollow(db, to)
    ensures to.nhs == db.nhs && to.groups == db.groups
    ensures to.flows.Keys == db.flows.Keys
    ensures forall c :: c in db.flows && (c.RouteCookie? ==> c.key in db.routes && !db.routes[c.key].action.Drop?)
              ==> to.flows[c] == db.flows[c]
  {
    DeterminedNhs(db.rifs, db.nbrs, db.nhs, to.nhs);
    assert to.groups == db.groups;
    DeterminedFlows(db, to);
  }

  lemma DeterminedNhs(rifs: RifTable, nbrs: NbrTable, nhs: NhTable, to: NhTable)
    requires Coherent(rifs, nbrs, nhs) && Coherent(rifs, nbrs, to) && Zeroed(rifs, nbrs, nhs) && Zeroed(rifs, nbrs, to)
    requires NbrLists(rifs, nbrs)
    requires forall h: NhId :: to[h] == nhs[h].(nbrId := to[h].nbrId)
    ensures to == nhs
  {
    forall h: NhId ensures to[h] == nhs[h] {
      if nhs[h].used {
        assert Resolved(rifs, nbrs, nhs[h].rif, Addr(nhs[h].ip), nhs[h].nbrId);
        assert Resolved(rifs, nbrs, to[h].rif, Addr(to[h].ip), to[h].nbrId);
      }
    }
  }

  lemma DeterminedFlows(db: Db, to: Db)
    requires RouteFlows(db.routes, db.flows) && RouteFlows(to.routes, to.flows)
    requires HostFlows(db.rifs, db.nbrs, db.flows) && HostFlows(db.rifs, db.nbrs, to.flows)
    requires RouteCache(db.nhs, db.routes) && RouteCache(db.nhs, to.routes)
    requires RoutesFollow(db, to)
    ensures to.flows.Keys == db.flows.Keys
    ensures forall c :: c in db.flows && (c.RouteCookie? ==> c.key in db.routes && !db.routes[c.key].action.Drop?)
              ==> to.flows[c] == db.flows[c]
  {
    forall c: Cookie ensures c in db.flows <==> c in to.flows {
      DeterminedKey(db, to, c);
    }
    forall c | c in db.flows && (c.RouteCookie? ==> c.key in db.routes && !db.routes[c.key].action.Drop?)
      ensures to.flows[c] == db.flows[c]
    {
      if c.RouteCookie? {
        DeterminedRoute(db, to, c.key);
      } else {
        DeterminedHost(db, to, c);
      }
    }
  }

  lemma DeterminedKey(db: Db, to: Db, c: Cookie)
    requires RouteFlows(db.routes, db.flows) && RouteFlows(to.routes, to.flows) && to.routes.Keys == db.routes.Keys
    requires HostFlows(db.rifs, db.nbrs, db.flows) && HostFlows(db.rifs, db.nbrs, to.flows)
    ensures c in db.flows <==> c in to.flows
  {
    if c.RouteCookie? {
      assert c == RouteCookie(c.key);
    } else {
      assert c == HostCookie(c.ip4, c.rif);
    }
  }

  lemma DeterminedRoute(db: Db, to: Db, key: RouteKey)
    requires RouteFlows(db.routes, db.flows) && RouteFlows(to.routes, to.flows)
    requires RouteCache(db.nhs, db.routes) && RouteCache(db.nhs, to.routes) && RoutesFollow(db, to)
    requires key in db.routes && !db.routes[key].action.Drop?
    ensures var c := RouteCookie(key); c in db.flows && c in to.flows && to.flows[c] == db.flows[c]
  {
    assert Fits(db.nhs, db.routes[key]) && Fits(db.nhs, to.routes[key]);
    assert Compile(key, to.routes[key]) == Compile(key, db.routes[key]);
  }

  lemma DeterminedHost(db: Db, to: Db, c: Cookie)
    requires HostFlows(db.rifs, db.nbrs, db.flows) && HostFlows(db.rifs, db.nbrs, to.flows)
    requires c.HostCookie? && c in db.flows && c in to.flows
    ensures to.flows[c] == db.flows[c]
  {
    var n := db.flows[c].group.value;
    assert IsNbr(db.nbrs, c.rif, V4(c.ip4), n);
  }

  /** A neighbour that comes and goes leaves behind at most the id that trapping and dropping routes through its
      next hop cache; all tables and the entries of hosts and of all forwarding and trapping routes are what they
      were. */
  lemma UndoNeighbor(db: Db, r: RifId, ip: IpUnion, lib: GroupOracle, stale: u32)
    requires Inv(db) && Allowed(db, CreateNbrCmd(r, ip, None, lib, stale))
    requires CreateNeighbor(db, r, ip, None, lib, stale).1 == Success
    ensures var mid := CreateNeighbor(db, r, ip, None, lib, stale).0;
            var (to, st) := RemoveNeighbor(mid, r, ip);
            && st == Success
            && to.vrs == db.vrs && to.mtus == db.mtus && to.rifs == db.rifs && to.nbrs == db.nbrs && to.nhs == db.nhs
            && to.groups == db.groups && to.flows.Keys == db.flows.Keys
            && RoutesFollow(db, to)
            && (forall c :: c in db.flows && (c.RouteCookie? ==> c.key in db.routes && !db.routes[c.key].action.Drop?)
                  ==> to.flows[c] == db.flows[c])
  {
    var n := FreeNbr(db.nbrs);
    var mid := AddNeighbor(db, r, n, Kept(ip), true, stale);
    NewIsFound(db, r, ip, lib, stale);
    DropNeighborKeeps(mid, r, n);
    UndoAddNeighbor(db, r, n, Kept(ip), stale);
    Determined(db, DropNeighbor(mid, r, n));
  }

  /** The neighbour that has just come is the one that goes. */
  lemma NewIsFound(db: Db, r: RifId, ip: IpUnion, lib: GroupOracle, stale: u32)
    requires Inv(db) && Allowed(db, CreateNbrCmd(r, ip, None, lib, stale))
    requires CreateNeighbor(db, r, ip, None, lib, stale).1 == Success
    ensures var n := FreeNbr(db.nbrs);
            && n < NBR_TABLE_SIZE && db.nbrs[n] == NO_NBR
            && var mid := AddNeighbor(db, r, n, Kept(ip), true, stale);
               && CreateNeighbor(db, r, ip, None, lib, stale).0 == mid && Inv(mid)
               && mid.nbrs[n].used && mid.nbrs[n].rif == r
               && RemoveNeighbor(mid, r, ip) == (DropNeighbor(mid, r, n), Success)
  {
    var n := FreeNbr(db.nbrs);
    var mid := AddNeighbor(db, r, n, Kept(ip), true, stale);
    CreateNeighborKeeps(db, r, ip, None, lib, stale);
    AddNeighborShape(db, r, n, Kept(ip), true, stale);
    HeadIsFound(mid, r, n, ip);
  }

  /** A removal by its own address takes the neighbour at the head of the list. */
  lemma HeadIsFound(db: Db, r: RifId, n: NbrId, ip: IpUnion)
    requires db.rifs[r].valid && db.rifs[r].nbrs != [] && db.rifs[r].nbrs[0] == n
    requires db.nbrs[n].used && db.nbrs[n].ip == Kept(ip) && n in db.groups
    ensures RemoveNeighbor(db, r, ip) == (DropNeighbor(db, r, n), Success)
  {
    assert Matches(db.nbrs[n].ip, ip) && FindNbr(db, r, ip) == n;
    assert DelHost(db, r, ip) == DelHost(db, r, Kept(ip));
  }

  lemma UndoAddNeighbor(db: Db, r: RifId, n: NbrId, ip: IpUnion, stale: u32)
    requires db.nbrs[n] == NO_NBR
             && NhLists(AddNeighbor(db, r, n, ip, true, stale).rifs, AddNeighbor(db, r, n, ip, true, stale).nhs)
    ensures var to := DropNeighbor(AddNeighbor(db, r, n, ip, true, stale), r, n);
            to.rifs == db.rifs && to.nbrs == db.nbrs && to.vrs == db.vrs && to.mtus == db.mtus && RoutesFollow(db, to)
  {
    var mid := AddNeighbor(db, r, n, ip, true, stale);
    var to := DropNeighbor(mid, r, n);
    AddNeighborShape(db, r, n, ip, true, stale);
    DropNeighborShape(mid, r, n);
    AddNeighborFollows(db, r, n, ip, true, stale);
    DropNeighborFollows(mid, r, n);
    assert to.nbrs == db.nbrs;
    assert to.rifs[r].nbrs == db.rifs[r].nbrs;
    assert to.rifs == db.rifs;
  }
}
