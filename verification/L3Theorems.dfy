/** What every run of the L3 database promises. */
module L3Theorems {
  import opened Words
  import opened L3Types
  import opened Hardware
  import opened L3Spec
  import opened L3Invariant
  import opened L3Neighbors
  import opened L3Routes
  import opened L3Runs

  // ----- The flow table means what the configuration says -----

  /** What the configuration says about an address on an interface: its neighbour, or the miss action. */
  ghost predicate Wanted(db: Db, r: RifId, ip: Ip, fate: Fate) {
    if exists n: NbrId :: IsNbr(db.nbrs, r, ip, n)
    then exists n: NbrId :: IsNbr(db.nbrs, r, ip, n) && fate == ToNeighbor(n)
    else fate == if db.rifs[r].conf.missAct.Trap? then ToController else Discard
  }

  /** The id a route caches is the TRAP id: it was created with it, or its next hop resolves to it. */
  ghost predicate CachesTrap(db: Db, route: Route) {
    if route.follows then Wanted(db, db.nhs[route.nhIdx].rif, Addr(db.nhs[route.nhIdx].ip), ToController)
    else route.nbrIdx == NBR_TRAP_ID
  }

  /** The configuration wants the packets of a route discarded. */
  ghost predicate WantsDiscard(db: Db, route: Route) {
    || (route.action.Forward? && Wanted(db, db.nhs[route.nhIdx].rif, Addr(db.nhs[route.nhIdx].ip), Discard))
    || (route.action.Drop? && !CachesTrap(db, route))
  }

  /** In every reachable state every forwarding route goes where its next hop resolves from scratch, every trapping one
      to the controller, every dropping one nowhere unless it caches the TRAP id. Its entry has exactly one of a group,
      the output to the CPU and the clearing of actions, and clears exactly where packets are to be discarded. */
  lemma EndToEnd(cmds: seq<Command>, key: RouteKey)
    requires AllowedRun(EMPTY_DB, cmds)
    ensures var db := Run(EMPTY_DB, cmds);
            key in db.routes ==>
              && RouteCookie(key) in db.flows
              && var route := db.routes[key];
                 var flow := db.flows[RouteCookie(key)];
              && flow.vr == key.vr && flow.dest == key.dest
              && (flow.group.Some? || flow.toCpu || flow.clear)
              && !(flow.group.Some? && (flow.toCpu || flow.clear)) && !(flow.toCpu && flow.clear)
              && (flow.clear <==> WantsDiscard(db, route))
              && (route.action.Forward? ==>
                    && route.nhValid
                    && Wanted(db, db.nhs[route.nhIdx].rif, Addr(db.nhs[route.nhIdx].ip), FateOf(flow)))
              && (route.action.Trap? ==> FateOf(flow) == ToController)
              && (route.action.Drop? ==> FateOf(flow) == if CachesTrap(db, route) then ToController else Discard)
  {
    EmptyInv();
    RunKeeps(EMPTY_DB, cmds);
    var db := Run(EMPTY_DB, cmds);
    if key in db.routes {
      RouteFate(db, key);
      RouteEntry(db, key);
    }
  }

  lemma RouteEntry(db: Db, key: RouteKey)
    requires Coherent(db.rifs, db.nbrs, db.nhs) && Mirror(db.nhs, db.routes)
    requires RouteCache(db.nhs, db.routes) && RouteFlows(db.routes, db.flows) && key in db.routes
    ensures var flow := db.flows[RouteCookie(key)];
            && flow.vr == key.vr && flow.dest == key.dest
            && (flow.group.Some? || flow.toCpu || flow.clear)
            && !(flow.group.Some? && (flow.toCpu || flow.clear)) && !(flow.toCpu && flow.clear)
            && (flow.clear <==> WantsDiscard(db, db.routes[key]))
  {
    RouteFate(db, key);
    assert Fits(db.nhs, db.routes[key]);
  }

  lemma RouteFate(db: Db, key: RouteKey)
    requires Coherent(db.rifs, db.nbrs, db.nhs) && Mirror(db.nhs, db.routes)
    requires RouteCache(db.nhs, db.routes) && RouteFlows(db.routes, db.flows) && key in db.routes
    ensures var route := db.routes[key];
            var flow := db.flows[RouteCookie(key)];
            && (route.action.Forward? ==>
                  Wanted(db, db.nhs[route.nhIdx].rif, Addr(db.nhs[route.nhIdx].ip), FateOf(flow)))
            && (route.action.Trap? ==> FateOf(flow) == ToController)
            && (route.action.Drop? ==> FateOf(flow) == if CachesTrap(db, route) then ToController else Discard)
  {
    var route := db.routes[key];
    assert Fits(db.nhs, route);
    if route.follows {
      CachedIsWanted(db, route.nhIdx);
    }
  }

  /** The id a next hop caches says what is wanted of its address. */
  lemma CachedIsWanted(db: Db, h: NhId)
    requires Coherent(db.rifs, db.nbrs, db.nhs) && db.nhs[h].used
    ensures var nh := db.nhs[h];
            && (nh.nbrId < NBR_RESERVED_ID || nh.nbrId == NBR_TRAP_ID || nh.nbrId == NBR_DROP_ID)
            && Wanted(db, nh.rif, Addr(nh.ip), if nh.nbrId < NBR_RESERVED_ID then ToNeighbor(nh.nbrId)
                                               else if nh.nbrId == NBR_TRAP_ID then ToController else Discard)
            && (Wanted(db, nh.rif, Addr(nh.ip), ToController) <==> nh.nbrId == NBR_TRAP_ID)
  {
    var nh := db.nhs[h];
    assert Resolved(db.rifs, db.nbrs, nh.rif, Addr(nh.ip), nh.nbrId);
    if nh.nbrId < NBR_RESERVED_ID {
      var n: NbrId := nh.nbrId;
      assert IsNbr(db.nbrs, nh.rif, Addr(nh.ip), n);
    }
  }

  /** The next-hop cache is the from-scratch resolution in every reachable state, and what the code's own walk finds: a
      slot of the neighbour table, or one of two ids that stand for trapping and dropping. */
  lemma CacheIsResolution(cmds: seq<Command>, h: NhId)
    requires AllowedRun(EMPTY_DB, cmds)
    ensures var db := Run(EMPTY_DB, cmds);
            db.nhs[h].used ==>
              && Resolved(db.rifs, db.nbrs, db.nhs[h].rif, Addr(db.nhs[h].ip), db.nhs[h].nbrId)
              && db.nhs[h].nbrId == Resolve(db, db.nhs[h].rif, db.nhs[h].ip)
              && db.rifs[db.nhs[h].rif].valid
              && (db.nhs[h].nbrId < 8192 || db.nhs[h].nbrId == 0xFFFF_FFFE || db.nhs[h].nbrId == 0xFFFF_FFFD)
              && (db.nhs[h].nbrId == 0xFFFF_FFFE
                  <==> Wanted(db, db.nhs[h].rif, Addr(db.nhs[h].ip), ToController))
              && (db.nhs[h].nbrId < NBR_RESERVED_ID ==> db.nbrs[db.nhs[h].nbrId].nextHop == h)
  {
    EmptyInv();
    RunKeeps(EMPTY_DB, cmds);
    var db := Run(EMPTY_DB, cmds);
    if db.nhs[h].used {
      UsedResolves(db, h);
      CachedIsWanted(db, h);
    }
  }

  /** A neighbour is cached by at most one next hop. */
  lemma CachedOnce(db: Db, h: NhId, g: NhId)
    requires Inv(db) && db.nhs[h].used && db.nhs[g].used
    requires db.nhs[h].nbrId == db.nhs[g].nbrId && db.nhs[h].nbrId < NBR_RESERVED_ID
    ensures h == g
  {
    assert Resolved(db.rifs, db.nbrs, db.nhs[h].rif, Addr(db.nhs[h].ip), db.nhs[h].nbrId);
    assert Resolved(db.rifs, db.nbrs, db.nhs[g].rif, Addr(db.nhs[g].ip), db.nhs[g].nbrId);
  }

  /** Host entries are exactly the IPv4 neighbours, each naming its own group, which exists. */
  lemma HostEntriesExact(cmds: seq<Command>, ip4: u32, r: RifId)
    requires AllowedRun(EMPTY_DB, cmds)
    ensures HostEntriesHold(Run(EMPTY_DB, cmds), ip4, r)
  {
    EmptyInv();
    RunKeeps(EMPTY_DB, cmds);
    HostEntry(Run(EMPTY_DB, cmds), ip4, r);
  }

  ghost predicate HostEntriesHold(db: Db, ip4: u32, r: RifId) {
    && (HostCookie(ip4, r) in db.flows <==> exists n: NbrId :: IsNbr(db.nbrs, r, V4(ip4), n))
    && (forall n: NbrId :: IsNbr(db.nbrs, r, V4(ip4), n) ==>
          n in db.groups && HostEntryOf(db.flows[HostCookie(ip4, r)], db.rifs[r].conf.vr, ip4, n))
  }

  /** The entry matches just one address in one virtual router, and does nothing but send to one group. */
  ghost predicate HostEntryOf(flow: Flow, vr: u32, ip4: u32, n: u32) {
    && flow.vr == vr && flow.dest.addr == V4(ip4) && flow.dest.mask == 0xFFFF_FFFF
    && flow.group == Some(n) && !flow.toCpu && !flow.clear
  }

  lemma HostEntry(db: Db, ip4: u32, r: RifId)
    requires HostFlows(db.rifs, db.nbrs, db.flows) && Groups(db.nbrs, db.groups)
    ensures HostEntriesHold(db, ip4, r)
  {
    forall n: NbrId | IsNbr(db.nbrs, r, V4(ip4), n)
      ensures HostCookie(ip4, r) in db.flows
      ensures HostEntryOf(db.flows[HostCookie(ip4, r)], db.rifs[r].conf.vr, ip4, n)
    {
      assert db.nbrs[n].ip.v4 && db.nbrs[n].ip.word == ip4;
    }
    if HostCookie(ip4, r) in db.flows {
      var n: NbrId := db.flows[HostCookie(ip4, r)].group.value;
      assert IsNbr(db.nbrs, r, V4(ip4), n);
    }
  }

  /** In every reachable state, every group an entry names exists. */
  lemma NoDanglingGroup(cmds: seq<Command>, c: Cookie)
    requires AllowedRun(EMPTY_DB, cmds)
    ensures var db := Run(EMPTY_DB, cmds);
            c in db.flows && db.flows[c].group.Some? ==>
              db.flows[c].group.value < NBR_TABLE_SIZE && db.flows[c].group.value in db.groups
  {
    EmptyInv();
    RunKeeps(EMPTY_DB, cmds);
    var db := Run(EMPTY_DB, cmds);
    if c in db.flows && db.flows[c].group.Some? {
      GroupsNamed(db, c);
    }
  }

  /** The compiler knows a fourth action, which no call can give a route: its packets go to the CPU, and to the
      neighbour as well if there is one. Without a next hop it is refused. */
  lemma LoggedGoesToBoth(key: RouteKey, route: Route)
    requires route.action.Log?
    ensures var flow := Compile(key, route);
            flow.toCpu && !flow.clear && flow.group == if route.nbrIdx < 0xFFFF_FFFD then Some(route.nbrIdx) else None
    ensures Refused(route) <==> !route.nhValid
  {
  }

  // ----- Forwarding routes can be had -----

  /** A route onto a next hop in use in its virtual router is created if its key is new and there is room, forwards, and
      has the entry that sends its packets where the next hop resolves. */
  lemma ForwardCreated(db: Db, key: RouteKey, priority: Option<u32>, action: Option<PacketAction>, h: NhId)
    requires Inv(db) && (priority == None || priority == Some(0)) && (action == None || action == Some(Forward))
    requires db.nhs[h].used && db.rifs[db.nhs[h].rif].conf.vr == key.vr && key !in db.routes && |db.routes| < 8192
    ensures var (to, st) := CreateRoute(db, key, priority, action, Some(ToNextHop(h)));
            && st == Success && to.routes.Keys == db.routes.Keys + {key}
            && to.routes[key].action == Forward && to.routes[key].nhValid && to.routes[key].nhIdx == h
            && RouteCookie(key) in to.flows && to.flows[RouteCookie(key)].vr == key.vr
            && to.flows[RouteCookie(key)].dest == key.dest
            && Wanted(to, to.nhs[h].rif, Addr(to.nhs[h].ip), FateOf(to.flows[RouteCookie(key)]))
  {
    CreateRouteKeeps(db, key, priority, action, Some(ToNextHop(h)));
    assert db.vrs[key.vr].valid;
    ForwardEntered(db, key, priority, action, h);
    CreatedFate(CreateRoute(db, key, priority, action, Some(ToNextHop(h))).0, key);
  }

  lemma ForwardEntered(db: Db, key: RouteKey, priority: Option<u32>, action: Option<PacketAction>, h: NhId)
    requires (priority == None || priority == Some(0)) && (action == None || action == Some(Forward))
    requires db.nhs[h].used && RifValid(db, db.nhs[h].rif) && db.rifs[db.nhs[h].rif].conf.vr == key.vr
    requires VrValid(db, key.vr) && key !in db.routes && |db.routes| < 8192
    ensures var (to, st) := CreateRoute(db, key, priority, action, Some(ToNextHop(h)));
            && st == Success && to.routes.Keys == db.routes.Keys + {key}
            && to.routes[key].action == Forward && to.routes[key].nhValid && to.routes[key].nhIdx == h
  {
  }

  lemma CreatedFate(to: Db, key: RouteKey)
    requires Inv(to) && key in to.routes && to.routes[key].action == Forward
    ensures var h := to.routes[key].nhIdx;
            && RouteCookie(key) in to.flows && to.flows[RouteCookie(key)].vr == key.vr
            && to.flows[RouteCookie(key)].dest == key.dest
            && Wanted(to, to.nhs[h].rif, Addr(to.nhs[h].ip), FateOf(to.flows[RouteCookie(key)]))
  {
    RouteFate(to, key);
  }

  // ----- Dropping routes do not always drop -----

  /** After the action of a route is set to DROP its packets are discarded exactly unless the route keeps or
      takes over the reserved TRAP id: a route without next hop keeps the id it had, one with a next hop takes
      over what that resolves to. */
  lemma SetDropDiscards(db: Db, key: RouteKey)
    requires Coherent(db.rifs, db.nbrs, db.nhs) && Mirror(db.nhs, db.routes)
    requires LookupRoute(db, key) == Success && !db.routes[key].action.Drop?
    ensures var to := SetRouteAction(db, key, Drop).0;
            var route := db.routes[key];
            && key in to.routes && RouteCookie(key) in to.flows
            && (FateOf(to.flows[RouteCookie(key)]) == Discard <==>
                 if route.nhValid
                 then !Wanted(db, db.nhs[route.nhIdx].rif, Addr(db.nhs[route.nhIdx].ip), ToController)
                 else route.nbrIdx != NBR_TRAP_ID)
  {
    var route := db.routes[key];
    if route.nhValid {
      CachedIsWanted(db, route.nhIdx);
    }
    DropCompiles(db, key);
  }

  lemma UsedResolves(db: Db, h: NhId)
    requires NbrLists(db.rifs, db.nbrs) && Coherent(db.rifs, db.nbrs, db.nhs) && Apart(db.nbrs, db.nhs)
             && db.nhs[h].used
    ensures Resolved(db.rifs, db.nbrs, db.nhs[h].rif, Addr(db.nhs[h].ip), db.nhs[h].nbrId)
    ensures db.nhs[h].nbrId == Resolve(db, db.nhs[h].rif, db.nhs[h].ip)
  {
    UnmixedIsClear(db.nbrs, db.nhs, db.nhs[h].rif, db.nhs[h].ip);
    ResolvedIsResolve(db, db.nhs[h].rif, db.nhs[h].ip, db.nhs[h].nbrId);
  }

  lemma DropCompiles(db: Db, key: RouteKey)
    requires LookupRoute(db, key) == Success && !db.routes[key].action.Drop?
    requires db.routes[key].nhValid ==> db.nhs[db.routes[key].nhIdx].used
    ensures var to := SetRouteAction(db, key, Drop).0;
            var route := db.routes[key];
            && key in to.routes && RouteCookie(key) in to.flows
            && (FateOf(to.flows[RouteCookie(key)]) == Discard <==>
                 (if route.nhValid then db.nhs[route.nhIdx].nbrId else route.nbrIdx) != NBR_TRAP_ID)
  {
  }

  /** Removing a neighbour makes every dropping route through its next hop trap, however it was created, when the
      interface misses to TRAP; before, those that follow it discard. */
  lemma DropRouteTrapsOnceNeighborLeaves(db: Db, key: RouteKey, n: NbrId)
    requires NbrLists(db.rifs, db.nbrs) && NhLists(db.rifs, db.nhs) && Zeroed(db.rifs, db.nbrs, db.nhs)
    requires Apart(db.nbrs, db.nhs) && Coherent(db.rifs, db.nbrs, db.nhs) && Groups(db.nbrs, db.groups)
    requires Mirror(db.nhs, db.routes) && RouteCache(db.nhs, db.routes) && RouteFlows(db.routes, db.flows)
    requires key in db.routes && db.routes[key].action.Drop? && db.routes[key].nhValid && db.nbrs[n].used
    requires var nh := db.nhs[db.routes[key].nhIdx];
             nh.rif == db.nbrs[n].rif && Addr(nh.ip) == Addr(db.nbrs[n].ip)
    ensures db.routes[key].follows ==> FateOf(db.flows[RouteCookie(key)]) == Discard
    ensures var r := db.nbrs[n].rif;
            var (to, st) := RemoveNeighbor(db, r, db.nbrs[n].ip);
            && st == Success && key in to.routes && to.routes[key].action.Drop? && RouteCookie(key) in to.flows
            && FateOf(to.flows[RouteCookie(key)]) == if db.rifs[r].conf.missAct.Trap? then ToController else Discard
  {
    var r, ip := db.nbrs[n].rif, db.nbrs[n].ip;
    RouteFate(db, key);
    assert IsNbr(db.nbrs, r, Addr(ip), n);
    UnmixedIsClear(db.nbrs, db.nhs, r, ip);
    FindNbrExact(db, r, ip, n);
    assert RemoveNeighbor(db, r, ip) == (DropNeighbor(db, r, n), Success);
    DropRouteMisses(db, key, n);
  }

  lemma DropRouteMisses(db: Db, key: RouteKey, n: NbrId)
    requires NhLists(db.rifs, db.nhs) && Mirror(db.nhs, db.routes) && RouteFlows(db.routes, db.flows)
    requires key in db.routes && db.routes[key].action.Drop? && db.routes[key].nhValid
    requires var nh := db.nhs[db.routes[key].nhIdx];
             nh.rif == db.nbrs[n].rif && Addr(nh.ip) == Addr(db.nbrs[n].ip)
    requires NhsClear(db.nhs, db.nbrs[n].rif, db.nbrs[n].ip)
    ensures var r := db.nbrs[n].rif;
            var to := DropNeighbor(db, r, n);
            && key in to.routes && to.routes[key].action.Drop? && RouteCookie(key) in to.flows
            && FateOf(to.flows[RouteCookie(key)]) == if db.rifs[r].conf.missAct.Trap? then ToController else Discard
  {
    var h, r, ip := db.routes[key].nhIdx, db.nbrs[n].rif, db.nbrs[n].ip;
    assert IsNh(db.nhs, r, Addr(ip), h);
    DropNeighborShape(db, r, n);
    FindNhExact(db, r, ip, h);
    PointNextHopExact(DelHost(db, r, ip), h, MissId(db.rifs[r].conf.missAct), key);
  }

  /** A run that ends with a DROP route whose packets go to the controller: a trapping route without next hop
      is set to DROP. */
  lemma DropRouteStillTraps()
    ensures exists cmds: seq<Command>, key: RouteKey ::
      && AllowedRun(EMPTY_DB, cmds)
      && var db := Run(EMPTY_DB, cmds);
      && key in db.routes && db.routes[key].action.Drop?
      && RouteCookie(key) in db.flows && FateOf(db.flows[RouteCookie(key)]) == ToController
  {
    var key := RouteKey(0, Prefix(V4(0), 0));
    var c0 := CreateVrCmd(None, None);
    var c1 := CreateRouteCmd(key, None, Some(Trap), None);
    var c2 := SetActionCmd(key, Drop);
    RunThree(EMPTY_DB, c0, c1, c2);
    var db := Run(EMPTY_DB, [c0, c1, c2]);
    assert db.routes[key].action.Drop? && FateOf(db.flows[RouteCookie(key)]) == ToController;
  }

  lemma RunThree(db: Db, a: Command, b: Command, c: Command)
    ensures Run(db, [a, b, c]) == Step(Step(Step(db, a).0, b).0, c).0
    ensures AllowedRun(db, [a, b, c])
            <==> Allowed(db, a) && Allowed(Step(db, a).0, b) && Allowed(Step(Step(db, a).0, b).0, c)
  {
    var d1 := Step(db, a).0;
    var d2 := Step(d1, b).0;
    var d3 := Step(d2, c).0;
    assert [a, b, c][1..] == [b, c] && [b, c][1..] == [c] && [c][1..] == [];
    assert Run(d3, []) == d3 && Run(d2, [c]) == d3 && Run(d1, [b, c]) == d3;
    assert AllowedRun(d3, []);
    assert AllowedRun(d2, [c]) <==> Allowed(d2, c);
    assert AllowedRun(d1, [b, c]) <==> Allowed(d1, b) && AllowedRun(d2, [c]);
  }
}
