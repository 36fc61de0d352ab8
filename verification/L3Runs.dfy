/** Whole runs of the L3 database: every sequence of calls from the empty tables. */
module L3Runs {
  import opened Words
  import opened L3Types
  import opened L3Spec
  import opened L3Invariant
  import opened L3Neighbors
  import opened L3NextHops
  import opened L3Interfaces
  import opened L3Routes

  function Step(db: Db, cmd: Command): (Db, Status)
  {
    match cmd
    case CreateVrCmd(v4, v6) => CreateVirtualRouter(db, v4, v6)
    case RemoveVrCmd(v) => RemoveVirtualRouter(db, v)
    case CreateRifCmd(a, fpa) => CreateRif(db, a, fpa)
    case RemoveRifCmd(r, fpa) => RemoveRif(db, r, fpa)
    case CreateNbrCmd(r, ip, action, lib, stale) => CreateNeighbor(db, r, ip, action, lib, stale)
    case RemoveNbrCmd(r, ip) => RemoveNeighbor(db, r, ip)
    case RemoveAllNbrsCmd => RemoveAllNeighbors(db)
    case CreateNhCmd(isIp, r, ip) => CreateNextHop(db, isIp, r, ip)
    case RemoveNhCmd(h) => RemoveNextHop(db, h)
    case CreateRouteCmd(key, priority, action, target) => CreateRoute(db, key, priority, action, target)
    case RemoveRouteCmd(key) => RemoveRoute(db, key)
    case SetActionCmd(key, action) => SetRouteAction(db, key, action)
    case SetNextHopCmd(key, h) => SetRouteNextHop(db, key, h)
  }

  function Run(db: Db, cmds: seq<Command>): Db
    decreases |cmds|
  {
    if cmds == [] then db else Run(Step(db, cmds[0]).0, cmds[1..])
  }

  /** What the source leaves to its callers: no interface has MTU zero, the next hop set on a route exists, an address
      configured on an interface is not the first four bytes of one configured there, nor the reverse, an IPv6 address
      to be removed is not taken for an IPv4 one there, and no neighbour is entered behind a bridging entry without
      group. */
  ghost predicate Allowed(db: Db, cmd: Command) {
    match cmd
    case CreateRifCmd(a, _) => a.mtu != Some(0)
    case SetNextHopCmd(key, h) => db.nhs[h].used
    case CreateNbrCmd(r, ip, _, lib, _) =>
      RifValid(db, r) ==> Unmixed(db.nbrs, db.nhs, r, ip) && !Groupless(db.rifs[r].conf.kind, lib)
    case RemoveNbrCmd(r, ip) => RifValid(db, r) ==> Removable(db.nbrs, r, ip)
    case CreateNhCmd(_, r, ip) => RifValid(db, r) ==> Unmixed(db.nbrs, db.nhs, r, ip)
    case _ => true
  }

  ghost predicate AllowedRun(db: Db, cmds: seq<Command>)
    decreases |cmds|
  {
    cmds == [] || (Allowed(db, cmds[0]) && AllowedRun(Step(db, cmds[0]).0, cmds[1..]))
  }

  // ----- Removing every neighbour -----

  /** Next hops and routes change only in the neighbour they cache. */
  ghost predicate RoutesFollow(db: Db, to: Db) {
    && (forall h: NhId :: to.nhs[h] == db.nhs[h].(nbrId := to.nhs[h].nbrId))
    && to.routes.Keys == db.routes.Keys
    && (forall k :: k in db.routes ==>
          to.routes[k] == db.routes[k].(nbrIdx := to.routes[k].nbrIdx, follows := to.routes[k].follows))
  }

  lemma DropNeighborFollows(db: Db, r: RifId, n: NbrId)
    requires NhLists(db.rifs, db.nhs)
    ensures RoutesFollow(db, DropNeighbor(db, r, n))
  {
    DropNeighborShape(db, r, n);
  }

  lemma FollowsTwice(a: Db, b: Db, c: Db)
    requires RoutesFollow(a, b) && RoutesFollow(b, c)
    ensures RoutesFollow(a, c)
  {
  }

  lemma {:induction false} DrainRifKeeps(db: Db, r: RifId)
    requires Inv(db)
    ensures var to := DrainRif(db, r);
            Inv(to) && to.rifs == db.rifs[r := db.rifs[r].(nbrs := [])] && RoutesFollow(db, to)
    decreases |db.rifs[r].nbrs|
  {
    var list := db.rifs[r].nbrs;
    if list == [] {
      assert db.rifs == db.rifs[r := db.rifs[r].(nbrs := [])];
    } else {
      var next := DropHead(db, r);
      DrainRifKeeps(next, r);
      var to := DrainRif(next, r);
      assert DrainRif(db, r) == to;
      FollowsTwice(db, next, to);
      DrainedAfterHead(db.rifs, next.rifs, to.rifs, r);
    }
  }

  lemma DrainedAfterHead(rifs: RifTable, next: RifTable, to: RifTable, r: RifId)
    requires rifs[r].nbrs != [] && next == rifs[r := rifs[r].(nbrs := rifs[r].nbrs[1..])]
    requires to == next[r := next[r].(nbrs := [])]
    ensures to == rifs[r := rifs[r].(nbrs := [])]
  {
  }

  /** One round of the destruction: the head of the list goes. */
  lemma DropHead(db: Db, r: RifId) returns (next: Db)
    requires Inv(db) && db.rifs[r].nbrs != []
    ensures next == DropNeighbor(db, r, db.rifs[r].nbrs[0])
    ensures Inv(next) && RoutesFollow(db, next)
    ensures next.rifs == db.rifs[r := db.rifs[r].(nbrs := db.rifs[r].nbrs[1..])]
  {
    var n := db.rifs[r].nbrs[0];
    assert n in db.rifs[r].nbrs;
    next := DropNeighbor(db, r, n);
    DropNeighborKeeps(db, r, n);
    DropNeighborShape(db, r, n);
    DropNeighborFollows(db, r, n);
  }

  /** The interfaces below `r` as they were, the others without neighbours. */
  ghost predicate CutFrom(rifs: RifTable, to: RifTable, r: nat) {
    forall q: RifId :: to[q] == if q < r then rifs[q] else rifs[q].(nbrs := [])
  }

  lemma CutOneMore(rifs: RifTable, to: RifTable, r: RifId)
    requires CutFrom(rifs[r := rifs[r].(nbrs := [])], to, r + 1)
    ensures CutFrom(rifs, to, r)
  {
  }

  lemma {:induction false} RemoveAllFromKeeps(db: Db, r: nat)
    requires Inv(db) && r <= RIF_TABLE_SIZE
    ensures var to := RemoveAllFrom(db, r);
            Inv(to) && CutFrom(db.rifs, to.rifs, r) && RoutesFollow(db, to)
    decreases RIF_TABLE_SIZE - r
  {
    if r < RIF_TABLE_SIZE {
      DrainRifKeeps(db, r);
      var next := DrainRif(db, r);
      RemoveAllFromKeeps(next, r + 1);
      var to := RemoveAllFrom(next, r + 1);
      CutOneMore(db.rifs, to.rifs, r);
      FollowsTwice(db, next, to);
    }
  }

  /** An entry that names a group belongs to a neighbour in use. */
  lemma GroupsNamed(db: Db, c: Cookie)
    requires Coherent(db.rifs, db.nbrs, db.nhs) && Mirror(db.nhs, db.routes) && RouteCache(db.nhs, db.routes)
    requires RouteFlows(db.routes, db.flows) && HostFlows(db.rifs, db.nbrs, db.flows)
    requires c in db.flows && db.flows[c].group.Some?
    ensures db.flows[c].group.value < NBR_TABLE_SIZE && db.nbrs[db.flows[c].group.value].used
  {
    if c.RouteCookie? {
      assert c == RouteCookie(c.key);
      var route := db.routes[c.key];
      assert Resolved(db.rifs, db.nbrs, db.nhs[route.nhIdx].rif, Addr(db.nhs[route.nhIdx].ip),
                      db.nhs[route.nhIdx].nbrId);
    }
  }

  /** No neighbour, no group and no host entry is left, every next hop is on its interface's miss action,
      no route entry names a group, and the interfaces lost nothing but their neighbours. */
  ghost predicate Cleared(db: Db, to: Db) {
    && (forall n: NbrId :: !to.nbrs[n].used)
    && to.groups == {}
    && (forall r: RifId :: to.rifs[r] == db.rifs[r].(nbrs := []))
    && (forall h: NhId :: to.nhs[h].used ==> to.nhs[h].nbrId == MissId(to.rifs[to.nhs[h].rif].conf.missAct))
    && (forall c :: c in to.flows ==> c.RouteCookie? && to.flows[c].group == None)
  }

  lemma RemoveAllClears(db: Db)
    requires Inv(db)
    ensures Inv(RemoveAllNeighbors(db).0)
    ensures Cleared(db, RemoveAllNeighbors(db).0)
  {
    RemoveAllFromKeeps(db, 0);
    NoNeighborsClears(db, RemoveAllFrom(db, 0));
  }

  lemma NoNeighborsClears(db: Db, to: Db)
    requires Inv(to) && CutFrom(db.rifs, to.rifs, 0)
    ensures Cleared(db, to)
  {
    NoneLeft(to.rifs, to.nbrs, to.nhs);
    NoGroupsLeft(to);
  }

  lemma NoGroupsLeft(db: Db)
    requires Coherent(db.rifs, db.nbrs, db.nhs) && Mirror(db.nhs, db.routes) && RouteCache(db.nhs, db.routes)
    requires RouteFlows(db.routes, db.flows) && HostFlows(db.rifs, db.nbrs, db.flows) && Groups(db.nbrs, db.groups)
    requires forall n: NbrId :: !db.nbrs[n].used
    ensures db.groups == {}
    ensures forall c :: c in db.flows ==> c.RouteCookie? && db.flows[c].group == None
  {
    forall c | c in db.flows ensures c.RouteCookie? && db.flows[c].group == None {
      if db.flows[c].group.Some? {
        GroupsNamed(db, c);
      }
    }
  }

  lemma NoneLeft(rifs: RifTable, nbrs: NbrTable, nhs: NhTable)
    requires NbrLists(rifs, nbrs) && Coherent(rifs, nbrs, nhs) && forall r: RifId :: rifs[r].nbrs == []
    ensures forall n: NbrId :: !nbrs[n].used
    ensures forall h: NhId :: nhs[h].used ==> nhs[h].nbrId == MissId(rifs[nhs[h].rif].conf.missAct)
  {
    forall n: NbrId ensures !nbrs[n].used {
      assert n !in rifs[nbrs[n].rif].nbrs;
    }
    forall h: NhId | nhs[h].used ensures nhs[h].nbrId == MissId(rifs[nhs[h].rif].conf.missAct) {
      assert Resolved(rifs, nbrs, nhs[h].rif, Addr(nhs[h].ip), nhs[h].nbrId);
    }
  }

  // ----- Every step, every run -----

  lemma StepKeeps(db: Db, cmd: Command)
    requires Inv(db) && Allowed(db, cmd)
    ensures Inv(Step(db, cmd).0)
  {
    match cmd
    case CreateVrCmd(v4, v6) => CreateVirtualRouterKeeps(db, v4, v6);
    case RemoveVrCmd(v) => RemoveVirtualRouterKeeps(db, v);
    case CreateRifCmd(a, fpa) => CreateRifKeeps(db, a, fpa);
    case RemoveRifCmd(r, fpa) => RemoveRifKeeps(db, r, fpa);
    case CreateNbrCmd(r, ip, action, lib, stale) => CreateNeighborKeeps(db, r, ip, action, lib, stale);
    case RemoveNbrCmd(r, ip) => RemoveNeighborKeeps(db, r, ip);
    case RemoveAllNbrsCmd => RemoveAllClears(db);
    case CreateNhCmd(isIp, r, ip) => CreateNextHopKeeps(db, isIp, r, ip);
    case RemoveNhCmd(h) => RemoveNextHopKeeps(db, h);
    case _ => RouteStepKeeps(db, cmd);
  }

  lemma RouteStepKeeps(db: Db, cmd: Command)
    requires Inv(db) && Allowed(db, cmd)
    requires cmd.CreateRouteCmd? || cmd.RemoveRouteCmd? || cmd.SetActionCmd? || cmd.SetNextHopCmd?
    ensures Inv(Step(db, cmd).0)
  {
    match cmd
    case CreateRouteCmd(key, priority, action, target) => CreateRouteKeeps(db, key, priority, action, target);
    case RemoveRouteCmd(key) => RemoveRouteKeeps(db, key);
    case SetActionCmd(key, action) => SetRouteActionKeeps(db, key, action);
    case SetNextHopCmd(key, h) => SetRouteNextHopKeeps(db, key, h);
    case _ => assert false;
  }

  /** A call keeps the invariant exactly when it is allowed or changes nothing. */
  lemma StepKeepsIff(db: Db, cmd: Command)
    requires Inv(db)
    ensures Inv(Step(db, cmd).0) <==> Allowed(db, cmd) || Step(db, cmd).0 == db
  {
    if Allowed(db, cmd) {
      StepKeeps(db, cmd);
    } else if cmd.CreateRifCmd? {
      CreateRifKeeps(db, cmd.attrs, cmd.fpa);
    } else if cmd.CreateNbrCmd? {
      CreateNeighborKeeps(db, cmd.on, cmd.ip, cmd.nbrAction, cmd.lib, cmd.stale);
    } else if cmd.RemoveNbrCmd? {
      RemoveNeighborKeeps(db, cmd.on, cmd.ip);
    } else if cmd.CreateNhCmd? {
      CreateNextHopKeeps(db, cmd.isIp, cmd.on, cmd.ip);
    } else {
      SetRouteNextHopKeeps(db, cmd.key, cmd.nh);
    }
  }

  lemma {:induction false} RunKeeps(db: Db, cmds: seq<Command>)
    requires Inv(db) && AllowedRun(db, cmds)
    ensures Inv(Run(db, cmds))
    decreases |cmds|
  {
    if cmds != [] {
      StepKeeps(db, cmds[0]);
      RunKeeps(Step(db, cmds[0]).0, cmds[1..]);
    }
  }
}
