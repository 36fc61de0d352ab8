/** The states that allowed calls can make of the empty database. */
module L3Reachable {
  import opened Words
  import opened L3Types
  import opened L3Spec
  import opened L3Invariant
  import opened L3Neighbors
  import opened L3Runs

  /** The tables as memset leaves them: EMPTY_DB, and nothing else. */
  ghost predicate Blank(db: Db) {
    && (forall v: VrId :: db.vrs[v] == NO_VR)
    && (forall m: MtuId :: db.mtus[m] == NO_MTU)
    && (forall r: RifId :: db.rifs[r] == NO_RIF)
    && (forall n: NbrId :: db.nbrs[n] == NO_NBR)
    && (forall h: NhId :: db.nhs[h] == NO_NH)
    && db.routes == map[] && db.flows == map[] && db.groups == {}
  }

  lemma BlankIsEmpty(db: Db)
    ensures Blank(db) <==> db == EMPTY_DB
  {
    if Blank(db) {
      assert db.vrs == EMPTY_DB.vrs;
      assert db.mtus == EMPTY_DB.mtus;
      assert db.rifs == EMPTY_DB.rifs;
      assert db.nbrs == EMPTY_DB.nbrs;
      assert db.nhs == EMPTY_DB.nhs;
    }
  }

  ghost predicate Makes(start: Db, cmds: seq<Command>, db: Db) {
    Blank(start) && AllowedRun(start, cmds) && Run(start, cmds) == db
  }

  /** What allowed calls can make of the empty database. */
  ghost const REACHABLE := iset db: Db | exists start, cmds: seq<Command> :: Makes(start, cmds, db)

  lemma {:induction false} RunAppend(db: Db, cmds: seq<Command>, cmd: Command)
    ensures Run(db, cmds + [cmd]) == Step(Run(db, cmds), cmd).0
    ensures AllowedRun(db, cmds + [cmd]) <==> AllowedRun(db, cmds) && Allowed(Run(db, cmds), cmd)
    decreases |cmds|
  {
    if cmds == [] {
      assert [cmd][1..] == [];
      assert cmds + [cmd] == [cmd];
      assert Run(db, [cmd]) == Run(Step(db, cmd).0, []);
      assert AllowedRun(Step(db, cmd).0, []);
    } else {
      assert (cmds + [cmd])[0] == cmds[0] && (cmds + [cmd])[1..] == cmds[1..] + [cmd];
      RunAppend(Step(db, cmds[0]).0, cmds[1..], cmd);
    }
  }

  lemma StartReachable()
    ensures EMPTY_DB in REACHABLE
  {
    BlankIsEmpty(EMPTY_DB);
    assert Makes(EMPTY_DB, [], EMPTY_DB);
  }

  /** An allowed call, or one that changes nothing. */
  ghost predicate Harmless(db: Db, cmd: Command) {
    Allowed(db, cmd) || Step(db, cmd).0 == db
  }

  lemma StepReachable(db: Db, cmd: Command)
    requires db in REACHABLE && Harmless(db, cmd)
    ensures Step(db, cmd).0 in REACHABLE
  {
    var start, cmds :| Makes(start, cmds, db);
    RunAppend(start, cmds, cmd);
    if Allowed(db, cmd) {
      assert Makes(start, cmds + [cmd], Step(db, cmd).0);
    }
  }

  lemma ReachableInv(db: Db)
    requires db in REACHABLE
    ensures Inv(db)
  {
    var start, cmds :| Makes(start, cmds, db);
    BlankIsEmpty(start);
    EmptyInv();
    RunKeeps(start, cmds);
  }

  lemma {:induction false} RunReachable(db: Db, cmds: seq<Command>)
    requires db in REACHABLE && AllowedRun(db, cmds)
    ensures Run(db, cmds) in REACHABLE
    decreases |cmds|
  {
    if cmds != [] {
      StepReachable(db, cmds[0]);
      RunReachable(Step(db, cmds[0]).0, cmds[1..]);
    }
  }

  /** A call leads to a reachable state exactly when it is allowed or changes nothing. */
  lemma Outcome(db: Db, cmd: Command)
    requires db in REACHABLE
    ensures Step(db, cmd).0 in REACHABLE <==> Harmless(db, cmd)
  {
    if Harmless(db, cmd) {
      StepReachable(db, cmd);
    } else if Step(db, cmd).0 in REACHABLE {
      ReachableInv(db);
      ReachableInv(Step(db, cmd).0);
      StepKeepsIff(db, cmd);
    }
  }

  /** Neighbours are destroyed as if they were removed one by one. */
  lemma DropIsRemove(db: Db, r: RifId, n: NbrId)
    requires Inv(db) && db.nbrs[n].used && db.nbrs[n].rif == r
    ensures RemoveNeighbor(db, r, db.nbrs[n].ip).0 == DropNeighbor(db, r, n) && Removable(db.nbrs, r, db.nbrs[n].ip)
  {
    FindsItself(db, r, n);
    assert n in db.groups;
  }

  lemma FindsItself(db: Db, r: RifId, n: NbrId)
    requires NbrLists(db.rifs, db.nbrs) && Zeroed(db.rifs, db.nbrs, db.nhs) && Apart(db.nbrs, db.nhs)
    requires db.nbrs[n].used && db.nbrs[n].rif == r
    ensures RifValid(db, r) && FindNbr(db, r, db.nbrs[n].ip) == n && NbrsClear(db.nbrs, r, db.nbrs[n].ip)
  {
    UnmixedIsClear(db.nbrs, db.nhs, r, db.nbrs[n].ip);
    assert IsNbr(db.nbrs, r, Addr(db.nbrs[n].ip), n);
    FindNbrExact(db, r, db.nbrs[n].ip, n);
  }

  lemma DropReachable(db: Db, r: RifId, n: NbrId)
    requires db in REACHABLE && db.nbrs[n].used && db.nbrs[n].rif == r
    ensures DropNeighbor(db, r, n) in REACHABLE
  {
    ReachableInv(db);
    DropIsRemove(db, r, n);
    RemoveNbrReaches(db, r, db.nbrs[n].ip);
  }

  // ----- Call by call -----

  lemma CreateVrReaches(db: Db, v4: Option<bool>, v6: Option<bool>)
    requires db in REACHABLE
    ensures CreateVirtualRouter(db, v4, v6).0 in REACHABLE
  {
    StepReachable(db, CreateVrCmd(v4, v6));
  }

  lemma RemoveVrReaches(db: Db, v: u32)
    requires db in REACHABLE
    ensures RemoveVirtualRouter(db, v).0 in REACHABLE
  {
    StepReachable(db, RemoveVrCmd(v));
  }

  lemma CreateRifReaches(db: Db, a: RifAttrs, fpa: RifOracle)
    requires db in REACHABLE
    ensures CreateRif(db, a, fpa).0 in REACHABLE <==> Harmless(db, CreateRifCmd(a, fpa))
    ensures CreateRif(db, a, fpa).1 != Success ==> CreateRif(db, a, fpa).0 == db
  {
    Outcome(db, CreateRifCmd(a, fpa));
  }

  lemma RemoveRifReaches(db: Db, r: RifId, fpa: RifOracle)
    requires db in REACHABLE
    ensures RemoveRif(db, r, fpa).0 in REACHABLE
  {
    StepReachable(db, RemoveRifCmd(r, fpa));
  }

  lemma CreateNbrReaches(db: Db, r: u32, ip: IpUnion, action: Option<PacketAction>, lib: GroupOracle, stale: u32)
    requires db in REACHABLE
    ensures CreateNeighbor(db, r, ip, action, lib, stale).0 in REACHABLE
            <==> Harmless(db, CreateNbrCmd(r, ip, action, lib, stale))
    ensures CreateNeighbor(db, r, ip, action, lib, stale).1 == Success
            && Harmless(db, CreateNbrCmd(r, ip, action, lib, stale)) ==>
              !Groupless(db.rifs[r].conf.kind, lib)
  {
    ReachableInv(db);
    CreateNeighborKeeps(db, r, ip, action, lib, stale);
    StepKeepsIff(db, CreateNbrCmd(r, ip, action, lib, stale));
    Outcome(db, CreateNbrCmd(r, ip, action, lib, stale));
  }

  lemma RemoveNbrReaches(db: Db, r: u32, ip: IpUnion)
    requires db in REACHABLE
    ensures RemoveNeighbor(db, r, ip).0 in REACHABLE <==> Harmless(db, RemoveNbrCmd(r, ip))
  {
    Outcome(db, RemoveNbrCmd(r, ip));
  }

  lemma HarmlessRemoval(db: Db, r: RifId, ip: IpUnion)
    requires db in REACHABLE && RifValid(db, r) && Harmless(db, RemoveNbrCmd(r, ip))
    ensures Removable(db.nbrs, r, ip)
  {
    if RemoveNeighbor(db, r, ip).0 == db {
      ReachableInv(db);
      RemoveNeighborKeeps(db, r, ip);
    }
  }

  lemma RemoveAllReaches(db: Db)
    requires db in REACHABLE
    ensures var to := RemoveAllNeighbors(db).0; to in REACHABLE && Cleared(db, to)
  {
    StepReachable(db, RemoveAllNbrsCmd);
    ReachableInv(db);
    RemoveAllClears(db);
  }

  lemma CreateNhReaches(db: Db, isIp: bool, r: u32, ip: IpUnion)
    requires db in REACHABLE
    ensures CreateNextHop(db, isIp, r, ip).0 in REACHABLE <==> Harmless(db, CreateNhCmd(isIp, r, ip))
  {
    Outcome(db, CreateNhCmd(isIp, r, ip));
  }

  lemma RemoveNhReaches(db: Db, h: NhId)
    requires db in REACHABLE
    ensures RemoveNextHop(db, h).0 in REACHABLE
  {
    StepReachable(db, RemoveNhCmd(h));
  }

  lemma CreateRouteReaches(db: Db, key: RouteKey, priority: Option<u32>, action: Option<PacketAction>,
        target: Option<RouteTarget>)
    requires db in REACHABLE
    ensures CreateRoute(db, key, priority, action, target).0 in REACHABLE
  {
    StepReachable(db, CreateRouteCmd(key, priority, action, target));
  }

  lemma RemoveRouteReaches(db: Db, key: RouteKey)
    requires db in REACHABLE
    ensures RemoveRoute(db, key).0 in REACHABLE
  {
    StepReachable(db, RemoveRouteCmd(key));
  }

  lemma SetActionReaches(db: Db, key: RouteKey, action: PacketAction)
    requires db in REACHABLE
    ensures SetRouteAction(db, key, action).0 in REACHABLE
  {
    StepReachable(db, SetActionCmd(key, action));
  }

  lemma SetNextHopReaches(db: Db, key: RouteKey, h: NhId)
    requires db in REACHABLE
    ensures SetRouteNextHop(db, key, h).0 in REACHABLE <==> Harmless(db, SetNextHopCmd(key, h))
  {
    Outcome(db, SetNextHopCmd(key, h));
  }
}
