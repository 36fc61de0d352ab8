/** Runs in which the code does not do what it is for, and when that happens. */
module L3Findings {
  import opened Words
  import opened L3Types
  import opened Hardware
  import opened L3Spec
  import opened L3Invariant
  import opened L3Neighbors
  import opened L3Runs
  import opened L3Theorems
  import opened L3Lifetimes
  import opened L3Reference
  import opened L3Refinement

  // ----- Addresses of two families on one interface -----

  // 2001:db8::1, and 32.1.13.184, which is its first four bytes.
  const SIX := IpUnion(false, 0x20010DB8, 1)
  const FOUR := IpUnion(true, 0x20010DB8, 0)

  // A group can be made.
  const GROUP := GroupOracle(FdbGroup, true)

  /** One virtual router with one interface in it. */
  lemma OneRifIs(fpa: RifOracle)
    ensures var db := CreateRif(CreateVirtualRouter(EMPTY_DB, None, None).0, LOOPBACK, fpa).0;
            && db.rifs[0].valid && db.rifs[0].nbrs == [] && db.rifs[0].nhs == [] && db.rifs[0].conf.missAct == Trap
            && db.nbrs == EMPTY_DB.nbrs && db.nhs == EMPTY_DB.nhs
  {
    var d0 := CreateVirtualRouter(EMPTY_DB, None, None).0;
    assert d0.vrs[0].valid && FreeRif(d0.rifs) == 0 && MtuSlot(d0.mtus, MtuOf(LOOPBACK)) == 0;
  }

  /** After the IPv6 neighbour the IPv4 one is refused as if it were there, and an IPv4 next hop is pointed at the IPv6
      neighbour, where it should miss. */
  lemma MixedAddresses(fpa: RifOracle)
    ensures var start := CreateRif(CreateVirtualRouter(EMPTY_DB, None, None).0, LOOPBACK, fpa).0;
            var (db, st) := CreateNeighbor(start, 0, SIX, None, GROUP, 0);
            st == Success && TakesSixForFour(db)
  {
    OneRifIs(fpa);
    var start := CreateRif(CreateVirtualRouter(EMPTY_DB, None, None).0, LOOPBACK, fpa).0;
    assert FreeNbr(start.nbrs) == 0 by { assert !EMPTY_DB.nbrs[0].used; }
    AddNeighborShape(start, 0, 0, SIX, true, 0);
    var db := AddNeighbor(start, 0, 0, SIX, true, 0);
    assert db == CreateNeighbor(start, 0, SIX, None, GROUP, 0).0;
    assert FindNh(start, 0, SIX) == INVALID_ID;
    OnlySix(db);
  }

  ghost predicate TakesSixForFour(db: Db) {
    var (to, st) := CreateNextHop(db, true, 0, FOUR);
    && !Unmixed(db.nbrs, db.nhs, 0, FOUR)
    && CreateNeighbor(db, 0, FOUR, None, GROUP, 0) == (db, Failure)
    && (forall n: NbrId :: !IsNbr(db.nbrs, 0, Addr(FOUR), n))
    && st == Success && to.nhs[0].used && to.nhs[0].nbrId == 0
    && !Resolved(to.rifs, to.nbrs, 0, Addr(FOUR), to.nhs[0].nbrId)
  }

  lemma OnlySix(db: Db)
    requires db.rifs[0].valid && db.rifs[0].nbrs == [0] && db.rifs[0].nhs == []
    requires db.nbrs[0].used && db.nbrs[0].rif == 0 && db.nbrs[0].ip == SIX
    requires forall n: NbrId :: n > 0 ==> !db.nbrs[n].used
    requires forall h: NhId :: !db.nhs[h].used
    ensures TakesSixForFour(db)
  {
    assert Mixed(SIX, FOUR) && Matches(SIX, FOUR);
    assert FindNbr(db, 0, FOUR) == 0;
    assert FreeNbr(db.nbrs) < NBR_TABLE_SIZE by { assert !db.nbrs[1].used; }
    assert FreeNh(db.nhs) == 0 by { assert !db.nhs[0].used; }
    forall n: NbrId ensures !IsNbr(db.nbrs, 0, Addr(FOUR), n) {
      assert n == 0 || !db.nbrs[n].used;
    }
  }

  /** Exactly the neighbour that was asked for has gone, or none if there is none, and exactly its host entry. */
  ghost predicate TakesOnly(db: Db, to: Db, r: RifId, ip: IpUnion) {
    && (forall n: NbrId :: to.nbrs[n] == if IsNbr(db.nbrs, r, Addr(ip), n) then NO_NBR else db.nbrs[n])
    && (forall c: Cookie :: c.HostCookie? ==>
          (c in to.flows <==> c in db.flows && !(c.rif == r && V4(c.ip4) == Addr(ip))))
  }

  /** A removal takes exactly that if and only if no neighbour of the other family on the interface matches. */
  lemma RemovalExactIff(db: Db, r: RifId, ip: IpUnion)
    requires NbrLists(db.rifs, db.nbrs) && Apart(db.nbrs, db.nhs) && db.rifs[r].valid
    requires HostFlows(db.rifs, db.nbrs, db.flows) && Groups(db.nbrs, db.groups)
    ensures TakesOnly(db, RemoveNeighbor(db, r, ip).0, r, ip) <==> NbrsClear(db.nbrs, r, ip)
  {
    NbrLookupExactIff(db, r, ip);
    FindNbrMatches(db, r, ip);
    if FindNbr(db, r, ip) == INVALID_ID {
      NothingTaken(db, r, ip);
    } else {
      FoundTaken(db, r, FindNbr(db, r, ip), ip);
    }
  }

  lemma NothingTaken(db: Db, r: RifId, ip: IpUnion)
    requires HostFlows(db.rifs, db.nbrs, db.flows) && forall n: NbrId :: !IsNbr(db.nbrs, r, Addr(ip), n)
    ensures TakesOnly(db, db, r, ip)
  {
    forall c: Cookie | c.HostCookie? && c in db.flows ensures !(c.rif == r && V4(c.ip4) == Addr(ip)) {
      assert IsNbr(db.nbrs, c.rif, V4(c.ip4), db.flows[c].group.value);
    }
  }

  lemma FoundTaken(db: Db, r: RifId, n: NbrId, ip: IpUnion)
    requires NbrLists(db.rifs, db.nbrs) && n in db.groups && db.nbrs[n].used
    ensures TakesOnly(db, DropAsked(db, r, n, ip), r, ip) <==> IsNbr(db.nbrs, r, Addr(ip), n)
  {
    DropAskedTables(db, r, n, ip);
    var to := DropAsked(db, r, n, ip);
    if IsNbr(db.nbrs, r, Addr(ip), n) {
      assert forall m: NbrId :: IsNbr(db.nbrs, r, Addr(ip), m) ==> m == n;
    } else {
      assert to.nbrs[n] != db.nbrs[n];
    }
  }

  /** What a removal does to the neighbours and to the host entries. */
  lemma DropAskedTables(db: Db, r: RifId, n: NbrId, ip: IpUnion)
    requires n in db.groups
    ensures var to := DropAsked(db, r, n, ip);
            && to.nbrs == db.nbrs[n := NO_NBR]
            && forall c: Cookie :: c.HostCookie? ==>
                 (c in to.flows <==> c in db.flows && !(c.rif == r && V4(c.ip4) == Addr(ip)))
  {
    ForgetShape(db, r, n, ip);
  }

  // 2001:db8::, which agrees with the sixteen bytes that 32.1.13.184 leaves in the neighbour table.
  const SIX_OF_FOUR := IpUnion(false, 0x20010DB8, 0)

  /** After the IPv4 neighbour a removal of the IPv6 one, which was never there, succeeds: the IPv4 neighbour and its
      group are gone, and its host entry still names that group. */
  lemma RemovalStrandsHost(fpa: RifOracle)
    ensures var start := CreateRif(CreateVirtualRouter(EMPTY_DB, None, None).0, LOOPBACK, fpa).0;
            var (db, st) := CreateNeighbor(start, 0, FOUR, None, GROUP, 0);
            var (to, st') := RemoveNeighbor(db, 0, SIX_OF_FOUR);
            && st == Success && st' == Success && !Removable(db.nbrs, 0, SIX_OF_FOUR)
            && !to.nbrs[0].used && 0 !in to.groups
            && HostCookie(FOUR.word, 0) in to.flows && to.flows[HostCookie(FOUR.word, 0)].group == Some(0)
  {
    OneRifIs(fpa);
    var start := CreateRif(CreateVirtualRouter(EMPTY_DB, None, None).0, LOOPBACK, fpa).0;
    assert FreeNbr(start.nbrs) == 0 by { assert !EMPTY_DB.nbrs[0].used; }
    AddNeighborShape(start, 0, 0, FOUR, true, 0);
    var db := AddNeighbor(start, 0, 0, FOUR, true, 0);
    assert db == CreateNeighbor(start, 0, FOUR, None, GROUP, 0).0;
    assert Matches(FOUR, SIX_OF_FOUR) && FindNbr(db, 0, SIX_OF_FOUR) == 0;
    assert Mistaken(db.nbrs[0].ip, SIX_OF_FOUR);
    ForgetShape(db, 0, 0, SIX_OF_FOUR);
  }

  /** A host entry that is there already is kept as it is by a neighbour that is entered, so one left behind goes on
      naming the group it named, also when its address is entered again. */
  lemma HostLeftBehindStays(db: Db, r: u32, ip: IpUnion, action: Option<PacketAction>, lib: GroupOracle, stale: u32)
    requires CreateNeighbor(db, r, ip, action, lib, stale).1 == Success && HostCookie(ip.word, r) in db.flows
    ensures var to := CreateNeighbor(db, r, ip, action, lib, stale).0;
            && HostCookie(ip.word, r) in to.flows
            && to.flows[HostCookie(ip.word, r)] == db.flows[HostCookie(ip.word, r)]
  {
    AddNeighborShape(db, r, FreeNbr(db.nbrs), Kept(ip), MakeGroup(db.rifs[r].conf.kind, lib).GroupMade?, stale);
  }

  // ----- A neighbour without a group -----

  /** A neighbour on a VLAN whose bridging entry has no group is entered without one, with success: host entry, next hop
      and routes name a group that is not there. Its removal answers success too and leaves it in the table, where its
      next hop no longer resolves to it. */
  lemma NeighborWithoutGroup(db: Db, r: RifId, ip: IpUnion, lib: GroupOracle, stale: u32)
    requires NbrLists(db.rifs, db.nbrs) && HostFlows(db.rifs, db.nbrs, db.flows) && Groups(db.nbrs, db.groups)
    requires Unmixed(db.nbrs, db.nhs, r, ip) && Groupless(db.rifs[r].conf.kind, lib)
    requires CreateNeighbor(db, r, ip, None, lib, stale).1 == Success
    ensures GroupMissing(db, r, FreeNbr(db.nbrs), ip, CreateNeighbor(db, r, ip, None, lib, stale).0)
  {
    var n := FreeNbr(db.nbrs);
    var to := AddNeighbor(db, r, n, Kept(ip), false, stale);
    KeptMixes(db.nbrs, db.nhs, r, ip);
    KeptLooksUp(db, r, ip);
    UnmixedIsClear(db.nbrs, db.nhs, r, ip);
    FindNbrExact(db, r, ip, INVALID_ID);
    NoGroupBreaks(db, r, n, Kept(ip), stale);
    AddNeighborShape(db, r, n, Kept(ip), false, stale);
    AddNeighborHosts(db, r, n, Kept(ip), false, stale);
    assert Matches(to.nbrs[n].ip, ip) && FindNbr(to, r, ip) == n;
    assert FindNh(to, r, Kept(ip)) == FindNh(db, r, Kept(ip)) by {
      WalkSameIps(db.nhs, to.nhs, db.rifs[r].nhs, Kept(ip));
    }
    ForgetShape(to, r, n, ip);
    assert RemoveNeighbor(to, r, ip) == (ForgetNbr(to, r, n, ip), Success);
  }

  /** The walk over next hops does not see what they cache. */
  lemma {:induction false} WalkSameIps(nhs: NhTable, to: NhTable, list: seq<NhId>, ip: IpUnion)
    requires forall h: NhId :: to[h] == nhs[h].(nbrId := to[h].nbrId)
    ensures WalkNhs(to, list, ip) == WalkNhs(nhs, list, ip)
  {
    if list != [] {
      WalkSameIps(nhs, to, list[1..], ip);
    }
  }

  ghost predicate GroupMissing(was: Db, r: RifId, n: nat, ip: IpUnion, db: Db) {
    && n < NBR_TABLE_SIZE && IsNbr(db.nbrs, r, Addr(ip), n) && n !in db.groups
    && (ip.v4 ==> HostCookie(ip.word, r) in db.flows && db.flows[HostCookie(ip.word, r)].group == Some(n))
    && var (to, st) := RemoveNeighbor(db, r, ip);
       && st == Success && IsNbr(to.nbrs, r, Addr(ip), n)
       && var h := FindNh(was, r, Kept(ip));
          h != INVALID_ID ==> db.nhs[h].nbrId == n && to.nhs[h].nbrId == MissId(to.rifs[r].conf.missAct)
  }

  // ----- Routes whose virtual router is gone -----

  /** Every route is in a virtual router that is there. */
  ghost predicate RoutesHomed(c: Config) {
    forall k :: k in c.routes ==> k.vr in c.vrs
  }

  /** Only the removal of a virtual router strands routes, and it does so exactly when it succeeds and one is in it. */
  lemma StepKeepsHomed(db: Db, cmd: Command)
    requires Inv(db) && Clear(db, cmd) && RoutesHomed(ConfigOf(db))
    ensures RoutesHomed(ConfigOf(Step(db, cmd).0))
            <==> !(cmd.RemoveVrCmd? && Step(db, cmd).1 == Success && exists k :: k in db.routes && k.vr == cmd.vr)
  {
    var (to, st) := Step(db, cmd);
    StepRefines(db, cmd);
    RefKeepsHomed(ConfigOf(db), cmd, ConfigOf(to), st);
    assert ConfigOf(db).routes.Keys == db.routes.Keys;
  }

  lemma RefKeepsHomed(c: Config, cmd: Command, to: Config, st: Status)
    requires RefStep(c, cmd, to, st) && RoutesHomed(c)
    ensures RoutesHomed(to) <==> !(cmd.RemoveVrCmd? && st == Success && exists k :: k in c.routes && k.vr == cmd.vr)
  {
    if cmd.RemoveVrCmd? && st == Success {
      assert to.routes == c.routes && to.vrs == c.vrs - {cmd.vr};
    }
  }

  /** A stranded route cannot be removed or changed, its entry stays in the switch, and it is back as it was once its
      virtual router's slot is given out again. That the removal answers ItemNotFound holds if it survives the reading
      of an unset pointer, which comes before. */
  lemma StrandedRoute(db: Db, key: RouteKey)
    requires key in db.routes && RouteFlows(db.routes, db.flows) && RemoveVirtualRouter(db, key.vr).1 == Success
    ensures var gone := RemoveVirtualRouter(db, key.vr).0;
            var back := CreateVirtualRouter(gone, None, None).0;
            && LookupRoute(gone, key) == InvalidParameter && RemoveRoute(gone, key) == (gone, ItemNotFound)
            && RouteCookie(key) in gone.flows && gone.flows[RouteCookie(key)] == Compile(key, db.routes[key])
            && (FreeVr(gone.vrs) == key.vr ==> LookupRoute(back, key) == Success && back.routes[key] == db.routes[key])
  {
    var gone := RemoveVirtualRouter(db, key.vr).0;
    assert key.vr < VR_TABLE_SIZE && !gone.vrs[key.vr].valid;
  }
}
