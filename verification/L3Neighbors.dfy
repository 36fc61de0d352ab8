/** Neighbours coming and going keep the invariant. */
module L3Neighbors {
  import opened Words
  import opened L3Types
  import opened SeqLib
  import opened L3Spec
  import opened L3Invariant

  /** Pointing a next hop elsewhere takes its routes and their entries along. */
  lemma PointNextHopKeeps(db: Db, h: NhId, id: u32)
    requires db.nhs[h].used
    requires Mirror(db.nhs, db.routes) && RouteCache(db.nhs, db.routes) && RouteFlows(db.routes, db.flows)
    ensures var to := PointNextHop(db, h, id);
            Mirror(to.nhs, to.routes) && RouteCache(to.nhs, to.routes) && RouteFlows(to.routes, to.flows)
  {
  }

  lemma PointNextHopKeepsLists(rifs: RifTable, nbrs: NbrTable, nhs: NhTable, h: NhId, id: u32)
    requires nhs[h].used && Zeroed(rifs, nbrs, nhs) && NhLists(rifs, nhs)
    ensures Zeroed(rifs, nbrs, nhs[h := nhs[h].(nbrId := id)]) && NhLists(rifs, nhs[h := nhs[h].(nbrId := id)])
  {
  }

  /** Next hops do not see a change of an interface's neighbour list. */
  lemma NbrListKeepsNhLists(rifs: RifTable, nbrs: NbrTable, nhs: NhTable, r: RifId, list: seq<NbrId>, nbrs': NbrTable)
    requires rifs[r].valid && Zeroed(rifs, nbrs, nhs) && NhLists(rifs, nhs)
    requires forall n: NbrId :: !nbrs'[n].used ==> nbrs'[n] == NO_NBR
    ensures var rifs' := rifs[r := rifs[r].(nbrs := list)];
            Zeroed(rifs', nbrs', nhs) && NhLists(rifs', nhs)
  {
  }

  /** The batch update, entry by entry: exactly the routes through `h` move, to `id`. */
  lemma PointNextHopExact(db: Db, h: NhId, id: u32, k: RouteKey)
    requires db.nhs[h].used && k in db.routes
    requires Mirror(db.nhs, db.routes) && RouteFlows(db.routes, db.flows)
    ensures var to := PointNextHop(db, h, id);
            && to.routes.Keys == db.routes.Keys && to.flows.Keys == db.flows.Keys
            && RouteCookie(k) in to.flows
            && (if db.routes[k].nhValid && db.routes[k].nhIdx == h
                then to.routes[k] == db.routes[k].(nbrIdx := id, follows := true)
                     && to.flows[RouteCookie(k)] == Compile(k, db.routes[k].(nbrIdx := id, follows := true))
                else to.routes[k] == db.routes[k] && to.flows[RouteCookie(k)] == db.flows[RouteCookie(k)])
  {
    assert k in db.nhs[h].routes <==> db.routes[k].nhValid && db.routes[k].nhIdx == h;
  }

  /** Reference counts do not see a change of an interface's lists. */
  lemma ListsKeepCounts(vrs: VrTable, mtus: MtuTable, rifs: RifTable, r: RifId, rif: Rif)
    requires VrRefs(vrs, rifs) && MtuInterned(mtus, rifs)
    requires rif.valid == rifs[r].valid && rif.conf == rifs[r].conf && rif.mtu == rifs[r].mtu
    ensures VrRefs(vrs, rifs[r := rif]) && MtuInterned(mtus, rifs[r := rif])
  {
    forall v: VrId ensures Count(rifs[r := rif], UsesVr(v)) == Count(rifs, UsesVr(v)) {
      CountUpdate(rifs, UsesVr(v), r, rif);
    }
    forall m: MtuId ensures Count(rifs[r := rif], UsesMtu(m)) == Count(rifs, UsesMtu(m)) {
      CountUpdate(rifs, UsesMtu(m), r, rif);
    }
  }

  lemma LinkKeepsNbrLists(rifs: RifTable, nbrs: NbrTable, r: RifId, n: NbrId, nbr: Nbr)
    requires NbrLists(rifs, nbrs) && rifs[r].valid && !nbrs[n].used
    requires nbr.used && nbr.rif == r && forall m: NbrId :: !IsNbr(nbrs, r, Addr(nbr.ip), m)
    ensures NbrLists(rifs[r := rifs[r].(nbrs := [n] + rifs[r].nbrs)], nbrs[n := nbr])
  {
    assert n !in rifs[r].nbrs;
    var list := [n] + rifs[r].nbrs;
    assert forall m :: m in list <==> m == n || m in rifs[r].nbrs;
    assert NoDup(list);
    var rifs' := rifs[r := rifs[r].(nbrs := list)];
    var nbrs' := nbrs[n := nbr];
    assert forall q: RifId, m: NbrId :: m in rifs'[q].nbrs <==> nbrs'[m].used && nbrs'[m].rif == q;
    forall m: NbrId, l: NbrId
      | nbrs'[m].used && nbrs'[l].used && nbrs'[m].rif == nbrs'[l].rif && Addr(nbrs'[m].ip) == Addr(nbrs'[l].ip)
      ensures m == l
    {
      assert !IsNbr(nbrs, r, Addr(nbr.ip), m) && !IsNbr(nbrs, r, Addr(nbr.ip), l);
    }
  }

  lemma UnlinkKeepsNbrLists(rifs: RifTable, nbrs: NbrTable, r: RifId, n: NbrId)
    requires NbrLists(rifs, nbrs) && nbrs[n].used && nbrs[n].rif == r
    ensures NbrLists(rifs[r := rifs[r].(nbrs := Without(rifs[r].nbrs, n))], nbrs[n := NO_NBR])
  {
    WithoutNoDup(rifs[r].nbrs, n);
  }

  /** Addresses stay apart when an unmixed one comes. */
  lemma AddKeepsApart(nbrs: NbrTable, nhs: NhTable, nhs': NhTable, n: NbrId, nbr: Nbr)
    requires Apart(nbrs, nhs) && !nbrs[n].used && nbr.used && Unmixed(nbrs, nhs, nbr.rif, nbr.ip)
    requires forall h: NhId :: nhs'[h] == nhs[h].(nbrId := nhs'[h].nbrId)
    ensures Apart(nbrs[n := nbr], nhs')
  {
  }

  lemma DropKeepsApart(nbrs: NbrTable, nhs: NhTable, nhs': NhTable, n: NbrId)
    requires Apart(nbrs, nhs)
    requires forall h: NhId :: nhs'[h] == nhs[h].(nbrId := nhs'[h].nbrId)
    ensures Apart(nbrs[n := NO_NBR], nhs')
  {
  }

  lemma AddNeighborShape(db: Db, r: RifId, n: NbrId, ip: IpUnion, made: bool, stale: u32)
    ensures var to := AddNeighbor(db, r, n, ip, made, stale);
            var h := FindNh(db, r, ip);
            var mid := if h == INVALID_ID then db else PointNextHop(db, h, n);
            && to.rifs == db.rifs[r := db.rifs[r].(nbrs := [n] + db.rifs[r].nbrs)]
            && to.nbrs == db.nbrs[n := Nbr(true, ip, r, if h == INVALID_ID then stale else h)]
            && to.nhs == mid.nhs && to.routes == mid.routes
            && to.groups == (if made then db.groups + {n} else db.groups)
            && to.flows == (if ip.v4 && HostCookie(ip.word, r) !in mid.flows
                            then mid.flows[HostCookie(ip.word, r) := HostFlow(db.rifs[r].conf.vr, ip.word, n)]
                            else mid.flows)
            && to.vrs == db.vrs && to.mtus == db.mtus
  {
    assert FindNh(LinkNbr(db, r, n, ip, made), r, ip) == FindNh(db, r, ip);
  }

  lemma AddNeighborCoherent(db: Db, r: RifId, n: NbrId, ip: IpUnion, made: bool, stale: u32)
    requires Coherent(db.rifs, db.nbrs, db.nhs) && BackPointers(db.nbrs, db.nhs)
    requires NhLists(db.rifs, db.nhs) && NhsClear(db.nhs, r, ip)
    requires !db.nbrs[n].used && forall m: NbrId :: !IsNbr(db.nbrs, r, Addr(ip), m)
    ensures var to := AddNeighbor(db, r, n, ip, made, stale);
            Coherent(to.rifs, to.nbrs, to.nhs) && BackPointers(to.nbrs, to.nhs)
  {
    var to := AddNeighbor(db, r, n, ip, made, stale);
    AddNeighborShape(db, r, n, ip, made, stale);
    var h := FindNh(db, r, ip);
    FindNhExact(db, r, ip, h);
    assert forall m: NbrId, r1: RifId, ip1: Ip :: 
      IsNbr(to.nbrs, r1, ip1, m) <==> IsNbr(db.nbrs, r1, ip1, m) || (m == n && r1 == r && ip1 == Addr(ip));
    forall g: NhId | to.nhs[g].used
      ensures Resolved(to.rifs, to.nbrs, to.nhs[g].rif, Addr(to.nhs[g].ip), to.nhs[g].nbrId)
    {
      assert Resolved(db.rifs, db.nbrs, db.nhs[g].rif, Addr(db.nhs[g].ip), db.nhs[g].nbrId);
      assert IsNh(db.nhs, r, Addr(ip), g) <==> g == h;
    }
  }

  lemma AddNeighborHosts(db: Db, r: RifId, n: NbrId, ip: IpUnion, made: bool, stale: u32)
    requires HostFlows(db.rifs, db.nbrs, db.flows)
    requires !db.nbrs[n].used && forall m: NbrId :: !IsNbr(db.nbrs, r, Addr(ip), m)
    ensures var to := AddNeighbor(db, r, n, ip, made, stale);
            HostFlows(to.rifs, to.nbrs, to.flows)
  {
    var to := AddNeighbor(db, r, n, ip, made, stale);
    AddNeighborShape(db, r, n, ip, made, stale);
    if ip.v4 {
      assert Addr(ip) == V4(ip.word);
      assert HostCookie(ip.word, r) !in db.flows;
    }
    forall c | c in to.flows && c.HostCookie?
      ensures to.flows[c].group.Some? && IsNbr(to.nbrs, c.rif, V4(c.ip4), to.flows[c].group.value)
    {
      assert c in db.flows || (Addr(ip) == V4(c.ip4) && r == c.rif);
    }
  }

  lemma AddNeighborRest(db: Db, r: RifId, n: NbrId, ip: IpUnion, made: bool, stale: u32)
    requires Zeroed(db.rifs, db.nbrs, db.nhs) && NhLists(db.rifs, db.nhs)
    requires Mirror(db.nhs, db.routes) && RouteCache(db.nhs, db.routes) && RouteFlows(db.routes, db.flows)
    requires db.rifs[r].valid
    ensures var to := AddNeighbor(db, r, n, ip, made, stale);
            && Zeroed(to.rifs, to.nbrs, to.nhs) && NhLists(to.rifs, to.nhs)
            && Mirror(to.nhs, to.routes) && RouteCache(to.nhs, to.routes) && RouteFlows(to.routes, to.flows)
  {
    var to := AddNeighbor(db, r, n, ip, made, stale);
    AddNeighborShape(db, r, n, ip, made, stale);
    var h := FindNh(db, r, ip);
    if h != INVALID_ID {
      PointNextHopKeeps(db, h, n);
      PointNextHopKeepsLists(db.rifs, db.nbrs, db.nhs, h, n);
    }
    NbrListKeepsNhLists(db.rifs, db.nbrs, to.nhs, r, to.rifs[r].nbrs, to.nbrs);
  }

  lemma AddNeighborLists(db: Db, r: RifId, n: NbrId, ip: IpUnion, stale: u32)
    requires NbrLists(db.rifs, db.nbrs) && Apart(db.nbrs, db.nhs) && Groups(db.nbrs, db.groups)
    requires VrRefs(db.vrs, db.rifs) && MtuInterned(db.mtus, db.rifs)
    requires db.rifs[r].valid && !db.nbrs[n].used && Unmixed(db.nbrs, db.nhs, r, ip)
    requires forall m: NbrId :: !IsNbr(db.nbrs, r, Addr(ip), m)
    ensures var to := AddNeighbor(db, r, n, ip, true, stale);
            && NbrLists(to.rifs, to.nbrs) && Apart(to.nbrs, to.nhs) && Groups(to.nbrs, to.groups)
            && VrRefs(to.vrs, to.rifs) && MtuInterned(to.mtus, to.rifs)
  {
    var to := AddNeighbor(db, r, n, ip, true, stale);
    AddNeighborShape(db, r, n, ip, true, stale);
    AddKeepsApart(db.nbrs, db.nhs, to.nhs, n, to.nbrs[n]);
    LinkKeepsNbrLists(db.rifs, db.nbrs, r, n, to.nbrs[n]);
    ListsKeepCounts(db.vrs, db.mtus, db.rifs, r, to.rifs[r]);
  }

  lemma AddNeighborKeeps(db: Db, r: RifId, n: NbrId, ip: IpUnion, stale: u32)
    requires Inv(db) && db.rifs[r].valid && !db.nbrs[n].used && FindNbr(db, r, ip) == INVALID_ID
    requires Unmixed(db.nbrs, db.nhs, r, ip)
    ensures Inv(AddNeighbor(db, r, n, ip, true, stale))
  {
    UnmixedIsClear(db.nbrs, db.nhs, r, ip);
    FindNbrExact(db, r, ip, INVALID_ID);
    AddNeighborLists(db, r, n, ip, stale);
    AddNeighborCoherent(db, r, n, ip, true, stale);
    AddNeighborHosts(db, r, n, ip, true, stale);
    AddNeighborRest(db, r, n, ip, true, stale);
  }

  // ----- Removal -----

  lemma ForgetShape(db: Db, r: RifId, n: NbrId, host: IpUnion)
    ensures var ip := db.nbrs[n].ip;
            var h := FindNh(db, r, ip);
            ForgetNbr(db, r, n, host) == if h == INVALID_ID then DelHost(db, r, host)
                                         else PointNextHop(DelHost(db, r, host), h, MissId(db.rifs[r].conf.missAct))
  {
    assert FindNh(DelHost(db, r, host), r, db.nbrs[n].ip) == FindNh(db, r, db.nbrs[n].ip);
  }

  lemma DropNeighborShape(db: Db, r: RifId, n: NbrId)
    requires NhLists(db.rifs, db.nhs)
    ensures var to := DropNeighbor(db, r, n);
            var ip := db.nbrs[n].ip;
            var h := FindNh(db, r, ip);
            var mid := if h == INVALID_ID then DelHost(db, r, ip)
                       else PointNextHop(DelHost(db, r, ip), h, MissId(db.rifs[r].conf.missAct));
            && to.rifs == db.rifs[r := db.rifs[r].(nbrs := Without(db.rifs[r].nbrs, n))]
            && to.nbrs == db.nbrs[n := NO_NBR]
            && to.nhs == mid.nhs && to.routes == mid.routes && to.flows == mid.flows
            && to.groups == db.groups - {n}
            && to.vrs == db.vrs && to.mtus == db.mtus
  {
    ForgetShape(db, r, n, db.nbrs[n].ip);
  }

  /** A neighbour goes, and the next hop of its address, if there is one, goes over to the miss action. */
  lemma LeftCoherent(rifs: RifTable, rifs': RifTable, nbrs: NbrTable, nhs: NhTable, nhs': NhTable, n: NbrId, h: u32)
    requires Coherent(rifs, nbrs, nhs) && nbrs[n].used && forall q: RifId :: rifs'[q].conf == rifs[q].conf
    requires forall m: NbrId :: IsNbr(nbrs, nbrs[n].rif, Addr(nbrs[n].ip), m) ==> m == n
    requires forall g: NhId :: IsNh(nhs, nbrs[n].rif, Addr(nbrs[n].ip), g) <==> g == h
    requires forall g: NhId ::
               nhs'[g] == if g == h then nhs[g].(nbrId := MissId(rifs[nbrs[n].rif].conf.missAct)) else nhs[g]
    ensures Coherent(rifs', nbrs[n := NO_NBR], nhs')
  {
    var nbrs' := nbrs[n := NO_NBR];
    assert forall m: NbrId, r: RifId, ip: Ip :: IsNbr(nbrs', r, ip, m) <==> IsNbr(nbrs, r, ip, m) && m != n;
    assert IsNbr(nbrs, nbrs[n].rif, Addr(nbrs[n].ip), n);
    forall g: NhId | nhs'[g].used ensures Resolved(rifs', nbrs', nhs'[g].rif, Addr(nhs'[g].ip), nhs'[g].nbrId) {
      assert Resolved(rifs, nbrs, nhs[g].rif, Addr(nhs[g].ip), nhs[g].nbrId);
      assert IsNh(nhs, nbrs[n].rif, Addr(nbrs[n].ip), g) <==> g == h;
    }
  }

  lemma LeftBackPointers(rifs: RifTable, nbrs: NbrTable, nhs: NhTable, nhs': NhTable, n: NbrId, h: u32)
    requires Coherent(rifs, nbrs, nhs) && BackPointers(nbrs, nhs) && nbrs[n].used
    requires forall g: NhId :: IsNh(nhs, nbrs[n].rif, Addr(nbrs[n].ip), g) <==> g == h
    requires forall g: NhId ::
               nhs'[g] == if g == h then nhs[g].(nbrId := MissId(rifs[nbrs[n].rif].conf.missAct)) else nhs[g]
    ensures BackPointers(nbrs[n := NO_NBR], nhs')
  {
    forall g: NhId | nhs'[g].used && nhs'[g].nbrId < NBR_TABLE_SIZE ensures nhs'[g].nbrId != n {
      assert Resolved(rifs, nbrs, nhs[g].rif, Addr(nhs[g].ip), nhs[g].nbrId);
      assert IsNh(nhs, nbrs[n].rif, Addr(nbrs[n].ip), g) <==> g == h;
    }
  }

  lemma DropNeighborCoherent(db: Db, r: RifId, n: NbrId)
    requires Coherent(db.rifs, db.nbrs, db.nhs) && BackPointers(db.nbrs, db.nhs)
    requires NhLists(db.rifs, db.nhs) && NhsClear(db.nhs, r, db.nbrs[n].ip)
    requires db.nbrs[n].used && db.nbrs[n].rif == r
    requires forall m: NbrId :: IsNbr(db.nbrs, r, Addr(db.nbrs[n].ip), m) ==> m == n
    ensures var to := DropNeighbor(db, r, n);
            Coherent(to.rifs, to.nbrs, to.nhs) && BackPointers(to.nbrs, to.nhs)
  {
    var to := DropNeighbor(db, r, n);
    DropNeighborShape(db, r, n);
    var h := FindNh(db, r, db.nbrs[n].ip);
    FindNhExact(db, r, db.nbrs[n].ip, h);
    LeftCoherent(db.rifs, to.rifs, db.nbrs, db.nhs, to.nhs, n, h);
    LeftBackPointers(db.rifs, db.nbrs, db.nhs, to.nhs, n, h);
  }

  /** A neighbour goes, and with it the host entry of its address. */
  lemma LeftHosts(rifs: RifTable, rifs': RifTable, nbrs: NbrTable, flows: map<Cookie, Flow>, flows': map<Cookie, Flow>,
      n: NbrId)
    requires HostFlows(rifs, nbrs, flows) && NbrLists(rifs, nbrs) && nbrs[n].used
    requires forall q: RifId :: rifs'[q].conf == rifs[q].conf
    requires forall c: Cookie :: c.HostCookie? ==>
               (c in flows' <==> c in flows && !(nbrs[n].ip.v4 && c == HostCookie(nbrs[n].ip.word, nbrs[n].rif)))
    requires forall c :: c in flows' && c.HostCookie? ==> flows'[c] == flows[c]
    ensures HostFlows(rifs', nbrs[n := NO_NBR], flows')
  {
    forall m: NbrId | m != n && nbrs[m].used && nbrs[m].ip.v4
      ensures HostCookie(nbrs[m].ip.word, nbrs[m].rif) in flows'
    {
      assert !(Addr(nbrs[m].ip) == Addr(nbrs[n].ip) && nbrs[m].rif == nbrs[n].rif);
    }
  }

  lemma DropNeighborHosts(db: Db, r: RifId, n: NbrId)
    requires HostFlows(db.rifs, db.nbrs, db.flows) && NbrLists(db.rifs, db.nbrs) && NhLists(db.rifs, db.nhs)
    requires db.nbrs[n].used && db.nbrs[n].rif == r
    ensures var to := DropNeighbor(db, r, n);
            HostFlows(to.rifs, to.nbrs, to.flows)
  {
    var to := DropNeighbor(db, r, n);
    DropNeighborShape(db, r, n);
    LeftHosts(db.rifs, to.rifs, db.nbrs, db.flows, to.flows, n);
  }

  lemma HostKeepsRouteFlows(db: Db, r: RifId, ip: IpUnion)
    requires RouteFlows(db.routes, db.flows)
    ensures RouteFlows(db.routes, DelHost(db, r, ip).flows)
  {
  }

  lemma DropNeighborRest(db: Db, r: RifId, n: NbrId)
    requires Zeroed(db.rifs, db.nbrs, db.nhs) && NhLists(db.rifs, db.nhs)
    requires Mirror(db.nhs, db.routes) && RouteCache(db.nhs, db.routes) && RouteFlows(db.routes, db.flows)
    requires db.rifs[r].valid
    ensures var to := DropNeighbor(db, r, n);
            && Zeroed(to.rifs, to.nbrs, to.nhs) && NhLists(to.rifs, to.nhs)
            && Mirror(to.nhs, to.routes) && RouteCache(to.nhs, to.routes) && RouteFlows(to.routes, to.flows)
  {
    var to := DropNeighbor(db, r, n);
    DropNeighborShape(db, r, n);
    var ip := db.nbrs[n].ip;
    var cut := DelHost(db, r, ip);
    HostKeepsRouteFlows(db, r, ip);
    var h := FindNh(db, r, ip);
    var miss := MissId(db.rifs[r].conf.missAct);
    if h != INVALID_ID {
      PointNextHopKeeps(cut, h, miss);
      PointNextHopKeepsLists(db.rifs, db.nbrs, db.nhs, h, miss);
    }
    NbrListKeepsNhLists(db.rifs, db.nbrs, to.nhs, r, to.rifs[r].nbrs, to.nbrs);
  }

  lemma DropNeighborLists(db: Db, r: RifId, n: NbrId)
    requires NbrLists(db.rifs, db.nbrs) && NhLists(db.rifs, db.nhs) && Apart(db.nbrs, db.nhs)
             && Groups(db.nbrs, db.groups)
    requires VrRefs(db.vrs, db.rifs) && MtuInterned(db.mtus, db.rifs)
    requires db.nbrs[n].used && db.nbrs[n].rif == r
    ensures var to := DropNeighbor(db, r, n);
            && NbrLists(to.rifs, to.nbrs) && Apart(to.nbrs, to.nhs) && Groups(to.nbrs, to.groups)
            && VrRefs(to.vrs, to.rifs) && MtuInterned(to.mtus, to.rifs)
  {
    var to := DropNeighbor(db, r, n);
    DropNeighborShape(db, r, n);
    DropKeepsApart(db.nbrs, db.nhs, to.nhs, n);
    UnlinkKeepsNbrLists(db.rifs, db.nbrs, r, n);
    ListsKeepCounts(db.vrs, db.mtus, db.rifs, r, to.rifs[r]);
  }

  lemma DropNeighborKeeps(db: Db, r: RifId, n: NbrId)
    requires Inv(db) && db.nbrs[n].used && db.nbrs[n].rif == r
    ensures Inv(DropNeighbor(db, r, n))
  {
    UnmixedIsClear(db.nbrs, db.nhs, r, db.nbrs[n].ip);
    DropNeighborLists(db, r, n);
    DropNeighborCoherent(db, r, n);
    DropNeighborHosts(db, r, n);
    DropNeighborRest(db, r, n);
  }

  // ----- The operations -----

  /** A neighbour that is entered keeps the invariant if and only if its address is unmixed and its group was made. */
  lemma CreateNeighborKeeps(db: Db, r: u32, ip: IpUnion, action: Option<PacketAction>, lib: GroupOracle, stale: u32)
    requires Inv(db)
    ensures var (to, st) := CreateNeighbor(db, r, ip, action, lib, stale);
            && (st != Success ==> to == db)
            && (Inv(to) <==>
                  st != Success || (Unmixed(db.nbrs, db.nhs, r, ip) && !Groupless(db.rifs[r].conf.kind, lib)))
  {
    var (to, st) := CreateNeighbor(db, r, ip, action, lib, stale);
    if st == Success {
      var n := FreeNbr(db.nbrs);
      var made := MakeGroup(db.rifs[r].conf.kind, lib).GroupMade?;
      KeptMixes(db.nbrs, db.nhs, r, ip);
      KeptLooksUp(db, r, ip);
      if !made {
        NoGroupBreaks(db, r, n, Kept(ip), stale);
      } else if Unmixed(db.nbrs, db.nhs, r, ip) {
        AddNeighborKeeps(db, r, n, Kept(ip), stale);
      } else {
        AddNeighborShape(db, r, n, Kept(ip), made, stale);
        MixedBreaks(db.nbrs, to.nbrs, db.nhs, to.nhs, n, Kept(ip));
      }
    }
  }

  /** Past its other checks, a creation fails exactly when the bridging table is needed and fails, or the group is asked
      for and not added. A group is there afterwards exactly if it was added, on a VLAN behind a bridging entry that has
      one. */
  lemma GroupExact(db: Db, r: RifId, ip: IpUnion, lib: GroupOracle, stale: u32)
    requires Groups(db.nbrs, db.groups) && db.rifs[r].valid
    requires FindNbr(db, r, ip) == INVALID_ID && FreeNbr(db.nbrs) < NBR_TABLE_SIZE
    ensures var (to, st) := CreateNeighbor(db, r, ip, None, lib, stale);
            var onVlan := db.rifs[r].conf.kind == Vlan;
            && (st == Success || st == Failure)
            && (st == Failure <==> (onVlan && lib.fdb == FdbFails)
                                   || ((onVlan ==> lib.fdb == FdbGroup) && !lib.added))
            && (FreeNbr(db.nbrs) in to.groups <==> lib.added && (onVlan ==> lib.fdb == FdbGroup))
            && to.groups - {FreeNbr(db.nbrs)} == db.groups
  {
    if CreateNeighbor(db, r, ip, None, lib, stale).1 == Success {
      AddNeighborShape(db, r, FreeNbr(db.nbrs), Kept(ip), MakeGroup(db.rifs[r].conf.kind, lib).GroupMade?, stale);
    }
  }

  lemma NoGroupBreaks(db: Db, r: RifId, n: NbrId, ip: IpUnion, stale: u32)
    requires Groups(db.nbrs, db.groups) && !db.nbrs[n].used
    ensures var to := AddNeighbor(db, r, n, ip, false, stale);
            to.nbrs[n].used && n !in to.groups && !Groups(to.nbrs, to.groups)
  {
    AddNeighborShape(db, r, n, ip, false, stale);
  }

  lemma MixedBreaks(nbrs: NbrTable, nbrs': NbrTable, nhs: NhTable, nhs': NhTable, n: NbrId, ip: IpUnion)
    requires !nbrs[n].used && nbrs'[n].used && nbrs'[n].ip == ip && nbrs' == nbrs[n := nbrs'[n]]
    requires forall h: NhId :: nhs'[h] == nhs[h].(nbrId := nhs'[h].nbrId)
    requires !Unmixed(nbrs, nhs, nbrs'[n].rif, ip)
    ensures !Apart(nbrs', nhs')
  {
    var r := nbrs'[n].rif;
    if m: NbrId :| nbrs[m].used && nbrs[m].rif == r && Mixed(nbrs[m].ip, ip) {
      assert nbrs'[m] == nbrs[m];
      assert !Unmixed(nbrs', nhs', r, ip);
    } else {
      var h: NhId :| nhs[h].used && nhs[h].rif == r && Mixed(nhs[h].ip, ip);
      assert nhs'[h].used && nhs'[h].rif == r && nhs'[h].ip == nhs[h].ip;
      assert !Unmixed(nbrs', nhs', r, ip);
    }
  }

  /** Clearing what lies behind an IPv4 address changes nothing about it: its first four bytes decide. */
  lemma KeptMixes(nbrs: NbrTable, nhs: NhTable, r: RifId, ip: IpUnion)
    ensures Addr(Kept(ip)) == Addr(ip)
    ensures Unmixed(nbrs, nhs, r, Kept(ip)) <==> Unmixed(nbrs, nhs, r, ip)
  {
    assert forall other: IpUnion :: Mixed(other, ip) <==> other.v4 != ip.v4 && other.word == ip.word;
    assert forall other: IpUnion :: Mixed(other, Kept(ip)) <==> other.v4 != ip.v4 && other.word == ip.word;
  }

  lemma {:induction false} WalksKept(nbrs: NbrTable, list: seq<NbrId>, ip: IpUnion)
    ensures WalkNbrs(nbrs, list, Kept(ip)) == WalkNbrs(nbrs, list, ip)
  {
    if list != [] {
      WalksKept(nbrs, list[1..], ip);
    }
  }

  lemma KeptLooksUp(db: Db, r: RifId, ip: IpUnion)
    ensures FindNbr(db, r, Kept(ip)) == FindNbr(db, r, ip)
  {
    WalksKept(db.nbrs, db.rifs[r].nbrs, ip);
  }

  // ----- Removal by an address -----

  /** Removal keeps the invariant if and only if it is by an address that is removable. */
  lemma RemoveNeighborKeeps(db: Db, r: u32, ip: IpUnion)
    requires Inv(db)
    ensures Inv(RemoveNeighbor(db, r, ip).0) <==> (RifValid(db, r) ==> Removable(db.nbrs, r, ip))
  {
    if RifValid(db, r) {
      var n := FindNbr(db, r, ip);
      FindNbrMatches(db, r, ip);
      if n != INVALID_ID {
        AskedFamily(db, r, n, ip);
        if Removable(db.nbrs, r, ip) {
          DropAskedIs(db, r, n, ip);
          DropNeighborKeeps(db, r, n);
        } else {
          DropStrandsHost(db, r, n, ip);
        }
      }
    }
  }

  /** A removable address that finds an IPv4 neighbour is an IPv4 one, and only such a one does not. */
  lemma AskedFamily(db: Db, r: RifId, n: NbrId, ip: IpUnion)
    requires Apart(db.nbrs, db.nhs) && db.nbrs[n].used && db.nbrs[n].rif == r && Matches(db.nbrs[n].ip, ip)
    ensures Removable(db.nbrs, r, ip) <==> (db.nbrs[n].ip.v4 ==> ip.v4)
  {
    if !ip.v4 && !db.nbrs[n].ip.v4 {
      forall m: NbrId | db.nbrs[m].used && db.nbrs[m].rif == r ensures !Mistaken(db.nbrs[m].ip, ip) {
        assert Unmixed(db.nbrs, db.nhs, r, db.nbrs[n].ip);
        assert !Mixed(db.nbrs[m].ip, db.nbrs[n].ip);
      }
    }
  }

  /** Where the asked address is of the family of the neighbour found, or there is no host entry for it, the removal is
      that of the neighbour with its own host entry. */
  lemma DropAskedIs(db: Db, r: RifId, n: NbrId, ip: IpUnion)
    requires HostFlows(db.rifs, db.nbrs, db.flows) && Groups(db.nbrs, db.groups) && Apart(db.nbrs, db.nhs)
    requires db.nbrs[n].used && db.nbrs[n].rif == r && Matches(db.nbrs[n].ip, ip) && (db.nbrs[n].ip.v4 ==> ip.v4)
    ensures DelHost(db, r, ip) == DelHost(db, r, db.nbrs[n].ip) && DropAsked(db, r, n, ip) == DropNeighbor(db, r, n)
  {
    if ip.v4 && !db.nbrs[n].ip.v4 {
      NoHostOfSix(db, r, n);
      assert db.flows - {HostCookie(ip.word, r)} == db.flows;
    }
    assert DelHost(db, r, ip) == DelHost(db, r, db.nbrs[n].ip);
  }

  /** No host entry is for the first four bytes of an IPv6 neighbour of the interface. */
  lemma NoHostOfSix(db: Db, r: RifId, n: NbrId)
    requires HostFlows(db.rifs, db.nbrs, db.flows) && Apart(db.nbrs, db.nhs)
    requires db.nbrs[n].used && db.nbrs[n].rif == r && !db.nbrs[n].ip.v4
    ensures HostCookie(db.nbrs[n].ip.word, r) !in db.flows
  {
    var word := db.nbrs[n].ip.word;
    assert Unmixed(db.nbrs, db.nhs, r, db.nbrs[n].ip);
    assert forall m: NbrId :: IsNbr(db.nbrs, r, V4(word), m) ==> Mixed(db.nbrs[m].ip, db.nbrs[n].ip);
    assert forall m: NbrId :: !IsNbr(db.nbrs, r, V4(word), m);
  }

  /** An IPv4 neighbour that goes by an IPv6 address leaves its host entry behind, which names the group that
      has gone. */
  lemma DropStrandsHost(db: Db, r: RifId, n: NbrId, ip: IpUnion)
    requires HostFlows(db.rifs, db.nbrs, db.flows) && n in db.groups
    requires db.nbrs[n].used && db.nbrs[n].rif == r && db.nbrs[n].ip.v4 && !ip.v4
    ensures var to := DropAsked(db, r, n, ip);
            var c := HostCookie(db.nbrs[n].ip.word, r);
            && c in to.flows && to.flows[c] == db.flows[c] && to.flows[c].group == Some(n)
            && n !in to.groups && to.nbrs == db.nbrs[n := NO_NBR]
            && !HostFlows(to.rifs, to.nbrs, to.flows)
  {
    ForgetShape(db, r, n, ip);
    var to := DropAsked(db, r, n, ip);
    var c := HostCookie(db.nbrs[n].ip.word, r);
    assert c in db.flows && db.flows[c] == HostFlow(db.rifs[r].conf.vr, db.nbrs[n].ip.word, n);
    assert c in to.flows && c.HostCookie? && to.flows[c].group.value == n && !to.nbrs[n].used;
  }
}
