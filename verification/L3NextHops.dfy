/** Next hops coming and going keep the invariant. */
module L3NextHops {
  import opened Words
  import opened L3Types
  import opened SeqLib
  import opened L3Spec
  import opened L3Invariant
  import opened L3Neighbors

  lemma LinkKeepsNhLists(rifs: RifTable, nhs: NhTable, r: RifId, h: NhId, nh: Nh)
    requires NhLists(rifs, nhs) && rifs[r].valid && !nhs[h].used
    requires nh.used && nh.rif == r && forall g: NhId :: !IsNh(nhs, r, Addr(nh.ip), g)
    ensures NhLists(rifs[r := rifs[r].(nhs := [h] + rifs[r].nhs)], nhs[h := nh])
  {
    assert h !in rifs[r].nhs;
    var list := [h] + rifs[r].nhs;
    assert forall g :: g in list <==> g == h || g in rifs[r].nhs;
    assert NoDup(list);
    var rifs' := rifs[r := rifs[r].(nhs := list)];
    var nhs' := nhs[h := nh];
    assert forall q: RifId, g: NhId :: g in rifs'[q].nhs <==> nhs'[g].used && nhs'[g].rif == q;
    forall g: NhId, f: NhId
      | nhs'[g].used && nhs'[f].used && nhs'[g].rif == nhs'[f].rif && Addr(nhs'[g].ip) == Addr(nhs'[f].ip)
      ensures g == f
    {
      assert !IsNh(nhs, r, Addr(nh.ip), g) && !IsNh(nhs, r, Addr(nh.ip), f);
    }
  }

  lemma UnlinkKeepsNhLists(rifs: RifTable, nhs: NhTable, r: RifId, h: NhId)
    requires NhLists(rifs, nhs) && nhs[h].used && nhs[h].rif == r
    ensures NhLists(rifs[r := rifs[r].(nhs := Without(rifs[r].nhs, h))], nhs[h := NO_NH])
  {
    WithoutNoDup(rifs[r].nhs, h);
  }

  /** Neighbour lists, their hosts and groups see neither an interface's next-hop list nor a back pointer. */
  lemma NhListKeepsNeighbors(db: Db, r: RifId, list: seq<NhId>, n: u32, h: u32)
    requires db.rifs[r].valid
    requires NbrLists(db.rifs, db.nbrs) && HostFlows(db.rifs, db.nbrs, db.flows) && Groups(db.nbrs, db.groups)
    ensures var rifs := db.rifs[r := db.rifs[r].(nhs := list)];
            var nbrs := SetNextHopOf(db.nbrs, n, h);
            NbrLists(rifs, nbrs) && HostFlows(rifs, nbrs, db.flows) && Groups(nbrs, db.groups)
  {
    var nbrs := SetNextHopOf(db.nbrs, n, h);
    assert forall m: NbrId, r1: RifId, ip: Ip :: IsNbr(nbrs, r1, ip, m) <==> IsNbr(db.nbrs, r1, ip, m);
    assert forall m: NbrId :: nbrs[m] == db.nbrs[m].(nextHop := nbrs[m].nextHop);
  }

  lemma AddNextHopCoherent(db: Db, r: RifId, h: NhId, ip: IpUnion)
    requires NbrLists(db.rifs, db.nbrs) && NbrsClear(db.nbrs, r, ip)
    requires Coherent(db.rifs, db.nbrs, db.nhs) && BackPointers(db.nbrs, db.nhs)
    requires !db.nhs[h].used && forall g: NhId :: !IsNh(db.nhs, r, Addr(ip), g)
    ensures var to := AddNextHop(db, r, h, ip);
            Coherent(to.rifs, to.nbrs, to.nhs) && BackPointers(to.nbrs, to.nhs)
  {
    var to := AddNextHop(db, r, h, ip);
    var id := Resolve(db, r, ip);
    ResolvedIsResolve(db, r, ip, id);
    assert forall m: NbrId, r1: RifId, ip1: Ip :: IsNbr(to.nbrs, r1, ip1, m) <==> IsNbr(db.nbrs, r1, ip1, m);
    forall g: NhId | to.nhs[g].used
      ensures Resolved(to.rifs, to.nbrs, to.nhs[g].rif, Addr(to.nhs[g].ip), to.nhs[g].nbrId)
    {
      assert g != h ==> Resolved(db.rifs, db.nbrs, db.nhs[g].rif, Addr(db.nhs[g].ip), db.nhs[g].nbrId);
    }
    forall g: NhId | to.nhs[g].used && to.nhs[g].nbrId < NBR_TABLE_SIZE
      ensures to.nbrs[to.nhs[g].nbrId].nextHop == g
    {
      assert g != h && to.nhs[g].nbrId == id ==> IsNh(db.nhs, r, Addr(ip), g);
    }
  }

  lemma AddNhKeepsApart(nbrs: NbrTable, nbrs': NbrTable, nhs: NhTable, h: NhId, nh: Nh)
    requires Apart(nbrs, nhs) && !nhs[h].used && nh.used && Unmixed(nbrs, nhs, nh.rif, nh.ip)
    requires forall n: NbrId :: nbrs'[n] == nbrs[n].(nextHop := nbrs'[n].nextHop)
    ensures Apart(nbrs', nhs[h := nh])
  {
  }

  lemma DropNhKeepsApart(nbrs: NbrTable, nbrs': NbrTable, nhs: NhTable, h: NhId)
    requires Apart(nbrs, nhs)
    requires forall n: NbrId :: nbrs'[n] == nbrs[n].(nextHop := nbrs'[n].nextHop)
    ensures Apart(nbrs', nhs[h := NO_NH])
  {
  }

  lemma AddNextHopKeeps(db: Db, r: RifId, h: NhId, ip: IpUnion)
    requires Inv(db) && db.rifs[r].valid && !db.nhs[h].used && FindNh(db, r, ip) == INVALID_ID
    requires Unmixed(db.nbrs, db.nhs, r, ip)
    ensures Inv(AddNextHop(db, r, h, ip))
  {
    var to := AddNextHop(db, r, h, ip);
    UnmixedIsClear(db.nbrs, db.nhs, r, ip);
    FindNhExact(db, r, ip, INVALID_ID);
    AddNhKeepsApart(db.nbrs, to.nbrs, db.nhs, h, to.nhs[h]);
    LinkKeepsNhLists(db.rifs, db.nhs, r, h, to.nhs[h]);
    NhListKeepsNeighbors(db, r, to.rifs[r].nhs, Resolve(db, r, ip), h);
    ListsKeepCounts(db.vrs, db.mtus, db.rifs, r, to.rifs[r]);
    AddNextHopCoherent(db, r, h, ip);
    AddNextHopRoutes(db, r, h, ip);
  }

  lemma AddNextHopRoutes(db: Db, r: RifId, h: NhId, ip: IpUnion)
    requires Zeroed(db.rifs, db.nbrs, db.nhs) && db.rifs[r].valid && !db.nhs[h].used
    requires Mirror(db.nhs, db.routes) && RouteCache(db.nhs, db.routes)
    ensures var to := AddNextHop(db, r, h, ip);
            Zeroed(to.rifs, to.nbrs, to.nhs) && Mirror(to.nhs, to.routes) && RouteCache(to.nhs, to.routes)
  {
    assert db.nhs[h] == NO_NH;
  }

  lemma DropNextHopCoherent(db: Db, h: NhId)
    requires Coherent(db.rifs, db.nbrs, db.nhs) && BackPointers(db.nbrs, db.nhs) && db.nhs[h].used
    requires forall g: NhId :: IsNh(db.nhs, db.nhs[h].rif, Addr(db.nhs[h].ip), g) ==> g == h
    ensures var to := DropNextHop(db, h);
            Coherent(to.rifs, to.nbrs, to.nhs) && BackPointers(to.nbrs, to.nhs)
  {
    var to := DropNextHop(db, h);
    var id := db.nhs[h].nbrId;
    assert Resolved(db.rifs, db.nbrs, db.nhs[h].rif, Addr(db.nhs[h].ip), id);
    assert forall m: NbrId, r1: RifId, ip1: Ip :: IsNbr(to.nbrs, r1, ip1, m) <==> IsNbr(db.nbrs, r1, ip1, m);
    forall g: NhId | to.nhs[g].used
      ensures Resolved(to.rifs, to.nbrs, to.nhs[g].rif, Addr(to.nhs[g].ip), to.nhs[g].nbrId)
      ensures to.nhs[g].nbrId < NBR_TABLE_SIZE ==> to.nbrs[to.nhs[g].nbrId].nextHop == g
    {
      assert Resolved(db.rifs, db.nbrs, db.nhs[g].rif, Addr(db.nhs[g].ip), db.nhs[g].nbrId);
      assert !IsNh(db.nhs, db.nhs[h].rif, Addr(db.nhs[h].ip), g);
    }
  }

  lemma DropNextHopRoutes(db: Db, h: NhId)
    requires Zeroed(db.rifs, db.nbrs, db.nhs) && NhLists(db.rifs, db.nhs) && db.nhs[h].used && db.nhs[h].routes == []
    requires Mirror(db.nhs, db.routes) && RouteCache(db.nhs, db.routes)
    ensures var to := DropNextHop(db, h);
            Zeroed(to.rifs, to.nbrs, to.nhs) && Mirror(to.nhs, to.routes) && RouteCache(to.nhs, to.routes)
  {
    var to := DropNextHop(db, h);
    assert forall k :: k !in db.nhs[h].routes;
  }

  /** A next hop without routes can go. */
  lemma DropNextHopKeeps(db: Db, h: NhId)
    requires Inv(db) && db.nhs[h].used && db.nhs[h].routes == []
    ensures Inv(DropNextHop(db, h))
  {
    var to := DropNextHop(db, h);
    var r := db.nhs[h].rif;
    UnlinkKeepsNhLists(db.rifs, db.nhs, r, h);
    DropNhKeepsApart(db.nbrs, to.nbrs, db.nhs, h);
    NhListKeepsNeighbors(db, r, to.rifs[r].nhs, db.nhs[h].nbrId, INVALID_ID);
    ListsKeepCounts(db.vrs, db.mtus, db.rifs, r, to.rifs[r]);
    DropNextHopCoherent(db, h);
    DropNextHopRoutes(db, h);
  }

  /** No call finds a used next hop whose interface has an empty list. */
  lemma UsedNextHopIsListed(db: Db, h: NhId)
    requires NhLists(db.rifs, db.nhs) && db.nhs[h].used
    ensures h in db.rifs[db.nhs[h].rif].nhs
  {
  }

  /** A next hop that is entered keeps the invariant if and only if its address is unmixed. */
  lemma CreateNextHopKeeps(db: Db, isIp: bool, r: u32, ip: IpUnion)
    requires Inv(db)
    ensures var (to, st) := CreateNextHop(db, isIp, r, ip);
            && (st != Success ==> to == db)
            && (Inv(to) <==> st != Success || Unmixed(db.nbrs, db.nhs, r, ip))
  {
    var (to, st) := CreateNextHop(db, isIp, r, ip);
    if st == Success {
      var h := FreeNh(db.nhs);
      if Unmixed(db.nbrs, db.nhs, r, ip) {
        AddNextHopKeeps(db, r, h, ip);
      } else {
        MixedNhBreaks(db.nbrs, to.nbrs, db.nhs, to.nhs, h, ip);
      }
    }
  }

  lemma MixedNhBreaks(nbrs: NbrTable, nbrs': NbrTable, nhs: NhTable, nhs': NhTable, h: NhId, ip: IpUnion)
    requires !nhs[h].used && nhs'[h].used && nhs'[h].ip == ip && nhs' == nhs[h := nhs'[h]]
    requires forall n: NbrId :: nbrs'[n] == nbrs[n].(nextHop := nbrs'[n].nextHop)
    requires !Unmixed(nbrs, nhs, nhs'[h].rif, ip)
    ensures !Apart(nbrs', nhs')
  {
    var r := nhs'[h].rif;
    if m: NbrId :| nbrs[m].used && nbrs[m].rif == r && Mixed(nbrs[m].ip, ip) {
      assert nbrs'[m].used && nbrs'[m].rif == r && nbrs'[m].ip == nbrs[m].ip;
      assert !Unmixed(nbrs', nhs', r, ip);
    } else {
      var g: NhId :| nhs[g].used && nhs[g].rif == r && Mixed(nhs[g].ip, ip);
      assert nhs'[g] == nhs[g];
      assert !Unmixed(nbrs', nhs', r, ip);
    }
  }

  lemma RemoveNextHopKeeps(db: Db, h: NhId)
    requires Inv(db)
    ensures Inv(RemoveNextHop(db, h).0)
    ensures RemoveNextHop(db, h).1 == Success <==> db.nhs[h].used && db.nhs[h].routes == []
  {
    if db.nhs[h].used && db.nhs[h].routes == [] {
      UsedNextHopIsListed(db, h);
      DropNextHopKeeps(db, h);
    }
  }
}
