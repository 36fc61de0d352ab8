/** Virtual routers and router interfaces coming and going: reference counts and MTU interning. */
module L3Interfaces {
  import opened Words
  import opened L3Types
  import opened SeqLib
  import opened L3Spec
  import opened L3Invariant

  /** Everything but the counts is indifferent to an interface without lists appearing or vanishing. */
  lemma SwapEmptyRif(db: Db, r: RifId, rif: Rif)
    requires Inv(db) && db.rifs[r].nbrs == [] && db.rifs[r].nhs == []
    requires rif.nbrs == [] && rif.nhs == [] && (rif.valid || rif == NO_RIF)
    ensures var rifs := db.rifs[r := rif];
            && Zeroed(rifs, db.nbrs, db.nhs) && NbrLists(rifs, db.nbrs) && NhLists(rifs, db.nhs)
            && Coherent(rifs, db.nbrs, db.nhs) && HostFlows(rifs, db.nbrs, db.flows)
  {
    SwapEmptyRifNbrs(db.rifs, db.nbrs, db.flows, r, rif);
    SwapEmptyRifNhs(db.rifs, db.nbrs, db.nhs, r, rif);
  }

  lemma SwapEmptyRifNbrs(rifs: RifTable, nbrs: NbrTable, flows: map<Cookie, Flow>, r: RifId, rif: Rif)
    requires NbrLists(rifs, nbrs) && HostFlows(rifs, nbrs, flows) && rifs[r].nbrs == [] && rif.nbrs == []
    ensures NbrLists(rifs[r := rif], nbrs) && HostFlows(rifs[r := rif], nbrs, flows)
  {
    assert forall n: NbrId :: nbrs[n].used ==> n in rifs[nbrs[n].rif].nbrs;
  }

  lemma SwapEmptyRifNhs(rifs: RifTable, nbrs: NbrTable, nhs: NhTable, r: RifId, rif: Rif)
    requires Zeroed(rifs, nbrs, nhs) && NhLists(rifs, nhs) && Coherent(rifs, nbrs, nhs)
    requires rifs[r].nhs == [] && rif.nhs == [] && (rif.valid || rif == NO_RIF)
    ensures Zeroed(rifs[r := rif], nbrs, nhs) && NhLists(rifs[r := rif], nhs) && Coherent(rifs[r := rif], nbrs, nhs)
  {
    forall h: NhId | nhs[h].used
      ensures nhs[h].rif != r && Resolved(rifs[r := rif], nbrs, nhs[h].rif, Addr(nhs[h].ip), nhs[h].nbrId)
    {
      assert h in rifs[nhs[h].rif].nhs;
      assert Resolved(rifs, nbrs, nhs[h].rif, Addr(nhs[h].ip), nhs[h].nbrId);
    }
  }

  lemma RefsAfterSwap(vrs: VrTable, rifs: RifTable, r: RifId, rif: Rif, v: VrId)
    requires VrRefs(vrs, rifs) && vrs[v].valid
    requires (!rifs[r].valid && rif.valid && rif.conf.vr == v) || (rifs[r].valid && !rif.valid && rifs[r].conf.vr == v)
    ensures VrRefs(CountRef(vrs, v, rif.valid), rifs[r := rif])
  {
    CountZero(rifs, UsesVr(v));
    forall w: VrId
      ensures CountRef(vrs, v, rif.valid)[w].rifRefs == Count(rifs[r := rif], UsesVr(w))
    {
      CountUpdate(rifs, UsesVr(w), r, rif);
    }
  }

  // ----- The MTU profile table -----

  /** A slot is found unless the size is new and every profile is taken: the first that has the size, else the first
      that is empty. */
  lemma MtuSlotFinds(mtus: MtuTable, size: u32)
    ensures var m := MtuSlot(mtus, size);
            && m <= MTU_TABLE_SIZE
            && (m < MTU_TABLE_SIZE ==> mtus[m].size == size || mtus[m].size == 0)
            && (m < MTU_TABLE_SIZE ==> forall l: MtuId :: l < m ==> mtus[l].size != mtus[m].size)
            && (m < MTU_TABLE_SIZE && mtus[m].size != size ==> forall l: MtuId :: mtus[l].size != size)
            && (m == MTU_TABLE_SIZE ==> forall l: MtuId :: mtus[l].size != size && mtus[l].size != 0)
  {
  }

  lemma InternOnCreate(mtus: MtuTable, rifs: RifTable, r: RifId, rif: Rif)
    requires MtuInterned(mtus, rifs) && !rifs[r].valid && rif.valid && rif.mtu != 0
    requires rif.conf.mtuIdx == MtuSlot(mtus, rif.mtu)
    ensures var m := rif.conf.mtuIdx;
            MtuInterned(mtus[m := MtuProfile(rif.mtu, mtus[m].refs + 1)], rifs[r := rif])
  {
    var m := rif.conf.mtuIdx;
    MtuSlotFinds(mtus, rif.mtu);
    var mtus' := mtus[m := MtuProfile(rif.mtu, mtus[m].refs + 1)];
    forall l: MtuId ensures mtus'[l].refs == Count(rifs[r := rif], UsesMtu(l)) {
      CountUpdate(rifs, UsesMtu(l), r, rif);
    }
    forall q: RifId | rifs[r := rif][q].valid && q != r
      ensures mtus'[rifs[q].conf.mtuIdx].size == rifs[q].mtu
    {
      CountZero(rifs, UsesMtu(rifs[q].conf.mtuIdx));
      assert UsesMtu(rifs[q].conf.mtuIdx)(rifs[q]);
    }
  }

  lemma InternOnRemove(mtus: MtuTable, rifs: RifTable, r: RifId)
    requires MtuInterned(mtus, rifs) && rifs[r].valid
    ensures mtus[rifs[r].conf.mtuIdx].refs > 0
    ensures MtuInterned(ReleaseMtu(mtus, rifs[r].conf.mtuIdx), rifs[r := NO_RIF])
  {
    var m := rifs[r].conf.mtuIdx;
    CountZero(rifs, UsesMtu(m));
    assert UsesMtu(m)(rifs[r]);
    var mtus' := ReleaseMtu(mtus, m);
    forall l: MtuId ensures mtus'[l].refs == Count(rifs[r := NO_RIF], UsesMtu(l)) {
      CountUpdate(rifs, UsesMtu(l), r, NO_RIF);
    }
    forall q: RifId | rifs[r := NO_RIF][q].valid
      ensures mtus'[rifs[q].conf.mtuIdx].size == rifs[q].mtu
    {
      if rifs[q].conf.mtuIdx == m {
        CountZero(rifs[r := NO_RIF], UsesMtu(m));
        assert UsesMtu(m)(rifs[r := NO_RIF][q]);
      }
    }
  }

  // ----- The operations -----

  lemma CreateVirtualRouterKeeps(db: Db, v4: Option<bool>, v6: Option<bool>)
    requires Inv(db)
    ensures Inv(CreateVirtualRouter(db, v4, v6).0)
  {
    var v := FreeVr(db.vrs);
    if v < VR_TABLE_SIZE {
      CountZero(db.rifs, UsesVr(v));
    }
  }

  /** A virtual router can go exactly when no interface is in it. */
  lemma RemoveVirtualRouterKeeps(db: Db, v: u32)
    requires Inv(db)
    ensures Inv(RemoveVirtualRouter(db, v).0)
    ensures RemoveVirtualRouter(db, v).1 == Success
            <==> VrValid(db, v) && forall r: RifId :: db.rifs[r].valid ==> db.rifs[r].conf.vr != v
  {
    if v < VR_TABLE_SIZE {
      RefsCount(db.vrs, db.rifs, v);
      if db.vrs[v].rifRefs == 0 {
        RouterGone(db.vrs, db.rifs, v);
      }
    }
  }

  /** The counter of a virtual router says whether an interface is there. */
  lemma RefsCount(vrs: VrTable, rifs: RifTable, v: VrId)
    requires VrRefs(vrs, rifs)
    ensures vrs[v].rifRefs == 0 <==> forall r: RifId :: rifs[r].valid ==> rifs[r].conf.vr != v
  {
    CountZero(rifs, UsesVr(v));
    assert forall r: RifId :: UsesVr(v)(rifs[r]) <==> rifs[r].valid && rifs[r].conf.vr == v;
  }

  lemma RouterGone(vrs: VrTable, rifs: RifTable, v: VrId)
    requires VrRefs(vrs, rifs) && vrs[v].rifRefs == 0
    ensures VrRefs(vrs[v := NO_VR], rifs)
  {
    RefsCount(vrs, rifs, v);
  }

  /** A new interface keeps the invariant exactly when its MTU is not zero. */
  lemma CreateRifKeeps(db: Db, a: RifAttrs, fpa: RifOracle)
    requires Inv(db)
    ensures var (to, st) := CreateRif(db, a, fpa);
            && (st != Success ==> to == db)
            && (Inv(to) <==> st != Success || a.mtu != Some(0))
  {
    var (to, st) := CreateRif(db, a, fpa);
    if st == Success {
      var r := FreeRif(db.rifs);
      var m := MtuSlot(db.mtus, MtuOf(a));
      if MtuOf(a) != 0 {
        SwapEmptyRif(db, r, to.rifs[r]);
        RefsAfterSwap(db.vrs, db.rifs, r, to.rifs[r], a.vr);
        InternOnCreate(db.mtus, db.rifs, r, to.rifs[r]);
      } else {
        assert to.mtus[m].size == 0 && to.mtus[m].refs > 0;
      }
    }
  }

  /** An interface can go exactly when it is there, heads no list, and the switch lets go of it;
      neither reference counter ever refuses. */
  lemma RemoveRifKeeps(db: Db, r: RifId, fpa: RifOracle)
    requires Inv(db)
    ensures var (to, st) := RemoveRif(db, r, fpa);
            && Inv(to)
            && (st != Success ==> to == db)
            && (st == Success <==> db.rifs[r].valid && db.rifs[r].nbrs == [] && db.rifs[r].nhs == []
                                   && FirstFailure(RemoveCalls(db, r), fpa) == Success)
  {
    if db.rifs[r].valid {
      InternOnRemove(db.mtus, db.rifs, r);
    }
    if RemoveRif(db, r, fpa).1 == Success {
      SwapEmptyRif(db, r, NO_RIF);
      RefsAfterSwap(db.vrs, db.rifs, r, NO_RIF, db.rifs[r].conf.vr);
    }
  }
}
