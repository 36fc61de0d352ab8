/** What holds of the L3 database between any two calls. */
module L3Invariant {
  import opened Words
  import opened L3Types
  import opened SeqLib
  import opened L3Spec

  /** Neighbour `n` sits on interface `r` with address `ip`. */
  ghost predicate IsNbr(nbrs: NbrTable, r: RifId, ip: Ip, n: u32) {
    n < NBR_TABLE_SIZE && nbrs[n].used && nbrs[n].rif == r && Addr(nbrs[n].ip) == ip
  }

  ghost predicate IsNh(nhs: NhTable, r: RifId, ip: Ip, h: u32) {
    h < NH_TABLE_SIZE && nhs[h].used && nhs[h].rif == r && Addr(nhs[h].ip) == ip
  }

  /** A slot that is not in use is all zero. */
  ghost predicate Zeroed(rifs: RifTable, nbrs: NbrTable, nhs: NhTable) {
    && (forall r: RifId :: !rifs[r].valid ==> rifs[r] == NO_RIF)
    && (forall n: NbrId :: !nbrs[n].used ==> nbrs[n] == NO_NBR)
    && (forall h: NhId :: !nhs[h].used ==> nhs[h] == NO_NH)
  }

  /** The neighbour lists of the valid interfaces are free of repeats, pairwise disjoint, and hold
      exactly the used slots; no two neighbours of one interface share an address. */
  ghost predicate NbrLists(rifs: RifTable, nbrs: NbrTable) {
    && (forall r: RifId :: NoDup(rifs[r].nbrs))
    && (forall r: RifId, n: NbrId :: n in rifs[r].nbrs <==> nbrs[n].used && nbrs[n].rif == r)
    && (forall n: NbrId :: nbrs[n].used ==> rifs[nbrs[n].rif].valid)
    && (forall n: NbrId, m: NbrId ::
          nbrs[n].used && nbrs[m].used && nbrs[n].rif == nbrs[m].rif && Addr(nbrs[n].ip) == Addr(nbrs[m].ip) ==> n == m)
  }

  ghost predicate NhLists(rifs: RifTable, nhs: NhTable) {
    && (forall r: RifId :: NoDup(rifs[r].nhs))
    && (forall r: RifId, h: NhId :: h in rifs[r].nhs <==> nhs[h].used && nhs[h].rif == r)
    && (forall h: NhId :: nhs[h].used ==> rifs[nhs[h].rif].valid)
    && (forall h: NhId, g: NhId ::
          nhs[h].used && nhs[g].used && nhs[h].rif == nhs[g].rif && Addr(nhs[h].ip) == Addr(nhs[g].ip) ==> h == g)
  }

  /** None of the neighbours on interface `r` can be taken for `ip`. */
  ghost predicate NbrsClear(nbrs: NbrTable, r: RifId, ip: IpUnion) {
    forall n: NbrId :: nbrs[n].used && nbrs[n].rif == r ==> !Mistaken(nbrs[n].ip, ip)
  }

  /** A removal by an IPv4 address, or by an IPv6 one that is taken for no IPv4 one on the interface. */
  ghost predicate Removable(nbrs: NbrTable, r: RifId, ip: IpUnion) {
    ip.v4 || NbrsClear(nbrs, r, ip)
  }

  /** The bridging entry behind a neighbour on a VLAN has no group. */
  predicate Groupless(kind: IntfKind, lib: GroupOracle) { kind.Vlan? && lib.fdb.FdbNoGroup? }

  ghost predicate NhsClear(nhs: NhTable, r: RifId, ip: IpUnion) {
    forall h: NhId :: nhs[h].used && nhs[h].rif == r ==> !Mistaken(nhs[h].ip, ip)
  }

  /** No IPv4 address on interface `r` is the first four bytes of `ip`, nor is `ip` those of an IPv6 address there. */
  ghost predicate Unmixed(nbrs: NbrTable, nhs: NhTable, r: RifId, ip: IpUnion) {
    && (forall n: NbrId :: nbrs[n].used && nbrs[n].rif == r ==> !Mixed(nbrs[n].ip, ip))
    && (forall h: NhId :: nhs[h].used && nhs[h].rif == r ==> !Mixed(nhs[h].ip, ip))
  }

  /** No two addresses on one interface can be taken for each other across the families. */
  ghost predicate Apart(nbrs: NbrTable, nhs: NhTable) {
    && (forall n: NbrId :: nbrs[n].used ==> Unmixed(nbrs, nhs, nbrs[n].rif, nbrs[n].ip))
    && (forall h: NhId :: nhs[h].used ==> Unmixed(nbrs, nhs, nhs[h].rif, nhs[h].ip))
  }

  /** What a next hop on interface `r` with address `ip` must cache. */
  ghost predicate Resolved(rifs: RifTable, nbrs: NbrTable, r: RifId, ip: Ip, id: u32) {
    if id < NBR_RESERVED_ID then IsNbr(nbrs, r, ip, id)
    else id == MissId(rifs[r].conf.missAct) && forall n: NbrId :: !IsNbr(nbrs, r, ip, n)
  }

  ghost predicate Coherent(rifs: RifTable, nbrs: NbrTable, nhs: NhTable) {
    forall h: NhId :: nhs[h].used ==> Resolved(rifs, nbrs, nhs[h].rif, Addr(nhs[h].ip), nhs[h].nbrId)
  }

  /** The neighbour a next hop caches points back at it. */
  ghost predicate BackPointers(nbrs: NbrTable, nhs: NhTable) {
    forall h: NhId :: nhs[h].used && nhs[h].nbrId < NBR_TABLE_SIZE ==> nbrs[nhs[h].nbrId].nextHop == h
  }

  /** The route list of a next hop holds, once each, exactly the routes that go through it. */
  ghost predicate Mirror(nhs: NhTable, routes: map<RouteKey, Route>) {
    && (forall h: NhId :: NoDup(nhs[h].routes))
    && (forall h: NhId, k: RouteKey :: k in nhs[h].routes <==> k in routes && routes[k].nhValid && routes[k].nhIdx == h)
    && (forall k :: k in routes && routes[k].nhValid ==> nhs[routes[k].nhIdx].used)
  }

  /** A route that follows its next hop caches what that caches, as every forwarding one does; any other caches the
      reserved id it was created with. */
  ghost predicate Fits(nhs: NhTable, route: Route) {
    && (route.action.Forward? || route.action.Trap? || route.action.Drop?)
    && (route.action.Forward? ==> route.follows)
    && if route.follows then route.nhValid && route.nbrIdx == nhs[route.nhIdx].nbrId
       else route.nbrIdx == NBR_TRAP_ID || route.nbrIdx == NBR_DROP_ID
  }

  ghost predicate RouteCache(nhs: NhTable, routes: map<RouteKey, Route>) {
    forall k :: k in routes ==> Fits(nhs, routes[k])
  }

  /** Each route has its entry in the switch, compiled from it, and there is no other route entry. */
  ghost predicate RouteFlows(routes: map<RouteKey, Route>, flows: map<Cookie, Flow>) {
    && (forall k :: k in routes <==> RouteCookie(k) in flows)
    && (forall k :: k in routes ==> flows[RouteCookie(k)] == Compile(k, routes[k]))
  }

  /** Each IPv4 neighbour has its own host entry, and there is no other host entry. */
  ghost predicate HostFlows(rifs: RifTable, nbrs: NbrTable, flows: map<Cookie, Flow>) {
    && (forall n: NbrId :: nbrs[n].used && nbrs[n].ip.v4 ==>
          var c := HostCookie(nbrs[n].ip.word, nbrs[n].rif);
          c in flows && flows[c] == HostFlow(rifs[nbrs[n].rif].conf.vr, nbrs[n].ip.word, n))
    && (forall c :: c in flows && c.HostCookie? ==>
          flows[c].group.Some? && IsNbr(nbrs, c.rif, V4(c.ip4), flows[c].group.value))
  }

  ghost predicate Groups(nbrs: NbrTable, groups: set<NbrId>) {
    forall n: NbrId :: n in groups <==> nbrs[n].used
  }

  function UsesVr(v: VrId): Rif -> bool { (rif: Rif) => rif.valid && rif.conf.vr == v }
  function UsesMtu(m: MtuId): Rif -> bool { (rif: Rif) => rif.valid && rif.conf.mtuIdx == m }

  ghost predicate VrRefs(vrs: VrTable, rifs: RifTable) {
    && (forall r: RifId :: rifs[r].valid ==> vrs[rifs[r].conf.vr].valid)
    && (forall v: VrId :: vrs[v].rifRefs == Count(rifs, UsesVr(v)))
  }

  ghost predicate MtuInterned(mtus: MtuTable, rifs: RifTable) {
    && (forall m: MtuId :: mtus[m].refs == Count(rifs, UsesMtu(m)))
    && (forall m: MtuId :: mtus[m].size == 0 <==> mtus[m].refs == 0)
    && (forall m: MtuId, l: MtuId :: mtus[m].size == mtus[l].size && mtus[m].size != 0 ==> m == l)
    && (forall r: RifId :: rifs[r].valid ==> mtus[rifs[r].conf.mtuIdx].size == rifs[r].mtu)
  }

  ghost predicate Inv(db: Db) {
    && Zeroed(db.rifs, db.nbrs, db.nhs)
    && NbrLists(db.rifs, db.nbrs)
    && NhLists(db.rifs, db.nhs)
    && Apart(db.nbrs, db.nhs)
    && Coherent(db.rifs, db.nbrs, db.nhs)
    && BackPointers(db.nbrs, db.nhs)
    && Mirror(db.nhs, db.routes)
    && RouteCache(db.nhs, db.routes)
    && RouteFlows(db.routes, db.flows)
    && HostFlows(db.rifs, db.nbrs, db.flows)
    && Groups(db.nbrs, db.groups)
    && VrRefs(db.vrs, db.rifs)
    && MtuInterned(db.mtus, db.rifs)
  }

  /** Next hops set from outside stay in the virtual router of their route. */
  ghost predicate SameVr(db: Db) {
    forall k :: k in db.routes && db.routes[k].nhValid ==> k.vr == db.rifs[db.nhs[db.routes[k].nhIdx].rif].conf.vr
  }

  lemma EmptyInv()
    ensures Inv(EMPTY_DB) && SameVr(EMPTY_DB)
  {
    forall v: VrId ensures EMPTY_DB.vrs[v].rifRefs == Count(EMPTY_DB.rifs, UsesVr(v)) {
      CountZero(EMPTY_DB.rifs, UsesVr(v));
    }
    forall m: MtuId ensures EMPTY_DB.mtus[m].refs == Count(EMPTY_DB.rifs, UsesMtu(m)) {
      CountZero(EMPTY_DB.rifs, UsesMtu(m));
    }
  }

  // ----- Walks find exactly what is there -----

  lemma {:induction false} WalkNbrsFinds(nbrs: NbrTable, list: seq<NbrId>, ip: IpUnion)
    requires forall n :: n in list ==> nbrs[n].used
    ensures WalkNbrs(nbrs, list, ip) == INVALID_ID <==> forall n :: n in list ==> !Matches(nbrs[n].ip, ip)
  {
    if list != [] {
      WalkNbrsFinds(nbrs, list[1..], ip);
      assert forall n :: n in list <==> n == list[0] || n in list[1..];
    }
  }

  lemma {:induction false} WalkNhsFinds(nhs: NhTable, list: seq<NhId>, ip: IpUnion)
    requires forall h :: h in list ==> nhs[h].used
    ensures WalkNhs(nhs, list, ip) == INVALID_ID <==> forall h :: h in list ==> !Matches(nhs[h].ip, ip)
  {
    if list != [] {
      WalkNhsFinds(nhs, list[1..], ip);
      assert forall h :: h in list <==> h == list[0] || h in list[1..];
    }
  }

  /** What the code's walk can return: a neighbour of the interface that matches, if there is one. */
  lemma FindNbrMatches(db: Db, r: RifId, ip: IpUnion)
    requires NbrLists(db.rifs, db.nbrs)
    ensures var n := FindNbr(db, r, ip);
            if n == INVALID_ID
            then forall m: NbrId :: db.nbrs[m].used && db.nbrs[m].rif == r ==> !Matches(db.nbrs[m].ip, ip)
            else n < NBR_TABLE_SIZE && db.nbrs[n].used && db.nbrs[n].rif == r && Matches(db.nbrs[n].ip, ip)
  {
    WalkNbrsFinds(db.nbrs, db.rifs[r].nbrs, ip);
  }

  lemma FindNhMatches(db: Db, r: RifId, ip: IpUnion)
    requires NhLists(db.rifs, db.nhs)
    ensures var h := FindNh(db, r, ip);
            if h == INVALID_ID
            then forall g: NhId :: db.nhs[g].used && db.nhs[g].rif == r ==> !Matches(db.nhs[g].ip, ip)
            else h < NH_TABLE_SIZE && db.nhs[h].used && db.nhs[h].rif == r && Matches(db.nhs[h].ip, ip)
  {
    WalkNhsFinds(db.nhs, db.rifs[r].nhs, ip);
  }

  /** The walk returns the one neighbour with the address, if there is one, as long as it can take none for it. */
  lemma FindNbrExact(db: Db, r: RifId, ip: IpUnion, n: u32)
    requires NbrLists(db.rifs, db.nbrs) && NbrsClear(db.nbrs, r, ip)
    ensures n != INVALID_ID ==> (FindNbr(db, r, ip) == n <==> IsNbr(db.nbrs, r, Addr(ip), n))
    ensures FindNbr(db, r, ip) == INVALID_ID <==> forall m: NbrId :: !IsNbr(db.nbrs, r, Addr(ip), m)
  {
    FindNbrMatches(db, r, ip);
    var f := FindNbr(db, r, ip);
    if f != INVALID_ID {
      assert !Mistaken(db.nbrs[f].ip, ip);
      assert IsNbr(db.nbrs, r, Addr(ip), f);
    }
  }

  lemma FindNhExact(db: Db, r: RifId, ip: IpUnion, h: u32)
    requires NhLists(db.rifs, db.nhs) && NhsClear(db.nhs, r, ip)
    ensures h != INVALID_ID ==> (FindNh(db, r, ip) == h <==> IsNh(db.nhs, r, Addr(ip), h))
    ensures FindNh(db, r, ip) == INVALID_ID <==> forall g: NhId :: !IsNh(db.nhs, r, Addr(ip), g)
  {
    FindNhMatches(db, r, ip);
    var f := FindNh(db, r, ip);
    if f != INVALID_ID {
      assert !Mistaken(db.nhs[f].ip, ip);
      assert IsNh(db.nhs, r, Addr(ip), f);
    }
  }

  /** The lookup answers for the address that was asked for. */
  ghost predicate NbrLookupExact(db: Db, r: RifId, ip: IpUnion) {
    var n := FindNbr(db, r, ip);
    if n == INVALID_ID then forall m: NbrId :: !IsNbr(db.nbrs, r, Addr(ip), m) else IsNbr(db.nbrs, r, Addr(ip), n)
  }

  ghost predicate NhLookupExact(db: Db, r: RifId, ip: IpUnion) {
    var h := FindNh(db, r, ip);
    if h == INVALID_ID then forall g: NhId :: !IsNh(db.nhs, r, Addr(ip), g) else IsNh(db.nhs, r, Addr(ip), h)
  }

  /** Between calls, a lookup is exact if and only if no neighbour of the other family on the interface matches. */
  lemma NbrLookupExactIff(db: Db, r: RifId, ip: IpUnion)
    requires NbrLists(db.rifs, db.nbrs) && Apart(db.nbrs, db.nhs)
    ensures NbrLookupExact(db, r, ip) <==> NbrsClear(db.nbrs, r, ip)
  {
    FindNbrMatches(db, r, ip);
    var n := FindNbr(db, r, ip);
    if NbrsClear(db.nbrs, r, ip) {
      FindNbrExact(db, r, ip, n);
    }
    if NbrLookupExact(db, r, ip) && n != INVALID_ID {
      forall m: NbrId | db.nbrs[m].used && db.nbrs[m].rif == r ensures !Mistaken(db.nbrs[m].ip, ip) {
        assert Unmixed(db.nbrs, db.nhs, r, db.nbrs[n].ip);
        assert !Mixed(db.nbrs[m].ip, db.nbrs[n].ip);
      }
    }
  }

  lemma NhLookupExactIff(db: Db, r: RifId, ip: IpUnion)
    requires NhLists(db.rifs, db.nhs) && Apart(db.nbrs, db.nhs)
    ensures NhLookupExact(db, r, ip) <==> NhsClear(db.nhs, r, ip)
  {
    FindNhMatches(db, r, ip);
    var h := FindNh(db, r, ip);
    if NhsClear(db.nhs, r, ip) {
      FindNhExact(db, r, ip, h);
    }
    if NhLookupExact(db, r, ip) && h != INVALID_ID {
      forall g: NhId | db.nhs[g].used && db.nhs[g].rif == r ensures !Mistaken(db.nhs[g].ip, ip) {
        assert Unmixed(db.nbrs, db.nhs, r, db.nhs[h].ip);
        assert !Mixed(db.nhs[g].ip, db.nhs[h].ip);
      }
    }
  }

  /** What is unmixed is looked up exactly. */
  lemma UnmixedIsClear(nbrs: NbrTable, nhs: NhTable, r: RifId, ip: IpUnion)
    requires Unmixed(nbrs, nhs, r, ip)
    ensures NbrsClear(nbrs, r, ip) && NhsClear(nhs, r, ip)
  {
  }

  /** `Resolved` is the from-scratch resolution. */
  lemma ResolvedIsResolve(db: Db, r: RifId, ip: IpUnion, id: u32)
    requires NbrLists(db.rifs, db.nbrs) && NbrsClear(db.nbrs, r, ip)
    ensures Resolved(db.rifs, db.nbrs, r, Addr(ip), id) <==> id == Resolve(db, r, ip)
  {
    FindNbrExact(db, r, ip, id);
    if Resolve(db, r, ip) < NBR_RESERVED_ID {
      FindNbrExact(db, r, ip, Resolve(db, r, ip));
    }
  }
}
