/** The database with all its tables refines the reference machine, status by status, and the switch follows it. */
module L3Refinement {
  import opened Words
  import opened L3Types
  import opened Hardware
  import opened SeqLib
  import opened L3Spec
  import opened L3Invariant
  import opened L3Neighbors
  import opened L3NextHops
  import opened L3Interfaces
  import opened L3Runs
  import opened L3Reachable
  import opened L3Theorems
  import opened L3Lifetimes
  import opened L3Reference
  import opened L3Database

  // ----- The switch -----

  lemma SwitchFollowsRoute(db: Db, key: RouteKey)
    requires Inv(db) && key in db.routes
    ensures var flow := db.flows[RouteCookie(key)];
            flow.vr == key.vr && flow.dest == key.dest && RefFate(ConfigOf(db), RouteOf(db.routes[key]), FateOf(flow))
  {
    RouteFate(db, key);
    var route := db.routes[key];
    assert Fits(db.nhs, route);
    if route.nhValid {
      SeatFateIsWanted(db, route.nhIdx, FateOf(db.flows[RouteCookie(key)]));
      SeatFateIsWanted(db, route.nhIdx, ToController);
    }
  }

  /** What the configuration says of a next hop's seat is what the tables say of its address. */
  lemma SeatFateIsWanted(db: Db, h: NhId, fate: Fate)
    requires NhLists(db.rifs, db.nhs) && db.nhs[h].used
    ensures h in HopsOf(db.nhs)
    ensures SeatFate(ConfigOf(db), HopsOf(db.nhs)[h], fate) <==> Wanted(db, db.nhs[h].rif, Addr(db.nhs[h].ip), fate)
  {
    SeatedAre(db.nbrs, db.nhs[h].rif, Addr(db.nhs[h].ip));
  }

  /** The neighbours in a seat are those with its address on its interface. */
  lemma SeatedAre(nbrs: NbrTable, r: RifId, a: Ip)
    ensures forall n :: n in NbrsOf(nbrs) && NbrsOf(nbrs)[n] == Seat(r, a) <==> IsNbr(nbrs, r, a, n)
    ensures Taken(NbrsOf(nbrs), Seat(r, a)) <==> exists n: NbrId :: IsNbr(nbrs, r, a, n)
  {
    if n: NbrId :| IsNbr(nbrs, r, a, n) {
      assert n in NbrsOf(nbrs) && NbrsOf(nbrs)[n] == Seat(r, a);
    }
    if n :| n in NbrsOf(nbrs) && NbrsOf(nbrs)[n] == Seat(r, a) {
      assert IsNbr(nbrs, r, a, n);
    }
  }

  /** The seat of a neighbour is taken exactly when the walk finds one, and by that one. */
  lemma SeatedIsNbr(db: Db, r: RifId, ip: IpUnion)
    requires NbrLists(db.rifs, db.nbrs) && NbrsClear(db.nbrs, r, ip)
    ensures var n := FindNbr(db, r, ip);
            && (n != INVALID_ID <==> Taken(NbrsOf(db.nbrs), Seat(r, Addr(ip))))
            && (n != INVALID_ID ==> n in NbrsOf(db.nbrs) && NbrsOf(db.nbrs)[n] == Seat(r, Addr(ip)))
            && forall m :: m in NbrsOf(db.nbrs) && NbrsOf(db.nbrs)[m] == Seat(r, Addr(ip)) ==> m == n
  {
    var n := FindNbr(db, r, ip);
    FindNbrExact(db, r, ip, n);
    SeatedAre(db.nbrs, r, Addr(ip));
  }

  lemma SeatedIsNh(db: Db, r: RifId, ip: IpUnion)
    requires NhLists(db.rifs, db.nhs) && NhsClear(db.nhs, r, ip)
    ensures FindNh(db, r, ip) != INVALID_ID <==> Taken(HopsOf(db.nhs), Seat(r, Addr(ip)))
    ensures forall h :: h in HopsOf(db.nhs) && HopsOf(db.nhs)[h] == Seat(r, Addr(ip))
                        <==> h != INVALID_ID && h == FindNh(db, r, ip)
  {
    var h, seats := FindNh(db, r, ip), HopsOf(db.nhs);
    FindNhExact(db, r, ip, h);
    forall g | g in seats && seats[g] == Seat(r, Addr(ip)) ensures IsNh(db.nhs, r, Addr(ip), g) {
    }
    if h != INVALID_ID {
      assert IsNh(db.nhs, r, Addr(ip), h) && seats[h] == Seat(r, Addr(ip));
    }
  }

  lemma SwitchFollows(db: Db)
    requires Inv(db)
    ensures Follows(ConfigOf(db), db.flows, db.groups)
  {
    var c := ConfigOf(db);
    forall k | k in c.routes
      ensures var flow := db.flows[RouteCookie(k)];
              flow.vr == k.vr && flow.dest == k.dest && RefFate(c, c.routes[k], FateOf(flow))
    {
      SwitchFollowsRoute(db, k);
    }
    SwitchFollowsHosts(db);
  }

  lemma SwitchFollowsHosts(db: Db)
    requires NbrLists(db.rifs, db.nbrs) && HostFlows(db.rifs, db.nbrs, db.flows) && Groups(db.nbrs, db.groups)
    ensures var c := ConfigOf(db);
            && (forall ip4: u32, r: RifId :: HostCookie(ip4, r) in db.flows <==> Taken(c.nbrs, Seat(r, V4(ip4))))
            && (forall ip4: u32, r: RifId :: HostCookie(ip4, r) in db.flows ==>
                  HostFollows(c, ip4, r, db.flows[HostCookie(ip4, r)]))
            && (forall n: NbrId :: n in db.groups <==> n in c.nbrs)
  {
    var c := ConfigOf(db);
    forall ip4: u32, r: RifId
      ensures HostCookie(ip4, r) in db.flows <==> Taken(c.nbrs, Seat(r, V4(ip4)))
      ensures HostCookie(ip4, r) in db.flows ==> HostFollows(c, ip4, r, db.flows[HostCookie(ip4, r)])
    {
      HostEntry(db, ip4, r);
      SeatedAre(db.nbrs, r, V4(ip4));
    }
  }

  // ----- How the tables show in the configuration -----

  lemma NbrsUpdated(nbrs: NbrTable, n: NbrId, nbr: Nbr)
    ensures NbrsOf(nbrs[n := nbr]) == if nbr.used then NbrsOf(nbrs)[n := Seat(nbr.rif, Addr(nbr.ip))]
                                      else NbrsOf(nbrs) - {n}
  {
  }

  lemma HopsUpdated(nhs: NhTable, h: NhId, nh: Nh)
    ensures HopsOf(nhs[h := nh]) == if nh.used then HopsOf(nhs)[h := Seat(nh.rif, Addr(nh.ip))] else HopsOf(nhs) - {h}
  {
  }

  lemma SameHops(nhs: NhTable, to: NhTable)
    requires forall h: NhId :: to[h].used == nhs[h].used && to[h].rif == nhs[h].rif && to[h].ip == nhs[h].ip
    ensures HopsOf(to) == HopsOf(nhs)
  {
  }

  lemma SameNbrs(nbrs: NbrTable, n: u32, h: u32)
    ensures NbrsOf(SetNextHopOf(nbrs, n, h)) == NbrsOf(nbrs)
  {
  }

  lemma SameRifs(rifs: RifTable, r: RifId, rif: Rif)
    requires rif.valid == rifs[r].valid && rif.conf == rifs[r].conf && rif.mtu == rifs[r].mtu
    ensures RifsOf(rifs[r := rif]) == RifsOf(rifs)
  {
  }

  lemma SameVrs(vrs: VrTable, v: VrId, add: bool)
    ensures VrsOf(CountRef(vrs, v, add)) == VrsOf(vrs)
  {
  }

  lemma FullVrs(vrs: VrTable)
    ensures FreeVr(vrs) >= VR_TABLE_SIZE <==> Full(VrsOf(vrs), 128)
    ensures FreeVr(vrs) < VR_TABLE_SIZE ==> First(VrsOf(vrs), 128, FreeVr(vrs))
  {
    var v := FreeVr(vrs);
    if v >= VR_TABLE_SIZE {
      assert forall i: nat :: i < VR_TABLE_SIZE ==> vrs[i].valid;
    } else {
      assert v !in VrsOf(vrs);
    }
  }

  lemma FullRifs(rifs: RifTable)
    ensures FreeRif(rifs) >= RIF_TABLE_SIZE <==> Full(RifsOf(rifs).Keys, 128)
    ensures FreeRif(rifs) < RIF_TABLE_SIZE ==> First(RifsOf(rifs).Keys, 128, FreeRif(rifs))
  {
    var r := FreeRif(rifs);
    if r >= RIF_TABLE_SIZE {
      assert forall i: nat :: i < RIF_TABLE_SIZE ==> rifs[i].valid;
    } else {
      assert r !in RifsOf(rifs).Keys;
    }
  }

  lemma FullNbrs(nbrs: NbrTable)
    ensures FreeNbr(nbrs) >= NBR_TABLE_SIZE <==> Full(NbrsOf(nbrs).Keys, 8192)
    ensures FreeNbr(nbrs) < NBR_TABLE_SIZE ==> First(NbrsOf(nbrs).Keys, 8192, FreeNbr(nbrs))
  {
    var n := FreeNbr(nbrs);
    if n >= NBR_TABLE_SIZE {
      assert forall i: nat :: i < NBR_TABLE_SIZE ==> nbrs[i].used;
    } else {
      assert n !in NbrsOf(nbrs).Keys;
    }
  }

  lemma FullHops(nhs: NhTable)
    ensures FreeNh(nhs) >= NH_TABLE_SIZE <==> Full(HopsOf(nhs).Keys, 1024)
    ensures FreeNh(nhs) < NH_TABLE_SIZE ==> First(HopsOf(nhs).Keys, 1024, FreeNh(nhs))
  {
    var h := FreeNh(nhs);
    if h >= NH_TABLE_SIZE {
      assert forall i: nat :: i < NH_TABLE_SIZE ==> nhs[i].used;
    } else {
      assert h !in HopsOf(nhs).Keys;
    }
  }

  // ----- Virtual routers -----

  lemma CreateVrRefines(db: Db, v4: Option<bool>, v6: Option<bool>)
    ensures var (to, st) := CreateVirtualRouter(db, v4, v6);
            RefCreateVr(ConfigOf(db), v4, v6, ConfigOf(to), st)
  {
    var v := FreeVr(db.vrs);
    FullVrs(db.vrs);
    if v < VR_TABLE_SIZE {
      assert VrsOf(db.vrs[v := Vr(true, 0)]) == VrsOf(db.vrs) + {v};
    }
  }

  lemma RemoveVrRefines(db: Db, v: u32)
    requires Inv(db)
    ensures var (to, st) := RemoveVirtualRouter(db, v);
            RefRemoveVr(ConfigOf(db), v, ConfigOf(to), st)
  {
    RemoveVirtualRouterKeeps(db, v);
    NoRifIn(db.rifs, v);
    if v < VR_TABLE_SIZE {
      assert VrsOf(db.vrs[v := NO_VR]) == VrsOf(db.vrs) - {v};
    }
  }

  lemma NoRifIn(rifs: RifTable, v: nat)
    ensures (forall r :: r in RifsOf(rifs) ==> RifsOf(rifs)[r].vr != v)
            <==> forall r: RifId :: rifs[r].valid ==> rifs[r].conf.vr != v
  {
    if forall r :: r in RifsOf(rifs) ==> RifsOf(rifs)[r].vr != v {
      forall r: RifId | rifs[r].valid ensures rifs[r].conf.vr != v {
        assert r in RifsOf(rifs) && RifsOf(rifs)[r].vr == rifs[r].conf.vr;
      }
    }
  }

  // ----- Neighbours -----

  /** Pushing a neighbour through the caches touches routes and nothing else that the configuration sees. */
  lemma FollowsConfig(db: Db, to: Db)
    requires RoutesFollow(db, to) && forall q: RifId :: to.rifs[q] == db.rifs[q].(nbrs := to.rifs[q].nbrs)
    requires to.vrs == db.vrs
    ensures ConfigOf(to) == ConfigOf(db).(nbrs := NbrsOf(to.nbrs), routes := RoutesOf(to.routes))
  {
    assert RifsOf(to.rifs) == RifsOf(db.rifs);
    SameHops(db.nhs, to.nhs);
  }

  /** Pointing the next hop in a seat elsewhere makes exactly the routes through that seat follow it. */
  lemma PointTouches(db: Db, r: RifId, ip: IpUnion, id: u32)
    requires NhLists(db.rifs, db.nhs) && NhsClear(db.nhs, r, ip) && Mirror(db.nhs, db.routes)
    ensures var h := FindNh(db, r, ip);
            RoutesOf(if h == INVALID_ID then db.routes else PointNextHop(db, h, id).routes)
            == Touched(RoutesOf(db.routes), HopsOf(db.nhs), {Seat(r, Addr(ip))})
  {
    var h := FindNh(db, r, ip);
    SeatedIsNh(db, r, ip);
    var list := if h == INVALID_ID then [] else db.nhs[h].routes;
    assert RepointRoutes(db.routes, [], id) == db.routes;
    OnSeatIsListed(db.nhs, db.routes, h, Seat(r, Addr(ip)));
    RepointTouches(db.nhs, db.routes, list, id, Seat(r, Addr(ip)));
  }

  /** The routes through the hop on a seat are those on its list; without such a hop there are none. */
  lemma OnSeatIsListed(nhs: NhTable, routes: map<RouteKey, Route>, h: u32, seat: Seat)
    requires Mirror(nhs, routes)
    requires forall g :: g in HopsOf(nhs) && HopsOf(nhs)[g] == seat <==> h != INVALID_ID && g == h
    ensures h != INVALID_ID ==> h < NH_TABLE_SIZE
    ensures forall k :: k in routes ==>
              (k in (if h == INVALID_ID then [] else nhs[h].routes)
               <==> routes[k].nhValid && var g := routes[k].nhIdx; Seat(nhs[g].rif, Addr(nhs[g].ip)) == seat)
  {
    if h != INVALID_ID {
      assert h in HopsOf(nhs);
    }
    forall k | k in routes && routes[k].nhValid
      ensures var g := routes[k].nhIdx; g in HopsOf(nhs) && HopsOf(nhs)[g] == Seat(nhs[g].rif, Addr(nhs[g].ip))
    {
    }
  }

  lemma RepointTouches(nhs: NhTable, routes: map<RouteKey, Route>, list: seq<RouteKey>, id: u32, seat: Seat)
    requires forall k :: k in routes && routes[k].nhValid ==> nhs[routes[k].nhIdx].used
    requires forall k :: k in routes ==>
               (k in list <==> routes[k].nhValid && var h := routes[k].nhIdx; Seat(nhs[h].rif, Addr(nhs[h].ip)) == seat)
    ensures RoutesOf(RepointRoutes(routes, list, id)) == Touched(RoutesOf(routes), HopsOf(nhs), {seat})
  {
  }

  lemma AddNeighborConfig(db: Db, r: RifId, n: NbrId, ip: IpUnion, made: bool, stale: u32)
    requires NhLists(db.rifs, db.nhs) && NhsClear(db.nhs, r, ip) && Mirror(db.nhs, db.routes)
    ensures var seat := Seat(r, Addr(ip));
            ConfigOf(AddNeighbor(db, r, n, ip, made, stale))
            == ConfigOf(db).(nbrs := NbrsOf(db.nbrs)[n := seat],
                             routes := Touched(RoutesOf(db.routes), HopsOf(db.nhs), {seat}))
  {
    AddNeighborShape(db, r, n, ip, made, stale);
    AddNeighborFollows(db, r, n, ip, made, stale);
    FollowsConfig(db, AddNeighbor(db, r, n, ip, made, stale));
    NbrsUpdated(db.nbrs, n, AddNeighbor(db, r, n, ip, made, stale).nbrs[n]);
    PointTouches(db, r, ip, n);
  }

  lemma DropNeighborConfig(db: Db, r: RifId, n: NbrId)
    requires NhLists(db.rifs, db.nhs) && NhsClear(db.nhs, r, db.nbrs[n].ip) && Mirror(db.nhs, db.routes)
    ensures var seat := Seat(r, Addr(db.nbrs[n].ip));
            ConfigOf(DropNeighbor(db, r, n))
            == ConfigOf(db).(nbrs := NbrsOf(db.nbrs) - {n},
                             routes := Touched(RoutesOf(db.routes), HopsOf(db.nhs), {seat}))
  {
    var ip := db.nbrs[n].ip;
    DropNeighborShape(db, r, n);
    DropNeighborFollows(db, r, n);
    FollowsConfig(db, DropNeighbor(db, r, n));
    NbrsUpdated(db.nbrs, n, NO_NBR);
    PointTouches(DelHost(db, r, ip), r, ip, MissId(db.rifs[r].conf.missAct));
  }

  lemma CreateNbrRefines(db: Db, r: u32, ip: IpUnion, action: Option<PacketAction>, lib: GroupOracle, stale: u32)
    requires NbrLists(db.rifs, db.nbrs) && NhLists(db.rifs, db.nhs) && Mirror(db.nhs, db.routes)
    requires RifValid(db, r) ==> NbrsClear(db.nbrs, r, ip) && NhsClear(db.nhs, r, ip)
    ensures var (to, st) := CreateNeighbor(db, r, ip, action, lib, stale);
            RefCreateNbr(ConfigOf(db), r, Addr(ip), action, lib, ConfigOf(to), st)
  {
    var n := FreeNbr(db.nbrs);
    FullNbrs(db.nbrs);
    if RifValid(db, r) {
      SeatedIsNbr(db, r, ip);
      if n < NBR_TABLE_SIZE {
        KeptIsClear(db.nhs, r, ip);
        AddNeighborConfig(db, r, n, Kept(ip), MakeGroup(db.rifs[r].conf.kind, lib).GroupMade?, stale);
      }
    }
  }

  lemma KeptIsClear(nhs: NhTable, r: RifId, ip: IpUnion)
    requires NhsClear(nhs, r, ip)
    ensures NhsClear(nhs, r, Kept(ip)) && Addr(Kept(ip)) == Addr(ip)
  {
    assert forall h: NhId :: Mistaken(nhs[h].ip, Kept(ip)) <==> Mistaken(nhs[h].ip, ip);
  }

  lemma RemoveNbrRefines(db: Db, r: u32, ip: IpUnion)
    requires Inv(db)
    requires RifValid(db, r) ==> NbrsClear(db.nbrs, r, ip)
    ensures var (to, st) := RemoveNeighbor(db, r, ip);
            RefRemoveNbr(ConfigOf(db), r, Addr(ip), ConfigOf(to), st)
  {
    if RifValid(db, r) {
      SeatedIsNbr(db, r, ip);
      var n := FindNbr(db, r, ip);
      if n != INVALID_ID {
        FindNbrExact(db, r, ip, n);
        DropAskedIs(db, r, n, ip);
        DropsSeat(db, r, Addr(ip), n);
      }
    }
  }

  lemma DropsSeat(db: Db, r: RifId, ip: Ip, n: NbrId)
    requires NbrLists(db.rifs, db.nbrs) && NhLists(db.rifs, db.nhs) && Apart(db.nbrs, db.nhs)
             && Mirror(db.nhs, db.routes)
    requires IsNbr(db.nbrs, r, ip, n)
    ensures var to := ConfigOf(DropNeighbor(db, r, n));
            var c := ConfigOf(db);
            to == c.(nbrs := map m | m in c.nbrs && c.nbrs[m] != Seat(r, ip) :: c.nbrs[m],
                     routes := Touched(c.routes, c.hops, {Seat(r, ip)}))
  {
    UnmixedIsClear(db.nbrs, db.nhs, r, db.nbrs[n].ip);
    DropNeighborConfig(db, r, n);
    SeatIsOne(db.rifs, db.nbrs, r, ip, n);
    OneSeatLess(NbrsOf(db.nbrs), n, Seat(r, ip));
  }

  lemma SeatIsOne(rifs: RifTable, nbrs: NbrTable, r: RifId, ip: Ip, n: NbrId)
    requires NbrLists(rifs, nbrs) && IsNbr(nbrs, r, ip, n)
    ensures forall m :: m in NbrsOf(nbrs) && NbrsOf(nbrs)[m] == Seat(r, ip) <==> m == n
  {
  }

  lemma OneSeatLess(seats: map<nat, Seat>, n: nat, seat: Seat)
    requires n in seats && forall m :: m in seats && seats[m] == seat <==> m == n
    ensures seats - {n} == map m | m in seats && seats[m] != seat :: seats[m]
  {
  }

  // ----- Removing every neighbour -----

  /** The neighbours of the interfaces from `lo` up to `hi` are gone, and the routes through their seats touched. */
  ghost function Swept(c: Config, lo: nat, hi: nat): Config {
    c.(nbrs := map n | n in c.nbrs && !(lo <= c.nbrs[n].rif < hi) :: c.nbrs[n],
       routes := Touched(c.routes, c.hops, SeatsIn(c, lo, hi)))
  }

  ghost function SeatsIn(c: Config, lo: nat, hi: nat): set<Seat> {
    set n | n in c.nbrs && lo <= c.nbrs[n].rif < hi :: c.nbrs[n]
  }

  lemma TouchedTwice(routes: map<RouteKey, RouteCfg>, hops: map<nat, Seat>, a: set<Seat>, b: set<Seat>)
    ensures Touched(Touched(routes, hops, a), hops, b) == Touched(routes, hops, a + b)
  {
  }

  /** Dropping one neighbour of a swept interface before the sweep makes no difference. */
  lemma SweptAfterOne(c: Config, n: nat, lo: nat, hi: nat)
    requires n in c.nbrs && lo <= c.nbrs[n].rif < hi
    ensures Swept(c.(nbrs := c.nbrs - {n}, routes := Touched(c.routes, c.hops, {c.nbrs[n]})), lo, hi) ==
            Swept(c, lo, hi)
  {
    var next := c.(nbrs := c.nbrs - {n}, routes := Touched(c.routes, c.hops, {c.nbrs[n]}));
    forall seat | seat in SeatsIn(c, lo, hi) ensures seat in {c.nbrs[n]} + SeatsIn(next, lo, hi) {
      var m :| m in c.nbrs && lo <= c.nbrs[m].rif < hi && c.nbrs[m] == seat;
      assert m != n ==> m in next.nbrs && next.nbrs[m] == seat;
    }
    assert SeatsIn(c, lo, hi) == {c.nbrs[n]} + SeatsIn(next, lo, hi);
    TouchedTwice(c.routes, c.hops, {c.nbrs[n]}, SeatsIn(next, lo, hi));
  }

  lemma SweptTwice(c: Config, lo: nat, mid: nat, hi: nat)
    requires lo <= mid <= hi
    ensures Swept(Swept(c, lo, mid), mid, hi) == Swept(c, lo, hi)
  {
    var next := Swept(c, lo, mid);
    forall seat | seat in SeatsIn(c, lo, hi) ensures seat in SeatsIn(c, lo, mid) + SeatsIn(next, mid, hi) {
      var m :| m in c.nbrs && lo <= c.nbrs[m].rif < hi && c.nbrs[m] == seat;
      assert seat.rif >= mid ==> m in next.nbrs && next.nbrs[m] == seat;
    }
    assert SeatsIn(c, lo, hi) == SeatsIn(c, lo, mid) + SeatsIn(next, mid, hi);
    TouchedTwice(c.routes, c.hops, SeatsIn(c, lo, mid), SeatsIn(next, mid, hi));
  }

  lemma SweptNothing(c: Config, lo: nat, hi: nat)
    requires forall n :: n in c.nbrs ==> !(lo <= c.nbrs[n].rif < hi)
    ensures Swept(c, lo, hi) == c
  {
    assert SeatsIn(c, lo, hi) == {};
    assert Touched(c.routes, c.hops, {}) == c.routes;
  }

  lemma {:induction false} DrainSweeps(db: Db, r: RifId)
    requires Inv(db)
    ensures Inv(DrainRif(db, r)) && ConfigOf(DrainRif(db, r)) == Swept(ConfigOf(db), r, r + 1)
    decreases |db.rifs[r].nbrs|
  {
    var list := db.rifs[r].nbrs;
    if list == [] {
      NoSeatOn(db, r);
      SweptNothing(ConfigOf(db), r, r + 1);
    } else {
      var n := list[0];
      var next := DropHead(db, r);
      assert n in list;
      DropHeadConfig(db, r, n);
      DrainSweeps(next, r);
      assert NbrsOf(db.nbrs)[n].rif == r;
      SweptAfterOne(ConfigOf(db), n, r, r + 1);
    }
  }

  lemma NoSeatOn(db: Db, r: RifId)
    requires NbrLists(db.rifs, db.nbrs) && db.rifs[r].nbrs == []
    ensures forall n :: n in NbrsOf(db.nbrs) ==> !(r <= NbrsOf(db.nbrs)[n].rif < r + 1)
  {
    forall n: NbrId | db.nbrs[n].used ensures db.nbrs[n].rif != r {
      assert n !in db.rifs[r].nbrs;
    }
  }

  lemma DropHeadConfig(db: Db, r: RifId, n: NbrId)
    requires NhLists(db.rifs, db.nhs) && Apart(db.nbrs, db.nhs) && Mirror(db.nhs, db.routes)
    requires db.nbrs[n].used && db.nbrs[n].rif == r
    ensures var c := ConfigOf(db);
            n in c.nbrs && ConfigOf(DropNeighbor(db, r, n))
                           == c.(nbrs := c.nbrs - {n}, routes := Touched(c.routes, c.hops, {c.nbrs[n]}))
  {
    UnmixedIsClear(db.nbrs, db.nhs, r, db.nbrs[n].ip);
    DropNeighborConfig(db, r, n);
  }

  lemma {:induction false} RemoveAllSweeps(db: Db, r: nat)
    requires Inv(db) && r <= RIF_TABLE_SIZE
    ensures ConfigOf(RemoveAllFrom(db, r)) == Swept(ConfigOf(db), r, RIF_TABLE_SIZE)
    decreases RIF_TABLE_SIZE - r
  {
    if r == RIF_TABLE_SIZE {
      SweptNothing(ConfigOf(db), r, r);
    } else {
      DrainSweeps(db, r);
      RemoveAllSweeps(DrainRif(db, r), r + 1);
      SweptTwice(ConfigOf(db), r, r + 1, RIF_TABLE_SIZE);
    }
  }

  lemma RemoveAllRefines(db: Db)
    requires Inv(db)
    ensures ConfigOf(RemoveAllNeighbors(db).0) == RefRemoveAllNbrs(ConfigOf(db))
  {
    RemoveAllSweeps(db, 0);
    var c := ConfigOf(db);
    assert SeatsIn(c, 0, RIF_TABLE_SIZE) == c.nbrs.Values;
    assert Swept(c, 0, RIF_TABLE_SIZE).nbrs == map[];
  }

  // ----- Next hops -----

  lemma AddNextHopConfig(db: Db, r: RifId, h: NhId, ip: IpUnion)
    ensures ConfigOf(AddNextHop(db, r, h, ip)) == ConfigOf(db).(hops := HopsOf(db.nhs)[h := Seat(r, Addr(ip))])
  {
    SameRifs(db.rifs, r, db.rifs[r].(nhs := [h] + db.rifs[r].nhs));
    SameNbrs(db.nbrs, Resolve(db, r, ip), h);
    HopsUpdated(db.nhs, h, AddNextHop(db, r, h, ip).nhs[h]);
  }

  lemma DropNextHopConfig(db: Db, h: NhId)
    ensures ConfigOf(DropNextHop(db, h)) == ConfigOf(db).(hops := HopsOf(db.nhs) - {h})
  {
    var r := db.nhs[h].rif;
    SameRifs(db.rifs, r, db.rifs[r].(nhs := Without(db.rifs[r].nhs, h)));
    SameNbrs(db.nbrs, db.nhs[h].nbrId, INVALID_ID);
    HopsUpdated(db.nhs, h, NO_NH);
  }

  lemma CreateNhRefines(db: Db, isIp: bool, r: u32, ip: IpUnion)
    requires NhLists(db.rifs, db.nhs)
    requires RifValid(db, r) ==> NhsClear(db.nhs, r, ip)
    ensures var (to, st) := CreateNextHop(db, isIp, r, ip);
            RefCreateNh(ConfigOf(db), isIp, r, Addr(ip), ConfigOf(to), st)
  {
    var h := FreeNh(db.nhs);
    FullHops(db.nhs);
    if RifValid(db, r) {
      SeatedIsNh(db, r, ip);
      if h < NH_TABLE_SIZE {
        AddNextHopConfig(db, r, h, ip);
      }
    }
  }

  lemma RemoveNhRefines(db: Db, h: NhId)
    requires NhLists(db.rifs, db.nhs) && Mirror(db.nhs, db.routes)
    ensures var (to, st) := RemoveNextHop(db, h);
            RefRemoveNh(ConfigOf(db), h, ConfigOf(to), st)
  {
    NoRouteThrough(db, h);
    if db.nhs[h].used {
      UsedNextHopIsListed(db, h);
      DropNextHopConfig(db, h);
    }
  }

  lemma NoRouteThrough(db: Db, h: NhId)
    requires Mirror(db.nhs, db.routes)
    ensures db.nhs[h].routes == [] <==> forall k :: k in RoutesOf(db.routes) ==> RoutesOf(db.routes)[k].hop != Some(h)
  {
    if db.nhs[h].routes != [] {
      var k := db.nhs[h].routes[0];
      assert k in db.nhs[h].routes && RoutesOf(db.routes)[k].hop == Some(h);
    }
  }

  // ----- Routes -----

  /** Routes, their lists and their entries changed, and nothing else. */
  lemma RoutesConfig(db: Db, to: Db)
    requires to.vrs == db.vrs && to.rifs == db.rifs && to.nbrs == db.nbrs
    requires forall h: NhId ::
               to.nhs[h].used == db.nhs[h].used && to.nhs[h].rif == db.nhs[h].rif && to.nhs[h].ip == db.nhs[h].ip
    ensures ConfigOf(to) == ConfigOf(db).(routes := RoutesOf(to.routes))
  {
    SameHops(db.nhs, to.nhs);
  }

  lemma CreateRouteRefines(db: Db, key: RouteKey, priority: Option<u32>, action: Option<PacketAction>,
        target: Option<RouteTarget>)
    ensures var (to, st) := CreateRoute(db, key, priority, action, target);
            RefCreateRoute(ConfigOf(db), key, priority, action, target, ConfigOf(to), st)
  {
    var act := if action.Some? then action.value else Forward;
    if act.Forward? || act.Trap? || act.Drop? {
      NewRouteRefines(db, key, act, target);
    }
    SameSize(RoutesOf(db.routes), db.routes);
    AddRouteConfig(db, key, NewRoute(db, key, act, target).0);
  }

  lemma AddRouteConfig(db: Db, key: RouteKey, route: Route)
    ensures ConfigOf(AddRoute(db, key, route)) == ConfigOf(db).(routes := RoutesOf(db.routes)[key := RouteOf(route)])
  {
    RoutesConfig(db, AddRoute(db, key, route));
    assert RoutesOf(db.routes[key := route]) == RoutesOf(db.routes)[key := RouteOf(route)];
  }

  lemma DropRouteConfig(db: Db, key: RouteKey)
    requires key in db.routes
    ensures ConfigOf(DropRoute(db, key)) == ConfigOf(db).(routes := RoutesOf(db.routes) - {key})
  {
    RoutesConfig(db, DropRoute(db, key));
    assert RoutesOf(db.routes - {key}) == RoutesOf(db.routes) - {key};
  }

  lemma RemoveRouteRefines(db: Db, key: RouteKey)
    ensures var (to, st) := RemoveRoute(db, key);
            RefRemoveRoute(ConfigOf(db), key, ConfigOf(to), st)
  {
    if key in db.routes {
      DropRouteConfig(db, key);
    }
  }

  lemma ChangeActionConfig(db: Db, key: RouteKey, action: PacketAction)
    requires key in db.routes && (action.Forward? || action.Trap? || action.Drop?)
    ensures var was := RouteOf(db.routes[key]);
            ConfigOf(ChangeAction(db, key, action)) == ConfigOf(db).(routes :=
              if action.Forward? && was.hop.None? then RoutesOf(db.routes) - {key}
              else var cached := if was.hop.Some? then FollowsHop else was.cached;
                   RoutesOf(db.routes)[key := RouteCfg(action, was.hop, cached)])
  {
    var to, was := ChangeAction(db, key, action), RouteOf(db.routes[key]);
    if action.Forward? && !db.routes[key].nhValid {
      DropRouteConfig(db, key);
    } else {
      RoutesConfig(db, to);
      assert RoutesOf(to.routes)
          == RoutesOf(db.routes)[key := RouteCfg(action, was.hop, if was.hop.Some? then FollowsHop else was.cached)];
    }
  }

  lemma SetActionRefines(db: Db, key: RouteKey, action: PacketAction)
    ensures var (to, st) := SetRouteAction(db, key, action);
            RefSetAction(ConfigOf(db), key, action, ConfigOf(to), st)
  {
    if key in db.routes && (action.Forward? || action.Trap? || action.Drop?) {
      ChangeActionConfig(db, key, action);
      StoredActionConfig(db, key, action);
    }
  }

  lemma StoredActionConfig(db: Db, key: RouteKey, action: PacketAction)
    requires key in db.routes
    ensures var was := RouteOf(db.routes[key]);
            ConfigOf(db.(routes := db.routes[key := db.routes[key].(action := action)]))
            == ConfigOf(db).(routes := RoutesOf(db.routes)[key := was.(action := action)])
  {
    assert RoutesOf(db.routes[key := db.routes[key].(action := action)])
           == RoutesOf(db.routes)[key := RouteOf(db.routes[key]).(action := action)];
  }

  lemma SetNextHopRefines(db: Db, key: RouteKey, h: NhId)
    ensures var (to, st) := SetRouteNextHop(db, key, h);
            RefSetNextHop(ConfigOf(db), key, h, ConfigOf(to), st)
  {
    if key in db.routes {
      var to, was := ChangeNextHop(db, key, h), RouteOf(db.routes[key]);
      RoutesConfig(db, to);
      assert RoutesOf(to.routes) == RoutesOf(db.routes)[key :=
        RouteCfg(was.action, Some(h), if was.hop.Some? && h in HopsOf(db.nhs) then FollowsHop else was.cached)];
    }
  }

  lemma NewRouteRefines(db: Db, key: RouteKey, action: PacketAction, target: Option<RouteTarget>)
    requires action.Forward? || action.Trap? || action.Drop?
    ensures var (route, bad) := NewRoute(db, key, action, target);
            var (cfg, refBad) := RefNewRoute(ConfigOf(db), key, action, target);
            && bad == refBad
            && (bad == Success ==>
                  cfg == RouteOf(route) && (Refused(route) <==> cfg.action == Forward && cfg.hop == None))
  {
  }

  // ----- Interfaces -----

  /** The sizes in the first `k` profiles, zero aside. */
  ghost function Sizes(mtus: MtuTable, k: nat): (s: set<u32>)
    requires k <= MTU_TABLE_SIZE
  {
    if k == 0 then {} else Sizes(mtus, k - 1) + if mtus[k - 1].size == 0 then {} else {mtus[k - 1].size}
  }

  lemma {:induction false} SizesIn(mtus: MtuTable, k: nat, size: u32)
    requires k <= MTU_TABLE_SIZE
    ensures size in Sizes(mtus, k) <==> size != 0 && exists m: nat :: m < k && mtus[m].size == size
  {
    if k > 0 {
      SizesIn(mtus, k - 1, size);
      if size != 0 && mtus[k - 1].size != size && exists m: nat :: m < k && mtus[m].size == size {
        var m: nat :| m < k && mtus[m].size == size;
        assert m < k - 1;
      }
    }
  }

  lemma {:induction false} SizesCount(mtus: MtuTable, k: nat)
    requires k <= MTU_TABLE_SIZE
    requires forall m: MtuId, l: MtuId :: mtus[m].size == mtus[l].size && mtus[m].size != 0 ==> m == l
    ensures |Sizes(mtus, k)| <= k
    ensures |Sizes(mtus, k)| == k <==> forall m: nat :: m < k ==> mtus[m].size != 0
  {
    if k > 0 {
      SizesCount(mtus, k - 1);
      SizesIn(mtus, k - 1, mtus[k - 1].size);
      assert mtus[k - 1].size !in Sizes(mtus, k - 1);
    }
  }

  lemma MtusAreSizes(db: Db)
    requires MtuInterned(db.mtus, db.rifs)
    ensures Mtus(RifsOf(db.rifs)) == Sizes(db.mtus, MTU_TABLE_SIZE)
  {
    var rifs := RifsOf(db.rifs);
    forall r: RifId | db.rifs[r].valid ensures db.mtus[db.rifs[r].conf.mtuIdx].size != 0 {
      CountZero(db.rifs, UsesMtu(db.rifs[r].conf.mtuIdx));
      assert UsesMtu(db.rifs[r].conf.mtuIdx)(db.rifs[r]);
    }
    forall size | size in Mtus(rifs) ensures size in Sizes(db.mtus, MTU_TABLE_SIZE) {
      var r :| r in rifs && rifs[r].mtu == size;
      SizesIn(db.mtus, MTU_TABLE_SIZE, size);
    }
    forall size | size in Sizes(db.mtus, MTU_TABLE_SIZE) ensures size in Mtus(rifs) {
      SizesIn(db.mtus, MTU_TABLE_SIZE, size);
      var m: nat :| m < MTU_TABLE_SIZE && db.mtus[m].size == size;
      CountZero(db.rifs, UsesMtu(m));
      var r: RifId :| UsesMtu(m)(db.rifs[r]);
      assert rifs[r].mtu == size;
    }
  }

  /** A profile is found exactly when the size is in use or fewer than eight are. */
  lemma MtuRoom(db: Db, size: u32)
    requires MtuInterned(db.mtus, db.rifs)
    ensures MtuSlot(db.mtus, size) >= MTU_TABLE_SIZE
            <==> size !in Mtus(RifsOf(db.rifs)) && |Mtus(RifsOf(db.rifs))| >= 8
  {
    MtusAreSizes(db);
    SizesCount(db.mtus, MTU_TABLE_SIZE);
    MtuSlotFinds(db.mtus, size);
    SizesIn(db.mtus, MTU_TABLE_SIZE, size);
  }

  lemma SharedIsRef(rifs: RifTable, r: RifId, kind: IntfKind, portVlan: u32, vr: Option<u32>)
    ensures Shared(rifs, r, kind, portVlan, vr) <==> RefShared(RifsOf(rifs), Some(r), kind, portVlan, vr)
  {
    if i: RifId :| SharesWith(rifs, i, r, kind, portVlan, vr) {
      assert i in RifsOf(rifs);
    }
    if i :| i in RifsOf(rifs) && i != r && RifsOf(rifs)[i].kind == kind && RifsOf(rifs)[i].portVlan == portVlan
            && (vr.Some? ==> RifsOf(rifs)[i].vr == vr.value) {
      assert SharesWith(rifs, i, r, kind, portVlan, vr);
    }
  }

  /** An interface that is not there cannot be left out. */
  lemma SharedOutside(rifs: map<nat, RifCfg>, r: nat, kind: IntfKind, portVlan: u32, vr: Option<u32>)
    requires r !in rifs
    ensures RefShared(rifs, Some(r), kind, portVlan, vr) <==> RefShared(rifs, None, kind, portVlan, vr)
  {
  }

  /** The two lists of calls are the same, and the same calls may report that the entry exists. */
  ghost predicate SameCalls(calls: seq<(RifCall, bool)>, plain: seq<RifCall>) {
    && |calls| == |plain|
    && forall i :: 0 <= i < |calls| ==>
         calls[i].0 == plain[i] && (calls[i].1 <==> plain[i] in {AddVrId, AddControl, AddFdb})
  }

  lemma {:induction false} FirstFailureAnswers(calls: seq<(RifCall, bool)>, plain: seq<RifCall>, fpa: RifOracle)
    requires SameCalls(calls, plain)
    ensures Answers(plain, fpa, FirstFailure(calls, fpa))
  {
    if calls != [] {
      var rest := plain[1..];
      FirstFailureAnswers(calls[1..], rest, fpa);
      assert forall j :: 0 <= j < |rest| ==> rest[j] == plain[j + 1];
      if !Goes(plain[0], fpa(plain[0])) {
        assert FirstToFail(plain, fpa, 0);
      } else if FirstFailure(calls[1..], fpa) != Success {
        var i :| FirstToFail(rest, fpa, i) && Returned(fpa(rest[i]), FirstFailure(calls[1..], fpa));
        assert FirstToFail(plain, fpa, i + 1);
      } else {
        assert forall j :: 0 <= j < |plain| ==> j == 0 || plain[j] == rest[j - 1];
      }
    }
  }

  lemma SameCallsConcat(a: seq<(RifCall, bool)>, b: seq<(RifCall, bool)>, p: seq<RifCall>, q: seq<RifCall>)
    requires SameCalls(a, p) && SameCalls(b, q)
    ensures SameCalls(a + b, p + q)
  {
  }

  lemma CreateCallsRefine(db: Db, r: RifId, a: RifAttrs)
    requires db.rifs[r] == NO_RIF
    ensures SameCalls(CreateCalls(db, r, a, WantedRif(a).portVlan), RefCreateCalls(ConfigOf(db), a))
  {
    var portVlan := WantedRif(a).portVlan;
    SharedIsRef(db.rifs, r, Port, portVlan, Some(a.vr));
    SharedIsRef(db.rifs, r, Port, portVlan, None);
    SharedOutside(RifsOf(db.rifs), r, Port, portVlan, Some(a.vr));
    SharedOutside(RifsOf(db.rifs), r, Port, portVlan, None);
    if !a.kind.Loopback? {
      SameCreateCalls(a.v4, a.v6, RefShared(RifsOf(db.rifs), None, Port, portVlan, Some(a.vr)),
                      RefShared(RifsOf(db.rifs), None, Port, portVlan, None));
    }
  }

  lemma SameCreateCalls(v4: bool, v6: bool, inVr: bool, shared: bool)
    ensures SameCalls(
              TermCalls(v4, v6) + (if !inVr then VR_CALLS else [])
              + (if !shared then CONTROL_CALLS + FDB_CALLS else []),
              (if v4 then [InitTermV4, AddTermV4] else []) + (if v6 then [InitTermV6, AddTermV6] else [])
              + (if inVr then [] else [InitVrId, AddVrId])
              + (if shared then [] else [InitControl, AddControl, InitFdb, AddFdb]))
  {
    var t, p := TermCalls(v4, v6),
        (if v4 then [InitTermV4, AddTermV4] else []) + (if v6 then [InitTermV6, AddTermV6] else []);
    var u, q := if !inVr then VR_CALLS else [], if inVr then [] else [InitVrId, AddVrId];
    SameCallsConcat(t, u, p, q);
    SameCallsConcat(t + u, if !shared then CONTROL_CALLS + FDB_CALLS else [],
                    p + q, if shared then [] else [InitControl, AddControl, InitFdb, AddFdb]);
  }

  lemma RemoveCallsRefine(db: Db, r: RifId)
    requires db.rifs[r].valid
    ensures r in RifsOf(db.rifs) && SameCalls(RemoveCalls(db, r), RefRemoveCalls(ConfigOf(db), r))
  {
    var c := db.rifs[r].conf;
    SharedIsRef(db.rifs, r, c.kind, c.portVlan, Some(c.vr));
    SharedIsRef(db.rifs, r, c.kind, c.portVlan, None);
    SameRemoveCalls(RefShared(RifsOf(db.rifs), Some(r), c.kind, c.portVlan, Some(c.vr)),
                    RefShared(RifsOf(db.rifs), Some(r), c.kind, c.portVlan, None));
  }

  lemma SameRemoveCalls(inVr: bool, shared: bool)
    ensures SameCalls(
              [(DelTermV4, false), (DelTermV6, false)] + (if !inVr then [(DelVrId, false)] else [])
              + (if !shared then [(DelControl, false), (DelFdb, false)] else []),
              [DelTermV4, DelTermV6] + (if inVr then [] else [DelVrId]) + (if shared then [] else [DelControl, DelFdb]))
  {
  }

  lemma AttrsRefine(a: RifAttrs)
    ensures PortVlanOf(a).1 == BadAttrs(a) && (BadAttrs(a) == Success ==> PortVlanOf(a).0 == WantedRif(a).portVlan)
    ensures MtuOf(a) == WantedRif(a).mtu && MissActOf(a) == WantedRif(a).missAct
  {
  }

  lemma CreateRifRefines(db: Db, a: RifAttrs, fpa: RifOracle)
    requires MtuInterned(db.mtus, db.rifs) && Zeroed(db.rifs, db.nbrs, db.nhs)
    ensures var (to, st) := CreateRif(db, a, fpa);
            RefCreateRif(ConfigOf(db), a, fpa, ConfigOf(to), st)
  {
    var to, r := CreateRif(db, a, fpa).0, FreeRif(db.rifs);
    AttrsRefine(a);
    MtuRoom(db, MtuOf(a));
    FullRifs(db.rifs);
    if r < RIF_TABLE_SIZE {
      CreateCallsRefine(db, r, a);
      FirstFailureAnswers(CreateCalls(db, r, a, WantedRif(a).portVlan), RefCreateCalls(ConfigOf(db), a), fpa);
    }
    if CreateRif(db, a, fpa).1 == Success {
      SameVrs(db.vrs, a.vr, true);
      RifAdded(db.rifs, r, to.rifs[r]);
      assert to.rifs == db.rifs[r := to.rifs[r]];
      assert ConfigOf(to) == ConfigOf(db).(rifs := RifsOf(to.rifs));
    }
  }

  lemma RifAdded(rifs: RifTable, r: RifId, rif: Rif)
    requires rif.valid
    ensures var c := rif.conf;
            RifsOf(rifs[r := rif]) == RifsOf(rifs)[r := RifCfg(c.kind, c.portVlan, c.vr, rif.mtu, c.missAct)]
  {
  }

  lemma RemoveRifRefines(db: Db, r: RifId, fpa: RifOracle)
    requires Inv(db)
    ensures var (to, st) := RemoveRif(db, r, fpa);
            RefRemoveRif(ConfigOf(db), r, fpa, ConfigOf(to), st)
  {
    RemoveRifKeeps(db, r, fpa);
    if db.rifs[r].valid {
      RemoveCallsRefine(db, r);
      FirstFailureAnswers(RemoveCalls(db, r), RefRemoveCalls(ConfigOf(db), r), fpa);
    }
    ListsAreSeats(db, r);
    if RemoveRif(db, r, fpa).1 == Success {
      RemovedRif(db, r, RemoveRif(db, r, fpa).0);
    } else {
      RemoveRifAnswer(db, r, fpa);
    }
  }

  lemma RemovedRif(db: Db, r: RifId, to: Db)
    requires to.rifs == db.rifs[r := NO_RIF] && to.vrs == CountRef(db.vrs, db.rifs[r].conf.vr, false)
    requires to.nbrs == db.nbrs && to.nhs == db.nhs && to.routes == db.routes
    ensures ConfigOf(to) == ConfigOf(db).(rifs := RifsOf(db.rifs) - {r})
  {
    SameVrs(db.vrs, db.rifs[r].conf.vr, false);
    assert RifsOf(to.rifs) == RifsOf(db.rifs) - {r};
  }

  /** The reference counter of the profile never stands in the way of a removal. */
  lemma RemoveRifAnswer(db: Db, r: RifId, fpa: RifOracle)
    requires MtuInterned(db.mtus, db.rifs)
    ensures var failed := FirstFailure(RemoveCalls(db, r), fpa);
            RemoveRif(db, r, fpa).1 == if !db.rifs[r].valid then ItemNotFound
                                       else if db.rifs[r].nbrs != [] || db.rifs[r].nhs != [] then Failure else failed
  {
    if db.rifs[r].valid {
      InternOnRemove(db.mtus, db.rifs, r);
    }
  }

  lemma ListsAreSeats(db: Db, r: RifId)
    requires NbrLists(db.rifs, db.nbrs) && NhLists(db.rifs, db.nhs)
    ensures db.rifs[r].nbrs != [] <==> OnRif(NbrsOf(db.nbrs), r)
    ensures db.rifs[r].nhs != [] <==> OnRif(HopsOf(db.nhs), r)
  {
    if db.rifs[r].nbrs != [] {
      var n := db.rifs[r].nbrs[0];
      assert n in db.rifs[r].nbrs && NbrsOf(db.nbrs)[n].rif == r;
    }
    if OnRif(NbrsOf(db.nbrs), r) {
      var n :| n in NbrsOf(db.nbrs) && NbrsOf(db.nbrs)[n].rif == r;
      assert n in db.rifs[r].nbrs;
    }
    if db.rifs[r].nhs != [] {
      var h := db.rifs[r].nhs[0];
      assert h in db.rifs[r].nhs && HopsOf(db.nhs)[h].rif == r;
    }
    if OnRif(HopsOf(db.nhs), r) {
      var h :| h in HopsOf(db.nhs) && HopsOf(db.nhs)[h].rif == r;
      assert h in db.rifs[r].nhs;
    }
  }

  // ----- Runs -----

  /** No address on the interface can be taken for the one the call asks about. */
  ghost predicate Clear(db: Db, cmd: Command) {
    match cmd
    case CreateNbrCmd(r, ip, _, _, _) => RifValid(db, r) ==> NbrsClear(db.nbrs, r, ip) && NhsClear(db.nhs, r, ip)
    case RemoveNbrCmd(r, ip) => RifValid(db, r) ==> NbrsClear(db.nbrs, r, ip)
    case CreateNhCmd(_, r, ip) => RifValid(db, r) ==> NhsClear(db.nhs, r, ip)
    case _ => true
  }

  /** Every call on such addresses is a step of the reference machine, those that break the invariant too. */
  lemma StepRefines(db: Db, cmd: Command)
    requires Inv(db) && Clear(db, cmd)
    ensures RefStep(ConfigOf(db), cmd, ConfigOf(Step(db, cmd).0), Step(db, cmd).1)
  {
    match cmd
    case CreateVrCmd(v4, v6) => CreateVrRefines(db, v4, v6);
    case RemoveVrCmd(v) => RemoveVrRefines(db, v);
    case CreateRifCmd(a, fpa) => CreateRifRefines(db, a, fpa);
    case RemoveRifCmd(r, fpa) => RemoveRifRefines(db, r, fpa);
    case CreateNbrCmd(r, ip, action, lib, stale) => CreateNbrRefines(db, r, ip, action, lib, stale);
    case RemoveNbrCmd(r, ip) => RemoveNbrRefines(db, r, ip);
    case RemoveAllNbrsCmd => RemoveAllRefines(db);
    case CreateNhCmd(isIp, r, ip) => CreateNhRefines(db, isIp, r, ip);
    case RemoveNhCmd(h) => RemoveNhRefines(db, h);
    case CreateRouteCmd(key, priority, action, target) => CreateRouteRefines(db, key, priority, action, target);
    case RemoveRouteCmd(key) => RemoveRouteRefines(db, key);
    case SetActionCmd(key, action) => SetActionRefines(db, key, action);
    case SetNextHopCmd(key, h) => SetNextHopRefines(db, key, h);
  }

  /** What the calls of a run return. */
  function Statuses(db: Db, cmds: seq<Command>): (sts: seq<Status>)
    ensures |sts| == |cmds|
    decreases |cmds|
  {
    if cmds == [] then [] else [Step(db, cmds[0]).1] + Statuses(Step(db, cmds[0]).0, cmds[1..])
  }

  /** The reference machine can go from `c` to `to` with these calls and these answers. */
  ghost predicate RefRun(c: Config, cmds: seq<Command>, sts: seq<Status>, to: Config)
    requires |sts| == |cmds|
    decreases |cmds|
  {
    if cmds == [] then to == c
    else exists mid: Config :: RefStep(c, cmds[0], mid, sts[0]) && RefRun(mid, cmds[1..], sts[1..], to)
  }

  ghost predicate ClearRun(db: Db, cmds: seq<Command>)
    decreases |cmds|
  {
    cmds == [] || (Allowed(db, cmds[0]) && Clear(db, cmds[0]) && ClearRun(Step(db, cmds[0]).0, cmds[1..]))
  }

  lemma {:induction false} RunRefines(db: Db, cmds: seq<Command>)
    requires Inv(db) && ClearRun(db, cmds)
    ensures Inv(Run(db, cmds))
    ensures RefRun(ConfigOf(db), cmds, Statuses(db, cmds), ConfigOf(Run(db, cmds)))
    decreases |cmds|
  {
    if cmds != [] {
      var next := Step(db, cmds[0]).0;
      StepKeeps(db, cmds[0]);
      StepRefines(db, cmds[0]);
      RunRefines(next, cmds[1..]);
      assert Statuses(db, cmds)[1..] == Statuses(next, cmds[1..]);
      assert RefStep(ConfigOf(db), cmds[0], ConfigOf(next), Statuses(db, cmds)[0]);
    }
  }

  /** Every run answers as the reference machine does, ends with what that has configured, and leaves the switch
      doing what that says. */
  lemma RunIsReference(cmds: seq<Command>)
    requires ClearRun(EMPTY_DB, cmds)
    ensures var db := Run(EMPTY_DB, cmds);
            && RefRun(EMPTY_CONFIG, cmds, Statuses(EMPTY_DB, cmds), ConfigOf(db))
            && Follows(ConfigOf(db), db.flows, db.groups)
  {
    EmptyInv();
    assert ConfigOf(EMPTY_DB) == EMPTY_CONFIG;
    RunRefines(EMPTY_DB, cmds);
    SwitchFollows(Run(EMPTY_DB, cmds));
  }

  /** Between any two calls on the tables, links and rings themselves, the switch does what the configuration says. */
  lemma TablesFollow(tables: Database)
    requires tables.Valid()
    ensures Follows(ConfigOf(tables.db), tables.sw.flows, tables.sw.groups)
  {
    ReachableInv(tables.db);
    SwitchFollows(tables.db);
  }
}
