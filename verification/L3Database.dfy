/** The global tables as the sources keep and change them, one method per source function.
    Each method is proved to do to the tables, links included, what L3Spec says about the database value. */
module L3Database {
  import opened Words
  import opened L3Types
  import opened SeqLib
  import opened L3Spec
  import opened L3Invariant
  import opened L3Neighbors
  import opened L3Routes
  import opened L3Runs
  import opened L3Reachable
  import opened L3Tables
  import opened Hardware
  import opened DList
  import opened RouteStore

  /** The global tables before the first call */
  method ZeroTables()
      returns (vrs: array<Vr>, mtus: array<MtuProfile>, rifs: array<RifRow>, nbrs: array<NbrRow>, nhs: array<NhRow>)
    ensures fresh(vrs) && fresh(mtus) && fresh(rifs) && fresh(nbrs) && fresh(nhs)
    ensures AllZero(vrs[..], mtus[..], rifs[..], nbrs[..], nhs[..])
  {
    vrs := new Vr[VR_TABLE_SIZE](_ => NO_VR);
    mtus := new MtuProfile[MTU_TABLE_SIZE](_ => NO_MTU);
    rifs := new RifRow[RIF_TABLE_SIZE](_ => NO_RIF_ROW);
    nbrs := new NbrRow[NBR_TABLE_SIZE](_ => NO_NBR_ROW);
    nhs := new NhRow[NH_TABLE_SIZE](_ => NO_NH_ROW);
  }

  class Database {
    const vrs: array<Vr>
    const mtus: array<MtuProfile>
    const rifs: array<RifRow>
    const nbrs: array<NbrRow>
    const nhs: array<NhRow>
    const store: Store
    const sw: Switch
    // The value the tables represent.
    ghost var db: Db

    ghost predicate Sized() {
      && vrs.Length == VR_TABLE_SIZE && mtus.Length == MTU_TABLE_SIZE && rifs.Length == RIF_TABLE_SIZE
      && nbrs.Length == NBR_TABLE_SIZE && nhs.Length == NH_TABLE_SIZE
    }

    /** The rows and links represent the tables, except that the neighbour list of `hole` hangs on nothing. */
    ghost predicate Tabled(vrs': VrTable, mtus': MtuTable, rifs': RifTable, nbrs': NbrTable, nhs': NhTable,
        hole: Option<RifId>)
      reads vrs, mtus, rifs, nbrs, nhs
    {
      && Sized() && vrs[..] == vrs' && mtus[..] == mtus'
      && TablesRep(rifs[..], nbrs[..], nhs[..], rifs', nbrs', nhs', hole)
    }

    /** The hash of routes and the rings of the next hops represent the routes and their lists. */
    ghost predicate Stored(routes: map<RouteKey, Route>, table: NhTable)
      reads store, store.Repr
    {
      Spelled(routes, table) && forall h: NhId :: table[h].used ==> store.heads[h] != null
    }

    /** The same but for the headers that next hops in use have to have. */
    ghost predicate Spelled(routes: map<RouteKey, Route>, table: NhTable)
      reads store, store.Repr
    {
      && (forall o :: o in store.Repr ==>
            o != this && o != vrs && o != mtus && o != rifs && o != nbrs && o != nhs && o != sw)
      && store.Valid() && store.table == RowsOf(routes) && ListsMatch(store.lists, table)
    }

    ghost predicate Switched(flows: map<Cookie, Flow>, groups: set<NbrId>)
      reads sw
    {
      sw.Valid() && sw.flows == flows && sw.groups == groups
    }

    ghost predicate TablesOk(hole: Option<RifId>)
      reads this`db, vrs, mtus, rifs, nbrs, nhs
    {
      Tabled(db.vrs, db.mtus, db.rifs, db.nbrs, db.nhs, hole)
    }

    /** What route operations need of the rows of next hops. */
    ghost predicate HopsOk()
      reads this`db, nhs
    {
      nhs.Length == NH_TABLE_SIZE && NhsRep(nhs[..], db.nhs)
    }

    ghost predicate RoutesOk()
      reads this`db, store, store.Repr
    {
      Stored(db.routes, db.nhs)
    }

    ghost predicate SwitchOk()
      reads this`db, sw
    {
      Switched(db.flows, db.groups)
    }

    /** All of it represents `db`. */
    ghost predicate Rep(hole: Option<RifId>)
      reads this`db, vrs, mtus, rifs, nbrs, nhs, sw, store, store.Repr
    {
      TablesOk(hole) && RoutesOk() && SwitchOk()
    }

    /** What holds between any two calls. */
    ghost predicate Valid()
      reads this`db, vrs, mtus, rifs, nbrs, nhs, sw, store, store.Repr
    {
      Rep(None) && db in REACHABLE && AllSound(sw.history)
    }

    constructor ()
      ensures Valid() && db == EMPTY_DB
      ensures fresh({vrs, mtus, rifs, nbrs, nhs, sw, store, store.heads}) && fresh(store.Repr)
    {
      var v, m, r, n, h := ZeroTables();
      vrs, mtus, rifs, nbrs, nhs := v, m, r, n, h;
      store := new Store();
      sw := new Switch();
      db := EMPTY_DB;
      new;
      StartReachable();
      EmptyRep(vrs[..], mtus[..], rifs[..], nbrs[..], nhs[..]);
      EmptyLists(store.lists);
    }

    // ----- Lookups -----

    /** mrvl_sai_get_match_neighbor_id */
    method GetMatchNeighborId(r: u32, ip: IpUnion) returns (n: u32, st: Status)
      requires TablesOk(None) && NbrLists(db.rifs, db.nbrs)
      ensures if RifValid(db, r)
              then n == FindNbr(db, r, ip) && st == if n == INVALID_ID then ItemNotFound else Success
              else n == INVALID_ID && st == Failure
    {
      n := INVALID_ID;
      if r >= RIF_TABLE_SIZE || !rifs[r].valid {
        return n, Failure;
      }
      if !rifs[r].nbrValid {
        return n, ItemNotFound;
      }
      var idx := rifs[r].firstNbr;
      ghost var list := db.rifs[r].nbrs;
      ghost var j := 0;
      while true
        invariant 0 <= j < |list| && idx == list[j]
        invariant WalkNbrs(db.nbrs, list, ip) == WalkNbrs(db.nbrs, list[j..], ip)
        decreases |list| - j
      {
        assert list[j..][1..] == list[j + 1..];
        if !nbrs[idx].used {
          return n, ItemNotFound;
        }
        if Matches(nbrs[idx].ip, ip) {
          break;
        }
        assert NbrChain(nbrs[..], list);
        assert nbrs[..][list[j]].next == After(list, j);
        idx := nbrs[idx].next;
        j := j + 1;
        if idx == INVALID_ID {
          break;
        }
      }
      if idx == INVALID_ID {
        return n, ItemNotFound;
      }
      n := idx;
      st := Success;
    }

    /** mrvl_sai_rif_get_first_nh_id */
    method RifGetFirstNhId(r: u32) returns (h: u32, st: Status)
      requires Sized()
      ensures st == Success <==> r < RIF_TABLE_SIZE && rifs[r].valid && rifs[r].nhValid
      ensures h == if st == Success then rifs[r].firstNh else INVALID_ID
    {
      if r >= RIF_TABLE_SIZE || !rifs[r].valid {
        return INVALID_ID, Failure;
      }
      if !rifs[r].nhValid {
        return INVALID_ID, ItemNotFound;
      }
      return rifs[r].firstNh, Success;
    }

    /** mrvl_sai_next_hop_get_match_id, started at the head of the list of interface `r` */
    method NextHopGetMatchId(first: u32, ip: IpUnion, ghost r: RifId, ghost hole: Option<RifId>)
        returns (h: u32, st: Status)
      requires TablesOk(hole) && db.rifs[r].nhs != [] && first == db.rifs[r].nhs[0]
      ensures h == FindNh(db, r, ip) && st == if h == INVALID_ID then ItemNotFound else Success
    {
      h := INVALID_ID;
      var idx := first;
      ghost var list := db.rifs[r].nhs;
      ghost var j := 0;
      while true
        invariant 0 <= j < |list| && idx == list[j]
        invariant WalkNhs(db.nhs, list, ip) == WalkNhs(db.nhs, list[j..], ip)
        decreases |list| - j
      {
        assert list[j..][1..] == list[j + 1..];
        if !nhs[idx].used {
          return h, ItemNotFound;
        }
        if Matches(nhs[idx].ip, ip) {
          break;
        }
        assert NhChain(nhs[..], list);
        assert nhs[..][list[j]].next == After(list, j);
        idx := nhs[idx].next;
        j := j + 1;
        if idx == INVALID_ID {
          break;
        }
      }
      if idx == INVALID_ID {
        return h, ItemNotFound;
      }
      h := idx;
      st := Success;
    }

    // ----- Flow entries of routes -----

    /** mrvl_sai_create_route_prv: the compiler from a route entry to a flow entry */
    method CreateRoutePrv(key: RouteKey, row: RouteRow, ghost route: Route, ghost sound: bool) returns (st: Status)
      requires sw.Valid() && RouteCookie(key) !in sw.flows && row == RowOf(key, route)
      requires sound && !Refused(route) ==> Grouped(Compile(key, route), sw.groups)
      modifies sw
      ensures sw.Valid() && sw.groups == old(sw.groups) && sw.history in Since(old(sw.history), sound)
      ensures st == if Refused(route) then InvalidParameter else Success
      ensures sw.flows == if Refused(route) then old(sw.flows) else Recompile(old(sw.flows), key, route)
    {
      if (row.action.Forward? || row.action.Log?) && !row.nhValid {
        NoneMore(sw.history, sound);
        return InvalidParameter;
      }
      var flow := Flow(0, key.dest, None, false, false);
      if row.nbrIdx == NBR_TRAP_ID || row.action.Trap? || row.action.Log? {
        flow := flow.(toCpu := true);
      } else if row.nbrIdx == NBR_DROP_ID || row.action.Drop? {
        flow := flow.(clear := true);
      }
      if (row.action.Forward? || row.action.Log?) && row.nbrIdx < NBR_RESERVED_ID {
        flow := flow.(group := Some(row.nbrIdx));
      }
      flow := flow.(vr := key.vr);
      sw.AddFlow(RouteCookie(key), flow, sound);
      st := Success;
    }

    /** mrvl_sai_modify_route_prv: delete and add */
    method ModifyRoutePrv(key: RouteKey, row: RouteRow, ghost route: Route, ghost sound: bool) returns (st: Status)
      requires sw.Valid() && RouteCookie(key) in sw.flows && row == RowOf(key, route)
      requires sound && !Refused(route) ==> Grouped(Compile(key, route), sw.groups)
      modifies sw
      ensures sw.Valid() && sw.groups == old(sw.groups) && sw.history in Since(old(sw.history), sound)
      ensures st == if Refused(route) then InvalidParameter else Success
      ensures sw.flows == if Refused(route) then old(sw.flows) - {RouteCookie(key)}
                          else Recompile(old(sw.flows), key, route)
    {
      var _ := sw.DeleteFlow(RouteCookie(key));
      st := CreateRoutePrv(key, row, route, sound);
    }

    /** mrvl_sai_route_update_nbr_id, with the element that the list gave out */
    method RouteUpdateNbrId(e: Elem<RouteRow>, id: u32, ghost key: RouteKey, ghost sound: bool) returns (st: Status)
      requires RoutesOk() && SwitchOk() && key in db.routes && e == store.entries[key] && RouteCookie(key) in sw.flows
      requires Settable(db.routes[key].action) && db.routes[key].nhValid
      requires sound && id < NBR_RESERVED_ID ==> id in sw.groups
      modifies this`db, sw, store`table, e`entry
      ensures RoutesOk() && SwitchOk() && st == Success && sw.history in Since(old(sw.history), sound)
      ensures var route := old(db).routes[key].(nbrIdx := id, follows := true);
              db == old(db).(routes := old(db).routes[key := route], flows := Recompile(old(db).flows, key, route))
    {
      EntryIs(key);
      WriteEntry(e, e.entry.(nbrIdx := id), key, db.routes[key].(nbrIdx := id, follows := true));
      st := RecompileEntry(e, key, sound);
      if st != Success {
        assert false;
      }
    }

    /** Write the entry of a route; `route` is what the database value says it is then. */
    method WriteEntry(e: Elem<RouteRow>, row: RouteRow, ghost key: RouteKey, ghost route: Route)
      requires RoutesOk() && key in db.routes && e == store.entries[key] && row == RowOf(key, route)
      modifies this`db, store`table, e`entry
      ensures RoutesOk() && db == old(db).(routes := old(db).routes[key := route])
    {
      EntryIs(key);
      store.Write(e, row);
      RowsUpdated(db.routes, key, route);
      db := db.(routes := db.routes[key := route]);
    }

    /** mrvl_sai_modify_route_prv on an entry of the hash */
    method RecompileEntry(e: Elem<RouteRow>, ghost key: RouteKey, ghost sound: bool) returns (st: Status)
      requires RoutesOk() && SwitchOk() && key in db.routes && e == store.entries[key] && RouteCookie(key) in sw.flows
      requires sound && !Refused(db.routes[key]) ==> Grouped(Compile(key, db.routes[key]), sw.groups)
      modifies this`db, sw
      ensures SwitchOk() && sw.history in Since(old(sw.history), sound)
      ensures var route := old(db).routes[key];
              && st == (if Refused(route) then InvalidParameter else Success)
              && db == old(db).(flows := if Refused(route) then old(db).flows - {RouteCookie(key)}
                                         else Recompile(old(db).flows, key, route))
    {
      EntryIs(key);
      ghost var route := db.routes[key];
      st := ModifyRoutePrv(e.entry.key, e.entry, route, sound);
      db := db.(flows := if Refused(route) then db.flows - {RouteCookie(key)} else Recompile(db.flows, key, route));
    }

    /** What an entry of the hash holds. */
    lemma EntryIs(key: RouteKey)
      requires Stored(db.routes, db.nhs) && key in db.routes
      ensures key in store.entries && store.entries[key].entry == RowOf(key, db.routes[key])
    {
      assert store.Entered();
    }

    method SetNbrId(h: NhId, id: u32, ghost hole: Option<RifId>)
      requires TablesOk(hole)
      modifies this`db, nhs
      ensures TablesOk(hole) && db == old(db).(nhs := old(db).nhs[h := old(db).nhs[h].(nbrId := id)])
    {
      nhs[h] := nhs[h].(nbrId := id);
      db := db.(nhs := db.nhs[h := db.nhs[h].(nbrId := id)]);
      assert NhChains(nhs[..], db.rifs);
    }

    /** The ring of a next hop, entry by entry. */
    lemma RingIs(h: NhId)
      requires Stored(db.routes, db.nhs) && store.heads[h] != null
      ensures var ring, keys := store.heads[h], db.nhs[h].routes;
              && ring.Valid() && |ring.elems| == |keys|
              && forall i :: 0 <= i < |keys| ==>
                   keys[i] in db.routes && keys[i] in store.entries && ring.elems[i] == store.entries[keys[i]]
    {
      store.RingIs(h);
      assert store.Entered();
    }

    /** `e` is where a walk round the ring of a next hop has got to after `j` entries. */
    ghost predicate At(h: NhId, e: Elem<RouteRow>, j: nat)
      reads store, store.heads
      reads if store.heads.Length <= h || store.heads[h] == null then {} else {store.heads[h]}
    {
      && h < store.heads.Length && store.heads[h] != null
      && j < |store.heads[h].Ring()| && e == store.heads[h].Ring()[j]
    }

    /** The do-while over the circular list of a next hop in mrvl_sai_next_hop_update_nbr_id. */
    method UpdateRouteList(h: NhId, id: u32, ghost start: Db, ghost was: seq<HwState>, ghost sound: bool)
      requires RoutesOk() && SwitchOk() && sw.history in Since(was, sound) && store.heads[h] != null
               && start.nhs[h].routes != []
      requires Walkable(start.nhs[h].routes, start.routes, start.flows) && db == RepointedTo(start, h, id, [])
      requires sound && id < NBR_RESERVED_ID ==> id in sw.groups
      modifies this`db, sw, store`table, store.nodes`entry
      ensures RoutesOk() && SwitchOk() && sw.history in Since(was, sound)
      ensures db == RepointedTo(start, h, id, start.nhs[h].routes[..|start.nhs[h].routes|])
    {
      var e, last := store.heads[h].header, false;
      ghost var j := 0;
      while !last
        invariant 0 <= j <= |start.nhs[h].routes| && (last <==> j == |start.nhs[h].routes|) && At(h, e, j)
        invariant RoutesOk() && SwitchOk() && sw.history in Since(was, sound)
                  && (sound && id < NBR_RESERVED_ID ==> id in sw.groups)
        invariant db == RepointedTo(start, h, id, start.nhs[h].routes[..j])
        decreases |start.nhs[h].routes| - j
      {
        e, last := UpdateNext(h, e, id, start, j, was, sound);
        j := j + 1;
      }
    }

    /** One round of it, and whether it was the last */
    method UpdateNext(h: NhId, e: Elem<RouteRow>, id: u32, ghost start: Db, ghost j: nat, ghost was: seq<HwState>,
        ghost sound: bool)
      returns (next: Elem<RouteRow>, last: bool)
      requires RoutesOk() && SwitchOk() && sw.history in Since(was, sound) && At(h, e, j) && j < |start.nhs[h].routes|
      requires Walkable(start.nhs[h].routes, start.routes, start.flows)
      requires db == RepointedTo(start, h, id, start.nhs[h].routes[..j])
      requires sound && id < NBR_RESERVED_ID ==> id in sw.groups
      modifies this`db, sw, store`table, store.nodes`entry
      ensures RoutesOk() && SwitchOk() && sw.history in Since(was, sound)
              && (sound && id < NBR_RESERVED_ID ==> id in sw.groups)
      ensures db == RepointedTo(start, h, id, start.nhs[h].routes[..j + 1])
      ensures At(h, next, j + 1) && (last <==> j + 1 == |start.nhs[h].routes|)
    {
      next, last := NextRoute(h, e, j, start.nhs[h].routes[j]);
      UpdateOne(h, next, id, start, j, was, sound);
    }

    /** The step round the ring */
    method NextRoute(h: NhId, e: Elem<RouteRow>, ghost j: nat, ghost key: RouteKey)
      returns (next: Elem<RouteRow>, last: bool)
      requires RoutesOk() && At(h, e, j) && j < |db.nhs[h].routes| && key == db.nhs[h].routes[j]
      ensures key in db.routes && key in store.entries && next == store.entries[key]
      ensures At(h, next, j + 1) && (last <==> j + 1 == |db.nhs[h].routes|)
    {
      RingIs(h);
      next := store.heads[h].GetNext(e, j);
      last := store.heads[h].IsLast(next, j);
    }

    /** The update of the route it has come to */
    method UpdateOne(h: NhId, e: Elem<RouteRow>, id: u32, ghost start: Db, ghost j: nat, ghost was: seq<HwState>,
        ghost sound: bool)
      requires RoutesOk() && SwitchOk() && sw.history in Since(was, sound) && j < |start.nhs[h].routes|
      requires var key := start.nhs[h].routes[j]; key in store.entries && e == store.entries[key]
      requires Walkable(start.nhs[h].routes, start.routes, start.flows)
      requires db == RepointedTo(start, h, id, start.nhs[h].routes[..j])
      requires sound && id < NBR_RESERVED_ID ==> id in sw.groups
      modifies this`db, sw, store`table, e`entry
      ensures RoutesOk() && SwitchOk() && sw.history in Since(was, sound)
              && (sound && id < NBR_RESERVED_ID ==> id in sw.groups)
      ensures db == RepointedTo(start, h, id, start.nhs[h].routes[..j + 1])
    {
      ghost var key := start.nhs[h].routes[j];
      RepointStep(start, h, id, j);
      var _ := RouteUpdateNbrId(e, id, key, sound);
    }

    /** The second half of mrvl_sai_next_hop_update_nbr_id: the next hop is known, and so is the id. */
    method PointAt(h: NhId, id: u32, ghost hole: Option<RifId>, ghost sound: bool)
      requires Rep(hole) && db.nhs[h].used && Walkable(db.nhs[h].routes, db.routes, db.flows)
      requires sound && id < NBR_RESERVED_ID ==> id in sw.groups
      modifies this`db, nhs, sw, store`table, store.nodes`entry
      ensures Rep(hole) && sw.history in Since(old(sw.history), sound) && db == PointNextHop(old(db), h, id)
    {
      ghost var start := db;
      SetNbrId(h, id, hole);
      RepointNothing(start.routes, start.flows, id);
      PointRoutes(h, id, start, sound);
    }

    /** The routes of the next hop, if it has any */
    method PointRoutes(h: NhId, id: u32, ghost start: Db, ghost sound: bool)
      requires RoutesOk() && SwitchOk() && start.nhs[h].used
      requires Walkable(start.nhs[h].routes, start.routes, start.flows) && db == RepointedTo(start, h, id, [])
      requires sound && id < NBR_RESERVED_ID ==> id in sw.groups
      modifies this`db, sw, store`table, store.nodes`entry
      ensures RoutesOk() && SwitchOk() && sw.history in Since(old(sw.history), sound)
              && db == PointNextHop(start, h, id)
    {
      assert db.nhs[h].used;
      var empty := store.IsEmpty(h);
      if !empty {
        UpdateRouteList(h, id, start, sw.history, sound);
        assert start.nhs[h].routes[..|start.nhs[h].routes|] == start.nhs[h].routes;
      }
    }

    /** mrvl_sai_next_hop_update_nbr_id: the next hop of a changed neighbour, and every route on its list */
    method NextHopUpdateNbrId(r: RifId, nbr: u32, ip: IpUnion, ghost hole: Option<RifId>, ghost sound: bool)
        returns (h: Option<NhId>, st: Status)
      requires Rep(hole) && db.rifs[r].valid && AllWalkable(db.nhs, db.routes, db.flows)
      requires sound && nbr != INVALID_ID ==> nbr in sw.groups
      modifies this`db, nhs, sw, store`table, store.nodes`entry
      ensures Rep(hole) && sw.history in Since(old(sw.history), sound)
      ensures db == UpdateNextHop(old(db), r, nbr, ip)
      ensures st == if h.Some? then Success else ItemNotFound
      ensures if h.Some? then h.value == FindNh(old(db), r, ip) else FindNh(old(db), r, ip) == INVALID_ID
    {
      var id;
      h, id := FindNextHop(r, nbr, ip, hole);
      if h.None? {
        NoneMore(sw.history, sound);
        return h, ItemNotFound;
      }
      PointAt(h.value, id, hole, sound);
      st := Success;
    }

    /** Its walk, and the id the next hop is to be pointed at */
    method FindNextHop(r: RifId, nbr: u32, ip: IpUnion, ghost hole: Option<RifId>) returns (h: Option<NhId>, id: u32)
      requires TablesOk(hole) && db.rifs[r].valid
      ensures if h.Some? then h.value == FindNh(db, r, ip) && db.nhs[h.value].used else FindNh(db, r, ip) == INVALID_ID
      ensures id == if nbr == INVALID_ID then MissId(db.rifs[r].conf.missAct) else nbr
    {
      id := nbr;
      if nbr == INVALID_ID {
        if rifs[r].conf.missAct.Trap? {
          id := NBR_TRAP_ID;
        } else {
          id := NBR_DROP_ID;
        }
      }
      var first, found := RifGetFirstNhId(r);
      if found != Success || first == INVALID_ID {
        return None, id;
      }
      var match_id;
      match_id, found := NextHopGetMatchId(first, ip, r, hole);
      h := if found != Success then None else Some(match_id);
    }

    // ----- Next hops -----

    /** mrvl_sai_neighbor_set_next_hop */
    method NeighborSetNextHop(n: u32, h: u32)
      requires TablesOk(None)
      modifies this`db, nbrs
      ensures TablesOk(None) && db == old(db).(nbrs := SetNextHopOf(old(db).nbrs, n, h))
    {
      if n < NBR_TABLE_SIZE && nbrs[n].used {
        nbrs[n] := nbrs[n].(nextHop := h);
        db := db.(nbrs := db.nbrs[n := db.nbrs[n].(nextHop := h)]);
        assert NbrChains(nbrs[..], db.rifs);
      }
    }

    /** mrvl_sai_rif_add_first_nh_id */
    method RifAddFirstNhId(r: RifId, h: u32) returns (last: u32, st: Status)
      requires Sized()
      modifies rifs
      ensures st == Success <==> old(rifs[r].valid)
      ensures rifs[..] == if st != Success then old(rifs[..])
                          else old(rifs[..])[r := old(rifs[r]).(nhValid := h != INVALID_ID, firstNh := h)]
      ensures last == if st == Success && h != INVALID_ID && old(rifs[r].nhValid)
                      then old(rifs[r].firstNh) else INVALID_ID
    {
      last := INVALID_ID;
      if !rifs[r].valid {
        return last, Failure;
      }
      if h == INVALID_ID {
        rifs[r] := rifs[r].(nhValid := false);
      } else if !rifs[r].nhValid {
        rifs[r] := rifs[r].(nhValid := true);
      } else {
        last := rifs[r].firstNh;
      }
      rifs[r] := rifs[r].(firstNh := h);
      st := Success;
    }

    /** The slot search of mrvl_sai_create_next_hop */
    method FreeNhSlot() returns (h: nat)
      requires TablesOk(None)
      ensures h == FreeNh(db.nhs)
    {
      h := 0;
      while h < NH_TABLE_SIZE && nhs[h].used
        invariant 0 <= h <= NH_TABLE_SIZE
        invariant forall g: NhId :: g < h ==> db.nhs[g].used
      {
        h := h + 1;
      }
    }

    /** The two writes of mrvl_sai_create_next_hop that put slot `h` at the head of the list of interface `r`,
        and the filling of the slot. */
    method FillNextHop(r: RifId, h: NhId, ip: IpUnion, id: u32)
      requires Rep(None) && NhLists(db.rifs, db.nhs) && db.rifs[r].valid && db.nhs[h] == NO_NH
      modifies this`db, rifs, nhs, store`rings, store`nodes, store`Repr, store.heads
      ensures Rep(None) && fresh(store.Repr - old(store.Repr)) && db == Slotted(old(db), r, h, ip, id)
    {
      store.ZeroHead(h);
      FillNhRow(r, h, ip, id);
      InitSlot(h);
    }

    /** mrvl_sai_utl_dlist_init on the header in a slot that has just been taken */
    method InitSlot(h: NhId)
      requires Spelled(db.routes, db.nhs) && store.heads[h] == null
      requires forall g: NhId :: g != h && db.nhs[g].used ==> store.heads[g] != null
      modifies store`rings, store`nodes, store`Repr, store.heads
      ensures RoutesOk() && fresh(store.Repr - old(store.Repr))
    {
      store.InitHead(h);
    }

    /** Its writes to the tables */
    method FillNhRow(r: RifId, h: NhId, ip: IpUnion, id: u32)
      requires TablesOk(None) && NhLists(db.rifs, db.nhs) && db.rifs[r].valid && !db.nhs[h].used
      modifies this`db, rifs, nhs
      ensures TablesOk(None) && db == Slotted(old(db), r, h, ip, id)
    {
      var rest, st := RifAddFirstNhId(r, h);
      if st != Success {
        assert false;
      }
      nhs[h] := NO_NH_ROW;
      nhs[h] := nhs[h].(next := rest);
      nhs[h] := nhs[h].(used := true, rif := r, ip := ip, nbrId := id);
      assert nhs[..] == old(nhs[..])[h := NhRow(true, ip, rest, r, id)];
      LinkNhRep(old(rifs[..]), nbrs[..], old(nhs[..]), nhs[..], db, r, h, ip, id);
      assert rifs[..] == HeadNhs(old(rifs[..]), r, [h] + db.rifs[r].nhs);
      db := Slotted(db, r, h, ip, id);
    }

    /** mrvl_sai_create_next_hop */
    method CreateNextHop(isIp: bool, r: u32, ip: IpUnion) returns (st: Status)
      requires Valid()
      modifies this`db, rifs, nbrs, nhs, store`rings, store`nodes, store`Repr, store.heads
      ensures (db, st) == L3Spec.CreateNextHop(old(db), isIp, r, ip)
      ensures Rep(None) && fresh(store.Repr - old(store.Repr))
      ensures Valid() <==> Harmless(old(db), CreateNhCmd(isIp, r, ip))
    {
      CreateNhReaches(db, isIp, r, ip);
      ReachableLists(db);
      st := BuildNextHop(isIp, r, ip);
    }

    /** Its body */
    method BuildNextHop(isIp: bool, r: u32, ip: IpUnion) returns (st: Status)
      requires Rep(None) && NbrLists(db.rifs, db.nbrs) && NhLists(db.rifs, db.nhs) && Zeroed(db.rifs, db.nbrs, db.nhs)
      modifies this`db, rifs, nbrs, nhs, store`rings, store`nodes, store`Repr, store.heads
      ensures Rep(None) && (db, st) == L3Spec.CreateNextHop(old(db), isIp, r, ip)
      ensures fresh(store.Repr - old(store.Repr))
    {
      var h;
      h, st := CheckNextHop(isIp, r, ip);
      if st == Success {
        EnterNextHop(r, h, ip);
      }
    }

    /** Its checks, and a slot */
    method CheckNextHop(isIp: bool, r: u32, ip: IpUnion) returns (h: nat, st: Status)
      requires TablesOk(None)
      ensures st == Success ==> RifValid(db, r) && h < NH_TABLE_SIZE && !db.nhs[h].used
      ensures L3Spec.CreateNextHop(db, isIp, r, ip)
              == if st == Success then (AddNextHop(db, r, h, ip), Success) else (db, st)
    {
      h := NH_TABLE_SIZE;
      if !isIp {
        return h, InvalidAttrValue;
      }
      if r >= RIF_TABLE_SIZE || !rifs[r].valid {
        return h, InvalidParameter;
      }
      var first, found := RifGetFirstNhId(r);
      if found == Success {
        var known;
        known, found := NextHopGetMatchId(first, ip, r, None);
        if found == Success {
          return h, Failure;
        }
      }
      h := FreeNhSlot();
      st := if h < NH_TABLE_SIZE then Success else TableFull;
    }

    /** The part of mrvl_sai_create_next_hop after its checks */
    method EnterNextHop(r: RifId, h: NhId, ip: IpUnion)
      requires Rep(None) && NbrLists(db.rifs, db.nbrs) && NhLists(db.rifs, db.nhs) && db.rifs[r].valid
               && db.nhs[h] == NO_NH
      modifies this`db, rifs, nbrs, nhs, store`rings, store`nodes, store`Repr, store.heads
      ensures Rep(None) && fresh(store.Repr - old(store.Repr)) && db == AddNextHop(old(db), r, h, ip)
    {
      AddsSlotted(db, r, h, ip);
      var id := ResolveNextHop(r, ip);
      FillNextHop(r, h, ip, id);
      NeighborSetNextHop(id, h);
    }

    /** The id that a new next hop caches */
    method ResolveNextHop(r: RifId, ip: IpUnion) returns (id: u32)
      requires TablesOk(None) && NbrLists(db.rifs, db.nbrs) && db.rifs[r].valid
      ensures id == Resolve(db, r, ip)
    {
      var found;
      id, found := GetMatchNeighborId(r, ip);
      if found != Success {
        if rifs[r].conf.missAct.Trap? {
          id := NBR_TRAP_ID;
        } else {
          id := NBR_DROP_ID;
        }
      }
    }

    /** mrvl_sai_next_hop_remove_entry_prv: cut slot `h` out of the list that starts at `first` */
    method NextHopRemoveEntry(first: u32, h: NhId, ghost list: seq<NhId>) returns (newFirst: u32, st: Status)
      requires Sized() && NoDup(list) && h in list && first == list[0] && NhChain(nhs[..], list)
      modifies nhs
      ensures st == Success && newFirst == Head(Without(list, h), INVALID_ID)
      ensures NhChain(nhs[..], Without(list, h))
      ensures nhs[h] == NO_NH_ROW
      ensures forall g: NhId :: g != h ==> nhs[g] == old(nhs[g]).(next := nhs[g].next)
      ensures forall g: NhId :: g !in list ==> nhs[g] == old(nhs[g])
    {
      ghost var p :| 0 <= p < |list| && list[p] == h;
      WithoutAt(list, p);
      assert nhs[..][list[p]].next == After(list, p);
      if h == first {
        newFirst := nhs[h].next;
        nhs[h] := NO_NH_ROW;
        CutNhChain(old(nhs[..]), nhs[..], list, p);
        return newFirst, Success;
      }
      newFirst := first;
      var last, nh := WalkToNextHop(first, h, list, p);
      if h == nh {
        nhs[last] := nhs[last].(next := nhs[h].next);
        nhs[h] := NO_NH_ROW;
        CutNhChain(old(nhs[..]), nhs[..], list, p);
        st := Success;
      } else {
        assert false;
      }
    }

    /** Its loop: the element of the list before slot `h`, and that slot */
    method WalkToNextHop(first: u32, h: NhId, ghost list: seq<NhId>, ghost p: nat) returns (last: u32, nh: u32)
      requires Sized() && NhChain(nhs[..], list) && NoDup(list) && 0 < p < |list| && list[p] == h && first == list[0]
      ensures nh == h && last == list[p - 1]
    {
      last, nh := first, first;
      ghost var j := 0;
      while h != nh && nh != INVALID_ID
        invariant 0 <= j <= p && nh == list[j] && last == list[if j == 0 then 0 else j - 1]
        decreases p - j
      {
        assert nhs[..][list[j]].next == After(list, j);
        last := nh;
        nh := nhs[nh].next;
        j := j + 1;
      }
    }

    /** Slot `h` leaves the list of its interface. */
    method UnlinkNextHop(r: RifId, first: u32, h: NhId)
      requires Rep(None) && NhLists(db.rifs, db.nhs) && db.nhs[h].used && db.nhs[h].rif == r
      requires first == db.rifs[r].nhs[0] && db.nhs[h].routes == []
      modifies this`db, rifs, nhs, store.heads
      ensures Rep(None)
      ensures db == old(db).(rifs := old(db).rifs[r := old(db).rifs[r].(nhs := Without(old(db).rifs[r].nhs, h))],
                             nhs := old(db).nhs[h := NO_NH])
    {
      UnlinkNhRow(r, first, h);
      store.ZeroHead(h);
      db := db.(rifs := db.rifs[r := db.rifs[r].(nhs := Without(db.rifs[r].nhs, h))], nhs := db.nhs[h := NO_NH]);
    }

    /** Its writes to the tables */
    method UnlinkNhRow(r: RifId, first: u32, h: NhId)
      requires Sized() && TablesRep(rifs[..], nbrs[..], nhs[..], db.rifs, db.nbrs, db.nhs, None)
      requires NhLists(db.rifs, db.nhs) && db.nhs[h].used && db.nhs[h].rif == r && first == db.rifs[r].nhs[0]
      modifies rifs, nhs
      ensures TablesRep(rifs[..], nbrs[..], nhs[..], db.rifs[r := db.rifs[r].(nhs := Without(db.rifs[r].nhs, h))],
                        db.nbrs,
                        db.nhs[h := NO_NH], None)
    {
      ghost var list := Without(db.rifs[r].nhs, h);
      var newFirst, st := NextHopRemoveEntry(first, h, db.rifs[r].nhs);
      UnlinkNhRep(old(rifs[..]), nbrs[..], old(nhs[..]), nhs[..], db, r, h);
      if newFirst != first {
        var _, added := RifAddFirstNhId(r, newFirst);
      }
      assert rifs[..] == HeadNhs(old(rifs[..]), r, list);
    }

    /** mrvl_sai_remove_next_hop */
    method RemoveNextHop(h: NhId) returns (st: Status)
      requires Valid()
      modifies this`db, rifs, nbrs, nhs, store.heads
      ensures (db, st) == L3Spec.RemoveNextHop(old(db), h)
      ensures Valid()
    {
      RemoveNhReaches(db, h);
      ReachableLists(db);
      st := DropSlot(h);
    }

    /** Its body */
    method DropSlot(h: NhId) returns (st: Status)
      requires Rep(None) && NhLists(db.rifs, db.nhs)
      modifies this`db, rifs, nbrs, nhs, store.heads
      ensures Rep(None) && (db, st) == L3Spec.RemoveNextHop(old(db), h)
    {
      if !nhs[h].used {
        return Failure;
      }
      var empty := store.IsEmpty(h);
      if !empty {
        return Failure;
      }
      var r := nhs[h].rif;
      var first, found := RifGetFirstNhId(r);
      if found != Success || first == INVALID_ID {
        return Failure;
      }
      NeighborSetNextHop(nhs[h].nbrId, INVALID_ID);
      UnlinkNextHop(r, first, h);
      st := Success;
    }

    // ----- Neighbours -----

    /** mrvl_sai_rif_add_first_nbr_id */
    method RifAddFirstNbrId(r: RifId, n: u32) returns (last: u32, st: Status)
      requires Sized()
      modifies rifs
      ensures st == Success <==> old(rifs[r].valid)
      ensures rifs[..] == if st != Success then old(rifs[..])
                          else old(rifs[..])[r := old(rifs[r]).(nbrValid := n != INVALID_ID, firstNbr := n)]
      ensures last == if st == Success && n != INVALID_ID && old(rifs[r].nbrValid)
                      then old(rifs[r].firstNbr) else INVALID_ID
    {
      last := INVALID_ID;
      if !rifs[r].valid {
        return last, Failure;
      }
      if n == INVALID_ID {
        rifs[r] := rifs[r].(nbrValid := false);
      } else if !rifs[r].nbrValid {
        rifs[r] := rifs[r].(nbrValid := true);
      } else {
        last := rifs[r].firstNbr;
      }
      rifs[r] := rifs[r].(firstNbr := n);
      st := Success;
    }

    /** The slot search of mrvl_sai_create_neighbor_entry */
    method FreeNbrSlot() returns (n: nat)
      requires TablesOk(None)
      ensures n == FreeNbr(db.nbrs)
    {
      n := 0;
      while n < NBR_TABLE_SIZE && nbrs[n].used
        invariant 0 <= n <= NBR_TABLE_SIZE
        invariant forall m: NbrId :: m < n ==> db.nbrs[m].used
      {
        n := n + 1;
      }
    }

    /** The part of mrvl_sai_create_neighbor_entry that makes the group, fills slot `n` and puts it at the head of
        the list of interface `r`. */
    method LinkNeighbor(r: RifId, n: NbrId, ip: IpUnion, made: bool)
      requires TablesOk(None) && SwitchOk() && NbrsOk(db)
      requires db.rifs[r].valid && !db.nbrs[n].used
      modifies this`db, rifs, nbrs, sw
      ensures TablesOk(None) && SwitchOk() && sw.history in Since(old(sw.history), true)
      ensures db == LinkNbr(old(db), r, n, Kept(ip), made)
      ensures nbrs[n].ip == Kept(ip)
    {
      NoneMore(sw.history, true);
      if made {
        sw.AddGroup(n);
      }
      FillNbrRow(r, n, ip, made);
      db := LinkNbr(db, r, n, Kept(ip), made);
    }

    /** Its writes to the tables */
    method FillNbrRow(r: RifId, n: NbrId, ip: IpUnion, ghost made: bool)
      requires TablesOk(None) && NbrLists(db.rifs, db.nbrs) && db.rifs[r].valid && db.nbrs[n] == NO_NBR
      modifies rifs, nbrs
      ensures var to := LinkNbr(db, r, n, Kept(ip), made);
              TablesRep(rifs[..], nbrs[..], nhs[..], to.rifs, to.nbrs, to.nhs, None)
      ensures nbrs[n].ip == Kept(ip)
    {
      nbrs[n] := nbrs[n].(used := true);
      nbrs[n] := nbrs[n].(nextHop := INVALID_ID);
      if ip.v4 {
        nbrs[n] := nbrs[n].(ip := nbrs[n].ip.(v4 := true, word := ip.word));
      } else {
        nbrs[n] := nbrs[n].(ip := nbrs[n].ip.(v4 := false, word := ip.word, tail := ip.tail));
      }
      var rest, st := RifAddFirstNbrId(r, n);
      if st != Success {
        assert false;
      }
      nbrs[n] := nbrs[n].(next := rest);
      assert nbrs[..] == old(nbrs[..])[n := NbrRow(true, Kept(ip), rest, INVALID_ID)];
      LinkNbrRep(old(rifs[..]), old(nbrs[..]), nbrs[..], nhs[..], db, r, n, Kept(ip), made);
      assert rifs[..] == HeadNbrs(old(rifs[..]), r, [n] + db.rifs[r].nbrs);
    }

    /** mrvl_sai_add_route_direct: 1 also when the entry is there already */
    method AddRouteDirect(group: NbrId, r: RifId, ip4: u32, ghost sound: bool) returns (ok: bool)
      requires TablesOk(None) && SwitchOk() && db.rifs[r].valid && (sound ==> group in sw.groups)
      modifies this`db, sw
      ensures SwitchOk() && ok && sw.history in Since(old(sw.history), sound)
      ensures db == AddHost(old(db), r, IpUnion(true, ip4, 0), group)
    {
      var cookie := HostCookie(ip4, r);
      if cookie in sw.flows {
        NoneMore(sw.history, sound);
        return true;
      }
      if !rifs[r].valid {
        return false;
      }
      sw.AddFlow(cookie, Flow(rifs[r].conf.vr, Prefix(V4(ip4), HOST_MASK4), Some(group), false, false), sound);
      db := AddHost(db, r, IpUnion(true, ip4, 0), group);
      ok := true;
    }

    /** mrvl_sai_del_route_direct: 0 when there is no such entry */
    method DelRouteDirect(ip4: u32, r: RifId) returns (found: bool)
      requires SwitchOk()
      modifies this`db, sw
      ensures found <==> HostCookie(ip4, r) in old(db).flows
      ensures SwitchOk() && sw.history in Since(old(sw.history), true)
              && db == DelHost(old(db), r, IpUnion(true, ip4, 0))
    {
      found := sw.DeleteFlow(HostCookie(ip4, r));
      db := DelHost(db, r, IpUnion(true, ip4, 0));
    }

    /** mrvl_sai_create_neighbor_entry; `lib` is what the library answers when the group is made, `stale` what the
        uninitialised next-hop index holds. */
    method CreateNeighborEntry(r: u32, ip: IpUnion, action: Option<PacketAction>, lib: GroupOracle, stale: u32)
        returns (st: Status)
      requires Valid()
      modifies this`db, rifs, nbrs, nhs, sw, store`table, store.nodes`entry
      ensures (db, st) == L3Spec.CreateNeighbor(old(db), r, ip, action, lib, stale)
      ensures Rep(None)
      ensures Valid() <==> Harmless(old(db), CreateNbrCmd(r, ip, action, lib, stale))
    {
      CreateNbrReaches(db, r, ip, action, lib, stale);
      ReachableWalks(db);
      ghost var sound := Harmless(db, CreateNbrCmd(r, ip, action, lib, stale));
      st := BuildNeighbor(r, ip, action, lib, stale, sound);
      if sound {
        StaysSound(old(sw.history), sw.history);
      }
    }

    /** Its body */
    method BuildNeighbor(r: u32, ip: IpUnion, action: Option<PacketAction>, lib: GroupOracle, stale: u32,
        ghost sound: bool)
        returns (st: Status)
      requires Rep(None) && NbrsOk(db) && AllWalkable(db.nhs, db.routes, db.flows)
      requires sound && L3Spec.CreateNeighbor(db, r, ip, action, lib, stale).1 == Success
               ==> !Groupless(db.rifs[r].conf.kind, lib)
      modifies this`db, rifs, nbrs, nhs, sw, store`table, store.nodes`entry
      ensures (db, st) == L3Spec.CreateNeighbor(old(db), r, ip, action, lib, stale)
      ensures Rep(None) && sw.history in Since(old(sw.history), sound)
    {
      NoneMore(sw.history, sound);
      var n, made;
      n, made, st := CheckNeighbor(r, ip, action, lib, stale);
      if st == Success {
        FillNeighbor(r, n, ip, made, stale, sound);
      }
    }

    /** Its checks, a slot, and whether the group was made */
    method CheckNeighbor(r: u32, ip: IpUnion, action: Option<PacketAction>, lib: GroupOracle, ghost stale: u32)
        returns (n: nat, made: bool, st: Status)
      requires TablesOk(None) && NbrLists(db.rifs, db.nbrs)
      ensures st == Success ==>
                && RifValid(db, r) && n < NBR_TABLE_SIZE && !db.nbrs[n].used
                && (made <==> !Groupless(db.rifs[r].conf.kind, lib))
      ensures L3Spec.CreateNeighbor(db, r, ip, action, lib, stale)
              == if st != Success then (db, st) else (AddNeighbor(db, r, n, Kept(ip), made, stale), Success)
    {
      n, made := 0, false;
      if r >= RIF_TABLE_SIZE || !rifs[r].valid {
        return n, made, InvalidParameter;
      }
      if action.Some? && !action.value.Forward? {
        return n, made, NotSupported;
      }
      n := FreeNbrSlot();
      if n >= NBR_TABLE_SIZE {
        return n, made, TableFull;
      }
      var _, found := GetMatchNeighborId(r, ip);
      if found == Success {
        return n, made, Failure;
      }
      made, st := CreateGroup(r, lib);
      if st != Success {
        return n, made, Failure;
      }
    }

    /** mrvl_sai_utl_create_l3_unicast_group, as far as its status goes */
    method CreateGroup(r: RifId, lib: GroupOracle) returns (made: bool, st: Status)
      requires TablesOk(None)
      ensures made <==> lib.added && (db.rifs[r].conf.kind.Vlan? ==> lib.fdb.FdbGroup?)
      ensures st == Success <==> if db.rifs[r].conf.kind.Vlan? && !lib.fdb.FdbGroup? then lib.fdb.FdbNoGroup?
                                 else lib.added
    {
      if rifs[r].conf.kind.Vlan? {
        if lib.fdb.FdbFails? {
          return false, Failure;
        }
        if lib.fdb.FdbNoGroup? {
          return false, Success;
        }
      }
      made := lib.added;
      st := if lib.added then Success else Failure;
    }

    /** The part of mrvl_sai_create_neighbor_entry after its checks, up to the next hop of the address. */
    method LinkAndPoint(r: RifId, n: NbrId, ip: IpUnion, made: bool, ghost sound: bool) returns (h: Option<NhId>)
      requires Rep(None) && db.rifs[r].valid && !db.nbrs[n].used && NbrsOk(db) && (sound ==> made)
      requires AllWalkable(db.nhs, db.routes, db.flows)
      modifies this`db, rifs, nbrs, nhs, sw, store`table, store.nodes`entry
      ensures Rep(None) && sw.history in Since(old(sw.history), sound)
      ensures db == UpdateNextHop(LinkNbr(old(db), r, n, Kept(ip), made), r, n, Kept(ip))
      ensures if h.Some? then h.value == FindNh(old(db), r, Kept(ip)) else FindNh(old(db), r, Kept(ip)) == INVALID_ID
    {
      LinkNeighbor(r, n, ip, made);
      assert FindNh(db, r, Kept(ip)) == FindNh(old(db), r, Kept(ip));
      var st;
      h, st := NextHopUpdateNbrId(r, n, nbrs[n].ip, None, sound);
    }

    /** The part of mrvl_sai_create_neighbor_entry after its checks. */
    method FillNeighbor(r: RifId, n: NbrId, ip: IpUnion, made: bool, stale: u32, ghost sound: bool)
      requires Rep(None) && db.rifs[r].valid && !db.nbrs[n].used && NbrsOk(db) && (sound ==> made)
      requires AllWalkable(db.nhs, db.routes, db.flows)
      modifies this`db, rifs, nbrs, nhs, sw, store`table, store.nodes`entry
      ensures Rep(None) && sw.history in Since(old(sw.history), sound)
      ensures db == AddNeighbor(old(db), r, n, Kept(ip), made, stale)
    {
      var h := LinkAndPoint(r, n, ip, made, sound);
      PointedIs(old(db), r, n, Kept(ip), made);
      PointBack(r, n, ip, if h.Some? then h.value else stale, sound);
    }

    /** Its last two writes */
    method PointBack(r: RifId, n: NbrId, ip: IpUnion, h: u32, ghost sound: bool)
      requires Rep(None) && db.rifs[r].valid && (sound ==> n in db.groups)
      modifies this`db, nbrs, sw
      ensures Rep(None) && sw.history in Since(old(sw.history), sound)
      ensures db == AddHost(old(db).(nbrs := SetNextHopOf(old(db).nbrs, n, h)), r, Kept(ip), n)
    {
      NoneMore(sw.history, sound);
      NeighborSetNextHop(n, h);
      if ip.v4 {
        var _ := AddRouteDirect(n, r, ip.word, sound);
      }
    }

    /** mrvl_sai_neighbor_remove_entry_prv: free the group, then cut slot `n` out of the list that starts at `first` */
    method NeighborRemoveEntry(first: u32, n: NbrId, ghost list: seq<NbrId>, ghost sound: bool)
        returns (newFirst: u32, st: Status)
      requires Sized() && NoDup(list) && n in list && first == list[0] && NbrChain(nbrs[..], list)
      requires sw.Valid() && (sound ==> forall c :: c in sw.flows ==> sw.flows[c].group != Some(n))
      modifies nbrs, sw
      ensures sw.Valid() && sw.history in Since(old(sw.history), sound)
      ensures sw.groups == old(sw.groups) - {n} && sw.flows == old(sw.flows)
      ensures st == Success <==> n in old(sw.groups)
      ensures st != Success ==> nbrs[..] == old(nbrs[..])
      ensures st == Success ==>
                && newFirst == Head(Without(list, n), INVALID_ID)
                && NbrChain(nbrs[..], Without(list, n))
                && nbrs[n] == NO_NBR_ROW
                && (forall m: NbrId :: m != n ==> nbrs[m] == old(nbrs[m]).(next := nbrs[m].next))
                && (forall m: NbrId :: m !in list ==> nbrs[m] == old(nbrs[m]))
    {
      newFirst := first;
      var found := sw.DeleteGroup(n, sound);
      if !found {
        return newFirst, Failure;
      }
      newFirst := CutNeighbor(first, n, list);
      st := Success;
    }

    /** Its part behind the group */
    method CutNeighbor(first: u32, n: NbrId, ghost list: seq<NbrId>) returns (newFirst: u32)
      requires Sized() && NoDup(list) && n in list && first == list[0] && NbrChain(nbrs[..], list)
      modifies nbrs
      ensures newFirst == Head(Without(list, n), INVALID_ID) && NbrChain(nbrs[..], Without(list, n))
      ensures nbrs[n] == NO_NBR_ROW
      ensures forall m: NbrId :: m != n ==> nbrs[m] == old(nbrs[m]).(next := nbrs[m].next)
      ensures forall m: NbrId :: m !in list ==> nbrs[m] == old(nbrs[m])
    {
      ghost var p :| 0 <= p < |list| && list[p] == n;
      WithoutAt(list, p);
      assert nbrs[..][list[p]].next == After(list, p);
      if n == first {
        newFirst := nbrs[n].next;
        nbrs[n] := NO_NBR_ROW;
        CutNbrChain(old(nbrs[..]), nbrs[..], list, p);
        return newFirst;
      }
      newFirst := first;
      var last, nbr := WalkToNeighbor(first, n, list, p);
      if n == nbr {
        nbrs[last] := nbrs[last].(next := nbrs[n].next);
        nbrs[n] := NO_NBR_ROW;
        CutNbrChain(old(nbrs[..]), nbrs[..], list, p);
      } else {
        assert false;
      }
    }

    /** Its loop: the element of the list before slot `n`, and that slot */
    method WalkToNeighbor(first: u32, n: NbrId, ghost list: seq<NbrId>, ghost p: nat) returns (last: u32, nbr: u32)
      requires Sized() && NbrChain(nbrs[..], list) && NoDup(list) && 0 < p < |list| && list[p] == n && first == list[0]
      ensures nbr == n && last == list[p - 1]
    {
      last, nbr := first, first;
      ghost var j := 0;
      while n != nbr && nbr != INVALID_ID
        invariant 0 <= j <= p && nbr == list[j] && last == list[if j == 0 then 0 else j - 1]
        decreases p - j
      {
        assert nbrs[..][list[j]].next == After(list, j);
        last := nbr;
        nbr := nbrs[nbr].next;
        j := j + 1;
      }
    }

    /** Slot `n` leaves the list of interface `r`, if it has a group. */
    method UnlinkNeighbor(r: RifId, first: u32, n: NbrId, ghost sound: bool)
      requires TablesOk(None) && SwitchOk() && NbrLists(db.rifs, db.nbrs) && db.nbrs[n].used && db.nbrs[n].rif == r
      requires first == db.rifs[r].nbrs[0]
      requires sound ==> forall c :: c in sw.flows ==> sw.flows[c].group != Some(n)
      modifies this`db, rifs, nbrs, sw
      ensures TablesOk(None) && SwitchOk() && sw.history in Since(old(sw.history), sound)
      ensures db == if n in old(db).groups then UnlinkNbr(old(db), r, n) else old(db)
    {
      var newFirst, st := NeighborRemoveEntry(first, n, db.rifs[r].nbrs, sound);
      if st == Success {
        UnlinkNbrRep(old(rifs[..]), old(nbrs[..]), nbrs[..], nhs[..], db, r, n);
        if newFirst != first {
          var _, added := RifAddFirstNbrId(r, newFirst);
        }
        assert rifs[..] == HeadNbrs(old(rifs[..]), r, Without(db.rifs[r].nbrs, n));
        db := UnlinkNbr(db, r, n);
      }
    }

    /** mrvl_sai_remove_neighbor_entry */
    method RemoveNeighborEntry(r: u32, ip: IpUnion) returns (st: Status)
      requires Valid()
      modifies this`db, rifs, nbrs, nhs, sw, store`table, store.nodes`entry
      ensures (db, st) == L3Spec.RemoveNeighbor(old(db), r, ip)
      ensures Rep(None)
      ensures Valid() <==> Harmless(old(db), RemoveNbrCmd(r, ip))
    {
      RemoveNbrReaches(db, r, ip);
      ReachableLists(db);
      ghost var sound := Harmless(db, RemoveNbrCmd(r, ip));
      FoundReleases(db, r, ip);
      st := TakeNeighbor(r, ip, sound);
      if sound {
        StaysSound(old(sw.history), sw.history);
      }
    }

    /** Its body */
    method TakeNeighbor(r: u32, ip: IpUnion, ghost sound: bool) returns (st: Status)
      requires Rep(None) && NbrLists(db.rifs, db.nbrs)
      requires RifValid(db, r) && FindNbr(db, r, ip) != INVALID_ID ==> Releasable(db, r, FindNbr(db, r, ip), ip, sound)
      modifies this`db, rifs, nbrs, nhs, sw, store`table, store.nodes`entry
      ensures Rep(None) && sw.history in Since(old(sw.history), sound)
              && (db, st) == L3Spec.RemoveNeighbor(old(db), r, ip)
    {
      NoneMore(sw.history, sound);
      var n, found := GetMatchNeighborId(r, ip);
      if found != Success {
        return found;
      }
      ReleaseNeighbor(r, n, ip, sound);
      st := Success;
    }

    /** The part of mrvl_sai_remove_neighbor_entry after its checks. */
    method ReleaseNeighbor(r: RifId, n: NbrId, ip: IpUnion, ghost sound: bool)
      requires Rep(None) && Releasable(db, r, n, ip, sound)
      modifies this`db, rifs, nbrs, nhs, sw, store`table, store.nodes`entry
      ensures Rep(None) && sw.history in Since(old(sw.history), sound) && db == DropAsked(old(db), r, n, ip)
    {
      var first := rifs[r].firstNbr;
      ForgetNeighbor(r, n, ip, None, sound);
      UnlinkNeighbor(r, first, n, sound);
    }

    /** The host entry for an address, and the next hop of a neighbour that is about to go */
    method ForgetNeighbor(r: RifId, n: NbrId, host: IpUnion, ghost hole: Option<RifId>, ghost sound: bool)
      requires Rep(hole) && Releasable(db, r, n, host, sound)
      modifies this`db, nhs, sw, store`table, store.nodes`entry
      ensures Rep(hole) && sw.history in Since(old(sw.history), true) && db == ForgetNbr(old(db), r, n, host)
    {
      NoneMore(sw.history, true);
      if host.v4 {
        var _ := DelRouteDirect(host.word, r);
      }
      var _, _ := NextHopUpdateNbrId(r, INVALID_ID, nbrs[n].ip, hole, true);
    }

    /** One round of the do-while of mrvl_sai_remove_all_neighbor_entries, which has taken the list off its head. */
    method DestroyHead(r: RifId, n: NbrId) returns (next: u32)
      requires Rep(Some(r)) && Releasable(db, r, n, db.nbrs[n].ip, true) && n in db.groups && n == db.rifs[r].nbrs[0]
      modifies this`db, nbrs, nhs, sw, store`table, store.nodes`entry
      ensures Rep(Some(r)) && sw.history in Since(old(sw.history), true) && db == DropNeighbor(old(db), r, n)
      ensures next == Head<nat>(db.rifs[r].nbrs, INVALID_ID)
    {
      ForgetNeighbor(r, n, nbrs[n].ip, Some(r), true);
      next := FreeHead(r, n);
    }

    /** Its writes to the table and the group */
    method FreeHead(r: RifId, n: NbrId) returns (next: u32)
      requires TablesOk(Some(r)) && SwitchOk() && NbrLists(db.rifs, db.nbrs) && db.rifs[r].nbrs != []
               && n == db.rifs[r].nbrs[0]
      requires n in db.groups && forall c :: c in db.flows ==> db.flows[c].group != Some(n)
      modifies this`db, nbrs, sw
      ensures TablesOk(Some(r)) && SwitchOk() && sw.history in Since(old(sw.history), true)
              && db == UnlinkNbr(old(db), r, n)
      ensures next == Head<nat>(db.rifs[r].nbrs, INVALID_ID)
    {
      DestroyHeadRep(rifs[..], nbrs[..], nhs[..], db, r, n);
      next := nbrs[n].next;
      nbrs[n] := NO_NBR_ROW;
      var _ := sw.DeleteGroup(n, true);
      db := UnlinkNbr(db, r, n);
    }

    /** The body of the loop of mrvl_sai_remove_all_neighbor_entries: destroy the list of one interface while
        walking it. */
    method DestroyList(r: RifId)
      requires Rep(None) && db in REACHABLE
      modifies this`db, rifs, nbrs, nhs, sw, store`table, store.nodes`entry
      ensures Rep(None) && sw.history in Since(old(sw.history), true) && db == DrainRif(old(db), r)
    {
      if !rifs[r].valid || !rifs[r].nbrValid {
        ReachableLists(db);
        return;
      }
      var idx := rifs[r].firstNbr;
      var _, st := RifAddFirstNbrId(r, INVALID_ID);
      DetachHead(old(rifs[..]), rifs[..], db.rifs, r);
      DestroyFrom(r, idx);
      AttachEmpty(rifs[..], db.rifs, r);
    }

    /** One round, as the loop around it sees it */
    method DestroyOne(r: RifId, n: NbrId) returns (next: u32)
      requires Rep(Some(r)) && db in REACHABLE && db.rifs[r].nbrs != [] && n == db.rifs[r].nbrs[0]
      modifies this`db, nbrs, nhs, sw, store`table, store.nodes`entry
      ensures Rep(Some(r)) && db in REACHABLE && sw.history in Since(old(sw.history), true)
      ensures DrainRif(db, r) == DrainRif(old(db), r)
      ensures |db.rifs[r].nbrs| < |old(db).rifs[r].nbrs|
      ensures if db.rifs[r].nbrs == [] then next == INVALID_ID else next == db.rifs[r].nbrs[0] != INVALID_ID
    {
      HeadDropped(db, r);
      ReachableReleases(db, r, n);
      next := DestroyHead(r, n);
    }

    /** The do-while itself */
    method DestroyFrom(r: RifId, first: u32)
      requires Rep(Some(r)) && db in REACHABLE && db.rifs[r].nbrs != [] && first == db.rifs[r].nbrs[0]
      modifies this`db, nbrs, nhs, sw, store`table, store.nodes`entry
      ensures Rep(Some(r)) && sw.history in Since(old(sw.history), true)
      ensures db == DrainRif(old(db), r) && db.rifs[r].nbrs == []
    {
      ghost var goal := DrainRif(db, r);
      var idx := first;
      while true
        invariant Rep(Some(r)) && db in REACHABLE && DrainRif(db, r) == goal
        invariant db.rifs[r].nbrs != [] && idx == db.rifs[r].nbrs[0]
        invariant sw.history in Since(old(sw.history), true)
        decreases |db.rifs[r].nbrs|
      {
        idx := DestroyOne(r, idx);
        if idx == INVALID_ID {
          break;
        }
      }
    }

    /** mrvl_sai_remove_all_neighbor_entries */
    method RemoveAllNeighborEntries() returns (st: Status)
      requires Valid()
      modifies this`db, rifs, nbrs, nhs, sw, store`table, store.nodes`entry
      ensures (db, st) == L3Spec.RemoveAllNeighbors(old(db))
      ensures Valid() && Cleared(old(db), db) && sw.history in Since(old(sw.history), true)
    {
      RemoveAllReaches(db);
      ghost var states := RoundsUpTo(db, RIF_TABLE_SIZE);
      DestroyAllLists(states, sw.history);
      StaysSound(old(sw.history), sw.history);
      st := Success;
    }

    /** Its loop over the interfaces; `states` are the states between the rounds. */
    method DestroyAllLists(ghost states: seq<Db>, ghost was: seq<HwState>)
      requires Rep(None) && Rounds(states) && db == states[0] && sw.history in Since(was, true)
      modifies this`db, rifs, nbrs, nhs, sw, store`table, store.nodes`entry
      ensures Rep(None) && db == states[RIF_TABLE_SIZE] && sw.history in Since(was, true)
    {
      var r := 0;
      while r < RIF_TABLE_SIZE
        invariant 0 <= r <= RIF_TABLE_SIZE
        invariant Rep(None) && db == states[r] && sw.history in Since(was, true)
      {
        DestroyNext(r, states, was);
        r := r + 1;
      }
    }

    /** One round of it */
    method DestroyNext(r: RifId, ghost states: seq<Db>, ghost was: seq<HwState>)
      requires Rep(None) && Rounds(states) && db == states[r] && sw.history in Since(was, true)
      modifies this`db, rifs, nbrs, nhs, sw, store`table, store.nodes`entry
      ensures Rep(None) && db == states[r + 1] && sw.history in Since(was, true)
    {
      assert Round(states, r);
      DestroyList(r);
    }

    // ----- Routes -----

    /** An entry on no list is on no ring. */
    lemma OffRings(key: RouteKey)
      requires RoutesOk() && forall g: NhId :: key !in db.nhs[g].routes
      ensures key !in store.ringOf
    {
      OnItsList(store.lists, store.ringOf, key);
    }

    /** mrvl_sai_next_hop_add_route: the entry goes to the tail of the circular list */
    method NextHopAddRoute(h: NhId, key: RouteKey) returns (st: Status)
      requires HopsOk() && RoutesOk() && key in db.routes && key !in store.ringOf
      modifies this`db, store`lists, store`ringOf, store.rings`elems, store.nodes`next, store.nodes`prev
      ensures HopsOk() && RoutesOk()
      ensures st == if old(db).nhs[h].used then Success else ItemNotFound
      ensures db == old(db).(nhs := if old(db).nhs[h].used then JoinRoutes(old(db).nhs, h, key) else old(db).nhs)
    {
      if !nhs[h].used {
        return ItemNotFound;
      }
      LinkEntry(h, key);
      st := Success;
    }

    /** mrvl_sai_utl_dlist_insert_to_tail of it */
    method LinkEntry(h: NhId, key: RouteKey)
      requires HopsOk() && RoutesOk() && key in db.routes && key !in store.ringOf && db.nhs[h].used
      modifies this`db, store`lists, store`ringOf, store.rings`elems, store.nodes`next, store.nodes`prev
      ensures HopsOk() && RoutesOk() && db == old(db).(nhs := JoinRoutes(old(db).nhs, h, key))
    {
      ghost var to := JoinRoutes(db.nhs, h, key);
      JoinedIs(db.nhs, store.lists, h, key);
      RowsIgnoreRoutes(nhs[..], db.nhs, to);
      JoinRing(h, key, to);
      db := db.(nhs := to);
    }

    method JoinRing(h: NhId, key: RouteKey, ghost to: NhTable)
      requires Spelled(db.routes, db.nhs) && key in db.routes && key !in store.ringOf && store.heads[h] != null
      requires ListsMatch(store.lists[h := store.lists[h] + [key]], to)
      modifies store`lists, store`ringOf, store.rings`elems, store.nodes`next, store.nodes`prev
      ensures Spelled(db.routes, to)
    {
      store.Join(h, key);
    }

    /** mrvl_sai_next_hop_del_route: the entry leaves whatever circular list it is on */
    method NextHopDelRoute(h: NhId, key: RouteKey) returns (st: Status)
      requires HopsOk() && RoutesOk() && key in db.routes && forall g: NhId :: g != h ==> key !in db.nhs[g].routes
      modifies this`db, store`lists, store`ringOf, store.rings`elems, store.nodes`next, store.nodes`prev
      ensures HopsOk() && RoutesOk()
      ensures st == if old(db).nhs[h].used then Success else ItemNotFound
      ensures st == Success ==> key !in store.ringOf
      ensures db == old(db).(nhs := if old(db).nhs[h].used then LeaveRoutes(old(db).nhs, h, key) else old(db).nhs)
    {
      if !nhs[h].used {
        return ItemNotFound;
      }
      UnlinkEntry(h, key);
      st := Success;
    }

    /** mrvl_sai_utl_dlist_remove of it */
    method UnlinkEntry(h: NhId, key: RouteKey)
      requires HopsOk() && RoutesOk() && key in db.routes && forall g: NhId :: g != h ==> key !in db.nhs[g].routes
      modifies this`db, store`lists, store`ringOf, store.rings`elems, store.nodes`next, store.nodes`prev
      ensures HopsOk() && RoutesOk() && key !in store.ringOf && db == old(db).(nhs := LeaveRoutes(old(db).nhs, h, key))
    {
      ghost var to := LeaveRoutes(db.nhs, h, key);
      LeftIs(db.nhs, store.lists, store.ringOf, h, key);
      RowsIgnoreRoutes(nhs[..], db.nhs, to);
      LeaveRing(key, to);
      db := db.(nhs := to);
    }

    method LeaveRing(key: RouteKey, ghost to: NhTable)
      requires Spelled(db.routes, db.nhs) && key in db.routes && ListsMatch(LeftBy(store.lists, store.ringOf, key), to)
      modifies store`lists, store`ringOf, store.rings`elems, store.nodes`next, store.nodes`prev
      ensures Spelled(db.routes, to) && key !in store.ringOf
    {
      store.Leave(key);
    }

    /** mrvl_sai_utl_DeleteHash */
    method DeleteEntry(key: RouteKey)
      requires RoutesOk() && key in db.routes && key !in store.ringOf
      modifies this`db, store`entries, store`table
      ensures RoutesOk() && db == old(db).(routes := old(db).routes - {key})
    {
      EntryIs(key);
      store.Delete(key);
      RowsUpdated(db.routes, key, db.routes[key]);
      db := db.(routes := db.routes - {key});
    }

    /** mrvl_sai_get_route_prv */
    method GetRoutePrv(key: RouteKey) returns (st: Status)
      requires vrs.Length == VR_TABLE_SIZE && vrs[..] == db.vrs && RoutesOk()
      ensures st == LookupRoute(db, key)
      ensures st == Success ==> key in store.entries && store.entries[key].entry == RowOf(key, db.routes[key])
    {
      if key.vr >= VR_TABLE_SIZE || !vrs[key.vr].valid {
        return InvalidParameter;
      }
      assert store.Entered();
      if key !in store.entries {
        return ItemNotFound;
      }
      st := Success;
    }

    /** The checks and the entry of mrvl_sai_create_route, before the table is looked at */
    method MakeRoute(key: RouteKey, action: PacketAction, target: Option<RouteTarget>)
        returns (row: RouteRow, st: Status)
      requires TablesOk(None)
      ensures row == RowOf(key, NewRoute(db, key, action, target).0) && st == NewRoute(db, key, action, target).1
    {
      var trapExt := false;
      row := RouteRow(key, action, false, 0, if action.Trap? then NBR_TRAP_ID else NBR_DROP_ID);
      st := Success;
      match target {
        case None =>
        case Some(ToNextHop(h)) =>
          if !nhs[h].used {
            return row, ItemNotFound;
          }
          var r := nhs[h].rif;
          if !rifs[r].valid || rifs[r].conf.vr != key.vr {
            return row, InvalidParameter;
          }
          row := row.(nhIdx := h, nhValid := true);
          if action.Forward? {
            row := row.(nbrIdx := nhs[h].nbrId);
          }
        case Some(ToPort(p)) =>
          if p != CPU_PORT {
            return row, InvalidPortNumber;
          }
          trapExt := true;
        case Some(ToRif(_)) =>
          trapExt := true;
        case Some(ToUnknown) =>
          return row, InvalidParameter;
      }
      if action.Forward? && trapExt {
        row := row.(action := Trap, nbrIdx := NBR_TRAP_ID);
      }
    }

    /** mrvl_sai_create_route */
    method CreateRoute(key: RouteKey, priority: Option<u32>, action: Option<PacketAction>, target: Option<RouteTarget>)
        returns (st: Status)
      requires Valid()
      modifies this`db, sw, store`entries, store`table, store`lists, store`ringOf, store.rings`elems, store.nodes,
               store`nodes, store`Repr
      ensures (db, st) == L3Spec.CreateRoute(old(db), key, priority, action, target)
      ensures Valid() && sw.history in Since(old(sw.history), true) && fresh(store.Repr - old(store.Repr))
    {
      CreateRouteReaches(db, key, priority, action, target);
      ReachableRoutes(db, key);
      st := BuildRoute(key, priority, action, target);
      StaysSound(old(sw.history), sw.history);
    }

    /** Only route lists have changed in the tables. */
    lemma SameTables(was: Db)
      requires Tabled(was.vrs, was.mtus, was.rifs, was.nbrs, was.nhs, None) && HopsOk()
      requires db.vrs == was.vrs && db.mtus == was.mtus && db.rifs == was.rifs && db.nbrs == was.nbrs
      ensures TablesOk(None)
    {
    }

    /** Its body */
    method BuildRoute(key: RouteKey, priority: Option<u32>, action: Option<PacketAction>, target: Option<RouteTarget>)
        returns (st: Status)
      requires TablesOk(None) && RoutesOk() && SwitchOk() && Named(db.nhs, db.groups) && Housed(db, key)
      modifies this`db, sw, store`entries, store`table, store`lists, store`ringOf, store.rings`elems, store.nodes,
               store`nodes, store`Repr
      ensures Rep(None) && (db, st) == L3Spec.CreateRoute(old(db), key, priority, action, target)
      ensures sw.history in Since(old(sw.history), true) && fresh(store.Repr - old(store.Repr))
    {
      var row;
      ghost var route;
      row, st, route := CheckRoute(key, priority, action, target);
      if st == Success {
        EntersSameTables(db, key, route);
        st := EnterRoute(row, route);
        SameTables(old(db));
      }
    }

    /** Its checks, and the entry */
    method CheckRoute(key: RouteKey, priority: Option<u32>, action: Option<PacketAction>, target: Option<RouteTarget>)
        returns (row: RouteRow, st: Status, ghost route: Route)
      requires TablesOk(None)
      ensures L3Spec.CreateRoute(db, key, priority, action, target)
              == if st != Success then (db, st) else L3Spec.EnterRoute(db, key, route)
      ensures st == Success ==> row == RowOf(key, route) && Enterable(db.nhs, route)
    {
      row, route := NO_ROUTE_ROW, Route(Forward, false, 0, 0, false);
      if priority.Some? && priority.value != 0 {
        st := NotSupported;
        return;
      }
      var act := if action.Some? then action.value else Forward;
      if !Settable(act) {
        st := NotSupported;
        return;
      }
      if key.vr >= VR_TABLE_SIZE || !vrs[key.vr].valid {
        st := InvalidParameter;
        return;
      }
      NewRouteFits(db, key, act, target);
      route := NewRoute(db, key, act, target).0;
      row, st := MakeRoute(key, act, target);
    }

    /** The part of mrvl_sai_create_route that looks at the table */
    method EnterRoute(row: RouteRow, ghost route: Route) returns (st: Status)
      requires HopsOk() && RoutesOk() && SwitchOk() && row == RowOf(row.key, route)
      requires Named(db.nhs, db.groups) && Housed(db, row.key)
      requires Enterable(db.nhs, route)
      modifies this`db, sw, store`entries, store`table, store`lists, store`ringOf, store.rings`elems, store.nodes,
               store`nodes, store`Repr
      ensures HopsOk() && RoutesOk() && SwitchOk() && sw.history in Since(old(sw.history), true)
      ensures fresh(store.Repr - old(store.Repr))
      ensures (db, st) == L3Spec.EnterRoute(old(db), row.key, route)
    {
      st := CheckTable(row.key);
      if st == Success {
        st := InsertRoute(row, route);
      }
    }

    /** What the hash answers to the insertion */
    method CheckTable(key: RouteKey) returns (st: Status)
      requires RoutesOk()
      ensures st == if key in db.routes then ItemAlreadyExists
                    else if |db.routes| >= ROUTE_TABLE_SIZE then TableFull else Success
    {
      SameSize(db.routes, store.table);
      assert store.Entered();
      if key in store.entries {
        return ItemAlreadyExists;
      }
      assert |store.entries.Keys| == |store.table.Keys|;
      if |store.entries| >= ROUTE_TABLE_SIZE {
        return TableFull;
      }
      st := Success;
    }

    /** The part of mrvl_sai_create_route after its checks: table, switch, route list */
    method InsertRoute(row: RouteRow, ghost route: Route) returns (st: Status)
      requires HopsOk() && RoutesOk() && SwitchOk() && row == RowOf(row.key, route)
      requires row.key !in db.routes && RouteCookie(row.key) !in db.flows
      requires !Refused(route) ==>
                 && (route.nhValid ==> db.nhs[route.nhIdx].used)
                 && (Compile(row.key, route).group.Some? ==> Compile(row.key, route).group.value in db.groups)
      modifies this`db, sw, store`entries, store`table, store`lists, store`ringOf, store.rings`elems, store.nodes,
               store`nodes, store`Repr
      ensures HopsOk() && RoutesOk() && SwitchOk() && sw.history in Since(old(sw.history), true)
      ensures fresh(store.Repr - old(store.Repr))
      ensures st == if Refused(route) then InvalidParameter else Success
      ensures db == if Refused(route) then old(db) else AddRoute(old(db), row.key, route)
    {
      st := InsertAndCompile(row, route);
      if st == Success && row.nhValid {
        st := NextHopAddRoute(row.nhIdx, row.key);
      }
    }

    /** The part of it that may fail; then the entry goes again. */
    method InsertAndCompile(row: RouteRow, ghost route: Route) returns (st: Status)
      requires RoutesOk() && SwitchOk() && row == RowOf(row.key, route)
      requires row.key !in db.routes && RouteCookie(row.key) !in db.flows
      requires !Refused(route) && Compile(row.key, route).group.Some? ==>
                 Compile(row.key, route).group.value in db.groups
      modifies this`db, sw, store`entries, store`table, store`nodes, store`Repr
      ensures RoutesOk() && SwitchOk() && sw.history in Since(old(sw.history), true)
      ensures fresh(store.Repr - old(store.Repr)) && fresh(store.nodes - old(store.nodes)) && row.key !in store.ringOf
      ensures st == if Refused(route) then InvalidParameter else Success
      ensures db == if Refused(route) then old(db)
                    else old(db).(routes := old(db).routes[row.key := route],
                                  flows := Recompile(old(db).flows, row.key, route))
    {
      ghost var was := db.routes;
      InsertEntry(row, route);
      st := CompileEntry(row, route);
      if st != Success {
        DeleteEntry(row.key);
        assert db.routes == was;
      }
    }

    /** mrvl_sai_utl_InsertHash */
    method InsertEntry(row: RouteRow, ghost route: Route)
      requires RoutesOk() && row == RowOf(row.key, route) && row.key !in db.routes
      modifies this`db, store`entries, store`table, store`nodes, store`Repr
      ensures RoutesOk() && row.key !in store.ringOf
      ensures fresh(store.Repr - old(store.Repr)) && fresh(store.nodes - old(store.nodes))
      ensures db == old(db).(routes := old(db).routes[row.key := route])
    {
      store.Insert(row);
      RowsUpdated(db.routes, row.key, route);
      db := db.(routes := db.routes[row.key := route]);
    }

    method CompileEntry(row: RouteRow, ghost route: Route) returns (st: Status)
      requires SwitchOk() && row == RowOf(row.key, route) && RouteCookie(row.key) !in db.flows
      requires !Refused(route) && Compile(row.key, route).group.Some? ==>
                 Compile(row.key, route).group.value in db.groups
      modifies this`db, sw
      ensures SwitchOk() && sw.history in Since(old(sw.history), true)
              && st == if Refused(route) then InvalidParameter else Success
      ensures db == if Refused(route) then old(db) else old(db).(flows := Recompile(old(db).flows, row.key, route))
    {
      st := CreateRoutePrv(row.key, row, route, true);
      db := if Refused(route) then db else db.(flows := Recompile(db.flows, row.key, route));
    }

    /** mrvl_sai_remove_route */
    method RemoveRoute(key: RouteKey) returns (st: Status)
      requires Valid()
      modifies this`db, sw, store`entries, store`table, store`lists, store`ringOf, store.rings`elems, store.nodes
      ensures (db, st) == L3Spec.RemoveRoute(old(db), key)
      ensures Valid() && sw.history in Since(old(sw.history), true)
    {
      RemoveRouteReaches(db, key);
      ReachableRoutes(db, key);
      st := TakeRoute(key);
      StaysSound(old(sw.history), sw.history);
    }

    /** Its body */
    method TakeRoute(key: RouteKey) returns (st: Status)
      requires Rep(None) && Housed(db, key)
      modifies this`db, sw, store`entries, store`table, store`lists, store`ringOf, store.rings`elems, store.nodes
      ensures Rep(None) && sw.history in Since(old(sw.history), true) && (db, st) == L3Spec.RemoveRoute(old(db), key)
    {
      st := GetRoutePrv(key);
      if st != Success {
        return ItemNotFound;
      }
      st := DeleteRoute(key);
      SameTables(old(db));
    }

    /** The part of mrvl_sai_remove_route after the lookup */
    method DeleteRoute(key: RouteKey) returns (st: Status)
      requires HopsOk() && RoutesOk() && SwitchOk() && key in db.routes && Housed(db, key)
      modifies this`db, sw, store`entries, store`table, store`lists, store`ringOf, store.rings`elems, store.nodes
      ensures HopsOk() && RoutesOk() && SwitchOk() && sw.history in Since(old(sw.history), true)
      ensures db == DropRoute(old(db), key) && st == Success
    {
      var _ := sw.DeleteFlow(RouteCookie(key));
      db := db.(flows := db.flows - {RouteCookie(key)});
      LeaveList(key);
      DeleteEntry(key);
      st := Success;
    }

    /** The entry leaves the list of its next hop, if it has one. */
    method LeaveList(key: RouteKey)
      requires HopsOk() && RoutesOk() && key in db.routes && OnOwn(db.nhs, key, db.routes[key])
      modifies this`db, store`lists, store`ringOf, store.rings`elems, store.nodes`next, store.nodes`prev
      ensures HopsOk() && RoutesOk() && key !in store.ringOf
      ensures var was := old(db).routes[key];
              db == old(db).(nhs := if was.nhValid then LeaveRoutes(old(db).nhs, was.nhIdx, key) else old(db).nhs)
    {
      EntryIs(key);
      var row := store.entries[key].entry;
      if row.nhValid {
        var _ := NextHopDelRoute(row.nhIdx, key);
      } else {
        OffRings(key);
      }
    }

    /** mrvl_sai_route_packet_action_set_prv */
    method SetRouteAction(key: RouteKey, action: PacketAction) returns (st: Status)
      requires Valid()
      modifies this`db, sw, store`entries, store`table, store`lists, store`ringOf, store.rings`elems, store.nodes
      ensures (db, st) == L3Spec.SetRouteAction(old(db), key, action)
      ensures Valid() && sw.history in Since(old(sw.history), true)
    {
      SetActionReaches(db, key, action);
      ReachableRoutes(db, key);
      st := ApplyAction(key, action);
      StaysSound(old(sw.history), sw.history);
    }

    /** Its body */
    method ApplyAction(key: RouteKey, action: PacketAction) returns (st: Status)
      requires Rep(None) && Named(db.nhs, db.groups) && Housed(db, key)
      modifies this`db, sw, store`entries, store`table, store`lists, store`ringOf, store.rings`elems, store.nodes
      ensures Rep(None) && sw.history in Since(old(sw.history), true)
              && (db, st) == L3Spec.SetRouteAction(old(db), key, action)
    {
      st := CheckAction(key, action);
      if st == Success && action != store.entries[key].entry.action {
        st := RewriteAction(key, action);
        SameTables(old(db));
      }
    }

    /** Its checks */
    method CheckAction(key: RouteKey, action: PacketAction) returns (st: Status)
      requires TablesOk(None) && RoutesOk()
      ensures st == if LookupRoute(db, key) != Success then LookupRoute(db, key)
                    else if !Settable(action) then NotSupported else Success
      ensures st == Success ==> key in store.entries && store.entries[key].entry == RowOf(key, db.routes[key])
    {
      st := GetRoutePrv(key);
      if st == Success && !Settable(action) {
        st := NotSupported;
      }
    }

    /** The part of mrvl_sai_route_packet_action_set_prv for an action that is new */
    method RewriteAction(key: RouteKey, action: PacketAction) returns (st: Status)
      requires HopsOk() && RoutesOk() && SwitchOk() && key in db.routes && Settable(action)
      requires Named(db.nhs, db.groups) && Housed(db, key)
      modifies this`db, sw, store`entries, store`table, store`lists, store`ringOf, store.rings`elems, store.nodes
      ensures HopsOk() && RoutesOk() && SwitchOk() && sw.history in Since(old(sw.history), true)
      ensures db == ChangeAction(old(db), key, action)
      ensures st == if Refused(old(db).routes[key].(action := action)) then InvalidParameter else Success
    {
      var moved := ActAndFollow(key, action);
      ActionChanged(old(db), db, key, action, moved);
      st := RecompileAndPlace(key, moved);
    }

    /** Its last part: the flow entry, and the list if the entry has left it */
    method RecompileAndPlace(key: RouteKey, moved: bool) returns (st: Status)
      requires HopsOk() && RoutesOk() && SwitchOk() && key in db.routes && RouteCookie(key) in db.flows
      requires Placeable(db, key, moved) && (moved || Refused(db.routes[key]) ==> key !in store.ringOf)
      modifies this`db, sw, store`entries, store`table, store`lists, store`ringOf, store.rings`elems, store.nodes
      ensures HopsOk() && RoutesOk() && SwitchOk() && sw.history in Since(old(sw.history), true)
      ensures db == PutBack(old(db), key, moved)
              && st == if Refused(old(db).routes[key]) then InvalidParameter else Success
    {
      EntryIs(key);
      var e := store.entries[key];
      st := RecompileEntry(e, key, true);
      if st != Success {
        DeleteEntry(key);
      } else if moved {
        st := NextHopAddRoute(e.entry.nhIdx, key);
      }
    }

    /** The first part: the new action, and the id that the next hop caches now */
    method ActAndFollow(key: RouteKey, action: PacketAction) returns (moved: bool)
      requires HopsOk() && RoutesOk() && key in db.routes && OnOwn(db.nhs, key, db.routes[key])
      modifies this`db, store`table, store`lists, store`ringOf, store.rings`elems, store.nodes
      ensures HopsOk() && RoutesOk()
      ensures Followed(WithAction(old(db), key, action), db, key, moved)
      ensures moved || !old(db).routes[key].nhValid ==> key !in store.ringOf
    {
      WriteAction(key, action);
      moved := FollowNextHop(key);
    }

    method WriteAction(key: RouteKey, action: PacketAction)
      requires RoutesOk() && key in db.routes
      modifies this`db, store`table, store.nodes`entry
      ensures RoutesOk() && db == WithAction(old(db), key, action)
    {
      EntryIs(key);
      var e := store.entries[key];
      WriteEntry(e, e.entry.(action := action), key, db.routes[key].(action := action));
    }

    /** A route with a next hop takes over the id that one caches, and leaves its list if that changes the id. */
    method FollowNextHop(key: RouteKey) returns (moved: bool)
      requires HopsOk() && RoutesOk() && key in db.routes && OnOwn(db.nhs, key, db.routes[key])
      modifies this`db, store`table, store`lists, store`ringOf, store.rings`elems, store.nodes
      ensures HopsOk() && RoutesOk()
      ensures Followed(old(db), db, key, moved)
      ensures moved || !old(db).routes[key].nhValid ==> key !in store.ringOf
    {
      ghost var was, hops := db.routes[key], db.nhs;
      EntryIs(key);
      var row := store.entries[key].entry;
      var id := if row.nhValid then nhs[row.nhIdx].nbrId else row.nbrIdx;
      moved := id != row.nbrIdx;
      if moved || !row.nhValid {
        LeaveList(key);
      }
      WriteId(key, id, TakeOver(was, hops));
    }

    method WriteId(key: RouteKey, id: u32, ghost route: Route)
      requires RoutesOk() && key in db.routes && RowOf(key, route) == RowOf(key, db.routes[key]).(nbrIdx := id)
      modifies this`db, store`table, store.nodes`entry
      ensures RoutesOk() && db == old(db).(routes := old(db).routes[key := route])
    {
      EntryIs(key);
      var e := store.entries[key];
      WriteEntry(e, e.entry.(nbrIdx := id), key, route);
    }

    /** mrvl_sai_route_next_hop_id_set_prv, for a next hop */
    method SetRouteNextHop(key: RouteKey, h: NhId) returns (st: Status)
      requires Valid()
      modifies this`db, sw, store`table, store`lists, store`ringOf, store.rings`elems, store.nodes
      ensures (db, st) == L3Spec.SetRouteNextHop(old(db), key, h)
      ensures Rep(None) && sw.history in Since(old(sw.history), true)
      ensures Valid() <==> Harmless(old(db), SetNextHopCmd(key, h))
    {
      SetNextHopReaches(db, key, h);
      ReachableRoutes(db, key);
      st := ApplyNextHop(key, h);
      StaysSound(old(sw.history), sw.history);
    }

    /** Its body */
    method ApplyNextHop(key: RouteKey, h: NhId) returns (st: Status)
      requires Rep(None) && Named(db.nhs, db.groups) && Housed(db, key)
      modifies this`db, sw, store`table, store`lists, store`ringOf, store.rings`elems, store.nodes
      ensures Rep(None) && sw.history in Since(old(sw.history), true)
              && (db, st) == L3Spec.SetRouteNextHop(old(db), key, h)
    {
      st := GetRoutePrv(key);
      if st == Success && (!store.entries[key].entry.nhValid || store.entries[key].entry.nhIdx != h) {
        st := RewriteNextHop(key, h);
        SameTables(old(db));
      }
    }

    /** The part of mrvl_sai_route_next_hop_id_set_prv for a next hop that is new */
    method RewriteNextHop(key: RouteKey, h: NhId) returns (st: Status)
      requires HopsOk() && RoutesOk() && SwitchOk() && key in db.routes && Named(db.nhs, db.groups) && Housed(db, key)
      modifies this`db, sw, store`table, store`lists, store`ringOf, store.rings`elems, store.nodes
      ensures HopsOk() && RoutesOk() && SwitchOk() && sw.history in Since(old(sw.history), true)
      ensures db == ChangeNextHop(old(db), key, h)
      ensures st == if old(db).nhs[h].used then Success else ItemNotFound
    {
      LeaveFor(key, h);
      HopChanged(old(db), key, h);
      EntryIs(key);
      st := RecompileEntry(store.entries[key], key, true);
      if st != Success {
        assert false;
      }
      st := NextHopAddRoute(h, key);
    }

    /** The entry leaves its list, takes over the id the new next hop caches if it had one before, and names the new
        one. */
    method LeaveFor(key: RouteKey, h: NhId)
      requires HopsOk() && RoutesOk() && key in db.routes && OnOwn(db.nhs, key, db.routes[key])
      modifies this`db, store`table, store`lists, store`ringOf, store.rings`elems, store.nodes
      ensures HopsOk() && RoutesOk() && key !in store.ringOf
      ensures db == Rehopped(old(db), key, h)
    {
      ghost var route := Rehopped(db, key, h).routes[key];
      LeaveList(key);
      WriteHop(key, h, route);
    }

    method WriteHop(key: RouteKey, h: NhId, ghost route: Route)
      requires HopsOk() && RoutesOk() && key in db.routes
      requires var was := db.routes[key];
               route == if was.nhValid && db.nhs[h].used then TakeOver(was.(nhValid := true, nhIdx := h), db.nhs)
                        else was.(nhValid := true, nhIdx := h)
      modifies this`db, store`table, store.nodes`entry
      ensures RoutesOk() && db == old(db).(routes := old(db).routes[key := route])
    {
      EntryIs(key);
      var e := store.entries[key];
      var row := e.entry;
      if row.nhValid && nhs[h].used {
        row := row.(nbrIdx := nhs[h].nbrId);
      }
      row := row.(nhValid := true, nhIdx := h);
      WriteEntry(e, row, key, route);
    }

    // ----- Virtual routers -----

    /** mrvl_sai_create_virtual_router */
    method CreateVirtualRouter(v4: Option<bool>, v6: Option<bool>) returns (st: Status)
      requires Valid()
      modifies this`db, vrs
      ensures (db, st) == L3Spec.CreateVirtualRouter(old(db), v4, v6)
      ensures Valid()
    {
      CreateVrReaches(db, v4, v6);
      st := FillVirtualRouter(v4, v6);
    }

    /** Its body */
    method FillVirtualRouter(v4: Option<bool>, v6: Option<bool>) returns (st: Status)
      requires TablesOk(None)
      modifies this`db, vrs
      ensures TablesOk(None) && (db, st) == L3Spec.CreateVirtualRouter(old(db), v4, v6)
    {
      if v4 == Some(false) || v6 == Some(false) {
        return InvalidParameter;
      }
      var v := 0;
      while v < VR_TABLE_SIZE && vrs[v].valid
        invariant 0 <= v <= VR_TABLE_SIZE
        invariant forall w :: 0 <= w < v ==> vrs[..][w].valid
      {
        v := v + 1;
      }
      if v >= VR_TABLE_SIZE {
        return TableFull;
      }
      vrs[v] := vrs[v].(valid := true);
      vrs[v] := vrs[v].(rifRefs := 0);
      db := db.(vrs := db.vrs[v := Vr(true, 0)]);
      st := Success;
    }

    /** mrvl_sai_remove_virtual_router */
    method RemoveVirtualRouter(v: u32) returns (st: Status)
      requires Valid()
      modifies this`db, vrs
      ensures (db, st) == L3Spec.RemoveVirtualRouter(old(db), v)
      ensures Valid()
    {
      RemoveVrReaches(db, v);
      if v >= VR_TABLE_SIZE || !vrs[v].valid || vrs[v].rifRefs > 0 {
        return Failure;
      }
      vrs[v] := NO_VR;
      db := db.(vrs := db.vrs[v := NO_VR]);
      st := Success;
    }

    /** mrvl_sai_virtual_router_update_referance_cntr */
    method UpdateReferenceCounter(v: u32, add: bool) returns (st: Status)
      requires Sized() && vrs[..] == db.vrs
      modifies this`db, vrs
      ensures vrs[..] == db.vrs
      ensures db == if v < VR_TABLE_SIZE then old(db).(vrs := CountRef(old(db).vrs, v, add)) else old(db)
      ensures st == Success <==>
                v < VR_TABLE_SIZE && old(db).vrs[v].valid && (add || old(db).vrs[v].rifRefs > 0)
    {
      if v >= VR_TABLE_SIZE || !vrs[v].valid {
        return Failure;
      }
      if add {
        vrs[v] := vrs[v].(rifRefs := vrs[v].rifRefs + 1);
      } else {
        if vrs[v].rifRefs == 0 {
          return Failure;
        }
        vrs[v] := vrs[v].(rifRefs := vrs[v].rifRefs - 1);
      }
      db := db.(vrs := CountRef(db.vrs, v, add));
      st := Success;
    }

    // ----- Router interfaces -----

    /** mrvl_sai_rif_get_mtu_size */
    method RifGetMtuSize(r: u32) returns (size: Option<u32>)
      requires TablesOk(None)
      ensures size == GetMtu(db, r)
    {
      if r >= RIF_TABLE_SIZE || !rifs[r].valid {
        return None;
      }
      var mtuIdx := rifs[r].conf.mtuIdx;
      size := Some(mtus[mtuIdx].size);
    }

    /** The profile search of mrvl_sai_create_router_interface: the profile of that size, else the first empty one */
    method FindMtuProfile(size: u32) returns (m: Option<MtuId>)
      requires TablesOk(None)
      ensures MtuSlot(db.mtus, size) == if m.Some? then m.value else MTU_TABLE_SIZE
    {
      var foundEmpty := false;
      m := None;
      var i := 0;
      while i < MTU_TABLE_SIZE
        invariant 0 <= i <= MTU_TABLE_SIZE
        invariant forall j :: 0 <= j < i ==> db.mtus[j].size != size
        invariant foundEmpty == m.Some?
        invariant if m.Some? then
                    m.value < i && db.mtus[m.value].size == 0 && forall j :: 0 <= j < m.value ==> db.mtus[j].size != 0
                  else forall j :: 0 <= j < i ==> db.mtus[j].size != 0
      {
        if mtus[i].size == size {
          m := Some(i);
          break;
        } else if !foundEmpty && mtus[i].size == 0 {
          m := Some(i);
          foundEmpty := true;
        }
        i := i + 1;
      }
    }

    /** The slot search of mrvl_sai_create_router_interface */
    method FreeRifSlot() returns (r: Option<RifId>)
      requires TablesOk(None)
      ensures FreeRif(db.rifs) == if r.Some? then r.value else RIF_TABLE_SIZE
    {
      var i := 0;
      while i < RIF_TABLE_SIZE
        invariant 0 <= i <= RIF_TABLE_SIZE
        invariant forall q: RifId :: q < i ==> db.rifs[q].valid
      {
        if !rifs[i].valid {
          return Some(i);
        }
        i := i + 1;
      }
      r := None;
    }

    /** The loop over the other interfaces that decides which of the shared entries to touch */
    method FindSharing(r: RifId, kind: IntfKind, portVlan: u32, vr: VrId) returns (ownVr: bool, ownPort: bool)
      requires TablesOk(None)
      ensures ownVr == !Shared(db.rifs, r, kind, portVlan, Some(vr))
      ensures ownPort == !Shared(db.rifs, r, kind, portVlan, None)
    {
      ownVr, ownPort := true, true;
      var i := 0;
      while i < RIF_TABLE_SIZE
        invariant 0 <= i <= RIF_TABLE_SIZE
        invariant if ownVr then forall q: RifId :: q < i ==> !SharesWith(db.rifs, q, r, kind, portVlan, Some(vr))
                  else Shared(db.rifs, r, kind, portVlan, Some(vr))
        invariant if ownPort then forall q: RifId :: q < i ==> !SharesWith(db.rifs, q, r, kind, portVlan, None)
                  else Shared(db.rifs, r, kind, portVlan, None)
      {
        assert db.rifs[i].valid == rifs[..][i].valid && db.rifs[i].conf == rifs[..][i].conf;
        if i != r && rifs[i].valid {
          if rifs[i].conf.kind == kind && rifs[i].conf.portVlan == portVlan {
            assert SharesWith(db.rifs, i, r, kind, portVlan, None);
            ownPort := false;
            if rifs[i].conf.vr == vr {
              assert SharesWith(db.rifs, i, r, kind, portVlan, Some(vr));
              ownVr := false;
            }
          }
          if !ownVr && !ownPort {
            break;
          }
        }
        i := i + 1;
      }
    }

    /** A run of calls into the switch library, up to the first that fails */
    method MakeCalls(calls: seq<(RifCall, bool)>, fpa: RifOracle) returns (st: Status)
      ensures st == FirstFailure(calls, fpa)
    {
      var i := 0;
      while i < |calls|
        invariant 0 <= i <= |calls|
        invariant FirstFailure(calls, fpa) == FirstFailure(calls[i..], fpa)
      {
        assert calls[i..][1..] == calls[i + 1..];
        var s := fpa(calls[i].0);
        if !s.FpaOk? && !(s.FpaAlreadyExist? && calls[i].1) {
          return ToStatus(s);
        }
        i := i + 1;
      }
      st := Success;
    }

    /** mrvl_sai_remove_router_interface */
    method RemoveRouterInterface(r: RifId, fpa: RifOracle) returns (st: Status)
      requires Valid()
      modifies this`db, vrs, mtus, rifs
      ensures (db, st) == L3Spec.RemoveRif(old(db), r, fpa)
      ensures Valid()
    {
      RemoveRifReaches(db, r, fpa);
      st := TakeInterface(r, fpa);
    }

    /** Its body */
    method TakeInterface(r: RifId, fpa: RifOracle) returns (st: Status)
      requires TablesOk(None)
      modifies this`db, vrs, mtus, rifs
      ensures TablesOk(None) && (db, st) == L3Spec.RemoveRif(old(db), r, fpa)
    {
      if !rifs[r].valid {
        return ItemNotFound;
      }
      if rifs[r].nbrValid || rifs[r].nhValid {
        return Failure;
      }
      var conf := rifs[r].conf;
      if conf.kind.Port? || conf.kind.Vlan? {
        var ownVr, ownPort := FindSharing(r, conf.kind, conf.portVlan, conf.vr);
        st := MakeCalls([(DelTermV4, false), (DelTermV6, false)]
                        + (if ownVr then [(DelVrId, false)] else [])
                        + (if ownPort then [(DelControl, false), (DelFdb, false)] else []), fpa);
        if st != Success {
          return;
        }
      }
      if mtus[conf.mtuIdx].refs == 0 {
        return Failure;
      }
      FreeRifRow(r);
      st := Success;
    }

    /** The database part of mrvl_sai_remove_router_interface */
    method FreeRifRow(r: RifId)
      requires TablesOk(None) && db.rifs[r].nbrs == [] && db.rifs[r].nhs == []
      requires db.mtus[db.rifs[r].conf.mtuIdx].refs > 0
      modifies this`db, vrs, mtus, rifs
      ensures TablesOk(None)
      ensures db == old(db).(mtus := ReleaseMtu(old(db).mtus, old(db).rifs[r].conf.mtuIdx),
                             vrs := CountRef(old(db).vrs, old(db).rifs[r].conf.vr, false),
                             rifs := old(db).rifs[r := NO_RIF])
    {
      var conf := rifs[r].conf;
      var m := conf.mtuIdx;
      mtus[m] := mtus[m].(refs := mtus[m].refs - 1);
      if mtus[m].refs == 0 {
        mtus[m] := mtus[m].(size := 0);
      }
      assert mtus[..] == ReleaseMtu(db.mtus, m);
      db := db.(mtus := ReleaseMtu(db.mtus, m));
      var _ := UpdateReferenceCounter(conf.vr, false);
      SwapRifRep(rifs[..], nbrs[..], nhs[..], db.rifs, db.nbrs, db.nhs, r, NO_RIF_ROW, NO_RIF);
      rifs[r] := NO_RIF_ROW;
      db := db.(rifs := db.rifs[r := NO_RIF]);
    }

    /** The calls into the switch library of mrvl_sai_create_router_interface. Where one of the middle ones fails the
        source removes the interface it has not entered yet. */
    method ConfigureSwitch(r: RifId, a: RifAttrs, portVlan: u32, vr: VrId, fpa: RifOracle) returns (st: Status)
      requires TablesOk(None) && !db.rifs[r].valid && !a.kind.Loopback? && vr == a.vr
      modifies this`db, vrs, mtus, rifs
      ensures TablesOk(None) && db == old(db) && st == FirstFailure(CreateCalls(db, r, a, portVlan), fpa)
    {
      ghost var t := TermCalls(a.v4, a.v6);
      st := MakeCalls((if a.v4 then [(InitTermV4, false), (AddTermV4, false)] else [])
                      + (if a.v6 then [(InitTermV6, false), (AddTermV6, false)] else []), fpa);
      var ownVr, ownPort := FindSharing(r, rifs[r].conf.kind, portVlan, vr);
      ghost var v: seq<(RifCall, bool)> := if ownVr then VR_CALLS else [];
      ghost var c: seq<(RifCall, bool)> := if ownPort then CONTROL_CALLS + FDB_CALLS else [];
      assert CreateCalls(db, r, a, portVlan) == t + v + c;
      FirstFailureConcat(t + v, c, fpa);
      FirstFailureConcat(t, v, fpa);
      FirstFailureConcat(CONTROL_CALLS, FDB_CALLS, fpa);
      if st != Success {
        return;
      }
      if ownVr {
        st := MakeCalls(VR_CALLS, fpa);
        if st != Success {
          var _ := TakeInterface(r, fpa);
          return;
        }
      }
      if ownPort {
        st := MakeCalls(CONTROL_CALLS, fpa);
        if st != Success {
          var _ := TakeInterface(r, fpa);
          return;
        }
        st := MakeCalls(FDB_CALLS, fpa);
      }
    }

    /** mrvl_sai_create_router_interface */
    method CreateRouterInterface(a: RifAttrs, fpa: RifOracle) returns (st: Status)
      requires Valid()
      modifies this`db, vrs, mtus, rifs
      ensures (db, st) == L3Spec.CreateRif(old(db), a, fpa)
      ensures Rep(None)
      ensures Valid() <==> Harmless(old(db), CreateRifCmd(a, fpa))
      ensures st != Success ==> db == old(db)
    {
      CreateRifReaches(db, a, fpa);
      CreateRifSameRoutes(db, a, fpa);
      st := BuildInterface(a, fpa);
    }

    /** Its body */
    method BuildInterface(a: RifAttrs, fpa: RifOracle) returns (st: Status)
      requires TablesOk(None)
      modifies this`db, vrs, mtus, rifs
      ensures TablesOk(None) && (db, st) == L3Spec.CreateRif(old(db), a, fpa)
    {
      var r, conf;
      r, conf, st := CheckInterface(a, fpa);
      if st == Success {
        st := EnterInterface(r, a, conf, fpa);
      }
    }

    /** Its checks, and a slot; `fpa` is what the switch will say */
    method CheckInterface(a: RifAttrs, ghost fpa: RifOracle) returns (r: RifId, conf: RifConf, st: Status)
      requires TablesOk(None)
      ensures st == Success ==> !db.rifs[r].valid && conf.vr == a.vr
      ensures L3Spec.CreateRif(db, a, fpa) == if st != Success then (db, st) else EnterRif(db, r, a, conf, fpa)
    {
      r, conf := 0, NO_CONF;
      if a.vr >= VR_TABLE_SIZE || !vrs[a.vr].valid {
        return r, conf, InvalidParameter;
      }
      var mtuVal := if a.mtu.Some? then a.mtu.value else DEFAULT_MTU;
      var missAct := if a.missAct.Some? then a.missAct.value else Trap;
      var m := FindMtuProfile(mtuVal);
      if m.None? {
        return r, conf, TableFull;
      }
      var slot := FreeRifSlot();
      if slot.None? {
        return r, conf, TableFull;
      }
      var portVlan;
      portVlan, st := CheckPlace(a);
      r, conf := slot.value, RifConf(a.kind, portVlan, a.vr, m.value, missAct);
    }

    /** The switch first and, if it takes all of it, the tables */
    method EnterInterface(r: RifId, a: RifAttrs, conf: RifConf, fpa: RifOracle) returns (st: Status)
      requires TablesOk(None) && !db.rifs[r].valid && conf.vr == a.vr
      modifies this`db, vrs, mtus, rifs
      ensures TablesOk(None) && (db, st) == EnterRif(old(db), r, a, conf, fpa)
    {
      st := Success;
      if !a.kind.Loopback? {
        st := ConfigureSwitch(r, a, conf.portVlan, conf.vr, fpa);
        if st != Success {
          return;
        }
      }
      FillRifRow(r, if a.mtu.Some? then a.mtu.value else DEFAULT_MTU, conf);
    }

    /** The attribute checks that depend on the kind of interface */
    method CheckPlace(a: RifAttrs) returns (portVlan: u32, st: Status)
      ensures (portVlan, st) == PortVlanOf(a)
    {
      portVlan, st := 0, Success;
      match a.kind {
        case Vlan =>
          if a.vlan.None? {
            return 0, MandatoryAttributeMissing;
          }
          if a.port.Some? {
            return 0, InvalidAttribute;
          }
          portVlan := a.vlan.value;
        case Port =>
          if a.port.None? {
            return 0, MandatoryAttributeMissing;
          }
          if a.vlan.Some? {
            return 0, InvalidAttribute;
          }
          portVlan := a.port.value;
        case Loopback =>
          if a.port.Some? || a.vlan.Some? || a.hasMac {
            return 0, InvalidAttribute;
          }
        case OtherKind =>
          return 0, InvalidAttrValue;
      }
    }

    /** The database part of mrvl_sai_create_router_interface */
    method FillRifRow(r: RifId, mtuVal: u32, conf: RifConf)
      requires TablesOk(None)
      modifies this`db, vrs, mtus, rifs
      ensures TablesOk(None) && db == AddRif(old(db), r, conf, mtuVal)
    {
      var m := conf.mtuIdx;
      mtus[m] := mtus[m].(size := mtuVal);
      mtus[m] := mtus[m].(refs := mtus[m].refs + 1);
      ghost var rif := Rif(true, conf, mtuVal, [], []);
      var row := NO_RIF_ROW.(valid := true, conf := conf);
      SwapRifRep(rifs[..], nbrs[..], nhs[..], db.rifs, db.nbrs, db.nhs, r, row, rif);
      rifs[r] := row;
      db := db.(mtus := db.mtus[m := MtuProfile(mtuVal, db.mtus[m].refs + 1)], rifs := db.rifs[r := rif]);
      var _ := UpdateReferenceCounter(conf.vr, true);
    }
  }

  /** A next hop pointed elsewhere with the first few of its routes. */
  ghost function RepointedTo(db: Db, h: NhId, id: u32, done: seq<RouteKey>): Db
  {
    var routes := RepointRoutes(db.routes, done, id);
    db.(nhs := db.nhs[h := db.nhs[h].(nbrId := id)], routes := routes, flows := RepointFlows(db.flows, routes, done))
  }

  lemma RepointNothing(routes: map<RouteKey, Route>, flows: map<Cookie, Flow>, id: u32)
    ensures RepointRoutes(routes, [], id) == routes
    ensures RepointFlows(flows, routes, []) == flows
  {
  }

  lemma RepointOneMore(routes: map<RouteKey, Route>, flows: map<Cookie, Flow>, list: seq<RouteKey>, i: nat, id: u32)
    requires i < |list| && NoDup(list)
    requires forall k :: k in list ==> k in routes && RouteCookie(k) in flows
    ensures var k := list[i];
            var routes0 := RepointRoutes(routes, list[..i], id);
            var routes1 := RepointRoutes(routes, list[..i + 1], id);
            && k in routes0 && routes0[k] == routes[k]
            && routes1 == routes0[k := routes[k].(nbrIdx := id, follows := true)]
            && RepointFlows(flows, routes1, list[..i + 1])
               == Recompile(RepointFlows(flows, routes0, list[..i]), k, routes[k].(nbrIdx := id, follows := true))
  {
    assert list[..i + 1] == list[..i] + [list[i]];
    assert forall k :: k in list[..i + 1] <==> k in list[..i] || k == list[i];
    assert list[i] !in list[..i];
  }

  /** The group that an entry names, if any, is there. */
  ghost predicate Grouped(flow: Flow, groups: set<NbrId>) {
    flow.group.Some? ==> flow.group.value in groups
  }

  ghost predicate ListsMatch(lists: seq<seq<RouteKey>>, table: NhTable) {
    |lists| == NH_TABLE_SIZE && forall h: NhId :: lists[h] == table[h].routes
  }

  lemma EmptyLists(lists: seq<seq<RouteKey>>)
    requires lists == seq(NH_TABLE_SIZE, _ => [])
    ensures ListsMatch(lists, EMPTY_DB.nhs) && RowsOf(EMPTY_DB.routes) == map[]
    ensures forall h: NhId :: !EMPTY_DB.nhs[h].used
  {
  }

  lemma RowsIgnoreRoutes(rows: NhRows, nhs: NhTable, to: NhTable)
    requires NhsRep(rows, nhs) && forall h: NhId :: to[h] == nhs[h].(routes := to[h].routes)
    ensures NhsRep(rows, to)
  {
  }

  lemma JoinedIs(nhs: NhTable, lists: seq<seq<RouteKey>>, h: NhId, key: RouteKey)
    requires ListsMatch(lists, nhs)
    ensures ListsMatch(lists[h := lists[h] + [key]], JoinRoutes(nhs, h, key))
    ensures forall g: NhId :: JoinRoutes(nhs, h, key)[g].used == nhs[g].used
  {
  }

  /** Leaving whatever ring is leaving the list of `h`, when the key is on no other. */
  lemma LeftIs(nhs: NhTable, lists: seq<seq<RouteKey>>, ringOf: map<RouteKey, NhId>, h: NhId, key: RouteKey)
    requires Listed(lists, ringOf) && ListsMatch(lists, nhs)
    requires forall g: NhId :: g != h ==> key !in nhs[g].routes
    ensures ListsMatch(LeftBy(lists, ringOf, key), LeaveRoutes(nhs, h, key))
    ensures forall g: NhId :: LeaveRoutes(nhs, h, key)[g].used == nhs[g].used
  {
    OnItsList(lists, ringOf, key);
    if key !in ringOf {
      assert key !in lists[h];
      WithoutAbsent(nhs[h].routes, key);
    }
  }

  ghost function WithAction(db: Db, key: RouteKey, action: PacketAction): Db
    requires key in db.routes
  {
    db.(routes := db.routes[key := db.routes[key].(action := action)])
  }

  /** A route has taken over the id that its next hop caches, and has left that one's list if this is a new id. */
  ghost predicate Followed(db: Db, to: Db, key: RouteKey, moved: bool)
    requires key in db.routes
  {
    var route := db.routes[key];
    && moved == (route.nhValid && route.nbrIdx != db.nhs[route.nhIdx].nbrId)
    && to == db.(routes := db.routes[key := TakeOver(route, db.nhs)],
                 nhs := if moved then LeaveRoutes(db.nhs, route.nhIdx, key) else db.nhs)
  }

  /** What the checks see to: the route caches what it should, and its next hop is in use. */
  ghost predicate Enterable(nhs: NhTable, route: Route) {
    !Refused(route) ==> Fits(nhs, route) && (route.nhValid ==> nhs[route.nhIdx].used)
  }

  /** Slot `h` taken, at the head of the list of interface `r`. */
  ghost function Slotted(db: Db, r: RifId, h: NhId, ip: IpUnion, id: u32): Db
  {
    db.(rifs := db.rifs[r := db.rifs[r].(nhs := [h] + db.rifs[r].nhs)], nhs := db.nhs[h := Nh(true, ip, r, id, [])])
  }

  lemma AddsSlotted(db: Db, r: RifId, h: NhId, ip: IpUnion)
    ensures var id := Resolve(db, r, ip);
            AddNextHop(db, r, h, ip) == Slotted(db, r, h, ip, id).(nbrs := SetNextHopOf(db.nbrs, id, h))
  {
  }

  lemma CreateRifSameRoutes(db: Db, a: RifAttrs, fpa: RifOracle)
    ensures var to := L3Spec.CreateRif(db, a, fpa).0;
            to.routes == db.routes && to.nhs == db.nhs && to.flows == db.flows && to.groups == db.groups
  {
  }

  lemma EntersSameTables(db: Db, key: RouteKey, route: Route)
    ensures var to := L3Spec.EnterRoute(db, key, route).0;
            to.vrs == db.vrs && to.mtus == db.mtus && to.rifs == db.rifs && to.nbrs == db.nbrs
  {
  }

  /** A route off its list that names another next hop. */
  ghost function Rehopped(db: Db, key: RouteKey, h: NhId): Db
    requires key in db.routes
  {
    var was := db.routes[key];
    var moved := was.(nhValid := true, nhIdx := h);
    db.(routes := db.routes[key := if was.nhValid && db.nhs[h].used then TakeOver(moved, db.nhs) else moved],
        nhs := if was.nhValid then LeaveRoutes(db.nhs, was.nhIdx, key) else db.nhs)
  }

  lemma HopChanged(db: Db, key: RouteKey, h: NhId)
    requires key in db.routes && Named(db.nhs, db.groups) && Housed(db, key)
    ensures var mid := Rehopped(db, key, h);
            var route := mid.routes[key];
            && RouteCookie(key) in mid.flows && !Refused(route) && mid.nhs[h].used == db.nhs[h].used
            && (Compile(key, route).group.Some? ==> Compile(key, route).group.value in mid.groups)
            && ChangeNextHop(db, key, h)
               == mid.(flows := Recompile(mid.flows, key, route),
                       nhs := if mid.nhs[h].used then JoinRoutes(mid.nhs, h, key) else mid.nhs)
  {
  }

  /** The flow entry of a changed route rewritten, and the route back on its list if it has left it. */
  ghost function PutBack(db: Db, key: RouteKey, moved: bool): Db
    requires key in db.routes
  {
    var route := db.routes[key];
    if Refused(route) then db.(routes := db.routes - {key}, flows := db.flows - {RouteCookie(key)})
    else db.(flows := Recompile(db.flows, key, route),
             nhs := if moved then JoinRoutes(db.nhs, route.nhIdx, key) else db.nhs)
  }

  ghost predicate Placeable(db: Db, key: RouteKey, moved: bool)
    requires key in db.routes
  {
    var route := db.routes[key];
    && (!Refused(route) && Compile(key, route).group.Some? ==> Compile(key, route).group.value in db.groups)
    && (moved ==> route.nhValid && db.nhs[route.nhIdx].used)
  }

  lemma ActionChanged(db: Db, mid: Db, key: RouteKey, action: PacketAction, moved: bool)
    requires key in db.routes && Settable(action) && Named(db.nhs, db.groups) && Housed(db, key)
    requires Followed(WithAction(db, key, action), mid, key, moved)
    ensures key in mid.routes && RouteCookie(key) in mid.flows && Placeable(mid, key, moved)
    ensures Refused(mid.routes[key]) <==> Refused(db.routes[key].(action := action))
    ensures Refused(mid.routes[key]) ==> !db.routes[key].nhValid
    ensures PutBack(mid, key, moved) == ChangeAction(db, key, action)
  {
    var route := mid.routes[key];
    if Refused(route) {
      assert mid.routes - {key} == db.routes - {key};
    }
  }

  /** An entry is on the list of its own next hop, if on any, and that is in use. */
  ghost predicate OnOwn(nhs: NhTable, key: RouteKey, route: Route) {
    && (forall g: NhId :: key in nhs[g].routes ==> route.nhValid && route.nhIdx == g)
    && (route.nhValid ==> nhs[route.nhIdx].used)
  }

  /** The ids that next hops cache name groups. */
  ghost predicate Named(nhs: NhTable, groups: set<NbrId>) {
    forall h: NhId :: nhs[h].used && nhs[h].nbrId < NBR_RESERVED_ID ==> nhs[h].nbrId in groups
  }

  /** What route operations need of one key. */
  ghost predicate Housed(db: Db, key: RouteKey) {
    && (key in db.routes <==> RouteCookie(key) in db.flows)
    && (key in db.routes ==> OnOwn(db.nhs, key, db.routes[key]) && Fits(db.nhs, db.routes[key]))
  }

  lemma ReachableRoutes(db: Db, key: RouteKey)
    requires db in REACHABLE
    ensures Named(db.nhs, db.groups) && Housed(db, key)
  {
    ReachableInv(db);
    forall h: NhId | db.nhs[h].used ensures db.nhs[h].nbrId < NBR_RESERVED_ID ==> db.nhs[h].nbrId in db.groups {
      CachedIdIsNamed(db, h);
    }
  }

  lemma ReachableLists(db: Db)
    requires db in REACHABLE
    ensures NbrLists(db.rifs, db.nbrs) && NhLists(db.rifs, db.nhs) && Zeroed(db.rifs, db.nbrs, db.nhs)
  {
    ReachableInv(db);
  }

  /** One round of the destruction of a list. */
  lemma HeadDropped(db: Db, r: RifId)
    requires db in REACHABLE && db.rifs[r].nbrs != []
    ensures var n := db.rifs[r].nbrs[0];
            var to := DropNeighbor(db, r, n);
            db.nbrs[n].used && db.nbrs[n].rif == r && to in REACHABLE && to.rifs[r].nbrs == db.rifs[r].nbrs[1..]
  {
    ReachableInv(db);
    var next := DropHead(db, r);
    assert db.rifs[r].nbrs[0] in db.rifs[r].nbrs;
    DropReachable(db, r, db.rifs[r].nbrs[0]);
  }

  lemma {:induction false} DrainReachable(db: Db, r: RifId)
    requires db in REACHABLE
    ensures DrainRif(db, r) in REACHABLE
    decreases |db.rifs[r].nbrs|
  {
    if db.rifs[r].nbrs != [] {
      HeadDropped(db, r);
      DrainReachable(DropNeighbor(db, r, db.rifs[r].nbrs[0]), r);
    }
  }

  /** Round `r` of the loop that destroys the lists. */
  ghost predicate Round(states: seq<Db>, r: nat) {
    r < RIF_TABLE_SIZE && r + 1 < |states| ==> states[r] in REACHABLE && states[r + 1] == DrainRif(states[r], r)
  }

  ghost predicate Rounds(states: seq<Db>) {
    |states| == RIF_TABLE_SIZE + 1 && forall r: nat :: Round(states, r)
  }

  lemma {:induction false} RoundsUpTo(db: Db, r: nat) returns (states: seq<Db>)
    requires db in REACHABLE && r <= RIF_TABLE_SIZE
    ensures |states| == r + 1 && states[0] == db && states[r] in REACHABLE && forall q: nat :: Round(states, q)
    ensures RemoveAllFrom(states[r], r) == RemoveAllFrom(db, 0)
  {
    if r == 0 {
      states := [db];
    } else {
      var before := RoundsUpTo(db, r - 1);
      var next := DrainRif(before[r - 1], r - 1);
      DrainReachable(before[r - 1], r - 1);
      states := before + [next];
      forall q: nat ensures Round(states, q) {
        assert Round(before, q);
      }
    }
  }

  /** A list of routes can be walked: its routes are there, once each, with their entries. */
  ghost predicate Walkable(list: seq<RouteKey>, routes: map<RouteKey, Route>, flows: map<Cookie, Flow>) {
    && NoDup(list)
    && forall k :: k in list ==>
         k in routes && routes[k].nhValid && Settable(routes[k].action) && RouteCookie(k) in flows
  }

  ghost predicate AllWalkable(nhs: NhTable, routes: map<RouteKey, Route>, flows: map<Cookie, Flow>) {
    forall h: NhId :: nhs[h].used ==> Walkable(nhs[h].routes, routes, flows)
  }

  /** What entering a neighbour needs of the others. */
  ghost predicate NbrsOk(db: Db) {
    && NbrLists(db.rifs, db.nbrs)
    && Groups(db.nbrs, db.groups)
    && forall n: NbrId :: !db.nbrs[n].used ==> db.nbrs[n] == NO_NBR
  }

  lemma ReachableWalks(db: Db)
    requires db in REACHABLE
    ensures NbrsOk(db) && AllWalkable(db.nhs, db.routes, db.flows)
  {
    ReachableInv(db);
    forall h: NhId | db.nhs[h].used ensures Walkable(db.nhs[h].routes, db.routes, db.flows) {
      forall k | k in db.nhs[h].routes ensures k in db.routes && Fits(db.nhs, db.routes[k]) {
      }
    }
  }

  lemma RepointStep(start: Db, h: NhId, id: u32, j: nat)
    requires j < |start.nhs[h].routes| && Walkable(start.nhs[h].routes, start.routes, start.flows)
    ensures var key := start.nhs[h].routes[j];
            var was := RepointedTo(start, h, id, start.nhs[h].routes[..j]);
            var route := start.routes[key].(nbrIdx := id, follows := true);
            && key in was.routes && was.routes[key] == start.routes[key] && RouteCookie(key) in was.flows
            && RepointedTo(start, h, id, start.nhs[h].routes[..j + 1])
               == was.(routes := was.routes[key := route], flows := Recompile(was.flows, key, route))
  {
    var keys := start.nhs[h].routes;
    assert keys[j] in keys && RouteCookie(keys[j]) in start.flows;
    RepointOneMore(start.routes, start.flows, keys, j, id);
  }

  /** What a new neighbour leaves to do when its next hop has been pointed at it. */
  lemma PointedIs(db: Db, r: RifId, n: NbrId, ip: IpUnion, made: bool)
    ensures var to := UpdateNextHop(LinkNbr(db, r, n, ip, made), r, n, ip);
            && (made ==> n in to.groups) && to.rifs[r].valid == db.rifs[r].valid
            && forall stale: u32 {:trigger AddNeighbor(db, r, n, ip, made, stale)} ::
                 AddNeighbor(db, r, n, ip, made, stale)
                 == AddHost(to.(nbrs := SetNextHopOf(to.nbrs, n, if FindNh(db, r, ip) == INVALID_ID then stale
                                                                 else FindNh(db, r, ip))), r, ip, n)
  {
  }

  /** What releasing a neighbour needs: walkable lists, and if it is to be sound that nothing names its group once the
      host entry for `host` and its next hop have gone. */
  ghost predicate Releasable(db: Db, r: RifId, n: NbrId, host: IpUnion, sound: bool) {
    && db.nbrs[n].used && db.nbrs[n].rif == r && db.rifs[r].valid && db.rifs[r].nbrs != []
    && AllWalkable(db.nhs, db.routes, DelHost(db, r, host).flows)
    && var mid := ForgetNbr(db, r, n, host);
       && NbrLists(mid.rifs, mid.nbrs) && mid.groups == db.groups && mid.nbrs == db.nbrs && mid.rifs == db.rifs
       && (sound ==> forall c :: c in mid.flows ==> mid.flows[c].group != Some(n))
  }

  lemma ReachableReleases(db: Db, r: RifId, n: NbrId)
    requires db in REACHABLE && db.nbrs[n].used && db.nbrs[n].rif == r
    ensures Releasable(db, r, n, db.nbrs[n].ip, true) && n in db.groups
  {
    ReachableWalks(db);
    AskedReleases(db, r, n, db.nbrs[n].ip);
    ReachableInv(db);
    NothingNames(db, r, n);
  }

  lemma AskedReleases(db: Db, r: RifId, n: NbrId, host: IpUnion)
    requires NbrLists(db.rifs, db.nbrs) && AllWalkable(db.nhs, db.routes, db.flows)
    requires db.nbrs[n].used && db.nbrs[n].rif == r
    ensures Releasable(db, r, n, host, false)
  {
    assert n in db.rifs[r].nbrs;
    ForgetShape(db, r, n, host);
  }

  lemma FoundReleases(db: Db, r: u32, ip: IpUnion)
    requires db in REACHABLE
    ensures var sound := Harmless(db, RemoveNbrCmd(r, ip));
            RifValid(db, r) && FindNbr(db, r, ip) != INVALID_ID ==> Releasable(db, r, FindNbr(db, r, ip), ip, sound)
  {
    if RifValid(db, r) && FindNbr(db, r, ip) != INVALID_ID {
      var n := FindNbr(db, r, ip);
      ReachableLists(db);
      FindNbrMatches(db, r, ip);
      ReachableWalks(db);
      AskedReleases(db, r, n, ip);
      if Harmless(db, RemoveNbrCmd(r, ip)) {
        HarmlessRemoval(db, r, ip);
        RemovableNames(db, r, n, ip);
      }
    }
  }

  lemma RemovableNames(db: Db, r: RifId, n: NbrId, ip: IpUnion)
    requires db in REACHABLE && db.nbrs[n].used && db.nbrs[n].rif == r
    requires Matches(db.nbrs[n].ip, ip) && Removable(db.nbrs, r, ip)
    ensures var mid := ForgetNbr(db, r, n, ip); forall c :: c in mid.flows ==> mid.flows[c].group != Some(n)
  {
    ReachableInv(db);
    NothingNames(db, r, n);
    AskedFamily(db, r, n, ip);
    DropAskedIs(db, r, n, ip);
  }

  /** Once the host entry is gone and the next hop has moved on, nothing names the group of a neighbour. */
  lemma NothingNames(db: Db, r: RifId, n: NbrId)
    requires Inv(db) && db.nbrs[n].used && db.nbrs[n].rif == r
    ensures n in db.groups
    ensures var mid := ForgetNbr(db, r, n, db.nbrs[n].ip); forall c :: c in mid.flows ==> mid.flows[c].group != Some(n)
  {
    DropNeighborKeeps(db, r, n);
    DropNeighborShape(db, r, n);
    var to := DropNeighbor(db, r, n);
    forall c | c in to.flows ensures to.flows[c].group != Some(n) {
      if to.flows[c].group.Some? {
        GroupsNamed(to, c);
      }
    }
  }

  /** The id a used next hop caches is a reserved one or names a group. */
  lemma CachedIdIsNamed(db: Db, h: NhId)
    requires Coherent(db.rifs, db.nbrs, db.nhs) && Groups(db.nbrs, db.groups) && db.nhs[h].used
    ensures db.nhs[h].nbrId < NBR_RESERVED_ID ==> db.nhs[h].nbrId in db.groups
  {
    assert Resolved(db.rifs, db.nbrs, db.nhs[h].rif, Addr(db.nhs[h].ip), db.nhs[h].nbrId);
  }
}
