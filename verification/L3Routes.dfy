/** Route operations keep the invariant. */
module L3Routes {
  import opened Words
  import opened L3Types
  import opened SeqLib
  import opened L3Spec
  import opened L3Invariant

  /** Two states that differ at most in routes, route entries and route lists. */
  ghost predicate OnlyRoutes(db: Db, to: Db) {
    && to.vrs == db.vrs && to.mtus == db.mtus && to.rifs == db.rifs && to.nbrs == db.nbrs && to.groups == db.groups
    && (forall h: NhId :: to.nhs[h] == db.nhs[h].(routes := to.nhs[h].routes))
    && (forall c: Cookie :: c.HostCookie? ==>
          (c in to.flows <==> c in db.flows) && (c in db.flows ==> to.flows[c] == db.flows[c]))
  }

  lemma OnlyRoutesKeeps(db: Db, to: Db)
    requires Inv(db) && OnlyRoutes(db, to)
    requires Mirror(to.nhs, to.routes) && RouteCache(to.nhs, to.routes) && RouteFlows(to.routes, to.flows)
    ensures Inv(to)
  {
    OnlyRoutesKeepsNhs(db, to);
    OnlyRoutesKeepsHosts(db, to);
  }

  lemma UnusedHasNoRoutes(nhs: NhTable, routes: map<RouteKey, Route>, h: NhId)
    requires Mirror(nhs, routes)
    ensures nhs[h].routes != [] ==> nhs[h].used
  {
    if nhs[h].routes != [] {
      var k := nhs[h].routes[0];
      assert k in nhs[h].routes;
      assert k in routes && routes[k].nhValid && routes[k].nhIdx == h;
      assert nhs[routes[k].nhIdx].used;
    }
  }

  lemma OnlyRoutesKeepsNhs(db: Db, to: Db)
    requires Zeroed(db.rifs, db.nbrs, db.nhs) && NhLists(db.rifs, db.nhs)
    requires Coherent(db.rifs, db.nbrs, db.nhs) && BackPointers(db.nbrs, db.nhs)
    requires OnlyRoutes(db, to) && Mirror(to.nhs, to.routes)
    ensures Zeroed(to.rifs, to.nbrs, to.nhs) && NhLists(to.rifs, to.nhs)
    ensures Coherent(to.rifs, to.nbrs, to.nhs) && BackPointers(to.nbrs, to.nhs)
  {
    forall h: NhId | !to.nhs[h].used ensures to.nhs[h] == NO_NH {
      assert db.nhs[h] == NO_NH;
      UnusedHasNoRoutes(to.nhs, to.routes, h);
    }
  }

  lemma OnlyRoutesKeepsHosts(db: Db, to: Db)
    requires HostFlows(db.rifs, db.nbrs, db.flows) && OnlyRoutes(db, to)
    ensures HostFlows(to.rifs, to.nbrs, to.flows)
  {
  }

  /** `to` are the lists of `nhs` with `key` moved to the list of `at`, or to none. */
  ghost predicate Moved(nhs: NhTable, to: NhTable, key: RouteKey, at: Option<NhId>) {
    forall h: NhId ::
      && to[h] == nhs[h].(routes := to[h].routes)
      && NoDup(to[h].routes)
      && forall k :: k in to[h].routes <==> if k == key then at == Some(h) else k in nhs[h].routes
  }

  lemma JoinMoves(nhs: NhTable, key: RouteKey, h: NhId)
    requires Moved(nhs, nhs, key, None)
    ensures Moved(nhs, JoinRoutes(nhs, h, key), key, Some(h))
  {
    var list := nhs[h].routes + [key];
    assert forall k :: k in list <==> k in nhs[h].routes || k == key;
    assert key !in nhs[h].routes;
    assert NoDup(list);
    assert JoinRoutes(nhs, h, key)[h].routes == list;
  }

  lemma LeaveMoves(nhs: NhTable, key: RouteKey, h: NhId)
    requires Moved(nhs, nhs, key, Some(h))
    ensures Moved(nhs, LeaveRoutes(nhs, h, key), key, None)
  {
    WithoutNoDup(nhs[h].routes, key);
  }

  lemma MovedTwice(a: NhTable, b: NhTable, c: NhTable, key: RouteKey, at: Option<NhId>, then_: Option<NhId>)
    requires Moved(a, b, key, at) && Moved(b, c, key, then_)
    ensures Moved(a, c, key, then_) && Moved(b, b, key, at)
  {
  }

  /** Where a route's element sits. */
  function Seat(routes: map<RouteKey, Route>, key: RouteKey): Option<NhId>
  {
    if key in routes && routes[key].nhValid then Some(routes[key].nhIdx) else None
  }

  lemma MirrorSeats(nhs: NhTable, routes: map<RouteKey, Route>, key: RouteKey)
    requires Mirror(nhs, routes)
    ensures Moved(nhs, nhs, key, Seat(routes, key))
  {
  }

  lemma MirrorAfterMove(nhs: NhTable, to: NhTable, routes: map<RouteKey, Route>, key: RouteKey, route: Route)
    requires Mirror(nhs, routes) && RouteCache(nhs, routes)
    requires Moved(nhs, to, key, if route.nhValid then Some(route.nhIdx) else None)
    requires Fits(nhs, route) && (route.nhValid ==> nhs[route.nhIdx].used)
    ensures Mirror(to, routes[key := route]) && RouteCache(to, routes[key := route])
  {
  }

  lemma MirrorAfterRemoval(nhs: NhTable, to: NhTable, routes: map<RouteKey, Route>, key: RouteKey)
    requires Mirror(nhs, routes) && RouteCache(nhs, routes)
    requires Moved(nhs, to, key, None)
    ensures Mirror(to, routes - {key}) && RouteCache(to, routes - {key})
  {
  }

  /** Replacing one route and moving its element keeps everything. */
  lemma PutRouteKeeps(db: Db, key: RouteKey, route: Route, nhs: NhTable)
    requires Inv(db) && Moved(db.nhs, nhs, key, if route.nhValid then Some(route.nhIdx) else None)
    requires Fits(db.nhs, route) && (route.nhValid ==> db.nhs[route.nhIdx].used)
    ensures Inv(db.(routes := db.routes[key := route], flows := Recompile(db.flows, key, route), nhs := nhs))
  {
    var to := db.(routes := db.routes[key := route], flows := Recompile(db.flows, key, route), nhs := nhs);
    MirrorAfterMove(db.nhs, nhs, db.routes, key, route);
    RecompileKeeps(db.routes, db.flows, key, route);
    OnlyRoutesKeeps(db, to);
  }

  lemma RecompileKeeps(routes: map<RouteKey, Route>, flows: map<Cookie, Flow>, key: RouteKey, route: Route)
    requires RouteFlows(routes, flows)
    ensures RouteFlows(routes[key := route], Recompile(flows, key, route))
  {
  }

  lemma AddRouteKeeps(db: Db, key: RouteKey, route: Route)
    requires Inv(db) && key !in db.routes && Fits(db.nhs, route) && (route.nhValid ==> db.nhs[route.nhIdx].used)
    ensures Inv(AddRoute(db, key, route))
  {
    MirrorSeats(db.nhs, db.routes, key);
    if route.nhValid {
      JoinMoves(db.nhs, key, route.nhIdx);
    }
    PutRouteKeeps(db, key, route, AddRoute(db, key, route).nhs);
  }

  lemma DropRouteKeeps(db: Db, key: RouteKey)
    requires Inv(db) && key in db.routes
    ensures Inv(DropRoute(db, key))
  {
    var to := DropRoute(db, key);
    DropRouteMoves(db, key);
    MirrorAfterRemoval(db.nhs, to.nhs, db.routes, key);
    DecompileKeeps(db.routes, db.flows, key);
    OnlyRoutesKeeps(db, to);
  }

  lemma DropRouteMoves(db: Db, key: RouteKey)
    requires Mirror(db.nhs, db.routes) && key in db.routes
    ensures Moved(db.nhs, DropRoute(db, key).nhs, key, None) && OnlyRoutes(db, DropRoute(db, key))
  {
    MirrorSeats(db.nhs, db.routes, key);
    if db.routes[key].nhValid {
      LeaveMoves(db.nhs, key, db.routes[key].nhIdx);
    }
  }

  lemma DecompileKeeps(routes: map<RouteKey, Route>, flows: map<Cookie, Flow>, key: RouteKey)
    requires RouteFlows(routes, flows)
    ensures RouteFlows(routes - {key}, flows - {RouteCookie(key)})
  {
  }

  lemma ChangeActionKeeps(db: Db, key: RouteKey, action: PacketAction)
    requires Inv(db) && key in db.routes && Settable(action)
    ensures Inv(ChangeAction(db, key, action))
  {
    var was := db.routes[key];
    var h := was.nhIdx;
    var route := TakeOver(was.(action := action), db.nhs);
    if Refused(route) {
      DropRouteKeeps(db, key);
    } else {
      MirrorSeats(db.nhs, db.routes, key);
      if route.nbrIdx != was.nbrIdx {
        var left := LeaveRoutes(db.nhs, h, key);
        LeaveMoves(db.nhs, key, h);
        MovedTwice(db.nhs, db.nhs, left, key, Some(h), None);
        MovedTwice(db.nhs, left, left, key, None, None);
        JoinMoves(left, key, h);
        MovedTwice(db.nhs, left, JoinRoutes(left, h, key), key, None, Some(h));
      }
      PutRouteKeeps(db, key, route, ChangeAction(db, key, action).nhs);
    }
  }

  /** A next hop set on a route keeps the invariant exactly when that next hop is in use. */
  lemma ChangeNextHopKeeps(db: Db, key: RouteKey, h: NhId)
    requires Inv(db) && key in db.routes && !(db.routes[key].nhValid && db.routes[key].nhIdx == h)
    ensures Inv(ChangeNextHop(db, key, h)) <==> db.nhs[h].used
  {
    var was := db.routes[key];
    var to := ChangeNextHop(db, key, h);
    if db.nhs[h].used {
      MirrorSeats(db.nhs, db.routes, key);
      var left := if was.nhValid then LeaveRoutes(db.nhs, was.nhIdx, key) else db.nhs;
      if was.nhValid {
        LeaveMoves(db.nhs, key, was.nhIdx);
      }
      assert Moved(left, left, key, None);
      JoinMoves(left, key, h);
      MovedTwice(db.nhs, left, JoinRoutes(left, h, key), key, None, Some(h));
      PutRouteKeeps(db, key, to.routes[key], to.nhs);
    } else {
      assert to.routes[key].nhValid && !to.nhs[h].used;
    }
  }

  // ----- The operations -----

  /** A new entry that can be compiled fits and has a used next hop, if any. */
  lemma NewRouteFits(db: Db, key: RouteKey, action: PacketAction, target: Option<RouteTarget>)
    requires Settable(action)
    ensures var (route, bad) := NewRoute(db, key, action, target);
            bad == Success && !Refused(route)
            ==> Fits(db.nhs, route) && (route.nhValid ==> db.nhs[route.nhIdx].used)
  {
  }

  lemma CreateRouteKeeps(db: Db, key: RouteKey, priority: Option<u32>, action: Option<PacketAction>,
        target: Option<RouteTarget>)
    requires Inv(db)
    ensures Inv(CreateRoute(db, key, priority, action, target).0)
  {
    if CreateRoute(db, key, priority, action, target).1 == Success {
      var act := if action.Some? then action.value else Forward;
      NewRouteFits(db, key, act, target);
      AddRouteKeeps(db, key, NewRoute(db, key, act, target).0);
    }
  }

  lemma RemoveRouteKeeps(db: Db, key: RouteKey)
    requires Inv(db)
    ensures var (to, st) := RemoveRoute(db, key);
            Inv(to) && (st == Success <==> LookupRoute(db, key) == Success) && (st == Success ==> key !in to.routes)
  {
    if LookupRoute(db, key) == Success {
      DropRouteKeeps(db, key);
    }
  }

  lemma SetRouteActionKeeps(db: Db, key: RouteKey, action: PacketAction)
    requires Inv(db)
    ensures Inv(SetRouteAction(db, key, action).0)
  {
    if LookupRoute(db, key) == Success && Settable(action) {
      ChangeActionKeeps(db, key, action);
    }
  }

  lemma SetRouteNextHopKeeps(db: Db, key: RouteKey, h: NhId)
    requires Inv(db)
    ensures Inv(SetRouteNextHop(db, key, h).0) <==> LookupRoute(db, key) != Success || db.nhs[h].used
  {
    if LookupRoute(db, key) == Success && !(db.routes[key].nhValid && db.routes[key].nhIdx == h) {
      ChangeNextHopKeeps(db, key, h);
    }
  }

  // ----- What is supported -----

  /** Of a route that is there, the action setter supports forwarding, trapping and dropping, and nothing else. */
  lemma SettableIff(db: Db, key: RouteKey, action: PacketAction)
    requires key.vr < 128 && db.vrs[key.vr].valid && key in db.routes
    ensures SetRouteAction(db, key, action).1 == NotSupported
            <==> action != Forward && action != Trap && action != Drop
  {
  }

  /** So does creation, which takes forwarding for granted. */
  lemma CreatableIff(db: Db, key: RouteKey, priority: Option<u32>, action: Option<PacketAction>,
        target: Option<RouteTarget>)
    requires priority == None || priority == Some(0)
    ensures CreateRoute(db, key, priority, action, target).1 == NotSupported
            <==> action != None && action != Some(Forward) && action != Some(Trap) && action != Some(Drop)
  {
  }
}
