/** The paths of one prefix (bgp/rib/destination.go): what is stored per peer and path id, what is published, which
  * paths are installed, and what the route manager has been told.
  *
  * The candidates' next hops never change here, and nothing is advertised with additional path ids.
  */
module Destinations {
  import opened Paths
  import opened PathStore
  import opened Stages
  import opened Cascade
  import CascadeOrder
  import VisitOrder
  import opened Walks
  import opened Ecmp
  import opened IdAllocators
  import opened RouteManager
  import opened Routes
  import opened Selection

  class Destination {
    var peerPathMap: PeerPaths
    var locRibPath: Option<Path>
    var locRibPathRoute: Route?
    var ecmpPaths: map<Path, Route>
    var pathRouteMap: map<Path, Route>
    const pathIds: IdAllocator
    var recalculate: bool
    var published: seq<PathInfo>
    var pathInfoRouteMap: map<PathInfo, Route>
    var calls: seq<RouteCall>

    // Where each stored path is stored and published, and every route made so far.
    ghost var keyOf: map<Path, PathKey>
    ghost var slotOf: map<Path, nat>
    ghost var routes: set<Route>

    ghost function Infos(): set<PathInfo>
      reads `routes
    {
      set r | r in routes :: r.pathInfo
    }

    // Routes know their slots.
    ghost predicate Indexed()
      reads `slotOf, `pathRouteMap, `routes, routes`routeListIdx
    {
      forall p :: p in slotOf ==> p in pathRouteMap && pathRouteMap[p] in routes && pathRouteMap[p].routeListIdx == slotOf[p]
    }

    // Between selections no action is pending and the multi-path flag marks the installed paths.
    // Only the route last chosen may carry the best flag, and only while it is installed.
    ghost predicate Flagged()
      reads `ecmpPaths, `pathRouteMap, `locRibPathRoute, `routes, routes`action, Infos()
    {
      && (forall p :: p in ecmpPaths ==>
            && ecmpPaths[p] in routes && ecmpPaths[p].action == ActionNone && ecmpPaths[p].pathInfo.multiPath
            && (ecmpPaths[p].pathInfo.bestPath ==> ecmpPaths[p] == locRibPathRoute))
      && (forall p :: p in pathRouteMap && p !in ecmpPaths ==>
            pathRouteMap[p] in routes && !pathRouteMap[p].pathInfo.multiPath && !pathRouteMap[p].pathInfo.bestPath)
    }

    // The path last chosen is stored and installed, until it is replaced or removed.
    ghost predicate Chosen()
      reads `locRibPath, `locRibPathRoute, `keyOf, `ecmpPaths
    {
      locRibPath.Some? ==>
        locRibPath.value in keyOf && locRibPath.value in ecmpPaths && ecmpPaths[locRibPath.value] == locRibPathRoute
    }

    ghost predicate Filed()
      reads this, pathIds, routes`routeListIdx
    {
      && Keyed(peerPathMap, keyOf) && keyOf.Keys == slotOf.Keys
      && Wired(keyOf.Keys, pathRouteMap, ecmpPaths, routes)
      && Posted(published, pathInfoRouteMap, pathRouteMap, slotOf)
      && pathIds.Valid() && pathIds.first == 1 && Numbered(pathRouteMap, pathIds.live)
      && TiesBreakable(keyOf.Keys) && Labelled(keyOf, pathRouteMap)
      && Indexed()
    }

    ghost predicate Valid()
      reads this, pathIds, routes, Infos()
    {
      Filed() && Mirrored(ecmpPaths.Keys, calls) && Flagged() && Chosen()
    }

    // Routes of paths that were replaced: they are never taken off the map, and their ids never released.
    ghost function Leaked(): set<Path>
      reads `pathRouteMap, `keyOf
    {
      pathRouteMap.Keys - keyOf.Keys
    }

    constructor ()
      ensures Valid() && fresh(pathIds) && peerPathMap == map[] && ecmpPaths == map[] && calls == [] && !recalculate
      ensures locRibPath.None? && routes == {} && Leaked() == {} && keyOf == map[] && pathRouteMap == map[]
    {
      peerPathMap := map[];
      locRibPath := None;
      locRibPathRoute := null;
      ecmpPaths := map[];
      pathRouteMap := map[];
      pathIds := new IdAllocator(1);
      recalculate := false;
      published := [];
      pathInfoRouteMap := map[];
      calls := [];
      keyOf := map[];
      slotOf := map[];
      routes := {};
    }

    predicate IsEmpty()
      reads this
    {
      peerPathMap == map[]
    }

    // ---------- updates ----------

    // The path the message carries replaces none, or not itself, and its pointer is on no map yet.
    ghost predicate IsNew(path: Path)
      reads this
    {
      path !in pathRouteMap && path !in ecmpPaths
    }

    // A path can be stored beside the others.
    ghost predicate Fits(key: PathKey, path: Path)
      reads this
    {
      forall q :: q in keyOf && keyOf[q] != key && SourceOf(q) == SourceOf(path) ==> q.neighbor.Some? && path.neighbor.Some?
    }

    twostate lemma FlaggedPut(new path: Path, new route: Route)
      requires old(Flagged()) && old(IsNew(path)) && ecmpPaths == old(ecmpPaths) && locRibPathRoute == old(locRibPathRoute)
      requires routes == old(routes) + {route} && pathRouteMap == old(pathRouteMap)[path := route]
      requires !route.pathInfo.multiPath && !route.pathInfo.bestPath
      requires forall r :: r in old(routes) ==> unchanged(r) && unchanged(r.pathInfo)
      ensures Flagged()
    {
    }

    static ghost function Place(list: seq<PathInfo>, slot: int, info: PathInfo): seq<PathInfo>
      requires -1 <= slot < |list|
    {
      if slot != -1 then list[slot := info] else list + [info]
    }

    static ghost function Reslot(slots: map<Path, nat>, prior: Option<Path>, path: Path, slot: nat): map<Path, nat> {
      (if prior.Some? then slots - {prior.value} else slots)[path := slot]
    }

    // The fields after a path is stored under a key, where `prior` was stored before.
    twostate predicate Stores(key: PathKey, path: Path, prior: Option<Path>, new route: Route)
      reads this, pathIds, routes, Infos(), route, route.pathInfo
    {
      && prior == Lookup(old(peerPathMap), key)
      && (prior.Some? ==> prior.value in old(slotOf) && prior.value in old(pathRouteMap)
                          && old(slotOf)[prior.value] < |old(published)|)
      && route.path == path && route.pathInfo.about == path && route.outPathId !in old(pathIds.live)
      && route.pathInfo.pathId == key.1 && route.pathInfo.nextHop == path.nextHop
      && !route.pathInfo.multiPath && !route.pathInfo.bestPath
      && pathIds.Valid() && pathIds.live == old(pathIds.live) + {route.outPathId}
      && peerPathMap == Put(old(peerPathMap), key, path) && pathRouteMap == old(pathRouteMap)[path := route]
      && routes == old(routes) + {route} && keyOf == Rekey(old(keyOf), prior, key, path)
      && var slot := if prior.Some? then old(slotOf)[prior.value] else -1;
      && route.routeListIdx == (if slot != -1 then slot else |old(published)|)
      && published == Place(old(published), slot, route.pathInfo)
      && pathInfoRouteMap == (if prior.Some? then old(pathInfoRouteMap) - {old(pathRouteMap)[prior.value].pathInfo}
                              else old(pathInfoRouteMap))[route.pathInfo := route]
      && slotOf == Reslot(old(slotOf), prior, path, route.routeListIdx)
      && ecmpPaths == old(ecmpPaths) && calls == old(calls) && locRibPathRoute == old(locRibPathRoute)
      && locRibPath == (if prior.Some? && old(locRibPath) == prior then None else old(locRibPath))
    }

    twostate lemma StoresKeepsIndexed(new key: PathKey, new path: Path, new prior: Option<Path>, new route: Route)
      requires old(Indexed()) && path !in old(slotOf) && Stores(key, path, prior, route)
      requires forall r :: r in old(routes) ==> unchanged(r)
      ensures Indexed()
    {
      hide Put, Lookup, Rekey;
    }

    twostate lemma StoresKeepsFiled(new key: PathKey, new path: Path, new prior: Option<Path>, new route: Route)
      requires old(Filed()) && old(IsNew(path)) && old(Fits(key, path)) && Stores(key, path, prior, route)
      requires forall r :: r in old(routes) ==> unchanged(r)
      ensures Filed()
    {
      hide Keyed, Wired, Posted, Numbered, TiesBreakable, Labelled, Indexed, Put, Lookup;
      assert path !in old(keyOf) by {
        if path in old(keyOf) { StoredAreOnFile(old(keyOf).Keys, old(pathRouteMap), old(ecmpPaths), old(routes), path); }
      }
      StoredOnce(old(peerPathMap), old(keyOf), key);
      KeyedPut(old(peerPathMap), old(keyOf), key, path);
      WiredPut(old(keyOf), prior, key, path, old(pathRouteMap), old(ecmpPaths), old(routes), route);
      NumberedPut(old(pathRouteMap), old(pathIds.live), path, route);
      TiesPut(old(keyOf), prior, key, path);
      LabelledPut(old(keyOf), prior, key, path, old(pathRouteMap), route);
      if prior.Some? {
        PostedReplace(old(published), old(pathInfoRouteMap), old(pathRouteMap), old(slotOf), prior.value, path, route);
      } else {
        PostedAppend(old(published), old(pathInfoRouteMap), old(pathRouteMap), old(slotOf), path, route);
      }
      StoresKeepsIndexed(key, path, prior, route);
    }

    twostate lemma StoresKeepsChosen(new key: PathKey, new path: Path, new prior: Option<Path>, new route: Route)
      requires old(Chosen()) && Stores(key, path, prior, route)
      ensures Chosen()
    {
      hide Put, Lookup;
    }

    // Where the path is listed, and what stays on file.
    twostate lemma StoresLists(new key: PathKey, new path: Path, new prior: Option<Path>, new route: Route)
      requires old(Filed()) && old(IsNew(path)) && Stores(key, path, prior, route)
      ensures Slots(published, keyOf) == Slots(old(published), old(keyOf)) + if prior.Some? then [] else [key]
      ensures Leaked() == old(Leaked()) + if prior.Some? then {prior.value} else {}
    {
      hide Keyed, Wired, Posted, Numbered, TiesBreakable, Labelled, Indexed, Put, Lookup, Slots;
      StoredIsWithin(old(keyOf).Keys, old(pathRouteMap), old(ecmpPaths), old(routes));
      if prior.Some? {
        KeyedAt(old(peerPathMap), old(keyOf), key);
        SlotsReplace(old(published), old(pathInfoRouteMap), old(pathRouteMap), old(slotOf), old(keyOf), key,
          prior.value, path, route.pathInfo);
      } else {
        SlotsAppend(old(published), old(pathInfoRouteMap), old(pathRouteMap), old(slotOf), old(keyOf), key, path,
          route.pathInfo);
      }
    }

    twostate lemma StoresKeepsValid(new key: PathKey, new path: Path, new prior: Option<Path>, new route: Route)
      requires old(Valid()) && old(IsNew(path)) && old(Fits(key, path)) && Stores(key, path, prior, route)
      requires forall r :: r in old(routes) ==> unchanged(r) && unchanged(r.pathInfo)
      ensures Valid()
    {
      hide Keyed, Wired, Posted, Numbered, TiesBreakable, Labelled, Indexed, Put, Lookup, Filed, Flagged, Mirrored, Chosen;
      StoresKeepsFiled(key, path, prior, route);
      StoresKeepsChosen(key, path, prior, route);
      FlaggedPut(path, route);
    }

    // The replaced path gives up its slot and its entry in the index, but stays on file.
    method Retire(prior: Path) returns (slot: int)
      requires prior in pathRouteMap
      modifies `pathInfoRouteMap, `locRibPath
      ensures slot == pathRouteMap[prior].routeListIdx
      ensures pathInfoRouteMap == old(pathInfoRouteMap) - {pathRouteMap[prior].pathInfo}
      ensures locRibPath == if old(locRibPath) == Some(prior) then None else old(locRibPath)
    {
      var route := pathRouteMap[prior];
      slot := route.routeListIdx;
      pathInfoRouteMap := pathInfoRouteMap - {route.pathInfo};
      if locRibPath == Some(prior) { locRibPath := None; }
    }

    method Store(key: PathKey, path: Path, slot: int) returns (route: Route)
      requires pathIds.Valid() && -1 <= slot < |published|
      modifies `recalculate, `pathRouteMap, `published, `pathInfoRouteMap, `peerPathMap, pathIds
      ensures fresh(route) && fresh(route.pathInfo) && route.path == path && route.action == ActionNone
      ensures route.routeListIdx == if slot != -1 then slot else |old(published)|
      ensures route.pathInfo.about == path && route.pathInfo.pathId == key.1 && route.pathInfo.nextHop == path.nextHop
      ensures !route.pathInfo.multiPath && !route.pathInfo.bestPath
      ensures pathIds.Valid() && route.outPathId !in old(pathIds.live)
              && pathIds.live == old(pathIds.live) + {route.outPathId}
      ensures pathRouteMap == old(pathRouteMap)[path := route] && peerPathMap == Put(old(peerPathMap), key, path)
      ensures published == Place(old(published), slot, route.pathInfo)
      ensures pathInfoRouteMap == old(pathInfoRouteMap)[route.pathInfo := route]
      ensures recalculate == (old(recalculate) || locRibPath.None? || SourceOf(locRibPath.value) >= SourceOf(path))
    {
      hide Put, SourceOf;
      if locRibPath.None? || SourceOf(locRibPath.value) >= SourceOf(path) { recalculate := true; }
      var outPathId := pathIds.GetNextId();
      route := new Route(path, key.1, outPathId);
      pathRouteMap := pathRouteMap[path := route];
      var idx := slot;
      if idx != -1 {
        published := published[idx := route.pathInfo];
      } else {
        idx := |published|;
        published := published + [route.pathInfo];
      }
      pathInfoRouteMap := pathInfoRouteMap[route.pathInfo := route];
      route.routeListIdx := idx;
      peerPathMap := Put(peerPathMap, key, path);
    }

    ghost method Record(key: PathKey, path: Path, prior: Option<Path>, route: Route)
      requires route.routeListIdx >= 0
      modifies `routes, `keyOf, `slotOf
      ensures routes == old(routes) + {route} && keyOf == Rekey(old(keyOf), prior, key, path)
      ensures slotOf == Reslot(old(slotOf), prior, path, route.routeListIdx)
    {
      routes := routes + {route};
      keyOf := Rekey(keyOf, prior, key, path);
      slotOf := Reslot(slotOf, prior, path, route.routeListIdx);
    }

    lemma Parts()
      requires Valid()
      ensures Filed() && pathIds.Valid() && Mirrored(ecmpPaths.Keys, calls) && Flagged() && Chosen()
    {
    }

    lemma Assembled()
      requires Filed() && Mirrored(ecmpPaths.Keys, calls) && Flagged() && Chosen()
      ensures Valid()
    {
    }

    lemma PriorIsOnFile(prior: Path, key: PathKey)
      requires Filed() && Lookup(peerPathMap, key) == Some(prior)
      ensures prior in pathRouteMap && prior in slotOf && prior in keyOf && keyOf[prior] == key
      ensures slotOf[prior] == pathRouteMap[prior].routeListIdx < |published|
    {
    }

    method Replace(key: PathKey, path: Path, prior: Option<Path>) returns (route: Route)
      requires pathIds.Valid() && prior == Lookup(peerPathMap, key)
      requires prior.Some? ==> prior.value in pathRouteMap && prior.value in slotOf
                               && slotOf[prior.value] == pathRouteMap[prior.value].routeListIdx < |published|
      modifies this, pathIds
      ensures fresh(route) && fresh(route.pathInfo) && Stores(key, path, prior, route)
      ensures recalculate == (old(recalculate) || locRibPath.None? || SourceOf(locRibPath.value) >= SourceOf(path))
    {
      hide Put, Lookup, Rekey, Reslot, SourceOf, Infos, Place;
      var slot := -1;
      if prior.Some? { slot := Retire(prior.value); }
      route := Store(key, path, slot);
      Record(key, path, prior, route);
    }

    // Whatever was stored under the key, the path is stored there now; what it replaces stays on file for good.
    method AddOrUpdatePath(peer: string, id: nat, path: Path) returns (added: bool)
      requires Valid()
      requires Lookup(peerPathMap, (peer, id)) == Some(path) || (IsNew(path) && Fits((peer, id), path))
      modifies this, pathIds
      ensures Valid()
      ensures ecmpPaths == old(ecmpPaths) && calls == old(calls) && locRibPathRoute == old(locRibPathRoute)
      ensures old(routes) <= routes && forall r :: r in routes && r !in old(routes) ==> fresh(r) && fresh(r.pathInfo)
      ensures pathRouteMap.Keys == old(pathRouteMap).Keys + {path}
      ensures forall p :: p in old(pathRouteMap) && p != path ==> pathRouteMap[p] == old(pathRouteMap)[p]
      ensures keyOf == Rekey(old(keyOf), Lookup(old(peerPathMap), (peer, id)), (peer, id), path)
      ensures var prior := Lookup(old(peerPathMap), (peer, id));
              && added == prior.None?
              && peerPathMap == Put(old(peerPathMap), (peer, id), path)
              && Slots(published, keyOf) == Slots(old(published), old(keyOf)) + (if added then [(peer, id)] else [])
              && Leaked() == old(Leaked()) + (if added || prior == Some(path) then {} else {prior.value})
              && if prior == Some(path) then locRibPath == old(locRibPath) && recalculate == old(recalculate)
                 else
                   && path in pathRouteMap && pathRouteMap[path].pathInfo.pathId == id
                   && locRibPath == (if prior.Some? && old(locRibPath) == prior then None else old(locRibPath))
                   && recalculate == (old(recalculate) || locRibPath.None? || SourceOf(locRibPath.value) >= SourceOf(path))
    {
      hide Keyed, Wired, Posted, Numbered, TiesBreakable, Labelled, Indexed, Put, Lookup, PathsFrom, Rekey, Slots;
      hide Valid, Filed, Flagged, Mirrored, Chosen, Leaked, IsNew, Fits, SourceOf;
      var key: PathKey := (peer, id);
      var prior := Lookup(peerPathMap, key);
      added := prior.None?;
      if prior == Some(path) {
        PutSame(peerPathMap, key, path);
        assert Filed() by { Parts(); }
        PriorIsOnFile(path, key);
        RekeySame(keyOf, key, path);
        return;
      }
      assert Filed() && pathIds.Valid() by { Parts(); }
      if prior.Some? { PriorIsOnFile(prior.value, key); }
      var route := Replace(key, path, prior);
      StoresKeepsValid(key, path, prior, route);
      StoresLists(key, path, prior, route);
    }

    // ---------- removals ----------

    ghost function LastListed(): Path
      requires published != []
      reads this
    {
      published[|published| - 1].about
    }

    // The fields after the path stored under a key is dropped.
    twostate predicate Removes(key: PathKey, path: Path)
      reads this, pathIds, routes, Infos()
    {
      && old(Lookup(peerPathMap, key)) == Some(path) && path in old(slotOf) && path in old(pathRouteMap)
      && old(slotOf)[path] < |old(published)|
      && old(LastListed()) in old(pathRouteMap) && old(pathRouteMap[LastListed()]) in routes
      && pathIds.Valid() && pathIds.live == old(pathIds.live) - {old(pathRouteMap)[path].outPathId}
      && peerPathMap == Drop(old(peerPathMap), key) && pathRouteMap == old(pathRouteMap) - {path}
      && routes == old(routes) && keyOf == old(keyOf) - {path}
      && published == SwapRemove(old(published), old(slotOf)[path])
      && pathInfoRouteMap == old(pathInfoRouteMap) - {old(pathRouteMap)[path].pathInfo}
      && slotOf == Unslot(old(published), old(slotOf), path)
      && ecmpPaths == old(ecmpPaths) && calls == old(calls) && locRibPathRoute == old(locRibPathRoute)
      && locRibPath == (if old(locRibPath) == Some(path) then None else old(locRibPath))
      && (forall r :: r in routes && r != old(pathRouteMap[LastListed()]) ==> r.routeListIdx == old(r.routeListIdx))
      && old(pathRouteMap[LastListed()]).routeListIdx == old(slotOf)[path]
    }

    twostate lemma IndexedDrop(new key: PathKey, new path: Path)
      requires old(Indexed()) && Removes(key, path)
      requires Wired(old(keyOf).Keys, old(pathRouteMap), old(ecmpPaths), old(routes))
      ensures Indexed()
    {
      hide Drop, Lookup;
    }

    twostate lemma RemovesKeepsFiled(new key: PathKey, new path: Path)
      requires old(Filed()) && Removes(key, path)
      ensures Filed()
    {
      hide Keyed, Wired, Posted, Numbered, TiesBreakable, Labelled, Indexed, Drop, Lookup, Unslot, SwapRemove;
      KeyedDrop(old(peerPathMap), old(keyOf), key);
      WiredDrop(old(keyOf), path, old(pathRouteMap), old(ecmpPaths), old(routes));
      NumberedDrop(old(pathRouteMap), old(pathIds.live), path);
      TiesDrop(old(keyOf), path);
      LabelledDrop(old(keyOf), path, old(pathRouteMap));
      PostedDrop(old(published), old(pathInfoRouteMap), old(pathRouteMap), old(slotOf), path);
      UnslotKeys(old(published), old(pathInfoRouteMap), old(pathRouteMap), old(slotOf), path);
      IndexedDrop(key, path);
    }

    twostate lemma RemovesKeepsFlags(new key: PathKey, new path: Path)
      requires old(Flagged()) && old(Chosen()) && Removes(key, path)
      requires forall r :: r in old(routes) ==> r.action == old(r.action) && unchanged(r.pathInfo)
      ensures Flagged() && Chosen()
    {
      hide Drop, Lookup, Unslot, SwapRemove;
    }

    twostate lemma RemovesKeepsValid(new key: PathKey, new path: Path)
      requires old(Valid()) && Removes(key, path)
      requires forall r :: r in old(routes) ==> r.action == old(r.action) && unchanged(r.pathInfo)
      ensures Valid()
    {
      hide Filed, Flagged, Mirrored, Chosen, Removes;
      RemovesKeepsFiled(key, path);
      RemovesKeepsFlags(key, path);
      assert Mirrored(ecmpPaths.Keys, calls) by { RemovesInstallsNothing(key, path); }
    }

    twostate lemma RemovesInstallsNothing(new key: PathKey, new path: Path)
      requires Removes(key, path)
      ensures ecmpPaths == old(ecmpPaths) && calls == old(calls)
    {
    }

    // The last slot is the one that moves, and nothing that was left on file goes away.
    twostate lemma RemovesLists(new key: PathKey, new path: Path)
      requires old(Filed()) && Removes(key, path)
      ensures old(slotOf)[path] < |Slots(old(published), old(keyOf))|
              && Slots(old(published), old(keyOf))[old(slotOf)[path]] == key
      ensures Slots(published, keyOf) == SwapRemove(Slots(old(published), old(keyOf)), old(slotOf)[path])
      ensures Leaked() == old(Leaked())
    {
      hide Keyed, Wired, Posted, Numbered, TiesBreakable, Labelled, Indexed, Drop, Lookup, Unslot;
      StoredOnce(old(peerPathMap), old(keyOf), key);
      KeyedAt(old(peerPathMap), old(keyOf), key);
      SlotsSwap(old(published), old(pathInfoRouteMap), old(pathRouteMap), old(slotOf), old(keyOf), path);
    }

    lemma StoredRoute(path: Path, key: PathKey)
      requires Filed() && Lookup(peerPathMap, key) == Some(path)
      ensures path in pathRouteMap && path in slotOf && path in keyOf && keyOf[path] == key
      ensures slotOf[path] == pathRouteMap[path].routeListIdx < |published|
      ensures pathRouteMap[path] in routes && pathRouteMap[path].outPathId in pathIds.live
      ensures LastListed() in pathRouteMap && pathRouteMap[LastListed()] in routes
      ensures published[|published| - 1] in pathInfoRouteMap
      ensures pathInfoRouteMap[published[|published| - 1]] == pathRouteMap[LastListed()]
    {
    }

    // The published list always knows the route of its last slot, so the source's error branch is never taken.
    method Unlist(route: Route)
      requires 0 <= route.routeListIdx < |published| && published[|published| - 1] in pathInfoRouteMap
      requires pathInfoRouteMap[published[|published| - 1]] in routes
      modifies `pathInfoRouteMap, `published, routes`routeListIdx
      ensures pathInfoRouteMap == old(pathInfoRouteMap) - {route.pathInfo}
      ensures published == SwapRemove(old(published), old(route.routeListIdx))
      ensures var moved := old(pathInfoRouteMap[published[|published| - 1]]);
              && moved.routeListIdx == old(route.routeListIdx)
              && forall r :: r in routes && r != moved ==> r.routeListIdx == old(r.routeListIdx)
    {
      if route.routeListIdx != -1 {
        var newRoute := pathInfoRouteMap[published[|published| - 1]];
        pathInfoRouteMap := pathInfoRouteMap - {route.pathInfo};
        published := SwapRemove(published, route.routeListIdx);
        newRoute.routeListIdx := route.routeListIdx;
      }
    }

    // The id goes back, and a path that mattered makes a new selection due.
    method Release(path: Path, id: nat)
      requires pathIds.Valid() && id in pathIds.live
      modifies `recalculate, `locRibPath, pathIds
      ensures recalculate == (old(recalculate) || path in ecmpPaths || old(locRibPath) == Some(path))
      ensures locRibPath == if old(locRibPath) == Some(path) then None else old(locRibPath)
      ensures pathIds.Valid() && pathIds.live == old(pathIds.live) - {id}
    {
      if path in ecmpPaths { recalculate := true; }
      if locRibPath == Some(path) { recalculate, locRibPath := true, None; }
      pathIds.ReleaseId(id);
    }

    method Unfile(key: PathKey, path: Path, ghost slots: map<Path, nat>)
      modifies `pathRouteMap, `peerPathMap, `keyOf, `slotOf
      ensures pathRouteMap == old(pathRouteMap) - {path} && peerPathMap == Drop(old(peerPathMap), key)
      ensures keyOf == old(keyOf) - {path} && slotOf == slots
    {
      pathRouteMap := pathRouteMap - {path};
      peerPathMap := Drop(peerPathMap, key);
      slotOf := slots;
      keyOf := keyOf - {path};
    }

    method Withdraw(key: PathKey, path: Path)
      requires pathIds.Valid() && Lookup(peerPathMap, key) == Some(path)
      requires path in pathRouteMap && path in slotOf && slotOf[path] == pathRouteMap[path].routeListIdx < |published|
      requires pathRouteMap[path] in routes && pathRouteMap[path].outPathId in pathIds.live
      requires LastListed() in pathRouteMap && pathRouteMap[LastListed()] in routes
      requires published[|published| - 1] in pathInfoRouteMap
      requires pathInfoRouteMap[published[|published| - 1]] == pathRouteMap[LastListed()]
      modifies this, pathIds, routes`routeListIdx
      ensures Removes(key, path)
      ensures recalculate == (old(recalculate) || path in ecmpPaths || old(locRibPath) == Some(path))
    {
      hide Lookup, Drop, Infos, SwapRemove, Unslot;
      var route := pathRouteMap[path];
      ghost var slots := Unslot(published, slotOf, path);
      Release(path, route.outPathId);
      Unfile(key, path, slots);
      Unlist(route);
    }

    method RemovePath(peer: string, id: nat) returns (oldPath: Option<Path>)
      requires Valid()
      modifies this, pathIds, routes`routeListIdx
      ensures Valid()
      ensures ecmpPaths == old(ecmpPaths) && calls == old(calls) && Leaked() == old(Leaked()) && routes == old(routes)
      ensures oldPath == Lookup(old(peerPathMap), (peer, id))
      ensures oldPath.None? ==> unchanged(this)
      ensures oldPath.Some? ==>
                && peerPathMap == Drop(old(peerPathMap), (peer, id)) && keyOf == old(keyOf) - {oldPath.value}
                && pathRouteMap == old(pathRouteMap) - {oldPath.value}
                && locRibPath == (if old(locRibPath) == oldPath then None else old(locRibPath))
                && recalculate == (old(recalculate) || oldPath.value in ecmpPaths || old(locRibPath) == oldPath)
                && var was := Slots(old(published), old(keyOf));
                   exists i: nat :: i < |was| && was[i] == (peer, id) && Slots(published, keyOf) == SwapRemove(was, i)
    {
      hide Keyed, Wired, Posted, Numbered, TiesBreakable, Labelled, Indexed, Drop, Lookup, Unslot, Slots;
      hide Valid, Filed, Flagged, Mirrored, Chosen, Leaked, Infos;
      var key: PathKey := (peer, id);
      oldPath := Lookup(peerPathMap, key);
      if oldPath.Some? {
        assert Filed() && pathIds.Valid() by { Parts(); }
        StoredRoute(oldPath.value, key);
        Withdraw(key, oldPath.value);
        RemovesKeepsValid(key, oldPath.value);
        RemovesLists(key, oldPath.value);
      }
    }

    lemma PeersHavePaths(peer: string)
      requires Filed() && PathsFrom(peerPathMap, peer) == map[]
      ensures peerPathMap - {peer} == peerPathMap
    {
    }

    lemma StoredUnder(key: PathKey)
      requires Filed() && key.1 in PathsFrom(peerPathMap, key.0)
      ensures Lookup(peerPathMap, key).Some? && Lookup(peerPathMap, key).value in keyOf
      ensures keyOf[Lookup(peerPathMap, key).value] == key
    {
    }

    lemma KeyIsListed(path: Path)
      requires Filed() && path in keyOf
      ensures keyOf[path].1 in PathsFrom(peerPathMap, keyOf[path].0)
    {
    }

    method RemoveAllPaths(peer: string)
      requires Valid()
      modifies this, pathIds, routes`routeListIdx
      ensures Valid()
      ensures ecmpPaths == old(ecmpPaths) && calls == old(calls) && Leaked() == old(Leaked()) && routes == old(routes)
      ensures peerPathMap == old(peerPathMap) - {peer}
      ensures keyOf == map p | p in old(keyOf) && old(keyOf)[p].0 != peer :: old(keyOf)[p]
      ensures locRibPath == if old(locRibPath.Some? && locRibPath.value in keyOf && keyOf[locRibPath.value].0 == peer)
                            then None else old(locRibPath)
      ensures recalculate == (old(recalculate) || !(old(keyOf).Keys - keyOf.Keys !! ecmpPaths.Keys))
    {
      hide Valid, Filed, Leaked, Drop, PathsFrom, Lookup, Infos, Slots, SwapRemove, Dropping;
      var ids := PathsFrom(peerPathMap, peer).Keys;
      ghost var was := Remains(keyOf, locRibPath, recalculate);
      assert Filed() && Chosen() by { Parts(); }
      assert Dropping(was, was, peer, ecmpPaths.Keys) by { NothingDropped(was, peer, ecmpPaths.Keys); }
      while ids != {}
        invariant Valid() && Filed() && ids == PathsFrom(peerPathMap, peer).Keys
                  && peerPathMap - {peer} == old(peerPathMap) - {peer}
        invariant ecmpPaths == old(ecmpPaths) && calls == old(calls) && Leaked() == old(Leaked()) && routes == old(routes)
        invariant Dropping(was, Remains(keyOf, locRibPath, recalculate), peer, ecmpPaths.Keys)
        decreases |ids|
      {
        var id :| id in ids;
        StoredUnder((peer, id));
        DropFrom(peerPathMap, (peer, id));
        ghost var gone := Lookup(peerPathMap, (peer, id)).value;
        DropOneMore(was, Remains(keyOf, locRibPath, recalculate), peer, gone, ecmpPaths.Keys);
        var oldPath := RemovePath(peer, id);
        ids := ids - {id};
        assert Filed() by { Parts(); }
      }
      PeersHavePaths(peer);
      forall p | p in keyOf ensures keyOf[p].0 != peer { KeyIsListed(p); }
      AllDropped(was, Remains(keyOf, locRibPath, recalculate), peer, ecmpPaths.Keys);
    }

    // ---------- candidates ----------

    // The path last chosen is a candidate whatever its state; the others must be usable, that is reachable
    // and free of loops.
    ghost function Eligible(usable: set<Path>): set<Path>
      reads this
    {
      set p | p in keyOf && (locRibPath == Some(p) || p in usable)
    }

    // The part of Eligible among the paths under `keys`, apart from the one last chosen.
    ghost function Seen(usable: set<Path>, done: set<PathKey>): set<Path>
      reads this
    {
      set p | p in keyOf && ((locRibPath == Some(p)) || (p in usable && keyOf[p] in done))
    }

    // The paths a visit considers beside the one last chosen.
    ghost function Others(usable: set<Path>): set<Path>
      reads `keyOf, `locRibPath
    {
      set p | p in keyOf && p in usable && locRibPath != Some(p)
    }

    // `order` lists the considered paths under `done`, peer by peer.
    ghost predicate Listed(order: seq<Path>, usable: set<Path>, done: set<PathKey>)
      reads `keyOf, `locRibPath
    {
      && VisitOrder.Distinct(order) && VisitOrder.Contiguous(order, PeerIn(keyOf))
      && forall p :: p in order <==> p in Others(usable) && keyOf[p] in done
    }

    // `more` lists those of one peer.
    ghost predicate ListedFrom(more: seq<Path>, usable: set<Path>, got: set<PathKey>)
      reads `keyOf, `locRibPath
    {
      VisitOrder.Distinct(more) && forall p :: p in more <==> p in Others(usable) && keyOf[p] in got
    }

    lemma ListMore(more: seq<Path>, usable: set<Path>, got: set<PathKey>, key: PathKey, path: Path)
      requires Filed() && Lookup(peerPathMap, key) == Some(path) && key !in got && ListedFrom(more, usable, got)
      ensures if locRibPath != Some(path) && path in usable then ListedFrom(more + [path], usable, got + {key})
              else ListedFrom(more, usable, got + {key})
    {
      hide Posted, Wired, Numbered, TiesBreakable, Labelled, Indexed;
      StoredOnce(peerPathMap, keyOf, key);
      KeyedAt(peerPathMap, keyOf, key);
    }

    lemma ListPeer(order: seq<Path>, more: seq<Path>, usable: set<Path>, done: set<PathKey>, got: set<PathKey>,
      peer: string)
      requires Listed(order, usable, done) && ListedFrom(more, usable, got)
      requires (forall k: PathKey :: k in got ==> k.0 == peer) && forall k: PathKey :: k in done ==> k.0 != peer
      ensures Listed(order + more, usable, done + got)
    {
      forall i | 0 <= i < |order| ensures PeerIn(keyOf)(order[i]) != peer { assert order[i] in order; }
      forall i | 0 <= i < |more| ensures PeerIn(keyOf)(more[i]) == peer { assert more[i] in more; }
      PeersApart(order, more, PeerIn(keyOf), peer);
    }

    // The candidates after the path ids `gone` of one peer, behind those of the peers before.
    ghost predicate Collected(b: Best, more: seq<Path>, b0: Best, usable: set<Path>, done: set<PathKey>, peer: string,
      gone: set<nat>)
      reads this
    {
      && BestOf(b, Seen(usable, done + KeysOf(peer, gone))) && ListedFrom(more, usable, KeysOf(peer, gone))
      && b == Walked(b0, more)
    }

    lemma CollectOne(b: Best, more: seq<Path>, b0: Best, usable: set<Path>, done: set<PathKey>, peer: string,
      gone: set<nat>, id: nat, path: Path)
      requires Collected(b, more, b0, usable, done, peer, gone) && Filed() && Lookup(peerPathMap, (peer, id)) == Some(path)
      requires id !in gone && (peer, id) !in done
      ensures if locRibPath != Some(path) && path in usable
              then Collected(Consider(b, path), more + [path], b0, usable, done, peer, gone + {id})
              else Collected(b, more, b0, usable, done, peer, gone + {id})
    {
      hide Filed, BestOf, Consider, Seen, ListedFrom, Walked, KeysOf;
      var got := KeysOf(peer, gone);
      OneMoreKey(peer, gone, id, done);
      SeenOneMore(usable, done + got, (peer, id), path);
      ListMore(more, usable, got, (peer, id), path);
      if locRibPath != Some(path) && path in usable {
        ConsiderKeeps(b, Seen(usable, done + got), path);
        WalkedOne(b0, more, path);
      }
    }

    method CandidatesFrom(peer: string, usable: set<Path>, b0: Best, ghost done: set<PathKey>)
      returns (b: Best, ghost more: seq<Path>)
      requires Filed() && BestOf(b0, Seen(usable, done)) && forall id :: (peer, id) !in done
      ensures Collected(b, more, b0, usable, done, peer, PathsFrom(peerPathMap, peer).Keys)
    {
      hide Filed, Consider, Collected;
      b, more := b0, [];
      var pathMap := PathsFrom(peerPathMap, peer);
      var ids := pathMap.Keys;
      ghost var gone: set<nat> := {};
      NothingCollected(b0, usable, done, peer);
      while ids != {}
        invariant ids + gone == pathMap.Keys && ids !! gone && Collected(b, more, b0, usable, done, peer, gone)
        decreases |ids|
      {
        var id :| id in ids;
        var path := pathMap[id];
        CollectOne(b, more, b0, usable, done, peer, gone, id, path);
        if locRibPath != Some(path) && path in usable {
          b, more := Consider(b, path), more + [path];
        }
        ids, gone := ids - {id}, gone + {id};
      }
    }

    lemma NothingCollected(b0: Best, usable: set<Path>, done: set<PathKey>, peer: string)
      requires BestOf(b0, Seen(usable, done))
      ensures Collected(b0, [], b0, usable, done, peer, {})
    {
      hide BestOf, Seen, ListedFrom, KeysOf;
      NothingListed(b0, usable);
      NoKeys(peer, done);
    }

    // The stored paths of the best source, once each, as a walk yields them; the path last chosen comes first while its
    // source is the best one.
    method Candidates(usable: set<Path>) returns (updated: seq<Path>, source: nat, ghost order: seq<Path>)
      requires Valid()
      ensures BestOf(Best(updated, source), Eligible(usable))
      ensures Walk(order, Others(usable), PeerIn(keyOf)) && Best(updated, source) == Walked(Beginning(locRibPath), order)
      ensures locRibPath.Some? && source == SourceOf(locRibPath.value) ==> updated != [] && updated[0] == locRibPath.value
    {
      hide Valid, Filed, BestOf, Seen, Eligible, Listed, Walked;
      assert Filed() by { Parts(); }
      ghost var done: set<PathKey> := {};
      ghost var start := Beginning(locRibPath);
      var b := if locRibPath.Some? then Best([locRibPath.value], SourceOf(locRibPath.value)) else Best([], SRC_UNKNOWN);
      order := [];
      assert BestOf(b, Seen(usable, {})) by { NothingDone(usable); }
      assert Listed(order, usable, {}) && b == Walked(start, order) by { NothingListed(start, usable); }
      var peers := peerPathMap.Keys;
      while peers != {}
        invariant peers <= peerPathMap.Keys && BestOf(b, Seen(usable, done))
        invariant Listed(order, usable, done) && b == Walked(start, order)
        invariant forall key: PathKey :: key in done ==> key.0 !in peers
        invariant forall key: PathKey :: key.0 in peerPathMap && key.0 !in peers && key.1 in peerPathMap[key.0] ==>
                  key in done
        decreases |peers|
      {
        var peer :| peer in peers;
        ghost var more;
        b, more := CandidatesFrom(peer, usable, b, done);
        ghost var got := KeysOf(peer, PathsFrom(peerPathMap, peer).Keys);
        ListPeer(order, more, usable, done, got, peer);
        WalkedMore(start, order, more);
        order, done := order + more, done + got;
        peers := peers - {peer};
      }
      AllSeen(usable, done);
      AllListed(order, usable, done);
      ChosenHeads(order, usable);
      updated, source := b.updated, b.source;
    }

    lemma NothingListed(start: Best, usable: set<Path>)
      ensures Listed([], usable, {}) && ListedFrom([], usable, {}) && Walked(start, []) == start
    {
    }

    lemma AllListed(order: seq<Path>, usable: set<Path>, done: set<PathKey>)
      requires Filed() && Listed(order, usable, done)
      requires forall key: PathKey :: key.0 in peerPathMap && key.1 in peerPathMap[key.0] ==> key in done
      ensures Walk(order, Others(usable), PeerIn(keyOf))
    {
      hide Posted, Wired, Numbered, TiesBreakable, Labelled, Indexed, VisitOrder.Contiguous;
      forall p | p in keyOf ensures keyOf[p] in done { assert Lookup(peerPathMap, keyOf[p]) == Some(p); }
    }

    lemma ChosenHeads(order: seq<Path>, usable: set<Path>)
      requires Walk(order, Others(usable), PeerIn(keyOf))
      ensures var b := Walked(Beginning(locRibPath), order);
              locRibPath.Some? && b.source == SourceOf(locRibPath.value) ==>
                b.updated != [] && b.updated[0] == locRibPath.value
    {
      hide Walked, VisitOrder.Contiguous;
      HeadMeans(locRibPath, order);
    }

    lemma NothingDone(usable: set<Path>)
      requires Valid()
      ensures BestOf(if locRibPath.Some? then Best([locRibPath.value], SourceOf(locRibPath.value))
              else Best([], SRC_UNKNOWN),
                     Seen(usable, {}))
    {
      hide Filed, Mirrored, Flagged;
      assert Seen(usable, {}) == if locRibPath.Some? then {locRibPath.value} else {};
    }

    lemma AllSeen(usable: set<Path>, done: set<PathKey>)
      requires Filed()
      requires forall key: PathKey :: key.0 in peerPathMap && key.1 in peerPathMap[key.0] ==> key in done
      ensures Seen(usable, done) == Eligible(usable)
    {
      hide Posted, Wired, Numbered, TiesBreakable, Labelled, Indexed;
      forall p | p in keyOf ensures keyOf[p] in done { assert Lookup(peerPathMap, keyOf[p]) == Some(p); }
    }

    lemma SeenOneMore(usable: set<Path>, done: set<PathKey>, key: PathKey, path: Path)
      requires Filed() && Lookup(peerPathMap, key) == Some(path) && key !in done
      ensures if locRibPath != Some(path) && path in usable
              then path !in Seen(usable, done) && Seen(usable, done + {key}) == Seen(usable, done) + {path}
              else Seen(usable, done + {key}) == Seen(usable, done)
    {
      hide Posted, Wired, Numbered, TiesBreakable, Labelled, Indexed;
      StoredOnce(peerPathMap, keyOf, key);
      KeyedAt(peerPathMap, keyOf, key);
    }

    // ---------- installation ----------

    // What installing one group does: the path picked from it is in, with its action pending.
    twostate predicate Installs(paths: seq<Path>, first: bool, found: bool)
      requires paths != []
      reads this, routes`action, Infos()
    {
      var pick := PickOf(paths, first, old(ecmpPaths).Keys);
      && found == (pick in old(ecmpPaths))
      && (found || (pick in pathRouteMap && pick == paths[0]))
      && ecmpPaths == (if found then old(ecmpPaths) else old(ecmpPaths)[pick := pathRouteMap[pick]])
      && routes == old(routes) && pathRouteMap == old(pathRouteMap)
      && var route := ecmpPaths[pick];
      && route in routes
      && route.action == (if found then ActionReplace else ActionAdd)
      && route.pathInfo.multiPath == (old(route.pathInfo.multiPath) || !found)
      && route.pathInfo.bestPath == (if found then first && old(route.pathInfo.bestPath)
         else first || old(route.pathInfo.bestPath))
      && (forall r :: r in routes && r != route ==> r.action == old(r.action))
      && (forall r :: r in routes && r.pathInfo != route.pathInfo ==> unchanged(r.pathInfo))
    }

    method InstallGroup(paths: seq<Path>, first: bool) returns (found: bool)
      requires paths != [] && paths[0] in pathRouteMap && pathRouteMap[paths[0]] in routes
      requires forall p :: p in ecmpPaths ==> ecmpPaths[p] in routes
      modifies `ecmpPaths, routes`action, Infos()
      ensures Installs(paths, first, found)
    {
      var pathIdx := FindInstalled(paths, first, ecmpPaths.Keys);
      found := pathIdx < |paths|;
      if found {
        var route := ecmpPaths[paths[pathIdx]];
        route.action := ActionReplace;
        if !first { route.pathInfo.bestPath := false; }
      } else {
        var newRoute := pathRouteMap[paths[0]];
        newRoute.action := ActionAdd;
        newRoute.pathInfo.multiPath := true;
        if first { newRoute.pathInfo.bestPath := true; }
        ecmpPaths := ecmpPaths[paths[0] := newRoute];
      }
    }

    // After some groups: `was` was installed before and `picks` is what they contributed. An action is pending for the
    // picks only, and the best flag is left on the best path and on paths about to go.
    ghost predicate Installing(was: set<Path>, picks: set<Path>, best: Path)
      reads `ecmpPaths, `pathRouteMap, `routes, routes`action, Infos()
    {
      && ecmpPaths.Keys == was + picks
      && (forall p :: p in ecmpPaths ==>
            && ecmpPaths[p] in routes && ecmpPaths[p].pathInfo.multiPath
            && ecmpPaths[p].action != ActionDelete && (ecmpPaths[p].action == ActionNone <==> p !in picks)
            && (ecmpPaths[p].pathInfo.bestPath ==> p == best || p !in picks))
      && (forall p :: p in pathRouteMap && p !in ecmpPaths ==>
            pathRouteMap[p] in routes && !pathRouteMap[p].pathInfo.multiPath && !pathRouteMap[p].pathInfo.bestPath)
    }

    twostate lemma InstallsKeepsWired(new paths: seq<Path>, new first: bool, new found: bool)
      requires paths != [] && Installs(paths, first, found) && keyOf == old(keyOf)
      requires old(Wired(keyOf.Keys, pathRouteMap, ecmpPaths, routes))
      ensures Wired(keyOf.Keys, pathRouteMap, ecmpPaths, routes)
    {
      hide PickOf;
    }

    twostate lemma InstallsStep(new paths: seq<Path>, new first: bool, new found: bool, new was: set<Path>,
      new picks: set<Path>, new best: Path)
      requires paths != [] && Installs(paths, first, found) && old(Installing(was, picks, best))
      requires old(Wired(keyOf.Keys, pathRouteMap, ecmpPaths, routes))
      requires var pick := PickOf(paths, first, was + picks);
               pick !in picks && (first ==> pick == best) && (!first ==> best in picks)
      ensures Installing(was, picks + {PickOf(paths, first, was + picks)}, best)
    {
      hide PickOf, Wired, Installs, Installing;
      ghost var pick := PickOf(paths, first, was + picks);
      InstallsKeys(paths, first, found, was, picks, best);
      forall p | p in ecmpPaths
        ensures ecmpPaths[p] in routes && ecmpPaths[p].pathInfo.multiPath && ecmpPaths[p].action != ActionDelete
        ensures ecmpPaths[p].action == ActionNone <==> p !in picks + {pick}
        ensures ecmpPaths[p].pathInfo.bestPath ==> p == best || p !in picks + {pick}
      {
        if p == pick { PickIsMarked(paths, first, found, was, picks, best); }
        else { OtherStands(paths, first, found, was, picks, best, p); }
      }
      forall p | p in pathRouteMap && p !in ecmpPaths
        ensures pathRouteMap[p] in routes && !pathRouteMap[p].pathInfo.multiPath && !pathRouteMap[p].pathInfo.bestPath
      {
        AbsentStands(paths, first, found, was, picks, best, p);
      }
      Assembles(was, picks + {pick}, best);
    }

    twostate lemma InstallsKeys(new paths: seq<Path>, new first: bool, new found: bool, new was: set<Path>,
      new picks: set<Path>, new best: Path)
      requires paths != [] && Installs(paths, first, found) && old(Installing(was, picks, best))
      requires PickOf(paths, first, was + picks) !in picks
      ensures ecmpPaths.Keys == was + (picks + {PickOf(paths, first, was + picks)})
      ensures found <==> PickOf(paths, first, was + picks) in was
    {
      hide PickOf;
    }

    // Another path that is installed is as it was,
    twostate lemma OtherStands(new paths: seq<Path>, new first: bool, new found: bool, new was: set<Path>,
      new picks: set<Path>, new best: Path, new p: Path)
      requires paths != [] && Installs(paths, first, found) && old(Installing(was, picks, best))
      requires old(Wired(keyOf.Keys, pathRouteMap, ecmpPaths, routes))
      requires p in ecmpPaths && p != PickOf(paths, first, was + picks)
      ensures ecmpPaths[p] in routes && ecmpPaths[p].pathInfo.multiPath && ecmpPaths[p].action != ActionDelete
      ensures ecmpPaths[p].action == ActionNone <==> p !in picks
      ensures ecmpPaths[p].pathInfo.bestPath ==> p == best || p !in picks
    {
      hide PickOf, Wired;
      PickStandsAlone(paths, first, found);
    }

    // and so is one that is not.
    twostate lemma AbsentStands(new paths: seq<Path>, new first: bool, new found: bool, new was: set<Path>,
      new picks: set<Path>, new best: Path, new p: Path)
      requires paths != [] && Installs(paths, first, found) && old(Installing(was, picks, best))
      requires old(Wired(keyOf.Keys, pathRouteMap, ecmpPaths, routes)) && p in pathRouteMap && p !in ecmpPaths
      ensures pathRouteMap[p] in routes && !pathRouteMap[p].pathInfo.multiPath && !pathRouteMap[p].pathInfo.bestPath
    {
      hide PickOf, Wired;
      PickStandsAlone(paths, first, found);
    }

    lemma Assembles(was: set<Path>, picks: set<Path>, best: Path)
      requires ecmpPaths.Keys == was + picks
      requires forall p :: p in ecmpPaths ==>
                 && ecmpPaths[p] in routes && ecmpPaths[p].pathInfo.multiPath && ecmpPaths[p].action != ActionDelete
                 && (ecmpPaths[p].action == ActionNone <==> p !in picks)
                 && (ecmpPaths[p].pathInfo.bestPath ==> p == best || p !in picks)
      requires forall p :: p in pathRouteMap && p !in ecmpPaths ==>
                 pathRouteMap[p] in routes && !pathRouteMap[p].pathInfo.multiPath && !pathRouteMap[p].pathInfo.bestPath
      ensures Installing(was, picks, best)
    {
    }

    // The pick itself: an action is pending, and the best flag is left on it only when it is the best path.
    twostate lemma PickIsMarked(new paths: seq<Path>, new first: bool, new found: bool, new was: set<Path>,
      new picks: set<Path>, new best: Path)
      requires paths != [] && Installs(paths, first, found) && old(Installing(was, picks, best))
      requires first ==> PickOf(paths, first, was + picks) == best
      ensures var route := ecmpPaths[PickOf(paths, first, was + picks)];
              && route in routes && route.pathInfo.multiPath && route.action in {ActionReplace, ActionAdd}
              && (route.pathInfo.bestPath ==> PickOf(paths, first, was + picks) == best)
    {
      hide PickOf;
    }

    // No other path has the route of the pick.
    twostate lemma PickStandsAlone(new paths: seq<Path>, new first: bool, new found: bool)
      requires paths != [] && Installs(paths, first, found) && old(Wired(keyOf.Keys, pathRouteMap, ecmpPaths, routes))
      ensures var route := ecmpPaths[PickOf(paths, first, old(ecmpPaths).Keys)];
              forall p :: p in ecmpPaths && p != route.path ==>
                p in old(ecmpPaths) && ecmpPaths[p] == old(ecmpPaths)[p] && ecmpPaths[p] != route
                && ecmpPaths[p].pathInfo != route.pathInfo
      ensures var pick := PickOf(paths, first, old(ecmpPaths).Keys);
              ecmpPaths[pick].path == pick && forall p :: p in pathRouteMap && p != pick ==>
                pathRouteMap[p] != ecmpPaths[pick] && pathRouteMap[p].pathInfo != ecmpPaths[pick].pathInfo
    {
      hide PickOf;
    }

    lemma StartInstalling(best: Path)
      requires Flagged()
      ensures Installing(ecmpPaths.Keys, {}, best)
    {
    }

    // Whether the best path's route carries the best flag, with its path installed.
    ghost predicate Crowned(best: Path)
      reads `ecmpPaths, `routes, Infos()
    {
      best in ecmpPaths && ecmpPaths[best] in routes && ecmpPaths[best].pathInfo.bestPath
    }

    lemma RouteOnFile(path: Path)
      requires Wired(keyOf.Keys, pathRouteMap, ecmpPaths, routes) && path in keyOf
      ensures path in pathRouteMap && pathRouteMap[path] in routes
    {
    }

    lemma RoutesInstalled()
      requires Wired(keyOf.Keys, pathRouteMap, ecmpPaths, routes)
      ensures forall p :: p in ecmpPaths ==> ecmpPaths[p] in routes
    {
    }

    lemma InstalledKeys(was: set<Path>, picks: set<Path>, best: Path)
      requires Installing(was, picks, best)
      ensures ecmpPaths.Keys == was + picks
    {
    }

    twostate lemma InstallsCrown(new paths: seq<Path>, new first: bool, new found: bool, new best: Path)
      requires paths != [] && Installs(paths, first, found) && old(Wired(keyOf.Keys, pathRouteMap, ecmpPaths, routes))
      requires var pick := PickOf(paths, first, old(ecmpPaths).Keys);
               (first ==> pick == best) && (!first ==> best in old(ecmpPaths) && best != pick)
      ensures Crowned(best) == if first && !found then true else old(Crowned(best))
    {
      hide PickOf;
    }

    // One round of the installation loop.
    method InstallNth(groups: seq<seq<Path>>, idx: nat, ghost best: Path, ghost tied: seq<Path>, ghost was: set<Path>)
      returns (found: bool)
      requires Wired(keyOf.Keys, pathRouteMap, ecmpPaths, routes)
      requires Arranged(groups, best, tied) && best in keyOf && (forall i :: 0 <= i < |tied| ==> tied[i] in keyOf)
      requires idx < |groups| && Installing(was, PicksTo(groups, idx, was), best)
      modifies `ecmpPaths, routes`action, Infos()
      ensures Wired(keyOf.Keys, pathRouteMap, ecmpPaths, routes)
      ensures Installing(was, PicksTo(groups, idx + 1, was), best)
      ensures found == (PickAt(groups, idx, was) in was) && (!found ==> PickAt(groups, idx, was) == groups[idx][0])
      ensures Crowned(best) == if idx == 0 && !found then true else old(Crowned(best))
    {
      hide Wired, Installing, Installs, Arranged, PicksTo, PickOf, Crowned, InSome;
      GroupsAreFilled(groups, best, tied);
      ghost var picks := PicksTo(groups, idx, was);
      ghost var pick := PickAt(groups, idx, was);
      PickIsStable(groups, idx, best, tied, was);
      PicksAreDistinct(groups, idx, best, tied, was);
      PickHop(groups, idx, best, tied, was);
      InstalledKeys(was, picks, best);
      RouteOnFile(groups[idx][0]);
      RoutesInstalled();
      found := InstallGroup(groups[idx], idx == 0);
      InstallsKeepsWired(groups[idx], idx == 0, found);
      InstallsStep(groups[idx], idx == 0, found, was, picks, best);
      InstallsCrown(groups[idx], idx == 0, found, best);
      InstallsFound(groups[idx], idx == 0, found);
    }

    twostate lemma InstallsFound(new paths: seq<Path>, new first: bool, new found: bool)
      requires paths != [] && Installs(paths, first, found)
      ensures found == (PickOf(paths, first, old(ecmpPaths).Keys) in old(ecmpPaths))
      ensures !found ==> PickOf(paths, first, old(ecmpPaths).Keys) == paths[0]
    {
      hide PickOf;
    }

    method InstallGroups(groups: seq<seq<Path>>, ghost best: Path, ghost tied: seq<Path>)
      returns (created: seq<Path>, firstRoute: bool, action: RouteAction)
      requires Wired(keyOf.Keys, pathRouteMap, ecmpPaths, routes) && Flagged()
      requires Arranged(groups, best, tied) && best in keyOf && forall i :: 0 <= i < |tied| ==> tied[i] in keyOf
      modifies `ecmpPaths, routes`action, Infos()
      ensures Wired(keyOf.Keys, pathRouteMap, ecmpPaths, routes)
      ensures forall g :: 0 <= g < |groups| ==> groups[g] != []
      ensures var was := old(ecmpPaths).Keys; var picks := PicksTo(groups, |groups|, was);
              && Installing(was, picks, best) && ToCreate(created, was, picks) && firstRoute == (picks !! was)
              && Crowned(best) == (best !in was || old(Crowned(best)))
              && action == (if best !in was then ActionAdd else if best.IsAggregate() then ActionReplace else ActionNone)
    {
      hide Wired, Flagged, Installing, Installs, Arranged, PicksTo, PickOf, PickAt, Crowned, InSome, ToCreate;
      GroupsAreFilled(groups, best, tied);
      created, firstRoute, action := [], true, ActionNone;
      ghost var was := ecmpPaths.Keys;
      StartInstalling(best);
      NoPicksYet(groups, was);
      assert ToCreate(created, was, PicksTo(groups, 0, was)) by { NothingToCreate(was); }
      for idx := 0 to |groups|
        invariant Wired(keyOf.Keys, pathRouteMap, ecmpPaths, routes)
        invariant Installing(was, PicksTo(groups, idx, was), best)
        invariant ToCreate(created, was, PicksTo(groups, idx, was)) && firstRoute == (PicksTo(groups, idx, was) !! was)
        invariant Crowned(best) == ((idx > 0 && best !in was) || old(Crowned(best)))
        invariant idx == 0 ==> action == ActionNone
        invariant idx > 0 ==> action == if best !in was then ActionAdd else if best.IsAggregate() then ActionReplace
                  else ActionNone
      {
        var paths := groups[idx];
        PickIsStable(groups, idx, best, tied, was);
        PickHop(groups, idx, best, tied, was);
        var found := InstallNth(groups, idx, best, tied, was);
        CreateOneMore(created, was, PicksTo(groups, idx, was), PickAt(groups, idx, was));
        if found {
          firstRoute := false;
          if idx == 0 && paths[0].IsAggregate() { action := ActionReplace; }
        } else {
          if paths[0].IsProgrammed() { created := created + [paths[0]]; }
          if idx == 0 { action := ActionAdd; }
        }
      }
    }

    // ---------- taking out what is stale ----------

    // The installed paths to keep are those with an action pending other than deletion.
    ghost predicate Pending(keep: set<Path>, todo: set<Path>, crown: Route?)
      reads `ecmpPaths, `pathRouteMap, `routes, routes`action, Infos()
    {
      && keep <= ecmpPaths.Keys && todo <= ecmpPaths.Keys
      && (forall p :: p in ecmpPaths ==>
            && ecmpPaths[p] in routes && ecmpPaths[p].pathInfo.multiPath
            && (if p in todo then p in keep <==> ecmpPaths[p].action != ActionNone && ecmpPaths[p].action != ActionDelete
                else p in keep && ecmpPaths[p].action == ActionNone)
            && (p in keep && ecmpPaths[p].pathInfo.bestPath ==> ecmpPaths[p] == crown))
      && (forall p :: p in pathRouteMap && p !in ecmpPaths ==>
            pathRouteMap[p] in routes && !pathRouteMap[p].pathInfo.multiPath && !pathRouteMap[p].pathInfo.bestPath)
    }

    // What one round of the clean-up loop does to a path's route.
    twostate predicate Settles(path: Path, kept: bool)
      reads this, routes`action, Infos()
    {
      && path in old(ecmpPaths) && routes == old(routes) && pathRouteMap == old(pathRouteMap)
      && ecmpPaths == (if kept then old(ecmpPaths) else old(ecmpPaths) - {path})
      && var route := old(ecmpPaths)[path];
      && route in routes && kept == (old(route.action) != ActionNone && old(route.action) != ActionDelete)
      && (kept ==> route.action == ActionNone && unchanged(route.pathInfo))
      && (!kept ==> !route.pathInfo.bestPath && !route.pathInfo.multiPath)
      && (forall r :: r in routes && r != route ==> r.action == old(r.action))
      && (forall r :: r in routes && r.pathInfo != route.pathInfo ==> unchanged(r.pathInfo))
    }

    twostate lemma SettlesPending(new path: Path, new kept: bool, new keep: set<Path>, new todo: set<Path>, crown: Route?)
      requires Settles(path, kept) && old(Pending(keep, todo, crown)) && path in todo
      requires keyOf == old(keyOf) && old(Wired(keyOf.Keys, pathRouteMap, ecmpPaths, routes))
      ensures Pending(keep, todo - {path}, crown) && kept == (path in keep)
    {
    }

    twostate lemma SettlesWired(new path: Path, new kept: bool)
      requires Settles(path, kept) && keyOf == old(keyOf) && old(Wired(keyOf.Keys, pathRouteMap, ecmpPaths, routes))
      ensures Wired(keyOf.Keys, pathRouteMap, ecmpPaths, routes)
    {
    }

    // The best flags of the paths that stay are not touched.
    twostate lemma SettlesFlags(new path: Path, new kept: bool, new keep: set<Path>)
      requires Settles(path, kept) && keep <= ecmpPaths.Keys && old(Wired(keyOf.Keys, pathRouteMap, ecmpPaths, routes))
      ensures forall p :: p in keep ==> ecmpPaths[p].pathInfo.bestPath == old(ecmpPaths[p].pathInfo.bestPath)
    {
    }

    method SettleRoute(path: Path) returns (kept: bool)
      requires path in ecmpPaths && ecmpPaths[path] in routes
      modifies `ecmpPaths, `calls, routes`action, Infos()
      ensures Settles(path, kept)
      ensures ecmpPaths == if kept then old(ecmpPaths) else old(ecmpPaths) - {path}
      ensures calls == if !kept && path.IsProgrammed() then old(calls) + [Remove(path.nextHop)] else old(calls)
    {
      var route := ecmpPaths[path];
      kept := route.action != ActionNone && route.action != ActionDelete;
      if !kept {
        if path.IsProgrammed() { calls := calls + [Remove(path.nextHop)]; }
        route.pathInfo.bestPath := false;
        route.pathInfo.multiPath := false;
        ecmpPaths := ecmpPaths - {path};
      } else {
        route.action := ActionNone;
      }
    }

    // One round of the clean-up loop.
    method Settle(path: Path, ghost keep: set<Path>, ghost todo: set<Path>, ghost crown: Route?)
      requires Wired(keyOf.Keys, pathRouteMap, ecmpPaths, routes) && Pending(keep, todo, crown) && path in todo
      modifies `ecmpPaths, `calls, routes`action, Infos()
      ensures Wired(keyOf.Keys, pathRouteMap, ecmpPaths, routes) && Pending(keep, todo - {path}, crown)
      ensures ecmpPaths == if path in keep then old(ecmpPaths) else old(ecmpPaths) - {path}
      ensures calls == if path !in keep && path.IsProgrammed() then old(calls) + [Remove(path.nextHop)] else old(calls)
      ensures forall p :: p in keep ==> ecmpPaths[p].pathInfo.bestPath == old(ecmpPaths[p].pathInfo.bestPath)
    {
      hide Wired, Pending, Settles;
      PendingKeys(keep, todo, crown);
      RoutesInstalled();
      var kept := SettleRoute(path);
      SettlesPending(path, kept, keep, todo, crown);
      SettlesWired(path, kept);
      PendingKeys(keep, todo - {path}, crown);
      SettlesFlags(path, kept, keep);
    }

    method RemoveStale(ghost keep: set<Path>, ghost was: set<Path>, ghost crown: Route?)
      requires Wired(keyOf.Keys, pathRouteMap, ecmpPaths, routes) && Pending(keep, ecmpPaths.Keys, crown)
      requires ecmpPaths.Keys <= was + keep && Mirrored(ecmpPaths.Keys * was, calls)
      modifies `ecmpPaths, `calls, routes`action, Infos()
      ensures Wired(keyOf.Keys, pathRouteMap, ecmpPaths, routes) && Pending(keep, {}, crown)
      ensures ecmpPaths.Keys == keep && Mirrored(keep * was, calls)
      ensures forall p :: p in keep ==> ecmpPaths[p] == old(ecmpPaths)[p]
      ensures forall p :: p in keep ==> ecmpPaths[p].pathInfo.bestPath == old(ecmpPaths[p].pathInfo.bestPath)
    {
      hide Wired, Pending, Mirrored;
      PendingKeys(keep, ecmpPaths.Keys, crown);
      var todo := ecmpPaths.Keys;
      while todo != {}
        invariant Wired(keyOf.Keys, pathRouteMap, ecmpPaths, routes) && Pending(keep, todo, crown)
        invariant keep <= ecmpPaths.Keys <= was + keep && todo <= ecmpPaths.Keys
        invariant Mirrored(ecmpPaths.Keys * was, calls)
        invariant forall p :: p in keep ==> ecmpPaths[p] == old(ecmpPaths)[p]
        invariant forall p :: p in keep ==> ecmpPaths[p].pathInfo.bestPath == old(ecmpPaths[p].pathInfo.bestPath)
        decreases |todo|
      {
        var path :| path in todo;
        ghost var told := ecmpPaths.Keys * was;
        if path !in keep { MirrorRemove(told, calls, path); }
        Settle(path, keep, todo, crown);
        assert ecmpPaths.Keys * was == if path in keep then told else told - {path};
        todo := todo - {path};
      }
      AllSettled(keep, crown);
    }

    lemma PendingKeys(keep: set<Path>, todo: set<Path>, crown: Route?)
      requires Pending(keep, todo, crown)
      ensures keep <= ecmpPaths.Keys && todo <= ecmpPaths.Keys
    {
    }

    lemma AllSettled(keep: set<Path>, crown: Route?)
      requires Pending(keep, {}, crown)
      ensures ecmpPaths.Keys == keep
    {
    }

    // The new paths are programmed one by one, the first with Create when no installed path was kept.
    method ProgramNew(created: seq<Path>, firstRoute: bool, ghost keep: set<Path>, ghost was: set<Path>)
      requires Mirrored(keep * was, calls) && ToCreate(created, was, keep) && DistinctHops(keep)
      requires firstRoute == (keep !! was)
      modifies `calls
      ensures Mirrored(keep, calls)
    {
      hide Mirrored, ToCreate, HopsOf, Told, DistinctHops;
      ToldAtFirst(was, keep, created, calls);
      var first := firstRoute;
      for i := 0 to |created|
        invariant Mirrored(Told(keep, created, i), calls)
        invariant first ==> HopsOf(Told(keep, created, i)) == {}
      {
        ToldNext(was, keep, created, i);
        MirrorAdd(Told(keep, created, i), calls, created[i], first);
        calls := calls + [if first then Create(created[i].nextHop) else Add(created[i].nextHop)];
        first := false;
      }
      ToldAtLast(keep, created);
    }

    // No installed path has anything but its deletion pending.
    ghost predicate Doomed()
      reads `ecmpPaths, `routes, routes`action
    {
      forall p :: p in ecmpPaths ==>
        ecmpPaths[p] in routes && (ecmpPaths[p].action == ActionNone || ecmpPaths[p].action == ActionDelete)
    }

    lemma FlaggedAreDoomed()
      requires Flagged()
      ensures Doomed()
    {
    }

    method MarkOne(path: Path)
      requires Doomed() && path in ecmpPaths
      modifies routes`action
      ensures Doomed()
    {
      ecmpPaths[path].action := ActionDelete;
    }

    twostate lemma DoomedIsPending(new crown: Route?)
      requires old(Flagged()) && Doomed()
      requires ecmpPaths == old(ecmpPaths) && pathRouteMap == old(pathRouteMap) && routes == old(routes)
      requires forall r :: r in routes ==> unchanged(r.pathInfo)
      ensures Pending({}, ecmpPaths.Keys, crown)
    {
    }

    // Without a candidate, every installed path is to go.
    method MarkDeleted(ghost crown: Route?)
      requires Flagged()
      modifies routes`action
      ensures Pending({}, ecmpPaths.Keys, crown)
    {
      hide Flagged, Doomed, Pending;
      FlaggedAreDoomed();
      var todo := ecmpPaths.Keys;
      while todo != {}
        invariant todo <= ecmpPaths.Keys && Doomed()
        decreases |todo|
      {
        var path :| path in todo;
        MarkOne(path);
        todo := todo - {path};
      }
      DoomedIsPending(crown);
    }

    // ---------- selection ----------

    // Only the installed paths and what goes with them change in a selection.
    twostate lemma FiledAfterSelection()
      requires old(Filed()) && Wired(keyOf.Keys, pathRouteMap, ecmpPaths, routes)
      requires unchanged(`peerPathMap) && unchanged(`keyOf) && unchanged(`slotOf) && unchanged(`pathRouteMap)
               && unchanged(`routes)
      requires unchanged(`published) && unchanged(`pathInfoRouteMap) && unchanged(pathIds)
      requires forall r :: r in routes ==> r.routeListIdx == old(r.routeListIdx)
      ensures Filed()
    {
      hide Keyed, Wired, Posted, Numbered, TiesBreakable;
    }

    lemma InstallingIsPending(was: set<Path>, picks: set<Path>, best: Path)
      requires Installing(was, picks, best) && best in picks
      ensures best in ecmpPaths && Pending(picks, ecmpPaths.Keys, ecmpPaths[best])
    {
    }

    lemma SettledIsFlagged(keep: set<Path>)
      requires Pending(keep, {}, locRibPathRoute)
      ensures Flagged()
    {
    }

    lemma PartsFiled()
      requires Filed()
      ensures Wired(keyOf.Keys, pathRouteMap, ecmpPaths, routes) && TiesBreakable(keyOf.Keys)
    {
    }

    // Candidates of one source can be told apart.
    lemma CandidatesHaveNeighbors(candidates: seq<Path>, source: nat, usable: set<Path>)
      requires TiesBreakable(keyOf.Keys) && BestOf(Best(candidates, source), Eligible(usable)) && |candidates| > 1
      ensures forall i :: 0 <= i < |candidates| ==> candidates[i] in keyOf && candidates[i].neighbor.Some?
    {
      forall i | 0 <= i < |candidates| ensures candidates[i].neighbor.Some? {
        assert candidates[i] != candidates[if i == 0 then 1 else 0];
      }
    }

    lemma CandidatesAreStored(candidates: seq<Path>, source: nat, usable: set<Path>)
      requires BestOf(Best(candidates, source), Eligible(usable))
      ensures forall i :: 0 <= i < |candidates| ==> candidates[i] in keyOf
    {
    }

    // The branch with a candidate: the chosen path and one path of each other tied next hop are in, or about to be.
    method InstallChoice(candidates: seq<Path>, ebgp: bool, ibgp: bool)
      returns (created: seq<Path>, firstRoute: bool, action: RouteAction, ghost keep: set<Path>)
      requires Wired(keyOf.Keys, pathRouteMap, ecmpPaths, routes) && Flagged()
      requires candidates != [] && forall i :: 0 <= i < |candidates| ==> candidates[i] in keyOf
      requires |candidates| > 1 ==> forall i :: 0 <= i < |candidates| ==> candidates[i].neighbor.Some?
      modifies `ecmpPaths, `locRibPath, `locRibPathRoute, routes`action, Infos()
      ensures Wired(keyOf.Keys, pathRouteMap, ecmpPaths, routes)
      ensures var best, was, tied := Winner(candidates), old(ecmpPaths).Keys, TiedForEcmp(candidates, AsWritten, ebgp, ibgp);
              && locRibPath == Some(best) && best in keyOf && best in keep && locRibPathRoute != null
              && Pending(keep, ecmpPaths.Keys, locRibPathRoute) && ecmpPaths.Keys == was + keep
                 && ecmpPaths[best] == locRibPathRoute
              && ToCreate(created, was, keep) && firstRoute == (keep !! was) && DistinctHops(keep)
                 && Serves(keep, was, best, tied)
              && Crowned(best) == (best !in was || old(Crowned(best)))
              && action == (if best !in was then ActionAdd else if best.IsAggregate() then ActionReplace else ActionNone)
    {
      hide Wired, Flagged, Installing, Arranged, PicksTo, Crowned, ToCreate, Pending, DistinctHops, Serves,
        TiedForEcmp, Winner;
      ghost var was := ecmpPaths.Keys;
      var best, groups, tied := Choose(candidates, ebgp, ibgp);
      created, firstRoute, action := InstallGroups(groups, best, tied);
      keep := PicksTo(groups, |groups|, was);
      PicksServe(groups, best, tied, was);
      InstallingIsPending(was, keep, best);
      InstalledKeys(was, keep, best);
      locRibPath := Some(best);
      locRibPathRoute := ecmpPaths[best];
    }

    // Out with the stale, in with the new.
    method Refresh(created: seq<Path>, firstRoute: bool, ghost keep: set<Path>, ghost was: set<Path>)
      requires Wired(keyOf.Keys, pathRouteMap, ecmpPaths, routes) && Pending(keep, ecmpPaths.Keys, locRibPathRoute)
      requires ecmpPaths.Keys == was + keep && Mirrored(was, calls)
      requires ToCreate(created, was, keep) && DistinctHops(keep) && firstRoute == (keep !! was)
      modifies `ecmpPaths, `calls, routes`action, Infos()
      ensures Wired(keyOf.Keys, pathRouteMap, ecmpPaths, routes) && Flagged()
      ensures ecmpPaths.Keys == keep && Mirrored(keep, calls)
      ensures forall p :: p in keep ==> ecmpPaths[p] == old(ecmpPaths)[p]
      ensures forall p :: p in keep ==> ecmpPaths[p].pathInfo.bestPath == old(ecmpPaths[p].pathInfo.bestPath)
    {
      hide Wired, Flagged, Mirrored, Pending, ToCreate, DistinctHops;
      assert ecmpPaths.Keys * was == was;
      RemoveStale(keep, was, locRibPathRoute);
      SettledIsFlagged(keep);
      ProgramNew(created, firstRoute, keep, was);
    }

    method SelectNone() returns (action: RouteAction)
      requires Wired(keyOf.Keys, pathRouteMap, ecmpPaths, routes) && Flagged() && Mirrored(ecmpPaths.Keys, calls)
      modifies `ecmpPaths, `calls, `locRibPath, routes`action, Infos()
      ensures Wired(keyOf.Keys, pathRouteMap, ecmpPaths, routes) && Flagged() && Mirrored(ecmpPaths.Keys, calls) && Chosen()
      ensures locRibPath == None && ecmpPaths == map[] && action == ActionDelete
    {
      hide Wired, Flagged, Mirrored, Pending, ToCreate, DistinctHops;
      ghost var was := ecmpPaths.Keys;
      MarkDeleted(locRibPathRoute);
      NothingToCreate(was);
      NothingDistinct();
      Refresh([], true, {}, was);
      action, locRibPath := ActionDelete, None;
    }

    method SelectBest(candidates: seq<Path>, ebgp: bool, ibgp: bool) returns (action: RouteAction)
      requires Wired(keyOf.Keys, pathRouteMap, ecmpPaths, routes) && Flagged() && Mirrored(ecmpPaths.Keys, calls)
      requires candidates != [] && forall i :: 0 <= i < |candidates| ==> candidates[i] in keyOf
      requires |candidates| > 1 ==> forall i :: 0 <= i < |candidates| ==> candidates[i].neighbor.Some?
      modifies `ecmpPaths, `calls, `locRibPath, `locRibPathRoute, routes`action, Infos()
      ensures Wired(keyOf.Keys, pathRouteMap, ecmpPaths, routes) && Flagged() && Mirrored(ecmpPaths.Keys, calls) && Chosen()
      ensures var best, was := Winner(candidates), old(ecmpPaths).Keys;
              && locRibPath == Some(best)
              && Serves(ecmpPaths.Keys, was, best, TiedForEcmp(candidates, AsWritten, ebgp, ibgp))
              && Crowned(best) == (best !in was || old(Crowned(best)))
              && action == (if best !in was then ActionAdd else if best.IsAggregate() then ActionReplace else ActionNone)
    {
      hide Wired, Flagged, Mirrored, Pending, ToCreate, DistinctHops, Serves, Winner, TiedForEcmp;
      ghost var was := ecmpPaths.Keys;
      var created, firstRoute;
      ghost var keep;
      created, firstRoute, action, keep := InstallChoice(candidates, ebgp, ibgp);
      assert Crowned(Winner(candidates)) == ecmpPaths[Winner(candidates)].pathInfo.bestPath by { RoutesInstalled(); }
      Refresh(created, firstRoute, keep, was);
      RoutesInstalled();
    }

    // The candidates are what a walk over the stored paths yields; the path last chosen comes first while its source is
    // the best one.
    ghost predicate CameFrom(candidates: seq<Path>, source: nat, order: seq<Path>, usable: set<Path>)
      reads `keyOf, `locRibPath
    {
      && Walk(order, Others(usable), PeerIn(keyOf)) && Best(candidates, source) == Walked(Beginning(locRibPath), order)
      && (locRibPath.Some? && source == SourceOf(locRibPath.value) ==>
            candidates != [] && candidates[0] == locRibPath.value)
    }

    // The candidates, which are stored, and can be told apart by their neighbours when there is a choice.
    method Gather(usable: set<Path>) returns (candidates: seq<Path>, source: nat, ghost order: seq<Path>)
      requires Valid()
      ensures BestOf(Best(candidates, source), Eligible(usable)) && CameFrom(candidates, source, order, usable)
      ensures forall i :: 0 <= i < |candidates| ==> candidates[i] in keyOf
      ensures |candidates| > 1 ==> forall i :: 0 <= i < |candidates| ==> candidates[i].neighbor.Some?
    {
      hide Wired, Flagged, Mirrored, BestOf, Eligible, Filed, Chosen, TiesBreakable, Valid;
      Parts();
      PartsFiled();
      candidates, source, order := Candidates(usable);
      CandidatesAreStored(candidates, source, usable);
      if |candidates| > 1 { CandidatesHaveNeighbors(candidates, source, usable); }
    }

    // What a selection among these candidates does: the chosen path is the winner of the cascade, the installed set serves
    // it and every tied next hop, and the action tells what happened to the best route. Without a candidate nothing stays.
    ghost predicate Selected(candidates: seq<Path>, ebgp: bool, ibgp: bool, was: set<Path>, marked: set<Path>,
      action: RouteAction)
      requires |candidates| > 1 ==> forall i :: 0 <= i < |candidates| ==> candidates[i].neighbor.Some?
      reads `ecmpPaths, `locRibPath, `routes, Infos()
    {
      if candidates == [] then locRibPath == None && ecmpPaths == map[] && action == ActionDelete
      else
        var best := Winner(candidates);
        && locRibPath == Some(best)
        && Serves(ecmpPaths.Keys, was, best, TiedForEcmp(candidates, AsWritten, ebgp, ibgp))
        && Crowned(best) == (best !in was || best in marked)
        && action == (if best !in was then ActionAdd else if best.IsAggregate() then ActionReplace else ActionNone)
    }

    // The installed paths marked best.
    ghost function Marked(): set<Path>
      reads `ecmpPaths, `routes, Infos()
    {
      set p | p in ecmpPaths && Crowned(p)
    }

    method Select(candidates: seq<Path>, ebgp: bool, ibgp: bool) returns (action: RouteAction)
      requires Wired(keyOf.Keys, pathRouteMap, ecmpPaths, routes) && Flagged() && Mirrored(ecmpPaths.Keys, calls)
      requires forall i :: 0 <= i < |candidates| ==> candidates[i] in keyOf
      requires |candidates| > 1 ==> forall i :: 0 <= i < |candidates| ==> candidates[i].neighbor.Some?
      modifies `ecmpPaths, `calls, `locRibPath, `locRibPathRoute, routes`action, Infos()
      ensures Wired(keyOf.Keys, pathRouteMap, ecmpPaths, routes) && Flagged() && Mirrored(ecmpPaths.Keys, calls)
      ensures Chosen() && Selected(candidates, ebgp, ibgp, old(ecmpPaths).Keys, old(Marked()), action)
    {
      hide Wired, Flagged, Mirrored, Serves, Winner, TiedForEcmp, Chosen;
      if candidates != [] { action := SelectBest(candidates, ebgp, ibgp); } else { action := SelectNone(); }
    }

    // The selection that was due is made.
    method Reselect(candidates: seq<Path>, ebgp: bool, ibgp: bool) returns (action: RouteAction)
      requires Valid() && forall i :: 0 <= i < |candidates| ==> candidates[i] in keyOf
      requires |candidates| > 1 ==> forall i :: 0 <= i < |candidates| ==> candidates[i].neighbor.Some?
      modifies `recalculate, `ecmpPaths, `calls, `locRibPath, `locRibPathRoute, routes`action, Infos()
      ensures Valid() && !recalculate && Selected(candidates, ebgp, ibgp, old(ecmpPaths).Keys, old(Marked()), action)
    {
      hide Wired, Flagged, Mirrored, Filed, Chosen, Valid, Selected, Marked;
      Parts();
      PartsFiled();
      action := Select(candidates, ebgp, ibgp);
      recalculate := false;
      FiledAfterSelection();
      Assembled();
    }

    // Selection replaces the installed set as a whole. `usable` holds the paths that are reachable and free of loops.
    method SelectRouteForLocRib(usable: set<Path>, ebgp: bool, ibgp: bool)
      returns (action: RouteAction, candidates: seq<Path>, source: nat, ghost order: seq<Path>)
      requires Valid()
      modifies this, routes`action, Infos()
      ensures Valid() && !recalculate
      ensures unchanged(`peerPathMap) && unchanged(`keyOf) && unchanged(`pathRouteMap) && unchanged(`published)
              && unchanged(`routes)
      ensures !old(recalculate) ==> action == ActionNone && unchanged(this)
      ensures |candidates| > 1 ==> forall i :: 0 <= i < |candidates| ==> candidates[i].neighbor.Some?
      ensures old(recalculate) ==>
                && BestOf(Best(candidates, source), old(Eligible(usable)))
                && old(CameFrom(candidates, source, order, usable))
                && Selected(candidates, ebgp, ibgp, old(ecmpPaths).Keys, old(Marked()), action)
    {
      hide Wired, Flagged, Mirrored, BestOf, Eligible, Filed, Chosen, Valid, Selected, Marked;
      action, candidates, source, order := ActionNone, [], 0, [];
      if !recalculate { return; }
      candidates, source, order := Gather(usable);
      action := Reselect(candidates, ebgp, ibgp);
    }

    lemma NothingEligible(usable: set<Path>)
      requires Valid() && IsEmpty()
      ensures Eligible(usable) == {}
    {
      hide Wired, Flagged, Mirrored, Posted, Numbered, TiesBreakable;
    }

    // One withdrawn prefix: the path goes, a selection follows, and an empty destination leaves the RIB when the
    // selection deletes. When none was due the selection does nothing, and the empty destination stays.
    method WithdrawPath(peer: string, id: nat, usable: set<Path>, ebgp: bool, ibgp: bool)
      returns (oldPath: Option<Path>, leaves: bool)
      requires Valid()
      modifies this, pathIds, routes`action, routes`routeListIdx, Infos()
      ensures Valid() && !recalculate
      ensures routes == old(routes) && oldPath == Lookup(old(peerPathMap), (peer, id))
      ensures peerPathMap == if oldPath.Some? then Drop(old(peerPathMap), (peer, id)) else old(peerPathMap)
      ensures keyOf == (if oldPath.Some? then old(keyOf) - {oldPath.value} else old(keyOf))
      ensures pathRouteMap == if oldPath.Some? then old(pathRouteMap) - {oldPath.value} else old(pathRouteMap)
      ensures leaves ==> IsEmpty() && locRibPath == None && ecmpPaths == map[]
      ensures var mattered := oldPath.Some? && (oldPath.value in old(ecmpPaths) || old(locRibPath) == oldPath);
              var due := old(recalculate) || mattered;
              && (IsEmpty() ==> (leaves <==> due))
              && (due && (forall p :: p in keyOf ==> p !in usable && old(locRibPath) != Some(p)) ==>
                    locRibPath == None && ecmpPaths == map[])
              && (!due ==> ecmpPaths == old(ecmpPaths) && locRibPath == old(locRibPath))
    {
      hide Valid, Infos, Drop, Lookup, Slots, Leaked, Serves, Crowned, Winner, TiedForEcmp;
      oldPath := RemovePath(peer, id);
      ghost var due := recalculate;
      ghost var eligible := Eligible(usable);
      if IsEmpty() { NothingEligible(usable); }
      var action, candidates, source;
      ghost var order;
      action, candidates, source, order := SelectRouteForLocRib(usable, ebgp, ibgp);
      if due { FirstIsSeen(Best(candidates, source), eligible); }
      leaves := action == ActionDelete && IsEmpty();
    }

    // A neighbour that goes: all its paths are removed, and a selection follows.
    method WithdrawPeer(peer: string, usable: set<Path>, ebgp: bool, ibgp: bool) returns (leaves: bool)
      requires Valid()
      modifies this, pathIds, routes`action, routes`routeListIdx, Infos()
      ensures Valid() && !recalculate && routes == old(routes)
      ensures peerPathMap == old(peerPathMap) - {peer}
      ensures leaves ==> IsEmpty() && locRibPath == None && ecmpPaths == map[]
      ensures var due := old(recalculate) || exists p :: p in old(keyOf) && old(keyOf)[p].0 == peer && p in old(ecmpPaths);
              IsEmpty() ==> (leaves <==> due)
    {
      hide Valid, Infos, Slots, Leaked, Serves, Crowned, Winner, TiedForEcmp, CameFrom;
      RemoveAllPaths(peer);
      ghost var eligible := Eligible(usable);
      ghost var due := recalculate;
      if IsEmpty() { NothingEligible(usable); }
      var action, candidates, source;
      ghost var order;
      action, candidates, source, order := SelectRouteForLocRib(usable, ebgp, ibgp);
      if due { FirstIsSeen(Best(candidates, source), eligible); }
      leaves := action == ActionDelete && IsEmpty();
    }

    // ---------- what every run of updates, removals and selections keeps ----------

    // One published slot for each stored path, under its peer and path id; the destination is empty when none is left.
    lemma PublishedExactly()
      requires Valid()
      ensures forall key: PathKey :: key in Slots(published, keyOf) <==> Lookup(peerPathMap, key).Some?
      ensures forall i, j :: 0 <= i < j < |published| ==> Slots(published, keyOf)[i] != Slots(published, keyOf)[j]
      ensures |published| == |keyOf| && (IsEmpty() <==> |published| == 0)
    {
      hide Keyed, Posted, Slots, Lookup, Wired, Numbered, TiesBreakable, Flagged, Mirrored, Chosen;
      SlotsCover(peerPathMap, published, pathInfoRouteMap, pathRouteMap, slotOf, keyOf);
      SlotsCount(published, pathInfoRouteMap, pathRouteMap, slotOf);
      assert |keyOf.Keys| == |keyOf| && |slotOf.Keys| == |slotOf|;
      EmptyStore(peerPathMap, keyOf);
    }

    // The route in slot i knows that it is in slot i, and what is published there is the path's own id and next hop.
    lemma SlotKnowsItsIndex(i: nat)
      requires Valid() && i < |published|
      ensures published[i].pathId == Slots(published, keyOf)[i].1 && published[i].nextHop == published[i].about.nextHop
      ensures published[i] in pathInfoRouteMap && pathInfoRouteMap[published[i]].routeListIdx == i
      ensures pathInfoRouteMap[published[i]].pathInfo == published[i]
    {
      hide Keyed, Numbered, TiesBreakable, Flagged, Mirrored, Chosen;
    }

    // Stored paths and free ids account for every out path id handed out, unless a path was ever replaced.
    // No two of them share one.
    lemma StoredAndFreeIdsFill()
      requires Valid()
      ensures forall p, q :: p in keyOf && q in keyOf && p != q ==>
                p in pathRouteMap && q in pathRouteMap && pathRouteMap[p].outPathId != pathRouteMap[q].outPathId
      ensures (forall id :: 1 <= id < pathIds.maxId ==> id in pathIds.ids || UsedByStored(id)) <==> Leaked() == {}
    {
      hide Keyed, Posted, TiesBreakable, Flagged, Mirrored, Chosen, Indexed;
      if p :| p in Leaked() {
        var id := pathRouteMap[p].outPathId;
        assert id in pathIds.live && id !in pathIds.ids;
        assert !UsedByStored(id);
        assert 1 <= id < pathIds.maxId;
      } else {
        forall id | 1 <= id < pathIds.maxId && id !in pathIds.ids ensures UsedByStored(id) {
          assert id in pathIds.live;
          var p :| p in pathRouteMap && pathRouteMap[p].outPathId == id;
          assert p !in Leaked();
        }
      }
    }

    ghost predicate UsedByStored(id: nat)
      reads this
    {
      exists p :: p in keyOf && p in pathRouteMap && pathRouteMap[p].outPathId == id
    }

    // The forwarding plane holds the next hops of exactly the installed paths that were learned from a peer, are aggregates
    // or of no known type. Routes that the router has of its own are not handed to it.
    lemma ForwardingPlaneMirrors(nextHop: string)
      requires Valid()
      ensures Legal(calls)
      ensures nextHop in Replay(calls) <==>
              exists p :: p in ecmpPaths && p.nextHop == nextHop
                          && (p.routeType.RouteEGP? || p.routeType.RouteOther? || p.routeType.RouteAgg?)
      ensures forall p, q :: p in ecmpPaths && q in ecmpPaths && p.nextHop == q.nextHop ==> p == q
    {
      hide Filed, Flagged, Chosen, Legal, Replay;
      assert nextHop in HopsOf(ecmpPaths.Keys) <==> exists p :: p in ecmpPaths && p.IsProgrammed() && p.nextHop == nextHop;
    }

    // While a path is chosen, no other is marked best.
    lemma OneIsMarked(p: Path)
      requires Valid() && p in Marked()
      ensures locRibPath.Some? ==> locRibPath == Some(p)
    {
      hide Keyed, Posted, Numbered, TiesBreakable, Mirrored, Indexed;
    }

    // Only the route of the path last chosen is marked best, and every installed path is marked multi-path.
    lemma FlagsFollowInstallation(p: Path)
      requires Valid() && p in pathRouteMap
      ensures pathRouteMap[p].pathInfo.multiPath <==> p in ecmpPaths
      ensures pathRouteMap[p].pathInfo.bestPath ==> p in ecmpPaths && pathRouteMap[p] == locRibPathRoute
    {
      hide Keyed, Posted, Numbered, TiesBreakable, Mirrored, Chosen, Indexed;
    }
  }

  // The chosen path and the groups to install: the cascade runs only when there is a choice.
  method Choose(candidates: seq<Path>, ebgp: bool, ibgp: bool)
    returns (best: Path, groups: seq<seq<Path>>, ghost tied: seq<Path>)
    requires candidates != []
    requires |candidates| > 1 ==> forall i :: 0 <= i < |candidates| ==> candidates[i].neighbor.Some?
    ensures best == Winner(candidates) && best in candidates
    ensures tied == TiedForEcmp(candidates, AsWritten, ebgp, ibgp) && Arranged(groups, best, tied)
    ensures forall i :: 0 <= i < |tied| ==> tied[i] in candidates
  {
    hide Survivors, TiedForEcmp, Arranged, Grouped, RemoveAndPrepend;
    tied := TiedForEcmp(candidates, AsWritten, ebgp, ibgp);
    CascadeMembers(candidates, AsWritten, ebgp, ibgp);
    var survivors, tiedGroups, pruned := candidates, [], [];
    if |candidates| > 1 {
      survivors, tiedGroups, pruned := CalculateBestPath(candidates, AsWritten, ebgp, ibgp);
    } else {
      NoChoice(candidates, ebgp, ibgp);
    }
    best := survivors[0];
    var slices := Slices(tiedGroups);
    slices := RemoveAndPrependInPlace(slices, best);
    groups := Lists(slices);
    PrependArranges(tiedGroups, tied, best);
  }

  // The peer a stored path came from.
  ghost function PeerIn(keyOf: map<Path, PathKey>): VisitOrder.PeerOf { p => if p in keyOf then keyOf[p].0 else "" }

  ghost function KeysOf(peer: string, ids: set<nat>): set<PathKey> { set id | id in ids :: (peer, id) }

  lemma NoKeys(peer: string, done: set<PathKey>)
    ensures KeysOf(peer, {}) == {} && done + KeysOf(peer, {}) == done
  {
  }

  lemma OneMoreKey(peer: string, ids: set<nat>, id: nat, done: set<PathKey>)
    ensures KeysOf(peer, ids + {id}) == KeysOf(peer, ids) + {(peer, id)}
    ensures done + KeysOf(peer, ids + {id}) == done + KeysOf(peer, ids) + {(peer, id)}
    ensures id !in ids ==> (peer, id) !in KeysOf(peer, ids)
  {
  }

  lemma PeersApart(order: seq<Path>, more: seq<Path>, peerOf: VisitOrder.PeerOf, peer: string)
    requires VisitOrder.Contiguous(order, peerOf) && (forall i :: 0 <= i < |more| ==> peerOf(more[i]) == peer)
    requires forall i :: 0 <= i < |order| ==> peerOf(order[i]) != peer
    ensures VisitOrder.Contiguous(order + more, peerOf)
  {
    var t := order + more;
    forall i | 0 <= i < |t| ensures (peerOf(t[i]) == peer) == (i >= |order|) {}
    forall i, j, k | 0 <= i < j < k < |t| && peerOf(t[i]) == peerOf(t[k]) ensures peerOf(t[j]) == peerOf(t[i]) {
      if i < |order| { assert peerOf(order[j]) == peerOf(order[i]); }
    }
  }

  ghost function Winner(candidates: seq<Path>): Path
    requires candidates != []
  {
    CascadeOrder.First(candidates)
  }

  lemma FirstIsSeen(b: Best, seen: set<Path>)
    requires BestOf(b, seen)
    ensures b.updated != [] ==> b.updated[0] in seen
  {
    if b.updated != [] { assert SourceOf(b.updated[0]) == b.source; }
  }

  // What removing the paths of a peer one by one leaves: the stored paths, the chosen one, and whether a selection is due.
  datatype Remains = Remains(keyOf: map<Path, PathKey>, chosen: Option<Path>, due: bool)

  ghost predicate Dropping(was: Remains, now: Remains, peer: string, installed: set<Path>) {
    && now.keyOf.Keys <= was.keyOf.Keys
    && (forall p :: p in now.keyOf ==> now.keyOf[p] == was.keyOf[p])
    && (forall p :: p in was.keyOf && was.keyOf[p].0 != peer ==> p in now.keyOf)
    && now.chosen == (if was.chosen.Some? && was.chosen.value in was.keyOf && was.chosen.value !in now.keyOf
       then None else was.chosen)
    && now.due == (was.due || !(was.keyOf.Keys - now.keyOf.Keys !! installed))
    && (was.chosen.Some? && was.chosen.value in was.keyOf ==> was.chosen.value in installed)
  }

  lemma NothingDropped(was: Remains, peer: string, installed: set<Path>)
    requires was.chosen.Some? && was.chosen.value in was.keyOf ==> was.chosen.value in installed
    ensures Dropping(was, was, peer, installed)
  {
  }

  lemma DropOneMore(was: Remains, now: Remains, peer: string, p: Path, installed: set<Path>)
    requires Dropping(was, now, peer, installed) && p in now.keyOf && now.keyOf[p].0 == peer
    ensures var next := Remains(now.keyOf - {p}, if now.chosen == Some(p) then None else now.chosen,
                                now.due || p in installed || now.chosen == Some(p));
            Dropping(was, next, peer, installed)
  {
    var gone := was.keyOf.Keys - now.keyOf.Keys;
    assert was.keyOf.Keys - (now.keyOf - {p}).Keys == gone + {p};
  }

  lemma AllDropped(was: Remains, now: Remains, peer: string, installed: set<Path>)
    requires Dropping(was, now, peer, installed) && forall p :: p in now.keyOf ==> now.keyOf[p].0 != peer
    ensures now.keyOf == map p | p in was.keyOf && was.keyOf[p].0 != peer :: was.keyOf[p]
    ensures now.chosen == if was.chosen.Some? && was.chosen.value in was.keyOf && was.keyOf[was.chosen.value].0 == peer
                          then None else was.chosen
    ensures now.due == (was.due || !(was.keyOf.Keys - now.keyOf.Keys !! installed))
  {
  }

  lemma OneEach(c: seq<Path>, p: Path)
    requires forall i, j :: 0 <= i < j < |c| ==> c[i] != c[j]
    ensures multiset(c)[p] == if p in c then 1 else 0
  {
    if p in c {
      var i :| 0 <= i < |c| && c[i] == p;
      assert c == c[..i] + [p] + c[i + 1..];
      assert p !in c[..i] && p !in c[i + 1..];
    }
  }

  lemma SameSource(c: seq<Path>, d: seq<Path>, e: set<Path>, source: nat, source': nat)
    requires BestOf(Best(c, source), e) && BestOf(Best(d, source'), e) && c != []
    ensures d != [] && source == source'
  {
    assert c[0] in e;
    if d == [] { NothingSeen(Best(d, source'), e); }
    assert d[0] in e;
  }

  // Two visits of the stored paths, in whatever orders, find the same candidates.
  lemma SameCandidates(c: seq<Path>, d: seq<Path>, e: set<Path>, source: nat, source': nat)
    requires BestOf(Best(c, source), e) && BestOf(Best(d, source'), e) && c != []
    ensures d != [] && multiset(c) == multiset(d)
  {
    SameSource(c, d, e, source, source');
    forall p ensures multiset(c)[p] == multiset(d)[p] {
      OneEach(c, p);
      OneEach(d, p);
      if p in c { assert p in e; }
      if p in d { assert p in e; }
    }
  }

  lemma NoChoice(candidates: seq<Path>, ebgp: bool, ibgp: bool)
    requires |candidates| == 1
    ensures Survivors(candidates, AsWritten) == candidates && TiedForEcmp(candidates, AsWritten, ebgp, ibgp) == []
    ensures Grouped([], [])
  {
  }
}
