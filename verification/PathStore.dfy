/** The maps a destination keeps its paths in (bgp/rib/destination.go), as values: what they owe each other, and what
  * storing or dropping one path does to them. Module Destinations has the fields and the methods.
  */
module PathStore {
  import opened Paths
  import opened Routes

  type PathKey = (string, nat)
  type PeerPaths = map<string, map<nat, Path>>

  function PathsFrom(store: PeerPaths, peer: string): map<nat, Path> { if peer in store then store[peer] else map[] }

  function Lookup(store: PeerPaths, key: PathKey): Option<Path> {
    if key.0 in store && key.1 in store[key.0] then Some(store[key.0][key.1]) else None
  }

  function Put(store: PeerPaths, key: PathKey, path: Path): PeerPaths {
    store[key.0 := PathsFrom(store, key.0)[key.1 := path]]
  }

  // A peer without paths leaves the map.
  function Drop(store: PeerPaths, key: PathKey): PeerPaths {
    var rest := PathsFrom(store, key.0) - {key.1};
    if rest == map[] then store - {key.0} else store[key.0 := rest]
  }

  // keyOf says where each path is stored, and no peer is listed without a path.
  ghost predicate Keyed(store: PeerPaths, keyOf: map<Path, PathKey>) {
    && (forall p :: p in keyOf ==> Lookup(store, keyOf[p]) == Some(p))
    && (forall key :: Lookup(store, key).Some? ==>
          Lookup(store, key).value in keyOf && keyOf[Lookup(store, key).value] == key)
    && (forall peer :: peer in store ==> store[peer] != map[])
  }

  lemma PutLookup(store: PeerPaths, key: PathKey, path: Path, other: PathKey)
    ensures Lookup(Put(store, key, path), other) == if other == key then Some(path) else Lookup(store, other)
  {
  }

  lemma DropLookup(store: PeerPaths, key: PathKey, other: PathKey)
    requires forall peer :: peer in store ==> store[peer] != map[]
    ensures Lookup(Drop(store, key), other) == if other == key then None else Lookup(store, other)
  {
    if other.0 == key.0 && other != key && Lookup(store, other).Some? {
      assert other.1 in PathsFrom(store, key.0) - {key.1};
    }
  }

  // Dropping the paths of a peer one by one leaves every other peer alone.
  lemma DropFrom(store: PeerPaths, key: PathKey)
    ensures PathsFrom(Drop(store, key), key.0) == PathsFrom(store, key.0) - {key.1}
    ensures Drop(store, key) - {key.0} == store - {key.0}
  {
  }

  // What keyOf becomes when a path is stored under a key.
  ghost function Rekey(keyOf: map<Path, PathKey>, prior: Option<Path>, key: PathKey, path: Path): map<Path, PathKey> {
    (if prior.Some? then keyOf - {prior.value} else keyOf)[path := key]
  }

  lemma RekeySame(keyOf: map<Path, PathKey>, key: PathKey, path: Path)
    requires path in keyOf && keyOf[path] == key
    ensures Rekey(keyOf, Some(path), key, path) == keyOf
  {
  }

  lemma KeyedPut(store: PeerPaths, keyOf: map<Path, PathKey>, key: PathKey, path: Path)
    requires Keyed(store, keyOf) && path !in keyOf
    ensures Keyed(Put(store, key, path), Rekey(keyOf, Lookup(store, key), key, path))
  {
    var after, keys := Put(store, key, path), Rekey(keyOf, Lookup(store, key), key, path);
    forall p | p in keys ensures Lookup(after, keys[p]) == Some(p) { PutLookup(store, key, path, keys[p]); }
    forall k: PathKey | Lookup(after, k).Some? ensures Lookup(after, k).value in keys && keys[Lookup(after, k).value] == k {
      PutLookup(store, key, path, k);
    }
    assert key.1 in after[key.0];
  }

  lemma KeyedDrop(store: PeerPaths, keyOf: map<Path, PathKey>, key: PathKey)
    requires Keyed(store, keyOf) && Lookup(store, key).Some?
    ensures Keyed(Drop(store, key), keyOf - {Lookup(store, key).value})
  {
    var after, keys := Drop(store, key), keyOf - {Lookup(store, key).value};
    forall p | p in keys ensures Lookup(after, keys[p]) == Some(p) { DropLookup(store, key, keys[p]); }
    forall k: PathKey | Lookup(after, k).Some? ensures Lookup(after, k).value in keys && keys[Lookup(after, k).value] == k {
      DropLookup(store, key, k);
    }
  }

  // ---------- routes ----------

  // Each path has one route, whichever map it is looked up in.
  ghost predicate Wired(stored: set<Path>, onFile: map<Path, Route>, installed: map<Path, Route>, routes: set<Route>) {
    && stored <= onFile.Keys
    && (forall p :: p in onFile ==> onFile[p] in routes && onFile[p].path == p && onFile[p].pathInfo.about == p)
    && (forall p :: p in installed ==> installed[p] in routes && installed[p].path == p && installed[p].pathInfo.about == p)
    && (forall p :: p in installed && p in onFile ==> installed[p] == onFile[p])
  }

  lemma StoredAreOnFile(stored: set<Path>, onFile: map<Path, Route>, installed: map<Path, Route>, routes: set<Route>,
    path: Path)
    requires Wired(stored, onFile, installed, routes) && path in stored
    ensures path in onFile && onFile[path] in routes && onFile[path].path == path && onFile[path].pathInfo.about == path
  {
  }

  lemma StoredIsWithin(stored: set<Path>, onFile: map<Path, Route>, installed: map<Path, Route>, routes: set<Route>)
    requires Wired(stored, onFile, installed, routes)
    ensures stored <= onFile.Keys
  {
  }

  lemma WiredPut(keyOf: map<Path, PathKey>, prior: Option<Path>, key: PathKey, path: Path,
                 onFile: map<Path, Route>, installed: map<Path, Route>, routes: set<Route>, route: Route)
    requires Wired(keyOf.Keys, onFile, installed, routes) && path !in onFile && path !in installed
    requires route.path == path && route.pathInfo.about == path
    ensures Wired(Rekey(keyOf, prior, key, path).Keys, onFile[path := route], installed, routes + {route})
  {
  }

  lemma WiredDrop(keyOf: map<Path, PathKey>, path: Path, onFile: map<Path, Route>, installed: map<Path, Route>,
    routes: set<Route>)
    requires Wired(keyOf.Keys, onFile, installed, routes)
    ensures Wired((keyOf - {path}).Keys, onFile - {path}, installed, routes)
  {
  }

  // What is published of a path: the path id it came with and its next hop.
  ghost predicate Labelled(keyOf: map<Path, PathKey>, onFile: map<Path, Route>) {
    forall p :: p in keyOf && p in onFile ==>
      onFile[p].pathInfo.pathId == keyOf[p].1 && onFile[p].pathInfo.nextHop == p.nextHop
  }

  lemma LabelledPut(keyOf: map<Path, PathKey>, prior: Option<Path>, key: PathKey, path: Path, onFile: map<Path,
    Route>, route: Route)
    requires Labelled(keyOf, onFile) && route.pathInfo.pathId == key.1 && route.pathInfo.nextHop == path.nextHop
    ensures Labelled(Rekey(keyOf, prior, key, path), onFile[path := route])
  {
  }

  lemma LabelledDrop(keyOf: map<Path, PathKey>, path: Path, onFile: map<Path, Route>)
    requires Labelled(keyOf, onFile)
    ensures Labelled(keyOf - {path}, onFile - {path})
  {
  }

  // ---------- out path ids ----------

  // The live ids are those of the routes on file, no two of which share one.
  ghost predicate Numbered(onFile: map<Path, Route>, live: set<nat>) {
    && (forall p :: p in onFile ==> onFile[p].outPathId in live)
    && (forall p, q :: p in onFile && q in onFile && p != q ==> onFile[p].outPathId != onFile[q].outPathId)
    && (forall id :: id in live ==> exists p :: p in onFile && onFile[p].outPathId == id)
  }

  lemma NumberedPut(onFile: map<Path, Route>, live: set<nat>, path: Path, route: Route)
    requires Numbered(onFile, live) && path !in onFile && route.outPathId !in live
    ensures Numbered(onFile[path := route], live + {route.outPathId})
  {
    var after := onFile[path := route];
    forall id | id in live + {route.outPathId} ensures exists p :: p in after && after[p].outPathId == id {
      if id == route.outPathId {
        assert path in after;
      } else {
        var p :| p in onFile && onFile[p].outPathId == id;
        assert p in after;
      }
    }
  }

  lemma NumberedDrop(onFile: map<Path, Route>, live: set<nat>, path: Path)
    requires Numbered(onFile, live) && path in onFile
    ensures Numbered(onFile - {path}, live - {onFile[path].outPathId})
  {
    var after := onFile - {path};
    forall id | id in live - {onFile[path].outPathId} ensures exists p :: p in after && after[p].outPathId == id {
      var p :| p in onFile && onFile[p].outPathId == id;
      assert p in after;
    }
  }

  // ---------- the published list ----------

  // Two stored paths of one source have neighbours to break the tie with; the source reads them without a check.
  ghost predicate TiesBreakable(stored: set<Path>) {
    forall p, q :: p in stored && q in stored && p != q && RouteSource(p.routeType) == RouteSource(q.routeType) ==>
      p.neighbor.Some? && q.neighbor.Some?
  }

  lemma TiesPut(keyOf: map<Path, PathKey>, prior: Option<Path>, key: PathKey, path: Path)
    requires TiesBreakable(keyOf.Keys) && forall q :: q in keyOf && keyOf[q] == key ==> prior == Some(q)
    requires forall q :: q in keyOf && keyOf[q] != key && RouteSource(q.routeType) == RouteSource(path.routeType) ==>
               q.neighbor.Some? && path.neighbor.Some?
    ensures TiesBreakable(Rekey(keyOf, prior, key, path).Keys)
  {
  }

  lemma TiesDrop(keyOf: map<Path, PathKey>, path: Path)
    requires TiesBreakable(keyOf.Keys)
    ensures TiesBreakable((keyOf - {path}).Keys)
  {
  }

  // Slot i is published for one stored path, and slotOf says which slot a path has.
  ghost predicate Posted(published: seq<PathInfo>, index: map<PathInfo, Route>, onFile: map<Path, Route>,
    slotOf: map<Path, nat>) {
    && slotOf.Keys <= onFile.Keys
    && (forall i :: 0 <= i < |published| ==>
          && published[i].about in slotOf && slotOf[published[i].about] == i
          && onFile[published[i].about].pathInfo == published[i])
    && (forall p :: p in slotOf ==>
          && onFile[p].pathInfo.about == p && slotOf[p] < |published| && published[slotOf[p]] == onFile[p].pathInfo
          && onFile[p].pathInfo in index && index[onFile[p].pathInfo] == onFile[p])
    && (forall info :: info in index ==> info.about in slotOf && onFile[info.about].pathInfo == info)
  }

  lemma KeyedAt(store: PeerPaths, keyOf: map<Path, PathKey>, key: PathKey)
    requires Keyed(store, keyOf) && Lookup(store, key).Some?
    ensures Lookup(store, key).value in keyOf && keyOf[Lookup(store, key).value] == key
  {
  }

  lemma StoredOnce(store: PeerPaths, keyOf: map<Path, PathKey>, key: PathKey)
    requires Keyed(store, keyOf)
    ensures forall q :: q in keyOf && keyOf[q] == key ==> Lookup(store, key) == Some(q)
  {
  }

  // RemovePathAndSetLast: the last slot moves into the freed one.
  function SwapRemove<T>(s: seq<T>, i: nat): seq<T>
    requires i < |s|
  {
    s[i := s[|s| - 1]][..|s| - 1]
  }

  lemma PostedAppend(published: seq<PathInfo>, index: map<PathInfo, Route>, onFile: map<Path, Route>, slotOf: map<Path, nat>,
                     path: Path, route: Route)
    requires Posted(published, index, onFile, slotOf) && path !in onFile && route.path == path
             && route.pathInfo.about == path
    ensures Posted(published + [route.pathInfo], index[route.pathInfo := route], onFile[path := route],
                   slotOf[path := |published|])
  {
  }

  // The route of a replaced path leaves the index and its slot goes to the new one.
  lemma PostedReplace(published: seq<PathInfo>, index: map<PathInfo, Route>, onFile: map<Path, Route>,
    slotOf: map<Path, nat>,
                      prior: Path, path: Path, route: Route)
    requires Posted(published, index, onFile, slotOf) && prior in slotOf
    requires path !in onFile && route.path == path && route.pathInfo.about == path
    ensures Posted(published[slotOf[prior] := route.pathInfo], (index - {onFile[prior].pathInfo})[route.pathInfo := route],
                   onFile[path := route], (slotOf - {prior})[path := slotOf[prior]])
  {
  }

  // What slotOf becomes when a path gives up its slot to the last one.
  ghost function Unslot(published: seq<PathInfo>, slotOf: map<Path, nat>, path: Path): map<Path, nat>
    requires path in slotOf && published != []
  {
    slotOf[published[|published| - 1].about := slotOf[path]] - {path}
  }

  lemma PostedDrop(published: seq<PathInfo>, index: map<PathInfo, Route>, onFile: map<Path, Route>, slotOf: map<Path, nat>,
                   path: Path)
    requires Posted(published, index, onFile, slotOf) && path in slotOf
    ensures Posted(SwapRemove(published, slotOf[path]), index - {onFile[path].pathInfo}, onFile - {path},
                   Unslot(published, slotOf, path))
  {
    var last := published[|published| - 1].about;
    assert last in slotOf && slotOf[last] == |published| - 1;
    assert path != last ==> slotOf[path] < |published| - 1;
  }

  lemma UnslotKeys(published: seq<PathInfo>, index: map<PathInfo, Route>, onFile: map<Path, Route>, slotOf: map<Path, nat>,
                   path: Path)
    requires Posted(published, index, onFile, slotOf) && path in slotOf
    ensures Unslot(published, slotOf, path).Keys == slotOf.Keys - {path}
  {
  }

  // One slot for each stored path.
  lemma {:induction false} SlotsCount(published: seq<PathInfo>, index: map<PathInfo, Route>, onFile: map<Path, Route>,
                                      slotOf: map<Path, nat>)
    requires Posted(published, index, onFile, slotOf)
    ensures |published| == |slotOf|
    decreases |slotOf|
  {
    if slotOf != map[] {
      var p :| p in slotOf;
      PostedDrop(published, index, onFile, slotOf, p);
      UnslotKeys(published, index, onFile, slotOf, p);
      SlotsCount(SwapRemove(published, slotOf[p]), index - {onFile[p].pathInfo}, onFile - {p}, Unslot(published, slotOf, p));
    }
  }

  // The key of the path a slot is published for.
  ghost function SlotKey(info: PathInfo, keyOf: map<Path, PathKey>): PathKey {
    if info.about in keyOf then keyOf[info.about] else ("", 0)
  }

  // The keys of the stored paths, in the order they are published.
  ghost function Slots(published: seq<PathInfo>, keyOf: map<Path, PathKey>): seq<PathKey> {
    seq(|published|, i requires 0 <= i < |published| => SlotKey(published[i], keyOf))
  }

  lemma SlotsAppend(published: seq<PathInfo>, index: map<PathInfo, Route>, onFile: map<Path, Route>, slotOf: map<Path, nat>,
                    keyOf: map<Path, PathKey>, key: PathKey, path: Path, info: PathInfo)
    requires Posted(published, index, onFile, slotOf) && keyOf.Keys == slotOf.Keys && path !in keyOf && info.about == path
    ensures Slots(published + [info], Rekey(keyOf, None, key, path)) == Slots(published, keyOf) + [key]
  {
  }

  lemma SlotsReplace(published: seq<PathInfo>, index: map<PathInfo, Route>, onFile: map<Path, Route>, slotOf: map<Path, nat>,
                     keyOf: map<Path, PathKey>, key: PathKey, prior: Path, path: Path, info: PathInfo)
    requires Posted(published, index, onFile, slotOf) && keyOf.Keys == slotOf.Keys && path !in keyOf && info.about == path
    requires prior in keyOf && keyOf[prior] == key
    ensures Slots(published[slotOf[prior] := info], Rekey(keyOf, Some(prior), key, path)) == Slots(published, keyOf)
  {
  }

  // The last slot moves into the freed one.
  lemma SlotsSwap(published: seq<PathInfo>, index: map<PathInfo, Route>, onFile: map<Path, Route>, slotOf: map<Path, nat>,
                  keyOf: map<Path, PathKey>, path: Path)
    requires Posted(published, index, onFile, slotOf) && keyOf.Keys == slotOf.Keys && path in slotOf
    ensures Slots(SwapRemove(published, slotOf[path]), keyOf - {path}) == SwapRemove(Slots(published, keyOf), slotOf[path])
    ensures Slots(published, keyOf)[slotOf[path]] == keyOf[path]
  {
    var i := slotOf[path];
    assert published[i].about == path;
    var after := SwapRemove(published, i);
    forall k | 0 <= k < |after|
      ensures SlotKey(after[k], keyOf - {path}) == SwapRemove(Slots(published, keyOf), i)[k]
    {
      assert after[k] == published[if k == i then |published| - 1 else k];
      assert after[k].about != path;
    }
  }

  // Every stored path has exactly one slot of its key.
  lemma SlotsCover(store: PeerPaths, published: seq<PathInfo>, index: map<PathInfo, Route>, onFile: map<Path, Route>,
                   slotOf: map<Path, nat>, keyOf: map<Path, PathKey>)
    requires Keyed(store, keyOf) && Posted(published, index, onFile, slotOf) && keyOf.Keys == slotOf.Keys
    ensures forall key: PathKey :: key in Slots(published, keyOf) <==> Lookup(store, key).Some?
    ensures forall i, j :: 0 <= i < j < |published| ==> Slots(published, keyOf)[i] != Slots(published, keyOf)[j]
  {
    forall key: PathKey | Lookup(store, key).Some? ensures key in Slots(published, keyOf) {
      var p := Lookup(store, key).value;
      assert Slots(published, keyOf)[slotOf[p]] == key;
    }
  }

  lemma EmptyStore(store: PeerPaths, keyOf: map<Path, PathKey>)
    requires Keyed(store, keyOf)
    ensures store == map[] <==> |keyOf| == 0
  {
    if store != map[] {
      var peer :| peer in store;
      var id :| id in store[peer];
      assert Lookup(store, (peer, id)).value in keyOf;
    }
  }

  lemma PutSame(store: PeerPaths, key: PathKey, path: Path)
    requires Lookup(store, key) == Some(path)
    ensures Put(store, key, path) == store
  {
    assert PathsFrom(store, key.0)[key.1 := path] == store[key.0];
  }
}
