/** The local RIB's destinations and each neighbour's prefix count (ProcessRoutes, GetDest and RemoveUpdatesFromNeighbor
  * in bgp/rib/rib.go, the counters in bgp/baseobjects/neighbor.go), for one protocol family.
  *
  * A destination stands here for the paths it stores, which change as module Destinations proves of its methods.
  * Whether a selection reported that the last route went is an input; for a destination left empty by a withdrawal
  * Destinations.Destination.WithdrawPath says when it does.
  */
module LocRibs {
  import opened Paths
  import opened PathStore

  datatype Nlri = Nlri(prefix: string, length: nat, pathId: nat) {
    function Cidr(): (string, nat) { (prefix, length) }
  }

  type Cidr = (string, nat)
  type Dests = map<Cidr, PeerPaths>

  function At(dests: Dests, cidr: Cidr, key: PathKey): Option<Path> {
    if cidr in dests then Lookup(dests[cidr], key) else None
  }

  // The paths stored for one neighbour, over all destinations.
  ghost function HeldFor(dests: Dests, peer: string): set<(Cidr, nat)> {
    set cidr, id | cidr in dests && id in PathsFrom(dests[cidr], peer) :: (cidr, id)
  }

  // No destination lists a peer without a path.
  ghost predicate Tidy(dests: Dests) {
    forall cidr, peer :: cidr in dests && peer in dests[cidr] ==> dests[cidr][peer] != map[]
  }

  // isIpInList: the prefix length is not compared.
  predicate InList(prefixes: seq<Nlri>, ip: Nlri) {
    exists i :: 0 <= i < |prefixes| && prefixes[i].pathId == ip.pathId && prefixes[i].prefix == ip.prefix
  }

  lemma PutHolds(dests: Dests, cidr: Cidr, key: PathKey, path: Path, peer: string)
    requires cidr in dests
    ensures var after := dests[cidr := Put(dests[cidr], key, path)];
            HeldFor(after, peer) == HeldFor(dests, peer) + if peer == key.0 then {(cidr, key.1)} else {}
    ensures Tidy(dests) ==> Tidy(dests[cidr := Put(dests[cidr], key, path)])
  {
    var after := dests[cidr := Put(dests[cidr], key, path)];
    forall c, id ensures (c, id) in HeldFor(after, peer) <==>
      (c, id) in HeldFor(dests, peer) || (peer == key.0 && (c, id) == (cidr, key.1)) {
    }
    assert key.1 in PathsFrom(dests[cidr], key.0)[key.1 := path];
  }

  lemma DropHolds(dests: Dests, cidr: Cidr, key: PathKey, peer: string)
    requires cidr in dests && Tidy(dests)
    ensures var after := dests[cidr := Drop(dests[cidr], key)];
            && HeldFor(after, peer) == HeldFor(dests, peer) - (if peer == key.0 then {(cidr, key.1)} else {})
            && Tidy(after)
  {
    var after := dests[cidr := Drop(dests[cidr], key)];
    forall c, id ensures (c, id) in HeldFor(after, peer) <==>
      (c, id) in HeldFor(dests, peer) && !(peer == key.0 && (c, id) == (cidr, key.1)) {
    }
  }

  lemma EmptyHolds(dests: Dests, cidr: Cidr, peer: string)
    requires cidr in dests ==> dests[cidr] == map[]
    ensures HeldFor(dests - {cidr}, peer) == HeldFor(dests, peer) == HeldFor(dests[cidr := map[]], peer)
  {
    var with := dests[cidr := map[]];
    forall c, id ensures (c, id) in HeldFor(with, peer) <==> (c, id) in HeldFor(dests, peer) {}
    forall c, id ensures (c, id) in HeldFor(dests - {cidr}, peer) <==> (c, id) in HeldFor(dests, peer) {}
  }

  // Each neighbour's count is the number of paths stored for it, within its limit when it has one.
  ghost predicate Counted(dests: Dests, total: map<string, nat>, max: map<string, nat>) {
    && total.Keys == max.Keys
    && forall peer :: peer in total ==> total[peer] == |HeldFor(dests, peer)| && (max[peer] > 0 ==> total[peer] <= max[peer])
  }

  lemma IsHeld(dests: Dests, cidr: Cidr, key: PathKey)
    requires cidr in dests
    ensures (cidr, key.1) in HeldFor(dests, key.0) <==> Lookup(dests[cidr], key).Some?
  {
  }

  lemma CountedKeys(dests: Dests, total: map<string, nat>, max: map<string, nat>)
    requires Counted(dests, total, max)
    ensures total.Keys == max.Keys
  {
  }

  // One path fewer, one off the count: it never passes below zero.
  lemma CountedDrop(dests: Dests, total: map<string, nat>, max: map<string, nat>, cidr: Cidr, key: PathKey)
    requires Counted(dests, total, max) && Tidy(dests) && cidr in dests && Lookup(dests[cidr], key).Some?
    ensures var after := dests[cidr := Drop(dests[cidr], key)];
            && (key.0 in total ==> total[key.0] > 0)
            && Counted(after, if key.0 in total then total[key.0 := total[key.0] - 1] else total, max) && Tidy(after)
  {
    hide HeldFor, Drop, Lookup, Tidy;
    forall p ensures HeldFor(dests[cidr := Drop(dests[cidr], key)], p) == HeldFor(dests, p) - (if p == key.0
      then {(cidr, key.1)} else {}) {
      DropHolds(dests, cidr, key, p);
    }
    DropHolds(dests, cidr, key, key.0);
    IsHeld(dests, cidr, key);
  }

  // A new path adds one to the count, which the check keeps within the limit; a replaced one adds nothing.
  lemma CountedPut(dests: Dests, total: map<string, nat>, max: map<string, nat>, cidr: Cidr, key: PathKey, path: Path)
    requires Counted(dests, total, max) && Tidy(dests) && cidr in dests
    requires Lookup(dests[cidr], key).None? && key.0 in total && max[key.0] > 0 ==> total[key.0] < max[key.0]
    ensures var after := dests[cidr := Put(dests[cidr], key, path)];
            && Counted(after, if Lookup(dests[cidr], key).None? && key.0 in total
               then total[key.0 := total[key.0] + 1] else total, max)
            && Tidy(after)
  {
    hide HeldFor, Put, Lookup, Tidy;
    var after := dests[cidr := Put(dests[cidr], key, path)];
    forall p ensures HeldFor(after, p) == if p == key.0 then HeldFor(dests, p) + {(cidr, key.1)} else HeldFor(dests, p) {
      PutHolds(dests, cidr, key, path, p);
    }
    PutHolds(dests, cidr, key, path, key.0);
    IsHeld(dests, cidr, key);
    assert Lookup(dests[cidr], key).Some? ==> HeldFor(after, key.0) == HeldFor(dests, key.0);
    assert Lookup(dests[cidr], key).None? ==> |HeldFor(after, key.0)| == |HeldFor(dests, key.0)| + 1;
  }

  lemma CountedEmpty(dests: Dests, total: map<string, nat>, max: map<string, nat>, cidr: Cidr)
    requires Counted(dests, total, max) && Tidy(dests) && (cidr in dests ==> dests[cidr] == map[])
    ensures Counted(dests - {cidr}, total, max) && Counted(dests[cidr := map[]], total, max)
    ensures Tidy(dests - {cidr}) && Tidy(dests[cidr := map[]])
    ensures cidr in dests ==> |dests - {cidr}| == |dests| - 1
    ensures cidr !in dests ==> |dests[cidr := map[]]| == |dests| + 1
  {
    hide HeldFor;
    forall peer ensures HeldFor(dests - {cidr}, peer) == HeldFor(dests, peer) == HeldFor(dests[cidr := map[]], peer) {
      EmptyHolds(dests, cidr, peer);
    }
    if cidr in dests { assert dests.Keys == (dests - {cidr}).Keys + {cidr}; }
  }

  class LocRib {
    var dests: Dests
    var routesCount: nat
    // TotalPrefixes and MaxPrefixes of the configured neighbours; local routes come from a peer that is not one.
    var total: map<string, nat>
    const maxPrefixes: map<string, nat>

    ghost predicate Valid()
      reads this
    {
      Tidy(dests) && routesCount == |dests| && Counted(dests, total, maxPrefixes)
    }

    constructor (maxPrefixes: map<string, nat>)
      ensures Valid() && dests == map[] && this.maxPrefixes == maxPrefixes
    {
      this.maxPrefixes := maxPrefixes;
      dests, routesCount, total := map[], 0, map peer | peer in maxPrefixes :: 0;
      assert forall peer :: HeldFor(map[], peer) == {};
    }

    // A peer that is no configured neighbour has no limit.
    predicate CanAcceptNewPrefix(peer: string)
      reads `total
    {
      peer in total && peer in maxPrefixes && maxPrefixes[peer] > 0 ==> total[peer] < maxPrefixes[peer]
    }

    // A destination is made for a prefix even when its path is then refused.
    method GetDest(cidr: Cidr)
      requires Valid()
      modifies `dests, `routesCount
      ensures Valid() && cidr in dests && dests == if cidr in old(dests) then old(dests) else old(dests)[cidr := map[]]
    {
      if cidr !in dests {
        CountedEmpty(dests, total, maxPrefixes, cidr);
        dests := dests[cidr := map[]];
        routesCount := routesCount + 1;
      }
    }

    // One withdrawn prefix. The count goes down with the path, so it never passes below zero.
    method Withdraw(peer: string, nlri: Nlri, deleted: bool)
      requires Valid()
      modifies `dests, `routesCount, `total
      ensures Valid()
      ensures forall c: Cidr, k: PathKey :: At(dests, c, k) == if c == nlri.Cidr() && k == (peer, nlri.pathId)
              then None else At(old(dests), c, k)
      ensures var c := nlri.Cidr();
              dests.Keys == if c in old(dests) && deleted && Drop(old(dests)[c], (peer, nlri.pathId)) == map[]
                then old(dests).Keys - {c} else old(dests).Keys
    {
      hide Counted, Tidy, Drop, Lookup;
      var cidr := nlri.Cidr();
      var key: PathKey := (peer, nlri.pathId);
      if cidr !in dests { return; }
      var oldPath := Lookup(dests[cidr], key);
      if oldPath.Some? {
        TakeAway(cidr, key);
      } else {
        DropNothing(dests, cidr, key);
      }
      DropAt(old(dests), cidr, key, dests);
      if deleted && dests[cidr] == map[] { Forget(cidr); }
    }

    // RemovePath and DecrPrefixCount.
    method TakeAway(cidr: Cidr, key: PathKey)
      requires Valid() && cidr in dests && Lookup(dests[cidr], key).Some?
      modifies `dests, `total
      ensures Valid() && dests == old(dests)[cidr := Drop(old(dests)[cidr], key)]
    {
      hide Counted, Tidy, Drop, Lookup;
      CountedDrop(dests, total, maxPrefixes, cidr, key);
      dests := dests[cidr := Drop(dests[cidr], key)];
      if key.0 in total { total := total[key.0 := total[key.0] - 1]; }
    }

    // An empty destination goes.
    method Forget(cidr: Cidr)
      requires Valid() && cidr in dests && dests[cidr] == map[]
      modifies `dests, `routesCount
      ensures Valid() && dests == old(dests) - {cidr}
      ensures forall c: Cidr, k: PathKey :: At(dests, c, k) == At(old(dests), c, k)
    {
      hide HeldFor, At;
      Erase(cidr);
    }

    // One announced prefix.
    method Announce(peer: string, nlri: Nlri, path: Path) returns (accepted: bool)
      requires Valid()
      modifies `dests, `routesCount, `total
      ensures Valid()
      ensures total.Keys == old(total).Keys && (!old(CanAcceptNewPrefix(peer)) ==> !CanAcceptNewPrefix(peer))
      ensures !accepted ==> !CanAcceptNewPrefix(peer)
      ensures accepted <==>
              At(old(dests), nlri.Cidr(), (peer, nlri.pathId)).Some? || peer !in old(total) || peer !in maxPrefixes
              || maxPrefixes[peer] == 0 || old(total)[peer] < maxPrefixes[peer]
      ensures forall c: Cidr, k: PathKey :: At(dests, c, k) ==
                if accepted && c == nlri.Cidr() && k == (peer, nlri.pathId) then Some(path) else At(old(dests), c, k)
      ensures dests.Keys == old(dests).Keys + {nlri.Cidr()}
    {
      hide Counted, Tidy, Put, Lookup;
      var cidr := nlri.Cidr();
      var key: PathKey := (peer, nlri.pathId);
      assert cidr !in dests ==> forall k: PathKey :: Lookup(map[], k) == None by { EmptyLookup(); }
      GetDest(cidr);
      if Lookup(dests[cidr], key).None? && !CanAcceptNewPrefix(peer) { return false; }
      ghost var before := dests;
      GiveTo(cidr, key, path);
      PutAt(before, cidr, key, path, dests);
      accepted := true;
    }

    // IncrPrefixCount for a path that is new, and AddOrUpdatePath.
    method GiveTo(cidr: Cidr, key: PathKey, path: Path)
      requires Valid() && cidr in dests
      requires Lookup(dests[cidr], key).None? ==> CanAcceptNewPrefix(key.0)
      modifies `dests, `total
      ensures Valid() && dests == old(dests)[cidr := Put(old(dests)[cidr], key, path)]
      ensures total.Keys == old(total).Keys && forall p :: p in total ==> total[p] >= old(total)[p]
    {
      hide Counted, Tidy, Put, Lookup;
      CountedKeys(dests, total, maxPrefixes);
      CountedPut(dests, total, maxPrefixes, cidr, key, path);
      if Lookup(dests[cidr], key).None? && key.0 in total { total := total[key.0 := total[key.0] + 1]; }
      dests := dests[cidr := Put(dests[cidr], key, path)];
    }

    // One update message: first the withdrawn prefixes that the message does not announce again, then the announced.
    method ProcessRoutes(peer: string, add: seq<Nlri>, rem: seq<Nlri>, addPath: Path,
      deleted: seq<bool>) returns (addedAll: bool)
      requires Valid() && |deleted| == |rem|
      modifies this
      ensures Valid()
      ensures forall c: Cidr, k: PathKey :: !Named(add, |add|, peer, c, k) ==>
                At(dests, c, k) == if Gone(add, rem, |rem|, peer, c, k) then None else At(old(dests), c, k)
      ensures forall c: Cidr, k: PathKey :: Named(add, |add|, peer, c, k) ==>
                At(dests, c, k) == Some(addPath) || (!addedAll && At(dests, c, k) == At(old(dests), c, k) == None)
      ensures addedAll <==> forall i :: 0 <= i < |add| ==> At(dests, add[i].Cidr(), (peer, add[i].pathId)) == Some(addPath)
      ensures !addedAll ==> !CanAcceptNewPrefix(peer)
    {
      hide Valid, At, InList, Gone;
      assert forall c: Cidr, k: PathKey :: !Gone(add, rem, 0, peer, c, k) by { NothingGone(add, rem, peer); }
      for i := 0 to |rem|
        invariant Valid()
        invariant forall c: Cidr, k: PathKey :: At(dests, c, k) == if Gone(add, rem, i, peer, c, k) then None
                  else At(old(dests), c, k)
      {
        if !InList(add, rem[i]) { Withdraw(peer, rem[i], deleted[i]); }
        forall c: Cidr, k: PathKey
          ensures Gone(add, rem, i + 1, peer, c, k) <==>
                    Gone(add, rem, i, peer, c, k)
                    || (c == rem[i].Cidr() && k == (peer, rem[i].pathId) && !InList(add, rem[i]))
        {
          GoneStep(add, rem, i, peer, c, k);
        }
      }
      ghost var mid := dests;
      addedAll := true;
      for i := 0 to |add|
        invariant Valid() && (!addedAll ==> !CanAcceptNewPrefix(peer))
        invariant !addedAll ==> exists j :: 0 <= j < i && At(dests, add[j].Cidr(), (peer, add[j].pathId)).None?
        invariant forall c: Cidr, k: PathKey :: !Named(add, i, peer, c, k) ==> At(dests, c, k) == At(mid, c, k)
        invariant forall c: Cidr, k: PathKey :: Named(add, i, peer, c, k) ==>
                    At(dests, c, k) == Some(addPath) || (!addedAll && At(dests, c, k) == At(mid, c, k) == None)
      {
        var accepted := Announce(peer, add[i], addPath);
        if !accepted { addedAll := false; }
      }
      forall c: Cidr, k: PathKey | Named(add, |add|, peer, c, k) ensures !Gone(add, rem, |rem|, peer, c, k) {
        NamedIsNotGone(add, rem, peer, c, k);
      }
      forall i | 0 <= i < |add| ensures Named(add, |add|, peer, add[i].Cidr(), (peer, add[i].pathId)) {}
    }

    // A neighbour that goes takes its paths with it, and its count returns to zero.
    method RemoveUpdatesFromNeighbor(peer: string, deleted: map<Cidr, bool>)
      requires Valid() && deleted.Keys == dests.Keys
      modifies this
      ensures Valid()
      ensures forall c: Cidr, k: PathKey :: At(dests, c, k) == if k.0 == peer then None else At(old(dests), c, k)
      ensures total == if peer in old(total) then old(total)[peer := 0] else old(total)
      ensures forall c :: c in dests <==> c in old(dests) && !(deleted[c] && old(dests)[c] - {peer} == map[])
    {
      hide Counted, Tidy, At, HeldFor, Cleared, Lookup, After;
      ghost var was := dests;
      var todo := dests.Keys;
      NothingCleared(was, peer, deleted);
      while todo != {}
        invariant todo <= was.Keys && Cleared(was, dests, todo, peer, deleted) && routesCount == |dests|
        invariant total == old(total)
        decreases |todo|
      {
        var cidr :| cidr in todo;
        ClearedOne(was, dests, todo, peer, deleted, cidr);
        ClearOne(cidr, peer, deleted[cidr]);
        todo := todo - {cidr};
      }
      AllCleared(was, dests, peer, deleted);
      CountedWithout(was, dests, total, maxPrefixes, peer);
      if peer in total { total := total[peer := 0]; }
    }

    // One destination of the neighbour that goes: RemoveAllPaths, and the destination with it when it is empty.
    method ClearOne(cidr: Cidr, peer: string, gone: bool)
      requires cidr in dests && routesCount == |dests|
      modifies `dests, `routesCount
      ensures routesCount == |dests|
      ensures dests == After(old(dests), cidr, peer, gone)
    {
      dests := dests[cidr := dests[cidr] - {peer}];
      assert dests.Keys == old(dests).Keys;
      if gone && dests[cidr] == map[] {
        assert dests.Keys == (dests - {cidr}).Keys + {cidr};
        dests := dests - {cidr};
        routesCount := routesCount - 1;
      }
    }

    method Erase(cidr: Cidr)
      requires Tidy(dests) && cidr in dests && dests[cidr] == map[] && routesCount == |dests|
      modifies `dests, `routesCount
      ensures Tidy(dests) && dests == old(dests) - {cidr} && routesCount == |dests|
      ensures forall p :: HeldFor(dests, p) == HeldFor(old(dests), p)
      ensures forall c: Cidr, k: PathKey :: At(dests, c, k) == At(old(dests), c, k)
    {
      hide HeldFor;
      forall p ensures HeldFor(dests - {cidr}, p) == HeldFor(dests, p) { EmptyHolds(dests, cidr, p); }
      assert |dests - {cidr}| == |dests| - 1 by { assert dests.Keys == (dests - {cidr}).Keys + {cidr}; }
      dests := dests - {cidr};
      routesCount := routesCount - 1;
    }
  }

  // A path id of the peer that the message withdraws without announcing it again, for a prefix of whatever length at the
  // same address.
  ghost predicate Gone(add: seq<Nlri>, rem: seq<Nlri>, n: nat, peer: string, c: Cidr, k: PathKey)
    requires n <= |rem|
  {
    exists j :: 0 <= j < n && c == (rem[j].prefix, rem[j].length) && k == (peer, rem[j].pathId)
                && forall i :: 0 <= i < |add| ==> add[i].pathId != rem[j].pathId || add[i].prefix != rem[j].prefix
  }

  lemma GoneStep(add: seq<Nlri>, rem: seq<Nlri>, n: nat, peer: string, c: Cidr, k: PathKey)
    requires n < |rem|
    ensures Gone(add, rem, n + 1, peer, c, k) <==>
              Gone(add, rem, n, peer, c, k)
              || (c == rem[n].Cidr() && k == (peer, rem[n].pathId) && !InList(add, rem[n]))
  {
    if Gone(add, rem, n + 1, peer, c, k) && !Gone(add, rem, n, peer, c, k) {
      var j :| 0 <= j < n + 1 && c == (rem[j].prefix, rem[j].length) && k == (peer, rem[j].pathId)
               && forall i :: 0 <= i < |add| ==> add[i].pathId != rem[j].pathId || add[i].prefix != rem[j].prefix;
      assert j == n;
    }
  }

  ghost predicate Named(add: seq<Nlri>, n: nat, peer: string, c: Cidr, k: PathKey)
    requires n <= |add|
  {
    exists j :: 0 <= j < n && c == add[j].Cidr() && k == (peer, add[j].pathId)
  }

  lemma NothingGone(add: seq<Nlri>, rem: seq<Nlri>, peer: string)
    ensures forall c: Cidr, k: PathKey :: !Gone(add, rem, 0, peer, c, k)
  {
  }

  lemma NamedIsNotGone(add: seq<Nlri>, rem: seq<Nlri>, peer: string, c: Cidr, k: PathKey)
    requires Named(add, |add|, peer, c, k)
    ensures !Gone(add, rem, |rem|, peer, c, k)
  {
    var i :| 0 <= i < |add| && c == add[i].Cidr() && k == (peer, add[i].pathId);
    forall j | 0 <= j < |rem| && c == (rem[j].prefix, rem[j].length) && k == (peer, rem[j].pathId)
      ensures add[i].pathId == rem[j].pathId && add[i].prefix == rem[j].prefix {
    }
  }

  ghost function After(dests: Dests, cidr: Cidr, peer: string, gone: bool): Dests
    requires cidr in dests
  {
    if gone && dests[cidr] - {peer} == map[] then dests - {cidr} else dests[cidr := dests[cidr] - {peer}]
  }

  // A neighbour's paths are being removed: the destinations in `todo` are as they were, the rest are done.
  ghost predicate Cleared(was: Dests, now: Dests, todo: set<Cidr>, peer: string, deleted: map<Cidr, bool>)
    requires deleted.Keys == was.Keys
  {
    && (forall c :: c in now ==> c in was)
    && forall c :: c in was ==> (c in now <==> c in todo || !(deleted[c] && was[c] - {peer} == map[]))
                                && (c in now ==> now[c] == if c in todo then was[c] else was[c] - {peer})
  }

  lemma NothingCleared(was: Dests, peer: string, deleted: map<Cidr, bool>)
    requires deleted.Keys == was.Keys
    ensures Cleared(was, was, was.Keys, peer, deleted)
  {
  }

  lemma ClearedOne(was: Dests, now: Dests, todo: set<Cidr>, peer: string, deleted: map<Cidr, bool>, c: Cidr)
    requires deleted.Keys == was.Keys && Cleared(was, now, todo, peer, deleted) && c in todo && c in was
    ensures c in now && Cleared(was, After(now, c, peer, deleted[c]), todo - {c}, peer, deleted)
  {
  }

  lemma OnlyOne(paths: PeerPaths, peer: string)
    requires paths - {peer} == map[]
    ensures paths.Keys <= {peer}
  {
    assert forall p :: p in paths && p != peer ==> p in paths - {peer};
  }

  lemma AllCleared(was: Dests, now: Dests, peer: string, deleted: map<Cidr, bool>)
    requires deleted.Keys == was.Keys && Cleared(was, now, {}, peer, deleted)
    ensures forall c :: c in now <==> c in was && !(deleted[c] && was[c] - {peer} == map[])
    ensures Tidy(was) ==> Tidy(now)
    ensures forall c: Cidr, k: PathKey :: At(now, c, k) == if k.0 == peer then None else At(was, c, k)
    ensures forall p :: HeldFor(now, p) == if p == peer then {} else HeldFor(was, p)
  {
    forall c | c in was && was[c] - {peer} == map[] ensures was[c].Keys <= {peer} { OnlyOne(was[c], peer); }
    forall p ensures HeldFor(now, p) == if p == peer then {} else HeldFor(was, p) {
      forall c, id ensures (c, id) in HeldFor(now, p) <==> p != peer && (c, id) in HeldFor(was, p) {}
    }
  }

  lemma CountedWithout(was: Dests, now: Dests, total: map<string, nat>, max: map<string, nat>, peer: string)
    requires Counted(was, total, max) && forall p :: HeldFor(now, p) == if p == peer then {} else HeldFor(was, p)
    ensures Counted(now, if peer in total then total[peer := 0] else total, max)
  {
  }

  lemma EmptyLookup()
    ensures forall k: PathKey :: Lookup(map[], k) == None
  {
  }

  lemma DropAt(dests: Dests, cidr: Cidr, key: PathKey, after: Dests)
    requires Tidy(dests) && cidr in dests && after == dests[cidr := Drop(dests[cidr], key)]
    ensures forall c: Cidr, k: PathKey :: At(after, c, k) == if c == cidr && k == key then None else At(dests, c, k)
  {
    forall c: Cidr, k: PathKey ensures At(after, c, k) == if c == cidr && k == key then None else At(dests, c, k) {
      if c == cidr { DropLookup(dests[cidr], key, k); }
    }
  }

  lemma DropNothing(dests: Dests, cidr: Cidr, key: PathKey)
    requires Tidy(dests) && cidr in dests && Lookup(dests[cidr], key).None?
    ensures dests[cidr := Drop(dests[cidr], key)] == dests
  {
    var store := dests[cidr];
    assert PathsFrom(store, key.0) - {key.1} == PathsFrom(store, key.0);
    assert Drop(store, key) == store;
  }

  lemma PutAt(dests: Dests, cidr: Cidr, key: PathKey, path: Path, after: Dests)
    requires cidr in dests && after == dests[cidr := Put(dests[cidr], key, path)]
    ensures forall c: Cidr, k: PathKey :: At(after, c, k) ==
              if c == cidr && k == key then Some(path) else At(dests, c, k)
  {
    forall c: Cidr, k: PathKey ensures At(after, c, k) == if c == cidr && k == key then Some(path) else At(dests, c, k) {
      if c == cidr { PutLookup(dests[cidr], key, path, k); }
    }
  }
}
