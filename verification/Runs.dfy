/** Short runs from a new destination or session, one for each state that the departures listed in README.md speak of. */
module DestinationRuns {
  import opened Paths
  import opened PathStore
  import opened Stages
  import opened Cascade
  import opened CascadeOrder
  import opened Destinations
  import opened Selection
  import opened RouteManager
  import opened Routes
  import opened Walks

  lemma NewFits(d: Destination, key: PathKey, a: Path)
    requires d.pathRouteMap == map[] && d.ecmpPaths == map[] && d.keyOf == map[]
    ensures d.IsNew(a) && d.Fits(key, a) && Lookup(map[], key) == None && Rekey(map[], None, key, a) == map[a := key]
  {
  }

  lemma OnlyEligible(d: Destination, a: Path, key: PathKey)
    requires d.keyOf == map[a := key]
    ensures d.Eligible({a}) == {a}
  {
  }

  lemma OneIsChosen(d: Destination, a: Path, key: PathKey, candidates: seq<Path>, source: nat, was: set<Path>,
    marked: set<Path>, action: RouteAction)
    requires d.Valid() && d.keyOf == map[a := key] && candidates != [] && BestOf(Best(candidates, source), {a})
    requires |candidates| > 1 ==> forall i :: 0 <= i < |candidates| ==> candidates[i].neighbor.Some?
    requires d.Selected(candidates, true, true, was, marked, action)
    ensures d.locRibPath == Some(a) && d.ecmpPaths.Keys == {a}
  {
    hide Wired, Keyed, Posted, Numbered, Mirrored, Winner, TiedForEcmp;
    assert Best(candidates, source).updated == candidates;
    assert candidates[0] == a == candidates[|candidates| - 1];
    NoChoice(candidates, true, true);
  }

  // A destination with one path, which is chosen and installed.
  method OneChosen(a: Path) returns (d: Destination)
    ensures d.Valid() && fresh(d) && fresh(d.pathIds) && forall r :: r in d.routes ==> fresh(r) && fresh(r.pathInfo)
    ensures d.keyOf == map[a := ("A", 1)] && d.pathRouteMap.Keys == {a} && !d.recalculate
    ensures d.peerPathMap == Put(map[], ("A", 1), a) && d.locRibPath == Some(a) && d.ecmpPaths.Keys == {a}
  {
    hide Put, Drop, Lookup, Rekey, BestOf, Walk, Walked, Winner, Slots, SourceOf;
    hide Destination.Valid, Destination.CameFrom, Destination.Eligible, Destination.Marked, Destination.Selected;
    hide Destination.Leaked, Destination.IsNew, Destination.Fits;
    d := new Destination();
    NewFits(d, ("A", 1), a);
    var added := d.AddOrUpdatePath("A", 1, a);
    ghost var eligible := d.Eligible({a});
    assert eligible == {a} by { OnlyEligible(d, a, ("A", 1)); }
    ghost var order;
    var action, candidates, source;
    label S:
    action, candidates, source, order := d.SelectRouteForLocRib({a}, true, true);
    NothingSeen(Best(candidates, source), eligible);
    OneIsChosen(d, a, ("A", 1), candidates, source, old@S(d.ecmpPaths).Keys, old@S(d.Marked()), action);
  }

  // The first path of a prefix is chosen, and its next hop reaches the forwarding plane unless it is a route of the router's
  // own that is not an aggregate.
  method FirstPathIsProgrammed(a: Path) returns (d: Destination)
    ensures d.Valid() && d.locRibPath == Some(a)
    ensures Replay(d.calls) == if IsOwn(a.routeType) && !a.routeType.RouteAgg? then {} else {a.nextHop}
  {
    hide Put, Replay, Legal, Destination.Valid;
    d := OneChosen(a);
    forall hop ensures hop in Replay(d.calls) <==> (hop == a.nextHop && (!IsOwn(a.routeType) || a.routeType.RouteAgg?)) {
      d.ForwardingPlaneMirrors(hop);
    }
  }

  // A path that can be chosen, and one that cannot be reached. The first is withdrawn and then the second: nothing is due,
  // and the empty destination stays.
  method EmptyDestinationStays(a: Path, b: Path) returns (d: Destination, leaves: bool)
    requires a != b && a.neighbor.Some? && b.neighbor.Some?
    ensures d.Valid() && d.IsEmpty() && !leaves
  {
    hide Put, Drop, Lookup, Rekey, Slots, SourceOf;
    hide Destination.Valid, Destination.Leaked, Destination.IsNew, Destination.Fits;
    d := OneChosen(a);
    SecondFits(d, ("A", 1), ("B", 1), a, b);
    TwoStored(("A", 1), ("B", 1), a, b);
    var added := d.AddOrUpdatePath("B", 1, b);
    var gone;
    gone, leaves := d.WithdrawPath("A", 1, {}, true, true);
    gone, leaves := d.WithdrawPath("B", 1, {}, true, true);
  }

  lemma TwoStored(key: PathKey, other: PathKey, a: Path, b: Path)
    requires key.0 != other.0
    ensures var both := Put(Put(map[], key, a), other, b);
            && Lookup(both, key) == Some(a) && Lookup(Drop(both, key), other) == Some(b)
            && Drop(Drop(both, key), other) == map[]
    ensures Lookup(Put(map[], key, a), other) == None
    ensures Rekey(map[a := key], None, other, b) == map[a := key, b := other]
  {
  }

  lemma SecondFits(d: Destination, key: PathKey, other: PathKey, a: Path, b: Path)
    requires d.Valid() && d.pathRouteMap.Keys == {a} && d.keyOf == map[a := key] && a != b && other != key
    requires a.neighbor.Some? && b.neighbor.Some? && d.ecmpPaths.Keys == {a}
    ensures d.IsNew(b) && d.Fits(other, b)
  {
  }

  // A path is replaced by another of the same peer and path id: its route stays on file, and it stays installed.
  method ReplacedStays(a: Path, b: Path) returns (d: Destination)
    requires a != b
    ensures d.Valid() && Lookup(d.peerPathMap, ("A", 1)) == Some(b)
    ensures a !in d.keyOf && a in d.pathRouteMap && a in d.ecmpPaths && d.Leaked() == {a}
  {
    hide Put, Drop, Lookup, Rekey, Slots, SourceOf;
    hide Destination.Valid, Destination.IsNew, Destination.Fits;
    d := OneChosen(a);
    Replaceable(d, ("A", 1), a, b);
    var added := d.AddOrUpdatePath("A", 1, b);
  }

  lemma Replaceable(d: Destination, key: PathKey, a: Path, b: Path)
    requires d.pathRouteMap.Keys == {a} && d.keyOf == map[a := key] && a != b && d.ecmpPaths.Keys == {a}
    ensures d.IsNew(b) && d.Fits(key, b) && Lookup(Put(map[], key, a), key) == Some(a)
    ensures Lookup(Put(Put(map[], key, a), key, b), key) == Some(b) && Rekey(map[a := key], Some(a), key, b) == map[b := key]
  {
  }

  // ---------- two paths that share the load ----------

  // Two paths that differ in the BGP identifier of their routers and in next hop only, as far as the cascade sees.
  predicate Share(a: Path, b: Path) {
    && a.pref == b.pref && a.numASes == b.numASes <= 4096 && a.origin == b.origin && a.routeType == b.routeType
    && a.IsExternal() && b.IsExternal() && a.bgpId < b.bgpId && a.nextHop != b.nextHop
    && |AddressOf(a)| == |AddressOf(b)|
  }

  lemma KeepsBoth(c: seq<Path>, key: Key, limit: int)
    requires |c| == 2 && key(c[0]) == key(c[1]) <= limit
    ensures KeepBest(c, key, limit, ToOne) == c
    ensures limit == ORIGIN_LIMIT && key == OriginKey ==> KeepBest(c, key, limit, AsWritten) == c
  {
    FilterStageExact(c, key, limit);
    FilterAll(c, 2, Least(c, key));
    assert c[..2] == c;
    if limit == ORIGIN_LIMIT && key == OriginKey { UnresetStageExact(c, key, limit); }
  }

  lemma BothReachTheOrigin(c: seq<Path>, a: Path, b: Path)
    requires Share(a, b) && (c == [a, b] || c == [b, a])
    ensures AfterAs(c) == c && AfterOrigin(c, AsWritten) == c && Comparable(c, |AddressOf(a)|)
  {
    hide KeepBest;
    KeepsBoth(c, PrefKey, 0);
    KeepsBoth(c, AsKey, AS_LIMIT);
    KeepsBoth(c, OriginKey, ORIGIN_LIMIT);
    assert AsKey(AfterPref(c)[0]) <= AS_LIMIT;
  }

  lemma BothTie(c: seq<Path>, a: Path, b: Path)
    requires Share(a, b) && (c == [a, b] || c == [b, a])
    ensures TiedForEcmp(c, AsWritten, true, true) == c && Winner(c) == a
  {
    hide AfterAs, AfterOrigin, Survivors, Comparable, Beats;
    BothReachTheOrigin(c, a, b);
    assert OriginSettled(c, AsWritten) by { assert OriginKey(c[0]) == OriginKey(c[1]); }
    SurvivorsAreUnbeaten(c, AsWritten, |AddressOf(a)|);
    LowerIdBeats(a, b);
    CascadeMembers(c, AsWritten, true, true);
    assert First(c) in multiset(Survivors(c, AsWritten));
    assert !Unbeaten(CASCADE_KEYS, b, c) by { assert c[if c[0] == a then 0 else 1] == a; }
  }

  lemma BeatsLater(keys: seq<Key>, p: Path, q: Path)
    requires keys != [] && keys[0](p) == keys[0](q) && Beats(keys[1..], p, q)
    ensures Beats(keys, p, q)
  {
  }

  lemma LowerIdBeats(a: Path, b: Path)
    requires Share(a, b)
    ensures Beats(CASCADE_KEYS, a, b)
  {
    var k1 := CASCADE_KEYS[1..];
    var k2 := k1[1..];
    var k3 := k2[1..];
    var k4 := k3[1..];
    assert k4[0] == BgpIdKey && k3[0] == InternalKey && k2[0] == OriginKey && k1[0] == AsKey;
    assert Beats(k4, a, b);
    BeatsLater(k3, a, b);
    BeatsLater(k2, a, b);
    BeatsLater(k1, a, b);
    BeatsLater(CASCADE_KEYS, a, b);
  }

  lemma TwoCandidates(b: Best, p: Path, q: Path)
    requires BestOf(b, {p, q}) && SourceOf(p) == SourceOf(q) && p != q
    ensures b.updated == [p, q] || b.updated == [q, p]
  {
    hide SourceOf;
    var c := b.updated;
    NothingSeen(b, {p, q});
    assert SourceOf(c[0]) == b.source && c[0] in {p, q};
    forall x ensures x in c <==> x in [p, q] {
      if x in c {
        var k :| 0 <= k < |c| && c[k] == x;
        assert SourceOf(c[k]) == b.source && c[k] in {p, q};
      }
    }
    SameOrderBag(c, [p, q]);
    assert |c| == |multiset(c)| == |multiset([p, q])| == 2;
    assert c[0] in [p, q] && c[1] in [p, q] && c[0] != c[1];
  }

  lemma TwoEligible(d: Destination, a: Path, b: Path, key: PathKey, other: PathKey)
    requires d.keyOf == map[a := key, b := other]
    ensures d.Eligible({a, b}) == {a, b}
  {
  }

  lemma BothInstalled(d: Destination, a: Path, b: Path, c: seq<Path>, marked: set<Path>, action: RouteAction)
    requires d.Valid() && Share(a, b) && (c == [a, b] || c == [b, a])
    requires d.Selected(c, true, true, {a}, marked, action)
    ensures d.locRibPath == Some(a) && d.ecmpPaths.Keys == {a, b} && b !in d.Marked()
  {
    hide Winner, TiedForEcmp, Destination.Valid, Destination.Marked;
    BothTie(c, a, b);
    if b in d.Marked() { d.OneIsMarked(b); }
    var i := if c[0] == b then 0 else 1;
    assert c[i] == b;
    var p :| p in d.ecmpPaths && p.nextHop == c[i].nextHop;
    assert p == b;
  }

  method TwoShare(a: Path, b: Path) returns (d: Destination)
    requires Share(a, b)
    ensures d.Valid() && fresh(d) && fresh(d.pathIds) && forall r :: r in d.routes ==> fresh(r) && fresh(r.pathInfo)
    ensures d.keyOf == map[a := ("A", 1), b := ("B", 1)] && d.pathRouteMap.Keys == {a, b} && !d.recalculate
    ensures d.peerPathMap == Put(Put(map[], ("A", 1), a), ("B", 1), b)
    ensures d.locRibPath == Some(a) && d.ecmpPaths.Keys == {a, b} && b !in d.Marked()
  {
    hide Put, Drop, Lookup, Rekey, Slots, SourceOf, BestOf, Walk, Walked, Winner, Share;
    hide Destination.Valid, Destination.CameFrom, Destination.Eligible, Destination.Marked, Destination.Selected;
    hide Destination.Leaked, Destination.IsNew, Destination.Fits;
    d := OneChosen(a);
    ShareMeans(a, b);
    SecondFits(d, ("A", 1), ("B", 1), a, b);
    TwoStored(("A", 1), ("B", 1), a, b);
    var added := d.AddOrUpdatePath("B", 1, b);
    ghost var eligible := d.Eligible({a, b});
    assert eligible == {a, b} by { TwoEligible(d, a, b, ("A", 1), ("B", 1)); }
    ghost var order;
    var action, candidates, source;
    label S:
    action, candidates, source, order := d.SelectRouteForLocRib({a, b}, true, true);
    TwoCandidates(Best(candidates, source), a, b);
    BothInstalled(d, a, b, candidates, old@S(d.Marked()), action);
  }

  lemma ShareMeans(a: Path, b: Path)
    requires Share(a, b)
    ensures a != b && a.neighbor.Some? && b.neighbor.Some? && SourceOf(a) == SourceOf(b)
  {
  }

  method BestWithdrawn(a: Path, b: Path) returns (d: Destination)
    requires Share(a, b)
    ensures d.Valid() && fresh(d) && fresh(d.pathIds) && forall r :: r in d.routes ==> fresh(r) && fresh(r.pathInfo)
    ensures d.keyOf == map[b := ("B", 1)] && d.recalculate && b in d.ecmpPaths && b !in d.Marked()
  {
    hide Put, Drop, Lookup, Rekey, Slots, SourceOf, Share;
    hide Destination.Valid, Destination.Leaked;
    d := TwoShare(a, b);
    ShareMeans(a, b);
    TwoStored(("A", 1), ("B", 1), a, b);
    var gone := d.RemovePath("A", 1);
    assert d.keyOf == map[b := ("B", 1)];
  }

  // The best path goes. The other, installed already, becomes the best, and its route is not marked so.
  method BestIsUnmarked(a: Path, b: Path) returns (d: Destination)
    requires Share(a, b)
    ensures d.Valid() && d.locRibPath == Some(b) && b in d.ecmpPaths && b !in d.Marked()
  {
    hide SourceOf, BestOf, Walk, Walked, Winner, Share;
    hide Destination.Valid, Destination.CameFrom, Destination.Eligible, Destination.Marked, Destination.Selected;
    d := BestWithdrawn(a, b);
    ghost var eligible := d.Eligible({b});
    assert eligible == {b} by { OnlyEligible(d, b, ("B", 1)); }
    ghost var order;
    var action, candidates, source;
    label S:
    action, candidates, source, order := d.SelectRouteForLocRib({b}, true, true);
    NothingSeen(Best(candidates, source), eligible);
    NotMarkedAgain(d, b, ("B", 1), candidates, source, old@S(d.ecmpPaths).Keys, old@S(d.Marked()), action);
  }

  lemma NotMarkedAgain(d: Destination, b: Path, key: PathKey, candidates: seq<Path>, source: nat, was: set<Path>,
    marked: set<Path>, action: RouteAction)
    requires d.Valid() && d.keyOf == map[b := key] && candidates != [] && BestOf(Best(candidates, source), {b})
    requires |candidates| > 1 ==> forall i :: 0 <= i < |candidates| ==> candidates[i].neighbor.Some?
    requires d.Selected(candidates, true, true, was, marked, action) && b in was && b !in marked
    ensures d.locRibPath == Some(b) && b in d.ecmpPaths && b !in d.Marked()
  {
    hide TiedForEcmp, Winner, Wired, Posted, Numbered, Mirrored;
    OneIsChosen(d, b, key, candidates, source, was, marked, action);
  }

  // A path that shares the load is replaced by one of a worse source: no selection is due, and it stays installed.
  method ReplacedStaysInstalled(a: Path, b: Path, q: Path) returns (d: Destination)
    requires Share(a, b) && SourceOf(q) > SourceOf(a)
    ensures d.Valid() && !d.recalculate && b !in d.keyOf && b in d.ecmpPaths
  {
    hide Put, Drop, Lookup, Rekey, Slots, SourceOf, Share;
    hide Destination.Valid, Destination.Marked, Destination.Leaked, Destination.IsNew, Destination.Fits;
    d := TwoShare(a, b);
    ShareMeans(a, b);
    WorseFits(d, a, b, q);
    var added := d.AddOrUpdatePath("B", 1, q);
  }

  lemma WorseFits(d: Destination, a: Path, b: Path, q: Path)
    requires d.keyOf == map[a := ("A", 1), b := ("B", 1)] && d.pathRouteMap.Keys == d.ecmpPaths.Keys == {a, b} && a != b
    requires SourceOf(a) == SourceOf(b) < SourceOf(q)
    ensures d.IsNew(q) && d.Fits(("B", 1), q) && Lookup(Put(Put(map[], ("A", 1), a), ("B", 1), b), ("B", 1)) == Some(b)
    ensures b !in Rekey(d.keyOf, Some(b), ("B", 1), q)
  {
    hide SourceOf;
  }
}

module BfdRuns {
  import opened Paths
  import opened BfdControl
  import opened BfdSessions

  // What a peer with discriminator 7 sends.
  function FromPeer(state: SessionState): ControlPacket {
    ControlPacket(BFD_VERSION, DIAG_NONE, state, false, false, false, false, false, 3, 7, 1, 250000, 250000, 0)
  }

  // A session that has sent once, while down.
  method SentOnce(desired: uint32, required: uint32) returns (s: BfdSession)
    ensures fresh(s) && s.Valid() && s.isClientActive && s.sessionState.Down? && !s.movedToDownState && !s.NeedsUpdate()
    ensures s.packet.desiredMinTxInterval == s.packet.requiredMinRxInterval == STARTUP_INTERVAL
    ensures s.packet.diagnostic == DIAG_NONE
  {
    hide BfdSession.Valid, BfdSession.Current, DecodePacket, HasBit, EncodePacket;
    s := new BfdSession(1, desired, required, 3, false);
    s.Activate();
    ghost var p := s.SendPeriodic();
  }

  // And one that then came up with its peer.
  method CameUp(desired: uint32, required: uint32) returns (s: BfdSession)
    ensures fresh(s) && s.Valid() && s.isClientActive && s.sessionState.Up? && s.remoteSessionState.Up?
    ensures s.packet.desiredMinTxInterval == s.packet.requiredMinRxInterval == STARTUP_INTERVAL
  {
    hide BfdSession.Valid, BfdSession.Current, DecodePacket, HasBit, EncodePacket;
    s := SentOnce(desired, required);
    s.ProcessPacket(FromPeer(Down), true);
    s.ProcessPacket(FromPeer(Init), true);
    s.ProcessPacket(FromPeer(Up), true);
  }

  // One of the intervals configured is the start-up one: the Poll of the next packet stays in the buffer.
  method PollStays() returns (s: BfdSession, ghost p: ControlPacket)
    ensures s.Valid() && p.poll && s.packet.poll && !s.NeedsUpdate()
  {
    hide BfdSession.Valid, BfdSession.Current, DecodePacket, HasBit, EncodePacket;
    s := CameUp(STARTUP_INTERVAL, 250000);
    s.UpdateParams(STARTUP_INTERVAL, 250000, 3, false);
    p := s.SendPeriodic();
  }

  // Intervals configured after those of before were taken up are not offered, though the packet says they are polled for.
  method NewIntervalsStayBehind() returns (s: BfdSession, ghost p: ControlPacket)
    ensures s.Valid() && s.desiredMinTxInterval == s.requiredMinRxInterval == 300000
    ensures p.poll && p.desiredMinTxInterval == p.requiredMinRxInterval == 250000
  {
    hide BfdSession.Valid, BfdSession.Current, DecodePacket, HasBit, EncodePacket;
    s := CameUp(250000, 250000);
    s.UpdateParams(250000, 250000, 3, false);
    p := s.SendPeriodic();
    s.UpdateParams(300000, 300000, 3, false);
    p := s.SendPeriodic();
  }

  // A timeout of a session that is down changes its diagnostic and sets no flag: the next packet carries the one before.
  method OldDiagnosticIsSent() returns (s: BfdSession, ghost p: ControlPacket)
    ensures s.Valid() && s.localDiag == DIAG_TIME_EXPIRED && p.diagnostic == DIAG_NONE
  {
    hide BfdSession.Valid, BfdSession.Current, DecodePacket, HasBit, EncodePacket;
    s := SentOnce(250000, 250000);
    s.HandleTimeout();
    p := s.SendPeriodic();
  }
}
