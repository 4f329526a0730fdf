/** Route selection as values (SelectRouteForLocRib in bgp/rib/destination.go): which stored paths are candidates,
  * which path of each equal-cost group is installed, and what a change of one installed path does to the mirror.
  * Module Destinations has the method.
  */
module Selection {
  import opened Paths
  import opened Ecmp
  import opened RouteManager

  // ---------- candidates ----------

  function SourceOf(p: Path): (r: nat)
    ensures SRC_LOCAL <= r <= SRC_UNKNOWN
  {
    RouteSource(p.routeType)
  }

  datatype Best = Best(updated: seq<Path>, source: nat)

  // One round of the loop over the stored paths: the better source wins, equals join.
  function Consider(b: Best, p: Path): Best {
    if SourceOf(p) > b.source then b
    else if SourceOf(p) < b.source then Best([p], SourceOf(p))
    else Best(b.updated + [p], b.source)
  }

  // b holds exactly the paths of the best source among those seen, once each.
  ghost predicate BestOf(b: Best, seen: set<Path>) {
    && (forall i :: 0 <= i < |b.updated| ==> b.updated[i] in seen && SourceOf(b.updated[i]) == b.source)
    && (forall i, j :: 0 <= i < j < |b.updated| ==> b.updated[i] != b.updated[j])
    && (forall p :: p in seen ==> SourceOf(p) >= b.source && (SourceOf(p) == b.source ==> p in b.updated))
    && (b.updated == [] ==> b.source == SRC_UNKNOWN)
  }

  lemma ConsiderKeeps(b: Best, seen: set<Path>, p: Path)
    requires BestOf(b, seen) && p !in seen
    ensures BestOf(Consider(b, p), seen + {p})
  {
    var c := Consider(b, p);
    forall q | q in seen + {p} && SourceOf(q) == c.source ensures q in c.updated {
      if q == p { assert c.updated[|c.updated| - 1] == p; }
    }
  }

  lemma NothingSeen(b: Best, seen: set<Path>)
    requires BestOf(b, seen)
    ensures b.updated == [] <==> seen == {}
  {
    if b.updated != [] { assert b.updated[0] in seen; }
  }

  // A route of this router itself: an aggregate, a connected, default or static route, or one of an interior protocol.
  predicate IsOwn(routeType: RouteType) {
    routeType.RouteAgg? || routeType.RouteConnected? || routeType.RouteDefault? || routeType.RouteStatic?
    || routeType.RouteIGP?
  }

  // The router's own routes are the candidates if there are any; if not, those learned from peers; if not, all others.
  lemma CandidatesByType(b: Best, seen: set<Path>, p: Path)
    requires BestOf(b, seen)
    ensures p in b.updated <==>
            p in seen && if exists q :: q in seen && IsOwn(q.routeType) then IsOwn(p.routeType)
                         else if exists q :: q in seen && q.routeType.RouteEGP? then p.routeType.RouteEGP?
                         else true
  {
    NothingSeen(b, seen);
    if b.updated != [] { assert b.updated[0] in seen; }
  }

  // ---------- which path of a group is installed ----------

  function FirstIn(paths: seq<Path>, k: nat, installed: set<Path>): (r: nat)
    requires k <= |paths|
    ensures k <= r <= |paths| && (r < |paths| ==> paths[r] in installed)
    ensures forall i :: k <= i < r ==> paths[i] !in installed
    decreases |paths| - k
  {
    if k == |paths| || paths[k] in installed then k else FirstIn(paths, k + 1, installed)
  }

  // The best path itself in the first group; in the others one that is installed already, if there is one.
  function PickOf(paths: seq<Path>, first: bool, installed: set<Path>): Path
    requires paths != []
  {
    var k := FirstIn(paths, 0, installed);
    if first || k == |paths| then paths[0] else paths[k]
  }

  // The search through one group; in the first group only the best path is looked at.
  method FindInstalled(paths: seq<Path>, first: bool, installed: set<Path>) returns (pathIdx: nat)
    requires paths != []
    ensures pathIdx <= |paths| && PickOf(paths, first, installed) == paths[if pathIdx < |paths| then pathIdx else 0]
    ensures pathIdx < |paths| <==> PickOf(paths, first, installed) in installed
  {
    pathIdx := 0;
    while pathIdx < |paths|
      invariant pathIdx <= |paths| && FirstIn(paths, 0, installed) == FirstIn(paths, pathIdx, installed)
      invariant first ==> pathIdx == 0
    {
      if paths[pathIdx] in installed { return; }
      if first { return |paths|; }
      pathIdx := pathIdx + 1;
    }
  }

  function PickAt(groups: seq<seq<Path>>, g: nat, installed: set<Path>): Path
    requires g < |groups| && groups[g] != []
  {
    PickOf(groups[g], g == 0, installed)
  }

  function PicksTo(groups: seq<seq<Path>>, n: nat, installed: set<Path>): set<Path>
    requires n <= |groups| && forall g :: 0 <= g < |groups| ==> groups[g] != []
  {
    set g | 0 <= g < n :: PickAt(groups, g, installed)
  }

  lemma PickInGroup(paths: seq<Path>, first: bool, installed: set<Path>) returns (k: nat)
    requires paths != []
    ensures k < |paths| && PickOf(paths, first, installed) == paths[k] && (first ==> k == 0)
  {
    k := FirstIn(paths, 0, installed);
    if first || k == |paths| { k := 0; }
  }

  ghost predicate DistinctHops(paths: set<Path>) {
    forall p, q :: p in paths && q in paths && p != q ==> p.nextHop != q.nextHop
  }

  lemma PickHop(groups: seq<seq<Path>>, g: nat, best: Path, tied: seq<Path>, installed: set<Path>)
    requires Arranged(groups, best, tied) && g < |groups|
    ensures var p := PickAt(groups, g, installed);
            p.nextHop == groups[g][0].nextHop && (p == best || p in tied) && (g == 0 ==> p == best)
  {
    var k := PickInGroup(groups[g], g == 0, installed);
  }

  // One path is picked from each of the first n groups, and no two share a next hop.
  lemma PicksAreDistinct(groups: seq<seq<Path>>, n: nat, best: Path, tied: seq<Path>, installed: set<Path>)
    requires Arranged(groups, best, tied) && n <= |groups|
    ensures DistinctHops(PicksTo(groups, n, installed))
    ensures forall p :: p in PicksTo(groups, n, installed) ==> p == best || p in tied
    ensures n > 0 ==> best in PicksTo(groups, n, installed)
  {
    hide PickAt;
    forall g | 0 <= g < n
      ensures PickAt(groups, g, installed).nextHop == groups[g][0].nextHop
      ensures PickAt(groups, g, installed) == best || PickAt(groups, g, installed) in tied
    {
      PickHop(groups, g, best, tied, installed);
    }
    if n > 0 {
      PickHop(groups, 0, best, tied, installed);
      assert PickAt(groups, 0, installed) in PicksTo(groups, n, installed);
    }
  }

  // Every tied path goes through the next hop of some pick.
  lemma PicksCover(groups: seq<seq<Path>>, best: Path, tied: seq<Path>, installed: set<Path>, i: nat)
    requires Arranged(groups, best, tied) && i < |tied|
    ensures exists p :: p in PicksTo(groups, |groups|, installed) && p.nextHop == tied[i].nextHop
  {
    hide PickAt;
    assert InSome(groups, tied[i]);
    var g :| 0 <= g < |groups| && tied[i] in groups[g];
    assert groups[g] != [];
    PickHop(groups, g, best, tied, installed);
    assert PickAt(groups, g, installed) in PicksTo(groups, |groups|, installed);
  }

  // A path that newly joins the best one takes the place of no installed path that tied with its next hop.
  lemma PicksKeepTied(groups: seq<seq<Path>>, best: Path, tied: seq<Path>, was: set<Path>, g: nat, i: nat)
    requires Arranged(groups, best, tied) && 0 < g < |groups| && i < |tied|
    requires PickAt(groups, g, was) !in was && tied[i].nextHop == groups[g][0].nextHop
    ensures tied[i] !in was
  {
    assert InSome(groups, tied[i]);
    var h :| 0 <= h < |groups| && tied[i] in groups[h];
    assert h == g;
    var k :| 0 <= k < |groups[g]| && groups[g][k] == tied[i];
    assert FirstIn(groups[g], 0, was) == |groups[g]|;
  }

  // From one installed set to the next: the best path is served and every tied next hop, by paths that tied, and what
  // was installed for a next hop stays.
  ghost predicate Serves(installed: set<Path>, was: set<Path>, best: Path, tied: seq<Path>) {
    && best in installed && (forall p :: p in installed ==> p == best || p in tied)
    && (forall i :: 0 <= i < |tied| ==> exists p :: p in installed && p.nextHop == tied[i].nextHop)
    && (forall p, i :: p in installed && p !in was && p != best && 0 <= i < |tied| && tied[i].nextHop == p.nextHop ==>
       tied[i] !in was)
  }

  lemma PicksServe(groups: seq<seq<Path>>, best: Path, tied: seq<Path>, was: set<Path>)
    requires Arranged(groups, best, tied)
    ensures (forall g :: 0 <= g < |groups| ==> groups[g] != []) && best in PicksTo(groups, |groups|, was)
    ensures Serves(PicksTo(groups, |groups|, was), was, best, tied) && DistinctHops(PicksTo(groups, |groups|, was))
  {
    GroupsAreFilled(groups, best, tied);
    hide PickOf, Arranged, DistinctHops;
    PicksAreDistinct(groups, |groups|, best, tied, was);
    var picks := PicksTo(groups, |groups|, was);
    forall i | 0 <= i < |tied| ensures exists p :: p in picks && p.nextHop == tied[i].nextHop {
      PicksCover(groups, best, tied, was, i);
    }
    forall p, i | p in picks && p !in was && p != best && 0 <= i < |tied| && tied[i].nextHop == p.nextHop
      ensures tied[i] !in was {
      var g :| 0 <= g < |groups| && PickAt(groups, g, was) == p;
      PickHop(groups, g, best, tied, was);
      PicksKeepTied(groups, best, tied, was, g, i);
    }
  }

  lemma NothingDistinct()
    ensures DistinctHops({})
  {
  }

  // No member of a later group was picked from an earlier one.
  lemma LaterGroupIsNew(groups: seq<seq<Path>>, n: nat, best: Path, tied: seq<Path>, installed: set<Path>, k: nat)
    requires Arranged(groups, best, tied) && n < |groups| && k < |groups[n]|
    ensures groups[n][k] !in PicksTo(groups, n, installed)
  {
    hide PickAt;
    forall g | 0 <= g < n ensures PickAt(groups, g, installed) != groups[n][k] {
      PickHop(groups, g, best, tied, installed);
    }
  }

  // What was picked from earlier groups changes no later pick.
  lemma PickIsStable(groups: seq<seq<Path>>, n: nat, best: Path, tied: seq<Path>, installed: set<Path>)
    requires Arranged(groups, best, tied) && n < |groups|
    ensures PickOf(groups[n], n == 0, installed + PicksTo(groups, n, installed)) == PickAt(groups, n, installed)
    ensures PickAt(groups, n, installed) !in PicksTo(groups, n, installed)
    ensures PicksTo(groups, n + 1, installed) == PicksTo(groups, n, installed) + {PickAt(groups, n, installed)}
  {
    hide PicksTo, FirstIn;
    var picks := PicksTo(groups, n, installed);
    forall k | 0 <= k < |groups[n]| ensures groups[n][k] !in picks {
      LaterGroupIsNew(groups, n, best, tied, installed, k);
    }
    FirstAgrees(groups[n], 0, installed, installed + picks);
    var k := PickInGroup(groups[n], n == 0, installed);
    OneMorePick(groups, n, installed);
  }

  lemma NoPicksYet(groups: seq<seq<Path>>, installed: set<Path>)
    requires forall g :: 0 <= g < |groups| ==> groups[g] != []
    ensures PicksTo(groups, 0, installed) == {}
  {
  }

  lemma GroupsAreFilled(groups: seq<seq<Path>>, best: Path, tied: seq<Path>)
    requires Arranged(groups, best, tied)
    ensures groups != [] && groups[0] != [] && groups[0][0] == best
    ensures forall g :: 0 <= g < |groups| ==> groups[g] != [] && (groups[g][0] == best || groups[g][0] in tied)
  {
    forall g | 0 <= g < |groups| ensures groups[g][0] == best || groups[g][0] in tied { assert groups[g] != []; }
  }

  lemma OneMorePick(groups: seq<seq<Path>>, n: nat, installed: set<Path>)
    requires n < |groups| && forall g :: 0 <= g < |groups| ==> groups[g] != []
    ensures PicksTo(groups, n + 1, installed) == PicksTo(groups, n, installed) + {PickAt(groups, n, installed)}
  {
  }

  lemma {:induction false} FirstAgrees(paths: seq<Path>, k: nat, a: set<Path>, b: set<Path>)
    requires k <= |paths| && forall i :: 0 <= i < |paths| ==> (paths[i] in a <==> paths[i] in b)
    ensures FirstIn(paths, k, a) == FirstIn(paths, k, b)
    decreases |paths| - k
  {
    if k < |paths| && paths[k] !in a { FirstAgrees(paths, k + 1, a, b); }
  }

  // The picks the route manager has to hear of: those not installed before, unless they are local.
  ghost predicate ToCreate(created: seq<Path>, was: set<Path>, picks: set<Path>) {
    && (forall p :: p in created <==> p in picks && p !in was && p.IsProgrammed())
    && (forall i, j :: 0 <= i < j < |created| ==> created[i] != created[j])
  }

  lemma NothingToCreate(was: set<Path>)
    ensures ToCreate([], was, {})
  {
  }

  lemma CreateOneMore(created: seq<Path>, was: set<Path>, picks: set<Path>, pick: Path)
    requires ToCreate(created, was, picks) && pick !in picks
    ensures ToCreate(if pick !in was && pick.IsProgrammed() then created + [pick] else created, was, picks + {pick})
  {
  }

  // ---------- the mirror ----------

  function HopsOf(paths: set<Path>): set<string> { set p | p in paths && p.IsProgrammed() :: p.nextHop }

  // The installed paths go through different next hops, and the route manager has been told of exactly those.
  ghost predicate Mirrored(installed: set<Path>, calls: seq<RouteCall>) {
    DistinctHops(installed) && Legal(calls) && Replay(calls) == HopsOf(installed)
  }

  lemma MirrorRemove(installed: set<Path>, calls: seq<RouteCall>, p: Path)
    requires Mirrored(installed, calls) && p in installed
    ensures Mirrored(installed - {p}, if p.IsProgrammed() then calls + [Remove(p.nextHop)] else calls)
  {
    if p.IsProgrammed() {
      ReplayOneMore(calls, Remove(p.nextHop));
      assert p.nextHop in HopsOf(installed);
    }
  }

  // A path of a new next hop joins: with Create only when nothing is programmed, with Add always.
  lemma MirrorAdd(installed: set<Path>, calls: seq<RouteCall>, p: Path, create: bool)
    requires Mirrored(installed, calls) && forall q :: q in installed ==> q.nextHop != p.nextHop
    requires create ==> HopsOf(installed) == {}
    ensures Mirrored(installed + {p}, if !p.IsProgrammed() then calls
                                      else calls + [if create then Create(p.nextHop) else Add(p.nextHop)])
  {
    var call := if create then Create(p.nextHop) else Add(p.nextHop);
    ReplayOneMore(calls, call);
    assert HopsOf(installed + {p}) == HopsOf(installed) + if p.IsProgrammed() then {p.nextHop} else {};
  }

  // The kept paths the route manager has heard of before the i-th of the new ones is programmed.
  ghost function Told(keep: set<Path>, created: seq<Path>, i: nat): set<Path>
    requires i <= |created|
  {
    set p | p in keep && forall j :: i <= j < |created| ==> created[j] != p
  }

  lemma ToldAtFirst(was: set<Path>, keep: set<Path>, created: seq<Path>, calls: seq<RouteCall>)
    requires Mirrored(keep * was, calls) && ToCreate(created, was, keep) && DistinctHops(keep)
    ensures Mirrored(Told(keep, created, 0), calls)
    ensures keep !! was ==> HopsOf(Told(keep, created, 0)) == {}
  {
    var told := Told(keep, created, 0);
    forall p | p in told && p.IsProgrammed() ensures p in was {
      assert p !in created;
    }
    assert HopsOf(told) == HopsOf(keep * was);
  }

  lemma ToldNext(was: set<Path>, keep: set<Path>, created: seq<Path>, i: nat)
    requires ToCreate(created, was, keep) && DistinctHops(keep) && i < |created|
    ensures Told(keep, created, i + 1) == Told(keep, created, i) + {created[i]} && created[i].IsProgrammed()
    ensures forall q :: q in Told(keep, created, i) ==> q.nextHop != created[i].nextHop
  {
    assert created[i] in created;
  }

  lemma ToldAtLast(keep: set<Path>, created: seq<Path>)
    ensures Told(keep, created, |created|) == keep
  {
  }
}
