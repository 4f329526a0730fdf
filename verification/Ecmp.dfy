/** Equal-cost groups (getECMPPaths and removeAndPrepend in bgp/rib/destination.go) and the cascade that feeds them. */
module Ecmp {
  import opened Paths
  import opened Stages
  import opened Cascade
  import opened Preference

  // ---------- grouping by next hop ----------

  // The first n paths of s that go through one next hop, in their order.
  function ThroughTo(s: seq<Path>, n: nat, nextHop: string): seq<Path>
    requires n <= |s|
  {
    if n == 0 then [] else ThroughTo(s, n - 1, nextHop) + if s[n - 1].nextHop == nextHop then [s[n - 1]] else []
  }

  function Through(s: seq<Path>, nextHop: string): seq<Path> { ThroughTo(s, |s|, nextHop) }

  lemma {:induction false} ThroughToMembers(s: seq<Path>, n: nat, nextHop: string, p: Path)
    requires n <= |s|
    ensures p in ThroughTo(s, n, nextHop) <==> p.nextHop == nextHop && exists i :: 0 <= i < n && s[i] == p
  {
    if n > 0 { ThroughToMembers(s, n - 1, nextHop, p); }
  }

  lemma ThroughMembers(s: seq<Path>, nextHop: string, p: Path)
    ensures p in Through(s, nextHop) <==> p in s && p.nextHop == nextHop
  {
    ThroughToMembers(s, |s|, nextHop, p);
  }

  ghost predicate HasHop(groups: seq<seq<Path>>, nextHop: string) {
    exists g :: 0 <= g < |groups| && groups[g] != [] && groups[g][0].nextHop == nextHop
  }

  // One group for each next hop of s, holding all the paths of s through it.
  ghost predicate Grouped(groups: seq<seq<Path>>, s: seq<Path>) {
    && (forall g :: 0 <= g < |groups| ==> groups[g] != [] && groups[g] == Through(s, groups[g][0].nextHop))
    && (forall g, h :: 0 <= g < h < |groups| ==> groups[g][0].nextHop != groups[h][0].nextHop)
    && (forall i :: 0 <= i < |s| ==> HasHop(groups, s[i].nextHop))
  }

  ghost predicate Indexed(byHop: map<string, seq<Path>>, s: seq<Path>, n: nat)
    requires n <= |s|
  {
    && (forall h :: h in byHop ==> byHop[h] == ThroughTo(s, n, h) && byHop[h] != [])
    && (forall h :: h !in byHop ==> ThroughTo(s, n, h) == [])
  }

  method IndexByHop(s: seq<Path>) returns (byHop: map<string, seq<Path>>)
    ensures Indexed(byHop, s, |s|)
  {
    byHop := map[];
    for i := 0 to |s|
      invariant Indexed(byHop, s, i)
    {
      var p := s[i];
      var paths := if p.nextHop in byHop then byHop[p.nextHop] + [p] else [p];
      byHop := byHop[p.nextHop := paths];
    }
  }

  // `groups` lists the entries of the index under the keys in `order`.
  ghost predicate Listed(byHop: map<string, seq<Path>>, order: seq<string>, groups: seq<seq<Path>>) {
    && |order| == |groups|
    && (forall g :: 0 <= g < |order| ==> order[g] in byHop && groups[g] == byHop[order[g]])
    && (forall g, h :: 0 <= g < h < |order| ==> order[g] != order[h])
  }

  lemma ListedIsGrouped(byHop: map<string, seq<Path>>, order: seq<string>, groups: seq<seq<Path>>, s: seq<Path>)
    requires Indexed(byHop, s, |s|) && Listed(byHop, order, groups) && forall h :: h in byHop ==> h in order
    ensures Grouped(groups, s)
  {
    forall g | 0 <= g < |groups| ensures groups[g] == Through(s, order[g]) && groups[g] != []
      && groups[g][0].nextHop == order[g] {
      ThroughMembers(s, order[g], byHop[order[g]][0]);
    }
    forall i | 0 <= i < |s| ensures HasHop(groups, s[i].nextHop) {
      ThroughMembers(s, s[i].nextHop, s[i]);
      var g :| 0 <= g < |order| && order[g] == s[i].nextHop;
      assert groups[g][0].nextHop == s[i].nextHop;
    }
  }

  // Part of the index is listed; `hops` is what is left.
  ghost predicate Listing(byHop: map<string, seq<Path>>, hops: set<string>, order: seq<string>, groups: seq<seq<Path>>) {
    && hops <= byHop.Keys && Listed(byHop, order, groups)
    && (forall g :: 0 <= g < |order| ==> order[g] !in hops)
    && (forall h :: h in byHop ==> h in hops || h in order)
  }

  lemma ListingStep(byHop: map<string, seq<Path>>, hops: set<string>, order: seq<string>, groups: seq<seq<Path>>, h: string)
    requires Listing(byHop, hops, order, groups) && h in hops
    ensures Listing(byHop, hops - {h}, order + [h], groups + [byHop[h]])
  {
    var more := order + [h];
    assert more[|order|] == h;
    forall k | k in byHop ensures k in hops - {h} || k in more {
      if k in order {
        var g :| 0 <= g < |order| && order[g] == k;
        assert more[g] == k;
      }
    }
  }

  lemma NothingListed(byHop: map<string, seq<Path>>)
    ensures Listing(byHop, byHop.Keys, [], [])
  {
  }

  lemma AllListed(byHop: map<string, seq<Path>>, order: seq<string>, groups: seq<seq<Path>>, s: seq<Path>)
    requires Indexed(byHop, s, |s|) && Listing(byHop, {}, order, groups)
    ensures Grouped(groups, s)
  {
    ListedIsGrouped(byHop, order, groups, s);
  }

  lemma InIndex(byHop: map<string, seq<Path>>, hops: set<string>, order: seq<string>, groups: seq<seq<Path>>)
    requires Listing(byHop, hops, order, groups)
    ensures hops <= byHop.Keys
  {
  }

  // The groups come out in whatever order the map yields its keys.
  method GetEcmpPaths(s: seq<Path>) returns (groups: seq<seq<Path>>)
    ensures Grouped(groups, s)
  {
    hide Listing, Indexed, Grouped;
    var byHop := IndexByHop(s);
    var hops := byHop.Keys;
    groups := [];
    ghost var order: seq<string> := [];
    NothingListed(byHop);
    while hops != {}
      invariant Listing(byHop, hops, order, groups)
      decreases |hops|
    {
      var h :| h in hops;
      InIndex(byHop, hops, order, groups);
      ListingStep(byHop, hops, order, groups, h);
      groups := groups + [byHop[h]];
      order := order + [h];
      hops := hops - {h};
    }
    AllListed(byHop, order, groups, s);
  }

  // ---------- the best path goes to the front ----------

  function IndexFrom(paths: seq<Path>, k: nat, item: Path): (r: nat)
    requires k <= |paths|
    ensures k <= r <= |paths| && (r < |paths| ==> paths[r] == item)
    ensures forall i :: k <= i < r ==> paths[i] != item
    decreases |paths| - k
  {
    if k == |paths| || paths[k] == item then k else IndexFrom(paths, k + 1, item)
  }

  function GroupFrom(groups: seq<seq<Path>>, g: nat, item: Path): (r: nat)
    requires g <= |groups|
    ensures g <= r <= |groups| && (r < |groups| ==> item in groups[r])
    ensures forall i :: g <= i < r ==> item !in groups[i]
    decreases |groups| - g
  {
    if g == |groups| || item in groups[g] then g else GroupFrom(groups, g + 1, item)
  }

  function GroupOf(groups: seq<seq<Path>>, item: Path): nat { GroupFrom(groups, 0, item) }

  function MoveToFront(paths: seq<Path>, item: Path): seq<Path>
    requires item in paths
  {
    var k := IndexFrom(paths, 0, item);
    [item] + paths[..k] + paths[k + 1..]
  }

  // removeAndPrepend. When the item is in no group of a non-empty list, the source overwrites the last group and
  // leaves the new one at both ends.
  function RemoveAndPrepend(groups: seq<seq<Path>>, item: Path): seq<seq<Path>> {
    var g := GroupOf(groups, item);
    if g < |groups| then [MoveToFront(groups[g], item)] + groups[..g] + groups[g + 1..]
    else if groups == [] then [[item]]
    else [[item]] + groups[..|groups| - 1] + [[item]]
  }

  // The lists that a list of lists on the heap holds.
  function Lists(groups: array<array<Path>>): seq<seq<Path>>
    reads groups, groups[..]
  {
    seq(groups.Length, i requires 0 <= i < groups.Length reads groups, groups[..] => groups[i][..])
  }

  ghost predicate Separate(groups: array<array<Path>>)
    reads groups
  {
    forall i, j :: 0 <= i < j < groups.Length ==> groups[i] != groups[j]
  }

  // The two search loops.
  method Locate(groups: array<array<Path>>, item: Path) returns (idx: nat, pathIdx: nat)
    ensures idx == GroupOf(Lists(groups), item)
    ensures idx < groups.Length ==> pathIdx == IndexFrom(Lists(groups)[idx], 0, item) < groups[idx].Length
  {
    ghost var lists := Lists(groups);
    idx, pathIdx := 0, 0;
    while idx < groups.Length
      invariant idx <= groups.Length && GroupFrom(lists, 0, item) == GroupFrom(lists, idx, item)
    {
      var paths := groups[idx];
      pathIdx := 0;
      while pathIdx < paths.Length && paths[pathIdx] != item
        invariant pathIdx <= paths.Length && IndexFrom(lists[idx], 0, item) == IndexFrom(lists[idx], pathIdx, item)
      {
        pathIdx := pathIdx + 1;
      }
      if pathIdx < paths.Length { return; }
      idx := idx + 1;
    }
  }

  // copy(a[1:k+1], a[:k]) and a[0] = x: what is before slot k moves one to the right, over slot k.
  method ShiftAndSet<T>(a: array<T>, k: nat, x: T)
    requires k < a.Length
    modifies a
    ensures a[..] == [x] + old(a[..k]) + old(a[k + 1..])
  {
    forall i | 0 < i <= k { a[i] := a[i - 1]; }
    a[0] := x;
  }

  // The append: one more slot.
  method Append<T>(a: array<T>, x: T) returns (b: array<T>)
    ensures fresh(b) && b[..] == a[..] + [x]
  {
    b := new T[a.Length + 1](i requires 0 <= i <= a.Length reads a => if i < a.Length then a[i] else x);
  }

  // The slices that hold the groups.
  method Slices(lists: seq<seq<Path>>) returns (groups: array<array<Path>>)
    ensures fresh(groups) && (forall i :: 0 <= i < groups.Length ==> fresh(groups[i]))
    ensures Separate(groups) && Lists(groups) == lists
  {
    groups := new array<Path>[0];
    for n := 0 to |lists|
      invariant fresh(groups) && groups.Length == n && (forall i :: 0 <= i < n ==> fresh(groups[i]))
      invariant Separate(groups) && forall i :: 0 <= i < n ==> groups[i][..] == lists[i]
    {
      var paths := new Path[|lists[n]|](i requires 0 <= i < |lists[n]| => lists[n][i]);
      ghost var was := groups[..];
      groups := Append(groups, paths);
      assert forall i :: 0 <= i < n ==> groups[i] == groups[..][i] == was[i];
      assert groups[n] == groups[..][n];
    }
    ListsAre(groups, lists);
  }

  lemma ListsAre(groups: array<array<Path>>, lists: seq<seq<Path>>)
    requires groups.Length == |lists| && forall i :: 0 <= i < |lists| ==> groups[i][..] == lists[i]
    ensures Lists(groups) == lists
  {
  }

  // The item is found in group `idx`: it goes to the front of its group, and the group to the front of the list.
  method MoveInPlace(groups: array<array<Path>>, item: Path, idx: nat, pathIdx: nat)
    requires Separate(groups) && idx == GroupOf(Lists(groups), item) < groups.Length
    requires pathIdx == IndexFrom(Lists(groups)[idx], 0, item) < groups[idx].Length
    modifies groups, groups[..]
    ensures Lists(groups) == RemoveAndPrepend(old(Lists(groups)), item)
  {
    hide GroupOf, IndexFrom;
    ghost var was, rows := Lists(groups), groups[..];
    var paths := groups[idx];
    ShiftAndSet(paths, pathIdx, item);
    ShiftAndSet(groups, idx, paths);
    ghost var now := RemoveAndPrepend(was, item);
    forall i | 0 <= i < groups.Length ensures groups[i][..] == now[i] {
      assert groups[i] == groups[..][i] == rows[Source(i, idx)];
      if i == 0 { assert now[0] == MoveToFront(was[idx], item); } else { assert now[i] == was[Source(i, idx)]; }
    }
    ListsAre(groups, now);
  }

  method RemoveAndPrependInPlace(groups: array<array<Path>>, item: Path) returns (list: array<array<Path>>)
    requires Separate(groups)
    modifies groups, groups[..]
    ensures Lists(list) == RemoveAndPrepend(old(Lists(groups)), item)
  {
    hide GroupOf, IndexFrom;
    var idx, pathIdx := Locate(groups, item);
    list := groups;
    if idx < groups.Length {
      MoveInPlace(groups, item, idx, pathIdx);
    } else {
      var paths := new Path[1](_ => item);
      list := Append(groups, paths);
      // the range loop leaves its index at the last group, or at 0 when there is none
      ShiftAndSet(list, if groups.Length == 0 then 0 else groups.Length - 1, paths);
      ghost var now := RemoveAndPrepend(Lists(groups), item);
      forall i | 0 <= i < list.Length ensures list[i][..] == now[i] {
        assert list[i] == list[..][i] == if 0 < i < groups.Length then groups[i - 1] else paths;
      }
      ListsAre(list, now);
    }
  }

  ghost predicate InSome(groups: seq<seq<Path>>, p: Path) { exists g :: 0 <= g < |groups| && p in groups[g] }

  // What the installation loop relies on: the best path heads the list, every group is of one next hop,
  // no two groups share one, and the groups hold exactly the tied paths and the best one.
  ghost predicate Arranged(groups: seq<seq<Path>>, best: Path, tied: seq<Path>) {
    && groups != [] && (forall g :: 0 <= g < |groups| ==> groups[g] != []) && groups[0][0] == best
    && (forall g, k :: 0 <= g < |groups| && 0 <= k < |groups[g]| ==> groups[g][k].nextHop == groups[g][0].nextHop)
    && (forall g, h :: 0 <= g < h < |groups| ==> groups[g][0].nextHop != groups[h][0].nextHop)
    && (forall g, k :: 0 <= g < |groups| && 0 <= k < |groups[g]| ==> groups[g][k] == best || groups[g][k] in tied)
    && (forall i :: 0 <= i < |tied| ==> InSome(groups, tied[i]))
  }

  lemma MoveToFrontMembers(paths: seq<Path>, item: Path, k: nat)
    requires item in paths && k < |paths|
    ensures |MoveToFront(paths, item)| == |paths| && MoveToFront(paths, item)[k] in paths
  {
  }

  // Where slot i of the result comes from.
  function Source(i: nat, g: nat): nat { if i == 0 then g else if i <= g then i - 1 else i }

  lemma NothingToArrange(tied: seq<Path>, best: Path)
    requires Grouped([], tied)
    ensures Arranged(RemoveAndPrepend([], best), best, tied)
  {
    assert RemoveAndPrepend([], best) == [[best]];
    assert tied == [] || HasHop([], tied[0].nextHop);
  }

  lemma GroupedIsOneHopEach(groups: seq<seq<Path>>, tied: seq<Path>)
    requires Grouped(groups, tied)
    ensures OneHopEach(groups, tied)
    ensures forall i, j :: 0 <= i < j < |groups| ==> groups[i][0].nextHop != groups[j][0].nextHop
  {
    forall i, k | 0 <= i < |groups| && 0 <= k < |groups[i]|
      ensures groups[i][k].nextHop == groups[i][0].nextHop && groups[i][k] in tied
    {
      ThroughMembers(tied, groups[i][0].nextHop, groups[i][k]);
    }
  }

  // The groups survive the move whenever the best path is among the tied ones, or nothing tied.
  lemma PrependArranges(groups: seq<seq<Path>>, tied: seq<Path>, best: Path)
    requires Grouped(groups, tied) && (tied != [] ==> best in tied)
    ensures Arranged(RemoveAndPrepend(groups, best), best, tied)
  {
    hide RemoveAndPrepend, Arranged, Through, HasHop;
    if groups == [] {
      NothingToArrange(tied, best);
    } else {
      GroupedIsOneHopEach(groups, tied);
      assert groups[0][0] in tied;
      var i :| 0 <= i < |tied| && tied[i] == best;
      forall i | 0 <= i < |tied| ensures InSome(groups, tied[i]) { TiedInSome(groups, tied, i); }
      assert InSome(groups, best);
      ArrangedAfterMove(groups, tied, best, GroupOf(groups, best));
    }
  }

  lemma TiedInSome(groups: seq<seq<Path>>, tied: seq<Path>, i: nat)
    requires Grouped(groups, tied) && i < |tied|
    ensures InSome(groups, tied[i])
  {
    assert HasHop(groups, tied[i].nextHop);
    var g :| 0 <= g < |groups| && groups[g][0].nextHop == tied[i].nextHop;
    ThroughMembers(tied, tied[i].nextHop, tied[i]);
    assert tied[i] in groups[g];
  }

  ghost predicate OneHopEach(groups: seq<seq<Path>>, tied: seq<Path>) {
    && (forall i :: 0 <= i < |groups| ==> groups[i] != [])
    && (forall i, k :: 0 <= i < |groups| && 0 <= k < |groups[i]| ==>
          groups[i][k].nextHop == groups[i][0].nextHop && groups[i][k] in tied)
  }

  lemma MovedSlot(groups: seq<seq<Path>>, tied: seq<Path>, best: Path, g: nat, i: nat)
    requires g == GroupOf(groups, best) < |groups| && OneHopEach(groups, tied) && i < |groups|
    ensures var r := RemoveAndPrepend(groups, best);
            && |r| == |groups| && r[i] != [] && (i == 0 ==> r[0][0] == best)
            && forall k :: 0 <= k < |r[i]| ==> r[i][k] in tied && r[i][k].nextHop == groups[Source(i, g)][0].nextHop
  {
    var r := RemoveAndPrepend(groups, best);
    if i == 0 {
      forall k | 0 <= k < |r[0]| ensures r[0][k] in tied && r[0][k].nextHop == groups[g][0].nextHop {
        MoveToFrontMembers(groups[g], best, k);
        var l :| 0 <= l < |groups[g]| && groups[g][l] == r[0][k];
      }
    } else {
      assert r[i] == groups[Source(i, g)];
    }
  }

  lemma ArrangedAfterMove(groups: seq<seq<Path>>, tied: seq<Path>, best: Path, g: nat)
    requires g == GroupOf(groups, best) < |groups| && OneHopEach(groups, tied)
    requires forall i, j :: 0 <= i < j < |groups| ==> groups[i][0].nextHop != groups[j][0].nextHop
    requires forall i :: 0 <= i < |tied| ==> InSome(groups, tied[i])
    ensures Arranged(RemoveAndPrepend(groups, best), best, tied)
  {
    hide RemoveAndPrepend, InSome, GroupOf;
    var r: seq<seq<Path>> := RemoveAndPrepend(groups, best);
    MovedSlot(groups, tied, best, g, 0);
    forall i | 0 <= i < |r|
      ensures r[i] != [] && (i == 0 ==> r[0][0] == best)
      ensures forall k :: 0 <= k < |r[i]| ==> r[i][k] in tied && r[i][k].nextHop == groups[Source(i, g)][0].nextHop
    {
      MovedSlot(groups, tied, best, g, i);
    }
    forall i, j | 0 <= i < j < |r| ensures r[i][0].nextHop != r[j][0].nextHop {
      assert Source(i, g) != Source(j, g);
    }
    forall i | 0 <= i < |tied| ensures InSome(r, tied[i]) { MovedIn(groups, best, g, tied[i]); }
  }

  lemma MovedIn(groups: seq<seq<Path>>, best: Path, g: nat, p: Path)
    requires g == GroupOf(groups, best) < |groups| && InSome(groups, p)
    ensures InSome(RemoveAndPrepend(groups, best), p)
  {
    var r := RemoveAndPrepend(groups, best);
    var h :| 0 <= h < |groups| && p in groups[h];
    var j := if h == g then 0 else if h < g then h + 1 else h;
    if h == g { FrontKeeps(groups[g], best, p); } else { assert r[j] == groups[h]; }
    assert p in r[j];
  }

  lemma FrontKeeps(paths: seq<Path>, item: Path, p: Path)
    requires item in paths && p in paths
    ensures p in MoveToFront(paths, item)
  {
    var k := IndexFrom(paths, 0, item);
    assert paths == paths[..k] + [paths[k]] + paths[k + 1..];
  }

  // ---------- the cascade in place ----------

  // The part up to the stage that prefers external routes, and the slice that tied for load sharing.
  method TieEarly(a: array<Path>, n: nat, reset: Reset, ebgp: bool, ibgp: bool)
    returns (m: nat, tied: seq<Path>, pruned: seq<seq<Path>>)
    requires 0 < n == a.Length
    requires n > 1 ==> forall i :: 0 <= i < n ==> a[i].neighbor.Some?
    modifies a
    ensures m <= n && a[..m] == AfterExternal(old(a[..n]), reset)
    ensures tied == TiedForEcmp(old(a[..n]), reset, ebgp, ibgp)
    ensures pruned == PrunedEarly(old(a[..n]), reset)
  {
    hide KeepBest, ScanAll, PreferExternal;
    ghost var s := a[..n];
    tied, pruned, m := [], [], n;
    var removed := [];
    if m > 1 { m, removed := FilterInPlace(a, m, PrefKey, 0, ToOne); }
    pruned := AddPruned(pruned, removed);
    assert a[..m] == AfterPref(s) && removed == PrunedByPref(s);
    removed := [];
    if m > 1 { m, removed := FilterInPlace(a, m, AsKey, AS_LIMIT, ToOne); }
    pruned := AddPruned(pruned, removed);
    assert a[..m] == AfterAs(s) && removed == PrunedByAs(s);
    removed := [];
    if m > 1 { m, removed := FilterInPlace(a, m, OriginKey, ORIGIN_LIMIT, reset); }
    pruned := AddPruned(pruned, removed);
    assert a[..m] == AfterOrigin(s, reset) && removed == PrunedByOrigin(s, reset);
    if m > 1 && ebgp && ibgp { tied := a[..m]; }
    HaveNeighbors(s, reset, a[..m]);
    m, removed := PreferExternalInPlace(a, m);
    pruned := AddPruned(pruned, removed);
    if m > 1 && ebgp != ibgp && ((ebgp && a[0].IsExternal()) || (ibgp && a[0].IsInternal())) { tied := a[..m]; }
  }

  method PreferExternalInPlace(a: array<Path>, n: nat) returns (m: nat, removed: seq<Path>)
    requires n <= a.Length && (n > 1 ==> forall i :: 0 <= i < n ==> a[i].neighbor.Some?)
    modifies a
    ensures m <= n && Split(a[..m], removed) == if n > 1 then PreferExternal(old(a[..n])) else Split(old(a[..n]), [])
  {
    m, removed := n, [];
    if n > 1 {
      var i := 0;
      while i < n && !a[i].IsExternal()
        invariant i <= n && forall k :: 0 <= k < i ==> !a[k].IsExternal()
      {
        i := i + 1;
      }
      if i < n {
        assert a[..n][i].IsExternal();
        m, removed := DropInternalInPlace(a, n);
      }
    }
  }

  method TieLate(a: array<Path>, n: nat, ghost s: seq<Path>, reset: Reset, early: seq<seq<Path>>)
    returns (m: nat, pruned: seq<seq<Path>>)
    requires s != [] && n <= a.Length && a[..n] == AfterExternal(s, reset) && early == PrunedEarly(s, reset)
    requires |s| > 1 ==> forall i :: 0 <= i < |s| ==> s[i].neighbor.Some?
    modifies a
    ensures m <= n && a[..m] == Survivors(s, reset) && pruned == Pruned(s, reset)
  {
    hide KeepBest, ScanAll, LowestAddress, AfterExternal, PrunedEarly;
    m, pruned := n, early;
    var removed := [];
    if m > 1 { m, removed := FilterInPlace(a, m, BgpIdKey, MAX_UINT32, ToOne); }
    pruned := AddPruned(pruned, removed);
    assert a[..m] == AfterBgpId(s, reset) && removed == PrunedByBgpId(s, reset);
    removed := [];
    if m > 1 { m, removed := FilterInPlace(a, m, ClusterKey, MAX_UINT16, ToOne); }
    pruned := AddPruned(pruned, removed);
    assert a[..m] == AfterClusters(s, reset) && removed == PrunedByClusters(s, reset);
    removed := [];
    if m > 1 {
      HaveNeighborsLate(s, reset, a[..m]);
      forall i | 0 <= i < m ensures a[i].neighbor.Some? { assert a[..m][i] == a[i]; }
      m, removed := LowestAddressInPlace(a, m);
    }
    pruned := AddPruned(pruned, removed);
  }

  // calculateBestPath, on a copy of the slice: the caller's slice is replaced by the result.
  method CalculateBestPath(candidates: seq<Path>, reset: Reset, ebgp: bool, ibgp: bool)
    returns (survivors: seq<Path>, groups: seq<seq<Path>>, pruned: seq<seq<Path>>)
    requires candidates != []
    requires |candidates| > 1 ==> forall i :: 0 <= i < |candidates| ==> candidates[i].neighbor.Some?
    ensures survivors == Survivors(candidates, reset) && pruned == Pruned(candidates, reset)
    ensures Grouped(groups, TiedForEcmp(candidates, reset, ebgp, ibgp))
    ensures forall len :: AddressesOf(candidates, len) && ShortEnough(candidates)
                          && (reset.ToOne? || LowestFirst(candidates)) ==>
              forall p :: multiset(survivors)[p] == if NoneBetter(p, candidates) then multiset(candidates)[p] else 0
  {
    hide ShortEnough, LowestFirst, NoneBetter, AddressesOf;
    hide Survivors, Pruned, PrunedEarly, AfterExternal, TiedForEcmp, Grouped;
    var n := |candidates|;
    var a := new Path[n](i requires 0 <= i < n => candidates[i]);
    assert a[..n] == candidates;
    var tied;
    n, tied, pruned := TieEarly(a, n, reset, ebgp, ibgp);
    n, pruned := TieLate(a, n, candidates, reset, pruned);
    survivors := a[..n];
    groups := GetEcmpPaths(tied);
    forall len | AddressesOf(candidates, len) && ShortEnough(candidates) && (reset.ToOne? || LowestFirst(candidates))
      ensures forall p :: multiset(survivors)[p] == if NoneBetter(p, candidates) then multiset(candidates)[p] else 0
    {
      SurvivorsAreLexMinima(candidates, reset, len);
    }
  }

  lemma HaveNeighbors(s: seq<Path>, reset: Reset, t: seq<Path>)
    requires s != [] && t == AfterOrigin(s, reset)
    requires |s| > 1 ==> forall i :: 0 <= i < |s| ==> s[i].neighbor.Some?
    ensures |t| > 1 ==> forall i :: 0 <= i < |t| ==> t[i].neighbor.Some?
  {
    OriginMembers(s, reset);
    forall i | 0 <= i < |t| && |s| > 1 ensures t[i].neighbor.Some? { assert t[i] in s; }
  }

  lemma HaveNeighborsLate(s: seq<Path>, reset: Reset, t: seq<Path>)
    requires s != [] && t == AfterClusters(s, reset)
    requires |s| > 1 ==> forall i :: 0 <= i < |s| ==> s[i].neighbor.Some?
    ensures |t| > 1 ==> forall i :: 0 <= i < |t| ==> t[i].neighbor.Some?
  {
    ClustersMembers(s, reset);
    forall i | 0 <= i < |t| && |s| > 1 ensures t[i].neighbor.Some? { assert t[i] in s; }
  }
}
