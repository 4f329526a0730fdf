/** The list of destinations that bulk reads page through (addRoutesToRouteList, removeRoutesFromRouteList,
  * ResetRouteList and BulkGetBGPRoutes in bgp/rib/rib.go), for one protocol family.
  *
  * While a walk is active, removing a destination leaves a hole; a later reset closes the holes. The timer that resets
  * an abandoned walk calls ResetRouteList.
  */
module RouteLists {
  // The part of a destination the list uses.
  class Entry {
    var routeListIdx: int
    var numPaths: nat

    constructor ()
      ensures routeListIdx == -1 && numPaths == 0
    {
      routeListIdx, numPaths := -1, 0;
    }
  }

  class RouteList {
    var list: seq<Entry?>
    var dirty: bool
    var activeGet: bool

    // Every entry ever added. Entries are not reused: a destination that comes back is a new one.
    ghost var all: set<Entry>
    // The walk in progress: the next index, what was returned, and the entries that kept their paths since its start.
    ghost var cursor: nat
    ghost var walked: seq<Entry>
    ghost var steady: set<Entry>

    // Every listed entry knows its slot.
    ghost predicate Placed()
      reads `list, `all, all`routeListIdx
    {
      && (forall i :: 0 <= i < |list| && list[i] != null ==> list[i] in all && list[i].routeListIdx == i)
      && (forall e :: e in all ==> 0 <= e.routeListIdx)
    }

    // Holes are there only while a walk is, or was, active.
    ghost predicate Valid()
      reads `list, `all, `dirty, `activeGet, all`routeListIdx
    {
      && Placed()
      && (dirty ==> activeGet)
      && (!dirty ==> forall i :: 0 <= i < |list| ==> list[i] != null)
    }

    ghost function Entries(): set<Entry>
      reads `list
    {
      set e: Entry | e in list
    }

    // No entry came back twice. A steady one came back if the walk has passed it, and only then.
    ghost predicate Walking()
      reads this, all
    {
      && activeGet && cursor <= |list|
      && (forall k :: 0 <= k < |walked| ==> walked[k] in all && walked[k].routeListIdx < cursor)
      && (forall j, k :: 0 <= j < k < |walked| ==> walked[j] != walked[k])
      && (forall e :: e in steady ==>
            && e in all && 0 <= e.routeListIdx < |list| && list[e.routeListIdx] == e && e.numPaths > 0
            && (e.routeListIdx < cursor ==> e in walked))
    }

    constructor ()
      ensures Valid() && list == [] && !dirty && !activeGet && all == {}
    {
      list, dirty, activeGet, all, cursor, walked, steady := [], false, false, {}, 0, [], {};
    }

    method AddRoute(dest: Entry)
      requires Valid() && dest !in all
      modifies this, dest
      ensures Valid() && list == old(list) + [dest] && dest.routeListIdx == |old(list)|
      ensures dest.numPaths == old(dest.numPaths) && all == old(all) + {dest}
      ensures dirty == old(dirty) && activeGet == old(activeGet)
      ensures cursor == old(cursor) && walked == old(walked) && steady == old(steady)
      ensures old(Walking()) ==> Walking()
    {
      list := list + [dest];
      dest.routeListIdx := |list| - 1;
      all := all + {dest};
    }

    // With a walk active nothing moves; otherwise the last entry takes the freed slot.
    method RemoveRoute(dest: Entry)
      requires Valid() && (dest in Entries() || dest.routeListIdx == -1)
      modifies this, all`routeListIdx
      ensures Valid() && Entries() == old(Entries()) - {dest}
      ensures activeGet == old(activeGet) && all == old(all) && cursor == old(cursor) && walked == old(walked)
      ensures var idx := old(dest.routeListIdx);
              if idx == -1 then list == old(list)
              else if activeGet then list == old(list)[idx := null]
              else |list| == |old(list)| - 1 && forall i :: 0 <= i < |list| ==>
                list[i] == if i == idx then old(list[|list| - 1]) else old(list)[i]
      ensures steady == old(steady) - {dest} && (old(Walking()) ==> Walking())
    {
      var idx := dest.routeListIdx;
      steady := steady - {dest};
      if idx == -1 { return; }
      if activeGet {
        list := list[idx := null];
        dirty := true;
        HoleOnly(old(list), idx, list);
      } else {
        var last := list[|list| - 1];
        list := list[idx := last];
        last.routeListIdx := idx;
        list := list[..|list| - 1];
        SwapOnly(old(list), idx, list);
      }
    }

    // Paths come and go between the pages.
    method SetNumPaths(dest: Entry, n: nat)
      requires Valid() && dest in Entries()
      modifies dest`numPaths, `steady
      ensures Valid() && dest.numPaths == n && (old(Walking()) ==> Walking())
    {
      dest.numPaths := n;
      if n == 0 { steady := steady - {dest}; }
    }

    // The last non-empty slot at or after idx, or idx when there is none.
    method LastUsed(idx: nat, lastIdx: int) returns (modIdx: int)
      requires idx < |list| && idx - 1 <= lastIdx < |list|
      ensures lastIdx <= idx ==> modIdx == lastIdx
      ensures lastIdx > idx ==> idx <= modIdx <= lastIdx && (modIdx > idx ==> list[modIdx] != null)
      ensures forall k :: modIdx < k <= lastIdx ==> list[k] == null
    {
      modIdx := lastIdx;
      while modIdx > idx && list[modIdx] == null
        invariant lastIdx <= idx ==> modIdx == lastIdx
        invariant lastIdx > idx ==> idx <= modIdx <= lastIdx
        invariant forall k :: modIdx < k <= lastIdx ==> list[k] == null
      {
        modIdx := modIdx - 1;
      }
    }

    // Entries from the end move into the holes; what lies before the first hole stays where it is.
    method Compact()
      requires Placed()
      modifies `list, all`routeListIdx
      ensures Placed() && forall i :: 0 <= i < |list| ==> list[i] != null
      ensures Entries() == old(Entries())
      ensures forall i :: 0 <= i < |old(list)| && (forall k :: 0 <= k <= i ==> old(list)[k] != null) ==>
              i < |list| && list[i] == old(list)[i]
    {
      var lastIdx := |list| - 1;
      var idx := 0;
      while idx < |list|
        invariant 0 <= idx <= |list| == |old(list)| && idx - 1 <= lastIdx < |list|
        invariant Placed()
        invariant forall i :: 0 <= i < idx ==> list[i] != null
        invariant forall i :: lastIdx < i < |list| ==> list[i] == null
        invariant Entries() == old(Entries())
        invariant forall i :: 0 <= i < |list| && (forall k :: 0 <= k <= i ==> old(list)[k] != null) ==>
                  list[i] == old(list)[i]
      {
        if list[idx] == null {
          var modIdx := LastUsed(idx, lastIdx);
          if modIdx <= idx { break; }
          ghost var before := list;
          var moved := list[modIdx];
          list := list[idx := moved];
          moved.routeListIdx := idx;
          list := list[modIdx := null];
          lastIdx := modIdx;
          MoveOnly(before, idx, modIdx, list);
        }
        idx := idx + 1;
      }
      PrefixOnly(list, idx);
      list := list[..idx];
    }

    method ResetRouteList()
      requires Valid()
      modifies `list, `activeGet, `dirty, all`routeListIdx
      ensures Valid() && !activeGet && !dirty && Entries() == old(Entries())
      ensures forall i :: 0 <= i < |list| ==> list[i] != null
      ensures !old(dirty) ==> list == old(list)
    {
      activeGet := false;
      if !dirty { return; }
      Compact();
      dirty := false;
    }

    // The entries with paths among the slots lo to hi, in order.
    ghost function Page(lo: nat, hi: nat): seq<Entry>
      requires lo <= hi <= |list|
      reads `list, Entries()`numPaths
    {
      if lo == hi then [] else Page(lo, hi - 1) + if list[hi - 1] != null && list[hi - 1].numPaths > 0
        then [list[hi - 1]] else []
    }

    // The loop of one bulk read.
    method ReadPage(index: nat, count: nat) returns (stop: nat, result: seq<Entry>)
      requires index <= |list|
      ensures index <= stop <= |list| && result == Page(index, stop) && |result| <= count
      ensures stop < |list| ==> |result| == count
      ensures count > 0 && index < |list| ==> stop > index
    {
      stop, result := index, [];
      while stop < |list| && |result| < count
        invariant index <= stop <= |list| && result == Page(index, stop) && |result| <= count
        invariant count > 0 && index < |list| && stop == index ==> result == []
      {
        if list[stop] != null && list[stop].numPaths > 0 { result := result + [list[stop]]; }
        stop := stop + 1;
      }
    }

    // What a page holds: each entry of the range with paths, once.
    lemma {:induction false} PageHolds(lo: nat, hi: nat)
      requires Valid() && lo <= hi <= |list|
      ensures forall k :: 0 <= k < |Page(lo, hi)| ==> Page(lo, hi)[k] in all && lo <= Page(lo, hi)[k].routeListIdx < hi
      ensures forall j, k :: 0 <= j < k < |Page(lo, hi)| ==> Page(lo, hi)[j] != Page(lo, hi)[k]
      ensures forall i :: lo <= i < hi && list[i] != null && list[i].numPaths > 0 ==> list[i] in Page(lo, hi)
      decreases hi
    {
      if lo < hi {
        PageHolds(lo, hi - 1);
        var page := Page(lo, hi);
        forall i | lo <= i < hi && list[i] != null && list[i].numPaths > 0 ensures list[i] in page {
          if i == hi - 1 { assert page[|page| - 1] == list[i]; }
        }
      }
    }

    // One more page keeps the walk going.
    lemma WalkOn(before: nat, stop: nat, was: seq<Entry>)
      requires Valid() && activeGet && before <= stop == cursor <= |list| && walked == was + Page(before, stop)
      requires forall k :: 0 <= k < |was| ==> was[k] in all && was[k].routeListIdx < before
      requires forall j, k :: 0 <= j < k < |was| ==> was[j] != was[k]
      requires forall e :: e in steady ==> e in all && 0 <= e.routeListIdx < |list| && list[e.routeListIdx] == e
                                           && e.numPaths > 0 && (e.routeListIdx < before ==> e in was)
      ensures Walking()
    {
      PageHolds(before, stop);
      var page := Page(before, stop);
      forall j, k | 0 <= j < k < |walked| ensures walked[j] != walked[k] {
        if j < |was| <= k { assert walked[k] == page[k - |was|]; }
      }
    }

    // A read from index 0 starts a walk, after closing the holes an earlier one left. A read from where the walk stands
    // continues it. When a read returns 0 the walk has returned every entry that kept its paths, once.
    method BulkGet(index: nat, count: nat) returns (next: nat, result: seq<Entry>, ghost stop: nat)
      requires Valid()
      modifies this, all`routeListIdx
      ensures Valid() && activeGet && Entries() == old(Entries()) && all == old(all)
      ensures index != 0 || !old(activeGet) ==> list == old(list)
      ensures index <= |list| ==>
                index <= stop <= |list| && result == Page(index, stop) && (stop < |list| ==> |result| == count)
      ensures index > |list| ==> result == [] && stop == index
      ensures next == (if stop >= |list| then 0 else stop) && |result| <= count && (count > 0 && next != 0 ==> next > index)
      ensures index == 0 ==> Walking() && walked == result && steady == set e | e in Entries() && e.numPaths > 0
      ensures index != 0 && index == old(cursor) && old(Walking()) ==>
              Walking() && walked == old(walked) + result && steady == old(steady)
      ensures Walking() && (index == 0 || index == old(cursor)) && next == 0 && (index > 0 || count > 0) ==>
              forall e :: e in steady ==> e in walked
    {
      hide Page, Placed;
      if index == 0 && activeGet { ResetRouteList(); }
      activeGet := true;
      stop, result := index, [];
      var i := index;
      if index <= |list| { i, result := ReadPage(index, count); }
      stop := i;
      next := if i >= |list| then 0 else i;
      if index == 0 {
        StartWalk(stop, result);
      } else if index == cursor && index <= |list| {
        ContinueWalk(stop, result);
      }
    }

    ghost method StartWalk(stop: nat, result: seq<Entry>)
      requires Valid() && activeGet && stop <= |list| && result == Page(0, stop)
      modifies `walked, `steady, `cursor
      ensures Walking() && walked == result && cursor == stop && steady == set e | e in Entries() && e.numPaths > 0
    {
      hide Page;
      walked, steady, cursor := result, (set e | e in Entries() && e.numPaths > 0), stop;
      WalkOn(0, stop, []);
    }

    ghost method ContinueWalk(stop: nat, result: seq<Entry>)
      requires Valid() && activeGet && cursor <= stop <= |list| && result == Page(cursor, stop)
      modifies `walked, `cursor
      ensures walked == old(walked) + result && cursor == stop && (old(Walking()) ==> Walking())
    {
      var before, was := cursor, walked;
      walked, cursor := walked + result, stop;
      if old(Walking()) { WalkOn(before, stop, was); }
    }
  }

  lemma MoveOnly(before: seq<Entry?>, idx: nat, from: nat, after: seq<Entry?>)
    requires idx < from < |before| && before[idx] == null && after == before[idx := before[from]][from := null]
    ensures forall e: Entry :: e in after <==> e in before
  {
    forall e: Entry | e in before ensures e in after {
      var i :| 0 <= i < |before| && before[i] == e;
      assert after[if i == from then idx else i] == e;
    }
  }

  lemma PrefixOnly(list: seq<Entry?>, n: nat)
    requires n <= |list| && forall i :: n <= i < |list| ==> list[i] == null
    ensures forall e: Entry :: e in list[..n] <==> e in list
  {
    forall e: Entry | e in list ensures e in list[..n] {
      var i :| 0 <= i < |list| && list[i] == e;
      assert list[..n][i] == e;
    }
  }

  lemma HoleOnly(before: seq<Entry?>, idx: nat, after: seq<Entry?>)
    requires idx < |before| && after == before[idx := null] && before[idx] != null
    requires forall i :: 0 <= i < |before| && i != idx ==> before[i] != before[idx]
    ensures forall e: Entry :: e in after <==> e in before && e != before[idx]
  {
    forall e: Entry | e in before && e != before[idx] ensures e in after {
      var i :| 0 <= i < |before| && before[i] == e;
      assert after[i] == e;
    }
  }

  lemma SwapOnly(before: seq<Entry?>, idx: nat, after: seq<Entry?>)
    requires idx < |before| && after == before[idx := before[|before| - 1]][..|before| - 1] && before[idx] != null
    requires forall i, j :: 0 <= i < j < |before| ==> before[i] != before[j]
    ensures forall e: Entry :: e in after <==> e in before && e != before[idx]
  {
    var last := |before| - 1;
    forall e: Entry | e in before && e != before[idx] ensures e in after {
      var i :| 0 <= i < |before| && before[i] == e;
      assert after[if i == last then idx else i] == e;
    }
    forall e: Entry | e in after ensures e in before && e != before[idx] {
      var i :| 0 <= i < |after| && after[i] == e;
      assert before[if i == idx then last else i] == e;
    }
  }
}
