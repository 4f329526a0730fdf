/** The stages of the tie-break cascade (bgp/rib/destination.go; section 9.1.2.2 of RFC 4271).
  *
  * Each stage overwrites the candidate slice in place. A stage is a method on an array, proved against a
  * function on sequences; what a stage is for is proved about the function.
  *
  * Line 743 of the source advances `idx` where every other stage sets it to 1. `OriginReset` names the two
  * readings, so that what the line costs can be said exactly.
  */
module Stages {
  import opened Paths

  type Key = Path -> int

  const AS_LIMIT := 4096
  const MAX_UINT32 := 0xFFFF_FFFF
  const MAX_UINT16 := 0xFFFF
  const ORIGIN_LIMIT := 3

  // ---------- what the stages compare; smaller is better ----------

  function PrefKey(p: Path): int { 0 - p.pref }

  function AsKey(p: Path): int { p.numASes }

  function OriginKey(p: Path): int { p.origin }

  function InternalKey(p: Path): int { if p.IsExternal() then 0 else 1 }

  function BgpIdKey(p: Path): int { p.bgpId }

  function ClusterKey(p: Path): int { p.numClusters }

  function AddressOf(p: Path): seq<byte> { if p.neighbor.Some? then p.neighbor.value.address else [] }

  function AddressKey(p: Path): int { AddressValue(AddressOf(p)) }

  // The octets of an address read as one big-endian number.
  function AddressValue(a: seq<byte>): nat {
    if a == [] then 0 else 256 * AddressValue(a[..|a| - 1]) + a[|a| - 1]
  }

  // CompareNeighborAddress: octet by octet; addresses of different lengths count as equal.
  function CompareAddress(a: seq<byte>, b: seq<byte>): int {
    if |a| != |b| then 0 else CompareFrom(a, b, 0)
  }

  function CompareFrom(a: seq<byte>, b: seq<byte>, i: nat): int
    requires |a| == |b| && i <= |a|
    decreases |a| - i
  {
    if i == |a| then 0 else if a[i] < b[i] then -1 else if a[i] > b[i] then 1 else CompareFrom(a, b, i + 1)
  }

  lemma {:induction false} FirstDifferenceDecides(a: seq<byte>, b: seq<byte>, i: nat)
    requires |a| == |b| && i < |a| && a[..i] == b[..i] && a[i] < b[i]
    ensures AddressValue(a) < AddressValue(b)
  {
    var n := |a| - 1;
    if i < n {
      assert a[..n][..i] == a[..i] && b[..n][..i] == b[..i];
      FirstDifferenceDecides(a[..n], b[..n], i);
    } else {
      assert a[..n] == b[..n];
    }
  }

  lemma {:induction false} CompareFromIsNumeric(a: seq<byte>, b: seq<byte>, i: nat)
    requires |a| == |b| && i <= |a| && a[..i] == b[..i]
    ensures var c := CompareFrom(a, b, i);
            (c < 0 <==> AddressValue(a) < AddressValue(b)) && (c > 0 <==> AddressValue(a) > AddressValue(b))
    decreases |a| - i
  {
    if i == |a| {
      assert a == a[..i] && b == b[..i];
    } else if a[i] < b[i] {
      FirstDifferenceDecides(a, b, i);
    } else if a[i] > b[i] {
      FirstDifferenceDecides(b, a, i);
    } else {
      assert a[..i + 1] == a[..i] + [a[i]] && b[..i + 1] == b[..i] + [b[i]];
      CompareFromIsNumeric(a, b, i + 1);
    }
  }

  // The octet walk orders addresses of one length as the numbers they spell.
  lemma CompareAddressIsNumeric(a: seq<byte>, b: seq<byte>)
    requires |a| == |b|
    ensures CompareAddress(a, b) < 0 <==> AddressValue(a) < AddressValue(b)
    ensures CompareAddress(a, b) > 0 <==> AddressValue(a) > AddressValue(b)
  {
    CompareFromIsNumeric(a, b, 0);
  }

  // ---------- filters ----------

  // The members of s[..n] that `keep` accepts, in order.
  ghost function FilterTo(s: seq<Path>, n: nat, keep: Path -> bool): seq<Path>
    requires n <= |s|
  {
    if n == 0 then [] else FilterTo(s, n - 1, keep) + if keep(s[n - 1]) then [s[n - 1]] else []
  }

  ghost function Filter(s: seq<Path>, keep: Path -> bool): seq<Path> { FilterTo(s, |s|, keep) }

  lemma {:induction false} FilterAgrees(s: seq<Path>, n: nat, f: Path -> bool, g: Path -> bool)
    requires n <= |s| && forall i :: 0 <= i < n ==> f(s[i]) == g(s[i])
    ensures FilterTo(s, n, f) == FilterTo(s, n, g)
  {
    if n > 0 { FilterAgrees(s, n - 1, f, g); }
  }

  lemma {:induction false} FilterPrefix(s: seq<Path>, t: seq<Path>, n: nat, keep: Path -> bool)
    requires n <= |s| && n <= |t| && forall i :: 0 <= i < n ==> s[i] == t[i]
    ensures FilterTo(s, n, keep) == FilterTo(t, n, keep)
  {
    if n > 0 { FilterPrefix(s, t, n - 1, keep); }
  }

  lemma {:induction false} FilterCounts(s: seq<Path>, n: nat, keep: Path -> bool, p: Path)
    requires n <= |s|
    ensures multiset(FilterTo(s, n, keep))[p] == if keep(p) then multiset(s[..n])[p] else 0
  {
    if n > 0 {
      assert s[..n] == s[..n - 1] + [s[n - 1]];
      FilterCounts(s, n - 1, keep, p);
    }
  }

  lemma FilterMembers(s: seq<Path>, keep: Path -> bool, p: Path)
    ensures p in Filter(s, keep) <==> p in s && keep(p)
    ensures multiset(Filter(s, keep))[p] == if keep(p) then multiset(s)[p] else 0
  {
    FilterCounts(s, |s|, keep, p);
    assert s[..|s|] == s;
    assert p in Filter(s, keep) <==> p in multiset(Filter(s, keep));
    assert p in s <==> p in multiset(s);
  }

  lemma FilterAppend(t: seq<Path>, x: Path, keep: Path -> bool)
    ensures Filter(t + [x], keep) == Filter(t, keep) + if keep(x) then [x] else []
  {
    FilterPrefix(t + [x], t, |t|, keep);
  }

  lemma {:induction false} FilterConcat(t: seq<Path>, u: seq<Path>, keep: Path -> bool)
    ensures Filter(t + u, keep) == Filter(t, keep) + Filter(u, keep)
  {
    if u == [] {
      assert t + u == t;
    } else {
      var v, x := u[..|u| - 1], u[|u| - 1];
      assert u == v + [x] && t + u == (t + v) + [x];
      FilterAppend(t + v, x, keep);
      FilterAppend(v, x, keep);
      FilterConcat(t, v, keep);
    }
  }

  ghost function Both(f: Path -> bool, g: Path -> bool): Path -> bool { p => f(p) && g(p) }

  lemma {:induction false} FilterFilter(t: seq<Path>, f: Path -> bool, g: Path -> bool)
    ensures Filter(Filter(t, f), g) == Filter(t, Both(f, g))
  {
    if t != [] {
      var v, x := t[..|t| - 1], t[|t| - 1];
      assert t == v + [x];
      FilterFilter(v, f, g);
      FilterAppend(v, x, f);
      FilterAppend(v, x, Both(f, g));
      if f(x) {
        assert Filter(t, f) == Filter(v, f) + [x];
        FilterAppend(Filter(v, f), x, g);
      } else {
        assert Filter(t, f) == Filter(v, f);
      }
    }
  }

  lemma {:induction false} FilterAll(s: seq<Path>, n: nat, keep: Path -> bool)
    requires n <= |s| && forall i :: 0 <= i < n ==> keep(s[i])
    ensures FilterTo(s, n, keep) == s[..n]
  {
    if n > 0 {
      FilterAll(s, n - 1, keep);
      assert s[..n] == s[..n - 1] + [s[n - 1]];
    }
  }

  lemma FilterSame(t: seq<Path>, f: Path -> bool, g: Path -> bool)
    requires forall i :: 0 <= i < |t| ==> f(t[i]) == g(t[i])
    ensures Filter(t, f) == Filter(t, g)
  {
    FilterAgrees(t, |t|, f, g);
  }

  lemma PrefixBag(s: seq<Path>, n: nat)
    requires n < |s|
    ensures multiset(s[..n + 1]) == multiset(s[..n]) + multiset{s[n]}
  {
    assert s[..n + 1] == s[..n] + [s[n]];
  }

  ghost function WithKey(key: Key, best: int): Path -> bool { p => key(p) == best }

  // Nothing has a key below every key seen.
  lemma {:induction false} FilterBelow(s: seq<Path>, n: nat, key: Key, best: int)
    requires n <= |s| && forall i :: 0 <= i < n ==> best < key(s[i])
    ensures FilterTo(s, n, WithKey(key, best)) == []
  {
    if n > 0 { FilterBelow(s, n - 1, key, best); }
  }

  ghost predicate IsMinimal(p: Path, s: seq<Path>, key: Key) {
    forall i :: 0 <= i < |s| ==> key(p) <= key(s[i])
  }

  ghost function Least(s: seq<Path>, key: Key): Path -> bool { p => IsMinimal(p, s, key) }

  // The candidates with the smallest key, in the order they came.
  ghost function Minima(s: seq<Path>, key: Key): seq<Path> { Filter(s, Least(s, key)) }

  lemma MinimaAt(s: seq<Path>, key: Key, best: int, w: nat)
    requires w < |s| && key(s[w]) == best && IsMinimal(s[w], s, key)
    ensures Minima(s, key) == Filter(s, WithKey(key, best))
  {
    forall i | 0 <= i < |s| ensures Least(s, key)(s[i]) == WithKey(key, best)(s[i]) {
      if IsMinimal(s[i], s, key) { assert key(s[i]) <= key(s[w]); }
    }
    FilterAgrees(s, |s|, Least(s, key), WithKey(key, best));
  }

  // ---------- the stages as functions ----------

  datatype Reset = AsWritten | ToOne

  datatype Scan = Scan(slots: seq<Path>, kept: nat, best: int, removed: seq<Path>)

  // One round of the filter loop: slots[..kept] are kept, slots[i] is looked at.
  function ScanStep(st: Scan, i: nat, key: Key, reset: Reset): (r: Scan)
    requires st.kept <= i < |st.slots|
    ensures |r.slots| == |st.slots| && r.kept <= i + 1
  {
    var p := st.slots[i];
    if key(p) > st.best then
      st.(removed := st.removed + [p])
    else if key(p) < st.best then
      Scan(st.slots[0 := p], if reset.ToOne? then 1 else st.kept + 1, key(p), st.removed + st.slots[..st.kept])
    else
      st.(slots := st.slots[st.kept := p], kept := st.kept + 1)
  }

  function ScanFrom(st: Scan, i: nat, key: Key, reset: Reset): (r: Scan)
    requires st.kept <= i <= |st.slots|
    ensures |r.slots| == |st.slots| && r.kept <= |r.slots|
    decreases |st.slots| - i
  {
    if i == |st.slots| then st else ScanFrom(ScanStep(st, i, key, reset), i + 1, key, reset)
  }

  function ScanAll(s: seq<Path>, key: Key, limit: int, reset: Reset): Scan {
    ScanFrom(Scan(s, 0, limit, []), 0, key, reset)
  }

  // getRoutesWithHighestPref, -SmallestAS, -LowestOrigin, -LowestBGPId and -ShorterClusterLen: when no candidate
  // reaches the initial bound, nothing is kept and the slice comes back whole.
  function KeepBest(s: seq<Path>, key: Key, limit: int, reset: Reset): seq<Path> {
    var r := ScanAll(s, key, limit, reset);
    if r.kept > 0 then r.slots[..r.kept] else s
  }

  datatype Split = Split(kept: seq<Path>, removed: seq<Path>)

  datatype Sweep = Sweep(slots: seq<Path>, i: nat, last: nat, removed: seq<Path>)

  // deleteIBGPRoutes, one round: an internal candidate is overwritten by the last one.
  function SweepStep(st: Sweep): Sweep
    requires st.i < st.last <= |st.slots|
  {
    var p := st.slots[st.i];
    if p.IsInternal() then
      Sweep(st.slots[st.i := st.slots[st.last - 1]], st.i, st.last - 1, st.removed + [p])
    else
      st.(i := st.i + 1)
  }

  function SweepFrom(st: Sweep): (r: Sweep)
    requires st.i <= st.last <= |st.slots|
    ensures r.i == r.last <= |r.slots| == |st.slots|
    decreases st.last - st.i
  {
    if st.i < st.last then SweepFrom(SweepStep(st)) else st
  }

  function DropInternal(s: seq<Path>): Split {
    var r := SweepFrom(Sweep(s, 0, |s|, []));
    Split(r.slots[..r.i], r.removed)
  }

  // removeIBGPRoutesIfEBGPExist.
  function PreferExternal(s: seq<Path>): Split {
    if exists i :: 0 <= i < |s| && s[i].IsExternal() then DropInternal(s) else Split(s, [])
  }

  // One candidate p against the ones kept so far.
  function Contend(st: Split, p: Path): (r: Split)
    requires st.kept != []
    ensures r.kept != []
  {
    var c := CompareAddress(AddressOf(p), AddressOf(st.kept[0]));
    if c < 0 then Split([p], st.removed + st.kept)
    else if c == 0 then Split(st.kept + [p], st.removed)
    else Split(st.kept, st.removed + [p])
  }

  // getRoutesWithLowestPeerAddress: every candidate is compared with the one in slot 0.
  function LowestAddressTo(s: seq<Path>, n: nat): (r: Split)
    requires 0 < n <= |s|
    ensures r.kept != []
  {
    if n == 1 then Split([s[0]], []) else Contend(LowestAddressTo(s, n - 1), s[n - 1])
  }

  function LowestAddress(s: seq<Path>): (r: Split)
    ensures s != [] ==> r.kept != []
  {
    if s == [] then Split([], []) else LowestAddressTo(s, |s|)
  }

  // ---------- the filter loop keeps the minima ----------

  // What holds before slot i under either reading of the reset; w is a slot that held the best key.
  ghost predicate Base(s: seq<Path>, st: Scan, i: nat, key: Key, limit: int, w: nat) {
    && |st.slots| == |s| && st.kept <= i <= |s| && st.best <= limit
    && (forall k :: i <= k < |s| ==> st.slots[k] == s[k])
    && (forall k :: 0 <= k < i ==> st.best <= key(s[k]))
    && (st.kept == 0 ==> st.best == limit && st.slots == s && forall k :: 0 <= k < i ==> limit < key(s[k]))
    && (st.kept > 0 ==> w < i && key(s[w]) == st.best)
  }

  // The kept slots are the minima so far.
  ghost predicate Exact(s: seq<Path>, st: Scan, i: nat, key: Key)
    requires st.kept <= |st.slots| && i <= |s|
  {
    st.slots[..st.kept] == FilterTo(s, i, WithKey(key, st.best))
  }

  // Nothing is lost or doubled.
  ghost predicate Conserved(s: seq<Path>, st: Scan, i: nat)
    requires st.kept <= |st.slots| && i <= |s|
  {
    multiset(st.removed) + multiset(st.slots[..st.kept]) == multiset(s[..i])
  }

  lemma BaseStep(s: seq<Path>, st: Scan, i: nat, key: Key, limit: int, w: nat, reset: Reset) returns (w': nat)
    requires Base(s, st, i, key, limit, w) && i < |s|
    ensures Base(s, ScanStep(st, i, key, reset), i + 1, key, limit, w')
  {
    w' := if key(s[i]) < st.best || st.kept == 0 then i else w;
  }

  lemma ExactStep(s: seq<Path>, st: Scan, i: nat, key: Key, limit: int, w: nat)
    requires Base(s, st, i, key, limit, w) && i < |s| && Exact(s, st, i, key)
    ensures Exact(s, ScanStep(st, i, key, ToOne), i + 1, key)
  {
    var p := s[i];
    if key(p) == st.best {
      assert st.slots[st.kept := p][..st.kept + 1] == st.slots[..st.kept] + [p];
    } else if key(p) < st.best {
      FilterBelow(s, i, key, key(p));
      assert st.slots[0 := p][..1] == [p];
    }
  }

  lemma ConservedStep(s: seq<Path>, st: Scan, i: nat, key: Key)
    requires |st.slots| == |s| && st.kept <= i < |s| && st.slots[i] == s[i] && Conserved(s, st, i)
    ensures Conserved(s, ScanStep(st, i, key, ToOne), i + 1)
  {
    var p := s[i];
    var kept := st.slots[..st.kept];
    PrefixBag(s, i);
    if key(p) == st.best {
      assert st.slots[st.kept := p][..st.kept + 1] == kept + [p];
    } else if key(p) < st.best {
      assert st.slots[0 := p][..1] == [p];
    }
  }

  lemma {:induction false} ScanToOne(s: seq<Path>, st: Scan, i: nat, key: Key, limit: int, w: nat) returns (v: nat)
    requires Base(s, st, i, key, limit, w) && Exact(s, st, i, key)
    ensures var r := ScanFrom(st, i, key, ToOne); Base(s, r, |s|, key, limit, v) && Exact(s, r, |s|, key)
    decreases |s| - i
  {
    v := w;
    if i < |s| {
      v := BaseStep(s, st, i, key, limit, w, ToOne);
      ExactStep(s, st, i, key, limit, w);
      v := ScanToOne(s, ScanStep(st, i, key, ToOne), i + 1, key, limit, v);
    }
  }

  lemma {:induction false} ScanConserves(s: seq<Path>, st: Scan, i: nat, key: Key)
    requires |st.slots| == |s| && st.kept <= i <= |s| && Conserved(s, st, i)
    requires forall k :: i <= k < |s| ==> st.slots[k] == s[k]
    ensures Conserved(s, ScanFrom(st, i, key, ToOne), |s|)
    decreases |s| - i
  {
    if i < |s| {
      ConservedStep(s, st, i, key);
      ScanConserves(s, ScanStep(st, i, key, ToOne), i + 1, key);
    }
  }

  // With the index reset to 1, a stage keeps exactly the minima in their order and sets the rest aside, if and only if
  // some candidate reaches the stage's initial bound; otherwise it sets every candidate aside and also returns them all.
  lemma FilterStageExact(s: seq<Path>, key: Key, limit: int)
    requires s != []
    ensures var reached := exists i :: 0 <= i < |s| && key(s[i]) <= limit;
            && (reached ==> KeepBest(s, key, limit, ToOne) == Minima(s, key))
            && (!reached ==> KeepBest(s, key, limit, ToOne) == s)
            && (multiset(ScanAll(s, key, limit, ToOne).removed) + multiset(KeepBest(s, key, limit, ToOne)) == multiset(s)
                <==> reached)
  {
    var v := ScanToOne(s, Scan(s, 0, limit, []), 0, key, limit, 0);
    ScanConserves(s, Scan(s, 0, limit, []), 0, key);
    var r := ScanAll(s, key, limit, ToOne);
    assert s[..|s|] == s;
    if r.kept > 0 {
      MinimaAt(s, key, r.best, v);
      assert key(s[v]) <= limit;
    } else {
      assert |multiset(r.removed) + multiset(s)| == |multiset(r.removed)| + |multiset(s)|;
      assert r.slots[..0] == [];
    }
  }

  // A stage that a single candidate skips keeps the minima too.
  lemma StageIsFilter(t: seq<Path>, key: Key, limit: int)
    requires exists i :: 0 <= i < |t| && key(t[i]) <= limit
    ensures (if |t| > 1 then KeepBest(t, key, limit, ToOne) else t) == Filter(t, Least(t, key))
  {
    if |t| > 1 { FilterStageExact(t, key, limit); } else { FilterAll(t, |t|, Least(t, key)); }
  }

  // ---------- what the unreset index costs ----------

  ghost predicate FirstIsLowest(s: seq<Path>, key: Key) {
    forall i :: 0 <= i < |s| ==> key(s[0]) <= key(s[i])
  }

  // Without a better candidate later on, the two readings do the same.
  lemma {:induction false} ScanWithoutDrop(st: Scan, i: nat, key: Key)
    requires st.kept <= i <= |st.slots| && forall j :: i <= j < |st.slots| ==> st.best <= key(st.slots[j])
    ensures ScanFrom(st, i, key, AsWritten) == ScanFrom(st, i, key, ToOne)
    decreases |st.slots| - i
  {
    if i < |st.slots| {
      assert ScanStep(st, i, key, AsWritten) == ScanStep(st, i, key, ToOne);
      ScanWithoutDrop(ScanStep(st, i, key, ToOne), i + 1, key);
    }
  }

  // The index has run ahead of the number of minima so far.
  ghost predicate Ahead(s: seq<Path>, st: Scan, i: nat, key: Key)
    requires i <= |s|
  {
    st.kept > |FilterTo(s, i, WithKey(key, st.best))| && st.kept + |st.removed| > i
  }

  lemma AheadStep(s: seq<Path>, st: Scan, i: nat, key: Key, limit: int, w: nat)
    requires Base(s, st, i, key, limit, w) && i < |s| && Ahead(s, st, i, key)
    ensures Ahead(s, ScanStep(st, i, key, AsWritten), i + 1, key)
  {
    if key(s[i]) < st.best { FilterBelow(s, i, key, key(s[i])); }
  }

  lemma {:induction false} ScanAhead(s: seq<Path>, st: Scan, i: nat, key: Key, limit: int, w: nat) returns (v: nat)
    requires Base(s, st, i, key, limit, w) && Ahead(s, st, i, key)
    ensures var r := ScanFrom(st, i, key, AsWritten); Base(s, r, |s|, key, limit, v) && Ahead(s, r, |s|, key)
    decreases |s| - i
  {
    v := w;
    if i < |s| {
      v := BaseStep(s, st, i, key, limit, w, AsWritten);
      AheadStep(s, st, i, key, limit, w);
      v := ScanAhead(s, ScanStep(st, i, key, AsWritten), i + 1, key, limit, v);
    }
  }

  lemma DropRunsAhead(s: seq<Path>, st: Scan, i: nat, key: Key, limit: int, w: nat)
    requires Base(s, st, i, key, limit, w) && i < |s| && st.kept > 0 && st.kept + |st.removed| == i && key(s[i]) < st.best
    ensures Ahead(s, ScanStep(st, i, key, AsWritten), i + 1, key)
  {
    FilterBelow(s, i, key, key(s[i]));
  }

  // A later candidate that beats the first one makes the index run ahead.
  lemma {:induction false} ScanDrop(s: seq<Path>, st: Scan, i: nat, key: Key, limit: int, w: nat, j: nat) returns (v: nat)
    requires Base(s, st, i, key, limit, w) && st.kept > 0 && st.kept + |st.removed| == i
    requires i <= j < |s| && key(s[j]) < st.best
    ensures var r := ScanFrom(st, i, key, AsWritten); Base(s, r, |s|, key, limit, v) && Ahead(s, r, |s|, key)
    decreases |s| - i
  {
    v := BaseStep(s, st, i, key, limit, w, AsWritten);
    var next := ScanStep(st, i, key, AsWritten);
    if key(s[i]) < st.best {
      DropRunsAhead(s, st, i, key, limit, w);
      v := ScanAhead(s, next, i + 1, key, limit, v);
    } else {
      v := ScanDrop(s, next, i + 1, key, limit, v, j);
    }
  }

  // Slot 0 holds a minimum whichever way the line is read, and nothing foreign enters the slots.
  lemma {:induction false} ScanSlotZero(s: seq<Path>, st: Scan, i: nat, key: Key, limit: int, w: nat, reset: Reset)
    requires Base(s, st, i, key, limit, w) && (st.kept > 0 ==> key(st.slots[0]) == st.best)
    requires forall k :: 0 <= k < |s| ==> st.slots[k] in s
    ensures var r := ScanFrom(st, i, key, reset);
            && (r.kept > 0 ==> IsMinimal(r.slots[0], s, key))
            && forall k :: 0 <= k < |s| ==> r.slots[k] in s
    decreases |s| - i
  {
    if i < |s| {
      var v := BaseStep(s, st, i, key, limit, w, reset);
      ScanSlotZero(s, ScanStep(st, i, key, reset), i + 1, key, limit, v, reset);
    }
  }

  // A stage never empties the list and never adds a path to it.
  lemma KeepBestMembers(s: seq<Path>, key: Key, limit: int, reset: Reset)
    requires s != []
    ensures KeepBest(s, key, limit, reset) != []
    ensures forall k :: 0 <= k < |KeepBest(s, key, limit, reset)| ==> KeepBest(s, key, limit, reset)[k] in s
  {
    ScanSlotZero(s, Scan(s, 0, limit, []), 0, key, limit, 0, reset);
  }

  // One candidate that beats the first, and the stage keeps and sets aside more than it was given.
  lemma RunsAhead(s: seq<Path>, key: Key, limit: int, j: nat) returns (v: nat)
    requires j < |s| && key(s[j]) < key(s[0]) <= limit
    ensures var r := ScanAll(s, key, limit, AsWritten); Base(s, r, |s|, key, limit, v) && Ahead(s, r, |s|, key)
  {
    var st := Scan(s, 0, limit, []);
    var st1 := ScanStep(st, 0, key, AsWritten);
    v := BaseStep(s, st, 0, key, limit, 0, AsWritten);
    v := ScanDrop(s, st1, 1, key, limit, v, j);
  }

  // As written, a stage whose bound every candidate reaches keeps exactly the minima, and sets aside exactly the rest,
  // if and only if the first candidate is already one of them. Slot 0 of what it keeps is always a minimum.
  lemma UnresetStageExact(s: seq<Path>, key: Key, limit: int)
    requires s != [] && forall i :: 0 <= i < |s| ==> key(s[i]) <= limit
    ensures KeepBest(s, key, limit, AsWritten) == Minima(s, key) <==> FirstIsLowest(s, key)
    ensures multiset(ScanAll(s, key, limit, AsWritten).removed) + multiset(KeepBest(s, key, limit, AsWritten)) == multiset(s)
            <==> FirstIsLowest(s, key)
    ensures IsMinimal(KeepBest(s, key, limit, AsWritten)[0], s, key)
  {
    var st := Scan(s, 0, limit, []);
    var st1 := ScanStep(st, 0, key, AsWritten);
    assert st1 == ScanStep(st, 0, key, ToOne) && st1.kept == 1 && st1.best == key(s[0]);
    ScanSlotZero(s, st, 0, key, limit, 0, AsWritten);
    if FirstIsLowest(s, key) {
      ScanWithoutDrop(st1, 1, key);
      FilterStageExact(s, key, limit);
    } else {
      var j :| 0 <= j < |s| && key(s[j]) < key(s[0]);
      var v := RunsAhead(s, key, limit, j);
      var r := ScanAll(s, key, limit, AsWritten);
      MinimaAt(s, key, r.best, v);
      assert |multiset(r.removed) + multiset(r.slots[..r.kept])| == |r.removed| + r.kept;
    }
  }

  // ---------- nothing is lost ----------

  // A stage that sets `removed` aside and keeps `kept` accounts for its candidates if `ok`, and else returns more than
  // it was given.
  ghost predicate Accounts(s: seq<Path>, removed: seq<Path>, kept: seq<Path>, ok: bool) {
    if ok then multiset(removed) + multiset(kept) == multiset(s) else |removed| + |kept| > |s|
  }

  lemma SameBagSameSize(s: seq<Path>, removed: seq<Path>, kept: seq<Path>)
    requires multiset(removed) + multiset(kept) == multiset(s)
    ensures |removed| + |kept| == |s|
  {
    assert |multiset(removed) + multiset(kept)| == |removed| + |kept|;
  }

  lemma ChainAccounts(s: seq<Path>, r: seq<Path>, t: seq<Path>, ok: bool, r2: seq<Path>, u: seq<Path>, ok2: bool)
    requires Accounts(s, r, t, ok) && Accounts(t, r2, u, ok2)
    ensures Accounts(s, r + r2, u, ok && ok2)
  {
    if ok { SameBagSameSize(s, r, t); }
    if ok2 { SameBagSameSize(t, r2, u); }
  }

  lemma FilterStageAccounts(s: seq<Path>, key: Key, limit: int)
    requires s != []
    ensures Accounts(s, ScanAll(s, key, limit, ToOne).removed, KeepBest(s, key, limit, ToOne),
                     exists i :: 0 <= i < |s| && key(s[i]) <= limit)
  {
    FilterStageExact(s, key, limit);
    if !exists i :: 0 <= i < |s| && key(s[i]) <= limit { NothingReached(s, key, limit); }
  }

  lemma NothingReached(s: seq<Path>, key: Key, limit: int)
    requires forall i :: 0 <= i < |s| ==> key(s[i]) > limit
    ensures ScanAll(s, key, limit, ToOne).removed == s
  {
    AllSetAside(s, 0, key, limit);
    assert s[..0] == [];
  }

  lemma {:induction false} AllSetAside(s: seq<Path>, i: nat, key: Key, limit: int)
    requires i <= |s| && forall i :: 0 <= i < |s| ==> key(s[i]) > limit
    ensures ScanFrom(Scan(s, 0, limit, s[..i]), i, key, ToOne).removed == s
    decreases |s| - i
  {
    if i < |s| {
      assert s[..i + 1] == s[..i] + [s[i]];
      AllSetAside(s, i + 1, key, limit);
    } else {
      assert s[..i] == s;
    }
  }

  lemma UnresetStageAccounts(s: seq<Path>, key: Key, limit: int)
    requires s != [] && forall i :: 0 <= i < |s| ==> key(s[i]) <= limit
    ensures Accounts(s, ScanAll(s, key, limit, AsWritten).removed, KeepBest(s, key, limit, AsWritten), FirstIsLowest(s, key))
  {
    UnresetStageExact(s, key, limit);
    if !FirstIsLowest(s, key) {
      var j :| 0 <= j < |s| && key(s[j]) < key(s[0]);
      var v := RunsAhead(s, key, limit, j);
    }
  }

  // ---------- what a stage selects ----------

  // `out` holds exactly the members of `s` that `keep` accepts, as often as `s` does.
  ghost predicate Selects(out: seq<Path>, s: seq<Path>, keep: Path -> bool) {
    forall p :: multiset(out)[p] == if keep(p) then multiset(s)[p] else 0
  }

  lemma MinimaSelects(s: seq<Path>, key: Key)
    ensures Selects(Minima(s, key), s, Least(s, key))
  {
    assert s[..|s|] == s;
    forall p ensures multiset(Minima(s, key))[p] == if Least(s, key)(p) then multiset(s)[p] else 0 {
      FilterCounts(s, |s|, Least(s, key), p);
    }
  }

  // Nothing is lost or doubled.
  ghost predicate SweptBag(s: seq<Path>, st: Sweep) {
    st.last <= |st.slots| && multiset(st.slots[..st.last]) + multiset(st.removed) == multiset(s)
  }

  ghost predicate Swept(s: seq<Path>, st: Sweep) {
    && st.i <= st.last <= |st.slots| && SweptBag(s, st)
    && (forall k :: 0 <= k < st.i ==> !st.slots[k].IsInternal())
    && (forall k :: 0 <= k < |st.removed| ==> st.removed[k].IsInternal())
  }

  // Overwriting slot i by the last of the first n slots takes one occurrence away.
  lemma ReplaceByLast(slots: seq<Path>, i: nat, n: nat)
    requires i < n <= |slots|
    ensures multiset(slots[i := slots[n - 1]][..n - 1]) + multiset{slots[i]} == multiset(slots[..n])
  {
    var m := n - 1;
    PrefixBag(slots, m);
    if i < m {
      assert slots[i := slots[m]][..m] == slots[..m][i := slots[m]];
      assert multiset(slots[..m][i := slots[m]]) == multiset(slots[..m]) - multiset{slots[i]} + multiset{slots[m]};
    } else {
      assert slots[i := slots[m]][..m] == slots[..m];
    }
  }

  lemma SweepStepKeepsBag(s: seq<Path>, st: Sweep)
    requires SweptBag(s, st) && st.i < st.last
    ensures SweptBag(s, SweepStep(st))
  {
    if st.slots[st.i].IsInternal() { SweepBag(st.slots, st.removed, st.i, st.last); }
  }

  lemma SweepStepKeeps(s: seq<Path>, st: Sweep)
    requires Swept(s, st) && st.i < st.last
    ensures Swept(s, SweepStep(st))
  {
    hide SweptBag;
    SweepStepKeepsBag(s, st);
  }

  lemma SweepBag(slots: seq<Path>, removed: seq<Path>, i: nat, n: nat)
    requires i < n <= |slots|
    ensures multiset(slots[i := slots[n - 1]][..n - 1]) + multiset(removed + [slots[i]])
            == multiset(slots[..n]) + multiset(removed)
  {
    ReplaceByLast(slots, i, n);
    assert multiset(removed + [slots[i]]) == multiset(removed) + multiset{slots[i]};
  }

  lemma {:induction false} SweepKeeps(s: seq<Path>, st: Sweep)
    requires Swept(s, st)
    ensures Swept(s, SweepFrom(st))
    decreases st.last - st.i
  {
    if st.i < st.last {
      SweepStepKeeps(s, st);
      SweepKeeps(s, SweepStep(st));
    }
  }

  // Every external candidate is kept as often as it was given, and no internal one.
  lemma DropInternalCounts(s: seq<Path>, p: Path)
    ensures var r := DropInternal(s);
            && multiset(r.kept)[p] == (if p.IsInternal() then 0 else multiset(s)[p])
            && multiset(r.kept)[p] + multiset(r.removed)[p] == multiset(s)[p]
  {
    assert s[..|s|] == s;
    SweepKeeps(s, Sweep(s, 0, |s|, []));
    var r := DropInternal(s);
    if p in multiset(r.kept) { assert p in r.kept; }
    if p in multiset(r.removed) { assert p in r.removed; }
  }

  // With neighbours known, dropping internal candidates when an external one exists keeps the minima of InternalKey.
  lemma PreferExternalSelects(s: seq<Path>)
    requires forall i :: 0 <= i < |s| ==> s[i].neighbor.Some?
    ensures Selects(PreferExternal(s).kept, s, Least(s, InternalKey))
    ensures multiset(PreferExternal(s).removed) + multiset(PreferExternal(s).kept) == multiset(s)
  {
    forall p
      ensures multiset(PreferExternal(s).kept)[p] == if Least(s, InternalKey)(p) then multiset(s)[p] else 0
      ensures (multiset(PreferExternal(s).removed) + multiset(PreferExternal(s).kept))[p] == multiset(s)[p]
    {
      DropInternalCounts(s, p);
      if p in multiset(s) { assert p in s; }
    }
  }

  lemma PreferExternalMembers(s: seq<Path>)
    requires s != []
    ensures PreferExternal(s).kept != []
    ensures forall k :: 0 <= k < |PreferExternal(s).kept| ==> PreferExternal(s).kept[k] in s
  {
    var r := PreferExternal(s).kept;
    forall k | 0 <= k < |r| ensures r[k] in s {
      DropInternalCounts(s, r[k]);
      assert r[k] in multiset(r);
    }
    if i :| 0 <= i < |s| && s[i].IsExternal() {
      DropInternalCounts(s, s[i]);
      assert s[i] in multiset(s);
    }
  }

  // Every candidate comes from a neighbour whose address has `len` octets.
  ghost predicate AddressesOf(s: seq<Path>, len: nat) {
    forall i :: 0 <= i < |s| ==> s[i].neighbor.Some? && |s[i].neighbor.value.address| == len
  }

  // w is a minimum of the first n candidates, and the kept ones are those with its key.
  ghost predicate LeastSoFar(s: seq<Path>, n: nat, st: Split, w: nat, key: Key) {
    && w < n <= |s| && st.kept != [] && st.kept[0] == s[w]
    && st.kept == FilterTo(s, n, WithKey(key, key(s[w])))
    && forall i :: 0 <= i < n ==> key(s[w]) <= key(s[i])
  }

  lemma ContendStep(s: seq<Path>, n: nat, st: Split, w: nat, key: Key) returns (v: nat)
    requires LeastSoFar(s, n, st, w, key) && n < |s|
    requires var c := CompareAddress(AddressOf(s[n]), AddressOf(s[w]));
             (c < 0 <==> key(s[n]) < key(s[w])) && (c > 0 <==> key(s[n]) > key(s[w]))
    ensures LeastSoFar(s, n + 1, Contend(st, s[n]), v, key)
  {
    if key(s[n]) < key(s[w]) {
      FilterBelow(s, n, key, key(s[n]));
      v := n;
    } else {
      v := w;
    }
  }

  lemma {:induction false} LowestAddressIsLeast(s: seq<Path>, n: nat, len: nat) returns (w: nat)
    requires AddressesOf(s, len) && 0 < n <= |s|
    ensures LeastSoFar(s, n, LowestAddressTo(s, n), w, AddressKey)
  {
    if n == 1 {
      w := 0;
      assert FilterTo(s, 0, WithKey(AddressKey, AddressKey(s[0]))) == [];
    } else {
      w := LowestAddressIsLeast(s, n - 1, len);
      CompareAddressIsNumeric(AddressOf(s[n - 1]), AddressOf(s[w]));
      w := ContendStep(s, n - 1, LowestAddressTo(s, n - 1), w, AddressKey);
    }
  }

  lemma LowestAddressSelects(s: seq<Path>, len: nat)
    requires AddressesOf(s, len)
    ensures Selects(LowestAddress(s).kept, s, Least(s, AddressKey))
  {
    if s != [] {
      var w := LowestAddressIsLeast(s, |s|, len);
      MinimaAt(s, AddressKey, AddressKey(s[w]), w);
      MinimaSelects(s, AddressKey);
    }
  }

  lemma ContendConserves(st: Split, p: Path)
    requires st.kept != []
    ensures var r := Contend(st, p);
            multiset(r.removed) + multiset(r.kept) == multiset(st.removed) + multiset(st.kept) + multiset{p}
  {
  }

  // Whatever the addresses, the last stage conserves its candidates.
  lemma {:induction false} LowestAddressConserves(s: seq<Path>, n: nat)
    requires 0 < n <= |s|
    ensures var r := LowestAddressTo(s, n); multiset(r.removed) + multiset(r.kept) == multiset(s[..n])
  {
    if n > 1 {
      LowestAddressConserves(s, n - 1);
      ContendConserves(LowestAddressTo(s, n - 1), s[n - 1]);
      PrefixBag(s, n - 1);
    }
  }

  lemma LowestAddressMembers(s: seq<Path>)
    ensures forall k :: 0 <= k < |LowestAddress(s).kept| ==> LowestAddress(s).kept[k] in s
  {
    if s != [] {
      LowestAddressConserves(s, |s|);
      assert s[..|s|] == s;
      var r := LowestAddress(s);
      forall k | 0 <= k < |r.kept| ensures r.kept[k] in s {
        assert r.kept[k] in multiset(r.removed) + multiset(r.kept);
      }
    }
  }

  // ---------- the stages in place ----------

  method FilterInPlace(a: array<Path>, n: nat, key: Key, limit: int, reset: Reset) returns (m: nat, removed: seq<Path>)
    requires n <= a.Length
    modifies a
    ensures m <= n && a[..m] == KeepBest(old(a[..n]), key, limit, reset)
    ensures removed == ScanAll(old(a[..n]), key, limit, reset).removed
  {
    var best, idx, i := limit, 0, 0;
    removed := [];
    ghost var st := Scan(a[..n], 0, limit, []);
    while i < n
      invariant idx <= i <= n
      invariant st == Scan(a[..n], idx, best, removed)
      invariant ScanFrom(st, i, key, reset) == ScanAll(old(a[..n]), key, limit, reset)
      invariant idx == 0 ==> a[..n] == old(a[..n])
    {
      var p := a[i];
      ghost var slots := a[..n];
      assert p == slots[i];
      st := ScanStep(st, i, key, reset);
      if key(p) > best {
        removed := removed + [p];
      } else if key(p) < best {
        assert slots[..idx] == a[..idx];
        removed := removed + a[..idx];
        best := key(p);
        a[0] := p;
        idx := if reset.ToOne? then 1 else idx + 1;
        assert a[..n] == slots[0 := p];
      } else {
        a[idx] := p;
        assert a[..n] == slots[idx := p];
        idx := idx + 1;
      }
      i := i + 1;
    }
    m := if idx > 0 then idx else n;
    assert a[..n][..m] == a[..m];
  }

  // The source reads the neighbour of every candidate without a nil check.
  method DropInternalInPlace(a: array<Path>, n: nat) returns (m: nat, removed: seq<Path>)
    requires n <= a.Length && forall i :: 0 <= i < n ==> a[i].neighbor.Some?
    modifies a
    ensures m <= n && Split(a[..m], removed) == DropInternal(old(a[..n]))
  {
    var i, last := 0, n;
    removed := [];
    ghost var st := Sweep(a[..n], 0, n, []);
    while i < last
      invariant i <= last <= n && st == Sweep(a[..n], i, last, removed)
      invariant SweepFrom(st) == SweepFrom(Sweep(old(a[..n]), 0, n, []))
      decreases last - i
    {
      var p := a[i];
      assert p == st.slots[i] && a[last - 1] == st.slots[last - 1];
      st := SweepStep(st);
      if p.IsInternal() {
        removed := removed + [p];
        a[i] := a[last - 1];
        last := last - 1;
        assert a[..n] == st.slots;
      } else {
        i := i + 1;
      }
    }
    m := i;
    assert a[..n][..i] == a[..i];
  }

  method LowestAddressInPlace(a: array<Path>, n: nat) returns (m: nat, removed: seq<Path>)
    requires n <= a.Length && forall i :: 0 <= i < n ==> a[i].neighbor.Some?
    modifies a
    ensures m <= n && Split(a[..m], removed) == LowestAddress(old(a[..n]))
  {
    hide CompareAddress, AddressOf;
    removed := [];
    if n == 0 { return 0, []; }
    ghost var s := a[..n];
    // the source's first round compares slot 0 with itself and keeps it
    var idx, i := 1, 1;
    ghost var st := LowestAddressTo(s, 1);
    while i < n
      invariant 0 < idx <= i <= n
      invariant forall k :: i <= k < n ==> a[k] == s[k]
      invariant st == LowestAddressTo(s, i)
      invariant a[..idx] == st.kept && removed == st.removed
    {
      assert a[0] == st.kept[0] && a[i] == s[i];
      var c := CompareAddress(AddressOf(a[i]), AddressOf(a[0]));
      st := Contend(st, a[i]);
      if c > 0 {
        removed := removed + [a[i]];
      } else if c < 0 {
        removed := removed + a[..idx];
        a[0] := a[i];
        idx := 1;
      } else {
        a[idx] := a[i];
        idx := idx + 1;
      }
      i := i + 1;
    }
    m := idx;
  }
}
