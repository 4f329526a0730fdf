/** The orders in which one selection visits its candidates (bgp/rib/destination.go:463-503), and what line 743 costs in
  * these: the path chosen before comes first while its source is still the best one, and the paths of one peer come one
  * after another. Module CascadeOrder speaks of any order at all.
  */
module VisitOrder {
  import opened Paths
  import opened Stages
  import opened Cascade
  import opened CascadeOrder

  type PeerOf = Path -> string

  // The paths of one peer stand together.
  ghost predicate Contiguous(t: seq<Path>, peer: PeerOf) {
    forall i, j, k :: 0 <= i < j < k < |t| && peer(t[i]) == peer(t[k]) ==> peer(t[j]) == peer(t[i])
  }

  ghost predicate Distinct(t: seq<Path>) { forall i, j :: 0 <= i < j < |t| ==> t[i] != t[j] }

  // An order of the candidates s that a selection may meet; `head` holds the path chosen before, if it is one of them.
  ghost predicate Visit(t: seq<Path>, s: seq<Path>, head: seq<Path>, peer: PeerOf) {
    SameBag(s, t) && |head| <= 1 && head <= t && Contiguous(t[|head|..], peer)
  }

  // ---------- what the unreset stage can leave ----------

  // A laggard behind another one, with no path of the best key before it.
  ghost predicate Early(a: seq<Path>, x: Path, key: Key) {
    exists k :: 1 <= k < |a| && a[k] == x && forall h :: 0 <= h <= k ==> !IsMinimal(a[h], a, key)
  }

  ghost predicate LeavesEarly(a: seq<Path>, st: Scan, key: Key) {
    && st.kept <= |st.slots| == |a|
    && (forall j :: 1 <= j < |a| && st.kept <= j ==> st.slots[j] == a[j])
    && forall j :: 1 <= j < st.kept ==> IsMinimal(st.slots[j], a, key) || Early(a, st.slots[j], key)
  }

  lemma AboveIsNotMinimal(a: seq<Path>, k: nat, i: nat, key: Key, best: int)
    requires k < |a| && i < |a| && key(a[i]) < best && forall h :: 0 <= h <= k ==> best <= key(a[h])
    ensures forall h :: 0 <= h <= k ==> !IsMinimal(a[h], a, key)
  {
  }

  lemma LeavesEarlyStep(a: seq<Path>, st: Scan, i: nat, key: Key, limit: int, w: nat)
    requires Base(a, st, i, key, limit, w) && i < |a| && LeavesEarly(a, st, key)
    ensures LeavesEarly(a, ScanStep(st, i, key, AsWritten), key)
  {
    hide IsMinimal, Early;
    var p, next := a[i], ScanStep(st, i, key, AsWritten);
    assert st.slots[i] == p;
    if key(p) == st.best && st.kept > 0 {
      EarlyOrMinimal(a, i, i, key);
    } else if key(p) < st.best && st.kept > 0 {
      if st.kept < i { EarlyBefore(a, st.kept, i, key, st.best); } else { EarlyOrMinimal(a, i, i, key); }
    }
  }

  lemma EarlyOrMinimal(a: seq<Path>, i: nat, k: nat, key: Key)
    requires 1 <= i < |a| && k == i && forall h :: 0 <= h < i ==> key(a[i]) <= key(a[h])
    ensures IsMinimal(a[i], a, key) || Early(a, a[i], key)
  {
    if !IsMinimal(a[i], a, key) {
      var j :| 0 <= j < |a| && key(a[j]) < key(a[i]);
      AboveIsNotMinimal(a, i, j, key, key(a[i]));
    }
  }

  lemma EarlyBefore(a: seq<Path>, k: nat, i: nat, key: Key, best: int)
    requires 1 <= k < i < |a| && key(a[i]) < best && forall h :: 0 <= h < i ==> best <= key(a[h])
    ensures Early(a, a[k], key)
  {
    AboveIsNotMinimal(a, k, i, key, best);
  }

  lemma {:induction false} ScanLeavesEarly(a: seq<Path>, st: Scan, i: nat, key: Key, limit: int, w: nat)
    requires Base(a, st, i, key, limit, w) && LeavesEarly(a, st, key)
    ensures LeavesEarly(a, ScanFrom(st, i, key, AsWritten), key)
    decreases |a| - i
  {
    assert st.kept <= i <= |st.slots| == |a|;
    if i < |a| {
      Unfolds(st, i, key);
      hide Base, LeavesEarly, ScanStep, ScanFrom, Early, IsMinimal;
      var v := BaseStep(a, st, i, key, limit, w, AsWritten);
      LeavesEarlyStep(a, st, i, key, limit, w);
      ScanLeavesEarly(a, ScanStep(st, i, key, AsWritten), i + 1, key, limit, v);
    } else {
      hide Base, LeavesEarly, ScanStep;
      assert ScanFrom(st, i, key, AsWritten) == st;
    }
  }

  // Whatever the stage leaves has the best key, or stood behind another laggard and before all of the best key.
  lemma KeptIsEarly(a: seq<Path>, key: Key, limit: int, x: Path)
    requires a != [] && (forall i :: 0 <= i < |a| ==> key(a[i]) <= limit) && x in KeepBest(a, key, limit, AsWritten)
    ensures IsMinimal(x, a, key) || Early(a, x, key)
  {
    hide Early, IsMinimal;
    var r := ScanAll(a, key, limit, AsWritten);
    ScanLeavesEarly(a, Scan(a, 0, limit, []), 0, key, limit, 0);
    UnresetStageExact(a, key, limit);
    var v := ScanKeepsMinima(a, Scan(a, 0, limit, []), 0, key, limit, 0);
    assert key(a[0]) <= limit;
    var j :| 0 <= j < |KeepBest(a, key, limit, AsWritten)| && KeepBest(a, key, limit, AsWritten)[j] == x;
    assert r.kept > 0 ==> x == r.slots[j];
  }

  // ---------- the order of what the origin stage is given ----------

  ghost function InAs(s: seq<Path>): Path -> bool { p => p in AfterAs(s) }

  // In every order the origin stage is given the same candidates, in the order they came.
  lemma AfterAsIsFilter(s: seq<Path>, t: seq<Path>, len: nat)
    requires Comparable(s, len) && SameBag(s, t)
    ensures AfterAs(t) == Filter(t, InAs(s))
  {
    hide KeepBest, Filter;
    SameAfterAs(s, t, len);
    var f, g := Least(t, PrefKey), Least(AfterPref(t), AsKey);
    assert PrefKey(t[0]) <= 0;
    StageIsFilter(t, PrefKey, 0);
    StageIsFilter(AfterPref(t), AsKey, AS_LIMIT);
    FilterFilter(t, f, g);
    PrefSelects(t);
    AsSelects(t);
    forall i | 0 <= i < |t| ensures Both(f, g)(t[i]) == InAs(s)(t[i]) {
      SameMembers(AfterAs(s), AfterAs(t), t[i]);
      assert t[i] in AfterAs(t) <==> t[i] in multiset(AfterAs(t));
      assert t[i] in multiset(t);
    }
    assert Filter(t, Both(f, g)) == Filter(t, InAs(s)) by { FilterSame(t, Both(f, g), InAs(s)); }
  }

  lemma {:induction false} FilterPlace(t: seq<Path>, keep: Path -> bool, i: nat) returns (k: nat)
    requires i < |Filter(t, keep)|
    ensures k < |t| && t[k] == Filter(t, keep)[i] && keep(t[k])
  {
    var v, x := t[..|t| - 1], t[|t| - 1];
    assert t == v + [x];
    FilterAppend(v, x, keep);
    if i < |Filter(v, keep)| { k := FilterPlace(v, keep, i); } else { k := |t| - 1; }
  }

  lemma {:induction false} FilterPlaces(t: seq<Path>, keep: Path -> bool, i: nat, j: nat) returns (k: nat, l: nat)
    requires i < j < |Filter(t, keep)|
    ensures k < l < |t| && t[k] == Filter(t, keep)[i] && t[l] == Filter(t, keep)[j]
  {
    var v, x := t[..|t| - 1], t[|t| - 1];
    assert t == v + [x];
    FilterAppend(v, x, keep);
    if j < |Filter(v, keep)| {
      k, l := FilterPlaces(v, keep, i, j);
    } else {
      k := FilterPlace(v, keep, i);
      l := |t| - 1;
    }
  }

  lemma {:induction false} FilterContiguous(t: seq<Path>, keep: Path -> bool, peer: PeerOf)
    requires Contiguous(t, peer)
    ensures Contiguous(Filter(t, keep), peer)
  {
    if t != [] {
      var v, x := t[..|t| - 1], t[|t| - 1];
      assert t == v + [x];
      FilterAppend(v, x, keep);
      FilterContiguous(v, keep, peer);
      var a := Filter(v, keep);
      forall i, j | 0 <= i < j < |a| && peer(a[i]) == peer(x) ensures peer(a[j]) == peer(a[i]) {
        var k, l := FilterPlaces(v, keep, i, j);
        assert peer(t[k]) == peer(t[|t| - 1]);
      }
    }
  }

  // Behind the head, the paths of one peer stand together among those the origin stage is given.
  lemma VisitAfterAs(t: seq<Path>, s: seq<Path>, head: seq<Path>, peer: PeerOf, len: nat)
    requires Comparable(s, len) && Visit(t, s, head, peer)
    ensures var a := AfterAs(t); var n := if head != [] && head[0] in AfterAs(s) then 1 else 0;
            n <= |a| && (n == 1 ==> a[0] == head[0]) && Contiguous(a[n..], peer)
            && a[n..] == Filter(t[|head|..], InAs(s))
  {
    var tail := t[|head|..];
    AfterAsIsFilter(s, t, len);
    FilterContiguous(tail, InAs(s), peer);
    hide Filter, AfterAs, Comparable, Contiguous, SameBag, InAs;
    if head == [] {
      assert tail == t && AfterAs(t)[0..] == AfterAs(t);
    } else {
      assert t == [head[0]] + tail;
      InAsMeans(s, head[0]);
      FilterBehind(head[0], tail, InAs(s));
    }
  }

  lemma FilterBehind(c: Path, tail: seq<Path>, keep: Path -> bool)
    ensures Filter([c] + tail, keep) == (if keep(c) then [c] else []) + Filter(tail, keep)
  {
    hide Filter;
    assert [c] == [] + [c];
    FilterConcat([c], tail, keep);
    FilterAppend([], c, keep);
    FilterNothing(keep);
  }

  lemma FilterNothing(keep: Path -> bool)
    ensures Filter([], keep) == []
  {
  }

  // ---------- when the visits do no harm ----------

  // The laggard x can come after the laggard y and before all of the lowest origin: y is of the same peer, or of one that
  // has no candidate of the lowest origin left.
  ghost predicate CanTrail(x: Path, y: Path, bag: multiset<Path>, peer: PeerOf) {
    peer(x) == peer(y) || forall r :: r in bag && peer(r) == peer(y) ==> Lags(r, bag)
  }

  // Of the candidates the AS stage leaves: when the path chosen before is among them, it does not lag or all other
  // laggards lose in the later stages to one of the lowest origin; otherwise each laggard does that can come after another.
  ghost predicate VisitsHarmless(s: seq<Path>, head: seq<Path>, peer: PeerOf) {
    var bag := multiset(AfterAs(s));
    if head != [] && head[0] in bag then
      Lags(head[0], bag) ==> forall x :: x in bag && Lags(x, bag) && x != head[0] ==> BeatenLate(x, bag)
    else
      forall x, y :: x in bag && y in bag && x != y && Lags(x, bag) && Lags(y, bag) && CanTrail(x, y, bag, peer) ==>
        BeatenLate(x, bag)
  }

  lemma OnceEach(s: seq<Path>, p: Path)
    requires Distinct(s)
    ensures multiset(s)[p] <= 1
  {
    if p in s {
      var i :| 0 <= i < |s| && s[i] == p;
      assert s == s[..i] + [p] + s[i + 1..];
      assert p !in s[..i] && p !in s[i + 1..];
    }
  }

  lemma FirstIsAnother(t: seq<Path>, s: seq<Path>, len: nat, k: nat)
    requires Comparable(s, len) && Distinct(s) && SameBag(s, t) && 1 <= k < |AfterAs(t)|
    ensures AfterAs(t)[0] != AfterAs(t)[k]
  {
    hide Comparable, AfterAs, Distinct;
    SameAfterAs(s, t, len);
    var a := AfterAs(t);
    AfterAsAgree(t, len, a[0], a[0]);
    OnceEach(s, a[0]);
    if a[0] == a[k] { TwicePresent(a, 0, k); }
  }

  lemma EarlyCanTrail(a: seq<Path>, peer: PeerOf, k: nat)
    requires Contiguous(a, peer) && 1 <= k < |a| && forall h :: 0 <= h <= k ==> !IsMinimal(a[h], a, OriginKey)
    ensures CanTrail(a[k], a[0], multiset(a), peer)
  {
    hide IsMinimal, Lags;
    forall r | peer(a[k]) != peer(a[0]) && r in multiset(a) && peer(r) == peer(a[0]) ensures Lags(r, multiset(a)) {
      assert r in a;
      var m :| 0 <= m < |a| && a[m] == r;
      MinimalDoesNotLag(a, r);
      if m > k { assert peer(a[0]) == peer(a[m]); }
    }
  }

  lemma VisitLaggard(t: seq<Path>, s: seq<Path>, head: seq<Path>, peer: PeerOf, len: nat, x: Path)
    requires Comparable(s, len) && Distinct(s) && Visit(t, s, head, peer) && VisitsHarmless(s, head, peer)
    requires x in AfterOrigin(t, AsWritten) && Lags(x, multiset(AfterAs(t)))
    ensures BeatenLate(x, multiset(AfterAs(t)))
  {
    hide Comparable, AfterAs, Distinct, KeepBest, Lags, BeatenLate, CanTrail, IsMinimal;
    SameAfterAs(s, t, len);
    var a := AfterAs(t);
    assert |a| > 1 by { if |a| <= 1 { AloneDoesNotLag(a, x); } }
    KeptIsEarly(a, OriginKey, ORIGIN_LIMIT, x);
    MinimalDoesNotLag(a, x);
    var k :| 1 <= k < |a| && a[k] == x && forall h :: 0 <= h <= k ==> !IsMinimal(a[h], a, OriginKey);
    var y := a[0];
    MinimalDoesNotLag(a, y);
    FirstIsAnother(t, s, len, k);
    VisitAfterAs(t, s, head, peer, len);
    assert x in multiset(a) && y in multiset(a);
    SameMembersHead(head, s, t);
    if !(head != [] && head[0] in AfterAs(s)) {
      assert a[0..] == a;
      EarlyCanTrail(a, peer, k);
    }
  }

  lemma SameMembersHead(head: seq<Path>, s: seq<Path>, t: seq<Path>)
    ensures head != [] ==> (head[0] in AfterAs(s) <==> head[0] in multiset(AfterAs(s)))
  {
  }

  lemma AloneDoesNotLag(a: seq<Path>, x: Path)
    requires |a| <= 1 && x in a
    ensures !Lags(x, multiset(a))
  {
    forall q | q in multiset(a) ensures q == x { assert q in a; }
  }

  // Then in every visit the survivors are exactly the unbeaten candidates.
  lemma VisitIsRight(t: seq<Path>, s: seq<Path>, head: seq<Path>, peer: PeerOf, len: nat, p: Path)
    requires Comparable(s, len) && Distinct(s) && Visit(t, s, head, peer) && VisitsHarmless(s, head, peer)
    ensures p in Survivors(t, AsWritten) <==> p in s && Unbeaten(CASCADE_KEYS, p, s)
  {
    hide Comparable, AfterAs, Distinct, Lags, BeatenLate, VisitsHarmless, Survivors, AfterOrigin, Unbeaten;
    SameAfterAs(s, t, len);
    forall x | x in AfterOrigin(t, AsWritten) && Lags(x, multiset(AfterAs(t))) ensures BeatenLate(x, multiset(AfterAs(t))) {
      VisitLaggard(t, s, head, peer, len, x);
    }
    SameMembers(s, t, p);
    SameUnbeaten(s, t, p, CASCADE_KEYS);
    LoseIsRight(t, len, p);
  }

  // ---------- visits to order ----------

  // The start of a contiguous order: of its peers only the last one may have paths still to come.
  ghost predicate Open(front: seq<Path>, bag: multiset<Path>, peer: PeerOf) {
    && Contiguous(front, peer)
    && forall p, i :: p in bag && 0 <= i < |front| && peer(front[i]) == peer(p) ==> peer(p) == peer(front[|front| - 1])
  }

  lemma OpenMore(front: seq<Path>, bag: multiset<Path>, peer: PeerOf, p: Path)
    requires Open(front, bag, peer) && p in bag
    requires front == [] || peer(p) == peer(front[|front| - 1]) ||
             forall q :: q in bag ==> peer(q) != peer(front[|front| - 1])
    ensures Open(front + [p], bag - multiset{p}, peer)
  {
    var next := front + [p];
    forall i, j, k | 0 <= i < j < k < |next| && peer(next[i]) == peer(next[k]) ensures peer(next[j]) == peer(next[i]) {
      if k == |front| {
        assert peer(next[k]) == peer(front[|front| - 1]);
        if j < |front| - 1 { assert peer(front[i]) == peer(front[|front| - 1]); }
      }
    }
  }

  lemma {:induction false} Complete(front: seq<Path>, bag: multiset<Path>, peer: PeerOf) returns (u: seq<Path>)
    requires Open(front, bag, peer)
    ensures multiset(u) == bag && Contiguous(front + u, peer)
    decreases |bag|
  {
    if |bag| == 0 {
      u := [];
      assert front + u == front;
    } else {
      var p :| p in bag;
      if q :| q in bag && front != [] && peer(q) == peer(front[|front| - 1]) { p := q; }
      OpenMore(front, bag, peer, p);
      u := Complete(front + [p], bag - multiset{p}, peer);
      assert front + [p] + u == front + ([p] + u);
      u := [p] + u;
    }
  }

  lemma {:induction false} Highest(bag: multiset<Path>, x: Path, key: Key) returns (r: Path)
    requires x in bag
    ensures r in bag && forall q :: q in bag ==> key(q) <= key(r)
    decreases |bag|
  {
    var rest := bag - multiset{x};
    if |rest| == 0 {
      r := x;
    } else {
      var y :| y in rest;
      r := Highest(rest, y, key);
      if key(r) < key(x) { r := x; }
    }
    forall q | q in bag ensures key(q) <= key(r) { assert q == x || q in rest; }
  }

  ghost predicate Descends(u: seq<Path>, key: Key) { forall i, j :: 0 <= i < j < |u| ==> key(u[j]) <= key(u[i]) }

  lemma {:induction false} Descending(bag: multiset<Path>, key: Key) returns (u: seq<Path>)
    ensures multiset(u) == bag && Descends(u, key)
    decreases |bag|
  {
    if |bag| == 0 {
      u := [];
    } else {
      var x :| x in bag;
      var p := Highest(bag, x, key);
      var rest := Descending(bag - multiset{p}, key);
      forall i | 0 <= i < |rest| ensures key(rest[i]) <= key(p) { assert rest[i] in multiset(rest); }
      u := [p] + rest;
    }
  }

  lemma FilterDescends(u: seq<Path>, keep: Path -> bool, key: Key)
    requires Descends(u, key)
    ensures Descends(Filter(u, keep), key)
  {
    hide Filter;
    var f := Filter(u, keep);
    forall i, j | 0 <= i < j < |f| ensures key(f[j]) <= key(f[i]) { var k, l := FilterPlaces(u, keep, i, j); }
  }

  // The front of such a visit: the paths d of one peer, x and q of one peer, and r.
  lemma FrontContiguous(d: seq<Path>, x: Path, q: seq<Path>, r: Path, peer: PeerOf, dp: string)
    requires (forall i :: 0 <= i < |d| ==> peer(d[i]) == dp) && forall i :: 0 <= i < |q| ==> peer(q[i]) == peer(x)
    requires peer(r) == dp ==> peer(x) == dp
    ensures Contiguous(d + [x] + q + [r], peer)
  {
    var t := d + [x] + q + [r];
    forall i | 0 <= i < |t| ensures peer(t[i]) == if i < |d| then dp else if i < |t| - 1 then peer(x) else peer(r) {}
  }

  ghost function Front(d: seq<Path>, x: Path, q: seq<Path>, r: Path): seq<Path> { d + [x] + q + [r] }

  // The laggard x stays in a visit in which d, then x, then q, then r follow the head: the head and d descend in origin,
  // nothing in q is as low as these, and r is lower.
  ghost predicate Ambushes(s: seq<Path>, head: seq<Path>, d: seq<Path>, x: Path, q: seq<Path>, r: Path) {
    var p := Filter(head + d, InAs(s));
    && x in AfterAs(s) && r in AfterAs(s)
    && p != [] && Descends(p, OriginKey) && OriginKey(r) < OriginKey(p[|p| - 1])
    && forall i :: 0 <= i < |q| && q[i] in AfterAs(s) ==> OriginKey(p[|p| - 1]) < OriginKey(q[i])
  }

  lemma Ambush(s: seq<Path>, head: seq<Path>, peer: PeerOf, len: nat, d: seq<Path>, x: Path, q: seq<Path>, r: Path)
    returns (t: seq<Path>)
    requires Comparable(s, len) && |head| <= 1 && multiset(head + Front(d, x, q, r)) <= multiset(s)
    requires Open(Front(d, x, q, r), multiset(s) - multiset(head + Front(d, x, q, r)), peer)
    requires Ambushes(s, head, d, x, q, r)
    ensures Visit(t, s, head, peer) && x in AfterOrigin(t, AsWritten)
  {
    hide *;
    var front := Front(d, x, q, r);
    var rest := Complete(front, multiset(s) - multiset(head + front), peer);
    t := head + (front + rest);
    VisitFront(s, head, front, rest, peer);
    AfterAsIsFilter(s, t, len);
    AmbushFilter(s, head, d, x, q, r, rest);
    AfterOriginIs(t);
  }

  lemma AmbushFilter(s: seq<Path>, head: seq<Path>, d: seq<Path>, x: Path, q: seq<Path>, r: Path, rest: seq<Path>)
    requires Ambushes(s, head, d, x, q, r)
    ensures var a := Filter(head + (Front(d, x, q, r) + rest), InAs(s));
            |a| > 1 && x in KeepBest(a, OriginKey, ORIGIN_LIMIT, AsWritten)
  {
    hide KeepBest, Filter, AfterAs, InAs, Descends;
    var k := InAs(s);
    InAsMeans(s, x);
    InAsMeans(s, r);
    assert head + (Front(d, x, q, r) + rest) == (head + d) + [x] + q + [r] + rest;
    FilterFront(head + d, x, q, r, rest, k);
    var p, f := Filter(head + d, k), Filter(q, k);
    forall h | 0 <= h < |f| ensures OriginKey(p[|p| - 1]) < OriginKey(f[h]) {
      var i := FilterPlace(q, k, h);
      InAsMeans(s, q[i]);
    }
    Trails(p, x, f, r, Filter(rest, k));
  }

  lemma VisitFront(s: seq<Path>, head: seq<Path>, front: seq<Path>, rest: seq<Path>, peer: PeerOf)
    requires |head| <= 1 && multiset(head + front) <= multiset(s) && multiset(rest) == multiset(s) - multiset(head + front)
    requires Contiguous(front + rest, peer)
    ensures Visit(head + (front + rest), s, head, peer) && SameBag(s, head + (front + rest))
  {
    hide Contiguous;
    assert head + (front + rest) == head + front + rest;
    assert (head + (front + rest))[|head|..] == front + rest;
  }

  lemma FilterFront(p: seq<Path>, x: Path, q: seq<Path>, r: Path, rest: seq<Path>, k: Path -> bool)
    requires k(x) && k(r)
    ensures Filter(p + [x] + q + [r] + rest, k) == Filter(p, k) + [x] + Filter(q, k) + [r] + Filter(rest, k)
  {
    hide Filter;
    FilterAppend(p, x, k);
    FilterConcat(p + [x], q, k);
    FilterAppend(p + [x] + q, r, k);
    FilterConcat(p + [x] + q + [r], rest, k);
  }

  lemma Trails(p: seq<Path>, x: Path, f: seq<Path>, r: Path, rest: seq<Path>)
    requires p != [] && Descends(p, OriginKey)
    requires OriginKey(r) < OriginKey(p[|p| - 1])
    requires forall i :: 0 <= i < |f| ==> OriginKey(p[|p| - 1]) < OriginKey(f[i])
    ensures x in KeepBest(p + [x] + f + [r] + rest, OriginKey, ORIGIN_LIMIT, AsWritten)
  {
    hide KeepBest;
    var a := p + [x] + f + [r] + rest;
    var n, m := |p|, |p| + 1 + |f|;
    assert a[n] == x && a[m] == r && forall h :: n < h < m ==> a[h] == f[h - n - 1];
    TrailingStays(a, n, m, OriginKey, ORIGIN_LIMIT);
  }

  lemma AfterOriginIs(t: seq<Path>)
    ensures |AfterAs(t)| > 1 ==> AfterOrigin(t, AsWritten) == KeepBest(AfterAs(t), OriginKey, ORIGIN_LIMIT, AsWritten)
  {
  }

  lemma InAsMeans(s: seq<Path>, p: Path)
    ensures InAs(s)(p) <==> p in AfterAs(s)
  {
  }

  // ---------- who follows whom ----------

  ghost predicate HeadOf(head: seq<Path>, s: seq<Path>) { |head| <= 1 && (head != [] ==> head[0] in s) }

  // The parts of the front are apart.
  ghost predicate Apart(head: seq<Path>, inD: Path -> bool, x: Path, inQ: Path -> bool, r: Path) {
    && x != r && x !in head && r !in head
    && forall p :: inD(p) || inQ(p) ==> p != x && p != r && p !in head && !(inD(p) && inQ(p))
  }

  lemma FrontCounts(head: seq<Path>, d: seq<Path>, x: Path, q: seq<Path>, r: Path, p: Path)
    ensures multiset(head + Front(d, x, q, r))[p] ==
              multiset(head)[p] + multiset(d)[p] + multiset{x}[p] + multiset(q)[p] + multiset{r}[p]
  {
    assert head + Front(d, x, q, r) == head + d + [x] + q + [r];
  }

  lemma FrontFits(s: seq<Path>, head: seq<Path>, d: seq<Path>, x: Path, q: seq<Path>, r: Path, inD: Path -> bool,
    inQ: Path -> bool)
    requires HeadOf(head, s) && x in s && r in s && Apart(head, inD, x, inQ, r)
    requires multiset(d) == multiset(Filter(s, inD)) && q == Filter(s, inQ)
    ensures multiset(head + Front(d, x, q, r)) <= multiset(s)
  {
    hide Filter, Front;
    forall p ensures multiset(head + Front(d, x, q, r))[p] <= multiset(s)[p] {
      FrontFitsAt(s, head, d, x, q, r, inD, inQ, p);
    }
  }

  lemma FrontFitsAt(s: seq<Path>, head: seq<Path>, d: seq<Path>, x: Path, q: seq<Path>, r: Path, inD: Path -> bool,
    inQ: Path -> bool, p: Path)
    requires HeadOf(head, s) && x in s && r in s && Apart(head, inD, x, inQ, r)
    requires multiset(d) == multiset(Filter(s, inD)) && q == Filter(s, inQ)
    ensures multiset(head + Front(d, x, q, r))[p] <= multiset(s)[p]
  {
    hide Filter, Front;
    FrontCounts(head, d, x, q, r, p);
    FilterMembers(s, inD, p);
    FilterMembers(s, inQ, p);
    assert x in multiset(s) && r in multiset(s);
    HeadCount(head, s, p);
  }

  lemma HeadCount(head: seq<Path>, s: seq<Path>, p: Path)
    requires HeadOf(head, s)
    ensures multiset(head)[p] == if p in head then 1 else 0
    ensures p in head ==> p in multiset(s)
  {
    if head != [] { assert head == [head[0]] && head[0] in multiset(s); }
  }

  // Of one peer come those in d, of one peer x and those in q; the peer of d comes whole, and so does that of x unless r
  // is of the same.
  ghost predicate PeersFit(s: seq<Path>, head: seq<Path>, peer: PeerOf, inD: Path -> bool, x: Path, inQ: Path -> bool,
    r: Path, dp: string) {
    && (forall p :: p in s && inD(p) ==> peer(p) == dp) && (forall p :: p in s && inQ(p) ==> peer(p) == peer(x))
    && (dp == peer(x) || forall p :: p in s && peer(p) == dp ==> inD(p) || p in head)
    && (peer(r) == peer(x) || forall p :: p in s && peer(p) == peer(x) ==> p == x || inD(p) || inQ(p) || p in head)
  }

  lemma FrontOpen(s: seq<Path>, head: seq<Path>, peer: PeerOf, d: seq<Path>, x: Path, q: seq<Path>, r: Path,
    inD: Path -> bool, inQ: Path -> bool, dp: string)
    requires Distinct(s) && HeadOf(head, s) && x in s && r in s && Apart(head, inD, x, inQ, r)
    requires multiset(d) == multiset(Filter(s, inD)) && q == Filter(s, inQ)
    requires PeersFit(s, head, peer, inD, x, inQ, r, dp)
    ensures Open(Front(d, x, q, r), multiset(s) - multiset(head + Front(d, x, q, r)), peer)
  {
    hide Filter, Contiguous, Distinct, HeadOf, Front;
    forall i | 0 <= i < |d| ensures peer(d[i]) == dp {
      assert d[i] in multiset(d);
      FilterMembers(s, inD, d[i]);
      assert d[i] in multiset(s);
    }
    forall i | 0 <= i < |q| ensures peer(q[i]) == peer(x) { FilterMembers(s, inQ, q[i]); }
    var front := Front(d, x, q, r);
    FrontPeers(d, x, q, r, peer, dp);
    forall p | p in multiset(s) - multiset(head + front) ensures peer(p) != peer(r) ==> peer(p) != dp && peer(p) != peer(x) {
      NotInFront(s, head, d, x, q, r, inD, inQ, p);
    }
  }

  lemma FrontPeers(d: seq<Path>, x: Path, q: seq<Path>, r: Path, peer: PeerOf, dp: string)
    requires (forall i :: 0 <= i < |d| ==> peer(d[i]) == dp) && forall i :: 0 <= i < |q| ==> peer(q[i]) == peer(x)
    requires peer(r) == dp ==> peer(x) == dp
    ensures var front := Front(d, x, q, r);
            && Contiguous(front, peer) && front[|front| - 1] == r
            && forall i :: 0 <= i < |front| ==> peer(front[i]) in {dp, peer(x), peer(r)}
  {
    FrontContiguous(d, x, q, r, peer, dp);
  }

  lemma NotInFront(s: seq<Path>, head: seq<Path>, d: seq<Path>, x: Path, q: seq<Path>, r: Path, inD: Path -> bool,
    inQ: Path -> bool, p: Path)
    requires Distinct(s) && HeadOf(head, s) && x in s && r in s && Apart(head, inD, x, inQ, r)
    requires multiset(d) == multiset(Filter(s, inD)) && q == Filter(s, inQ)
    requires p in multiset(s) - multiset(head + Front(d, x, q, r))
    ensures p in s && p != x && p != r && !inD(p) && !inQ(p) && p !in head
  {
    hide Filter, Distinct;
    FrontCounts(head, d, x, q, r, p);
    OnceEach(s, p);
    FilterMembers(s, inD, p);
    FilterMembers(s, inQ, p);
    assert p in multiset(s);
    assert p in head ==> p in multiset(head);
  }

  // The head and those in d lag and descend; none in q is as low as these, and r is lower.
  ghost predicate OriginsFit(s: seq<Path>, head: seq<Path>, inD: Path -> bool, inQ: Path -> bool, r: Path) {
    var a := AfterAs(s);
    && (exists u :: u in a && (inD(u) || u in head))
    && (forall u :: u in a && (inD(u) || u in head) ==> OriginKey(r) < OriginKey(u))
    && (forall u, h :: u in a && h in a && inD(u) && h in head ==> OriginKey(u) <= OriginKey(h))
    && (forall u, p :: u in a && p in a && (inD(u) || u in head) && inQ(p) ==> OriginKey(u) < OriginKey(p))
  }

  lemma FrontAmbushes(s: seq<Path>, head: seq<Path>, d: seq<Path>, x: Path, q: seq<Path>, r: Path, inD: Path -> bool,
    inQ: Path -> bool, len: nat)
    requires Comparable(s, len) && HeadOf(head, s) && x in AfterAs(s) && r in AfterAs(s) && OriginsFit(s, head, inD, inQ, r)
    requires multiset(d) == multiset(Filter(s, inD)) && q == Filter(s, inQ) && Descends(d, OriginKey)
    ensures Ambushes(s, head, d, x, q, r)
  {
    hide Filter, AfterAs, Comparable, InAs;
    var k := InAs(s);
    var p := Filter(head + d, k);
    forall u ensures u in p <==> u in AfterAs(s) && (inD(u) || u in head) {
      FilterMembers(head + d, k, u);
      InAsMeans(s, u);
      FilterMembers(s, inD, u);
      assert u in d <==> u in multiset(d);
      assert u in Filter(s, inD) <==> u in multiset(Filter(s, inD));
      if u in AfterAs(s) { AfterAsAgree(s, len, u, u); }
    }
    assert Descends(p, OriginKey) by { FrontDescends(s, head, d, inD); }
    forall i | 0 <= i < |q| && q[i] in AfterAs(s) ensures OriginKey(p[|p| - 1]) < OriginKey(q[i]) {
      FilterMembers(s, inQ, q[i]);
    }
  }

  lemma FrontDescends(s: seq<Path>, head: seq<Path>, d: seq<Path>, inD: Path -> bool)
    requires HeadOf(head, s) && Descends(d, OriginKey) && multiset(d) == multiset(Filter(s, inD))
    requires forall u, h :: u in AfterAs(s) && h in AfterAs(s) && inD(u) && h in head ==> OriginKey(u) <= OriginKey(h)
    ensures Descends(Filter(head + d, InAs(s)), OriginKey)
  {
    hide Filter, AfterAs, InAs;
    var k := InAs(s);
    FilterConcat(head, d, k);
    FilterDescends(d, k, OriginKey);
    var f := Filter(d, k);
    if head != [] {
      assert head == [] + [head[0]];
      FilterAppend([], head[0], k);
      FilterNothing(k);
      InAsMeans(s, head[0]);
      forall i | 0 <= i < |f| && k(head[0]) ensures OriginKey(f[i]) <= OriginKey(head[0]) {
        var j := FilterPlace(d, k, i);
        InAsMeans(s, d[j]);
        assert d[j] in multiset(d);
        FilterMembers(s, inD, d[j]);
      }
    } else {
      FilterNothing(k);
    }
  }

  lemma AmbushBy(s: seq<Path>, head: seq<Path>, peer: PeerOf, len: nat, inD: Path -> bool, x: Path, inQ: Path -> bool,
    r: Path, dp: string) returns (t: seq<Path>)
    requires Comparable(s, len) && Distinct(s) && HeadOf(head, s) && x in AfterAs(s) && r in AfterAs(s)
    requires Apart(head, inD, x, inQ, r) && PeersFit(s, head, peer, inD, x, inQ, r, dp) && OriginsFit(s, head, inD, inQ, r)
    ensures Visit(t, s, head, peer) && x in AfterOrigin(t, AsWritten)
  {
    hide *;
    var d := Descending(multiset(Filter(s, inD)), OriginKey);
    var q := Filter(s, inQ);
    AfterAsAgree(s, len, x, x);
    AfterAsAgree(s, len, r, r);
    FrontFits(s, head, d, x, q, r, inD, inQ);
    FrontOpen(s, head, peer, d, x, q, r, inD, inQ, dp);
    FrontAmbushes(s, head, d, x, q, r, inD, inQ, len);
    HeadIsShort(head, s);
    t := Ambush(s, head, peer, len, d, x, q, r);
  }

  lemma HeadIsShort(head: seq<Path>, s: seq<Path>)
    requires HeadOf(head, s)
    ensures |head| <= 1
  {
  }

  // A path of the lowest origin, of the peer of x if that has one.
  ghost predicate Nearest(r: Path, x: Path, bag: multiset<Path>, peer: PeerOf) {
    && r in bag && !Lags(r, bag)
    && (peer(r) == peer(x) || forall u :: u in bag && peer(u) == peer(x) ==> Lags(u, bag))
  }

  lemma SomeNearest(bag: multiset<Path>, x: Path, peer: PeerOf) returns (r: Path)
    requires x in bag
    ensures Nearest(r, x, bag, peer)
  {
    hide Lags;
    if u :| u in bag && peer(u) == peer(x) && !Lags(u, bag) { r := u; } else { r := SomeLowest(bag, x); }
  }

  lemma LowestIsBelow(bag: multiset<Path>, r: Path, u: Path)
    requires r in bag && !Lags(r, bag) && u in bag && Lags(u, bag)
    ensures OriginKey(r) < OriginKey(u)
  {
    var q :| q in bag && OriginKey(q) < OriginKey(u);
  }

  // The other laggards of the peer of x that are no higher than the head, when it is among those left.
  ghost function OfThePeer(s: seq<Path>, head: seq<Path>, peer: PeerOf, x: Path): Path -> bool {
    p => peer(p) == peer(x) && p != x && p !in head && p in AfterAs(s) && Lags(p, multiset(AfterAs(s)))
         && forall h :: h in head && h in AfterAs(s) ==> OriginKey(p) <= OriginKey(h)
  }

  // The rest of that peer, when the path of the lowest origin to come is of another.
  ghost function Rest(head: seq<Path>, peer: PeerOf, x: Path, r: Path, inD: Path -> bool): Path -> bool {
    p => peer(r) != peer(x) && peer(p) == peer(x) && p != x && p !in head && !inD(p)
  }

  lemma BehindItsPeer(s: seq<Path>, head: seq<Path>, peer: PeerOf, len: nat, x: Path, r: Path) returns (t: seq<Path>)
    requires Comparable(s, len) && Distinct(s) && HeadOf(head, s) && x !in head
    requires x in AfterAs(s) && Lags(x, multiset(AfterAs(s))) && Nearest(r, x, multiset(AfterAs(s)), peer)
    requires forall h :: h in head && h in AfterAs(s) ==> Lags(h, multiset(AfterAs(s)))
    requires exists u :: u in AfterAs(s) && (u in head || OfThePeer(s, head, peer, x)(u))
    ensures Visit(t, s, head, peer) && x in AfterOrigin(t, AsWritten)
  {
    hide Comparable, Distinct, AfterAs, AfterOrigin, Lags, Visit, HeadOf;
    var bag := multiset(AfterAs(s));
    var inD := OfThePeer(s, head, peer, x);
    var inQ := Rest(head, peer, x, r, inD);
    assert r in AfterAs(s);
    forall u | u in AfterAs(s) && (inD(u) || u in head) ensures OriginKey(r) < OriginKey(u) {
      assert u in bag;
      LowestIsBelow(bag, r, u);
    }
    forall u, p | u in AfterAs(s) && p in AfterAs(s) && (inD(u) || u in head) && inQ(p)
      ensures OriginKey(u) < OriginKey(p)
    {
      assert p in bag && Lags(p, bag);
      var h :| h in head && h in AfterAs(s) && OriginKey(h) < OriginKey(p);
      OneHead(s, head, u, h);
    }
    t := AmbushBy(s, head, peer, len, inD, x, inQ, r, peer(x));
  }

  lemma OneHead(s: seq<Path>, head: seq<Path>, u: Path, h: Path)
    requires HeadOf(head, s) && h in head
    ensures u in head ==> u == h
  {
  }

  // Behind the paths of a peer that has none of the lowest origin.
  lemma BehindAnother(s: seq<Path>, head: seq<Path>, peer: PeerOf, len: nat, x: Path, y: Path, r: Path)
    returns (t: seq<Path>)
    requires Comparable(s, len) && Distinct(s) && HeadOf(head, s) && forall h :: h in head ==> h !in AfterAs(s)
    requires x in AfterAs(s) && Lags(x, multiset(AfterAs(s))) && Nearest(r, x, multiset(AfterAs(s)), peer)
    requires y in AfterAs(s) && peer(y) != peer(x) && CanTrail(x, y, multiset(AfterAs(s)), peer)
    requires forall u :: u in AfterAs(s) && u != x && peer(u) == peer(x) ==> !Lags(u, multiset(AfterAs(s)))
    ensures Visit(t, s, head, peer) && x in AfterOrigin(t, AsWritten)
  {
    hide Comparable, Distinct, AfterAs, AfterOrigin, Lags, Visit, HeadOf;
    var bag := multiset(AfterAs(s));
    var inD: Path -> bool := p => peer(p) == peer(y) && p !in head;
    var inQ := Rest(head, peer, x, r, inD);
    assert r in AfterAs(s) && y in bag;
    forall u | u in AfterAs(s) && (inD(u) || u in head) ensures OriginKey(r) < OriginKey(u) {
      assert u in bag;
      LowestIsBelow(bag, r, u);
    }
    forall p | p in AfterAs(s) ensures !inQ(p) { assert p in bag; }
    t := AmbushBy(s, head, peer, len, inD, x, inQ, r, peer(y));
  }

  // A laggard that can do harm, and a visit in which the origin stage leaves it.
  lemma HurtfulBehindHead(s: seq<Path>, head: seq<Path>, peer: PeerOf, len: nat) returns (t: seq<Path>, x: Path)
    requires Comparable(s, len) && Distinct(s) && HeadOf(head, s) && !VisitsHarmless(s, head, peer)
    requires head != [] && head[0] in multiset(AfterAs(s))
    ensures Visit(t, s, head, peer) && x in AfterOrigin(t, AsWritten) && x in AfterAs(s)
    ensures Lags(x, multiset(AfterAs(s))) && !BeatenLate(x, multiset(AfterAs(s)))
  {
    hide Comparable, Distinct, AfterAs, AfterOrigin, Lags, Visit, HeadOf, Nearest, BeatenLate;
    var bag := multiset(AfterAs(s));
    HeadIsShort(head, s);
    x :| x in bag && Lags(x, bag) && x != head[0] && !BeatenLate(x, bag);
    var r := SomeNearest(bag, x, peer);
    assert x in AfterAs(s) && head[0] in AfterAs(s);
    t := BehindItsPeer(s, head, peer, len, x, r);
  }

  lemma HurtfulBehindAnother(s: seq<Path>, head: seq<Path>, peer: PeerOf, len: nat) returns (t: seq<Path>, x: Path)
    requires Comparable(s, len) && Distinct(s) && HeadOf(head, s) && !VisitsHarmless(s, head, peer)
    requires !(head != [] && head[0] in multiset(AfterAs(s)))
    ensures Visit(t, s, head, peer) && x in AfterOrigin(t, AsWritten) && x in AfterAs(s)
    ensures Lags(x, multiset(AfterAs(s))) && !BeatenLate(x, multiset(AfterAs(s)))
  {
    hide Comparable, Distinct, AfterAs, AfterOrigin, Lags, Visit, HeadOf, Nearest, BeatenLate, CanTrail;
    var bag := multiset(AfterAs(s));
    SameMembersHead(head, s, s);
    HeadIsShort(head, s);
    var y;
    x, y :| x in bag && y in bag && x != y && Lags(x, bag) && Lags(y, bag) && CanTrail(x, y, bag, peer)
      && !BeatenLate(x, bag);
    var r := SomeNearest(bag, x, peer);
    assert x in AfterAs(s) && y in AfterAs(s) && forall h :: h in head ==> h !in AfterAs(s);
    if u :| u in AfterAs(s) && u != x && peer(u) == peer(x) && Lags(u, bag) {
      assert OfThePeer(s, head, peer, x)(u);
      t := BehindItsPeer(s, head, peer, len, x, r);
    } else {
      t := BehindAnother(s, head, peer, len, x, y, r);
    }
  }

  // Some visit makes a beaten path survive.
  lemma HurtfulVisit(s: seq<Path>, head: seq<Path>, peer: PeerOf, len: nat) returns (t: seq<Path>, w: Path)
    requires Comparable(s, len) && Distinct(s) && HeadOf(head, s) && !VisitsHarmless(s, head, peer)
    ensures Visit(t, s, head, peer)
    ensures w in Survivors(t, AsWritten) && w in AfterAs(s) && Lags(w, multiset(AfterAs(s)))
  {
    hide *;
    var x;
    if head != [] && head[0] in multiset(AfterAs(s)) {
      t, x := HurtfulBehindHead(s, head, peer, len);
    } else {
      t, x := HurtfulBehindAnother(s, head, peer, len);
    }
    VisitBag(t, s, head, peer);
    SameAfterAs(s, t, len);
    SameLaggards(s, t);
    w := WorstSurvivor(t, len, x);
    SameMembers(AfterAs(s), AfterAs(t), w);
  }

  lemma SameLaggards(s: seq<Path>, t: seq<Path>)
    requires SameBag(AfterAs(s), AfterAs(t))
    ensures multiset(AfterAs(s)) == multiset(AfterAs(t))
  {
  }

  lemma VisitBag(t: seq<Path>, s: seq<Path>, head: seq<Path>, peer: PeerOf)
    requires Visit(t, s, head, peer)
    ensures SameBag(s, t)
  {
  }

  // ---------- visits that do no harm ----------

  // A path of the lowest origin in slot 0 or 1 leaves no laggard.
  lemma LowestSoon(t: seq<Path>, len: nat, r: Path, c: Path)
    requires Comparable(t, len) && r in Lowest(t) && Leads(AfterAs(t), c, r)
    ensures LaggardsLose(t)
  {
    hide Comparable, AfterAs, KeepBest, Lags, IsMinimal, Lowest, Early;
    var a := AfterAs(t);
    LowestMeans(t, len, r);
    MinimalDoesNotLag(a, r);
    forall x | x in AfterOrigin(t, AsWritten) ensures !Lags(x, multiset(a)) {
      if |a| > 1 {
        KeptIsEarly(a, OriginKey, ORIGIN_LIMIT, x);
        MinimalDoesNotLag(a, x);
        NoneIsEarly(a, x, OriginKey, if a[0] == r then 0 else 1);
      } else {
        AloneDoesNotLag(a, x);
      }
    }
  }

  lemma NoneIsEarly(a: seq<Path>, x: Path, key: Key, i: nat)
    requires i <= 1 && i < |a| && IsMinimal(a[i], a, key)
    ensures !Early(a, x, key)
  {
  }

  // The path at the front of a visit, after the head.
  lemma VisitFrom(s: seq<Path>, head: seq<Path>, peer: PeerOf, r: Path) returns (t: seq<Path>)
    requires Distinct(s) && HeadOf(head, s) && r in s
    ensures Visit(t, s, head, peer)
    ensures if r in head then t[0] == r else |head| < |t| && t[|head|] == r
  {
    hide *;
    var front := if r in head then [] else [r];
    OneMoreFits(s, head, front, r);
    ShortIsOpen(front, multiset(s) - multiset(head + front), peer);
    var rest := Complete(front, multiset(s) - multiset(head + front), peer);
    t := head + (front + rest);
    HeadIsShort(head, s);
    VisitFront(s, head, front, rest, peer);
    FrontAt(head, front, rest, r);
  }

  lemma FrontAt(head: seq<Path>, front: seq<Path>, rest: seq<Path>, r: Path)
    requires |head| <= 1 && front == if r in head then [] else [r]
    ensures var t := head + (front + rest); if r in head then t[0] == r else |head| < |t| && t[|head|] == r
  {
  }

  lemma OneMoreFits(s: seq<Path>, head: seq<Path>, front: seq<Path>, r: Path)
    requires HeadOf(head, s) && r in s && front == if r in head then [] else [r]
    ensures multiset(head + front) <= multiset(s)
  {
    assert r in multiset(s);
    forall p ensures multiset(head + front)[p] <= multiset(s)[p] { HeadCount(head, s, p); }
  }

  lemma ShortIsOpen(front: seq<Path>, bag: multiset<Path>, peer: PeerOf)
    requires |front| <= 1
    ensures Open(front, bag, peer)
  {
  }

  lemma VisitLeads(t: seq<Path>, s: seq<Path>, head: seq<Path>, peer: PeerOf, len: nat, r: Path)
    requires Comparable(s, len) && HeadOf(head, s) && Visit(t, s, head, peer) && r in AfterAs(s)
    requires t != [] && if r in head then t[0] == r else |head| < |t| && t[|head|] == r
    ensures Leads(AfterAs(t), if head != [] then head[0] else r, r)
  {
    hide Comparable, AfterAs, Filter, InAs, Contiguous;
    var k := InAs(s);
    AfterAsIsFilter(s, t, len);
    InAsMeans(s, r);
    if r in head || head == [] {
      FilterFirst(t, k);
    } else {
      var u := t[1..];
      assert t == [head[0]] + u && u[0] == r;
      FilterConcat([head[0]], u, k);
      FilterFirst(u, k);
      assert [head[0]] == [] + [head[0]];
      FilterAppend([], head[0], k);
      FilterNothing(k);
    }
  }

  lemma FilterFirst(t: seq<Path>, keep: Path -> bool)
    requires t != [] && keep(t[0])
    ensures Filter(t, keep) != [] && Filter(t, keep)[0] == t[0]
  {
    FilterHead(t, |t|, 1, keep);
    assert FilterTo(t, |t|, keep)[0] == FilterTo(t, |t|, keep)[..1][0] == t[..1][0];
  }

  lemma GoodVisit(s: seq<Path>, head: seq<Path>, peer: PeerOf, len: nat, r: Path) returns (t: seq<Path>)
    requires Comparable(s, len) && Distinct(s) && HeadOf(head, s) && r in Lowest(s)
    ensures Visit(t, s, head, peer) && Comparable(t, len) && SameBag(s, t)
    ensures Leads(AfterAs(t), if head != [] then head[0] else r, r) && r in Lowest(t) && LaggardsLose(t)
    ensures OnlyUnbeatenSurvive(t, s)
  {
    hide Comparable, AfterAs, Lags, Lowest, LaggardsLose, Leads, Survivors, Unbeaten, Distinct;
    LowestMeans(s, len, r);
    AfterAsAgree(s, len, r, r);
    t := VisitFrom(s, head, peer, r);
    SameAfterAs(s, t, len);
    HaveAddresses(t, len);
    VisitLeads(t, s, head, peer, len, r);
    SameMembers(AfterAs(s), AfterAs(t), r);
    LowestMeans(t, len, r);
    LowestSoon(t, len, r, if head != [] then head[0] else r);
    forall p | p in Survivors(t, AsWritten) ensures Unbeaten(CASCADE_KEYS, p, s) {
      LoseIsRight(t, len, p);
      SameUnbeaten(s, t, p, CASCADE_KEYS);
    }
  }

  // ---------- what line 743 costs in the visits ----------

  // No beaten path survives any visit if and only if the visits are harmless.
  lemma NoBeatenPathSurvivesVisits(s: seq<Path>, head: seq<Path>, peer: PeerOf, len: nat)
    requires Comparable(s, len) && Distinct(s) && HeadOf(head, s)
    ensures (forall t :: Visit(t, s, head, peer) ==> OnlyUnbeatenSurvive(t, s)) <==> VisitsHarmless(s, head, peer)
  {
    hide Comparable, Distinct, HeadOf, VisitsHarmless, Visit, Survivors, AfterAs, Unbeaten, Lags;
    if VisitsHarmless(s, head, peer) {
      forall t, p | Visit(t, s, head, peer) && p in Survivors(t, AsWritten) ensures Unbeaten(CASCADE_KEYS, p, s) {
        VisitIsRight(t, s, head, peer, len, p);
      }
    } else {
      var t, w := HurtfulVisit(s, head, peer, len);
      LaggardIsBeaten(s, len, w);
      assert !OnlyUnbeatenSurvive(t, s);
    }
  }

  // And all visits leave the same survivors if and only if they are.
  lemma VisitsAgree(s: seq<Path>, head: seq<Path>, peer: PeerOf, len: nat)
    requires Comparable(s, len) && Distinct(s) && HeadOf(head, s)
    ensures (forall t, u :: Visit(t, s, head, peer) && Visit(u, s, head, peer) ==> SameSurvivors(t, u))
            <==> VisitsHarmless(s, head, peer)
  {
    hide Comparable, Distinct, HeadOf, VisitsHarmless, Visit, Survivors, AfterAs, Unbeaten, Lags, Lowest;
    if VisitsHarmless(s, head, peer) {
      forall t, u, p | Visit(t, s, head, peer) && Visit(u, s, head, peer)
        ensures p in Survivors(t, AsWritten) <==> p in Survivors(u, AsWritten)
      {
        VisitIsRight(t, s, head, peer, len, p);
        VisitIsRight(u, s, head, peer, len, p);
      }
    } else {
      var t, w := HurtfulVisit(s, head, peer, len);
      LaggardIsBeaten(s, len, w);
      LowestMeans(s, len, w);
      var u := GoodVisit(s, head, peer, len, Lowest(s)[0]);
      assert !SameSurvivors(t, u);
    }
  }

  // ---------- the path that is chosen ----------

  ghost predicate ChooseAlike(t: seq<Path>, u: seq<Path>) { t != [] && u != [] && First(t) == First(u) }

  // A path chosen before that no candidate beats is chosen again.
  lemma HeadStays(t: seq<Path>, s: seq<Path>, head: seq<Path>, peer: PeerOf, len: nat)
    requires Comparable(s, len) && HeadOf(head, s) && Visit(t, s, head, peer)
    requires head != [] && Unbeaten(CASCADE_KEYS, head[0], s)
    ensures t != [] && First(t) == head[0]
  {
    hide Comparable, AfterAs, Survivors, Lags, Beats, Lowest, Contiguous, First;
    var c := head[0];
    SameAfterAs(s, t, len);
    HaveAddresses(t, len);
    SameUnbeaten(s, t, c, CASCADE_KEYS);
    UnbeatenMeans(t, len, c);
    LowestMeans(t, len, c);
    AfterAsHead(t, len, 1);
    assert AfterAs(t)[0] == AfterAs(t)[..1][0] == t[..1][0] == c;
    MinimalDoesNotLag(AfterAs(t), c);
    OriginHead(t, len, c);
    SurvivorsAreUnbeaten(t, AsWritten, len);
    assert c in multiset(t);
    assert c in multiset(Survivors(t, AsWritten));
    HeadIsChosen(t, len, c);
  }

  // What remains in slot 0 when the second of the candidates has the lowest origin and the first has not.
  lemma {:induction false} SlotZeroStays(st: Scan, i: nat, key: Key)
    requires 1 <= st.kept <= i <= |st.slots| && forall h :: i <= h < |st.slots| ==> st.best <= key(st.slots[h])
    ensures var r := ScanFrom(st, i, key, AsWritten); r.kept >= 1 && r.slots[0] == st.slots[0]
    decreases |st.slots| - i
  {
    if i < |st.slots| { SlotZeroStays(ScanStep(st, i, key, AsWritten), i + 1, key); }
  }

  lemma SecondTakesOver(a: seq<Path>, key: Key, limit: int)
    requires |a| >= 2 && key(a[0]) <= limit && key(a[1]) < key(a[0]) && IsMinimal(a[1], a, key)
    ensures KeepBest(a, key, limit, AsWritten) != [] && KeepBest(a, key, limit, AsWritten)[0] == a[1]
  {
    hide ScanFrom;
    var s0 := Scan(a, 0, limit, []);
    var s1 := ScanStep(s0, 0, key, AsWritten);
    var s2 := ScanStep(s1, 1, key, AsWritten);
    assert s1.slots == a by { assert a[0 := a[0]] == a; }
    Unfolds(s0, 0, key);
    Unfolds(s1, 1, key);
    SlotZeroStays(s2, 2, key);
  }

  // A path of the lowest origin right behind c stays so, or comes first when c lags.
  lemma OriginLeads(t: seq<Path>, len: nat, c: Path, p: Path)
    requires Comparable(t, len) && p in Lowest(t) && Leads(AfterAs(t), c, p)
    ensures Leads(AfterOrigin(t, AsWritten), c, p)
    ensures Lags(c, multiset(AfterAs(t))) ==> AfterOrigin(t, AsWritten)[0] == p
  {
    hide Comparable, AfterAs, KeepBest, Lags, Lowest, AfterOrigin;
    var a, o := AfterAs(t), AfterOrigin(t, AsWritten);
    LowestMeans(t, len, p);
    MinimalDoesNotLag(a, p);
    MinimalDoesNotLag(a, c);
    if a[0] == p {
      SettledHead(t, 1);
      assert o[0] == o[..1][0] == a[..1][0];
    } else if Lags(c, multiset(a)) {
      var q :| q in multiset(a) && OriginKey(q) < OriginKey(c) by { SomethingLower(c, multiset(a)); }
      assert q in a;
      SecondTakesOver(a, OriginKey, ORIGIN_LIMIT);
      AfterOriginIs(t);
    } else {
      SettledHead(t, 2);
      assert o[0] == o[..2][0] == a[..2][0] && o[1] == o[..2][1] == a[..2][1];
    }
  }

  lemma SomethingLower(c: Path, bag: multiset<Path>)
    requires Lags(c, bag)
    ensures exists q :: q in bag && OriginKey(q) < OriginKey(c)
  {
  }

  lemma {:induction false} SweepTwo(st: Sweep)
    requires 2 <= st.i <= st.last <= |st.slots|
    ensures var r := SweepFrom(st); r.slots[..2] == st.slots[..2] && r.i >= 2
    decreases st.last - st.i
  {
    if st.i < st.last { SweepTwo(SweepStep(st)); }
  }

  // Two candidates in front of which none is internal if another is external stay in front.
  lemma ExternalLeads(o: seq<Path>, c: Path, p: Path)
    requires Leads(o, c, p) && (forall i :: 0 <= i < |o| ==> o[i].neighbor.Some?) && IsMinimal(p, o, InternalKey)
    requires o[0] == p || InternalKey(c) == InternalKey(p)
    ensures Leads(if |o| > 1 then PreferExternal(o).kept else o, c, p)
  {
    if |o| > 1 && o[0] == p {
      ExternalHead(o);
    } else if |o| > 1 {
      if i :| 0 <= i < |o| && o[i].IsExternal() {
        assert InternalKey(o[i]) == 0;
        var s1 := SweepStep(Sweep(o, 0, |o|, []));
        assert s1 == Sweep(o, 1, |o|, []) && SweepStep(s1) == Sweep(o, 2, |o|, []);
        SweepTwo(SweepStep(s1));
        var r := SweepFrom(Sweep(o, 0, |o|, []));
        assert r == SweepFrom(s1) == SweepFrom(SweepStep(s1));
        assert r.slots[0] == r.slots[..2][0] == o[0] && r.slots[1] == r.slots[..2][1] == o[1];
      }
    }
  }

  // An internal candidate in front is overwritten by the last one.
  lemma LastTakesOver(o: seq<Path>)
    requires |o| >= 2 && o[0].IsInternal() && o[|o| - 1].IsExternal() && !o[|o| - 1].IsInternal()
    ensures PreferExternal(o).kept != [] && PreferExternal(o).kept[0] == o[|o| - 1]
  {
    var s1 := SweepStep(Sweep(o, 0, |o|, []));
    assert s1.slots[0] == o[|o| - 1] && s1.i == 0 < s1.last;
    SweepHead(SweepStep(s1));
    var r := SweepFrom(Sweep(o, 0, |o|, []));
    assert r == SweepFrom(s1) == SweepFrom(SweepStep(s1));
    assert PreferExternal(o).kept == r.slots[..r.i];
  }

  function Reversed(u: seq<Path>): (r: seq<Path>)
    ensures |r| == |u| && forall i :: 0 <= i < |u| ==> r[i] == u[|u| - 1 - i]
  {
    if u == [] then [] else Reversed(u[1..]) + [u[0]]
  }

  lemma {:induction false} ReversedBag(u: seq<Path>)
    ensures multiset(Reversed(u)) == multiset(u)
  {
    if u != [] {
      assert u == [u[0]] + u[1..];
      ReversedBag(u[1..]);
    }
  }

  lemma ReversedContiguous(u: seq<Path>, peer: PeerOf)
    requires Contiguous(u, peer)
    ensures Contiguous(Reversed(u), peer)
  {
    var r, n := Reversed(u), |u| - 1;
    forall i, j, k | 0 <= i < j < k < |r| && peer(r[i]) == peer(r[k]) ensures peer(r[j]) == peer(r[i]) {
      assert peer(u[n - k]) == peer(u[n - i]) && peer(u[n - j]) == peer(u[n - k]);
    }
  }

  // The path at the end of a visit.
  lemma VisitTo(s: seq<Path>, head: seq<Path>, peer: PeerOf, p: Path) returns (t: seq<Path>)
    requires Distinct(s) && HeadOf(head, s) && p in s && p !in head
    ensures Visit(t, s, head, peer) && t != [] && t[|t| - 1] == p
  {
    hide *;
    OneMoreFits(s, head, [p], p);
    ShortIsOpen([p], multiset(s) - multiset(head + [p]), peer);
    var rest := Complete([p], multiset(s) - multiset(head + [p]), peer);
    var u := Reversed([p] + rest);
    t := head + u;
    ReversedBag([p] + rest);
    ReversedContiguous([p] + rest, peer);
    HeadIsShort(head, s);
    assert multiset(s) == multiset(t) by { BackBag(s, head, p, rest, u); }
    assert t[|head|..] == u;
    IsVisit(t, s, head, peer);
  }

  lemma BackBag(s: seq<Path>, head: seq<Path>, p: Path, rest: seq<Path>, u: seq<Path>)
    requires multiset(head + [p]) <= multiset(s) && multiset(rest) == multiset(s) - multiset(head + [p])
    requires multiset(u) == multiset([p] + rest)
    ensures multiset(s) == multiset(head + u)
  {
    assert multiset(head + [p]) + multiset(rest) == multiset(s);
    assert multiset([p] + rest) == multiset{p} + multiset(rest);
  }

  lemma IsVisit(t: seq<Path>, s: seq<Path>, head: seq<Path>, peer: PeerOf)
    requires multiset(s) == multiset(t) && |head| <= 1 && head <= t && Contiguous(t[|head|..], peer)
    ensures Visit(t, s, head, peer)
  {
  }

  lemma FilterEnd(t: seq<Path>, keep: Path -> bool)
    requires t != [] && keep(t[|t| - 1])
    ensures Filter(t, keep) != [] && Filter(t, keep)[|Filter(t, keep)| - 1] == t[|t| - 1]
  {
  }

  // When the head is internal and of the lowest origin, an external path at the end of the visit takes its place.
  lemma LastLeads(t: seq<Path>, s: seq<Path>, head: seq<Path>, peer: PeerOf, len: nat, p: Path)
    requires Comparable(s, len) && HeadOf(head, s) && Visit(t, s, head, peer) && t != [] && t[|t| - 1] == p
    requires head != [] && head[0] in Lowest(s) && p in Lowest(s) && head[0].IsInternal() && p.IsExternal()
    ensures Leads(AfterExternal(t, AsWritten), p, p)
  {
    hide Comparable, AfterAs, Filter, InAs, Contiguous, Lowest, KeepBest, Lags, IsMinimal, PreferExternal;
    var c, k := head[0], InAs(s);
    SameAfterAs(s, t, len);
    LowestMeans(s, len, c);
    LowestMeans(s, len, p);
    AfterAsIsFilter(s, t, len);
    InAsMeans(s, p);
    FilterEnd(t, k);
    VisitLeads(t, s, head, peer, len, c);
    var a, o := AfterAs(t), AfterOrigin(t, AsWritten);
    MinimalDoesNotLag(a, c);
    MinimalDoesNotLag(a, p);
    LowestFirst(t);
    FilterEnd(a, Least(a, OriginKey));
    SettledHead(t, 1);
    assert o[0] == o[..1][0] == a[..1][0] == c && o[|o| - 1] == p;
    LastTakesOver(o);
  }

  lemma LowestFirst(t: seq<Path>)
    requires AfterAs(t) != [] && IsMinimal(AfterAs(t)[0], AfterAs(t), OriginKey)
    ensures AfterOrigin(t, AsWritten) == Filter(AfterAs(t), Least(AfterAs(t), OriginKey))
  {
    hide AfterAs, KeepBest;
    var a := AfterAs(t);
    if |a| > 1 { UnresetStageExact(a, OriginKey, ORIGIN_LIMIT); } else { FilterAll(a, 1, Least(a, OriginKey)); }
  }

  // Any unbeaten path can be chosen, unless the head is one.
  lemma AnyCanBeChosen(s: seq<Path>, head: seq<Path>, peer: PeerOf, len: nat, p: Path) returns (t: seq<Path>)
    requires Comparable(s, len) && Distinct(s) && HeadOf(head, s)
    requires p in s && Unbeaten(CASCADE_KEYS, p, s) && (head != [] ==> !Unbeaten(CASCADE_KEYS, head[0], s))
    ensures Visit(t, s, head, peer) && t != [] && First(t) == p
  {
    hide Comparable, Distinct, AfterAs, AfterOrigin, AfterExternal, Survivors, Lags, Beats, Lowest, Visit, Leads;
    hide LaggardsLose, First, Unbeaten, IsMinimal, PreferExternal;
    UnbeatenMeans(s, len, p);
    t := GoodVisit(s, head, peer, len, p);
    HaveAddresses(t, len);
    var c := if head != [] then head[0] else p;
    Survive(t, s, len, c);
    Survive(t, s, len, p);
    OriginLeads(t, len, c, p);
    SurvivorIsMinimal(t, len, p);
    LeftMeans(t, len, p);
    var o := AfterOrigin(t, AsWritten);
    OriginMembers(t, AsWritten);
    WithinAddresses(o, t, len);
    LeadsNotEmpty(o, c, p);
    if o[0] == p || InternalKey(c) == InternalKey(p) {
      ExternalLeads(o, c, p);
      AfterExternalIs(t);
      LeaderIsChosen(t, len, c, p);
    } else {
      t := ChosenFromTheEnd(t, s, head, peer, len, p);
    }
  }

  lemma Survive(t: seq<Path>, s: seq<Path>, len: nat, p: Path)
    requires Comparable(t, len) && SameBag(s, t) && LaggardsLose(t) && p in s
    ensures p in Survivors(t, AsWritten) <==> Unbeaten(CASCADE_KEYS, p, s)
  {
    hide Comparable, Survivors, LaggardsLose, Unbeaten;
    SameMembers(s, t, p);
    SameUnbeaten(s, t, p, CASCADE_KEYS);
    LoseIsRight(t, len, p);
  }

  lemma AfterExternalIs(t: seq<Path>)
    ensures var o := AfterOrigin(t, AsWritten); AfterExternal(t, AsWritten) == if |o| > 1 then PreferExternal(o).kept else o
  {
  }

  lemma ChosenFromTheEnd(u: seq<Path>, s: seq<Path>, head: seq<Path>, peer: PeerOf, len: nat, p: Path)
    returns (t: seq<Path>)
    requires Comparable(s, len) && Distinct(s) && HeadOf(head, s) && head != []
    requires p in s && Unbeaten(CASCADE_KEYS, p, s) && !Unbeaten(CASCADE_KEYS, head[0], s)
    requires Comparable(u, len) && SameBag(s, u) && head[0] in AfterOrigin(u, AsWritten) && LaggardsLose(u)
    requires !Lags(head[0], multiset(AfterAs(u)))
    requires p in AfterOrigin(u, AsWritten) && IsMinimal(p, AfterOrigin(u, AsWritten), InternalKey)
    requires InternalKey(head[0]) != InternalKey(p)
    ensures Visit(t, s, head, peer) && t != [] && First(t) == p
  {
    hide Comparable, Distinct, AfterAs, AfterOrigin, AfterExternal, Survivors, Lags, Beats, Lowest, Leads;
    hide LaggardsLose, First, Unbeaten, Contiguous, BeatenLate, CanTrail;
    var c := head[0];
    OriginMembers(u, AsWritten) by { HaveAddresses(u, len); }
    HaveAddresses(u, len);
    WithinAddresses(AfterOrigin(u, AsWritten), u, len);
    UnbeatenMeans(s, len, p);
    LeftMeans(u, len, c);
    SameAfterAs(s, u, len);
    SameMembers(AfterAs(s), AfterAs(u), c);
    LowestMeans(s, len, c);
    assert c != p;
    t := VisitTo(s, head, peer, p);
    SameAfterAs(s, t, len);
    HaveAddresses(t, len);
    LastLeads(t, s, head, peer, len, p);
    VisitIsRight(t, s, head, peer, len, p);
    LeaderIsChosen(t, len, p, p);
  }

  ghost predicate HeadIsUnbeaten(s: seq<Path>, head: seq<Path>) { head != [] && Unbeaten(CASCADE_KEYS, head[0], s) }

  ghost predicate VisitsChooseAlike(s: seq<Path>, head: seq<Path>, peer: PeerOf) {
    forall t, u :: Visit(t, s, head, peer) && Visit(u, s, head, peer) ==> ChooseAlike(t, u)
  }

  // All visits choose the same path if the one chosen before is unbeaten. If not, they do if they are harmless and one
  // path is unbeaten, and only if one is; without late ties they also do only if they are harmless.
  lemma VisitsChoose(s: seq<Path>, head: seq<Path>, peer: PeerOf, len: nat)
    requires Comparable(s, len) && Distinct(s) && HeadOf(head, s)
    ensures HeadIsUnbeaten(s, head) ==> forall t :: Visit(t, s, head, peer) ==> t != [] && First(t) == head[0]
    ensures !HeadIsUnbeaten(s, head) && VisitsChooseAlike(s, head, peer) ==> OneIsUnbeaten(s)
    ensures VisitsHarmless(s, head, peer) && OneIsUnbeaten(s) ==> VisitsChooseAlike(s, head, peer)
    ensures NoLateTies(s) ==> (VisitsChooseAlike(s, head, peer) <==>
                               HeadIsUnbeaten(s, head) || (VisitsHarmless(s, head, peer) && OneIsUnbeaten(s)))
  {
    hide Comparable, Distinct, HeadOf, VisitsHarmless, OneIsUnbeaten, NoLateTies, Visit, First, Unbeaten;
    if HeadIsUnbeaten(s, head) {
      forall t | Visit(t, s, head, peer) ensures t != [] && First(t) == head[0] { HeadStays(t, s, head, peer, len); }
    } else if !OneIsUnbeaten(s) {
      TwoVisits(s, head, peer, len);
    } else if !VisitsHarmless(s, head, peer) && NoLateTies(s) {
      VisitsDiffer(s, head, peer, len);
    }
    if VisitsHarmless(s, head, peer) && OneIsUnbeaten(s) {
      forall t, u | Visit(t, s, head, peer) && Visit(u, s, head, peer) ensures ChooseAlike(t, u) {
        HarmlessVisits(t, u, s, head, peer, len);
      }
    }
  }

  lemma HarmlessVisits(t: seq<Path>, u: seq<Path>, s: seq<Path>, head: seq<Path>, peer: PeerOf, len: nat)
    requires Comparable(s, len) && Distinct(s) && VisitsHarmless(s, head, peer) && OneIsUnbeaten(s)
    requires Visit(t, s, head, peer) && Visit(u, s, head, peer)
    ensures ChooseAlike(t, u)
  {
    hide Comparable, Distinct, VisitsHarmless, First, Unbeaten, Survivors, Contiguous;
    SameAfterAs(s, t, len);
    SameAfterAs(s, u, len);
    HaveAddresses(t, len);
    HaveAddresses(u, len);
    ChoiceSurvives(t);
    ChoiceSurvives(u);
    VisitIsRight(t, s, head, peer, len, First(t));
    VisitIsRight(u, s, head, peer, len, First(u));
  }

  lemma TwoVisits(s: seq<Path>, head: seq<Path>, peer: PeerOf, len: nat)
    requires Comparable(s, len) && Distinct(s) && HeadOf(head, s) && !HeadIsUnbeaten(s, head) && !OneIsUnbeaten(s)
    ensures !VisitsChooseAlike(s, head, peer)
  {
    hide Comparable, Distinct, HeadOf, Visit, First, Unbeaten;
    var p, q :| p in s && q in s && Unbeaten(CASCADE_KEYS, p, s) && Unbeaten(CASCADE_KEYS, q, s) && p != q;
    var t := AnyCanBeChosen(s, head, peer, len, p);
    var u := AnyCanBeChosen(s, head, peer, len, q);
    assert !ChooseAlike(t, u);
  }

  lemma VisitsDiffer(s: seq<Path>, head: seq<Path>, peer: PeerOf, len: nat)
    requires Comparable(s, len) && Distinct(s) && HeadOf(head, s) && !VisitsHarmless(s, head, peer) && NoLateTies(s)
    ensures !VisitsChooseAlike(s, head, peer)
  {
    hide Comparable, Distinct, HeadOf, VisitsHarmless, NoLateTies, Visit, First, Unbeaten, Survivors, AfterAs, Lags, Lowest;
    var t, w := HurtfulVisit(s, head, peer, len);
    VisitBag(t, s, head, peer);
    SameAfterAs(s, t, len);
    HaveAddresses(t, len);
    HurtfulChoice(s, t, len, w);
    LowestMeans(s, len, w);
    var u := GoodVisit(s, head, peer, len, Lowest(s)[0]);
    HaveAddresses(u, len);
    ChoiceSurvives(u);
    assert !ChooseAlike(t, u);
  }

  // With one candidate of each peer and no path chosen before among those the AS stage leaves, the visits are harmless if
  // and only if all orders are.
  lemma OneOfEachPeer(s: seq<Path>, head: seq<Path>, peer: PeerOf, len: nat)
    requires Comparable(s, len) && Distinct(s) && (head != [] ==> head[0] !in AfterAs(s))
    requires forall p, q :: p in s && q in s && peer(p) == peer(q) ==> p == q
    ensures VisitsHarmless(s, head, peer) <==> LineHarmless(s)
  {
    hide Comparable, Distinct, AfterAs, Lags, BeatenLate;
    var bag := multiset(AfterAs(s));
    SameMembersHead(head, s, s);
    forall p | p in bag ensures p in s && bag[p] == 1 {
      assert p in AfterAs(s);
      AfterAsAgree(s, len, p, p);
      OnceEach(s, p);
    }
  }
}
