/** What the unreset index at line 743 of bgp/rib/destination.go costs the whole cascade: for which sets of candidates a
  * beaten path can win, and for which their order matters, over all orders. Module VisitOrder says the same of the orders
  * that a selection can meet.
  */
module CascadeOrder {
  import opened Paths
  import opened Stages
  import opened Cascade
  import opened Preference

  // ---------- the order of the keys ----------

  lemma {:induction false} BeatsTransitive(keys: seq<Key>, p: Path, q: Path, r: Path)
    requires Beats(keys, p, q) && Beats(keys, q, r)
    ensures Beats(keys, p, r)
    decreases |keys|
  {
    if keys[0](p) == keys[0](q) == keys[0](r) { BeatsTransitive(keys[1..], p, q, r); }
  }

  // Two paths neither of which beats the other are beaten by the same ones.
  lemma {:induction false} TieTransfers(keys: seq<Key>, p: Path, q: Path, c: Path)
    requires !Beats(keys, p, q) && !Beats(keys, q, p)
    ensures Beats(keys, c, p) == Beats(keys, c, q)
    decreases |keys|
  {
    if keys != [] && keys[0](c) == keys[0](p) { TieTransfers(keys[1..], p, q, c); }
  }

  lemma LowerOriginBeats(p: Path, q: Path)
    requires PrefKey(p) == PrefKey(q) && AsKey(p) == AsKey(q) && OriginKey(p) < OriginKey(q)
    ensures Beats(CASCADE_KEYS, p, q)
  {
    assert CASCADE_KEYS[1..][0] == AsKey && CASCADE_KEYS[1..][1..][0] == OriginKey;
  }

  // ---------- the candidates the origin stage is given ----------

  // Some candidate has a lower origin.
  ghost predicate Lags(x: Path, bag: multiset<Path>) { exists q :: q in bag && OriginKey(q) < OriginKey(x) }

  ghost predicate OneLags(bag: multiset<Path>) {
    forall x, y :: x in bag && y in bag && Lags(x, bag) && Lags(y, bag) ==> x == y && bag[x] == 1
  }

  ghost predicate BeatenLate(x: Path, bag: multiset<Path>) {
    exists r :: r in bag && !Lags(r, bag) && Beats(LATE_KEYS, r, x)
  }

  ghost predicate LaggardsBeaten(bag: multiset<Path>) { forall x :: x in bag && Lags(x, bag) ==> BeatenLate(x, bag) }

  // Of the candidates with the best preference and the fewest ASes, at most one does not have the lowest origin, or each
  // such one loses in the later stages to one that has it.
  ghost predicate LineHarmless(s: seq<Path>) {
    OneLags(multiset(AfterAs(s))) || LaggardsBeaten(multiset(AfterAs(s)))
  }

  lemma MinimalDoesNotLag(a: seq<Path>, p: Path)
    ensures IsMinimal(p, a, OriginKey) <==> !Lags(p, multiset(a))
  {
    if Lags(p, multiset(a)) {
      var q :| q in multiset(a) && OriginKey(q) < OriginKey(p);
      assert q in a;
    }
    if !IsMinimal(p, a, OriginKey) {
      var i :| 0 <= i < |a| && OriginKey(a[i]) < OriginKey(p);
      assert a[i] in multiset(a);
    }
  }

  ghost predicate SameBag(s: seq<Path>, t: seq<Path>) { multiset(s) == multiset(t) }

  lemma SameMembers(s: seq<Path>, t: seq<Path>, p: Path)
    requires SameBag(s, t)
    ensures p in s <==> p in t
  {
    assert p in s <==> p in multiset(s);
    assert p in t <==> p in multiset(t);
  }

  lemma SameMinimal(s: seq<Path>, t: seq<Path>, p: Path, key: Key)
    requires SameBag(s, t)
    ensures IsMinimal(p, s, key) == IsMinimal(p, t, key)
  {
    forall i | 0 <= i < |s| ensures s[i] in t { SameMembers(s, t, s[i]); }
    forall i | 0 <= i < |t| ensures t[i] in s { SameMembers(s, t, t[i]); }
  }

  lemma SameUnbeaten(s: seq<Path>, t: seq<Path>, p: Path, keys: seq<Key>)
    requires SameBag(s, t)
    ensures Unbeaten(keys, p, s) == Unbeaten(keys, p, t)
  {
    forall i | 0 <= i < |s| ensures s[i] in t { SameMembers(s, t, s[i]); }
    forall i | 0 <= i < |t| ensures t[i] in s { SameMembers(s, t, t[i]); }
  }

  // What a stage selects does not depend on the order.
  lemma SameSelection(s: seq<Path>, t: seq<Path>, s': seq<Path>, t': seq<Path>, key: Key)
    requires SameBag(s, t) && Selects(s', s, Least(s, key)) && Selects(t', t, Least(t, key))
    ensures SameBag(s', t')
  {
    forall p ensures multiset(s')[p] == multiset(t')[p] { SameMinimal(s, t, p, key); }
  }

  // Nor do the candidates the origin stage is given.
  lemma SameAfterAs(s: seq<Path>, t: seq<Path>, len: nat)
    requires Comparable(s, len) && SameBag(s, t)
    ensures Comparable(t, len) && SameBag(AfterAs(s), AfterAs(t))
  {
    SameMembers(s, t, s[0]);
    assert t != [];
    PrefSelects(s);
    PrefSelects(t);
    SameSelection(s, t, AfterPref(s), AfterPref(t), PrefKey);
    var i :| 0 <= i < |AfterPref(s)| && AsKey(AfterPref(s)[i]) <= AS_LIMIT;
    SameMembers(AfterPref(s), AfterPref(t), AfterPref(s)[i]);
    assert AddressesOf(t, len) by {
      forall i | 0 <= i < |t| ensures t[i] in s { SameMembers(s, t, t[i]); }
    }
    AsSelects(s);
    AsSelects(t);
    SameSelection(AfterPref(s), AfterPref(t), AfterAs(s), AfterAs(t), AsKey);
  }

  // They are candidates of one preference and one number of ASes, as often as given.
  lemma AfterAsAgree(s: seq<Path>, len: nat, p: Path, q: Path)
    requires Comparable(s, len) && p in AfterAs(s) && q in AfterAs(s)
    ensures PrefKey(p) == PrefKey(q) && AsKey(p) == AsKey(q) && p in s && multiset(AfterAs(s)) <= multiset(s)
  {
    PrefSelects(s);
    AsSelects(s);
    forall x | x in AfterAs(s)
      ensures x in AfterPref(s) && IsMinimal(x, AfterPref(s), AsKey) && x in s && IsMinimal(x, s, PrefKey)
    {
      assert x in multiset(AfterAs(s));
      assert x in multiset(AfterPref(s));
      assert x in multiset(s);
    }
  }

  // ---------- the later stages, on whatever the origin stage leaves ----------

  lemma LateStages(s: seq<Path>, reset: Reset, len: nat)
    requires s != [] && AddressesOf(s, len)
    ensures Selects(Survivors(s, reset), AfterOrigin(s, reset), Optimal(LATE_KEYS, AfterOrigin(s, reset)))
  {
    hide Survivors, AfterOrigin, AfterExternal, AfterBgpId, AfterClusters, Selects, Optimal, Least;
    ExternalSelects(s, reset, len);
    BgpIdSelects(s, reset);
    ClustersSelects(s, reset);
    AddressSelects(s, reset, len);
    var out := Survivors(s, reset);
    SelectsAll(out);
    var keys := Link(AfterClusters(s, reset), out, out, AddressKey, []);
    keys := Link(AfterBgpId(s, reset), AfterClusters(s, reset), out, ClusterKey, keys);
    keys := Link(AfterExternal(s, reset), AfterBgpId(s, reset), out, BgpIdKey, keys);
    keys := Link(AfterOrigin(s, reset), AfterExternal(s, reset), out, InternalKey, keys);
    assert keys == LATE_KEYS;
  }

  // A survivor is a path the origin stage left that no other such one beats in the later keys.
  lemma SurvivorMeans(s: seq<Path>, reset: Reset, len: nat, p: Path)
    requires s != [] && AddressesOf(s, len)
    ensures p in Survivors(s, reset) <==> p in AfterOrigin(s, reset) && Unbeaten(LATE_KEYS, p, AfterOrigin(s, reset))
  {
    hide Survivors, AfterOrigin;
    LateStages(s, reset, len);
    assert p in Survivors(s, reset) <==> p in multiset(Survivors(s, reset));
    assert p in AfterOrigin(s, reset) <==> p in multiset(AfterOrigin(s, reset));
  }

  // With line 743 repaired the origin stage leaves the paths of lowest origin.
  ghost function Lowest(s: seq<Path>): seq<Path> { AfterOrigin(s, ToOne) }

  lemma LowestMeans(s: seq<Path>, len: nat, p: Path)
    requires Comparable(s, len)
    ensures p in Lowest(s) <==> p in AfterAs(s) && !Lags(p, multiset(AfterAs(s)))
    ensures Lowest(s) != []
  {
    AsSelects(s);
    OriginSelects(s, ToOne);
    MinimalDoesNotLag(AfterAs(s), p);
    assert p in Lowest(s) <==> p in multiset(Lowest(s));
    assert p in AfterAs(s) <==> p in multiset(AfterAs(s));
    OriginMembers(s, ToOne);
  }

  // The paths no other candidate beats.
  lemma UnbeatenMeans(s: seq<Path>, len: nat, p: Path)
    requires Comparable(s, len) && p in s
    ensures Unbeaten(CASCADE_KEYS, p, s) <==> p in Lowest(s) && Unbeaten(LATE_KEYS, p, Lowest(s))
  {
    SurvivorsAreUnbeaten(s, ToOne, len);
    SurvivorMeans(s, ToOne, len, p);
    assert p in multiset(s);
    assert p in Survivors(s, ToOne) <==> p in multiset(Survivors(s, ToOne));
  }

  // ---------- the origin stage as written ----------

  // Every candidate with the best key so far is among the slots kept.
  ghost predicate KeepsMinima(s: seq<Path>, st: Scan, i: nat, key: Key)
    requires st.kept <= |st.slots| && i <= |s|
  {
    forall j :: 0 <= j < i && key(s[j]) == st.best ==> s[j] in st.slots[..st.kept]
  }

  lemma KeepsMinimaStep(s: seq<Path>, st: Scan, i: nat, key: Key, limit: int, w: nat)
    requires Base(s, st, i, key, limit, w) && i < |s| && KeepsMinima(s, st, i, key)
    ensures KeepsMinima(s, ScanStep(st, i, key, AsWritten), i + 1, key)
  {
    hide IsMinimal;
    var p, next := s[i], ScanStep(st, i, key, AsWritten);
    assert st.slots[i] == p;
    if key(p) <= st.best {
      assert next.slots[..next.kept][if key(p) < st.best then 0 else st.kept] == p;
    }
    if key(p) == st.best { assert next.slots[..next.kept] == st.slots[..st.kept] + [p]; }
  }

  lemma {:induction false} ScanKeepsMinima(s: seq<Path>, st: Scan, i: nat, key: Key, limit: int, w: nat) returns (v: nat)
    requires Base(s, st, i, key, limit, w) && KeepsMinima(s, st, i, key)
    ensures var r := ScanFrom(st, i, key, AsWritten); Base(s, r, |s|, key, limit, v) && KeepsMinima(s, r, |s|, key)
    decreases |s| - i
  {
    assert st.kept <= i <= |st.slots| == |s|;
    hide Base, KeepsMinima;
    v := w;
    if i < |s| {
      v := BaseStep(s, st, i, key, limit, w, AsWritten);
      KeepsMinimaStep(s, st, i, key, limit, w);
      v := ScanKeepsMinima(s, ScanStep(st, i, key, AsWritten), i + 1, key, limit, v);
    }
  }

  // The unreset stage loses no minimum and keeps candidates only.
  lemma UnresetKeepsMinima(s: seq<Path>, key: Key, limit: int, p: Path)
    requires s != [] && forall i :: 0 <= i < |s| ==> key(s[i]) <= limit
    ensures p in s && IsMinimal(p, s, key) ==> p in KeepBest(s, key, limit, AsWritten)
    ensures p in KeepBest(s, key, limit, AsWritten) ==> p in s
  {
    KeepBestMembers(s, key, limit, AsWritten);
    var st := Scan(s, 0, limit, []);
    var v := ScanKeepsMinima(s, st, 0, key, limit, 0);
    var r := ScanAll(s, key, limit, AsWritten);
    assert key(s[0]) <= limit;
    if p in s && IsMinimal(p, s, key) {
      var j :| 0 <= j < |s| && s[j] == p;
      if r.kept > 0 { assert key(p) <= key(s[v]); }
    }
  }

  lemma {:induction false} SlotStays(st: Scan, i: nat, key: Key, j: nat)
    requires 1 <= j < st.kept <= i <= |st.slots|
    ensures var r := ScanFrom(st, i, key, AsWritten); j < r.kept && r.slots[j] == st.slots[j]
    decreases |st.slots| - i
  {
    if i < |st.slots| { SlotStays(ScanStep(st, i, key, AsWritten), i + 1, key, j); }
  }

  // After i candidates none of which is above the one before: all are kept, and only slot 0 may have changed.
  ghost predicate AllKeptSoFar(a: seq<Path>, st: Scan, i: nat, key: Key) {
    1 <= i <= |a| == |st.slots| && st.kept == i && st.best == key(a[i - 1]) && st.slots[1..] == a[1..]
  }

  lemma AllKeptStep(a: seq<Path>, st: Scan, i: nat, key: Key)
    requires AllKeptSoFar(a, st, i, key) && i < |a| && key(a[i]) <= key(a[i - 1])
    ensures AllKeptSoFar(a, ScanStep(st, i, key, AsWritten), i + 1, key)
  {
    assert st.slots[1..][i - 1] == a[1..][i - 1] == a[i];
    assert st.slots[i := a[i]] == st.slots;
    assert st.slots[0 := a[i]][1..] == st.slots[1..];
  }

  lemma {:induction false} ScanDescends(a: seq<Path>, st: Scan, i: nat, n: nat, key: Key) returns (r: Scan)
    requires AllKeptSoFar(a, st, i, key) && i <= n <= |a| && forall j :: i <= j < n ==> key(a[j]) <= key(a[j - 1])
    ensures AllKeptSoFar(a, r, n, key) && ScanFrom(st, i, key, AsWritten) == ScanFrom(r, n, key, AsWritten)
    decreases n - i
  {
    if i < n {
      AllKeptStep(a, st, i, key);
      r := ScanDescends(a, ScanStep(st, i, key, AsWritten), i + 1, n, key);
    } else {
      r := st;
    }
  }

  lemma {:induction false} ScanPasses(st: Scan, i: nat, m: nat, key: Key)
    requires st.kept <= i <= m <= |st.slots| && forall h :: i <= h < m ==> key(st.slots[h]) > st.best
    ensures exists removed :: ScanFrom(st, i, key, AsWritten) == ScanFrom(st.(removed := removed), m, key, AsWritten)
    decreases m - i
  {
    if i < m {
      ScanPasses(ScanStep(st, i, key, AsWritten), i + 1, m, key);
    } else {
      assert st.(removed := st.removed) == st;
    }
  }

  // A candidate behind others none of which is above the one before stays, whatever its key, if after it come none but
  // higher ones up to one that is lower.
  lemma TrailingStays(a: seq<Path>, n: nat, m: nat, key: Key, limit: int)
    requires 1 <= n < m < |a| && key(a[0]) <= limit && forall j :: 1 <= j < n ==> key(a[j]) <= key(a[j - 1])
    requires key(a[m]) < key(a[n - 1]) && forall h :: n < h < m ==> key(a[n - 1]) < key(a[h])
    ensures a[n] in KeepBest(a, key, limit, AsWritten)
  {
    hide AllKeptSoFar, ScanFrom;
    var s0 := Scan(a, 0, limit, []);
    var s1 := ScanStep(s0, 0, key, AsWritten);
    FirstKept(a, key, limit);
    var sn := ScanDescends(a, s1, 1, n, key);
    Unfolds(s0, 0, key);
    KeptInside(a, sn, n, m, key);
    var r := ScanFrom(sn, n, key, AsWritten);
    assert r.slots[..r.kept][n] == a[n];
  }

  lemma FirstKept(a: seq<Path>, key: Key, limit: int)
    requires a != [] && key(a[0]) <= limit
    ensures AllKeptSoFar(a, ScanStep(Scan(a, 0, limit, []), 0, key, AsWritten), 1, key)
  {
    assert a[0 := a[0]] == a;
  }

  lemma Unfolds(st: Scan, i: nat, key: Key)
    requires st.kept <= i < |st.slots|
    ensures ScanFrom(st, i, key, AsWritten) == ScanFrom(ScanStep(st, i, key, AsWritten), i + 1, key, AsWritten)
  {
  }

  lemma KeptInside(a: seq<Path>, st: Scan, n: nat, m: nat, key: Key)
    requires AllKeptSoFar(a, st, n, key) && n < m < |a| && key(a[m]) < key(a[n - 1])
    requires forall h :: n < h < m ==> key(a[n - 1]) < key(a[h])
    ensures var r := ScanFrom(st, n, key, AsWritten); n < r.kept && r.slots[n] == a[n]
  {
    hide ScanFrom;
    Unfolds(st, n, key);
    var x := ScanStep(st, n, key, AsWritten);
    forall j | 1 <= j < |a| ensures st.slots[j] == a[j] { assert st.slots[1..][j - 1] == a[1..][j - 1]; }
    if key(a[n]) <= key(a[n - 1]) {
      SlotStays(x, n + 1, key, n);
    } else {
      ScanPasses(x, n + 1, m, key);
      var removed :| ScanFrom(x, n + 1, key, AsWritten) == ScanFrom(x.(removed := removed), m, key, AsWritten);
      var y := x.(removed := removed);
      Unfolds(y, m, key);
      SlotStays(ScanStep(y, m, key, AsWritten), m + 1, key, n);
    }
  }

  // When the rest has the best key, all of it is appended where it stands.
  lemma {:induction false} RestAppended(st: Scan, i: nat, key: Key)
    requires st.kept == i <= |st.slots| && forall k :: i <= k < |st.slots| ==> key(st.slots[k]) == st.best
    ensures var r := ScanFrom(st, i, key, AsWritten); r.slots == st.slots && r.kept == |st.slots|
    decreases |st.slots| - i
  {
    if i < |st.slots| {
      assert st.slots[i := st.slots[i]] == st.slots;
      RestAppended(ScanStep(st, i, key, AsWritten), i + 1, key);
    }
  }

  // A single laggard in front is overwritten by the first minimum.
  lemma OneLaggardGoes(s: seq<Path>, key: Key, limit: int)
    requires |s| >= 2 && key(s[0]) <= limit && key(s[1]) < key(s[0]) && forall i :: 1 <= i < |s| ==> key(s[i]) == key(s[1])
    ensures KeepBest(s, key, limit, AsWritten) == s[0 := s[1]]
  {
    var s0 := Scan(s, 0, limit, []);
    var s1 := ScanStep(s0, 0, key, AsWritten);
    var s2 := ScanStep(s1, 1, key, AsWritten);
    assert s[0 := s[0]] == s;
    assert s2.slots == s[0 := s[1]] && s2.kept == 2;
    RestAppended(s2, 2, key);
    assert ScanFrom(s0, 0, key, AsWritten) == ScanFrom(s1, 1, key, AsWritten) == ScanFrom(s2, 2, key, AsWritten);
    assert s[0 := s[1]][..|s|] == s[0 := s[1]];
  }

  // As written, the origin stage leaves every path of lowest origin and nothing that was not given to it.
  lemma LeftMeans(s: seq<Path>, len: nat, p: Path)
    requires Comparable(s, len)
    ensures p in Lowest(s) ==> p in AfterOrigin(s, AsWritten)
    ensures p in AfterOrigin(s, AsWritten) ==> p in AfterAs(s)
  {
    AsSelects(s);
    LowestMeans(s, len, p);
    MinimalDoesNotLag(AfterAs(s), p);
    if |AfterAs(s)| > 1 { UnresetKeepsMinima(AfterAs(s), OriginKey, ORIGIN_LIMIT, p); }
  }

  // With at most one laggard, it leaves nothing else.
  lemma OneLaggardMeans(s: seq<Path>, len: nat, p: Path)
    requires Comparable(s, len) && OneLags(multiset(AfterAs(s))) && p in AfterOrigin(s, AsWritten)
    ensures p in Lowest(s)
  {
    var a := AfterAs(s);
    LeftMeans(s, len, p);
    LowestMeans(s, len, p);
    MinimalDoesNotLag(a, p);
    if |a| == 1 {
      assert a[0] == p;
    } else if FirstIsLowest(a, OriginKey) {
      OriginSelects(s, AsWritten);
      assert p in multiset(AfterOrigin(s, AsWritten));
    } else {
      OnlyFirstLags(a);
      OneLaggardGoes(a, OriginKey, ORIGIN_LIMIT);
      var k :| 0 <= k < |a| && a[0 := a[1]][k] == p;
      assert p == a[if k == 0 then 1 else k];
    }
  }

  // If the first of several lags and at most one does, all the others have the lowest origin.
  lemma OnlyFirstLags(a: seq<Path>)
    requires |a| >= 2 && OneLags(multiset(a)) && !FirstIsLowest(a, OriginKey)
    ensures OriginKey(a[1]) < OriginKey(a[0])
    ensures forall i :: 1 <= i < |a| ==> OriginKey(a[i]) == OriginKey(a[1]) && IsMinimal(a[i], a, OriginKey)
  {
    var j :| 0 <= j < |a| && OriginKey(a[j]) < OriginKey(a[0]);
    assert a[0] in multiset(a) && a[j] in multiset(a) && Lags(a[0], multiset(a));
    forall i | 1 <= i < |a| ensures IsMinimal(a[i], a, OriginKey) {
      assert a[i] in multiset(a);
      MinimalDoesNotLag(a, a[i]);
      if Lags(a[i], multiset(a)) { TwicePresent(a, 0, i); }
    }
    assert IsMinimal(a[j], a, OriginKey);
    assert forall i :: 1 <= i < |a| ==> OriginKey(a[i]) <= OriginKey(a[j]) && OriginKey(a[j]) <= OriginKey(a[i]);
  }

  lemma TwicePresent(a: seq<Path>, i: nat, j: nat)
    requires i < j < |a| && a[i] == a[j]
    ensures multiset(a)[a[i]] >= 2
  {
    assert a == a[..j] + [a[j]] + a[j + 1..];
    assert a[..j][i] == a[i] && a[i] in multiset(a[..j]);
  }

  // ---------- which candidates can be hurt ----------

  // Every laggard the origin stage leaves in this order loses in the later stages to a path of lowest origin.
  ghost predicate LaggardsLose(t: seq<Path>) {
    forall x :: x in AfterOrigin(t, AsWritten) && Lags(x, multiset(AfterAs(t))) ==> BeatenLate(x, multiset(AfterAs(t)))
  }

  lemma HarmlessLose(t: seq<Path>, len: nat)
    requires Comparable(t, len) && LineHarmless(t)
    ensures LaggardsLose(t)
  {
    hide Comparable, AfterOrigin, AfterAs, Lags, Lowest, BeatenLate;
    forall x | x in AfterOrigin(t, AsWritten) && Lags(x, multiset(AfterAs(t))) ensures BeatenLate(x, multiset(AfterAs(t))) {
      LeftMeans(t, len, x);
      LowestMeans(t, len, x);
      if OneLags(multiset(AfterAs(t))) { OneLaggardMeans(t, len, x); }
      assert x in multiset(AfterAs(t));
    }
  }

  // It is beaten by one the origin stage also left.
  lemma LaggardLoses(t: seq<Path>, len: nat, x: Path) returns (r: Path)
    requires Comparable(t, len) && LaggardsLose(t) && x in AfterOrigin(t, AsWritten) && x !in Lowest(t)
    ensures r in Lowest(t) && r in AfterOrigin(t, AsWritten) && Beats(LATE_KEYS, r, x)
  {
    hide Comparable, AfterOrigin, AfterAs, Lags, Lowest;
    LeftMeans(t, len, x);
    LowestMeans(t, len, x);
    r :| r in multiset(AfterAs(t)) && !Lags(r, multiset(AfterAs(t))) && Beats(LATE_KEYS, r, x);
    assert r in AfterAs(t);
    LowestMeans(t, len, r);
    LeftMeans(t, len, r);
  }

  // Then the survivors are exactly the unbeaten candidates.
  lemma LoseIsRight(t: seq<Path>, len: nat, p: Path)
    requires Comparable(t, len) && LaggardsLose(t)
    ensures p in Survivors(t, AsWritten) <==> p in t && Unbeaten(CASCADE_KEYS, p, t)
  {
    hide LaggardsLose, Survivors, AfterOrigin, AfterAs, Lowest, Lags, Beats;
    var left, lowest := AfterOrigin(t, AsWritten), Lowest(t);
    SurvivorMeans(t, AsWritten, len, p);
    if p in t { UnbeatenMeans(t, len, p); }
    LeftMeans(t, len, p);
    LowestMeans(t, len, p);
    if p in left && Unbeaten(LATE_KEYS, p, left) {
      AfterAsAgree(t, len, p, p);
      if p !in lowest { var r := LaggardLoses(t, len, p); }
      forall i | 0 <= i < |lowest| ensures !Beats(LATE_KEYS, lowest[i], p) { LeftMeans(t, len, lowest[i]); }
    }
    if p in lowest && Unbeaten(LATE_KEYS, p, lowest) {
      forall i | 0 <= i < |left| ensures !Beats(LATE_KEYS, left[i], p) {
        if left[i] !in lowest && Beats(LATE_KEYS, left[i], p) {
          var r := LaggardLoses(t, len, left[i]);
          BeatsTransitive(LATE_KEYS, r, left[i], p);
        }
      }
    }
  }

  // In every order the survivors are exactly the unbeaten candidates.
  lemma HarmlessIsRight(s: seq<Path>, t: seq<Path>, len: nat, p: Path)
    requires Comparable(s, len) && LineHarmless(s) && SameBag(s, t)
    ensures p in Survivors(t, AsWritten) <==> p in s && Unbeaten(CASCADE_KEYS, p, s)
  {
    hide LineHarmless, LaggardsLose, OneLags, LaggardsBeaten, Comparable, Survivors, AfterOrigin, AfterAs, Unbeaten;
    hide Lags, IsMinimal;
    SameAfterAs(s, t, len);
    SameMembers(s, t, p);
    SameUnbeaten(s, t, p, CASCADE_KEYS);
    SameHarmless(s, t);
    HarmlessLose(t, len);
    LoseIsRight(t, len, p);
  }

  lemma SameHarmless(s: seq<Path>, t: seq<Path>)
    requires LineHarmless(s) && SameBag(AfterAs(s), AfterAs(t))
    ensures LineHarmless(t)
  {
  }

  // ---------- orders that hurt ----------

  lemma {:induction false} SomeOrder(bag: multiset<Path>) returns (s: seq<Path>)
    ensures multiset(s) == bag
    decreases |bag|
  {
    if |bag| == 0 {
      s := [];
    } else {
      var p :| p in bag;
      s := SomeOrder(bag - multiset{p});
      s := [p] + s;
    }
  }

  lemma {:induction false} FilterHead(s: seq<Path>, n: nat, k: nat, keep: Path -> bool)
    requires k <= n <= |s| && forall i :: 0 <= i < k ==> keep(s[i])
    ensures |FilterTo(s, n, keep)| >= k && FilterTo(s, n, keep)[..k] == s[..k]
    decreases n
  {
    if n > k {
      FilterHead(s, n - 1, k, keep);
    } else if n > 0 {
      FilterHead(s, n - 1, k - 1, keep);
      FilterAll(s, n, keep);
    }
  }

  // The minima that come first come out first.
  lemma StageHead(s: seq<Path>, k: nat, key: Key, limit: int)
    requires s != [] && k <= |s| && exists i :: 0 <= i < |s| && key(s[i]) <= limit
    requires forall i :: 0 <= i < k ==> IsMinimal(s[i], s, key)
    ensures var r := if |s| > 1 then KeepBest(s, key, limit, ToOne) else s; |r| >= k && r[..k] == s[..k]
  {
    if |s| > 1 {
      FilterStageExact(s, key, limit);
      FilterHead(s, |s|, k, Least(s, key));
    }
  }

  lemma AfterAsHead(t: seq<Path>, len: nat, k: nat)
    requires Comparable(t, len) && k <= |t| && forall i :: 0 <= i < k ==> t[i] in AfterAs(t)
    ensures |AfterAs(t)| >= k && AfterAs(t)[..k] == t[..k]
  {
    hide KeepBest;
    PrefSelects(t);
    AsSelects(t);
    forall i | 0 <= i < k ensures IsMinimal(t[i], t, PrefKey) && IsMinimal(t[i], AfterPref(t), AsKey) {
      assert t[i] in multiset(AfterAs(t));
      assert t[i] in multiset(AfterPref(t));
    }
    assert PrefKey(t[0]) <= 0;
    StageHead(t, k, PrefKey, 0);
    forall i | 0 <= i < k ensures AfterPref(t)[i] == t[i] { assert AfterPref(t)[..k][i] == t[..k][i]; }
    StageHead(AfterPref(t), k, AsKey, AS_LIMIT);
  }

  // Any of the candidates the origin stage is given can come first in it.
  lemma Arrange(s: seq<Path>, len: nat, head: seq<Path>) returns (t: seq<Path>)
    requires Comparable(s, len) && multiset(head) <= multiset(AfterAs(s))
    ensures SameBag(s, t) && Comparable(t, len) && SameBag(AfterAs(s), AfterAs(t))
    ensures |head| <= |t| && t[..|head|] == head && |AfterAs(t)| >= |head| && AfterAs(t)[..|head|] == head
  {
    AsSelects(s);
    AfterAsAgree(s, len, AfterAs(s)[0], AfterAs(s)[0]);
    var rest := SomeOrder(multiset(s) - multiset(head));
    t := head + rest;
    SameAfterAs(s, t, len);
    forall i | 0 <= i < |head| ensures t[i] in AfterAs(t) {
      assert t[i] == head[i] && head[i] in multiset(head);
      assert t[i] in multiset(AfterAs(t));
    }
    AfterAsHead(t, len, |head|);
  }

  // Two laggards of which the second loses to no path of lowest origin.
  lemma TwoLaggards(bag: multiset<Path>) returns (x: Path, y: Path)
    requires !OneLags(bag) && !LaggardsBeaten(bag)
    ensures multiset{x, y} <= bag && Lags(x, bag) && Lags(y, bag) && !BeatenLate(x, bag)
  {
    x :| x in bag && Lags(x, bag) && !BeatenLate(x, bag);
    var u, v :| u in bag && v in bag && Lags(u, bag) && Lags(v, bag) && !(u == v && bag[u] == 1);
    y := if u != x then u else v;
  }

  lemma {:induction false} SomeLowest(bag: multiset<Path>, x: Path) returns (r: Path)
    requires x in bag
    ensures r in bag && !Lags(r, bag)
    decreases OriginKey(x)
  {
    if Lags(x, bag) {
      var q :| q in bag && OriginKey(q) < OriginKey(x);
      r := SomeLowest(bag, q);
    } else {
      r := x;
    }
  }

  // Some order makes a beaten path survive.
  lemma HurtfulOrder(s: seq<Path>, len: nat) returns (t: seq<Path>, w: Path)
    requires Comparable(s, len) && !LineHarmless(s)
    ensures SameBag(s, t) && Comparable(t, len) && SameBag(AfterAs(s), AfterAs(t))
    ensures w in Survivors(t, AsWritten) && w in AfterAs(s) && Lags(w, multiset(AfterAs(s)))
  {
    hide OneLags, LaggardsBeaten, Comparable, Survivors, AfterAs, AfterOrigin, Beats, Lags, BeatenLate;
    var bag := multiset(AfterAs(s));
    var x, y := TwoLaggards(bag);
    var r := SomeLowest(bag, x);
    assert multiset{y, x, r} <= bag;
    assert multiset([y, x, r]) == multiset{y, x, r};
    t := Arrange(s, len, [y, x, r]);
    assert x in AfterOrigin(t, AsWritten) by { ThirdArrives(t, len, x, y, r); }
    w := WorstSurvivor(t, len, x);
    SameMembers(AfterAs(s), AfterAs(t), w);
  }

  lemma ThirdArrives(t: seq<Path>, len: nat, x: Path, y: Path, r: Path)
    requires |AfterAs(t)| >= 3 && AfterAs(t)[..3] == [y, x, r] && r in multiset(AfterAs(t))
    requires Lags(x, multiset(AfterAs(t))) && Lags(y, multiset(AfterAs(t))) && !Lags(r, multiset(AfterAs(t)))
    ensures x in AfterOrigin(t, AsWritten)
  {
    var a := AfterAs(t);
    assert a[0] == a[..3][0] && a[1] == a[..3][1] && a[2] == a[..3][2];
    TrailingStays(a, 1, 2, OriginKey, ORIGIN_LIMIT);
  }

  // A laggard left over that loses to no path of lowest origin: some laggard survives.
  lemma WorstSurvivor(t: seq<Path>, len: nat, x: Path) returns (w: Path)
    requires Comparable(t, len) && x in AfterOrigin(t, AsWritten)
    requires Lags(x, multiset(AfterAs(t))) && !BeatenLate(x, multiset(AfterAs(t)))
    ensures w in Survivors(t, AsWritten) && w in AfterAs(t) && Lags(w, multiset(AfterAs(t)))
  {
    hide Comparable, Survivors, AfterAs, Beats, AfterOrigin, Lags;
    CascadeMembers(t, AsWritten, false, false) by { assert t != [] by { HaveAddresses(t, len); } }
    HaveAddresses(t, len);
    w := Survivors(t, AsWritten)[0];
    SurvivorMeans(t, AsWritten, len, w);
    LeftMeans(t, len, w);
    LeftMeans(t, len, x);
    if !Lags(w, multiset(AfterAs(t))) {
      assert w in multiset(AfterAs(t));
      assert !Beats(LATE_KEYS, w, x) && !Beats(LATE_KEYS, x, w);
      var left := AfterOrigin(t, AsWritten);
      forall i | 0 <= i < |left| ensures !Beats(LATE_KEYS, left[i], x) { TieTransfers(LATE_KEYS, w, x, left[i]); }
      SurvivorMeans(t, AsWritten, len, x);
      w := x;
    }
  }

  lemma HaveAddresses(t: seq<Path>, len: nat)
    requires Comparable(t, len)
    ensures t != [] && AddressesOf(t, len)
  {
  }

  lemma LaggardIsBeaten(s: seq<Path>, len: nat, w: Path)
    requires Comparable(s, len) && w in AfterAs(s) && Lags(w, multiset(AfterAs(s)))
    ensures w in s && !Unbeaten(CASCADE_KEYS, w, s)
  {
    var q :| q in multiset(AfterAs(s)) && OriginKey(q) < OriginKey(w);
    assert q in AfterAs(s);
    AfterAsAgree(s, len, q, w);
    AfterAsAgree(s, len, w, w);
    LowerOriginBeats(q, w);
    var i :| 0 <= i < |s| && s[i] == q by { AfterAsAgree(s, len, q, q); }
    assert Beats(CASCADE_KEYS, s[i], w);
  }

  // ---------- what line 743 costs ----------

  ghost predicate OnlyUnbeatenSurvive(t: seq<Path>, s: seq<Path>) {
    forall p :: p in Survivors(t, AsWritten) ==> Unbeaten(CASCADE_KEYS, p, s)
  }

  // As written, no beaten path survives the cascade, in whatever order the candidates come, if and only if at most one
  // of those left after the AS stage lags in origin, or each that does loses later on to one that does not.
  lemma NoBeatenPathSurvives(s: seq<Path>, len: nat)
    requires Comparable(s, len)
    ensures (forall t :: SameBag(s, t) ==> OnlyUnbeatenSurvive(t, s)) <==> LineHarmless(s)
  {
    hide Comparable, LineHarmless, Survivors, AfterAs, Unbeaten, Lags, SameBag;
    if LineHarmless(s) {
      forall t, p | SameBag(s, t) && p in Survivors(t, AsWritten) ensures Unbeaten(CASCADE_KEYS, p, s) {
        HarmlessIsRight(s, t, len, p);
      }
    } else {
      var t, w := HurtfulOrder(s, len);
      LaggardIsBeaten(s, len, w);
      assert !OnlyUnbeatenSurvive(t, s);
    }
  }

  ghost predicate SameSurvivors(t: seq<Path>, s: seq<Path>) {
    forall p :: p in Survivors(t, AsWritten) <==> p in Survivors(s, AsWritten)
  }

  // An order in which a path of lowest origin comes first: only unbeaten paths survive.
  lemma GoodOrder(s: seq<Path>, len: nat, r: Path) returns (t: seq<Path>)
    requires Comparable(s, len) && r in Lowest(s)
    ensures SameBag(s, t) && Comparable(t, len) && t[0] == r && OriginSettled(t, AsWritten)
    ensures OnlyUnbeatenSurvive(t, s)
  {
    LowestMeans(s, len, r);
    assert multiset{r} <= multiset(AfterAs(s));
    assert multiset([r]) == multiset{r};
    t := Arrange(s, len, [r]);
    assert t[0] == t[..1][0] && AfterAs(t)[0] == AfterAs(t)[..1][0];
    MinimalDoesNotLag(AfterAs(t), r);
    SurvivorsAreUnbeaten(t, AsWritten, len);
    forall p | p in Survivors(t, AsWritten) ensures Unbeaten(CASCADE_KEYS, p, s) {
      assert p in multiset(Survivors(t, AsWritten));
      SameUnbeaten(s, t, p, CASCADE_KEYS);
    }
  }

  // And which paths survive depends on the order if and only if it is not so.
  lemma OrderDoesNotMatter(s: seq<Path>, len: nat)
    requires Comparable(s, len)
    ensures (forall t :: SameBag(s, t) ==> SameSurvivors(t, s)) <==> LineHarmless(s)
  {
    hide Comparable, LineHarmless, Survivors, AfterAs, Unbeaten, Lags, Lowest, OriginSettled;
    if LineHarmless(s) {
      forall t, p | SameBag(s, t) ensures p in Survivors(t, AsWritten) <==> p in Survivors(s, AsWritten) {
        HarmlessIsRight(s, t, len, p);
        HarmlessIsRight(s, s, len, p);
      }
    } else {
      var t, w := HurtfulOrder(s, len);
      LaggardIsBeaten(s, len, w);
      LowestMeans(s, len, w);
      var u := GoodOrder(s, len, Lowest(s)[0]);
      assert !(SameSurvivors(t, s) && SameSurvivors(u, s));
    }
  }

  // ---------- the path that is chosen ----------

  // The survivor that is taken.
  ghost function First(s: seq<Path>): Path
    requires s != []
  {
    CascadeMembers(s, AsWritten, false, false);
    Survivors(s, AsWritten)[0]
  }

  ghost predicate SameChoice(t: seq<Path>, s: seq<Path>)
    requires s != []
  {
    t != [] && First(t) == First(s)
  }

  // No laggard agrees with a path of lowest origin in all later keys, as two paths of different neighbours never do.
  ghost predicate NoLateTies(s: seq<Path>) {
    forall x, r :: x in AfterAs(s) && r in Lowest(s) && Lags(x, multiset(AfterAs(s))) ==>
      Beats(LATE_KEYS, x, r) || Beats(LATE_KEYS, r, x)
  }

  ghost predicate OneIsUnbeaten(s: seq<Path>) {
    forall p, q :: p in s && q in s && Unbeaten(CASCADE_KEYS, p, s) && Unbeaten(CASCADE_KEYS, q, s) ==> p == q
  }

  lemma ChoiceSurvives(s: seq<Path>)
    requires s != []
    ensures First(s) in Survivors(s, AsWritten)
  {
    CascadeMembers(s, AsWritten, false, false);
  }

  lemma {:induction false} SweepHead(st: Sweep)
    requires 1 <= st.i <= st.last <= |st.slots|
    ensures SweepFrom(st).slots[0] == st.slots[0] && SweepFrom(st).i >= 1
    decreases st.last - st.i
  {
    if st.i < st.last { SweepHead(SweepStep(st)); }
  }

  lemma ExternalHead(s: seq<Path>)
    requires s != [] && s[0].neighbor.Some? && IsMinimal(s[0], s, InternalKey)
    ensures PreferExternal(s).kept != [] && PreferExternal(s).kept[0] == s[0]
  {
    if i :| 0 <= i < |s| && s[i].IsExternal() {
      assert InternalKey(s[i]) == 0;
      SweepHead(SweepStep(Sweep(s, 0, |s|, [])));
    }
  }

  lemma AddressHead(s: seq<Path>, len: nat)
    requires s != [] && AddressesOf(s, len) && IsMinimal(s[0], s, AddressKey)
    ensures LowestAddress(s).kept[0] == s[0]
  {
    var w := LowestAddressIsLeast(s, |s|, len);
    FilterHead(s, |s|, 1, WithKey(AddressKey, AddressKey(s[w])));
  }

  // What a survivor is minimal in, stage by stage.
  lemma SurvivorIsMinimal(t: seq<Path>, len: nat, r: Path)
    requires t != [] && AddressesOf(t, len) && r in Survivors(t, AsWritten)
    ensures IsMinimal(r, AfterClusters(t, AsWritten), AddressKey) && IsMinimal(r, AfterBgpId(t, AsWritten), ClusterKey)
    ensures IsMinimal(r, AfterExternal(t, AsWritten), BgpIdKey) && IsMinimal(r, AfterOrigin(t, AsWritten), InternalKey)
  {
    hide Survivors, AfterClusters, AfterBgpId, AfterExternal, AfterOrigin;
    ExternalSelects(t, AsWritten, len);
    BgpIdSelects(t, AsWritten);
    ClustersSelects(t, AsWritten);
    AddressSelects(t, AsWritten, len);
    assert r in multiset(Survivors(t, AsWritten));
    assert r in multiset(AfterClusters(t, AsWritten));
    assert r in multiset(AfterBgpId(t, AsWritten));
    assert r in multiset(AfterExternal(t, AsWritten));
  }

  // p comes first, or right after c.
  ghost predicate Leads(u: seq<Path>, c: Path, p: Path) {
    u != [] && (u[0] == p || (|u| >= 2 && u[0] == c && u[1] == p))
  }

  lemma {:induction false} FilterLeads(u: seq<Path>, n: nat, keep: Path -> bool, c: Path, p: Path)
    requires Leads(u, c, p) && keep(p) && n <= |u| && (if u[0] == p then 1 <= n else 2 <= n)
    ensures Leads(FilterTo(u, n, keep), c, p)
  {
    if u[0] == p {
      FilterHead(u, n, 1, keep);
      assert FilterTo(u, n, keep)[0] == FilterTo(u, n, keep)[..1][0] == u[..1][0];
    } else if n > 2 {
      FilterLeads(u, n - 1, keep, c, p);
    } else {
      assert FilterTo(u, 1, keep) == if keep(c) then [c] else [] by { assert FilterTo(u, 0, keep) == []; }
    }
  }

  lemma StageLeads(u: seq<Path>, key: Key, limit: int, c: Path, p: Path)
    requires Leads(u, c, p) && IsMinimal(p, u, key) && exists i :: 0 <= i < |u| && key(u[i]) <= limit
    ensures Leads(if |u| > 1 then KeepBest(u, key, limit, ToOne) else u, c, p)
  {
    if |u| > 1 {
      FilterStageExact(u, key, limit);
      FilterLeads(u, |u|, Least(u, key), c, p);
    }
  }

  lemma AddressLeads(u: seq<Path>, len: nat, c: Path, p: Path)
    requires Leads(u, c, p) && AddressesOf(u, len) && IsMinimal(p, u, AddressKey)
    ensures Leads(if |u| > 1 then LowestAddress(u).kept else u, c, p)
  {
    if |u| > 1 {
      var w := LowestAddressIsLeast(u, |u|, len);
      assert u[0] in u && u[1] in u;
      FilterLeads(u, |u|, WithKey(AddressKey, AddressKey(u[w])), c, p);
    }
  }

  // A survivor that comes out of the external stage first, or right after a path that does not survive, is chosen.
  lemma LeaderIsChosen(t: seq<Path>, len: nat, c: Path, p: Path)
    requires t != [] && AddressesOf(t, len) && p in Survivors(t, AsWritten) && (c == p || c !in Survivors(t, AsWritten))
    requires Leads(AfterExternal(t, AsWritten), c, p)
    ensures First(t) == p
  {
    hide AfterOrigin, AfterExternal, KeepBest, LowestAddress, Leads, IsMinimal;
    SurvivorIsMinimal(t, len, p);
    var e, b := AfterExternal(t, AsWritten), AfterBgpId(t, AsWritten);
    ExternalMembers(t, AsWritten);
    assert BgpIdKey(e[0]) <= MAX_UINT32;
    StageLeads(e, BgpIdKey, MAX_UINT32, c, p);
    LeadsNotEmpty(b, c, p);
    assert ClusterKey(b[0]) <= MAX_UINT16;
    StageLeads(b, ClusterKey, MAX_UINT16, c, p);
    ClustersMembers(t, AsWritten);
    WithinAddresses(AfterClusters(t, AsWritten), t, len);
    AddressLeads(AfterClusters(t, AsWritten), len, c, p);
    CascadeMembers(t, AsWritten, false, false);
    LeadsNotEmpty(Survivors(t, AsWritten), c, p);
  }

  lemma LeadsNotEmpty(u: seq<Path>, c: Path, p: Path)
    requires Leads(u, c, p)
    ensures u != [] && (u[0] == p || u[0] == c)
  {
  }

  // A survivor that comes first out of the origin stage is chosen.
  lemma HeadIsChosen(t: seq<Path>, len: nat, r: Path)
    requires t != [] && AddressesOf(t, len) && r in Survivors(t, AsWritten)
    requires AfterOrigin(t, AsWritten) != [] && AfterOrigin(t, AsWritten)[0] == r
    ensures First(t) == r
  {
    hide AfterOrigin, PreferExternal, Survivors, First;
    SurvivorIsMinimal(t, len, r);
    var o := AfterOrigin(t, AsWritten);
    OriginMembers(t, AsWritten);
    WithinAddresses(o, t, len);
    if |o| > 1 { ExternalHead(o); }
    LeaderIsChosen(t, len, r, r);
  }

  // An unbeaten path that comes first is chosen.
  lemma UnbeatenFirst(s: seq<Path>, len: nat, r: Path) returns (t: seq<Path>)
    requires Comparable(s, len) && r in s && Unbeaten(CASCADE_KEYS, r, s)
    ensures SameBag(s, t) && t != [] && First(t) == r
  {
    hide Survivors, AfterAs, First, Lags, Beats;
    UnbeatenMeans(s, len, r);
    t := GoodOrder(s, len, r);
    HaveAddresses(t, len);
    SurvivorsAreUnbeaten(t, AsWritten, len);
    SameUnbeaten(s, t, r, CASCADE_KEYS);
    assert r in multiset(t);
    assert r in multiset(Survivors(t, AsWritten));
    OriginHead(t, len, r);
    HeadIsChosen(t, len, r);
  }

  lemma OriginHead(t: seq<Path>, len: nat, r: Path)
    requires Comparable(t, len) && OriginSettled(t, AsWritten) && t[0] == r && Unbeaten(CASCADE_KEYS, r, t)
    ensures AfterOrigin(t, AsWritten) != [] && AfterOrigin(t, AsWritten)[0] == r
  {
    hide AfterAs, Lags, Beats, AfterOrigin, OriginSettled;
    UnbeatenMeans(t, len, r);
    LowestMeans(t, len, r);
    AfterAsHead(t, len, 1);
    var a := AfterAs(t);
    assert a[0] == a[..1][0] == t[..1][0] == r;
    MinimalDoesNotLag(a, r);
    SettledHead(t, 1);
    assert AfterOrigin(t, AsWritten)[0] == AfterOrigin(t, AsWritten)[..1][0] == a[..1][0];
  }

  // Paths of the lowest origin that the origin stage is given first come out first.
  lemma SettledHead(t: seq<Path>, k: nat)
    requires 1 <= k <= |AfterAs(t)| && forall i :: 0 <= i < k ==> IsMinimal(AfterAs(t)[i], AfterAs(t), OriginKey)
    ensures |AfterOrigin(t, AsWritten)| >= k && AfterOrigin(t, AsWritten)[..k] == AfterAs(t)[..k]
  {
    hide AfterAs, KeepBest;
    var a := AfterAs(t);
    if |a| > 1 {
      UnresetStageExact(a, OriginKey, ORIGIN_LIMIT);
      FilterHead(a, |a|, k, Least(a, OriginKey));
    }
  }

  // The choice is the same in every order if the line is harmless and one path is unbeaten, and only if one is. Without
  // late ties it is also only if the line is harmless.
  lemma ChoiceIgnoresOrder(s: seq<Path>, len: nat)
    requires Comparable(s, len)
    ensures s != []
    ensures LineHarmless(s) && OneIsUnbeaten(s) ==> forall t :: SameBag(s, t) ==> SameChoice(t, s)
    ensures NoLateTies(s) ==> ((forall t :: SameBag(s, t) ==> SameChoice(t, s)) <==> LineHarmless(s) && OneIsUnbeaten(s))
    ensures (forall t :: SameBag(s, t) ==> SameChoice(t, s)) ==> OneIsUnbeaten(s)
  {
    hide Comparable, LineHarmless, Survivors, AfterAs, Unbeaten, Lags, Lowest, First, NoLateTies, OriginSettled, SameBag;
    HaveAddresses(s, len);
    if LineHarmless(s) && OneIsUnbeaten(s) {
      forall t | SameBag(s, t) ensures SameChoice(t, s) { HarmlessChoice(s, t, len); }
    } else if !OneIsUnbeaten(s) {
      TwoChoices(s, len);
    } else if NoLateTies(s) {
      var t, w := HurtfulOrder(s, len);
      HaveAddresses(t, len);
      HurtfulChoice(s, t, len, w);
      LowestMeans(s, len, w);
      var u := GoodOrder(s, len, Lowest(s)[0]);
      HaveAddresses(u, len);
      ChoiceSurvives(u);
      assert !(SameChoice(t, s) && SameChoice(u, s));
    }
  }

  lemma TwoChoices(s: seq<Path>, len: nat)
    requires Comparable(s, len) && !OneIsUnbeaten(s)
    ensures s != [] && exists t :: SameBag(s, t) && !SameChoice(t, s)
  {
    hide Comparable, Unbeaten, First, SameBag;
    HaveAddresses(s, len);
    var p, q :| p in s && q in s && Unbeaten(CASCADE_KEYS, p, s) && Unbeaten(CASCADE_KEYS, q, s) && p != q;
    var t := UnbeatenFirst(s, len, p);
    var u := UnbeatenFirst(s, len, q);
    assert !SameChoice(t, s) || !SameChoice(u, s);
  }

  lemma HarmlessChoice(s: seq<Path>, t: seq<Path>, len: nat)
    requires Comparable(s, len) && LineHarmless(s) && OneIsUnbeaten(s) && SameBag(s, t)
    ensures s != [] && SameChoice(t, s)
  {
    hide Comparable, LineHarmless, Survivors, AfterAs, Unbeaten, First, SameBag;
    HaveAddresses(s, len);
    SameAfterAs(s, t, len);
    HaveAddresses(t, len);
    ChoiceSurvives(s);
    ChoiceSurvives(t);
    HarmlessIsRight(s, t, len, First(t));
    assert SameBag(s, s) by { hide *; Itself(s); }
    HarmlessIsRight(s, s, len, First(s));
  }

  lemma Itself(s: seq<Path>)
    ensures SameBag(s, s)
  {
  }

  // While the line is harmless, no candidate is better than the path chosen, in whatever order they come.
  lemma BestIsChosen(s: seq<Path>, t: seq<Path>, len: nat)
    requires Comparable(s, len) && LineHarmless(s) && SameBag(s, t)
    ensures t != [] && NoneBetter(First(t), s)
  {
    hide Comparable, LineHarmless, Survivors, AfterAs, Unbeaten, First, SameBag, NoneBetter;
    HaveAddresses(s, len);
    SameAfterAs(s, t, len);
    HaveAddresses(t, len);
    ChoiceSurvives(t);
    HarmlessIsRight(s, t, len, First(t));
    UnbeatenIsBest(First(t), s, len);
  }

  // When a laggard survives and does not tie, a laggard is chosen.
  lemma HurtfulChoice(s: seq<Path>, t: seq<Path>, len: nat, w: Path)
    requires Comparable(s, len) && Comparable(t, len) && SameBag(AfterAs(s), AfterAs(t)) && NoLateTies(s)
    requires w in Survivors(t, AsWritten) && w in AfterAs(s) && Lags(w, multiset(AfterAs(s)))
    ensures t != [] && !Unbeaten(CASCADE_KEYS, First(t), s)
  {
    hide Comparable, Survivors, AfterAs, Unbeaten, First, Lags, Lowest, AfterOrigin, Beats;
    HaveAddresses(t, len);
    ChoiceSurvives(t);
    var c := First(t);
    SurvivorMeans(t, AsWritten, len, c);
    SurvivorMeans(t, AsWritten, len, w);
    LeftMeans(t, len, c);
    SameMembers(AfterAs(s), AfterAs(t), c);
    LowestMeans(s, len, c);
    NeitherBeats(AfterOrigin(t, AsWritten), c, w);
    assert Lags(c, multiset(AfterAs(s)));
    LaggardIsBeaten(s, len, c);
  }

  lemma NeitherBeats(left: seq<Path>, p: Path, q: Path)
    requires p in left && q in left && Unbeaten(LATE_KEYS, p, left) && Unbeaten(LATE_KEYS, q, left)
    ensures !Beats(LATE_KEYS, p, q) && !Beats(LATE_KEYS, q, p)
  {
  }

  // ---------- addresses of several lengths ----------

  ghost predicate OneLength(s: seq<Path>) {
    forall i, j :: 0 <= i < |s| && 0 <= j < |s| ==> |AddressOf(s[i])| == |AddressOf(s[j])|
  }

  ghost predicate AllTie(s: seq<Path>) {
    forall i, j :: 0 <= i < |s| && 0 <= j < |s| ==> CompareAddress(AddressOf(s[i]), AddressOf(s[j])) == 0
  }

  ghost function TiesWith(q: Path): Path -> bool { p => CompareAddress(AddressOf(p), AddressOf(q)) == 0 }

  // One more candidate, which does not beat the first one.
  lemma FirstStaysStep(t: seq<Path>, n: nat)
    requires 1 < n <= |t| && LowestAddressTo(t, n - 1).kept[0] == t[0]
    requires CompareAddress(AddressOf(t[n - 1]), AddressOf(t[0])) >= 0
    ensures LowestAddressTo(t, n).kept
            == LowestAddressTo(t, n - 1).kept + if TiesWith(t[0])(t[n - 1]) then [t[n - 1]] else []
  {
    hide CompareAddress, AddressOf, FilterTo;
  }

  lemma FilterLast(t: seq<Path>, n: nat, keep: Path -> bool)
    requires 0 < n <= |t|
    ensures FilterTo(t, n, keep) == FilterTo(t, n - 1, keep) + if keep(t[n - 1]) then [t[n - 1]] else []
    ensures n == 1 ==> FilterTo(t, 0, keep) == []
  {
  }

  // Nothing beats the first candidate: the stage keeps what ties with it.
  lemma {:induction false} FirstStays(t: seq<Path>, n: nat)
    requires 0 < n <= |t| && forall i :: 0 <= i < n ==> CompareAddress(AddressOf(t[i]), AddressOf(t[0])) >= 0
    ensures LowestAddressTo(t, n).kept == FilterTo(t, n, TiesWith(t[0])) && LowestAddressTo(t, n).kept[0] == t[0]
  {
    FilterLast(t, n, TiesWith(t[0]));
    if n > 1 {
      hide CompareAddress, AddressOf, FilterTo, LowestAddressTo, TiesWith;
      FirstStays(t, n - 1);
      FirstStaysStep(t, n);
    } else {
      hide CompareAddress, AddressOf, FilterTo;
      CompareAddressIsNumeric(AddressOf(t[0]), AddressOf(t[0]));
      assert LowestAddressTo(t, 1).kept == [t[0]];
    }
  }

  lemma KeptFromFirst(t: seq<Path>, p: Path)
    requires t != [] && p in t && forall i :: 0 <= i < |t| ==> CompareAddress(AddressOf(t[i]), AddressOf(t[0])) >= 0
    ensures p in LowestAddress(t).kept <==> TiesWith(t[0])(p)
  {
    FirstStays(t, |t|);
    FilterCounts(t, |t|, TiesWith(t[0]), p);
    assert t[..|t|] == t && p in multiset(t);
    assert p in LowestAddress(t).kept <==> p in multiset(LowestAddress(t).kept);
  }

  lemma {:induction false} LowestOfLength(bag: multiset<Path>, x: Path) returns (r: Path)
    requires x in bag
    ensures r in bag && |AddressOf(r)| == |AddressOf(x)|
    ensures forall y :: y in bag ==> CompareAddress(AddressOf(y), AddressOf(r)) >= 0
    decreases AddressKey(x)
  {
    if y :| y in bag && CompareAddress(AddressOf(y), AddressOf(x)) < 0 {
      CompareAddressIsNumeric(AddressOf(y), AddressOf(x));
      r := LowestOfLength(bag, y);
    } else {
      r := x;
    }
  }

  // An order that starts with one of the lowest address among those of its length.
  lemma StartWith(s: seq<Path>, r: Path, p: Path) returns (t: seq<Path>)
    requires r in s && p in s && forall y :: y in multiset(s) ==> CompareAddress(AddressOf(y), AddressOf(r)) >= 0
    ensures SameBag(s, t) && (p in LowestAddress(t).kept <==> TiesWith(r)(p))
  {
    assert r in multiset(s);
    var rest := SomeOrder(multiset(s) - multiset{r});
    t := [r] + rest;
    forall i | 0 <= i < |t| ensures CompareAddress(AddressOf(t[i]), AddressOf(t[0])) >= 0 { assert t[i] in multiset(t); }
    SameMembers(s, t, p);
    KeptFromFirst(t, p);
  }

  ghost predicate SameLowest(s: seq<Path>, t: seq<Path>) { SameBag(LowestAddress(s).kept, LowestAddress(t).kept) }

  // Of two different addresses of one length, one is above the lowest of that length.
  lemma AboveLowest(s: seq<Path>) returns (hi: Path, lo: Path)
    requires !AllTie(s)
    ensures hi in s && lo in s && !TiesWith(lo)(hi) && |AddressOf(hi)| == |AddressOf(lo)|
    ensures forall y :: y in multiset(s) ==> CompareAddress(AddressOf(y), AddressOf(lo)) >= 0
  {
    var i, j :| 0 <= i < |s| && 0 <= j < |s| && CompareAddress(AddressOf(s[i]), AddressOf(s[j])) != 0;
    assert s[i] in multiset(s) && s[j] in multiset(s);
    lo := LowestOfLength(multiset(s), s[i]);
    CompareAddressIsNumeric(AddressOf(s[i]), AddressOf(s[j]));
    CompareAddressIsNumeric(AddressOf(s[i]), AddressOf(lo));
    CompareAddressIsNumeric(AddressOf(s[j]), AddressOf(lo));
    hi := if AddressKey(s[i]) > AddressKey(lo) then s[i] else s[j];
  }

  lemma OtherLowest(s: seq<Path>, p: Path) returns (q: Path)
    requires !OneLength(s)
    ensures q in s && TiesWith(q)(p)
    ensures forall y :: y in multiset(s) ==> CompareAddress(AddressOf(y), AddressOf(q)) >= 0
  {
    OtherLength(s, p);
    var u :| 0 <= u < |s| && |AddressOf(s[u])| != |AddressOf(p)|;
    assert s[u] in multiset(s);
    q := LowestOfLength(multiset(s), s[u]);
  }

  // Two lengths, and two different addresses of one of them: the last stage depends on who sits in slot 0.
  lemma LengthsDecide(s: seq<Path>) returns (t: seq<Path>)
    requires !OneLength(s) && !AllTie(s)
    ensures SameBag(s, t) && !SameLowest(s, t)
  {
    hide OneLength, AllTie, LowestAddress, SameBag, TiesWith, CompareAddress, AddressOf;
    var hi, lo := AboveLowest(s);
    var q := OtherLowest(s, hi);
    var t1 := StartWith(s, q, hi);
    var t2 := StartWith(s, lo, hi);
    if SameLowest(s, t1) && SameLowest(s, t2) {
      SameMembers(LowestAddress(s).kept, LowestAddress(t1).kept, hi);
      SameMembers(LowestAddress(s).kept, LowestAddress(t2).kept, hi);
    }
    t := if SameLowest(s, t1) then t2 else t1;
  }

  lemma OtherLength(s: seq<Path>, p: Path)
    requires !OneLength(s)
    ensures exists u :: 0 <= u < |s| && |AddressOf(s[u])| != |AddressOf(p)|
  {
  }

  // The last stage keeps the same candidates in every order if and only if all addresses have one length or no two of
  // them compare as different.
  lemma AddressStageIgnoresOrder(s: seq<Path>)
    requires forall i :: 0 <= i < |s| ==> s[i].neighbor.Some?
    ensures (forall t :: SameBag(s, t) ==> SameLowest(s, t)) <==> OneLength(s) || AllTie(s)
  {
    hide SameLowest, SameBag, LowestAddress;
    if OneLength(s) || AllTie(s) {
      forall t | SameBag(s, t) ensures SameLowest(s, t) { EasyOrder(s, t); }
    } else {
      var t := LengthsDecide(s);
    }
  }

  lemma EasyOrder(s: seq<Path>, t: seq<Path>)
    requires SameBag(s, t) && (OneLength(s) || AllTie(s)) && forall i :: 0 <= i < |s| ==> s[i].neighbor.Some?
    ensures SameLowest(s, t)
  {
    if s == [] {
      assert |multiset(t)| == |multiset(s)|;
    } else {
      forall i | 0 <= i < |t| ensures t[i] in s { SameMembers(s, t, t[i]); }
      assert |t| == |multiset(t)| == |s|;
      if OneLength(s) {
        var len := |AddressOf(s[0])|;
        LowestAddressSelects(s, len);
        LowestAddressSelects(t, len);
        SameSelection(s, t, LowestAddress(s).kept, LowestAddress(t).kept, AddressKey);
      } else {
        AllKept(s);
        AllKept(t);
      }
    }
  }

  lemma AllKept(s: seq<Path>)
    requires s != [] && AllTie(s)
    ensures LowestAddress(s).kept == s
  {
    FirstStays(s, |s|);
    FilterAll(s, |s|, TiesWith(s[0]));
    assert s[..|s|] == s;
  }
}
