/** The order that the cascade is for, in terms of the attributes of the candidates (section 9.1.2.2 of RFC 4271), and what
  * the cascade keeps and what shares the load in these terms. The other modules speak of the keys that the stages compare.
  */
module Preference {
  import opened Paths
  import opened Stages
  import opened Cascade

  // ---------- the order ----------

  // The first octet in which they differ is smaller in a.
  ghost predicate LowerAddress(a: seq<byte>, b: seq<byte>) {
    exists i :: 0 <= i < |a| && i < |b| && a[..i] == b[..i] && a[i] < b[i]
  }

  // Learned from an external peer rather than an internal one; else the lower BGP identifier of the peer; else the
  // shorter cluster list; else the lower peer address.
  ghost predicate BetterLate(p: Path, q: Path) {
    p.neighbor.Some? && q.neighbor.Some? &&
    var n, m := p.neighbor.value, q.neighbor.value;
    (n.external && !m.external) ||
    (n.external == m.external &&
     (p.bgpId < q.bgpId ||
      (p.bgpId == q.bgpId &&
       (p.numClusters < q.numClusters || (p.numClusters == q.numClusters && LowerAddress(n.address, m.address))))))
  }

  // The higher preference; else fewer ASes; else the lower origin.
  predicate BetterEarly(p: Path, q: Path) {
    p.pref > q.pref ||
    (p.pref == q.pref && (p.numASes < q.numASes || (p.numASes == q.numASes && p.origin < q.origin)))
  }

  predicate EqualEarly(p: Path, q: Path) { p.pref == q.pref && p.numASes == q.numASes && p.origin == q.origin }

  ghost predicate Better(p: Path, q: Path) { BetterEarly(p, q) || (EqualEarly(p, q) && BetterLate(p, q)) }

  // No candidate is better than p.
  ghost predicate NoneBetter(p: Path, s: seq<Path>) { forall q :: q in s ==> !Better(q, p) }

  lemma LowerIsNumeric(a: seq<byte>, b: seq<byte>)
    requires |a| == |b|
    ensures LowerAddress(a, b) <==> AddressValue(a) < AddressValue(b)
  {
    if i :| 0 <= i < |a| && a[..i] == b[..i] && a[i] < b[i] { FirstDifferenceDecides(a, b, i); }
    if AddressValue(a) < AddressValue(b) { SomewhereLower(a, b); }
  }

  lemma {:induction false} SomewhereLower(a: seq<byte>, b: seq<byte>)
    requires |a| == |b| && AddressValue(a) < AddressValue(b)
    ensures LowerAddress(a, b)
  {
    var n := |a| - 1;
    if AddressValue(a[..n]) < AddressValue(b[..n]) {
      SomewhereLower(a[..n], b[..n]);
      var i :| 0 <= i < n && a[..n][..i] == b[..n][..i] && a[..n][i] < b[..n][i];
      assert a[..i] == a[..n][..i] && b[..i] == b[..n][..i];
    } else {
      SameValue(a[..n], b[..n]);
    }
  }

  lemma {:induction false} SameValue(a: seq<byte>, b: seq<byte>)
    requires |a| == |b| && AddressValue(a) == AddressValue(b)
    ensures a == b
  {
    if a != [] {
      var n := |a| - 1;
      SameValue(a[..n], b[..n]);
      assert a == a[..n] + [a[n]] && b == b[..n] + [b[n]];
    }
  }

  lemma BeatsStep(key: Key, rest: seq<Key>, p: Path, q: Path)
    ensures Beats([key] + rest, p, q) <==> key(p) < key(q) || (key(p) == key(q) && Beats(rest, p, q))
  {
    assert ([key] + rest)[1..] == rest;
  }

  lemma BeatsLast(key: Key, p: Path, q: Path)
    ensures Beats([key], p, q) <==> key(p) < key(q)
  {
  }

  lemma BeatsLate(p: Path, q: Path)
    requires p.neighbor.Some? && q.neighbor.Some? && |p.neighbor.value.address| == |q.neighbor.value.address|
    ensures Beats(LATE_KEYS, p, q) <==> BetterLate(p, q)
  {
    hide Beats;
    LowerIsNumeric(p.neighbor.value.address, q.neighbor.value.address);
    BeatsLast(AddressKey, p, q);
    BeatsStep(ClusterKey, [AddressKey], p, q);
    BeatsStep(BgpIdKey, [ClusterKey] + [AddressKey], p, q);
    BeatsStep(InternalKey, [BgpIdKey] + ([ClusterKey] + [AddressKey]), p, q);
    assert LATE_KEYS == [InternalKey] + ([BgpIdKey] + ([ClusterKey] + [AddressKey]));
  }

  // Of two candidates whose neighbours have addresses of one length, one beats the other if it is the better one.
  lemma BeatsIsBetter(p: Path, q: Path)
    requires p.neighbor.Some? && q.neighbor.Some? && |p.neighbor.value.address| == |q.neighbor.value.address|
    ensures Beats(CASCADE_KEYS, p, q) <==> Better(p, q)
  {
    hide Beats, BetterLate;
    BeatsLate(p, q);
    BeatsStep(OriginKey, LATE_KEYS, p, q);
    BeatsStep(AsKey, [OriginKey] + LATE_KEYS, p, q);
    BeatsStep(PrefKey, [AsKey] + ([OriginKey] + LATE_KEYS), p, q);
    assert CASCADE_KEYS == [PrefKey] + ([AsKey] + ([OriginKey] + LATE_KEYS));
  }

  // So the unbeaten candidates are the best ones.
  lemma UnbeatenIsBest(p: Path, s: seq<Path>, len: nat)
    requires AddressesOf(s, len) && p in s
    ensures Unbeaten(CASCADE_KEYS, p, s) <==> NoneBetter(p, s)
  {
    hide Beats, Better;
    forall q | q in s ensures Beats(CASCADE_KEYS, q, p) <==> Better(q, p) { BeatsIsBetter(q, p); }
  }

  // ---------- the candidates that the origin stage is given ----------

  // No candidate has a higher preference.
  ghost predicate Preferred(p: Path, s: seq<Path>) { forall q :: q in s ==> p.pref >= q.pref }

  // None has a higher preference, and none of the same preference has fewer ASes.
  ghost predicate Contends(p: Path, s: seq<Path>) {
    forall q :: q in s ==> p.pref > q.pref || (p.pref == q.pref && p.numASes <= q.numASes)
  }

  // Some candidate of the highest preference is within the bound at line 684 of bgp/rib/destination.go.
  ghost predicate ShortEnough(s: seq<Path>) { exists p :: p in s && Preferred(p, s) && p.numASes <= 4096 }

  ghost predicate FirstContender(s: seq<Path>, i: int) {
    0 <= i < |s| && Contends(s[i], s) && forall j :: 0 <= j < i ==> !Contends(s[j], s)
  }

  // The first contender has the lowest origin of all of them.
  ghost predicate LowestFirst(s: seq<Path>) {
    exists i :: FirstContender(s, i) && forall q :: q in s && Contends(q, s) ==> s[i].origin <= q.origin
  }

  lemma {:induction false} FirstOfFilter(s: seq<Path>, keep: Path -> bool) returns (i: nat)
    requires Filter(s, keep) != []
    ensures i < |s| && keep(s[i]) && Filter(s, keep)[0] == s[i] && forall j :: 0 <= j < i ==> !keep(s[j])
  {
    var t, x := s[..|s| - 1], s[|s| - 1];
    assert s == t + [x];
    FilterAppend(t, x, keep);
    if Filter(t, keep) != [] {
      i := FirstOfFilter(t, keep);
    } else {
      i := |t|;
      forall j | 0 <= j < i ensures !keep(s[j]) {
        assert s[j] == t[j];
        FilterMembers(t, keep, t[j]);
      }
    }
  }

  lemma AfterPrefMeans(s: seq<Path>)
    requires s != []
    ensures AfterPref(s) == Minima(s, PrefKey) && forall p :: p in AfterPref(s) <==> p in s && Preferred(p, s)
  {
    assert PrefKey(s[0]) <= 0;
    StageIsFilter(s, PrefKey, 0);
    forall p ensures p in AfterPref(s) <==> p in s && Preferred(p, s) {
      FilterMembers(s, Least(s, PrefKey), p);
      if Preferred(p, s) { assert IsMinimal(p, s, PrefKey); }
    }
  }

  ghost function Contending(s: seq<Path>): Path -> bool { p => Contends(p, s) }

  lemma AfterAsIsMinima(s: seq<Path>)
    requires ShortEnough(s)
    ensures AfterAs(s) == Minima(AfterPref(s), AsKey) && AfterAs(s) != []
    ensures exists w :: w in AfterPref(s)
  {
    hide Filter;
    AfterPrefMeans(s);
    var t := AfterPref(s);
    var p :| p in s && Preferred(p, s) && p.numASes <= 4096;
    var k :| 0 <= k < |t| && t[k] == p;
    assert AsKey(t[k]) <= AS_LIMIT;
    StageIsFilter(t, AsKey, AS_LIMIT);
    KeepBestMembers(t, AsKey, AS_LIMIT, ToOne);
    assert p in AfterPref(s);
  }

  // It is given the contenders, in the order in which they come.
  lemma AfterAsMeans(s: seq<Path>)
    requires ShortEnough(s)
    ensures AfterAs(s) == Filter(s, Contending(s)) && AfterAs(s) != []
  {
    hide AfterPref, AfterAs, Filter, ShortEnough, Preferred, Contends, IsMinimal;
    AfterAsIsMinima(s);
    var t := AfterPref(s);
    var w :| w in t;
    AfterPrefMeans(s) by { NotEmpty(s); }
    var f, g := Least(s, PrefKey), Least(t, AsKey);
    FilterFilter(s, f, g);
    forall i | 0 <= i < |s| ensures Both(f, g)(s[i]) == Contending(s)(s[i]) { ContenderIsLeast(s, t, s[i], w); }
    FilterSame(s, Both(f, g), Contending(s));
  }

  lemma NotEmpty(s: seq<Path>)
    requires ShortEnough(s)
    ensures s != []
  {
  }

  lemma ContenderIsLeast(s: seq<Path>, t: seq<Path>, x: Path, w: Path)
    requires x in s && (forall p :: p in t <==> p in s && Preferred(p, s)) && w in t
    ensures IsMinimal(x, s, PrefKey) && IsMinimal(x, t, AsKey) <==> Contends(x, s)
  {
    if Contends(x, s) {
      forall i | 0 <= i < |t| ensures AsKey(x) <= AsKey(t[i]) { assert t[i] in t; }
    }
    if IsMinimal(x, s, PrefKey) && IsMinimal(x, t, AsKey) {
      forall q | q in s ensures x.pref > q.pref || (x.pref == q.pref && x.numASes <= q.numASes) {
        var i :| 0 <= i < |s| && s[i] == q;
        assert PrefKey(x) <= PrefKey(s[i]);
        if x.pref == q.pref {
          assert Preferred(q, s);
          var j :| 0 <= j < |t| && t[j] == q;
        }
      }
    }
  }

  // As written, the origin stage does what it is for if and only if the first contender has the lowest origin.
  lemma SettledMeans(s: seq<Path>, reset: Reset)
    requires ShortEnough(s)
    ensures OriginSettled(s, reset) <==> reset.ToOne? || LowestFirst(s)
  {
    hide AfterAs, Filter, ShortEnough, Contends;
    AfterAsMeans(s);
    var a := AfterAs(s);
    FirstIsContender(s, a);
    if |a| <= 1 { assert FirstIsLowest(a, OriginKey); }
  }

  lemma FirstIsContender(s: seq<Path>, a: seq<Path>)
    requires a == Filter(s, Contending(s)) && a != []
    ensures FirstIsLowest(a, OriginKey) <==> LowestFirst(s)
  {
    hide Contends, Filter;
    var i := FirstOfFilter(s, Contending(s));
    assert FirstContender(s, i);
    forall q ensures q in a <==> q in s && Contends(q, s) { FilterMembers(s, Contending(s), q); }
    if LowestFirst(s) {
      var j :| FirstContender(s, j) && forall q :: q in s && Contends(q, s) ==> s[j].origin <= q.origin;
      assert i == j;
    }
    if FirstIsLowest(a, OriginKey) {
      forall q | q in s && Contends(q, s) ensures s[i].origin <= q.origin { var k :| 0 <= k < |a| && a[k] == q; }
    }
  }

  // ---------- what the cascade keeps ----------

  // The cascade leaves exactly the best candidates, each as often as given.
  lemma SurvivorsAreLexMinima(s: seq<Path>, reset: Reset, len: nat)
    requires AddressesOf(s, len) && ShortEnough(s) && (reset.ToOne? || LowestFirst(s))
    ensures forall p :: multiset(Survivors(s, reset))[p] == if NoneBetter(p, s) then multiset(s)[p] else 0
  {
    hide Survivors, Unbeaten, NoneBetter, LowestFirst, OriginSettled;
    SettledMeans(s, reset);
    IsComparable(s, len);
    SurvivorsAreUnbeaten(s, reset, len);
    forall p ensures multiset(Survivors(s, reset))[p] == if NoneBetter(p, s) then multiset(s)[p] else 0 {
      assert p in s <==> p in multiset(s);
      if p in s { UnbeatenIsBest(p, s, len); }
    }
  }

  lemma IsComparable(s: seq<Path>, len: nat)
    ensures Comparable(s, len) <==> AddressesOf(s, len) && ShortEnough(s)
  {
    hide AddressesOf;
    if s != [] {
      AfterPrefMeans(s);
      if Comparable(s, len) {
        var i :| 0 <= i < |AfterPref(s)| && AsKey(AfterPref(s)[i]) <= AS_LIMIT;
        assert AfterPref(s)[i] in s;
      }
      if ShortEnough(s) {
        var p :| p in s && Preferred(p, s) && p.numASes <= 4096;
        var i :| 0 <= i < |AfterPref(s)| && AfterPref(s)[i] == p;
        assert AsKey(AfterPref(s)[i]) <= AS_LIMIT;
      }
    }
  }

  // ---------- what shares the load ----------

  // No candidate is better in preference, number of ASes or origin.
  ghost predicate Level(p: Path, s: seq<Path>) { forall q :: q in s ==> !BetterEarly(q, p) }

  // With both kinds of multi-path on, all level candidates share; with external multi-path, the external ones among them;
  // with internal multi-path, all of them if none is external.
  ghost predicate MayShare(p: Path, s: seq<Path>, ebgp: bool, ibgp: bool) {
    Level(p, s) &&
    ((ebgp && ibgp) || (ebgp && p.neighbor.Some? && p.neighbor.value.external) ||
     (ibgp && forall q :: q in s && Level(q, s) ==> q.neighbor.Some? && !q.neighbor.value.external))
  }

  ghost predicate TwoMayShare(s: seq<Path>, ebgp: bool, ibgp: bool) {
    exists i, j :: 0 <= i < j < |s| && MayShare(s[i], s, ebgp, ibgp) && MayShare(s[j], s, ebgp, ibgp)
  }

  const EARLY_KEYS: seq<Key> := [PrefKey, AsKey, OriginKey]

  lemma BeatsEarly(p: Path, q: Path)
    ensures Beats(EARLY_KEYS, p, q) <==> BetterEarly(p, q)
  {
    hide Beats;
    BeatsLast(OriginKey, p, q);
    BeatsStep(AsKey, [OriginKey], p, q);
    BeatsStep(PrefKey, [AsKey] + [OriginKey], p, q);
    assert EARLY_KEYS == [PrefKey] + ([AsKey] + [OriginKey]);
  }

  ghost function Levels(s: seq<Path>): Path -> bool { p => Level(p, s) }

  lemma LevelIsUnbeaten(p: Path, s: seq<Path>)
    ensures Unbeaten(EARLY_KEYS, p, s) <==> Level(p, s)
  {
    hide Beats, BetterEarly;
    forall q ensures Beats(EARLY_KEYS, q, p) <==> BetterEarly(q, p) { BeatsEarly(q, p); }
  }

  // The origin stage leaves the level candidates.
  lemma OriginKeepsLevel(s: seq<Path>, reset: Reset)
    requires ShortEnough(s) && (reset.ToOne? || LowestFirst(s))
    ensures Selects(AfterOrigin(s, reset), s, Levels(s)) && AfterOrigin(s, reset) != []
  {
    hide AfterPref, AfterAs, AfterOrigin, Selects, Least, Optimal, Level, OriginSettled, LowestFirst;
    SettledMeans(s, reset);
    AfterAsIsMinima(s);
    NotEmpty(s);
    OriginMembers(s, reset);
    PrefSelects(s);
    SelectsAs(s);
    OriginSelects(s, reset);
    var o := AfterOrigin(s, reset);
    SelectsAll(o);
    var keys := Link(AfterAs(s), o, o, OriginKey, []);
    keys := Link(AfterPref(s), AfterAs(s), o, AsKey, keys);
    keys := Link(s, AfterPref(s), o, PrefKey, keys);
    assert keys == EARLY_KEYS;
    SelectsLevel(s, o);
  }

  lemma SelectsAs(s: seq<Path>)
    requires ShortEnough(s)
    ensures Selects(AfterAs(s), AfterPref(s), Least(AfterPref(s), AsKey))
  {
    hide Selects;
    AfterAsIsMinima(s);
    MinimaSelects(AfterPref(s), AsKey);
  }

  lemma SelectsLevel(s: seq<Path>, o: seq<Path>)
    requires Selects(o, s, Optimal(EARLY_KEYS, s))
    ensures Selects(o, s, Levels(s))
  {
    hide Unbeaten, Level;
    forall p ensures multiset(o)[p] == if Level(p, s) then multiset(s)[p] else 0 { LevelIsUnbeaten(p, s); }
  }

  ghost predicate SomeOne(s: seq<Path>, keep: Path -> bool) { exists i :: 0 <= i < |s| && keep(s[i]) }

  ghost predicate SomeTwo(s: seq<Path>, keep: Path -> bool) { exists i, j :: 0 <= i < j < |s| && keep(s[i]) && keep(s[j]) }

  lemma {:induction false} FilterSize(s: seq<Path>, keep: Path -> bool)
    ensures |Filter(s, keep)| > 0 <==> SomeOne(s, keep)
    ensures |Filter(s, keep)| > 1 <==> SomeTwo(s, keep)
  {
    if s != [] {
      var t, x := s[..|s| - 1], s[|s| - 1];
      assert s == t + [x];
      FilterAppend(t, x, keep);
      FilterSize(t, keep);
      OneMore(t, x, keep);
    }
  }

  lemma OneMore(t: seq<Path>, x: Path, keep: Path -> bool)
    ensures SomeOne(t + [x], keep) <==> SomeOne(t, keep) || keep(x)
    ensures SomeTwo(t + [x], keep) <==> SomeTwo(t, keep) || (SomeOne(t, keep) && keep(x))
  {
    var s := t + [x];
    if i :| 0 <= i < |t| && keep(t[i]) {
      assert keep(s[i]);
      if keep(x) { assert keep(s[i]) && keep(s[|t|]); }
    }
    if keep(x) { assert keep(s[|t|]); }
    if i, j :| 0 <= i < j < |t| && keep(t[i]) && keep(t[j]) { assert keep(s[i]) && keep(s[j]); }
    if i :| 0 <= i < |s| && keep(s[i]) { assert i < |t| ==> keep(t[i]); }
    if i, j :| 0 <= i < j < |s| && keep(s[i]) && keep(s[j]) { assert keep(t[i]) && (j < |t| ==> keep(t[j])); }
  }

  // As many are selected as there are places with such a candidate.
  lemma SelectsTwo(out: seq<Path>, s: seq<Path>, keep: Path -> bool)
    requires Selects(out, s, keep)
    ensures |out| > 1 <==> SomeTwo(s, keep)
  {
    hide SomeTwo;
    forall p ensures multiset(out)[p] == multiset(Filter(s, keep))[p] { FilterMembers(s, keep, p); }
    assert multiset(out) == multiset(Filter(s, keep));
    assert |multiset(out)| == |out| && |multiset(Filter(s, keep))| == |Filter(s, keep)|;
    FilterSize(s, keep);
  }

  // ---------- who shares, stage by stage ----------

  ghost predicate LevelExternal(s: seq<Path>) { exists q :: q in s && Level(q, s) && q.IsExternal() }

  ghost function LevelOutside(s: seq<Path>): Path -> bool { p => Level(p, s) && (p.IsExternal() || !LevelExternal(s)) }

  // The external stage leaves the level candidates that are external, or all of them if none is.
  lemma ExternalKeepsLevel(s: seq<Path>, reset: Reset, len: nat)
    requires AddressesOf(s, len) && ShortEnough(s) && (reset.ToOne? || LowestFirst(s))
    ensures Selects(AfterExternal(s, reset), s, LevelOutside(s)) && AfterExternal(s, reset) != []
  {
    hide AfterOrigin, AfterExternal, Level, LowestFirst, AddressesOf;
    OriginKeepsLevel(s, reset);
    NotEmpty(s);
    ExternalMembers(s, reset);
    ExternalSelects(s, reset, len);
    var o, x := AfterOrigin(s, reset), AfterExternal(s, reset);
    forall p ensures multiset(x)[p] == if LevelOutside(s)(p) then multiset(s)[p] else 0 {
      if p in multiset(o) { MinimalOutside(s, o, p); }
    }
  }

  lemma MinimalOutside(s: seq<Path>, o: seq<Path>, p: Path)
    requires Selects(o, s, Levels(s)) && p in multiset(o)
    ensures IsMinimal(p, o, InternalKey) <==> p.IsExternal() || !LevelExternal(s)
  {
    hide Level;
    forall q ensures q in o <==> q in s && Level(q, s) {
      assert q in o <==> q in multiset(o);
      assert q in s <==> q in multiset(s);
    }
    if i :| 0 <= i < |o| && InternalKey(o[i]) < InternalKey(p) { assert o[i] in o; }
    if q :| q in s && Level(q, s) && q.IsExternal() { var i :| 0 <= i < |o| && o[i] == q; }
  }

  ghost function Sharing(s: seq<Path>, ebgp: bool, ibgp: bool): Path -> bool { p => MayShare(p, s, ebgp, ibgp) }

  // With one kind of multi-path on, what the external stage leaves shares if it is of that kind.
  lemma SharingIsOutside(s: seq<Path>, ebgp: bool, ibgp: bool, len: nat)
    requires AddressesOf(s, len)
    ensures ebgp && ibgp ==> forall p :: MayShare(p, s, ebgp, ibgp) <==> Level(p, s)
    ensures ebgp != ibgp && ebgp == LevelExternal(s) ==>
              forall p :: p in s ==> (MayShare(p, s, ebgp, ibgp) <==> LevelOutside(s)(p))
    ensures (!ebgp && !ibgp) || (ebgp != ibgp && ebgp != LevelExternal(s)) ==>
              forall p :: p in s ==> !MayShare(p, s, ebgp, ibgp)
  {
    hide Level;
    forall q | q in s ensures q.neighbor.Some? { var i :| 0 <= i < |s| && s[i] == q; }
  }

  lemma SameSelected(out: seq<Path>, s: seq<Path>, f: Path -> bool, g: Path -> bool)
    requires Selects(out, s, f) && forall p :: p in s ==> f(p) == g(p)
    ensures Selects(out, s, g)
  {
    forall p ensures multiset(out)[p] == if g(p) then multiset(s)[p] else 0 { assert p in s <==> p in multiset(s); }
  }

  lemma NoneShare(s: seq<Path>, keep: Path -> bool)
    requires forall p :: p in s ==> !keep(p)
    ensures !SomeTwo(s, keep)
  {
  }

  // The first of what the external stage leaves is external if and only if a level candidate is.
  lemma HeadIsOutside(x: seq<Path>, s: seq<Path>, len: nat)
    requires AddressesOf(s, len) && Selects(x, s, LevelOutside(s)) && x != []
    ensures x[0].neighbor.Some? && (x[0].IsExternal() <==> LevelExternal(s))
  {
    hide Level;
    assert x[0] in multiset(x);
    assert x[0] in multiset(s);
    assert x[0] in s;
  }

  // Exactly those that may share do, each as often as given, if there are two of them.
  lemma SharersAreTied(s: seq<Path>, reset: Reset, len: nat, ebgp: bool, ibgp: bool)
    requires AddressesOf(s, len) && ShortEnough(s) && (reset.ToOne? || LowestFirst(s))
    ensures var tied := TiedForEcmp(s, reset, ebgp, ibgp);
            forall p :: multiset(tied)[p] ==
                        if TwoMayShare(s, ebgp, ibgp) && MayShare(p, s, ebgp, ibgp) then multiset(s)[p] else 0
  {
    hide AfterOrigin, AfterExternal, LevelOutside, LevelExternal, MayShare, LowestFirst, AddressesOf, SomeTwo;
    var o, x, keep := AfterOrigin(s, reset), AfterExternal(s, reset), Sharing(s, ebgp, ibgp);
    OriginKeepsLevel(s, reset);
    ExternalKeepsLevel(s, reset, len);
    HeadIsOutside(x, s, len);
    SharingIsOutside(s, ebgp, ibgp, len);
    if ebgp && ibgp {
      SameSelected(o, s, Levels(s), keep);
      SelectsTwo(o, s, keep);
    } else if ebgp != ibgp && ebgp == LevelExternal(s) {
      SameSelected(x, s, LevelOutside(s), keep);
      SelectsTwo(x, s, keep);
    } else {
      NoneShare(s, keep);
    }
    TwoAre(s, ebgp, ibgp);
  }

  lemma TwoAre(s: seq<Path>, ebgp: bool, ibgp: bool)
    ensures TwoMayShare(s, ebgp, ibgp) <==> SomeTwo(s, Sharing(s, ebgp, ibgp))
  {
    hide MayShare;
    if TwoMayShare(s, ebgp, ibgp) {
      var i, j :| 0 <= i < j < |s| && MayShare(s[i], s, ebgp, ibgp) && MayShare(s[j], s, ebgp, ibgp);
      assert Sharing(s, ebgp, ibgp)(s[i]) && Sharing(s, ebgp, ibgp)(s[j]);
    }
  }

  // ---------- what is lost ----------

  ghost function Preferring(s: seq<Path>): Path -> bool { p => Preferred(p, s) }

  lemma PrefSelectsPreferred(s: seq<Path>)
    requires s != []
    ensures AfterPref(s) != [] && Selects(AfterPref(s), s, Preferring(s))
  {
    hide Filter, Preferred, IsMinimal;
    AfterPrefMeans(s);
    KeepBestMembers(s, PrefKey, 0, ToOne);
    forall p ensures multiset(AfterPref(s))[p] == if Preferred(p, s) then multiset(s)[p] else 0 {
      FilterMembers(s, Least(s, PrefKey), p);
      assert p in s <==> p in multiset(s);
      assert p in AfterPref(s) <==> p in multiset(AfterPref(s));
    }
  }

  lemma ReachedMeans(s: seq<Path>)
    requires s != []
    ensures AsReached(s) <==> !SomeTwo(s, Preferring(s)) || ShortEnough(s)
  {
    hide AfterPref, SomeTwo;
    AfterPrefMeans(s);
    PrefSelectsPreferred(s);
    SelectsTwo(AfterPref(s), s, Preferring(s));
    var t := AfterPref(s);
    if i :| 0 <= i < |t| && AsKey(t[i]) <= AS_LIMIT { assert t[i] in t; }
    if p :| p in s && Preferred(p, s) && p.numASes <= 4096 {
      var i :| 0 <= i < |t| && t[i] == p;
      assert AsKey(t[i]) <= AS_LIMIT;
    }
  }

  // The survivors and all that was set aside are the candidates, each as often as given, if and only if one candidate
  // alone is preferred, or a preferred one is short enough and the first contender has the lowest origin.
  lemma LosesNothing(s: seq<Path>, reset: Reset)
    requires s != []
    ensures multiset(Flat(Pruned(s, reset))) + multiset(Survivors(s, reset)) == multiset(s) <==>
            !SomeTwo(s, Preferring(s)) || (ShortEnough(s) && (reset.ToOne? || LowestFirst(s)))
  {
    hide Flat, Pruned, Survivors, AfterAs, ShortEnough, LowestFirst, SomeTwo;
    NothingIsLost(s, reset);
    ReachedMeans(s);
    PrefSelectsPreferred(s);
    SelectsTwo(AfterPref(s), s, Preferring(s));
    if ShortEnough(s) { SettledMeans(s, reset); }
    if !SomeTwo(s, Preferring(s)) { AloneStays(s); }
  }

  lemma AloneStays(s: seq<Path>)
    requires |AfterPref(s)| <= 1
    ensures |AfterAs(s)| <= 1
  {
  }
}
