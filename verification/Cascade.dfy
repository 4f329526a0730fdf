/** The whole cascade (calculateBestPath in bgp/rib/destination.go): which candidates survive, and which ones
  * tied at the multi-path point.
  *
  * Choosing the additional paths to advertise (addAddPaths) is not part of this model; the pruned lists it reads are,
  * but for the candidates of worse sources that the caller puts in front.
  */
module Cascade {
  import opened Paths
  import opened Stages

  // ---------- the cascade as a function ----------

  // A stage runs only while more than one candidate is left.
  function AfterPref(s: seq<Path>): seq<Path> {
    if |s| > 1 then KeepBest(s, PrefKey, 0, ToOne) else s
  }

  function AfterAs(s: seq<Path>): seq<Path> {
    var t := AfterPref(s);
    if |t| > 1 then KeepBest(t, AsKey, AS_LIMIT, ToOne) else t
  }

  function AfterOrigin(s: seq<Path>, reset: Reset): seq<Path> {
    var t := AfterAs(s);
    if |t| > 1 then KeepBest(t, OriginKey, ORIGIN_LIMIT, reset) else t
  }

  function AfterExternal(s: seq<Path>, reset: Reset): seq<Path> {
    var t := AfterOrigin(s, reset);
    if |t| > 1 then PreferExternal(t).kept else t
  }

  function AfterBgpId(s: seq<Path>, reset: Reset): seq<Path> {
    var t := AfterExternal(s, reset);
    if |t| > 1 then KeepBest(t, BgpIdKey, MAX_UINT32, ToOne) else t
  }

  function AfterClusters(s: seq<Path>, reset: Reset): seq<Path> {
    var t := AfterBgpId(s, reset);
    if |t| > 1 then KeepBest(t, ClusterKey, MAX_UINT16, ToOne) else t
  }

  function Survivors(s: seq<Path>, reset: Reset): seq<Path> {
    var t := AfterClusters(s, reset);
    if |t| > 1 then LowestAddress(t).kept else t
  }

  // The candidates that share the load: those tied after the origin stage when both kinds of multi-path are on,
  // those tied after the external stage when only the kind of the first of them is.
  function TiedForEcmp(s: seq<Path>, reset: Reset, ebgp: bool, ibgp: bool): seq<Path> {
    if |AfterOrigin(s, reset)| > 1 && ebgp && ibgp then AfterOrigin(s, reset)
    else
      var t := AfterExternal(s, reset);
      if |t| > 1 && ebgp != ibgp && ((ebgp && t[0].IsExternal()) || (ibgp && t[0].IsInternal())) then t else []
  }

  // ---------- what each stage sets aside ----------

  function PrunedByPref(s: seq<Path>): seq<Path> { if |s| > 1 then ScanAll(s, PrefKey, 0, ToOne).removed else [] }

  function PrunedByAs(s: seq<Path>): seq<Path> {
    var t := AfterPref(s);
    if |t| > 1 then ScanAll(t, AsKey, AS_LIMIT, ToOne).removed else []
  }

  function PrunedByOrigin(s: seq<Path>, reset: Reset): seq<Path> {
    var t := AfterAs(s);
    if |t| > 1 then ScanAll(t, OriginKey, ORIGIN_LIMIT, reset).removed else []
  }

  function PrunedByExternal(s: seq<Path>, reset: Reset): seq<Path> {
    var t := AfterOrigin(s, reset);
    if |t| > 1 then PreferExternal(t).removed else []
  }

  function PrunedByBgpId(s: seq<Path>, reset: Reset): seq<Path> {
    var t := AfterExternal(s, reset);
    if |t| > 1 then ScanAll(t, BgpIdKey, MAX_UINT32, ToOne).removed else []
  }

  function PrunedByClusters(s: seq<Path>, reset: Reset): seq<Path> {
    var t := AfterBgpId(s, reset);
    if |t| > 1 then ScanAll(t, ClusterKey, MAX_UINT16, ToOne).removed else []
  }

  function PrunedByAddress(s: seq<Path>, reset: Reset): seq<Path> {
    var t := AfterClusters(s, reset);
    if |t| > 1 then LowestAddress(t).removed else []
  }

  // A stage that sets nothing aside adds no list.
  function AddPruned(lists: seq<seq<Path>>, removed: seq<Path>): seq<seq<Path>> {
    if removed == [] then lists else lists + [removed]
  }

  function PrunedEarly(s: seq<Path>, reset: Reset): seq<seq<Path>> {
    AddPruned(AddPruned(AddPruned(AddPruned([], PrunedByPref(s)), PrunedByAs(s)), PrunedByOrigin(s, reset)),
              PrunedByExternal(s, reset))
  }

  function Pruned(s: seq<Path>, reset: Reset): seq<seq<Path>> {
    AddPruned(AddPruned(AddPruned(PrunedEarly(s, reset), PrunedByBgpId(s, reset)), PrunedByClusters(s, reset)),
              PrunedByAddress(s, reset))
  }

  function Flat(lists: seq<seq<Path>>): seq<Path> {
    if lists == [] then [] else Flat(lists[..|lists| - 1]) + lists[|lists| - 1]
  }

  lemma FlatAdd(lists: seq<seq<Path>>, removed: seq<Path>)
    ensures Flat(AddPruned(lists, removed)) == Flat(lists) + removed
  {
    assert (lists + [removed])[..|lists|] == lists;
  }

  // ---------- survivors are candidates, and tied candidates contain the survivors ----------

  ghost predicate Within(r: seq<Path>, s: seq<Path>) { forall k :: 0 <= k < |r| ==> r[k] in s }

  lemma OriginMembers(s: seq<Path>, reset: Reset)
    requires s != []
    ensures AfterOrigin(s, reset) != [] && Within(AfterOrigin(s, reset), s)
  {
    KeepBestMembers(s, PrefKey, 0, ToOne);
    KeepBestMembers(AfterPref(s), AsKey, AS_LIMIT, ToOne);
    var t := AfterAs(s);
    assert Within(t, s);
    KeepBestMembers(t, OriginKey, ORIGIN_LIMIT, reset);
  }

  lemma ExternalMembers(s: seq<Path>, reset: Reset)
    requires s != []
    ensures AfterExternal(s, reset) != [] && Within(AfterExternal(s, reset), AfterOrigin(s, reset))
    ensures Within(AfterExternal(s, reset), s)
  {
    OriginMembers(s, reset);
    PreferExternalMembers(AfterOrigin(s, reset));
  }

  lemma ClustersMembers(s: seq<Path>, reset: Reset)
    requires s != []
    ensures AfterClusters(s, reset) != [] && Within(AfterClusters(s, reset), AfterExternal(s, reset))
    ensures Within(AfterClusters(s, reset), s)
  {
    ExternalMembers(s, reset);
    KeepBestMembers(AfterExternal(s, reset), BgpIdKey, MAX_UINT32, ToOne);
    KeepBestMembers(AfterBgpId(s, reset), ClusterKey, MAX_UINT16, ToOne);
    assert Within(AfterBgpId(s, reset), AfterExternal(s, reset));
  }

  lemma CascadeMembers(s: seq<Path>, reset: Reset, ebgp: bool, ibgp: bool)
    requires s != []
    ensures Survivors(s, reset) != [] && Within(Survivors(s, reset), s)
    ensures var tied := TiedForEcmp(s, reset, ebgp, ibgp);
            Within(tied, s) && (tied != [] ==> Within(Survivors(s, reset), tied))
  {
    OriginMembers(s, reset);
    ExternalMembers(s, reset);
    ClustersMembers(s, reset);
    LowestAddressMembers(AfterClusters(s, reset));
    assert Within(Survivors(s, reset), AfterExternal(s, reset));
  }

  // ---------- the order the cascade is for ----------

  const CASCADE_KEYS: seq<Key> := [PrefKey, AsKey, OriginKey, InternalKey, BgpIdKey, ClusterKey, AddressKey]

  // The keys compared after the origin.
  const LATE_KEYS: seq<Key> := [InternalKey, BgpIdKey, ClusterKey, AddressKey]

  // p beats q: smaller in the first key in which they differ.
  predicate Beats(keys: seq<Key>, p: Path, q: Path) {
    keys != [] &&
    (keys[0](p) < keys[0](q) || (keys[0](p) == keys[0](q) && Beats(keys[1..], p, q)))
  }

  ghost predicate Unbeaten(keys: seq<Key>, p: Path, s: seq<Path>) {
    forall i :: 0 <= i < |s| ==> !Beats(keys, s[i], p)
  }

  ghost function Optimal(keys: seq<Key>, s: seq<Path>): Path -> bool { p => Unbeaten(keys, p, s) }

  lemma Occurs(p: Path, s: seq<Path>)
    ensures multiset(s)[p] > 0 <==> exists i :: 0 <= i < |s| && s[i] == p
  {
    assert p in multiset(s) <==> p in s;
  }

  // Taking the minima of the first key and then the unbeaten ones under the rest is taking the unbeaten ones under all.
  lemma Refine(s: seq<Path>, t: seq<Path>, out: seq<Path>, keys: seq<Key>)
    requires keys != [] && Selects(t, s, Least(s, keys[0])) && Selects(out, t, Optimal(keys[1..], t))
    ensures Selects(out, s, Optimal(keys, s))
  {
    forall p ensures multiset(out)[p] == if Unbeaten(keys, p, s) then multiset(s)[p] else 0 {
      if multiset(s)[p] > 0 {
        if IsMinimal(p, s, keys[0]) {
          RefineOne(s, t, p, keys);
        } else {
          var i :| 0 <= i < |s| && keys[0](s[i]) < keys[0](p);
          assert Beats(keys, s[i], p);
        }
      }
    }
  }

  lemma RefineOne(s: seq<Path>, t: seq<Path>, p: Path, keys: seq<Key>)
    requires keys != [] && Selects(t, s, Least(s, keys[0])) && IsMinimal(p, s, keys[0]) && multiset(s)[p] > 0
    ensures Unbeaten(keys[1..], p, t) <==> Unbeaten(keys, p, s)
  {
    Occurs(p, s);
    if Unbeaten(keys[1..], p, t) {
      forall i | 0 <= i < |s| ensures !Beats(keys, s[i], p) {
        var q := s[i];
        if keys[0](q) == keys[0](p) {
          assert IsMinimal(q, s, keys[0]);
          Occurs(q, s);
          Occurs(q, t);
        }
      }
    }
    if Unbeaten(keys, p, s) {
      forall i | 0 <= i < |t| ensures !Beats(keys[1..], t[i], p) {
        var q := t[i];
        Occurs(q, t);
        Occurs(q, s);
        assert Least(s, keys[0])(q);
      }
    }
  }

  lemma SelectsAll(s: seq<Path>)
    ensures Selects(s, s, Optimal([], s))
  {
  }

  // A stage that is skipped because at most one candidate is left selects the minima just as well.
  lemma FewAreMinimal(s: seq<Path>, key: Key)
    requires |s| <= 1
    ensures Selects(s, s, Least(s, key))
  {
    forall p ensures multiset(s)[p] == if IsMinimal(p, s, key) then multiset(s)[p] else 0 {
      Occurs(p, s);
    }
  }

  lemma StageSelects(s: seq<Path>, key: Key, limit: int)
    requires s != [] && exists i :: 0 <= i < |s| && key(s[i]) <= limit
    ensures Selects(if |s| > 1 then KeepBest(s, key, limit, ToOne) else s, s, Least(s, key))
  {
    if |s| > 1 {
      FilterStageExact(s, key, limit);
      MinimaSelects(s, key);
    } else {
      FewAreMinimal(s, key);
    }
  }

  lemma WithinAddresses(r: seq<Path>, s: seq<Path>, len: nat)
    requires Within(r, s) && AddressesOf(s, len)
    ensures AddressesOf(r, len)
  {
    forall k | 0 <= k < |r| ensures r[k].neighbor.Some? && |r[k].neighbor.value.address| == len { assert r[k] in s; }
  }

  // What the cascade needs of its candidates to compute the order it is for.
  // The AS stage needs one candidate within its bound, the last stage addresses of one length.
  ghost predicate Comparable(s: seq<Path>, len: nat) {
    && s != [] && AddressesOf(s, len)
    && exists i :: 0 <= i < |AfterPref(s)| && AsKey(AfterPref(s)[i]) <= AS_LIMIT
  }

  // The origin stage meets its purpose: line 743 is repaired, or there is nothing to reset.
  ghost predicate OriginSettled(s: seq<Path>, reset: Reset) {
    reset.ToOne? || |AfterAs(s)| <= 1 || FirstIsLowest(AfterAs(s), OriginKey)
  }

  lemma OriginSelects(s: seq<Path>, reset: Reset)
    requires AfterAs(s) != [] && OriginSettled(s, reset)
    ensures Selects(AfterOrigin(s, reset), AfterAs(s), Least(AfterAs(s), OriginKey))
  {
    var t := AfterAs(s);
    if |t| > 1 {
      UnresetStageExact(t, OriginKey, ORIGIN_LIMIT);
      assert OriginKey(t[0]) <= ORIGIN_LIMIT;
      FilterStageExact(t, OriginKey, ORIGIN_LIMIT);
      MinimaSelects(t, OriginKey);
    } else {
      FewAreMinimal(t, OriginKey);
    }
  }

  lemma PrefSelects(s: seq<Path>)
    requires s != []
    ensures Selects(AfterPref(s), s, Least(s, PrefKey)) && AfterPref(s) != []
  {
    assert PrefKey(s[0]) <= 0;
    StageSelects(s, PrefKey, 0);
    KeepBestMembers(s, PrefKey, 0, ToOne);
  }

  lemma AsSelects(s: seq<Path>)
    requires exists i :: 0 <= i < |AfterPref(s)| && AsKey(AfterPref(s)[i]) <= AS_LIMIT
    ensures Selects(AfterAs(s), AfterPref(s), Least(AfterPref(s), AsKey)) && AfterAs(s) != []
  {
    StageSelects(AfterPref(s), AsKey, AS_LIMIT);
    KeepBestMembers(AfterPref(s), AsKey, AS_LIMIT, ToOne);
  }

  lemma ExternalSelects(s: seq<Path>, reset: Reset, len: nat)
    requires s != [] && AddressesOf(s, len)
    ensures Selects(AfterExternal(s, reset), AfterOrigin(s, reset), Least(AfterOrigin(s, reset), InternalKey))
  {
    OriginMembers(s, reset);
    var t := AfterOrigin(s, reset);
    WithinAddresses(t, s, len);
    if |t| > 1 { PreferExternalSelects(t); } else { FewAreMinimal(t, InternalKey); }
  }

  lemma BgpIdSelects(s: seq<Path>, reset: Reset)
    requires s != []
    ensures Selects(AfterBgpId(s, reset), AfterExternal(s, reset), Least(AfterExternal(s, reset), BgpIdKey))
    ensures AfterBgpId(s, reset) != []
  {
    ExternalMembers(s, reset);
    var t := AfterExternal(s, reset);
    assert BgpIdKey(t[0]) <= MAX_UINT32;
    StageSelects(t, BgpIdKey, MAX_UINT32);
    KeepBestMembers(t, BgpIdKey, MAX_UINT32, ToOne);
  }

  lemma ClustersSelects(s: seq<Path>, reset: Reset)
    requires s != []
    ensures Selects(AfterClusters(s, reset), AfterBgpId(s, reset), Least(AfterBgpId(s, reset), ClusterKey))
  {
    BgpIdSelects(s, reset);
    var t := AfterBgpId(s, reset);
    assert ClusterKey(t[0]) <= MAX_UINT16;
    StageSelects(t, ClusterKey, MAX_UINT16);
  }

  lemma AddressSelects(s: seq<Path>, reset: Reset, len: nat)
    requires s != [] && AddressesOf(s, len)
    ensures Selects(Survivors(s, reset), AfterClusters(s, reset), Least(AfterClusters(s, reset), AddressKey))
  {
    ClustersMembers(s, reset);
    var t := AfterClusters(s, reset);
    WithinAddresses(t, s, len);
    if |t| > 1 { LowestAddressSelects(t, len); } else { FewAreMinimal(t, AddressKey); }
  }

  // One link: t holds the minima of s under a key, and `out` the unbeaten ones of t under the rest.
  lemma Link(s: seq<Path>, t: seq<Path>, out: seq<Path>, key: Key, rest: seq<Key>) returns (keys: seq<Key>)
    requires Selects(t, s, Least(s, key)) && Selects(out, t, Optimal(rest, t))
    ensures keys == [key] + rest && Selects(out, s, Optimal(keys, s))
  {
    keys := [key] + rest;
    assert keys[0] == key && keys[1..] == rest;
    Refine(s, t, out, keys);
  }

  // The cascade leaves exactly the candidates no other one beats, each as often as given.
  lemma SurvivorsAreUnbeaten(s: seq<Path>, reset: Reset, len: nat)
    requires Comparable(s, len) && OriginSettled(s, reset)
    ensures Selects(Survivors(s, reset), s, Optimal(CASCADE_KEYS, s))
  {
    PrefSelects(s);
    AsSelects(s);
    OriginSelects(s, reset);
    ExternalSelects(s, reset, len);
    BgpIdSelects(s, reset);
    ClustersSelects(s, reset);
    AddressSelects(s, reset, len);
    SevenStages(s, AfterPref(s), AfterAs(s), AfterOrigin(s, reset), AfterExternal(s, reset),
                AfterBgpId(s, reset), AfterClusters(s, reset), Survivors(s, reset));
  }

  lemma SevenStages(s0: seq<Path>, s1: seq<Path>, s2: seq<Path>, s3: seq<Path>, s4: seq<Path>, s5: seq<Path>, s6: seq<Path>,
                    s7: seq<Path>)
    requires Selects(s1, s0, Least(s0, PrefKey)) && Selects(s2, s1, Least(s1, AsKey))
    requires Selects(s3, s2, Least(s2, OriginKey)) && Selects(s4, s3, Least(s3, InternalKey))
    requires Selects(s5, s4, Least(s4, BgpIdKey)) && Selects(s6, s5, Least(s5, ClusterKey))
    requires Selects(s7, s6, Least(s6, AddressKey))
    ensures Selects(s7, s0, Optimal(CASCADE_KEYS, s0))
  {
    SelectsAll(s7);
    var keys := Link(s6, s7, s7, AddressKey, []);
    keys := Link(s5, s6, s7, ClusterKey, keys);
    keys := Link(s4, s5, s7, BgpIdKey, keys);
    keys := Link(s3, s4, s7, InternalKey, keys);
    keys := Link(s2, s3, s7, OriginKey, keys);
    keys := Link(s1, s2, s7, AsKey, keys);
    keys := Link(s0, s1, s7, PrefKey, keys);
    assert keys == CASCADE_KEYS;
  }

  // So two orders of the same candidates leave the same survivors. Module CascadeOrder says when all orders do.
  lemma SettledOrdersAgree(s: seq<Path>, t: seq<Path>, reset: Reset, len: nat)
    requires multiset(s) == multiset(t)
    requires Comparable(s, len) && OriginSettled(s, reset) && Comparable(t, len) && OriginSettled(t, reset)
    ensures multiset(Survivors(s, reset)) == multiset(Survivors(t, reset))
  {
    SurvivorsAreUnbeaten(s, reset, len);
    SurvivorsAreUnbeaten(t, reset, len);
    forall p ensures multiset(Survivors(s, reset))[p] == multiset(Survivors(t, reset))[p] {
      assert Unbeaten(CASCADE_KEYS, p, s) == Unbeaten(CASCADE_KEYS, p, t) by {
        forall i | 0 <= i < |s| ensures s[i] in t { assert s[i] in multiset(t); }
        forall i | 0 <= i < |t| ensures t[i] in s { assert t[i] in multiset(s); }
      }
    }
  }

  // ---------- nothing is lost ----------

  // The AS stage has a candidate within its bound, or nothing to compare.
  ghost predicate AsReached(s: seq<Path>) {
    |AfterPref(s)| <= 1 || exists i :: 0 <= i < |AfterPref(s)| && AsKey(AfterPref(s)[i]) <= AS_LIMIT
  }

  lemma NothingSetAside(s: seq<Path>)
    ensures Accounts(s, [], s, true)
  {
  }

  lemma ReachableStageAccounts(s: seq<Path>, key: Key, limit: int)
    requires s != [] && key(s[0]) <= limit
    ensures Accounts(s, if |s| > 1 then ScanAll(s, key, limit, ToOne).removed else [],
                     if |s| > 1 then KeepBest(s, key, limit, ToOne) else s, true)
  {
    if |s| > 1 { FilterStageAccounts(s, key, limit); } else { NothingSetAside(s); }
  }

  lemma AsStageAccounts(s: seq<Path>)
    requires AfterPref(s) != []
    ensures Accounts(AfterPref(s), PrunedByAs(s), AfterAs(s), AsReached(s))
  {
    if |AfterPref(s)| > 1 { FilterStageAccounts(AfterPref(s), AsKey, AS_LIMIT); } else { NothingSetAside(AfterPref(s)); }
  }

  lemma OriginStageAccounts(s: seq<Path>, reset: Reset)
    requires AfterAs(s) != []
    ensures Accounts(AfterAs(s), PrunedByOrigin(s, reset), AfterOrigin(s, reset), OriginSettled(s, reset))
  {
    var t := AfterAs(s);
    assert OriginKey(t[0]) <= ORIGIN_LIMIT;
    if |t| <= 1 {
      NothingSetAside(t);
    } else if reset.ToOne? {
      FilterStageAccounts(t, OriginKey, ORIGIN_LIMIT);
    } else {
      UnresetStageAccounts(t, OriginKey, ORIGIN_LIMIT);
    }
  }

  lemma ExternalStageAccounts(s: seq<Path>, reset: Reset)
    ensures Accounts(AfterOrigin(s, reset), PrunedByExternal(s, reset), AfterExternal(s, reset), true)
  {
    var t := AfterOrigin(s, reset);
    if |t| > 1 && exists i :: 0 <= i < |t| && t[i].IsExternal() {
      forall p ensures (multiset(PreferExternal(t).removed) + multiset(PreferExternal(t).kept))[p] == multiset(t)[p] {
        DropInternalCounts(t, p);
      }
    }
  }

  lemma AddressStageAccounts(s: seq<Path>, reset: Reset)
    ensures Accounts(AfterClusters(s, reset), PrunedByAddress(s, reset), Survivors(s, reset), true)
  {
    var t := AfterClusters(s, reset);
    if |t| > 1 {
      LowestAddressConserves(t, |t|);
      assert t[..|t|] == t;
    }
  }

  lemma FlatPruned(s: seq<Path>, reset: Reset)
    ensures Flat(Pruned(s, reset)) == PrunedByPref(s) + PrunedByAs(s) + PrunedByOrigin(s, reset) + PrunedByExternal(s, reset)
                                      + PrunedByBgpId(s, reset) + PrunedByClusters(s, reset) + PrunedByAddress(s, reset)
  {
    hide AddPruned, PrunedByPref, PrunedByAs, PrunedByOrigin, PrunedByExternal, PrunedByBgpId, PrunedByClusters,
      PrunedByAddress;
    var l1 := AddPruned([], PrunedByPref(s));
    FlatAdd([], PrunedByPref(s));
    var l2 := AddPruned(l1, PrunedByAs(s));
    FlatAdd(l1, PrunedByAs(s));
    var l3 := AddPruned(l2, PrunedByOrigin(s, reset));
    FlatAdd(l2, PrunedByOrigin(s, reset));
    var l4 := AddPruned(l3, PrunedByExternal(s, reset));
    FlatAdd(l3, PrunedByExternal(s, reset));
    var l5 := AddPruned(l4, PrunedByBgpId(s, reset));
    FlatAdd(l4, PrunedByBgpId(s, reset));
    var l6 := AddPruned(l5, PrunedByClusters(s, reset));
    FlatAdd(l5, PrunedByClusters(s, reset));
    FlatAdd(l6, PrunedByAddress(s, reset));
  }

  lemma CascadeAccounts(s: seq<Path>, reset: Reset)
    requires s != []
    ensures Accounts(s, Flat(Pruned(s, reset)), Survivors(s, reset), AsReached(s) && OriginSettled(s, reset))
  {
    hide Accounts, AfterPref, AfterAs, AfterOrigin, AfterExternal, AfterBgpId, AfterClusters, Survivors,
      OriginSettled, AsReached;
    hide PrunedByPref, PrunedByAs, PrunedByOrigin, PrunedByExternal, PrunedByBgpId, PrunedByClusters, PrunedByAddress,
      Pruned, Flat;
    var ok, settled := AsReached(s), OriginSettled(s, reset);
    FilledStages(s, reset);
    var r := PrunedByPref(s);
    AsStageAccounts(s);
    ChainAccounts(s, r, AfterPref(s), true, PrunedByAs(s), AfterAs(s), ok);
    r := r + PrunedByAs(s);
    OriginStageAccounts(s, reset);
    ChainAccounts(s, r, AfterAs(s), ok, PrunedByOrigin(s, reset), AfterOrigin(s, reset), settled);
    r := r + PrunedByOrigin(s, reset);
    ExternalStageAccounts(s, reset);
    ChainAccounts(s, r, AfterOrigin(s, reset), ok && settled, PrunedByExternal(s, reset), AfterExternal(s, reset), true);
    r := r + PrunedByExternal(s, reset);
    ChainAccounts(s, r, AfterExternal(s, reset), ok && settled, PrunedByBgpId(s, reset), AfterBgpId(s, reset), true);
    r := r + PrunedByBgpId(s, reset);
    ChainAccounts(s, r, AfterBgpId(s, reset), ok && settled, PrunedByClusters(s, reset), AfterClusters(s, reset), true);
    r := r + PrunedByClusters(s, reset);
    AddressStageAccounts(s, reset);
    ChainAccounts(s, r, AfterClusters(s, reset), ok && settled, PrunedByAddress(s, reset), Survivors(s, reset), true);
    FlatPruned(s, reset);
  }

  // The stages between which the bound is always reached.
  lemma FilledStages(s: seq<Path>, reset: Reset)
    requires s != []
    ensures AfterPref(s) != [] && AfterAs(s) != []
    ensures Accounts(s, PrunedByPref(s), AfterPref(s), true)
    ensures Accounts(AfterExternal(s, reset), PrunedByBgpId(s, reset), AfterBgpId(s, reset), true)
    ensures Accounts(AfterBgpId(s, reset), PrunedByClusters(s, reset), AfterClusters(s, reset), true)
  {
    hide Accounts, AfterExternal, AfterOrigin;
    assert PrefKey(s[0]) <= 0;
    ReachableStageAccounts(s, PrefKey, 0);
    KeepBestMembers(s, PrefKey, 0, ToOne);
    KeepBestMembers(AfterPref(s), AsKey, AS_LIMIT, ToOne);
    ExternalMembers(s, reset);
    var t := AfterExternal(s, reset);
    assert BgpIdKey(t[0]) <= MAX_UINT32;
    ReachableStageAccounts(t, BgpIdKey, MAX_UINT32);
    KeepBestMembers(t, BgpIdKey, MAX_UINT32, ToOne);
    var u := AfterBgpId(s, reset);
    assert ClusterKey(u[0]) <= MAX_UINT16;
    ReachableStageAccounts(u, ClusterKey, MAX_UINT16);
  }

  // The survivors and all that was set aside are the candidates, each as often as given, if and only if some candidate
  // is within the bound of the AS stage and the origin stage has nothing to reset. Otherwise there are more of them.
  lemma NothingIsLost(s: seq<Path>, reset: Reset)
    requires s != []
    ensures multiset(Flat(Pruned(s, reset))) + multiset(Survivors(s, reset)) == multiset(s) <==>
            AsReached(s) && OriginSettled(s, reset)
    ensures |Flat(Pruned(s, reset))| + |Survivors(s, reset)| >= |s|
  {
    hide Flat, Pruned, Survivors, AsReached, OriginSettled;
    CascadeAccounts(s, reset);
    if multiset(Flat(Pruned(s, reset))) + multiset(Survivors(s, reset)) == multiset(s) {
      SameBagSameSize(s, Flat(Pruned(s, reset)), Survivors(s, reset));
    }
  }

  // ---------- where the code does not meet its purpose ----------

  function Candidate(id: nat, origin: Origin, bgpId: uint32, address: seq<byte>): Path {
    Path(id, 100, 1, origin, Some(Neighbor(true, address)), bgpId, 0, RouteEGP, "10.1.1.1")
  }

  // When all keys agree a stage keeps the list as it is.
  lemma {:induction false} ScanTied(s: seq<Path>, key: Key, best: int, i: nat)
    requires i <= |s| && forall k :: 0 <= k < |s| ==> key(s[k]) == best
    ensures ScanFrom(Scan(s, i, best, []), i, key, ToOne) == Scan(s, |s|, best, [])
    decreases |s| - i
  {
    if i < |s| {
      assert s[i := s[i]] == s;
      ScanTied(s, key, best, i + 1);
    }
  }

  lemma StageTied(s: seq<Path>, key: Key, limit: int, best: int)
    requires s != [] && best <= limit && forall k :: 0 <= k < |s| ==> key(s[k]) == best
    ensures KeepBest(s, key, limit, ToOne) == s
  {
    assert s[0 := s[0]] == s && [] + s[..0] == [];
    assert ScanStep(Scan(s, 0, limit, []), 0, key, ToOne) == Scan(s, 1, best, []);
    ScanTied(s, key, best, 1);
    assert s[..|s|] == s;
  }

  // Origins 2, 1, 0 in this order: the list after the origin stage still holds the second candidate and the winner
  // twice, and the second candidate then wins on its BGP identifier although the third beats it. Offered first,
  // the third candidate wins, so with the line as written the outcome depends on the order of the candidates.
  lemma UnresetIndexPicksABeatenPath(p: Path, q: Path, r: Path)
    requires p == Candidate(0, 2, 5, [10, 0, 0, 1]) && q == Candidate(1, 1, 1, [10, 0, 0, 2])
    requires r == Candidate(2, 0, 5, [10, 0, 0, 3])
    ensures AfterOrigin([p, q, r], AsWritten) == [r, q, r]
    ensures Survivors([p, q, r], AsWritten) == [q] && Beats(CASCADE_KEYS, r, q)
    ensures Survivors([r, q, p], AsWritten) == [r]
  {
    AfterUnresetOrigin(p, q, r);
    PreferExternalKeeps([r, q, r]);
    assert AfterExternal([p, q, r], AsWritten) == [r, q, r];
    LowestIdScan(q, r);
    assert AfterBgpId([p, q, r], AsWritten) == [q];
    assert CASCADE_KEYS[1..][1..][0] == OriginKey;
  }

  lemma AfterUnresetOrigin(p: Path, q: Path, r: Path)
    requires p == Candidate(0, 2, 5, [10, 0, 0, 1]) && q == Candidate(1, 1, 1, [10, 0, 0, 2])
    requires r == Candidate(2, 0, 5, [10, 0, 0, 3])
    ensures AfterOrigin([p, q, r], AsWritten) == [r, q, r] && AfterOrigin([r, q, p], AsWritten) == [r]
  {
    SamePrefAndLength([p, q, r]);
    SamePrefAndLength([r, q, p]);
    UnresetScan(p, q, r);
  }

  lemma SamePrefAndLength(s: seq<Path>)
    requires |s| > 1 && forall k :: 0 <= k < |s| ==> s[k].pref == 100 && s[k].numASes == 1
    ensures AfterAs(s) == s
  {
    StageTied(s, PrefKey, 0, -100);
    StageTied(s, AsKey, AS_LIMIT, 1);
  }

  lemma UnresetScan(p: Path, q: Path, r: Path)
    requires OriginKey(p) == 2 && OriginKey(q) == 1 && OriginKey(r) == 0
    ensures KeepBest([p, q, r], OriginKey, ORIGIN_LIMIT, AsWritten) == [r, q, r]
    ensures KeepBest([r, q, p], OriginKey, ORIGIN_LIMIT, AsWritten) == [r]
  {
    var s0 := Scan([p, q, r], 0, ORIGIN_LIMIT, []);
    var s1 := ScanStep(s0, 0, OriginKey, AsWritten);
    var s2 := ScanStep(s1, 1, OriginKey, AsWritten);
    var s3 := ScanStep(s2, 2, OriginKey, AsWritten);
    assert s3.slots == [r, q, r] && s3.kept == 3;
    assert ScanFrom(s0, 0, OriginKey, AsWritten) == ScanFrom(s2, 2, OriginKey, AsWritten) == s3;
    var t0 := Scan([r, q, p], 0, ORIGIN_LIMIT, []);
    var t1 := ScanStep(t0, 0, OriginKey, AsWritten);
    var t2 := ScanStep(t1, 1, OriginKey, AsWritten);
    var t3 := ScanStep(t2, 2, OriginKey, AsWritten);
    assert t3.slots == [r, q, p] && t3.kept == 1;
    assert ScanFrom(t0, 0, OriginKey, AsWritten) == ScanFrom(t2, 2, OriginKey, AsWritten) == t3;
  }

  lemma LowestIdScan(q: Path, r: Path)
    requires BgpIdKey(q) == 1 && BgpIdKey(r) == 5
    ensures KeepBest([r, q, r], BgpIdKey, MAX_UINT32, ToOne) == [q]
  {
    var s0 := Scan([r, q, r], 0, MAX_UINT32, []);
    var s1 := ScanStep(s0, 0, BgpIdKey, ToOne);
    var s2 := ScanStep(s1, 1, BgpIdKey, ToOne);
    var s3 := ScanStep(s2, 2, BgpIdKey, ToOne);
    assert s3.slots == [q, q, r] && s3.kept == 1;
    assert ScanFrom(s0, 0, BgpIdKey, ToOne) == ScanFrom(s2, 2, BgpIdKey, ToOne) == s3;
  }

  lemma {:induction false} SweepExternal(st: Sweep)
    requires st.i <= st.last == |st.slots| && forall k :: 0 <= k < |st.slots| ==> !st.slots[k].IsInternal()
    ensures SweepFrom(st) == st.(i := st.last)
    decreases st.last - st.i
  {
    if st.i < st.last { SweepExternal(SweepStep(st)); }
  }

  lemma PreferExternalKeeps(s: seq<Path>)
    requires forall k :: 0 <= k < |s| ==> !s[k].IsInternal()
    ensures PreferExternal(s).kept == s
  {
    SweepExternal(Sweep(s, 0, |s|, []));
    assert s[..|s|] == s;
  }

  // Of addresses of 4 and of 16 octets, whoever sits in slot 0 decides which are compared at all. Neighbour addresses
  // all have 16 (bgp/server/server.go:2281, bgp/rpc/listener.go:813). Module CascadeOrder says when order matters.
  lemma MixedAddressLengthsDependOnOrder(p: Path, q: Path, r: Path)
    requires |AddressOf(p)| == |AddressOf(r)| == 4 && |AddressOf(q)| == 16 && AddressKey(r) < AddressKey(p)
    ensures LowestAddress([q, p, r]).kept == [q, p, r]
    ensures LowestAddress([p, q, r]).kept == [r]
  {
    CompareAddressIsNumeric(AddressOf(r), AddressOf(p));
    var s, t := [q, p, r], [p, q, r];
    assert LowestAddressTo(s, 2).kept == [q, p];
    assert LowestAddressTo(t, 2).kept == [p, q];
  }
}
