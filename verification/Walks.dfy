/** The loop over the stored paths that collects the candidates (bgp/rib/destination.go:463-503), as a walk: one peer after
  * another in any order, the paths of a peer in any order, and the path chosen before in front. The candidates that walks
  * yield are exactly the visits of module VisitOrder.
  */
module Walks {
  import opened Paths
  import opened Stages
  import opened Cascade
  import opened CascadeOrder
  import opened VisitOrder
  import opened Selection
  import Preference

  // The paths a walk considers, once each and peer by peer.
  ghost predicate Walk(order: seq<Path>, paths: set<Path>, peer: PeerOf) {
    Distinct(order) && Contiguous(order, peer) && forall p :: p in order <==> p in paths
  }

  function Beginning(chosen: Option<Path>): Best {
    if chosen.Some? then Best([chosen.value], SourceOf(chosen.value)) else Best([], SRC_UNKNOWN)
  }

  function Walked(b: Best, order: seq<Path>): Best {
    if order == [] then b else Consider(Walked(b, order[..|order| - 1]), order[|order| - 1])
  }

  lemma WalkedOne(b: Best, order: seq<Path>, p: Path)
    ensures Walked(b, order + [p]) == Consider(Walked(b, order), p)
  {
    assert (order + [p])[..|order|] == order;
  }

  lemma {:induction false} WalkedMore(b: Best, order: seq<Path>, more: seq<Path>)
    ensures Walked(b, order + more) == Walked(Walked(b, order), more)
  {
    if more == [] {
      assert order + more == order;
    } else {
      var v, x := more[..|more| - 1], more[|more| - 1];
      assert order + more == (order + v) + [x];
      WalkedOne(b, order + v, x);
      WalkedMore(b, order, v);
    }
  }

  // ---------- what a walk yields ----------

  ghost function Before(chosen: Option<Path>): seq<Path> { if chosen.Some? then [chosen.value] else [] }

  ghost function BySource(source: nat): Path -> bool { p => SourceOf(p) == source }

  lemma {:induction false} NoneOfSource(s: seq<Path>, source: nat)
    requires forall i :: 0 <= i < |s| ==> source < SourceOf(s[i])
    ensures Filter(s, BySource(source)) == []
  {
    if s != [] {
      assert s == s[..|s| - 1] + [s[|s| - 1]];
      FilterAppend(s[..|s| - 1], s[|s| - 1], BySource(source));
      NoneOfSource(s[..|s| - 1], source);
    }
  }

  // The paths of the best source, in the order they came.
  ghost predicate Yields(b: Best, all: seq<Path>) {
    && b.updated == Filter(all, BySource(b.source)) && (forall i :: 0 <= i < |all| ==> b.source <= SourceOf(all[i]))
    && (b.updated == [] ==> all == [] && b.source == SRC_UNKNOWN) && b.source <= SRC_UNKNOWN
  }

  lemma YieldsMore(b: Best, all: seq<Path>, x: Path)
    requires Yields(b, all)
    ensures Yields(Consider(b, x), all + [x])
  {
    hide Filter;
    FilterAppend(all, x, BySource(Consider(b, x).source));
    if SourceOf(x) < b.source { NoneOfSource(all, SourceOf(x)); }
  }

  lemma YieldsFirst(chosen: Option<Path>)
    ensures Yields(Beginning(chosen), Before(chosen))
  {
    if chosen.Some? {
      assert [chosen.value] == [] + [chosen.value];
      FilterAppend([], chosen.value, BySource(SourceOf(chosen.value)));
    }
    FilterNothing(BySource(Beginning(chosen).source));
  }

  lemma {:induction false} WalkedIs(chosen: Option<Path>, order: seq<Path>)
    ensures Yields(Walked(Beginning(chosen), order), Before(chosen) + order)
  {
    hide Yields, Consider, Beginning, Before;
    if order == [] {
      YieldsFirst(chosen);
      assert Before(chosen) + order == Before(chosen);
    } else {
      var v, x := order[..|order| - 1], order[|order| - 1];
      WalkedIs(chosen, v);
      assert Before(chosen) + order == Before(chosen) + v + [x];
      YieldsMore(Walked(Beginning(chosen), v), Before(chosen) + v, x);
    }
  }

  // The path chosen before, if its source is still the best.
  ghost function Head(chosen: Option<Path>, c: seq<Path>): seq<Path> {
    if chosen.Some? && chosen.value in c then [chosen.value] else []
  }

  lemma HeadMeans(chosen: Option<Path>, order: seq<Path>)
    requires Distinct(order) && (chosen.Some? ==> chosen.value !in order)
    ensures var b := Walked(Beginning(chosen), order);
            && Head(chosen, b.updated) == Filter(Before(chosen), BySource(b.source))
            && b.updated == Head(chosen, b.updated) + Filter(order, BySource(b.source))
            && (chosen.Some? ==> (chosen.value in b.updated <==> b.source == SourceOf(chosen.value)))
  {
    hide Filter, Walked;
    var b := Walked(Beginning(chosen), order);
    var k := BySource(b.source);
    WalkedIs(chosen, order);
    FilterConcat(Before(chosen), order, k);
    FilterNothing(k);
    if chosen.Some? {
      assert [chosen.value] == [] + [chosen.value];
      FilterAppend([], chosen.value, k);
      FilterMembers(order, k, chosen.value);
    }
  }

  lemma SameOrderBag(o1: seq<Path>, o2: seq<Path>)
    requires Distinct(o1) && Distinct(o2) && forall p :: p in o1 <==> p in o2
    ensures multiset(o1) == multiset(o2)
  {
    forall p ensures multiset(o1)[p] == multiset(o2)[p] {
      OnceEach(o1, p);
      OnceEach(o2, p);
      assert p in o1 <==> p in multiset(o1);
      assert p in o2 <==> p in multiset(o2);
    }
  }

  lemma SameSource(chosen: Option<Path>, o1: seq<Path>, o2: seq<Path>)
    requires forall p :: p in o1 <==> p in o2
    ensures Walked(Beginning(chosen), o1).source == Walked(Beginning(chosen), o2).source
  {
    WalkedIs(chosen, o1);
    WalkedIs(chosen, o2);
    Reaches(chosen, o1, o2);
    Reaches(chosen, o2, o1);
  }

  lemma Reaches(chosen: Option<Path>, o1: seq<Path>, o2: seq<Path>)
    requires forall p :: p in o1 <==> p in o2
    ensures Walked(Beginning(chosen), o1).source <= Walked(Beginning(chosen), o2).source
  {
    WalkedIs(chosen, o1);
    WalkedIs(chosen, o2);
    var b, all := Walked(Beginning(chosen), o2), Before(chosen) + o2;
    if b.updated != [] {
      FilterMembers(all, BySource(b.source), b.updated[0]);
      var p := b.updated[0];
      assert p in Before(chosen) + o1;
    }
  }

  // Every walk yields a visit of the same candidates.
  lemma WalkIsVisit(chosen: Option<Path>, paths: set<Path>, peer: PeerOf, order: seq<Path>, other: seq<Path>)
    requires Walk(order, paths, peer) && Walk(other, paths, peer) && (chosen.Some? ==> chosen.value !in paths)
    ensures var c, d := Walked(Beginning(chosen), order).updated, Walked(Beginning(chosen), other).updated;
            Visit(d, c, Head(chosen, c), peer)
  {
    hide Walked, Contiguous, Distinct, Filter;
    var b, e := Walked(Beginning(chosen), order), Walked(Beginning(chosen), other);
    var k := BySource(b.source);
    SameSource(chosen, order, other);
    HeadMeans(chosen, order);
    HeadMeans(chosen, other);
    SameOrderBag(order, other);
    forall p ensures multiset(Filter(order, k))[p] == multiset(Filter(other, k))[p] {
      FilterMembers(order, k, p);
      FilterMembers(other, k, p);
    }
    assert multiset(Filter(order, k)) == multiset(Filter(other, k));
    var head := Head(chosen, b.updated);
    FilterContiguous(other, k, peer);
    assert (head + Filter(other, k))[|head|..] == Filter(other, k);
    IsVisit(e.updated, b.updated, head, peer);
  }

  // ---------- every visit comes from a walk ----------

  // The paths still to come are of the last peer or of new ones.
  ghost predicate Ready(front: seq<Path>, todo: seq<Path>, rest: multiset<Path>, peer: PeerOf) {
    && Open(front, rest + multiset(todo), peer) && Contiguous(todo, peer)
    && (front != [] ==> forall k :: 0 <= k < |todo| && peer(todo[k]) == peer(front[|front| - 1]) ==>
          peer(todo[0]) == peer(front[|front| - 1]))
  }

  lemma ReadyNext(front: seq<Path>, todo: seq<Path>, rest: multiset<Path>, peer: PeerOf)
    requires Ready(front, todo, rest, peer) && todo != []
    requires front == [] || peer(todo[0]) == peer(front[|front| - 1]) ||
             forall q :: q in rest ==> peer(q) != peer(front[|front| - 1])
    ensures Ready(front + [todo[0]], todo[1..], rest, peer)
  {
    var x := todo[0];
    assert todo == [x] + todo[1..];
    var bag := rest + multiset(todo);
    assert x in bag && bag - multiset{x} == rest + multiset(todo[1..]);
    forall q | q in bag && front != [] && peer(x) != peer(front[|front| - 1]) ensures peer(q) != peer(front[|front| - 1]) {
      if q !in rest { var k :| 0 <= k < |todo| && todo[k] == q by { assert q in todo; } }
    }
    hide Contiguous;
    OpenMore(front, bag, peer, x);
    TailContiguous(todo, peer);
  }

  lemma TailContiguous(todo: seq<Path>, peer: PeerOf)
    requires todo != [] && Contiguous(todo, peer)
    ensures Contiguous(todo[1..], peer)
    ensures forall k :: 0 <= k < |todo[1..]| && peer(todo[1..][k]) == peer(todo[0]) ==> peer(todo[1..][0]) == peer(todo[0])
  {
    forall k | 0 <= k < |todo[1..]| && peer(todo[1..][k]) == peer(todo[0]) ensures peer(todo[1..][0]) == peer(todo[0]) {
      assert todo[k + 1] == todo[1..][k] && todo[1] == todo[1..][0];
    }
    forall i, j, k | 0 <= i < j < k < |todo[1..]| && peer(todo[1..][i]) == peer(todo[1..][k])
      ensures peer(todo[1..][j]) == peer(todo[1..][i])
    {
      assert peer(todo[i + 1]) == peer(todo[k + 1]) && peer(todo[j + 1]) == peer(todo[i + 1]);
    }
  }

  lemma ReadyOther(front: seq<Path>, todo: seq<Path>, rest: multiset<Path>, peer: PeerOf, q: Path)
    requires Ready(front, todo, rest, peer) && front != [] && q in rest && peer(q) == peer(front[|front| - 1])
    ensures Ready(front + [q], todo, rest - multiset{q}, peer)
  {
    hide Contiguous;
    var bag := rest + multiset(todo);
    assert bag - multiset{q} == (rest - multiset{q}) + multiset(todo);
    OpenMore(front, bag, peer, q);
  }

  lemma {:induction false} Weave(front: seq<Path>, todo: seq<Path>, rest: multiset<Path>, peer: PeerOf, keep: Path -> bool)
    returns (u: seq<Path>)
    requires Ready(front, todo, rest, peer)
    requires (forall i :: 0 <= i < |todo| ==> keep(todo[i])) && forall q :: q in rest ==> !keep(q)
    ensures multiset(u) == rest + multiset(todo) && Contiguous(front + u, peer) && Filter(u, keep) == todo
    decreases |rest|, |todo|
  {
    hide Contiguous, Open, Filter;
    if todo == [] {
      assert rest + multiset(todo) == rest;
      u := Complete(front, rest, peer);
      forall i | 0 <= i < |u| ensures !keep(u[i]) { assert u[i] in multiset(u); }
      NoneKept(u, keep);
    } else {
      hide Ready;
      var x := todo[0];
      if q :| q in rest && front != [] && peer(q) == peer(front[|front| - 1]) && peer(x) != peer(q) {
        ReadyOther(front, todo, rest, peer, q);
        var v := Weave(front + [q], todo, rest - multiset{q}, peer, keep);
        u := Prepend(front, q, v, keep);
      } else {
        ReadyNext(front, todo, rest, peer);
        var v := Weave(front + [x], todo[1..], rest, peer, keep);
        u := Prepend(front, x, v, keep);
        assert todo == [x] + todo[1..];
      }
    }
  }

  lemma Prepend(front: seq<Path>, x: Path, v: seq<Path>, keep: Path -> bool) returns (u: seq<Path>)
    ensures u == [x] + v && front + u == front + [x] + v && multiset(u) == multiset{x} + multiset(v)
    ensures Filter(u, keep) == (if keep(x) then [x] else []) + Filter(v, keep)
  {
    u := [x] + v;
    FilterConcat([x], v, keep);
    FilterAppend([], x, keep);
    FilterNothing(keep);
    assert [x] == [] + [x];
  }

  lemma {:induction false} NoneKept(u: seq<Path>, keep: Path -> bool)
    requires forall i :: 0 <= i < |u| ==> !keep(u[i])
    ensures Filter(u, keep) == []
  {
    if u != [] {
      assert u == u[..|u| - 1] + [u[|u| - 1]];
      FilterAppend(u[..|u| - 1], u[|u| - 1], keep);
      NoneKept(u[..|u| - 1], keep);
    }
  }

  // Every visit of the candidates comes from a walk.
  lemma VisitIsWalk(chosen: Option<Path>, paths: set<Path>, peer: PeerOf, order: seq<Path>, t: seq<Path>)
    returns (other: seq<Path>)
    requires Walk(order, paths, peer) && (chosen.Some? ==> chosen.value !in paths)
    requires var c := Walked(Beginning(chosen), order).updated; Visit(t, c, Head(chosen, c), peer)
    ensures Walk(other, paths, peer) && Walked(Beginning(chosen), other).updated == t
  {
    hide Walked, Contiguous, Distinct, Filter, Head;
    var b := Walked(Beginning(chosen), order);
    var k := BySource(b.source);
    HeadMeans(chosen, order);
    var head, kept := Head(chosen, b.updated), Filter(order, k);
    var tail := t[|head|..];
    TailBag(head, kept, t);
    other := Woven(order, tail, peer, k);
    SameBagIsWalk(order, other, paths, peer);
    SameSource(chosen, order, other);
    HeadMeans(chosen, other);
    WalkIsVisit(chosen, paths, peer, order, other);
    SameHead(chosen, b.updated, Walked(Beginning(chosen), other).updated);
    assert t == head + tail;
  }

  lemma TailBag(head: seq<Path>, kept: seq<Path>, t: seq<Path>)
    requires multiset(head + kept) == multiset(t) && head <= t
    ensures multiset(t[|head|..]) == multiset(kept)
  {
    assert t == head + t[|head|..];
    assert multiset(t) == multiset(head) + multiset(t[|head|..]);
    assert multiset(head + kept) == multiset(head) + multiset(kept);
    assert multiset(t[|head|..]) == multiset(t) - multiset(head);
  }

  // The paths of a walk in another order, those kept as given.
  lemma Woven(order: seq<Path>, tail: seq<Path>, peer: PeerOf, keep: Path -> bool) returns (other: seq<Path>)
    requires Contiguous(tail, peer) && multiset(tail) == multiset(Filter(order, keep))
    ensures multiset(order) == multiset(other) && Contiguous(other, peer) && Filter(other, keep) == tail
  {
    hide Contiguous, Filter;
    var rest := multiset(order) - multiset(tail);
    forall p ensures multiset(tail)[p] == if keep(p) then multiset(order)[p] else 0 { FilterMembers(order, keep, p); }
    forall i | 0 <= i < |tail| ensures keep(tail[i]) { assert tail[i] in multiset(tail); }
    NothingReady(tail, rest, peer);
    other := Weave([], tail, rest, peer, keep);
    assert [] + other == other;
  }

  lemma NothingReady(todo: seq<Path>, rest: multiset<Path>, peer: PeerOf)
    requires Contiguous(todo, peer)
    ensures Ready([], todo, rest, peer)
  {
  }

  lemma SameBagIsWalk(order: seq<Path>, other: seq<Path>, paths: set<Path>, peer: PeerOf)
    requires Walk(order, paths, peer) && multiset(order) == multiset(other) && Contiguous(other, peer)
    ensures Walk(other, paths, peer)
  {
    hide Contiguous;
    forall p ensures p in other <==> p in order { SameMembers(order, other, p); }
    forall i, j | 0 <= i < j < |other| ensures other[i] != other[j] {
      OnceEach(order, other[i]);
      if other[i] == other[j] { TwicePresent(other, i, j); }
    }
  }

  lemma SameHead(chosen: Option<Path>, c: seq<Path>, d: seq<Path>)
    requires SameBag(c, d)
    ensures Head(chosen, c) == Head(chosen, d)
  {
    if chosen.Some? { SameMembers(c, d, chosen.value); }
  }

  // ---------- the path that every walk chooses ----------

  ghost predicate AlwaysChosen(chosen: Option<Path>, paths: set<Path>, peer: PeerOf, p: Path) {
    forall order :: Walk(order, paths, peer) ==>
      var c := Walked(Beginning(chosen), order).updated; c != [] && First(c) == p
  }

  lemma CandidatesAreDistinct(chosen: Option<Path>, paths: set<Path>, peer: PeerOf, order: seq<Path>)
    requires Walk(order, paths, peer) && (chosen.Some? ==> chosen.value !in paths)
    ensures var c := Walked(Beginning(chosen), order).updated; Distinct(c) && HeadOf(Head(chosen, c), c)
  {
    hide Walked, Contiguous, Filter;
    WalkedIs(chosen, order);
    var b, all := Walked(Beginning(chosen), order), Before(chosen) + order;
    forall i, j | 0 <= i < j < |b.updated| ensures b.updated[i] != b.updated[j] {
      var k, l := FilterPlaces(all, BySource(b.source), i, j);
    }
  }

  lemma AlwaysMeansVisits(chosen: Option<Path>, paths: set<Path>, peer: PeerOf, order: seq<Path>)
    requires Walk(order, paths, peer) && (chosen.Some? ==> chosen.value !in paths)
    requires Walked(Beginning(chosen), order).updated != []
    ensures var c := Walked(Beginning(chosen), order).updated; var head := Head(chosen, c);
            && (AlwaysChosen(chosen, paths, peer, First(c)) <==> VisitsChooseAlike(c, head, peer))
            && (head != [] && (forall t :: Visit(t, c, head, peer) ==> t != [] && First(t) == head[0]) ==>
                  AlwaysChosen(chosen, paths, peer, head[0]))
  {
    hide Walked, Visit, Walk, Head, First;
    var c := Walked(Beginning(chosen), order).updated;
    var head := Head(chosen, c);
    forall o | Walk(o, paths, peer) ensures Visit(Walked(Beginning(chosen), o).updated, c, head, peer) {
      WalkIsVisit(chosen, paths, peer, order, o);
    }
    if AlwaysChosen(chosen, paths, peer, First(c)) {
      forall t | Visit(t, c, head, peer) ensures t != [] && First(t) == First(c) {
        var o := VisitIsWalk(chosen, paths, peer, order, t);
      }
    }
    if VisitsChooseAlike(c, head, peer) {
      forall o | Walk(o, paths, peer)
        ensures var d := Walked(Beginning(chosen), o).updated; d != [] && First(d) == First(c)
      {
        assert ChooseAlike(Walked(Beginning(chosen), o).updated, c);
      }
    }
  }

  // Every walk chooses the path chosen before if that is still a candidate and unbeaten. If not, all choose the same if
  // line 743 does no harm in the visits and one path is unbeaten, and only if one is; without late ties also only if the
  // line does no harm.
  lemma WinnerIgnoresOrder(chosen: Option<Path>, paths: set<Path>, peer: PeerOf, order: seq<Path>, len: nat)
    requires Walk(order, paths, peer) && (chosen.Some? ==> chosen.value !in paths)
    requires Comparable(Walked(Beginning(chosen), order).updated, len)
    ensures var c := Walked(Beginning(chosen), order).updated; var head := Head(chosen, c);
            var harmless := VisitsHarmless(c, head, peer) && OneIsUnbeaten(c);
            && c != []
            && (HeadIsUnbeaten(c, head) ==> AlwaysChosen(chosen, paths, peer, head[0]))
            && (harmless ==> AlwaysChosen(chosen, paths, peer, First(c)))
            && (!HeadIsUnbeaten(c, head) && AlwaysChosen(chosen, paths, peer, First(c)) ==> OneIsUnbeaten(c))
            && (NoLateTies(c) ==>
                  (AlwaysChosen(chosen, paths, peer, First(c)) <==> HeadIsUnbeaten(c, head) || harmless))
  {
    hide Comparable, Walk, Walked, Head, VisitsHarmless, OneIsUnbeaten, NoLateTies, Unbeaten, Visit, First, AlwaysChosen;
    var c := Walked(Beginning(chosen), order).updated;
    var head := Head(chosen, c);
    HaveAddresses(c, len);
    CandidatesAreDistinct(chosen, paths, peer, order);
    AlwaysMeansVisits(chosen, paths, peer, order);
    VisitsChoose(c, head, peer, len);
  }

  // While the line does no harm in the visits, no candidate is better than the path that a walk chooses.
  lemma WalksChooseBest(chosen: Option<Path>, paths: set<Path>, peer: PeerOf, order: seq<Path>, other: seq<Path>, len: nat)
    requires Walk(order, paths, peer) && Walk(other, paths, peer) && (chosen.Some? ==> chosen.value !in paths)
    requires Comparable(Walked(Beginning(chosen), order).updated, len)
    requires var c := Walked(Beginning(chosen), order).updated; VisitsHarmless(c, Head(chosen, c), peer)
    ensures var c, d := Walked(Beginning(chosen), order).updated, Walked(Beginning(chosen), other).updated;
            d != [] && Preference.NoneBetter(First(d), c)
  {
    hide Comparable, Walk, Walked, Head, VisitsHarmless, Unbeaten, Visit, First, Survivors, Preference.NoneBetter, AfterAs;
    var c, d := Walked(Beginning(chosen), order).updated, Walked(Beginning(chosen), other).updated;
    var head := Head(chosen, c);
    HaveAddresses(c, len);
    CandidatesAreDistinct(chosen, paths, peer, order);
    WalkIsVisit(chosen, paths, peer, order, other);
    VisitBag(d, c, head, peer);
    SameAfterAs(c, d, len);
    HaveAddresses(d, len);
    ChoiceSurvives(d);
    VisitIsRight(d, c, head, peer, len, First(d));
    Preference.UnbeatenIsBest(First(d), c, len);
  }
}
