/** Identifier allocation: getNextPathId and releasePathId in bgp/rib/destination.go, which start at 1, and
  * GetNextId and ReleaseId in bgp/policy/locRibEngine.go, which start at 0. Both are the same code.
  */
module IdAllocators {
  class IdAllocator {
    const first: nat
    var maxId: nat
    var ids: seq<nat>
    // The identifiers handed out and not yet given back.
    ghost var live: set<nat>

    // Live and free identifiers partition [first, maxId).
    ghost predicate Valid()
      reads this
    {
      && first <= maxId
      && (forall id :: id in live ==> first <= id < maxId && id !in ids)
      && (forall id :: id in ids ==> first <= id < maxId)
      && (forall i, j :: 0 <= i < j < |ids| ==> ids[i] != ids[j])
      && (forall id :: first <= id < maxId ==> id in live || id in ids)
    }

    constructor (first: nat)
      ensures Valid() && live == {} && this.first == first && maxId == first && ids == []
    {
      this.first := first;
      maxId := first;
      ids := [];
      live := {};
    }

    // The identifier freed last is used first; the range grows only when nothing is free.
    method GetNextId() returns (id: nat)
      requires Valid()
      modifies this
      ensures Valid() && id !in old(live) && live == old(live) + {id}
      ensures if old(ids) == [] then id == old(maxId) && maxId == old(maxId) + 1 && ids == []
              else ids + [id] == old(ids) && maxId == old(maxId)
    {
      if |ids| > 0 {
        Without(ids, |ids| - 1, ids[..|ids| - 1]);
        id := ids[|ids| - 1];
        assert id in ids;
        ids := ids[..|ids| - 1];
      } else {
        id := maxId;
        maxId := maxId + 1;
      }
      live := live + {id};
    }

    method ReleaseId(id: nat)
      requires Valid() && id in live
      modifies this
      ensures Valid() && live == old(live) - {id}
      ensures if id + 1 == old(maxId) then maxId == id && ids == old(ids)
              else ids == old(ids) + [id] && maxId == old(maxId)
    {
      live := live - {id};
      if id + 1 == maxId {
        maxId := maxId - 1;
        return;
      }
      ids := ids + [id];
    }

    // Nothing is lost: the range never holds an identifier that is neither live nor free.
    lemma LiveAndFreeFillTheRange()
      requires Valid()
      ensures |live| + |ids| == maxId - first
    {
      Fill(live, ids, first, maxId);
    }
  }

  lemma Without(ids: seq<nat>, k: nat, rest: seq<nat>)
    requires k < |ids| && forall i, j :: 0 <= i < j < |ids| ==> ids[i] != ids[j]
    requires rest == ids[..k] + ids[k + 1..]
    ensures forall id :: id in rest <==> id in ids && id != ids[k]
  {
    assert ids == ids[..k] + [ids[k]] + ids[k + 1..];
    forall id | id in rest ensures id in ids && id != ids[k] {
      var i :| 0 <= i < |rest| && rest[i] == id;
      assert ids[if i < k then i else i + 1] == id;
    }
  }

  lemma {:induction false} RangeSize(range: set<nat>, first: nat, max: nat)
    requires first <= max && forall id :: id in range <==> first <= id < max
    ensures |range| == max - first
  {
    if first == max {
      assert range == {};
    } else {
      RangeSize(range - {max - 1}, first, max - 1);
    }
  }

  lemma {:induction false} Fill(live: set<nat>, ids: seq<nat>, first: nat, max: nat)
    requires first <= max
    requires forall id :: id in live ==> first <= id < max && id !in ids
    requires forall id :: id in ids ==> first <= id < max
    requires forall i, j :: 0 <= i < j < |ids| ==> ids[i] != ids[j]
    requires forall id :: first <= id < max ==> id in live || id in ids
    ensures |live| + |ids| == max - first
    decreases ids
  {
    if ids == [] {
      RangeSize(live, first, max);
    } else {
      var last := |ids| - 1;
      Without(ids, last, ids[..last]);
      assert ids[last] in ids;
      Fill(live + {ids[last]}, ids[..last], first, max);
    }
  }
}
