/** Splitting an update into messages of at most 4096 octets (ConstructMaxSizedUpdatePackets in bgp/packet/helpers.go).
  *
  * Covered are updates with IPv4 prefixes and no multi-protocol attribute, and updates whose only reachability is one
  * MP_REACH_NLRI attribute. MP_UNREACH_NLRI is not part of this model.
  */
module UpdatePacking {
  import opened Paths
  import opened NlriCodec
  import opened Updates

  // ---------- attribute lists ----------

  // The first attribute of the kind, or the end.
  function FirstMp(attrs: seq<Attr>, k: nat := 0): (r: nat)
    requires k <= |attrs|
    ensures k <= r <= |attrs| && (r < |attrs| ==> attrs[r].MpReach?)
    ensures forall i :: k <= i < r ==> attrs[i].Opaque?
    decreases |attrs| - k
  {
    if k == |attrs| || attrs[k].MpReach? then k else FirstMp(attrs, k + 1)
  }

  // removeTypeFromPathAttrs.
  function RemoveAt(attrs: seq<Attr>, idx: nat): seq<Attr>
    requires idx < |attrs|
  {
    attrs[..idx] + attrs[idx + 1..]
  }

  // AddPathAttrToPathAttrsByCode inserts before the last greater code, not the first.
  function LastGreater(attrs: seq<Attr>, code: byte): (r: int)
    ensures -1 <= r < |attrs|
  {
    if attrs == [] then -1
    else if Code(attrs[|attrs| - 1]) > code then |attrs| - 1
    else LastGreater(attrs[..|attrs| - 1], code)
  }

  function Insert(attrs: seq<Attr>, a: Attr): seq<Attr> {
    var at := LastGreater(attrs, Code(a));
    var idx := if at == -1 then |attrs| else at;
    attrs[..idx] + [a] + attrs[idx..]
  }

  lemma {:induction false} LastGreaterMeans(attrs: seq<Attr>, code: byte)
    ensures var r := LastGreater(attrs, code);
            (r >= 0 ==> Code(attrs[r]) > code) && forall i :: r < i < |attrs| ==> Code(attrs[i]) <= code
  {
    if attrs != [] && Code(attrs[|attrs| - 1]) <= code {
      var front := attrs[..|attrs| - 1];
      LastGreaterMeans(front, code);
      forall i | LastGreater(front, code) < i < |attrs| ensures Code(attrs[i]) <= code {
        if i < |front| { assert attrs[i] == front[i]; }
      }
    }
  }

  ghost predicate Ascending(attrs: seq<Attr>) {
    forall i, j :: 0 <= i < j < |attrs| ==> Code(attrs[i]) <= Code(attrs[j])
  }

  // So a list that ascends by code, as section 5 of RFC 4271 asks, still does afterwards if and only if no attribute but the
  // last has a greater code than the new one.
  lemma InsertKeepsOrder(attrs: seq<Attr>, a: Attr)
    requires Ascending(attrs)
    ensures Ascending(Insert(attrs, a)) <==> |attrs| < 2 || Code(attrs[|attrs| - 2]) <= Code(a)
    ensures multiset(Insert(attrs, a)) == multiset(attrs) + multiset{a}
  {
    hide Code, LastGreater, Ascending;
    LastIsGreater(attrs, Code(a));
    var at := LastGreater(attrs, Code(a));
    var idx := if at == -1 then |attrs| else at;
    PutAt(attrs, a, idx);
    assert attrs == attrs[..idx] + attrs[idx..];
  }

  lemma LastIsGreater(attrs: seq<Attr>, code: byte)
    requires Ascending(attrs)
    ensures var at := LastGreater(attrs, code);
            && (at == -1 || at == |attrs| - 1)
            && (if at >= 0 then Code(attrs[at]) > code else forall i :: 0 <= i < |attrs| ==> Code(attrs[i]) <= code)
  {
    hide Code, LastGreater;
    LastGreaterMeans(attrs, code);
    if LastGreater(attrs, code) >= 0 { Ascends(attrs, LastGreater(attrs, code), |attrs| - 1); }
  }

  lemma Ascends(attrs: seq<Attr>, i: nat, j: nat)
    requires Ascending(attrs) && i <= j < |attrs|
    ensures Code(attrs[i]) <= Code(attrs[j])
  {
  }

  lemma PutAt(attrs: seq<Attr>, a: Attr, idx: nat)
    requires Ascending(attrs) && (idx == |attrs| || idx == |attrs| - 1)
    requires if idx < |attrs| then Code(attrs[idx]) > Code(a) else forall i :: 0 <= i < |attrs| ==> Code(attrs[i]) <= Code(a)
    ensures Ascending(attrs[..idx] + [a] + attrs[idx..]) <==> |attrs| < 2 || Code(attrs[|attrs| - 2]) <= Code(a)
  {
    hide Code;
    var r, n := attrs[..idx] + [a] + attrs[idx..], |attrs|;
    if n >= 2 && Code(attrs[n - 2]) > Code(a) {
      assert idx == n - 1 && r[n - 2] == attrs[n - 2] && r[n - 1] == a;
    } else {
      forall i, j | 0 <= i < j < |r| ensures Code(r[i]) <= Code(r[j]) {
        if j < idx {
          assert r[i] == attrs[i] && r[j] == attrs[j];
        } else if j == idx {
          assert r[j] == a && r[i] == attrs[i];
          if idx == n - 1 { assert i <= n - 2 && (i < n - 2 ==> Code(attrs[i]) <= Code(attrs[n - 2])); }
        } else {
          assert r[j] == attrs[n - 1] && (if i == idx then r[i] == a else r[i] == attrs[i]);
        }
      }
    }
  }

  function InsertEach(attrs: seq<Attr>, more: seq<Attr>): seq<Attr> {
    if more == [] then attrs else Insert(InsertEach(attrs, more[..|more| - 1]), more[|more| - 1])
  }

  // CloneMPReachNLRIWithNewNLRI: the clone always has the four-octet header.
  function Clone(mp: Attr, reach: seq<Nlri>): Attr
    requires mp.MpReach?
  {
    mp.(hdrLen := 4, reach := reach)
  }

  // ---------- the three loops as functions ----------

  datatype Packing = Packing(msgs: seq<Update>, withdrawn: seq<Nlri>, pathAttrs: seq<Attr>, start: nat, len: nat,
    mpFound: bool)

  function WithdrawStep(p: Packing, i: nat, list: seq<Nlri>): Packing
    requires p.start <= i < |list|
  {
    var q := if NlriLen(list[i]) + p.len > MSG_MAX
      then p.(msgs := p.msgs + [Update(list[p.start..i], [], [])], start := i, len := UPDATE_MIN)
             else p;
    q.(len := q.len + NlriLen(list[i]))
  }

  function WithdrawFrom(p: Packing, i: nat, list: seq<Nlri>): (r: Packing)
    requires p.start <= i <= |list|
    ensures r.start <= |list|
    decreases |list| - i
  {
    if i == |list| then p else WithdrawFrom(WithdrawStep(p, i, list), i + 1, list)
  }

  function ReachBase(mp: Attr, others: seq<Attr>): nat
    requires mp.MpReach?
  {
    mp.hdrLen + 4 + |mp.nextHop| + AttrsLen(others)
  }

  // The first piece carries no attribute when even one prefix finds no room beside the withdrawals.
  function ReachStep(p: Packing, i: nat, mp: Attr, others: seq<Attr>): (r: Packing)
    requires mp.MpReach? && p.start <= i < |mp.reach|
    ensures r.start <= i
  {
    var n := mp.reach[i];
    var q := if NlriLen(n) + p.len + ReachBase(mp, others) > MSG_MAX then
               var attrs := if i != 0 then Insert(others, Clone(mp, mp.reach[p.start..i])) else [];
               p.(msgs := p.msgs + [Update(p.withdrawn, attrs, [])], withdrawn := [], start := i, len := UPDATE_MIN)
             else p;
    q.(len := q.len + NlriLen(n))
  }

  function ReachFrom(p: Packing, i: nat, mp: Attr, others: seq<Attr>): (r: Packing)
    requires mp.MpReach? && p.start <= i <= |mp.reach|
    ensures r.start <= |mp.reach|
    decreases |mp.reach| - i
  {
    if i == |mp.reach| then p else ReachFrom(ReachStep(p, i, mp, others), i + 1, mp, others)
  }

  function NlriStep(p: Packing, i: nat, list: seq<Nlri>, attrs: seq<Attr>): Packing
    requires p.start <= i < |list|
  {
    var q := if NlriLen(list[i]) + p.len + AttrsLen(attrs) > MSG_MAX then
               Packing(p.msgs + [Update(p.withdrawn, InsertEach(attrs, p.pathAttrs), list[p.start..i])], [], [], i,
                 UPDATE_MIN, false)
             else p;
    q.(len := q.len + NlriLen(list[i]))
  }

  function NlriFrom(p: Packing, i: nat, list: seq<Nlri>, attrs: seq<Attr>): (r: Packing)
    requires p.start <= i <= |list|
    ensures r.start <= |list|
    decreases |list| - i
  {
    if i == |list| then p else NlriFrom(NlriStep(p, i, list, attrs), i + 1, list, attrs)
  }

  // ---------- the whole ----------

  function PackWithdrawn(list: seq<Nlri>): Packing {
    var p := WithdrawFrom(Packing([], [], [], 0, UPDATE_MIN, false), 0, list);
    p.(withdrawn := list[p.start..], start := 0)
  }

  function PackReach(p: Packing, mp: Attr, others: seq<Attr>): Packing
    requires mp.MpReach? && p.start == 0
  {
    var q := ReachFrom(p, 0, mp, others);
    if q.start == |mp.reach| then q.(start := 0)
    else q.(pathAttrs := [Clone(mp, mp.reach[q.start..])], start := 0, len := q.len + mp.hdrLen + 4 + |mp.nextHop|)
  }

  // What does not fit beside the attributes goes ahead on its own.
  function Flush(p: Packing, attrs: seq<Attr>): Packing {
    if p.len + AttrsLen(attrs) <= MSG_MAX then p
    else
      var others := if FirstMp(p.pathAttrs) < |p.pathAttrs| then attrs else [];
      p.(msgs := p.msgs + [Update(p.withdrawn, InsertEach(others, p.pathAttrs), [])], withdrawn := [],
        pathAttrs := [], len := UPDATE_MIN)
  }

  function PackNlri(p: Packing, list: seq<Nlri>, attrs: seq<Attr>): seq<Update>
    requires p.start == 0
  {
    var q := NlriFrom(p, 0, list, attrs);
    if q.withdrawn != [] || q.start < |list| || q.pathAttrs != [] || q.mpFound then
      q.msgs + [Update(q.withdrawn, InsertEach(attrs, q.pathAttrs), list[q.start..])]
    else q.msgs
  }

  function Pack(u: Update): seq<Update> {
    var p := PackWithdrawn(u.withdrawn);
    var idx := FirstMp(u.attrs);
    if p.len + AttrsLen(u.attrs) > MSG_MAX && idx < |u.attrs| then
      var others := RemoveAt(u.attrs, idx);
      var q := Flush(PackReach(p, u.attrs[idx], others), others);
      PackNlri(q.(mpFound := FirstMp(others) < |others|), u.nlri, others)
    else
      PackNlri(Flush(p, u.attrs).(mpFound := idx < |u.attrs|), u.nlri, u.attrs)
  }

  // ---------- the loops ----------

  method WithdrawLoop(list: seq<Nlri>) returns (msgs: seq<Update>, withdrawn: seq<Nlri>, pktLen: nat)
    ensures PackWithdrawn(list) == Packing(msgs, withdrawn, [], 0, pktLen, false)
  {
    var startIdx := 0;
    msgs, pktLen := [], UPDATE_MIN;
    for lastIdx := 0 to |list|
      invariant startIdx <= lastIdx
      invariant WithdrawFrom(Packing([], [], [], 0, UPDATE_MIN, false), 0, list)
                == WithdrawFrom(Packing(msgs, [], [], startIdx, pktLen, false), lastIdx, list)
    {
      var nlriLen := NlriLen(list[lastIdx]);
      if nlriLen + pktLen > MSG_MAX {
        msgs := msgs + [Update(list[startIdx..lastIdx], [], [])];
        startIdx := lastIdx;
        pktLen := UPDATE_MIN;
      }
      pktLen := pktLen + nlriLen;
    }
    withdrawn := list[startIdx..];
  }

  method ReachLoop(p: Packing, mp: Attr, others: seq<Attr>) returns (q: Packing)
    requires mp.MpReach? && p.start == 0
    ensures q == PackReach(p, mp, others)
  {
    hide Insert, AttrsLen, NlriLen;
    q := p;
    var baseLen := ReachBase(mp, others);
    for lastIdx := 0 to |mp.reach|
      invariant q.start <= lastIdx && (lastIdx > 0 ==> q.start < lastIdx)
      invariant ReachFrom(p, 0, mp, others) == ReachFrom(q, lastIdx, mp, others)
    {
      var nlriLen := NlriLen(mp.reach[lastIdx]);
      ghost var before := q;
      if nlriLen + q.len + baseLen > MSG_MAX {
        var pa := [];
        if lastIdx != 0 { pa := Insert(others, Clone(mp, mp.reach[q.start..lastIdx])); }
        q := q.(msgs := q.msgs + [Update(q.withdrawn, pa, [])], withdrawn := [], start := lastIdx, len := UPDATE_MIN);
      }
      q := q.(len := q.len + nlriLen);
      assert q == ReachStep(before, lastIdx, mp, others);
    }
    if q.start != |mp.reach| {
      q := q.(pathAttrs := [Clone(mp, mp.reach[q.start..])], start := 0, len := q.len + mp.hdrLen + 4 + |mp.nextHop|);
    } else {
      q := q.(start := 0);
    }
  }

  method NlriLoop(p: Packing, list: seq<Nlri>, attrs: seq<Attr>) returns (msgs: seq<Update>)
    requires p.start == 0
    ensures msgs == PackNlri(p, list, attrs)
  {
    hide InsertEach, AttrsLen, NlriLen;
    var q := p;
    var paLen := AttrsLen(attrs);
    for lastIdx := 0 to |list|
      invariant q.start <= lastIdx && NlriFrom(p, 0, list, attrs) == NlriFrom(q, lastIdx, list, attrs)
    {
      var nlriLen := NlriLen(list[lastIdx]);
      ghost var before := q;
      if nlriLen + q.len + paLen > MSG_MAX {
        var pa := InsertEach(attrs, q.pathAttrs);
        q := Packing(q.msgs + [Update(q.withdrawn, pa, list[q.start..lastIdx])], [], [], lastIdx, UPDATE_MIN, false);
      }
      q := q.(len := q.len + nlriLen);
      assert q == NlriStep(before, lastIdx, list, attrs);
    }
    msgs := q.msgs;
    if q.withdrawn != [] || q.start < |list| || q.pathAttrs != [] || q.mpFound {
      msgs := msgs + [Update(q.withdrawn, InsertEach(attrs, q.pathAttrs), list[q.start..])];
    }
  }

  method ConstructMaxSizedUpdatePackets(u: Update) returns (msgs: seq<Update>)
    ensures msgs == Pack(u)
  {
    hide WithdrawFrom, ReachFrom, NlriFrom, InsertEach;
    var withdrawn, pktLen;
    msgs, withdrawn, pktLen := WithdrawLoop(u.withdrawn);
    var p := Packing(msgs, withdrawn, [], 0, pktLen, false);
    var attrs := u.attrs;
    var idx := FirstMp(attrs);
    if pktLen + AttrsLen(attrs) > MSG_MAX && idx < |attrs| {
      var mp := attrs[idx];
      attrs := RemoveAt(attrs, idx);
      p := ReachLoop(p, mp, attrs);
    }
    if p.len + AttrsLen(attrs) > MSG_MAX {
      var others := if FirstMp(p.pathAttrs) < |p.pathAttrs| then attrs else [];
      var msg := Update(p.withdrawn, InsertEach(others, p.pathAttrs), []);
      p := p.(msgs := p.msgs + [msg], withdrawn := [], pathAttrs := [], len := UPDATE_MIN);
    }
    p := p.(mpFound := FirstMp(attrs) < |attrs|);
    msgs := NlriLoop(p, u.nlri, attrs);
  }

  // ---------- what the messages say ----------

  // Updates covered here: at most one MP_REACH_NLRI attribute, and then no other reachability.
  ghost predicate InScope(u: Update) {
    var idx := FirstMp(u.attrs);
    idx < |u.attrs| ==> u.nlri == [] && forall i :: 0 <= i < |u.attrs| && i != idx ==> u.attrs[i].Opaque?
  }

  ghost predicate AllOpaque(attrs: seq<Attr>) { forall i :: 0 <= i < |attrs| ==> attrs[i].Opaque? }

  lemma {:induction false} OpaqueAttrs(attrs: seq<Attr>, bag: multiset<Attr>)
    requires AllOpaque(attrs)
    ensures Others(attrs) == attrs && MpEntries(attrs, bag) == []
  {
    if attrs != [] {
      OpaqueAttrs(attrs[..|attrs| - 1], bag);
      assert attrs == attrs[..|attrs| - 1] + [attrs[|attrs| - 1]];
    }
  }

  lemma OneMoreAttr(attrs: seq<Attr>, a: Attr, bag: multiset<Attr>)
    ensures Others(attrs + [a]) == Others(attrs) + if a.Opaque? then [a] else []
    ensures MpEntries(attrs + [a], bag) ==
            MpEntries(attrs, bag) + if a.MpReach? then Entries(a.reach, a.afi, a.safi, Route(bag, a.nextHop)) else []
    ensures AttrsLen(attrs + [a]) == AttrsLen(attrs) + TotalLen(a)
  {
    AttrsLenAppend(attrs, a);
    assert (attrs + [a])[..|attrs|] == attrs;
  }

  // One MP_REACH_NLRI among opaque attributes, wherever it stands.
  lemma {:induction false} OneMp(a: seq<Attr>, mp: Attr, b: seq<Attr>, bag: multiset<Attr>)
    requires AllOpaque(a) && AllOpaque(b) && mp.MpReach?
    ensures Others(a + [mp] + b) == a + b
    ensures MpEntries(a + [mp] + b, bag) == Entries(mp.reach, mp.afi, mp.safi, Route(bag, mp.nextHop))
    ensures AttrsLen(a + [mp] + b) == AttrsLen(a + b) + TotalLen(mp)
    decreases b
  {
    hide Others, MpEntries, AttrsLen, TotalLen;
    if b == [] {
      OpaqueAttrs(a, bag);
      OneMoreAttr(a, mp, bag);
      assert a + [mp] + b == a + [mp] && a + b == a;
    } else {
      var front, last := b[..|b| - 1], b[|b| - 1];
      assert b == front + [last];
      OneMp(a, mp, front, bag);
      OneMoreAttr(a + [mp] + front, last, bag);
      AttrsLenAppend(a + front, last);
      assert a + [mp] + b == a + [mp] + front + [last] && a + b == a + front + [last];
    }
  }

  // A message with the attribute put among the others announces its prefixes with them.
  lemma InsertedAnnounces(others: seq<Attr>, mp: Attr, withdrawn: seq<Nlri>)
    requires AllOpaque(others) && mp.MpReach?
    ensures Announced(Update(withdrawn, Insert(others, mp), [])) == Entries(mp.reach, mp.afi, mp.safi,
            Route(multiset(others), mp.nextHop))
    ensures AttrsLen(Insert(others, mp)) == AttrsLen(others) + TotalLen(mp)
  {
    var at := LastGreater(others, Code(mp));
    var idx := if at == -1 then |others| else at;
    var a, b := others[..idx], others[idx..];
    assert others == a + b;
    OneMp(a, mp, b, multiset(others));
  }

  lemma RemovedAnnounces(u: Update)
    requires InScope(u) && FirstMp(u.attrs) < |u.attrs|
    ensures var idx := FirstMp(u.attrs); var mp, others := u.attrs[idx], RemoveAt(u.attrs, idx);
            && AllOpaque(others) && AttrsLen(u.attrs) == AttrsLen(others) + TotalLen(mp)
            && Announced(u) == Entries(mp.reach, mp.afi, mp.safi, Route(multiset(others), mp.nextHop))
  {
    var idx := FirstMp(u.attrs);
    var a, mp, b := u.attrs[..idx], u.attrs[idx], u.attrs[idx + 1..];
    assert u.attrs == a + [mp] + b;
    OneMp(a, mp, b, multiset(a + b));
  }

  // The withdrawals said so far and those still pending make up w; nothing was announced before they are all out.
  ghost predicate Pending(p: Packing, w: seq<Nlri>) {
    AllWithdrawn(p.msgs) + p.withdrawn == w && Ordered(p.msgs) && (AllAnnounced(p.msgs) == [] || p.withdrawn == [])
  }

  ghost predicate Short(msgs: seq<Update>, max: nat) { forall i :: 0 <= i < |msgs| ==> MsgLen(msgs[i]) <= max }

  lemma EmitMore(p: Packing, w: seq<Nlri>, u: Update)
    requires Pending(p, w) && u.withdrawn == p.withdrawn
    ensures Pending(p.(msgs := p.msgs + [u], withdrawn := []), w)
    ensures AllAnnounced(p.msgs + [u]) == AllAnnounced(p.msgs) + Announced(u)
  {
    SayMore(p.msgs, AllWithdrawn(p.msgs), AllAnnounced(p.msgs), u);
  }

  lemma SumLenOne(list: seq<Nlri>, s: nat, i: nat)
    requires s <= i < |list|
    ensures SumLen(list[s..i + 1]) == SumLen(list[s..i]) + NlriLen(list[i])
    ensures SumLen(list[i..i]) == 0 && SumLen(list[i..i + 1]) == NlriLen(list[i])
  {
    assert list[s..i + 1] == list[s..i] + [list[i]];
    SumLenAppend(list[s..i], list[i]);
    assert list[i..i + 1] == [] + [list[i]];
    SumLenAppend([], list[i]);
  }

  lemma JustWithdrawals(list: seq<Nlri>)
    ensures Announced(Update(list, [], [])) == [] && MsgLen(Update(list, [], [])) == UPDATE_MIN + SumLen(list)
  {
  }

  lemma {:induction false} WithdrawSays(p: Packing, i: nat, list: seq<Nlri>)
    requires p.start <= i <= |list| && AllWithdrawn(p.msgs) == list[..p.start] && AllAnnounced(p.msgs) == []
             && Ordered(p.msgs)
    requires p.len == UPDATE_MIN + SumLen(list[p.start..i]) <= MSG_MAX && Short(p.msgs, MSG_MAX) && p.pathAttrs == []
    ensures var r := WithdrawFrom(p, i, list);
            && AllWithdrawn(r.msgs) == list[..r.start] && AllAnnounced(r.msgs) == [] && Ordered(r.msgs) && r.pathAttrs == []
            && r.len == UPDATE_MIN + SumLen(list[r.start..]) <= MSG_MAX && Short(r.msgs, MSG_MAX)
    decreases |list| - i
  {
    hide AllWithdrawn, AllAnnounced, Ordered, Announced, SumLen, NlriLen, MsgLen, Says;
    if i == |list| {
      assert list[p.start..i] == list[p.start..];
    } else {
      SumLenOne(list, p.start, i);
      NlriIsShort(list[i]);
      var q := WithdrawStep(p, i, list);
      if NlriLen(list[i]) + p.len > MSG_MAX {
        var u := Update(list[p.start..i], [], []);
        JustWithdrawals(u.withdrawn);
        SaysSplit(p.msgs, list[..p.start]);
        SayMore(p.msgs, list[..p.start], [], u);
        SaysSplit(q.msgs, list[..p.start] + u.withdrawn);
        assert list[..p.start] + list[p.start..i] == list[..i];
      }
      WithdrawSays(q, i + 1, list);
    }
  }

  lemma NlriIsShort(n: Nlri)
    ensures UPDATE_MIN + NlriLen(n) <= MSG_MAX
  {
  }

  lemma SaysSplit(msgs: seq<Update>, w: seq<Nlri>)
    ensures Says(msgs, w, []) <==> AllWithdrawn(msgs) == w && AllAnnounced(msgs) == [] && Ordered(msgs)
  {
  }

  lemma NothingSaid()
    ensures AllWithdrawn([]) == [] && AllAnnounced([]) == [] && Ordered([]) && SumLen([]) == 0
  {
  }

  lemma WithdrawnSays(list: seq<Nlri>)
    ensures var p := PackWithdrawn(list);
            && Pending(p, list) && AllAnnounced(p.msgs) == [] && p.len == UPDATE_MIN + SumLen(p.withdrawn) <= MSG_MAX
            && Short(p.msgs, MSG_MAX) && p.pathAttrs == [] && p.start == 0
  {
    hide WithdrawFrom, AllWithdrawn, AllAnnounced, Ordered, SumLen, MsgLen;
    assert list[0..0] == [] && list[..0] == [];
    NothingSaid();
    WithdrawSays(Packing([], [], [], 0, UPDATE_MIN, false), 0, list);
    var r := WithdrawFrom(Packing([], [], [], 0, UPDATE_MIN, false), 0, list);
    assert list[..r.start] + list[r.start..] == list;
  }

  // ---------- the attribute's prefixes ----------

  function MpRoute(mp: Attr, others: seq<Attr>): Route
    requires mp.MpReach?
  {
    Route(multiset(others), mp.nextHop)
  }

  function ReachEntries(mp: Attr, others: seq<Attr>, list: seq<Nlri>): seq<(Key, Route)>
    requires mp.MpReach?
  {
    Entries(list, mp.afi, mp.safi, MpRoute(mp, others))
  }

  lemma EntriesConcat(mp: Attr, others: seq<Attr>, a: seq<Nlri>, b: seq<Nlri>)
    requires mp.MpReach?
    ensures ReachEntries(mp, others, a + b) == ReachEntries(mp, others, a) + ReachEntries(mp, others, b)
  {
  }

  ghost predicate Reaching(p: Packing, i: nat, mp: Attr, others: seq<Attr>, w: seq<Nlri>)
    requires mp.MpReach?
  {
    && p.start <= i <= |mp.reach| && Pending(p, w)
    && AllAnnounced(p.msgs) == ReachEntries(mp, others, mp.reach[..p.start]) && (p.start > 0 ==> p.withdrawn == [])
  }

  // One piece of the attribute, or none of it when nothing was gathered yet.
  function Piece(p: Packing, i: nat, mp: Attr, others: seq<Attr>): Update
    requires mp.MpReach? && p.start <= i <= |mp.reach|
  {
    Update(p.withdrawn, if i != 0 then Insert(others, Clone(mp, mp.reach[p.start..i])) else [], [])
  }

  lemma PieceSays(p: Packing, i: nat, mp: Attr, others: seq<Attr>)
    requires mp.MpReach? && p.start <= i <= |mp.reach| && AllOpaque(others)
    ensures Announced(Piece(p, i, mp, others)) == ReachEntries(mp, others, mp.reach[p.start..i])
  {
    if i != 0 {
      InsertedAnnounces(others, Clone(mp, mp.reach[p.start..i]), p.withdrawn);
    } else {
      JustWithdrawals(p.withdrawn);
    }
  }

  lemma ReachStepSays(p: Packing, i: nat, mp: Attr, others: seq<Attr>, w: seq<Nlri>)
    requires mp.MpReach? && AllOpaque(others) && Reaching(p, i, mp, others, w) && i < |mp.reach|
    ensures Reaching(ReachStep(p, i, mp, others), i + 1, mp, others, w)
  {
    hide Insert, Announced, Pending, ReachEntries, NlriLen, ReachBase, AllAnnounced, Clone, AllOpaque;
    if NlriLen(mp.reach[i]) + p.len + ReachBase(mp, others) > MSG_MAX {
      var u := Piece(p, i, mp, others);
      PieceSays(p, i, mp, others);
      EmitMore(p, w, u);
      EntriesConcat(mp, others, mp.reach[..p.start], mp.reach[p.start..i]);
      assert mp.reach[..p.start] + mp.reach[p.start..i] == mp.reach[..i];
      var q := ReachStep(p, i, mp, others);
      assert q.msgs == p.msgs + [u] && q.withdrawn == [] && q.start == i;
      SamePending(p.(msgs := q.msgs, withdrawn := []), q, w);
    } else {
      SamePending(p, ReachStep(p, i, mp, others), w);
    }
  }

  lemma SamePending(p: Packing, q: Packing, w: seq<Nlri>)
    requires Pending(p, w) && p.msgs == q.msgs && p.withdrawn == q.withdrawn
    ensures Pending(q, w)
  {
  }

  lemma {:induction false} ReachSays(p: Packing, i: nat, mp: Attr, others: seq<Attr>, w: seq<Nlri>)
    requires mp.MpReach? && AllOpaque(others) && Reaching(p, i, mp, others, w)
    ensures Reaching(ReachFrom(p, i, mp, others), |mp.reach|, mp, others, w)
    decreases |mp.reach| - i
  {
    hide Pending, ReachEntries, ReachStep, AllAnnounced;
    if i < |mp.reach| {
      ReachStepSays(p, i, mp, others, w);
      ReachSays(ReachStep(p, i, mp, others), i + 1, mp, others, w);
    }
  }

  // ---------- the rest ----------

  // The last message, if everything pending went into one.
  function Last(p: Packing, attrs: seq<Attr>, list: seq<Nlri>): Update {
    Update(p.withdrawn, InsertEach(attrs, p.pathAttrs), list)
  }

  // A piece of MP_REACH_NLRI is pending only when no prefix of the message itself is.
  ghost predicate Shaped(p: Packing, attrs: seq<Attr>, list: seq<Nlri>) {
    && (list != [] ==> p.pathAttrs == [] && AllOpaque(attrs))
    && (p.pathAttrs == [] || (|p.pathAttrs| == 1 && p.pathAttrs[0].MpReach? && AllOpaque(attrs)))
  }

  // What was announced and what is pending make up r.
  ghost predicate OnTrack(p: Packing, attrs: seq<Attr>, list: seq<Nlri>, w: seq<Nlri>, r: seq<(Key, Route)>) {
    Pending(p, w) && Shaped(p, attrs, list) && AllAnnounced(p.msgs) + Announced(Last(p, attrs, list)) == r
  }

  lemma InsertOne(attrs: seq<Attr>, a: Attr)
    ensures InsertEach(attrs, [a]) == Insert(attrs, a) && InsertEach(attrs, []) == attrs
  {
    assert InsertEach(attrs, [a]) == Insert(InsertEach(attrs, [a][..0]), a);
  }

  lemma OpaqueAnnounces(attrs: seq<Attr>, withdrawn: seq<Nlri>, list: seq<Nlri>)
    requires AllOpaque(attrs)
    ensures Announced(Update(withdrawn, attrs, list)) == Entries(list, AfiIp, 1, Route(multiset(attrs), []))
  {
    OpaqueAttrs(attrs, multiset(attrs));
  }

  lemma AnnouncedAlone(u: Update, withdrawn: seq<Nlri>)
    ensures Announced(u) == Announced(u.(withdrawn := withdrawn))
  {
  }

  lemma PackReachSays(p: Packing, mp: Attr, others: seq<Attr>, w: seq<Nlri>)
    requires mp.MpReach? && AllOpaque(others) && Pending(p, w) && AllAnnounced(p.msgs) == [] && p.start == 0
             && p.pathAttrs == []
    ensures OnTrack(PackReach(p, mp, others), others, [], w, ReachEntries(mp, others, mp.reach))
            && PackReach(p, mp, others).start == 0
  {
    hide Announced, Insert, ReachFrom, Pending;
    assert Reaching(p, 0, mp, others, w) by { assert mp.reach[..0] == [] && ReachEntries(mp, others, []) == []; }
    ReachSays(p, 0, mp, others, w);
    ReachKeepsPathAttrs(p, 0, mp, others);
    var q := ReachFrom(p, 0, mp, others);
    var r := PackReach(p, mp, others);
    SamePending(q, r, w);
    assert mp.reach[..q.start] + mp.reach[q.start..] == mp.reach;
    EntriesConcat(mp, others, mp.reach[..q.start], mp.reach[q.start..]);
    if q.start == |mp.reach| {
      InsertOne(others, mp);
      OpaqueAnnounces(others, r.withdrawn, []);
      assert ReachEntries(mp, others, mp.reach[q.start..]) == [];
    } else {
      var rest := Clone(mp, mp.reach[q.start..]);
      InsertOne(others, rest);
      InsertedAnnounces(others, rest, r.withdrawn);
    }
  }

  lemma {:induction false} ReachKeepsPathAttrs(p: Packing, i: nat, mp: Attr, others: seq<Attr>)
    requires mp.MpReach? && p.start <= i <= |mp.reach|
    ensures ReachFrom(p, i, mp, others).pathAttrs == p.pathAttrs
    decreases |mp.reach| - i
  {
    hide Insert, ReachBase;
    if i < |mp.reach| { ReachKeepsPathAttrs(ReachStep(p, i, mp, others), i + 1, mp, others); }
  }

  // Once a message is out with all that is pending, nothing of it remains to be said.
  lemma FlushSays(p: Packing, attrs: seq<Attr>, list: seq<Nlri>, w: seq<Nlri>, r: seq<(Key, Route)>)
    requires OnTrack(p, attrs, list, w, r)
    ensures OnTrack(Flush(p, attrs), attrs, list, w, r)
  {
    hide Announced, Insert, AttrsLen, Pending;
    if p.len + AttrsLen(attrs) > MSG_MAX {
      var q := Flush(p, attrs);
      InsertOne(attrs, Opaque(0, []));
      if p.pathAttrs == [] {
        InsertOne([], Opaque(0, []));
        var u := Update(p.withdrawn, [], []);
        EmitMore(p, w, u);
        JustWithdrawals(p.withdrawn);
        SamePending(p.(msgs := q.msgs, withdrawn := []), q, w);
        AnnouncedAlone(Last(p, attrs, list), []);
        assert q.msgs == p.msgs + [u];
      } else {
        assert p.pathAttrs == [p.pathAttrs[0]];
        InsertOne(attrs, p.pathAttrs[0]);
        var u := Last(p, attrs, []);
        EmitMore(p, w, u);
        SamePending(p.(msgs := q.msgs, withdrawn := []), q, w);
        OpaqueAnnounces(attrs, [], []);
        assert FirstMp(p.pathAttrs) == 0;
        assert q.msgs == p.msgs + [u];
      }
    }
  }

  lemma AnnouncedSplit(attrs: seq<Attr>, withdrawn: seq<Nlri>, list: seq<Nlri>, k: nat)
    requires AllOpaque(attrs) && k <= |list|
    ensures Announced(Update(withdrawn, attrs, list))
            == Announced(Update(withdrawn, attrs, list[..k])) + Announced(Update([], attrs, list[k..]))
  {
    hide Announced;
    OpaqueAnnounces(attrs, withdrawn, list[..k]);
    OpaqueAnnounces(attrs, [], list[k..]);
    OpaqueAnnounces(attrs, withdrawn, list);
    assert list == list[..k] + list[k..];
  }

  lemma NlriStepSays(p: Packing, i: nat, list: seq<Nlri>, attrs: seq<Attr>, w: seq<Nlri>, r: seq<(Key, Route)>)
    requires p.start <= i < |list| && OnTrack(p, attrs, list[p.start..], w, r)
    ensures OnTrack(NlriStep(p, i, list, attrs), attrs, list[NlriStep(p, i, list, attrs).start..], w, r)
  {
    hide Announced, InsertEach, AttrsLen, Pending, NlriLen, AllAnnounced, Entries;
    var q := NlriStep(p, i, list, attrs);
    if NlriLen(list[i]) + p.len + AttrsLen(attrs) > MSG_MAX {
      InsertOne(attrs, Opaque(0, []));
      var u := Update(p.withdrawn, attrs, list[p.start..i]);
      EmitMore(p, w, u);
      SamePending(p.(msgs := q.msgs, withdrawn := []), q, w);
      AnnouncedSplit(attrs, p.withdrawn, list[p.start..], i - p.start);
      assert list[p.start..][..i - p.start] == list[p.start..i] && list[p.start..][i - p.start..] == list[i..];
      assert q.msgs == p.msgs + [u] && q.pathAttrs == [] && q.withdrawn == [] && q.start == i;
    } else {
      SamePending(p, q, w);
    }
  }

  lemma {:induction false} NlriSays(p: Packing, i: nat, list: seq<Nlri>, attrs: seq<Attr>, w: seq<Nlri>,
    r: seq<(Key, Route)>)
    requires p.start <= i <= |list| && OnTrack(p, attrs, list[p.start..], w, r) && (p.mpFound || AllOpaque(attrs))
    ensures var q := NlriFrom(p, i, list, attrs); OnTrack(q, attrs, list[q.start..], w, r) && (q.mpFound || AllOpaque(attrs))
    decreases |list| - i
  {
    hide OnTrack, InsertEach, AttrsLen, NlriLen;
    if i < |list| {
      NlriStepSays(p, i, list, attrs, w, r);
      assert AllOpaque(attrs) by { OnTrackShaped(p, attrs, list[p.start..], w, r); }
      NlriSays(NlriStep(p, i, list, attrs), i + 1, list, attrs, w, r);
    }
  }

  lemma OnTrackShaped(p: Packing, attrs: seq<Attr>, list: seq<Nlri>, w: seq<Nlri>, r: seq<(Key, Route)>)
    requires OnTrack(p, attrs, list, w, r)
    ensures Shaped(p, attrs, list)
  {
  }

  lemma PackNlriSays(p: Packing, list: seq<Nlri>, attrs: seq<Attr>, w: seq<Nlri>, r: seq<(Key, Route)>)
    requires p.start == 0 && OnTrack(p, attrs, list, w, r) && (p.mpFound || AllOpaque(attrs))
    ensures Says(PackNlri(p, list, attrs), w, r)
  {
    hide NlriFrom, Announced, InsertEach, Pending;
    assert list[0..] == list;
    NlriSays(p, 0, list, attrs, w, r);
    var q := NlriFrom(p, 0, list, attrs);
    var u := Last(q, attrs, list[q.start..]);
    if q.withdrawn != [] || q.start < |list| || q.pathAttrs != [] || q.mpFound {
      EmitMore(q, w, u);
      PendingIsSaid(q.(msgs := q.msgs + [u], withdrawn := []), w);
    } else {
      InsertOne(attrs, Opaque(0, []));
      OpaqueAnnounces(attrs, [], []);
      assert list[q.start..] == [];
      PendingIsSaid(q, w);
    }
  }

  lemma PendingIsSaid(p: Packing, w: seq<Nlri>)
    requires Pending(p, w) && p.withdrawn == []
    ensures Says(p.msgs, w, AllAnnounced(p.msgs))
  {
  }

  // The messages withdraw and announce what the update does, in the same order, with the same attributes.
  lemma PackSays(u: Update)
    requires InScope(u)
    ensures Says(Pack(u), u.withdrawn, Announced(u))
  {
    hide PackWithdrawn, PackReach, PackNlri, Announced, AttrsLen, Pending, Says, InsertEach, AllAnnounced, ReachEntries;
    WithdrawnSays(u.withdrawn);
    var p := PackWithdrawn(u.withdrawn);
    var idx := FirstMp(u.attrs);
    if p.len + AttrsLen(u.attrs) > MSG_MAX && idx < |u.attrs| {
      var mp, others := u.attrs[idx], RemoveAt(u.attrs, idx);
      RemovedAnnounces(u);
      PackReachSays(p, mp, others, u.withdrawn);
      assert ReachEntries(mp, others, mp.reach) == Announced(u) by { EntriesOfMp(mp, others, mp.reach); }
      FlushSays(PackReach(p, mp, others), others, [], u.withdrawn, Announced(u));
      var q := Flush(PackReach(p, mp, others), others).(mpFound := FirstMp(others) < |others|);
      StillOnTrack(Flush(PackReach(p, mp, others), others), q, others, [], u.withdrawn, Announced(u));
      PackNlriSays(q, [], others, u.withdrawn, Announced(u));
    } else {
      InsertOne(u.attrs, Opaque(0, []));
      AnnouncedAlone(u, p.withdrawn);
      assert OnTrack(p, u.attrs, u.nlri, u.withdrawn, Announced(u));
      FlushSays(p, u.attrs, u.nlri, u.withdrawn, Announced(u));
      var q := Flush(p, u.attrs).(mpFound := idx < |u.attrs|);
      StillOnTrack(Flush(p, u.attrs), q, u.attrs, u.nlri, u.withdrawn, Announced(u));
      PackNlriSays(q, u.nlri, u.attrs, u.withdrawn, Announced(u));
    }
  }

  lemma EntriesOfMp(mp: Attr, others: seq<Attr>, list: seq<Nlri>)
    requires mp.MpReach?
    ensures ReachEntries(mp, others, list) == Entries(list, mp.afi, mp.safi, Route(multiset(others), mp.nextHop))
  {
  }

  lemma StillOnTrack(p: Packing, q: Packing, attrs: seq<Attr>, list: seq<Nlri>, w: seq<Nlri>, r: seq<(Key, Route)>)
    requires OnTrack(p, attrs, list, w, r) && q == p.(mpFound := q.mpFound)
    ensures OnTrack(q, attrs, list, w, r)
  {
  }

  // Applied in order to any table, they have the effect of the update.
  lemma PackKeepsMeaning(u: Update, t: Table)
    requires InScope(u)
    ensures ApplyAll(t, Pack(u)) == Apply(t, u)
  {
    hide Pack, Says, Announced, ApplyAll, Apply, InScope;
    PackSays(u);
    SameEffect(t, Pack(u), u);
  }

  // ---------- what applying an update comes to ----------

  ghost predicate Listed(list: seq<(Key, Route)>, k: Key) { exists i :: 0 <= i < |list| && list[i].0 == k }

  lemma {:induction false} AnnounceOne(t: Table, list: seq<(Key, Route)>, r: Route, k: Key)
    requires forall i :: 0 <= i < |list| ==> list[i].1 == r
    ensures k in Announce(t, list) <==> k in t || Listed(list, k)
    ensures k in Announce(t, list) ==> Announce(t, list)[k] == if Listed(list, k) then r else t[k]
  {
    if list != [] {
      var front, last := list[..|list| - 1], list[|list| - 1];
      assert forall i :: 0 <= i < |front| ==> front[i] == list[i];
      AnnounceOne(t, front, r, k);
      assert Listed(list, k) <==> Listed(front, k) || last.0 == k;
    }
  }

  lemma ListedEntries(list: seq<Nlri>, afi: Afi, safi: byte, r: Route, k: Key)
    ensures Listed(Entries(list, afi, safi, r), k) <==> k.afi == afi && k.safi == safi && k.nlri in list
  {
    var e := Entries(list, afi, safi, r);
    if k.afi == afi && k.safi == safi && k.nlri in list {
      var i :| 0 <= i < |list| && list[i] == k.nlri;
      assert e[i].0 == k;
    }
  }

  ghost predicate Reaches(a: Attr, k: Key) { a.MpReach? && a.afi == k.afi && a.safi == k.safi && k.nlri in a.reach }

  ghost predicate IsPlain(k: Key) { k.afi.AfiIp? && k.safi == 1 }

  ghost predicate Announces(u: Update, k: Key) {
    (IsPlain(k) && k.nlri in u.nlri) || exists a :: a in u.attrs && Reaches(a, k)
  }

  // A prefix that is announced, in the message or in its MP_REACH_NLRI, is reached with the next hop that goes with it
  // and with all the other attributes. One that is only withdrawn is gone, and every other stays as it was.
  lemma ApplyMeans(u: Update, t: Table, k: Key)
    requires InScope(u)
    ensures k in Apply(t, u) <==> Announces(u, k) || (k in t && !(IsPlain(k) && k.nlri in u.withdrawn))
    ensures k in Apply(t, u) && !Announces(u, k) ==> Apply(t, u)[k] == t[k]
    ensures Announces(u, k) ==>
              && (forall x :: Apply(t, u)[k].attrs[x] == if x.Opaque? then multiset(u.attrs)[x] else 0)
              && (forall a :: a in u.attrs && Reaches(a, k) ==> Apply(t, u)[k].nextHop == a.nextHop)
              && (IsPlain(k) && k.nlri in u.nlri ==> Apply(t, u)[k].nextHop == [])
  {
    hide Entries, Announce, Announced, Apply, Withdraw, InScope, Announces, Listed, IsPlain;
    var list, afi, safi, r := OneRoute(u, k);
    var rest := Withdraw(t, u.withdrawn);
    ApplyIs(t, u, k);
    EntriesAlike(list, afi, safi, r);
    AnnounceOne(rest, Announced(u), r, k);
    ListedEntries(list, afi, safi, r, k);
  }

  // An update announces prefixes of one family, all with one route.
  lemma OneRoute(u: Update, k: Key) returns (list: seq<Nlri>, afi: Afi, safi: byte, r: Route)
    requires InScope(u)
    ensures Announced(u) == Entries(list, afi, safi, r)
    ensures Announces(u, k) <==> k.afi == afi && k.safi == safi && k.nlri in list
    ensures forall x :: r.attrs[x] == if x.Opaque? then multiset(u.attrs)[x] else 0
    ensures forall a :: a in u.attrs && Reaches(a, k) ==> r.nextHop == a.nextHop
    ensures k.nlri in u.nlri ==> r.nextHop == []
  {
    hide Entries, Announced;
    var idx := FirstMp(u.attrs);
    if idx == |u.attrs| {
      list, afi, safi, r := u.nlri, AfiIp, 1, Route(multiset(u.attrs), []);
      OpaqueAnnounces(u.attrs, u.withdrawn, u.nlri);
      forall x: Attr | x in multiset(u.attrs) ensures x.Opaque? { assert x in u.attrs; }
    } else {
      var mp := u.attrs[idx];
      list, afi, safi, r := mp.reach, mp.afi, mp.safi, Route(multiset(RemoveAt(u.attrs, idx)), mp.nextHop);
      RemovedAnnounces(u);
      OneAway(u.attrs, idx);
      assert mp in u.attrs;
    }
  }

  lemma ApplyIs(t: Table, u: Update, k: Key)
    ensures Apply(t, u) == Announce(Withdraw(t, u.withdrawn), Announced(u))
    ensures k in Withdraw(t, u.withdrawn) <==> k in t && !(IsPlain(k) && k.nlri in u.withdrawn)
    ensures k in Withdraw(t, u.withdrawn) ==> Withdraw(t, u.withdrawn)[k] == t[k]
  {
  }

  lemma EntriesAlike(list: seq<Nlri>, afi: Afi, safi: byte, r: Route)
    ensures forall i :: 0 <= i < |list| ==> Entries(list, afi, safi, r)[i].1 == r
  {
  }

  // Without its only MP_REACH_NLRI a list holds exactly the other attributes.
  lemma OneAway(attrs: seq<Attr>, idx: nat)
    requires idx < |attrs| && attrs[idx].MpReach? && forall i :: 0 <= i < |attrs| && i != idx ==> attrs[i].Opaque?
    ensures forall x :: multiset(RemoveAt(attrs, idx))[x] == if x.Opaque? then multiset(attrs)[x] else 0
    ensures forall a :: a in attrs && a.MpReach? ==> a == attrs[idx]
  {
    var others := RemoveAt(attrs, idx);
    assert attrs == attrs[..idx] + [attrs[idx]] + attrs[idx + 1..];
    assert multiset(attrs) == multiset(others) + multiset{attrs[idx]};
    forall x: Attr | x in multiset(others) ensures x.Opaque? { assert x in others; }
  }
}
