/** How long the messages of a split update are (ConstructMaxSizedUpdatePackets in bgp/packet/helpers.go against the check
  * in BGPMessage.Encode, bgp/packet/bgp.go).
  */
module PackingLengths {
  import opened Paths
  import opened NlriCodec
  import opened Updates
  import opened UpdatePacking

  lemma {:induction false} MemberLen(list: seq<Nlri>, i: nat)
    requires i < |list|
    ensures NlriLen(list[i]) <= SumLen(list)
  {
    if i < |list| - 1 { MemberLen(list[..|list| - 1], i); }
  }

  lemma {:induction false} PrefixLenSum(list: seq<Nlri>, k: nat)
    requires k <= |list|
    ensures SumLen(list) == SumLen(list[..k]) + SumLen(list[k..])
    decreases |list| - k
  {
    if k == |list| {
      assert list[..k] == list && list[k..] == [];
    } else {
      PrefixLenSum(list, k + 1);
      assert list[..k + 1] == list[..k] + [list[k]];
      SumLenAppend(list[..k], list[k]);
      SumFromFront(list[k..]);
      assert list[k..][0] == list[k] && list[k..][1..] == list[k + 1..];
    }
  }

  // A clone with some of the prefixes holds its own length.
  lemma CloneWellSized(mp: Attr, s: nat, i: nat)
    requires mp.MpReach? && WellSized(mp) && s <= i <= |mp.reach|
    ensures WellSized(Clone(mp, mp.reach[s..i]))
  {
    hide SumLen;
    PrefixLenSum(mp.reach, i);
    PrefixLenSum(mp.reach[..i], s);
    assert mp.reach[..i][s..] == mp.reach[s..i];
  }

  lemma ShortMore(msgs: seq<Update>, u: Update, max: nat)
    requires Short(msgs, max) && MsgLen(u) <= max
    ensures Short(msgs + [u], max)
  {
  }

  // ---------- prefixes of the message itself ----------

  // The attributes and any one prefix fit into one message.
  predicate NlriFit(list: seq<Nlri>, attrs: seq<Attr>) {
    forall i :: 0 <= i < |list| ==> UPDATE_MIN + AttrsLen(attrs) + NlriLen(list[i]) <= MSG_MAX
  }

  // Before prefix i: `len` counts what is pending beside the attributes, and it fits beside them.
  ghost predicate Roomy(p: Packing, i: nat, list: seq<Nlri>, attrs: seq<Attr>, max: nat) {
    && p.start <= i <= |list| && Short(p.msgs, max)
    && MsgLen(Last(p, attrs, list[p.start..i])) <= p.len + AttrsLen(attrs) + max - MSG_MAX
    && MSG_MAX <= max
    && (p.len + AttrsLen(attrs) <= MSG_MAX || (p.withdrawn == [] && p.pathAttrs == [] && list == []))
  }

  lemma NlriStepRoomy(p: Packing, i: nat, list: seq<Nlri>, attrs: seq<Attr>, max: nat)
    requires i < |list| && Roomy(p, i, list, attrs, max) && NlriFit(list, attrs)
    ensures Roomy(NlriStep(p, i, list, attrs), i + 1, list, attrs, max)
  {
    hide AttrsLen, SumLen, NlriLen, Insert;
    var q := NlriStep(p, i, list, attrs);
    SumLenOne(list, p.start, i);
    InsertOne(attrs, Opaque(0, []));
    if NlriLen(list[i]) + p.len + AttrsLen(attrs) > MSG_MAX {
      ShortMore(p.msgs, Last(p, attrs, list[p.start..i]), max);
      EmptySum();
    }
  }

  lemma EmptySum()
    ensures SumLen([]) == 0 && AttrsLen([]) == 0
  {
  }

  lemma {:induction false} NlriRoomy(p: Packing, i: nat, list: seq<Nlri>, attrs: seq<Attr>, max: nat)
    requires Roomy(p, i, list, attrs, max) && NlriFit(list, attrs)
    ensures Roomy(NlriFrom(p, i, list, attrs), |list|, list, attrs, max)
    decreases |list| - i
  {
    hide MsgLen, AttrsLen, NlriLen, InsertEach;
    if i < |list| {
      NlriStepRoomy(p, i, list, attrs, max);
      NlriRoomy(NlriStep(p, i, list, attrs), i + 1, list, attrs, max);
    }
  }

  lemma PackNlriShort(p: Packing, list: seq<Nlri>, attrs: seq<Attr>, max: nat)
    requires p.start == 0 && Roomy(p, 0, list, attrs, max) && NlriFit(list, attrs)
    requires p.mpFound ==> p.len + AttrsLen(attrs) <= MSG_MAX
    ensures Short(PackNlri(p, list, attrs), max)
  {
    hide MsgLen, AttrsLen, NlriLen, InsertEach, NlriFrom;
    NlriRoomy(p, 0, list, attrs, max);
    var q := NlriFrom(p, 0, list, attrs);
    assert list[q.start..|list|] == list[q.start..];
    if list == [] { NothingMore(p, attrs); }
    if q.withdrawn != [] || q.start < |list| || q.pathAttrs != [] || q.mpFound {
      ShortMore(q.msgs, Last(q, attrs, list[q.start..]), max);
    }
  }

  lemma NothingMore(p: Packing, attrs: seq<Attr>)
    requires p.start == 0
    ensures NlriFrom(p, 0, [], attrs) == p
  {
  }

  // What is left after the withdrawals, when no piece of an attribute is pending.
  lemma FlushRoomy(p: Packing, list: seq<Nlri>, attrs: seq<Attr>, max: nat)
    requires p.start == 0 && p.pathAttrs == [] && p.len == UPDATE_MIN + SumLen(p.withdrawn) <= MSG_MAX <= max
             && Short(p.msgs, max)
    requires NlriFit(list, attrs)
    ensures var q := Flush(p, attrs); q.start == 0 && Roomy(q, 0, list, attrs, max)
    ensures p.len + AttrsLen(attrs) <= MSG_MAX ==> Flush(p, attrs) == p
  {
    hide AttrsLen, SumLen, NlriLen, Insert;
    InsertOne(attrs, Opaque(0, []));
    InsertOne([], Opaque(0, []));
    EmptySum();
    assert list[0..0] == [];
    if p.len + AttrsLen(attrs) > MSG_MAX {
      ShortMore(p.msgs, Update(p.withdrawn, [], []), max);
      assert list != [] ==> UPDATE_MIN + AttrsLen(attrs) + NlriLen(list[0]) <= MSG_MAX;
    }
  }

  // Without a multi-protocol attribute no message is too long if each prefix fits beside the attributes.
  lemma PlainShort(u: Update)
    requires FirstMp(u.attrs) == |u.attrs| && NlriFit(u.nlri, u.attrs)
    ensures Short(Pack(u), MSG_MAX)
  {
    hide PackWithdrawn, PackNlri, Flush, Roomy, NlriFit, AttrsLen, SumLen, Updates.AllWithdrawn;
    WithdrawnSays(u.withdrawn);
    var p := PackWithdrawn(u.withdrawn);
    FlushRoomy(p, u.nlri, u.attrs, MSG_MAX);
    var q := Flush(p, u.attrs).(mpFound := false);
    RoomyAlike(Flush(p, u.attrs), q, u.nlri, u.attrs, MSG_MAX);
    PackNlriShort(q, u.nlri, u.attrs, MSG_MAX);
  }

  lemma RoomyAlike(p: Packing, q: Packing, list: seq<Nlri>, attrs: seq<Attr>, max: nat)
    requires Roomy(p, 0, list, attrs, max) && q == p.(mpFound := q.mpFound)
    ensures Roomy(q, 0, list, attrs, max)
  {
  }

  // Each prefix said so far stands in some message with all the attributes.
  ghost predicate Carried(msgs: seq<Update>, n: Nlri, attrs: seq<Attr>) {
    exists m :: 0 <= m < |msgs| && msgs[m].attrs == attrs && n in msgs[m].nlri
  }

  lemma CarriedMore(msgs: seq<Update>, u: Update, n: Nlri, attrs: seq<Attr>)
    requires Carried(msgs, n, attrs) || (u.attrs == attrs && n in u.nlri)
    ensures Carried(msgs + [u], n, attrs)
  {
    if Carried(msgs, n, attrs) {
      var m :| 0 <= m < |msgs| && msgs[m].attrs == attrs && n in msgs[m].nlri;
      assert (msgs + [u])[m] == msgs[m];
    } else {
      assert (msgs + [u])[|msgs|] == u;
    }
  }

  lemma {:induction false} NlriCarried(p: Packing, i: nat, list: seq<Nlri>, attrs: seq<Attr>, k: nat)
    requires p.start <= i <= |list| && p.pathAttrs == [] && !p.mpFound && k < |list|
             && (k < p.start ==> Carried(p.msgs, list[k], attrs))
    ensures var q := NlriFrom(p, i, list, attrs);
            q.pathAttrs == [] && !q.mpFound && (k < q.start ==> Carried(q.msgs, list[k], attrs))
    decreases |list| - i
  {
    hide Carried, AttrsLen, NlriLen, Insert;
    if i < |list| {
      InsertOne(attrs, Opaque(0, []));
      var u := Update(p.withdrawn, attrs, list[p.start..i]);
      if k < i {
        assert p.start <= k ==> list[p.start..i][k - p.start] == list[k];
        if k < p.start || list[k] in u.nlri { CarriedMore(p.msgs, u, list[k], attrs); }
      }
      NlriCarried(NlriStep(p, i, list, attrs), i + 1, list, attrs, k);
    }
  }

  lemma PackCarries(u: Update, k: nat)
    requires FirstMp(u.attrs) == |u.attrs| && k < |u.nlri|
    ensures Carried(Pack(u), u.nlri[k], u.attrs)
  {
    hide PackWithdrawn, Carried, NlriFrom, AttrsLen, SumLen, Insert;
    WithdrawnSays(u.withdrawn);
    InsertOne(u.attrs, Opaque(0, []));
    var p := Flush(PackWithdrawn(u.withdrawn), u.attrs).(mpFound := false);
    NlriCarried(p, 0, u.nlri, u.attrs, k);
    var q := NlriFrom(p, 0, u.nlri, u.attrs);
    if q.start < |u.nlri| {
      assert q.start <= k ==> u.nlri[q.start..][k - q.start] == u.nlri[k];
      CarriedMore(q.msgs, Last(q, u.attrs, u.nlri[q.start..]), u.nlri[k], u.attrs);
    } else {
      if q.withdrawn != [] { CarriedMore(q.msgs, Last(q, u.attrs, u.nlri[q.start..]), u.nlri[k], u.attrs); }
    }
  }

  // And only then: a prefix that does not fit beside the attributes makes its message too long.
  lemma PlainShortExactly(u: Update)
    requires FirstMp(u.attrs) == |u.attrs|
    ensures Short(Pack(u), MSG_MAX) <==> NlriFit(u.nlri, u.attrs)
  {
    hide Pack, AttrsLen, NlriLen;
    if NlriFit(u.nlri, u.attrs) {
      PlainShort(u);
    } else {
      var k :| 0 <= k < |u.nlri| && UPDATE_MIN + AttrsLen(u.attrs) + NlriLen(u.nlri[k]) > MSG_MAX;
      PackCarries(u, k);
      var m :| 0 <= m < |Pack(u)| && Pack(u)[m].attrs == u.attrs && u.nlri[k] in Pack(u)[m].nlri;
      var j :| 0 <= j < |Pack(u)[m].nlri| && Pack(u)[m].nlri[j] == u.nlri[k];
      MemberLen(Pack(u)[m].nlri, j);
      assert MsgLen(Pack(u)[m]) > MSG_MAX;
    }
  }

  // ---------- prefixes of an attribute ----------

  predicate ReachFit(mp: Attr, others: seq<Attr>)
    requires mp.MpReach?
  {
    forall i :: 0 <= i < |mp.reach| ==> UPDATE_MIN + ReachBase(mp, others) + NlriLen(mp.reach[i]) <= MSG_MAX
  }

  // The clone's header may be one octet longer than the original's.
  function MpMax(mp: Attr): nat
    requires mp.MpReach? && mp.hdrLen <= 4
  {
    MSG_MAX + 4 - mp.hdrLen
  }

  ghost predicate ReachRoomy(p: Packing, i: nat, mp: Attr, others: seq<Attr>)
    requires mp.MpReach? && mp.hdrLen <= 4
  {
    && p.start <= i <= |mp.reach| && (i > 0 ==> p.start < i) && Short(p.msgs, MpMax(mp))
    && p.len == UPDATE_MIN + SumLen(p.withdrawn) + SumLen(mp.reach[p.start..i])
    && p.len + (if i == 0 then 0 else ReachBase(mp, others)) <= MSG_MAX
  }

  lemma PieceLen(p: Packing, s: nat, i: nat, mp: Attr, others: seq<Attr>)
    requires mp.MpReach? && mp.hdrLen <= 4 && s <= i <= |mp.reach|
    ensures MsgLen(Update(p.withdrawn, Insert(others, Clone(mp, mp.reach[s..i])), []))
            <= UPDATE_MIN + SumLen(p.withdrawn) + SumLen(mp.reach[s..i]) + ReachBase(mp, others) + 4 - mp.hdrLen
    ensures WellSized(mp) ==>
              MsgLen(Update(p.withdrawn, Insert(others, Clone(mp, mp.reach[s..i])), []))
              == UPDATE_MIN + SumLen(p.withdrawn) + SumLen(mp.reach[s..i]) + ReachBase(mp, others) + 4 - mp.hdrLen
  {
    hide Insert, SumLen, AttrsLen;
    InsertLen(others, Clone(mp, mp.reach[s..i]));
    if WellSized(mp) { CloneWellSized(mp, s, i); }
    EmptySum();
  }

  lemma {:induction false} InsertLen(attrs: seq<Attr>, a: Attr)
    ensures AttrsLen(Insert(attrs, a)) == AttrsLen(attrs) + TotalLen(a)
  {
    var at := LastGreater(attrs, Code(a));
    var idx := if at == -1 then |attrs| else at;
    assert attrs == attrs[..idx] + attrs[idx..];
    AttrsLenConcat(attrs[..idx], attrs[idx..]);
    AttrsLenConcat(attrs[..idx] + [a], attrs[idx..]);
    AttrsLenAppend(attrs[..idx], a);
  }

  lemma ReachStepRoomy(p: Packing, i: nat, mp: Attr, others: seq<Attr>)
    requires mp.MpReach? && mp.hdrLen <= 4 && i < |mp.reach| && ReachRoomy(p, i, mp, others) && ReachFit(mp, others)
    ensures ReachRoomy(ReachStep(p, i, mp, others), i + 1, mp, others)
  {
    hide SumLen, NlriLen, Insert, ReachBase, MsgLen;
    SumLenOne(mp.reach, p.start, i);
    EmptySum();
    if NlriLen(mp.reach[i]) + p.len + ReachBase(mp, others) > MSG_MAX {
      var u := if i == 0 then Update(p.withdrawn, [], [])
        else Update(p.withdrawn, Insert(others, Clone(mp, mp.reach[p.start..i])), []);
      if i == 0 {
        JustWithdrawals(p.withdrawn);
        assert mp.reach[p.start..i] == [];
      } else {
        PieceLen(p, p.start, i, mp, others);
      }
      ShortMore(p.msgs, u, MpMax(mp));
      assert ReachStep(p, i, mp, others).msgs == p.msgs + [u];
    }
  }

  lemma {:induction false} ReachLens(p: Packing, i: nat, mp: Attr, others: seq<Attr>)
    requires mp.MpReach? && mp.hdrLen <= 4 && ReachRoomy(p, i, mp, others) && ReachFit(mp, others)
    ensures ReachRoomy(ReachFrom(p, i, mp, others), |mp.reach|, mp, others)
    decreases |mp.reach| - i
  {
    hide ReachStep, ReachFit, MpMax, Short, SumLen, ReachBase;
    if i < |mp.reach| {
      ReachStepRoomy(p, i, mp, others);
      ReachLens(ReachStep(p, i, mp, others), i + 1, mp, others);
    }
  }

  // With one MP_REACH_NLRI attribute whose prefixes fit one by one, no message is too long if the attribute has a
  // four-octet header; with a three-octet header a message may have one octet too many.
  lemma MpShort(u: Update)
    requires InScope(u) && FirstMp(u.attrs) < |u.attrs|
    requires var mp := u.attrs[FirstMp(u.attrs)]; mp.hdrLen <= 4 && ReachFit(mp, RemoveAt(u.attrs, FirstMp(u.attrs)))
    ensures Short(Pack(u), MpMax(u.attrs[FirstMp(u.attrs)]))
  {
    hide PackWithdrawn, PackNlri, Flush, Roomy, AttrsLen, SumLen, AllWithdrawn, PackReach, ReachFit, Short;
    var idx := FirstMp(u.attrs);
    var mp, others := u.attrs[idx], RemoveAt(u.attrs, idx);
    WithdrawnSays(u.withdrawn);
    var p := PackWithdrawn(u.withdrawn);
    ShorterIsShort(p.msgs, MSG_MAX, MpMax(mp));
    NoNlri(u.attrs);
    NoNlri(others);
    if p.len + AttrsLen(u.attrs) > MSG_MAX {
      MpSplitShort(p, mp, others);
      RemovedAnnounces(u);
      var q := Flush(PackReach(p, mp, others), others);
      AllOpaqueHasNoMp(others);
      RoomyAlike(q, q.(mpFound := false), [], others, MpMax(mp));
      PackNlriShort(q.(mpFound := false), [], others, MpMax(mp));
    } else {
      FlushRoomy(p, [], u.attrs, MpMax(mp));
      RoomyAlike(p, p.(mpFound := true), [], u.attrs, MpMax(mp));
      PackNlriShort(p.(mpFound := true), [], u.attrs, MpMax(mp));
    }
  }

  lemma NoNlri(attrs: seq<Attr>)
    ensures NlriFit([], attrs)
  {
  }

  lemma AllOpaqueHasNoMp(attrs: seq<Attr>)
    requires AllOpaque(attrs)
    ensures FirstMp(attrs) == |attrs|
  {
  }

  lemma ShorterIsShort(msgs: seq<Update>, max: nat, more: nat)
    requires Short(msgs, max) && max <= more
    ensures Short(msgs, more)
  {
  }

  lemma MpSplitShort(p: Packing, mp: Attr, others: seq<Attr>)
    requires mp.MpReach? && mp.hdrLen <= 4 && ReachFit(mp, others) && p.start == 0 && p.pathAttrs == []
    requires p.len == UPDATE_MIN + SumLen(p.withdrawn) <= MSG_MAX && Short(p.msgs, MpMax(mp))
    ensures var q := Flush(PackReach(p, mp, others), others); q.start == 0 && Roomy(q, 0, [], others, MpMax(mp))
  {
    hide ReachFrom, AttrsLen, SumLen, NlriLen, Insert, ReachFit, Short, MsgLen;
    assert mp.reach[0..0] == [];
    EmptySum();
    ReachLens(p, 0, mp, others);
    ReachKeepsPathAttrs(p, 0, mp, others);
    var q := ReachFrom(p, 0, mp, others);
    var r := PackReach(p, mp, others);
    if mp.reach == [] {
      NothingToReach(p, mp, others);
      NoNlri(others);
      FlushRoomy(p, [], others, MpMax(mp));
    } else {
      assert mp.reach[q.start..|mp.reach|] == mp.reach[q.start..];
      PieceLen(q, q.start, |mp.reach|, mp, others);
      InsertOne(others, Clone(mp, mp.reach[q.start..]));
    }
  }

  lemma NothingToReach(p: Packing, mp: Attr, others: seq<Attr>)
    requires mp.MpReach? && mp.reach == [] && p.start == 0
    ensures PackReach(p, mp, others) == p
  {
  }

  // Prefix k stands in some message, in a clone of the attribute put among all the others.
  ghost predicate CarriedMp(msgs: seq<Update>, k: nat, mp: Attr, others: seq<Attr>)
    requires mp.MpReach?
  {
    exists m, s, i :: 0 <= m < |msgs| && 0 <= s <= k < i <= |mp.reach|
      && msgs[m].attrs == Insert(others, Clone(mp, mp.reach[s..i]))
  }

  lemma StillCarried(msgs: seq<Update>, u: Update, k: nat, mp: Attr, others: seq<Attr>)
    requires mp.MpReach? && CarriedMp(msgs, k, mp, others)
    ensures CarriedMp(msgs + [u], k, mp, others)
  {
    hide Insert, Clone;
    var m, s, i :| 0 <= m < |msgs| && 0 <= s <= k < i <= |mp.reach|
      && msgs[m].attrs == Insert(others, Clone(mp, mp.reach[s..i]));
    assert (msgs + [u])[m] == msgs[m];
  }

  lemma NowCarried(msgs: seq<Update>, u: Update, k: nat, mp: Attr, others: seq<Attr>, s: nat, i: nat)
    requires mp.MpReach? && s <= k < i <= |mp.reach| && u.attrs == Insert(others, Clone(mp, mp.reach[s..i]))
    ensures CarriedMp(msgs + [u], k, mp, others)
  {
    hide Insert, Clone;
    assert (msgs + [u])[|msgs|] == u;
  }

  lemma {:induction false} ReachCarried(p: Packing, i: nat, mp: Attr, others: seq<Attr>, k: nat)
    requires mp.MpReach? && p.start <= i <= |mp.reach| && (k < p.start ==> CarriedMp(p.msgs, k, mp, others))
    ensures var q := ReachFrom(p, i, mp, others); k < q.start ==> CarriedMp(q.msgs, k, mp, others)
    decreases |mp.reach| - i
  {
    hide CarriedMp, Insert, Clone, NlriLen, ReachBase;
    if i < |mp.reach| {
      var q := ReachStep(p, i, mp, others);
      if k < q.start && q.msgs != p.msgs {
        var u := q.msgs[|p.msgs|];
        assert q.msgs == p.msgs + [u];
        if k < p.start { StillCarried(p.msgs, u, k, mp, others); } else { NowCarried(p.msgs, u, k, mp, others, p.start, i); }
      }
      ReachCarried(q, i + 1, mp, others, k);
    }
  }

  // Whatever is left of the attribute goes out last.
  lemma RestCarried(p: Packing, mp: Attr, others: seq<Attr>, s: nat, k: nat)
    requires mp.MpReach? && s <= k < |mp.reach| && p.start == 0 && p.pathAttrs == [Clone(mp, mp.reach[s..])]
    ensures CarriedMp(PackNlri(Flush(p, others).(mpFound := false), [], others), k, mp, others)
  {
    hide CarriedMp, Insert, AttrsLen, NlriFrom;
    var q := Flush(p, others).(mpFound := false);
    NothingMore(q, others);
    InsertOne(others, p.pathAttrs[0]);
    InsertOne(others, Opaque(0, []));
    assert mp.reach[s..|mp.reach|] == mp.reach[s..];
    if p.len + AttrsLen(others) > MSG_MAX {
      assert FirstMp(p.pathAttrs) == 0;
      NowCarried(p.msgs, Update(p.withdrawn, Insert(others, p.pathAttrs[0]), []), k, mp, others, s, |mp.reach|);
    } else {
      NowCarried(p.msgs, Last(q, others, []), k, mp, others, s, |mp.reach|);
    }
  }

  lemma EarlierCarried(p: Packing, mp: Attr, others: seq<Attr>, k: nat)
    requires mp.MpReach? && CarriedMp(p.msgs, k, mp, others) && p.start == 0
    ensures CarriedMp(PackNlri(Flush(p, others).(mpFound := false), [], others), k, mp, others)
  {
    hide CarriedMp, InsertEach, AttrsLen, NlriFrom, FirstMp;
    var r := Flush(p, others);
    if r != p { StillCarried(p.msgs, r.msgs[|p.msgs|], k, mp, others); }
    var q := r.(mpFound := false);
    NothingMore(q, others);
    StillCarried(q.msgs, Last(q, others, []), k, mp, others);
  }

  lemma SplitCarries(p: Packing, mp: Attr, others: seq<Attr>, k: nat)
    requires mp.MpReach? && k < |mp.reach| && p.start == 0
    ensures CarriedMp(PackNlri(Flush(PackReach(p, mp, others), others).(mpFound := false), [], others), k, mp, others)
  {
    hide CarriedMp, ReachFrom, Flush, PackNlri, Clone;
    ReachCarried(p, 0, mp, others, k);
    var q := ReachFrom(p, 0, mp, others);
    if k < q.start { EarlierCarried(PackReach(p, mp, others), mp, others, k); }
      else { RestCarried(PackReach(p, mp, others), mp, others, q.start, k); }
  }

  // A clone that holds a prefix which does not fit makes its message too long.
  lemma CarriedTooLong(msgs: seq<Update>, k: nat, mp: Attr, others: seq<Attr>)
    requires mp.MpReach? && WellSized(mp) && k < |mp.reach| && CarriedMp(msgs, k, mp, others)
    requires UPDATE_MIN + ReachBase(mp, others) + NlriLen(mp.reach[k]) > MSG_MAX
    ensures !Short(msgs, MSG_MAX)
  {
    hide Insert, SumLen, AttrsLen, NlriLen;
    var m, s, i :| 0 <= m < |msgs| && 0 <= s <= k < i <= |mp.reach|
      && msgs[m].attrs == Insert(others, Clone(mp, mp.reach[s..i]));
    var part := mp.reach[s..i];
    InsertLen(others, Clone(mp, part));
    CloneWellSized(mp, s, i);
    assert part[k - s] == mp.reach[k];
    MemberLen(part, k - s);
  }

  // Counting octets only: laid out one after another from prefix i on, with `len` octets in the message so far, the
  // prefixes fill some message to the brim.
  predicate Brims(len: nat, i: nat, mp: Attr, others: seq<Attr>)
    requires mp.MpReach? && i <= |mp.reach|
    decreases |mp.reach| - i
  {
    var full := i > 0 && len + ReachBase(mp, others) == MSG_MAX;
    if i == |mp.reach| then full
    else if NlriLen(mp.reach[i]) + len + ReachBase(mp, others) > MSG_MAX then
      full || Brims(UPDATE_MIN + NlriLen(mp.reach[i]), i + 1, mp, others)
    else Brims(len + NlriLen(mp.reach[i]), i + 1, mp, others)
  }

  // How many prefixes of l octets fit into f, and what they leave.
  function Fit(f: nat, l: nat): nat
    requires l > 0
  {
    if f < l then 0 else 1 + Fit(f - l, l)
  }

  function Spare(f: nat, l: nat): nat
    requires l > 0
  {
    if f < l then f else Spare(f - l, l)
  }

  lemma {:induction false} FitMeans(f: nat, l: nat)
    requires l > 0
    ensures f == Fit(f, l) * l + Spare(f, l) && Spare(f, l) < l
  {
    if f >= l { FitMeans(f - l, l); }
  }

  // With `f` octets of room left in the message at prefix i, and `room` in every later one, prefixes of one length fill a
  // message to the brim if and only if there are enough of them and they leave nothing of its room.
  lemma {:induction false} BrimsFrom(len: nat, i: nat, mp: Attr, others: seq<Attr>, l: nat, f: nat, room: nat)
    requires mp.MpReach? && 0 < i <= |mp.reach| && l > 0 && forall k :: 0 <= k < |mp.reach| ==> NlriLen(mp.reach[k]) == l
    requires len + f + ReachBase(mp, others) == MSG_MAX && UPDATE_MIN + room + ReachBase(mp, others) == MSG_MAX && l <= room
    ensures var m := |mp.reach| - i;
            Brims(len, i, mp, others) <==>
            (m >= Fit(f, l) && Spare(f, l) == 0) || (m - Fit(f, l) >= Fit(room, l) && Spare(room, l) == 0)
    decreases |mp.reach| - i
  {
    hide NlriLen, ReachBase;
    if i < |mp.reach| {
      if l > f {
        BrimsFrom(UPDATE_MIN + l, i + 1, mp, others, l, room - l, room);
      } else {
        BrimsFrom(len + l, i + 1, mp, others, l, f - l, room);
      }
    }
  }

  // From the front: `first` octets of room in the first message, if any.
  lemma BrimsOneLength(len: nat, mp: Attr, others: seq<Attr>, l: nat)
    requires mp.MpReach? && l > 0 && forall k :: 0 <= k < |mp.reach| ==> NlriLen(mp.reach[k]) == l
    requires UPDATE_MIN + ReachBase(mp, others) + l <= MSG_MAX
    ensures var room, first := MSG_MAX - UPDATE_MIN - ReachBase(mp, others), MSG_MAX - len - ReachBase(mp, others);
            var n, k := |mp.reach|, if first > 0 then Fit(first, l) else 0;
            Brims(len, 0, mp, others) <==>
            (k > 0 && n >= k && Spare(first, l) == 0) || (n - k >= Fit(room, l) && Spare(room, l) == 0)
  {
    hide NlriLen, ReachBase;
    var room, first := MSG_MAX - UPDATE_MIN - ReachBase(mp, others), MSG_MAX - len - ReachBase(mp, others);
    if mp.reach != [] {
      if first < l {
        BrimsFrom(UPDATE_MIN + l, 1, mp, others, l, room - l, room);
      } else {
        BrimsFrom(len + l, 1, mp, others, l, first - l, room);
      }
    }
  }

  lemma ShortMoreExactly(msgs: seq<Update>, u: Update, max: nat)
    ensures Short(msgs + [u], max) <==> Short(msgs, max) && MsgLen(u) <= max
  {
    assert forall i :: 0 <= i < |msgs| ==> (msgs + [u])[i] == msgs[i];
    assert (msgs + [u])[|msgs|] == u;
  }

  lemma ReachStepBrims(p: Packing, i: nat, mp: Attr, others: seq<Attr>)
    requires mp.MpReach? && WellSized(mp) && mp.hdrLen == 3 && i < |mp.reach| && ReachRoomy(p, i, mp, others)
    ensures var q := ReachStep(p, i, mp, others);
            Short(q.msgs, MSG_MAX) && !Brims(q.len, i + 1, mp, others)
            <==> Short(p.msgs, MSG_MAX) && !Brims(p.len, i, mp, others)
  {
    hide SumLen, NlriLen, Insert, ReachBase, MsgLen, Short, WellSized;
    if NlriLen(mp.reach[i]) + p.len + ReachBase(mp, others) > MSG_MAX {
      if i == 0 {
        JustWithdrawals(p.withdrawn);
        assert mp.reach[p.start..i] == [];
        EmptySum();
        ShortMoreExactly(p.msgs, Update(p.withdrawn, [], []), MSG_MAX);
      } else {
        PieceLen(p, p.start, i, mp, others);
        ShortMoreExactly(p.msgs, Update(p.withdrawn, Insert(others, Clone(mp, mp.reach[p.start..i])), []), MSG_MAX);
      }
    }
  }

  lemma {:induction false} ReachBrims(p: Packing, i: nat, mp: Attr, others: seq<Attr>)
    requires mp.MpReach? && WellSized(mp) && mp.hdrLen == 3 && ReachRoomy(p, i, mp, others) && ReachFit(mp, others)
    ensures var q := ReachFrom(p, i, mp, others);
            Short(q.msgs, MSG_MAX) && !Brims(q.len, |mp.reach|, mp, others)
            <==> Short(p.msgs, MSG_MAX) && !Brims(p.len, i, mp, others)
    decreases |mp.reach| - i
  {
    hide ReachStep, ReachFit, Short, SumLen, ReachBase, Brims, WellSized;
    if i < |mp.reach| {
      ReachStepRoomy(p, i, mp, others);
      ReachStepBrims(p, i, mp, others);
      ReachBrims(ReachStep(p, i, mp, others), i + 1, mp, others);
    }
  }

  // The split attribute, when its header had three octets: a clone's has four.
  lemma SplitShortExactly(p: Packing, mp: Attr, others: seq<Attr>)
    requires mp.MpReach? && WellSized(mp) && mp.hdrLen == 3 && mp.reach != [] && ReachFit(mp, others) && p.start == 0
    requires p.pathAttrs == [] && p.len == UPDATE_MIN + SumLen(p.withdrawn) <= MSG_MAX && Short(p.msgs, MSG_MAX)
    ensures Short(PackNlri(Flush(PackReach(p, mp, others), others).(mpFound := false), [], others), MSG_MAX)
            <==> !Brims(p.len, 0, mp, others)
  {
    hide ReachFrom, AttrsLen, SumLen, NlriLen, Insert, ReachFit, Short, MsgLen, WellSized;
    assert mp.reach[0..0] == [];
    EmptySum();
    ShorterIsShort(p.msgs, MSG_MAX, MpMax(mp));
    ReachLens(p, 0, mp, others);
    ReachBrims(p, 0, mp, others);
    ReachKeepsPathAttrs(p, 0, mp, others);
    var q := ReachFrom(p, 0, mp, others);
    assert mp.reach[q.start..|mp.reach|] == mp.reach[q.start..];
    PieceLen(q, q.start, |mp.reach|, mp, others);
    InsertOne(others, Clone(mp, mp.reach[q.start..]));
    var r := PackReach(p, mp, others);
    NothingMore(r.(mpFound := false), others);
    ShortMoreExactly(q.msgs, Update(q.withdrawn, Insert(others, Clone(mp, mp.reach[q.start..])), []), MSG_MAX);
  }

  // The update is split, and a message of the split is filled to the brim.
  predicate BrimsOver(u: Update)
    requires FirstMp(u.attrs) < |u.attrs| && u.attrs[FirstMp(u.attrs)].MpReach?
  {
    var idx, len := FirstMp(u.attrs), PackWithdrawn(u.withdrawn).len;
    len + AttrsLen(u.attrs) > MSG_MAX && Brims(len, 0, u.attrs[idx], RemoveAt(u.attrs, idx))
  }

  // And a prefix that does not fit always makes a message too long. So no message is too long if and only if the prefixes
  // fit one by one and, for an attribute with a three-octet header, no message is filled to the brim.
  lemma MpShortExactly(u: Update)
    requires InScope(u) && FirstMp(u.attrs) < |u.attrs| && WellSized(u.attrs[FirstMp(u.attrs)])
    ensures var mp := u.attrs[FirstMp(u.attrs)];
            Short(Pack(u), MSG_MAX) <==>
            ReachFit(mp, RemoveAt(u.attrs, FirstMp(u.attrs))) && !(mp.hdrLen == 3 && BrimsOver(u))
  {
    hide PackWithdrawn, PackNlri, Flush, AttrsLen, SumLen, AllWithdrawn, PackReach, Short, CarriedMp, NlriLen, Brims;
    var idx := FirstMp(u.attrs);
    var mp, others := u.attrs[idx], RemoveAt(u.attrs, idx);
    RemovedAnnounces(u);
    AllOpaqueHasNoMp(others);
    WithdrawnSays(u.withdrawn);
    if !ReachFit(mp, others) {
      var k :| 0 <= k < |mp.reach| && UPDATE_MIN + ReachBase(mp, others) + NlriLen(mp.reach[k]) > MSG_MAX;
      MemberLen(mp.reach, k);
      SplitCarries(PackWithdrawn(u.withdrawn), mp, others, k);
      CarriedTooLong(Pack(u), k, mp, others);
    } else if mp.hdrLen == 4 {
      MpShort(u);
    } else {
      ThreeOctetShort(u);
    }
  }

  lemma ThreeOctetShort(u: Update)
    requires InScope(u) && FirstMp(u.attrs) < |u.attrs| && WellSized(u.attrs[FirstMp(u.attrs)])
    requires u.attrs[FirstMp(u.attrs)].hdrLen == 3
    requires ReachFit(u.attrs[FirstMp(u.attrs)], RemoveAt(u.attrs, FirstMp(u.attrs)))
    ensures Short(Pack(u), MSG_MAX) <==> !BrimsOver(u)
  {
    hide PackWithdrawn, PackNlri, Flush, Roomy, AttrsLen, SumLen, AllWithdrawn, PackReach, ReachFit, Short, WellSized;
    var idx := FirstMp(u.attrs);
    var mp, others := u.attrs[idx], RemoveAt(u.attrs, idx);
    WithdrawnSays(u.withdrawn);
    var p := PackWithdrawn(u.withdrawn);
    NoNlri(u.attrs);
    NoNlri(others);
    RemovedAnnounces(u);
    AllOpaqueHasNoMp(others);
    if p.len + AttrsLen(u.attrs) <= MSG_MAX {
      FlushRoomy(p, [], u.attrs, MSG_MAX);
      RoomyAlike(p, p.(mpFound := true), [], u.attrs, MSG_MAX);
      PackNlriShort(p.(mpFound := true), [], u.attrs, MSG_MAX);
    } else if mp.reach == [] {
      NothingToReach(p, mp, others);
      FlushRoomy(p, [], others, MSG_MAX);
      var q := Flush(p, others);
      RoomyAlike(q, q.(mpFound := false), [], others, MSG_MAX);
      PackNlriShort(q.(mpFound := false), [], others, MSG_MAX);
    } else {
      SplitShortExactly(p, mp, others);
    }
  }

  // A received attribute with a three-octet header, two prefixes, and attributes that leave room for exactly one:
  // the first message comes out at 4097 octets.
  lemma ThreeOctetHeaderOverflows(others: Attr, mp: Attr, first: Nlri, second: Nlri)
    requires others.Opaque? && others.code == 1 && mp.MpReach? && mp.hdrLen == 3 && mp.reach == [first, second]
    requires |mp.nextHop| == 5 && NlriLen(first) == NlriLen(second) == 5
             && |others.octets| == MSG_MAX - UPDATE_MIN - 3 - 4 - 5 - 5
    ensures var u := Update([], [others, mp], []);
            && FirstMp(u.attrs) == 1 && InScope(u) && ReachFit(mp, RemoveAt(u.attrs, 1))
            && exists m :: 0 <= m < |Pack(u)| && MsgLen(Pack(u)[m]) == MSG_MAX + 1
  {
    hide SumLen, NlriLen, Insert, Clone;
    var u := Update([], [others, mp], []);
    assert FirstMp(u.attrs) == 1 by { assert u.attrs[1].MpReach? && u.attrs[0].Opaque?; }
    assert RemoveAt(u.attrs, 1) == [others];
    TwoAttrs(others, mp, first, second);
    var p := Packing([], [], [], 0, UPDATE_MIN, false);
    var q := ReachFrom(p, 0, mp, [others]);
    TwoPieces(p, others, mp, first, second);
    InsertLen([others], Clone(mp, [first]));
    EmptySum();
    OneSum(first);
    var r := Flush(PackReach(p, mp, [others]), [others]).(mpFound := FirstMp([others]) < 1);
    assert r.msgs[0] == q.msgs[0];
    assert Pack(u) == PackNlri(r, [], [others]);
    NothingMore(r, [others]);
    assert Pack(u)[0] == q.msgs[0];
    CloneLen(mp, first);
    assert MsgLen(Pack(u)[0]) == MSG_MAX + 1;
  }

  lemma CloneLen(mp: Attr, first: Nlri)
    requires mp.MpReach? && |mp.nextHop| == 5 && NlriLen(first) == 5
    ensures TotalLen(Clone(mp, [first])) == 18
  {
    OneSum(first);
  }

  lemma OneSum(n: Nlri)
    ensures SumLen([n]) == NlriLen(n)
  {
    SumLenAppend([], n);
    assert [] + [n] == [n];
  }

  lemma TwoAttrs(others: Attr, mp: Attr, first: Nlri, second: Nlri)
    requires others.Opaque? && mp.MpReach? && mp.hdrLen == 3 && mp.reach == [first, second]
    requires |mp.nextHop| == 5 && NlriLen(first) == NlriLen(second) == 5 && |others.octets| == MSG_MAX - UPDATE_MIN - 17
    ensures AttrsLen([others]) == |others.octets| && ReachBase(mp, [others]) == MSG_MAX - UPDATE_MIN - 5
    ensures AttrsLen([others, mp]) == |others.octets| + 22
  {
    hide NlriLen;
    AttrsLenAppend([], others);
    assert [] + [others] == [others];
    AttrsLenAppend([others], mp);
    assert [others] + [mp] == [others, mp];
    OneSum(first);
    SumLenAppend([first], second);
    assert [first] + [second] == [first, second];
  }

  lemma TwoPieces(p: Packing, others: Attr, mp: Attr, first: Nlri, second: Nlri)
    requires p == Packing([], [], [], 0, UPDATE_MIN, false) && mp.MpReach? && mp.reach == [first, second]
    requires NlriLen(first) == NlriLen(second) == 5 && ReachBase(mp, [others]) == MSG_MAX - UPDATE_MIN - 5
    ensures var q := ReachFrom(p, 0, mp, [others]);
            q.msgs == [Update([], Insert([others], Clone(mp, [first])), [])] && q.start == 1 && q.withdrawn == []
  {
    hide NlriLen, Insert, ReachBase;
    var p1 := ReachStep(p, 0, mp, [others]);
    assert p1 == p.(len := UPDATE_MIN + 5);
    var p2 := ReachStep(p1, 1, mp, [others]);
    assert mp.reach[0..1] == [first];
    assert p2.msgs == [Update([], Insert([others], Clone(mp, [first])), [])];
    assert ReachFrom(p, 0, mp, [others]) == ReachFrom(p1, 1, mp, [others]) == ReachFrom(p2, 2, mp, [others]) == p2;
  }
}
