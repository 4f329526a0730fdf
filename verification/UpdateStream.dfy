/** A split update on its way to a peer: every message can be encoded if the update can, the encoder accepts all of them
  * exactly when the parts fit, and the peer reads and applies what was to be said.
  */
module UpdateStreams {
  import opened Paths
  import opened NlriCodec
  import opened Updates
  import opened UpdateDecoding
  import opened UpdatePacking
  import opened PackingLengths

  // ---------- the pieces are as good as the whole ----------

  // An attribute and a list that can be encoded and, by a receiver with or without path identifiers, read as they are.
  ghost predicate Good(a: Attr, rx: Option<bool>) {
    WellSized(a) && (rx.Some? ==> Readable(a, rx.value) && !HasLinkLocal(a))
  }

  ghost predicate ListGood(list: seq<Nlri>, rx: Option<bool>) {
    AllEncodable(list, AfiIp) && (rx.Some? ==> AllCanonical(list, rx.value, AfiIp))
  }

  ghost predicate UpdateGood(u: Update, rx: Option<bool>) {
    ListGood(u.withdrawn, rx) && AttrsGood(u.attrs, rx) && ListGood(u.nlri, rx)
  }

  ghost predicate AllGood(msgs: seq<Update>, rx: Option<bool>) { forall i :: 0 <= i < |msgs| ==> UpdateGood(msgs[i], rx) }

  ghost predicate AttrsGood(attrs: seq<Attr>, rx: Option<bool>) { forall i :: 0 <= i < |attrs| ==> Good(attrs[i], rx) }

  lemma InsertGood(attrs: seq<Attr>, a: Attr, rx: Option<bool>)
    requires AttrsGood(attrs, rx) && Good(a, rx)
    ensures AttrsGood(Insert(attrs, a), rx)
  {
  }

  lemma {:induction false} InsertEachGood(attrs: seq<Attr>, more: seq<Attr>, rx: Option<bool>)
    requires AttrsGood(attrs, rx) && AttrsGood(more, rx)
    ensures AttrsGood(InsertEach(attrs, more), rx)
  {
    hide Insert;
    if more != [] {
      InsertEachGood(attrs, more[..|more| - 1], rx);
      InsertGood(InsertEach(attrs, more[..|more| - 1]), more[|more| - 1], rx);
    }
  }

  lemma CloneGood(mp: Attr, s: nat, i: nat, rx: Option<bool>)
    requires mp.MpReach? && Good(mp, rx) && s <= i <= |mp.reach|
    ensures Good(Clone(mp, mp.reach[s..i]), rx)
  {
    hide SumLen;
    CloneWellSized(mp, s, i);
  }

  // Everything out and everything pending is.
  ghost predicate Encodes(p: Packing, rx: Option<bool>) {
    AllGood(p.msgs, rx) && ListGood(p.withdrawn, rx) && AttrsGood(p.pathAttrs, rx)
  }

  lemma EncodesMore(p: Packing, u: Update, rx: Option<bool>)
    requires Encodes(p, rx) && ListGood(u.withdrawn, rx) && AttrsGood(u.attrs, rx) && ListGood(u.nlri, rx)
    ensures AllGood(p.msgs + [u], rx)
  {
  }

  lemma {:induction false} WithdrawGood(p: Packing, i: nat, list: seq<Nlri>, rx: Option<bool>)
    requires p.start <= i <= |list| && Encodes(p, rx) && ListGood(list, rx)
    ensures Encodes(WithdrawFrom(p, i, list), rx)
    decreases |list| - i
  {
    hide NlriLen, Good;
    if i < |list| {
      EncodesMore(p, Update(list[p.start..i], [], []), rx);
      WithdrawGood(WithdrawStep(p, i, list), i + 1, list, rx);
    }
  }

  lemma {:induction false} ReachGood(p: Packing, i: nat, mp: Attr, others: seq<Attr>, rx: Option<bool>)
    requires mp.MpReach? && p.start <= i <= |mp.reach| && Encodes(p, rx) && Good(mp, rx) && AttrsGood(others, rx)
    ensures Encodes(ReachFrom(p, i, mp, others), rx)
    decreases |mp.reach| - i
  {
    hide NlriLen, Good, Insert, ReachBase, AllGood, AttrsGood;
    if i < |mp.reach| {
      CloneGood(mp, p.start, i, rx);
      InsertGood(others, Clone(mp, mp.reach[p.start..i]), rx);
      NoAttrs(rx);
      EncodesMore(p, Piece(p, i, mp, others), rx);
      ReachGood(ReachStep(p, i, mp, others), i + 1, mp, others, rx);
    }
  }

  lemma NoAttrs(rx: Option<bool>)
    ensures AttrsGood([], rx)
  {
  }

  lemma {:induction false} NlriGood(p: Packing, i: nat, list: seq<Nlri>, attrs: seq<Attr>, rx: Option<bool>)
    requires p.start <= i <= |list| && Encodes(p, rx) && ListGood(list, rx) && AttrsGood(attrs, rx)
    ensures Encodes(NlriFrom(p, i, list, attrs), rx)
    decreases |list| - i
  {
    hide NlriLen, Good, InsertEach, AttrsLen, AllGood, AttrsGood;
    if i < |list| {
      InsertEachGood(attrs, p.pathAttrs, rx);
      NoAttrs(rx);
      EncodesMore(p, Last(p, attrs, list[p.start..i]), rx);
      NlriGood(NlriStep(p, i, list, attrs), i + 1, list, attrs, rx);
    }
  }

  lemma PackNlriGood(p: Packing, list: seq<Nlri>, attrs: seq<Attr>, rx: Option<bool>)
    requires p.start == 0 && Encodes(p, rx) && ListGood(list, rx) && AttrsGood(attrs, rx)
    ensures AllGood(PackNlri(p, list, attrs), rx)
  {
    hide NlriFrom, Good, InsertEach, AllGood, AttrsGood;
    NlriGood(p, 0, list, attrs, rx);
    var q := NlriFrom(p, 0, list, attrs);
    InsertEachGood(attrs, q.pathAttrs, rx);
    EncodesMore(q, Last(q, attrs, list[q.start..]), rx);
  }

  lemma FlushGood(p: Packing, attrs: seq<Attr>, rx: Option<bool>)
    requires Encodes(p, rx) && AttrsGood(attrs, rx)
    ensures Encodes(Flush(p, attrs), rx)
  {
    hide Good, InsertEach, AttrsLen, AllGood, AttrsGood, FirstMp;
    NoAttrs(rx);
    InsertEachGood(attrs, p.pathAttrs, rx);
    InsertEachGood([], p.pathAttrs, rx);
    EncodesMore(p, Last(p, attrs, []), rx);
    EncodesMore(p, Last(p, [], []), rx);
  }

  lemma PackReachGood(p: Packing, mp: Attr, others: seq<Attr>, rx: Option<bool>)
    requires mp.MpReach? && p.start == 0 && Encodes(p, rx) && Good(mp, rx) && AttrsGood(others, rx)
    ensures Encodes(PackReach(p, mp, others), rx)
  {
    hide Good, ReachFrom, AllGood;
    ReachGood(p, 0, mp, others, rx);
    var q := ReachFrom(p, 0, mp, others);
    CloneGood(mp, q.start, |mp.reach|, rx);
    assert mp.reach[q.start..|mp.reach|] == mp.reach[q.start..];
  }

  lemma PackGood(u: Update, rx: Option<bool>)
    requires UpdateGood(u, rx)
    ensures AllGood(Pack(u), rx)
  {
    hide WithdrawFrom, Good, Flush, PackReach, PackNlri, AttrsLen, AllGood;
    assert Encodes(Packing([], [], [], 0, UPDATE_MIN, false), rx) by { NothingGood(rx); }
    WithdrawGood(Packing([], [], [], 0, UPDATE_MIN, false), 0, u.withdrawn, rx);
    var p := PackWithdrawn(u.withdrawn);
    FlushGood(p, u.attrs, rx);
    var idx := FirstMp(u.attrs);
    if idx < |u.attrs| {
      var others := RemoveAt(u.attrs, idx);
      PackReachGood(p, u.attrs[idx], others, rx);
      FlushGood(PackReach(p, u.attrs[idx], others), others, rx);
      FlushStarts(PackReach(p, u.attrs[idx], others), others);
      PackReachStarts(p, u.attrs[idx], others);
      PackNlriGood(Flush(PackReach(p, u.attrs[idx], others), others).(mpFound := FirstMp(others) < |others|),
        u.nlri, others, rx);
    }
    FlushStarts(p, u.attrs);
    PackNlriGood(Flush(p, u.attrs).(mpFound := idx < |u.attrs|), u.nlri, u.attrs, rx);
  }

  lemma NothingGood(rx: Option<bool>)
    ensures AllGood([], rx) && AttrsGood([], rx)
  {
  }

  lemma FlushStarts(p: Packing, attrs: seq<Attr>)
    ensures Flush(p, attrs).start == p.start
  {
  }

  lemma PackReachStarts(p: Packing, mp: Attr, others: seq<Attr>)
    requires mp.MpReach? && p.start == 0
    ensures PackReach(p, mp, others).start == 0
  {
  }

  // Every prefix the update announces fits into one message with all the attributes, and the longer header of a clone
  // makes no difference.
  predicate PartsFit(u: Update)
    requires FirstMp(u.attrs) < |u.attrs| ==> u.attrs[FirstMp(u.attrs)].MpReach?
  {
    var idx := FirstMp(u.attrs);
    if idx == |u.attrs| then NlriFit(u.nlri, u.attrs)
    else ReachFit(u.attrs[idx], RemoveAt(u.attrs, idx)) && !(u.attrs[idx].hdrLen == 3 && BrimsOver(u))
  }

  // The encoder accepts every message of the split update if and only if the parts fit.
  lemma PiecesAreSent(u: Update)
    requires InScope(u) && UpdateWellSized(u)
    ensures forall i :: 0 <= i < |Pack(u)| ==> UpdateWellSized(Pack(u)[i])
    ensures (forall i :: 0 <= i < |Pack(u)| ==> EncodeMessage(Pack(u)[i]).Ok?) <==> PartsFit(u)
  {
    hide Pack, UpdateWellSized, MsgLen, EncodeMessage, NlriFit, ReachFit, BrimsOver;
    assert UpdateGood(u, None) by { WellSizedIsGood(u); }
    PackGood(u, None);
    forall i | 0 <= i < |Pack(u)| ensures UpdateWellSized(Pack(u)[i]) { WellSizedIsGood(Pack(u)[i]); }
    if FirstMp(u.attrs) == |u.attrs| {
      PlainShortExactly(u);
    } else {
      MpWellSized(u);
      MpShortExactly(u);
    }
    forall i | 0 <= i < |Pack(u)| ensures EncodeMessage(Pack(u)[i]).Ok? <==> MsgLen(Pack(u)[i]) <= MSG_MAX {
      EncodeSucceeds(Pack(u)[i]);
    }
  }

  lemma WellSizedIsGood(u: Update)
    ensures UpdateWellSized(u) <==> UpdateGood(u, None)
    ensures forall rx :: UpdateGood(u, Some(rx)) ==>
              UpdateWellSized(u) && UpdateReadable(u, rx) && forall i :: 0 <= i < |u.attrs| ==> !HasLinkLocal(u.attrs[i])
  {
    hide WellSized, Readable, HasLinkLocal, Encodable, Canonical;
  }

  lemma MpWellSized(u: Update)
    requires UpdateWellSized(u) && FirstMp(u.attrs) < |u.attrs|
    ensures WellSized(u.attrs[FirstMp(u.attrs)])
  {
  }

  // ---------- a connection ----------

  ghost predicate CanSend(msgs: seq<Update>) {
    forall i :: 0 <= i < |msgs| ==> UpdateWellSized(msgs[i]) && EncodeMessage(msgs[i]).Ok?
  }

  // The octets of the messages, one after another.
  ghost function Stream(msgs: seq<Update>): seq<byte>
    requires CanSend(msgs)
  {
    if msgs == [] then [] else EncodeMessage(msgs[0]).value + Stream(msgs[1..])
  }

  // What a peer reads from them, message by message.
  function ReadAll(stream: seq<byte>, addPaths: bool): Result<seq<Update>>
    decreases |stream|
  {
    if stream == [] then Ok([])
    else
      match ReadUpdate(stream, addPaths)
      case Err => Err
      case Ok((u, n)) =>
        var more := ReadAll(stream[n..], addPaths);
        if more.Ok? then Ok([u] + more.value) else Err
  }

  lemma {:induction false} StreamRoundTrip(msgs: seq<Update>, addPaths: bool)
    requires CanSend(msgs) && AllGood(msgs, Some(addPaths))
    ensures ReadAll(Stream(msgs), addPaths) == Ok(msgs)
  {
    hide UpdateWellSized, UpdateGood, UpdateReadable, EncodeMessage, ReadUpdate, HasLinkLocal;
    if msgs != [] {
      var first, rest := EncodeMessage(msgs[0]).value, Stream(msgs[1..]);
      WellSizedIsGood(msgs[0]);
      MessageRoundTrip(msgs[0], rest, addPaths);
      StreamRoundTrip(msgs[1..], addPaths);
      assert (first + rest)[|first|..] == rest;
      assert first != [] by { MessageLayout(msgs[0]); }
      assert [msgs[0]] + msgs[1..] == msgs;
    }
  }

  // An update whose parts fit is split, sent, read and applied: to any table the peer does what the update says.
  lemma WireKeepsMeaning(u: Update, t: Table, addPaths: bool)
    requires InScope(u) && UpdateGood(u, Some(addPaths)) && PartsFit(u)
    ensures CanSend(Pack(u))
    ensures var read := ReadAll(Stream(Pack(u)), addPaths); read.Ok? && ApplyAll(t, read.value) == Apply(t, u)
  {
    hide Pack, UpdateGood, UpdateWellSized, EncodeMessage, PartsFit, ReadAll, Stream, UpdateReadable, Apply, ApplyAll;
    WellSizedIsGood(u);
    PiecesAreSent(u);
    PackGood(u, Some(addPaths));
    StreamRoundTrip(Pack(u), addPaths);
    PackKeepsMeaning(u, t);
  }
}
