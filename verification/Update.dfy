/** UPDATE messages on the wire and what they do to a table of routes (BGPUpdate.Encode and BGPMessage.Encode in
  * bgp/packet/bgp.go, the MP_REACH_NLRI attribute in bgp/packet/mpbgp.go; section 4.3 of RFC 4271, section 3 of RFC 4760).
  */
module Updates {
  import opened Paths
  import opened NlriCodec

  const MSG_MAX := 4096
  const HEADER_LEN := 19
  const UPDATE_MIN := 23
  const CODE_MP_REACH := 14

  // An attribute other than MP_REACH_NLRI is its encoding. `hdrLen` is BGPPathAttrLen, 4 unless the attribute was
  // received with a one-octet length; `nextHop` holds the next hop's length octet and its octets.
  datatype Attr =
    | Opaque(code: byte, octets: seq<byte>)
    | MpReach(hdrLen: nat, afi: Afi, safi: byte, nextHop: seq<byte>, reach: seq<Nlri>)

  datatype Update = Update(withdrawn: seq<Nlri>, attrs: seq<Attr>, nlri: seq<Nlri>)

  function Code(a: Attr): byte { if a.Opaque? then a.code else CODE_MP_REACH }

  // ---------- lengths ----------

  function SumLen(list: seq<Nlri>): nat {
    if list == [] then 0 else SumLen(list[..|list| - 1]) + NlriLen(list[|list| - 1])
  }

  // The Length field has sixteen bits.
  function TotalLen(a: Attr): nat {
    if a.Opaque? then |a.octets| else a.hdrLen + (4 + |a.nextHop| + SumLen(a.reach)) % 0x1_0000
  }

  function AttrsLen(attrs: seq<Attr>): nat {
    if attrs == [] then 0 else AttrsLen(attrs[..|attrs| - 1]) + TotalLen(attrs[|attrs| - 1])
  }

  function MsgLen(u: Update): nat { UPDATE_MIN + SumLen(u.withdrawn) + AttrsLen(u.attrs) + SumLen(u.nlri) }

  lemma SumLenAppend(list: seq<Nlri>, n: Nlri)
    ensures SumLen(list + [n]) == SumLen(list) + NlriLen(n)
  {
    assert (list + [n])[..|list|] == list;
  }

  lemma AttrsLenAppend(attrs: seq<Attr>, a: Attr)
    ensures AttrsLen(attrs + [a]) == AttrsLen(attrs) + TotalLen(a)
  {
    assert (attrs + [a])[..|attrs|] == attrs;
  }

  lemma {:induction false} AttrsLenConcat(a: seq<Attr>, b: seq<Attr>)
    ensures AttrsLen(a + b) == AttrsLen(a) + AttrsLen(b)
  {
    if b == [] {
      assert a + b == a;
    } else {
      assert (a + b)[..|a + b| - 1] == a + b[..|b| - 1];
      AttrsLenConcat(a, b[..|b| - 1]);
    }
  }

  // ---------- the encoders ----------

  predicate AllEncodable(list: seq<Nlri>, afi: Afi) { forall i :: 0 <= i < |list| ==> Encodable(list[i].ip, afi) }

  // The attribute's own length field can hold its length.
  predicate WellSized(a: Attr) {
    a.MpReach? ==>
      && AllEncodable(a.reach, a.afi) && (a.hdrLen == 3 || a.hdrLen == 4)
      && 4 + |a.nextHop| + SumLen(a.reach) < (if a.hdrLen == 3 then 256 else 0x1_0000)
  }

  predicate UpdateWellSized(u: Update) {
    && AllEncodable(u.withdrawn, AfiIp) && AllEncodable(u.nlri, AfiIp)
    && forall i :: 0 <= i < |u.attrs| ==> WellSized(u.attrs[i])
  }

  function Octets2(v: nat): (r: seq<byte>)
    ensures |r| == 2
  {
    [v / 256 % 256, v % 256]
  }

  // Flags, type code and length; BGPPathAttrBase.Encode writes one length octet without the extended-length flag.
  function MpHeader(hdrLen: nat, length: nat): (r: seq<byte>)
    requires (hdrLen == 4 && length < 0x1_0000) || (hdrLen == 3 && length < 256)
    ensures |r| == hdrLen
  {
    if hdrLen == 4 then [0x90, CODE_MP_REACH] + Octets2(length) else [0x80, CODE_MP_REACH, length]
  }

  function MpValue(afi: Afi, safi: byte, nextHop: seq<byte>, list: seq<byte>): (r: seq<byte>)
    ensures |r| == 4 + |nextHop| + |list|
  {
    Octets2(if afi.AfiIp? then 1 else 2) + [safi] + nextHop + [0] + list
  }

  function EncodeAttr(a: Attr): (pkt: seq<byte>)
    requires WellSized(a)
  {
    match a
    case Opaque(_, octets) => octets
    case MpReach(hdrLen, afi, safi, nextHop, reach) =>
      MpHeader(hdrLen, 4 + |nextHop| + SumLen(reach)) + MpValue(afi, safi, nextHop, EncodeAll(reach, afi))
  }

  function EncodeAttrs(attrs: seq<Attr>): seq<byte>
    requires forall i :: 0 <= i < |attrs| ==> WellSized(attrs[i])
  {
    if attrs == [] then [] else EncodeAttrs(attrs[..|attrs| - 1]) + EncodeAttr(attrs[|attrs| - 1])
  }

  function EncodeBody(u: Update): seq<byte>
    requires UpdateWellSized(u)
  {
    var withdrawn, attrs := EncodeAll(u.withdrawn, AfiIp), EncodeAttrs(u.attrs);
    Octets2(|withdrawn|) + withdrawn + Octets2(|attrs|) + attrs + EncodeAll(u.nlri, AfiIp)
  }

  // BGPMessage.Encode refuses a message longer than 4096 octets.
  function EncodeMessage(u: Update): Result<seq<byte>>
    requires UpdateWellSized(u)
  {
    var body := EncodeBody(u);
    if HEADER_LEN + |body| > MSG_MAX then Err
    else Ok(seq(16, _ => 255) + Octets2(HEADER_LEN + |body|) + [2] + body)
  }

  lemma {:induction false} EncodeAllLen(list: seq<Nlri>, afi: Afi)
    requires AllEncodable(list, afi)
    ensures |EncodeAll(list, afi)| == SumFrom(list) == SumLen(list)
  {
    if list != [] {
      EncodeAllLen(list[1..], afi);
      SumFromFront(list);
    }
  }

  function SumFrom(list: seq<Nlri>): nat { if list == [] then 0 else NlriLen(list[0]) + SumFrom(list[1..]) }

  lemma {:induction false} SumFromFront(list: seq<Nlri>)
    requires list != []
    ensures SumLen(list) == NlriLen(list[0]) + SumLen(list[1..])
  {
    var last := |list| - 1;
    if last > 0 {
      SumFromFront(list[..last]);
      assert list[..last][1..] == list[1..][..last - 1];
    }
  }

  lemma EncodeAttrLen(a: Attr)
    requires WellSized(a)
    ensures |EncodeAttr(a)| == TotalLen(a)
  {
    hide EncodeAll, SumLen, MpHeader, MpValue, Encodable;
    if a.MpReach? { EncodeAllLen(a.reach, a.afi); }
  }

  lemma {:induction false} EncodeAttrsLen(attrs: seq<Attr>)
    requires forall i :: 0 <= i < |attrs| ==> WellSized(attrs[i])
    ensures |EncodeAttrs(attrs)| == AttrsLen(attrs)
  {
    if attrs != [] {
      EncodeAttrsLen(attrs[..|attrs| - 1]);
      EncodeAttrLen(attrs[|attrs| - 1]);
    }
  }

  // The encoders write as many octets as the lengths say, so a message is refused exactly when it is too long.
  lemma EncodeSucceeds(u: Update)
    requires UpdateWellSized(u)
    ensures EncodeMessage(u).Ok? <==> MsgLen(u) <= 4096
    ensures EncodeMessage(u).Ok? ==> |EncodeMessage(u).value| == MsgLen(u)
  {
    EncodeAllLen(u.withdrawn, AfiIp);
    EncodeAllLen(u.nlri, AfiIp);
    EncodeAttrsLen(u.attrs);
  }

  // ---------- what a message means ----------

  datatype Key = Key(afi: Afi, safi: byte, nlri: Nlri)

  // The attributes count as a bag: their order means nothing.
  datatype Route = Route(attrs: multiset<Attr>, nextHop: seq<byte>)

  type Table = map<Key, Route>

  function Others(attrs: seq<Attr>): seq<Attr> {
    if attrs == [] then []
    else Others(attrs[..|attrs| - 1]) + if attrs[|attrs| - 1].Opaque? then [attrs[|attrs| - 1]] else []
  }

  function Entries(list: seq<Nlri>, afi: Afi, safi: byte, route: Route): (r: seq<(Key, Route)>)
    ensures |r| == |list|
  {
    seq(|list|, i requires 0 <= i < |list| => (Key(afi, safi, list[i]), route))
  }

  function MpEntries(attrs: seq<Attr>, bag: multiset<Attr>): seq<(Key, Route)> {
    if attrs == [] then []
    else
      var a := attrs[|attrs| - 1];
      MpEntries(attrs[..|attrs| - 1], bag) + if a.MpReach?
        then Entries(a.reach, a.afi, a.safi, Route(bag, a.nextHop)) else []
  }

  // What a message announces, in order.
  function Announced(u: Update): seq<(Key, Route)> {
    var bag := multiset(Others(u.attrs));
    MpEntries(u.attrs, bag) + Entries(u.nlri, AfiIp, 1, Route(bag, []))
  }

  function Withdraw(t: Table, list: seq<Nlri>): Table { t - set n | n in list :: Key(AfiIp, 1, n) }

  function Announce(t: Table, list: seq<(Key, Route)>): Table {
    if list == [] then t else Announce(t, list[..|list| - 1])[list[|list| - 1].0 := list[|list| - 1].1]
  }

  // Withdrawals come before announcements.
  function Apply(t: Table, u: Update): Table { Announce(Withdraw(t, u.withdrawn), Announced(u)) }

  function ApplyAll(t: Table, msgs: seq<Update>): Table {
    if msgs == [] then t else Apply(ApplyAll(t, msgs[..|msgs| - 1]), msgs[|msgs| - 1])
  }

  lemma {:induction false} AnnounceConcat(t: Table, a: seq<(Key, Route)>, b: seq<(Key, Route)>)
    ensures Announce(t, a + b) == Announce(Announce(t, a), b)
  {
    if b == [] {
      assert a + b == a;
    } else {
      assert (a + b)[..|a + b| - 1] == a + b[..|b| - 1];
      AnnounceConcat(t, a, b[..|b| - 1]);
    }
  }

  lemma WithdrawConcat(t: Table, a: seq<Nlri>, b: seq<Nlri>)
    ensures Withdraw(t, a + b) == Withdraw(Withdraw(t, a), b)
  {
  }

  // ---------- a list of messages against what it should say ----------

  function AllWithdrawn(msgs: seq<Update>): seq<Nlri> {
    if msgs == [] then [] else AllWithdrawn(msgs[..|msgs| - 1]) + msgs[|msgs| - 1].withdrawn
  }

  function AllAnnounced(msgs: seq<Update>): seq<(Key, Route)> {
    if msgs == [] then [] else AllAnnounced(msgs[..|msgs| - 1]) + Announced(msgs[|msgs| - 1])
  }

  // Nothing is withdrawn after something was announced.
  predicate Ordered(msgs: seq<Update>) {
    msgs == [] || (Ordered(msgs[..|msgs| - 1]) && (AllAnnounced(msgs[..|msgs| - 1]) == []
      || msgs[|msgs| - 1].withdrawn == []))
  }

  // The messages withdraw w and announce r, in order.
  predicate Says(msgs: seq<Update>, w: seq<Nlri>, r: seq<(Key, Route)>) {
    AllWithdrawn(msgs) == w && AllAnnounced(msgs) == r && Ordered(msgs)
  }

  lemma SayMore(msgs: seq<Update>, w: seq<Nlri>, r: seq<(Key, Route)>, u: Update)
    requires Says(msgs, w, r) && (r == [] || u.withdrawn == [])
    ensures Says(msgs + [u], w + u.withdrawn, r + Announced(u))
  {
    assert (msgs + [u])[..|msgs|] == msgs;
  }

  lemma {:induction false} SayingIsDoing(t: Table, msgs: seq<Update>)
    requires Ordered(msgs)
    ensures ApplyAll(t, msgs) == Announce(Withdraw(t, AllWithdrawn(msgs)), AllAnnounced(msgs))
  {
    if msgs != [] {
      var front, u := msgs[..|msgs| - 1], msgs[|msgs| - 1];
      SayingIsDoing(t, front);
      var w, r := AllWithdrawn(front), AllAnnounced(front);
      WithdrawConcat(t, w, u.withdrawn);
      AnnounceConcat(Withdraw(t, w + u.withdrawn), r, Announced(u));
      if u.withdrawn == [] { assert w + u.withdrawn == w && forall t: Table :: Withdraw(t, []) == t; }
    }
  }

  // Messages that withdraw and announce the same, in that order, have the same effect as the one message.
  lemma SameEffect(t: Table, msgs: seq<Update>, u: Update)
    requires Says(msgs, u.withdrawn, Announced(u))
    ensures ApplyAll(t, msgs) == Apply(t, u)
  {
    SayingIsDoing(t, msgs);
  }
}
