/** UPDATE messages read back from the wire (ReadPkt in bgp/fsm/conn.go, BGPUpdate.Decode, BGPPathAttrBase.Decode and
  * BGPGetPathAttr in bgp/packet/bgp.go, BGPPathAttrMPReachNLRI.Decode in bgp/packet/mpbgp.go), and where each part of a
  * message stands (sections 4.1 and 4.3 of RFC 4271, section 3 of RFC 4760).
  *
  * A decoder that returns an error and one that runs past the end of its slice are both `Err` here. The values of
  * attributes other than MP_REACH_NLRI are kept as octets, and so is an MP_REACH_NLRI of a family other than IPv4 and IPv6.
  */
module UpdateDecoding {
  import opened Paths
  import opened NlriCodec
  import opened Updates

  function Value2(s: seq<byte>): uint16
    requires |s| == 2
  {
    s[0] as int * 256 + s[1]
  }

  lemma Octets2Value(v: uint16)
    ensures Value2(Octets2(v)) == v
  {
  }

  // ---------- the header of an attribute ----------

  predicate Optional(flags: byte) { flags / 128 % 2 == 1 }

  predicate Transitive(flags: byte) { flags / 64 % 2 == 1 }

  predicate Partial(flags: byte) { flags / 32 % 2 == 1 }

  predicate Extended(flags: byte) { flags / 16 % 2 == 1 }

  // BGPPathAttrTypeFlagsMap: the optional, transitive and partial bits of the known attributes.
  function KnownFlags(code: byte): Option<byte> {
    if code in {1, 2, 3, 5, 6} then Some(0x40)
    else if code in {4, 9, 10, 14, 15} then Some(0x80)
    else if code in {7, 8, 17, 18} then Some(0xC0)
    else None
  }

  // BGPPathAttrTypeLenMap.
  function KnownLength(code: byte): Option<nat> {
    match code
    case 1 => Some(1)
    case 3 => Some(4)
    case 4 => Some(4)
    case 5 => Some(4)
    case 6 => Some(0)
    case 18 => Some(8)
    case _ => None
  }

  const CODE_UNKNOWN := 19

  // The checks on the flags, the length and the type code.
  predicate Permitted(flags: byte, code: byte, length: nat) {
    && (KnownFlags(code).Some? ==> KnownFlags(code).value / 32 == flags / 32)
    && (Optional(flags) || Transitive(flags)) && (Partial(flags) ==> Optional(flags) && Transitive(flags))
    && (KnownLength(code).Some? ==> KnownLength(code).value == length)
    && (Optional(flags) || code < CODE_UNKNOWN)
  }

  // What the flags of the attributes are in section 5 of RFC 4271 and the documents that added some.
  predicate WellKnown(code: byte) { code == 1 || code == 2 || code == 3 || code == 5 || code == 6 }

  predicate OptionalOnly(code: byte) { code == 4 || code == 9 || code == 10 || code == 14 || code == 15 }

  predicate OptionalTransitive(code: byte) { code == 7 || code == 8 || code == 17 || code == 18 }

  // Well-known attributes are transitive and complete; an optional one that is not transitive is complete too; any other is
  // at least optional.
  predicate StandardFlags(flags: byte, code: byte) {
    if WellKnown(code) then !Optional(flags) && Transitive(flags) && !Partial(flags)
    else if OptionalOnly(code) then Optional(flags) && !Transitive(flags) && !Partial(flags)
    else if OptionalTransitive(code) then Optional(flags) && Transitive(flags)
    else Optional(flags) && (Partial(flags) ==> Transitive(flags))
  }

  // The code permits the same flags, except exactly that it refuses a partial one of the optional transitive attributes it
  // knows, and lets a code below 19 that it does not know pass as well-known.
  lemma FlagsMean(flags: byte, code: byte, length: nat)
    requires KnownLength(code).None? || KnownLength(code).value == length
    ensures var refused := OptionalTransitive(code) && Optional(flags) && Transitive(flags) && Partial(flags);
            var passed := code < 19 && !WellKnown(code) && !OptionalOnly(code) && !OptionalTransitive(code)
                          && !Optional(flags) && Transitive(flags) && !Partial(flags);
            && (Permitted(flags, code, length) <==> StandardFlags(flags, code) <==> !refused && !passed)
            && (refused ==> !Permitted(flags, code, length)) && (passed ==> Permitted(flags, code, length))
  {
    assert flags / 32 == 4 * (flags / 128 % 2) + 2 * (flags / 64 % 2) + flags / 32 % 2 by {
      assert flags / 64 == flags / 32 / 2 && flags / 128 == flags / 32 / 4;
    }
  }

  datatype Base = Base(code: byte, hdrLen: nat, length: nat)

  // BGPPathAttrBase.Decode. The sum that is compared with the octets left has sixteen bits; an attribute that passes only
  // because of that is longer than what is left, and refused then.
  function DecodeBase(pkt: seq<byte>): (r: Result<Base>)
    ensures r.Ok? ==> (r.value.hdrLen == 3 || r.value.hdrLen == 4) && r.value.hdrLen + r.value.length <= |pkt|
  {
    if |pkt| < 3 || (Extended(pkt[0]) && |pkt| < 4) then Err
    else
      var b := if Extended(pkt[0]) then Base(pkt[1], 4, Value2(pkt[2..4])) else Base(pkt[1], 3, pkt[2]);
      if b.hdrLen + b.length > |pkt| || !Permitted(pkt[0], b.code, b.length) then Err else Ok(b)
  }

  // ---------- one attribute ----------

  // MPNextHopIP.Decode, which serves both families, and what its Encode writes for the result: of 32 octets the second half,
  // a link-local address, is dropped. An error about any other length is not looked at.
  function ReadNextHop(field: seq<byte>): seq<byte>
    requires field != []
  {
    var n := field[0] as nat;
    if n !in {4, 16, 32} || |field| < n + 1 then [field[0]]
    else if n == 32 then field[..17] + Zeros(16)
    else field[..n + 1]
  }

  // BGPPathAttrMPReachNLRI.Decode behind the header. The length of the next hop field, in eight bits, is its first octet
  // plus one.
  function DecodeMpReach(pkt: seq<byte>, b: Base, afi: Afi, addPaths: bool): Result<Attr>
    requires b.hdrLen + 4 <= |pkt|
  {
    var field := pkt[b.hdrLen + 3..];
    var n := (field[0] as int + 1) % 256;
    if n + 1 > |field| || 4 + n > b.length then Err
    else
      match DecodeAll(field[n + 1..], b.length - 4 - n, addPaths, afi)
      case Err => Err
      case Ok(reach) => Ok(MpReach(b.hdrLen, afi, pkt[b.hdrLen + 2], ReadNextHop(field), reach))
  }

  function FamilyOf(afi: uint16): Option<Afi> { if afi == 1 then Some(AfiIp) else if afi == 2 then Some(AfiIp6) else None }

  // An attribute and the octets it takes up.
  function DecodeAttr(pkt: seq<byte>, addPaths: bool): (r: Result<(Attr, nat)>)
    ensures r.Ok? ==> 3 <= r.value.1 <= |pkt|
  {
    match DecodeBase(pkt)
    case Err => Err
    case Ok(b) =>
      var total := b.hdrLen + b.length;
      if b.code != CODE_MP_REACH then Ok((Opaque(b.code, pkt[..total]), total))
      else if b.hdrLen + 4 > |pkt| then Err
      else
        match FamilyOf(Value2(pkt[b.hdrLen..b.hdrLen + 2]))
        case None => Ok((Opaque(b.code, pkt[..total]), total))
        case Some(afi) =>
          match DecodeMpReach(pkt, b, afi, addPaths)
          case Err => Err
          case Ok(a) => Ok((a, total))
  }

  // ---------- the attributes ----------

  function PrependAttr(a: Attr, r: Result<seq<Attr>>): Result<seq<Attr>> { if r.Ok? then Ok([a] + r.value) else Err }

  // The attributes in the next `length` octets; one that reaches past them is noticed at the end.
  function DecodeAttrs(pkt: seq<byte>, length: int, addPaths: bool): Result<seq<Attr>>
    decreases |pkt|
  {
    if length <= 0 then (if length == 0 then Ok([]) else Err)
    else
      match DecodeAttr(pkt, addPaths)
      case Err => Err
      case Ok((a, total)) => PrependAttr(a, DecodeAttrs(pkt[total..], length - total, addPaths))
  }

  ghost function JoinedAttrs(list: seq<Attr>, r: Result<seq<Attr>>): Result<seq<Attr>> {
    if r.Ok? then Ok(list + r.value) else Err
  }

  // The loop of BGPUpdate.Decode over the attributes.
  method DecodeAttributes(pkt: seq<byte>, total: nat, addPaths: bool) returns (r: Result<seq<Attr>>)
    ensures r == DecodeAttrs(pkt, total, addPaths)
  {
    hide DecodeAttr;
    var ptr, length := 0, total as int;
    var list: seq<Attr> := [];
    assert pkt[0..] == pkt;
    assert forall rest: seq<Attr> :: [] + rest == rest;
    while length > 0
      invariant ptr <= |pkt|
      invariant JoinedAttrs(list, DecodeAttrs(pkt[ptr..], length, addPaths)) == DecodeAttrs(pkt, total, addPaths)
      decreases |pkt| - ptr
    {
      var d := DecodeAttr(pkt[ptr..], addPaths);
      if d.Err? { return Err; }
      assert pkt[ptr..][d.value.1..] == pkt[ptr + d.value.1..];
      assert forall rest: seq<Attr> :: list + ([d.value.0] + rest) == list + [d.value.0] + rest;
      list := list + [d.value.0];
      ptr, length := ptr + d.value.1, length - d.value.1;
    }
    if length < 0 { return Err; }
    assert list + [] == list;
    return Ok(list);
  }

  // ---------- a message ----------

  // BGPUpdate.Decode; `length` is the Length field of the header.
  function DecodeBody(length: nat, pkt: seq<byte>, addPaths: bool): Result<Update> {
    if |pkt| < 2 || Value2(pkt[..2]) + UPDATE_MIN > length then Err
    else
      var w := Value2(pkt[..2]);
      match DecodeAll(pkt[2..], w, addPaths, AfiIp)
      case Err => Err
      case Ok(withdrawn) =>
        if |pkt| < w + 4 then Err
        else
          var n := Value2(pkt[w + 2..w + 4]);
          if n + w + UPDATE_MIN > length then Err
          else
            match DecodeAttrs(pkt[w + 4..], n, addPaths)
            case Err => Err
            case Ok(attrs) =>
              if |pkt| < w + n + 4 then Err
              else
                match DecodeAll(pkt[w + n + 4..], length - UPDATE_MIN - w - n, addPaths, AfiIp)
                case Err => Err
                case Ok(nlri) => Ok(Update(withdrawn, attrs, nlri))
  }

  // What ReadPkt makes of the octets on a connection: the header, and as many octets more as its Length says. The UPDATE
  // and the octets it takes up; any other message is not looked at here.
  function ReadUpdate(stream: seq<byte>, addPaths: bool): (r: Result<(Update, nat)>)
    ensures r.Ok? ==> HEADER_LEN <= r.value.1 <= |stream|
  {
    if |stream| < HEADER_LEN || stream[18] != 2 then Err
    else
      var length := Value2(stream[16..18]);
      if length < HEADER_LEN || length > |stream| then Err
      else
        match DecodeBody(length, stream[HEADER_LEN..length], addPaths)
        case Err => Err
        case Ok(u) => Ok((u, length))
  }

  // ---------- where each part stands ----------

  // An MP_REACH_NLRI: flags, type code 14, length; then the family, the next hop with its length octet, a zero octet and
  // the prefixes.
  lemma MpReachLayout(a: Attr)
    requires WellSized(a) && a.MpReach?
    ensures var pkt := EncodeAttr(a);
            && |pkt| == a.hdrLen + 4 + |a.nextHop| + SumLen(a.reach) && pkt[1] == 14
            && (a.hdrLen == 4 ==> pkt[0] == 0x90 && Value2(pkt[2..4]) == |pkt| - 4)
            && (a.hdrLen == 3 ==> pkt[0] == 0x80 && pkt[2] == |pkt| - 3)
            && pkt[a.hdrLen] == 0 && pkt[a.hdrLen + 1] == (if a.afi.AfiIp? then 1 else 2) && pkt[a.hdrLen + 2] == a.safi
            && pkt[a.hdrLen + 3..a.hdrLen + 3 + |a.nextHop|] == a.nextHop && pkt[a.hdrLen + 3 + |a.nextHop|] == 0
            && pkt[a.hdrLen + 4 + |a.nextHop|..] == EncodeAll(a.reach, a.afi)
  {
    hide EncodeAll, SumLen, Encodable;
    EncodeAllLen(a.reach, a.afi);
  }

  // Sixteen octets of ones, the length of the whole, type 2; the length of the withdrawn routes and these, the length of the
  // attributes and these, and the prefixes announced.
  lemma MessageLayout(u: Update)
    requires UpdateWellSized(u) && EncodeMessage(u).Ok?
    ensures var pkt := EncodeMessage(u).value;
            && |pkt| >= 23 && (forall i :: 0 <= i < 16 ==> pkt[i] == 255) && Value2(pkt[16..18]) == |pkt| && pkt[18] == 2
            && var w := Value2(pkt[19..21]);
               && 23 + w <= |pkt| && pkt[21..21 + w] == EncodeAll(u.withdrawn, AfiIp)
               && var n := Value2(pkt[21 + w..23 + w]);
                  && 23 + w + n <= |pkt| && pkt[23 + w..23 + w + n] == EncodeAttrs(u.attrs)
                  && pkt[23 + w + n..] == EncodeAll(u.nlri, AfiIp)
  {
    hide EncodeAll, EncodeAttrs, Octets2;
    var w, n, rest := EncodeAll(u.withdrawn, AfiIp), EncodeAttrs(u.attrs), EncodeAll(u.nlri, AfiIp);
    HeaderLayout(EncodeBody(u));
    BodyLayout(w, n, rest);
  }

  lemma HeaderLayout(body: seq<byte>)
    requires HEADER_LEN + |body| <= MSG_MAX
    ensures var pkt := seq(16, _ => 255 as byte) + Octets2(HEADER_LEN + |body|) + [2] + body;
            && |pkt| == HEADER_LEN + |body| && (forall i :: 0 <= i < 16 ==> pkt[i] == 255)
            && Value2(pkt[16..18]) == |pkt| && pkt[18] == 2 && pkt[19..] == body
            && forall i, j :: 0 <= i <= j <= |body| ==> (pkt[19 + i..19 + j] == body[i..j] && pkt[19 + i..] == body[i..])
  {
    hide Octets2, Value2;
    var pkt := seq(16, _ => 255 as byte) + Octets2(HEADER_LEN + |body|) + [2] + body;
    Octets2Value(HEADER_LEN + |body|);
    assert pkt[16..18] == Octets2(HEADER_LEN + |body|);
  }

  lemma BodyLayout(w: seq<byte>, n: seq<byte>, rest: seq<byte>)
    requires |w| < 0x1_0000 && |n| < 0x1_0000
    ensures var body := Octets2(|w|) + w + Octets2(|n|) + n + rest;
            && Value2(body[..2]) == |w| && body[2..2 + |w|] == w && body[2..] == w + body[2 + |w|..]
            && Value2(body[2 + |w|..4 + |w|]) == |n| && body[4 + |w|..4 + |w| + |n|] == n
            && body[4 + |w|..] == n + body[4 + |w| + |n|..] && body[4 + |w| + |n|..] == rest
  {
    hide Octets2, Value2;
    var body := Octets2(|w|) + w + Octets2(|n|) + n + rest;
    Octets2Value(|w|);
    Octets2Value(|n|);
    assert body[..2] == Octets2(|w|);
    assert body[2 + |w|..4 + |w|] == Octets2(|n|);
  }

  // ---------- round trips ----------

  // A next hop field: the length octet and an address of 4 or 16 octets, or two of 16.
  predicate NextHopField(field: seq<byte>) {
    field != [] && (field[0] == 4 || field[0] == 16 || field[0] == 32) && |field| == field[0] + 1
  }

  // A receiver loses the link-local address: the decoder of the IPv6 family is the one of IPv4 (bgp/packet/mpbgp.go:176).
  function Received(a: Attr): Attr {
    if a.MpReach? && |a.nextHop| == 33 then a.(nextHop := a.nextHop[..17] + Zeros(16)) else a
  }

  function AllReceived(attrs: seq<Attr>): (r: seq<Attr>)
    ensures |r| == |attrs|
  {
    seq(|attrs|, i requires 0 <= i < |attrs| => Received(attrs[i]))
  }

  // There is one to lose.
  predicate HasLinkLocal(a: Attr) { a.MpReach? && |a.nextHop| == 33 && exists i :: 17 <= i < 33 && a.nextHop[i] != 0 }

  lemma ReceivedExactly(attrs: seq<Attr>)
    ensures AllReceived(attrs) == attrs <==> forall i :: 0 <= i < |attrs| ==> !HasLinkLocal(attrs[i])
  {
    forall i | 0 <= i < |attrs| ensures Received(attrs[i]) == attrs[i] <==> !HasLinkLocal(attrs[i]) {
      if attrs[i].MpReach? && |attrs[i].nextHop| == 33 && !HasLinkLocal(attrs[i]) {
        assert attrs[i].nextHop == attrs[i].nextHop[..17] + Zeros(16);
      }
    }
    if AllReceived(attrs) == attrs { forall i | 0 <= i < |attrs| ensures Received(attrs[i]) == attrs[i] {} }
  }

  // The octets of an attribute have the type code, the flags and the length they should.
  predicate Framed(code: byte, octets: seq<byte>) {
    && |octets| >= 3 && octets[1] == code
    && (if Extended(octets[0]) then |octets| >= 4 && |octets| == 4 + Value2(octets[2..4])
        else |octets| == 3 + octets[2] as int)
    && Permitted(octets[0], code, |octets| - if Extended(octets[0]) then 4 else 3)
  }

  // An attribute a receiver can read.
  ghost predicate Readable(a: Attr, addPaths: bool) {
    match a
    case Opaque(code, octets) => code != 14 && Framed(code, octets)
    case MpReach(_, afi, _, nextHop, reach) => NextHopField(nextHop) && AllCanonical(reach, addPaths, afi)
  }

  lemma NextHopStays(field: seq<byte>, rest: seq<byte>)
    requires NextHopField(field)
    ensures ReadNextHop(field + rest) == if |field| == 33 then field[..17] + Zeros(16) else field
  {
    assert (field + rest)[..field[0] + 1] == field && (|field| == 33 ==> (field + rest)[..17] == field[..17]);
  }

  lemma FramedBase(code: byte, octets: seq<byte>, rest: seq<byte>)
    requires Framed(code, octets)
    ensures var r := DecodeBase(octets + rest); r.Ok? && r.value.code == code && r.value.hdrLen + r.value.length == |octets|
  {
    hide Permitted, Value2;
    var pkt := octets + rest;
    assert |octets| >= 4 ==> pkt[2..4] == octets[2..4];
  }

  lemma OpaqueRoundTrip(code: byte, octets: seq<byte>, rest: seq<byte>, addPaths: bool)
    requires code != 14 && Framed(code, octets)
    ensures DecodeAttr(octets + rest, addPaths) == Ok((Opaque(code, octets), |octets|))
  {
    hide DecodeBase, Framed;
    FramedBase(code, octets, rest);
    assert (octets + rest)[..|octets|] == octets;
  }

  lemma MpBase(a: Attr, rest: seq<byte>)
    requires WellSized(a) && a.MpReach?
    ensures DecodeBase(EncodeAttr(a) + rest) == Ok(Base(14, a.hdrLen, |EncodeAttr(a)| - a.hdrLen))
  {
    hide EncodeAttr, EncodeAll, Value2, WellSized;
    MpReachLayout(a);
    var octets := EncodeAttr(a);
    assert a.hdrLen == 3 || a.hdrLen == 4 by { HeaderIs(a); }
    assert |octets| >= 4 ==> (octets + rest)[2..4] == octets[2..4];
  }

  lemma HeaderIs(a: Attr)
    requires WellSized(a) && a.MpReach?
    ensures a.hdrLen == 3 || a.hdrLen == 4
  {
  }

  lemma AttrRoundTrip(a: Attr, rest: seq<byte>, addPaths: bool)
    requires WellSized(a) && Readable(a, addPaths)
    ensures DecodeAttr(EncodeAttr(a) + rest, addPaths) == Ok((Received(a), |EncodeAttr(a)|)) && EncodeAttr(a) != []
  {
    if a.Opaque? {
      hide Framed, DecodeAttr;
      OpaqueRoundTrip(a.code, a.octets, rest, addPaths);
      assert a.octets != [] by { NotEmpty(a.code, a.octets); }
    } else {
      MpRoundTrip(a, rest, addPaths);
    }
  }

  lemma NotEmpty(code: byte, octets: seq<byte>)
    requires Framed(code, octets)
    ensures octets != []
  {
  }

  // The next hop field and what follows it.
  lemma FieldAndRest(octets: seq<byte>, h: nat, nextHop: seq<byte>, list: seq<byte>, rest: seq<byte>)
    requires |octets| == h + 4 + |nextHop| + |list| && octets[h + 3..h + 3 + |nextHop|] == nextHop
    requires octets[h + 3 + |nextHop|] == 0 && octets[h + 4 + |nextHop|..] == list
    ensures (octets + rest)[h + 3..] == nextHop + ([0] + list + rest)
    ensures (nextHop + ([0] + list + rest))[|nextHop| + 1..] == list + rest
  {
    assert octets == octets[..h + 3] + octets[h + 3..h + 3 + |nextHop|] + [0] + octets[h + 4 + |nextHop|..];
  }

  lemma MpReachRoundTrip(a: Attr, pkt: seq<byte>, rest: seq<byte>, addPaths: bool)
    requires a.MpReach? && NextHopField(a.nextHop) && AllCanonical(a.reach, addPaths, a.afi) && a.hdrLen + 4 <= |pkt|
    requires AllEncodable(a.reach, a.afi)
    requires pkt[a.hdrLen + 3..] == a.nextHop + ([0] + EncodeAll(a.reach, a.afi) + rest) && pkt[a.hdrLen + 2] == a.safi
    ensures DecodeMpReach(pkt, Base(14, a.hdrLen, 4 + |a.nextHop| + |EncodeAll(a.reach, a.afi)|), a.afi, addPaths)
            == Ok(Received(a))
  {
    hide EncodeAll, DecodeAll, ReadNextHop, AllCanonical;
    var list := EncodeAll(a.reach, a.afi);
    var field := pkt[a.hdrLen + 3..];
    NextHopStays(a.nextHop, [0] + list + rest);
    assert field[0] == a.nextHop[0] && field[|a.nextHop| + 1..] == list + rest;
    ListRoundTrip(a.reach, rest, addPaths, a.afi);
  }

  lemma MpRoundTrip(a: Attr, rest: seq<byte>, addPaths: bool)
    requires WellSized(a) && a.MpReach? && NextHopField(a.nextHop) && AllCanonical(a.reach, addPaths, a.afi)
    ensures DecodeAttr(EncodeAttr(a) + rest, addPaths) == Ok((Received(a), |EncodeAttr(a)|)) && EncodeAttr(a) != []
  {
    hide EncodeAttr, EncodeAll, DecodeBase, DecodeMpReach, ReadNextHop, AllCanonical, SumLen, Encodable, NextHopField;
    MpReachLayout(a);
    MpBase(a, rest);
    EncodeAllLen(a.reach, a.afi);
    var octets, h := EncodeAttr(a), a.hdrLen;
    var pkt := octets + rest;
    FieldAndRest(octets, h, a.nextHop, EncodeAll(a.reach, a.afi), rest);
    MpReachRoundTrip(a, pkt, rest, addPaths);
    assert pkt[h..h + 2] == [0, if a.afi.AfiIp? then 1 else 2];
  }

  lemma {:induction false} EncodeAttrsFront(attrs: seq<Attr>)
    requires attrs != [] && forall i :: 0 <= i < |attrs| ==> WellSized(attrs[i])
    ensures EncodeAttrs(attrs) == EncodeAttr(attrs[0]) + EncodeAttrs(attrs[1..])
  {
    hide WellSized;
    var last := |attrs| - 1;
    if last > 0 {
      EncodeAttrsFront(attrs[..last]);
      assert attrs[..last][1..] == attrs[1..][..last - 1];
    } else {
      assert EncodeAttrs(attrs[..0]) == [] && EncodeAttrs(attrs[1..]) == [];
    }
  }

  // Any list of such attributes comes back from its encoding, whatever follows.
  lemma {:induction false} AttrsRoundTrip(attrs: seq<Attr>, rest: seq<byte>, addPaths: bool)
    requires forall i :: 0 <= i < |attrs| ==> WellSized(attrs[i]) && Readable(attrs[i], addPaths)
    ensures DecodeAttrs(EncodeAttrs(attrs) + rest, |EncodeAttrs(attrs)|, addPaths) == Ok(AllReceived(attrs))
    decreases |attrs|
  {
    hide WellSized, Readable, EncodeAttr, DecodeAttr, Received;
    if attrs != [] {
      EncodeAttrsFront(attrs);
      var first, others := EncodeAttr(attrs[0]), EncodeAttrs(attrs[1..]);
      AttrRoundTrip(attrs[0], others + rest, addPaths);
      AttrsRoundTrip(attrs[1..], rest, addPaths);
      var pkt := EncodeAttrs(attrs) + rest;
      assert pkt == first + (others + rest) && pkt[|first|..] == others + rest;
      assert [Received(attrs[0])] + AllReceived(attrs[1..]) == AllReceived(attrs);
    }
  }

  ghost predicate UpdateReadable(u: Update, addPaths: bool) {
    && AllCanonical(u.withdrawn, addPaths, AfiIp) && AllCanonical(u.nlri, addPaths, AfiIp)
    && forall i :: 0 <= i < |u.attrs| ==> Readable(u.attrs[i], addPaths)
  }

  // What a peer reads from a message, whatever follows on the connection, is the UPDATE without its link-local next hops. So
  // it is the UPDATE itself if and only if there are none.
  lemma MessageRoundTrip(u: Update, rest: seq<byte>, addPaths: bool)
    requires UpdateWellSized(u) && UpdateReadable(u, addPaths) && EncodeMessage(u).Ok?
    ensures ReadUpdate(EncodeMessage(u).value + rest, addPaths)
            == Ok((u.(attrs := AllReceived(u.attrs)), |EncodeMessage(u).value|))
    ensures ReadUpdate(EncodeMessage(u).value + rest, addPaths) == Ok((u, |EncodeMessage(u).value|)) <==>
            forall i :: 0 <= i < |u.attrs| ==> !HasLinkLocal(u.attrs[i])
  {
    hide EncodeAll, EncodeAttrs, EncodeBody, DecodeBody, AllCanonical, Readable, WellSized, Encodable, Octets2, Value2;
    var body := EncodeBody(u);
    HeaderLayout(body);
    var pkt := EncodeMessage(u).value;
    var stream := pkt + rest;
    assert stream[16..18] == pkt[16..18] && stream[HEADER_LEN..|pkt|] == body;
    BodyRoundTrip(u, addPaths);
    ReceivedExactly(u.attrs);
  }

  lemma BodyRoundTrip(u: Update, addPaths: bool)
    requires UpdateWellSized(u) && UpdateReadable(u, addPaths) && HEADER_LEN + |EncodeBody(u)| <= MSG_MAX
    ensures DecodeBody(HEADER_LEN + |EncodeBody(u)|, EncodeBody(u), addPaths)
            == Ok(u.(attrs := AllReceived(u.attrs)))
  {
    hide EncodeAll, EncodeAttrs, DecodeAll, DecodeAttrs, AllCanonical, Readable, WellSized, Encodable, Octets2, Value2;
    var w, n, nlri := EncodeAll(u.withdrawn, AfiIp), EncodeAttrs(u.attrs), EncodeAll(u.nlri, AfiIp);
    var body := EncodeBody(u);
    BodyLayout(w, n, nlri);
    ListRoundTrip(u.withdrawn, body[2 + |w|..], addPaths, AfiIp);
    AttrsRoundTrip(u.attrs, nlri, addPaths);
    ListRoundTrip(u.nlri, [], addPaths, AfiIp);
    assert nlri + [] == nlri;
  }
}
