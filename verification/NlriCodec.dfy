/** Network layer reachability information on the wire (IPPrefix, ExtNLRI and decodeNLRI in bgp/packet/bgp.go; section
  * 4.3 of RFC 4271 and section 3 of RFC 7911).
  *
  * Bit masks are written as arithmetic on octets. Only the IPv4 and IPv6 address families are modelled: for any other the
  * source checks no prefix length.
  */
module NlriCodec {
  import opened Paths

  datatype Result<T> = Ok(value: T) | Err

  datatype Afi = AfiIp | AfiIp6 {
    // AFINextHopLenMap and net.IPv4len, net.IPv6len.
    function IpLen(): nat { if AfiIp? then 4 else 16 }
  }

  datatype IpPrefix = IpPrefix(length: byte, prefix: seq<byte>)

  datatype Nlri = Plain(ip: IpPrefix) | Ext(pathId: uint32, ip: IpPrefix)

  // (Length + 7) / 8 in eight bits.
  function PrefixBytes(length: byte): byte { (length + 7) % 256 / 8 }

  // Bit k of an octet, counted from the most significant.
  function BitOf(b: byte, k: nat): (r: nat)
    ensures r <= 1
  {
    match k
    case 0 => b / 128 % 2
    case 1 => b / 64 % 2
    case 2 => b / 32 % 2
    case 3 => b / 16 % 2
    case 4 => b / 8 % 2
    case 5 => b / 4 % 2
    case 6 => b / 2 % 2
    case _ => b % 2
  }

  function Kept(b: byte, bits: nat, k: nat): (r: nat)
    ensures r <= 1
  {
    if k < bits then BitOf(b, k) else 0
  }

  // b & ^(0xff >> bits), a bitwise and with a mask whose first `bits` bits are set.
  function KeepBits(b: byte, bits: nat): byte {
    128 * Kept(b, bits, 0) + 64 * Kept(b, bits, 1) + 32 * Kept(b, bits, 2) + 16 * Kept(b, bits, 3)
    + 8 * Kept(b, bits, 4) + 4 * Kept(b, bits, 5) + 2 * Kept(b, bits, 6) + Kept(b, bits, 7)
  }

  lemma BitsSpellOctet(b: byte)
    ensures b == 128 * BitOf(b, 0) + 64 * BitOf(b, 1) + 32 * BitOf(b, 2) + 16 * BitOf(b, 3)
                 + 8 * BitOf(b, 4) + 4 * BitOf(b, 5) + 2 * BitOf(b, 6) + BitOf(b, 7)
  {
    BitsSpellQuarter(b, b / 4);
    BitsSpellQuarter(b / 4, b / 16);
    BitsSpellQuarter(b / 16, b / 64);
    BitsSpellQuarter(b / 64, 0);
    assert b / 32 == b / 16 / 2 && b / 8 == b / 4 / 2 && b / 128 == b / 64 / 2;
  }

  lemma BitsSpellQuarter(b: byte, quarter: nat)
    requires quarter == b / 4
    ensures b == 4 * quarter + 2 * (b / 2 % 2) + b % 2
  {
  }

  lemma OctetHasBits(x0: nat, x1: nat, x2: nat, x3: nat, x4: nat, x5: nat, x6: nat, x7: nat, k: nat)
    requires x0 <= 1 && x1 <= 1 && x2 <= 1 && x3 <= 1 && x4 <= 1 && x5 <= 1 && x6 <= 1 && x7 <= 1 && k <= 7
    ensures BitOf(128 * x0 + 64 * x1 + 32 * x2 + 16 * x3 + 8 * x4 + 4 * x5 + 2 * x6 + x7, k)
            == [x0, x1, x2, x3, x4, x5, x6, x7][k]
  {
    var b := 128 * x0 + 64 * x1 + 32 * x2 + 16 * x3 + 8 * x4 + 4 * x5 + 2 * x6 + x7;
    assert b / 128 == x0;
    assert b / 64 == 2 * x0 + x1;
    assert b / 32 == 4 * x0 + 2 * x1 + x2;
    assert b / 16 == 8 * x0 + 4 * x1 + 2 * x2 + x3;
    assert b / 8 == 16 * x0 + 8 * x1 + 4 * x2 + 2 * x3 + x4;
    assert b / 4 == 32 * x0 + 16 * x1 + 8 * x2 + 4 * x3 + 2 * x4 + x5;
    assert b / 2 == 64 * x0 + 32 * x1 + 16 * x2 + 8 * x3 + 4 * x4 + 2 * x5 + x6;
  }

  lemma KeepBitsClears(b: byte, bits: nat, k: nat)
    requires k <= 7
    ensures BitOf(KeepBits(b, bits), k) == Kept(b, bits, k)
  {
    hide BitOf;
    OctetHasBits(Kept(b, bits, 0), Kept(b, bits, 1), Kept(b, bits, 2), Kept(b, bits, 3), Kept(b, bits, 4), Kept(b, bits, 5),
                 Kept(b, bits, 6), Kept(b, bits, 7), k);
  }

  // An octet with no bit after the first `bits` is its own masked form.
  lemma KeepBitsFixes(b: byte, bits: nat)
    requires forall k :: bits <= k < 8 ==> BitOf(b, k) == 0
    ensures KeepBits(b, bits) == b
  {
    hide BitOf;
    BitsSpellOctet(b);
    assert forall k :: 0 <= k < 8 ==> Kept(b, bits, k) == BitOf(b, k);
  }

  function Zeros(n: nat): (r: seq<byte>)
    ensures |r| == n && forall i :: 0 <= i < n ==> r[i] == 0
  {
    seq(n, _ => 0)
  }

  // ---------- one prefix ----------

  // The network octets of a prefix with the bits after `length` cleared.
  function NetworkOctets(octets: seq<byte>, length: byte): (r: seq<byte>)
    requires |octets| == PrefixBytes(length)
    ensures |r| == |octets|
  {
    if |octets| > 0 && length % 8 > 0 then octets[|octets| - 1 := KeepBits(octets[|octets| - 1], length % 8)] else octets
  }

  function DecodePrefix(pkt: seq<byte>, afi: Afi): Result<IpPrefix> {
    if |pkt| < 1 || pkt[0] > afi.IpLen() * 8 then Err
    else
      var n := PrefixBytes(pkt[0]);
      if |pkt| < n + 1 then Err
      else Ok(IpPrefix(pkt[0], NetworkOctets(pkt[1..n + 1], pkt[0]) + Zeros(afi.IpLen() - n)))
  }

  // What the encoder needs: an address of the family, or of the longer one that ends in it, and no longer a prefix.
  predicate Encodable(p: IpPrefix, afi: Afi) {
    afi.IpLen() <= |p.prefix| <= 16 && p.length <= afi.IpLen() * 8
  }

  function EncodePrefix(p: IpPrefix, afi: Afi): (pkt: seq<byte>)
    requires Encodable(p, afi)
    ensures |pkt| == PrefixLen(p)
  {
    var start := |p.prefix| - afi.IpLen();
    [p.length] + p.prefix[start..start + PrefixBytes(p.length)]
  }

  // Len().
  function PrefixLen(p: IpPrefix): nat { PrefixBytes(p.length) + 1 }

  // A prefix as the decoder makes it: an address of the family, with nothing set after the prefix length.
  ghost predicate Canonical(p: IpPrefix, afi: Afi) {
    && |p.prefix| == afi.IpLen() && p.length <= afi.IpLen() * 8
    && forall i, k :: 0 <= i < afi.IpLen() && 0 <= k < 8 && 8 * i + k >= p.length ==> BitOf(p.prefix[i], k) == 0
  }

  lemma PrefixBytesCover(length: byte)
    requires length <= 128
    ensures var n := PrefixBytes(length); n <= 16 && length <= 8 * n && (n > 0 ==> 8 * (n - 1) < length)
    ensures length % 8 > 0 ==> length % 8 == length - 8 * (PrefixBytes(length) - 1)
    ensures length % 8 == 0 ==> length == 8 * PrefixBytes(length)
  {
  }

  // Clearing reads bit by bit.
  lemma NetworkBits(octets: seq<byte>, length: byte, i: nat, k: nat)
    requires |octets| == PrefixBytes(length) && length <= 128 && i < |octets| && k < 8
    ensures BitOf(NetworkOctets(octets, length)[i], k) == if 8 * i + k < length then BitOf(octets[i], k) else 0
  {
    PrefixBytesCover(length);
    hide BitOf, KeepBits, PrefixBytes;
    if i == |octets| - 1 && length % 8 > 0 { KeepBitsClears(octets[i], length % 8, k); }
  }

  // Two octets with the same bits are the same.
  lemma SameBits(b: byte, c: byte)
    requires forall k :: 0 <= k < 8 ==> BitOf(b, k) == BitOf(c, k)
    ensures b == c
  {
    hide BitOf;
    BitsSpellOctet(b);
    BitsSpellOctet(c);
  }

  // The decoder's prefix is canonical and encodes to what was read, with the host bits cleared.
  lemma DecodedPrefix(pkt: seq<byte>, afi: Afi)
    requires DecodePrefix(pkt, afi).Ok?
    ensures var p := DecodePrefix(pkt, afi).value;
            && Canonical(p, afi) && Encodable(p, afi) && p.length == pkt[0] && PrefixLen(p) <= |pkt|
            && EncodePrefix(p, afi) == [pkt[0]] + NetworkOctets(pkt[1..PrefixLen(p)], pkt[0])
  {
    hide NetworkOctets, BitOf;
    var p := DecodePrefix(pkt, afi).value;
    var n := PrefixBytes(pkt[0]);
    PrefixBytesCover(pkt[0]);
    var octets := NetworkOctets(pkt[1..n + 1], pkt[0]);
    assert p.prefix[..n] == octets;
    forall i, k | 0 <= i < afi.IpLen() && 0 <= k < 8 && 8 * i + k >= p.length ensures BitOf(p.prefix[i], k) == 0 {
      if i < n { NetworkBits(pkt[1..n + 1], pkt[0], i, k); } else { ZeroHasNoBits(k); }
    }
  }

  lemma ZeroHasNoBits(k: nat)
    ensures BitOf(0, k) == 0
  {
  }

  // A canonical prefix is what its encoding decodes to, whatever follows on the wire.
  lemma PrefixRoundTrip(p: IpPrefix, afi: Afi, rest: seq<byte>)
    requires Canonical(p, afi)
    ensures DecodePrefix(EncodePrefix(p, afi) + rest, afi) == Ok(p)
  {
    hide BitOf;
    var n := PrefixBytes(p.length);
    PrefixBytesCover(p.length);
    var pkt := EncodePrefix(p, afi) + rest;
    assert pkt[1..n + 1] == p.prefix[..n];
    assert NetworkOctets(p.prefix[..n], p.length) == p.prefix[..n] by {
      if n > 0 && p.length % 8 > 0 { KeepBitsFixes(p.prefix[n - 1], p.length % 8); }
    }
    forall i | n <= i < afi.IpLen() ensures p.prefix[i] == 0 {
      forall k | 0 <= k < 8 ensures BitOf(p.prefix[i], k) == BitOf(0, k) { ZeroHasNoBits(k); }
      SameBits(p.prefix[i], 0);
    }
    assert p.prefix == p.prefix[..n] + Zeros(afi.IpLen() - n);
  }

  // ---------- one NLRI, with or without a path identifier ----------

  function Octets4(v: uint32): (r: seq<byte>)
    ensures |r| == 4
  {
    [v / 256 / 256 / 256, v / 256 / 256 % 256, v / 256 % 256, v % 256]
  }

  function Value4(s: seq<byte>): uint32
    requires |s| == 4
  {
    (((s[0] as int * 256) + s[1]) * 256 + s[2]) * 256 + s[3]
  }

  lemma Octets4Value(v: uint32)
    ensures Value4(Octets4(v)) == v
  {
    assert v == v / 256 * 256 + v % 256;
    assert v / 256 == v / 256 / 256 * 256 + v / 256 % 256;
  }

  lemma Value4Octets(s: seq<byte>)
    requires |s| == 4
    ensures Octets4(Value4(s)) == s
  {
    var v2 := s[0] as int * 256 + s[1];
    var v3 := v2 * 256 + s[2];
    assert Value4(s) / 256 == v3 && Value4(s) % 256 == s[3];
    assert v3 / 256 == v2 && v3 % 256 == s[2];
    assert v2 / 256 == s[0] && v2 % 256 == s[1];
  }

  function EncodeNlri(n: Nlri, afi: Afi): (pkt: seq<byte>)
    requires Encodable(n.ip, afi)
    ensures |pkt| == NlriLen(n)
  {
    match n
    case Plain(ip) => EncodePrefix(ip, afi)
    case Ext(pathId, ip) => Octets4(pathId) + EncodePrefix(ip, afi)
  }

  function NlriLen(n: Nlri): (r: nat)
    ensures 1 <= r <= 37
  {
    PrefixLen(n.ip) + if n.Ext? then 4 else 0
  }

  function DecodeNlri(pkt: seq<byte>, addPaths: bool, afi: Afi): Result<Nlri> {
    if !addPaths then
      match DecodePrefix(pkt, afi)
      case Ok(ip) => Ok(Plain(ip))
      case Err => Err
    else if |pkt| < 5 then Err
    else
      match DecodePrefix(pkt[4..], afi)
      case Ok(ip) => Ok(Ext(Value4(pkt[..4]), ip))
      case Err => Err
  }

  // What re-encoding one decoded NLRI gives: the octets read, with the host bits cleared.
  ghost function Cleared(pkt: seq<byte>, addPaths: bool): seq<byte>
    requires |pkt| >= (if addPaths then 5 else 1)
    requires var at := if addPaths then 4 else 0; |pkt| >= at + 1 + PrefixBytes(pkt[at])
  {
    var at := if addPaths then 4 else 0;
    pkt[..at + 1] + NetworkOctets(pkt[at + 1..at + 1 + PrefixBytes(pkt[at])], pkt[at])
  }

  lemma DecodedNlri(pkt: seq<byte>, addPaths: bool, afi: Afi)
    requires DecodeNlri(pkt, addPaths, afi).Ok?
    ensures var n := DecodeNlri(pkt, addPaths, afi).value;
            && n.Ext? == addPaths && Canonical(n.ip, afi) && Encodable(n.ip, afi) && NlriLen(n) <= |pkt|
            && |pkt| >= (if addPaths then 5 else 1)
            && var at := if addPaths then 4 else 0;
               |pkt| >= at + 1 + PrefixBytes(pkt[at]) && EncodeNlri(n, afi) == Cleared(pkt, addPaths)
  {
    hide NetworkOctets, DecodePrefix, EncodePrefix, Canonical, PrefixBytes;
    if addPaths {
      var rest := pkt[4..];
      DecodedPrefix(rest, afi);
      Value4Octets(pkt[..4]);
      var n := DecodeNlri(pkt, addPaths, afi).value;
      assert rest[1..PrefixLen(n.ip)] == pkt[5..5 + PrefixBytes(pkt[4])];
      assert pkt[..5] == pkt[..4] + [pkt[4]];
    } else {
      DecodedPrefix(pkt, afi);
      assert pkt[..1] == [pkt[0]];
    }
  }

  lemma NlriRoundTrip(n: Nlri, afi: Afi, rest: seq<byte>)
    requires Canonical(n.ip, afi)
    ensures DecodeNlri(EncodeNlri(n, afi) + rest, n.Ext?, afi) == Ok(n)
  {
    assert Encodable(n.ip, afi);
    hide DecodePrefix, EncodePrefix, Canonical, Octets4, Value4, Encodable, PrefixLen, PrefixBytes;
    PrefixRoundTrip(n.ip, afi, rest);
    if n.Ext? { ExtRoundTrip(n.pathId, n.ip, EncodePrefix(n.ip, afi), afi, rest); }
  }

  lemma ExtRoundTrip(pathId: uint32, ip: IpPrefix, octets: seq<byte>, afi: Afi, rest: seq<byte>)
    requires octets != [] && DecodePrefix(octets + rest, afi) == Ok(ip)
    ensures DecodeNlri(Octets4(pathId) + octets + rest, true, afi) == Ok(Ext(pathId, ip))
  {
    hide DecodePrefix, Octets4, Value4;
    var pkt := Octets4(pathId) + octets + rest;
    Octets4Value(pathId);
    assert pkt[..4] == Octets4(pathId) && pkt[4..] == octets + rest;
  }

  // The path identifier, big-endian, if there is one; the prefix length; as many octets of the address as it needs.
  lemma NlriLayout(n: Nlri, afi: Afi)
    requires Encodable(n.ip, afi)
    ensures var pkt, at, octets := EncodeNlri(n, afi), if n.Ext? then 4 else 0, (n.ip.length as int + 7) / 8;
            var address := n.ip.prefix[|n.ip.prefix| - (if afi.AfiIp? then 4 else 16)..];
            && octets <= |address| && |pkt| == at + 1 + octets && pkt[at] == n.ip.length
            && pkt[at + 1..] == address[..octets]
            && (n.Ext? ==>
                  pkt[0] as int * 0x100_0000 + pkt[1] as int * 0x1_0000 + pkt[2] as int * 0x100 + pkt[3] == n.pathId)
  {
    hide Octets4, Value4, EncodePrefix, Encodable;
    PrefixLayout(n.ip, afi);
    if n.Ext? {
      Octets4Value(n.pathId);
      BigEndian(Octets4(n.pathId));
      assert EncodeNlri(n, afi)[5..] == EncodePrefix(n.ip, afi)[1..];
    }
  }

  lemma PrefixLayout(p: IpPrefix, afi: Afi)
    requires Encodable(p, afi)
    ensures var pkt, octets := EncodePrefix(p, afi), (p.length as int + 7) / 8;
            var start := |p.prefix| - if afi.AfiIp? then 4 else 16;
            && start >= 0 && octets <= |p.prefix| - start
            && |pkt| == 1 + octets && pkt[0] == p.length && pkt[1..] == p.prefix[start..][..octets]
  {
    hide PrefixBytes;
    PrefixBytesAre(p.length);
    var start, octets := |p.prefix| - afi.IpLen(), PrefixBytes(p.length);
    assert p.prefix[start..][..octets] == p.prefix[start..start + octets];
  }

  lemma PrefixBytesAre(length: byte)
    requires length <= 128
    ensures PrefixBytes(length) == (length as int + 7) / 8 <= 16 && (length <= 32 ==> PrefixBytes(length) <= 4)
  {
  }

  lemma BigEndian(s: seq<byte>)
    requires |s| == 4
    ensures Value4(s) == s[0] as int * 0x100_0000 + s[1] as int * 0x1_0000 + s[2] as int * 0x100 + s[3]
  {
  }

  // It is refused exactly when it is cut short or its prefix is longer than an address.
  lemma NlriAccepted(pkt: seq<byte>, addPaths: bool, afi: Afi)
    ensures var at := if addPaths then 4 else 0;
            DecodeNlri(pkt, addPaths, afi).Ok? <==>
            |pkt| > at && pkt[at] <= (if afi.AfiIp? then 32 else 128) && |pkt| >= at + 1 + (pkt[at] as int + 7) / 8
  {
    hide NetworkOctets, PrefixBytes;
    var at := if addPaths then 4 else 0;
    if |pkt| > at {
      assert pkt[at..][0] == pkt[at];
      if pkt[at] <= 128 { PrefixBytesAre(pkt[at]); }
    }
  }

  // ---------- a list on the wire ----------

  function EncodeAll(list: seq<Nlri>, afi: Afi): seq<byte>
    requires forall i :: 0 <= i < |list| ==> Encodable(list[i].ip, afi)
  {
    if list == [] then [] else EncodeNlri(list[0], afi) + EncodeAll(list[1..], afi)
  }

  function Prepend(n: Nlri, r: Result<seq<Nlri>>): Result<seq<Nlri>> {
    if r.Ok? then Ok([n] + r.value) else Err
  }

  // decodeNLRI from one position on. An NLRI may reach past `length`, which is noticed only at the end.
  function DecodeFrom(pkt: seq<byte>, ptr: nat, length: nat, addPaths: bool, afi: Afi): Result<seq<Nlri>>
    requires ptr <= |pkt| && length <= |pkt|
    decreases |pkt| - ptr
  {
    if ptr >= length then (if ptr == length then Ok([]) else Err)
    else
      match DecodeNlri(pkt[ptr..], addPaths, afi)
      case Err => Err
      case Ok(n) =>
        DecodedNlri(pkt[ptr..], addPaths, afi);
        Prepend(n, DecodeFrom(pkt, ptr + NlriLen(n), length, addPaths, afi))
  }

  function DecodeAll(pkt: seq<byte>, length: nat, addPaths: bool, afi: Afi): Result<seq<Nlri>> {
    if length > |pkt| then Err else DecodeFrom(pkt, 0, length, addPaths, afi)
  }

  // The loop of decodeNLRI.
  method DecodeNlris(pkt: seq<byte>, length: nat, addPaths: bool, afi: Afi) returns (r: Result<seq<Nlri>>)
    ensures r == DecodeAll(pkt, length, addPaths, afi)
  {
    hide DecodeNlri, NlriLen, Joined, Prepend, DecodeFrom;
    if length > |pkt| { return Err; }
    var list: seq<Nlri> := [];
    var ptr := 0;
    JoinNothing(DecodeFrom(pkt, 0, length, addPaths, afi));
    while ptr < length
      invariant ptr <= |pkt|
                && Joined(list, DecodeFrom(pkt, ptr, length, addPaths, afi)) == DecodeAll(pkt, length, addPaths, afi)
      decreases |pkt| - ptr
    {
      var d := DecodeNlri(pkt[ptr..], addPaths, afi);
      DecodeOne(list, pkt, ptr, length, addPaths, afi);
      if d.Err? { return Err; }
      list := list + [d.value];
      ptr := ptr + NlriLen(d.value);
    }
    DecodeEnd(list, pkt, ptr, length, addPaths, afi);
    if ptr != length { return Err; }
    return Ok(list);
  }

  lemma JoinNothing(r: Result<seq<Nlri>>)
    ensures Joined([], r) == r
  {
    assert forall rest: seq<Nlri> :: [] + rest == rest;
  }

  // One more round of the loop.
  lemma DecodeOne(list: seq<Nlri>, pkt: seq<byte>, ptr: nat, length: nat, addPaths: bool, afi: Afi)
    requires ptr < length <= |pkt|
    ensures match DecodeNlri(pkt[ptr..], addPaths, afi)
            case Err => Joined(list, DecodeFrom(pkt, ptr, length, addPaths, afi)) == Err
            case Ok(n) =>
              ptr + NlriLen(n) <= |pkt| && NlriLen(n) > 0
              && Joined(list, DecodeFrom(pkt, ptr, length, addPaths, afi))
                 == Joined(list + [n], DecodeFrom(pkt, ptr + NlriLen(n), length, addPaths, afi))
  {
    hide DecodeNlri, NlriLen;
    var d := DecodeNlri(pkt[ptr..], addPaths, afi);
    if d.Ok? {
      DecodedNlri(pkt[ptr..], addPaths, afi);
      assert forall rest: seq<Nlri> :: list + ([d.value] + rest) == list + [d.value] + rest;
    }
  }

  lemma DecodeEnd(list: seq<Nlri>, pkt: seq<byte>, ptr: nat, length: nat, addPaths: bool, afi: Afi)
    requires length <= ptr <= |pkt|
    ensures Joined(list, DecodeFrom(pkt, ptr, length, addPaths, afi)) == if ptr == length then Ok(list) else Err
  {
    assert list + [] == list;
  }

  ghost function Joined(list: seq<Nlri>, r: Result<seq<Nlri>>): Result<seq<Nlri>> {
    if r.Ok? then Ok(list + r.value) else Err
  }

  ghost predicate AllCanonical(list: seq<Nlri>, addPaths: bool, afi: Afi) {
    forall i :: 0 <= i < |list| ==> list[i].Ext? == addPaths && Canonical(list[i].ip, afi) && Encodable(list[i].ip, afi)
  }

  lemma {:induction false} ListRoundTripFrom(before: seq<byte>, list: seq<Nlri>, rest: seq<byte>, addPaths: bool, afi: Afi)
    requires AllCanonical(list, addPaths, afi)
    ensures var pkt := before + EncodeAll(list, afi) + rest;
            DecodeFrom(pkt, |before|, |before| + |EncodeAll(list, afi)|, addPaths, afi) == Ok(list)
    decreases |list|
  {
    hide Canonical, EncodeNlri, DecodeNlri, NlriLen;
    if list != [] {
      var first, others := EncodeNlri(list[0], afi), EncodeAll(list[1..], afi);
      var pkt := before + EncodeAll(list, afi) + rest;
      assert pkt == (before + first) + others + rest;
      assert pkt[|before|..] == first + (others + rest);
      NlriRoundTrip(list[0], afi, others + rest);
      ListRoundTripFrom(before + first, list[1..], rest, addPaths, afi);
      assert [list[0]] + list[1..] == list;
    }
  }

  // Any list of canonical prefixes comes back from its encoding, whatever follows it.
  lemma ListRoundTrip(list: seq<Nlri>, rest: seq<byte>, addPaths: bool, afi: Afi)
    requires AllCanonical(list, addPaths, afi)
    ensures DecodeAll(EncodeAll(list, afi) + rest, |EncodeAll(list, afi)|, addPaths, afi) == Ok(list)
  {
    hide DecodeFrom, EncodeAll, Canonical;
    ListRoundTripFrom([], list, rest, addPaths, afi);
    assert [] + EncodeAll(list, afi) + rest == EncodeAll(list, afi) + rest;
  }

  // A list of octets with the host bits of every prefix cleared.
  ghost function ClearedFrom(pkt: seq<byte>, ptr: nat, length: nat, addPaths: bool, afi: Afi): seq<byte>
    requires ptr <= |pkt| && length <= |pkt| && DecodeFrom(pkt, ptr, length, addPaths, afi).Ok?
    decreases |pkt| - ptr
  {
    if ptr >= length then []
    else
      DecodedNlri(pkt[ptr..], addPaths, afi);
      Cleared(pkt[ptr..], addPaths) + ClearedFrom(pkt, ptr + NlriLen(DecodeNlri(pkt[ptr..], addPaths, afi).value),
        length, addPaths, afi)
  }

  // A decoded list is canonical and encodes to what was read, with the host bits cleared.
  lemma {:induction false} DecodedList(pkt: seq<byte>, ptr: nat, length: nat, addPaths: bool, afi: Afi)
    requires ptr <= length <= |pkt| && DecodeFrom(pkt, ptr, length, addPaths, afi).Ok?
    ensures var list := DecodeFrom(pkt, ptr, length, addPaths, afi).value;
            && AllCanonical(list, addPaths, afi)
            && EncodeAll(list, afi) == ClearedFrom(pkt, ptr, length, addPaths, afi)
            && |EncodeAll(list, afi)| == length - ptr
    decreases |pkt| - ptr
  {
    hide Canonical, EncodeNlri, DecodeNlri, NlriLen, Cleared;
    if ptr < length {
      DecodedNlri(pkt[ptr..], addPaths, afi);
      var n := DecodeNlri(pkt[ptr..], addPaths, afi).value;
      DecodedList(pkt, ptr + NlriLen(n), length, addPaths, afi);
      var list := DecodeFrom(pkt, ptr, length, addPaths, afi).value;
      assert list[1..] == DecodeFrom(pkt, ptr + NlriLen(n), length, addPaths, afi).value;
    }
  }

  // So what a peer sends is read, written and read again as the same list.
  lemma DecodeIsStable(pkt: seq<byte>, length: nat, addPaths: bool, afi: Afi)
    requires DecodeAll(pkt, length, addPaths, afi).Ok?
    ensures var list := DecodeAll(pkt, length, addPaths, afi).value;
            && AllCanonical(list, addPaths, afi) && |EncodeAll(list, afi)| == length
            && DecodeAll(EncodeAll(list, afi), length, addPaths, afi) == Ok(list)
  {
    DecodedList(pkt, 0, length, addPaths, afi);
    var list := DecodeAll(pkt, length, addPaths, afi).value;
    ListRoundTrip(list, [], addPaths, afi);
    assert EncodeAll(list, afi) + [] == EncodeAll(list, afi);
  }
}
