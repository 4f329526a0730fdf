/** The AS_PATH attribute (bgp/packet/bgp.go, PrependAS in bgp/packet/helpers.go; section 4.3 and 5.1.2 of RFC 4271,
  * RFC 6793): the lengths it carries along, and its segments on the wire.
  */
module AsPaths {
  import opened Paths
  import opened NlriCodec

  const SEGMENT_SET: byte := 1
  const SEGMENT_SEQUENCE: byte := 2
  const AS_TRANS: uint32 := 23456

  // Two- or four-octet AS numbers.
  type AsSize = x: nat | x == 2 || x == 4 witness 2

  // `length` and `segLen` are the fields the source keeps beside the list.
  datatype Segment = Segment(kind: byte, length: byte, segLen: nat, ases: seq<uint32>)

  ghost predicate SegmentValid(s: Segment, size: AsSize) {
    && s.length == |s.ases| && s.segLen == 2 + size * |s.ases|
    && forall i :: 0 <= i < |s.ases| ==> s.ases[i] < (if size == 2 then 0x1_0000 else 0x1_0000_0000)
  }

  function SumSegLen(list: seq<Segment>): nat { if list == [] then 0 else list[0].segLen + SumSegLen(list[1..]) }

  function AllAses(list: seq<Segment>): seq<uint32> { if list == [] then [] else list[0].ases + AllAses(list[1..]) }

  // ---------- building a path ----------

  class AsPath {
    const asSize: AsSize
    var length: nat
    var value: seq<Segment>

    // The attribute's length is the sum of its segments' lengths.
    ghost predicate Valid()
      reads this
    {
      length == SumSegLen(value) && forall i :: 0 <= i < |value| ==> SegmentValid(value[i], asSize)
    }

    constructor (asSize: AsSize)
      ensures Valid() && value == [] && this.asSize == asSize
    {
      this.asSize, length, value := asSize, 0, [];
    }

    method PrependSegment(s: Segment)
      requires Valid() && SegmentValid(s, asSize)
      modifies this
      ensures Valid() && value == [s] + old(value) && length == old(length) + s.segLen
    {
      value := [s] + value;
      length := length + s.segLen;
    }

    method AppendSegment(s: Segment)
      requires Valid() && SegmentValid(s, asSize)
      modifies this
      ensures Valid() && value == old(value) + [s] && length == old(length) + s.segLen
    {
      SumSegLenAppend(value, s);
      value := value + [s];
      length := length + s.segLen;
    }

    // A new segment is made in front of a set, of a full sequence, or of nothing.
    predicate NeedsSegment()
      reads this
    {
      value == [] || value[0].kind == SEGMENT_SET || value[0].length == 255
    }

    // The AS number that goes in. Only a new segment gets AS_TRANS for a number that does not fit in two octets;
    // in an existing one it loses its upper half.
    function Stored(asn: uint32): uint32
      reads this
    {
      if asSize == 4 || asn < 0x1_0000 then asn else if NeedsSegment() then AS_TRANS else asn % 0x1_0000
    }

    method PrependToFirst(asn: uint32)
      requires Valid() && value != [] && value[0].length < 255
      modifies this
      ensures Valid() && length == old(length) + asSize && |value| == |old(value)| && value[1..] == old(value)[1..]
      ensures value[0].kind == old(value)[0].kind && |value[0].ases| == |old(value)[0].ases| + 1
      ensures AllAses(value) == [if asSize == 2 then asn % 0x1_0000 else asn] + AllAses(old(value))
    {
      var s, rest := value[0], value[1..];
      var stored: uint32 := if asSize == 2 then asn % 0x1_0000 else asn;
      value := [Segment(s.kind, s.length + 1, s.segLen + asSize, [stored] + s.ases)] + rest;
      length := length + asSize;
      assert value[1..] == rest;
      assert [stored] + s.ases + AllAses(rest) == [stored] + (s.ases + AllAses(rest));
    }

    method PrependAS(asNumber: uint32)
      requires Valid()
      modifies this
      ensures Valid() && length == old(length) + asSize + (if old(NeedsSegment()) then 2 else 0)
      ensures AllAses(value) == [old(Stored(asNumber))] + AllAses(old(value))
      ensures var first := old(value) == [] || old(value)[0].kind == 1 || |old(value)[0].ases| == 255;
              && old(Stored(asNumber)) == (if asSize == 4 || asNumber < 0x1_0000 then asNumber
                 else if first then 23456 else asNumber % 0x1_0000)
              && (if first then value[1..] == old(value) && value[0].kind == 2 && |value[0].ases| == 1
                  else value != [] && value[1..] == old(value)[1..] && value[0].kind == old(value)[0].kind)
    {
      hide SegmentValid, AllAses, SumSegLen;
      if value != [] { LengthCounts(value[0], asSize); }
      var asn := asNumber;
      ghost var before := value;
      if |value| == 0 || value[0].kind == SEGMENT_SET || value[0].length >= 255 {
        if asSize == 2 && asn > 0xFFFF { asn := AS_TRANS; }
        var s := Segment(SEGMENT_SEQUENCE, 0, 2, []);
        NewSegmentValid(s, asSize);
        PrependSegment(s);
        NothingAdded(before, s);
      }
      PrependToFirst(asn);
    }
  }

  lemma LengthCounts(s: Segment, size: AsSize)
    requires SegmentValid(s, size)
    ensures s.length == |s.ases|
  {
  }

  lemma NewSegmentValid(s: Segment, size: AsSize)
    requires s == Segment(SEGMENT_SEQUENCE, 0, 2, [])
    ensures SegmentValid(s, size)
  {
  }

  lemma NothingAdded(list: seq<Segment>, s: Segment)
    requires s.ases == []
    ensures AllAses([s] + list) == AllAses(list)
  {
    assert ([s] + list)[1..] == list;
  }

  lemma {:induction false} SumSegLenAppend(list: seq<Segment>, s: Segment)
    ensures SumSegLen(list + [s]) == SumSegLen(list) + s.segLen
  {
    if list != [] {
      assert (list + [s])[1..] == list[1..] + [s];
      SumSegLenAppend(list[1..], s);
    } else {
      assert [] + [s] == [s];
    }
  }

  // ---------- segments on the wire ----------

  function AsOctets(asn: uint32, size: AsSize): (r: seq<byte>)
    ensures |r| == size
  {
    if size == 4 then Octets4(asn) else [asn / 256 % 256, asn % 256]
  }

  function AsValue(pkt: seq<byte>, size: AsSize): uint32
    requires |pkt| == size
  {
    if size == 4 then Value4(pkt) else pkt[0] as int * 256 + pkt[1]
  }

  function EncodeAses(ases: seq<uint32>, size: AsSize): (r: seq<byte>)
    ensures |r| == size * |ases|
  {
    if ases == [] then [] else AsOctets(ases[0], size) + EncodeAses(ases[1..], size)
  }

  function DecodeAses(pkt: seq<byte>, n: nat, size: AsSize): (r: seq<uint32>)
    requires |pkt| >= size * n
    ensures |r| == n
  {
    if n == 0 then [] else [AsValue(pkt[..size], size)] + DecodeAses(pkt[size..], n - 1, size)
  }

  function EncodeSegment(s: Segment, size: AsSize): seq<byte> { [s.kind, s.length] + EncodeAses(s.ases, size) }

  // The kind, the number of AS numbers, and each of these big-endian.
  lemma SegmentLayout(s: Segment, size: AsSize, k: nat)
    requires SegmentValid(s, size) && k < |s.ases|
    ensures var pkt, at := EncodeSegment(s, size), 2 + size * k;
            && |pkt| == 2 + size * |s.ases| && pkt[0] == s.kind && pkt[1] == |s.ases| && at + size <= |pkt|
            && (size == 2 ==> pkt[at] as int * 256 + pkt[at + 1] == s.ases[k])
            && (size == 4 ==> Value4(pkt[at..at + 4]) == s.ases[k])
  {
    hide AsOctets, EncodeAses, Octets4, Value4;
    EncodedAs(s.ases, size, k);
    var pkt, at := EncodeSegment(s, size), 2 + size * k;
    assert pkt[at..at + size] == EncodeAses(s.ases, size)[size * k..size * (k + 1)];
    AsIsBigEndian(s.ases[k], size);
  }

  lemma AsIsBigEndian(asn: uint32, size: AsSize)
    requires size == 4 || asn < 0x1_0000
    ensures size == 2 ==> AsOctets(asn, size)[0] as int * 256 + AsOctets(asn, size)[1] == asn
    ensures size == 4 ==> Value4(AsOctets(asn, size)) == asn
  {
    if size == 4 { Octets4Value(asn); }
  }

  lemma {:induction false} EncodedAs(ases: seq<uint32>, size: AsSize, k: nat)
    requires k < |ases|
    ensures size * (k + 1) <= size * |ases| && EncodeAses(ases, size)[size * k..size * (k + 1)] == AsOctets(ases[k], size)
  {
    hide AsOctets;
    var rest := EncodeAses(ases[1..], size);
    if k > 0 {
      EncodedAs(ases[1..], size, k - 1);
      assert EncodeAses(ases, size)[size * k..size * (k + 1)] == rest[size * (k - 1)..size * k];
    }
  }

  // Multiplied and added in eight bits.
  function DecodedSegLen(length: byte, size: AsSize): nat { (length * size + 2) % 256 }

  function DecodeSegment(pkt: seq<byte>, size: AsSize): Result<Segment> {
    if |pkt| <= 2 || |pkt| - 2 < pkt[1] * size then Err
    else Ok(Segment(pkt[0], pkt[1], DecodedSegLen(pkt[1], size), DecodeAses(pkt[2..], pkt[1], size)))
  }

  // A segment that cannot be decoded ends the list without an error. A segment whose length came out as 0 is decoded
  // over and over: the loop never ends.
  datatype Decoded = Segments(list: seq<Segment>) | Refused | Endless

  function Prefixed(s: Segment, d: Decoded): Decoded {
    if d.Segments? then Segments([s] + d.list) else d
  }

  // BGPPathAttrASPath.Decode with `left` octets of the attribute to go.
  function DecodePath(pkt: seq<byte>, left: nat, size: AsSize): Decoded
    decreases left
  {
    if left == 0 then Segments([])
    else
      match DecodeSegment(pkt, size)
      case Err => Segments([])
      case Ok(s) =>
        if s.segLen == 0 then Endless
        else if s.segLen > left then Refused
        else
          SegLenInside(pkt, size);
          Prefixed(s, DecodePath(pkt[s.segLen..], left - s.segLen, size))
  }

  lemma SegLenInside(pkt: seq<byte>, size: AsSize)
    requires DecodeSegment(pkt, size).Ok?
    ensures DecodeSegment(pkt, size).value.segLen <= |pkt|
  {
  }

  method DecodePathLoop(pkt: seq<byte>, length: nat, size: AsSize) returns (d: Decoded)
    ensures d == DecodePath(pkt, length, size)
  {
    hide DecodeSegment;
    var list: seq<Segment>, ptr := [], 0;
    assert forall d: Decoded :: d.Segments? ==> Segments([] + d.list) == d;
    while ptr < length
      invariant ptr <= length && ptr <= |pkt|
                && Continued(list, DecodePath(pkt[ptr..], length - ptr, size)) == DecodePath(pkt, length, size)
      decreases length - ptr
    {
      var r := DecodeSegment(pkt[ptr..], size);
      if r.Err? {
        assert list + [] == list;
        return Segments(list);
      }
      SegLenInside(pkt[ptr..], size);
      var s := r.value;
      if s.segLen == 0 { return Endless; }
      ghost var rest := pkt[ptr..];
      ptr := ptr + s.segLen;
      if ptr > length { return Refused; }
      assert rest[s.segLen..] == pkt[ptr..];
      assert forall more: seq<Segment> :: list + ([s] + more) == list + [s] + more;
      list := list + [s];
    }
    assert list + [] == list;
    return Segments(list);
  }

  ghost function Continued(list: seq<Segment>, d: Decoded): Decoded {
    if d.Segments? then Segments(list + d.list) else d
  }

  // ---------- round trips ----------

  lemma AsRoundTrip(asn: uint32, size: AsSize)
    requires size == 4 || asn < 0x1_0000
    ensures AsValue(AsOctets(asn, size), size) == asn
  {
    if size == 4 { Octets4Value(asn); }
  }

  lemma {:induction false} AsesRoundTrip(ases: seq<uint32>, size: AsSize, rest: seq<byte>)
    requires forall i :: 0 <= i < |ases| ==> ases[i] < (if size == 2 then 0x1_0000 else 0x1_0000_0000)
    ensures DecodeAses(EncodeAses(ases, size) + rest, |ases|, size) == ases
  {
    hide AsOctets, AsValue;
    if ases != [] {
      var first, others := AsOctets(ases[0], size), EncodeAses(ases[1..], size);
      var pkt := EncodeAses(ases, size) + rest;
      assert pkt[..size] == first && pkt[size..] == others + rest;
      AsRoundTrip(ases[0], size);
      AsesRoundTrip(ases[1..], size, rest);
    }
  }

  // The most AS numbers of which eight bits can hold the segment's length.
  function Limit(size: AsSize): nat { if size == 4 then 63 else 126 }

  lemma SegmentRoundTrip(s: Segment, size: AsSize, rest: seq<byte>)
    requires SegmentValid(s, size)
    ensures DecodeSegment(EncodeSegment(s, size) + rest, size)
            == if s.ases == [] && rest == [] then Err else Ok(s.(segLen := DecodedSegLen(s.length, size)))
    ensures |EncodeSegment(s, size)| == s.segLen
    ensures DecodedSegLen(s.length, size) == s.segLen <==> |s.ases| <= Limit(size)
    ensures DecodedSegLen(s.length, size) <= s.segLen
  {
    hide EncodeAses, DecodeAses;
    var pkt := EncodeSegment(s, size) + rest;
    assert pkt[2..] == EncodeAses(s.ases, size) + rest;
    AsesRoundTrip(s.ases, size, rest);
  }

  function EncodePath(list: seq<Segment>, size: AsSize): seq<byte> {
    if list == [] then [] else EncodeSegment(list[0], size) + EncodePath(list[1..], size)
  }

  ghost predicate PathValid(list: seq<Segment>, size: AsSize) { forall i :: 0 <= i < |list| ==> SegmentValid(list[i], size) }

  // The attribute's Length field says how many octets its segments take.
  lemma {:induction false} EncodePathLen(list: seq<Segment>, size: AsSize)
    requires PathValid(list, size)
    ensures |EncodePath(list, size)| == SumSegLen(list)
  {
    if list != [] { EncodePathLen(list[1..], size); }
  }

  // No segment is over the limit, and the last is not empty unless something follows the attribute.
  predicate Decodable(list: seq<Segment>, size: AsSize, rest: seq<byte>) {
    && (forall i :: 0 <= i < |list| ==> |list[i].ases| <= Limit(size))
    && (list != [] && list[|list| - 1].ases == [] ==> rest != [])
  }

  lemma DecodableRest(list: seq<Segment>, size: AsSize, rest: seq<byte>)
    requires list != [] && PathValid(list, size)
    ensures Decodable(list, size, rest) <==>
              |list[0].ases| <= Limit(size) && Decodable(list[1..], size, rest)
              && (list[0].ases == [] ==> EncodePath(list[1..], size) + rest != [])
  {
    hide Limit, EncodeSegment;
    var others := list[1..];
    if others != [] {
      assert others[|others| - 1] == list[|list| - 1];
      SegmentRoundTrip(others[0], size, []);
      assert |EncodePath(others, size)| > 0;
    }
    if Decodable(others, size, rest) && |list[0].ases| <= Limit(size) {
      forall i | 0 <= i < |list| ensures |list[i].ases| <= Limit(size) {
        if i > 0 { assert list[i] == others[i - 1]; }
      }
    }
  }

  // A path comes back from its encoding exactly when every segment is within the limit of eight bits and an empty
  // segment is not the last thing on the wire.
  lemma {:induction false} PathRoundTrip(list: seq<Segment>, size: AsSize, rest: seq<byte>)
    requires PathValid(list, size)
    ensures DecodePath(EncodePath(list, size) + rest, |EncodePath(list, size)|, size) == Segments(list) <==>
            Decodable(list, size, rest)
    decreases |list|
  {
    hide DecodeSegment, EncodeSegment, Limit, Decodable, DecodedSegLen;
    if list == [] {
      assert Decodable([], size, rest) by { NothingToDecode(size, rest); }
    } else {
      var s, others := list[0], list[1..];
      var more := EncodePath(others, size) + rest;
      var pkt := EncodePath(list, size) + rest;
      assert pkt == EncodeSegment(s, size) + more;
      SegmentRoundTrip(s, size, more);
      DecodableRest(list, size, rest);
      PathRoundTrip(others, size, rest);
      if !(s.ases == [] && more == []) && |s.ases| <= Limit(size) {
        assert pkt[s.segLen..] == more;
      }
      assert [s] + others == list;
    }
  }

  lemma NothingToDecode(size: AsSize, rest: seq<byte>)
    ensures Decodable([], size, rest)
  {
  }

  // A segment of 127 or 255 two-octet AS numbers, with none over the limit before it, catches the decoder in its loop.
  // After any other segment over the limit it goes on inside that segment's numbers.
  lemma {:induction false} EndlessPath(list: seq<Segment>, k: nat, rest: seq<byte>)
    requires PathValid(list, 2) && k < |list| && forall i :: 0 <= i < k ==> |list[i].ases| <= Limit(2)
    requires |list[k].ases| == 127 || |list[k].ases| == 255
    ensures DecodePath(EncodePath(list, 2) + rest, |EncodePath(list, 2)|, 2) == Endless
    decreases k
  {
    hide DecodeSegment, EncodeSegment, Limit, DecodedSegLen;
    var s, others := list[0], list[1..];
    var more := EncodePath(others, 2) + rest;
    var pkt := EncodePath(list, 2) + rest;
    assert pkt == EncodeSegment(s, 2) + more;
    SegmentRoundTrip(s, 2, more);
    if k == 0 {
      assert DecodedSegLen(s.length, 2) == 0 by { NoLength(s.length); }
    } else {
      assert others[k - 1] == list[k];
      EncodePathLen(others, 2);
      SomeOctets(others, k - 1);
      EndlessPath(others, k - 1, rest);
      assert pkt[s.segLen..] == more;
    }
  }

  lemma NoLength(length: byte)
    ensures DecodedSegLen(length, 2) == 0 <==> length == 127 || length == 255
  {
  }

  lemma SomeOctets(list: seq<Segment>, k: nat)
    requires PathValid(list, 2) && k < |list|
    ensures SumSegLen(list) >= 2
  {
  }

  // ---------- how long a path can get ----------

  function NumASes(list: seq<Segment>): nat {
    if list == [] then 0 else (if list[0].kind == SEGMENT_SET then 1 else |list[0].ases| % 256) + NumASes(list[1..])
  }

  // Segment headers of 128 two-octet numbers, one right after the other.
  function Headers(n: nat): (r: seq<byte>)
    ensures |r| == 2 * n
  {
    if n == 0 then [] else [SEGMENT_SEQUENCE, 128] + Headers(n - 1)
  }

  // The length of such a segment comes out as 2, so each header is read as a segment of the headers that follow.
  lemma {:induction false} HeadersDecode(n: nat)
    ensures var d := DecodePath(Headers(n), 2 * n, 2);
            d.Segments? && NumASes(d.list) == if n <= 128 then 0 else 128 * (n - 128)
  {
    hide DecodeAses;
    if n > 128 {
      var pkt := Headers(n);
      assert pkt[0] == SEGMENT_SEQUENCE && pkt[1] == 128;
      var s := DecodeSegment(pkt, 2).value;
      assert s.kind == SEGMENT_SEQUENCE && |s.ases| == 128 && s.segLen == 2;
      assert pkt[2..] == Headers(n - 1);
      HeadersDecode(n - 1);
      var rest := DecodePath(Headers(n - 1), 2 * (n - 1), 2).list;
      assert ([s] + rest)[1..] == rest;
    } else if n > 0 {
      assert Headers(n)[1] == 128;
    }
  }

  // So an attribute of 322 octets decodes to a path of more than 4096 numbers, which is over the bound the decision
  // process starts from (bgp/rib/destination.go:684).
  lemma ShortAttributeLongPath()
    ensures |Headers(161)| == 322
    ensures var d := DecodePath(Headers(161), 322, 2); d.Segments? && NumASes(d.list) == 4224
  {
    HeadersDecode(161);
  }
}
