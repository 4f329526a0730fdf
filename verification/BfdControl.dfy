/** BFD control packets on the wire (bfd/server/bfdControl.go; section 4.1 of RFC 5880), without an authentication section.
  *
  * Shifts and masks are written as arithmetic on octets.
  */
module BfdControl {
  import opened Paths
  import opened NlriCodec

  datatype SessionState = AdminDown | Down | Init | Up

  // Intervals are durations that are cut to 32 bits on the wire, as the discriminators are kept.
  datatype ControlPacket = ControlPacket(
    version: byte,
    diagnostic: nat,
    state: SessionState,
    poll: bool,
    final: bool,
    controlPlaneIndependent: bool,
    demand: bool,
    multipoint: bool,
    detectMult: byte,
    myDiscriminator: uint32,
    yourDiscriminator: uint32,
    desiredMinTxInterval: nat,
    requiredMinRxInterval: nat,
    requiredMinEchoRxInterval: nat)

  function StateValue(s: SessionState): byte {
    match s case AdminDown => 0 case Down => 1 case Init => 2 case Up => 3
  }

  function ValueState(v: nat): SessionState { if v == 0 then AdminDown else if v == 1 then Down
    else if v == 2 then Init else Up }

  function Flag(b: bool, weight: nat): nat { if b then weight else 0 }

  // The second octet: two bits of state, then Poll, Final, control plane independent, authentication, Demand, Multipoint.
  function StateAndFlags(p: ControlPacket): byte {
    StateValue(p.state) as int * 64 + Flag(p.poll, 32) + Flag(p.final, 16) + Flag(p.controlPlaneIndependent, 8)
    + Flag(p.demand, 2) + Flag(p.multipoint, 1)
  }

  function EncodePacket(p: ControlPacket): (r: seq<byte>)
    ensures |r| == 24
  {
    [p.version % 8 * 32 + p.diagnostic % 32, StateAndFlags(p), p.detectMult, 24]
    + Octets4(p.myDiscriminator) + Octets4(p.yourDiscriminator) + Octets4(p.desiredMinTxInterval % 0x1_0000_0000)
    + Octets4(p.requiredMinRxInterval % 0x1_0000_0000) + Octets4(p.requiredMinEchoRxInterval % 0x1_0000_0000)
  }

  predicate HasBit(b: byte, weight: nat)
    requires weight > 0
  {
    b / weight % 2 == 1
  }

  // The fixed part; the source indexes it without a check. A packet with an authentication section is not covered.
  function DecodePacket(data: seq<byte>): Result<ControlPacket>
    requires |data| >= 24 && !HasBit(data[1], 4)
  {
    if |data| % 256 != data[3] then Err
    else Ok(ControlPacket(data[0] / 32, data[0] % 32, ValueState(data[1] / 64), HasBit(data[1], 32), HasBit(data[1], 16),
                          HasBit(data[1], 8), HasBit(data[1], 2), HasBit(data[1], 1), data[2],
                          Value4(data[4..8]), Value4(data[8..12]), Value4(data[12..16]), Value4(data[16..20]),
                            Value4(data[20..24])))
  }

  // Every field fits its place on the wire.
  predicate WireSized(p: ControlPacket) {
    && p.version < 8 && p.diagnostic < 32
    && p.desiredMinTxInterval < 0x1_0000_0000 && p.requiredMinRxInterval < 0x1_0000_0000
       && p.requiredMinEchoRxInterval < 0x1_0000_0000
  }

  lemma StateIsRead(p: ControlPacket)
    ensures ValueState(StateAndFlags(p) / 64) == p.state
  {
    StateIsCoded(p);
  }

  lemma FlagsAreRead(p: ControlPacket)
    ensures var b := StateAndFlags(p);
            && HasBit(b, 32) == p.poll && HasBit(b, 16) == p.final
            && HasBit(b, 8) == p.controlPlaneIndependent && !HasBit(b, 4) && HasBit(b, 2) == p.demand
               && HasBit(b, 1) == p.multipoint
  {
  }

  lemma FlagsSpellOctet(b: byte)
    requires !HasBit(b, 4)
    ensures b == 64 * (b / 64) + Flag(HasBit(b, 32), 32) + Flag(HasBit(b, 16), 16) + Flag(HasBit(b, 8), 8)
                 + Flag(HasBit(b, 2), 2) + Flag(HasBit(b, 1), 1)
  {
    BitsSpellQuarter(b, b / 4);
    BitsSpellQuarter(b / 4, b / 16);
    BitsSpellQuarter(b / 16, b / 64);
    assert b / 8 == b / 4 / 2 && b / 32 == b / 16 / 2;
  }

  lemma FlagsAreWritten(p: ControlPacket, b: byte)
    requires !HasBit(b, 4) && p.state == ValueState(b / 64) && p.poll == HasBit(b, 32) && p.final == HasBit(b, 16)
    requires p.controlPlaneIndependent == HasBit(b, 8) && p.demand == HasBit(b, 2) && p.multipoint == HasBit(b, 1)
    ensures StateAndFlags(p) == b
  {
    hide HasBit;
    FlagsSpellOctet(b);
    assert StateValue(ValueState(b / 64)) == b / 64;
  }

  // Where section 4.1 of RFC 5880 puts each field: version and diagnostic; state, Poll, Final, control plane independent,
  // authentication, Demand, Multipoint; detection multiplier; length; then five numbers of four octets.
  lemma PacketLayout(p: ControlPacket)
    requires WireSized(p)
    ensures var d := EncodePacket(p);
            && d[0] / 32 == p.version && d[0] % 32 == p.diagnostic && d[2] == p.detectMult && d[3] == 24
            && d[1] / 64 == (if p.state.AdminDown? then 0 else if p.state.Down? then 1 else if p.state.Init? then 2 else 3)
            && (BitOf(d[1], 2) == 1 <==> p.poll) && (BitOf(d[1], 3) == 1 <==> p.final)
            && (BitOf(d[1], 4) == 1 <==> p.controlPlaneIndependent) && BitOf(d[1], 5) == 0
            && (BitOf(d[1], 6) == 1 <==> p.demand) && (BitOf(d[1], 7) == 1 <==> p.multipoint)
            && Value4(d[4..8]) == p.myDiscriminator && Value4(d[8..12]) == p.yourDiscriminator
            && Value4(d[12..16]) == p.desiredMinTxInterval && Value4(d[16..20]) == p.requiredMinRxInterval
            && Value4(d[20..24]) == p.requiredMinEchoRxInterval
  {
    hide Octets4, Value4, ValueState;
    FlagsAreRead(p);
    StateIsCoded(p);
    var d := EncodePacket(p);
    assert d[4..8] == Octets4(p.myDiscriminator) && d[8..12] == Octets4(p.yourDiscriminator);
    assert d[12..16] == Octets4(p.desiredMinTxInterval) && d[16..20] == Octets4(p.requiredMinRxInterval);
    assert d[20..24] == Octets4(p.requiredMinEchoRxInterval);
    Octets4Value(p.myDiscriminator);
    Octets4Value(p.yourDiscriminator);
    Octets4Value(p.desiredMinTxInterval);
    Octets4Value(p.requiredMinRxInterval);
    Octets4Value(p.requiredMinEchoRxInterval);
  }

  lemma StateIsCoded(p: ControlPacket)
    ensures StateAndFlags(p) / 64 == StateValue(p.state)
  {
    var f := StateAndFlags(p) - StateValue(p.state) as int * 64;
    assert 0 <= f < 64;
  }

  // A packet survives the wire exactly when every field fits its place.
  lemma PacketRoundTrip(p: ControlPacket)
    ensures !HasBit(EncodePacket(p)[1], 4)
    ensures DecodePacket(EncodePacket(p)) == Ok(p) <==> WireSized(p)
  {
    hide Octets4, Value4, HasBit, ValueState, StateAndFlags;
    FlagsAreRead(p);
    StateIsRead(p);
    var d := EncodePacket(p);
    var tx, rx, echo := p.desiredMinTxInterval % 0x1_0000_0000, p.requiredMinRxInterval % 0x1_0000_0000,
      p.requiredMinEchoRxInterval % 0x1_0000_0000;
    assert d[4..8] == Octets4(p.myDiscriminator) && d[8..12] == Octets4(p.yourDiscriminator);
    assert d[12..16] == Octets4(tx) && d[16..20] == Octets4(rx) && d[20..24] == Octets4(echo);
    Octets4Value(p.myDiscriminator);
    Octets4Value(p.yourDiscriminator);
    Octets4Value(tx);
    Octets4Value(rx);
    Octets4Value(echo);
    assert d[0] / 32 == p.version % 8 && d[0] % 32 == p.diagnostic % 32;
  }

  // What is read and written again comes out octet for octet.
  lemma OctetsRoundTrip(data: seq<byte>)
    requires |data| == 24 && !HasBit(data[1], 4) && DecodePacket(data).Ok?
    ensures EncodePacket(DecodePacket(data).value) == data
  {
    hide Octets4, Value4, HasBit, ValueState, StateAndFlags;
    var p := DecodePacket(data).value;
    FlagsAreWritten(p, data[1]);
    Value4Octets(data[4..8]);
    Value4Octets(data[8..12]);
    Value4Octets(data[12..16]);
    Value4Octets(data[16..20]);
    Value4Octets(data[20..24]);
    assert data == data[..4] + data[4..8] + data[8..12] + data[12..16] + data[16..20] + data[20..24];
    assert data[..4] == [data[0], data[1], data[2], data[3]];
  }
}
