/** One BFD session (bfd/server/bfdSession.go; section 6.8 of RFC 5880): its state machine, and the control packet it
  * keeps encoded between sends. Timers and authentication are not part of this model, and neither is ResetBfdSession.
  */
module BfdSessions {
  import opened Paths
  import opened NlriCodec
  import opened BfdControl

  const STARTUP_INTERVAL: nat := 2000000
  const BFD_VERSION: byte := 1
  const DIAG_NONE: nat := 0
  const DIAG_TIME_EXPIRED: nat := 1
  const DIAG_NEIGHBOR_SIGNAL_DOWN: nat := 3
  const DIAG_ADMIN_DOWN: nat := 7

  datatype Event = RemoteDown | RemoteInit | RemoteUp | Timeout | LocalAdminDown | LocalAdminUp | RemoteAdminDown

  // The state machine. Administratively down is left only by starting the session again, and a session that is up stays
  // up when its peer goes administratively down.
  function After(s: SessionState, e: Event): SessionState {
    match s
    case AdminDown => AdminDown
    case Down =>
      if e.RemoteDown? then Init else if e.RemoteInit? then Up else if e.LocalAdminDown? then AdminDown else Down
    case Init =>
      if e.RemoteInit? || e.RemoteUp? then Up else if e.Timeout? then Down else if e.LocalAdminDown? then AdminDown else Init
    case Up =>
      if e.RemoteDown? || e.Timeout? then Down else if e.LocalAdminDown? then AdminDown else Up
  }

  function RemoteEvent(s: SessionState): Event {
    match s case Down => RemoteDown case Init => RemoteInit case Up => RemoteUp case AdminDown => RemoteAdminDown
  }

  // What section 6.8.6 of RFC 5880 makes of a packet that is received in a state.
  function Standard(s: SessionState, received: SessionState): SessionState {
    if s.AdminDown? then s
    else if received.AdminDown? then Down
    else if s.Down? then (if received.Down? then Init else if received.Init? then Up else Down)
    else if s.Init? then (if received.Init? || received.Up? then Up else Init)
    else if received.Down? then Down
    else Up
  }

  // The code does the same, except exactly that it does not fall with a peer that is administratively down. A timeout
  // brings a raised session down, as section 6.8.4 says, and section 6.8.16 is followed when it is stopped.
  lemma FollowsTheStandard(s: SessionState, received: SessionState)
    ensures After(s, RemoteEvent(received)) == Standard(s, received) <==> !(received.AdminDown? && (s.Init? || s.Up?))
    ensures received.AdminDown? ==> After(s, RemoteEvent(received)) == s
    ensures After(s, Timeout) == if s.Init? || s.Up? then Down else s
    ensures After(s, LocalAdminDown) == AdminDown && After(s, LocalAdminUp) == s
  {
  }

  // The diagnostic an event leaves; only a session going up or administratively down sets one.
  function DiagAfter(s: SessionState, e: Event, diag: nat): nat {
    if s.AdminDown? then diag
    else if e.LocalAdminDown? then DIAG_ADMIN_DOWN
    else if e.RemoteAdminDown? then DIAG_NEIGHBOR_SIGNAL_DOWN
    else if !s.Up? && After(s, e).Up? then DIAG_NONE
    else diag
  }

  // A session that fell is to forget its peer at the next timeout, unless it comes up again before.
  function MovedDownAfter(s: SessionState, e: Event, moved: bool): bool {
    if e.LocalAdminDown? || e.RemoteAdminDown? || (After(s, e) == s && !(s.Down? && e.LocalAdminUp?)) then moved
    else After(s, e).Down?
  }

  lemma TimeoutMeans(s: SessionState, diag: nat, moved: bool)
    ensures DiagAfter(s, Timeout, diag) == diag
    ensures MovedDownAfter(s, Timeout, moved) == (s.Init? || s.Up? || moved)
  {
  }

  // The protocols hear of every move but the one to Init.
  predicate Notifies(s: SessionState, e: Event) {
    && !s.AdminDown?
    && (e.LocalAdminDown? || e.RemoteAdminDown? || (s.Down? && e.LocalAdminUp?) || (After(s, e) != s && !After(s, e).Init?))
  }

  // Which moves leave which diagnostic (section 4.1 of RFC 5880), which ask for the peer to be forgotten, and of which the
  // protocols hear.
  lemma MovesMean(s: SessionState, e: Event, diag: nat, moved: bool)
    ensures var rises := (s.Down? && e.RemoteInit?) || (s.Init? && (e.RemoteInit? || e.RemoteUp?));
            var falls := (s.Init? && e.Timeout?) || (s.Up? && (e.RemoteDown? || e.Timeout?)) || (s.Down? && e.LocalAdminUp?);
            && DiagAfter(s, e, diag) == (if s.AdminDown? then diag else if e.LocalAdminDown? then 7
               else if e.RemoteAdminDown? then 3 else if rises then 0 else diag)
            && (MovedDownAfter(s, e, moved) <==> falls || (moved && !rises && !(s.Down? && e.RemoteDown?)))
            && (Notifies(s, e) <==> !s.AdminDown? && (rises || falls || e.LocalAdminDown? || e.RemoteAdminDown?))
  {
  }

  predicate CanProcess(p: ControlPacket) {
    p.version == BFD_VERSION && p.detectMult != 0 && !p.multipoint && p.myDiscriminator != 0
  }

  class BfdSession {
    const localDiscriminator: uint32
    var sessionState: SessionState
    var remoteSessionState: SessionState
    var localDiag: nat
    var remoteDiscriminator: uint32
    var remoteMinRxInterval: uint32
    var detectionMultiplier: byte
    var desiredMinTxInterval: uint32
    var requiredMinRxInterval: uint32
    var demandMode: bool
    var isClientActive: bool
    var movedToDownState: bool
    var pollSequence: bool
    var pollSequenceFinal: bool
    var pollChanged: bool
    var paramChanged: bool
    var stateChanged: bool
    var remoteParamChanged: bool
    var packet: ControlPacket
    var packetBuf: seq<byte>
    var sent: seq<seq<byte>>
    // What the registered protocols are told, on changes only.
    var notified: bool
    var notifications: seq<bool>

    predicate NeedsUpdate()
      reads this
    {
      paramChanged || remoteParamChanged || pollChanged || stateChanged
    }

    // The packet says what the session is.
    ghost predicate Current(p: ControlPacket)
      reads this
    {
      p.state == sessionState && p.myDiscriminator == localDiscriminator && p.yourDiscriminator == remoteDiscriminator
    }

    // Both ends are up and an interval is still the one used before they were.
    predicate Restarting(p: ControlPacket)
      reads `sessionState, `remoteSessionState
    {
      && sessionState.Up? && remoteSessionState.Up?
      && (p.desiredMinTxInterval == STARTUP_INTERVAL || p.requiredMinRxInterval == STARTUP_INTERVAL)
    }

    predicate Reported()
      reads `sessionState, `remoteSessionState
    {
      sessionState.Up? || sessionState.AdminDown? || remoteSessionState.AdminDown?
    }

    // Without a dirty flag the buffer is current and answers no poll.
    ghost predicate Fresh()
      reads this
    {
      !NeedsUpdate() ==> packetBuf == EncodePacket(packet) && Current(packet) && !packet.final
    }

    ghost predicate Valid()
      reads this
    {
      Settled() && Fresh()
    }

    ghost predicate Settled()
      reads this
    {
      && WireSized(packet) && localDiag < 32
      && (pollSequence || pollSequenceFinal ==> pollChanged)
      && (!isClientActive ==> paramChanged)
      && (notifications != [] ==> notifications[|notifications| - 1] == notified)
      && (forall i :: 0 < i < |notifications| ==> notifications[i] != notifications[i - 1])
      && (notifications == [] ==> !notified)
    }

    constructor (localDiscriminator: uint32, desired: uint32, required: uint32, multiplier: byte, demand: bool)
      ensures Valid() && sessionState == Down && remoteSessionState == Down && sent == [] && notifications == []
      ensures localDiag == DIAG_NONE && !movedToDownState && !isClientActive && NeedsUpdate()
    {
      this.localDiscriminator := localDiscriminator;
      sessionState, remoteSessionState, localDiag, remoteDiscriminator, remoteMinRxInterval := Down, Down, DIAG_NONE, 0, 0;
      detectionMultiplier, desiredMinTxInterval, requiredMinRxInterval, demandMode := multiplier, desired, required, demand;
      isClientActive, movedToDownState, pollSequence, pollSequenceFinal, pollChanged := false, false, false, false, false;
      paramChanged, stateChanged, remoteParamChanged := true, false, false;
      packet := ControlPacket(BFD_VERSION, DIAG_NONE, Down, false, false, false, false, false, 3, 0, 0, 250000, 250000, 0);
      packetBuf, sent, notified, notifications := [], [], false, [];
    }

    // ---------- what the protocols are told ----------

    method SendNotification()
      requires Settled()
      modifies `notified, `notifications
      ensures Settled() && (old(Fresh()) ==> Fresh()) && notified == Reported()
      ensures notified <==> sessionState.Up? || sessionState.AdminDown? || remoteSessionState.AdminDown?
      ensures notifications == old(notifications) + if Reported() != old(notified) then [Reported()] else []
    {
      var state := Reported();
      if state != notified {
        notified := state;
        notifications := notifications + [state];
      }
    }

    // ---------- moves ----------

    method MoveTo(s: SessionState, diag: nat, movedDown: bool)
      requires Settled() && diag < 32 && !s.Init?
      modifies `sessionState, `localDiag, `stateChanged, `movedToDownState, `notified, `notifications
      ensures Settled() && sessionState == s && stateChanged && localDiag == diag && movedToDownState == movedDown
      ensures notified == Reported() && notifications == old(notifications) + if Reported() != old(notified)
              then [Reported()] else []
    {
      sessionState, stateChanged, localDiag, movedToDownState := s, true, diag, movedDown;
      SendNotification();
    }

    method EventHandler(e: Event)
      requires Settled()
      modifies `sessionState, `remoteSessionState, `localDiag, `stateChanged, `movedToDownState, `notified, `notifications
      ensures Settled()
      ensures old(Fresh()) || (isClientActive && e.LocalAdminUp? && old(sessionState).Down?) ==> Fresh()
      ensures sessionState == if isClientActive then After(old(sessionState), e) else old(sessionState)
      ensures remoteSessionState == if isClientActive && e.RemoteAdminDown? && !old(sessionState).AdminDown?
              then AdminDown else old(remoteSessionState)
      ensures localDiag == if isClientActive then DiagAfter(old(sessionState), e, old(localDiag)) else old(localDiag)
      ensures stateChanged == (old(stateChanged) || (isClientActive
              && (sessionState != old(sessionState) || (old(sessionState).Down? && e.LocalAdminUp?))))
      ensures movedToDownState == if isClientActive then MovedDownAfter(old(sessionState), e, old(movedToDownState))
              else old(movedToDownState)
      ensures var told := isClientActive && Notifies(old(sessionState), e);
              && notified == (if told then Reported() else old(notified))
              && notifications == old(notifications) + if told && Reported() != old(notified) then [Reported()] else []
    {
      hide EncodePacket, WireSized;
      if !isClientActive || sessionState.AdminDown? { return; }
      if e.LocalAdminDown? {
        MoveTo(AdminDown, DIAG_ADMIN_DOWN, movedToDownState);
      } else if e.RemoteAdminDown? {
        remoteSessionState, localDiag := AdminDown, DIAG_NEIGHBOR_SIGNAL_DOWN;
        SendNotification();
      } else {
        match sessionState {
          case Down =>
            if e.RemoteDown? {
              sessionState, stateChanged, movedToDownState := Init, true, false;
            } else if e.RemoteInit? {
              MoveTo(Up, DIAG_NONE, false);
            } else if e.LocalAdminUp? {
              MoveTo(Down, localDiag, true);
            }
          case Init =>
            if e.RemoteInit? || e.RemoteUp? {
              MoveTo(Up, DIAG_NONE, false);
            } else if e.Timeout? {
              MoveTo(Down, localDiag, true);
            }
          case Up =>
            if e.RemoteDown? || e.Timeout? { MoveTo(Down, localDiag, true); }
        }
      }
    }

    // ---------- inputs ----------

    method Activate()
      requires Valid()
      modifies `isClientActive
      ensures Valid() && isClientActive
    {
      isClientActive := true;
    }

    // A packet that passed or failed authentication.
    method ProcessPacket(p: ControlPacket, authenticated: bool)
      requires Valid() && isClientActive
      modifies this
      ensures Valid() && isClientActive && sent == old(sent)
      ensures !authenticated || p.version != 1 || p.detectMult == 0 || p.multipoint || p.myDiscriminator == 0 ==>
                unchanged(this)
      ensures authenticated && p.version == 1 && p.detectMult > 0 && !p.multipoint && p.myDiscriminator > 0 ==>
                && sessionState == After(old(sessionState), RemoteEvent(p.state)) && remoteSessionState == p.state
                && remoteDiscriminator == p.myDiscriminator && remoteMinRxInterval == p.requiredMinRxInterval % 0x1_0000_0000
                && pollSequenceFinal == (old(pollSequenceFinal) || (p.poll && !old(sessionState).AdminDown?))
                && pollSequence == (old(pollSequence) && (old(sessionState).AdminDown? || !p.final))
                && localDiag == DiagAfter(old(sessionState), RemoteEvent(p.state),
                                          if p.state.Down? && !old(sessionState).Down? then DIAG_NEIGHBOR_SIGNAL_DOWN
                                            else old(localDiag))
                && movedToDownState == MovedDownAfter(old(sessionState), RemoteEvent(p.state), old(movedToDownState))
                && packet == old(packet) && packetBuf == old(packetBuf)
    {
      hide EncodePacket, WireSized, After, DiagAfter, MovedDownAfter, Notifies, Settled, Fresh;
      if !authenticated || !CanProcess(p) { return; }
      CheckAnyRemoteParamChanged(p);
      ProcessPollSequence(p);
      NoteRemoteDown(p);
      EventHandler(RemoteEvent(p.state));
    }

    method NoteRemoteDown(p: ControlPacket)
      requires Valid()
      modifies `localDiag
      ensures Valid() && localDiag == if p.state.Down? && !sessionState.Down? then DIAG_NEIGHBOR_SIGNAL_DOWN
              else old(localDiag)
    {
      hide EncodePacket, WireSized;
      if p.state.Down? && !sessionState.Down? { localDiag := DIAG_NEIGHBOR_SIGNAL_DOWN; }
    }

    method CheckAnyRemoteParamChanged(p: ControlPacket)
      requires Valid()
      modifies `remoteSessionState, `remoteDiscriminator, `remoteMinRxInterval, `remoteParamChanged
      ensures Valid() && remoteSessionState == p.state && remoteDiscriminator == p.myDiscriminator
      ensures remoteMinRxInterval == p.requiredMinRxInterval % 0x1_0000_0000
    {
      hide EncodePacket, WireSized;
      var minRx: uint32 := p.requiredMinRxInterval % 0x1_0000_0000;
      if remoteSessionState != p.state || remoteDiscriminator != p.myDiscriminator || remoteMinRxInterval != minRx {
        remoteParamChanged := true;
      }
      remoteSessionState, remoteDiscriminator, remoteMinRxInterval := p.state, p.myDiscriminator, minRx;
    }

    method ProcessPollSequence(p: ControlPacket)
      requires Valid()
      modifies `pollSequence, `pollSequenceFinal, `pollChanged
      ensures Valid()
      ensures pollSequenceFinal == (old(pollSequenceFinal) || (p.poll && !sessionState.AdminDown?))
      ensures pollSequence == (old(pollSequence) && (sessionState.AdminDown? || !p.final))
    {
      hide EncodePacket, WireSized;
      if !sessionState.AdminDown? {
        if p.poll { pollSequenceFinal, pollChanged := true, true; }
        if p.final { pollSequence, pollChanged := false, true; }
      }
    }

    method HandleTimeout()
      requires Valid()
      modifies this
      ensures Valid() && sent == old(sent) && isClientActive == old(isClientActive)
      ensures isClientActive ==> sessionState == After(old(sessionState), Timeout)
      ensures remoteDiscriminator == (if old(movedToDownState) then 0 else old(remoteDiscriminator))
      ensures remoteSessionState == (if old(movedToDownState) then Down else old(remoteSessionState))
      ensures localDiag == 1
      ensures movedToDownState == (isClientActive && (old(sessionState).Init? || old(sessionState).Up?))
      ensures packet == old(packet)
      ensures NeedsUpdate() == (old(NeedsUpdate()) || old(movedToDownState) || sessionState != old(sessionState))
    {
      hide EncodePacket, WireSized, After, DiagAfter, MovedDownAfter, Notifies;
      if movedToDownState {
        remoteDiscriminator, remoteSessionState, remoteParamChanged := 0, Down, true;
        movedToDownState := false;
      }
      localDiag := DIAG_TIME_EXPIRED;
      TimeoutMeans(sessionState, localDiag, movedToDownState);
      EventHandler(Timeout);
    }

    method Stop()
      requires Valid()
      modifies this
      ensures Valid() && sent == old(sent) && isClientActive == old(isClientActive)
      ensures sessionState == (if isClientActive then AdminDown else old(sessionState)) && localDiag == 7
    {
      EventHandler(LocalAdminDown);
      localDiag := DIAG_ADMIN_DOWN;
    }

    // The state is set to down without a flag; handling the event then sets one if the session is active.
    method Start()
      requires Valid()
      modifies this
      ensures Valid() && sent == old(sent) && isClientActive == old(isClientActive) && sessionState == Down
      ensures localDiag == old(localDiag) && (isClientActive ==> movedToDownState && stateChanged && notified == Reported())
    {
      hide EncodePacket, WireSized;
      sessionState := Down;
      EventHandler(LocalAdminUp);
    }

    method UpdateParams(desired: uint32, required: uint32, multiplier: byte, demand: bool)
      requires Valid()
      modifies `desiredMinTxInterval, `requiredMinRxInterval, `detectionMultiplier, `demandMode, `paramChanged,
        `pollSequence, `pollChanged
      ensures Valid() && sent == old(sent) && isClientActive == old(isClientActive) && paramChanged && pollSequence
      ensures desiredMinTxInterval == desired && requiredMinRxInterval == required
              && detectionMultiplier == multiplier && demandMode == demand
    {
      desiredMinTxInterval, requiredMinRxInterval, detectionMultiplier, demandMode := desired, required, multiplier, demand;
      paramChanged := true;
      InitiatePollSequence();
    }

    method InitiatePollSequence()
      modifies `pollSequence, `pollChanged
      ensures pollSequence && pollChanged == (old(pollChanged) || !old(pollSequence))
    {
      if !pollSequence { pollSequence, pollChanged := true, true; }
    }

    // ---------- sending ----------

    method UpdateControlPacket()
      requires WireSized(packet) && localDiag < 32
      modifies `packet, `pollSequence, `pollSequenceFinal, `pollChanged, `paramChanged, `stateChanged, `remoteParamChanged
      ensures WireSized(packet) && Current(packet) && !NeedsUpdate() && !pollSequence && !pollSequenceFinal
      ensures packet.final == old(pollSequenceFinal) && packet.diagnostic == localDiag
      ensures packet.poll == (old(pollSequence) || Restarting(old(packet))) && packet.detectMult == detectionMultiplier
      ensures packet.demand == if sessionState.Up? && remoteSessionState.Up? then demandMode else old(packet).demand
      ensures !(sessionState.Up? && remoteSessionState.Up?) ==>
                packet.desiredMinTxInterval == packet.requiredMinRxInterval == STARTUP_INTERVAL
      ensures packet.version == old(packet).version && packet.controlPlaneIndependent == old(packet).controlPlaneIndependent
      ensures packet.multipoint == old(packet).multipoint
              && packet.requiredMinEchoRxInterval == old(packet).requiredMinEchoRxInterval
      ensures sessionState.Up? && remoteSessionState.Up? ==>
                && packet.desiredMinTxInterval == (if Restarting(old(packet)) then desiredMinTxInterval
                   else old(packet).desiredMinTxInterval)
                && packet.requiredMinRxInterval == (if Restarting(old(packet)) then requiredMinRxInterval
                   else old(packet).requiredMinRxInterval)
    {
      hide WireSized, Restarting;
      var tx, rx, demand := Negotiate();
      Refill(tx, rx, demand);
    }

    // The intervals and the mode to offer: the configured ones once both ends are up, announced by a poll.
    method Negotiate() returns (tx: nat, rx: nat, demand: bool)
      requires WireSized(packet)
      modifies `pollSequence, `pollChanged
      ensures tx < 0x1_0000_0000 && rx < 0x1_0000_0000
      ensures pollSequence == (old(pollSequence) || Restarting(packet))
      ensures Restarting(packet) <==>
              sessionState.Up? && remoteSessionState.Up?
              && (packet.desiredMinTxInterval == 2000000 || packet.requiredMinRxInterval == 2000000)
      ensures var both := sessionState.Up? && remoteSessionState.Up?;
              && demand == (if both then demandMode else packet.demand)
              && tx == (if !both then STARTUP_INTERVAL else if Restarting(packet) then desiredMinTxInterval
                 else packet.desiredMinTxInterval)
              && rx == (if !both then STARTUP_INTERVAL else if Restarting(packet) then requiredMinRxInterval
                 else packet.requiredMinRxInterval)
    {
      tx, rx, demand := STARTUP_INTERVAL, STARTUP_INTERVAL, packet.demand;
      if sessionState.Up? && remoteSessionState.Up? {
        tx, rx, demand := packet.desiredMinTxInterval, packet.requiredMinRxInterval, demandMode;
        if tx == STARTUP_INTERVAL || rx == STARTUP_INTERVAL {
          tx, rx := desiredMinTxInterval, requiredMinRxInterval;
          InitiatePollSequence();
        }
      }
    }

    // Poll and Final are taken over once, and no flag stays set.
    method Refill(tx: nat, rx: nat, demand: bool)
      requires WireSized(packet) && localDiag < 32 && tx < 0x1_0000_0000 && rx < 0x1_0000_0000
      modifies `packet, `pollSequence, `pollSequenceFinal, `pollChanged, `paramChanged, `stateChanged, `remoteParamChanged
      ensures WireSized(packet) && !NeedsUpdate() && !pollSequence && !pollSequenceFinal
      ensures packet == old(packet).(diagnostic := localDiag, state := sessionState, detectMult := detectionMultiplier,
                                     myDiscriminator := localDiscriminator, yourDiscriminator := remoteDiscriminator,
                                     desiredMinTxInterval := tx, requiredMinRxInterval := rx, demand := demand,
                                     poll := old(pollSequence), final := old(pollSequenceFinal))
    {
      packet := packet.(diagnostic := localDiag, state := sessionState, detectMult := detectionMultiplier,
                        myDiscriminator := localDiscriminator, yourDiscriminator := remoteDiscriminator,
                        desiredMinTxInterval := tx, requiredMinRxInterval := rx, demand := demand);
      packet := packet.(poll := pollSequence, final := pollSequenceFinal);
      pollSequence, pollSequenceFinal := false, false;
      pollChanged, paramChanged, stateChanged, remoteParamChanged := false, false, false, false;
    }

    // The configured intervals are those in the packet.
    predicate Offers(p: ControlPacket)
      reads `desiredMinTxInterval, `requiredMinRxInterval
    {
      p.desiredMinTxInterval == desiredMinTxInterval && p.requiredMinRxInterval == requiredMinRxInterval
    }

    predicate StartsUp()
      reads `desiredMinTxInterval, `requiredMinRxInterval
    {
      desiredMinTxInterval == STARTUP_INTERVAL || requiredMinRxInterval == STARTUP_INTERVAL
    }

    // What is written decodes to the session's state and discriminators at this moment, and answers a poll exactly when
    // one is unanswered. Afterwards no flag is set and the buffer holds no Final. It still holds a Poll exactly when this
    // send took the configured intervals up and one of them is itself the start-up interval: the second refill then
    // takes them up again. Once taken up they are kept while both ends are up, so intervals configured later are offered
    // exactly when they equal those in the buffer.
    method SendPeriodic() returns (ghost p: ControlPacket)
      requires Valid() && isClientActive
      modifies `packet, `packetBuf, `sent, `pollSequence, `pollSequenceFinal, `pollChanged, `paramChanged,
        `stateChanged, `remoteParamChanged
      ensures Valid() && !NeedsUpdate() && |sent| == |old(sent)| + 1 && sent[..|old(sent)|] == old(sent)
      ensures |sent[|old(sent)|]| == 24 && !HasBit(sent[|old(sent)|][1], 4) && DecodePacket(sent[|old(sent)|]) == Ok(p)
      ensures Current(p) && p.final == old(pollSequenceFinal)
      ensures old(NeedsUpdate()) ==> packet == p.(poll := packet.poll, final := false)
      ensures old(NeedsUpdate()) ==> packet.poll == (old(Restarting(packet)) && StartsUp())
      ensures var was, taken := old(packet), old(Restarting(packet));
              old(NeedsUpdate()) && sessionState.Up? && remoteSessionState.Up? ==>
                && p.desiredMinTxInterval == (if taken then desiredMinTxInterval else was.desiredMinTxInterval)
                && p.requiredMinRxInterval == (if taken then requiredMinRxInterval else was.requiredMinRxInterval)
                && (Offers(p) <==> taken || Offers(was))
      ensures old(NeedsUpdate()) && !(sessionState.Up? && remoteSessionState.Up?) ==>
                p.desiredMinTxInterval == p.requiredMinRxInterval == 2000000
      ensures old(NeedsUpdate()) ==>
                p.poll == (old(pollSequence) || old(Restarting(packet))) && p.diagnostic == localDiag
                  && p.detectMult == detectionMultiplier
      ensures !old(NeedsUpdate()) ==> p == packet == old(packet)
      ensures p.diagnostic == localDiag <==> old(NeedsUpdate()) || old(packet).diagnostic == localDiag
    {
      hide HasBit, EncodePacket, DecodePacket, WireSized;
      var packetUpdated := false;
      if NeedsUpdate() {
        packetUpdated := true;
        UpdateControlPacket();
        packetBuf := EncodePacket(packet);
      }
      sent := sent + [packetBuf];
      p := packet;
      PacketRoundTrip(p);
      if packetUpdated {
        UpdateControlPacket();
        packetBuf := EncodePacket(packet);
      }
    }
  }
}
