/** The per-connection state machine of a BGP neighbour (bgp/fsm/fsm.go; section 8.2.2 of RFC 4271).
  *
  * One event is one step. Timers are armed or not; an expiry is an input. A message written without a connection would
  * be a nil dereference in the source, so writing requires one.
  */
module PeerFsms {
  import opened Paths

  datatype State = Idle | Connect | Active | OpenSent | OpenConfirm | Established

  datatype Dir = Out | In

  datatype Msg = OpenMsg | KeepAliveMsg | Notification(code: nat) | UpdateMsg

  const MSG_HEADER_ERR := 1
  const OPEN_ERR := 2
  const UPDATE_ERR := 3
  const HOLD_EXPIRED := 4
  const FSM_ERR := 5
  const CEASE := 6

  // The events of section 8.1. An OPEN carries its hold time, and whether the manager lets this connection go on.
  datatype Event =
    | ManualStart | ManualStop | AutoStart | ManualStartPassive | AutoStartPassive | AutoStartDamp | AutoStartDampPassive
    | AutoStop | ConnRetryTimerExp | HoldTimerExp | KeepAliveTimerExp | DelayOpenTimerExp | IdleHoldTimerExp
    | TcpConnValid | TcpCrInvalid | TcpCrAcked(dir: Dir) | TcpConnConfirmed(dir: Dir) | TcpConnFails
    | BgpOpen(openHoldTime: nat, accepted: bool) | BgpOpenDelayOpen | HeaderErr | OpenMsgErr | OpenCollisionDump
    | NotifMsgVerErr | NotifMsg | KeepAliveRcvd | UpdateRcvd | UpdateMsgErr

  predicate HasConn(s: State) { s.OpenSent? || s.OpenConfirm? || s.Established? }

  // ---------- the state machine as a table ----------

  // Where an event leads; `down` says that BFD holds the neighbour down, `passive` what a damped start asked for.
  function Next(s: State, e: Event, down: bool, passive: bool): State {
    var connect := if down then Active else Connect;
    match s
    case Idle =>
      if e.ManualStart? || e.AutoStart? then connect
      else if e.ManualStartPassive? || e.AutoStartPassive? then Active
      else if e.IdleHoldTimerExp? then if passive then Active else connect
      else Idle
    case Connect =>
      if e.TcpCrAcked? || e.TcpConnConfirmed? then OpenSent
      else if IsStart(e) || IsUnsupported(e) || e.ConnRetryTimerExp? then Connect
      else Idle
    case Active =>
      if e.TcpCrAcked? || e.TcpConnConfirmed? then OpenSent
      else if IsStart(e) || IsUnsupported(e) then Active
      else if e.ConnRetryTimerExp? then connect
      else Idle
    case OpenSent =>
      if IsStart(e) || e.TcpConnValid? || e.TcpCrInvalid? || e.TcpCrAcked? || e.TcpConnConfirmed? then OpenSent
      else if e.TcpConnFails? then Active
      else if e.BgpOpen? then if e.accepted then OpenConfirm else OpenSent
      else Idle
    case OpenConfirm =>
      if IsStart(e) || e.TcpConnValid? || e.TcpCrInvalid? || e.TcpCrAcked? || e.TcpConnConfirmed? || e.BgpOpen?
         || e.KeepAliveTimerExp? then OpenConfirm
      else if e.KeepAliveRcvd? then Established
      else Idle
    case Established =>
      if IsStart(e) || e.TcpConnValid? || e.TcpCrInvalid? || e.TcpCrAcked? || e.TcpConnConfirmed? || e.BgpOpen?
         || e.KeepAliveTimerExp? || e.KeepAliveRcvd? || e.UpdateRcvd? then Established
      else Idle
  }

  predicate IsStart(e: Event) {
    e.ManualStart? || e.AutoStart? || e.ManualStartPassive? || e.AutoStartPassive? || e.AutoStartDamp?
      || e.AutoStartDampPassive?
  }

  predicate IsUnsupported(e: Event) {
    e.DelayOpenTimerExp? || e.TcpConnValid? || e.TcpCrInvalid? || e.BgpOpenDelayOpen?
  }

  function IdleHoldTimeInterval(t: nat): nat {
    match t
    case 5 => 10
    case 10 => 30
    case 60 => 120
    case 120 => 180
    case 180 => 300
    case 300 => 500
    case _ => 0
  }

  // What is written to the peer.
  function Reply(s: State, e: Event): seq<Msg> {
    if s.Idle? then []
    else if s.Connect? || s.Active? then if e.TcpCrAcked? || e.TcpConnConfirmed? then [OpenMsg] else []
    else if e.BgpOpen? then if s.OpenSent? && e.accepted then [KeepAliveMsg] else []
    else if e.KeepAliveTimerExp? && !s.OpenSent? then [KeepAliveMsg]
    else if e.HoldTimerExp? then [Notification(HOLD_EXPIRED)]
    else if e.ManualStop? || e.AutoStop? || e.OpenCollisionDump? then [Notification(CEASE)]
    else if e.HeaderErr? && !s.Established? then [Notification(MSG_HEADER_ERR)]
    else if e.OpenMsgErr? && !s.Established? then [Notification(OPEN_ERR)]
    else if e.UpdateMsgErr? && s.Established? then [Notification(UPDATE_ERR)]
    else if e.NotifMsgVerErr? || e.TcpConnFails? || (e.NotifMsg? && !s.OpenSent?) then []
    else if Next(s, e, false, false).Idle? then [Notification(if s.OpenConfirm? then CEASE else FSM_ERR)]
    else []
  }

  // The connection after an event that led to a state.
  function ConnAfter(s: State, e: Event, conn: Option<Dir>, to: State): Option<Dir> {
    if !HasConn(to) then None
    else if HasConn(s) then conn
    else if e.TcpCrAcked? || e.TcpConnConfirmed? then Some(e.dir)
    else conn
  }

  predicate ComesUp(s: State, e: Event) { (s.Connect? || s.Active?) && (e.TcpCrAcked? || e.TcpConnConfirmed?) }

  predicate FallsIdle(s: State, e: Event) { !s.Idle? && Next(s, e, false, false).Idle? }

  // The session goes a step on, or the peer is heard from: the hold timer starts over.
  predicate Restarts(s: State, e: Event) {
    (s.OpenSent? && e.BgpOpen? && e.accepted) || ((s.OpenConfirm? || s.Established?) && e.KeepAliveRcvd?)
      || (s.Established? && e.UpdateRcvd?)
  }

  // Nothing comes of the event, though a second connection is passed on to the manager.
  predicate Ignores(s: State, e: Event) {
    if s.Idle? then Next(s, e, false, false).Idle?
    else if s.Connect? || s.Active? then IsStart(e) || IsUnsupported(e)
    else
      || IsStart(e) || e.TcpConnValid? || e.TcpCrInvalid? || e.TcpCrAcked? || e.TcpConnConfirmed?
      || (e.BgpOpen? && !s.OpenSent?)
  }

  // ---------- against the standard ----------

  // Where section 8.2.2 of RFC 4271 leads, event by event, without its optional delay of the OPEN and damping of starts.
  // Of a collision the manager decides.
  function Standard(s: State, e: Event): State {
    match e
    case ManualStart => if s.Idle? then Connect else s
    case AutoStart => if s.Idle? then Connect else s
    case ManualStartPassive => if s.Idle? then Active else s
    case AutoStartPassive => if s.Idle? then Active else s
    case AutoStartDamp => s
    case AutoStartDampPassive => s
    case ConnRetryTimerExp => if s.Connect? || s.Active? then Connect else Idle
    case KeepAliveTimerExp => if s.OpenConfirm? || s.Established? then s else Idle
    case TcpConnValid => s
    case TcpCrInvalid => s
    case TcpCrAcked(_) => if s.Connect? || s.Active? then OpenSent else s
    case TcpConnConfirmed(_) => if s.Connect? || s.Active? then OpenSent else s
    case TcpConnFails => if s.OpenSent? then Active else Idle
    case BgpOpen(_, accepted) =>
      if s.OpenSent? && accepted then OpenConfirm else if HasConn(s) then s else Idle
    case KeepAliveRcvd => if s.OpenConfirm? || s.Established? then Established else Idle
    case UpdateRcvd => if s.Established? then Established else Idle
    case _ => Idle
  }

  // What it has a speaker send, with the error codes of section 4.5.
  function StandardReply(s: State, e: Event): seq<Msg> {
    if s.Connect? || s.Active? then (if e.TcpCrAcked? || e.TcpConnConfirmed? then [OpenMsg] else [])
    else if s.Idle? then []
    else
      match e
      case ManualStop => [Notification(6)]
      case AutoStop => [Notification(6)]
      case OpenCollisionDump => [Notification(6)]
      case HoldTimerExp => [Notification(4)]
      case HeaderErr => [Notification(if s.Established? then 5 else 1)]
      case OpenMsgErr => [Notification(if s.Established? then 5 else 2)]
      case UpdateMsgErr => [Notification(if s.Established? then 3 else 5)]
      case BgpOpen(_, accepted) => if s.OpenSent? && accepted then [KeepAliveMsg] else []
      case KeepAliveTimerExp => if s.OpenSent? then [Notification(5)] else [KeepAliveMsg]
      case KeepAliveRcvd => if s.OpenSent? then [Notification(5)] else []
      case UpdateRcvd => if s.Established? then [] else [Notification(5)]
      case NotifMsg => if s.OpenSent? then [Notification(5)] else []
      case ConnRetryTimerExp => [Notification(5)]
      case DelayOpenTimerExp => [Notification(5)]
      case IdleHoldTimerExp => [Notification(5)]
      case BgpOpenDelayOpen => [Notification(5)]
      case _ => []
  }

  // The code goes the same way except exactly for the two events of the delayed OPEN while it waits for a connection, which
  // it ignores, and the end of a damped start. While BFD holds the neighbour down it is Active where it would connect.
  lemma FollowsTheStandard(s: State, e: Event, passive: bool)
    ensures Next(s, e, false, passive) == Standard(s, e) <==>
            !((s.Connect? || s.Active?) && (e.DelayOpenTimerExp? || e.BgpOpenDelayOpen?))
            && !(s.Idle? && e.IdleHoldTimerExp?)
    ensures (s.Connect? || s.Active?) && (e.DelayOpenTimerExp? || e.BgpOpenDelayOpen?) ==> Next(s, e, false, passive) == s
    ensures Next(Idle, IdleHoldTimerExp, false, passive) == if passive then Active else Connect
    ensures Next(s, e, true, passive) ==
            if !s.Connect? && Next(s, e, false, passive).Connect? then Active else Next(s, e, false, passive)
  {
  }

  // And sends the same except exactly that an event out of turn in OpenConfirm is answered by a Cease (code 6) and not by a
  // Finite State Machine Error (code 5).
  lemma SpeaksTheStandard(s: State, e: Event)
    ensures var strange := e.ConnRetryTimerExp? || e.DelayOpenTimerExp? || e.IdleHoldTimerExp? || e.BgpOpenDelayOpen?
                           || e.UpdateRcvd? || e.UpdateMsgErr?;
            && (Reply(s, e) == StandardReply(s, e) <==> !(s.OpenConfirm? && strange))
            && (s.OpenConfirm? && strange ==> Reply(s, e) == [Notification(6)])
  {
  }

  // What starts and stops the timers, and what the counter of failed attempts counts.
  lemma TimersMean(s: State, e: Event, armed: bool, n: nat)
    ensures var starting := e.ManualStart? || e.AutoStart? || e.ManualStartPassive? || e.AutoStartPassive?;
            var falling := !s.Idle? && Next(s, e, false, false) == Idle;
            var connecting := (s.Connect? || s.Active?) && (e.TcpCrAcked? || e.TcpConnConfirmed?);
            var heard := (s.OpenSent? && e.BgpOpen? && e.accepted) || (s.Established? && e.UpdateRcvd?)
                         || ((s.OpenConfirm? || s.Established?) && e.KeepAliveRcvd?);
            && RetryAfter(s, e, armed) ==
               (if (s.Idle? && (starting || e.IdleHoldTimerExp?)) || ((s.Active? || s.OpenSent?) && e.TcpConnFails?)
                   || ((s.Connect? || s.Active?) && e.ConnRetryTimerExp?) then true
                else armed && !falling && !connecting && !(s.OpenSent? && e.BgpOpen?))
            && HoldAfter(s, e, armed, n) ==
               (if connecting || heard then n > 0 else armed && !falling && !(s.OpenSent? && e.TcpConnFails?))
  {
  }

  // An attempt to connect is on from when Connect is entered or its retry timer expires until the machine falls, or its
  // connection fails in OpenSent.
  lemma OutMeans(s: State, e: Event, out: bool, down: bool, passive: bool)
    ensures var to := Next(s, e, down, passive);
            OutAfter(s, e, out, to) <==>
            (to.Connect? && (!s.Connect? || e.ConnRetryTimerExp?))
            || (out && (s.Idle? || !to.Idle?) && !(s.OpenSent? && e.TcpConnFails?))
  {
  }

  lemma CounterMeans(s: State, e: Event, n: nat)
    ensures var starting := e.ManualStart? || e.AutoStart? || e.ManualStartPassive? || e.AutoStartPassive?;
            CounterAfter(s, e, n) ==
            if (s.Idle? && starting) || (!s.Idle? && e.ManualStop?) then 0
            else if !s.Idle? && Next(s, e, false, false) == Idle && !(s.Connect? && e.TcpConnFails?)
                    && !((s.OpenSent? || s.OpenConfirm?) && e.NotifMsgVerErr?) then n + 1
            else n
  {
  }

  lemma FallsAnyway(s: State, e: Event, down: bool, passive: bool)
    requires FallsIdle(s, e)
    ensures Next(s, e, down, passive) == Idle && !HasConn(Idle) && !e.TcpCrAcked? && !e.TcpConnConfirmed?
  {
  }

  function RetryAfter(s: State, e: Event, armed: bool): bool {
    if s.Idle? then armed || e.ManualStart? || e.AutoStart? || e.ManualStartPassive? || e.AutoStartPassive?
      || e.IdleHoldTimerExp?
    else if FallsIdle(s, e) then s.Active? && e.TcpConnFails?
    else if e.ConnRetryTimerExp? || (s.OpenSent? && e.TcpConnFails?) then true
    else if ComesUp(s, e) || (s.OpenSent? && e.BgpOpen?) then false
    else armed
  }

  // `holdTime` is the one in force after the event.
  function HoldAfter(s: State, e: Event, armed: bool, holdTime: nat): bool {
    if FallsIdle(s, e) || (s.OpenSent? && e.TcpConnFails?) then false
    else if ComesUp(s, e) || Restarts(s, e) then holdTime != 0
    else armed
  }

  function KeepAliveAfter(s: State, e: Event, armed: bool, keepAliveTime: nat): bool {
    if FallsIdle(s, e) || (s.OpenSent? && e.TcpConnFails?) || ComesUp(s, e) then false
    else if (s.OpenSent? && e.BgpOpen? && e.accepted) || ((s.OpenConfirm? || s.Established?) && e.KeepAliveTimerExp?)
      then keepAliveTime != 0
    else armed
  }

  // The attempt to connect out is on exactly while one is wanted.
  function OutAfter(s: State, e: Event, out: bool, to: State): bool {
    if FallsIdle(s, e) || (s.OpenSent? && e.TcpConnFails?) then false
    else if to.Connect? && (!s.Connect? || e.ConnRetryTimerExp?) then true
    else out
  }

  // Starts and stops set the counter of failed attempts back; failures raise it, but for a connection that fails in
  // Connect and a version error before the session is up.
  function CounterAfter(s: State, e: Event, counter: nat): nat {
    if s.Idle? then if e.ManualStart? || e.AutoStart? || e.ManualStartPassive? || e.AutoStartPassive? then 0 else counter
    else if !FallsIdle(s, e) then counter
    else if e.ManualStop? then 0
    else if (s.Connect? && e.TcpConnFails?) || ((s.OpenSent? || s.OpenConfirm?) && e.NotifMsgVerErr?) then counter
    else counter + 1
  }

  lemma IgnoredStays(s: State, e: Event, down: bool, passive: bool)
    requires Ignores(s, e)
    ensures Next(s, e, down, passive) == s && !FallsIdle(s, e) && !ComesUp(s, e) && !Restarts(s, e)
  {
  }

  lemma IgnoredMeans(s: State, e: Event, down: bool, passive: bool)
    requires Ignores(s, e)
    ensures Next(s, e, down, passive) == s && Reply(s, e) == []
    ensures forall armed :: RetryAfter(s, e, armed) == armed
    ensures forall armed, n :: HoldAfter(s, e, armed, n) == armed
    ensures forall armed, n :: KeepAliveAfter(s, e, armed, n) == armed
    ensures forall out :: OutAfter(s, e, out, s) == out
    ensures forall n :: CounterAfter(s, e, n) == n
  {
    IgnoredStays(s, e, down, passive);
    IgnoredStays(s, e, false, false);
    hide FallsIdle, ComesUp, Restarts;
  }

  lemma ComesUpMeans(s: State, e: Event, down: bool, passive: bool)
    requires ComesUp(s, e)
    ensures Next(s, e, down, passive) == OpenSent && Reply(s, e) == [OpenMsg] && !HasConn(s)
    ensures forall armed :: RetryAfter(s, e, armed) == false
    ensures forall armed, n :: HoldAfter(s, e, armed, n) == (n != 0)
    ensures forall armed, n :: KeepAliveAfter(s, e, armed, n) == false
    ensures forall out :: OutAfter(s, e, out, OpenSent) == out
    ensures forall n :: CounterAfter(s, e, n) == n
  {
  }

  lemma OpenMeans(e: Event, down: bool, passive: bool)
    requires e.BgpOpen?
    ensures Next(OpenSent, e, down, passive) == if e.accepted then OpenConfirm else OpenSent
    ensures Reply(OpenSent, e) == if e.accepted then [KeepAliveMsg] else []
    ensures forall armed :: RetryAfter(OpenSent, e, armed) == false
    ensures forall armed, n :: HoldAfter(OpenSent, e, armed, n) == if e.accepted then n != 0 else armed
    ensures forall armed, n :: KeepAliveAfter(OpenSent, e, armed, n) == if e.accepted then n != 0 else armed
    ensures forall out, s: State :: !s.Connect? ==> OutAfter(OpenSent, e, out, s) == out
    ensures forall n :: CounterAfter(OpenSent, e, n) == n
  {
  }

  // ---------- notices to the manager ----------

  // Established and broken notices alternate, starting with established.
  predicate Alternates(notices: seq<bool>) { forall i :: 0 <= i < |notices| ==> (notices[i] <==> i % 2 == 0) }

  predicate Outstanding(notices: seq<bool>) { |notices| % 2 == 1 }

  function Noticed(from: State, to: State): seq<bool> {
    if from.Established? && !to.Established? then [false] else if !from.Established? && to.Established? then [true] else []
  }

  lemma NoticesAlternate(notices: seq<bool>, from: State, to: State)
    requires Alternates(notices) && (Outstanding(notices) <==> from.Established?)
    ensures Alternates(notices + Noticed(from, to)) && (Outstanding(notices + Noticed(from, to)) <==> to.Established?)
  {
  }

  lemma NoNotice(notices: seq<bool>, from: State, to: State)
    requires !from.Established? && !to.Established?
    ensures notices + Noticed(from, to) == notices
  {
  }

  lemma SameNotice(notices: seq<bool>, s: State)
    ensures notices + Noticed(s, s) == notices
  {
  }

  class PeerFsm {
    var state: State
    var peerConn: Option<Dir>
    var outConn: bool
    var close: bool
    var connectRetryTimer: bool
    var holdTimer: bool
    var keepAliveTimer: bool
    var idleHoldTimer: bool
    var restartTimer: bool
    var holdTime: nat
    var keepAliveTime: nat
    var idleHoldTime: nat
    var connectRetryCounter: nat
    var passive: bool
    var passiveTcpEst: bool
    var bfdDown: bool
    const cfgHoldTime: nat
    const cfgKeepAliveTime: nat

    // What the manager and the peer get to see.
    var accepting: bool
    var notices: seq<bool>
    var written: seq<Msg>
    var others: seq<Dir>

    // Made for a connection that is still to be handed over.
    ghost var waiting: bool

    // The connection is there exactly in the states that have one, and the timers that need it are armed only with it.
    ghost predicate Connected()
      reads this
    {
      && (peerConn.Some? <==> HasConn(state))
      && (holdTimer || keepAliveTimer ==> peerConn.Some?)
      && (state.OpenSent? ==> !keepAliveTimer)
    }

    // Some armed timer drives the machine on.
    ghost predicate TimerDriven()
      reads this
    {
      match state
      case Idle => restartTimer
      case Connect => connectRetryTimer
      case Active => connectRetryTimer
      case _ => holdTimer || holdTime == 0
    }

    // A KEEPALIVE is due as long as there is a session.
    ghost predicate KeptAlive()
      reads this
    {
      state.OpenConfirm? || state.Established? ==> keepAliveTimer || keepAliveTime == 0
    }

    ghost predicate Valid()
      reads this
    {
      && Alternates(notices)
      && (close ==> peerConn.None? && !holdTimer && !keepAliveTimer)
      && (!close ==> Connected() && (Outstanding(notices) <==> state.Established?) && (waiting || TimerDriven())
                     && KeptAlive())
      && (waiting ==> state.Active? || state.Connect?)
    }

    // NewFSM, Init and the start of StartFSM, in Idle.
    constructor (cfgHoldTime: nat, cfgKeepAliveTime: nat)
      ensures Valid() && !close && !waiting && state == Idle && notices == [] && written == []
    {
      this.cfgHoldTime, this.cfgKeepAliveTime := cfgHoldTime, cfgKeepAliveTime;
      state, peerConn, outConn, close := Idle, None, false, false;
      connectRetryTimer, holdTimer, keepAliveTimer, idleHoldTimer, restartTimer := false, false, false, false, true;
      holdTime, keepAliveTime, idleHoldTime, connectRetryCounter := cfgHoldTime, cfgKeepAliveTime, 5, 0;
      passive, passiveTcpEst, bfdDown, accepting := false, false, false, false;
      notices, written, others, waiting := [], [], [], false;
    }

    // Made by the manager for a second connection: Active for one it accepted, Connect for one it opened.
    constructor ForConnection(dir: Dir, cfgHoldTime: nat, cfgKeepAliveTime: nat)
      ensures Valid() && !close && waiting && state == (if dir.Out? then Connect else Active) && notices == []
              && written == []
    {
      this.cfgHoldTime, this.cfgKeepAliveTime := cfgHoldTime, cfgKeepAliveTime;
      state, peerConn, outConn, close := if dir.Out? then Connect else Active, None, dir.Out?, false;
      connectRetryTimer, holdTimer, keepAliveTimer, idleHoldTimer, restartTimer := false, false, false, false, false;
      holdTime, keepAliveTime, idleHoldTime, connectRetryCounter := cfgHoldTime, cfgKeepAliveTime, 5, 0;
      passive, passiveTcpEst, bfdDown, accepting := false, false, false, true;
      notices, written, others, waiting := [], [], [], true;
    }

    // ---------- actions ----------

    method Write(m: Msg)
      requires peerConn.Some?
      modifies `written
      ensures written == old(written) + [m]
    {
      written := written + [m];
    }

    method SetHoldTime(h: nat, k: nat)
      modifies `holdTime, `keepAliveTime
      ensures if 0 < h < 3 then holdTime == old(holdTime) && keepAliveTime == old(keepAliveTime)
              else holdTime == h && keepAliveTime == k
    {
      if 0 < h < 3 { return; }
      holdTime, keepAliveTime := h, k;
    }

    method StartHoldTimer()
      modifies `holdTimer
      ensures holdTimer == (holdTime != 0)
    {
      holdTimer := false;
      if holdTime != 0 { holdTimer := true; }
    }

    method SendKeepAlive()
      requires peerConn.Some?
      modifies `written, `keepAliveTimer
      ensures written == old(written) + [KeepAliveMsg] && keepAliveTimer == (keepAliveTime != 0)
    {
      Write(KeepAliveMsg);
      keepAliveTimer := keepAliveTime != 0;
    }

    method SetPeerConn(dir: Dir)
      modifies `peerConn
      ensures peerConn == if old(peerConn).Some? then old(peerConn) else Some(dir)
    {
      if peerConn.Some? { return; }
      peerConn := Some(dir);
    }

    method ClearPeerConn()
      modifies `peerConn, `holdTimer, `keepAliveTimer
      ensures peerConn.None?
      ensures if old(peerConn).Some? then !holdTimer && !keepAliveTimer
              else holdTimer == old(holdTimer) && keepAliveTimer == old(keepAliveTimer)
    {
      if peerConn.None? { return; }
      keepAliveTimer, holdTimer := false, false;
      peerConn := None;
    }

    // leave, enter and the notices. Entering Connect while BFD is down changes to Active at once, nested.
    // A closed machine changes no more.
    method ChangeState(newState: State)
      requires Alternates(notices) && (!close ==> (Outstanding(notices) <==> state.Established?))
      requires newState.Established? ==> peerConn.Some?
      modifies this
      ensures close == old(close) && (close ==> unchanged(this))
      ensures peerConn == old(peerConn) && connectRetryTimer == old(connectRetryTimer) && bfdDown == old(bfdDown)
      ensures written == old(written) && others == old(others) && passiveTcpEst == old(passiveTcpEst)
      ensures connectRetryCounter == old(connectRetryCounter)
      ensures !close ==>
                && state == (if newState.Connect? && bfdDown then Active else newState) && !waiting
                && notices == old(notices) + Noticed(old(state), state)
                && Alternates(notices) && (Outstanding(notices) <==> state.Established?)
      ensures !close && newState.Idle? ==> !holdTimer && !keepAliveTimer && restartTimer
      ensures outConn == (old(outConn) || (!close && newState.Connect? && !bfdDown))
      ensures !newState.Idle? ==>
                holdTimer == old(holdTimer) && keepAliveTimer == old(keepAliveTimer) && restartTimer == old(restartTimer)
      ensures !old(state).Established? && !newState.Idle? ==>
              holdTime == old(holdTime) && keepAliveTime == old(keepAliveTime)
    {
      hide Alternates, Outstanding, Noticed;
      if close { return; }
      var oldState := state;
      Swap(newState);
      Notify(oldState);
    }

    // The old state is left and the new one entered.
    method Swap(newState: State)
      modifies `state, `waiting, `passive, `keepAliveTimer, `holdTimer, `accepting, `holdTime, `keepAliveTime
      modifies `restartTimer, `outConn, `idleHoldTime, `idleHoldTimer
      ensures state == (if newState.Connect? && bfdDown then Active else newState) && !waiting
      ensures newState.Idle? ==> !holdTimer && !keepAliveTimer && restartTimer
      ensures outConn == (old(outConn) || (newState.Connect? && !bfdDown))
      ensures !newState.Idle? ==>
                holdTimer == old(holdTimer) && keepAliveTimer == old(keepAliveTimer) && restartTimer == old(restartTimer)
      ensures !old(state).Established? && !newState.Idle? ==>
              holdTime == old(holdTime) && keepAliveTime == old(keepAliveTime)
    {
      Leave();
      state := newState;
      waiting := false;
      Enter();
    }

    method Leave()
      modifies `idleHoldTimer, `holdTime, `keepAliveTime
      ensures !state.Established? ==> holdTime == old(holdTime) && keepAliveTime == old(keepAliveTime)
    {
      if state.Idle? { idleHoldTimer := false; }
      if state.Established? { SetHoldTime(cfgHoldTime, cfgKeepAliveTime); }
    }

    method Enter()
      modifies `state, `passive, `keepAliveTimer, `holdTimer, `accepting, `holdTime, `keepAliveTime, `restartTimer,
        `outConn, `idleHoldTime
      ensures state == if old(state).Connect? && bfdDown then Active else old(state)
      ensures old(state).Idle? ==> !holdTimer && !keepAliveTimer && restartTimer
      ensures outConn == (old(outConn) || (old(state).Connect? && !bfdDown))
      ensures !old(state).Idle? ==> holdTimer == old(holdTimer) && keepAliveTimer == old(keepAliveTimer)
                                    && restartTimer == old(restartTimer) && holdTime == old(holdTime)
                                       && keepAliveTime == old(keepAliveTime)
    {
      match state {
        case Idle => EnterIdle();
        case Connect =>
          if bfdDown {
            EnterActive();
          } else {
            accepting, outConn := true, true;
          }
        case Active => accepting := true;
        case Established => idleHoldTime := 5;
        case _ =>
      }
    }

    method Notify(oldState: State)
      requires Alternates(notices) && (Outstanding(notices) <==> oldState.Established?)
      modifies `notices
      ensures notices == old(notices) + Noticed(oldState, state)
      ensures Alternates(notices) && (Outstanding(notices) <==> state.Established?)
    {
      NoticesAlternate(notices, oldState, state);
      if oldState.Established? && !state.Established? {
        notices := notices + [false];
      } else if !oldState.Established? && state.Established? {
        notices := notices + [true];
      } else {
        assert notices == notices + Noticed(oldState, state);
      }
    }

    method EnterIdle()
      modifies `passive, `keepAliveTimer, `holdTimer, `accepting, `holdTime, `keepAliveTime, `restartTimer
      ensures !passive && !keepAliveTimer && !holdTimer && !accepting && restartTimer
    {
      passive := false;
      keepAliveTimer, holdTimer := false, false;
      accepting := false;
      SetHoldTime(cfgHoldTime, cfgKeepAliveTime);
      restartTimer := true;
    }

    // The nested change: neither Connect nor Active gives a notice.
    method EnterActive()
      modifies `state, `accepting
      ensures state == Active && accepting
    {
      state := Active;
      accepting := true;
    }

    // ---------- events ----------

    // The expiry, or the start, that the driving timer stands for.
    predicate IsDriver(e: Event)
      reads `state
    {
      match state
      case Idle => e.AutoStart? || e.AutoStartPassive?
      case Connect => e.ConnRetryTimerExp?
      case Active => e.ConnRetryTimerExp?
      case _ => e.HoldTimerExp?
    }

    // An event may come in: the machine is open, or it is closing and this is the stop. The driving timer may just
    // have gone off.
    ghost predicate Ready(e: Event)
      reads this
    {
      && Alternates(notices) && Connected() && (Outstanding(notices) <==> state.Established?)
      && (close ==> e.ManualStop?) && (waiting || TimerDriven() || IsDriver(e)) && (KeptAlive() || e.KeepAliveTimerExp?)
         && (waiting ==> state.Active? || state.Connect?)
    }

    // What an event does, beside keeping the machine valid: where it leads, what it says and to whom,
    twostate predicate Moved(e: Event)
      reads this
    {
      && close == old(close) && bfdDown == old(bfdDown)
      && (if close then state == old(state) && notices == old(notices)
          else state == Next(old(state), e, bfdDown, old(passive)) && notices == old(notices) + Noticed(old(state), state))
      && peerConn == (if close then None else ConnAfter(old(state), e, old(peerConn), state))
      && written == old(written) + Reply(old(state), e)
      && others == old(others) + (if HasConn(old(state)) && (e.TcpCrAcked? || e.TcpConnConfirmed?) then [e.dir] else [])
    }

    // and its timers and counters.
    twostate predicate Timed(e: Event)
      reads this
    {
      && connectRetryTimer == RetryAfter(old(state), e, old(connectRetryTimer))
      && holdTimer == HoldAfter(old(state), e, old(holdTimer), holdTime)
      && keepAliveTimer == KeepAliveAfter(old(state), e, old(keepAliveTimer), keepAliveTime)
      && connectRetryCounter == CounterAfter(old(state), e, old(connectRetryCounter))
      && outConn == OutAfter(old(state), e, old(outConn), state)
    }

    // The common end of most branches.
    method GoIdle()
      requires Alternates(notices) && (!close ==> (Outstanding(notices) <==> state.Established?))
      requires (peerConn.Some? <==> HasConn(state)) && (holdTimer || keepAliveTimer ==> peerConn.Some?)
      modifies this
      ensures Valid() && close == old(close) && peerConn.None? && !outConn && !connectRetryTimer
      ensures !close ==> state == Idle && notices == old(notices) + Noticed(old(state), Idle)
      ensures close ==> state == old(state) && notices == old(notices)
      ensures written == old(written) && others == old(others) && connectRetryCounter == old(connectRetryCounter)
              && bfdDown == old(bfdDown)
    {
      hide Alternates, Outstanding, Noticed;
      connectRetryTimer := false;
      ClearPeerConn();
      outConn := false;
      if close { waiting := false; }
      ChangeState(Idle);
    }

    // The machine fell back to Idle, or stopped there for good.
    twostate lemma Fell(e: Event)
      requires FallsIdle(old(state), e) && close == old(close) && bfdDown == old(bfdDown) && others == old(others)
      requires peerConn.None?
      requires if close then state == old(state) && notices == old(notices)
               else state == Idle && notices == old(notices) + Noticed(old(state), Idle)
      requires written == old(written) + Reply(old(state), e)
      requires connectRetryTimer == (old(state).Active? && e.TcpConnFails?) && !holdTimer && !keepAliveTimer && !outConn
      requires connectRetryCounter == CounterAfter(old(state), e, old(connectRetryCounter))
      ensures Moved(e) && Timed(e)
    {
      hide Reply, CounterAfter, Noticed;
      FallsAnyway(old(state), e, bfdDown, old(passive));
    }

    // Nothing happened, but that another connection may have been passed on.
    twostate lemma Ignored(e: Event)
      requires Ignores(old(state), e) && peerConn == old(peerConn) && (peerConn.Some? <==> HasConn(state))
      requires close ==> peerConn.None?
      requires close == old(close) && bfdDown == old(bfdDown) && state == old(state) && notices == old(notices)
               && written == old(written)
      requires others == old(others) + (if HasConn(old(state)) && (e.TcpCrAcked? || e.TcpConnConfirmed?) then [e.dir]
               else [])
      requires connectRetryTimer == old(connectRetryTimer) && holdTimer == old(holdTimer)
               && keepAliveTimer == old(keepAliveTimer)
      requires outConn == old(outConn) && connectRetryCounter == old(connectRetryCounter)
      ensures Moved(e) && Timed(e)
    {
      hide Next, Reply, Ignores, RetryAfter, HoldAfter, KeepAliveAfter, OutAfter, CounterAfter, Noticed;
      IgnoredMeans(old(state), e, bfdDown, old(passive));
      SameNotice(notices, state);
    }

    // A connection came up while waiting for one.
    twostate lemma CameUp(e: Event)
      requires ComesUp(old(state), e) && !close && !old(close) && bfdDown == old(bfdDown) && state == OpenSent
      requires peerConn == Some(e.dir) && notices == old(notices) && written == old(written) + [OpenMsg]
      requires others == old(others)
      requires !connectRetryTimer && !keepAliveTimer && holdTimer == (holdTime != 0)
      requires outConn == old(outConn) && connectRetryCounter == old(connectRetryCounter)
      ensures Moved(e) && Timed(e)
    {
      hide Reply, RetryAfter, HoldAfter, KeepAliveAfter, OutAfter, CounterAfter;
      ComesUpMeans(old(state), e, bfdDown, old(passive));
    }

    // The connection is taken, an OPEN goes out, and the timers are set for the answer.
    method Greet(dir: Dir)
      requires peerConn.None?
      modifies `connectRetryTimer, `peerConn, `written, `holdTime, `keepAliveTime, `holdTimer, `keepAliveTimer
      ensures peerConn == Some(dir) && written == old(written) + [OpenMsg]
      ensures !connectRetryTimer && !keepAliveTimer && holdTimer == (holdTime != 0)
    {
      connectRetryTimer := false;
      SetPeerConn(dir);
      Write(OpenMsg);
      SetHoldTime(cfgHoldTime, cfgKeepAliveTime);
      StartHoldTimer();
      keepAliveTimer := false;
    }

    method ConnectionMade(e: Event)
      requires Alternates(notices) && !close && peerConn.None? && !Outstanding(notices) && ComesUp(state, e)
      modifies this
      ensures Valid() && Moved(e) && Timed(e)
    {
      assert !HasConn(state) && (e.TcpCrAcked? || e.TcpConnConfirmed?);
      hide Alternates, Outstanding, Noticed, Moved, Timed, Next, ComesUp;
      NoNotice(notices, state, OpenSent);
      Greet(e.dir);
      ChangeState(OpenSent);
      CameUp(e);
    }

    // The machine has a connection and an event is being handled on it.
    ghost predicate Busy()
      reads this
    {
      && Alternates(notices) && HasConn(state) && peerConn.Some?
         && (!close ==> (Outstanding(notices) <==> state.Established?))
    }

    method DropAndIdle(e: Event)
      requires Busy() && FallsIdle(state, e) && Reply(state, e) == []
      requires CounterAfter(state, e, connectRetryCounter) == connectRetryCounter + 1
      modifies this
      ensures Valid() && Moved(e) && Timed(e)
    {
      hide Alternates, Outstanding, Noticed, Moved, Timed, FallsIdle, Reply, CounterAfter;
      connectRetryCounter := connectRetryCounter + 1;
      GoIdle();
      Fell(e);
    }

    method FailAndIdle(e: Event, code: nat)
      requires Busy() && FallsIdle(state, e) && Reply(state, e) == [Notification(code)]
      requires CounterAfter(state, e, connectRetryCounter) == connectRetryCounter + 1
      modifies this
      ensures Valid() && Moved(e) && Timed(e)
    {
      hide Alternates, Outstanding, Noticed, Moved, Timed, FallsIdle, Reply, CounterAfter;
      Write(Notification(code));
      connectRetryCounter := connectRetryCounter + 1;
      GoIdle();
      Fell(e);
    }

    method StopAndIdle(e: Event)
      requires Busy() && e.ManualStop?
      modifies this
      ensures Valid() && Moved(e) && Timed(e)
    {
      hide Alternates, Outstanding, Noticed, Moved, Timed;
      Write(Notification(CEASE));
      connectRetryCounter := 0;
      GoIdle();
      Fell(e);
    }

    // A version error counts as no failure.
    method RefuseVersion(e: Event)
      requires Busy() && (state.OpenSent? || state.OpenConfirm?) && e.NotifMsgVerErr?
      modifies this
      ensures Valid() && Moved(e) && Timed(e)
    {
      hide Alternates, Outstanding, Noticed, Moved, Timed;
      GoIdle();
      Fell(e);
    }

    // An OPEN in OpenSent. The smaller hold time counts, and 0 turns the timer off.
    method ReceiveOpen(e: Event)
      requires Busy() && !close && state == OpenSent && Connected() && TimerDriven() && !waiting && e.BgpOpen?
      modifies this
      ensures Valid() && Moved(e) && Timed(e)
      ensures holdTime == if e.openHoldTime < old(holdTime) && (e.openHoldTime == 0 || e.openHoldTime >= 3)
              then e.openHoldTime else old(holdTime)
      ensures keepAliveTime == if e.openHoldTime < old(holdTime) && (e.openHoldTime == 0 || e.openHoldTime >= 3)
              then e.openHoldTime / 3 else old(keepAliveTime)
    {
      hide Alternates, Outstanding, Noticed, Next, Reply, RetryAfter, HoldAfter, KeepAliveAfter, OutAfter, CounterAfter;
      OpenMeans(e, bfdDown, passive);
      NoNotice(notices, OpenSent, OpenConfirm);
      NoNotice(notices, OpenSent, OpenSent);
      connectRetryTimer := false;
      if e.openHoldTime < holdTime { SetHoldTime(e.openHoldTime, e.openHoldTime / 3); }
      if e.accepted {
        SendKeepAlive();
        StartHoldTimer();
        ChangeState(OpenConfirm);
      }
    }

    // The connection fails before an OPEN came.
    method AwaitAnother(e: Event)
      requires Busy() && !close && state == OpenSent && Connected() && !waiting && e.TcpConnFails?
      modifies this
      ensures Valid() && Moved(e) && Timed(e)
    {
      hide Alternates, Outstanding, Noticed;
      NoNotice(notices, OpenSent, Active);
      ClearPeerConn();
      outConn, connectRetryTimer := false, true;
      ChangeState(Active);
    }

    method KeepAlive(e: Event)
      requires Ready(e) && (state.OpenConfirm? || state.Established?) && e.KeepAliveTimerExp?
      modifies `written, `keepAliveTimer
      ensures Valid() && Moved(e) && Timed(e)
    {
      hide Alternates, Outstanding, Noticed;
      SameNotice(notices, state);
      SendKeepAlive();
    }

    // The first KEEPALIVE completes the session.
    method Establish(e: Event)
      requires Ready(e) && state.OpenConfirm? && e.KeepAliveRcvd?
      modifies this
      ensures Valid() && Moved(e) && Timed(e)
    {
      hide Alternates, Outstanding, Noticed;
      StartHoldTimer();
      ChangeState(Established);
    }

    method HeardFromPeer(e: Event)
      requires Ready(e) && state.Established? && (e.KeepAliveRcvd? || e.UpdateRcvd?)
      modifies `holdTimer
      ensures Valid() && Moved(e) && Timed(e)
    {
      hide Alternates, Outstanding, Noticed;
      SameNotice(notices, state);
      StartHoldTimer();
    }

    // Idle is left for Connect or Active.
    twostate lemma LeftIdle(e: Event)
      requires old(state).Idle? && !close && close == old(close) && bfdDown == old(bfdDown) && peerConn.None?
      requires state == Next(Idle, e, bfdDown, old(passive)) && !state.Idle?
               && notices == old(notices) + Noticed(Idle, state)
      requires written == old(written) && others == old(others) && connectRetryTimer
      requires holdTimer == old(holdTimer) && keepAliveTimer == old(keepAliveTimer)
               && outConn == (old(outConn) || state.Connect?)
      requires connectRetryCounter == if e.IdleHoldTimerExp? then old(connectRetryCounter) else 0
      ensures Moved(e) && Timed(e)
    {
      hide Noticed;
    }

    method Damp(passive: bool)
      modifies `idleHoldTime, `idleHoldTimer, `passive
      ensures this.passive == passive && (idleHoldTimer <==> old(idleHoldTime) in {5, 10, 60, 120, 180})
    {
      idleHoldTime := IdleHoldTimeInterval(idleHoldTime);
      idleHoldTimer := 0 < idleHoldTime <= 300;
      this.passive := passive;
    }

    method ProcessIdle(e: Event)
      requires state == Idle && Ready(e)
      modifies this
      ensures Valid() && Moved(e) && Timed(e)
      ensures e.AutoStartDamp? || e.AutoStartDampPassive? ==>
                passive == e.AutoStartDampPassive? && (idleHoldTimer <==> old(idleHoldTime) in {5, 10, 60, 120, 180})
    {
      hide Alternates, Outstanding, Noticed, Moved, Timed;
      if e.ManualStart? || e.AutoStart? {
        connectRetryCounter, connectRetryTimer := 0, true;
        ChangeState(Connect);
        LeftIdle(e);
      } else if e.ManualStartPassive? || e.AutoStartPassive? {
        connectRetryCounter, connectRetryTimer := 0, true;
        ChangeState(Active);
        LeftIdle(e);
      } else if e.AutoStartDamp? || e.AutoStartDampPassive? {
        Damp(e.AutoStartDampPassive?);
        Ignored(e);
      } else if e.IdleHoldTimerExp? {
        connectRetryTimer := true;
        if passive { ChangeState(Active); } else { ChangeState(Connect); }
        LeftIdle(e);
      } else {
        Ignored(e);
      }
    }

    method ProcessConnect(e: Event)
      requires state == Connect && Ready(e)
      modifies this
      ensures Valid() && Moved(e) && Timed(e)
    {
      hide Alternates, Outstanding, Noticed, Moved, Timed;
      if e.ManualStop? {
        connectRetryCounter := 0;
        GoIdle();
        Fell(e);
      } else if e.ConnRetryTimerExp? {
        outConn, connectRetryTimer := true, true;
        Retried(e);
      } else if IsStart(e) || IsUnsupported(e) {
        Ignored(e);
      } else if e.TcpCrAcked? || e.TcpConnConfirmed? {
        ConnectionMade(e);
      } else {
        if !e.TcpConnFails? { connectRetryCounter := connectRetryCounter + 1; }
        GoIdle();
        Fell(e);
      }
    }

    twostate lemma Retried(e: Event)
      requires old(state).Connect? && e.ConnRetryTimerExp? && outConn && connectRetryTimer && !close && peerConn.None?
      requires close == old(close) && bfdDown == old(bfdDown) && state == old(state) && notices == old(notices)
               && written == old(written)
      requires others == old(others) && holdTimer == old(holdTimer) && keepAliveTimer == old(keepAliveTimer)
      requires connectRetryCounter == old(connectRetryCounter)
      ensures Moved(e) && Timed(e)
    {
      SameNotice(notices, state);
    }

    method ProcessActive(e: Event)
      requires state == Active && Ready(e)
      modifies this
      ensures Valid() && Moved(e) && Timed(e)
    {
      hide Alternates, Outstanding, Noticed, Moved, Timed;
      if e.ManualStop? {
        connectRetryCounter := 0;
        GoIdle();
        Fell(e);
      } else if e.ConnRetryTimerExp? {
        ConnectAgain(e);
      } else if IsStart(e) || IsUnsupported(e) {
        Ignored(e);
      } else if e.TcpCrAcked? || e.TcpConnConfirmed? {
        ConnectionMade(e);
      } else {
        connectRetryCounter := connectRetryCounter + 1;
        GoIdle();
        if e.TcpConnFails? { connectRetryTimer := true; }
        Fell(e);
      }
    }

    method ConnectAgain(e: Event)
      requires state == Active && Ready(e) && e.ConnRetryTimerExp?
      modifies this
      ensures Valid() && Moved(e) && Timed(e)
    {
      hide Alternates, Outstanding, Noticed;
      SameNotice(notices, state);
      NoNotice(notices, state, Connect);
      connectRetryTimer := true;
      ChangeState(Connect);
    }

    method ProcessOpenSent(e: Event)
      requires state == OpenSent && Ready(e)
      modifies this
      ensures Valid() && Moved(e) && Timed(e)
    {
      hide Alternates, Outstanding, Noticed, Moved, Timed;
      if IsStart(e) || e.TcpConnValid? || e.TcpCrInvalid? {
        Ignored(e);
      } else if e.ManualStop? {
        StopAndIdle(e);
      } else if e.TcpCrAcked? || e.TcpConnConfirmed? {
        others := others + [e.dir];
        Ignored(e);
      } else if e.TcpConnFails? {
        AwaitAnother(e);
      } else if e.BgpOpen? {
        ReceiveOpen(e);
      } else if e.NotifMsgVerErr? {
        RefuseVersion(e);
      } else {
        FailAndIdle(e, if e.AutoStop? || e.OpenCollisionDump? then CEASE else if e.HoldTimerExp? then HOLD_EXPIRED
                       else if e.HeaderErr? then MSG_HEADER_ERR else if e.OpenMsgErr? then OPEN_ERR else FSM_ERR);
      }
    }

    method ProcessOpenConfirm(e: Event)
      requires state == OpenConfirm && Ready(e)
      modifies this
      ensures Valid() && Moved(e) && Timed(e)
    {
      hide Alternates, Outstanding, Noticed, Moved, Timed;
      if IsStart(e) || e.TcpConnValid? || e.TcpCrInvalid? || e.BgpOpen? {
        Ignored(e);
      } else if e.ManualStop? {
        StopAndIdle(e);
      } else if e.KeepAliveTimerExp? {
        KeepAlive(e);
      } else if e.TcpCrAcked? || e.TcpConnConfirmed? {
        others := others + [e.dir];
        Ignored(e);
      } else if e.TcpConnFails? || e.NotifMsg? {
        DropAndIdle(e);
      } else if e.NotifMsgVerErr? {
        RefuseVersion(e);
      } else if e.KeepAliveRcvd? {
        Establish(e);
      } else {
        FailAndIdle(e, if e.HoldTimerExp? then HOLD_EXPIRED else if e.HeaderErr? then MSG_HEADER_ERR
                       else if e.OpenMsgErr? then OPEN_ERR else CEASE);
      }
    }

    method ProcessEstablished(e: Event)
      requires state == Established && Ready(e)
      modifies this
      ensures Valid() && Moved(e) && Timed(e)
    {
      hide Alternates, Outstanding, Noticed, Moved, Timed;
      if IsStart(e) || e.TcpConnValid? || e.TcpCrInvalid? || e.BgpOpen? {
        Ignored(e);
      } else if e.ManualStop? {
        StopAndIdle(e);
      } else if e.KeepAliveTimerExp? {
        KeepAlive(e);
      } else if e.TcpCrAcked? || e.TcpConnConfirmed? {
        others := others + [e.dir];
        Ignored(e);
      } else if e.TcpConnFails? || e.NotifMsgVerErr? || e.NotifMsg? {
        DropAndIdle(e);
      } else if e.KeepAliveRcvd? || e.UpdateRcvd? {
        HeardFromPeer(e);
      } else {
        FailAndIdle(e, if e.AutoStop? || e.OpenCollisionDump? then CEASE else if e.HoldTimerExp? then HOLD_EXPIRED
                       else if e.UpdateMsgErr? then UPDATE_ERR else FSM_ERR);
      }
    }

    method ProcessEvent(e: Event)
      requires Ready(e)
      modifies this
      ensures Valid() && Moved(e) && Timed(e)
    {
      hide Alternates, Outstanding, Noticed, Next, Reply, Ready, Valid;
      match state {
        case Idle => ProcessIdle(e);
        case Connect => ProcessConnect(e);
        case Active => ProcessActive(e);
        case OpenSent => ProcessOpenSent(e);
        case OpenConfirm => ProcessOpenConfirm(e);
        case Established => ProcessEstablished(e);
      }
    }

    // ---------- the loop of StartFSM, one input at a time ----------

    method OutConnected()
      requires Valid() && !close
      modifies this
      ensures Valid() && !close
      ensures state == if old(outConn) then Next(old(state), TcpCrAcked(Out), bfdDown, old(passive)) else old(state)
    {
      hide Next;
      // nobody is waiting for it any more
      if !outConn { return; }
      outConn := false;
      ProcessEvent(TcpCrAcked(Out));
    }

    method OutFailed(stale: bool)
      requires Valid() && !close
      modifies this
      ensures Valid() && !close
      ensures state == if stale then old(state) else Next(old(state), TcpConnFails, bfdDown, old(passive))
    {
      hide Next;
      outConn := false;
      if !stale { ProcessEvent(TcpConnFails); }
    }

    method InConnected()
      requires Valid() && !close
      modifies this
      ensures Valid() && !close && state == Next(old(state), TcpConnConfirmed(In), bfdDown, old(passive))
    {
      hide Next;
      ProcessEvent(TcpConnConfirmed(In));
    }

    // The last input: what had a connection says so and lets go of it, but changes no state and gives no notice.
    method Close()
      requires Valid() && !close
      modifies this
      ensures Valid() && close && peerConn.None? && state == old(state) && notices == old(notices)
      ensures written == old(written) + if HasConn(old(state)) then [Notification(CEASE)] else []
    {
      hide Next;
      close := true;
      ProcessEvent(ManualStop);
    }

    // A packet came in.
    method ReceivePacket(e: Event)
      requires Valid() && !close
      modifies this
      ensures Valid() && !close && Moved(e) && Timed(e)
    {
      hide Next, Reply, Timed;
      ProcessEvent(e);
    }

    // A command is followed by an automatic start.
    method Command(e: Event)
      requires Valid() && !close
      modifies this
      ensures Valid() && !close && bfdDown == old(bfdDown)
      ensures state == Next(Next(old(state), e, bfdDown, old(passive)), AutoStart, bfdDown, false) && !state.Idle?
    {
      hide Next, Reply;
      ProcessEvent(e);
      StartLeavesIdle(state, bfdDown, passive);
      StartLeavesIdle(state, bfdDown, false);
      ProcessEvent(AutoStart);
    }

    // `holdDown` says whether BFD now keeps the machine from connecting.
    method BfdStatus(up: bool, holdDown: bool)
      requires Valid() && !close
      modifies this
      ensures Valid() && !close && bfdDown == holdDown
      ensures state == if up && HasConn(old(state)) then old(state) else if holdDown then Active else Connect
    {
      hide Reply, Alternates, Outstanding, Noticed, RetryAfter, HoldAfter, KeepAliveAfter, OutAfter, CounterAfter;
      bfdDown := holdDown;
      if !up {
        ProcessEvent(AutoStop);
      } else if !HasConn(state) {
        ProcessEvent(AutoStop);
      }
      ProcessEvent(AutoStart);
    }

    method ExpireConnectRetry()
      requires Valid() && !close && connectRetryTimer
      modifies this
      ensures Valid() && !close && state == Next(old(state), ConnRetryTimerExp, bfdDown, old(passive))
    {
      hide Next, Reply;
      connectRetryTimer := false;
      ProcessEvent(ConnRetryTimerExp);
    }

    method ExpireHold()
      requires Valid() && !close && holdTimer
      modifies this
      ensures Valid() && !close && state == Idle && written == old(written) + [Notification(HOLD_EXPIRED)]
    {
      holdTimer := false;
      ProcessEvent(HoldTimerExp);
    }

    method ExpireKeepAlive()
      requires Valid() && !close && keepAliveTimer
      modifies this
      ensures Valid() && !close
      ensures state == old(state) && written == old(written) + [KeepAliveMsg]
    {
      keepAliveTimer := false;
      ProcessEvent(KeepAliveTimerExp);
    }

    method ExpireIdleHold()
      requires Valid() && !close && idleHoldTimer
      modifies this
      ensures Valid() && !close && state == Next(old(state), IdleHoldTimerExp, bfdDown, old(passive))
    {
      hide Next, Reply;
      idleHoldTimer := false;
      ProcessEvent(IdleHoldTimerExp);
    }

    // sendAutoStartEvent; nothing here ever asks for damping.
    method ExpireRestart()
      requires Valid() && !close && restartTimer
      modifies this
      ensures Valid() && !close
      ensures old(state).Idle? ==> !state.Idle?
      ensures !old(state).Idle? ==> state == old(state)
    {
      hide Reply;
      restartTimer := false;
      ProcessEvent(if passiveTcpEst then AutoStartPassive else AutoStart);
    }

    // An update goes out in pieces, and only in Established.
    method SendUpdate(pieces: nat)
      requires Valid() && !close
      modifies `written, `keepAliveTimer
      ensures Valid() && |written| == |old(written)| + (if state.Established? then pieces else 0)
    {
      if !state.Established? { return; }
      for i := 0 to pieces
        invariant Valid() && |written| == |old(written)| + i
      {
        Write(UpdateMsg);
        keepAliveTimer := keepAliveTime != 0;
      }
    }
  }

  // The event behind the timer that drives each state.
  function Driver(s: State, passiveTcpEst: bool): Event {
    match s
    case Idle => if passiveTcpEst then AutoStartPassive else AutoStart
    case Connect => ConnRetryTimerExp
    case Active => ConnRetryTimerExp
    case _ => HoldTimerExp
  }

  // The state after `n` of them. With hold time 0 no timer runs while there is a connection.
  function Driven(s: State, passiveTcpEst: bool, down: bool, holdTime: nat, n: nat): State {
    if n == 0 then s
    else
      var t := Driven(s, passiveTcpEst, down, holdTime, n - 1);
      if HasConn(t) && holdTime == 0 then t else Next(t, Driver(t, passiveTcpEst), down, false)
  }

  // Left to its timers, the machine is trying to connect from the third one on, wherever it was but on a connection
  // without a hold time. While BFD holds the neighbour down it waits for the peer instead, unless it was trying already.
  lemma {:induction false} TimersReconnect(s: State, passiveTcpEst: bool, down: bool, holdTime: nat, n: nat)
    requires n >= 3
    ensures Driven(s, passiveTcpEst, down, holdTime, n) ==
            if HasConn(s) && holdTime == 0 then s else if down && !s.Connect? then Active else Connect
  {
    if n > 3 {
      TimersReconnect(s, passiveTcpEst, down, holdTime, n - 1);
    } else {
      hide Next, Driver;
      Drives(s, passiveTcpEst, down, holdTime);
      Drives(Driven(s, passiveTcpEst, down, holdTime, 1), passiveTcpEst, down, holdTime);
      Drives(Driven(s, passiveTcpEst, down, holdTime, 2), passiveTcpEst, down, holdTime);
    }
  }

  lemma Drives(s: State, passiveTcpEst: bool, down: bool, holdTime: nat)
    ensures Driven(s, passiveTcpEst, down, holdTime, 0) == s
    ensures Next(s, Driver(s, passiveTcpEst), down, false) ==
            if HasConn(s) then Idle
            else if s.Connect? || (!down && !(s.Idle? && passiveTcpEst)) then Connect
            else Active
  {
  }

  // An automatic start leads on from Idle, whatever a damped start asked for, and from nowhere else.
  lemma StartLeavesIdle(s: State, down: bool, passive: bool)
    ensures Next(s, AutoStart, down, passive) == if s.Idle? then if down then Active else Connect else s
  {
  }
}
