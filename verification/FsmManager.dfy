/** The manager of a neighbour's state machines and its resolution of connection collisions (bgp/fsm/fsm_manager.go;
  * section 6.8 of RFC 4271).
  *
  * A machine stands here for its state and the direction of its connection; it moves as module PeerFsms proves. Closing
  * a machine takes effect at once. Cleanup is not part of this model.
  */
module FsmManagers {
  import opened Paths
  import opened PeerFsms
  import NlriCodec

  // ---------- BGP identifiers ----------

  // ConvertIPBytesToUint shifts the middle octets out before it widens them.
  function Convert(id: seq<byte>): nat
    requires |id| == 4
  {
    id[0] as int * 0x100_0000 + id[3]
  }

  // Which of two colliding connections a speaker closes: the one it accepted if its identifier is the larger.
  function CloseDir(local: seq<byte>, remote: seq<byte>): Dir
    requires |local| == 4 && |remote| == 4
  {
    if Convert(local) > Convert(remote) then In else Out
  }

  function Opposite(d: Dir): Dir { if d.In? then Out else In }

  // What one speaker opened the other accepted: the two speakers close the same connection exactly when their
  // identifiers convert to different numbers. Otherwise each closes the one it opened, and none is left.
  lemma SpeakersAgree(a: seq<byte>, b: seq<byte>)
    requires |a| == 4 && |b| == 4
    ensures CloseDir(a, b) == Opposite(CloseDir(b, a)) <==> Convert(a) != Convert(b)
    ensures Convert(a) == Convert(b) <==> a[0] == b[0] && a[3] == b[3]
    ensures Convert(a) == Convert(b) ==> CloseDir(a, b) == CloseDir(b, a) == Out
  {
  }

  // The first octets differ, or the middle octets agree, or they happen to compare as the last octets do.
  predicate Comparable(a: seq<byte>, b: seq<byte>)
    requires |a| == 4 && |b| == 4
  {
    || a[0] != b[0] || (a[1] == b[1] && a[2] == b[2])
    || (a[3] > b[3] <==> a[1] > b[1] || (a[1] == b[1] && a[2] > b[2]))
  }

  // Section 6.8 compares whole identifiers. The code decides the same exactly for these.
  lemma DecidesAsTheStandard(a: seq<byte>, b: seq<byte>)
    requires |a| == 4 && |b| == 4
    ensures (Convert(a) > Convert(b) <==> NlriCodec.Value4(a) > NlriCodec.Value4(b)) <==> Comparable(a, b)
  {
    var ma, mb := a[1] as int * 256 + a[2], b[1] as int * 256 + b[2];
    assert NlriCodec.Value4(a) == a[0] as int * 0x100_0000 + ma * 256 + a[3];
    assert NlriCodec.Value4(b) == b[0] as int * 0x100_0000 + mb * 256 + b[3];
    assert ma > mb <==> a[1] > b[1] || (a[1] == b[1] && a[2] > b[2]);
    assert ma == mb <==> a[1] == b[1] && a[2] == b[2];
  }

  // ---------- the table ----------

  datatype Machine = Machine(state: State, conn: Option<Dir>)

  type Machines = map<nat, Machine>

  predicate Advanced(m: Machine) { m.state.OpenConfirm? || m.state.Established? }

  // Machines 0 and 1.
  ghost predicate Shaped(fsms: Machines) {
    forall id :: id in fsms ==> id < 2 && (fsms[id].conn.Some? <==> HasConn(fsms[id].state))
  }

  // Their connections have opposite directions, and at most one of them is past the OPEN.
  ghost predicate Apart(fsms: Machines) {
    0 in fsms && 1 in fsms ==> Compatible(fsms[0], fsms[1])
  }

  predicate Compatible(m: Machine, n: Machine) {
    !(m.conn.Some? && m.conn == n.conn) && !(Advanced(m) && Advanced(n))
  }

  ghost predicate TableValid(fsms: Machines) { Shaped(fsms) && Apart(fsms) }

  // The machine the peer knows of is in the table and established.
  ghost predicate ActiveValid(fsms: Machines, active: Option<nat>) {
    active.Some? ==> active.value in fsms && fsms[active.value].state.Established?
  }

  // A machine's state after an event, and its connection, as PeerFsm.Moved says.
  function Moved(m: Machine, e: Event, down: bool, passive: bool): Machine {
    var to := Next(m.state, e, down, passive);
    Machine(to, ConnAfter(m.state, e, m.conn, to))
  }

  lemma MovedKeepsConn(m: Machine, e: Event, down: bool, passive: bool)
    requires m.conn.Some? <==> HasConn(m.state)
    ensures Moved(m, e, down, passive).conn.Some? <==> HasConn(Moved(m, e, down, passive).state)
    ensures HasConn(m.state) && HasConn(Moved(m, e, down, passive).state) ==> Moved(m, e, down, passive).conn == m.conn
    ensures !e.BgpOpen? && Advanced(Moved(m, e, down, passive)) ==> Advanced(m)
  {
  }

  class FsmManager {
    const routerId: seq<byte>
    var fsms: Machines
    var activeFsm: Option<nat>
    // What the server is told: the session is up, or down.
    var notices: seq<bool>

    // What every run keeps.
    ghost predicate Sound()
      reads this
    {
      |routerId| == 4 && Shaped(fsms) && ActiveValid(fsms, activeFsm)
    }

    // What a run keeps until two connections of one direction meet.
    ghost predicate Valid()
      reads this
    {
      Sound() && Apart(fsms) && Paired(notices, activeFsm)
    }

    constructor (routerId: seq<byte>)
      requires |routerId| == 4
      ensures Valid() && fsms == map[0 := Machine(Idle, None)] && notices == []
    {
      this.routerId := routerId;
      fsms, activeFsm, notices := map[0 := Machine(Idle, None)], None, [];
    }

    method FsmBroken(id: nat)
      modifies `activeFsm, `notices
      ensures activeFsm == if old(activeFsm) == Some(id) then None else old(activeFsm)
      ensures notices == old(notices) + if old(activeFsm) == Some(id) then [false] else []
      ensures old(Paired(notices, activeFsm)) ==> Paired(notices, activeFsm)
    {
      if activeFsm == Some(id) {
        activeFsm := None;
        notices := notices + [false];
      }
    }

    method FsmClose(id: nat)
      requires Sound()
      modifies `fsms, `activeFsm, `notices
      ensures Sound() && (old(Valid()) ==> Valid()) && fsms == old(fsms) - {id}
      ensures activeFsm == if old(activeFsm) == Some(id) then None else old(activeFsm)
      ensures notices == old(notices) + if old(activeFsm) == Some(id) then [false] else []
    {
      if id in fsms {
        FsmBroken(id);
        fsms := fsms - {id};
      }
    }

    method FsmTcpConnFailed(id: nat)
      requires Sound()
      modifies `fsms, `activeFsm, `notices
      ensures Sound() && (old(Valid()) ==> Valid())
      ensures fsms == if |old(fsms)| != 1 && old(activeFsm) != Some(id) then old(fsms) - {id} else old(fsms)
      ensures activeFsm == old(activeFsm) && notices == old(notices)
    {
      if |fsms| != 1 && activeFsm != Some(id) { FsmClose(id); }
    }

    // Every machine is told that its connection failed, and the peer at once.
    method StopFsm()
      requires Sound()
      modifies `activeFsm, `notices
      ensures Sound() && (old(Valid()) ==> Valid())
      ensures activeFsm.None? && notices == old(notices) + if old(activeFsm).Some? then [false] else []
    {
      var todo := fsms.Keys;
      while todo != {}
        invariant Sound() && (old(Valid()) ==> Valid()) && todo <= fsms.Keys
        invariant activeFsm.Some? ==> activeFsm == old(activeFsm) && activeFsm.value in todo
        invariant notices == old(notices) + if old(activeFsm).Some? && activeFsm.None? then [false] else []
        decreases |todo|
      {
        var id :| id in todo;
        FsmBroken(id);
        todo := todo - {id};
      }
    }

    // handleAnotherConnection: machine `id` saw a second connection, which goes to the other machine if there is none yet.
    method HandleAnotherConnection(id: nat, dir: Dir)
      requires Sound() && id < 2
      modifies `fsms
      ensures Sound() && (old(Valid()) ==> Valid())
      ensures var other := (id + 1) % 2;
              fsms == if other in old(fsms) then old(fsms)
                      else old(fsms)[other := Machine(if dir.Out? then Connect else Active, None)]
    {
      var other := (id + 1) % 2;
      if other !in fsms {
        fsms := fsms[other := Machine(if dir.Out? then Connect else Active, None)];
      }
    }

    // One event on one machine, other than an OPEN.
    method MachineEvent(id: nat, e: Event, down: bool, passive: bool)
      requires Sound() && id in fsms && !e.BgpOpen?
      modifies `fsms, `activeFsm, `notices
      ensures Sound() && fsms == old(fsms)[id := Moved(old(fsms)[id], e, down, passive)]
      ensures old(Valid()) ==> (Valid() <==> !Meets(old(fsms), id, e))
      ensures var was, now := old(fsms)[id].state.Established?, fsms[id].state.Established?;
              && activeFsm == (if now && !was then Some(id) else if was && !now && old(activeFsm) == Some(id)
                 then None else old(activeFsm))
              && notices == old(notices) + (if now && !was then [true]
                 else if was && !now && old(activeFsm) == Some(id) then [false] else [])
    {
      hide Next, Apart, Shaped, Advanced;
      var from := fsms[id];
      var to := Moved(from, e, down, passive);
      MovedShape(fsms, id, e, down, passive);
      if Apart(fsms) { MovedApart(fsms, id, e, down, passive); }
      if from.state.Established? && !to.state.Established? { FsmBroken(id); }
      fsms := fsms[id := to];
      if !from.state.Established? && to.state.Established? {
        if old(Valid()) && old(activeFsm).Some? { NotBothPast(old(fsms), id, old(activeFsm).value); }
        activeFsm := Some(id);
        notices := notices + [true];
      }
    }

    // A machine whose connection has a direction, or 2.
    method GetFsmIdByDir(dir: Dir) returns (id: nat)
      requires Sound()
      ensures Found(fsms, dir, id)
    {
      id := 2;
      var todo := fsms.Keys;
      while todo != {}
        invariant todo <= fsms.Keys && id == 2 && forall i :: i in fsms && i !in todo ==> fsms[i].conn != Some(dir)
        decreases |todo|
      {
        var i :| i in todo;
        if fsms[i].conn == Some(dir) { return i; }
        todo := todo - {i};
      }
    }

    // receivedBGPOpenMessage, and the step the machine then takes. When another machine has a connection too, one of the
    // two is closed: the newcomer if the other is established, else the one whose direction the identifiers tell.
    method ReceiveOpen(id: nat, remoteId: seq<byte>) returns (accepted: bool, closed: nat)
      requires Sound() && id in fsms && fsms[id].state.OpenSent? && |remoteId| == 4
      modifies `fsms, `activeFsm, `notices
      ensures Sound() && (old(Valid()) ==> Valid())
      ensures OpenStep(old(fsms), id, CloseDir(routerId, remoteId), closed, fsms, accepted)
      ensures Collides(old(fsms), id) && Convert(routerId) > Convert(remoteId) ==>
                && (accepted <==> old(fsms)[id].conn == Some(Out))
                && (closed in old(fsms) ==> old(fsms)[closed].conn == Some(In))
      ensures Collides(old(fsms), id) && Convert(routerId) <= Convert(remoteId) ==>
                && (accepted <==> old(fsms)[id].conn == Some(In))
                && (closed in old(fsms) ==> old(fsms)[closed].conn == Some(Out))
      ensures 1 - id in old(fsms) && old(fsms)[1 - id].state.Established? ==>
                !accepted && closed in old(fsms) && old(fsms)[closed].conn == old(fsms)[id].conn
      ensures activeFsm == if old(activeFsm) == Some(closed) then None else old(activeFsm)
      ensures notices == old(notices) + if old(activeFsm) == Some(closed) then [false] else []
    {
      hide Convert, CloseDir, Apart, Paired, Collides, Advanced;
      var connDir := fsms[id].conn.value;
      var closeDir: Option<Dir> := None;
      closed := 2;
      var others := fsms.Keys - {id};
      if others != {} {
        var other :| other in others;
        TwoAtMost(fsms, id, other);
        if HasConn(fsms[other].state) {
          closeDir := Some(if fsms[other].state.Established? then connDir else CloseDir(routerId, remoteId));
          closed := GetFsmIdByDir(closeDir.value);
          assert Found(old(fsms), closeDir.value, closed);
          FsmClose(closed);
        }
      }
      assert 1 - id in fsms ==> others != {} by { if 1 - id in fsms { assert 1 - id in others; } }
      accepted := closeDir != Some(connDir);
      if accepted { fsms := fsms[id := Machine(OpenConfirm, Some(connDir))]; }
      OpenDecides(old(fsms), id, routerId, remoteId, closed, fsms, accepted);
      if old(Valid()) { OpenKeepsApart(old(fsms), id, CloseDir(routerId, remoteId), closed, fsms, accepted); }
    }
  }

  // The other machine has a connection too and is not established.
  ghost predicate Collides(fsms: Machines, id: nat) {
    id in fsms && 1 - id in fsms && fsms[1 - id].conn.Some? && !fsms[1 - id].state.Established?
  }

  // The speaker whose identifier converts to the larger number keeps the connection it opened; the other speaker keeps the
  // one it accepted.
  lemma OpenDecides(before: Machines, id: nat, local: seq<byte>, remote: seq<byte>, closed: nat, after: Machines,
    accepted: bool)
    requires |local| == 4 && |remote| == 4 && Shaped(before) && id in before && before[id].state.OpenSent?
    requires OpenStep(before, id, CloseDir(local, remote), closed, after, accepted)
    ensures Collides(before, id) && Convert(local) > Convert(remote) ==>
              (accepted <==> before[id].conn == Some(Out)) && (closed in before ==> before[closed].conn == Some(In))
    ensures Collides(before, id) && Convert(local) <= Convert(remote) ==>
              (accepted <==> before[id].conn == Some(In)) && (closed in before ==> before[closed].conn == Some(Out))
    ensures 1 - id in before && before[1 - id].state.Established? ==>
              !accepted && closed in before && before[closed].conn == before[id].conn
  {
    var x := before[id].conn.value;
    assert x.In? || x.Out?;
  }

  // Of two colliding connections, the one opened by the speaker with the larger identifier stays, and no other, as section
  // 6.8 asks, for identifiers whose middle octets do not mislead the code.
  lemma LargerSpeakerKeeps(before: Machines, id: nat, local: seq<byte>, remote: seq<byte>, closed: nat, after: Machines,
    accepted: bool)
    requires |local| == 4 && |remote| == 4 && Comparable(local, remote)
    requires TableValid(before) && Collides(before, id) && before[id].state.OpenSent?
    requires OpenStep(before, id, CloseDir(local, remote), closed, after, accepted)
    ensures var stays := if NlriCodec.Value4(local) > NlriCodec.Value4(remote) then Out else In;
            && (exists i :: i in after && after[i].conn == Some(stays))
            && (forall i :: i in after ==> after[i].conn == None || after[i].conn == Some(stays))
  {
    DecidesAsTheStandard(local, remote);
    OpenDecides(before, id, local, remote, closed, after, accepted);
    OpenKeepsApart(before, id, CloseDir(local, remote), closed, after, accepted);
    var x, y := before[id].conn.value, before[1 - id].conn.value;
    assert (x.In? || x.Out?) && (y.In? || y.Out?) && x != y;
    if accepted { assert after[id].conn == before[id].conn; } else { assert after[1 - id].conn == before[1 - id].conn; }
  }

  // Another machine already has a connection of the direction that this event brings up.
  ghost predicate Meets(fsms: Machines, id: nat, e: Event)
    requires id in fsms
  {
    ComesUp(fsms[id].state, e) && 1 - id in fsms && fsms[1 - id].conn == Some(e.dir)
  }

  ghost predicate Paired(notices: seq<bool>, active: Option<nat>) {
    Alternates(notices) && (Outstanding(notices) <==> active.Some?)
  }

  ghost predicate Found(fsms: Machines, dir: Dir, id: nat) {
    if id in fsms then fsms[id].conn == Some(dir) else id == 2 && forall i :: i in fsms ==> fsms[i].conn != Some(dir)
  }

  // What an OPEN on machine `id` does to the table, whichever machine is found for the direction to close.
  ghost predicate OpenStep(before: Machines, id: nat, closeDir: Dir, closed: nat, after: Machines, accepted: bool)
    requires Shaped(before) && id in before && before[id].state.OpenSent?
  {
    var other := 1 - id;
    var on := Machine(OpenConfirm, before[id].conn);
    if other !in before || before[other].conn.None? then closed == 2 && accepted && after == before[id := on]
    else
      var dir := if before[other].state.Established? then before[id].conn.value else closeDir;
      && Found(before, dir, closed) && accepted == (before[id].conn != Some(dir))
      && after == if accepted then (before - {closed})[id := on] else before - {closed}
  }

  lemma TwoAtMost(fsms: Machines, id: nat, other: nat)
    requires Shaped(fsms) && id in fsms && other in fsms && other != id
    ensures other == 1 - id && fsms.Keys - {id} == {other}
  {
  }

  // While the connections have opposite directions one OPEN leaves one of them: this one goes on when the other machine
  // has none, or is not established and has the direction to close. A session that is up stays.
  lemma OpenKeepsApart(before: Machines, id: nat, closeDir: Dir, closed: nat, after: Machines, accepted: bool)
    requires TableValid(before) && id in before && before[id].state.OpenSent?
    requires OpenStep(before, id, closeDir, closed, after, accepted)
    ensures TableValid(after) && (closed in before ==> !before[closed].state.Established?)
    ensures accepted == Survives(before, id, closeDir)
    ensures accepted ==> after == Harmless(before, id)[id := Machine(OpenConfirm, before[id].conn)]
    ensures !accepted ==> after == before - {id}
  {
    var other := 1 - id;
    if other in before && before[other].conn.Some? {
      var x, y := before[id].conn.value, before[other].conn.value;
      assert (x.In? || x.Out?) && (y.In? || y.Out?) && (closeDir.In? || closeDir.Out?) && x != y;
      assert closed == if accepted then other else id;
    }
  }

  // When both connections have one direction the OPEN goes on when the other is not established and the direction to
  // close is the opposite one: nobody is found to close, and both may pass. Otherwise either of the two may go, even the
  // established one, and the OPEN is refused all the same.
  lemma OneDirection(before: Machines, id: nat, closeDir: Dir, closed: nat, after: Machines, accepted: bool)
    requires Shaped(before) && id in before && before[id].state.OpenSent? && 1 - id in before
    requires before[1 - id].conn == before[id].conn
    requires OpenStep(before, id, closeDir, closed, after, accepted)
    ensures accepted <==> !before[1 - id].state.Established? && before[id].conn == Some(Opposite(closeDir))
    ensures accepted ==> after == before[id := Machine(OpenConfirm, before[id].conn)]
    ensures !accepted ==> closed in before && after == before - {closed}
  {
    var dir := before[id].conn.value;
    assert (dir.In? || dir.Out?) && (closeDir.In? || closeDir.Out?);
    assert before[id].conn == Some(dir);
    if accepted { assert before - {closed} == before; }
  }

  function Fire(fsms: Machines, id: nat, e: Event): Machines
    requires id in fsms
  {
    fsms[id := Moved(fsms[id], e, false, false)]
  }

  function Two(m: Machine, n: Machine): Machines { map[0 := m, 1 := n] }

  lemma FireTwo(m: Machine, n: Machine, e: Event)
    ensures Fire(Two(m, n), 0, e) == Two(Moved(m, e, false, false), n)
    ensures Fire(Two(m, n), 1, e) == Two(m, Moved(n, e, false, false))
  {
    hide Moved;
  }

  // Such a run: machine 0 took the connection the peer opened, machine 1 the one opened here; machine 0 is notified,
  // falls to Idle and opens another. When the identifiers say to close accepted connections, both are established.
  lemma BothEstablished()
    ensures var accepted, outgoing := Machine(OpenSent, Some(In)), Machine(OpenSent, Some(Out));
            var up := Machine(Established, Some(Out));
            var met := Fire(Fire(Fire(Two(accepted, outgoing), 0, NotifMsg), 0, AutoStart), 0, TcpCrAcked(Out));
            var on := Fire(met, 0, BgpOpen(0, true));
            var both := Fire(on, 1, BgpOpen(0, true));
            && TableValid(Two(accepted, outgoing)) && Shaped(met) && !Apart(met)
            && OpenStep(met, 0, In, 2, on, true) && OpenStep(on, 1, In, 2, both, true)
            && Fire(Fire(both, 0, KeepAliveRcvd), 1, KeepAliveRcvd) == Two(up, up)
  {
    hide Fire, Moved, OpenStep;
    var accepted, outgoing := Machine(OpenSent, Some(In)), Machine(OpenSent, Some(Out));
    var past, up := Machine(OpenConfirm, Some(Out)), Machine(Established, Some(Out));
    FireTwo(accepted, outgoing, NotifMsg);
    FireTwo(Machine(Idle, None), outgoing, AutoStart);
    FireTwo(Machine(Connect, None), outgoing, TcpCrAcked(Out));
    FireTwo(outgoing, outgoing, BgpOpen(0, true));
    FireTwo(past, outgoing, BgpOpen(0, true));
    FireTwo(past, past, KeepAliveRcvd);
    FireTwo(up, past, KeepAliveRcvd);
    OneMachine(past, outgoing, up);
    BothPass(outgoing, past);
  }

  lemma OneMachine(past: Machine, outgoing: Machine, up: Machine)
    requires outgoing == Machine(OpenSent, Some(Out)) && past == Machine(OpenConfirm, Some(Out))
    requires up == Machine(Established, Some(Out))
    ensures Moved(Machine(OpenSent, Some(In)), NotifMsg, false, false) == Machine(Idle, None)
    ensures Moved(Machine(Idle, None), AutoStart, false, false) == Machine(Connect, None)
    ensures Moved(Machine(Connect, None), TcpCrAcked(Out), false, false) == outgoing
    ensures Moved(outgoing, BgpOpen(0, true), false, false) == past && Moved(past, KeepAliveRcvd, false, false) == up
  {
  }

  lemma BothPass(outgoing: Machine, past: Machine)
    requires outgoing == Machine(OpenSent, Some(Out)) && past == Machine(OpenConfirm, Some(Out))
    ensures OpenStep(Two(outgoing, outgoing), 0, In, 2, Two(past, outgoing), true)
    ensures OpenStep(Two(past, outgoing), 1, In, 2, Two(past, past), true)
  {
    assert Two(outgoing, outgoing)[0 := past] == Two(past, outgoing) && Two(past, outgoing)[1 := past] == Two(past, past);
    assert Two(outgoing, outgoing) - {2} == Two(outgoing, outgoing) && Two(past, outgoing) - {2} == Two(past, outgoing);
  }

  lemma NotBothPast(fsms: Machines, id: nat, a: nat)
    requires TableValid(fsms) && id in fsms && a in fsms
    ensures fsms[id].state.OpenConfirm? ==> !fsms[a].state.Established?
  {
    assert (id == 0 || id == 1) && (a == 0 || a == 1);
  }

  // The other machines without a connection stay in the table.
  ghost function Harmless(fsms: Machines, id: nat): Machines {
    map i | i in fsms && i != id && fsms[i].conn.None? :: fsms[i]
  }

  // Machine `id` goes on when no other has a connection, or the others' is neither established nor the one to keep.
  ghost predicate Survives(fsms: Machines, id: nat, closeDir: Dir)
    requires id in fsms
  {
    forall i :: i in fsms && i != id && fsms[i].conn.Some? ==> !fsms[i].state.Established? && fsms[id].conn != Some(closeDir)
  }

  lemma EstablishedFrom(s: State, e: Event, down: bool, passive: bool)
    requires !s.Established? && Next(s, e, down, passive).Established?
    ensures s.OpenConfirm? && e.KeepAliveRcvd?
  {
  }

  lemma ConnComesUp(m: Machine, e: Event, down: bool, passive: bool)
    requires m.conn.Some? <==> HasConn(m.state)
    ensures !HasConn(m.state) && HasConn(Next(m.state, e, down, passive)) <==> ComesUp(m.state, e)
    ensures ComesUp(m.state, e) ==> Moved(m, e, down, passive) == Machine(OpenSent, Some(e.dir))
  {
  }

  lemma MovedShape(fsms: Machines, id: nat, e: Event, down: bool, passive: bool)
    requires Shaped(fsms) && id in fsms && !e.BgpOpen?
    ensures Shaped(fsms[id := Moved(fsms[id], e, down, passive)])
    ensures Moved(fsms[id], e, down, passive).state.Established? && !fsms[id].state.Established? ==>
              fsms[id].state.OpenConfirm?
  {
    hide Next;
    MovedKeepsConn(fsms[id], e, down, passive);
    if Moved(fsms[id], e, down, passive).state.Established? && !fsms[id].state.Established? {
      EstablishedFrom(fsms[id].state, e, down, passive);
    }
  }

  lemma MovedApart(fsms: Machines, id: nat, e: Event, down: bool, passive: bool)
    requires TableValid(fsms) && id in fsms && !e.BgpOpen?
    ensures Apart(fsms[id := Moved(fsms[id], e, down, passive)]) <==> !Meets(fsms, id, e)
  {
    hide Next;
    MovedKeepsConn(fsms[id], e, down, passive);
    ConnComesUp(fsms[id], e, down, passive);
  }
}
