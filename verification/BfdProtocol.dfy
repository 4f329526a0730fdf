/** Two BFD sessions over a channel that loses, duplicates and reorders (bfd/server/bfdSession.go; the three-way handshake
  * of section 6.2 of RFC 5880). Module BfdSessions proves that every packet carries the state its session is in.
  */
module BfdProtocol {
  import opened BfdControl
  import opened BfdSessions

  // A packet in the channel: the state of its sender when it was sent, how many packets of the peer the sender had taken
  // in by then, and how many of those it had taken in when it was last down.
  datatype Sent = Sent(state: SessionState, since: nat, heard: nat)

  // `sent` and `taken` are histories: what this end has put into the channel, and what it has taken in, in order. Of those
  // taken in, the first `since` came before it was last down; the peer had sent `mark` packets by then.
  datatype End = End(session: SessionState, sent: seq<Sent>, taken: seq<Sent>, since: nat, mark: nat)

  datatype World = World(a: End, b: End)

  datatype Action =
    | Send
    | Deliver(i: nat)
    | TimeOut
    | StopSession
    | StartSession

  datatype Move = Move(atA: bool, action: Action)

  function Enter(self: End, peer: End, to: SessionState): End {
    if Raised(to) then self.(session := to) else self.(session := to, since := |self.taken|, mark := |peer.sent|)
  }

  // Any packet ever sent may be taken in at any time, any number of times, or never.
  function Act(self: End, peer: End, action: Action): End {
    match action
    case Send => self.(sent := self.sent + [Sent(self.session, self.since, |self.taken|)])
    case Deliver(i) =>
      if i < |peer.sent| then
        Enter(self.(taken := self.taken + [peer.sent[i]]), peer, After(self.session, RemoteEvent(peer.sent[i].state)))
      else self
    case TimeOut => Enter(self, peer, After(self.session, Timeout))
    case StopSession => Enter(self, peer, After(self.session, LocalAdminDown))
    case StartSession => Enter(self, peer, Down)
  }

  function Step(w: World, m: Move): World {
    if m.atA then w.(a := Act(w.a, w.b, m.action)) else w.(b := Act(w.b, w.a, m.action))
  }

  const START := World(End(Down, [], [], 0, 0), End(Down, [], [], 0, 0))

  function Run(w: World, moves: seq<Move>): World {
    if moves == [] then w else Step(Run(w, moves[..|moves| - 1]), moves[|moves| - 1])
  }

  predicate Raised(s: SessionState) { s.Init? || s.Up? }

  // How this end was raised since it was last down. In Init: by a packet sent in Down, and none in Init or Up came in since.
  // In Up: the first packet sent in Init or Up came in when this end was in Init, or it was sent in Init; and none sent in
  // Down came in after it.
  ghost predicate Explained(self: End) {
    && self.since < |self.taken|
    && (self.session.Init? ==>
          self.taken[self.since].state.Down? && forall i :: self.since <= i < |self.taken| ==> !Raised(self.taken[i].state))
    && (self.session.Up? ==> exists k :: RaisedBy(self, k))
  }

  ghost predicate RaisedBy(self: End, k: int) {
    && 0 <= self.since <= k < |self.taken| && Raised(self.taken[k].state)
    && (if k == self.since then self.taken[k].state.Init? else self.taken[self.since].state.Down?)
    && (forall i :: self.since <= i < k ==> !Raised(self.taken[i].state))
    && (forall i :: k < i < |self.taken| ==> !self.taken[i].state.Down?)
  }

  // One end, against the other: a raised session has heard from its peer since it was last down, and one that is up has
  // heard from a raised peer.
  ghost predicate EndValid(self: End, peer: End) {
    && (forall i :: 0 <= i < |self.taken| ==> self.taken[i] in peer.sent)
    && (forall p :: p in self.sent ==> p.heard <= |self.taken| && (Raised(p.state) ==> p.since < p.heard))
    && (if Raised(self.session) then Explained(self) else self.since == |self.taken|)
  }

  lemma ActExplains(self: End, peer: End, action: Action)
    requires if Raised(self.session) then Explained(self) else self.since == |self.taken|
    ensures var next := Act(self, peer, action);
            if Raised(next.session) then Explained(next) else next.since == |next.taken|
  {
    var next := Act(self, peer, action);
    if action.Deliver? && action.i < |peer.sent| {
      var n := |self.taken|;
      assert next.taken[n] == peer.sent[action.i] && next.taken[..n] == self.taken;
      assert forall i :: 0 <= i < n ==> next.taken[i] == self.taken[i];
      if next.session.Up? {
        if self.session.Up? {
          var k :| RaisedBy(self, k);
          assert RaisedBy(next, k);
        } else {
          assert RaisedBy(next, n);
        }
      }
    } else if next.session.Up? {
      var k :| RaisedBy(self, k);
      assert RaisedBy(next, k);
    }
  }

  lemma ActKeeps(self: End, peer: End, action: Action)
    requires EndValid(self, peer) && EndValid(peer, self)
    ensures EndValid(Act(self, peer, action), peer) && EndValid(peer, Act(self, peer, action))
  {
    hide After, RaisedBy;
    ActExplains(self, peer, action);
    var next := Act(self, peer, action);
    if action.Deliver? && action.i < |peer.sent| {
      assert next.taken[|self.taken|] == peer.sent[action.i];
    } else if action.Send? {
      assert forall p :: p in self.sent ==> p in next.sent;
    }
  }

  lemma {:induction false} EveryRunIsValid(moves: seq<Move>)
    ensures EndValid(Run(START, moves).a, Run(START, moves).b) && EndValid(Run(START, moves).b, Run(START, moves).a)
  {
    if moves != [] {
      var w, m := Run(START, moves[..|moves| - 1]), moves[|moves| - 1];
      EveryRunIsValid(moves[..|moves| - 1]);
      if m.atA { ActKeeps(w.a, w.b, m.action); } else { ActKeeps(w.b, w.a, m.action); }
    }
  }

  // The handshake was made: since this end was last down, a packet got through to it that the peer had sent in Init or
  // Up; and before the peer sent it, and since the peer had then last been down, a packet of this end got through to it.
  ghost predicate Handshaken(self: End, peer: End) {
    exists i :: self.since <= i < |self.taken| && Raised(self.taken[i].state) && self.taken[i] in peer.sent
                && var p := self.taken[i]; p.since < p.heard <= |peer.taken| && peer.taken[p.since] in self.sent
  }

  // In every run, whatever is lost, doubled, delayed, stopped or restarted.
  lemma UpMeansHandshake(moves: seq<Move>)
    ensures Run(START, moves).a.session.Up? ==> Handshaken(Run(START, moves).a, Run(START, moves).b)
    ensures Run(START, moves).b.session.Up? ==> Handshaken(Run(START, moves).b, Run(START, moves).a)
    ensures Raised(Run(START, moves).a.session) ==> Explained(Run(START, moves).a)
    ensures Raised(Run(START, moves).b.session) ==> Explained(Run(START, moves).b)
  {
    EveryRunIsValid(moves);
    UpEnd(Run(START, moves).a, Run(START, moves).b);
    UpEnd(Run(START, moves).b, Run(START, moves).a);
  }

  lemma UpEnd(self: End, peer: End)
    requires EndValid(self, peer) && EndValid(peer, self)
    ensures self.session.Up? ==> Handshaken(self, peer)
  {
    if self.session.Up? {
      var i :| RaisedBy(self, i);
      var p := self.taken[i];
      assert p in peer.sent && p.since < p.heard <= |peer.taken|;
      assert peer.taken[p.since] in self.sent;
    }
  }

  lemma RunOne(w: World, moves: seq<Move>, m: Move)
    ensures Run(w, moves + [m]) == Step(Run(w, moves), m) && Run(w, []) == w
  {
    assert (moves + [m])[..|moves|] == moves;
  }

  // The packets themselves may be older than the last time this end was down: an old one that comes in after a restart
  // brings the session up alone, with nothing sent since and the peer stopped.
  lemma OldPacketBringsUp()
    ensures var w := Run(START, [Move(true, Send), Move(false, Deliver(0)), Move(false, Send), Move(false, StopSession),
                      Move(true, StopSession), Move(true, StartSession), Move(true, Deliver(0))]);
            w.a.session.Up? && w.b.session.AdminDown? && w.a.sent == [Sent(Down, 0, 0)]
  {
    hide Run;
    var m1 := [Move(true, Send)];
    var m2 := m1 + [Move(false, Deliver(0))];
    var m3 := m2 + [Move(false, Send)];
    var m4 := m3 + [Move(false, StopSession)];
    var m5 := m4 + [Move(true, StopSession)];
    var m6 := m5 + [Move(true, StartSession)];
    RunOne(START, [], Move(true, Send));
    RunOne(START, m1, Move(false, Deliver(0)));
    RunOne(START, m2, Move(false, Send));
    RunOne(START, m3, Move(false, StopSession));
    RunOne(START, m4, Move(true, StopSession));
    RunOne(START, m5, Move(true, StartSession));
    RunOne(START, m6, Move(true, Deliver(0)));
    assert [] + m1 == m1;
    assert m6 + [Move(true, Deliver(0))]
      == [Move(true, Send), Move(false, Deliver(0)), Move(false, Send), Move(false, StopSession),
          Move(true, StopSession), Move(true, StartSession), Move(true, Deliver(0))];
  }

  // ---------- without old packets ----------

  // No packet comes in that the peer sent before this end was last down.
  predicate Recent(w: World, m: Move) {
    m.action.Deliver? ==> m.action.i >= (if m.atA then w.a else w.b).mark
  }

  predicate AllRecent(w: World, moves: seq<Move>) {
    moves != [] ==>
      AllRecent(w, moves[..|moves| - 1]) && Recent(Run(w, moves[..|moves| - 1]), moves[|moves| - 1])
  }

  // A session that is up: the peer has sent in Init or Up since this end was last down.
  ghost predicate HeardSince(self: End, peer: End) {
    && self.mark <= |peer.sent|
    && (self.session.Up? ==> exists i :: self.mark <= i < |peer.sent| && Raised(peer.sent[i].state))
  }

  lemma ActHears(self: End, peer: End, action: Action)
    requires HeardSince(self, peer) && HeardSince(peer, self) && (action.Deliver? ==> action.i >= self.mark)
    ensures HeardSince(Act(self, peer, action), peer) && HeardSince(peer, Act(self, peer, action))
  {
    var next := Act(self, peer, action);
    if action.Send? {
      assert forall i :: 0 <= i < |self.sent| ==> next.sent[i] == self.sent[i];
    }
    if action.Deliver? && action.i < |peer.sent| && next.session.Up? && !self.session.Up? {
      assert Raised(peer.sent[action.i].state);
    }
  }

  // So the run of OldPacketBringsUp cannot happen: the peer is, or was since then, in Init or Up itself.
  lemma {:induction false} RecentRunsHear(moves: seq<Move>)
    requires AllRecent(START, moves)
    ensures HeardSince(Run(START, moves).a, Run(START, moves).b) && HeardSince(Run(START, moves).b, Run(START, moves).a)
  {
    if moves != [] {
      var w, m := Run(START, moves[..|moves| - 1]), moves[|moves| - 1];
      RecentRunsHear(moves[..|moves| - 1]);
      if m.atA { ActHears(w.a, w.b, m.action); } else { ActHears(w.b, w.a, m.action); }
    }
  }

  // What it does not give: the peer may be in Init on a packet of this end's earlier life. Here `a` sends once, is stopped
  // and started again, sends nothing more, and comes up.
  lemma EarlierLifeCounts()
    ensures var m := [Move(true, Send), Move(false, Deliver(0)), Move(true, StopSession), Move(true, StartSession),
                      Move(false, Send), Move(true, Deliver(0))];
            var w := Run(START, m);
            AllRecent(START, m) && w.a.session.Up? && w.a.sent == [Sent(Down, 0, 0)]
  {
    var m := [Move(true, Send), Move(false, Deliver(0)), Move(true, StopSession), Move(true, StartSession),
    Move(false, Send), Move(true, Deliver(0))];
    assert m[..5][..4] == m[..4] && m[..4][..3] == m[..3] && m[..3][..2] == m[..2] && m[..2][..1] == m[..1];
    assert m[..1][..0] == [];
    assert Run(START, m[..1]) == World(End(Down, [Sent(Down, 0, 0)], [], 0, 0), End(Down, [], [], 0, 0));
    assert AllRecent(START, m[..1]) && AllRecent(START, m[..2]);
    var b := End(Init, [], [Sent(Down, 0, 0)], 0, 0);
    assert Run(START, m[..2]) == World(End(Down, [Sent(Down, 0, 0)], [], 0, 0), b);
    assert Run(START, m[..3]) == World(End(AdminDown, [Sent(Down, 0, 0)], [], 0, 0), b) && AllRecent(START, m[..3]);
    assert Run(START, m[..4]) == World(End(Down, [Sent(Down, 0, 0)], [], 0, 0), b) && AllRecent(START, m[..4]);
    assert Run(START, m[..5]).b.sent == [Sent(Init, 0, 1)] && AllRecent(START, m[..5]);
  }

  // ---------- and it is made when packets get through ----------

  // Both ends send what they are, one after the other, and nothing is lost.
  function Exchange(a: SessionState, b: SessionState): (SessionState, SessionState) {
    var b' := After(b, RemoteEvent(a));
    (After(a, RemoteEvent(b')), b')
  }

  // From any states but administratively down, three exchanges bring both ends up, and they stay up.
  lemma ThreeExchanges(a: SessionState, b: SessionState)
    requires !a.AdminDown? && !b.AdminDown?
    ensures var r1 := Exchange(a, b); var r2 := Exchange(r1.0, r1.1); Exchange(r2.0, r2.1) == (Up, Up)
    ensures Exchange(Up, Up) == (Up, Up)
  {
    assert a in {Down, Init, Up};
    assert b in {Down, Init, Up};
  }

  // What happens while the peer `b` is administratively down, and is not started again: `a` is not stopped, started or
  // timed out, and no packet comes in from before the peer went down.
  predicate Quiet(m: Move, before: nat) {
    if m.atA then m.action.Send? || (m.action.Deliver? && m.action.i >= before) else !m.action.StartSession?
  }

  // A session that is up stays up then, contrary to section 6.8.6 of RFC 5880.
  lemma {:induction false} PeerAdminDownKeepsUp(w: World, moves: seq<Move>)
    requires w.a.session.Up? && w.b.session.AdminDown? && forall m :: m in moves ==> Quiet(m, |w.b.sent|)
    ensures var end := Run(w, moves);
            && end.a.session.Up? && end.b.session.AdminDown? && |w.b.sent| <= |end.b.sent|
            && forall i :: |w.b.sent| <= i < |end.b.sent| ==> end.b.sent[i].state.AdminDown?
  {
    if moves != [] {
      var last := moves[|moves| - 1];
      assert last in moves;
      PeerAdminDownKeepsUp(w, moves[..|moves| - 1]);
    }
  }
}
