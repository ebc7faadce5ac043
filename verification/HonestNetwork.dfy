/** The network of Network.dfy is as powerful as it says, and an honest client gets through it when it
    simply delivers: so the agreement theorems speak about something. */
module HonestNetwork {
  import opened Basics
  import opened AuthProto
  import opened AuthServer
  import opened AuthClient
  import opened Network
  import opened HonestRun
  import Settings
  import AC = AuthorizedClients
  import AuthRuns

  /** What the network can deliver: whatever does not parse, whatever is not sealed, whatever is
      sealed under a key that is no secret, and every ciphertext ever sent, in any envelope. */
  lemma NetworkReach(secrets: set<string>, wire: set<Payload>, packet: Packet)
    ensures Deliverable(secrets, wire, packet) <==>
            match packet
            case Unparsable => true
            case Packet(Envelope(_, _, Noise(_))) => true
            case Packet(Envelope(_, _, Cipher(key, aad, plain, size))) => key !in secrets || Cipher(key, aad, plain, size) in wire
  {
  }

  // ----- adding an event -----

  lemma NetRunSnoc(setup: ReadySetup, evs: seq<NetEvent>, ev: NetEvent)
    ensures NetRun(setup, evs + [ev]) == NetStep(setup, NetRun(setup, evs), ev)
    ensures ServerEvents(evs + [ev]) == After(ServerEvents(evs), ev)
  {
    assert (evs + [ev])[..|evs|] == evs;
  }

  lemma PossibleSnoc(setup: ReadySetup, secrets: set<string>, evs: seq<NetEvent>, ev: NetEvent)
    requires Possible(setup, secrets, evs) && Admissible(secrets, NetRun(setup, evs), ev)
    ensures Possible(setup, secrets, evs + [ev])
  {
    forall i | 0 <= i < |evs + [ev]| ensures Admissible(secrets, NetRun(setup, (evs + [ev])[..i]), (evs + [ev])[i]) {
      assert (evs + [ev])[..i] == evs[..i];
      assert evs[..|evs|] == evs;
    }
  }

  // ----- an honest exchange, step by step -----

  function SessionOf(h: Exchange): Session {
    Session(h.server, h.clientID, h.port, h.token, h.clientNonce, h.sentAt + h.offset, Asked)
  }

  ghost predicate SentOnWire(s: NetState, p: Option<Packet>) {
    p.Some? && p.value.Packet? && p.value.env.payload in s.wire
  }

  lemma SealedIsPacket(server: ServerEntry, body: Body, size: nat)
    ensures SealedPacket(server, body, size).Some? ==> SealedPacket(server, body, size).value.Packet?
  {
  }

  /** The client starts: its request is on the wire. */
  lemma StartStep(setup: ReadySetup, h: Exchange, s: NetState)
    requires RequestSent(h).Some?
    ensures var after := NetStep(setup, s, Start(SessionOf(h)));
            && after.server == s.server && after.sessions == s.sessions + [SessionOf(h)]
            && s.wire <= after.wire && SentOnWire(after, RequestSent(h))
  {
    SealedIsPacket(h.server, RequestBody(Request(h)), PacketSize.RequestSize(Request(h)));
    assert RequestIn(SessionOf(h)) == Request(h);
  }

  /** The server answers it: its challenge is on the wire. */
  lemma AskStep(setup: ReadySetup, h: Exchange, s: NetState)
    requires WellFormed(setup, h) && HonestRun.KeyActive(setup, h) && Timely(h)
    requires Hosts(setup, h, s.server, [], [])
    ensures RequestSent(h).Some? && ChallengeSent(h).Some?
    ensures var after := NetStep(setup, s, ServerStep(AskEvent(h)));
            && after.server == Step(setup, s.server, AskEvent(h)) && after.sessions == s.sessions
            && s.wire <= after.wire && SentOnWire(after, ChallengeSent(h))
  {
    RequestStep(setup, h, s.server);
    ChallengeAcceptedIff(setup, h);
  }

  /** A session that responds on reading a packet has its response on the wire. */
  lemma ResponseOnDelivery(setup: ReadySetup, s: NetState, r: nat, packet: Packet, openTime: Instant, responseTime: Instant, x: Session)
    requires r < |s.sessions| && s.sessions[r].phase == Asked
    requires x == AfterDelivery(s.sessions[r], packet, openTime, responseTime) && x.phase.Responded?
    requires ResponsePacket(x.server, ResponseIn(x)).Some?
    ensures var after := NetStep(setup, s, Deliver(r, packet, openTime, responseTime));
            && after.server == s.server && after.sessions == s.sessions[r := x]
            && s.wire <= after.wire && SentOnWire(after, ResponsePacket(x.server, ResponseIn(x)))
  {
    SealedIsPacket(x.server, ResponseBody(ResponseIn(x)), PacketSize.ResponseSize(ResponseIn(x)));
  }

  lemma Delivered(h: Exchange, packet: Packet)
    requires OpenChallenge(h.server, packet, h.openedAt + h.offset) == Some(IssuedTo(h))
    ensures AfterDelivery(SessionOf(h), packet, h.openedAt + h.offset, h.respondedAt + h.offset)
            == SessionOf(h).(phase := Responded(IssuedTo(h), h.respondedAt + h.offset))
  {
    var challenge := IssuedTo(h);
    assert BoundTo(challenge, h.server, h.clientID, h.port, h.clientNonce);
  }

  lemma ResponseInResponded(h: Exchange, x: Session)
    requires x == SessionOf(h).(phase := Responded(IssuedTo(h), h.respondedAt + h.offset))
    ensures ResponsePacket(x.server, ResponseIn(x)) == ResponseSent(h)
  {
    assert ResponseIn(x) == Response(h);
  }

  /** The client reads it: its response is on the wire. */
  lemma DeliverStep(setup: ReadySetup, h: Exchange, s: NetState, r: nat, packet: Packet)
    requires r < |s.sessions| && s.sessions[r] == SessionOf(h)
    requires OpenChallenge(h.server, packet, h.openedAt + h.offset) == Some(IssuedTo(h))
    requires ResponseSent(h).Some?
    ensures var after := NetStep(setup, s, Deliver(r, packet, h.openedAt + h.offset, h.respondedAt + h.offset));
            && after.server == s.server && |after.sessions| == |s.sessions|
            && after.sessions[r] == SessionOf(h).(phase := Responded(IssuedTo(h), h.respondedAt + h.offset))
            && s.wire <= after.wire && SentOnWire(after, ResponseSent(h))
  {
    var x := SessionOf(h).(phase := Responded(IssuedTo(h), h.respondedAt + h.offset));
    Delivered(h, packet);
    ResponseInResponded(h, x);
    ResponseOnDelivery(setup, s, r, packet, h.openedAt + h.offset, h.respondedAt + h.offset, x);
  }

  lemma ReceiveKeepsLists(setup: ReadySetup, s: State, e: Event)
    requires e.Receive?
    ensures Step(setup, s, e).lists == s.lists
  {
  }

  lemma AskKeepsWaiting(setup: ReadySetup, s: State, e: Event)
    requires e.Receive? && s.handler == Waiting && Classify(setup, e.packet, e.keyTime, e.checkTime).Ask?
    ensures Step(setup, s, e).handler == Waiting
  {
  }

  /** The server redeems it. */
  lemma AnswerStep(setup: ReadySetup, h: Exchange, s: State, s': State)
    requires WellFormed(setup, h) && HonestRun.KeyActive(setup, h) && Timely(h)
    requires Hosts(setup, h, s, [], []) && RequestSent(h).Some? && ResponseSent(h).Some?
    requires s' == Step(setup, s, AskEvent(h))
    ensures s'.handler == Waiting && s'.lists == s.lists
    ensures var granting := Step(setup, s', AnswerEvent(h));
            granting.handler == Authorizing(h.ip, h.server.keyID, Response(h)) && granting.lists == s.lists
  {
    RequestStep(setup, h, s);
    RequestAcceptedIff(setup, h);
    ClocksPass(h);
    IdentifierBytes(h.clientID);
    IdentifierBytes(h.clientNonce);
    AskKeepsWaiting(setup, s, AskEvent(h));
    ReceiveKeepsLists(setup, s, AskEvent(h));
    ResponseStep(setup, h, s');
    ReceiveKeepsLists(setup, s', AnswerEvent(h));
  }

  // ----- the whole exchange -----

  /** The run goes on with this event. */
  ghost predicate Continues(setup: ReadySetup, secrets: set<string>, evs: seq<NetEvent>, ev: NetEvent, next: seq<NetEvent>) {
    && next == evs + [ev] && Possible(setup, secrets, next)
    && NetRun(setup, next) == NetStep(setup, NetRun(setup, evs), ev)
    && ServerEvents(next) == After(ServerEvents(evs), ev)
  }

  lemma GoOn(setup: ReadySetup, secrets: set<string>, evs: seq<NetEvent>, ev: NetEvent) returns (next: seq<NetEvent>)
    requires Possible(setup, secrets, evs) && Admissible(secrets, NetRun(setup, evs), ev)
    ensures Continues(setup, secrets, evs, ev, next)
  {
    next := evs + [ev];
    PossibleSnoc(setup, secrets, evs, ev);
    NetRunSnoc(setup, evs, ev);
  }

  /** A new client's nonce is new, and its configuration names ids without colons. */
  ghost predicate CanStart(s: NetState, h: Exchange) {
    && ColonFree(h.server.keyID) && ColonFree(h.server.serverID)
    && forall r | 0 <= r < |s.sessions| :: s.sessions[r].nonce != h.clientNonce
  }

  /** The first half: started, asked and delivered, the client's response is on the wire, and the
      server has gone through nothing but the request. */
  lemma ClientResponds(setup: ReadySetup, secrets: set<string>, evs: seq<NetEvent>, h: Exchange) returns (next: seq<NetEvent>)
    requires Possible(setup, secrets, evs) && CanStart(NetRun(setup, evs), h)
    requires WellFormed(setup, h) && HonestRun.KeyActive(setup, h) && Timely(h)
    requires Hosts(setup, h, NetRun(setup, evs).server, [], [])
    ensures RequestSent(h).Some? && ChallengeSent(h).Some? && ResponseSent(h).Some?
    ensures evs <= next && Possible(setup, secrets, next)
    ensures ServerEvents(next) == ServerEvents(evs) + [AskEvent(h)]
    ensures var before, after := NetRun(setup, evs), NetRun(setup, next);
            && after.server == Step(setup, before.server, AskEvent(h))
            && |after.sessions| == |before.sessions| + 1
            && after.sessions[|before.sessions|] == SessionOf(h).(phase := Responded(IssuedTo(h), h.respondedAt + h.offset))
            && SentOnWire(after, ResponseSent(h))
  {
    RequestAcceptedIff(setup, h);
    ResponseAcceptedIff(setup, h);
    ChallengeAcceptedIff(setup, h);
    var s0 := NetRun(setup, evs);
    StartStep(setup, h, s0);
    var e1 := GoOn(setup, secrets, evs, Start(SessionOf(h)));
    var s1 := NetRun(setup, e1);
    assert s1.sessions[|s0.sessions|] == SessionOf(h);
    AskStep(setup, h, s1);
    var e2 := GoOn(setup, secrets, e1, ServerStep(AskEvent(h)));
    var s2 := NetRun(setup, e2);
    ClocksPass(h);
    DeliverStep(setup, h, s2, |s0.sessions|, ChallengeSent(h).value);
    next := GoOn(setup, secrets, e2, Deliver(|s0.sessions|, ChallengeSent(h).value, h.openedAt + h.offset, h.respondedAt + h.offset));
    assert ServerEvents(evs) + [] == ServerEvents(evs);
    assert ServerEvents(evs) + [AskEvent(h)] + [] == ServerEvents(evs) + [AskEvent(h)];
  }

  /** The run goes on until the new session has responded and the server has authorized it. */
  ghost predicate AuthorizedIn(setup: ReadySetup, secrets: set<string>, evs: seq<NetEvent>, h: Exchange, f: nat, all: seq<NetEvent>) {
    && evs <= all && Possible(setup, secrets, all)
    && (var r := |NetRun(setup, evs).sessions|;
        && r < |NetRun(setup, all).sessions|
        && NetRun(setup, all).sessions[r] == SessionOf(h).(phase := Responded(IssuedTo(h), h.respondedAt + h.offset)))
    && AuthRuns.Authorizes(setup, ServerEvents(all), |ServerEvents(all)| - 1, f, h.ip, h.server.keyID, Response(h))
  }

  /** At any point of any run against the network, if it simply delivers an honest exchange within the
      bounds, the session completes and the server authorizes it. */
  lemma HonestSessionAuthorizes(setup: ReadySetup, secrets: set<string>, evs: seq<NetEvent>, h: Exchange, f: nat, now: Instant)
    requires Possible(setup, secrets, evs) && CanStart(NetRun(setup, evs), h)
    requires WellFormed(setup, h) && HonestRun.KeyActive(setup, h) && Timely(h)
    requires Hosts(setup, h, NetRun(setup, evs).server, [], [])
    requires Settings.SelectForward(setup.p, setup.s, h.port, h.token, 0) == Some(f)
    requires f < |NetRun(setup, evs).server.lists|
    requires !AC.Refused(setup.maxClients, NetRun(setup, evs).server.lists[f], AC.ClientKey(h.ip, h.clientID), now)
    ensures exists all :: AuthorizedIn(setup, secrets, evs, h, f, all)
  {
    var e3 := ClientResponds(setup, secrets, evs, h);
    var e4 := GoOn(setup, secrets, e3, ServerStep(AnswerEvent(h)));
    AnswerStep(setup, h, NetRun(setup, evs).server, NetRun(setup, e3).server);
    var all := GoOn(setup, secrets, e4, ServerStep(Authorize(now)));
    ServerInNetwork(setup, e4);
    var es := ServerEvents(e4);
    assert ServerEvents(all) == es + [Authorize(now)];
    assert (es + [Authorize(now)])[..|es|] == es;
    assert AuthorizedIn(setup, secrets, evs, h, f, all);
  }
}
