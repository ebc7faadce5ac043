/** Clients, the server and the network between them. The network may drop, duplicate, reorder and
    replay packets, change their cleartext and their source address, and make up anything that is
    not sealed under a secret key. */
module Network {
  import opened Basics
  import opened AuthProto
  import opened AuthServer
  import opened AuthClient
  import PacketSize
  import AuthRuns
  import ConfigChecked
  import ForwardSafety
  import Fwd = Forwarding
  import Settings
  import PC = PendingChallenges

  /** One exchange of one client. */
  datatype Phase = Asked | Responded(challenge: Challenge, sentAt: Instant) | Failed
  datatype Session = Session(server: ServerEntry, clientID: string, port: Uint16, token: string, nonce: string, startedAt: Instant, phase: Phase)

  datatype NetEvent =
    | ServerStep(e: Event)
    | Start(session: Session)
    | Deliver(r: nat, packet: Packet, openTime: Instant, responseTime: Instant)

  /** `wire` holds every ciphertext that was ever sent. */
  datatype NetState = NetState(server: State, sessions: seq<Session>, wire: set<Payload>)

  ghost function PayloadOf(p: Option<Packet>): set<Payload> {
    if p.Some? && p.value.Packet? then {p.value.env.payload} else {}
  }

  function RequestIn(x: Session): ChallengeRequest {
    RequestOf(x.server, x.clientID, x.port, x.nonce, x.startedAt)
  }

  function ResponseIn(x: Session): ChallengeResponse
    requires x.phase.Responded?
  {
    ResponseOf(x.server, x.clientID, x.port, x.nonce, x.token, x.phase.challenge.serverNonce, x.phase.sentAt)
  }

  /** `auth` on the packet it read: respond to a challenge bound to this session, else fail. */
  function AfterDelivery(x: Session, packet: Packet, openTime: Instant, responseTime: Instant): Session {
    var challenge := OpenChallenge(x.server, packet, openTime);
    if challenge.Some? && BoundTo(challenge.value, x.server, x.clientID, x.port, x.nonce)
    then x.(phase := Responded(challenge.value, responseTime))
    else x.(phase := Failed)
  }

  ghost function NetStep(setup: ReadySetup, s: NetState, ev: NetEvent): NetState {
    match ev
    case ServerStep(e) => NetState(Step(setup, s.server, e), s.sessions, s.wire + PayloadOf(Reply(setup, s.server, e)))
    case Start(x) => NetState(s.server, s.sessions + [x.(phase := Asked)], s.wire + PayloadOf(RequestPacket(x.server, RequestIn(x))))
    case Deliver(r, packet, openTime, responseTime) =>
      if r < |s.sessions| && s.sessions[r].phase == Asked then
        var x := AfterDelivery(s.sessions[r], packet, openTime, responseTime);
        NetState(s.server, s.sessions[r := x],
                 s.wire + if x.phase.Responded? then PayloadOf(ResponsePacket(x.server, ResponseIn(x))) else {})
      else s
  }

  /** The network cannot produce a new seal under a secret key. */
  ghost predicate Deliverable(secrets: set<string>, wire: set<Payload>, packet: Packet) {
    packet.Packet? && packet.env.payload.Cipher? && packet.env.payload.key in secrets ==> packet.env.payload in wire
  }

  /** Both sides' configuration checks admit only such ids. */
  ghost predicate ColonFreeIDs(setup: Setup) {
    && ColonFree(setup.s.serverID)
    && forall i | 0 <= i < |setup.s.authKeys| :: ColonFree(setup.s.authKeys[i].id)
  }

  ghost predicate Admissible(secrets: set<string>, s: NetState, ev: NetEvent) {
    match ev
    case ServerStep(e) => e.Receive? ==> Deliverable(secrets, s.wire, e.packet)
    case Start(x) =>
      && ColonFree(x.server.keyID) && ColonFree(x.server.serverID)
      && forall r | 0 <= r < |s.sessions| :: s.sessions[r].nonce != x.nonce
    case Deliver(_, packet, _, _) => Deliverable(secrets, s.wire, packet)
  }

  ghost function NetRun(setup: ReadySetup, evs: seq<NetEvent>): NetState {
    if evs == [] then NetState(Initial(setup), [], {})
    else NetStep(setup, NetRun(setup, evs[..|evs| - 1]), evs[|evs| - 1])
  }

  ghost predicate Possible(setup: ReadySetup, secrets: set<string>, evs: seq<NetEvent>) {
    forall i | 0 <= i < |evs| :: Admissible(secrets, NetRun(setup, evs[..i]), evs[i])
  }

  ghost function After(es: seq<Event>, ev: NetEvent): seq<Event> {
    es + if ev.ServerStep? then [ev.e] else []
  }

  /** What the server went through. */
  ghost function ServerEvents(evs: seq<NetEvent>): seq<Event> {
    if evs == [] then [] else After(ServerEvents(evs[..|evs| - 1]), evs[|evs| - 1])
  }

  lemma ClientsLeaveServer(setup: ReadySetup, s: NetState, ev: NetEvent)
    requires !ev.ServerStep?
    ensures NetStep(setup, s, ev).server == s.server
  {
  }

  lemma {:induction false} ServerInNetwork(setup: ReadySetup, evs: seq<NetEvent>)
    ensures NetRun(setup, evs).server == Run(setup, ServerEvents(evs))
  {
    if evs != [] {
      var n := |evs| - 1;
      ServerInNetwork(setup, evs[..n]);
      if evs[n].ServerStep? {
        RunSnoc(setup, ServerEvents(evs[..n]), evs[n].e);
      } else {
        ClientsLeaveServer(setup, NetRun(setup, evs[..n]), evs[n]);
        assert After(ServerEvents(evs[..n]), evs[n]) == ServerEvents(evs[..n]);
      }
    }
  }

  // ----- where secret ciphertexts come from -----

  ghost predicate IsRequest(x: Session, p: Payload) {
    PayloadOf(RequestPacket(x.server, RequestIn(x))) == {p}
  }

  ghost predicate IsResponse(x: Session, p: Payload) {
    x.phase.Responded? && PayloadOf(ResponsePacket(x.server, ResponseIn(x))) == {p}
  }

  /** Event `j` of the server issued the challenge `p` seals. */
  ghost predicate IsChallenge(setup: ReadySetup, es: seq<Event>, j: int, p: Payload) {
    && 0 <= j < |es| && es[j].Receive? && es[j].nonce.Some?
    && (var v := Classify(setup, es[j].packet, es[j].keyTime, es[j].checkTime);
        && v.Ask?
        && AuthRuns.Issues(setup, es, j, es[j].ip, v.keyID, v.req, es[j].nonce.value)
        && PayloadOf(SealedChallenge(setup.s.serverID, v.keyID, v.key, IssuedChallenge(v.req, es[j].nonce.value, es[j].storeTime))) == {p})
  }

  ghost predicate Explained(setup: ReadySetup, es: seq<Event>, sessions: seq<Session>, p: Payload) {
    || (exists r | 0 <= r < |sessions| :: IsRequest(sessions[r], p))
    || (exists r | 0 <= r < |sessions| :: IsResponse(sessions[r], p))
    || (exists j :: IsChallenge(setup, es, j, p))
  }

  ghost predicate WireExplained(setup: ReadySetup, es: seq<Event>, s: NetState) {
    forall p | p in s.wire :: Explained(setup, es, s.sessions, p)
  }

  ghost predicate DeliveredKnown(secrets: set<string>, es: seq<Event>, wire: set<Payload>) {
    forall c | 0 <= c < |es| && es[c].Receive? :: Deliverable(secrets, wire, es[c].packet)
  }

  ghost predicate NoncesDistinct(sessions: seq<Session>) {
    forall r, r' | 0 <= r < r' < |sessions| :: sessions[r].nonce != sessions[r'].nonce
  }

  ghost predicate SessionsNamed(sessions: seq<Session>) {
    forall r | 0 <= r < |sessions| :: ColonFree(sessions[r].server.keyID) && ColonFree(sessions[r].server.serverID)
  }

  /** Event `j` issued the challenge this session answered, for the session's own bindings. */
  ghost predicate ChallengedBy(setup: ReadySetup, es: seq<Event>, x: Session, j: int) {
    && x.phase.Responded?
    && 0 <= j < |es| && es[j].Receive? && es[j].nonce == Some(x.phase.challenge.serverNonce)
    && (var v := Classify(setup, es[j].packet, es[j].keyTime, es[j].checkTime);
        && v.Ask? && v.keyID == x.server.keyID && v.key == x.server.key
        && AuthRuns.Issues(setup, es, j, es[j].ip, v.keyID, v.req, es[j].nonce.value)
        && v.req.serverID == x.server.serverID == setup.s.serverID && v.req.clientID == x.clientID
        && v.req.port == x.port && v.req.clientNonce == x.nonce)
    && x.phase.challenge.expiresAt == Unix(es[j].storeTime + 30 * SECOND)
  }

  ghost predicate SessionsChallenged(setup: ReadySetup, secrets: set<string>, es: seq<Event>, sessions: seq<Session>) {
    forall r | 0 <= r < |sessions| && sessions[r].server.key in secrets && sessions[r].phase.Responded? ::
      exists j :: ChallengedBy(setup, es, sessions[r], j)
  }

  ghost predicate Inv(setup: ReadySetup, secrets: set<string>, es: seq<Event>, s: NetState) {
    && WireExplained(setup, es, s)
    && DeliveredKnown(secrets, es, s.wire)
    && NoncesDistinct(s.sessions)
    && SessionsNamed(s.sessions)
    && SessionsChallenged(setup, secrets, es, s.sessions)
  }

  // ----- the invariant is kept -----

  lemma IssuesExtend(setup: ReadySetup, es: seq<Event>, e: Event, j: int, p: Payload)
    requires IsChallenge(setup, es, j, p)
    ensures IsChallenge(setup, es + [e], j, p)
  {
    assert (es + [e])[..j] == es[..j];
  }

  lemma ChallengedExtends(setup: ReadySetup, es: seq<Event>, e: Event, x: Session, j: int)
    requires ChallengedBy(setup, es, x, j)
    ensures ChallengedBy(setup, es + [e], x, j)
  {
    assert (es + [e])[..j] == es[..j];
  }

  /** What the server adds to the wire is the challenge it just issued. */
  lemma ReplyIsChallenge(setup: ReadySetup, es: seq<Event>, e: Event, p: Payload)
    requires p in PayloadOf(Reply(setup, Run(setup, es), e))
    ensures IsChallenge(setup, es + [e], |es|, p)
  {
    assert (es + [e])[..|es|] == es;
  }

  lemma ExplainedExtends(setup: ReadySetup, es: seq<Event>, e: Event, sessions: seq<Session>, p: Payload)
    requires Explained(setup, es, sessions, p)
    ensures Explained(setup, es + [e], sessions, p)
  {
    if j :| IsChallenge(setup, es, j, p) { IssuesExtend(setup, es, e, j, p); }
  }

  lemma ServerStepKeepsInv(setup: ReadySetup, secrets: set<string>, es: seq<Event>, s: NetState, e: Event)
    requires Inv(setup, secrets, es, s)
    requires s.server == Run(setup, es)
    requires Admissible(secrets, s, ServerStep(e))
    ensures Inv(setup, secrets, es + [e], NetStep(setup, s, ServerStep(e)))
  {
    var s' := NetStep(setup, s, ServerStep(e));
    forall p | p in s'.wire ensures Explained(setup, es + [e], s'.sessions, p) {
      if p in s.wire {
        ExplainedExtends(setup, es, e, s.sessions, p);
      } else {
        ReplyIsChallenge(setup, es, e, p);
      }
    }
    forall r | 0 <= r < |s.sessions| && s.sessions[r].server.key in secrets && s.sessions[r].phase.Responded?
      ensures exists j :: ChallengedBy(setup, es + [e], s.sessions[r], j)
    {
      var j :| ChallengedBy(setup, es, s.sessions[r], j);
      ChallengedExtends(setup, es, e, s.sessions[r], j);
    }
  }

  lemma ExplainedWithMore(setup: ReadySetup, es: seq<Event>, sessions: seq<Session>, more: seq<Session>, p: Payload)
    requires Explained(setup, es, sessions, p)
    ensures Explained(setup, es, sessions + more, p)
  {
    if r :| 0 <= r < |sessions| && IsRequest(sessions[r], p) {
      assert (sessions + more)[r] == sessions[r];
    } else if r :| 0 <= r < |sessions| && IsResponse(sessions[r], p) {
      assert (sessions + more)[r] == sessions[r];
    }
  }

  lemma StartKeepsInv(setup: ReadySetup, secrets: set<string>, es: seq<Event>, s: NetState, x: Session)
    requires Inv(setup, secrets, es, s)
    requires Admissible(secrets, s, Start(x))
    ensures Inv(setup, secrets, es, NetStep(setup, s, Start(x)))
  {
    var s' := NetStep(setup, s, Start(x));
    forall p | p in s'.wire ensures Explained(setup, es, s'.sessions, p) {
      if p in s.wire {
        ExplainedWithMore(setup, es, s.sessions, [x.(phase := Asked)], p);
      } else {
        assert IsRequest(s'.sessions[|s.sessions|], p);
      }
    }
  }

  ghost function RoleOf(p: Payload): string {
    if p.Cipher? && p.plain.Json? then p.plain.body.msgType else ""
  }

  lemma RolesDiffer()
    ensures CHALLENGE != CHALLENGE_REQUEST && CHALLENGE != CHALLENGE_RESPONSE && CHALLENGE_REQUEST != CHALLENGE_RESPONSE
  {
    assert |CHALLENGE| < |CHALLENGE_REQUEST| < |CHALLENGE_RESPONSE|;
  }

  lemma RequestRole(x: Session, p: Payload)
    requires IsRequest(x, p)
    ensures p.Cipher? && p.plain == Json(RequestBody(RequestIn(x))) && RoleOf(p) == CHALLENGE_REQUEST
  {
    assert p in PayloadOf(RequestPacket(x.server, RequestIn(x)));
  }

  lemma ResponseRole(x: Session, p: Payload)
    requires IsResponse(x, p)
    ensures p.Cipher? && p.plain == Json(ResponseBody(ResponseIn(x))) && RoleOf(p) == CHALLENGE_RESPONSE
  {
    assert p in PayloadOf(ResponsePacket(x.server, ResponseIn(x)));
  }

  /** What is sealed in an issued challenge. */
  lemma ChallengePayload(setup: ReadySetup, es: seq<Event>, j: int, p: Payload)
    requires IsChallenge(setup, es, j, p)
    ensures var v := Classify(setup, es[j].packet, es[j].keyTime, es[j].checkTime);
            p.Cipher? && p.key == v.key && p.aad == AdditionalData(Context(v.keyID, setup.s.serverID))
            && p.plain == Json(ChallengeBody(IssuedChallenge(v.req, es[j].nonce.value, es[j].storeTime)))
  {
    var v := Classify(setup, es[j].packet, es[j].keyTime, es[j].checkTime);
    assert p in PayloadOf(SealedChallenge(setup.s.serverID, v.keyID, v.key, IssuedChallenge(v.req, es[j].nonce.value, es[j].storeTime)));
  }

  /** The role of an explained ciphertext says which of the three explanations it has. */
  lemma ExplainedByRole(setup: ReadySetup, es: seq<Event>, sessions: seq<Session>, p: Payload)
    requires Explained(setup, es, sessions, p)
    ensures RoleOf(p) == CHALLENGE_REQUEST ==> exists r | 0 <= r < |sessions| :: IsRequest(sessions[r], p)
    ensures RoleOf(p) == CHALLENGE_RESPONSE ==> exists r | 0 <= r < |sessions| :: IsResponse(sessions[r], p)
    ensures RoleOf(p) == CHALLENGE ==> exists j :: IsChallenge(setup, es, j, p)
  {
    RolesDiffer();
    if r :| 0 <= r < |sessions| && IsRequest(sessions[r], p) {
      RequestRole(sessions[r], p);
    } else if r :| 0 <= r < |sessions| && IsResponse(sessions[r], p) {
      ResponseRole(sessions[r], p);
    } else {
      var j :| IsChallenge(setup, es, j, p);
      ChallengePayload(setup, es, j, p);
    }
  }

  /** If what a session opened is a challenge the server issued, it was issued for that session. */
  lemma OpenedIsChallengedBy(setup: ReadySetup, es: seq<Event>, x: Session, packet: Packet, openTime: Instant, responseTime: Instant, j: int)
    requires ColonFreeIDs(setup) && ColonFree(x.server.keyID) && ColonFree(x.server.serverID)
    requires AfterDelivery(x, packet, openTime, responseTime).phase.Responded?
    requires packet.Packet? && IsChallenge(setup, es, j, packet.env.payload)
    ensures ChallengedBy(setup, es, AfterDelivery(x, packet, openTime, responseTime), j)
  {
    var v := Classify(setup, es[j].packet, es[j].keyTime, es[j].checkTime);
    OpenedChallenge(x.server, packet, openTime);
    ChallengePayload(setup, es, j, packet.env.payload);
    AuthRuns.ClassifiedKeyInUse(setup, es[j].packet, es[j].keyTime, es[j].checkTime);
    ContextStringInjective(Context(v.keyID, setup.s.serverID), Context(x.server.keyID, x.server.serverID));
  }

  lemma OpenedChallengeOnWire(setup: ReadySetup, secrets: set<string>, es: seq<Event>, s: NetState, server: ServerEntry, packet: Packet, openTime: Instant)
    requires WireExplained(setup, es, s)
    requires server.key in secrets && Deliverable(secrets, s.wire, packet)
    requires OpenChallenge(server, packet, openTime).Some?
    ensures exists j :: IsChallenge(setup, es, j, packet.env.payload)
  {
    OpenedChallenge(server, packet, openTime);
    assert RoleOf(packet.env.payload) == CHALLENGE;
    assert packet.env.payload in s.wire;
    ExplainedByRole(setup, es, s.sessions, packet.env.payload);
  }

  /** A challenge a session accepts under a secret key was issued by the server for it. */
  lemma AcceptedChallengeWasIssued(setup: ReadySetup, secrets: set<string>, es: seq<Event>, s: NetState, x: Session, packet: Packet, openTime: Instant, responseTime: Instant)
    requires ColonFreeIDs(setup) && WireExplained(setup, es, s)
    requires x.server.key in secrets && ColonFree(x.server.keyID) && ColonFree(x.server.serverID)
    requires Deliverable(secrets, s.wire, packet)
    requires AfterDelivery(x, packet, openTime, responseTime).phase.Responded?
    ensures exists j :: ChallengedBy(setup, es, AfterDelivery(x, packet, openTime, responseTime), j)
  {
    OpenedChallengeOnWire(setup, secrets, es, s, x.server, packet, openTime);
    var j :| IsChallenge(setup, es, j, packet.env.payload);
    OpenedIsChallengedBy(setup, es, x, packet, openTime, responseTime, j);
  }

  lemma DeliverKeepsInv(setup: ReadySetup, secrets: set<string>, es: seq<Event>, s: NetState, r: nat, packet: Packet, openTime: Instant, responseTime: Instant)
    requires ColonFreeIDs(setup)
    requires Inv(setup, secrets, es, s)
    requires Admissible(secrets, s, Deliver(r, packet, openTime, responseTime))
    ensures Inv(setup, secrets, es, NetStep(setup, s, Deliver(r, packet, openTime, responseTime)))
  {
    if r < |s.sessions| && s.sessions[r].phase == Asked {
      var s' := NetStep(setup, s, Deliver(r, packet, openTime, responseTime));
      var x := s'.sessions[r];
      forall p | p in s'.wire ensures Explained(setup, es, s'.sessions, p) {
        if p in s.wire {
          assert Explained(setup, es, s.sessions, p);
          StillExplained(setup, es, s.sessions, r, x, p);
        } else {
          assert IsResponse(s'.sessions[r], p);
        }
      }
      if x.server.key in secrets && x.phase.Responded? {
        AcceptedChallengeWasIssued(setup, secrets, es, s, s.sessions[r], packet, openTime, responseTime);
      }
    }
  }

  lemma StillExplained(setup: ReadySetup, es: seq<Event>, sessions: seq<Session>, r: nat, x: Session, p: Payload)
    requires r < |sessions| && sessions[r].phase == Asked
    requires x == sessions[r].(phase := x.phase)
    requires Explained(setup, es, sessions, p)
    ensures Explained(setup, es, sessions[r := x], p)
  {
    if q :| 0 <= q < |sessions| && IsRequest(sessions[q], p) {
      RequestKept(sessions, r, x, p, q);
    } else if q :| 0 <= q < |sessions| && IsResponse(sessions[q], p) {
      ResponseKept(sessions, r, x, p, q);
    }
  }

  lemma ResponseKept(sessions: seq<Session>, r: nat, x: Session, p: Payload, q: nat)
    requires r < |sessions| && q < |sessions| && sessions[r].phase == Asked
    requires IsResponse(sessions[q], p)
    ensures IsResponse(sessions[r := x][q], p)
  {
    assert q != r;
  }

  lemma RequestKept(sessions: seq<Session>, r: nat, x: Session, p: Payload, q: nat)
    requires r < |sessions| && q < |sessions| && x == sessions[r].(phase := x.phase)
    requires IsRequest(sessions[q], p)
    ensures IsRequest(sessions[r := x][q], p)
  {
    assert RequestIn(sessions[r := x][q]) == RequestIn(sessions[q]);
  }

  lemma NetStepKeepsInv(setup: ReadySetup, secrets: set<string>, es: seq<Event>, s: NetState, ev: NetEvent)
    requires ColonFreeIDs(setup)
    requires Inv(setup, secrets, es, s) && s.server == Run(setup, es)
    requires Admissible(secrets, s, ev)
    ensures Inv(setup, secrets, After(es, ev), NetStep(setup, s, ev))
  {
    assert es + [] == es;
    match ev
    case ServerStep(e) => ServerStepKeepsInv(setup, secrets, es, s, e);
    case Start(x) => StartKeepsInv(setup, secrets, es, s, x);
    case Deliver(r, packet, openTime, responseTime) => DeliverKeepsInv(setup, secrets, es, s, r, packet, openTime, responseTime);
  }

  lemma PossiblePrefix(setup: ReadySetup, secrets: set<string>, evs: seq<NetEvent>, n: nat)
    requires n <= |evs| && Possible(setup, secrets, evs)
    ensures Possible(setup, secrets, evs[..n])
  {
    forall i | 0 <= i < n ensures Admissible(secrets, NetRun(setup, evs[..n][..i]), evs[..n][i]) {
      assert evs[..n][..i] == evs[..i];
    }
  }

  lemma {:induction false} InvHolds(setup: ReadySetup, secrets: set<string>, evs: seq<NetEvent>)
    requires ColonFreeIDs(setup)
    requires Possible(setup, secrets, evs)
    ensures Inv(setup, secrets, ServerEvents(evs), NetRun(setup, evs))
  {
    if evs != [] {
      var n := |evs| - 1;
      PossiblePrefix(setup, secrets, evs, n);
      InvHolds(setup, secrets, evs[..n]);
      ServerInNetwork(setup, evs[..n]);
      NetStepKeepsInv(setup, secrets, ServerEvents(evs[..n]), NetRun(setup, evs[..n]), evs[n]);
    }
  }

  // ----- agreement -----

  /** Client side: a session under a secret key sends its token only after opening a challenge
      that the server issued, for this session's nonce, ids and port, with that very deadline. */
  lemma ClientAgreement(setup: ReadySetup, secrets: set<string>, evs: seq<NetEvent>, r: int)
    requires ColonFreeIDs(setup) && Possible(setup, secrets, evs)
    requires 0 <= r < |NetRun(setup, evs).sessions|
    requires NetRun(setup, evs).sessions[r].server.key in secrets && NetRun(setup, evs).sessions[r].phase.Responded?
    ensures exists j :: ChallengedBy(setup, ServerEvents(evs), NetRun(setup, evs).sessions[r], j)
  {
    InvHolds(setup, secrets, evs);
  }

  /** The session sent this response, under this key id. */
  ghost predicate Sent(x: Session, keyID: string, resp: ChallengeResponse) {
    x.phase.Responded? && x.server.keyID == keyID && ResponseIn(x) == resp
  }

  /** The verdict on a packet whose payload seals a session's response is that response, under
      the session's own key id. */
  lemma ResponseDecodes(setup: ReadySetup, packet: Packet, keyTime: Instant, checkTime: Instant, x: Session)
    requires ColonFreeIDs(setup) && ColonFree(x.server.keyID) && ColonFree(x.server.serverID)
    requires Classify(setup, packet, keyTime, checkTime).Answer?
    requires IsResponse(x, packet.env.payload)
    ensures var v := Classify(setup, packet, keyTime, checkTime); Sent(x, v.keyID, v.resp)
    ensures x.server.key == packet.env.payload.key
  {
    var v := Classify(setup, packet, keyTime, checkTime);
    AuthRuns.ClassifiedKeyInUse(setup, packet, keyTime, checkTime);
    ResponseRole(x, packet.env.payload);
    assert AsResponse(ResponseBody(ResponseIn(x))) == ResponseIn(x);
    ContextStringInjective(Context(v.keyID, setup.s.serverID), Context(x.server.keyID, x.server.serverID));
  }

  lemma ResponseOnWire(setup: ReadySetup, secrets: set<string>, es: seq<Event>, s: NetState, c: int)
    requires WireExplained(setup, es, s) && DeliveredKnown(secrets, es, s.wire)
    requires 0 <= c < |es| && es[c].Receive?
    requires Classify(setup, es[c].packet, es[c].keyTime, es[c].checkTime).Answer? && es[c].packet.env.payload.key in secrets
    ensures exists r :: 0 <= r < |s.sessions| && IsResponse(s.sessions[r], es[c].packet.env.payload)
  {
    var p := es[c].packet.env.payload;
    assert Deliverable(secrets, s.wire, es[c].packet);
    assert p in s.wire;
    assert RoleOf(p) == CHALLENGE_RESPONSE;
    ExplainedByRole(setup, es, s.sessions, p);
  }

  /** A response redeemed under a secret key was sent, as it is, by a session. */
  lemma RedeemedResponseWasSent(setup: ReadySetup, secrets: set<string>, es: seq<Event>, s: NetState, c: int, ip: string, keyID: string, resp: ChallengeResponse)
    requires ColonFreeIDs(setup) && Inv(setup, secrets, es, s)
    requires AuthRuns.Redeems(setup, es, c, ip, keyID, resp)
    requires es[c].packet.env.payload.key in secrets
    ensures exists r :: 0 <= r < |s.sessions| && Sent(s.sessions[r], keyID, resp) && s.sessions[r].server.key in secrets
  {
    ResponseOnWire(setup, secrets, es, s, c);
    var r :| 0 <= r < |s.sessions| && IsResponse(s.sessions[r], es[c].packet.env.payload);
    ResponseDecodes(setup, es[c].packet, es[c].keyTime, es[c].checkTime, s.sessions[r]);
  }

  /** The verdict on a packet whose payload seals a session's request is that request. */
  lemma RequestDecodes(setup: ReadySetup, packet: Packet, keyTime: Instant, checkTime: Instant, x: Session)
    requires Classify(setup, packet, keyTime, checkTime).Ask?
    requires IsRequest(x, packet.env.payload)
    ensures Classify(setup, packet, keyTime, checkTime).req == RequestIn(x)
  {
    RequestRole(x, packet.env.payload);
  }

  /** A request the server answered under a secret key was sent by a session. */
  lemma AnsweredRequestWasSent(setup: ReadySetup, secrets: set<string>, es: seq<Event>, s: NetState, j: int)
    requires WireExplained(setup, es, s) && DeliveredKnown(secrets, es, s.wire)
    requires 0 <= j < |es| && es[j].Receive?
    requires var v := Classify(setup, es[j].packet, es[j].keyTime, es[j].checkTime); v.Ask? && v.key in secrets
    ensures exists r :: 0 <= r < |s.sessions| && IsRequest(s.sessions[r], es[j].packet.env.payload)
  {
    var p := es[j].packet.env.payload;
    assert Deliverable(secrets, s.wire, es[j].packet);
    assert p in s.wire;
    assert RoleOf(p) == CHALLENGE_REQUEST;
    ExplainedByRole(setup, es, s.sessions, p);
  }

  /** The session behind a redemption: it sent the request the challenge `j` was issued for, it
      opened that challenge, and it sent the response that was redeemed. */
  ghost predicate RanBy(setup: ReadySetup, es: seq<Event>, x: Session, keyID: string, resp: ChallengeResponse, j: int) {
    && Sent(x, keyID, resp)
    && ChallengedBy(setup, es, x, j)
    && RequestIn(x) == Classify(setup, es[j].packet, es[j].keyTime, es[j].checkTime).req
  }

  /** The session that answered challenge `j` is also the one that asked for it. */
  lemma ChallengedSessionAsked(setup: ReadySetup, secrets: set<string>, es: seq<Event>, s: NetState, r: int, j: int)
    requires WireExplained(setup, es, s) && DeliveredKnown(secrets, es, s.wire) && NoncesDistinct(s.sessions)
    requires 0 <= r < |s.sessions| && s.sessions[r].server.key in secrets
    requires ChallengedBy(setup, es, s.sessions[r], j)
    ensures RequestIn(s.sessions[r]) == Classify(setup, es[j].packet, es[j].keyTime, es[j].checkTime).req
  {
    AnsweredRequestWasSent(setup, secrets, es, s, j);
    var q :| 0 <= q < |s.sessions| && IsRequest(s.sessions[q], es[j].packet.env.payload);
    RequestDecodes(setup, es[j].packet, es[j].keyTime, es[j].checkTime, s.sessions[q]);
    assert s.sessions[q].nonce == s.sessions[r].nonce;
    assert q == r;
  }

  /** Full agreement: whatever the network does, each redemption under a secret key is the end of
      one session's whole exchange with this server, over the very challenge it is mapped to. */
  lemma RedemptionAgreement(setup: ReadySetup, secrets: set<string>, evs: seq<NetEvent>, c: int, ip: string, keyID: string, resp: ChallengeResponse)
    requires ColonFreeIDs(setup) && Possible(setup, secrets, evs)
    requires AuthRuns.FreshServerNonces(ServerEvents(evs))
    requires AuthRuns.Redeems(setup, ServerEvents(evs), c, ip, keyID, resp)
    requires ServerEvents(evs)[c].packet.env.payload.key in secrets
    ensures exists r :: 0 <= r < |NetRun(setup, evs).sessions|
              && RanBy(setup, ServerEvents(evs), NetRun(setup, evs).sessions[r], keyID, resp,
                       AuthRuns.IssuedAt(setup, ServerEvents(evs), c, ip, keyID, resp))
  {
    InvHolds(setup, secrets, evs);
    AgreementFromInv(setup, secrets, ServerEvents(evs), NetRun(setup, evs), c, ip, keyID, resp);
  }

  lemma AgreementFromInv(setup: ReadySetup, secrets: set<string>, es: seq<Event>, s: NetState, c: int, ip: string, keyID: string, resp: ChallengeResponse)
    requires ColonFreeIDs(setup) && Inv(setup, secrets, es, s)
    requires AuthRuns.FreshServerNonces(es)
    requires AuthRuns.Redeems(setup, es, c, ip, keyID, resp)
    requires es[c].packet.env.payload.key in secrets
    ensures exists r :: 0 <= r < |s.sessions| && RanBy(setup, es, s.sessions[r], keyID, resp, AuthRuns.IssuedAt(setup, es, c, ip, keyID, resp))
  {
    RedeemedResponseWasSent(setup, secrets, es, s, c, ip, keyID, resp);
    var r :| 0 <= r < |s.sessions| && Sent(s.sessions[r], keyID, resp) && s.sessions[r].server.key in secrets;
    var j :| ChallengedBy(setup, es, s.sessions[r], j);
    AuthRuns.NonceNamesChallenge(setup, es, c, ip, keyID, resp, j);
    ChallengedSessionAsked(setup, secrets, es, s, r, j);
  }

  /** Injectivity towards clients: no session authorizes twice. */
  lemma SessionAuthorizesOnce(setup: ReadySetup, es: seq<Event>, x: Session,
                              g1: int, f1: int, ip1: string, keyID1: string, resp1: ChallengeResponse,
                              g2: int, f2: int, ip2: string, keyID2: string, resp2: ChallengeResponse)
    requires AuthRuns.FreshServerNonces(es)
    requires AuthRuns.Authorizes(setup, es, g1, f1, ip1, keyID1, resp1)
    requires AuthRuns.Authorizes(setup, es, g2, f2, ip2, keyID2, resp2)
    requires g1 < g2 && Sent(x, keyID1, resp1)
    ensures !Sent(x, keyID2, resp2)
  {
    AuthRuns.NoReplay(setup, es, g1, f1, ip1, keyID1, resp1, g2, f2, ip2, keyID2, resp2);
  }

  /** What a delivery puts on the wire is what `auth` sends on reading that packet. */
  lemma DeliveryIsReaction(x: Session, packet: Packet, openTime: Instant, responseTime: Instant)
    ensures var x' := AfterDelivery(x, packet, openTime, responseTime);
            Reaction(x.server, x.clientID, x.port, x.token, x.nonce, Some(packet), openTime, responseTime)
            == if x'.phase.Responded? then ResponsePacket(x'.server, ResponseIn(x')) else None
  {
  }

  // ----- sizes -----

  /** Whatever request it answers, the server's reply fits the client's read buffer. */
  lemma ReplyFits(setup: ReadySetup, s: State, e: Event)
    requires ByteLen(setup.s.serverID) <= 64
    requires forall i | 0 <= i < |setup.s.authKeys| :: ByteLen(setup.s.authKeys[i].id) <= 64
    requires e.Receive? && e.nonce.Some? && ByteLen(e.nonce.value) == 43
    requires PacketSize.Int64(e.storeTime + CHALLENGE_TTL)
    requires Reply(setup, s, e).Some?
    ensures PacketSize.EnvelopeSize(Reply(setup, s, e).value.env) <= 4096
    ensures ValidEnvelope(Reply(setup, s, e).value.env)
  {
    var v := Classify(setup, e.packet, e.keyTime, e.checkTime);
    var challenge := IssuedChallenge(v.req, e.nonce.value, e.storeTime);
    AuthRuns.ClassifiedKeyInUse(setup, e.packet, e.keyTime, e.checkTime);
    FieldLimit(v.req.clientID);
    FieldLimit(v.req.clientNonce);
    PacketSize.ChallengeFits(challenge);
    PacketSize.EnvelopeFits(Reply(setup, s, e).value.env, PacketSize.ChallengeSize(challenge));
  }

  /** Both packets of a client whose configuration was accepted and whose token has at most 128
      bytes fit the server's read buffer. */
  lemma ClientPacketsFit(server: ServerEntry, req: ChallengeRequest, resp: ChallengeResponse)
    requires ByteLen(server.keyID) <= 64 && ByteLen(server.serverID) <= 64
    requires req.msgType == CHALLENGE_REQUEST && resp.msgType == CHALLENGE_RESPONSE
    requires req.serverID == resp.serverID == server.serverID
    requires ByteLen(req.clientID) <= 64 && ByteLen(resp.clientID) <= 64
    requires ByteLen(req.clientNonce) == ByteLen(resp.clientNonce) == ByteLen(resp.serverNonce) == 43
    requires ByteLen(resp.token) <= 128
    requires PacketSize.Int64(req.timestamp) && PacketSize.Int64(resp.timestamp)
    ensures RequestPacket(server, req).Some? ==> PacketSize.EnvelopeSize(RequestPacket(server, req).value.env) <= 4096
    ensures ResponsePacket(server, resp).Some? ==> PacketSize.EnvelopeSize(ResponsePacket(server, resp).value.env) <= 4096
  {
    PacketSize.RequestFits(req);
    PacketSize.ResponseFits(resp);
    if RequestPacket(server, req).Some? {
      PacketSize.EnvelopeFits(RequestPacket(server, req).value.env, PacketSize.RequestSize(req));
    }
    if ResponsePacket(server, resp).Some? {
      PacketSize.EnvelopeFits(ResponsePacket(server, resp).value.env, PacketSize.ResponseSize(resp));
    }
  }

  // ----- configuration -----

  /** A configuration that passed `CheckValid` meets every assumption the run-time theorems make
      about configurations. */
  lemma CheckedConfigurationSuffices(p: Settings.Platform, s: Settings.Server, now: Instant, limits: PC.Limits, maxClients: int)
    requires ConfigChecked.Standard(p)
    requires Settings.Accepted(p, s, now)
    ensures var setup := Setup(p, Settings.Checked(p, s), limits, maxClients);
            && Ready(setup) && ColonFreeIDs(setup)
            && Settings.UniqueIDs(setup.s.authKeys)
            && ByteLen(setup.s.serverID) <= 64
            && forall i | 0 <= i < |setup.s.authKeys| :: ByteLen(setup.s.authKeys[i].id) <= 64
  {
    ConfigChecked.CheckValidEstablishesRuntime(p, s, now);
    var t := Settings.Checked(p, s);
    forall i | 0 <= i < |t.forwards| ensures Settings.Defaulted(t.forwards[i]) {
      assert ConfigChecked.ForwardReady(p, t, t.forwards[i]);
    }
    Settings.IdentifierColonFree(p, t.serverID);
    forall i | 0 <= i < |t.authKeys| ensures ColonFree(t.authKeys[i].id) && ByteLen(t.authKeys[i].id) <= 64 {
      assert Settings.ValidIdentifier(p, t.authKeys[i].id);
      Settings.IdentifierColonFree(p, t.authKeys[i].id);
    }
  }

  // ----- roles -----

  /** No message is accepted in another role: the server takes requests and responses for what
      they are and ignores challenges, and the client opens nothing but challenges. */
  lemma RolesSeparate(setup: Setup, packet: Packet, keyTime: Instant, checkTime: Instant, server: ServerEntry, openTime: Instant,
                      req: ChallengeRequest, ch: Challenge, resp: ChallengeResponse)
    requires req.msgType == CHALLENGE_REQUEST && ch.msgType == CHALLENGE && resp.msgType == CHALLENGE_RESPONSE
    requires packet.Packet? && packet.env.payload.Cipher?
    ensures packet.env.payload.plain == Json(RequestBody(req)) ==>
              !Classify(setup, packet, keyTime, checkTime).Answer? && OpenChallenge(server, packet, openTime).None?
    ensures packet.env.payload.plain == Json(ChallengeBody(ch)) ==> Classify(setup, packet, keyTime, checkTime) == Ignored
    ensures packet.env.payload.plain == Json(ResponseBody(resp)) ==>
              !Classify(setup, packet, keyTime, checkTime).Ask? && OpenChallenge(server, packet, openTime).None?
  {
  }

  // ----- forwarding -----

  /** All keys the server is configured with are secret. */
  ghost predicate KeysSecret(setup: Setup, secrets: set<string>) {
    forall i | 0 <= i < |setup.s.authKeys| :: setup.s.authKeys[i].key in secrets
  }

  lemma {:induction false} LookupIsConfigured(p: Settings.Platform, keys: seq<Settings.AuthKey>, id: string, now: Instant)
    requires Settings.AuthKeyByID(p, keys, id, now).Some?
    ensures exists i | 0 <= i < |keys| :: keys[i].key == Settings.AuthKeyByID(p, keys, id, now).value
  {
    if keys[0].id != id {
      LookupIsConfigured(p, keys[1..], id, now);
      var i :| 0 <= i < |keys[1..]| && keys[1..][i].key == Settings.AuthKeyByID(p, keys, id, now).value;
      assert keys[i + 1].key == keys[1..][i].key;
    }
  }

  lemma RedeemedUnderSecret(setup: ReadySetup, secrets: set<string>, es: seq<Event>, c: int, ip: string, keyID: string, resp: ChallengeResponse)
    requires KeysSecret(setup, secrets)
    requires AuthRuns.Redeems(setup, es, c, ip, keyID, resp)
    ensures es[c].packet.env.payload.key in secrets
  {
    LookupIsConfigured(setup.p, setup.s.authKeys, es[c].packet.env.keyID, es[c].keyTime);
  }

  /** Session `x` let this connection in: it ran the exchange behind the authorization in whose
      window the connection's address passed its accept check. */
  ghost predicate LetInBy(setup: ReadySetup, es: seq<Event>, f: int, conn: Fwd.Conn, x: Session) {
    exists a, g, keyID, resp, d, j ::
      ForwardSafety.TokenAdmission(setup, es, a, g, f, conn, keyID, resp, d, j) && RanBy(setup, es, x, keyID, resp, j)
  }

  /** A connection no static rule allows has a token admission. */
  lemma ConnectionHasTokenAdmission(setup: ReadySetup, es: seq<Event>, t: Instant, f: int, c: int)
    requires ForwardSafety.ClocksUpTo(es, t)
    requires 0 <= f < |Run(setup, es).ports| && 0 <= c < |Run(setup, es).ports[f].conns|
    requires !StaticallyAllowed(setup, f, Run(setup, es).ports[f].conns[c].ip)
    ensures exists a, g, keyID, resp, d, j :: ForwardSafety.TokenAdmission(setup, es, a, g, f, Run(setup, es).ports[f].conns[c], keyID, resp, d, j)
  {
    var conn := Run(setup, es).ports[f].conns[c];
    ForwardSafety.ConnectionsJustified(setup, es, t, f, c);
    var a :| ForwardSafety.Justified(setup, es, a, f, conn);
    assert exists g, keyID, resp, d, j :: ForwardSafety.TokenAdmission(setup, es, a, g, f, conn, keyID, resp, d, j);
  }

  lemma AdmissionHasSession(setup: ReadySetup, secrets: set<string>, evs: seq<NetEvent>, a: int, g: int, f: int, conn: Fwd.Conn,
                            keyID: string, resp: ChallengeResponse, d: int, j: int)
    requires ColonFreeIDs(setup) && KeysSecret(setup, secrets) && Possible(setup, secrets, evs)
    requires AuthRuns.FreshServerNonces(ServerEvents(evs))
    requires ForwardSafety.TokenAdmission(setup, ServerEvents(evs), a, g, f, conn, keyID, resp, d, j)
    ensures exists r :: 0 <= r < |NetRun(setup, evs).sessions|
              && RanBy(setup, ServerEvents(evs), NetRun(setup, evs).sessions[r], keyID, resp, j)
  {
    var es := ServerEvents(evs);
    AuthRuns.ProvenanceRedeems(setup, es, a, g, f, conn.ip, keyID, resp, d, j);
    AuthRuns.NonceNamesChallenge(setup, es, d, conn.ip, keyID, resp, j);
    RedeemedUnderSecret(setup, secrets, es, d, conn.ip, keyID, resp);
    RedemptionAgreement(setup, secrets, evs, d, conn.ip, keyID, resp);
  }

  /** End to end, with the network: every connection that no static rule allows was let in by one
      session. That session asked, was challenged and answered; its response was redeemed for the
      connection's own address and forward, and the connection's accept check fell inside the
      window this opened. */
  lemma TokenConnectionHasSession(setup: ReadySetup, secrets: set<string>, evs: seq<NetEvent>, t: Instant, f: int, c: int)
    requires ColonFreeIDs(setup) && KeysSecret(setup, secrets) && Possible(setup, secrets, evs)
    requires AuthRuns.FreshServerNonces(ServerEvents(evs)) && ForwardSafety.ClocksUpTo(ServerEvents(evs), t)
    requires 0 <= f < |NetRun(setup, evs).server.ports| && 0 <= c < |NetRun(setup, evs).server.ports[f].conns|
    requires !StaticallyAllowed(setup, f, NetRun(setup, evs).server.ports[f].conns[c].ip)
    ensures exists r :: 0 <= r < |NetRun(setup, evs).sessions|
              && LetInBy(setup, ServerEvents(evs), f, NetRun(setup, evs).server.ports[f].conns[c], NetRun(setup, evs).sessions[r])
  {
    ServerInNetwork(setup, evs);
    var es := ServerEvents(evs);
    var conn := Run(setup, es).ports[f].conns[c];
    ConnectionHasTokenAdmission(setup, es, t, f, c);
    var a, g, keyID, resp, d, j :| ForwardSafety.TokenAdmission(setup, es, a, g, f, conn, keyID, resp, d, j);
    AdmissionHasSession(setup, secrets, evs, a, g, f, conn, keyID, resp, d, j);
    var r :| 0 <= r < |NetRun(setup, evs).sessions| && RanBy(setup, es, NetRun(setup, evs).sessions[r], keyID, resp, j);
    assert LetInBy(setup, es, f, conn, NetRun(setup, evs).sessions[r]);
  }
}
