/** Completeness: an honest client with a clock up to 15 s off, whose exchange takes up to 14 s,
    ends up authorized, whatever else the server does in between. */
module HonestRun {
  import opened Basics
  import opened AuthProto
  import opened PacketSize
  import opened AuthServer
  import opened AuthClient
  import Settings
  import PC = PendingChallenges
  import AC = AuthorizedClients
  import AuthRuns
  import ForwardSafety
  import Verdicts

  /** One exchange. Times are on the server's clock; the client's clock reads `offset` more.
      The server reads its clock at key lookup, validation and store access of each packet. */
  datatype Exchange = Exchange(
    server: ServerEntry, ip: string, clientID: string, port: Uint16, token: string,
    clientNonce: string, serverNonce: string, offset: int,
    sentAt: Instant, key1: Instant, check1: Instant, store1: Instant,
    openedAt: Instant, respondedAt: Instant, key2: Instant, check2: Instant, store2: Instant)

  function Request(h: Exchange): ChallengeRequest {
    RequestOf(h.server, h.clientID, h.port, h.clientNonce, h.sentAt + h.offset)
  }

  function IssuedTo(h: Exchange): Challenge {
    IssuedChallenge(Request(h), h.serverNonce, h.store1)
  }

  function Response(h: Exchange): ChallengeResponse {
    ResponseOf(h.server, h.clientID, h.port, h.clientNonce, h.token, h.serverNonce, h.respondedAt + h.offset)
  }

  function KeyOf(h: Exchange): PC.PendingKey {
    RequestKey(h.ip, h.server.keyID, Request(h), h.serverNonce)
  }

  ghost predicate Identifier(value: string) { value != "" && ByteLen(value) <= 64 }

  ghost predicate NonceText(value: string) { value != "" && ByteLen(value) == 43 }

  /** The client's configuration names this server, a port and a secret; clock readings fit Go's 64
      bits. Nothing is said about the client's id, its nonce and its token. */
  ghost predicate Addressed(setup: Setup, h: Exchange) {
    && h.server.serverID == setup.s.serverID && h.server.key != ""
    && Identifier(h.server.serverID) && Identifier(h.server.keyID) && h.port != 0
    && Int64(h.sentAt + h.offset) && Int64(h.store1 + 30 * SECOND) && Int64(h.respondedAt + h.offset)
  }

  /** The client's configuration was accepted, and nonces have 43 bytes. */
  ghost predicate WellFormedButToken(setup: Setup, h: Exchange) {
    Addressed(setup, h) && Identifier(h.clientID) && NonceText(h.clientNonce) && NonceText(h.serverNonce)
  }

  /** ... and the token has 1 to 128 bytes. */
  ghost predicate WellFormed(setup: Setup, h: Exchange) {
    WellFormedButToken(setup, h) && 1 <= ByteLen(h.token) <= 128
  }

  ghost predicate KeyActive(setup: Setup, h: Exchange) {
    && Settings.AuthKeyByID(setup.p, setup.s.authKeys, h.server.keyID, h.key1) == Some(h.server.key)
    && Settings.AuthKeyByID(setup.p, setup.s.authKeys, h.server.keyID, h.key2) == Some(h.server.key)
  }

  ghost predicate Timely(h: Exchange) {
    && -15 * SECOND <= h.offset <= 15 * SECOND
    && h.sentAt <= h.check1 <= h.store1 <= h.openedAt <= h.respondedAt <= h.check2 <= h.store2
    && h.store2 <= h.sentAt + 14 * SECOND
  }

  // ----- each check passes exactly when its clock condition holds -----

  ghost function RequestSent(h: Exchange): Option<Packet> { RequestPacket(h.server, Request(h)) }

  ghost function ChallengeSent(h: Exchange): Option<Packet> {
    SealedChallenge(h.server.serverID, h.server.keyID, h.server.key, IssuedTo(h))
  }

  ghost function ResponseSent(h: Exchange): Option<Packet> { ResponsePacket(h.server, Response(h)) }

  /** A packet the client sealed for this server is judged by its body alone. */
  lemma SealedIsJudgedByBody(setup: Setup, server: ServerEntry, body: Body, bodySize: nat, keyTime: Instant, checkTime: Instant)
    requires server.serverID == setup.s.serverID && server.key != ""
    requires Identifier(server.serverID) && Identifier(server.keyID) && bodySize <= 2360
    requires Settings.AuthKeyByID(setup.p, setup.s.authKeys, server.keyID, keyTime) == Some(server.key)
    ensures SealedPacket(server, body, bodySize).Some?
    ensures Classify(setup, SealedPacket(server, body, bodySize).value, keyTime, checkTime)
            == ClassifyBody(setup, server.keyID, server.key, body, checkTime)
  {
    EnvelopeFits(SealedPacket(server, body, bodySize).value.env, bodySize);
  }

  /** A packet too large for the payload limit is ignored whatever its body says. */
  lemma JudgedByBodyOrIgnored(setup: Setup, server: ServerEntry, body: Body, bodySize: nat, keyTime: Instant, checkTime: Instant)
    requires server.serverID == setup.s.serverID && server.key != ""
    requires SealedPacket(server, body, bodySize).Some?
    requires Settings.AuthKeyByID(setup.p, setup.s.authKeys, server.keyID, keyTime) == Some(server.key)
    ensures var v := Classify(setup, SealedPacket(server, body, bodySize).value, keyTime, checkTime);
            v == Ignored || v == ClassifyBody(setup, server.keyID, server.key, body, checkTime)
  {
  }

  lemma IdentifierBytes(value: string)
    requires Identifier(value) || NonceText(value)
    ensures 1 <= ByteLen(value) <= 128
  {
  }

  /** At any length of the client's id and nonce: the server takes a request exactly if both have 1 to
      128 bytes and its truncated timestamp is in the window. */
  lemma RequestAcceptedIff(setup: Setup, h: Exchange)
    requires Addressed(setup, h) && KeyActive(setup, h)
    ensures RequestSent(h).Some?
    ensures Classify(setup, RequestSent(h).value, h.key1, h.check1) ==
            if 1 <= ByteLen(h.clientID) <= 128 && 1 <= ByteLen(h.clientNonce) <= 128
               && UnixUp(h.check1) - 60 <= Unix(h.sentAt + h.offset) <= Unix(h.check1) + 15
            then Ask(h.server.keyID, h.server.key, Request(h)) else Ignored
  {
    IdentifierBytes(h.server.serverID);
    IdentifierBytes(h.server.keyID);
    SealIff(h.server.key, Context(h.server.keyID, h.server.serverID), RequestBody(Request(h)), RequestSize(Request(h)));
    Verdicts.BodyVerdict(setup, h.server.keyID, h.server.key, RequestBody(Request(h)), h.check1);
    Verdicts.TypesFit();
    if ByteLen(h.clientID) <= 128 && ByteLen(h.clientNonce) <= 128 {
      RequestFits(Request(h));
      SealedIsJudgedByBody(setup, h.server, RequestBody(Request(h)), RequestSize(Request(h)), h.key1, h.check1);
    } else {
      JudgedByBodyOrIgnored(setup, h.server, RequestBody(Request(h)), RequestSize(Request(h)), h.key1, h.check1);
    }
  }

  /** The client opens what the server sealed for it, if its type, deadline and nonce pass. */
  lemma SealedChallengeOpens(server: ServerEntry, challenge: Challenge, now: Instant)
    requires server.key != "" && Identifier(server.serverID) && Identifier(server.keyID)
    requires challenge.msgType == CHALLENGE && challenge.serverNonce != "" && ChallengeSize(challenge) <= 2360
    ensures SealedChallenge(server.serverID, server.keyID, server.key, challenge).Some?
    ensures OpenChallenge(server, SealedChallenge(server.serverID, server.keyID, server.key, challenge).value, now)
            == if Unix(now) < challenge.expiresAt then Some(challenge) else None
  {
    var sealed := SealedChallenge(server.serverID, server.keyID, server.key, challenge);
    EnvelopeFits(sealed.value.env, ChallengeSize(challenge));
    assert AsChallenge(ChallengeBody(challenge)) == challenge;
  }

  /** The client accepts its challenge exactly while its own clock, in whole seconds, is before
      the truncated deadline. */
  lemma ChallengeAcceptedIff(setup: Setup, h: Exchange)
    requires WellFormed(setup, h)
    ensures ChallengeSent(h).Some?
    ensures OpenChallenge(h.server, ChallengeSent(h).value, h.openedAt + h.offset) ==
            if Unix(h.openedAt + h.offset) < Unix(h.store1 + 30 * SECOND) then Some(IssuedTo(h)) else None
  {
    IdentifierBytes(h.clientID);
    IdentifierBytes(h.clientNonce);
    ChallengeFits(IssuedTo(h));
    SealedChallengeOpens(h.server, IssuedTo(h), h.openedAt + h.offset);
  }

  /** At any length of the token: the server takes a response exactly if the token has 1 to 128
      bytes and the truncated timestamp is in the window. */
  lemma ResponseAcceptedIff(setup: Setup, h: Exchange)
    requires WellFormedButToken(setup, h) && KeyActive(setup, h)
    ensures ResponseSent(h).Some?
    ensures Classify(setup, ResponseSent(h).value, h.key2, h.check2) ==
            if 1 <= ByteLen(h.token) <= 128 && UnixUp(h.check2) - 60 <= Unix(h.respondedAt + h.offset) <= Unix(h.check2) + 15
            then Answer(h.server.keyID, Response(h)) else Ignored
  {
    IdentifierBytes(h.server.serverID);
    IdentifierBytes(h.server.keyID);
    IdentifierBytes(h.clientID);
    IdentifierBytes(h.clientNonce);
    IdentifierBytes(h.serverNonce);
    SealIff(h.server.key, Context(h.server.keyID, h.server.serverID), ResponseBody(Response(h)), ResponseSize(Response(h)));
    Verdicts.BodyVerdict(setup, h.server.keyID, h.server.key, ResponseBody(Response(h)), h.check2);
    Verdicts.TypesFit();
    if ByteLen(h.token) <= 128 {
      ResponseFits(Response(h));
      SealedIsJudgedByBody(setup, h.server, ResponseBody(Response(h)), ResponseSize(Response(h)), h.key2, h.check2);
    } else {
      JudgedByBodyOrIgnored(setup, h.server, ResponseBody(Response(h)), ResponseSize(Response(h)), h.key2, h.check2);
    }
  }

  /** Within the bounds every clock condition holds, despite truncation on both sides. */
  lemma ClocksPass(h: Exchange)
    requires Timely(h)
    ensures UnixUp(h.check1) - 60 <= Unix(h.sentAt + h.offset) <= Unix(h.check1) + 15
    ensures Unix(h.openedAt + h.offset) < Unix(h.store1 + 30 * SECOND)
    ensures UnixUp(h.check2) - 60 <= Unix(h.respondedAt + h.offset) <= Unix(h.check2) + 15
    ensures h.store2 < h.store1 + 30 * SECOND
  {
    TruncatedTimestampAllowed(h.sentAt + h.offset, h.check1);
    TruncatedTimestampAllowed(h.respondedAt + h.offset, h.check2);
    TimestampWindowInSeconds(Unix(h.sentAt + h.offset), h.check1);
    TimestampWindowInSeconds(Unix(h.respondedAt + h.offset), h.check2);
    assert h.openedAt + h.offset + SECOND <= h.store1 + 30 * SECOND;
    assert Unix(h.openedAt + h.offset + SECOND) == Unix(h.openedAt + h.offset) + 1;
    assert Unix(h.openedAt + h.offset + SECOND) <= Unix(h.store1 + 30 * SECOND);
  }

  /** The bounds are tight together: a clock 15 s ahead and 15 s until the client opens its
      challenge always fail, however well everything else goes. */
  lemma FifteenSecondsFail(setup: Setup, h: Exchange)
    requires WellFormed(setup, h)
    requires h.offset == 15 * SECOND && h.openedAt >= h.store1 + 15 * SECOND
    ensures Reaction(h.server, h.clientID, h.port, h.token, h.clientNonce, ChallengeSent(h), h.openedAt + h.offset, h.respondedAt + h.offset) == None
  {
    ChallengeAcceptedIff(setup, h);
    assert Unix(h.store1 + 30 * SECOND) <= Unix(h.openedAt + h.offset);
  }

  // ----- the run -----

  ghost function AskEvent(h: Exchange): Event
    requires RequestSent(h).Some?
  {
    Receive(h.ip, RequestSent(h).value, h.key1, h.check1, h.store1, Some(h.serverNonce))
  }

  ghost function AnswerEvent(h: Exchange): Event
    requires ResponseSent(h).Some?
  {
    Receive(h.ip, ResponseSent(h).value, h.key2, h.check2, h.store2, None)
  }

  /** Events between the request and the response: anything, except that nobody else redeems this
      very challenge and cleanups do not run ahead of the clock. */
  ghost predicate Between(setup: Setup, h: Exchange, e: Event) {
    && (e.CleanupPending? ==> e.now <= h.store2)
    && (e.Receive? ==>
          var v := Classify(setup, e.packet, e.keyTime, e.checkTime);
          v.Answer? ==> ResponseKey(e.ip, v.keyID, v.resp) != KeyOf(h))
  }

  ghost function RunFrom(setup: ReadySetup, s: State, es: seq<Event>): State {
    if es == [] then s else Step(setup, RunFrom(setup, s, es[..|es| - 1]), es[|es| - 1])
  }

  lemma {:induction false} PendingSurvives(setup: ReadySetup, h: Exchange, s: State, mid: seq<Event>, expiresAt: Instant)
    requires KeyOf(h) in s.items && s.items[KeyOf(h)] == expiresAt && h.store2 < expiresAt
    requires forall i | 0 <= i < |mid| :: Between(setup, h, mid[i])
    ensures KeyOf(h) in RunFrom(setup, s, mid).items && RunFrom(setup, s, mid).items[KeyOf(h)] == expiresAt
  {
    if mid != [] {
      PendingSurvives(setup, h, s, mid[..|mid| - 1], expiresAt);
    }
  }

  /** Until the handler authorizes it does nothing else. */
  lemma {:induction false} HandlerHolds(setup: ReadySetup, s: State, gap: seq<Event>)
    requires s.handler.Authorizing?
    requires forall i | 0 <= i < |gap| :: !gap[i].Authorize?
    ensures RunFrom(setup, s, gap).handler == s.handler
  {
    if gap != [] {
      HandlerHolds(setup, s, gap[..|gap| - 1]);
    }
  }

  lemma {:induction false} RunFromShape(setup: ReadySetup, s: State, es: seq<Event>)
    ensures |RunFrom(setup, s, es).lists| == |s.lists|
  {
    if es != [] { RunFromShape(setup, s, es[..|es| - 1]); }
  }

  /** The server's side of an honest exchange, from its state `s0` when the request arrives. */
  ghost predicate Hosts(setup: ReadySetup, h: Exchange, s0: State, mid: seq<Event>, gap: seq<Event>) {
    && s0.handler == Waiting
    && PC.HasRoom(setup.pendingLimits, s0.items, h.ip) && KeyOf(h) !in s0.items
    && (forall i | 0 <= i < |mid| :: Between(setup, h, mid[i]))
    && (forall i | 0 <= i < |gap| :: !gap[i].Authorize?)
  }

  /** Step one: the request is answered with the challenge, and the challenge is pending. */
  lemma RequestStep(setup: ReadySetup, h: Exchange, s0: State)
    requires WellFormed(setup, h) && KeyActive(setup, h) && Timely(h)
    requires Hosts(setup, h, s0, [], [])
    ensures RequestSent(h).Some? && Reply(setup, s0, AskEvent(h)) == ChallengeSent(h)
    ensures var s1 := Step(setup, s0, AskEvent(h));
            KeyOf(h) in s1.items && s1.items[KeyOf(h)] == h.store1 + 30 * SECOND
  {
    RequestAcceptedIff(setup, h);
    ClocksPass(h);
  }

  lemma ReactsToIssued(h: Exchange, packet: Packet)
    requires OpenChallenge(h.server, packet, h.openedAt + h.offset) == Some(IssuedTo(h))
    ensures Reaction(h.server, h.clientID, h.port, h.token, h.clientNonce, Some(packet), h.openedAt + h.offset, h.respondedAt + h.offset)
            == ResponsePacket(h.server, Response(h))
  {
    var challenge := IssuedTo(h);
    assert challenge.serverNonce == h.serverNonce && BoundTo(challenge, h.server, h.clientID, h.port, h.clientNonce);
    ReactionToBound(h.server, h.clientID, h.port, h.token, h.clientNonce, packet, h.openedAt + h.offset, h.respondedAt + h.offset,
                    challenge, Response(h));
  }

  /** Step two: the client answers that challenge. */
  lemma ClientStep(setup: Setup, h: Exchange)
    requires WellFormed(setup, h) && Timely(h)
    ensures Reaction(h.server, h.clientID, h.port, h.token, h.clientNonce, ChallengeSent(h), h.openedAt + h.offset, h.respondedAt + h.offset)
            == ResponseSent(h)
  {
    ChallengeAcceptedIff(setup, h);
    ClocksPass(h);
    ReactsToIssued(h, ChallengeSent(h).value);
  }

  /** Step three: the response redeems the challenge. */
  lemma ResponseStep(setup: ReadySetup, h: Exchange, s2: State)
    requires WellFormed(setup, h) && KeyActive(setup, h) && Timely(h)
    requires s2.handler == Waiting
    requires KeyOf(h) in s2.items && s2.items[KeyOf(h)] == h.store1 + 30 * SECOND
    ensures ResponseSent(h).Some?
    ensures Step(setup, s2, AnswerEvent(h)).handler == Authorizing(h.ip, h.server.keyID, Response(h))
  {
    ResponseAcceptedIff(setup, h);
    ClocksPass(h);
  }

  /** The server's states along the exchange: after the request and what follows it, and after the
      response and what follows it. */
  ghost function AtResponse(setup: ReadySetup, h: Exchange, s0: State, mid: seq<Event>): State
    requires RequestSent(h).Some?
  {
    RunFrom(setup, Step(setup, s0, AskEvent(h)), mid)
  }

  ghost function AtGrant(setup: ReadySetup, h: Exchange, s0: State, mid: seq<Event>, gap: seq<Event>): State
    requires RequestSent(h).Some? && ResponseSent(h).Some?
  {
    RunFrom(setup, Step(setup, AtResponse(setup, h, s0, mid), AnswerEvent(h)), gap)
  }

  lemma ReachesGrant(setup: ReadySetup, h: Exchange, s0: State, mid: seq<Event>, gap: seq<Event>)
    requires WellFormed(setup, h) && KeyActive(setup, h) && Timely(h)
    requires Hosts(setup, h, s0, mid, gap)
    requires RequestSent(h).Some? && ResponseSent(h).Some?
    requires AtResponse(setup, h, s0, mid).handler == Waiting
    ensures AtGrant(setup, h, s0, mid, gap).handler == Authorizing(h.ip, h.server.keyID, Response(h))
    ensures |AtGrant(setup, h, s0, mid, gap).lists| == |s0.lists|
  {
    var s1 := Step(setup, s0, AskEvent(h));
    RequestStep(setup, h, s0);
    ClocksPass(h);
    PendingSurvives(setup, h, s1, mid, h.store1 + 30 * SECOND);
    RunFromShape(setup, s1, mid);
    var s2 := AtResponse(setup, h, s0, mid);
    ResponseStep(setup, h, s2);
    var s3 := Step(setup, s2, AnswerEvent(h));
    HandlerHolds(setup, s3, gap);
    RunFromShape(setup, s3, gap);
  }

  /** If the list of forward `f` has room for the client (or a live entry), the authorization puts
      it on that list for a full window. */
  ghost predicate GrantLists(setup: ReadySetup, h: Exchange, s: State, f: nat, now: Instant) {
    var client := AC.ClientKey(h.ip, h.clientID);
    && f < |s.lists|
    && (!AC.Refused(setup.maxClients, s.lists[f], client, now) ==>
          var list := Step(setup, s, Authorize(now)).lists[f];
          client in list && list[client] == now + WindowOf(setup, f))
  }

  lemma GrantListsClient(setup: ReadySetup, h: Exchange, s: State, f: nat, now: Instant)
    requires f < |s.lists| && s.handler == Authorizing(h.ip, h.server.keyID, Response(h))
    requires Settings.SelectForward(setup.p, setup.s, h.port, h.token, 0) == Some(f)
    ensures GrantLists(setup, h, s, f, now)
  {
  }

  /** An honest exchange within the bounds, on a server with a free handler, room for a challenge
      and room (or a live entry) on the list, ends with the client on the list of its forward for
      a full window, whatever other events are interleaved. */
  lemma HonestExchangeAuthorizes(setup: ReadySetup, h: Exchange, s0: State, mid: seq<Event>, gap: seq<Event>, f: nat, now: Instant)
    requires WellFormed(setup, h) && KeyActive(setup, h) && Timely(h)
    requires Hosts(setup, h, s0, mid, gap)
    requires |s0.lists| == |setup.s.forwards|
    requires Settings.SelectForward(setup.p, setup.s, h.port, h.token, 0) == Some(f)
    ensures RequestSent(h).Some? && ResponseSent(h).Some?
    ensures Reply(setup, s0, AskEvent(h)) == ChallengeSent(h)
    ensures Reaction(h.server, h.clientID, h.port, h.token, h.clientNonce, ChallengeSent(h), h.openedAt + h.offset, h.respondedAt + h.offset)
            == ResponseSent(h)
    ensures AtResponse(setup, h, s0, mid).handler == Waiting ==> GrantLists(setup, h, AtGrant(setup, h, s0, mid, gap), f, now)
  {
    RequestStep(setup, h, s0);
    ClientStep(setup, h);
    ResponseAcceptedIff(setup, h);
    if AtResponse(setup, h, s0, mid).handler == Waiting {
      ReachesGrant(setup, h, s0, mid, gap);
      GrantListsClient(setup, h, AtGrant(setup, h, s0, mid, gap), f, now);
    }
  }

  // ----- the honest exchange inside a run of the server -----

  lemma {:induction false} RunFromIsRun(setup: ReadySetup, before: seq<Event>, es: seq<Event>)
    ensures RunFrom(setup, Run(setup, before), es) == Run(setup, before + es)
  {
    if es == [] {
      assert before + es == before;
    } else {
      var n := |es| - 1;
      RunFromIsRun(setup, before, es[..n]);
      RunSnoc(setup, before + es[..n], es[n]);
      assert before + es[..n] + [es[n]] == before + es;
    }
  }

  /** The events of a run up to the moment the response arrives, and up to the grant. */
  ghost function ToResponse(h: Exchange, before: seq<Event>, mid: seq<Event>): seq<Event>
    requires RequestSent(h).Some?
  {
    before + [AskEvent(h)] + mid
  }

  ghost function ToGrant(h: Exchange, before: seq<Event>, mid: seq<Event>, gap: seq<Event>): seq<Event>
    requires RequestSent(h).Some? && ResponseSent(h).Some?
  {
    ToResponse(h, before, mid) + [AnswerEvent(h)] + gap
  }

  lemma StatesAlongRun(setup: ReadySetup, h: Exchange, before: seq<Event>, mid: seq<Event>, gap: seq<Event>)
    requires RequestSent(h).Some? && ResponseSent(h).Some?
    ensures Run(setup, ToResponse(h, before, mid)) == AtResponse(setup, h, Run(setup, before), mid)
    ensures Run(setup, ToGrant(h, before, mid, gap)) == AtGrant(setup, h, Run(setup, before), mid, gap)
  {
    RunSnoc(setup, before, AskEvent(h));
    RunFromIsRun(setup, before + [AskEvent(h)], mid);
    RunSnoc(setup, ToResponse(h, before, mid), AnswerEvent(h));
    RunFromIsRun(setup, ToResponse(h, before, mid) + [AnswerEvent(h)], gap);
  }

  /** An honest exchange, at any point of any run, ends in an authorization event. */
  lemma HonestExchangeInRun(setup: ReadySetup, h: Exchange, before: seq<Event>, mid: seq<Event>, gap: seq<Event>, f: nat, now: Instant)
    requires WellFormed(setup, h) && KeyActive(setup, h) && Timely(h)
    requires Hosts(setup, h, Run(setup, before), mid, gap)
    requires RequestSent(h).Some? && ResponseSent(h).Some?
    requires Run(setup, ToResponse(h, before, mid)).handler == Waiting
    requires Settings.SelectForward(setup.p, setup.s, h.port, h.token, 0) == Some(f)
    requires f < |Run(setup, ToGrant(h, before, mid, gap)).lists|
    requires !AC.Refused(setup.maxClients, Run(setup, ToGrant(h, before, mid, gap)).lists[f], AC.ClientKey(h.ip, h.clientID), now)
    ensures var es := ToGrant(h, before, mid, gap);
            AuthRuns.Authorizes(setup, es + [Authorize(now)], |es|, f, h.ip, h.server.keyID, Response(h))
  {
    var es := ToGrant(h, before, mid, gap);
    StatesAlongRun(setup, h, before, mid, gap);
    ReachesGrant(setup, h, Run(setup, before), mid, gap);
    assert (es + [Authorize(now)])[..|es|] == es;
  }

  /** ... and from then on, whatever else happens, connections from the client's address pass the
      accept check of that forward for the whole window, unless the address is denied. */
  lemma AuthorizedClientGetsThrough(setup: ReadySetup, es: seq<Event>, g: int, f: nat, ip: string, keyID: string, resp: ChallengeResponse,
                                    later: seq<Event>, t: Instant)
    requires AuthRuns.Authorizes(setup, es, g, f, ip, keyID, resp) && f < |setup.s.forwards|
    requires es[g].now <= t < es[g].now + WindowOf(setup, f)
    requires ForwardSafety.ClocksUpTo(es + later, t)
    ensures f < |Run(setup, es + later).lists|
    ensures AcceptCheck(setup, Run(setup, es + later).lists[f], f, ip, t) <==> !Denied(setup, ip)
  {
    var all := es + later;
    assert all[..g] == es[..g];
    assert AuthRuns.Authorizes(setup, all, g, f, ip, keyID, resp);
    assert ForwardSafety.TokenWindow(setup, all, f, ip, t);
    ForwardSafety.AcceptCheckIsExact(setup, all, f, ip, t);
  }
}
