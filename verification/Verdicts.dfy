/** What the server accepts, in plain numbers: exactly which packets it takes for requests and for
    responses. */
module Verdicts {
  import opened Basics
  import opened AuthProto
  import opened AuthServer
  import opened AuthClient
  import Settings

  /** Of 1 to 128 bytes. */
  predicate Fits(value: string) { 1 <= ByteLen(value) <= 128 }

  /** From 60 s before now, rounded up, to 15 s after it, rounded down. */
  predicate InWindow(timestamp: int, now: Instant) { UnixUp(now) - 60 <= timestamp <= Unix(now) + 15 }

  predicate GoodRequest(setup: Setup, b: Body, now: Instant) {
    && b.msgType == "challenge_request" && b.serverID == setup.s.serverID && Fits(b.serverID)
    && Fits(b.clientID) && Fits(b.clientNonce) && 1 <= b.port && InWindow(b.timestamp, now)
  }

  predicate GoodResponse(b: Body, now: Instant) {
    && b.msgType == "challenge_response" && Fits(b.serverID)
    && Fits(b.clientID) && Fits(b.clientNonce) && Fits(b.serverNonce) && Fits(b.token)
    && 1 <= b.port && InWindow(b.timestamp, now)
  }

  lemma BaseLimits(msgType: string, serverID: string, clientID: string, port: Uint16, ts: int, now: Instant)
    ensures ValidBase(msgType, serverID, clientID, port, ts, now) <==>
            Fits(msgType) && Fits(serverID) && Fits(clientID) && 1 <= port && InWindow(ts, now)
  {
    FieldLimit(msgType);
    FieldLimit(serverID);
    FieldLimit(clientID);
    TimestampWindowInSeconds(ts, now);
  }

  lemma TypesFit()
    ensures Fits("challenge_request") && Fits("challenge_response") && "challenge_request" != "challenge_response"
  {
    AsciiByteLen("challenge_request");
    AsciiByteLen("challenge_response");
    assert |"challenge_request"| == 17 && |"challenge_response"| == 18;
  }

  /** What a decrypted body is taken for: a request or a response exactly if every field is within
      its limits, and then with the fields it has. */
  lemma BodyVerdict(setup: Setup, keyID: string, key: string, b: Body, now: Instant)
    ensures ClassifyBody(setup, keyID, key, b, now) ==
            if GoodRequest(setup, b, now) then
              Ask(keyID, key, ChallengeRequest(b.msgType, b.serverID, b.clientID, b.port, b.clientNonce, b.timestamp))
            else if GoodResponse(b, now) then
              Answer(keyID, ChallengeResponse(b.msgType, b.serverID, b.clientID, b.port, b.clientNonce, b.serverNonce, b.token, b.timestamp))
            else Ignored
  {
    TypesFit();
    BaseLimits(b.msgType, b.serverID, b.clientID, b.port, b.timestamp, now);
    FieldLimit(b.clientNonce);
    FieldLimit(b.serverNonce);
    FieldLimit(b.token);
  }

  /** The packet is an envelope of this server with at most 4096 bytes of payload, sealed for the key
      id and server id it names, under the secret of a configured key that is active. */
  ghost predicate SealedForServer(setup: Setup, packet: Packet, keyTime: Instant, key: string, body: Body) {
    && packet.Packet? && Fits(packet.env.keyID) && Fits(packet.env.serverID) && packet.env.serverID == setup.s.serverID
    && (exists i | 0 <= i < |setup.s.authKeys| ::
          setup.s.authKeys[i].id == packet.env.keyID && setup.s.authKeys[i].key == key && Settings.KeyActive(setup.p, setup.s.authKeys[i], keyTime))
    && key != "" && packet.env.payload.Cipher? && 1 <= packet.env.payload.size <= 4096
    && packet.env.payload.key == key && packet.env.payload.plain == Json(body)
    && packet.env.payload.aad == "connauth:challenge-auth" + ":" + packet.env.keyID + ":" + packet.env.serverID
  }

  /** Every packet that is not sealed like that is ignored ... */
  lemma UnsealedIsIgnored(setup: Setup, packet: Packet, keyTime: Instant, checkTime: Instant)
    requires Settings.UniqueIDs(setup.s.authKeys)
    requires forall key, body :: !SealedForServer(setup, packet, keyTime, key, body)
    ensures Classify(setup, packet, keyTime, checkTime) == Ignored
  {
    if !Classify(setup, packet, keyTime, checkTime).Ignored? {
      var env := packet.env;
      var key := Settings.AuthKeyByID(setup.p, setup.s.authKeys, env.keyID, keyTime);
      FieldLimit(env.keyID);
      FieldLimit(env.serverID);
      Settings.LookupIsExact(setup.p, setup.s.authKeys, env.keyID, keyTime, key.value);
      assert SealedForServer(setup, packet, keyTime, key.value, env.payload.plain.body);
      assert false;
    }
  }

  /** ... and every other one is judged by its body alone. */
  lemma SealedIsJudged(setup: Setup, packet: Packet, keyTime: Instant, checkTime: Instant, key: string, body: Body)
    requires Settings.UniqueIDs(setup.s.authKeys)
    requires SealedForServer(setup, packet, keyTime, key, body)
    ensures Classify(setup, packet, keyTime, checkTime) == ClassifyBody(setup, packet.env.keyID, key, body, checkTime)
  {
    var env := packet.env;
    FieldLimit(env.keyID);
    FieldLimit(env.serverID);
    Settings.LookupIsExact(setup.p, setup.s.authKeys, env.keyID, keyTime, key);
  }

  /** Exactly which packets are requests, and which are responses. */
  lemma PacketVerdict(setup: Setup, packet: Packet, keyTime: Instant, checkTime: Instant)
    requires Settings.UniqueIDs(setup.s.authKeys)
    ensures Classify(setup, packet, keyTime, checkTime).Ask? <==>
            exists key, body :: SealedForServer(setup, packet, keyTime, key, body) && GoodRequest(setup, body, checkTime)
    ensures Classify(setup, packet, keyTime, checkTime).Answer? <==>
            exists key, body :: SealedForServer(setup, packet, keyTime, key, body) && GoodResponse(body, checkTime)
  {
    TypesFit();
    if key, body :| SealedForServer(setup, packet, keyTime, key, body) {
      SealedIsJudged(setup, packet, keyTime, checkTime, key, body);
      BodyVerdict(setup, packet.env.keyID, key, body, checkTime);
    } else {
      UnsealedIsIgnored(setup, packet, keyTime, checkTime);
    }
  }

  // ----- the client -----

  /** The packet is an envelope for this exchange's key id and server id, sealed for them under the
      client's key, with at most 4096 bytes of payload. */
  predicate SealedForClient(server: ServerEntry, packet: Packet, body: Body) {
    && packet.Packet? && packet.env.keyID == server.keyID && packet.env.serverID == server.serverID
    && Fits(server.keyID) && Fits(server.serverID) && server.key != ""
    && packet.env.payload.Cipher? && 1 <= packet.env.payload.size <= 4096
    && packet.env.payload.key == server.key && packet.env.payload.plain == Json(body)
    && packet.env.payload.aad == "connauth:challenge-auth" + ":" + server.keyID + ":" + server.serverID
  }

  /** Exactly which packets the client takes for a challenge, and what it reads from them. */
  lemma ChallengeVerdict(server: ServerEntry, packet: Packet, now: Instant, c: Challenge)
    ensures OpenChallenge(server, packet, now) == Some(c) <==>
            exists body :: && SealedForClient(server, packet, body)
                           && body.msgType == "challenge" && Unix(now) < body.expiresAt && body.serverNonce != ""
                           && c == Challenge(body.msgType, body.serverID, body.clientID, body.port, body.clientNonce, body.serverNonce, body.expiresAt)
  {
    FieldLimit(server.keyID);
    FieldLimit(server.serverID);
    if OpenChallenge(server, packet, now) == Some(c) {
      OpenedChallenge(server, packet, now);
      assert SealedForClient(server, packet, packet.env.payload.plain.body);
    }
  }
}
