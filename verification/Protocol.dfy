/** The wire protocol: message records, their validation, and authenticated encryption as
    symbolic terms. Clock readings are arguments, in nanoseconds. */
module AuthProto {
  import opened Basics

  const CHALLENGE_REQUEST := "challenge_request"
  const CHALLENGE := "challenge"
  const CHALLENGE_RESPONSE := "challenge_response"

  const MAX_PAST_SKEW: int := 60 * SECOND
  const MAX_FUTURE_SKEW: int := 15 * SECOND
  const CHALLENGE_TTL: int := 30 * SECOND
  const MAX_PACKET_SIZE: int := 4096
  const MAX_FIELD_SIZE: int := 128

  datatype Context = Context(keyID: string, serverID: string)

  datatype ChallengeRequest = ChallengeRequest(
    msgType: string, serverID: string, clientID: string, port: Uint16,
    clientNonce: string, timestamp: int)

  datatype Challenge = Challenge(
    msgType: string, serverID: string, clientID: string, port: Uint16,
    clientNonce: string, serverNonce: string, expiresAt: int)

  datatype ChallengeResponse = ChallengeResponse(
    msgType: string, serverID: string, clientID: string, port: Uint16,
    clientNonce: string, serverNonce: string, token: string, timestamp: int)

  // ----- JSON bodies -----

  /** A JSON object as the decoders see it: each reads its own fields, and a field the text
      lacks reads as Go's zero value. So any body can be decoded as any message. */
  datatype Body = Body(
    msgType: string, serverID: string, clientID: string, port: Uint16, clientNonce: string,
    serverNonce: string, token: string, timestamp: int, expiresAt: int)

  datatype Plain = Malformed | Json(body: Body)

  function RequestBody(m: ChallengeRequest): Body {
    Body(m.msgType, m.serverID, m.clientID, m.port, m.clientNonce, "", "", m.timestamp, 0)
  }

  function ChallengeBody(m: Challenge): Body {
    Body(m.msgType, m.serverID, m.clientID, m.port, m.clientNonce, m.serverNonce, "", 0, m.expiresAt)
  }

  function ResponseBody(m: ChallengeResponse): Body {
    Body(m.msgType, m.serverID, m.clientID, m.port, m.clientNonce, m.serverNonce, m.token, m.timestamp, 0)
  }

  function AsRequest(b: Body): ChallengeRequest {
    ChallengeRequest(b.msgType, b.serverID, b.clientID, b.port, b.clientNonce, b.timestamp)
  }

  function AsChallenge(b: Body): Challenge {
    Challenge(b.msgType, b.serverID, b.clientID, b.port, b.clientNonce, b.serverNonce, b.expiresAt)
  }

  function AsResponse(b: Body): ChallengeResponse {
    ChallengeResponse(b.msgType, b.serverID, b.clientID, b.port, b.clientNonce, b.serverNonce, b.token, b.timestamp)
  }

  // ----- validation -----

  predicate TimestampAllowed(ts: int, now: Instant) {
    var msgTime := ts * SECOND;
    !(msgTime < now - MAX_PAST_SKEW) && !(msgTime > now + MAX_FUTURE_SKEW)
  }

  predicate ValidField(value: string) {
    value != "" && ByteLen(value) <= MAX_FIELD_SIZE
  }

  predicate ValidBase(msgType: string, serverID: string, clientID: string, port: Uint16, ts: int, now: Instant) {
    && ValidField(msgType)
    && ValidField(serverID)
    && ValidField(clientID)
    && port != 0
    && TimestampAllowed(ts, now)
  }

  predicate ValidRequest(m: ChallengeRequest, now: Instant) {
    && ValidBase(m.msgType, m.serverID, m.clientID, m.port, m.timestamp, now)
    && m.msgType == CHALLENGE_REQUEST
    && ValidField(m.clientNonce)
  }

  predicate ValidResponse(m: ChallengeResponse, now: Instant) {
    && ValidBase(m.msgType, m.serverID, m.clientID, m.port, m.timestamp, now)
    && m.msgType == CHALLENGE_RESPONSE
    && ValidField(m.clientNonce)
    && ValidField(m.serverNonce)
    && ValidField(m.token)
  }

  /** In bytes: a field is accepted from 1 byte to 128. */
  lemma FieldLimit(value: string)
    ensures ValidField(value) <==> 1 <= ByteLen(value) <= 128
  {
    if value == "" { AsciiByteLen(value); }
  }

  /** The least number of whole seconds that is not before the instant. */
  function UnixUp(t: Instant): int { -Unix(-t) }

  /** In whole seconds: a timestamp is accepted exactly from 60 s before the receiver's time,
      rounded up, to 15 s after it, rounded down. */
  lemma TimestampWindowInSeconds(ts: int, now: Instant)
    ensures TimestampAllowed(ts, now) <==> UnixUp(now) - 60 <= ts <= Unix(now) + 15
  {
    assert Unix(now) * SECOND <= now < Unix(now) * SECOND + SECOND;
    assert UnixUp(now) * SECOND - SECOND < now <= UnixUp(now) * SECOND;
  }

  /** A reading that was truncated to whole seconds by its sender is accepted whenever the
      untruncated reading lies at most 59 s behind and 15 s ahead of the receiver. */
  lemma TruncatedTimestampAllowed(sent: Instant, now: Instant)
    requires now - 59 * SECOND <= sent <= now + 15 * SECOND
    ensures TimestampAllowed(Unix(sent), now)
  {
    assert Unix(sent) * SECOND <= sent < Unix(sent) * SECOND + SECOND;
  }

  // ----- authenticated encryption, symbolically -----

  /** `Cipher` is what `Seal` made: it opens only under the same key and additional data.
      `Noise` is any other byte string. `size` is the number of bytes. */
  datatype Payload =
    | Cipher(key: string, aad: string, plain: Plain, size: nat)
    | Noise(size: nat)

  datatype Envelope = Envelope(keyID: string, serverID: string, payload: Payload)

  /** A datagram: unparsable, or the JSON of an envelope. */
  datatype Packet = Unparsable | Packet(env: Envelope)

  predicate ValidEnvelope(e: Envelope) {
    && ValidField(e.keyID)
    && ValidField(e.serverID)
    && 0 < e.payload.size <= MAX_PACKET_SIZE
  }

  const AAD_PREFIX := "connauth:challenge-auth"

  function AdditionalData(ctx: Context): string {
    AAD_PREFIX + ":" + ctx.keyID + ":" + ctx.serverID
  }

  /** `plainSize` is the length of the marshalled body; the nonce and the tag add 28 bytes. */
  function Seal(key: string, ctx: Context, body: Body, plainSize: nat): Option<Payload> {
    if ValidField(ctx.keyID) && ValidField(ctx.serverID) && key != ""
    then Some(Cipher(key, AdditionalData(ctx), Json(body), plainSize + 28))
    else None
  }

  function Open(key: string, ctx: Context, payload: Payload): Option<Plain> {
    if ValidField(ctx.keyID) && ValidField(ctx.serverID) && key != ""
       && payload.Cipher? && payload.key == key && payload.aad == AdditionalData(ctx)
    then Some(payload.plain)
    else None
  }

  /** Sealing works for every key that is not empty and ids of 1 to 128 bytes, and adds 28 bytes. */
  lemma SealIff(key: string, ctx: Context, body: Body, plainSize: nat)
    ensures Seal(key, ctx, body, plainSize) ==
            if key != "" && 1 <= ByteLen(ctx.keyID) <= 128 && 1 <= ByteLen(ctx.serverID) <= 128
            then Some(Cipher(key, "connauth:challenge-auth" + ":" + ctx.keyID + ":" + ctx.serverID, Json(body), plainSize + 28))
            else None
  {
    FieldLimit(ctx.keyID);
    FieldLimit(ctx.serverID);
  }

  /** The ids a valid configuration uses: no colon. */
  ghost predicate ColonFreeContext(ctx: Context) {
    ColonFree(ctx.keyID) && ColonFree(ctx.serverID)
  }

  /** `b`'s key id swallowed the head of `a`'s server id. */
  ghost predicate Straddles(a: Context, b: Context, mid: string) {
    b.keyID == a.keyID + ":" + mid && a.serverID == mid + ":" + b.serverID
  }

  lemma AdditionalDataTail(ctx: Context)
    ensures AdditionalData(ctx)[|AAD_PREFIX| + 1..] == ctx.keyID + ":" + ctx.serverID
  {
  }

  /** Exactly when two contexts share a context string: they are equal, or one key id
      continues over a colon into the other context's server id. */
  lemma ContextsCollideIff(a: Context, b: Context)
    ensures AdditionalData(a) == AdditionalData(b) <==>
            a == b || (exists mid :: Straddles(a, b, mid)) || (exists mid :: Straddles(b, a, mid))
  {
    if AdditionalData(a) == AdditionalData(b) {
      AdditionalDataTail(a);
      AdditionalDataTail(b);
      if |a.keyID| < |b.keyID| {
        StraddleFound(a, b);
      } else if |b.keyID| < |a.keyID| {
        StraddleFound(b, a);
      } else {
        var whole := a.keyID + ":" + a.serverID;
        assert whole[..|a.keyID|] == a.keyID && whole[..|b.keyID|] == b.keyID;
        assert whole[|a.keyID| + 1..] == a.serverID && whole[|b.keyID| + 1..] == b.serverID;
      }
    }
    if mid :| Straddles(a, b, mid) {
      StraddleCollides(a, b, mid);
    }
    if mid :| Straddles(b, a, mid) {
      StraddleCollides(b, a, mid);
    }
  }

  /** Ids with a colon pass the field checks of `Seal` and `Open`, and then two contexts can share
      a context string: what is sealed under one opens under the other. */
  lemma ColonsCollide(key: string, body: Body, size: nat)
    requires key != ""
    ensures Seal(key, Context("a:b", "c"), body, size).Some?
    ensures Open(key, Context("a", "b:c"), Seal(key, Context("a:b", "c"), body, size).value) == Some(Json(body))
  {
    AsciiByteLen("a:b");
    AsciiByteLen("c");
    AsciiByteLen("a");
    AsciiByteLen("b:c");
    StraddleCollides(Context("a", "b:c"), Context("a:b", "c"), "b");
  }

  lemma StraddleFound(a: Context, b: Context)
    requires a.keyID + ":" + a.serverID == b.keyID + ":" + b.serverID
    requires |a.keyID| < |b.keyID|
    ensures exists mid :: Straddles(a, b, mid)
  {
    var whole := a.keyID + ":" + a.serverID;
    var mid := b.keyID[|a.keyID| + 1..];
    assert whole[..|b.keyID|] == b.keyID && whole[|b.keyID|] == ':';
    assert b.keyID[..|a.keyID|] == whole[..|a.keyID|] == a.keyID && b.keyID[|a.keyID|] == whole[|a.keyID|] == ':';
    assert b.keyID == a.keyID + ":" + mid;
    assert whole[|a.keyID| + 1..] == a.serverID;
    assert (b.keyID + ":" + b.serverID)[|a.keyID| + 1..] == mid + ":" + b.serverID;
    assert Straddles(a, b, mid);
  }

  lemma StraddleCollides(a: Context, b: Context, mid: string)
    requires Straddles(a, b, mid)
    ensures AdditionalData(a) == AdditionalData(b)
  {
    assert AdditionalData(a) == AAD_PREFIX + ":" + a.keyID + ":" + mid + ":" + b.serverID;
    assert AdditionalData(b) == AAD_PREFIX + ":" + a.keyID + ":" + mid + ":" + b.serverID;
  }

  /** On the ids a valid configuration uses, the context string is injective. */
  lemma ContextStringInjective(a: Context, b: Context)
    requires ColonFree(a.keyID) && ColonFree(b.keyID)
    requires AdditionalData(a) == AdditionalData(b)
    ensures a == b
  {
    AdditionalDataTail(a);
    AdditionalDataTail(b);
    FirstFieldUnique(a.keyID, b.keyID, a.serverID, b.serverID);
  }

  /** A sealed body opens exactly under its own key and its own context, and yields itself. */
  lemma OpenInvertsSeal(key: string, ctx: Context, body: Body, size: nat, key': string, ctx': Context)
    requires ColonFreeContext(ctx) && ColonFreeContext(ctx')
    requires Seal(key, ctx, body, size).Some?
    ensures var plain := Open(key', ctx', Seal(key, ctx, body, size).value);
            if key == key' && ctx == ctx' then plain == Some(Json(body)) else plain.None?
  {
    if AdditionalData(ctx) == AdditionalData(ctx') {
      ContextStringInjective(ctx, ctx');
    }
  }
}
