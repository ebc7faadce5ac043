/** The client: one authentication exchange, and the retry loop with its alarms. */
module AuthClient {
  import opened Basics
  import opened AuthProto
  import opened PacketSize

  /** The client's view of a server, as its own `CheckValid` accepted it. */
  datatype ServerEntry = ServerEntry(serverID: string, keyID: string, key: string)

  function SealedPacket(server: ServerEntry, body: Body, bodySize: nat): Option<Packet> {
    match Seal(server.key, Context(server.keyID, server.serverID), body, bodySize)
    case None => None
    case Some(payload) => Some(Packet(Envelope(server.keyID, server.serverID, payload)))
  }

  function RequestOf(server: ServerEntry, clientID: string, port: Uint16, nonce: string, now: Instant): ChallengeRequest {
    ChallengeRequest(CHALLENGE_REQUEST, server.serverID, clientID, port, nonce, Unix(now))
  }

  function ResponseOf(server: ServerEntry, clientID: string, port: Uint16, nonce: string, token: string, serverNonce: string, now: Instant): ChallengeResponse {
    ChallengeResponse(CHALLENGE_RESPONSE, server.serverID, clientID, port, nonce, serverNonce, token, Unix(now))
  }

  function RequestPacket(server: ServerEntry, req: ChallengeRequest): Option<Packet> {
    SealedPacket(server, RequestBody(req), RequestSize(req))
  }

  function ResponsePacket(server: ServerEntry, resp: ChallengeResponse): Option<Packet> {
    SealedPacket(server, ResponseBody(resp), ResponseSize(resp))
  }

  function OpenChallenge(server: ServerEntry, packet: Packet, now: Instant): Option<Challenge> {
    if packet.Unparsable? || !ValidEnvelope(packet.env) then None
    else if packet.env.keyID != server.keyID || packet.env.serverID != server.serverID then None
    else
      var plain := Open(server.key, Context(packet.env.keyID, packet.env.serverID), packet.env.payload);
      if plain.None? || plain.value.Malformed? then None
      else
        var challenge := AsChallenge(plain.value.body);
        if challenge.msgType != CHALLENGE then None
        else if challenge.expiresAt <= Unix(now) then None
        else if challenge.serverNonce == "" then None
        else Some(challenge)
  }

  /** What an opened challenge says about the packet it came in. */
  lemma OpenedChallenge(server: ServerEntry, packet: Packet, now: Instant)
    requires OpenChallenge(server, packet, now).Some?
    ensures packet.Packet? && packet.env.payload.Cipher? && packet.env.payload.plain.Json?
    ensures packet.env.payload.key == server.key
    ensures packet.env.payload.aad == AdditionalData(Context(server.keyID, server.serverID))
    ensures OpenChallenge(server, packet, now) == Some(AsChallenge(packet.env.payload.plain.body))
    ensures packet.env.payload.plain.body.msgType == CHALLENGE
  {
  }

  /** The challenge is for this exchange. */
  predicate BoundTo(challenge: Challenge, server: ServerEntry, clientID: string, port: Uint16, nonce: string) {
    && challenge.serverID == server.serverID && challenge.clientID == clientID
    && challenge.port == port && challenge.clientNonce == nonce
  }

  /** What the exchange sends after its request, given what it read within the deadline. */
  function Reaction(server: ServerEntry, clientID: string, port: Uint16, token: string, nonce: string,
                    received: Option<Packet>, openTime: Instant, responseTime: Instant): Option<Packet> {
    if received.None? then None
    else
      var challenge := OpenChallenge(server, received.value, openTime);
      if challenge.None? || !BoundTo(challenge.value, server, clientID, port, nonce) then None
      else ResponsePacket(server, ResponseOf(server, clientID, port, nonce, token, challenge.value.serverNonce, responseTime))
  }

  lemma ReactionToBound(server: ServerEntry, clientID: string, port: Uint16, token: string, nonce: string,
                        packet: Packet, openTime: Instant, responseTime: Instant, challenge: Challenge, resp: ChallengeResponse)
    requires OpenChallenge(server, packet, openTime) == Some(challenge) && BoundTo(challenge, server, clientID, port, nonce)
    requires resp == ResponseOf(server, clientID, port, nonce, token, challenge.serverNonce, responseTime)
    ensures Reaction(server, clientID, port, token, nonce, Some(packet), openTime, responseTime) == ResponsePacket(server, resp)
  {
  }

  /** One exchange. `received` is the datagram read before the deadline, if any. It succeeds
      exactly when it sent a response, and then it had opened a challenge bound to itself. */
  method Auth(server: ServerEntry, clientID: string, port: Uint16, token: string, nonce: Option<string>,
              requestTime: Instant, received: Option<Packet>, openTime: Instant, responseTime: Instant)
    returns (sent: seq<Packet>, ok: bool)
    ensures ok <==> |sent| == 2
    ensures nonce.Some? && RequestPacket(server, RequestOf(server, clientID, port, nonce.value, requestTime)).Some? ==> sent != []
    ensures sent != [] ==> nonce.Some? && Some(sent[0]) == RequestPacket(server, RequestOf(server, clientID, port, nonce.value, requestTime))
    ensures |sent| <= 2
    ensures |sent| == 2 ==> nonce.Some? && Some(sent[1]) == Reaction(server, clientID, port, token, nonce.value, received, openTime, responseTime)
    ensures |sent| == 1 && nonce.Some? ==> Reaction(server, clientID, port, token, nonce.value, received, openTime, responseTime).None?
  {
    sent := [];
    if nonce.None? {
      return sent, false;
    }
    var request := RequestPacket(server, RequestOf(server, clientID, port, nonce.value, requestTime));
    if request.None? {
      return sent, false;
    }
    sent := sent + [request.value];
    if received.None? {
      return sent, false;
    }
    var challenge := OpenChallenge(server, received.value, openTime);
    if challenge.None? {
      return sent, false;
    }
    if challenge.value.serverID != server.serverID || challenge.value.clientID != clientID
       || challenge.value.port != port || challenge.value.clientNonce != nonce.value {
      return sent, false;
    }
    var response := ResponsePacket(server, ResponseOf(server, clientID, port, nonce.value, token, challenge.value.serverNonce, responseTime));
    if response.None? {
      return sent, false;
    }
    return sent + [response.value], true;
  }

  /** A client that accepts a challenge whose deadline was truncated to seconds still has the
      server's untruncated deadline ahead of it, on synchronized clocks. */
  lemma AcceptedChallengeStillPending(server: ServerEntry, packet: Packet, now: Instant, deadline: Instant)
    requires OpenChallenge(server, packet, now).Some?
    requires OpenChallenge(server, packet, now).value.expiresAt == Unix(deadline)
    ensures now < deadline
  {
    assert deadline <= now ==> Unix(deadline) <= Unix(now);
  }

  // ----- the retry loop -----

  ghost predicate PowerOfTen(n: nat) { exists k: nat :: n == Pow10(k) }

  /** Consecutive failures just before round `i`. */
  ghost function FailuresBefore(outcomes: seq<bool>, i: nat): nat
    requires i <= |outcomes|
  {
    if i == 0 || outcomes[i - 1] then 0 else 1 + FailuresBefore(outcomes, i - 1)
  }

  /** `next` is the least power of ten above `n`. */
  ghost predicate LeastPowerAbove(next: nat, n: nat) {
    PowerOfTen(next) && n < next && (next == 1 || (next % 10 == 0 && next / 10 <= n))
  }

  lemma {:induction false} Pow10Order(j: nat, k: nat)
    ensures Pow10(j) >= 1
    ensures j < k ==> 10 * Pow10(j) <= Pow10(k)
    decreases k
  {
    if j < k {
      if j < k - 1 { Pow10Order(j, k - 1); } else { Pow10Order(0, 0); Pow10Positive(j); }
    } else {
      Pow10Positive(j);
    }
  }

  lemma {:induction false} Pow10Positive(k: nat)
    ensures Pow10(k) >= 1
  {
    if k > 0 { Pow10Positive(k - 1); }
  }

  lemma NoPowerBetween(n: nat, k: nat)
    requires Pow10(k) < n < Pow10(k + 1)
    ensures !PowerOfTen(n)
  {
    forall j: nat ensures Pow10(j) != n {
      if j < k { Pow10Order(j, k); }
      if j > k + 1 { Pow10Order(k + 1, j); }
      Pow10Positive(j);
    }
  }

  /** With the least power above `n` at hand, `n + 1` is a power of ten iff it has reached it. */
  lemma NextPower(next: nat, n: nat)
    requires LeastPowerAbove(next, n)
    ensures PowerOfTen(n + 1) <==> n + 1 >= next
    ensures n + 1 >= next ==> LeastPowerAbove(next * 10, n + 1)
    ensures n + 1 < next ==> LeastPowerAbove(next, n + 1)
  {
    var k: nat :| next == Pow10(k);
    Pow10Positive(k);
    if n + 1 >= next {
      assert Pow10(k + 1) == next * 10;
    } else if k > 0 {
      assert Pow10(k) == 10 * Pow10(k - 1);
      NoPowerBetween(n + 1, k - 1);
    }
  }

  ghost predicate WarnsIn(outcomes: seq<bool>, i: nat)
    requires i < |outcomes|
  {
    !outcomes[i] && PowerOfTen(FailuresBefore(outcomes, i + 1))
  }

  /** The warned ones among the first `r` rounds, in order. */
  ghost function WarnedRounds(outcomes: seq<bool>, r: nat): seq<int>
    requires r <= |outcomes|
  {
    if r == 0 then [] else WarnedRounds(outcomes, r - 1) + if WarnsIn(outcomes, r - 1) then [r - 1] else []
  }

  lemma {:induction false} WarnedRoundsExact(outcomes: seq<bool>, r: nat)
    requires r <= |outcomes|
    ensures forall i :: i in WarnedRounds(outcomes, r) <==> 0 <= i < r && WarnsIn(outcomes, i)
    ensures forall i, j | 0 <= i < j < |WarnedRounds(outcomes, r)| :: WarnedRounds(outcomes, r)[i] < WarnedRounds(outcomes, r)[j]
  {
    if r > 0 {
      var front := WarnedRounds(outcomes, r - 1);
      WarnedRoundsExact(outcomes, r - 1);
      assert forall i | 0 <= i < |front| :: front[i] in front;
    }
  }

  /** The retry loop on any sequence of outcomes (`true` is success) up to its stop. It warns once
      in each round whose run of consecutive failures has a power of ten as its length, in order,
      and in no other. */
  method RetryLoop(outcomes: seq<bool>) returns (warnings: seq<int>)
    ensures warnings == WarnedRounds(outcomes, |outcomes|)
    ensures forall i :: i in warnings <==> 0 <= i < |outcomes| && WarnsIn(outcomes, i)
    ensures forall i, j | 0 <= i < j < |warnings| :: warnings[i] < warnings[j]
  {
    warnings := [];
    var failCount: nat := 0;
    var nextAlarmCount: nat := 1;
    assert Pow10(0) == 1;
    for r := 0 to |outcomes|
      invariant failCount == FailuresBefore(outcomes, r)
      invariant LeastPowerAbove(nextAlarmCount, failCount)
      invariant warnings == WarnedRounds(outcomes, r)
    {
      if !outcomes[r] {
        NextPower(nextAlarmCount, failCount);
        failCount := failCount + 1;
        if failCount >= nextAlarmCount {
          warnings := warnings + [r];
          nextAlarmCount := nextAlarmCount * 10;
        }
      } else {
        failCount := 0;
        nextAlarmCount := 1;
      }
    }
    WarnedRoundsExact(outcomes, |outcomes|);
  }

  /** Powers of ten up to `n`. */
  ghost function PowersUpTo(n: nat): nat {
    if n == 0 then 0 else PowersUpTo(n - 1) + if PowerOfTen(n) then 1 else 0
  }

  lemma {:induction false} PowersAreDigits(n: nat, k: nat)
    requires n >= 1 && Pow10(k) <= n < Pow10(k + 1)
    ensures PowersUpTo(n) == k + 1 == |Decimal(n)|
    decreases n
  {
    DecimalLength(n, k + 1);
    if n == Pow10(k) {
      if k == 0 {
        assert PowersUpTo(1) == 1;
      } else {
        Pow10Order(k - 1, k);
        PowersAreDigits(n - 1, k - 1);
      }
    } else {
      Pow10Positive(k);
      PowersAreDigits(n - 1, k);
      NoPowerBetween(n, k);
    }
  }

  /** Every positive number lies between two neighbouring powers of ten. */
  lemma {:induction false} DigitsExist(n: nat) returns (k: nat)
    requires n >= 1
    ensures Pow10(k) <= n < Pow10(k + 1)
  {
    if n < 10 {
      k := 0;
      assert Pow10(1) == 10;
    } else {
      var j := DigitsExist(n / 10);
      k := j + 1;
      assert Pow10(k + 1) == 10 * Pow10(k);
    }
  }

  /** The rounds from `start` on are a fresh run of failures. */
  ghost predicate FailureRun(outcomes: seq<bool>, start: nat, n: nat) {
    && start + n <= |outcomes|
    && (start == 0 || outcomes[start - 1])
    && forall i | start <= i < start + n :: !outcomes[i]
  }

  lemma {:induction false} RunWarnsAtPowers(outcomes: seq<bool>, start: nat, n: nat)
    requires FailureRun(outcomes, start, n)
    ensures FailuresBefore(outcomes, start + n) == n
    ensures |WarnedRounds(outcomes, start + n)| == |WarnedRounds(outcomes, start)| + PowersUpTo(n)
  {
    if n > 0 {
      RunWarnsAtPowers(outcomes, start, n - 1);
    }
  }

  /** Wherever it occurs, a run of n consecutive failures adds as many warnings to the loop's
      output as n has decimal digits. */
  lemma WarningsAreDigits(outcomes: seq<bool>, start: nat, n: nat)
    requires n >= 1 && FailureRun(outcomes, start, n)
    ensures |WarnedRounds(outcomes, start + n)| - |WarnedRounds(outcomes, start)| == |Decimal(n)|
  {
    var k := DigitsExist(n);
    PowersAreDigits(n, k);
    RunWarnsAtPowers(outcomes, start, n);
  }
}
