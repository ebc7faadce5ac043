/** Safety over whole runs of the server: which challenge an authorization stems from, that no
    challenge serves twice, and what every forwarded connection was admitted by. Packets are
    arbitrary here: nothing is assumed about who made them. */
module AuthRuns {
  import opened Basics
  import opened AuthProto
  import opened AuthServer
  import Settings
  import PC = PendingChallenges
  import Store = ChallengeHistory
  import AC = AuthorizedClients
  import History = ClientHistory

  // ----- a run of the server contains a run of each component -----

  ghost function StoreOps(setup: ReadySetup, es: seq<Event>): seq<Store.StoreOp> {
    seq(|es|, i requires 0 <= i < |es| => StoreOpOf(setup, Run(setup, es[..i]).handler, es[i]))
  }

  ghost function ListOps(setup: ReadySetup, f: int, es: seq<Event>): seq<AC.ListOp> {
    seq(|es|, i requires 0 <= i < |es| => ListOpOf(setup, Run(setup, es[..i]).handler, f, es[i]))
  }

  lemma StoreOpsPrefix(setup: ReadySetup, es: seq<Event>, n: int)
    requires 0 <= n <= |es|
    ensures StoreOps(setup, es)[..n] == StoreOps(setup, es[..n])
  {
    forall i | 0 <= i < n ensures StoreOps(setup, es)[i] == StoreOps(setup, es[..n])[i] {
      assert es[..n][..i] == es[..i];
    }
  }

  lemma ListOpsPrefix(setup: ReadySetup, f: int, es: seq<Event>, n: int)
    requires 0 <= n <= |es|
    ensures ListOps(setup, f, es)[..n] == ListOps(setup, f, es[..n])
  {
    forall i | 0 <= i < n ensures ListOps(setup, f, es)[i] == ListOps(setup, f, es[..n])[i] {
      assert es[..n][..i] == es[..i];
    }
  }

  /** The pending items of a server run are those of its store calls. */
  lemma {:induction false} RunProjectsStore(setup: ReadySetup, es: seq<Event>)
    ensures Run(setup, es).items == Store.Run(setup.pendingLimits, StoreOps(setup, es))
  {
    if es != [] {
      var n := |es| - 1;
      RunProjectsStore(setup, es[..n]);
      StoreOpsPrefix(setup, es, n);
    }
  }

  /** Each list of a server run is that of the calls that touched it. */
  lemma {:induction false} RunProjectsList(setup: ReadySetup, f: int, es: seq<Event>)
    requires 0 <= f < |setup.s.forwards|
    ensures f < |Run(setup, es).lists|
    ensures Run(setup, es).lists[f] == History.Run(setup.maxClients, WindowOf(setup, f), ListOps(setup, f, es))
  {
    RunShape(setup, es);
    if es != [] {
      var n := |es| - 1;
      RunShape(setup, es[..n]);
      RunProjectsList(setup, f, es[..n]);
      ListOpsPrefix(setup, f, es, n);
    }
  }

  // ----- injective agreement -----

  /** Event `c` redeemed the pending challenge its response names. */
  ghost predicate Redeems(setup: ReadySetup, es: seq<Event>, c: int, ip: string, keyID: string, resp: ChallengeResponse) {
    && 0 <= c < |es| && es[c].Receive? && es[c].ip == ip
    && Run(setup, es[..c]).handler == Waiting
    && Classify(setup, es[c].packet, es[c].keyTime, es[c].checkTime) == Answer(keyID, resp)
    && PC.Redeemable(Run(setup, es[..c]).items, ResponseKey(ip, keyID, resp), es[c].storeTime)
  }

  /** Event `j` issued a challenge for `req` from `ip`: it stored the key and replied. */
  ghost predicate Issues(setup: ReadySetup, es: seq<Event>, j: int, ip: string, keyID: string, req: ChallengeRequest, serverNonce: string) {
    && 0 <= j < |es| && es[j].Receive? && es[j].ip == ip && es[j].nonce == Some(serverNonce)
    && Run(setup, es[..j]).handler == Waiting
    && (var v := Classify(setup, es[j].packet, es[j].keyTime, es[j].checkTime);
        v.Ask? && v.keyID == keyID && v.req == req)
    && PC.HasRoom(setup.pendingLimits, Run(setup, es[..j]).items, ip)
  }

  /** The request and the response agree on everything the challenge binds. */
  ghost predicate SameBinding(req: ChallengeRequest, serverNonce: string, resp: ChallengeResponse) {
    && req.serverID == resp.serverID && req.clientID == resp.clientID && req.port == resp.port
    && req.clientNonce == resp.clientNonce && serverNonce == resp.serverNonce
  }

  /** The position of the store insertion a redemption at `c` stems from. */
  ghost function IssuedAt(setup: ReadySetup, es: seq<Event>, c: int, ip: string, keyID: string, resp: ChallengeResponse): int
  {
    if 0 <= c <= |es| then Store.Origin(setup.pendingLimits, StoreOps(setup, es), c, ResponseKey(ip, keyID, resp)) else -1
  }

  lemma RedeemsInStore(setup: ReadySetup, es: seq<Event>, c: int, ip: string, keyID: string, resp: ChallengeResponse)
    requires Redeems(setup, es, c, ip, keyID, resp)
    ensures Store.Redeems(setup.pendingLimits, StoreOps(setup, es), c, ResponseKey(ip, keyID, resp))
    ensures StoreOps(setup, es)[c].now == es[c].storeTime
  {
    StoreOpsPrefix(setup, es, c);
    RunProjectsStore(setup, es[..c]);
  }

  lemma InsertIsIssue(setup: ReadySetup, es: seq<Event>, j: int, key: PC.PendingKey)
    requires Store.Inserts(setup.pendingLimits, StoreOps(setup, es), j, key)
    ensures es[j].Receive? && es[j].nonce.Some?
    ensures var v := Classify(setup, es[j].packet, es[j].keyTime, es[j].checkTime);
            && v.Ask? && RequestKey(es[j].ip, v.keyID, v.req, es[j].nonce.value) == key
            && Issues(setup, es, j, es[j].ip, v.keyID, v.req, es[j].nonce.value)
    ensures StoreOps(setup, es)[j].expiresAt == es[j].storeTime + CHALLENGE_TTL
  {
    StoreOpsPrefix(setup, es, j);
    RunProjectsStore(setup, es[..j]);
    assert StoreOps(setup, es)[j] == StoreOpOf(setup, Run(setup, es[..j]).handler, es[j]);
  }

  /** Every redeemed response was preceded by a challenge this server issued to the same address
      for the same key id, server id, client id, port and both nonces, and was consumed strictly
      before that challenge's 30 seconds were over. */
  lemma RedemptionAgreesWithIssue(setup: ReadySetup, es: seq<Event>, c: int, ip: string, keyID: string, resp: ChallengeResponse)
    requires Redeems(setup, es, c, ip, keyID, resp)
    ensures var j := IssuedAt(setup, es, c, ip, keyID, resp);
            && 0 <= j < c
            && es[j].Receive? && es[j].nonce.Some?
            && (var req := Classify(setup, es[j].packet, es[j].keyTime, es[j].checkTime);
                req.Ask? && Issues(setup, es, j, ip, keyID, req.req, es[j].nonce.value)
                && SameBinding(req.req, es[j].nonce.value, resp))
            && es[c].storeTime < es[j].storeTime + 30 * SECOND
  {
    var key := ResponseKey(ip, keyID, resp);
    RedeemsInStore(setup, es, c, ip, keyID, resp);
    Store.RedemptionHasOrigin(setup.pendingLimits, StoreOps(setup, es), c, key);
    InsertIsIssue(setup, es, IssuedAt(setup, es, c, ip, keyID, resp), key);
  }

  /** The latest event that took the handler from waiting to authorizing, or -1. */
  ghost function RedeemedAt(setup: ReadySetup, es: seq<Event>): (c: int)
    ensures -1 <= c < |es|
  {
    if es == [] then -1
    else
      var n := |es| - 1;
      if Run(setup, es[..n]).handler == Waiting && Run(setup, es).handler != Waiting then n
      else RedeemedAt(setup, es[..n])
  }

  /** A handler about to authorize got there by redeeming a challenge, and has been there since. */
  lemma {:induction false} AuthorizingHasRedemption(setup: ReadySetup, es: seq<Event>, ip: string, keyID: string, resp: ChallengeResponse)
    requires Run(setup, es).handler == Authorizing(ip, keyID, resp)
    ensures Redeems(setup, es, RedeemedAt(setup, es), ip, keyID, resp)
  {
    var n := |es| - 1;
    if Run(setup, es[..n]).handler != Waiting {
      AuthorizingHasRedemption(setup, es[..n], ip, keyID, resp);
      assert es[..n][..RedeemedAt(setup, es)] == es[..RedeemedAt(setup, es)];
    }
  }

  lemma {:induction false} AuthorizingSince(setup: ReadySetup, es: seq<Event>, i: int)
    requires Run(setup, es).handler != Waiting
    requires RedeemedAt(setup, es) < i <= |es|
    ensures Run(setup, es[..i]).handler != Waiting
  {
    var n := |es| - 1;
    if i == |es| {
      assert es[..i] == es;
    } else {
      assert Run(setup, es[..n]).handler != Waiting;
      AuthorizingSince(setup, es[..n], i);
      assert es[..n][..i] == es[..i];
    }
  }

  /** Event `g` ran `authorizeClient` for a redeemed response and it was granted on forward `f`. */
  ghost predicate Authorizes(setup: ReadySetup, es: seq<Event>, g: int, f: int, ip: string, keyID: string, resp: ChallengeResponse) {
    && 0 <= g < |es| && es[g].Authorize?
    && Run(setup, es[..g]).handler == Authorizing(ip, keyID, resp)
    && Settings.SelectForward(setup.p, setup.s, resp.port, resp.token, 0) == Some(f)
    && 0 <= f < |Run(setup, es[..g]).lists|
    && !AC.Refused(setup.maxClients, Run(setup, es[..g]).lists[f], AC.ClientKey(ip, resp.clientID), es[g].now)
  }

  /** The challenge an authorization is mapped to. */
  ghost function ChallengeOf(setup: ReadySetup, es: seq<Event>, g: int, ip: string, keyID: string, resp: ChallengeResponse): int
    requires 0 <= g <= |es|
  {
    IssuedAt(setup, es, RedeemedAt(setup, es[..g]), ip, keyID, resp)
  }

  ghost predicate KeyInUse(setup: ReadySetup, keyID: string, now: Instant) {
    exists i | 0 <= i < |setup.s.authKeys| :: setup.s.authKeys[i].id == keyID && Settings.KeyActive(setup.p, setup.s.authKeys[i], now)
  }

  lemma {:induction false} LookupFindsActiveKey(p: Settings.Platform, keys: seq<Settings.AuthKey>, id: string, now: Instant)
    requires Settings.AuthKeyByID(p, keys, id, now).Some?
    ensures exists i | 0 <= i < |keys| :: keys[i].id == id && Settings.KeyActive(p, keys[i], now)
  {
    if keys[0].id != id {
      LookupFindsActiveKey(p, keys[1..], id, now);
      var i :| 0 <= i < |keys[1..]| && keys[1..][i].id == id && Settings.KeyActive(p, keys[1..][i], now);
      assert keys[i + 1].id == id;
    }
  }

  lemma ClassifiedKeyInUse(setup: ReadySetup, packet: Packet, keyTime: Instant, checkTime: Instant)
    requires !Classify(setup, packet, keyTime, checkTime).Ignored?
    ensures KeyInUse(setup, Classify(setup, packet, keyTime, checkTime).keyID, keyTime)
  {
    LookupFindsActiveKey(setup.p, setup.s.authKeys, packet.env.keyID, keyTime);
  }

  /** The full provenance of an authorization: it redeemed, at `c`, a challenge issued at `j` to
      the same address with the same bindings, in time, under a key that was active when the
      request and when the response was looked up; and the token is allowed on the forward,
      which listens on the port the challenge named. */
  ghost predicate Provenance(setup: ReadySetup, es: seq<Event>, g: int, f: int, ip: string, keyID: string, resp: ChallengeResponse, c: int, j: int) {
    && 0 <= j < c < g < |es|
    && Redeems(setup, es, c, ip, keyID, resp)
    && es[j].Receive? && es[j].nonce.Some?
    && (var v := Classify(setup, es[j].packet, es[j].keyTime, es[j].checkTime);
        v.Ask? && Issues(setup, es, j, ip, keyID, v.req, es[j].nonce.value) && SameBinding(v.req, es[j].nonce.value, resp))
    && es[c].storeTime < es[j].storeTime + 30 * SECOND
    && KeyInUse(setup, keyID, es[j].keyTime) && KeyInUse(setup, keyID, es[c].keyTime)
    && 0 <= f < |setup.s.forwards|
    && setup.s.forwards[f].bindPort == resp.port && Settings.TokenAllowed(setup.p, setup.s, setup.s.forwards[f], resp.token)
  }

  /** What the provenance of a prefix says about the whole run. */
  lemma ProvenanceRedeems(setup: ReadySetup, es: seq<Event>, a: int, g: int, f: int, ip: string, keyID: string, resp: ChallengeResponse, c: int, j: int)
    requires 0 <= a <= |es| && Provenance(setup, es[..a], g, f, ip, keyID, resp, c, j)
    ensures Redeems(setup, es, c, ip, keyID, resp)
    ensures 0 <= j < |es| && es[j].Receive? && es[j].nonce == Some(resp.serverNonce)
  {
    assert es[..a][..c] == es[..c];
    assert es[..a][c] == es[c] && es[..a][j] == es[j];
  }

  lemma AuthorizationAgreement(setup: ReadySetup, es: seq<Event>, g: int, f: int, ip: string, keyID: string, resp: ChallengeResponse)
    requires Authorizes(setup, es, g, f, ip, keyID, resp)
    ensures Provenance(setup, es, g, f, ip, keyID, resp, RedeemedAt(setup, es[..g]), ChallengeOf(setup, es, g, ip, keyID, resp))
  {
    var c := RedeemedAt(setup, es[..g]);
    AuthorizingHasRedemption(setup, es[..g], ip, keyID, resp);
    assert es[..g][..c] == es[..c];
    assert Redeems(setup, es, c, ip, keyID, resp);
    RedemptionAgreesWithIssue(setup, es, c, ip, keyID, resp);
    var j := ChallengeOf(setup, es, g, ip, keyID, resp);
    ClassifiedKeyInUse(setup, es[c].packet, es[c].keyTime, es[c].checkTime);
    ClassifiedKeyInUse(setup, es[j].packet, es[j].keyTime, es[j].checkTime);
  }

  /** Between two authorizations lies the later one's redemption. */
  lemma RedemptionAfterEarlierAuthorization(setup: ReadySetup, es: seq<Event>, g1: int, g2: int)
    requires 0 <= g1 < g2 <= |es| && es[g1].Authorize?
    requires Run(setup, es[..g2]).handler != Waiting
    ensures g1 < RedeemedAt(setup, es[..g2])
  {
    RunStep(setup, es, g1);
    assert es[..g2][..g1 + 1] == es[..g1 + 1];
    if RedeemedAt(setup, es[..g2]) <= g1 {
      AuthorizingSince(setup, es[..g2], g1 + 1);
    }
  }

  /** Different authorizations stem from different challenges: the map is injective. */
  lemma AuthorizationsInjective(setup: ReadySetup, es: seq<Event>,
                                g1: int, f1: int, ip1: string, keyID1: string, resp1: ChallengeResponse,
                                g2: int, f2: int, ip2: string, keyID2: string, resp2: ChallengeResponse)
    requires Authorizes(setup, es, g1, f1, ip1, keyID1, resp1)
    requires Authorizes(setup, es, g2, f2, ip2, keyID2, resp2)
    requires g1 < g2
    ensures ChallengeOf(setup, es, g1, ip1, keyID1, resp1) != ChallengeOf(setup, es, g2, ip2, keyID2, resp2)
  {
    AuthorizationAgreement(setup, es, g1, f1, ip1, keyID1, resp1);
    AuthorizationAgreement(setup, es, g2, f2, ip2, keyID2, resp2);
    RedemptionAfterEarlierAuthorization(setup, es, g1, g2);
    var c1, c2 := RedeemedAt(setup, es[..g1]), RedeemedAt(setup, es[..g2]);
    RedeemsInStore(setup, es, c1, ip1, keyID1, resp1);
    RedeemsInStore(setup, es, c2, ip2, keyID2, resp2);
    Store.RedemptionsHaveDistinctOrigins(setup.pendingLimits, StoreOps(setup, es),
      c1, ResponseKey(ip1, keyID1, resp1), c2, ResponseKey(ip2, keyID2, resp2));
  }

  /** No two generated server nonces are equal. */
  ghost predicate FreshServerNonces(es: seq<Event>) {
    forall i, j | 0 <= i < j < |es| && es[i].Receive? && es[j].Receive? && es[i].nonce.Some? && es[j].nonce.Some? ::
      es[i].nonce != es[j].nonce
  }

  /** With fresh server nonces a redemption is mapped to the one challenge that has its nonce. */
  lemma NonceNamesChallenge(setup: ReadySetup, es: seq<Event>, d: int, ip: string, keyID: string, resp: ChallengeResponse, j: int)
    requires FreshServerNonces(es)
    requires Redeems(setup, es, d, ip, keyID, resp)
    requires 0 <= j < |es| && es[j].Receive? && es[j].nonce == Some(resp.serverNonce)
    ensures j == IssuedAt(setup, es, d, ip, keyID, resp)
  {
    RedemptionAgreesWithIssue(setup, es, d, ip, keyID, resp);
    var i := IssuedAt(setup, es, d, ip, keyID, resp);
    assert es[i].nonce == es[j].nonce;
  }

  ghost function PacketAt(es: seq<Event>, i: int): Packet {
    if 0 <= i < |es| && es[i].Receive? then es[i].packet else Unparsable
  }

  /** With fresh server nonces two authorizations never redeem responses with the same server
      nonce; in particular a recorded packet authorizes at most once. */
  lemma NoReplay(setup: ReadySetup, es: seq<Event>,
                 g1: int, f1: int, ip1: string, keyID1: string, resp1: ChallengeResponse,
                 g2: int, f2: int, ip2: string, keyID2: string, resp2: ChallengeResponse)
    requires FreshServerNonces(es)
    requires Authorizes(setup, es, g1, f1, ip1, keyID1, resp1)
    requires Authorizes(setup, es, g2, f2, ip2, keyID2, resp2)
    requires g1 < g2
    ensures resp1.serverNonce != resp2.serverNonce
    ensures PacketAt(es, RedeemedAt(setup, es[..g1])) != PacketAt(es, RedeemedAt(setup, es[..g2]))
  {
    AuthorizationsInjective(setup, es, g1, f1, ip1, keyID1, resp1, g2, f2, ip2, keyID2, resp2);
    AuthorizedNonce(setup, es, g1, f1, ip1, keyID1, resp1);
    AuthorizedNonce(setup, es, g2, f2, ip2, keyID2, resp2);
    assert resp1.serverNonce != resp2.serverNonce;
    SamePacketSameNonce(setup, es, RedeemedAt(setup, es[..g1]), ip1, keyID1, resp1, RedeemedAt(setup, es[..g2]), ip2, keyID2, resp2);
  }

  lemma AuthorizedNonce(setup: ReadySetup, es: seq<Event>, g: int, f: int, ip: string, keyID: string, resp: ChallengeResponse)
    requires Authorizes(setup, es, g, f, ip, keyID, resp)
    ensures var j := ChallengeOf(setup, es, g, ip, keyID, resp);
            0 <= j < |es| && es[j].Receive? && es[j].nonce == Some(resp.serverNonce)
    ensures Redeems(setup, es, RedeemedAt(setup, es[..g]), ip, keyID, resp)
  {
    AuthorizationAgreement(setup, es, g, f, ip, keyID, resp);
  }

  lemma SamePacketSameNonce(setup: ReadySetup, es: seq<Event>, c1: int, ip1: string, keyID1: string, resp1: ChallengeResponse,
                            c2: int, ip2: string, keyID2: string, resp2: ChallengeResponse)
    requires Redeems(setup, es, c1, ip1, keyID1, resp1) && Redeems(setup, es, c2, ip2, keyID2, resp2)
    requires resp1.serverNonce != resp2.serverNonce
    ensures PacketAt(es, c1) != PacketAt(es, c2)
  {
    var p1, p2 := es[c1].packet, es[c2].packet;
    assert resp1 == AsResponse(p1.env.payload.plain.body) && resp2 == AsResponse(p2.env.payload.plain.body);
  }

  // ----- bounds of every reachable state -----

  /** In every reachable state the pending store and every client list are within their positive
      limits, and every configured forward has its list. */
  lemma ServerWithinLimits(setup: ReadySetup, es: seq<Event>, f: int)
    requires 0 <= f < |setup.s.forwards|
    ensures PC.WithinLimits(setup.pendingLimits, Run(setup, es).items)
    ensures f < |Run(setup, es).lists| && AC.WithinMax(setup.maxClients, Run(setup, es).lists[f])
  {
    RunProjectsStore(setup, es);
    Store.LimitsHoldAlways(setup.pendingLimits, StoreOps(setup, es));
    RunProjectsList(setup, f, es);
    History.SizeHoldsAlways(setup.maxClients, WindowOf(setup, f), ListOps(setup, f, es));
  }

  /** Event `j` answered a request from this address and stored this pending key. */
  ghost predicate IssuesKey(setup: ReadySetup, es: seq<Event>, j: int, key: PC.PendingKey) {
    && 0 <= j < |es| && es[j].Receive? && es[j].nonce.Some?
    && (var v := Classify(setup, es[j].packet, es[j].keyTime, es[j].checkTime);
        && v.Ask? && RequestKey(es[j].ip, v.keyID, v.req, es[j].nonce.value) == key
        && Issues(setup, es, j, key.ip, v.keyID, v.req, es[j].nonce.value))
  }

  ghost predicate IssuedAfter(setup: ReadySetup, es: seq<Event>, key: PC.PendingKey, from: Instant) {
    exists j :: IssuesKey(setup, es, j, key) && from < es[j].storeTime
  }

  lemma InsertIssuesKey(setup: ReadySetup, es: seq<Event>, j: int, key: PC.PendingKey)
    requires Store.Inserts(setup.pendingLimits, StoreOps(setup, es), j, key)
    ensures IssuesKey(setup, es, j, key)
    ensures StoreOps(setup, es)[j].expiresAt - CHALLENGE_TTL == es[j].storeTime
  {
    InsertIsIssue(setup, es, j, key);
  }

  lemma InsertedIsIssued(setup: ReadySetup, es: seq<Event>, key: PC.PendingKey, from: Instant)
    requires Store.InsertedAfter(setup.pendingLimits, StoreOps(setup, es), key, from)
    ensures IssuedAfter(setup, es, key, from)
  {
    var ops := StoreOps(setup, es);
    var j :| Store.Inserts(setup.pendingLimits, ops, j, key) && from < ops[j].expiresAt - CHALLENGE_TTL;
    InsertIssuesKey(setup, es, j, key);
  }

  /** If a cleanup's reading is at most a minute old, every pending challenge was issued within the
      last 90 seconds, so no challenge holds capacity longer. The handler's and the cleanup's
      readings may lag behind the store's lock by anything less than a challenge's lifetime. */
  lemma PendingKeysAreRecent(setup: ReadySetup, es: seq<Event>, lag: int, t: Instant, c: int, key: PC.PendingKey)
    requires 0 <= lag < 30 * SECOND && Store.ReadingsLag(StoreOps(setup, es), lag, t)
    requires 0 <= c < |es| && es[c].CleanupPending? && t - es[c].now <= 60 * SECOND
    requires key in Run(setup, es).items
    ensures IssuedAfter(setup, es, key, t - 90 * SECOND)
  {
    RunProjectsStore(setup, es);
    CleanupIsStoreCleanup(setup, es, c);
    Store.NoKeyOutlives90Seconds(setup.pendingLimits, StoreOps(setup, es), lag, t, c, key);
    InsertedIsIssued(setup, es, key, t - 90 * SECOND);
  }

  lemma CleanupIsStoreCleanup(setup: ReadySetup, es: seq<Event>, c: int)
    requires 0 <= c < |es| && es[c].CleanupPending?
    ensures StoreOps(setup, es)[c] == Store.Cleanup(es[c].now)
  {
  }
}
