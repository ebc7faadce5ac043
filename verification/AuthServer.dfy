/** The running server as one labelled transition system. Its steps are the sections the code runs
    under one mutex: the packet handler's store access, its grant, the periodic cleanups, and
    each connection's accept check, acquire and release. Any interleaving is a run. */
module AuthServer {
  import opened Basics
  import opened AuthProto
  import opened PacketSize
  import Settings
  import PC = PendingChallenges
  import Store = ChallengeHistory
  import AC = AuthorizedClients
  import Fwd = Forwarding

  datatype Setup = Setup(p: Settings.Platform, s: Settings.Server, pendingLimits: PC.Limits, maxClients: int)

  /** What `CheckValid` establishes about optional settings. */
  ghost predicate Ready(setup: Setup) {
    forall f | 0 <= f < |setup.s.forwards| :: Settings.Defaulted(setup.s.forwards[f])
  }

  const NO_PLATFORM := Settings.Platform(
    _ => false, s => s, _ => false, _ => None, _ => None, (_, _) => false, _ => false, _ => false)

  type ReadySetup = setup: Setup | Ready(setup)
    ghost witness Setup(NO_PLATFORM, Settings.Server("", "", [], map[], map[], [], [], [], []), PC.Limits(0, 0), 0)

  // ----- the packet handler -----

  /** What the checks of `handleAuthPacket` and the two handlers make of a packet. */
  datatype Verdict =
    | Ignored
    | Ask(keyID: string, key: string, req: ChallengeRequest)
    | Answer(keyID: string, resp: ChallengeResponse)

  function ClassifyBody(setup: Setup, keyID: string, key: string, body: Body, checkTime: Instant): Verdict {
    if body.msgType == CHALLENGE_REQUEST then
      var req := AsRequest(body);
      if ValidRequest(req, checkTime) && req.serverID == setup.s.serverID then Ask(keyID, key, req) else Ignored
    else if body.msgType == CHALLENGE_RESPONSE then
      var resp := AsResponse(body);
      if ValidResponse(resp, checkTime) then Answer(keyID, resp) else Ignored
    else Ignored
  }

  /** The key lookup and the message validation read the clock separately. */
  function Classify(setup: Setup, packet: Packet, keyTime: Instant, checkTime: Instant): Verdict {
    if packet.Unparsable? || !ValidEnvelope(packet.env) || packet.env.serverID != setup.s.serverID then Ignored
    else
      var env := packet.env;
      var key := Settings.AuthKeyByID(setup.p, setup.s.authKeys, env.keyID, keyTime);
      if key.None? then Ignored
      else
        var plain := Open(key.value, Context(env.keyID, env.serverID), env.payload);
        if plain.None? || plain.value.Malformed? then Ignored
        else ClassifyBody(setup, env.keyID, key.value, plain.value.body, checkTime)
  }

  function RequestKey(ip: string, keyID: string, req: ChallengeRequest, serverNonce: string): PC.PendingKey {
    PC.PendingKey(ip, keyID, req.serverID, req.clientID, req.port, req.clientNonce, serverNonce)
  }

  function ResponseKey(ip: string, keyID: string, resp: ChallengeResponse): PC.PendingKey {
    PC.PendingKey(ip, keyID, resp.serverID, resp.clientID, resp.port, resp.clientNonce, resp.serverNonce)
  }

  function IssuedChallenge(req: ChallengeRequest, serverNonce: string, issuedAt: Instant): Challenge {
    Challenge(CHALLENGE, req.serverID, req.clientID, req.port, req.clientNonce, serverNonce, Unix(issuedAt + CHALLENGE_TTL))
  }

  function SealedChallenge(serverID: string, keyID: string, key: string, challenge: Challenge): Option<Packet> {
    match Seal(key, Context(keyID, serverID), ChallengeBody(challenge), ChallengeSize(challenge))
    case None => None
    case Some(payload) => Some(Packet(Envelope(keyID, serverID, payload)))
  }

  // ----- events and states -----

  /** Every clock reading and every random choice is part of the event. */
  datatype Event =
    | Receive(ip: string, packet: Packet, keyTime: Instant, checkTime: Instant, storeTime: Instant, nonce: Option<string>)
    | Authorize(now: Instant)
    | CleanupPending(now: Instant)
    | Refresh(forward: nat, now: Instant)
    | Accept(forward: nat, ip: string, now: Instant, dropped: set<AC.ClientKey>)
    | Acquire(forward: nat, conn: nat)
    | Release(forward: nat, conn: nat)

  /** The single packet-handling goroutine: ready for a packet, or between a successful `consume`
      and the grant. */
  datatype Handler = Waiting | Authorizing(ip: string, keyID: string, resp: ChallengeResponse)

  datatype State = State(items: PC.Items, handler: Handler, lists: seq<AC.ClientList>, ports: seq<Fwd.Port>)

  ghost function Initial(setup: Setup): State {
    State(map[], Waiting, seq(|setup.s.forwards|, _ => map[]), seq(|setup.s.forwards|, _ => Fwd.IDLE_PORT))
  }

  ghost function WindowOf(setup: ReadySetup, f: int): int {
    if 0 <= f < |setup.s.forwards| then AC.Window(setup.s.forwards[f]) else 0
  }

  ghost function ConnLimits(setup: ReadySetup, f: int): Fwd.Limits {
    if 0 <= f < |setup.s.forwards|
    then Fwd.Limits(setup.s.forwards[f].maxConnGlobal.value, setup.s.forwards[f].maxConnPerIP.value)
    else Fwd.Limits(0, 0)
  }

  ghost predicate StaticallyAllowed(setup: Setup, f: int, ip: string) {
    0 <= f < |setup.s.forwards| && Settings.StaticAllowed(setup.p, setup.s, setup.s.forwards[f], ip)
  }

  ghost predicate Denied(setup: Setup, ip: string) { Settings.Denied(setup.p, setup.s, ip) }

  ghost function OpOfVerdict(v: Verdict, ip: string, storeTime: Instant, nonce: Option<string>): Store.StoreOp {
    match v
    case Ask(keyID, _, req) =>
      if nonce.Some? then Store.Add(RequestKey(ip, keyID, req, nonce.value), storeTime + CHALLENGE_TTL) else Store.Idle
    case Answer(keyID, resp) => Store.Consume(ResponseKey(ip, keyID, resp), storeTime)
    case Ignored => Store.Idle
  }

  /** The call an event makes on the pending-challenge store. */
  ghost function StoreOpOf(setup: Setup, handler: Handler, e: Event): Store.StoreOp {
    match e
    case Receive(ip, packet, keyTime, checkTime, storeTime, nonce) =>
      if handler != Waiting then Store.Idle
      else OpOfVerdict(Classify(setup, packet, keyTime, checkTime), ip, storeTime, nonce)
    case CleanupPending(now) => Store.Cleanup(now)
    case _ => Store.Idle
  }

  /** The call an event makes on the list of forward `f`. */
  ghost function ListOpOf(setup: Setup, handler: Handler, f: int, e: Event): AC.ListOp {
    match e
    case Authorize(now) =>
      if handler.Authorizing? && Settings.SelectForward(setup.p, setup.s, handler.resp.port, handler.resp.token, 0) == Some(f)
      then AC.Grant(AC.ClientKey(handler.ip, handler.resp.clientID), now)
      else AC.Untouched
    case Refresh(g, now) => if g == f then AC.Sweep(now) else AC.Untouched
    case Accept(g, ip, now, dropped) =>
      if g == f && !Denied(setup, ip) && !StaticallyAllowed(setup, f, ip) then AC.LookupIP(ip, now, dropped) else AC.Untouched
    case _ => AC.Untouched
  }

  ghost function HandlerAfter(setup: Setup, s: State, e: Event): Handler {
    match e
    case Receive(ip, packet, keyTime, checkTime, storeTime, _) =>
      (match StoreOpOf(setup, s.handler, e)
       case Consume(key, now) =>
         var v := Classify(setup, packet, keyTime, checkTime);
         if PC.Redeemable(s.items, key, now) then Authorizing(ip, v.keyID, v.resp) else Waiting
       case _ => s.handler)
    case Authorize(_) => Waiting
    case _ => s.handler
  }

  /** `isIPAuthed`. */
  ghost predicate AcceptCheck(setup: Setup, list: AC.ClientList, f: int, ip: string, now: Instant) {
    !Denied(setup, ip) && (StaticallyAllowed(setup, f, ip) || AC.IPLive(list, ip, now))
  }

  /** What an event does to the connections of forward `f`. */
  ghost function PortOpOf(setup: Setup, list: AC.ClientList, f: int, e: Event): Fwd.PortOp {
    match e
    case Accept(g, ip, now, _) => if g == f && AcceptCheck(setup, list, f, ip, now) then Fwd.Admission(ip, now) else Fwd.NoChange
    case Acquire(g, c) => if g == f then Fwd.SlotRequest(c) else Fwd.NoChange
    case Release(g, c) => if g == f then Fwd.SlotReturn(c) else Fwd.NoChange
    case _ => Fwd.NoChange
  }

  ghost function PortAfter(setup: ReadySetup, list: AC.ClientList, port: Fwd.Port, f: int, e: Event): Fwd.Port {
    Fwd.After(ConnLimits(setup, f), port, PortOpOf(setup, list, f, e))
  }

  /** A step that is not enabled leaves its part of the state alone, so every sequence of events
      is a run. */
  ghost function Step(setup: ReadySetup, s: State, e: Event): State {
    State(
      Store.After(setup.pendingLimits, s.items, StoreOpOf(setup, s.handler, e)),
      HandlerAfter(setup, s, e),
      seq(|s.lists|, f requires 0 <= f < |s.lists| =>
        AC.After(setup.maxClients, WindowOf(setup, f), s.lists[f], ListOpOf(setup, s.handler, f, e))),
      seq(|s.ports|, f requires 0 <= f < |s.ports| =>
        PortAfter(setup, if f < |s.lists| then s.lists[f] else map[], s.ports[f], f, e)))
  }

  ghost function Run(setup: ReadySetup, es: seq<Event>): State {
    if es == [] then Initial(setup) else Step(setup, Run(setup, es[..|es| - 1]), es[|es| - 1])
  }

  lemma RunStep(setup: ReadySetup, es: seq<Event>, i: int)
    requires 0 <= i < |es|
    ensures Run(setup, es[..i + 1]) == Step(setup, Run(setup, es[..i]), es[i])
  {
    assert es[..i + 1][..i] == es[..i];
  }

  lemma RunSnoc(setup: ReadySetup, es: seq<Event>, e: Event)
    ensures Run(setup, es + [e]) == Step(setup, Run(setup, es), e)
  {
    assert (es + [e])[..|es|] == es;
  }

  lemma {:induction false} RunShape(setup: ReadySetup, es: seq<Event>)
    ensures |Run(setup, es).lists| == |Run(setup, es).ports| == |setup.s.forwards|
  {
    if es != [] { RunShape(setup, es[..|es| - 1]); }
  }

  // ----- the code of the handlers -----

  /** The packet handler over the two stores it uses. */
  class PacketHandler {
    const setup: ReadySetup
    const pending: PC.PendingChallengeStore
    const clients: AC.ClientRegistry

    ghost predicate Valid()
      reads this, pending, clients
    {
      && pending.Valid() && pending.limits == setup.pendingLimits
      && clients.Valid() && clients.p == setup.p && clients.s == setup.s && clients.maxClients == setup.maxClients
    }

    ghost function Value(): State
      reads this, pending, clients
    {
      State(pending.items, Waiting, clients.lists, [])
    }

    constructor (setup: ReadySetup)
      ensures Valid() && fresh(pending) && fresh(clients) && this.setup == setup
      ensures Value() == Initial(setup).(ports := [])
    {
      this.setup := setup;
      pending := new PC.PendingChallengeStore(setup.pendingLimits.global, setup.pendingLimits.perIP);
      clients := new AC.ClientRegistry(setup.p, setup.s, setup.maxClients);
    }

    method HandleChallengeRequest(ip: string, keyID: string, key: string, body: Body, checkTime: Instant, storeTime: Instant, nonce: Option<string>)
      returns (reply: Option<Packet>)
      requires Valid() && body.msgType == CHALLENGE_REQUEST
      modifies pending
      ensures Valid()
      ensures var v := ClassifyBody(setup, keyID, key, body, checkTime);
              && pending.items == Store.After(setup.pendingLimits, old(pending.items), OpOfVerdict(v, ip, storeTime, nonce))
              && reply == ReplyToVerdict(setup, old(pending.items), v, ip, storeTime, nonce)
    {
      var req := AsRequest(body);
      ghost var v := ClassifyBody(setup, keyID, key, body, checkTime);
      assert v == if ValidRequest(req, checkTime) && req.serverID == setup.s.serverID then Ask(keyID, key, req) else Ignored;
      if !ValidRequest(req, checkTime) {
        return None;
      }
      if req.serverID != setup.s.serverID {
        return None;
      }
      if nonce.None? {
        return None;
      }
      reply := IssueChallenge(ip, keyID, key, req, storeTime, nonce.value);
    }

    /** The rest of `handleChallengeRequest`, once the request and a nonce are at hand. */
    method IssueChallenge(ip: string, keyID: string, key: string, req: ChallengeRequest, storeTime: Instant, serverNonce: string)
      returns (reply: Option<Packet>)
      requires Valid()
      modifies pending
      ensures Valid()
      ensures pending.items == PC.Added(setup.pendingLimits, old(pending.items), RequestKey(ip, keyID, req, serverNonce), storeTime + CHALLENGE_TTL)
      ensures reply == ReplyToVerdict(setup, old(pending.items), Ask(keyID, key, req), ip, storeTime, Some(serverNonce))
    {
      var expiresAt := storeTime + CHALLENGE_TTL;
      var pendingKey := PC.PendingKey(ip, keyID, req.serverID, req.clientID, req.port, req.clientNonce, serverNonce);
      var added := pending.Add(pendingKey, expiresAt);
      if !added {
        return None;
      }
      var challenge := Challenge(CHALLENGE, req.serverID, req.clientID, req.port, req.clientNonce, serverNonce, Unix(expiresAt));
      var sealed := Seal(key, Context(keyID, setup.s.serverID), ChallengeBody(challenge), ChallengeSize(challenge));
      if sealed.None? {
        return None;
      }
      return Some(Packet(Envelope(keyID, setup.s.serverID, sealed.value)));
    }

    method HandleChallengeResponse(ip: string, keyID: string, body: Body, checkTime: Instant, storeTime: Instant, authTime: Instant)
      requires Valid() && body.msgType == CHALLENGE_RESPONSE
      modifies pending, clients
      ensures Valid()
      ensures var v := ClassifyBody(setup, keyID, "", body, checkTime);
              && pending.items == Store.After(setup.pendingLimits, old(pending.items), OpOfVerdict(v, ip, storeTime, None))
              && clients.lists == ListsAfterVerdict(setup, old(pending.items), old(clients.lists), v, ip, storeTime, authTime)
    {
      var resp := AsResponse(body);
      if !ValidResponse(resp, checkTime) {
        return;
      }
      RedeemResponse(ip, keyID, resp, storeTime, authTime);
    }

    /** The rest of `handleChallengeResponse`, once the response is validated. */
    method RedeemResponse(ip: string, keyID: string, resp: ChallengeResponse, storeTime: Instant, authTime: Instant)
      requires Valid()
      modifies pending, clients
      ensures Valid()
      ensures pending.items == old(pending.items) - {ResponseKey(ip, keyID, resp)}
      ensures clients.lists == ListsAfterVerdict(setup, old(pending.items), old(clients.lists), Answer(keyID, resp), ip, storeTime, authTime)
    {
      var key := PC.PendingKey(ip, keyID, resp.serverID, resp.clientID, resp.port, resp.clientNonce, resp.serverNonce);
      var redeemed := pending.Consume(key, storeTime);
      if redeemed {
        AuthorizeResponse(ip, resp, authTime);
      }
    }

    method AuthorizeResponse(ip: string, resp: ChallengeResponse, now: Instant)
      requires Valid()
      modifies clients
      ensures Valid()
      ensures clients.lists == ListsAfterAuthorize(setup, old(clients.lists), ip, resp, now)
    {
      ListsAfterAuthorizePointwise(setup, clients.lists, ip, resp, now);
      var _ := clients.AuthorizeClient(ip, resp.clientID, resp.port, resp.token, now);
    }

    /** Handling one packet is one `Receive` step followed by one `Authorize` step. */
    method HandleAuthPacket(ip: string, packet: Packet, keyTime: Instant, checkTime: Instant, storeTime: Instant, authTime: Instant, nonce: Option<string>)
      returns (reply: Option<Packet>)
      requires Valid()
      modifies pending, clients
      ensures Valid()
      ensures Value() == var s := Step(setup, old(Value()), Receive(ip, packet, keyTime, checkTime, storeTime, nonce));
                         Step(setup, s, Authorize(authTime))
      ensures reply == Reply(setup, old(Value()), Receive(ip, packet, keyTime, checkTime, storeTime, nonce))
    {
      ghost var before := Value();
      ghost var e := Receive(ip, packet, keyTime, checkTime, storeTime, nonce);
      HandledState(setup, before, e, authTime);
      if packet.Unparsable? || !ValidEnvelope(packet.env) {
        return None;
      }
      var env := packet.env;
      if env.serverID != setup.s.serverID {
        return None;
      }
      var key := Settings.AuthKeyByID(setup.p, setup.s.authKeys, env.keyID, keyTime);
      if key.None? {
        return None;
      }
      var plain := Open(key.value, Context(env.keyID, env.serverID), env.payload);
      if plain.None? || plain.value.Malformed? {
        return None;
      }
      reply := HandleBody(ip, env.keyID, key.value, plain.value.body, checkTime, storeTime, authTime, nonce);
    }

    /** The switch on the message type. */
    method HandleBody(ip: string, keyID: string, key: string, body: Body, checkTime: Instant, storeTime: Instant, authTime: Instant, nonce: Option<string>)
      returns (reply: Option<Packet>)
      requires Valid()
      modifies pending, clients
      ensures Valid()
      ensures var v := ClassifyBody(setup, keyID, key, body, checkTime);
              && pending.items == Store.After(setup.pendingLimits, old(pending.items), OpOfVerdict(v, ip, storeTime, nonce))
              && clients.lists == ListsAfterVerdict(setup, old(pending.items), old(clients.lists), v, ip, storeTime, authTime)
              && reply == ReplyToVerdict(setup, old(pending.items), v, ip, storeTime, nonce)
    {
      if body.msgType == CHALLENGE_REQUEST {
        reply := HandleChallengeRequest(ip, keyID, key, body, checkTime, storeTime, nonce);
      } else if body.msgType == CHALLENGE_RESPONSE {
        HandleChallengeResponse(ip, keyID, body, checkTime, storeTime, authTime);
        reply := None;
      } else {
        reply := None;
      }
    }
  }

  ghost function ReplyToVerdict(setup: Setup, items: PC.Items, v: Verdict, ip: string, storeTime: Instant, nonce: Option<string>): Option<Packet> {
    if v.Ask? && nonce.Some? && PC.HasRoom(setup.pendingLimits, items, ip)
    then SealedChallenge(setup.s.serverID, v.keyID, v.key, IssuedChallenge(v.req, nonce.value, storeTime))
    else None
  }

  /** The datagram an event sends back. */
  ghost function Reply(setup: Setup, s: State, e: Event): Option<Packet> {
    if e.Receive? && s.handler == Waiting
    then ReplyToVerdict(setup, s.items, Classify(setup, e.packet, e.keyTime, e.checkTime), e.ip, e.storeTime, e.nonce)
    else None
  }

  ghost function ListsAfterVerdict(setup: ReadySetup, items: PC.Items, lists: seq<AC.ClientList>, v: Verdict, ip: string, storeTime: Instant, authTime: Instant): seq<AC.ClientList> {
    if v.Answer? && PC.Redeemable(items, ResponseKey(ip, v.keyID, v.resp), storeTime)
    then ListsAfterAuthorize(setup, lists, ip, v.resp, authTime) else lists
  }

  ghost function ListsAfterAuthorize(setup: ReadySetup, lists: seq<AC.ClientList>, ip: string, resp: ChallengeResponse, now: Instant): seq<AC.ClientList> {
    seq(|lists|, f requires 0 <= f < |lists| =>
      AC.After(setup.maxClients, WindowOf(setup, f), lists[f], ListOpOf(setup, Authorizing(ip, "", resp), f, Authorize(now))))
  }

  /** One authorization changes at most one list. */
  lemma ListsAfterAuthorizePointwise(setup: ReadySetup, lists: seq<AC.ClientList>, ip: string, resp: ChallengeResponse, now: Instant)
    requires |lists| == |setup.s.forwards|
    ensures ListsAfterAuthorize(setup, lists, ip, resp, now) ==
            match Settings.SelectForward(setup.p, setup.s, resp.port, resp.token, 0)
            case None => lists
            case Some(f) => lists[f := AC.After(setup.maxClients, AC.Window(setup.s.forwards[f]), lists[f],
                                                AC.Grant(AC.ClientKey(ip, resp.clientID), now))]
  {
  }

  /** The two steps of one packet, seen from a waiting handler. */
  lemma HandledState(setup: ReadySetup, s: State, e: Event, authTime: Instant)
    requires e.Receive? && s.handler == Waiting && s.ports == []
    ensures var v := Classify(setup, e.packet, e.keyTime, e.checkTime);
            Step(setup, Step(setup, s, e), Authorize(authTime)) ==
            State(Store.After(setup.pendingLimits, s.items, OpOfVerdict(v, e.ip, e.storeTime, e.nonce)), Waiting,
                  ListsAfterVerdict(setup, s.items, s.lists, v, e.ip, e.storeTime, authTime), [])
  {
    var mid := Step(setup, s, e);
    assert mid.lists == s.lists;
    var end := Step(setup, mid, Authorize(authTime));
    assert end.ports == [];
    if mid.handler == Waiting {
      assert end.lists == s.lists;
    } else {
      assert end.lists == ListsAfterAuthorize(setup, s.lists, mid.handler.ip, mid.handler.resp, authTime);
    }
  }
}
