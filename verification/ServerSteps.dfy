/** What each event of the running server brings about, at any point of any run, in terms of the
    history and of the configured settings: the counterparts of the safety theorems, which alone
    would also hold of a server that never serves. */
module ServerSteps {
  import opened Basics
  import opened AuthProto
  import opened AuthServer
  import opened AuthRuns
  import opened ForwardSafety
  import PC = PendingChallenges
  import Store = ChallengeHistory
  import AC = AuthorizedClients
  import History = ClientHistory
  import Fwd = Forwarding

  // ----- connections -----

  /** Every forward but `f` keeps its connections and counters. */
  ghost predicate OtherPortsKept(before: State, after: State, f: int) {
    |after.ports| == |before.ports| && forall g | 0 <= g < |before.ports| && g != f :: after.ports[g] == before.ports[g]
  }

  /** A forward's positive limits, as configured, are reached by connections that are being handled:
      from anywhere, or from this address. */
  ghost predicate AtLimit(setup: ReadySetup, f: nat, conns: seq<Fwd.Conn>, ip: string)
    requires f < |setup.s.forwards|
  {
    var fwd := setup.s.forwards[f];
    || (fwd.maxConnGlobal.value > 0 && |Fwd.AllHandling(conns)| >= fwd.maxConnGlobal.value)
    || (fwd.maxConnPerIP.value > 0 && |Fwd.HandlingFrom(conns, ip)| >= fwd.maxConnPerIP.value)
  }

  lemma AcceptStepOnly(setup: ReadySetup, s: State, f: nat, ip: string, now: Instant, dropped: set<AC.ClientKey>)
    requires |s.lists| == |s.ports| == |setup.s.forwards| && f < |s.ports|
    ensures var after := Step(setup, s, Accept(f, ip, now, dropped));
            && OtherPortsKept(s, after, f) && after.items == s.items && after.handler == s.handler
            && after.ports[f] == if AcceptCheck(setup, s.lists[f], f, ip, now) then Fwd.Admit(s.ports[f], ip, now) else s.ports[f]
  {
  }

  /** An accepted connection is admitted exactly if the accept check passes by the history; it is
      then the newest connection of its forward, and nothing else changes. */
  lemma AcceptInRun(setup: ReadySetup, es: seq<Event>, f: nat, ip: string, now: Instant, dropped: set<AC.ClientKey>)
    requires f < |setup.s.forwards| && ClocksUpTo(es, now)
    ensures var before, after := Run(setup, es), Run(setup, es + [Accept(f, ip, now, dropped)]);
            && f < |before.ports| && OtherPortsKept(before, after, f)
            && after.items == before.items && after.handler == before.handler
            && after.ports[f].limiter == before.ports[f].limiter
            && after.ports[f].conns == before.ports[f].conns
                 + if !Denied(setup, ip) && (StaticallyAllowed(setup, f, ip) || TokenWindow(setup, es, f, ip, now))
                   then [Fwd.Conn(ip, now, Fwd.Admitted)] else []
  {
    RunShape(setup, es);
    RunSnoc(setup, es, Accept(f, ip, now, dropped));
    AcceptStepOnly(setup, Run(setup, es), f, ip, now, dropped);
    AcceptCheckIsExact(setup, es, f, ip, now);
  }

  lemma AcquireStepOnly(setup: ReadySetup, s: State, f: nat, c: nat)
    requires |s.lists| == |s.ports| == |setup.s.forwards| && f < |s.ports|
    ensures var after := Step(setup, s, Acquire(f, c));
            && OtherPortsKept(s, after, f) && after.items == s.items && after.handler == s.handler && after.lists == s.lists
            && after.ports[f] == Fwd.AcquireStep(ConnLimits(setup, f), s.ports[f], c)
  {
    assert Step(setup, s, Acquire(f, c)).lists == s.lists;
  }

  /** An admitted connection that takes its next step is handled, unless a configured positive limit
      is reached by connections being handled: then it is rejected. Nothing else changes. */
  lemma AcquireInRun(setup: ReadySetup, es: seq<Event>, f: nat, c: nat)
    requires f < |Run(setup, es).ports| && c < |Run(setup, es).ports[f].conns|
    requires Run(setup, es).ports[f].conns[c].phase == Fwd.Admitted
    ensures f < |setup.s.forwards|
    ensures var before, after := Run(setup, es), Run(setup, es + [Acquire(f, c)]);
            var conns := before.ports[f].conns;
            && OtherPortsKept(before, after, f) && after.items == before.items && after.handler == before.handler && after.lists == before.lists
            && Fwd.OnlyPhaseChanges(conns, after.ports[f].conns, c, if AtLimit(setup, f, conns, conns[c].ip) then Fwd.Rejected else Fwd.Handling)
  {
    RunShape(setup, es);
    RunSnoc(setup, es, Acquire(f, c));
    ConnectionsConserved(setup, es, f);
    AcquireStepOnly(setup, Run(setup, es), f, c);
    Fwd.AcquireOutcome(ConnLimits(setup, f), Run(setup, es).ports[f], c);
  }

  lemma ReleaseStepOnly(setup: ReadySetup, s: State, f: nat, c: nat)
    requires |s.lists| == |s.ports| == |setup.s.forwards| && f < |s.ports|
    ensures var after := Step(setup, s, Release(f, c));
            && OtherPortsKept(s, after, f) && after.items == s.items && after.handler == s.handler && after.lists == s.lists
            && after.ports[f] == Fwd.ReleaseStep(s.ports[f], c)
  {
    assert Step(setup, s, Release(f, c)).lists == s.lists;
  }

  /** When handling ends the connection is finished and gives its slot back: one less is handled, in
      total and from its address. Nothing else changes. */
  lemma ReleaseInRun(setup: ReadySetup, es: seq<Event>, f: nat, c: nat, ip: string)
    requires f < |Run(setup, es).ports| && c < |Run(setup, es).ports[f].conns|
    requires Run(setup, es).ports[f].conns[c].phase == Fwd.Handling
    ensures var before, after := Run(setup, es), Run(setup, es + [Release(f, c)]);
            var conns, later := before.ports[f].conns, after.ports[f].conns;
            && OtherPortsKept(before, after, f) && after.items == before.items && after.handler == before.handler && after.lists == before.lists
            && Fwd.OnlyPhaseChanges(conns, later, c, Fwd.Finished)
            && |Fwd.AllHandling(later)| == |Fwd.AllHandling(conns)| - 1
            && |Fwd.HandlingFrom(later, ip)| == |Fwd.HandlingFrom(conns, ip)| - if conns[c].ip == ip then 1 else 0
  {
    RunShape(setup, es);
    RunSnoc(setup, es, Release(f, c));
    ReleaseStepOnly(setup, Run(setup, es), f, c);
    Fwd.ReleaseOutcome(Run(setup, es).ports[f], c, ip);
  }

  // ----- client lists -----

  /** A refresh leaves on its list exactly the clients inside a window. */
  lemma RefreshInRun(setup: ReadySetup, es: seq<Event>, f: nat, now: Instant, key: AC.ClientKey)
    requires f < |setup.s.forwards| && ClocksUpTo(es, now)
    ensures f < |Run(setup, es + [Refresh(f, now)]).lists|
    ensures key in Run(setup, es + [Refresh(f, now)]).lists[f] <==> ClientWindow(setup, es, f, key, now)
  {
    RunShape(setup, es);
    RunSnoc(setup, es, Refresh(f, now));
    RunProjectsList(setup, f, es);
    ListClocksUpTo(setup, es, f, now);
    ClientWindowIsListWindow(setup, es, f, key, now);
    History.LiveIffWindowOpen(setup.maxClients, WindowOf(setup, f), ListOps(setup, f, es), key, now);
  }

  // ----- challenges -----

  /** The challenges the server has issued and neither redeemed nor cleaned away. */
  ghost function Unanswered(setup: ReadySetup, es: seq<Event>): set<PC.PendingKey> {
    Store.OutstandingKeys(setup.pendingLimits, StoreOps(setup, es))
  }

  ghost function UnansweredFrom(setup: ReadySetup, es: seq<Event>, ip: string): set<PC.PendingKey> {
    set key | key in Unanswered(setup, es) && key.ip == ip
  }

  /** Each of them was issued for a request from its address. */
  lemma UnansweredWasIssued(setup: ReadySetup, es: seq<Event>, key: PC.PendingKey)
    requires key in Unanswered(setup, es)
    ensures exists j :: IssuesKey(setup, es, j, key)
  {
    var j :| 0 <= j < |es| && StoreOps(setup, es)[j].Add? && StoreOps(setup, es)[j].key == key
          && Store.OutstandingSince(setup.pendingLimits, StoreOps(setup, es), j, key);
    InsertIssuesKey(setup, es, j, key);
  }

  lemma AskedCanBeSealed(setup: ReadySetup, packet: Packet, keyTime: Instant, checkTime: Instant, serverNonce: string, now: Instant)
    requires Classify(setup, packet, keyTime, checkTime).Ask?
    ensures var v := Classify(setup, packet, keyTime, checkTime);
            SealedChallenge(setup.s.serverID, v.keyID, v.key, IssuedChallenge(v.req, serverNonce, now)).Some?
  {
  }

  /** A request is answered exactly unless a positive limit's number of challenges is unanswered, in
      total or from its address; and then with its challenge, which is pending from then on. */
  lemma RequestInRun(setup: ReadySetup, es: seq<Event>, e: Event, serverNonce: string)
    requires Run(setup, es).handler == Waiting && e.Receive? && e.nonce == Some(serverNonce)
    requires Classify(setup, e.packet, e.keyTime, e.checkTime).Ask?
    ensures var v := Classify(setup, e.packet, e.keyTime, e.checkTime);
            var limits := setup.pendingLimits;
            if (limits.global > 0 && |Unanswered(setup, es)| >= limits.global)
               || (limits.perIP > 0 && |UnansweredFrom(setup, es, e.ip)| >= limits.perIP)
            then Reply(setup, Run(setup, es), e) == None
            else
              && Reply(setup, Run(setup, es), e).Some?
              && Reply(setup, Run(setup, es), e) == SealedChallenge(setup.s.serverID, v.keyID, v.key, IssuedChallenge(v.req, serverNonce, e.storeTime))
              && RequestKey(e.ip, v.keyID, v.req, serverNonce) in Run(setup, es + [e]).items
  {
    AskedCanBeSealed(setup, e.packet, e.keyTime, e.checkTime, serverNonce, e.storeTime);
    RunProjectsStore(setup, es);
    Store.RoomIff(setup.pendingLimits, StoreOps(setup, es), e.ip);
    assert UnansweredFrom(setup, es, e.ip) == Store.OutstandingFrom(setup.pendingLimits, StoreOps(setup, es), e.ip);
    RunSnoc(setup, es, e);
  }

  /** Event `j` issued this challenge, and it is unanswered and not yet 30 s old. */
  ghost predicate OpenSince(setup: ReadySetup, es: seq<Event>, j: int, key: PC.PendingKey, now: Instant) {
    && IssuesKey(setup, es, j, key)
    && Store.OutstandingSince(setup.pendingLimits, StoreOps(setup, es), j, key)
    && now < es[j].storeTime + 30 * SECOND
  }

  lemma RedeemableIffOpen(setup: ReadySetup, es: seq<Event>, key: PC.PendingKey, now: Instant)
    ensures PC.Redeemable(Run(setup, es).items, key, now) <==> exists j :: OpenSince(setup, es, j, key, now)
  {
    var limits, ops := setup.pendingLimits, StoreOps(setup, es);
    RunProjectsStore(setup, es);
    if PC.Redeemable(Store.Run(limits, ops), key, now) {
      var j := Store.LastInsert(limits, ops, key);
      Store.StoredMeansOutstanding(limits, ops, key);
      Store.StoredKeyHasOrigin(limits, ops, key);
      InsertIssuesKey(setup, es, j, key);
      assert OpenSince(setup, es, j, key, now);
    }
    if j :| OpenSince(setup, es, j, key, now) {
      Store.OutstandingMeansStored(limits, ops, j, key);
      InsertIssuesKey(setup, es, j, key);
    }
  }

  /** A response takes the handler on to authorizing exactly if its challenge is unanswered and not
      yet 30 s old; either way the challenge cannot be answered again. */
  lemma ResponseInRun(setup: ReadySetup, es: seq<Event>, e: Event)
    requires Run(setup, es).handler == Waiting && e.Receive?
    requires Classify(setup, e.packet, e.keyTime, e.checkTime).Answer?
    ensures var v := Classify(setup, e.packet, e.keyTime, e.checkTime);
            var key := ResponseKey(e.ip, v.keyID, v.resp);
            var after := Run(setup, es + [e]);
            && key !in after.items
            && after.handler == if exists j :: OpenSince(setup, es, j, key, e.storeTime) then Authorizing(e.ip, v.keyID, v.resp) else Waiting
  {
    var v := Classify(setup, e.packet, e.keyTime, e.checkTime);
    RunSnoc(setup, es, e);
    RedeemableIffOpen(setup, es, ResponseKey(e.ip, v.keyID, v.resp), e.storeTime);
  }
}
