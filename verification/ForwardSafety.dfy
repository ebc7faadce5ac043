/** End to end: over every interleaving, who is being forwarded and why, and that the limiter's
    counters are the live connections. */
module ForwardSafety {
  import opened Basics
  import opened AuthServer
  import opened AuthRuns
  import AuthProto
  import Settings
  import AC = AuthorizedClients
  import History = ClientHistory
  import Fwd = Forwarding

  // ----- connection conservation -----

  /** In every reachable state the limiter of a forward counts exactly the connections between
      acquire and release, within its positive limits. */
  lemma {:induction false} ConnectionsConserved(setup: ReadySetup, es: seq<Event>, f: int)
    requires 0 <= f < |setup.s.forwards|
    ensures f < |Run(setup, es).ports|
    ensures Fwd.Conserved(Run(setup, es).ports[f])
    ensures Fwd.UnderLimits(ConnLimits(setup, f), Run(setup, es).ports[f])
  {
    RunShape(setup, es);
    if es == [] {
      assert Fwd.LimiterFor(multiset{}) == Fwd.EMPTY_LIMITER;
    } else {
      var n := |es| - 1;
      RunShape(setup, es[..n]);
      ConnectionsConserved(setup, es[..n], f);
      var before, limits := Run(setup, es[..n]), ConnLimits(setup, f);
      Fwd.StepConserves(limits, before.ports[f], PortOpOf(setup, before.lists[f], f, es[n]));
    }
  }

  /** Whenever no connection of a forward is being handled, its limiter is as it was at the start. */
  lemma QuietForwardIsInitial(setup: ReadySetup, es: seq<Event>, f: int)
    requires 0 <= f < |Run(setup, es).ports|
    requires forall c | 0 <= c < |Run(setup, es).ports[f].conns| :: Run(setup, es).ports[f].conns[c].phase != Fwd.Handling
    ensures Run(setup, es).ports[f].limiter == Fwd.EMPTY_LIMITER
  {
    RunShape(setup, es);
    ConnectionsConserved(setup, es, f);
    Fwd.DrainedLimiterIsInitial(Run(setup, es).ports[f]);
  }

  // ----- the accept check, from history alone -----

  /** The clock readings taken while the client lists are locked do not decrease along the run,
      and none is later than `t`. */
  ghost function ListClock(e: Event): Option<Instant> {
    match e
    case Authorize(now) => Some(now)
    case Refresh(_, now) => Some(now)
    case Accept(_, _, now, _) => Some(now)
    case _ => None
  }

  ghost predicate ClocksUpTo(es: seq<Event>, t: Instant) {
    && (forall i, j | 0 <= i < j < |es| && ListClock(es[i]).Some? && ListClock(es[j]).Some? ::
          ListClock(es[i]).value <= ListClock(es[j]).value)
    && (forall i | 0 <= i < |es| && ListClock(es[i]).Some? :: ListClock(es[i]).value <= t)
  }

  lemma ListOpClock(setup: ReadySetup, es: seq<Event>, f: int, i: int)
    requires 0 <= i < |es|
    ensures History.ClockOf(ListOps(setup, f, es)[i]).Some? ==>
            History.ClockOf(ListOps(setup, f, es)[i]) == ListClock(es[i])
  {
  }

  lemma ListClocksUpTo(setup: ReadySetup, es: seq<Event>, f: int, t: Instant)
    requires ClocksUpTo(es, t)
    ensures History.ClocksUpTo(ListOps(setup, f, es), t)
  {
    var ops := ListOps(setup, f, es);
    forall i | 0 <= i < |ops| ensures History.ClockOf(ops[i]).Some? ==> History.ClockOf(ops[i]) == ListClock(es[i]) {
      ListOpClock(setup, es, f, i);
    }
  }

  /** Some earlier event authorized a client of this address on this forward for a window that
      covers `t`. */
  ghost predicate TokenWindow(setup: ReadySetup, es: seq<Event>, f: int, ip: string, t: Instant) {
    exists g, keyID, resp :: Authorizes(setup, es, g, f, ip, keyID, resp) && es[g].now <= t < es[g].now + WindowOf(setup, f)
  }

  /** A grant in the list's history is an authorization event, and vice versa. */
  lemma GrantIsAuthorization(setup: ReadySetup, es: seq<Event>, f: int, g: int, key: AC.ClientKey)
    requires 0 <= f < |setup.s.forwards|
    ensures History.Grants(setup.maxClients, WindowOf(setup, f), ListOps(setup, f, es), g, key) <==>
            exists keyID, resp :: Authorizes(setup, es, g, f, key.ip, keyID, resp) && resp.clientID == key.clientID
    ensures History.Grants(setup.maxClients, WindowOf(setup, f), ListOps(setup, f, es), g, key) ==>
            ListOps(setup, f, es)[g].now == es[g].now
  {
    if 0 <= g < |es| && es[g].Authorize? {
      ListOpsPrefix(setup, f, es, g);
      RunProjectsList(setup, f, es[..g]);
      var handler := Run(setup, es[..g]).handler;
      if handler.Authorizing? && ListOps(setup, f, es)[g].Grant? && !AC.Refused(setup.maxClients, Run(setup, es[..g]).lists[f], key, es[g].now) && handler.ip == key.ip && handler.resp.clientID == key.clientID {
        assert Authorizes(setup, es, g, f, key.ip, handler.keyID, handler.resp);
      }
    }
  }

  /** At any time the accept check passes exactly for the addresses that are not denied and are
      statically allowed or inside the window of a past authorization, whatever entries the
      other code paths have deleted and in whatever order maps were ranged over. */
  lemma AcceptCheckIsExact(setup: ReadySetup, es: seq<Event>, f: int, ip: string, t: Instant)
    requires 0 <= f < |setup.s.forwards| && ClocksUpTo(es, t)
    ensures f < |Run(setup, es).lists|
    ensures AcceptCheck(setup, Run(setup, es).lists[f], f, ip, t) <==>
            !Denied(setup, ip) && (StaticallyAllowed(setup, f, ip) || TokenWindow(setup, es, f, ip, t))
  {
    RunProjectsList(setup, f, es);
    ListClocksUpTo(setup, es, f, t);
    History.IPLiveIffWindowOpen(setup.maxClients, WindowOf(setup, f), ListOps(setup, f, es), ip, t);
    TokenWindowIsListWindow(setup, es, f, ip, t);
  }

  lemma TokenWindowIsListWindow(setup: ReadySetup, es: seq<Event>, f: int, ip: string, t: Instant)
    requires 0 <= f < |setup.s.forwards|
    ensures TokenWindow(setup, es, f, ip, t) <==>
            exists clientID :: History.WindowOpen(setup.maxClients, WindowOf(setup, f), ListOps(setup, f, es), AC.ClientKey(ip, clientID), t)
  {
    var max, w, ops := setup.maxClients, WindowOf(setup, f), ListOps(setup, f, es);
    if clientID :| History.WindowOpen(max, w, ops, AC.ClientKey(ip, clientID), t) {
      ListWindowIsToken(setup, es, f, ip, clientID, t);
    }
    if g, keyID, resp :| Authorizes(setup, es, g, f, ip, keyID, resp) && es[g].now <= t < es[g].now + w {
      GrantIsAuthorization(setup, es, f, g, AC.ClientKey(ip, resp.clientID));
      assert History.WindowOpen(max, w, ops, AC.ClientKey(ip, resp.clientID), t);
    }
  }

  lemma ListWindowIsToken(setup: ReadySetup, es: seq<Event>, f: int, ip: string, clientID: string, t: Instant)
    requires 0 <= f < |setup.s.forwards|
    requires History.WindowOpen(setup.maxClients, WindowOf(setup, f), ListOps(setup, f, es), AC.ClientKey(ip, clientID), t)
    ensures TokenWindow(setup, es, f, ip, t)
  {
    var max, w, ops := setup.maxClients, WindowOf(setup, f), ListOps(setup, f, es);
    var g :| History.Grants(max, w, ops, g, AC.ClientKey(ip, clientID)) && ops[g].now <= t < ops[g].now + w;
    GrantIsAuthorization(setup, es, f, g, AC.ClientKey(ip, clientID));
  }

  // ----- when an authorization is refused, from history alone -----

  /** Some earlier event authorized this client on this forward for a window that covers `t`. */
  ghost predicate ClientWindow(setup: ReadySetup, es: seq<Event>, f: int, key: AC.ClientKey, t: Instant) {
    exists g, keyID, resp ::
      && Authorizes(setup, es, g, f, key.ip, keyID, resp) && resp.clientID == key.clientID
      && es[g].now <= t < es[g].now + WindowOf(setup, f)
  }

  lemma ListWindowIsClient(setup: ReadySetup, es: seq<Event>, f: int, key: AC.ClientKey, t: Instant)
    requires 0 <= f < |setup.s.forwards|
    requires History.WindowOpen(setup.maxClients, WindowOf(setup, f), ListOps(setup, f, es), key, t)
    ensures ClientWindow(setup, es, f, key, t)
  {
    var max, w, ops := setup.maxClients, WindowOf(setup, f), ListOps(setup, f, es);
    var g :| History.Grants(max, w, ops, g, key) && ops[g].now <= t < ops[g].now + w;
    GrantIsAuthorization(setup, es, f, g, key);
  }

  lemma ClientWindowIsListWindow(setup: ReadySetup, es: seq<Event>, f: int, key: AC.ClientKey, t: Instant)
    requires 0 <= f < |setup.s.forwards|
    ensures ClientWindow(setup, es, f, key, t) <==> History.WindowOpen(setup.maxClients, WindowOf(setup, f), ListOps(setup, f, es), key, t)
  {
    var max, w, ops := setup.maxClients, WindowOf(setup, f), ListOps(setup, f, es);
    if History.WindowOpen(max, w, ops, key, t) {
      ListWindowIsClient(setup, es, f, key, t);
    }
    if g, keyID, resp :| Authorizes(setup, es, g, f, key.ip, keyID, resp) && resp.clientID == key.clientID && es[g].now <= t < es[g].now + w {
      GrantIsAuthorization(setup, es, f, g, key);
    }
  }

  /** The clients of a forward that are inside a window. */
  ghost function ClientsInside(setup: ReadySetup, es: seq<Event>, f: int, t: Instant): set<AC.ClientKey> {
    History.OpenClients(setup.maxClients, WindowOf(setup, f), ListOps(setup, f, es), t)
  }

  lemma ClientsInsideExact(setup: ReadySetup, es: seq<Event>, f: int, t: Instant, key: AC.ClientKey)
    requires 0 <= f < |setup.s.forwards|
    ensures key in ClientsInside(setup, es, f, t) <==> ClientWindow(setup, es, f, key, t)
  {
    ClientWindowIsListWindow(setup, es, f, key, t);
    History.OpenClientsExact(setup.maxClients, WindowOf(setup, f), ListOps(setup, f, es), t, key);
  }

  /** A redeemed response whose token is allowed on a forward fails to authorize exactly when there is
      a positive maximum, its client is inside no window, and at least that many other clients are. */
  lemma AuthorizationFailsIff(setup: ReadySetup, es: seq<Event>, f: int, ip: string, keyID: string, resp: AuthProto.ChallengeResponse, now: Instant)
    requires ClocksUpTo(es, now)
    requires Run(setup, es).handler == Authorizing(ip, keyID, resp)
    requires Settings.SelectForward(setup.p, setup.s, resp.port, resp.token, 0) == Some(f)
    ensures Authorizes(setup, es + [Authorize(now)], |es|, f, ip, keyID, resp) <==>
            !(setup.maxClients > 0 && !ClientWindow(setup, es, f, AC.ClientKey(ip, resp.clientID), now)
              && |ClientsInside(setup, es, f, now)| >= setup.maxClients)
  {
    var key := AC.ClientKey(ip, resp.clientID);
    assert (es + [Authorize(now)])[..|es|] == es;
    RunProjectsList(setup, f, es);
    ListClocksUpTo(setup, es, f, now);
    ClientWindowIsListWindow(setup, es, f, key, now);
    History.LiveIffWindowOpen(setup.maxClients, WindowOf(setup, f), ListOps(setup, f, es), key, now);
    History.LiveAreOpenClients(setup.maxClients, WindowOf(setup, f), ListOps(setup, f, es), now);
    assert |AC.Live(Run(setup, es).lists[f], now)| == |AC.Live(Run(setup, es).lists[f], now).Keys|;
  }

  // ----- every connection was admitted -----

  /** Event `a` is the accept check that let this connection in. */
  ghost predicate Admits(setup: ReadySetup, es: seq<Event>, a: int, f: int, conn: Fwd.Conn) {
    && 0 <= a < |es| && es[a].Accept? && es[a].forward == f && es[a].ip == conn.ip && es[a].now == conn.checkedAt
    && 0 <= f < |Run(setup, es[..a]).lists|
    && AcceptCheck(setup, Run(setup, es[..a]).lists[f], f, conn.ip, conn.checkedAt)
  }

  /** A step keeps every connection's address and check time, and only a passed accept check
      adds one. */
  lemma OnlyAcceptAddsConnections(setup: ReadySetup, list: AC.ClientList, port: Fwd.Port, f: int, e: Event, c: int)
    requires 0 <= c < |PortAfter(setup, list, port, f, e).conns|
    ensures var conn := PortAfter(setup, list, port, f, e).conns[c];
            if c < |port.conns| then port.conns[c].ip == conn.ip && port.conns[c].checkedAt == conn.checkedAt
            else e.Accept? && e.forward == f && e.ip == conn.ip && e.now == conn.checkedAt
                 && AcceptCheck(setup, list, f, conn.ip, conn.checkedAt)
  {
  }

  lemma {:induction false} ConnectionWasAdmitted(setup: ReadySetup, es: seq<Event>, f: int, c: int)
    requires 0 <= f < |Run(setup, es).ports| && 0 <= c < |Run(setup, es).ports[f].conns|
    ensures exists a :: Admits(setup, es, a, f, Run(setup, es).ports[f].conns[c])
  {
    RunShape(setup, es);
    if es != [] {
      var n := |es| - 1;
      RunShape(setup, es[..n]);
      var before := Run(setup, es[..n]);
      var conn := Run(setup, es).ports[f].conns[c];
      OnlyAcceptAddsConnections(setup, before.lists[f], before.ports[f], f, es[n], c);
      if c < |before.ports[f].conns| {
        ConnectionWasAdmitted(setup, es[..n], f, c);
        var a :| Admits(setup, es[..n], a, f, before.ports[f].conns[c]);
        assert es[..n][..a] == es[..a];
        assert Admits(setup, es, a, f, conn);
      } else {
        assert Admits(setup, es, n, f, conn);
      }
    }
  }

  /** At event `a` the connection passed its accept check inside the window that event `g` gave
      its address on forward `f`, for a response redeemed at `c` over the challenge issued at `j`. */
  ghost predicate TokenAdmission(setup: ReadySetup, es: seq<Event>, a: int, g: int, f: int, conn: Fwd.Conn,
                                 keyID: string, resp: AuthProto.ChallengeResponse, c: int, j: int) {
    && Admits(setup, es, a, f, conn)
    && Provenance(setup, es[..a], g, f, conn.ip, keyID, resp, c, j)
    && es[g].Authorize? && es[g].now <= conn.checkedAt < es[g].now + WindowOf(setup, f)
  }

  /** Why a connection may be forwarded: at its accept check, event `a`, its address was not
      denied, and was statically allowed or inside the window of an earlier authorization whose
      whole provenance is an issued and redeemed challenge. */
  ghost predicate Justified(setup: ReadySetup, es: seq<Event>, a: int, f: int, conn: Fwd.Conn) {
    && Admits(setup, es, a, f, conn)
    && !Denied(setup, conn.ip)
    && (StaticallyAllowed(setup, f, conn.ip)
        || exists g, keyID, resp, c, j :: TokenAdmission(setup, es, a, g, f, conn, keyID, resp, c, j))
  }

  /** The main safety theorem: every connection a forward ever takes on, in any interleaving of
      packets, cleanups, accepts, acquires and releases, is justified. */
  lemma ConnectionsJustified(setup: ReadySetup, es: seq<Event>, t: Instant, f: int, c: int)
    requires ClocksUpTo(es, t)
    requires 0 <= f < |Run(setup, es).ports| && 0 <= c < |Run(setup, es).ports[f].conns|
    ensures exists a :: Justified(setup, es, a, f, Run(setup, es).ports[f].conns[c])
  {
    RunShape(setup, es);
    var conn := Run(setup, es).ports[f].conns[c];
    ConnectionWasAdmitted(setup, es, f, c);
    var a :| Admits(setup, es, a, f, conn);
    AdmittedIsJustified(setup, es, t, a, f, conn);
  }

  lemma WindowGivesAdmission(setup: ReadySetup, es: seq<Event>, a: int, f: int, conn: Fwd.Conn)
    requires Admits(setup, es, a, f, conn)
    requires TokenWindow(setup, es[..a], f, conn.ip, conn.checkedAt)
    ensures exists g, keyID, resp, c, j :: TokenAdmission(setup, es, a, g, f, conn, keyID, resp, c, j)
  {
    var before := es[..a];
    var g, keyID, resp :| Authorizes(setup, before, g, f, conn.ip, keyID, resp)
                       && before[g].now <= conn.checkedAt < before[g].now + WindowOf(setup, f);
    AuthorizationAgreement(setup, before, g, f, conn.ip, keyID, resp);
    assert TokenAdmission(setup, es, a, g, f, conn, keyID, resp, RedeemedAt(setup, before[..g]), ChallengeOf(setup, before, g, conn.ip, keyID, resp));
  }

  lemma AdmittedIsJustified(setup: ReadySetup, es: seq<Event>, t: Instant, a: int, f: int, conn: Fwd.Conn)
    requires ClocksUpTo(es, t) && 0 <= f < |setup.s.forwards|
    requires Admits(setup, es, a, f, conn)
    ensures Justified(setup, es, a, f, conn)
  {
    assert ListClock(es[a]).Some?;
    assert ClocksUpTo(es[..a], conn.checkedAt);
    AcceptCheckIsExact(setup, es[..a], f, conn.ip, conn.checkedAt);
    if !StaticallyAllowed(setup, f, conn.ip) {
      WindowGivesAdmission(setup, es, a, f, conn);
    }
  }
}
