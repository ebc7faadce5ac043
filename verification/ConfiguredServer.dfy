/** What a configuration, as written, makes the running server do: end to end from its text through
    `CheckValid` to every reachable state. */
module ConfiguredServer {
  import opened Basics
  import opened AuthServer
  import opened AuthRuns
  import opened ForwardSafety
  import opened Settings
  import ConfigChecked
  import ServerSteps
  import Fwd = Forwarding

  /** The server runs what `CheckValid` left of the configuration `s`. */
  ghost predicate Serves(setup: ReadySetup, s: Server, loadedAt: Instant) {
    Accepted(setup.p, s, loadedAt) && setup.s == Checked(setup.p, s)
  }

  /** Seconds, as written, or an hour. */
  function WindowSeconds(f: Forward): Uint32 { match f.authExpiredTime case Some(seconds) => seconds case None => 3600 }

  function GlobalLimit(f: Forward): Uint32 { match f.maxConnGlobal case Some(n) => n case None => 1024 }

  function PerIPLimit(f: Forward): Uint32 { match f.maxConnPerIP case Some(n) => n case None => 16 }

  /** What reaches the running server of each forward's settings, and in which unit. */
  lemma SettingsReachServer(setup: ReadySetup, s: Server, loadedAt: Instant, f: nat)
    requires Serves(setup, s, loadedAt) && f < |s.forwards|
    ensures f < |setup.s.forwards| == |s.forwards| && setup.s.forwards[f].bindPort == s.forwards[f].bindPort
    ensures WindowOf(setup, f) == 1_000_000_000 * WindowSeconds(s.forwards[f])
    ensures setup.s.forwards[f].maxConnGlobal == Some(GlobalLimit(s.forwards[f]))
    ensures setup.s.forwards[f].maxConnPerIP == Some(PerIPLimit(s.forwards[f]))
    ensures ConnLimits(setup, f) == Fwd.Limits(GlobalLimit(s.forwards[f]), PerIPLimit(s.forwards[f]))
  {
    ConfigChecked.SettingsAsWritten(setup.p, s, s.forwards[f]);
  }

  // ----- the accept check -----

  /** Some rule of the list as written has a text that is how the address is printed, or a network
      around it. */
  ghost predicate Named(setup: ReadySetup, s: Server, rules: seq<AccessRule>, ip: string) {
    ConfigChecked.WrittenForIP(setup.p, s, rules, ip)
  }

  /** In every reachable state, in terms of the written rules and the history: an address passes
      exactly if no deny rule names it and an allow rule does, or a past authorization's window is
      open. */
  lemma AcceptCheckAsWritten(setup: ReadySetup, s: Server, loadedAt: Instant, es: seq<Event>, f: nat, ip: string, t: Instant)
    requires Serves(setup, s, loadedAt) && ConfigChecked.Standard(setup.p) && f < |s.forwards| && ClocksUpTo(es, t)
    ensures f < |Run(setup, es).lists|
    ensures AcceptCheck(setup, Run(setup, es).lists[f], f, ip, t) <==>
            && !Named(setup, s, s.globalDenyIPs, ip)
            && (|| Named(setup, s, s.globalAllowIPs, ip) || Named(setup, s, s.forwards[f].allowIPs, ip)
                || TokenWindow(setup, es, f, ip, t))
  {
    SettingsReachServer(setup, s, loadedAt, f);
    AcceptCheckIsExact(setup, es, f, ip, t);
    ConfigChecked.ChecksMatchAsWritten(setup.p, s, loadedAt, f, ip, "");
  }

  /** The text of a rule: that of the named rule it refers to, or its own. */
  ghost predicate HasText(s: Server, rule: AccessRule, text: string) { ConfigChecked.IsIPSource(s, rule, text) }

  /** An address inside a denied network never passes, statically allowed or not, inside an open
      window or not. */
  lemma DeniedNetworkNeverPasses(setup: ReadySetup, s: Server, loadedAt: Instant, es: seq<Event>, f: nat, ip: string, t: Instant,
                                 i: nat, text: string, net: string -> bool)
    requires Serves(setup, s, loadedAt) && ConfigChecked.Standard(setup.p) && f < |s.forwards| && ClocksUpTo(es, t)
    requires i < |s.globalDenyIPs| && HasText(s, s.globalDenyIPs[i], text)
    requires text != "" && setup.p.parseCIDR(text) == Some(net) && net(ip)
    ensures f < |Run(setup, es).lists|
    ensures !AcceptCheck(setup, Run(setup, es).lists[f], f, ip, t)
  {
    AcceptCheckAsWritten(setup, s, loadedAt, es, f, ip, t);
    assert ConfigChecked.NamesIP(setup.p, s, s.globalDenyIPs[i], text, ip);
  }

  /** An address inside an allowed network always passes if no deny rule names it. */
  lemma AllowedNetworkPasses(setup: ReadySetup, s: Server, loadedAt: Instant, es: seq<Event>, f: nat, ip: string, t: Instant,
                             rules: seq<AccessRule>, i: nat, text: string, net: string -> bool)
    requires Serves(setup, s, loadedAt) && ConfigChecked.Standard(setup.p) && f < |s.forwards| && ClocksUpTo(es, t)
    requires rules == s.globalAllowIPs || rules == s.forwards[f].allowIPs
    requires i < |rules| && HasText(s, rules[i], text)
    requires text != "" && setup.p.parseCIDR(text) == Some(net) && net(ip)
    ensures f < |Run(setup, es).lists|
    ensures AcceptCheck(setup, Run(setup, es).lists[f], f, ip, t) <==> !Named(setup, s, s.globalDenyIPs, ip)
  {
    AcceptCheckAsWritten(setup, s, loadedAt, es, f, ip, t);
    assert ConfigChecked.NamesIP(setup.p, s, rules[i], text, ip);
  }

  /** An address that no rule names, and that was authorized on a forward once, at event `g`, passes
      exactly during the seconds the forward is configured with. */
  lemma SoleAuthorizationLasts(setup: ReadySetup, s: Server, loadedAt: Instant, es: seq<Event>, f: nat, ip: string, t: Instant, g: int)
    requires Serves(setup, s, loadedAt) && ConfigChecked.Standard(setup.p) && f < |s.forwards| && ClocksUpTo(es, t)
    requires !Named(setup, s, s.globalDenyIPs, ip) && !Named(setup, s, s.globalAllowIPs, ip) && !Named(setup, s, s.forwards[f].allowIPs, ip)
    requires AuthorizedAt(setup, es, g, f, ip) && forall h | AuthorizedAt(setup, es, h, f, ip) :: h == g
    ensures f < |Run(setup, es).lists|
    ensures AcceptCheck(setup, Run(setup, es).lists[f], f, ip, t) <==>
            es[g].now <= t < es[g].now + 1_000_000_000 * WindowSeconds(s.forwards[f])
  {
    SettingsReachServer(setup, s, loadedAt, f);
    AcceptCheckAsWritten(setup, s, loadedAt, es, f, ip, t);
    if TokenWindow(setup, es, f, ip, t) {
      var h, keyID, resp :| Authorizes(setup, es, h, f, ip, keyID, resp) && es[h].now <= t < es[h].now + WindowOf(setup, f);
      assert AuthorizedAt(setup, es, h, f, ip);
    }
  }

  /** Event `g` authorized a client of this address on this forward. */
  ghost predicate AuthorizedAt(setup: ReadySetup, es: seq<Event>, g: int, f: int, ip: string) {
    && 0 <= g < |es| && es[g].Authorize?
    && exists keyID, resp :: Authorizes(setup, es, g, f, ip, keyID, resp)
  }

  // ----- which forward an authorization goes to -----

  /** The forward listens on this port, and a written pattern, global or its own, matches the token. */
  ghost predicate Takes(setup: ReadySetup, s: Server, f: nat, port: Uint16, token: string)
    requires f < |s.forwards|
  {
    && s.forwards[f].bindPort == port
    && (|| ConfigChecked.WrittenForToken(setup.p, s, s.globalAllowTokens, token)
        || ConfigChecked.WrittenForToken(setup.p, s, s.forwards[f].allowTokens, token))
  }

  lemma TakesIffEligible(setup: ReadySetup, s: Server, loadedAt: Instant, f: nat, port: Uint16, token: string)
    requires Serves(setup, s, loadedAt) && ConfigChecked.Standard(setup.p) && f < |s.forwards|
    ensures |setup.s.forwards| == |s.forwards|
    ensures Eligible(setup.p, setup.s, setup.s.forwards[f], port, token) <==> Takes(setup, s, f, port, token)
  {
    SettingsReachServer(setup, s, loadedAt, f);
    ConfigChecked.ChecksMatchAsWritten(setup.p, s, loadedAt, f, "", token);
  }

  /** A redeemed response authorizes, if anywhere, on the first forward with its port that takes its
      token. */
  lemma FirstTakerIsSelected(setup: ReadySetup, s: Server, loadedAt: Instant, f: nat, port: Uint16, token: string)
    requires Serves(setup, s, loadedAt) && ConfigChecked.Standard(setup.p) && f < |s.forwards|
    ensures SelectForward(setup.p, setup.s, port, token, 0) == Some(f) <==>
            Takes(setup, s, f, port, token) && forall g: nat | g < f :: !Takes(setup, s, g, port, token)
  {
    TakesIffEligible(setup, s, loadedAt, f, port, token);
    SelectsFirstEligible(setup.p, setup.s, port, token, f);
    forall g: nat | g < f ensures Eligible(setup.p, setup.s, setup.s.forwards[g], port, token) <==> Takes(setup, s, g, port, token) {
      TakesIffEligible(setup, s, loadedAt, g, port, token);
    }
  }

  // ----- connection limits -----

  /** In every reachable state a forward handles no more connections than it is configured for, in
      total and from one address; zero means no limit. */
  lemma HandledWithinConfigured(setup: ReadySetup, s: Server, loadedAt: Instant, es: seq<Event>, f: nat, ip: string)
    requires Serves(setup, s, loadedAt) && f < |s.forwards|
    ensures f < |Run(setup, es).ports|
    ensures GlobalLimit(s.forwards[f]) > 0 ==> |Fwd.AllHandling(Run(setup, es).ports[f].conns)| <= GlobalLimit(s.forwards[f])
    ensures PerIPLimit(s.forwards[f]) > 0 ==> |Fwd.HandlingFrom(Run(setup, es).ports[f].conns, ip)| <= PerIPLimit(s.forwards[f])
  {
    SettingsReachServer(setup, s, loadedAt, f);
    ConnectionsConserved(setup, es, f);
    Fwd.CountersCountConns(Run(setup, es).ports[f], ip);
  }

  /** ... and refuses an admitted connection only then. */
  lemma RejectedOnlyAtConfigured(setup: ReadySetup, s: Server, loadedAt: Instant, es: seq<Event>, f: nat, c: nat)
    requires Serves(setup, s, loadedAt) && f < |s.forwards|
    requires f < |Run(setup, es).ports| && c < |Run(setup, es).ports[f].conns|
    requires Run(setup, es).ports[f].conns[c].phase == Fwd.Admitted
    ensures var conns, after := Run(setup, es).ports[f].conns, Run(setup, es + [Acquire(f, c)]);
            && f < |after.ports| && c < |after.ports[f].conns|
            && after.ports[f].conns[c].phase ==
               if (GlobalLimit(s.forwards[f]) > 0 && |Fwd.AllHandling(conns)| == GlobalLimit(s.forwards[f]))
                  || (PerIPLimit(s.forwards[f]) > 0 && |Fwd.HandlingFrom(conns, conns[c].ip)| == PerIPLimit(s.forwards[f]))
               then Fwd.Rejected else Fwd.Handling
  {
    SettingsReachServer(setup, s, loadedAt, f);
    HandledWithinConfigured(setup, s, loadedAt, es, f, Run(setup, es).ports[f].conns[c].ip);
    ServerSteps.AcquireInRun(setup, es, f, c);
  }
}
