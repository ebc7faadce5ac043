/** `CheckValid` and the in-place resolution loops, verified against the configuration values of
    Settings. Rule lists are arrays written in place; optional limits are fields. */
module Config {
  import opened Basics
  import opened Settings

  /** Rules before `b` are resolved, rule `b` fails, and the rest is as it was. */
  ghost predicate StoppedAt(resolve: Resolver, before: seq<AccessRule>, after: seq<AccessRule>, b: int) {
    ResolvedUpTo(resolve, before, after, b) && b < |before| && resolve(before[b], b + 1).None?
  }

  lemma StoppedIsUnresolved(resolve: Resolver, before: seq<AccessRule>, after: seq<AccessRule>, b: int)
    requires StoppedAt(resolve, before, after, b)
    ensures !AllResolve(resolve, before)
  {
  }

  lemma ReachedEnd(resolve: Resolver, before: seq<AccessRule>, after: seq<AccessRule>)
    requires |before| == |after| && forall i | 0 <= i < |before| :: resolve(before[i], i + 1) == Some(after[i])
    ensures AllResolve(resolve, before) && after == Resolved(resolve, before)
    ensures ResolvedUpTo(resolve, before, after, |before|)
  {
  }

  method ResolveTokenRules(p: Platform, tokens: map<string, string>, rules: array<AccessRule>, scope: string, port: Uint16)
    returns (ok: bool)
    modifies rules
    ensures ok <==> AllResolve(TokenResolver(p, tokens, scope, port), old(rules[..]))
    ensures ok ==> rules[..] == Resolved(TokenResolver(p, tokens, scope, port), old(rules[..]))
    ensures !ok ==> exists b :: StoppedAt(TokenResolver(p, tokens, scope, port), old(rules[..]), rules[..], b)
    ensures PartlyResolved(TokenResolver(p, tokens, scope, port), old(rules[..]), rules[..])
  {
    ghost var resolve := TokenResolver(p, tokens, scope, port);
    ghost var written := rules[..];
    for i := 0 to rules.Length
      invariant forall j | 0 <= j < i :: resolve(written[j], j + 1) == Some(rules[j])
      invariant forall j | i <= j < rules.Length :: rules[j] == written[j]
    {
      var rule := ResolveTokenRule(p, tokens, rules[i], scope, port, i + 1);
      if rule.None? {
        assert StoppedAt(resolve, written, rules[..], i);
        StoppedIsUnresolved(resolve, written, rules[..], i);
        return false;
      }
      rules[i] := rule.value;
    }
    ReachedEnd(resolve, written, rules[..]);
    return true;
  }

  method ResolveIPRules(p: Platform, ipRules: map<string, string>, rules: array<AccessRule>, scope: string, port: Uint16)
    returns (ok: bool)
    modifies rules
    ensures ok <==> AllResolve(IPResolver(p, ipRules, scope, port), old(rules[..]))
    ensures ok ==> rules[..] == Resolved(IPResolver(p, ipRules, scope, port), old(rules[..]))
    ensures !ok ==> exists b :: StoppedAt(IPResolver(p, ipRules, scope, port), old(rules[..]), rules[..], b)
    ensures PartlyResolved(IPResolver(p, ipRules, scope, port), old(rules[..]), rules[..])
  {
    ghost var resolve := IPResolver(p, ipRules, scope, port);
    ghost var written := rules[..];
    for i := 0 to rules.Length
      invariant forall j | 0 <= j < i :: resolve(written[j], j + 1) == Some(rules[j])
      invariant forall j | i <= j < rules.Length :: rules[j] == written[j]
    {
      var rule := ResolveIPRule(p, ipRules, rules[i], scope, port, i + 1);
      if rule.None? {
        assert StoppedAt(resolve, written, rules[..], i);
        StoppedIsUnresolved(resolve, written, rules[..], i);
        return false;
      }
      rules[i] := rule.value;
    }
    ReachedEnd(resolve, written, rules[..]);
    return true;
  }

  class ForwardConfig {
    const bindPort: Uint16
    const forwardAddr: string
    const allowTokens: array<AccessRule>
    const allowIPs: array<AccessRule>
    var dropDelayTime: Option<Uint32>
    var authExpiredTime: Option<Uint32>
    var maxConnPerIP: Option<Uint32>
    var maxConnGlobal: Option<Uint32>
    var dialTimeoutMS: Option<Uint32>
    var idleTimeoutMS: Option<Uint32>

    constructor (value: Forward)
      ensures Value() == value
      ensures fresh(allowTokens) && fresh(allowIPs) && allowTokens != allowIPs
    {
      bindPort, forwardAddr := value.bindPort, value.forwardAddr;
      dropDelayTime, authExpiredTime := value.dropDelayTime, value.authExpiredTime;
      maxConnPerIP, maxConnGlobal := value.maxConnPerIP, value.maxConnGlobal;
      dialTimeoutMS, idleTimeoutMS := value.dialTimeoutMS, value.idleTimeoutMS;
      allowTokens := new AccessRule[|value.allowTokens|](i requires 0 <= i < |value.allowTokens| => value.allowTokens[i]);
      allowIPs := new AccessRule[|value.allowIPs|](i requires 0 <= i < |value.allowIPs| => value.allowIPs[i]);
      new;
      assert allowTokens[..] == value.allowTokens && allowIPs[..] == value.allowIPs;
    }

    function Value(): Forward
      reads this, allowTokens, allowIPs
    {
      Forward(bindPort, forwardAddr, allowTokens[..], allowIPs[..], dropDelayTime, authExpiredTime,
              maxConnPerIP, maxConnGlobal, dialTimeoutMS, idleTimeoutMS)
    }

    method CheckValid(p: Platform) returns (ok: bool)
      ensures ok <==> ForwardAccepted(p, Value())
    {
      if forwardAddr == "" { return false; }
      if bindPort == 0 || bindPort == 65535 { return false; }
      if dropDelayTime.Some? && dropDelayTime.value > 5000 { return false; }
      return p.hostPortAccepted(forwardAddr);
    }

    method SetDefaultValue()
      modifies this
      ensures Value() == old(Value()).(
                dropDelayTime := Some(if old(dropDelayTime).Some? then old(dropDelayTime).value else 0),
                authExpiredTime := Some(if old(authExpiredTime).Some? then old(authExpiredTime).value else 3600),
                maxConnPerIP := Some(if old(maxConnPerIP).Some? then old(maxConnPerIP).value else 16),
                maxConnGlobal := Some(if old(maxConnGlobal).Some? then old(maxConnGlobal).value else 1024),
                dialTimeoutMS := Some(if old(dialTimeoutMS).Some? then old(dialTimeoutMS).value else 3000),
                idleTimeoutMS := Some(if old(idleTimeoutMS).Some? then old(idleTimeoutMS).value else 300000))
    {
      if dropDelayTime.None? { dropDelayTime := Some(0); }
      if authExpiredTime.None? { authExpiredTime := Some(3600); }
      if maxConnPerIP.None? { maxConnPerIP := Some(16); }
      if maxConnGlobal.None? { maxConnGlobal := Some(1024); }
      if dialTimeoutMS.None? { dialTimeoutMS := Some(3000); }
      if idleTimeoutMS.None? { idleTimeoutMS := Some(300000); }
    }
  }

  /** Every key passes on its own and no id occurs twice. */
  method CheckKeys(p: Platform, keys: seq<AuthKey>, now: Instant) returns (ok: bool)
    ensures ok <==> (forall i | 0 <= i < |keys| :: KeyAccepted(p, keys[i], now)) && UniqueIDs(keys)
  {
    var seenKeys: set<string> := {};
    for i := 0 to |keys|
      invariant forall j | 0 <= j < i :: KeyAccepted(p, keys[j], now)
      invariant forall j, k | 0 <= j < k < i :: keys[j].id != keys[k].id
      invariant seenKeys == set j | 0 <= j < i :: keys[j].id
    {
      if !KeyAccepted(p, keys[i], now) { return false; }
      if keys[i].id in seenKeys { return false; }
      seenKeys := seenKeys + {keys[i].id};
    }
    return true;
  }

  /** Ranges over a map in any order and stops at the first entry that fails. */
  method CheckEntries(entries: map<string, string>, accept: (string, string) -> bool) returns (ok: bool)
    ensures ok <==> forall id | id in entries :: accept(id, entries[id])
  {
    var pending := entries.Keys;
    while pending != {}
      invariant pending <= entries.Keys
      invariant forall id | id in entries && id !in pending :: accept(id, entries[id])
      decreases |pending|
    {
      var id :| id in pending;
      pending := pending - {id};
      if !accept(id, entries[id]) { return false; }
    }
    return true;
  }

  class ServerConfig {
    const serverID: string
    const authAddr: string
    const authKeys: seq<AuthKey>
    const tokens: map<string, string>
    const ipRules: map<string, string>
    const forwards: seq<ForwardConfig>
    const globalAllowTokens: array<AccessRule>
    const globalAllowIPs: array<AccessRule>
    const globalDenyIPs: array<AccessRule>

    constructor (serverID: string, authAddr: string, authKeys: seq<AuthKey>,
                 tokens: map<string, string>, ipRules: map<string, string>, forwards: seq<ForwardConfig>,
                 globalAllowTokens: array<AccessRule>, globalAllowIPs: array<AccessRule>, globalDenyIPs: array<AccessRule>)
      ensures this.serverID == serverID && this.authAddr == authAddr && this.authKeys == authKeys
      ensures this.tokens == tokens && this.ipRules == ipRules && this.forwards == forwards
      ensures this.globalAllowTokens == globalAllowTokens && this.globalAllowIPs == globalAllowIPs
      ensures this.globalDenyIPs == globalDenyIPs
    {
      this.serverID, this.authAddr, this.authKeys := serverID, authAddr, authKeys;
      this.tokens, this.ipRules, this.forwards := tokens, ipRules, forwards;
      this.globalAllowTokens, this.globalAllowIPs, this.globalDenyIPs := globalAllowTokens, globalAllowIPs, globalDenyIPs;
    }

    ghost function RuleArrays(): set<array<AccessRule>>
    {
      {globalAllowTokens, globalAllowIPs, globalDenyIPs}
      + (set f | f in forwards :: f.allowTokens) + (set f | f in forwards :: f.allowIPs)
    }

    /** Decoding gives every rule list and every forward its own memory. */
    ghost predicate Separate() {
      && globalAllowTokens != globalAllowIPs && globalAllowTokens != globalDenyIPs && globalAllowIPs != globalDenyIPs
      && (forall i | 0 <= i < |forwards| :: SeparateForward(i))
    }

    ghost predicate SeparateForward(i: nat)
      requires i < |forwards|
    {
      var f := forwards[i];
      && f.allowTokens != f.allowIPs
      && f.allowTokens !in {globalAllowTokens, globalAllowIPs, globalDenyIPs}
      && f.allowIPs !in {globalAllowTokens, globalAllowIPs, globalDenyIPs}
      && forall j | 0 <= j < i ::
           && forwards[j] != f
           && forwards[j].allowTokens !in {f.allowTokens, f.allowIPs}
           && forwards[j].allowIPs !in {f.allowTokens, f.allowIPs}
    }

    ghost function Value(): Server
      reads this, forwards, RuleArrays()
    {
      Server(serverID, authAddr, authKeys, tokens, ipRules,
             seq(|forwards|, i requires 0 <= i < |forwards| reads forwards, RuleArrays() => forwards[i].Value()),
             globalAllowTokens[..], globalAllowIPs[..], globalDenyIPs[..])
    }

    method ResolveGlobalRules(p: Platform) returns (ok: bool)
      requires Separate()
      modifies globalAllowTokens, globalAllowIPs, globalDenyIPs
      ensures ok <==> GlobalRulesResolve(p, old(Value()))
      ensures ok ==>
        && globalAllowTokens[..] == Resolved(TokenResolver(p, tokens, "global", 0), old(globalAllowTokens[..]))
        && globalAllowIPs[..] == Resolved(IPResolver(p, ipRules, "global", 0), old(globalAllowIPs[..]))
        && globalDenyIPs[..] == Resolved(IPResolver(p, ipRules, "global_deny", 0), old(globalDenyIPs[..]))
      ensures PartlyCheckedGlobals(p, old(Value()), Value())
      ensures forall j | 0 <= j < |forwards| :: forwards[j].Value() == old(forwards[j].Value())
    {
      NoneOrAllResolved(TokenResolver(p, tokens, "global", 0), globalAllowTokens[..]);
      NoneOrAllResolved(IPResolver(p, ipRules, "global", 0), globalAllowIPs[..]);
      NoneOrAllResolved(IPResolver(p, ipRules, "global_deny", 0), globalDenyIPs[..]);
      ok := ResolveTokenRules(p, tokens, globalAllowTokens, "global", 0);
      if ok {
        ok := ResolveIPRules(p, ipRules, globalAllowIPs, "global", 0);
      }
      if ok {
        ok := ResolveIPRules(p, ipRules, globalDenyIPs, "global_deny", 0);
      }
      forall j | 0 <= j < |forwards| ensures forwards[j].Value() == old(forwards[j].Value()) {
        assert SeparateForward(j);
      }
    }

    /** The checks of one forward. */
    method CheckForward(p: Platform, f: ForwardConfig, ghost s: Server) returns (ok: bool)
      requires f.allowTokens != f.allowIPs
      requires s.tokens == tokens && s.ipRules == ipRules
      modifies f, f.allowTokens, f.allowIPs
      ensures ok <==> ForwardAccepted(p, old(f.Value())) && ForwardResolves(p, s, old(f.Value()))
      ensures ok ==> f.Value() == CheckedForward(p, s, old(f.Value()))
      ensures PartlyCheckedForward(p, s, old(f.Value()), f.Value())
    {
      ghost var written := f.Value();
      NoneOrAllChecked(p, s, written);
      ok := f.CheckValid(p);
      if !ok { return; }
      ok := ResolveTokenRules(p, tokens, f.allowTokens, "forward", f.bindPort);
      assert PartlyResolved(TokenResolver(p, tokens, "forward", f.bindPort), written.allowTokens, f.allowTokens[..]);
      if !ok { return; }
      ok := ResolveIPRules(p, ipRules, f.allowIPs, "forward", f.bindPort);
      assert PartlyResolved(IPResolver(p, ipRules, "forward", f.bindPort), written.allowIPs, f.allowIPs[..]);
      if !ok { return; }
      f.SetDefaultValue();
    }

    /** One round of the loop over the forwards: the others stay as they are. */
    method CheckRound(p: Platform, i: nat, ghost s: Server) returns (ok: bool)
      requires i < |forwards| && Separate()
      requires s.tokens == tokens && s.ipRules == ipRules
      modifies forwards[i], forwards[i].allowTokens, forwards[i].allowIPs
      ensures ok <==> ForwardAccepted(p, old(forwards[i].Value())) && ForwardResolves(p, s, old(forwards[i].Value()))
      ensures ok ==> forwards[i].Value() == CheckedForward(p, s, old(forwards[i].Value()))
      ensures PartlyCheckedForward(p, s, old(forwards[i].Value()), forwards[i].Value())
      ensures forall j | 0 <= j < |forwards| && j != i :: forwards[j].Value() == old(forwards[j].Value())
    {
      assert SeparateForward(i);
      ok := CheckForward(p, forwards[i], s);
      forall j | 0 <= j < |forwards| && j != i ensures forwards[j].Value() == old(forwards[j].Value()) {
        assert SeparateForward(j);
      }
    }

    ghost function ForwardArrays(): set<array<AccessRule>> {
      (set f | f in forwards :: f.allowTokens) + (set f | f in forwards :: f.allowIPs)
    }

    /** The loop over the forwards. */
    method CheckForwards(p: Platform, ghost s: Server) returns (ok: bool)
      requires Separate()
      requires s.tokens == tokens && s.ipRules == ipRules && |s.forwards| == |forwards|
      requires forall j | 0 <= j < |forwards| :: forwards[j].Value() == s.forwards[j]
      modifies forwards, ForwardArrays()
      ensures ok <==> ForwardsAccepted(p, s)
      ensures ok ==> forall j | 0 <= j < |s.forwards| :: forwards[j].Value() == CheckedForward(p, s, s.forwards[j])
      ensures forall j | 0 <= j < |s.forwards| :: PartlyCheckedForward(p, s, s.forwards[j], forwards[j].Value())
      ensures globalAllowTokens[..] == old(globalAllowTokens[..])
      ensures globalAllowIPs[..] == old(globalAllowIPs[..])
      ensures globalDenyIPs[..] == old(globalDenyIPs[..])
    {
      GlobalsApart();
      for i := 0 to |forwards|
        invariant globalAllowTokens[..] == old(globalAllowTokens[..])
        invariant globalAllowIPs[..] == old(globalAllowIPs[..])
        invariant globalDenyIPs[..] == old(globalDenyIPs[..])
        invariant forall j | 0 <= j < i :: ForwardAccepted(p, s.forwards[j]) && ForwardResolves(p, s, s.forwards[j])
        invariant forall j | 0 <= j < i :: forwards[j].Value() == CheckedForward(p, s, s.forwards[j])
        invariant forall j | i <= j < |forwards| :: forwards[j].Value() == s.forwards[j]
      {
        ok := CheckRound(p, i, s);
        if !ok {
          RoundsLeavePartly(p, s, i);
          return;
        }
      }
      RoundsLeavePartly(p, s, |forwards|);
      return true;
    }

    /** Forwards before round `i` are checked, the one of the round partly, and the rest not at all. */
    lemma RoundsLeavePartly(p: Platform, s: Server, i: nat)
      requires i <= |forwards| == |s.forwards|
      requires forall j | 0 <= j < i :: ForwardResolves(p, s, s.forwards[j]) && forwards[j].Value() == CheckedForward(p, s, s.forwards[j])
      requires i < |forwards| ==> PartlyCheckedForward(p, s, s.forwards[i], forwards[i].Value())
      requires forall j | i < j < |forwards| :: forwards[j].Value() == s.forwards[j]
      ensures forall j | 0 <= j < |s.forwards| :: PartlyCheckedForward(p, s, s.forwards[j], forwards[j].Value())
    {
      forall j | 0 <= j < |s.forwards| ensures PartlyCheckedForward(p, s, s.forwards[j], forwards[j].Value()) {
        NoneOrAllChecked(p, s, s.forwards[j]);
      }
    }

    method CheckBasics(p: Platform, now: Instant) returns (ok: bool)
      ensures ok <==> BasicsAccepted(p, Value(), now)
    {
      if !ValidIdentifier(p, serverID) { return false; }
      if !p.udpAddrAccepted(authAddr) { return false; }
      if |authKeys| == 0 { return false; }
      ok := CheckKeys(p, authKeys, now);
      if !ok { return; }
      ok := CheckEntries(tokens, (id, token) => TokenAccepted(p, id, token));
      if !ok { return; }
      ok := CheckEntries(ipRules, (id, rule) => IPRuleAccepted(p, id, rule));
    }

    /** Succeeds exactly on the accepted configurations, and leaves the resolved one behind. */
    method CheckValid(p: Platform, now: Instant) returns (ok: bool)
      requires Separate()
      modifies forwards, RuleArrays()
      ensures ok <==> Accepted(p, old(Value()), now)
      ensures ok ==> Value() == Checked(p, old(Value()))
      ensures PartlyChecked(p, old(Value()), Value())
    {
      ghost var s := Value();
      UncheckedIsPartly(p, s);
      ok := CheckBasics(p, now);
      if !ok { return; }
      ok := ResolveGlobalRules(p);
      if !ok { return; }
      ok := CheckForwards(p, s);
      if !ok { return; }
      assert Accepted(p, s, now);
      AssembleChecked(p, s);
    }

    /** Rules resolved list by list and forward by forward are the checked configuration. */
    lemma AssembleChecked(p: Platform, s: Server)
      requires s.serverID == serverID && s.authAddr == authAddr && s.authKeys == authKeys
      requires s.tokens == tokens && s.ipRules == ipRules && |s.forwards| == |forwards|
      requires GlobalRulesResolve(p, s)
      requires forall j | 0 <= j < |s.forwards| :: ForwardResolves(p, s, s.forwards[j])
      requires globalAllowTokens[..] == Resolved(TokenResolver(p, s.tokens, "global", 0), s.globalAllowTokens)
      requires globalAllowIPs[..] == Resolved(IPResolver(p, s.ipRules, "global", 0), s.globalAllowIPs)
      requires globalDenyIPs[..] == Resolved(IPResolver(p, s.ipRules, "global_deny", 0), s.globalDenyIPs)
      requires forall j | 0 <= j < |s.forwards| :: forwards[j].Value() == CheckedForward(p, s, s.forwards[j])
      ensures Value() == Checked(p, s)
    {
      assert Value().forwards == Checked(p, s).forwards;
    }

    lemma GlobalsApart()
      requires Separate()
      ensures globalAllowTokens !in ForwardArrays() && globalAllowIPs !in ForwardArrays() && globalDenyIPs !in ForwardArrays()
    {
      forall f | f in forwards
        ensures f.allowTokens !in {globalAllowTokens, globalAllowIPs, globalDenyIPs}
        ensures f.allowIPs !in {globalAllowTokens, globalAllowIPs, globalDenyIPs}
      {
        var i :| 0 <= i < |forwards| && forwards[i] == f;
        assert SeparateForward(i);
      }
    }
  }
}
