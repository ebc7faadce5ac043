/** The server's configuration as values: rules and their resolution, what a valid configuration
    is, key lookup, and how rules match at run time. */
module Settings {
  import opened Basics

  /** Library calls the server makes, as arbitrary total functions. */
  datatype Platform = Platform(
    isLetterOrDigit: char -> bool,
    lowerTrim: string -> string,              // strings.TrimSpace(strings.ToLower(s))
    resolvesIP: string -> bool,               // net.ResolveIPAddr accepts it
    parseCIDR: string -> Option<string -> bool>, // net.ParseCIDR(s), as the addresses in the network
    parseTime: string -> Option<Instant>,     // time.Parse(time.RFC3339, s)
    glob: (string, string) -> bool,           // glob.Glob(pattern, subject)
    udpAddrAccepted: string -> bool,
    hostPortAccepted: string -> bool)

  datatype AccessRule = AccessRule(
    token: string, tokenRef: string, ip: string, ipRef: string, inlineText: string,
    resolvedValue: string, ruleID: string, ruleType: string)

  datatype AuthKey = AuthKey(id: string, key: string, notBefore: string, notAfter: string)

  datatype Forward = Forward(
    bindPort: Uint16, forwardAddr: string,
    allowTokens: seq<AccessRule>, allowIPs: seq<AccessRule>,
    dropDelayTime: Option<Uint32>, authExpiredTime: Option<Uint32>,
    maxConnPerIP: Option<Uint32>, maxConnGlobal: Option<Uint32>,
    dialTimeoutMS: Option<Uint32>, idleTimeoutMS: Option<Uint32>)

  datatype Server = Server(
    serverID: string, authAddr: string, authKeys: seq<AuthKey>,
    tokens: map<string, string>, ipRules: map<string, string>, forwards: seq<Forward>,
    globalAllowTokens: seq<AccessRule>, globalAllowIPs: seq<AccessRule>, globalDenyIPs: seq<AccessRule>)

  // ----- identifiers and secrets -----

  predicate ValidIdentifier(p: Platform, value: string) {
    && value != ""
    && ByteLen(value) <= 64
    && forall c | c in value :: p.isLetterOrDigit(c) || c in {'-', '_', '.'}
  }

  predicate Contains(s: string, part: string) {
    exists i | 0 <= i <= |s| :: part <= s[i..]
  }

  predicate WeakSecret(p: Platform, secret: string) {
    var s := p.lowerTrim(secret);
    || ByteLen(s) < 24
    || s in {"a safe key", "admin", "valid_token", "global_token", "change_me"}
    || Contains(s, "change_me")
  }

  lemma IdentifierColonFree(p: Platform, value: string)
    requires !p.isLetterOrDigit(':')
    requires ValidIdentifier(p, value)
    ensures ColonFree(value)
  {
  }

  predicate IPTextAccepted(p: Platform, value: string) {
    p.resolvesIP(value) || p.parseCIDR(value).Some?
  }

  // ----- rule resolution -----

  function InlineRuleID(scope: string, port: Uint16, kind: string, index: nat): string {
    if port == 0 then "inline" + ":" + scope + ":" + kind + ":" + Decimal(index)
    else "inline" + ":" + scope + ":" + Decimal(port) + ":" + kind + ":" + Decimal(index)
  }

  function ResolveTokenRule(p: Platform, tokens: map<string, string>, rule: AccessRule, scope: string, port: Uint16, index: nat): Option<AccessRule> {
    if rule.tokenRef != "" then
      if rule.token != "" || rule.ip != "" || rule.ipRef != "" || rule.inlineText != "" then None
      else if rule.tokenRef !in tokens then None
      else Some(rule.(resolvedValue := tokens[rule.tokenRef], ruleID := rule.tokenRef, ruleType := "token_ref"))
    else
      var value := if rule.token == "" then rule.inlineText else rule.token;
      if value == "" || rule.ip != "" || rule.ipRef != "" then None
      else if value == "*" then None
      else if WeakSecret(p, value) then None
      else Some(rule.(resolvedValue := value, ruleID := InlineRuleID(scope, port, "token", index), ruleType := "inline_token"))
  }

  function ResolveIPRule(p: Platform, ipRules: map<string, string>, rule: AccessRule, scope: string, port: Uint16, index: nat): Option<AccessRule> {
    if rule.ipRef != "" then
      if rule.ip != "" || rule.token != "" || rule.tokenRef != "" || rule.inlineText != "" then None
      else if rule.ipRef !in ipRules then None
      else Some(rule.(resolvedValue := ipRules[rule.ipRef], ruleID := rule.ipRef, ruleType := "ip_ref"))
    else
      var value := if rule.ip == "" then rule.inlineText else rule.ip;
      if value == "" || rule.token != "" || rule.tokenRef != "" then None
      else if !IPTextAccepted(p, value) then None
      else Some(rule.(resolvedValue := value, ruleID := InlineRuleID(scope, port, "ip", index), ruleType := "inline_ip"))
  }

  /** What `resolve` does to rule `i` of a list: a resolver already bound to its scope. */
  type Resolver = (AccessRule, nat) -> Option<AccessRule>

  function TokenResolver(p: Platform, tokens: map<string, string>, scope: string, port: Uint16): Resolver {
    (rule: AccessRule, index: nat) => ResolveTokenRule(p, tokens, rule, scope, port, index)
  }

  function IPResolver(p: Platform, ipRules: map<string, string>, scope: string, port: Uint16): Resolver {
    (rule: AccessRule, index: nat) => ResolveIPRule(p, ipRules, rule, scope, port, index)
  }

  /** Rules are numbered from one. */
  ghost predicate AllResolve(resolve: Resolver, rules: seq<AccessRule>) {
    forall i | 0 <= i < |rules| :: resolve(rules[i], i + 1).Some?
  }

  ghost function Resolved(resolve: Resolver, rules: seq<AccessRule>): seq<AccessRule>
    requires AllResolve(resolve, rules)
  {
    seq(|rules|, i requires 0 <= i < |rules| => resolve(rules[i], i + 1).value)
  }

  // ----- a whole configuration -----

  /** An unparsable bound makes the key inactive, an absent one does not bound it. */
  predicate Begun(p: Platform, k: AuthKey, now: Instant) {
    k.notBefore != "" ==> p.parseTime(k.notBefore).Some? && !(now < p.parseTime(k.notBefore).value)
  }

  predicate Unended(p: Platform, k: AuthKey, now: Instant) {
    k.notAfter != "" ==> p.parseTime(k.notAfter).Some? && now < p.parseTime(k.notAfter).value
  }

  predicate KeyActive(p: Platform, k: AuthKey, now: Instant) {
    Begun(p, k, now) && Unended(p, k, now)
  }

  predicate KeyAccepted(p: Platform, k: AuthKey, now: Instant) {
    ValidIdentifier(p, k.id) && !WeakSecret(p, k.key) && KeyActive(p, k, now)
  }

  ghost predicate UniqueIDs(keys: seq<AuthKey>) {
    forall i, j | 0 <= i < j < |keys| :: keys[i].id != keys[j].id
  }

  predicate TokenAccepted(p: Platform, id: string, token: string) {
    ValidIdentifier(p, id) && token != "*" && !WeakSecret(p, token)
  }

  predicate IPRuleAccepted(p: Platform, id: string, rule: string) {
    ValidIdentifier(p, id) && IPTextAccepted(p, rule)
  }

  predicate ForwardAccepted(p: Platform, f: Forward) {
    && f.forwardAddr != ""
    && f.bindPort != 0 && f.bindPort != 65535
    && (f.dropDelayTime.Some? ==> f.dropDelayTime.value <= 5000)
    && p.hostPortAccepted(f.forwardAddr)
  }

  function OrDefault(o: Option<Uint32>, default: Uint32): Option<Uint32> {
    if o.None? then Some(default) else o
  }

  function WithDefaults(f: Forward): Forward {
    f.(dropDelayTime := OrDefault(f.dropDelayTime, 0),
       authExpiredTime := OrDefault(f.authExpiredTime, 3600),
       maxConnPerIP := OrDefault(f.maxConnPerIP, 16),
       maxConnGlobal := OrDefault(f.maxConnGlobal, 1024),
       dialTimeoutMS := OrDefault(f.dialTimeoutMS, 3000),
       idleTimeoutMS := OrDefault(f.idleTimeoutMS, 300000))
  }

  /** Every optional setting is present, so dereferencing it is safe. */
  predicate Defaulted(f: Forward) {
    && f.dropDelayTime.Some? && f.authExpiredTime.Some? && f.maxConnPerIP.Some?
    && f.maxConnGlobal.Some? && f.dialTimeoutMS.Some? && f.idleTimeoutMS.Some?
  }

  ghost predicate ForwardResolves(p: Platform, s: Server, f: Forward) {
    && AllResolve(TokenResolver(p, s.tokens, "forward", f.bindPort), f.allowTokens)
    && AllResolve(IPResolver(p, s.ipRules, "forward", f.bindPort), f.allowIPs)
  }

  ghost function CheckedForward(p: Platform, s: Server, f: Forward): Forward
    requires ForwardResolves(p, s, f)
  {
    WithDefaults(f.(
      allowTokens := Resolved(TokenResolver(p, s.tokens, "forward", f.bindPort), f.allowTokens),
      allowIPs := Resolved(IPResolver(p, s.ipRules, "forward", f.bindPort), f.allowIPs)))
  }

  ghost predicate GlobalRulesResolve(p: Platform, s: Server) {
    && AllResolve(TokenResolver(p, s.tokens, "global", 0), s.globalAllowTokens)
    && AllResolve(IPResolver(p, s.ipRules, "global", 0), s.globalAllowIPs)
    && AllResolve(IPResolver(p, s.ipRules, "global_deny", 0), s.globalDenyIPs)
  }

  ghost predicate BasicsAccepted(p: Platform, s: Server, now: Instant) {
    && ValidIdentifier(p, s.serverID)
    && p.udpAddrAccepted(s.authAddr)
    && |s.authKeys| > 0
    && (forall i | 0 <= i < |s.authKeys| :: KeyAccepted(p, s.authKeys[i], now))
    && UniqueIDs(s.authKeys)
    && (forall id | id in s.tokens :: TokenAccepted(p, id, s.tokens[id]))
    && (forall id | id in s.ipRules :: IPRuleAccepted(p, id, s.ipRules[id]))
  }

  ghost predicate ForwardsAccepted(p: Platform, s: Server) {
    forall i | 0 <= i < |s.forwards| :: ForwardAccepted(p, s.forwards[i]) && ForwardResolves(p, s, s.forwards[i])
  }

  /** `CheckValid` returns no error. */
  ghost predicate Accepted(p: Platform, s: Server, now: Instant) {
    && BasicsAccepted(p, s, now)
    && GlobalRulesResolve(p, s)
    && ForwardsAccepted(p, s)
  }

  /** The configuration `CheckValid` leaves behind when it succeeds. */
  ghost function Checked(p: Platform, s: Server): Server
    requires GlobalRulesResolve(p, s)
    requires forall i | 0 <= i < |s.forwards| :: ForwardResolves(p, s, s.forwards[i])
  {
    s.(globalAllowTokens := Resolved(TokenResolver(p, s.tokens, "global", 0), s.globalAllowTokens),
       globalAllowIPs := Resolved(IPResolver(p, s.ipRules, "global", 0), s.globalAllowIPs),
       globalDenyIPs := Resolved(IPResolver(p, s.ipRules, "global_deny", 0), s.globalDenyIPs),
       forwards := seq(|s.forwards|, i requires 0 <= i < |s.forwards| => CheckedForward(p, s, s.forwards[i])))
  }

  // ----- a check that stopped -----

  /** Rules before `b` are resolved, and the rest is as it was. */
  ghost predicate ResolvedUpTo(resolve: Resolver, before: seq<AccessRule>, after: seq<AccessRule>, b: int) {
    && 0 <= b <= |before| == |after|
    && (forall i | 0 <= i < b :: resolve(before[i], i + 1) == Some(after[i]))
    && (forall i | b <= i < |before| :: after[i] == before[i])
  }

  ghost predicate PartlyResolved(resolve: Resolver, before: seq<AccessRule>, after: seq<AccessRule>) {
    exists b :: ResolvedUpTo(resolve, before, after, b)
  }

  lemma NoneOrAllResolved(resolve: Resolver, rules: seq<AccessRule>)
    ensures PartlyResolved(resolve, rules, rules)
    ensures AllResolve(resolve, rules) ==> PartlyResolved(resolve, rules, Resolved(resolve, rules))
  {
    assert ResolvedUpTo(resolve, rules, rules, 0);
    if AllResolve(resolve, rules) {
      assert ResolvedUpTo(resolve, rules, Resolved(resolve, rules), |rules|);
    }
  }

  /** Each list of the forward is resolved up to some rule, and its settings are as written or all
      set. */
  ghost predicate PartlyCheckedForward(p: Platform, s: Server, f: Forward, g: Forward) {
    && PartlyResolved(TokenResolver(p, s.tokens, "forward", f.bindPort), f.allowTokens, g.allowTokens)
    && PartlyResolved(IPResolver(p, s.ipRules, "forward", f.bindPort), f.allowIPs, g.allowIPs)
    && (var resolved := f.(allowTokens := g.allowTokens, allowIPs := g.allowIPs);
        g == resolved || g == WithDefaults(resolved))
  }

  lemma NoneOrAllChecked(p: Platform, s: Server, f: Forward)
    ensures PartlyCheckedForward(p, s, f, f)
    ensures ForwardResolves(p, s, f) ==> PartlyCheckedForward(p, s, f, CheckedForward(p, s, f))
  {
    NoneOrAllResolved(TokenResolver(p, s.tokens, "forward", f.bindPort), f.allowTokens);
    NoneOrAllResolved(IPResolver(p, s.ipRules, "forward", f.bindPort), f.allowIPs);
  }

  ghost predicate PartlyCheckedGlobals(p: Platform, s: Server, t: Server) {
    && PartlyResolved(TokenResolver(p, s.tokens, "global", 0), s.globalAllowTokens, t.globalAllowTokens)
    && PartlyResolved(IPResolver(p, s.ipRules, "global", 0), s.globalAllowIPs, t.globalAllowIPs)
    && PartlyResolved(IPResolver(p, s.ipRules, "global_deny", 0), s.globalDenyIPs, t.globalDenyIPs)
  }

  /** What `CheckValid` can leave behind, wherever it stops. */
  ghost predicate PartlyChecked(p: Platform, s: Server, t: Server) {
    && t == s.(globalAllowTokens := t.globalAllowTokens, globalAllowIPs := t.globalAllowIPs,
               globalDenyIPs := t.globalDenyIPs, forwards := t.forwards)
    && PartlyCheckedGlobals(p, s, t)
    && |t.forwards| == |s.forwards|
    && forall i | 0 <= i < |s.forwards| :: PartlyCheckedForward(p, s, s.forwards[i], t.forwards[i])
  }

  lemma UncheckedIsPartly(p: Platform, s: Server)
    ensures PartlyChecked(p, s, s)
  {
    NoneOrAllResolved(TokenResolver(p, s.tokens, "global", 0), s.globalAllowTokens);
    NoneOrAllResolved(IPResolver(p, s.ipRules, "global", 0), s.globalAllowIPs);
    NoneOrAllResolved(IPResolver(p, s.ipRules, "global_deny", 0), s.globalDenyIPs);
    forall i | 0 <= i < |s.forwards| ensures PartlyCheckedForward(p, s, s.forwards[i], s.forwards[i]) {
      NoneOrAllChecked(p, s, s.forwards[i]);
    }
  }

  // ----- run-time matching -----

  predicate InNetwork(p: Platform, rule: string, ip: string) {
    p.parseCIDR(rule).Some? && p.parseCIDR(rule).value(ip)
  }

  predicate IPMatchesRule(p: Platform, ip: string, rule: string) {
    rule != "" && (ip == rule || InNetwork(p, rule, ip))
  }

  function IPRuleValue(r: AccessRule): string {
    if r.resolvedValue == "" && r.ip != "" then r.ip else r.resolvedValue
  }

  predicate IPMatchesRules(p: Platform, ip: string, rules: seq<AccessRule>) {
    exists i | 0 <= i < |rules| :: IPMatchesRule(p, ip, IPRuleValue(rules[i]))
  }

  predicate Denied(p: Platform, s: Server, ip: string) {
    IPMatchesRules(p, ip, s.globalDenyIPs)
  }

  predicate StaticAllowed(p: Platform, s: Server, f: Forward, ip: string) {
    IPMatchesRules(p, ip, s.globalAllowIPs) || IPMatchesRules(p, ip, f.allowIPs)
  }

  datatype AuthResult = AuthResult(authorized: bool, renewed: bool, ruleScope: string, ruleID: string, ruleType: string)

  const NOT_AUTHORIZED := AuthResult(false, false, "", "", "")

  predicate FallsBackToToken(r: AccessRule) { r.resolvedValue == "" && r.token != "" }

  predicate TokenMatches(p: Platform, token: string, r: AccessRule) {
    p.glob(if FallsBackToToken(r) then r.token else r.resolvedValue, token)
  }

  /** Index of the first token rule from `i` on that matches. */
  function FirstTokenRule(p: Platform, token: string, rules: seq<AccessRule>, i: nat): (m: Option<nat>)
    requires i <= |rules|
    ensures m.Some? <==> exists j | i <= j < |rules| :: TokenMatches(p, token, rules[j])
    ensures m.Some? ==> i <= m.value < |rules| && TokenMatches(p, token, rules[m.value])
    ensures m.Some? ==> forall j | i <= j < m.value :: !TokenMatches(p, token, rules[j])
    decreases |rules| - i
  {
    if i == |rules| then None
    else if TokenMatches(p, token, rules[i]) then Some(i)
    else FirstTokenRule(p, token, rules, i + 1)
  }

  function TokenRuleResult(scope: string, rules: seq<AccessRule>, i: nat): AuthResult
    requires i < |rules|
  {
    var r := rules[i];
    if FallsBackToToken(r) then AuthResult(true, false, scope, InlineRuleID(scope, 0, "token", i + 1), "inline_token")
    else AuthResult(true, false, scope, r.ruleID, r.ruleType)
  }

  function MatchTokenRules(p: Platform, token: string, scope: string, rules: seq<AccessRule>): Option<AuthResult> {
    match FirstTokenRule(p, token, rules, 0)
    case Some(i) => Some(TokenRuleResult(scope, rules, i))
    case None => None
  }

  /** Global token rules are tried before the forward's own. */
  function MatchForward(p: Platform, s: Server, f: Forward, token: string): Option<AuthResult> {
    var global := MatchTokenRules(p, token, "global", s.globalAllowTokens);
    if global.Some? then global else MatchTokenRules(p, token, "forward", f.allowTokens)
  }

  /** A rule that nobody resolved still matches, by the text it was written with, and a token match
      reports it as an inline rule of its place. */
  lemma UnresolvedRuleMatches(p: Platform, scope: string, rules: seq<AccessRule>, i: nat, token: string, ip: string)
    requires i < |rules| && rules[i].resolvedValue == ""
    ensures rules[i].token != "" ==>
            && (TokenMatches(p, token, rules[i]) <==> p.glob(rules[i].token, token))
            && TokenRuleResult(scope, rules, i) == AuthResult(true, false, scope, InlineRuleID(scope, 0, "token", i + 1), "inline_token")
    ensures rules[i].ip != "" && (rules[i].ip == ip || (p.parseCIDR(rules[i].ip).Some? && p.parseCIDR(rules[i].ip).value(ip))) ==>
            IPMatchesRules(p, ip, rules)
  {
    assert rules[i].ip != "" ==> IPRuleValue(rules[i]) == rules[i].ip;
  }

  /** Rule `i` is the first of its list that matches. */
  ghost predicate IsFirstMatch(p: Platform, token: string, rules: seq<AccessRule>, i: int) {
    && 0 <= i < |rules| && TokenMatches(p, token, rules[i])
    && forall j | 0 <= j < i :: !TokenMatches(p, token, rules[j])
  }

  /** A match reports the first matching rule, global rules before the forward's own, with the rule's
      own id and type. */
  lemma MatchReportsFirstRule(p: Platform, s: Server, f: Forward, token: string, i: int)
    ensures IsFirstMatch(p, token, s.globalAllowTokens, i) && s.globalAllowTokens[i].resolvedValue != "" ==>
            MatchForward(p, s, f, token) == Some(AuthResult(true, false, "global", s.globalAllowTokens[i].ruleID, s.globalAllowTokens[i].ruleType))
    ensures (forall j | 0 <= j < |s.globalAllowTokens| :: !TokenMatches(p, token, s.globalAllowTokens[j]))
            && IsFirstMatch(p, token, f.allowTokens, i) && f.allowTokens[i].resolvedValue != "" ==>
            MatchForward(p, s, f, token) == Some(AuthResult(true, false, "forward", f.allowTokens[i].ruleID, f.allowTokens[i].ruleType))
    ensures MatchForward(p, s, f, token).Some? ==> MatchForward(p, s, f, token).value.authorized && !MatchForward(p, s, f, token).value.renewed
  {
  }

  predicate TokenAllowed(p: Platform, s: Server, f: Forward, token: string) {
    || (exists i | 0 <= i < |s.globalAllowTokens| :: TokenMatches(p, token, s.globalAllowTokens[i]))
    || (exists i | 0 <= i < |f.allowTokens| :: TokenMatches(p, token, f.allowTokens[i]))
  }

  predicate Eligible(p: Platform, s: Server, f: Forward, port: Uint16, token: string) {
    f.bindPort == port && TokenAllowed(p, s, f, token)
  }

  /** The forward an authorization goes to: the first one with the port whose rules match. */
  function SelectForward(p: Platform, s: Server, port: Uint16, token: string, i: nat): (m: Option<nat>)
    requires i <= |s.forwards|
    ensures m.Some? <==> exists j | i <= j < |s.forwards| :: Eligible(p, s, s.forwards[j], port, token)
    ensures m.Some? ==> i <= m.value < |s.forwards| && Eligible(p, s, s.forwards[m.value], port, token)
    ensures m.Some? ==> forall j | i <= j < m.value :: !Eligible(p, s, s.forwards[j], port, token)
    decreases |s.forwards| - i
  {
    if i == |s.forwards| then None
    else if s.forwards[i].bindPort == port && MatchForward(p, s, s.forwards[i], token).Some? then Some(i)
    else SelectForward(p, s, port, token, i + 1)
  }

  lemma SelectsFirstEligible(p: Platform, s: Server, port: Uint16, token: string, f: nat)
    requires f < |s.forwards|
    ensures SelectForward(p, s, port, token, 0) == Some(f) <==>
            Eligible(p, s, s.forwards[f], port, token) && forall g: nat | g < f :: !Eligible(p, s, s.forwards[g], port, token)
  {
    var m := SelectForward(p, s, port, token, 0);
    if m.Some? && f < m.value {
      assert !Eligible(p, s, s.forwards[f], port, token);
    }
  }

  // ----- key lookup -----

  /** The first key with the id decides, active or not. */
  function AuthKeyByID(p: Platform, keys: seq<AuthKey>, id: string, now: Instant): Option<string> {
    if keys == [] then None
    else if keys[0].id != id then AuthKeyByID(p, keys[1..], id, now)
    else if KeyActive(p, keys[0], now) then Some(keys[0].key)
    else None
  }

  /** With unique ids, lookup is exactly "some active key has this id and this secret". */
  lemma {:induction false} LookupIsExact(p: Platform, keys: seq<AuthKey>, id: string, now: Instant, secret: string)
    requires UniqueIDs(keys)
    ensures AuthKeyByID(p, keys, id, now) == Some(secret) <==>
            exists i | 0 <= i < |keys| :: keys[i].id == id && keys[i].key == secret && KeyActive(p, keys[i], now)
  {
    if keys != [] {
      var rest := keys[1..];
      LookupIsExact(p, rest, id, now, secret);
      if i :| 0 <= i < |rest| && rest[i].id == id && rest[i].key == secret && KeyActive(p, rest[i], now) {
        assert keys[i + 1] == rest[i];
      }
    }
  }

  /** Rotation: a key with a new id, put anywhere in the list, changes no other id's lookup. */
  lemma {:induction false} NewKeyKeepsLookups(p: Platform, before: seq<AuthKey>, added: AuthKey, after: seq<AuthKey>, id: string, now: Instant)
    requires id != added.id
    ensures AuthKeyByID(p, before + [added] + after, id, now) == AuthKeyByID(p, before + after, id, now)
  {
    if before == [] {
      assert [] + [added] + after == [added] + after;
      assert ([added] + after)[1..] == after;
      assert [] + after == after;
    } else {
      NewKeyKeepsLookups(p, before[1..], added, after, id, now);
      assert (before + [added] + after)[1..] == before[1..] + [added] + after;
      assert (before + after)[1..] == before[1..] + after;
    }
  }

  // ----- which sets of keys can be loaded -----

  ghost predicate AllActive(p: Platform, keys: seq<AuthKey>, now: Instant) {
    forall i | 0 <= i < |keys| :: KeyActive(p, keys[i], now)
  }

  predicate BoundsParse(p: Platform, k: AuthKey) {
    (k.notBefore != "" ==> p.parseTime(k.notBefore).Some?) && (k.notAfter != "" ==> p.parseTime(k.notAfter).Some?)
  }

  /** `a` begins before `b` ends. */
  predicate BeginsBeforeEnd(p: Platform, a: AuthKey, b: AuthKey)
    requires BoundsParse(p, a) && BoundsParse(p, b)
  {
    a.notBefore != "" && b.notAfter != "" ==> p.parseTime(a.notBefore).value < p.parseTime(b.notAfter).value
  }

  /** A hand-over without gap or overlap: when the new key begins where the old one ends, the two
      are never active together, and one of them is from the old one's beginning to the new one's
      end. */
  lemma HandoverIsExact(p: Platform, outgoing: AuthKey, incoming: AuthKey, now: Instant)
    requires BoundsParse(p, outgoing) && BoundsParse(p, incoming)
    requires BeginsBeforeEnd(p, outgoing, outgoing) && BeginsBeforeEnd(p, incoming, incoming)
    requires outgoing.notAfter != "" && incoming.notBefore != ""
    requires p.parseTime(incoming.notBefore) == p.parseTime(outgoing.notAfter)
    ensures !(KeyActive(p, outgoing, now) && KeyActive(p, incoming, now))
    ensures KeyActive(p, outgoing, now) || KeyActive(p, incoming, now) <==> Begun(p, outgoing, now) && Unended(p, incoming, now)
  {
  }

  /** Every written bound parses, and every key begins before any key ends. */
  ghost predicate WindowsMeet(p: Platform, keys: seq<AuthKey>) {
    && (forall i | 0 <= i < |keys| :: BoundsParse(p, keys[i]))
    && (forall i, j | 0 <= i < |keys| && 0 <= j < |keys| :: BeginsBeforeEnd(p, keys[i], keys[j]))
  }

  /** The latest beginning of a list of keys, if any key has one. */
  lemma {:induction false} LatestBeginning(p: Platform, keys: seq<AuthKey>) returns (latest: Option<Instant>)
    requires forall i | 0 <= i < |keys| :: BoundsParse(p, keys[i])
    ensures latest.Some? ==> forall i | 0 <= i < |keys| :: Begun(p, keys[i], latest.value)
    ensures latest.Some? ==> exists i | 0 <= i < |keys| :: keys[i].notBefore != "" && p.parseTime(keys[i].notBefore) == latest
    ensures latest.None? ==> forall i | 0 <= i < |keys| :: keys[i].notBefore == ""
  {
    latest := None;
    if keys != [] {
      var n := |keys| - 1;
      latest := LatestBeginning(p, keys[..n]);
      if keys[n].notBefore != "" && (latest.None? || latest.value < p.parseTime(keys[n].notBefore).value) {
        latest := p.parseTime(keys[n].notBefore);
      }
    }
  }

  /** An instant before every end. */
  lemma {:induction false} BeforeEveryEnd(p: Platform, keys: seq<AuthKey>) returns (now: Instant)
    requires forall i | 0 <= i < |keys| :: BoundsParse(p, keys[i])
    ensures forall i | 0 <= i < |keys| :: Unended(p, keys[i], now)
  {
    now := 0;
    if keys != [] {
      var n := |keys| - 1;
      now := BeforeEveryEnd(p, keys[..n]);
      if keys[n].notAfter != "" && p.parseTime(keys[n].notAfter).value <= now {
        now := p.parseTime(keys[n].notAfter).value - 1;
      }
    }
  }

  /** Some moment has all the keys active exactly if their windows meet; then the latest beginning
      is such a moment. */
  lemma ActiveTogetherIff(p: Platform, keys: seq<AuthKey>)
    ensures (exists now :: AllActive(p, keys, now)) <==> WindowsMeet(p, keys)
  {
    if WindowsMeet(p, keys) {
      var latest := LatestBeginning(p, keys);
      var early := BeforeEveryEnd(p, keys);
      var now := if latest.Some? then latest.value else early;
      forall i | 0 <= i < |keys| ensures KeyActive(p, keys[i], now) {
        if latest.Some? {
          var k :| 0 <= k < |keys| && keys[k].notBefore != "" && p.parseTime(keys[k].notBefore) == latest;
          assert BeginsBeforeEnd(p, keys[k], keys[i]);
        }
      }
      assert AllActive(p, keys, now);
    }
    if now :| AllActive(p, keys, now) {
      forall i | 0 <= i < |keys| ensures BoundsParse(p, keys[i]) {
        assert KeyActive(p, keys[i], now);
      }
      forall i, j | 0 <= i < |keys| && 0 <= j < |keys| ensures BeginsBeforeEnd(p, keys[i], keys[j]) {
        assert KeyActive(p, keys[i], now) && KeyActive(p, keys[j], now);
      }
    }
  }

  function WithoutBounds(k: AuthKey): AuthKey { k.(notBefore := "", notAfter := "") }

  /** The same configuration with every key's bounds removed. */
  ghost function Timeless(s: Server): Server {
    s.(authKeys := seq(|s.authKeys|, i requires 0 <= i < |s.authKeys| => WithoutBounds(s.authKeys[i])))
  }

  /** `CheckValid` splits into what holds at any time and all keys being active at that moment. */
  lemma AcceptedAtIff(p: Platform, s: Server, now: Instant, other: Instant)
    ensures Accepted(p, s, now) <==> Accepted(p, Timeless(s), other) && AllActive(p, s.authKeys, now)
  {
    var t := Timeless(s);
    assert forall f :: ForwardResolves(p, s, f) <==> ForwardResolves(p, t, f);
    assert forall i | 0 <= i < |s.authKeys| :: KeyAccepted(p, s.authKeys[i], now) <==> KeyAccepted(p, t.authKeys[i], other) && KeyActive(p, s.authKeys[i], now);
    assert UniqueIDs(s.authKeys) <==> UniqueIDs(t.authKeys) by {
      assert forall i | 0 <= i < |s.authKeys| :: s.authKeys[i].id == t.authKeys[i].id;
    }
  }

  /** A configuration can be loaded at some time exactly if everything but the time bounds is in
      order and the windows of its keys meet. */
  lemma AcceptedSometimeIff(p: Platform, s: Server)
    ensures (exists now :: Accepted(p, s, now)) <==> Accepted(p, Timeless(s), 0) && WindowsMeet(p, s.authKeys)
  {
    ActiveTogetherIff(p, s.authKeys);
    forall now ensures Accepted(p, s, now) <==> Accepted(p, Timeless(s), 0) && AllActive(p, s.authKeys, now) {
      AcceptedAtIff(p, s, now, 0);
    }
  }

  /** So a configuration that lists a key beginning no earlier than another one ends can never be
      loaded, whatever other bounds the two have: a rotation needs overlapping windows. */
  lemma BackToBackKeysNeverAccepted(p: Platform, s: Server, now: Instant, i: nat, j: nat)
    requires i < |s.authKeys| && j < |s.authKeys|
    requires s.authKeys[i].notAfter != "" && s.authKeys[j].notBefore != ""
    requires p.parseTime(s.authKeys[i].notAfter).Some? && p.parseTime(s.authKeys[j].notBefore).Some?
    requires p.parseTime(s.authKeys[j].notBefore).value >= p.parseTime(s.authKeys[i].notAfter).value
    ensures !Accepted(p, s, now)
  {
    AcceptedSometimeIff(p, s);
    assert WindowsMeet(p, s.authKeys) ==> BeginsBeforeEnd(p, s.authKeys[j], s.authKeys[i]);
  }

  /** One key outside its window refuses the whole configuration, other usable keys or not: a key
      cannot be listed ahead of its beginning, nor stay listed after its end. */
  lemma KeyOutsideWindowRefusesAll(p: Platform, s: Server, now: Instant, k: AuthKey)
    requires k in s.authKeys
    requires || (k.notBefore != "" && p.parseTime(k.notBefore).Some? && now < p.parseTime(k.notBefore).value)
             || (k.notAfter != "" && p.parseTime(k.notAfter).Some? && now >= p.parseTime(k.notAfter).value)
    ensures !Accepted(p, s, now)
  {
    AcceptedAtIff(p, s, now, 0);
    var i :| 0 <= i < |s.authKeys| && s.authKeys[i] == k;
    assert AllActive(p, s.authKeys, now) ==> KeyActive(p, s.authKeys[i], now);
  }
}
