/** What a configuration that passed `CheckValid` guarantees at run time. */
module ConfigChecked {
  import opened Basics
  import opened Settings

  /** Facts about the Unicode tables and string functions that the proofs rest on. */
  ghost predicate Standard(p: Platform) {
    !p.isLetterOrDigit(':') && p.lowerTrim("") == ""
  }

  // ----- one rule -----

  /** The pattern of a token rule as written: the named token's text, or its own. */
  ghost function TokenText(s: Server, r: AccessRule): string
    requires r.tokenRef == "" || r.tokenRef in s.tokens
  {
    if r.tokenRef != "" then s.tokens[r.tokenRef] else if r.token != "" then r.token else r.inlineText
  }

  /** The literal a rule was written with, or the named value it refers to. */
  ghost predicate IsTokenSource(s: Server, rule: AccessRule, value: string) {
    (rule.tokenRef == "" || rule.tokenRef in s.tokens) && value == TokenText(s, rule)
  }

  ghost predicate IsIPSource(s: Server, rule: AccessRule, value: string) {
    if rule.ipRef != "" then rule.ipRef in s.ipRules && value == s.ipRules[rule.ipRef]
    else value == if rule.ip != "" then rule.ip else rule.inlineText
  }

  ghost predicate TokenRuleReady(p: Platform, s: Server, r: AccessRule) {
    && IsTokenSource(s, r, r.resolvedValue)
    && r.resolvedValue != "" && r.resolvedValue != "*" && !WeakSecret(p, r.resolvedValue)
    && !FallsBackToToken(r)
  }

  /** An IP rule's value is its source. It is non-empty exactly when the rule does not refer to
      a named rule with empty text, which the address resolver may accept. Either way the
      fallback to the unresolved field is never taken. */
  ghost predicate IPRuleReady(s: Server, r: AccessRule) {
    && IsIPSource(s, r, r.resolvedValue)
    && (r.resolvedValue != "" <==> r.ipRef == "" || s.ipRules[r.ipRef] != "")
    && IPRuleValue(r) == r.resolvedValue
  }

  lemma EmptyIsWeak(p: Platform)
    requires Standard(p)
    ensures WeakSecret(p, "")
  {
    assert ByteLen(p.lowerTrim("")) == 0;
  }

  lemma ResolvedTokenRuleReady(p: Platform, s: Server, rule: AccessRule, scope: string, port: Uint16, index: nat)
    requires Standard(p)
    requires forall id | id in s.tokens :: TokenAccepted(p, id, s.tokens[id])
    requires ResolveTokenRule(p, s.tokens, rule, scope, port, index).Some?
    ensures TokenRuleReady(p, s, ResolveTokenRule(p, s.tokens, rule, scope, port, index).value)
  {
    EmptyIsWeak(p);
    if rule.tokenRef != "" { assert TokenAccepted(p, rule.tokenRef, s.tokens[rule.tokenRef]); }
  }

  lemma ResolvedIPRuleReady(p: Platform, s: Server, rule: AccessRule, scope: string, port: Uint16, index: nat)
    requires ResolveIPRule(p, s.ipRules, rule, scope, port, index).Some?
    ensures IPRuleReady(s, ResolveIPRule(p, s.ipRules, rule, scope, port, index).value)
  {
  }

  // ----- the whole configuration -----

  ghost predicate TokenRulesReady(p: Platform, s: Server, rules: seq<AccessRule>) {
    forall i | 0 <= i < |rules| :: TokenRuleReady(p, s, rules[i])
  }

  ghost predicate IPRulesReady(s: Server, rules: seq<AccessRule>) {
    forall i | 0 <= i < |rules| :: IPRuleReady(s, rules[i])
  }

  ghost predicate ForwardReady(p: Platform, s: Server, f: Forward) {
    && TokenRulesReady(p, s, f.allowTokens) && IPRulesReady(s, f.allowIPs)
    && Defaulted(f) && f.bindPort != 0 && f.bindPort != 65535
  }

  ghost predicate RuntimeReady(p: Platform, s: Server) {
    && ValidIdentifier(p, s.serverID)
    && UniqueIDs(s.authKeys)
    && (forall i | 0 <= i < |s.authKeys| :: ValidIdentifier(p, s.authKeys[i].id) && !WeakSecret(p, s.authKeys[i].key))
    && TokenRulesReady(p, s, s.globalAllowTokens)
    && IPRulesReady(s, s.globalAllowIPs)
    && IPRulesReady(s, s.globalDenyIPs)
    && (forall i | 0 <= i < |s.forwards| :: ForwardReady(p, s, s.forwards[i]))
  }

  lemma TokenListReady(p: Platform, s: Server, rules: seq<AccessRule>, scope: string, port: Uint16)
    requires Standard(p)
    requires forall id | id in s.tokens :: TokenAccepted(p, id, s.tokens[id])
    requires AllResolve(TokenResolver(p, s.tokens, scope, port), rules)
    ensures TokenRulesReady(p, s, Resolved(TokenResolver(p, s.tokens, scope, port), rules))
  {
    forall i | 0 <= i < |rules|
      ensures TokenRuleReady(p, s, Resolved(TokenResolver(p, s.tokens, scope, port), rules)[i])
    {
      assert TokenResolver(p, s.tokens, scope, port)(rules[i], i + 1).Some?;
      ResolvedTokenRuleReady(p, s, rules[i], scope, port, i + 1);
    }
  }

  lemma IPListReady(p: Platform, s: Server, rules: seq<AccessRule>, scope: string, port: Uint16)
    requires AllResolve(IPResolver(p, s.ipRules, scope, port), rules)
    ensures IPRulesReady(s, Resolved(IPResolver(p, s.ipRules, scope, port), rules))
  {
    forall i | 0 <= i < |rules|
      ensures IPRuleReady(s, Resolved(IPResolver(p, s.ipRules, scope, port), rules)[i])
    {
      assert IPResolver(p, s.ipRules, scope, port)(rules[i], i + 1).Some?;
      ResolvedIPRuleReady(p, s, rules[i], scope, port, i + 1);
    }
  }

  lemma ReadyNeedsNamesOnly(p: Platform, s: Server, t: Server, rules: seq<AccessRule>)
    requires s.tokens == t.tokens && s.ipRules == t.ipRules
    ensures TokenRulesReady(p, s, rules) ==> TokenRulesReady(p, t, rules)
    ensures IPRulesReady(s, rules) ==> IPRulesReady(t, rules)
  {
    forall i | 0 <= i < |rules|
      ensures TokenRuleReady(p, s, rules[i]) ==> TokenRuleReady(p, t, rules[i])
      ensures IPRuleReady(s, rules[i]) ==> IPRuleReady(t, rules[i])
    {
    }
  }

  lemma ForwardBecomesReady(p: Platform, s: Server, f: Forward)
    requires Standard(p)
    requires forall id | id in s.tokens :: TokenAccepted(p, id, s.tokens[id])
    requires ForwardAccepted(p, f) && ForwardResolves(p, s, f)
    ensures ForwardReady(p, s, CheckedForward(p, s, f))
  {
    TokenListReady(p, s, f.allowTokens, "forward", f.bindPort);
    IPListReady(p, s, f.allowIPs, "forward", f.bindPort);
  }

  /** `CheckValid` establishes everything the handlers and the accept loop rely on. */
  lemma CheckValidEstablishesRuntime(p: Platform, s: Server, now: Instant)
    requires Standard(p)
    requires Accepted(p, s, now)
    ensures RuntimeReady(p, Checked(p, s))
  {
    var t := Checked(p, s);
    assert forall i | 0 <= i < |s.authKeys| :: KeyAccepted(p, s.authKeys[i], now);
    TokenListReady(p, s, s.globalAllowTokens, "global", 0);
    ReadyNeedsNamesOnly(p, s, t, t.globalAllowTokens);
    IPListReady(p, s, s.globalAllowIPs, "global", 0);
    ReadyNeedsNamesOnly(p, s, t, t.globalAllowIPs);
    IPListReady(p, s, s.globalDenyIPs, "global_deny", 0);
    ReadyNeedsNamesOnly(p, s, t, t.globalDenyIPs);
    forall i | 0 <= i < |t.forwards| ensures ForwardReady(p, t, t.forwards[i]) {
      assert ForwardAccepted(p, s.forwards[i]) && ForwardResolves(p, s, s.forwards[i]);
      ForwardBecomesReady(p, s, s.forwards[i]);
      ReadyNeedsNamesOnly(p, s, t, t.forwards[i].allowTokens);
      ReadyNeedsNamesOnly(p, s, t, t.forwards[i].allowIPs);
    }
  }

  // ----- settings -----

  /** The written value if there is one, else the default. */
  lemma SettingsAsWritten(p: Platform, s: Server, f: Forward)
    requires ForwardResolves(p, s, f)
    ensures var g := CheckedForward(p, s, f);
            && g.bindPort == f.bindPort && g.forwardAddr == f.forwardAddr
            && g.dropDelayTime == Some(match f.dropDelayTime case Some(ms) => ms case None => 0)
            && g.authExpiredTime == Some(match f.authExpiredTime case Some(sec) => sec case None => 3600)
            && g.maxConnPerIP == Some(match f.maxConnPerIP case Some(n) => n case None => 16)
            && g.maxConnGlobal == Some(match f.maxConnGlobal case Some(n) => n case None => 1024)
            && g.dialTimeoutMS == Some(match f.dialTimeoutMS case Some(ms) => ms case None => 3000)
            && g.idleTimeoutMS == Some(match f.idleTimeoutMS case Some(ms) => ms case None => 300000)
  {
  }

  // ----- the one way a rule can resolve to nothing -----

  /** A list's values are all non-empty exactly when no rule refers to a named rule with empty text. */
  lemma IPValuesNonEmptyIff(p: Platform, s: Server, rules: seq<AccessRule>, scope: string, port: Uint16)
    requires AllResolve(IPResolver(p, s.ipRules, scope, port), rules)
    ensures (forall i | 0 <= i < |rules| :: Resolved(IPResolver(p, s.ipRules, scope, port), rules)[i].resolvedValue != "")
            <==> (forall i | 0 <= i < |rules| :: rules[i].ipRef == "" || s.ipRules[rules[i].ipRef] != "")
  {
    var resolved := Resolved(IPResolver(p, s.ipRules, scope, port), rules);
    forall i | 0 <= i < |rules|
      ensures resolved[i].resolvedValue != "" <==> rules[i].ipRef == "" || s.ipRules[rules[i].ipRef] != ""
    {
      assert IPResolver(p, s.ipRules, scope, port)(rules[i], i + 1).Some?;
      ResolvedIPRuleReady(p, s, rules[i], scope, port, i + 1);
    }
  }

  // ----- rules match at run time as they were written -----

  /** The rule as written has this text, and it names the address: literally or by a network. */
  ghost predicate NamesIP(p: Platform, s: Server, rule: AccessRule, value: string, ip: string) {
    IsIPSource(s, rule, value) && value != "" && (value == ip || (p.parseCIDR(value).Some? && p.parseCIDR(value).value(ip)))
  }

  ghost predicate WrittenForIP(p: Platform, s: Server, rules: seq<AccessRule>, ip: string) {
    exists i, value :: 0 <= i < |rules| && NamesIP(p, s, rules[i], value, ip)
  }

  /** Some rule of the list, as written, has a pattern for this token. */
  ghost predicate WrittenForToken(p: Platform, s: Server, rules: seq<AccessRule>, token: string) {
    exists i, value :: 0 <= i < |rules| && IsTokenSource(s, rules[i], value) && p.glob(value, token)
  }

  lemma IPRuleMatchesAsWritten(p: Platform, s: Server, rule: AccessRule, scope: string, port: Uint16, index: nat, value: string, ip: string)
    requires ResolveIPRule(p, s.ipRules, rule, scope, port, index).Some?
    ensures var resolved := IPRuleValue(ResolveIPRule(p, s.ipRules, rule, scope, port, index).value);
            NamesIP(p, s, rule, value, ip) <==> value == resolved && IPMatchesRule(p, ip, resolved)
  {
    ResolvedIPRuleReady(p, s, rule, scope, port, index);
  }

  lemma IPListMatchesAsWritten(p: Platform, s: Server, rules: seq<AccessRule>, scope: string, port: Uint16, ip: string)
    requires AllResolve(IPResolver(p, s.ipRules, scope, port), rules)
    ensures IPMatchesRules(p, ip, Resolved(IPResolver(p, s.ipRules, scope, port), rules)) <==> WrittenForIP(p, s, rules, ip)
  {
    var resolved := Resolved(IPResolver(p, s.ipRules, scope, port), rules);
    forall i, value | 0 <= i < |rules|
      ensures NamesIP(p, s, rules[i], value, ip) <==> value == IPRuleValue(resolved[i]) && IPMatchesRule(p, ip, IPRuleValue(resolved[i]))
    {
      assert IPResolver(p, s.ipRules, scope, port)(rules[i], i + 1).Some?;
      IPRuleMatchesAsWritten(p, s, rules[i], scope, port, i + 1, value, ip);
    }
    if i :| 0 <= i < |rules| && IPMatchesRule(p, ip, IPRuleValue(resolved[i])) {
      assert NamesIP(p, s, rules[i], IPRuleValue(resolved[i]), ip);
    }
  }

  lemma TokenListMatchesAsWritten(p: Platform, s: Server, rules: seq<AccessRule>, scope: string, port: Uint16, token: string)
    requires Standard(p)
    requires forall id | id in s.tokens :: TokenAccepted(p, id, s.tokens[id])
    requires AllResolve(TokenResolver(p, s.tokens, scope, port), rules)
    ensures (exists i | 0 <= i < |rules| :: TokenMatches(p, token, Resolved(TokenResolver(p, s.tokens, scope, port), rules)[i]))
            <==> WrittenForToken(p, s, rules, token)
  {
    var resolved := Resolved(TokenResolver(p, s.tokens, scope, port), rules);
    forall i | 0 <= i < |rules|
      ensures IsTokenSource(s, rules[i], resolved[i].resolvedValue) && !FallsBackToToken(resolved[i])
      ensures forall value | IsTokenSource(s, rules[i], value) :: value == resolved[i].resolvedValue
    {
      assert TokenResolver(p, s.tokens, scope, port)(rules[i], i + 1).Some?;
      ResolvedTokenRuleReady(p, s, rules[i], scope, port, i + 1);
    }
    if i :| 0 <= i < |rules| && TokenMatches(p, token, resolved[i]) {
      assert IsTokenSource(s, rules[i], resolved[i].resolvedValue);
    }
    if i, value :| 0 <= i < |rules| && IsTokenSource(s, rules[i], value) && p.glob(value, token) {
      assert TokenMatches(p, token, resolved[i]);
    }
  }

  /** Deny, allow and token rules of a checked configuration match exactly as they were written:
      named rules by their named text, inline rules by their own. */
  lemma ChecksMatchAsWritten(p: Platform, s: Server, now: Instant, f: nat, ip: string, token: string)
    requires Standard(p) && Accepted(p, s, now) && f < |s.forwards|
    ensures var t := Checked(p, s);
            && (Denied(p, t, ip) <==> WrittenForIP(p, s, s.globalDenyIPs, ip))
            && (StaticAllowed(p, t, t.forwards[f], ip) <==>
                  WrittenForIP(p, s, s.globalAllowIPs, ip) || WrittenForIP(p, s, s.forwards[f].allowIPs, ip))
            && (TokenAllowed(p, t, t.forwards[f], token) <==>
                  WrittenForToken(p, s, s.globalAllowTokens, token) || WrittenForToken(p, s, s.forwards[f].allowTokens, token))
  {
    var fwd := s.forwards[f];
    IPListMatchesAsWritten(p, s, s.globalDenyIPs, "global_deny", 0, ip);
    IPListMatchesAsWritten(p, s, s.globalAllowIPs, "global", 0, ip);
    IPListMatchesAsWritten(p, s, fwd.allowIPs, "forward", fwd.bindPort, ip);
    TokenListMatchesAsWritten(p, s, s.globalAllowTokens, "global", 0, token);
    TokenListMatchesAsWritten(p, s, fwd.allowTokens, "forward", fwd.bindPort, token);
  }

  // ----- what a match reports -----

  /** Rule `i` is the first of the list, as written, whose pattern matches. */
  ghost predicate FirstWritten(p: Platform, s: Server, rules: seq<AccessRule>, token: string, i: int) {
    && 0 <= i < |rules|
    && (forall j | 0 <= j <= i :: rules[j].tokenRef == "" || rules[j].tokenRef in s.tokens)
    && p.glob(TokenText(s, rules[i]), token)
    && forall j | 0 <= j < i :: !p.glob(TokenText(s, rules[j]), token)
  }

  lemma ResolvedTokenRuleReports(p: Platform, s: Server, rule: AccessRule, scope: string, port: Uint16, index: nat)
    requires ResolveTokenRule(p, s.tokens, rule, scope, port, index).Some?
    ensures var r := ResolveTokenRule(p, s.tokens, rule, scope, port, index).value;
            && (rule.tokenRef == "" || rule.tokenRef in s.tokens) && r.resolvedValue == TokenText(s, rule)
            && r.ruleID == (if rule.tokenRef != "" then rule.tokenRef else InlineRuleID(scope, port, "token", index))
            && r.ruleType == (if rule.tokenRef != "" then "token_ref" else "inline_token")
  {
  }

  lemma FirstWrittenIsFirstMatch(p: Platform, s: Server, rules: seq<AccessRule>, scope: string, port: Uint16, token: string, i: int)
    requires Standard(p)
    requires forall id | id in s.tokens :: TokenAccepted(p, id, s.tokens[id])
    requires AllResolve(TokenResolver(p, s.tokens, scope, port), rules)
    requires FirstWritten(p, s, rules, token, i)
    ensures var resolved := Resolved(TokenResolver(p, s.tokens, scope, port), rules);
            && IsFirstMatch(p, token, resolved, i) && resolved[i].resolvedValue != ""
            && resolved[i].ruleID == (if rules[i].tokenRef != "" then rules[i].tokenRef else InlineRuleID(scope, port, "token", i + 1))
            && resolved[i].ruleType == (if rules[i].tokenRef != "" then "token_ref" else "inline_token")
  {
    var resolved := Resolved(TokenResolver(p, s.tokens, scope, port), rules);
    forall j | 0 <= j <= i ensures TokenMatches(p, token, resolved[j]) <==> p.glob(TokenText(s, rules[j]), token) {
      assert TokenResolver(p, s.tokens, scope, port)(rules[j], j + 1).Some?;
      ResolvedTokenRuleReports(p, s, rules[j], scope, port, j + 1);
      ResolvedTokenRuleReady(p, s, rules[j], scope, port, j + 1);
    }
    assert TokenResolver(p, s.tokens, scope, port)(rules[i], i + 1).Some?;
    ResolvedTokenRuleReports(p, s, rules[i], scope, port, i + 1);
    ResolvedTokenRuleReady(p, s, rules[i], scope, port, i + 1);
  }

  lemma InlineIDText(port: Uint16, index: nat)
    ensures InlineRuleID("global", 0, "token", index) == "inline:global:token:" + Decimal(index)
    ensures port != 0 ==> InlineRuleID("forward", port, "token", index) == "inline:forward:" + Decimal(port) + ":token:" + Decimal(index)
  {
    assert "inline" + ":" + "global" + ":" + "token" + ":" == "inline:global:token:";
    assert "inline" + ":" + "forward" + ":" == "inline:forward:";
    assert ":" + "token" + ":" == ":token:";
    Regroup("inline:forward:" + Decimal(port), ":", "token", ":");
  }

  lemma Regroup(a: string, b: string, c: string, d: string)
    ensures a + b + c + d == a + (b + c + d)
  {
  }

  /** On a checked configuration a match reports the first rule, as written, whose pattern matches,
      global rules before the forward's own: its scope, and its name or its place. */
  lemma MatchReportsAsWritten(p: Platform, s: Server, now: Instant, f: nat, token: string, i: int)
    requires Standard(p) && Accepted(p, s, now) && f < |s.forwards|
    ensures var t := Checked(p, s);
            FirstWritten(p, s, s.globalAllowTokens, token, i) ==>
            MatchForward(p, t, t.forwards[f], token) == Some(
              if s.globalAllowTokens[i].tokenRef != "" then AuthResult(true, false, "global", s.globalAllowTokens[i].tokenRef, "token_ref")
              else AuthResult(true, false, "global", "inline:global:token:" + Decimal(i + 1), "inline_token"))
    ensures var t, rules, port := Checked(p, s), s.forwards[f].allowTokens, s.forwards[f].bindPort;
            !WrittenForToken(p, s, s.globalAllowTokens, token) && FirstWritten(p, s, rules, token, i) ==>
            MatchForward(p, t, t.forwards[f], token) == Some(
              if rules[i].tokenRef != "" then AuthResult(true, false, "forward", rules[i].tokenRef, "token_ref")
              else AuthResult(true, false, "forward", "inline:forward:" + Decimal(port) + ":token:" + Decimal(i + 1), "inline_token"))
  {
    var t, fwd := Checked(p, s), s.forwards[f];
    assert ForwardAccepted(p, fwd) && ForwardResolves(p, s, fwd);
    MatchReportsFirstRule(p, t, t.forwards[f], token, i);
    if FirstWritten(p, s, s.globalAllowTokens, token, i) {
      FirstWrittenIsFirstMatch(p, s, s.globalAllowTokens, "global", 0, token, i);
      InlineIDText(0, i + 1);
    }
    if !WrittenForToken(p, s, s.globalAllowTokens, token) && FirstWritten(p, s, fwd.allowTokens, token, i) {
      TokenListMatchesAsWritten(p, s, s.globalAllowTokens, "global", 0, token);
      FirstWrittenIsFirstMatch(p, s, fwd.allowTokens, "forward", fwd.bindPort, token, i);
      InlineIDText(fwd.bindPort, i + 1);
    }
  }

  // ----- resolving again changes nothing -----

  ghost predicate Stable(resolve: Resolver) {
    forall rule, index :: resolve(rule, index).Some? ==>
      resolve(resolve(rule, index).value, index) == resolve(rule, index)
  }

  lemma ResolversStable(p: Platform, s: Server, scope: string, port: Uint16)
    ensures Stable(TokenResolver(p, s.tokens, scope, port))
    ensures Stable(IPResolver(p, s.ipRules, scope, port))
  {
  }

  lemma ResolvedAgain(resolve: Resolver, rules: seq<AccessRule>)
    requires Stable(resolve) && AllResolve(resolve, rules)
    ensures AllResolve(resolve, Resolved(resolve, rules))
    ensures Resolved(resolve, Resolved(resolve, rules)) == Resolved(resolve, rules)
  {
    var once := Resolved(resolve, rules);
    forall i | 0 <= i < |rules| ensures resolve(once[i], i + 1) == Some(once[i]) {
      assert resolve(rules[i], i + 1).Some?;
    }
  }

  lemma ForwardCheckedAgain(p: Platform, s: Server, t: Server, f: Forward)
    requires s.tokens == t.tokens && s.ipRules == t.ipRules
    requires ForwardAccepted(p, f) && ForwardResolves(p, s, f)
    ensures var once := CheckedForward(p, s, f);
            && ForwardAccepted(p, once) && ForwardResolves(p, t, once)
            && CheckedForward(p, t, once) == once
  {
    ResolversStable(p, s, "forward", f.bindPort);
    ResolvedAgain(TokenResolver(p, s.tokens, "forward", f.bindPort), f.allowTokens);
    ResolvedAgain(IPResolver(p, s.ipRules, "forward", f.bindPort), f.allowIPs);
  }

  /** Running `CheckValid` again at the same time succeeds and changes nothing. */
  lemma CheckValidIdempotent(p: Platform, s: Server, now: Instant)
    requires Accepted(p, s, now)
    ensures Accepted(p, Checked(p, s), now)
    ensures Checked(p, Checked(p, s)) == Checked(p, s)
  {
    var t := Checked(p, s);
    ResolversStable(p, s, "global", 0);
    ResolversStable(p, s, "global_deny", 0);
    ResolvedAgain(TokenResolver(p, s.tokens, "global", 0), s.globalAllowTokens);
    ResolvedAgain(IPResolver(p, s.ipRules, "global", 0), s.globalAllowIPs);
    ResolvedAgain(IPResolver(p, s.ipRules, "global_deny", 0), s.globalDenyIPs);
    forall i | 0 <= i < |t.forwards|
      ensures ForwardAccepted(p, t.forwards[i]) && ForwardResolves(p, t, t.forwards[i])
      ensures CheckedForward(p, t, t.forwards[i]) == t.forwards[i]
    {
      assert ForwardAccepted(p, s.forwards[i]) && ForwardResolves(p, s, s.forwards[i]);
      ForwardCheckedAgain(p, s, t, s.forwards[i]);
    }
  }

  lemma PartlyResolvedAgain(resolve: Resolver, before: seq<AccessRule>, after: seq<AccessRule>)
    requires Stable(resolve) && PartlyResolved(resolve, before, after)
    ensures AllResolve(resolve, after) <==> AllResolve(resolve, before)
  {
    var b :| ResolvedUpTo(resolve, before, after, b);
    forall i | 0 <= i < |before| ensures resolve(after[i], i + 1).Some? <==> resolve(before[i], i + 1).Some? {
      if i < b {
        assert resolve(resolve(before[i], i + 1).value, i + 1) == resolve(before[i], i + 1);
      }
    }
  }

  lemma PartlyCheckedForwardAgain(p: Platform, s: Server, t: Server, f: Forward, g: Forward)
    requires s.tokens == t.tokens && s.ipRules == t.ipRules
    requires PartlyCheckedForward(p, s, f, g)
    ensures ForwardAccepted(p, g) && ForwardResolves(p, t, g) <==> ForwardAccepted(p, f) && ForwardResolves(p, s, f)
  {
    ResolversStable(p, s, "forward", f.bindPort);
    PartlyResolvedAgain(TokenResolver(p, s.tokens, "forward", f.bindPort), f.allowTokens, g.allowTokens);
    PartlyResolvedAgain(IPResolver(p, s.ipRules, "forward", f.bindPort), f.allowIPs, g.allowIPs);
  }

  lemma PartlyCheckedGlobalsAgain(p: Platform, s: Server, t: Server)
    requires s.tokens == t.tokens && s.ipRules == t.ipRules && PartlyCheckedGlobals(p, s, t)
    ensures GlobalRulesResolve(p, t) <==> GlobalRulesResolve(p, s)
  {
    ResolversStable(p, s, "global", 0);
    ResolversStable(p, s, "global_deny", 0);
    PartlyResolvedAgain(TokenResolver(p, s.tokens, "global", 0), s.globalAllowTokens, t.globalAllowTokens);
    PartlyResolvedAgain(IPResolver(p, s.ipRules, "global", 0), s.globalAllowIPs, t.globalAllowIPs);
    PartlyResolvedAgain(IPResolver(p, s.ipRules, "global_deny", 0), s.globalDenyIPs, t.globalDenyIPs);
  }

  /** Wherever `CheckValid` stopped, checking what it left behind gives the same verdict as checking
      the configuration as written: half a resolution neither repairs nor breaks anything. */
  lemma CheckValidAfterStop(p: Platform, s: Server, t: Server, now: Instant)
    requires PartlyChecked(p, s, t)
    ensures Accepted(p, t, now) <==> Accepted(p, s, now)
  {
    PartlyCheckedGlobalsAgain(p, s, t);
    forall i | 0 <= i < |s.forwards|
      ensures ForwardAccepted(p, t.forwards[i]) && ForwardResolves(p, t, t.forwards[i])
              <==> ForwardAccepted(p, s.forwards[i]) && ForwardResolves(p, s, s.forwards[i])
    {
      PartlyCheckedForwardAgain(p, s, t, s.forwards[i], t.forwards[i]);
    }
  }

  // ----- rule ids -----

  ghost function RuleIDFields(scope: string, port: Uint16, kind: string, index: nat): seq<string> {
    if port == 0 then ["inline", scope, kind, Decimal(index)]
    else ["inline", scope, Decimal(port), kind, Decimal(index)]
  }

  lemma RuleIDIsJoined(scope: string, port: Uint16, kind: string, index: nat)
    ensures InlineRuleID(scope, port, kind, index) == JoinColon(RuleIDFields(scope, port, kind, index))
  {
    if port == 0 {
      JoinFour("inline", scope, kind, Decimal(index));
    } else {
      JoinFive("inline", scope, Decimal(port), kind, Decimal(index));
    }
  }

  lemma JoinFive(a: string, b: string, c: string, d: string, e: string)
    ensures JoinColon([a, b, c, d, e]) == a + ":" + b + ":" + c + ":" + d + ":" + e
  {
    JoinFour(b, c, d, e);
    assert [a, b, c, d, e][1..] == [b, c, d, e];
  }

  lemma JoinFour(a: string, b: string, c: string, d: string)
    ensures JoinColon([a, b, c, d]) == a + ":" + b + ":" + c + ":" + d
  {
    assert [c, d][1..] == [d] && [b, c, d][1..] == [c, d] && [a, b, c, d][1..] == [b, c, d];
    assert JoinColon([c, d]) == c + ":" + d;
    assert JoinColon([b, c, d]) == b + ":" + (c + ":" + d);
  }

  /** Inline rule ids are injective in scope, port, kind and index. */
  lemma InlineRuleIDInjective(s1: string, p1: Uint16, k1: string, i1: nat, s2: string, p2: Uint16, k2: string, i2: nat)
    requires ColonFree(s1) && ColonFree(k1) && ColonFree(s2) && ColonFree(k2)
    requires InlineRuleID(s1, p1, k1, i1) == InlineRuleID(s2, p2, k2, i2)
    ensures s1 == s2 && p1 == p2 && k1 == k2 && i1 == i2
  {
    RuleIDIsJoined(s1, p1, k1, i1);
    RuleIDIsJoined(s2, p2, k2, i2);
    JoinColonInjective(RuleIDFields(s1, p1, k1, i1), RuleIDFields(s2, p2, k2, i2));
    var a, b := RuleIDFields(s1, p1, k1, i1), RuleIDFields(s2, p2, k2, i2);
    assert a[1] == b[1] && a[|a| - 1] == b[|b| - 1] && a[|a| - 2] == b[|b| - 2];
    DecimalRoundTrip(i1);
    DecimalRoundTrip(i2);
    if p1 != 0 {
      assert a[2] == b[2];
      DecimalRoundTrip(p1);
      DecimalRoundTrip(p2);
    }
  }

  /** No inline rule id is the id of a named rule. */
  lemma InlineRuleIDNeverNamed(p: Platform, scope: string, port: Uint16, kind: string, index: nat, id: string)
    requires Standard(p)
    requires ValidIdentifier(p, id)
    ensures InlineRuleID(scope, port, kind, index) != id
  {
    assert InlineRuleID(scope, port, kind, index)[6] == ':';
  }
}
