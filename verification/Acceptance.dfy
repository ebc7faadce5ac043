/** Exactly which configurations `CheckValid` accepts, written out: what an identifier, a secret, a
    rule, a key and a forward may be. */
module Acceptance {
  import opened Basics
  import opened Settings
  import ConfigChecked

  // ----- identifiers -----

  /** One to 64 bytes of letters, digits, hyphens, underscores and dots. */
  ghost predicate GoodID(p: Platform, id: string) {
    && 1 <= ByteLen(id) <= 64
    && forall i | 0 <= i < |id| :: p.isLetterOrDigit(id[i]) || id[i] == '-' || id[i] == '_' || id[i] == '.'
  }

  lemma IdentifierIff(p: Platform, id: string)
    ensures ValidIdentifier(p, id) <==> GoodID(p, id)
  {
    if id == "" { AsciiByteLen(id); }
    assert forall i | 0 <= i < |id| :: id[i] in id;
  }

  /** Identifiers joined by a hyphen, an underscore or a dot are an identifier as long as they fit. */
  lemma JoinedIdentifier(p: Platform, a: string, b: string, joint: char)
    requires ValidIdentifier(p, a) && ValidIdentifier(p, b) && joint in {'-', '_', '.'}
    ensures ValidIdentifier(p, a + [joint] + b) <==> ByteLen(a) + 1 + ByteLen(b) <= 64
  {
    AsciiByteLen([joint]);
    ByteLenAppend(a, [joint]);
    ByteLenAppend(a + [joint], b);
  }

  // ----- secrets -----

  /** The text has this part somewhere. */
  ghost predicate Holds(s: string, part: string) { exists a, b :: s == a + part + b }

  /** At least 24 bytes once trimmed, and no placeholder inside. */
  ghost predicate GoodSecret(p: Platform, secret: string) {
    ByteLen(p.lowerTrim(secret)) >= 24 && !Holds(p.lowerTrim(secret), "change_me")
  }

  lemma ContainsIff(s: string, part: string)
    ensures Contains(s, part) <==> Holds(s, part)
  {
    if i :| 0 <= i <= |s| && part <= s[i..] {
      assert s == s[..i] + part + s[i..][|part|..];
    }
    if a, b :| s == a + part + b {
      assert s[|a|..] == part + b;
    }
  }

  /** The example values the code lists are all too short anyway: only length and the placeholder
      count. */
  lemma SecretIff(p: Platform, secret: string)
    ensures !WeakSecret(p, secret) <==> GoodSecret(p, secret)
  {
    var s := p.lowerTrim(secret);
    ContainsIff(s, "change_me");
    AsciiByteLen("a safe key");
    AsciiByteLen("admin");
    AsciiByteLen("valid_token");
    AsciiByteLen("global_token");
    AsciiByteLen("change_me");
  }

  // ----- rules -----

  /** A token rule refers to a named token and has nothing else, or has a good secret of its own and
      names no address. */
  ghost predicate GoodTokenRule(p: Platform, tokens: map<string, string>, r: AccessRule) {
    && r.ip == "" && r.ipRef == ""
    && if r.tokenRef != "" then r.tokenRef in tokens && r.token == "" && r.inlineText == ""
       else GoodSecret(p, if r.token != "" then r.token else r.inlineText)
  }

  lemma TokenRuleIff(p: Platform, tokens: map<string, string>, r: AccessRule, scope: string, port: Uint16, index: nat)
    requires ConfigChecked.Standard(p) && p.lowerTrim("*") == "*"
    ensures ResolveTokenRule(p, tokens, r, scope, port, index).Some? <==> GoodTokenRule(p, tokens, r)
  {
    var value := if r.token != "" then r.token else r.inlineText;
    SecretIff(p, value);
    AsciiByteLen("");
    AsciiByteLen("*");
  }

  /** An IP rule refers to a named rule and has nothing else, or has a text of its own, an address or
      a network, and names no token. */
  ghost predicate GoodIPRule(p: Platform, ipRules: map<string, string>, r: AccessRule) {
    && r.token == "" && r.tokenRef == ""
    && if r.ipRef != "" then r.ipRef in ipRules && r.ip == "" && r.inlineText == ""
       else
         var text := if r.ip != "" then r.ip else r.inlineText;
         text != "" && (p.resolvesIP(text) || p.parseCIDR(text).Some?)
  }

  lemma IPRuleIff(p: Platform, ipRules: map<string, string>, r: AccessRule, scope: string, port: Uint16, index: nat)
    ensures ResolveIPRule(p, ipRules, r, scope, port, index).Some? <==> GoodIPRule(p, ipRules, r)
  {
  }

  ghost predicate GoodTokenRules(p: Platform, s: Server, rules: seq<AccessRule>) {
    forall i | 0 <= i < |rules| :: GoodTokenRule(p, s.tokens, rules[i])
  }

  ghost predicate GoodIPRules(p: Platform, s: Server, rules: seq<AccessRule>) {
    forall i | 0 <= i < |rules| :: GoodIPRule(p, s.ipRules, rules[i])
  }

  lemma TokenRulesIff(p: Platform, s: Server, rules: seq<AccessRule>, scope: string, port: Uint16)
    requires ConfigChecked.Standard(p) && p.lowerTrim("*") == "*"
    ensures AllResolve(TokenResolver(p, s.tokens, scope, port), rules) <==> GoodTokenRules(p, s, rules)
  {
    forall i | 0 <= i < |rules|
      ensures TokenResolver(p, s.tokens, scope, port)(rules[i], i + 1).Some? <==> GoodTokenRule(p, s.tokens, rules[i])
    {
      TokenRuleIff(p, s.tokens, rules[i], scope, port, i + 1);
    }
  }

  lemma IPRulesIff(p: Platform, s: Server, rules: seq<AccessRule>, scope: string, port: Uint16)
    ensures AllResolve(IPResolver(p, s.ipRules, scope, port), rules) <==> GoodIPRules(p, s, rules)
  {
    forall i | 0 <= i < |rules|
      ensures IPResolver(p, s.ipRules, scope, port)(rules[i], i + 1).Some? <==> GoodIPRule(p, s.ipRules, rules[i])
    {
      IPRuleIff(p, s.ipRules, rules[i], scope, port, i + 1);
    }
  }

  // ----- keys, forwards and the whole -----

  /** Usable now: its beginning, if written, is a time that has come, and its end, if written, one
      that has not. */
  ghost predicate GoodKey(p: Platform, k: AuthKey, now: Instant) {
    && GoodID(p, k.id) && GoodSecret(p, k.key)
    && (k.notBefore == "" || (p.parseTime(k.notBefore).Some? && p.parseTime(k.notBefore).value <= now))
    && (k.notAfter == "" || (p.parseTime(k.notAfter).Some? && now < p.parseTime(k.notAfter).value))
  }

  ghost predicate GoodForward(p: Platform, s: Server, f: Forward) {
    && f.forwardAddr != "" && p.hostPortAccepted(f.forwardAddr) && 1 <= f.bindPort <= 65534
    && (match f.dropDelayTime case Some(ms) => ms <= 5000 case None => true)
    && GoodTokenRules(p, s, f.allowTokens) && GoodIPRules(p, s, f.allowIPs)
  }

  ghost predicate GoodTables(p: Platform, s: Server) {
    && (forall id | id in s.tokens :: GoodID(p, id) && GoodSecret(p, s.tokens[id]))
    && (forall id | id in s.ipRules :: GoodID(p, id) && (p.resolvesIP(s.ipRules[id]) || p.parseCIDR(s.ipRules[id]).Some?))
  }

  lemma KeyIff(p: Platform, k: AuthKey, now: Instant)
    ensures KeyAccepted(p, k, now) <==> GoodKey(p, k, now)
  {
    IdentifierIff(p, k.id);
    SecretIff(p, k.key);
  }

  lemma TablesIff(p: Platform, s: Server)
    requires p.lowerTrim("*") == "*"
    ensures GoodTables(p, s) <==>
            && (forall id | id in s.tokens :: TokenAccepted(p, id, s.tokens[id]))
            && (forall id | id in s.ipRules :: IPRuleAccepted(p, id, s.ipRules[id]))
  {
    AsciiByteLen("*");
    forall id | id in s.tokens ensures TokenAccepted(p, id, s.tokens[id]) <==> GoodID(p, id) && GoodSecret(p, s.tokens[id]) {
      IdentifierIff(p, id);
      SecretIff(p, s.tokens[id]);
    }
    forall id | id in s.ipRules
      ensures IPRuleAccepted(p, id, s.ipRules[id]) <==> GoodID(p, id) && (p.resolvesIP(s.ipRules[id]) || p.parseCIDR(s.ipRules[id]).Some?)
    {
      IdentifierIff(p, id);
    }
  }

  lemma ForwardIff(p: Platform, s: Server, f: Forward)
    requires ConfigChecked.Standard(p) && p.lowerTrim("*") == "*"
    ensures ForwardAccepted(p, f) && ForwardResolves(p, s, f) <==> GoodForward(p, s, f)
  {
    TokenRulesIff(p, s, f.allowTokens, "forward", f.bindPort);
    IPRulesIff(p, s, f.allowIPs, "forward", f.bindPort);
  }

  /** `CheckValid` succeeds exactly on these configurations. */
  lemma AcceptedIff(p: Platform, s: Server, now: Instant)
    requires ConfigChecked.Standard(p) && p.lowerTrim("*") == "*"
    ensures Accepted(p, s, now) <==>
            && GoodID(p, s.serverID) && p.udpAddrAccepted(s.authAddr)
            && s.authKeys != []
            && (forall i | 0 <= i < |s.authKeys| :: GoodKey(p, s.authKeys[i], now))
            && (forall i, j | 0 <= i < j < |s.authKeys| :: s.authKeys[i].id != s.authKeys[j].id)
            && GoodTables(p, s)
            && GoodTokenRules(p, s, s.globalAllowTokens) && GoodIPRules(p, s, s.globalAllowIPs) && GoodIPRules(p, s, s.globalDenyIPs)
            && (forall i | 0 <= i < |s.forwards| :: GoodForward(p, s, s.forwards[i]))
  {
    IdentifierIff(p, s.serverID);
    forall i | 0 <= i < |s.authKeys| ensures KeyAccepted(p, s.authKeys[i], now) <==> GoodKey(p, s.authKeys[i], now) {
      KeyIff(p, s.authKeys[i], now);
    }
    TablesIff(p, s);
    TokenRulesIff(p, s, s.globalAllowTokens, "global", 0);
    IPRulesIff(p, s, s.globalAllowIPs, "global", 0);
    IPRulesIff(p, s, s.globalDenyIPs, "global_deny", 0);
    forall i | 0 <= i < |s.forwards|
      ensures ForwardAccepted(p, s.forwards[i]) && ForwardResolves(p, s, s.forwards[i]) <==> GoodForward(p, s, s.forwards[i])
    {
      ForwardIff(p, s, s.forwards[i]);
    }
  }
}
