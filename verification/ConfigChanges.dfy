/** What `CheckValid` lets through: additions under which an accepted configuration stays accepted,
    and what they do at run time. */
module ConfigChanges {
  import opened Basics
  import opened Settings
  import ConfigChecked

  // ----- one more named IP rule -----

  function NamedIPRule(id: string): AccessRule { AccessRule("", "", "", id, "", "", "", "") }

  /** The configuration with one more named IP rule, and a deny rule that refers to it. */
  function WithDenied(s: Server, id: string, value: string): Server {
    s.(ipRules := s.ipRules[id := value], globalDenyIPs := s.globalDenyIPs + [NamedIPRule(id)])
  }

  /** ... or a global allow rule ... */
  function WithAllowed(s: Server, id: string, value: string): Server {
    s.(ipRules := s.ipRules[id := value], globalAllowIPs := s.globalAllowIPs + [NamedIPRule(id)])
  }

  /** ... or an allow rule of one forward. */
  function WithAllowedOn(s: Server, f: nat, id: string, value: string): Server
    requires f < |s.forwards|
  {
    s.(ipRules := s.ipRules[id := value],
       forwards := s.forwards[f := s.forwards[f].(allowIPs := s.forwards[f].allowIPs + [NamedIPRule(id)])])
  }

  /** A new name changes nothing for rules that resolve without it. */
  lemma NewNameKeepsRules(p: Platform, ipRules: map<string, string>, id: string, value: string,
                          rules: seq<AccessRule>, scope: string, port: Uint16)
    requires id !in ipRules && AllResolve(IPResolver(p, ipRules, scope, port), rules)
    ensures AllResolve(IPResolver(p, ipRules[id := value], scope, port), rules)
    ensures Resolved(IPResolver(p, ipRules[id := value], scope, port), rules) == Resolved(IPResolver(p, ipRules, scope, port), rules)
  {
    var old', new' := IPResolver(p, ipRules, scope, port), IPResolver(p, ipRules[id := value], scope, port);
    forall i | 0 <= i < |rules| ensures new'(rules[i], i + 1) == old'(rules[i], i + 1) {
      assert old'(rules[i], i + 1).Some?;
    }
  }

  lemma NewNameKeepsForward(p: Platform, s: Server, t: Server, id: string, value: string, f: Forward)
    requires id !in s.ipRules && t.ipRules == s.ipRules[id := value] && t.tokens == s.tokens
    requires ForwardResolves(p, s, f)
    ensures ForwardResolves(p, t, f) && CheckedForward(p, t, f) == CheckedForward(p, s, f)
  {
    NewNameKeepsRules(p, s.ipRules, id, value, f.allowIPs, "forward", f.bindPort);
  }

  /** A list that gains a rule with a new name resolves to what it did before, plus the rule's text. */
  lemma ListGrows(p: Platform, ipRules: map<string, string>, id: string, value: string,
                  rules: seq<AccessRule>, scope: string, port: Uint16)
    requires id != "" && id !in ipRules && AllResolve(IPResolver(p, ipRules, scope, port), rules)
    ensures var resolver := IPResolver(p, ipRules[id := value], scope, port);
            && AllResolve(resolver, rules + [NamedIPRule(id)])
            && Resolved(resolver, rules + [NamedIPRule(id)]) == Resolved(IPResolver(p, ipRules, scope, port), rules)
                 + [NamedIPRule(id).(resolvedValue := value, ruleID := id, ruleType := "ip_ref")]
  {
    NewNameKeepsRules(p, ipRules, id, value, rules, scope, port);
    var resolver := IPResolver(p, ipRules[id := value], scope, port);
    var more := rules + [NamedIPRule(id)];
    forall i | 0 <= i <= |rules| ensures resolver(more[i], i + 1).Some? {
      if i < |rules| { assert resolver(rules[i], i + 1).Some?; }
    }
  }

  /** The text of a rule names an address: it is how the address is printed, or a network around it. */
  ghost predicate TextNames(p: Platform, value: string, ip: string) {
    value != "" && (ip == value || (p.parseCIDR(value).Some? && p.parseCIDR(value).value(ip)))
  }

  /** ... and so it matches in addition exactly the addresses the text names. */
  lemma GrownListMatches(p: Platform, ipRules: map<string, string>, id: string, value: string,
                         rules: seq<AccessRule>, scope: string, port: Uint16, ip: string)
    requires id != "" && id !in ipRules && AllResolve(IPResolver(p, ipRules, scope, port), rules)
    ensures AllResolve(IPResolver(p, ipRules[id := value], scope, port), rules + [NamedIPRule(id)])
    ensures IPMatchesRules(p, ip, Resolved(IPResolver(p, ipRules[id := value], scope, port), rules + [NamedIPRule(id)]))
            <==> IPMatchesRules(p, ip, Resolved(IPResolver(p, ipRules, scope, port), rules)) || TextNames(p, value, ip)
  {
    ListGrows(p, ipRules, id, value, rules, scope, port);
    var before := Resolved(IPResolver(p, ipRules, scope, port), rules);
    var after := Resolved(IPResolver(p, ipRules[id := value], scope, port), rules + [NamedIPRule(id)]);
    if i :| 0 <= i < |before| && IPMatchesRule(p, ip, IPRuleValue(before[i])) {
      assert after[i] == before[i];
    }
    assert IPMatchesRule(p, ip, IPRuleValue(after[|before|])) <==> TextNames(p, value, ip);
  }

  lemma GlobalsKeepWithNewName(p: Platform, s: Server, id: string, value: string)
    requires GlobalRulesResolve(p, s) && id !in s.ipRules
    ensures GlobalRulesResolve(p, s.(ipRules := s.ipRules[id := value]))
    ensures var t := s.(ipRules := s.ipRules[id := value]);
            && Resolved(IPResolver(p, t.ipRules, "global", 0), s.globalAllowIPs) == Resolved(IPResolver(p, s.ipRules, "global", 0), s.globalAllowIPs)
            && Resolved(IPResolver(p, t.ipRules, "global_deny", 0), s.globalDenyIPs) == Resolved(IPResolver(p, s.ipRules, "global_deny", 0), s.globalDenyIPs)
  {
    NewNameKeepsRules(p, s.ipRules, id, value, s.globalAllowIPs, "global", 0);
    NewNameKeepsRules(p, s.ipRules, id, value, s.globalDenyIPs, "global_deny", 0);
  }

  lemma ForwardsKeepWithNewName(p: Platform, s: Server, t: Server, id: string, value: string)
    requires ForwardsAccepted(p, s) && id !in s.ipRules
    requires t.tokens == s.tokens && t.ipRules == s.ipRules[id := value]
    ensures forall i | 0 <= i < |s.forwards| :: ForwardResolves(p, t, s.forwards[i]) && CheckedForward(p, t, s.forwards[i]) == CheckedForward(p, s, s.forwards[i])
  {
    forall i | 0 <= i < |s.forwards|
      ensures ForwardResolves(p, t, s.forwards[i]) && CheckedForward(p, t, s.forwards[i]) == CheckedForward(p, s, s.forwards[i])
    {
      NewNameKeepsForward(p, s, t, id, value, s.forwards[i]);
    }
  }

  lemma WithDeniedAccepted(p: Platform, s: Server, now: Instant, id: string, value: string)
    requires Accepted(p, s, now) && id !in s.ipRules
    requires IPRuleAccepted(p, id, value)
    ensures Accepted(p, WithDenied(s, id, value), now)
  {
    GlobalsKeepWithNewName(p, s, id, value);
    ForwardsKeepWithNewName(p, s, WithDenied(s, id, value), id, value);
    ListGrows(p, s.ipRules, id, value, s.globalDenyIPs, "global_deny", 0);
  }

  /** One more named deny rule denies exactly what was denied before and what its text names: an
      address or a whole network. */
  lemma NamedDenyRuleDenies(p: Platform, s: Server, now: Instant, id: string, value: string, ip: string)
    requires Accepted(p, s, now) && id !in s.ipRules
    requires IPRuleAccepted(p, id, value)
    ensures Accepted(p, WithDenied(s, id, value), now)
    ensures Denied(p, Checked(p, WithDenied(s, id, value)), ip) <==> Denied(p, Checked(p, s), ip) || TextNames(p, value, ip)
  {
    WithDeniedAccepted(p, s, now, id, value);
    GrownListMatches(p, s.ipRules, id, value, s.globalDenyIPs, "global_deny", 0, ip);
  }

  /** In particular a deny rule with a network denies the addresses of that network ... */
  lemma DeniesItsNetwork(p: Platform, s: Server, now: Instant, id: string, value: string, net: string -> bool, ip: string)
    requires Accepted(p, s, now) && id !in s.ipRules && ValidIdentifier(p, id)
    requires value != "" && p.parseCIDR(value) == Some(net)
    ensures Accepted(p, WithDenied(s, id, value), now)
    ensures Denied(p, Checked(p, WithDenied(s, id, value)), ip) <==> Denied(p, Checked(p, s), ip) || ip == value || net(ip)
  {
    NamedDenyRuleDenies(p, s, now, id, value, ip);
  }

  /** ... and one whose text only the address resolver accepts denies exactly the address written
      like it. */
  lemma DeniesItsOwnText(p: Platform, s: Server, now: Instant, id: string, value: string, ip: string)
    requires Accepted(p, s, now) && id !in s.ipRules
    requires IPRuleAccepted(p, id, value) && p.parseCIDR(value).None?
    ensures Accepted(p, WithDenied(s, id, value), now)
    ensures Denied(p, Checked(p, WithDenied(s, id, value)), ip) <==> Denied(p, Checked(p, s), ip) || (value != "" && ip == value)
  {
    NamedDenyRuleDenies(p, s, now, id, value, ip);
  }

  lemma WithAllowedAccepted(p: Platform, s: Server, now: Instant, id: string, value: string)
    requires Accepted(p, s, now) && id !in s.ipRules
    requires IPRuleAccepted(p, id, value)
    ensures Accepted(p, WithAllowed(s, id, value), now)
  {
    GlobalsKeepWithNewName(p, s, id, value);
    ForwardsKeepWithNewName(p, s, WithAllowed(s, id, value), id, value);
    ListGrows(p, s.ipRules, id, value, s.globalAllowIPs, "global", 0);
  }

  /** One more named global allow rule lets onto every forward exactly who was let before and what
      its text names. */
  lemma NamedAllowRuleAllows(p: Platform, s: Server, now: Instant, id: string, value: string, f: nat, ip: string)
    requires Accepted(p, s, now) && id !in s.ipRules && f < |s.forwards|
    requires IPRuleAccepted(p, id, value)
    ensures Accepted(p, WithAllowed(s, id, value), now)
    ensures var before, after := Checked(p, s), Checked(p, WithAllowed(s, id, value));
            StaticAllowed(p, after, after.forwards[f], ip) <==> StaticAllowed(p, before, before.forwards[f], ip) || TextNames(p, value, ip)
  {
    WithAllowedAccepted(p, s, now, id, value);
    ForwardsKeepWithNewName(p, s, WithAllowed(s, id, value), id, value);
    GrownListMatches(p, s.ipRules, id, value, s.globalAllowIPs, "global", 0, ip);
  }

  lemma WithAllowedOnAccepted(p: Platform, s: Server, now: Instant, f: nat, id: string, value: string)
    requires Accepted(p, s, now) && id !in s.ipRules && f < |s.forwards|
    requires IPRuleAccepted(p, id, value)
    ensures Accepted(p, WithAllowedOn(s, f, id, value), now)
  {
    var t := WithAllowedOn(s, f, id, value);
    GlobalsKeepWithNewName(p, s, id, value);
    ForwardsKeepWithNewName(p, s, t, id, value);
    ListGrows(p, s.ipRules, id, value, s.forwards[f].allowIPs, "forward", s.forwards[f].bindPort);
    forall i | 0 <= i < |t.forwards| ensures ForwardAccepted(p, t.forwards[i]) && ForwardResolves(p, t, t.forwards[i]) {
      assert ForwardAccepted(p, s.forwards[i]) && ForwardResolves(p, t, s.forwards[i]);
    }
  }

  /** One more named allow rule of a forward does the same for that forward, and for no other. */
  lemma NamedForwardRuleAllows(p: Platform, s: Server, now: Instant, f: nat, id: string, value: string, g: nat, ip: string)
    requires Accepted(p, s, now) && id !in s.ipRules && f < |s.forwards| && g < |s.forwards|
    requires IPRuleAccepted(p, id, value)
    ensures Accepted(p, WithAllowedOn(s, f, id, value), now)
    ensures var before, after := Checked(p, s), Checked(p, WithAllowedOn(s, f, id, value));
            StaticAllowed(p, after, after.forwards[g], ip) <==>
            StaticAllowed(p, before, before.forwards[g], ip) || (g == f && TextNames(p, value, ip))
  {
    WithAllowedOnAccepted(p, s, now, f, id, value);
    GlobalsKeepWithNewName(p, s, id, value);
    ForwardsKeepWithNewName(p, s, WithAllowedOn(s, f, id, value), id, value);
    GrownListMatches(p, s.ipRules, id, value, s.forwards[f].allowIPs, "forward", s.forwards[f].bindPort, ip);
  }

  /** Among the texts addresses are printed as, a deny rule that is no network denies nothing more
      exactly when its text is empty, is no such text (a host name, or an address in another
      notation), or was denied before. */
  lemma DenyRuleVoidIff(p: Platform, s: Server, now: Instant, id: string, value: string, canonical: string -> bool)
    requires Accepted(p, s, now) && id !in s.ipRules
    requires IPRuleAccepted(p, id, value) && p.parseCIDR(value).None?
    ensures Accepted(p, WithDenied(s, id, value), now)
    ensures (forall ip | canonical(ip) :: Denied(p, Checked(p, WithDenied(s, id, value)), ip) <==> Denied(p, Checked(p, s), ip))
            <==> value == "" || !canonical(value) || Denied(p, Checked(p, s), value)
  {
    WithDeniedAccepted(p, s, now, id, value);
    forall ip ensures Denied(p, Checked(p, WithDenied(s, id, value)), ip) <==> Denied(p, Checked(p, s), ip) || (value != "" && ip == value) {
      DeniesItsOwnText(p, s, now, id, value, ip);
    }
  }

  /** If the address resolver accepts empty text, as Go's does, any accepted configuration can
      gain a named rule with empty text: it stays accepted, a deny rule that refers to the name
      resolves to the empty value, and the same addresses are denied as before. */
  lemma EmptyNamedRuleResolves(p: Platform, s: Server, now: Instant, id: string, ip: string)
    requires p.resolvesIP("") && p.parseCIDR("").None?
    requires Accepted(p, s, now) && ValidIdentifier(p, id) && id !in s.ipRules
    ensures Accepted(p, WithDenied(s, id, ""), now)
    ensures var t := Checked(p, WithDenied(s, id, ""));
            && t.globalDenyIPs[|s.globalDenyIPs|].resolvedValue == ""
            && (Denied(p, t, ip) <==> Denied(p, Checked(p, s), ip))
  {
    DeniesItsOwnText(p, s, now, id, "", ip);
    ListGrows(p, s.ipRules, id, "", s.globalDenyIPs, "global_deny", 0);
  }

  // ----- a token rule of asterisks -----

  /** Only length keeps out a token that is nothing but asterisks, inline or named: the check for the
      text `*` never decides, since one character is too weak a secret anyway. */
  lemma AsterisksAcceptedIff(p: Platform, tokens: map<string, string>, id: string, stars: string, scope: string, port: Uint16, index: nat)
    requires forall i | 0 <= i < |stars| :: stars[i] == '*'
    requires p.lowerTrim(stars) == stars
    ensures ResolveTokenRule(p, tokens, AccessRule(stars, "", "", "", "", "", "", ""), scope, port, index).Some? <==> |stars| >= 24
    ensures TokenAccepted(p, id, stars) <==> ValidIdentifier(p, id) && |stars| >= 24
  {
    AsciiByteLen(stars);
    assert forall i | 0 <= i < |stars| :: stars[i..][0] == '*';
  }

  // ----- two forwards with one port -----

  lemma PortIrrelevantToResolving(p: Platform, s: Server, f: Forward, port: Uint16)
    requires ForwardResolves(p, s, f)
    ensures ForwardResolves(p, s, f.(bindPort := port))
  {
    forall i | 0 <= i < |f.allowTokens| ensures ResolveTokenRule(p, s.tokens, f.allowTokens[i], "forward", port, i + 1).Some? {
      assert TokenResolver(p, s.tokens, "forward", f.bindPort)(f.allowTokens[i], i + 1).Some?;
    }
    forall i | 0 <= i < |f.allowIPs| ensures ResolveIPRule(p, s.ipRules, f.allowIPs[i], "forward", port, i + 1).Some? {
      assert IPResolver(p, s.ipRules, "forward", f.bindPort)(f.allowIPs[i], i + 1).Some?;
    }
  }

  /** Ports need not differ: any forward that passes on its own can be added under the port of a
      forward that is already there. */
  lemma RepeatedPortAccepted(p: Platform, s: Server, now: Instant, i: nat, added: Forward)
    requires Accepted(p, s, now) && i < |s.forwards|
    requires ForwardAccepted(p, added) && ForwardResolves(p, s, added)
    ensures Accepted(p, s.(forwards := s.forwards + [added.(bindPort := s.forwards[i].bindPort)]), now)
  {
    var again := added.(bindPort := s.forwards[i].bindPort);
    var t := s.(forwards := s.forwards + [again]);
    PortIrrelevantToResolving(p, s, added, s.forwards[i].bindPort);
    assert ForwardAccepted(p, s.forwards[i]);
    forall j | 0 <= j < |t.forwards| ensures ForwardAccepted(p, t.forwards[j]) && ForwardResolves(p, t, t.forwards[j]) {
      assert ForwardAccepted(p, t.forwards[j]) && ForwardResolves(p, s, t.forwards[j]);
    }
  }

  /** Rule `i` of this kind, as written, is inline. */
  ghost predicate InlineAt(f: Forward, kind: string, i: int) {
    || (kind == "token" && 0 <= i < |f.allowTokens| && f.allowTokens[i].tokenRef == "")
    || (kind == "ip" && 0 <= i < |f.allowIPs| && f.allowIPs[i].ipRef == "")
  }

  /** Some inline rule of a checked forward has this id. */
  ghost predicate HasInlineID(f: Forward, id: string) {
    || (exists i | 0 <= i < |f.allowTokens| :: f.allowTokens[i].ruleType == "inline_token" && f.allowTokens[i].ruleID == id)
    || (exists i | 0 <= i < |f.allowIPs| :: f.allowIPs[i].ruleType == "inline_ip" && f.allowIPs[i].ruleID == id)
  }

  ghost predicate NamesInline(f: Forward, kind: string, i: int, id: string) {
    InlineAt(f, kind, i) && id == InlineRuleID("forward", f.bindPort, kind, i + 1)
  }

  lemma InlineTokenForm(p: Platform, s: Server, f: Forward, i: int, id: string)
    requires ForwardResolves(p, s, f) && 0 <= i < |f.allowTokens|
    ensures var r := CheckedForward(p, s, f).allowTokens[i];
            r.ruleType == "inline_token" && r.ruleID == id <==> NamesInline(f, "token", i, id)
  {
    assert TokenResolver(p, s.tokens, "forward", f.bindPort)(f.allowTokens[i], i + 1).Some?;
  }

  lemma InlineIPForm(p: Platform, s: Server, f: Forward, i: int, id: string)
    requires ForwardResolves(p, s, f) && 0 <= i < |f.allowIPs|
    ensures var r := CheckedForward(p, s, f).allowIPs[i];
            r.ruleType == "inline_ip" && r.ruleID == id <==> NamesInline(f, "ip", i, id)
  {
    assert IPResolver(p, s.ipRules, "forward", f.bindPort)(f.allowIPs[i], i + 1).Some?;
  }

  lemma InlineIDForm(p: Platform, s: Server, f: Forward, id: string)
    requires ForwardResolves(p, s, f)
    ensures HasInlineID(CheckedForward(p, s, f), id) <==> exists kind, i :: NamesInline(f, kind, i, id)
  {
    var checked := CheckedForward(p, s, f);
    assert |checked.allowTokens| == |f.allowTokens| && |checked.allowIPs| == |f.allowIPs|;
    forall i | 0 <= i < |f.allowTokens|
      ensures checked.allowTokens[i].ruleType == "inline_token" && checked.allowTokens[i].ruleID == id <==> NamesInline(f, "token", i, id)
    {
      InlineTokenForm(p, s, f, i, id);
    }
    forall i | 0 <= i < |f.allowIPs|
      ensures checked.allowIPs[i].ruleType == "inline_ip" && checked.allowIPs[i].ruleID == id <==> NamesInline(f, "ip", i, id)
    {
      InlineIPForm(p, s, f, i, id);
    }
  }

  lemma SameNameSamePlace(a: Forward, kindA: string, i: int, b: Forward, kindB: string, j: int, id: string)
    requires NamesInline(a, kindA, i, id) && NamesInline(b, kindB, j, id)
    ensures a.bindPort == b.bindPort && InlineAt(a, kindA, i) && InlineAt(b, kindA, i)
  {
    ConfigChecked.InlineRuleIDInjective("forward", a.bindPort, kindA, i + 1, "forward", b.bindPort, kindB, j + 1);
  }

  lemma SharedIDsMeet(p: Platform, s: Server, a: Forward, b: Forward, id: string)
    requires ForwardResolves(p, s, a) && ForwardResolves(p, s, b)
    requires HasInlineID(CheckedForward(p, s, a), id) && HasInlineID(CheckedForward(p, s, b), id)
    ensures a.bindPort == b.bindPort && exists kind, i :: InlineAt(a, kind, i) && InlineAt(b, kind, i)
  {
    InlineIDForm(p, s, a, id);
    InlineIDForm(p, s, b, id);
    var kindA, i :| NamesInline(a, kindA, i, id);
    var kindB, j :| NamesInline(b, kindB, j, id);
    SameNameSamePlace(a, kindA, i, b, kindB, j, id);
  }

  lemma SamePlaceSharesID(p: Platform, s: Server, a: Forward, b: Forward, kind: string, i: int)
    requires ForwardResolves(p, s, a) && ForwardResolves(p, s, b)
    requires a.bindPort == b.bindPort && InlineAt(a, kind, i) && InlineAt(b, kind, i)
    ensures var id := InlineRuleID("forward", a.bindPort, kind, i + 1);
            HasInlineID(CheckedForward(p, s, a), id) && HasInlineID(CheckedForward(p, s, b), id)
  {
    var id := InlineRuleID("forward", a.bindPort, kind, i + 1);
    assert NamesInline(a, kind, i, id) && NamesInline(b, kind, i, id);
    InlineIDForm(p, s, a, id);
    InlineIDForm(p, s, b, id);
  }

  /** Two checked forwards share an inline rule id exactly if they have the same port and inline
      rules of one kind at the same place. */
  lemma SharedInlineIDIff(p: Platform, s: Server, a: Forward, b: Forward)
    requires ForwardResolves(p, s, a) && ForwardResolves(p, s, b)
    ensures (exists id :: HasInlineID(CheckedForward(p, s, a), id) && HasInlineID(CheckedForward(p, s, b), id))
            <==> a.bindPort == b.bindPort && exists kind, i :: InlineAt(a, kind, i) && InlineAt(b, kind, i)
  {
    if id :| HasInlineID(CheckedForward(p, s, a), id) && HasInlineID(CheckedForward(p, s, b), id) {
      SharedIDsMeet(p, s, a, b, id);
    }
    if kind, i :| InlineAt(a, kind, i) && InlineAt(b, kind, i) && a.bindPort == b.bindPort {
      SamePlaceSharesID(p, s, a, b, kind, i);
    }
  }
}
