/** The connection limiter of one forward, and the life cycle of its connections as interleaved
    steps: admitted by the accept check, slot acquired or refused, handled, slot released. */
module Forwarding {
  import opened Basics

  /** A limit of zero or less means no limit. */
  datatype Limits = Limits(global: int, perIP: int)

  datatype Limiter = Limiter(global: int, byIP: map<string, int>)

  const EMPTY_LIMITER := Limiter(0, map[])

  function CountOf(l: Limiter, ip: string): int {
    if ip in l.byIP then l.byIP[ip] else 0
  }

  predicate HasSlot(limits: Limits, l: Limiter, ip: string) {
    && !(limits.global > 0 && l.global >= limits.global)
    && !(limits.perIP > 0 && CountOf(l, ip) >= limits.perIP)
  }

  function Acquired(limits: Limits, l: Limiter, ip: string): Limiter {
    if HasSlot(limits, l, ip) then Limiter(l.global + 1, l.byIP[ip := CountOf(l, ip) + 1]) else l
  }

  function Released(l: Limiter, ip: string): Limiter {
    Limiter(if l.global > 0 then l.global - 1 else l.global,
            if CountOf(l, ip) > 1 then l.byIP[ip := CountOf(l, ip) - 1] else l.byIP - {ip})
  }

  class ConnectionLimiter {
    var global: int
    var byIP: map<string, int>
    const limits: Limits

    function Value(): Limiter
      reads this
    {
      Limiter(global, byIP)
    }

    constructor (maxGlobal: Uint32, maxPerIP: Uint32)
      ensures Value() == EMPTY_LIMITER && limits == Limits(maxGlobal, maxPerIP)
    {
      global, byIP, limits := 0, map[], Limits(maxGlobal, maxPerIP);
    }

    method Acquire(ip: string) returns (ok: bool)
      modifies this
      ensures ok <==> HasSlot(limits, old(Value()), ip)
      ensures Value() == Acquired(limits, old(Value()), ip)
    {
      var count := if ip in byIP then byIP[ip] else 0;
      if limits.global > 0 && global >= limits.global {
        return false;
      }
      if limits.perIP > 0 && count >= limits.perIP {
        return false;
      }
      global := global + 1;
      byIP := byIP[ip := count + 1];
      return true;
    }

    method Release(ip: string)
      modifies this
      ensures Value() == Released(old(Value()), ip)
    {
      if global > 0 {
        global := global - 1;
      }
      var count := if ip in byIP then byIP[ip] else 0;
      if count > 1 {
        byIP := byIP[ip := count - 1];
      } else {
        byIP := byIP - {ip};
      }
    }
  }

  // ----- the limiter that a population of slot holders determines -----

  /** `holders` has one entry per held slot, namely its address. */
  ghost function LimiterFor(holders: multiset<string>): Limiter {
    Limiter(|holders|, map ip | ip in holders :: holders[ip])
  }

  lemma AcquireAddsHolder(limits: Limits, holders: multiset<string>, ip: string)
    ensures HasSlot(limits, LimiterFor(holders), ip) ==>
            Acquired(limits, LimiterFor(holders), ip) == LimiterFor(holders + multiset{ip})
    ensures !HasSlot(limits, LimiterFor(holders), ip) ==>
            Acquired(limits, LimiterFor(holders), ip) == LimiterFor(holders)
  {
    var more := holders + multiset{ip};
    assert forall x :: more[x] == holders[x] + if x == ip then 1 else 0;
    assert CountOf(LimiterFor(holders), ip) == holders[ip];
    assert LimiterFor(holders).byIP[ip := holders[ip] + 1] == LimiterFor(more).byIP;
  }

  /** Releasing a held slot takes neither guard branch of `release`: both counters drop by one. */
  lemma ReleaseRemovesHolder(holders: multiset<string>, ip: string)
    requires ip in holders
    ensures LimiterFor(holders).global > 0 && CountOf(LimiterFor(holders), ip) > 0
    ensures Released(LimiterFor(holders), ip) == LimiterFor(holders - multiset{ip})
  {
    var fewer := holders - multiset{ip};
    assert holders == fewer + multiset{ip};
    assert forall x :: fewer[x] == holders[x] - if x == ip then 1 else 0;
    assert CountOf(LimiterFor(holders), ip) == holders[ip];
    if holders[ip] > 1 {
      assert LimiterFor(holders).byIP[ip := holders[ip] - 1] == LimiterFor(fewer).byIP;
    } else {
      assert LimiterFor(holders).byIP - {ip} == LimiterFor(fewer).byIP;
    }
  }

  ghost function SumValues(m: map<string, int>): int {
    if m == map[] then 0 else var k :| k in m; m[k] + SumValues(m - {k})
  }

  /** The global counter is the sum of the per-address counters. */
  lemma {:induction false} GlobalIsSum(holders: multiset<string>)
    ensures SumValues(LimiterFor(holders).byIP) == LimiterFor(holders).global
    decreases |LimiterFor(holders).byIP|
  {
    var m := LimiterFor(holders).byIP;
    if m == map[] {
      assert forall x :: x !in holders by { assert forall x | x in holders :: x in m; }
      assert holders == multiset{};
    } else {
      var k :| k in m && SumValues(m) == m[k] + SumValues(m - {k});
      var rest := holders[k := 0];
      assert LimiterFor(rest).byIP == m - {k};
      assert (m - {k}).Keys == m.Keys - {k};
      GlobalIsSum(rest);
      assert |holders| == |rest| + holders[k];
    }
  }

  // ----- connections -----

  /** `Rejected` and `Finished` connections hold no slot any more; `Admitted` ones not yet. */
  datatype Phase = Admitted | Rejected | Handling | Finished

  /** A connection that passed the accept check at `checkedAt`, and its goroutine's progress. */
  datatype Conn = Conn(ip: string, checkedAt: Instant, phase: Phase)

  datatype Port = Port(limiter: Limiter, conns: seq<Conn>)

  const IDLE_PORT := Port(EMPTY_LIMITER, [])

  function Admit(s: Port, ip: string, now: Instant): Port {
    s.(conns := s.conns + [Conn(ip, now, Admitted)])
  }

  /** The goroutine of connection `c` takes its first step: acquire a slot or give up. */
  function AcquireStep(limits: Limits, s: Port, c: nat): Port {
    if c < |s.conns| && s.conns[c].phase == Admitted then
      var ok := HasSlot(limits, s.limiter, s.conns[c].ip);
      Port(Acquired(limits, s.limiter, s.conns[c].ip),
           s.conns[c := s.conns[c].(phase := if ok then Handling else Rejected)])
    else s
  }

  /** Handling ends, with or without an error, and the deferred release runs. */
  function ReleaseStep(s: Port, c: nat): Port {
    if c < |s.conns| && s.conns[c].phase == Handling then
      Port(Released(s.limiter, s.conns[c].ip), s.conns[c := s.conns[c].(phase := Finished)])
    else s
  }

  /** The steps that touch a forward's connections. */
  datatype PortOp = Admission(ip: string, now: Instant) | SlotRequest(c: nat) | SlotReturn(c: nat) | NoChange

  function After(limits: Limits, s: Port, op: PortOp): Port {
    match op
    case Admission(ip, now) => Admit(s, ip, now)
    case SlotRequest(c) => AcquireStep(limits, s, c)
    case SlotReturn(c) => ReleaseStep(s, c)
    case NoChange => s
  }

  ghost function SlotOf(c: Conn): multiset<string> {
    if c.phase == Handling then multiset{c.ip} else multiset{}
  }

  /** The addresses of the connections between acquire and release. */
  ghost function Holders(conns: seq<Conn>): multiset<string> {
    if conns == [] then multiset{} else Holders(conns[..|conns| - 1]) + SlotOf(conns[|conns| - 1])
  }

  lemma SwapLast(a: multiset<string>, b: multiset<string>, c: multiset<string>)
    ensures a + b + c == a + c + b
  {
  }

  lemma {:induction false} HoldersAfterUpdate(conns: seq<Conn>, c: nat, changed: Conn)
    requires c < |conns|
    ensures Holders(conns[c := changed]) + SlotOf(conns[c]) == Holders(conns) + SlotOf(changed)
  {
    var n := |conns| - 1;
    var front, last := Holders(conns[..n]), SlotOf(conns[n]);
    if c == n {
      assert conns[c := changed][..n] == conns[..n];
      SwapLast(front, SlotOf(changed), last);
    } else {
      assert conns[c := changed][..n] == conns[..n][c := changed];
      var front' := Holders(conns[..n][c := changed]);
      HoldersAfterUpdate(conns[..n], c, changed);
      SwapLast(front', last, SlotOf(conns[c]));
      SwapLast(front, last, SlotOf(changed));
    }
  }

  lemma HolderJoins(conns: seq<Conn>, c: nat, changed: Conn)
    requires c < |conns| && conns[c].phase != Handling
    ensures Holders(conns[c := changed]) == Holders(conns) + SlotOf(changed)
  {
    HoldersAfterUpdate(conns, c, changed);
    var after := Holders(conns[c := changed]);
    assert after + multiset{} == after;
  }

  lemma HolderLeaves(conns: seq<Conn>, c: nat, changed: Conn)
    requires c < |conns| && conns[c].phase == Handling && changed.phase != Handling
    ensures conns[c].ip in Holders(conns)
    ensures Holders(conns[c := changed]) == Holders(conns) - multiset{conns[c].ip}
  {
    HoldersAfterUpdate(conns, c, changed);
    var before, after := Holders(conns), Holders(conns[c := changed]);
    assert before + multiset{} == before;
    assert before == after + multiset{conns[c].ip};
    assert before - multiset{conns[c].ip} == after;
  }

  /** The counters say exactly which connections are between acquire and release. */
  ghost predicate Conserved(s: Port) {
    s.limiter == LimiterFor(Holders(s.conns))
  }

  ghost predicate UnderLimits(limits: Limits, s: Port) {
    && (limits.global > 0 ==> s.limiter.global <= limits.global)
    && (limits.perIP > 0 ==> forall ip :: CountOf(s.limiter, ip) <= limits.perIP)
  }

  ghost function HandlingFrom(conns: seq<Conn>, ip: string): set<int> {
    set c | 0 <= c < |conns| && conns[c].phase == Handling && conns[c].ip == ip
  }

  ghost function AllHandling(conns: seq<Conn>): set<int> {
    set c | 0 <= c < |conns| && conns[c].phase == Handling
  }

  lemma HandlingFromLast(conns: seq<Conn>, ip: string)
    requires conns != []
    ensures var n := |conns| - 1;
            HandlingFrom(conns, ip) == HandlingFrom(conns[..n], ip) + if conns[n].phase == Handling && conns[n].ip == ip then {n} else {}
  {
    var n := |conns| - 1;
    assert forall c | 0 <= c < n :: conns[..n][c] == conns[c];
  }

  lemma AllHandlingLast(conns: seq<Conn>)
    requires conns != []
    ensures var n := |conns| - 1;
            AllHandling(conns) == AllHandling(conns[..n]) + if conns[n].phase == Handling then {n} else {}
  {
    var n := |conns| - 1;
    assert forall c | 0 <= c < n :: conns[..n][c] == conns[c];
  }

  lemma {:induction false} HoldersFromAddress(conns: seq<Conn>, ip: string)
    ensures Holders(conns)[ip] == |HandlingFrom(conns, ip)|
  {
    if conns != [] {
      var n := |conns| - 1;
      HoldersFromAddress(conns[..n], ip);
      HandlingFromLast(conns, ip);
      assert SlotOf(conns[n])[ip] == if conns[n].phase == Handling && conns[n].ip == ip then 1 else 0;
    }
  }

  lemma {:induction false} HoldersInAll(conns: seq<Conn>)
    ensures |Holders(conns)| == |AllHandling(conns)|
  {
    if conns != [] {
      var n := |conns| - 1;
      HoldersInAll(conns[..n]);
      AllHandlingLast(conns);
      assert |SlotOf(conns[n])| == if conns[n].phase == Handling then 1 else 0;
    }
  }

  /** In plain numbers: `global` counts the handled connections and is the sum of the per-address
      counters, each of which counts its address's handled connections and is never zero. */
  lemma CountersCountConns(s: Port, ip: string)
    requires Conserved(s)
    ensures s.limiter.global == |AllHandling(s.conns)| == SumValues(s.limiter.byIP)
    ensures CountOf(s.limiter, ip) == |HandlingFrom(s.conns, ip)|
    ensures ip in s.limiter.byIP ==> s.limiter.byIP[ip] > 0
  {
    HoldersFromAddress(s.conns, ip);
    HoldersInAll(s.conns);
    GlobalIsSum(Holders(s.conns));
  }

  /** A slot is refused exactly when a positive limit's number of connections is being handled,
      from anywhere or from this address. */
  lemma RefusedOnlyAtLimit(limits: Limits, s: Port, ip: string)
    requires Conserved(s)
    ensures !HasSlot(limits, s.limiter, ip) <==>
            || (limits.global > 0 && |AllHandling(s.conns)| >= limits.global)
            || (limits.perIP > 0 && |HandlingFrom(s.conns, ip)| >= limits.perIP)
  {
    CountersCountConns(s, ip);
  }

  lemma AdmitConserves(limits: Limits, s: Port, ip: string, now: Instant)
    requires Conserved(s) && UnderLimits(limits, s)
    ensures Conserved(Admit(s, ip, now)) && UnderLimits(limits, Admit(s, ip, now))
  {
    assert Admit(s, ip, now).conns[..|s.conns|] == s.conns;
  }

  lemma AcquireConserves(limits: Limits, s: Port, c: nat)
    requires Conserved(s) && UnderLimits(limits, s)
    ensures Conserved(AcquireStep(limits, s, c)) && UnderLimits(limits, AcquireStep(limits, s, c))
  {
    if c < |s.conns| && s.conns[c].phase == Admitted {
      var ip := s.conns[c].ip;
      AcquireAddsHolder(limits, Holders(s.conns), ip);
      HolderJoins(s.conns, c, AcquireStep(limits, s, c).conns[c]);
      assert Holders(s.conns) + multiset{} == Holders(s.conns);
      AcquireKeepsLimits(limits, s, ip);
    }
  }

  lemma AcquireKeepsLimits(limits: Limits, s: Port, ip: string)
    requires UnderLimits(limits, s)
    ensures UnderLimits(limits, s.(limiter := Acquired(limits, s.limiter, ip)))
  {
    forall x | limits.perIP > 0 ensures CountOf(Acquired(limits, s.limiter, ip), x) <= limits.perIP {
      assert CountOf(s.limiter, x) <= limits.perIP;
    }
  }

  lemma ReleaseConserves(limits: Limits, s: Port, c: nat)
    requires Conserved(s) && UnderLimits(limits, s)
    ensures Conserved(ReleaseStep(s, c)) && UnderLimits(limits, ReleaseStep(s, c))
  {
    if c < |s.conns| && s.conns[c].phase == Handling {
      var ip := s.conns[c].ip;
      HolderLeaves(s.conns, c, s.conns[c].(phase := Finished));
      ReleaseRemovesHolder(Holders(s.conns), ip);
      assert forall x :: CountOf(Released(s.limiter, ip), x) <= CountOf(s.limiter, x);
    }
  }

  /** Every step keeps the counters equal to the live connections and within the limits. */
  lemma StepConserves(limits: Limits, s: Port, op: PortOp)
    requires Conserved(s) && UnderLimits(limits, s)
    ensures Conserved(After(limits, s, op)) && UnderLimits(limits, After(limits, s, op))
  {
    match op
    case Admission(ip, now) => AdmitConserves(limits, s, ip, now);
    case SlotRequest(c) => AcquireConserves(limits, s, c);
    case SlotReturn(c) => ReleaseConserves(limits, s, c);
    case NoChange =>
  }

  // ----- what each step does to the connections -----

  /** Connection `c` goes to `phase`, and every other one stays as it is. */
  ghost predicate OnlyPhaseChanges(before: seq<Conn>, after: seq<Conn>, c: nat, phase: Phase) {
    && |after| == |before| && c < |before|
    && after[c] == Conn(before[c].ip, before[c].checkedAt, phase)
    && forall d | 0 <= d < |before| && d != c :: after[d] == before[d]
  }

  /** A positive limit's number of connections is being handled, from anywhere or from this address. */
  ghost predicate Full(limits: Limits, conns: seq<Conn>, ip: string) {
    || (limits.global > 0 && |AllHandling(conns)| >= limits.global)
    || (limits.perIP > 0 && |HandlingFrom(conns, ip)| >= limits.perIP)
  }

  /** An admitted connection that asks for a slot is handled from then on, unless a limit is reached:
      then it is rejected. */
  lemma AcquireOutcome(limits: Limits, s: Port, c: nat)
    requires Conserved(s) && c < |s.conns| && s.conns[c].phase == Admitted
    ensures OnlyPhaseChanges(s.conns, AcquireStep(limits, s, c).conns, c, if Full(limits, s.conns, s.conns[c].ip) then Rejected else Handling)
  {
    RefusedOnlyAtLimit(limits, s, s.conns[c].ip);
  }

  lemma HandlingSets(before: seq<Conn>, after: seq<Conn>, c: nat, phase: Phase, ip: string)
    requires OnlyPhaseChanges(before, after, c, phase)
    ensures AllHandling(after) == if phase == Handling then AllHandling(before) + {c} else AllHandling(before) - {c}
    ensures HandlingFrom(after, ip) == if phase == Handling && before[c].ip == ip then HandlingFrom(before, ip) + {c} else HandlingFrom(before, ip) - {c}
  {
  }

  /** Handling a connection raises the numbers of handled connections by one, in total and for its
      address alone. */
  lemma HandlingRaisesCounts(before: seq<Conn>, after: seq<Conn>, c: nat, ip: string)
    requires OnlyPhaseChanges(before, after, c, Handling) && before[c].phase != Handling
    ensures |AllHandling(after)| == |AllHandling(before)| + 1
    ensures |HandlingFrom(after, ip)| == |HandlingFrom(before, ip)| + if before[c].ip == ip then 1 else 0
  {
    HandlingSets(before, after, c, Handling, ip);
    assert c !in AllHandling(before) && c !in HandlingFrom(before, ip);
  }

  /** When handling ends the connection is finished, and the numbers of handled connections fall by
      one, in total and for its address alone. */
  lemma ReleaseOutcome(s: Port, c: nat, ip: string)
    requires c < |s.conns| && s.conns[c].phase == Handling
    ensures var after := ReleaseStep(s, c).conns;
            && OnlyPhaseChanges(s.conns, after, c, Finished)
            && |AllHandling(after)| == |AllHandling(s.conns)| - 1
            && |HandlingFrom(after, ip)| == |HandlingFrom(s.conns, ip)| - if s.conns[c].ip == ip then 1 else 0
  {
    var after := ReleaseStep(s, c).conns;
    HandlingSets(s.conns, after, c, Finished, ip);
    assert c in AllHandling(s.conns);
    assert c in HandlingFrom(s.conns, ip) <==> s.conns[c].ip == ip;
  }

  lemma {:induction false} NoHolders(conns: seq<Conn>)
    requires forall c | 0 <= c < |conns| :: conns[c].phase != Handling
    ensures Holders(conns) == multiset{}
  {
    if conns != [] { NoHolders(conns[..|conns| - 1]); }
  }

  /** Once every connection is rejected or finished the limiter is back to its initial state. */
  lemma DrainedLimiterIsInitial(s: Port)
    requires Conserved(s)
    requires forall c | 0 <= c < |s.conns| :: s.conns[c].phase != Handling
    ensures s.limiter == EMPTY_LIMITER
  {
    NoHolders(s.conns);
  }
}
