/** Whole runs of one client list: lookups depend on past grants alone, and when expired entries
    are deleted cannot be observed. A run is any sequence of mutex-guarded calls. */
module ClientHistory {
  import opened Basics
  import opened AuthorizedClients

  ghost function Run(max: int, window: int, ops: seq<ListOp>): ClientList {
    if ops == [] then map[] else After(max, window, Run(max, window, ops[..|ops| - 1]), ops[|ops| - 1])
  }

  function ClockOf(op: ListOp): Option<Instant> {
    match op
    case Grant(_, now) => Some(now)
    case Sweep(now) => Some(now)
    case LookupIP(_, now, _) => Some(now)
    case LookupClient(_, now) => Some(now)
    case Untouched => None
  }

  /** Clock readings do not decrease along the run, and none is later than `t`. The readings are
      taken while the mutex is held. */
  ghost predicate ClocksUpTo(ops: seq<ListOp>, t: Instant) {
    && (forall i, j | 0 <= i < j < |ops| && ClockOf(ops[i]).Some? && ClockOf(ops[j]).Some? ::
          ClockOf(ops[i]).value <= ClockOf(ops[j]).value)
    && (forall i | 0 <= i < |ops| && ClockOf(ops[i]).Some? :: ClockOf(ops[i]).value <= t)
  }

  lemma {:induction false} SizeHoldsAlways(max: int, window: int, ops: seq<ListOp>)
    ensures WithinMax(max, Run(max, window, ops))
  {
    if ops != [] {
      SizeHoldsAlways(max, window, ops[..|ops| - 1]);
      MaxKept(max, window, Run(max, window, ops[..|ops| - 1]), ops[|ops| - 1]);
    }
  }

  // ----- exact history -----

  /** Call `i` granted the client a window. */
  ghost predicate Grants(max: int, window: int, ops: seq<ListOp>, i: int, key: ClientKey) {
    && 0 <= i < |ops| && ops[i].Grant? && ops[i].key == key
    && !Refused(max, Run(max, window, ops[..i]), key, ops[i].now)
  }

  /** Some past grant's window, counted from its own time, covers `t`. */
  ghost predicate WindowOpen(max: int, window: int, ops: seq<ListOp>, key: ClientKey, t: Instant) {
    exists i :: Grants(max, window, ops, i, key) && ops[i].now <= t < ops[i].now + window
  }

  lemma WindowOpenStep(max: int, window: int, ops: seq<ListOp>, key: ClientKey, t: Instant)
    requires ops != []
    ensures var n := |ops| - 1;
            WindowOpen(max, window, ops, key, t) <==>
            || WindowOpen(max, window, ops[..n], key, t)
            || (Grants(max, window, ops, n, key) && ops[n].now <= t < ops[n].now + window)
  {
    var n := |ops| - 1;
    forall i | 0 <= i < n ensures Grants(max, window, ops, i, key) <==> Grants(max, window, ops[..n], i, key) {
      assert ops[..n][..i] == ops[..i];
    }
  }

  /** One call: a grant sets the client's window, anything else leaves its liveness alone. */
  lemma LiveAfter(max: int, window: int, list: ClientList, op: ListOp, key: ClientKey, t: Instant)
    requires ClockOf(op).Some? ==> ClockOf(op).value <= t
    ensures key in Live(After(max, window, list, op), t) <==>
            if op.Grant? && op.key == key && !Refused(max, list, key, op.now) then t < op.now + window
            else key in Live(list, t)
  {
  }

  /** The stored window is the latest grant's, whatever was deleted meanwhile: a client is live
      at `t` exactly when some past grant's window covers `t`. */
  lemma {:induction false} LiveIffWindowOpen(max: int, window: int, ops: seq<ListOp>, key: ClientKey, t: Instant)
    requires ClocksUpTo(ops, t)
    ensures key in Live(Run(max, window, ops), t) <==> WindowOpen(max, window, ops, key, t)
  {
    if ops != [] {
      var n := |ops| - 1;
      WindowOpenStep(max, window, ops, key, t);
      LiveIffWindowOpen(max, window, ops[..n], key, t);
      LiveAfter(max, window, Run(max, window, ops[..n]), ops[n], key, t);
      if Grants(max, window, ops, n, key) && WindowOpen(max, window, ops[..n], key, t) {
        GrantDominates(max, window, ops, key, t);
      }
    }
  }

  /** A later grant's window reaches at least as far as any earlier one's. */
  lemma GrantDominates(max: int, window: int, ops: seq<ListOp>, key: ClientKey, t: Instant)
    requires ClocksUpTo(ops, t)
    requires Grants(max, window, ops, |ops| - 1, key)
    requires WindowOpen(max, window, ops[..|ops| - 1], key, t)
    ensures t < ops[|ops| - 1].now + window
  {
    var n := |ops| - 1;
    var i :| Grants(max, window, ops[..n], i, key) && ops[..n][i].now <= t < ops[..n][i].now + window;
    assert ClockOf(ops[i]).Some? && ClockOf(ops[n]).Some?;
  }

  /** The address lookup answers whether some client of that address has an open window. */
  lemma IPLiveIffWindowOpen(max: int, window: int, ops: seq<ListOp>, ip: string, t: Instant)
    requires ClocksUpTo(ops, t)
    ensures IPLive(Run(max, window, ops), ip, t) <==>
            exists clientID :: WindowOpen(max, window, ops, ClientKey(ip, clientID), t)
  {
    if k :| k in Live(Run(max, window, ops), t) && k.ip == ip {
      LiveIffWindowOpen(max, window, ops, k, t);
      assert WindowOpen(max, window, ops, ClientKey(ip, k.clientID), t);
    }
    if clientID :| WindowOpen(max, window, ops, ClientKey(ip, clientID), t) {
      LiveIffWindowOpen(max, window, ops, ClientKey(ip, clientID), t);
    }
  }

  /** In every run a stored window ends at most one window after now. */
  lemma {:induction false} StoredWindowBounded(max: int, window: int, ops: seq<ListOp>, key: ClientKey, t: Instant)
    requires ClocksUpTo(ops, t)
    requires key in Run(max, window, ops)
    ensures Run(max, window, ops)[key] <= t + window
  {
    var n := |ops| - 1;
    var before := Run(max, window, ops[..n]);
    assert ClockOf(ops[n]).Some? ==> ClockOf(ops[n]).value <= t;
    if key in before {
      StoredWindowBounded(max, window, ops[..n], key, t);
    }
    StepKeepsOrGrants(max, window, before, ops[n], key);
  }

  lemma StepKeepsOrGrants(max: int, window: int, list: ClientList, op: ListOp, key: ClientKey)
    requires key in After(max, window, list, op)
    ensures var stored := After(max, window, list, op)[key];
            || (key in list && stored == list[key])
            || (op.Grant? && stored == op.now + window)
  {
  }

  /** In every run, renewing a live client succeeds even at capacity, adds no entry, and never
      shortens the client's window. */
  lemma RenewalSucceeds(max: int, window: int, ops: seq<ListOp>, key: ClientKey, now: Instant)
    requires ClocksUpTo(ops, now)
    requires key in Live(Run(max, window, ops), now)
    ensures var before, after := Run(max, window, ops), Run(max, window, ops + [Grant(key, now)]);
            && Grants(max, window, ops + [Grant(key, now)], |ops|, key)
            && key in after && after[key] == now + window >= before[key]
            && after.Keys == Live(before, now).Keys
  {
    var before := Run(max, window, ops);
    assert (ops + [Grant(key, now)])[..|ops|] == ops;
    StoredWindowBounded(max, window, ops, key, now);
    assert (Live(before, now)[key := now + window]).Keys == Live(before, now).Keys;
  }

  // ----- when a grant is refused -----

  /** The clients with an open window, collected from the past grants. */
  ghost function OpenClients(max: int, window: int, ops: seq<ListOp>, t: Instant): set<ClientKey> {
    set i | 0 <= i < |ops| && ops[i].Grant? && Grants(max, window, ops, i, ops[i].key) && ops[i].now <= t < ops[i].now + window :: ops[i].key
  }

  lemma OpenClientsExact(max: int, window: int, ops: seq<ListOp>, t: Instant, key: ClientKey)
    ensures key in OpenClients(max, window, ops, t) <==> WindowOpen(max, window, ops, key, t)
  {
    if i :| Grants(max, window, ops, i, key) && ops[i].now <= t < ops[i].now + window {
      assert ops[i].key in OpenClients(max, window, ops, t);
    }
  }

  lemma LiveAreOpenClients(max: int, window: int, ops: seq<ListOp>, t: Instant)
    requires ClocksUpTo(ops, t)
    ensures Live(Run(max, window, ops), t).Keys == OpenClients(max, window, ops, t)
  {
    forall key ensures key in Live(Run(max, window, ops), t) <==> key in OpenClients(max, window, ops, t) {
      LiveIffWindowOpen(max, window, ops, key, t);
      OpenClientsExact(max, window, ops, t, key);
    }
  }

  /** From the history alone: a grant fails exactly when there is a positive maximum, the client has
      no open window, and at least that many other clients have one. Otherwise it puts the client on
      the list for one whole window. */
  lemma GrantFailsIff(max: int, window: int, ops: seq<ListOp>, key: ClientKey, now: Instant)
    requires ClocksUpTo(ops, now)
    ensures var after := Run(max, window, ops + [Grant(key, now)]);
            if max > 0 && !WindowOpen(max, window, ops, key, now) && |OpenClients(max, window, ops, now)| >= max
            then !Grants(max, window, ops + [Grant(key, now)], |ops|, key) && key !in after
            else Grants(max, window, ops + [Grant(key, now)], |ops|, key) && key in after && after[key] == now + window
  {
    var list := Run(max, window, ops);
    assert (ops + [Grant(key, now)])[..|ops|] == ops;
    LiveAreOpenClients(max, window, ops, now);
    LiveIffWindowOpen(max, window, ops, key, now);
    assert |Live(list, now)| == |OpenClients(max, window, ops, now)|;
  }

  // ----- lazy expiry is unobservable -----

  datatype Answer = Denied | Allowed(renewed: bool) | Found(found: bool)

  /** Sweeps answer nothing; the rest answer from the list. */
  ghost predicate Visible(op: ListOp) { !op.Sweep? && !op.Untouched? }

  ghost function AnswerOf(max: int, list: ClientList, op: ListOp): Answer
    requires Visible(op)
  {
    match op
    case Grant(key, now) => if Refused(max, list, key, now) then Denied else Allowed(key in Live(list, now))
    case LookupIP(ip, now, _) => Found(IPLive(list, ip, now))
    case LookupClient(key, now) => Found(key in Live(list, now))
  }

  /** The call as its caller sees it: without the order in which the map was ranged over. */
  ghost function Request(op: ListOp): ListOp {
    if op.LookupIP? then op.(dropped := {}) else op
  }

  ghost function Requests(ops: seq<ListOp>): seq<ListOp> {
    if ops == [] then []
    else Requests(ops[..|ops| - 1]) + if Visible(ops[|ops| - 1]) then [Request(ops[|ops| - 1])] else []
  }

  ghost function Answers(max: int, window: int, ops: seq<ListOp>): seq<Answer> {
    if ops == [] then []
    else
      var front := ops[..|ops| - 1];
      Answers(max, window, front)
      + if Visible(ops[|ops| - 1]) then [AnswerOf(max, Run(max, window, front), ops[|ops| - 1])] else []
  }

  /** A call that grants nothing changes no live entry. */
  lemma OnlyGrantsChangeLive(max: int, window: int, list: ClientList, op: ListOp, t: Instant)
    requires !op.Grant?
    requires ClockOf(op).Some? ==> ClockOf(op).value <= t
    ensures Live(After(max, window, list, op), t) == Live(list, t)
  {
  }

  lemma LiveLater(a: ClientList, b: ClientList, now: Instant, t: Instant)
    requires Live(a, now) == Live(b, now) && now <= t
    ensures Live(a, t) == Live(b, t)
  {
    forall k ensures k in Live(a, t) <==> k in Live(b, t) {
      assert k in Live(a, now) <==> k in Live(b, now);
    }
    forall k | k in Live(a, t) ensures a[k] == b[k] {
      assert Live(a, now)[k] == Live(b, now)[k];
    }
  }

  /** The same request on lists with the same live entries: same answer, same live entries. */
  lemma SameLiveSameAnswer(max: int, window: int, a: ClientList, b: ClientList, opA: ListOp, opB: ListOp, t: Instant)
    requires Visible(opA) && Visible(opB) && Request(opA) == Request(opB)
    requires Live(a, ClockOf(opA).value) == Live(b, ClockOf(opA).value)
    requires ClockOf(opA).value <= t
    ensures AnswerOf(max, a, opA) == AnswerOf(max, b, opB)
    ensures Live(After(max, window, a, opA), t) == Live(After(max, window, b, opB), t)
  {
    if !opA.Grant? {
      LiveLater(a, b, ClockOf(opA).value, t);
      OnlyGrantsChangeLive(max, window, a, opA, t);
      OnlyGrantsChangeLive(max, window, b, opB, t);
    }
  }

  /** Two servers that see the same requests at the same times, but sweep on schedules of their
      own and range over their maps in orders of their own, give the same answers forever,
      refusals at capacity and renewal flags included. */
  lemma {:induction false} LazyExpiryUnobservable(max: int, window: int, opsA: seq<ListOp>, opsB: seq<ListOp>, t: Instant)
    requires ClocksUpTo(opsA, t) && ClocksUpTo(opsB, t)
    requires Requests(opsA) == Requests(opsB)
    ensures Answers(max, window, opsA) == Answers(max, window, opsB)
    ensures Live(Run(max, window, opsA), t) == Live(Run(max, window, opsB), t)
    decreases |opsA| + |opsB|
  {
    var nA, nB := |opsA| - 1, |opsB| - 1;
    if opsA != [] && !Visible(opsA[nA]) {
      LazyExpiryUnobservable(max, window, opsA[..nA], opsB, t);
      OnlyGrantsChangeLive(max, window, Run(max, window, opsA[..nA]), opsA[nA], t);
    } else if opsB != [] && !Visible(opsB[nB]) {
      LazyExpiryUnobservable(max, window, opsA, opsB[..nB], t);
      OnlyGrantsChangeLive(max, window, Run(max, window, opsB[..nB]), opsB[nB], t);
    } else if opsA != [] && opsB != [] {
      var now := ClockOf(opsA[nA]).value;
      assert Requests(opsA)[..|Requests(opsA)| - 1] == Requests(opsA[..nA]);
      assert Requests(opsB)[..|Requests(opsB)| - 1] == Requests(opsB[..nB]);
      assert Requests(opsA)[|Requests(opsA)| - 1] == Request(opsA[nA]);
      assert Requests(opsB)[|Requests(opsB)| - 1] == Request(opsB[nB]);
      LazyExpiryUnobservable(max, window, opsA[..nA], opsB[..nB], now);
      SameLiveSameAnswer(max, window, Run(max, window, opsA[..nA]), Run(max, window, opsB[..nB]), opsA[nA], opsB[nB], t);
    }
  }
}
