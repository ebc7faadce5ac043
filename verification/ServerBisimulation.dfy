/** Two servers that get the same packets, connections and clock readings, but refresh their client
    lists on schedules of their own and range over them in orders of their own, cannot be told
    apart from outside. */
module ServerBisimulation {
  import opened Basics
  import opened AuthProto
  import opened AuthServer
  import opened ForwardSafety
  import AC = AuthorizedClients
  import History = ClientHistory
  import Fwd = Forwarding

  /** Everything but the refreshes, without the orders in which maps were ranged over. */
  ghost function Input(e: Event): Event {
    if e.Accept? then e.(dropped := {}) else e
  }

  ghost function Inputs(es: seq<Event>): seq<Event> {
    if es == [] then []
    else Inputs(es[..|es| - 1]) + if es[|es| - 1].Refresh? then [] else [Input(es[|es| - 1])]
  }

  /** What the server sends back, input by input. */
  ghost function Replies(setup: ReadySetup, es: seq<Event>): seq<Option<Packet>> {
    if es == [] then []
    else
      var n := |es| - 1;
      Replies(setup, es[..n]) + if es[n].Refresh? then [] else [Reply(setup, Run(setup, es[..n]), es[n])]
  }

  ghost predicate SameLive(a: seq<AC.ClientList>, b: seq<AC.ClientList>, t: Instant) {
    |a| == |b| && forall f | 0 <= f < |a| :: AC.Live(a[f], t) == AC.Live(b[f], t)
  }

  /** The two states agree on everything but entries that have expired by `t`. */
  ghost predicate SameView(a: State, b: State, t: Instant) {
    a.items == b.items && a.handler == b.handler && a.ports == b.ports && SameLive(a.lists, b.lists, t)
  }

  lemma RefreshKeepsView(setup: ReadySetup, s: State, e: Event, t: Instant)
    requires e.Refresh? && e.now <= t
    ensures SameView(Step(setup, s, e), s, t)
  {
    var s' := Step(setup, s, e);
    forall f | 0 <= f < |s.lists| ensures AC.Live(s'.lists[f], t) == AC.Live(s.lists[f], t) {
      History.OnlyGrantsChangeLive(setup.maxClients, WindowOf(setup, f), s.lists[f], ListOpOf(setup, s.handler, f, e), t);
    }
    assert s'.ports == s.ports;
  }

  /** One list under the same input: the same live entries afterwards. */
  lemma ListKeepsView(setup: ReadySetup, handler: Handler, f: int, a: AC.ClientList, b: AC.ClientList, eA: Event, eB: Event, now: Instant, t: Instant)
    requires !eA.Refresh? && Input(eA) == Input(eB)
    requires ListClock(eA).Some? ==> ListClock(eA).value == now
    requires AC.Live(a, now) == AC.Live(b, now) && now <= t
    ensures AC.Live(AC.After(setup.maxClients, WindowOf(setup, f), a, ListOpOf(setup, handler, f, eA)), t)
         == AC.Live(AC.After(setup.maxClients, WindowOf(setup, f), b, ListOpOf(setup, handler, f, eB)), t)
  {
    var opA, opB := ListOpOf(setup, handler, f, eA), ListOpOf(setup, handler, f, eB);
    if opA.Untouched? {
      History.LiveLater(a, b, now, t);
    } else {
      History.SameLiveSameAnswer(setup.maxClients, WindowOf(setup, f), a, b, opA, opB, t);
    }
  }

  /** One forward under the same input: the same connections and counters afterwards. */
  lemma PortKeepsView(setup: ReadySetup, f: int, a: AC.ClientList, b: AC.ClientList, port: Fwd.Port, eA: Event, eB: Event, now: Instant)
    requires Input(eA) == Input(eB)
    requires ListClock(eA).Some? ==> ListClock(eA).value == now
    requires AC.Live(a, now) == AC.Live(b, now)
    ensures PortAfter(setup, a, port, f, eA) == PortAfter(setup, b, port, f, eB)
  {
  }

  /** The bisimulation step: the same input to states with the same view gives the same reply and
      states with the same view. */
  lemma InputKeepsView(setup: ReadySetup, a: State, b: State, eA: Event, eB: Event, now: Instant, t: Instant)
    requires !eA.Refresh? && Input(eA) == Input(eB)
    requires ListClock(eA).Some? ==> ListClock(eA).value == now
    requires SameView(a, b, now) && now <= t
    ensures Reply(setup, a, eA) == Reply(setup, b, eB)
    ensures SameView(Step(setup, a, eA), Step(setup, b, eB), t)
  {
    var a', b' := Step(setup, a, eA), Step(setup, b, eB);
    forall f | 0 <= f < |a.lists| ensures AC.Live(a'.lists[f], t) == AC.Live(b'.lists[f], t) {
      ListKeepsView(setup, a.handler, f, a.lists[f], b.lists[f], eA, eB, now, t);
    }
    forall f | 0 <= f < |a.ports| ensures a'.ports[f] == b'.ports[f] {
      PortKeepsView(setup, f, if f < |a.lists| then a.lists[f] else map[], if f < |b.lists| then b.lists[f] else map[], a.ports[f], eA, eB, now);
    }
  }

  lemma InputsLast(es: seq<Event>)
    requires es != [] && !es[|es| - 1].Refresh?
    ensures Inputs(es) != []
    ensures Inputs(es)[..|Inputs(es)| - 1] == Inputs(es[..|es| - 1])
    ensures Inputs(es)[|Inputs(es)| - 1] == Input(es[|es| - 1])
  {
  }

  lemma LastInputKeepsView(setup: ReadySetup, esA: seq<Event>, esB: seq<Event>, now: Instant, t: Instant)
    requires esA != [] && esB != []
    requires var nA, nB := |esA| - 1, |esB| - 1;
             && !esA[nA].Refresh? && Input(esA[nA]) == Input(esB[nB])
             && (ListClock(esA[nA]).Some? ==> ListClock(esA[nA]).value == now) && now <= t
             && SameView(Run(setup, esA[..nA]), Run(setup, esB[..nB]), now)
             && Replies(setup, esA[..nA]) == Replies(setup, esB[..nB])
    ensures SameView(Run(setup, esA), Run(setup, esB), t)
    ensures Replies(setup, esA) == Replies(setup, esB)
  {
    var nA, nB := |esA| - 1, |esB| - 1;
    InputKeepsView(setup, Run(setup, esA[..nA]), Run(setup, esB[..nB]), esA[nA], esB[nB], now, t);
  }

  lemma LastRefreshKeepsView(setup: ReadySetup, es: seq<Event>, t: Instant)
    requires es != [] && es[|es| - 1].Refresh? && es[|es| - 1].now <= t
    ensures SameView(Run(setup, es), Run(setup, es[..|es| - 1]), t)
    ensures Replies(setup, es) == Replies(setup, es[..|es| - 1]) && Inputs(es) == Inputs(es[..|es| - 1])
  {
    RefreshKeepsView(setup, Run(setup, es[..|es| - 1]), es[|es| - 1], t);
  }

  /** The reading of the last event, or `t`, bounds those before it. */
  ghost function LastClock(es: seq<Event>, t: Instant): Instant
    requires es != []
  {
    if ListClock(es[|es| - 1]).Some? then ListClock(es[|es| - 1]).value else t
  }

  lemma ClocksBefore(es: seq<Event>, t: Instant)
    requires es != [] && ClocksUpTo(es, t)
    ensures LastClock(es, t) <= t && ClocksUpTo(es[..|es| - 1], LastClock(es, t)) && ClocksUpTo(es[..|es| - 1], t)
  {
  }

  lemma SameClock(a: Event, b: Event)
    requires Input(a) == Input(b)
    ensures ListClock(a) == ListClock(b)
  {
  }

  /** Refreshes cannot be observed: after the same inputs the pending challenges, the handler, every
      connection and every counter are the same, all replies were the same, and the lists differ
      in expired entries only. */
  lemma {:induction false} RefreshUnobservable(setup: ReadySetup, esA: seq<Event>, esB: seq<Event>, t: Instant)
    requires ClocksUpTo(esA, t) && ClocksUpTo(esB, t)
    requires Inputs(esA) == Inputs(esB)
    ensures SameView(Run(setup, esA), Run(setup, esB), t)
    ensures Replies(setup, esA) == Replies(setup, esB)
    decreases |esA| + |esB|
  {
    var nA, nB := |esA| - 1, |esB| - 1;
    if esA != [] && esA[nA].Refresh? {
      ClocksBefore(esA, t);
      LastRefreshKeepsView(setup, esA, t);
      RefreshUnobservable(setup, esA[..nA], esB, t);
    } else if esB != [] && esB[nB].Refresh? {
      ClocksBefore(esB, t);
      LastRefreshKeepsView(setup, esB, t);
      RefreshUnobservable(setup, esA, esB[..nB], t);
    } else if esA != [] {
      InputsLast(esA);
      assert esB != [];
      InputsLast(esB);
      SameClock(esA[nA], esB[nB]);
      ClocksBefore(esA, t);
      ClocksBefore(esB, t);
      RefreshUnobservable(setup, esA[..nA], esB[..nB], LastClock(esA, t));
      LastInputKeepsView(setup, esA, esB, LastClock(esA, t), t);
    }
  }
}
