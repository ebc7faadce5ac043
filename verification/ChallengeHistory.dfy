/** Whole runs of the pending-challenge store: where a key came from, that it is redeemed at most
    once per insertion, and how long it can stay. A run is any sequence of mutex-guarded calls. */
module ChallengeHistory {
  import opened Basics
  import opened AuthProto
  import opened PendingChallenges

  /** `Idle` stands for a step of the server that leaves the store alone. */
  datatype StoreOp =
    | Add(key: PendingKey, expiresAt: Instant)
    | Consume(key: PendingKey, now: Instant)
    | Cleanup(now: Instant)
    | Idle

  ghost function After(limits: Limits, items: Items, op: StoreOp): Items {
    match op
    case Add(key, expiresAt) => Added(limits, items, key, expiresAt)
    case Consume(key, _) => items - {key}
    case Cleanup(now) => Unexpired(items, now)
    case Idle => items
  }

  /** The store after a run that began empty. */
  ghost function Run(limits: Limits, ops: seq<StoreOp>): Items {
    if ops == [] then map[] else After(limits, Run(limits, ops[..|ops| - 1]), ops[|ops| - 1])
  }

  ghost predicate Inserts(limits: Limits, ops: seq<StoreOp>, i: int, key: PendingKey) {
    && 0 <= i < |ops| && ops[i].Add? && ops[i].key == key
    && HasRoom(limits, Run(limits, ops[..i]), key.ip)
    && key !in Run(limits, ops[..i])
  }

  ghost predicate Redeems(limits: Limits, ops: seq<StoreOp>, i: int, key: PendingKey) {
    && 0 <= i < |ops| && ops[i].Consume? && ops[i].key == key
    && Redeemable(Run(limits, ops[..i]), key, ops[i].now)
  }

  lemma RunStep(limits: Limits, ops: seq<StoreOp>, i: int)
    requires 0 <= i < |ops|
    ensures Run(limits, ops[..i + 1]) == After(limits, Run(limits, ops[..i]), ops[i])
  {
    assert ops[..i + 1][..i] == ops[..i];
  }

  /** Position of the latest insertion of a key, or -1. */
  ghost function LastInsert(limits: Limits, ops: seq<StoreOp>, key: PendingKey): (j: int)
    ensures -1 <= j < |ops|
  {
    if ops == [] then -1
    else if Inserts(limits, ops, |ops| - 1, key) then |ops| - 1
    else LastInsert(limits, ops[..|ops| - 1], key)
  }

  /** A stored key was inserted by an earlier `Add` and still carries that call's expiry,
      whatever was added since. */
  lemma {:induction false} StoredKeyHasOrigin(limits: Limits, ops: seq<StoreOp>, key: PendingKey)
    requires key in Run(limits, ops)
    ensures var j := LastInsert(limits, ops, key);
            Inserts(limits, ops, j, key) && Run(limits, ops)[key] == ops[j].expiresAt
  {
    var n := |ops| - 1;
    if !Inserts(limits, ops, n, key) {
      StoredKeyHasOrigin(limits, ops[..n], key);
      assert ops[..n][..LastInsert(limits, ops, key)] == ops[..LastInsert(limits, ops, key)];
    }
  }

  /** ... and it has been in the store ever since, with that same expiry. */
  lemma {:induction false} StoredSinceOrigin(limits: Limits, ops: seq<StoreOp>, key: PendingKey, i: int)
    requires key in Run(limits, ops)
    requires LastInsert(limits, ops, key) < i <= |ops|
    ensures key in Run(limits, ops[..i])
    ensures Run(limits, ops[..i])[key] == Run(limits, ops)[key]
  {
    var n := |ops| - 1;
    if i == |ops| {
      assert ops[..i] == ops;
    } else {
      assert !Inserts(limits, ops, n, key);
      StoredSinceOrigin(limits, ops[..n], key, i);
      assert ops[..n][..i] == ops[..i];
    }
  }

  /** The insertion a redemption at `i` stems from. */
  ghost function Origin(limits: Limits, ops: seq<StoreOp>, i: int, key: PendingKey): int
    requires 0 <= i <= |ops|
  {
    LastInsert(limits, ops[..i], key)
  }

  /** A redemption stems from an earlier insertion of the same key whose expiry it beat. */
  lemma RedemptionHasOrigin(limits: Limits, ops: seq<StoreOp>, i: int, key: PendingKey)
    requires Redeems(limits, ops, i, key)
    ensures var j := Origin(limits, ops, i, key);
            && 0 <= j < i
            && Inserts(limits, ops, j, key)
            && ops[i].now < ops[j].expiresAt
  {
    StoredKeyHasOrigin(limits, ops[..i], key);
    var j := Origin(limits, ops, i, key);
    assert ops[..i][..j] == ops[..j];
  }

  lemma ConsumedKeyGone(limits: Limits, ops: seq<StoreOp>, i: int)
    requires 0 <= i < |ops| && ops[i].Consume?
    ensures ops[i].key !in Run(limits, ops[..i + 1])
  {
    RunStep(limits, ops, i);
  }

  /** A key consumed at `i` and in the store at the end was inserted in between. */
  lemma ReinsertedSince(limits: Limits, ops: seq<StoreOp>, i: int, key: PendingKey)
    requires 0 <= i < |ops| && ops[i].Consume? && ops[i].key == key
    requires key in Run(limits, ops)
    ensures LastInsert(limits, ops, key) > i
  {
    ConsumedKeyGone(limits, ops, i);
    if LastInsert(limits, ops, key) <= i {
      StoredSinceOrigin(limits, ops, key, i + 1);
    }
  }

  /** Two redemptions, of the same key or of different ones, stem from different insertions. */
  lemma RedemptionsHaveDistinctOrigins(limits: Limits, ops: seq<StoreOp>, i1: int, k1: PendingKey, i2: int, k2: PendingKey)
    requires Redeems(limits, ops, i1, k1) && Redeems(limits, ops, i2, k2)
    requires i1 < i2
    ensures Origin(limits, ops, i1, k1) != Origin(limits, ops, i2, k2)
  {
    RedemptionHasOrigin(limits, ops, i1, k1);
    RedemptionHasOrigin(limits, ops, i2, k2);
    if k1 == k2 {
      assert ops[..i2][i1] == ops[i1];
      ReinsertedSince(limits, ops[..i2], i1, k1);
    }
  }

  // ----- conservation: every insertion is redeemed once, lost by expiry, or still there -----

  ghost function Insertions(limits: Limits, ops: seq<StoreOp>, key: PendingKey): nat {
    if ops == [] then 0
    else Insertions(limits, ops[..|ops| - 1], key) + if Inserts(limits, ops, |ops| - 1, key) then 1 else 0
  }

  ghost function Redemptions(limits: Limits, ops: seq<StoreOp>, key: PendingKey): nat {
    if ops == [] then 0
    else Redemptions(limits, ops[..|ops| - 1], key) + if Redeems(limits, ops, |ops| - 1, key) then 1 else 0
  }

  /** The key left the store without being redeemed. */
  ghost predicate Loses(limits: Limits, ops: seq<StoreOp>, i: int, key: PendingKey) {
    && 0 <= i < |ops|
    && key in Run(limits, ops[..i])
    && key !in Run(limits, ops[..i + 1])
    && !Redeems(limits, ops, i, key)
  }

  ghost function Losses(limits: Limits, ops: seq<StoreOp>, key: PendingKey): nat {
    if ops == [] then 0
    else Losses(limits, ops[..|ops| - 1], key) + if Loses(limits, ops, |ops| - 1, key) then 1 else 0
  }

  /** Over any run, successful consumptions of a key plus its expiries plus its presence
      equal its insertions; so it is never redeemed more often than inserted. */
  lemma {:induction false} TicketsConserved(limits: Limits, ops: seq<StoreOp>, key: PendingKey)
    ensures Insertions(limits, ops, key)
         == Redemptions(limits, ops, key) + Losses(limits, ops, key) + (if key in Run(limits, ops) then 1 else 0)
    ensures Redemptions(limits, ops, key) <= Insertions(limits, ops, key)
  {
    if ops != [] {
      TicketsConserved(limits, ops[..|ops| - 1], key);
      assert ops[..|ops|] == ops;
      RunStep(limits, ops, |ops| - 1);
    }
  }

  /** A key is lost only after its expiry, to a late consumption or a cleanup. */
  lemma LossesAreExpiries(limits: Limits, ops: seq<StoreOp>, i: int, key: PendingKey)
    requires Loses(limits, ops, i, key)
    ensures ops[i].Cleanup? || (ops[i].Consume? && ops[i].key == key)
    ensures Run(limits, ops[..i])[key] <= ops[i].now
  {
    RunStep(limits, ops, i);
  }

  // ----- invariants of every run -----

  lemma {:induction false} LimitsHoldAlways(limits: Limits, ops: seq<StoreOp>)
    ensures WithinLimits(limits, Run(limits, ops))
  {
    if ops == [] {
      assert forall ip :: KeysOf(Run(limits, ops), ip) == {};
    } else {
      var before, op := Run(limits, ops[..|ops| - 1]), ops[|ops| - 1];
      LimitsHoldAlways(limits, ops[..|ops| - 1]);
      match op
      case Add(key, expiresAt) =>
        OneMoreKey(limits, before, key, expiresAt);
      case Consume(key, _) => FewerKeys(limits, before, before - {key});
      case Cleanup(now) => FewerKeys(limits, before, Unexpired(before, now));
      case Idle =>
    }
  }

  lemma OneMoreKey(limits: Limits, items: Items, key: PendingKey, expiresAt: Instant)
    requires WithinLimits(limits, items)
    ensures WithinLimits(limits, Added(limits, items, key, expiresAt))
  {
    if HasRoom(limits, items, key.ip) && key !in items {
      CountAfterInsert(items, key, expiresAt);
      var after := items[key := expiresAt];
      forall ip | limits.perIP > 0 ensures CountOf(after, ip) <= limits.perIP {
        assert CountOf(items, ip) <= limits.perIP;
      }
    }
  }

  lemma FewerKeys(limits: Limits, items: Items, fewer: Items)
    requires WithinLimits(limits, items)
    requires fewer.Keys <= items.Keys
    ensures WithinLimits(limits, fewer)
  {
    assert |items.Keys| == |fewer.Keys| + |items.Keys - fewer.Keys| by {
      assert items.Keys == fewer.Keys + (items.Keys - fewer.Keys);
    }
    forall ip ensures CountOf(fewer, ip) <= CountOf(items, ip) {
      assert KeysOf(items, ip) == KeysOf(fewer, ip) + (KeysOf(items, ip) - KeysOf(fewer, ip));
    }
  }

  /** A cleanup no later than a consumption changes neither its outcome nor, apart from expired
      keys, what it leaves behind. */
  lemma CleanupInvisibleToConsume(items: Items, key: PendingKey, cleanedAt: Instant, now: Instant)
    requires cleanedAt <= now
    ensures Redeemable(Unexpired(items, cleanedAt), key, now) <==> Redeemable(items, key, now)
    ensures Unexpired(items, cleanedAt) - {key} == Unexpired(items - {key}, cleanedAt)
  {
  }

  // ----- when a request finds no room -----

  /** This call uses up the key, or cleans it away because it has expired by then. */
  ghost predicate Ends(op: StoreOp, key: PendingKey, expiresAt: Instant) {
    (op.Consume? && op.key == key) || (op.Cleanup? && expiresAt <= op.now)
  }

  /** Call `j` inserted the key, and no call since has used it up or cleaned it away. */
  ghost predicate OutstandingSince(limits: Limits, ops: seq<StoreOp>, j: int, key: PendingKey) {
    && Inserts(limits, ops, j, key)
    && forall i | j < i < |ops| :: !Ends(ops[i], key, ops[j].expiresAt)
  }

  ghost predicate Outstanding(limits: Limits, ops: seq<StoreOp>, key: PendingKey) {
    exists j :: OutstandingSince(limits, ops, j, key)
  }

  lemma OutstandingPrefix(limits: Limits, ops: seq<StoreOp>, j: int, key: PendingKey)
    requires ops != [] && j < |ops| - 1
    ensures var n := |ops| - 1;
            OutstandingSince(limits, ops, j, key) <==> OutstandingSince(limits, ops[..n], j, key) && !Ends(ops[n], key, ops[j].expiresAt)
  {
    var n := |ops| - 1;
    if 0 <= j {
      assert ops[..n][..j] == ops[..j];
      assert forall i | j < i < n :: ops[..n][i] == ops[i];
    }
  }

  lemma StoredNotEnded(limits: Limits, ops: seq<StoreOp>, key: PendingKey, i: int)
    requires key in Run(limits, ops) && LastInsert(limits, ops, key) < i < |ops|
    ensures !Ends(ops[i], key, Run(limits, ops)[key])
  {
    StoredSinceOrigin(limits, ops, key, i);
    StoredSinceOrigin(limits, ops, key, i + 1);
    RunStep(limits, ops, i);
  }

  lemma StoredMeansOutstanding(limits: Limits, ops: seq<StoreOp>, key: PendingKey)
    requires key in Run(limits, ops)
    ensures OutstandingSince(limits, ops, LastInsert(limits, ops, key), key)
  {
    StoredKeyHasOrigin(limits, ops, key);
    var j, expiresAt := LastInsert(limits, ops, key), Run(limits, ops)[key];
    forall i | j < i < |ops| ensures !Ends(ops[i], key, expiresAt) {
      StoredNotEnded(limits, ops, key, i);
    }
  }

  lemma {:induction false} OutstandingMeansStored(limits: Limits, ops: seq<StoreOp>, j: int, key: PendingKey)
    requires OutstandingSince(limits, ops, j, key)
    ensures key in Run(limits, ops) && Run(limits, ops)[key] == ops[j].expiresAt
  {
    var n := |ops| - 1;
    if j < n {
      OutstandingPrefix(limits, ops, j, key);
      OutstandingMeansStored(limits, ops[..n], j, key);
    }
  }

  /** The keys in the store are exactly the outstanding ones. */
  lemma StoredIffOutstanding(limits: Limits, ops: seq<StoreOp>, key: PendingKey)
    ensures key in Run(limits, ops) <==> Outstanding(limits, ops, key)
  {
    if key in Run(limits, ops) {
      StoredMeansOutstanding(limits, ops, key);
    }
    if j :| OutstandingSince(limits, ops, j, key) {
      OutstandingMeansStored(limits, ops, j, key);
    }
  }

  /** The outstanding keys, collected from the insertions. */
  ghost function OutstandingKeys(limits: Limits, ops: seq<StoreOp>): set<PendingKey> {
    set j | 0 <= j < |ops| && ops[j].Add? && OutstandingSince(limits, ops, j, ops[j].key) :: ops[j].key
  }

  lemma StoredAreOutstanding(limits: Limits, ops: seq<StoreOp>)
    ensures Run(limits, ops).Keys == OutstandingKeys(limits, ops)
  {
    forall key ensures key in Run(limits, ops) <==> key in OutstandingKeys(limits, ops) {
      StoredIffOutstanding(limits, ops, key);
      if j :| OutstandingSince(limits, ops, j, key) {
        assert ops[j].key in OutstandingKeys(limits, ops);
      }
    }
  }

  ghost function OutstandingFrom(limits: Limits, ops: seq<StoreOp>, ip: string): set<PendingKey> {
    set key | key in OutstandingKeys(limits, ops) && key.ip == ip
  }

  /** From the history alone: an insertion fails exactly when its key is still outstanding, or a
      positive limit's number of keys is, from anywhere or from its address. */
  lemma InsertionFailsIff(limits: Limits, ops: seq<StoreOp>, key: PendingKey, expiresAt: Instant)
    ensures !Inserts(limits, ops + [Add(key, expiresAt)], |ops|, key) <==>
            || Outstanding(limits, ops, key)
            || (limits.global > 0 && |OutstandingKeys(limits, ops)| >= limits.global)
            || (limits.perIP > 0 && |OutstandingFrom(limits, ops, key.ip)| >= limits.perIP)
  {
    assert (ops + [Add(key, expiresAt)])[..|ops|] == ops;
    StoredIffOutstanding(limits, ops, key);
    RoomIff(limits, ops, key.ip);
  }

  /** ... and there is room exactly when no positive limit is reached. */
  lemma RoomIff(limits: Limits, ops: seq<StoreOp>, ip: string)
    ensures HasRoom(limits, Run(limits, ops), ip) <==>
            && !(limits.global > 0 && |OutstandingKeys(limits, ops)| >= limits.global)
            && !(limits.perIP > 0 && |OutstandingFrom(limits, ops, ip)| >= limits.perIP)
  {
    StoredAreOutstanding(limits, ops);
    assert |Run(limits, ops)| == |Run(limits, ops).Keys|;
    assert KeysOf(Run(limits, ops), ip) == OutstandingFrom(limits, ops, ip);
  }

  // ----- staleness over timed runs -----

  const CLEANUP_PERIOD: int := 60 * SECOND

  /** The clock reading behind an operation; an insertion's expiry lies one lifetime after it. */
  ghost function ClockOf(op: StoreOp): Option<Instant> {
    match op
    case Add(_, expiresAt) => Some(expiresAt - CHALLENGE_TTL)
    case Consume(_, now) => Some(now)
    case Cleanup(now) => Some(now)
    case Idle => None
  }

  /** The callers read the clock before they lock the store, so a reading may be older than that of
      an operation that got the lock earlier, by at most `lag`. No reading is later than `t`. */
  ghost predicate ReadingsLag(ops: seq<StoreOp>, lag: int, t: Instant) {
    && (forall i, j | 0 <= i < j < |ops| && ClockOf(ops[i]).Some? && ClockOf(ops[j]).Some? ::
          ClockOf(ops[i]).value <= ClockOf(ops[j]).value + lag)
    && (forall i | 0 <= i < |ops| && ClockOf(ops[i]).Some? :: ClockOf(ops[i]).value <= t)
  }

  ghost predicate InsertedAfter(limits: Limits, ops: seq<StoreOp>, key: PendingKey, from: Instant) {
    exists j :: Inserts(limits, ops, j, key) && from < ops[j].expiresAt - CHALLENGE_TTL
  }

  lemma StoredMeansInserted(limits: Limits, ops: seq<StoreOp>, key: PendingKey, from: Instant)
    requires key in Run(limits, ops) && from < Run(limits, ops)[key] - CHALLENGE_TTL
    ensures InsertedAfter(limits, ops, key, from)
  {
    StoredKeyHasOrigin(limits, ops, key);
  }

  /** A key that was already stored at a cleanup, and still is, expires after it. */
  lemma SurvivesCleanup(limits: Limits, ops: seq<StoreOp>, c: int, key: PendingKey)
    requires 0 <= c < |ops| && ops[c].Cleanup?
    requires key in Run(limits, ops) && LastInsert(limits, ops, key) < c
    ensures Run(limits, ops)[key] > ops[c].now
  {
    StoredSinceOrigin(limits, ops, key, c + 1);
    RunStep(limits, ops, c);
  }

  lemma InsertedAfterCleanup(ops: seq<StoreOp>, lag: int, t: Instant, c: int, j: int)
    requires lag < CHALLENGE_TTL && ReadingsLag(ops, lag, t)
    requires 0 <= c < j < |ops| && ops[c].Cleanup? && ops[j].Add?
    ensures ops[j].expiresAt > ops[c].now
  {
    assert ClockOf(ops[c]).value <= ClockOf(ops[j]).value + lag;
  }

  /** Whether it was inserted before or after a cleanup, a stored key expires after it. */
  lemma ExpiresAfterCleanup(limits: Limits, ops: seq<StoreOp>, lag: int, t: Instant, c: int, key: PendingKey)
    requires 0 <= lag < CHALLENGE_TTL && ReadingsLag(ops, lag, t)
    requires 0 <= c < |ops| && ops[c].Cleanup?
    requires key in Run(limits, ops)
    ensures Run(limits, ops)[key] > ops[c].now
  {
    StoredKeyHasOrigin(limits, ops, key);
    var j := LastInsert(limits, ops, key);
    if j < c {
      SurvivesCleanup(limits, ops, c, key);
    } else {
      InsertedAfterCleanup(ops, lag, t, c, j);
    }
  }

  /** If some cleanup's reading is at most one period old, every stored key was inserted in the
      last 90 seconds, even when readings lag behind the lock by anything less than a lifetime. */
  lemma NoKeyOutlives90Seconds(limits: Limits, ops: seq<StoreOp>, lag: int, t: Instant, c: int, key: PendingKey)
    requires 0 <= lag < CHALLENGE_TTL && ReadingsLag(ops, lag, t)
    requires 0 <= c < |ops| && ops[c].Cleanup? && t - ops[c].now <= CLEANUP_PERIOD
    requires key in Run(limits, ops)
    ensures InsertedAfter(limits, ops, key, t - (CHALLENGE_TTL + CLEANUP_PERIOD))
  {
    ExpiresAfterCleanup(limits, ops, lag, t, c, key);
    StoredMeansInserted(limits, ops, key, t - (CHALLENGE_TTL + CLEANUP_PERIOD));
  }

  /** Right after a cleanup only keys of the last 30 seconds before its reading remain, in whatever
      order readings were taken. */
  lemma FreshAfterCleanup(limits: Limits, ops: seq<StoreOp>, key: PendingKey)
    requires ops != [] && ops[|ops| - 1].Cleanup?
    requires key in Run(limits, ops)
    ensures InsertedAfter(limits, ops, key, ops[|ops| - 1].now - CHALLENGE_TTL)
  {
    assert key in Unexpired(Run(limits, ops[..|ops| - 1]), ops[|ops| - 1].now);
    StoredMeansInserted(limits, ops, key, ops[|ops| - 1].now - CHALLENGE_TTL);
  }

  /** Capacity is always released: a cleanup at least one lifetime after the last insertion
      empties the store, so every address has room again under any limits. */
  lemma CapacityIsReleased(limits: Limits, ops: seq<StoreOp>, ip: string)
    requires ops != [] && ops[|ops| - 1].Cleanup?
    requires forall j, key | Inserts(limits, ops, j, key) :: ops[j].expiresAt - CHALLENGE_TTL <= ops[|ops| - 1].now - CHALLENGE_TTL
    ensures Run(limits, ops) == map[]
    ensures HasRoom(limits, Run(limits, ops), ip)
  {
    forall key | key in Run(limits, ops) ensures false {
      FreshAfterCleanup(limits, ops, key);
    }
    assert Run(limits, ops) == map[];
    assert KeysOf(map[], ip) == {};
  }
}
