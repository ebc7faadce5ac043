/** The server's store of pending challenges: fully bound keys with expiry times, and a derived
    count per source IP. */
module PendingChallenges {
  import opened Basics

  datatype PendingKey = PendingKey(
    ip: string, keyID: string, serverID: string, clientID: string, port: Uint16,
    clientNonce: string, serverNonce: string)

  /** Pending challenges with their expiry. */
  type Items = map<PendingKey, Instant>

  /** A limit of zero or less means no limit. */
  datatype Limits = Limits(global: int, perIP: int)

  // ----- what the operations mean -----

  ghost function KeysOf(items: Items, ip: string): set<PendingKey> {
    set k | k in items && k.ip == ip
  }

  ghost function CountOf(items: Items, ip: string): nat { |KeysOf(items, ip)| }

  /** The per-IP index agrees with the item map: each address that holds keys has exactly
      their number, and no other address has an entry. */
  ghost predicate IsIndexOf(index: map<string, int>, items: Items) {
    forall ip ::
      && (ip in index <==> CountOf(items, ip) > 0)
      && (ip in index ==> index[ip] == CountOf(items, ip))
  }

  ghost predicate HasRoom(limits: Limits, items: Items, ip: string) {
    && (limits.global > 0 ==> |items| < limits.global)
    && (limits.perIP > 0 ==> CountOf(items, ip) < limits.perIP)
  }

  ghost predicate WithinLimits(limits: Limits, items: Items) {
    && (limits.global > 0 ==> |items| <= limits.global)
    && (limits.perIP > 0 ==> forall ip :: CountOf(items, ip) <= limits.perIP)
  }

  ghost function Added(limits: Limits, items: Items, key: PendingKey, expiresAt: Instant): Items {
    if HasRoom(limits, items, key.ip) && key !in items then items[key := expiresAt] else items
  }

  ghost predicate Redeemable(items: Items, key: PendingKey, now: Instant) {
    key in items && items[key] > now
  }

  ghost function Unexpired(items: Items, now: Instant): Items {
    map k | k in items && items[k] > now :: items[k]
  }

  // ----- the index under insertion and removal -----

  lemma CountAfterInsert(items: Items, key: PendingKey, expiresAt: Instant)
    requires key !in items
    ensures forall ip :: CountOf(items[key := expiresAt], ip) == CountOf(items, ip) + (if ip == key.ip then 1 else 0)
  {
    var after := items[key := expiresAt];
    forall ip
      ensures CountOf(after, ip) == CountOf(items, ip) + (if ip == key.ip then 1 else 0)
    {
      assert KeysOf(after, ip) == KeysOf(items, ip) + (if ip == key.ip then {key} else {});
    }
  }

  lemma CountAfterRemove(items: Items, key: PendingKey)
    requires key in items
    ensures forall ip :: CountOf(items - {key}, ip) == CountOf(items, ip) - (if ip == key.ip then 1 else 0)
    ensures |items - {key}| == |items| - 1
  {
    var after := items - {key};
    forall ip
      ensures CountOf(after, ip) == CountOf(items, ip) - (if ip == key.ip then 1 else 0)
    {
      assert KeysOf(items, ip) == KeysOf(after, ip) + (if ip == key.ip then {key} else {});
    }
    assert after.Keys == items.Keys - {key};
  }

  ghost function ExpiredKeys(items: Items, now: Instant): set<PendingKey> {
    set k | k in items && items[k] <= now
  }

  lemma ExpiredCount(items: Items, now: Instant)
    ensures |items| - |Unexpired(items, now)| == |ExpiredKeys(items, now)|
  {
    assert items.Keys == Unexpired(items, now).Keys + ExpiredKeys(items, now);
  }

  // ----- the store -----

  class PendingChallengeStore {
    var items: Items
    var countByIP: map<string, int>
    const limits: Limits

    ghost predicate Valid()
      reads this
    {
      IsIndexOf(countByIP, items) && WithinLimits(limits, items)
    }

    constructor (maxGlobal: int, maxPerIP: int)
      ensures Valid() && items == map[] && limits == Limits(maxGlobal, maxPerIP)
    {
      items := map[];
      countByIP := map[];
      limits := Limits(maxGlobal, maxPerIP);
      new;
      assert forall ip :: KeysOf(items, ip) == {};
    }

    method Add(key: PendingKey, expiresAt: Instant) returns (accepted: bool)
      requires Valid()
      modifies this
      ensures Valid()
      ensures accepted <==> HasRoom(limits, old(items), key.ip)
      ensures items == Added(limits, old(items), key, expiresAt)
    {
      if limits.global > 0 && |items| >= limits.global {
        return false;
      }
      var count := if key.ip in countByIP then countByIP[key.ip] else 0;
      if limits.perIP > 0 && count >= limits.perIP {
        return false;
      }
      if key in items {
        return true;
      }
      CountAfterInsert(items, key, expiresAt);
      items := items[key := expiresAt];
      countByIP := countByIP[key.ip := count + 1];
      return true;
    }

    /** Removes an item and keeps the index: the body `consume` and `cleanup` share. */
    method Remove(key: PendingKey)
      requires Valid() && key in items
      modifies this
      ensures Valid()
      ensures items == old(items) - {key}
    {
      CountAfterRemove(items, key);
      items := items - {key};
      var count := (if key.ip in countByIP then countByIP[key.ip] else 0) - 1;
      countByIP := countByIP[key.ip := count];
      if count <= 0 {
        countByIP := countByIP - {key.ip};
      }
    }

    /** A key is consumed at most once, whether or not it was still in time. */
    method Consume(key: PendingKey, now: Instant) returns (redeemed: bool)
      requires Valid()
      modifies this
      ensures Valid()
      ensures redeemed <==> Redeemable(old(items), key, now)
      ensures items == old(items) - {key}
    {
      if key !in items {
        return false;
      }
      var expiresAt := items[key];
      Remove(key);
      return expiresAt > now;
    }

    /** Ranges over the map in any order while deleting from it. */
    method Cleanup(now: Instant) returns (deleted: nat)
      requires Valid()
      modifies this
      ensures Valid()
      ensures items == Unexpired(old(items), now)
      ensures deleted == |ExpiredKeys(old(items), now)|
    {
      deleted := 0;
      ghost var before := items;
      var pending := items.Keys;
      while pending != {}
        invariant Valid()
        invariant pending <= items.Keys <= before.Keys
        invariant forall k | k in items :: items[k] == before[k]
        invariant forall k | k in before && k !in pending :: k in items <==> before[k] > now
        invariant deleted == |before| - |items|
        decreases |pending|
      {
        var key :| key in pending;
        pending := pending - {key};
        if items[key] > now {
          continue;
        }
        CountAfterRemove(items, key);
        Remove(key);
        deleted := deleted + 1;
      }
      ExpiredCount(before, now);
      assert items == Unexpired(before, now);
    }
  }
}
