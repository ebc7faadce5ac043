/** The lists of authorized clients, one per forward: granting, looking up, and the code paths
    that delete expired entries on the way. */
module AuthorizedClients {
  import opened Basics
  import opened Settings

  datatype ClientKey = ClientKey(ip: string, clientID: string)

  /** Authorized clients with the end of their window. */
  type ClientList = map<ClientKey, Instant>

  // ----- what the operations mean -----

  ghost function Live(list: ClientList, now: Instant): ClientList {
    map k | k in list && list[k] > now :: list[k]
  }

  ghost predicate IPLive(list: ClientList, ip: string, now: Instant) {
    exists k | k in Live(list, now) :: k.ip == ip
  }

  /** A limit of zero or less means no limit. Renewing a live entry needs no room. */
  ghost predicate Refused(max: int, list: ClientList, key: ClientKey, now: Instant) {
    key !in Live(list, now) && max > 0 && |Live(list, now)| >= max
  }

  ghost predicate WithinMax(max: int, list: ClientList) {
    max > 0 ==> |list| <= max
  }

  /** The calls that touch a list. Looking up an address ranges over the list in some order and
      stops at a live entry; `dropped` is what that order lets it delete before stopping. */
  datatype ListOp =
    | Grant(key: ClientKey, now: Instant)
    | Sweep(now: Instant)
    | LookupIP(ip: string, now: Instant, dropped: set<ClientKey>)
    | LookupClient(key: ClientKey, now: Instant)
    | Untouched

  ghost function ExpiredOf(list: ClientList, ip: string, now: Instant): set<ClientKey> {
    set k | k in list && k.ip == ip && list[k] <= now
  }

  ghost function After(max: int, window: int, list: ClientList, op: ListOp): ClientList {
    match op
    case Grant(key, now) =>
      if Refused(max, list, key, now) then Live(list, now) else Live(list, now)[key := now + window]
    case Sweep(now) => Live(list, now)
    case LookupIP(ip, now, dropped) =>
      list - (if IPLive(list, ip, now) then ExpiredOf(list, ip, now) * dropped else ExpiredOf(list, ip, now))
    case LookupClient(key, now) => if key in list && list[key] <= now then list - {key} else list
    case Untouched => list
  }

  function Window(f: Forward): int
    requires Defaulted(f)
  {
    SECOND * f.authExpiredTime.value
  }

  lemma FewerEntries(list: ClientList, fewer: ClientList)
    requires fewer.Keys <= list.Keys
    ensures |fewer| <= |list|
  {
    assert list.Keys == fewer.Keys + (list.Keys - fewer.Keys);
  }

  lemma LiveSize(list: ClientList, now: Instant)
    ensures |Live(list, now)| <= |list|
  {
    FewerEntries(list, Live(list, now));
  }

  /** No call lets a list outgrow a positive limit. */
  lemma MaxKept(max: int, window: int, list: ClientList, op: ListOp)
    requires WithinMax(max, list)
    ensures WithinMax(max, After(max, window, list, op))
  {
    if op.Grant? {
      GrantKeepsMax(max, window, list, op.key, op.now);
    } else {
      FewerEntries(list, After(max, window, list, op));
    }
  }

  lemma GrantKeepsMax(max: int, window: int, list: ClientList, key: ClientKey, now: Instant)
    requires WithinMax(max, list)
    ensures WithinMax(max, After(max, window, list, Grant(key, now)))
  {
    var live := Live(list, now);
    LiveSize(list, now);
    assert live[key := now + window].Keys == live.Keys + {key};
  }

  // ----- the lists -----

  class ClientRegistry {
    const p: Platform
    const s: Server
    const maxClients: int
    var lists: seq<ClientList>

    ghost predicate Valid()
      reads this
    {
      && (forall i | 0 <= i < |s.forwards| :: Defaulted(s.forwards[i]))
      && |lists| == |s.forwards|
      && forall i | 0 <= i < |lists| :: WithinMax(maxClients, lists[i])
    }

    constructor (p: Platform, s: Server, maxClients: int)
      requires forall i | 0 <= i < |s.forwards| :: Defaulted(s.forwards[i])
      ensures Valid() && this.p == p && this.s == s && this.maxClients == maxClients
      ensures lists == seq(|s.forwards|, _ => map[])
    {
      this.p, this.s, this.maxClients := p, s, maxClients;
      lists := [];
      new;
      InitClientList();
    }

    /** Every configured forward gets an empty list. */
    method InitClientList()
      requires forall i | 0 <= i < |s.forwards| :: Defaulted(s.forwards[i])
      modifies this
      ensures Valid()
      ensures lists == seq(|s.forwards|, _ => map[])
    {
      lists := [];
      for i := 0 to |s.forwards|
        invariant lists == seq(i, _ => map[])
      {
        lists := lists + [map[]];
      }
    }

    /** The deleting loop of `refreshClientList` and `cleanupAuthorizedClientList`. */
    method DeleteExpired(f: nat, now: Instant)
      requires Valid() && f < |lists|
      modifies this
      ensures Valid()
      ensures lists == old(lists)[f := Live(old(lists)[f], now)]
    {
      ghost var before := lists[f];
      var list := lists[f];
      var pending := list.Keys;
      while pending != {}
        invariant pending <= list.Keys <= before.Keys
        invariant forall k | k in list :: list[k] == before[k]
        invariant forall k | k in before && k !in pending :: k in list <==> before[k] > now
        decreases |pending|
      {
        var key :| key in pending;
        pending := pending - {key};
        if list[key] <= now {
          list := list - {key};
        }
      }
      assert list == Live(before, now);
      LiveSize(before, now);
      lists := lists[f := list];
    }

    method RefreshClientList(f: nat, now: Instant)
      requires Valid() && f < |lists|
      modifies this
      ensures Valid()
      ensures lists == old(lists)[f := Live(old(lists)[f], now)]
    {
      if |lists[f]| == 0 {
        assert lists[f] == Live(lists[f], now);
        return;
      }
      DeleteExpired(f, now);
    }

    /** Denied addresses fail, static ones pass, and otherwise a live window decides. */
    method IsIPAuthed(f: nat, ip: string, now: Instant) returns (authed: bool)
      requires Valid() && f < |lists|
      modifies this
      ensures Valid()
      ensures authed <==> !Denied(p, s, ip) && (StaticAllowed(p, s, s.forwards[f], ip) || IPLive(old(lists)[f], ip, now))
      ensures if Denied(p, s, ip) || StaticAllowed(p, s, s.forwards[f], ip) then lists == old(lists)
              else exists dropped :: lists == old(lists)[f := After(maxClients, Window(s.forwards[f]), old(lists)[f], LookupIP(ip, now, dropped))]
    {
      if Denied(p, s, ip) {
        return false;
      }
      if StaticAllowed(p, s, s.forwards[f], ip) {
        return true;
      }
      ghost var before := lists[f];
      ghost var dropped;
      var list;
      authed, list, dropped := ScanForIP(lists[f], ip, now);
      lists := lists[f := list];
      MaxKept(maxClients, Window(s.forwards[f]), before, LookupIP(ip, now, dropped));
    }

    /** The loop of `isIPAuthed`: range over the list in any order, delete the address's expired
        entries met on the way, and stop at a live one. */
    static method ScanForIP(before: ClientList, ip: string, now: Instant)
      returns (found: bool, list: ClientList, ghost dropped: set<ClientKey>)
      ensures found <==> IPLive(before, ip, now)
      ensures list == before - (if IPLive(before, ip, now) then ExpiredOf(before, ip, now) * dropped else ExpiredOf(before, ip, now))
    {
      dropped := {};
      list := before;
      found := false;
      var pending := before.Keys;
      while pending != {} && !found
        invariant pending <= before.Keys && pending !! dropped
        invariant dropped <= ExpiredOf(before, ip, now)
        invariant list == before - dropped
        invariant found ==> IPLive(before, ip, now)
        invariant !found ==> forall k | k in before && k !in pending && k.ip == ip :: k in dropped
        decreases |pending|, !found
      {
        var key :| key in pending;
        pending := pending - {key};
        if key.ip != ip {
          continue;
        }
        if list[key] > now {
          assert key in Live(before, now);
          found := true;
        } else {
          list := list - {key};
          dropped := dropped + {key};
        }
      }
      LookupOutcome(before, ip, now, dropped, found);
    }

    static lemma LookupOutcome(before: ClientList, ip: string, now: Instant, dropped: set<ClientKey>, found: bool)
      requires dropped <= ExpiredOf(before, ip, now)
      requires found ==> IPLive(before, ip, now)
      requires !found ==> forall k | k in before && k.ip == ip :: k in dropped
      ensures found <==> IPLive(before, ip, now)
      ensures dropped == if IPLive(before, ip, now) then ExpiredOf(before, ip, now) * dropped else ExpiredOf(before, ip, now)
    {
    }

    method IsClientAuthed(f: nat, ip: string, clientID: string, now: Instant) returns (authed: bool)
      requires Valid() && f < |lists|
      modifies this
      ensures Valid()
      ensures authed <==> !Denied(p, s, ip) && (StaticAllowed(p, s, s.forwards[f], ip) || ClientKey(ip, clientID) in Live(old(lists)[f], now))
      ensures lists == if Denied(p, s, ip) || StaticAllowed(p, s, s.forwards[f], ip) then old(lists)
              else old(lists)[f := After(maxClients, Window(s.forwards[f]), old(lists)[f], LookupClient(ClientKey(ip, clientID), now))]
    {
      if Denied(p, s, ip) {
        return false;
      }
      if StaticAllowed(p, s, s.forwards[f], ip) {
        return true;
      }
      var key := ClientKey(ip, clientID);
      MaxKept(maxClients, Window(s.forwards[f]), lists[f], LookupClient(key, now));
      if key !in lists[f] {
        return false;
      }
      if lists[f][key] <= now {
        lists := lists[f := lists[f] - {key}];
        return false;
      }
      return true;
    }

    /** The part of `authorizeClient` that runs under the mutex. */
    method GrantWindow(f: nat, key: ClientKey, now: Instant) returns (granted: bool, renewed: bool)
      requires Valid() && f < |lists|
      modifies this
      ensures Valid()
      ensures lists == old(lists)[f := After(maxClients, Window(s.forwards[f]), old(lists)[f], Grant(key, now))]
      ensures granted <==> key in Live(old(lists)[f], now) || maxClients <= 0 || |Live(old(lists)[f], now)| < maxClients
      ensures granted ==> lists[f] == Live(old(lists)[f], now)[key := now + 1_000_000_000 * s.forwards[f].authExpiredTime.value]
      ensures renewed <==> key in Live(old(lists)[f], now)
    {
      MaxKept(maxClients, Window(s.forwards[f]), lists[f], Grant(key, now));
      DeleteExpired(f, now);
      renewed := key in lists[f];
      if !renewed && maxClients > 0 && |lists[f]| >= maxClients {
        return false, renewed;
      }
      lists := lists[f := lists[f][key := now + SECOND * s.forwards[f].authExpiredTime.value]];
      return true, renewed;
    }

    /** At most the first matching forward's list changes: it gains the client for one window,
        unless it is full of other live clients. */
    method AuthorizeClient(ip: string, clientID: string, port: Uint16, token: string, now: Instant) returns (result: AuthResult)
      requires Valid()
      modifies this
      ensures Valid()
      ensures match SelectForward(p, s, port, token, 0)
              case None => lists == old(lists) && result == NOT_AUTHORIZED
              case Some(f) =>
                var key := ClientKey(ip, clientID);
                && lists == old(lists)[f := After(maxClients, Window(s.forwards[f]), old(lists)[f], Grant(key, now))]
                && result == if Refused(maxClients, old(lists)[f], key, now) then NOT_AUTHORIZED
                             else MatchForward(p, s, s.forwards[f], token).value.(renewed := key in Live(old(lists)[f], now))
      ensures result.authorized <==>
              && SelectForward(p, s, port, token, 0).Some?
              && var live := Live(old(lists)[SelectForward(p, s, port, token, 0).value], now);
                 ClientKey(ip, clientID) in live || maxClients <= 0 || |live| < maxClients
    {
      for i := 0 to |s.forwards|
        invariant lists == old(lists) && Valid()
        invariant SelectForward(p, s, port, token, 0) == SelectForward(p, s, port, token, i)
      {
        if s.forwards[i].bindPort != port {
          continue;
        }
        var matched := MatchTokenRules(p, token, "global", s.globalAllowTokens);
        if matched.None? {
          matched := MatchTokenRules(p, token, "forward", s.forwards[i].allowTokens);
        }
        if matched.Some? {
          MatchReportsFirstRule(p, s, s.forwards[i], token, 0);
          assert matched == MatchForward(p, s, s.forwards[i], token) && SelectForward(p, s, port, token, i) == Some(i);
          var granted, renewed := GrantWindow(i, ClientKey(ip, clientID), now);
          return if granted then matched.value.(renewed := renewed) else NOT_AUTHORIZED;
        }
      }
      return NOT_AUTHORIZED;
    }
  }
}
