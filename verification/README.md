# connauth: the authorization gate, verified

connauth hides a TCP service behind a gate. A client proves itself to the authserver over UDP with
an encrypted challenge and response; the server then puts the client's source address on the list
of one forward for a limited time, and forwards TCP connections from listed or statically allowed
addresses, within connection limits. This project models that gate and proves what it promises.

## How it is modelled

- **Components are classes and in-place loops** where the program updates state: the pending
  challenge store (`PendingChallenges.dfy`), the client lists (`AuthorizedClients.dfy`), the
  connection limiter (`Forwarding.dfy`), the packet handlers (`AuthServer.dfy`), configuration
  checking (`Config.dfy`), the client's exchange and retry loop (`AuthClient.dfy`). Each method is
  proved against a function of the old state. Ranging over a map while deleting from it takes the
  keys in any order.
- **Clock readings are arguments**, in nanoseconds, one for each place the code reads the clock;
  `.Unix()` rounds down. No reading is assumed to come before another unless a theorem says so. The
  code reads the clock for a client list while it holds the list's mutex, so theorems about lists
  may take those readings in order; for the pending store it reads the clock before it locks, so
  there the theorems let readings lag behind the lock.
- **The server is a transition system** (`AuthServer.Step`, `AuthServer.Run`). Its events are the
  sections that run under one mutex: receiving a packet up to its access to the store, the grant
  that follows a redeemed response, the minute cleanup, the per-second refresh, the accept check,
  and each connection's acquire and release. A step that is not enabled changes nothing, so every
  sequence of events is a run and every interleaving is covered. `ChallengeHistory.dfy` and
  `ClientHistory.dfy` study the runs of one store and of one list; `AuthRuns.dfy`,
  `ForwardSafety.dfy` and `ServerBisimulation.dfy` lift the results to the server. `ServerSteps.dfy`
  states what each event brings about, in terms of the history, and `ConfiguredServer.dfy` what the
  written configuration makes of it, so that limits, units and branches are fixed by theorems that
  do not use the model's own predicates for them.
- **What is accepted is written out** in plain numbers: packets in `Verdicts.dfy`, configurations in
  `Acceptance.dfy`, the text of every message in `WireText.dfy`.
- **Encryption is symbolic** (RFC 5116 section 2): a sealed payload opens only under the same key and
  the same context string. In `Network.dfy` the network may drop, duplicate, reorder and replay
  packets, rewrite their cleartext and their source address, and invent anything that is not sealed
  under a secret key; `HonestNetwork.dfy` shows that an honest client gets through it. Decoding JSON reads each record's own fields from one object, so that any body
  could be decoded as any message; only the checks in the code keep the roles apart.
- **Library calls are arbitrary functions** (`Settings.Platform`): glob matching, CIDR containment,
  RFC 3339 parsing, address resolution, letter and digit classes. Strings are runes; byte lengths
  are those of UTF-8.
- Nonce generation is an argument of the event; freshness is a hypothesis where a theorem needs it.
- An IP address is its canonical text, a forward is its index in the configuration, and configured
  rule lists do not share memory (`Config.ServerConfig.Separate`), as decoding creates them.

## What was found

- An IP rule passes if the address resolver accepts its text, but matches at run time only the address
  that is printed exactly like it, or a network. A deny rule with a host name, or with an address in
  another notation, is therefore accepted and denies nothing (`ConfigChanges.DenyRuleVoidIff`).
- In particular a named IP rule with empty text passes `CheckValid` if the address resolver accepts
  empty text (Go's `net.ResolveIPAddr` does), resolves to the empty value and matches nothing.
  "Every rule has a non-empty value" therefore holds exactly when no rule refers to such a name
  (`ConfigChanges.EmptyNamedRuleResolves`, `ConfigChecked.IPValuesNonEmptyIff`).
- The check against the token text `*` never decides anything: one character is too weak a secret
  anyway, and 24 or more asterisks pass (`ConfigChanges.AsterisksAcceptedIff`). Which tokens such a
  pattern matches is up to the glob library, which is not part of this model.
- The list of unsafe example secrets decides nothing either: all of them are shorter than the 24 bytes
  a secret needs anyway, so only length and the placeholder `change_me` count (`Acceptance.SecretIff`).
- The context string of the encryption is not injective on the ids `Seal` itself accepts, only on
  colon-free ids; `AuthProto.ContextsCollideIff` gives the exact collisions. Both configuration
  checks exclude colons, so no valid configuration is affected.
- The documentation offers `notbefore` and `notafter` for key rotation, but `CheckValid` rejects a
  configuration that lists any key that is not active at that moment. A key cannot be listed ahead of
  its window (`Settings.KeyOutsideWindowRefusesAll`), and two keys with adjoining windows can never
  be loaded together (`Settings.BackToBackKeysNeverAccepted`). A list of keys can be loaded at some
  time exactly if every key begins before any key ends (`Settings.ActiveTogetherIff`,
  `Settings.AcceptedSometimeIff`), so rotation needs overlapping windows.
- The bounds for an honest client are tight together: with a clock 15 s ahead, an exchange may take
  14 s but 15 s until the challenge is opened always fail (`HonestRun.FifteenSecondsFail`).
- Agreement on the server side needs no assumption about keys, and injectivity none about nonces;
  fresh server nonces are needed only to conclude that a recorded packet authorizes at most once.
- `CheckValid` accepts two forwards with the same port (`ConfigChanges.RepeatedPortAccepted`). An
  authorization then goes to the first one whose rules match the token
  (`ConfiguredServer.FirstTakerIsSelected`), and
  inline rules at the same place share their id (`ConfigChanges.SharedInlineIDIff`).
- All messages fit the 4096-byte buffers even if every byte of every field is escaped sixfold.

## Model

| member | source | states |
|---|---|---|
| PendingChallenges.PendingChallengeStore.constructor | cmd/authserver/challenge.go:30-37 | the store starts empty with its limits, and its per-IP index agrees with it |
| PendingChallenges.PendingChallengeStore.Add | cmd/authserver/challenge.go:39-54 | accepted exactly when both positive limits leave room; an existing key keeps its expiry; the per-IP index still counts exactly the stored keys |
| PendingChallenges.PendingChallengeStore.Consume | cmd/authserver/challenge.go:56-69 | succeeds exactly for a stored, unexpired key, and removes the key either way; index and limits kept |
| PendingChallenges.PendingChallengeStore.Cleanup | cmd/authserver/challenge.go:71-87 | in any iteration order, leaves precisely the unexpired keys and returns how many were expired; index and limits kept in every iteration |
| PendingChallenges.CountAfterInsert | cmd/authserver/challenge.go:51-52 | inserting a new key raises its address's count by one and no other |
| PendingChallenges.CountAfterRemove | cmd/authserver/challenge.go:63-67 | removing a key lowers its address's count by one and no other |
| ChallengeHistory.StoredKeyHasOrigin | cmd/authserver/challenge.go:48-51 | in any run, a stored key stems from an earlier insertion and still carries that insertion's expiry, whatever was added since |
| ChallengeHistory.StoredSinceOrigin | cmd/authserver/challenge.go:39-87 | since that insertion the key was in the store at every moment, with the same expiry |
| ChallengeHistory.RedemptionHasOrigin | cmd/authserver/challenge.go:56-69 | a successful consumption follows an insertion of the same key and beats its expiry |
| ChallengeHistory.RedemptionsHaveDistinctOrigins | cmd/authserver/challenge.go:56-69 | two successful consumptions stem from different insertions: tickets are one-shot |
| ChallengeHistory.TicketsConserved | cmd/authserver/challenge.go:39-87 | over any run, insertions of a key equal its redemptions plus its expiries plus its presence; redemptions never outnumber insertions |
| ChallengeHistory.LossesAreExpiries | cmd/authserver/challenge.go:56-87 | a key leaves the store unredeemed only after its expiry, by a cleanup or its own late consumption |
| ChallengeHistory.LimitsHoldAlways | cmd/authserver/challenge.go:42-47 | positive global and per-IP limits hold after every run |
| ChallengeHistory.CleanupInvisibleToConsume | cmd/authserver/challenge.go:56-87 | a cleanup no later than a consumption changes neither its outcome nor what stays unexpired |
| ChallengeHistory.NoKeyOutlives90Seconds | cmd/authserver/auth.go:248-261 | when some cleanup's reading is at most 60 s old, every stored key was inserted less than 90 s ago, even if readings lag behind the lock by anything less than 30 s |
| ChallengeHistory.FreshAfterCleanup | cmd/authserver/challenge.go:71-87 | right after a cleanup every remaining key was inserted less than 30 s before its reading, in whatever order readings were taken |
| ChallengeHistory.CapacityIsReleased | cmd/authserver/challenge.go:42-87 | a cleanup 30 s or more after the last insertion empties the store, so every address has room again under any limits |
| ChallengeHistory.StoredIffOutstanding | cmd/authserver/challenge.go:39-87 | the store holds exactly the keys that were inserted and since then neither used up nor cleaned away after their expiry |
| ChallengeHistory.InsertionFailsIff | cmd/authserver/challenge.go:42-50 | from the history alone: an insertion fails exactly if its key is outstanding or a positive limit's number of keys is, in total or from its address |
| AuthorizedClients.ClientRegistry.constructor | cmd/authserver/auth.go:418-425 | a new registry has one empty list for every configured forward |
| AuthorizedClients.ClientRegistry.InitClientList | cmd/authserver/auth.go:418-425 | every configured forward gets an empty list, and no other list exists |
| AuthorizedClients.ClientRegistry.DeleteExpired | cmd/authserver/auth.go:203-209 | in any iteration order, exactly the live entries of one list remain; other lists are untouched |
| AuthorizedClients.ClientRegistry.RefreshClientList | cmd/authserver/auth.go:37-57 | a refresh leaves exactly the live entries of its list |
| AuthorizedClients.ClientRegistry.IsIPAuthed | cmd/authserver/auth.go:88-109 | true exactly if the address is not denied and is statically allowed or has a live entry; only expired entries of that address are deleted |
| AuthorizedClients.ClientRegistry.ScanForIP | cmd/authserver/auth.go:97-108 | the scan, in any order, finds a live entry exactly if there is one, and deletes all of the address's entries when there is none |
| AuthorizedClients.ClientRegistry.IsClientAuthed | cmd/authserver/auth.go:111-131 | the same for one address and client id; only that entry can be deleted, and only when expired |
| AuthorizedClients.ClientRegistry.GrantWindow | cmd/authserver/auth.go:184-196 | the locked part of an authorization: expired entries go first; granted exactly if the client is live, there is no maximum, or fewer than the maximum are live; a granted window is the configured seconds long; renewal is reported exactly for a live entry |
| AuthorizedClients.ClientRegistry.AuthorizeClient | cmd/authserver/auth.go:173-201 | only the first forward with the port and a matching token rule changes: it gains the client for one window unless it refuses; all other lists stay; the result says authorized exactly when the client was granted |
| AuthorizedClients.MaxKept | cmd/authserver/auth.go:189-194 | no call lets a list outgrow a positive maximum |
| ClientHistory.SizeHoldsAlways | cmd/authserver/auth.go:189-194 | a positive maximum holds after every run |
| ClientHistory.StoredWindowBounded | cmd/authserver/auth.go:184-195 | in every run a stored window ends at most one window after now |
| ClientHistory.RenewalSucceeds | cmd/authserver/auth.go:189-196 | in every run, renewing a live client succeeds even at capacity, adds no entry, and never shortens its window |
| ClientHistory.LiveIffWindowOpen | cmd/authserver/auth.go:111-131 | a client is live at t exactly if some past grant at t0 has t0 <= t < t0 + window, in every interleaving of the deleting code paths |
| ClientHistory.IPLiveIffWindowOpen | cmd/authserver/auth.go:95-108 | an address lookup answers exactly whether some client of that address has such a grant |
| ClientHistory.GrantFailsIff | cmd/authserver/auth.go:184-195 | from the history alone: a grant fails exactly if the maximum is positive, the client has no open window and at least that many other clients have one; otherwise the client is listed for one whole window |
| ClientHistory.LazyExpiryUnobservable | cmd/authserver/auth.go:37-57 | two runs with the same requests but arbitrary sweeps and iteration orders give the same answers, capacity refusals and renewal flags included |
| ClientHistory.SameLiveSameAnswer | cmd/authserver/auth.go:184-197 | the bisimulation step: equal live entries give equal answers and equal live entries afterwards |
| AuthServer.PacketHandler.constructor | cmd/authserver/auth.go:32-35 | the handler starts from an empty store and one empty list per forward |
| AuthServer.PacketHandler.HandleAuthPacket | cmd/authserver/auth.go:269-308 | handling a packet is one receive step and one authorize step of the transition system, with the same reply |
| AuthServer.PacketHandler.HandleChallengeRequest | cmd/authserver/auth.go:310-337 | a rejected request changes nothing and gets no reply; an accepted one stores the bound key and is answered |
| AuthServer.PacketHandler.IssueChallenge | cmd/authserver/auth.go:325-363 | the pending key and the sealed challenge carry the same bindings and the same deadline; no room means no reply |
| AuthServer.PacketHandler.HandleChallengeResponse | cmd/authserver/auth.go:366-384 | an invalid response touches neither store nor lists |
| AuthServer.PacketHandler.RedeemResponse | cmd/authserver/auth.go:372-385 | a valid response always uses up its key, and authorizes exactly if that key was pending in time |
| AuthServer.ListsAfterAuthorizePointwise | cmd/authserver/auth.go:173-201 | one authorization changes at most one list |
| AuthRuns.RunProjectsStore | cmd/authserver/auth.go:335-385 | the pending keys of a server run are those of its store calls in order |
| AuthRuns.RunProjectsList | cmd/authserver/auth.go:184-195 | each list of a server run is that of the calls that touched it |
| AuthRuns.RedemptionAgreesWithIssue | cmd/authserver/auth.go:310-384 | every redeemed response follows a challenge issued to the same address with the same key id, server id, client id, port and nonces, strictly before its 30 s were over; for arbitrary packets |
| AuthRuns.AuthorizingHasRedemption | cmd/authserver/auth.go:381-385 | the handler authorizes only what it has just redeemed |
| AuthRuns.AuthorizationAgreement | cmd/authserver/auth.go:310-385 | every authorization has full provenance: issued challenge, redemption in time, key active at both look-ups, token allowed on the forward whose port the challenge named |
| AuthRuns.AuthorizationsInjective | cmd/authserver/auth.go:381-385 | different authorizations map to different issued challenges |
| AuthRuns.NoReplay | cmd/authserver/challenge.go:56-69 | with fresh server nonces no two authorizations share a server nonce, so no recorded packet authorizes twice |
| AuthRuns.ClassifiedKeyInUse | cmd/authserver/auth.go:283-287 | a packet is processed only under a key id that is configured and active at that moment |
| AuthRuns.ServerWithinLimits | cmd/authserver/auth.go:34-35 | in every reachable state the pending store and every list are within their positive limits, and every forward has its list |
| AuthRuns.PendingKeysAreRecent | cmd/authserver/auth.go:248-261 | with a cleanup reading of the last minute every pending challenge was issued to its address within the last 90 s, even if readings lag behind the store's lock by anything less than 30 s |
| Verdicts.BodyVerdict | utils/authproto/protocol.go:79-138 | a decrypted body is taken for a request or a response exactly if its type is the one, every field it needs has 1 to 128 bytes, its port is not 0 and its timestamp is 60 s old to 15 s ahead; a request must name this server |
| Verdicts.PacketVerdict | cmd/authserver/auth.go:269-308 | exactly which packets are requests and which are responses: sealed for the ids they name under the secret of an active configured key, at most 4096 bytes of payload, with such a body |
| Verdicts.ChallengeVerdict | cmd/authclient/auth.go:98-127 | exactly which packets the client takes for a challenge, and what it reads from them |
| ServerSteps.RequestInRun | cmd/authserver/auth.go:325-363 | at any point of any run, a request is answered with its challenge exactly unless a positive limit's number of challenges is unanswered, in total or from its address |
| ServerSteps.UnansweredWasIssued | cmd/authserver/auth.go:325-337 | each challenge that counts against the limits was issued for a request from its address |
| ServerSteps.ResponseInRun | cmd/authserver/auth.go:366-384 | a response goes on to authorizing exactly if its challenge is unanswered and less than 30 s old; either way the challenge cannot be answered again |
| ServerSteps.RefreshInRun | cmd/authserver/auth.go:37-57 | a refresh leaves on its list exactly the clients inside a window |
| ServerSteps.AcceptInRun | cmd/authserver/forward.go:107-146 | an accepted connection is admitted, and only added to its forward, exactly if its address is not denied and statically allowed or inside a window by the history |
| ServerSteps.AcquireInRun | cmd/authserver/forward.go:143-157 | an admitted connection's next step: handled, or rejected exactly if a configured positive limit is reached by connections being handled; nothing else changes |
| ServerSteps.ReleaseInRun | cmd/authserver/forward.go:157-170 | when handling ends the connection is finished and one less is handled, in total and from its address; nothing else changes |
| ServerBisimulation.InputKeepsView | cmd/authserver/auth.go:88-109 | the bisimulation step of the whole server: states that differ only in expired list entries answer the same input alike and differ only in expired entries afterwards |
| ServerBisimulation.RefreshUnobservable | cmd/authserver/auth.go:37-57 | two servers with the same inputs but arbitrary refreshes and iteration orders send the same replies and have the same pending challenges, connections and counters |
| Forwarding.ConnectionLimiter.Acquire | cmd/authserver/forward.go:34-47 | a slot is given exactly if neither positive limit is reached; both counters move together |
| Forwarding.ConnectionLimiter.Release | cmd/authserver/forward.go:49-61 | the exact new counters, guards included, for any address |
| Forwarding.AcquireAddsHolder | cmd/authserver/forward.go:34-47 | on counters that reflect a population of slot holders, acquire adds one holder or changes nothing |
| Forwarding.ReleaseRemovesHolder | cmd/authserver/forward.go:49-61 | releasing a held slot removes that holder and never takes a guard branch |
| Forwarding.GlobalIsSum | cmd/authserver/forward.go:44-45 | the global counter is the sum of the per-address counters |
| Forwarding.CountersCountConns | cmd/authserver/forward.go:144-157 | the counters equal the numbers of connections between acquire and release, in total and per address, with no zero entries |
| Forwarding.RefusedOnlyAtLimit | cmd/authserver/forward.go:38-43 | the slot test fails exactly when a positive limit's number of connections is being handled |
| Forwarding.AcquireOutcome | cmd/authserver/forward.go:144-157 | an admitted connection that asks for a slot is handled, or rejected exactly at a limit, and no other connection changes |
| Forwarding.HandlingRaisesCounts | cmd/authserver/forward.go:44-45 | handling one more connection raises the number of handled ones by one, in total and for its address alone |
| Forwarding.ReleaseOutcome | cmd/authserver/forward.go:49-61 | when handling ends the connection is finished and those numbers fall by one |
| Forwarding.StepConserves | cmd/authserver/forward.go:144-170 | every step of every connection keeps the counters equal to the live connections and within limits; Forwarding.AcquireOutcome and ReleaseOutcome say what the steps do |
| Forwarding.DrainedLimiterIsInitial | cmd/authserver/forward.go:157-170 | with nothing being handled the limiter is back to its initial state |
| ForwardSafety.ConnectionsConserved | cmd/authserver/forward.go:107-170 | the same in every reachable state of the whole server |
| ForwardSafety.QuietForwardIsInitial | cmd/authserver/forward.go:107-170 | whenever no connection of a forward is handled its limiter is initial again |
| ForwardSafety.AcceptCheckIsExact | cmd/authserver/auth.go:88-109 | in every reachable state the accept check passes exactly for addresses that are not denied and are statically allowed or inside a past authorization's window |
| ForwardSafety.AuthorizationFailsIff | cmd/authserver/auth.go:184-197 | a redeemed response with an allowed token fails to authorize exactly if the maximum is positive, its client is inside no window and at least that many other clients are |
| ForwardSafety.ClientsInsideExact | cmd/authserver/auth.go:184-197 | the clients that count against the maximum are exactly those with an authorization whose window is open |
| ForwardSafety.ConnectionWasAdmitted | cmd/authserver/forward.go:136-144 | every connection stems from a passed accept check of its own address and forward |
| ForwardSafety.ConnectionsJustified | cmd/authserver/forward.go:136-170 | every connection was, at its accept check, not denied and either statically allowed or inside the window of an earlier authorization with full provenance |
| ConfiguredServer.SettingsReachServer | cmd/authserver/config.go:54-73 | what the running server uses of each forward: its window in nanoseconds is 1000000000 times the written seconds, or an hour's, and its connection limits are the written ones, or 1024 and 16 |
| ConfiguredServer.AcceptCheckAsWritten | cmd/authserver/auth.go:59-109 | in every reachable state an address passes exactly if no deny rule as written names it and an allow rule does or a window is open |
| ConfiguredServer.DeniedNetworkNeverPasses | cmd/authserver/auth.go:68-72 | an address inside a denied network never passes, inside an open window or not |
| ConfiguredServer.AllowedNetworkPasses | cmd/authserver/auth.go:133-141 | an address inside an allowed network always passes if no deny rule names it |
| ConfiguredServer.SoleAuthorizationLasts | cmd/authserver/auth.go:195-196 | an address no rule names that was authorized once passes exactly during the configured seconds, or an hour |
| ConfiguredServer.FirstTakerIsSelected | cmd/authserver/auth.go:173-183 | an authorization goes to the first forward with its port for which a written pattern, global or its own, matches the token |
| ConfiguredServer.HandledWithinConfigured | cmd/authserver/forward.go:34-47 | in every reachable state no forward handles more connections than configured, in total or from one address |
| ConfiguredServer.RejectedOnlyAtConfigured | cmd/authserver/forward.go:34-47 | an admitted connection is rejected exactly when the configured number is being handled |
| AuthProto.TimestampWindowInSeconds | utils/authproto/protocol.go:64-67 | accepted timestamps are exactly those from 60 s before now, rounded up, to 15 s after it, rounded down |
| AuthProto.FieldLimit | utils/authproto/protocol.go:69-77 | a field is accepted exactly from 1 to 128 bytes |
| AuthProto.TruncatedTimestampAllowed | utils/authproto/protocol.go:64-67 | a truncated reading at most 59 s old and 15 s ahead is accepted |
| AuthProto.ContextStringInjective | utils/authproto/crypto.go:14-16 | with colon-free key ids the context string determines key id and server id |
| AuthProto.ContextsCollideIff | utils/authproto/crypto.go:14-16 | exactly when two contexts share a context string, for all ids |
| AuthProto.ColonsCollide | utils/authproto/crypto.go:34-72 | a concrete pair of contexts with colons under which one seal opens twice |
| AuthProto.OpenInvertsSeal | utils/authproto/crypto.go:34-72 | a sealed body opens exactly under its own key and context, to itself |
| AuthProto.SealIff | utils/authproto/crypto.go:14-53 | sealing works exactly for a key that is not empty and ids of 1 to 128 bytes, and gives the prefixed context string and 28 more bytes |
| PacketSize.EscapeBound | utils/authproto/protocol.go:28-62 | JSON escaping grows a string at most sixfold |
| PacketSize.EnvelopeFits | utils/authproto/protocol.go:98-112 | an envelope around a body of at most 2360 bytes passes the payload limit and fits 4096 bytes |
| WireText.ByteLenIsLength | utils/authproto/protocol.go:69-77 | the byte length of a string is the length of its UTF-8 encoding |
| WireText.Utf8RoundTrip | utils/authproto/protocol.go:69-77 | UTF-8 loses nothing |
| WireText.EscapeRoundTrip | utils/authproto/protocol.go:28-62 | JSON escaping loses nothing |
| WireText.RequestSizeIsLength | utils/authproto/protocol.go:34-41 | the size of a request is the length of its JSON text |
| WireText.ChallengeSizeIsLength | utils/authproto/protocol.go:43-51 | the size of a challenge is the length of its JSON text |
| WireText.ResponseSizeIsLength | utils/authproto/protocol.go:53-62 | the size of a response is the length of its JSON text |
| WireText.Base64RoundTrip | utils/authproto/protocol.go:28-32 | base64 loses nothing |
| WireText.EnvelopeSizeIsLength | utils/authproto/protocol.go:28-32 | the size of an envelope is the length of its JSON text with the payload in padded base64 |
| Network.ReplyFits | cmd/authserver/auth.go:339-363 | the server's reply to any request it accepts fits the client's read buffer |
| Network.ClientPacketsFit | cmd/authclient/auth.go:82-96 | both client packets with a token of at most 128 bytes fit the server's read buffer |
| AuthClient.Auth | cmd/authclient/auth.go:14-80 | sends its request whenever it has a nonce and can seal it, and a response exactly if it then opened a challenge bound to this exchange; succeeds exactly if it sent a response |
| AuthClient.AcceptedChallengeStillPending | cmd/authclient/auth.go:120-122 | when the client accepts a challenge, the server's untruncated deadline is strictly ahead on synchronized clocks |
| AuthClient.NextPower | cmd/authclient/auth.go:151-155 | keeping the least power of ten above the failure count detects exactly the powers of ten |
| AuthClient.RetryLoop | cmd/authclient/auth.go:145-173 | the loop warns once, in order, in each round whose run of failures has a power of ten as length, restarting after each success, and in no other |
| AuthClient.WarningsAreDigits | cmd/authclient/auth.go:151-160 | wherever it occurs, a run of n failures adds as many warnings to the loop's output as n has decimal digits |
| Network.InvHolds | cmd/authserver/auth.go:269-385 | in every run against the network, each ciphertext on the wire is a session's request, an issued challenge or a session's response |
| Network.AcceptedChallengeWasIssued | cmd/authclient/auth.go:52-61 | a challenge accepted under a secret key was issued by this server for this session |
| Network.ClientAgreement | cmd/authclient/auth.go:52-79 | a session sends its token only after the server issued a challenge for its nonce, ids and port with that very deadline |
| Network.RedemptionAgreement | cmd/authserver/auth.go:310-385 | each redemption under a secret key ends one session's whole exchange: its request, this challenge, its response |
| Network.SessionAuthorizesOnce | cmd/authserver/auth.go:381-385 | no client session authorizes twice |
| Network.RolesSeparate | cmd/authserver/auth.go:300-307 | no request, challenge or response is accepted in another role, by server or client |
| Network.DeliveryIsReaction | cmd/authclient/auth.go:47-79 | what a delivery puts on the wire is what the exchange sends on reading that packet |
| Network.TokenConnectionHasSession | cmd/authserver/forward.go:136-170 | against the network, every connection no static rule allows was let in by one session: its request, challenge and response are those behind an authorization of the connection's own address and forward, in whose window the connection's accept check fell |
| Network.CheckedConfigurationSuffices | cmd/authserver/config.go:210-272 | a configuration that passed the check meets every assumption of the run-time theorems |
| HonestRun.RequestAcceptedIff | cmd/authserver/auth.go:269-319 | an honest request is accepted exactly if its client id and nonce have 1 to 128 bytes and its truncated timestamp is in the window |
| HonestRun.ChallengeAcceptedIff | cmd/authclient/auth.go:98-127 | the client accepts its challenge exactly while its clock in whole seconds is before the truncated deadline |
| HonestRun.ResponseAcceptedIff | cmd/authserver/auth.go:366-371 | an honest response is accepted exactly if its token has 1 to 128 bytes and its truncated timestamp is in the window |
| HonestRun.ClocksPass | utils/authproto/protocol.go:14-21 | clocks 15 s apart and 14 s of duration pass every clock check, despite truncation on both sides |
| HonestRun.FifteenSecondsFail | cmd/authclient/auth.go:120-122 | a clock 15 s ahead and 15 s until the challenge is opened always fail |
| HonestRun.HonestExchangeAuthorizes | cmd/authserver/auth.go:310-385 | an honest exchange within the bounds ends with the client listed for a full window, whatever else is interleaved |
| HonestRun.HonestExchangeInRun | cmd/authserver/auth.go:310-385 | at any point of any run such an exchange ends in an authorization, so the safety theorems speak about something |
| HonestRun.AuthorizedClientGetsThrough | cmd/authserver/auth.go:88-109 | after an authorization, whatever else happens, connections from its address pass the accept check for the whole window exactly if the address is not denied |
| HonestNetwork.NetworkReach | cmd/authserver/auth.go:269-295 | the network can deliver exactly what does not parse, what is not sealed under a secret key, and every ciphertext ever sent in any envelope |
| HonestNetwork.HonestSessionAuthorizes | cmd/authclient/auth.go:14-80 | at any point of any run against the network, if it simply delivers an honest exchange, the session completes and is authorized |
| Settings.FirstTokenRule | cmd/authserver/auth.go:147-167 | finds the first matching token rule exactly if one matches |
| Settings.SelectForward | cmd/authserver/auth.go:174-183 | finds the first forward with the port whose global or own rules match the token, exactly if there is one |
| Settings.MatchReportsFirstRule | cmd/authserver/auth.go:147-167 | a match is authorized and reports the first matching rule, global rules first |
| Settings.UnresolvedRuleMatches | cmd/authserver/auth.go:75-86 | a rule that was never resolved still matches by the text it was written with |
| Settings.LookupIsExact | cmd/authserver/config.go:373-394 | with unique ids, lookup returns a secret exactly if an active key has that id and secret |
| Settings.NewKeyKeepsLookups | cmd/authserver/config.go:373-394 | a key with a new id, anywhere in the list, changes no other id's lookup |
| Settings.HandoverIsExact | cmd/authserver/config.go:379-390 | when a new key begins where the old one ends and neither window is empty, the two are never active together and one of them always is, from the old one's beginning to the new one's end |
| Settings.ActiveTogetherIff | cmd/authserver/config.go:138-164 | some moment has all keys active exactly if every written bound parses and every key begins before any key ends |
| Settings.AcceptedSometimeIff | cmd/authserver/config.go:210-230 | a configuration is accepted at some time exactly if it is without its keys' bounds and the windows of its keys meet |
| Settings.BackToBackKeysNeverAccepted | cmd/authserver/config.go:138-164 | a configuration with a key that begins no earlier than another one ends is never accepted, whatever other bounds the two have |
| Settings.KeyOutsideWindowRefusesAll | cmd/authserver/config.go:144-162 | one key before its beginning or after its end refuses the whole configuration |
| Config.ResolveTokenRules | cmd/authserver/config.go:274-283 | succeeds exactly if every rule resolves, writes each resolved rule in place, and otherwise stops at a failing rule with the rest unchanged |
| Config.ResolveIPRules | cmd/authserver/config.go:318-327 | the same for IP rules |
| Config.ForwardConfig.CheckValid | cmd/authserver/config.go:38-52 | accepts exactly the forwards with an address, an allowed port and a drop delay of at most 5000 ms |
| Config.ForwardConfig.SetDefaultValue | cmd/authserver/config.go:54-73 | keeps every setting that is present and sets the absent ones to 0, 3600, 16, 1024, 3000 and 300000 |
| Config.CheckKeys | cmd/authserver/config.go:220-230 | accepts exactly if every key is valid and active and no id occurs twice |
| Config.CheckEntries | cmd/authserver/config.go:231-249 | in any iteration order, accepts a table exactly if all its entries are accepted |
| Config.ServerConfig.CheckForwards | cmd/authserver/config.go:259-270 | the loop accepts exactly if all forwards do, and then leaves each of them resolved and defaulted (ConfigChecked.SettingsAsWritten); wherever it stops, every list is resolved up to some rule and as written from there on |
| Config.ServerConfig.CheckValid | cmd/authserver/config.go:210-272 | succeeds exactly on the accepted configurations and leaves the resolved configuration behind; wherever it stops, it leaves a partly checked one and changes nothing but rules and absent settings |
| Acceptance.IdentifierIff | cmd/authserver/config.go:166-180 | an identifier is valid exactly if it has 1 to 64 bytes of letters, digits, hyphens, underscores and dots |
| Acceptance.JoinedIdentifier | cmd/authserver/config.go:166-180 | identifiers joined by a hyphen, an underscore or a dot are an identifier exactly if they fit |
| Acceptance.SecretIff | cmd/authserver/config.go:182-199 | a secret is strong exactly if it has 24 bytes once trimmed and holds no placeholder |
| Acceptance.TokenRuleIff | cmd/authserver/config.go:285-316 | exactly which token rules resolve |
| Acceptance.IPRuleIff | cmd/authserver/config.go:329-357 | exactly which IP rules resolve; a text of its own must be an address or a network |
| Acceptance.AcceptedIff | cmd/authserver/config.go:210-272 | exactly which configurations are accepted, every condition and number written out |
| ConfigChecked.SettingsAsWritten | cmd/authserver/config.go:54-73 | each of the six settings of a checked forward is the written value if there is one, and else 0, 3600, 16, 1024, 3000 or 300000 |
| ConfigChecked.MatchReportsAsWritten | cmd/authserver/auth.go:147-183 | on a checked configuration a match reports scope, id and type of the first rule, as written, whose pattern matches, global rules first |
| ConfigChecked.CheckValidEstablishesRuntime | cmd/authserver/config.go:210-272 | after success every rule's value is its source, no token rule is empty, `*` or weak, all settings are set, ids are unique, and the unresolved-rule fallbacks are unreachable |
| ConfigChecked.IPValuesNonEmptyIff | cmd/authserver/config.go:329-357 | a list's values are all non-empty exactly if no rule refers to a name with empty text |
| ConfigChecked.ChecksMatchAsWritten | cmd/authserver/auth.go:59-86 | deny, allow and token rules of a checked configuration match exactly as they were written |
| ConfigChecked.CheckValidIdempotent | cmd/authserver/config.go:210-327 | checking again at the same time succeeds and changes nothing |
| ConfigChecked.CheckValidAfterStop | cmd/authserver/config.go:210-327 | checking what a stopped check left behind gives the same verdict as checking the configuration as written |
| ConfigChecked.InlineRuleIDInjective | cmd/authserver/config.go:359-364 | inline rule ids determine scope, port, kind and index, decimal printing included |
| ConfigChecked.InlineRuleIDNeverNamed | cmd/authserver/config.go:166-180 | no inline rule id is the id of a named rule |
| ConfigChanges.NamedDenyRuleDenies | cmd/authserver/auth.go:59-86 | one more named deny rule denies exactly what was denied before and what its text names: an address or a network |
| ConfigChanges.DeniesItsNetwork | cmd/authserver/auth.go:68-72 | with a network for its text it denies exactly the addresses of that network in addition |
| ConfigChanges.NamedAllowRuleAllows | cmd/authserver/auth.go:133-141 | one more named global allow rule does the same for every forward |
| ConfigChanges.NamedForwardRuleAllows | cmd/authserver/auth.go:133-141 | one more named allow rule of a forward does the same for that forward and no other |
| ConfigChanges.DeniesItsOwnText | cmd/authserver/config.go:201-208 | an accepted configuration stays accepted with one more named deny rule that only the address resolver accepts, and denies exactly the address printed like it in addition |
| ConfigChanges.DenyRuleVoidIff | cmd/authserver/auth.go:59-74 | such a rule denies no further address exactly if its text is empty, is not how an address is printed, or was denied before |
| ConfigChanges.EmptyNamedRuleResolves | cmd/authserver/config.go:334-341 | any accepted configuration stays accepted with an empty named rule and a deny rule referring to it, which resolves to nothing and denies nothing |
| ConfigChanges.AsterisksAcceptedIff | cmd/authserver/config.go:302-310 | a token of nothing but asterisks, inline or named, is accepted exactly from 24 of them on |
| ConfigChanges.RepeatedPortAccepted | cmd/authserver/config.go:259-270 | any forward that passes on its own can be added to an accepted configuration under a port already taken |
| ConfigChanges.SharedInlineIDIff | cmd/authserver/config.go:359-364 | two checked forwards share an inline rule id exactly if they have the same port and inline rules of one kind at the same place |
| Basics.JoinColonInjective | cmd/authserver/config.go:359-364 | colon-free fields joined by colons determine the fields and their number |
| Basics.DecimalRoundTrip | cmd/authserver/config.go:359-364 | printing a number in decimal loses nothing |

## Left out

- Sockets, dialling, copying and deadlines of forwarded connections; a connection here ends when its
  handling ends. The read deadline of the client's exchange appears only as whether it read a packet.
- Delayed closing of unauthorized connections and all logging; they change no modelled state.
- AES-GCM, SHA-256 and random generation: symbolic sealing and an explicit nonce instead.
- YAML and JSON parsing; a JSON text is malformed or an object with the protocol's fields. Timestamps
  are unbounded integers: an extreme 64-bit timestamp overflows in Go but is outside the window
  either way.
- Glob, CIDR, RFC 3339 and address parsing: arbitrary functions of their arguments.
- Error texts: an error is the absence of success.
- `authClient`, `activeAuthKey`, the client's own configuration checks, service modes and the SLS logger.
- Network.SessionAuthorizesOnce: assumes fresh server nonces; the code takes freshness from 32 random bytes.
- Network.TokenConnectionHasSession: assumes fresh server nonces and that the configured keys are secret; with a
  leaked key ForwardSafety.ConnectionsJustified is what remains.
- Network.RedemptionAgreement: agreement is on the source address the server saw; the sealed messages carry
  no address, so it does not say which host that address belongs to.
- HonestRun.HonestExchangeAuthorizes: assumes that the handler is free when each packet arrives and that
  there is room, because a busy or full server refuses by design.
- A cleaner store does not accept more challenges over a whole run: earlier acceptances occupy later
  capacity, so no such monotonicity is claimed.
