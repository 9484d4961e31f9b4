# Device relay server: verified models

Dafny models of the parts of the Agent Remote server where a wrong step is hard to see, with proofs
of what those parts promise. `dafny verify dfyconfig.toml` checks everything.

**The device relay.** A device and its proxy first exchange public-key pins through a short-lived
record (`RelayExchange`, `RelayStores`), each gets a single-use ticket (`RelayTickets`), the gateway
spends the ticket and checks the claims against the database (`RelayGateway`), and the hub pairs the
two websockets and forwards frames under a byte rate (`RelayHub`, `RelayHubObjects`, `TokenBucket`).
A revocation closes a binding in one worker and, by a published message, in all others
(`RelayRevocation`). `RelaySecondLifetime` follows the system past the expiry of an exchange record, and
`RelayTimedStores` shows that calls on the stores with their clocks refine the events of `RelayGateway`;
`RelayClockedRuns`, with the accounts of `RelayLedgers`, puts them together to whole runs. `RelayLifetimes`
says how long an exchange record lives, `RelayAdmission` who gets past the gateway, and `RelayDepartures`
that everybody can leave the hub.
`RelayIdentity` holds the identities, the stored form of ticket claims and the
store keys. Every section under a lock and every Lua script is one step; time-outs, wake-ups, expiry
and message delivery or loss are steps of their own, so the theorems range over all interleavings.

**Beside it.** The normaliser of public origins (`CanonicalOrigin`) with a grammar of what it accepts
(`OriginGrammar`), the resolution of bearer tokens
(`DeviceTokens`) and of device credentials (`DeviceCredentials`), the constraints on deployment
attempts (`AttemptChain`), the migration that lets a device rebind (`RebindMigration`), and the
fixpoint and the parameter check of the docstring checker (`DocstringCheck`).

Code that updates state in place is modelled by classes and methods whose contracts tie the new state
to a step function; the theorems are about runs of those step functions. `Wrappers`, `Whitespace` and
`Digits` hold helpers.

## Findings

Where a promise fails, the model follows the code, a lemma names failing inputs, and the exact
condition is proved.

- A connect makes `set_result` raise on a completed future, before the clean-up block is entered, and
  its endpoint then stays in the table until its binding is revoked. It happens exactly when no connect
  of its role is stored while a stored connect of the other role has already been given an earlier
  connect of this role (`RelayHub.CrashExactly`). The first time on a binding this means that a role
  came back while its old partner was still there (`RelayHub.FirstCrashExactly`; a run is in
  `RelayHub.ReconnectLeaks`). The leak spreads: until the revocation every connect of the leaked role is
  a duplicate, and a connect of the other role crashes as well unless its own role is stored
  (`RelayHub.LeakBlocksBinding`, `RelayHub.LeakSpreads`).
- Store and gateway exclude that crash while the exchange record lives
  (`RelayGateway.NoCrashWithoutExpiry`, and `RelayClockedRuns.ClockedRunsNeverCrash` for the stores with
  their clocks), but not after it has expired: `RelaySecondLifetime.ExpiredRunLeaks`
  is a whole run from the empty system, and `RelayGateway.EntryCrashesExactly` says when an admitted
  ticket crashes.
- The Redis script renews the record's lifetime with every accepted call, possibly to an earlier
  deadline, while the in-memory store fixes it at the first registration. They then answer differently
  (`RelayStores.ShorterRenewalDiverges`); `RelayStores.StoresAgreeExactly` says for whole runs exactly
  when they answer alike. They also settle on different candidate contexts (`RelayStores.ContextsDiffer`).
- The in-memory ticket store refuses a hash whose earlier ticket has expired unconsumed; Redis accepts
  it (`RelayTickets.LeftoverDiverges`, exactly when in `RelayTickets.StoresAgreeExactly`).
- A revocation of a generation below 1 is closed locally, but its message is skipped by the other
  workers (`RelayRevocation.PublishedIsUnderstood`). The session services start generations at 1 and only
  increment them (services/device_sessions.py:212, 415 and 1303), so their calls do not reach this case.
- A message whose session is a boolean, number, list or object, or whose session is a UUID and whose
  generation is infinite, raises outside the caught kinds and costs the subscription
  (`RelayRevocation.ReconnectExactly`, `RelayRevocation.BadMessagesLoseSubscription`).
- The constraints on deployment attempts admit two attempts that succeed each other
  (`AttemptChain.ConstraintsAdmitCycle`). Inserts, deletes and updates of single rows cannot form such
  a cycle, except for an update that rewires a predecessor within its target: one that the constraints
  accept always destroys the target's chain (`AttemptChain.UpdateKeepsChainsExactly`, for whole runs
  `AttemptChain.ChainedThroughoutExactly`, an input in `AttemptChain.RewiringMakesCycle`). The numbers
  need not grow along the chain (`AttemptChain.NumbersNeedNotGrow`).
- A documented starred parameter that is called `self` or `cls` makes the docstring checker raise
  KeyError (`DocstringCheck.StarredSelfFails`; exactly when in `DocstringCheck.CheckParameters`).

## Model

| member | source | states |
|---|---|---|
| RelayIdentity.UuidRoundTrip | src/agent_remote_server/device_control/relay_store.py:233-268 | the text of every 128-bit UUID parses back to that UUID |
| RelayIdentity.OtherForms | src/agent_remote_server/device_control/relay_store.py:257-265 | the URN form, the form in braces and the form without hyphens of every UUID parse to it |
| RelayIdentity.ClaimsRoundTrip | src/agent_remote_server/device_control/relay_store.py:233-268 | whatever claims are issued, decoding their stored form gives exactly those claims |
| RelayIdentity.ExchangeKeyIdentifiesRelay | src/agent_remote_server/device_control/relay_store.py:277-286 | two bindings get the same exchange key if and only if they agree on device session and generation |
| RelayIdentity.TicketKeyInjective | src/agent_remote_server/device_control/relay_store.py:288-295 | different token hashes never share a ticket key |
| RelayIdentity.KeysNeverCollide | src/agent_remote_server/device_control/relay_store.py:277-295 | no exchange key is a ticket key |
| RelayExchange.ReplyExact | src/agent_remote_server/device_control/relay_store.py:125-149 | every reply on a live record is determined by the earlier calls alone: mismatch against the role's first key, waiting until the other role has called, already issued once the role has completed, otherwise ready with the peer's first key and the settled candidate |
| RelayExchange.ReplyFromHistory | src/agent_remote_server/device_control/relay_store.py:336-360 | a call on a store of many keys is answered from the calls on its own key since that key's record was last created, and from nothing else |
| RelayExchange.RecordAgreement | src/agent_remote_server/device_control/relay_store.py:125-149 | two ready replies on one record go to different roles, carry one context, and each names the key that the other call presented |
| RelayExchange.OneShotAgreement | src/agent_remote_server/device_control/relay_store.py:125-149 | over any calls on any keys, with expiry, two ready replies within one record lifetime go to different roles, carry the same context and exchange exactly their two keys; so a role is ready at most once |
| RelayExchange.ContextWasOffered | src/agent_remote_server/device_control/relay_store.py:338-360 | the context of a ready reply was offered by some call on the same key |
| RelayExchange.PinsNeverChange | src/agent_remote_server/device_control/relay_store.py:345-348 | after an accepted call of a role, a later call of that role in the same lifetime is refused as a mismatch if and only if it presents another key |
| RelayLifetimes.MemoryLifetime | src/agent_remote_server/device_control/relay_store.py:338-344 | in memory a call finds its record alive if and only if it comes before the instant of the creating call plus the lifetime which that call asked for |
| RelayLifetimes.RedisLifetime | src/agent_remote_server/device_control/relay_store.py:133-136 | in Redis, if and only if it comes before the instant of the last accepted call on the key plus the lifetime which that one asked for |
| RelayLifetimes.LapsedWaits | src/agent_remote_server/device_control/relay_store.py:342-352 | a call that finds no live record waits, whatever it presents |
| RelayLifetimes.SecondCallInTime | src/agent_remote_server/device_control/relay_store.py:125-149 | of two calls by the two roles the second is ready if and only if it comes before the end of the lifetime the first asked for, in either store |
| RelayStores.InMemoryDeviceRelayStore.Exchange | src/agent_remote_server/device_control/relay_store.py:315-360 | the dictionary store's reply and whole new state are those of the common exchange step, with the first registrant's candidate and a lifetime fixed at creation |
| RelayStores.RunExchangeScript | src/agent_remote_server/device_control/relay_store.py:125-149 | the script's reads and writes of single hash fields amount to one exchange step on the record that the hash encodes |
| RelayStores.RedisDeviceRelayStore.Exchange | src/agent_remote_server/device_control/relay_store.py:166-215 | the script at one key: an expired hash counts as absent, every accepted call renews the lifetime, all other keys stay |
| RelayStores.KeyedStepMirrors | src/agent_remote_server/device_control/relay_store.py:166-215 | behind its key strings Redis gives the same replies as the specification store keyed by relay binding, and keeps mirroring it |
| RelayStores.FieldsDistinct | src/agent_remote_server/device_control/relay_store.py:126-148 | the field names of a record never clash, whatever the role |
| RelayStores.SimulationStep | src/agent_remote_server/device_control/relay_store.py:125-149 | after any calls that were harmless to the agreement, the stores answer the next one alike up to the chosen context if and only if it finds the record alive in both or in neither, or one that makes it wait |
| RelayStores.StoresAgreeExactly | src/agent_remote_server/device_control/relay_store.py:125-360 | all replies of a run over many keys agree up to the chosen context if and only if every call finds its record alive in both stores or in neither, or one that makes it wait anyway |
| RelayStores.Simulation | src/agent_remote_server/device_control/relay_store.py:338-360 | in every run over many keys in which both stores see the same records alive, each call gets the same status, mismatch and peer key from both |
| RelayStores.TtlsKeepStoresInSync | src/agent_remote_server/device_control/relay_store.py:336-344 | if no call meets an elapsed first-registration lifetime or sets an earlier deadline, the stores agree on liveness throughout |
| RelayStores.ShorterRenewalDiverges | src/agent_remote_server/device_control/relay_store.py:135-136 | a renewal with a shorter lifetime: memory answers ready where Redis answers waiting |
| RelayStores.ContextsDiffer | src/agent_remote_server/device_control/relay_store.py:142-146 | a run in which the first completer's and the first registrant's candidate differ |
| RelayTickets.InMemoryTickets.IssueTicket | src/agent_remote_server/device_control/relay_store.py:362-384 | any stored ticket of the hash, expired or not, is a collision and nothing changes; otherwise exactly this ticket is added |
| RelayTickets.InMemoryTickets.ConsumeTicket | src/agent_remote_server/device_control/relay_store.py:386-398 | the hash is empty afterwards in every case, and the claims are returned only within the lifetime |
| RelayTickets.RedisTickets.IssueTicket | src/agent_remote_server/device_control/relay_store.py:217-242 | under the key strings and in encoded form, the keys hold exactly the tickets of the abstract store after the issue; only an unexpired ticket is a collision |
| RelayTickets.RedisTickets.ConsumeTicket | src/agent_remote_server/device_control/relay_store.py:244-268 | get-and-delete followed by decoding returns what the abstract store returns, and the keys keep holding exactly its tickets |
| RelayTickets.ConsumeMatchesIssue | src/agent_remote_server/device_control/relay_store.py:233-268 | in every run a successful consume returns exactly the claims of an earlier successful issue of its hash, within that issue's lifetime and with no consume of the hash between |
| RelayTickets.MatchesAreDistinct | src/agent_remote_server/device_control/relay_store.py:386-398 | two successful consumes never match the same issue |
| RelayTickets.TicketRepliesExactly | src/agent_remote_server/device_control/relay_store.py:217-398 | a consume succeeds if and only if an issue of its hash is unconsumed and within its lifetime; an issue collides if and only if one is unconsumed, which in Redis must not have expired |
| RelayTickets.StoresAgreeExactly | src/agent_remote_server/device_control/relay_store.py:362-398 | the two ticket stores give the same replies in a run if and only if no issue meets an expired unconsumed ticket of its hash |
| RelayTickets.LeftoverDiverges | src/agent_remote_server/device_control/relay_store.py:379-380 | two issues of one hash, the first ticket expired between them: memory collides, Redis issues |
| RelayHub.StepKeepsInv | src/agent_remote_server/device_control/relay_hub.py:86-146 | every step of every interleaving keeps: stored endpoints are live and stand under their own binding and role, no empty pair, resolved futures cross-linked, unresolved waiters stored |
| RelayHub.PairingSafety | src/agent_remote_server/device_control/relay_hub.py:86-96 | in every run a resolved future holds the websocket of the opposite role of the same binding, and unless its own connect crashed the two futures hold each other |
| RelayHub.NothingLeaks | src/agent_remote_server/device_control/relay_hub.py:98-146 | in every run a stored endpoint belongs to a connect that is running or crashed; once all connects of a binding have returned the binding has no entry |
| RelayHub.WaitersAreStored | src/agent_remote_server/device_control/relay_hub.py:86-101 | whoever still waits for a peer can be found by it |
| RelayHub.CrashExactly | src/agent_remote_server/device_control/relay_hub.py:88-96 | in every reachable state connect hits a completed future if and only if no connect of its role is stored and a stored connect of the other role already holds an earlier connect of this role |
| RelayHub.FirstCrashExactly | src/agent_remote_server/device_control/relay_hub.py:88-96 | on a binding without earlier crashes this is the case if and only if an earlier connect of its role has left the table while the partner it was paired with is still in it |
| RelayHub.LeakBlocksBinding | src/agent_remote_server/device_control/relay_hub.py:88-96 | over every run without the binding's revocation, a leaked endpoint makes each further connect of its role a duplicate and each of the other role a crash, unless that role is stored itself |
| RelayHub.LeakSpreads | src/agent_remote_server/device_control/relay_hub.py:88-96 | after the leak a device crashes although no connect of its role has left a partner behind |
| RelayHub.OneConnectPerRoleNeverCrashes | src/agent_remote_server/device_control/relay_hub.py:88-96 | if each role connects at most once on a binding, no connect on it hits a completed future, whatever happens elsewhere |
| RelayHub.ReconnectLeaks | src/agent_remote_server/device_control/relay_hub.py:88-96 | a run in which everybody has left and the crashed connect of a second proxy is still stored |
| RelayHub.CrashedStaysStored | src/agent_remote_server/device_control/relay_hub.py:318-331 | no step but the revocation of its own binding removes a crashed connect's entry |
| RelayHub.RemoveEvictsOnlyItself | src/agent_remote_server/device_control/relay_hub.py:325-331 | removal takes out this endpoint and nobody else; a stale removal changes nothing |
| RelayDepartures.EveryRunningConnectCanLeave | src/agent_remote_server/device_control/relay_hub.py:98-146 | from every reachable state each running connect has steps that return it and take it, and nobody else, out of the table |
| RelayDepartures.TimeoutFreesThePlace | src/agent_remote_server/device_control/relay_hub.py:101-146 | a connect that times out waiting has returned, is no longer stored, and its role can register again |
| RelayDepartures.RevokedLeaves | src/agent_remote_server/device_control/relay_hub.py:120-146 | a revoked connect that waits leaves without touching whoever has come since |
| RelayDepartures.EveryRunCanBeDrained | src/agent_remote_server/device_control/relay_hub.py:98-146 | every reachable state can be drained by departures alone; then nobody runs and exactly the stored endpoints of crashed connects are left |
| RelayHub.RevokeTakesEffect | src/agent_remote_server/device_control/relay_hub.py:165-176 | after closing, no endpoint registered so far on the binding is stored or waiting |
| RelayHub.RevokedStays | src/agent_remote_server/device_control/relay_hub.py:165-176 | and no later step brings one of them back |
| RelayHub.RevokeIdempotent | src/agent_remote_server/device_control/relay_hub.py:165-182 | closing twice is closing once |
| RelayHub.RevokesCommute | src/agent_remote_server/device_control/relay_hub.py:165-182 | closings of different bindings commute |
| RelayHubObjects.Complete | src/agent_remote_server/device_control/relay_hub.py:93-96 | the new endpoint always gets its peer's websocket; the stored one is completed only if it was pending, and otherwise the call fails and keeps the old result |
| RelayHubObjects.DeviceRelayHub.Register | src/agent_remote_server/device_control/relay_hub.py:81-96 | the lock section, with endpoint objects whose futures are completed in place, is exactly the connect step of the state machine, in outcome and state |
| RelayHubObjects.DeviceRelayHub.Remove | src/agent_remote_server/device_control/relay_hub.py:318-331 | the identity check and the two deletions are exactly the removal step |
| RelayHubObjects.DeviceRelayHub.CloseBinding | src/agent_remote_server/device_control/relay_hub.py:165-176 | popping the pair and failing its unresolved futures one by one is exactly the revocation step |
| RelayHubObjects.RunSubscriber | src/agent_remote_server/device_control/relay_revocation.py:99-137 | handling a sequence of messages closes exactly the decoded bindings in order, and reconnects once for each message of the shape that raises outside the caught kinds |
| RelayRevocation.PublishedIsUnderstood | src/agent_remote_server/device_control/relay_revocation.py:67-123 | a published revocation is decoded to its own binding if the generation is positive and skipped otherwise |
| RelayRevocation.RevocationExactly | src/agent_remote_server/device_control/relay_revocation.py:115-123 | a message closes a binding if and only if its session is text of the binding's UUID and its generation is the binding's, as a number, a float less than one above it, text, or true for 1, and is positive |
| RelayRevocation.ReconnectExactly | src/agent_remote_server/device_control/relay_revocation.py:115-131 | a message costs the subscription if and only if its session is present but neither null nor text, or is the text of a UUID while the generation is infinite |
| RelayRevocation.BadMessagesLoseSubscription | src/agent_remote_server/device_control/relay_revocation.py:115-131 | a boolean session and an infinite generation, each in an otherwise proper message, cost the subscription |
| RelayRevocation.DeliveryOrderIrrelevant | src/agent_remote_server/device_control/relay_hub.py:165-192 | closing bindings in any order and with any repetition equals closing their set at once |
| RelayRevocation.HandlingTerminates | src/agent_remote_server/device_control/relay_revocation.py:99-137 | without new local closings, however a run interleaves, each message that was undelivered is handled once, lost once or still undelivered |
| RelayRevocation.WorkersRunOwnSteps | src/agent_remote_server/device_control/relay_hub.py:148-192 | in every run of the cluster each worker's hub runs exactly its own steps: its local ones, its own closings and one closing for each revocation that it handles |
| RelayRevocation.RevocationConverges | src/agent_remote_server/device_control/relay_hub.py:148-192 | a queued revocation, once its worker has handled enough messages without loss, leaves every endpoint registered there before on the binding neither stored nor waiting, whatever the whole cluster did meanwhile |
| RelayRevocation.RevokedForever | src/agent_remote_server/device_control/relay_hub.py:148-192 | and that stays so over every continuation |
| RelayRevocation.ClosingReachesEveryWorker | src/agent_remote_server/device_control/relay_hub.py:148-182 | a closing takes effect at once where it is called and is queued for every worker |
| RelayGateway.CurrentClaimsShareBinding | src/agent_remote_server/api/device_sessions.py:711-775 | the hub pairs by session and generation only, yet two claims of one session that are current against the same rows agree on the entire binding |
| RelayAdmission.AdmittedEntersExactly | src/agent_remote_server/api/device_sessions.py:703-775 | in every run an admitted ticket connects under its own binding and role if and only if no row refuses it: session, device, node, tool session and credential, each with its reasons; otherwise it is lost and the hub stays |
| RelayAdmission.ClockedEntersExactly | src/agent_remote_server/api/device_sessions.py:703-775 | the same for every run with the clocked stores |
| RelayAdmission.EveryEndpointWasLetIn | src/agent_remote_server/api/device_sessions.py:692-708 | in every run with the clocked stores each endpoint of the hub was let in by an entry of its own binding and role that no row refused at that instant |
| RelayGateway.EventKeepsInv | src/agent_remote_server/api/device_sessions.py:692-708 | every event of store, tickets, gateway and hub keeps: tickets, admissions and hub endpoints each belong to their own ready reply, and within one record lifetime each role has at most one |
| RelayGateway.EntriesAreEarned | src/agent_remote_server/api/device_sessions.py:692-708 | in every run any two hub endpoints stem from different ready replies of their own binding and role, came in under that binding's path, and are of different record lifetimes if they share binding and role |
| RelayGateway.NoCrashWithoutExpiry | src/agent_remote_server/api/device_sessions.py:692-708 | in every run in which a binding's record has not expired, no connect on that binding has hit a completed future |
| RelayGateway.EntryCrashesExactly | src/agent_remote_server/api/device_sessions.py:692-708 | the entry of an admitted, current ticket crashes if and only if no connect of its role is stored and a stored peer holds an endpoint that the role earned in another lifetime of the exchange record; without earlier crashes, if and only if such an endpoint has left and its partner outlived it |
| RelaySecondLifetime.ExpiredRunLeaks | src/agent_remote_server/services/device_relay.py:177-232 | a run from the empty system: both register, get tickets, pair and forward, the proxy leaves, the record expires, both register again; the proxy's second connect crashes and is still stored when everybody is gone |
| RelaySecondLifetime.SecondLifetimeCrashes | src/agent_remote_server/services/device_relay.py:177-232 | so it goes in any world that meets the invariant, whose record is gone while a stored peer still holds a departed connect of the role: both roles can register again, and the ticket of the role crashes and leaks |
| RelayTimedStores.ExchangeRefines | src/agent_remote_server/device_control/relay_store.py:125-149 | an exchange call on a clocked store, under either policy and at any instant, is the event system's exchange, preceded by the record's expiry event if it has lapsed; only a ready reply adds a grant, its own |
| RelayTimedStores.TicketRefines | src/agent_remote_server/device_control/relay_store.py:362-398 | issuing and consuming at either clocked ticket store is the event system's, preceded or replaced by the ticket's expiry event if it has lapsed; the reply decides where the grant goes |
| RelayClockedRuns.ClockedRunsAreRuns | src/agent_remote_server/api/device_sessions.py:692-708 | every run of clocked exchange store, clocked ticket store, gateway and hub is matched by a run of the event system with the same hub, records and tickets, in which a binding's record expires only if an exchange call on it found it lapsed |
| RelayClockedRuns.ClockedRunsNeverCrash | src/agent_remote_server/api/device_sessions.py:692-708 | with clocked stores of either kind, as long as no exchange call on a binding finds its record lapsed, each role enters the hub at most once on it and no connect on it hits a completed future |
| RelayLedgers.LedgerUpdate | src/agent_remote_server/api/device_sessions.py:692-708 | moving one grant changes the claims standing at a stage by exactly that grant's claims |
| TokenBucket.Forward | src/agent_remote_server/device_control/relay_hub.py:194-275 | a frame is cut for rate only if some window of frames ending in it carries more than the burst plus rate times the window's duration, no window of admitted frames does, every other way to end is named with its cause, and the byte count is the sum of the admitted frames |
| TokenBucket.Step | src/agent_remote_server/device_control/relay_hub.py:240-254 | the refilled bucket refuses a frame if and only if some window ending in it exceeds its allowance |
| TokenBucket.LevelExact | src/agent_remote_server/device_control/relay_hub.py:209-254 | what is left in the bucket is always the smallest slack of any window ending now |
| TokenBucket.FirstFrameExactly | src/agent_remote_server/device_control/relay_hub.py:209-254 | a first frame passes if and only if it has at most two seconds' worth of bytes, whenever it comes |
| TokenBucket.CoherentExactly | src/agent_remote_server/config.py:574-575 | the policy is coherent if and only if one idle second refills an empty bucket for every permitted frame |
| TokenBucket.PacedSenderNeverCut | src/agent_remote_server/config.py:574-575 | under the coherent policy a sender that stays within the frame limit and waits out each frame at the nominal rate never exceeds any window |
| CanonicalOrigin.RenderParses | src/agent_remote_server/config.py:59-145 | the canonical text of any parsed origin parses to an origin with the same scheme, host and effective port |
| CanonicalOrigin.CanonicalizeIdempotent | src/agent_remote_server/config.py:47-153 | an accepted address's canonical form is accepted in the same environment and is its own canonical form |
| CanonicalOrigin.CanonicalFormIsCompleteKey | src/agent_remote_server/config.py:59-153 | two accepted addresses, in whatever environments, have equal canonical forms if and only if they agree on scheme, normalised host and effective port |
| OriginGrammar.ParsesExactly | src/agent_remote_server/config.py:47-133 | a text is parsed, as a given origin, if and only if it is written by the grammar: white space around, scheme in any case, host in brackets or bare before dots, port with leading zeros, at most one slash, and none of the forbidden characters |
| OriginGrammar.AddressesExactly | src/agent_remote_server/config.py:92-99 | an IPv4 host is four decimal numbers up to 255 without leading zeros |
| OriginGrammar.NamesExactly | src/agent_remote_server/config.py:101-117 | a name is a dotted row of labels of up to 63 letters, digits and inner hyphens, at most 253 characters in all |
| OriginGrammar.AcceptedExactly | src/agent_remote_server/config.py:134-153 | every parsed https origin is accepted; a parsed http origin if and only if its host is loopback and the environment is one of the five, or the flag is set for the legacy default |
| OriginGrammar.CanonicalText | src/agent_remote_server/config.py:137-145 | the canonical text is scheme, host and port, without the port 80 of http and the port 443 of https and without a slash |
| CanonicalOrigin.HttpOutsideLoopback | src/agent_remote_server/config.py:144-153 | outside the loopback environments every accepted address is https, save the one legacy default and only with the flag |
| DeviceTokens.IdentityStore.ResolveToken | src/agent_remote_server/api/deps.py:241-307 | accepts or refuses by the order of checks of the code; the only write is the activity of the accepted token's own device, when allowed and at least a minute old |
| DeviceTokens.DecidedExactly | src/agent_remote_server/api/deps.py:261-307 | a call is accepted if and only if its token is stored, active and not run out, and names no device or an active one; each error is given under exactly its own condition |
| DeviceTokens.WrittenExactly | src/agent_remote_server/api/deps.py:301-305 | a call writes nothing but the activity of its accepted token's device, and that if and only if it may and the record is missing or 60 seconds old |
| DeviceTokens.RevokedNeverAuthenticates | src/agent_remote_server/api/deps.py:280-285 | over any run a token seen revoked never authenticates while other code does not reactivate it |
| DeviceTokens.WritesApart | src/agent_remote_server/api/deps.py:296-305 | in any run in which other code does not move the device's activity back, its i-th and j-th activity writes are at least j - i intervals apart, whatever the clock of the calls does |
| DeviceTokens.WritesAreRateBounded | src/agent_remote_server/api/deps.py:296-305 | in such a run a window of T seconds contains at most floor(T/60) + 1 activity writes of a device |
| DeviceTokens.OwnReadingsKeepActivity | src/agent_remote_server/services/identity.py:774 | if every writer of a device's activity records its own reading of one clock that never goes backwards, no other code moves the activity back, so the bounds hold |
| DeviceTokens.MovedBackWritesTwice | src/agent_remote_server/services/identity.py:774 | when other code moves the record back between two calls, both write at the same instant |
| DeviceTokens.ReadOnlyObservesOnly | src/agent_remote_server/api/deps.py:241-307 | without permission to touch, every call gets the same answer or the same error in every state and changes nothing |
| DeviceCredentials.CredentialStore.Resolve | src/agent_remote_server/api/deps.py:421-522 | outcome and every written field for each of the branches, in the code's order of checks |
| DeviceCredentials.ResolvedExactly | src/agent_remote_server/api/deps.py:433-488 | a call succeeds if and only if its credential is in force, its device is there, of the same user, active and of the same generation, the origin fits and the user is active; each error is given under exactly its own condition |
| DeviceCredentials.CredentialWrittenExactly | src/agent_remote_server/api/deps.py:453-522 | what every call leaves in each field of the presented credential |
| DeviceCredentials.DeviceWrittenExactly | src/agent_remote_server/api/deps.py:490-522 | a success binds the origin and, if touching and due, the activity of its own device; every other device and credential stays |
| DeviceCredentials.RunIsRespectful | src/agent_remote_server/api/deps.py:447-472 | over any stretch of a run in which other code does so too, an inactive credential stays inactive and a set origin stays what it is |
| DeviceCredentials.OneOriginPerDevice | src/agent_remote_server/api/deps.py:473-495 | any two successful authentications of one device ran under the same public origin, if other code did not change it between them |
| DeviceCredentials.ClearedOriginIsRebound | src/agent_remote_server/api/deps.py:473-495 | when other code clears the origin between two calls, they succeed under different origins |
| DeviceCredentials.OnlySuccessBindsOrigin | src/agent_remote_server/api/deps.py:447-495 | a call changes a device's origin if and only if it succeeds for that device and none was set; a refused call changes nothing except ending an active credential that has expired or lost its device |
| DeviceCredentials.InactiveNeverAuthenticates | src/agent_remote_server/api/deps.py:447-452 | a credential seen inactive never authenticates again while other code does not reactivate it |
| AttemptChain.AttemptsFormOneChain | migrations/versions/0049_skill_deployment_attempts.py:33-69 | in every table reached by inserts, deletes and updates of single rows, none of which is accepted and rewires a predecessor within its target, the attempts of each target are one path without fork or cycle that starts at the row with number 1 |
| AttemptChain.ChainedThroughoutExactly | migrations/versions/0049_skill_deployment_attempts.py:33-69 | a run of single-row statements keeps every target's chain throughout if and only if none of its accepted statements rewires |
| AttemptChain.UpdateKeepsChainsExactly | migrations/versions/0049_skill_deployment_attempts.py:33-69 | an update of any columns of one row that the constraints accept keeps all chains if and only if it moves the row to another target or leaves its predecessor alone |
| AttemptChain.ReachableExactlyChained | migrations/versions/0049_skill_deployment_attempts.py:33-69 | among the tables that meet the constraints, the ones that single-row statements reach without rewiring are exactly the chained ones |
| AttemptChain.RulesHold | migrations/versions/0049_skill_deployment_attempts.py:46-86 | in every table that any statements reach, each attempt obeys the digest, retry, error, number and target rules |
| AttemptChain.InsertionExactly | migrations/versions/0049_skill_deployment_attempts.py:34-86 | an insertion goes through if and only if the row obeys its rules, its target is declared, its number is new to the target, and its predecessor, if any, is an attempt of the target that nothing succeeds yet |
| AttemptChain.DeletionExactly | migrations/versions/0049_skill_deployment_attempts.py:55-64 | an attempt can be deleted if and only if no other one succeeds it |
| AttemptChain.DropExactly | migrations/versions/0049_skill_deployment_attempts.py:46-54 | a target can be dropped if and only if it has no attempts |
| AttemptChain.NumbersAlongChain | migrations/versions/0049_skill_deployment_attempts.py:36-44 | no two attempts along a chain of a reachable table share a number or a predecessor |
| AttemptChain.ConstraintsAdmitCycle | migrations/versions/0049_skill_deployment_attempts.py:60-69 | the constraints alone are met by two attempts that succeed each other |
| AttemptChain.RewiringMakesCycle | migrations/versions/0049_skill_deployment_attempts.py:39-69 | an accepted update of one predecessor turns the chain 1, 2, 3 into a cycle of 2 and 3 |
| AttemptChain.NumbersNeedNotGrow | migrations/versions/0049_skill_deployment_attempts.py:36-69 | a reachable chain whose numbers run 1, 5, 3 |
| RebindMigration.RowNumberOne | migrations/versions/0016_device_binding_rebind.py:52-76 | the row numbered one of a partition is its greatest in (created_at, id) |
| RebindMigration.DeviceSessions.Upgrade | migrations/versions/0016_device_binding_rebind.py:20-76 | the two UPDATE statements in order: every missing reference filled, every live row but its device's newest stopped as rebound with its first stop time kept |
| RebindMigration.DeviceSessions.Downgrade | migrations/versions/0016_device_binding_rebind.py:94-132 | the two DELETE statements in order leave exactly the newest row of every tool session |
| RebindMigration.UpgradedRow | migrations/versions/0016_device_binding_rebind.py:31-76 | each field of every upgraded row: the reference filled in; rows that are terminal or latest of their device unchanged; the others stopped as rebound, without lease and lock, at their earlier stop time or now |
| RebindMigration.DowngradedRow | migrations/versions/0016_device_binding_rebind.py:101-132 | a row survives if and only if it has a tool session of which no row is later by creation time, then id, and loses only the reference |
| RebindMigration.UpgradeMeetsConstraints | migrations/versions/0016_device_binding_rebind.py:77-91 | from every table that meets the earlier constraints, upgrade reaches one that satisfies both partial unique indexes and has every reference set |
| RebindMigration.UpgradeKeepsExactlyTheNewest | migrations/versions/0016_device_binding_rebind.py:52-76 | of each device exactly the newest live row, if there is one, stays live; rows already terminal keep status, stop and lock fields |
| RebindMigration.ImmediateDowngradeDeletesNothing | migrations/versions/0016_device_binding_rebind.py:94-132 | a downgrade right after an upgrade deletes no row |
| RebindMigration.DowngradeKeepsExactlyTheNewest | migrations/versions/0016_device_binding_rebind.py:101-119 | from any state each tool session keeps exactly its newest row, and the earlier unique constraint holds again |
| DocstringCheck.PydanticModelNames | scripts/check_docstrings.py:101-120 | the repeated passes end, and a name is in the result if and only if a finite chain of base names leads from it to BaseModel or BaseSettings |
| DocstringCheck.ModelsExactly | scripts/check_docstrings.py:84-120 | a class is a model if and only if it is called like a root or some class of its name has a base whose last name, as a name, an attribute or under subscripts, is a model's |
| DocstringCheck.OrderIrrelevant | scripts/check_docstrings.py:109-120 | the order and repetition of the classes do not matter |
| DocstringCheck.FunctionParameters | scripts/check_docstrings.py:229-247 | exactly the named parameters that are not receivers, and the starred ones whatever they are called |
| DocstringCheck.ArgumentsExactly | scripts/check_docstrings.py:342-352 | the annotation compared with is that of the last argument of the name |
| DocstringCheck.FirstTypeIsFirst | scripts/check_docstrings.py:362-364 | the documented type compared is that of the name's first entry |
| DocstringCheck.ReceiversLeftOut | scripts/check_docstrings.py:242 | among named arguments the parameters are those not called self or cls |
| DocstringCheck.CheckParameters | scripts/check_docstrings.py:339-383 | KeyError if and only if a starred parameter called like a receiver is documented; otherwise an error is reported if and only if it is justified by the documentation and the signature |
| DocstringCheck.StarredSelfFails | scripts/check_docstrings.py:241-361 | a documented starred parameter named self is such a case |
| DocstringCheck.NoErrorExactlyWhenDocumented | scripts/check_docstrings.py:339-383 | nothing is reported if and only if the documented names are free of repetition, equal the parameters as a set, and every documented type is the annotation's text |

## Left out

- WebSocket, asyncio and Redis transport, close codes and logging: only lock sections, future completion, time-outs and message delivery or loss are kept.
- Task cancellation, in particular a connect cancelled while it waits for the hub's lock or for the lock of its own removal.
- RelayDepartures.EveryRunningConnectCanLeave: that a running connect always can leave is proved; that it eventually does depends on the transport and the scheduler and is not stated.
- RelayStores.RedisDeviceRelayStore.Exchange: a key is alive strictly before its deadline; Redis's own clock granularity is not modelled.
- RelayStores.TtlsKeepStoresInSync: a sufficient condition on lifetimes only; the exact one is in terms of liveness, in RelayStores.SimulationStep.
- RelayTickets.RedisTickets.IssueTicket: a lifetime below one second, which Redis refuses with an error, is treated like any other.
- RelayIdentity.ClaimsRoundTrip: JSON syntax is abstracted to named members, and a stored role other than the two, which issue_ticket never writes, is refused by the model's decoder while the code passes it on.
- RelayIdentity.UuidRoundTrip: the parser follows UUID() for urn, brace and hyphenated text and for the white space, sign, prefix and underscores that int() accepts in base 16; non-ASCII digits are not modelled.
- RelayRevocation.RevocationExactly: int() of text strips white space and takes a sign and underscores between digits as in Python; non-ASCII digits and the limit of 4300 digits are not modelled.
- RelayRevocation.ReconnectExactly: a failing connection, a failing handler and JSON nested too deeply, which also cost the subscription, are not messages of this model, and non-ASCII digits in the session text are not modelled.
- RelayRevocation.ClosingReachesEveryWorker: closing and publishing are one atomic step; a failing publish appears as lost messages.
- RelayRevocation.HandlingTerminates: messages that arrive while a subscriber reconnects are lost; they appear as loss steps.
- RelayGateway.NoCrashWithoutExpiry: one worker's hub; DeviceRelayService and the session services appear only as events that issue at most one ticket per ready reply and as arbitrary database rows.
- RelayGateway.ClaimsAreCurrent: the two clock readings of the check are one instant.
- TokenBucket.Forward: reals instead of floats, and clock readings that never go backwards.
- CanonicalOrigin.CanonicalizeIdempotent: IDNA encoding of non-ASCII hosts and IPv6 text are given functions; IPv6 text is assumed to be lower-case hexadecimal with a colon and to parse back, and the NFKC check inside urlsplit is not modelled. The texts of the ValueErrors are not distinguished.
- DeviceTokens.IdentityStore.ResolveToken: token hashing, HTTP status codes and naive time stamps are left out; the transaction is one step.
- DeviceTokens.WritesApart: needs that other code never forgets or moves back a device's activity, which holds under a clock that never goes backwards (DeviceTokens.OwnReadingsKeepActivity); services/identity.py:774 writes its own reading, so a regressing clock there breaks it (DeviceTokens.MovedBackWritesTwice). The clock of the calls themselves is free.
- DeviceCredentials.RunIsRespectful: needs that other services do not reactivate a credential or change a set origin; their code is not part of this model.
- AttemptChain.AttemptsFormOneChain: other columns, the retry table and changes of primary keys are left out, and so are multi-row statements, which can build the cycle of AttemptChain.ConstraintsAdmitCycle at once.
- RebindMigration.DeviceSessions.Upgrade: column, index and foreign-key changes appear only as the constraints they state.
- DocstringCheck.CheckParameters: messages are a set of errors (their order, line numbers and multiplicity are left out), and regular expressions and syntax trees are replaced by the names they yield.
- The generic ego-browser relay, the skill, session, node and port-forward routers, Pydantic field ranges and the remaining migrations: they would add easy members or rest on services that are not part of this model.
