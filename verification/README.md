# videoCallNew: matchmaking, signalling relay and browser call session

This project models the three stateful pieces of a random one-to-one video
chat service and proves properties of the model.

- The **matchmaker** (`handleMatchmaking`, `getMatchmakingStats`) keeps a
  FIFO queue of waiting socket ids (`waitingUsers`) and a pair table
  (`activePairs`). It turns `join-queue`, `next`, `leave` and `disconnect`
  into `matched` and `partner-left` events.
- The **socket server** (`setupSocketHandlers`) keeps its own registry of
  sockets by id. It relays `signal` messages to a target id as
  `{fromId, signal}` envelopes and passes the control events to the
  matchmaker as forced or non-forced calls.
- The **browser session** (the `VideoChat` component) holds the call
  status, the active-mode flag, the partner id, the camera stream and the
  `RTCPeerConnection`. Its handlers react to server events and to the
  Start, Next and Stop buttons.

Files:

- `protocol.dfy` holds the shared vocabulary:
  - peer ids and opaque signal payloads;
  - server events, and `Emission` (one `emit` to one socket id);
  - `Io`, the Socket.IO server object, with its table of sockets and each
    socket's `connected` flag (`registry`), and a log of every emit
    (`sent`).
- `matchmaking.dfy` holds the `Matchmaker` class.
  - `HandleMatchmaking` follows the source step by step, including the
    recursive retry on a stale queue head.
  - Its contract ties the new state to `Handle`, a function of the old
    state built from `Teardown` (the forced branch), `Prepared` (forced
    branch plus duplicate filter) and `Match` (the matching step).
- `matchmaking_properties.dfy` proves what `Handle` guarantees:
  - FIFO choice in closed form;
  - the queue and pair-table invariants;
  - the partner hand-off on `next`, `leave` and `disconnect`;
  - the behaviours the code has but a reader might not expect.
- `relay.dfy` holds the `SocketServer` class and the `Route` function for
  one `signal` message.
- `video_chat.dfy` holds the `Session` class for the component's refs and
  state. Every handler is one atomic step. Every handler preserves the
  invariant `Valid`:
  - a held stream has its tracks on the current peer connection;
  - an idle session is not in active mode;
  - a connected session knows its partner.
- `scenarios.dfy` holds end-to-end runs over fresh objects with two peers.

The transport and WebRTC are modelled as follows:

- The transport's table of sockets (`io.sockets.sockets`) is environment
  state: the matchmaker only reads it. It is distinct from the server's
  own `sockets` registry, which the relay consults.
- A WebRTC peer connection is the record of what was applied to it. The
  SDP text that `createOffer`/`createAnswer` produce, and the outcome of
  `getUserMedia` (`granted`), are parameters.

Behaviours of the code that a reader might not expect:

- `disconnect` and `leave` run the same forced call as `next`. After
  releasing the partner, that call goes on to match the caller, so the
  leaving id is re-queued or even re-paired (`CallerEndsPairedOrQueued`,
  `DepartedPeerIsMatchedAgain`).
- `next` with no other connected waiter re-pairs the caller with the
  partner it just left (`NextRepairsWithSamePartner`).
- ICE candidates that arrive before the remote description are passed to
  `addIceCandidate` at once.
- After `partner-left` an active session sends `join-queue` at once.
- A failed `getUserMedia` aborts the handler. The status stays as the
  handler had set it ("connected").

## Model

| member | source | states |
|---|---|---|
| Matchmaking.Without | server/matchmaking.js:37 | the filter keeps exactly the entries other than the caller, never lengthens the queue, and is the identity when the caller is absent |
| Matchmaking.WithoutCounts | server/matchmaking.js:37 | the filter removes every occurrence of the caller and keeps every other id exactly as often as it occurred |
| Matchmaking.WithoutConcat | server/matchmaking.js:37 | the filter distributes over concatenation, so the kept entries stay in their original order |
| Matchmaking.WithoutKeepsDistinct | server/matchmaking.js:33-37 | filtering a duplicate-free queue leaves it duplicate-free |
| Matchmaking.WithoutAppend | server/matchmaking.js:66 | filtering distributes over a push, dropping the pushed id only when it is the one filtered out |
| Matchmaking.TeardownBound | server/matchmaking.js:13-34 | after the forced branch the caller is in neither the queue nor the pair table, and the queue has grown by at most the partner |
| Matchmaking.Teardown | server/matchmaking.js:13-34 | the forced branch as a function of the old state: afterwards the caller is neither paired nor queued, and the log gains at most one event at its end |
| Matchmaking.Prepared | server/matchmaking.js:13-37 | the state after the forced branch and the duplicate filter: the caller is not queued and the log gains at most one event at its end |
| Matchmaking.Match | server/matchmaking.js:45-74 | the matching step with its retry as a function of the state: either the caller ends paired, the queue shorter and exactly two events appended, or the caller waits alone with table and log unchanged |
| Matchmaking.Handle | server/matchmaking.js:11-75 | one whole call as a function of the old state: the log only grows, by at most three events |
| Matchmaking.StaleHeadRetry | server/matchmaking.js:61-67 | after a stale head is shifted off and the caller pushed, the re-entered call filters the caller out again and continues matching on exactly the rest of the queue |
| Matchmaking.FirstConnected | server/matchmaking.js:46-69 | the index of the first queue entry whose socket is found and connected: all entries before it are stale |
| Matchmaking.Matchmaker.constructor | server/matchmaking.js:2-3 | the queue and the pair table start empty |
| Matchmaking.Matchmaker.DropPair | server/matchmaking.js:13-34 | the in-place forced branch produces exactly the `Teardown` of the old state |
| Matchmaking.Matchmaker.HandleMatchmaking | server/matchmaking.js:11-75 | the in-place handler, with its recursive retry, terminates and produces exactly `Handle` of the old state; the retry measure is the number of other queued ids |
| Matchmaking.Matchmaker.GetMatchmakingStats | server/matchmaking.js:80-87 | reports the queue length, half the table size, the queue itself and exactly the table's entries; under symmetry and irreflexivity the pair count is a whole number |
| Matchmaking.PairTableSizeEven | server/matchmaking.js:83 | a symmetric, irreflexive pair table has an even number of entries |
| Matchmaking.PairCount | server/matchmaking.js:83 | a symmetric, irreflexive pair table holds exactly twice as many entries as it has pairs, found by removing one pair at a time |
| MatchmakingProperties.MatchTakesFirstConnected | server/matchmaking.js:45-69 | the retry in closed form: the partner is the first connected entry, the stale prefix is dropped, the rest keeps its order, the pair is inserted both ways and both sides get `matched` with the other's id; with no connected entry the caller waits alone |
| MatchmakingProperties.HandleUnpairedCaller | server/matchmaking.js:36-74 | FIFO for an unpaired caller: after filtering itself out it is matched with the first connected waiter, never itself, or queued alone |
| MatchmakingProperties.FirstConnectedOther | server/matchmaking.js:37-51 | the index in the original queue of the first id other than the caller whose socket is found and connected: every earlier entry is the caller or stale |
| MatchmakingProperties.FilteredSearchAgrees | server/matchmaking.js:37-69 | searching the filtered queue finds the same id as searching the original queue while skipping the caller, and what remains after it is the filtered rest of the original queue |
| MatchmakingProperties.SkippedHead | server/matchmaking.js:47-69 | a head that is not the caller but whose socket is missing or disconnected is passed over by both searches alike |
| MatchmakingProperties.StaleHeadShifts | server/matchmaking.js:47-69 | both searches step over such a stale head: each index is one more than on the tail |
| MatchmakingProperties.SkippedCaller | server/matchmaking.js:37 | a head that is the caller is dropped by the filter and skipped by the search on the original queue alike |
| MatchmakingProperties.WithoutCons | server/matchmaking.js:37 | filtering a queue with a given head filters the head and then the tail |
| MatchmakingProperties.HandleIsFifo | server/matchmaking.js:36-74 | FIFO against the queue as it stood before the call: an unpaired caller is matched with the earliest connected waiter other than itself, the entries after it keep their order, and with no such waiter the caller waits alone |
| MatchmakingProperties.EmptyQueueQueuesCaller | server/matchmaking.js:70-73 | with no one else waiting, an unpaired caller is appended, the table is unchanged and nothing is emitted |
| MatchmakingProperties.PairedJoinIsSkipped | server/matchmaking.js:40-43 | a non-forced call by a paired caller changes no pair, emits nothing, and only filters the caller from the queue |
| MatchmakingProperties.TeardownFacts | server/matchmaking.js:13-34 | the forced branch deletes the caller's entry, and the partner's entry only when the partner socket is found; `partner-left` is sent exactly then; the partner is pushed only when connected and not already waiting |
| MatchmakingProperties.PreparedFacts | server/matchmaking.js:13-37 | after the forced branch and the filter, the caller is not queued, no pair is added or changed, the queue grows by at most one, the log only grows, and duplicate-freedom is kept |
| MatchmakingProperties.DistinctAppend | server/matchmaking.js:25-26 | pushing an id that is not present keeps the queue duplicate-free |
| MatchmakingProperties.CallerWaitsAtMostOnce | server/matchmaking.js:36-74 | after any call the caller is either absent from the queue or its only entry |
| MatchmakingProperties.HandleKeepsQueueDistinct | server/matchmaking.js:11-75 | a duplicate-free queue stays duplicate-free under any call |
| MatchmakingProperties.QueueShrinksOrHoldsOne | server/matchmaking.js:11-75 | after a call the queue is no longer than before, or holds one id |
| MatchmakingProperties.AtMostOneWaits | server/matchmaking.js:11-75 | a call on a queue of at most one id leaves at most one id waiting, so from an empty start at most one user ever waits |
| MatchmakingProperties.PreparedEmitsOnlyRelease | server/matchmaking.js:13-37 | the forced branch and the filter append nothing but `partner-left` to the log |
| MatchmakingProperties.MatchEmitsOnlyMatched | server/matchmaking.js:45-74 | the matching step with its retries appends nothing but `matched` to the log |
| MatchmakingProperties.HandleEmitsOnlyReleaseAndMatch | server/matchmaking.js:11-75 | every event a call appends to the log is `partner-left` or `matched` |
| MatchmakingProperties.HandleNeverPairsSelf | server/matchmaking.js:37-54 | no call pairs a user with itself |
| MatchmakingProperties.PartnerFacts | server/matchmaking.js:53-54 | under the invariants a paired id's partner is another id, paired back to it, and neither waits |
| MatchmakingProperties.ForcedPrepared | server/matchmaking.js:13-37 | under the invariants the forced branch removes both entries when the partner socket is found, and queues the partner exactly when it is connected |
| MatchmakingProperties.UnpairKeepsConsistent | server/matchmaking.js:17-33 | deleting a pair in both directions and re-queuing one side keeps the invariants |
| MatchmakingProperties.PreparedKeepsConsistent | server/matchmaking.js:13-37 | the forced branch and filter keep the invariants when the partner socket is found |
| MatchmakingProperties.MatchKeepsConsistent | server/matchmaking.js:45-74 | matching an unqueued, unpaired caller keeps the queue duplicate-free and unpaired and the table symmetric and irreflexive |
| MatchmakingProperties.HandleKeepsConsistent | server/matchmaking.js:11-75 | every call keeps the invariants, as long as a forced caller's partner socket is found |
| MatchmakingProperties.MatchKeepsDanglingEntry | server/matchmaking.js:45-74 | matching leaves an entry pointing at the caller in place, which breaks symmetry, and emits only `matched` |
| MatchmakingProperties.MissingPartnerLeavesOneSidedEntry | server/matchmaking.js:18-20 | when the partner socket is gone, the partner's entry survives one-sided, the table is no longer symmetric and no `partner-left` is sent |
| MatchmakingProperties.MatchAfterRelease | server/matchmaking.js:45-74 | matching after a release keeps the `partner-left` first; the released partner ends queued or paired exactly when connected, and only ever with the caller |
| MatchmakingProperties.ForcedCallReleasesPartner | server/matchmaking.js:13-30 | a forced call by a paired caller sends `partner-left` to the found partner exactly once, first; later emissions are `matched`; the partner is queued or paired exactly when connected |
| MatchmakingProperties.CallerEndsPairedOrQueued | server/matchmaking.js:36-74 | a forced call, or a join by an unpaired caller, always ends with the caller paired or alone in the queue: leaving re-queues or re-matches the leaver |
| MatchmakingProperties.MatchTakesLast | server/matchmaking.js:45-69 | when only the last waiter is connected, it is the one matched and the queue ends empty |
| MatchmakingProperties.ReinsertPair | server/matchmaking.js:53-54 | deleting a pair both ways and inserting it again restores the table |
| MatchmakingProperties.NextRepairsWithSamePartner | server/matchmaking.js:13-74 | `next` with no other connected waiter sends `partner-left` and re-pairs the caller with the same partner, leaving the table as it was |
| MatchmakingProperties.RepairWithReleasedPartner | server/matchmaking.js:13-74 | the same re-pairing, from the facts about the partner alone: it is paired back to the caller, not waiting and connected |
| Relay.Route | server/socket.js:26-34 | a signal is delivered iff the target is registered, at most once, to the target only, as `{fromId, signal}` with the payload unchanged; the pair table plays no part |
| Relay.SocketServer.constructor | server/socket.js:7-9 | the registry starts empty and the handlers share one matchmaker and one Socket.IO server |
| Relay.SocketServer.OnConnection | server/socket.js:11-13 | a new connection adds its id to the registry |
| Relay.SocketServer.OnJoinQueue | server/socket.js:16-19 | `join-queue` is a non-forced matchmaking call |
| Relay.SocketServer.OnSignal | server/socket.js:22-35 | `signal` appends exactly `Route` to the log and changes nothing else |
| Relay.SocketServer.OnNext | server/socket.js:38-41 | `next` is a forced matchmaking call |
| Relay.SocketServer.OnLeave | server/socket.js:44-47 | `leave` is a forced matchmaking call |
| Relay.SocketServer.OnDisconnect | server/socket.js:50-54 | `disconnect` unregisters the id before the forced call, so every later signal to it is dropped |
| VideoChat.Session.constructor | client/src/VideoChat.jsx:6-14 | the session starts idle, inactive, without partner, stream or peer connection, and valid |
| VideoChat.Session.Cleanup | client/src/VideoChat.jsx:131-140 | ends with no stream and no peer connection and touches nothing else, so a second call is a no-op; keeps `Valid` |
| VideoChat.Session.InitPeer | client/src/VideoChat.jsx:94-112 | always releases the old stream and connection before installing a fresh connection; keeps `Valid` |
| VideoChat.Session.StartLocalVideo | client/src/VideoChat.jsx:114-129 | media is requested only when no stream is held; it succeeds iff a stream was held or the request is granted; tracks are added to the current connection |
| VideoChat.Session.HandleMatched | client/src/VideoChat.jsx:35-50 | records the partner, shows "connected", always requests media (the fresh connection dropped any stream), and sends an offer to that partner iff media was granted |
| VideoChat.Session.HandleSignal | client/src/VideoChat.jsx:52-86 | an offer makes its sender the partner and is answered to that sender when media is available; an answer only sets the remote description; a candidate is added at once, even before any remote description; a null candidate and unknown payloads change nothing but the lazily created connection |
| VideoChat.Session.HandlePartnerLeft | client/src/VideoChat.jsx:88-92 | releases stream and connection; a `join-queue` is emitted iff the session is active; the status ends "searching" when active and "disconnected" otherwise |
| VideoChat.Session.StartChat | client/src/VideoChat.jsx:142-146 | sets active mode, shows "searching", emits exactly one `join-queue` |
| VideoChat.Session.NextChat | client/src/VideoChat.jsx:148-152 | releases stream and connection, shows "searching", emits `next`, leaves active mode as it was |
| VideoChat.Session.StopCall | client/src/VideoChat.jsx:154-159 | clears active mode, releases stream and connection, shows "idle", emits `leave` |
| VideoChat.Session.OnIceCandidate | client/src/VideoChat.jsx:100-106 | fires only on a live connection; a candidate is sent only when it is non-null and a partner id is known, addressed to that id |
| Scenarios.SecondJoinerIsMatched | server/matchmaking.js:46-58 | a joiner facing one connected waiter is paired with it in both directions and both get `matched` |
| Scenarios.DepartedCallerIsMatchedAgain | server/matchmaking.js:13-74 | a user leaving a pair with an empty queue is re-paired with the partner it just left |
| Scenarios.TwoJoinersAreMatched | server/socket.js:16-19 | on the server, two connected peers joining one after the other are matched, and each is sent `matched` with the other's id |
| Scenarios.BothMatchedPeersOffer | client/src/VideoChat.jsx:35-49 | two peers matched by the server both send offers, so both act as offerers |
| Scenarios.DepartedPeerIsMatchedAgain | server/socket.js:50-54 | after "a" disconnects, "b" gets `partner-left` and then `matched` with the departed "a"; its later `join-queue` is skipped and its offer to "a" is dropped |
| Scenarios.PartnerSessionFollowsStaleMatch | client/src/VideoChat.jsx:88-92 | the partner's session in that run ends "connected" to the departed peer, having joined again and offered twice |

## Left out

- Logging: all `console.log`/`console.warn` output.
- The JSX markup: video elements, `srcObject` assignment, the `ontrack` handler, and the buttons' `disabled` conditions. The handlers are modelled for every state.
- Handler registration and removal on mount and unmount. On unmount the component runs `StopCall`.
- The React `partnerId` state. It mirrors `partnerIdRef`, which is modelled. The component sets it but never reads it.
- Interleaving of the `async` client handlers: each handler is one atomic step.
- WebRTC failures other than a refused `getUserMedia`. Signalling-state rules are not modelled (an offer arriving while a local offer is pending, for example). SDP contents are not modelled.
- Relay.Route: a `signal` payload is assumed to be an object. A missing or null payload makes the handler throw while destructuring it or logging `signal.type`, before the lookup, so nothing is relayed even to a registered target; that case is not modelled.
- Interleaving on the server: events are processed one at a time.
- Socket.IO's maintenance of its socket table and `connected` flags: it is input to the model.
- Map insertion order: `GetMatchmakingStats` returns the pair entries as a set, not in `Map` iteration order.
- The Express/HTTP wiring and the health endpoint in `server/index.js`, the client socket configuration in `client/src/socket.js`, and the pages and routing under `client/src/pages` and `client/src/App.jsx`. These are not part of this model.
- VideoChat.Session.StartLocalVideo: requires a peer connection. With none, the source's `addTrack` would throw; every caller creates one first.
- Matchmaking.Matchmaker.GetMatchmakingStats: `activePairs.size / 2` is stated as an exact rational, not as a JavaScript floating-point number.
