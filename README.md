# Signalling relay: a Dafny model

This project models the WebSocket signalling relay of qrsync. The relay pairs
two browser clients that connect under the same 21-character channel
identifier. It tells them to begin peer negotiation (`START_PEERING`) once the
second one arrives, and forwards every message one member sends to the other
members of its channel. It removes a connection from its channel on `close`
and `error`, and a periodic sweep closes connections older than five minutes.

The model has three modules:

- `Signal` (signal.dfy) is the specification on values. The registry is a
  `map<string, seq<C>>` from channel identifier to its members in admission
  order, generic in the connection type. Sends are `Send(to, payload)` records.
  It holds the functions each handler is specified by: `Join`, `PairingSends`,
  `Fanout`, `Without`, `CleanupAsWritten`, `Evict` and `IsStale`. It also holds
  the lemmas about them.
- `Server` (server.dfy) is the handlers over mutable state:
  - a `Connection` class holds the fields the handler stamps on each `ws`
    object (`channelId`, `connectionTime`) and its OPEN state;
  - a `Registry` class holds the global `channels` object and an `outbox` that
    logs every `send`;
  - methods `Admit`, `Forward` and `Cleanup` each run one event handler to
    completion, and the module-level method `Sweep` is the interval callback.

  Each method's `ensures` ties the new state to the `Signal` function of the
  old state. `Registry.Valid()` is the registry invariant: no empty entry, no
  duplicate member, every member listed under the identifier stamped on it.
- `Scenario` (scenario.dfy) is a client. Two connections pair, one message is
  relayed, both leave, and a short identifier is refused. It proves all of
  this from the handlers' contracts alone.

Sending is modelled as appending to `Registry.outbox`. Closing is modelled as
clearing `Connection.open`. The clock is the `now` parameter.

Where the code departs from what a two-party rendezvous relay is meant to do,
the model follows the code:

- **Pairing can fire more than once per channel.** A rendezvous relay is meant
  to fire `START_PEERING` once per pairing. The code fires it every time a
  channel's length becomes exactly 2, including after a member leaves and
  another joins (`PairingRefiresAfterLeave`). Without a cleanup in between it
  fires once (`PairingFiresOnce`).
- **No cap at two members.** A channel is meant for two parties, but nothing
  caps it: a third connection is appended and receives the relay of every
  other member.
- **Eviction is not idempotent.** Eviction is meant to be idempotent, since
  `cleanup` runs for both `error` and `close`. The code throws when the
  channel entry is already gone. `Registry.Cleanup` reports that as `thrown`
  (see Findings).
- **No delivery-failure path.** A failed `send` is not caught or turned into
  an eviction; the code has no such path.

## Model

| member | source | states |
|---|---|---|
| `Signal.ChannelIdOf` | server.js:12 | the identifier is the request path after its first character, and empty for an empty path |
| `Signal.Join` | server.js:23-24 | the entry of `id` exists afterwards; its last member is the new connection; its earlier members are the old list, or nothing if it was absent; no other entry changes |
| `Signal.CleanupAsWritten` | server.js:39-46 | cleanup throws (`None`) exactly when the channel entry is absent |
| `Signal.WithoutMembers` | server.js:40-42 | the filtered list holds exactly the old members other than `c`, and is no longer than the old list |
| `Signal.WithoutConcat` | server.js:40-42 | filtering distributes over concatenation, so the remaining members keep their relative order |
| `Signal.WithoutAbsent` | server.js:40-42 | filtering a list that does not hold `c` returns it unchanged |
| `Signal.WithoutIdempotent` | server.js:40-42 | filtering twice equals filtering once |
| `Signal.WithoutKeepsDistinct` | server.js:40-42 | filtering a list without duplicates gives a list without duplicates |
| `Signal.WithoutDropsOne` | server.js:40-42 | with distinct members, the filter shortens the list by one if `c` was there and by nothing otherwise |
| `Signal.BroadcastAt` | server.js:26 | a broadcast makes one send per member, in list order, each with the same message |
| `Signal.RecipientsOfBroadcast` | server.js:26 | the receivers of a broadcast are exactly the member list |
| `Signal.FanoutIsBroadcastToOthers` | server.js:30-34 | the relay loop that skips the sender equals a broadcast to the list filtered of the sender |
| `Signal.RelayExclusive` | server.js:29-35 | the receivers of a relayed message are the other members in list order; the sender receives nothing; every payload is the message unchanged |
| `Signal.RelayOneCopyEach` | server.js:30-34 | with distinct members, each member other than the sender receives exactly one copy and the sender none |
| `Signal.SoleMemberDropsMessage` | server.js:30-31 | a message from the only member of a channel is sent to nobody |
| `Signal.PairingExact` | server.js:23-27 | admission sends something if and only if the entry had exactly one member before; it then sends `START_PEERING` to the old member and to the new one, in that order |
| `Signal.JoinKeepsNonEmpty` | server.js:23-24 | admission keeps every registry entry non-empty |
| `Signal.JoinAllBuildsList` | server.js:23-24 | admitting connections one after another to a fresh identifier builds its list in admission order |
| `Signal.PairingFiresOnce` | server.js:23-27 | admitting connections one after another to a fresh identifier, with no cleanup between, sends `START_PEERING` to the first two only, once two have arrived, and never again for later arrivals |
| `Signal.PairingRefiresAfterLeave` | server.js:25-26 | in any registry, when either member of a two-member channel leaves, the next admission to that channel sends `START_PEERING` again, to the remaining member and the newcomer, in that order |
| `Signal.EvictRemoves` | server.js:40-45 | the entry survives eviction if and only if the filtered list is non-empty; the surviving entry is that list and does not hold `c`; other entries are unchanged |
| `Signal.EvictKeepsNonEmpty` | server.js:43-45 | eviction keeps every registry entry non-empty |
| `Signal.EvictNonMember` | server.js:40-42 | cleaning up a connection that is not a member of a present, non-empty entry changes nothing and does not throw |
| `Signal.CleanupTwiceWhilePresent` | server.js:39-46 | while the entry survives the first cleanup, a second cleanup does not throw and changes nothing |
| `Signal.SecondCleanupThrows` | server.js:37-46 | when the connection was the sole member, the first cleanup deletes the entry and the second one throws |
| `Signal.EvictIdempotent` | server.js:39-46 | the total eviction is idempotent on every registry |
| `Signal.EvictCount` | server.js:40-42 | with distinct members, eviction lowers the member count by one if `c` was a member and leaves it otherwise, so it never goes below zero |
| `Signal.StaleBoundary` | server.js:57-59 | a connection exactly 300000 ms old is not stale, one 300001 ms old is, and a connection that is not OPEN never is |
| `Server.Connection.constructor` | server.js:11 | a connection reaches the handler OPEN and with neither an identifier nor a time stamped |
| `Server.Registry.constructor` | server.js:9 | the registry starts empty, satisfies its invariant, and nothing has been sent |
| `Server.Registry.Admit` | server.js:11-27 | an empty identifier or one not 21 long closes the connection and leaves the registry, the outbox and the connection's fields unchanged; otherwise the connection is stamped with its identifier and `now`, appended with `Join`, sent `PairingSends` of its new list, and added to the members; the invariant is kept |
| `Server.Registry.Enlist` | server.js:23-24 | the connection is pushed onto the list of its stamped identifier with `Join`, becomes a member, and the invariant is kept |
| `Server.Registry.SendToAll` | server.js:26 | the outbox grows by one send of the message per member, in list order, and nothing else changes |
| `Server.Registry.Forward` | server.js:29-35 | the handler throws, sending nothing, exactly when the sender's entry is absent; otherwise it appends `Fanout` of its channel's list to the outbox; the registry is not modified |
| `Server.Registry.Cleanup` | server.js:37-46 | the handler throws exactly when the entry is absent; the registry becomes `Evict` of the old one; the members lose `c` and nothing else; the invariant is kept |
| `Server.Sweep` | server.js:53-65 | it closes, and returns, exactly the connections that were OPEN and older than 300000 ms at `now`; all others keep their state, and no stamped field changes |

## Left out

- Server construction, the port setting and the `listening` log (server.js:3-7, server.js:49-51), and every `console.log`: these are I/O through the `ws` library.
- The real `send` and `close` transport effects: a send is an outbox entry, and a close clears `open` (the ready state becomes CLOSING). The later `close` event that a close causes is a separate `Cleanup` call, not part of `Sweep`.
- `Date.now()` and the five-minute `setInterval` period (server.js:20, server.js:55, server.js:65): the time is the parameter `now`, and when the sweep runs is up to the caller.
- `message.toString()` (server.js:32): payloads are strings passed through unchanged.
- `req.socket.remoteAddress` (server.js:21): it is used only for logging.
- `Connection.open` changes only through the server's own `close()` calls (server.js:15, server.js:62). When the peer closes or the socket errors, the `ws` library moves the ready state out of OPEN before `cleanup` runs; that change belongs to the library and is left to the caller, so a connection in the model stays `open` between an `error` and its `close` unless the caller clears it.
- The set of all server connections (`wss.clients`) is a parameter of `Sweep`, not state.
- Concurrency: the source runs on one event loop, so each handler is one atomic method.
- Server.Registry.Admit: requires that the connection is not already a member, which holds because the server hands each handler a new connection object.
- A JavaScript exception escaping a handler, with whatever the process then does, is modelled only as the `thrown` result; the state is left as it was before the throw.
- src/App.js and src/index.js (the browser client and its bootstrapping) are not part of this model.

## Findings

| source | as written | input that shows it | evidently intended | confidence | as-written member | corrected member |
|---|---|---|---|---|---|---|
| server.js:37-46 | `cleanup` runs on both `error` and `close`, and reads `channels[ws.channelId]` without checking that it exists | the sole member of a channel fails: `error` runs cleanup, which deletes the entry; then `close` runs cleanup, which calls `filter` on `undefined` and throws a TypeError | a second cleanup is a no-op (eviction is idempotent) | medium, not executed | `Signal.SecondCleanupThrows` | `Signal.EvictIdempotent` |

`Signal.Evict` is the corrected total cleanup. `Registry.Cleanup` uses it for
the new state and also reports the throw of the code as written.
