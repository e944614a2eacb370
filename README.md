# Room registry and message dispatch of the tic-tac-toe websocket server

This project models the core of `myapp/consumers.py`: the websocket consumer
`BoxConsumer` that pairs players into rooms of two and relays their moves.

- `room_user_count` maps a room name to its occupancy and `room_user_ids`
  maps a room name to the user ids that joined it. These are the two
  module-level dictionaries. Here they are the fields `counts` and `ids` of
  one `Registry` object (module `Consumers`). Their helper methods update
  them in place.
- Each helper is proved against a pure definition in module `Rooms`:
  `Increment`, `Decrement`, `AddId`, `RemoveId`, and the overflow search
  `NewAvailableRoom`. Lemmas there prove that the invariant "no stored zero
  count, no stored empty list" is preserved. They also prove that a
  departure undoes an arrival, and that the search ends at the least free
  `game_n` with `n` at most one more than the number of rooms.
- `BoxConsumer.Connect` and `BoxConsumer.Disconnect` sequence the helpers
  exactly as `connect` and `disconnect` do. They are proved against whole-step
  functions in module `Session`. Lemmas there prove capacity, agreement of
  the two dictionaries, and the join/leave round trip.
- `receive` and the opponent lookup are pure decisions in module `Dispatch`.
  Channel-layer sends are emitted as `Action` values: `Redirect`,
  `BroadcastCount`, `Unicast`, `BroadcastMove` or `Drop`.
- Module `Decimal` models Python's rendering of `game_{n}` and its inverse.
  That inverse is what makes the overflow names pairwise distinct, which the
  termination argument of the search needs.

The model follows the code as written:

- Overflow rooms are named `game_1`, `game_2`, ….
- The capacity check happens only in `connect`, before the join. There is no
  atomic check-and-join and no retry.
- A redirected connection is not recorded in either dictionary (see Findings).
- `disconnect` of a room that still has players lowers the count again each time it is called.
- `remove_user_id` raises `ValueError` when the room is known but the id is not in its list.

## Model

| member | source | states |
|---|---|---|
| `Decimal.FromNat` | myapp/consumers.py:195 | the decimal text of `room_number` has only digits, at least one, and no leading zero for a positive number |
| `Decimal.ToNatFromNat` | myapp/consumers.py:195 | reading back the decimal text of `n` gives `n` (round trip) |
| `Decimal.FromNatInjective` | myapp/consumers.py:195 | distinct room numbers have distinct decimal texts |
| `Rooms.CountOfPositive` | myapp/consumers.py:152-155 | with no stored zero counts, `get_user_count` is at least 1 exactly for a known room, and never negative |
| `Rooms.Increment` | myapp/consumers.py:158-160 | the room becomes a key, its count is the old count (0 if absent) plus one, and every other room keeps its count |
| `Rooms.Decrement` | myapp/consumers.py:163-168 | an absent room leaves the map unchanged; a count of at most 1 loses its key; a larger count drops by one; other rooms are unchanged |
| `Rooms.IncrementKeepsPositive` | myapp/consumers.py:158-160 | increment keeps every stored count at least 1 |
| `Rooms.DecrementKeepsPositive` | myapp/consumers.py:163-168 | decrement keeps every stored count at least 1 |
| `Rooms.DecrementLowersOccupancy` | myapp/consumers.py:163-168 | under that invariant a departure lowers occupancy by exactly one and never below zero |
| `Rooms.DecrementUndoesIncrement` | myapp/consumers.py:158-168 | under that invariant, decrement after increment of the same room gives back the original map |
| `Rooms.AddId` | myapp/consumers.py:171-175 | the room's list becomes its old list (empty if absent) with the id appended; other rooms are unchanged |
| `Rooms.FirstIndex` | myapp/consumers.py:180 | the position `list.remove` acts on holds the id, and no earlier position does |
| `Rooms.RemoveFirst` | myapp/consumers.py:180 | `list.remove` cuts the list at the first occurrence of the id, keeping what comes before and after in order; the list gets one shorter and loses exactly one copy of the id |
| `Rooms.FirstIndexIsOnlyFirst` | myapp/consumers.py:180 | the only occurrence of the id with no copy of the id before it is the one `list.remove` acts on |
| `Rooms.RemoveFirstIsListRemove` | myapp/consumers.py:180 | for the occurrence of the id with no copy before it, `list.remove` gives the list with that one element cut out and the rest in order |
| `Rooms.RemoveFirstOfAppended` | myapp/consumers.py:174-180 | removing an id just appended to a list that did not contain it gives back the list |
| `Rooms.RemoveId` | myapp/consumers.py:178-183 | the ValueError happens exactly when the room is known and the id is not listed; an unknown room is unchanged; the room keeps its key exactly when its list had more than one id |
| `Rooms.RemoveIdOtherRoom` | myapp/consumers.py:178-183 | `remove_user_id` leaves every other room's key and list unchanged |
| `Rooms.AddIdKeepsNonEmpty` | myapp/consumers.py:171-175 | `add_user_id` keeps every stored list non-empty |
| `Rooms.RemoveIdKeepsNonEmpty` | myapp/consumers.py:178-183 | `remove_user_id` keeps every stored list non-empty |
| `Rooms.RemoveFirstAfterAppend` | myapp/consumers.py:174-180 | removing an id just appended leaves the same elements |
| `Rooms.RemoveIdOfListedUser` | myapp/consumers.py:178-183 | for a listed id, the new map is the room's shortened list, or the room deleted when that list is empty |
| `Rooms.RemoveIdAfterAddId` | myapp/consumers.py:171-183 | removal right after addition never raises, and gives the old map with the room's list shortened or deleted |
| `Rooms.RemoveIdUndoesAddId` | myapp/consumers.py:171-183 | when the id was not listed before, removal after addition gives back exactly the original map |
| `Rooms.RemoveIdAfterAddIdSameMembers` | myapp/consumers.py:171-183 | when the id was already listed, removal after addition keeps the same rooms, and the same ids in the room up to order |
| `Rooms.GameName` | myapp/consumers.py:195 | every overflow name starts with `game_` |
| `Rooms.GameNameInjective` | myapp/consumers.py:195-200 | distinct room numbers give distinct overflow names |
| `Rooms.OverflowNamesBound` | myapp/consumers.py:193-200 | if `game_1` to `game_n` are all keys, there are at least `n` keys |
| `Rooms.FullNamesBound` | myapp/consumers.py:198-200 | if `game_1` to `game_n` are all full, there are at least `n` rooms |
| `Rooms.SearchFrom` | myapp/consumers.py:194-202 | the scan from `game_n` stops at a free name, at most one past the number of rooms, with every name before it full |
| `Rooms.AllocatedIndex` | myapp/consumers.py:192-202 | the allocated number is the least `n >= 1` whose `game_n` is absent or holds fewer than two, and `n <= rooms + 1` |
| `Rooms.NewAvailableRoom` | myapp/consumers.py:192-202 | the allocated room has occupancy below two |
| `Rooms.AllocatedIndexUnique` | myapp/consumers.py:192-202 | the allocation is determined: any free `n` with every earlier name full is the allocated one |
| `Dispatch.Opponent` | myapp/consumers.py:128-135 | the result is the first channel different from the caller, found at a position preceded only by the caller; it is None exactly when every channel equals the caller |
| `Dispatch.Receive` | myapp/consumers.py:89-116 | a malformed or undecodable message sends nothing; a heartbeat unicasts only to the channel the opponent lookup returns, and only when that name is non-empty; any other valid message makes one broadcast carrying boxid, move and the sender's id; receive never redirects or broadcasts a count |
| `Dispatch.HeartbeatReachesOnlyOpponent` | myapp/consumers.py:95-105 | in a two-player room a heartbeat reaches exactly the other player, whichever joined first |
| `Dispatch.HeartbeatAloneIsDropped` | myapp/consumers.py:95-105 | a heartbeat with no other channel in the room sends nothing |
| `Dispatch.MoveIsBroadcast` | myapp/consumers.py:106-112 | a valid non-heartbeat move is broadcast with its fields and the sender's id, whoever is in the room |
| `Session.Join` | myapp/consumers.py:48-49 | joining raises the room's count by one and appends the id to its list |
| `Session.Connect` | myapp/consumers.py:21-62 | a requested room at two or more always redirects to the allocated room and changes nothing; a room below two always joins (count incremented, id appended) and broadcasts the post-increment count |
| `Session.ConnectKeepsTidy` | myapp/consumers.py:21-62 | connect keeps counts positive and lists non-empty |
| `Session.ConnectKeepsCapacity` | myapp/consumers.py:21-62 | a sequential connect never raises a room above two when none was above two; the broadcast count is 1 or 2 |
| `Session.ConnectKeepsConsistent` | myapp/consumers.py:21-62 | connect keeps the two dictionaries in agreement: same rooms, and each count equals its list's length |
| `Session.JoinKeepsConsistent` | myapp/consumers.py:48-49 | the join step keeps the two dictionaries in agreement |
| `Session.Disconnect` | myapp/consumers.py:74-81 | disconnect applies `decrement_user_count` first, whether or not the removal then raises (a room with no count stays absent); it raises exactly when the room is listed without the id, and then leaves the lists unchanged; otherwise the lists are those `remove_user_id` leaves |
| `Session.DisconnectKeepsTidy` | myapp/consumers.py:74-81 | disconnect keeps counts positive and lists non-empty, also when it raises |
| `Session.DisconnectMemberKeepsPaired` | myapp/consumers.py:80-81 | a listed member leaving does not raise, and keeps the dictionaries in agreement and within capacity |
| `Session.LeaveUndoesJoin` | myapp/consumers.py:48-81 | a connection that joined and then leaves restores both dictionaries exactly, when its id was not listed before |
| `Session.RedirectedConnectionsOverfillRoom` | myapp/consumers.py:26-43 | connect as written sends the third, fourth and fifth connection to a full room all to `game_1`, while `game_1` still reads as empty |
| `Session.ConnectJoining` | myapp/consumers.py:26-49 | the repaired connect joins the requested room, or the allocated room when the requested one is full; either way it had a free slot |
| `Session.ConnectJoiningKeepsPaired` | myapp/consumers.py:26-49 | the repaired connect keeps agreement and capacity, and raises exactly the placed room's count by one |
| `Session.ConnectEach` | myapp/consumers.py:21-62 | a run of connections served one after another by the repaired connect (`ConnectJoining`, not connect as written) places each connection in exactly one room |
| `Session.ConnectEachRecordsPlacements` | myapp/consumers.py:21-62 | with the repaired connect, each room's count grows by the number of connections placed in it, so no room ever receives more than its free slots |
| `Consumers.Registry.constructor` | myapp/consumers.py:8-9 | both dictionaries start empty |
| `Consumers.Registry.GetUserCount` | myapp/consumers.py:152-155 | returns the stored count, or 0 for an unknown room; changes nothing; positive exactly for a known room |
| `Consumers.Registry.IncrementUserCount` | myapp/consumers.py:158-160 | updates `counts` in place to `Increment` of the old map and keeps the invariant |
| `Consumers.Registry.DecrementUserCount` | myapp/consumers.py:163-168 | updates `counts` in place to `Decrement` of the old map and keeps the invariant |
| `Consumers.Registry.AddUserId` | myapp/consumers.py:171-175 | updates `ids` in place to `AddId` of the old map and keeps the invariant |
| `Consumers.Registry.RemoveUserId` | myapp/consumers.py:178-183 | updates `ids` in place to `RemoveId` of the old map; on ValueError it changes nothing |
| `Consumers.Registry.GetNewAvailableRoom` | myapp/consumers.py:192-202 | the `while` loop terminates, changes nothing, and returns the least free `game_n` |
| `Consumers.BoxConsumer.constructor` | myapp/consumers.py:15 | the connection keeps its registry, channel name and user id |
| `Consumers.BoxConsumer.Connect` | myapp/consumers.py:12-62 | the registry, the connection's room and the emitted action are those of `Session.Connect` |
| `Consumers.BoxConsumer.Disconnect` | myapp/consumers.py:74-81 | the registry and the ValueError flag are those of `Session.Disconnect` on the connection's room |
| `Consumers.BoxConsumer.Receive` | myapp/consumers.py:85-118 | the emitted action is the `Dispatch.Receive` decision, and a heartbeat is never sent back to its sender |

## Left out

- Channel-layer transport is left out. This covers `group_add`, `group_discard`, `group_send`, `channel_layer.send`, `accept` and `send`. Their effect is the emitted `Action` value. Group membership itself is not modelled.
- The forwarding handlers `user_count_update`, `box_message` and `no_move_message` only JSON-encode an event onto the socket. They are not modelled.
- JSON parsing is left out. A frame that does not decode is `Inbound.Undecodable`. A frame that decodes to something other than an object (`5`, `null`, `[]`) makes the `.get` call at consumers.py:89 raise `AttributeError`, which nothing catches because line 117 catches only `JSONDecodeError`. `Inbound` cannot express that input. JSON values other than strings in `boxid` and `move` are not modelled, so their Python truthiness is not either.
- Scope, session-key and URL-argument extraction are parameters: the room name, the user id and the channel name. `myapp/routing.py` declares no `user_id` argument, so in practice the user id is `None`, which `UserId` covers. The session key sent in the redirect notice is not modelled.
- All logging is left out.
- `database_sync_to_async` and concurrent connections are left out. The model is sequential, so the race between the count read and the increment in `connect` is not modelled.
- `get_all_users_in_room` is called at consumers.py:131 but defined in none of the files modelled. As written, a well-formed heartbeat therefore raises `AttributeError` at line 131. The model's `Unicast`/`Drop` outcome stands in for what the lookup would give: opponent lookup and `BoxConsumer.Receive` take the room's channels as a parameter.
- `get_all_rooms` lists the keys of `room_user_count` and has no callers. It is not modelled.
- The heartbeat unicast carries no `type` key, so it is unclear what the receiving consumer does with it. The model stops at the `Unicast` action.
- `myapp/routing.py` (URL routing) and `redischeck.py` (setup script) contain no core logic.

## Findings

| source | as written | input that shows it | evidently intended | confidence | as-written member | corrected member |
|---|---|---|---|---|---|---|
| myapp/consumers.py:26-43 | when the requested room is full, the connection is added to the overflow room's group, but `room_user_count` and `room_user_ids` are not updated | start from an empty registry and send five connections to `lobby`. The third, fourth and fifth are all placed in `game_1`, and `game_1` stays absent from `room_user_count`. If `game_1` had instead been joined directly by one player, a redirected connection's `disconnect` lowers a count it never raised. With the `None` user ids that the routing gives, `remove_user_id` then also silently deletes the other player's entry | the redirected connection joins the overflow room like a direct join, so that no room ever receives more than two connections | medium, not executed | `Session.RedirectedConnectionsOverfillRoom` | `Session.ConnectEachRecordsPlacements` |
