# Room and session state of the multiplayer card sandbox

The sandbox's server keeps two process-wide maps:

- `rooms` sends a room ID to its game session. A session holds the room's host, its members, and its cards, counters and card stacks.
- `players` sends a player ID (the client's address) to the room the player is in.

Each socket event runs one handler to completion before the next one starts. The handlers change the two maps and broadcast events to the sockets of a room.

This project models those handlers and proves what they do to the maps and what they broadcast:

- `Disconnecting` and `PlayerJoined` change membership. A room is created when its first player joins and closed when its last player disconnects. A host who disconnects is replaced by the earliest-added member who stays. A switch to another room does neither (see below).
- Fifteen entity handlers create, delete, move and rotate cards, counters and card stacks, and replace a counter's values or a stack's cards. Each one ignores an entity that is missing, or one that already exists for a create.

Files:

- `members.dfy` (module `Members`): a room's member set, a JavaScript `Set`. It is modelled as a duplicate-free sequence in insertion order, because the new host is the first member in that order.
- `entities.dfy` (module `Entities`): the entity record and the table operations each entity handler applies, with "last write wins" lemmas.
- `rooms.dfy` (module `Rooms`): the game session, a new room, and the broadcast events.
- `protocol.dfy` (module `Protocol`): both maps as one value.
  - Joining and disconnecting are functions from the maps to the new maps plus the events they send.
  - The invariant is proved for both: the directory and the memberships agree, and every room is well formed.
  - The host rules are proved too.
- `server.dfy` (module `Server`): the class `GameServer`. It holds the two maps and the log of broadcasts sent, with one method per socket handler. Each method is proved to keep the invariant and to leave exactly the state and the log its contract states. For the two membership handlers, that contract is given by the `Protocol` functions.

The card payload (`ScryfallData`) is a type parameter `D`, which the server stores and echoes without looking at it.

### Two consequences of the switch branch

The switch branch of `PlayerJoined` (server.ts:70-76) removes the player from the old room's member set and does nothing else. Two things follow, and the model keeps both as the code has them:

- An old room emptied by a switch stays in `rooms`. `Protocol.SwitchLeavesEmptyRoom` exhibits such a room, with no members and the departed player still as host.
- A host who switches away leaves its old room with a host who is not a member. `Protocol.JoinKeepsSettledIff` proves that a join breaks "the host is a member" exactly in that case.

## Model

| member | source | states |
|---|---|---|
| Members.Added | server.ts:82 | `Set.add`: the result holds exactly the old members plus the new one; the old members keep their order as a prefix; no duplicates are introduced |
| Members.Removed | server.ts:46 | `Set.delete`: the result holds exactly the old members other than the one removed; no duplicates are introduced; its first element is the earliest-added member other than the one removed. For a duplicate-free membership, an absent player changes nothing, and a present one is cut out at its position, so the others keep their order |
| Members.EarliestOtherThanIsFirstOrSecond | server.ts:54 | in a duplicate-free membership, the earliest member other than `p` is the first member, or the second when `p` is first |
| Entities.Insert | server.ts:100-114 | create: an ID already in the table leaves the table unchanged; otherwise exactly that entity is added under its own ID and every other entry stays |
| Entities.Remove | server.ts:116-129 | delete: the ID leaves the table, every other entry stays, and an absent ID changes nothing |
| Entities.Moved | server.ts:131-149 | move: only the named entity's `x` and `y` change, to the given values; its ID, rotation and payload stay; every other entity stays; an absent ID changes nothing |
| Entities.Rotated | server.ts:151-167 | rotate: only the named entity's rotation changes; everything else stays; an absent ID changes nothing |
| Entities.Replaced | server.ts:201-323 | counter values, or a stack's cards on shuffle or modify: the named entity's whole payload is replaced; its position and rotation stay; an absent ID changes nothing |
| Entities.InsertKeepsFirst | server.ts:105-113 | creating the same ID twice keeps the first entity, whatever the second carries |
| Entities.MovedTwice | server.ts:131-149 | last write wins: of two moves of one entity, only the second decides its position |
| Entities.RotatedTwice | server.ts:151-167 | last write wins for rotations |
| Entities.ReplacedTwice | server.ts:289-305 | last write wins for payload replacement |
| Entities.MovesOfDistinctEntitiesCommute | server.ts:131-149 | moves of two different entities can be applied in either order |
| Rooms.NewGame | server.ts:86-89 | a new room has the given ID, its creator as host and sole member, and no entities |
| Protocol.Join | server.ts:67-96 | the directory sends the player to the room. A room that did not exist is created with the player as host, and the room hears `RoomCreated`. An existing room's members become `Added` of the player (appended if new, unchanged on a rejoin), it keeps its host and entities, and it hears `PlayerJoined`. On a switch, the old room's members become `Removed` of the player, and nothing else changes. Every other room is untouched |
| Protocol.Disconnect | server.ts:37-65 | the player leaves the directory. If its room existed, the room's members become `Removed` of the player (the others keep their order), and nothing else changes except as follows. The room is closed exactly when no other member remains, silently. If the host left, the earliest-added remaining member becomes host and the room hears `PlayerLeft` once. If a non-host left, the host is kept and nothing is sent. Every other room is untouched |
| Protocol.JoinPreservesConsistent | server.ts:67-96 | joining keeps the directory and the memberships in agreement and every room well formed |
| Protocol.JoinKeepsDirectory | server.ts:70-78 | after a join, every directory entry leads to an existing room that lists the player |
| Protocol.JoinKeepsMemberships | server.ts:70-83 | after a join, every member of every room is sent to that room by the directory |
| Protocol.JoinKeepsRoomsWellFormed | server.ts:70-89 | after a join, every room carries its own ID, has no duplicate member and keeps every entity under its own ID |
| Protocol.DisconnectPreservesConsistent | server.ts:37-65 | disconnecting keeps the directory and the memberships in agreement and every room well formed |
| Protocol.ClosingRoomKeepsConsistent | server.ts:49-51 | closing a room whose last member leaves keeps the registry consistent |
| Protocol.LeavingRoomKeepsConsistent | server.ts:46-54 | a member leaving a room that survives, whoever becomes host, keeps the registry consistent |
| Protocol.EntityChangeKeepsConsistent | server.ts:100-369 | changing only a room's entity tables, each still keyed by entity ID, keeps the registry consistent |
| Protocol.DisconnectPreservesSettled | server.ts:49-62 | if every room's host is a member, that still holds after a disconnect |
| Protocol.JoinKeepsSettledIff | server.ts:70-76 | from a consistent registry where every host is a member, a join keeps that property exactly when it is not a host switching away from its room |
| Protocol.SwitchLeavesEmptyRoom | server.ts:70-76 | a host that switches rooms leaves its old room in the registry, with no members and with itself still as host |
| Protocol.HostMigratesToEarliestSurvivor | server.ts:53-54 | when a host leaves a room that others remain in, the new host is the first member in join order, or the second when the departing host was first |
| Protocol.RejoinAfterCloseIsFresh | server.ts:37-96 | after the last member leaves, the room is gone. The next join with its ID, by anyone, creates a new room with no entities and the joiner as host, and the room hears `RoomCreated` |
| Protocol.TwoPlayerHandOver | server.ts:37-96 | `a` opens a room, `b` joins, `a` leaves: `b` is sole member and host. The room heard `RoomCreated`, `PlayerJoined(b)` and `PlayerLeft(a)`, in that order |
| Protocol.SecondJoinsPair | server.ts:81-83 | a second player joining a room its creator opened is added after the creator, the creator stays host, and the room hears `PlayerJoined` |
| Protocol.HostLeavesPair | server.ts:39-62 | the host of a two-member room leaves: the other member is left as sole member and host, the directory keeps only that member, and the room hears `PlayerLeft` |
| Server.GameServer.constructor | server.ts:19-23 | the server starts with no rooms, no players and nothing sent, and consistent |
| Server.GameServer.OnDisconnecting | server.ts:37-65 | keeps the invariant; the new maps and the broadcasts appended to the log are those of `Protocol.Disconnect` |
| Server.GameServer.OnPlayerJoined | server.ts:67-96 | keeps the invariant; the new maps and the broadcasts appended to the log are those of `Protocol.Join` |
| Server.GameServer.OnCardCreated | server.ts:100-114 | the player's room's cards become `Insert` of the card; `CardCreated` is broadcast only for a new ID; a duplicate ID changes nothing; the directory stays |
| Server.GameServer.OnCardDeleted | server.ts:116-129 | the room's cards become `Remove` of the ID; `CardDeleted` is broadcast only when it was there; an absent ID changes nothing |
| Server.GameServer.OnCardMoved | server.ts:131-149 | the room's cards become `Moved`; `CardMoved` with the new position is broadcast only when the card exists; otherwise nothing changes |
| Server.GameServer.OnCardRotated | server.ts:151-167 | the room's cards become `Rotated`; `CardRotated` is broadcast only when the card exists; otherwise nothing changes |
| Server.GameServer.OnCounterCreated | server.ts:171-185 | the room's counters become `Insert` of the counter; `CounterCreated` only for a new ID; a duplicate changes nothing |
| Server.GameServer.OnCounterDeleted | server.ts:187-199 | the room's counters become `Remove` of the ID; `CounterDeleted` only when it was there |
| Server.GameServer.OnCounterValsChanged | server.ts:201-217 | the counter's values are replaced; `CounterValsChanged` carries the new values; an absent counter changes nothing |
| Server.GameServer.OnCounterMoved | server.ts:219-237 | the room's counters become `Moved`; `CounterMoved` only when the counter exists |
| Server.GameServer.OnCounterRotated | server.ts:239-255 | the room's counters become `Rotated`; `CounterRotated` only when the counter exists |
| Server.GameServer.OnCardStackCreated | server.ts:259-273 | the room's stacks become `Insert` of the stack; `CardStackCreated` only for a new ID; a duplicate changes nothing |
| Server.GameServer.OnCardStackDeleted | server.ts:275-287 | the room's stacks become `Remove` of the ID; `CardStackDeleted` only when it was there |
| Server.GameServer.OnCardStackShuffled | server.ts:289-305 | the stack's cards are replaced by the new order; `CardStackShuffled` is broadcast with no payload; an absent stack changes nothing |
| Server.GameServer.OnCardStackModified | server.ts:307-323 | the stack's cards are replaced; `CardStackModified` is broadcast with no payload; an absent stack changes nothing |
| Server.GameServer.OnCardStackMoved | server.ts:325-346 | the room's stacks become `Moved`; `CardStackMoved` only when the stack exists |
| Server.GameServer.OnCardStackRotated | server.ts:348-369 | the room's stacks become `Rotated`; `CardStackRotated` only when the stack exists |

## Left out

- Transport: the HTTP server and `socket.io`, that is `socket.join`, `socket.leave` and `disconnectSockets`. A broadcast is recorded as the room it goes to plus the event, and the sockets that receive it are not modelled.
- Logging (`console.log`) and the `gameStr` rendering of a session: they are output only.
- The player ID is the socket's handshake address, and it is taken as a parameter. Two sockets from one address, which share one directory entry, are not modelled apart.
- The modules `./models` and `./events` that server.ts imports are not part of this model. The entity constructors are taken to copy the client's init args field by field. Event names are constructors of `Rooms.Event`.
- Positions, rotations and counter values are JavaScript numbers. They are modelled as `int`, because the server only stores and echoes them.
- Entity handlers for a player with no directory entry are not modelled. The source then looks up the room under the key `"undefined"`. If no room has that ID, the handler throws when it reads the room's table. If a room is named `"undefined"`, the handler acts on that room. Each entity method therefore requires the player to be in the directory, and the consistency invariant then guarantees that the room exists.
- Protocol.Join: room IDs are assumed not to name a property inherited from `Object.prototype`, such as `"constructor"`, `"toString"` or `"__proto__"`. `rooms` is a plain object, and `in` also finds inherited keys. For such an ID the source throws part-way. The player has already been dropped from its old room and sent to the ID by the directory, but no room is created and nothing is sent. The directory/membership agreement that `Protocol.JoinPreservesConsistent` proves then fails, and later joins and the disconnect of that player throw too.
- Protocol.Disconnect: the same assumption about room IDs applies. For an inherited name the source throws when it deletes the player from the missing room's member set.
- Entity IDs are assumed not to name an inherited `Object.prototype` property either, if the entity tables of the `./models` module are plain objects. For such an ID, a create is ignored or throws, and a move or rotate writes to a shared inherited object. None of this is modelled.
- `Protocol.Join` requires that a switching player's old room exists, because the source reads it unguarded. The invariant kept by `Server.GameServer.OnPlayerJoined` guarantees this.
- Games and entities are held as values inside the maps. In the source each session and entity object is reachable only through `rooms` and its own tables, so no aliasing is lost.
