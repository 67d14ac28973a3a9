/** A game session (`Game`) and the events the server broadcasts to the
    players of a room. */
module Rooms {
  import opened Entities
  import opened Members

  type PlayerId = string
  type RoomId = string

  /** One room: its ID, its host, its members in the order they were added,
      and its three entity maps, each a namespace of its own. */
  datatype Game<D> = Game(
    roomId: RoomId,
    hostId: PlayerId,
    players: seq<PlayerId>,
    cards: map<EntityId, Card<D>>,
    counters: map<EntityId, Counter>,
    cardStacks: map<EntityId, CardStack<D>>)

  /** A room stored under `roomId`: it carries that ID, its membership has no
      duplicates, and each entity sits under its own ID. */
  ghost predicate WellFormed<D>(roomId: RoomId, g: Game<D>) {
    && g.roomId == roomId
    && Distinct(g.players)
    && Keyed(g.cards) && Keyed(g.counters) && Keyed(g.cardStacks)
  }

  /** The room holds no entity at all. */
  ghost predicate NoEntities<D>(g: Game<D>) {
    g.cards == map[] && g.counters == map[] && g.cardStacks == map[]
  }

  /** `new Game({roomID, hostID})`: the creator is the only member and the
      host, and the room starts with no entities. */
  function NewGame<D>(roomId: RoomId, hostId: PlayerId): (g: Game<D>)
    ensures WellFormed(roomId, g) && NoEntities(g)
    ensures g.hostId == hostId
    ensures forall q :: q in g.players <==> q == hostId
  {
    Game(roomId, hostId, [hostId], map[], map[], map[])
  }

  /** The events a room's sockets receive. `RoomCreated` carries the room's
      init args; the creation events carry the client's init args; shuffle
      and modify carry nothing; changed counter values travel with their
      event. */
  datatype Event<D> =
    | RoomCreated(roomId: RoomId, hostId: PlayerId)
    | PlayerJoined(player: PlayerId)
    | PlayerLeft(player: PlayerId)
    | CardCreated(card: Card<D>)
    | CardDeleted(id: EntityId)
    | CardMoved(id: EntityId, x: Num, y: Num)
    | CardRotated(id: EntityId, rotation: Num)
    | CounterCreated(counter: Counter)
    | CounterDeleted(id: EntityId)
    | CounterValsChanged(id: EntityId, vals: seq<Num>)
    | CounterMoved(id: EntityId, x: Num, y: Num)
    | CounterRotated(id: EntityId, rotation: Num)
    | CardStackCreated(cardStack: CardStack<D>)
    | CardStackDeleted(id: EntityId)
    | CardStackShuffled
    | CardStackModified
    | CardStackMoved(id: EntityId, x: Num, y: Num)
    | CardStackRotated(id: EntityId, rotation: Num)

  /** `io.to(room).emit(event, ...)`: one event sent to every socket in a room. */
  datatype Broadcast<D> = Broadcast(room: RoomId, event: Event<D>)
}
