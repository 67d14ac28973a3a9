/** The placed objects of a room (`Card`, `Counter`, `CardStack`) and the
    tables that hold them. The three kinds differ only in their payload, so
    one record type and one set of table operations serve all of them; each
    operation is what one branch of a socket handler in server.ts does to
    `room.cards`, `room.counters` or `room.cardStacks`. */
module Entities {

  type EntityId = string

  /** Positions, rotations and counter values: JavaScript numbers that the
      server only stores and echoes, never computes with. */
  type Num = int

  /** A placed object. Its constructor copies the client's init args field by
      field, so the init args and the stored entity are the same record.
      The payload is a card's catalogue data, a counter's values or a
      stack's cards. */
  datatype Entity<P> = Entity(id: EntityId, x: Num, y: Num, rotation: Num, payload: P)

  /** The three kinds: a card's payload is its catalogue data `D`, a
      counter's its values, a stack's its cards. */
  type Card<D> = Entity<D>
  type Counter = Entity<seq<Num>>
  type CardStack<D> = Entity<seq<D>>

  /** One of a room's entity maps, keyed by entity ID. */
  type Table<P> = map<EntityId, Entity<P>>

  /** Every entity is stored under its own ID (`room.cards[card.ID] = card`). */
  ghost predicate Keyed<P>(m: Table<P>) {
    forall k :: k in m ==> m[k].id == k
  }

  /** Create: an ID already in the table is ignored; otherwise exactly
      that entity is added and nothing else changes. */
  function Insert<P>(m: Table<P>, e: Entity<P>): (m': Table<P>)
    ensures e.id in m ==> m' == m
    ensures e.id !in m ==> m'.Keys == m.Keys + {e.id} && m'[e.id] == e
    ensures forall k :: k in m ==> k in m' && m'[k] == m[k]
    ensures Keyed(m) ==> Keyed(m')
  {
    if e.id in m then m else m[e.id := e]
  }

  /** Delete: the ID leaves the table, every other entry stays; an absent ID
      changes nothing. */
  function Remove<P>(m: Table<P>, id: EntityId): (m': Table<P>)
    ensures m'.Keys == m.Keys - {id}
    ensures forall k :: k in m' ==> m'[k] == m[k]
    ensures id !in m ==> m' == m
    ensures Keyed(m) ==> Keyed(m')
  {
    m - {id}
  }

  /** Move: only `x` and `y` of the named entity are overwritten; its ID,
      rotation and payload, and every other entity, stay. An absent ID
      changes nothing. */
  function Moved<P>(m: Table<P>, id: EntityId, x: Num, y: Num): (m': Table<P>)
    ensures m'.Keys == m.Keys
    ensures id !in m ==> m' == m
    ensures id in m ==> && m'[id].x == x && m'[id].y == y
                        && m'[id].id == m[id].id
                        && m'[id].rotation == m[id].rotation
                        && m'[id].payload == m[id].payload
    ensures forall k :: k in m && k != id ==> m'[k] == m[k]
    ensures Keyed(m) ==> Keyed(m')
  {
    if id in m then m[id := m[id].(x := x, y := y)] else m
  }

  /** Rotate: only `rotation` of the named entity is overwritten. */
  function Rotated<P>(m: Table<P>, id: EntityId, rotation: Num): (m': Table<P>)
    ensures m'.Keys == m.Keys
    ensures id !in m ==> m' == m
    ensures id in m ==> && m'[id].rotation == rotation
                        && m'[id].id == m[id].id
                        && m'[id].x == m[id].x && m'[id].y == m[id].y
                        && m'[id].payload == m[id].payload
    ensures forall k :: k in m && k != id ==> m'[k] == m[k]
    ensures Keyed(m) ==> Keyed(m')
  {
    if id in m then m[id := m[id].(rotation := rotation)] else m
  }

  /** Payload replace (counter values changed, stack shuffled or modified):
      the named entity's whole payload becomes `payload`; position and
      rotation stay. */
  function Replaced<P>(m: Table<P>, id: EntityId, payload: P): (m': Table<P>)
    ensures m'.Keys == m.Keys
    ensures id !in m ==> m' == m
    ensures id in m ==> && m'[id].payload == payload
                        && m'[id].id == m[id].id
                        && m'[id].x == m[id].x && m'[id].y == m[id].y
                        && m'[id].rotation == m[id].rotation
    ensures forall k :: k in m && k != id ==> m'[k] == m[k]
    ensures Keyed(m) ==> Keyed(m')
  {
    if id in m then m[id := m[id].(payload := payload)] else m
  }

  /** Creating the same ID twice keeps the first entity, whatever the second
      one carries. */
  lemma InsertKeepsFirst<P>(m: Table<P>, e1: Entity<P>, e2: Entity<P>)
    requires e1.id == e2.id
    ensures Insert(Insert(m, e1), e2) == Insert(m, e1)
    ensures e1.id !in m ==> Insert(Insert(m, e1), e2)[e1.id] == e1
  {
  }

  /** Last write wins: of two moves of one entity, the second decides its
      position, whatever the first said. */
  lemma MovedTwice<P>(m: Table<P>, id: EntityId, x1: Num, y1: Num, x2: Num, y2: Num)
    ensures Moved(Moved(m, id, x1, y1), id, x2, y2) == Moved(m, id, x2, y2)
  {
  }

  /** Last write wins for rotations. */
  lemma RotatedTwice<P>(m: Table<P>, id: EntityId, r1: Num, r2: Num)
    ensures Rotated(Rotated(m, id, r1), id, r2) == Rotated(m, id, r2)
  {
  }

  /** Last write wins for payload replacement. */
  lemma ReplacedTwice<P>(m: Table<P>, id: EntityId, p1: P, p2: P)
    ensures Replaced(Replaced(m, id, p1), id, p2) == Replaced(m, id, p2)
  {
  }

  /** Moves of two different entities do not interfere: their order does not
      matter. */
  lemma MovesOfDistinctEntitiesCommute<P>(m: Table<P>, a: EntityId, xa: Num, ya: Num,
                                          b: EntityId, xb: Num, yb: Num)
    requires a != b
    ensures Moved(Moved(m, a, xa, ya), b, xb, yb) == Moved(Moved(m, b, xb, yb), a, xa, ya)
  {
  }
}
