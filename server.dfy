/** The socket handlers of server.ts. One `GameServer` holds the two
    process-wide maps and the broadcasts sent so far; each handler is a
    method that reads and updates them, one at a time, exactly as the
    single-threaded event loop runs them. A handler acting for a player
    receives the player's ID (the socket's address) as `p`. */
module Server {
  import opened Entities
  import opened Members
  import opened Rooms
  import opened Protocol

  class GameServer<D> {
    /** Room ID to game session. */
    var rooms: map<RoomId, Game<D>>
    /** Player ID to the room the player is in. */
    var players: map<PlayerId, RoomId>
    /** Every broadcast sent so far, oldest first. */
    var log: seq<Broadcast<D>>

    ghost function State(): Registry<D>
      reads this
    {
      Registry(rooms, players)
    }

    /** The directory and the memberships agree. */
    ghost predicate Valid()
      reads this
    {
      Consistent(State())
    }

    /** The server starts with no rooms and no players. */
    constructor ()
      ensures Valid() && rooms == map[] && players == map[] && log == []
    {
      rooms := map[];
      players := map[];
      log := [];
    }

    // Out-of-game events

    /** `Disconnecting`: the player leaves the directory and its room; an
        emptied room is closed, a departing host is replaced. */
    method OnDisconnecting(p: PlayerId)
      requires Valid()
      modifies this
      ensures Valid()
      ensures State() == Disconnect(old(State()), p).next
      ensures log == old(log) + Disconnect(old(State()), p).events
    {
      ghost var before := State();
      if p in players {
        var roomId := players[p];
        players := players - {p};
        if roomId in rooms {
          var gameState := rooms[roomId];
          gameState := gameState.(players := Removed(gameState.players, p));
          if |gameState.players| == 0 {
            rooms := rooms - {roomId};
          } else if gameState.hostId == p {
            gameState := gameState.(hostId := gameState.players[0]);
            rooms := rooms[roomId := gameState];
            log := log + [Broadcast(roomId, PlayerLeft(p))];
          } else {
            rooms := rooms[roomId := gameState];
          }
        }
      }
      DisconnectPreservesConsistent(before, p);
    }

    /** `PlayerJoined`: the player leaves its old room (if different), the
        directory sends it to `roomId`, and the room is joined or created. */
    method OnPlayerJoined(p: PlayerId, roomId: RoomId)
      requires Valid()
      modifies this
      ensures Valid()
      ensures State() == Join(old(State()), p, roomId).next
      ensures log == old(log) + Join(old(State()), p, roomId).events
    {
      ghost var before := State();
      if p in players && players[p] != roomId {
        var oldRoomId := players[p];
        var oldRoom := rooms[oldRoomId];
        rooms := rooms[oldRoomId := oldRoom.(players := Removed(oldRoom.players, p))];
      }
      players := players[p := roomId];
      if roomId in rooms {
        var room := rooms[roomId];
        rooms := rooms[roomId := room.(players := Added(room.players, p))];
        log := log + [Broadcast(roomId, PlayerJoined(p))];
      } else {
        rooms := rooms[roomId := NewGame(roomId, p)];
        log := log + [Broadcast(roomId, RoomCreated(roomId, p))];
      }
      JoinPreservesConsistent(before, p, roomId);
    }

    // In-game events: cards

    method OnCardCreated(p: PlayerId, card: Card<D>)
      requires Valid() && p in players
      modifies this
      ensures Valid() && players == old(players)
      ensures var r := players[p];
              var g := old(rooms)[r];
              && rooms == old(rooms)[r := g.(cards := Insert(g.cards, card))]
              && log == old(log) + if card.id in g.cards then [] else [Broadcast(r, CardCreated(card))]
      ensures card.id in old(rooms)[players[p]].cards ==> unchanged(this)
    {
      var roomId := players[p];
      var room := rooms[roomId];
      if card.id !in room.cards {
        room := room.(cards := room.cards[card.id := card]);
        EntityChangeKeepsConsistent(State(), roomId, room);
        rooms := rooms[roomId := room];
        log := log + [Broadcast(roomId, CardCreated(card))];
      }
    }

    method OnCardDeleted(p: PlayerId, cardId: EntityId)
      requires Valid() && p in players
      modifies this
      ensures Valid() && players == old(players)
      ensures var r := players[p];
              var g := old(rooms)[r];
              && rooms == old(rooms)[r := g.(cards := Remove(g.cards, cardId))]
              && log == old(log) + if cardId in g.cards then [Broadcast(r, CardDeleted(cardId))] else []
      ensures cardId !in old(rooms)[players[p]].cards ==> unchanged(this)
    {
      var roomId := players[p];
      var room := rooms[roomId];
      if cardId in room.cards {
        room := room.(cards := room.cards - {cardId});
        EntityChangeKeepsConsistent(State(), roomId, room);
        rooms := rooms[roomId := room];
        log := log + [Broadcast(roomId, CardDeleted(cardId))];
      }
    }

    method OnCardMoved(p: PlayerId, cardId: EntityId, x: Num, y: Num)
      requires Valid() && p in players
      modifies this
      ensures Valid() && players == old(players)
      ensures var r := players[p];
              var g := old(rooms)[r];
              && rooms == old(rooms)[r := g.(cards := Moved(g.cards, cardId, x, y))]
              && log == old(log) + if cardId in g.cards then [Broadcast(r, CardMoved(cardId, x, y))] else []
      ensures cardId !in old(rooms)[players[p]].cards ==> unchanged(this)
    {
      var roomId := players[p];
      var room := rooms[roomId];
      if cardId in room.cards {
        var card := room.cards[cardId];
        room := room.(cards := room.cards[cardId := card.(x := x, y := y)]);
        EntityChangeKeepsConsistent(State(), roomId, room);
        rooms := rooms[roomId := room];
        log := log + [Broadcast(roomId, CardMoved(cardId, x, y))];
      }
    }

    method OnCardRotated(p: PlayerId, cardId: EntityId, rotation: Num)
      requires Valid() && p in players
      modifies this
      ensures Valid() && players == old(players)
      ensures var r := players[p];
              var g := old(rooms)[r];
              && rooms == old(rooms)[r := g.(cards := Rotated(g.cards, cardId, rotation))]
              && log == old(log) + if cardId in g.cards then [Broadcast(r, CardRotated(cardId, rotation))] else []
      ensures cardId !in old(rooms)[players[p]].cards ==> unchanged(this)
    {
      var roomId := players[p];
      var room := rooms[roomId];
      if cardId in room.cards {
        var card := room.cards[cardId];
        room := room.(cards := room.cards[cardId := card.(rotation := rotation)]);
        EntityChangeKeepsConsistent(State(), roomId, room);
        rooms := rooms[roomId := room];
        log := log + [Broadcast(roomId, CardRotated(cardId, rotation))];
      }
    }

    // In-game events: counters

    method OnCounterCreated(p: PlayerId, counter: Counter)
      requires Valid() && p in players
      modifies this
      ensures Valid() && players == old(players)
      ensures var r := players[p];
              var g := old(rooms)[r];
              && rooms == old(rooms)[r := g.(counters := Insert(g.counters, counter))]
              && log == old(log) + if counter.id in g.counters then [] else [Broadcast(r, CounterCreated(counter))]
      ensures counter.id in old(rooms)[players[p]].counters ==> unchanged(this)
    {
      var roomId := players[p];
      var room := rooms[roomId];
      if counter.id !in room.counters {
        room := room.(counters := room.counters[counter.id := counter]);
        EntityChangeKeepsConsistent(State(), roomId, room);
        rooms := rooms[roomId := room];
        log := log + [Broadcast(roomId, CounterCreated(counter))];
      }
    }

    method OnCounterDeleted(p: PlayerId, counterId: EntityId)
      requires Valid() && p in players
      modifies this
      ensures Valid() && players == old(players)
      ensures var r := players[p];
              var g := old(rooms)[r];
              && rooms == old(rooms)[r := g.(counters := Remove(g.counters, counterId))]
              && log == old(log) + if counterId in g.counters then [Broadcast(r, CounterDeleted(counterId))] else []
      ensures counterId !in old(rooms)[players[p]].counters ==> unchanged(this)
    {
      var roomId := players[p];
      var room := rooms[roomId];
      if counterId in room.counters {
        room := room.(counters := room.counters - {counterId});
        EntityChangeKeepsConsistent(State(), roomId, room);
        rooms := rooms[roomId := room];
        log := log + [Broadcast(roomId, CounterDeleted(counterId))];
      }
    }

    /** The new values travel with the event. */
    method OnCounterValsChanged(p: PlayerId, counterId: EntityId, vals: seq<Num>)
      requires Valid() && p in players
      modifies this
      ensures Valid() && players == old(players)
      ensures var r := players[p];
              var g := old(rooms)[r];
              && rooms == old(rooms)[r := g.(counters := Replaced(g.counters, counterId, vals))]
              && log == old(log) + if counterId in g.counters then [Broadcast(r, CounterValsChanged(counterId, vals))] else []
      ensures counterId !in old(rooms)[players[p]].counters ==> unchanged(this)
    {
      var roomId := players[p];
      var room := rooms[roomId];
      if counterId in room.counters {
        var counter := room.counters[counterId];
        room := room.(counters := room.counters[counterId := counter.(payload := vals)]);
        EntityChangeKeepsConsistent(State(), roomId, room);
        rooms := rooms[roomId := room];
        log := log + [Broadcast(roomId, CounterValsChanged(counterId, vals))];
      }
    }

    method OnCounterMoved(p: PlayerId, counterId: EntityId, x: Num, y: Num)
      requires Valid() && p in players
      modifies this
      ensures Valid() && players == old(players)
      ensures var r := players[p];
              var g := old(rooms)[r];
              && rooms == old(rooms)[r := g.(counters := Moved(g.counters, counterId, x, y))]
              && log == old(log) + if counterId in g.counters then [Broadcast(r, CounterMoved(counterId, x, y))] else []
      ensures counterId !in old(rooms)[players[p]].counters ==> unchanged(this)
    {
      var roomId := players[p];
      var room := rooms[roomId];
      if counterId in room.counters {
        var counter := room.counters[counterId];
        room := room.(counters := room.counters[counterId := counter.(x := x, y := y)]);
        EntityChangeKeepsConsistent(State(), roomId, room);
        rooms := rooms[roomId := room];
        log := log + [Broadcast(roomId, CounterMoved(counterId, x, y))];
      }
    }

    method OnCounterRotated(p: PlayerId, counterId: EntityId, rotation: Num)
      requires Valid() && p in players
      modifies this
      ensures Valid() && players == old(players)
      ensures var r := players[p];
              var g := old(rooms)[r];
              && rooms == old(rooms)[r := g.(counters := Rotated(g.counters, counterId, rotation))]
              && log == old(log) + if counterId in g.counters then [Broadcast(r, CounterRotated(counterId, rotation))] else []
      ensures counterId !in old(rooms)[players[p]].counters ==> unchanged(this)
    {
      var roomId := players[p];
      var room := rooms[roomId];
      if counterId in room.counters {
        var counter := room.counters[counterId];
        room := room.(counters := room.counters[counterId := counter.(rotation := rotation)]);
        EntityChangeKeepsConsistent(State(), roomId, room);
        rooms := rooms[roomId := room];
        log := log + [Broadcast(roomId, CounterRotated(counterId, rotation))];
      }
    }

    // In-game events: card stacks

    method OnCardStackCreated(p: PlayerId, cardStack: CardStack<D>)
      requires Valid() && p in players
      modifies this
      ensures Valid() && players == old(players)
      ensures var r := players[p];
              var g := old(rooms)[r];
              && rooms == old(rooms)[r := g.(cardStacks := Insert(g.cardStacks, cardStack))]
              && log == old(log) + if cardStack.id in g.cardStacks then [] else [Broadcast(r, CardStackCreated(cardStack))]
      ensures cardStack.id in old(rooms)[players[p]].cardStacks ==> unchanged(this)
    {
      var roomId := players[p];
      var room := rooms[roomId];
      if cardStack.id !in room.cardStacks {
        room := room.(cardStacks := room.cardStacks[cardStack.id := cardStack]);
        EntityChangeKeepsConsistent(State(), roomId, room);
        rooms := rooms[roomId := room];
        log := log + [Broadcast(roomId, CardStackCreated(cardStack))];
      }
    }

    method OnCardStackDeleted(p: PlayerId, cardStackId: EntityId)
      requires Valid() && p in players
      modifies this
      ensures Valid() && players == old(players)
      ensures var r := players[p];
              var g := old(rooms)[r];
              && rooms == old(rooms)[r := g.(cardStacks := Remove(g.cardStacks, cardStackId))]
              && log == old(log) + if cardStackId in g.cardStacks then [Broadcast(r, CardStackDeleted(cardStackId))] else []
      ensures cardStackId !in old(rooms)[players[p]].cardStacks ==> unchanged(this)
    {
      var roomId := players[p];
      var room := rooms[roomId];
      if cardStackId in room.cardStacks {
        room := room.(cardStacks := room.cardStacks - {cardStackId});
        EntityChangeKeepsConsistent(State(), roomId, room);
        rooms := rooms[roomId := room];
        log := log + [Broadcast(roomId, CardStackDeleted(cardStackId))];
      }
    }

    /** The new order of the cards is stored but not broadcast. */
    method OnCardStackShuffled(p: PlayerId, cardStackId: EntityId, cards: seq<D>)
      requires Valid() && p in players
      modifies this
      ensures Valid() && players == old(players)
      ensures var r := players[p];
              var g := old(rooms)[r];
              && rooms == old(rooms)[r := g.(cardStacks := Replaced(g.cardStacks, cardStackId, cards))]
              && log == old(log) + if cardStackId in g.cardStacks then [Broadcast(r, CardStackShuffled)] else []
      ensures cardStackId !in old(rooms)[players[p]].cardStacks ==> unchanged(this)
    {
      var roomId := players[p];
      var room := rooms[roomId];
      if cardStackId in room.cardStacks {
        var cardStack := room.cardStacks[cardStackId];
        room := room.(cardStacks := room.cardStacks[cardStackId := cardStack.(payload := cards)]);
        EntityChangeKeepsConsistent(State(), roomId, room);
        rooms := rooms[roomId := room];
        log := log + [Broadcast(roomId, CardStackShuffled)];
      }
    }

    /** The new cards are stored but not broadcast. */
    method OnCardStackModified(p: PlayerId, cardStackId: EntityId, cards: seq<D>)
      requires Valid() && p in players
      modifies this
      ensures Valid() && players == old(players)
      ensures var r := players[p];
              var g := old(rooms)[r];
              && rooms == old(rooms)[r := g.(cardStacks := Replaced(g.cardStacks, cardStackId, cards))]
              && log == old(log) + if cardStackId in g.cardStacks then [Broadcast(r, CardStackModified)] else []
      ensures cardStackId !in old(rooms)[players[p]].cardStacks ==> unchanged(this)
    {
      var roomId := players[p];
      var room := rooms[roomId];
      if cardStackId in room.cardStacks {
        var cardStack := room.cardStacks[cardStackId];
        room := room.(cardStacks := room.cardStacks[cardStackId := cardStack.(payload := cards)]);
        EntityChangeKeepsConsistent(State(), roomId, room);
        rooms := rooms[roomId := room];
        log := log + [Broadcast(roomId, CardStackModified)];
      }
    }

    method OnCardStackMoved(p: PlayerId, cardStackId: EntityId, x: Num, y: Num)
      requires Valid() && p in players
      modifies this
      ensures Valid() && players == old(players)
      ensures var r := players[p];
              var g := old(rooms)[r];
              && rooms == old(rooms)[r := g.(cardStacks := Moved(g.cardStacks, cardStackId, x, y))]
              && log == old(log) + if cardStackId in g.cardStacks then [Broadcast(r, CardStackMoved(cardStackId, x, y))] else []
      ensures cardStackId !in old(rooms)[players[p]].cardStacks ==> unchanged(this)
    {
      var roomId := players[p];
      var room := rooms[roomId];
      if cardStackId in room.cardStacks {
        var cardStack := room.cardStacks[cardStackId];
        room := room.(cardStacks := room.cardStacks[cardStackId := cardStack.(x := x, y := y)]);
        EntityChangeKeepsConsistent(State(), roomId, room);
        rooms := rooms[roomId := room];
        log := log + [Broadcast(roomId, CardStackMoved(cardStackId, x, y))];
      }
    }

    method OnCardStackRotated(p: PlayerId, cardStackId: EntityId, rotation: Num)
      requires Valid() && p in players
      modifies this
      ensures Valid() && players == old(players)
      ensures var r := players[p];
              var g := old(rooms)[r];
              && rooms == old(rooms)[r := g.(cardStacks := Rotated(g.cardStacks, cardStackId, rotation))]
              && log == old(log) + if cardStackId in g.cardStacks then [Broadcast(r, CardStackRotated(cardStackId, rotation))] else []
      ensures cardStackId !in old(rooms)[players[p]].cardStacks ==> unchanged(this)
    {
      var roomId := players[p];
      var room := rooms[roomId];
      if cardStackId in room.cardStacks {
        var cardStack := room.cardStacks[cardStackId];
        room := room.(cardStacks := room.cardStacks[cardStackId := cardStack.(rotation := rotation)]);
        EntityChangeKeepsConsistent(State(), roomId, room);
        rooms := rooms[roomId := room];
        log := log + [Broadcast(roomId, CardStackRotated(cardStackId, rotation))];
      }
    }
  }
}
