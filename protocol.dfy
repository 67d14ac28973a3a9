/** The room registry (`rooms`: room ID to game) and the player directory
    (`players`: player ID to room ID) of server.ts, and what joining and
    disconnecting do to them. These two handlers are the ones that change
    room membership, so they are stated here as functions over both maps,
    and the invariants of the registry are proved about them. */
module Protocol {
  import opened Entities
  import opened Members
  import opened Rooms

  /** Both process-wide maps. */
  datatype Registry<D> = Registry(rooms: map<RoomId, Game<D>>, players: map<PlayerId, RoomId>)

  /** What one handler leaves behind: the new maps and the broadcasts it sent,
      in order. */
  datatype Step<D> = Step(next: Registry<D>, events: seq<Broadcast<D>>)

  /** The directory and the rooms' memberships agree: a player is a member of
      room `r` exactly when the directory sends it to `r`, and every room is
      well formed. */
  ghost predicate Consistent<D>(reg: Registry<D>) {
    && (forall p :: p in reg.players ==> reg.players[p] in reg.rooms && p in reg.rooms[reg.players[p]].players)
    && (forall r, p {:trigger p in reg.rooms[r].players} :: r in reg.rooms && p in reg.rooms[r].players ==> p in reg.players && reg.players[p] == r)
    && (forall r :: r in reg.rooms ==> WellFormed(r, reg.rooms[r]))
  }

  /** Every room has members and its host is one of them. */
  ghost predicate Settled<D>(reg: Registry<D>) {
    forall r :: r in reg.rooms ==> reg.rooms[r].hostId in reg.rooms[r].players
  }

  /** The player is in a room and asks to join a different one. */
  predicate Switches<D>(reg: Registry<D>, p: PlayerId, r: RoomId) {
    p in reg.players && reg.players[p] != r
  }

  /** What the join handler needs: a player switching rooms has an old room to
      be removed from (`rooms[oldRoomID]` is read unguarded). */
  predicate CanJoin<D>(reg: Registry<D>, p: PlayerId, r: RoomId) {
    Switches(reg, p, r) ==> reg.players[p] in reg.rooms
  }

  /** The player's directory entry leads to an existing room. */
  predicate Placed<D>(reg: Registry<D>, p: PlayerId) {
    p in reg.players && reg.players[p] in reg.rooms
  }

  /** The `PlayerJoined` handler. A player switching rooms is dropped from the
      old room, which keeps its host and is kept even when it is now empty.
      The directory then sends the player to `r`. An existing room gains the
      player and keeps its host, and the room hears `PlayerJoined`; a missing
      room is created with the player as host and hears `RoomCreated`. */
  function Join<D>(reg: Registry<D>, p: PlayerId, r: RoomId): (s: Step<D>)
    requires CanJoin(reg, p, r)
    ensures s.next.players == reg.players[p := r]
    ensures s.next.rooms.Keys == reg.rooms.Keys + {r}
    ensures r !in reg.rooms ==>
              && s.next.rooms[r] == NewGame(r, p)
              && s.events == [Broadcast(r, RoomCreated(r, p))]
    ensures r in reg.rooms ==>
              && s.next.rooms[r] == reg.rooms[r].(players := s.next.rooms[r].players)
              && s.next.rooms[r].players == Added(reg.rooms[r].players, p)
              && (forall q :: q in s.next.rooms[r].players <==> q in reg.rooms[r].players || q == p)
              && s.events == [Broadcast(r, PlayerJoined(p))]
    ensures Switches(reg, p, r) ==>
              var o := reg.players[p];
              && s.next.rooms[o] == reg.rooms[o].(players := s.next.rooms[o].players)
              && s.next.rooms[o].players == Removed(reg.rooms[o].players, p)
              && (forall q :: q in s.next.rooms[o].players <==> q in reg.rooms[o].players && q != p)
    ensures forall o :: o in reg.rooms && o != r && !(p in reg.players && reg.players[p] == o) ==>
              s.next.rooms[o] == reg.rooms[o]
  {
    var rooms :=
      if Switches(reg, p, r) then
        var oldRoomId := reg.players[p];
        var oldRoom := reg.rooms[oldRoomId];
        reg.rooms[oldRoomId := oldRoom.(players := Removed(oldRoom.players, p))]
      else reg.rooms;
    var players := reg.players[p := r];
    if r in rooms then
      Step(Registry(rooms[r := rooms[r].(players := Added(rooms[r].players, p))], players),
           [Broadcast(r, PlayerJoined(p))])
    else
      Step(Registry(rooms[r := NewGame(r, p)], players),
           [Broadcast(r, RoomCreated(r, p))])
  }

  /** The `Disconnecting` handler. The player leaves the directory and its
      room. A room left empty is closed; otherwise, if the player was host,
      the earliest-added remaining member becomes host and the room hears
      `PlayerLeft` once. A non-host leaves silently. */
  function Disconnect<D>(reg: Registry<D>, p: PlayerId): (s: Step<D>)
    ensures s.next.players == reg.players - {p}
    ensures !Placed(reg, p) ==> s.next.rooms == reg.rooms && s.events == []
    ensures Placed(reg, p) ==>
              var r := reg.players[p];
              var g := reg.rooms[r];
              && s.next.rooms.Keys <= reg.rooms.Keys
              && (forall o :: o in reg.rooms && o != r ==> o in s.next.rooms && s.next.rooms[o] == reg.rooms[o])
              && (r !in s.next.rooms <==> forall q :: q in g.players ==> q == p)
              && (r !in s.next.rooms ==> s.events == [])
    ensures Placed(reg, p) && reg.players[p] in s.next.rooms ==>
              var r := reg.players[p];
              var g := reg.rooms[r];
              var g' := s.next.rooms[r];
              && g' == g.(players := g'.players, hostId := g'.hostId)
              && g'.players == Removed(g.players, p)
              && (forall q :: q in g'.players <==> q in g.players && q != p)
              && (g.hostId == p ==> && EarliestOtherThan(g.players, p, g'.hostId)
                                    && g'.hostId in g'.players
                                    && s.events == [Broadcast(r, PlayerLeft(p))])
              && (g.hostId != p ==> g'.hostId == g.hostId && s.events == [])
  {
    if p !in reg.players then
      Step(reg, [])
    else
      var r := reg.players[p];
      var players := reg.players - {p};
      if r !in reg.rooms then
        Step(Registry(reg.rooms, players), [])
      else
        var g := reg.rooms[r].(players := Removed(reg.rooms[r].players, p));
        if |g.players| == 0 then
          Step(Registry(reg.rooms - {r}, players), [])
        else if g.hostId == p then
          assert g.players[0] in reg.rooms[r].players && g.players[0] != p;
          Step(Registry(reg.rooms[r := g.(hostId := g.players[0])], players),
               [Broadcast(r, PlayerLeft(p))])
        else
          assert g.players[0] in reg.rooms[r].players && g.players[0] != p;
          Step(Registry(reg.rooms[r := g], players), [])
  }

  /** Joining keeps the directory and the memberships in agreement; this is
      also what makes the unguarded read of the old room safe on the next
      switch. */
  lemma {:induction false} JoinPreservesConsistent<D>(reg: Registry<D>, p: PlayerId, r: RoomId)
    requires Consistent(reg)
    ensures Consistent(Join(reg, p, r).next)
  {
    JoinKeepsDirectory(reg, p, r);
    JoinKeepsMemberships(reg, p, r);
    JoinKeepsRoomsWellFormed(reg, p, r);
  }

  lemma {:induction false} JoinKeepsDirectory<D>(reg: Registry<D>, p: PlayerId, r: RoomId)
    requires Consistent(reg)
    ensures var n := Join(reg, p, r).next;
            forall x :: x in n.players ==> n.players[x] in n.rooms && x in n.rooms[n.players[x]].players
  {
    var n := Join(reg, p, r).next;
    forall x | x in n.players
      ensures n.players[x] in n.rooms && x in n.rooms[n.players[x]].players
    {
      if x == p {
        if r !in reg.rooms {
          assert n.rooms[r] == NewGame(r, p);
        }
      } else {
        var o := reg.players[x];
        assert x in reg.rooms[o].players;
        if o != r && !(Switches(reg, p, r) && o == reg.players[p]) {
          assert n.rooms[o] == reg.rooms[o];
        }
      }
    }
  }

  lemma {:induction false} JoinKeepsMemberships<D>(reg: Registry<D>, p: PlayerId, r: RoomId)
    requires Consistent(reg)
    ensures var n := Join(reg, p, r).next;
            forall o, x {:trigger x in n.rooms[o].players} ::
              o in n.rooms && x in n.rooms[o].players ==> x in n.players && n.players[x] == o
  {
    var n := Join(reg, p, r).next;
    forall o, x | o in n.rooms && x in n.rooms[o].players
      ensures x in n.players && n.players[x] == o
    {
      if o == r {
        if r !in reg.rooms {
          assert n.rooms[r] == NewGame(r, p);
        }
      } else if Switches(reg, p, r) && o == reg.players[p] {
        assert x in reg.rooms[o].players && x != p;
      } else {
        assert n.rooms[o] == reg.rooms[o];
        assert reg.players[x] == o;
      }
    }
  }

  lemma {:induction false} JoinKeepsRoomsWellFormed<D>(reg: Registry<D>, p: PlayerId, r: RoomId)
    requires Consistent(reg)
    ensures var n := Join(reg, p, r).next;
            forall o :: o in n.rooms ==> WellFormed(o, n.rooms[o])
  {
    var n := Join(reg, p, r).next;
    forall o | o in n.rooms ensures WellFormed(o, n.rooms[o]) {
      if o == r && r in reg.rooms {
        assert n.rooms[o].players == Added(reg.rooms[o].players, p);
      } else if Switches(reg, p, r) && o == reg.players[p] {
        assert n.rooms[o].players == Removed(reg.rooms[o].players, p);
      }
    }
  }

  /** Disconnecting keeps the directory and the memberships in agreement. */
  lemma {:induction false} DisconnectPreservesConsistent<D>(reg: Registry<D>, p: PlayerId)
    requires Consistent(reg)
    ensures Consistent(Disconnect(reg, p).next)
  {
    var n := Disconnect(reg, p).next;
    if p !in reg.players {
      assert n == reg;
    } else {
      var r := reg.players[p];
      var g := reg.rooms[r];
      var left := Removed(g.players, p);
      assert n.players == reg.players - {p};
      if |left| == 0 {
        assert n.rooms == reg.rooms - {r};
        ClosingRoomKeepsConsistent(reg, p);
      } else {
        var h := if g.hostId == p then left[0] else g.hostId;
        assert n.rooms == reg.rooms[r := g.(players := left, hostId := h)];
        LeavingRoomKeepsConsistent(reg, p, h);
      }
    }
  }

  /** The last member leaves: the room is closed along with its directory entry. */
  lemma {:induction false} ClosingRoomKeepsConsistent<D>(reg: Registry<D>, p: PlayerId)
    requires Consistent(reg) && p in reg.players
    requires |Removed(reg.rooms[reg.players[p]].players, p)| == 0
    ensures Consistent(Registry(reg.rooms - {reg.players[p]}, reg.players - {p}))
  {
    var r := reg.players[p];
    var n := Registry(reg.rooms - {r}, reg.players - {p});
    forall x | x in n.players
      ensures n.players[x] in n.rooms && x in n.rooms[n.players[x]].players
    {
      var o := reg.players[x];
      assert x in reg.rooms[o].players && x != p;
      assert o != r by {
        assert x !in Removed(reg.rooms[r].players, p);
      }
    }
  }

  /** A member leaves a room that keeps other members, with host `h`. */
  lemma {:induction false} LeavingRoomKeepsConsistent<D>(reg: Registry<D>, p: PlayerId, h: PlayerId)
    requires Consistent(reg) && p in reg.players
    ensures var r := reg.players[p];
            var g := reg.rooms[r];
            Consistent(Registry(reg.rooms[r := g.(players := Removed(g.players, p), hostId := h)],
                                reg.players - {p}))
  {
    var r := reg.players[p];
    var g := reg.rooms[r];
    var left := Removed(g.players, p);
    var n := Registry(reg.rooms[r := g.(players := left, hostId := h)], reg.players - {p});
    forall x | x in n.players
      ensures n.players[x] in n.rooms && x in n.rooms[n.players[x]].players
    {
      var o := reg.players[x];
      assert x in reg.rooms[o].players && x != p;
    }
    forall o, x | o in n.rooms && x in n.rooms[o].players
      ensures x in n.players && n.players[x] == o
    {
      if o == r {
        assert x in g.players && x != p;
      } else {
        assert x in reg.rooms[o].players;
      }
    }
  }

  /** The entity handlers change only a room's entity maps, so they keep the
      directory and the memberships in agreement. */
  lemma {:induction false} EntityChangeKeepsConsistent<D>(reg: Registry<D>, r: RoomId, g: Game<D>)
    requires Consistent(reg) && r in reg.rooms
    requires g == reg.rooms[r].(cards := g.cards, counters := g.counters, cardStacks := g.cardStacks)
    requires Keyed(g.cards) && Keyed(g.counters) && Keyed(g.cardStacks)
    ensures Consistent(Registry(reg.rooms[r := g], reg.players))
  {
  }

  /** Disconnecting never leaves a room without its host: an emptied room is
      closed, and a departing host is replaced by a remaining member. */
  lemma {:induction false} DisconnectPreservesSettled<D>(reg: Registry<D>, p: PlayerId)
    requires Consistent(reg) && Settled(reg)
    ensures Settled(Disconnect(reg, p).next)
  {
  }

  /** Joining keeps every room's host among its members, except in one case:
      the host of a room switches to another room. Its old room then keeps
      a host who is no longer a member (and may be left with no members at
      all). */
  lemma {:induction false} JoinKeepsSettledIff<D>(reg: Registry<D>, p: PlayerId, r: RoomId)
    requires Consistent(reg) && Settled(reg)
    ensures Settled(Join(reg, p, r).next) <==>
              !(Switches(reg, p, r) && reg.rooms[reg.players[p]].hostId == p)
  {
    var n := Join(reg, p, r).next;
    if Switches(reg, p, r) && reg.rooms[reg.players[p]].hostId == p {
      var o := reg.players[p];
      assert n.rooms[o].hostId !in n.rooms[o].players;
    } else {
      forall o | o in n.rooms ensures n.rooms[o].hostId in n.rooms[o].players {
        if o !in reg.rooms {
          assert n.rooms[o] == NewGame(r, p);
        } else if o == r {
          assert reg.rooms[o].hostId in reg.rooms[o].players;
        } else if Switches(reg, p, r) && o == reg.players[p] {
          assert reg.rooms[o].hostId in reg.rooms[o].players;
        }
      }
    }
  }

  /** A host switching rooms leaves its old room in the registry with no
      members and with itself still recorded as host. */
  lemma {:induction false} SwitchLeavesEmptyRoom<D>()
    ensures var reg := Registry(map["R" := NewGame<D>("R", "a")], map["a" := "R"]);
            var n := Join(reg, "a", "S").next;
            && Consistent(reg) && Settled(reg)
            && "R" in n.rooms && n.rooms["R"].players == [] && n.rooms["R"].hostId == "a"
  {
    var reg := Registry(map["R" := NewGame<D>("R", "a")], map["a" := "R"]);
    assert reg.rooms["R"].players == ["a"];
    assert Removed(["a"], "a") == [];
  }

  /** The new host after a host disconnects is the first member in join
      order, or the second when the departing host was first. */
  lemma {:induction false} HostMigratesToEarliestSurvivor<D>(reg: Registry<D>, p: PlayerId)
    requires Consistent(reg) && Placed(reg, p)
    requires reg.rooms[reg.players[p]].hostId == p
    requires exists q :: q in reg.rooms[reg.players[p]].players && q != p
    ensures var r := reg.players[p];
            var s := reg.rooms[r].players;
            var n := Disconnect(reg, p).next;
            && r in n.rooms
            && n.rooms[r].hostId == (if s[0] == p then s[1] else s[0])
  {
    var r := reg.players[p];
    var n := Disconnect(reg, p).next;
    assert r in n.rooms;
    EarliestOtherThanIsFirstOrSecond(reg.rooms[r].players, p, n.rooms[r].hostId);
  }

  /** When the last member of a room disconnects the room is gone for good:
      the next join with its ID, by anyone, builds a fresh room with no
      entities and the joiner as host, instead of reviving the old one. */
  lemma {:induction false} RejoinAfterCloseIsFresh<D>(reg: Registry<D>, p: PlayerId, q: PlayerId)
    requires Consistent(reg) && Placed(reg, p)
    requires forall m :: m in reg.rooms[reg.players[p]].players ==> m == p
    ensures var r := reg.players[p];
            var mid := Disconnect(reg, p).next;
            && Consistent(mid) && r !in mid.rooms
            && var s := Join(mid, q, r);
            && s.next.rooms[r] == NewGame(r, q)
            && NoEntities(s.next.rooms[r])
            && s.events == [Broadcast(r, RoomCreated(r, q))]
  {
    DisconnectPreservesConsistent(reg, p);
  }

  /** Two players in one room: `a` opens `r`, `b` joins, `a` (the host)
      leaves. `b` ends as sole member and host; the room heard that it was
      created, that `b` joined and that `a` left. */
  lemma {:induction false} TwoPlayerHandOver<D>(a: PlayerId, b: PlayerId, r: RoomId)
    requires a != b
    ensures var s1: Step<D> := Join(Registry(map[], map[]), a, r);
            var s2 := Join(s1.next, b, r);
            var s3 := Disconnect(s2.next, a);
            && s1.events + s2.events + s3.events
               == [Broadcast(r, RoomCreated(r, a)), Broadcast(r, PlayerJoined(b)), Broadcast(r, PlayerLeft(a))]
            && s2.next.rooms == map[r := Game(r, a, [a, b], map[], map[], map[])]
            && s3.next == Registry(map[r := Game(r, b, [b], map[], map[], map[])], map[b := r])
  {
    var s1: Step<D> := Join(Registry(map[], map[]), a, r);
    assert s1.next == Registry(map[r := NewGame(r, a)], map[a := r]);
    SecondJoinsPair<D>(s1.next, a, b, r);
    var s2: Step<D> := Join(s1.next, b, r);
    HostLeavesPair(s2.next, a, b, r);
  }

  /** A second player joins a room its creator opened: both are members, in
      join order, and the creator stays host. */
  lemma {:induction false} SecondJoinsPair<D>(reg: Registry<D>, a: PlayerId, b: PlayerId, r: RoomId)
    requires a != b
    requires reg == Registry(map[r := NewGame(r, a)], map[a := r])
    ensures Join(reg, b, r) == Step(Registry(map[r := Game(r, a, [a, b], map[], map[], map[])], map[a := r, b := r]),
                                    [Broadcast(r, PlayerJoined(b))])
  {
    assert Added([a], b) == [a, b];
    var n := Join(reg, b, r).next;
    assert n.rooms.Keys == {r};
    assert n.rooms[r] == Game(r, a, [a, b], map[], map[], map[]);
  }

  /** The host of a two-member room leaves: the other member is left alone
      as host and hears `PlayerLeft`. */
  lemma {:induction false} HostLeavesPair<D>(reg: Registry<D>, a: PlayerId, b: PlayerId, r: RoomId)
    requires a != b
    requires reg == Registry(map[r := Game(r, a, [a, b], map[], map[], map[])], map[a := r, b := r])
    ensures Disconnect(reg, a) == Step(Registry(map[r := Game(r, b, [b], map[], map[], map[])], map[b := r]),
                                       [Broadcast(r, PlayerLeft(a))])
  {
    var g := reg.rooms[r];
    RemovedFirstOfPair(a, b);
    var n := Disconnect(reg, a).next;
    assert Placed(reg, a) && g.players == [a, b] && g.hostId == a;
    assert b in g.players && b != a;
    assert r in n.rooms;
    assert n.rooms[r].players == [b];
    assert n.rooms[r].hostId == b;
    assert n.rooms == map[r := Game(r, b, [b], map[], map[], map[])];
    assert n.players == map[b := r];
  }

  lemma {:induction false} RemovedFirstOfPair(a: PlayerId, b: PlayerId)
    requires a != b
    ensures Removed([a, b], a) == [b]
  {
    assert [a, b][1..] == [b];
    assert [b][1..] == [];
  }
}
