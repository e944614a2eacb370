/**
 * The state-changing side of myapp/consumers.py: the module-level
 * dictionaries as the fields of one `Registry` object, updated in place by
 * the helper methods, and `BoxConsumer`, the per-connection object whose
 * `connect`, `disconnect` and `receive` sequence those helpers. Each method
 * is proved against the pure definitions in Rooms, Session and Dispatch.
 */
module Consumers {
  import opened Wrappers
  import opened Rooms
  import Dispatch
  import Session

  class Registry {
    /** `room_user_count` */
    var counts: Counts
    /** `room_user_ids` */
    var ids: Members

    /** Every stored count is positive and every stored list is non-empty. */
    predicate Valid()
      reads this
    {
      Session.Tidy(Snapshot())
    }

    function Snapshot(): Session.State
      reads this
    {
      Session.State(counts, ids)
    }

    /** Both dictionaries start empty. */
    constructor ()
      ensures Valid() && counts == map[] && ids == map[]
    {
      counts := map[];
      ids := map[];
    }

    /** `get_user_count`: the stored count, 0 for an unknown room; positive exactly for a known room. */
    method GetUserCount(room: string) returns (n: int)
      requires Valid()
      ensures n == Count(counts, room)
      ensures n >= 0 && (n >= 1 <==> room in counts)
    {
      CountOfPositive(counts, room);
      if room in counts {
        n := counts[room];
      } else {
        n := 0;
      }
    }

    /** `increment_user_count` */
    method IncrementUserCount(room: string)
      requires Valid()
      modifies this
      ensures Valid()
      ensures counts == Increment(old(counts), room) && ids == old(ids)
    {
      IncrementKeepsPositive(counts, room);
      counts := counts[room := Count(counts, room) + 1];
    }

    /** `decrement_user_count` */
    method DecrementUserCount(room: string)
      requires Valid()
      modifies this
      ensures Valid()
      ensures counts == Decrement(old(counts), room) && ids == old(ids)
    {
      DecrementKeepsPositive(counts, room);
      if room in counts {
        counts := counts[room := counts[room] - 1];
        if counts[room] <= 0 {
          counts := counts - {room};
        }
      }
    }

    /** `add_user_id` */
    method AddUserId(room: string, user: UserId)
      requires Valid()
      modifies this
      ensures Valid()
      ensures ids == AddId(old(ids), room, user) && counts == old(counts)
    {
      AddIdKeepsNonEmpty(ids, room, user);
      if room !in ids {
        ids := ids[room := []];
      }
      ids := ids[room := ids[room] + [user]];
    }

    /** `remove_user_id`; `raised` is the ValueError of `list.remove`, which leaves the list as it was. */
    method RemoveUserId(room: string, user: UserId) returns (raised: bool)
      requires Valid()
      modifies this
      ensures Valid()
      ensures RemoveId(old(ids), room, user) == (if raised then None else Some(ids))
      ensures raised ==> ids == old(ids)
      ensures counts == old(counts)
    {
      ghost var expected := RemoveId(ids, room, user);
      raised := false;
      if room in ids {
        if user !in ids[room] {
          raised := true;
          return;
        }
        RemoveIdKeepsNonEmpty(ids, room, user);
        var rest := RemoveFirst(ids[room], user);
        if rest == [] {
          ids := ids - {room};
        } else {
          ids := ids[room := rest];
        }
        assert expected == Some(ids);
      }
    }

    /**
     * `get_new_available_room`: scans `game_1`, `game_2`, ... and stops at the
     * first name that is not a key or holds fewer than two players.
     */
    method GetNewAvailableRoom() returns (name: string)
      ensures name == NewAvailableRoom(counts)
      ensures Count(counts, name) < 2
    {
      var roomNumber: nat := 1;
      name := GameName(roomNumber);
      while name in counts.Keys && Count(counts, name) >= 2
        invariant 1 <= roomNumber <= |counts| + 1
        invariant name == GameName(roomNumber)
        invariant forall i :: 1 <= i < roomNumber ==> !Available(counts, GameName(i))
        decreases |counts| + 1 - roomNumber
      {
        FullNamesBound(counts, roomNumber);
        roomNumber := roomNumber + 1;
        name := GameName(roomNumber);
      }
      AllocatedIndexUnique(counts, roomNumber);
    }
  }

  /** One websocket connection: its channel name, its user id and the room group it is in. */
  class BoxConsumer {
    const registry: Registry
    const channelName: Dispatch.Channel
    const userId: UserId
    /** `room_group_name`, set by `connect` */
    var roomGroupName: string

    constructor (registry: Registry, channelName: Dispatch.Channel, userId: UserId)
      ensures this.registry == registry && this.channelName == channelName && this.userId == userId
    {
      this.registry := registry;
      this.channelName := channelName;
      this.userId := userId;
      roomGroupName := "";
    }

    /**
     * `connect`: a full requested room redirects to the allocated overflow
     * room without touching the registry; otherwise the connection is counted,
     * listed, and the new count is broadcast.
     */
    method Connect(roomName: string) returns (action: Dispatch.Action)
      requires registry.Valid()
      modifies this, registry
      ensures registry.Valid()
      ensures Session.Connected(registry.Snapshot(), roomGroupName, action)
              == Session.Connect(old(registry.Snapshot()), roomName, userId)
    {
      roomGroupName := roomName;
      var userCount := registry.GetUserCount(roomGroupName);
      if userCount >= 2 {
        roomGroupName := registry.GetNewAvailableRoom();
        action := Dispatch.Redirect(roomGroupName, userId);
      } else {
        registry.IncrementUserCount(roomGroupName);
        registry.AddUserId(roomGroupName, userId);
        userCount := registry.GetUserCount(roomGroupName);
        action := Dispatch.BroadcastCount(userCount);
      }
    }

    /** `disconnect`: lowers the count of this connection's room, then removes its user id from that room. */
    method Disconnect() returns (raised: bool)
      requires registry.Valid()
      modifies registry
      ensures registry.Valid()
      ensures Session.Left(registry.Snapshot(), raised)
              == Session.Disconnect(old(registry.Snapshot()), roomGroupName, userId)
    {
      ghost var before := registry.Snapshot();
      registry.DecrementUserCount(roomGroupName);
      raised := registry.RemoveUserId(roomGroupName, userId);
      assert registry.counts == Decrement(before.counts, roomGroupName);
      if raised {
        assert RemoveId(before.ids, roomGroupName, userId) == None;
      } else {
        assert RemoveId(before.ids, roomGroupName, userId) == Some(registry.ids);
      }
    }

    /** `receive`, given the channels of this connection's room. */
    method Receive(msg: Dispatch.Inbound, roomChannels: seq<Dispatch.Channel>) returns (action: Dispatch.Action)
      ensures action == Dispatch.Receive(msg, userId, channelName, roomChannels)
      ensures action.Unicast? ==> action.target != channelName
    {
      action := Dispatch.Receive(msg, userId, channelName, roomChannels);
    }
  }
}
