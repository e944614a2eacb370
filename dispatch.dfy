/**
 * What a connection sends out, as values: the decisions of `connect` and
 * `receive` in myapp/consumers.py with the channel-layer calls replaced by
 * the action they would perform.
 */
module Dispatch {
  import opened Wrappers
  import opened Rooms

  /** A channel-layer channel name, opaque apart from equality and emptiness. */
  type Channel = string

  /** The sentinel both fields carry in a heartbeat. */
  const NoMove: string := "no move"

  datatype Action =
    | Redirect(room: string, userId: UserId)                      // notice to this socket only
    | BroadcastCount(count: int)                                  // `user_count_update` to the whole group
    | Unicast(target: Channel)                                    // `{boxid: "no move", move: "no move"}` to one channel
    | BroadcastMove(boxid: string, move: string, userId: UserId)  // `box_message` to the whole group
    | Drop                                                        // nothing is sent

  /** A text frame after `json.loads`: undecodable, or the `boxid` and `move` fields read with `.get`. */
  datatype Inbound =
    | Undecodable
    | Fields(boxid: Option<string>, move: Option<string>)

  /** Python truthiness of an optional string: present and non-empty. */
  predicate Truthy(v: Option<string>) {
    v.Some? && v.value != ""
  }

  /**
   * `get_opponent_channel_name` over the room's channels: the first one that
   * differs from `me`, or `None` when every channel equals `me`.
   */
  function Opponent(channels: seq<Channel>, me: Channel): (r: Option<Channel>)
    ensures r.None? <==> forall i :: 0 <= i < |channels| ==> channels[i] == me
    ensures r.Some? ==> exists k :: 0 <= k < |channels| && channels[k] == r.value
                                    && (forall j :: 0 <= j < k ==> channels[j] == me)
    ensures r.Some? ==> r.value != me
  {
    if channels == [] then None
    else if channels[0] != me then Some(channels[0])
    else
      var r := Opponent(channels[1..], me);
      assert r.Some? ==> exists k :: 0 <= k < |channels[1..]| && channels[1..][k] == r.value
                                     && (forall j :: 0 <= j < k ==> channels[1..][j] == me);
      if r.Some? then
        var k :| 0 <= k < |channels[1..]| && channels[1..][k] == r.value
                 && (forall j :: 0 <= j < k ==> channels[1..][j] == me);
        assert channels[k + 1] == r.value;
        assert forall j :: 0 <= j < k + 1 ==> channels[j] == me;
        r
      else
        assert forall i :: 1 <= i < |channels| ==> channels[i] == channels[1..][i - 1];
        r
  }

  /** The well-formed test of `receive`: both fields present and non-empty. */
  predicate WellFormed(msg: Inbound) {
    msg.Fields? && Truthy(msg.boxid) && Truthy(msg.move)
  }

  /** The heartbeat test of `receive`: both fields equal to the sentinel. */
  predicate Heartbeat(msg: Inbound) {
    msg.Fields? && msg.boxid == Some(NoMove) && msg.move == Some(NoMove)
  }

  /**
   * `receive`: a heartbeat goes only to the opponent, when one with a
   * non-empty name exists; any other well-formed message is broadcast once
   * with the sender's user id; everything else is dropped.
   */
  function Receive(msg: Inbound, userId: UserId, me: Channel, channels: seq<Channel>): (a: Action)
    ensures !WellFormed(msg) ==> a == Drop
    ensures a.BroadcastMove? <==> WellFormed(msg) && !Heartbeat(msg)
    ensures a.BroadcastMove? ==> a == BroadcastMove(msg.boxid.value, msg.move.value, userId)
    ensures a.Unicast? <==> Heartbeat(msg) && Truthy(Opponent(channels, me))
    ensures a.Unicast? ==> Opponent(channels, me) == Some(a.target)
    ensures a.Unicast? ==> a.target in channels && a.target != me && a.target != ""
    ensures !a.Redirect? && !a.BroadcastCount?
  {
    if !WellFormed(msg) then Drop
    else if Heartbeat(msg) then
      var opponent := Opponent(channels, me);
      if Truthy(opponent) then Unicast(opponent.value) else Drop
    else BroadcastMove(msg.boxid.value, msg.move.value, userId)
  }

  /** A heartbeat in a two-player room reaches exactly the other player, and never its sender. */
  lemma HeartbeatReachesOnlyOpponent(me: Channel, other: Channel, userId: UserId, first: bool)
    requires other != me && other != ""
    ensures var channels := if first then [me, other] else [other, me];
            Receive(Fields(Some(NoMove), Some(NoMove)), userId, me, channels) == Unicast(other)
  {
    var channels := if first then [me, other] else [other, me];
    var r := Opponent(channels, me);
    assert r.Some? by { assert channels[if first then 1 else 0] != me; }
  }

  /** A heartbeat from a player alone in the room sends nothing. */
  lemma HeartbeatAloneIsDropped(me: Channel, userId: UserId, channels: seq<Channel>)
    requires forall i :: 0 <= i < |channels| ==> channels[i] == me
    ensures Receive(Fields(Some(NoMove), Some(NoMove)), userId, me, channels) == Drop
  {
  }

  /** A well-formed move is broadcast once, carrying its fields and the sender's id, whoever is in the room. */
  lemma MoveIsBroadcast(boxid: string, move: string, userId: UserId, me: Channel, channels: seq<Channel>)
    requires boxid != "" && move != ""
    requires boxid != NoMove || move != NoMove
    ensures Receive(Fields(Some(boxid), Some(move)), userId, me, channels) == BroadcastMove(boxid, move, userId)
  {
  }
}
