/**
 * Whole connection steps of `BoxConsumer` in myapp/consumers.py, on a value
 * holding both dictionaries: `connect` (lines 21-62) and `disconnect`
 * (lines 74-81), run one at a time.
 */
module Session {
  import opened Wrappers
  import opened Rooms
  import opened Dispatch

  datatype State = State(counts: Counts, ids: Members)

  /** What every helper keeps: no stored zero counts and no stored empty lists. */
  predicate Tidy(st: State) {
    Positive(st.counts) && NonEmptyLists(st.ids)
  }

  /** What the two-player design intends: the dictionaries agree and no room holds more than two. */
  predicate Paired(st: State) {
    Consistent(st.counts, st.ids) && AtMostTwo(st.counts)
  }

  /** `increment_user_count` then `add_user_id` (lines 48-49). */
  function Join(st: State, room: string, user: UserId): (r: State)
    ensures Count(r.counts, room) == Count(st.counts, room) + 1
    ensures ListOf(r.ids, room) == ListOf(st.ids, room) + [user]
  {
    State(Increment(st.counts, room), AddId(st.ids, room, user))
  }

  /** The outcome of `connect`: the new state, the room the connection is now in, and what it sends. */
  datatype Connected = Connected(state: State, room: string, action: Action)

  /**
   * `connect` as written: a full requested room sends a redirect notice and
   * leaves both dictionaries alone; otherwise the connection joins and the
   * post-increment count is broadcast.
   */
  function Connect(st: State, room: string, user: UserId): (c: Connected)
    ensures c.action.Redirect? <==> Count(st.counts, room) >= 2
    ensures c.action.BroadcastCount? <==> Count(st.counts, room) < 2
    ensures c.action.Redirect? ==> c.state == st && c.action == Redirect(c.room, user)
                                   && c.room == NewAvailableRoom(st.counts)
    ensures c.action.BroadcastCount? ==> c.room == room && c.state == Join(st, room, user)
                                         && c.action.count == Count(c.state.counts, room)
  {
    if Count(st.counts, room) >= 2 then
      var alternate := NewAvailableRoom(st.counts);
      Connected(st, alternate, Redirect(alternate, user))
    else
      var joined := Join(st, room, user);
      Connected(joined, room, BroadcastCount(Count(joined.counts, room)))
  }

  lemma ConnectKeepsTidy(st: State, room: string, user: UserId)
    requires Tidy(st)
    ensures Tidy(Connect(st, room, user).state)
  {
    IncrementKeepsPositive(st.counts, room);
    AddIdKeepsNonEmpty(st.ids, room, user);
  }

  /** Sequential `connect` never takes a room above two, and the broadcast count is 1 or 2. */
  lemma ConnectKeepsCapacity(st: State, room: string, user: UserId)
    requires Tidy(st) && AtMostTwo(st.counts)
    ensures AtMostTwo(Connect(st, room, user).state.counts)
    ensures var c := Connect(st, room, user);
            c.action.BroadcastCount? ==> 1 <= c.action.count <= 2
  {
    CountOfPositive(st.counts, room);
  }

  /** Sequential `connect` keeps the dictionaries in agreement. */
  lemma ConnectKeepsConsistent(st: State, room: string, user: UserId)
    requires Consistent(st.counts, st.ids)
    ensures Consistent(Connect(st, room, user).state.counts, Connect(st, room, user).state.ids)
  {
    if Count(st.counts, room) < 2 {
      JoinKeepsConsistent(st, room, user);
    }
  }

  lemma JoinKeepsConsistent(st: State, room: string, user: UserId)
    requires Consistent(st.counts, st.ids)
    ensures Consistent(Join(st, room, user).counts, Join(st, room, user).ids)
  {
    assert Count(st.counts, room) == |ListOf(st.ids, room)|;
  }

  /** The outcome of `disconnect`; `raised` is the ValueError of `list.remove`, after the count was already lowered. */
  datatype Left = Left(state: State, raised: bool)

  /** `disconnect` (lines 80-81): `decrement_user_count` then `remove_user_id` on the connection's room. */
  function Disconnect(st: State, room: string, user: UserId): (l: Left)
    ensures l.state.counts == Decrement(st.counts, room)
    ensures l.raised <==> room in st.ids && user !in st.ids[room]
    ensures l.raised ==> l.state.ids == st.ids
    ensures !l.raised ==> RemoveId(st.ids, room, user) == Some(l.state.ids)
  {
    var counts := Decrement(st.counts, room);
    match RemoveId(st.ids, room, user)
    case None => Left(State(counts, st.ids), true)
    case Some(ids) => Left(State(counts, ids), false)
  }

  lemma DisconnectKeepsTidy(st: State, room: string, user: UserId)
    requires Tidy(st)
    ensures Tidy(Disconnect(st, room, user).state)
  {
    DecrementKeepsPositive(st.counts, room);
    if RemoveId(st.ids, room, user).Some? {
      RemoveIdKeepsNonEmpty(st.ids, room, user);
    }
  }

  /** A listed member leaving keeps the dictionaries in agreement and within capacity. */
  lemma DisconnectMemberKeepsPaired(st: State, room: string, user: UserId)
    requires Paired(st)
    requires room in st.ids && user in st.ids[room]
    ensures !Disconnect(st, room, user).raised
    ensures Paired(Disconnect(st, room, user).state)
  {
    var after := Disconnect(st, room, user).state;
    var list := st.ids[room];
    assert st.counts[room] == |list|;
    if |list| > 1 {
      assert after.ids[room] == RemoveFirst(list, user);
    }
    forall k | k in after.counts
      ensures k in after.ids && after.counts[k] == |after.ids[k]|
    {
      if k != room { RemoveIdOtherRoom(st.ids, room, user, k); }
    }
    forall k | k in after.ids
      ensures k in after.counts
    {
      if k != room { RemoveIdOtherRoom(st.ids, room, user, k); }
    }
  }

  /** A connection that joined and then leaves restores the registry, if its id was not listed already. */
  lemma LeaveUndoesJoin(st: State, room: string, user: UserId)
    requires Tidy(st)
    requires user !in ListOf(st.ids, room)
    ensures Disconnect(Join(st, room, user), room, user) == Left(st, false)
  {
    DecrementUndoesIncrement(st.counts, room);
    RemoveIdUndoesAddId(st.ids, room, user);
  }

  // ----------------------------------------------------------------- finding

  /**
   * `connect` as written records nothing on the redirect path, although the
   * connection is added to the allocated room's group (line 33). From an
   * empty registry, five connections to one full room: the third, fourth and
   * fifth all land in `game_1`, which the registry still reports as empty.
   */
  lemma RedirectedConnectionsOverfillRoom()
    ensures var c1 := Connect(State(map[], map[]), "lobby", None);
            var c2 := Connect(c1.state, "lobby", None);
            var c3 := Connect(c2.state, "lobby", None);
            var c4 := Connect(c3.state, "lobby", None);
            var c5 := Connect(c4.state, "lobby", None);
            c3.room == "game_1" && c4.room == "game_1" && c5.room == "game_1"
            && Count(c5.state.counts, "game_1") == 0
  {
    var c1 := Connect(State(map[], map[]), "lobby", None);
    var c2 := Connect(c1.state, "lobby", None);
    var full := c2.state.counts;
    assert full == map["lobby" := 2];
    assert GameName(1) == "game_1" by { assert Decimal.FromNat(1) == "1"; }
    AllocatedIndexUnique(full, 1);
    assert NewAvailableRoom(full) == "game_1";
  }

  /**
   * `connect` with the redirect path repaired: the connection joins the
   * allocated room, so the registry records every placement.
   */
  function ConnectJoining(st: State, room: string, user: UserId): (c: Connected)
    ensures c.room == (if Count(st.counts, room) >= 2 then NewAvailableRoom(st.counts) else room)
    ensures Count(st.counts, c.room) < 2
    ensures c.state == Join(st, c.room, user)
  {
    if Count(st.counts, room) >= 2 then
      var alternate := NewAvailableRoom(st.counts);
      Connected(Join(st, alternate, user), alternate, Redirect(alternate, user))
    else
      var joined := Join(st, room, user);
      Connected(joined, room, BroadcastCount(Count(joined.counts, room)))
  }

  lemma ConnectJoiningKeepsPaired(st: State, room: string, user: UserId)
    requires Paired(st)
    ensures var c := ConnectJoining(st, room, user);
            Paired(c.state)
            && forall r :: Count(c.state.counts, r) == Count(st.counts, r) + (if r == c.room then 1 else 0)
  {
    var c := ConnectJoining(st, room, user);
    JoinKeepsConsistent(st, c.room, user);
  }

  datatype Request = Request(room: string, user: UserId)

  /** Connections served one after the other: the final state and the room each connection was placed in. */
  datatype Run = Run(state: State, rooms: seq<string>)

  function ConnectEach(st: State, requests: seq<Request>): (run: Run)
    ensures |run.rooms| == |requests|
  {
    if requests == [] then Run(st, [])
    else
      var prev := ConnectEach(st, requests[..|requests| - 1]);
      var last := requests[|requests| - 1];
      var c := ConnectJoining(prev.state, last.room, last.user);
      Run(c.state, prev.rooms + [c.room])
  }

  /**
   * With the repaired `connect`, every placement is counted, so no room ever
   * receives more connections than its free slots.
   */
  lemma {:induction false} ConnectEachRecordsPlacements(st: State, requests: seq<Request>)
    requires Paired(st)
    ensures var run := ConnectEach(st, requests);
            Paired(run.state)
            && (forall r :: Count(run.state.counts, r) == Count(st.counts, r) + multiset(run.rooms)[r])
            && (forall r :: Count(st.counts, r) + multiset(run.rooms)[r] <= 2)
  {
    var run := ConnectEach(st, requests);
    if requests != [] {
      var init := requests[..|requests| - 1];
      var prev := ConnectEach(st, init);
      ConnectEachRecordsPlacements(st, init);
      var last := requests[|requests| - 1];
      var c := ConnectJoining(prev.state, last.room, last.user);
      ConnectJoiningKeepsPaired(prev.state, last.room, last.user);
      assert run.rooms == prev.rooms + [c.room];
      forall r ensures Count(run.state.counts, r) == Count(st.counts, r) + multiset(run.rooms)[r] {
        assert multiset(run.rooms)[r] == multiset(prev.rooms)[r] + (if r == c.room then 1 else 0);
      }
    }
    forall r ensures Count(st.counts, r) + multiset(run.rooms)[r] <= 2 {
      assert Count(run.state.counts, r) <= 2;
    }
  }
}
