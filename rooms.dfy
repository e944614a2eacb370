/**
 * The two module-level dictionaries of myapp/consumers.py, `room_user_count`
 * (room name to occupancy) and `room_user_ids` (room name to the user ids that
 * joined it, in join order), as map values, with the pure meaning of each
 * helper that updates them and the overflow-room search.
 */
module Rooms {
  import opened Wrappers
  import Decimal

  /** The `user_id` URL argument, read with `.get`, so it may be absent. */
  type UserId = Option<string>

  type Counts = map<string, int>
  type Members = map<string, seq<UserId>>

  // ---------------------------------------------------------------- occupancy

  /** `room_user_count.get(room, 0)` */
  function Count(counts: Counts, room: string): int {
    if room in counts then counts[room] else 0
  }

  /** Every stored occupancy is at least one: a room at zero has no key. */
  predicate Positive(counts: Counts) {
    forall room :: room in counts ==> counts[room] >= 1
  }

  /** No room holds more than two players. */
  predicate AtMostTwo(counts: Counts) {
    forall room :: room in counts ==> counts[room] <= 2
  }

  lemma CountOfPositive(counts: Counts, room: string)
    requires Positive(counts)
    ensures Count(counts, room) >= 1 <==> room in counts
    ensures Count(counts, room) >= 0
  {
  }

  /** `increment_user_count`: an absent room counts as 0; no other room changes. */
  function Increment(counts: Counts, room: string): (r: Counts)
    ensures r.Keys == counts.Keys + {room}
    ensures r[room] == Count(counts, room) + 1
    ensures forall k :: k in counts && k != room ==> r[k] == counts[k]
  {
    counts[room := Count(counts, room) + 1]
  }

  /**
   * `decrement_user_count`: nothing for an absent room; otherwise one less,
   * and the key is deleted once the result is at most zero.
   */
  function Decrement(counts: Counts, room: string): (r: Counts)
    ensures room !in counts ==> r == counts
    ensures room in counts && counts[room] <= 1 ==> r.Keys == counts.Keys - {room}
    ensures room in counts && counts[room] > 1 ==> r.Keys == counts.Keys && r[room] == counts[room] - 1
    ensures forall k :: k in r && k != room ==> k in counts && r[k] == counts[k]
  {
    if room !in counts then counts
    else if counts[room] - 1 <= 0 then counts - {room}
    else counts[room := counts[room] - 1]
  }

  lemma IncrementKeepsPositive(counts: Counts, room: string)
    requires Positive(counts)
    ensures Positive(Increment(counts, room))
  {
  }

  lemma DecrementKeepsPositive(counts: Counts, room: string)
    ensures Positive(counts) ==> Positive(Decrement(counts, room))
  {
  }

  /** On a registry that keeps the invariant, a departure lowers occupancy by one and never below zero. */
  lemma DecrementLowersOccupancy(counts: Counts, room: string)
    requires Positive(counts)
    ensures Count(Decrement(counts, room), room) == if room in counts then Count(counts, room) - 1 else 0
  {
  }

  /** A departure undoes an arrival. */
  lemma DecrementUndoesIncrement(counts: Counts, room: string)
    requires Positive(counts)
    ensures Decrement(Increment(counts, room), room) == counts
  {
    var r := Decrement(Increment(counts, room), room);
    assert r.Keys == counts.Keys;
  }

  // --------------------------------------------------------------- membership

  /** The stored list of a room, or the empty list `add_user_id` starts from. */
  function ListOf(ids: Members, room: string): seq<UserId> {
    if room in ids then ids[room] else []
  }

  /** Every stored member list is non-empty: an emptied list has no key. */
  predicate NonEmptyLists(ids: Members) {
    forall room :: room in ids ==> ids[room] != []
  }

  /** `add_user_id`: the room's list (empty if new) with `user` appended; no other room changes. */
  function AddId(ids: Members, room: string, user: UserId): (r: Members)
    ensures r.Keys == ids.Keys + {room}
    ensures r[room] == ListOf(ids, room) + [user]
    ensures forall k :: k in ids && k != room ==> r[k] == ids[k]
  {
    ids[room := ListOf(ids, room) + [user]]
  }

  /** Position of the first occurrence of `x`, where Python's `list.remove` looks. */
  function FirstIndex<T(==)>(s: seq<T>, x: T): (k: nat)
    requires x in s
    ensures k < |s| && s[k] == x
    ensures forall j :: 0 <= j < k ==> s[j] != x
  {
    if s[0] == x then 0 else 1 + FirstIndex(s[1..], x)
  }

  /** `list.remove(x)`: drops the first occurrence of `x` and keeps the order of the rest. */
  function RemoveFirst<T(==)>(s: seq<T>, x: T): (r: seq<T>)
    requires x in s
    ensures |r| == |s| - 1
    ensures multiset(r) == multiset(s) - multiset{x}
    ensures r == s[..FirstIndex(s, x)] + s[FirstIndex(s, x) + 1..]
    ensures x !in s[..|s| - 1] ==> r == s[..|s| - 1]
  {
    var k := FirstIndex(s, x);
    assert s == s[..k] + [s[k]] + s[k + 1..];
    assert k < |s| - 1 ==> s[..|s| - 1][k] == x;
    s[..k] + s[k + 1..]
  }

  /** Only the first occurrence of `x` has no `x` before it. */
  lemma FirstIndexIsOnlyFirst<T>(s: seq<T>, x: T)
    requires x in s
    ensures forall j :: 0 <= j < |s| && s[j] == x && x !in s[..j] ==> j == FirstIndex(s, x)
  {
    var k := FirstIndex(s, x);
    forall j | 0 <= j < |s| && s[j] == x && x !in s[..j]
      ensures j == k
    {
    }
  }

  /** `list.remove(x)` cuts out the occurrence of `x` that has no `x` before it and keeps the rest in order. */
  lemma RemoveFirstIsListRemove<T>(s: seq<T>, x: T)
    requires x in s
    ensures forall k :: 0 <= k < |s| && s[k] == x && x !in s[..k] ==> RemoveFirst(s, x) == s[..k] + s[k + 1..]
  {
    FirstIndexIsOnlyFirst(s, x);
  }

  /**
   * `remove_user_id`: `None` stands for the ValueError `list.remove` raises
   * when the room is known but `user` is not in its list. An unknown room is
   * left alone; a list that becomes empty loses its key; no other room changes.
   */
  function RemoveId(ids: Members, room: string, user: UserId): (r: Option<Members>)
    ensures r.None? <==> room in ids && user !in ids[room]
    ensures room !in ids ==> r == Some(ids)
    ensures r.Some? && room in ids ==>
              (room in r.value <==> |ids[room]| > 1)
              && (room in r.value ==> r.value[room] == RemoveFirst(ids[room], user))
  {
    if room !in ids then Some(ids)
    else if user !in ids[room] then None
    else
      var rest := RemoveFirst(ids[room], user);
      if rest == [] then Some(ids - {room}) else Some(ids[room := rest])
  }

  /** `remove_user_id` leaves every other room as it was. */
  lemma RemoveIdOtherRoom(ids: Members, room: string, user: UserId, other: string)
    requires other != room
    requires RemoveId(ids, room, user).Some?
    ensures var r := RemoveId(ids, room, user).value;
            (other in r <==> other in ids) && (other in ids ==> r[other] == ids[other])
  {
  }

  lemma AddIdKeepsNonEmpty(ids: Members, room: string, user: UserId)
    requires NonEmptyLists(ids)
    ensures NonEmptyLists(AddId(ids, room, user))
  {
  }

  lemma RemoveIdKeepsNonEmpty(ids: Members, room: string, user: UserId)
    requires NonEmptyLists(ids)
    requires RemoveId(ids, room, user).Some?
    ensures NonEmptyLists(RemoveId(ids, room, user).value)
  {
  }

  /** Appending then removing an element keeps a list's elements. */
  lemma RemoveFirstAfterAppend<T>(s: seq<T>, x: T)
    ensures x in s + [x]
    ensures multiset(RemoveFirst(s + [x], x)) == multiset(s)
  {
    assert (s + [x])[|s|] == x;
    assert multiset(s + [x]) == multiset(s) + multiset{x};
  }

  /** `remove_user_id` of a listed user on a room whose list is `list`. */
  lemma RemoveIdOfListedUser(ids: Members, room: string, user: UserId, list: seq<UserId>)
    requires user in list
    ensures var rest := RemoveFirst(list, user);
            RemoveId(ids[room := list], room, user)
              == Some(if rest == [] then ids - {room} else ids[room := rest])
  {
    var listed := ids[room := list];
    var rest := RemoveFirst(list, user);
    assert listed - {room} == ids - {room};
    assert listed[room := rest] == ids[room := rest];
  }

  /** The registry after `add_user_id` then `remove_user_id` of the same user on the same room. */
  lemma RemoveIdAfterAddId(ids: Members, room: string, user: UserId)
    ensures user in ListOf(ids, room) + [user]
    ensures var rest := RemoveFirst(ListOf(ids, room) + [user], user);
            RemoveId(AddId(ids, room, user), room, user)
              == Some(if rest == [] then ids - {room} else ids[room := rest])
  {
    var s := ListOf(ids, room) + [user];
    assert s[|s| - 1] == user;
    RemoveIdOfListedUser(ids, room, user, s);
  }

  /** Removing an element appended to a list that did not contain it gives back the list. */
  lemma RemoveFirstOfAppended<T>(s: seq<T>, x: T)
    requires x !in s
    ensures x in s + [x] && RemoveFirst(s + [x], x) == s
  {
    assert (s + [x])[..|s|] == s;
    assert (s + [x])[|s|] == x;
  }

  /** Removing a user just added undoes the addition, when the user was not listed before. */
  lemma RemoveIdUndoesAddId(ids: Members, room: string, user: UserId)
    requires NonEmptyLists(ids)
    requires user !in ListOf(ids, room)
    ensures RemoveId(AddId(ids, room, user), room, user) == Some(ids)
  {
    RemoveIdAfterAddId(ids, room, user);
    var list := ListOf(ids, room);
    RemoveFirstOfAppended(list, user);
    if list == [] {
      assert room !in ids;
      assert ids - {room} == ids;
    } else {
      assert ids[room := list] == ids;
    }
  }

  /** If the user was already listed, removal after addition keeps the same rooms and, per room, the same members. */
  lemma RemoveIdAfterAddIdSameMembers(ids: Members, room: string, user: UserId)
    requires NonEmptyLists(ids)
    ensures RemoveId(AddId(ids, room, user), room, user).Some?
    ensures var r := RemoveId(AddId(ids, room, user), room, user).value;
            r.Keys == ids.Keys && multiset(ListOf(r, room)) == multiset(ListOf(ids, room))
  {
    RemoveIdAfterAddId(ids, room, user);
    RemoveFirstAfterAppend(ListOf(ids, room), user);
    var s := ListOf(ids, room) + [user];
    var rest := RemoveFirst(s, user);
    if rest == [] {
      assert room !in ids by { assert |s| == 1; }
    } else {
      assert room in ids by { assert |s| > 1; }
    }
  }

  // ------------------------------------------------------ registry consistency

  /** The two dictionaries agree: same rooms, and each count is the length of the room's list. */
  predicate Consistent(counts: Counts, ids: Members) {
    && counts.Keys == ids.Keys
    && forall room :: room in counts ==> counts[room] == |ids[room]|
  }

  // ------------------------------------------------------- overflow allocation

  const OverflowPrefix: string := "game_"

  /** `f'game_{n}'` */
  function GameName(n: nat): (name: string)
    ensures |name| > |OverflowPrefix| && name[..|OverflowPrefix|] == OverflowPrefix
  {
    OverflowPrefix + Decimal.FromNat(n)
  }

  lemma GameNameInjective(m: nat, n: nat)
    requires GameName(m) == GameName(n)
    ensures m == n
  {
    assert GameName(m)[|OverflowPrefix|..] == Decimal.FromNat(m);
    assert GameName(n)[|OverflowPrefix|..] == Decimal.FromNat(n);
    Decimal.FromNatInjective(m, n);
  }

  /** The negation of the `while` condition of `get_new_available_room`. */
  predicate Available(counts: Counts, name: string) {
    !(name in counts.Keys && Count(counts, name) >= 2)
  }

  /** If `game_1` .. `game_n` are all keys, there are at least `n` keys. */
  lemma {:induction false} OverflowNamesBound(keys: set<string>, n: nat)
    requires forall i :: 1 <= i <= n ==> GameName(i) in keys
    ensures n <= |keys|
  {
    if n > 0 {
      var rest := keys - {GameName(n)};
      forall i | 1 <= i <= n - 1
        ensures GameName(i) in rest
      {
        if GameName(i) == GameName(n) { GameNameInjective(i, n); }
      }
      OverflowNamesBound(rest, n - 1);
    }
  }

  /** If `game_1` .. `game_n` are all full, there are at least `n` rooms. */
  lemma FullNamesBound(counts: Counts, n: nat)
    requires forall i :: 1 <= i <= n ==> !Available(counts, GameName(i))
    ensures n <= |counts|
  {
    OverflowNamesBound(counts.Keys, n);
  }

  /** The scan of `get_new_available_room`, from `game_n` on, knowing that every earlier name is full. */
  function SearchFrom(counts: Counts, n: nat): (k: nat)
    requires 1 <= n
    requires forall i :: 1 <= i < n ==> !Available(counts, GameName(i))
    ensures n <= k <= |counts| + 1
    ensures Available(counts, GameName(k))
    ensures forall i :: 1 <= i < k ==> !Available(counts, GameName(i))
    decreases |counts| + 1 - n
  {
    FullNamesBound(counts, n - 1);
    if Available(counts, GameName(n)) then n
    else
      FullNamesBound(counts, n);
      SearchFrom(counts, n + 1)
  }

  /** The least `n >= 1` whose `game_n` is absent or holds fewer than two players; at most one past the number of rooms. */
  function AllocatedIndex(counts: Counts): (n: nat)
    ensures 1 <= n <= |counts| + 1
    ensures Available(counts, GameName(n))
    ensures forall i :: 1 <= i < n ==> !Available(counts, GameName(i))
  {
    SearchFrom(counts, 1)
  }

  /** The name `get_new_available_room` returns. */
  function NewAvailableRoom(counts: Counts): (name: string)
    ensures Count(counts, name) < 2
  {
    GameName(AllocatedIndex(counts))
  }

  /** Allocation is determined: any `n` that is available with every earlier name full is the allocated one. */
  lemma AllocatedIndexUnique(counts: Counts, n: nat)
    requires 1 <= n
    requires Available(counts, GameName(n))
    requires forall i :: 1 <= i < n ==> !Available(counts, GameName(i))
    ensures n == AllocatedIndex(counts)
  {
  }
}
