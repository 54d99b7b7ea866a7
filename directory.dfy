/** Room find-or-create for an unordered pair of users (the "chat" handler's
    `findOne` with `$all`, then `insertOne` on a miss). */
module RoomDirectory {
  import opened ChatTypes

  /** The `$all` filter: the room's participant array holds both ids,
      in whatever order. */
  predicate Matches(r: Room, a: UserId, b: UserId) {
    a in r.participant && b in r.participant
  }

  /** `findOne`: the position of the first matching room in store order. */
  function FindRoom(rooms: seq<Room>, a: UserId, b: UserId): (r: Option<nat>)
    ensures r.Some? ==> r.value < |rooms| && Matches(rooms[r.value], a, b)
    ensures r.Some? ==> forall k :: 0 <= k < r.value ==> !Matches(rooms[k], a, b)
    ensures r.None? ==> forall k :: 0 <= k < |rooms| ==> !Matches(rooms[k], a, b)
  {
    if rooms == [] then None
    else if Matches(rooms[0], a, b) then Some(0)
    else match FindRoom(rooms[1..], a, b)
      case None => None
      case Some(k) => Some(k + 1)
  }

  /** The document `insertOne` adds on a miss. */
  function NewRoom(id: RoomId, userId: UserId, productUserId: UserId): Room {
    Room(id, [userId, productUserId], [], None)
  }

  datatype Resolution = Resolution(rooms: seq<Room>, id: RoomId, created: bool)

  /** Find-or-create: on a hit the id of the first matching room and no
      change; on a miss one new room appended at the next free id. */
  function Resolve(rooms: seq<Room>, userId: UserId, productUserId: UserId): Resolution {
    match FindRoom(rooms, userId, productUserId)
    case Some(k) => Resolution(rooms, rooms[k].id, false)
    case None => Resolution(rooms + [NewRoom(|rooms|, userId, productUserId)], |rooms|, true)
  }

  /** Argument order never matters to the lookup. */
  lemma {:induction false} FindRoomSymmetric(rooms: seq<Room>, a: UserId, b: UserId)
    ensures FindRoom(rooms, a, b) == FindRoom(rooms, b, a)
  {
    if rooms != [] {
      FindRoomSymmetric(rooms[1..], a, b);
    }
  }

  /** Two rooms of two participants that both hold two distinct users are
      for the same unordered pair. */
  lemma MatchingRoomsSamePair(r: Room, s: Room, a: UserId, b: UserId)
    requires |r.participant| == 2 && |s.participant| == 2
    ensures a != b && Matches(r, a, b) && Matches(s, a, b) ==> SamePair(r, s)
  {
  }

  /** At most one room per unordered pair: two distinct users are matched
      by one room at most. */
  lemma AtMostOneRoomPerPair(rooms: seq<Room>, clock: Time, a: UserId, b: UserId, i: nat, j: nat)
    requires StoreInvariant(rooms, clock)
    requires a != b
    requires i < |rooms| && j < |rooms|
    requires Matches(rooms[i], a, b) && Matches(rooms[j], a, b)
    ensures i == j
  {
    assert WellFormedRoom(rooms[i], clock) && WellFormedRoom(rooms[j], clock);
    MatchingRoomsSamePair(rooms[i], rooms[j], a, b);
  }

  /** A miss adds exactly one room: empty log, participants in argument order,
      `updatedAt` null; every existing room is unchanged. */
  lemma ResolveMiss(rooms: seq<Room>, userId: UserId, productUserId: UserId)
    requires forall k :: 0 <= k < |rooms| ==> !Matches(rooms[k], userId, productUserId)
    ensures var res := Resolve(rooms, userId, productUserId);
      && res.created
      && |res.rooms| == |rooms| + 1
      && res.rooms[..|rooms|] == rooms
      && res.rooms[|rooms|] == Room(res.id, [userId, productUserId], [], None)
      && res.id == |rooms|
  {
    assert FindRoom(rooms, userId, productUserId).None?;
  }

  /** A hit returns the id of a room holding both users and inserts nothing. */
  lemma ResolveHit(rooms: seq<Room>, userId: UserId, productUserId: UserId, clock: Time)
    requires StoreInvariant(rooms, clock)
    requires exists k :: 0 <= k < |rooms| && Matches(rooms[k], userId, productUserId)
    ensures var res := Resolve(rooms, userId, productUserId);
      && !res.created
      && res.rooms == rooms
      && res.id < |rooms|
      && Matches(rooms[res.id], userId, productUserId)
  {
  }

  /** Find-or-create keeps the store invariant: the new room is the only one
      for its pair because no earlier room held both users. */
  lemma ResolveKeepsInvariant(rooms: seq<Room>, clock: Time, userId: UserId, productUserId: UserId)
    requires StoreInvariant(rooms, clock)
    ensures StoreInvariant(Resolve(rooms, userId, productUserId).rooms, clock)
  {
    var res := Resolve(rooms, userId, productUserId);
    if res.created {
      var r := NewRoom(|rooms|, userId, productUserId);
      assert res.rooms == rooms + [r];
      forall i | 0 <= i < |rooms| ensures !SamePair(rooms[i], r) {
        assert !Matches(rooms[i], userId, productUserId);
      }
    }
  }

  /** Resolving (A, B) and then (B, A), or (A, B) again, yields the same room
      id, and the second call inserts nothing. */
  lemma {:induction false} ResolveIdempotent(rooms: seq<Room>, clock: Time, a: UserId, b: UserId)
    requires StoreInvariant(rooms, clock)
    ensures var first := Resolve(rooms, a, b);
      && Resolve(first.rooms, b, a) == Resolution(first.rooms, first.id, false)
      && Resolve(first.rooms, a, b) == Resolution(first.rooms, first.id, false)
  {
    var first := Resolve(rooms, a, b);
    ResolveKeepsInvariant(rooms, clock, a, b);
    FindRoomSymmetric(first.rooms, a, b);
    match FindRoom(rooms, a, b)
    case Some(k) =>
      assert first.rooms == rooms;
    case None =>
      var r := NewRoom(|rooms|, a, b);
      assert first.rooms == rooms + [r];
      var k := |rooms|;
      assert Matches(first.rooms[k], a, b);
      var found := FindRoom(first.rooms, a, b);
      assert found.Some?;
      assert found.value == k;
  }
}
