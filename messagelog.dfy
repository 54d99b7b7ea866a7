/** The append of the "chat message" handler: `updateOne` on one room by id,
    with `$set: {updatedAt}` and `$push: {messages: {message, userId, timestamp}}`. */
module MessageLog {
  import opened ChatTypes

  /** The `{_id: to}` filter: the position of the first room with that id. */
  function LookupRoom(rooms: seq<Room>, id: RoomId): (r: Option<nat>)
    ensures r.Some? ==> r.value < |rooms| && rooms[r.value].id == id
    ensures r.None? ==> forall k :: 0 <= k < |rooms| ==> rooms[k].id != id
  {
    if rooms == [] then None
    else if rooms[0].id == id then Some(0)
    else match LookupRoom(rooms[1..], id)
      case None => None
      case Some(k) => Some(k + 1)
  }

  /** Under the store invariant the room with id `id` is the one at position `id`. */
  lemma LookupById(rooms: seq<Room>, clock: Time, id: RoomId)
    requires StoreInvariant(rooms, clock)
    ensures LookupRoom(rooms, id) == if id < |rooms| then Some(id) else None
  {
    var r := LookupRoom(rooms, id);
    if id < |rooms| {
      assert rooms[id].id == id;
    }
  }

  /** The lookup reads the ids alone, so rewriting rooms in place keeps it. */
  lemma {:induction false} LookupSeesOnlyIds(rooms: seq<Room>, rooms': seq<Room>, id: RoomId)
    requires |rooms| == |rooms'|
    requires forall k :: 0 <= k < |rooms| ==> rooms[k].id == rooms'[k].id
    ensures LookupRoom(rooms, id) == LookupRoom(rooms', id)
  {
    if rooms != [] {
      LookupSeesOnlyIds(rooms[1..], rooms'[1..], id);
    }
  }

  /** One room after the update: the message pushed last, `updatedAt` set. */
  function Pushed(r: Room, m: Message): Room {
    r.(messages := r.messages + [m], updatedAt := Some(m.timestamp))
  }

  /** The update: no room with that id leaves the store unchanged. */
  function AppendMessage(rooms: seq<Room>, to: RoomId, m: Message): seq<Room> {
    match LookupRoom(rooms, to)
    case None => rooms
    case Some(k) => rooms[k := Pushed(rooms[k], m)]
  }

  /** The target room gains exactly one message, placed last; its earlier
      messages, its id and participants, and every other room are unchanged. */
  lemma AppendPlacesLast(rooms: seq<Room>, to: RoomId, m: Message)
    ensures var after := AppendMessage(rooms, to, m);
      && |after| == |rooms|
      && (forall k :: 0 <= k < |rooms| && rooms[k].id != to ==> after[k] == rooms[k])
      && (LookupRoom(rooms, to).None? ==> after == rooms)
      && (LookupRoom(rooms, to).Some? ==>
            var k := LookupRoom(rooms, to).value;
            && after[k].id == rooms[k].id
            && after[k].participant == rooms[k].participant
            && |after[k].messages| == |rooms[k].messages| + 1
            && after[k].messages[..|rooms[k].messages|] == rooms[k].messages
            && after[k].messages[|rooms[k].messages|] == m
            && after[k].updatedAt == Some(m.timestamp))
  {
    match LookupRoom(rooms, to)
    case None =>
    case Some(k) =>
      assert (rooms[k].messages + [m])[..|rooms[k].messages|] == rooms[k].messages;
  }

  /** With a clock that never goes back, an append keeps the store invariant. */
  lemma AppendKeepsInvariant(rooms: seq<Room>, clock: Time, to: RoomId, m: Message)
    requires StoreInvariant(rooms, clock)
    requires clock <= m.timestamp
    ensures StoreInvariant(AppendMessage(rooms, to, m), m.timestamp)
  {
    var after := AppendMessage(rooms, to, m);
    forall i | 0 <= i < |after|
      ensures after[i].id == i && WellFormedRoom(after[i], m.timestamp)
    {
      var r := rooms[i];
      assert WellFormedRoom(r, clock);
      if after[i] != r {
        assert after[i] == Pushed(r, m);
        var ms := r.messages + [m];
        forall a, b | 0 <= a <= b < |ms| ensures ms[a].timestamp <= ms[b].timestamp {
          if b == |ms| - 1 {
            if a < b {
              assert ms[a] in r.messages;
            }
          } else {
            assert ms[a] == r.messages[a] && ms[b] == r.messages[b];
          }
        }
        forall x <- ms ensures x.timestamp <= m.timestamp {
          if x != m {
            assert x in r.messages;
          }
        }
      }
    }
    assert forall i :: 0 <= i < |after| ==> after[i].participant == rooms[i].participant;
  }

  /** `updatedAt` never decreases: an append moves a room's recency up to the
      new message's time, which is no earlier than any earlier stamp. */
  lemma AppendRecencyMonotone(rooms: seq<Room>, clock: Time, to: RoomId, m: Message, i: nat)
    requires StoreInvariant(rooms, clock)
    requires clock <= m.timestamp
    requires i < |rooms|
    ensures RecencyKey(rooms[i]) <= RecencyKey(AppendMessage(rooms, to, m)[i])
    ensures rooms[i].id == to ==> AppendMessage(rooms, to, m)[i].updatedAt == Some(m.timestamp)
  {
    LookupById(rooms, clock, to);
    var r := rooms[i];
    assert WellFormedRoom(r, clock);
    if r.messages != [] {
      assert r.messages[|r.messages| - 1] in r.messages;
    }
  }

  /** What an append under a clock that never goes back guarantees: the
      store is the update's result and keeps its invariant at the new time,
      keeps its size, no room loses recency, and the target room, when it
      exists, ends with the new message and carries its time. */
  predicate Delivered(before: seq<Room>, after: seq<Room>, to: RoomId, m: Message) {
    && after == AppendMessage(before, to, m)
    && StoreInvariant(after, m.timestamp)
    && |after| == |before|
    && (forall i :: 0 <= i < |before| ==> RecencyKey(before[i]) <= RecencyKey(after[i]))
    && (to < |after| ==>
          && after[to].messages == before[to].messages + [m]
          && after[to].updatedAt == Some(m.timestamp))
  }

  lemma AppendEffect(rooms: seq<Room>, clock: Time, to: RoomId, m: Message)
    requires StoreInvariant(rooms, clock)
    requires clock <= m.timestamp
    ensures Delivered(rooms, AppendMessage(rooms, to, m), to, m)
  {
    AppendKeepsInvariant(rooms, clock, to, m);
    LookupById(rooms, clock, to);
    forall i | 0 <= i < |rooms|
      ensures RecencyKey(rooms[i]) <= RecencyKey(AppendMessage(rooms, to, m)[i])
    {
      AppendRecencyMonotone(rooms, clock, to, m, i);
    }
  }
}
