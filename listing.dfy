/** The room listing shared by `GET /chatRoom/:userId` and the "initial"
    event: the rooms whose participants include a user, most recently
    updated first, each with the other participant's record and the last
    message; and the "join" reply of the "chat" event. */
module Listing {
  import opened ChatTypes

  /** The other participant: the second if the user is the first, else the first. */
  function Peer(r: Room, u: UserId): UserId
    requires |r.participant| == 2
  {
    if u == r.participant[0] then r.participant[1] else r.participant[0]
  }

  /** For a room containing u, the peer is a participant, the pair is {u, peer},
      and the peer differs from u whenever the two participants differ. */
  lemma PeerIsOther(r: Room, u: UserId)
    requires |r.participant| == 2 && HasParticipant(r, u)
    ensures Peer(r, u) in r.participant
    ensures ParticipantSet(r) == {u, Peer(r, u)}
    ensures r.participant[0] != r.participant[1] ==> Peer(r, u) != u
  {
  }

  /** `messages[messages.length - 1]`, absent for an empty log. */
  function LastMessage(ms: seq<Message>): Option<Message> {
    if ms == [] then None else Some(ms[|ms| - 1])
  }

  /** The last message is the one appended most recently. */
  lemma LastMessageIsLastAppended(ms: seq<Message>, m: Message)
    ensures LastMessage(ms + [m]) == Some(m)
    ensures LastMessage(ms) == None <==> ms == []
  {
  }

  /** The `{participant: {$in: [u]}}` filter, in store order. */
  function RoomsOf(rooms: seq<Room>, u: UserId): (r: seq<Room>)
    ensures forall x :: multiset(r)[x] == if HasParticipant(x, u) then multiset(rooms)[x] else 0
  {
    if rooms == [] then []
    else
      var rest := RoomsOf(rooms[1..], u);
      assert rooms == [rooms[0]] + rooms[1..];
      if HasParticipant(rooms[0], u) then [rooms[0]] + rest else rest
  }

  predicate ByRecencySorted(s: seq<Room>) {
    forall i, j :: 0 <= i <= j < |s| ==> RecencyKey(s[i]) >= RecencyKey(s[j])
  }

  /** A room no less recent than the head of a sorted listing can lead it. */
  lemma PrependSorted(y: Room, t: seq<Room>)
    requires ByRecencySorted(t)
    requires t != [] ==> RecencyKey(y) >= RecencyKey(t[0])
    ensures ByRecencySorted([y] + t)
  {
    forall i, j | 0 <= i <= j < |[y] + t| ensures RecencyKey(([y] + t)[i]) >= RecencyKey(([y] + t)[j]) {
      if 0 < i {
        assert ([y] + t)[i] == t[i - 1] && ([y] + t)[j] == t[j - 1];
      } else if 0 < j {
        assert ([y] + t)[j] == t[j - 1];
      }
    }
  }

  /** Places x before the first room updated no later than x. */
  function InsertByRecency(x: Room, s: seq<Room>): (r: seq<Room>)
    requires ByRecencySorted(s)
    ensures ByRecencySorted(r)
    ensures multiset(r) == multiset(s) + multiset{x}
    ensures |r| > 0 && (r[0] == x || (s != [] && r[0] == s[0]))
  {
    if s == [] || RecencyKey(x) >= RecencyKey(s[0]) then
      PrependSorted(x, s);
      [x] + s
    else
      assert s == [s[0]] + s[1..];
      var rest := InsertByRecency(x, s[1..]);
      PrependSorted(s[0], rest);
      [s[0]] + rest
  }

  /** `.sort({updatedAt: -1})`: most recently updated first, rooms never
      written to last. */
  function ByRecency(rooms: seq<Room>): (r: seq<Room>)
    ensures ByRecencySorted(r)
    ensures multiset(r) == multiset(rooms)
  {
    if rooms == [] then []
    else
      assert rooms == [rooms[0]] + rooms[1..];
      InsertByRecency(rooms[0], ByRecency(rooms[1..]))
  }

  /** The query result both handlers iterate over. */
  function ListedRooms(rooms: seq<Room>, u: UserId): seq<Room> {
    ByRecency(RoomsOf(rooms, u))
  }

  /** The listing holds exactly the rooms that contain u, each once, most
      recently updated first. */
  lemma ListedRoomsExact(rooms: seq<Room>, clock: Time, u: UserId)
    requires StoreInvariant(rooms, clock)
    ensures ByRecencySorted(ListedRooms(rooms, u))
    ensures forall x :: x in ListedRooms(rooms, u) <==> x in rooms && HasParticipant(x, u)
    ensures forall x :: multiset(ListedRooms(rooms, u))[x] <= 1
    ensures forall x :: x in ListedRooms(rooms, u) ==>
              x.id < |rooms| && rooms[x.id] == x && WellFormedRoom(x, clock)
  {
    var listed := ListedRooms(rooms, u);
    forall x ensures multiset(listed)[x] <= 1 {
      UniqueInStore(rooms, clock, x);
    }
  }

  /** Two equal entries at distinct positions count twice. */
  lemma {:induction false} RepeatCountsTwice(s: seq<Room>, k: nat, l: nat)
    requires k < l < |s|
    ensures s[k] == s[l] ==> multiset(s)[s[k]] >= 2
  {
    assert s == s[..l] + s[l..];
    assert s[k] in s[..l];
    assert s[l] == s[l..][0];
  }

  /** No room appears twice in the listing, so no room id does either. */
  lemma ListedIdsDistinct(rooms: seq<Room>, clock: Time, u: UserId)
    requires StoreInvariant(rooms, clock)
    ensures var listed := ListedRooms(rooms, u);
      forall k, l :: 0 <= k < l < |listed| ==> listed[k].id != listed[l].id
  {
    var listed := ListedRooms(rooms, u);
    ListedRoomsExact(rooms, clock, u);
    forall k, l | 0 <= k < l < |listed| ensures listed[k].id != listed[l].id {
      assert listed[k] in listed && listed[l] in listed;
      RepeatCountsTwice(listed, k, l);
    }
  }

  /** An entry that no other position repeats counts once. */
  lemma CountsOnce(s: seq<Room>, k: nat)
    requires k < |s|
    requires forall i :: 0 <= i < |s| && i != k ==> s[i] != s[k]
    ensures multiset(s)[s[k]] == 1
  {
    assert s == s[..k] + [s[k]] + s[k + 1..];
    assert s[k] !in s[..k];
    assert s[k] !in s[k + 1..];
  }

  /** Under the store invariant a room value sits at its id and nowhere else. */
  lemma UniqueInStore(rooms: seq<Room>, clock: Time, x: Room)
    requires StoreInvariant(rooms, clock)
    ensures multiset(rooms)[x] <= 1
    ensures x in rooms ==> x.id < |rooms| && rooms[x.id] == x
  {
    if x in rooms {
      var k :| 0 <= k < |rooms| && rooms[k] == x;
      assert rooms[k].id == k;
      forall i | 0 <= i < |rooms| && i != k ensures rooms[i] != rooms[k] {
        assert rooms[i].id == i;
      }
      CountsOnce(rooms, k);
    }
  }

  /** One entry of the listing: `userId`, `name`, `avatar` and `deviceToken`
      come from the peer's user record, absent when the directory has none. */
  datatype RoomSummary = RoomSummary(roomId: RoomId, peer: Option<User>, lastMessage: Option<Message>, active: bool)

  function SummaryOf(r: Room, u: UserId, directory: Directory): RoomSummary
    requires |r.participant| == 2 && HasParticipant(r, u)
  {
    RoomSummary(r.id, FindUser(directory, Peer(r, u)), LastMessage(r.messages), false)
  }

  /** The listing by position: each entry is the stored room at its id and
      contains u, every room containing u is listed, no id repeats, and the
      order is by recency. */
  predicate ListsRoomsOf(rooms: seq<Room>, u: UserId, chats: seq<Room>) {
    && (forall k :: 0 <= k < |chats| ==>
          chats[k].id < |rooms| && rooms[chats[k].id] == chats[k] && HasParticipant(chats[k], u))
    && (forall i :: 0 <= i < |rooms| && HasParticipant(rooms[i], u) ==>
          exists k :: 0 <= k < |chats| && chats[k].id == i)
    && (forall k, l :: 0 <= k < l < |chats| ==> chats[k].id != chats[l].id)
    && ByRecencySorted(chats)
  }

  lemma ListedRoomsByPosition(rooms: seq<Room>, clock: Time, u: UserId)
    requires StoreInvariant(rooms, clock)
    ensures ListsRoomsOf(rooms, u, ListedRooms(rooms, u))
  {
    var chats := ListedRooms(rooms, u);
    ListedRoomsExact(rooms, clock, u);
    ListedIdsDistinct(rooms, clock, u);
    forall k | 0 <= k < |chats|
      ensures chats[k].id < |rooms| && rooms[chats[k].id] == chats[k] && HasParticipant(chats[k], u)
    {
      assert chats[k] in chats;
    }
    forall i | 0 <= i < |rooms| && HasParticipant(rooms[i], u)
      ensures exists k :: 0 <= k < |chats| && chats[k].id == i
    {
      assert rooms[i] in rooms;
      var k :| 0 <= k < |chats| && chats[k] == rooms[i];
      assert rooms[i].id == i;
    }
  }

  /** What `GET /chatRoom/:userId` answers: every room containing u exactly
      once, most recently updated first, each entry summarising the stored
      room with that id. */
  predicate SummarisesRooms(rooms: seq<Room>, u: UserId, directory: Directory, summaries: seq<RoomSummary>) {
    && (forall k :: 0 <= k < |summaries| ==>
          && summaries[k].roomId < |rooms|
          && |rooms[summaries[k].roomId].participant| == 2
          && HasParticipant(rooms[summaries[k].roomId], u)
          && summaries[k] == SummaryOf(rooms[summaries[k].roomId], u, directory))
    && (forall i :: 0 <= i < |rooms| && HasParticipant(rooms[i], u) ==>
          exists k :: 0 <= k < |summaries| && summaries[k].roomId == i)
    && (forall k, l :: 0 <= k < l < |summaries| ==> summaries[k].roomId != summaries[l].roomId)
    && (forall k, l :: 0 <= k <= l < |summaries| ==>
          RecencyKey(rooms[summaries[k].roomId]) >= RecencyKey(rooms[summaries[l].roomId]))
  }

  /** Every listed room holds two participants, u among them. */
  lemma ListedWellFormed(rooms: seq<Room>, clock: Time, u: UserId)
    requires StoreInvariant(rooms, clock)
    ensures var chats := ListedRooms(rooms, u);
      forall k :: 0 <= k < |chats| ==> |chats[k].participant| == 2 && HasParticipant(chats[k], u)
  {
    var chats := ListedRooms(rooms, u);
    ListedRoomsByPosition(rooms, clock, u);
    forall k | 0 <= k < |chats| ensures |chats[k].participant| == 2 {
      assert rooms[chats[k].id] == chats[k];
    }
  }

  /** The i-th summary summarises the i-th listed room. */
  predicate SummarisesListing(chats: seq<Room>, u: UserId, directory: Directory, summaries: seq<RoomSummary>) {
    && |summaries| == |chats|
    && forall k :: 0 <= k < |chats| ==>
         |chats[k].participant| == 2 && HasParticipant(chats[k], u) && summaries[k] == SummaryOf(chats[k], u, directory)
  }

  /** The loop of `GET /chatRoom/:userId` over the query result. */
  method Summarise(chats: seq<Room>, u: UserId, directory: Directory) returns (summaries: seq<RoomSummary>)
    requires forall k :: 0 <= k < |chats| ==> |chats[k].participant| == 2 && HasParticipant(chats[k], u)
    ensures SummarisesListing(chats, u, directory, summaries)
  {
    summaries := [];
    for i := 0 to |chats|
      invariant |summaries| == i
      invariant forall k :: 0 <= k < i ==> summaries[k] == SummaryOf(chats[k], u, directory)
    {
      summaries := summaries + [SummaryOf(chats[i], u, directory)];
    }
  }

  /** Summarising a listing entry by entry answers the request. */
  lemma SummariesOfListing(rooms: seq<Room>, u: UserId, directory: Directory, chats: seq<Room>, summaries: seq<RoomSummary>)
    requires ListsRoomsOf(rooms, u, chats)
    requires SummarisesListing(chats, u, directory, summaries)
    ensures SummarisesRooms(rooms, u, directory, summaries)
  {
    forall k | 0 <= k < |summaries|
      ensures summaries[k].roomId == chats[k].id && rooms[summaries[k].roomId] == chats[k]
    {
    }
    forall k, l | 0 <= k <= l < |summaries|
      ensures RecencyKey(rooms[summaries[k].roomId]) >= RecencyKey(rooms[summaries[l].roomId])
    {
      assert RecencyKey(chats[k]) >= RecencyKey(chats[l]);
    }
    forall i | 0 <= i < |rooms| && HasParticipant(rooms[i], u)
      ensures exists k :: 0 <= k < |summaries| && summaries[k].roomId == i
    {
      var k :| 0 <= k < |chats| && chats[k].id == i;
      assert summaries[k].roomId == i;
    }
  }

  /** Summarising the query result entry by entry answers the request. */
  lemma SummariesCoverRooms(rooms: seq<Room>, clock: Time, u: UserId, directory: Directory, summaries: seq<RoomSummary>)
    requires StoreInvariant(rooms, clock)
    requires SummarisesListing(ListedRooms(rooms, u), u, directory, summaries)
    ensures SummarisesRooms(rooms, u, directory, summaries)
  {
    ListedRoomsByPosition(rooms, clock, u);
    SummariesOfListing(rooms, u, directory, ListedRooms(rooms, u), summaries);
  }

  /** One entry of the "restore chat" map: as a summary, but with the whole log. */
  datatype RestoredRoom = RestoredRoom(roomId: RoomId, peer: Option<User>, message: seq<Message>, active: bool)

  function RestoredOf(r: Room, u: UserId, directory: Directory): RestoredRoom
    requires |r.participant| == 2 && HasParticipant(r, u)
  {
    RestoredRoom(r.id, FindUser(directory, Peer(r, u)), r.messages, false)
  }

  /** An entry names its room, is inactive, carries the peer's directory
      record when there is one, and the last message (summary) or the whole
      log (restored room). */
  lemma EntryFields(r: Room, u: UserId, directory: Directory)
    requires |r.participant| == 2 && HasParticipant(r, u)
    ensures var s := SummaryOf(r, u, directory);
      && s.roomId == r.id && !s.active
      && (s.peer.Some? <==> Peer(r, u) in directory)
      && (s.peer.Some? ==> s.peer.value == directory[Peer(r, u)])
      && (KeyedDirectory(directory) && s.peer.Some? ==> s.peer.value.id == Peer(r, u))
      && (s.lastMessage.Some? <==> r.messages != [])
      && (s.lastMessage.Some? ==> s.lastMessage.value == r.messages[|r.messages| - 1])
    ensures var s := RestoredOf(r, u, directory);
      && s.roomId == r.id && !s.active && s.message == r.messages
      && (s.peer.Some? <==> Peer(r, u) in directory)
      && (s.peer.Some? ==> s.peer.value == directory[Peer(r, u)])
      && (KeyedDirectory(directory) && s.peer.Some? ==> s.peer.value.id == Peer(r, u))
  {
  }

  /** The "restore chat" object the "initial" event emits: its keys in the
      order a JavaScript object lists them (insertion order, since room ids
      are never array indices) and the entry under each key. */
  datatype RestoredReply = RestoredReply(keys: seq<RoomId>, entries: map<RoomId, RestoredRoom>)

  /** The entries are keyed by exactly the ids of the rooms containing u,
      each restoring the stored room with that id. */
  predicate RestoresEntries(rooms: seq<Room>, u: UserId, directory: Directory, entries: map<RoomId, RestoredRoom>) {
    && (forall i :: 0 <= i < |rooms| && HasParticipant(rooms[i], u) ==> i in entries)
    && (forall id :: id in entries ==>
          && id < |rooms| && |rooms[id].participant| == 2 && HasParticipant(rooms[id], u)
          && entries[id] == RestoredOf(rooms[id], u, directory))
  }

  /** The key order lists every entry once and no other key, most recently
      updated room first. */
  predicate KeysByRecency(rooms: seq<Room>, reply: RestoredReply) {
    && (forall k :: 0 <= k < |reply.keys| ==> reply.keys[k] in reply.entries)
    && (forall id :: id in reply.entries ==> id in reply.keys)
    && (forall k, l :: 0 <= k < l < |reply.keys| ==> reply.keys[k] != reply.keys[l])
    && (forall k, l :: 0 <= k <= l < |reply.keys| ==>
          reply.keys[k] < |rooms| && reply.keys[l] < |rooms| &&
          RecencyKey(rooms[reply.keys[k]]) >= RecencyKey(rooms[reply.keys[l]]))
  }

  /** What the "initial" event emits. */
  predicate RestoresRooms(rooms: seq<Room>, u: UserId, directory: Directory, reply: RestoredReply) {
    RestoresEntries(rooms, u, directory, reply.entries) && KeysByRecency(rooms, reply)
  }

  /** The key order of an object after `obj[cs[k].id] = ...` for every
      k < n: a new key goes last, a key already present keeps its place. */
  function KeyOrder(cs: seq<Room>, n: nat): seq<RoomId>
    requires n <= |cs|
  {
    if n == 0 then []
    else
      var prev := KeyOrder(cs, n - 1);
      if cs[n - 1].id in prev then prev else prev + [cs[n - 1].id]
  }

  /** With distinct ids every assignment adds a key, so the key order is
      the order of the rooms. */
  lemma {:induction false} KeyOrderOfDistinct(cs: seq<Room>, n: nat)
    requires n <= |cs|
    requires forall k, l :: 0 <= k < l < |cs| ==> cs[k].id != cs[l].id
    ensures |KeyOrder(cs, n)| == n
    ensures forall k :: 0 <= k < n ==> KeyOrder(cs, n)[k] == cs[k].id
  {
    if n > 0 {
      KeyOrderOfDistinct(cs, n - 1);
      var prev := KeyOrder(cs, n - 1);
      assert forall k :: 0 <= k < |prev| ==> prev[k] != cs[n - 1].id;
      assert cs[n - 1].id !in prev;
    }
  }

  /** The map the "initial" handler has filled after its first n entries. */
  function RestoredMap(cs: seq<Room>, n: nat, u: UserId, directory: Directory): map<RoomId, RestoredRoom>
    requires n <= |cs|
    requires forall k :: 0 <= k < |cs| ==> |cs[k].participant| == 2 && HasParticipant(cs[k], u)
  {
    if n == 0 then map[]
    else RestoredMap(cs, n - 1, u, directory)[cs[n - 1].id := RestoredOf(cs[n - 1], u, directory)]
  }

  /** With distinct ids no entry overwrites another: each room entered so
      far is in the map under its id, restored. */
  lemma {:induction false} RestoredMapHolds(cs: seq<Room>, n: nat, u: UserId, directory: Directory)
    requires n <= |cs|
    requires forall k :: 0 <= k < |cs| ==> |cs[k].participant| == 2 && HasParticipant(cs[k], u)
    requires forall k, l :: 0 <= k < l < |cs| ==> cs[k].id != cs[l].id
    ensures var m := RestoredMap(cs, n, u, directory);
      forall k :: 0 <= k < n ==> cs[k].id in m && m[cs[k].id] == RestoredOf(cs[k], u, directory)
  {
    if n > 0 {
      RestoredMapHolds(cs, n - 1, u, directory);
      var prev := RestoredMap(cs, n - 1, u, directory);
      var m := RestoredMap(cs, n, u, directory);
      assert m == prev[cs[n - 1].id := RestoredOf(cs[n - 1], u, directory)];
      forall k | 0 <= k < n - 1
        ensures cs[k].id in m && m[cs[k].id] == RestoredOf(cs[k], u, directory)
      {
        assert cs[k].id != cs[n - 1].id;
        assert m[cs[k].id] == prev[cs[k].id];
      }
    }
  }

  /** The map is keyed by the ids entered so far and no others. */
  lemma {:induction false} RestoredMapKeys(cs: seq<Room>, n: nat, u: UserId, directory: Directory)
    requires n <= |cs|
    requires forall k :: 0 <= k < |cs| ==> |cs[k].participant| == 2 && HasParticipant(cs[k], u)
    ensures forall id :: id in RestoredMap(cs, n, u, directory) ==> exists k :: 0 <= k < n && cs[k].id == id
    ensures forall k :: 0 <= k < n ==> cs[k].id in RestoredMap(cs, n, u, directory)
  {
    if n > 0 {
      RestoredMapKeys(cs, n - 1, u, directory);
      var prev := RestoredMap(cs, n - 1, u, directory);
      assert RestoredMap(cs, n, u, directory).Keys == prev.Keys + {cs[n - 1].id};
    }
  }

  /** The loop of the "initial" handler over the query result, filling
      the object `chatRooms` one key at a time. */
  method FillRestored(chats: seq<Room>, u: UserId, directory: Directory) returns (reply: RestoredReply)
    requires forall k :: 0 <= k < |chats| ==> |chats[k].participant| == 2 && HasParticipant(chats[k], u)
    ensures reply == RestoredReply(KeyOrder(chats, |chats|), RestoredMap(chats, |chats|, u, directory))
  {
    var keys: seq<RoomId> := [];
    var m: map<RoomId, RestoredRoom> := map[];
    for i := 0 to |chats|
      invariant keys == KeyOrder(chats, i)
      invariant m == RestoredMap(chats, i, u, directory)
    {
      if chats[i].id !in keys {
        keys := keys + [chats[i].id];
      }
      m := m[chats[i].id := RestoredOf(chats[i], u, directory)];
    }
    reply := RestoredReply(keys, m);
  }

  /** Filling the map from a whole listing restores every room containing
      u and nothing else. */
  lemma RestoredMapOfListing(rooms: seq<Room>, u: UserId, directory: Directory, chats: seq<Room>)
    requires ListsRoomsOf(rooms, u, chats)
    requires forall k :: 0 <= k < |chats| ==> |chats[k].participant| == 2 && HasParticipant(chats[k], u)
    ensures RestoresEntries(rooms, u, directory, RestoredMap(chats, |chats|, u, directory))
  {
    RestoredMapHolds(chats, |chats|, u, directory);
    RestoredMapKeys(chats, |chats|, u, directory);
  }

  /** Keys taken from a listing in its order are distinct and ordered by
      recency. */
  lemma KeysFollowListing(rooms: seq<Room>, u: UserId, chats: seq<Room>, keys: seq<RoomId>)
    requires ListsRoomsOf(rooms, u, chats)
    requires |keys| == |chats| && forall k :: 0 <= k < |chats| ==> keys[k] == chats[k].id
    ensures forall k, l :: 0 <= k < l < |keys| ==> keys[k] != keys[l]
    ensures forall k, l :: 0 <= k <= l < |keys| ==>
              keys[k] < |rooms| && keys[l] < |rooms| &&
              RecencyKey(rooms[keys[k]]) >= RecencyKey(rooms[keys[l]])
  {
    forall k, l | 0 <= k <= l < |keys|
      ensures keys[k] < |rooms| && keys[l] < |rooms| && RecencyKey(rooms[keys[k]]) >= RecencyKey(rooms[keys[l]])
    {
      assert rooms[keys[k]] == chats[k] && rooms[keys[l]] == chats[l];
    }
  }

  /** With distinct ids the object's keys are the rooms' ids in order,
      and they are exactly the keys that carry an entry. */
  lemma KeysMatchEntries(cs: seq<Room>, u: UserId, directory: Directory)
    requires forall k :: 0 <= k < |cs| ==> |cs[k].participant| == 2 && HasParticipant(cs[k], u)
    requires forall k, l :: 0 <= k < l < |cs| ==> cs[k].id != cs[l].id
    ensures var keys := KeyOrder(cs, |cs|);
      && |keys| == |cs| && (forall k :: 0 <= k < |cs| ==> keys[k] == cs[k].id)
    ensures var keys := KeyOrder(cs, |cs|);
      var m := RestoredMap(cs, |cs|, u, directory);
      && (forall k :: 0 <= k < |keys| ==> keys[k] in m)
      && (forall id :: id in m ==> id in keys)
  {
    var keys := KeyOrder(cs, |cs|);
    var m := RestoredMap(cs, |cs|, u, directory);
    KeyOrderOfDistinct(cs, |cs|);
    RestoredMapHolds(cs, |cs|, u, directory);
    RestoredMapKeys(cs, |cs|, u, directory);
    forall id | id in m ensures id in keys {
      var k :| 0 <= k < |cs| && cs[k].id == id;
      assert keys[k] == id;
    }
  }

  /** Filling the object from a whole listing lists its keys in the
      listing's order: each room once, most recently updated first. */
  lemma RestoredKeysOfListing(rooms: seq<Room>, u: UserId, directory: Directory, chats: seq<Room>)
    requires ListsRoomsOf(rooms, u, chats)
    requires forall k :: 0 <= k < |chats| ==> |chats[k].participant| == 2 && HasParticipant(chats[k], u)
    ensures KeysByRecency(rooms, RestoredReply(KeyOrder(chats, |chats|), RestoredMap(chats, |chats|, u, directory)))
  {
    KeysMatchEntries(chats, u, directory);
    KeysFollowListing(rooms, u, chats, KeyOrder(chats, |chats|));
  }

  /** Filling the object from the query result restores every room
      containing u and nothing else, keyed most recently updated first; an
      empty result means no room contains u. */
  lemma RestoredCoverRooms(rooms: seq<Room>, clock: Time, u: UserId, directory: Directory)
    requires StoreInvariant(rooms, clock)
    ensures var chats := ListedRooms(rooms, u);
      && (chats == [] <==> forall i :: 0 <= i < |rooms| ==> !HasParticipant(rooms[i], u))
      && (forall k :: 0 <= k < |chats| ==> |chats[k].participant| == 2 && HasParticipant(chats[k], u))
      && RestoresRooms(rooms, u, directory, RestoredReply(KeyOrder(chats, |chats|), RestoredMap(chats, |chats|, u, directory)))
  {
    ListedRoomsByPosition(rooms, clock, u);
    ListedWellFormed(rooms, clock, u);
    ListedEmpty(rooms, u, ListedRooms(rooms, u));
    RestoredMapOfListing(rooms, u, directory, ListedRooms(rooms, u));
    RestoredKeysOfListing(rooms, u, directory, ListedRooms(rooms, u));
  }

  /** The listing is empty exactly when no room contains u. */
  lemma ListedEmpty(rooms: seq<Room>, u: UserId, chats: seq<Room>)
    requires ListsRoomsOf(rooms, u, chats)
    ensures chats == [] <==> forall i :: 0 <= i < |rooms| ==> !HasParticipant(rooms[i], u)
  {
    if chats != [] {
      assert HasParticipant(rooms[chats[0].id], u);
    }
  }

  /** The "join" reply of the "chat" event. */
  datatype JoinReply = JoinReply(roomId: RoomId, peer: Option<User>)

  /** The reply as written: the record of `productUserId` is dereferenced
      even after the code has set it to null, which throws and sends nothing. */
  function JoinReplyAsWritten(roomId: RoomId, directory: Directory, productUserId: UserId): (r: Option<JoinReply>)
    ensures r.Some? <==> productUserId in directory
    ensures r.Some? ==> r.value.roomId == roomId && r.value.peer == Some(directory[productUserId])
  {
    match FindUser(directory, productUserId)
    case None => None
    case Some(user) => Some(JoinReply(roomId, Some(user)))
  }

  /** The reply with the missing peer surfaced as absent. */
  function JoinReplyOf(roomId: RoomId, directory: Directory, productUserId: UserId): (r: JoinReply)
    ensures r.roomId == roomId
    ensures r.peer.Some? <==> productUserId in directory
    ensures r.peer.Some? ==> r.peer.value == directory[productUserId]
    ensures KeyedDirectory(directory) && r.peer.Some? ==> r.peer.value.id == productUserId
  {
    JoinReply(roomId, FindUser(directory, productUserId))
  }

  /** A peer missing from the directory makes the reply as written throw,
      whereas the corrected reply still names the room. */
  lemma JoinReplyMissingPeer(roomId: RoomId, directory: Directory, productUserId: UserId)
    requires productUserId !in directory
    ensures JoinReplyAsWritten(roomId, directory, productUserId) == None
    ensures JoinReplyOf(roomId, directory, productUserId) == JoinReply(roomId, None)
  {
  }

  /** Where the peer exists, the corrected reply is the reply as written. */
  lemma JoinReplyAgrees(roomId: RoomId, directory: Directory, productUserId: UserId)
    requires productUserId in directory
    ensures JoinReplyAsWritten(roomId, directory, productUserId) == Some(JoinReplyOf(roomId, directory, productUserId))
  {
  }
}
