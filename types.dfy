/** Values stored in the `chats` and `users` collections, and the invariant
    the chat store keeps over the `chats` collection. */
module ChatTypes {

  datatype Option<+T> = None | Some(value: T)

  /** An `ObjectId` of the `users` collection. */
  type UserId = nat

  /** An `ObjectId` of the `chats` collection. */
  type RoomId = nat

  /** A `Date`, abstracted to a tick of a clock that never goes backwards. */
  type Time = nat

  /** One entry of a room's `messages` array. */
  datatype Message = Message(message: string, userId: UserId, timestamp: Time)

  /** One document of the `chats` collection; `id` stands for its `_id`. */
  datatype Room = Room(id: RoomId, participant: seq<UserId>, messages: seq<Message>, updatedAt: Option<Time>)

  /** One document of the `users` collection, with the fields the server projects. */
  datatype User = User(id: UserId, name: string, avatar: string, deviceToken: string)

  /** The user directory, a read-only partial map from ids to user records. */
  type Directory = map<UserId, User>

  /** A directory as the `users` collection yields it: `findOne({_id: X})`
      returns only the record whose `_id` is X. */
  predicate KeyedDirectory(directory: Directory) {
    forall k :: k in directory ==> directory[k].id == k
  }

  function FindUser(directory: Directory, id: UserId): Option<User> {
    if id in directory then Some(directory[id]) else None
  }

  predicate HasParticipant(r: Room, u: UserId) {
    u in r.participant
  }

  /** The participants of a room as an unordered pair. */
  function ParticipantSet(r: Room): set<UserId> {
    set u | u in r.participant
  }

  /** Timestamps never decrease along the log. */
  predicate Chronological(ms: seq<Message>) {
    forall i, j :: 0 <= i <= j < |ms| ==> ms[i].timestamp <= ms[j].timestamp
  }

  /** The timestamp of the newest message, if any. */
  function LastStamp(ms: seq<Message>): Option<Time> {
    if ms == [] then None else Some(ms[|ms| - 1].timestamp)
  }

  /** A room as the server leaves it: a pair of participants, a chronological
      log stamped no later than `clock`, and `updatedAt` set exactly when a
      message was appended, to that message's time. */
  predicate WellFormedRoom(r: Room, clock: Time) {
    && |r.participant| == 2
    && Chronological(r.messages)
    && (forall m <- r.messages :: m.timestamp <= clock)
    && r.updatedAt == LastStamp(r.messages)
  }

  /** Two rooms of two participants each are for the same unordered pair:
      each holds both participants of the other. */
  predicate SamePair(r: Room, s: Room) {
    && |r.participant| == 2 && |s.participant| == 2
    && r.participant[0] in s.participant && r.participant[1] in s.participant
    && s.participant[0] in r.participant && s.participant[1] in r.participant
  }

  /** SamePair is equality of the participant sets. */
  lemma SamePairIsSetEquality(r: Room, s: Room)
    requires |r.participant| == 2 && |s.participant| == 2
    ensures SamePair(r, s) <==> ParticipantSet(r) == ParticipantSet(s)
  {
    if ParticipantSet(r) == ParticipantSet(s) {
      assert r.participant[0] in ParticipantSet(r) && r.participant[1] in ParticipantSet(r);
      assert s.participant[0] in ParticipantSet(s) && s.participant[1] in ParticipantSet(s);
    }
  }

  /** The invariant of the `chats` collection: each room sits at the position
      its id names, every room is well formed, and no two rooms are for the
      same unordered pair of users. */
  predicate StoreInvariant(rooms: seq<Room>, clock: Time) {
    && (forall i :: 0 <= i < |rooms| ==> rooms[i].id == i && WellFormedRoom(rooms[i], clock))
    && (forall i, j :: 0 <= i < j < |rooms| ==> !SamePair(rooms[i], rooms[j]))
  }

  /** MongoDB orders `null` below every date, so a room never written to
      ranks below every room that has been. */
  function RecencyKey(r: Room): nat {
    match r.updatedAt
    case None => 0
    case Some(t) => t + 1
  }

  /** The order the key induces is the descending `updatedAt` order: a room
      ranks at least as high as another exactly when the other was never
      written to, or both were and the first was written no earlier. */
  lemma RecencyOrder(r: Room, s: Room)
    ensures RecencyKey(r) >= RecencyKey(s) <==>
              (s.updatedAt.None? || (r.updatedAt.Some? && r.updatedAt.value >= s.updatedAt.value))
  {
  }
}
