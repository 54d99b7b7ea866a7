/** The chat store the socket handlers and routes share: the `chats`
    collection as a sequence of rooms, and the clock that stamps messages. */
module ChatServer {
  import opened ChatTypes
  import RoomDirectory
  import MessageLog
  import History
  import Listing
  import Notify

  /** `data.user` of a "chat message" event. */
  datatype Sender = Sender(id: UserId, name: string, avatar: string)

  /** The payload of a "chat message" event; `to` is absent when it is falsy. */
  datatype ChatMessage = ChatMessage(to: Option<RoomId>, deviceToken: string, message: string, user: Sender)

  /** The "chat message" event emitted to a room: `{data, dataUser}`. */
  datatype Broadcast = Broadcast(room: RoomId, data: ChatMessage, dataUser: Sender)

  class ChatStore {
    var rooms: seq<Room>
    var clock: Time

    ghost predicate Valid()
      reads this
    {
      StoreInvariant(rooms, clock)
    }

    constructor ()
      ensures Valid() && rooms == [] && clock == 0
    {
      rooms := [];
      clock := 0;
    }

    /** The "chat" event: find or create the room of the pair, then reply
        with its id and the record of `productUserId`. */
    method OpenRoom(userId: UserId, productUserId: UserId, directory: Directory) returns (reply: Listing.JoinReply)
      requires Valid()
      modifies this
      ensures Valid() && clock == old(clock)
      ensures var res := RoomDirectory.Resolve(old(rooms), userId, productUserId);
        rooms == res.rooms && reply == Listing.JoinReplyOf(res.id, directory, productUserId)
      ensures reply.roomId < |rooms| && RoomDirectory.Matches(rooms[reply.roomId], userId, productUserId)
      ensures |old(rooms)| <= |rooms| <= |old(rooms)| + 1 && rooms[..|old(rooms)|] == old(rooms)
    {
      var id: RoomId;
      match RoomDirectory.FindRoom(rooms, userId, productUserId) {
        case Some(k) =>
          id := rooms[k].id;
        case None =>
          id := |rooms|;
          rooms := rooms + [RoomDirectory.NewRoom(id, userId, productUserId)];
      }
      RoomDirectory.ResolveKeepsInvariant(old(rooms), clock, userId, productUserId);
      reply := Listing.JoinReplyOf(id, directory, productUserId);
    }

    /** The "chat message" event: build the push payloads, append the message
        to the target room, and only then emit it to the room. */
    method SendMessage(data: ChatMessage, tick: nat, isPushToken: string -> bool)
      returns (payloads: seq<Notify.PushPayload>, event: Option<Broadcast>)
      requires Valid()
      modifies this
      ensures Valid()
      ensures data.to.None? ==> payloads == [] && event == None && rooms == old(rooms) && clock == old(clock)
      ensures data.to.Some? ==>
        && clock == old(clock) + tick
        && payloads == Notify.Payloads(isPushToken, data.deviceToken, data.message, data.to.value, data.user.name)
        && MessageLog.Delivered(old(rooms), rooms, data.to.value, Message(data.message, data.user.id, clock))
        && event == Some(Broadcast(data.to.value, data, data.user))
    {
      payloads, event := [], None;
      if data.to.Some? {
        var to := data.to.value;
        payloads := Notify.Payloads(isPushToken, data.deviceToken, data.message, to, data.user.name);
        clock := clock + tick;
        var m := Message(data.message, data.user.id, clock);
        rooms := MessageLog.AppendMessage(rooms, to, m);
        MessageLog.AppendEffect(old(rooms), old(clock), to, m);
        event := Some(Broadcast(to, data, data.user));
      }
    }

    /** `GET /chatRoom/:userId`: one summary per room containing u, most
        recently updated first. */
    method ListRooms(u: UserId, directory: Directory) returns (summaries: seq<Listing.RoomSummary>)
      requires Valid()
      ensures Listing.SummarisesRooms(rooms, u, directory, summaries)
    {
      var chats := Listing.ListedRooms(rooms, u);
      Listing.ListedWellFormed(rooms, clock, u);
      summaries := Listing.Summarise(chats, u, directory);
      Listing.SummariesCoverRooms(rooms, clock, u, directory, summaries);
    }

    /** The "initial" event: the object from room id to restored room for
        every room containing u, most recently updated first, or no emission
        when there is none. */
    method RestoreRooms(u: UserId, directory: Directory) returns (restored: Option<Listing.RestoredReply>)
      requires Valid()
      ensures restored.None? <==> forall i :: 0 <= i < |rooms| ==> !HasParticipant(rooms[i], u)
      ensures restored.Some? ==> Listing.RestoresRooms(rooms, u, directory, restored.value)
    {
      var chats := Listing.ListedRooms(rooms, u);
      Listing.RestoredCoverRooms(rooms, clock, u, directory);
      if |chats| == 0 {
        return None;
      }
      var reply := Listing.FillRestored(chats, u, directory);
      restored := Some(reply);
    }
  }
}
