/** The two history reads: the paged `GET /chat/:roomId/:page` aggregate
    ($match, $unwind, $sort by timestamp descending, $skip, $limit, $group)
    and the "restore chat room" aggregate, which is the same without $skip. */
module History {
  import opened ChatTypes
  import MessageLog

  /** The page size (`limit`). */
  const Limit: nat := 50

  /** The log newest first: what `$sort: {"messages.timestamp": -1}` yields
      on a chronological log, ties taken newest-appended first. */
  function NewestFirst(ms: seq<Message>): seq<Message> {
    if ms == [] then [] else [ms[|ms| - 1]] + NewestFirst(ms[..|ms| - 1])
  }

  /** Position k of the newest-first view is the k-th message from the end. */
  lemma {:induction false} NewestFirstAt(ms: seq<Message>, k: nat)
    requires k < |ms|
    ensures |NewestFirst(ms)| == |ms|
    ensures NewestFirst(ms)[k] == ms[|ms| - 1 - k]
  {
    if k > 0 {
      NewestFirstAt(ms[..|ms| - 1], k - 1);
    } else if |ms| > 1 {
      NewestFirstAt(ms[..|ms| - 1], 0);
    }
  }

  lemma {:induction false} NewestFirstLength(ms: seq<Message>)
    ensures |NewestFirst(ms)| == |ms|
  {
    if ms != [] {
      NewestFirstLength(ms[..|ms| - 1]);
    }
  }

  /** Reordering drops and duplicates nothing. */
  lemma {:induction false} NewestFirstPermutes(ms: seq<Message>)
    ensures multiset(NewestFirst(ms)) == multiset(ms)
  {
    if ms != [] {
      var init := ms[..|ms| - 1];
      NewestFirstPermutes(init);
      assert ms == init + [ms[|ms| - 1]];
    }
  }

  predicate SortedNewestFirst(s: seq<Message>) {
    forall i, j :: 0 <= i <= j < |s| ==> s[i].timestamp >= s[j].timestamp
  }

  /** On a chronological log the newest-first view is a permutation sorted by
      timestamp descending, so it is an outcome of the `$sort` stage. */
  lemma NewestFirstIsSorted(ms: seq<Message>)
    requires Chronological(ms)
    ensures SortedNewestFirst(NewestFirst(ms))
    ensures multiset(NewestFirst(ms)) == multiset(ms)
  {
    NewestFirstPermutes(ms);
    NewestFirstLength(ms);
    var s := NewestFirst(ms);
    forall i, j | 0 <= i <= j < |s| ensures s[i].timestamp >= s[j].timestamp {
      NewestFirstAt(ms, i);
      NewestFirstAt(ms, j);
    }
  }

  /** `$skip: skip` then `$limit: limit` over the newest-first view. */
  function Window(ms: seq<Message>, skip: nat, limit: nat): seq<Message> {
    var s := NewestFirst(ms);
    var lo := if skip < |s| then skip else |s|;
    var hi := if skip + limit < |s| then skip + limit else |s|;
    s[lo..hi]
  }

  /** The window holds exactly the messages at newest-first positions
      [skip, skip + limit), and is empty once skip reaches the log's length. */
  lemma WindowContents(ms: seq<Message>, skip: nat, limit: nat)
    ensures |Window(ms, skip, limit)| <= limit
    ensures |Window(ms, skip, limit)| == if skip >= |ms| then 0
                                         else if skip + limit <= |ms| then limit
                                         else |ms| - skip
    ensures forall k :: 0 <= k < |Window(ms, skip, limit)| ==>
              Window(ms, skip, limit)[k] == ms[|ms| - 1 - (skip + k)]
  {
    NewestFirstLength(ms);
    var w := Window(ms, skip, limit);
    forall k | 0 <= k < |w| ensures w[k] == ms[|ms| - 1 - (skip + k)] {
      NewestFirstAt(ms, skip + k);
    }
  }

  /** The aggregate's result: `$unwind` drops a room without messages, and
      `$group` folds a non-empty window into one document. Either way the
      caller receives `[]` or a one-element array. */
  function Grouped(w: seq<Message>): seq<seq<Message>> {
    if w == [] then [] else [w]
  }

  /** The messages of the room with id `roomId`; none when `$match` finds no room. */
  function RoomMessages(rooms: seq<Room>, roomId: RoomId): seq<Message> {
    match MessageLog.LookupRoom(rooms, roomId)
    case None => []
    case Some(k) => rooms[k].messages
  }

  /** `GET /chat/:roomId/:page`: `skip = (page - 1) * limit`. A page below 1
      makes `$skip` negative, which the aggregate rejects: no reply. */
  function HistoryPage(rooms: seq<Room>, roomId: RoomId, page: int): Option<seq<seq<Message>>> {
    var skip := (page - 1) * Limit;
    if skip < 0 then None
    else Some(Grouped(Window(RoomMessages(rooms, roomId), skip, Limit)))
  }

  /** "restore chat room": the same pipeline with no `$skip`. */
  function RestoreTail(rooms: seq<Room>, roomId: RoomId): seq<seq<Message>> {
    Grouped(Window(RoomMessages(rooms, roomId), 0, Limit))
  }

  /** Page p >= 1 holds at most 50 messages, those at newest-first positions
      [(p-1)*50, p*50), and the reply is `[]` once (p-1)*50 reaches the
      message count; a page below 1 gets no reply. */
  lemma PageWindow(rooms: seq<Room>, roomId: RoomId, page: int)
    ensures page < 1 <==> HistoryPage(rooms, roomId, page).None?
    ensures page >= 1 ==>
      var ms := RoomMessages(rooms, roomId);
      var skip := (page - 1) * Limit;
      var reply := HistoryPage(rooms, roomId, page).value;
      && (reply == [] <==> skip >= |ms|)
      && (reply != [] ==>
            && |reply| == 1
            && 0 < |reply[0]| <= Limit
            && |reply[0]| == (if skip + Limit <= |ms| then Limit else |ms| - skip)
            && forall k :: 0 <= k < |reply[0]| ==> reply[0][k] == ms[|ms| - 1 - (skip + k)])
  {
    if page >= 1 {
      var ms := RoomMessages(rooms, roomId);
      WindowContents(ms, (page - 1) * Limit, Limit);
    }
  }

  /** The restore tail is the min(50, n) newest messages, newest first, and
      is exactly page 1 of the paged history. */
  lemma TailIsPageOne(rooms: seq<Room>, roomId: RoomId)
    ensures HistoryPage(rooms, roomId, 1) == Some(RestoreTail(rooms, roomId))
    ensures var ms := RoomMessages(rooms, roomId);
      var tail := RestoreTail(rooms, roomId);
      && (tail == [] <==> ms == [])
      && (tail != [] ==>
            && |tail[0]| == (if |ms| < Limit then |ms| else Limit)
            && forall k :: 0 <= k < |tail[0]| ==> tail[0][k] == ms[|ms| - 1 - k])
  {
    WindowContents(RoomMessages(rooms, roomId), 0, Limit);
  }

  /** Every message is in exactly one page: message i from the newest sits
      on page i / 50 + 1 at position i % 50. */
  lemma MessageOnItsPage(rooms: seq<Room>, roomId: RoomId, i: nat)
    requires i < |RoomMessages(rooms, roomId)|
    ensures var ms := RoomMessages(rooms, roomId);
      var reply := HistoryPage(rooms, roomId, i / Limit + 1);
      && reply.Some? && |reply.value| == 1
      && i % Limit < |reply.value[0]|
      && reply.value[0][i % Limit] == ms[|ms| - 1 - i]
  {
    var ms := RoomMessages(rooms, roomId);
    var page := i / Limit + 1;
    assert (page - 1) * Limit + i % Limit == i;
    PageWindow(rooms, roomId, page);
  }

  /** Appending puts the new message at the head of the newest-first view
      and shifts every earlier message one place back. */
  lemma NewestFirstAfterAppend(ms: seq<Message>, m: Message)
    ensures NewestFirst(ms + [m]) == [m] + NewestFirst(ms)
  {
    assert (ms + [m])[..|ms|] == ms;
  }

  /** Persist before publish: once the append has been applied, the restore
      tail of that room starts with the new message. */
  lemma TailShowsAppended(rooms: seq<Room>, clock: Time, roomId: RoomId, m: Message)
    requires StoreInvariant(rooms, clock)
    requires roomId < |rooms|
    ensures var tail := RestoreTail(MessageLog.AppendMessage(rooms, roomId, m), roomId);
      tail != [] && tail[0][0] == m
  {
    MessageLog.LookupById(rooms, clock, roomId);
    var after := MessageLog.AppendMessage(rooms, roomId, m);
    assert after[roomId] == MessageLog.Pushed(rooms[roomId], m);
    assert after[roomId].id == roomId;
    MessageLog.LookupSeesOnlyIds(rooms, after, roomId);
    NewestFirstAfterAppend(rooms[roomId].messages, m);
    NewestFirstLength(rooms[roomId].messages + [m]);
  }
}
