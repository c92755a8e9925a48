/**
 * The socket hub of the backend, reduced to what the poll handlers rely on:
 * per-poll rooms of socket ids (`socket.join(pollId)`) and the events sent
 * with `io.to(id).emit(...)`, each recorded with the members of its room at
 * the moment it was sent.
 */
module Broadcast {
  import opened Polls

  type SocketId = string

  /** The two events the backend sends to a poll's room. */
  datatype Payload =
    | VoteUpdate(votes: seq<int>, totalVotes: int)
    | PollStatusUpdate(isActive: bool)

  /** One emitted event: its room, the sockets in that room when it was sent, and its payload. */
  datatype Event = Event(room: PollId, recipients: set<SocketId>, payload: Payload)

  type Rooms = map<PollId, set<SocketId>>

  /** The sockets in a room; a room nobody has joined is empty. */
  function Members(rooms: Rooms, room: PollId): set<SocketId> {
    if room in rooms then rooms[room] else {}
  }

  /** The rooms after `socket.join(room)`: the socket is added to that room and to no other. */
  function Joined(rooms: Rooms, room: PollId, socket: SocketId): (r: Rooms)
    ensures Members(r, room) == Members(rooms, room) + {socket}
    ensures forall other :: other != room ==> Members(r, other) == Members(rooms, other)
  {
    rooms[room := Members(rooms, room) + {socket}]
  }

  /** Joining a room twice is the same as joining it once. */
  lemma JoinIdempotent(rooms: Rooms, room: PollId, socket: SocketId)
    ensures Joined(Joined(rooms, room, socket), room, socket) == Joined(rooms, room, socket)
  {
  }

  /** The payloads a socket has received from a room, in the order they were sent. */
  function Inbox(log: seq<Event>, socket: SocketId, room: PollId): (r: seq<Payload>)
    ensures (forall k :: 0 <= k < |log| ==> !(log[k].room == room && socket in log[k].recipients)) ==> r == []
  {
    if log == [] then []
    else
      var last := log[|log| - 1];
      Inbox(log[..|log| - 1], socket, room) + (if last.room == room && socket in last.recipients then [last.payload] else [])
  }

  /**
   * Sending one event to a room appends its payload to the inbox of every
   * member of that room, and leaves every other inbox as it was: each socket
   * sees the events of a room in the order they were sent.
   */
  lemma {:induction false} InboxAfterEmit(log: seq<Event>, rooms: Rooms, room: PollId, payload: Payload, socket: SocketId, r: PollId)
    ensures Inbox(log + [Event(room, Members(rooms, room), payload)], socket, r)
      == Inbox(log, socket, r) + (if r == room && socket in Members(rooms, room) then [payload] else [])
  {
    var log' := log + [Event(room, Members(rooms, room), payload)];
    assert log'[..|log'| - 1] == log;
  }

  /** The socket hub: room membership and the log of everything emitted. */
  class Hub {
    var rooms: Rooms
    var log: seq<Event>

    constructor ()
      ensures rooms == map[] && log == []
    {
      rooms := map[];
      log := [];
    }

    /** The `joinPoll` handler: the socket joins the room named by the poll id. */
    method JoinPoll(socket: SocketId, pollId: PollId)
      modifies this
      ensures rooms == Joined(old(rooms), pollId, socket)
      ensures log == old(log)
    {
      rooms := rooms[pollId := Members(rooms, pollId) + {socket}];
    }

    /** `io.to(room).emit(...)`: one event, addressed to the current members of the room. */
    method Emit(room: PollId, payload: Payload)
      modifies this
      ensures log == old(log) + [Event(room, Members(old(rooms), room), payload)]
      ensures rooms == old(rooms)
    {
      log := log + [Event(room, Members(rooms, room), payload)];
    }
  }
}
