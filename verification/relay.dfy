/**
 * The server's event dispatch: its own registry of sockets by id, the
 * `signal` relay, and the hand-off of the control events to the
 * matchmaker.
 */
module Relay {
  import opened Protocol
  import opened Matchmaking

  /**
   * What the `signal` handler emits for one message from `fromId`: the
   * envelope `{fromId, signal}` to `targetId` when that id is registered,
   * nothing at all otherwise. The pair table plays no part.
   */
  function Route(sockets: set<PeerId>, fromId: PeerId, targetId: PeerId, signal: Signal): (out: seq<Emission>)
    ensures |out| <= 1
    ensures out != [] <==> targetId in sockets
    ensures forall e :: e in out ==> e.target == targetId && e.event == SignalFrom(fromId, signal)
  {
    if targetId in sockets then [Emission(targetId, SignalFrom(fromId, signal))] else []
  }

  /** The handlers `setupSocketHandlers(io)` installs, over the shared matchmaker. */
  class SocketServer {
    var sockets: set<PeerId>
    const matchmaker: Matchmaker
    const io: Io

    constructor (io: Io, matchmaker: Matchmaker)
      ensures sockets == {} && this.io == io && this.matchmaker == matchmaker
    {
      this.io := io;
      this.matchmaker := matchmaker;
      sockets := {};
    }

    /** A new connection registers its id. */
    method OnConnection(id: PeerId)
      modifies this`sockets
      ensures sockets == old(sockets) + {id}
    {
      sockets := sockets + {id};
    }

    /** `join-queue`: a non-forced matchmaking call. */
    method OnJoinQueue(id: PeerId)
      modifies matchmaker, io`sent
      ensures matchmaker.State(io) == Handle(old(matchmaker.State(io)), id, io.registry, false)
    {
      matchmaker.HandleMatchmaking(id, io, false);
    }

    /** `signal`: forward to the registered target, or drop. */
    method OnSignal(fromId: PeerId, targetId: PeerId, signal: Signal)
      modifies io`sent
      ensures io.sent == old(io.sent) + Route(sockets, fromId, targetId, signal)
    {
      if targetId in sockets {
        io.sent := io.sent + [Emission(targetId, SignalFrom(fromId, signal))];
      }
    }

    /** `next`: a forced matchmaking call. */
    method OnNext(id: PeerId)
      modifies matchmaker, io`sent
      ensures matchmaker.State(io) == Handle(old(matchmaker.State(io)), id, io.registry, true)
    {
      matchmaker.HandleMatchmaking(id, io, true);
    }

    /** `leave`: a forced matchmaking call. */
    method OnLeave(id: PeerId)
      modifies matchmaker, io`sent
      ensures matchmaker.State(io) == Handle(old(matchmaker.State(io)), id, io.registry, true)
    {
      matchmaker.HandleMatchmaking(id, io, true);
    }

    /**
     * `disconnect`: unregister the id first, so that signals addressed to
     * it are dropped from then on, then make a forced matchmaking call.
     */
    method OnDisconnect(id: PeerId)
      modifies this`sockets, matchmaker, io`sent
      ensures sockets == old(sockets) - {id}
      ensures matchmaker.State(io) == Handle(old(matchmaker.State(io)), id, io.registry, true)
      ensures forall fromId, signal :: Route(sockets, fromId, id, signal) == []
    {
      sockets := sockets - {id};
      matchmaker.HandleMatchmaking(id, io, true);
    }
  }
}
