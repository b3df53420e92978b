/**
 * Vocabulary shared by the signalling server and the browser client:
 * peer identifiers, the opaque WebRTC signal payloads, the events the
 * server emits, and the Socket.IO server object (`io`) through which the
 * matchmaker looks sockets up and emits events.
 */
module Protocol {

  /** A Socket.IO socket id: unique per live transport connection. */
  type PeerId = string
  /** Session-description text produced by the WebRTC engine; never inspected. */
  type Sdp = string
  /** An ICE candidate descriptor; never inspected. */
  type IceCandidate = string

  datatype Option<T> = None | Some(value: T)

  /**
   * The `signal` payload carried by the relay, discriminated by its `type`
   * field. Anything the client does not recognise is `Other`; a
   * candidate message may carry a null candidate.
   */
  datatype Signal =
    | Offer(sdp: Sdp)
    | Answer(sdp: Sdp)
    | Candidate(candidate: Option<IceCandidate>)
    | Other(kind: string)

  /** Events a server-side socket emits to its client. */
  datatype ServerEvent =
    | Matched(partnerId: PeerId)
    | PartnerLeft
    | SignalFrom(fromId: PeerId, signal: Signal)

  /** One `emit` on the socket whose id is `target`. */
  datatype Emission = Emission(target: PeerId, event: ServerEvent)

  /**
   * `io.sockets.sockets.get(id)` finds a socket, and that socket's
   * `connected` flag is set.
   */
  predicate IsConnected(registry: map<PeerId, bool>, id: PeerId)
  {
    id in registry && registry[id]
  }

  /**
   * The Socket.IO server. `registry` is its own table of sockets
   * (`io.sockets.sockets`), each with its `connected` flag; the transport
   * maintains it and the core only reads it. `sent` logs every emit made
   * on any socket, in order.
   */
  class Io {
    var registry: map<PeerId, bool>
    var sent: seq<Emission>

    constructor (registry: map<PeerId, bool>)
      ensures this.registry == registry && sent == []
    {
      this.registry := registry;
      sent := [];
    }
  }
}
