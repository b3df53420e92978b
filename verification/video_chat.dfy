/**
 * The browser-side session of the `VideoChat` component: the mutable
 * refs (`isActiveRef`, `partnerIdRef`, `localStreamRef`,
 * `peerConnectionRef`), the `status` state, and the handlers that update
 * them. Each asynchronous handler is one atomic step. The WebRTC peer
 * connection and the camera stream are abstract: a peer connection is a
 * record of what has been applied to it, a stream is "held" or not, and
 * `mediaRequests` counts the calls to `getUserMedia`.
 */
module VideoChat {
  import opened Protocol

  /** The `status` string of the component. */
  datatype Status = Idle | Searching | Connected | Disconnected

  /** What the client emits on its socket. */
  datatype ClientEmit =
    | JoinQueue
    | Next
    | Leave
    | SignalTo(targetId: PeerId, signal: Signal)

  datatype SdpType = OfferType | AnswerType

  /** A session description applied to the peer connection. */
  datatype Description = Description(kind: SdpType, sdp: Sdp)

  /**
   * A peer connection as the record of what was applied to it: its local
   * and remote descriptions, whether the local tracks were added, and the
   * ICE candidates passed to `addIceCandidate`, in order.
   */
  datatype PeerConnection = PeerConnection(
    localDescription: Option<Description>,
    remoteDescription: Option<Description>,
    tracksAdded: bool,
    candidatesAdded: seq<IceCandidate>)

  /** A freshly constructed `RTCPeerConnection`. */
  const NewPeer := PeerConnection(None, None, false, [])

  /** All of a session's state, as one value. */
  datatype SessionView = SessionView(
    status: Status,
    partnerId: Option<PeerId>,
    isActive: bool,
    localStream: bool,
    peer: Option<PeerConnection>,
    emitted: seq<ClientEmit>,
    mediaRequests: nat)

  class Session {
    var status: Status
    var partnerId: Option<PeerId>
    var isActive: bool
    var localStream: bool
    var peer: Option<PeerConnection>
    var emitted: seq<ClientEmit>
    var mediaRequests: nat

    function View(): (v: SessionView)
      reads this
    {
      SessionView(status, partnerId, isActive, localStream, peer, emitted, mediaRequests)
    }

    /**
     * A held stream always has its tracks on the current peer connection;
     * an idle session is never in active mode; a connected session knows
     * its partner.
     */
    ghost predicate Valid()
      reads this
    {
      && (localStream ==> peer.Some? && peer.value.tracksAdded)
      && (status == Idle ==> !isActive)
      && (status == Connected ==> partnerId.Some?)
    }

    constructor ()
      ensures Valid()
      ensures View() == SessionView(Idle, None, false, false, None, [], 0)
    {
      status := Idle;
      partnerId := None;
      isActive := false;
      localStream := false;
      peer := None;
      emitted := [];
      mediaRequests := 0;
    }

    /**
     * `cleanup`: stop the stream and close the peer connection. The new
     * state depends only on fields it leaves alone, so a second call
     * changes nothing.
     */
    method Cleanup()
      requires Valid()
      modifies this
      ensures Valid()
      ensures View() == old(View()).(localStream := false, peer := None)
    {
      localStream := false;
      peer := None;
    }

    /** `initPeer`: always clean up first, then install a fresh peer connection. */
    method InitPeer()
      requires Valid()
      modifies this
      ensures Valid()
      ensures View() == old(View()).(localStream := false, peer := Some(NewPeer))
    {
      Cleanup();
      peer := Some(NewPeer);
    }

    /**
     * `startLocalVideo`: when no stream is held, request one and add its
     * tracks to the peer connection. `granted` is the outcome of
     * `getUserMedia`; on a refusal `ok` is false and the caller stops.
     */
    method StartLocalVideo(granted: bool) returns (ok: bool)
      requires Valid() && peer.Some?
      modifies this
      ensures Valid()
      ensures ok == (old(localStream) || granted)
      ensures View() == if old(localStream) then old(View())
                        else old(View()).(
                          mediaRequests := old(mediaRequests) + 1,
                          localStream := granted,
                          peer := if granted then Some(old(peer).value.(tracksAdded := true)) else old(peer))
    {
      if localStream {
        return true;
      }
      mediaRequests := mediaRequests + 1;
      if !granted {
        return false;
      }
      localStream := true;
      peer := Some(peer.value.(tracksAdded := true));
      ok := true;
    }

    /**
     * `handleMatched`: record the partner, show "connected", build a
     * fresh peer connection (which drops any held stream), take the
     * camera again and send an offer to the partner. Both sides of a match
     * run this, so both send offers.
     */
    method HandleMatched(partner: PeerId, granted: bool, offerSdp: Sdp)
      requires Valid()
      modifies this
      ensures Valid()
      ensures View() == old(View()).(
        partnerId := Some(partner),
        status := Connected,
        mediaRequests := old(mediaRequests) + 1,
        localStream := granted,
        peer := Some(if granted then NewPeer.(tracksAdded := true, localDescription := Some(Description(OfferType, offerSdp)))
                     else NewPeer),
        emitted := old(emitted) + (if granted then [SignalTo(partner, Offer(offerSdp))] else []))
    {
      partnerId := Some(partner);
      status := Connected;
      InitPeer();
      var ok := StartLocalVideo(granted);
      if !ok {
        return;
      }
      peer := Some(peer.value.(localDescription := Some(Description(OfferType, offerSdp))));
      emitted := emitted + [SignalTo(partner, Offer(offerSdp))];
    }

    /**
     * `handleSignal`: make a peer connection if there is none, then act on
     * the payload. An offer makes its sender the partner, is applied as
     * the remote description and answered (after taking the camera if no
     * stream is held); an answer is applied as the remote description; a
     * non-null candidate is added at once, whether or not a remote
     * description exists yet; anything else is ignored.
     */
    method HandleSignal(fromId: PeerId, signal: Signal, granted: bool, answerSdp: Sdp)
      requires Valid()
      modifies this
      ensures Valid()
      ensures var base := if old(peer).Some? then old(peer).value else NewPeer;
        var held := old(peer).Some? && old(localStream);
        var ready := old(View()).(peer := Some(base), localStream := held);
        match signal
        case Offer(sdp) =>
          var remote := base.(remoteDescription := Some(Description(OfferType, sdp)));
          var ok := held || granted;
          View() == ready.(
            partnerId := Some(fromId),
            status := Connected,
            mediaRequests := old(mediaRequests) + (if held then 0 else 1),
            localStream := ok,
            peer := Some(if ok then remote.(tracksAdded := true, localDescription := Some(Description(AnswerType, answerSdp)))
                         else remote),
            emitted := old(emitted) + (if ok then [SignalTo(fromId, Answer(answerSdp))] else []))
        case Answer(sdp) =>
          View() == ready.(peer := Some(base.(remoteDescription := Some(Description(AnswerType, sdp)))))
        case Candidate(c) =>
          View() == ready.(peer := Some(if c.Some? then base.(candidatesAdded := base.candidatesAdded + [c.value]) else base))
        case Other(_) =>
          View() == ready
    {
      if peer.None? {
        InitPeer();
      }
      match signal {
        case Offer(sdp) =>
          partnerId := Some(fromId);
          status := Connected;
          peer := Some(peer.value.(remoteDescription := Some(Description(OfferType, sdp))));
          var ok := StartLocalVideo(granted);
          if !ok {
            return;
          }
          peer := Some(peer.value.(localDescription := Some(Description(AnswerType, answerSdp))));
          emitted := emitted + [SignalTo(fromId, Answer(answerSdp))];
        case Answer(sdp) =>
          peer := Some(peer.value.(remoteDescription := Some(Description(AnswerType, sdp))));
        case Candidate(c) =>
          if c.Some? {
            peer := Some(peer.value.(candidatesAdded := peer.value.candidatesAdded + [c.value]));
          }
        case Other(_) =>
      }
    }

    /**
     * `handlePartnerLeft`: show "disconnected", release the stream and the
     * peer connection, and in active mode join the queue again at once
     * (which shows "searching"). The partner id is left as it was.
     */
    method HandlePartnerLeft()
      requires Valid()
      modifies this
      ensures Valid()
      ensures View() == old(View()).(
        localStream := false,
        peer := None,
        status := if old(isActive) then Searching else Disconnected,
        emitted := old(emitted) + (if old(isActive) then [JoinQueue] else []))
    {
      status := Disconnected;
      Cleanup();
      if isActive {
        StartChat();
      }
    }

    /** `startChat`: enter active mode, show "searching", emit one `join-queue`. */
    method StartChat()
      requires Valid()
      modifies this
      ensures Valid()
      ensures View() == old(View()).(isActive := true, status := Searching, emitted := old(emitted) + [JoinQueue])
    {
      isActive := true;
      status := Searching;
      emitted := emitted + [JoinQueue];
    }

    /** `nextChat`: release everything, show "searching", emit `next`; active mode is untouched. */
    method NextChat()
      requires Valid()
      modifies this
      ensures Valid()
      ensures View() == old(View()).(localStream := false, peer := None, status := Searching, emitted := old(emitted) + [Next])
    {
      Cleanup();
      status := Searching;
      emitted := emitted + [Next];
    }

    /** `stopCall`: leave active mode, release everything, show "idle", emit `leave`. */
    method StopCall()
      requires Valid()
      modifies this
      ensures Valid()
      ensures View() == old(View()).(isActive := false, localStream := false, peer := None, status := Idle,
                                     emitted := old(emitted) + [Leave])
    {
      isActive := false;
      Cleanup();
      status := Idle;
      emitted := emitted + [Leave];
    }

    /**
     * The peer connection's `onicecandidate`, which fires only on a live
     * connection: a discovered candidate is sent to the partner id
     * currently recorded, and only when one is.
     */
    method OnIceCandidate(candidate: Option<IceCandidate>)
      requires Valid() && peer.Some?
      modifies this
      ensures Valid()
      ensures View() == old(View()).(
        emitted := old(emitted) + if candidate.Some? && partnerId.Some?
                                  then [SignalTo(partnerId.value, Candidate(candidate))] else [])
    {
      if candidate.Some? && partnerId.Some? {
        emitted := emitted + [SignalTo(partnerId.value, Candidate(candidate))];
      }
    }
  }
}
