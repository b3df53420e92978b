/**
 * End-to-end runs over fresh objects: a signalling server, its
 * matchmaker, and the browser sessions of two peers "a" and "b", with
 * every server emit delivered to the addressed session by hand.
 */
module Scenarios {
  import opened Protocol
  import opened Matchmaking
  import opened Relay
  import opened VideoChat
  import opened MatchmakingProperties

  /** "b" joins while only "a", connected, waits: the two are paired and both told. */
  lemma SecondJoinerIsMatched(registry: map<PeerId, bool>, sent: seq<Emission>)
    requires IsConnected(registry, "a")
    ensures Handle(MatchState(["a"], map[], sent), "b", registry, false)
         == MatchState([], map["b" := "a", "a" := "b"], sent + [Emission("b", Matched("a")), Emission("a", Matched("b"))])
  {
    assert Without(["a"], "b") == ["a"];
  }

  /**
   * "a" leaves a pair with the connected "b" while the queue is empty:
   * "b" is told `partner-left`, re-queued, and at once matched with "a" again.
   */
  lemma DepartedCallerIsMatchedAgain(registry: map<PeerId, bool>, sent: seq<Emission>)
    requires IsConnected(registry, "b")
    ensures Handle(MatchState([], map["b" := "a", "a" := "b"], sent), "a", registry, true)
         == MatchState([], map["a" := "b", "b" := "a"],
                       sent + [Emission("b", PartnerLeft), Emission("a", Matched("b")), Emission("b", Matched("a"))])
  {
    var s := MatchState([], map["b" := "a", "a" := "b"], sent);
    var released := MatchState(["b"], map[], sent + [Emission("b", PartnerLeft)]);
    assert Without(["b"], "a") == ["b"];
    assert Teardown(s, "a", registry) == released by {
      assert s.pairs - {"a"} - {"b"} == map[];
    }
    assert Prepared(s, "a", registry, true) == released;
    assert Match(released, "a", registry)
        == MatchState([], map["a" := "b", "b" := "a"], released.sent + [Emission("a", Matched("b")), Emission("b", Matched("a"))]);
  }

  /**
   * The server run of two `join-queue` events from connected peers: the
   * later joiner is matched with the waiting one and `matched` goes to both.
   */
  method TwoJoinersAreMatched() returns (sent: seq<Emission>)
    ensures sent == [Emission("b", Matched("a")), Emission("a", Matched("b"))]
  {
    var io := new Io(map["a" := true, "b" := true]);
    var matchmaker := new Matchmaker();
    var server := new SocketServer(io, matchmaker);
    server.OnConnection("a");
    server.OnConnection("b");
    server.OnJoinQueue("a");
    EmptyQueueQueuesCaller(MatchState([], map[], []), "a", io.registry, false);
    assert matchmaker.State(io) == MatchState(["a"], map[], []);
    server.OnJoinQueue("b");
    SecondJoinerIsMatched(io.registry, []);
    sent := io.sent;
  }

  /**
   * Two active peers join one after the other. The later joiner is
   * matched with the waiting one, `matched` goes to both, and each
   * session answers it by sending an offer: both sides offer at once.
   */
  method BothMatchedPeersOffer() returns (sent: seq<Emission>, emittedA: seq<ClientEmit>, emittedB: seq<ClientEmit>)
    ensures sent == [Emission("b", Matched("a")), Emission("a", Matched("b"))]
    ensures emittedA == [JoinQueue, SignalTo("b", Offer("offer-a"))]
    ensures emittedB == [JoinQueue, SignalTo("a", Offer("offer-b"))]
  {
    sent := TwoJoinersAreMatched();

    // Each active session handles its `matched`.
    var a := new Session();
    var b := new Session();
    a.StartChat();
    b.StartChat();
    a.HandleMatched("b", true, "offer-a");
    b.HandleMatched("a", true, "offer-b");
    emittedA, emittedB := a.emitted, b.emitted;
  }

  /**
   * A matched pair where "a" disconnects. The partner is told
   * `partner-left`, is re-queued, and is then matched again with the
   * departed "a" within the same call, because the forced call goes on to
   * match its caller. The partner's own `join-queue` that follows is
   * skipped as already paired, and its next offer to "a" is dropped by
   * the relay: "b" stays paired with a peer that is gone.
   */
  method DepartedPeerIsMatchedAgain() returns (waiting: seq<PeerId>, pairs: map<PeerId, PeerId>, sent: seq<Emission>)
    ensures waiting == []
    ensures pairs == map["a" := "b", "b" := "a"]
    ensures sent == [Emission("b", Matched("a")), Emission("a", Matched("b")),
                     Emission("a", SignalFrom("b", Offer("offer-b")))]
                  + [Emission("b", PartnerLeft),
                     Emission("a", Matched("b")), Emission("b", Matched("a"))]
  {
    var io := new Io(map["a" := true, "b" := true]);
    var matchmaker := new Matchmaker();
    var server := new SocketServer(io, matchmaker);
    server.OnConnection("a");
    server.OnConnection("b");
    server.OnJoinQueue("a");
    EmptyQueueQueuesCaller(MatchState([], map[], []), "a", io.registry, false);
    server.OnJoinQueue("b");
    SecondJoinerIsMatched(io.registry, []);
    // "b" answers its `matched` with an offer, which the relay delivers.
    server.OnSignal("b", "a", Offer("offer-b"));
    ghost var delivered := io.sent;
    assert delivered == [Emission("b", Matched("a")), Emission("a", Matched("b")),
                         Emission("a", SignalFrom("b", Offer("offer-b")))];

    // The transport drops "a" from its table, then the server sees `disconnect`.
    io.registry := map["b" := true];
    server.OnDisconnect("a");
    DepartedCallerIsMatchedAgain(io.registry, delivered);

    // "b" handles `partner-left` (and so joins again), then answers `matched` with an offer.
    ghost var rematched := io.sent;
    assert rematched == delivered + [Emission("b", PartnerLeft), Emission("a", Matched("b")), Emission("b", Matched("a"))];
    server.OnJoinQueue("b");
    PairedJoinIsSkipped(MatchState([], map["a" := "b", "b" := "a"], rematched), "b", io.registry);
    assert io.sent == rematched;
    server.OnSignal("b", "a", Offer("offer-b2"));
    assert io.sent == rematched;
    waiting, pairs, sent := matchmaker.waitingUsers, matchmaker.activePairs, io.sent;
  }

  /**
   * The session of "b" through the run above: matched with "a", told
   * `partner-left` while active (so it joins again), then matched with
   * "a" once more. It ends connected to "a" and has offered to it twice.
   */
  method PartnerSessionFollowsStaleMatch() returns (status: Status, partner: Option<PeerId>, emitted: seq<ClientEmit>)
    ensures status == Connected && partner == Some("a")
    ensures emitted == [JoinQueue, SignalTo("a", Offer("offer-b")), JoinQueue, SignalTo("a", Offer("offer-b2"))]
  {
    var b := new Session();
    b.StartChat();
    b.HandleMatched("a", true, "offer-b");
    b.HandlePartnerLeft();
    b.HandleMatched("a", true, "offer-b2");
    status, partner, emitted := b.status, b.partnerId, b.emitted;
  }
}
