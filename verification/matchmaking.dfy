/**
 * The server-side matchmaker: a FIFO waiting queue and a pair table,
 * both held in module-level state and mutated in place by
 * `handleMatchmaking`, plus the read-only statistics.
 *
 * The class `Matchmaker` mirrors the code step by step (including the
 * recursive retry on a stale queue head); the functions `Teardown`,
 * `Match` and `Handle` give the same behaviour as a function of the old
 * state, and the lemmas below state what that behaviour guarantees.
 */
module Matchmaking {
  import opened Protocol

  /** `q.filter(id => id !== c)`: every entry except `c`, in order. */
  function Without(q: seq<PeerId>, c: PeerId): (r: seq<PeerId>)
    ensures |r| <= |q|
    ensures forall x :: x in r <==> x in q && x != c
    ensures c !in q ==> r == q
    decreases |q|
  {
    if q == [] then []
    else
      var init, last := q[..|q| - 1], q[|q| - 1];
      assert q == init + [last];
      Without(init, c) + (if last == c then [] else [last])
  }

  /** The filter removes every occurrence of `c` and keeps every other entry as often as it occurs. */
  lemma {:induction false} WithoutCounts(q: seq<PeerId>, c: PeerId)
    ensures multiset(Without(q, c)) == multiset(q)[c := 0]
    decreases |q|
  {
    if q != [] {
      var init, last := q[..|q| - 1], q[|q| - 1];
      assert q == init + [last];
      WithoutCounts(init, c);
    }
  }

  /** The filter works entry by entry: it distributes over concatenation, so the kept entries keep their order. */
  lemma {:induction false} WithoutConcat(q1: seq<PeerId>, q2: seq<PeerId>, c: PeerId)
    ensures Without(q1 + q2, c) == Without(q1, c) + Without(q2, c)
    decreases |q2|
  {
    if q2 == [] {
      assert q1 + q2 == q1;
    } else {
      var init, last := q2[..|q2| - 1], q2[|q2| - 1];
      assert q2 == init + [last];
      assert q1 + q2 == (q1 + init) + [last];
      WithoutAppend(q1 + init, last, c);
      WithoutAppend(init, last, c);
      WithoutConcat(q1, init, c);
    }
  }

  /** No id occurs twice. */
  predicate Distinct(q: seq<PeerId>)
  {
    forall i, j :: 0 <= i < j < |q| ==> q[i] != q[j]
  }

  lemma {:induction false} WithoutKeepsDistinct(q: seq<PeerId>, c: PeerId)
    requires Distinct(q)
    ensures Distinct(Without(q, c))
    decreases |q|
  {
    if q != [] {
      var init, last := q[..|q| - 1], q[|q| - 1];
      assert q == init + [last];
      WithoutKeepsDistinct(init, c);
      assert last !in init;
    }
  }

  /** The teardown removes the caller everywhere and adds at most the partner to the queue. */
  lemma TeardownBound(s: MatchState, caller: PeerId, registry: map<PeerId, bool>)
    requires caller in s.pairs
    ensures var t := Teardown(s, caller, registry);
      caller !in t.pairs && caller !in t.waiting && |t.waiting| <= |Without(s.waiting, caller)| + 1
  {
    WithoutAppend(s.waiting, s.pairs[caller], caller);
  }

  lemma WithoutAppend(q: seq<PeerId>, x: PeerId, c: PeerId)
    ensures Without(q + [x], c) == Without(q, c) + (if x == c then [] else [x])
  {
    assert (q + [x])[..|q|] == q;
  }

  /** Nobody is paired with itself. */
  predicate Irreflexive(pairs: map<PeerId, PeerId>)
  {
    forall a :: a in pairs ==> pairs[a] != a
  }

  /** Every entry has its mirror entry: A -> B implies B -> A. */
  predicate Symmetric(pairs: map<PeerId, PeerId>)
  {
    forall a :: a in pairs ==> pairs[a] in pairs && pairs[pairs[a]] == a
  }

  /**
   * The matchmaker's state as a value: the queue `waitingUsers`, the
   * table `activePairs`, and the log of everything emitted so far.
   */
  datatype MatchState = MatchState(waiting: seq<PeerId>, pairs: map<PeerId, PeerId>, sent: seq<Emission>)

  /** Nobody waiting is also paired. */
  predicate QueueUnpaired(s: MatchState)
  {
    forall x :: x in s.waiting ==> x !in s.pairs
  }

  /**
   * The invariants the queue and the pair table are meant to keep: no
   * duplicates in the queue (the filter before matching), pairs stored
   * from both sides (both inserted, both removed), nobody paired with
   * itself, and nobody both waiting and paired.
   */
  predicate Consistent(s: MatchState)
  {
    Distinct(s.waiting) && Irreflexive(s.pairs) && Symmetric(s.pairs) && QueueUnpaired(s)
  }

  /**
   * The forced teardown of a paired caller: drop the caller's entry; if
   * the partner's socket is found, drop its entry too, tell it
   * `partner-left` and re-queue it when connected and not already
   * waiting; finally drop the caller from the queue.
   */
  function Teardown(s: MatchState, caller: PeerId, registry: map<PeerId, bool>): (r: MatchState)
    requires caller in s.pairs
    ensures caller !in r.pairs && caller !in r.waiting
    ensures s.sent <= r.sent && |r.sent| <= |s.sent| + 1
  {
    var partnerId := s.pairs[caller];
    var pairs := s.pairs - {caller};
    var t :=
      if partnerId in registry then
        MatchState(
          if registry[partnerId] && partnerId !in s.waiting then s.waiting + [partnerId] else s.waiting,
          pairs - {partnerId},
          s.sent + [Emission(partnerId, PartnerLeft)])
      else
        s.(pairs := pairs);
    t.(waiting := Without(t.waiting, caller))
  }

  /**
   * The matching step: shift the queue head; pair with it if its socket
   * is found and connected, otherwise discard it and retry; queue the
   * caller when the queue runs out.
   */
  function Match(s: MatchState, caller: PeerId, registry: map<PeerId, bool>): (r: MatchState)
    ensures s.sent <= r.sent
    ensures || (caller in r.pairs && |r.waiting| < |s.waiting| && |r.sent| == |s.sent| + 2)
            || (r.waiting == [caller] && r.pairs == s.pairs && r.sent == s.sent)
    decreases |s.waiting|
  {
    if s.waiting == [] then
      s.(waiting := [caller])
    else
      var partnerId := s.waiting[0];
      if IsConnected(registry, partnerId) then
        MatchState(
          s.waiting[1..],
          s.pairs[caller := partnerId][partnerId := caller],
          s.sent + [Emission(caller, Matched(partnerId)), Emission(partnerId, Matched(caller))])
      else
        Match(s.(waiting := s.waiting[1..]), caller, registry)
  }

  /**
   * The state once the forced branch (if taken) and the duplicate filter
   * have run, before the already-paired check.
   */
  function Prepared(s: MatchState, caller: PeerId, registry: map<PeerId, bool>, force: bool): (f: MatchState)
    ensures caller !in f.waiting
    ensures s.sent <= f.sent && |f.sent| <= |s.sent| + 1
  {
    var t := if force && caller in s.pairs then Teardown(s, caller, registry) else s;
    t.(waiting := Without(t.waiting, caller))
  }

  /** One call `handleMatchmaking(socket, io, force)` as a function of the old state. */
  function Handle(s: MatchState, caller: PeerId, registry: map<PeerId, bool>, force: bool): (r: MatchState)
    ensures s.sent <= r.sent
    ensures |r.sent| <= |s.sent| + 3
  {
    var f := Prepared(s, caller, registry, force);
    if !force && caller in f.pairs then f else Match(f, caller, registry)
  }

  /** Index of the first entry of `q` whose socket is found and connected, or |q|. */
  function FirstConnected(q: seq<PeerId>, registry: map<PeerId, bool>): (k: nat)
    ensures k <= |q|
    ensures k < |q| ==> IsConnected(registry, q[k])
    ensures forall i :: 0 <= i < k ==> !IsConnected(registry, q[i])
    decreases |q|
  {
    if q == [] then 0
    else if IsConnected(registry, q[0]) then 0
    else 1 + FirstConnected(q[1..], registry)
  }

  /** What `getMatchmakingStats` returns. */
  datatype MatchmakingStats = MatchmakingStats(
    waitingUsers: nat,
    activePairs: real,
    waitingUserIds: seq<PeerId>,
    activePairIds: set<(PeerId, PeerId)>)

  class Matchmaker {
    var waitingUsers: seq<PeerId>
    var activePairs: map<PeerId, PeerId>

    constructor ()
      ensures waitingUsers == [] && activePairs == map[]
    {
      waitingUsers := [];
      activePairs := map[];
    }

    function State(io: Io): (s: MatchState)
      reads this, io
    {
      MatchState(waitingUsers, activePairs, io.sent)
    }

    /**
     * The forced branch of `handleMatchmaking`: tear down the caller's
     * pair, notify and re-queue the partner, drop the caller from the queue.
     */
    method DropPair(socket: PeerId, io: Io)
      requires socket in activePairs
      modifies this, io`sent
      ensures State(io) == Teardown(old(State(io)), socket, io.registry)
    {
      ghost var s0 := State(io);
      var partnerId := activePairs[socket];
      activePairs := activePairs - {socket};
      if partnerId in io.registry {
        activePairs := activePairs - {partnerId};
        io.sent := io.sent + [Emission(partnerId, PartnerLeft)];
        if io.registry[partnerId] {
          if partnerId !in waitingUsers {
            waitingUsers := waitingUsers + [partnerId];
          }
        }
      }
      waitingUsers := Without(waitingUsers, socket);
    }

    /**
     * `handleMatchmaking(socket, io, force)`. The liveness of the caller
     * itself is never consulted. A stale queue head is discarded, the
     * caller pushed and the whole handler re-entered without `force`; each
     * such retry removes one other entry from the queue.
     */
    method HandleMatchmaking(socket: PeerId, io: Io, force: bool)
      modifies this, io`sent
      decreases |Without(waitingUsers, socket)| + (if force then 1 else 0)
      ensures State(io) == Handle(old(State(io)), socket, io.registry, force)
    {
      ghost var s0 := State(io);
      if force && socket in activePairs {
        DropPair(socket, io);
        TeardownBound(s0, socket, io.registry);
      }
      waitingUsers := Without(waitingUsers, socket);
      if !force && socket in activePairs {
        return;
      }
      ghost var f := State(io);
      assert Handle(s0, socket, io.registry, force) == Match(f, socket, io.registry);
      assert socket !in f.pairs && socket !in f.waiting;
      assert |f.waiting| <= |Without(s0.waiting, socket)| + (if force then 1 else 0);
      if |waitingUsers| > 0 {
        var partnerId := waitingUsers[0];
        waitingUsers := waitingUsers[1..];
        if partnerId in io.registry && io.registry[partnerId] {
          activePairs := activePairs[socket := partnerId][partnerId := socket];
          io.sent := io.sent + [Emission(socket, Matched(partnerId)), Emission(partnerId, Matched(socket))];
        } else {
          waitingUsers := waitingUsers + [socket];
          StaleHeadRetry(f, socket, io.registry);
          HandleMatchmaking(socket, io, false);
        }
      } else {
        waitingUsers := waitingUsers + [socket];
      }
    }

    /** `getMatchmakingStats()`: a read of the queue and the pair table. */
    method GetMatchmakingStats() returns (stats: MatchmakingStats)
      ensures stats.waitingUsers == |waitingUsers|
      ensures stats.activePairs == |activePairs| as real / 2.0
      ensures stats.waitingUserIds == waitingUsers
      ensures forall a, b :: (a, b) in stats.activePairIds <==> a in activePairs && activePairs[a] == b
      ensures Symmetric(activePairs) && Irreflexive(activePairs) ==>
                stats.activePairs == (|activePairs| / 2) as real
    {
      stats := MatchmakingStats(
        |waitingUsers|,
        |activePairs| as real / 2.0,
        waitingUsers,
        set a | a in activePairs :: (a, activePairs[a]));
      if Symmetric(activePairs) && Irreflexive(activePairs) {
        PairTableSizeEven(activePairs);
      }
    }
  }

  /**
   * A stale queue head is discarded, the caller is pushed and the call
   * re-entered without force: the re-entry filters the caller out again
   * and continues the matching step on the rest of the queue.
   */
  lemma StaleHeadRetry(f: MatchState, caller: PeerId, registry: map<PeerId, bool>)
    requires f.waiting != [] && !IsConnected(registry, f.waiting[0])
    requires caller !in f.waiting && caller !in f.pairs
    ensures var s := f.(waiting := f.waiting[1..] + [caller]);
      && Without(s.waiting, caller) == f.waiting[1..]
      && Handle(s, caller, registry, false) == Match(f, caller, registry)
  {
    var rest := f.waiting[1..];
    assert caller !in rest;
    WithoutAppend(rest, caller, caller);
  }

  /**
   * A symmetric, irreflexive pair table has an even number of entries,
   * so `activePairs.size / 2` is the whole number of pairs.
   */
  lemma PairTableSizeEven(pairs: map<PeerId, PeerId>)
    requires Symmetric(pairs) && Irreflexive(pairs)
    ensures |pairs| % 2 == 0
  {
    var n := PairCount(pairs);
  }

  /** The number of pairs in a symmetric, irreflexive table, found by removing them one at a time. */
  lemma {:induction false} PairCount(pairs: map<PeerId, PeerId>) returns (n: nat)
    requires Symmetric(pairs) && Irreflexive(pairs)
    ensures |pairs| == 2 * n
    decreases |pairs|
  {
    if pairs == map[] {
      n := 0;
    } else {
      var a :| a in pairs;
      var rest := pairs - {a, pairs[a]};
      RemovePair(pairs, a);
      var m := PairCount(rest);
      n := m + 1;
    }
  }

  /** Removing one pair in both directions removes two entries and keeps the table well formed. */
  lemma RemovePair(pairs: map<PeerId, PeerId>, a: PeerId)
    requires Symmetric(pairs) && Irreflexive(pairs) && a in pairs
    ensures var rest := pairs - {a, pairs[a]};
      |rest| == |pairs| - 2 && Symmetric(rest) && Irreflexive(rest)
  {
    var b := pairs[a];
    var rest := pairs - {a, b};
    assert |rest.Keys| == |pairs.Keys| - 2 by {
      assert rest.Keys == pairs.Keys - {a, b};
      assert {a, b} <= pairs.Keys;
      assert |{a, b}| == 2;
    }
    assert |rest| == |rest.Keys|;
    assert Symmetric(rest) by {
      forall x | x in rest
        ensures rest[x] in rest && rest[rest[x]] == x
      {
        assert pairs[pairs[x]] == x;
      }
    }
  }
}
