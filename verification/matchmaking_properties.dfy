/**
 * What one `handleMatchmaking` call guarantees, stated on the functional
 * model `Handle` that `Matchmaker.HandleMatchmaking` is proved to follow.
 */
module MatchmakingProperties {
  import opened Protocol
  import opened Matchmaking

  /** The emissions a call added to the log. */
  function NewEmissions(before: MatchState, after: MatchState): (e: seq<Emission>)
    requires |before.sent| <= |after.sent|
  {
    after.sent[|before.sent|..]
  }

  /**
   * The retry over stale heads, in closed form: the partner is the first
   * entry of the queue whose socket is found and connected; every entry
   * before it is discarded, every entry after it stays in order; the pair
   * is inserted in both directions and each side is sent `matched` with
   * the other's id. With no connected entry the caller ends up alone in
   * the queue and nothing else changes.
   */
  lemma {:induction false} MatchTakesFirstConnected(s: MatchState, caller: PeerId, registry: map<PeerId, bool>)
    ensures var q, k := s.waiting, FirstConnected(s.waiting, registry);
      var r := Match(s, caller, registry);
      if k < |q| then
        r == MatchState(
          q[k + 1..],
          s.pairs[caller := q[k]][q[k] := caller],
          s.sent + [Emission(caller, Matched(q[k])), Emission(q[k], Matched(caller))])
      else
        r == MatchState([caller], s.pairs, s.sent)
    decreases |s.waiting|
  {
    var q := s.waiting;
    if q != [] && !IsConnected(registry, q[0]) {
      var s' := s.(waiting := q[1..]);
      MatchTakesFirstConnected(s', caller, registry);
      var k' := FirstConnected(q[1..], registry);
      assert FirstConnected(q, registry) == k' + 1;
      if k' < |q[1..]| {
        assert q[1..][k' + 1..] == q[k' + 2..];
        assert q[1..][k'] == q[k' + 1];
      }
    }
  }

  /**
   * FIFO choice for a caller that is not paired (any `force`): the
   * caller is filtered out first, then matched with the first connected
   * waiter, or queued alone when there is none.
   */
  lemma HandleUnpairedCaller(s: MatchState, caller: PeerId, registry: map<PeerId, bool>, force: bool)
    requires caller !in s.pairs
    ensures var q := Without(s.waiting, caller);
      var k := FirstConnected(q, registry);
      var r := Handle(s, caller, registry, force);
      if k < |q| then
        q[k] != caller
        && r == MatchState(
          q[k + 1..],
          s.pairs[caller := q[k]][q[k] := caller],
          s.sent + [Emission(caller, Matched(q[k])), Emission(q[k], Matched(caller))])
      else
        r == MatchState([caller], s.pairs, s.sent)
  {
    MatchTakesFirstConnected(Prepared(s, caller, registry, force), caller, registry);
  }

  /**
   * Index in the original queue of the first entry that is not the
   * caller and whose socket is found and connected, or |q|.
   */
  function FirstConnectedOther(q: seq<PeerId>, c: PeerId, registry: map<PeerId, bool>): (j: nat)
    ensures j <= |q|
    ensures j < |q| ==> q[j] != c && IsConnected(registry, q[j])
    ensures forall i :: 0 <= i < j ==> q[i] == c || !IsConnected(registry, q[i])
    decreases |q|
  {
    if q == [] then 0
    else if q[0] != c && IsConnected(registry, q[0]) then 0
    else 1 + FirstConnectedOther(q[1..], c, registry)
  }

  /**
   * Searching the filtered queue finds the same entry as searching the
   * original queue while skipping the caller, and what follows it in the
   * filtered queue is the filtered rest of the original queue.
   */
  lemma {:induction false} FilteredSearchAgrees(q: seq<PeerId>, c: PeerId, registry: map<PeerId, bool>)
    ensures SearchesAgree(q, c, registry)
    decreases |q|
  {
    if q != [] {
      var x, t := q[0], q[1..];
      assert q == [x] + t;
      WithoutCons(x, t, c);
      if x != c && IsConnected(registry, x) {
        assert Without(q, c)[1..] == Without(t, c);
      } else {
        FilteredSearchAgrees(t, c, registry);
        if x == c {
          SkippedCaller(t, c, registry);
        } else {
          SkippedHead(x, t, c, registry);
        }
      }
    }
  }

  /** The search pattern that `FilteredSearchAgrees` states for one queue. */
  predicate SearchesAgree(q: seq<PeerId>, c: PeerId, registry: map<PeerId, bool>)
  {
    var w, k, j := Without(q, c), FirstConnected(Without(q, c), registry), FirstConnectedOther(q, c, registry);
    && (k < |w| <==> j < |q|)
    && (j < |q| ==> w[k] == q[j] && w[k + 1..] == Without(q[j + 1..], c))
  }

  /**
   * One step of the search: a head that is not the caller but is not
   * connected is passed over by both searches, which then continue on
   * the tail.
   */
  lemma SkippedHead(x: PeerId, t: seq<PeerId>, c: PeerId, registry: map<PeerId, bool>)
    requires x != c && !IsConnected(registry, x)
    requires SearchesAgree(t, c, registry)
    ensures SearchesAgree([x] + t, c, registry)
  {
    var q := [x] + t;
    var w, w' := Without(q, c), Without(t, c);
    var j' := FirstConnectedOther(t, c, registry);
    var k' := FirstConnected(w', registry);
    assert w == [x] + w' by {
      WithoutCons(x, t, c);
    }
    StaleHeadShifts(x, t, w', c, registry);
    var k, j := FirstConnected(w, registry), FirstConnectedOther(q, c, registry);
    assert k == 1 + k' && j == 1 + j';
    assert k < |w| <==> j < |q|;
    if j < |q| {
      ConsIndex(x, t, j');
      ConsIndex(x, w', k');
      assert w[k] == q[j];
      assert w[k + 1..] == Without(q[j + 1..], c);
    }
  }

  /** Both searches step over a stale head that is not the caller. */
  lemma StaleHeadShifts(x: PeerId, t: seq<PeerId>, w: seq<PeerId>, c: PeerId, registry: map<PeerId, bool>)
    requires x != c && !IsConnected(registry, x)
    ensures FirstConnected([x] + w, registry) == 1 + FirstConnected(w, registry)
    ensures FirstConnectedOther([x] + t, c, registry) == 1 + FirstConnectedOther(t, c, registry)
  {
    assert ([x] + w)[1..] == w;
    assert ([x] + t)[1..] == t;
  }

  /**
   * One step of the search: a head that is the caller is dropped by the
   * filter and skipped by the other search, which continues on the tail.
   */
  lemma SkippedCaller(t: seq<PeerId>, c: PeerId, registry: map<PeerId, bool>)
    requires SearchesAgree(t, c, registry)
    ensures SearchesAgree([c] + t, c, registry)
  {
    var q := [c] + t;
    WithoutCons(c, t, c);
    var j' := FirstConnectedOther(t, c, registry);
    assert q[1..] == t;
    assert FirstConnectedOther(q, c, registry) == 1 + j';
    assert Without(q, c) == Without(t, c);
    if j' < |t| {
      ConsIndex(c, t, j');
    }
  }

  lemma ConsIndex(x: PeerId, t: seq<PeerId>, i: nat)
    requires i < |t|
    ensures ([x] + t)[1 + i] == t[i] && ([x] + t)[1 + i + 1..] == t[i + 1..]
  {
  }

  /** Filtering a queue with a given head. */
  lemma WithoutCons(x: PeerId, t: seq<PeerId>, c: PeerId)
    ensures Without([x] + t, c) == (if x == c then [] else [x]) + Without(t, c)
  {
    WithoutConcat([x], t, c);
    WithoutAppend([], x, c);
  }

  /**
   * FIFO with respect to the queue as it was before the call: an unpaired
   * caller is matched with the earliest connected waiter other than
   * itself; the entries before it are discarded and the entries after it
   * keep their order (without the caller). With no such waiter the caller
   * is queued alone.
   */
  lemma HandleIsFifo(s: MatchState, caller: PeerId, registry: map<PeerId, bool>, force: bool)
    requires caller !in s.pairs
    ensures var q, j := s.waiting, FirstConnectedOther(s.waiting, caller, registry);
      var r := Handle(s, caller, registry, force);
      if j < |q| then
        r == MatchState(
          Without(q[j + 1..], caller),
          s.pairs[caller := q[j]][q[j] := caller],
          s.sent + [Emission(caller, Matched(q[j])), Emission(q[j], Matched(caller))])
      else
        r == MatchState([caller], s.pairs, s.sent)
  {
    var q := s.waiting;
    var w, k, j := Without(q, caller), FirstConnected(Without(q, caller), registry), FirstConnectedOther(q, caller, registry);
    HandleUnpairedCaller(s, caller, registry, force);
    FilteredSearchAgrees(q, caller, registry);
    assert k < |w| <==> j < |q|;
    if j < |q| {
      assert w[k] == q[j] && w[k + 1..] == Without(q[j + 1..], caller);
    }
  }

  /** With nobody else waiting, an unpaired caller is queued and the pair table is untouched. */
  lemma EmptyQueueQueuesCaller(s: MatchState, caller: PeerId, registry: map<PeerId, bool>, force: bool)
    requires caller !in s.pairs
    requires s.waiting == [] || s.waiting == [caller]
    ensures Handle(s, caller, registry, force) == MatchState([caller], s.pairs, s.sent)
  {
    WithoutAppend([], caller, caller);
    HandleUnpairedCaller(s, caller, registry, force);
  }

  /** A `join-queue` from a caller that is already paired only filters the queue. */
  lemma PairedJoinIsSkipped(s: MatchState, caller: PeerId, registry: map<PeerId, bool>)
    requires caller in s.pairs
    ensures var r := Handle(s, caller, registry, false);
      r.pairs == s.pairs && r.sent == s.sent && r.waiting == Without(s.waiting, caller)
  {
  }

  /** The forced branch in closed form. */
  lemma TeardownFacts(s: MatchState, caller: PeerId, registry: map<PeerId, bool>)
    requires caller in s.pairs
    ensures var p, t := s.pairs[caller], Teardown(s, caller, registry);
      && t.pairs == (if p in registry then s.pairs - {caller} - {p} else s.pairs - {caller})
      && t.sent == s.sent + (if p in registry then [Emission(p, PartnerLeft)] else [])
      && t.waiting == Without(s.waiting, caller)
                      + (if IsConnected(registry, p) && p !in s.waiting && p != caller then [p] else [])
  {
    WithoutAppend(s.waiting, s.pairs[caller], caller);
  }

  /** Facts about the state after the forced branch and the filter. */
  lemma PreparedFacts(s: MatchState, caller: PeerId, registry: map<PeerId, bool>, force: bool)
    ensures var f := Prepared(s, caller, registry, force);
      && caller !in f.waiting
      && (force || caller !in s.pairs ==> caller !in f.pairs)
      && |f.waiting| <= |s.waiting| + 1
      && f.pairs.Keys <= s.pairs.Keys
      && (forall a :: a in f.pairs ==> f.pairs[a] == s.pairs[a])
      && |s.sent| <= |f.sent|
      && (Distinct(s.waiting) ==> Distinct(f.waiting))
  {
    var f := Prepared(s, caller, registry, force);
    if force && caller in s.pairs {
      var p := s.pairs[caller];
      var t := Teardown(s, caller, registry);
      TeardownFacts(s, caller, registry);
      var w := Without(s.waiting, caller);
      assert f.waiting == t.waiting;
      if Distinct(s.waiting) {
        WithoutKeepsDistinct(s.waiting, caller);
        if IsConnected(registry, p) && p !in s.waiting && p != caller {
          DistinctAppend(w, p);
        }
      }
    } else {
      if Distinct(s.waiting) {
        WithoutKeepsDistinct(s.waiting, caller);
      }
    }
  }

  lemma DistinctAppend(q: seq<PeerId>, x: PeerId)
    requires Distinct(q) && x !in q
    ensures Distinct(q + [x])
  {
  }

  /** Whatever the call, the caller occurs at most once in the queue: either not at all, or as its only entry. */
  lemma CallerWaitsAtMostOnce(s: MatchState, caller: PeerId, registry: map<PeerId, bool>, force: bool)
    ensures var r := Handle(s, caller, registry, force);
      caller !in r.waiting || r.waiting == [caller]
  {
    var f := Prepared(s, caller, registry, force);
    PreparedFacts(s, caller, registry, force);
    MatchTakesFirstConnected(f, caller, registry);
    var k := FirstConnected(f.waiting, registry);
    if k < |f.waiting| {
      assert forall x :: x in f.waiting[k + 1..] ==> x in f.waiting;
    }
  }

  /** A duplicate-free queue stays duplicate-free. */
  lemma HandleKeepsQueueDistinct(s: MatchState, caller: PeerId, registry: map<PeerId, bool>, force: bool)
    requires Distinct(s.waiting)
    ensures Distinct(Handle(s, caller, registry, force).waiting)
  {
    var f := Prepared(s, caller, registry, force);
    PreparedFacts(s, caller, registry, force);
    MatchTakesFirstConnected(f, caller, registry);
  }

  /**
   * The queue never grows past one entry beyond what it was: a call
   * leaves it at most as long as before, or holding a single id. From an
   * empty start the queue therefore never holds more than one user.
   */
  lemma QueueShrinksOrHoldsOne(s: MatchState, caller: PeerId, registry: map<PeerId, bool>, force: bool)
    ensures var r := Handle(s, caller, registry, force);
      |r.waiting| <= 1 || |r.waiting| <= |s.waiting|
  {
    var f := Prepared(s, caller, registry, force);
    PreparedFacts(s, caller, registry, force);
    MatchTakesFirstConnected(f, caller, registry);
    if !force && caller in s.pairs {
      assert Handle(s, caller, registry, force) == f;
      assert f.waiting == Without(s.waiting, caller);
    }
  }

  /** Starting from a queue of at most one id, every call leaves at most one id waiting. */
  lemma AtMostOneWaits(s: MatchState, caller: PeerId, registry: map<PeerId, bool>, force: bool)
    requires |s.waiting| <= 1
    ensures |Handle(s, caller, registry, force).waiting| <= 1
  {
    QueueShrinksOrHoldsOne(s, caller, registry, force);
  }

  /** The forced branch and the filter emit nothing but `partner-left`. */
  lemma PreparedEmitsOnlyRelease(s: MatchState, caller: PeerId, registry: map<PeerId, bool>, force: bool)
    ensures var f := Prepared(s, caller, registry, force);
      forall e :: e in f.sent[|s.sent|..] ==> e.event.PartnerLeft?
  {
    var f := Prepared(s, caller, registry, force);
    if force && caller in s.pairs {
      TeardownFacts(s, caller, registry);
      var p := s.pairs[caller];
      if p in registry {
        assert f.sent[|s.sent|..] == [Emission(p, PartnerLeft)];
      }
    }
  }

  /** The matching step emits nothing but `matched`. */
  lemma {:induction false} MatchEmitsOnlyMatched(s: MatchState, caller: PeerId, registry: map<PeerId, bool>)
    ensures var r := Match(s, caller, registry);
      forall e :: e in r.sent[|s.sent|..] ==> e.event.Matched?
    decreases |s.waiting|
  {
    if s.waiting != [] && !IsConnected(registry, s.waiting[0]) {
      MatchEmitsOnlyMatched(s.(waiting := s.waiting[1..]), caller, registry);
    }
  }

  /** A call emits nothing but `partner-left` and `matched`. */
  lemma HandleEmitsOnlyReleaseAndMatch(s: MatchState, caller: PeerId, registry: map<PeerId, bool>, force: bool)
    ensures var r := Handle(s, caller, registry, force);
      forall e :: e in r.sent[|s.sent|..] ==> e.event.PartnerLeft? || e.event.Matched?
  {
    var f := Prepared(s, caller, registry, force);
    var r := Handle(s, caller, registry, force);
    PreparedEmitsOnlyRelease(s, caller, registry, force);
    if !(!force && caller in f.pairs) {
      MatchEmitsOnlyMatched(f, caller, registry);
      SplitSuffix(s.sent, f.sent, r.sent);
    }
  }

  lemma SplitSuffix(a: seq<Emission>, b: seq<Emission>, c: seq<Emission>)
    requires a <= b <= c
    ensures c[|a|..] == b[|a|..] + c[|b|..]
  {
  }

  /** Nobody is ever paired with itself: the caller is filtered out of the queue before the head is taken. */
  lemma HandleNeverPairsSelf(s: MatchState, caller: PeerId, registry: map<PeerId, bool>, force: bool)
    requires Irreflexive(s.pairs)
    ensures Irreflexive(Handle(s, caller, registry, force).pairs)
  {
    var f := Prepared(s, caller, registry, force);
    PreparedFacts(s, caller, registry, force);
    MatchTakesFirstConnected(f, caller, registry);
    var k := FirstConnected(f.waiting, registry);
    if k < |f.waiting| {
      assert f.waiting[k] in f.waiting;
    }
  }

  /** What the invariants say about a paired id and its partner. */
  lemma PartnerFacts(s: MatchState, a: PeerId)
    requires Consistent(s) && a in s.pairs
    ensures var b := s.pairs[a];
      b != a && b in s.pairs && s.pairs[b] == a && a !in s.waiting && b !in s.waiting
  {
  }

  /** The forced branch for a paired caller, in closed form under the invariants. */
  lemma ForcedPrepared(s: MatchState, caller: PeerId, registry: map<PeerId, bool>)
    requires Consistent(s) && caller in s.pairs
    ensures var p, f := s.pairs[caller], Prepared(s, caller, registry, true);
      && f.pairs == (if p in registry then s.pairs - {caller} - {p} else s.pairs - {caller})
      && f.sent == s.sent + (if p in registry then [Emission(p, PartnerLeft)] else [])
      && f.waiting == Without(s.waiting, caller) + (if IsConnected(registry, p) then [p] else [])
  {
    var p := s.pairs[caller];
    PartnerFacts(s, caller);
    TeardownFacts(s, caller, registry);
    var t := Teardown(s, caller, registry);
    assert caller !in t.waiting;
  }

  /** Deleting a pair in both directions and re-queuing one side keeps the invariants. */
  lemma UnpairKeepsConsistent(s: MatchState, f: MatchState, caller: PeerId, requeue: bool)
    requires Consistent(s) && caller in s.pairs
    requires var p := s.pairs[caller];
      && f.pairs == s.pairs - {caller} - {p}
      && f.waiting == Without(s.waiting, caller) + (if requeue then [p] else [])
    ensures Consistent(f)
  {
    var p := s.pairs[caller];
    var w := Without(s.waiting, caller);
    PartnerFacts(s, caller);
    WithoutKeepsDistinct(s.waiting, caller);
    if requeue {
      DistinctAppend(w, p);
    }
    forall a | a in f.pairs
      ensures f.pairs[a] in f.pairs && f.pairs[f.pairs[a]] == a
    {
      PartnerFacts(s, a);
    }
  }

  /**
   * The forced branch keeps the invariants when the partner's socket is
   * found (whether or not it is still connected).
   */
  lemma PreparedKeepsConsistent(s: MatchState, caller: PeerId, registry: map<PeerId, bool>, force: bool)
    requires Consistent(s)
    requires force && caller in s.pairs ==> s.pairs[caller] in registry
    ensures Consistent(Prepared(s, caller, registry, force))
  {
    if force && caller in s.pairs {
      var p := s.pairs[caller];
      ForcedPrepared(s, caller, registry);
      UnpairKeepsConsistent(s, Prepared(s, caller, registry, force), caller, IsConnected(registry, p));
    } else {
      PreparedFacts(s, caller, registry, force);
    }
  }

  /** Matching keeps the invariants for a caller that is neither waiting nor paired. */
  lemma MatchKeepsConsistent(f: MatchState, caller: PeerId, registry: map<PeerId, bool>)
    requires Consistent(f) && caller !in f.waiting && caller !in f.pairs
    ensures Consistent(Match(f, caller, registry))
  {
    MatchTakesFirstConnected(f, caller, registry);
    var q, k := f.waiting, FirstConnected(f.waiting, registry);
    if k < |q| {
      var p := q[k];
      var r := Match(f, caller, registry);
      assert p in q && p != caller && p !in f.pairs;
      forall a | a in f.pairs
        ensures f.pairs[a] != caller && f.pairs[a] != p
      {
        PartnerFacts(f, a);
      }
      forall x | x in r.waiting
        ensures x !in r.pairs
      {
        assert x in q;
      }
      assert Distinct(r.waiting);
      assert Irreflexive(r.pairs);
      assert Symmetric(r.pairs);
      assert QueueUnpaired(r);
    }
  }

  /**
   * The queue stays duplicate-free and unpaired, and the pair table
   * symmetric and irreflexive, as long as a forced caller's partner
   * socket is found.
   */
  lemma HandleKeepsConsistent(s: MatchState, caller: PeerId, registry: map<PeerId, bool>, force: bool)
    requires Consistent(s)
    requires force && caller in s.pairs ==> s.pairs[caller] in registry
    ensures Consistent(Handle(s, caller, registry, force))
  {
    var f := Prepared(s, caller, registry, force);
    PreparedKeepsConsistent(s, caller, registry, force);
    PreparedFacts(s, caller, registry, force);
    if !(!force && caller in f.pairs) {
      MatchKeepsConsistent(f, caller, registry);
    }
  }

  /** Matching a caller leaves an entry that points at the caller in place, and breaks symmetry. */
  lemma MatchKeepsDanglingEntry(f: MatchState, caller: PeerId, registry: map<PeerId, bool>, p: PeerId)
    requires caller !in f.pairs && caller !in f.waiting
    requires p in f.pairs && f.pairs[p] == caller && p !in f.waiting
    ensures var r := Match(f, caller, registry);
      && p in r.pairs && r.pairs[p] == caller
      && !Symmetric(r.pairs)
      && |f.sent| <= |r.sent|
      && (forall e :: e in r.sent[|f.sent|..] ==> e.event.Matched?)
  {
    MatchTakesFirstConnected(f, caller, registry);
    var k := FirstConnected(f.waiting, registry);
    var r := Match(f, caller, registry);
    if k < |f.waiting| {
      var q := f.waiting[k];
      assert q in f.waiting;
      assert r.pairs[p] == caller && r.pairs[caller] == q && q != p;
      assert r.sent[|f.sent|..] == [Emission(caller, Matched(q)), Emission(q, Matched(caller))];
    } else {
      assert caller !in r.pairs;
      assert r.sent[|f.sent|..] == [];
    }
  }

  /**
   * When the partner's socket is no longer found, only the caller's entry
   * is deleted: the partner keeps pointing at the caller, no
   * `partner-left` is sent, and the table is no longer symmetric.
   */
  lemma MissingPartnerLeavesOneSidedEntry(s: MatchState, caller: PeerId, registry: map<PeerId, bool>)
    requires Consistent(s) && caller in s.pairs && s.pairs[caller] !in registry
    ensures var p, r := s.pairs[caller], Handle(s, caller, registry, true);
      && p in r.pairs && r.pairs[p] == caller
      && !Symmetric(r.pairs)
      && |s.sent| <= |r.sent|
      && (forall e :: e in NewEmissions(s, r) ==> e.event.Matched?)
  {
    var p := s.pairs[caller];
    PartnerFacts(s, caller);
    ForcedPrepared(s, caller, registry);
    var f := Prepared(s, caller, registry, true);
    assert p !in f.waiting;
    MatchKeepsDanglingEntry(f, caller, registry, p);
  }

  /** Matching after a release: the partner-left stays first and the partner ends up waiting or re-paired only if connected. */
  lemma MatchAfterRelease(f: MatchState, caller: PeerId, registry: map<PeerId, bool>, p: PeerId, w: seq<PeerId>, base: seq<Emission>)
    requires caller !in f.pairs && caller !in f.waiting && p != caller && p !in f.pairs && p !in w
    requires f.sent == base + [Emission(p, PartnerLeft)]
    requires f.waiting == w + (if IsConnected(registry, p) then [p] else [])
    ensures var r := Match(f, caller, registry);
      && |base| < |r.sent|
      && r.sent[|base|] == Emission(p, PartnerLeft)
      && (forall e :: e in r.sent[|base| + 1..] ==> e.event.Matched?)
      && (p in r.pairs ==> caller in r.pairs && r.pairs[p] == caller && r.pairs[caller] == p)
      && (IsConnected(registry, p) <==> p in r.waiting || p in r.pairs)
  {
    MatchTakesFirstConnected(f, caller, registry);
    var k := FirstConnected(f.waiting, registry);
    var r := Match(f, caller, registry);
    if k < |f.waiting| {
      var q := f.waiting[k];
      assert r.sent[|base| + 1..] == [Emission(caller, Matched(q)), Emission(q, Matched(caller))];
      if q != p {
        assert p !in r.pairs;
        if IsConnected(registry, p) {
          assert k < |w|;
          assert r.waiting[|r.waiting| - 1] == p;
        } else {
          assert p !in f.waiting;
        }
      }
    } else {
      assert r.sent == f.sent;
      assert p !in f.waiting;
    }
  }

  /**
   * A forced call by a paired caller whose partner socket is found sends
   * `partner-left` to that partner exactly once, as its first emission,
   * and any further emissions are `matched`. The partner is then waiting
   * or re-paired exactly when its socket is connected, and it is never left
   * paired with anyone but the caller.
   */
  lemma ForcedCallReleasesPartner(s: MatchState, caller: PeerId, registry: map<PeerId, bool>)
    requires Consistent(s) && caller in s.pairs && s.pairs[caller] in registry
    ensures var p, r := s.pairs[caller], Handle(s, caller, registry, true);
      && |s.sent| < |r.sent|
      && r.sent[|s.sent|] == Emission(p, PartnerLeft)
      && (forall e :: e in r.sent[|s.sent| + 1..] ==> e.event.Matched?)
      && (p in r.pairs ==> caller in r.pairs && r.pairs[p] == caller && r.pairs[caller] == p)
      && (IsConnected(registry, p) <==> p in r.waiting || p in r.pairs)
  {
    var p := s.pairs[caller];
    PartnerFacts(s, caller);
    ForcedPrepared(s, caller, registry);
    PreparedFacts(s, caller, registry, true);
    var f := Prepared(s, caller, registry, true);
    MatchAfterRelease(f, caller, registry, p, Without(s.waiting, caller), s.sent);
  }

  /**
   * A forced call (`next`, `leave`, `disconnect`) or a join by an unpaired
   * caller always ends with the caller paired or queued: the forced branch
   * falls through to matching, so leaving re-queues or re-matches the
   * caller.
   */
  lemma CallerEndsPairedOrQueued(s: MatchState, caller: PeerId, registry: map<PeerId, bool>, force: bool)
    requires force || caller !in s.pairs
    ensures var r := Handle(s, caller, registry, force);
      (caller in r.pairs && caller !in r.waiting) || (caller !in r.pairs && r.waiting == [caller])
  {
    var f := Prepared(s, caller, registry, force);
    PreparedFacts(s, caller, registry, force);
    MatchTakesFirstConnected(f, caller, registry);
    var k := FirstConnected(f.waiting, registry);
    if k < |f.waiting| {
      assert forall x :: x in f.waiting[k + 1..] ==> x in f.waiting;
    }
  }

  /** Matching when the only connected waiter is the last one. */
  lemma MatchTakesLast(f: MatchState, caller: PeerId, registry: map<PeerId, bool>, w: seq<PeerId>, p: PeerId)
    requires f.waiting == w + [p] && IsConnected(registry, p)
    requires forall x :: x in w ==> !IsConnected(registry, x)
    ensures Match(f, caller, registry) == MatchState(
      [], f.pairs[caller := p][p := caller],
      f.sent + [Emission(caller, Matched(p)), Emission(p, Matched(caller))])
  {
    MatchTakesFirstConnected(f, caller, registry);
    var k := FirstConnected(f.waiting, registry);
    assert f.waiting[|w|] == p;
    assert forall i :: 0 <= i < |w| ==> f.waiting[i] == w[i] && w[i] in w;
  }

  /** Deleting both directions of a pair and inserting them again gives back the table. */
  lemma ReinsertPair(pairs: map<PeerId, PeerId>, a: PeerId, b: PeerId)
    requires a in pairs && b in pairs && pairs[a] == b && pairs[b] == a
    ensures (pairs - {a} - {b})[a := b][b := a] == pairs
  {
  }

  /**
   * `next` when no other connected user is waiting re-pairs the caller
   * with the partner it just left: that partner is told `partner-left`,
   * re-queued, and immediately taken again from the queue.
   */
  lemma NextRepairsWithSamePartner(s: MatchState, caller: PeerId, registry: map<PeerId, bool>)
    requires Consistent(s) && caller in s.pairs && IsConnected(registry, s.pairs[caller])
    requires forall x :: x in s.waiting ==> !IsConnected(registry, x)
    ensures var p, r := s.pairs[caller], Handle(s, caller, registry, true);
      r == MatchState(
        [],
        s.pairs,
        s.sent + [Emission(p, PartnerLeft), Emission(caller, Matched(p)), Emission(p, Matched(caller))])
  {
    PartnerFacts(s, caller);
    RepairWithReleasedPartner(s, caller, registry);
  }

  /**
   * The core of `NextRepairsWithSamePartner`, from the facts about the
   * partner that the invariants give.
   */
  lemma RepairWithReleasedPartner(s: MatchState, caller: PeerId, registry: map<PeerId, bool>)
    requires caller in s.pairs
    requires var p := s.pairs[caller];
      p != caller && p in s.pairs && s.pairs[p] == caller && p !in s.waiting && IsConnected(registry, p)
    requires forall x :: x in s.waiting ==> !IsConnected(registry, x)
    ensures var p, r := s.pairs[caller], Handle(s, caller, registry, true);
      r == MatchState(
        [],
        s.pairs,
        s.sent + [Emission(p, PartnerLeft), Emission(caller, Matched(p)), Emission(p, Matched(caller))])
  {
    var p := s.pairs[caller];
    var w := Without(s.waiting, caller);
    TeardownFacts(s, caller, registry);
    var f := MatchState(w + [p], s.pairs - {caller} - {p}, s.sent + [Emission(p, PartnerLeft)]);
    assert Prepared(s, caller, registry, true) == f;
    assert Handle(s, caller, registry, true) == Match(f, caller, registry);
    assert forall x :: x in w ==> x in s.waiting;
    MatchTakesLast(f, caller, registry, w, p);
    var matched := [Emission(caller, Matched(p)), Emission(p, Matched(caller))];
    var r := Match(f, caller, registry);
    assert r == MatchState([], f.pairs[caller := p][p := caller], f.sent + matched);
    assert r.pairs == s.pairs by {
      ReinsertPair(s.pairs, caller, p);
    }
    ThreeEmissions(s.sent, Emission(p, PartnerLeft), Emission(caller, Matched(p)), Emission(p, Matched(caller)));
  }

  lemma ThreeEmissions(a: seq<Emission>, x: Emission, y: Emission, z: Emission)
    ensures (a + [x]) + [y, z] == a + [x, y, z]
  {
  }
}
