/**
When the nonces of a transaction pool have no gap, after a promotion and after a reset. Taking
transactions back in a reset can leave one, so the condition on the pool that holds them is exact.
*/
module PoolGaps {
  import opened TxSpec
  import opened TxSortedMap
  import opened TxList
  import opened PoolState
  import opened PoolSteps

  /** A promotion will leave no gap: the pending run is in order, or what starts one is there. */
  ghost predicate Startable(p: Pool, a: Address) {
    var nonce, next := p.chain.Nonce(a), p.NextNonce(a);
    if p.P(a) != map[] then PendingRun(p, a) else next == nonce || (nonce < next && nonce in Payable(p, a))
  }

  /** A promotion leaves an account without gaps exactly if it is startable. */
  lemma PromotedIff(p: Pool, p': Pool, a: Address, local: bool, cap: nat)
    requires PromotedTo(p, p', a, local, cap) && p'.chain == p.chain
    requires forall n :: n in p.P(a) ==> n !in p.Q(a)
    requires p.P(a) != map[] ==> p.NextNonce(a) == MaxOf(p.P(a).Keys) + 1
    ensures Settled(p', a) <==> Startable(p, a)
  {
    hide ReadyEnd, Lowest, Payable, From;
    PayableIs(p, a);
    var q := Payable(p, a);
    var e := ReadyEnd(q, p.NextNonce(a));
    ReadyIsMaximalRun(q, p.NextNonce(a));
    LeftLater(q, e, cap);
    if p.P(a) == map[] {
      assert p'.P(a) == Below(q, e);
      NothingPending(p, p', a, q, e);
    } else {
      SomePending(p, p', a, q, e);
    }
  }

  lemma NothingPending(p: Pool, p': Pool, a: Address, q: Items, e: nat)
    requires p.P(a) == map[] && p'.P(a) == Below(q, e) && p'.chain == p.chain
    requires p'.NextNonce(a) == if e == 0 then p.NextNonce(a) else e
    requires q == Payable(p, a) && forall n :: n in q ==> p.chain.Nonce(a) <= n
    requires forall n :: n in p'.Q(a) ==> e <= n && n in q
    requires e == 0 <==> q == map[] || MinOf(q.Keys) > p.NextNonce(a)
    requires e > 0 ==> MinOf(q.Keys) < e && Interval(Below(q, e), MinOf(q.Keys), e)
    ensures Settled(p', a) <==> Startable(p, a)
  {
    hide Payable;
    var nonce := p.chain.Nonce(a);
    if e == 0 {
      assert Below(q, 0) == map[];
      assert nonce in q ==> MinOf(q.Keys) <= nonce;
      assert PendingRun(p', a) <==> p.NextNonce(a) == nonce by {
        assert nonce < p.NextNonce(a) && PendingRun(p', a) ==> nonce in p'.P(a);
      }
    } else {
      assert nonce in q <==> MinOf(q.Keys) == nonce;
      assert PendingRun(p', a) ==> nonce in p'.P(a);
    }
  }

  lemma SomePending(p: Pool, p': Pool, a: Address, q: Items, e: nat)
    requires p.P(a) != map[] && p.NextNonce(a) == MaxOf(p.P(a).Keys) + 1
    requires p'.P(a) == p.P(a) + Below(q, e) && p'.chain == p.chain
    requires p'.NextNonce(a) == if e == 0 then p.NextNonce(a) else e
    requires forall n :: n in q ==> p.chain.Nonce(a) <= n && n !in p.P(a)
    requires forall n :: n in p'.Q(a) ==> e <= n && n in q
    requires e == 0 <==> q == map[] || MinOf(q.Keys) > p.NextNonce(a)
    requires e > 0 ==> MinOf(q.Keys) < e && Interval(Below(q, e), MinOf(q.Keys), e)
    ensures Settled(p', a) <==> PendingRun(p, a)
  {
    var nonce, next := p.chain.Nonce(a), p.NextNonce(a);
    if PendingRun(p, a) {
      assert forall n :: n in q ==> next <= n;
      if e > 0 {
        assert MinOf(q.Keys) == next;
      } else {
        assert Below(q, 0) == map[];
      }
    }
    if Settled(p', a) {
      assert next - 1 in p.P(a) && next - 1 in p'.P(a);
      if e > 0 {
        assert next - 1 !in Below(q, e);
        assert MinOf(q.Keys) == next;
      } else {
        assert Below(q, 0) == map[];
      }
    }
  }

  lemma GaplessStarts(p: Pool, a: Address)
    requires Gapless(p)
    ensures Startable(p, a) && Settled(p, a)
    ensures p.P(a) != map[] ==> p.NextNonce(a) == MaxOf(p.P(a).Keys) + 1
  {
    assert PendingRun(p, a);
    if p.P(a) != map[] {
      assert MaxOf(p.P(a).Keys) in p.P(a) && p.NextNonce(a) - 1 in p.P(a);
    } else {
      RunStarts(p, a);
    }
  }

  /** Promoting any accounts of a pool without gaps leaves none. */
  lemma AllSettled(p: Pool, p': Pool, accounts: set<Address>, locals: set<Address>, cap: nat)
    requires Consistent(p, {}, {}) && PromotedAll(p, p', accounts, locals, cap)
    ensures Gapless(p) ==> Gapless(p')
  {
    hide PromotedTo, Startable;
    if Gapless(p) {
      forall a ensures PendingRun(p', a) && QueuedLater(p', a) {
        assert Promotes(p, p', accounts, locals, cap, a);
        assert AccountOk(p, {}, a);
        GaplessStarts(p, a);
        if a in accounts {
          PromotedIff(p, p', a, a in locals, cap);
        }
      }
    }
  }

  /**
  The condition on the pool after transactions were taken back. Of an account that keeps pending
  transactions these must follow on each other. An account that keeps none must have the chain's
  nonce as its next one, or a higher one if the transaction with the chain's nonce waits in the queue.
  */
  ghost predicate Healthy(p: Pool, a: Address) {
    var m, nonce := Executable(p, a), p.chain.Nonce(a);
    if m != map[] then Interval(m, nonce, MaxOf(m.Keys) + 1)
    else p.NextNonce(a) == nonce || (nonce < p.NextNonce(a) && Waiting(p, a))
  }

  ghost predicate Waiting(p: Pool, a: Address) {
    var nonce := p.chain.Nonce(a);
    nonce in p.Q(a) && !TooCostly(p.Q(a)[nonce], p.chain.Balance(a), p.chain.maxGas)
  }

  /** The stages of a reset before the last promotion. */
  ghost predicate Prepared(added: Pool, demoted: Pool, refreshed: Pool) {
    && Consistent(added, {}, {}) && Consistent(demoted, {}, {})
    && DemotedAll(added, demoted, {}) && demoted.pendingNonces == added.pendingNonces
    && refreshed == demoted.(pendingNonces := refreshed.pendingNonces)
    && forall a {:trigger NonceRefreshed(refreshed, demoted.pendingNonces, a)} ::
         NonceRefreshed(refreshed, demoted.pendingNonces, a)
  }

  /** A demotion that leaves nothing pending keeps the transaction with the chain's nonce if it waits. */
  lemma StillWaiting(p: Pool, p': Pool, a: Address)
    requires Consistent(p, {}, {}) && Consistent(p', {}, {}) && DemotedAll(p, p', {}) && Executable(p, a) == map[]
    ensures p.chain.Nonce(a) in Payable(p', a) <==> Waiting(p, a)
  {
    assert AccountOk(p, {}, a) && AccountOk(p', {}, a);
    var nonce := p.chain.Nonce(a);
    assert p'.P(a) == map[];
    if Waiting(p, a) {
      var tx := p.Q(a)[nonce];
      assert TxOk(p, {}, tx) && TxOk(p', {}, tx);
      assert tx !in Unusable(p, a) by {
        TxsHas(p.P(a), tx);
      }
    }
    if nonce in Payable(p', a) {
      var tx := p'.Q(a)[nonce];
      assert TxOk(p, {}, tx) && TxOk(p', {}, tx);
      if p.IsPending(tx) {
        StaysFirst(p, a, tx);
      }
    }
  }

  /** The pending transaction with the chain's nonce stays, if it can be paid. */
  lemma StaysFirst(p: Pool, a: Address, tx: Tx)
    requires tx.nonce == p.chain.Nonce(a) && tx.nonce in p.P(a) && p.P(a)[tx.nonce] == tx && Keyed(p.P(a))
    ensures Executable(p, a) == map[] ==> TooCostly(tx, p.chain.Balance(a), p.chain.maxGas)
  {
    var m := From(p.P(a), tx.nonce);
    if !TooCostly(tx, p.chain.Balance(a), p.chain.maxGas) {
      assert Stays(true, m, p.chain.Balance(a), p.chain.maxGas, tx.nonce);
      assert tx.nonce in Executable(p, a);
    }
  }

  lemma HealthyIff(added: Pool, demoted: Pool, refreshed: Pool, a: Address)
    requires Prepared(added, demoted, refreshed)
    ensures Startable(refreshed, a) <==> Healthy(added, a)
    ensures refreshed.P(a) != map[] ==> refreshed.NextNonce(a) == MaxOf(refreshed.P(a).Keys) + 1
    ensures forall n :: n in refreshed.P(a) ==> n !in refreshed.Q(a)
  {
    hide Executable, Payable, Waiting, Unusable;
    assert AccountOk(demoted, {}, a);
    assert NonceRefreshed(refreshed, demoted.pendingNonces, a);
    assert refreshed.P(a) == demoted.P(a) == Executable(added, a) && refreshed.Q(a) == demoted.Q(a);
    if refreshed.P(a) == map[] {
      StillWaiting(added, demoted, a);
      assert Payable(refreshed, a) == Payable(demoted, a) by {
        SamePayable(demoted, refreshed, a);
      }
    } else {
      ExecutableFrom(added, a);
      assert MaxOf(refreshed.P(a).Keys) in refreshed.P(a);
    }
  }

  lemma SamePayable(p: Pool, p': Pool, a: Address)
    requires p'.chain == p.chain && p'.Q(a) == p.Q(a)
    ensures Payable(p', a) == Payable(p, a)
  {
  }

  lemma ExecutableFrom(p: Pool, a: Address)
    ensures forall n :: n in Executable(p, a) ==> p.chain.Nonce(a) <= n
  {
  }

  /** Whether an account is in the queue or not, a promotion does the same to it. */
  lemma PromotesAny(p: Pool, p': Pool, locals: set<Address>, cap: nat, a: Address)
    requires PromotedAll(p, p', p.queue.Keys, locals, cap)
    ensures PromotedTo(p, p', a, a in locals, cap)
  {
    hide PromotedTo;
    assert Promotes(p, p', p.queue.Keys, locals, cap, a);
    if a !in p.queue {
      NothingQueued(p, a, a in locals, cap);
      SameEnd(p, p, p', a, a in locals, cap);
    }
  }

  /** A reset leaves no gap, before the limits are enforced, exactly if every account is healthy. */
  lemma ResetIff(added: Pool, demoted: Pool, refreshed: Pool, promoted: Pool, locals: set<Address>, cap: nat)
    requires Prepared(added, demoted, refreshed) && PromotedAll(refreshed, promoted, refreshed.queue.Keys, locals, cap)
    ensures Gapless(promoted) <==> forall a {:trigger Healthy(added, a)} :: Healthy(added, a)
    ensures (forall a {:trigger PendingRun(refreshed, a)} :: PendingRun(refreshed, a)) ==> Gapless(promoted)
  {
    hide Prepared, PromotedAll, PromotedTo, Healthy, Startable, PendingRun, QueuedLater;
    forall a ensures Settled(promoted, a) <==> Healthy(added, a)
      ensures PendingRun(refreshed, a) ==> Settled(promoted, a)
    {
      HealthyIff(added, demoted, refreshed, a);
      PromotesAny(refreshed, promoted, locals, cap, a);
      SameChain(refreshed, promoted, locals, cap);
      PromotedIff(refreshed, promoted, a, a in locals, cap);
      RunStarts(refreshed, a);
    }
    if Gapless(promoted) {
      forall a ensures Healthy(added, a) {
        assert PendingRun(promoted, a);
      }
    }
    if forall a {:trigger Healthy(added, a)} :: Healthy(added, a) {
      forall a ensures PendingRun(promoted, a) && QueuedLater(promoted, a) {
        assert Healthy(added, a);
      }
    }
    if forall a {:trigger PendingRun(refreshed, a)} :: PendingRun(refreshed, a) {
      forall a ensures PendingRun(promoted, a) && QueuedLater(promoted, a) {
        assert PendingRun(refreshed, a);
      }
    }
  }

  lemma SameChain(p: Pool, p': Pool, locals: set<Address>, cap: nat)
    requires PromotedAll(p, p', p.queue.Keys, locals, cap)
    ensures p'.chain == p.chain
  {
  }

  lemma RunStarts(p: Pool, a: Address)
    ensures PendingRun(p, a) ==> Startable(p, a)
  {
    if PendingRun(p, a) && p.P(a) == map[] {
      assert p.chain.Nonce(a) < p.NextNonce(a) ==> p.chain.Nonce(a) in p.P(a);
    }
  }

  /** Without transactions taken back, a pool that had no gaps is healthy whatever the new state is. */
  lemma NothingTakenBack(p: Pool, added: Pool, a: Address)
    requires Gapless(p) && added == p.(chain := added.chain, pendingNonces := map[])
    ensures Healthy(added, a)
  {
    assert PendingRun(p, a);
    assert added.P(a) == p.P(a);
    if Executable(added, a) != map[] {
      KeepsRun(added, a, p.chain.Nonce(a), p.NextNonce(a));
    }
  }

  /** What stays pending of a run is a run. */
  lemma KeepsRun(p: Pool, a: Address, s: nat, e: nat)
    requires s <= e && Interval(p.P(a), s, e) && Executable(p, a) != map[]
    ensures var m := Executable(p, a); Interval(m, p.chain.Nonce(a), MaxOf(m.Keys) + 1)
  {
    var nonce := p.chain.Nonce(a);
    assert nonce in Executable(p, a) && s <= nonce < e;
    assert Interval(From(p.P(a), nonce), nonce, e);
    KeepsTail(p, a, e);
  }

  lemma KeepsTail(p: Pool, a: Address, e: nat)
    requires p.chain.Nonce(a) < e && Interval(From(p.P(a), p.chain.Nonce(a)), p.chain.Nonce(a), e)
    requires Executable(p, a) != map[]
    ensures var m := Executable(p, a); Interval(m, p.chain.Nonce(a), MaxOf(m.Keys) + 1)
  {
    var m, nonce := Executable(p, a), p.chain.Nonce(a);
    var l := List(true, From(p.P(a), nonce), 0, 0);
    var e' := FilteredInterval(l, p.chain.Balance(a), p.chain.maxGas, nonce, e);
    assert Interval(m, nonce, e') && nonce in m && e' - 1 in m;
    assert MaxOf(m.Keys) == e' - 1;
  }
}
