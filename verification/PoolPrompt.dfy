/**
Nothing waits that could be pending: the transaction with the next nonce of an account is never in its
queue. Adding one breaks this for its account alone, until the account is promoted.
*/
module PoolPrompt {
  import opened TxSpec
  import opened TxSortedMap
  import opened TxList
  import opened PoolState
  import opened PoolSteps
  import opened PoolFairness
  import opened PoolQueue
  import opened PoolEntry

  ghost predicate PromptAt(p: Pool, a: Address) {
    p.NextNonce(a) !in p.Q(a)
  }

  ghost predicate Prompt(p: Pool) {
    forall a {:trigger PromptAt(p, a)} :: PromptAt(p, a)
  }

  /** A step that keeps nothing waiting, but for some accounts. */
  ghost predicate StillPrompt(p: Pool, p': Pool, but: set<Address>) {
    forall a {:trigger PromptAt(p', a)} :: PromptAt(p, a) && a !in but ==> PromptAt(p', a)
  }

  lemma PromptSelf(p: Pool)
    ensures StillPrompt(p, p, {})
  {
  }

  lemma PromptAll(p: Pool, p': Pool)
    requires StillPrompt(p, p', {})
    ensures Prompt(p) ==> Prompt(p')
  {
  }

  lemma PromptIfClean(p: Pool, p': Pool, but: set<Address>)
    requires StillPrompt(p, p', but) && Prompt(p)
    ensures forall a {:trigger PromptAt(p', a)} :: a in but || PromptAt(p', a)
    ensures but == {} ==> Prompt(p')
  {
    hide PromptAt;
    forall a ensures a in but || PromptAt(p', a) {
      assert PromptAt(p, a);
    }
  }

  lemma PromptThen(p: Pool, m: Pool, p': Pool, but: set<Address>, but': set<Address>)
    requires StillPrompt(p, m, but) && StillPrompt(m, p', but')
    ensures StillPrompt(p, p', but + but') && (but == {} ==> StillPrompt(p, p', but'))
  {
    hide PromptAt;
    forall a | PromptAt(p, a) && a !in but + but' ensures PromptAt(p', a) {
      assert PromptAt(m, a);
    }
  }

  /** Fewer queued transactions keep nothing waiting. */
  lemma FewerPrompt(p: Pool, p': Pool)
    requires p'.chain == p.chain && p'.pendingNonces == p.pendingNonces
    requires forall a, n :: n in p'.Q(a) ==> n in p.Q(a)
    ensures StillPrompt(p, p', {})
  {
  }

  /** Nor does a transaction that leaves: the next nonce falls to its own, which nobody else has. */
  lemma LeavesPrompt(p: Pool, p': Pool, tx: Tx)
    requires Consistent(p, {}, {}) && Leaves(p, p', tx)
    ensures StillPrompt(p, p', {})
  {
    hide Consistent;
    if tx in p.all && tx.nonce in p.P(tx.from) {
      forall a | PromptAt(p, a) ensures PromptAt(p', a) {
        CutPrompt(p, p', tx, a);
      }
    } else {
      forall a, n | n in p'.Q(a) ensures n in p.Q(a) {
      }
      FewerPrompt(p, p');
    }
  }

  lemma CutPrompt(p: Pool, p': Pool, tx: Tx, a: Address)
    requires Consistent(p, {}, {}) && Consistent(p', {}, {}) && tx in p.all && tx.nonce in p.P(tx.from)
    requires PendingCut(p, p', tx) && p'.all == p.all - {tx} && p'.chain == p.chain && PromptAt(p, a)
    ensures PromptAt(p', a)
  {
    hide Consistent, Txs, Removed;
    var n := p'.NextNonce(a);
    RemovePending(p, tx);
    Apart(p, tx.from, tx.nonce);
    assert p'.P(a) == if a == tx.from then Below(p.P(a), tx.nonce) else p.P(a);
    if n in p'.Q(a) {
      QueuedWas(p, p', tx, a, n);
    }
  }

  /** What is queued after a cut was queued before it, or pending after the transaction that left. */
  lemma QueuedWas(p: Pool, p': Pool, tx: Tx, a: Address, n: nat)
    requires Consistent(p, {}, {}) && Consistent(p', {}, {}) && tx in p.all && tx.nonce in p.P(tx.from)
    requires p'.all == p.all - {tx} && n in p'.Q(a)
    ensures n !in p'.P(a) && (n in p.Q(a) || (n in p.P(a) && (a == tx.from ==> n != tx.nonce)))
  {
    var t := p'.Q(a)[n];
    assert AccountOk(p', {}, a) && AccountOk(p, {}, a);
    assert t.nonce == n && t.from == a;
    assert TxOk(p', {}, t) && TxOk(p, {}, t) && TxOk(p, {}, tx);
    assert AccountOk(p, {}, tx.from);
  }

  /** The last pending transaction goes, and the next nonce falls to its own. */
  lemma LastGonePrompt(p: Pool, a: Address, n: nat, top: nat)
    requires Consistent(p, {}, {}) && a in p.pending && top in p.P(a)
    ensures StillPrompt(p, LastGone(p, a, n, top), {})
  {
    hide Consistent;
    var p' := LastGone(p, a, n, top);
    assert top !in p.Q(a) by { Apart(p, a, top); }
    forall b | PromptAt(p, b) ensures PromptAt(p', b) {
      assert p'.Q(b) == p.Q(b);
    }
  }

  lemma Apart(p: Pool, a: Address, n: nat)
    requires Consistent(p, {}, {}) && n in p.P(a)
    ensures n !in p.Q(a)
  {
    assert AccountOk(p, {}, a);
  }

  /** A transaction that enters may have to wait for the promotion of its account, unless it replaces another one. */
  lemma PlacedPrompt(p: Pool, tx: Tx)
    ensures StillPrompt(p, Placed(p, tx), if tx.nonce in Target(p, tx).items then {} else {tx.from})
  {
    var p' := Placed(p, tx);
    forall a | PromptAt(p, a) && (tx.nonce in Target(p, tx).items || a != tx.from) ensures PromptAt(p', a) {
      assert p'.NextNonce(a) == p.NextNonce(a);
      assert p'.Q(a).Keys == p.Q(a).Keys;
    }
  }

  /** A promotion leaves nothing waiting in the accounts it visits. */
  lemma PromotedPrompt(p: Pool, p': Pool, accounts: set<Address>, locals: set<Address>, cap: nat)
    requires PromotedAll(p, p', accounts, locals, cap)
    requires forall a {:trigger PromptAt(p, a)} :: a in accounts || PromptAt(p, a)
    ensures Prompt(p')
  {
    hide PromotedTo;
    forall a ensures PromptAt(p', a) {
      assert Promotes(p, p', accounts, locals, cap, a);
      if a in accounts {
        ReadyPrompt(p, p', a, a in locals, cap);
      } else {
        assert PromptAt(p, a);
      }
    }
  }

  lemma ReadyPrompt(p: Pool, p': Pool, a: Address, local: bool, cap: nat)
    requires PromotedTo(p, p', a, local, cap)
    ensures PromptAt(p', a)
  {
    hide ReadyEnd, Payable, Lowest;
    var q := Payable(p, a);
    var e := ReadyEnd(q, p.NextNonce(a));
    ReadyIsMaximalRun(q, p.NextNonce(a));
    LowestIs(From(q, e), cap);
  }

  lemma LimitedPrompt(p: Pool, p': Pool, locals: set<Address>, beats: Beats)
    requires p'.chain == p.chain && p'.pendingNonces == p.pendingNonces
    requires LatestFirst(p.queue, p'.queue, locals, beats)
    ensures StillPrompt(p, p', {})
  {
    hide Lowest;
    forall a, n | n in p'.Q(a) ensures n in p.Q(a) {
      var m := ItemsOf(p'.queue, a);
      LowestIs(ItemsOf(p.queue, a), |m|);
    }
    FewerPrompt(p, p');
  }

  /** A transaction that leaves never raises a next nonce; if it was pending, its account's is at most its own. */
  lemma NonceFalls(p: Pool, p': Pool, tx: Tx)
    requires Leaves(p, p', tx)
    ensures forall a :: p'.NextNonce(a) <= p.NextNonce(a) && (a != tx.from ==> p'.NextNonce(a) == p.NextNonce(a))
    ensures tx in p.all && tx.nonce in p.P(tx.from) ==> p'.NextNonce(tx.from) <= tx.nonce
  {
    hide Consistent, Removed;
  }

  lemma LastNonceFalls(p: Pool, a: Address, n: nat, top: nat)
    requires a in p.pending && top in p.P(a)
    ensures var p' := LastGone(p, a, n, top);
            && (forall b :: p'.NextNonce(b) <= p.NextNonce(b) && (b != a ==> p'.NextNonce(b) == p.NextNonce(b)))
            && p'.NextNonce(a) <= top
  {
    hide AtLevel;
  }
}
