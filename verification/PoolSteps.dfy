/**
What single operations of the transaction pool do to its lists: which account they touch, and that
they leave no gap between the pending and the queued nonces.
*/
module PoolSteps {
  import opened TxSpec
  import opened TxSortedMap
  import opened TxList
  import opened TxPriced
  import opened PoolState

  lemma NotBusy(p: Pool, a: Address)
    requires Consistent(p, {}, {})
    ensures HasPending(p, a) && (a in p.queue ==> p.Q(a) != map[])
  {
    assert AccountOk(p, {}, a);
  }

  lemma Busier(p: Pool, limbo: set<Tx>, busy: set<Address>, more: set<Address>)
    requires Consistent(p, limbo, busy)
    ensures Consistent(p, limbo, busy + more)
  {
    forall a ensures AccountOk(p, busy + more, a) {
      assert AccountOk(p, busy, a);
    }
  }

  lemma FilterKeeps(l: List, costLimit: int, gasLimit: nat, a: Address)
    requires GoodList(l, false, a)
    ensures GoodList(Filtered(l, costLimit, gasLimit), false, a) && Shorter(Filtered(l, costLimit, gasLimit), l.items)
  {
    FilteredGood(l, costLimit, gasLimit);
  }

  lemma LowestKeeps(l: List, n: nat, a: Address)
    requires GoodList(l, false, a) || GoodList(l, true, a)
    ensures GoodList(l.(items := Lowest(l.items, n)), l.strict, a) && Shorter(l.(items := Lowest(l.items, n)), l.items)
  {
    LowestIs(l.items, n);
  }

  lemma PendingKeyed(p: Pool, limbo: set<Tx>, busy: set<Address>, a: Address)
    requires Consistent(p, limbo, busy) && a in p.pending
    ensures GoodList(p.pending[a], true, a) && Keyed(p.P(a))
  {
    assert AccountOk(p, busy, a);
  }

  lemma PendingGood(p: Pool, limbo: set<Tx>, busy: set<Address>, a: Address)
    requires Consistent(p, limbo, busy)
    ensures Good(PendingOf(p, a))
  {
    assert AccountOk(p, busy, a);
  }

  lemma QueueGood(p: Pool, limbo: set<Tx>, busy: set<Address>, a: Address)
    requires Consistent(p, limbo, busy)
    ensures Good(QueueOf(p, a))
  {
    assert AccountOk(p, busy, a);
  }

  lemma PendingTx(p: Pool, tx: Tx)
    requires Consistent(p, {}, {}) && tx in p.all && tx.nonce in p.P(tx.from)
    ensures p.P(tx.from)[tx.nonce] == tx && tx.nonce !in p.Q(tx.from)
  {
    assert AccountOk(p, {}, tx.from) && TxOk(p, {}, tx);
  }

  lemma KnownQueued(p: Pool, tx: Tx)
    requires Consistent(p, {}, {}) && tx in p.all && tx.nonce !in p.P(tx.from)
    ensures tx.nonce in p.Q(tx.from)
  {
    assert TxOk(p, {}, tx);
  }

  lemma GoneFrom(l: List, l': List, a: Address)
    requires GoodList(l, true, a) && GoodList(l', true, a) && Shorter(l', l.items)
    ensures forall t :: t in Txs(l.items) - Txs(l'.items) ==> t.from == a
  {
    ShortenTxs(l.items, l', a);
  }

  lemma ListsElsewhere(p: Pool, p': Pool, a: Address)
    requires p'.chain == p.chain && p'.pendingNonces == p.pendingNonces
    requires forall b :: b != a ==> SameEntry(p.pending, p'.pending, b) && SameEntry(p.queue, p'.queue, b)
    ensures OtherAccounts(p, p', a)
  {
    forall b | b != a ensures p'.P(b) == p.P(b) && p'.Q(b) == p.Q(b) && p'.NextNonce(b) == p.NextNonce(b) {
      assert SameEntry(p.pending, p'.pending, b);
    }
  }

  lemma FromKeeps(l: List, n: nat, a: Address)
    requires GoodList(l, true, a)
    ensures GoodList(l.(items := From(l.items, n)), true, a) && Shorter(l.(items := From(l.items, n)), l.items)
  {
  }

  lemma EmptyKeeps(l: List, a: Address)
    requires GoodList(l, true, a)
    ensures GoodList(l.(items := map[]), true, a) && Shorter(l.(items := map[]), l.items)
  {
  }

  lemma FilterKeepsPending(l: List, costLimit: int, gasLimit: nat, a: Address)
    requires GoodList(l, true, a)
    ensures GoodList(Filtered(l, costLimit, gasLimit), true, a) && Shorter(Filtered(l, costLimit, gasLimit), l.items)
    ensures (set tx | tx in Txs(l.items) && TooCostly(tx, costLimit, gasLimit)) <=
            Txs(l.items) - Txs(Filtered(l, costLimit, gasLimit).items)
  {
    FilteredGood(l, costLimit, gasLimit);
    forall tx | tx in Txs(l.items) && TooCostly(tx, costLimit, gasLimit)
      ensures tx !in Txs(Filtered(l, costLimit, gasLimit).items)
    {
      TxsHas(l.items, tx);
      TxsHas(Filtered(l, costLimit, gasLimit).items, tx);
    }
  }

  lemma CleanPendingSame(p: Pool, a: Address)
    ensures OtherAccounts(p, CleanPending(p, a), a)
    ensures HasQueued(p, a) ==> HasQueued(CleanPending(p, a), a)
    ensures HasPending(CleanPending(p, a), a)
  {
    var p' := CleanPending(p, a);
    assert p'.Q(a) == p.Q(a) && p'.P(a) == p.P(a);
  }

  ghost predicate Distinct(s: seq<Tx>) {
    forall i, j :: 0 <= i < j < |s| ==> s[i] != s[j]
  }

  lemma TailWithout(s: seq<Tx>, i: nat, left: set<Tx>)
    requires i < |s| && Distinct(s) && forall t :: t in left <==> t in s[i..]
    ensures forall t :: t in left - {s[i]} <==> t in s[i + 1..]
  {
    assert s[i..] == [s[i]] + s[i + 1..];
    assert s[i] !in s[i + 1..];
  }

  lemma OthersReflexive(p: Pool, a: Address)
    ensures OtherAccounts(p, p, a)
  {
  }

  lemma OthersTransitive(p: Pool, p': Pool, p'': Pool, a: Address)
    requires OtherAccounts(p, p', a) && OtherAccounts(p', p'', a)
    ensures OtherAccounts(p, p'', a)
  {
  }

  /** The pending list of the account, if it has one, is not empty. */
  ghost predicate HasPending(p: Pool, a: Address) {
    a in p.pending ==> p.P(a) != map[]
  }

  /** Other accounts than `a` are as before. */
  ghost predicate OtherAccounts(p: Pool, p': Pool, a: Address) {
    && p'.chain == p.chain
    && forall b {:trigger p'.P(b)} {:trigger p'.Q(b)} {:trigger p'.NextNonce(b)} ::
         b != a ==> p'.P(b) == p.P(b) && p'.Q(b) == p.Q(b) && p'.NextNonce(b) == p.NextNonce(b)
  }

  lemma QueueKeyed(p: Pool, limbo: set<Tx>, busy: set<Address>, a: Address)
    requires Consistent(p, limbo, busy) && a in p.queue
    ensures GoodList(p.queue[a], false, a) && Keyed(p.Q(a))
  {
    assert AccountOk(p, busy, a);
  }

  /** Taking what is ready off the queue leaves it in limbo. */
  lemma ReadyLeaves(p: Pool, busy: set<Address>, a: Address, start: nat)
    requires Consistent(p, {}, busy) && a in p.queue
    ensures var e := ReadyEnd(p.Q(a), start);
            var rest := From(p.Q(a), e);
            && Consistent(WithQueue(p, a, p.queue[a].(items := rest)), Txs(p.Q(a)) - Txs(rest), busy + {a})
            && forall t :: t in Txs(p.Q(a)) - Txs(rest) <==> t in Flatten(Below(p.Q(a), e))
  {
    hide Consistent, Flatten, ReadyEnd;
    QueueKeyed(p, {}, busy, a);
    var e := ReadyEnd(p.Q(a), start);
    var l := p.queue[a].(items := From(p.Q(a), e));
    ShortenQueue(p, {}, busy, a, l);
    assert {} + (Txs(p.Q(a)) - Txs(l.items)) == Txs(p.Q(a)) - Txs(l.items);
    FlattenMembers(Below(p.Q(a), e));
    forall t ensures t in Txs(p.Q(a)) - Txs(l.items) <==> t in Flatten(Below(p.Q(a), e)) {
      TxsHas(p.Q(a), t);
      TxsHas(l.items, t);
      TxsHas(Below(p.Q(a), e), t);
    }
  }

  lemma FlattenMembers(m: Items)
    requires Keyed(m)
    ensures forall t :: t in Flatten(m) <==> t in Txs(m)
  {
    hide Flatten;
    FlattenSorted(m);
    forall t ensures t in Flatten(m) <==> t in Txs(m) {
      TxsHas(m, t);
      if t.nonce in m {
        FlattenHas(m, t.nonce);
      }
    }
  }

  /** The lists after a pending transaction is removed, its successors being in limbo. */
  lemma RemovePending(p: Pool, tx: Tx)
    requires Consistent(p, {}, {}) && tx in p.all && tx.nonce in p.P(tx.from)
    ensures tx.from in p.pending && Removed(p.pending[tx.from], tx.nonce).items == Below(p.P(tx.from), tx.nonce)
    ensures var a := tx.from;
            var l := Removed(p.pending[a], tx.nonce);
            var p' := WithPending(p, a, l).(all := p.all - {tx});
            Consistent(CleanPending(p', a), Txs(p.P(a)) - Txs(l.items) - {tx}, {})
  {
    hide Consistent, Txs;
    var a := tx.from;
    Split(p, {}, {}, a);
    assert TxOk(p, {}, tx);
    var l := Removed(p.pending[a], tx.nonce);
    RemovedGood(p.pending[a], tx.nonce);
    ShortenPending(p, {}, {}, a, l);
    var p1, gone := WithPending(p, a, l), Txs(p.P(a)) - Txs(l.items);
    ShortenTxs(p.P(a), l, a);
    assert {} + gone == gone && {} + {a} == {a};
    Forget(p1, gone, {a}, {tx});
    var p2 := p1.(all := p1.all - {tx});
    CleanKeeps(p2, CleanPending(p2, a), gone - {tx}, {a}, a);
    assert {a} - {a} == {};
  }

  /** The pool after a queued transaction is removed. */
  function QueuedGone(p: Pool, tx: Tx): Pool
    requires tx.from in p.queue
  {
    CleanQueue(WithQueue(p, tx.from, Removed(p.queue[tx.from], tx.nonce)).(all := p.all - {tx}), tx.from)
  }

  lemma RemoveQueued(p: Pool, tx: Tx)
    requires Consistent(p, {}, {}) && tx in p.all && tx.nonce !in p.P(tx.from)
    ensures tx.from in p.queue && Consistent(QueuedGone(p, tx), {}, {})
  {
    hide Consistent, Txs;
    var a := tx.from;
    Split(p, {}, {}, a);
    assert TxOk(p, {}, tx);
    var l := Removed(p.queue[a], tx.nonce);
    RemovedGood(p.queue[a], tx.nonce);
    ShortenQueue(p, {}, {}, a, l);
    var p1, gone := WithQueue(p, a, l), Txs(p.Q(a)) - Txs(l.items);
    ShortenTxs(p.Q(a), l, a);
    assert gone == {tx};
    assert {} + gone == gone && {} + {a} == {a} && gone - {tx} == {};
    Forget(p1, gone, {a}, {tx});
    var p2 := p1.(all := p1.all - {tx});
    CleanKeeps(p2, CleanQueue(p2, a), {}, {a}, a);
    assert {a} - {a} == {};
  }

  /** The pending list of an account is cut before one of its transactions, and its next nonce lowered to it. */
  ghost predicate PendingCut(p: Pool, p': Pool, tx: Tx) {
    && tx.from in p.pending
    && p'.pending == CleanPending(WithPending(p, tx.from, Removed(p.pending[tx.from], tx.nonce)), tx.from).pending
    && p'.pendingNonces ==
         if p.NextNonce(tx.from) > tx.nonce then p.pendingNonces[tx.from := tx.nonce] else p.pendingNonces
  }

  lemma RemovePendingGapless(p: Pool, p': Pool, tx: Tx, invalids: set<Tx>)
    requires Consistent(p, {}, {}) && Gapless(p) && tx.nonce in p.P(tx.from)
    requires Removed(p.pending[tx.from], tx.nonce).items == Below(p.P(tx.from), tx.nonce)
    requires p'.chain == p.chain && PendingCut(p, p', tx)
    requires invalids == Txs(p.P(tx.from)) - Txs(Below(p.P(tx.from), tx.nonce)) - {tx}
    requires forall a: Address, n: nat :: n in p'.Q(a) ==> n in p.Q(a) || Names(invalids, a, n)
    ensures Gapless(p')
  {
    forall a ensures PendingRun(p', a) && QueuedLater(p', a) {
      assert PendingRun(p, a);
      assert p'.P(a) == if a == tx.from then Below(p.P(a), tx.nonce) else p.P(a);
      forall n | n in p'.Q(a) ensures p'.NextNonce(a) <= n {
        if n !in p.Q(a) {
          var t :| t in invalids && t.from == a && t.nonce == n;
          assert AccountOk(p, {}, tx.from);
          TxsHas(p.P(tx.from), t);
          TxsHas(Below(p.P(tx.from), tx.nonce), t);
        }
      }
    }
  }

  /** Taking transactions off the queue makes no gap. */
  lemma FewerQueuedGapless(p: Pool, p': Pool)
    requires Gapless(p) && p'.chain == p.chain && p'.pendingNonces == p.pendingNonces && p'.pending == p.pending
    requires forall a: Address, n: nat :: n in p'.Q(a) ==> n in p.Q(a)
    ensures Gapless(p')
  {
    forall a ensures PendingRun(p', a) && QueuedLater(p', a) {
      assert PendingRun(p, a);
      assert p'.P(a) == p.P(a);
    }
  }

  ghost predicate NoneFrom(txs: set<Tx>, a: Address) {
    forall t :: t in txs ==> t.from != a
  }

  /** One of the transactions is from `a` and has nonce `n`. */
  ghost predicate Names(txs: set<Tx>, a: Address, n: nat) {
    exists tx :: tx in txs && tx.from == a && tx.nonce == n
  }

  lemma QueueGrows(p: Pool, p': Pool, tx: Tx)
    requires p' == WithQueue(p, tx.from, Added(QueueOf(p, tx.from), tx))
    ensures forall a: Address, n: nat :: n in p'.Q(a) <==> n in p.Q(a) || (a == tx.from && n == tx.nonce)
    ensures forall a :: HasQueued(p, a) ==> HasQueued(p', a)
  {
    assert tx.nonce in p'.Q(tx.from);
  }

  ghost predicate SameEntry(m: map<Address, List>, m': map<Address, List>, a: Address) {
    (a in m' <==> a in m) && (a in m ==> m'[a] == m[a])
  }

  /** The queue of the account, if it has one, is not empty. */
  ghost predicate HasQueued(p: Pool, a: Address) {
    a in p.queue ==> p.Q(a) != map[]
  }

  lemma CoverForget(items: multiset<Tx>, all: set<Tx>, tx: Tx, popped: seq<Tx>)
    requires Covers(items, all, popped)
    ensures Covers(items, all - {tx}, popped) && Covers(multiset(all - {tx}), all - {tx}, popped)
  {
  }

  /** The invariant does not depend on the next nonces. */
  lemma NoncesAside(p: Pool, limbo: set<Tx>, busy: set<Address>, nonces: map<Address, nat>)
    requires Consistent(p, limbo, busy)
    ensures Consistent(p.(pendingNonces := nonces), limbo, busy)
  {
    var p' := p.(pendingNonces := nonces);
    assert forall a :: p'.P(a) == p.P(a) && p'.Q(a) == p.Q(a);
    forall a ensures AccountOk(p', busy, a) {
      assert AccountOk(p, busy, a);
    }
    forall tx ensures TxOk(p', limbo, tx) {
      assert TxOk(p, limbo, tx);
    }
  }

  lemma LimboKnown(p: Pool, limbo: set<Tx>, busy: set<Address>, tx: Tx)
    requires Consistent(p, limbo, busy) && tx in limbo
    ensures tx in p.all
  {
    assert TxOk(p, limbo, tx);
  }

  // ----- promoting an account -----

  /** The items with the transactions added one after the other. */
  ghost function WithTxs(m: Items, txs: seq<Tx>): Items {
    if txs == [] then m else WithTxs(m, txs[..|txs| - 1])[txs[|txs| - 1].nonce := txs[|txs| - 1]]
  }

  lemma WithLast(m: Items, txs: seq<Tx>, tx: Tx)
    ensures WithTxs(m, txs + [tx]) == WithTxs(m, txs)[tx.nonce := tx]
  {
    assert (txs + [tx])[..|txs|] == txs;
  }

  lemma {:induction false} WithFlattened(m: Items, b: Items)
    requires Keyed(b)
    ensures WithTxs(m, Flatten(b)) == m + b
    decreases |b|
  {
    if b == map[] {
      assert m + b == m;
    } else {
      hide Flatten, WithTxs;
      var top := MaxOf(b.Keys);
      var rest := Without(b, top);
      FlattenTop(b, top);
      WithFlattened(m, rest);
      WithLast(m, Flatten(rest), b[top]);
      UnionTop(m, b, top);
    }
  }

  lemma UnionTop(m: Items, b: Items, top: nat)
    requires top in b
    ensures m + b == (m + Without(b, top))[top := b[top]]
  {
  }

  /** The transactions `txs` of an account have become pending, and the last of them sets its next nonce. */
  ghost predicate Promoting(p: Pool, p': Pool, a: Address, txs: seq<Tx>) {
    && p'.chain == p.chain && p'.P(a) == WithTxs(p.P(a), txs)
    && p'.NextNonce(a) == (if txs == [] then p.NextNonce(a) else txs[|txs| - 1].nonce + 1)
    && (HasPending(p, a) ==> HasPending(p', a))
    && forall b :: b != a ==> p'.P(b) == p.P(b) && p'.NextNonce(b) == p.NextNonce(b)
  }

  lemma PromotingStarts(p: Pool, a: Address, txs: seq<Tx>)
    ensures Promoting(p, p, a, txs[..0])
  {
  }

  lemma PromotingStep(p: Pool, p': Pool, p'': Pool, a: Address, txs: seq<Tx>, i: nat)
    requires i < |txs| && txs[i].from == a && Promoting(p, p', a, txs[..i])
    requires var nonces := p'.pendingNonces[a := txs[i].nonce + 1];
             p'' == WithPending(p', a, Added(PendingOf(p', a), txs[i])).(pendingNonces := nonces)
    ensures Promoting(p, p'', a, txs[..i + 1])
  {
    assert txs[..i + 1][..i] == txs[..i];
    assert p''.P(a) == p'.P(a)[txs[i].nonce := txs[i]];
    assert txs[i].nonce in p''.P(a);
    forall b | b != a ensures p''.P(b) == p.P(b) && p''.NextNonce(b) == p.NextNonce(b) {
      assert p'.P(b) == p.P(b);
    }
  }

  /** The promotion does not depend on the queue. */
  lemma PromotingFrom(p: Pool, p1: Pool, p': Pool, a: Address, txs: seq<Tx>)
    requires Promoting(p1, p', a, txs) && p1 == p.(queue := p1.queue)
    ensures Promoting(p, p', a, txs)
  {
    assert forall b :: p1.P(b) == p.P(b) && p1.NextNonce(b) == p.NextNonce(b);
  }

  lemma ReadyOnce(p: Pool, a: Address)
    requires a in p.queue && GoodList(p.queue[a], false, a)
    ensures var ready := Flatten(Below(p.Q(a), ReadyEnd(p.Q(a), p.NextNonce(a))));
            Distinct(ready) && forall t :: t in ready ==> t.from == a
  {
    hide Flatten, ReadyEnd;
    var b := Below(p.Q(a), ReadyEnd(p.Q(a), p.NextNonce(a)));
    FlattenSorted(b);
    FlattenMembers(b);
    forall t | t in Flatten(b) ensures t.from == a {
      TxsHas(b, t);
    }
  }

  /** What is left of a queue without the too old and the too costly. */
  function Payable(p: Pool, a: Address): Items {
    Scanned(false, From(p.Q(a), p.chain.Nonce(a)), p.chain.Balance(a), p.chain.maxGas)
  }

  lemma PayableIs(p: Pool, a: Address)
    ensures forall n :: n in Payable(p, a) <==>
              && n in p.Q(a) && p.chain.Nonce(a) <= n
              && p.Q(a)[n].cost <= p.chain.Balance(a) && p.Q(a)[n].gas <= p.chain.maxGas
    ensures forall n :: n in Payable(p, a) ==> Payable(p, a)[n] == p.Q(a)[n]
  {
  }

  /** Of these the ready ones have become pending, and the rest stays queued, up to the cap if not local. */
  ghost predicate PromotedTo(p: Pool, p': Pool, a: Address, local: bool, cap: nat) {
    var q := Payable(p, a);
    var e := ReadyEnd(q, p.NextNonce(a));
    && p'.P(a) == p.P(a) + Below(q, e)
    && p'.NextNonce(a) == (if e == 0 then p.NextNonce(a) else e)
    && p'.Q(a) == if local then From(q, e) else Lowest(From(q, e), cap)
  }

  lemma NothingQueued(p: Pool, a: Address, local: bool, cap: nat)
    requires a !in p.queue
    ensures PromotedTo(p, p, a, local, cap) && OtherAccounts(p, p, a)
  {
    var q := Payable(p, a);
    assert q == map[];
    assert From(q, 0) == map[] && Below(q, 0) == map[];
    assert p.P(a) + map[] == p.P(a);
  }

  /** Nothing that can be paid is lost in a promotion, but what exceeds the cap, and that is the highest nonces. */
  lemma NothingLost(p: Pool, p': Pool, a: Address, local: bool, cap: nat, n: nat)
    requires PromotedTo(p, p', a, local, cap)
    ensures n in p.P(a) && n !in p.Q(a) ==> n in p'.P(a) && p'.P(a)[n] == p.P(a)[n]
    ensures n in Payable(p, a) ==>
              || (n in p'.P(a) && p'.P(a)[n] == Payable(p, a)[n])
              || (n in p'.Q(a) && p'.Q(a)[n] == Payable(p, a)[n])
              || (!local && |p'.Q(a)| == cap && forall k :: k in p'.Q(a) ==> k < n)
  {
    hide ReadyEnd, Payable, Lowest;
    var q := Payable(p, a);
    var e := ReadyEnd(q, p.NextNonce(a));
    assert n in q ==> n in p.Q(a) by { PayableIs(p, a); }
    if n in q {
      CapKeeps(q, e, cap, n);
    }
  }

  lemma CapKeeps(q: Items, e: nat, cap: nat, n: nat)
    requires n in q
    ensures var low := Lowest(From(q, e), cap);
            || n < e
            || (n in low && low[n] == q[n])
            || (|low| == cap && forall k :: k in low ==> k < n)
  {
    hide Lowest;
    LowestIs(From(q, e), cap);
    if n >= e && |From(q, e)| <= cap {
      assert Lowest(From(q, e), cap) == From(q, e) by { LowestWhole(From(q, e), cap); }
    }
  }

  lemma LowestWhole(m: Items, n: nat)
    requires |m| <= n
    ensures Lowest(m, n) == m
  {
  }

  lemma PromotedCap(p: Pool, p': Pool, a: Address, local: bool, cap: nat)
    requires PromotedTo(p, p', a, local, cap)
    ensures !local ==> |p'.Q(a)| <= cap
  {
    hide ReadyEnd, Payable, Lowest;
    LowestIs(From(Payable(p, a), ReadyEnd(Payable(p, a), p.NextNonce(a))), cap);
  }

  lemma QueueFromKeeps(l: List, n: nat, a: Address)
    requires GoodList(l, false, a)
    ensures GoodList(l.(items := From(l.items, n)), false, a) && Shorter(l.(items := From(l.items, n)), l.items)
  {
  }

  /** The steps of a promotion together: `p1` without the dropped, `p2` with the ready ones promoted, `p3` capped. */
  lemma PromotedWhole(p: Pool, p1: Pool, p2: Pool, p3: Pool, a: Address, local: bool, cap: nat)
    requires a in p.queue && GoodList(p.queue[a], false, a) && a in p1.queue && GoodList(p1.queue[a], false, a)
    requires p1 == p.(queue := p1.queue, all := p1.all)
    requires var l := p.queue[a].(items := From(p.Q(a), p.chain.Nonce(a)));
             p1.queue == p.queue[a := Filtered(l, p.chain.Balance(a), p.chain.maxGas)]
    requires var e := ReadyEnd(p1.Q(a), p1.NextNonce(a));
             && p2.queue == p1.queue[a := p1.queue[a].(items := From(p1.Q(a), e))]
             && Promoting(p1, p2, a, Flatten(Below(p1.Q(a), e)))
    requires p3 == p2.(queue := p3.queue, all := p3.all)
    requires p3.queue == if local then p2.queue else p2.queue[a := p2.queue[a].(items := Lowest(p2.Q(a), cap))]
    ensures PromotedTo(p, CleanQueue(p3, a), a, local, cap) && OtherAccounts(p, CleanQueue(p3, a), a)
    ensures HasPending(p, a) ==> HasPending(CleanQueue(p3, a), a)
  {
    hide Flatten, ReadyEnd, Scanned, From, Below, Lowest, GoodList;
    hide Promoting, CleanQueue, PromotedTo, OtherAccounts, WithTxs;
    var e := ReadyEnd(p1.Q(a), p1.NextNonce(a));
    var txs := Flatten(Below(p1.Q(a), e));
    NotStrict(p.queue[a], a);
    PromotingAt(p1, p2, a, txs);
    PromotedElsewhere(p, p1, p2, p3, a, txs);
    CleanAt(p3, a, a);
    assert p3.Q(a) == if local then From(p1.Q(a), e) else Lowest(From(p1.Q(a), e), cap);
    PromotedIs(p, CleanQueue(p3, a), p1.queue[a], e, a, local, cap);
  }

  lemma PromotedIs(p: Pool, p': Pool, l: List, e: nat, a: Address, local: bool, cap: nat)
    requires GoodList(l, false, a) && l.items == Payable(p, a) && e == ReadyEnd(l.items, p.NextNonce(a))
    requires var txs := Flatten(Below(l.items, e));
             && p'.P(a) == WithTxs(p.P(a), txs)
             && p'.NextNonce(a) == (if txs == [] then p.NextNonce(a) else txs[|txs| - 1].nonce + 1)
    requires p'.Q(a) == if local then From(l.items, e) else Lowest(From(l.items, e), cap)
    ensures PromotedTo(p, p', a, local, cap)
  {
    hide Flatten, ReadyEnd, Scanned, From, Below, Lowest, WithTxs, GoodList, Payable;
    PromotedItems(p.P(a), l, e, a);
    ReadyNext(l.items, p.NextNonce(a));
  }

  lemma NotStrict(l: List, a: Address)
    requires GoodList(l, false, a)
    ensures !l.strict
  {
  }

  lemma PromotingAt(p: Pool, p': Pool, a: Address, txs: seq<Tx>)
    requires Promoting(p, p', a, txs)
    ensures p'.P(a) == WithTxs(p.P(a), txs) && (HasPending(p, a) ==> HasPending(p', a))
    ensures p'.NextNonce(a) == (if txs == [] then p.NextNonce(a) else txs[|txs| - 1].nonce + 1)
  {
  }

  lemma CleanAt(p: Pool, a: Address, b: Address)
    ensures CleanQueue(p, a).P(b) == p.P(b) && CleanQueue(p, a).Q(b) == p.Q(b)
    ensures CleanQueue(p, a).NextNonce(b) == p.NextNonce(b)
    ensures CleanQueue(p, a).chain == p.chain && (HasPending(p, b) ==> HasPending(CleanQueue(p, a), b))
  {
  }

  lemma PromotedElsewhere(p: Pool, p1: Pool, p2: Pool, p3: Pool, a: Address, txs: seq<Tx>)
    requires p1 == p.(queue := p1.queue, all := p1.all) && Promoting(p1, p2, a, txs)
    requires p3 == p2.(queue := p3.queue, all := p3.all)
    requires forall b :: b != a ==> SameEntry(p.queue, p3.queue, b)
    ensures OtherAccounts(p, CleanQueue(p3, a), a)
  {
    hide CleanQueue;
    CleanAt(p3, a, a);
    forall b | b != a
      ensures CleanQueue(p3, a).P(b) == p.P(b) && CleanQueue(p3, a).Q(b) == p.Q(b)
      ensures CleanQueue(p3, a).NextNonce(b) == p.NextNonce(b)
    {
      assert p1.P(b) == p.P(b) && p1.NextNonce(b) == p.NextNonce(b);
      assert p2.P(b) == p1.P(b) && p2.NextNonce(b) == p1.NextNonce(b);
      assert SameEntry(p.queue, p3.queue, b);
      CleanAt(p3, a, b);
    }
  }

  lemma PromotedItems(m: Items, l: List, e: nat, a: Address)
    requires GoodList(l, false, a)
    ensures Keyed(l.items) && WithTxs(m, Flatten(Below(l.items, e))) == m + Below(l.items, e)
  {
    WithFlattened(m, Below(l.items, e));
  }

  /** The last of the ready transactions comes just before their end. */
  lemma ReadyNext(q: Items, start: nat)
    requires Keyed(q)
    ensures var e := ReadyEnd(q, start);
            var ready := Flatten(Below(q, e));
            (e == 0 <==> ready == []) && (e > 0 ==> ready[|ready| - 1].nonce + 1 == e)
  {
    hide Flatten, ReadyEnd;
    ReadyIsMaximalRun(q, start);
    ReadyListed(q, start, 0);
    var ready := Flatten(Below(q, ReadyEnd(q, start)));
    if ready != [] {
      ReadyListed(q, start, |ready| - 1);
    }
  }

  lemma LeftLater(q: Items, e: nat, cap: nat)
    ensures forall n :: n in From(q, e) ==> e <= n && n in q
    ensures forall n :: n in Lowest(From(q, e), cap) ==> n in From(q, e)
  {
    hide Lowest;
    LowestIs(From(q, e), cap);
  }

  // ----- promoting many accounts -----

  ghost predicate Settled(p: Pool, a: Address) {
    PendingRun(p, a) && QueuedLater(p, a)
  }

  /** Account `a` after the accounts in `done` were promoted. */
  ghost predicate Promotes(p0: Pool, p: Pool, done: set<Address>, locals: set<Address>, cap: nat, a: Address) {
    if a in done then PromotedTo(p0, p, a, a in locals, cap)
    else p.P(a) == p0.P(a) && p.Q(a) == p0.Q(a) && p.NextNonce(a) == p0.NextNonce(a)
  }

  ghost predicate PromotedAll(p0: Pool, p: Pool, done: set<Address>, locals: set<Address>, cap: nat) {
    && p.chain == p0.chain
    && forall a {:trigger Promotes(p0, p, done, locals, cap, a)} :: Promotes(p0, p, done, locals, cap, a)
  }

  lemma PromotedNone(p: Pool, locals: set<Address>, cap: nat)
    ensures PromotedAll(p, p, {}, locals, cap)
  {
  }

  /** The accounts are promoted independently of each other. */
  lemma PromotedOneMore(p0: Pool, p: Pool, p': Pool, done: set<Address>, locals: set<Address>, cap: nat, a: Address)
    requires PromotedAll(p0, p, done, locals, cap) && a !in done
    requires OtherAccounts(p, p', a) && PromotedTo(p, p', a, a in locals, cap)
    ensures PromotedAll(p0, p', done + {a}, locals, cap)
  {
    hide PromotedTo;
    forall b ensures Promotes(p0, p', done + {a}, locals, cap, b) {
      assert Promotes(p0, p, done, locals, cap, b);
      if b == a {
        SameStart(p0, p, p', a, a in locals, cap);
      } else {
        assert p'.P(b) == p.P(b) && p'.Q(b) == p.Q(b) && p'.NextNonce(b) == p.NextNonce(b);
        SameEnd(p0, p, p', b, b in locals, cap);
      }
    }
  }

  lemma SameStart(p0: Pool, p: Pool, p': Pool, a: Address, local: bool, cap: nat)
    requires p.chain == p0.chain && p.P(a) == p0.P(a) && p.Q(a) == p0.Q(a) && p.NextNonce(a) == p0.NextNonce(a)
    requires PromotedTo(p, p', a, local, cap)
    ensures PromotedTo(p0, p', a, local, cap)
  {
  }

  lemma SameEnd(p0: Pool, p: Pool, p': Pool, a: Address, local: bool, cap: nat)
    requires p'.P(a) == p.P(a) && p'.Q(a) == p.Q(a) && p'.NextNonce(a) == p.NextNonce(a)
    ensures PromotedTo(p0, p, a, local, cap) ==> PromotedTo(p0, p', a, local, cap)
  {
  }

  // ----- demoting an account -----

  /** What stays pending: the payable run from the chain's nonce, or nothing if that nonce is missing. */
  function Executable(p: Pool, a: Address): Items {
    var m := Scanned(true, From(p.P(a), p.chain.Nonce(a)), p.chain.Balance(a), p.chain.maxGas);
    if p.chain.Nonce(a) in m then m else map[]
  }

  /** A pending transaction stays exactly if it is due and all from the chain's nonce up to it can be paid. */
  lemma ExecutableIs(p: Pool, a: Address)
    ensures forall n :: n in Executable(p, a) <==>
              && n in p.P(a) && p.chain.Nonce(a) <= n && p.chain.Nonce(a) in p.P(a)
              && forall k :: k in p.P(a) && p.chain.Nonce(a) <= k <= n ==>
                   p.P(a)[k].cost <= p.chain.Balance(a) && p.P(a)[k].gas <= p.chain.maxGas
    ensures forall n :: n in Executable(p, a) ==> Executable(p, a)[n] == p.P(a)[n]
  {
    var nonce, m := p.chain.Nonce(a), From(p.P(a), p.chain.Nonce(a));
    assert forall k :: k in p.P(a) && nonce <= k ==> k in m && m[k] == p.P(a)[k];
  }

  /** What is dropped: the too old and the too costly. */
  function Unusable(p: Pool, a: Address): set<Tx> {
    set tx | tx in Txs(p.P(a)) && (tx.nonce < p.chain.Nonce(a) || TooCostly(tx, p.chain.Balance(a), p.chain.maxGas))
  }

  /** The passes of a demotion together. */
  lemma DemotedIs(p: Pool, p1: Pool, p2: Pool, p3: Pool, a: Address)
    requires a in p.pending && a in p1.pending && a in p2.pending && a in p3.pending && GoodList(p.pending[a], true, a)
    requires p1.chain == p.chain && p2.chain == p.chain
    requires p1.pending[a] == p.pending[a].(items := From(p.P(a), p.chain.Nonce(a)))
    requires p1.all == p.all - (Txs(p.P(a)) - Txs(p1.P(a)))
    requires p2.pending[a] == Filtered(p1.pending[a], p.chain.Balance(a), p.chain.maxGas)
    requires p2.all == p1.all - set tx | tx in Txs(p1.P(a)) && TooCostly(tx, p.chain.Balance(a), p.chain.maxGas)
    requires if p2.P(a) == map[] || p.chain.Nonce(a) in p2.P(a) then p3 == p2 else p3.P(a) == map[] && p3.all == p2.all
    ensures p3.P(a) == Executable(p, a) && p3.all == p.all - Unusable(p, a)
  {
    forall tx ensures tx in Txs(p1.P(a)) <==> tx in Txs(p.P(a)) && tx.nonce >= p.chain.Nonce(a) {
      TxsHas(p.P(a), tx);
      TxsHas(p1.P(a), tx);
    }
    hide Txs;
    assert p3.all == p.all - Unusable(p, a);
  }

  /** The pool after all but the accounts in `todo` were demoted. */
  ghost predicate DemotedAll(p0: Pool, p: Pool, todo: set<Address>) {
    && p.chain == p0.chain
    && (forall a {:trigger p.P(a)} :: p.P(a) == if a in todo then p0.P(a) else Executable(p0, a))
    && (forall tx {:trigger tx in p.all} ::
         tx in p.all <==> tx in p0.all && (tx.from in todo || tx !in Unusable(p0, tx.from)))
  }

  lemma DemotedNone(p: Pool)
    requires Consistent(p, {}, {})
    ensures DemotedAll(p, p, p.pending.Keys)
  {
  }

  lemma DemotedOneMore(p0: Pool, p: Pool, p': Pool, todo: set<Address>, a: Address)
    requires Consistent(p0, {}, {}) && DemotedAll(p0, p, todo) && a in todo && OtherAccounts(p, p', a)
    requires p'.P(a) == Executable(p, a) && p'.all == p.all - Unusable(p, a)
    ensures DemotedAll(p0, p', todo - {a})
  {
    hide Consistent;
    assert p.P(a) == p0.P(a);
    assert Executable(p, a) == Executable(p0, a) && Unusable(p, a) == Unusable(p0, a);
    UnusableFrom(p0, a);
    hide Executable, Unusable;
    forall b ensures p'.P(b) == if b in todo - {a} then p0.P(b) else Executable(p0, b) {
      assert p.P(b) == if b in todo then p0.P(b) else Executable(p0, b);
    }
  }

  lemma UnusableFrom(p: Pool, a: Address)
    requires Consistent(p, {}, {})
    ensures forall tx :: tx in Unusable(p, a) ==> tx.from == a
  {
    assert AccountOk(p, {}, a);
    forall tx | tx in Unusable(p, a) ensures tx.from == a {
      TxsHas(p.P(a), tx);
    }
  }

  lemma StillPending(p: Pool, p': Pool, a: Address)
    requires Consistent(p, {}, {}) && Consistent(p', {}, {}) && OtherAccounts(p, p', a)
    ensures p.pending.Keys - {a} <= p'.pending.Keys
  {
    forall b | b in p.pending && b != a ensures b in p'.pending {
      assert AccountOk(p, {}, b);
      assert p'.P(b) == p.P(b);
    }
  }

  // ----- new transactions -----

  lemma SwapGapless(p: Pool, tx: Tx)
    requires Gapless(p) && tx.nonce in p.P(tx.from)
    ensures Gapless(Swapped(p, tx))
  {
    var p' := Swapped(p, tx);
    forall a ensures PendingRun(p', a) && QueuedLater(p', a) {
      assert PendingRun(p, a);
      assert p'.Q(a) == p.Q(a) && p'.P(a).Keys == p.P(a).Keys;
    }
  }

  lemma SwappedIs(p: Pool, tx: Tx)
    requires tx.nonce in p.P(tx.from)
    ensures Swapped(p, tx).IsPending(tx) && tx.from in p.pending
    ensures Swapped(p, tx) ==
            p.(pending := p.pending[tx.from := Added(p.pending[tx.from], tx)],
               all := p.all - {p.P(tx.from)[tx.nonce]} + {tx})
  {
  }

  /** A queued transaction that is not too old and not pending comes after the pending ones. */
  lemma QueuedAtEnd(p: Pool, p': Pool, tx: Tx, ok: bool)
    requires tx.nonce !in p.P(tx.from) && p.chain.Nonce(tx.from) <= tx.nonce
    requires p' == if ok then Enqueued(p, tx) else p
    ensures Gapless(p) ==> Gapless(p')
  {
    if ok && Gapless(p) {
      forall a ensures PendingRun(p', a) && QueuedLater(p', a) {
        assert PendingRun(p, a);
        assert p'.P(a) == p.P(a);
        assert p'.Q(a) == if a == tx.from then p.Q(a)[tx.nonce := tx] else p.Q(a);
      }
    }
  }

  lemma ReplacedIs(p: Pool, tx: Tx)
    requires Consistent(p, {}, {})
    ensures forall t ::
              t in Replaced(p.P(tx.from), tx) + Replaced(p.Q(tx.from), tx) ==> t.from == tx.from && t.nonce == tx.nonce
  {
    assert AccountOk(p, {}, tx.from);
  }

  /** What the pool knows after a transaction is queued, or takes the place of a pending one. */
  lemma EnteredIs(p: Pool, tx: Tx)
    requires Consistent(p, {}, {}) && tx !in p.all
    ensures Enqueued(p, tx).all == p.all - Replaced(p.Q(tx.from), tx) + {tx}
    ensures Swapped(p, tx).all == p.all - Replaced(p.P(tx.from), tx) + {tx}
    ensures p.all - Enqueued(p, tx).all == Replaced(p.Q(tx.from), tx)
    ensures p.all - Swapped(p, tx).all == Replaced(p.P(tx.from), tx)
    ensures (tx.nonce in p.Q(tx.from) <==> Replaced(p.Q(tx.from), tx) != {})
    ensures (tx.nonce in p.P(tx.from) <==> Replaced(p.P(tx.from), tx) != {})
  {
    Split(p, {}, {}, tx.from);
    forall t | t in Replaced(p.P(tx.from), tx) + Replaced(p.Q(tx.from), tx) ensures t in p.all {
      assert TxOk(p, {}, t);
    }
  }

  lemma CoverMore(items: multiset<Tx>, all: set<Tx>, tx: Tx)
    requires Covers(items, all, [])
    ensures Covers(items + multiset{tx}, all + {tx}, [])
  {
  }

  // ----- a new head -----

  lemma ChainAside(p: Pool, c: Chain, nonces: map<Address, nat>)
    requires Consistent(p, {}, {})
    ensures Consistent(p.(chain := c, pendingNonces := nonces), {}, {})
  {
    var p' := p.(chain := c, pendingNonces := nonces);
    assert forall a :: p'.P(a) == p.P(a) && p'.Q(a) == p.Q(a);
    forall a ensures AccountOk(p', {}, a) {
      assert AccountOk(p, {}, a);
    }
    forall tx ensures TxOk(p', {}, tx) {
      assert TxOk(p, {}, tx);
    }
  }

  /** The next nonce of an account follows on its last pending one, if it has one. */
  ghost predicate NonceRefreshed(p: Pool, nonces: map<Address, nat>, a: Address) {
    if a in p.pending then p.P(a) != map[] && a in p.pendingNonces && p.pendingNonces[a] == MaxOf(p.P(a).Keys) + 1
    else (a in p.pendingNonces <==> a in nonces) && (a in nonces ==> p.pendingNonces[a] == nonces[a])
  }

  ghost predicate Refreshing(p: Pool, nonces: map<Address, nat>, todo: set<Address>) {
    forall a {:trigger NonceRefreshed(p, nonces, a)} :: a !in todo ==> NonceRefreshed(p, nonces, a)
  }

  lemma RefreshStarts(p: Pool)
    ensures Refreshing(p, p.pendingNonces, p.pending.Keys)
  {
  }

  lemma RefreshStep(p: Pool, nonces: map<Address, nat>, todo: set<Address>, a: Address)
    requires Refreshing(p, nonces, todo) && a in p.pending && Keyed(p.P(a)) && p.P(a) != map[]
    ensures var txs := Flatten(p.P(a));
            |txs| > 0 &&
            Refreshing(p.(pendingNonces := p.pendingNonces[a := txs[|txs| - 1].nonce + 1]), nonces, todo - {a})
  {
    hide Flatten;
    var top := MaxOf(p.P(a).Keys);
    FlattenTop(p.P(a), top);
    var p' := p.(pendingNonces := p.pendingNonces[a := top + 1]);
    assert p.P(a)[top].nonce == top;
    forall b | b !in todo - {a} ensures NonceRefreshed(p', nonces, b) {
      assert b != a ==> NonceRefreshed(p, nonces, b);
      assert p'.P(b) == p.P(b);
    }
  }

  lemma RefreshEnds(p: Pool, nonces: map<Address, nat>)
    requires Refreshing(p, nonces, {})
    ensures forall a {:trigger NonceRefreshed(p, nonces, a)} :: NonceRefreshed(p, nonces, a)
  {
  }
}
