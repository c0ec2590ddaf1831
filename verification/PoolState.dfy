/**
The lists of the transaction pool and what its operations keep of them.

While an operation is under way some transactions are in limbo: still known to the pool, but in
neither of the lists of their account. An account being worked on may also hold an empty list.
*/
module PoolState {
  import opened TxSpec
  import opened TxSortedMap
  import opened TxList

  /** The chain state the pool is validated against. */
  datatype Chain = Chain(nonces: map<Address, nat>, balances: map<Address, int>, maxGas: nat) {
    function Nonce(a: Address): nat {
      if a in nonces then nonces[a] else 0
    }

    function Balance(a: Address): int {
      if a in balances then balances[a] else 0
    }
  }

  datatype Pool = Pool(
    chain: Chain,
    pending: map<Address, List>,
    queue: map<Address, List>,
    all: set<Tx>,
    pendingNonces: map<Address, nat>
  ) {
    function P(a: Address): Items {
      if a in pending then pending[a].items else map[]
    }

    function Q(a: Address): Items {
      if a in queue then queue[a].items else map[]
    }

    /** The next nonce of an account, counting its pending transactions. */
    function NextNonce(a: Address): nat {
      if a in pendingNonces then pendingNonces[a] else chain.Nonce(a)
    }

    predicate IsPending(tx: Tx) {
      tx.nonce in P(tx.from) && P(tx.from)[tx.nonce] == tx
    }

    predicate IsQueued(tx: Tx) {
      tx.nonce in Q(tx.from) && Q(tx.from)[tx.nonce] == tx
    }
  }

  // ----- the invariant -----

  ghost predicate GoodList(l: List, strict: bool, a: Address) {
    Good(l) && l.strict == strict && forall n :: n in l.items ==> l.items[n].from == a
  }

  /** The lists of one account: well formed, disjoint, and not empty unless it is being worked on. */
  ghost predicate AccountOk(p: Pool, busy: set<Address>, a: Address) {
    && (a in p.pending ==> GoodList(p.pending[a], true, a) && (a in busy || p.pending[a].items != map[]))
    && (a in p.queue ==> GoodList(p.queue[a], false, a) && (a in busy || p.queue[a].items != map[]))
    && (forall n :: n in p.P(a) ==> n !in p.Q(a))
  }

  /** The pool knows exactly what is in its lists and in limbo. */
  ghost predicate TxOk(p: Pool, limbo: set<Tx>, tx: Tx) {
    tx in p.all <==> p.IsPending(tx) || p.IsQueued(tx) || tx in limbo
  }

  ghost predicate LimboOk(p: Pool, limbo: set<Tx>) {
    && (forall tx :: tx in limbo ==> tx.nonce !in p.P(tx.from) && tx.nonce !in p.Q(tx.from))
    && (forall s, t :: s in limbo && t in limbo && s.from == t.from && s.nonce == t.nonce ==> s == t)
  }

  ghost predicate Consistent(p: Pool, limbo: set<Tx>, busy: set<Address>) {
    && (forall a {:trigger AccountOk(p, busy, a)} :: AccountOk(p, busy, a))
    && (forall tx {:trigger TxOk(p, limbo, tx)} :: TxOk(p, limbo, tx))
    && LimboOk(p, limbo)
  }

  // ----- the steps operations are made of -----

  /** Only account `a` is touched: its lists, and transactions from it. */
  ghost predicate Elsewhere(p: Pool, p': Pool, limbo: set<Tx>, limbo': set<Tx>, a: Address) {
    && (forall b ::
         b != a ==> (b in p'.pending <==> b in p.pending) && (b in p.pending ==> p'.pending[b] == p.pending[b]))
    && (forall b :: b != a ==> (b in p'.queue <==> b in p.queue) && (b in p.queue ==> p'.queue[b] == p.queue[b]))
    && (forall tx: Tx :: tx.from != a ==> (tx in p'.all <==> tx in p.all) && (tx in limbo' <==> tx in limbo))
  }

  /** The part of consistency that concerns account `a`. */
  ghost predicate Here(p: Pool, limbo: set<Tx>, busy: set<Address>, a: Address) {
    && AccountOk(p, busy, a)
    && (forall tx: Tx {:trigger TxOk(p, limbo, tx)} :: tx.from == a ==> TxOk(p, limbo, tx))
    && (forall tx: Tx :: tx in limbo && tx.from == a ==> tx.nonce !in p.P(a) && tx.nonce !in p.Q(a))
    && (forall s: Tx, t: Tx :: s in limbo && t in limbo && s.from == t.from == a && s.nonce == t.nonce ==> s == t)
  }

  lemma Split(p: Pool, limbo: set<Tx>, busy: set<Address>, a: Address)
    requires Consistent(p, limbo, busy)
    ensures Here(p, limbo, busy, a)
  {
    assert AccountOk(p, busy, a);
  }

  lemma Join(p: Pool, p': Pool, limbo: set<Tx>, limbo': set<Tx>, busy: set<Address>, busy': set<Address>, a: Address)
    requires Consistent(p, limbo, busy) && Elsewhere(p, p', limbo, limbo', a) && busy <= busy' + {a}
    requires Here(p', limbo', busy', a)
    ensures Consistent(p', limbo', busy')
  {
    forall b ensures AccountOk(p', busy', b) {
      assert AccountOk(p, busy, b);
      assert b != a ==> p'.P(b) == p.P(b) && p'.Q(b) == p.Q(b);
    }
    forall tx ensures TxOk(p', limbo', tx) {
      assert TxOk(p, limbo, tx);
      assert tx.from != a ==> p'.P(tx.from) == p.P(tx.from) && p'.Q(tx.from) == p.Q(tx.from);
    }
    forall tx | tx in limbo' ensures tx.nonce !in p'.P(tx.from) && tx.nonce !in p'.Q(tx.from) {
      assert tx.from != a ==> p'.P(tx.from) == p.P(tx.from) && p'.Q(tx.from) == p.Q(tx.from);
    }
  }

  function WithQueue(p: Pool, a: Address, l: List): Pool {
    p.(queue := p.queue[a := l])
  }

  function WithPending(p: Pool, a: Address, l: List): Pool {
    p.(pending := p.pending[a := l])
  }

  ghost predicate Shorter(l: List, m: Items) {
    forall n :: n in l.items ==> n in m && l.items[n] == m[n]
  }

  /** Shortening a queue list puts what it loses in limbo. */
  lemma ShortenQueue(p: Pool, limbo: set<Tx>, busy: set<Address>, a: Address, l: List)
    requires Consistent(p, limbo, busy) && a in p.queue
    requires GoodList(l, false, a) && Shorter(l, p.Q(a))
    ensures Consistent(WithQueue(p, a, l), limbo + (Txs(p.Q(a)) - Txs(l.items)), busy + {a})
  {
    hide Consistent;
    hide Txs;
    Split(p, limbo, busy, a);
    var p', limbo' := WithQueue(p, a, l), limbo + (Txs(p.Q(a)) - Txs(l.items));
    assert p'.P(a) == p.P(a);
    ShortenTxs(p.Q(a), l, a);
    forall tx: Tx | tx.from == a ensures TxOk(p', limbo', tx) {
      assert TxOk(p, limbo, tx);
    }
    assert Here(p', limbo', busy + {a}, a);
    Join(p, p', limbo, limbo', busy, busy + {a}, a);
  }

  /** What a shortened list loses: transactions of its account, one for each nonce. */
  lemma ShortenTxs(m: Items, l: List, a: Address)
    requires Keyed(m) && Keyed(l.items) && Shorter(l, m) && forall n :: n in m ==> m[n].from == a
    ensures forall tx: Tx :: tx in Txs(m) - Txs(l.items) <==> tx.nonce in m && m[tx.nonce] == tx && tx.nonce !in l.items
    ensures forall tx: Tx :: tx in Txs(m) - Txs(l.items) ==> tx.from == a
  {
    forall tx: Tx ensures tx in Txs(m) - Txs(l.items) <==> tx.nonce in m && m[tx.nonce] == tx && tx.nonce !in l.items {
      TxsHas(m, tx);
      TxsHas(l.items, tx);
    }
  }

  lemma ShortenPending(p: Pool, limbo: set<Tx>, busy: set<Address>, a: Address, l: List)
    requires Consistent(p, limbo, busy) && a in p.pending
    requires GoodList(l, true, a) && Shorter(l, p.P(a))
    ensures Consistent(WithPending(p, a, l), limbo + (Txs(p.P(a)) - Txs(l.items)), busy + {a})
  {
    hide Consistent;
    hide Txs;
    Split(p, limbo, busy, a);
    var p', limbo' := WithPending(p, a, l), limbo + (Txs(p.P(a)) - Txs(l.items));
    assert p'.Q(a) == p.Q(a);
    ShortenTxs(p.P(a), l, a);
    forall tx: Tx | tx.from == a ensures TxOk(p', limbo', tx) {
      assert TxOk(p, limbo, tx);
    }
    assert Here(p', limbo', busy + {a}, a);
    Join(p, p', limbo, limbo', busy, busy + {a}, a);
  }

  /** Transactions in limbo can be forgotten. */
  lemma Forget(p: Pool, limbo: set<Tx>, busy: set<Address>, gone: set<Tx>)
    requires Consistent(p, limbo, busy) && gone <= limbo
    ensures Consistent(p.(all := p.all - gone), limbo - gone, busy)
  {
    var p' := p.(all := p.all - gone);
    assert forall a :: p'.P(a) == p.P(a) && p'.Q(a) == p.Q(a);
    forall a ensures AccountOk(p', busy, a) {
      assert AccountOk(p, busy, a);
    }
    forall tx ensures TxOk(p', limbo - gone, tx) {
      assert TxOk(p, limbo, tx);
    }
  }

  function QueueOf(p: Pool, a: Address): List {
    if a in p.queue then p.queue[a] else Empty(false)
  }

  function PendingOf(p: Pool, a: Address): List {
    if a in p.pending then p.pending[a] else Empty(true)
  }

  /** A transaction leaves limbo for the queue. */
  lemma EnqueueLimbo(p: Pool, limbo: set<Tx>, busy: set<Address>, tx: Tx)
    requires Consistent(p, limbo, busy) && tx in limbo
    ensures tx.nonce !in QueueOf(p, tx.from).items
    ensures Consistent(WithQueue(p, tx.from, Added(QueueOf(p, tx.from), tx)), limbo - {tx}, busy)
  {
    hide Consistent, Here;
    Split(p, limbo, busy, tx.from);
    EnqueueHere(p, limbo, busy, tx);
    Join(p, WithQueue(p, tx.from, Added(QueueOf(p, tx.from), tx)), limbo, limbo - {tx}, busy, busy, tx.from);
  }

  lemma EnqueueHere(p: Pool, limbo: set<Tx>, busy: set<Address>, tx: Tx)
    requires Here(p, limbo, busy, tx.from) && tx in limbo
    ensures tx.nonce !in QueueOf(p, tx.from).items
    ensures Here(WithQueue(p, tx.from, Added(QueueOf(p, tx.from), tx)), limbo - {tx}, busy, tx.from)
  {
    var a, l := tx.from, Added(QueueOf(p, tx.from), tx);
    AddedGood(QueueOf(p, a), tx);
    var p', limbo' := WithQueue(p, a, l), limbo - {tx};
    assert p'.P(a) == p.P(a) && p'.Q(a) == p.Q(a)[tx.nonce := tx];
    assert tx.nonce in l.items;
    forall t: Tx | t.from == a ensures TxOk(p', limbo', t) {
      assert TxOk(p, limbo, t);
    }
  }

  /** A transaction leaves limbo for the pending list. */
  lemma PromoteLimbo(p: Pool, limbo: set<Tx>, busy: set<Address>, tx: Tx)
    requires Consistent(p, limbo, busy) && tx in limbo
    ensures tx.nonce !in PendingOf(p, tx.from).items
    ensures Consistent(WithPending(p, tx.from, Added(PendingOf(p, tx.from), tx)), limbo - {tx}, busy)
  {
    hide Consistent, Here;
    Split(p, limbo, busy, tx.from);
    PromoteHere(p, limbo, busy, tx);
    Join(p, WithPending(p, tx.from, Added(PendingOf(p, tx.from), tx)), limbo, limbo - {tx}, busy, busy, tx.from);
  }

  lemma PromoteHere(p: Pool, limbo: set<Tx>, busy: set<Address>, tx: Tx)
    requires Here(p, limbo, busy, tx.from) && tx in limbo
    ensures tx.nonce !in PendingOf(p, tx.from).items
    ensures Here(WithPending(p, tx.from, Added(PendingOf(p, tx.from), tx)), limbo - {tx}, busy, tx.from)
  {
    var a, l := tx.from, Added(PendingOf(p, tx.from), tx);
    AddedGood(PendingOf(p, a), tx);
    var p', limbo' := WithPending(p, a, l), limbo - {tx};
    assert p'.Q(a) == p.Q(a) && p'.P(a) == p.P(a)[tx.nonce := tx];
    assert tx.nonce in l.items;
    forall t: Tx | t.from == a ensures TxOk(p', limbo', t) {
      assert TxOk(p, limbo, t);
    }
  }

  function CleanQueue(p: Pool, a: Address): Pool {
    if a in p.queue && p.queue[a].items == map[] then p.(queue := p.queue - {a}) else p
  }

  function CleanPending(p: Pool, a: Address): Pool {
    if a in p.pending && p.pending[a].items == map[] then p.(pending := p.pending - {a}) else p
  }

  /** Deleting an empty list changes nothing but ends the work on the account. */
  lemma CleanKeeps(p: Pool, p': Pool, limbo: set<Tx>, busy: set<Address>, a: Address)
    requires Consistent(p, limbo, busy) && (p' == CleanQueue(p, a) || p' == CleanPending(p, a))
    ensures Consistent(p', limbo, busy)
    ensures (a in p'.pending ==> p'.P(a) != map[]) && (a in p'.queue ==> p'.Q(a) != map[]) ==>
              Consistent(p', limbo, busy - {a})
  {
    hide Consistent, Here;
    Split(p, limbo, busy, a);
    CleanHere(p, p', limbo, busy, a);
    Join(p, p', limbo, limbo, busy, busy, a);
    if (a in p'.pending ==> p'.P(a) != map[]) && (a in p'.queue ==> p'.Q(a) != map[]) {
      Join(p, p', limbo, limbo, busy, busy - {a}, a);
    }
  }

  lemma CleanHere(p: Pool, p': Pool, limbo: set<Tx>, busy: set<Address>, a: Address)
    requires Here(p, limbo, busy, a) && (p' == CleanQueue(p, a) || p' == CleanPending(p, a))
    ensures Here(p', limbo, busy, a)
    ensures (a in p'.pending ==> p'.P(a) != map[]) && (a in p'.queue ==> p'.Q(a) != map[]) ==>
              Here(p', limbo, busy - {a}, a)
  {
    assert p'.P(a) == p.P(a) && p'.Q(a) == p.Q(a);
    forall t: Tx | t.from == a ensures TxOk(p', limbo, t) {
      assert TxOk(p, limbo, t);
    }
  }

  /** What the transaction `tx` replaces in the items `m`. */
  function Replaced(m: Items, tx: Tx): set<Tx> {
    if tx.nonce in m then {m[tx.nonce]} else {}
  }

  function Enqueued(p: Pool, tx: Tx): Pool {
    WithQueue(p, tx.from, Added(QueueOf(p, tx.from), tx)).(all := p.all - Replaced(p.Q(tx.from), tx) + {tx})
  }

  function Swapped(p: Pool, tx: Tx): Pool {
    WithPending(p, tx.from, Added(PendingOf(p, tx.from), tx)).(all := p.all - Replaced(p.P(tx.from), tx) + {tx})
  }

  /** A new transaction joins the queue, in place of one with its nonce if there is one. */
  lemma EnqueueNew(p: Pool, busy: set<Address>, tx: Tx)
    requires Consistent(p, {}, busy) && tx !in p.all && tx.nonce !in p.P(tx.from)
    ensures Consistent(Enqueued(p, tx), {}, busy)
  {
    hide Consistent, Here;
    Split(p, {}, busy, tx.from);
    EnqueueNewHere(p, busy, tx);
    Join(p, Enqueued(p, tx), {}, {}, busy, busy, tx.from);
  }

  lemma EnqueueNewHere(p: Pool, busy: set<Address>, tx: Tx)
    requires Here(p, {}, busy, tx.from) && tx !in p.all && tx.nonce !in p.P(tx.from)
    ensures Here(Enqueued(p, tx), {}, busy, tx.from)
    ensures forall t: Tx :: t in Replaced(p.Q(tx.from), tx) ==> t.from == tx.from
  {
    var a, l := tx.from, Added(QueueOf(p, tx.from), tx);
    AddedGood(QueueOf(p, a), tx);
    var p' := Enqueued(p, tx);
    assert p'.P(a) == p.P(a) && p'.Q(a) == p.Q(a)[tx.nonce := tx];
    assert tx.nonce in l.items;
    forall t: Tx | t.from == a ensures TxOk(p', {}, t) {
      assert TxOk(p, {}, t);
    }
  }

  /** A new transaction takes the place of a pending one. */
  lemma ReplacePending(p: Pool, busy: set<Address>, tx: Tx)
    requires Consistent(p, {}, busy) && tx !in p.all && tx.nonce in p.P(tx.from)
    ensures Consistent(Swapped(p, tx), {}, busy)
  {
    hide Consistent, Here;
    Split(p, {}, busy, tx.from);
    ReplaceHere(p, busy, tx);
    Join(p, Swapped(p, tx), {}, {}, busy, busy, tx.from);
  }

  lemma ReplaceHere(p: Pool, busy: set<Address>, tx: Tx)
    requires Here(p, {}, busy, tx.from) && tx !in p.all && tx.nonce in p.P(tx.from)
    ensures Here(Swapped(p, tx), {}, busy, tx.from)
    ensures forall t: Tx :: t in Replaced(p.P(tx.from), tx) ==> t.from == tx.from
  {
    var a, l := tx.from, Added(PendingOf(p, tx.from), tx);
    AddedGood(PendingOf(p, a), tx);
    var p' := Swapped(p, tx);
    assert p'.Q(a) == p.Q(a) && p'.P(a) == p.P(a)[tx.nonce := tx];
    assert tx.nonce in l.items;
    forall t: Tx | t.from == a ensures TxOk(p', {}, t) {
      assert TxOk(p, {}, t);
    }
  }

  // ----- nonces without gaps -----

  /** The pending nonces of an account run from its nonce in the chain to its next nonce. */
  ghost predicate PendingRun(p: Pool, a: Address) {
    p.chain.Nonce(a) <= p.NextNonce(a) && Interval(p.P(a), p.chain.Nonce(a), p.NextNonce(a))
  }

  ghost predicate QueuedLater(p: Pool, a: Address) {
    forall n :: n in p.Q(a) ==> p.NextNonce(a) <= n
  }

  /** No account has a gap: every queued transaction comes after the pending ones. */
  ghost predicate Gapless(p: Pool) {
    forall a {:trigger PendingRun(p, a)} :: PendingRun(p, a) && QueuedLater(p, a)
  }
}
