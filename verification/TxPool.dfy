/**
The transaction pool: executable transactions are pending, the others queued, and every known
transaction is in exactly one of the two lists of its account.
*/
module TxPool {
  import opened Wrappers
  import opened TxSpec
  import opened TxSortedMap
  import opened TxList
  import opened TxPriced
  import opened PoolState
  import opened PoolSteps
  import opened PoolFairness
  import opened PoolQueue
  import opened PoolGaps
  import opened PoolEntry
  import opened PoolTaking
  import opened PoolPrompt

  // ----- list operations on values, by way of the list object -----

  method Load(m: Items) returns (l: SortedMap)
    requires Keyed(m)
    ensures fresh(l) && l.Valid() && l.items == m
  {
    hide Flatten, Heap, Indexes;
    l := new SortedMap();
    var todo := m.Keys;
    while todo != {}
      invariant todo <= m.Keys && l.Valid() && fresh(l)
      invariant forall n :: n in l.items <==> n in m && n !in todo
      invariant forall n :: n in l.items ==> l.items[n] == m[n]
      decreases |todo|
    {
      var n :| n in todo;
      l.Put(m[n]);
      todo := todo - {n};
    }
  }

  method TakeReady(m: Items, start: nat) returns (rest: Items, ready: seq<Tx>)
    requires Keyed(m)
    ensures rest == From(m, ReadyEnd(m, start)) && ready == Flatten(Below(m, ReadyEnd(m, start)))
  {
    var l := Load(m);
    ready := l.Ready(start);
    rest := l.items;
  }

  method TakeLowest(m: Items, n: nat) returns (rest: Items)
    requires Keyed(m)
    ensures rest == Lowest(m, n)
  {
    var l := Load(m);
    var _ := l.Cap(n);
    rest := l.items;
  }

  method Listed(m: Items) returns (txs: seq<Tx>)
    requires Keyed(m)
    ensures txs == Flatten(m)
  {
    var l := Load(m);
    txs := l.FlattenSorted();
  }

  method TakeFrom(m: Items, n: nat) returns (rest: Items)
    requires Keyed(m)
    ensures rest == From(m, n)
  {
    var l := Load(m);
    var _ := l.Forward(n);
    rest := l.items;
  }

  method LoadList(l: List) returns (o: ListObject)
    requires Good(l)
    ensures fresh(o) && fresh(o.txs) && o.Valid() && o.Value() == l
  {
    var txs := Load(l.items);
    o := new ListObject.Of(l, txs);
  }

  method AddToList(l: List, tx: Tx, bump: nat) returns (ok: bool, replaced: Option<Tx>, l': List)
    requires Good(l)
    ensures ok == Accepts(l, tx, bump) && l' == (if ok then Added(l, tx) else l)
    ensures replaced == if ok && tx.nonce in l.items then Some(l.items[tx.nonce]) else None
  {
    var o := LoadList(l);
    ok, replaced := o.Add(tx, bump);
    l' := List(o.strict, o.txs.items, o.costcap, o.gascap);
  }

  /** The filtered list, and what the limits exclude of it. */
  method FilterList(l: List, costLimit: int, gasLimit: nat) returns (drops: set<Tx>, l': List)
    requires Good(l)
    ensures l' == Filtered(l, costLimit, gasLimit)
    ensures drops == set tx | tx in Txs(l.items) && TooCostly(tx, costLimit, gasLimit)
  {
    hide Txs, Filtered, TooCostly;
    var o := LoadList(l);
    var removed, _ := o.Filter(costLimit, gasLimit);
    drops := set tx | tx in removed;
    l' := List(o.strict, o.txs.items, o.costcap, o.gascap);
  }

  /** The list without a transaction, and what is no longer valid without it. */
  method RemoveFromList(l: List, tx: Tx) returns (invalids: set<Tx>, l': List)
    requires Good(l) && tx.nonce in l.items
    ensures l' == Removed(l, tx.nonce) && invalids == Txs(l.items) - Txs(l'.items) - {l.items[tx.nonce]}
  {
    hide Txs, Removed;
    var o := LoadList(l);
    var _, rest := o.Remove(tx);
    invalids := set t | t in rest;
    l' := List(o.strict, o.txs.items, o.costcap, o.gascap);
    assert forall t :: t in rest <==> t in multiset(rest);
  }

  /** A reset, stage by stage: transactions are taken back, then accounts demoted, refreshed and promoted. */
  datatype Stages = Stages(
    errs: seq<Option<Error>>,
    taken: Batched,
    added: Pool,
    demoted: Pool,
    refreshed: Pool,
    promoted: Pool,
    level: nat
  )

  /** The pool between two operations, and what an operation did in between. */
  datatype Moment = Moment(held: Held, gasPrice: int)

  datatype Step = Step(before: Moment, after: Moment, errs: seq<Option<Error>>, taken: Batched, stages: Stages)

  /** What can happen to a pool. */
  datatype Operation =
    | AddOne(arrival: Incoming, local: bool, beats: Beats)
    | AddMany(arrivals: seq<Incoming>, local: bool, beats: Beats)
    | Price(price: int)
    | Expire(expired: set<Address>)
    | NewHead(state: Option<Chain>, reinject: seq<Incoming>, beats: Beats)

  class TxPool {
    const cfg: Config
    const priced: PricedList
    var chain: Chain
    var pending: map<Address, List>
    var queue: map<Address, List>
    var all: set<Tx>
    var pendingNonces: map<Address, nat>
    var locals: set<Address>
    var gasPrice: int

    ghost function View(): Pool
      reads `chain, `pending, `queue, `all, `pendingNonces
    {
      Pool(chain, pending, queue, all, pendingNonces)
    }

    /** The invariant while an operation is under way. */
    ghost predicate Working(limbo: set<Tx>, busy: set<Address>, popped: seq<Tx>)
      reads `chain, `pending, `queue, `all, `pendingNonces, priced
    {
      Consistent(View(), limbo, busy) && Covers(priced.items, all, popped)
    }

    /** Every transaction that is not local pays at least the price of the pool. */
    ghost predicate AllPay()
      reads `all, `locals, `gasPrice
    {
      forall t :: t in all ==> t.from in locals || t.price >= gasPrice
    }

    /** The invariant between operations. */
    ghost predicate Valid()
      reads `chain, `pending, `queue, `all, `pendingNonces, priced
    {
      Working({}, {}, [])
    }

    constructor (cfg: Config, chain: Chain, priceLimit: int)
      ensures Valid() && Gapless(View()) && fresh(priced) && View() == Pool(chain, map[], map[], {}, map[])
      ensures this.cfg == cfg && gasPrice == priceLimit && locals == {}
      ensures AllPay() && Mineable(View()) && Prompt(View())
    {
      this.cfg, this.chain, gasPrice := cfg, chain, priceLimit;
      pending, queue, all, pendingNonces, locals := map[], map[], {}, map[], {};
      priced := new PricedList();
      new;
      forall a ensures AccountOk(View(), {}, a) && PendingRun(View(), a) && QueuedLater(View(), a) {
      }
      forall tx ensures TxOk(View(), {}, tx) {
      }
    }

    /** Transactions are forgotten one by one; the price heap is told about each. */
    method DeleteAll(gone: set<Tx>, ghost popped: seq<Tx>)
      requires Covers(priced.items, all, popped)
      modifies `all, priced
      ensures Covers(priced.items, all, popped) && all == old(all) - gone
    {
      hide Covers;
      var todo := gone;
      while todo != {}
        invariant Covers(priced.items, all, popped)
        invariant todo <= gone && forall t :: t in all <==> t in old(all) && (t in gone ==> t in todo)
        decreases |todo|
      {
        var tx :| tx in todo;
        CoverForget(priced.items, all, tx, popped);
        todo := todo - {tx};
        all := all - {tx};
        priced.Removed(all);
      }
    }

    /** Transactions in limbo are forgotten. */
    method ForgetAll(gone: set<Tx>, ghost limbo: set<Tx>, ghost busy: set<Address>, ghost popped: seq<Tx>)
      requires Working(limbo, busy, popped) && gone <= limbo
      modifies `all, priced
      ensures Working(limbo - gone, busy, popped) && all == old(all) - gone
    {
      hide Consistent, Covers;
      DeleteAll(gone, popped);
      Forget(old(View()), limbo, busy, gone);
    }

    /** A transaction goes to the queue of its account, replacing a worse one with its nonce. */
    method EnqueueTx(tx: Tx, ghost limbo: set<Tx>, ghost busy: set<Address>, ghost popped: seq<Tx>)
      returns (replaced: bool, ok: bool)
      requires Working(limbo, busy, popped)
      requires tx in limbo || (limbo == {} && tx !in all && tx.nonce !in View().P(tx.from))
      modifies `queue, `all, priced
      ensures ok == Accepts(QueueOf(old(View()), tx.from), tx, cfg.priceBump)
      ensures replaced == (ok && tx.nonce in old(View()).Q(tx.from))
      ensures View() == if !ok then old(View())
                        else if tx !in limbo then Enqueued(old(View()), tx)
                        else WithQueue(old(View()), tx.from, Added(QueueOf(old(View()), tx.from), tx))
      ensures Working(limbo - {tx}, busy, popped) && (tx in limbo ==> ok && !replaced)
    {
      hide Consistent, Added, Good, Replaceable;
      var l := if tx.from in queue then queue[tx.from] else Empty(false);
      QueueGood(View(), limbo, busy, tx.from);
      var prev, l';
      ok, prev, l' := AddToList(l, tx, cfg.priceBump);
      if !ok {
        if tx in limbo {
          EnqueueLimbo(View(), limbo, busy, tx);
        }
        assert limbo - {tx} == limbo;
        return false, false;
      }
      if tx in limbo {
        EnqueueLimbo(View(), limbo, busy, tx);
        LimboKnown(View(), limbo, busy, tx);
      } else {
        EnqueueNew(View(), busy, tx);
        assert limbo - {tx} == limbo;
      }
      queue := queue[tx.from := l'];
      replaced := prev.Some?;
      if replaced {
        all := all - {prev.value};
        priced.Removed(all);
      }
      if tx !in all {
        all := all + {tx};
        priced.Put(tx);
      }
    }

    /** A transaction leaves limbo for the pending list of its account, and is its newest one. */
    method PromoteTx(tx: Tx, ghost limbo: set<Tx>, ghost busy: set<Address>, ghost popped: seq<Tx>)
      requires Working(limbo, busy, popped) && tx in limbo
      modifies `pending, `pendingNonces, `all, priced
      ensures View() == WithPending(old(View()), tx.from, Added(PendingOf(old(View()), tx.from), tx))
                        .(pendingNonces := old(pendingNonces)[tx.from := tx.nonce + 1])
      ensures Working(limbo - {tx}, busy, popped)
    {
      hide Consistent;
      var l := if tx.from in pending then pending[tx.from] else Empty(true);
      PromoteLimbo(View(), limbo, busy, tx);
      LimboKnown(View(), limbo, busy, tx);
      PendingGood(View(), limbo, busy, tx.from);
      var ok, prev, l' := AddToList(l, tx, cfg.priceBump);
      // There is never a better transaction to keep instead, nor an unknown one to register.
      assert ok && prev == None && tx in all;
      pending := pending[tx.from := l'];
      pendingNonces := pendingNonces[tx.from := tx.nonce + 1];
      NoncesAside(WithPending(old(View()), tx.from, Added(l, tx)), limbo - {tx}, busy, pendingNonces);
    }

    /** Known transactions, in limbo, all go to the queue. */
    method EnqueueAll(txs: set<Tx>, ghost limbo: set<Tx>, ghost busy: set<Address>, ghost popped: seq<Tx>)
      requires Working(limbo, busy, popped) && txs <= limbo
      modifies `queue, `all, priced
      ensures Working(limbo - txs, busy, popped) && all == old(all)
      ensures forall a: Address, n: nat :: n in View().Q(a) ==> n in old(View()).Q(a) || Names(txs, a, n)
      ensures forall a :: HasQueued(old(View()), a) ==> HasQueued(View(), a)
      ensures forall a {:trigger SameEntry(old(queue), queue, a)} ::
                NoneFrom(txs, a) ==> SameEntry(old(queue), queue, a)
    {
      hide Consistent, Covers;
      var todo := txs;
      ghost var left := limbo;
      while todo != {}
        invariant todo <= txs && left == limbo - (txs - todo) && Working(left, busy, popped) && all == old(all)
        invariant forall a: Address, n: nat :: n in View().Q(a) ==> n in old(View()).Q(a) || Names(txs, a, n)
        invariant forall a :: HasQueued(old(View()), a) ==> HasQueued(View(), a)
        invariant forall a {:trigger SameEntry(old(queue), queue, a)} ::
                    NoneFrom(txs, a) ==> SameEntry(old(queue), queue, a)
        decreases |todo|
      {
        var tx :| tx in todo;
        ghost var p := View();
        todo := todo - {tx};
        var _, _ := EnqueueTx(tx, left, busy, popped);
        left := left - {tx};
        QueueGrows(p, View(), tx);
        assert Names(txs, tx.from, tx.nonce);
        forall a | NoneFrom(txs, a) ensures SameEntry(old(queue), queue, a) {
          assert SameEntry(old(queue), p.queue, a);
        }
      }
      assert limbo - (txs - {}) == limbo - txs;
    }

    /**
    A transaction leaves the pool. If it was pending, the pending ones after it are no longer
    executable and go back to the queue.
    */
    method RemoveTx(tx: Tx, outofbound: bool, ghost popped: seq<Tx>)
      requires Working({}, {}, popped)
      modifies `pending, `queue, `all, `pendingNonces, priced
      ensures Working({}, {}, popped) && all == old(all) - {tx}
      ensures Gapless(old(View())) ==> Gapless(View())
      ensures Leaves(old(View()), View(), tx)
    {
      hide Consistent, Covers, Gapless;
      if tx !in all {
        return;
      }
      var a := tx.from;
      CoverForget(priced.items, all, tx, popped);
      all := all - {tx};
      if outofbound {
        priced.Removed(all);
      }
      if a in pending && tx.nonce in pending[a].items {
        RemoveFromPending(tx, old(View()), popped);
      } else {
        RemoveFromQueue(tx, old(View()), popped);
      }
    }

    method RemoveFromPending(tx: Tx, ghost p: Pool, ghost popped: seq<Tx>)
      requires Consistent(p, {}, {}) && tx in p.all && tx.nonce in p.P(tx.from)
      requires View() == p.(all := p.all - {tx}) && Covers(priced.items, all, popped)
      modifies `pending, `queue, `all, `pendingNonces, priced
      ensures Working({}, {}, popped) && all == old(all)
      ensures PendingCut(p, View(), tx)
      ensures Gapless(p) ==> Gapless(View())
    {
      hide Consistent, Covers, Gapless, Txs, Removed, CleanPending;
      var a := tx.from;
      var invalids := CutPending(tx, p);
      EnqueueAll(invalids, invalids, {}, popped);
      assert invalids - invalids == {};
      var next := if a in pendingNonces then pendingNonces[a] else chain.Nonce(a);
      ghost var p' := View();
      if next > tx.nonce {
        pendingNonces := pendingNonces[a := tx.nonce];
      }
      NoncesAside(p', {}, {}, pendingNonces);
      if Gapless(p) {
        RemovePendingGapless(p, View(), tx, invalids);
      }
    }

    /** The pending list of an account is cut before a transaction; what came after it is in limbo. */
    method CutPending(tx: Tx, ghost p: Pool) returns (invalids: set<Tx>)
      requires Consistent(p, {}, {}) && tx in p.all && tx.nonce in p.P(tx.from)
      requires View() == p.(all := p.all - {tx})
      modifies `pending
      ensures tx.from in p.pending && Removed(p.pending[tx.from], tx.nonce).items == Below(p.P(tx.from), tx.nonce)
      ensures pending == CleanPending(WithPending(p, tx.from, Removed(p.pending[tx.from], tx.nonce)), tx.from).pending
      ensures invalids == Txs(p.P(tx.from)) - Txs(Below(p.P(tx.from), tx.nonce)) - {tx}
      ensures Consistent(View(), invalids, {})
    {
      hide Consistent, Txs, Removed;
      var a := tx.from;
      RemovePending(p, tx);
      PendingGood(p, {}, {}, a);
      PendingTx(p, tx);
      var l;
      invalids, l := RemoveFromList(pending[a], tx);
      pending := pending[a := l];
      if pending[a].items == map[] {
        pending := pending - {a};
      }
    }

    method RemoveFromQueue(tx: Tx, ghost p: Pool, ghost popped: seq<Tx>)
      requires Consistent(p, {}, {}) && tx in p.all && tx.nonce !in p.P(tx.from)
      requires View() == p.(all := p.all - {tx}) && Covers(priced.items, all, popped)
      modifies `queue
      ensures Working({}, {}, popped)
      ensures tx.from in p.queue && View() == QueuedGone(p, tx)
      ensures Gapless(p) ==> Gapless(View())
    {
      hide Consistent, Covers, Gapless;
      var a := tx.from;
      RemoveQueued(p, tx);
      QueueGood(p, {}, {}, a);
      KnownQueued(p, tx);
      var _, l := RemoveFromList(queue[a], tx);
      queue := queue[a := l];
      if queue[a].items == map[] {
        queue := queue - {a};
      }
      if Gapless(p) {
        FewerQueuedGapless(p, View());
      }
    }

    /** A queue list is shortened and what it loses is forgotten. */
    method DropQueued(a: Address, l: List)
      requires a in queue && GoodList(l, false, a) && Shorter(l, View().Q(a))
      requires Working({}, {a}, [])
      modifies `queue, `all, priced
      ensures Working({}, {a}, []) && queue == old(queue)[a := l] && all <= old(all)
    {
      hide Consistent, Covers, GoodList;
      ShortenQueue(View(), {}, {a}, a, l);
      var gone := Txs(queue[a].items) - Txs(l.items);
      queue := queue[a := l];
      assert {} + gone == gone && {a} + {a} == {a} && gone - gone == {};
      ForgetAll(gone, gone, {a}, []);
    }

    /** The transactions `ready` of an account leave limbo for its pending list, in order. */
    method PromoteAll(a: Address, ready: seq<Tx>, ghost limbo: set<Tx>)
      requires Working(limbo, {a}, []) && Distinct(ready) && forall t :: t in limbo <==> t in ready
      requires forall t :: t in ready ==> t.from == a
      modifies `pending, `all, `pendingNonces, priced
      ensures Working({}, {a}, []) && all == old(all) && Promoting(old(View()), View(), a, ready)
    {
      hide Consistent, Covers, Promoting, Distinct;
      ghost var left := limbo;
      PromotingStarts(View(), a, ready);
      for i := 0 to |ready|
        invariant left <= limbo && forall t :: t in left <==> t in ready[i..]
        invariant Working(left, {a}, []) && all == old(all) && queue == old(queue)
        invariant Promoting(old(View()), View(), a, ready[..i])
      {
        ghost var p := View();
        assert ready[i] in ready[i..] && ready[i] in ready;
        TailWithout(ready, i, left);
        PromoteTx(ready[i], left, {a}, []);
        left := left - {ready[i]};
        PromotingStep(old(View()), p, View(), a, ready, i);
      }
      assert left == {} && ready[..|ready|] == ready;
    }

    /** What has become ready moves from the queue of an account to its pending list. */
    method PromoteReady(a: Address)
      requires Working({}, {a}, []) && a in queue
      modifies `pending, `queue, `all, `pendingNonces, priced
      ensures Working({}, {a}, []) && all == old(all)
      ensures var m := old(View()).Q(a);
              var e := ReadyEnd(m, old(View()).NextNonce(a));
              && queue == old(queue)[a := old(queue)[a].(items := From(m, e))]
              && Promoting(old(View()), View(), a, Flatten(Below(m, e)))
    {
      hide Consistent, Covers, Promoting, Distinct, Txs, ReadyEnd, Flatten, From, Below;
      ghost var p := View();
      QueueKeyed(p, {}, {a}, a);
      var next := if a in pendingNonces then pendingNonces[a] else chain.Nonce(a);
      var rest, ready := TakeReady(queue[a].items, next);
      ReadyLeaves(p, {a}, a, next);
      ReadyOnce(p, a);
      queue := queue[a := queue[a].(items := rest)];
      assert {a} + {a} == {a};
      ghost var p1 := View();
      PromoteAll(a, ready, Txs(p.Q(a)) - Txs(rest));
      PromotingFrom(p, p1, View(), a, ready);
    }

    /** One account: old and unpayable queued transactions are dropped, ready ones promoted. */
    method PromoteAccount(a: Address)
      requires Valid()
      modifies `pending, `queue, `all, `pendingNonces, priced
      ensures Valid() && all <= old(all) && OtherAccounts(old(View()), View(), a)
      ensures PromotedTo(old(View()), View(), a, a in locals, cfg.accountQueue)
      ensures a !in locals ==> |View().Q(a)| <= cfg.accountQueue
    {
      hide Consistent, Covers, GoodList, Shorter, Filtered, Lowest, From;
      hide Promoting, ReadyEnd, Flatten, Below, PromotedTo, OtherAccounts;
      ghost var p := View();
      if a !in queue {
        NothingQueued(p, a, a in locals, cfg.accountQueue);
        PromotedCap(p, p, a, a in locals, cfg.accountQueue);
        return;
      }
      NotBusy(p, a);
      Busier(p, {}, {}, {a});
      assert {} + {a} == {a};
      QueueKeyed(p, {}, {a}, a);
      QueueFromKeeps(queue[a], chain.Nonce(a), a);
      var rest := TakeFrom(queue[a].items, chain.Nonce(a));
      DropQueued(a, queue[a].(items := rest));
      QueueKeyed(View(), {}, {a}, a);
      FilterKeeps(queue[a], chain.Balance(a), chain.maxGas, a);
      QueueGood(View(), {}, {a}, a);
      var _, l := FilterList(queue[a], chain.Balance(a), chain.maxGas);
      DropQueued(a, l);
      ghost var p1 := View();
      PromoteReady(a);
      ghost var p2 := View();
      QueueKeyed(p2, {}, {a}, a);
      if a !in locals {
        var lowest := TakeLowest(queue[a].items, cfg.accountQueue);
        LowestKeeps(queue[a], cfg.accountQueue, a);
        DropQueued(a, queue[a].(items := lowest));
      }
      ghost var p3 := View();
      PromotedWhole(p, p1, p2, p3, a, a in locals, cfg.accountQueue);
      PromotedCap(p, CleanQueue(p3, a), a, a in locals, cfg.accountQueue);
      CleanKeeps(p3, CleanQueue(p3, a), {}, {a}, a);
      assert {a} - {a} == {};
      if queue[a].items == map[] {
        queue := queue - {a};
      }
    }

    /** A pending list is shortened; of what it loses, `drops` is forgotten and the rest queued. */
    method ShrinkPending(a: Address, l: List, drops: set<Tx>)
      requires a in pending && GoodList(l, true, a) && Shorter(l, View().P(a))
      requires drops <= Txs(View().P(a)) - Txs(l.items)
      requires Working({}, {a}, [])
      modifies `pending, `queue, `all, priced
      ensures Working({}, {a}, []) && pending == old(pending)[a := l] && all == old(all) - drops
      ensures forall b: Address, n: nat :: n in View().Q(b) ==>
                n in old(View()).Q(b) || Names(Txs(old(View()).P(a)) - Txs(l.items) - drops, b, n)
      ensures HasQueued(old(View()), a) ==> HasQueued(View(), a)
      ensures OtherAccounts(old(View()), View(), a)
    {
      hide Consistent, Covers, GoodList, Shorter, Txs, OtherAccounts;
      ghost var p := View();
      PendingKeyed(p, {}, {a}, a);
      GoneFrom(p.pending[a], l, a);
      ShortenPending(p, {}, {a}, a, l);
      var gone := Txs(pending[a].items) - Txs(l.items);
      pending := pending[a := l];
      assert {} + gone == gone && {a} + {a} == {a};
      ForgetAll(drops, gone, {a}, []);
      EnqueueAll(gone - drops, gone - drops, {a}, []);
      assert (gone - drops) - (gone - drops) == {};
      ListsElsewhere(p, View(), a);
    }

    /** One account: its pending transactions that the new chain state rules out. */
    method DemoteAccount(a: Address)
      requires Valid() && a in pending
      modifies `pending, `queue, `all, priced
      ensures Valid() && OtherAccounts(old(View()), View(), a)
      ensures View().P(a) == Executable(old(View()), a) && all == old(all) - Unusable(old(View()), a)
    {
      hide Consistent, Covers, OtherAccounts, GoodList, Shorter, Filtered, From;
      hide Txs, Executable, Unusable;
      ghost var p := View();
      NotBusy(p, a);
      Busier(p, {}, {}, {a});
      assert {} + {a} == {a};
      PendingKeyed(p, {}, {a}, a);
      var nonce := chain.Nonce(a);
      var rest := TakeFrom(pending[a].items, nonce);
      var l := pending[a].(items := rest);
      FromKeeps(pending[a], nonce, a);
      ShrinkPending(a, l, Txs(pending[a].items) - Txs(l.items));
      ghost var p1 := View();
      PendingKeyed(p1, {}, {a}, a);
      PendingGood(p1, {}, {a}, a);
      var drops;
      drops, l := FilterList(pending[a], chain.Balance(a), chain.maxGas);
      FilterKeepsPending(pending[a], chain.Balance(a), chain.maxGas, a);
      ShrinkPending(a, l, drops);
      ghost var p2 := View();
      PendingKeyed(p2, {}, {a}, a);
      if pending[a].items != map[] && nonce !in pending[a].items {
        EmptyKeeps(pending[a], a);
        ShrinkPending(a, pending[a].(items := map[]), {});
      }
      ghost var p3 := View();
      OthersReflexive(p2, a);
      OthersTransitive(p, p1, p2, a);
      OthersTransitive(p, p2, p3, a);
      DemotedIs(p, p1, p2, p3, a);
      CleanKeeps(p3, CleanPending(p3, a), {}, {a}, a);
      assert {a} - {a} == {};
      CleanPendingSame(p3, a);
      if pending[a].items == map[] {
        pending := pending - {a};
      }
      OthersTransitive(p, p3, View(), a);
    }

    // ----- sharing the pending slots -----

    /** The last pending transaction of an account is dropped, and its next nonce lowered to it. */
    method DropLast(a: Address)
      requires Valid() && a in pending && |pending[a].items| > 1
      modifies `pending, `all, `pendingNonces, priced
      ensures Valid()
      ensures View() == LastGone(old(View()), a, |old(pending)[a].items| - 1, MaxOf(old(pending)[a].items.Keys))
      ensures pending == old(pending)[a := AtLevel(old(pending)[a], |old(pending)[a].items| - 1)] && all <= old(all)
      ensures Gapless(old(View())) ==> Gapless(View())
      ensures Prompt(old(View())) ==> Prompt(View())
    {
      hide Consistent, Covers, Gapless, Lowest, Txs, Prompt, StillPrompt;
      ghost var p := View();
      var m := pending[a].items;
      var n := |m| - 1;
      PendingKeyed(p, {}, {}, a);
      LastGoneKeeps(p, a, n);
      LastGonePrompt(p, a, n, MaxOf(m.Keys));
      PromptAll(p, LastGone(p, a, n, MaxOf(m.Keys)));
      if Gapless(p) {
        LastGoneGapless(p, a, n);
      }
      LastDropped(m, n);
      var lowest := TakeLowest(m, n);
      var dropped := Txs(m) - Txs(lowest);
      pending := pending[a := pending[a].(items := lowest)];
      DeleteAll(dropped, []);
      var tx :| tx in dropped;
      var next := if a in pendingNonces then pendingNonces[a] else chain.Nonce(a);
      if next > tx.nonce {
        pendingNonces := pendingNonces[a := tx.nonce];
      }
    }

    /** One round: each of the accounts loses its last transaction. */
    method CutRound(accounts: seq<Address>, count: nat, ghost m0: Lists, ghost level: nat) returns (count': nat)
      requires Valid() && level > 1 && DistinctAccounts(accounts)
      requires pending == Levelled(m0, locals, level) && Offending(m0, locals, Members(accounts), level, level - 1)
      requires count == Total(pending)
      modifies `pending, `all, `pendingNonces, priced
      ensures Valid() && all <= old(all) && pending == Levelled(m0, locals, level - 1) && count' == Total(pending)
      ensures accounts != [] ==> count' < count
      ensures Gapless(old(View())) ==> Gapless(View())
      ensures Prompt(old(View())) ==> Prompt(View())
    {
      hide Valid, Gapless, Prompt, Total, Lowest, Levelled, Offending, DistinctAccounts;
      hide LastGone, MidRound, AtLevel, Members, View;
      count' := count;
      RoundStarts(m0, locals, level);
      assert accounts[..0] == [];
      for i := 0 to |accounts|
        invariant Valid() && all <= old(all) && MidRound(m0, pending, locals, level, Members(accounts[..i]))
        invariant count' == Total(pending) == count - i
        invariant Gapless(old(View())) ==> Gapless(View())
        invariant Prompt(old(View())) ==> Prompt(View())
      {
        var a := accounts[i];
        ghost var m := pending;
        RoundStep(m0, m, locals, level, accounts, i);
        DropLast(a);
        TotalUpdate(m, a, pending[a]);
        count' := count' - 1;
      }
      assert accounts[..|accounts|] == accounts;
      RoundEnds(m0, pending, locals, level, Members(accounts));
    }

    /** Rounds until the total fits, or the accounts are down to the threshold. */
    method CutDown(accounts: seq<Address>, threshold: nat, count: nat, ghost m0: Lists, ghost level: nat)
      returns (count': nat, ghost level': nat)
      requires Valid() && 0 < threshold <= level && accounts != [] && DistinctAccounts(accounts)
      requires Levelling(m0, pending, locals, cfg.globalSlots, level)
      requires Offending(m0, locals, Members(accounts), level, threshold)
      requires count == Total(pending)
      modifies `pending, `all, `pendingNonces, priced
      ensures Valid() && all <= old(all) && Levelling(m0, pending, locals, cfg.globalSlots, level')
      ensures threshold <= level' <= level && count' == Total(pending)
      ensures count' <= cfg.globalSlots || level' == threshold
      ensures count' <= count && (count' == count ==> View() == old(View()))
      ensures Gapless(old(View())) ==> Gapless(View())
      ensures Prompt(old(View())) ==> Prompt(View())
    {
      hide Valid, Gapless, Prompt, Total, Lowest, Levelled, DistinctAccounts, Offending;
      count', level' := count, level;
      LevelOf(m0, locals, level, accounts, threshold);
      while count' > cfg.globalSlots && |pending[accounts[|accounts| - 1]].items| > threshold
        invariant Valid() && all <= old(all) && Levelling(m0, pending, locals, cfg.globalSlots, level')
        invariant threshold <= level' <= level && count' == Total(pending)
        invariant count' <= count && (count' == count ==> View() == old(View()))
        invariant Offending(m0, locals, Members(accounts), level', threshold)
        invariant accounts[|accounts| - 1] in pending && |pending[accounts[|accounts| - 1]].items| == level'
        invariant Gapless(old(View())) ==> Gapless(View())
        invariant Prompt(old(View())) ==> Prompt(View())
        decreases level'
      {
        OffendingLess(m0, locals, Members(accounts), level', threshold);
        count' := CutRound(accounts, count', m0, level');
        level' := level' - 1;
        LevelOf(m0, locals, level', accounts, threshold);
      }
    }

    /** The loop that counts all transactions in lists. */
    method Count(m: Lists) returns (count: nat)
      ensures count == Total(m)
    {
      hide Total;
      count := 0;
      var todo := m.Keys;
      EmptyTotal(m, todo);
      while todo != {}
        invariant todo <= m.Keys && count + Total(m - (m.Keys - todo)) == Total(m)
        decreases |todo|
      {
        var a :| a in todo;
        TotalWithout(m - (m.Keys - todo), a);
        assert m - (m.Keys - todo) - {a} == m - (m.Keys - (todo - {a}));
        count := count + |m[a].items|;
        todo := todo - {a};
      }
      EmptyTotal(m, todo);
    }

    /** The account with the longest pending list, of those given. */
    method PopLongest(among: set<Address>) returns (a: Address)
      requires among != {} && among <= pending.Keys
      ensures Longest(pending, among, a)
    {
      LongestExists(pending, among);
      a :| && a in among && a in pending
           && forall b :: b in among ==> b in pending && |pending[b].items| <= |pending[a].items|;
    }

    /** Offenders are taken from the spammers, longest first, and cut down to each other's length. */
    method PopSpammers(count: nat, spammers: set<Address>, ghost m0: Lists, ghost level: nat)
      returns (count': nat, offenders: seq<Address>, ghost level': nat)
      requires Valid() && cfg.accountSlots > 0 && count == Total(pending)
      requires Levelling(m0, pending, locals, cfg.globalSlots, level)
      requires Sharing(m0, locals, [], spammers, level, cfg.accountSlots, count > cfg.globalSlots)
      modifies `pending, `all, `pendingNonces, priced
      ensures Valid() && all <= old(all) && count' == Total(pending)
      ensures count' <= count && (count' == count ==> View() == old(View()))
      ensures Levelling(m0, pending, locals, cfg.globalSlots, level')
      ensures count' > cfg.globalSlots ==> Sharing(m0, locals, offenders, {}, level', cfg.accountSlots, true)
      ensures cfg.accountSlots <= level'
      ensures Gapless(old(View())) ==> Gapless(View())
      ensures Prompt(old(View())) ==> Prompt(View())
    {
      hide Valid, Gapless, Prompt, Total, Lowest, Levelled, DistinctAccounts, View, Longest, Offending, Sharing;
      hide Members;
      count', offenders, level' := count, [], level;
      var left := spammers;
      while count' > cfg.globalSlots && left != {}
        invariant Valid() && all <= old(all) && count' == Total(pending)
        invariant count' <= count && (count' == count ==> View() == old(View()))
        invariant Levelling(m0, pending, locals, cfg.globalSlots, level')
        invariant Sharing(m0, locals, offenders, left, level', cfg.accountSlots, count' > cfg.globalSlots)
        invariant Gapless(old(View())) ==> Gapless(View())
        invariant Prompt(old(View())) ==> Prompt(View())
        decreases |left|
      {
        SpammersListed(m0, locals, offenders, left, level', cfg.accountSlots, true);
        var offender := PopLongest(left);
        NextOffender(m0, pending, locals, offenders, left, level', cfg.accountSlots, offender);
        ghost var before := level';
        if offenders != [] {
          count', level' := CutDown(offenders, |pending[offender].items|, count', m0, level');
        } else {
          level' := |pending[offender].items|;
        }
        OffenderJoins(m0, locals, offenders, left, before, cfg.accountSlots, offender, level',
                      count' > cfg.globalSlots);
        left := left - {offender};
        offenders := offenders + [offender];
      }
      SpammersListed(m0, locals, offenders, left, level', cfg.accountSlots, count' > cfg.globalSlots);
    }

    /** Too many pending transactions: the slots are shared fairly. */
    method Equalise() returns (ghost level: nat)
      requires Valid() && cfg.accountSlots > 0
      modifies `pending, `all, `pendingNonces, priced
      ensures Valid() && all <= old(all)
      ensures Fair(old(pending), pending, locals, cfg.globalSlots, cfg.accountSlots, level)
      ensures pending == old(pending) ==> View() == old(View())
      ensures Gapless(old(View())) ==> Gapless(View())
      ensures Prompt(old(View())) ==> Prompt(View())
    {
      hide Valid, Gapless, Prompt, Total, Lowest, Levelled, DistinctAccounts, View, Longest, Offending, Sharing;
      hide Members;
      ghost var m0 := pending;
      var count := Count(pending);
      level := Total(m0) + cfg.accountSlots;
      forall a | a in m0 ensures |m0[a].items| <= level {
        TotalCovers(m0, a);
      }
      LevelAbove(m0, locals, level);
      if count <= cfg.globalSlots {
        return;
      }
      var spammers: set<Address> := set a | a in pending && a !in locals && |pending[a].items| > cfg.accountSlots;
      SharingStarts(m0, locals, spammers, level, cfg.accountSlots);
      var offenders;
      count, offenders, level := PopSpammers(count, spammers, m0, level);
      if count > cfg.globalSlots {
        SpammersListed(m0, locals, offenders, {}, level, cfg.accountSlots, true);
        LastOffenders(m0, locals, offenders, level, cfg.accountSlots);
        if |offenders| > 0 {
          count, level := CutDown(offenders, cfg.accountSlots, count, m0, level);
        } else {
          level := cfg.accountSlots;
        }
      }
    }

    // ----- limiting the queue -----

    /** Queued transactions of one account are removed one after the other. */
    method RemoveEach(a: Address, txs: seq<Tx>)
      requires Valid() && QueuedOnce(View(), a, txs)
      modifies `pending, `queue, `all, `pendingNonces, priced
      ensures Valid() && pending == old(pending) && pendingNonces == old(pendingNonces) && all <= old(all)
      ensures View().Q(a) == old(View()).Q(a) - NonceSet(txs) && Total(queue) == Total(old(queue)) - |txs|
      ensures forall b {:trigger SameEntry(old(queue), queue, b)} :: b != a ==> SameEntry(old(queue), queue, b)
      ensures Gapless(old(View())) ==> Gapless(View())
    {
      hide Consistent, Covers, Gapless, Total, QueuedGone;
      for i := 0 to |txs|
        invariant Valid() && pending == old(pending) && pendingNonces == old(pendingNonces) && all <= old(all)
        invariant View().Q(a) == old(View()).Q(a) - NonceSet(txs[..i]) && Total(queue) == Total(old(queue)) - i
        invariant forall b {:trigger SameEntry(old(queue), queue, b)} :: b != a ==> SameEntry(old(queue), queue, b)
        invariant Gapless(old(View())) ==> Gapless(View())
      {
        ghost var q := queue;
        assert NonceSet(txs[..i + 1]) == NonceSet(txs[..i]) + {txs[i].nonce} by {
          assert txs[..i + 1] == txs[..i] + [txs[i]];
        }
        assert txs[i].nonce !in NonceSet(txs[..i]);
        QueuedGoneIs(View(), txs[i]);
        RemoveTx(txs[i], true, []);
        forall b | b != a ensures SameEntry(old(queue), queue, b) {
          assert SameEntry(old(queue), q, b) && SameEntry(q, queue, b);
        }
      }
      assert txs[..|txs|] == txs;
    }

    method PopLatest(beats: Beats, among: set<Address>) returns (a: Address)
      requires among != {}
      ensures Latest(beats, among, a)
    {
      LatestExists(beats, among);
      a :| a in among && Latest(beats, among, a);
    }

    /** One account loses its last `drop` queued transactions, or all if it has no more. */
    method ShortenQueued(a: Address, drop: nat) returns (drop': nat)
      requires Valid() && a in queue
      modifies `pending, `queue, `all, `pendingNonces, priced
      ensures Valid() && pending == old(pending) && pendingNonces == old(pendingNonces) && all <= old(all)
      ensures forall b {:trigger SameEntry(old(queue), queue, b)} :: b != a ==> SameEntry(old(queue), queue, b)
      ensures ItemsOf(queue, a) == Lowest(ItemsOf(old(queue), a), |ItemsOf(queue, a)|) && (drop' > 0 ==> a !in queue)
      ensures drop' <= drop && Total(queue) + drop == Total(old(queue)) + drop'
      ensures Gapless(old(View())) ==> Gapless(View())
    {
      hide Consistent, Covers, Gapless, Total, Lowest, Flatten, NonceSet, Keyed, GoodList, QueuedOnce, LastOf;
      QueueKeyed(View(), {}, {}, a);
      var txs := Listed(queue[a].items);
      LastOfQueue(View(), a, drop);
      var gone := LastOf(txs, drop);
      RemoveEach(a, gone);
      drop' := drop - |gone|;
      NotBusy(View(), a);
    }

    /** Too many queued transactions: accounts that are not local lose theirs, the latest first. */
    method TruncateQueue(beats: Beats)
      requires Valid()
      modifies `pending, `queue, `all, `pendingNonces, priced
      ensures Valid() && pending == old(pending) && pendingNonces == old(pendingNonces) && all <= old(all)
      ensures Total(old(queue)) <= cfg.globalQueue ==> View() == old(View())
      ensures Total(old(queue)) > cfg.globalQueue ==>
                Total(queue) == cfg.globalQueue || (Total(queue) > cfg.globalQueue && queue.Keys <= locals)
      ensures LatestFirst(old(queue), queue, locals, beats)
      ensures forall a :: a in locals && a in old(queue) ==> a in queue && queue[a] == old(queue)[a]
      ensures forall a, b :: a in old(queue) && b in old(queue) && b in queue && a !in locals && b !in locals &&
                             (if a in beats then beats[a] else 0) < (if b in beats then beats[b] else 0) ==>
                               a in queue && queue[a] == old(queue)[a]
      ensures Gapless(old(View())) ==> Gapless(View())
    {
      hide Valid, Gapless, Total, View, LatestFirst, Latest, Limiting, Lowest, SameEntry;
      var queued := Count(queue);
      var left: set<Address> := set a | a in queue && a !in locals;
      LimitingStarts(queue, locals, beats, left, 0);
      if queued <= cfg.globalQueue {
        return;
      }
      var drop: nat := queued - cfg.globalQueue;
      LimitingStarts(queue, locals, beats, left, drop);
      while drop > 0 && left != {}
        invariant Valid() && pending == old(pending) && pendingNonces == old(pendingNonces) && all <= old(all)
        invariant Total(queue) == cfg.globalQueue + drop
        invariant Limiting(old(queue), queue, locals, beats, left, drop)
        invariant Gapless(old(View())) ==> Gapless(View())
        decreases |left|
      {
        var a := PopLatest(beats, left);
        ghost var q := queue;
        LatestIn(old(queue), q, locals, beats, left, drop, a);
        var drop' := ShortenQueued(a, drop);
        LimitingStep(old(queue), q, queue, locals, beats, left, drop, drop', a);
        left, drop := left - {a}, drop';
      }
      LimitingEnds(old(queue), queue, locals, beats, left, drop);
      EarlierStay(old(queue), queue, locals, beats);
    }

    /** Accounts that are not local and have not been heard of for too long lose their queue. */
    method Evict(expired: set<Address>)
      requires Valid()
      modifies `pending, `queue, `all, `pendingNonces, priced
      ensures Valid() && pending == old(pending) && pendingNonces == old(pendingNonces) && all <= old(all)
      ensures forall a :: a in queue <==> a in old(queue) && (a in locals || a !in expired)
      ensures forall a :: a in queue ==> queue[a] == old(queue)[a]
      ensures old(AllPay()) ==> AllPay()
      ensures Gapless(old(View())) ==> Gapless(View())
      ensures Mineable(old(View())) ==> Mineable(View())
      ensures StillPrompt(old(View()), View(), {})
    {
      hide Consistent, Covers, Gapless, Total, Flatten, NonceSet, Lowest, Evicted, QueuedOnce, Mineable, StillPrompt;
      var todo: set<Address> := set a | a in queue && a in expired && a !in locals;
      EvictStarts(queue, todo, expired - locals);
      while todo != {}
        invariant Valid() && pending == old(pending) && pendingNonces == old(pendingNonces) && all <= old(all)
        invariant Evicting(old(queue), queue, todo, expired - locals)
        invariant Gapless(old(View())) ==> Gapless(View())
        decreases |todo|
      {
        var a :| a in todo;
        ghost var q := queue;
        QueueKeyed(View(), {}, {}, a);
        QueuedListed(View(), a);
        AllRemoved(queue[a].items);
        var txs := Listed(queue[a].items);
        RemoveEach(a, txs);
        NotBusy(View(), a);
        EvictStep(old(queue), q, queue, todo, expired - locals, a);
        todo := todo - {a};
      }
      EvictEnds(old(queue), queue, expired - locals);
      EvictedIs(old(queue), queue, expired - locals);
      SameMineable(old(View()), View());
      FewerPrompt(old(View()), View());
    }

    // ----- promotion and demotion of many accounts -----

    /** The accounts are promoted in any order. */
    method PromoteEach(accounts: set<Address>)
      requires Valid()
      modifies `pending, `queue, `all, `pendingNonces, priced
      ensures Valid() && all <= old(all)
      ensures PromotedAll(old(View()), View(), accounts, locals, cfg.accountQueue)
    {
      hide Consistent, Covers, OtherAccounts, PromotedTo, PromotedAll;
      var todo := accounts;
      PromotedNone(View(), locals, cfg.accountQueue);
      ghost var done: set<Address> := {};
      while todo != {}
        invariant todo !! done && todo + done == accounts && Valid() && all <= old(all)
        invariant PromotedAll(old(View()), View(), done, locals, cfg.accountQueue)
        decreases |todo|
      {
        var a :| a in todo;
        ghost var p := View();
        PromoteAccount(a);
        PromotedOneMore(old(View()), p, View(), done, locals, cfg.accountQueue, a);
        todo, done := todo - {a}, done + {a};
      }
      assert done == accounts;
    }

    /** The accounts are promoted, to `mid`; then the limits are enforced. */
    method PromoteExecutables(accounts: set<Address>, beats: Beats) returns (ghost mid: Pool, ghost level: nat)
      requires Valid() && cfg.accountSlots > 0
      modifies `pending, `queue, `all, `pendingNonces, priced
      ensures Valid() && Promotion(old(View()), mid, View(), accounts, locals, beats, level, cfg)
      ensures (Gapless(old(View())) ==> Gapless(mid)) && (Gapless(mid) ==> Gapless(View()))
      ensures Mineable(old(View())) ==> Mineable(View())
      ensures (forall a {:trigger PromptAt(old(View()), a)} :: a in accounts || PromptAt(old(View()), a)) ==>
                Prompt(View())
    {
      hide Consistent, Covers, Gapless, Total, PromotedAll, Fair, LatestFirst, Fits, Mineable;
      hide Prompt, PromptAt, StillPrompt;
      PromoteEach(accounts);
      mid := View();
      AllSettled(old(View()), mid, accounts, locals, cfg.accountQueue);
      PromotedMineable(old(View()), mid, accounts, locals, cfg.accountQueue);
      if forall a {:trigger PromptAt(old(View()), a)} :: a in accounts || PromptAt(old(View()), a) {
        PromotedPrompt(old(View()), mid, accounts, locals, cfg.accountQueue);
      }
      level := Equalise();
      ghost var shared := View();
      FairFits(mid, pending, locals, level, cfg);
      TruncateQueue(beats);
      LimitedPrompt(shared, View(), locals, beats);
      PromptAll(shared, View());
      FairMineable(mid, View(), locals, cfg.globalSlots, cfg.accountSlots, level);
    }

    /** The pending accounts are demoted in any order. */
    method DemoteUnexecutables()
      requires Valid()
      modifies `pending, `queue, `all, priced
      ensures Valid() && DemotedAll(old(View()), View(), {}) && all <= old(all)
    {
      hide Consistent, Covers, OtherAccounts, DemotedAll, Executable, Unusable;
      DemotedNone(View());
      var todo := pending.Keys;
      while todo != {}
        invariant todo <= pending.Keys && Valid() && all <= old(all)
        invariant DemotedAll(old(View()), View(), todo)
        decreases |todo|
      {
        var a :| a in todo;
        ghost var p := View();
        DemoteAccount(a);
        StillPending(p, View(), a);
        DemotedOneMore(old(View()), p, View(), todo, a);
        todo := todo - {a};
      }
    }

    // ----- new transactions -----

    /** What was popped off the price heap leaves the pool. */
    method RemoveDropped(drop: seq<Tx>)
      requires Working({}, {}, drop)
      modifies `pending, `queue, `all, `pendingNonces, priced
      ensures Valid() && LeaveAll(old(View()), View(), drop) && forall t :: t in all <==> t in old(all) && t !in drop
      ensures Gapless(old(View())) ==> Gapless(View())
      ensures Mineable(old(View())) ==> Mineable(View())
      ensures StillPrompt(old(View()), View(), {})
    {
      hide Consistent, Gapless, Leaves, LeaveAll, Mineable, StillPrompt;
      LeaveNone(View());
      PromptSelf(View());
      for i := 0 to |drop|
        invariant LeaveAll(old(View()), View(), drop[..i])
        invariant Mineable(old(View())) ==> Mineable(View())
        invariant StillPrompt(old(View()), View(), {})
        invariant Working({}, {}, drop) && forall t :: t in all <==> t in old(all) && t !in drop[..i]
        invariant Gapless(old(View())) ==> Gapless(View())
      {
        ghost var p := View();
        RemoveTx(drop[i], false, drop);
        LeaveMore(old(View()), p, View(), drop[..i], drop[i]);
        LeavesMineable(p, View(), drop[i]);
        LeavesPrompt(p, View(), drop[i]);
        PromptThen(old(View()), p, View(), {}, {});
        assert drop[..i + 1] == drop[..i] + [drop[i]];
      }
      assert drop[..|drop|] == drop;
    }

    /** Transactions under the new price leave the pool, unless they are local. */
    method SetGasPrice(price: int)
      requires Valid()
      modifies `gasPrice, `pending, `queue, `all, `pendingNonces, priced
      ensures Valid() && gasPrice == price
      ensures forall t :: t in all <==> t in old(all) && (t.price >= price || t.from in locals)
      ensures AllPay()
      ensures Gapless(old(View())) ==> Gapless(View())
      ensures Mineable(old(View())) ==> Mineable(View())
      ensures StillPrompt(old(View()), View(), {})
    {
      hide Consistent, Gapless, Mineable, StillPrompt;
      gasPrice := price;
      var drop := priced.Cap(price, all, locals);
      RemoveDropped(drop);
    }

    /** A full pool makes room by giving up its cheapest transactions that are not local. */
    method MakeRoom(tx: Tx, local: bool) returns (ok: bool, ghost drop: seq<Tx>)
      requires Valid()
      modifies `pending, `queue, `all, `pendingNonces, priced
      ensures Valid() && all <= old(all)
      ensures ok <==> !TooCheap(Held(old(View()), locals), tx, Rules(local, gasPrice, cfg))
      ensures ok <==> |old(all)| < cfg.globalSlots + cfg.globalQueue || local || tx.from in locals || old(all) == {} ||
                      exists t :: t in old(all) && t.price < tx.price
      ensures ok ==> if |old(all)| < cfg.globalSlots + cfg.globalQueue then all == old(all)
                     else all < old(all) || forall t :: t in all ==> t.from in locals
      ensures forall d, t :: d in old(all) && d !in all ==>
                && d.from !in locals
                && (t in all && t.from !in locals ==> t.price > d.price || (t.price == d.price && t.nonce <= d.nonce))
      ensures if ok then RoomMade(old(View()), View(), drop, locals, cfg) else View() == old(View())
      ensures Gapless(old(View())) ==> Gapless(View())
      ensures Mineable(old(View())) ==> Mineable(View())
      ensures StillPrompt(old(View()), View(), {})
    {
      hide Consistent, Gapless, LeaveAll, Mineable, StillPrompt, RoomMade;
      ghost var p := View();
      PromptSelf(p);
      if |all| < cfg.globalSlots + cfg.globalQueue {
        RoomKept(p, locals, cfg);
        return true, [];
      }
      if !local {
        var under := priced.Underpriced(tx, all, locals);
        if under {
          return false, [];
        }
      }
      var dropped := priced.Discard(|all| - (cfg.globalSlots + cfg.globalQueue - 1), all, locals);
      RemoveDropped(dropped);
      RoomDropped(p, View(), dropped, locals, cfg);
      RoomIs(p, View(), dropped, locals, cfg);
      return true, dropped;
    }

    /** A transaction is checked and put in the pool; `replaced` tells if another one gave way to it. */
    method Add(arrival: Incoming, local: bool) returns (replaced: bool, err: Option<Error>)
      requires Valid()
      modifies `pending, `queue, `all, `pendingNonces, `locals, priced
      ensures Valid() && (err == None ==> arrival.tx in all) && old(locals) <= locals
      ensures err == Some(Known) <==> arrival.tx in old(all)
      ensures arrival.tx !in old(all) ==>
                var invalid := Validate(chain, gasPrice, local || arrival.tx.from in old(locals), arrival);
                if invalid.Some? then err == invalid else err in {None, Some(Underpriced), Some(ReplaceUnderpriced)}
      ensures err.Some? && err != Some(ReplaceUnderpriced) ==> View() == old(View())
      ensures Admitted(Held(old(View()), old(locals)), Held(View(), locals), arrival, Rules(local, gasPrice, cfg),
                       replaced, err)
      ensures forall t :: t in all ==> t in old(all) || (t == arrival.tx && err == None)
      ensures forall t :: t in old(all) && t !in all ==>
                t.from !in old(locals) || (t.from == arrival.tx.from && t.nonce == arrival.tx.nonce && err == None)
      ensures err == None ==>
                && arrival.size <= 32768 && arrival.value >= 0 && arrival.signed
                && arrival.intrinsic.Some? && arrival.intrinsic.value <= arrival.tx.gas <= chain.maxGas
                && chain.Nonce(arrival.tx.from) <= arrival.tx.nonce && arrival.tx.cost <= chain.Balance(arrival.tx.from)
                && (local || arrival.tx.from in old(locals) || arrival.tx.price >= gasPrice)
      ensures old(AllPay()) ==> AllPay()
      ensures locals == old(locals) + if err == None && local && !View().IsPending(arrival.tx) then {arrival.tx.from}
                                      else {}
      ensures Gapless(old(View())) ==> Gapless(View())
      ensures Mineable(old(View())) ==> Mineable(View())
      ensures StillPrompt(old(View()), View(), if err == None && !replaced then {arrival.tx.from} else {})
    {
      hide Consistent, Covers, Gapless, Validate, Less, Inserted, TooCheap, LeaveAll, Mineable, StillPrompt;
      var tx := arrival.tx;
      PromptSelf(View());
      if tx in all {
        return false, Some(Known);
      }
      err := Validate(chain, gasPrice, local || tx.from in locals, arrival);
      if err.Some? {
        ValidateErrors(chain, gasPrice, local || tx.from in locals, arrival);
        return false, err;
      }
      ValidateIs(chain, gasPrice, local || tx.from in locals, arrival);
      var ok;
      ghost var drop;
      ok, drop := MakeRoom(tx, local);
      if !ok {
        return false, Some(Underpriced);
      }
      ghost var room := View();
      replaced, err := Insert(tx, local);
      assert RoomMade(old(View()), room, drop, old(locals), cfg);
      PromptThen(old(View()), room, View(), {}, if err == None && !replaced then {tx.from} else {});
    }

    /** A valid transaction goes to the pending list if it replaces something there, else to the queue. */
    method Insert(tx: Tx, local: bool) returns (replaced: bool, err: Option<Error>)
      requires Valid() && tx !in all && chain.Nonce(tx.from) <= tx.nonce
      modifies `pending, `queue, `all, `locals, priced
      ensures Valid() && (err == None ==> tx in all) && old(locals) <= locals
      ensures err in {None, Some(ReplaceUnderpriced)}
      ensures forall t :: t in all ==> t in old(all) || (t == tx && err == None)
      ensures forall t :: t in old(all) && t !in all ==> t.from == tx.from && t.nonce == tx.nonce && err == None
      ensures replaced <==> err == None && old(all) - all != {}
      ensures Inserted(Held(old(View()), old(locals)), Held(View(), locals), tx, Rules(local, gasPrice, cfg), replaced,
                       err)
      ensures old(AllPay()) && (local || tx.from in old(locals) || tx.price >= gasPrice) ==> AllPay()
      ensures locals == old(locals) + if err == None && local && !View().IsPending(tx) then {tx.from} else {}
      ensures Gapless(old(View())) ==> Gapless(View())
      ensures tx.cost <= chain.Balance(tx.from) && tx.gas <= chain.maxGas && Mineable(old(View())) ==> Mineable(View())
      ensures StillPrompt(old(View()), View(), if err == None && !replaced then {tx.from} else {})
    {
      hide Consistent, Covers, Gapless, Enqueued, Swapped, Mineable, StillPrompt;
      ghost var p := View();
      PromptSelf(p);
      PlacedPrompt(p, tx);
      ReplacedIs(p, tx);
      EnteredIs(p, tx);
      if tx.cost <= chain.Balance(tx.from) && tx.gas <= chain.maxGas {
        PlacedMineable(p, tx);
      }
      if tx.from in pending && tx.nonce in pending[tx.from].items {
        replaced, err := ReplacePendingTx(tx);
        return;
      }
      var ok;
      replaced, ok := EnqueueTx(tx, {}, {}, []);
      assert {} - {tx} == {};
      QueuedAtEnd(p, View(), tx, ok);
      if !ok {
        return false, Some(ReplaceUnderpriced);
      }
      if local {
        locals := locals + {tx.from};
      }
      err := None;
    }

    /** A transaction takes the place of a pending one of its account, if it pays enough more. */
    method ReplacePendingTx(tx: Tx) returns (replaced: bool, err: Option<Error>)
      requires Valid() && tx !in all && tx.from in pending && tx.nonce in pending[tx.from].items
      modifies `pending, `all, priced
      ensures Valid() && replaced == (err == None) && err in {None, Some(ReplaceUnderpriced)}
      ensures err == None <==> Accepts(old(pending)[tx.from], tx, cfg.priceBump)
      ensures View() == if err == None then Swapped(old(View()), tx) else old(View())
      ensures err == None ==> View().IsPending(tx)
      ensures Gapless(old(View())) ==> Gapless(View())
    {
      hide Consistent, Covers, Gapless, Swapped, Accepts, Good, Added;
      SwappedIs(View(), tx);
      var l := pending[tx.from];
      PendingGood(View(), {}, {}, tx.from);
      var ok, _, l' := AddToList(l, tx, cfg.priceBump);
      if !ok {
        return false, Some(ReplaceUnderpriced);
      }
      ReplacePending(View(), {}, tx);
      if Gapless(View()) {
        SwapGapless(View(), tx);
      }
      pending := pending[tx.from := l'];
      CoverForget(priced.items, all, l.items[tx.nonce], []);
      all := all - {l.items[tx.nonce]};
      priced.Removed(all);
      CoverMore(priced.items, all, tx);
      all := all + {tx};
      priced.Put(tx);
      return true, None;
    }

    /** A single transaction: added and, unless it replaced another one, its account promoted. */
    method AddTx(arrival: Incoming, local: bool, beats: Beats) returns (err: Option<Error>, ghost b: Batched)
      requires Valid() && cfg.accountSlots > 0
      modifies `pending, `queue, `all, `pendingNonces, `locals, priced
      ensures Valid() && (err == Some(Known) <==> arrival.tx in old(all))
      ensures all <= old(all) + {arrival.tx} && (err.Some? ==> all <= old(all))
      ensures err.Some? && err != Some(ReplaceUnderpriced) ==> View() == old(View())
      ensures Entered(Held(old(View()), old(locals)), Held(View(), locals), [arrival], Rules(local, gasPrice, cfg),
                      beats, [err], b)
      ensures old(AllPay()) ==> AllPay()
      ensures Gapless(old(View())) ==> Gapless(View())
      ensures Mineable(old(View())) ==> Mineable(View())
      ensures Prompt(old(View())) ==> Prompt(View())
    {
      hide Valid, Gapless, Admitted, Batch, Promotion, Mineable, Prompt, PromptAt;
      ghost var h, rules := Held(View(), locals), Rules(local, gasPrice, cfg);
      var replaced;
      replaced, err := Add(arrival, local);
      ghost var h' := Held(View(), locals);
      BatchOne(h, h', arrival, rules, replaced, err);
      if Prompt(h.pool) {
        PromptIfClean(h.pool, h'.pool, if err == None && !replaced then {arrival.tx.from} else {});
      }
      if err.Some? || replaced {
        b := Batched(h', {}, h'.pool, 0);
        return;
      }
      ghost var mid, level;
      mid, level := PromoteExecutables({arrival.tx.from}, beats);
      PromotionFewer(h'.pool, mid, View(), {arrival.tx.from}, locals, beats, level, cfg);
      b := Batched(h', {arrival.tx.from}, mid, level);
    }

    /** A batch: each is added, then the accounts with something new are promoted together. */
    method AddTxs(arrivals: seq<Incoming>, local: bool,
                  beats: Beats) returns (errs: seq<Option<Error>>, ghost b: Batched)
      requires Valid() && cfg.accountSlots > 0
      modifies `pending, `queue, `all, `pendingNonces, `locals, priced
      ensures Valid() && |errs| == |arrivals|
      ensures forall t ::
                t in all ==> t in old(all) || exists i :: 0 <= i < |arrivals| && t == arrivals[i].tx && errs[i] == None
      ensures Entered(Held(old(View()), old(locals)), Held(View(), locals), arrivals, Rules(local, gasPrice, cfg),
                      beats, errs, b)
      ensures arrivals == [] ==> View() == old(View())
      ensures old(AllPay()) ==> AllPay()
      ensures Gapless(old(View())) ==> Gapless(View())
      ensures Mineable(old(View())) ==> Mineable(View())
      ensures Prompt(old(View())) ==> Prompt(View())
    {
      hide Valid, Gapless, Validate, Admitted, Batch, Promotion, Mineable, Prompt, PromptAt, StillPrompt;
      ghost var h, rules := Held(View(), locals), Rules(local, gasPrice, cfg);
      var dirty: set<Address> := {};
      errs := [];
      BatchNone(h, arrivals, rules);
      PromptSelf(View());
      for i := 0 to |arrivals|
        invariant Valid() && |errs| == i && (i == 0 ==> View() == old(View()) && dirty == {})
        invariant old(AllPay()) ==> AllPay()
        invariant Mineable(old(View())) ==> Mineable(View())
        invariant StillPrompt(old(View()), View(), dirty)
        invariant Batch(h, Held(View(), locals), arrivals[..i], rules, errs, dirty)
        invariant forall t ::
                    t in all ==> t in old(all) || exists j :: 0 <= j < i && t == arrivals[j].tx && errs[j] == None
        invariant Gapless(old(View())) ==> Gapless(View())
      {
        ghost var before, errs', m := all, errs, Held(View(), locals);
        var replaced, err := Add(arrivals[i], local);
        PromptThen(old(View()), m.pool, View(), dirty, if err == None && !replaced then {arrivals[i].tx.from} else {});
        assert dirty + {} == dirty;
        BatchMore(h, m, Held(View(), locals), arrivals, i, rules, errs, dirty, replaced, err);
        errs := errs + [err];
        if err == None && !replaced {
          dirty := dirty + {arrivals[i].tx.from};
        }
        forall t | t in all ensures t in old(all) || exists j ::
          0 <= j < i + 1 && t == arrivals[j].tx && errs[j] == None {
          if t in before && t !in old(all) {
            var j :| 0 <= j < i && t == arrivals[j].tx && errs'[j] == None;
            assert errs[j] == None;
          } else {
            assert t in old(all) || (t == arrivals[i].tx && errs[i] == None);
          }
        }
      }
      assert arrivals[..|arrivals|] == arrivals;
      b := Batched(Held(View(), locals), dirty, View(), 0);
      if Prompt(old(View())) {
        PromptIfClean(old(View()), View(), dirty);
      }
      if dirty != {} {
        ghost var mid, level;
        mid, level := PromoteExecutables(dirty, beats);
        PromotionFewer(b.held.pool, mid, View(), dirty, locals, beats, level, cfg);
        b := b.(mid := mid, level := level);
      }
    }

    /** The loop that sets the next nonce of every pending account. */
    method RefreshNonces()
      requires Valid()
      modifies `pendingNonces
      ensures Valid() && View() == old(View()).(pendingNonces := pendingNonces)
      ensures forall a {:trigger NonceRefreshed(View(), old(pendingNonces), a)} ::
                NonceRefreshed(View(), old(pendingNonces), a)
    {
      hide Consistent, Covers, Flatten, NonceRefreshed;
      ghost var p := View();
      var todo := pending.Keys;
      RefreshStarts(p);
      while todo != {}
        invariant todo <= pending.Keys && View() == p.(pendingNonces := pendingNonces)
        invariant Refreshing(View(), p.pendingNonces, todo)
        decreases |todo|
      {
        var a :| a in todo;
        PendingKeyed(p, {}, {}, a);
        NotBusy(p, a);
        var txs := Listed(pending[a].items);
        RefreshStep(View(), p.pendingNonces, todo, a);
        pendingNonces := pendingNonces[a := txs[|txs| - 1].nonce + 1];
        todo := todo - {a};
      }
      RefreshEnds(View(), p.pendingNonces);
      NoncesAside(p, {}, {}, pendingNonces);
    }

    /**
    A new head: the pool moves to its state, takes back the transactions of blocks that were undone,
    and demotes and promotes all accounts. Without a state for the new head nothing happens.
    */
    method Reset(state: Option<Chain>, reinject: seq<Incoming>, beats: Beats) returns (ghost s: Stages)
      requires Valid() && cfg.accountSlots > 0
      modifies `chain, `pending, `queue, `all, `pendingNonces, `locals, priced
      ensures Valid() && chain == if state == None then old(chain) else state.value
      ensures state == None ==> View() == old(View()) && locals == old(locals)
      ensures state != None ==>
                Staged(s, old(View()).(chain := chain, pendingNonces := map[]), old(locals), reinject, View(), locals,
                       gasPrice, beats)
      ensures state != None ==>
                (Gapless(s.promoted) <==> forall a {:trigger Healthy(s.added, a)} :: Healthy(s.added, a))
      ensures state != None && Gapless(s.promoted) ==> Gapless(View())
      ensures state != None && (forall a {:trigger PendingRun(s.refreshed, a)} :: PendingRun(s.refreshed, a)) ==>
                Gapless(View())
      ensures old(AllPay()) ==> AllPay()
      ensures Gapless(old(View())) && (state == None || reinject == []) ==> Gapless(View())
      ensures state != None && Gapless(old(View())) && RoomFor(|old(all)| + |reinject|) ==>
                var h := Held(old(View()).(chain := chain, pendingNonces := map[]), old(locals));
                (Gapless(View()) <==> NoGaps(h, reinject, Rules(false, gasPrice, cfg)))
      ensures (state == None ==> Mineable(old(View()))) ==> Mineable(View())
      ensures (state == None ==> Prompt(old(View()))) ==> Prompt(View())
    {
      hide Consistent, Covers, Gapless, DemotedAll, Promotion, Entered, Healthy, PendingRun, NoGaps, Mineable, Prompt;
      if state == None {
        s := Stages([], Batched(Held(View(), locals), {}, View(), 0), View(), View(), View(), View(), 0);
        return;
      }
      ChainAside(View(), state.value, map[]);
      chain, pendingNonces := state.value, map[];
      ghost var p0 := View();
      ghost var errs, taken;
      errs, taken := AddTxs(reinject, false, beats);
      ghost var added := View();
      ghost var demoted, refreshed, promoted, level;
      demoted, refreshed, promoted, level := Resettle(beats);
      if Gapless(old(View())) && reinject == [] {
        forall a ensures Healthy(added, a) {
          NothingTakenBack(old(View()), added, a);
        }
      }
      s := Stages(errs, taken, added, demoted, refreshed, promoted, level);
      if Gapless(old(View())) && RoomFor(|old(all)| + |reinject|) {
        ghost var h, h', rules := Held(p0, old(locals)), Held(added, locals), Rules(false, gasPrice, cfg);
        GapsIff(old(View()), h, h', reinject, rules, beats, errs, taken);
        StagesFit(added, demoted, refreshed, promoted, View(), locals, beats, level, cfg, |old(all)| + |reinject|);
      }
    }

    /** All accounts are demoted, their next nonces refreshed, and all that is queued promoted. */
    method Resettle(beats: Beats)
      returns (ghost demoted: Pool, ghost refreshed: Pool, ghost promoted: Pool, ghost level: nat)
      requires Valid() && cfg.accountSlots > 0
      modifies `pending, `queue, `all, `pendingNonces, priced
      ensures Valid() && all <= old(all) && Prepared(old(View()), demoted, refreshed)
      ensures Promotion(refreshed, promoted, View(), refreshed.queue.Keys, locals, beats, level, cfg)
      ensures Gapless(promoted) <==> forall a {:trigger Healthy(old(View()), a)} :: Healthy(old(View()), a)
      ensures (forall a {:trigger PendingRun(refreshed, a)} :: PendingRun(refreshed, a)) ==> Gapless(promoted)
      ensures Gapless(promoted) ==> Gapless(View())
      ensures Mineable(View()) && Prompt(View())
    {
      hide Consistent, Covers, Gapless, DemotedAll, Promotion, Healthy, PendingRun, Mineable, Prompt;
      ghost var added := View();
      DemoteUnexecutables();
      demoted := View();
      RefreshNonces();
      refreshed := View();
      DemotedMineable(added, demoted);
      SameMineable(demoted, refreshed);
      promoted, level := PromoteExecutables(queue.Keys, beats);
      PromotionFewer(refreshed, promoted, View(), refreshed.queue.Keys, locals, beats, level, cfg);
      ResetIff(added, demoted, refreshed, promoted, locals, cfg.accountQueue);
    }

    /** So many transactions stay within the limits, wherever they are. */
    predicate RoomFor(n: nat) {
      n <= cfg.globalSlots && n <= cfg.globalQueue
    }

    /** What a reset does, stage by stage, from the lists `p` under the new chain state. */
    ghost predicate Staged(s: Stages, p: Pool, locals: set<Address>, reinject: seq<Incoming>, p': Pool,
                           locals': set<Address>, gasPrice: int, beats: Beats) {
      && Entered(Held(p, locals), Held(s.added, locals'), reinject, Rules(false, gasPrice, cfg), beats, s.errs, s.taken)
      && Prepared(s.added, s.demoted, s.refreshed)
      && Promotion(s.refreshed, s.promoted, p', s.refreshed.queue.Keys, locals', beats, s.level, cfg)
    }

    ghost function Now(): Moment
      reads `chain, `pending, `queue, `all, `pendingNonces, `locals, `gasPrice
    {
      Moment(Held(View(), locals), gasPrice)
    }

    /** What each operation does to the pool, its local accounts and its price. */
    ghost predicate Effect(op: Operation, s: Step) {
      var h, h', price := s.before.held, s.after.held, s.before.gasPrice;
      && (!op.Price? ==> s.after.gasPrice == price)
      && match op
         case AddOne(arrival, local, beats) =>
           |s.errs| == 1 && Entered(h, h', [arrival], Rules(local, price, cfg), beats, s.errs, s.taken)
         case AddMany(arrivals, local, beats) =>
           Entered(h, h', arrivals, Rules(local, price, cfg), beats, s.errs, s.taken)
         case Price(to) =>
           && s.after.gasPrice == to && h'.locals == h.locals
           && forall t :: t in h'.pool.all <==> t in h.pool.all && (t.price >= to || t.from in h.locals)
         case Expire(expired) =>
           && h'.locals == h.locals && h'.pool.pending == h.pool.pending
           && (forall a :: a in h'.pool.queue <==> a in h.pool.queue && (a in h.locals || a !in expired))
           && (forall a :: a in h'.pool.queue ==> h'.pool.queue[a] == h.pool.queue[a])
         case NewHead(state, reinject, beats) =>
           if state == None then h' == h
           else
             && h'.pool.chain == state.value
             && Staged(s.stages, h.pool.(chain := state.value, pendingNonces := map[]), h.locals, reinject, h'.pool,
                       h'.locals, price, beats)
    }

    /** One operation. */
    method Act(op: Operation) returns (ghost s: Step)
      requires Valid() && cfg.accountSlots > 0
      modifies this, priced
      ensures Valid() && s.before == old(Now()) && s.after == Now() && Effect(op, s)
      ensures old(AllPay()) ==> AllPay()
      ensures Gapless(old(View())) && Harmless(op, s.stages.added) ==> Gapless(View())
      ensures Mineable(old(View())) ==> Mineable(View())
      ensures Prompt(old(View())) ==> Prompt(View())
    {
      hide Valid, Gapless, Healthy, PendingRun, Entered, TxPool.Staged, Mineable, Prompt, StillPrompt;
      ghost var before, p, errs := Now(), View(), [];
      ghost var b := Batched(Held(p, locals), {}, p, 0);
      ghost var stages := Stages([], b, p, p, p, p, 0);
      match op {
        case AddOne(arrival, local, beats) =>
          ghost var err;
          err, b := AddTx(arrival, local, beats);
          errs := [err];
        case AddMany(arrivals, local, beats) => errs, b := AddTxs(arrivals, local, beats);
        case Price(price) =>
          SetGasPrice(price);
          PromptAll(p, View());
        case Expire(expired) =>
          Evict(expired);
          PromptAll(p, View());
        case NewHead(state, reinject, beats) => stages := Reset(state, reinject, beats);
      }
      s := Step(before, Now(), errs, b, stages);
    }

    /**
    Any run of operations keeps the lists consistent, what is pending mineable, and nothing waiting
    that could be pending. It leaves no gaps if every reset that takes transactions back leaves all
    accounts healthy.
    */
    method Perform(ops: seq<Operation>) returns (ghost steps: seq<Step>)
      requires Valid() && cfg.accountSlots > 0
      modifies this, priced
      ensures Valid() && |steps| == |ops| && Connected(old(Now()), steps, Now())
      ensures forall i :: 0 <= i < |ops| ==> Effect(ops[i], steps[i])
      ensures old(AllPay()) ==> AllPay()
      ensures Gapless(old(View())) && (forall i :: 0 <= i < |ops| ==> Harmless(ops[i], steps[i].stages.added)) ==>
                Gapless(View())
      ensures Mineable(old(View())) ==> Mineable(View())
      ensures Prompt(old(View())) ==> Prompt(View())
    {
      hide Valid, Gapless, View, Healthy, PendingRun, TxPool.Staged, Mineable, Prompt, Effect, Harmless, AllPay;
      steps := [];
      for i := 0 to |ops|
        invariant Valid() && |steps| == i && Connected(old(Now()), steps, Now())
        invariant forall k :: 0 <= k < i ==> Effect(ops[k], steps[k])
        invariant old(AllPay()) ==> AllPay()
        invariant Mineable(old(View())) ==> Mineable(View())
        invariant Prompt(old(View())) ==> Prompt(View())
        invariant Gapless(old(View())) && (forall k :: 0 <= k < i ==> Harmless(ops[k], steps[k].stages.added)) ==>
                    Gapless(View())
      {
        ghost var s;
        s := Act(ops[i]);
        ConnectedMore(old(Now()), steps, s);
        steps := steps + [s];
      }
    }
  }

  /** Steps that lead from one moment to another. */
  ghost predicate Connected(start: Moment, steps: seq<Step>, end: Moment) {
    if steps == [] then end == start
    else
      var n := |steps| - 1;
      steps[n].after == end && Connected(start, steps[..n], steps[n].before)
  }

  lemma ConnectedMore(start: Moment, steps: seq<Step>, s: Step)
    requires Connected(start, steps, s.before)
    ensures Connected(start, steps + [s], s.after)
  {
    assert (steps + [s])[..|steps|] == steps;
  }

  /** A reset that takes nothing back, or leaves every account healthy. Nothing else makes gaps. */
  ghost predicate Harmless(op: Operation, added: Pool) {
    op.NewHead? && op.state != None && op.reinject != [] ==> forall a {:trigger Healthy(added, a)} :: Healthy(added, a)
  }
}
