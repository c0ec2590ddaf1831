/**
How transactions enter the pool: what each is refused for, what gives way to it, and what a batch of
them and the promotion after it leave.
*/
module PoolEntry {
  import opened Wrappers
  import opened TxSpec
  import opened TxSortedMap
  import opened TxList
  import opened TxPriced
  import opened PoolState
  import opened PoolSteps
  import opened PoolFairness
  import opened PoolQueue
  import opened PoolGaps

  datatype Config = Config(priceBump: nat, accountSlots: nat, globalSlots: nat, accountQueue: nat, globalQueue: nat)

  // ----- what a new transaction is checked for -----

  /** A transaction as it arrives; `intrinsic` is its intrinsic gas, unless that overflows. */
  datatype Incoming = Incoming(tx: Tx, size: nat, value: int, signed: bool, intrinsic: Option<nat>)

  datatype Error =
    | Known | Oversized | NegativeValue | GasLimit | InvalidSender | Underpriced | NonceTooLow
    | InsufficientFunds | OutOfGas | IntrinsicGas | ReplaceUnderpriced

  const MAX_SIZE := 32 * 1024

  /** The first check that fails, in the order of the checks. */
  function Validate(c: Chain, minPrice: int, local: bool, arrival: Incoming): Option<Error> {
    var tx := arrival.tx;
    if arrival.size > MAX_SIZE then Some(Oversized)
    else if arrival.value < 0 then Some(NegativeValue)
    else if c.maxGas < tx.gas then Some(GasLimit)
    else if !arrival.signed then Some(InvalidSender)
    else if !local && minPrice > tx.price then Some(Underpriced)
    else if c.Nonce(tx.from) > tx.nonce then Some(NonceTooLow)
    else if c.Balance(tx.from) < tx.cost then Some(InsufficientFunds)
    else if arrival.intrinsic == None then Some(OutOfGas)
    else if tx.gas < arrival.intrinsic.value then Some(IntrinsicGas)
    else None
  }

  lemma ValidateErrors(c: Chain, minPrice: int, local: bool, arrival: Incoming)
    ensures Validate(c, minPrice, local, arrival) !in {Some(Known), Some(ReplaceUnderpriced)}
  {
  }

  /** A transaction passes exactly if nothing is wrong with it; else the first thing wrong is reported. */
  lemma ValidateIs(c: Chain, minPrice: int, local: bool, arrival: Incoming)
    ensures var tx, v := arrival.tx, Validate(c, minPrice, local, arrival);
            var sized, covered := arrival.size <= 32768 && arrival.value >= 0, c.Balance(tx.from) >= tx.cost;
            var sent := sized && tx.gas <= c.maxGas && arrival.signed;
            var priced := sent && (local || tx.price >= minPrice);
            var due := priced && tx.nonce >= c.Nonce(tx.from);
            && (v == None <==>
                due && covered && arrival.intrinsic.Some? && tx.gas >= arrival.intrinsic.value)
            && (v == Some(Oversized) <==> arrival.size > 32768)
            && (v == Some(NegativeValue) <==> arrival.size <= 32768 && arrival.value < 0)
            && (v == Some(GasLimit) <==> sized && tx.gas > c.maxGas)
            && (v == Some(InvalidSender) <==> sized && tx.gas <= c.maxGas && !arrival.signed)
            && (v == Some(Underpriced) <==> sent && !local && tx.price < minPrice)
            && (v == Some(NonceTooLow) <==> priced && tx.nonce < c.Nonce(tx.from))
            && (v == Some(InsufficientFunds) <==> due && !covered)
            && (v == Some(OutOfGas) <==> due && covered && arrival.intrinsic == None)
            && (v == Some(IntrinsicGas) <==>
                due && covered && arrival.intrinsic.Some? && tx.gas < arrival.intrinsic.value)
  {
  }

  /** What stays the same while a batch is added: where it comes from, the price limit and the configuration. */
  datatype Rules = Rules(local: bool, gasPrice: int, cfg: Config)

  /** What a batch changes: the lists and the local accounts. */
  datatype Held = Held(pool: Pool, locals: set<Address>)

  predicate Full(p: Pool, cfg: Config) {
    |p.all| >= cfg.globalSlots + cfg.globalQueue
  }

  /** A full pool has nothing cheaper to give up. */
  ghost predicate TooCheap(h: Held, tx: Tx, rules: Rules) {
    && Full(h.pool, rules.cfg) && !rules.local && tx.from !in h.locals && h.pool.all != {}
    && forall t :: t in h.pool.all ==> tx.price <= t.price
  }

  /** Why a transaction is refused before anything is changed. */
  ghost function Refusal(h: Held, arrival: Incoming, rules: Rules): Option<Error> {
    var invalid := Validate(h.pool.chain, rules.gasPrice, rules.local || arrival.tx.from in h.locals, arrival);
    if arrival.tx in h.pool.all then Some(Known)
    else if invalid.Some? then invalid
    else if TooCheap(h, arrival.tx, rules) then Some(Underpriced)
    else None
  }

  // ----- pending transactions can be mined -----

  /** Pending transactions are not too old and can be paid. */
  ghost predicate Mineable(p: Pool) {
    forall a, n {:trigger n in p.P(a)} :: n in p.P(a) ==>
      p.chain.Nonce(a) <= n && p.P(a)[n].cost <= p.chain.Balance(a) && p.P(a)[n].gas <= p.chain.maxGas
  }

  lemma FewerMineable(p: Pool, p': Pool)
    requires Mineable(p) && p'.chain == p.chain
    requires forall a, n :: n in p'.P(a) ==> n in p.P(a) && p'.P(a)[n] == p.P(a)[n]
    ensures Mineable(p')
  {
  }

  lemma SameMineable(p: Pool, p': Pool)
    requires p'.chain == p.chain && p'.pending == p.pending
    ensures Mineable(p) ==> Mineable(p')
  {
    assert forall a :: p'.P(a) == p.P(a);
  }

  lemma LeavesMineable(p: Pool, p': Pool, tx: Tx)
    requires Leaves(p, p', tx)
    ensures Mineable(p) ==> Mineable(p')
  {
    if Mineable(p) {
      forall a, n | n in p'.P(a) ensures n in p.P(a) && p'.P(a)[n] == p.P(a)[n] {
      }
      assert p'.chain == p.chain;
      FewerMineable(p, p');
    }
  }

  lemma PlacedMineable(p: Pool, tx: Tx)
    requires p.chain.Nonce(tx.from) <= tx.nonce
    requires tx.cost <= p.chain.Balance(tx.from) && tx.gas <= p.chain.maxGas
    ensures Mineable(p) ==> Mineable(Placed(p, tx))
  {
    var p' := Placed(p, tx);
    assert forall a :: p'.P(a) == if a == tx.from && tx.nonce in p.P(a) then p.P(a)[tx.nonce := tx] else p.P(a);
  }

  lemma PromotedMineable(p: Pool, p': Pool, accounts: set<Address>, locals: set<Address>, cap: nat)
    requires PromotedAll(p, p', accounts, locals, cap)
    ensures Mineable(p) ==> Mineable(p')
  {
    hide ReadyEnd, Lowest;
    if Mineable(p) {
      forall a, n | n in p'.P(a)
        ensures p'.chain.Nonce(a) <= n && p'.P(a)[n].cost <= p'.chain.Balance(a) && p'.P(a)[n].gas <= p'.chain.maxGas
      {
        assert Promotes(p, p', accounts, locals, cap, a);
        if n !in p.P(a) {
          assert n in Payable(p, a);
        }
      }
    }
  }

  lemma FairMineable(p: Pool, p': Pool, locals: set<Address>, slots: nat, floor: nat, level: nat)
    requires Fair(p.pending, p'.pending, locals, slots, floor, level) && p'.chain == p.chain
    ensures Mineable(p) ==> Mineable(p')
  {
    hide Total, Lowest;
    if Mineable(p) {
      forall a, n | n in p'.P(a) ensures n in p.P(a) && p'.P(a)[n] == p.P(a)[n] {
        LowestIs(p.P(a), level);
      }
      FewerMineable(p, p');
    }
  }

  /** A demotion leaves only what can be mined. */
  lemma DemotedMineable(p: Pool, p': Pool)
    requires DemotedAll(p, p', {})
    ensures Mineable(p')
  {
    forall a, n | n in p'.P(a)
      ensures p'.chain.Nonce(a) <= n && p'.P(a)[n].cost <= p'.chain.Balance(a) && p'.P(a)[n].gas <= p'.chain.maxGas
    {
      assert p'.P(a) == Executable(p, a);
    }
  }

  // ----- making room -----

  /** One transaction has left the pool; if it was pending, those after it have gone back to the queue. */
  ghost predicate Leaves(p: Pool, p': Pool, tx: Tx) {
    if tx !in p.all then p' == p
    else if tx.nonce !in p.P(tx.from) then tx.from in p.queue && p' == QueuedGone(p, tx)
    else PendingCut(p, p', tx) && p'.all == p.all - {tx} && p'.chain == p.chain && Consistent(p', {}, {})
  }

  ghost predicate LeaveAll(p: Pool, p': Pool, drop: seq<Tx>)
    decreases |drop|
  {
    if drop == [] then p' == p
    else exists m {:trigger Leaves(m, p', drop[|drop| - 1])} ::
           LeaveAll(p, m, drop[..|drop| - 1]) && Leaves(m, p', drop[|drop| - 1])
  }

  lemma LeaveNone(p: Pool)
    ensures LeaveAll(p, p, [])
  {
  }

  lemma LeaveMore(p: Pool, m: Pool, p': Pool, drop: seq<Tx>, tx: Tx)
    requires LeaveAll(p, m, drop) && Leaves(m, p', tx)
    ensures LeaveAll(p, p', drop + [tx])
  {
    var all := drop + [tx];
    assert all[..|all| - 1] == drop && all[|all| - 1] == tx;
  }

  lemma LeaveOne(p: Pool, p': Pool, drop: seq<Tx>)
    requires LeaveAll(p, p', drop) && |drop| == 1
    ensures Leaves(p, p', drop[0])
  {
    hide Leaves;
    var m :| LeaveAll(p, m, drop[..|drop| - 1]) && Leaves(m, p', drop[|drop| - 1]);
    assert drop[..0] == [];
  }

  /** A full pool gives up its cheapest transactions that are not local, as far as there are any. */
  ghost predicate RoomMade(p: Pool, p': Pool, drop: seq<Tx>, locals: set<Address>, cfg: Config) {
    && LeaveAll(p, p', drop)
    && (forall t :: t in p'.all <==> t in p.all && t !in drop)
    && (forall d :: d in drop ==> d in p.all && d.from !in locals)
    && (forall d, t :: d in drop && t in p'.all && t.from !in locals ==>
          t.price > d.price || (t.price == d.price && t.nonce <= d.nonce))
    && if !Full(p, cfg) then drop == []
       else var count := |p.all| - (cfg.globalSlots + cfg.globalQueue - 1);
            |drop| == count || (|drop| < count && forall t :: t in p'.all ==> t.from in locals)
  }

  lemma RoomKept(p: Pool, locals: set<Address>, cfg: Config)
    requires !Full(p, cfg)
    ensures RoomMade(p, p, [], locals, cfg)
  {
    LeaveNone(p);
  }

  lemma RoomDropped(p: Pool, p': Pool, drop: seq<Tx>, locals: set<Address>, cfg: Config)
    requires Full(p, cfg) && LeaveAll(p, p', drop) && forall t :: t in p'.all <==> t in p.all && t !in drop
    requires forall d :: d in drop ==> d in p.all && d.from !in locals
    requires forall d, t :: d in drop && t in p.all && t.from !in locals && t !in drop ==>
               t.price > d.price || (t.price == d.price && t.nonce <= d.nonce)
    requires var count := |p.all| - (cfg.globalSlots + cfg.globalQueue - 1);
             |drop| <= count && (|drop| < count ==> forall t :: t in p.all && t.from !in locals ==> t in drop)
    ensures RoomMade(p, p', drop, locals, cfg)
  {
    hide LeaveAll;
  }

  /** Room is made only if there is none, and then something goes unless all is local: the cheapest. */
  lemma RoomIs(p: Pool, p': Pool, drop: seq<Tx>, locals: set<Address>, cfg: Config)
    requires RoomMade(p, p', drop, locals, cfg)
    ensures p'.all <= p.all
    ensures if |p.all| < cfg.globalSlots + cfg.globalQueue then p'.all == p.all
            else p'.all < p.all || forall t :: t in p'.all ==> t.from in locals
    ensures forall d, t :: d in p.all && d !in p'.all ==>
              && d.from !in locals
              && (t in p'.all && t.from !in locals ==> t.price > d.price || (t.price == d.price && t.nonce <= d.nonce))
  {
    hide LeaveAll;
    assert |drop| > 0 ==> drop[0] in p.all && drop[0] !in p'.all;
  }

  // ----- entering -----

  /** Where a transaction goes: it may replace a pending one, else it is queued. */
  function Target(p: Pool, tx: Tx): List {
    if tx.nonce in p.P(tx.from) then PendingOf(p, tx.from) else QueueOf(p, tx.from)
  }

  function Placed(p: Pool, tx: Tx): Pool {
    if tx.nonce in p.P(tx.from) then Swapped(p, tx) else Enqueued(p, tx)
  }

  /** With room for it, a transaction enters unless a better one has its nonce. */
  ghost predicate Inserted(h: Held, h': Held, tx: Tx, rules: Rules, replaced: bool, err: Option<Error>) {
    if Accepts(Target(h.pool, tx), tx, rules.cfg.priceBump) then
      && err == None && h'.pool == Placed(h.pool, tx) && replaced == (tx.nonce in Target(h.pool, tx).items)
      && h'.locals == if rules.local && tx.nonce !in h.pool.P(tx.from) then h.locals + {tx.from} else h.locals
    else
      err == Some(ReplaceUnderpriced) && h' == h && !replaced
  }

  /** The whole way of a transaction into the pool. */
  ghost predicate Admitted(h: Held, h': Held, arrival: Incoming, rules: Rules, replaced: bool, err: Option<Error>) {
    var refusal := Refusal(h, arrival, rules);
    if refusal.Some? then err == refusal && h' == h && !replaced
    else exists room: Pool, drop: seq<Tx> {:trigger RoomMade(h.pool, room, drop, h.locals, rules.cfg)} ::
           && RoomMade(h.pool, room, drop, h.locals, rules.cfg)
           && Inserted(Held(room, h.locals), h', arrival.tx, rules, replaced, err)
  }

  /** The one thing a transaction is refused for besides its own faults and a better one with its nonce. */
  lemma UnderpricedIff(h: Held, h': Held, arrival: Incoming, rules: Rules, replaced: bool, err: Option<Error>)
    requires Admitted(h, h', arrival, rules, replaced, err)
    ensures err == Some(Underpriced) <==>
            && arrival.tx !in h.pool.all
            && var local := rules.local || arrival.tx.from in h.locals;
               var v := Validate(h.pool.chain, rules.gasPrice, local, arrival);
               v == Some(Underpriced) ||
               (v == None && !local && h.pool.all != {} &&
                |h.pool.all| >= rules.cfg.globalSlots + rules.cfg.globalQueue &&
                forall t :: t in h.pool.all ==> t.price >= arrival.tx.price)
  {
    hide RoomMade, Validate, Accepts, Placed;
    if Refusal(h, arrival, rules) == None {
      var _, _ := AdmittedNew(h, h', arrival, rules, replaced, err);
    }
  }

  /** The accounts a batch makes dirty are those with something new that replaces nothing. */
  ghost predicate Batch(h: Held, h': Held, arrivals: seq<Incoming>, rules: Rules, errs: seq<Option<Error>>,
                        dirty: set<Address>)
    decreases |arrivals|
  {
    && |errs| == |arrivals|
    && if arrivals == [] then h' == h && dirty == {}
       else var n := |arrivals| - 1;
            exists m: Held, before: set<Address>, replaced: bool
              {:trigger Batch(h, m, arrivals[..n], rules, errs[..n], before),
                        Admitted(m, h', arrivals[n], rules, replaced, errs[n])} ::
              && Batch(h, m, arrivals[..n], rules, errs[..n], before)
              && Admitted(m, h', arrivals[n], rules, replaced, errs[n])
              && dirty == if errs[n] == None && !replaced then before + {arrivals[n].tx.from} else before
  }

  lemma BatchNone(h: Held, arrivals: seq<Incoming>, rules: Rules)
    ensures Batch(h, h, arrivals[..0], rules, [], {})
  {
  }

  lemma BatchOne(h: Held, h': Held, arrival: Incoming, rules: Rules, replaced: bool, err: Option<Error>)
    requires Admitted(h, h', arrival, rules, replaced, err)
    ensures Batch(h, h', [arrival], rules, [err], if err == None && !replaced then {arrival.tx.from} else {})
  {
    hide Admitted, Batch;
    BatchNone(h, [arrival], rules);
    BatchMore(h, h, h', [arrival], 0, rules, [], {}, replaced, err);
    assert [arrival][..1] == [arrival] && [] + [err] == [err] && {} + {arrival.tx.from} == {arrival.tx.from};
  }

  lemma BatchMore(h: Held, m: Held, h': Held, arrivals: seq<Incoming>, i: nat, rules: Rules, errs: seq<Option<Error>>,
                  dirty: set<Address>, replaced: bool, err: Option<Error>)
    requires i < |arrivals| && Batch(h, m, arrivals[..i], rules, errs, dirty)
    requires Admitted(m, h', arrivals[i], rules, replaced, err)
    ensures Batch(h, h', arrivals[..i + 1], rules, errs + [err],
                  if err == None && !replaced then dirty + {arrivals[i].tx.from} else dirty)
  {
    hide Admitted;
    assert arrivals[..i + 1][..i] == arrivals[..i] && (errs + [err])[..i] == errs;
    assert arrivals[..i + 1][i] == arrivals[i] && (errs + [err])[i] == err;
  }

  lemma BatchAlone(h: Held, h': Held, arrivals: seq<Incoming>, rules: Rules, errs: seq<Option<Error>>,
                   dirty: set<Address>)
    returns (replaced: bool)
    requires Batch(h, h', arrivals, rules, errs, dirty) && |arrivals| == 1
    ensures |errs| == 1 && Admitted(h, h', arrivals[0], rules, replaced, errs[0])
    ensures dirty == if errs[0] == None && !replaced then {arrivals[0].tx.from} else {}
  {
    hide Admitted;
    var n := |arrivals| - 1;
    var m: Held, before: set<Address>, r: bool :|
      && Batch(h, m, arrivals[..n], rules, errs[..n], before)
      && Admitted(m, h', arrivals[n], rules, r, errs[n])
      && dirty == if errs[n] == None && !r then before + {arrivals[n].tx.from} else before;
    replaced := r;
  }

  lemma AdmittedNew(h: Held, h': Held, arrival: Incoming, rules: Rules, replaced: bool, err: Option<Error>)
    returns (room: Pool, drop: seq<Tx>)
    requires Admitted(h, h', arrival, rules, replaced, err) && Refusal(h, arrival, rules) == None
    ensures RoomMade(h.pool, room, drop, h.locals, rules.cfg)
    ensures Inserted(Held(room, h.locals), h', arrival.tx, rules, replaced, err)
  {
    hide RoomMade, Inserted, Refusal;
    room, drop :| && RoomMade(h.pool, room, drop, h.locals, rules.cfg)
                  && Inserted(Held(room, h.locals), h', arrival.tx, rules, replaced, err);
  }

  // ----- promoting what has entered -----

  /** The limits leave the pool alone. */
  ghost predicate Fits(p: Pool, cfg: Config) {
    && (Total(p.pending) <= cfg.globalSlots || forall a :: a in p.pending ==> |p.pending[a].items| <= cfg.accountSlots)
    && Total(p.queue) <= cfg.globalQueue
  }

  /** The accounts are promoted, to `mid`; then the pending slots are shared and the queue is limited. */
  ghost predicate Promotion(p: Pool, mid: Pool, p': Pool, accounts: set<Address>, locals: set<Address>, beats: Beats,
                            level: nat, cfg: Config) {
    && Consistent(mid, {}, {}) && p'.all <= mid.all <= p.all
    && PromotedAll(p, mid, accounts, locals, cfg.accountQueue)
    && Fair(mid.pending, p'.pending, locals, cfg.globalSlots, cfg.accountSlots, level)
    && (Total(mid.queue) <= cfg.globalQueue ==> p'.queue == mid.queue)
    && (Total(mid.queue) > cfg.globalQueue ==>
          Total(p'.queue) == cfg.globalQueue || (Total(p'.queue) > cfg.globalQueue && p'.queue.Keys <= locals))
    && LatestFirst(mid.queue, p'.queue, locals, beats)
    && (Fits(mid, cfg) ==> p' == mid)
  }

  lemma FairFits(p: Pool, pending: Lists, locals: set<Address>, level: nat, cfg: Config)
    requires Fair(p.pending, pending, locals, cfg.globalSlots, cfg.accountSlots, level)
    ensures Fits(p, cfg) ==> pending == p.pending && Total(p.queue) <= cfg.globalQueue
  {
    hide Total, Lowest, Levelled;
    if Fits(p, cfg) {
      if Total(p.pending) <= cfg.globalSlots {
        LevelSizes(p.pending, locals, level + 1);
        TotalMonotone(Levelled(p.pending, locals, level + 1), p.pending);
      } else {
        LevelAbove(p.pending, locals, level);
      }
    }
  }

  lemma PromotionFewer(p: Pool, mid: Pool, p': Pool, accounts: set<Address>, locals: set<Address>, beats: Beats,
                       level: nat, cfg: Config)
    requires Promotion(p, mid, p', accounts, locals, beats, level, cfg)
    ensures p'.all <= p.all && Consistent(mid, {}, {}) && PromotedAll(p, mid, accounts, locals, cfg.accountQueue)
  {
  }

  // ----- few transactions fit -----

  lemma {:induction false} AsManyTxs(m: Items)
    requires Keyed(m)
    ensures |Txs(m)| == |m|
    decreases |m|
  {
    if m != map[] {
      var n :| n in m;
      AsManyTxs(Without(m, n));
      assert Txs(m) == Txs(Without(m, n)) + {m[n]} by {
        forall tx ensures tx in Txs(m) <==> tx in Txs(Without(m, n)) + {m[n]} {
          TxsHas(m, tx);
          TxsHas(Without(m, n), tx);
        }
      }
      TxsHas(Without(m, n), m[n]);
    }
  }

  lemma SubsetSize(a: set<Tx>, b: set<Tx>)
    requires a <= b
    ensures |a| <= |b|
  {
    assert b == a + (b - a);
  }

  /** The transactions in the lists of some accounts, each under its own account. */
  ghost predicate Within(m: Lists, txs: set<Tx>) {
    forall a, n :: a in m && n in m[a].items ==>
      m[a].items[n] in txs && m[a].items[n].nonce == n && m[a].items[n].from == a
  }

  lemma {:induction false} TotalWithin(m: Lists, txs: set<Tx>)
    requires Within(m, txs)
    ensures Total(m) <= |txs|
    decreases |m|
  {
    if m == map[] {
      assert m - (m.Keys - {}) == m;
      EmptyTotal(m, {});
    } else {
      hide Total;
      var a :| a in m;
      TotalWithout(m, a);
      var own := Txs(m[a].items);
      AsManyTxs(m[a].items);
      forall tx | tx in own ensures tx in txs && tx.from == a {
        TxsHas(m[a].items, tx);
      }
      TotalWithin(m - {a}, txs - own);
      assert txs == own + (txs - own);
    }
  }

  lemma ListWithin(p: Pool, a: Address)
    requires Consistent(p, {}, {}) && a in p.pending
    ensures |p.pending[a].items| <= |p.all|
  {
    assert AccountOk(p, {}, a);
    AsManyTxs(p.P(a));
    forall tx | tx in Txs(p.P(a)) ensures tx in p.all {
      TxsHas(p.P(a), tx);
      assert TxOk(p, {}, tx);
    }
    SubsetSize(Txs(p.P(a)), p.all);
  }

  lemma QueueWithin(p: Pool, queued: set<Tx>)
    requires Consistent(p, {}, {}) && forall tx :: tx in p.all && tx.nonce !in p.P(tx.from) ==> tx in queued
    ensures Total(p.queue) <= |queued|
  {
    hide Total;
    forall a, n | a in p.queue && n in p.queue[a].items
      ensures p.queue[a].items[n] in queued && p.queue[a].items[n].nonce == n && p.queue[a].items[n].from == a
    {
      assert AccountOk(p, {}, a);
      assert TxOk(p, {}, p.queue[a].items[n]);
    }
    TotalWithin(p.queue, queued);
  }

  lemma PendingWithin(p: Pool)
    requires Consistent(p, {}, {})
    ensures Total(p.pending) <= |p.all|
  {
    hide Total;
    forall a, n | a in p.pending && n in p.pending[a].items
      ensures p.pending[a].items[n] in p.all && p.pending[a].items[n].nonce == n && p.pending[a].items[n].from == a
    {
      assert AccountOk(p, {}, a);
      assert TxOk(p, {}, p.pending[a].items[n]);
    }
    TotalWithin(p.pending, p.all);
  }

  lemma AllFit(p: Pool, cfg: Config)
    requires Consistent(p, {}, {}) && |p.all| <= cfg.globalSlots && |p.all| <= cfg.globalQueue
    ensures Fits(p, cfg)
  {
    hide Total;
    PendingWithin(p);
    QueueWithin(p, p.all);
  }

  /** A batch: what it makes of the pool, which accounts it makes dirty, and the promotion of these. */
  datatype Batched = Batched(held: Held, dirty: set<Address>, mid: Pool, level: nat)

  ghost predicate Entered(h: Held, h': Held, arrivals: seq<Incoming>, rules: Rules, beats: Beats,
                          errs: seq<Option<Error>>, b: Batched) {
    && Batch(h, b.held, arrivals, rules, errs, b.dirty) && h'.locals == b.held.locals
    && if b.dirty == {} then h'.pool == b.held.pool
       else Promotion(b.held.pool, b.mid, h'.pool, b.dirty, h'.locals, beats, b.level, rules.cfg)
  }
}
