/**
Runs of the transaction pool whose resets leave gaps: one takes back too little, the other gives up
a pending transaction of an account that takes nothing back.
*/
module PoolRuns {
  import opened Wrappers
  import opened TxSpec
  import opened TxSortedMap
  import opened TxList
  import opened TxPriced
  import opened PoolState
  import opened PoolSteps
  import opened PoolFairness
  import opened PoolQueue
  import opened PoolGaps
  import opened PoolEntry
  import opened PoolTaking
  import opened TxPool

  // ----- one transaction enters -----

  /** All lists are short, and what is queued is in `queued`. */
  lemma FewFit(p: Pool, queued: set<Tx>, cfg: Config)
    requires Consistent(p, {}, {}) && |p.all| <= cfg.accountSlots && |queued| <= cfg.globalQueue
    requires forall tx :: tx in p.all && tx.nonce !in p.P(tx.from) ==> tx in queued
    ensures Fits(p, cfg)
  {
    hide Total;
    forall a | a in p.pending ensures |p.pending[a].items| <= cfg.accountSlots {
      ListWithin(p, a);
    }
    QueueWithin(p, queued);
  }

  lemma OneRun(tx: Tx, start: nat)
    requires tx.nonce <= start
    ensures var q := map[tx.nonce := tx];
            ReadyEnd(q, start) == tx.nonce + 1 && Below(q, tx.nonce + 1) == q && From(q, tx.nonce + 1) == map[]
  {
    hide ReadyEnd;
    var q: Items := map[tx.nonce := tx];
    assert tx.nonce in q;
    ReadyIsMaximalRun(q, start);
    assert tx.nonce + 1 < ReadyEnd(q, start) ==> tx.nonce + 1 in Below(q, ReadyEnd(q, start));
  }

  lemma PayableOne(p: Pool, tx: Tx)
    requires p.Q(tx.from) == map[tx.nonce := tx] && p.chain.Nonce(tx.from) <= tx.nonce
    requires !TooCostly(tx, p.chain.Balance(tx.from), p.chain.maxGas)
    ensures Payable(p, tx.from) == map[tx.nonce := tx]
  {
    assert From(p.Q(tx.from), p.chain.Nonce(tx.from)) == map[tx.nonce := tx];
  }

  lemma LowestNone(cap: nat)
    ensures Lowest(map[], cap) == map[]
  {
  }

  lemma JoinOne(m: Items, tx: Tx)
    ensures m + map[tx.nonce := tx] == m[tx.nonce := tx]
  {
  }

  lemma OneReady(p: Pool, p': Pool, tx: Tx, local: bool, cap: nat)
    requires PromotedTo(p, p', tx.from, local, cap) && p.Q(tx.from) == map[tx.nonce := tx]
    requires p.chain.Nonce(tx.from) <= tx.nonce <= p.NextNonce(tx.from)
    requires !TooCostly(tx, p.chain.Balance(tx.from), p.chain.maxGas)
    ensures p'.P(tx.from) == p.P(tx.from)[tx.nonce := tx]
    ensures p'.NextNonce(tx.from) == tx.nonce + 1 && p'.Q(tx.from) == map[]
  {
    hide ReadyEnd, Below, Lowest, Payable, From;
    PayableOne(p, tx);
    OneRun(tx, p.NextNonce(tx.from));
    LowestNone(cap);
    JoinOne(p.P(tx.from), tx);
  }

  /** The pool after room was made for a new transaction that replaces nothing and is ready at once. */
  ghost predicate Arrives(room: Pool, p': Pool, tx: Tx) {
    && Consistent(p', {}, {}) && p'.chain == room.chain && p'.all == room.all + {tx} && p'.Q(tx.from) == map[]
    && p'.P(tx.from) == room.P(tx.from)[tx.nonce := tx] && p'.NextNonce(tx.from) == tx.nonce + 1
    && forall b :: b != tx.from ==> p'.P(b) == room.P(b) && p'.Q(b) == room.Q(b) && p'.NextNonce(b) == room.NextNonce(b)
  }

  lemma NoneLost(room: Pool, p': Pool, tx: Tx)
    requires Consistent(room, {}, {}) && Consistent(p', {}, {}) && p'.all <= room.all + {tx}
    requires room.Q(tx.from) == map[] && tx.nonce !in room.P(tx.from)
    requires p'.P(tx.from) == room.P(tx.from)[tx.nonce := tx]
    requires forall b :: b != tx.from ==> p'.P(b) == room.P(b) && p'.Q(b) == room.Q(b)
    ensures p'.all == room.all + {tx}
  {
    forall t | t in room.all + {tx} ensures t in p'.all {
      assert TxOk(room, {}, t) && TxOk(p', {}, t);
      assert t.from != tx.from ==> p'.P(t.from) == room.P(t.from) && p'.Q(t.from) == room.Q(t.from);
    }
  }

  lemma EntersPending(room: Pool, mid: Pool, p': Pool, tx: Tx, locals: set<Address>, beats: Beats, level: nat,
                      cfg: Config, queued: set<Tx>)
    requires Consistent(room, {}, {}) && tx !in room.all && tx.nonce !in room.P(tx.from) && room.Q(tx.from) == map[]
    requires room.chain.Nonce(tx.from) <= tx.nonce <= room.NextNonce(tx.from)
    requires !TooCostly(tx, room.chain.Balance(tx.from), room.chain.maxGas)
    requires Promotion(Enqueued(room, tx), mid, p', {tx.from}, locals, beats, level, cfg)
    requires |room.all| < cfg.accountSlots && |queued| <= cfg.globalQueue
    requires forall t :: t in room.all && t.nonce !in room.P(t.from) ==> t in queued
    ensures Arrives(room, p', tx)
  {
    hide Fair, LatestFirst, Total, PromotedTo, Consistent, Fits;
    var p := Enqueued(room, tx);
    assert p.Q(tx.from) == map[tx.nonce := tx] && p.P(tx.from) == room.P(tx.from);
    assert p.all == room.all + {tx};
    assert Promotes(p, mid, {tx.from}, locals, cfg.accountQueue, tx.from);
    OneReady(p, mid, tx, tx.from in locals, cfg.accountQueue);
    forall b | b != tx.from
      ensures mid.P(b) == room.P(b) && mid.Q(b) == room.Q(b) && mid.NextNonce(b) == room.NextNonce(b)
    {
      assert Promotes(p, mid, {tx.from}, locals, cfg.accountQueue, b);
      assert p.P(b) == room.P(b) && p.Q(b) == room.Q(b) && p.NextNonce(b) == room.NextNonce(b);
    }
    SubsetSize(mid.all, room.all + {tx});
    forall t | t in mid.all && t.nonce !in mid.P(t.from) ensures t in queued {
      assert t in room.all;
    }
    FewFit(mid, queued, cfg);
    NoneLost(room, mid, tx);
  }

  /** A single arrival that is not refused and not local, in whose place there is nothing. */
  lemma EntersAlone(h: Held, h': Held, arrival: Incoming, rules: Rules, beats: Beats, errs: seq<Option<Error>>,
                    b: Batched)
    returns (room: Pool, drop: seq<Tx>)
    requires Entered(h, h', [arrival], rules, beats, errs, b) && Refusal(h, arrival, rules) == None && !rules.local
    ensures RoomMade(h.pool, room, drop, h.locals, rules.cfg) && h'.locals == h.locals
    ensures var tx := arrival.tx;
            tx.nonce !in room.P(tx.from) && tx.nonce !in room.Q(tx.from) ==>
              Promotion(Enqueued(room, tx), b.mid, h'.pool, {tx.from}, h.locals, beats, b.level, rules.cfg)
  {
    hide RoomMade, Promotion, Refusal, Batch, Enqueued;
    var replaced := BatchAlone(h, b.held, [arrival], rules, errs, b.dirty);
    room, drop := AdmittedNew(h, b.held, arrival, rules, replaced, errs[0]);
  }

  /** A pool with room takes a valid new transaction that is ready at once. */
  lemma Joins(h: Held, h': Held, arrival: Incoming, rules: Rules, beats: Beats, errs: seq<Option<Error>>, b: Batched,
              queued: set<Tx>)
    requires Entered(h, h', [arrival], rules, beats, errs, b) && Refusal(h, arrival, rules) == None && !rules.local
    requires Consistent(h.pool, {}, {}) && !Full(h.pool, rules.cfg)
    requires var tx := arrival.tx;
             && tx.nonce !in h.pool.P(tx.from) && h.pool.Q(tx.from) == map[]
             && tx.nonce <= h.pool.NextNonce(tx.from)
    requires |h.pool.all| < rules.cfg.accountSlots && |queued| <= rules.cfg.globalQueue
    requires forall t :: t in h.pool.all && t.nonce !in h.pool.P(t.from) ==> t in queued
    ensures Arrives(h.pool, h'.pool, arrival.tx) && h'.locals == h.locals
  {
    hide Promotion, Enqueued, Consistent, Arrives, Entered;
    var room, drop := EntersAlone(h, h', arrival, rules, beats, errs, b);
    EntersPending(room, b.mid, h'.pool, arrival.tx, h.locals, beats, b.level, rules.cfg, queued);
  }

  function Sample(a: Address, nonce: nat, price: int): Tx {
    Tx(nonce, a, nonce, price, 21000, 21000)
  }

  function Arrival(tx: Tx): Incoming {
    Incoming(tx, 110, 0, true, Some(21000))
  }

  function State(nonces: map<Address, nat>, a: Address, b: Address): Chain {
    Chain(nonces, map[a := 1_000_000, b := 1_000_000], 1_000_000)
  }

  /** Nonces 5 and 6 of an account become pending in a new pool. */
  method TwoPending(cfg: Config, a: Address, b: Address, beats: Beats) returns (pool: TxPool)
    requires cfg.accountSlots >= 2 && cfg.globalSlots + cfg.globalQueue >= 2
    ensures pool.Valid() && Gapless(pool.View()) && pool.cfg == cfg && pool.gasPrice == 1 && pool.locals == {}
    ensures fresh(pool) && fresh(pool.priced)
    ensures pool.View().P(a) == map[5 := Sample(a, 5, 1), 6 := Sample(a, 6, 2)]
    ensures pool.all == {Sample(a, 5, 1), Sample(a, 6, 2)} && pool.View().Q(a) == map[]
  {
    hide Gapless, Entered, Consistent;
    pool := new TxPool(cfg, State(map[a := 5], a, b), 1);
    var t5, t6 := Sample(a, 5, 1), Sample(a, 6, 2);
    ghost var h0 := Held(pool.View(), {});
    var err;
    ghost var b5, b6;
    err, b5 := pool.AddTx(Arrival(t5), false, beats);
    ghost var h1 := Held(pool.View(), pool.locals);
    Joins(h0, h1, Arrival(t5), Rules(false, 1, cfg), beats, [err], b5, {});
    err, b6 := pool.AddTx(Arrival(t6), false, beats);
    ghost var h2 := Held(pool.View(), pool.locals);
    Joins(h1, h2, Arrival(t6), Rules(false, 1, cfg), beats, [err], b6, {});
    assert h2.pool.P(a) == map[5 := t5, 6 := t6];
  }

  lemma GapAt(h: Held, rules: Rules, a: Address)
    requires h.pool.chain == State(map[a := 3], a, a) && rules.gasPrice == 1
    requires h.pool.P(a) == map[5 := Sample(a, 5, 1), 6 := Sample(a, 6, 2)]
    ensures Gap(h, [Arrival(Sample(a, 3, 1))], rules, a)
  {
    var arrivals, m := [Arrival(Sample(a, 3, 1))], h.pool.P(a);
    assert 5 in m && MinOf(m.Keys) == 5;
    assert Takes(h, arrivals[0], rules, a, 3);
    assert !Taken(h, arrivals, rules, a, 4);
    assert arrivals[..0] == [];
    assert Occupant(h, m[5], arrivals, rules) == m[5];
  }

  /** With nonces 5 and 6 pending the chain goes back to nonce 3, and of 3 and 4 only 3 is taken back. */
  method TakesBackTooLittle(a: Address, beats: Beats) returns (pool: TxPool, ghost before: Pool)
    ensures pool.Valid() && Gapless(before) && before.P(a).Keys == {5, 6} && !Gapless(pool.View())
  {
    hide Gapless, Consistent, Healthy, TxPool.Staged, Gap;
    var cfg := Config(10, 16, 4096, 64, 1024);
    pool := TwoPending(cfg, a, a, beats);
    before := pool.View();
    var t3, state := Sample(a, 3, 1), State(map[a := 3], a, a);
    ghost var _ := pool.Reset(Some(state), [Arrival(t3)], beats);
    GapAt(Held(before.(chain := state, pendingNonces := map[]), {}), Rules(false, 1, cfg), a);
  }

  /** A full pool gives up its only cheapest transaction. */
  lemma GivesUpCheapest(p: Pool, room: Pool, drop: seq<Tx>, s: Tx, t: Tx, cfg: Config)
    requires RoomMade(p, room, drop, {}, cfg) && Full(p, cfg) && cfg.globalSlots + cfg.globalQueue == 2
    requires p.all == {s, t} && s.price < t.price
    ensures room.all == {t} && Leaves(p, room, s)
  {
    hide Leaves, LeaveAll;
    assert |p.all| == 2;
    assert |drop| == 1 by {
      assert drop == [] ==> s in room.all;
    }
    assert drop[0] in drop;
    assert t !in room.all ==> s in room.all && s.price < t.price;
    assert drop[0] == s;
    LeaveOne(p, room, drop);
  }

  /** Giving up nonce 5 sends 6 back to the queue, and lowers the next nonce below that of the chain. */
  lemma CutRoom(p: Pool, room: Pool, a: Address)
    requires Consistent(p, {}, {}) && p.P(a) == map[5 := Sample(a, 5, 1), 6 := Sample(a, 6, 2)]
    requires Leaves(p, room, Sample(a, 5, 1)) && p.all == {Sample(a, 5, 1), Sample(a, 6, 2)}
    requires p.pendingNonces == map[] && p.chain.Nonce(a) == 6
    ensures Consistent(room, {}, {}) && room.chain == p.chain && room.P(a) == map[] && room.NextNonce(a) == 5
    ensures forall b :: b != a ==> room.P(b) == map[] && room.Q(b) == map[] && room.NextNonce(b) == p.chain.Nonce(b)
  {
    assert AccountOk(p, {}, a);
    assert Below(p.P(a), 5) == map[];
    assert room.P(a) == map[];
    forall b | b != a ensures room.P(b) == map[] && room.Q(b) == map[] {
      assert AccountOk(room, {}, b);
      assert forall n :: n in room.P(b) ==> TxOk(room, {}, room.P(b)[n]);
      assert forall n :: n in room.Q(b) ==> TxOk(room, {}, room.Q(b)[n]);
    }
  }

  lemma StaysAlone(p: Pool, b: Address, tx: Tx)
    requires p.P(b) == map[tx.nonce := tx] && p.chain.Nonce(b) == tx.nonce
    requires !TooCostly(tx, p.chain.Balance(b), p.chain.maxGas)
    ensures tx.nonce in Executable(p, b)
  {
    var m := From(p.P(b), tx.nonce);
    assert m == p.P(b);
    assert Stays(true, m, p.chain.Balance(b), p.chain.maxGas, tx.nonce);
  }

  lemma StuckBelow(p: Pool, a: Address)
    requires p.P(a) == map[] && p.NextNonce(a) < p.chain.Nonce(a)
    ensures !Healthy(p, a)
  {
  }

  /** What is pending stays pending in a promotion of all queued accounts. */
  lemma StaysPending(p: Pool, p': Pool, locals: set<Address>, cap: nat, a: Address, n: nat)
    requires PromotedAll(p, p', p.queue.Keys, locals, cap) && n in p.P(a)
    ensures n in p'.P(a)
  {
    hide ReadyEnd, Payable;
    PromotesAny(p, p', locals, cap, a);
  }

  /** The reset of the run below. */
  lemma GivenUp(pool: TxPool, s: Stages, p: Pool, a: Address, b: Address, beats: Beats)
    requires a != b && Consistent(p, {}, {}) && p.chain == State(map[a := 6], a, b) && p.pendingNonces == map[]
    requires p.P(a) == map[5 := Sample(a, 5, 1), 6 := Sample(a, 6, 2)] && p.all == {Sample(a, 5, 1), Sample(a, 6, 2)}
    requires pool.cfg == Config(10, 2, 1, 5, 1) && pool.gasPrice == 1
    requires pool.Staged(s, p, {}, [Arrival(Sample(b, 0, 3))], pool.View(), pool.locals, 1, beats)
    ensures !Healthy(s.added, a) && pool.View() == s.promoted
  {
    hide Entered, Consistent, Promotion, Healthy, Prepared, Fits, RoomMade, Leaves, Enqueued;
    var cfg := pool.cfg;
    var t5, t6, tx := Sample(a, 5, 1), Sample(a, 6, 2), Sample(b, 0, 3);
    var h := Held(p, {});
    assert t5 in p.all && |p.all| == 2;
    var h', rules := Held(s.added, pool.locals), Rules(false, 1, cfg);
    var room, drop := EntersAlone(h, h', Arrival(tx), rules, beats, s.errs, s.taken);
    GivesUpCheapest(p, room, drop, t5, t6, cfg);
    CutRoom(p, room, a);
    EntersPending(room, s.taken.mid, s.added, tx, {}, beats, s.taken.level, cfg, {t6});
    StuckBelow(s.added, a);
    StagesShrink(s.added, s.demoted, s.refreshed, s.promoted, pool.View(), pool.locals, beats, s.level, cfg);
    SubsetSize(s.promoted.all, s.added.all);
    StaysAlone(s.added, b, tx);
    StaysPending(s.refreshed, s.promoted, pool.locals, cfg.accountQueue, b, 0);
    FewFit(s.promoted, {t6}, cfg);
  }

  /**
  Nonces 5 and 6 are pending, 5 is mined, and another account takes a transaction back. The pool is
  full and gives up 5; then 6 waits in the queue behind a next nonce that the chain has passed.
  */
  method GivesUpMined(a: Address, b: Address, beats: Beats) returns (pool: TxPool, ghost before: Pool)
    requires a != b
    ensures pool.Valid() && Gapless(before) && before.P(a).Keys == {5, 6} && !Gapless(pool.View())
  {
    hide Gapless, Consistent, Healthy, TxPool.Staged;
    var cfg := Config(10, 2, 1, 5, 1);
    pool := TwoPending(cfg, a, b, beats);
    before := pool.View();
    var tx, state := Sample(b, 0, 3), State(map[a := 6], a, b);
    ghost var s := pool.Reset(Some(state), [Arrival(tx)], beats);
    ChainAside(before, state, map[]);
    GivenUp(pool, s, before.(chain := state, pendingNonces := map[]), a, b, beats);
  }
}
