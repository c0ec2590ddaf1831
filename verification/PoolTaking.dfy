/**
Resets of a pool with room. For these the condition under which taking transactions back leaves a gap
can be read off the lists before the reset and the transactions it is given.
*/
module PoolTaking {
  import opened Wrappers
  import opened TxSpec
  import opened TxSortedMap
  import opened TxList
  import opened TxPriced
  import opened PoolState
  import opened PoolSteps
  import opened PoolFairness
  import opened PoolQueue
  import opened PoolGaps
  import opened PoolEntry

  // ----- what a batch does to an account -----

  /** A valid arrival of account `a` with nonce `n`. */
  predicate Takes(h: Held, arrival: Incoming, rules: Rules, a: Address, n: nat) {
    && arrival.tx.from == a && arrival.tx.nonce == n
    && Validate(h.pool.chain, rules.gasPrice, rules.local || a in h.locals, arrival) == None
  }

  predicate Taken(h: Held, arrivals: seq<Incoming>, rules: Rules, a: Address, n: nat) {
    exists i :: 0 <= i < |arrivals| && Takes(h, arrivals[i], rules, a, n)
  }

  /** The transaction that stands in the place of the pending `tx` after the arrivals. */
  function Occupant(h: Held, tx: Tx, arrivals: seq<Incoming>, rules: Rules): Tx
    decreases |arrivals|
  {
    if arrivals == [] then tx
    else
      var n := |arrivals| - 1;
      var now := Occupant(h, tx, arrivals[..n], rules);
      if Takes(h, arrivals[n], rules, tx.from, tx.nonce) && Replaceable(now, arrivals[n].tx, rules.cfg.priceBump)
      then arrivals[n].tx else now
  }

  predicate Dear(p: Pool, tx: Tx) {
    TooCostly(tx, p.chain.Balance(tx.from), p.chain.maxGas)
  }

  /** Account `a` after the arrivals: valid ones with new nonces are queued, others replace what is pending. */
  ghost predicate Grown(h: Held, h': Held, arrivals: seq<Incoming>, rules: Rules, a: Address) {
    var p, p' := h.pool, h'.pool;
    && (forall n: nat {:trigger n in p'.P(a)} :: n in p'.P(a) <==> n in p.P(a))
    && (forall n: nat {:trigger n in p'.Q(a)} ::
          n in p'.Q(a) <==> n in p.Q(a) || (n !in p.P(a) && Taken(h, arrivals, rules, a, n)))
    && (forall n: nat {:trigger p'.Q(a)[n]} :: n in p'.Q(a) && n !in p.Q(a) ==> !Dear(p, p'.Q(a)[n]))
    && (forall n: nat {:trigger p'.P(a)[n]} ::
         n in p.P(a) && n in p'.P(a) ==> p'.P(a)[n] == Occupant(h, p.P(a)[n], arrivals, rules))
  }

  /** Something new is queued. */
  ghost predicate HasNew(h: Held, h': Held, a: Address) {
    exists n: nat :: n in h'.pool.Q(a) && n !in h.pool.Q(a)
  }

  ghost predicate GrownAll(h: Held, h': Held, arrivals: seq<Incoming>, rules: Rules, dirty: set<Address>) {
    && Consistent(h'.pool, {}, {}) && h'.locals == h.locals
    && h'.pool.chain == h.pool.chain && h'.pool.pendingNonces == h.pool.pendingNonces
    && |h'.pool.all| <= |h.pool.all| + |arrivals|
    && (forall a {:trigger Grown(h, h', arrivals, rules, a)} :: Grown(h, h', arrivals, rules, a))
    && (forall a {:trigger HasNew(h, h', a)} :: a in dirty <==> HasNew(h, h', a))
  }

  lemma TakenMore(h: Held, arrivals: seq<Incoming>, rules: Rules, a: Address, n: nat)
    requires arrivals != []
    ensures var k := |arrivals| - 1;
            Taken(h, arrivals, rules, a, n) <==>
            Taken(h, arrivals[..k], rules, a, n) || Takes(h, arrivals[k], rules, a, n)
  {
    var k := |arrivals| - 1;
    if Taken(h, arrivals, rules, a, n) {
      var i :| 0 <= i < |arrivals| && Takes(h, arrivals[i], rules, a, n);
      assert i < k ==> arrivals[..k][i] == arrivals[i];
    }
    if Taken(h, arrivals[..k], rules, a, n) {
      var i :| 0 <= i < k && Takes(h, arrivals[..k][i], rules, a, n);
      assert arrivals[..k][i] == arrivals[i];
    }
  }

  /** A pool with room takes an arrival in as it is. */
  lemma WithRoom(h: Held, h': Held, arrival: Incoming, rules: Rules, replaced: bool, err: Option<Error>)
    requires Admitted(h, h', arrival, rules, replaced, err) && !Full(h.pool, rules.cfg) && !rules.local
    ensures var tx := arrival.tx;
            if tx in h.pool.all || !Takes(h, arrival, rules, tx.from, tx.nonce) then h' == h && err != None
            else Inserted(h, h', tx, rules, replaced, err)
  {
    hide Inserted;
    if Refusal(h, arrival, rules) == None {
      var room, drop := AdmittedNew(h, h', arrival, rules, replaced, err);
      assert room == h.pool;
    }
  }

  /** What a single arrival does to account `a`. */
  ghost predicate OneStep(h: Held, h': Held, arrival: Incoming, rules: Rules, a: Address) {
    var p, p' := h.pool, h'.pool;
    && (forall n: nat {:trigger n in p'.P(a)} :: n in p'.P(a) <==> n in p.P(a))
    && (forall n: nat {:trigger n in p'.Q(a)} ::
          n in p'.Q(a) <==> n in p.Q(a) || (n !in p.P(a) && Takes(h, arrival, rules, a, n)))
    && (forall n: nat {:trigger p'.Q(a)[n]} ::
          n in p'.Q(a) ==> (n in p.Q(a) && p'.Q(a)[n] == p.Q(a)[n]) || !Dear(p, p'.Q(a)[n]))
    && (forall n: nat {:trigger p'.P(a)[n]} :: n in p.P(a) && n in p'.P(a) ==>
          p'.P(a)[n] == if Takes(h, arrival, rules, a, n) && Replaceable(p.P(a)[n], arrival.tx, rules.cfg.priceBump)
                        then arrival.tx else p.P(a)[n])
  }

  lemma NothingHappens(h: Held, arrival: Incoming, rules: Rules, a: Address)
    requires Consistent(h.pool, {}, {})
    requires arrival.tx in h.pool.all || !Takes(h, arrival, rules, arrival.tx.from, arrival.tx.nonce)
    ensures OneStep(h, h, arrival, rules, a)
  {
    hide Consistent, Validate;
    var tx := arrival.tx;
    if tx in h.pool.all {
      if tx.nonce in h.pool.P(tx.from) {
        PendingTx(h.pool, tx);
      } else {
        KnownQueued(h.pool, tx);
      }
    }
  }

  lemma ValidPaid(h: Held, arrival: Incoming, rules: Rules)
    ensures Takes(h, arrival, rules, arrival.tx.from, arrival.tx.nonce) ==> !Dear(h.pool, arrival.tx)
  {
  }

  lemma StepIs(h: Held, h': Held, arrival: Incoming, rules: Rules, replaced: bool, err: Option<Error>, a: Address)
    requires Consistent(h.pool, {}, {}) && arrival.tx !in h.pool.all && !rules.local
    requires Takes(h, arrival, rules, arrival.tx.from, arrival.tx.nonce)
    requires Inserted(h, h', arrival.tx, rules, replaced, err)
    ensures OneStep(h, h', arrival, rules, a)
    ensures HasNew(h, h', a) <==> a == arrival.tx.from && err == None && !replaced
  {
    hide Consistent, Validate;
    ValidPaid(h, arrival, rules);
    hide Dear;
    var tx, p, p' := arrival.tx, h.pool, h'.pool;
    if a != tx.from || err != None {
      assert p'.P(a) == p.P(a) && p'.Q(a) == p.Q(a);
    } else if tx.nonce in p.P(a) {
      assert p'.P(a) == p.P(a)[tx.nonce := tx] && p'.Q(a) == p.Q(a);
    } else {
      assert p'.P(a) == p.P(a) && p'.Q(a) == p.Q(a)[tx.nonce := tx];
      assert tx.nonce in p'.Q(a);
    }
  }

  lemma GrownMore(h: Held, m: Held, h': Held, arrivals: seq<Incoming>, rules: Rules, a: Address)
    requires Consistent(h.pool, {}, {}) && arrivals != [] && m.pool.chain == h.pool.chain && m.locals == h.locals
    requires Grown(h, m, arrivals[..|arrivals| - 1], rules, a) && OneStep(m, h', arrivals[|arrivals| - 1], rules, a)
    ensures Grown(h, h', arrivals, rules, a)
  {
    hide Consistent, Validate, Taken, Replaceable, TooCostly;
    var k := |arrivals| - 1;
    forall n: nat ensures Takes(m, arrivals[k], rules, a, n) <==> Takes(h, arrivals[k], rules, a, n) {
    }
    var p, p' := h.pool, h'.pool;
    forall n: nat ensures n in p'.Q(a) <==> n in p.Q(a) || (n !in p.P(a) && Taken(h, arrivals, rules, a, n)) {
      TakenMore(h, arrivals, rules, a, n);
      assert n in m.pool.P(a) <==> n in p.P(a);
      assert n in m.pool.Q(a) <==> n in p.Q(a) || (n !in p.P(a) && Taken(h, arrivals[..k], rules, a, n));
    }
    forall n: nat | n in p'.Q(a) && n !in p.Q(a) ensures !Dear(p, p'.Q(a)[n]) {
      assert n in m.pool.Q(a) ==> !Dear(p, m.pool.Q(a)[n]);
    }
    forall n: nat | n in p.P(a) && n in p'.P(a) ensures p'.P(a)[n] == Occupant(h, p.P(a)[n], arrivals, rules) {
      PendingIs(p, a, n);
      assert n in m.pool.P(a);
      assert m.pool.P(a)[n] == Occupant(h, p.P(a)[n], arrivals[..k], rules);
    }
  }

  lemma PendingIs(p: Pool, a: Address, n: nat)
    requires Consistent(p, {}, {}) && n in p.P(a)
    ensures p.P(a)[n].from == a && p.P(a)[n].nonce == n
  {
    assert AccountOk(p, {}, a);
  }

  lemma GrownNone(h: Held, rules: Rules)
    requires Consistent(h.pool, {}, {})
    ensures GrownAll(h, h, [], rules, {})
  {
    hide Consistent;
    forall a ensures Grown(h, h, [], rules, a) {
    }
  }

  /** A batch of which every arrival finds room. */
  lemma {:induction false} BatchGrows(h: Held, h': Held, arrivals: seq<Incoming>, rules: Rules,
                                      errs: seq<Option<Error>>, dirty: set<Address>)
    requires Batch(h, h', arrivals, rules, errs, dirty) && Consistent(h.pool, {}, {}) && !rules.local
    requires |h.pool.all| + |arrivals| <= rules.cfg.globalSlots + rules.cfg.globalQueue
    ensures GrownAll(h, h', arrivals, rules, dirty)
    decreases |arrivals|
  {
    hide Consistent, Admitted, GrownAll;
    if arrivals == [] {
      GrownNone(h, rules);
    } else {
      var n := |arrivals| - 1;
      var m: Held, before: set<Address>, replaced: bool :|
        && Batch(h, m, arrivals[..n], rules, errs[..n], before)
        && Admitted(m, h', arrivals[n], rules, replaced, errs[n])
        && dirty == if errs[n] == None && !replaced then before + {arrivals[n].tx.from} else before;
      BatchGrows(h, m, arrivals[..n], rules, errs[..n], before);
      GrowsOn(h, m, h', arrivals, rules, errs[n], before, dirty, replaced);
    }
  }

  lemma GrowsOn(h: Held, m: Held, h': Held, arrivals: seq<Incoming>, rules: Rules, err: Option<Error>,
                before: set<Address>, dirty: set<Address>, replaced: bool)
    requires Consistent(h.pool, {}, {}) && arrivals != [] && !rules.local
    requires |h.pool.all| + |arrivals| <= rules.cfg.globalSlots + rules.cfg.globalQueue
    requires GrownAll(h, m, arrivals[..|arrivals| - 1], rules, before)
    requires Admitted(m, h', arrivals[|arrivals| - 1], rules, replaced, err)
    requires dirty == if err == None && !replaced then before + {arrivals[|arrivals| - 1].tx.from} else before
    ensures GrownAll(h, h', arrivals, rules, dirty)
  {
    hide Consistent, Admitted, Validate, Inserted, OneStep, Grown, HasNew, Enqueued, Swapped;
    var k := |arrivals| - 1;
    var arrival := arrivals[k];
    WithRoom(m, h', arrival, rules, replaced, err);
    var kept := arrival.tx in m.pool.all || !Takes(m, arrival, rules, arrival.tx.from, arrival.tx.nonce);
    if !kept {
      InsertedKeeps(m, h', arrival, rules, replaced, err);
    }
    forall a ensures Grown(h, h', arrivals, rules, a) && (a in dirty <==> HasNew(h, h', a)) {
      assert Grown(h, m, arrivals[..k], rules, a);
      assert a in before <==> HasNew(h, m, a);
      if kept {
        NothingHappens(m, arrival, rules, a);
      } else {
        StepIs(m, h', arrival, rules, replaced, err, a);
        NewTogether(h, m, h', arrivals, rules, a);
      }
      GrownMore(h, m, h', arrivals, rules, a);
    }
  }

  lemma NewTogether(h: Held, m: Held, h': Held, arrivals: seq<Incoming>, rules: Rules, a: Address)
    requires arrivals != [] && Grown(h, m, arrivals[..|arrivals| - 1], rules, a)
    requires OneStep(m, h', arrivals[|arrivals| - 1], rules, a)
    ensures HasNew(h, h', a) <==> HasNew(h, m, a) || HasNew(m, h', a)
  {
    hide Taken, Validate, TooCostly;
    if HasNew(h, m, a) {
      var n: nat :| n in m.pool.Q(a) && n !in h.pool.Q(a);
      assert n in h'.pool.Q(a);
    }
    if HasNew(m, h', a) {
      var n: nat :| n in h'.pool.Q(a) && n !in m.pool.Q(a);
      assert n !in h.pool.Q(a);
    }
  }

  lemma InsertedKeeps(h: Held, h': Held, arrival: Incoming, rules: Rules, replaced: bool, err: Option<Error>)
    requires Consistent(h.pool, {}, {}) && arrival.tx !in h.pool.all && !rules.local
    requires Inserted(h, h', arrival.tx, rules, replaced, err)
    ensures Consistent(h'.pool, {}, {}) && h'.locals == h.locals && |h'.pool.all| <= |h.pool.all| + 1
    ensures h'.pool.chain == h.pool.chain && h'.pool.pendingNonces == h.pool.pendingNonces
  {
    hide Consistent;
    var tx, p := arrival.tx, h.pool;
    if err == None {
      if tx.nonce in p.P(tx.from) {
        ReplacePending(p, {}, tx);
      } else {
        EnqueueNew(p, {}, tx);
      }
      var gone := if tx.nonce in p.P(tx.from) then Replaced(p.P(tx.from), tx) else Replaced(p.Q(tx.from), tx);
      assert h'.pool.all == p.all - gone + {tx};
      assert p.all == (p.all - gone) + (p.all * gone);
    }
  }

  // ----- when a gap is left -----

  /**
  The chain's nonce lies before the pending ones and is taken back, one between them is not, and the
  first of the pending ones can still be paid.
  */
  ghost predicate Gap(h: Held, arrivals: seq<Incoming>, rules: Rules, a: Address) {
    var m, nonce := h.pool.P(a), h.pool.chain.Nonce(a);
    m != map[] &&
    var first := MinOf(m.Keys);
    && nonce < first && Taken(h, arrivals, rules, a, nonce)
    && (exists n: nat :: nonce < n < first && !Taken(h, arrivals, rules, a, n))
    && !Dear(h.pool, Occupant(h, m[first], arrivals, rules))
  }

  /** An account whose pending list is as before, with the chain's nonce as its next one. */
  lemma HealthyAsBefore(p: Pool, a: Address, s: nat, e: nat)
    requires s <= e && Interval(p.P(a), s, e) && p.NextNonce(a) == p.chain.Nonce(a)
    ensures Healthy(p, a)
  {
    hide Executable;
    if Executable(p, a) != map[] {
      KeepsRun(p, a, s, e);
    }
  }

  /** An account whose pending list holds the chain's nonce and goes on from it. */
  lemma HealthyFromNonce(p: Pool, a: Address, e: nat)
    requires Keyed(p.P(a)) && p.chain.Nonce(a) < e && Interval(From(p.P(a), p.chain.Nonce(a)), p.chain.Nonce(a), e)
    requires p.chain.Nonce(a) in p.P(a)
    requires !TooCostly(p.P(a)[p.chain.Nonce(a)], p.chain.Balance(a), p.chain.maxGas)
    ensures Healthy(p, a)
  {
    hide Executable;
    StaysFirst(p, a, p.P(a)[p.chain.Nonce(a)]);
    KeepsTail(p, a, e);
  }

  /** A hole between `e` and `first` stays exactly if the transaction at `first` can be paid. */
  lemma HoleStays(p: Pool, a: Address, e: nat, first: nat)
    requires p.chain.Nonce(a) < e < first && first in p.P(a)
    requires forall n: nat :: n in p.P(a) ==> (p.chain.Nonce(a) <= n < e || first <= n)
    requires forall n: nat :: p.chain.Nonce(a) <= n < e ==>
               n in p.P(a) && !TooCostly(p.P(a)[n], p.chain.Balance(a), p.chain.maxGas)
    ensures Healthy(p, a) <==> TooCostly(p.P(a)[first], p.chain.Balance(a), p.chain.maxGas)
  {
    var nonce, balance, maxGas := p.chain.Nonce(a), p.chain.Balance(a), p.chain.maxGas;
    var m := From(p.P(a), nonce);
    assert m == p.P(a);
    var x := Executable(p, a);
    assert Stays(true, m, balance, maxGas, nonce);
    assert nonce in x && e !in x;
    if TooCostly(m[first], balance, maxGas) {
      forall n: nat ensures n in x <==> nonce <= n < e {
        assert nonce <= n < e ==> Stays(true, m, balance, maxGas, n);
      }
      assert e - 1 in x;
      assert MaxOf(x.Keys) == e - 1;
    } else {
      assert Stays(true, m, balance, maxGas, first);
      assert first in x && MaxOf(x.Keys) >= first;
    }
  }

  /** The pending and queued nonces of an account at the start of a reset. */
  ghost predicate Started(p: Pool, a: Address, s: nat, e: nat) {
    && s <= e && Interval(p.P(a), s, e) && p.NextNonce(a) == p.chain.Nonce(a)
    && forall n :: n in p.Q(a) ==> e <= n
  }

  /** What can be paid of the queue, below the nonces that were queued at the start, was taken back. */
  lemma PaidTaken(h: Held, h': Held, arrivals: seq<Incoming>, rules: Rules, a: Address, s: nat, e: nat, n: nat)
    requires Started(h.pool, a, s, e) && Grown(h, h', arrivals, rules, a) && h'.pool.chain == h.pool.chain
    requires Consistent(h'.pool, {}, {}) && h.pool.chain.Nonce(a) <= n < s
    ensures n in Payable(h'.pool, a) <==> Taken(h, arrivals, rules, a, n)
  {
    hide Taken, Occupant;
    assert AccountOk(h'.pool, {}, a);
    assert n in h'.pool.Q(a) <==> n in h.pool.Q(a) || (n !in h.pool.P(a) && Taken(h, arrivals, rules, a, n));
    assert n !in h.pool.P(a) && n !in h.pool.Q(a);
    if n in h'.pool.Q(a) {
      assert !Dear(h.pool, h'.pool.Q(a)[n]) && h'.pool.Q(a)[n].from == a;
      assert Stays(false, From(h'.pool.Q(a), h.pool.chain.Nonce(a)), h.pool.chain.Balance(a), h.pool.chain.maxGas, n);
    }
  }

  /** Account `a` is not promoted. */
  lemma GapClean(h: Held, m: Held, p: Pool, arrivals: seq<Incoming>, rules: Rules, a: Address, s: nat, e: nat)
    requires Started(h.pool, a, s, e) && Grown(h, m, arrivals, rules, a) && m.pool.chain == h.pool.chain
    requires !HasNew(h, m, a) && p.chain == h.pool.chain
    requires p.P(a) == m.pool.P(a) && p.NextNonce(a) == h.pool.NextNonce(a)
    ensures Healthy(p, a) && !Gap(h, arrivals, rules, a)
  {
    hide Taken, Occupant, Healthy;
    var nonce := h.pool.chain.Nonce(a);
    HealthyAsBefore(p, a, s, e);
    if h.pool.P(a) != map[] && nonce < MinOf(h.pool.P(a).Keys) {
      assert s in h.pool.P(a);
      assert nonce in m.pool.Q(a) <==>
             nonce in h.pool.Q(a) || (nonce !in h.pool.P(a) && Taken(h, arrivals, rules, a, nonce));
    }
  }

  /** The items `q` that can be paid continue the chain's nonce up to `r`, if they hold it. */
  ghost predicate ReadyFrom(q: Items, nonce: nat, r: nat) {
    && (forall n :: n in q ==> nonce <= n) && (r == 0 <==> nonce !in q)
    && (r > 0 ==> nonce < r && r !in q && forall n: nat :: nonce <= n < r ==> n in q)
  }

  lemma ReadyFromNonce(p: Pool, a: Address, r: nat)
    requires r == ReadyEnd(Payable(p, a), p.chain.Nonce(a))
    ensures ReadyFrom(Payable(p, a), p.chain.Nonce(a), r)
  {
    hide ReadyEnd, Payable;
    PayableIs(p, a);
    var q, nonce := Payable(p, a), p.chain.Nonce(a);
    ReadyIsMaximalRun(q, nonce);
    if r > 0 {
      assert MinOf(q.Keys) == nonce;
      forall n: nat | nonce <= n < r ensures n in q {
        assert n in Below(q, r);
      }
    }
  }

  /** What can be paid is neither pending nor too costly. */
  lemma PaidIs(p: Pool, a: Address)
    requires Consistent(p, {}, {})
    ensures Keyed(Payable(p, a)) && Keyed(p.P(a))
    ensures forall n :: n in Payable(p, a) ==>
              n !in p.P(a) && !TooCostly(Payable(p, a)[n], p.chain.Balance(a), p.chain.maxGas)
    ensures forall n :: n in p.P(a) ==> p.P(a)[n].from == a
  {
    assert AccountOk(p, {}, a);
  }

  /** There is no gap if the chain's nonce is not taken back, or all nonces up to the pending ones are. */
  lemma NoGap(h: Held, arrivals: seq<Incoming>, rules: Rules, a: Address, s: nat, e: nat)
    requires s <= e && Interval(h.pool.P(a), s, e)
    requires s == e || s <= h.pool.chain.Nonce(a) || !Taken(h, arrivals, rules, a, h.pool.chain.Nonce(a)) ||
             forall n: nat :: h.pool.chain.Nonce(a) < n < s ==> Taken(h, arrivals, rules, a, n)
    ensures !Gap(h, arrivals, rules, a)
  {
    hide Taken, Occupant, Dear;
    if h.pool.P(a) != map[] {
      assert s in h.pool.P(a);
      assert MinOf(h.pool.P(a).Keys) == s;
    }
  }

  lemma GapPromoted(h: Held, m: Held, p: Pool, arrivals: seq<Incoming>, rules: Rules, a: Address, s: nat, e: nat,
                    q: Items, r: nat)
    requires s <= e && Interval(h.pool.P(a), s, e) && Interval(m.pool.P(a), s, e) && p.chain == h.pool.chain
    requires Keyed(q) && Keyed(m.pool.P(a)) && ReadyFrom(q, h.pool.chain.Nonce(a), r) && r > 0
    requires p.P(a) == m.pool.P(a) + Below(q, r)
    requires forall n :: n in q ==> n !in m.pool.P(a) && !TooCostly(q[n], p.chain.Balance(a), p.chain.maxGas)
    requires forall n: nat :: h.pool.chain.Nonce(a) <= n < s ==> (n in q <==> Taken(h, arrivals, rules, a, n))
    requires s < e ==> m.pool.P(a)[s] == Occupant(h, h.pool.P(a)[s], arrivals, rules) && m.pool.P(a)[s].from == a
    ensures Healthy(p, a) <==> !Gap(h, arrivals, rules, a)
  {
    hide Taken, Occupant, Healthy;
    var nonce := h.pool.chain.Nonce(a);
    assert nonce in Below(q, r) && p.P(a)[nonce] == q[nonce];
    if s < e && nonce < s && r < s {
      assert s in h.pool.P(a) && s in m.pool.P(a) && p.P(a)[s] == m.pool.P(a)[s];
      HoleStays(p, a, r, s);
      assert !Taken(h, arrivals, rules, a, r);
      assert MinOf(h.pool.P(a).Keys) == s;
    } else {
      NoGap(h, arrivals, rules, a, s, e);
      RunPromoted(p, a, m.pool.P(a), q, s, e, r);
    }
  }

  /** The promoted run reaches the pending one, or there is none ahead of it. */
  lemma RunPromoted(p: Pool, a: Address, m: Items, q: Items, s: nat, e: nat, r: nat)
    requires s <= e && Interval(m, s, e) && Keyed(m) && Keyed(q) && p.P(a) == m + Below(q, r)
    requires ReadyFrom(q, p.chain.Nonce(a), r) && r > 0
    requires forall n :: n in q ==> n !in m && !TooCostly(q[n], p.chain.Balance(a), p.chain.maxGas)
    requires s == e || s <= p.chain.Nonce(a) || s <= r
    ensures Healthy(p, a)
  {
    hide Healthy, TooCostly;
    var nonce := p.chain.Nonce(a);
    assert nonce in Below(q, r) && p.P(a)[nonce] == q[nonce];
    if s < e && nonce < s {
      assert r == s by {
        assert s in m;
      }
      HealthyFromNonce(p, a, e);
    } else {
      assert s == e || e <= nonce;
      HealthyFromNonce(p, a, r);
    }
  }

  /** Account `a` is promoted. */
  lemma GapDirty(h: Held, m: Held, p: Pool, arrivals: seq<Incoming>, rules: Rules, a: Address, s: nat, e: nat,
                 local: bool, cap: nat)
    requires Started(h.pool, a, s, e) && Grown(h, m, arrivals, rules, a) && m.pool.chain == h.pool.chain
    requires Consistent(m.pool, {}, {}) && m.pool.NextNonce(a) == h.pool.NextNonce(a)
    requires p.chain == h.pool.chain && PromotedTo(m.pool, p, a, local, cap)
    ensures Healthy(p, a) <==> !Gap(h, arrivals, rules, a)
  {
    hide Taken, Occupant, Healthy, Consistent, Payable, ReadyEnd, Lowest, Gap;
    var q, nonce := Payable(m.pool, a), h.pool.chain.Nonce(a);
    var r := ReadyEnd(q, nonce);
    ReadyFromNonce(m.pool, a, r);
    PaidIs(m.pool, a);
    forall n: nat | nonce <= n < s ensures n in q <==> Taken(h, arrivals, rules, a, n) {
      PaidTaken(h, m, arrivals, rules, a, s, e, n);
    }
    assert Interval(m.pool.P(a), s, e);
    if r == 0 {
      assert Below(q, 0) == map[];
      HealthyAsBefore(p, a, s, e);
      NoGap(h, arrivals, rules, a, s, e);
    } else {
      assert s < e ==> s in h.pool.P(a) && s in m.pool.P(a);
      GapPromoted(h, m, p, arrivals, rules, a, s, e, q, r);
    }
  }

  lemma StartedIs(p: Pool, p': Pool, a: Address)
    requires Gapless(p) && p' == p.(chain := p'.chain, pendingNonces := map[])
    ensures Started(p', a, p.chain.Nonce(a), p.NextNonce(a))
  {
    assert PendingRun(p, a);
    assert p'.P(a) == p.P(a) && p'.Q(a) == p.Q(a);
  }

  /** With room for all of it, what is taken back leaves an account healthy exactly if it leaves no gap. */
  lemma GapIff(p: Pool, h: Held, h': Held, arrivals: seq<Incoming>, rules: Rules, beats: Beats,
               errs: seq<Option<Error>>,
               b: Batched, a: Address)
    requires Consistent(h.pool, {}, {}) && Gapless(p) && h.pool == p.(chain := h.pool.chain, pendingNonces := map[])
    requires Entered(h, h', arrivals, rules, beats, errs, b) && !rules.local
    requires |h.pool.all| + |arrivals| <= rules.cfg.globalSlots && |h.pool.all| + |arrivals| <= rules.cfg.globalQueue
    ensures Healthy(h'.pool, a) <==> !Gap(h, arrivals, rules, a)
  {
    hide Gapless, Batch, Grown, Healthy, Gap, PromotedTo, HasNew, Consistent, Started, Fair, LatestFirst, Total, Fits;
    BatchGrows(h, b.held, arrivals, rules, errs, b.dirty);
    StartedIs(p, h.pool, a);
    var s, e := p.chain.Nonce(a), p.NextNonce(a);
    assert Grown(h, b.held, arrivals, rules, a);
    if b.dirty != {} {
      SubsetSize(b.mid.all, b.held.pool.all);
      AllFit(b.mid, rules.cfg);
      assert Promotes(b.held.pool, b.mid, b.dirty, h'.locals, rules.cfg.accountQueue, a);
    }
    if a in b.dirty {
      GapDirty(h, b.held, h'.pool, arrivals, rules, a, s, e, a in h'.locals, rules.cfg.accountQueue);
    } else {
      GapClean(h, b.held, h'.pool, arrivals, rules, a, s, e);
    }
  }

  ghost predicate NoGaps(h: Held, arrivals: seq<Incoming>, rules: Rules) {
    forall a {:trigger Gap(h, arrivals, rules, a)} :: !Gap(h, arrivals, rules, a)
  }

  lemma GapsIff(p: Pool, h: Held, h': Held, arrivals: seq<Incoming>, rules: Rules, beats: Beats,
                errs: seq<Option<Error>>,
                b: Batched)
    requires Consistent(h.pool, {}, {}) && Gapless(p) && h.pool == p.(chain := h.pool.chain, pendingNonces := map[])
    requires Entered(h, h', arrivals, rules, beats, errs, b) && !rules.local
    requires |h.pool.all| + |arrivals| <= rules.cfg.globalSlots && |h.pool.all| + |arrivals| <= rules.cfg.globalQueue
    ensures NoGaps(h, arrivals, rules) <==> forall a {:trigger Healthy(h'.pool, a)} :: Healthy(h'.pool, a)
    ensures |h'.pool.all| <= |h.pool.all| + |arrivals|
  {
    hide Consistent, Gapless, Gap, Healthy, Batch, Promotion;
    forall a ensures Healthy(h'.pool, a) <==> !Gap(h, arrivals, rules, a) {
      GapIff(p, h, h', arrivals, rules, beats, errs, b, a);
    }
    if NoGaps(h, arrivals, rules) {
      forall a ensures Healthy(h'.pool, a) {
        assert !Gap(h, arrivals, rules, a);
      }
    }
    if forall a {:trigger Healthy(h'.pool, a)} :: Healthy(h'.pool, a) {
      forall a ensures !Gap(h, arrivals, rules, a) {
        assert Healthy(h'.pool, a);
      }
    }
    BatchGrows(h, b.held, arrivals, rules, errs, b.dirty);
    if b.dirty != {} {
      PromotionFewer(b.held.pool, b.mid, h'.pool, b.dirty, h'.locals, beats, b.level, rules.cfg);
      SubsetSize(h'.pool.all, b.held.pool.all);
    }
  }

  /** The stages of a reset only lose transactions. */
  lemma StagesShrink(added: Pool, demoted: Pool, refreshed: Pool, promoted: Pool, p': Pool, locals: set<Address>,
                     beats: Beats, level: nat, cfg: Config)
    requires Prepared(added, demoted, refreshed)
    requires Promotion(refreshed, promoted, p', refreshed.queue.Keys, locals, beats, level, cfg)
    ensures promoted.all <= added.all && Consistent(promoted, {}, {}) && (Fits(promoted, cfg) ==> p' == promoted)
    ensures PromotedAll(refreshed, promoted, refreshed.queue.Keys, locals, cfg.accountQueue)
    ensures forall a :: refreshed.P(a) == Executable(added, a)
  {
    hide Executable, Unusable, Consistent, Fair, LatestFirst, PromotedAll, Fits;
    forall a ensures refreshed.P(a) == Executable(added, a) {
      assert refreshed.P(a) == demoted.P(a);
    }
  }

  lemma StagesFit(added: Pool, demoted: Pool, refreshed: Pool, promoted: Pool, p': Pool, locals: set<Address>,
                  beats: Beats, level: nat, cfg: Config, n: nat)
    requires Prepared(added, demoted, refreshed) && |added.all| <= n <= cfg.globalSlots && n <= cfg.globalQueue
    requires Promotion(refreshed, promoted, p', refreshed.queue.Keys, locals, beats, level, cfg)
    ensures p' == promoted
  {
    hide Prepared, Promotion, Consistent, Executable, PromotedAll, Fits;
    StagesShrink(added, demoted, refreshed, promoted, p', locals, beats, level, cfg);
    SubsetSize(promoted.all, added.all);
    AllFit(promoted, cfg);
  }
}
