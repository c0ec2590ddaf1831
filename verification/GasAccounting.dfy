/**
Gas: what a message must pay up front, the pool of gas of a block, and what a block's transactions
do to the pool, the balances and the deposits.

The virtual machine is any function that returns no more gas than it was given and moves balances
without changing their sum.
*/
module GasAccounting {
  import opened Wrappers
  import opened Ledger
  import opened Deposits

  const MAX_UINT64 := 0xFFFF_FFFF_FFFF_FFFF
  const TX_GAS := 21000
  const TX_GAS_CONTRACT_CREATION := 53000
  const TX_DATA_ZERO_GAS := 4
  const TX_DATA_NON_ZERO_GAS := 68

  // ----- intrinsic gas -----

  function NonZeros(data: seq<nat>): (n: nat)
    ensures n <= |data|
  {
    if data == [] then 0 else NonZeros(data[..|data| - 1]) + if data[|data| - 1] != 0 then 1 else 0
  }

  /** The gas a message costs before it runs, without any bound on its size. */
  function ExactGas(data: seq<nat>, creation: bool, homestead: bool): nat {
    (if creation && homestead then TX_GAS_CONTRACT_CREATION else TX_GAS)
    + NonZeros(data) * TX_DATA_NON_ZERO_GAS + (|data| - NonZeros(data)) * TX_DATA_ZERO_GAS
  }

  /** Counted another way: every byte costs the price of a non-zero one, less a discount for each zero. */
  lemma {:induction false} ExactGasIs(data: seq<nat>, creation: bool, homestead: bool)
    ensures ExactGas(data, creation, homestead)
            == (if creation && homestead then 53000 else 21000) + 68 * |data| - 64 * multiset(data)[0]
  {
    NonZerosIs(data);
  }

  lemma {:induction false} NonZerosIs(data: seq<nat>)
    ensures NonZeros(data) == |data| - multiset(data)[0]
  {
    if data != [] {
      var n := |data| - 1;
      NonZerosIs(data[..n]);
      assert data == data[..n] + [data[n]];
    }
  }

  /** The checks before each addition let through exactly what fits in 64 bits. */
  method IntrinsicGas(data: seq<nat>, creation: bool, homestead: bool) returns (r: Option<nat>)
    ensures var exact := ExactGas(data, creation, homestead);
            r == if exact <= MAX_UINT64 then Some(exact) else None
    ensures r.Some?
            ==> r.value == (if creation && homestead then 53000 else 21000) + 68 * |data| - 64 * multiset(data)[0]
  {
    ExactGasIs(data, creation, homestead);
    var gas := if creation && homestead then TX_GAS_CONTRACT_CREATION else TX_GAS;
    if |data| > 0 {
      var nz := 0;
      for i := 0 to |data|
        invariant nz == NonZeros(data[..i])
      {
        assert data[..i + 1][..i] == data[..i];
        if data[i] != 0 {
          nz := nz + 1;
        }
      }
      assert data[..|data|] == data;
      if (MAX_UINT64 - gas) / TX_DATA_NON_ZERO_GAS < nz {
        return None;
      }
      gas := gas + nz * TX_DATA_NON_ZERO_GAS;
      var z := |data| - nz;
      if (MAX_UINT64 - gas) / TX_DATA_ZERO_GAS < z {
        return None;
      }
      gas := gas + z * TX_DATA_ZERO_GAS;
    }
    return Some(gas);
  }

  // ----- the gas pool -----

  class GasPool {
    var gas: nat

    constructor ()
      ensures gas == 0
    {
      gas := 0;
    }

    /** Going above 64 bits is a panic, so callers must not. */
    method AddGas(amount: nat)
      requires gas + amount <= MAX_UINT64
      modifies this
      ensures gas == old(gas) + amount
    {
      gas := gas + amount;
    }

    method SubGas(amount: nat) returns (ok: bool)
      modifies this
      ensures ok == (old(gas) >= amount) && gas == if ok then old(gas) - amount else old(gas)
    {
      if gas < amount {
        return false;
      }
      gas := gas - amount;
      return true;
    }
  }

  // ----- messages and the virtual machine -----

  /** `kind` tells what the message means for candidates; none for an ordinary one. */
  datatype Msg = Msg(
    from: Account, creation: bool, nonce: nat, checkNonce: bool, price: nat, gas: nat, data: seq<nat>,
    kind: Option<Kind>)

  datatype Error = NonceTooHigh | NonceTooLow | InsufficientBalanceForGas | GasLimitReached | OutOfGas
                 | InsufficientBalance | InvalidType

  /** The outcome of a run: `short` if the first transfer was not covered, `failed` for any error. */
  datatype Exec = Exec(
    gasLeft: nat, refund: nat, balances: Balances, nonces: map<Account, nat>, failed: bool, short: bool)

  type Evm = (Msg, Balances, map<Account, nat>, nat) -> Exec

  /** It returns at most the gas it was given, and balances only move. */
  ghost predicate Sound(evm: Evm) {
    forall m, b, n, gas {:trigger evm(m, b, n, gas)} ::
      evm(m, b, n, gas).gasLeft <= gas && Sum(evm(m, b, n, gas).balances) == Sum(b)
  }

  datatype Outcome = Done(used: nat, failed: bool) | Refused(error: Error)

  /** What the gas of a message costs up front. */
  function Cost(m: Msg): int {
    m.gas * m.price
  }

  /** Why a message is not even begun, if it is not. */
  function Barred(m: Msg, nonce: nat, balance: int, gas: nat): Option<Error> {
    if m.checkNonce && nonce < m.nonce then Some(NonceTooHigh)
    else if m.checkNonce && nonce > m.nonce then Some(NonceTooLow)
    else if balance < Cost(m) then Some(InsufficientBalanceForGas)
    else if gas < m.gas then Some(GasLimitReached)
    else None
  }

  lemma BarredNot(m: Msg, nonce: nat, balance: int, gas: nat)
    ensures Barred(m, nonce, balance, gas) == None ==> m.gas <= gas
  {
  }

  function NonceOf(nonces: map<Account, nat>, a: Account): nat {
    if a in nonces then nonces[a] else 0
  }

  /** The run of a message that was begun, if it has the gas to pay for its data. */
  function RunOf(m: Msg, evm: Evm, b: Balances, nonces: map<Account, nat>, exact: nat): Exec
    requires exact <= m.gas
  {
    var nonces' := if m.creation then nonces else nonces[m.from := NonceOf(nonces, m.from) + 1];
    evm(m, Credit(b, m.from, -Cost(m)), nonces', m.gas - exact)
  }

  /** The gas used: at most half of what was consumed is refunded. */
  function UsedGas(m: Msg, exec: Exec): nat
    requires exec.gasLeft <= m.gas
  {
    var consumed := m.gas - exec.gasLeft;
    consumed - if exec.refund < consumed / 2 then exec.refund else consumed / 2
  }

  /** What becomes of a message. */
  function Verdict(m: Msg, evm: Evm, b: Balances, nonces: map<Account, nat>, gas: nat, homestead: bool): Outcome
    requires forall m, b, n, gas {:trigger evm(m, b, n, gas)} :: evm(m, b, n, gas).gasLeft <= gas
  {
    var barred := Barred(m, NonceOf(nonces, m.from), Balance(b, m.from), gas);
    var exact := ExactGas(m.data, m.creation, homestead);
    if barred.Some? then Refused(barred.value)
    else if exact > m.gas || exact > MAX_UINT64 then Refused(OutOfGas)
    else
      var exec := RunOf(m, evm, b, nonces, exact);
      if exec.failed && exec.short then Refused(InsufficientBalance) else Done(UsedGas(m, exec), exec.failed)
  }

  /** What is taken up front goes to the coinbase in the end. */
  lemma PaysThrough(b: Balances, from: Account, cost: int, b': Balances, coinbase: Account)
    requires Sum(b') == Sum(Credit(b, from, -cost))
    ensures Sum(Credit(b', coinbase, cost)) == Sum(b)
  {
    CreditSum(b, from, -cost);
    CreditSum(b', coinbase, cost);
  }

  /** The receipt of a transaction. */
  datatype Receipt = Receipt(cumulative: nat, gasUsed: nat, failed: bool)

  /** The cumulative amounts are the running sums of the single ones. */
  ghost predicate Cumulative(rs: seq<Receipt>) {
    forall i {:trigger Adds(rs, i)} :: 0 <= i < |rs| ==> Adds(rs, i)
  }

  ghost predicate Adds(rs: seq<Receipt>, i: nat)
    requires i < |rs|
  {
    rs[i].cumulative == rs[i].gasUsed + if i == 0 then 0 else rs[i - 1].cumulative
  }

  lemma NoReceipts()
    ensures Cumulative([])
  {
  }

  lemma CumulativeGrows(rs: seq<Receipt>, r: Receipt)
    requires Cumulative(rs) && r.cumulative == r.gasUsed + if rs == [] then 0 else rs[|rs| - 1].cumulative
    ensures Cumulative(rs + [r])
  {
    forall i | 0 <= i < |rs| + 1 ensures Adds(rs + [r], i) {
      assert i < |rs| ==> Adds(rs, i);
    }
  }

  // ----- a block as a run over states -----

  /** What the transactions of a block change, but for the gas they use together. */
  datatype World = World(balances: Balances, candidates: map<Account, Candidate>, nonces: map<Account, nat>, gas: nat)

  /** What they leave alone. */
  datatype Setting = Setting(evm: Evm, coinbase: Account, homestead: bool, block: nat)

  ghost predicate Runs(e: Setting) {
    forall m, b, n, gas {:trigger e.evm(m, b, n, gas)} :: e.evm(m, b, n, gas).gasLeft <= gas
  }

  /** What becomes of a transaction. */
  function Result(w: World, m: Msg, e: Setting): Outcome
    requires Runs(e)
  {
    if m.creation && m.kind != None then Refused(InvalidType)
    else
      var verdict := Verdict(m, e.evm, w.balances, w.nonces, w.gas, e.homestead);
      if verdict.Done? && m.kind == Some(Unknown) then Refused(InvalidType) else verdict
  }

  /** The deposits after a message was paid for: those before it, or what a candidate message makes of them. */
  function Staked(b: Balances, candidates: map<Account, Candidate>, m: Msg, block: nat): Stakes {
    if m.kind == None then Stakes(b, candidates)
    else Next(Stakes(b, candidates), Message(m.from, m.kind.value, block))
  }

  /** The state after a transaction that is not refused. */
  function After(w: World, m: Msg, e: Setting): World
    requires Runs(e) && Result(w, m, e).Done?
  {
    var exec := RunOf(m, e.evm, w.balances, w.nonces, ExactGas(m.data, m.creation, e.homestead));
    var s := Staked(Credit(exec.balances, e.coinbase, Cost(m)), w.candidates, m, e.block);
    World(s.balances, s.candidates, exec.nonces, w.gas - Result(w, m, e).used)
  }

  /**
  A transaction is refused exactly if its type is wrong, its nonce is not the next one, its gas is not
  paid for, not to be had or not enough for its data, or the first transfer is not covered. A run
  that fails in any other way is not refused.
  */
  lemma RefusedIff(w: World, m: Msg, e: Setting)
    requires Runs(e)
    ensures Result(w, m, e).Refused? <==>
            || (m.creation && m.kind != None) || m.kind == Some(Unknown)
            || (m.checkNonce && m.nonce != if m.from in w.nonces then w.nonces[m.from] else 0)
            || Balance(w.balances, m.from) < m.gas * m.price || w.gas < m.gas
            || m.gas < ExactGas(m.data, m.creation, e.homestead)
            || ExactGas(m.data, m.creation, e.homestead) > MAX_UINT64
            || var exec := RunOf(m, e.evm, w.balances, w.nonces, ExactGas(m.data, m.creation, e.homestead));
               exec.failed && exec.short
    ensures Result(w, m, e).Done? ==>
              Result(w, m, e).failed ==
                RunOf(m, e.evm, w.balances, w.nonces, ExactGas(m.data, m.creation, e.homestead)).failed
  {
    hide ExactGas, RunOf;
  }

  /** A virtual machine that leaves nobody in debt. */
  ghost predicate Prudent(e: Setting) {
    forall m, b, n, gas {:trigger e.evm(m, b, n, gas)} :: Solvent(b) ==> Solvent(e.evm(m, b, n, gas).balances)
  }

  /** Then no transaction does. */
  lemma AfterSolvent(w: World, m: Msg, e: Setting)
    requires Runs(e) && Prudent(e) && Result(w, m, e).Done? && Solvent(w.balances)
    ensures Solvent(After(w, m, e).balances)
  {
    hide ExactGas, Next;
    var exec := RunOf(m, e.evm, w.balances, w.nonces, ExactGas(m.data, m.creation, e.homestead));
    assert Solvent(Credit(w.balances, m.from, -Cost(m)));
    assert Solvent(exec.balances);
    var paid := Credit(exec.balances, e.coinbase, Cost(m));
    assert Cost(m) >= 0 by { CostNat(m); }
    assert Solvent(paid);
    if m.kind.Some? {
      StaysSolvent(Stakes(paid, w.candidates), Message(m.from, m.kind.value, e.block));
    }
  }

  lemma CostNat(m: Msg)
    ensures Cost(m) >= 0
  {
  }

  /** The state before transaction `n` of a block; after one that is refused nothing changes any more. */
  function WorldAt(w: World, msgs: seq<Msg>, e: Setting, n: nat): World
    requires Runs(e) && n <= |msgs|
  {
    if n == 0 then w
    else
      var before := WorldAt(w, msgs, e, n - 1);
      if Result(before, msgs[n - 1], e).Done? then After(before, msgs[n - 1], e) else before
  }

  /** Over a whole block nobody gets into debt. */
  lemma {:induction false} BlockSolvent(w: World, msgs: seq<Msg>, e: Setting, n: nat)
    requires Runs(e) && Prudent(e) && n <= |msgs| && Solvent(w.balances)
    ensures Solvent(WorldAt(w, msgs, e, n).balances)
  {
    if n > 0 {
      BlockSolvent(w, msgs, e, n - 1);
      var before := WorldAt(w, msgs, e, n - 1);
      if Result(before, msgs[n - 1], e).Done? {
        AfterSolvent(before, msgs[n - 1], e);
      }
    }
  }

  /** The gas bought is paid to the coinbase, all of it. */
  lemma CoinbasePaid(w: World, m: Msg, e: Setting, a: Account)
    requires Runs(e) && Result(w, m, e).Done? && m.kind == None
    ensures var exec := RunOf(m, e.evm, w.balances, w.nonces, ExactGas(m.data, m.creation, e.homestead));
            Balance(After(w, m, e).balances, a) ==
              Balance(exec.balances, a) + if a == e.coinbase then m.gas * m.price else 0
  {
    hide ExactGas;
  }

  // ----- nonces over a block -----

  /**
  A virtual machine that leaves the nonces of the senders alone, but for that of an account that
  creates a contract, which it raises by one unless the transfer is not covered.
  */
  ghost predicate Counts(e: Setting, senders: set<Account>) {
    forall m, b, n, gas, a {:trigger NonceOf(e.evm(m, b, n, gas).nonces, a)} :: a in senders ==>
      var exec := e.evm(m, b, n, gas);
      var created := a == m.from && m.creation && !(exec.failed && exec.short);
      NonceOf(exec.nonces, a) == NonceOf(n, a) + if created then 1 else 0
  }

  /** A transaction that is not refused raises the nonce of its sender by one, and no other. */
  lemma NonceRises(w: World, m: Msg, e: Setting, senders: set<Account>, a: Account)
    requires Runs(e) && Counts(e, senders) && a in senders && Result(w, m, e).Done?
    ensures NonceOf(After(w, m, e).nonces, a) == NonceOf(w.nonces, a) + if a == m.from then 1 else 0
  {
    hide ExactGas, Next, Credit;
  }

  /** How many of the first `n` transactions are from an account. */
  function SentBefore(msgs: seq<Msg>, n: nat, a: Account): nat
    requires n <= |msgs|
  {
    if n == 0 then 0 else SentBefore(msgs, n - 1, a) + if msgs[n - 1].from == a then 1 else 0
  }

  ghost predicate Accepted(w: World, msgs: seq<Msg>, e: Setting, n: nat)
    requires Runs(e) && n <= |msgs|
  {
    forall i {:trigger msgs[i]} :: 0 <= i < n ==> Result(WorldAt(w, msgs, e, i), msgs[i], e).Done?
  }

  lemma {:induction false} NoncesAt(w: World, msgs: seq<Msg>, e: Setting, senders: set<Account>, n: nat, a: Account)
    requires Runs(e) && Counts(e, senders) && a in senders && n <= |msgs| && Accepted(w, msgs, e, n)
    ensures NonceOf(WorldAt(w, msgs, e, n).nonces, a) == NonceOf(w.nonces, a) + SentBefore(msgs, n, a)
  {
    hide Result, After, Counts;
    if n > 0 {
      NoncesAt(w, msgs, e, senders, n - 1, a);
      assert Result(WorldAt(w, msgs, e, n - 1), msgs[n - 1], e).Done?;
      NonceRises(WorldAt(w, msgs, e, n - 1), msgs[n - 1], e, senders, a);
    }
  }

  /** In an accepted block the transactions of an account have the nonces that follow on its own, without a gap. */
  lemma BlockNonces(w: World, msgs: seq<Msg>, e: Setting, senders: set<Account>, n: nat, i: nat)
    requires Runs(e) && Counts(e, senders) && i < n <= |msgs| && Accepted(w, msgs, e, n)
    requires msgs[i].from in senders && msgs[i].checkNonce
    ensures msgs[i].nonce == NonceOf(w.nonces, msgs[i].from) + SentBefore(msgs, i, msgs[i].from)
  {
    hide Result, Counts;
    NoncesAt(w, msgs, e, senders, i, msgs[i].from);
    assert Result(WorldAt(w, msgs, e, i), msgs[i], e).Done?;
    RefusedIff(WorldAt(w, msgs, e, i), msgs[i], e);
  }

  /** No transaction is executed twice. */
  lemma NoReplay(w: World, msgs: seq<Msg>, e: Setting, senders: set<Account>, n: nat, i: nat, j: nat)
    requires Runs(e) && Counts(e, senders) && i < j < n <= |msgs| && Accepted(w, msgs, e, n)
    requires msgs[i].from in senders && msgs[i].checkNonce && msgs[j].checkNonce && msgs[j].from == msgs[i].from
    ensures msgs[i].nonce < msgs[j].nonce
  {
    hide Result, Counts, Accepted;
    BlockNonces(w, msgs, e, senders, n, i);
    BlockNonces(w, msgs, e, senders, n, j);
    MoreSent(msgs, i + 1, j, msgs[i].from);
  }

  lemma {:induction false} MoreSent(msgs: seq<Msg>, i: nat, j: nat, a: Account)
    requires i <= j <= |msgs|
    ensures SentBefore(msgs, i, a) <= SentBefore(msgs, j, a)
    decreases j
  {
    if i < j {
      MoreSent(msgs, i, j - 1, a);
    }
  }

  class Processor {
    const ctx: DposContext
    const pool: GasPool
    const coinbase: Account
    const homestead: bool
    const block: nat
    var nonces: map<Account, nat>
    var used: nat

    constructor (ctx: DposContext, pool: GasPool, coinbase: Account, homestead: bool, block: nat,
                 nonces: map<Account, nat>)
      ensures this.ctx == ctx && this.pool == pool && used == 0 && this.block == block && this.nonces == nonces
    {
      this.ctx, this.pool, this.coinbase, this.homestead, this.block := ctx, pool, coinbase, homestead, block;
      this.nonces, used := nonces, 0;
    }

    ghost function Wealth(): int
      reads ctx
    {
      Deposits.Wealth(ctx.View())
    }

    /** The checks before a message, and its gas paid and taken out of the pool. */
    method BuyGas(m: Msg) returns (err: Option<Error>)
      modifies ctx`balances, pool
      ensures err == Barred(m, NonceOf(nonces, m.from), Balance(old(ctx.balances), m.from), old(pool.gas))
      ensures err.Some? ==> ctx.balances == old(ctx.balances) && pool.gas == old(pool.gas)
      ensures err == None ==> ctx.balances == Credit(old(ctx.balances), m.from, -Cost(m))
      ensures err == None ==> pool.gas == old(pool.gas) - m.gas
    {
      hide Credit, Cost;
      if m.checkNonce {
        var nonce := NonceOf(nonces, m.from);
        if nonce < m.nonce {
          return Some(NonceTooHigh);
        } else if nonce > m.nonce {
          return Some(NonceTooLow);
        }
      }
      if Balance(ctx.balances, m.from) < Cost(m) {
        return Some(InsufficientBalanceForGas);
      }
      var ok := pool.SubGas(m.gas);
      if !ok {
        return Some(GasLimitReached);
      }
      ctx.balances := Credit(ctx.balances, m.from, -Cost(m));
      return None;
    }

    /** The refund counter is applied, and what gas is left goes back to the pool. */
    method RefundGas(gas: nat, m: Msg, exec: Exec) returns (left: nat)
      requires gas == exec.gasLeft <= m.gas && pool.gas + m.gas <= MAX_UINT64
      modifies pool
      ensures left <= m.gas && m.gas - left == UsedGas(m, exec) && pool.gas == old(pool.gas) + left
      ensures gas <= left <= gas + exec.refund && 2 * (left - gas) <= m.gas - gas
      ensures left < gas + exec.refund ==> 2 * (left + 1 - gas) > m.gas - gas
    {
      var refund := (m.gas - gas) / 2;
      if refund > exec.refund {
        refund := exec.refund;
      }
      left := gas + refund;
      pool.AddGas(left);
    }

    /** One message: gas is bought, used, partly returned to the pool; all that was paid goes to the coinbase. */
    method TransitionDb(m: Msg, evm: Evm) returns (r: Outcome)
      requires Sound(evm) && pool.gas <= MAX_UINT64
      modifies `nonces, ctx`balances, pool
      ensures r.Done? ==> pool.gas + r.used == old(pool.gas) && r.used <= m.gas
      ensures r.Done? ==> Sum(ctx.balances) == Sum(old(ctx.balances))
      ensures r.Refused? ==> pool.gas <= old(pool.gas)
      ensures r == Verdict(m, evm, old(ctx.balances), old(nonces), old(pool.gas), homestead)
      ensures r.Done? ==> var intrinsic := ExactGas(m.data, m.creation, homestead);
                          var exec := RunOf(m, evm, old(ctx.balances), old(nonces), intrinsic);
                          nonces == exec.nonces && ctx.balances == Credit(exec.balances, coinbase, Cost(m))
      ensures Barred(m, NonceOf(old(nonces), m.from), Balance(old(ctx.balances), m.from), old(pool.gas)).Some? ==>
                nonces == old(nonces) && ctx.balances == old(ctx.balances) && pool.gas == old(pool.gas)
    {
      hide Sum, Credit, ExactGas, Cost, Barred, UsedGas;
      BarredNot(m, NonceOf(nonces, m.from), Balance(ctx.balances, m.from), pool.gas);
      ghost var before := ctx.balances;
      var barred := BuyGas(m);
      if barred.Some? {
        return Refused(barred.value);
      }
      var gas, initialGas := m.gas, m.gas;
      var intrinsic := IntrinsicGas(m.data, m.creation, homestead);
      if intrinsic == None || gas < intrinsic.value {
        return Refused(OutOfGas);
      }
      gas := gas - intrinsic.value;
      if !m.creation {
        nonces := nonces[m.from := NonceOf(nonces, m.from) + 1];
      }
      var exec := evm(m, ctx.balances, nonces, gas);
      gas, nonces := exec.gasLeft, exec.nonces;
      PaysThrough(before, m.from, Cost(m), exec.balances, coinbase);
      ctx.balances := exec.balances;
      if exec.failed && exec.short {
        return Refused(InsufficientBalance);
      }
      gas := RefundGas(gas, m, exec);
      ctx.balances := Credit(ctx.balances, coinbase, Cost(m));
      return Done(initialGas - gas, exec.failed);
    }

    ghost function Now(): World
      reads `nonces, ctx, pool
    {
      World(ctx.balances, ctx.candidates, nonces, pool.gas)
    }

    function Setup(evm: Evm): Setting {
      Setting(evm, coinbase, homestead, block)
    }

    /** One transaction: its message, then what it means for candidates, then its receipt. */
    method ApplyTransaction(m: Msg, evm: Evm) returns (r: Outcome, receipt: Receipt)
      requires Sound(evm) && pool.gas <= MAX_UINT64 && Keyed(ctx.View())
      modifies this, ctx, pool
      ensures Runs(Setup(evm)) && r == Result(old(Now()), m, Setup(evm))
      ensures r.Done? ==> Now() == After(old(Now()), m, Setup(evm))
      ensures r.Done? ==> used == old(used) + r.used && pool.gas + used == old(pool.gas + used)
      ensures r.Done? ==> receipt == Receipt(used, r.used, r.failed)
      ensures r.Done? ==> Keyed(ctx.View())
      ensures r.Done? ==>
                Wealth() == old(Wealth()) + if MakesUp(m, old(ctx.candidates)) then MIN_CANDIDATE_BALANCE else 0
      ensures r.Done? && m.kind == None ==> ctx.candidates == old(ctx.candidates)
      ensures r.Done? && m.kind == Some(WithdrawCandidate) ==>
                var c := Read(Stakes(map[], old(ctx.candidates)), m.from);
                ctx.candidates == if c.state == Logout && c.block + 10 < block then old(ctx.candidates) - {m.from}
                                  else old(ctx.candidates)
      ensures pool.gas <= MAX_UINT64
    {
      hide Sum, Next, Deposits.Wealth, Verdict, RunOf, ExactGas, Credit;
      SoundRuns(evm, Setup(evm));
      receipt := Receipt(0, 0, false);
      if m.creation && m.kind != None {
        return Refused(InvalidType), receipt;
      }
      ghost var before := ctx.View();
      r := TransitionDb(m, evm);
      if r.Refused? {
        return;
      }
      ghost var between := ctx.View();
      SameWealth(before, between);
      if m.kind.Some? {
        var ok := ctx.ApplyDposMessage(Message(m.from, m.kind.value, block));
        WorthKept(between, Message(m.from, m.kind.value, block), m.from);
        WealthKept(between, Message(m.from, m.kind.value, block));
        if !ok {
          return Refused(InvalidType), receipt;
        }
        if m.kind == Some(WithdrawCandidate) {
          WithdrawIff(between, Message(m.from, m.kind.value, block));
        }
      }
      used := used + r.used;
      receipt := Receipt(used, r.used, r.failed);
    }

    /**
    A block: every transaction in order, until one is refused. It is accepted exactly if none is.
    Balances and deposits together grow by one deposit for each logout of the zero account that has
    no registration to end.
    */
    method Process(msgs: seq<Msg>, evm: Evm, gasLimit: nat) returns (ok: bool, receipts: seq<Receipt>)
      requires Sound(evm) && pool.gas == 0 && used == 0 && gasLimit <= MAX_UINT64 && Keyed(ctx.View())
      modifies this, ctx, pool
      ensures Runs(Setup(evm))
      ensures var w := old(Now()).(gas := gasLimit);
              ok <==> forall i :: 0 <= i < |msgs| ==> Result(WorldAt(w, msgs, Setup(evm), i), msgs[i], Setup(evm)).Done?
      ensures ok ==> Now() == WorldAt(old(Now()).(gas := gasLimit), msgs, Setup(evm), |msgs|)
      ensures ok ==> |receipts| == |msgs| && Cumulative(receipts)
      ensures ok ==> forall i :: 0 <= i < |msgs| ==>
                var r := Result(WorldAt(old(Now()).(gas := gasLimit), msgs, Setup(evm), i), msgs[i], Setup(evm));
                r.Done? && receipts[i].gasUsed == r.used && receipts[i].failed == r.failed
      ensures ok ==> pool.gas + used == gasLimit
      ensures ok ==> forall i :: 0 <= i < |receipts| ==> receipts[i].cumulative <= used <= MAX_UINT64
      ensures var w := old(Now()).(gas := gasLimit);
              ok ==> Wealth() == old(Wealth()) + MIN_CANDIDATE_BALANCE * SlipCount(w, msgs, Setup(evm), |msgs|)
      ensures ok && (forall i :: 0 <= i < |msgs| ==> msgs[i].from != ZERO_ACCOUNT) ==> Wealth() == old(Wealth())
    {
      hide Sound, Deposits.Wealth, Keyed, Cumulative, SlipCount, MakesUp, Result, After, WorldAt, Runs;
      SoundRuns(evm, Setup(evm));
      assert Cumulative([]) by { NoReceipts(); }
      ghost var w, e := Now().(gas := gasLimit), Setup(evm);
      receipts := [];
      pool.AddGas(gasLimit);
      WorldStarts(w, msgs, e);
      for i := 0 to |msgs|
        invariant pool.gas + used == gasLimit && |receipts| == i && Cumulative(receipts) && Keyed(ctx.View())
        invariant used == if i == 0 then 0 else receipts[i - 1].cumulative
        invariant forall k :: 0 <= k < i ==> receipts[k].cumulative <= used
        invariant Now() == WorldAt(w, msgs, e, i)
        invariant forall k :: 0 <= k < i ==> Kept(w, msgs, e, k, receipts[k])
        invariant Wealth() == old(Wealth()) + MIN_CANDIDATE_BALANCE * SlipCount(w, msgs, e, i)
      {
        var r, receipt := ApplyTransaction(msgs[i], evm);
        if r.Refused? {
          return false, [];
        }
        WorldStep(w, msgs, e, i);
        CumulativeGrows(receipts, receipt);
        receipts := receipts + [receipt];
      }
      forall i | 0 <= i < |msgs| ensures Result(WorldAt(w, msgs, e, i), msgs[i], e).Done? {
        assert Kept(w, msgs, e, i, receipts[i]);
      }
      if forall i :: 0 <= i < |msgs| ==> msgs[i].from != ZERO_ACCOUNT {
        NoSlips(w, msgs, e, |msgs|);
      }
      return true, receipts;
    }
  }

  lemma SoundRuns(evm: Evm, e: Setting)
    requires Sound(evm) && e.evm == evm
    ensures Runs(e)
  {
  }

  /** The receipt of transaction `k` of a block tells what became of it. */
  ghost predicate Kept(w: World, msgs: seq<Msg>, e: Setting, k: nat, receipt: Receipt)
    requires Runs(e) && k < |msgs|
  {
    var r := Result(WorldAt(w, msgs, e, k), msgs[k], e);
    r.Done? && receipt.gasUsed == r.used && receipt.failed == r.failed
  }

  lemma WorldStarts(w: World, msgs: seq<Msg>, e: Setting)
    requires Runs(e)
    ensures WorldAt(w, msgs, e, 0) == w && SlipCount(w, msgs, e, 0) == 0
  {
  }

  lemma WorldStep(w: World, msgs: seq<Msg>, e: Setting, i: nat)
    requires Runs(e) && i < |msgs| && Result(WorldAt(w, msgs, e, i), msgs[i], e).Done?
    ensures WorldAt(w, msgs, e, i + 1) == After(WorldAt(w, msgs, e, i), msgs[i], e)
    ensures SlipCount(w, msgs, e, i + 1) ==
            SlipCount(w, msgs, e, i) + if MakesUp(msgs[i], WorldAt(w, msgs, e, i).candidates) then 1 else 0
  {
    hide Result, After;
  }

  /** A logout of the zero account that never registered. */
  predicate MakesUp(m: Msg, candidates: map<Account, Candidate>) {
    m.kind == Some(LogoutCandidate) && m.from == ZERO_ACCOUNT && ZERO_ACCOUNT !in candidates
  }

  /** How many of the first `n` transactions of a block are such logouts. */
  ghost function SlipCount(w: World, msgs: seq<Msg>, e: Setting, n: nat): nat
    requires Runs(e) && n <= |msgs|
  {
    if n == 0 then 0
    else SlipCount(w, msgs, e, n - 1) + if MakesUp(msgs[n - 1], WorldAt(w, msgs, e, n - 1).candidates) then 1 else 0
  }

  lemma {:induction false} NoSlips(w: World, msgs: seq<Msg>, e: Setting, n: nat)
    requires Runs(e) && n <= |msgs| && forall i :: 0 <= i < |msgs| ==> msgs[i].from != ZERO_ACCOUNT
    ensures SlipCount(w, msgs, e, n) == 0
  {
    if n > 0 {
      NoSlips(w, msgs, e, n - 1);
    }
  }

  lemma SameWealth(s: Stakes, s': Stakes)
    requires Sum(s'.balances) == Sum(s.balances) && s'.candidates == s.candidates
    ensures Deposits.Wealth(s') == Deposits.Wealth(s)
  {
  }

  /**
  The amounts of the single receipts are recovered from the cumulative ones, as differences in 64
  bits: whatever `original` receipts these came from are restored.
  */
  method SetReceiptsData(transactions: nat, rs: array<Receipt>, ghost original: seq<Receipt>) returns (ok: bool)
    modifies rs
    ensures ok <==> transactions == rs.Length
    ensures !ok ==> rs[..] == old(rs[..])
    ensures ok && Cumulative(original) && Erased(original, old(rs[..])) ==> rs[..] == original
  {
    if transactions != rs.Length {
      return false;
    }
    ghost var restores := Cumulative(original) && Erased(original, rs[..]);
    for j := 0 to rs.Length
      invariant forall k :: 0 <= k < rs.Length ==> rs[k].cumulative == old(rs[k].cumulative)
      invariant forall k :: 0 <= k < rs.Length ==> rs[k].failed == old(rs[k].failed)
      invariant restores ==> forall k :: 0 <= k < j ==> rs[k] == original[k]
    {
      var difference := if j == 0 then rs[j].cumulative else rs[j].cumulative - rs[j - 1].cumulative;
      if restores {
        Difference(original, old(rs[..]), j);
      }
      rs[j] := Receipt(rs[j].cumulative, difference % (MAX_UINT64 + 1), rs[j].failed);
    }
    return true;
  }

  lemma Difference(original: seq<Receipt>, rs: seq<Receipt>, j: nat)
    requires Cumulative(original) && Erased(original, rs) && j < |rs|
    ensures original[j].cumulative == rs[j].cumulative
    ensures original[j].gasUsed == (rs[j].cumulative - if j == 0 then 0 else rs[j - 1].cumulative) % (MAX_UINT64 + 1)
  {
    assert Adds(original, j);
  }

  /** The same receipts, but for the amounts of the single ones. */
  ghost predicate Erased(original: seq<Receipt>, rs: seq<Receipt>) {
    && |original| == |rs|
    && forall k :: 0 <= k < |rs| ==>
         rs[k].cumulative == original[k].cumulative <= MAX_UINT64 && rs[k].failed == original[k].failed
  }
}
