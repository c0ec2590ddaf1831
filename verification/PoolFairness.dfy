/**
Sharing the pending slots: when too many transactions are pending, the longest lists of accounts
that are not local are cut down to a common length.
*/
module PoolFairness {
  import opened MapSums
  import opened TxSpec
  import opened TxSortedMap
  import opened TxList
  import opened PoolState
  import opened PoolSteps

  type Lists = map<Address, List>

  function ListSize(l: List): int {
    |l.items|
  }

  /** How many transactions the lists hold. */
  ghost function Total(m: Lists): nat {
    SumNat(m, ListSize);
    Sum(m, ListSize)
  }

  lemma TotalWithout(m: Lists, a: Address)
    requires a in m
    ensures Total(m) == |m[a].items| + Total(m - {a})
  {
    SumWithout(m, a, ListSize);
  }

  lemma TotalUpdate(m: Lists, a: Address, l: List)
    requires a in m
    ensures Total(m[a := l]) == Total(m) - |m[a].items| + |l.items|
  {
    SumUpdate(m, a, l, ListSize);
  }

  lemma TotalMonotone(m: Lists, m': Lists)
    requires m.Keys == m'.Keys && forall a :: a in m ==> |m[a].items| <= |m'[a].items|
    ensures Total(m) <= Total(m')
  {
    SumMonotone(m, m', ListSize);
  }

  // ----- cutting to a level -----

  ghost function AtLevel(l: List, level: nat): List {
    l.(items := Lowest(l.items, level))
  }

  /** Every list that is not local is cut to its `level` lowest nonces. */
  ghost function Levelled(m: Lists, locals: set<Address>, level: nat): Lists {
    map a | a in m :: if a in locals then m[a] else AtLevel(m[a], level)
  }

  lemma {:induction false} LowestAgain(m: Items, n: nat, k: nat)
    requires k <= n
    ensures Lowest(Lowest(m, n), k) == Lowest(m, k)
    decreases |m|
  {
    if |m| > n {
      LowestAgain(Without(m, MaxOf(m.Keys)), n, k);
    }
  }

  /** No list is longer than the level: cutting to it changes nothing. */
  lemma LevelAbove(m: Lists, locals: set<Address>, level: nat)
    requires forall a :: a in m && a !in locals ==> |m[a].items| <= level
    ensures Levelled(m, locals, level) == m
  {
  }

  lemma LevelSizes(m: Lists, locals: set<Address>, level: nat)
    ensures Levelled(m, locals, level).Keys == m.Keys
    ensures forall a :: a in m ==>
              |Levelled(m, locals, level)[a].items| ==
                if a in locals || |m[a].items| <= level then |m[a].items| else level
  {
    forall a | a in m
      ensures |Levelled(m, locals, level)[a].items| ==
              if a in locals || |m[a].items| <= level then |m[a].items| else level
    {
      LowestIs(m[a].items, level);
    }
  }

  /**
  The fair sharing of `slots`: everyone is cut to one level, never below `floor`; it is enough
  unless that floor is reached, and one level higher would not have been.
  */
  ghost predicate Fair(m: Lists, m': Lists, locals: set<Address>, slots: nat, floor: nat, level: nat) {
    && floor <= level
    && m' == Levelled(m, locals, level)
    && (Total(m') <= slots || level == floor)
    && (m' == m || Total(Levelled(m, locals, level + 1)) > slots)
  }

  /** No account could be given more: any level that fits leaves every account with at most as much. */
  lemma FairIsGreatest(m: Lists, m': Lists, locals: set<Address>, slots: nat, floor: nat, level: nat, k: nat)
    requires Fair(m, m', locals, slots, floor, level) && Total(Levelled(m, locals, k)) <= slots
    ensures forall a :: a in m ==> |Levelled(m, locals, k)[a].items| <= |m'[a].items|
  {
    hide Total, Lowest, Levelled;
    LevelSizes(m, locals, level);
    LevelSizes(m, locals, k);
    if level < k && m' != m {
      TooHigh(m, locals, level + 1, k);
    }
  }

  /** A higher level takes more. */
  lemma TooHigh(m: Lists, locals: set<Address>, level: nat, k: nat)
    requires level <= k
    ensures Total(Levelled(m, locals, level)) <= Total(Levelled(m, locals, k))
  {
    hide Total, Lowest, Levelled;
    LevelSizes(m, locals, level);
    LevelSizes(m, locals, k);
    TotalMonotone(Levelled(m, locals, level), Levelled(m, locals, k));
  }

  // ----- one account loses its last transaction -----

  /** The last transaction of a list, and what it leaves. */
  lemma LastDropped(m: Items, n: nat)
    requires Keyed(m) && |m| == n + 1
    ensures Lowest(m, n) == Without(m, MaxOf(m.Keys))
    ensures Txs(m) - Txs(Lowest(m, n)) == {m[MaxOf(m.Keys)]}
  {
    var top := MaxOf(m.Keys);
    assert Lowest(m, n) == Without(m, top);
    forall t ensures t in Txs(m) - Txs(Without(m, top)) <==> t == m[top] {
      TxsHas(m, t);
      TxsHas(Without(m, top), t);
    }
  }

  /** The pool after the last pending transaction of an account is dropped. */
  ghost function LastGone(p: Pool, a: Address, n: nat, top: nat): Pool
    requires a in p.pending && top in p.P(a)
  {
    var nonces := if p.NextNonce(a) > top then p.pendingNonces[a := top] else p.pendingNonces;
    p.(pending := p.pending[a := AtLevel(p.pending[a], n)], all := p.all - {p.P(a)[top]}, pendingNonces := nonces)
  }

  lemma LastGoneKeeps(p: Pool, a: Address, n: nat)
    requires Consistent(p, {}, {}) && a in p.pending && |p.P(a)| == n + 1 && n > 0
    ensures Consistent(LastGone(p, a, n, MaxOf(p.P(a).Keys)), {}, {})
  {
    hide Consistent, Lowest, Txs, GoodList, Shorter;
    var l := AtLevel(p.pending[a], n);
    PendingKeyed(p, {}, {}, a);
    LowestKeeps(p.pending[a], n, a);
    LowestIs(p.P(a), n);
    LastDropped(p.P(a), n);
    ShortenPending(p, {}, {}, a, l);
    var top := p.P(a)[MaxOf(p.P(a).Keys)];
    assert {} + {top} == {top} && {} + {a} == {a} && {top} - {top} == {} && {a} - {a} == {};
    var p1 := WithPending(p, a, l);
    Forget(p1, {top}, {a}, {top});
    var p2 := p1.(all := p1.all - {top});
    NotBusy(p, a);
    CleanKeeps(p2, CleanPending(p2, a), {}, {a}, a);
    NoncesAside(p2, {}, {}, LastGone(p, a, n, MaxOf(p.P(a).Keys)).pendingNonces);
  }

  lemma LastGoneGapless(p: Pool, a: Address, n: nat)
    requires Gapless(p) && a in p.pending && Keyed(p.P(a)) && |p.P(a)| == n + 1
    ensures Gapless(LastGone(p, a, n, MaxOf(p.P(a).Keys)))
  {
    hide Lowest;
    LastDropped(p.P(a), n);
    var top := MaxOf(p.P(a).Keys);
    var p' := LastGone(p, a, n, top);
    forall b ensures PendingRun(p', b) && QueuedLater(p', b) {
      assert PendingRun(p, b);
      assert p'.Q(b) == p.Q(b);
      assert p'.P(b) == if b == a then Without(p.P(a), top) else p.P(b);
    }
  }

  // ----- the loops of the equalisation -----

  /** Every list is at `level`, and no higher level would do. */
  ghost predicate Levelling(m0: Lists, m: Lists, locals: set<Address>, slots: nat, level: nat) {
    && m == Levelled(m0, locals, level)
    && (m == m0 || Total(Levelled(m0, locals, level + 1)) > slots)
  }

  /** The accounts to cut are at `level`; everyone else but the local ones is at most at `threshold`. */
  ghost predicate Offending(m0: Lists, locals: set<Address>, accounts: set<Address>, level: nat, threshold: nat) {
    && (forall a :: a in accounts ==> a in m0 && a !in locals && level <= |m0[a].items|)
    && (forall a :: a in m0 && a !in locals && a !in accounts ==> |m0[a].items| <= threshold)
  }

  /** In the middle of a round: the accounts in `done` have been cut by one more. */
  ghost predicate MidRound(m0: Lists, m: Lists, locals: set<Address>, level: nat, done: set<Address>)
    requires level > 0
  {
    && m.Keys == m0.Keys
    && forall a ::
      a in m ==> m[a] == if a in locals then m0[a] else AtLevel(m0[a], if a in done then level - 1 else level)
  }

  function Members(accounts: seq<Address>): set<Address> {
    set a | a in accounts
  }

  ghost predicate DistinctAccounts(accounts: seq<Address>) {
    forall i, j :: 0 <= i < j < |accounts| ==> accounts[i] != accounts[j]
  }

  lemma RoundStarts(m0: Lists, locals: set<Address>, level: nat)
    requires level > 0
    ensures MidRound(m0, Levelled(m0, locals, level), locals, level, Members([]))
  {
  }

  lemma RoundStep(m0: Lists, m: Lists, locals: set<Address>, level: nat, accounts: seq<Address>, i: nat)
    requires level > 1 && i < |accounts| && DistinctAccounts(accounts)
    requires MidRound(m0, m, locals, level, Members(accounts[..i]))
    requires Offending(m0, locals, Members(accounts), level, level - 1)
    ensures accounts[i] in m && |m[accounts[i]].items| == level
    ensures AtLevel(m[accounts[i]], level - 1) == AtLevel(m0[accounts[i]], level - 1)
    ensures |AtLevel(m[accounts[i]], level - 1).items| == level - 1
    ensures var m' := m[accounts[i] := AtLevel(m[accounts[i]], level - 1)];
            MidRound(m0, m', locals, level, Members(accounts[..i + 1]))
  {
    hide Lowest;
    var a := accounts[i];
    assert a in accounts && a !in accounts[..i];
    assert accounts[..i + 1] == accounts[..i] + [a];
    LowestIs(m0[a].items, level);
    LowestIs(m[a].items, level - 1);
    LowestAgain(m0[a].items, level, level - 1);
  }

  lemma RoundEnds(m0: Lists, m: Lists, locals: set<Address>, level: nat, accounts: set<Address>)
    requires level > 0 && MidRound(m0, m, locals, level, accounts) && Offending(m0, locals, accounts, level, level - 1)
    ensures m == Levelled(m0, locals, level - 1)
  {
    forall a | a in m ensures m[a] == Levelled(m0, locals, level - 1)[a] {
    }
  }

  lemma LevelOf(m0: Lists, locals: set<Address>, level: nat, accounts: seq<Address>, threshold: nat)
    requires accounts != [] && Offending(m0, locals, Members(accounts), level, threshold)
    ensures accounts[|accounts| - 1] in m0
    ensures accounts[|accounts| - 1] in Levelled(m0, locals, level)
    ensures |Levelled(m0, locals, level)[accounts[|accounts| - 1]].items| == level
  {
    hide Lowest, Levelled;
    LevelSizes(m0, locals, level);
    assert accounts[|accounts| - 1] in accounts;
  }

  lemma OffendingLess(m0: Lists, locals: set<Address>, accounts: set<Address>, level: nat, threshold: nat)
    requires threshold < level && Offending(m0, locals, accounts, level, threshold)
    ensures Offending(m0, locals, accounts, level, level - 1) && Offending(m0, locals, accounts, level - 1, threshold)
  {
  }

  lemma {:induction false} TotalCovers(m: Lists, a: Address)
    requires a in m
    ensures |m[a].items| <= Total(m)
  {
    TotalWithout(m, a);
  }

  ghost predicate Longest(m: Lists, among: set<Address>, a: Address) {
    a in among && a in m && forall b :: b in among ==> b in m && |m[b].items| <= |m[a].items|
  }

  lemma {:induction false} LongestExists(m: Lists, among: set<Address>)
    requires among != {} && among <= m.Keys
    ensures exists a :: Longest(m, among, a)
    decreases |among|
  {
    var x :| x in among;
    var rest := among - {x};
    if rest == {} {
      assert among == {x};
      assert Longest(m, among, x);
    } else {
      LongestExists(m, rest);
      var y :| Longest(m, rest, y);
      assert among == rest + {x};
      assert Longest(m, among, if |m[x].items| > |m[y].items| then x else y);
    }
  }

  /**
  Between two offenders: those found so far share the level as long as there are too many pending
  transactions, and what may still be found is at most as long.
  */
  ghost predicate Sharing(m0: Lists, locals: set<Address>, offenders: seq<Address>, spammers: set<Address>,
                          level: nat, floor: nat, over: bool)
  {
    && DistinctAccounts(offenders) && floor <= level && Members(offenders) !! spammers
    && (forall a :: a in Members(offenders) ==> a in m0 && a !in locals && (over ==> level <= |m0[a].items|))
    && (forall a :: a in spammers ==> a in m0 && a !in locals && floor < |m0[a].items| <= level)
    && (forall a :: a in m0 && a !in locals && a !in Members(offenders) && a !in spammers ==> |m0[a].items| <= floor)
    && (offenders == [] ==> forall a :: a in m0 && a !in locals ==> |m0[a].items| <= level)
  }

  lemma SharingStarts(m0: Lists, locals: set<Address>, spammers: set<Address>, level: nat, floor: nat)
    requires spammers == set a | a in m0 && a !in locals && |m0[a].items| > floor
    requires floor <= level && forall a :: a in m0 ==> |m0[a].items| <= level
    ensures Sharing(m0, locals, [], spammers, level, floor, true)
  {
  }

  lemma SpammersListed(m0: Lists, locals: set<Address>, offenders: seq<Address>, spammers: set<Address>,
                       level: nat, floor: nat, over: bool)
    requires Sharing(m0, locals, offenders, spammers, level, floor, over)
    ensures spammers <= Levelled(m0, locals, level).Keys && floor <= level && DistinctAccounts(offenders)
  {
  }

  /** The next offender is the longest of the rest; its predecessors are cut to its length. */
  lemma NextOffender(m0: Lists, m: Lists, locals: set<Address>, offenders: seq<Address>, spammers: set<Address>,
                     level: nat, floor: nat, a: Address)
    requires Sharing(m0, locals, offenders, spammers, level, floor, true) && m == Levelled(m0, locals, level)
    requires Longest(m, spammers, a)
    ensures a in spammers && a in m0 && m[a] == m0[a] && floor < |m0[a].items| <= level
    ensures offenders == [] ==> m == m0 && Levelled(m0, locals, |m0[a].items|) == m0
    ensures Offending(m0, locals, Members(offenders), level, |m0[a].items|)
    ensures Longest(m0, spammers, a)
  {
    assert forall b :: b in spammers ==> m[b] == m0[b];
    assert offenders == [] ==> Members(offenders) == {};
  }

  lemma OffenderJoins(m0: Lists, locals: set<Address>, offenders: seq<Address>, spammers: set<Address>,
                      level: nat, floor: nat, a: Address, level': nat, over: bool)
    requires Sharing(m0, locals, offenders, spammers, level, floor, true)
    requires a in m0 && Longest(m0, spammers, a)
    requires |m0[a].items| <= level' <= level && (offenders == [] || over ==> level' == |m0[a].items|)
    ensures Sharing(m0, locals, offenders + [a], spammers - {a}, level', floor, over)
  {
    assert forall b :: b in Members(offenders + [a]) <==> b in Members(offenders) || b == a;
    assert forall i :: 0 <= i < |offenders| ==> offenders[i] in Members(offenders);
  }

  lemma LastOffenders(m0: Lists, locals: set<Address>, offenders: seq<Address>, level: nat, floor: nat)
    requires Sharing(m0, locals, offenders, {}, level, floor, true)
    ensures Offending(m0, locals, Members(offenders), level, floor)
    ensures offenders == [] ==> Levelled(m0, locals, floor) == m0 == Levelled(m0, locals, level)
  {
    assert offenders == [] ==> Members(offenders) == {};
  }

  lemma EmptyTotal(m: Lists, todo: set<Address>)
    ensures todo == m.Keys ==> m - (m.Keys - todo) == m
    ensures todo == {} ==> Total(m - (m.Keys - todo)) == 0
  {
    assert todo == {} ==> m - (m.Keys - todo) == map[];
  }

  // ----- taking transactions off a queue -----

  /** A queue loses one transaction; nothing else changes. */
  lemma QueuedGoneIs(p: Pool, tx: Tx)
    requires Consistent(p, {}, {}) && p.IsQueued(tx)
    ensures tx in p.all && tx.nonce !in p.P(tx.from) && tx.from in p.queue
    ensures var p' := QueuedGone(p, tx);
            && p' == p.(queue := p'.queue, all := p.all - {tx})
            && p'.Q(tx.from) == p.Q(tx.from) - {tx.nonce}
            && (forall b :: b != tx.from ==> SameEntry(p.queue, p'.queue, b))
            && Total(p'.queue) == Total(p.queue) - 1
  {
    hide Consistent, Total;
    Split(p, {}, {}, tx.from);
    assert TxOk(p, {}, tx);
    var a := tx.from;
    var l := Removed(p.queue[a], tx.nonce);
    var m := p.queue[a := l];
    assert |l.items| == |p.Q(a)| - 1 by {
      assert l.items == Without(p.Q(a), tx.nonce);
    }
    TotalUpdate(p.queue, a, l);
    TotalWithout(m, a);
    assert m - {a} == p.queue - {a};
  }

  function NonceSet(txs: seq<Tx>): set<nat> {
    set tx | tx in txs :: tx.nonce
  }
}
