/**
The transaction list of an account, pending (strict: its nonces have no gaps) or queued. As a value,
a list is its transactions and the two caps that bound their cost and gas.
*/
module TxList {
  import opened Wrappers
  import opened TxSpec
  import opened TxSortedMap

  datatype List = List(strict: bool, items: Items, costcap: int, gascap: nat)

  function Empty(strict: bool): List {
    List(strict, map[], 0, 0)
  }

  /** Everything in the list is keyed by its nonce and within the caps. */
  ghost predicate Good(l: List) {
    && Keyed(l.items)
    && forall n :: n in l.items ==> l.items[n].cost <= l.costcap && l.items[n].gas <= l.gascap
  }

  // ----- adding -----

  /** The price a replacement must reach: `bump` percent above the old one. */
  function Threshold(prev: Tx, bump: nat): int {
    prev.price * (100 + bump) / 100
  }

  predicate Replaceable(prev: Tx, tx: Tx, bump: nat) {
    prev.price < tx.price && Threshold(prev, bump) <= tx.price
  }

  predicate Accepts(l: List, tx: Tx, bump: nat) {
    tx.nonce !in l.items || Replaceable(l.items[tx.nonce], tx, bump)
  }

  /** A transaction is accepted exactly if its nonce is free, or it pays more than the old one, by the bump. */
  lemma AcceptsIff(l: List, tx: Tx, bump: nat)
    ensures Accepts(l, tx, bump) <==>
            tx.nonce in l.items ==>
              tx.price > l.items[tx.nonce].price && tx.price >= l.items[tx.nonce].price * (100 + bump) / 100
  {
  }

  function Raise(cap: int, x: int): int {
    if cap < x then x else cap
  }

  function Added(l: List, tx: Tx): List {
    List(l.strict, l.items[tx.nonce := tx], Raise(l.costcap, tx.cost), Raise(l.gascap, tx.gas))
  }

  lemma AddedGood(l: List, tx: Tx)
    requires Good(l)
    ensures Good(Added(l, tx))
  {
  }

  // ----- filtering -----

  predicate TooCostly(tx: Tx, costLimit: int, gasLimit: nat) {
    tx.cost > costLimit || tx.gas > gasLimit
  }

  function Costly(costLimit: int, gasLimit: nat): Tx -> bool {
    (tx: Tx) => TooCostly(tx, costLimit, gasLimit)
  }

  function Above(n: nat): Tx -> bool {
    (tx: Tx) => tx.nonce > n
  }

  /** The nonces the limits exclude. */
  ghost function Excluded(m: Items, costLimit: int, gasLimit: nat): set<nat> {
    set n | n in m && TooCostly(m[n], costLimit, gasLimit)
  }

  /** What a full scan keeps: in strict mode also nothing above the first gap it makes. */
  predicate Stays(strict: bool, m: Items, costLimit: int, gasLimit: nat, n: nat) {
    && n in m && !TooCostly(m[n], costLimit, gasLimit)
    && (strict ==> forall k :: k in m && TooCostly(m[k], costLimit, gasLimit) ==> n < k)
  }

  function Scanned(strict: bool, m: Items, costLimit: int, gasLimit: nat): Items {
    map n | n in m && Stays(strict, m, costLimit, gasLimit, n) :: m[n]
  }

  function Filtered(l: List, costLimit: int, gasLimit: nat): List {
    List(l.strict, Scanned(l.strict, l.items, costLimit, gasLimit),
         if l.costcap <= costLimit && l.gascap <= gasLimit then l.costcap else costLimit,
         if l.costcap <= costLimit && l.gascap <= gasLimit then l.gascap else gasLimit)
  }

  /** The caps make the short circuit exact: when it fires, a full scan would drop nothing. */
  lemma ShortCircuitExact(l: List, costLimit: int, gasLimit: nat)
    requires Good(l) && l.costcap <= costLimit && l.gascap <= gasLimit
    ensures Filtered(l, costLimit, gasLimit) == l
  {
    assert Scanned(l.strict, l.items, costLimit, gasLimit) == l.items;
  }

  lemma FilteredGood(l: List, costLimit: int, gasLimit: nat)
    requires Good(l)
    ensures Good(Filtered(l, costLimit, gasLimit))
    ensures forall n :: n in Filtered(l, costLimit, gasLimit).items ==> n in l.items
    ensures forall n :: n in Filtered(l, costLimit, gasLimit).items ==> !TooCostly(l.items[n], costLimit, gasLimit)
  {
  }

  /** A strict list without gaps has none after filtering. */
  lemma FilteredInterval(l: List, costLimit: int, gasLimit: nat, a: nat, b: nat) returns (e: nat)
    requires l.strict && Interval(l.items, a, b) && a <= b
    ensures a <= e <= b && Interval(Filtered(l, costLimit, gasLimit).items, a, e)
  {
    hide Stays;
    var out := Excluded(l.items, costLimit, gasLimit);
    e := if out == {} then b else MinOf(out);
    assert out != {} ==> e in l.items;
    forall n: nat ensures n in Filtered(l, costLimit, gasLimit).items <==> a <= n < e {
      StaysBelow(l.items, costLimit, gasLimit, n);
    }
  }

  /** In strict mode exactly what is below everything excluded stays. */
  lemma StaysBelow(m: Items, costLimit: int, gasLimit: nat, n: nat)
    ensures Stays(true, m, costLimit, gasLimit, n) <==>
            (n in m && forall k :: k in Excluded(m, costLimit, gasLimit) ==> n < k)
  {
    if n in m && TooCostly(m[n], costLimit, gasLimit) {
      assert n in Excluded(m, costLimit, gasLimit);
    }
    if forall k :: k in Excluded(m, costLimit, gasLimit) ==> n < k {
      forall k | k in m && TooCostly(m[k], costLimit, gasLimit) ensures n < k {
        assert k in Excluded(m, costLimit, gasLimit);
      }
    }
  }

  // ----- removing -----

  /** Without `nonce`, and in strict mode without anything above it. */
  function Removed(l: List, nonce: nat): List {
    if nonce !in l.items then l
    else if l.strict then l.(items := Below(l.items, nonce))
    else l.(items := l.items - {nonce})
  }

  lemma RemovedGood(l: List, nonce: nat)
    requires Good(l)
    ensures Good(Removed(l, nonce))
    ensures forall n :: n in Removed(l, nonce).items ==> n in l.items && n != nonce
  {
  }

  lemma RemovedInterval(l: List, nonce: nat, a: nat, b: nat)
    requires l.strict && Interval(l.items, a, b) && nonce in l.items
    ensures Interval(Removed(l, nonce).items, a, nonce)
  {
  }

  /** The two passes of removing from a strict list. */
  lemma RemovePasses(m: Items, n: nat)
    requires Keyed(m) && n in m
    ensures var above := Above(n);
            && Kept(m - {n}, above) == Below(m, n)
            && Dropped(m - {n}, above) == Txs(m) - Txs(Below(m, n)) - {m[n]}
    ensures Txs(m) - Txs(m - {n}) == {m[n]}
  {
    var above := Above(n);
    assert Kept(m - {n}, above) == Below(m, n);
    forall tx ensures tx in Dropped(m - {n}, above) <==> tx in Txs(m) - Txs(Below(m, n)) - {m[n]} {
      TxsHas(m, tx);
      TxsHas(Below(m, n), tx);
      if tx in Txs(m) && tx.nonce > n {
        assert tx.nonce in m - {n};
      }
    }
    forall tx ensures tx in Txs(m) - Txs(m - {n}) <==> tx == m[n] {
      TxsHas(m, tx);
      TxsHas(m - {n}, tx);
    }
  }

  lemma TxsHas(m: Items, tx: Tx)
    requires Keyed(m)
    ensures tx in Txs(m) <==> tx.nonce in m && m[tx.nonce] == tx
  {
  }

  /** The first pass of filtering, and the second one in strict mode. */
  lemma FilterPasses(m: Items, costLimit: int, gasLimit: nat, lowest: nat)
    requires Keyed(m)
    ensures var costly := Costly(costLimit, gasLimit);
            var m1 := Kept(m, costly);
            && Keyed(m1)
            && m1 == Scanned(false, m, costLimit, gasLimit)
            && Dropped(m, costly) == Txs(m) - Txs(m1)
            && (Dropped(m, costly) == {} ==> m1 == Scanned(true, m, costLimit, gasLimit))
            && (IsMin(Excluded(m, costLimit, gasLimit), lowest) ==>
                  var above := Above(lowest);
                  var m2 := Kept(m1, above);
                  && m2 == Scanned(true, m, costLimit, gasLimit)
                  && Dropped(m1, above) == Txs(m1) - Txs(m2)
                  && Txs(m2) <= Txs(m1))
            && Txs(m1) <= Txs(m)
  {
    var costly := Costly(costLimit, gasLimit);
    var m1 := Kept(m, costly);
    KeptSplits(m, costly);
    assert m1 == Scanned(false, m, costLimit, gasLimit);
    forall n | n in m && TooCostly(m[n], costLimit, gasLimit) ensures m[n] in Dropped(m, costly) {
    }
    if Dropped(m, costly) == {} {
      assert m1 == Scanned(true, m, costLimit, gasLimit);
    }
    if IsMin(Excluded(m, costLimit, gasLimit), lowest) {
      var above := Above(lowest);
      KeptSplits(m1, above);
      StrictPass(m, costLimit, gasLimit, lowest);
    }
  }

  lemma StrictPass(m: Items, costLimit: int, gasLimit: nat, lowest: nat)
    requires Keyed(m) && IsMin(Excluded(m, costLimit, gasLimit), lowest)
    ensures Kept(Kept(m, Costly(costLimit, gasLimit)), Above(lowest))
            == Scanned(true, m, costLimit, gasLimit)
  {
    assert lowest in Excluded(m, costLimit, gasLimit);
    forall n | n in m
      ensures Stays(true, m, costLimit, gasLimit, n) <==> !TooCostly(m[n], costLimit, gasLimit) && n <= lowest
    {
      if !TooCostly(m[n], costLimit, gasLimit) && n <= lowest {
        forall k | k in m && TooCostly(m[k], costLimit, gasLimit) ensures n < k {
          assert k in Excluded(m, costLimit, gasLimit);
        }
      }
    }
  }

  /** A filter splits the transactions of a list into the kept and the dropped ones. */
  lemma KeptSplits(m: Items, drop: Tx -> bool)
    requires Keyed(m)
    ensures Keyed(Kept(m, drop)) && Txs(Kept(m, drop)) <= Txs(m)
    ensures Dropped(m, drop) == Txs(m) - Txs(Kept(m, drop))
  {
    forall tx ensures tx in Dropped(m, drop) <==> tx in Txs(m) - Txs(Kept(m, drop)) {
      TxsHas(m, tx);
      TxsHas(Kept(m, drop), tx);
    }
    forall tx | tx in Txs(Kept(m, drop)) ensures tx in Txs(m) {
      TxsHas(Kept(m, drop), tx);
      TxsHas(m, tx);
    }
  }

  lemma JoinSplit(a: set<Tx>, b: set<Tx>, c: set<Tx>, removed: seq<Tx>, invalids: seq<Tx>)
    requires c <= b <= a && multiset(removed) == multiset(a - b) && multiset(invalids) == multiset(b - c)
    ensures multiset(removed + invalids) == multiset(a - c)
  {
    assert a - c == (a - b) + (b - c);
  }

  lemma GoodKeyed(l: List)
    requires Good(l)
    ensures Keyed(l.items)
  {
  }

  lemma NoneCostly(l: List, costLimit: int, gasLimit: nat)
    requires Good(l) && l.costcap <= costLimit && l.gascap <= gasLimit
    ensures forall tx :: tx in Txs(l.items) ==> !TooCostly(tx, costLimit, gasLimit)
  {
  }

  lemma CostlyDropped(m: Items, costLimit: int, gasLimit: nat, removed: seq<Tx>)
    requires Keyed(m) && multiset(removed) == multiset(Dropped(m, Costly(costLimit, gasLimit)))
    ensures forall tx :: tx in removed <==> tx in Txs(m) && TooCostly(tx, costLimit, gasLimit)
    ensures removed == [] <==> Dropped(m, Costly(costLimit, gasLimit)) == {}
  {
    forall tx ensures tx in removed <==> tx in Txs(m) && TooCostly(tx, costLimit, gasLimit) {
      assert tx in removed <==> tx in multiset(removed);
      TxsHas(m, tx);
    }
    assert removed != [] ==> removed[0] in multiset(removed);
    assert removed == [] ==> |multiset(removed)| == 0;
  }

  lemma LowestExcluded(m: Items, costLimit: int, gasLimit: nat, removed: seq<Tx>, lowest: nat)
    requires Keyed(m)
    requires forall tx :: tx in removed <==> tx in Txs(m) && TooCostly(tx, costLimit, gasLimit)
    requires exists k :: 0 <= k < |removed| && lowest == removed[k].nonce
    requires forall k :: 0 <= k < |removed| ==> lowest <= removed[k].nonce
    ensures IsMin(Excluded(m, costLimit, gasLimit), lowest)
  {
    var k :| 0 <= k < |removed| && lowest == removed[k].nonce;
    TxsHas(m, removed[k]);
    assert removed[k] in removed;
    forall n | n in Excluded(m, costLimit, gasLimit) ensures lowest <= n {
      TxsHas(m, m[n]);
      assert m[n] in removed;
    }
  }

  method LowestNonce(txs: seq<Tx>) returns (lowest: nat)
    requires txs != []
    ensures exists k :: 0 <= k < |txs| && lowest == txs[k].nonce
    ensures forall k :: 0 <= k < |txs| ==> lowest <= txs[k].nonce
  {
    lowest := txs[0].nonce;
    for i := 1 to |txs|
      invariant forall k :: 0 <= k < i ==> lowest <= txs[k].nonce
      invariant exists k :: 0 <= k < i && lowest == txs[k].nonce
    {
      if lowest > txs[i].nonce {
        lowest := txs[i].nonce;
      }
    }
  }

  // ----- the list as an object -----

  class ListObject {
    const strict: bool
    const txs: SortedMap
    var costcap: int
    var gascap: nat

    ghost function Value(): List
      reads this, txs
    {
      List(strict, txs.items, costcap, gascap)
    }

    ghost predicate Valid()
      reads this, txs
    {
      txs.Valid() && Good(Value())
    }

    constructor (strict: bool)
      ensures Valid() && Value() == Empty(strict) && fresh(txs)
    {
      this.strict := strict;
      txs := new SortedMap();
      costcap, gascap := 0, 0;
    }

    constructor Of(l: List, txs: SortedMap)
      requires Good(l) && txs.Valid() && txs.items == l.items
      ensures Valid() && Value() == l && this.txs == txs
    {
      this.strict, this.txs := l.strict, txs;
      costcap, gascap := l.costcap, l.gascap;
    }

    /** A transaction is taken in unless a better one with its nonce is there. */
    method Add(tx: Tx, bump: nat) returns (inserted: bool, replaced: Option<Tx>)
      requires Valid()
      modifies this, txs
      ensures Valid() && inserted == Accepts(old(Value()), tx, bump)
      ensures inserted <==> tx.nonce in old(txs.items) ==>
                              var prev := old(txs.items)[tx.nonce];
                              tx.price > prev.price && tx.price >= prev.price * (100 + bump) / 100
      ensures Value() == if inserted then Added(old(Value()), tx) else old(Value())
      ensures replaced == if inserted && tx.nonce in old(txs.items) then Some(old(txs.items)[tx.nonce]) else None
    {
      AddedGood(Value(), tx);
      if tx.nonce in txs.items {
        var prev := txs.items[tx.nonce];
        var threshold := prev.price * (100 + bump) / 100;
        if prev.price >= tx.price || threshold > tx.price {
          return false, None;
        }
        replaced := Some(prev);
      } else {
        replaced := None;
      }
      txs.Put(tx);
      if costcap < tx.cost {
        costcap := tx.cost;
      }
      if gascap < tx.gas {
        gascap := tx.gas;
      }
      inserted := true;
    }

    /**
    Dropping what the limits exclude. The caps decide whether there is anything to look for; the
    result is that of a full scan.
    */
    method Filter(costLimit: int, gasLimit: nat) returns (removed: seq<Tx>, invalids: seq<Tx>)
      requires Valid()
      modifies this, txs
      ensures Valid() && Value() == Filtered(old(Value()), costLimit, gasLimit)
      ensures multiset(removed + invalids) == multiset(Txs(old(txs.items)) - Txs(txs.items))
      ensures forall tx :: tx in removed <==> tx in Txs(old(txs.items)) && TooCostly(tx, costLimit, gasLimit)
    {
      hide Kept, Dropped, Txs, Scanned, Good, Excluded, Keyed, SortedMap.Valid, IsMin;
      ghost var m := txs.items;
      FilteredGood(Value(), costLimit, gasLimit);
      GoodKeyed(Value());
      removed, invalids := [], [];
      FilterPasses(m, costLimit, gasLimit, 0);
      if costcap <= costLimit && gascap <= gasLimit {
        ShortCircuitExact(Value(), costLimit, gasLimit);
        NoneCostly(Value(), costLimit, gasLimit);
        return;
      }
      costcap, gascap := costLimit, gasLimit;
      removed := txs.Filter(Costly(costLimit, gasLimit));
      CostlyDropped(m, costLimit, gasLimit, removed);
      if strict && removed != [] {
        var lowest := LowestNonce(removed);
        LowestExcluded(m, costLimit, gasLimit, removed, lowest);
        FilterPasses(m, costLimit, gasLimit, lowest);
        invalids := txs.Filter(Above(lowest));
        JoinSplit(Txs(m), Txs(Kept(m, Costly(costLimit, gasLimit))), Txs(txs.items), removed, invalids);
      } else {
        assert removed + [] == removed;
      }
    }

    /** Removing a nonce, and in strict mode everything above it. */
    method Remove(tx: Tx) returns (found: bool, invalids: seq<Tx>)
      requires Valid()
      modifies txs
      ensures Valid() && found == (tx.nonce in old(txs.items)) && Value() == Removed(old(Value()), tx.nonce)
      ensures found ==> var rest := Txs(old(txs.items)) - Txs(txs.items) - {old(txs.items)[tx.nonce]};
                        multiset(invalids) == multiset(rest)
      ensures !found ==> invalids == []
    {
      hide Kept, Dropped, Txs, Good, Keyed, Below, SortedMap.Valid;
      RemovedGood(Value(), tx.nonce);
      GoodKeyed(Value());
      if tx.nonce in txs.items {
        RemovePasses(txs.items, tx.nonce);
      } else {
        assert txs.items - {tx.nonce} == txs.items;
      }
      invalids := [];
      found := txs.Remove(tx.nonce);
      if found && strict {
        invalids := txs.Filter(Above(tx.nonce));
      }
    }
  }
}
