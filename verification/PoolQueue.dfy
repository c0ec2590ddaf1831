/**
Limiting the queue: when too many transactions are queued, accounts that are not local lose them,
the ones heard of last first.
*/
module PoolQueue {
  import opened TxSpec
  import opened TxSortedMap
  import opened TxList
  import opened PoolState
  import opened PoolSteps
  import opened PoolFairness

  type Beats = map<Address, int>

  /** When an account was last heard of; zero time if never. */
  function Beat(beats: Beats, a: Address): int {
    if a in beats then beats[a] else 0
  }

  predicate Latest(beats: Beats, among: set<Address>, a: Address) {
    a in among && forall b :: b in among ==> Beat(beats, b) <= Beat(beats, a)
  }

  lemma {:induction false} LatestExists(beats: Beats, among: set<Address>)
    requires among != {}
    ensures exists a :: Latest(beats, among, a)
    decreases |among|
  {
    var x :| x in among;
    var rest := among - {x};
    assert among == rest + {x};
    if rest == {} {
      assert Latest(beats, among, x);
    } else {
      LatestExists(beats, rest);
      var y :| Latest(beats, rest, y);
      assert Latest(beats, among, if Beat(beats, x) > Beat(beats, y) then x else y);
    }
  }

  /** The last `k` of a list, from the end. */
  function Backwards(txs: seq<Tx>, k: nat): seq<Tx>
    requires k <= |txs|
  {
    seq(k, i requires 0 <= i < k => txs[|txs| - 1 - i])
  }

  /** Taking the last transactions off leaves the lowest nonces. */
  lemma TailRemoved(m: Items, k: nat)
    requires Keyed(m) && k <= |m|
    ensures m - NonceSet(Backwards(Flatten(m), k)) == Lowest(m, |m| - k)
  {
    hide Flatten, Lowest, NonceSet, Backwards, Keyed;
    var gone, low := NonceSet(Backwards(Flatten(m), k)), Lowest(m, |m| - k);
    LowestIs(m, |m| - k);
    forall x | x in m ensures x in gone <==> x !in low {
      TailOrLow(m, k, x);
    }
    Remaining(m, gone, low);
  }

  lemma TailOrLow(m: Items, k: nat, x: nat)
    requires Keyed(m) && k <= |m| && x in m
    ensures x in NonceSet(Backwards(Flatten(m), k)) <==> x !in Lowest(m, |m| - k)
  {
    hide Flatten, Lowest, NonceSet, Backwards, Keyed;
    FlattenHas(m, x);
    var i :| 0 <= i < |Flatten(m)| && Flatten(m)[i] == m[x];
    InTail(m, k, x, i);
    InLowest(m, |m| - k, x, i);
  }

  lemma Remaining(m: Items, gone: set<nat>, low: Items)
    requires forall x :: x in low ==> x in m && low[x] == m[x]
    requires forall x :: x in m ==> (x in gone <==> x !in low)
    ensures m - gone == low
  {
  }

  lemma InTail(m: Items, k: nat, x: nat, i: nat)
    requires Keyed(m) && k <= |m| && x in m && i < |m| && Flatten(m)[i] == m[x]
    ensures x in NonceSet(Backwards(Flatten(m), k)) <==> i >= |m| - k
  {
    hide Flatten;
    FlattenSorted(m);
    var s := Flatten(m);
    var b := Backwards(s, k);
    if i >= |m| - k {
      assert b[|s| - 1 - i] == s[i];
    }
    if x in NonceSet(b) {
      var tx :| tx in b && tx.nonce == x;
      var j :| 0 <= j < k && b[j] == tx;
      assert s[|s| - 1 - j] == tx;
    }
  }

  lemma InLowest(m: Items, n: nat, x: nat, i: nat)
    requires Keyed(m) && n <= |m| && x in m && i < |m| && Flatten(m)[i] == m[x]
    ensures x in Lowest(m, n) <==> i < n
  {
    hide Flatten, Lowest;
    FlattenSorted(m);
    LowestIs(m, n);
    FlattenLowest(m, n);
    var low := Lowest(m, n);
    assert Keyed(low);
    FlattenSorted(low);
    if i < n {
      assert Flatten(low)[i] == m[x];
    }
    if x in low {
      FlattenHas(low, x);
      var j :| 0 <= j < |Flatten(low)| && Flatten(low)[j] == low[x];
      assert Flatten(m)[j] == m[x];
    }
  }

  lemma AllRemoved(m: Items)
    requires Keyed(m)
    ensures m - NonceSet(Flatten(m)) == map[] == Lowest(m, 0)
  {
    hide Flatten, Lowest;
    LowestIs(m, 0);
    forall n | n in m ensures n in NonceSet(Flatten(m)) {
      FlattenHas(m, n);
    }
  }

  /** Where the limiting of the queue stands: `left` are the accounts not yet visited. */
  ghost predicate Limiting(q0: Lists, q: Lists, locals: set<Address>, beats: Beats, left: set<Address>, drop: nat) {
    && (forall a :: a in left ==> a in q0 && a !in locals)
    && (forall a {:trigger SameEntry(q0, q, a)} :: a in left || a in locals || a !in q0 ==> SameEntry(q0, q, a))
    && (forall a :: a in q0 && a !in locals && a !in left && drop > 0 ==> a !in q)
    && (forall a, b :: a in left && b in q0 && b !in locals && b !in left ==> Beat(beats, a) <= Beat(beats, b))
    && LatestFirst(q0, q, locals, beats)
  }

  ghost function ItemsOf(q: Lists, a: Address): Items {
    if a in q then q[a].items else map[]
  }

  /** Each account keeps its lowest nonces, and loses some only if all that were heard of later lost all. */
  ghost predicate LatestFirst(q0: Lists, q: Lists, locals: set<Address>, beats: Beats) {
    && (forall a {:trigger SameEntry(q0, q, a)} :: a in locals ==> SameEntry(q0, q, a))
    && (forall a {:trigger ItemsOf(q, a)} :: ItemsOf(q, a) == Lowest(ItemsOf(q0, a), |ItemsOf(q, a)|))
    && (forall a, b {:trigger ItemsOf(q, a), ItemsOf(q, b)} ::
          a in q0 && b in q0 && a !in locals && b !in locals && Beat(beats, a) < Beat(beats, b) && b in q ==>
            SameEntry(q0, q, a))
  }

  lemma LimitingStarts(q: Lists, locals: set<Address>, beats: Beats, left: set<Address>, drop: nat)
    requires left == set a | a in q && a !in locals
    ensures Limiting(q, q, locals, beats, left, drop) && LatestFirst(q, q, locals, beats)
  {
  }

  /** One more account is visited, the latest of those left. */
  lemma LimitingStep(q0: Lists, q: Lists, q': Lists, locals: set<Address>, beats: Beats, left: set<Address>,
                     drop: nat, drop': nat, a: Address)
    requires Limiting(q0, q, locals, beats, left, drop) && drop > 0 && Latest(beats, left, a)
    requires forall b {:trigger SameEntry(q, q', b)} :: b != a ==> SameEntry(q, q', b)
    requires ItemsOf(q', a) == Lowest(ItemsOf(q0, a), |ItemsOf(q', a)|) && (drop' > 0 ==> a !in q')
    ensures Limiting(q0, q', locals, beats, left - {a}, drop')
  {
    hide Lowest, LatestFirst;
    forall b | b in left - {a} || b in locals || b !in q0 ensures SameEntry(q0, q', b) {
      assert SameEntry(q0, q, b) && SameEntry(q, q', b);
    }
    forall b | b in q0 && b !in locals && b !in left - {a} && drop' > 0 ensures b !in q' {
      assert b == a || SameEntry(q, q', b);
    }
    LatestStep(q0, q, q', locals, beats, left, drop, a);
  }

  lemma LatestStep(q0: Lists, q: Lists, q': Lists, locals: set<Address>, beats: Beats, left: set<Address>,
                   drop: nat, a: Address)
    requires Limiting(q0, q, locals, beats, left, drop) && drop > 0 && Latest(beats, left, a)
    requires forall b {:trigger SameEntry(q, q', b)} :: b != a ==> SameEntry(q, q', b)
    requires ItemsOf(q', a) == Lowest(ItemsOf(q0, a), |ItemsOf(q', a)|)
    ensures LatestFirst(q0, q', locals, beats)
  {
    hide Lowest;
    forall x ensures ItemsOf(q', x) == Lowest(ItemsOf(q0, x), |ItemsOf(q', x)|) {
      assert x == a || SameEntry(q, q', x);
      assert x != a ==> ItemsOf(q, x) == Lowest(ItemsOf(q0, x), |ItemsOf(q, x)|);
    }
    forall x | x in locals ensures SameEntry(q0, q', x) {
      assert SameEntry(q, q', x) && SameEntry(q0, q, x);
    }
    forall x, b | x in q0 && b in q0 && x !in locals && b !in locals && Beat(beats, x) < Beat(beats, b) && b in q'
      ensures SameEntry(q0, q', x)
    {
      assert b == a || SameEntry(q, q', b);
      assert b in left && x in left;
      assert SameEntry(q0, q, x) && SameEntry(q, q', x);
    }
  }

  lemma LatestIn(q0: Lists, q: Lists, locals: set<Address>, beats: Beats, left: set<Address>, drop: nat, a: Address)
    requires Limiting(q0, q, locals, beats, left, drop) && Latest(beats, left, a)
    ensures a in q0 && a in q && q[a] == q0[a]
  {
    assert SameEntry(q0, q, a);
  }

  lemma LimitingEnds(q0: Lists, q: Lists, locals: set<Address>, beats: Beats, left: set<Address>, drop: nat)
    requires Limiting(q0, q, locals, beats, left, drop)
    ensures LatestFirst(q0, q, locals, beats)
    ensures drop > 0 && left == {} ==> q.Keys <= locals
  {
    if drop > 0 && left == {} {
      forall a | a in q ensures a in locals {
        assert a !in q0 ==> SameEntry(q0, q, a);
      }
    }
  }

  /** Queued transactions of one account, one for each nonce. */
  ghost predicate QueuedOnce(p: Pool, a: Address, txs: seq<Tx>) {
    && (forall i :: 0 <= i < |txs| ==> txs[i].from == a && p.IsQueued(txs[i]))
    && (forall i, j :: 0 <= i < j < |txs| ==> txs[i].nonce != txs[j].nonce)
  }

  lemma QueuedListed(p: Pool, a: Address)
    requires a in p.queue && GoodList(p.queue[a], false, a) && Keyed(p.Q(a))
    ensures QueuedOnce(p, a, Flatten(p.Q(a)))
  {
    hide Flatten;
    FlattenSorted(p.Q(a));
  }

  lemma BackwardsListed(p: Pool, a: Address, txs: seq<Tx>, k: nat)
    requires k <= |txs| && QueuedOnce(p, a, txs)
    ensures |Backwards(txs, k)| == k && QueuedOnce(p, a, Backwards(txs, k))
  {
    assert forall i :: 0 <= i < k ==> Backwards(txs, k)[i] == txs[|txs| - 1 - i];
  }

  /** The last `drop` transactions from the end, or all in order if there are no more. */
  function LastOf(txs: seq<Tx>, drop: nat): seq<Tx> {
    if |txs| <= drop then txs else Backwards(txs, drop)
  }

  lemma LastOfIs(m: Items, drop: nat)
    requires Keyed(m)
    ensures var txs := LastOf(Flatten(m), drop);
            && |txs| == (if |m| <= drop then |m| else drop)
            && m - NonceSet(txs) == Lowest(m, |m| - |txs|) && |Lowest(m, |m| - |txs|)| == |m| - |txs|
  {
    hide Flatten, Lowest, NonceSet, Backwards, Keyed;
    Sizes(m, if |m| <= drop then 0 else |m| - drop);
    if |m| <= drop {
      AllRemoved(m);
    } else {
      TailRemoved(m, drop);
      BackwardsSize(Flatten(m), drop);
    }
  }

  lemma Sizes(m: Items, n: nat)
    requires Keyed(m) && n <= |m|
    ensures |Flatten(m)| == |m| && |Lowest(m, n)| == n
  {
    hide Flatten, Lowest;
    FlattenSorted(m);
    LowestIs(m, n);
  }

  lemma BackwardsSize(txs: seq<Tx>, k: nat)
    requires k <= |txs|
    ensures |Backwards(txs, k)| == k
  {
  }

  lemma LastOfQueue(p: Pool, a: Address, drop: nat)
    requires a in p.queue && GoodList(p.queue[a], false, a) && Keyed(p.Q(a))
    ensures var txs, m := LastOf(Flatten(p.Q(a)), drop), p.Q(a);
            && QueuedOnce(p, a, txs)
            && |txs| == (if |m| <= drop then |m| else drop)
            && m - NonceSet(txs) == Lowest(m, |m| - |txs|)
            && |m - NonceSet(txs)| == |m| - |txs|
  {
    hide Flatten, Lowest, NonceSet, Backwards, QueuedOnce, Keyed, GoodList;
    QueuedListed(p, a);
    var txs := Flatten(p.Q(a));
    if |txs| > drop {
      BackwardsListed(p, a, txs, drop);
    }
    LastOfIs(p.Q(a), drop);
  }

  // ----- eviction -----

  /** The accounts in `gone` have lost their queue, the others are as before. */
  ghost predicate Evicted(q0: Lists, q: Lists, gone: set<Address>, a: Address) {
    if a in gone then a !in q else SameEntry(q0, q, a)
  }

  ghost predicate Evicting(q0: Lists, q: Lists, todo: set<Address>, gone: set<Address>) {
    && (forall a :: a in todo ==> a in q && a in gone)
    && (forall a {:trigger Evicted(q0, q, gone - todo, a)} :: Evicted(q0, q, gone - todo, a))
  }

  lemma EvictStarts(q: Lists, todo: set<Address>, gone: set<Address>)
    requires todo == set a | a in q && a in gone
    ensures Evicting(q, q, todo, gone)
  {
  }

  lemma EvictStep(q0: Lists, q: Lists, q': Lists, todo: set<Address>, gone: set<Address>, a: Address)
    requires Evicting(q0, q, todo, gone) && a in todo && a !in q'
    requires forall b {:trigger SameEntry(q, q', b)} :: b != a ==> SameEntry(q, q', b)
    ensures Evicting(q0, q', todo - {a}, gone)
  {
    forall b ensures Evicted(q0, q', gone - (todo - {a}), b) {
      assert Evicted(q0, q, gone - todo, b);
      assert b == a || SameEntry(q, q', b);
    }
    forall b | b in todo - {a} ensures b in q' && b in gone {
      assert SameEntry(q, q', b);
    }
  }

  lemma EvictEnds(q0: Lists, q: Lists, gone: set<Address>)
    requires Evicting(q0, q, {}, gone)
    ensures forall a {:trigger Evicted(q0, q, gone, a)} :: Evicted(q0, q, gone, a)
  {
    assert gone - {} == gone;
  }

  lemma EvictedIs(q0: Lists, q: Lists, gone: set<Address>)
    requires forall a {:trigger Evicted(q0, q, gone, a)} :: Evicted(q0, q, gone, a)
    ensures forall a :: a in q <==> a in q0 && a !in gone
    ensures forall a :: a in q ==> q[a] == q0[a]
  {
    forall a ensures (a in q <==> a in q0 && a !in gone) && (a in q ==> q[a] == q0[a]) {
      assert Evicted(q0, q, gone, a);
    }
  }

  /** What is left of one account tells that accounts heard of earlier lost nothing. */
  lemma EarlierStay(q0: Lists, q: Lists, locals: set<Address>, beats: Beats)
    requires LatestFirst(q0, q, locals, beats)
    ensures forall a :: a in locals && a in q0 ==> a in q && q[a] == q0[a]
    ensures forall a, b :: a in q0 && b in q0 && b in q && a !in locals && b !in locals &&
                           (if a in beats then beats[a] else 0) < (if b in beats then beats[b] else 0) ==>
                             a in q && q[a] == q0[a]
  {
    forall a | a in locals && a in q0 ensures a in q && q[a] == q0[a] {
      assert SameEntry(q0, q, a);
    }
    forall a, b | a in q0 && b in q0 && b in q && a !in locals && b !in locals && Beat(beats, a) < Beat(beats, b)
      ensures a in q && q[a] == q0[a]
    {
      assert ItemsOf(q, a) == ItemsOf(q, a) && ItemsOf(q, b) == ItemsOf(q, b);
      assert SameEntry(q0, q, a);
    }
  }
}
