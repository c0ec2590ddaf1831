/**
The price-sorted heap over the pooled transactions. Transactions that leave the pool are not taken
off the heap but skipped when they come up; the heap may also hold a transaction twice.

Of the standard library's heap only its contract is used: a pop returns a least element.
*/
module TxPriced {
  import opened TxSpec

  /** Cheaper first; among equal prices the higher nonce is worse. */
  predicate Less(a: Tx, b: Tx) {
    a.price < b.price || (a.price == b.price && a.nonce > b.nonce)
  }

  predicate Cheapest(tx: Tx, items: multiset<Tx>) {
    tx in items && forall t :: t in items ==> !Less(t, tx)
  }

  lemma {:induction false} CheapestExists(items: multiset<Tx>)
    requires items != multiset{}
    ensures exists tx :: Cheapest(tx, items)
    decreases |items|
  {
    var x :| x in items;
    var rest := items - multiset{x};
    if rest == multiset{} {
      assert forall t :: t in items ==> t == x || t in rest;
      assert Cheapest(x, items);
    } else {
      CheapestExists(rest);
      var y :| Cheapest(y, rest);
      assert forall t :: t in items ==> t == x || t in rest;
      assert Cheapest(if Less(x, y) then x else y, items);
    }
  }

  /** Every pooled transaction is on the heap, except for those just popped. */
  ghost predicate Covers(items: multiset<Tx>, all: set<Tx>, popped: seq<Tx>) {
    forall tx :: tx in all ==> tx in items || tx in popped
  }

  ghost predicate Remote(tx: Tx, all: set<Tx>, locals: set<Address>) {
    tx in all && tx.from !in locals
  }

  /** What has been popped and set aside so far, and what is still on the heap. */
  ghost predicate Sifting(items: multiset<Tx>, drop: seq<Tx>, save: seq<Tx>, all: set<Tx>, locals: set<Address>) {
    && Covers(items, all, drop + save)
    && (forall tx :: tx in drop ==> Remote(tx, all, locals))
    && (forall tx :: tx in save ==> tx in all && tx.from in locals)
    && (forall d, t :: d in drop && t in items ==> !Less(t, d))
  }

  lemma SiftStep(items: multiset<Tx>, drop: seq<Tx>, save: seq<Tx>, all: set<Tx>, locals: set<Address>, tx: Tx)
    requires Sifting(items, drop, save, all, locals) && Cheapest(tx, items)
    ensures var rest := items - multiset{tx};
            && (tx !in all ==> Sifting(rest, drop, save, all, locals))
            && (tx in all && tx.from in locals ==> Sifting(rest, drop, save + [tx], all, locals))
            && (Remote(tx, all, locals) ==> Sifting(rest, drop + [tx], save, all, locals))
  {
    var rest := items - multiset{tx};
    forall t | t in items ensures t == tx || t in rest {
    }
  }

  /** The cap has been reached: what is left on the heap is not below the threshold. */
  ghost predicate Capped(items: multiset<Tx>, drop: seq<Tx>, save: seq<Tx>, all: set<Tx>, locals: set<Address>,
                         threshold: int) {
    && Covers(items, all, drop + save)
    && (forall tx :: tx in drop ==> Remote(tx, all, locals))
    && (forall tx :: tx in save ==> tx in all && (tx.from in locals || tx.price >= threshold))
    && (forall t :: t in items ==> t.price >= threshold)
  }

  lemma CapReached(items: multiset<Tx>, drop: seq<Tx>, save: seq<Tx>, all: set<Tx>, locals: set<Address>, tx: Tx,
                   threshold: int)
    requires Sifting(items, drop, save, all, locals) && Cheapest(tx, items) && tx in all && tx.price >= threshold
    ensures Capped(items - multiset{tx}, drop, save + [tx], all, locals, threshold)
  {
    var rest := items - multiset{tx};
    forall t | t in items ensures t == tx || t in rest {
    }
  }

  class PricedList {
    var items: multiset<Tx>
    var stales: int

    constructor ()
      ensures items == multiset{} && stales == 0
    {
      items, stales := multiset{}, 0;
    }

    method Put(tx: Tx)
      modifies this
      ensures items == old(items) + multiset{tx} && stales == old(stales)
    {
      items := items + multiset{tx};
    }

    /** A transaction has left the pool: past a quarter of stale entries the heap is rebuilt. */
    method Removed(all: set<Tx>)
      modifies this
      ensures stales == if old(stales) + 1 <= old(|items|) / 4 then old(stales) + 1 else 0
      ensures items == if old(stales) + 1 <= old(|items|) / 4 then old(items) else multiset(all)
    {
      stales := stales + 1;
      if stales <= |items| / 4 {
        return;
      }
      stales, items := 0, multiset(all);
    }

    method Pop() returns (tx: Tx)
      requires items != multiset{}
      modifies `items
      ensures Cheapest(tx, old(items)) && items == old(items) - multiset{tx}
    {
      CheapestExists(items);
      tx :| tx in items && Cheapest(tx, items);
      items := items - multiset{tx};
    }

    /** Stale entries at the front are discarded; the cheapest pooled transaction decides. */
    method Underpriced(tx: Tx, all: set<Tx>, locals: set<Address>) returns (under: bool)
      requires Covers(items, all, [])
      modifies this
      ensures Covers(items, all, [])
      ensures under <==> tx.from !in locals && all != {} && forall t :: t in all ==> tx.price <= t.price
    {
      if tx.from in locals {
        return false;
      }
      while items != multiset{}
        invariant Covers(items, all, [])
        decreases |items|
      {
        CheapestExists(items);
        var head :| head in items && Cheapest(head, items);
        if head in all {
          return head.price >= tx.price;
        }
        stales := stales - 1;
        items := items - multiset{head};
      }
      return false;
    }

    /** Popping the cheapest remote transactions, at most `count` of them. */
    method Discard(count: int, all: set<Tx>, locals: set<Address>) returns (drop: seq<Tx>)
      requires Covers(items, all, [])
      modifies this
      ensures Covers(items, all, drop) && (count >= 0 ==> |drop| <= count)
      ensures forall tx :: tx in drop ==> Remote(tx, all, locals)
      ensures forall d, t :: d in drop && t in all && t.from !in locals && t !in drop ==>
                t.price > d.price || (t.price == d.price && t.nonce <= d.nonce)
      ensures |drop| < count ==> forall t :: Remote(t, all, locals) ==> t in drop
    {
      drop := [];
      var save, n := [], count;
      while items != multiset{} && n > 0
        invariant Sifting(items, drop, save, all, locals) && n + |drop| == count && (count >= 0 ==> n >= 0)
        decreases |items|
      {
        ghost var before := items;
        var tx := Pop();
        SiftStep(before, drop, save, all, locals, tx);
        if tx !in all {
          stales := stales - 1;
        } else if tx.from in locals {
          save := save + [tx];
        } else {
          drop := drop + [tx];
          n := n - 1;
        }
      }
      PutBack(save);
    }

    /** Popping every remote transaction below a price. */
    method Cap(threshold: int, all: set<Tx>, locals: set<Address>) returns (drop: seq<Tx>)
      requires Covers(items, all, [])
      modifies this
      ensures Covers(items, all, drop)
      ensures forall tx :: tx in drop <==> Remote(tx, all, locals) && tx.price < threshold
    {
      drop := [];
      var save := [];
      var done := false;
      while items != multiset{} && !done
        invariant done ==> Capped(items, drop, save, all, locals, threshold)
        invariant !done ==> Sifting(items, drop, save, all, locals)
        invariant forall tx :: tx in drop ==> tx.price < threshold
        decreases |items|
      {
        ghost var before := items;
        var tx := Pop();
        SiftStep(before, drop, save, all, locals, tx);
        if tx !in all {
          stales := stales - 1;
        } else if tx.price >= threshold {
          CapReached(before, drop, save, all, locals, tx, threshold);
          save := save + [tx];
          done := true;
        } else if tx.from in locals {
          save := save + [tx];
        } else {
          drop := drop + [tx];
        }
      }
      PutBack(save);
    }

    method PutBack(save: seq<Tx>)
      modifies `items
      ensures items == old(items) + multiset(save)
    {
      for i := 0 to |save|
        invariant items == old(items) + multiset(save[..i])
      {
        assert save[..i + 1] == save[..i] + [save[i]];
        items := items + multiset{save[i]};
      }
      assert save[..|save|] == save;
    }
  }
}
