/**
Transactions, and the map-level meaning of the per-account transaction lists: a list is a finite map
from nonces to transactions.
*/
module TxSpec {

  type Address = nat

  /**
  `id` stands for the rest of the contents. Transaction hashes are taken to be injective, so a
  transaction is its own hash.
  */
  datatype Tx = Tx(id: nat, from: Address, nonce: nat, price: int, gas: nat, cost: int)

  type Items = map<nat, Tx>

  predicate Keyed(m: Items) {
    forall n :: n in m ==> m[n].nonce == n
  }

  // ----- extreme nonces -----

  ghost predicate IsMax(s: set<nat>, x: nat) {
    x in s && forall y :: y in s ==> y <= x
  }

  ghost predicate IsMin(s: set<nat>, x: nat) {
    x in s && forall y :: y in s ==> x <= y
  }

  lemma {:induction false} ExtremesExist(s: set<nat>)
    requires s != {}
    ensures (exists x :: IsMax(s, x)) && (exists x :: IsMin(s, x))
    decreases |s|
  {
    var z :| z in s;
    if s == {z} {
      assert IsMax(s, z) && IsMin(s, z);
    } else {
      var rest := s - {z};
      assert rest != {};
      ExtremesExist(rest);
      var x, y :| IsMax(rest, x) && IsMin(rest, y);
      assert forall w :: w in s ==> w == z || w in rest;
      assert IsMax(s, if x <= z then z else x);
      assert IsMin(s, if z <= y then z else y);
    }
  }

  ghost function MaxOf(s: set<nat>): (x: nat)
    requires s != {}
    ensures IsMax(s, x)
  {
    ExtremesExist(s);
    var x :| IsMax(s, x);
    x
  }

  ghost function MinOf(s: set<nat>): (x: nat)
    requires s != {}
    ensures IsMin(s, x)
  {
    ExtremesExist(s);
    var x :| IsMin(s, x);
    x
  }

  function Without(m: Items, n: nat): (r: Items)
    requires n in m
    ensures |r| == |m| - 1
    ensures forall k :: k in r <==> k in m && k != n
    ensures forall k :: k in r ==> r[k] == m[k]
  {
    var r := m - {n};
    assert r.Keys == m.Keys - {n};
    r
  }

  // ----- the operations -----

  /** The transactions in order of their nonces. */
  ghost function Flatten(m: Items): (s: seq<Tx>)
    ensures |s| == |m|
    decreases |m|
  {
    if m == map[] then []
    else Flatten(Without(m, MaxOf(m.Keys))) + [m[MaxOf(m.Keys)]]
  }

  /** What is left after dropping every nonce below `threshold`. */
  function From(m: Items, threshold: nat): Items {
    map n | n in m && n >= threshold :: m[n]
  }

  function Below(m: Items, threshold: nat): Items {
    map n | n in m && n < threshold :: m[n]
  }

  /** The `n` lowest nonces. */
  ghost function Lowest(m: Items, n: nat): Items
    decreases |m|
  {
    if |m| <= n then m else Lowest(Without(m, MaxOf(m.Keys)), n)
  }

  /** The first nonce from `n` on that is missing. */
  function RunEnd(m: Items, n: nat): (e: nat)
    ensures n <= e && (n in m ==> n < e)
    decreases |m|
  {
    if n in m then RunEnd(Without(m, n), n + 1) else n
  }

  /** The end of the nonces that are ready: a run from the least one, if that is low enough. */
  ghost function ReadyEnd(m: Items, start: nat): nat {
    if m == map[] || MinOf(m.Keys) > start then 0 else RunEnd(m, MinOf(m.Keys))
  }

  lemma {:induction false} RunEndIs(m: Items, n: nat, k: nat)
    ensures n <= k < RunEnd(m, n) ==> k in m
    ensures RunEnd(m, n) !in m
    decreases |m|
  {
    if n in m {
      RunEndIs(Without(m, n), n + 1, k);
    }
  }

  /** The ready nonces are the maximal consecutive run from the least nonce of the list. */
  lemma ReadyIsMaximalRun(m: Items, start: nat)
    ensures m == map[] || MinOf(m.Keys) > start <==> ReadyEnd(m, start) == 0
    ensures ReadyEnd(m, start) > 0 ==>
              && m != map[] && MinOf(m.Keys) < ReadyEnd(m, start) && ReadyEnd(m, start) !in m
              && Interval(Below(m, ReadyEnd(m, start)), MinOf(m.Keys), ReadyEnd(m, start))
  {
    if m != map[] {
      forall k: nat ensures MinOf(m.Keys) <= k < RunEnd(m, MinOf(m.Keys)) ==> k in m {
        RunEndIs(m, MinOf(m.Keys), k);
      }
      RunEndIs(m, MinOf(m.Keys), 0);
    }
  }

  lemma {:induction false} LowestIs(m: Items, n: nat)
    ensures |Lowest(m, n)| == if |m| <= n then |m| else n
    ensures forall k :: k in Lowest(m, n) ==> k in m && Lowest(m, n)[k] == m[k]
    ensures forall k, d :: k in Lowest(m, n) && d in m && d !in Lowest(m, n) ==> k < d
    decreases |m|
  {
    if |m| > n {
      var top := MaxOf(m.Keys);
      LowestIs(Without(m, top), n);
      assert forall d :: d in m ==> d == top || d in Without(m, top);
    }
  }

  /** Dropping below and keeping above split the list in two. */
  lemma {:induction false} FlattenSplit(m: Items, t: nat)
    ensures Flatten(m) == Flatten(Below(m, t)) + Flatten(From(m, t))
    decreases |m|
  {
    hide Flatten, MaxOf, From, Below;
    FlattenNone();
    if m == map[] {
      SplitNone(t);
    } else {
      var top := MaxOf(m.Keys);
      var rest := Without(m, top);
      FlattenTop(m, top);
      FlattenSplit(rest, t);
      SplitTop(m, t, top);
      if top >= t {
        FlattenTop(From(m, t), top);
        assert Flatten(m) == Flatten(Below(rest, t)) + (Flatten(From(rest, t)) + [m[top]]);
      }
    }
  }

  lemma SplitNone(t: nat)
    ensures Below(map[], t) == map[] && From(map[], t) == map[]
  {
  }

  lemma SplitTop(m: Items, t: nat, top: nat)
    requires IsMax(m.Keys, top)
    ensures top >= t ==>
              && Below(m, t) == Below(Without(m, top), t)
              && IsMax(From(m, t).Keys, top) && From(m, t)[top] == m[top]
              && Without(From(m, t), top) == From(Without(m, top), t)
    ensures top < t ==> From(m, t) == map[] && Below(m, t) == m
  {
  }

  lemma FlattenNone()
    ensures Flatten(map[]) == []
  {
  }

  lemma FlattenTop(m: Items, top: nat)
    requires IsMax(m.Keys, top)
    ensures Flatten(m) == Flatten(Without(m, top)) + [m[top]]
  {
    assert MaxOf(m.Keys) == top;
  }

  lemma {:induction false} FlattenLowest(m: Items, n: nat)
    requires n <= |m|
    ensures Flatten(Lowest(m, n)) == Flatten(m)[..n]
    decreases |m|
  {
    if |m| > n {
      FlattenLowest(Without(m, MaxOf(m.Keys)), n);
    }
  }

  /** A list of the transactions of `m` by increasing nonce. */
  ghost predicate Listing(s: seq<Tx>, m: Items) {
    && |s| == |m|
    && (forall i, j :: 0 <= i < j < |s| ==> s[i].nonce < s[j].nonce)
    && (forall i {:trigger s[i]} :: 0 <= i < |s| ==> s[i].nonce in m && m[s[i].nonce] == s[i])
  }

  lemma {:induction false} FlattenSorted(m: Items)
    requires Keyed(m)
    ensures Listing(Flatten(m), m)
    decreases |m|
  {
    hide Flatten;
    if m == map[] {
      FlattenNone();
    } else {
      var top := MaxOf(m.Keys);
      var rest := Without(m, top);
      FlattenTop(m, top);
      FlattenSorted(rest);
      var s, r := Flatten(m), Flatten(rest);
      assert s[|r|] == m[top];
      forall i | 0 <= i < |s| ensures s[i].nonce in m && m[s[i].nonce] == s[i] {
        if i < |r| {
          assert s[i] == r[i];
        }
      }
      forall i, j | 0 <= i < j < |s| ensures s[i].nonce < s[j].nonce {
        assert s[i] == r[i];
        if j < |r| {
          assert s[j] == r[j];
        }
      }
    }
  }

  lemma {:induction false} FlattenHas(m: Items, n: nat)
    requires n in m
    ensures m[n] in Flatten(m)
    decreases |m|
  {
    if n != MaxOf(m.Keys) {
      FlattenHas(Without(m, MaxOf(m.Keys)), n);
    }
  }

  /** There is only one such list. */
  lemma {:induction false} ListingUnique(s: seq<Tx>, m: Items)
    requires Listing(s, m)
    ensures s == Flatten(m)
    decreases |m|
  {
    hide Flatten;
    if m == map[] {
      FlattenNone();
    } else {
      var last := s[|s| - 1].nonce;
      ListingCovers(s, m);
      assert IsMax(m.Keys, last);
      var rest := Without(m, last);
      var r := s[..|s| - 1];
      forall i | 0 <= i < |r| ensures r[i].nonce in rest && rest[r[i].nonce] == r[i] {
        assert r[i] == s[i];
      }
      ListingUnique(r, rest);
      FlattenTop(m, last);
    }
  }

  lemma ListingCovers(s: seq<Tx>, m: Items)
    requires Listing(s, m) && s != []
    ensures IsMax(m.Keys, s[|s| - 1].nonce)
  {
    var last := s[|s| - 1].nonce;
    forall n | n in m ensures n <= last {
      if n > last {
        forall i | 0 <= i < |s| ensures s[i].nonce in Without(m, n) && Without(m, n)[s[i].nonce] == s[i] {
          assert i == |s| - 1 || s[i].nonce < last;
        }
        ListedAtMost(s, Without(m, n));
      }
    }
  }

  lemma {:induction false} ListedAtMost(s: seq<Tx>, m: Items)
    requires forall i, j :: 0 <= i < j < |s| ==> s[i].nonce < s[j].nonce
    requires forall i {:trigger s[i]} :: 0 <= i < |s| ==> s[i].nonce in m && m[s[i].nonce] == s[i]
    ensures |s| <= |m|
    decreases |s|
  {
    if s != [] {
      var r, rest := s[..|s| - 1], Without(m, s[|s| - 1].nonce);
      forall i | 0 <= i < |r| ensures r[i].nonce in rest && rest[r[i].nonce] == r[i] {
        assert r[i] == s[i];
      }
      ListedAtMost(r, rest);
    }
  }

  // ----- consecutive lists -----

  ghost predicate Interval(m: Items, a: nat, b: nat) {
    forall n :: n in m <==> a <= n < b
  }

  /** The transactions of a list without gaps, one for each nonce. */
  lemma {:induction false} FlattenInterval(m: Items, a: nat, b: nat, i: nat)
    requires Keyed(m) && Interval(m, a, b) && a <= b
    ensures |m| == b - a && (i < b - a ==> Flatten(m)[i].nonce == a + i)
    decreases b
  {
    hide Flatten;
    if a == b {
      assert m == map[];
    } else {
      assert IsMax(m.Keys, b - 1);
      FlattenTop(m, b - 1);
      FlattenInterval(Without(m, b - 1), a, b - 1, i);
    }
  }

  /** What is ready is listed from the least nonce on, without a gap. */
  lemma ReadyListed(m: Items, start: nat, i: nat)
    requires Keyed(m)
    ensures var e := ReadyEnd(m, start);
            var ready := Flatten(Below(m, e));
            && (e == 0 ==> ready == [])
            && (e > 0 ==> m != map[] && |ready| == e - MinOf(m.Keys) && MinOf(m.Keys) <= start)
            && (e > 0 && i < |ready| ==> ready[i].nonce == MinOf(m.Keys) + i)
  {
    hide Flatten, RunEnd;
    var e := ReadyEnd(m, start);
    ReadyIsMaximalRun(m, start);
    if e == 0 {
      assert Below(m, 0) == map[];
      FlattenNone();
    } else {
      FlattenInterval(Below(m, e), MinOf(m.Keys), e, i);
    }
  }
}
