/**
The nonce-sorted transaction map of an account: the transactions by nonce, a heap of their nonces
and, when it has been computed, the sorted list of them.

Of the standard library's heap only its contract is used: it holds the pushed elements, and the
least of them is at the front.
*/
module TxSortedMap {
  import opened Wrappers
  import opened TxSpec

  ghost predicate Heap(h: seq<nat>) {
    forall k :: 0 <= k < |h| ==> h[0] <= h[k]
  }

  /** Any arrangement of `s` with the least element at the front. */
  method Arrange(s: seq<nat>) returns (h: seq<nat>)
    ensures Heap(h) && multiset(h) == multiset(s)
  {
    h := s;
    var i := 1;
    while i < |h|
      invariant 0 < i && |h| == |s| && multiset(h) == multiset(s)
      invariant forall k :: 0 <= k < i && k < |h| ==> h[0] <= h[k]
    {
      if h[i] < h[0] {
        SwapPermutes(h, i);
        h := h[0 := h[i]][i := h[0]];
      }
      i := i + 1;
    }
  }

  lemma SwapPermutes(h: seq<nat>, i: nat)
    requires 0 < i < |h|
    ensures multiset(h[0 := h[i]][i := h[0]]) == multiset(h)
  {
    var once := h[0 := h[i]];
    assert multiset(once) == multiset(h) - multiset{h[0]} + multiset{h[i]};
    assert multiset(once[i := h[0]]) == multiset(once) - multiset{once[i]} + multiset{h[0]};
  }

  method Push(h: seq<nat>, x: nat) returns (r: seq<nat>)
    requires Heap(h)
    ensures Heap(r) && multiset(r) == multiset(h) + multiset{x}
  {
    r := Arrange(h + [x]);
  }

  method Pop(h: seq<nat>) returns (x: nat, r: seq<nat>)
    requires Heap(h) && h != []
    ensures x == h[0] && Heap(r) && multiset(r) == multiset(h) - multiset{x}
  {
    x := h[0];
    assert h == [x] + h[1..];
    r := Arrange(h[1..]);
  }

  method RemoveAt(h: seq<nat>, i: nat) returns (r: seq<nat>)
    requires Heap(h) && i < |h|
    ensures Heap(r) && multiset(r) == multiset(h) - multiset{h[i]}
  {
    assert h == h[..i] + [h[i]] + h[i + 1..];
    r := Arrange(h[..i] + h[i + 1..]);
  }

  ghost predicate Sorted(s: seq<nat>) {
    forall i, j :: 0 <= i < j < |s| ==> s[i] <= s[j]
  }

  /** The standard library's sort. */
  method Sort(s: seq<nat>) returns (r: seq<nat>)
    ensures Sorted(r) && multiset(r) == multiset(s)
  {
    r := [];
    assert Sorted(r);
    hide Sorted;
    for n := 0 to |s|
      invariant Sorted(r) && multiset(r) == multiset(s[..n])
    {
      var i := 0;
      while i < |r| && r[i] < s[n]
        invariant 0 <= i <= |r| && forall k :: 0 <= k < i ==> r[k] < s[n]
      {
        i := i + 1;
      }
      assert s[..n + 1] == s[..n] + [s[n]];
      SortedInsert(r, i, s[n]);
      InsertedOnce(r, i, s[n]);
      r := r[..i] + [s[n]] + r[i..];
    }
    assert s[..|s|] == s;
  }

  lemma SortedInsert(r: seq<nat>, i: nat, x: nat)
    requires Sorted(r) && i <= |r| && (forall k :: 0 <= k < i ==> r[k] < x) && (i < |r| ==> x <= r[i])
    ensures Sorted(r[..i] + [x] + r[i..])
  {
    var t := r[..i] + [x] + r[i..];
    forall a, b | 0 <= a < b < |t| ensures t[a] <= t[b] {
      assert t[a] == if a < i then r[a] else if a == i then x else r[a - 1];
      assert t[b] == if b < i then r[b] else if b == i then x else r[b - 1];
    }
  }

  lemma InsertedOnce(r: seq<nat>, i: nat, x: nat)
    requires i <= |r|
    ensures multiset(r[..i] + [x] + r[i..]) == multiset(r) + multiset{x}
  {
    assert r == r[..i] + r[i..];
  }

  ghost predicate Indexes(h: seq<nat>, m: Items) {
    multiset(h) == multiset(m.Keys)
  }

  lemma IndexFacts(h: seq<nat>, m: Items)
    requires Indexes(h, m)
    ensures |h| == |m|
    ensures forall n :: n in h <==> n in m
    ensures forall i, j :: 0 <= i < j < |h| ==> h[i] != h[j]
  {
    assert |multiset(h)| == |h| && |multiset(m.Keys)| == |m|;
    forall n ensures n in h <==> n in m {
      assert n in h <==> n in multiset(h);
    }
    forall i, j | 0 <= i < j < |h| ensures h[i] != h[j] {
      if h[i] == h[j] {
        Twice(h, i, j);
      }
    }
  }

  lemma IndexGrows(h: seq<nat>, r: seq<nat>, m: Items, tx: Tx)
    requires Indexes(h, m) && multiset(r) == if tx.nonce in m then multiset(h) else multiset(h) + multiset{tx.nonce}
    ensures Indexes(r, m[tx.nonce := tx])
  {
    assert tx.nonce in m ==> m[tx.nonce := tx].Keys == m.Keys;
    assert tx.nonce !in m ==> m[tx.nonce := tx].Keys == m.Keys + {tx.nonce};
  }

  lemma Twice(h: seq<nat>, i: nat, j: nat)
    requires i < j < |h| && h[i] == h[j]
    ensures multiset(h)[h[i]] >= 2
  {
    assert h == h[..i] + [h[i]] + h[i + 1..j] + [h[j]] + h[j + 1..];
  }

  /** The front of the heap is the least nonce. */
  lemma FrontIsMin(h: seq<nat>, m: Items)
    requires Heap(h) && Indexes(h, m) && h != []
    ensures IsMin(m.Keys, h[0])
  {
    IndexFacts(h, m);
  }

  lemma FlattenMin(m: Items, n: nat)
    requires IsMin(m.Keys, n)
    ensures Flatten(m) == [m[n]] + Flatten(Without(m, n))
  {
    hide Flatten, Below, From, Without;
    FlattenSplit(m, n + 1);
    SplitMin(m, n);
    FlattenOne(n, m[n]);
  }

  lemma SplitMin(m: Items, n: nat)
    requires IsMin(m.Keys, n)
    ensures Below(m, n + 1) == map[n := m[n]] && From(m, n + 1) == Without(m, n)
  {
  }

  lemma FlattenOne(n: nat, tx: Tx)
    ensures Flatten(map[n := tx]) == [tx]
  {
    hide Flatten;
    var one := map[n := tx];
    FlattenTop(one, n);
    FlattenNone();
    assert Without(one, n) == map[];
  }

  lemma {:induction false} RunEndUnique(m: Items, n: nat, e: nat)
    requires n <= e && e !in m && forall k :: n <= k < e ==> k in m
    ensures RunEnd(m, n) == e
    decreases |m|
  {
    if n < e {
      RunEndUnique(Without(m, n), n + 1, e);
    }
  }

  lemma SameSuffix(a: seq<Tx>, b: seq<Tx>, c: seq<Tx>)
    requires a + c == b + c
    ensures a == b
  {
    assert |a| == |b|;
    assert a == (a + c)[..|a|] && b == (b + c)[..|b|];
  }

  function Reversed(s: seq<Tx>): seq<Tx> {
    if s == [] then [] else [s[|s| - 1]] + Reversed(s[..|s| - 1])
  }

  /** The transactions of a list, and those a filter keeps. */
  function Txs(m: Items): set<Tx> {
    set n | n in m :: m[n]
  }

  function Kept(m: Items, drop: Tx -> bool): Items {
    map n | n in m && !drop(m[n]) :: m[n]
  }

  ghost function Dropped(m: Items, drop: Tx -> bool): set<Tx> {
    set n | n in m && drop(m[n]) :: m[n]
  }

  class SortedMap {
    var items: Items
    var index: seq<nat>
    var cache: Option<seq<Tx>>

    ghost predicate Valid()
      reads this
    {
      && Keyed(items) && Heap(index) && Indexes(index, items)
      && (cache.Some? ==> cache.value == Flatten(items))
    }

    constructor ()
      ensures Valid() && items == map[]
    {
      items, index, cache := map[], [], None;
    }

    method Put(tx: Tx)
      requires Valid()
      modifies this
      ensures Valid() && items == old(items)[tx.nonce := tx]
    {
      hide Flatten, Heap, Indexes;
      ghost var before := index;
      if tx.nonce !in items {
        index := Push(index, tx.nonce);
      }
      IndexGrows(before, index, items, tx);
      items := items[tx.nonce := tx];
      cache := None;
    }

    /** Dropping every nonce below the threshold. */
    method Forward(threshold: nat) returns (removed: seq<Tx>)
      requires Valid()
      modifies this
      ensures Valid() && items == From(old(items), threshold)
      ensures removed == Flatten(Below(old(items), threshold))
    {
      hide Flatten, From, Below, Keyed;
      removed := [];
      while index != [] && index[0] < threshold
        modifies `items, `index
        invariant Heap(index) && Indexes(index, items)
        invariant Tail(old(items), items, threshold)
        invariant removed + Flatten(items) == Flatten(old(items))
        decreases |items|
      {
        TakeFront(items, index);
        TailShrinks(old(items), items, threshold, index[0]);
        assert removed + Flatten(items) == (removed + [items[index[0]]]) + Flatten(Without(items, index[0]));
        var nonce;
        nonce, index := Pop(index);
        removed := removed + [items[nonce]];
        items := Without(items, nonce);
      }
      TailEnds(old(items), items, threshold, index, removed);
      if cache.Some? {
        assert cache.value[|removed|..] == Flatten(items);
        cache := Some(cache.value[|removed|..]);
      }
    }

    /** Taking off the maximal consecutive run from the least nonce, if that is at most `start`. */
    method Ready(start: nat) returns (ready: seq<Tx>)
      requires Valid()
      modifies this
      ensures Valid() && items == From(old(items), ReadyEnd(old(items), start))
      ensures ready == Flatten(Below(old(items), ReadyEnd(old(items), start)))
    {
      hide Flatten, From, Below, Keyed, RunEnd;
      ready := [];
      NoneReady(items, index, start);
      if index == [] || index[0] > start {
        return;
      }
      ready := TakeRun();
      cache := None;
    }

    /** The loop that takes off the run of nonces from the front of the heap on. */
    method TakeRun() returns (ready: seq<Tx>)
      requires Keyed(items) && Heap(index) && Indexes(index, items) && index != []
      modifies `items, `index
      ensures Keyed(items) && Heap(index) && Indexes(index, items)
      ensures old(items) != map[] && var end := RunEnd(old(items), MinOf(old(items).Keys));
              items == From(old(items), end) && ready == Flatten(Below(old(items), end))
    {
      hide Flatten, From, Below, Keyed, RunEnd;
      FrontIsMin(index, items);
      ghost var lo := index[0];
      var next := index[0];
      ready := [];
      AllFrom(items, next);
      while index != [] && index[0] == next
        invariant Heap(index) && Indexes(index, items) && lo <= next
        invariant items == From(old(items), next) && forall k :: lo <= k < next ==> k in old(items)
        invariant ready + Flatten(items) == Flatten(old(items))
        decreases |items|
      {
        TakeFront(items, index);
        FromStep(old(items), next);
        assert ready + Flatten(items) == (ready + [items[next]]) + Flatten(Without(items, next));
        ready := ready + [items[next]];
        items := Without(items, next);
        var _, rest := Pop(index);
        index := rest;
        next := next + 1;
      }
      ReadyEnds(old(items), items, index, lo, next, ready);
      assert MinOf(old(items).Keys) == lo;
    }

    /** The number of transactions is limited by dropping those with the highest nonces. */
    method Cap(threshold: nat) returns (drops: seq<Tx>)
      requires Valid()
      modifies this
      ensures Valid() && items == Lowest(old(items), threshold)
      ensures Flatten(items) + Reversed(drops) == Flatten(old(items))
    {
      hide Flatten, Keyed, Lowest, Reversed, Sorted;
      drops := [];
      CapNone(items, threshold);
      if |items| <= threshold {
        return;
      }
      IndexFacts(index, items);
      index := Sort(index);
      drops := DropTop(threshold);
      index := Arrange(index[..threshold]);
      LowestIs(old(items), threshold);
      LowestKeyed(old(items), items);
      if cache.Some? {
        CacheBack(cache.value, items, drops, old(items));
        cache := Some(cache.value[..|cache.value| - |drops|]);
      }
    }

    /** The loop that drops the highest nonces off the sorted index. */
    method DropTop(threshold: nat) returns (drops: seq<Tx>)
      requires Sorted(index) && Indexes(index, items) && |items| > threshold
      modifies `items
      ensures items == Lowest(old(items), threshold) && threshold <= |index| && Indexes(index[..threshold], items)
      ensures Flatten(items) + Reversed(drops) == Flatten(old(items))
    {
      hide Flatten, Lowest, Reversed, Sorted, Indexes;
      IndexFacts(index, items);
      assert index[..|index|] == index;
      CapNone(items, threshold);
      drops := [];
      var size := |items|;
      while size > threshold
        invariant threshold <= size == |items| <= |index| && Indexes(index[..size], items)
        invariant Lowest(items, threshold) == Lowest(old(items), threshold)
        invariant Flatten(items) + Reversed(drops) == Flatten(old(items))
      {
        var top := index[size - 1];
        CapStep(items, index, size, threshold, drops);
        drops := drops + [items[top]];
        items := Without(items, top);
        size := size - 1;
      }
      CapNone(items, threshold);
    }

    method Remove(nonce: nat) returns (found: bool)
      requires Valid()
      modifies this
      ensures Valid() && found == (nonce in old(items)) && items == old(items) - {nonce}
    {
      hide Flatten, Heap, Keyed, Indexes;
      found := nonce in items;
      RemoveLeaves(items, index, nonce);
      if !found {
        return;
      }
      var i := Find(index, nonce);
      index := RemoveAt(index, i);
      items := items - {nonce};
      cache := None;
    }

    /** Dropping, in any order, every transaction that a condition holds of. */
    method Filter(drop: Tx -> bool) returns (removed: seq<Tx>)
      requires Valid()
      modifies this
      ensures Valid() && items == Kept(old(items), drop)
      ensures multiset(removed) == multiset(Dropped(old(items), drop))
    {
      hide Flatten, Kept, Dropped, Heap, Keyed, Indexes;
      removed := DropAll(drop);
      if removed != [] {
        index := Rebuilt(items);
        cache := None;
      }
    }

    method DropAll(drop: Tx -> bool) returns (removed: seq<Tx>)
      requires Keyed(items)
      modifies `items
      ensures Keyed(items) && items == Kept(old(items), drop)
      ensures multiset(removed) == multiset(Dropped(old(items), drop))
      ensures removed == [] ==> items == old(items)
    {
      hide KeptOf, DroppedOf, Kept, Dropped, Keyed;
      removed := [];
      var todo := items.Keys;
      FilterBegins(items, drop);
      while todo != {}
        invariant todo <= old(items).Keys && items == KeptOf(old(items), todo, drop)
        invariant multiset(removed) == multiset(DroppedOf(old(items), todo, drop))
        decreases |todo|
      {
        var nonce :| nonce in todo;
        FilterStep(old(items), todo, nonce, drop);
        var tx := items[nonce];
        todo := todo - {nonce};
        if drop(tx) {
          removed := removed + [tx];
          items := items - {nonce};
        }
      }
      FilterEnds(old(items), removed, drop);
    }

    /** The sorted list, computed once and kept until the next change. */
    method FlattenSorted() returns (txs: seq<Tx>)
      requires Valid()
      modifies `cache
      ensures Valid() && txs == Flatten(items)
    {
      if cache == None {
        var ns := NoncesOf(items);
        ns := Sort(ns);
        SortedPick(items, ns);
        cache := Some(Pick(items, ns));
      }
      txs := cache.value;
    }
  }

  method Find(h: seq<nat>, x: nat) returns (i: nat)
    requires x in h
    ensures i < |h| && h[i] == x
  {
    i := 0;
    while h[i] != x
      invariant i < |h| && forall k :: 0 <= k < i ==> h[k] != x
      decreases |h| - i
    {
      i := i + 1;
    }
  }

  lemma RemoveLeaves(m: Items, h: seq<nat>, n: nat)
    requires Keyed(m) && Indexes(h, m)
    ensures n !in m ==> m - {n} == m
    ensures n in m ==> n in h && forall r: seq<nat> :: multiset(r) == multiset(h) - multiset{n} ==> Indexes(r, m - {n})
    ensures Keyed(m - {n})
  {
    IndexFacts(h, m);
    assert (m - {n}).Keys == m.Keys - {n};
  }

  /** The nonces of a list in any order. */
  method NoncesOf(m: Items) returns (ns: seq<nat>)
    ensures Indexes(ns, m)
  {
    ns := [];
    var todo := m.Keys;
    while todo != {}
      invariant todo <= m.Keys && multiset(ns) == multiset(m.Keys - todo)
      decreases |todo|
    {
      var n :| n in todo;
      ns := ns + [n];
      assert m.Keys - (todo - {n}) == (m.Keys - todo) + {n};
      todo := todo - {n};
    }
    assert m.Keys - {} == m.Keys;
  }

  method Rebuilt(m: Items) returns (h: seq<nat>)
    ensures Heap(h) && Indexes(h, m)
  {
    var ns := NoncesOf(m);
    h := Arrange(ns);
  }

  function Pick(m: Items, ns: seq<nat>): (s: seq<Tx>)
    requires forall n :: n in ns ==> n in m
    ensures |s| == |ns| && forall i :: 0 <= i < |ns| ==> s[i] == m[ns[i]]
  {
    if ns == [] then [] else [m[ns[0]]] + Pick(m, ns[1..])
  }

  lemma SortedPick(m: Items, ns: seq<nat>)
    requires Keyed(m) && Sorted(ns) && Indexes(ns, m)
    ensures (forall n :: n in ns ==> n in m) && Pick(m, ns) == Flatten(m)
  {
    hide Flatten, Pick;
    IndexFacts(ns, m);
    var s := Pick(m, ns);
    forall i | 0 <= i < |s| ensures s[i].nonce in m && m[s[i].nonce] == s[i] {
      assert ns[i] in ns;
    }
    forall i, j | 0 <= i < j < |s| ensures s[i].nonce < s[j].nonce {
      assert ns[i] in ns && ns[j] in ns && ns[i] <= ns[j];
    }
    ListingUnique(s, m);
  }

  // ----- filtering, one nonce at a time -----

  function KeptOf(m: Items, todo: set<nat>, drop: Tx -> bool): Items {
    map n | n in m && (n in todo || !drop(m[n])) :: m[n]
  }

  ghost function DroppedOf(m: Items, todo: set<nat>, drop: Tx -> bool): set<Tx> {
    set n | n in m && n !in todo && drop(m[n]) :: m[n]
  }

  lemma FilterBegins(m: Items, drop: Tx -> bool)
    ensures KeptOf(m, m.Keys, drop) == m && DroppedOf(m, m.Keys, drop) == {}
  {
  }

  lemma FilterStep(m: Items, todo: set<nat>, n: nat, drop: Tx -> bool)
    requires Keyed(m) && n in todo && todo <= m.Keys
    ensures n in KeptOf(m, todo, drop) && KeptOf(m, todo, drop)[n] == m[n]
    ensures KeptOf(m, todo - {n}, drop) == if drop(m[n]) then KeptOf(m, todo, drop) - {n} else KeptOf(m, todo, drop)
    ensures DroppedOf(m, todo - {n}, drop) == DroppedOf(m, todo, drop) + if drop(m[n]) then {m[n]} else {}
    ensures m[n] !in DroppedOf(m, todo, drop)
  {
    assert n in KeptOf(m, todo, drop);
    var rest := todo - {n};
    forall tx
      ensures tx in DroppedOf(m, rest, drop) <==> tx in DroppedOf(m, todo, drop) + if drop(m[n]) then {m[n]} else {}
    {
      if drop(m[n]) {
        assert n in m && n !in rest;
      }
    }
  }

  lemma FilterEnds(m: Items, removed: seq<Tx>, drop: Tx -> bool)
    requires Keyed(m) && multiset(removed) == multiset(DroppedOf(m, {}, drop))
    ensures KeptOf(m, {}, drop) == Kept(m, drop) && DroppedOf(m, {}, drop) == Dropped(m, drop)
    ensures removed == [] ==> Kept(m, drop) == m
    ensures Keyed(Kept(m, drop))
  {
    assert removed == [] ==> |multiset(removed)| == 0;
    forall n | n in m && drop(m[n]) ensures m[n] in DroppedOf(m, {}, drop) {
    }
  }

  lemma CapNone(m: Items, threshold: nat)
    ensures Flatten(m) + Reversed([]) == Flatten(m)
    ensures |m| <= threshold ==> Lowest(m, threshold) == m
  {
  }

  lemma LowestKeyed(m: Items, r: Items)
    requires Keyed(m) && forall k :: k in r ==> k in m && r[k] == m[k]
    ensures Keyed(r)
  {
  }

  lemma CacheBack(cache: seq<Tx>, r: Items, drops: seq<Tx>, m: Items)
    requires cache == Flatten(m) == Flatten(r) + Reversed(drops)
    ensures |drops| <= |cache| && cache[..|cache| - |drops|] == Flatten(r)
  {
    ReversedLength(drops);
  }

  lemma ReversedLength(s: seq<Tx>)
    ensures |Reversed(s)| == |s|
  {
  }

  /** One round of dropping the highest nonce off the sorted index. */
  lemma CapStep(m: Items, h: seq<nat>, size: nat, threshold: nat, drops: seq<Tx>)
    requires threshold < size == |m| <= |h| && Sorted(h) && Indexes(h[..size], m)
    ensures h[size - 1] in m && var top := h[size - 1];
            && Lowest(m, threshold) == Lowest(Without(m, top), threshold)
            && Flatten(m) + Reversed(drops) == Flatten(Without(m, top)) + Reversed(drops + [m[top]])
            && Indexes(h[..size - 1], Without(m, top))
  {
    hide Flatten, Lowest, Reversed, Indexes;
    var top := h[size - 1];
    LastIsMax(h[..size], m);
    assert h[..size][..size - 1] == h[..size - 1];
    LowestTop(m, threshold, top);
    FlattenTop(m, top);
    ReversedGrows(drops, m[top]);
    assert Flatten(m) + Reversed(drops) == Flatten(Without(m, top)) + Reversed(drops + [m[top]]);
  }

  lemma LastIsMax(g: seq<nat>, m: Items)
    requires g != [] && Sorted(g) && Indexes(g, m)
    ensures IsMax(m.Keys, g[|g| - 1])
    ensures Indexes(g[..|g| - 1], Without(m, g[|g| - 1]))
  {
    var last := |g| - 1;
    IndexFacts(g, m);
    assert g[last] in g;
    forall n | n in m ensures n <= g[last] {
      var i :| 0 <= i < |g| && g[i] == n;
      assert i == last || g[i] <= g[last];
    }
    DropLast(g);
    assert Without(m, g[last]).Keys == m.Keys - {g[last]};
  }

  lemma DropLast(g: seq<nat>)
    requires g != []
    ensures multiset(g[..|g| - 1]) == multiset(g) - multiset{g[|g| - 1]}
  {
    assert g == g[..|g| - 1] + [g[|g| - 1]];
  }

  lemma NoneReady(m: Items, h: seq<nat>, start: nat)
    requires Heap(h) && Indexes(h, m)
    ensures h == [] || h[0] > start ==> ReadyEnd(m, start) == 0 && From(m, 0) == m && Flatten(Below(m, 0)) == []
    ensures h != [] && h[0] <= start ==> m != map[] && ReadyEnd(m, start) == RunEnd(m, MinOf(m.Keys))
  {
    IndexFacts(h, m);
    if h != [] {
      FrontIsMin(h, m);
    }
    AllFrom(m, 0);
  }

  lemma AllFrom(m: Items, t: nat)
    requires forall n :: n in m ==> t <= n
    ensures From(m, t) == m && Below(m, t) == map[]
  {
  }

  lemma FromStep(m: Items, n: nat)
    requires n in From(m, n)
    ensures n in m && Without(From(m, n), n) == From(m, n + 1)
    ensures From(m, n)[n] == m[n]
  {
  }

  lemma ReadyEnds(m: Items, r: Items, h: seq<nat>, lo: nat, next: nat, ready: seq<Tx>)
    requires Heap(h) && Indexes(h, r) && (h == [] || h[0] != next) && IsMin(m.Keys, lo) && lo <= next
    requires r == From(m, next) && forall k :: lo <= k < next ==> k in m
    requires ready + Flatten(r) == Flatten(m)
    ensures RunEnd(m, lo) == next && ready == Flatten(Below(m, next))
    ensures Keyed(m) ==> Keyed(r)
  {
    hide Flatten, RunEnd;
    IndexFacts(h, r);
    assert next in m ==> next in h;
    assert h != [] ==> h[0] in h;
    RunEndUnique(m, lo, next);
    FlattenSplit(m, next);
    SameSuffix(ready, Flatten(Below(m, next)), Flatten(r));
  }

  lemma LowestTop(m: Items, n: nat, top: nat)
    requires |m| > n && IsMax(m.Keys, top)
    ensures Lowest(m, n) == Lowest(Without(m, top), n)
  {
    assert MaxOf(m.Keys) == top;
  }

  lemma ReversedGrows(s: seq<Tx>, tx: Tx)
    ensures Reversed(s + [tx]) == [tx] + Reversed(s)
  {
    assert (s + [tx])[..|s|] == s;
  }

  /** Some of the nonces below the threshold have been taken off, and nothing else. */
  ghost predicate Tail(m: Items, r: Items, threshold: nat) {
    && (forall n :: n in r ==> n in m && r[n] == m[n])
    && (forall n :: n in m && n >= threshold ==> n in r)
  }

  lemma TailShrinks(m: Items, r: Items, threshold: nat, n: nat)
    requires Tail(m, r, threshold) && n in r && n < threshold
    ensures Tail(m, Without(r, n), threshold)
  {
  }

  lemma TailEnds(m: Items, r: Items, threshold: nat, h: seq<nat>, removed: seq<Tx>)
    requires Tail(m, r, threshold) && Heap(h) && Indexes(h, r) && (h == [] || h[0] >= threshold)
    requires removed + Flatten(r) == Flatten(m)
    ensures r == From(m, threshold) && removed == Flatten(Below(m, threshold))
    ensures Keyed(m) ==> Keyed(r)
  {
    hide Flatten;
    IndexFacts(h, r);
    assert r == From(m, threshold);
    FlattenSplit(m, threshold);
    SameSuffix(removed, Flatten(Below(m, threshold)), Flatten(r));
  }

  /** Taking the least nonce off both the heap and the map keeps them together. */
  lemma TakeFront(m: Items, h: seq<nat>)
    requires Heap(h) && Indexes(h, m) && h != []
    ensures h[0] in m && IsMin(m.Keys, h[0])
    ensures multiset(h) - multiset{h[0]} == multiset(Without(m, h[0]).Keys)
    ensures Flatten(m) == [m[h[0]]] + Flatten(Without(m, h[0]))
  {
    FrontIsMin(h, m);
    FlattenMin(m, h[0]);
    assert Without(m, h[0]).Keys == m.Keys - {h[0]};
  }
}
