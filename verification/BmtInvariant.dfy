/**
What every interleaving of the climbing goroutines keeps.

A `Job` is the hashing of one chunk as seen from outside: the bytes written so far, the number of
leaves handed to goroutines, and whether the last segment has been handed over too. `arrived`
is the set of positions whose value has been stored in their parent.
*/
module BmtInvariant {
  import opened BmtSpec
  import opened BmtMachine

  /** The first byte of position `k` of height `h`. */
  function Offset(size: nat, h: nat, k: nat): nat {
    if k == 0 then 0 else Offset(size, h, k - 1) + Width(size, h)
  }

  lemma {:induction false} OffsetDouble(size: nat, h: nat, k: nat)
    ensures Offset(size, h, 2 * k) == Offset(size, h + 1, k)
  {
    if k > 0 {
      OffsetDouble(size, h, k - 1);
      assert Offset(size, h, 2 * k) == Offset(size, h, 2 * k - 1) + Width(size, h);
    }
  }

  lemma {:induction false} OffsetOrder(size: nat, h: nat, a: nat, b: nat)
    requires a < b
    ensures Offset(size, h, a) + Width(size, h) <= Offset(size, h, b)
  {
    if a < b - 1 {
      OffsetOrder(size, h, a, b - 1);
    }
  }

  lemma {:induction false} OffsetWidth(size: nat, h: nat, n: nat)
    ensures Offset(size, h, Width(1, n)) == Width(size, h + n)
    decreases n
  {
    if n == 0 {
      assert Offset(size, h, 1) == Offset(size, h, 0) + Width(size, h);
    } else {
      OffsetDouble(size, h, Width(1, n - 1));
      OffsetWidth(size, h + 1, n - 1);
    }
  }

  lemma {:induction false} OffsetLeaf(size: nat, k: nat)
    ensures Offset(size, 1, k) == 2 * size * k
  {
    assert Width(size, 1) == 2 * Width(size, 0);
    if k > 0 {
      OffsetLeaf(size, k - 1);
      assert 2 * size * k == 2 * size * (k - 1) + 2 * size;
    }
  }

  datatype Job = Job(H: Hash, size: nat, top: nat, data: Bytes, full: nat, fin: bool, base: map<Pos, int>) {

    function Lo(c: Pos): nat {
      Offset(size, c.height, c.index)
    }

    function Hi(c: Pos): nat {
      Lo(c) + Width(size, c.height)
    }

    function Cut(x: nat): nat {
      if x <= |data| then x else |data|
    }

    /** The written bytes under a position, and the value it passes to its parent. */
    function Block(c: Pos): Bytes {
      data[Cut(Lo(c))..Cut(Hi(c))]
    }

    function Val(c: Pos): Bytes {
      Value(H, size, c.height, Block(c))
    }

    ghost predicate Valid() {
      && size > 0 && top > 0
      && full < Width(1, top - 1)
      && Lo(Pos(1, full)) <= |data|
      && (fin ==> 0 < full && Lo(Pos(1, full)) < |data| <= Hi(Pos(1, full)))
      && (forall p :: InTree(top, p) ==> p in base && base[p] % 2 == 0 && 0 <= base[p] < MAX_INT32)
    }

    /** The position has, or will get, a value of its own to pass up. */
    ghost predicate Ready(c: Pos) {
      && (c.height == 0 ==> !Twofold(Parent(c)))
      && if fin then Lo(c) < |data| && Width(size, c.height) < |data| else Hi(c) <= Lo(Pos(1, full))
    }

    /** The node waits for two values rather than one. */
    ghost predicate Twofold(p: Pos) {
      !fin || Lo(Child(p, false)) < |data|
    }

    ghost predicate IsRoot(p: Pos) {
      fin && p.height > 1 && p.index == 0 && Width(size, p.height - 1) < |data| <= Width(size, p.height)
    }

    /** The node lies on the path of the last segment, at or below the root of the chunk. */
    ghost predicate OnPath(p: Pos) {
      fin && p.height > 0 && Lo(p) < |data| <= Hi(p) && Width(size, p.height - 1) < |data|
    }

    /** Everything the node waits for has arrived. */
    ghost predicate Fed(arrived: set<Pos>, p: Pos) {
      if p.height == 1 && Twofold(p) then Ready(p)
      else Child(p, true) in arrived && (Twofold(p) ==> Child(p, false) in arrived)
    }

    ghost function Arrivals(arrived: set<Pos>, p: Pos): nat {
      if !Twofold(p) then 0
      else (if Child(p, true) in arrived then 1 else 0) + (if Child(p, false) in arrived then 1 else 0)
    }

    // ----- the invariant, clause by clause -----

    ghost predicate GoodGoroutine(m: Machine, arrived: set<Pos>, g: Goroutine) {
      && Dest(g) in m.nodes && Dest(g).height > 0
      && Ready(Edge(g)) && Edge(g) !in arrived
      && match g
         case Hashing(leaf, d, s) =>
           s == Block(Pos(1, leaf)) && size < |s| <= 2 * size && leaf + d > 0 && 1 < top
         case Climbing(node, isLeft, i, d, s) =>
           s == Val(Edge(g)) && i + d > 0
    }

    ghost predicate GoodRunning(m: Machine, arrived: set<Pos>) {
      && (forall id {:trigger GoodGoroutine(m, arrived, m.running[id])} ::
            id in m.running ==> GoodGoroutine(m, arrived, m.running[id]))
      && (forall id :: id in m.running ==> id < full || (fin && id == full))
      && DistinctEdges(m)
    }

    ghost predicate GoodArrival(m: Machine, c: Pos) {
      && Parent(c) in m.nodes && Ready(c)
      && (if IsLeft(c) then m.nodes[Parent(c)].left else m.nodes[Parent(c)].right) == Val(c)
    }

    ghost predicate GoodNode(m: Machine, arrived: set<Pos>, p: Pos)
      requires p in m.nodes && p in base
    {
      var n := m.nodes[p];
      && n.unbalanced == (OnPath(p) && !Twofold(p))
      && n.root == (p.height == top || IsRoot(p))
      && (n.unbalanced ==> n.right == [])
      && n.state == Bumped(base[p], Arrivals(arrived, p))
    }

    /** A node has passed its value on exactly when everything it waits for has arrived. */
    ghost predicate Flows(m: Machine, arrived: set<Pos>, p: Pos) {
      Fed(arrived, p) <==> p in arrived || InFlight(m, p)
    }

    ghost predicate GoodFlow(m: Machine, arrived: set<Pos>) {
      && (forall p {:trigger Flows(m, arrived, p)} :: p in m.nodes && !IsRoot(p) ==> Flows(m, arrived, p))
      && (fin && !Twofold(Pos(1, full)) ==>
            Child(Pos(1, full), true) in arrived || InFlight(m, Child(Pos(1, full), true)))
    }

    ghost predicate GoodResult(m: Machine, arrived: set<Pos>) {
      && (m.result.Some? ==> exists r :: IsRoot(r) && Fed(arrived, r) && m.result.value == Val(r))
      && (forall r {:trigger IsRoot(r)} :: IsRoot(r) && Fed(arrived, r) ==> m.result.Some?)
    }

    ghost predicate Inv(m: Machine, arrived: set<Pos>) {
      && Valid()
      && Complete(top, m.nodes)
      && GoodRunning(m, arrived)
      && (forall c {:trigger GoodArrival(m, c)} :: c in arrived ==> GoodArrival(m, c))
      && (forall p {:trigger GoodNode(m, arrived, p)} :: p in m.nodes ==> GoodNode(m, arrived, p))
      && GoodFlow(m, arrived)
      && GoodResult(m, arrived)
    }
  }

  /** Some goroutine carries the value of `p`. */
  ghost predicate InFlight(m: Machine, p: Pos) {
    exists id :: id in m.running && Edge(m.running[id]) == p
  }

  /** No two goroutines carry the same value. */
  ghost predicate DistinctEdges(m: Machine) {
    forall i, k :: i in m.running && k in m.running && i != k ==> Edge(m.running[i]) != Edge(m.running[k])
  }

  /** A counter after `n` increments. */
  function Bumped(state: int, n: nat): int {
    if n == 0 then state else Bump(Bumped(state, n - 1))
  }
}
