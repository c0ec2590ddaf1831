/** The result of a closed job, and the tree it leaves behind. */
module BmtResult {
  import opened Wrappers
  import opened BmtSpec
  import opened BmtMachine
  import opened BmtInvariant
  import opened BmtSteps
  import opened BmtPhases

  lemma {:induction false} RootBelow(j: Job, h: nat) returns (r: Pos)
    requires j.Valid() && j.fin && 1 <= h <= j.top && |j.data| <= Width(j.size, h)
    ensures j.IsRoot(r) && InTree(j.top, r)
  {
    Fits(j);
    assert Width(j.size, 1) == 2 * Width(j.size, 0);
    if |j.data| <= Width(j.size, h - 1) {
      r := RootBelow(j, h - 1);
    } else {
      r := Pos(h, 0);
    }
  }

  lemma Root(j: Job) returns (r: Pos)
    requires j.Valid() && j.fin
    ensures j.IsRoot(r) && InTree(j.top, r)
  {
    Fits(j);
    r := RootBelow(j, j.top);
  }

  lemma ReadyChildren(j: Job, p: Pos)
    requires j.size > 0 && j.fin && p.height > 1 && j.Lo(p) < |j.data| && Width(j.size, p.height - 1) < |j.data|
    ensures j.Ready(Child(p, true))
    ensures j.Twofold(p) ==> j.Ready(Child(p, false))
  {
    Halves(j, p);
  }

  lemma ChildrenInTree(top: nat, p: Pos)
    requires InTree(top, p) && p.height > 1
    ensures InTree(top, Child(p, true)) && InTree(top, Child(p, false))
  {
  }

  /** The only leaf that waits for one value is the last one. */
  lemma ShortLeaf(j: Job, c: Pos)
    requires j.Valid() && j.fin && c.height == 1 && j.Ready(c) && !j.Twofold(c)
    ensures c == Pos(1, j.full)
  {
    StartOnPath(j);
    Halves(j, c);
    Fits(j);
    PathUnique(j, c, Pos(1, j.full));
  }

  /** Once no goroutine is left, every value below the root has arrived. */
  lemma {:induction false} ArrivesUp(j: Job, m: Machine, arrived: set<Pos>, c: Pos)
    requires j.Inv(m, arrived) && j.fin && m.running == map[]
    requires c in m.nodes && j.Ready(c)
    ensures c in arrived
    decreases c.height
  {
    hide Value, Offset, Width, Job.Val;
    assert j.Flows(m, arrived, c);
    if c.height == 1 {
      if !j.Twofold(c) {
        ShortLeaf(j, c);
      }
    } else {
      assert Width(j.size, c.height - 1) < |j.data| by { WidthMonotonic(j.size, c.height - 1, c.height); }
      ReadyChildren(j, c);
      ChildrenInTree(j.top, c);
      ArrivesUp(j, m, arrived, Child(c, true));
      if j.Twofold(c) {
        ArrivesUp(j, m, arrived, Child(c, false));
      }
    }
  }

  /** No interleaving gets stuck: when the last goroutine has ended there is a result. */
  lemma Progress(j: Job, m: Machine, arrived: set<Pos>)
    requires j.Inv(m, arrived) && j.fin && m.running == map[]
    ensures m.result.Some?
  {
    var r := Root(j);
    assert j.Lo(r) == 0;
    ReadyChildren(j, r);
    ChildrenInTree(j.top, r);
    ArrivesUp(j, m, arrived, Child(r, true));
    if j.Twofold(r) {
      ArrivesUp(j, m, arrived, Child(r, false));
    }
  }

  /** A node strictly inside the chunk is the root or has a value to pass on itself. */
  lemma ParentReady(j: Job, c: Pos)
    requires j.Valid() && j.fin && j.Ready(c)
    ensures var p := Parent(c);
            && j.Lo(p) < |j.data| && Width(j.size, p.height - 1) < |j.data|
            && (j.IsRoot(p) || j.Ready(p))
            && (!IsLeft(c) ==> j.Twofold(p))
  {
    var p := Parent(c);
    Halves(j, p);
    assert c == Child(p, IsLeft(c));
    Fits(j);
    assert Width(j.size, 1) == 2 * Width(j.size, 0);
    if p.index > 0 {
      OffsetOrder(j.size, p.height, 0, p.index);
    }
  }

  /** Once there is a result, every value below the root has arrived. */
  lemma {:induction false} ArrivesDown(j: Job, m: Machine, arrived: set<Pos>, r: Pos, c: Pos)
    requires j.Inv(m, arrived) && j.fin && j.IsRoot(r) && r in m.nodes && j.Fed(arrived, r)
    requires Parent(c) in m.nodes && j.Ready(c)
    ensures c in arrived
    decreases j.top - c.height
  {
    hide Value, Offset, Width, Job.Val, Job.Lo, Job.Hi, Job.GoodRunning, Job.GoodResult, Job.GoodNode;
    var p := Parent(c);
    ParentReady(j, c);
    assert c == Child(p, IsLeft(c));
    if j.IsRoot(p) {
      RootUnique(j, p, r);
    } else {
      InTopTree(j, p);
      ArrivesDown(j, m, arrived, r, p);
      assert j.Flows(m, arrived, p);
    }
    assert j.Fed(arrived, p);
    assert p.height == 1 ==> !j.Twofold(p);
  }

  lemma RootUnique(j: Job, p: Pos, r: Pos)
    requires j.IsRoot(p) && j.IsRoot(r)
    ensures p == r
  {
    if p.height < r.height {
      WidthMonotonic(j.size, p.height, r.height - 1);
    } else if r.height < p.height {
      WidthMonotonic(j.size, r.height, p.height - 1);
    }
  }

  lemma InTopTree(j: Job, p: Pos)
    requires j.Valid() && j.fin && InTree(j.top, p) && j.Ready(p)
    ensures InTree(j.top, Parent(p))
  {
    Fits(j);
    InTreeUp(j.top, p);
  }

  /** A counter is bumped by both children of a node or by neither. */
  lemma EvenArrivals(j: Job, m: Machine, arrived: set<Pos>, r: Pos, p: Pos)
    requires j.Inv(m, arrived) && j.fin && j.IsRoot(r) && r in m.nodes && j.Fed(arrived, r) && p in m.nodes
    ensures j.Arrivals(arrived, p) == 0 || j.Arrivals(arrived, p) == 2
  {
    hide Value, Offset, Width, Job.Val, Job.GoodRunning, Job.GoodResult, Job.GoodNode, Job.GoodFlow;
    var a, b := Child(p, true), Child(p, false);
    assert Parent(a) == p && Parent(b) == p;
    assert a in arrived ==> j.GoodArrival(m, a);
    assert b in arrived ==> j.GoodArrival(m, b);
    Halves(j, p);
    if j.Twofold(p) && p.height > 1 {
      if a in arrived {
        ArrivesDown(j, m, arrived, r, b);
      } else if b in arrived {
        ArrivesDown(j, m, arrived, r, a);
      }
    }
  }

  /** A result means that all is over: it is the value of the whole chunk and nobody is running. */
  lemma Done(j: Job, m: Machine, arrived: set<Pos>, span: nat)
    requires j.Inv(m, arrived) && j.fin && m.result.Some?
    requires IsSpan(j.size, span) && |j.data| <= 2 * span
    ensures m.running == map[]
    ensures m.result.value == RefHash(j.H, j.size, j.data, span)
    ensures forall p :: p in m.nodes ==> m.nodes[p].state == j.base[p] || m.nodes[p].state == Bumped(j.base[p], 2)
  {
    hide Offset, Width, Job.Val, Job.GoodNode, Job.GoodFlow, RefHash;
    var r :| j.IsRoot(r) && j.Fed(arrived, r) && m.result.value == j.Val(r);
    var r' := Root(j);
    RootUnique(j, r, r');
    RootValue(j, r, span);
    forall id | id in m.running ensures false {
      assert j.GoodGoroutine(m, arrived, m.running[id]);
      var c := Edge(m.running[id]);
      if m.running[id].Hashing? {
        InTopTree(j, c);
      } else {
        assert Parent(c) == m.running[id].node;
      }
      ArrivesDown(j, m, arrived, r, c);
    }
    forall p | p in m.nodes ensures m.nodes[p].state == j.base[p] || m.nodes[p].state == Bumped(j.base[p], 2) {
      EvenArrivals(j, m, arrived, r, p);
      StateOf(j, m, arrived, p);
    }
  }

  lemma StateOf(j: Job, m: Machine, arrived: set<Pos>, p: Pos)
    requires j.Inv(m, arrived) && p in m.nodes
    ensures m.nodes[p].state == Bumped(j.base[p], j.Arrivals(arrived, p))
    ensures !j.OnPath(p) ==> !m.nodes[p].unbalanced
    ensures m.nodes[p].root ==> p.height == j.top || j.IsRoot(p)
    ensures p.height == j.top ==> m.nodes[p].root
  {
    assert j.GoodNode(m, arrived, p);
  }

  lemma RootValue(j: Job, r: Pos, span: nat)
    requires j.Valid() && j.IsRoot(r) && IsSpan(j.size, span) && |j.data| <= 2 * span
    ensures j.Val(r) == RefHash(j.H, j.size, j.data, span)
  {
    assert j.Lo(r) == 0;
    assert j.Block(r) == j.data;
    Fits(j);
    RefHashIsValue(j.H, j.size, j.data, span, r.height);
  }

  // ----- giving the tree back -----

  /** `q` lies on the way from `p` to the root of the whole tree. */
  predicate Above(p: Pos, q: Pos)
    decreases q.height - p.height
  {
    q == p || (p.height < q.height && Above(Parent(p), q))
  }

  lemma {:induction false} Released(top: nat, nodes: Nodes, p: Pos, q: Pos)
    requires Complete(top, nodes) && p in nodes && q in nodes
    ensures var r := Release(top, nodes, p)[q];
            && r.state == nodes[q].state
            && r.unbalanced == (nodes[q].unbalanced && !Above(p, q))
            && r.root == (nodes[q].root && (!Above(p, q) || q.height == top))
    decreases top - p.height
  {
    var n := nodes[p].(unbalanced := false);
    if p.height < top {
      InTreeUp(top, p);
      Released(top, nodes[p := n.(root := false)], Parent(p), q);
    }
  }

  lemma {:induction false} PathAbove(j: Job, p: Pos, q: Pos)
    requires j.Valid() && j.OnPath(p) && j.OnPath(q) && p.height <= q.height
    ensures Above(p, q)
    decreases p.index
  {
    if p.height == q.height {
      PathUnique(j, p, q);
    } else if p.index == 0 {
      PathEnds(j, p, q);
    } else {
      PathUp(j, p);
      PathAbove(j, Parent(p), q);
    }
  }

  /** The tree given back: no marks, and counters even. */
  lemma RestAgain(j: Job, m: Machine, arrived: set<Pos>)
    requires j.Inv(m, arrived) && j.fin && m.result.Some?
    ensures Pos(1, j.full) in m.nodes
    ensures forall p :: p in m.nodes ==>
              var n := Release(j.top, m.nodes, Pos(1, j.full))[p];
              && !n.unbalanced && n.root == (p.height == j.top)
              && n.state == m.nodes[p].state
  {
    hide Value, Offset, Width, Job.Val, Job.GoodNode, Job.GoodFlow;
    hide Job.GoodResult, Job.GoodRunning, Job.OnPath, Release;
    StartOnPath(j);
    Fits(j);
    forall p | p in m.nodes
      ensures var n := Release(j.top, m.nodes, Pos(1, j.full))[p];
              && !n.unbalanced && n.root == (p.height == j.top) && n.state == m.nodes[p].state
    {
      Released(j.top, m.nodes, Pos(1, j.full), p);
      StateOf(j, m, arrived, p);
      RootOnPath(j, p);
      if j.OnPath(p) {
        PathAbove(j, Pos(1, j.full), p);
      }
    }
  }

  /** A chunk that never filled its first leaf is hashed by a single goroutine in one step. */
  lemma SmallChunk(H: Hash, size: nat, top: nat, nodes: Nodes, segment: Bytes, span: nat)
    requires size > 0 && top > 0 && Clean(top, nodes) && |segment| <= 2 * size && IsSpan(size, span)
    ensures InTree(top, Pos(1, 0))
    ensures var m := Closed(size, top, Machine(nodes, map[], None), 0, segment);
            && m.running.Keys == {0} && Dest(m.running[0]) in m.nodes
            && var m' := Advance(H, m, 0);
            && m'.running == map[] && m'.nodes.Keys == nodes.Keys
            && m'.result == Some(RefHash(H, size, segment, span))
            && Clean(top, Release(top, m'.nodes, Pos(1, 0)))
            && forall p :: p in nodes ==> Release(top, m'.nodes, Pos(1, 0))[p].state == nodes[p].state
  {
    var leaf := Pos(1, 0);
    assert Width(1, top - 1) > 0;
    var m := Closed(size, top, Machine(nodes, map[], None), 0, segment);
    assert m.nodes == nodes[leaf := nodes[leaf].(unbalanced := true, right := [], root := true)];
    var m' := Advance(H, m, 0);
    assert segment + [] == segment;
    assert m'.running == map[];
    forall p | p in nodes
      ensures var n := Release(top, m'.nodes, leaf)[p];
              !n.unbalanced && n.root == (p.height == top) && n.state == nodes[p].state
    {
      Released(top, m'.nodes, leaf, p);
    }
  }
}
