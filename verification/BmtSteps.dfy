/** Every transition of the tree hasher keeps the invariant of its job. */
module BmtSteps {
  import opened Wrappers
  import opened BmtSpec
  import opened BmtMachine
  import opened BmtInvariant

  lemma Halves(j: Job, p: Pos)
    requires p.height > 0
    ensures j.Lo(Child(p, true)) == j.Lo(p)
    ensures j.Lo(Child(p, false)) == j.Hi(Child(p, true))
    ensures j.Hi(Child(p, false)) == j.Hi(p)
  {
    OffsetDouble(j.size, p.height - 1, p.index);
    assert Offset(j.size, p.height - 1, 2 * p.index + 1) ==
           Offset(j.size, p.height - 1, 2 * p.index) + Width(j.size, p.height - 1);
  }

  /** The value of a node is made from the values of its children. */
  lemma ValFromChildren(j: Job, p: Pos)
    requires p.height > 0 && j.size > 0 && j.Lo(p) <= |j.data|
    ensures j.Lo(Child(p, false)) >= |j.data| ==> j.Val(p) == j.Val(Child(p, true))
    ensures j.Lo(Child(p, false)) < |j.data| ==>
              j.Val(p) == j.H(j.Val(Child(p, true)) + j.Val(Child(p, false)))
  {
    Halves(j, p);
    var half := Width(j.size, p.height - 1);
    var block := j.Block(p);
    if |block| <= half {
      assert block == j.Block(Child(p, true));
    } else {
      assert block[..half] == j.Block(Child(p, true));
      assert block[half..] == j.Block(Child(p, false));
    }
  }

  /** A value on its way up belongs to a node strictly inside the chunk. */
  lemma ReadyParent(j: Job, m: Machine, arrived: set<Pos>, c: Pos)
    requires j.Inv(m, arrived) && j.Ready(c) && Parent(c) in m.nodes
    ensures j.Lo(Parent(c)) < |j.data|
    ensures m.nodes[Parent(c)].unbalanced == !j.Twofold(Parent(c))
    ensures !j.Twofold(Parent(c)) ==> IsLeft(c)
    ensures c == Child(Parent(c), IsLeft(c))
  {
    var p := Parent(c);
    assert c == Child(p, IsLeft(c));
    Halves(j, p);
    assert j.GoodNode(m, arrived, p);
  }

  /** The tree is wide enough for the chunk, and never full before the last segment. */
  lemma Fits(j: Job)
    requires j.Valid()
    ensures j.Lo(Pos(1, j.full)) < Width(j.size, j.top)
    ensures j.fin ==> |j.data| <= Width(j.size, j.top) && 1 < j.top && 2 * j.size < |j.data|
  {
    OffsetWidth(j.size, 1, j.top - 1);
    OffsetOrder(j.size, 1, j.full, Width(1, j.top - 1));
    if j.fin {
      OffsetOrder(j.size, 1, 0, j.full);
      assert Width(j.size, 1) == 2 * Width(j.size, 0);
    }
  }

  /** A node that has got all it waits for is the root of the chunk or has a parent to feed. */
  lemma PassReady(j: Job, m: Machine, arrived: set<Pos>, c: Pos)
    requires j.Inv(m, arrived) && j.Ready(c) && Parent(c) in m.nodes
    requires j.Fed(arrived + {c}, Parent(c))
    ensures m.nodes[Parent(c)].root <==> j.IsRoot(Parent(c))
    ensures j.Twofold(Parent(c)) ==> j.Lo(Child(Parent(c), false)) < |j.data|
    ensures !j.IsRoot(Parent(c)) ==> j.Ready(Parent(c)) && Parent(Parent(c)) in m.nodes
  {
    var p := Parent(c);
    ReadyParent(j, m, arrived, c);
    Halves(j, p);
    Fits(j);
    assert j.GoodNode(m, arrived, p);
    assert j.Lo(Pos(p.height, 0)) == 0;
    if j.fin {
      if p.index > 0 {
        OffsetOrder(j.size, p.height, 0, p.index);
      }
    } else {
      assert j.Ready(Child(p, false)) by {
        assert Child(p, false) == c || (Child(p, false) in arrived && j.GoodArrival(m, Child(p, false)));
      }
      assert j.Hi(p) <= j.Lo(Pos(1, j.full));
    }
    if p.height < j.top {
      assert InTree(j.top, Parent(p));
    }
  }

  // ----- a value arrives -----

  /** Nodes after the value `s` of `c` is stored in its parent and the toggle is counted. */
  function Stored(nodes: Nodes, c: Pos, s: Bytes): Nodes
    requires Parent(c) in nodes
  {
    var n := nodes[Parent(c)];
    nodes[Parent(c) := Store(n, IsLeft(c), s).(state := if n.unbalanced then n.state else Bump(n.state))]
  }

  lemma ArrivalStays(j: Job, m: Machine, m': Machine, c: Pos, s: Bytes, a: Pos)
    requires Parent(c) in m.nodes && m'.nodes == Stored(m.nodes, c, s)
    requires a != c && j.GoodArrival(m, a)
    ensures j.GoodArrival(m', a)
  {
    assert a == Child(Parent(a), IsLeft(a));
    assert c == Child(Parent(c), IsLeft(c));
  }

  lemma NodeStays(j: Job, m: Machine, m': Machine, arrived: set<Pos>, c: Pos, q: Pos)
    requires q in m.nodes && q in m'.nodes && q in j.base && q.height > 0 && m'.nodes[q] == m.nodes[q]
    requires q != Parent(c) && j.GoodNode(m, arrived, q)
    ensures j.GoodNode(m', arrived + {c}, q)
  {
    assert j.Arrivals(arrived + {c}, q) == j.Arrivals(arrived, q);
  }

  lemma NodeCounts(j: Job, m: Machine, m': Machine, arrived: set<Pos>, c: Pos, s: Bytes)
    requires Parent(c) in m.nodes && Parent(c) in j.base && m'.nodes == Stored(m.nodes, c, s)
    requires c !in arrived && j.GoodNode(m, arrived, Parent(c))
    requires m.nodes[Parent(c)].unbalanced == !j.Twofold(Parent(c))
    requires !j.Twofold(Parent(c)) ==> IsLeft(c)
    ensures j.GoodNode(m', arrived + {c}, Parent(c))
    ensures j.Twofold(Parent(c)) ==> j.Arrivals(arrived + {c}, Parent(c)) == j.Arrivals(arrived, Parent(c)) + 1
  {
    var p := Parent(c);
    assert c == Child(p, IsLeft(c));
    assert Child(p, true) != Child(p, false);
  }

  lemma Arrive(j: Job, m: Machine, m': Machine, arrived: set<Pos>, c: Pos)
    requires j.Valid() && Complete(j.top, m.nodes)
    requires forall a {:trigger j.GoodArrival(m, a)} :: a in arrived ==> j.GoodArrival(m, a)
    requires forall p {:trigger j.GoodNode(m, arrived, p)} :: p in m.nodes ==> j.GoodNode(m, arrived, p)
    requires j.Ready(c) && c !in arrived && Parent(c) in m.nodes
    requires m'.nodes == Stored(m.nodes, c, j.Val(c))
    requires m.nodes[Parent(c)].unbalanced == !j.Twofold(Parent(c))
    requires !j.Twofold(Parent(c)) ==> IsLeft(c)
    ensures forall a {:trigger j.GoodArrival(m', a)} :: a in arrived + {c} ==> j.GoodArrival(m', a)
    ensures forall p {:trigger j.GoodNode(m', arrived + {c}, p)} :: p in m'.nodes ==> j.GoodNode(m', arrived + {c}, p)
  {
    forall a | a in arrived + {c} ensures j.GoodArrival(m', a) {
      if a != c {
        assert j.GoodArrival(m, a);
        ArrivalStays(j, m, m', c, j.Val(c), a);
      }
    }
    forall q | q in m'.nodes ensures j.GoodNode(m', arrived + {c}, q) {
      assert j.GoodNode(m, arrived, q);
      if q == Parent(c) {
        NodeCounts(j, m, m', arrived, c, j.Val(c));
      } else {
        NodeStays(j, m, m', arrived, c, q);
      }
    }
  }

  // ----- goroutines move -----

  lemma FlightEnds(m: Machine, m': Machine, id: nat, p: Pos)
    requires id in m.running && DistinctEdges(m) && m'.running == m.running - {id}
    ensures InFlight(m', p) <==> InFlight(m, p) && p != Edge(m.running[id])
  {
    if i :| i in m.running && Edge(m.running[i]) == p && i != id {
      assert i in m'.running;
    }
  }

  lemma FlightMoves(m: Machine, m': Machine, id: nat, p: Pos)
    requires id in m.running && DistinctEdges(m)
    requires id in m'.running && m'.running == m.running[id := m'.running[id]]
    ensures InFlight(m', p) <==> p == Edge(m'.running[id]) || (InFlight(m, p) && p != Edge(m.running[id]))
  {
    if i :| i in m.running && Edge(m.running[i]) == p && i != id {
      assert i in m'.running && Edge(m'.running[i]) == p;
    }
  }

  lemma FedElsewhere(j: Job, arrived: set<Pos>, c: Pos, q: Pos)
    requires q != Parent(c) && q.height > 0
    ensures j.Fed(arrived + {c}, q) == j.Fed(arrived, q)
  {
  }

  /** Goroutines other than the one that moved are not disturbed by an arrival. */
  lemma OthersKeep(j: Job, m: Machine, m': Machine, arrived: set<Pos>, c: Pos, g: Goroutine)
    requires j.GoodGoroutine(m, arrived, g) && Edge(g) != c && m'.nodes.Keys == m.nodes.Keys
    ensures j.GoodGoroutine(m', arrived + {c}, g)
  {
  }

  /** The flow condition after the value of `c` arrived, given what is now in flight. */
  lemma FlowStep(j: Job, m: Machine, m': Machine, arrived: set<Pos>, c: Pos, passed: bool)
    requires j.GoodFlow(m, arrived) && Complete(j.top, m.nodes) && m'.nodes.Keys == m.nodes.Keys
    requires InFlight(m, c) && !j.IsRoot(c) && c !in arrived && Parent(c) in m.nodes
    requires j.IsRoot(Parent(c)) || passed == j.Fed(arrived + {c}, Parent(c))
    requires !j.Fed(arrived, Parent(c))
    requires j.IsRoot(Parent(c)) ==> !passed
    requires forall p :: InFlight(m', p) <==> (InFlight(m, p) && p != c) || (passed && p == Parent(c))
    ensures j.GoodFlow(m', arrived + {c})
  {
    forall q | q in m'.nodes && !j.IsRoot(q)
      ensures j.Flows(m', arrived + {c}, q)
    {
      assert !j.IsRoot(q) ==> j.Flows(m, arrived, q);
      if q != Parent(c) {
        FedElsewhere(j, arrived, c, q);
      }
    }
  }

  // ----- the three kinds of step -----

  lemma StepHash(j: Job, m: Machine, arrived: set<Pos>, id: nat)
    requires j.Inv(m, arrived) && id in m.running && m.running[id].Hashing?
    requires j.GoodGoroutine(m, arrived, m.running[id])
    ensures j.Inv(Advance(j.H, m, id), arrived)
  {
    var g := m.running[id];
    var leaf := Pos(1, g.leaf);
    assert j.GoodGoroutine(m, arrived, g);
    assert j.GoodNode(m, arrived, leaf);
    var m' := Advance(j.H, m, id);
    HashedGoroutine(j, m, m', arrived, g);
    forall i | i in m'.running ensures j.GoodGoroutine(m', arrived, m'.running[i]) {
      assert j.GoodGoroutine(m, arrived, m.running[i]);
    }
    forall p ensures InFlight(m', p) == InFlight(m, p) {
      FlightMoves(m, m', id, p);
    }
    SameFlow(j, m, m', arrived);
    SameNodes(j, m, m', arrived);
  }

  lemma SameFlow(j: Job, m: Machine, m': Machine, arrived: set<Pos>)
    requires j.GoodFlow(m, arrived) && m'.nodes == m.nodes
    requires forall p :: InFlight(m', p) == InFlight(m, p)
    ensures j.GoodFlow(m', arrived)
  {
    forall p | p in m'.nodes && !j.IsRoot(p) ensures j.Flows(m', arrived, p) {
      assert j.Flows(m, arrived, p);
    }
  }

  lemma SameNodes(j: Job, m: Machine, m': Machine, arrived: set<Pos>)
    requires j.Valid() && Complete(j.top, m.nodes) && m'.nodes == m.nodes
    requires forall c {:trigger j.GoodArrival(m, c)} :: c in arrived ==> j.GoodArrival(m, c)
    requires forall p {:trigger j.GoodNode(m, arrived, p)} :: p in m.nodes ==> j.GoodNode(m, arrived, p)
    ensures forall c {:trigger j.GoodArrival(m', c)} :: c in arrived ==> j.GoodArrival(m', c)
    ensures forall p {:trigger j.GoodNode(m', arrived, p)} :: p in m'.nodes ==> j.GoodNode(m', arrived, p)
  {
    forall c | c in arrived ensures j.GoodArrival(m', c) {
      assert j.GoodArrival(m, c);
    }
    forall p | p in m'.nodes ensures j.GoodNode(m', arrived, p) {
      assert j.GoodNode(m, arrived, p);
    }
  }

  lemma HashedGoroutine(j: Job, m: Machine, m': Machine, arrived: set<Pos>, g: Goroutine)
    requires g.Hashing? && j.GoodGoroutine(m, arrived, g)
    requires Complete(j.top, m.nodes) && m'.nodes == m.nodes
    ensures var leaf := Pos(1, g.leaf);
            var g' := Climbing(Parent(leaf), g.leaf % 2 == 0, g.leaf, g.d, j.H(g.data));
            Edge(g') == leaf && j.GoodGoroutine(m', arrived, g')
  {
    SmallValue(j.H, j.size, 1, g.data);
    assert InTree(j.top, Parent(Pos(1, g.leaf)));
  }

  /** The goroutine is the first of two to reach the node, and ends there. */
  lemma StepWait(j: Job, m: Machine, arrived: set<Pos>, id: nat)
    requires j.Inv(m, arrived) && id in m.running && m.running[id].Climbing?
    requires j.GoodGoroutine(m, arrived, m.running[id])
    requires var c := Edge(m.running[id]); !j.Fed(arrived + {c}, Parent(c))
    ensures j.Inv(Advance(j.H, m, id), arrived + {Edge(m.running[id])})
  {
    var g := m.running[id];
    var p, c := g.node, Edge(g);
    assert j.GoodGoroutine(m, arrived, g);
    assert p == Parent(c) && IsLeft(c) == g.isLeft;
    ReadyParent(j, m, arrived, c);
    assert j.GoodNode(m, arrived, p);
    assert j.Arrivals(arrived, p) == 0;
    ToggleWorks(j.base[p]);
    var m' := Advance(j.H, m, id);
    assert m'.nodes == Stored(m.nodes, c, g.data);
    Arrive(j, m, m', arrived, c);
    forall q ensures InFlight(m', q) <==> InFlight(m, q) && q != c {
      FlightEnds(m, m', id, q);
    }
    FlowStep(j, m, m', arrived, c, false);
    forall i | i in m'.running ensures j.GoodGoroutine(m', arrived + {c}, m'.running[i]) {
      assert j.GoodGoroutine(m, arrived, m.running[i]);
      OthersKeep(j, m, m', arrived, c, m.running[i]);
    }
    ResultStays(j, m, m', arrived, c);
  }

  lemma ResultStays(j: Job, m: Machine, m': Machine, arrived: set<Pos>, c: Pos)
    requires j.GoodResult(m, arrived) && m'.result == m.result
    requires !j.IsRoot(Parent(c)) || !j.Fed(arrived + {c}, Parent(c))
    ensures j.GoodResult(m', arrived + {c})
  {
    forall r | j.IsRoot(r) && r != Parent(c) ensures j.Fed(arrived + {c}, r) == j.Fed(arrived, r) {
      FedElsewhere(j, arrived, c, r);
    }
  }

  /** The node has all it waits for: its value goes to its parent, or is the result. */
  lemma StepPass(j: Job, m: Machine, arrived: set<Pos>, id: nat)
    requires j.Inv(m, arrived) && id in m.running && m.running[id].Climbing?
    requires j.GoodGoroutine(m, arrived, m.running[id])
    requires var c := Edge(m.running[id]); j.Fed(arrived + {c}, Parent(c))
    ensures j.Inv(Advance(j.H, m, id), arrived + {Edge(m.running[id])})
  {
    hide Job.Val, Job.Block, Job.Lo, Job.Hi, Value, Offset, Width, Job.Ready, Job.Twofold, Job.OnPath, Job.Fed;
    hide Job.GoodFlow, Job.GoodResult, Job.GoodNode, Job.GoodArrival, InFlight, Stored;
    var g := m.running[id];
    var p, c := g.node, Edge(g);
    assert p == Parent(c) && IsLeft(c) == g.isLeft;
    var m' := Advance(j.H, m, id);
    PassedOn(j, m, arrived, id);
    ReadyParent(j, m, arrived, c);
    PassReady(j, m, arrived, c);
    NotYetPassed(j, m, arrived, c);
    Arrive(j, m, m', arrived, c);
    PassFlow(j, m, m', arrived, id, c);
    PassRunning(j, m, m', arrived, id, c);
    PassResult(j, m, m', arrived, c);
  }

  lemma PassFlow(j: Job, m: Machine, m': Machine, arrived: set<Pos>, id: nat, c: Pos)
    requires j.GoodFlow(m, arrived) && Complete(j.top, m.nodes) && m'.nodes.Keys == m.nodes.Keys
    requires DistinctEdges(m) && id in m.running && Edge(m.running[id]) == c
    requires !j.IsRoot(c) && c !in arrived && Parent(c) in m.nodes
    requires !j.Fed(arrived, Parent(c)) && j.Fed(arrived + {c}, Parent(c))
    requires if j.IsRoot(Parent(c)) then m'.running == m.running - {id}
             else id in m'.running && m'.running == m.running[id := m'.running[id]] && Edge(m'.running[id]) == Parent(c)
    ensures j.GoodFlow(m', arrived + {c})
  {
    var root := j.IsRoot(Parent(c));
    forall q ensures InFlight(m', q) <==> (InFlight(m, q) && q != c) || (!root && q == Parent(c)) {
      if root {
        FlightEnds(m, m', id, q);
      } else {
        FlightMoves(m, m', id, q);
      }
    }
    FlowStep(j, m, m', arrived, c, !root);
  }

  lemma PassRunning(j: Job, m: Machine, m': Machine, arrived: set<Pos>, id: nat, c: Pos)
    requires j.GoodRunning(m, arrived) && m'.nodes.Keys == m.nodes.Keys
    requires id in m.running && Edge(m.running[id]) == c
    requires if j.IsRoot(Parent(c)) then m'.running == m.running - {id}
             else
               && id in m'.running && m'.running == m.running[id := m'.running[id]]
               && Edge(m'.running[id]) == Parent(c) && !InFlight(m, Parent(c))
               && j.GoodGoroutine(m', arrived + {c}, m'.running[id])
    ensures j.GoodRunning(m', arrived + {c})
  {
    hide Job.Val, Job.Block, Job.Ready, Value, Offset, Width, Job.Twofold;
    forall i | i in m'.running ensures j.GoodGoroutine(m', arrived + {c}, m'.running[i]) {
      if i != id {
        assert j.GoodGoroutine(m, arrived, m.running[i]);
        assert Edge(m.running[i]) != c;
        OthersKeep(j, m, m', arrived, c, m.running[i]);
      }
    }
  }

  lemma PassResult(j: Job, m: Machine, m': Machine, arrived: set<Pos>, c: Pos)
    requires j.GoodResult(m, arrived)
    requires j.Fed(arrived + {c}, Parent(c))
    requires m'.result == if j.IsRoot(Parent(c)) then Some(j.Val(Parent(c))) else m.result
    ensures j.GoodResult(m', arrived + {c})
  {
    if !j.IsRoot(Parent(c)) {
      ResultStays(j, m, m', arrived, c);
    }
  }

  /** Before the step, the node had not got all it waits for, and so had passed nothing on. */
  lemma NotYetPassed(j: Job, m: Machine, arrived: set<Pos>, c: Pos)
    requires j.GoodFlow(m, arrived) && j.Ready(c) && c !in arrived && Parent(c) in m.nodes
    requires j.Fed(arrived + {c}, Parent(c))
    requires !j.Twofold(Parent(c)) ==> IsLeft(c)
    ensures !j.Fed(arrived, Parent(c)) && !j.IsRoot(c)
    ensures !j.IsRoot(Parent(c)) ==> Parent(c) !in arrived && !InFlight(m, Parent(c))
    ensures j.Twofold(Parent(c)) ==> Child(Parent(c), !IsLeft(c)) in arrived
  {
    var p := Parent(c);
    assert c == Child(p, IsLeft(c));
    if !j.IsRoot(p) {
      assert j.Flows(m, arrived, p);
    }
  }

  /** What the step itself computes when it goes past the toggle. */
  lemma PassedOn(j: Job, m: Machine, arrived: set<Pos>, id: nat)
    requires j.Inv(m, arrived) && id in m.running && m.running[id].Climbing?
    requires j.GoodGoroutine(m, arrived, m.running[id])
    requires var c := Edge(m.running[id]); j.Fed(arrived + {c}, Parent(c))
    ensures var g := m.running[id];
            var c := Edge(g);
            var p := Parent(c);
            var m' := Advance(j.H, m, id);
            && m'.nodes == Stored(m.nodes, c, g.data)
            && (j.IsRoot(p) ==> m'.running == m.running - {id} && m'.result == Some(j.Val(p)))
            && (!j.IsRoot(p) ==>
                  && m'.running == m.running[id := Climbing(Parent(p), IsLeft(p), g.i + 1, g.d, j.Val(p))]
                  && m'.result == m.result)
  {
    hide Job.Val, Job.Block, Job.Lo, Job.Hi, Value, Offset, Width;
    hide Job.Ready, Job.Twofold, Job.OnPath, Job.Fed, Job.IsRoot;
    hide Job.GoodFlow, Job.GoodResult;
    var g := m.running[id];
    var p, c := g.node, Edge(g);
    assert p == Parent(c) && IsLeft(c) == g.isLeft;
    ReadyParent(j, m, arrived, c);
    PassReady(j, m, arrived, c);
    NotYetPassed(j, m, arrived, c);
    assert j.GoodNode(m, arrived, p);
    if j.Twofold(p) {
      assert j.GoodArrival(m, Child(p, !IsLeft(c)));
    }
    PassValue(j, m, arrived, c);
  }

  /** At a node that has all it waits for, the second goroutine finds both halves in place. */
  lemma PassValue(j: Job, m: Machine, arrived: set<Pos>, c: Pos)
    requires var p := Parent(c);
             && j.size > 0 && p in m.nodes && p in j.base && j.GoodNode(m, arrived, p)
             && j.base[p] % 2 == 0 && 0 <= j.base[p] < MAX_INT32
             && j.Lo(p) < |j.data| && m.nodes[p].unbalanced == !j.Twofold(p)
             && (j.Twofold(p) ==> var s := Child(p, !IsLeft(c)); s in arrived && j.GoodArrival(m, s))
             && (!j.Twofold(p) ==> IsLeft(c))
             && c !in arrived
    requires j.Twofold(Parent(c)) ==> j.Lo(Child(Parent(c), false)) < |j.data|
    ensures var p := Parent(c);
            var n := Store(m.nodes[p], IsLeft(c), j.Val(c));
            && (n.unbalanced ==> n.left + n.right == j.Val(p))
            && (!n.unbalanced ==> !Waits(n.state) && j.H(n.left + n.right) == j.Val(p))
  {
    var p := Parent(c);
    assert c == Child(p, IsLeft(c));
    ValFromChildren(j, p);
    if j.Twofold(p) {
      assert Parent(Child(p, !IsLeft(c))) == p && IsLeft(Child(p, !IsLeft(c))) == !IsLeft(c);
      assert j.Arrivals(arrived, p) == 1;
      assert Bumped(j.base[p], 1) == Bump(Bumped(j.base[p], 0));
      ToggleWorks(j.base[p]);
    }
  }

  /** Whichever goroutine moves next, the invariant of the job is kept. */
  lemma AdvanceKeeps(j: Job, m: Machine, arrived: set<Pos>, id: nat) returns (arrived': set<Pos>)
    requires j.Inv(m, arrived) && id in m.running
    ensures Dest(m.running[id]) in m.nodes
    ensures j.Inv(Advance(j.H, m, id), arrived')
    ensures arrived' == if m.running[id].Hashing? then arrived else arrived + {Edge(m.running[id])}
  {
    assert j.GoodGoroutine(m, arrived, m.running[id]);
    if m.running[id].Hashing? {
      StepHash(j, m, arrived, id);
      arrived' := arrived;
    } else {
      var c := Edge(m.running[id]);
      if j.Fed(arrived + {c}, Parent(c)) {
        StepPass(j, m, arrived, id);
      } else {
        StepWait(j, m, arrived, id);
      }
      arrived' := arrived + {c};
    }
  }
}
