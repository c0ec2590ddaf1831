/**
The phases of hashing one chunk: an idle tree, leaves handed over while data is written, the
last segment handed over, the result, and the tree at rest again.
*/
module BmtPhases {
  import opened Wrappers
  import opened BmtSpec
  import opened BmtMachine
  import opened BmtInvariant
  import opened BmtSteps

  // ----- idle -----

  lemma InitKeeps(j: Job, m: Machine)
    requires j.Valid() && !j.fin && j.full == 0
    requires Clean(j.top, m.nodes) && m.running == map[] && m.result == None
    requires forall p :: p in m.nodes ==> j.base[p] == m.nodes[p].state
    ensures j.Inv(m, {})
  {
    forall p | p in m.nodes ensures j.GoodNode(m, {}, p) {
    }
    forall p | p in m.nodes && !j.IsRoot(p) ensures j.Flows(m, {}, p) {
      assert p.height == 1 ==> j.Hi(p) > 0;
    }
  }

  // ----- more data -----

  lemma ValStable(j: Job, j': Job, c: Pos)
    requires j.Valid() && j'.Valid() && j' == j.(data := j'.data)
    requires j.data[..j.Lo(Pos(1, j.full))] == j'.data[..j.Lo(Pos(1, j.full))]
    requires !j.fin && j.Ready(c)
    ensures j'.Block(c) == j.Block(c) && j'.Val(c) == j.Val(c) && j'.Ready(c)
  {
    var whole := j.Lo(Pos(1, j.full));
    assert j.Block(c) == j.data[..whole][j.Lo(c)..j.Hi(c)];
    assert j'.Block(c) == j'.data[..whole][j.Lo(c)..j.Hi(c)];
  }

  /** Appending to the open segment disturbs nothing that is under way. */
  lemma DataGrows(j: Job, j': Job, m: Machine, arrived: set<Pos>)
    requires j.Inv(m, arrived) && j'.Valid() && !j.fin && j' == j.(data := j'.data)
    requires j.data[..j.Lo(Pos(1, j.full))] == j'.data[..j.Lo(Pos(1, j.full))]
    ensures j'.Inv(m, arrived)
  {
    hide Value, Offset, Width, Job.Val, Job.Block, Job.Ready, Job.Lo;
    hide Job.Hi, Job.GoodGoroutine, Job.GoodArrival, Job.GoodNode, Job.Flows;
    forall id | id in m.running ensures j'.GoodGoroutine(m, arrived, m.running[id]) {
      GoroutineStable(j, j', m, arrived, m.running[id]);
    }
    forall c | c in arrived ensures j'.GoodArrival(m, c) {
      ArrivalStable(j, j', m, c);
    }
    forall p | p in m.nodes ensures j'.GoodNode(m, arrived, p) && (j.Flows(m, arrived, p) ==> j'.Flows(m, arrived, p)) {
      NodeStable(j, j', m, arrived, p);
    }
  }

  lemma GoroutineStable(j: Job, j': Job, m: Machine, arrived: set<Pos>, g: Goroutine)
    requires j.Valid() && j'.Valid() && !j.fin && j' == j.(data := j'.data) && j.GoodGoroutine(m, arrived, g)
    requires j.data[..j.Lo(Pos(1, j.full))] == j'.data[..j.Lo(Pos(1, j.full))]
    ensures j'.GoodGoroutine(m, arrived, g)
  {
    hide Value, Offset, Width, Job.Val, Job.Block;
    ValStable(j, j', Edge(g));
  }

  lemma ArrivalStable(j: Job, j': Job, m: Machine, c: Pos)
    requires j.Valid() && j'.Valid() && !j.fin && j' == j.(data := j'.data) && j.GoodArrival(m, c)
    requires j.data[..j.Lo(Pos(1, j.full))] == j'.data[..j.Lo(Pos(1, j.full))]
    ensures j'.GoodArrival(m, c)
  {
    hide Value, Offset, Width, Job.Val, Job.Block;
    ValStable(j, j', c);
  }

  lemma NodeStable(j: Job, j': Job, m: Machine, arrived: set<Pos>, p: Pos)
    requires j.Valid() && !j.fin && j' == j.(data := j'.data)
    requires p in m.nodes && p in j.base && j.GoodNode(m, arrived, p)
    ensures j'.GoodNode(m, arrived, p) && (j.Flows(m, arrived, p) ==> j'.Flows(m, arrived, p))
  {
    hide Value, Offset, Width, Job.Val, Job.Block;
  }

  // ----- a full leaf is handed over -----

  /** Leaf `full` is handed to a new goroutine while writing goes on. */
  lemma LaunchKeeps(j: Job, j': Job, m: Machine, m': Machine, arrived: set<Pos>, d: nat)
    requires j.Inv(m, arrived) && !j.fin
    requires j' == j.(full := j.full + 1) && j'.Valid()
    requires m' == m.(running := m.running[j.full := Hashing(j.full, d, j.Block(Pos(1, j.full)))])
    requires j.full + d > 0
    ensures j'.Inv(m', arrived)
  {
    hide Value, Offset, Width, Job.Val, Job.Lo, Job.Hi, Job.Block, Job.Ready;
    hide Job.GoodRunning, Job.GoodFlow;
    LaunchRunning(j, j', m, m', arrived, d);
    LaunchFlow(j, j', m, m', arrived);
    forall c | c in arrived ensures j'.GoodArrival(m', c) {
      assert j.GoodArrival(m, c);
      ReadyMore(j, j', c);
    }
    forall p | p in m'.nodes ensures j'.GoodNode(m', arrived, p) {
      assert j.GoodNode(m, arrived, p);
    }
  }

  lemma LaunchRunning(j: Job, j': Job, m: Machine, m': Machine, arrived: set<Pos>, d: nat)
    requires j.Valid() && Complete(j.top, m.nodes) && j.GoodRunning(m, arrived) && !j.fin
    requires forall c {:trigger j.GoodArrival(m, c)} :: c in arrived ==> j.GoodArrival(m, c)
    requires j' == j.(full := j.full + 1) && j'.Valid()
    requires m' == m.(running := m.running[j.full := Hashing(j.full, d, j.Block(Pos(1, j.full)))])
    requires j.full + d > 0
    ensures j'.GoodRunning(m', arrived) && j.full !in m.running
  {
    hide Value, Offset, Width, Job.Val, Job.Lo, Job.Hi, Job.Ready, Job.Block;
    var leaf := Pos(1, j.full);
    LeafOrder(j, j.full);
    assert leaf in arrived ==> j.GoodArrival(m, leaf);
    LaunchedGoroutine(j, j', m', arrived, d);
    forall id | id in m.running
      ensures j'.GoodGoroutine(m', arrived, m.running[id]) && Edge(m.running[id]) != leaf && id != j.full
    {
      assert j.GoodGoroutine(m, arrived, m.running[id]);
      ReadyMore(j, j', Edge(m.running[id]));
    }
  }

  lemma LaunchFlow(j: Job, j': Job, m: Machine, m': Machine, arrived: set<Pos>)
    requires j.Valid() && Complete(j.top, m.nodes) && j.GoodFlow(m, arrived) && !j.fin
    requires j' == j.(full := j.full + 1) && m'.nodes == m.nodes && j.full !in m.running
    requires j.full in m'.running && m'.running == m.running[j.full := m'.running[j.full]]
    requires Edge(m'.running[j.full]) == Pos(1, j.full)
    ensures j'.GoodFlow(m', arrived)
  {
    hide Value, Offset, Width, Job.Lo, Job.Hi, Job.Ready;
    var leaf := Pos(1, j.full);
    forall p ensures InFlight(m', p) <==> InFlight(m, p) || p == leaf {
      if i :| i in m.running && Edge(m.running[i]) == p {
        assert i in m'.running && Edge(m'.running[i]) == p;
      }
    }
    forall p | p in m'.nodes && !j'.IsRoot(p) ensures j'.Flows(m', arrived, p) {
      assert j.Flows(m, arrived, p);
      LeafOrder(j, p.index);
    }
  }

  lemma ReadyMore(j: Job, j': Job, c: Pos)
    requires !j.fin && j' == j.(full := j.full + 1) && j.Ready(c)
    ensures j'.Ready(c) && j'.Block(c) == j.Block(c) && j'.Val(c) == j.Val(c)
  {
    OffsetOrder(j.size, 1, j.full, j.full + 1);
  }

  /** Leaves are handed over in order, so exactly those below `full` are on their way. */
  lemma LeafOrder(j: Job, k: nat)
    requires !j.fin && j.size > 0
    ensures j.Ready(Pos(1, k)) <==> k < j.full
    ensures j.(full := j.full + 1).Ready(Pos(1, k)) <==> k <= j.full
  {
    if k < j.full {
      OffsetOrder(j.size, 1, k, j.full);
    } else if j.full < k {
      OffsetOrder(j.size, 1, j.full, k);
    }
    OffsetOrder(j.size, 1, j.full, j.full + 1);
  }

  lemma LaunchedGoroutine(j: Job, j': Job, m': Machine, arrived: set<Pos>, d: nat)
    requires j.Valid() && !j.fin && j' == j.(full := j.full + 1) && j'.Valid()
    requires Complete(j.top, m'.nodes) && j.full + d > 0
    requires Pos(1, j.full) !in arrived
    ensures j'.GoodGoroutine(m', arrived, Hashing(j.full, d, j.Block(Pos(1, j.full))))
  {
    LeafOrder(j, j.full);
    assert Width(j.size, 1) == 2 * Width(j.size, 0);
    assert j'.Lo(Pos(1, j.full + 1)) == j.Hi(Pos(1, j.full));
    assert InTree(j.top, Pos(1, j.full));
  }

  // ----- the last segment -----

  /** There is one node of the path on each level. */
  lemma PathUnique(j: Job, p: Pos, q: Pos)
    requires j.OnPath(p) && j.OnPath(q) && p.height == q.height
    ensures p == q
  {
    if p.index < q.index {
      OffsetOrder(j.size, p.height, p.index, q.index);
    } else if q.index < p.index {
      OffsetOrder(j.size, p.height, q.index, p.index);
    }
  }

  lemma PathUp(j: Job, p: Pos)
    requires j.size > 0 && j.OnPath(p) && p.index > 0
    ensures j.OnPath(Parent(p)) && IsLeft(p) == !j.Twofold(Parent(p)) && !j.IsRoot(p)
  {
    Halves(j, Parent(p));
    assert p == Child(Parent(p), IsLeft(p));
    OffsetOrder(j.size, p.height, 0, p.index);
  }

  /** The path ends at the root of the chunk: the first node whose width holds all the data. */
  lemma PathEnds(j: Job, p: Pos, q: Pos)
    requires j.Valid() && j.OnPath(p) && p.index == 0
    ensures j.IsRoot(p)
    ensures j.OnPath(q) ==> q.height <= p.height
    ensures j.IsRoot(q) ==> q == p
  {
    Fits(j);
    assert Width(j.size, 1) == 2 * Width(j.size, 0);
    if p.height < q.height {
      WidthMonotonic(j.size, p.height, q.height - 1);
    } else if q.height < p.height {
      WidthMonotonic(j.size, q.height, p.height - 1);
    }
  }

  lemma RootOnPath(j: Job, p: Pos)
    ensures j.IsRoot(p) && |j.data| > 0 ==> j.OnPath(p)
    ensures j.OnPath(p) ==> j.fin
  {
  }

  /** Finalising marks exactly the nodes of the path from `p` on. */
  lemma {:induction false} Finalised(j: Job, nodes: Nodes, p: Pos, isLeft: bool, q: Pos)
    requires j.Valid() && Complete(j.top, nodes) && p in nodes && q in nodes
    requires j.OnPath(p) && isLeft == !j.Twofold(p)
    ensures Finalise(j.top, nodes, p, isLeft)[q] ==
            if j.OnPath(q) && p.height <= q.height
            then nodes[q].(unbalanced := !j.Twofold(q), right := [], root := nodes[q].root || j.IsRoot(q))
            else nodes[q]
    decreases p.index
  {
    hide Value, Offset, Width, Job.Lo, Job.Hi, Job.Twofold, Job.OnPath, Job.IsRoot;
    if j.OnPath(q) && p.height == q.height {
      PathUnique(j, p, q);
    }
    if p.index == 0 {
      PathEnds(j, p, q);
    } else {
      PathUp(j, p);
      var n := nodes[p].(unbalanced := isLeft, right := []);
      assert InTree(j.top, Parent(p)) by { InTreeUp(j.top, p); }
      Finalised(j, nodes[p := n], Parent(p), IsLeft(p), q);
    }
  }

  lemma InTreeUp(top: nat, p: Pos)
    requires InTree(top, p) && (p.index > 0 || p.height < top)
    ensures InTree(top, Parent(p))
  {
  }

  /** Where finalising starts: the leaf of a short last segment, else the parent of that leaf. */
  function LastStart(size: nat, top: nat, full: nat, segment: Bytes): Pos {
    if |segment| > size && full > 0 && 1 < top then Parent(Pos(1, full)) else Pos(1, full)
  }

  /** The machine after the last segment has been handed over. */
  function Closed(size: nat, top: nat, m: Machine, full: nat, segment: Bytes): Machine
    requires Complete(top, m.nodes) && Pos(1, full) in m.nodes && LastStart(size, top, full, segment) in m.nodes
  {
    var p := LastStart(size, top, full, segment);
    var isLeft := if p.height == 1 then true else IsLeft(Pos(1, full));
    Machine(Finalise(top, m.nodes, p, isLeft),
            m.running[full := Start(size, top, full, segment, Climbs(p))],
            m.result)
  }

  lemma StartOnPath(j: Job)
    requires j.Valid() && j.fin
    ensures var leaf := Pos(1, j.full);
            var p := LastStart(j.size, j.top, j.full, j.Block(leaf));
            && j.OnPath(leaf) && j.OnPath(p) && InTree(j.top, leaf) && InTree(j.top, p)
            && (p == leaf <==> !j.Twofold(leaf))
            && (p != leaf ==> p == Parent(leaf) && IsLeft(leaf) == !j.Twofold(p))
            && Open(j) == j.Block(leaf)
  {
    hide Value, Job.Val;
    Fits(j);
    var leaf := Pos(1, j.full);
    Halves(j, leaf);
    PathUp(j, leaf);
    InTreeUp(j.top, leaf);
  }

  /** The bytes of the open segment. */
  function Open(j: Job): Bytes {
    if j.Lo(Pos(1, j.full)) <= |j.data| then j.data[j.Lo(Pos(1, j.full))..] else []
  }

  /** What was on its way while writing stays so, and lies strictly before the path. */
  lemma ReadyBefore(j: Job, j': Job, c: Pos)
    requires j.Valid() && !j.fin && j' == j.(fin := true) && j'.Valid() && j.Ready(c)
    ensures j'.Ready(c) && j'.Val(c) == j.Val(c) && j'.Block(c) == j.Block(c)
    ensures j.Hi(c) < |j.data|
  {
  }

  /** Nothing a single-valued node could wait for was under way before the last segment. */
  lemma SingleFresh(j: Job, j': Job, p: Pos)
    requires j.Valid() && !j.fin && j' == j.(fin := true) && j'.Valid() && p.height > 0
    ensures !j'.Twofold(p) ==> !j.Ready(Child(p, true)) && !j.Ready(Child(p, false))
    ensures j'.OnPath(p) ==> !j.Ready(Child(p, false))
    ensures j'.IsRoot(p) ==> !j.Ready(Child(p, false))
  {
    Halves(j, p);
    Halves(j', p);
  }

  lemma FinalNode(j: Job, j': Job, m: Machine, m': Machine, arrived: set<Pos>, q: Pos)
    requires j.Inv(m, arrived) && !j.fin && j' == j.(fin := true) && j'.Valid()
    requires q in m.nodes && Pos(1, j.full) in m.nodes && LastStart(j.size, j.top, j.full, Open(j)) in m.nodes
    requires m'.nodes == Closed(j.size, j.top, m, j.full, Open(j)).nodes
    ensures j'.GoodNode(m', arrived, q)
    ensures m'.nodes[q].left == m.nodes[q].left
    ensures !j'.OnPath(q) ==> m'.nodes[q].right == m.nodes[q].right
  {
    hide Value, Offset, Width, Job.Hi, Job.OnPath, Job.Val, Finalise;
    StartOnPath(j');
    var p := LastStart(j.size, j.top, j.full, Open(j'));
    Finalised(j', m.nodes, p, if p.height == 1 then true else IsLeft(Pos(1, j.full)), q);
    assert j.GoodNode(m, arrived, q);
    RootOnPath(j, q);
    RootOnPath(j', q);
    SingleFresh(j, j', q);
    assert Child(q, true) in arrived ==> j.GoodArrival(m, Child(q, true));
    assert Child(q, false) in arrived ==> j.GoodArrival(m, Child(q, false));
    assert j'.Arrivals(arrived, q) == j.Arrivals(arrived, q);
    if j'.OnPath(q) && q.height < p.height {
      PathUnique(j', q, Pos(1, j.full));
    }
  }

  lemma FinalNodes(j: Job, j': Job, m: Machine, m': Machine, arrived: set<Pos>)
    requires j.Inv(m, arrived) && !j.fin && j' == j.(fin := true) && j'.Valid()
    requires Pos(1, j.full) in m.nodes && LastStart(j.size, j.top, j.full, Open(j)) in m.nodes
    requires m'.nodes == Closed(j.size, j.top, m, j.full, Open(j)).nodes
    ensures forall c {:trigger j'.GoodArrival(m', c)} :: c in arrived ==> j'.GoodArrival(m', c)
    ensures forall p {:trigger j'.GoodNode(m', arrived, p)} :: p in m'.nodes ==> j'.GoodNode(m', arrived, p)
  {
    hide Value, Offset, Width, Job.OnPath, Job.Val, Finalise, Job.GoodRunning, Job.GoodFlow, Job.GoodResult;
    forall p | p in m'.nodes ensures j'.GoodNode(m', arrived, p) {
      FinalNode(j, j', m, m', arrived, p);
    }
    forall c | c in arrived ensures j'.GoodArrival(m', c) {
      assert j.GoodArrival(m, c);
      ReadyBefore(j, j', c);
      FinalNode(j, j', m, m', arrived, Parent(c));
      SingleFresh(j, j', Parent(c));
      assert c == Child(Parent(c), IsLeft(c));
    }
  }

  lemma LastGoroutine(j: Job, m: Machine, arrived: set<Pos>, d: nat)
    requires j.Valid() && j.fin && Complete(j.top, m.nodes)
    requires Pos(1, j.full) !in arrived && Child(Pos(1, j.full), true) !in arrived
    ensures var g := Start(j.size, j.top, j.full, Open(j), d);
            && j.GoodGoroutine(m, arrived, g)
            && Edge(g) == if j.Twofold(Pos(1, j.full)) then Pos(1, j.full) else Child(Pos(1, j.full), true)
  {
    var leaf := Pos(1, j.full);
    Fits(j);
    StartOnPath(j);
    Halves(j, leaf);
    assert Width(j.size, 1) == 2 * Width(j.size, 0);
    assert Parent(Child(leaf, true)) == leaf;
    if !j.Twofold(leaf) {
      assert j.Block(Child(leaf, true)) == Open(j);
    }
  }

  lemma FinalRunning(j: Job, j': Job, m: Machine, m': Machine, arrived: set<Pos>, d: nat)
    requires j.Valid() && j.GoodRunning(m, arrived) && !j.fin && j' == j.(fin := true) && j'.Valid()
    requires Complete(j.top, m.nodes) && m'.nodes.Keys == m.nodes.Keys
    requires forall c {:trigger j.GoodArrival(m, c)} :: c in arrived ==> j.GoodArrival(m, c)
    requires m'.running == m.running[j.full := Start(j.size, j.top, j.full, Open(j), d)]
    ensures j'.GoodRunning(m', arrived) && j.full !in m.running
    ensures !j.Ready(Pos(1, j.full)) && Pos(1, j.full) !in arrived
    ensures Child(Pos(1, j.full), true) !in arrived
  {
    hide Value, Offset, Width, Job.Val, Start, Job.Block;
    var leaf := Pos(1, j.full);
    LeafOrder(j, j.full);
    assert leaf in arrived ==> j.GoodArrival(m, leaf);
    assert Child(leaf, true) in arrived ==> j.GoodArrival(m, Child(leaf, true));
    LastGoroutine(j', m', arrived, d);
    forall id | id in m.running
      ensures j'.GoodGoroutine(m', arrived, m.running[id]) && id != j.full
      ensures Edge(m.running[id]) != leaf && Edge(m.running[id]).height > 0
    {
      assert j.GoodGoroutine(m, arrived, m.running[id]);
      ReadyBefore(j, j', Edge(m.running[id]));
    }
  }

  lemma FinalFlow(j: Job, j': Job, m: Machine, m': Machine, arrived: set<Pos>, g: Goroutine)
    requires j.Valid() && j.GoodFlow(m, arrived) && !j.fin && j' == j.(fin := true) && j'.Valid()
    requires Complete(j.top, m.nodes) && m'.nodes.Keys == m.nodes.Keys
    requires forall c {:trigger j.GoodArrival(m, c)} :: c in arrived ==> j.GoodArrival(m, c)
    requires m'.running == m.running[j.full := g] && j.full !in m.running
    requires Edge(g) == if j'.Twofold(Pos(1, j.full)) then Pos(1, j.full) else Child(Pos(1, j.full), true)
    ensures j'.GoodFlow(m', arrived)
  {
    hide Value, Offset, Width, Job.Val;
    forall p ensures InFlight(m', p) <==> InFlight(m, p) || p == Edge(g) {
      if i :| i in m.running && Edge(m.running[i]) == p {
        assert i in m'.running && Edge(m'.running[i]) == p;
      }
      assert Edge(m'.running[j.full]) == Edge(g);
    }
    forall p | p in m'.nodes && !j'.IsRoot(p) ensures j'.Flows(m', arrived, p) {
      assert j.Flows(m, arrived, p);
      SingleFresh(j, j', p);
      assert Child(p, true) in arrived ==> j.GoodArrival(m, Child(p, true));
      if p.height == 1 {
        LeafStatus(j, j', p.index);
      }
    }
  }

  /** With the last segment handed over, the leaves up to `full` are on their way. */
  lemma LeafStatus(j: Job, j': Job, k: nat)
    requires j.Valid() && !j.fin && j' == j.(fin := true) && j'.Valid()
    ensures j.Ready(Pos(1, k)) <==> k < j.full
    ensures k < j.full ==> j'.Ready(Pos(1, k)) && j'.Twofold(Pos(1, k))
    ensures j.full < k ==> !j'.Twofold(Pos(1, k))
    ensures j'.Ready(Pos(1, j.full))
  {
    LeafOrder(j, k);
    Fits(j');
    Halves(j, Pos(1, k));
    assert Width(j.size, 1) == 2 * Width(j.size, 0);
    if k > j.full {
      OffsetOrder(j.size, 1, j.full, k);
    }
  }

  lemma FinalResult(j: Job, j': Job, m: Machine, m': Machine, arrived: set<Pos>)
    requires j.Valid() && j.GoodResult(m, arrived) && !j.fin && j' == j.(fin := true) && j'.Valid()
    requires forall c {:trigger j.GoodArrival(m, c)} :: c in arrived ==> j.GoodArrival(m, c)
    requires m'.result == m.result
    ensures j'.GoodResult(m', arrived)
  {
    forall r | j'.IsRoot(r) ensures !j'.Fed(arrived, r) {
      SingleFresh(j, j', r);
      assert Child(r, true) in arrived ==> j.GoodArrival(m, Child(r, true));
      assert Child(r, false) in arrived ==> j.GoodArrival(m, Child(r, false));
    }
  }

  /** Handing over the last segment turns a job being written into a closed one. */
  lemma FinalKeeps(j: Job, j': Job, m: Machine, arrived: set<Pos>)
    requires j.Inv(m, arrived) && !j.fin && j' == j.(fin := true) && j'.Valid()
    ensures Pos(1, j.full) in m.nodes && LastStart(j.size, j.top, j.full, Open(j)) in m.nodes
    ensures j'.Inv(Closed(j.size, j.top, m, j.full, Open(j)), arrived)
  {
    hide Value, Offset, Width, Job.Val, Finalise, Start, Job.GoodRunning, Job.GoodFlow, Job.GoodResult, Job.Twofold;
    StartOnPath(j');
    var m' := Closed(j.size, j.top, m, j.full, Open(j));
    var d := Climbs(LastStart(j.size, j.top, j.full, Open(j)));
    FinalNodes(j, j', m, m', arrived);
    FinalRunning(j, j', m, m', arrived, d);
    LastGoroutine(j', m', arrived, d);
    FinalFlow(j, j', m, m', arrived, m'.running[j.full]);
    FinalResult(j, j', m, m', arrived);
  }
}
