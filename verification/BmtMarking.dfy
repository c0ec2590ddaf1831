/**
Marking the path of the last segment while goroutines are still climbing. Each field of each node of
the path is written in a step of its own, and any goroutine may move between any two of these steps.

The machine that is being marked runs beside one that is not: both make the same steps.
*/
module BmtMarking {
  import opened Wrappers
  import opened BmtSpec
  import opened BmtMachine
  import opened BmtInvariant
  import opened BmtPhases

  /** A node of the path with its first `stage` fields written: `unbalanced`, `right`, `root`. */
  ghost function Marked(j: Job, n: Node, p: Pos, stage: nat): Node {
    var n1 := if stage >= 1 then n.(unbalanced := !j.Twofold(p)) else n;
    var n2 := if stage >= 2 then n1.(right := []) else n1;
    if stage >= 3 then n2.(root := n.root || j.IsRoot(p)) else n2
  }

  /** The path is marked from height `lo` to below `h`, and its node of height `h` up to `stage`. */
  ghost function StageOf(j: Job, p: Pos, lo: nat, h: nat, stage: nat): nat {
    if !j.OnPath(p) || p.height < lo || p.height > h then 0 else if p.height < h then 3 else stage
  }

  ghost predicate MarkedTo(j: Job, us: Nodes, ms: Nodes, lo: nat, h: nat, stage: nat) {
    && ms.Keys == us.Keys
    && forall p {:trigger ms[p]} {:trigger us[p]} ::
      p in us ==> ms[p] == Marked(j, us[p], p, StageOf(j, p, lo, h, stage))
  }

  /** The unmarked machine `u` beside the machine `m` that is being marked. */
  ghost predicate Beside(j: Job, u: Machine, m: Machine, lo: nat, h: nat, stage: nat) {
    u.running == m.running && u.result == m.result && MarkedTo(j.(fin := true), u.nodes, m.nodes, lo, h, stage)
  }

  /** A goroutine at a node of the path comes from the left, is the first there, and waits. */
  lemma FirstOnPath(j: Job, u: Machine, arrived: set<Pos>, id: nat)
    requires j.Inv(u, arrived) && !j.fin && j.(fin := true).Valid() && id in u.running
    ensures var g, j' := u.running[id], j.(fin := true);
            && Dest(g) in u.nodes
            && (j'.OnPath(Dest(g)) ==> g.Climbing? && g.isLeft && j'.Twofold(g.node) && !u.nodes[g.node].unbalanced &&
                                       Waits(u.nodes[g.node].state))
  {
    hide Value, Offset, Width, Job.Val, Job.GoodFlow, Job.GoodResult;
    var g, j' := u.running[id], j.(fin := true);
    assert j.GoodGoroutine(u, arrived, g);
    ReadyBefore(j, j', Edge(g));
    var n := Dest(g);
    if j'.OnPath(n) && g.Climbing? {
      SingleFresh(j, j', n);
      assert j.GoodNode(u, arrived, n);
      assert Child(n, false) in arrived ==> j.GoodArrival(u, Child(n, false));
      assert j.Arrivals(arrived, n) == 0;
      ToggleWorks(u.nodes[n].state);
    }
  }

  /** Both machines make the same step. */
  lemma StepBeside(j: Job, u: Machine, m: Machine, arrived: set<Pos>, id: nat, lo: nat, h: nat, stage: nat)
    requires j.Inv(u, arrived) && !j.fin && j.(fin := true).Valid() && id in u.running && Beside(j, u, m, lo, h, stage)
    ensures Dest(u.running[id]) in u.nodes && Dest(u.running[id]) in m.nodes
    ensures Beside(j, Advance(j.H, u, id), Advance(j.H, m, id), lo, h, stage)
  {
    hide Job.Inv, Job.Valid, Job.OnPath, Job.Twofold, Job.IsRoot, Waits, Bump;
    FirstOnPath(j, u, arrived, id);
    var g := u.running[id];
    var n := Dest(g);
    assert !j.(fin := true).OnPath(n) ==> m.nodes[n] == u.nodes[n];
    assert m.nodes[n] == Marked(j.(fin := true), u.nodes[n], n, StageOf(j.(fin := true), n, lo, h, stage));
  }

  /** Nothing is marked yet. */
  lemma BesideItself(j: Job, m: Machine, lo: nat)
    ensures Beside(j, m, m, lo, lo, 0)
  {
  }

  /** The next field of the node of the path at height `p.height` is written. */
  lemma MarkField(j: Job, us: Nodes, ms: Nodes, lo: nat, p: Pos, stage: nat)
    requires j.OnPath(p) && p in us && lo <= p.height && stage < 3 && MarkedTo(j, us, ms, lo, p.height, stage)
    ensures MarkedTo(j, us, ms[p := Marked(j, us[p], p, stage + 1)], lo, p.height, stage + 1)
  {
    hide Job.OnPath, Job.Twofold, Job.IsRoot;
    forall q | q in us && j.OnPath(q) && q.height == p.height ensures q == p {
      PathUnique(j, p, q);
    }
  }

  /** The path of the last segment goes through `p`, to the left or to the right. */
  ghost predicate PathAt(j: Job, p: Pos, isLeft: bool) {
    j.(fin := true).OnPath(p) && isLeft == !j.(fin := true).Twofold(p)
  }

  /** What is written in each stage is what the path calls for. */
  lemma WriteUnbalanced(j: Job, u: Machine, m: Machine, lo: nat, p: Pos, isLeft: bool)
    requires PathAt(j, p, isLeft) && p in u.nodes && p in m.nodes && lo <= p.height && Beside(j, u, m, lo, p.height, 0)
    ensures Beside(j, u, m.(nodes := m.nodes[p := m.nodes[p].(unbalanced := isLeft)]), lo, p.height, 1)
  {
    hide Job.OnPath, Job.Twofold, Job.IsRoot;
    MarkField(j.(fin := true), u.nodes, m.nodes, lo, p, 0);
  }

  lemma WriteRight(j: Job, u: Machine, m: Machine, lo: nat, p: Pos, isLeft: bool)
    requires PathAt(j, p, isLeft) && p in u.nodes && p in m.nodes && lo <= p.height && Beside(j, u, m, lo, p.height, 1)
    ensures Beside(j, u, m.(nodes := m.nodes[p := m.nodes[p].(right := [])]), lo, p.height, 2)
  {
    hide Job.OnPath, Job.Twofold, Job.IsRoot;
    MarkField(j.(fin := true), u.nodes, m.nodes, lo, p, 1);
  }

  lemma WriteRoot(j: Job, u: Machine, m: Machine, lo: nat, p: Pos, isLeft: bool)
    requires j.(fin := true).Valid() && p.index == 0
    requires PathAt(j, p, isLeft) && p in u.nodes && p in m.nodes && lo <= p.height && Beside(j, u, m, lo, p.height, 2)
    ensures Beside(j, u, m.(nodes := m.nodes[p := m.nodes[p].(root := true)]), lo, p.height, 3)
  {
    hide Job.Valid, Job.OnPath, Job.Twofold, Job.IsRoot;
    PathEnds(j.(fin := true), p, p);
    MarkField(j.(fin := true), u.nodes, m.nodes, lo, p, 2);
  }

  /** A node that is not the root of the chunk is done after two fields. */
  lemma MarkOn(j: Job, u: Machine, m: Machine, lo: nat, p: Pos, isLeft: bool)
    requires j.(fin := true).Valid() && p.index > 0 && PathAt(j, p, isLeft)
    requires lo <= p.height && Beside(j, u, m, lo, p.height, 2)
    ensures Beside(j, u, m, lo, p.height + 1, 0) && PathAt(j, Parent(p), IsLeft(p))
  {
    hide Job.OnPath, Job.Twofold, Job.IsRoot;
    var j' := j.(fin := true);
    PathUp(j', p);
    forall q | q in u.nodes && j'.OnPath(q) && q.height == p.height ensures q == p {
      PathUnique(j', p, q);
    }
  }

  /** With the root of the chunk marked, the path is. */
  lemma MarkedWhole(j: Job, us: Nodes, ms: Nodes, p: Pos, isLeft: bool, r: Pos)
    requires j.Valid() && Complete(j.top, us) && p in us && j.OnPath(p) && isLeft == !j.Twofold(p)
    requires j.OnPath(r) && r.index == 0 && MarkedTo(j, us, ms, p.height, r.height, 3)
    ensures ms == Finalise(j.top, us, p, isLeft)
  {
    hide Job.Valid, Job.OnPath, Job.Twofold, Job.IsRoot, Finalise;
    var fs := Finalise(j.top, us, p, isLeft);
    forall q | q in us ensures ms[q] == fs[q] {
      Finalised(j, us, p, isLeft, q);
      PathEnds(j, r, q);
      RootOnPath(j, q);
    }
  }

  /** Both machines have the whole tree. */
  lemma BesideTree(j: Job, u: Machine, m: Machine, arrived: set<Pos>, lo: nat, h: nat, stage: nat)
    requires j.Inv(u, arrived) && Beside(j, u, m, lo, h, stage)
    ensures Complete(j.top, u.nodes) && Complete(j.top, m.nodes) && j.Valid()
  {
    hide MarkedTo, Job.Valid;
    assert m.nodes.Keys == u.nodes.Keys by { SameKeys(j.(fin := true), u.nodes, m.nodes, lo, h, stage); }
    assert forall p :: p in m.nodes <==> p in u.nodes;
  }

  lemma SameKeys(j: Job, us: Nodes, ms: Nodes, lo: nat, h: nat, stage: nat)
    requires MarkedTo(j, us, ms, lo, h, stage)
    ensures ms.Keys == us.Keys
  {
  }

  /** The machine beside `u` with the whole path marked. */
  lemma MarkedPath(j: Job, u: Machine, m: Machine, start: Pos, fromLeft: bool, r: Pos, isLeft: bool)
    requires j.(fin := true).Valid() && Complete(j.top, u.nodes) && InTree(j.top, start)
    requires PathAt(j, start, fromLeft) && PathAt(j, r, isLeft) && r.index == 0
    requires Beside(j, u, m, start.height, r.height, 3)
    ensures m == u.(nodes := Finalise(j.top, u.nodes, start, fromLeft))
  {
    hide Job.Valid, Job.OnPath, Job.Twofold, Job.IsRoot, Finalise, MarkedTo;
    MarkedWhole(j.(fin := true), u.nodes, m.nodes, start, fromLeft, r);
  }

  /** A node of the path with all its marks. */
  function MarkedAt(nodes: Nodes, p: Pos, isLeft: bool): Nodes
    requires p in nodes
  {
    nodes[p := nodes[p].(unbalanced := isLeft, right := [], root := nodes[p].root || p.index == 0)]
  }

  lemma FinaliseStep(top: nat, nodes: Nodes, p: Pos, isLeft: bool)
    requires InTree(top, p) && Complete(top, nodes)
    ensures var nodes' := MarkedAt(nodes, p, isLeft);
            && Complete(top, nodes') && (p.index > 0 ==> InTree(top, Parent(p)))
            && Finalise(top, nodes, p, isLeft) ==
                 if p.index == 0 then nodes' else Finalise(top, nodes', Parent(p), IsLeft(p))
  {
  }

  /** Where the marking starts and in which direction. */
  lemma StartAt(j: Job, segment: Bytes)
    requires j.Valid() && !j.fin && j.(fin := true).Valid() && segment == Open(j)
    ensures var p := LastStart(j.size, j.top, j.full, segment);
            PathAt(j, p, if p.height == 1 then true else IsLeft(Pos(1, j.full)))
  {
    hide Value, Offset, Width, Job.Val, Job.Hi, Job.OnPath, Job.Twofold;
    StartOnPath(j.(fin := true));
  }
}
