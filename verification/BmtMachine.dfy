/**
The concurrent tree hasher as a state machine: the nodes of the tree, the goroutines climbing
it, and one transition per iteration of the climbing loop.
*/
module BmtMachine {
  import opened Wrappers
  import opened BmtSpec

  /** A place in the tree; nodes have height 1 (leaves) and up, segments have height 0. */
  datatype Pos = Pos(height: nat, index: nat)

  function Parent(p: Pos): Pos {
    Pos(p.height + 1, p.index / 2)
  }

  predicate IsLeft(p: Pos) {
    p.index % 2 == 0
  }

  function Child(p: Pos, left: bool): Pos {
    Pos(if p.height == 0 then 0 else p.height - 1, 2 * p.index + if left then 0 else 1)
  }

  /** The nodes of a tree whose root has height `top`. */
  predicate InTree(top: nat, p: Pos) {
    1 <= p.height <= top && p.index < Width(1, top - p.height)
  }

  datatype Node = Node(left: Bytes, right: Bytes, state: int, unbalanced: bool, root: bool)

  type Nodes = map<Pos, Node>

  /**
  A goroutine is either about to hash the full pair of segments of a leaf, or about to run one
  iteration of the climbing loop at `node`, arriving from the left or the right.
  */
  datatype Goroutine =
    | Hashing(leaf: nat, d: nat, data: Bytes)
    | Climbing(node: Pos, isLeft: bool, i: nat, d: nat, data: Bytes)

  /** Goroutines are named by the leaf they were started for. */
  datatype Machine = Machine(nodes: Nodes, running: map<nat, Goroutine>, result: Option<Bytes>)

  // ----- the atomic toggle -----

  const MAX_INT32: int := 0x7fff_ffff
  const MIN_INT32: int := -0x8000_0000

  /** A 32-bit increment. */
  function Bump(state: int): int {
    if state == MAX_INT32 then MIN_INT32 else state + 1
  }

  /** The remainder of a division by two, truncated towards zero. */
  function Rem2(x: int): int {
    if x >= 0 then x % 2 else -((-x) % 2)
  }

  /** The answer of a toggle: this goroutine is the first to arrive and leaves. */
  predicate Waits(state: int) {
    Rem2(Bump(state)) == 1
  }

  /**
  A node at rest makes the first of two arrivals leave and lets the second pass exactly as long
  as its counter has not wrapped round.
  */
  lemma ToggleWorks(state: int)
    requires MIN_INT32 <= state <= MAX_INT32 && state % 2 == 0
    ensures Waits(state) <==> state >= 0
    ensures !Waits(Bump(state)) && Bump(Bump(state)) % 2 == 0
  {
  }

  // ----- transitions -----

  /** The node a goroutine is about to touch. */
  function Dest(g: Goroutine): Pos {
    match g
    case Hashing(leaf, _, _) => Pos(1, leaf)
    case Climbing(node, _, _, _, _) => node
  }

  /** The position whose value a goroutine carries. */
  function Edge(g: Goroutine): Pos {
    match g
    case Hashing(leaf, _, _) => Pos(1, leaf)
    case Climbing(node, isLeft, _, _, _) => Child(node, isLeft)
  }

  /** Starting the goroutine for leaf `i` with the bytes `s`. */
  function Start(size: nat, top: nat, i: nat, s: Bytes, d: nat): Goroutine {
    if |s| > size && 1 < top then Hashing(i, d, s) else Climbing(Pos(1, i), true, 2 * i, d, s)
  }

  function Store(node: Node, isLeft: bool, s: Bytes): Node {
    if isLeft then node.(left := s) else node.(right := s)
  }

  /** One atomic step of goroutine `id`. */
  function Advance(H: Hash, m: Machine, id: nat): Machine
    requires id in m.running && Dest(m.running[id]) in m.nodes
  {
    match m.running[id]
    case Hashing(leaf, d, data) =>
      var n := Pos(1, leaf);
      if m.nodes[n].root then
        m.(running := m.running - {id}, result := Some(H(data)))
      else
        m.(running := m.running[id := Climbing(Parent(n), leaf % 2 == 0, leaf, d, H(data))])
    case Climbing(n, isLeft, i, d, data) =>
      var node := Store(m.nodes[n], isLeft, data);
      if !node.unbalanced && Waits(node.state) then
        m.(nodes := m.nodes[n := node.(state := Bump(node.state))], running := m.running - {id})
      else
        var node' := if node.unbalanced then node else node.(state := Bump(node.state));
        var s := if !node.unbalanced || !isLeft || (i == 0 && d == 0) then H(node.left + node.right)
                 else node.left + node.right;
        var m' := m.(nodes := m.nodes[n := node']);
        if node.root then
          m'.(running := m.running - {id}, result := Some(s))
        else
          m'.(running := m.running[id := Climbing(Parent(n), IsLeft(n), i + 1, d, s)])
  }

  /** Marking the path of the last segment, from `p` up to the first node of its level. */
  function Finalise(top: nat, nodes: Nodes, p: Pos, isLeft: bool): (r: Nodes)
    requires InTree(top, p) && Complete(top, nodes)
    ensures r.Keys == nodes.Keys
    decreases p.index
  {
    var n := nodes[p].(unbalanced := isLeft, right := []);
    if p.index == 0 then nodes[p := n.(root := true)]
    else Finalise(top, nodes[p := n], Parent(p), IsLeft(p))
  }

  /** The number of levels `Finalise` climbs. */
  function Climbs(p: Pos): nat
    decreases p.index
  {
    if p.index == 0 then 0 else 1 + Climbs(Parent(p))
  }

  /** Clearing the marks from `p` up to the root of the whole tree. */
  function Release(top: nat, nodes: Nodes, p: Pos): (r: Nodes)
    requires InTree(top, p) && Complete(top, nodes)
    ensures r.Keys == nodes.Keys
    decreases top - p.height
  {
    var n := nodes[p].(unbalanced := false);
    if p.height == top then nodes[p := n]
    else Release(top, nodes[p := n.(root := false)], Parent(p))
  }

  ghost predicate Complete(top: nat, nodes: Nodes) {
    forall p :: p in nodes <==> InTree(top, p)
  }

  /** A tree at rest: nothing is marked and every counter is even and has not wrapped. */
  ghost predicate Clean(top: nat, nodes: Nodes) {
    && Complete(top, nodes)
    && forall p :: p in nodes ==>
         && !nodes[p].unbalanced
         && nodes[p].root == (p.height == top)
         && nodes[p].state % 2 == 0 && 0 <= nodes[p].state <= MAX_INT32
  }
}
