/**
Weighted random selection: a tree of nodes with eight branches each, updated in place, in which a
value below the sum of all weights selects an item.
*/
module RandSelect {
  import opened Wrappers
  import opened SelectTree

  /** What a branch of a node holds. */
  datatype Cell = Vacant | Taken(item: Item) | Branch(node: WrsNode)

  ghost function SlotOf(c: Cell): Slot
    requires c.Branch? ==> c.node.Valid()
    reads if c.Branch? then {c.node} + c.node.repr else {}
    decreases if c.Branch? then c.node.repr else {}, 3
  {
    match c
    case Vacant => Nil
    case Taken(item) => Entry(item)
    case Branch(n) => Sub(n.Tree())
  }

  ghost predicate Apart(c: Cell, d: Cell)
    reads if c.Branch? then {c.node} else {}, if d.Branch? then {d.node} else {}
  {
    c.Branch? && d.Branch? ==> c.node.repr !! d.node.repr
  }

  class WrsNode {
    var cells: seq<Cell>
    var weights: seq<nat>
    var sum: nat
    var level: nat
    var count: nat
    var max: nat
    /** The nodes of the tree under this one. */
    ghost var repr: set<WrsNode>

    /** The subtrees belong to the tree and do not overlap. */
    ghost predicate Valid()
      reads this, repr
      decreases repr, 0
    {
      && this in repr && |cells| == |weights| == BRANCHES
      && (forall i {:trigger cells[i]} :: 0 <= i < BRANCHES && cells[i].Branch? ==>
            cells[i].node in repr && cells[i].node.repr < repr && this !in cells[i].node.repr && cells[i].node.Valid())
      && (forall i, j {:trigger Apart(cells[i], cells[j])} :: 0 <= i < j < BRANCHES ==> Apart(cells[i], cells[j]))
    }

    ghost function SlotAt(i: nat): Slot
      requires Valid() && i < BRANCHES
      reads this, repr
      decreases repr, 1
    {
      SlotOf(cells[i])
    }

    /** The tree as a value. */
    ghost function Tree(): (n: Node)
      requires Valid()
      reads this, repr
      ensures |n.slots| == BRANCHES
      decreases repr, 2
    {
      var slots := [SlotAt(0), SlotAt(1), SlotAt(2), SlotAt(3), SlotAt(4), SlotAt(5), SlotAt(6), SlotAt(7)];
      Node(level, slots, weights, sum, count, max)
    }

    /** A node with nothing in it. */
    constructor (level: nat, max: nat)
      ensures Valid() && fresh(repr) && repr == {this}
      ensures this.level == level && this.max == max && sum == count == 0
      ensures cells == seq(BRANCHES, i => Vacant) && weights == seq(BRANCHES, i => 0)
    {
      cells, weights := seq(BRANCHES, i => Vacant), seq(BRANCHES, i => 0);
      sum, this.level, count, this.max := 0, level, 0, max;
      repr := {this};
    }

    /** A value below the sum selects what the linear scan of the leaves selects. */
    method Choose(val: nat) returns (item: Item, weight: nat)
      requires Valid() && Good(Tree()) && val < sum
      ensures val < Sum(Leaves(Tree())) && Leaves(Tree())[Pick(Leaves(Tree()), val)] == Held(item, weight)
      decreases repr
    {
      hide Pick, RowFrom, RowTo, Capacity, SelectTree.Sum, Tree, Good;
      ghost var n := Tree();
      Shape(n);
      AllSlots(this);
      var left: nat, i: nat := val, 0;
      ChooseStarts(n, val);
      while i < BRANCHES
        invariant 0 <= i <= BRANCHES && left < Sum(RowFrom(n, i))
        invariant Pick(Leaves(n), val) == |RowTo(n, i)| + Pick(RowFrom(n, i), left)
      {
        ChooseStep(n, val, i, left);
        GoodSlot(n, i);
        if left < weights[i] {
          if level == 0 {
            PickOne(cells[i].item, weights[i], left);
            return cells[i].item, weights[i];
          }
          AllSlots(cells[i].node);
          item, weight := cells[i].node.Choose(left);
          return;
        }
        left := left - weights[i];
        i := i + 1;
      }
      ChooseEnds(n);
      assert false;
    }

    /** The test of the loop tells whether the branch is full. */
    ghost predicate Fullness(n: Node, c: Cell, i: nat)
      requires i < |n.slots| && Valid() && c in cells
      reads this, repr
    {
      && (c.Branch? <==> n.slots[i].Sub?) && (c == Vacant <==> n.slots[i] == Nil)
      && (level == 0 ==> !c.Branch?) && (level > 0 ==> !c.Taken?)
      && (Full(level, n.slots[i]) <==> c != Vacant && (level == 0 || c.node.count == c.node.max))
    }

    /** The first branch that is not full. */
    method FindBranch() returns (branch: nat)
      requires Valid() && Good(Tree()) && count < max
      ensures branch < BRANCHES && !Full(level, SlotOf(cells[branch]))
      ensures forall k :: 0 <= k < branch ==> Full(level, SlotOf(cells[k]))
    {
      hide RowFrom, Capacity, Tree, Good, Full;
      ghost var n := Tree();
      Shape(n);
      AllSlots(this);
      branch := 0;
      FullIs(this, n, 0);
      while cells[branch] != Vacant && (level == 0 || cells[branch].node.count == cells[branch].node.max)
        invariant branch < BRANCHES && Fullness(n, cells[branch], branch)
        invariant forall k :: 0 <= k < branch ==> Full(level, n.slots[k])
        decreases BRANCHES - branch
      {
        branch := branch + 1;
        if branch == BRANCHES {
          AllFull(n, 0);
          RowLength(n, 0);
          assert false;
        }
        FullIs(this, n, branch);
      }
    }

    /** `sub` can be the branch: it is there already, or new. */
    ghost predicate Fits(sub: WrsNode, branch: nat)
      requires Valid() && branch < BRANCHES
      reads this, repr, sub, sub.repr
    {
      && sub.Valid() && this !in sub.repr
      && match cells[branch]
         case Vacant => sub.repr !! repr
         case Taken(_) => false
         case Branch(n) => n == sub
    }

    /** The node belongs to the subtree of a branch. */
    ghost predicate Under(branch: nat, o: WrsNode)
      requires Valid() && branch < BRANCHES
      reads this, repr
    {
      cells[branch].Branch? && o in cells[branch].node.repr
    }

    /** A change confined to the subtree of one branch leaves the others as they were. */
    twostate lemma OthersKept(branch: nat)
      requires old(Valid()) && branch < BRANCHES && |cells| == |weights| == BRANCHES && cells[branch].Branch?
      requires forall k {:trigger cells[k]} :: 0 <= k < BRANCHES && k != branch ==> cells[k] == old(cells[k])
      requires cells[branch].node.Valid() && this !in cells[branch].node.repr
      requires repr == old(repr) + cells[branch].node.repr
      requires forall o {:trigger o in old(repr)} :: o in old(repr) && o != this && !old(Under(branch, o)) ==>
                 unchanged(o) && o !in cells[branch].node.repr
      ensures Valid()
      ensures forall k {:trigger SlotOf(cells[k])} ::
                0 <= k < BRANCHES && k != branch ==> SlotOf(cells[k]) == old(SlotOf(cells[k]))
    {
      hide Tree, SlotOf;
      forall k | 0 <= k < BRANCHES && k != branch && cells[k].Branch?
        ensures cells[k].node in repr && cells[k].node.repr < repr
        ensures this !in cells[k].node.repr && cells[k].node.Valid()
        ensures cells[k].node.repr == old(cells[k].node.repr) && cells[k].node.repr !! cells[branch].node.repr
        ensures SlotOf(cells[k]) == old(SlotOf(cells[k]))
      {
        assert old(if k < branch then Apart(cells[k], cells[branch]) else Apart(cells[branch], cells[k]));
        assert forall o :: o in old(cells[k].node.repr) ==> o in old(repr) && !old(Under(branch, o));
      }
      forall i, k | 0 <= i < k < BRANCHES ensures Apart(cells[i], cells[k]) {
        assert old(Apart(cells[i], cells[k]));
      }
    }

    /** The item is inserted in the subtree `sub`, and the numbers of this node follow. */
    method InsertInto(sub: WrsNode, branch: nat, item: Item, weight: nat) returns (j: nat)
      requires Valid() && branch < BRANCHES && Fits(sub, branch)
      requires Good(sub.Tree()) && sub.count < sub.max && weight > 0
      modifies repr, sub.repr
      ensures Valid() && fresh(repr - old(repr) - old(sub.repr))
      ensures level == old(level) && max == old(max) && sum == old(sum) + weight && count == old(count) + 1
      ensures weights == old(weights)[branch := old(weights)[branch] + weight]
      ensures cells == old(cells)[branch := Branch(sub)]
      ensures forall k {:trigger SlotOf(cells[k])} ::
                0 <= k < BRANCHES && k != branch ==> SlotOf(cells[k]) == old(SlotOf(cells[k]))
      ensures sub.Valid() && Follows(old(sub.Tree()), sub.Tree(), j, Held(item, weight))
      ensures Leaves(old(sub.Tree()))[j] == Free
      decreases sub.level, 2
    {
      hide Follows, Good, Tree, RowFrom, SlotOf;
      count, sum := count + 1, sum + weight;
      weights := weights[branch := weights[branch] + weight];
      cells := cells[branch := Branch(sub)];
      j := sub.Insert(item, weight);
      repr := repr + sub.repr;
      OthersKept(branch);
    }

    /** The item becomes a leaf of this node. */
    method InsertLeaf(branch: nat, item: Item, weight: nat)
      requires Valid() && Good(Tree()) && level == 0 && branch < BRANCHES && cells[branch] == Vacant && weight > 0
      modifies this
      ensures Valid() && repr == old(repr)
      ensures Follows(old(Tree()), Tree(), branch, Held(item, weight)) && Leaves(old(Tree()))[branch] == Free
    {
      hide RowFrom, Capacity, SelectTree.Sum, SelectTree.Count, Follows, Full, Good;
      ghost var n := Tree();
      Shape(n);
      SlotsOf(this, branch);
      GoodSlot(n, branch);
      OneMore(item, weight);
      AllLeaves(this);
      count, sum := count + 1, sum + weight;
      weights := weights[branch := weights[branch] + weight];
      cells := cells[branch := Taken(item)];
      LeafInserted(item, weight);
      Updated(this, n, branch, Entry(item), weight);
      BranchFollows(n, branch, Entry(item), weight, 0, Held(item, weight), Tree());
    }

    /** The item goes to the subtree of a branch that is not full. */
    method InsertBranch(branch: nat, item: Item, weight: nat) returns (idx: nat)
      requires Valid() && Good(Tree()) && level > 0 && branch < BRANCHES
      requires !Full(level, SlotOf(cells[branch])) && weight > 0
      modifies repr
      ensures Valid() && fresh(repr - old(repr))
      ensures Follows(old(Tree()), Tree(), idx, Held(item, weight)) && Leaves(old(Tree()))[idx] == Free
      decreases level, 0
    {
      hide RowFrom, Capacity, SelectTree.Sum, SelectTree.Count, Follows, Full, Good, Tree, Leaves;
      ghost var n := Tree();
      Shape(n);
      AllSlots(this);
      GoodSlot(n, branch);
      NotEntry(level, n.slots[branch]);
      var sub := SubFor(branch);
      ghost var t := sub.Tree();
      AllSlots(sub);
      HasRoom(level, n.slots[branch], t);
      var j := InsertInto(sub, branch, item, weight);
      AllSlots(sub);
      Updated(this, n, branch, Sub(sub.Tree()), n.weights[branch] + weight);
      SubFollows(n, branch, t, sub.Tree(), j, item, weight, Tree());
      idx := sub.max * branch + j;
    }

    /** A new item goes to a free leaf; which one is returned. */
    method Insert(item: Item, weight: nat) returns (idx: nat)
      requires Valid() && Good(Tree()) && count < max && weight > 0
      modifies repr
      ensures Valid() && fresh(repr - old(repr))
      ensures Follows(old(Tree()), Tree(), idx, Held(item, weight)) && Leaves(old(Tree()))[idx] == Free
      decreases level, 1
    {
      hide RowFrom, Capacity, SelectTree.Sum, SelectTree.Count, Follows, Full, Good, Tree, Leaves;
      ghost var n := Tree();
      Shape(n);
      var branch := FindBranch();
      if level > 0 {
        idx := InsertBranch(branch, item, weight);
        return;
      }
      AllSlots(this);
      GoodSlot(n, branch);
      NotEntry(level, n.slots[branch]);
      InsertLeaf(branch, item, weight);
      return branch;
    }

    /** The weight is set in the subtree of a branch, and the numbers of this node follow. */
    method SetWeightInto(branch: nat, j: nat, weight: nat) returns (diff: int)
      requires Valid() && branch < BRANCHES && cells[branch].Branch? && Good(cells[branch].node.Tree())
      requires j < |Leaves(cells[branch].node.Tree())| && Leaves(cells[branch].node.Tree())[j].Held?
      requires var l := Leaves(cells[branch].node.Tree())[j];
               l.weight <= weights[branch] && l.weight <= sum && count > 0
      modifies repr
      ensures Valid() && repr == old(repr)
      ensures level == old(level) && max == old(max) && cells == old(cells)
      ensures var l := Leaves(old(cells[branch].node.Tree()))[j];
              && diff == weight - l.weight && sum == old(sum) + diff
              && count == old(count) - (if weight == 0 then 1 else 0)
              && old(weights)[branch] + diff >= 0 && weights == old(weights)[branch := old(weights)[branch] + diff]
              && Follows(old(cells[branch].node.Tree()), cells[branch].node.Tree(), j, Reweighed(l, weight))
      ensures forall k {:trigger SlotOf(cells[k])} ::
                0 <= k < BRANCHES && k != branch ==> SlotOf(cells[k]) == old(SlotOf(cells[k]))
      decreases repr, 0
    {
      hide Follows, Good, Tree, RowFrom, SlotOf;
      var sub := cells[branch].node;
      diff := sub.SetWeight(j, weight);
      weights := weights[branch := weights[branch] + diff];
      sum := sum + diff;
      if weight == 0 {
        count := count - 1;
      }
      OthersKept(branch);
    }

    /** The weight of the item at a leaf is set; the change is returned. */
    method SetWeight(idx: nat, weight: nat) returns (diff: int)
      requires Valid() && Good(Tree()) && idx < |Leaves(Tree())| && Leaves(Tree())[idx].Held?
      modifies repr
      ensures Valid() && repr == old(repr)
      ensures var l := Leaves(old(Tree()))[idx];
              Follows(old(Tree()), Tree(), idx, Reweighed(l, weight)) && diff == weight - l.weight
      decreases repr, 1
    {
      hide RowFrom, Capacity, SelectTree.Sum, SelectTree.Count, Follows, Good, Tree, Place, SlotSize;
      ghost var n := Tree();
      ghost var l := Leaves(n)[idx];
      Shape(n);
      AllSlots(this);
      SumAtLeast(Leaves(n), idx);
      HeldCounts(l.item, l.weight, weight);
      if level == 0 {
        diff := SetLeaf(idx, weight);
        return;
      }
      var branch, j := Locate(idx);
      GoodSlot(n, branch);
      SubWeight(n, branch, j);
      ghost var t := cells[branch].node.Tree();
      diff := SetWeightInto(branch, j, weight);
      SubSum(t, cells[branch].node.Tree(), j, Reweighed(l, weight));
      Updated(this, n, branch, Sub(cells[branch].node.Tree()), n.weights[branch] + diff);
      BranchFollows(n, branch, Sub(cells[branch].node.Tree()), n.weights[branch] + diff, j, Reweighed(l, weight),
                    Tree());
    }

    /** The weight of a leaf of this node is set. */
    method SetLeaf(idx: nat, weight: nat) returns (diff: int)
      requires Valid() && Good(Tree()) && level == 0 && idx < |Leaves(Tree())| && Leaves(Tree())[idx].Held?
      modifies this
      ensures Valid() && repr == old(repr)
      ensures var l := Leaves(old(Tree()))[idx];
              Follows(old(Tree()), Tree(), idx, Reweighed(l, weight)) && diff == weight - l.weight
    {
      hide RowFrom, Capacity, SelectTree.Sum, SelectTree.Count, Follows, Good, Tree;
      ghost var n := Tree();
      ghost var l := Leaves(n)[idx];
      Shape(n);
      AllSlots(this);
      AllLeaves(this);
      LeafAt(n, idx);
      GoodSlot(n, idx);
      SumAtLeast(Leaves(n), idx);
      HeldCounts(l.item, l.weight, weight);
      diff := weight - weights[idx];
      weights := weights[idx := weight];
      sum := sum + diff;
      if weight == 0 {
        cells := cells[idx := Vacant];
        count := count - 1;
      }
      LeafReweighed(l.item, l.weight, weight);
      Updated(this, n, idx, if weight == 0 then Nil else Entry(l.item), weight);
      BranchFollows(n, idx, if weight == 0 then Nil else Entry(l.item), weight, 0, Reweighed(l, weight), Tree());
    }

    /** The branch of a leaf and its place there. */
    method Locate(idx: nat) returns (branch: nat, j: nat)
      requires Valid() && Good(Tree()) && level > 0 && idx < |Leaves(Tree())| && Leaves(Tree())[idx].Held?
      ensures branch < BRANCHES && Place(level, branch, j) == idx && cells[branch].Branch?
      ensures j < |Leaves(cells[branch].node.Tree())| && Leaves(cells[branch].node.Tree())[j] == Leaves(Tree())[idx]
    {
      hide RowFrom, Good, Capacity, Tree;
      ghost var n := Tree();
      Shape(n);
      AllSlots(this);
      CapacityIs(level);
      var branchItems := max / BRANCHES;
      branch := idx / branchItems;
      FindsLeaf(n, idx, branch, idx - branch * branchItems);
      GoodSlot(n, branch);
      j := idx - branch * branchItems;
    }

    /** The subtree at a branch, or a new one. */
    method SubFor(branch: nat) returns (sub: WrsNode)
      requires Valid() && Good(Tree()) && level > 0 && branch < BRANCHES && !cells[branch].Taken?
      ensures Fits(sub, branch) && Good(sub.Tree()) && sub.level == level - 1
      ensures cells[branch] == Vacant ==> fresh(sub.repr) && sub.Tree() == Fresh(level - 1)
      ensures cells[branch].Branch? ==> SlotOf(cells[branch]) == Sub(sub.Tree())
    {
      hide RowFrom, Capacity, SelectTree.Sum, SelectTree.Count, Good, Tree;
      Shape(Tree());
      AllSlots(this);
      GoodSlot(Tree(), branch);
      if cells[branch] == Vacant {
        sub := new WrsNode(level - 1, max / BRANCHES);
        FreshTree(sub, level);
        FreshIs(level - 1);
      } else {
        sub := cells[branch].node;
      }
      AllSlots(sub);
    }
  }

  /** A tree is known by its slots and its numbers. */
  lemma TreeIs(n: WrsNode, t: Node)
    requires n.Valid() && |t.slots| == BRANCHES && forall i :: 0 <= i < BRANCHES ==> SlotOf(n.cells[i]) == t.slots[i]
    requires t == Node(n.level, t.slots, n.weights, n.sum, n.count, n.max)
    ensures n.Tree() == t
  {
    forall i | 0 <= i < BRANCHES ensures n.Tree().slots[i] == t.slots[i] {
      SlotsOf(n, i);
    }
  }

  lemma SlotsOf(n: WrsNode, i: nat)
    requires n.Valid() && i < BRANCHES
    ensures n.Tree().slots[i] == SlotOf(n.cells[i])
  {
  }

  lemma GoodSlot(n: Node, i: nat)
    requires Good(n) && i < BRANCHES
    ensures SlotOk(n.level, n.slots[i], n.weights[i])
  {
  }

  lemma FreshTree(n: WrsNode, level: nat)
    requires level > 0 && n.Valid() && n.level == level - 1
    requires n.max == Capacity(level) / BRANCHES && n.sum == n.count == 0
    requires n.cells == seq(BRANCHES, i => Vacant) && n.weights == seq(BRANCHES, i => 0)
    ensures n.Tree() == Fresh(level - 1)
  {
    CapacityIs(level);
    TreeIs(n, Fresh(level - 1));
  }

  lemma FreshRoot(n: WrsNode)
    requires n.Valid() && n.level == n.sum == n.count == 0 && n.max == BRANCHES
    requires n.cells == seq(BRANCHES, i => Vacant) && n.weights == seq(BRANCHES, i => 0)
    ensures n.Tree() == Fresh(0)
  {
    hide WrsNode.Tree;
    TreeIs(n, Fresh(0));
  }

  lemma FreshIndexed()
    ensures Good(Fresh(0)) && Indexes(Leaves(Fresh(0)), map[]) && Stored(Leaves(Fresh(0)), map[]) == map[]
  {
    FreshIs(0);
  }

  lemma LeafInserted(item: Item, weight: nat)
    ensures SlotRow(0, Entry(item), weight) == SlotRow(0, Nil, 0)[0 := Held(item, weight)]
  {
  }

  /** The tree after one of its branches was replaced. */
  lemma Updated(n: WrsNode, t: Node, i: nat, slot: Slot, weight: nat)
    requires n.Valid() && |t.slots| == |t.weights| == BRANCHES && i < BRANCHES && SlotOf(n.cells[i]) == slot
    requires forall k :: 0 <= k < BRANCHES && k != i ==> SlotOf(n.cells[k]) == t.slots[k]
    requires n.level == t.level && n.max == t.max && n.weights == t.weights[i := weight]
    ensures n.Tree() == Patched(t, i, slot, weight).(sum := n.sum, count := n.count)
  {
    TreeIs(n, Patched(t, i, slot, weight).(sum := n.sum, count := n.count));
  }

  /** A node of the lowest level has no subtrees. */
  lemma AllLeaves(n: WrsNode)
    requires n.Valid() && Good(n.Tree()) && n.level == 0
    ensures forall i :: 0 <= i < BRANCHES ==> !n.cells[i].Branch?
  {
    forall i | 0 <= i < BRANCHES ensures !n.cells[i].Branch? {
      SlotsOf(n, i);
      GoodSlot(n.Tree(), i);
    }
  }

  lemma AllSlots(n: WrsNode)
    requires n.Valid()
    ensures forall i {:trigger n.Tree().slots[i]} {:trigger SlotOf(n.cells[i])} ::
              0 <= i < BRANCHES ==> n.Tree().slots[i] == SlotOf(n.cells[i])
    ensures n.Tree() == Node(n.level, n.Tree().slots, n.weights, n.sum, n.count, n.max)
  {
    forall i | 0 <= i < BRANCHES ensures n.Tree().slots[i] == SlotOf(n.cells[i]) {
      SlotsOf(n, i);
    }
  }

  lemma FullIs(n: WrsNode, t: Node, i: nat)
    requires n.Valid() && t == n.Tree() && Good(t) && i < BRANCHES
    ensures n.Fullness(t, n.cells[i], i)
  {
    hide WrsNode.Tree, Good;
    AllSlots(n);
    GoodSlot(t, i);
    if n.cells[i].Branch? {
      AllSlots(n.cells[i].node);
    }
  }

  /** A new root over the old one. */
  method NewLevel(root: WrsNode) returns (n: WrsNode)
    requires root.Valid() && Good(root.Tree())
    ensures n.Valid() && fresh(n) && n.repr == root.repr + {n} && n.Tree() == Raised(root.Tree())
  {
    hide RowFrom, Capacity, SelectTree.Sum, SelectTree.Count, Good, WrsNode.Tree;
    AllSlots(root);
    n := new WrsNode(root.level + 1, root.max * BRANCHES);
    n.cells := n.cells[0 := Branch(root)];
    n.weights := n.weights[0 := root.sum];
    n.sum, n.count := root.sum, root.count;
    n.repr := n.repr + root.repr;
    assert n.Valid();
    TreeIs(n, Raised(root.Tree()));
  }

  class Selector {
    var root: WrsNode
    var idx: map<Item, nat>

    ghost predicate Valid()
      reads this, root, root.repr
    {
      root.Valid() && Good(root.Tree()) && Indexes(Leaves(root.Tree()), idx)
    }

    ghost function Weights(): map<Item, nat>
      requires Valid()
      reads this, root, root.repr
    {
      Stored(Leaves(root.Tree()), idx)
    }

    /** The leaves from the left. */
    ghost function Leafage(): Row
      requires Valid()
      reads this, root, root.repr
    {
      Leaves(root.Tree())
    }

    constructor ()
      ensures Valid() && Weights() == map[] && fresh(root.repr)
    {
      root := new WrsNode(0, BRANCHES);
      idx := map[];
      new;
      hide Good, Indexes, Stored, WrsNode.Tree, WrsNode.Valid;
      FreshRoot(root);
      FreshIndexed();
    }

    /** The weight of an item is set; weight zero removes it. */
    method SetWeight(item: Item, weight: nat)
      requires Valid()
      modifies this, root.repr
      ensures Valid() && fresh(root.repr - old(root.repr))
      ensures Weights() == if weight == 0 then old(Weights()) - {item} else old(Weights())[item := weight]
      ensures root.sum == old(root.sum) + weight - if item in old(Weights()) then old(Weights())[item] else 0
      ensures item in old(idx) ==>
                var row, k := old(Leafage()), old(idx)[item];
                k < |row| && row[k].Held? && Leafage() == row[k := Reweighed(row[k], weight)]
    {
      hide Good, Indexes, RowFrom, Capacity, SelectTree.Sum, SelectTree.Count, WrsNode.Tree, WrsNode.Valid;
      IndexFacts(root.Tree(), idx, item);
      AllSlots(root);
      if item in idx {
        ghost var before := root.Tree();
        IndexChanged(Leaves(before), idx, item, weight);
        var _ := root.SetWeight(idx[item], weight);
        SubSum(before, root.Tree(), idx[item], Reweighed(Leaves(before)[idx[item]], weight));
        AllSlots(root);
        if weight == 0 {
          idx := idx - {item};
        }
      } else if weight != 0 {
        if root.count == root.max {
          RaisedIs(root.Tree());
          IndexRaised(Leaves(root.Tree()), idx, (BRANCHES - 1) * Capacity(root.level));
          root := NewLevel(root);
          AllSlots(root);
        }
        HasSpace(root.Tree());
        ghost var before := root.Tree();
        var k := root.Insert(item, weight);
        SubSum(before, root.Tree(), k, Held(item, weight));
        AllSlots(root);
        IndexAdded(Leaves(before), idx, item, weight, k);
        idx := idx[item := k];
      }
    }

    /** Of the values below the sum exactly as many draw an item as its weight. */
    lemma DrawnFairly(item: Item)
      requires Valid()
      ensures root.sum == Sum(Leafage())
      ensures |Drawing(Leafage(), item)| == if item in Weights() then Weights()[item] else 0
    {
      hide Good, Indexes, SelectTree.Sum, WrsNode.Tree, WrsNode.Valid, Drawing;
      AllSlots(root);
      Shape(root.Tree());
      DrawnBy(Leafage(), idx, item);
    }

    /** One draw, by the value `val`: the item that the scan of the leaves picks; its weight is corrected. */
    method Draw(val: nat, weigh: Item -> nat) returns (item: Item, last: nat, weight: nat)
      requires Valid() && val < root.sum
      modifies this, root.repr
      ensures Valid() && fresh(root.repr - old(root.repr))
      ensures val in Drawing(old(Leafage()), item)
      ensures var row := old(Leafage());
              && val < Sum(row) && row[Pick(row, val)] == Held(item, last) && last > 0 && weight == weigh(item)
              && Leafage() == row[Pick(row, val) := Reweighed(row[Pick(row, val)], weight)]
      ensures item in old(Weights()) && last == old(Weights())[item]
      ensures Weights() == if weight == 0 then old(Weights()) - {item} else old(Weights())[item := weight]
      ensures root.sum == old(root.sum) + weight - last
    {
      hide Good, Indexes, RowFrom, Capacity, SelectTree.Sum, SelectTree.Count, Pick, WrsNode.Tree, WrsNode.Valid;
      ghost var n := root.Tree();
      Shape(n);
      AllSlots(root);
      NothingLeft(n, idx);
      item, last := root.Choose(val);
      PickedStored(Leaves(n), idx, Pick(Leaves(n), val), item, last);
      weight := weigh(item);
      if weight != last {
        SetWeight(item, weight);
      } else {
        assert Leaves(n)[Pick(Leaves(n), val) := Held(item, last)] == Leaves(n);
      }
    }

    /**
    A random choice. At the `i`-th draw `weigh(i, item)` is the weight an item turns out to have, and
    the two random numbers come from `vals` and `agains`. If the weight has changed it is corrected,
    and the choice is drawn again with the chance that it has fallen.
    */
    method Choose(weigh: (nat, Item) -> nat, vals: nat -> nat, agains: nat -> nat)
      returns (choice: Option<Item>, ghost draws: nat)
      requires Valid()
      modifies this, root.repr
      ensures Valid() && fresh(root.repr - old(root.repr)) && Corrected(old(Weights()), Weights(), weigh, draws)
      ensures Retry(choice, Leafage(), draws) == Retried(old(Leafage()), weigh, vals, agains, 0)
      ensures choice == None ==> Weights() == map[]
      ensures choice.Some? ==>
                && choice.value in Weights() && draws > 0
                && Weights()[choice.value] == weigh(draws - 1, choice.value) > 0
      ensures var row := old(Leafage());
              Sum(row) > 0 ==>
                var l := row[Pick(row, vals(0) % Sum(row))];
                && l.Held? && l.weight > 0
                && (choice.Some? && draws == 1 <==>
                    weigh(0, l.item) >= l.weight || agains(0) % l.weight < weigh(0, l.item))
                && (choice.Some? && draws == 1 ==> choice.value == l.item)
    {
      hide Valid, Weights, Leafage, Corrected, WrsNode.Valid, WrsNode.Tree, Retried, SelectTree.Sum, Pick, Drawing;
      ghost var w0, row0 := Weights(), Leafage();
      CorrectedNone(w0, weigh);
      FirstDraw(row0, weigh, vals, agains);
      var i: nat := 0;
      while true
        invariant Valid() && fresh(root.repr - old(root.repr)) && Corrected(w0, Weights(), weigh, i)
        invariant Retried(row0, weigh, vals, agains, 0) == Retried(Leafage(), weigh, vals, agains, i)
        decreases root.sum
      {
        ghost var w, row := Weights(), Leafage();
        DrawnFairly(0);
        RetriedUnfolds(row, weigh, vals, agains, i);
        if root.sum == 0 {
          Emptied();
          return None, i;
        }
        var item, last, weight := Draw(vals(i) % root.sum, x => weigh(i, x));
        CorrectedMore(w0, w, Weights(), weigh, i, item);
        var again := agains(i) % last;
        i := i + 1;
        if weight >= last || again < weight {
          return Some(item), i;
        }
      }
    }

    lemma Emptied()
      requires Valid() && root.sum == 0
      ensures Weights() == map[]
    {
      hide Good, Indexes, RowFrom, Capacity, SelectTree.Sum, SelectTree.Count, WrsNode.Tree, WrsNode.Valid;
      Shape(root.Tree());
      AllSlots(root);
      NothingLeft(root.Tree(), idx);
    }
  }

  /** The item turned out to have this weight at one of the draws. */
  ghost predicate Asked(weigh: (nat, Item) -> nat, draws: nat, item: Item, weight: nat) {
    exists i: nat :: i < draws && weigh(i, item) == weight
  }

  /** Weights change only to what they turned out to be, and items go only if that is zero. */
  ghost predicate Corrected(w: map<Item, nat>, w': map<Item, nat>, weigh: (nat, Item) -> nat, draws: nat) {
    && w'.Keys <= w.Keys
    && (forall item :: item in w' ==> w'[item] == w[item] || Asked(weigh, draws, item, w'[item]))
    && (forall item :: item in w && item !in w' ==> Asked(weigh, draws, item, 0))
  }

  lemma CorrectedNone(w: map<Item, nat>, weigh: (nat, Item) -> nat)
    ensures Corrected(w, w, weigh, 0)
  {
  }

  lemma CorrectedMore(w0: map<Item, nat>, w: map<Item, nat>, w': map<Item, nat>,
                      weigh: (nat, Item) -> nat, i: nat, item: Item)
    requires Corrected(w0, w, weigh, i) && item in w
    requires w' == if weigh(i, item) == 0 then w - {item} else w[item := weigh(i, item)]
    ensures Corrected(w0, w', weigh, i + 1)
  {
    assert Asked(weigh, i + 1, item, weigh(i, item));
    forall other: Item, weight: nat | Asked(weigh, i, other, weight) ensures Asked(weigh, i + 1, other, weight) {
    }
  }

  lemma RetriedUnfolds(row: Row, weigh: (nat, Item) -> nat, vals: nat -> nat, agains: nat -> nat, i: nat)
    ensures Sum(row) == 0 ==> Retried(row, weigh, vals, agains, i) == Retry(None, row, i)
    ensures Sum(row) > 0 ==>
              var k := Pick(row, vals(i) % Sum(row));
              && row[k].Held? && row[k].weight > 0
              && var weight := weigh(i, row[k].item);
                 var row' := row[k := Reweighed(row[k], weight)];
                 Retried(row, weigh, vals, agains, i) ==
                   if weight >= row[k].weight || agains(i) % row[k].weight < weight
                   then Retry(Some(row[k].item), row', i + 1)
                   else Retried(row', weigh, vals, agains, i + 1)
  {
    if Sum(row) > 0 {
      PickedHeld(row, vals(i) % Sum(row));
    }
  }

  /** More than one draw is made exactly if the first one is not taken. */
  lemma FirstDraw(row: Row, weigh: (nat, Item) -> nat, vals: nat -> nat, agains: nat -> nat)
    ensures Sum(row) > 0 ==>
              var l, d := row[Pick(row, vals(0) % Sum(row))], Retried(row, weigh, vals, agains, 0);
              && l.Held? && l.weight > 0
              && (d.choice.Some? && d.draws == 1 <==>
                  weigh(0, l.item) >= l.weight || agains(0) % l.weight < weigh(0, l.item))
              && (d.choice.Some? && d.draws == 1 ==> d.choice.value == l.item)
  {
    hide Retried, SelectTree.Sum, Pick;
    RetriedUnfolds(row, weigh, vals, agains, 0);
    if Sum(row) > 0 {
      var k := Pick(row, vals(0) % Sum(row));
      RetriedLater(row[k := Reweighed(row[k], weigh(0, row[k].item))], weigh, vals, agains, 1);
    }
  }

  lemma {:induction false} RetriedLater(row: Row, weigh: (nat, Item) -> nat, vals: nat -> nat,
                                        agains: nat -> nat, i: nat)
    ensures var d := Retried(row, weigh, vals, agains, i); d.draws >= i && (d.choice.Some? ==> d.draws > i)
    decreases Sum(row)
  {
    if Sum(row) > 0 {
      var k := Pick(row, vals(i) % Sum(row));
      PickedHeld(row, vals(i) % Sum(row));
      var weight := weigh(i, row[k].item);
      Changed(row, k, Reweighed(row[k], weight));
      if !(weight >= row[k].weight || agains(i) % row[k].weight < weight) {
        RetriedLater(row[k := Reweighed(row[k], weight)], weigh, vals, agains, i + 1);
      }
    }
  }
}
