/**
What a selection tree means: the row of its leaves, scanned from the left. A tree is here a value, the
picture of the nodes in memory.
*/
module SelectTree {
  import opened Wrappers

  type Item = nat

  const BRANCHES := 8

  datatype Slot = Nil | Entry(item: Item) | Sub(node: Node)

  datatype Node = Node(level: nat, slots: seq<Slot>, weights: seq<nat>, sum: nat, count: nat, max: nat)

  // ----- rows of leaves -----

  datatype Leaf = Free | Held(item: Item, weight: nat)

  type Row = seq<Leaf>

  function Weight(l: Leaf): nat {
    if l.Held? then l.weight else 0
  }

  function Sum(row: Row): nat {
    if row == [] then 0 else Weight(row[0]) + Sum(row[1..])
  }

  function Count(row: Row): nat {
    if row == [] then 0 else (if row[0].Held? then 1 else 0) + Count(row[1..])
  }

  /** The linear scan: the first leaf at which the cumulative weight exceeds the value. */
  function Pick(row: Row, val: nat): (k: nat)
    requires val < Sum(row)
    ensures k < |row|
  {
    if val < Weight(row[0]) then 0 else 1 + Pick(row[1..], val - Weight(row[0]))
  }

  /** Every leaf is picked by exactly as many values as its weight, starting at the sum of those before it. */
  lemma {:induction false} PickedBy(row: Row, val: nat, k: nat)
    requires val < Sum(row) && k < |row|
    ensures Pick(row, val) == k <==> Sum(row[..k]) <= val < Sum(row[..k]) + Weight(row[k])
  {
    if k == 0 {
      assert row[..0] == [];
    } else {
      assert row[..k][1..] == row[1..][..k - 1];
      if val >= Weight(row[0]) {
        PickedBy(row[1..], val - Weight(row[0]), k - 1);
      }
    }
  }

  lemma {:induction false} Joined(a: Row, b: Row)
    ensures Sum(a + b) == Sum(a) + Sum(b) && Count(a + b) == Count(a) + Count(b)
  {
    if a == [] {
      assert a + b == b;
    } else {
      assert (a + b)[1..] == a[1..] + b;
      Joined(a[1..], b);
    }
  }

  lemma {:induction false} PickJoined(a: Row, b: Row, val: nat)
    requires val < Sum(a + b)
    ensures Sum(a + b) == Sum(a) + Sum(b)
    ensures Pick(a + b, val) == if val < Sum(a) then Pick(a, val) else |a| + Pick(b, val - Sum(a))
  {
    Joined(a, b);
    if a == [] {
      assert a + b == b;
    } else {
      assert (a + b)[1..] == a[1..] + b;
      if val >= Weight(a[0]) {
        PickJoined(a[1..], b, val - Weight(a[0]));
      }
    }
  }

  /** Changing one leaf. */
  lemma {:induction false} Changed(row: Row, k: nat, l: Leaf)
    requires k < |row|
    ensures Sum(row[k := l]) == Sum(row) - Weight(row[k]) + Weight(l)
    ensures Count(row[k := l]) == Count(row) - Count([row[k]]) + Count([l])
  {
    if k == 0 {
      assert row[0 := l][1..] == row[1..];
    } else {
      assert row[k := l][1..] == row[1..][k - 1 := l];
      Changed(row[1..], k - 1, l);
    }
  }

  /** A row is full exactly if no leaf is free. */
  lemma {:induction false} CountAtMost(row: Row)
    ensures Count(row) <= |row|
    ensures Count(row) == |row| <==> forall k :: 0 <= k < |row| ==> row[k].Held?
  {
    if row != [] {
      CountAtMost(row[1..]);
      assert row == [row[0]] + row[1..];
    }
  }

  function Frees(n: nat): (row: Row)
    ensures |row| == n && forall k :: 0 <= k < n ==> row[k] == Free
  {
    seq(n, i => Free)
  }

  lemma {:induction false} FreesEmpty(n: nat)
    ensures Sum(Frees(n)) == 0 && Count(Frees(n)) == 0
  {
    if n > 0 {
      assert Frees(n)[1..] == Frees(n - 1);
      FreesEmpty(n - 1);
    }
  }

  // ----- the row of a tree -----

  /** How many leaves there are under a node. */
  function Capacity(level: nat): (c: nat)
    ensures c > 0
  {
    if level == 0 then BRANCHES else BRANCHES * Capacity(level - 1)
  }

  function SlotSize(level: nat): (c: nat)
    ensures c > 0
  {
    if level == 0 then 1 else Capacity(level - 1)
  }

  function SlotRow(level: nat, slot: Slot, weight: nat): Row
    decreases slot, 0
  {
    match slot
    case Nil => Frees(SlotSize(level))
    case Entry(item) => [Held(item, weight)]
    case Sub(node) => RowFrom(node, 0)
  }

  /** The leaves under the branches from `i` on. */
  function RowFrom(n: Node, i: nat): Row
    decreases n, 1 + if i <= |n.slots| then |n.slots| - i else 0
  {
    if i >= |n.slots| || i >= |n.weights| then [] else SlotRow(n.level, n.slots[i], n.weights[i]) + RowFrom(n, i + 1)
  }

  ghost predicate SlotOk(level: nat, slot: Slot, weight: nat)
    decreases slot, 0
  {
    match slot
    case Nil => weight == 0
    case Entry(_) => level == 0 && weight > 0
    case Sub(node) => level > 0 && node.level == level - 1 && weight == node.sum && Good(node)
  }

  ghost predicate Good(n: Node)
    decreases n, 1
  {
    && |n.slots| == |n.weights| == BRANCHES && n.max == Capacity(n.level)
    && n.sum == Sum(RowFrom(n, 0)) && n.count == Count(RowFrom(n, 0))
    && forall i :: 0 <= i < BRANCHES ==> SlotOk(n.level, n.slots[i], n.weights[i])
  }

  function Leaves(n: Node): Row {
    RowFrom(n, 0)
  }

  lemma {:induction false} SlotIs(level: nat, slot: Slot, weight: nat)
    requires SlotOk(level, slot, weight)
    ensures |SlotRow(level, slot, weight)| == SlotSize(level) && Sum(SlotRow(level, slot, weight)) == weight
    decreases slot, 0
  {
    match slot
    case Nil => FreesEmpty(SlotSize(level));
    case Entry(_) =>
    case Sub(node) => RowLength(node, 0);
  }

  lemma {:induction false} RowLength(n: Node, i: nat)
    requires Good(n) && i <= BRANCHES
    ensures |RowFrom(n, i)| == (BRANCHES - i) * SlotSize(n.level)
    ensures i == 0 ==> |RowFrom(n, i)| == Capacity(n.level)
    decreases n, 1 + BRANCHES - i
  {
    if i < BRANCHES {
      SlotIs(n.level, n.slots[i], n.weights[i]);
      RowLength(n, i + 1);
      Distribute(BRANCHES - i, SlotSize(n.level));
    }
  }

  lemma Distribute(k: nat, s: nat)
    requires k > 0
    ensures k * s == s + (k - 1) * s
  {
  }

  /** The leaves under the branches below `i`. */
  function RowTo(n: Node, i: nat): Row
    requires i <= |n.slots| && i <= |n.weights|
  {
    if i == 0 then [] else RowTo(n, i - 1) + SlotRow(n.level, n.slots[i - 1], n.weights[i - 1])
  }

  lemma {:induction false} RowSplits(n: Node, i: nat)
    requires Good(n) && i <= BRANCHES
    ensures Leaves(n) == RowTo(n, i) + RowFrom(n, i) && |RowTo(n, i)| == i * SlotSize(n.level)
  {
    if i > 0 {
      RowSplits(n, i - 1);
      SlotIs(n.level, n.slots[i - 1], n.weights[i - 1]);
      Distribute(i, SlotSize(n.level));
    }
  }

  /** One branch of a node is replaced. */
  function Patched(n: Node, i: nat, slot: Slot, weight: nat): Node
    requires i < |n.slots| && i < |n.weights|
  {
    n.(slots := n.slots[i := slot], weights := n.weights[i := weight])
  }

  lemma {:induction false} RowToPatched(n: Node, i: nat, slot: Slot, weight: nat, k: nat)
    requires Good(n) && k <= i < BRANCHES
    ensures RowTo(Patched(n, i, slot, weight), k) == RowTo(n, k)
    decreases k
  {
    if k > 0 {
      RowToPatched(n, i, slot, weight, k - 1);
    }
  }

  lemma {:induction false} RowFromPatched(n: Node, i: nat, slot: Slot, weight: nat, k: nat)
    requires Good(n) && i < k <= BRANCHES && i < BRANCHES
    ensures RowFrom(Patched(n, i, slot, weight), k) == RowFrom(n, k)
    decreases BRANCHES - k
  {
    if k < BRANCHES {
      RowFromPatched(n, i, slot, weight, k + 1);
    }
  }

  lemma {:induction false} RowToFrom(n: Node, i: nat)
    requires |n.slots| == |n.weights| == BRANCHES && i <= BRANCHES
    ensures Leaves(n) == RowTo(n, i) + RowFrom(n, i)
  {
    if i > 0 {
      RowToFrom(n, i - 1);
    }
  }

  /** Where the `j`-th leaf of a branch is in the row of its node. */
  function Place(level: nat, branch: nat, j: nat): nat {
    branch * SlotSize(level) + j
  }

  /** Changing one leaf of one branch changes that leaf of the whole row. */
  lemma LeafPatched(n: Node, i: nat, slot: Slot, weight: nat, j: nat, l: Leaf)
    requires Good(n) && i < BRANCHES && j < SlotSize(n.level)
    requires j < |SlotRow(n.level, n.slots[i], n.weights[i])|
    requires SlotRow(n.level, slot, weight) == SlotRow(n.level, n.slots[i], n.weights[i])[j := l]
    ensures Place(n.level, i, j) < |Leaves(n)| == Capacity(n.level)
    ensures Leaves(n)[Place(n.level, i, j)] == SlotRow(n.level, n.slots[i], n.weights[i])[j]
    ensures Leaves(Patched(n, i, slot, weight)) == Leaves(n)[Place(n.level, i, j) := l]
  {
    hide Good, SlotRow, RowTo, RowFrom, SlotSize, Capacity;
    Shape(n);
    var n', s := Patched(n, i, slot, weight), SlotRow(n.level, n.slots[i], n.weights[i]);
    RowLength(n, 0);
    RowSplits(n, i);
    RowToFrom(n', i);
    RowToPatched(n, i, slot, weight, i);
    RowFromPatched(n, i, slot, weight, i + 1);
    RowSteps(n, i);
    RowSteps(n', i);
    MidChanged(RowTo(n, i), s, RowFrom(n, i + 1), j, l);
  }

  lemma RowSteps(n: Node, i: nat)
    requires |n.slots| == |n.weights| == BRANCHES && i < BRANCHES
    ensures RowFrom(n, i) == SlotRow(n.level, n.slots[i], n.weights[i]) + RowFrom(n, i + 1)
  {
  }

  lemma MidChanged(before: Row, s: Row, after: Row, j: nat, l: Leaf)
    requires j < |s|
    ensures (before + (s + after))[|before| + j] == s[j]
    ensures (before + (s + after))[|before| + j := l] == before + (s[j := l] + after)
  {
  }

  lemma Shape(n: Node)
    requires Good(n)
    ensures |n.slots| == |n.weights| == BRANCHES && n.max == Capacity(n.level)
    ensures n.sum == Sum(Leaves(n)) && n.count == Count(Leaves(n))
  {
  }

  // ----- choosing -----

  lemma ChooseStep(n: Node, val: nat, i: nat, left: nat)
    requires Good(n) && val < n.sum && i < BRANCHES && left < Sum(RowFrom(n, i))
    requires Pick(Leaves(n), val) == |RowTo(n, i)| + Pick(RowFrom(n, i), left)
    ensures var s := SlotRow(n.level, n.slots[i], n.weights[i]);
            && Sum(s) == n.weights[i]
            && (left < n.weights[i] ==>
                  && Pick(Leaves(n), val) == |RowTo(n, i)| + Pick(s, left)
                  && Leaves(n)[Pick(Leaves(n), val)] == s[Pick(s, left)])
            && (left >= n.weights[i] ==>
                  && left - n.weights[i] < Sum(RowFrom(n, i + 1))
                  && Pick(Leaves(n), val) == |RowTo(n, i + 1)| + Pick(RowFrom(n, i + 1), left - n.weights[i]))
  {
    hide Pick, Capacity, SlotSize;
    var s := SlotRow(n.level, n.slots[i], n.weights[i]);
    SlotIs(n.level, n.slots[i], n.weights[i]);
    PickJoined(s, RowFrom(n, i + 1), left);
    RowToFrom(n, i);
  }

  lemma ChooseStarts(n: Node, val: nat)
    requires Good(n) && val < n.sum
    ensures val < Sum(RowFrom(n, 0)) && Pick(Leaves(n), val) == |RowTo(n, 0)| + Pick(RowFrom(n, 0), val)
  {
  }

  lemma PickOne(item: Item, weight: nat, val: nat)
    requires val < weight
    ensures Sum([Held(item, weight)]) == weight && Pick([Held(item, weight)], val) == 0
  {
  }

  lemma ChooseEnds(n: Node)
    requires Good(n)
    ensures Sum(RowFrom(n, BRANCHES)) == 0
  {
  }

  // ----- inserting -----

  predicate Full(level: nat, slot: Slot) {
    slot.Entry? || (slot.Sub? && slot.node.count == slot.node.max)
  }

  lemma {:induction false} AllFull(n: Node, i: nat)
    requires Good(n) && i <= BRANCHES && forall k :: i <= k < BRANCHES ==> Full(n.level, n.slots[k])
    ensures Count(RowFrom(n, i)) == |RowFrom(n, i)|
    decreases BRANCHES - i
  {
    if i < BRANCHES {
      AllFull(n, i + 1);
      var s := SlotRow(n.level, n.slots[i], n.weights[i]);
      Joined(s, RowFrom(n, i + 1));
      assert SlotOk(n.level, n.slots[i], n.weights[i]);
      if n.slots[i].Sub? {
        RowLength(n.slots[i].node, 0);
      }
    }
  }

  /** The node after one of its leaves has changed, with its sum and count following. */
  ghost predicate Follows(n: Node, n': Node, idx: nat, l: Leaf)
    requires Good(n)
  {
    && n'.level == n.level && idx < |Leaves(n)| && Good(n') && Leaves(n') == Leaves(n)[idx := l]
  }

  /** Replacing a branch by one that differs in one leaf is changing that leaf. */
  lemma BranchFollows(n: Node, i: nat, slot: Slot, weight: nat, j: nat, l: Leaf, n': Node)
    requires Good(n) && i < BRANCHES && SlotOk(n.level, slot, weight)
    requires j < |SlotRow(n.level, n.slots[i], n.weights[i])|
    requires SlotRow(n.level, slot, weight) == SlotRow(n.level, n.slots[i], n.weights[i])[j := l]
    requires n' == Patched(n, i, slot, weight).(sum := n'.sum, count := n'.count)
    requires var was := SlotRow(n.level, n.slots[i], n.weights[i])[j];
             n'.sum == n.sum - Weight(was) + Weight(l) && n'.count == n.count - Count([was]) + Count([l])
    ensures Follows(n, n', Place(n.level, i, j), l) && Place(n.level, i, j) < |Leaves(n)|
    ensures Leaves(n)[Place(n.level, i, j)] == SlotRow(n.level, n.slots[i], n.weights[i])[j]
  {
    hide SlotRow, RowFrom, RowTo, Capacity, SlotSize, Sum, Count, Place;
    SlotIs(n.level, n.slots[i], n.weights[i]);
    LeafPatched(n, i, slot, weight, j, l);
    Changed(Leaves(n), Place(n.level, i, j), l);
    SameRow(Patched(n, i, slot, weight), n', 0);
  }

  lemma {:induction false} SameRow(n: Node, n': Node, i: nat)
    requires n'.level == n.level && n'.slots == n.slots && n'.weights == n.weights
    ensures RowFrom(n', i) == RowFrom(n, i)
    decreases |n.slots| - i
  {
    if i < |n.slots| && i < |n.weights| {
      SameRow(n, n', i + 1);
    }
  }

  /** A node with nothing in it. */
  function Fresh(level: nat): Node {
    Node(level, seq(BRANCHES, i => Nil), seq(BRANCHES, i => 0), 0, 0, Capacity(level))
  }

  lemma {:induction false} FreshRow(level: nat, i: nat)
    requires i <= BRANCHES
    ensures RowFrom(Fresh(level), i) == Frees((BRANCHES - i) * SlotSize(level))
    decreases BRANCHES - i
  {
    if i < BRANCHES {
      FreshRow(level, i + 1);
      Distribute(BRANCHES - i, SlotSize(level));
      assert Frees(SlotSize(level)) + Frees((BRANCHES - i - 1) * SlotSize(level)) ==
             Frees((BRANCHES - i) * SlotSize(level));
    }
  }

  lemma FreshIs(level: nat)
    ensures Good(Fresh(level)) && Leaves(Fresh(level)) == Frees(Capacity(level))
  {
    FreshRow(level, 0);
    FreesEmpty(Capacity(level));
  }

  /** A new item in a subtree is a new item in the tree. */
  lemma SubFollows(n: Node, branch: nat, t: Node, t': Node, j: nat, item: Item, weight: nat, n': Node)
    requires Good(n) && n.level > 0 && branch < BRANCHES && weight > 0 && Good(t)
    requires n.slots[branch] == Sub(t) || (n.slots[branch] == Nil && t == Fresh(n.level - 1))
    requires Follows(t, t', j, Held(item, weight)) && Leaves(t)[j] == Free
    requires n' == Patched(n, branch, Sub(t'), n.weights[branch] + weight).(sum := n.sum + weight, count := n.count + 1)
    ensures Follows(n, n', t'.max * branch + j, Held(item, weight)) && Leaves(n)[t'.max * branch + j] == Free
  {
    hide RowFrom, Capacity, Sum, Count, RowTo;
    FreshIs(n.level - 1);
    assert SlotOk(n.level, n.slots[branch], n.weights[branch]);
    OneMore(item, weight);
    SubSum(t, t', j, Held(item, weight));
    BranchFollows(n, branch, Sub(t'), n.weights[branch] + weight, j, Held(item, weight), n');
    Commutes(t'.max, branch);
    assert t'.max * branch + j == Place(n.level, branch, j);
  }

  lemma Commutes(a: nat, b: nat)
    ensures a * b == b * a
  {
  }

  lemma NotEntry(level: nat, slot: Slot)
    ensures !Full(level, slot) ==> !slot.Entry?
  {
  }

  lemma OneMore(item: Item, weight: nat)
    ensures Count([Held(item, weight)]) == 1 && Count([Free]) == 0
  {
  }

  lemma HasRoom(level: nat, slot: Slot, sub: Node)
    requires level > 0 && !Full(level, slot) && !slot.Entry?
    requires sub == (if slot == Nil then Fresh(level - 1) else slot.node)
    requires Good(sub) && sub.level == level - 1
    ensures sub.count < sub.max
  {
    RowLength(sub, 0);
    CountAtMost(Leaves(sub));
  }

  lemma SubSum(sub: Node, sub': Node, idx: nat, l: Leaf)
    requires Good(sub) && Follows(sub, sub', idx, l)
    ensures idx < |Leaves(sub)| && Good(sub') && sub'.level == sub.level && Leaves(sub') == Leaves(sub)[idx := l]
    ensures sub'.sum == sub.sum - Weight(Leaves(sub)[idx]) + Weight(l) && sub'.max == sub.max == Capacity(sub.level)
  {
    hide RowFrom, Capacity;
    Changed(Leaves(sub), idx, l);
  }

  // ----- changing a weight -----

  /** The leaf of an item with a new weight: free if the weight is zero. */
  function Reweighed(l: Leaf, weight: nat): Leaf
    requires l.Held?
  {
    if weight == 0 then Free else l.(weight := weight)
  }

  lemma LeafReweighed(item: Item, w: nat, weight: nat)
    ensures SlotRow(0, if weight == 0 then Nil else Entry(item), weight) ==
            SlotRow(0, Entry(item), w)[0 := Reweighed(Held(item, w), weight)]
  {
  }

  lemma HeldCounts(item: Item, w: nat, weight: nat)
    ensures Count([Held(item, w)]) == 1 && Count([Free]) == 0 && Count([Held(item, weight)]) == 1
  {
  }

  lemma SumAtLeast(row: Row, k: nat)
    requires k < |row|
    ensures Weight(row[k]) <= Sum(row) && (row[k].Held? ==> Count(row) > 0)
  {
    Changed(row, k, Free);
  }

  lemma FindsLeaf(n: Node, idx: nat, branch: nat, j: int)
    requires Good(n) && idx < |Leaves(n)| && Leaves(n)[idx].Held?
    requires branch == idx / SlotSize(n.level) && j == idx - branch * SlotSize(n.level)
    ensures branch < BRANCHES && 0 <= j < SlotSize(n.level) == |SlotRow(n.level, n.slots[branch], n.weights[branch])|
    ensures Leaves(n)[idx] == SlotRow(n.level, n.slots[branch], n.weights[branch])[j] && n.slots[branch] != Nil
  {
    hide RowTo, RowFrom, Sum, Count, Good, SlotRow, Capacity, SlotSize;
    Shape(n);
    var s := SlotSize(n.level);
    RowLength(n, 0);
    CapacityIs(n.level);
    DivMod(idx, s, BRANCHES);
    RowSplits(n, branch);
    SlotHas(n, branch);
    RowSteps(n, branch);
    MidIs(RowTo(n, branch), SlotRow(n.level, n.slots[branch], n.weights[branch]), RowFrom(n, branch + 1), j);
  }

  lemma CapacityIs(level: nat)
    ensures Capacity(level) == BRANCHES * SlotSize(level)
    ensures (level > 0 ==> Capacity(level) / BRANCHES == SlotSize(level))
  {
  }

  lemma SlotHas(n: Node, i: nat)
    requires Good(n) && i < BRANCHES
    ensures var row := SlotRow(n.level, n.slots[i], n.weights[i]);
            |row| == SlotSize(n.level) && forall j :: 0 <= j < |row| && row[j].Held? ==> n.slots[i] != Nil
  {
    SlotIs(n.level, n.slots[i], n.weights[i]);
  }

  lemma MidIs(before: Row, s: Row, after: Row, j: nat)
    requires j < |s|
    ensures (before + (s + after))[|before| + j] == s[j]
  {
  }

  lemma DivMod(x: nat, s: nat, k: nat)
    requires s > 0 && x < k * s
    ensures x / s < k && 0 <= x - x / s * s < s
  {
    assert x == x / s * s + x % s;
  }

  // ----- the selection -----

  /** A new level over a full root: its leaves stay where they are. */
  function Raised(root: Node): Node {
    Patched(Fresh(root.level + 1), 0, Sub(root), root.sum)
    .(sum := root.sum, count := root.count, max := root.max * BRANCHES)
  }

  lemma RaisedIs(root: Node)
    requires Good(root)
    ensures Good(Raised(root)) && Leaves(Raised(root)) == Leaves(root) + Frees((BRANCHES - 1) * Capacity(root.level))
    ensures root.count < Raised(root).max
  {
    hide RowFrom, Sum, Count, Capacity;
    var level, rest := root.level + 1, Frees((BRANCHES - 1) * Capacity(root.level));
    var n, n' := Fresh(level), Raised(root);
    FreshIs(level);
    FreshRow(level, 1);
    RowFromPatched(n, 0, Sub(root), root.sum, 1);
    var patched := Patched(n, 0, Sub(root), root.sum);
    SameRow(patched, n', 0);
    RowSteps(patched, 0);
    FreesEmpty((BRANCHES - 1) * Capacity(root.level));
    Joined(Leaves(root), rest);
    CapacityIs(level);
    RowLength(root, 0);
    CountAtMost(Leaves(root));
    forall i | 0 <= i < BRANCHES ensures SlotOk(level, n'.slots[i], n'.weights[i]) {
    }
  }

  /** The index knows the leaf of every item, and nothing else. */
  ghost predicate Indexes(row: Row, idx: map<Item, nat>) {
    && (forall item :: item in idx ==> idx[item] < |row| && row[idx[item]].Held? && row[idx[item]].item == item)
    && (forall k :: 0 <= k < |row| && row[k].Held? ==> row[k].item in idx && idx[row[k].item] == k)
  }

  /** The weights on record. */
  ghost function Stored(row: Row, idx: map<Item, nat>): map<Item, nat>
    requires Indexes(row, idx)
  {
    map item | item in idx :: row[idx[item]].weight
  }

  lemma IndexChanged(row: Row, idx: map<Item, nat>, item: Item, weight: nat)
    requires Indexes(row, idx) && item in idx
    ensures var l := Reweighed(row[idx[item]], weight);
            var idx' := if weight == 0 then idx - {item} else idx;
            && Indexes(row[idx[item] := l], idx')
            && Stored(row[idx[item] := l], idx') ==
                 if weight == 0 then Stored(row, idx) - {item} else Stored(row, idx)[item := weight]
  {
    var l := Reweighed(row[idx[item]], weight);
    var idx' := if weight == 0 then idx - {item} else idx;
    assert Indexes(row[idx[item] := l], idx');
  }

  lemma IndexAdded(row: Row, idx: map<Item, nat>, item: Item, weight: nat, k: nat)
    requires Indexes(row, idx) && item !in idx && k < |row| && row[k] == Free
    ensures Indexes(row[k := Held(item, weight)], idx[item := k])
    ensures Stored(row[k := Held(item, weight)], idx[item := k]) == Stored(row, idx)[item := weight]
  {
    assert Indexes(row[k := Held(item, weight)], idx[item := k]);
  }

  lemma IndexRaised(row: Row, idx: map<Item, nat>, n: nat)
    requires Indexes(row, idx)
    ensures Indexes(row + Frees(n), idx) && Stored(row + Frees(n), idx) == Stored(row, idx)
  {
  }

  /** What is picked is on record with its weight. */
  lemma PickedStored(row: Row, idx: map<Item, nat>, k: nat, item: Item, weight: nat)
    requires Indexes(row, idx) && k < |row| && row[k] == Held(item, weight)
    ensures item in idx && idx[item] == k && Stored(row, idx)[item] == weight
  {
  }

  /** Without weight there is nothing, as every weight on record is positive. */
  lemma {:induction false} PositiveLeaves(n: Node, i: nat)
    requires Good(n) && i <= BRANCHES
    ensures forall l :: l in RowFrom(n, i) && l.Held? ==> l.weight > 0
    decreases n, 1 + BRANCHES - i
  {
    if i < BRANCHES {
      PositiveLeaves(n, i + 1);
      assert SlotOk(n.level, n.slots[i], n.weights[i]);
      if n.slots[i].Sub? {
        PositiveLeaves(n.slots[i].node, 0);
      }
    }
  }

  lemma NothingLeft(n: Node, idx: map<Item, nat>)
    requires Good(n) && Indexes(Leaves(n), idx)
    ensures n.sum == 0 ==> Stored(Leaves(n), idx) == map[]
    ensures forall item :: item in idx ==> Stored(Leaves(n), idx)[item] > 0
  {
    hide RowFrom, Sum;
    PositiveLeaves(n, 0);
    forall item | item in idx ensures 0 < Stored(Leaves(n), idx)[item] <= n.sum {
      assert Leaves(n)[idx[item]] in Leaves(n);
      SumAtLeast(Leaves(n), idx[item]);
    }
  }

  lemma IndexFacts(root: Node, idx: map<Item, nat>, item: Item)
    requires Good(root) && Indexes(Leaves(root), idx)
    ensures Stored(Leaves(root), idx).Keys == idx.Keys
    ensures item in idx ==> idx[item] < |Leaves(root)| && Leaves(root)[idx[item]].Held? &&
                            Stored(Leaves(root), idx)[item] == Leaves(root)[idx[item]].weight
  {
  }

  lemma HasSpace(n: Node)
    requires Good(n)
    ensures n.count <= n.max
  {
    RowLength(n, 0);
    CountAtMost(Leaves(n));
  }

  /** A leaf of a subtree weighs no more than its branch and the tree. */
  lemma SubWeight(n: Node, branch: nat, j: nat)
    requires Good(n) && branch < BRANCHES && n.slots[branch].Sub? && j < |Leaves(n.slots[branch].node)|
    ensures Good(n.slots[branch].node) && n.slots[branch].node.level + 1 == n.level
    ensures Weight(Leaves(n.slots[branch].node)[j]) <= n.weights[branch]
  {
    hide RowFrom;
    assert SlotOk(n.level, n.slots[branch], n.weights[branch]);
    SumAtLeast(Leaves(n.slots[branch].node), j);
  }

  /** On the lowest level the leaves are the slots. */
  lemma LeafAt(n: Node, idx: nat)
    requires Good(n) && n.level == 0 && idx < |Leaves(n)| && Leaves(n)[idx].Held?
    ensures idx < BRANCHES && n.slots[idx].Entry? && Leaves(n)[idx] == Held(n.slots[idx].item, n.weights[idx])
    ensures Place(0, idx, 0) == idx
  {
    hide RowFrom, Capacity;
    RowLength(n, 0);
    CapacityIs(0);
    FindsLeaf(n, idx, idx, 0);
    assert SlotOk(0, n.slots[idx], n.weights[idx]);
  }

  // ----- drawing -----

  /** What is picked is an item with a weight. */
  lemma {:induction false} PickedHeld(row: Row, val: nat)
    requires val < Sum(row)
    ensures row[Pick(row, val)].Held? && row[Pick(row, val)].weight > 0
  {
    if val >= Weight(row[0]) {
      PickedHeld(row[1..], val - Weight(row[0]));
    }
  }

  /** The numbers from `from` on, `size` of them. */
  ghost function Range(from: nat, size: nat): set<nat> {
    if size == 0 then {} else Range(from, size - 1) + {from + size - 1}
  }

  lemma {:induction false} RangeIs(from: nat, size: nat, v: nat)
    ensures |Range(from, size)| == size && (v in Range(from, size) <==> from <= v < from + size)
  {
    if size > 0 {
      RangeIs(from, size - 1, v);
      RangeIs(from, size - 1, from + size - 1);
    }
  }

  /** The values that draw an item. */
  ghost function Drawing(row: Row, item: Item): set<nat> {
    set v: nat | v < Sum(row) && row[Pick(row, v)].Held? && row[Pick(row, v)].item == item
  }

  /** A stored item is drawn by exactly as many values as its weight, and no other item by any. */
  lemma DrawnBy(row: Row, idx: map<Item, nat>, item: Item)
    requires Indexes(row, idx)
    ensures |Drawing(row, item)| == if item in idx then Stored(row, idx)[item] else 0
  {
    hide Sum, Pick;
    if item in idx {
      var k := idx[item];
      var from, size := Sum(row[..k]), row[k].weight;
      PrefixSum(row, k);
      forall v: nat ensures v in Drawing(row, item) <==> v in Range(from, size) {
        RangeIs(from, size, v);
        if v < Sum(row) {
          PickedBy(row, v, k);
        }
      }
      RangeIs(from, size, 0);
      assert Drawing(row, item) == Range(from, size);
    } else {
      assert Drawing(row, item) == {};
    }
  }

  lemma {:induction false} PrefixSum(row: Row, k: nat)
    requires k < |row|
    ensures Sum(row[..k]) + Weight(row[k]) <= Sum(row)
  {
    if k == 0 {
      assert row[..0] == [];
    } else {
      PrefixSum(row[1..], k - 1);
      assert row[..k][1..] == row[1..][..k - 1];
    }
  }

  /** What a choice leaves: the item chosen, the leaves, and how many draws it took. */
  datatype Retry = Retry(choice: Option<Item>, row: Row, draws: nat)

  /**
  A choice over a row of leaves, from draw `i` on. The drawn item is weighed; it is chosen if it has
  not become lighter, or else if a number below its old weight is also below the new one.
  */
  ghost function Retried(row: Row, weigh: (nat, Item) -> nat, vals: nat -> nat, agains: nat -> nat, i: nat): Retry
    decreases Sum(row)
  {
    if Sum(row) == 0 then Retry(None, row, i)
    else
      var k := Pick(row, vals(i) % Sum(row));
      PickedHeld(row, vals(i) % Sum(row));
      var last, weight := row[k].weight, weigh(i, row[k].item);
      Changed(row, k, Reweighed(row[k], weight));
      var row' := row[k := Reweighed(row[k], weight)];
      if weight >= last || agains(i) % last < weight then Retry(Some(row[k].item), row', i + 1)
      else Retried(row', weigh, vals, agains, i + 1)
  }
}
