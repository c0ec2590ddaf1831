/**
The reusable tree hasher. Goroutines run whenever they are scheduled: after every segment that is
handed over, and while the result is awaited, any number of steps of any of them may happen.
*/
module BmtHasher {
  import opened Wrappers
  import opened BmtSpec
  import opened BmtMachine
  import opened BmtInvariant
  import opened BmtSteps
  import opened BmtPhases
  import opened BmtMarking
  import opened BmtResult

  /** How often a tree can be used before the counter of one of its nodes wraps round. */
  const LIFETIME: nat := 0x4000_0000

  /** The number of levels below the root of the tree for `n` segments. */
  method Depth(n: nat) returns (d: nat)
    requires n > 0
    ensures n <= Width(2, d)
    ensures d > 0 ==> Width(2, d - 1) < n
  {
    hide Width, Halving;
    d := 0;
    var l: nat := (n - 1) / 2;
    ghost var half: nat := l;
    HalvingStarts(half);
    while l > 0
      invariant Halving(half, l, d)
    {
      HalvingStep(half, l, d);
      l := l / 2;
      d := d + 1;
    }
    HalvingEnds(half, d);
    WidthDouble(d);
    if d > 0 {
      WidthDouble(d - 1);
    }
  }

  /** Halved `d` times, `x` gives `l`. */
  ghost predicate Halving(x: nat, l: nat, d: nat) {
    l * Width(1, d) <= x < (l + 1) * Width(1, d) && (d > 0 ==> Width(1, d - 1) <= x)
  }

  lemma HalvingStarts(x: nat)
    ensures Halving(x, x, 0)
  {
  }

  lemma HalvingStep(x: nat, l: nat, d: nat)
    requires Halving(x, l, d) && l > 0
    ensures Halving(x, l / 2, d + 1)
  {
    DoubleBounds(l, Width(1, d), x);
  }

  lemma HalvingEnds(x: nat, d: nat)
    requires Halving(x, 0, d)
    ensures x < Width(1, d) && (d > 0 ==> Width(1, d - 1) <= x)
  {
  }

  lemma WidthDouble(d: nat)
    ensures Width(2, d) == 2 * Width(1, d)
  {
    WidthScales(2, d);
  }

  lemma DoubleBounds(l: nat, w: nat, x: nat)
    requires l > 0 && l * w <= x < (l + 1) * w
    ensures (l / 2) * (2 * w) <= x < (l / 2 + 1) * (2 * w)
    ensures w <= x
  {
    var k := l / 2;
    assert k * (2 * w) == (2 * k) * w;
    assert (k + 1) * (2 * w) == (2 * k + 2) * w;
    if l == 2 * k {
      assert (2 * k + 2) * w == (l + 1) * w + w;
    } else {
      assert l == 2 * k + 1;
      assert l * w == (2 * k) * w + w;
    }
    assert l * w == (l - 1) * w + w;
  }

  /** A fresh tree, built level by level from the root down. */
  method NewTree(depth: nat) returns (nodes: Nodes)
    ensures Clean(depth + 1, nodes)
    ensures forall p :: p in nodes ==> nodes[p].state == 0
  {
    var top := depth + 1;
    nodes := map[Pos(top, 0) := Node([], [], 0, false, true)];
    var d, width := 0, 1;
    while d < depth
      invariant 0 <= d <= depth && width == Width(1, d)
      invariant forall p :: p in nodes <==> InTree(top, p) && top - d <= p.height
      invariant forall p :: p in nodes ==> nodes[p] == Node([], [], 0, false, p.height == top)
    {
      d, width := d + 1, 2 * width;
      for i := 0 to width
        invariant forall p :: p in nodes <==>
                    InTree(top, p) && (top - d < p.height || (p.height == top - d && p.index < i))
        invariant forall p :: p in nodes ==> nodes[p] == Node([], [], 0, false, p.height == top)
      {
        nodes := nodes[Pos(top - d, i) := Node([], [], 0, false, false)];
      }
    }
  }

  /** The positions whose value can ever be carried by a goroutine. */
  ghost function Edges(top: nat): set<Pos> {
    set h, k | 0 <= h < top && 0 <= k < Width(1, top) :: Pos(h, k)
  }

  ghost function StillHashing(running: map<nat, Goroutine>): set<nat> {
    set id | id in running && running[id].Hashing?
  }

  /** Every step of a job brings it closer to its end. */
  lemma Closer(j: Job, m: Machine, arrived: set<Pos>, id: nat) returns (arrived': set<Pos>)
    requires j.Inv(m, arrived) && id in m.running
    ensures Dest(m.running[id]) in m.nodes
    ensures var m' := Advance(j.H, m, id);
            && j.Inv(m', arrived')
            && (Edges(j.top) - arrived' < Edges(j.top) - arrived ||
                (arrived' == arrived && StillHashing(m'.running) < StillHashing(m.running)))
  {
    hide Job.Inv, Width;
    arrived' := AdvanceKeeps(j, m, arrived, id);
    var m' := Advance(j.H, m, id);
    if m.running[id].Climbing? {
      EdgeBounded(j, m, arrived, id);
    } else {
      assert id in StillHashing(m.running) && id !in StillHashing(m'.running);
    }
  }

  lemma EdgeBounded(j: Job, m: Machine, arrived: set<Pos>, id: nat)
    requires j.Inv(m, arrived) && id in m.running && m.running[id].Climbing?
    ensures Edge(m.running[id]) in Edges(j.top) && Edge(m.running[id]) !in arrived
  {
    var g := m.running[id];
    assert j.GoodGoroutine(m, arrived, g);
    var c := Edge(g);
    WidthMonotonic(1, j.top - c.height, j.top);
  }

  function Min(a: int, b: int): int {
    if a <= b then a else b
  }

  /** The number of leaves `count` segments fill. */
  function LeafCount(count: nat): nat {
    (count + 1) / 2
  }

  /** The bytes of `count` segments, as pairs and possibly a single one. */
  function Capacity(size: nat, count: nat): nat {
    Offset(size, 1, count / 2) + if count % 2 == 0 then 0 else size
  }

  lemma CapacityIs(size: nat, count: nat)
    ensures Capacity(size, count) == count * size
  {
    var k := count / 2;
    OffsetLeaf(size, k);
    Reassociate(size, k);
    if count % 2 == 0 {
      assert count == 2 * k;
    } else {
      assert count == 2 * k + 1;
    }
  }

  lemma Reassociate(size: nat, k: nat)
    ensures 2 * size * k == (2 * k) * size == k * 2 * size
    ensures (2 * k + 1) * size == (2 * k) * size + size
  {
  }

  /**
  How many of `l` further bytes a write takes in, after `cur` full leaves and `partial` bytes of the
  next one.
  */
  function Accepted(size: nat, count: nat, cur: nat, partial: nat, l: nat): int {
    var leaves, start := LeafCount(count), Offset(size, 1, cur);
    if cur == leaves - 1 then Min(l, Capacity(size, count) - (start + partial))
    else Min(l, Min(Capacity(size, count) - start, Offset(size, 1, leaves) - (start + partial)))
  }

  lemma LeavesAndCapacity(size: nat, count: nat, cur: nat)
    requires count > 0 && cur < LeafCount(count)
    ensures Offset(size, 1, cur + 1) == Offset(size, 1, cur) + 2 * size
    ensures var leaves := LeafCount(count);
            && Offset(size, 1, leaves) == Capacity(size, count) + (if count % 2 == 0 then 0 else size)
            && (cur < leaves - 1 ==> Offset(size, 1, cur) + 4 * size <= Offset(size, 1, leaves))
            && (cur == leaves - 1 ==> Offset(size, 1, cur) + 2 * size == Offset(size, 1, leaves))
  {
    var leaves := LeafCount(count);
    assert Width(size, 1) == 2 * Width(size, 0);
    assert Offset(size, 1, leaves) == Offset(size, 1, leaves - 1) + 2 * size;
    if cur < leaves - 1 {
      OffsetOrder(size, 1, cur, leaves - 1);
    }
  }

  /**
  A write keeps the chunk within its capacity by cutting off what is too much, except in one case:
  with an odd number of segments, a write that starts inside an earlier leaf and overshoots takes
  too much.
  */
  lemma AcceptedTruncates(size: nat, count: nat, cur: nat, partial: nat, l: nat)
    requires size > 0 && count > 0 && cur < LeafCount(count) && partial <= 2 * size
    requires Offset(size, 1, cur) + partial <= Capacity(size, count)
    ensures 0 <= Accepted(size, count, cur, partial, l) <= l
    ensures var room := Capacity(size, count) - (Offset(size, 1, cur) + partial);
            Accepted(size, count, cur, partial, l) == Min(l, room) <==>
            !(count % 2 == 1 && cur < LeafCount(count) - 1 && partial > 0 && l > room)
  {
    LeavesAndCapacity(size, count, cur);
  }

  /** Ten bytes and then two hundred, in a chunk of three segments of 32 bytes: ten too many are kept. */
  lemma OvershootExample()
    ensures Capacity(32, 3) == 96 && 10 + Accepted(32, 3, 0, 10, 200) == 106
  {
    assert Width(32, 1) == 2 * Width(32, 0);
    assert Offset(32, 1, 2) == Offset(32, 1, 1) + 64;
  }

  lemma NextLeaf(size: nat, leaves: nat, i: nat)
    requires i + 1 < leaves
    ensures Offset(size, 1, i + 1) == Offset(size, 1, i) + 2 * size
    ensures Offset(size, 1, i + 1) + 2 * size <= Offset(size, 1, leaves)
    ensures i + 1 == leaves - 1 ==> Offset(size, 1, i + 1) + 2 * size == Offset(size, 1, leaves)
  {
    assert Width(size, 1) == 2 * Width(size, 0);
    OffsetOrder(size, 1, i + 1, leaves);
  }

  /** Of the bytes `b[..taken]` after `w` the first `rest` are dealt out, `s` being the open leaf `i`. */
  ghost predicate Dealing(size: nat, leaves: nat, i: nat, s: Bytes, w: Bytes, b: Bytes, taken: nat, rest: nat,
                          need: int, sz: nat) {
    && i < leaves && rest <= taken <= |b| && Offset(size, 1, i) + |s| == |w| + rest
    && s == (w + b[..taken])[Offset(size, 1, i)..|w| + rest]
    && |s| <= 2 * size && (i > 0 ==> |s| > 0)
    && (need > 0 && i < leaves - 1 ==> sz == |s| == 2 * size)
    && taken == if need <= 0 || i == leaves - 1 then rest else Min(rest + need, Offset(size, 1, leaves) - |w|)
  }

  /** The next leaf is dealt. */
  lemma DealsOn(size: nat, leaves: nat, i: nat, s: Bytes, w: Bytes, b: Bytes, taken: nat, rest: nat, need: int, sz: nat)
    requires Dealing(size, leaves, i, s, w, b, taken, rest, need, sz) && need > 0 && i < leaves - 1 && size > 0
    ensures Offset(size, 1, i) <= Offset(size, 1, i + 1) <= |w| + taken
    ensures s == (w + b[..taken])[Offset(size, 1, i)..Offset(size, 1, i + 1)]
    ensures var need' := need - sz;
            var sz' := if need' < 0 then sz + need' else sz;
            && 0 <= sz' && rest + sz' <= |b|
            && Dealing(size, leaves, i + 1, b[rest..rest + sz'], w, b, taken, rest + sz', need', sz')
  {
    hide Offset, Width;
    NextLeaf(size, leaves, i);
    var need' := need - sz;
    var sz' := if need' < 0 then sz + need' else sz;
    LaterSlice(w, b, taken, rest, rest + sz');
  }

  /** All bytes are dealt out. */
  lemma DealsOut(size: nat, leaves: nat, i: nat, s: Bytes, w: Bytes, b: Bytes, taken: nat, rest: nat, need: int,
                 sz: nat)
    requires Dealing(size, leaves, i, s, w, b, taken, rest, need, sz) && (need <= 0 || i >= leaves - 1)
    ensures i < leaves && taken <= |b| && |s| <= 2 * size && (i > 0 ==> |s| > 0)
    ensures Offset(size, 1, i) + |s| == |w| + taken && s == (w + b[..taken])[Offset(size, 1, i)..]
  {
    hide Offset;
  }

  /** The part of a write that completes the open leaf, and what remains after it. */
  lemma FirstPart(size: nat, count: nat, cur: nat, partial: nat, l: nat)
    requires size > 0 && count > 0 && cur < LeafCount(count) && partial <= 2 * size
    requires Offset(size, 1, cur) + partial <= Capacity(size, count)
    ensures var room, leaves := Capacity(size, count) - Offset(size, 1, cur), LeafCount(count);
            var sz := if room > size then 2 * size else size;
            var need := Min(l, room);
            var rest := Min(sz - partial, need);
            var taken := Accepted(size, count, cur, partial, l);
            && 0 <= rest <= taken <= l && partial + rest <= 2 * size
            && (need - rest > 0 && cur < leaves - 1 ==> sz == partial + rest == 2 * size)
            && taken == if need - rest <= 0 || cur == leaves - 1 then rest
                        else Min(need, Offset(size, 1, leaves) - (Offset(size, 1, cur) + partial))
  {
    hide LeafCount, Capacity, Offset, Width;
    LeavesAndCapacity(size, count, cur);
    var room, leaves := Capacity(size, count) - Offset(size, 1, cur), LeafCount(count);
    if cur == leaves - 1 {
      assert room == 2 * size || room == size;
    } else {
      assert room > 2 * size;
      assert Offset(size, 1, leaves) <= Capacity(size, count) + size;
    }
  }

  /** A node without marks, its counter even and, within the lifetime of the tree, not negative. */
  ghost predicate Rested(n: Node, p: Pos, top: nat, uses: nat) {
    && !n.unbalanced && n.root == (p.height == top) && n.state % 2 == 0
    && (uses < LIFETIME ==> 0 <= n.state <= 2 * uses)
  }

  /** The single goroutine of a small chunk is about to deliver the hash and leave the tree at rest. */
  ghost predicate OneStepAway(H: Hash, size: nat, top: nat, m: Machine, data: Bytes, span: nat, uses: nat)
    requires size > 0 && IsSpan(size, span)
  {
    && m.result == None && m.running.Keys == {0} && Dest(m.running[0]) in m.nodes
    && var m' := Advance(H, m, 0);
    && m'.running == map[] && Complete(top, m'.nodes) && InTree(top, Pos(1, 0))
    && m'.result == Some(RefHash(H, size, data, span))
    && forall p :: p in m'.nodes ==> Rested(Release(top, m'.nodes, Pos(1, 0))[p], p, top, uses + 1)
  }

  class Hasher {
    const H: Hash
    const size: nat
    const count: nat
    const depth: nat

    var nodes: Nodes
    var running: map<nat, Goroutine>
    var result: Option<Bytes>
    var cur: nat
    var segment: Bytes
    var open: bool
    var blockLength: Option<Bytes>

    ghost var written: Bytes        // the bytes taken in since the tree was reserved
    ghost var arrived: set<Pos>
    ghost var base: map<Pos, int>   // the counters when the tree was reserved
    ghost var uses: nat             // how many chunks the tree has hashed

    function Top(): nat {
      depth + 1
    }

    ghost function Running(): Machine
      reads `nodes, `running, `result
    {
      Machine(nodes, running, result)
    }

    ghost function JobAt(full: nat, fin: bool): Job
      reads `written, `base
    {
      Job(H, size, Top(), written, full, fin, base)
    }

    ghost predicate Fixed() {
      size > 0 && count > 0 && LeafCount(count) <= Width(1, depth)
    }

    /** The tree at rest, its marks cleared and its counters even. */
    ghost predicate AtRest()
      reads this
    {
      && Complete(Top(), nodes)
      && (forall p :: p in nodes ==> Rested(nodes[p], p, Top(), uses))
      && running == map[] && result == None && cur == 0 && segment == []
    }

    /** Goroutines are under way for the first `full` leaves of the bytes written. */
    ghost predicate UnderWay(full: nat)
      reads `nodes, `running, `result, `arrived, `written, `base, `open, `uses
    {
      && Fixed() && open && full < LeafCount(count) && uses < LIFETIME
      && JobAt(full, false).Inv(Running(), arrived)
      && (forall p :: p in nodes ==> base[p] <= 2 * uses)
      && (full == 0 ==> running == map[] && Clean(Top(), nodes) && forall p :: p in nodes ==> base[p] == nodes[p].state)
    }

    ghost predicate Valid()
      reads this
    {
      && Fixed()
      && (if open then
            && UnderWay(cur) && cur < LeafCount(count)
            && |segment| <= 2 * size && (cur > 0 ==> |segment| > 0)
            && |written| == Offset(size, 1, cur) + |segment| && segment == written[Offset(size, 1, cur)..]
          else AtRest() && written == [])
    }

    constructor (H: Hash, size: nat, count: nat)
      requires size > 0 && count > 0
      ensures Valid() && !open && uses == 0 && this.H == H && this.size == size && this.count == count
    {
      var d := Depth(count);
      WidthDouble(d);
      var tree := NewTree(d);
      this.H, this.size, this.count, this.depth := H, size, count, d;
      nodes, running, result := tree, map[], None;
      cur, segment, open, blockLength := 0, [], false, None;
      written, arrived, base, uses := [], {}, map[], 0;
    }

    /** Reserving the tree. A hasher that already holds one keeps it, and what was written. */
    method Reset()
      requires Valid() && uses < LIFETIME
      modifies this
      ensures Valid() && open && blockLength == None && uses == old(uses)
      ensures written == old(written)
    {
      hide UnderWay;
      if !open {
        Reserve();
      }
      blockLength := None;
    }

    /** A tree at rest is the start of a new job. */
    method Reserve()
      requires Fixed() && AtRest() && written == [] && uses < LIFETIME
      modifies `open, `base, `arrived
      ensures open && UnderWay(0)
    {
      hide Job.Inv;
      open, arrived := true, {};
      base := map p | p in nodes :: nodes[p].state;
      ghost var j := JobAt(0, false);
      assert j.Valid();
      assert Clean(Top(), nodes);
      InitKeeps(j, Running());
    }

    method ResetWithLength(l: Bytes)
      requires Valid() && uses < LIFETIME
      modifies this
      ensures Valid() && open && blockLength == Some(l) && uses == old(uses)
      ensures written == old(written)
    {
      hide UnderWay;
      Reset();
      blockLength := Some(l);
    }

    /** One iteration of the loop of goroutine `id`, or the hashing of its leaf. */
    method Run(id: nat)
      requires id in running && Dest(running[id]) in nodes
      modifies `nodes, `running, `result
      ensures Running() == Advance(H, old(Running()), id)
    {
      match running[id] {
        case Hashing(leaf, d, data) =>
          var n, s := Pos(1, leaf), H(data);
          if nodes[n].root {
            result, running := Some(s), running - {id};
          } else {
            running := running[id := Climbing(Parent(n), leaf % 2 == 0, leaf, d, s)];
          }
        case Climbing(n, isLeft, i, d, data) =>
          nodes := nodes[n := Store(nodes[n], isLeft, data)];
          var waits := false;
          if !nodes[n].unbalanced {
            waits := Waits(nodes[n].state);
            nodes := nodes[n := nodes[n].(state := Bump(nodes[n].state))];
          }
          if waits {
            running := running - {id};
          } else {
            var s := nodes[n].left + nodes[n].right;
            if !nodes[n].unbalanced || !isLeft || (i == 0 && d == 0) {
              s := H(s);
            }
            if nodes[n].root {
              result, running := Some(s), running - {id};
            } else {
              running := running[id := Climbing(Parent(n), IsLeft(n), i + 1, d, s)];
            }
          }
      }
    }

    /** A step keeps the invariant of the job and brings it closer to its end. */
    method Step(id: nat, ghost j: Job)
      requires id in running && j.Inv(Running(), arrived) && j.H == H
      modifies `nodes, `running, `result, `arrived
      ensures j.Inv(Running(), arrived)
      ensures Edges(j.top) - arrived < old(Edges(j.top) - arrived) ||
              (arrived == old(arrived) && StillHashing(running) < old(StillHashing(running)))
    {
      hide Job.Inv, Advance;
      ghost var arrived' := Closer(j, Running(), arrived, id);
      Run(id);
      arrived := arrived';
    }

    /** Any number of steps of any goroutines. */
    method Schedule(ghost j: Job)
      requires j.Inv(Running(), arrived) && j.H == H
      modifies `nodes, `running, `result, `arrived
      ensures j.Inv(Running(), arrived)
      ensures old(running) == map[] ==> nodes == old(nodes) && running == map[] && arrived == old(arrived)
    {
      hide Job.Inv;
      var go: bool := *;
      while go && running != map[]
        invariant j.Inv(Running(), arrived)
        invariant old(running) == map[] ==> nodes == old(nodes) && running == map[] && arrived == old(arrived)
        decreases Edges(j.top) - arrived, StillHashing(running)
      {
        var id :| id in running;
        Step(id, j);
        go := *;
      }
    }

    /** Handing leaf `i` to a goroutine of its own. */
    method WriteSegment(i: nat, s: Bytes, d: nat)
      modifies `running
      ensures running == old(running)[i := Start(size, Top(), i, s, d)]
    {
      if |s| > size && 1 < Top() {
        running := running[i := Hashing(i, d, s)];
      } else {
        running := running[i := Climbing(Pos(1, i), true, i * 2, d, s)];
      }
    }

    /** A full leaf is handed over during a write. */
    method HandOver(i: nat, s: Bytes)
      requires UnderWay(i) && i + 1 < LeafCount(count)
      requires Offset(size, 1, i) <= Offset(size, 1, i + 1) <= |written|
      requires s == written[Offset(size, 1, i)..Offset(size, 1, i + 1)]
      modifies `nodes, `running, `result, `arrived
      ensures UnderWay(i + 1)
    {
      hide Job.Inv, Width, Offset;
      ghost var j, j' := JobAt(i, false), JobAt(i + 1, false);
      ghost var m := Running();
      KeysKept(j, m, arrived);
      FullLeaf(j, j', s, depth);
      WriteSegment(i, s, depth);
      LaunchKeeps(j, j', m, Running(), arrived, depth);
      KeysKept(j', Running(), arrived);
      Schedule(j');
      KeysKept(j', Running(), arrived);
    }

    /** Bytes that join the open leaf do not disturb the goroutines. */
    ghost method TakeIn(full: nat, more: Bytes)
      requires UnderWay(full) && Offset(size, 1, full) <= |written|
      modifies `written
      ensures UnderWay(full) && written == old(written) + more
    {
      hide Job.Inv, Width, Offset;
      var j := JobAt(full, false);
      KeysKept(j, Running(), arrived);
      written := written + more;
      DataGrows(j, JobAt(full, false), Running(), arrived);
    }

    /** The bytes of a write of `l` bytes that complete the open leaf, and those that remain. */
    method Plan(l: nat) returns (rest: int, need: int, sz: nat)
      ensures var room := Capacity(size, count) - Offset(size, 1, cur);
              && sz == (if room > size then 2 * size else size)
              && rest == Min(sz - |segment|, Min(l, room))
              && need == Min(l, room) - rest
    {
      CapacityIs(size, count);
      OffsetLeaf(size, cur);
      Reassociate(size, cur);
      need := count * size - cur * 2 * size;
      sz := size;
      if need > sz {
        sz := sz * 2;
      }
      if l < need {
        need := l;
      }
      rest := sz - |segment|;
      if need < rest {
        rest := need;
      }
      need := need - rest;
    }

    /**
    Taking in bytes. Every full leaf is handed over at once; the open one is kept. A chunk that has
    outgrown its capacity cannot be written to again.
    */
    method Write(b: Bytes) returns (n: nat)
      requires Valid() && open && |written| <= Capacity(size, count)
      modifies this
      ensures Valid() && open && uses == old(uses) && blockLength == old(blockLength)
      ensures n == |b|
      ensures 0 <= Accepted(size, count, old(cur), |old(segment)|, |b|) <= |b|
      ensures written == old(written) + b[..Accepted(size, count, old(cur), |old(segment)|, |b|)]
    {
      hide UnderWay, Width, Offset, Accepted, Capacity, LeafCount, Min;
      var l := |b|;
      ghost var taken := Accepted(size, count, cur, |segment|, l);
      FirstPart(size, count, cur, |segment|, l);
      if l <= 0 {
        assert written + b[..0] == written;
        return 0;
      }
      var rest, need, sz := Plan(l);
      TakeIn(cur, b[..taken]);
      JoinSlice(old(written), b, taken, Offset(size, 1, cur), rest);
      segment, cur := Distribute(b, segment + b[..rest], cur, rest, need, sz, old(written), taken);
      n := l;
    }

    /** The loop of a write: full leaves are handed over until the bytes or the leaves run out. */
    method Distribute(b: Bytes, s0: Bytes, i0: nat, rest0: nat, need0: int, sz0: nat, ghost w: Bytes, ghost taken: nat)
      returns (s: Bytes, i: nat)
      requires UnderWay(i0) && count > 0 && size > 0 && taken <= |b| && written == w + b[..taken]
      requires Dealing(size, LeafCount(count), i0, s0, w, b, taken, rest0, need0, sz0)
      modifies `nodes, `running, `result, `arrived
      ensures UnderWay(i) && i < LeafCount(count) && |s| <= 2 * size && (i > 0 ==> |s| > 0)
      ensures Offset(size, 1, i) + |s| == |written| && s == written[Offset(size, 1, i)..]
    {
      hide UnderWay, Width, Offset, LeafCount, Dealing;
      var rest: nat, need: int, sz: nat := rest0, need0, sz0;
      s, i := s0, i0;
      var leaves := LeafCount(count);
      while need > 0 && i < leaves - 1
        invariant UnderWay(i) && Dealing(size, leaves, i, s, w, b, taken, rest, need, sz)
        decreases leaves - i
      {
        DealsOn(size, leaves, i, s, w, b, taken, rest, need, sz);
        HandOver(i, s);
        need := need - sz;
        if need < 0 {
          sz := sz + need;
        }
        s := b[rest..rest + sz];
        rest := rest + sz;
        i := i + 1;
      }
      DealsOut(size, leaves, i, s, w, b, taken, rest, need, sz);
    }

    /** Any number of steps of any goroutines while the path is being marked; `u` is the machine without marks. */
    method Interleave(ghost j: Job, ghost u: Machine, ghost lo: nat, ghost h: nat,
                      ghost stage: nat) returns (ghost u': Machine)
      requires if running == map[] then true else Markable(j, u) && Beside(j, u, Running(), lo, h, stage)
      modifies `nodes, `running, `result, `arrived
      ensures if old(running) == map[] then Running() == old(Running()) && arrived == old(arrived) && u' == u
              else Markable(j, u') && Beside(j, u', Running(), lo, h, stage)
    {
      hide Advance, Markable, Beside;
      u' := u;
      var go: bool := *;
      while go && running != map[]
        invariant if old(running) == map[] then Running() == old(Running()) && arrived == old(arrived) && u' == u
                  else Markable(j, u') && Beside(j, u', Running(), lo, h, stage)
        decreases Edges(j.top) - arrived, StillHashing(running)
      {
        var id :| id in running;
        u' := StepAlong(id, j, u', lo, h, stage);
        go := *;
      }
    }

    /** The unmarked machine is that of a job that is still being written, and can be closed. */
    ghost predicate Markable(j: Job, u: Machine)
      reads `arrived
    {
      j.Inv(u, arrived) && !j.fin && j.(fin := true).Valid() && j.H == H && j.top == Top()
    }

    method StepAlong(id: nat, ghost j: Job, ghost u: Machine, ghost lo: nat, ghost h: nat, ghost stage: nat)
      returns (ghost u': Machine)
      requires id in running && Markable(j, u) && Beside(j, u, Running(), lo, h, stage)
      modifies `nodes, `running, `result, `arrived
      ensures Markable(j, u') && Beside(j, u', Running(), lo, h, stage)
      ensures Edges(j.top) - arrived < old(Edges(j.top) - arrived) ||
              (arrived == old(arrived) && StillHashing(running) < old(StillHashing(running)))
    {
      hide Job.Inv, Job.Valid, Advance, MarkedTo;
      ghost var arrived' := Closer(j, u, arrived, id);
      StepBeside(j, u, Running(), arrived, id, lo, h, stage);
      u' := Advance(H, u, id);
      Run(id);
      arrived := arrived';
    }

    /** A node of the path is written to, and goroutines move on. */
    method WriteNode(n: Pos, node: Node, ghost j: Job, ghost u: Machine, ghost lo: nat, ghost stage: nat,
                     ghost busy: bool)
      returns (ghost u': Machine)
      requires Complete(Top(), nodes) && InTree(Top(), n)
      requires if busy then Markable(j, u) && Beside(j, u, Running().(nodes := nodes[n := node]), lo, n.height, stage)
               else running == map[]
      modifies `nodes, `running, `result, `arrived
      ensures Complete(Top(), nodes)
      ensures if busy then Markable(j, u') && Beside(j, u', Running(), lo, n.height, stage)
              else running == map[] && result == old(result) && u' == u && nodes == old(nodes)[n := node]
    {
      hide Job.Inv, Job.Valid, Beside;
      nodes := nodes[n := node];
      u' := Interleave(j, u, lo, n.height, stage);
      if busy {
        BesideTree(j, u', Running(), arrived, lo, n.height, stage);
      }
    }

    /** One node of the path: its fields are written one after the other. */
    method MarkNode(n: Pos, isLeft: bool, ghost j: Job, ghost u: Machine, ghost lo: nat,
                    ghost busy: bool) returns (ghost u': Machine)
      requires Complete(Top(), nodes) && InTree(Top(), n) && lo <= n.height
      requires if busy then Markable(j, u) && Beside(j, u, Running(), lo, n.height, 0) && PathAt(j, n, isLeft)
               else running == map[]
      modifies `nodes, `running, `result, `arrived
      ensures Complete(Top(), nodes)
      ensures if busy then && Markable(j, u') && (n.index == 0 ==> Beside(j, u', Running(), lo, n.height, 3))
                           && (n.index > 0 ==> Beside(j, u', Running(), lo, n.height + 1, 0))
                           && (n.index > 0 ==> PathAt(j, Parent(n), IsLeft(n)))
              else running == map[] && result == old(result) && u' == u && nodes == MarkedAt(old(nodes), n, isLeft)
    {
      hide Job.Inv, Job.Valid, Beside, PathAt;
      if busy {
        BesideTree(j, u, Running(), arrived, lo, n.height, 0);
        WriteUnbalanced(j, u, Running(), lo, n, isLeft);
      }
      u' := WriteNode(n, nodes[n].(unbalanced := isLeft), j, u, lo, 1, busy);
      if busy {
        BesideTree(j, u', Running(), arrived, lo, n.height, 1);
        WriteRight(j, u', Running(), lo, n, isLeft);
      }
      u' := WriteNode(n, nodes[n].(right := []), j, u', lo, 2, busy);
      if n.index == 0 {
        if busy {
          BesideTree(j, u', Running(), arrived, lo, n.height, 2);
          WriteRoot(j, u', Running(), lo, n, isLeft);
        }
        u' := WriteNode(n, nodes[n].(root := true), j, u', lo, 3, busy);
      } else if busy {
        MarkOn(j, u', Running(), lo, n, isLeft);
      }
    }

    /**
    Marking the path of the last segment before it is handed over, while goroutines move on. They do
    what they would have done without the marks: the machine is `u` with the marks added.
    */
    method MarkPath(start: Pos, fromLeft: bool, ghost j: Job, ghost busy: bool) returns (d: nat, ghost u: Machine)
      requires Complete(Top(), nodes) && InTree(Top(), start)
      requires if busy then Markable(j, Running()) && PathAt(j, start, fromLeft) else running == map[]
      modifies `nodes, `running, `result, `arrived
      ensures Complete(Top(), u.nodes) && d == Climbs(start)
      ensures Running() == u.(nodes := Finalise(Top(), u.nodes, start, fromLeft))
      ensures if busy then Markable(j, u) else u == old(Running())
    {
      hide Job.Inv, Job.Valid, Markable, PathAt, Beside, Finalise;
      var n, isLeft := start, fromLeft;
      d, u := 0, Running();
      BesideItself(j, Running(), start.height);
      while true
        invariant Complete(Top(), nodes) && InTree(Top(), n) && start.height <= n.height
        invariant busy ==> Markable(j, u) && Beside(j, u, Running(), start.height, n.height, 0) && PathAt(j, n, isLeft)
        invariant !busy ==> running == map[] && u == old(Running()) && result == u.result
        invariant !busy ==> Finalise(Top(), nodes, n, isLeft) == Finalise(Top(), u.nodes, start, fromLeft)
        invariant d + Climbs(n) == Climbs(start)
        decreases n.index
      {
        FinaliseStep(Top(), nodes, n, isLeft);
        u := MarkNode(n, isLeft, j, u, start.height, busy);
        if n.index == 0 {
          if busy {
            Tracked(j, u);
            MarkedPath(j, u, Running(), start, fromLeft, n, isLeft);
          }
          return;
        }
        isLeft := IsLeft(n);
        n := Parent(n);
        d := d + 1;
      }
    }

    lemma Tracked(j: Job, u: Machine)
      requires Markable(j, u)
      ensures j.Valid() && !j.fin && j.(fin := true).Valid() && Complete(j.top, u.nodes) && j.top == Top()
    {
      hide Job.Valid;
    }

    /** Clearing the marks of the path and giving the tree back. */
    method ReleaseTree()
      requires Complete(Top(), nodes) && InTree(Top(), Pos(1, cur))
      modifies `nodes, `cur, `segment, `open
      ensures nodes == Release(Top(), old(nodes), Pos(1, old(cur)))
      ensures cur == 0 && segment == [] && !open
    {
      var n := Pos(1, cur);
      while n.height < Top()
        invariant Complete(Top(), nodes) && InTree(Top(), n)
        invariant Release(Top(), nodes, n) == Release(Top(), old(nodes), Pos(1, old(cur)))
      {
        nodes := nodes[n := nodes[n].(unbalanced := false, root := false)];
        n := Parent(n);
      }
      nodes := nodes[n := nodes[n].(unbalanced := false)];
      cur, segment, open := 0, [], false;
    }

    /** The last segment: its path is marked and it is handed over. */
    method Close(ghost j: Job) returns (ghost u: Machine)
      requires Complete(Top(), nodes) && InTree(Top(), Pos(1, cur))
      requires InTree(Top(), LastStart(size, Top(), cur, segment))
      requires if cur > 0 then Markable(j, Running()) && j.size == size && j.full == cur && segment == Open(j)
               else running == map[]
      modifies `nodes, `running, `result, `arrived
      ensures Complete(Top(), u.nodes) && Running() == Closed(size, Top(), u, cur, segment)
      ensures if cur > 0 then Markable(j, u) else u == old(Running())
    {
      hide Job.Inv, Job.Valid, Finalise, PathAt, Markable, Open, Climbs, InTree, Start;
      if cur > 0 {
        Tracked(j, Running());
        StartAt(j, segment);
      }
      var n, fromLeft := FindStart();
      var d;
      d, u := MarkPath(n, fromLeft, j, cur > 0);
      WriteSegment(cur, segment, d);
    }

    /** The node at which the marking starts, and whether the last segment comes to it from the left. */
    method FindStart() returns (n: Pos, fromLeft: bool)
      ensures n == LastStart(size, Top(), cur, segment)
      ensures fromLeft == if n.height == 1 then true else IsLeft(Pos(1, cur))
    {
      var i := cur;
      n := Pos(1, cur);
      if |segment| > size && i > 0 && n.height < Top() {
        n := Parent(n);
      } else {
        i := i * 2;
      }
      fromLeft := i % 2 == 0;
    }

    /**
    The hash of the bytes written, whatever the order in which the goroutines run: that of the
    reference hasher. The tree is given back at rest.
    */
    method Sum(ghost span: nat) returns (r: Bytes)
      requires Valid() && open
      requires IsSpan(size, span) && Offset(size, 1, LeafCount(count)) <= 2 * span
      modifies this
      ensures Valid() && !open && uses == old(uses) + 1
      ensures var c := RefHash(H, size, old(written), span);
              r == if old(blockLength) == None then c else H(old(blockLength).value + c)
    {
      var c := Await(span);
      r := c;
      if blockLength != None {
        r := H(blockLength.value + c);
      }
    }

    /** Handing over the last segment, running to the end, and giving the tree back. */
    method Await(ghost span: nat) returns (c: Bytes)
      requires Valid() && open
      requires IsSpan(size, span) && Offset(size, 1, LeafCount(count)) <= 2 * span
      modifies this
      ensures Valid() && !open && uses == old(uses) + 1 && blockLength == old(blockLength)
      ensures c == RefHash(H, size, old(written), span)
    {
      hide Job.Inv, Job.Valid, Width, Offset, RefHash, Advance, Release, Closed, Clean, UnderWay, Rested;
      ghost var j0, j := JobAt(cur, false), JobAt(cur, true);
      Closable(span);
      ghost var u := Close(j0);
      if cur > 0 {
        FinalKeeps(j0, j, u, arrived);
      }
      RunToEnd(j, Running(), span);
      c := result.value;
      if cur > 0 {
        Ended(j, Running(), arrived, span, uses);
      }
      GiveBack();
    }

    /** The released tree is at rest, ready for the next chunk. */
    method GiveBack()
      requires Fixed() && Complete(Top(), nodes) && InTree(Top(), Pos(1, cur)) && running == map[]
      requires forall p :: p in nodes ==> Rested(Release(Top(), nodes, Pos(1, cur))[p], p, Top(), uses + 1)
      modifies this
      ensures Valid() && !open && uses == old(uses) + 1 && blockLength == old(blockLength)
    {
      hide Release, Rested, Width;
      ReleaseTree();
      result, written, uses := None, [], uses + 1;
    }

    /** Goroutines are run in any order until one of them delivers the result. */
    method RunToEnd(ghost j: Job, ghost m: Machine, ghost span: nat)
      requires Running() == m && size > 0 && IsSpan(size, span)
      requires if cur > 0 then j.Inv(m, arrived) && j.fin && j.H == H && j.top == Top()
               else OneStepAway(H, size, Top(), m, written, span, uses)
      modifies `nodes, `running, `result, `arrived
      ensures result.Some?
      ensures if cur > 0 then j.Inv(Running(), arrived)
              else OneStepAway(H, size, Top(), m, written, span, uses) && Running() == Advance(H, m, 0)
    {
      hide Job.Inv, Advance, Width, RefHash, Release, Rested;
      while result == None
        invariant cur > 0 ==> j.Inv(Running(), arrived)
        invariant cur == 0 ==> Running() == if result.Some? then Advance(H, m, 0) else m
        decreases Edges(Top()) - arrived, StillHashing(running), if result == None then 1 else 0
      {
        ghost var arrived' := arrived;
        if cur > 0 && running == map[] {
          Progress(j, Running(), arrived);
        }
        var id :| id in running;
        if cur > 0 {
          arrived' := Closer(j, Running(), arrived, id);
        }
        Run(id);
        arrived := arrived';
      }
    }

    /** What the last segment starts: a closed job, or the single goroutine of a small chunk. */
    lemma Closable(span: nat)
      requires Valid() && open
      requires IsSpan(size, span) && Offset(size, 1, LeafCount(count)) <= 2 * span
      ensures Complete(Top(), nodes) && InTree(Top(), Pos(1, cur))
      ensures InTree(Top(), LastStart(size, Top(), cur, segment))
      ensures |written| <= 2 * span
      ensures cur > 0 ==> Markable(JobAt(cur, false), Running()) && segment == Open(JobAt(cur, false))
      ensures cur == 0 ==> running == map[]
      ensures cur == 0 ==> var m := Closed(size, Top(), Running(), cur, segment);
                           OneStepAway(H, size, Top(), m, written, span, uses)
      ensures uses < LIFETIME && forall p :: InTree(Top(), p) ==> p in base && base[p] <= 2 * uses
    {
      hide Job.Inv, Width, RefHash, Advance, Release;
      var j0, j := JobAt(cur, false), JobAt(cur, true);
      KeysKept(j0, Running(), arrived);
      LastPart(j0, j, segment);
      WithinLeaves(size, LeafCount(count), cur);
      if cur == 0 {
        assert segment == written && Running() == Machine(nodes, map[], None);
        SmallChunk(H, size, Top(), nodes, segment, span);
        EndedSmall(nodes, Advance(H, Closed(size, Top(), Running(), 0, segment), 0).nodes, Top(), uses);
      }
    }
  }

  /** At the end of a job the result is right, nobody is running and the released tree is at rest. */
  lemma Ended(j: Job, m: Machine, arrived: set<Pos>, span: nat, uses: nat)
    requires j.Inv(m, arrived) && j.fin && m.result.Some? && uses < LIFETIME
    requires IsSpan(j.size, span) && |j.data| <= 2 * span
    requires forall p :: InTree(j.top, p) ==> p in j.base && j.base[p] <= 2 * uses
    ensures m.running == map[] && m.result.value == RefHash(j.H, j.size, j.data, span)
    ensures Complete(j.top, m.nodes) && Pos(1, j.full) in m.nodes
    ensures forall p :: p in m.nodes ==> Rested(Release(j.top, m.nodes, Pos(1, j.full))[p], p, j.top, uses + 1)
  {
    hide Job.Inv, Width, RefHash, Release;
    Done(j, m, arrived, span);
    RestAgain(j, m, arrived);
    KeysKept(j, m, arrived);
    forall p | p in m.nodes ensures Rested(Release(j.top, m.nodes, Pos(1, j.full))[p], p, j.top, uses + 1) {
      BumpedTwice(j.base[p], uses);
    }
  }

  lemma BumpedTwice(base: int, uses: nat)
    requires base % 2 == 0 && 0 <= base < MAX_INT32 && base <= 2 * uses
    ensures Bumped(base, 2) % 2 == 0
    ensures uses + 1 < LIFETIME ==> 0 <= Bumped(base, 2) <= 2 * (uses + 1)
  {
    assert Bumped(base, 1) == Bump(Bumped(base, 0));
  }

  lemma EndedSmall(nodes: Nodes, nodes': Nodes, top: nat, uses: nat)
    requires Complete(top, nodes') && nodes.Keys == nodes'.Keys && InTree(top, Pos(1, 0))
    requires forall p :: p in nodes ==> 0 <= nodes[p].state <= 2 * uses
    requires Clean(top, Release(top, nodes', Pos(1, 0)))
    requires forall p :: p in nodes ==> Release(top, nodes', Pos(1, 0))[p].state == nodes[p].state
    ensures forall p :: p in nodes' ==> Rested(Release(top, nodes', Pos(1, 0))[p], p, top, uses + 1)
  {
  }

  lemma WithinLeaves(size: nat, leaves: nat, cur: nat)
    requires cur < leaves
    ensures Offset(size, 1, cur) + 2 * size <= Offset(size, 1, leaves)
    ensures Offset(size, 1, 0) == 0
  {
    assert Width(size, 1) == 2 * Width(size, 0);
    OffsetOrder(size, 1, cur, leaves);
  }

  lemma LastPart(j0: Job, j: Job, segment: Bytes)
    requires j0.Valid() && !j0.fin && j == j0.(fin := true)
    requires |j.data| == Offset(j.size, 1, j.full) + |segment| && segment == j.data[Offset(j.size, 1, j.full)..]
    requires |segment| <= 2 * j.size && (j.full > 0 ==> |segment| > 0)
    ensures j.full > 0 ==> j.Valid()
    ensures segment == Open(j0)
    ensures InTree(j.top, Pos(1, j.full)) && InTree(j.top, LastStart(j.size, j.top, j.full, segment))
  {
    assert Width(j.size, 1) == 2 * Width(j.size, 0);
    if j.top > 1 {
      InTreeUp(j.top, Pos(1, j.full));
    }
  }

  lemma JoinSlice(w: Bytes, b: Bytes, taken: nat, start: nat, rest: nat)
    requires start <= |w| && rest <= taken <= |b|
    ensures w[start..] + b[..rest] == (w + b[..taken])[start..|w| + rest]
  {
  }

  lemma LaterSlice(w: Bytes, b: Bytes, taken: nat, x: nat, y: nat)
    requires x <= y <= taken <= |b|
    ensures b[x..y] == (w + b[..taken])[|w| + x..|w| + y]
  {
  }

  /** The facts about a job that its invariant carries whatever its goroutines do. */
  lemma KeysKept(j: Job, m: Machine, arrived: set<Pos>)
    requires j.Inv(m, arrived)
    ensures Complete(j.top, m.nodes) && j.Valid()
    ensures !j.fin ==> m.result == None
  {
  }

  lemma FullLeaf(j: Job, j': Job, s: Bytes, depth: nat)
    requires j.size > 0 && j.top == depth + 1 && !j.fin && j.full + 1 < Width(1, depth) && j.Valid()
    requires Offset(j.size, 1, j.full) <= Offset(j.size, 1, j.full + 1) <= |j.data|
    requires s == j.data[Offset(j.size, 1, j.full)..Offset(j.size, 1, j.full + 1)]
    requires j' == j.(full := j.full + 1)
    ensures j'.Valid() && s == j.Block(Pos(1, j.full)) && |s| > j.size && depth > 0
  {
    assert Width(j.size, 1) == 2 * Width(j.size, 0);
  }
}
