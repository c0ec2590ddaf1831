/**
The block chain: blocks are written under known parents, the head moves to the heaviest chain, and
the canonical numbers and the transaction lookup table follow it through reorganisations.
*/
module BlockChain {
  import opened Wrappers
  import opened BlockTree

  /** Where a transaction is found. */
  datatype Entry = Entry(block: Hash, number: nat, index: nat)

  type Lookup = map<nat, Entry>

  // ----- transactions on the path to a block -----

  /** The `i`-th transaction of the block number `n` on the path to `h` is `t`. */
  ghost predicate Placed(blocks: Blocks, genesis: Hash, h: Hash, t: nat, n: nat, i: nat)
    requires Rooted(blocks, genesis) && h in blocks
  {
    n <= blocks[h].number &&
    var txs := blocks[Ancestor(blocks, genesis, h, n)].txs;
    i < |txs| && txs[i] == t
  }

  /** No transaction is twice on the path to `h`. */
  ghost predicate Unrepeated(blocks: Blocks, genesis: Hash, h: Hash)
    requires Rooted(blocks, genesis) && h in blocks
  {
    forall t: nat, n: nat, i: nat, m: nat, j: nat ::
      Placed(blocks, genesis, h, t, n, i) && Placed(blocks, genesis, h, t, m, j) ==> n == m && i == j
  }

  ghost predicate Found(blocks: Blocks, genesis: Hash, lookup: Lookup, h: Hash, t: nat)
    requires Rooted(blocks, genesis) && h in blocks
  {
    && t in lookup && Placed(blocks, genesis, h, t, lookup[t].number, lookup[t].index)
    && lookup[t].block == Ancestor(blocks, genesis, h, lookup[t].number)
  }

  /** The lookup table finds the transactions on the path to `h` ... */
  ghost predicate Finds(blocks: Blocks, genesis: Hash, lookup: Lookup, h: Hash)
    requires Rooted(blocks, genesis) && h in blocks
  {
    forall t: nat, n: nat, i: nat {:trigger Placed(blocks, genesis, h, t, n, i)} ::
      Placed(blocks, genesis, h, t, n, i) ==> Found(blocks, genesis, lookup, h, t)
  }

  /** ... and nothing else, except for those in `extra`. */
  ghost predicate Only(blocks: Blocks, genesis: Hash, lookup: Lookup, h: Hash, extra: set<nat>)
    requires Rooted(blocks, genesis) && h in blocks
  {
    forall t: nat {:trigger Found(blocks, genesis, lookup, h, t)} ::
      t in lookup && t !in extra ==> Found(blocks, genesis, lookup, h, t)
  }

  ghost predicate Indexed(blocks: Blocks, genesis: Hash, lookup: Lookup, h: Hash)
    requires Rooted(blocks, genesis) && h in blocks
  {
    Finds(blocks, genesis, lookup, h) && Only(blocks, genesis, lookup, h, {})
  }

  /** The entries of a block, written over those there were. */
  ghost predicate Written(lookup: Lookup, lookup': Lookup, h: Hash, b: Block) {
    && lookup'.Keys == lookup.Keys + (set t | t in b.txs)
    && (forall t: nat {:trigger lookup'[t]} :: t in lookup' && t !in b.txs ==> lookup'[t] == lookup[t])
    && (forall t: nat {:trigger lookup'[t]} :: t in b.txs ==>
          && lookup'[t].block == h && lookup'[t].number == b.number
          && lookup'[t].index < |b.txs| && b.txs[lookup'[t].index] == t)
  }

  lemma WriteOne(lookup: Lookup, lookup': Lookup, h: Hash, b: Block, i: nat)
    requires i < |b.txs| && Written(lookup, lookup', h, b.(txs := b.txs[..i]))
    ensures Written(lookup, lookup'[b.txs[i] := Entry(h, b.number, i)], h, b.(txs := b.txs[..i + 1]))
  {
    assert b.txs[..i + 1] == b.txs[..i] + [b.txs[i]];
    var txs, l := b.txs[..i], lookup'[b.txs[i] := Entry(h, b.number, i)];
    assert forall t: nat :: t in b.txs[..i + 1] <==> t in txs || t == b.txs[i];
    forall t: nat | t in txs && t != b.txs[i] ensures l[t] == lookup'[t] {
    }
  }

  /** The path to a block is the path to its parent, and the block. */
  lemma PlacedBelow(blocks: Blocks, genesis: Hash, h: Hash, t: nat, n: nat, i: nat)
    requires Rooted(blocks, genesis) && h in blocks
    ensures n < blocks[h].number ==>
              blocks[h].parent in blocks &&
              (Placed(blocks, genesis, h, t, n, i) <==> Placed(blocks, genesis, blocks[h].parent, t, n, i)) &&
              Ancestor(blocks, genesis, h, n) == Ancestor(blocks, genesis, blocks[h].parent, n)
    ensures Placed(blocks, genesis, h, t, blocks[h].number, i) <==> i < |blocks[h].txs| && blocks[h].txs[i] == t
  {
  }

  /** Writing the entries of a block extends the index from its parent to it. */
  lemma WriteExtends(blocks: Blocks, genesis: Hash, lookup: Lookup, lookup': Lookup, h: Hash, extra: set<nat>)
    requires Rooted(blocks, genesis) && h in blocks && blocks[h].number > 0 && blocks[h].parent in blocks
    requires Unrepeated(blocks, genesis, h) && Written(lookup, lookup', h, blocks[h])
    requires Finds(blocks, genesis, lookup, blocks[h].parent) && Only(blocks, genesis, lookup, blocks[h].parent, extra)
    ensures Finds(blocks, genesis, lookup', h) && Only(blocks, genesis, lookup', h, extra)
  {
    var p, b := blocks[h].parent, blocks[h];
    forall t: nat | t in b.txs ensures Found(blocks, genesis, lookup', h, t) {
      assert lookup'[t] == lookup'[t];
      PlacedBelow(blocks, genesis, h, t, b.number, lookup'[t].index);
    }
    forall t: nat | t !in b.txs && Found(blocks, genesis, lookup, p, t) ensures Found(blocks, genesis, lookup', h, t) {
      assert lookup'[t] == lookup[t];
      PlacedBelow(blocks, genesis, h, t, lookup[t].number, lookup[t].index);
    }
    forall t: nat, n: nat, i: nat | Placed(blocks, genesis, h, t, n, i) ensures Found(blocks, genesis, lookup', h, t) {
      PlacedBelow(blocks, genesis, h, t, n, i);
      if t !in b.txs {
        assert Placed(blocks, genesis, p, t, n, i);
      }
    }
  }

  // ----- the two sides of a fork -----

  ghost predicate IsAncestor(blocks: Blocks, genesis: Hash, h: Hash, a: Hash)
    requires Rooted(blocks, genesis) && h in blocks
  {
    a in blocks && blocks[a].number <= blocks[h].number && Ancestor(blocks, genesis, h, blocks[a].number) == a
  }

  /** `t` is in a block after `a` on the path to `h`. */
  ghost predicate After(blocks: Blocks, genesis: Hash, h: Hash, a: Hash, t: nat)
    requires Rooted(blocks, genesis) && h in blocks && a in blocks
  {
    exists n: nat, i: nat :: blocks[a].number < n && Placed(blocks, genesis, h, t, n, i)
  }

  /** The transactions collected on the way from `h` down to `at`. */
  ghost predicate Collected(blocks: Blocks, genesis: Hash, h: Hash, at: Hash, txs: seq<nat>)
    requires Rooted(blocks, genesis) && h in blocks
  {
    && IsAncestor(blocks, genesis, h, at)
    && forall t: nat :: t in txs <==> After(blocks, genesis, h, at, t)
  }

  /** The blocks collected on the way from `h` down to `at`. */
  ghost predicate Descent(blocks: Blocks, genesis: Hash, h: Hash, at: Hash, chain: seq<Hash>)
    requires Rooted(blocks, genesis) && h in blocks
  {
    && IsAncestor(blocks, genesis, h, at) && |chain| == blocks[h].number - blocks[at].number
    && forall k {:trigger chain[k]} ::
      0 <= k < |chain| ==> chain[k] == Ancestor(blocks, genesis, h, blocks[h].number - k)
  }

  lemma ParentIsAncestor(blocks: Blocks, genesis: Hash, h: Hash, at: Hash)
    requires Rooted(blocks, genesis) && h in blocks && IsAncestor(blocks, genesis, h, at) && blocks[at].number > 0
    ensures blocks[at].parent in blocks && blocks[blocks[at].parent].number == blocks[at].number - 1
    ensures IsAncestor(blocks, genesis, h, blocks[at].parent)
  {
    var p := blocks[at].parent;
    AncestorOfAncestor(blocks, genesis, h, blocks[at].number, blocks[at].number - 1);
    assert Ancestor(blocks, genesis, p, blocks[p].number) == p;
  }

  lemma CollectStep(blocks: Blocks, genesis: Hash, h: Hash, at: Hash, txs: seq<nat>)
    requires Rooted(blocks, genesis) && h in blocks && Collected(blocks, genesis, h, at, txs) && blocks[at].number > 0
    ensures blocks[at].parent in blocks && blocks[blocks[at].parent].number == blocks[at].number - 1
    ensures Collected(blocks, genesis, h, blocks[at].parent, txs + blocks[at].txs)
  {
    hide Ancestor;
    ParentIsAncestor(blocks, genesis, h, at);
    var p, b := blocks[at].parent, blocks[at];
    forall t: nat ensures t in txs + b.txs <==> After(blocks, genesis, h, p, t) {
      if t in b.txs {
        var i :| 0 <= i < |b.txs| && b.txs[i] == t;
        assert Placed(blocks, genesis, h, t, b.number, i);
      }
      if t in txs {
        var n: nat, i: nat :| b.number < n && Placed(blocks, genesis, h, t, n, i);
        assert Placed(blocks, genesis, h, t, n, i);
      }
      if After(blocks, genesis, h, p, t) {
        var n: nat, i: nat :| blocks[p].number < n && Placed(blocks, genesis, h, t, n, i);
        assert n > b.number ==> After(blocks, genesis, h, at, t);
        assert n == b.number ==> b.txs[i] == t;
      }
    }
  }

  lemma DescentStep(blocks: Blocks, genesis: Hash, h: Hash, at: Hash, chain: seq<Hash>)
    requires Rooted(blocks, genesis) && h in blocks && Descent(blocks, genesis, h, at, chain) && blocks[at].number > 0
    ensures blocks[at].parent in blocks && blocks[blocks[at].parent].number == blocks[at].number - 1
    ensures Descent(blocks, genesis, h, blocks[at].parent, chain + [at])
  {
    hide Ancestor, Rooted;
    ParentIsAncestor(blocks, genesis, h, at);
    var chain' := chain + [at];
    forall k | 0 <= k < |chain'| ensures chain'[k] == Ancestor(blocks, genesis, h, blocks[h].number - k) {
      assert k < |chain| ==> chain'[k] == chain[k];
    }
  }

  /** On the way down an old path, what is passed is found too much. */
  lemma IndexDown(blocks: Blocks, genesis: Hash, lookup: Lookup, h: Hash, a: Hash, extra: set<nat>)
    requires Rooted(blocks, genesis) && h in blocks && IsAncestor(blocks, genesis, h, a)
    requires Indexed(blocks, genesis, lookup, h)
    requires forall t: nat :: t in extra <==> After(blocks, genesis, h, a, t)
    requires Unrepeated(blocks, genesis, h)
    ensures Finds(blocks, genesis, lookup, a) && Only(blocks, genesis, lookup, a, extra)
  {
    forall t: nat, n: nat, i: nat | n <= blocks[a].number
      ensures Placed(blocks, genesis, a, t, n, i) <==> Placed(blocks, genesis, h, t, n, i)
      ensures Ancestor(blocks, genesis, a, n) == Ancestor(blocks, genesis, h, n)
    {
      AncestorOfAncestor(blocks, genesis, h, blocks[a].number, n);
    }
    hide Ancestor;
    forall t: nat, n: nat, i: nat | Placed(blocks, genesis, a, t, n, i) ensures Found(blocks, genesis, lookup, a, t) {
      assert Placed(blocks, genesis, h, t, n, i);
      assert Found(blocks, genesis, lookup, h, t);
      assert lookup[t].number == n;
    }
    forall t: nat | t in lookup && t !in extra ensures Found(blocks, genesis, lookup, a, t) {
      assert Found(blocks, genesis, lookup, h, t);
      assert !After(blocks, genesis, h, a, t);
      assert lookup[t].number <= blocks[a].number;
    }
  }

  lemma CanonicalDown(blocks: Blocks, genesis: Hash, canonical: Numbers, h: Hash, a: Hash)
    requires Rooted(blocks, genesis) && h in blocks && IsAncestor(blocks, genesis, h, a)
    requires Canonical(blocks, genesis, canonical, h)
    ensures Canonical(blocks, genesis, canonical, a)
  {
    forall n: nat | n <= blocks[a].number ensures At(canonical, n) == Some(Ancestor(blocks, genesis, a, n)) {
      AncestorOfAncestor(blocks, genesis, h, blocks[a].number, n);
    }
  }

  lemma CanonicalUp(blocks: Blocks, genesis: Hash, canonical: Numbers, h: Hash)
    requires Rooted(blocks, genesis) && h in blocks && blocks[h].number > 0 && blocks[h].parent in blocks
    requires Canonical(blocks, genesis, canonical, blocks[h].parent)
    ensures Canonical(blocks, genesis, canonical[blocks[h].number := h], h)
  {
    AtUpdate(canonical, blocks[h].number, h);
  }

  lemma UnrepeatedBelow(blocks: Blocks, genesis: Hash, h: Hash, a: Hash)
    requires Rooted(blocks, genesis) && h in blocks
    requires IsAncestor(blocks, genesis, h, a) && Unrepeated(blocks, genesis, h)
    ensures Unrepeated(blocks, genesis, a)
  {
    forall t: nat, n: nat, i: nat | Placed(blocks, genesis, a, t, n, i) ensures Placed(blocks, genesis, h, t, n, i) {
      AncestorOfAncestor(blocks, genesis, h, blocks[a].number, n);
    }
  }

  lemma NotAgain(blocks: Blocks, genesis: Hash, h: Hash, c: Hash, t: nat, n: nat, i: nat)
    requires Rooted(blocks, genesis) && h in blocks && c in blocks && Unrepeated(blocks, genesis, h)
    requires Placed(blocks, genesis, h, t, n, i) && n <= blocks[c].number
    ensures !After(blocks, genesis, h, c, t)
  {
  }

  /** What was only on the old side of the fork is deleted; the rest is on the new path. */
  lemma DeleteLeaves(blocks: Blocks, genesis: Hash, lookup: Lookup, lookup': Lookup, h: Hash, h': Hash, c: Hash,
                     deleted: set<nat>, added: set<nat>)
    requires Rooted(blocks, genesis) && h in blocks && h' in blocks
    requires IsAncestor(blocks, genesis, h, c) && IsAncestor(blocks, genesis, h', c) && Unrepeated(blocks, genesis, h)
    requires forall t: nat :: t in deleted <==> After(blocks, genesis, h, c, t)
    requires forall t: nat :: t in added <==> After(blocks, genesis, h', c, t)
    requires Finds(blocks, genesis, lookup, h') && Only(blocks, genesis, lookup, h', deleted)
    requires lookup' == lookup - (deleted - added)
    ensures Indexed(blocks, genesis, lookup', h')
  {
    forall t: nat, n: nat, i: nat | Placed(blocks, genesis, h', t, n, i) ensures t !in deleted - added {
      if n > blocks[c].number {
        assert After(blocks, genesis, h', c, t);
      } else {
        AncestorOfAncestor(blocks, genesis, h, blocks[c].number, n);
        AncestorOfAncestor(blocks, genesis, h', blocks[c].number, n);
        NotAgain(blocks, genesis, h, c, t, n, i);
      }
    }
    hide Ancestor;
    forall t: nat, n: nat, i: nat | Placed(blocks, genesis, h', t, n, i)
      ensures Found(blocks, genesis, lookup', h', t)
    {
      assert Found(blocks, genesis, lookup, h', t);
    }
    forall t: nat | t in lookup' ensures Found(blocks, genesis, lookup', h', t) {
      if t in deleted {
        assert After(blocks, genesis, h', c, t);
        var m: nat, j: nat :| blocks[c].number < m && Placed(blocks, genesis, h', t, m, j);
        assert Placed(blocks, genesis, h', t, m, j);
      } else {
        assert Found(blocks, genesis, lookup, h', t);
      }
    }
  }

  // ----- the chain -----

  /** Of all blocks as heavy as the head, none has a lower number. */
  ghost predicate LowestHeaviest(blocks: Blocks, td: map<Hash, nat>, head: Hash) {
    && head in blocks && head in td
    && forall h :: h in blocks && h in td && td[h] == td[head] ==> blocks[head].number <= blocks[h].number
  }

  class BlockChain {
    const genesis: Hash
    var blocks: Blocks
    var td: map<Hash, nat>
    var canonical: Numbers
    var lookup: Lookup
    var head: Hash

    ghost predicate Valid()
      reads this
    {
      && Rooted(blocks, genesis) && head in blocks
      && Weighed(blocks, genesis, td, head)
      && Canonical(blocks, genesis, canonical, head)
      && Indexed(blocks, genesis, lookup, head)
      && Unrepeated(blocks, genesis, head)
      && LowestHeaviest(blocks, td, head)
    }

    constructor (genesis: Hash, difficulty: nat, parent: Hash)
      ensures Valid() && head == genesis && blocks.Keys == {genesis}
    {
      this.genesis, head := genesis, genesis;
      blocks, td := map[genesis := Block(0, parent, difficulty, [])], map[genesis := difficulty];
      canonical, lookup := map[0 := genesis], map[];
    }

    /** A block becomes the head; canonical numbers above it stay as they are. */
    method Insert(h: Hash)
      requires h in blocks
      modifies `canonical, `head
      ensures canonical == old(canonical)[blocks[h].number := h] && head == h
    {
      canonical := canonical[blocks[h].number := h];
      head := h;
    }

    /** The loop that writes the lookup entries of a block. */
    method WriteTxLookupEntries(h: Hash)
      requires h in blocks
      modifies `lookup
      ensures Written(old(lookup), lookup, h, blocks[h])
    {
      var b := blocks[h];
      assert Written(lookup, lookup, h, b.(txs := b.txs[..0]));
      hide Written;
      for i := 0 to |b.txs|
        invariant Written(old(lookup), lookup, h, b.(txs := b.txs[..i]))
      {
        WriteOne(old(lookup), lookup, h, b, i);
        lookup := lookup[b.txs[i] := Entry(h, b.number, i)];
      }
      assert b.txs[..|b.txs|] == b.txs;
    }

    /** Both sides of a fork are walked down to where they meet. */
    method WalkDown(h: Hash, h': Hash) returns (c: Hash, deleted: seq<nat>, chain: seq<Hash>)
      requires Rooted(blocks, genesis) && h in blocks && h' in blocks
      ensures Collected(blocks, genesis, h, c, deleted) && Descent(blocks, genesis, h', c, chain)
    {
      hide Rooted, Collected, Descent;
      var a, b := h, h';
      deleted, chain := [], [];
      WalkStarts(blocks, genesis, h, h');
      if blocks[a].number > blocks[b].number {
        while blocks[a].number != blocks[b].number
          invariant a in blocks && blocks[a].number >= blocks[b].number && Collected(blocks, genesis, h, a, deleted)
          decreases blocks[a].number
        {
          CollectStep(blocks, genesis, h, a, deleted);
          deleted := deleted + blocks[a].txs;
          a := blocks[a].parent;
        }
      } else {
        while blocks[b].number != blocks[a].number
          invariant b in blocks && blocks[b].number >= blocks[a].number && Descent(blocks, genesis, h', b, chain)
          decreases blocks[b].number
        {
          DescentStep(blocks, genesis, h', b, chain);
          chain := chain + [b];
          b := blocks[b].parent;
        }
      }
      while a != b
        invariant a in blocks && b in blocks && blocks[a].number == blocks[b].number
        invariant Collected(blocks, genesis, h, a, deleted) && Descent(blocks, genesis, h', b, chain)
        decreases blocks[a].number
      {
        NotGenesis(blocks, genesis, a, b);
        CollectStep(blocks, genesis, h, a, deleted);
        DescentStep(blocks, genesis, h', b, chain);
        deleted, chain := deleted + blocks[a].txs, chain + [b];
        a, b := blocks[a].parent, blocks[b].parent;
      }
      c := a;
    }

    /** The head moves from `h` to `h'`, on whatever fork it is. */
    method Reorg(h: Hash, h': Hash)
      requires Rooted(blocks, genesis) && h in blocks && h' in blocks && head == h
      requires Canonical(blocks, genesis, canonical, h) && Indexed(blocks, genesis, lookup, h)
      requires Unrepeated(blocks, genesis, h) && Unrepeated(blocks, genesis, h')
      modifies `canonical, `lookup, `head
      ensures Canonical(blocks, genesis, canonical, h') && Indexed(blocks, genesis, lookup, h')
    {
      hide Rooted, Collected, Descent, Canonical, Indexed, Finds, Only, Unrepeated, Written, IsAncestor;
      var c, deleted, chain := WalkDown(h, h');
      ghost var extra := set t | t in deleted;
      ForkStarts(blocks, genesis, canonical, lookup, h, c, deleted, extra);
      var added := [];
      ghost var tip := c;
      var i := |chain|;
      AddedStarts(blocks, genesis, h', c, chain);
      while i > 0
        invariant 0 <= i <= |chain| && tip in blocks && Climbed(blocks, genesis, h', c, chain, i, tip, added)
        invariant Canonical(blocks, genesis, canonical, tip)
        invariant Finds(blocks, genesis, lookup, tip) && Only(blocks, genesis, lookup, tip, extra)
        modifies `canonical, `lookup, `head
      {
        i := i - 1;
        ghost var before, numbers := lookup, canonical;
        ClimbStep(blocks, genesis, h', c, chain, i, tip, added);
        Insert(chain[i]);
        WriteTxLookupEntries(chain[i]);
        CanonicalUp(blocks, genesis, numbers, chain[i]);
        UnrepeatedBelow(blocks, genesis, h', chain[i]);
        WriteExtends(blocks, genesis, before, lookup, chain[i], extra);
        added := added + blocks[chain[i]].txs;
        tip := chain[i];
      }
      ClimbEnds(blocks, genesis, h', c, chain, tip, added);
      ghost var full := lookup;
      DeleteEntries(deleted, added);
      ForkEnds(blocks, genesis, full, lookup, h, h', c, deleted, added, chain);
    }

    /** The loop that deletes the entries of transactions that are no longer on the chain. */
    method DeleteEntries(deleted: seq<nat>, added: seq<nat>)
      modifies `lookup
      ensures lookup == old(lookup) - ((set t | t in deleted) - (set t | t in added))
    {
      for i := 0 to |deleted|
        invariant lookup == old(lookup) - ((set t | t in deleted[..i]) - (set t | t in added))
      {
        assert deleted[..i + 1] == deleted[..i] + [deleted[i]];
        if deleted[i] !in added {
          lookup := lookup - {deleted[i]};
        }
      }
      assert deleted[..|deleted|] == deleted;
    }

    /** A block is written; it becomes the head if it is heavier, or wins the tie. */
    method WriteBlock(h: Hash, b: Block, coin: bool) returns (status: Status)
      requires Valid() && (h in blocks ==> blocks[h] == b)
      requires b.parent in blocks ==> Joins(blocks, h, b) && JoinsUnrepeated(blocks, genesis, h, b)
      modifies this
      ensures Valid()
      ensures status == UnknownAncestor <==> b.parent !in old(blocks)
      ensures status == UnknownAncestor ==> unchanged(this)
      ensures status != UnknownAncestor ==> blocks == old(blocks)[h := b]
      ensures status != UnknownAncestor ==> head == if status == Canon then h else old(head)
      ensures old(head) in old(td) && head in td && old(td)[old(head)] <= td[head]
      ensures status != UnknownAncestor ==> b.parent in old(td) && h in td && td[h] == old(td)[b.parent] + b.difficulty
      ensures status != UnknownAncestor ==>
                && (td[h] > old(td)[old(head)] ==> status == Canon)
                && (td[h] < old(td)[old(head)] ==> status == Side)
      ensures status != UnknownAncestor && td[h] == old(td)[old(head)] ==>
                && (b.number < old(blocks)[old(head)].number ==> status == Canon)
                && (b.number > old(blocks)[old(head)].number ==> status == Side)
                && (b.number == old(blocks)[old(head)].number ==> (status == Canon <==> coin))
    {
      hide Rooted, Weighed, Canonical, Indexed, Unrepeated, Joins, LowestHeaviest;
      WeighedKeys(blocks, genesis, td, head);
      if b.parent !in td {
        return UnknownAncestor;
      }
      var localTd, externTd := td[head], b.difficulty + td[b.parent];
      Carried(blocks, genesis, canonical, lookup, head, h, b);
      if h in blocks {
        KnownWeight(blocks, genesis, td, head, h);
      }
      var reorg := externTd > localTd;
      if !reorg && externTd == localTd {
        reorg := b.number < blocks[head].number || (b.number == blocks[head].number && coin);
      }
      JoinedWeighed(blocks, genesis, td, head, h, b, if reorg then h else head);
      JoinedLowest(blocks, genesis, td, head, h, b, externTd, if reorg then h else head);
      td, blocks := td[h := externTd], blocks[h := b];
      if reorg {
        if b.parent != head {
          Reorg(head, h);
        }
        ghost var before, numbers := lookup, canonical;
        WriteTxLookupEntries(h);
        Insert(h);
        if b.parent != old(head) {
          Rewritten(blocks, genesis, before, lookup, h);
          Reinserted(blocks, genesis, numbers, h);
        } else {
          Appended(blocks, genesis, before, lookup, h);
          CanonicalUp(blocks, genesis, numbers, h);
        }
        status := Canon;
      } else {
        status := Side;
      }
    }
  }

  /** The head stays the lowest of the heaviest if ties go to the lower number, and between equals either way. */
  lemma JoinedLowest(blocks: Blocks, genesis: Hash, td: map<Hash, nat>, head: Hash, h: Hash, b: Block, weight: nat,
                     head': Hash)
    requires Rooted(blocks, genesis) && Weighed(blocks, genesis, td, head) && LowestHeaviest(blocks, td, head)
    requires h in blocks ==> blocks[h] == b && td[h] == weight
    requires head' == h || head' == head
    requires head' == h ==> weight > td[head] || (weight == td[head] && b.number <= blocks[head].number)
    requires head' == head ==> weight < td[head] || (weight == td[head] && b.number >= blocks[head].number)
    ensures LowestHeaviest(blocks[h := b], td[h := weight], head')
  {
    hide Rooted;
    forall x | x in td ensures td[x] <= td[head] {
    }
  }

  lemma NotGenesis(blocks: Blocks, genesis: Hash, a: Hash, b: Hash)
    requires Rooted(blocks, genesis) && a in blocks && b in blocks && a != b && blocks[a].number == blocks[b].number
    ensures blocks[a].number > 0
  {
  }

  lemma WalkStarts(blocks: Blocks, genesis: Hash, h: Hash, h': Hash)
    requires Rooted(blocks, genesis) && h in blocks && h' in blocks
    ensures Collected(blocks, genesis, h, h, []) && Descent(blocks, genesis, h', h', [])
  {
  }

  /** The index from the meeting point's view, before the new side is written. */
  lemma ForkStarts(blocks: Blocks, genesis: Hash, canonical: Numbers, lookup: Lookup, h: Hash, c: Hash,
                   deleted: seq<nat>, extra: set<nat>)
    requires Rooted(blocks, genesis) && h in blocks
    requires Collected(blocks, genesis, h, c, deleted) && extra == set t | t in deleted
    requires Canonical(blocks, genesis, canonical, h)
    requires Indexed(blocks, genesis, lookup, h) && Unrepeated(blocks, genesis, h)
    ensures c in blocks && Canonical(blocks, genesis, canonical, c)
    ensures Finds(blocks, genesis, lookup, c) && Only(blocks, genesis, lookup, c, extra)
  {
    hide Rooted, Canonical, Indexed, Unrepeated, After;
    CanonicalDown(blocks, genesis, canonical, h, c);
    IndexDown(blocks, genesis, lookup, h, c, extra);
  }

  /** `t` is in a block above `lo` and not above `hi` on the path to `h`. */
  ghost predicate Between(blocks: Blocks, genesis: Hash, h: Hash, lo: nat, hi: nat, t: nat)
    requires Rooted(blocks, genesis) && h in blocks
  {
    exists n: nat, i: nat :: lo < n <= hi && Placed(blocks, genesis, h, t, n, i)
  }

  lemma BetweenStep(blocks: Blocks, genesis: Hash, h: Hash, lo: nat, hi: nat, t: nat)
    requires Rooted(blocks, genesis) && h in blocks && lo <= hi < blocks[h].number
    ensures Between(blocks, genesis, h, lo, hi + 1, t) <==>
              Between(blocks, genesis, h, lo, hi, t) || t in blocks[Ancestor(blocks, genesis, h, hi + 1)].txs
  {
    hide Ancestor, Rooted;
    var txs := blocks[Ancestor(blocks, genesis, h, hi + 1)].txs;
    if Between(blocks, genesis, h, lo, hi + 1, t) {
      var n: nat, i: nat :| lo < n <= hi + 1 && Placed(blocks, genesis, h, t, n, i);
      assert n <= hi || txs[i] == t;
    }
    if Between(blocks, genesis, h, lo, hi, t) {
      var n: nat, i: nat :| lo < n <= hi && Placed(blocks, genesis, h, t, n, i);
      assert lo < n <= hi + 1;
    }
    if t in txs {
      var i :| 0 <= i < |txs| && txs[i] == t;
      assert Placed(blocks, genesis, h, t, hi + 1, i);
    }
  }

  /** The new side is written up to `tip`; `added` are its transactions so far. */
  ghost predicate Climbed(blocks: Blocks, genesis: Hash, h: Hash, c: Hash, chain: seq<Hash>, i: nat, tip: Hash,
                          added: seq<nat>)
    requires Rooted(blocks, genesis) && h in blocks
  {
    && Descent(blocks, genesis, h, c, chain) && i <= |chain| && IsAncestor(blocks, genesis, h, tip)
    && blocks[tip].number == blocks[h].number - i
    && forall t: nat :: t in added <==> Between(blocks, genesis, h, blocks[c].number, blocks[tip].number, t)
  }

  lemma AddedStarts(blocks: Blocks, genesis: Hash, h: Hash, c: Hash, chain: seq<Hash>)
    requires Rooted(blocks, genesis) && h in blocks && Descent(blocks, genesis, h, c, chain)
    ensures Climbed(blocks, genesis, h, c, chain, |chain|, c, [])
  {
  }

  lemma ClimbStep(blocks: Blocks, genesis: Hash, h: Hash, c: Hash, chain: seq<Hash>, i: nat, tip: Hash, added: seq<nat>)
    requires Rooted(blocks, genesis) && h in blocks && i < |chain|
    requires Climbed(blocks, genesis, h, c, chain, i + 1, tip, added)
    ensures chain[i] in blocks && blocks[chain[i]].number > 0 && blocks[chain[i]].parent == tip && tip in blocks
    ensures IsAncestor(blocks, genesis, h, chain[i])
    ensures Climbed(blocks, genesis, h, c, chain, i, chain[i], added + blocks[chain[i]].txs)
  {
    hide Rooted, Between;
    var x := chain[i];
    ClimbParent(blocks, genesis, h, chain[i], tip, blocks[h].number - i);
    forall t: nat
      ensures t in added + blocks[x].txs <==> Between(blocks, genesis, h, blocks[c].number, blocks[x].number, t)
    {
      BetweenStep(blocks, genesis, h, blocks[c].number, blocks[tip].number, t);
    }
  }

  lemma ClimbParent(blocks: Blocks, genesis: Hash, h: Hash, x: Hash, tip: Hash, n: nat)
    requires Rooted(blocks, genesis) && h in blocks && 0 < n <= blocks[h].number && x == Ancestor(blocks, genesis, h, n)
    requires IsAncestor(blocks, genesis, h, tip) && blocks[tip].number == n - 1
    ensures x in blocks && blocks[x].number == n && blocks[x].parent == tip && IsAncestor(blocks, genesis, h, x)
  {
    ParentIsAncestor(blocks, genesis, h, x);
  }

  lemma ClimbEnds(blocks: Blocks, genesis: Hash, h: Hash, c: Hash, chain: seq<Hash>, tip: Hash, added: seq<nat>)
    requires Rooted(blocks, genesis) && h in blocks && Climbed(blocks, genesis, h, c, chain, 0, tip, added)
    ensures tip == h && c in blocks && forall t: nat :: t in added <==> After(blocks, genesis, h, c, t)
  {
    forall t: nat ensures t in added <==> After(blocks, genesis, h, c, t) {
      if After(blocks, genesis, h, c, t) {
        var n: nat, i: nat :| blocks[c].number < n && Placed(blocks, genesis, h, t, n, i);
        assert blocks[c].number < n <= blocks[tip].number;
      }
    }
  }

  lemma ForkEnds(blocks: Blocks, genesis: Hash, lookup: Lookup, lookup': Lookup, h: Hash, h': Hash, c: Hash,
                 deleted: seq<nat>, added: seq<nat>, chain: seq<Hash>)
    requires Rooted(blocks, genesis) && h in blocks && h' in blocks && c in blocks && Unrepeated(blocks, genesis, h)
    requires Collected(blocks, genesis, h, c, deleted) && Descent(blocks, genesis, h', c, chain)
    requires forall t: nat :: t in added <==> After(blocks, genesis, h', c, t)
    requires Finds(blocks, genesis, lookup, h') && Only(blocks, genesis, lookup, h', set t | t in deleted)
    requires lookup' == lookup - ((set t | t in deleted) - (set t | t in added))
    ensures Indexed(blocks, genesis, lookup', h')
  {
    hide Rooted, Unrepeated, After, Finds, Only, Indexed;
    DeleteLeaves(blocks, genesis, lookup, lookup', h, h', c, set t | t in deleted, set t | t in added);
  }

  // ----- writing a block -----

  lemma WeighedKeys(blocks: Blocks, genesis: Hash, td: map<Hash, nat>, head: Hash)
    requires Rooted(blocks, genesis) && Weighed(blocks, genesis, td, head)
    ensures td.Keys == blocks.Keys && head in td
  {
  }

  /** No transaction of the new block is on the path to it, nor twice in it. */
  ghost predicate JoinsUnrepeated(blocks: Blocks, genesis: Hash, h: Hash, b: Block)
  {
    Rooted(blocks[h := b], genesis) ==> Unrepeated(blocks[h := b], genesis, h)
  }

  /** A new block changes nothing about the paths to the others. */
  lemma Carried(blocks: Blocks, genesis: Hash, canonical: Numbers, lookup: Lookup, head: Hash, h: Hash, b: Block)
    requires Rooted(blocks, genesis) && head in blocks && Joins(blocks, h, b) && JoinsUnrepeated(blocks, genesis, h, b)
    requires Canonical(blocks, genesis, canonical, head)
    requires Indexed(blocks, genesis, lookup, head) && Unrepeated(blocks, genesis, head)
    ensures b.number > 0 && Rooted(blocks[h := b], genesis) && Unrepeated(blocks[h := b], genesis, h)
    ensures Canonical(blocks[h := b], genesis, canonical, head)
    ensures Indexed(blocks[h := b], genesis, lookup, head) && Unrepeated(blocks[h := b], genesis, head)
  {
    hide Rooted;
    JoinedRooted(blocks, genesis, h, b);
    var blocks' := blocks[h := b];
    forall n: nat | n <= blocks[head].number
      ensures Ancestor(blocks', genesis, head, n) == Ancestor(blocks, genesis, head, n)
    {
      JoinedAncestor(blocks, genesis, h, b, head, n);
    }
    hide Ancestor;
    forall t: nat, n: nat, i: nat
      ensures Placed(blocks', genesis, head, t, n, i) <==> Placed(blocks, genesis, head, t, n, i)
    {
    }
    forall t: nat ensures Found(blocks', genesis, lookup, head, t) <==> Found(blocks, genesis, lookup, head, t) {
    }
  }

  lemma Rewritten(blocks: Blocks, genesis: Hash, lookup: Lookup, lookup': Lookup, h: Hash)
    requires Rooted(blocks, genesis) && h in blocks
    requires Indexed(blocks, genesis, lookup, h) && Unrepeated(blocks, genesis, h)
    requires Written(lookup, lookup', h, blocks[h])
    ensures Indexed(blocks, genesis, lookup', h)
  {
    var b := blocks[h];
    forall t: nat | t in b.txs ensures Found(blocks, genesis, lookup', h, t) {
      assert lookup'[t] == lookup'[t];
      PlacedBelow(blocks, genesis, h, t, b.number, lookup'[t].index);
    }
    forall t: nat | t !in b.txs && Found(blocks, genesis, lookup, h, t) ensures Found(blocks, genesis, lookup', h, t) {
      assert lookup'[t] == lookup[t];
    }
    hide Ancestor;
    forall t: nat, n: nat, i: nat | Placed(blocks, genesis, h, t, n, i) ensures Found(blocks, genesis, lookup', h, t) {
      assert Found(blocks, genesis, lookup, h, t);
    }
    forall t: nat | t in lookup' ensures Found(blocks, genesis, lookup', h, t) {
      assert t !in b.txs ==> Found(blocks, genesis, lookup, h, t);
    }
  }

  lemma Reinserted(blocks: Blocks, genesis: Hash, canonical: Numbers, h: Hash)
    requires Rooted(blocks, genesis) && h in blocks && Canonical(blocks, genesis, canonical, h)
    ensures Canonical(blocks, genesis, canonical[blocks[h].number := h], h)
  {
    AtUpdate(canonical, blocks[h].number, h);
  }

  lemma Appended(blocks: Blocks, genesis: Hash, lookup: Lookup, lookup': Lookup, h: Hash)
    requires Rooted(blocks, genesis) && h in blocks && blocks[h].number > 0 && blocks[h].parent in blocks
    requires Indexed(blocks, genesis, lookup, blocks[h].parent) && Unrepeated(blocks, genesis, h)
    requires Written(lookup, lookup', h, blocks[h])
    ensures Indexed(blocks, genesis, lookup', h)
  {
    hide Rooted, Unrepeated, Written, Finds, Only;
    WriteExtends(blocks, genesis, lookup, lookup', h, {});
  }
}
