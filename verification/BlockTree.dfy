/**
Blocks, linked to their parents by hash, and the ancestors of a block.

A hash names one block, so a store of blocks is a map from hashes.
*/
module BlockTree {
  import opened Wrappers

  type Hash = nat

  datatype Block = Block(number: nat, parent: Hash, difficulty: nat, txs: seq<nat>)

  type Blocks = map<Hash, Block>

  /** What becomes of a block or header that is written. */
  datatype Status = Canon | Side | UnknownAncestor

  // ----- common ancestors -----

  /** The parent, if the database has it: entries are found by hash and number. */
  function Parent(all: Blocks, db: set<Hash>, h: Hash): (p: Option<Hash>)
    requires h in all
    ensures p.Some? ==> p.value in all && all[p.value].number + 1 == all[h].number
  {
    var p := all[h].parent;
    if p in db && p in all && all[p].number + 1 == all[h].number then Some(p) else None
  }

  /** `x` is `h` or reached from it by parents in the database. */
  ghost predicate Reaches(all: Blocks, db: set<Hash>, h: Hash, x: Hash)
    requires h in all
    decreases all[h].number
  {
    x == h || (Parent(all, db, h).Some? && Reaches(all, db, Parent(all, db, h).value, x))
  }

  lemma {:induction false} ReachedIsLower(all: Blocks, db: set<Hash>, h: Hash, x: Hash)
    requires h in all && Reaches(all, db, h, x)
    ensures x in all && all[x].number <= all[h].number && (all[x].number == all[h].number ==> x == h)
    decreases all[h].number
  {
    if x != h {
      ReachedIsLower(all, db, Parent(all, db, h).value, x);
    }
  }

  /** Blocks that are linked by their parents, all but the first in the database. */
  ghost predicate Path(all: Blocks, db: set<Hash>, path: seq<Hash>) {
    && path != [] && (forall i :: 0 <= i < |path| ==> path[i] in all)
    && forall i {:trigger Linked(all, db, path, i)} :: 0 <= i < |path| - 1 ==> Linked(all, db, path, i)
  }

  ghost predicate Linked(all: Blocks, db: set<Hash>, path: seq<Hash>, i: nat)
    requires i < |path| - 1 && path[i] in all && path[i + 1] in all
  {
    && path[i + 1] in db && all[path[i]].parent == path[i + 1]
    && all[path[i]].number == all[path[i + 1]].number + 1
  }

  /** A block is reached exactly if a path leads to it. */
  lemma ReachesIff(all: Blocks, db: set<Hash>, h: Hash, x: Hash)
    requires h in all
    ensures Reaches(all, db, h, x) <==>
            exists path :: Path(all, db, path) && path[0] == h && path[|path| - 1] == x
  {
    if Reaches(all, db, h, x) {
      var path := PathTo(all, db, h, x);
    }
    forall path | Path(all, db, path) && path[0] == h && path[|path| - 1] == x ensures Reaches(all, db, h, x) {
      PathReaches(all, db, path);
    }
  }

  lemma {:induction false} PathTo(all: Blocks, db: set<Hash>, h: Hash, x: Hash) returns (path: seq<Hash>)
    requires h in all && Reaches(all, db, h, x)
    ensures Path(all, db, path) && path[0] == h && path[|path| - 1] == x
    decreases all[h].number
  {
    if x == h {
      path := [h];
    } else {
      var rest := PathTo(all, db, Parent(all, db, h).value, x);
      path := [h] + rest;
      forall i | 0 <= i < |path| - 1 ensures Linked(all, db, path, i) {
        assert i > 0 ==> Linked(all, db, rest, i - 1);
      }
    }
  }

  lemma {:induction false} PathReaches(all: Blocks, db: set<Hash>, path: seq<Hash>)
    requires Path(all, db, path)
    ensures Reaches(all, db, path[0], path[|path| - 1])
    decreases |path|
  {
    if |path| > 1 {
      var rest := path[1..];
      assert Linked(all, db, path, 0);
      forall i | 0 <= i < |rest| - 1 ensures Linked(all, db, rest, i) {
        assert Linked(all, db, path, i + 1);
      }
      PathReaches(all, db, rest);
    }
  }

  /** Whatever two blocks both reach; there is at most one such block of each number. */
  ghost predicate Common(all: Blocks, db: set<Hash>, a: Hash, b: Hash, c: Hash)
    requires a in all && b in all
  {
    Reaches(all, db, a, c) && Reaches(all, db, b, c)
  }

  ghost predicate SameCommon(all: Blocks, db: set<Hash>, a: Hash, b: Hash, a': Hash, b': Hash)
    requires a in all && b in all && a' in all && b' in all
  {
    forall c :: Common(all, db, a, b, c) <==> Common(all, db, a', b', c)
  }

  /** The higher of two blocks is not common to both, so it can be replaced by its parent. */
  lemma StepUp(all: Blocks, db: set<Hash>, a: Hash, b: Hash)
    requires a in all && b in all && all[a].number > all[b].number
    ensures Parent(all, db, a).Some? ==>
              && SameCommon(all, db, a, b, Parent(all, db, a).value, b)
              && SameCommon(all, db, b, a, b, Parent(all, db, a).value)
    ensures Parent(all, db, a) == None ==> forall c :: !Common(all, db, a, b, c) && !Common(all, db, b, a, c)
  {
    forall c | Reaches(all, db, b, c) ensures c != a {
      ReachedIsLower(all, db, b, c);
    }
  }

  /** Two different blocks of one number are both not common. */
  lemma StepBoth(all: Blocks, db: set<Hash>, a: Hash, b: Hash)
    requires a in all && b in all && all[a].number == all[b].number && a != b
    ensures Parent(all, db, a).Some? && Parent(all, db, b).Some? ==>
              SameCommon(all, db, a, b, Parent(all, db, a).value, Parent(all, db, b).value)
    ensures Parent(all, db, a) == None || Parent(all, db, b) == None ==> forall c :: !Common(all, db, a, b, c)
  {
    forall c | Common(all, db, a, b, c) ensures c != a && c != b {
      ReachedIsLower(all, db, a, c);
      ReachedIsLower(all, db, b, c);
    }
  }

  /**
  The highest common ancestor, whatever the database holds: none is returned exactly if there is
  none, that is if a parent on the way to one is missing.
  */
  method FindCommonAncestor(all: Blocks, db: set<Hash>, first: Hash, second: Hash) returns (r: Option<Hash>)
    requires first in all && second in all
    ensures r.Some? <==> exists c :: Common(all, db, first, second, c)
    ensures r.Some? ==> Common(all, db, first, second, r.value) && r.value in all
    ensures r.Some? ==> forall c :: Common(all, db, first, second, c) ==> Reaches(all, db, r.value, c)
  {
    hide Reaches;
    var a, b := first, second;
    while all[a].number > all[b].number
      invariant a in all && b in all && SameCommon(all, db, first, second, a, b)
      decreases all[a].number
    {
      StepUp(all, db, a, b);
      var p := Parent(all, db, a);
      if p == None {
        return None;
      }
      a := p.value;
    }
    while all[a].number < all[b].number
      invariant a in all && b in all && all[a].number <= all[b].number && SameCommon(all, db, first, second, a, b)
      decreases all[b].number
    {
      StepUp(all, db, b, a);
      var p := Parent(all, db, b);
      if p == None {
        return None;
      }
      b := p.value;
    }
    while a != b
      invariant a in all && b in all && all[a].number == all[b].number && SameCommon(all, db, first, second, a, b)
      decreases all[a].number
    {
      StepBoth(all, db, a, b);
      var p := Parent(all, db, a);
      if p == None {
        return None;
      }
      var q := Parent(all, db, b);
      if q == None {
        return None;
      }
      a, b := p.value, q.value;
    }
    ReachesSelf(all, db, a);
    assert Common(all, db, a, b, a);
    return Some(a);
  }

  lemma ReachesSelf(all: Blocks, db: set<Hash>, h: Hash)
    requires h in all
    ensures Reaches(all, db, h, h)
  {
  }

  // ----- complete stores -----

  /** Every block but the genesis has its parent in the store, one number below. */
  ghost predicate Rooted(blocks: Blocks, genesis: Hash) {
    && genesis in blocks && blocks[genesis].number == 0
    && forall h {:trigger blocks[h]} :: h in blocks ==> ChildOf(blocks, genesis, h)
  }

  ghost predicate ChildOf(blocks: Blocks, genesis: Hash, h: Hash)
    requires h in blocks
  {
    if blocks[h].number == 0 then h == genesis
    else blocks[h].parent in blocks && blocks[blocks[h].parent].number + 1 == blocks[h].number
  }

  /** The ancestor of a block with a given number. */
  ghost function Ancestor(blocks: Blocks, genesis: Hash, h: Hash, n: nat): (a: Hash)
    requires Rooted(blocks, genesis) && h in blocks && n <= blocks[h].number
    ensures a in blocks && blocks[a].number == n
    decreases blocks[h].number
  {
    if n == blocks[h].number then h else Ancestor(blocks, genesis, blocks[h].parent, n)
  }

  lemma {:induction false} AncestorOfAncestor(blocks: Blocks, genesis: Hash, h: Hash, n: nat, m: nat)
    requires Rooted(blocks, genesis) && h in blocks && m <= n <= blocks[h].number
    ensures Ancestor(blocks, genesis, Ancestor(blocks, genesis, h, n), m) == Ancestor(blocks, genesis, h, m)
    decreases blocks[h].number
  {
    if n < blocks[h].number {
      AncestorOfAncestor(blocks, genesis, blocks[h].parent, n, m);
    }
  }

  /** The total difficulty: the sum over the path from the genesis. */
  ghost function TotalDifficulty(blocks: Blocks, genesis: Hash, h: Hash): nat
    requires Rooted(blocks, genesis) && h in blocks
    decreases blocks[h].number
  {
    blocks[h].difficulty + if blocks[h].number == 0 then 0 else TotalDifficulty(blocks, genesis, blocks[h].parent)
  }

  /** A new block can join if its parent is there, one number below, and its hash does not name another. */
  ghost predicate Joins(blocks: Blocks, h: Hash, b: Block) {
    && (h in blocks ==> blocks[h] == b)
    && b.parent in blocks && blocks[b.parent].number + 1 == b.number
  }

  lemma JoinedRooted(blocks: Blocks, genesis: Hash, h: Hash, b: Block)
    requires Rooted(blocks, genesis) && Joins(blocks, h, b)
    ensures Rooted(blocks[h := b], genesis)
  {
    var blocks' := blocks[h := b];
    forall x | x in blocks' ensures ChildOf(blocks', genesis, x) {
      if x != h {
        assert ChildOf(blocks, genesis, x);
      }
    }
  }

  lemma {:induction false} JoinedAncestor(blocks: Blocks, genesis: Hash, h: Hash, b: Block, x: Hash, n: nat)
    requires Rooted(blocks, genesis) && Joins(blocks, h, b) && Rooted(blocks[h := b], genesis)
    requires x in blocks && n <= blocks[x].number
    ensures Ancestor(blocks[h := b], genesis, x, n) == Ancestor(blocks, genesis, x, n)
    decreases blocks[x].number
  {
    if n < blocks[x].number {
      JoinedAncestor(blocks, genesis, h, b, blocks[x].parent, n);
    }
  }

  lemma {:induction false} JoinedDifficulty(blocks: Blocks, genesis: Hash, h: Hash, b: Block, x: Hash)
    requires Rooted(blocks, genesis) && Joins(blocks, h, b) && Rooted(blocks[h := b], genesis) && x in blocks
    ensures TotalDifficulty(blocks[h := b], genesis, x) == TotalDifficulty(blocks, genesis, x)
    decreases blocks[x].number
  {
    if blocks[x].number > 0 {
      JoinedDifficulty(blocks, genesis, h, b, blocks[x].parent);
    }
  }

  type Numbers = map<nat, Hash>

  /** The canonical hash of a number, if there is one. */
  function At(canonical: Numbers, n: nat): Option<Hash> {
    if n in canonical then Some(canonical[n]) else None
  }

  lemma AtUpdate(canonical: Numbers, m: nat, h: Hash)
    ensures forall n: nat {:trigger At(canonical[m := h], n)} ::
              At(canonical[m := h], n) == if n == m then Some(h) else At(canonical, n)
  {
  }

  /** The canonical numbers up to that of `head` name its ancestors. */
  ghost predicate Canonical(blocks: Blocks, genesis: Hash, canonical: Numbers, head: Hash)
    requires Rooted(blocks, genesis) && head in blocks
  {
    forall n: nat {:trigger At(canonical, n)} ::
      n <= blocks[head].number ==> At(canonical, n) == Some(Ancestor(blocks, genesis, head, n))
  }

  /** Every block has its total difficulty on record, and none has more than the head. */
  ghost predicate Weighed(blocks: Blocks, genesis: Hash, td: map<Hash, nat>, head: Hash)
    requires Rooted(blocks, genesis)
  {
    && td.Keys == blocks.Keys && head in td
    && forall h {:trigger td[h]} :: h in td ==> td[h] == TotalDifficulty(blocks, genesis, h) && td[h] <= td[head]
  }

  /** A new block is weighed by its parent's total; the head stays the heaviest if it changes when outweighed. */
  lemma JoinedWeighed(blocks: Blocks, genesis: Hash, td: map<Hash, nat>, head: Hash, h: Hash, b: Block, head': Hash)
    requires Rooted(blocks, genesis) && Joins(blocks, h, b) && Weighed(blocks, genesis, td, head)
    requires || (head' == h && td[b.parent] + b.difficulty >= td[head])
             || (head' == head && td[b.parent] + b.difficulty <= td[head])
    ensures Rooted(blocks[h := b], genesis)
    ensures Weighed(blocks[h := b], genesis, td[h := td[b.parent] + b.difficulty], head')
  {
    hide Rooted;
    JoinedRooted(blocks, genesis, h, b);
    var td' := td[h := td[b.parent] + b.difficulty];
    forall x | x in td' ensures td'[x] == TotalDifficulty(blocks[h := b], genesis, x) && td'[x] <= td'[head'] {
      if x in blocks {
        JoinedDifficulty(blocks, genesis, h, b, x);
      }
      JoinedDifficulty(blocks, genesis, h, b, b.parent);
      assert head in td;
    }
  }

  lemma KnownWeight(blocks: Blocks, genesis: Hash, td: map<Hash, nat>, head: Hash, h: Hash)
    requires Rooted(blocks, genesis) && Weighed(blocks, genesis, td, head) && h in blocks && blocks[h].number > 0
    ensures blocks[h].parent in td && h in td && td[h] == td[blocks[h].parent] + blocks[h].difficulty
  {
  }
}
