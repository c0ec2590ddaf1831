/**
The header chain: headers are added under known parents, and the canonical numbers follow the
header with the greatest total difficulty.
*/
module HeaderChain {
  import opened Wrappers
  import opened BlockTree

  /** A header with its hash. */
  datatype Named = Named(hash: Hash, header: Block)

  /** Each header follows on the one before it. */
  predicate Contiguous(chain: seq<Named>) {
    forall i :: 1 <= i < |chain| ==>
      chain[i].header.number == chain[i - 1].header.number + 1 && chain[i].header.parent == chain[i - 1].hash
  }

  /** Hashes name one header each, among those given and those known. */
  ghost predicate WellNamed(chain: seq<Named>, headers: Blocks) {
    && (forall i :: 0 <= i < |chain| && chain[i].hash in headers ==> headers[chain[i].hash] == chain[i].header)
    && (forall i, j :: 0 <= i < j < |chain| ==> chain[i].hash != chain[j].hash)
  }

  /** The check that a chain of headers is ordered and linked. */
  method CheckContiguous(chain: seq<Named>) returns (ok: bool)
    ensures ok <==> Contiguous(chain)
  {
    var i := 1;
    while i < |chain|
      invariant i >= 1
      invariant forall k :: 1 <= k < i && k < |chain| ==>
                  && chain[k].header.number == chain[k - 1].header.number + 1
                  && chain[k].header.parent == chain[k - 1].hash
    {
      if chain[i].header.number != chain[i - 1].header.number + 1 || chain[i].header.parent != chain[i - 1].hash {
        return false;
      }
      i := i + 1;
    }
    return true;
  }

  /** All headers of the chain, besides those known. */
  function WithAll(headers: Blocks, chain: seq<Named>): Blocks {
    if chain == [] then headers
    else WithAll(headers, chain[..|chain| - 1])[chain[|chain| - 1].hash := chain[|chain| - 1].header]
  }

  lemma {:induction false} WithAllHas(headers: Blocks, chain: seq<Named>, n: nat)
    requires n <= |chain| && WellNamed(chain, headers)
    ensures forall h ::
              h in headers ==> h in WithAll(headers, chain[..n]) && WithAll(headers, chain[..n])[h] == headers[h]
    ensures forall i ::
              0 <= i < n ==>
                && chain[i].hash in WithAll(headers, chain[..n])
                && WithAll(headers, chain[..n])[chain[i].hash] == chain[i].header
    ensures forall i ::
              n <= i < |chain| ==> (chain[i].hash in WithAll(headers, chain[..n]) <==> chain[i].hash in headers)
    decreases n
  {
    if n > 0 {
      WithAllHas(headers, chain, n - 1);
      assert chain[..n][..n - 1] == chain[..n - 1];
    }
  }

  lemma NoneAdded(headers: Blocks, chain: seq<Named>)
    ensures WithAll(headers, chain[..0]) == headers
  {
  }

  lemma OneMore(headers: Blocks, chain: seq<Named>, i: nat)
    requires i < |chain|
    ensures WithAll(headers, chain[..i + 1]) == WithAll(headers, chain[..i])[chain[i].hash := chain[i].header]
  {
    assert chain[..i + 1][..i] == chain[..i];
  }

  /** The canonical numbers are exactly those up to the head's. */
  ghost predicate Exact(blocks: Blocks, genesis: Hash, canonical: Numbers, head: Hash)
    requires Rooted(blocks, genesis) && head in blocks
  {
    && Canonical(blocks, genesis, canonical, head)
    && forall n: nat {:trigger At(canonical, n)} :: n > blocks[head].number ==> At(canonical, n) == None
  }

  /** The head after a chain of headers: each new one takes over if it is heavier, or as heavy and its coin says so. */
  ghost function Chosen(headers: Blocks, td: map<Hash, nat>, head: Hash, chain: seq<Named>, coins: seq<bool>): Hash
    requires |coins| == |chain|
    decreases |chain|
  {
    if chain == [] then head
    else
      var c, rest, flips := chain[0], chain[1..], coins[1..];
      if c.hash in headers || c.header.parent !in td || head !in td then Chosen(headers, td, head, rest, flips)
      else
        var weight := td[c.header.parent] + c.header.difficulty;
        var next := if weight > td[head] || (weight == td[head] && coins[0]) then c.hash else head;
        Chosen(headers[c.hash := c.header], td[c.hash := weight], next, rest, flips)
  }

  lemma ChosenStep(headers: Blocks, td: map<Hash, nat>, head: Hash, chain: seq<Named>, coins: seq<bool>, i: nat)
    requires |coins| == |chain| && i < |chain|
    ensures var c, rest, flips := chain[i], chain[i + 1..], coins[i + 1..];
            Chosen(headers, td, head, chain[i..], coins[i..]) ==
            if c.hash in headers || c.header.parent !in td || head !in td then Chosen(headers, td, head, rest, flips)
            else
              var weight := td[c.header.parent] + c.header.difficulty;
              var next := if weight > td[head] || (weight == td[head] && coins[i]) then c.hash else head;
              Chosen(headers[c.hash := c.header], td[c.hash := weight], next, rest, flips)
  {
    assert chain[i..][1..] == chain[i + 1..] && coins[i..][1..] == coins[i + 1..];
  }

  lemma NoneChosen(headers: Blocks, td: map<Hash, nat>, head: Hash, chain: seq<Named>, coins: seq<bool>)
    requires |coins| == |chain|
    ensures Chosen(headers, td, head, chain[|chain|..], coins[|chain|..]) == head
  {
  }

  class HeaderChain {
    const genesis: Hash
    var headers: Blocks
    var td: map<Hash, nat>
    var canonical: Numbers
    var head: Hash

    ghost predicate Valid()
      reads this
    {
      && Rooted(headers, genesis) && head in headers
      && Weighed(headers, genesis, td, head)
      && Exact(headers, genesis, canonical, head)
    }

    constructor (genesis: Hash, difficulty: nat, parent: Hash)
      ensures Valid() && head == genesis && headers.Keys == {genesis}
    {
      this.genesis, head := genesis, genesis;
      headers := map[genesis := Block(0, parent, difficulty, [])];
      td, canonical := map[genesis := difficulty], map[0 := genesis];
    }

    /** The header with hash `h` is added; `coin` decides between equal total difficulties. */
    method WriteHeader(h: Hash, header: Block, coin: bool) returns (status: Status)
      requires Valid() && (h in headers ==> headers[h] == header)
      requires header.parent in headers ==> headers[header.parent].number + 1 == header.number
      modifies this
      ensures Valid()
      ensures status == UnknownAncestor <==> header.parent !in old(headers)
      ensures status == UnknownAncestor ==> unchanged(this)
      ensures status != UnknownAncestor ==> headers == old(headers)[h := header]
      ensures status != UnknownAncestor ==> head == if status == Canon then h else old(head)
      ensures old(head) in old(td) && head in td
      ensures status != UnknownAncestor ==>
                header.parent in old(td) && td == old(td)[h := old(td)[header.parent] + header.difficulty]
      ensures old(td)[old(head)] <= td[head]
      ensures status != UnknownAncestor ==>
                (status == Canon <==> old(td)[old(head)] < td[h] || (old(td)[old(head)] == td[h] && coin))
    {
      hide Rooted, Exact, Weighed, Canonical;
      Unweighed(headers, genesis, td, head, header.parent);
      Unweighed(headers, genesis, td, head, head);
      if header.parent !in td {
        return UnknownAncestor;
      }
      var localTd, externTd := td[head], header.difficulty + td[header.parent];
      if h in headers {
        KnownWeight(headers, genesis, td, head, h);
      }
      JoinedRooted(headers, genesis, h, header);
      StillExact(headers, genesis, canonical, head, h, header);
      if externTd > localTd || (externTd == localTd && coin) {
        JoinedWeighed(headers, genesis, td, head, h, header, h);
        td, headers := td[h := externTd], headers[h := header];
        MoveHead(h);
        status := Canon;
      } else {
        JoinedWeighed(headers, genesis, td, head, h, header, head);
        td, headers := td[h := externTd], headers[h := header];
        status := Side;
      }
    }

    /** A chain of headers is added, all or none: it fails exactly if there is nothing to build it on. */
    method InsertHeaderChain(chain: seq<Named>, coins: seq<bool>) returns (ok: bool)
      requires Valid() && chain != [] && Contiguous(chain) && WellNamed(chain, headers) && |coins| == |chain|
      requires chain[0].header.parent in headers ==>
                 headers[chain[0].header.parent].number + 1 == chain[0].header.number
      modifies this
      ensures Valid()
      ensures ok <==> chain[0].hash in old(headers) || chain[0].header.parent in old(headers)
      ensures !ok ==> unchanged(this)
      ensures ok ==> headers == WithAll(old(headers), chain) && old(td)[old(head)] <= td[head]
      ensures ok ==> head == Chosen(old(headers), old(td), old(head), chain, coins)
      ensures ok && td[head] == old(td)[old(head)] && (forall i :: 0 <= i < |coins| ==> !coins[i]) ==> head == old(head)
    {
      hide Valid, WithAll, Chosen;
      NoneAdded(headers, chain);
      Facts();
      for i := 0 to |chain|
        invariant Valid() && (i == 0 ==> unchanged(this)) && headers == WithAll(old(headers), chain[..i])
        invariant i > 0 ==> chain[0].hash in old(headers) || chain[0].header.parent in old(headers)
        invariant old(head) in old(td) && head in td && old(td)[old(head)] <= td[head]
        invariant Chosen(old(headers), old(td), old(head), chain, coins) ==
                  Chosen(headers, td, head, chain[i..], coins[i..])
        invariant td[head] == old(td)[old(head)] && (forall k :: 0 <= k < i ==> !coins[k]) ==> head == old(head)
      {
        Facts();
        ChosenStep(headers, td, head, chain, coins, i);
        WithAllHas(old(headers), chain, i);
        OneMore(old(headers), chain, i);
        assert i > 0 ==> chain[i - 1].hash in headers && headers[chain[i - 1].hash] == chain[i - 1].header;
        if chain[i].hash !in headers {
          var status := WriteHeader(chain[i].hash, chain[i].header, coins[i]);
          if status == UnknownAncestor {
            return false;
          }
          Facts();
        }
      }
      assert chain[..|chain|] == chain;
      NoneChosen(headers, td, head, chain, coins);
      return true;
    }

    lemma Facts()
      requires Valid()
      ensures td.Keys == headers.Keys && head in td && forall h :: h in td ==> td[h] <= td[head]
    {
    }

    /** The canonical numbers are re-routed to a new head. */
    method MoveHead(h: Hash)
      requires Rooted(headers, genesis) && head in headers && Exact(headers, genesis, canonical, head)
      requires h in headers && headers[h].number > 0
      modifies `canonical, `head
      ensures head == h && Exact(headers, genesis, canonical, head)
    {
      hide Rooted, Exact;
      var number := headers[h].number;
      DeleteAbove(number);
      HeadersLinked(headers, genesis, h);
      var headHash := headers[h].parent;
      var headNumber := number - 1;
      Start(headers, genesis, h, old(canonical), canonical);
      while At(canonical, headNumber) != Some(headHash)
        invariant headHash in headers && headers[headHash].number == headNumber < number
        invariant Routing(headers, genesis, old(canonical), canonical, h, headHash)
        decreases headNumber
        modifies `canonical
      {
        RouteStep(headers, genesis, old(canonical), canonical, h, headHash, head);
        canonical := canonical[headNumber := headHash];
        headHash := headers[headHash].parent;
        headNumber := headNumber - 1;
      }
      RouteEnds(headers, genesis, old(canonical), canonical, h, headHash, head);
      canonical := canonical[number := h];
      head := h;
    }

    /** The loop that deletes the canonical numbers above `number` up to the first missing one. */
    method DeleteAbove(number: nat)
      requires Rooted(headers, genesis) && head in headers && Exact(headers, genesis, canonical, head)
      modifies `canonical
      ensures forall n: nat {:trigger At(canonical, n)} ::
                At(canonical, n) == if n <= number then At(old(canonical), n) else None
    {
      hide Rooted, Ancestor;
      var i := number + 1;
      while At(canonical, i) != None
        invariant i > number
        invariant forall n: nat {:trigger At(canonical, n)} ::
                    At(canonical, n) == if number < n < i then None else At(old(canonical), n)
        invariant number < headers[head].number ==> i <= headers[head].number + 1
        decreases headers[head].number + 1 - i
      {
        assert forall n: nat {:trigger At(canonical - {i}, n)} ::
            At(canonical - {i}, n) == if n == i then None else At(canonical, n);
        canonical := canonical - {i};
        i := i + 1;
      }
    }
  }

  lemma Unweighed(headers: Blocks, genesis: Hash, td: map<Hash, nat>, head: Hash, h: Hash)
    requires Rooted(headers, genesis) && Weighed(headers, genesis, td, head)
    ensures h in td <==> h in headers
  {
  }

  lemma HeadersLinked(headers: Blocks, genesis: Hash, h: Hash)
    requires Rooted(headers, genesis) && h in headers && headers[h].number > 0
    ensures headers[h].parent in headers && headers[headers[h].parent].number == headers[h].number - 1
  {
  }

  /** A new header changes nothing about the ancestors of the others. */
  lemma StillExact(headers: Blocks, genesis: Hash, canonical: Numbers, head: Hash, h: Hash, header: Block)
    requires Rooted(headers, genesis) && Joins(headers, h, header) && Rooted(headers[h := header], genesis)
    requires head in headers && Exact(headers, genesis, canonical, head)
    ensures Exact(headers[h := header], genesis, canonical, head)
  {
    forall n: nat | n <= headers[head].number
      ensures At(canonical, n) == Some(Ancestor(headers[h := header], genesis, head, n))
    {
      JoinedAncestor(headers, genesis, h, header, head, n);
    }
  }

  /**
  While the canonical numbers are re-routed to `h`: between `at` and `h` they already name its
  ancestors, below they are as they were.
  */
  ghost predicate Routing(headers: Blocks, genesis: Hash, before: Numbers, canonical: Numbers, h: Hash, at: Hash)
    requires Rooted(headers, genesis) && h in headers && at in headers
  {
    && headers[at].number < headers[h].number && Ancestor(headers, genesis, h, headers[at].number) == at
    && (forall n: nat {:trigger At(canonical, n)} :: n > headers[h].number ==> At(canonical, n) == None)
    && (forall n: nat {:trigger At(canonical, n)} :: n <= headers[at].number ==> At(canonical, n) == At(before, n))
    && (forall n: nat {:trigger At(canonical, n)} :: headers[at].number < n < headers[h].number ==>
          At(canonical, n) == Some(Ancestor(headers, genesis, h, n)))
  }

  lemma Start(headers: Blocks, genesis: Hash, h: Hash, before: Numbers, canonical: Numbers)
    requires Rooted(headers, genesis) && h in headers && headers[h].number > 0
    requires forall n: nat {:trigger At(canonical, n)} ::
               At(canonical, n) == if n <= headers[h].number then At(before, n) else None
    ensures headers[h].parent in headers && Routing(headers, genesis, before, canonical, h, headers[h].parent)
  {
    var parent := headers[h].parent;
    assert Ancestor(headers, genesis, parent, headers[parent].number) == parent;
    hide At;
  }

  lemma RouteStep(headers: Blocks, genesis: Hash, before: Numbers, canonical: Numbers, h: Hash, at: Hash, head: Hash)
    requires Rooted(headers, genesis) && h in headers && at in headers
    requires Routing(headers, genesis, before, canonical, h, at)
    requires head in headers && Exact(headers, genesis, before, head)
    requires At(canonical, headers[at].number) != Some(at)
    ensures headers[at].number > 0 && headers[at].parent in headers
    ensures headers[headers[at].parent].number == headers[at].number - 1
    ensures Routing(headers, genesis, before, canonical[headers[at].number := at], h, headers[at].parent)
  {
    var m := headers[at].number;
    assert At(canonical, m) == At(before, m);
    assert Ancestor(headers, genesis, head, 0) == genesis;
    AncestorOfAncestor(headers, genesis, h, m, m - 1);
    assert Ancestor(headers, genesis, headers[at].parent, m - 1) == headers[at].parent;
    AtUpdate(canonical, m, at);
    hide At;
  }

  lemma RouteEnds(headers: Blocks, genesis: Hash, before: Numbers, canonical: Numbers, h: Hash, at: Hash, head: Hash)
    requires Rooted(headers, genesis) && h in headers && at in headers
    requires Routing(headers, genesis, before, canonical, h, at)
    requires head in headers && Exact(headers, genesis, before, head)
    requires At(canonical, headers[at].number) == Some(at)
    ensures Exact(headers, genesis, canonical[headers[h].number := h], h)
  {
    var canonical', m := canonical[headers[h].number := h], headers[at].number;
    AtUpdate(canonical, headers[h].number, h);
    hide At;
    assert At(before, m) == Some(at);
    assert Ancestor(headers, genesis, head, m) == at;
    forall n: nat | n <= headers[h].number ensures At(canonical', n) == Some(Ancestor(headers, genesis, h, n)) {
      if n <= m {
        AncestorOfAncestor(headers, genesis, h, m, n);
        AncestorOfAncestor(headers, genesis, head, m, n);
        assert At(canonical, n) == At(before, n);
      }
    }
  }
}
