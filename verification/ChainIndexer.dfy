/**
The chain indexer: sections of the canonical chain are processed one after the other, without the
lock being held, so that the chain and the indexer's own bounds may change between any two headers.

Each method of the class is one step that runs under the lock or reads the chain once.
*/
module ChainIndexer {
  import opened Wrappers

  type Hash = nat

  const ZERO: Hash := 0
  /** Keys of section heads are 64 bits wide. */
  const KEYS := 0x1_0000_0000_0000_0000
  /** Block numbers stay below this, so that no arithmetic on them wraps around. */
  const MAX_BLOCK := 0x1000_0000_0000_0000

  datatype Header = Header(number: nat, parent: Hash)

  type Headers = map<Hash, Header>
  type Heads = map<nat, Hash>

  /** The chain as the database shows it at one moment. */
  datatype Chain = Chain(canonical: map<nat, Hash>, headers: Headers) {
    function Lookup(number: nat): (h: Option<Hash>)
      ensures h.Some? <==> && number in canonical && canonical[number] != ZERO
                           && canonical[number] in headers && headers[canonical[number]].number == number
      ensures h.Some? ==> h.value == canonical[number]
    {
      var hash := if number in canonical then canonical[number] else ZERO;
      if hash != ZERO && hash in headers && headers[hash].number == number then Some(hash) else None
    }
  }

  // ----- chains of blocks -----

  /** `to` leads back to `from` by exactly `n` parent links, through blocks numbered down from `last`. */
  ghost predicate Linked(universe: Headers, from: Hash, to: Hash, n: nat, last: int)
    decreases n
  {
    if n == 0 then from == to
    else
      && to != ZERO && to in universe && universe[to].number == last
      && Linked(universe, from, universe[to].parent, n - 1, last - 1)
  }

  /** A hash names one header: whatever the database shows is one of the headers there ever are. */
  ghost predicate Genuine(chain: Chain, universe: Headers) {
    forall h :: h in chain.headers ==> h in universe && universe[h] == chain.headers[h]
  }

  lemma {:induction false} LinkedJoin(universe: Headers, from: Hash, mid: Hash, to: Hash, n: nat, k: nat, last: int)
    requires Linked(universe, from, mid, n, last - k) && Linked(universe, mid, to, k, last)
    ensures Linked(universe, from, to, n + k, last)
    decreases k
  {
    if k > 0 {
      LinkedJoin(universe, from, mid, universe[to].parent, n, k - 1, last - 1);
    }
  }

  // ----- sections -----

  /** The first block of a section, that is `section * size`. */
  function SectionStart(size: nat, section: nat): nat {
    if section == 0 then 0 else SectionStart(size, section - 1) + size
  }

  lemma {:induction false} StartIsProduct(size: nat, section: nat)
    ensures SectionStart(size, section) == section * size
  {
    if section > 0 {
      StartIsProduct(size, section - 1);
      assert section * size == (section - 1) * size + size;
    }
  }

  lemma {:induction false} StartMonotone(size: nat, a: nat, b: nat)
    requires a <= b
    ensures SectionStart(size, a) <= SectionStart(size, b)
    decreases b
  {
    if a < b {
      StartMonotone(size, a, b - 1);
    }
  }

  lemma {:induction false} FewSections(size: nat, section: nat)
    requires size > 0
    ensures section <= SectionStart(size, section)
  {
    if section > 0 {
      FewSections(size, section - 1);
    }
  }

  lemma SectionsFit(size: nat, blocks: nat)
    requires size > 0
    ensures SectionStart(size, blocks / size) <= blocks
  {
    StartIsProduct(size, blocks / size);
    assert blocks / size * size <= blocks;
  }

  /** The head of the section before. */
  function Before(heads: Heads, section: nat): Hash {
    if section > 0 && section - 1 in heads then heads[section - 1] else ZERO
  }

  /** Looking up a section head: the key wraps around, and a missing head reads as zero. */
  function HeadAt(heads: Heads, section: int): Hash {
    var key := section % KEYS;
    if key in heads then heads[key] else ZERO
  }

  /** The head of a section is its last block, `size` links after the head of the section before. */
  ghost predicate Follows(heads: Heads, universe: Headers, size: nat, section: nat) {
    && section in heads
    && Linked(universe, Before(heads, section), heads[section], size, SectionStart(size, section + 1) - 1)
  }

  /** There are section heads exactly below `stored`, and they form one chain. */
  ghost predicate Chained(heads: Heads, universe: Headers, size: nat, stored: nat) {
    && (forall k: nat :: k in heads <==> k < stored)
    && forall k: nat {:trigger Follows(heads, universe, size, k)} :: k < stored ==> Follows(heads, universe, size, k)
  }

  /** The heads below `n` are as they were. */
  ghost predicate Kept(heads: Heads, was: Heads, n: nat) {
    forall k: nat {:trigger heads[k]} {:trigger was[k]} :: k < n ==> k in heads && k in was && heads[k] == was[k]
  }

  /** Between any two section heads lie exactly the blocks of the sections between them. */
  lemma {:induction false} OneChain(heads: Heads, universe: Headers, size: nat, stored: nat, i: nat, j: nat)
    requires Chained(heads, universe, size, stored) && i <= j < stored
    ensures Linked(universe, heads[i], heads[j], SectionStart(size, j - i), SectionStart(size, j + 1) - 1)
    decreases j
  {
    if i < j {
      OneChain(heads, universe, size, stored, i, j - 1);
      assert Follows(heads, universe, size, j);
      var last := SectionStart(size, j + 1) - 1;
      LinkedJoin(universe, heads[i], heads[j - 1], heads[j], SectionStart(size, j - 1 - i), size, last);
    }
  }

  /** The section being processed: `next` is the block to read, `last` the one read before it. */
  datatype Job = Job(section: nat, before: Hash, next: nat, last: Hash, failed: bool)

  /** What is known of a section under way. */
  ghost predicate Underway(job: Job, heads: Heads, universe: Headers, size: nat, stored: nat) {
    && stored <= job.section
    && SectionStart(size, job.section) <= job.next <= SectionStart(size, job.section + 1) <= MAX_BLOCK
    && Linked(universe, job.before, job.last, job.next - SectionStart(size, job.section), job.next - 1)
    && (job.section == 0 <==> job.before == ZERO)
    && (job.section > 0 && job.section - 1 in heads ==> heads[job.section - 1] == job.before)
  }

  /** The heads below `n`. */
  function Cut(heads: Heads, n: nat): Heads {
    map k | k in heads && k < n :: heads[k]
  }

  // ----- an indexer as a state machine -----

  /** What the steps of an indexer change. */
  datatype State = State(heads: Heads, stored: nat, known: nat, job: Option<Job>, chain: Chain)

  /** A step of the update loop. */
  datatype Work = Begin | Fail | Read | Commit(committed: bool) | Abort

  datatype Step = Change(chain: Chain) | Head(head: nat, reorg: bool) | Work(work: Work)

  /** A reorganisation rolls sections back; any other head makes those known that are confirmed. */
  function Announced(s: State, head: nat, reorg: bool, size: nat, confirms: nat): State
    requires size > 0
  {
    if reorg then
      var changed := head / size;
      var s' := if changed < s.stored then s.(heads := Cut(s.heads, changed), stored := changed) else s;
      if changed < s.known then s'.(known := changed) else s'
    else
      var sections := if head >= confirms then (head + 1 - confirms) / size else 0;
      if sections > s.known then s.(known := sections) else s
  }

  /** The update loop: each step is skipped when it is not its turn. */
  function Done(s: State, w: Work, size: nat): State {
    match w
    case Begin =>
      if s.job.Some? || s.known <= s.stored then s
      else var before := Before(s.heads, s.stored);
           s.(job := Some(Job(s.stored, before, SectionStart(size, s.stored), before, false)))
    case Fail =>
      if s.job == None || s.job.value.failed || s.job.value.next != SectionStart(size, s.job.value.section) then s
      else s.(heads := map[], stored := 0, job := Some(s.job.value.(failed := true)))
    case Read =>
      if s.job == None || s.job.value.failed || s.job.value.next >= SectionStart(size, s.job.value.section + 1) then s
      else var j, hash := s.job.value, s.chain.Lookup(s.job.value.next);
           if hash.Some? && s.chain.headers[hash.value].parent == j.last then
             s.(job := Some(j.(next := j.next + 1, last := hash.value)))
           else s.(job := Some(j.(failed := true)))
    case Commit(committed) =>
      if s.job == None || s.job.value.failed || s.job.value.next != SectionStart(size, s.job.value.section + 1) then s
      else if committed && s.stored == s.job.value.section then
        s.(heads := s.heads[s.stored := s.job.value.last], stored := s.stored + 1, job := None)
      else s.(known := s.stored, job := None)
    case Abort => if s.job == None || !s.job.value.failed then s else s.(known := s.stored, job := None)
  }

  function Stepped(s: State, step: Step, size: nat, confirms: nat): State
    requires size > 0
  {
    match step
    case Change(c) => s.(chain := c)
    case Head(head, reorg) => Announced(s, head, reorg, size, confirms)
    case Work(w) => Done(s, w, size)
  }

  function Ran(s: State, steps: seq<Step>, size: nat, confirms: nat): State
    requires size > 0
  {
    if steps == [] then s
    else Stepped(Ran(s, steps[..|steps| - 1], size, confirms), steps[|steps| - 1], size, confirms)
  }

  lemma RanMore(s: State, steps: seq<Step>, step: Step, size: nat, confirms: nat)
    requires size > 0
    ensures Ran(s, steps + [step], size, confirms) == Stepped(Ran(s, steps, size, confirms), step, size, confirms)
  {
    hide Stepped;
    assert (steps + [step])[..|steps|] == steps;
  }

  function Happened(s: State, e: Event, size: nat, confirms: nat): State
    requires size > 0
  {
    match e
    case Grown(c) => s.(chain := c)
    case Reorg(c, h) => Announced(s.(chain := c), h, true, size, confirms)
    case Told(head) => Announced(s, head, false, size, confirms)
    case Worked(w) => Done(s, w, size)
  }

  /** The steps that make up an event. */
  function StepsOf(e: Event): seq<Step> {
    match e
    case Grown(c) => [Change(c)]
    case Reorg(c, h) => [Change(c), Head(h, true)]
    case Told(head) => [Head(head, false)]
    case Worked(w) => [Work(w)]
  }

  function AllSteps(events: seq<Event>): seq<Step> {
    if events == [] then [] else AllSteps(events[..|events| - 1]) + StepsOf(events[|events| - 1])
  }

  lemma NoSteps(s: State, events: seq<Event>, size: nat, confirms: nat)
    requires size > 0
    ensures Ran(s, AllSteps(events[..0]), size, confirms) == s
  {
  }

  lemma RanEvent(s: State, events: seq<Event>, e: Event, size: nat, confirms: nat)
    requires size > 0
    ensures Ran(s, AllSteps(events + [e]), size, confirms)
            == Happened(Ran(s, AllSteps(events), size, confirms), e, size, confirms)
  {
    hide Announced, Done;
    assert (events + [e])[..|events|] == events;
    var steps := AllSteps(events);
    match e {
      case Grown(c) => RanMore(s, steps, Change(c), size, confirms);
      case Reorg(c, h) =>
        RanMore(s, steps, Change(c), size, confirms);
        RanMore(s, steps + [Change(c)], Head(h, true), size, confirms);
        assert steps + [Change(c), Head(h, true)] == steps + [Change(c)] + [Head(h, true)];
      case Told(head) => RanMore(s, steps, Head(head, false), size, confirms);
      case Worked(w) => RanMore(s, steps, Work(w), size, confirms);
    }
  }

  class Indexer {
    const size: nat
    const confirms: nat
    /** The index database: section heads by their keys, and the number of valid sections. */
    var heads: Heads
    var count: nat
    var stored: nat
    var known: nat
    var job: Option<Job>
    var chain: Chain
    /** All headers there ever are. */
    ghost const universe: Headers

    ghost predicate Valid()
      reads this
    {
      && size > 0 && count == stored
      && SectionStart(size, stored) <= MAX_BLOCK && SectionStart(size, known) <= MAX_BLOCK
      && Genuine(chain, universe)
      && Chained(heads, universe, size, stored)
      && (job.Some? ==> Underway(job.value, heads, universe, size, stored))
    }

    constructor (size: nat, confirms: nat, chain: Chain, ghost universe: Headers)
      requires size > 0 && Genuine(chain, universe)
      ensures Valid() && stored == known == 0 && job == None && heads == map[] && this.universe == universe
      ensures this.size == size && this.confirms == confirms && this.chain == chain
    {
      this.size, this.confirms, this.chain, this.universe := size, confirms, chain, universe;
      heads, count, stored, known, job := map[], 0, 0, 0, None;
    }

    /** The chain changes, in whatever way. */
    method ChainChanges(chain': Chain)
      requires Valid() && Genuine(chain', universe)
      modifies `chain
      ensures Valid() && chain == chain'
    {
      hide Linked, Chained, SectionStart;
      chain := chain';
    }

    /** The sections from `sections` on are no longer valid. */
    method SetValidSections(sections: nat)
      requires Valid() && sections <= stored
      modifies `heads, `count, `stored
      ensures Valid() && stored == sections && Kept(heads, old(heads), stored)
      ensures heads == Cut(old(heads), sections)
    {
      hide Linked, SectionStart, Follows;
      count := sections;
      while stored > sections
        invariant count == sections <= stored <= old(stored) && forall k: nat :: k in heads <==> k < stored
        invariant forall k :: k in heads ==> k in old(heads) && heads[k] == old(heads)[k]
      {
        stored := stored - 1;
        heads := heads - {stored};
      }
      Shrinks(old(heads), heads, universe, size, old(stored), stored);
      StartMonotone(size, sections, old(stored));
    }

    /** A new head, or the block a reorganisation went back to. */
    method NewHead(head: nat, reorg: bool)
      requires Valid() && head < MAX_BLOCK
      modifies `heads, `count, `stored, `known
      ensures Valid() && Kept(heads, old(heads), stored)
      ensures reorg ==> heads == if head / size < old(stored) then Cut(old(heads), head / size) else old(heads)
      ensures reorg ==> && stored == (if head / size < old(stored) then head / size else old(stored))
                        && known == (if head / size < old(known) then head / size else old(known))
      ensures !reorg ==> heads == old(heads) && stored == old(stored)
      ensures !reorg ==> var sections := if head >= confirms then (head + 1 - confirms) / size else 0;
                         known == if sections > old(known) then sections else old(known)
    {
      hide Linked, SectionStart, Follows, Underway, Genuine;
      if reorg {
        var changed := head / size;
        SectionsFit(size, head);
        if changed < known {
          known := changed;
        }
        if changed < stored {
          SetValidSections(changed);
        }
      } else if head >= confirms {
        var sections := (head + 1 - confirms) / size;
        SectionsFit(size, head + 1 - confirms);
        if sections > known {
          known := sections;
        }
      }
    }

    /** The update loop picks the next section, if there is one. */
    method Begin()
      requires Valid() && job == None
      modifies `job
      ensures Valid()
      ensures var before := Before(heads, stored);
              job == if known <= stored then None
                     else Some(Job(stored, before, SectionStart(size, stored), before, false))
    {
      hide Linked, SectionStart, Chained, Underway, Genuine;
      if known <= stored {
        return;
      }
      var before := if stored > 0 then HeadAt(heads, stored - 1) else ZERO;
      SectionBegins(heads, universe, size, stored, known, before);
      job := Some(Job(stored, before, SectionStart(size, stored), before, false));
    }

    /** The backend refuses to start the section: everything is rolled back, without the lock. */
    method BackendFails()
      requires Valid() && job.Some? && !job.value.failed && job.value.next == SectionStart(size, job.value.section)
      modifies `heads, `count, `stored, `job
      ensures Valid() && stored == 0 && heads == map[] && job == Some(old(job).value.(failed := true))
    {
      hide Linked, SectionStart;
      SetValidSections(0);
      assert heads == map[];
      job := Some(job.value.(failed := true));
    }

    /**
    One header is read; the section fails if it is missing or does not follow on the last. If it is
    read, everything read before is on the canonical chain as it is now.
    */
    method ReadHeader() returns (ok: bool)
      requires Valid() && job.Some? && !job.value.failed && job.value.next < SectionStart(size, job.value.section + 1)
      modifies `job
      ensures Valid()
      ensures var j, hash := old(job).value, chain.Lookup(old(job).value.next);
              && (ok <==> hash.Some? && chain.headers[hash.value].parent == j.last)
              && job == Some(if ok then j.(next := j.next + 1, last := hash.value) else j.(failed := true))
      ensures ok && Sound(chain) ==> Current(job.value, chain, universe, size)
    {
      hide SectionStart, Chained;
      var j := job.value;
      var hash := chain.Lookup(j.next);
      if hash == None || chain.headers[hash.value].parent != j.last {
        job := Some(j.(failed := true));
        return false;
      }
      job := Some(j.(next := j.next + 1, last := hash.value));
      if Sound(chain) {
        ShownIff(chain, universe, j.before, hash.value, j.next + 1 - SectionStart(size, j.section), j.next);
      }
      return true;
    }

    /** The loop over a section: it comes to the end exactly if all blocks are known and linked. */
    method ReadSection() returns (ok: bool)
      requires Valid() && job.Some? && !job.value.failed
      modifies `job
      ensures Valid() && job.Some?
      ensures job.value.section == old(job).value.section && job.value.before == old(job).value.before
      ensures ok <==> Continues(chain, old(job).value.last, old(job).value.next,
                                SectionStart(size, old(job).value.section + 1))
      ensures ok ==> !job.value.failed && job.value.next == SectionStart(size, job.value.section + 1)
      ensures ok && old(job).value.next < job.value.next ==>
                job.value.next - 1 in chain.canonical && job.value.last == chain.canonical[job.value.next - 1]
      ensures !ok ==> job.value.failed
    {
      hide Valid, SectionStart, Current, Sound, Continues, Chain.Lookup, LastRead;
      var end := SectionStart(size, job.value.section + 1);
      ghost var from, last := job.value.next, job.value.last;
      Bounded();
      ReadNone(chain, last, from);
      while job.value.next < end
        invariant Valid() && job.Some? && !job.value.failed
        invariant job.value.section == old(job).value.section && job.value.before == old(job).value.before
        invariant from <= job.value.next <= end
        invariant Continues(chain, last, from, job.value.next)
        invariant LastRead(chain, last, from, job.value.next, job.value.last)
        decreases end - job.value.next
      {
        ReadOne(chain, last, from, job.value.next, job.value.last, end);
        ok := ReadHeader();
        if !ok {
          return;
        }
      }
      LastIs(chain, last, from, job.value.next, job.value.last);
      ok := true;
    }

    lemma Bounded()
      requires Valid() && job.Some?
      ensures job.value.next <= SectionStart(size, job.value.section + 1)
    {
      hide SectionStart, Chained, Linked, Genuine;
    }

    /** A section from its start to its end while nothing else happens. */
    method ProcessSection(committed: bool)
      requires Valid() && job == None && known > stored
      modifies `heads, `count, `stored, `known, `job
      ensures Valid() && job == None
      ensures var start, end := SectionStart(size, old(stored)), SectionStart(size, old(stored) + 1);
              if committed && Continues(chain, Before(old(heads), old(stored)), start, end) then
                && stored == old(stored) + 1 && known == old(known) && end - 1 in chain.canonical
                && heads == old(heads)[old(stored) := chain.canonical[end - 1]]
              else stored == known == old(stored) && heads == old(heads)
    {
      hide SectionStart, Chained, Linked, Genuine, Current, Continues, Underway;
      SectionStep(size, stored);
      Begin();
      var ok := ReadSection();
      if ok {
        Commit(committed);
      } else {
        GiveUp();
      }
    }

    /** With the lock again after a failure: the section is not tried again before the next notification. */
    method GiveUp()
      requires Valid()
      modifies `job, `known
      ensures Valid() && job == None && known == stored
    {
      hide SectionStart, Chained, Linked;
      job, known := None, stored;
    }

    /**
    All headers are read. The section is stored, unless the backend or a reorganisation prevents it.
    Its blocks are the canonical ones exactly if its last one is.
    */
    method Commit(committed: bool)
      requires Valid() && job.Some? && !job.value.failed && job.value.next == SectionStart(size, job.value.section + 1)
      modifies `heads, `count, `stored, `known, `job
      ensures Valid() && job == None
      ensures stored == if committed && old(stored) == old(job).value.section then old(stored) + 1 else old(stored)
      ensures heads == if stored == old(stored) then old(heads) else old(heads)[old(stored) := old(job).value.last]
      ensures known == if stored == old(stored) then stored else old(known)
      ensures stored > old(stored) ==>
                ParentLinked(chain, SectionStart(size, old(stored)), SectionStart(size, stored) - 1) ==>
                  (ShownSection(heads, chain, universe, size, old(stored)) <==>
                   chain.Lookup(SectionStart(size, stored) - 1) == Some(old(job).value.last))
    {
      hide SectionStart, Chained, Linked, Shown, Genuine;
      var j := job.value;
      StillThere(heads, universe, size, stored, j);
      if !(committed && j.before == HeadAt(heads, j.section - 1)) {
        GiveUp();
        return;
      }
      Stores(heads, universe, size, j);
      heads := heads[j.section := j.last];
      count, stored, job := j.section + 1, j.section + 1, None;
      if ParentLinked(chain, SectionStart(size, j.section), j.next - 1) {
        SectionStep(size, j.section);
        ShownIff(chain, universe, j.before, j.last, size, j.next - 1);
      }
    }

    function Now(): State
      reads this
    {
      State(heads, stored, known, job, chain)
    }

    /** Every stored section is on the canonical chain, and so is the one to be stored next. */
    ghost predicate Canonical()
      reads this
    {
      && (forall k: nat {:trigger ShownSection(heads, chain, universe, size, k)} ::
            k < stored ==> ShownSection(heads, chain, universe, size, k))
      && (Complete(job, size) && job.value.section == stored ==> Current(job.value, chain, universe, size))
    }

    /** The chain grows: what it shows it goes on showing. */
    method Grow(chain': Chain)
      requires Valid() && Genuine(chain', universe) && Extends(chain, chain')
      modifies `chain
      ensures Valid() && chain == chain' && (old(Canonical()) ==> Canonical())
    {
      hide Linked, Chained, SectionStart;
      ghost var before := chain;
      ChainChanges(chain');
      if old(Canonical()) {
        forall k: nat | k < stored ensures ShownSection(heads, chain, universe, size, k) {
          assert ShownSection(heads, before, universe, size, k);
          ShownStill(before, chain', universe, heads[k], size, SectionStart(size, k + 1) - 1);
        }
        if Complete(job, size) && job.value.section == stored {
          var j := job.value;
          ShownStill(before, chain', universe, j.last, j.next - SectionStart(size, j.section), j.next - 1);
        }
      }
    }

    /**
    A reorganisation that leaves the numbers up to `h` alone, and its announcement. It spoils the
    index only if the section under way is read to its end and `h` lies inside it.
    */
    method Reorganise(chain': Chain, h: nat)
      requires Valid() && Genuine(chain', universe) && h < MAX_BLOCK && Agree(chain, chain', h)
      modifies `chain, `heads, `count, `stored, `known
      ensures Valid() && chain == chain' && job == old(job)
      ensures Now() == Announced(old(Now()).(chain := chain'), h, true, size, confirms)
      ensures stored == if h / size < old(stored) then h / size else old(stored)
      ensures stored == old(stored) ==> heads == old(heads)
      ensures old(Canonical()) && !Spoils(job, h, size) ==> Canonical()
      ensures job.Some? && h < SectionStart(size, job.value.section) ==> stored < job.value.section
      ensures job.Some? && SectionStart(size, job.value.section) <= h && Forks(old(chain), chain', h) &&
              Current(job.value, old(chain), universe, size) ==>
                (Current(job.value, chain', universe, size) <==> job.value.next - 1 <= h)
    {
      hide Linked, Chained, SectionStart, Genuine, Shown;
      ghost var before, was := chain, heads;
      ChainChanges(chain');
      NewHead(h, true);
      if job.Some? {
        Reaches(job.value, before, chain', universe, size, h);
        StartBelow(size, job.value.section, h);
      }
      if old(Canonical()) {
        forall k: nat | k < stored ensures ShownSection(heads, chain, universe, size, k) {
          assert ShownSection(was, before, universe, size, k);
          SectionStays(was, heads, before, chain', universe, size, k, h);
        }
      }
    }

    /** Whatever spoils the index does so for good: the section is stored off the canonical chain. */
    method SpoilAndStore(chain': Chain, h: nat)
      requires Valid() && Genuine(chain', universe) && h < MAX_BLOCK && Forks(chain, chain', h)
      requires Canonical() && Spoils(job, h, size) && job.value.section == stored
      modifies `chain, `heads, `count, `stored, `known, `job
      ensures Valid() && chain == chain' && job == None && stored == old(stored) + 1
      ensures heads == old(heads)[old(stored) := old(job).value.last]
      ensures !ShownSection(heads, chain, universe, size, old(stored))
    {
      hide Linked, SectionStart, Genuine, Shown, Chained;
      StartBelow(size, stored, h);
      SectionStep(size, stored);
      Reorganise(chain', h);
      Commit(true);
    }

    /** A new head without a reorganisation. */
    method Notice(head: nat)
      requires Valid() && head < MAX_BLOCK
      modifies `heads, `count, `stored, `known
      ensures Valid() && (old(Canonical()) ==> Canonical())
      ensures Now() == Announced(old(Now()), head, false, size, confirms)
    {
      hide SectionStart, Linked, Chained, Genuine;
      NewHead(head, false);
    }

    /** Any run: the steps in any order, each skipped when it is not its turn. */
    method Run(steps: seq<Step>)
      requires Valid() && forall i :: 0 <= i < |steps| ==> Possible(steps[i], universe)
      modifies `heads, `count, `stored, `known, `job, `chain
      ensures Valid() && Now() == Ran(old(Now()), steps, size, confirms)
    {
      hide Valid, SectionStart, Done, Cut;
      Sized();
      for i := 0 to |steps|
        invariant Valid() && Now() == Ran(old(Now()), steps[..i], size, confirms)
      {
        assert Possible(steps[i], universe);
        RanMore(old(Now()), steps[..i], steps[i], size, confirms);
        assert steps[..i + 1] == steps[..i] + [steps[i]];
        match steps[i] {
          case Change(c) => ChainChanges(c);
          case Head(head, reorg) => NewHead(head, reorg);
          case Work(w) => Proceed(w);
        }
      }
      assert steps[..|steps|] == steps;
    }

    lemma Sized()
      requires Valid()
      ensures size > 0
    {
    }

    /** One step of the update loop. */
    method Proceed(w: Work)
      requires Valid()
      modifies `heads, `count, `stored, `known, `job
      ensures Valid() && (old(Canonical()) && Sound(chain) ==> Canonical())
      ensures Now() == Done(old(Now()), w, size)
    {
      hide SectionStart, Linked, Chained, Genuine, Underway, Shown, Sound;
      match w {
        case Begin =>
          if job == None {
            Begin();
            SectionStep(size, stored);
          }
        case Fail =>
          if job.Some? && !job.value.failed && job.value.next == SectionStart(size, job.value.section) {
            BackendFails();
          }
        case Read =>
          if job.Some? && !job.value.failed && job.value.next < SectionStart(size, job.value.section + 1) {
            var _ := ReadHeader();
          }
        case Commit(committed) =>
          if job.Some? && !job.value.failed && job.value.next == SectionStart(size, job.value.section + 1) {
            SectionStep(size, job.value.section);
            ghost var was := heads;
            Commit(committed);
            forall k: nat | old(Canonical()) && k < stored ensures ShownSection(heads, chain, universe, size, k) {
              assert k < old(stored) ==> ShownSection(was, chain, universe, size, k);
            }
          }
        case Abort =>
          if job.Some? && job.value.failed {
            GiveUp();
          }
      }
    }

    /** A run in which every reorganisation is announced: the index is canonical unless one spoils it. */
    method RunAnnounced(events: seq<Event>) returns (ghost jobs: seq<Option<Job>>)
      requires Valid() && Canonical() && Sound(chain) && Plausible(events, chain, universe)
      modifies `heads, `count, `stored, `known, `job, `chain
      ensures Valid() && |jobs| == |events| && Now() == Ran(old(Now()), AllSteps(events), size, confirms)
      ensures (forall i :: 0 <= i < |events| && events[i].Reorg? ==> !Spoils(jobs[i], events[i].h, size)) ==>
                Canonical()
    {
      hide Valid, Canonical, Spoils, SectionStart, Sound, Agree, Extends, Announced, Done, Ran, AllSteps;
      Sized();
      NoSteps(Now(), events, size, confirms);
      jobs := [];
      for i := 0 to |events|
        invariant Now() == Ran(old(Now()), AllSteps(events[..i]), size, confirms)
        invariant Valid() && |jobs| == i && Sound(chain) && Plausible(events[i..], chain, universe)
        invariant (forall k :: 0 <= k < i && events[k].Reorg? ==> !Spoils(jobs[k], events[k].h, size)) ==> Canonical()
      {
        jobs := jobs + [job];
        RanEvent(old(Now()), events[..i], events[i], size, confirms);
        assert events[..i + 1] == events[..i] + [events[i]];
        assert events[i..][0] == events[i] && events[i..][1..] == events[i + 1..];
        match events[i] {
          case Grown(c) => Grow(c);
          case Reorg(c, h) => Reorganise(c, h);
          case Told(head) => Notice(head);
          case Worked(w) => Proceed(w);
        }
      }
      assert events[..|events|] == events;
    }
  }

  ghost predicate Possible(step: Step, universe: Headers) {
    match step
    case Change(c) => Genuine(c, universe)
    case Head(head, _) => head < MAX_BLOCK
    case Work(_) => true
  }

  /** What happens to an indexer whose chain changes only with an announcement. */
  datatype Event = Grown(chain: Chain) | Reorg(chain: Chain, h: nat) | Told(head: nat) | Worked(work: Work)

  /** Chains that follow on each other by growing and by reorganisations from a number on. */
  ghost predicate Plausible(events: seq<Event>, c: Chain, universe: Headers) {
    events == [] ||
    match events[0]
    case Grown(c') => Genuine(c', universe) && Sound(c') && Extends(c, c') && Plausible(events[1..], c', universe)
    case Reorg(c', h) =>
      Genuine(c', universe) && Sound(c') && h < MAX_BLOCK && Agree(c, c', h) && Plausible(events[1..], c', universe)
    case Told(head) => head < MAX_BLOCK && Plausible(events[1..], c, universe)
    case Worked(_) => Plausible(events[1..], c, universe)
  }

  // ----- what the steps keep -----

  lemma Shrinks(heads: Heads, heads': Heads, universe: Headers, size: nat, stored: nat, stored': nat)
    requires Chained(heads, universe, size, stored) && stored' <= stored
    requires forall k: nat :: k in heads' <==> k < stored'
    requires forall k :: k in heads' ==> k in heads && heads'[k] == heads[k]
    ensures Chained(heads', universe, size, stored')
  {
    hide Linked, SectionStart;
    forall k: nat | k < stored' ensures Follows(heads', universe, size, k) {
      assert Follows(heads, universe, size, k);
      assert Before(heads', k) == Before(heads, k);
    }
  }

  lemma SectionBegins(heads: Heads, universe: Headers, size: nat, stored: nat, known: nat, before: Hash)
    requires size > 0 && Chained(heads, universe, size, stored)
    requires stored < known && SectionStart(size, known) <= MAX_BLOCK
    requires before == if stored > 0 then HeadAt(heads, stored - 1) else ZERO
    ensures before == Before(heads, stored)
    ensures Underway(Job(stored, before, SectionStart(size, stored), before, false), heads, universe, size, stored)
  {
    StartMonotone(size, stored + 1, known);
    FewSections(size, known);
    if stored > 0 {
      assert (stored - 1) % KEYS == stored - 1;
      assert Follows(heads, universe, size, stored - 1);
    }
  }

  /** The section before is still the one the job began with exactly if nothing was rolled back. */
  lemma StillThere(heads: Heads, universe: Headers, size: nat, stored: nat, j: Job)
    requires size > 0 && Chained(heads, universe, size, stored) && Underway(j, heads, universe, size, stored)
    ensures j.before == HeadAt(heads, j.section - 1) <==> stored == j.section
  {
    hide Linked, SectionStart, Follows;
    FewSections(size, j.section + 1);
    assert j.section > 0 ==> (j.section - 1) % KEYS == j.section - 1;
    assert j.section == 0 ==> (j.section - 1) % KEYS == KEYS - 1;
  }

  lemma Stores(heads: Heads, universe: Headers, size: nat, j: Job)
    requires Chained(heads, universe, size, j.section) && Underway(j, heads, universe, size, j.section)
    requires j.next == SectionStart(size, j.section + 1)
    ensures Chained(heads[j.section := j.last], universe, size, j.section + 1)
  {
    hide Linked;
    var heads' := heads[j.section := j.last];
    assert j.next - SectionStart(size, j.section) == size;
    forall k: nat | k < j.section + 1 ensures Follows(heads', universe, size, k) {
      if k < j.section {
        assert Follows(heads, universe, size, k);
        assert Before(heads', k) == Before(heads, k);
      }
    }
  }

  /**
  The chain of a stored section need not be the canonical one, even if every reorganisation is
  announced: here one goes back to block 0 after both blocks of the first section have been read, so
  it spoils the index: it rolls back no stored section, and the section is stored all the same.
  */
  method StaleSection() returns (i: Indexer)
    ensures i.Valid() && i.size == 2 && i.stored == 1 && i.heads == map[0 := 2]
    ensures i.chain.canonical == map[0 := 1, 1 := 3] && !ShownSection(i.heads, i.chain, i.universe, i.size, 0)
  {
    hide Indexer.Valid;
    var headers := map[1 := Header(0, ZERO), 2 := Header(1, 1), 3 := Header(1, 1)];
    var before, after := Chain(map[0 := 1, 1 := 2], headers), Chain(map[0 := 1, 1 := 3], headers);
    i := new Indexer(2, 0, before, headers);
    i.NewHead(1, false);
    i.Begin();
    assert SectionStart(2, 1) == 2;
    var _ := i.ReadHeader();
    var _ := i.ReadHeader();
    i.SpoilAndStore(after, 0);
  }

  // ----- on the canonical chain -----

  /** The chain shows `to` and the `n - 1` blocks before it, numbered down from `last`. */
  ghost predicate Shown(c: Chain, universe: Headers, to: Hash, n: nat, last: int)
    decreases n
  {
    || n == 0
    || (&& last >= 0 && c.Lookup(last) == Some(to) && to in universe
        && Shown(c, universe, universe[to].parent, n - 1, last - 1))
  }

  ghost predicate ShownSection(heads: Heads, c: Chain, universe: Headers, size: nat, k: nat) {
    k in heads && Shown(c, universe, heads[k], size, SectionStart(size, k + 1) - 1)
  }

  /** All that is read of a section is on the canonical chain. */
  ghost predicate Current(j: Job, c: Chain, universe: Headers, size: nat) {
    var start := SectionStart(size, j.section);
    start <= j.next && Shown(c, universe, j.last, j.next - start, j.next - 1)
  }

  /** What the chain shows is linked by parents. */
  ghost predicate Sound(c: Chain) {
    forall k: nat {:trigger c.Lookup(k)} :: k > 0 && c.Lookup(k).Some? ==>
      c.Lookup(k - 1) == Some(c.headers[c.Lookup(k).value].parent)
  }

  /** What the chain shows from `lo` to `hi` is linked by parents. */
  ghost predicate ParentLinked(c: Chain, lo: nat, hi: int) {
    forall k: nat {:trigger c.Lookup(k)} :: lo < k <= hi && c.Lookup(k).Some? ==>
      c.Lookup(k - 1) == Some(c.headers[c.Lookup(k).value].parent)
  }

  /** Linked blocks are all on the canonical chain exactly if the last one is. */
  lemma {:induction false} ShownIff(c: Chain, universe: Headers, from: Hash, to: Hash, n: nat, last: int)
    requires Genuine(c, universe) && Linked(universe, from, to, n, last) && n > 0
    requires last - n + 1 >= 0 && ParentLinked(c, last - n + 1, last)
    ensures Shown(c, universe, to, n, last) <==> c.Lookup(last) == Some(to)
    decreases n
  {
    if n > 1 && c.Lookup(last) == Some(to) {
      ShownIff(c, universe, from, universe[to].parent, n - 1, last - 1);
    }
  }

  /** The two chains show the same up to `h`. */
  ghost predicate Agree(c: Chain, c': Chain, h: nat) {
    forall n: nat {:trigger c'.Lookup(n)} :: n <= h ==> c'.Lookup(n) == c.Lookup(n)
  }

  ghost predicate Extends(c: Chain, c': Chain) {
    forall n: nat {:trigger c'.Lookup(n)} :: c.Lookup(n).Some? ==> c'.Lookup(n) == c.Lookup(n)
  }

  /** `h` is the last number on which they agree. */
  ghost predicate Forks(c: Chain, c': Chain, h: nat) {
    Agree(c, c', h) && c.Lookup(h + 1).Some? && c'.Lookup(h + 1) != c.Lookup(h + 1)
  }

  /** The section under way is read to its end, and waits to be stored. */
  predicate Complete(job: Option<Job>, size: nat) {
    job.Some? && !job.value.failed && job.value.next == SectionStart(size, job.value.section + 1)
  }

  /** A reorganisation back to `h` replaces blocks of a complete section, but not the first one. */
  predicate Spoils(job: Option<Job>, h: nat, size: nat) {
    Complete(job, size) && SectionStart(size, job.value.section) <= h < job.value.next - 1
  }

  lemma {:induction false} ShownStill(c: Chain, c': Chain, universe: Headers, to: Hash, n: nat, last: int)
    requires Shown(c, universe, to, n, last) && Extends(c, c')
    ensures Shown(c', universe, to, n, last)
    decreases n
  {
    if n > 0 {
      ShownStill(c, c', universe, universe[to].parent, n - 1, last - 1);
    }
  }

  lemma {:induction false} ShownBelow(c: Chain, c': Chain, universe: Headers, to: Hash, n: nat, last: int, h: nat)
    requires Shown(c, universe, to, n, last) && Agree(c, c', h) && last <= h
    ensures Shown(c', universe, to, n, last)
    decreases n
  {
    if n > 0 {
      ShownBelow(c, c', universe, universe[to].parent, n - 1, last - 1, h);
    }
  }

  /** The canonical blocks from `from` to below `to` are known, and follow on `last` and on each other. */
  ghost predicate Continues(c: Chain, last: Hash, from: nat, to: nat) {
    forall n: nat {:trigger GoesOn(c, last, from, n)} :: from <= n < to ==> GoesOn(c, last, from, n)
  }

  ghost predicate GoesOn(c: Chain, last: Hash, from: nat, n: nat) {
    && n in c.canonical && c.canonical[n] != ZERO && c.canonical[n] in c.headers
    && c.headers[c.canonical[n]].number == n
    && (n == from ==> c.headers[c.canonical[n]].parent == last)
    && (n > from ==> n - 1 in c.canonical && c.headers[c.canonical[n]].parent == c.canonical[n - 1])
  }

  /** `l` is the block before `n`: `last` at the start, a canonical one later. */
  ghost predicate LastRead(c: Chain, last: Hash, from: nat, n: nat, l: Hash) {
    if n == from then l == last else n > 0 && n - 1 in c.canonical && l == c.canonical[n - 1]
  }

  lemma ReadNone(c: Chain, last: Hash, from: nat)
    ensures Continues(c, last, from, from) && LastRead(c, last, from, from, last)
  {
  }

  lemma LastIs(c: Chain, last: Hash, from: nat, n: nat, l: Hash)
    requires LastRead(c, last, from, n, l)
    ensures n > from ==> n - 1 in c.canonical && l == c.canonical[n - 1]
  {
  }

  /** A header is taken exactly if the section goes on with it. */
  lemma ReadOne(c: Chain, last: Hash, from: nat, n: nat, l: Hash, end: nat)
    requires Continues(c, last, from, n) && LastRead(c, last, from, n, l) && from <= n < end
    ensures var hash := c.Lookup(n);
            if hash.Some? && c.headers[hash.value].parent == l
            then Continues(c, last, from, n + 1) && LastRead(c, last, from, n + 1, hash.value)
            else !Continues(c, last, from, end)
  {
    assert GoesOn(c, last, from, n) <==> c.Lookup(n).Some? && c.headers[c.Lookup(n).value].parent == l;
  }

  /** Blocks shown before and after agree on every number. */
  lemma {:induction false} ShownTwice(c: Chain, c': Chain, universe: Headers, to: Hash, n: nat, last: int, k: nat)
    requires Shown(c, universe, to, n, last) && Shown(c', universe, to, n, last) && last - n < k <= last
    ensures c'.Lookup(k) == c.Lookup(k)
    decreases n
  {
    if k < last {
      ShownTwice(c, c', universe, universe[to].parent, n - 1, last - 1, k);
    }
  }

  /** What a reorganisation does to the section under way. */
  lemma Reaches(j: Job, c: Chain, c': Chain, universe: Headers, size: nat, h: nat)
    requires Agree(c, c', h)
    ensures Current(j, c, universe, size) && j.next - 1 <= h ==> Current(j, c', universe, size)
    ensures Current(j, c, universe, size) && Forks(c, c', h) && SectionStart(size, j.section) <= h < j.next - 1 ==>
              !Current(j, c', universe, size)
  {
    hide Shown, SectionStart;
    var n := j.next - SectionStart(size, j.section);
    if Current(j, c, universe, size) && j.next - 1 <= h {
      ShownBelow(c, c', universe, j.last, n, j.next - 1, h);
    }
    var inside := SectionStart(size, j.section) <= h < j.next - 1;
    if Current(j, c, universe, size) && inside && Current(j, c', universe, size) {
      ShownTwice(c, c', universe, j.last, n, j.next - 1, h + 1);
    }
  }

  lemma SectionStays(was: Heads, heads: Heads, c: Chain, c': Chain, universe: Headers, size: nat, k: nat, h: nat)
    requires ShownSection(was, c, universe, size, k) && Agree(c, c', h) && size > 0 && k < h / size
    requires k in heads && heads[k] == was[k]
    ensures ShownSection(heads, c', universe, size, k)
  {
    hide Shown, SectionStart;
    SectionOf(size, h);
    StartMonotone(size, k + 1, h / size);
    ShownBelow(c, c', universe, heads[k], size, SectionStart(size, k + 1) - 1, h);
  }

  lemma SectionStep(size: nat, section: nat)
    ensures SectionStart(size, section + 1) == SectionStart(size, section) + size
  {
  }

  lemma SectionOf(size: nat, h: nat)
    requires size > 0
    ensures SectionStart(size, h / size) <= h < SectionStart(size, h / size + 1)
  {
    StartIsProduct(size, h / size);
    StartIsProduct(size, h / size + 1);
    assert h == h / size * size + h % size;
  }

  /** A block lies before a section exactly if its own section does. */
  lemma StartBelow(size: nat, section: nat, h: nat)
    requires size > 0
    ensures h < SectionStart(size, section) <==> h / size < section
  {
    SectionOf(size, h);
    if h / size < section {
      StartMonotone(size, h / size + 1, section);
    } else {
      StartMonotone(size, section, h / size);
    }
  }
}
