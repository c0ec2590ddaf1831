/**
One-to-many delivery: a value is sent once to every subscribed channel, in the order in which they
are ready, while subscriptions may be cancelled at any select.

The cases still to be served are a prefix of the feed's own list: a served channel is swapped behind
the prefix, a cancelled one is shifted out of the list in place.
*/
module Feed {

  /** Channels; zero is the feed's own channel for cancellations. */
  type Channel = nat

  const REMOVE_SUB: Channel := 0
  const FIRST_SUB := 1

  type Cases = seq<Channel>

  // ----- what the outside decides -----

  /**
  In round `r` of a send the channel `c` is ready for the first attempt if `ready(r, c)`. If none of
  the others is, the feed waits, and what comes next is a cancellation if `cancels(r)` and one is
  asked for, else one of the blocked channels gets ready: `picks(r, blocked)`.
  */
  datatype Outside = Outside(
    ready: (nat, Channel) -> bool, cancels: nat -> bool, picks: (nat, set<Channel>) -> Channel)

  /** What gets ready is one of those waited for. */
  ghost predicate Proper(env: Outside) {
    forall r, blocked {:trigger env.picks(r, blocked)} :: blocked != {} ==> env.picks(r, blocked) in blocked
  }

  /** The channels served, those still subscribed, and how many cancellations came in time. */
  datatype Delivery = Delivery(served: set<Channel>, subscribed: set<Channel>, received: nat)

  ghost function Blocked(env: Outside, r: nat, waiting: set<Channel>): set<Channel> {
    set c | c in waiting && !env.ready(r, c)
  }

  /**
  A send from round `r` on, to the channels `waiting`: those that are ready are served, then a
  cancellation is received or one more channel is served, until nobody waits.
  */
  ghost function Delivered(env: Outside, requests: Cases, r: nat, waiting: set<Channel>, subscribed: set<Channel>,
                           received: nat): Delivery
    requires Proper(env) && received <= |requests|
    decreases |waiting| + |requests| - received
  {
    var blocked := Blocked(env, r, waiting);
    assert blocked <= waiting && |blocked| <= |waiting| by { FewerBlocked(env, r, waiting); }
    if blocked == {} then Delivery(waiting, subscribed, received)
    else if env.cancels(r) && received < |requests| then
      var c := requests[received];
      assert |blocked - {c}| <= |blocked|;
      var d := Delivered(env, requests, r + 1, blocked - {c}, subscribed - {c}, received + 1);
      d.(served := (waiting - blocked) + d.served)
    else
      var c := env.picks(r, blocked);
      var d := Delivered(env, requests, r + 1, blocked - {c}, subscribed, received);
      d.(served := (waiting - blocked) + {c} + d.served)
  }

  lemma FewerBlocked(env: Outside, r: nat, waiting: set<Channel>)
    ensures Blocked(env, r, waiting) <= waiting && |Blocked(env, r, waiting)| <= |waiting|
  {
    var b := Blocked(env, r, waiting);
    assert waiting == b + (waiting - b);
  }

  ghost function Members(cs: Cases): set<Channel> {
    set c | c in cs
  }

  /**
  Exactly the channels whose cancellation was received lose their subscription, and every waiting
  channel is served unless its cancellation was received; without any, all are.
  */
  lemma {:induction false} DeliveredIs(env: Outside, requests: Cases, r: nat, waiting: set<Channel>,
                                       subscribed: set<Channel>, received: nat)
    requires Proper(env) && received <= |requests|
    ensures var d := Delivered(env, requests, r, waiting, subscribed, received);
            && received <= d.received <= |requests|
            && d.subscribed == subscribed - Members(requests[received..d.received])
            && waiting - Members(requests[received..d.received]) <= d.served <= waiting
    decreases |waiting| + |requests| - received
  {
    hide Delivered, Proper, Blocked, Members;
    var blocked := Blocked(env, r, waiting);
    FewerBlocked(env, r, waiting);
    DeliveredUnfolds(env, requests, r, waiting, subscribed, received);
    if blocked == {} {
      assert Members(requests[received..received]) == {} by { NoMembers(requests, received); }
    } else if env.cancels(r) && received < |requests| {
      var c := requests[received];
      DeliveredIs(env, requests, r + 1, blocked - {c}, subscribed - {c}, received + 1);
      var d := Delivered(env, requests, r + 1, blocked - {c}, subscribed - {c}, received + 1);
      FirstMember(requests, received, d.received);
    } else {
      assert env.picks(r, blocked) in blocked by { PickedBlocked(env, r, blocked); }
      DeliveredIs(env, requests, r + 1, blocked - {env.picks(r, blocked)}, subscribed, received);
    }
  }

  lemma NoMembers(cs: Cases, i: nat)
    requires i <= |cs|
    ensures Members(cs[i..i]) == {}
  {
  }

  lemma FirstMember(cs: Cases, i: nat, j: nat)
    requires i < j <= |cs|
    ensures Members(cs[i..j]) == {cs[i]} + Members(cs[i + 1..j])
  {
    assert cs[i..j] == [cs[i]] + cs[i + 1..j];
  }

  lemma PickedBlocked(env: Outside, r: nat, blocked: set<Channel>)
    requires Proper(env) && blocked != {}
    ensures env.picks(r, blocked) in blocked
  {
  }

  lemma DeliveredUnfolds(env: Outside, requests: Cases, r: nat, waiting: set<Channel>, subscribed: set<Channel>,
                         received: nat)
    requires Proper(env) && received <= |requests|
    ensures var blocked := Blocked(env, r, waiting);
            Delivered(env, requests, r, waiting, subscribed, received) ==
              if blocked == {} then Delivery(waiting, subscribed, received)
              else if env.cancels(r) && received < |requests| then
                var c := requests[received];
                var d := Delivered(env, requests, r + 1, blocked - {c}, subscribed - {c}, received + 1);
                d.(served := (waiting - blocked) + d.served)
              else
                var c := env.picks(r, blocked);
                var d := Delivered(env, requests, r + 1, blocked - {c}, subscribed, received);
                d.(served := (waiting - blocked) + {c} + d.served)
  {
  }

  /** A channel that is not ready in the first round gets nothing if its cancellation comes first. */
  lemma CancelledFirst(env: Outside, requests: Cases, r: nat, waiting: set<Channel>, subscribed: set<Channel>,
                       received: nat)
    requires Proper(env) && received < |requests| && env.cancels(r)
    requires requests[received] in waiting && !env.ready(r, requests[received])
    ensures requests[received] !in Delivered(env, requests, r, waiting, subscribed, received).served
  {
    var c, blocked := requests[received], Blocked(env, r, waiting);
    assert c in blocked;
    FewerBlocked(env, r, waiting);
    DeliveredIs(env, requests, r + 1, blocked - {c}, subscribed - {c}, received + 1);
  }

  // ----- lists of cases -----

  ghost predicate Distinct(cs: Cases) {
    forall i, j :: 0 <= i < j < |cs| ==> cs[i] != cs[j]
  }

  method Find(cs: Cases, channel: Channel) returns (index: int)
    ensures index == -1 ==> channel !in cs
    ensures index != -1 ==> 0 <= index < |cs| && cs[index] == channel && channel !in cs[..index]
  {
    for i := 0 to |cs|
      invariant channel !in cs[..i]
    {
      if cs[i] == channel {
        return i;
      }
      assert cs[..i + 1] == cs[..i] + [cs[i]];
    }
    assert cs[..|cs|] == cs;
    return -1;
  }

  function Deleted(cs: Cases, index: nat): Cases
    requires index < |cs|
  {
    cs[..index] + cs[index + 1..]
  }

  /** The case at `index` changes places with the last of the first `n`. */
  function Deactivated(cs: Cases, n: nat, index: nat): Cases
    requires index < n <= |cs|
  {
    cs[index := cs[n - 1]][n - 1 := cs[index]]
  }

  // ----- what a send keeps -----

  /** `todo` are the channels subscribed at the start, `served` and `removed` those dealt with since. */
  ghost predicate Sending(cs: Cases, n: nat, todo: set<Channel>, served: Cases, removed: set<Channel>) {
    && FIRST_SUB <= n <= |cs| && cs[0] == REMOVE_SUB && Distinct(cs) && REMOVE_SUB !in todo
    && (forall i {:trigger cs[i]} ::
         1 <= i < |cs| ==> cs[i] in todo && cs[i] !in removed && (i < n <==> cs[i] !in served))
    && (forall c :: c in todo && c !in removed ==> c in cs)
    && (forall c :: c in removed ==> c in todo)
    && Distinct(served) && (forall c :: c in served ==> c in todo)
  }

  /** A channel is served: it leaves the prefix. */
  lemma Serves(cs: Cases, n: nat, todo: set<Channel>, served: Cases, removed: set<Channel>, index: nat)
    requires Sending(cs, n, todo, served, removed) && 1 <= index < n
    ensures Sending(Deactivated(cs, n, index), n - 1, todo, served + [cs[index]], removed) && cs[index] !in removed
  {
    var cs' := Deactivated(cs, n, index);
    assert forall i :: 0 <= i < |cs| ==>
      cs'[i] == if i == index then cs[n - 1] else if i == n - 1 then cs[index] else cs[i];
    forall c | c in todo && c !in removed ensures c in cs' {
      var i :| 0 <= i < |cs| && cs[i] == c;
      assert cs'[if i == index then n - 1 else if i == n - 1 then index else i] == c;
    }
  }

  /** A channel is cancelled: it leaves the list, and the prefix if it was there. */
  lemma Cancels(cs: Cases, n: nat, todo: set<Channel>, served: Cases, removed: set<Channel>, index: nat)
    requires Sending(cs, n, todo, served, removed) && 1 <= index < |cs|
    ensures Sending(Deleted(cs, index), if index < n then n - 1 else n, todo, served, removed + {cs[index]})
  {
    var cs' := Deleted(cs, index);
    assert forall i :: 0 <= i < |cs'| ==> cs'[i] == cs[if i < index then i else i + 1];
    forall c | c in todo && c !in removed && c != cs[index] ensures c in cs' {
      var i :| 0 <= i < |cs| && cs[i] == c;
      assert cs'[if i < index then i else i - 1] == c;
    }
  }

  /** Nothing is delivered to a channel after it was cancelled. */
  ghost predicate BeforeCancelled(served: Cases, cancelled: map<Channel, nat>) {
    forall k, c :: 0 <= k < |served| && served[k] == c && c in cancelled ==> k < cancelled[c]
  }

  lemma NoneBefore()
    ensures BeforeCancelled([], map[])
  {
  }

  lemma BeforeIs(served: Cases, cancelled: map<Channel, nat>)
    requires BeforeCancelled(served, cancelled)
    ensures forall k, c :: 0 <= k < |served| && served[k] == c && c in cancelled ==> k < cancelled[c]
  {
  }

  lemma CancelBefore(served: Cases, cancelled: map<Channel, nat>, channel: Channel)
    requires BeforeCancelled(served, cancelled)
    ensures BeforeCancelled(served, cancelled[channel := |served|])
  {
  }

  lemma StillBefore(served: Cases, served': Cases, cancelled: map<Channel, nat>)
    requires BeforeCancelled(served, cancelled) && |served| <= |served'| && served'[..|served|] == served
    requires forall k :: |served| <= k < |served'| ==> served'[k] !in cancelled
    ensures BeforeCancelled(served', cancelled)
  {
    forall k, c | 0 <= k < |served'| && served'[k] == c && c in cancelled ensures k < cancelled[c] {
      assert served[k] == c;
    }
  }

  /** A permutation of the remaining subscribers is left. */
  lemma Remaining(cs: Cases, rest: set<Channel>)
    requires |cs| > 0 && cs[0] == REMOVE_SUB && Distinct(cs) && REMOVE_SUB !in rest
    requires (forall i {:trigger cs[i]} :: 1 <= i < |cs| ==> cs[i] in rest) && forall c :: c in rest ==> c in cs
    ensures multiset(cs) == multiset{REMOVE_SUB} + multiset(rest)
  {
    forall c ensures multiset(cs)[c] == (multiset{REMOVE_SUB} + multiset(rest))[c] {
      Once(cs, c);
      if c in cs {
        var i :| 0 <= i < |cs| && cs[i] == c;
      }
    }
  }

  lemma {:induction false} Once(cs: Cases, c: Channel)
    requires Distinct(cs)
    ensures multiset(cs)[c] == if c in cs then 1 else 0
  {
    if cs != [] {
      assert cs == [cs[0]] + cs[1..];
      Once(cs[1..], c);
    }
  }

  class Feed {
    var sendCases: Cases
    var inbox: Cases

    /** The subscribers: those in the inbox have not yet been part of a send. */
    ghost function Subscribers(): set<Channel>
      reads this
    {
      set c | c in sendCases + inbox && c != REMOVE_SUB
    }

    ghost predicate Valid()
      reads this
    {
      |sendCases| > 0 && sendCases[0] == REMOVE_SUB && Distinct(sendCases + inbox)
    }

    constructor ()
      ensures Valid() && Subscribers() == {}
    {
      sendCases, inbox := [REMOVE_SUB], [];
    }

    method Subscribe(channel: Channel)
      requires Valid() && channel != REMOVE_SUB && channel !in Subscribers()
      modifies `inbox
      ensures Valid() && Subscribers() == old(Subscribers()) + {channel}
    {
      assert sendCases + (inbox + [channel]) == sendCases + inbox + [channel];
      inbox := inbox + [channel];
    }

    /** A subscription is cancelled while no send is in progress. */
    method Remove(channel: Channel)
      requires Valid() && channel in Subscribers()
      modifies this
      ensures Valid() && Subscribers() == old(Subscribers()) - {channel}
    {
      var index := Find(inbox, channel);
      if index != -1 {
        Splits(sendCases, inbox, |sendCases| + index);
        inbox := Deleted(inbox, index);
        return;
      }
      index := Find(sendCases, channel);
      Splits(sendCases, inbox, index);
      sendCases := Deleted(sendCases, index);
    }

    /**
    A value is delivered to all subscribers, while the cancellations in `requests` are asked for one
    after the other. `served` are the deliveries, in order, of `received` cancellations that came in
    time, and `cancelled` gives for each of these how many deliveries came before it.
    */
    method Send(env: Outside, requests: Cases)
      returns (nsent: nat, ghost served: Cases, ghost cancelled: map<Channel, nat>, ghost received: nat)
      requires Valid() && Proper(env) && Distinct(requests) && forall c :: c in requests ==> c in Subscribers()
      modifies this
      ensures Valid() && inbox == [] && Distinct(served) && nsent == |served|
      ensures Delivery(Members(served), Subscribers(), received) ==
              Delivered(env, requests, 0, old(Subscribers()), old(Subscribers()), 0)
      ensures received <= |requests| && cancelled.Keys == Members(requests[..received])
      ensures Subscribers() == old(Subscribers()) - cancelled.Keys
      ensures forall c :: c in old(Subscribers()) && c !in cancelled ==> c in served
      ensures forall c :: c in served ==> c in old(Subscribers())
      ensures forall k, c :: 0 <= k < |served| && served[k] == c && c in cancelled ==> k < cancelled[c]
      ensures requests == [] ==> nsent == |old(Subscribers())| && Subscribers() == old(Subscribers())
      ensures multiset(sendCases) == multiset{REMOVE_SUB} + multiset(Subscribers())
    {
      hide Distinct, Sending, Tallied, HalfTallied, Delivered, Proper, Waiting, BeforeCancelled;
      ghost var todo := Subscribers();
      sendCases, inbox := sendCases + inbox, [];
      var n: nat, r: nat, next: nat := |sendCases|, 0, 0;
      nsent, served, cancelled := 0, [], map[];
      SendStarts(sendCases, todo);
      TallyStarts(env, requests, todo);
      assert BeforeCancelled([], map[]) by { NoneBefore(); }
      assert requests[..0] == [] && cancelled.Keys == {};
      while true
        invariant inbox == [] && Sending(sendCases, n, todo, served, cancelled.Keys) && nsent == |served|
        invariant next <= |requests| && cancelled.Keys == Members(requests[..next])
        invariant BeforeCancelled(served, cancelled)
        invariant Tallied(env, requests, r, todo, served, cancelled.Keys, next)
        decreases n + |sendCases|
      {
        ghost var before := served;
        n, nsent, served := TryAll(n, nsent, env, r, todo, served, cancelled.Keys);
        StillBefore(before, served, cancelled);
        NoneReady(env, r, sendCases, n, todo, served, cancelled.Keys);
        TallyRound(env, requests, r, todo, before, served, cancelled.Keys, next);
        if n == FIRST_SUB {
          break;
        }
        n, nsent, next, served, cancelled := Select(n, nsent, env, r, requests, next, todo, served, cancelled);
        r := r + 1;
      }
      received := next;
      SendingFacts(sendCases, n, todo, served, cancelled.Keys);
      SendEnds(sendCases, todo, served, cancelled.Keys);
      TallyEnds(env, requests, r, todo, served, cancelled.Keys, next);
      DeliveredIs(env, requests, 0, todo, todo, 0);
      DistinctSize(served, todo);
      BeforeIs(served, cancelled);
    }

    /** The wait of one round: a cancellation is received, or a blocked channel gets ready and is served. */
    method Select(n: nat, nsent: nat, env: Outside, r: nat, requests: Cases, next: nat, ghost todo: set<Channel>,
                  ghost served: Cases, ghost cancelled: map<Channel, nat>)
      returns (n': nat, nsent': nat, next': nat, ghost served': Cases, ghost cancelled': map<Channel, nat>)
      requires Sending(sendCases, n, todo, served, cancelled.Keys) && nsent == |served| && n > FIRST_SUB
      requires Proper(env) && Distinct(requests) && forall c :: c in requests ==> c in todo
      requires next <= |requests| && cancelled.Keys == Members(requests[..next]) && BeforeCancelled(served, cancelled)
      requires HalfTallied(env, requests, r, todo, served, cancelled.Keys, next)
      modifies `sendCases
      ensures Sending(sendCases, n', todo, served', cancelled'.Keys) && nsent' == |served'|
      ensures next' <= |requests| && cancelled'.Keys == Members(requests[..next'])
      ensures BeforeCancelled(served', cancelled')
      ensures Tallied(env, requests, r + 1, todo, served', cancelled'.Keys, next')
      ensures n' + |sendCases| < n + old(|sendCases|)
    {
      hide Distinct, Sending, Tallied, HalfTallied, Delivered, Proper, Waiting, BeforeCancelled;
      n', nsent', next', served', cancelled' := n, nsent, next, served, cancelled;
      SendingFacts(sendCases, n, todo, served, cancelled.Keys);
      WaitersListed(sendCases, n, todo, served, cancelled.Keys);
      if env.cancels(r) && next < |requests| {
        RequestListed(sendCases, n, todo, served, cancelled.Keys, requests, next);
        TallyCancel(env, requests, r, todo, served, cancelled.Keys, next);
        n' := CancelDuring(requests[next], n, todo, served, cancelled.Keys);
        cancelled', next' := cancelled[requests[next] := |served|], next + 1;
        assert cancelled'.Keys == cancelled.Keys + {requests[next]};
        CancelBefore(served, cancelled, requests[next]);
      } else {
        var blocked: set<Channel> := set k | 1 <= k < n :: sendCases[k];
        var channel := env.picks(r, blocked);
        TallyPick(env, requests, r, todo, served, cancelled.Keys, next);
        PickListed(env, r, sendCases, n, todo, served, cancelled.Keys);
        var chosen := Find(sendCases, channel);
        Serves(sendCases, n, todo, served, cancelled.Keys, chosen);
        StillBefore(served, served + [channel], cancelled);
        served' := served + [channel];
        sendCases := Deactivated(sendCases, n, chosen);
        n', nsent' := n - 1, nsent + 1;
      }
    }

    /** A cancellation that arrives during a send. */
    method CancelDuring(channel: Channel, n: nat, ghost todo: set<Channel>, ghost served: Cases,
                        ghost removed: set<Channel>)
      returns (n': nat)
      requires Sending(sendCases, n, todo, served, removed) && channel in sendCases[1..]
      modifies `sendCases
      ensures Sending(sendCases, n', todo, served, removed + {channel})
      ensures n' <= n && |sendCases| < old(|sendCases|)
    {
      var index := Find(sendCases, channel);
      Cancels(sendCases, n, todo, served, removed, index);
      sendCases := Deleted(sendCases, index);
      n' := if index < n then n - 1 else n;
    }

    /** The fast path: every channel that is ready at once is served. */
    method TryAll(n: nat, nsent: nat, env: Outside, r: nat, ghost todo: set<Channel>, ghost served: Cases,
                  ghost removed: set<Channel>)
      returns (n': nat, nsent': nat, ghost served': Cases)
      requires Sending(sendCases, n, todo, served, removed) && nsent == |served|
      modifies `sendCases
      ensures Sending(sendCases, n', todo, served', removed) && nsent' == |served'|
      ensures n' <= n && |sendCases| == old(|sendCases|)
      ensures |served| <= |served'| && served'[..|served|] == served
      ensures forall k :: |served| <= k < |served'| ==> served'[k] !in removed && env.ready(r, served'[k])
      ensures forall k :: 1 <= k < n' ==> !env.ready(r, sendCases[k])
    {
      hide Distinct;
      n', nsent', served' := n, nsent, served;
      var i := FIRST_SUB;
      while i < n'
        invariant FIRST_SUB <= i && n' <= n && |sendCases| == old(|sendCases|)
        invariant Sending(sendCases, n', todo, served', removed) && nsent' == |served'|
        invariant |served| <= |served'| && served'[..|served|] == served
        invariant forall k :: |served| <= k < |served'| ==> served'[k] !in removed && env.ready(r, served'[k])
        invariant i <= n' && forall k :: 1 <= k < i ==> !env.ready(r, sendCases[k])
        decreases n' - i
      {
        if env.ready(r, sendCases[i]) {
          Serves(sendCases, n', todo, served', removed, i);
          served' := served' + [sendCases[i]];
          sendCases := Deactivated(sendCases, n', i);
          n', nsent' := n' - 1, nsent' + 1;
        } else {
          i := i + 1;
        }
      }
    }
  }

  // ----- the deliveries so far and those to come -----

  ghost function Waiting(todo: set<Channel>, served: Cases, removed: set<Channel>): set<Channel> {
    set c | c in todo && c !in removed && c !in served
  }

  /** At the start of round `r`: what is served already and what will be add up to the whole. */
  ghost predicate Tallied(env: Outside, requests: Cases, r: nat, todo: set<Channel>, served: Cases,
                          removed: set<Channel>, next: nat)
    requires Proper(env) && next <= |requests|
  {
    var d := Delivered(env, requests, r, Waiting(todo, served, removed), todo - removed, next);
    Delivered(env, requests, 0, todo, todo, 0) == d.(served := Members(served) + d.served)
  }

  /** The same after the first attempts of the round. */
  ghost predicate HalfTallied(env: Outside, requests: Cases, r: nat, todo: set<Channel>, served: Cases,
                              removed: set<Channel>, next: nat)
    requires Proper(env) && next <= |requests|
  {
    var blocked, subscribed := Waiting(todo, served, removed), todo - removed;
    Delivered(env, requests, 0, todo, todo, 0) ==
      if blocked == {} then Delivery(Members(served), subscribed, next)
      else if env.cancels(r) && next < |requests| then
        var d := Delivered(env, requests, r + 1, blocked - {requests[next]}, subscribed - {requests[next]}, next + 1);
        d.(served := Members(served) + d.served)
      else
        var c := env.picks(r, blocked);
        var d := Delivered(env, requests, r + 1, blocked - {c}, subscribed, next);
        d.(served := Members(served) + {c} + d.served)
  }

  lemma TallyStarts(env: Outside, requests: Cases, todo: set<Channel>)
    requires Proper(env)
    ensures Tallied(env, requests, 0, todo, [], {}, 0)
  {
    hide Delivered;
    assert Waiting(todo, [], {}) == todo && todo - {} == todo;
    var d := Delivered(env, requests, 0, todo, todo, 0);
    assert Members([]) + d.served == d.served;
  }

  lemma TallyRound(env: Outside, requests: Cases, r: nat, todo: set<Channel>, before: Cases, served: Cases,
                   removed: set<Channel>, next: nat)
    requires Proper(env) && next <= |requests| && Tallied(env, requests, r, todo, before, removed, next)
    requires |before| <= |served| && served[..|before|] == before && forall c :: c in served ==> c in todo
    requires forall k :: |before| <= k < |served| ==> served[k] !in removed && env.ready(r, served[k])
    requires forall c :: c in Waiting(todo, served, removed) ==> !env.ready(r, c)
    ensures HalfTallied(env, requests, r, todo, served, removed, next)
  {
    hide Proper;
    var waiting, blocked := Waiting(todo, before, removed), Waiting(todo, served, removed);
    assert served == before + served[|before|..];
    assert blocked == Blocked(env, r, waiting);
    assert Members(before) + (waiting - blocked) == Members(served);
  }

  lemma TallyCancel(env: Outside, requests: Cases, r: nat, todo: set<Channel>, served: Cases, removed: set<Channel>,
                    next: nat)
    requires Proper(env) && next < |requests| && HalfTallied(env, requests, r, todo, served, removed, next)
    requires Waiting(todo, served, removed) != {} && env.cancels(r)
    ensures Tallied(env, requests, r + 1, todo, served, removed + {requests[next]}, next + 1)
  {
    hide Delivered;
    var c := requests[next];
    assert Waiting(todo, served, removed + {c}) == Waiting(todo, served, removed) - {c};
    assert todo - (removed + {c}) == todo - removed - {c};
  }

  lemma TallyPick(env: Outside, requests: Cases, r: nat, todo: set<Channel>, served: Cases, removed: set<Channel>,
                  next: nat)
    requires Proper(env) && next <= |requests| && HalfTallied(env, requests, r, todo, served, removed, next)
    requires Waiting(todo, served, removed) != {} && !(env.cancels(r) && next < |requests|)
    ensures var c := env.picks(r, Waiting(todo, served, removed));
            Tallied(env, requests, r + 1, todo, served + [c], removed, next)
  {
    hide Delivered;
    var c := env.picks(r, Waiting(todo, served, removed));
    assert Waiting(todo, served + [c], removed) == Waiting(todo, served, removed) - {c};
    assert Members(served + [c]) == Members(served) + {c};
  }

  lemma TallyEnds(env: Outside, requests: Cases, r: nat, todo: set<Channel>, served: Cases, removed: set<Channel>,
                  next: nat)
    requires Proper(env) && next <= |requests| && HalfTallied(env, requests, r, todo, served, removed, next)
    requires Waiting(todo, served, removed) == {}
    ensures Delivered(env, requests, 0, todo, todo, 0) == Delivery(Members(served), todo - removed, next)
  {
    hide Delivered;
  }

  /** The waiting channels are those in the prefix of the list. */
  lemma WaitersListed(cs: Cases, n: nat, todo: set<Channel>, served: Cases, removed: set<Channel>)
    requires Sending(cs, n, todo, served, removed)
    ensures Waiting(todo, served, removed) == set k | 1 <= k < n :: cs[k]
    ensures n > FIRST_SUB ==> Waiting(todo, served, removed) != {}
  {
    forall c | c in Waiting(todo, served, removed) ensures exists k :: 1 <= k < n && cs[k] == c {
      var k :| 0 <= k < |cs| && cs[k] == c;
      assert k > 0;
    }
    if n > FIRST_SUB {
      assert cs[1] in Waiting(todo, served, removed);
    }
  }

  /** After the first attempts nobody who waits was ready, and without a prefix nobody waits. */
  lemma NoneReady(env: Outside, r: nat, cs: Cases, n: nat, todo: set<Channel>, served: Cases, removed: set<Channel>)
    requires Sending(cs, n, todo, served, removed) && forall k :: 1 <= k < n ==> !env.ready(r, cs[k])
    ensures forall c :: c in Waiting(todo, served, removed) ==> !env.ready(r, c)
    ensures (forall c :: c in served ==> c in todo) && FIRST_SUB <= n <= |cs|
    ensures n == FIRST_SUB ==> Waiting(todo, served, removed) == {}
  {
    hide Waiting;
    WaitersListed(cs, n, todo, served, removed);
  }

  lemma RequestListed(cs: Cases, n: nat, todo: set<Channel>, served: Cases, removed: set<Channel>, requests: Cases,
                      next: nat)
    requires Sending(cs, n, todo, served, removed) && next < |requests| && Distinct(requests)
    requires removed == Members(requests[..next]) && requests[next] in todo
    ensures requests[next] in cs[1..] && requests[next] !in removed
    ensures removed + {requests[next]} == Members(requests[..next + 1])
  {
    var c := requests[next];
    assert c !in requests[..next];
    var k :| 0 <= k < |cs| && cs[k] == c;
    assert k > 0 && cs[1..][k - 1] == c;
    assert requests[..next + 1] == requests[..next] + [c];
  }

  lemma PickListed(env: Outside, r: nat, cs: Cases, n: nat, todo: set<Channel>, served: Cases, removed: set<Channel>)
    requires Proper(env) && Sending(cs, n, todo, served, removed) && n > FIRST_SUB
    ensures var c := env.picks(r, Waiting(todo, served, removed));
            c !in removed && forall k :: 0 <= k < |cs| && cs[k] == c ==> 1 <= k < n
    ensures env.picks(r, Waiting(todo, served, removed)) in cs
  {
    WaitersListed(cs, n, todo, served, removed);
    var c := env.picks(r, Waiting(todo, served, removed));
    assert c in Waiting(todo, served, removed);
    var k :| 1 <= k < n && cs[k] == c;
  }

  lemma {:induction false} DistinctSize(cs: Cases, s: set<Channel>)
    requires Distinct(cs)
    ensures Members(cs) == s ==> |cs| == |s|
    decreases |cs|
  {
    if cs != [] {
      var last, init := cs[|cs| - 1], cs[..|cs| - 1];
      assert cs == init + [last] && last !in init;
      DistinctSize(init, Members(init));
      assert Members(cs) == Members(init) + {last};
    }
  }

  lemma SendStarts(cs: Cases, todo: set<Channel>)
    requires |cs| > 0 && cs[0] == REMOVE_SUB && Distinct(cs) && todo == set c | c in cs && c != REMOVE_SUB
    ensures Sending(cs, |cs|, todo, [], {})
  {
  }

  lemma SendEnds(cs: Cases, todo: set<Channel>, served: Cases, removed: set<Channel>)
    requires Sending(cs, FIRST_SUB, todo, served, removed)
    ensures forall c :: c in todo && c !in removed ==> c in served
    ensures cs + [] == cs && Distinct(cs) && (set c | c in cs && c != REMOVE_SUB) == todo - removed
    ensures multiset(cs) == multiset{REMOVE_SUB} + multiset(todo - removed)
  {
    Remaining(cs, todo - removed);
  }

  lemma SendingFacts(cs: Cases, n: nat, todo: set<Channel>, served: Cases, removed: set<Channel>)
    requires Sending(cs, n, todo, served, removed)
    ensures FIRST_SUB <= n <= |cs| && cs[0] == REMOVE_SUB && removed <= todo && Distinct(served) && Distinct(cs)
    ensures (forall c :: c in served ==> c in todo) && forall k :: 1 <= k < |cs| ==> cs[k] in cs[1..]
  {
    forall k | 1 <= k < |cs| ensures cs[k] in cs[1..] {
      assert cs[1..][k - 1] == cs[k];
    }
  }

  lemma Splits(a: Cases, b: Cases, k: nat)
    requires Distinct(a + b) && k < |a| + |b|
    ensures Distinct(Deleted(a + b, k))
    ensures Deleted(a + b, k) == if k < |a| then Deleted(a, k) + b else a + Deleted(b, k - |a|)
    ensures forall c :: c in Deleted(a + b, k) <==> c in a + b && c != (a + b)[k]
  {
    var s := a + b;
    var d := Deleted(s, k);
    assert forall i :: 0 <= i < |d| ==> d[i] == s[if i < k then i else i + 1];
    forall c | c in s && c != s[k] ensures c in d {
      var i :| 0 <= i < |s| && s[i] == c;
      assert d[if i < k then i else i - 1] == c;
    }
  }
}
