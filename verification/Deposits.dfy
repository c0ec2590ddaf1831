/**
Candidate deposits: a candidate pays a deposit when it first logs in, and gets it back when it
withdraws, long enough after it last logged out.
*/
module Deposits {
  import opened Ledger

  /** 100 LET, paid once per registration. */
  const MIN_CANDIDATE_BALANCE: int := 100_000_000_000_000_000_000
  /** How many blocks a deposit stays locked after a logout. */
  const UNLOCK_INTERVAL := 10

  datatype CoinState = Login | Logout

  datatype Candidate = Candidate(addr: Account, state: CoinState, block: nat, score: int)

  datatype Kind = LoginCandidate | LogoutCandidate | WithdrawCandidate | Delegate | UnDelegate | Unknown

  datatype Message = Message(from: Account, kind: Kind, block: nat)

  datatype Stakes = Stakes(balances: Balances, candidates: map<Account, Candidate>)

  /** Reading a candidate that is not there gives a record of zeros. */
  function Read(s: Stakes, a: Account): Candidate {
    if a in s.candidates then s.candidates[a] else Candidate(ZERO_ACCOUNT, Login, 0, 0)
  }

  function Put(s: Stakes, c: Candidate): Stakes {
    s.(candidates := s.candidates[c.addr := c])
  }

  function LoggedIn(s: Stakes, m: Message): Stakes {
    var c := Read(s, m.from);
    if c.state == Logout then Put(s, Candidate(m.from, Login, m.block, c.score))
    else if c.addr == m.from then s
    else if Balance(s.balances, m.from) < MIN_CANDIDATE_BALANCE then s
    else Put(s, Candidate(m.from, Login, m.block, 0)).(balances := Credit(s.balances, m.from, -MIN_CANDIDATE_BALANCE))
  }

  function LoggedOut(s: Stakes, m: Message): Stakes {
    var c := Read(s, m.from);
    if c.state == Login && c.addr == m.from then Put(s, Candidate(m.from, Logout, m.block, c.score)) else s
  }

  function Withdrawn(s: Stakes, m: Message): Stakes {
    var c := Read(s, m.from);
    if c.state == Logout && c.block + UNLOCK_INTERVAL < m.block then
      Stakes(Credit(s.balances, m.from, MIN_CANDIDATE_BALANCE), s.candidates - {m.from})
    else s
  }

  /** What a message makes of the deposits; votes and delegations do not touch them. */
  function Next(s: Stakes, m: Message): Stakes {
    match m.kind
    case LoginCandidate => LoggedIn(s, m)
    case LogoutCandidate => LoggedOut(s, m)
    case WithdrawCandidate => Withdrawn(s, m)
    case _ => s
  }

  function Run(s: Stakes, ms: seq<Message>): Stakes {
    if ms == [] then s else Next(Run(s, ms[..|ms| - 1]), ms[|ms| - 1])
  }

  /** Candidates are kept under their own addresses. */
  ghost predicate Keyed(s: Stakes) {
    forall a :: a in s.candidates ==> s.candidates[a].addr == a
  }

  // ----- conservation -----

  /** What an account has, its deposit included. */
  function Worth(s: Stakes, a: Account): int {
    Balance(s.balances, a) + if a in s.candidates then MIN_CANDIDATE_BALANCE else 0
  }

  ghost function Wealth(s: Stakes): int {
    Sum(s.balances) + MIN_CANDIDATE_BALANCE * |s.candidates|
  }

  /** The zero account reads as logged in without having registered: its logout makes up a deposit. */
  predicate Unfounded(s: Stakes, m: Message) {
    m.kind == LogoutCandidate && m.from == ZERO_ACCOUNT && ZERO_ACCOUNT !in s.candidates
  }

  /** Every message keeps what every account has, except an unfounded one for the zero account. */
  lemma WorthKept(s: Stakes, m: Message, a: Account)
    requires Keyed(s)
    ensures Keyed(Next(s, m))
    ensures Worth(Next(s, m), a) == Worth(s, a) <==> !(Unfounded(s, m) && a == ZERO_ACCOUNT)
  {
  }

  lemma WealthKept(s: Stakes, m: Message)
    requires Keyed(s)
    ensures Wealth(Next(s, m)) == Wealth(s) + if Unfounded(s, m) then MIN_CANDIDATE_BALANCE else 0
  {
    hide Sum, Credit, Next, Unfounded;
    NextShape(s, m);
    CreditSum(s.balances, m.from, MIN_CANDIDATE_BALANCE);
    CreditSum(s.balances, m.from, -MIN_CANDIDATE_BALANCE);
    KeyCount(s.candidates, Next(s, m).candidates, m.from);
  }

  /** A message registers its sender for a deposit, or ends its registration and returns it, or does neither. */
  lemma NextShape(s: Stakes, m: Message)
    requires Keyed(s)
    ensures var s' := Next(s, m);
            || (s'.candidates.Keys == s.candidates.Keys && s'.balances == s.balances && !Unfounded(s, m))
            || (&& m.from !in s.candidates && s'.candidates.Keys == s.candidates.Keys + {m.from}
                && s'.balances ==
                     if Unfounded(s, m) then s.balances else Credit(s.balances, m.from, -MIN_CANDIDATE_BALANCE))
            || (&& m.from in s.candidates && s'.candidates.Keys == s.candidates.Keys - {m.from} && !Unfounded(s, m)
                && s'.balances == Credit(s.balances, m.from, MIN_CANDIDATE_BALANCE))
  {
    hide Credit;
  }

  lemma KeyCount(c: map<Account, Candidate>, c': map<Account, Candidate>, a: Account)
    ensures c'.Keys == c.Keys ==> |c'| == |c|
    ensures a !in c && c'.Keys == c.Keys + {a} ==> |c'| == |c| + 1
    ensures a in c && c'.Keys == c.Keys - {a} ==> |c'| == |c| - 1
  {
    assert |c'| == |c'.Keys| && |c| == |c.Keys|;
  }

  /** How many messages of a run are unfounded. */
  ghost function Slips(s: Stakes, ms: seq<Message>): nat {
    if ms == [] then 0
    else Slips(s, ms[..|ms| - 1]) + if Unfounded(Run(s, ms[..|ms| - 1]), ms[|ms| - 1]) then 1 else 0
  }

  /** Over any run, balances and deposits together stay constant exactly if no message is unfounded. */
  lemma {:induction false} RunWealth(s: Stakes, ms: seq<Message>)
    requires Keyed(s)
    ensures Keyed(Run(s, ms))
    ensures Wealth(Run(s, ms)) == Wealth(s) + MIN_CANDIDATE_BALANCE * Slips(s, ms)
  {
    hide Wealth;
    if ms != [] {
      var before, m := ms[..|ms| - 1], ms[|ms| - 1];
      RunWealth(s, before);
      WorthKept(Run(s, before), m, 0);
      WealthKept(Run(s, before), m);
    }
  }

  /** The zero account logs out without ever having logged in. */
  lemma UnfoundedExample()
    ensures var s := Stakes(map[], map[]);
            var ms := [Message(ZERO_ACCOUNT, LogoutCandidate, 1), Message(ZERO_ACCOUNT, WithdrawCandidate, 12)];
            Balance(Run(s, ms).balances, ZERO_ACCOUNT) == MIN_CANDIDATE_BALANCE
  {
    var s := Stakes(map[], map[]);
    var m1, m2 := Message(ZERO_ACCOUNT, LogoutCandidate, 1), Message(ZERO_ACCOUNT, WithdrawCandidate, 12);
    assert [m1, m2][..1] == [m1];
    assert [m1][..0] == [];
    assert Run(s, [m1]) == Next(s, m1);
    assert Run(s, [m1, m2]) == Next(Next(s, m1), m2);
  }

  // ----- locking -----

  /** The message at `i` logs `a` out at block `n`, and no later one of the run logs it in. */
  ghost predicate LastLogout(ms: seq<Message>, a: Account, n: nat, i: nat) {
    && i < |ms| && ms[i] == Message(a, LogoutCandidate, n)
    && forall j :: i < j < |ms| ==> ms[j].from == a ==> ms[j].kind != LoginCandidate
  }

  /** A candidate that is logged out was logged out by a message of the run, at the block on record. */
  lemma {:induction false} LoggedOutBy(s: Stakes, ms: seq<Message>, a: Account) returns (i: nat)
    requires Keyed(s) && a !in s.candidates && a in Run(s, ms).candidates && Run(s, ms).candidates[a].state == Logout
    ensures LastLogout(ms, a, Run(s, ms).candidates[a].block, i)
  {
    hide Next, Wealth;
    var before, m := ms[..|ms| - 1], ms[|ms| - 1];
    RunWealth(s, before);
    var s1 := Run(s, before);
    LogoutStep(s1, m, a);
    if m == Message(a, LogoutCandidate, Run(s, ms).candidates[a].block) {
      i := |ms| - 1;
    } else {
      i := LoggedOutBy(s, before, a);
    }
  }

  lemma LogoutStep(s: Stakes, m: Message, a: Account)
    requires Keyed(s) && a in Next(s, m).candidates && Next(s, m).candidates[a].state == Logout
    ensures || m == Message(a, LogoutCandidate, Next(s, m).candidates[a].block)
            || (&& a in s.candidates && s.candidates[a] == Next(s, m).candidates[a]
                && !(m.from == a && m.kind == LoginCandidate))
  {
  }

  /** A deposit is returned only more than the interval after the latest logout, and only by the candidate itself. */
  lemma ReturnedLate(s: Stakes, ms: seq<Message>, m: Message, a: Account) returns (i: nat, n: nat)
    requires Keyed(s) && a !in s.candidates
    requires a in Run(s, ms).candidates && a !in Next(Run(s, ms), m).candidates
    ensures m.from == a && m.kind == WithdrawCandidate && LastLogout(ms, a, n, i) && n + UNLOCK_INTERVAL < m.block
    ensures Balance(Next(Run(s, ms), m).balances, a) == Balance(Run(s, ms).balances, a) + MIN_CANDIDATE_BALANCE
  {
    n := Run(s, ms).candidates[a].block;
    i := LoggedOutBy(s, ms, a);
  }

  /** A deposit is charged exactly when a registration begins. */
  lemma ChargedOnce(s: Stakes, m: Message, a: Account)
    requires Keyed(s) && !Unfounded(s, m)
    ensures Balance(Next(s, m).balances, a) < Balance(s.balances, a) <==>
            a !in s.candidates && a in Next(s, m).candidates
  {
  }

  // ----- what each kind of message does -----

  /** A first login registers exactly if the deposit is covered, and then takes it. */
  lemma FirstLogin(s: Stakes, m: Message)
    requires m.kind == LoginCandidate && m.from !in s.candidates
    ensures m.from in Next(s, m).candidates <==>
            m.from != ZERO_ACCOUNT && Balance(s.balances, m.from) >= MIN_CANDIDATE_BALANCE
    ensures m.from in Next(s, m).candidates ==>
              && Next(s, m).candidates == s.candidates[m.from := Candidate(m.from, Login, m.block, 0)]
              && Balance(Next(s, m).balances, m.from) == Balance(s.balances, m.from) - MIN_CANDIDATE_BALANCE
    ensures m.from !in Next(s, m).candidates ==> Next(s, m) == s
  {
  }

  /** A candidate logs in again without paying; one that is logged in stays as it is. */
  lemma LaterLogin(s: Stakes, m: Message)
    requires Keyed(s) && m.kind == LoginCandidate && m.from in s.candidates
    ensures var c := s.candidates[m.from];
            && Next(s, m).balances == s.balances
            && Next(s, m).candidates ==
                 s.candidates[m.from := if c.state == Login then c else Candidate(m.from, Login, m.block, c.score)]
  {
  }

  /** A logout records the block, of a candidate that is logged in and of the zero account without a record. */
  lemma Logs(s: Stakes, m: Message)
    requires Keyed(s) && m.kind == LogoutCandidate
    ensures Next(s, m).balances == s.balances
    ensures m.from in s.candidates && s.candidates[m.from].state == Login ==>
              Next(s, m).candidates
              == s.candidates[m.from := Candidate(m.from, Logout, m.block, s.candidates[m.from].score)]
    ensures m.from in s.candidates && s.candidates[m.from].state == Logout ==> Next(s, m).candidates == s.candidates
    ensures m.from !in s.candidates && m.from != ZERO_ACCOUNT ==> Next(s, m).candidates == s.candidates
    ensures Unfounded(s, m) ==> Next(s, m).candidates == s.candidates[m.from := Candidate(m.from, Logout, m.block, 0)]
  {
  }

  /** A withdrawal returns the deposit exactly if the candidate is logged out for more than the interval. */
  lemma WithdrawIff(s: Stakes, m: Message)
    requires m.kind == WithdrawCandidate
    ensures var c := Read(s, m.from);
            if m.from in s.candidates && c.state == Logout && c.block + 10 < m.block then
              && Next(s, m).candidates == s.candidates - {m.from}
              && Balance(Next(s, m).balances, m.from) == Balance(s.balances, m.from) + MIN_CANDIDATE_BALANCE
            else Next(s, m) == s
  {
  }

  /** Nobody owes anything. */
  ghost predicate Solvent(b: Balances) {
    forall a :: a in b ==> b[a] >= 0
  }

  /** Messages leave nobody in debt. */
  lemma StaysSolvent(s: Stakes, m: Message)
    requires Solvent(s.balances)
    ensures Solvent(Next(s, m).balances)
  {
  }

  lemma {:induction false} RunSolvent(s: Stakes, ms: seq<Message>)
    requires Solvent(s.balances)
    ensures Solvent(Run(s, ms).balances)
  {
    if ms != [] {
      RunSolvent(s, ms[..|ms| - 1]);
      StaysSolvent(Run(s, ms[..|ms| - 1]), ms[|ms| - 1]);
    }
  }

  class DposContext {
    var balances: Balances
    var candidates: map<Account, Candidate>

    function View(): Stakes
      reads this
    {
      Stakes(balances, candidates)
    }

    constructor (balances: Balances)
      ensures View() == Stakes(balances, map[])
    {
      this.balances, candidates := balances, map[];
    }

    /** A message takes effect; only one of an unknown kind is an error. */
    method ApplyDposMessage(m: Message) returns (ok: bool)
      modifies this
      ensures View() == Next(old(View()), m) && ok == (m.kind != Unknown)
    {
      var c := Read(View(), m.from);
      match m.kind {
        case LoginCandidate =>
          if c.state == Logout {
            candidates := candidates[m.from := Candidate(m.from, Login, m.block, c.score)];
          } else if c.addr == m.from {
            return true;
          } else {
            if Balance(balances, m.from) < MIN_CANDIDATE_BALANCE {
              return true;
            }
            balances := Credit(balances, m.from, -MIN_CANDIDATE_BALANCE);
            candidates := candidates[m.from := Candidate(m.from, Login, m.block, 0)];
          }
        case LogoutCandidate =>
          if c.state == Login && c.addr == m.from {
            candidates := candidates[m.from := Candidate(m.from, Logout, m.block, c.score)];
          }
        case WithdrawCandidate =>
          if c.state == Logout {
            if c.block + UNLOCK_INTERVAL < m.block {
              candidates := candidates - {m.from};
              balances := Credit(balances, m.from, MIN_CANDIDATE_BALANCE);
            }
          }
        case Delegate =>
        case UnDelegate =>
        case Unknown =>
          return false;
      }
      return true;
    }
  }
}
