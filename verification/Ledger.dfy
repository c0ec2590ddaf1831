/** Account balances and their sum. */
module Ledger {
  import MapSums

  type Account = nat
  type Balances = map<Account, int>

  const ZERO_ACCOUNT: Account := 0

  /** The balance of an account; one that is not there has nothing. */
  function Balance(b: Balances, a: Account): int {
    if a in b then b[a] else 0
  }

  function Credit(b: Balances, a: Account, amount: int): Balances {
    b[a := Balance(b, a) + amount]
  }

  /** What all accounts have together. */
  ghost function Sum(b: Balances): int {
    MapSums.Sum(b, (x: int) => x)
  }

  /** Crediting an account adds to the sum. */
  lemma CreditSum(b: Balances, a: Account, amount: int)
    ensures Sum(Credit(b, a, amount)) == Sum(b) + amount
  {
    MapSums.SumUpdate(b, a, Balance(b, a) + amount, (x: int) => x);
  }
}
