/** Sums over the per-contributor records, keyed by contributor. */
module Accounting {
  import opened Types

  /** The record of `who`, or the zero-initialised one when it does not exist. */
  function RecordOf(m: map<Pubkey, UserContribution>, who: Pubkey): UserContribution
  {
    if who in m then m[who] else EmptyContribution
  }

  /** Some key of a non-empty map; which one does not matter. */
  ghost function PickKey(m: map<Pubkey, UserContribution>): (k: Pubkey)
    requires m != map[]
    ensures k in m
  {
    var k :| k in m; k
  }

  /** Lamports contributed by everyone who holds a record. */
  ghost function TotalContributed(m: map<Pubkey, UserContribution>): nat
    decreases |m|
  {
    if m == map[] then 0
    else
      var k := PickKey(m);
      m[k].amount + TotalContributed(m - {k})
  }

  /** Any record may be taken out of the sum first. */
  lemma {:induction false} TotalRemove(m: map<Pubkey, UserContribution>, k: Pubkey)
    requires k in m
    ensures TotalContributed(m) == m[k].amount + TotalContributed(m - {k})
    decreases |m|
  {
    var j := PickKey(m);
    if j != k {
      assert m - {j} - {k} == m - {k} - {j};
      TotalRemove(m - {j}, k);
      TotalRemove(m - {k}, j);
    }
  }

  /** Replacing (or creating) one record changes the sum by the change in
      that record's amount and by nothing else. */
  lemma TotalUpdate(m: map<Pubkey, UserContribution>, k: Pubkey, c: UserContribution)
    ensures TotalContributed(m[k := c]) + RecordOf(m, k).amount == TotalContributed(m) + c.amount
  {
    TotalRemove(m[k := c], k);
    assert m[k := c] - {k} == m - {k};
    if k in m {
      TotalRemove(m, k);
    } else {
      assert m - {k} == m;
    }
  }

  /** No single contributor holds more than the sum over all of them. */
  lemma RecordWithinTotal(m: map<Pubkey, UserContribution>, k: Pubkey)
    ensures RecordOf(m, k).amount <= TotalContributed(m)
  {
    if k in m {
      TotalRemove(m, k);
    }
  }

  /** The balance of `who` in a lamport or token ledger; absent means zero. */
  function Balance(m: map<Pubkey, nat>, who: Pubkey): nat
  {
    if who in m then m[who] else 0
  }
}
