/** The invariant every reachable state of the program keeps, and one
    preservation lemma per transition. */
module Invariants {
  import opened Types
  import opened TokenMath
  import opened Accounting
  import opened Program

  /** A contributor was never promised, nor paid, more tokens than the floor
      of all their lamports at the pool's ratio. */
  ghost predicate Entitled(c: UserContribution, ratio: nat)
  {
    c.tokensDue + c.tokensClaimed <= TokensFor(c.amount, ratio)
  }

  /** Before initialisation nothing exists; afterwards the amount raised stays
      within the cap, equals the sum of every contributor's amount and the
      lamports the pool account received, and no record is owed more than its
      lamports buy. */
  ghost predicate Valid(s: Launchpad)
  {
    match s.pool
    case None =>
      s.contributions == map[] && s.ledger.escrow == 0
    case Some(p) =>
      && p.totalRaised <= p.poolSize
      && TotalContributed(s.contributions) == p.totalRaised
      && s.ledger.escrow == p.totalRaised
      && forall who | who in s.contributions :: Entitled(s.contributions[who], p.tokenRatio)
  }

  lemma GenesisValid(wallets: map<Pubkey, nat>, tokens: map<Pubkey, nat>)
    ensures Valid(Genesis(wallets, tokens))
  {
  }

  lemma InitializePreservesValid(
    s: Launchpad, authority: Pubkey, tokenMint: Pubkey, tokenVault: Pubkey,
    tokenPrice: nat, tokenRatio: nat, poolSize: nat, startTime: int, endTime: int)
    requires Valid(s)
    ensures
      var r := InitializePool(s, authority, tokenMint, tokenVault, tokenPrice, tokenRatio, poolSize, startTime, endTime);
      r.Ok? ==> Valid(r.value)
  {
  }

  /** The cap, conservation of lamports and the token bound survive every
      successful contribution. */
  lemma {:induction false} ContributePreservesValid(s: Launchpad, contributor: Pubkey, amount: nat, now: int)
    requires Valid(s)
    ensures var r := Contribute(s, contributor, amount, now); r.Ok? ==> Valid(r.value)
  {
    var r := Contribute(s, contributor, amount, now);
    if r.Ok? {
      var p, t := s.pool.value, r.value;
      var before := RecordOf(s.contributions, contributor);
      var after := t.contributions[contributor];
      assert t.contributions == s.contributions[contributor := after] by {
        assert t.contributions - {contributor} == s.contributions - {contributor};
      }
      TotalUpdate(s.contributions, contributor, after);
      TokensSuperadditive(before.amount, amount, p.tokenRatio);
      assert Entitled(before, p.tokenRatio);
      assert Entitled(after, p.tokenRatio);
    }
  }

  /** A claim moves tokens only; the amounts and their sum stay as they were. */
  lemma {:induction false} ClaimPreservesValid(s: Launchpad, user: Pubkey, destination: Pubkey, destinationMint: Pubkey)
    requires Valid(s)
    ensures var r := ClaimTokens(s, user, destination, destinationMint); r.Ok? ==> Valid(r.value)
  {
    var r := ClaimTokens(s, user, destination, destinationMint);
    if r.Ok? {
      var c := s.contributions[user];
      TotalUpdate(s.contributions, user, c.(tokensDue := 0, tokensClaimed := c.tokensDue));
      assert Entitled(c, s.pool.value.tokenRatio);
    }
  }

  lemma FinalizePreservesValid(s: Launchpad, signer: Pubkey, now: int)
    requires Valid(s)
    ensures var r := FinalizePool(s, signer, now); r.Ok? ==> Valid(r.value)
  {
  }

  lemma DepositPreservesValid(s: Launchpad, source: Pubkey, amount: nat)
    requires Valid(s)
    ensures var r := DepositToVault(s, source, amount); r.Ok? ==> Valid(r.value)
  {
  }

  /** Once the guard of `contribute` has passed, the additions that update
      the pool's total and the contributor's amount stay within u64: the
      total is capped by the u64 pool size, and one contributor's amount is
      part of that total. */
  lemma {:induction false} ContributeStaysInU64(s: Launchpad, contributor: Pubkey, amount: nat, now: int)
    requires Valid(s)
    requires s.pool.Some? && s.pool.value.poolSize <= U64_MAX
    ensures var r := Contribute(s, contributor, amount, now);
      r.Ok? ==>
        && r.value.pool.value.totalRaised <= U64_MAX
        && r.value.contributions[contributor].amount <= U64_MAX
  {
    var r := Contribute(s, contributor, amount, now);
    if r.Ok? {
      RecordWithinTotal(s.contributions, contributor);
    }
  }

  /** A contributor's first contribution creates their record from zero (the
      account `init_if_needed` allocates): it holds exactly the lamports paid,
      is owed exactly their floor at the pool's ratio, and nothing is claimed. */
  lemma SingleContributionExact(s: Launchpad, contributor: Pubkey, amount: nat, now: int)
    requires contributor !in s.contributions
    ensures var r := Contribute(s, contributor, amount, now);
      r.Ok? ==> r.value.contributions[contributor] == UserContribution(amount, TokensFor(amount, s.pool.value.tokenRatio), 0)
  {
  }

  /** The stored token price plays no part in any decision or amount of
      `contribute`: two pools differing only in price behave alike. */
  lemma ContributeIgnoresPrice(s: Launchpad, price: nat, contributor: Pubkey, amount: nat, now: int)
    requires s.pool.Some?
    ensures
      var s2 := s.(pool := Some(s.pool.value.(tokenPrice := price)));
      var r, r2 := Contribute(s, contributor, amount, now), Contribute(s2, contributor, amount, now);
      && (r.Err? <==> r2.Err?)
      && (r.Err? ==> r.error == r2.error)
      && (r.Ok? ==> r2.value == r.value.(pool := Some(r.value.pool.value.(tokenPrice := price))))
  {
  }

  /** No amount is too small: a contribution of zero lamports inside the window
      of an open pool succeeds and leaves a record behind. */
  lemma ZeroContributionAccepted(s: Launchpad, contributor: Pubkey, now: int)
    requires s.pool.Some? && !s.pool.value.finalized
    requires s.pool.value.startTime <= now <= s.pool.value.endTime
    requires Valid(s)
    ensures var r := Contribute(s, contributor, 0, now);
      r.Ok? && contributor in r.value.contributions && r.value.pool == s.pool
  {
  }

  /** A pool whose start is after its end (initialisation accepts one) never
      admits a contribution, at any time. */
  lemma InvertedWindowNeverOpens(s: Launchpad, contributor: Pubkey, amount: nat, now: int)
    requires s.pool.Some? && s.pool.value.endTime < s.pool.value.startTime
    ensures Contribute(s, contributor, amount, now).Err?
  {
  }
}
