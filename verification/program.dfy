/** The four instructions of the pool program as pure state transitions.

    A transaction either commits all of its effects or none: each instruction
    returns the whole next state or the error that reverted it. The clock is
    the parameter `now`. The two transfers the program performs through other
    programs (lamports from the contributor to the pool, tokens from the vault
    to the claimant) are ledger deltas in `Ledger`. */
module Program {
  import opened Types
  import opened TokenMath
  import opened Accounting

  /** The balances the program's transfers move.
      `wallets`: lamports held by each signer that may contribute;
      `escrow`: lamports the pool account has received from contributions;
      `vault`: token base units held by the pool's token vault;
      `tokenAccounts`: token base units held by every other token account of
      the pool's mint, keyed by account address; a transfer naming the vault's
      own address uses `vault` instead. */
  datatype Ledger = Ledger(
    wallets: map<Pubkey, nat>,
    escrow: nat,
    vault: nat,
    tokenAccounts: map<Pubkey, nat>
  )

  /** Everything the program reads or writes: the pool account (absent until
      initialised), one contribution account per contributor, and the ledger. */
  datatype Launchpad = Launchpad(
    pool: Option<Pool>,
    contributions: map<Pubkey, UserContribution>,
    ledger: Ledger
  )

  /** The state before any instruction: no pool, no records, nothing moved;
      signers hold `wallets` lamports and token accounts hold `tokens` (minted
      beforehand, outside the program). */
  function Genesis(wallets: map<Pubkey, nat>, tokens: map<Pubkey, nat>): Launchpad
  {
    Launchpad(None, map[], Ledger(wallets, 0, 0, tokens))
  }

  /** `initialize_pool`: creates the pool account and stores the parameters as
      given, without checking any of them. The pool account can be created once. */
  function InitializePool(
    s: Launchpad, authority: Pubkey, tokenMint: Pubkey, tokenVault: Pubkey,
    tokenPrice: nat, tokenRatio: nat, poolSize: nat, startTime: int, endTime: int
  ): (r: Result<Launchpad>)
    ensures r.Ok? <==> s.pool.None?
    ensures r.Err? ==> r.error == AccountAlreadyInUse
    ensures r.Ok? ==>
      && r.value.pool.Some?
      && var p := r.value.pool.value;
      && p.authority == authority && p.tokenMint == tokenMint && p.tokenVault == tokenVault
      && p.tokenPrice == tokenPrice && p.tokenRatio == tokenRatio && p.poolSize == poolSize
      && p.startTime == startTime && p.endTime == endTime
      && p.totalRaised == 0 && !p.finalized
    ensures r.Ok? ==> r.value.contributions == s.contributions && r.value.ledger == s.ledger
  {
    if s.pool.Some? then Err(AccountAlreadyInUse)
    else
      Ok(s.(pool := Some(Pool(authority, tokenMint, tokenVault, tokenPrice, tokenRatio,
                              poolSize, 0, startTime, endTime, false))))
  }

  /** The four checks of `contribute`, in the order the program makes them;
      `None` when the contribution is admitted. The end time is inclusive and
      there is no minimum amount. */
  function AdmissionError(p: Pool, amount: nat, now: int): (e: Option<CustomError>)
    ensures e == Some(PoolNotStarted) <==> now < p.startTime
    ensures e == Some(PoolEnded) <==> p.startTime <= now && p.endTime < now
    ensures e == Some(PoolFinalized) <==> p.startTime <= now <= p.endTime && p.finalized
    ensures e == Some(PoolFull) <==>
      p.startTime <= now <= p.endTime && !p.finalized && p.poolSize < p.totalRaised + amount
    ensures e == None <==>
      p.startTime <= now <= p.endTime && !p.finalized && p.totalRaised + amount <= p.poolSize
  {
    if now < p.startTime then Some(PoolNotStarted)
    else if now > p.endTime then Some(PoolEnded)
    else if p.finalized then Some(PoolFinalized)
    else if p.totalRaised + amount > p.poolSize then Some(PoolFull)
    else None
  }

  /** `contribute`: admits `amount` lamports from `contributor` at time `now`,
      moves them into the pool account, and credits the contributor's record,
      creating it zeroed if it does not exist yet. */
  function Contribute(s: Launchpad, contributor: Pubkey, amount: nat, now: int): (r: Result<Launchpad>)
    ensures s.pool.None? ==> r == Err(AccountNotInitialized)
    ensures s.pool.Some? && AdmissionError(s.pool.value, amount, now).Some? ==>
      r == Err(Custom(AdmissionError(s.pool.value, amount, now).value))
    ensures s.pool.Some? && AdmissionError(s.pool.value, amount, now).None?
            && Balance(s.ledger.wallets, contributor) < amount ==>
      r == Err(InsufficientLamports)
    ensures r.Ok? <==>
      && s.pool.Some?
      && AdmissionError(s.pool.value, amount, now).None?
      && amount <= Balance(s.ledger.wallets, contributor)
    ensures r != Err(Custom(ContributionTooSmall))
    ensures r.Ok? ==>
      && s.pool.Some?
      && var p, t := s.pool.value, r.value;
      && var before := RecordOf(s.contributions, contributor);
      // the pool: only the amount raised moves, by exactly `amount`
      && t.pool == Some(p.(totalRaised := p.totalRaised + amount))
      // the contributor's record: amount and tokens owed grow, nothing is claimed
      && contributor in t.contributions
      && t.contributions[contributor].amount == before.amount + amount
      && t.contributions[contributor].tokensDue == before.tokensDue + TokensFor(amount, p.tokenRatio)
      && t.contributions[contributor].tokensClaimed == before.tokensClaimed
      // every other record is untouched
      && t.contributions - {contributor} == s.contributions - {contributor}
      // the lamports move from the contributor to the pool account
      && Balance(t.ledger.wallets, contributor) + amount == Balance(s.ledger.wallets, contributor)
      && t.ledger.wallets - {contributor} == s.ledger.wallets - {contributor}
      && t.ledger.escrow == s.ledger.escrow + amount
      && t.ledger.vault == s.ledger.vault && t.ledger.tokenAccounts == s.ledger.tokenAccounts
  {
    if s.pool.None? then Err(AccountNotInitialized)
    else
      var p := s.pool.value;
      match AdmissionError(p, amount, now)
      case Some(e) => Err(Custom(e))
      case None =>
        var paid := Balance(s.ledger.wallets, contributor);
        if paid < amount then Err(InsufficientLamports)
        else
          var c := RecordOf(s.contributions, contributor);
          var c' := c.(amount := c.amount + amount,
                       tokensDue := c.tokensDue + TokensFor(amount, p.tokenRatio));
          Ok(Launchpad(
            Some(p.(totalRaised := p.totalRaised + amount)),
            s.contributions[contributor := c'],
            s.ledger.(wallets := s.ledger.wallets[contributor := paid - amount],
                      escrow := s.ledger.escrow + amount)))
  }

  /** `claim_tokens`: after finalisation, pays `user` everything owed into the
      token account `destination`, whose mint must be the pool's. The record
      is then marked paid: tokens owed drop to zero and the amount paid is
      stored (not added) as tokens claimed. The destination may be the vault
      itself; the token program then checks the vault's balance and moves
      nothing, but the record is marked paid all the same. */
  function ClaimTokens(s: Launchpad, user: Pubkey, destination: Pubkey, destinationMint: Pubkey): (r: Result<Launchpad>)
    ensures s.pool.None? || user !in s.contributions ==> r == Err(AccountNotInitialized)
    ensures s.pool.Some? && user in s.contributions && destinationMint != s.pool.value.tokenMint ==>
      r == Err(ConstraintRaw)
    ensures r.Ok? <==>
      && s.pool.Some? && user in s.contributions && destinationMint == s.pool.value.tokenMint
      && s.pool.value.finalized
      && 0 < s.contributions[user].tokensDue <= s.ledger.vault
    ensures s.pool.Some? && user in s.contributions && destinationMint == s.pool.value.tokenMint ==>
      && (!s.pool.value.finalized ==> r == Err(Custom(PoolNotFinalized)))
      && (s.pool.value.finalized && s.contributions[user].tokensDue == 0 ==> r == Err(Custom(NoTokensToClaim)))
      && (s.pool.value.finalized && s.ledger.vault < s.contributions[user].tokensDue ==> r == Err(InsufficientTokens))
    ensures r.Ok? ==>
      && var t, paid := r.value, s.contributions[user].tokensDue;
      && t.pool == s.pool
      && t.contributions == s.contributions[user := s.contributions[user].(tokensDue := 0, tokensClaimed := paid)]
      && t.ledger.wallets == s.ledger.wallets && t.ledger.escrow == s.ledger.escrow
      // a claim into the vault itself moves no tokens
      && (destination == s.pool.value.tokenVault ==> t.ledger == s.ledger)
      // any other destination receives exactly what the vault pays
      && (destination != s.pool.value.tokenVault ==>
            && t.ledger.vault + paid == s.ledger.vault
            && Balance(t.ledger.tokenAccounts, destination) == Balance(s.ledger.tokenAccounts, destination) + paid
            && t.ledger.tokenAccounts - {destination} == s.ledger.tokenAccounts - {destination})
  {
    if s.pool.None? || user !in s.contributions then Err(AccountNotInitialized)
    else if destinationMint != s.pool.value.tokenMint then Err(ConstraintRaw)
    else if !s.pool.value.finalized then Err(Custom(PoolNotFinalized))
    else
      var c := s.contributions[user];
      if c.tokensDue == 0 then Err(Custom(NoTokensToClaim))
      else if s.ledger.vault < c.tokensDue then Err(InsufficientTokens)
      else
        var paid := s.contributions[user := c.(tokensDue := 0, tokensClaimed := c.tokensDue)];
        if destination == s.pool.value.tokenVault then Ok(s.(contributions := paid))
        else
          var held := Balance(s.ledger.tokenAccounts, destination);
          Ok(s.(contributions := paid,
                ledger := s.ledger.(vault := s.ledger.vault - c.tokensDue,
                                    tokenAccounts := s.ledger.tokenAccounts[destination := held + c.tokensDue])))
  }

  /** `finalize_pool`: the pool's authority closes the pool, once, strictly
      after the end time. No funds move. */
  function FinalizePool(s: Launchpad, signer: Pubkey, now: int): (r: Result<Launchpad>)
    ensures s.pool.None? ==> r == Err(AccountNotInitialized)
    ensures s.pool.Some? && signer != s.pool.value.authority ==> r == Err(ConstraintHasOne)
    ensures s.pool.Some? && signer == s.pool.value.authority ==>
      && (s.pool.value.finalized ==> r == Err(Custom(PoolAlreadyFinalized)))
      && (!s.pool.value.finalized && now <= s.pool.value.endTime ==> r == Err(Custom(PoolNotEnded)))
    ensures r.Ok? <==>
      s.pool.Some? && signer == s.pool.value.authority && !s.pool.value.finalized && s.pool.value.endTime < now
    ensures r.Ok? ==> r.value == s.(pool := Some(s.pool.value.(finalized := true)))
  {
    if s.pool.None? then Err(AccountNotInitialized)
    else if signer != s.pool.value.authority then Err(ConstraintHasOne)
    else if s.pool.value.finalized then Err(Custom(PoolAlreadyFinalized))
    else if !(now > s.pool.value.endTime) then Err(Custom(PoolNotEnded))
    else Ok(s.(pool := Some(s.pool.value.(finalized := true))))
  }

  /** Not an instruction of this program: the owner of token account
      `source` moves `amount` tokens into the vault with the token program,
      which is how the vault is funded; the program itself never checks the
      vault's balance. The transfer fails when the source holds too little;
      a source that is the vault itself moves nothing. */
  function DepositToVault(s: Launchpad, source: Pubkey, amount: nat): (r: Result<Launchpad>)
    ensures s.pool.None? ==> r == Err(AccountNotInitialized)
    ensures r.Ok? <==>
      && s.pool.Some?
      && amount <= (if source == s.pool.value.tokenVault then s.ledger.vault
                    else Balance(s.ledger.tokenAccounts, source))
    ensures s.pool.Some? && r.Err? ==> r.error == InsufficientTokens
    ensures r.Ok? ==>
      && var t := r.value;
      && t.pool == s.pool && t.contributions == s.contributions
      && t.ledger.wallets == s.ledger.wallets && t.ledger.escrow == s.ledger.escrow
      && (source == s.pool.value.tokenVault ==> t.ledger == s.ledger)
      && (source != s.pool.value.tokenVault ==>
            && t.ledger.vault == s.ledger.vault + amount
            && Balance(t.ledger.tokenAccounts, source) + amount == Balance(s.ledger.tokenAccounts, source)
            && t.ledger.tokenAccounts - {source} == s.ledger.tokenAccounts - {source})
  {
    if s.pool.None? then Err(AccountNotInitialized)
    else if source == s.pool.value.tokenVault then
      if s.ledger.vault < amount then Err(InsufficientTokens) else Ok(s)
    else
      var held := Balance(s.ledger.tokenAccounts, source);
      if held < amount then Err(InsufficientTokens)
      else Ok(s.(ledger := s.ledger.(vault := s.ledger.vault + amount,
                                     tokenAccounts := s.ledger.tokenAccounts[source := held - amount])))
  }
}
