/** Histories of transactions against the program, and what holds over them.

    Transactions run one after another; a failing one reverts and leaves the
    state as it was. Each call carries the clock value it observes. */
module Traces {
  import opened Types
  import opened TokenMath
  import opened Accounting
  import Program
  import Invariants

  /** The program's instructions, plus the outside funding of the vault. */
  datatype Instruction =
    | InitializePoolIx(authority: Pubkey, tokenMint: Pubkey, tokenVault: Pubkey, tokenPrice: nat,
                     tokenRatio: nat, poolSize: nat, startTime: int, endTime: int)
    | ContributeIx(contributor: Pubkey, amount: nat)
    | ClaimTokensIx(user: Pubkey, destination: Pubkey, destinationMint: Pubkey)
    | FinalizePoolIx(signer: Pubkey)
    | DepositToVaultIx(source: Pubkey, deposit: nat)

  datatype Call = Call(ix: Instruction, now: int)

  function Exec(s: Program.Launchpad, c: Call): Result<Program.Launchpad>
  {
    match c.ix
    case InitializePoolIx(a, m, v, price, ratio, size, start, end) =>
      Program.InitializePool(s, a, m, v, price, ratio, size, start, end)
    case ContributeIx(who, amount) => Program.Contribute(s, who, amount, c.now)
    case ClaimTokensIx(user, dest, mint) => Program.ClaimTokens(s, user, dest, mint)
    case FinalizePoolIx(signer) => Program.FinalizePool(s, signer, c.now)
    case DepositToVaultIx(source, amount) => Program.DepositToVault(s, source, amount)
  }

  /** One transaction: its effects, or none at all when it fails. */
  function Step(s: Program.Launchpad, c: Call): Program.Launchpad
  {
    match Exec(s, c)
    case Ok(t) => t
    case Err(_) => s
  }

  function Run(s: Program.Launchpad, calls: seq<Call>): Program.Launchpad
    decreases |calls|
  {
    if |calls| == 0 then s else Run(Step(s, calls[0]), calls[1..])
  }

  /** A history extended by one call ends where that call takes the state
      the history reached. */
  lemma {:induction false} RunAppend(s: Program.Launchpad, calls: seq<Call>, c: Call)
    ensures Run(s, calls + [c]) == Step(Run(s, calls), c)
    decreases |calls|
  {
    if |calls| > 0 {
      assert (calls + [c])[1..] == calls[1..] + [c];
      RunAppend(Step(s, calls[0]), calls[1..], c);
    }
  }

  /** Running two histories one after the other is running their
      concatenation. */
  lemma {:induction false} RunConcat(s: Program.Launchpad, first: seq<Call>, rest: seq<Call>)
    ensures Run(s, first + rest) == Run(Run(s, first), rest)
    decreases |first|
  {
    if |first| > 0 {
      assert (first + rest)[1..] == first[1..] + rest;
      RunConcat(Step(s, first[0]), first[1..], rest);
    } else {
      assert first + rest == rest;
    }
  }

  /** Transactions are all-or-nothing: a call that fails, wherever it stands
      in a history, can be struck from it without changing where the history
      ends. */
  lemma FailedCallInvisible(s: Program.Launchpad, before: seq<Call>, c: Call, after: seq<Call>)
    requires Exec(Run(s, before), c).Err?
    ensures Run(s, before + [c] + after) == Run(s, before + after)
  {
    RunConcat(s, before + [c], after);
    RunAppend(s, before, c);
    RunConcat(s, before, after);
  }

  lemma StepPreservesValid(s: Program.Launchpad, c: Call)
    requires Invariants.Valid(s)
    ensures Invariants.Valid(Step(s, c))
  {
    match c.ix
    case InitializePoolIx(a, m, v, price, ratio, size, start, end) =>
      Invariants.InitializePreservesValid(s, a, m, v, price, ratio, size, start, end);
    case ContributeIx(who, amount) => Invariants.ContributePreservesValid(s, who, amount, c.now);
    case ClaimTokensIx(user, dest, mint) => Invariants.ClaimPreservesValid(s, user, dest, mint);
    case FinalizePoolIx(signer) => Invariants.FinalizePreservesValid(s, signer, c.now);
    case DepositToVaultIx(source, amount) => Invariants.DepositPreservesValid(s, source, amount);
  }

  lemma {:induction false} RunPreservesValid(s: Program.Launchpad, calls: seq<Call>)
    requires Invariants.Valid(s)
    ensures Invariants.Valid(Run(s, calls))
    decreases |calls|
  {
    if |calls| > 0 {
      StepPreservesValid(s, calls[0]);
      RunPreservesValid(Step(s, calls[0]), calls[1..]);
    }
  }

  /** After any history that starts before initialisation: the amount raised
      never exceeds the cap, equals the sum of all contributors' amounts and
      equals the lamports the pool account received; and no contributor is
      owed or has been paid more than the floor of their lamports at the
      pool's ratio. */
  lemma {:induction false} ReachableStatesAreSound(wallets: map<Pubkey, nat>, tokens: map<Pubkey, nat>, calls: seq<Call>)
    ensures
      var t := Run(Program.Genesis(wallets, tokens), calls);
      && (t.pool.None? ==> t.contributions == map[] && t.ledger.escrow == 0)
      && (t.pool.Some? ==>
            && t.pool.value.totalRaised <= t.pool.value.poolSize
            && TotalContributed(t.contributions) == t.pool.value.totalRaised
            && t.ledger.escrow == t.pool.value.totalRaised
            && forall who | who in t.contributions ::
                 t.contributions[who].tokensDue + t.contributions[who].tokensClaimed
                 <= TokensFor(t.contributions[who].amount, t.pool.value.tokenRatio))
  {
    Invariants.GenesisValid(wallets, tokens);
    RunPreservesValid(Program.Genesis(wallets, tokens), calls);
  }

  // ---------------------------------------------------------------------
  // Monotonicity: nothing is undone, and no lamports ever leave the pool.

  /** A step never removes the pool, never clears `finalized`, never changes
      the pool's configuration, never lowers the amount raised, never deletes
      a record, and never takes lamports out of the pool account. */
  lemma StepIsMonotone(s: Program.Launchpad, c: Call)
    ensures var t := Step(s, c);
      && (s.pool.Some? ==>
            && t.pool.Some?
            && (s.pool.value.finalized ==> t.pool.value.finalized)
            && s.pool.value.totalRaised <= t.pool.value.totalRaised
            && t.pool.value.(totalRaised := 0, finalized := false)
               == s.pool.value.(totalRaised := 0, finalized := false))
      && s.contributions.Keys <= t.contributions.Keys
      && s.ledger.escrow <= t.ledger.escrow
  {
  }

  /** The same over a whole history: in particular no lamports contributed
      ever leave the pool account; there is no withdrawal. */
  lemma {:induction false} RunIsMonotone(s: Program.Launchpad, calls: seq<Call>)
    ensures var t := Run(s, calls);
      && (s.pool.Some? ==>
            && t.pool.Some?
            && (s.pool.value.finalized ==> t.pool.value.finalized)
            && s.pool.value.totalRaised <= t.pool.value.totalRaised)
      && s.contributions.Keys <= t.contributions.Keys
      && s.ledger.escrow <= t.ledger.escrow
    decreases |calls|
  {
    if |calls| > 0 {
      StepIsMonotone(s, calls[0]);
      RunIsMonotone(Step(s, calls[0]), calls[1..]);
    }
  }

  // ---------------------------------------------------------------------
  // Finalisation happens at most once, and closes contributions for good.

  predicate FinalizeSucceeds(s: Program.Launchpad, c: Call)
  {
    c.ix.FinalizePoolIx? && Exec(s, c).Ok?
  }

  /** How many calls of the history finalise the pool. */
  function FinalizeCount(s: Program.Launchpad, calls: seq<Call>): nat
    decreases |calls|
  {
    if |calls| == 0 then 0
    else (if FinalizeSucceeds(s, calls[0]) then 1 else 0) + FinalizeCount(Step(s, calls[0]), calls[1..])
  }

  predicate IsFinalized(s: Program.Launchpad)
  {
    s.pool.Some? && s.pool.value.finalized
  }

  lemma {:induction false} NoFinalizeOnceFinalized(s: Program.Launchpad, calls: seq<Call>)
    requires IsFinalized(s)
    ensures FinalizeCount(s, calls) == 0
    decreases |calls|
  {
    if |calls| > 0 {
      StepIsMonotone(s, calls[0]);
      NoFinalizeOnceFinalized(Step(s, calls[0]), calls[1..]);
    }
  }

  /** Whatever the history, at most one call finalises the pool, and none
      does when it is already finalised. */
  lemma {:induction false} FinalizeAtMostOnce(s: Program.Launchpad, calls: seq<Call>)
    ensures FinalizeCount(s, calls) <= (if IsFinalized(s) then 0 else 1)
    decreases |calls|
  {
    if IsFinalized(s) {
      NoFinalizeOnceFinalized(s, calls);
    } else if |calls| > 0 {
      if FinalizeSucceeds(s, calls[0]) {
        NoFinalizeOnceFinalized(Step(s, calls[0]), calls[1..]);
      } else {
        FinalizeAtMostOnce(Step(s, calls[0]), calls[1..]);
      }
    }
  }

  predicate ContributeSucceeds(s: Program.Launchpad, c: Call)
  {
    c.ix.ContributeIx? && Exec(s, c).Ok?
  }

  /** Once the pool is finalised no later call in any history contributes,
      whatever the clock says. */
  lemma {:induction false} NoContributionAfterFinalize(s: Program.Launchpad, calls: seq<Call>)
    requires IsFinalized(s)
    ensures forall i | 0 <= i < |calls| :: !ContributeSucceeds(Run(s, calls[..i]), calls[i])
    decreases |calls|
  {
    if |calls| > 0 {
      StepIsMonotone(s, calls[0]);
      NoContributionAfterFinalize(Step(s, calls[0]), calls[1..]);
      forall i | 0 <= i < |calls|
        ensures !ContributeSucceeds(Run(s, calls[..i]), calls[i])
      {
        if i > 0 {
          assert calls[..i][1..] == calls[1..][..i - 1];
          assert calls[i] == calls[1..][i - 1];
        }
      }
    }
  }

  /** With a clock that does not run backwards, a contribution after a
      successful finalisation fails with `PoolEnded` whenever the window is
      well ordered: the end time is inclusive for contributions and strict
      for finalisation, so no instant satisfies both. */
  lemma ContributeAfterFinalizeEnded(s: Program.Launchpad, signer: Pubkey, t1: int,
                                     contributor: Pubkey, amount: nat, t2: int)
    requires Program.FinalizePool(s, signer, t1).Ok?
    requires t1 <= t2
    requires s.pool.value.startTime <= s.pool.value.endTime
    ensures Program.Contribute(Program.FinalizePool(s, signer, t1).value, contributor, amount, t2)
            == Err(Custom(PoolEnded))
  {
  }

  // ---------------------------------------------------------------------
  // Each contributor is paid at most once.

  predicate ClaimSucceedsFor(s: Program.Launchpad, c: Call, user: Pubkey)
  {
    c.ix.ClaimTokensIx? && c.ix.user == user && Exec(s, c).Ok?
  }

  /** How many calls of the history pay `user`. */
  function ClaimCount(s: Program.Launchpad, calls: seq<Call>, user: Pubkey): nat
    decreases |calls|
  {
    if |calls| == 0 then 0
    else (if ClaimSucceedsFor(s, calls[0], user) then 1 else 0) + ClaimCount(Step(s, calls[0]), calls[1..], user)
  }

  /** `user` has been paid: the pool is finalised and nothing is owed. */
  predicate Settled(s: Program.Launchpad, user: Pubkey)
  {
    IsFinalized(s) && RecordOf(s.contributions, user).tokensDue == 0
  }

  /** A settled contributor stays settled: contributions are closed, and
      claims by others touch other records. */
  lemma SettledIsStable(s: Program.Launchpad, c: Call, user: Pubkey)
    requires Settled(s, user)
    ensures Settled(Step(s, c), user)
    ensures !ClaimSucceedsFor(s, c, user)
  {
  }

  lemma {:induction false} NoClaimOnceSettled(s: Program.Launchpad, calls: seq<Call>, user: Pubkey)
    requires Settled(s, user)
    ensures ClaimCount(s, calls, user) == 0
    decreases |calls|
  {
    if |calls| > 0 {
      SettledIsStable(s, calls[0], user);
      NoClaimOnceSettled(Step(s, calls[0]), calls[1..], user);
    }
  }

  /** Whatever the history, each contributor is paid by at most one claim,
      although `tokens_claimed` is assigned rather than accumulated. */
  lemma {:induction false} ClaimAtMostOnce(s: Program.Launchpad, calls: seq<Call>, user: Pubkey)
    ensures ClaimCount(s, calls, user) <= 1
    decreases |calls|
  {
    if |calls| > 0 {
      if ClaimSucceedsFor(s, calls[0], user) {
        assert Settled(Step(s, calls[0]), user);
        NoClaimOnceSettled(Step(s, calls[0]), calls[1..], user);
      } else {
        ClaimAtMostOnce(Step(s, calls[0]), calls[1..], user);
      }
    }
  }

  /** A second claim straight after a successful one fails with
      `NoTokensToClaim` and moves nothing. */
  lemma SecondClaimFails(s: Program.Launchpad, user: Pubkey, destination: Pubkey, mint: Pubkey,
                         destination2: Pubkey)
    requires Program.ClaimTokens(s, user, destination, mint).Ok?
    ensures Program.ClaimTokens(Program.ClaimTokens(s, user, destination, mint).value, user, destination2, mint)
            == Err(Custom(NoTokensToClaim))
  {
  }

  /** A second finalisation fails with `PoolAlreadyFinalized`, at any time. */
  lemma SecondFinalizeFails(s: Program.Launchpad, signer: Pubkey, t1: int, t2: int)
    requires Program.FinalizePool(s, signer, t1).Ok?
    ensures Program.FinalizePool(Program.FinalizePool(s, signer, t1).value, signer, t2)
            == Err(Custom(PoolAlreadyFinalized))
  {
  }

  // ---------------------------------------------------------------------
  // The program's own test, as a history.

  /** Initialise with ratio 1000 and a 10 SOL cap, fund the vault, contribute
      1 SOL, finalise after the end, and claim: the contributor is owed and
      then paid 1000 token base units, and nothing is owed afterwards. */
  lemma {:induction false} TestScenario()
    ensures
      var payer, mint, vault, payerTokens := 1, 2, 3, 4;
      var start := 1_700_000_000;
      var s0 := Program.Genesis(map[payer := 5 * LAMPORTS_PER_SOL], map[payerTokens := 1_000_000 * LAMPORTS_PER_SOL]);
      var calls := [
        Call(InitializePoolIx(payer, mint, vault, LAMPORTS_PER_SOL / 2, 1000, 10 * LAMPORTS_PER_SOL, start, start + 2), start),
        Call(DepositToVaultIx(payerTokens, 100_000 * LAMPORTS_PER_SOL), start),
        Call(ContributeIx(payer, LAMPORTS_PER_SOL), start),
        Call(FinalizePoolIx(payer), start + 3),
        Call(ClaimTokensIx(payer, payerTokens, mint), start + 3)
      ];
      var t := Run(s0, calls);
      && t.pool.Some? && t.pool.value.finalized && t.pool.value.totalRaised == LAMPORTS_PER_SOL
      && payer in t.contributions
      && t.contributions[payer] == UserContribution(LAMPORTS_PER_SOL, 0, 1000)
      && Balance(t.ledger.tokenAccounts, payerTokens) == 900_000 * LAMPORTS_PER_SOL + 1000
      && t.ledger.vault == 100_000 * LAMPORTS_PER_SOL - 1000
      && t.ledger.escrow == LAMPORTS_PER_SOL
  {
    var payer, mint, vault, payerTokens := 1, 2, 3, 4;
    var start := 1_700_000_000;
    var s0 := Program.Genesis(map[payer := 5 * LAMPORTS_PER_SOL], map[payerTokens := 1_000_000 * LAMPORTS_PER_SOL]);
    var calls := [
      Call(InitializePoolIx(payer, mint, vault, LAMPORTS_PER_SOL / 2, 1000, 10 * LAMPORTS_PER_SOL, start, start + 2), start),
      Call(DepositToVaultIx(payerTokens, 100_000 * LAMPORTS_PER_SOL), start),
      Call(ContributeIx(payer, LAMPORTS_PER_SOL), start),
      Call(FinalizePoolIx(payer), start + 3),
      Call(ClaimTokensIx(payer, payerTokens, mint), start + 3)
    ];
    OneSolAtRatioThousand();
    var s1 := Step(s0, calls[0]);
    var s2 := Step(s1, calls[1]);
    var s3 := Step(s2, calls[2]);
    assert s3.contributions[payer] == UserContribution(LAMPORTS_PER_SOL, 1000, 0);
    var s4 := Step(s3, calls[3]);
    assert s4.pool.value.finalized;
    var s5 := Step(s4, calls[4]);
    assert Run(s0, calls) == Run(s1, calls[1..]);
    assert Run(s1, calls[1..]) == Run(s2, calls[2..]) by { assert calls[1..][1..] == calls[2..]; }
    assert Run(s2, calls[2..]) == Run(s3, calls[3..]) by { assert calls[2..][1..] == calls[3..]; }
    assert Run(s3, calls[3..]) == Run(s4, calls[4..]) by { assert calls[3..][1..] == calls[4..]; }
    assert Run(s4, calls[4..]) == Run(s5, []) by { assert calls[4..][1..] == []; }
  }
}
