# Launchpad pool program — a Dafny model

This project models the Solana (Anchor) launchpad program: one funding pool,
created once by its authority, that accepts SOL contributions inside a time
window up to a cap, owes each contributor tokens at a fixed ratio, is
finalised by its authority strictly after the window ends, and then lets each
contributor claim the tokens owed from the pool's token vault.

The model is functional. A `Launchpad` state holds the pool account (absent
until initialised), one `UserContribution` record per contributor (the
per-(pool, contributor) derived account, as a map keyed by contributor) and a
`Ledger` of the balances the program's transfers move. Each instruction is a
pure function returning the next state or the error that reverts the
transaction, so every instruction is all-or-nothing. The clock is a
parameter. Histories of calls are folded by `Traces.Run`; a failing call
leaves the state as it was.

Files:

- `types.dfy` (`Types`): the `Pool` and `UserContribution` records, the
  program's `CustomError` codes, and the account/transfer errors.
- `token_math.dfy` (`TokenMath`): lamports to tokens, floor division by
  10^9, and the `as u64` cast of the program.
- `accounting.dfy` (`Accounting`): the sum of contributed amounts over all
  records.
- `program.dfy` (`Program`): `InitializePool`, `Contribute`, `ClaimTokens`,
  `FinalizePool`, and the outside funding of the vault.
- `invariants.dfy` (`Invariants`): the state invariant (cap, conservation,
  token entitlement) and its preservation by every transition.
- `traces.dfy` (`Traces`): histories, at-most-once finalisation and claim,
  no contribution after finalisation, and the program's own test as a
  history.

Design choices, stated in the program's terms:

- The pool account has the fixed seed "pool", so the program holds at most
  one pool; a second `initialize_pool` fails because `init` finds the
  account in use.
- Anchor account checks run before the handler body. They are modelled as
  errors that come first: a missing pool or contribution account gives
  `AccountNotInitialized`, a finalising signer other than the authority gives
  `ConstraintHasOne`, and a destination token account of another mint gives
  `ConstraintRaw`.
- The two transfers become ledger deltas. The system transfer fails when the
  contributor holds fewer lamports than `amount`. The token transfer fails
  when the vault holds fewer tokens than owed. The program checks neither
  balance itself. A claim whose destination is the vault itself passes the
  mint check; the token program then treats it as a transfer to itself,
  which checks the balance and moves nothing, while the record is still
  marked paid.
- Repeated contributions merge into the one record with `+=`. The claim
  assigns `tokens_claimed` rather than adding to it.
- The repository's EVM launchpad contract, known here only through its tests
  and ABI, has a richer lifecycle: numbered projects (smart-contract/test/test.js:42),
  a goal that must be positive (test.js:46-61), minimum and maximum
  investments (test.js:153-166), a project that deactivates when its goal is
  reached (test.js:82), and owner withdrawal (test.js:198). This Solana
  program implements none of these, and the model follows the program. There is
  no minimum: `ContributionTooSmall` is never raised, and zero is accepted.
  A full pool is not closed; only over-cap contributions are refused. No
  instruction withdraws lamports, so contributions stay in the pool account
  (`Traces.RunIsMonotone`).

## Model

| member | source | states |
|---|---|---|
| Program.InitializePool | solana-contracts/contract/programs/contract/src/lib.rs:12-31 | succeeds exactly when no pool exists (else `AccountAlreadyInUse`); stores authority, mint, vault, price, ratio, size, start and end as given, with nothing raised and not finalised; touches no record or balance |
| Program.AdmissionError | solana-contracts/contract/programs/contract/src/lib.rs:39-47 | the first failing check, in order: before start `PoolNotStarted`, after the (inclusive) end `PoolEnded`, finalised `PoolFinalized`, raised plus amount over the cap `PoolFull`; none exactly when the call is inside the window, open, and within the cap |
| Program.Contribute | solana-contracts/contract/programs/contract/src/lib.rs:34-75 | missing pool, failed admission check, or a contributor short of lamports each give their error; success exactly when the pool exists, every admission check passes and the contributor can pay; on success only `total_raised` moves, by `amount`; the contributor's record (zero if new) gains `amount` and the floor of amount*ratio/10^9 tokens owed; every other record and wallet is unchanged; the lamports move from the contributor into the pool; `ContributionTooSmall` never occurs |
| Program.ClaimTokens | solana-contracts/contract/programs/contract/src/lib.rs:77-107 | missing pool or record `AccountNotInitialized`, wrong mint `ConstraintRaw`, not finalised `PoolNotFinalized`, nothing owed `NoTokensToClaim`, vault short `InsufficientTokens`; success exactly when none applies; on success owed becomes 0, claimed is set to the amount paid, the pool and amounts are unchanged, and the vault pays everything owed into the destination, except that a destination which is the vault itself leaves every balance as it was |
| Program.FinalizePool | solana-contracts/contract/programs/contract/src/lib.rs:109-118 | missing pool `AccountNotInitialized`, signer not the authority `ConstraintHasOne`, already finalised `PoolAlreadyFinalized`, not strictly after the end `PoolNotEnded`; success exactly otherwise, and then the state differs only in `finalized` becoming true: no funds move |
| Program.DepositToVault | solana-contracts/contract/tests/contract.ts:111-120 | the outside token transfer that funds the vault: possible once the pool (and vault) exist and only when the source account holds at least the amount (else `InsufficientTokens`); the source is debited and the vault credited by exactly the amount, a source that is the vault itself moves nothing, and the pool, records, lamports and other token accounts are unchanged |
| TokenMath.TokensFor | solana-contracts/contract/programs/contract/src/lib.rs:50-54 | tokens owed are the floor of amount*ratio / LAMPORTS_PER_SOL: t*10^9 <= amount*ratio < (t+1)*10^9 |
| TokenMath.TokensSuperadditive | solana-contracts/contract/programs/contract/src/lib.rs:50-72 | a contribution split into two calls is owed at most what one call would give, and at most one token less |
| TokenMath.TokensSuperadditiveMany | solana-contracts/contract/programs/contract/src/lib.rs:50-72 | a contribution split into any number of calls is owed at most what one call would give, and at most one token less for each call after the first |
| TokenMath.TokensMonotone | solana-contracts/contract/programs/contract/src/lib.rs:50-54 | more lamports never buy fewer tokens |
| TokenMath.OneSolAtRatioThousand | solana-contracts/contract/tests/contract.ts:22-25 | 1 SOL at ratio 1000 is owed 1000 token base units |
| TokenMath.TokensAsWritten | solana-contracts/contract/programs/contract/src/lib.rs:50-54 | the quotient after the `as u64` cast: below 2^64, never above the true quotient, and differing from it by a multiple of 2^64 |
| TokenMath.AsWrittenAgreesInRange | solana-contracts/contract/programs/contract/src/lib.rs:50-54 | when the quotient fits in u64 the cast changes nothing |
| TokenMath.AsWrittenTruncates | solana-contracts/contract/programs/contract/src/lib.rs:50-54 | 20 SOL at ratio 10^18 is owed 2*10^19 but the cast records 1_553_255_926_290_448_384 |
| Accounting.TotalUpdate | solana-contracts/contract/programs/contract/src/lib.rs:67-72 | replacing or creating one record changes the sum of amounts by exactly that record's change |
| Accounting.RecordWithinTotal | solana-contracts/contract/programs/contract/src/lib.rs:68-71 | one contributor's amount never exceeds the sum over all contributors |
| Invariants.InitializePreservesValid | solana-contracts/contract/programs/contract/src/lib.rs:20-31 | initialisation establishes the invariant: nothing raised, no records, no lamports held |
| Invariants.ContributePreservesValid | solana-contracts/contract/programs/contract/src/lib.rs:39-72 | a contribution keeps raised <= cap, raised == sum of record amounts == lamports received, and every record's owed plus claimed within the floor of its amount at the ratio |
| Invariants.ClaimPreservesValid | solana-contracts/contract/programs/contract/src/lib.rs:80-104 | a claim keeps the invariant; in particular the tokens paid never exceed the floor of the contributor's amount |
| Invariants.FinalizePreservesValid | solana-contracts/contract/programs/contract/src/lib.rs:109-118 | finalisation keeps the invariant |
| Invariants.ContributeStaysInU64 | solana-contracts/contract/programs/contract/src/lib.rs:44-71 | with a u64 cap, once the cap check passes the new total and the contributor's new amount fit in u64 |
| Invariants.SingleContributionExact | solana-contracts/contract/programs/contract/src/lib.rs:50-72 | a first contribution starts from the zero record `init_if_needed` creates (lib.rs:153-160): the record then holds exactly the lamports paid, is owed exactly the floor of amount*ratio/10^9, and has nothing claimed |
| Invariants.ContributeIgnoresPrice | solana-contracts/contract/programs/contract/src/lib.rs:24 | the stored token price changes no decision and no amount of a contribution |
| Invariants.ZeroContributionAccepted | solana-contracts/contract/programs/contract/src/lib.rs:43-47 | no minimum applies: zero lamports inside the window of an open pool succeed and create the record |
| Invariants.InvertedWindowNeverOpens | solana-contracts/contract/programs/contract/src/lib.rs:39-40 | a pool initialised with start after end never accepts a contribution |
| Traces.FailedCallInvisible | solana-contracts/contract/programs/contract/src/lib.rs:12-118 | every instruction is all-or-nothing: a call that fails, at any position of a history, can be removed from it without changing the final pool, records or balances |
| Traces.RunPreservesValid | solana-contracts/contract/programs/contract/src/lib.rs:12-118 | every history of instructions keeps the invariant |
| Traces.ReachableStatesAreSound | solana-contracts/contract/programs/contract/src/lib.rs:12-118 | after any history from before initialisation, raised <= cap, raised equals the sum of all contributors' amounts and the lamports received, and no one is owed or paid more than the floor of their amount |
| Traces.StepIsMonotone | solana-contracts/contract/programs/contract/src/lib.rs:12-118 | no transaction removes the pool, unfinalises it, changes its configuration, lowers the amount raised, deletes a record, or takes lamports out of the pool |
| Traces.RunIsMonotone | solana-contracts/contract/programs/contract/src/lib.rs:109-118 | over any history finalisation is permanent, raised and the lamports held only grow, records are never deleted: there is no withdrawal |
| Traces.FinalizeAtMostOnce | solana-contracts/contract/programs/contract/src/lib.rs:110-116 | in any history at most one call finalises the pool, none if it is already finalised |
| Traces.NoContributionAfterFinalize | solana-contracts/contract/programs/contract/src/lib.rs:39-41 | after finalisation no later call contributes, whatever the clock |
| Traces.ContributeAfterFinalizeEnded | solana-contracts/contract/programs/contract/src/lib.rs:40-41 | with a clock that does not run backwards and start <= end, a contribution after finalisation fails with `PoolEnded` |
| Traces.SettledIsStable | solana-contracts/contract/programs/contract/src/lib.rs:80-104 | once the pool is finalised and a contributor is owed nothing, no call changes that or pays them |
| Traces.ClaimAtMostOnce | solana-contracts/contract/programs/contract/src/lib.rs:77-107 | in any history each contributor is paid by at most one claim |
| Traces.SecondClaimFails | solana-contracts/contract/programs/contract/src/lib.rs:80-104 | a claim right after a successful claim fails with `NoTokensToClaim` |
| Traces.SecondFinalizeFails | solana-contracts/contract/programs/contract/src/lib.rs:110-116 | a second finalisation fails with `PoolAlreadyFinalized` at any time |
| Traces.TestScenario | solana-contracts/contract/tests/contract.ts:29-226 | the test's history: the authority's token account starts with 1_000_000*10^9 minted, the pool is initialised (ratio 1000, cap 10 SOL), 100_000*10^9 tokens move from that account into the vault, 1 SOL is contributed, the pool is finalised after the end, and the claim pays into that same account: the record ends as amount 1 SOL, owed 0, claimed 1000, the account holds 900_000*10^9 + 1000 and the vault 100_000*10^9 - 1000 |

## Left out

- Cross-program transfers are ledger deltas only. Rent and fees are not modelled: no rent for creating the pool, vault or contribution accounts, and no transaction fees.
- PDA derivation, bumps, signer seeds, the vault's seed/mint/authority constraints, account sizes (`LEN`) and deserialisation are not modelled. The vault is assumed to be the pool's own. A contribution record belongs to the signer it is keyed by.
- The destination token account of a claim is any key. Its existence and owner are not modelled; the program checks only its mint.
- `Clock::get` is the parameter `now`; its failure is not modelled.
- Program.DepositToVault: the token program's check that the source account's owner signed the transfer, and the mint of the source, are not modelled; minting itself happens before the history starts (`Program.Genesis`).
- Program.Contribute: the cap check `total_raised + amount` is computed without u64 bounds. An input that overflows there reports `PoolFull`. The program instead aborts (overflow checks on) or wraps (off), and the build profile is not part of this model. `Invariants.ContributeStaysInU64` shows that the later additions to the total and to the contributor's amount cannot overflow.
- Program.Contribute: `tokens_due` is accumulated without a u64 bound, so an overflow of that addition is not modelled.
- Program.Contribute: tokens owed use the untruncated quotient `TokenMath.TokensFor`, not the `as u64` cast (see Findings).
- The EVM launchpad contract is not part of this model. Only its ABI and tests exist as text, and they disagree on the withdrawal name and on argument order.
- The web frontend, IDL, account-size helpers and deployment scripts are not modelled. They are user interface and network glue.

## Findings

| source | as written | input that shows it | evidently intended | confidence | as-written member | corrected member |
|---|---|---|---|---|---|---|
| solana-contracts/contract/programs/contract/src/lib.rs:50-54 | the u128 quotient amount*ratio/10^9 is cast with `as u64`, which silently keeps the low 64 bits, after checked multiplication and division that were meant to fail on overflow | amount 20 SOL (2*10^10 lamports), ratio 10^18: owed 2*10^19, recorded 1_553_255_926_290_448_384 | tokens owed are the full floor of amount*ratio/10^9 (or the call aborts), never a wrapped value | medium; not executed | TokenMath.TokensAsWritten, TokenMath.AsWrittenTruncates | TokenMath.TokensFor |
