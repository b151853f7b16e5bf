/** The on-chain records of the launchpad pool program and its error codes.

    Account keys are opaque identities; the program only ever compares them
    for equality, so they are represented as natural numbers. Every u64/i64
    quantity is an unbounded `nat`/`int` here; where the width matters the
    model says so explicitly (see TokenMath). */
module Types {

  /** Lamports in one SOL, the divisor of the token computation. */
  const LAMPORTS_PER_SOL: nat := 1_000_000_000

  /** Largest value of a Rust u64. */
  const U64_MAX: nat := 0xFFFF_FFFF_FFFF_FFFF

  /** An account address (a 32-byte public key on chain). */
  type Pubkey = nat

  datatype Option<+T> = None | Some(value: T)

  /** The single pool account, derived from the seed "pool". */
  datatype Pool = Pool(
    authority: Pubkey,
    tokenMint: Pubkey,
    tokenVault: Pubkey,
    tokenPrice: nat,   // stored, never read by any instruction
    tokenRatio: nat,   // token base units per SOL contributed
    poolSize: nat,     // cap on lamports raised
    totalRaised: nat,  // lamports raised so far
    startTime: int,
    endTime: int,
    finalized: bool
  )

  /** The per-contributor record, derived from ("contribution", pool, contributor). */
  datatype UserContribution = UserContribution(
    amount: nat,        // lamports contributed, summed over calls
    tokensDue: nat,     // token base units owed and not yet paid
    tokensClaimed: nat  // token base units paid by the last claim
  )

  /** A freshly created record: the account is zero-initialised. */
  const EmptyContribution := UserContribution(0, 0, 0)

  /** The program's own error codes, in declaration order. */
  datatype CustomError =
    | PoolNotStarted
    | PoolEnded
    | PoolAlreadyFinalized
    | PoolFinalized
    | PoolFull
    | PoolNotEnded
    | PoolNotFinalized
    | NoTokensToClaim
    | ContributionTooSmall  // declared, never raised

  /** Why a transaction aborts: a program error, a failed account constraint,
      or a failed transfer in the system or token program. */
  datatype Error =
    | Custom(code: CustomError)
    | AccountNotInitialized  // a required account does not exist yet
    | AccountAlreadyInUse    // `init` on an account that already exists
    | ConstraintHasOne       // `has_one = authority` does not hold
    | ConstraintRaw          // the destination token account has another mint
    | InsufficientLamports   // the contributor cannot pay the transfer
    | InsufficientTokens     // the vault cannot pay the claim

  /** Outcome of one transaction: the new state, or the error that reverted it. */
  datatype Result<+T> = Ok(value: T) | Err(error: Error)
}
