/** The integer arithmetic that turns lamports into token base units.

    The program computes `amount * token_ratio / LAMPORTS_PER_SOL` in u128
    (which cannot overflow or divide by zero) and then casts the quotient
    with `as u64`, which keeps only the low 64 bits. `TokensFor` is the
    quotient itself, the value the rest of the model uses; `TokensAsWritten`
    keeps the cast, and the lemmas below show where the two part ways. */
module TokenMath {
  import opened Types

  const U64_MODULUS: nat := U64_MAX + 1

  /** Token base units owed for `amount` lamports at `ratio` tokens per SOL:
      the largest `t` with `t` SOL-units of tokens not exceeding the product. */
  function TokensFor(amount: nat, ratio: nat): (t: nat)
    ensures t * LAMPORTS_PER_SOL <= amount * ratio < (t + 1) * LAMPORTS_PER_SOL
  {
    amount * ratio / LAMPORTS_PER_SOL
  }

  /** Paying a sum of lamports in two calls never yields more tokens than
      paying it at once: the floors of the parts add up to at most the floor
      of the whole, and fall short of it by at most one. */
  lemma {:induction false} TokensSuperadditive(a: nat, b: nat, ratio: nat)
    ensures TokensFor(a, ratio) + TokensFor(b, ratio) <= TokensFor(a + b, ratio)
    ensures TokensFor(a + b, ratio) <= TokensFor(a, ratio) + TokensFor(b, ratio) + 1
  {
    var ta, tb, tab := TokensFor(a, ratio), TokensFor(b, ratio), TokensFor(a + b, ratio);
    assert (a + b) * ratio == a * ratio + b * ratio;
    assert (ta + tb) * LAMPORTS_PER_SOL <= (a + b) * ratio;
    assert (a + b) * ratio < (ta + tb + 2) * LAMPORTS_PER_SOL;
  }

  /** The lamports of several contributions, added up. */
  function SumOf(parts: seq<nat>): nat
  {
    if |parts| == 0 then 0 else parts[0] + SumOf(parts[1..])
  }

  /** The tokens the contributions are owed one by one, added up. */
  function TokensForEach(parts: seq<nat>, ratio: nat): nat
  {
    if |parts| == 0 then 0 else TokensFor(parts[0], ratio) + TokensForEach(parts[1..], ratio)
  }

  /** Paying a sum in any number of calls: never more tokens than paying it at
      once, and at most one token less for every call after the first. */
  lemma {:induction false} TokensSuperadditiveMany(parts: seq<nat>, ratio: nat)
    ensures TokensForEach(parts, ratio) <= TokensFor(SumOf(parts), ratio)
    ensures TokensFor(SumOf(parts), ratio) <= TokensForEach(parts, ratio) + (if |parts| == 0 then 0 else |parts| - 1)
  {
    if |parts| > 0 {
      TokensSuperadditiveMany(parts[1..], ratio);
      TokensSuperadditive(parts[0], SumOf(parts[1..]), ratio);
    }
  }

  /** More lamports never buy fewer tokens. */
  lemma {:induction false} TokensMonotone(a: nat, b: nat, ratio: nat)
    requires a <= b
    ensures TokensFor(a, ratio) <= TokensFor(b, ratio)
  {
    TokensSuperadditive(a, b - a, ratio);
  }

  /** One SOL at a ratio of 1000 is owed 1000 token base units, as in the
      program's own test. */
  lemma OneSolAtRatioThousand()
    ensures TokensFor(LAMPORTS_PER_SOL, 1000) == 1000
  {
  }

  /** The computation as the program writes it: the u128 quotient cast to u64
      with `as`, which drops the high bits. */
  function TokensAsWritten(amount: nat, ratio: nat): (t: nat)
    requires amount <= U64_MAX && ratio <= U64_MAX
    ensures t <= U64_MAX
    ensures t <= TokensFor(amount, ratio)
    ensures (TokensFor(amount, ratio) - t) % U64_MODULUS == 0
  {
    TokensFor(amount, ratio) % U64_MODULUS
  }

  /** Below 2^64 the cast is harmless and both computations agree. */
  lemma AsWrittenAgreesInRange(amount: nat, ratio: nat)
    requires amount <= U64_MAX && ratio <= U64_MAX
    requires TokensFor(amount, ratio) <= U64_MAX
    ensures TokensAsWritten(amount, ratio) == TokensFor(amount, ratio)
  {
  }

  /** 20 SOL at 10^18 base units per SOL (one billion whole tokens of nine
      decimals per SOL) is owed 2 * 10^19 base units; the cast records only
      1_553_255_926_290_448_384 of them. */
  lemma AsWrittenTruncates()
    ensures TokensFor(20 * LAMPORTS_PER_SOL, 1_000_000_000_000_000_000) == 20_000_000_000_000_000_000
    ensures TokensAsWritten(20 * LAMPORTS_PER_SOL, 1_000_000_000_000_000_000) == 1_553_255_926_290_448_384
    ensures TokensAsWritten(20 * LAMPORTS_PER_SOL, 1_000_000_000_000_000_000)
            < TokensFor(20 * LAMPORTS_PER_SOL, 1_000_000_000_000_000_000)
  {
  }
}
