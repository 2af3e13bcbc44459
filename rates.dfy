/** The exchange-rate table a bank keeps, and the lookup `Bank.rate`
    performs on it. */
module Rates {
  import opened KotlinInt

  /** A directed exchange rate table: `(from, to)` maps to the integer
      divisor that turns an amount in `from` into an amount in `to`. */
  type RateTable = map<(string, string), Int32>

  /** The two ways a reduction can fail: a pair with no stored rate
      (`IllegalArgumentException("Missing rate: ...")`) and a stored rate of
      zero (`ArithmeticException` on the division). */
  datatype RateError = MissingRate(from: string, to: string) | DivisionByZero

  datatype Result<+T> = Ok(value: T) | Err(error: RateError)

  /** `Bank.rate`: identical currencies convert at 1 whatever is stored;
      any other pair must be in the table. */
  function Rate(rates: RateTable, from: string, to: string): (r: Result<Int32>)
    ensures r.Ok? <==> from == to || (from, to) in rates
    ensures from == to ==> r == Ok(1)
    ensures from != to && r.Ok? ==> r.value == rates[(from, to)]
    ensures r.Err? ==> r.error == MissingRate(from, to)
  {
    if from == to then Ok(1)
    else if (from, to) in rates then Ok(rates[(from, to)])
    else Err(MissingRate(from, to))
  }

  /** `Bank.addRate` on the table: insert or overwrite one entry. */
  function AddRate(rates: RateTable, from: string, to: string, rate: Int32): (r: RateTable)
    ensures r.Keys == rates.Keys + {(from, to)}
    ensures r[(from, to)] == rate
    ensures forall p :: p in rates && p != (from, to) ==> r[p] == rates[p]
  {
    rates[(from, to) := rate]
  }

  /** The identity rate is 1 even when a different `(c, c)` entry is stored. */
  lemma IdentityRateIsOne(rates: RateTable, c: string, stored: Int32)
    ensures Rate(rates, c, c) == Ok(1)
    ensures Rate(AddRate(rates, c, c, stored), c, c) == Ok(1)
  {
  }

  /** For distinct currencies the rate is exactly the stored divisor, and a
      missing entry is a missing-rate error naming the pair. */
  lemma RateOfDistinct(rates: RateTable, from: string, to: string)
    requires from != to
    ensures Rate(rates, from, to).Ok? <==> (from, to) in rates
    ensures (from, to) in rates ==> Rate(rates, from, to) == Ok(rates[(from, to)])
    ensures (from, to) !in rates ==> Rate(rates, from, to) == Err(MissingRate(from, to))
  {
  }

  /** The lookup consults the `(from, to)` entry and nothing else: two
      tables that agree on that one entry give the same rate. In particular
      the inverse `(to, from)` entry is never used. */
  lemma RateReadsOnlyItsPair(rates: RateTable, other: RateTable, from: string, to: string)
    requires (from, to) in rates <==> (from, to) in other
    requires (from, to) in rates ==> rates[(from, to)] == other[(from, to)]
    ensures Rate(rates, from, to) == Rate(other, from, to)
  {
  }

  /** A rate stored one way gives no rate the other way. */
  lemma RatesAreDirected(from: string, to: string, rate: Int32)
    requires from != to
    ensures Rate(AddRate(map[], from, to, rate), from, to) == Ok(rate)
    ensures Rate(AddRate(map[], from, to, rate), to, from) == Err(MissingRate(to, from))
  {
  }

  /** After `addRate(f, t, r)` the rate of `(f, t)` is `r` (1 when
      `f == t`), and the rate of every other pair is what it was. */
  lemma AddRateThenRate(rates: RateTable, f: string, t: string, rate: Int32, from: string, to: string)
    ensures (from, to) == (f, t) ==>
      Rate(AddRate(rates, f, t, rate), from, to) == if f == t then Ok(1) else Ok(rate)
    ensures (from, to) != (f, t) ==>
      Rate(AddRate(rates, f, t, rate), from, to) == Rate(rates, from, to)
  {
  }

  /** A later `addRate` on the same pair overwrites the earlier one. */
  lemma AddRateOverwrites(rates: RateTable, f: string, t: string, r1: Int32, r2: Int32)
    ensures AddRate(AddRate(rates, f, t, r1), f, t, r2) == AddRate(rates, f, t, r2)
  {
  }
}
