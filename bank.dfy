/** `Bank`: the mutable rate table and the façade that reduces expressions
    against it. */
module Banking {
  import opened KotlinInt
  import opened Rates
  import opened Expressions

  class Bank {
    /** The rates added so far, keyed by `(from, to)`. */
    var rates: RateTable

    /** A new bank knows no rates. */
    constructor ()
      ensures rates == map[]
    {
      rates := map[];
    }

    /** `addRate`: insert or overwrite the divisor for `(from, to)`. The
        rate of that pair is then `rate` (1 when `from == to`), and every
        other pair converts as it did before. */
    method AddRate(from: string, to: string, rate: Int32)
      modifies this
      ensures rates == Rates.AddRate(old(rates), from, to, rate)
      ensures from != to ==> Rates.Rate(rates, from, to) == Ok(rate)
      ensures forall f, t :: (f, t) != (from, to) ==> Rates.Rate(rates, f, t) == Rates.Rate(old(rates), f, t)
    {
      rates := rates[(from, to) := rate];
    }

    /** `rate`: 1 for identical currencies, otherwise the stored divisor,
        otherwise a missing-rate error. Reads the table and changes
        nothing. */
    method Rate(from: string, to: string) returns (r: Result<Int32>)
      ensures r == Rates.Rate(rates, from, to)
      ensures from == to ==> r == Ok(1)
      ensures from != to ==> (r.Ok? <==> (from, to) in rates)
    {
      r := Rates.Rate(rates, from, to);
    }

    /** `reduce`: delegate to the expression's own reduction against this
        bank's rates. */
    method Reduce(source: Expr, to: string) returns (r: Result<MoneyValue>)
      ensures r == Expressions.Reduce(source, rates, to)
      ensures r.Ok? ==> r.value.currency == to
    {
      r := Expressions.Reduce(source, rates, to);
    }
  }
}
