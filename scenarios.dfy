/** Worked examples, each stated as a client of the model: a fresh `Bank` is
    configured and asked to reduce an expression, and the postcondition fixes
    the outcome. Some restate the unit tests of `DollarTest.kt`; the rest cover
    overflow, nested sums, missing and zero rates, overwritten rates and
    negative amounts. */
module Scenarios {
  import opened KotlinInt
  import opened Rates
  import opened Expressions
  import opened Banking

  /** `times` scales dollars and francs alike. */
  lemma Multiplication()
    ensures Times(Dollar(5), 2) == Dollar(10) && Times(Dollar(5), 3) == Dollar(15)
    ensures Times(Franc(5), 2) == Franc(10) && Times(Franc(5), 3) == Franc(15)
  {
  }

  /** A product that leaves the 32-bit range wraps around. */
  lemma MultiplicationOverflows()
    ensures Times(Dollar(MAX), 2) == Dollar(-2)
  {
  }

  /** Equality compares amount and currency. */
  lemma Equality()
    ensures Equals(Dollar(5), Dollar(5))
    ensures !Equals(Dollar(5), Dollar(6))
    ensures !Equals(Franc(5), Dollar(5))
  {
  }

  lemma FactoryCurrencies(a: Int32, b: Int32)
    ensures Dollar(a).currency == "USD" && Dollar(a).amount == a
    ensures Franc(b).currency == "CHF" && Franc(b).amount == b
    ensures !Equals(Dollar(a), Franc(b))
  {
  }

  /** `five.plus(five)` is a `Sum` of the two operands, not `dollar(10)`. */
  lemma PlusReturnsSum()
    ensures Plus(Dollar(5), Dollar(5)) == Sum(Dollar(5), Dollar(5))
    ensures Plus(Dollar(5), Dollar(5)) != Dollar(10)
  {
  }

  method IdentityRate() returns (r: Result<Int32>)
    ensures r == Ok(1)
  {
    var bank := new Bank();
    r := bank.Rate("USD", "USD");
  }

  method SimpleAddition() returns (r: Result<MoneyValue>)
    ensures r == Ok(Dollar(10))
  {
    var bank := new Bank();
    assert Expressions.Reduce(Dollar(5), bank.rates, "USD") == Ok(Dollar(5));
    r := bank.Reduce(Plus(Dollar(5), Dollar(5)), "USD");
  }

  method ReduceSumOfDollars() returns (r: Result<MoneyValue>)
    ensures r == Ok(Dollar(7))
  {
    var bank := new Bank();
    r := bank.Reduce(Sum(Dollar(3), Dollar(4)), "USD");
  }

  method ReduceMoneyInItsCurrency() returns (r: Result<MoneyValue>)
    ensures r == Ok(Dollar(1))
  {
    var bank := new Bank();
    r := bank.Reduce(Dollar(1), "USD");
  }

  method ReduceMoneyDifferentCurrency() returns (r: Result<MoneyValue>)
    ensures r == Ok(Dollar(1))
  {
    var bank := new Bank();
    bank.AddRate("CHF", "USD", 2);
    r := bank.Reduce(Franc(2), "USD");
  }

  method MixedAddition() returns (r: Result<MoneyValue>)
    ensures r == Ok(Dollar(10))
  {
    var bank := new Bank();
    bank.AddRate("CHF", "USD", 2);
    r := bank.Reduce(Plus(Dollar(5), Franc(10)), "USD");
  }

  method SumPlusMoney() returns (r: Result<MoneyValue>)
    ensures r == Ok(Dollar(15))
  {
    var bank := new Bank();
    bank.AddRate("CHF", "USD", 2);
    assert Expressions.Reduce(Sum(Dollar(5), Franc(10)), bank.rates, "USD") == Ok(Dollar(10));
    r := bank.Reduce(Plus(Sum(Dollar(5), Franc(10)), Dollar(5)), "USD");
  }

  method SumTimes() returns (r: Result<MoneyValue>)
    ensures r == Ok(Dollar(20))
  {
    var bank := new Bank();
    bank.AddRate("CHF", "USD", 2);
    r := bank.Reduce(Times(Sum(Dollar(5), Franc(10)), 2), "USD");
  }

  /** Scaling a nested sum doubles all three leaves: (5 + 10/2 + 5) * 2. */
  method NestedSumTimes() returns (r: Result<MoneyValue>)
    ensures r == Ok(Dollar(30))
  {
    var bank := new Bank();
    bank.AddRate("CHF", "USD", 2);
    assert Times(Plus(Sum(Dollar(5), Franc(10)), Dollar(5)), 2) == Sum(Sum(Dollar(10), Franc(20)), Dollar(10));
    assert Expressions.Reduce(Sum(Dollar(10), Franc(20)), bank.rates, "USD") == Ok(Dollar(20));
    r := bank.Reduce(Times(Plus(Sum(Dollar(5), Franc(10)), Dollar(5)), 2), "USD");
  }

  /** With no CHF to USD rate, reducing francs to dollars fails. */
  method MissingRate() returns (r: Result<MoneyValue>)
    ensures r == Err(Rates.MissingRate("CHF", "USD"))
  {
    var bank := new Bank();
    r := bank.Reduce(Franc(5), "USD");
  }

  /** A CHF to USD rate gives no USD to CHF rate. */
  method RateIsDirected() returns (r: Result<MoneyValue>)
    ensures r == Err(Rates.MissingRate("USD", "CHF"))
  {
    var bank := new Bank();
    bank.AddRate("CHF", "USD", 2);
    r := bank.Reduce(Dollar(1), "CHF");
  }

  /** A missing rate in the addend aborts the whole sum. */
  method MissingRateInAddend() returns (r: Result<MoneyValue>)
    ensures r == Err(Rates.MissingRate("CHF", "USD"))
  {
    var bank := new Bank();
    r := bank.Reduce(Plus(Dollar(5), Franc(10)), "USD");
  }

  /** A zero rate is accepted and fails at reduction time. */
  method ZeroRate() returns (r: Result<MoneyValue>)
    ensures r == Err(DivisionByZero)
  {
    var bank := new Bank();
    bank.AddRate("CHF", "USD", 0);
    r := bank.Reduce(Franc(10), "USD");
  }

  /** A second `addRate` on a pair replaces the first. */
  method RateOverwritten() returns (r: Result<MoneyValue>)
    ensures r == Ok(Dollar(2))
  {
    var bank := new Bank();
    bank.AddRate("CHF", "USD", 2);
    bank.AddRate("CHF", "USD", 5);
    r := bank.Reduce(Franc(10), "USD");
  }

  /** Division truncates toward zero: -3 francs at rate 2 are -1 dollar. */
  method NegativeAmountTruncates() returns (r: Result<MoneyValue>)
    ensures r == Ok(Dollar(-1))
  {
    var bank := new Bank();
    bank.AddRate("CHF", "USD", 2);
    r := bank.Reduce(Franc(-3), "USD");
  }
}
