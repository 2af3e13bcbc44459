# Currency expressions: a Dafny model

This project models the currency-expression algebra of `Dollar.kt`. Money
values in different currencies are combined into a deferred expression tree
(`plus`, `times`). A `Bank` then reduces the tree to a single `Money` in a
target currency, using integer exchange-rate divisors it stores per directed
currency pair.

Modules: one for Kotlin's `Int` semantics, one per component of `Dollar.kt`,
and one for worked examples:

- `KotlinInt` (`kotlin_int.dfy`): Kotlin's 32-bit `Int`. `+` and `*` wrap
  around (`Wrap`), and `/` truncates toward zero (`Quot`, `Div`). This
  module also holds the modular-arithmetic facts the rest of the model needs.
- `Rates` (`rates.dfy`): the rate table `map<(string, string), Int32>` and
  the lookup `Bank.rate` performs on it (`Rate`). It also holds the pure
  form of `addRate` (`AddRate`) and the errors a reduction can raise
  (`RateError`, carried in a `Result`).
- `Expressions` (`expressions.dfy`): the `Expression` variants as the
  datatype `Expr` (`Money` and `Sum`), and `plus`, `times`, `reduce`,
  `equals` and the `dollar`/`franc` factories as functions. `reduce` takes
  the bank's rate table as a parameter. The lemmas here relate `reduce` to an
  independent reference: the left-to-right reduction of the tree's list of
  leaves (`Leaves`, `ReduceLeaves`).
- `Banking` (`bank.dfy`): the class `Bank`. Its mutable field `rates` is
  updated in place by `AddRate`. `Rate` and `Reduce` only read the bank.
- `Scenarios` (`scenarios.dfy`): worked examples, stated as client methods
  on a fresh `Bank` and as lemmas. The rows below that cite `DollarTest.kt`
  restate its unit tests; the others are further examples of behaviour the
  code fixes: overflow, nested sums, missing and
  zero rates, overwritten rates and negative amounts.

No I/O, clock or randomness occurs in the core. The two exceptions are
modelled as error values. `IllegalArgumentException("Missing rate: ...")`
becomes `MissingRate(from, to)`, and the `ArithmeticException` of a zero
divisor becomes `DivisionByZero`. A `Sum` reduces its augend before its
addend, so the augend's error wins, as Kotlin's evaluation order dictates.

## Model

| member | source | states |
|---|---|---|
| `KotlinInt.Wrap` | src/main/kotlin/com/github/zavier/Dollar.kt:52 | the 32-bit result is congruent to the exact result modulo 2^32 and equals it when it fits in `Int` |
| `KotlinInt.Quot` | src/main/kotlin/com/github/zavier/Dollar.kt:57 | truncating division on unbounded integers; its rounding toward zero is stated by `KotlinInt.QuotTruncates` and its agreement with Euclidean division on nonnegative operands by `KotlinInt.QuotOfNonnegatives` |
| `KotlinInt.Div` | src/main/kotlin/com/github/zavier/Dollar.kt:57 | Kotlin `Int / Int`: truncating division, except that `MIN / -1` wraps to `MIN` |
| `KotlinInt.QuotTruncates` | src/main/kotlin/com/github/zavier/Dollar.kt:57 | the remainder is smaller than the divisor in magnitude and has the dividend's sign (rounding toward zero) |
| `KotlinInt.QuotOfNonnegatives` | src/main/kotlin/com/github/zavier/Dollar.kt:57 | for a nonnegative amount and a positive rate, truncating division is ordinary division |
| `KotlinInt.WrapAdd` | src/main/kotlin/com/github/zavier/Dollar.kt:33 | wrapping after every 32-bit addition is the same as wrapping once at the end |
| `KotlinInt.WrapMul` | src/main/kotlin/com/github/zavier/Dollar.kt:52 | wrapping after every 32-bit multiplication is the same as wrapping once at the end |
| `KotlinInt.WrapMulAssociates` | src/main/kotlin/com/github/zavier/Dollar.kt:52 | 32-bit multiplication is associative |
| `KotlinInt.WrapDistributes` | src/main/kotlin/com/github/zavier/Dollar.kt:33 | 32-bit multiplication distributes over 32-bit addition |
| `Rates.AddRate` | src/main/kotlin/com/github/zavier/Dollar.kt:26-28 | the table gains the key `(from, to)` mapped to `rate`; every other entry is unchanged |
| `Rates.Rate` | src/main/kotlin/com/github/zavier/Dollar.kt:19-24 | the lookup succeeds iff the currencies are equal or the pair is stored; it is 1 for equal currencies, otherwise the stored divisor, and a failure is `MissingRate(from, to)` |
| `Rates.IdentityRateIsOne` | src/main/kotlin/com/github/zavier/Dollar.kt:19-22 | the rate of `(c, c)` is 1, even after a different `(c, c)` entry was stored |
| `Rates.RateOfDistinct` | src/main/kotlin/com/github/zavier/Dollar.kt:23-24 | for distinct currencies the rate succeeds iff the pair is stored; it is then the stored divisor, and otherwise `MissingRate(from, to)` |
| `Rates.RateReadsOnlyItsPair` | src/main/kotlin/com/github/zavier/Dollar.kt:23-24 | two tables that agree on the `(from, to)` entry give the same rate; no other entry, such as the inverse, is consulted |
| `Rates.RatesAreDirected` | src/main/kotlin/com/github/zavier/Dollar.kt:23-27 | in an otherwise empty table, storing `(from, to)` makes that rate available and leaves `(to, from)` missing |
| `Rates.AddRateThenRate` | src/main/kotlin/com/github/zavier/Dollar.kt:19-28 | after `addRate(f, t, r)`, `rate(f, t)` is `r` (or 1 when `f == t`), and every other pair's rate is what it was |
| `Rates.AddRateOverwrites` | src/main/kotlin/com/github/zavier/Dollar.kt:26-28 | a second `addRate` on the same pair overwrites the first |
| `Expressions.Expr` | src/main/kotlin/com/github/zavier/Dollar.kt:3-10 | the `Expression` interface closed to its two implementations, `Sum` (line 31) and `Money` (line 45): a `Money` leaf holding a currency and a 32-bit amount, or a `Sum` of an augend and an addend |
| `Expressions.Equals` | src/main/kotlin/com/github/zavier/Dollar.kt:71-78 | a `Money` equals another expression iff that expression is a `Money` with the same amount and currency, i.e. equality is structural |
| `Expressions.Dollar` | src/main/kotlin/com/github/zavier/Dollar.kt:61-63 | a `Money` in USD with the given amount; `Scenarios.FactoryCurrencies` proves it never equals a franc |
| `Expressions.Franc` | src/main/kotlin/com/github/zavier/Dollar.kt:65-67 | a `Money` in CHF with the given amount |
| `Expressions.Reduce` | src/main/kotlin/com/github/zavier/Dollar.kt:32-34 | a successful reduction is a `Money` in the target currency |
| `Expressions.ReduceMoney` | src/main/kotlin/com/github/zavier/Dollar.kt:55-58 | a `Money` reduces iff its rate to the target exists and is nonzero; the result is in the target currency, and a missing rate is passed on as the error |
| `Expressions.AddReduced` | src/main/kotlin/com/github/zavier/Dollar.kt:33 | the sum succeeds iff both reductions do, is in the target currency, and fails with one of the two children's errors |
| `Expressions.Plus` | src/main/kotlin/com/github/zavier/Dollar.kt:36-49 | `plus` on either variant (lines 36-38 and 47-49) is a `Sum` with the receiver as augend and the argument as addend, and its leaves are the receiver's followed by the argument's; nothing is evaluated |
| `Expressions.Times` | src/main/kotlin/com/github/zavier/Dollar.kt:40-53 | scaling (lines 40-42 and 51-53) keeps the variant of the expression and the currency of a `Money`; `TimesScalesLeaves`, `TimesPreservesShape` and `TimesTimes` state the rest |
| `Expressions.TimesMoney` | src/main/kotlin/com/github/zavier/Dollar.kt:51-53 | scaling a `Money` keeps its currency and multiplies its amount (32-bit), which is exactly `a * k` when that fits |
| `Expressions.TimesPreservesShape` | src/main/kotlin/com/github/zavier/Dollar.kt:40-42 | scaling keeps the tree of `Sum` nodes |
| `Expressions.TimesScalesLeaves` | src/main/kotlin/com/github/zavier/Dollar.kt:40-53 | scaling keeps the number, order and currencies of the leaves and multiplies every leaf's amount by `k` |
| `Expressions.TimesOne` | src/main/kotlin/com/github/zavier/Dollar.kt:40-53 | scaling by 1 returns the expression unchanged |
| `Expressions.TimesTimes` | src/main/kotlin/com/github/zavier/Dollar.kt:40-53 | scaling by `j` and then by `k` is scaling once by the 32-bit product `j * k` |
| `Expressions.ReduceSameCurrency` | src/main/kotlin/com/github/zavier/Dollar.kt:55-58 | a `Money` already in the target currency reduces to an equal `Money`, for any rate table |
| `Expressions.ReduceMoneyConverts` | src/main/kotlin/com/github/zavier/Dollar.kt:55-58 | for another currency: a missing rate is `MissingRate`, a zero rate is `DivisionByZero`, and otherwise the result is `Money(to, amount / rate)` with Kotlin division (ordinary division for nonnegative amounts and positive rates) |
| `Expressions.ReduceSum` | src/main/kotlin/com/github/zavier/Dollar.kt:32-34 | a `Sum` reduces iff both children do |
| `Expressions.ReduceSumValue` | src/main/kotlin/com/github/zavier/Dollar.kt:32-34 | when both children reduce, the `Sum` reduces to the 32-bit sum of their amounts in the target currency |
| `Expressions.ReduceSumFirstError` | src/main/kotlin/com/github/zavier/Dollar.kt:32-34 | a failing augend's error is the `Sum`'s; otherwise a failing addend's error is |
| `Expressions.ReduceIsReduceLeaves` | src/main/kotlin/com/github/zavier/Dollar.kt:32-58 | reducing a tree equals reducing its leaves left to right: the first failing leaf's error, otherwise the wrapped sum of the converted leaf amounts |
| `Expressions.ReduceOkIffEveryLeafConverts` | src/main/kotlin/com/github/zavier/Dollar.kt:32-58 | a reduction succeeds iff every leaf has a stored nonzero (or identity) rate to the target, so one missing rate anywhere fails the whole tree |
| `Expressions.ReduceTimesUnitRates` | src/main/kotlin/com/github/zavier/Dollar.kt:40-42 | when every leaf converts at rate 1, reducing `e.times(k)` gives `k` times the reduction of `e` (modulo 2^32) |
| `Expressions.TruncationBreaksScaling` | src/main/kotlin/com/github/zavier/Dollar.kt:57 | at rate 2 one franc reduces to 0 dollars but two francs reduce to 1, so scaling does not commute with reduction in general at rates other than 1 |
| `Expressions.ReducePlus` | src/main/kotlin/com/github/zavier/Dollar.kt:32-38 | reducing `x.plus(y)` fails iff either operand fails, and otherwise gives the 32-bit sum of the two reductions |
| `Banking.Bank.constructor` | src/main/kotlin/com/github/zavier/Dollar.kt:13 | a new bank has no stored rates |
| `Banking.Bank.AddRate` | src/main/kotlin/com/github/zavier/Dollar.kt:26-28 | the table is updated at `(from, to)` only; that pair's rate becomes `rate` when `from != to`, and every other pair's rate is unchanged |
| `Banking.Bank.Rate` | src/main/kotlin/com/github/zavier/Dollar.kt:19-24 | returns the lookup `Rates.Rate` on the bank's table: 1 for identical currencies, otherwise success iff the pair is stored |
| `Banking.Bank.Reduce` | src/main/kotlin/com/github/zavier/Dollar.kt:15-17 | returns the expression's reduction against the bank's current table, in the target currency |
| `Scenarios.Multiplication` | src/test/kotlin/com/github/zavier/DollarTest.kt:11-30 | `dollar(5) * 2 == dollar(10)`, `* 3 == dollar(15)`, and the same for francs |
| `Scenarios.MultiplicationOverflows` | src/main/kotlin/com/github/zavier/Dollar.kt:52 | `dollar(Int.MAX_VALUE) * 2` wraps to `dollar(-2)` |
| `Scenarios.Equality` | src/test/kotlin/com/github/zavier/DollarTest.kt:18-23 | `dollar(5) == dollar(5)`, `dollar(5) != dollar(6)`, `franc(5) != dollar(5)` |
| `Scenarios.FactoryCurrencies` | src/main/kotlin/com/github/zavier/Dollar.kt:61-67 | `dollar` tags USD and `franc` tags CHF with the given amount, so a dollar never equals a franc |
| `Scenarios.PlusReturnsSum` | src/test/kotlin/com/github/zavier/DollarTest.kt:48-54 | `five.plus(five)` is `Sum(five, five)`, not `dollar(10)` |
| `Scenarios.IdentityRate` | src/test/kotlin/com/github/zavier/DollarTest.kt:80-82 | a fresh bank's USD→USD rate is 1 |
| `Scenarios.SimpleAddition` | src/test/kotlin/com/github/zavier/DollarTest.kt:39-45 | `dollar(5).plus(dollar(5))` reduces to `dollar(10)` |
| `Scenarios.ReduceSumOfDollars` | src/test/kotlin/com/github/zavier/DollarTest.kt:57-62 | `Sum(dollar(3), dollar(4))` reduces to `dollar(7)` |
| `Scenarios.ReduceMoneyInItsCurrency` | src/test/kotlin/com/github/zavier/DollarTest.kt:65-69 | `dollar(1)` reduces to `dollar(1)` in USD |
| `Scenarios.ReduceMoneyDifferentCurrency` | src/test/kotlin/com/github/zavier/DollarTest.kt:72-77 | at CHF→USD rate 2, `franc(2)` reduces to `dollar(1)` |
| `Scenarios.MixedAddition` | src/test/kotlin/com/github/zavier/DollarTest.kt:85-92 | at rate 2, `dollar(5).plus(franc(10))` reduces to `dollar(10)` |
| `Scenarios.SumPlusMoney` | src/test/kotlin/com/github/zavier/DollarTest.kt:95-103 | at rate 2, `Sum(dollar(5), franc(10)).plus(dollar(5))` reduces to `dollar(15)` |
| `Scenarios.SumTimes` | src/test/kotlin/com/github/zavier/DollarTest.kt:106-115 | at rate 2, `Sum(dollar(5), franc(10)).times(2)` reduces to `dollar(20)` |
| `Scenarios.NestedSumTimes` | src/main/kotlin/com/github/zavier/Dollar.kt:40-42 | at rate 2, `Sum(dollar(5), franc(10)).plus(dollar(5)).times(2)` reduces to `dollar(30)` |
| `Scenarios.MissingRate` | src/main/kotlin/com/github/zavier/Dollar.kt:23-24 | with no rates, reducing `franc(5)` to USD fails with `MissingRate("CHF", "USD")` |
| `Scenarios.RateIsDirected` | src/main/kotlin/com/github/zavier/Dollar.kt:23-24 | a CHF→USD rate does not make `dollar(1)` reducible to CHF |
| `Scenarios.MissingRateInAddend` | src/main/kotlin/com/github/zavier/Dollar.kt:33 | a missing rate at the addend leaf fails the whole sum |
| `Scenarios.ZeroRate` | src/main/kotlin/com/github/zavier/Dollar.kt:57 | a stored zero rate is accepted, and reducing through it fails with `DivisionByZero` |
| `Scenarios.RateOverwritten` | src/main/kotlin/com/github/zavier/Dollar.kt:27 | after storing 2 and then 5 for CHF→USD, `franc(10)` reduces to `dollar(2)` |
| `Scenarios.NegativeAmountTruncates` | src/main/kotlin/com/github/zavier/Dollar.kt:57 | at rate 2, `franc(-3)` reduces to `dollar(-1)`: truncation toward zero, not floor |

## Left out

- `toString` (Dollar.kt:84-86) is string formatting, so it is not modelled.
- `hashCode` (Dollar.kt:80-82) returns the amount. It depends only on a field that `equals` compares, so it is consistent with `equals`. It is not modelled further.
- Object identity (`this === other`, Dollar.kt:72) is not modelled. Neither is the `equals` that `Sum` inherits from `Any`, which is reference identity. The model's `Expr` values are compared structurally, and `Equals` models only `Money.equals`.
- `Expression` is an open interface in the source, and `Money` an `open class`. The model closes it to the two variants that exist.
- The `currency()` accessor (Dollar.kt:69) is the datatype field `currency`. `protected` visibility has no counterpart.
- The exceptions are error values, not JVM exceptions. No stack unwinding or message text is modelled beyond the currency pair of a missing rate.
- Concurrent use of a `Bank` is not modelled, since the source is unsynchronised and single-threaded by design.
