/** The currency expression algebra: `Money` leaves, deferred `Sum`s, and
    their scaling (`times`) and reduction to one currency (`reduce`). */
module Expressions {
  import opened KotlinInt
  import opened Rates

  /** An `Expression`: a `Money` leaf (currency code and 32-bit amount) or a
      `Sum` of two sub-expressions awaiting reduction. */
  datatype Expr =
    | Money(currency: string, amount: Int32)
    | Sum(augend: Expr, addend: Expr)

  /** What `reduce` returns: a flat `Money`. */
  type MoneyValue = e: Expr | e.Money? witness Money("", 0)

  function Dollar(amount: Int32): (m: MoneyValue)
    ensures m.currency == "USD" && m.amount == amount
  {
    Money("USD", amount)
  }

  function Franc(amount: Int32): (m: MoneyValue)
    ensures m.currency == "CHF" && m.amount == amount
  {
    Money("CHF", amount)
  }

  /** `Money.equals`: another `Money` with the same amount and currency. */
  function Equals(m: MoneyValue, other: Expr): (r: bool)
    ensures r <==> other == m
  {
    other.Money? && m.amount == other.amount && m.currency == other.currency
  }

  /** `plus`, identical for both variants: defer the addition. The result
      is a `Sum` with the receiver as augend and the argument as addend, and
      its leaves are the receiver's followed by the argument's. */
  function Plus(e: Expr, addend: Expr): (r: Expr)
    ensures r.Sum? && r.augend == e && r.addend == addend
    ensures Leaves(r) == Leaves(e) + Leaves(addend)
  {
    Sum(e, addend)
  }

  /** `times`: a `Money` multiplies its amount (with 32-bit wrap-around);
      a `Sum` distributes the multiplier over both children. */
  function Times(e: Expr, multiplier: Int32): (r: Expr)
    ensures r.Money? <==> e.Money?
    ensures r.Money? ==> r.currency == e.currency
  {
    match e
    case Money(c, a) => Money(c, Wrap(a * multiplier))
    case Sum(x, y) => Sum(Times(x, multiplier), Times(y, multiplier))
  }

  /** `Money.reduce`: divide the amount by the bank's rate, relabelled in
      the target currency. */
  function ReduceMoney(m: MoneyValue, rates: RateTable, to: string): (r: Result<MoneyValue>)
    ensures r.Ok? <==> Rate(rates, m.currency, to).Ok? && Rate(rates, m.currency, to).value != 0
    ensures r.Ok? ==> r.value.currency == to
    ensures Rate(rates, m.currency, to).Err? ==> r == Err(Rate(rates, m.currency, to).error)
  {
    match Rate(rates, m.currency, to)
    case Err(err) => Err(err)
    case Ok(rate) =>
      if rate == 0 then Err(DivisionByZero) else Ok(Money(to, Div(m.amount, rate)))
  }

  /** `reduce`: a `Sum` reduces its augend, then its addend, and adds the
      two amounts; the first failure aborts the whole reduction. */
  function Reduce(e: Expr, rates: RateTable, to: string): (r: Result<MoneyValue>)
    ensures r.Ok? ==> r.value.currency == to
  {
    match e
    case Money(_, _) => ReduceMoney(e, rates, to)
    case Sum(x, y) => AddReduced(Reduce(x, rates, to), Reduce(y, rates, to), to)
  }

  /** The last step of `Sum.reduce`: the first error, or the 32-bit sum of
      the two reduced amounts in the target currency. */
  function AddReduced(rx: Result<MoneyValue>, ry: Result<MoneyValue>, to: string): (r: Result<MoneyValue>)
    ensures r.Ok? <==> rx.Ok? && ry.Ok?
    ensures r.Ok? ==> r.value.currency == to
    ensures r.Err? ==> r == rx || r == ry
  {
    match rx
    case Err(err) => Err(err)
    case Ok(mx) =>
      match ry
      case Err(err) => Err(err)
      case Ok(my) => Ok(Money(to, Wrap(mx.amount + my.amount)))
  }

  // ---------------------------------------------------------------------
  // Reference definitions: an expression as the list of its leaves.

  /** The `Money` leaves of an expression, left to right. */
  function Leaves(e: Expr): seq<MoneyValue>
  {
    match e
    case Money(_, _) => [e]
    case Sum(x, y) => Leaves(x) + Leaves(y)
  }

  /** Reduce a list of leaves one by one, left to right, adding the
      converted amounts without overflow; the first failing leaf's error
      is the result. */
  function ReduceLeaves(ls: seq<MoneyValue>, rates: RateTable, to: string): Result<int>
  {
    if ls == [] then Ok(0)
    else AddTotals(AmountOf(ReduceMoney(ls[0], rates, to)), ReduceLeaves(ls[1..], rates, to))
  }

  function AmountOf(r: Result<MoneyValue>): Result<int>
  {
    match r
    case Err(err) => Err(err)
    case Ok(m) => Ok(m.amount)
  }

  /** Unbounded addition of two partial totals; the first error wins. */
  function AddTotals(s: Result<int>, t: Result<int>): Result<int>
  {
    match s
    case Err(err) => Err(err)
    case Ok(a) =>
      match t
      case Err(err) => Err(err)
      case Ok(b) => Ok(a + b)
  }

  /** The total of a leaf list, as a 32-bit `Money` in `to`. */
  function AsMoney(total: Result<int>, to: string): Result<MoneyValue>
  {
    match total
    case Err(err) => Err(err)
    case Ok(t) => Ok(Money(to, Wrap(t)))
  }

  /** Two expressions with the same tree of `Sum` nodes. */
  predicate SameShape(x: Expr, y: Expr)
  {
    match x
    case Money(_, _) => y.Money?
    case Sum(x1, x2) => y.Sum? && SameShape(x1, y.augend) && SameShape(x2, y.addend)
  }

  // ---------------------------------------------------------------------
  // times

  /** Scaling a `Money` keeps its currency and multiplies its amount. */
  lemma TimesMoney(c: string, a: Int32, k: Int32)
    ensures Times(Money(c, a), k).Money?
    ensures Times(Money(c, a), k).currency == c
    ensures Times(Money(c, a), k).amount == Wrap(a * k)
    ensures MIN <= a * k <= MAX ==> Times(Money(c, a), k) == Money(c, a * k)
  {
  }

  /** Scaling keeps the tree shape. */
  lemma {:induction false} TimesPreservesShape(e: Expr, k: Int32)
    ensures SameShape(e, Times(e, k))
  {
    match e
    case Money(_, _) =>
    case Sum(x, y) =>
      TimesPreservesShape(x, k);
      TimesPreservesShape(y, k);
  }

  /** Scaling multiplies every leaf's amount by `k` and keeps its currency
      and position. */
  lemma {:induction false} TimesScalesLeaves(e: Expr, k: Int32)
    ensures |Leaves(Times(e, k))| == |Leaves(e)|
    ensures forall i :: 0 <= i < |Leaves(e)| ==>
      Leaves(Times(e, k))[i] == Money(Leaves(e)[i].currency, Wrap(Leaves(e)[i].amount * k))
  {
    match e
    case Money(_, _) =>
    case Sum(x, y) =>
      TimesScalesLeaves(x, k);
      TimesScalesLeaves(y, k);
      var lx := |Leaves(x)|;
      forall i | 0 <= i < |Leaves(e)|
        ensures Leaves(Times(e, k))[i] == Money(Leaves(e)[i].currency, Wrap(Leaves(e)[i].amount * k))
      {
        if i < lx {
          assert Leaves(Times(e, k))[i] == Leaves(Times(x, k))[i];
          assert Leaves(e)[i] == Leaves(x)[i];
        } else {
          assert Leaves(Times(e, k))[i] == Leaves(Times(y, k))[i - lx];
          assert Leaves(e)[i] == Leaves(y)[i - lx];
        }
      }
  }

  /** Scaling by 1 changes nothing. */
  lemma {:induction false} TimesOne(e: Expr)
    ensures Times(e, 1) == e
  {
    match e
    case Money(_, _) =>
    case Sum(x, y) =>
      TimesOne(x);
      TimesOne(y);
  }

  /** Scaling twice is scaling once by the 32-bit product of the factors. */
  lemma {:induction false} TimesTimes(e: Expr, j: Int32, k: Int32)
    ensures Times(Times(e, j), k) == Times(e, Wrap(j * k))
  {
    match e
    case Money(c, a) =>
      WrapMulAssociates(a, j, k);
    case Sum(x, y) =>
      TimesTimes(x, j, k);
      TimesTimes(y, j, k);
  }

  // ---------------------------------------------------------------------
  // reduce

  /** A `Money` already in the target currency reduces to itself. */
  lemma ReduceSameCurrency(m: MoneyValue, rates: RateTable)
    ensures Reduce(m, rates, m.currency) == Ok(m)
  {
  }

  /** A `Money` in another currency reduces to `amount / rate` in the
      target currency when the table holds a nonzero rate for the pair;
      a missing rate or a zero rate is an error. */
  lemma ReduceMoneyConverts(m: MoneyValue, rates: RateTable, to: string)
    requires m.currency != to
    ensures (m.currency, to) !in rates ==> Reduce(m, rates, to) == Err(MissingRate(m.currency, to))
    ensures (m.currency, to) in rates && rates[(m.currency, to)] == 0 ==>
      Reduce(m, rates, to) == Err(DivisionByZero)
    ensures (m.currency, to) in rates && rates[(m.currency, to)] != 0 ==>
      Reduce(m, rates, to) == Ok(Money(to, Div(m.amount, rates[(m.currency, to)])))
    ensures (m.currency, to) in rates && rates[(m.currency, to)] > 0 && m.amount >= 0 ==>
      Reduce(m, rates, to) == Ok(Money(to, m.amount / rates[(m.currency, to)]))
  {
    if (m.currency, to) in rates && rates[(m.currency, to)] > 0 && m.amount >= 0 {
      QuotOfNonnegatives(m.amount, rates[(m.currency, to)]);
    }
  }

  /** Unfolds the cases of `AddReduced`; a proof helper. */
  lemma AddReducedCases(rx: Result<MoneyValue>, ry: Result<MoneyValue>, to: string)
    ensures AddReduced(rx, ry, to).Ok? <==> rx.Ok? && ry.Ok?
    ensures AddReduced(rx, ry, to).Ok? ==>
      AddReduced(rx, ry, to).value == Money(to, Wrap(rx.value.amount + ry.value.amount))
    ensures rx.Err? ==> AddReduced(rx, ry, to) == rx
    ensures rx.Ok? && ry.Err? ==> AddReduced(rx, ry, to) == ry
  {
  }

  /** Unfolds one step of `reduce` on a `Sum`; a proof helper that keeps
      the lemmas below from unfolding more of `Reduce` than they need. */
  lemma SumReduces(x: Expr, y: Expr, rates: RateTable, to: string)
    ensures Reduce(Sum(x, y), rates, to) == AddReduced(Reduce(x, rates, to), Reduce(y, rates, to), to)
  {
  }

  /** Unfolds the successful case of `AddReduced`; a proof helper. */
  lemma AddReducedOk(rx: Result<MoneyValue>, ry: Result<MoneyValue>, to: string)
    requires rx.Ok? && ry.Ok?
    ensures AddReduced(rx, ry, to) == Ok(Money(to, Wrap(rx.value.amount + ry.value.amount)))
  {
  }

  /** Reducing a `Sum` succeeds exactly when both children reduce. */
  lemma ReduceSum(x: Expr, y: Expr, rates: RateTable, to: string)
    ensures Reduce(Sum(x, y), rates, to).Ok? <==>
      Reduce(x, rates, to).Ok? && Reduce(y, rates, to).Ok?
  {
    SumReduces(x, y, rates, to);
    AddReducedCases(Reduce(x, rates, to), Reduce(y, rates, to), to);
  }

  /** When both children reduce, the `Sum` reduces to the target currency
      and the 32-bit sum of their amounts. */
  lemma ReduceSumValue(x: Expr, y: Expr, rates: RateTable, to: string)
    requires Reduce(x, rates, to).Ok? && Reduce(y, rates, to).Ok?
    ensures Reduce(Sum(x, y), rates, to) ==
      Ok(Money(to, Wrap(Reduce(x, rates, to).value.amount + Reduce(y, rates, to).value.amount)))
  {
    SumReduces(x, y, rates, to);
    AddReducedOk(Reduce(x, rates, to), Reduce(y, rates, to), to);
  }

  /** A failing `Sum` reports its augend's error if the augend fails, and
      otherwise its addend's. */
  lemma ReduceSumFirstError(x: Expr, y: Expr, rates: RateTable, to: string)
    ensures Reduce(x, rates, to).Err? ==> Reduce(Sum(x, y), rates, to) == Reduce(x, rates, to)
    ensures Reduce(x, rates, to).Ok? && Reduce(y, rates, to).Err? ==>
      Reduce(Sum(x, y), rates, to) == Reduce(y, rates, to)
  {
    SumReduces(x, y, rates, to);
    AddReducedCases(Reduce(x, rates, to), Reduce(y, rates, to), to);
  }

  /** `AddTotals` is associative, so totals may be grouped either way. */
  lemma AddTotalsAssociative(a: Result<int>, b: Result<int>, c: Result<int>)
    ensures AddTotals(AddTotals(a, b), c) == AddTotals(a, AddTotals(b, c))
  {
  }

  /** Reducing the leaves of a concatenation is reducing each part and
      adding the totals. */
  lemma {:induction false} ReduceLeavesAppend(xs: seq<MoneyValue>, ys: seq<MoneyValue>, rates: RateTable, to: string)
    ensures ReduceLeaves(xs + ys, rates, to) ==
      AddTotals(ReduceLeaves(xs, rates, to), ReduceLeaves(ys, rates, to))
  {
    if xs == [] {
      assert xs + ys == ys;
    } else {
      assert (xs + ys)[0] == xs[0];
      assert (xs + ys)[1..] == xs[1..] + ys;
      ReduceLeavesAppend(xs[1..], ys, rates, to);
      AddTotalsAssociative(AmountOf(ReduceMoney(xs[0], rates, to)),
        ReduceLeaves(xs[1..], rates, to), ReduceLeaves(ys, rates, to));
    }
  }

  /** Wrapping the two partial totals and adding them in 32 bits is
      wrapping their unbounded sum. */
  lemma AddReducedAsMoney(s: Result<int>, t: Result<int>, to: string)
    ensures AddReduced(AsMoney(s, to), AsMoney(t, to), to) == AsMoney(AddTotals(s, t), to)
  {
    if s.Ok? && t.Ok? {
      WrapAdd(s.value, t.value);
    }
  }

  /** A single leaf reduces as a one-leaf list does. */
  lemma ReduceOneLeaf(m: MoneyValue, rates: RateTable, to: string)
    ensures ReduceMoney(m, rates, to) == AsMoney(ReduceLeaves([m], rates, to), to)
  {
    assert [m][1..] == [];
  }

  /** `reduce` on a tree is the left-to-right reduction of its leaves: it
      fails with the first failing leaf's error, and otherwise its amount is
      the sum of the converted leaf amounts taken modulo 2^32. */
  lemma {:induction false} ReduceIsReduceLeaves(e: Expr, rates: RateTable, to: string)
    ensures Reduce(e, rates, to) == AsMoney(ReduceLeaves(Leaves(e), rates, to), to)
  {
    match e
    case Money(_, _) =>
      ReduceOneLeaf(e, rates, to);
    case Sum(x, y) =>
      ReduceIsReduceLeaves(x, rates, to);
      ReduceIsReduceLeaves(y, rates, to);
      ReduceLeavesAppend(Leaves(x), Leaves(y), rates, to);
      AddReducedAsMoney(ReduceLeaves(Leaves(x), rates, to), ReduceLeaves(Leaves(y), rates, to), to);
  }

  /** Reducing a list of leaves succeeds exactly when every leaf reduces. */
  lemma {:induction false} ReduceLeavesOkIff(ls: seq<MoneyValue>, rates: RateTable, to: string)
    ensures ReduceLeaves(ls, rates, to).Ok? <==>
      forall i :: 0 <= i < |ls| ==> ReduceMoney(ls[i], rates, to).Ok?
  {
    if ls != [] {
      ReduceLeavesOkIff(ls[1..], rates, to);
      if forall i :: 0 <= i < |ls| ==> ReduceMoney(ls[i], rates, to).Ok? {
        assert forall i :: 0 <= i < |ls[1..]| ==> ReduceMoney(ls[1..][i], rates, to).Ok? by {
          forall i | 0 <= i < |ls[1..]| ensures ReduceMoney(ls[1..][i], rates, to).Ok? {
            assert ls[1..][i] == ls[i + 1];
          }
        }
      } else if ReduceMoney(ls[0], rates, to).Ok? {
        var i :| 0 <= i < |ls| && !ReduceMoney(ls[i], rates, to).Ok?;
        assert ls[1..][i - 1] == ls[i];
      }
    }
  }

  /** A reduction succeeds exactly when every leaf has a nonzero rate to the
      target currency: one missing rate anywhere makes the whole tree fail. */
  lemma ReduceOkIffEveryLeafConverts(e: Expr, rates: RateTable, to: string)
    ensures Reduce(e, rates, to).Ok? <==>
      forall i :: 0 <= i < |Leaves(e)| ==>
        Rate(rates, Leaves(e)[i].currency, to).Ok? && Rate(rates, Leaves(e)[i].currency, to).value != 0
  {
    ReduceIsReduceLeaves(e, rates, to);
    ReduceLeavesOkIff(Leaves(e), rates, to);
  }

  /** Where every leaf converts at rate 1 (in particular, where every leaf
      is already in the target currency), reducing a scaled tree gives the
      scaled reduction, modulo 2^32. */
  lemma {:induction false} ReduceTimesUnitRates(e: Expr, k: Int32, rates: RateTable, to: string)
    requires forall m :: m in Leaves(e) ==> Rate(rates, m.currency, to) == Ok(1)
    ensures Reduce(e, rates, to).Ok?
    ensures Reduce(Times(e, k), rates, to) == Ok(Money(to, Wrap(k * Reduce(e, rates, to).value.amount)))
  {
    match e
    case Money(c, a) =>
      assert e in Leaves(e);
      ReduceTimesUnitRate(c, a, k, rates, to);
    case Sum(x, y) =>
      ReduceTimesUnitRates(x, k, rates, to);
      ReduceTimesUnitRates(y, k, rates, to);
      AddReducedScales(Reduce(x, rates, to), Reduce(y, rates, to),
        Reduce(Times(x, k), rates, to), Reduce(Times(y, k), rates, to), k, to);
  }

  /** The leaf case of `ReduceTimesUnitRates`. */
  lemma ReduceTimesUnitRate(c: string, a: Int32, k: Int32, rates: RateTable, to: string)
    requires Rate(rates, c, to) == Ok(1)
    ensures Reduce(Money(c, a), rates, to) == Ok(Money(to, a))
    ensures Reduce(Times(Money(c, a), k), rates, to) == Ok(Money(to, Wrap(k * a)))
  {
    assert a * k == k * a;
  }

  /** The sum case of `ReduceTimesUnitRates`: adding two scaled reductions
      is scaling their sum. */
  lemma AddReducedScales(rx: Result<MoneyValue>, ry: Result<MoneyValue>,
                         tx: Result<MoneyValue>, ty: Result<MoneyValue>, k: Int32, to: string)
    requires rx.Ok? && ry.Ok?
    requires tx == Ok(Money(to, Wrap(k * rx.value.amount)))
    requires ty == Ok(Money(to, Wrap(k * ry.value.amount)))
    ensures AddReduced(rx, ry, to).Ok?
    ensures AddReduced(tx, ty, to) == Ok(Money(to, Wrap(k * AddReduced(rx, ry, to).value.amount)))
  {
    WrapDistributes(k, rx.value.amount, ry.value.amount);
  }

  /** With a rate other than 1 the truncating division does not commute with
      scaling: one franc reduces to zero dollars at rate 2, but two francs
      reduce to one dollar. */
  lemma TruncationBreaksScaling()
    ensures Reduce(Franc(1), map[("CHF", "USD") := 2], "USD") == Ok(Dollar(0))
    ensures Reduce(Times(Franc(1), 2), map[("CHF", "USD") := 2], "USD") == Ok(Dollar(1))
  {
  }

  /** Reducing a `plus` fails when either operand fails, and otherwise
      adds the two reductions. */
  lemma ReducePlus(e: Expr, addend: Expr, rates: RateTable, to: string)
    ensures Reduce(Plus(e, addend), rates, to).Ok? <==>
      Reduce(e, rates, to).Ok? && Reduce(addend, rates, to).Ok?
    ensures Reduce(e, rates, to).Ok? && Reduce(addend, rates, to).Ok? ==>
      Reduce(Plus(e, addend), rates, to) ==
        Ok(Money(to, Wrap(Reduce(e, rates, to).value.amount + Reduce(addend, rates, to).value.amount)))
  {
    ReduceSum(e, addend, rates, to);
    if Reduce(e, rates, to).Ok? && Reduce(addend, rates, to).Ok? {
      ReduceSumValue(e, addend, rates, to);
    }
  }
}
