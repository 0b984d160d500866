/** The constant-product price rule of `swap`: with the pool owner holding
    `x` of the token sold and `y` of the token bought, a trader who sells
    `amount` receives `y - (x*y) / (x + amount)`, in integer arithmetic. */
module Pricing {

  /** Division facts Dafny's `/` and `%` satisfy for a positive divisor. */
  lemma DivMod(n: nat, d: nat)
    requires d > 0
    ensures n == d * (n / d) + n % d
    ensures 0 <= n % d < d && 0 <= n / d
  {
  }

  lemma MulLeq(a: nat, b: nat, c: nat)
    requires a <= b
    ensures a * c <= b * c
  {
    assert b * c == a * c + (b - a) * c;
  }

  /** The quotient is the largest `q` with `q * d <= n`. */
  lemma AtMostQuotient(n: nat, d: nat, q: nat)
    requires d > 0 && q * d <= n
    ensures q <= n / d
  {
    DivMod(n, d);
    if q > n / d {
      MulLeq(n / d + 1, q, d);
    }
  }

  /** A larger divisor gives a quotient no larger. */
  lemma QuotientAntitone(n: nat, d1: nat, d2: nat)
    requires 0 < d1 <= d2
    ensures n / d2 <= n / d1
  {
    DivMod(n, d2);
    MulLeq(d1, d2, n / d2);
    AtMostQuotient(n, d1, n / d2);
  }

  /** A quotient is at most any `m` with `n <= m * d`. */
  lemma QuotientAtMost(n: nat, d: nat, m: nat)
    requires d > 0 && n <= m * d
    ensures n / d <= m
  {
    DivMod(n, d);
    if n / d > m {
      MulLeq(m + 1, n / d, d);
    }
  }

  /** `x*y / (x + amount)` never exceeds `y`, so `buy_amount` cannot underflow. */
  lemma QuotientAtMostY(x: nat, y: nat, amount: nat)
    requires x + amount > 0
    ensures (x * y) / (x + amount) <= y
  {
    MulLeq(x, x + amount, y);
    QuotientAtMost(x * y, x + amount, y);
  }

  /** `let buy_amount = y - (k / (x + amount))` with `k = x * y`. */
  function BuyAmount(x: nat, y: nat, amount: nat): (b: nat)
    requires x + amount > 0
    ensures b <= y
  {
    QuotientAtMostY(x, y, amount);
    y - (x * y) / (x + amount)
  }

  /** The trader's amount is `y*amount / (x+amount)` rounded UP: it is the
      least `b` with `y*amount <= (x+amount)*b`. */
  lemma {:induction false} BuyAmountIsCeiling(x: nat, y: nat, amount: nat)
    requires x + amount > 0
    ensures var b := BuyAmount(x, y, amount);
      (x + amount) * b - (x + amount) < y * amount <= (x + amount) * b
  {
    var d := x + amount;
    var q := (x * y) / d;
    var b := BuyAmount(x, y, amount);
    DivMod(x * y, d);
    assert b == y - q;
    assert d * b == d * y - d * q;
    assert d * y == x * y + amount * y;
    assert d * b == y * amount + (x * y) % d;
  }

  /** After the swap the owner holds `x + amount` and `y - b`; their product
      never exceeds `x*y`, and falls short of it by less than `x + amount`
      (the rounding of `b` favours the trader). */
  lemma {:induction false} PoolProductNeverIncreases(x: nat, y: nat, amount: nat)
    requires x + amount > 0
    ensures var b := BuyAmount(x, y, amount);
      && (x + amount) * (y - b) <= x * y
      && x * y - (x + amount) * (y - b) < x + amount
  {
    var d := x + amount;
    DivMod(x * y, d);
    assert y - BuyAmount(x, y, amount) == (x * y) / d;
  }

  /** Selling nothing into a pool that holds some of the sold token buys nothing. */
  lemma {:induction false} BuyAmountOfNothing(x: nat, y: nat)
    requires x > 0
    ensures BuyAmount(x, y, 0) == 0
  {
    DivMod(x * y, x);
    AtMostQuotient(x * y, x, y);
    QuotientAtMostY(x, y, 0);
  }

  /** Selling more never buys less. */
  lemma {:induction false} BuyAmountMonotone(x: nat, y: nat, a1: nat, a2: nat)
    requires x + a1 > 0 && a1 <= a2
    ensures BuyAmount(x, y, a1) <= BuyAmount(x, y, a2)
  {
    QuotientAntitone(x * y, x + a1, x + a2);
  }

  /** The rule can hand out the owner's whole balance of the bought token:
      exactly when `x*y < x + amount`. */
  lemma {:induction false} BuyAmountDrainsPool(x: nat, y: nat, amount: nat)
    requires x + amount > 0
    ensures BuyAmount(x, y, amount) == y <==> x * y < x + amount
  {
    var d := x + amount;
    DivMod(x * y, d);
    if x * y >= d {
      AtMostQuotient(x * y, d, 1);
    }
  }

  /** The worked example: x = 900, y = 300, amount = 100 buys 30. */
  lemma BuyAmountExample()
    ensures BuyAmount(900, 300, 100) == 30
  {
  }
}
