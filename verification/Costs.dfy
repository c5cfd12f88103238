/** Purchase costs and stock value (internal/domain/purchase.go, internal/store/inventory.go):
    three integer roundings that have to agree with each other. */
module Costs {
  import opened Common
  import opened Sequences

  datatype Purchase = Purchase(
    nameKey: string, vendor: string, unitPriceKrw: int, qty: int, shippingKrw: int, purchasedAt: int, idemKey: string,
    createdAt: int)

  // Go's division: the quotient is cut towards zero.
  function Quot(a: int, b: int): int
    requires b > 0
  {
    if a >= 0 then a / b else -((-a) / b)
  }

  function TotalCost(unitPrice: int, qty: int, shipping: int): int {
    unitPrice * qty + shipping
  }

  function UnitCost(unitPrice: int, qty: int, shipping: int): int {
    if qty <= 0 then 0 else Quot(TotalCost(unitPrice, qty, shipping) + qty / 2, qty)
  }

  // What the database and the input checks demand of a stored purchase.
  predicate ValidPurchase(p: Purchase) {
    p.qty > 0 && p.unitPriceKrw >= 0 && p.shippingKrw >= 0
  }

  predicate AllValid(ps: seq<Purchase>) {
    forall i :: 0 <= i < |ps| ==> ValidPurchase(ps[i])
  }

  function CostOf(p: Purchase): int {
    TotalCost(p.unitPriceKrw, p.qty, p.shippingKrw)
  }

  function UnitCostOf(p: Purchase): int {
    UnitCost(p.unitPriceKrw, p.qty, p.shippingKrw)
  }

  function Bought(ps: seq<Purchase>): int {
    if ps == [] then 0 else Bought(ps[..|ps| - 1]) + ps[|ps| - 1].qty
  }

  function Spent(ps: seq<Purchase>): int {
    if ps == [] then 0 else Spent(ps[..|ps| - 1]) + CostOf(ps[|ps| - 1])
  }

  function AverageCost(spent: int, bought: int): int
    requires bought > 0
  {
    Quot(spent + bought / 2, bought)
  }

  // Stock value: the share of what was spent, not the rounded average times the quantity.
  function StockValue(spent: int, bought: int, onHand: int): int
    requires bought > 0
  {
    if onHand > 0 then Quot(spent * onHand + bought / 2, bought) else 0
  }

  lemma {:induction false} SumsAreNatural(ps: seq<Purchase>)
    requires AllValid(ps)
    ensures Spent(ps) >= 0 && Bought(ps) >= |ps|
  {
    if ps != [] {
      SumsAreNatural(ps[..|ps| - 1]);
      CostIsNatural(ps[|ps| - 1]);
    }
  }

  lemma CostIsNatural(p: Purchase)
    requires ValidPurchase(p)
    ensures CostOf(p) >= 0
  {
  }

  // ----- what the money was spent on -----

  // n pieces at one price: the price once per piece.
  function Pieces(price: int, n: nat): int {
    if n == 0 then 0 else Pieces(price, n - 1) + price
  }

  function Goods(ps: seq<Purchase>): int
    requires AllValid(ps)
  {
    if ps == [] then 0 else Goods(ps[..|ps| - 1]) + Pieces(ps[|ps| - 1].unitPriceKrw, ps[|ps| - 1].qty)
  }

  function Shipping(ps: seq<Purchase>): int {
    if ps == [] then 0 else Shipping(ps[..|ps| - 1]) + ps[|ps| - 1].shippingKrw
  }

  lemma {:induction false} CostIsPiecesAndShipping(price: int, n: nat, shipping: int)
    ensures TotalCost(price, n, shipping) == Pieces(price, n) + shipping
  {
    if n > 0 {
      CostIsPiecesAndShipping(price, n - 1, shipping);
      assert price * n == price * (n - 1) + price;
    }
  }

  /** All money spent went into the goods, each piece at its price, and the shipping, once per
      purchase. */
  lemma {:induction false} SpentIsGoodsAndShipping(ps: seq<Purchase>)
    requires AllValid(ps)
    ensures Spent(ps) == Goods(ps) + Shipping(ps)
  {
    if ps != [] {
      var p := ps[|ps| - 1];
      SpentIsGoodsAndShipping(ps[..|ps| - 1]);
      CostIsPiecesAndShipping(p.unitPriceKrw, p.qty, p.shippingKrw);
    }
  }

  /** One more piece costs its price, one more won of shipping one won, and a purchase of two
      parts what the parts cost. */
  lemma CostMoves(price: int, m: int, n: int, shipping: int, more: int)
    ensures TotalCost(price, 0, shipping) == shipping
    ensures TotalCost(price, n + 1, shipping) == TotalCost(price, n, shipping) + price
    ensures TotalCost(price, n, shipping + 1) == TotalCost(price, n, shipping) + 1
    ensures TotalCost(price, m + n, shipping + more) == TotalCost(price, m, shipping) + TotalCost(price, n, more)
  {
    Distribute(m, n, price);
    Distribute(n, 1, price);
  }

  lemma {:induction false} SumsConcat(a: seq<Purchase>, b: seq<Purchase>)
    ensures Spent(a + b) == Spent(a) + Spent(b) && Bought(a + b) == Bought(a) + Bought(b)
  {
    if b == [] {
      EmptyTail(a);
    } else {
      var init, p := b[..|b| - 1], b[|b| - 1];
      SumsConcat(a, init);
      ConcatLast(a, b);
      TakeSnoc(a + init, p);
    }
  }

  lemma SumsOfOne(p: Purchase)
    ensures Spent([p]) == CostOf(p) && Bought([p]) == p.qty
  {
  }

  /** Bought in one go or in two parts that share the shipping, the sums are the same. */
  lemma PartsAddUp(a: seq<Purchase>, p: Purchase, q: Purchase, r: Purchase, b: seq<Purchase>)
    requires p.unitPriceKrw == q.unitPriceKrw == r.unitPriceKrw
    requires p.qty == q.qty + r.qty && p.shippingKrw == q.shippingKrw + r.shippingKrw
    ensures Spent(a + [p] + b) == Spent(a + [q, r] + b) && Bought(a + [p] + b) == Bought(a + [q, r] + b)
  {
    CostMoves(p.unitPriceKrw, q.qty, r.qty, q.shippingKrw, r.shippingKrw);
    SumsOfOne(p);
    SumsOfOne(q);
    SumsOfOne(r);
    Pair(q, r);
    SumsConcat([q], [r]);
    SumsConcat(a, [p]);
    SumsConcat(a + [p], b);
    SumsConcat(a, [q, r]);
    SumsConcat(a + [q, r], b);
  }

  lemma SumsWithout(a: seq<Purchase>, p: Purchase, b: seq<Purchase>)
    ensures Spent(a + [p] + b) == Spent(a + b) + CostOf(p) && Bought(a + [p] + b) == Bought(a + b) + p.qty
  {
    SumsOfOne(p);
    SumsConcat(a, [p]);
    SumsConcat(a + [p], b);
    SumsConcat(a, b);
  }

  /** The order of the purchases does not matter. */
  lemma {:induction false} SumsPermute(a: seq<Purchase>, b: seq<Purchase>)
    requires multiset(a) == multiset(b)
    ensures Spent(a) == Spent(b) && Bought(a) == Bought(b)
    decreases |a|
  {
    if a == [] {
      assert |multiset(b)| == 0;
    } else {
      var init, x := a[..|a| - 1], a[|a| - 1];
      var k := TakeOut(a, b);
      SumsPermute(init, b[..k] + b[k + 1..]);
      SumsWithout(b[..k], x, b[k + 1..]);
    }
  }

  /** A rounded unit cost is the nearest whole number of won, upwards in the middle, and no other
      number is. */
  lemma NearestCost(cost: int, n: int, d: int)
    requires cost >= 0 && n > 0
    ensures d == Quot(cost + n / 2, n) <==> -n < 2 * (d * n - cost) <= n
  {
    var x := cost + n / 2;
    QuotientBounds(x, n, d);
    assert (d + 1) * n == d * n + n;
  }

  /** The two rounded costs on the screen are such: the unit cost of a purchase and the average of
      an item; nothing bought has no unit cost. */
  lemma UnitCostsAreNearest(p: Purchase, ps: seq<Purchase>, d: int)
    requires ValidPurchase(p) && AllValid(ps) && ps != []
    ensures d == UnitCostOf(p) <==> -p.qty < 2 * (d * p.qty - (Pieces(p.unitPriceKrw, p.qty) + p.shippingKrw)) <= p.qty
    ensures Bought(ps) > 0
    ensures d == AverageCost(Spent(ps), Bought(ps)) <==>
            -Bought(ps) < 2 * (d * Bought(ps) - (Goods(ps) + Shipping(ps))) <= Bought(ps)
    ensures forall price, qty, shipping :: qty <= 0 ==> UnitCost(price, qty, shipping) == 0
  {
    CostIsNatural(p);
    SumsAreNatural(ps);
    CostIsPiecesAndShipping(p.unitPriceKrw, p.qty, p.shippingKrw);
    SpentIsGoodsAndShipping(ps);
    NearestCost(CostOf(p), p.qty, d);
    NearestCost(Spent(ps), Bought(ps), d);
  }

  // ----- the mediant bound -----

  // A quotient is at most m exactly when the numerator stays below (m + 1) divisors.
  lemma QuotientBounds(x: int, q: int, m: int)
    requires x >= 0 && q > 0
    ensures x / q <= m <==> x < (m + 1) * q
    ensures m <= x / q <==> m * q <= x
  {
    var d, r := x / q, x % q;
    assert x == q * d + r && 0 <= r < q;
    if d <= m {
      MulMonotone(d + 1, m + 1, q);
    } else {
      MulMonotone(m + 1, d, q);
    }
    if m <= d {
      MulMonotone(m, d, q);
    } else {
      MulMonotone(d + 1, m, q);
    }
  }

  lemma MulMonotone(a: int, b: int, q: int)
    requires a <= b && q >= 0
    ensures a * q <= b * q
  {
  }

  // Both bounds in a form that adds up over purchases.
  predicate Bounded(spent: int, bought: int, lo: int, hi: int) {
    lo * bought <= spent + bought / 2 < (hi + 1) * bought
  }

  lemma UnitBounds(p: Purchase, lo: int, hi: int)
    requires ValidPurchase(p) && lo <= UnitCostOf(p) <= hi
    ensures Bounded(CostOf(p), p.qty, lo, hi)
  {
    CostIsNatural(p);
    QuotientBounds(CostOf(p) + p.qty / 2, p.qty, lo);
    QuotientBounds(CostOf(p) + p.qty / 2, p.qty, hi);
  }

  lemma Distribute(a: int, b: int, k: int)
    ensures k * (a + b) == k * a + k * b
  {
  }

  lemma BoundsAdd(s: int, b: int, t: int, c: int, lo: int, hi: int)
    requires Bounded(s, b, lo, hi) && Bounded(t, c, lo, hi)
    ensures Bounded(s + t, b + c, lo, hi)
  {
    Distribute(b, c, lo);
    Distribute(b, c, hi + 1);
    HalvesAdd(b, c);
  }

  lemma HalvesAdd(b: int, c: int)
    ensures b / 2 + c / 2 <= (b + c) / 2 <= b / 2 + c / 2 + 1
  {
  }

  lemma {:induction false} SumBounds(ps: seq<Purchase>, lo: int, hi: int)
    requires AllValid(ps) && ps != []
    requires forall i :: 0 <= i < |ps| ==> lo <= UnitCostOf(ps[i]) <= hi
    ensures Bounded(Spent(ps), Bought(ps), lo, hi)
  {
    var init, p := ps[..|ps| - 1], ps[|ps| - 1];
    UnitBounds(p, lo, hi);
    if init != [] {
      SumBounds(init, lo, hi);
      BoundsAdd(Spent(init), Bought(init), CostOf(p), p.qty, lo, hi);
    }
  }

  /** The weighted average survives every rounding: it lies between any bounds that hold of all
      the rounded unit costs. */
  lemma AverageWithinBounds(ps: seq<Purchase>, lo: int, hi: int)
    requires AllValid(ps) && ps != []
    requires forall i :: 0 <= i < |ps| ==> lo <= UnitCostOf(ps[i]) <= hi
    ensures Bought(ps) > 0 && lo <= AverageCost(Spent(ps), Bought(ps)) <= hi
  {
    SumsAreNatural(ps);
    SumBounds(ps, lo, hi);
    QuotientBounds(Spent(ps) + Bought(ps) / 2, Bought(ps), lo);
    QuotientBounds(Spent(ps) + Bought(ps) / 2, Bought(ps), hi);
  }

  lemma {:induction false} Extremes(ps: seq<Purchase>) returns (i: nat, j: nat)
    requires ps != []
    ensures i < |ps| && j < |ps|
    ensures forall k :: 0 <= k < |ps| ==> UnitCostOf(ps[i]) <= UnitCostOf(ps[k]) <= UnitCostOf(ps[j])
  {
    var n := |ps| - 1;
    i, j := n, n;
    if n > 0 {
      var a, b := Extremes(ps[..n]);
      assert forall k :: 0 <= k < n ==> ps[..n][k] == ps[k];
      if UnitCostOf(ps[a]) < UnitCostOf(ps[n]) {
        i := a;
      }
      if UnitCostOf(ps[b]) > UnitCostOf(ps[n]) {
        j := b;
      }
    }
  }

  /** An item's average lies between the smallest and the largest rounded unit cost among its
      purchases, for every non-empty list. */
  lemma Mediant(ps: seq<Purchase>)
    requires AllValid(ps) && ps != []
    ensures Bought(ps) > 0
    ensures exists i, j :: 0 <= i < |ps| && 0 <= j < |ps|
                           && UnitCostOf(ps[i]) <= AverageCost(Spent(ps), Bought(ps)) <= UnitCostOf(ps[j])
  {
    var i, j := Extremes(ps);
    AverageWithinBounds(ps, UnitCostOf(ps[i]), UnitCostOf(ps[j]));
  }

  // ----- stock value -----

  lemma QuotientMonotone(x: int, y: int, q: int)
    requires 0 <= x <= y && q > 0
    ensures x / q <= y / q
  {
    QuotientBounds(x, q, x / q);
    QuotientBounds(y, q, x / q);
  }

  lemma MulNatural(a: int, b: int)
    requires a >= 0 && b >= 0
    ensures a * b >= 0
  {
  }

  /** More stock is never worth less. */
  lemma ValueMonotone(spent: int, bought: int, a: int, b: int)
    requires spent >= 0 && bought > 0 && a <= b
    ensures StockValue(spent, bought, a) <= StockValue(spent, bought, b)
  {
    if a > 0 {
      MulNatural(spent, a);
      MulMonotone(a, b, spent);
      QuotientMonotone(spent * a + bought / 2, spent * b + bought / 2, bought);
    } else if b > 0 {
      MulNatural(spent, b);
      QuotientBounds(spent * b + bought / 2, bought, 0);
    }
  }

  /** The value is the exact proportion of the money spent, to within half a won: twice the error
      times the quantity bought is at most the quantity bought. */
  lemma ValueWithinHalf(spent: int, bought: int, onHand: int)
    requires spent >= 0 && bought > 0 && onHand > 0
    ensures -bought <= 2 * (StockValue(spent, bought, onHand) * bought - spent * onHand) <= bought
  {
    MulNatural(spent, onHand);
    var x := spent * onHand + bought / 2;
    var d := x / bought;
    assert x == bought * d + x % bought;
    assert d * bought == bought * d;
  }

  lemma WholeStock(spent: int, bought: int)
    requires spent >= 0 && bought > 0
    ensures StockValue(spent, bought, bought) == spent
  {
    MulNatural(spent, bought);
    QuotientBounds(spent * bought + bought / 2, bought, spent);
    assert (spent + 1) * bought == spent * bought + bought;
  }

  /** Unsold stock is worth exactly what was paid for it, and no stock within what was bought is
      worth more. */
  lemma ValueAtMostSpent(spent: int, bought: int, onHand: int)
    requires spent >= 0 && bought > 0 && onHand <= bought
    ensures StockValue(spent, bought, onHand) <= spent
    ensures onHand == bought ==> StockValue(spent, bought, onHand) == spent
  {
    WholeStock(spent, bought);
    ValueMonotone(spent, bought, onHand, bought);
  }
}
