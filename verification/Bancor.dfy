/** The Bancor connector: a two-step integer price against a reserve.  Token amounts are naturals and
    division rounds down. */
module Bancor {

  datatype Terms = Terms(weight: nat, base: nat)   // Weight and Base, template parameters

  const DEFAULT_TERMS := Terms(500000, 1000000)

  /** `(reserve * Base) / (Weight * supply)` */
  function Price(t: Terms, reserve: nat, supply: nat): nat
    requires t.weight > 0 && supply > 0
  {
    Positive(t.weight, supply);
    reserve * t.base / (t.weight * supply)
  }

  lemma {:induction false} Positive(a: nat, b: nat)
    requires a > 0 && b > 0
    ensures a * b > 0
  {}

  /** A sale of `x` converter tokens that the arithmetic of the source can carry out: something is
      left of the supply, and the first estimate does not exceed the reserve. */
  ghost predicate CanSell(t: Terms, reserve: nat, supply: nat, x: nat) {
    t.weight > 0 && x < supply && Price(t, reserve, supply) * x <= reserve
  }

  function SaleOutput(t: Terms, reserve: nat, supply: nat, x: nat): nat
    requires CanSell(t, reserve, supply, x)
  {
    Price(t, reserve - Price(t, reserve, supply) * x, supply - x) * x
  }

  function PurchaseOutput(t: Terms, reserve: nat, supply: nat, x: nat): nat
    requires t.weight > 0 && x <= reserve && supply > 0
  {
    Price(t, reserve, supply + Price(t, reserve - x, supply) * x) * x
  }

  /** A purchase whose tokens can be sold again at once. */
  ghost predicate CanConvert(t: Terms, reserve: nat, supply: nat, x: nat) {
    && t.weight > 0 && x <= reserve && supply > 0
    && var bought := PurchaseOutput(t, reserve, supply, x);
       CanSell(t, reserve, supply + bought, bought)
  }

  function ThroughOutput(t: Terms, reserve: nat, supply: nat, x: nat): nat
    requires CanConvert(t, reserve, supply, x)
  {
    var bought := PurchaseOutput(t, reserve, supply, x);
    SaleOutput(t, reserve, supply + bought, bought)
  }

  class Converter {
    var supply: nat
    var balance: nat
    const terms: Terms

    constructor (terms: Terms, supply: nat, balance: nat)
      ensures this.terms == terms && this.supply == supply && this.balance == balance
    {
      this.terms, this.supply, this.balance := terms, supply, balance;
    }

    /** `convert_to_converter`; `reserve` already contains the payment. */
    method ConvertTo(paid: nat, reserve: nat) returns (out: nat)
      requires terms.weight > 0 && paid <= reserve && supply > 0
      modifies this
      ensures out == PurchaseOutput(terms, reserve, old(supply), paid)
      ensures supply == old(supply) + out && balance == old(balance) + out
    {
      var previous := reserve - paid;
      var initPrice := Price(terms, previous, supply);
      var initOut := initPrice * paid;
      var outPrice := Price(terms, reserve, supply + initOut);
      out := outPrice * paid;
      balance := balance + out;
      supply := supply + out;
    }

    /** `convert_from_converter` */
    method ConvertFrom(x: nat, reserve: nat) returns (out: nat)
      requires CanSell(terms, reserve, supply, x) && x <= balance
      modifies this
      ensures out == SaleOutput(terms, reserve, old(supply), x)
      ensures supply == old(supply) - x && balance == old(balance) - x
    {
      var initPrice := Price(terms, reserve, supply);
      var initOut := initPrice * x;
      supply := supply - x;
      balance := balance - x;
      var outPrice := Price(terms, reserve - initOut, supply);
      out := outPrice * x;
    }

    /** `on_convert` from one currency towards another: bought converter tokens are sold at once, and
        the converter is left as it was. */
    method ConvertThrough(paid: nat, reserve: nat) returns (out: nat)
      requires CanConvert(terms, reserve, supply, paid)
      modifies this
      ensures supply == old(supply) && balance == old(balance)
      ensures out == ThroughOutput(terms, reserve, old(supply), paid)
    {
      var bought := ConvertTo(paid, reserve);
      out := ConvertFrom(bought, reserve);
    }
  }

  // ----- what a sale can pay out

  lemma {:induction false} PriceBounds(t: Terms, reserve: nat, supply: nat)
    requires t.weight > 0 && supply > 0
    ensures var p, unit := Price(t, reserve, supply), t.weight * supply;
            p * unit <= reserve * t.base < (p + 1) * unit
  {
    var unit := t.weight * supply;
    Positive(t.weight, supply);
    var a := reserve * t.base;
    DivBounds(a, unit);
  }

  lemma {:induction false} DivBounds(a: nat, b: nat)
    requires b > 0
    ensures (a / b) * b <= a < (a / b + 1) * b
  {
    assert a == (a / b) * b + a % b;
    assert (a / b + 1) * b == (a / b) * b + b;
  }

  lemma {:induction false} Scale(a: int, b: int, c: nat)
    requires a <= b
    ensures a * c <= b * c
  {
    assert b * c - a * c == (b - a) * c;
    Product(b - a, c);
  }

  lemma {:induction false} Product(a: nat, b: nat)
    ensures a * b >= 0
  {}

  lemma {:induction false} PriceBelow(t: Terms, reserve: nat, supply: nat, p: nat)
    requires t.weight > 0 && supply > 0
    ensures Price(t, reserve, supply) <= p <==> reserve * t.base < (p + 1) * (t.weight * supply)
  {
    var q, unit := Price(t, reserve, supply), t.weight * supply;
    PriceBounds(t, reserve, supply);
    hide Price;
    if q <= p { Scale(q + 1, p + 1, unit); } else { Scale(p + 1, q, unit); }
  }

  /** The threshold on the first price: rounding down loses at most one unit of price, and this is
      when the reserve share it releases makes up for it. */
  ghost predicate Covered(t: Terms, p: nat) {
    (p + 1) * t.weight <= p * t.base
  }

  /** The second price does not exceed the first one, so the payout is covered by the estimate and
      the estimate by the reserve. */
  lemma {:induction false} SaleBound(t: Terms, reserve: nat, supply: nat, x: nat)
    requires CanSell(t, reserve, supply, x) && Covered(t, Price(t, reserve, supply))
    ensures SaleOutput(t, reserve, supply, x) <= Price(t, reserve, supply) * x <= reserve
  {
    hide Price;
    var p := Price(t, reserve, supply);
    PriceBounds(t, reserve, supply);
    SaleAlgebra(t.weight, t.base, reserve, supply, x, p);
    PriceBelow(t, reserve - p * x, supply - x, p);
    Scale(Price(t, reserve - p * x, supply - x), p, x);
  }

  lemma {:induction false} SaleAlgebra(w: nat, base: nat, b: nat, s: nat, x: nat, p: nat)
    requires x < s && b * base < (p + 1) * (w * s) && (p + 1) * w <= p * base && p * x <= b
    ensures (b - p * x) * base < (p + 1) * (w * (s - x))
  {
    var k := (p + 1) * w;
    assert (p + 1) * (w * s) == k * s && (p + 1) * (w * (s - x)) == k * (s - x);
    assert k * (s - x) == k * s - k * x;
    assert (b - p * x) * base == b * base - p * x * base;
    assert p * x * base == (p * base) * x;
    Scale(k, p * base, x);
  }

  /** At the default half weight a first price of at least one is enough, and selling at most half
      of the supply keeps the estimate within the reserve. */
  lemma {:induction false} DefaultSaleBound(reserve: nat, supply: nat, x: nat)
    requires supply > 0 && 2 * x <= supply && Price(DEFAULT_TERMS, reserve, supply) >= 1
    ensures CanSell(DEFAULT_TERMS, reserve, supply, x)
    ensures SaleOutput(DEFAULT_TERMS, reserve, supply, x) <= Price(DEFAULT_TERMS, reserve, supply) * x <= reserve
  {
    hide Price;
    var p := Price(DEFAULT_TERMS, reserve, supply);
    PriceBounds(DEFAULT_TERMS, reserve, supply);
    assert p * (500000 * supply) == 500000 * (p * supply);
    Scale(2 * x, supply, p);
    SaleBound(DEFAULT_TERMS, reserve, supply, x);
  }

  /** The threshold is exact: at a first price below it, some sale pays out more than the estimate. */
  lemma {:induction false} SaleBoundExactly(t: Terms, p: nat)
    requires t.weight > 0 && t.base > 0
    ensures Covered(t, p) <==>
      forall reserve: nat, supply: nat, x: nat ::
        CanSell(t, reserve, supply, x) && Price(t, reserve, supply) == p ==> SaleOutput(t, reserve, supply, x) <= p * x
  {
    hide Price, SaleOutput;
    if Covered(t, p) {
      forall reserve: nat, supply: nat, x: nat | CanSell(t, reserve, supply, x) && Price(t, reserve, supply) == p
        ensures SaleOutput(t, reserve, supply, x) <= p * x
      {
        SaleBound(t, reserve, supply, x);
      }
    } else {
      var reserve, supply, x := Overpays(t, p);
      assert CanSell(t, reserve, supply, x);
    }
  }

  /** A state and a sale that overpay: all but one of the supply, when the price was rounded down by
      almost a whole unit. */
  lemma {:induction false} Overpays(t: Terms, p: nat) returns (reserve: nat, supply: nat, x: nat)
    requires t.weight > 0 && t.base > 0 && !Covered(t, p)
    ensures CanSell(t, reserve, supply, x) && Price(t, reserve, supply) == p
        && SaleOutput(t, reserve, supply, x) > p * x
  {
    var w, base, k := t.weight, t.base, (p + 1) * t.weight;
    Scale(1, p + 1, w);
    supply := k + base;
    x := supply - 1;
    Scale(1, k, supply);
    reserve := (k * supply - 1) / base;
    DivBounds(k * supply - 1, base);
    assert (reserve + 1) * base == reserve * base + base;
    hide Price;
    RoundedDown(t, p, reserve, supply);
    WithinReserve(k, base, p, supply, reserve);
    LastUnit(k, base, p, supply, reserve);
    assert (p + 1) * (w * 1) == k;
    PriceBelow(t, reserve - p * x, 1, p);
    Scale(p + 1, Price(t, reserve - p * x, 1), x);
    assert (p + 1) * x == p * x + x;
  }

  lemma {:induction false} RoundedDown(t: Terms, p: nat, reserve: nat, supply: nat)
    requires t.weight > 0 && supply > 0 && supply >= t.base
    requires var k := (p + 1) * t.weight; k * supply - t.base <= reserve * t.base < k * supply
    ensures Price(t, reserve, supply) == p
  {
    hide Price;
    var w, k := t.weight, (p + 1) * t.weight;
    assert (p + 1) * (w * supply) == k * supply;
    PriceBelow(t, reserve, supply, p);
    if p > 0 {
      assert p * (w * supply) == k * supply - w * supply;
      Scale(1, w, supply);
      PriceBelow(t, reserve, supply, p - 1);
    }
  }

  lemma {:induction false} WithinReserve(k: nat, base: nat, p: nat, supply: nat, reserve: nat)
    requires p * base < k && supply == k + base && k * supply - base <= reserve * base
    ensures p * (supply - 1) <= reserve
  {
    var x := supply - 1;
    assert (reserve + 1) * base == reserve * base + base;
    assert (p * x) * base == (p * base) * x;
    assert (k - 1) * x == k * supply - k - x;
    Scale(p * base, k - 1, x);
    if p * x > reserve {
      Scale(reserve + 1, p * x, base);
    }
  }

  lemma {:induction false} LastUnit(k: nat, base: nat, p: nat, supply: nat, reserve: nat)
    requires p * base < k && supply == k + base && k * supply - base <= reserve * base && p * (supply - 1) <= reserve
    ensures (reserve - p * (supply - 1)) * base >= k
  {
    var x := supply - 1;
    assert (reserve - p * x) * base == reserve * base - (p * x) * base;
    assert (p * x) * base == (p * base) * x;
    Scale(p * base, k - 1, x);
    assert (k - 1) * x == k * supply - k - x;
  }

  // ----- what a purchase can pay out

  /** The threshold on the first price for purchases. */
  ghost predicate PurchaseCovered(t: Terms, p: nat) {
    t.base <= p * ((p + 1) * t.weight)
  }

  /** The second price does not exceed the first one, so no more is issued than first estimated. */
  lemma {:induction false} PurchaseBound(t: Terms, reserve: nat, supply: nat, x: nat)
    requires t.weight > 0 && x <= reserve && supply > 0 && PurchaseCovered(t, Price(t, reserve - x, supply))
    ensures PurchaseOutput(t, reserve, supply, x) <= Price(t, reserve - x, supply) * x
  {
    hide Price;
    var p := Price(t, reserve - x, supply);
    PriceBounds(t, reserve - x, supply);
    var k := (p + 1) * t.weight;
    assert (p + 1) * (t.weight * supply) == k * supply
        && (p + 1) * (t.weight * (supply + p * x)) == k * (supply + p * x);
    PurchaseAlgebra(k, t.base, reserve - x, supply, x, p);
    PriceBelow(t, reserve, supply + p * x, p);
    Scale(Price(t, reserve, supply + p * x), p, x);
  }

  lemma {:induction false} PurchaseAlgebra(k: nat, base: nat, b: nat, s: nat, x: nat, p: nat)
    requires b * base < k * s && base <= p * k
    ensures (b + x) * base < k * (s + p * x)
  {
    Expand(k, base, b, s, x, p);
    Scale(base, p * k, x);
  }

  lemma {:induction false} Expand(k: nat, base: nat, b: nat, s: nat, x: nat, p: nat)
    ensures (b + x) * base == b * base + base * x
    ensures k * (s + p * x) == k * s + (p * k) * x
  {
    assert k * (s + p * x) == k * s + k * (p * x);
    assert k * (p * x) == (p * k) * x;
  }

  /** That threshold is exact too. */
  lemma {:induction false} PurchaseBoundExactly(t: Terms, p: nat)
    requires t.weight > 0 && t.base > 0
    ensures PurchaseCovered(t, p) <==>
      forall reserve: nat, supply: nat, x: nat ::
        x <= reserve && supply > 0 && Price(t, reserve - x, supply) == p ==>
          PurchaseOutput(t, reserve, supply, x) <= p * x
  {
    hide Price, PurchaseOutput;
    if PurchaseCovered(t, p) {
      forall reserve: nat, supply: nat, x: nat | x <= reserve && supply > 0 && Price(t, reserve - x, supply) == p
        ensures PurchaseOutput(t, reserve, supply, x) <= p * x
      {
        PurchaseBound(t, reserve, supply, x);
      }
    } else {
      var reserve, supply, x := Overissues(t, p);
      assert PurchaseOutput(t, reserve, supply, x) > p * x;
    }
  }

  lemma {:induction false} Overissues(t: Terms, p: nat) returns (reserve: nat, supply: nat, x: nat)
    requires t.weight > 0 && t.base > 0 && !PurchaseCovered(t, p)
    ensures x <= reserve && supply > 0 && Price(t, reserve - x, supply) == p
    ensures PurchaseOutput(t, reserve, supply, x) > p * x
  {
    var w, base, k := t.weight, t.base, (p + 1) * t.weight;
    supply, x := base, base;
    Scale(1, p + 1, w);
    Scale(1, k, supply);
    var b := (k * supply - 1) / base;
    DivBounds(k * supply - 1, base);
    assert (b + 1) * base == b * base + base;
    hide Price;
    RoundedDown(t, p, b, supply);
    reserve := b + x;
    OverissueAlgebra(k, base, b, supply, x, p);
    assert (p + 1) * (w * (supply + p * x)) == k * (supply + p * x);
    PriceBelow(t, reserve, supply + p * x, p);
    Scale(p + 1, Price(t, reserve, supply + p * x), x);
    assert (p + 1) * x == p * x + x;
  }

  lemma {:induction false} OverissueAlgebra(k: nat, base: nat, b: nat, s: nat, x: nat, p: nat)
    requires k * s - base <= b * base && p * k < base && x == base
    ensures (b + x) * base >= k * (s + p * x)
  {
    Expand(k, base, b, s, x, p);
    Scale(p * k + 1, base, x);
    assert (p * k + 1) * x == (p * k) * x + x;
  }

  // ----- what converting through can pay out

  /** At the default terms, one token buys 16 converter tokens, and these sell for 224. */
  lemma {:induction false} ThroughMultiplies()
    ensures PurchaseOutput(DEFAULT_TERMS, 1001, 100, 1) == 16
    ensures CanConvert(DEFAULT_TERMS, 1001, 100, 1) && ThroughOutput(DEFAULT_TERMS, 1001, 100, 1) == 224
  {
    assert Price(DEFAULT_TERMS, 1000, 100) == 20 && Price(DEFAULT_TERMS, 1001, 120) == 16;
    assert Price(DEFAULT_TERMS, 1001, 116) == 17 && Price(DEFAULT_TERMS, 729, 100) == 14;
  }

  lemma {:induction false} PriceIs(t: Terms, reserve: nat, supply: nat, p: nat)
    requires t.weight > 0 && supply > 0
    requires var unit := t.weight * supply; p * unit <= reserve * t.base < (p + 1) * unit
    ensures Price(t, reserve, supply) == p
  {
    hide Price;
    PriceBelow(t, reserve, supply, p);
    if p > 0 { PriceBelow(t, reserve, supply, p - 1); }
  }

  /** A smaller reserve or a larger supply lowers the price. */
  lemma {:induction false} PriceMonotone(t: Terms, reserve: nat, supply: nat, reserve': nat, supply': nat)
    requires t.weight > 0 && 0 < supply <= supply' && reserve' <= reserve
    ensures Price(t, reserve', supply') <= Price(t, reserve, supply)
  {
    hide Price;
    var p, w := Price(t, reserve, supply), t.weight;
    PriceBounds(t, reserve, supply);
    Scale(reserve', reserve, t.base);
    assert (p + 1) * (w * supply) == supply * ((p + 1) * w) && (p + 1) * (w * supply') == supply' * ((p + 1) * w);
    Scale(supply, supply', (p + 1) * w);
    PriceBelow(t, reserve', supply', p);
  }

  /** With the payment in the reserve at a price of at most one, no more comes back than was paid. */
  lemma {:induction false} ThroughBound(t: Terms, reserve: nat, supply: nat, x: nat)
    ensures CanConvert(t, reserve, supply, x) && Price(t, reserve, supply) <= 1 ==>
              ThroughOutput(t, reserve, supply, x) <= x
  {
    hide Price;
    if CanConvert(t, reserve, supply, x) && Price(t, reserve, supply) <= 1 {
      var more := Price(t, reserve - x, supply) * x;
      var p := Price(t, reserve, supply + more);
      PriceMonotone(t, reserve, supply, reserve, supply + more);
      Scale(p, 1, x);
      var bought := p * x;
      var left := reserve - Price(t, reserve, supply + bought) * bought;
      PriceMonotone(t, reserve, supply, left, supply);
      Scale(Price(t, left, supply), 1, bought);
    }
  }

  /** That is exact: at a higher price, paying a single token can bring back the price squared. */
  lemma {:induction false} ThroughBoundExactly(t: Terms, p: nat)
    requires t.weight > 0 && t.base > 0
    ensures p <= 1 <==>
      forall reserve: nat, supply: nat, x: nat ::
        CanConvert(t, reserve, supply, x) && Price(t, reserve, supply) == p ==>
          ThroughOutput(t, reserve, supply, x) <= x
  {
    hide Price, ThroughOutput;
    if p <= 1 {
      forall reserve: nat, supply: nat, x: nat | CanConvert(t, reserve, supply, x) && Price(t, reserve, supply) == p
        ensures ThroughOutput(t, reserve, supply, x) <= x
      {
        ThroughBound(t, reserve, supply, x);
      }
    } else {
      var reserve, supply := Multiplies(t, p);
      Scale(2, p, p);
      assert ThroughOutput(t, reserve, supply, 1) > 1;
    }
  }

  /** A reserve so much above `p` that none of the four roundings falls below it. */
  lemma {:induction false} Multiplies(t: Terms, p: nat) returns (reserve: nat, supply: nat)
    requires t.weight > 0 && t.base > 0 && p > 0
    ensures CanConvert(t, reserve, supply, 1) && Price(t, reserve, supply) == p
    ensures ThroughOutput(t, reserve, supply, 1) == p * p
  {
    var q := p * p;
    Scale(1, p, p);
    supply, reserve := (q + 1) * t.base, (p * (q + 1) + q) * t.weight;
    Scale(1, q + 1, t.base);
    Scale(1, p * (q + 1) + q, t.weight);
    Scale(q, p * (q + 1) + q, t.weight);
    Scale(1, t.weight, q);
    Roundings(t, p, q, reserve, supply);
    hide Price;
    assert Price(t, reserve, supply + p * 1) * 1 == p;
    assert Price(t, reserve - p * p, supply) * p == p * p;
  }

  lemma {:induction false} Roundings(t: Terms, p: nat, q: nat, reserve: nat, supply: nat)
    requires t.weight > 0 && t.base > 0 && q == p * p && 0 < q <= reserve
    requires supply == (q + 1) * t.base && supply > 0 && reserve == (p * (q + 1) + q) * t.weight
    ensures Price(t, reserve, supply) == Price(t, reserve - 1, supply) == Price(t, reserve - q, supply) == p
    ensures Price(t, reserve, supply + p) == p
  {
    hide Price;
    var w, b := t.weight, t.base;
    var spare := w * (q * b);
    Worth(w, b, p, q);
    Scale(1, w, q * b);
    Scale(1, b, q * w);
    Scale(1, q, b);
    Positive(w, b);
    Release(t, p, reserve, supply, spare, 0);
    Release(t, p, reserve, supply, spare, 1);
    Release(t, p, reserve, supply, spare, q);
    WorthMore(w, p, q, supply);
    assert (p + 1) * (w * supply) == p * (w * supply) + w * supply;
    PriceIs(t, reserve, supply + p, p);
  }

  /** Taking `c` out of a reserve that has `spare` above the price. */
  lemma {:induction false} Release(t: Terms, p: nat, reserve: nat, supply: nat, spare: nat, c: nat)
    requires t.weight > 0 && supply > 0 && c <= reserve && c * t.base <= spare < t.weight * supply
    requires reserve * t.base == p * (t.weight * supply) + spare
    ensures Price(t, reserve - c, supply) == p
  {
    hide Price;
    assert (p + 1) * (t.weight * supply) == p * (t.weight * supply) + t.weight * supply;
    assert (reserve - c) * t.base == reserve * t.base - c * t.base;
    Product(c, t.base);
    PriceIs(t, reserve - c, supply, p);
  }

  lemma {:induction false} Worth(w: nat, b: nat, p: nat, q: nat)
    ensures (p * (q + 1) + q) * w * b == p * (w * ((q + 1) * b)) + w * (q * b)
    ensures w * ((q + 1) * b) == w * (q * b) + w * b
    ensures w * (q * b) == b * (q * w)
  {
    var c := (q + 1) * b;
    assert c == q * b + b;
    assert (p * (q + 1) + q) * w * b == p * (q + 1) * w * b + q * w * b by {
      assert (p * (q + 1) + q) * w == p * (q + 1) * w + q * w;
    }
    assert p * (q + 1) * w * b == p * (w * c);
  }

  lemma {:induction false} WorthMore(w: nat, p: nat, q: nat, supply: nat)
    requires q == p * p
    ensures p * (w * (supply + p)) == p * (w * supply) + q * w
    ensures (p + 1) * (w * supply) <= (p + 1) * (w * (supply + p))
  {
    assert w * (supply + p) == w * supply + w * p;
    assert p * (w * p) == q * w;
    Product(w, p);
    Scale(w * supply, w * (supply + p), p + 1);
  }
}
