/**
 * The USD-pivot conversion `exchange` of src/exchangeApi.ts, over reals.
 * The rate table maps a currency code to the number of its units one US
 * dollar buys. Where JavaScript would produce NaN (a missing rate) or an
 * infinity (a zero divisor) the model returns `None`.
 */
module ExchangeApi {
  import opened Wrappers

  type Rates = map<string, real>

  const Usd: string := "usd"

  /** `code` has a rate that can be divided by. */
  predicate Divisible(rates: Rates, code: string) {
    code in rates && rates[code] != 0.0
  }

  /**
   * exchange, with its three branches in the source's order: to USD divides,
   * from USD multiplies, anything else divides then multiplies. USD to USD
   * takes the first branch.
   */
  function Exchange(quantity: real, from: string, to: string, rates: Rates): (r: Option<real>)
    ensures to == Usd ==> (r.Some? <==> Divisible(rates, from))
    ensures to != Usd && from == Usd ==> (r.Some? <==> to in rates)
    ensures to != Usd && from != Usd ==> (r.Some? <==> Divisible(rates, from) && to in rates)
  {
    if to == Usd then
      if Divisible(rates, from) then Some(quantity / rates[from]) else None
    else if from == Usd then
      if to in rates then Some(quantity * rates[to]) else None
    else if Divisible(rates, from) && to in rates then
      Some((quantity / rates[from]) * rates[to])
    else None
  }

  /** The amount in US dollars: USD itself as is, any other currency divided by its rate. */
  function ToUsd(quantity: real, code: string, rates: Rates): real
    requires code == Usd || Divisible(rates, code)
  {
    if code == Usd then quantity else quantity / rates[code]
  }

  /** A dollar amount in `code`: USD itself as is, any other currency multiplied by its rate. */
  function FromUsd(dollars: real, code: string, rates: Rates): real
    requires code == Usd || code in rates
  {
    if code == Usd then dollars else dollars * rates[code]
  }

  /**
   * Apart from USD to USD, exchange is the pivot through the dollar: convert
   * to dollars, then from dollars. USD to USD divides by the dollar's own rate.
   */
  lemma ExchangeIsUsdPivot(quantity: real, from: string, to: string, rates: Rates)
    requires Exchange(quantity, from, to, rates).Some?
    ensures !(from == Usd && to == Usd) ==>
      Exchange(quantity, from, to, rates).value == FromUsd(ToUsd(quantity, from, rates), to, rates)
    ensures from == Usd && to == Usd ==>
      Exchange(quantity, from, to, rates).value == quantity / rates[Usd]
  {
  }

  /** Every rate in the table can be divided by. */
  predicate NonZeroRates(rates: Rates) {
    forall c :: c in rates ==> rates[c] != 0.0
  }

  lemma MulDivCancel(x: real, q: real, r: real)
    requires r != 0.0 && x == q / r
    ensures x * r == q
  {
  }

  lemma DivMulCancel(x: real, q: real, r: real)
    requires r != 0.0 && x == q * r
    ensures x / r == q
  {
  }

  lemma DivisorOfFixedPoint(q: real, r: real)
    requires q != 0.0 && r != 0.0 && q / r == q
    ensures r == 1.0
  {
    MulDivCancel(q, q, r);
    assert q * (r - 1.0) == 0.0;
  }

  lemma ScaleDiv(c: real, q: real, r: real)
    requires r != 0.0
    ensures (c * q) / r == c * (q / r)
  {
  }

  lemma ScaleMul(c: real, q: real, r: real)
    ensures (c * q) * r == c * (q * r)
  {
  }

  lemma ExchangeToUsdValue(quantity: real, a: string, usd: string, rates: Rates)
    requires usd == Usd && Divisible(rates, a)
    ensures Exchange(quantity, a, usd, rates) == Some(quantity / rates[a])
  {
  }

  lemma ExchangeFromUsdValue(quantity: real, usd: string, b: string, rates: Rates)
    requires usd == Usd && b != Usd && b in rates
    ensures Exchange(quantity, usd, b, rates) == Some(quantity * rates[b])
  {
  }

  lemma ExchangeCrossValue(quantity: real, a: string, b: string, rates: Rates)
    requires a != Usd && b != Usd && Divisible(rates, a) && b in rates
    ensures Exchange(quantity, a, b, rates) == Some((quantity / rates[a]) * rates[b])
  {
  }

  lemma ToUsdAndBack(quantity: real, a: string, b: string, rates: Rates)
    requires a != Usd && b == Usd && Divisible(rates, a)
    ensures Exchange(quantity, a, b, rates).Some?
    ensures Exchange(Exchange(quantity, a, b, rates).value, b, a, rates) == Some(quantity)
  {
    var v := Exchange(quantity, a, b, rates).value;
    ExchangeToUsdValue(quantity, a, b, rates);
    assert v == quantity / rates[a];
    ExchangeFromUsdValue(v, b, a, rates);
    assert Exchange(v, b, a, rates) == Some(v * rates[a]);
    MulDivCancel(v, quantity, rates[a]);
    assert v * rates[a] == quantity;
  }

  lemma FromUsdAndBack(quantity: real, a: string, b: string, rates: Rates)
    requires a == Usd && b != Usd && Divisible(rates, b)
    ensures Exchange(quantity, a, b, rates).Some?
    ensures Exchange(Exchange(quantity, a, b, rates).value, b, a, rates) == Some(quantity)
  {
    var v := Exchange(quantity, a, b, rates).value;
    ExchangeFromUsdValue(quantity, a, b, rates);
    assert v == quantity * rates[b];
    ExchangeToUsdValue(v, b, a, rates);
    assert Exchange(v, b, a, rates) == Some(v / rates[b]);
    DivMulCancel(v, quantity, rates[b]);
    assert v / rates[b] == quantity;
  }

  lemma CrossAndBack(quantity: real, a: string, b: string, rates: Rates)
    requires a != Usd && b != Usd && Divisible(rates, a) && Divisible(rates, b)
    ensures Exchange(quantity, a, b, rates).Some?
    ensures Exchange(Exchange(quantity, a, b, rates).value, b, a, rates) == Some(quantity)
  {
    var v := Exchange(quantity, a, b, rates).value;
    var y := quantity / rates[a];
    ExchangeCrossValue(quantity, a, b, rates);
    assert v == y * rates[b];
    ExchangeCrossValue(v, b, a, rates);
    assert Exchange(v, b, a, rates) == Some((v / rates[b]) * rates[a]);
    DivMulCancel(v, y, rates[b]);
    assert v / rates[b] == quantity / rates[a];
    MulDivCancel(v / rates[b], quantity, rates[a]);
    assert (v / rates[b]) * rates[a] == quantity;
    assert Exchange(v, b, a, rates) == Some(quantity);
  }

  /**
   * Converting there and back returns the quantity. USD to USD divides by the
   * dollar's own rate twice, so that case needs the rate to be 1.
   */
  lemma ExchangeRoundTrip(quantity: real, a: string, b: string, rates: Rates)
    requires NonZeroRates(rates)
    requires a == Usd && b == Usd && Usd in rates ==> rates[Usd] == 1.0
    requires Exchange(quantity, a, b, rates).Some?
    ensures Exchange(Exchange(quantity, a, b, rates).value, b, a, rates) == Some(quantity)
  {
    if a == Usd && b == Usd {
      ExchangeToUsdValue(quantity, a, b, rates);
      assert quantity / 1.0 == quantity;
    } else if b == Usd {
      ToUsdAndBack(quantity, a, b, rates);
    } else if a == Usd {
      FromUsdAndBack(quantity, a, b, rates);
    } else {
      CrossAndBack(quantity, a, b, rates);
    }
  }

  /** Conversion is linear in the quantity. */
  lemma ExchangeLinear(c: real, quantity: real, from: string, to: string, rates: Rates)
    ensures Exchange(c * quantity, from, to, rates).Some? == Exchange(quantity, from, to, rates).Some?
    ensures Exchange(quantity, from, to, rates).Some? ==>
      Exchange(c * quantity, from, to, rates).value == c * Exchange(quantity, from, to, rates).value
  {
    if Exchange(quantity, from, to, rates).Some? {
      if to == Usd {
        ScaleDiv(c, quantity, rates[from]);
      } else if from == Usd {
        ScaleMul(c, quantity, rates[to]);
      } else {
        var r, s := rates[from], rates[to];
        ScaleDiv(c, quantity, r);
        ScaleMul(c, quantity / r, s);
      }
    }
  }

  /** USD to USD is the identity exactly when the dollar's own rate is 1 (for a non-zero quantity). */
  lemma ExchangeUsdToUsd(quantity: real, rates: Rates)
    requires Divisible(rates, Usd) && quantity != 0.0
    ensures Exchange(quantity, Usd, Usd, rates) == Some(quantity) <==> rates[Usd] == 1.0
  {
    var r := rates[Usd];
    ExchangeToUsdValue(quantity, Usd, Usd, rates);
    if quantity / r == quantity {
      DivisorOfFixedPoint(quantity, r);
    }
  }
}
