/**
 * The currency reference helpers of src/data/currencies.ts: case-insensitive
 * lookup in the currency table, the rounding increment and fraction digits
 * derived from a currency's smallest common denomination, the USD fallback
 * of `formatFromCode`, and the country part of a language tag.
 *
 * The currency table (read from a JSON file) is a parameter. A denomination
 * is kept as the text JavaScript's `toString` gives for it ("0.01", "5").
 */
module Currencies {
  import opened Wrappers
  import opened Strings

  datatype Currency = Currency(
    code: string,
    symbol: string,
    languageCode: string,
    denomination: string)

  /** The fallback currency. */
  const UsdCurrency: Currency := Currency("usd", "$", "en-US", "0.01")

  /** The rounding increments `Intl.NumberFormat` accepts. */
  const RoundingIncrements: seq<nat> :=
    [1, 2, 5, 10, 20, 25, 50, 100, 200, 250, 500, 1000, 2000, 2500, 5000]

  function DigitChar(d: nat): (c: char)
    requires d < 10
    ensures IsDigit(c)
  {
    ('0' as int + d) as char
  }

  /** The decimal text of a natural number, as `toString` writes it. */
  function NatText(n: nat): (r: string)
    ensures |r| >= 1
    ensures forall i :: 0 <= i < |r| ==> IsDigit(r[i])
    ensures |r| >= 2 <==> n >= 10
    ensures r[|r| - 1] == DigitChar(n % 10)
  {
    if n < 10 then [DigitChar(n)] else NatText(n / 10) + [DigitChar(n % 10)]
  }

  /** Different numbers have different texts. */
  lemma {:induction false} NatTextInjective(a: nat, b: nat)
    requires NatText(a) == NatText(b)
    ensures a == b
  {
    if a >= 10 {
      var ta, tb := NatText(a), NatText(b);
      assert ta[..|ta| - 1] == NatText(a / 10);
      assert tb[..|tb| - 1] == NatText(b / 10);
      NatTextInjective(a / 10, b / 10);
    }
  }

  /** The first index at or after `from` whose entry has code `code`. */
  function FindIndexFrom(table: seq<Currency>, code: string, from: nat): (r: Option<nat>)
    ensures r.Some? ==> from <= r.value < |table| && table[r.value].code == code
    ensures forall j :: from <= j < |table| && (r.None? || j < r.value) ==> table[j].code != code
    decreases |table| - from
  {
    if from >= |table| then None
    else if table[from].code == code then Some(from)
    else FindIndexFrom(table, code, from + 1)
  }

  /** findCurrency: the first entry whose code is the lower-cased argument. */
  function FindCurrency(table: seq<Currency>, code: string): (r: Option<Currency>)
    ensures r.Some? ==> r.value in table && r.value.code == Lower(code)
    ensures r.None? <==> forall j :: 0 <= j < |table| ==> table[j].code != Lower(code)
  {
    match FindIndexFrom(table, Lower(code), 0)
    case Some(i) => Some(table[i])
    case None => None
  }

  /** The entry found is the first one with that code. */
  lemma FindCurrencyFirst(table: seq<Currency>, code: string, i: nat)
    requires i < |table| && table[i].code == Lower(code)
    requires forall j :: 0 <= j < i ==> table[j].code != Lower(code)
    ensures FindCurrency(table, code) == Some(table[i])
  {
    var r := FindIndexFrom(table, Lower(code), 0);
    assert r.Some? && r.value == i;
  }

  /** Lookup ignores the case of its argument. */
  lemma FindCurrencyIgnoresCase(table: seq<Currency>, code: string)
    ensures FindCurrency(table, Lower(code)) == FindCurrency(table, code)
  {
    LowerIdempotent(code);
  }

  /** The first of `increments` whose text is `denomination`. */
  function MatchIncrement(increments: seq<nat>, denomination: string): (r: Option<nat>)
    ensures r.Some? ==> r.value in increments && NatText(r.value) == denomination
    ensures r.None? <==> forall k :: k in increments ==> NatText(k) != denomination
  {
    if increments == [] then None
    else if NatText(increments[0]) == denomination then Some(increments[0])
    else MatchIncrement(increments[1..], denomination)
  }

  /** getRoundingIncrement: the denomination when it is an allowed increment, else 1. */
  function RoundingIncrement(c: Currency): (r: nat)
    ensures r in RoundingIncrements
    ensures (exists k :: k in RoundingIncrements && NatText(k) == c.denomination) ==>
      NatText(r) == c.denomination
    ensures (forall k :: k in RoundingIncrements ==> NatText(k) != c.denomination) ==> r == 1
  {
    MatchIncrement(RoundingIncrements, c.denomination).GetOr(1)
  }

  /** A denomination written as an allowed increment is that increment. */
  lemma RoundingIncrementOfIncrement(c: Currency, k: nat)
    requires k in RoundingIncrements && c.denomination == NatText(k)
    ensures RoundingIncrement(c) == k
  {
    NatTextInjective(RoundingIncrement(c), k);
  }

  /** getFractionDigits: the length of the second `.`-separated part of the denomination. */
  function FractionDigits(c: Currency): (n: nat)
    ensures '.' !in c.denomination ==> n == 0
    ensures '.' in c.denomination ==> n == |Before(After(c.denomination, '.'), '.')|
  {
    var parts := Split(c.denomination, '.');
    if |parts| >= 2 then SplitSecond(c.denomination, '.'); |parts[1]| else 0
  }

  /** A denomination `a.b` has as many fraction digits as `b` has characters. */
  lemma FractionDigitsOfDecimal(c: Currency, a: string, b: string)
    requires '.' !in a && '.' !in b && c.denomination == a + "." + b
    ensures FractionDigits(c) == |b|
  {
    BeforeAfterOfJoin(a, '.', b);
    assert Before(b, '.') == b;
  }

  /** The options `formatNumber` hands to `Intl.NumberFormat`. */
  datatype FormatOptions = FormatOptions(
    currency: string,
    roundingIncrement: nat,
    maximumFractionDigits: nat)

  function OptionsFor(c: Currency): (o: FormatOptions)
    ensures o.currency == Upper(c.code)
    ensures o.roundingIncrement in RoundingIncrements
    ensures o.roundingIncrement == RoundingIncrement(c) && o.maximumFractionDigits == FractionDigits(c)
  {
    FormatOptions(Upper(c.code), RoundingIncrement(c), FractionDigits(c))
  }

  /** formatNumber, with the locale formatter `intl` left abstract. */
  function FormatNumber(quantity: real, c: Currency, intl: (real, FormatOptions) -> string): string {
    intl(quantity, OptionsFor(c))
  }

  /** formatFromCode: formats in the currency found for `code`, or in US dollars. */
  function FormatFromCode(quantity: real, code: string, table: seq<Currency>,
                          intl: (real, FormatOptions) -> string): string
  {
    match FindCurrency(table, code)
    case Some(c) => FormatNumber(quantity, c, intl)
    case None => FormatNumber(quantity, UsdCurrency, intl)
  }

  /**
   * An unknown code formats as US dollars; a known one in its own currency,
   * and the lookup ignores case.
   */
  lemma FormatFromCodeFallback(quantity: real, code: string, table: seq<Currency>,
                               intl: (real, FormatOptions) -> string)
    ensures (forall j :: 0 <= j < |table| ==> table[j].code != Lower(code)) ==>
      FormatFromCode(quantity, code, table, intl) == FormatNumber(quantity, UsdCurrency, intl)
    ensures forall i :: (0 <= i < |table| && table[i].code == Lower(code) &&
                         (forall j :: 0 <= j < i ==> table[j].code != Lower(code))) ==>
      FormatFromCode(quantity, code, table, intl) == FormatNumber(quantity, table[i], intl)
    ensures FormatFromCode(quantity, Lower(code), table, intl) == FormatFromCode(quantity, code, table, intl)
  {
    FindCurrencyIgnoresCase(table, code);
    forall i | 0 <= i < |table| && table[i].code == Lower(code) &&
      (forall j :: 0 <= j < i ==> table[j].code != Lower(code))
      ensures FormatFromCode(quantity, code, table, intl) == FormatNumber(quantity, table[i], intl)
    {
      FindCurrencyFirst(table, code, i);
    }
  }

  /** No allowed increment is written "0.01". */
  lemma UsdRoundingIncrement()
    ensures RoundingIncrement(UsdCurrency) == 1
  {
    var d := UsdCurrency.denomination;
    assert !IsDigit(d[1]);
    forall k: nat ensures NatText(k) != d {
      var t := NatText(k);
      assert |t| == |d| ==> IsDigit(t[1]);
    }
  }

  lemma UsdFractionDigits()
    ensures FractionDigits(UsdCurrency) == 2
  {
    FractionDigitsOfDecimal(UsdCurrency, "0", "01");
  }

  /** US dollars round to increments of 1 in their smallest unit and show two fraction digits. */
  lemma UsdOptions()
    ensures OptionsFor(UsdCurrency) == FormatOptions("USD", 1, 2)
  {
    UsdRoundingIncrement();
    UsdFractionDigits();
    UsdCode();
  }

  lemma UsdCode()
    ensures Upper(UsdCurrency.code) == "USD"
  {
    var u := Upper(UsdCurrency.code);
    assert u[0] == 'U' && u[1] == 'S' && u[2] == 'D';
  }

  /** getCountryCode: the second `-`-separated part of the language tag, if there is one. */
  function CountryCode(c: Currency): (r: Option<string>)
    ensures r.Some? <==> '-' in c.languageCode
    ensures r.Some? ==> '-' !in r.value && r.value == Before(After(c.languageCode, '-'), '-')
  {
    var parts := Split(c.languageCode, '-');
    if |parts| >= 2 then SplitSecond(c.languageCode, '-'); Some(parts[1]) else None
  }

  /** A tag `language-region` gives the region. */
  lemma CountryCodeOfTag(c: Currency, language: string, region: string)
    requires '-' !in language && '-' !in region && c.languageCode == language + "-" + region
    ensures CountryCode(c) == Some(region)
  {
    BeforeAfterOfJoin(language, '-', region);
    assert Before(region, '-') == region;
  }
}
