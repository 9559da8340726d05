/**
 * The two-field converter of src/input.ts as an immutable record: each slot
 * holds a currency code and a quantity, one slot has the focus, and an
 * update converts the focused slot's quantity into the other slot.
 *
 * DOM work (labels, placeholders, the text shown in the fields, moving the
 * focus) becomes an `Effect` value or is left out; `parseFloat` is the
 * parameter `parse`, with `None` for NaN.
 */
module Input {
  import opened Wrappers
  import opened Strings
  import opened ExchangeApi

  /** Which of the two fields. */
  type Index = i: int | i == 1 || i == 2 witness 1

  function Other(i: Index): (j: Index)
    ensures j != i
  {
    if i == 1 then 2 else 1
  }

  /** A field's number: JavaScript keeps NaN in it when a rate is missing. */
  datatype Quantity = Amount(amount: real) | NaN

  datatype State = State(
    currency1: string,
    currency2: string,
    quantity1: Quantity,
    quantity2: Quantity,
    focusIndex: Index,
    activeIndex: Index,
    rates: Option<Rates>)
  {
    function CurrencyAt(i: Index): string {
      if i == 1 then currency1 else currency2
    }

    function QuantityAt(i: Index): Quantity {
      if i == 1 then quantity1 else quantity2
    }
  }

  /** The state before any rates arrive: dollars to rupees, both quantities 0. */
  const Initial: State := State("usd", "inr", Amount(0.0), Amount(0.0), 1, 1, None)

  /** A partial update of one slot; absent fields are left alone. */
  datatype Update = Update(currency: Option<string>, quantity: Option<Quantity>)

  /**
   * setCurrencyState: an empty currency code is falsy and ignored; any
   * present quantity, NaN included, is stored.
   */
  function SetCurrencyState(s: State, i: Index, u: Update): (t: State)
    ensures t.CurrencyAt(i) == (if u.currency.Some? && u.currency.value != "" then u.currency.value else s.CurrencyAt(i))
    ensures t.QuantityAt(i) == (if u.quantity.Some? then u.quantity.value else s.QuantityAt(i))
    ensures t.CurrencyAt(Other(i)) == s.CurrencyAt(Other(i))
    ensures t.QuantityAt(Other(i)) == s.QuantityAt(Other(i))
    ensures t.focusIndex == s.focusIndex && t.activeIndex == s.activeIndex && t.rates == s.rates
  {
    var c := if u.currency.Some? && u.currency.value != "" then Some(u.currency.value) else None;
    if i == 1 then
      s.(currency1 := c.GetOr(s.currency1), quantity1 := u.quantity.GetOr(s.quantity1))
    else
      s.(currency2 := c.GetOr(s.currency2), quantity2 := u.quantity.GetOr(s.quantity2))
  }

  /** An update that carries nothing changes nothing. */
  lemma SetCurrencyStateEmpty(s: State, i: Index, c: Option<string>)
    requires c.None? || c == Some("")
    ensures SetCurrencyState(s, i, Update(c, None)) == s
  {
  }

  /** reverseCurrencies, state part: the two slots trade places. */
  function ReverseCurrencies(s: State): (t: State)
    ensures forall i: Index :: t.CurrencyAt(i) == s.CurrencyAt(Other(i)) && t.QuantityAt(i) == s.QuantityAt(Other(i))
    ensures t.focusIndex == s.focusIndex && t.activeIndex == s.activeIndex && t.rates == s.rates
  {
    s.(currency1 := s.currency2, currency2 := s.currency1,
       quantity1 := s.quantity2, quantity2 := s.quantity1)
  }

  lemma ReverseCurrenciesTwice(s: State)
    ensures ReverseCurrencies(ReverseCurrencies(s)) == s
  {
  }

  /** A quantity converted between two currencies; NaN stays NaN, a missing rate gives NaN. */
  function Converted(q: Quantity, from: string, to: string, rates: Rates): (r: Quantity)
    ensures r.Amount? <==> q.Amount? && Exchange(q.amount, from, to, rates).Some?
    ensures r.Amount? ==> r.amount == Exchange(q.amount, from, to, rates).value
  {
    match q
    case NaN => NaN
    case Amount(x) =>
      match Exchange(x, from, to, rates)
      case Some(y) => Amount(y)
      case None => NaN
  }

  /**
   * updateUI, state part: without rates nothing happens; otherwise the
   * unfocused slot receives the focused slot's quantity, converted.
   */
  function UpdateUI(s: State): (t: State)
    ensures s.rates.None? ==> t == s
    ensures s.rates.Some? ==>
      var source, target := s.focusIndex, Other(s.focusIndex);
      && t.QuantityAt(target) == Converted(s.QuantityAt(source), s.CurrencyAt(source), s.CurrencyAt(target), s.rates.value)
      && t.QuantityAt(source) == s.QuantityAt(source)
      && t.currency1 == s.currency1 && t.currency2 == s.currency2
      && t.focusIndex == s.focusIndex && t.activeIndex == s.activeIndex && t.rates == s.rates
  {
    match s.rates
    case None => s
    case Some(rates) =>
      var source := s.focusIndex;
      var target := if source == 1 then 2 else 1;
      var result := Converted(s.QuantityAt(source), s.CurrencyAt(source), s.CurrencyAt(target), rates);
      SetCurrencyState(s, target, Update(None, Some(result)))
  }

  /** Updating twice is updating once. */
  lemma UpdateUIIdempotent(s: State)
    ensures UpdateUI(UpdateUI(s)) == UpdateUI(s)
  {
  }

  /**
   * Converting into the other field and then focusing that field and
   * converting back restores the quantity first typed, when every rate is
   * non-zero and (for dollars on both sides) the dollar's own rate is 1.
   */
  lemma UpdateUIRoundTrip(s: State)
    requires s.rates.Some? && NonZeroRates(s.rates.value)
    requires s.currency1 == Usd && s.currency2 == Usd && Usd in s.rates.value ==> s.rates.value[Usd] == 1.0
    requires UpdateUI(s).QuantityAt(Other(s.focusIndex)).Amount?
    ensures UpdateUI(UpdateUI(s).(focusIndex := Other(s.focusIndex))).QuantityAt(s.focusIndex) == s.QuantityAt(s.focusIndex)
  {
    var i := s.focusIndex;
    var a, b, rates := s.CurrencyAt(i), s.CurrencyAt(Other(i)), s.rates.value;
    var q := s.QuantityAt(i).amount;
    ExchangeRoundTrip(q, a, b, rates);
  }

  /** The keys CONTROL_KEYS lets through. */
  const ControlKeys: set<string> := {"Backspace", "Delete", "ArrowLeft", "ArrowRight", "Tab", "Home", "End"}

  /** `key >= "0" && key <= "9"` on JavaScript strings. */
  predicate InDigitRange(key: string) {
    LexLe("0", key) && LexLe(key, "9")
  }

  /** The string range holds the one-character digits, and also any longer key starting with 0 to 8. */
  lemma InDigitRangeMeans(key: string)
    ensures InDigitRange(key) <==> key == "9" || (|key| >= 1 && '0' <= key[0] <= '8')
  {
    if |key| >= 1 {
      assert "0"[0] == '0' && "0"[1..] == [];
      assert "9"[0] == '9' && "9"[1..] == [];
      assert LexLe("0", key) <==> key[0] >= '0';
      assert LexLe(key[1..], []) <==> |key| == 1;
      assert LexLe(key, "9") <==> key[0] < '9' || (key[0] == '9' && |key| == 1);
      if |key| == 1 && key[0] == '9' {
        assert key == [key[0]];
      }
    }
  }

  /** For one-character keys the string range is exactly the digits. */
  lemma InDigitRangeSingle(c: char)
    ensures InDigitRange([c]) <==> IsDigit(c)
  {
    InDigitRangeMeans([c]);
  }

  /**
   * handleKeyDown: true when the key is let through, false when its default
   * is prevented. A `.` or `,` passes only while the field has neither.
   */
  function HandleKeyDown(key: string, value: string): (allowed: bool)
    ensures key in ControlKeys ==> allowed
    ensures (key == "." || key == ",") ==> (allowed <==> '.' !in value && ',' !in value)
    ensures |key| == 1 && key != "." && key != "," ==> (allowed <==> IsDigit(key[0]))
    ensures |key| == 0 ==> !allowed
    ensures |key| >= 2 && key !in ControlKeys ==> (allowed <==> '0' <= key[0] <= '8')
  {
    if key in ControlKeys || InDigitRange(key) then
      InDigitRangeMeans(key);
      true
    else if (key == "." || key == ",") && '.' !in value && ',' !in value then
      true
    else
      InDigitRangeMeans(key);
      false
  }

  /** A character NON_DIGITS does not remove. */
  predicate IsNumberChar(c: char) {
    IsDigit(c) || c == '.' || c == ','
  }

  /** The text handed to parseFloat: `[^0-9.,]` removed, then the first `,` made a `.`. */
  function ExtractNumber(text: string): (r: string)
    ensures |r| == |Filter(text, IsNumberChar)|
    ensures forall i :: 0 <= i < |r| ==> IsNumberChar(r[i])
    ensures AtMostOne(Filter(text, IsNumberChar), ',') ==> ',' !in r
    ensures var kept := Filter(text, IsNumberChar);
      forall i :: 0 <= i < |r| ==> r[i] == (if kept[i] == ',' && ',' !in kept[..i] then '.' else kept[i])
  {
    var kept := Filter(text, IsNumberChar);
    CommaReplaced(kept);
    ReplaceFirst(kept, ",", ".")
  }

  lemma CommaReplaced(s: string)
    requires forall i :: 0 <= i < |s| ==> IsNumberChar(s[i])
    ensures |ReplaceFirst(s, ",", ".")| == |s|
    ensures forall i :: 0 <= i < |ReplaceFirst(s, ",", ".")| ==> IsNumberChar(ReplaceFirst(s, ",", ".")[i])
    ensures AtMostOne(s, ',') ==> ',' !in ReplaceFirst(s, ",", ".")
    ensures forall i :: 0 <= i < |s| ==>
      ReplaceFirst(s, ",", ".")[i] == (if s[i] == ',' && ',' !in s[..i] then '.' else s[i])
  {
    IndexOfChar(s, ',');
    match IndexOf(s, ",")
    case None =>
    case Some(k) =>
      var r := s[..k] + "." + s[k + 1..];
      assert forall j :: 0 <= j < k ==> r[j] == s[j];
      assert forall j :: k < j < |s| ==> r[j] == s[j];
      forall i | 0 <= i < |s| ensures (s[i] == ',' && ',' !in s[..i]) <==> i == k {
        if i < k {
          assert s[..k][i] == s[i];
        } else if i > k {
          assert s[..i][k] == ',';
        }
      }
  }

  /** Plain decimal text passes through unchanged. */
  lemma ExtractNumberOfDecimal(text: string)
    requires forall i :: 0 <= i < |text| ==> IsDigit(text[i]) || text[i] == '.'
    ensures ExtractNumber(text) == text
  {
    FilterKeepsAll(text, IsNumberChar);
    forall j: nat | j + 1 <= |text|
      ensures !OccursAt(text, ",", j)
    {
      assert text[j..j + 1][0] == text[j];
    }
  }

  /** What a key-up asks of the page besides the state change. */
  datatype Effect = NoEffect | Focus(index: Index) | OpenCurrencyDialog(code: string)

  /**
   * handleInputChange, for a key released in field `index` whose text is
   * now `text`. Arrow keys move the focus and Enter opens the currency
   * dialog; any other key focuses the field and, when the extracted number
   * parses, stores it and converts it into the other field.
   */
  function HandleInputChange(s: State, index: Index, key: string, text: string,
                             parse: string -> Option<real>): (r: (State, Effect))
    ensures key == "ArrowDown" ==> r.0 == s && r.1 == (if index == 1 then Focus(2) else NoEffect)
    ensures key == "ArrowUp" ==> r.0 == s && r.1 == (if index == 2 then Focus(1) else NoEffect)
    ensures key == "Enter" ==>
      r.0 == s.(activeIndex := s.focusIndex) && r.1 == OpenCurrencyDialog(s.CurrencyAt(s.focusIndex))
    ensures key !in {"ArrowDown", "ArrowUp", "Enter"} ==>
      var t := r.0;
      && r.1 == NoEffect
      && t.focusIndex == index && t.activeIndex == s.activeIndex && t.rates == s.rates
      && t.currency1 == s.currency1 && t.currency2 == s.currency2
      && (parse(ExtractNumber(text)).None? ==> t.quantity1 == s.quantity1 && t.quantity2 == s.quantity2)
      && (parse(ExtractNumber(text)).Some? ==> t.QuantityAt(index) == Amount(parse(ExtractNumber(text)).value))
      && (parse(ExtractNumber(text)).Some? && s.rates.Some? ==>
            t.QuantityAt(Other(index)) ==
              Converted(Amount(parse(ExtractNumber(text)).value), s.CurrencyAt(index), s.CurrencyAt(Other(index)), s.rates.value))
      && (parse(ExtractNumber(text)).Some? && s.rates.None? ==> t.QuantityAt(Other(index)) == s.QuantityAt(Other(index)))
  {
    if key == "ArrowDown" then
      (s, if index == 1 then Focus(2) else NoEffect)
    else if key == "ArrowUp" then
      (s, if index == 2 then Focus(1) else NoEffect)
    else if key == "Enter" then
      var t := s.(activeIndex := s.focusIndex);
      (t, OpenCurrencyDialog(t.CurrencyAt(t.activeIndex)))
    else
      var focused := s.(focusIndex := index);
      match parse(ExtractNumber(text))
      case None => (focused, NoEffect)
      case Some(numeric) =>
        (UpdateUI(SetCurrencyState(focused, index, Update(None, Some(Amount(numeric))))), NoEffect)
  }

  /** handleFocus */
  function HandleFocus(s: State, index: Index): (t: State)
    ensures t.focusIndex == index
    ensures t.(focusIndex := s.focusIndex) == s
  {
    s.(focusIndex := index)
  }

  /**
   * setCurrency, state part: the slot takes the new code (an empty code is
   * ignored) and the focused quantity is converted again.
   */
  function SetCurrency(s: State, index: Index, code: string): (t: State)
    ensures t.CurrencyAt(index) == (if code == "" then s.CurrencyAt(index) else code)
    ensures t.CurrencyAt(Other(index)) == s.CurrencyAt(Other(index))
    ensures t.QuantityAt(s.focusIndex) == s.QuantityAt(s.focusIndex)
    ensures s.rates.None? ==> t.QuantityAt(Other(s.focusIndex)) == s.QuantityAt(Other(s.focusIndex))
    ensures s.rates.Some? ==>
      t.QuantityAt(Other(s.focusIndex)) ==
        Converted(s.QuantityAt(s.focusIndex), t.CurrencyAt(s.focusIndex), t.CurrencyAt(Other(s.focusIndex)), s.rates.value)
    ensures t.focusIndex == s.focusIndex && t.activeIndex == s.activeIndex && t.rates == s.rates
  {
    UpdateUI(SetCurrencyState(s, index, Update(Some(code), None)))
  }

  /**
   * Typing 100 into the dollar field, with 83 rupees to the dollar, shows
   * 8300 rupees in the other field.
   */
  lemma DollarsToRupees(parse: string -> Option<real>)
    requires parse("100") == Some(100.0)
    ensures
      var rates := map["inr" := 83.0];
      var s := Initial.(rates := Some(rates));
      HandleInputChange(s, 1, "0", "100", parse).0.quantity2 == Amount(8300.0)
  {
    ExtractNumberOfDecimal("100");
    var rates := map["inr" := 83.0];
    ExchangeFromUsdValue(100.0, "usd", "inr", rates);
  }
}
