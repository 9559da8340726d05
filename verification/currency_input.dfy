/**
 * The masked currency-input editing engine of src/currencyInput.ts.
 *
 * Edited text is normalized to a plain numeric string, clamped to the
 * currency's precision and parsed; the field is then re-rendered from its
 * stored value and the caret is put back after the same number of numeric
 * characters it followed before. The locale formatter (`fmt`) and the
 * number parser (`parse`, `None` standing for NaN) are parameters.
 */
module CurrencyInput {
  import opened Wrappers
  import opened Strings

  /** The separators and symbol of the active currency. */
  datatype Profile = Profile(decimalSeparator: char, groupSeparator: char, currencySymbol: string)

  /** The stored number, the text on screen, the caret, the precision and the profile. */
  datatype Field = Field(value: real, display: string, caret: nat, precision: nat, profile: Profile)

  datatype DomEvent = InputEvent | ChangeEvent

  /** A keydown event: the key name and its modifier flags. */
  datatype Key = Key(name: string, ctrlKey: bool, metaKey: bool, altKey: bool)

  /** What the keydown handler does with a key. */
  datatype KeyOutcome = PassThrough | Suppress | MoveCaret(position: nat)

  const Placeholder: string := "::DEC::"

  const AlwaysAllowed: set<string> :=
    {"Backspace", "Delete", "ArrowUp", "ArrowDown", "Home", "End", "Tab", "Enter", "Escape"}

  function Min(a: int, b: int): int {
    if a <= b then a else b
  }

  /** The characters the NON_DECIMAL class leaves alone: digits, '-', ':', 'D', 'E' and 'C'. */
  predicate IsKept(c: char) {
    IsDigit(c) || c == '-' || c == ':' || c == 'D' || c == 'E' || c == 'C'
  }

  /** A character the caret logic counts: a digit, the decimal separator or a period. */
  predicate IsNumericChar(c: char, dec: char) {
    IsDigit(c) || c == dec || c == '.'
  }

  /** `s[i]` exists and is numeric; an index out of range reads `undefined`, which is not. */
  predicate IsNumericAt(s: string, i: int, dec: char) {
    0 <= i < |s| && IsNumericChar(s[i], dec)
  }

  /** The number of numeric characters in `s`. */
  function NumericCount(s: string, dec: char): (n: nat)
    ensures n <= |s|
  {
    if s == [] then 0
    else NumericCount(s[..|s| - 1], dec) + (if IsNumericChar(s[|s| - 1], dec) then 1 else 0)
  }

  lemma NumericCountStep(s: string, j: nat, dec: char)
    requires j < |s|
    ensures NumericCount(s[..j + 1], dec) == NumericCount(s[..j], dec) + (if IsNumericChar(s[j], dec) then 1 else 0)
  {
    assert s[..j + 1][..j] == s[..j];
  }

  /** Counting numeric characters over a longer prefix never gives less. */
  lemma {:induction false} NumericCountMonotone(s: string, i: nat, j: nat, dec: char)
    requires i <= j <= |s|
    ensures NumericCount(s[..i], dec) <= NumericCount(s[..j], dec)
    decreases j - i
  {
    if i < j {
      NumericCountStep(s, j - 1, dec);
      NumericCountMonotone(s, i, j - 1, dec);
    }
  }

  // ---------------------------------------------------------------------------
  // Normalization of edited text
  // ---------------------------------------------------------------------------

  /** The first occurrence of the currency symbol and every group separator removed. */
  function StripSymbolAndGroups(localized: string, p: Profile): (r: string)
    ensures p.groupSeparator !in r
    ensures forall c :: c in r ==> c in localized
    ensures forall c :: c in localized && c != p.groupSeparator && c !in p.currencySymbol ==> c in r
  {
    var unsymboled := ReplaceFirst(localized, p.currencySymbol, "");
    forall c | c in unsymboled ensures c in localized {
      ReplaceFirstChars(localized, p.currencySymbol, "", c);
    }
    forall c | c in localized && c !in p.currencySymbol ensures c in unsymboled {
      ReplaceFirstKeeps(localized, p.currencySymbol, "", c);
    }
    RemoveAll(unsymboled, p.groupSeparator)
  }

  /**
   * What stripping leaves, in order: the text before the first currency symbol
   * and the text after it, each without group separators; with no symbol, the
   * whole text without group separators.
   */
  lemma StripSymbolAndGroupsContent(localized: string, p: Profile)
    ensures IndexOf(localized, p.currencySymbol).None? ==>
      StripSymbolAndGroups(localized, p) == RemoveAll(localized, p.groupSeparator)
    ensures IndexOf(localized, p.currencySymbol).Some? ==>
      var k := IndexOf(localized, p.currencySymbol).value;
      StripSymbolAndGroups(localized, p) ==
        RemoveAll(localized[..k], p.groupSeparator) + RemoveAll(localized[k + |p.currencySymbol|..], p.groupSeparator)
  {
    if IndexOf(localized, p.currencySymbol).Some? {
      var k := IndexOf(localized, p.currencySymbol).value;
      var u := ReplaceFirst(localized, p.currencySymbol, "");
      assert u == localized[..k] + localized[k + |p.currencySymbol|..];
      RemoveAllConcat(localized[..k], localized[k + |p.currencySymbol|..], p.groupSeparator);
    }
  }

  /**
   * toNormalizedNumericString: strip symbol and groups, mark the first decimal
   * separator, drop every character outside NON_DECIMAL's complement, and turn
   * the first placeholder into '.'.
   */
  function ToNormalizedNumericString(localized: string, p: Profile): (r: string)
    ensures AtMostOne(r, '.')
    ensures forall i :: 0 <= i < |r| ==> IsKept(r[i]) || r[i] == '.'
    ensures p.groupSeparator !in ".:DEC" ==> p.groupSeparator !in r
  {
    var stripped := StripSymbolAndGroups(localized, p);
    var marked := ReplaceFirst(stripped, [p.decimalSeparator], Placeholder);
    var kept := Filter(marked, IsKept);
    var r := ReplaceFirst(kept, Placeholder, ".");
    PointReplacesAtMostOnce(kept, Placeholder);
    forall i | 0 <= i < |r| ensures IsKept(r[i]) || r[i] == '.' {
      ReplaceFirstChars(kept, Placeholder, ".", r[i]);
    }
    NormalizedHasNoGroupSeparator(stripped, p, r);
    r
  }

  lemma NormalizedHasNoGroupSeparator(stripped: string, p: Profile, r: string)
    requires p.groupSeparator !in stripped
    requires r == ReplaceFirst(Filter(ReplaceFirst(stripped, [p.decimalSeparator], Placeholder), IsKept), Placeholder, ".")
    ensures p.groupSeparator !in ".:DEC" ==> p.groupSeparator !in r
  {
    if p.groupSeparator !in ".:DEC" && p.groupSeparator in r {
      var marked := ReplaceFirst(stripped, [p.decimalSeparator], Placeholder);
      ReplaceFirstChars(Filter(marked, IsKept), Placeholder, ".", p.groupSeparator);
      ReplaceFirstChars(stripped, [p.decimalSeparator], Placeholder, p.groupSeparator);
    }
  }

  lemma PointBetween(b: string, a: string)
    requires '.' !in b && '.' !in a
    ensures AtMostOne(b + "." + a, '.')
  {
    var s := b + "." + a;
    forall i | 0 <= i < |s| && s[i] == '.' ensures i == |b| {
    }
  }

  lemma PointReplacesAtMostOnce(s: string, pat: string)
    requires '.' !in s
    ensures AtMostOne(ReplaceFirst(s, pat, "."), '.')
  {
    match IndexOf(s, pat)
    case None =>
    case Some(k) =>
      assert '.' !in s[..k] && '.' !in s[k + |pat|..] by {
        forall c | c in s[..k] || c in s[k + |pat|..] ensures c in s { }
      }
      PointBetween(s[..k], s[k + |pat|..]);
  }


  /** Replacing an occurrence that exists puts the replacement into the text. */
  lemma ReplaceFoundOccurrence(s: string, pat: string, rep: string, j: nat)
    requires OccursAt(s, pat, j)
    ensures IndexOf(s, pat).Some?
    ensures var k := IndexOf(s, pat).value; ReplaceFirst(s, pat, rep) == s[..k] + rep + s[k + |pat|..]
  {
  }

  lemma NoOccurrenceWithoutFirstChar(s: string, pat: string)
    requires |pat| > 0 && pat[0] !in s
    ensures forall j: nat :: !OccursAt(s, pat, j)
  {
    forall j: nat | j + |pat| <= |s| ensures !OccursAt(s, pat, j) {
      assert s[j..j + |pat|][0] == s[j];
    }
  }

  lemma FilterOfPlaceholder()
    ensures Filter(Placeholder, IsKept) == Placeholder
  {
    assert forall i :: 0 <= i < |Placeholder| ==> IsKept(Placeholder[i]);
    FilterKeepsAll(Placeholder, IsKept);
  }

  lemma OccursInMiddle(x: string, pat: string, y: string)
    ensures OccursAt(x + pat + y, pat, |x|)
  {
    assert (x + pat + y)[|x|..|x| + |pat|] == pat;
  }

  /** Filtering keeps a placeholder intact, since all its characters are kept. */
  lemma FilterKeepsPlaceholder(left: string, right: string)
    ensures OccursAt(Filter(left + Placeholder + right, IsKept), Placeholder, |Filter(left, IsKept)|)
  {
    FilterConcat(left + Placeholder, right, IsKept);
    FilterConcat(left, Placeholder, IsKept);
    FilterOfPlaceholder();
    OccursInMiddle(Filter(left, IsKept), Placeholder, Filter(right, IsKept));
  }

  /** Where the decimal separator survives stripping, the normalized text has a '.'. */
  lemma DecimalSeparatorBecomesPoint(localized: string, p: Profile)
    requires p.decimalSeparator in StripSymbolAndGroups(localized, p)
    ensures '.' in ToNormalizedNumericString(localized, p)
  {
    var stripped := StripSymbolAndGroups(localized, p);
    var dec := [p.decimalSeparator];
    var j :| 0 <= j < |stripped| && stripped[j] == p.decimalSeparator;
    assert OccursAt(stripped, dec, j);
    ReplaceFoundOccurrence(stripped, dec, Placeholder, j);
    var k := IndexOf(stripped, dec).value;
    FilterKeepsPlaceholder(stripped[..k], stripped[k + 1..]);
    var kept := Filter(ReplaceFirst(stripped, dec, Placeholder), IsKept);
    ReplaceFoundOccurrence(kept, Placeholder, ".", |Filter(stripped[..k], IsKept)|);
    var m := IndexOf(kept, Placeholder).value;
    assert ReplaceFirst(kept, Placeholder, ".")[m] == '.';
  }

  /**
   * Without the decimal separator (and without any ':' to spell a placeholder)
   * no '.' survives: a literal '.' is stripped unless it is the separator.
   */
  lemma NoPointWithoutDecimalSeparator(localized: string, p: Profile)
    requires p.decimalSeparator !in StripSymbolAndGroups(localized, p)
    requires ':' !in localized
    ensures '.' !in ToNormalizedNumericString(localized, p)
  {
    var stripped := StripSymbolAndGroups(localized, p);
    var dec := [p.decimalSeparator];
    NoOccurrenceWithoutFirstChar(stripped, dec);
    assert ReplaceFirst(stripped, dec, Placeholder) == stripped;
    var kept := Filter(stripped, IsKept);
    assert ':' !in kept;
    NoOccurrenceWithoutFirstChar(kept, Placeholder);
  }

  /**
   * The normalized text, in order: the kept characters before the first decimal
   * separator, a '.', and the kept characters after it; with no separator, just
   * the kept characters. A ':' in the input could spell a placeholder, so it is
   * excluded here.
   */
  lemma NormalizedContent(localized: string, p: Profile)
    requires ':' !in localized
    ensures var s := StripSymbolAndGroups(localized, p);
      p.decimalSeparator !in s ==> ToNormalizedNumericString(localized, p) == Filter(s, IsKept)
    ensures var s := StripSymbolAndGroups(localized, p);
      p.decimalSeparator in s ==>
        var k := FirstIndex(s, p.decimalSeparator);
        ToNormalizedNumericString(localized, p) == Filter(s[..k], IsKept) + "." + Filter(s[k + 1..], IsKept)
  {
    var s := StripSymbolAndGroups(localized, p);
    var dec := p.decimalSeparator;
    IndexOfChar(s, dec);
    if dec !in s {
      assert ReplaceFirst(s, [dec], Placeholder) == s;
      var kept := Filter(s, IsKept);
      assert ':' !in kept;
      NoOccurrenceWithoutFirstChar(kept, Placeholder);
      assert IndexOf(kept, Placeholder).None?;
    } else {
      var k := FirstIndex(s, dec);
      MarkedKept(s, dec, k);
      PlaceholderBecomesPoint(Filter(s[..k], IsKept), Filter(s[k + 1..], IsKept));
    }
  }

  /** Marking the separator at `k` and filtering keeps the placeholder between the two filtered sides. */
  lemma MarkedKept(s: string, dec: char, k: nat)
    requires ':' !in s
    requires IndexOf(s, [dec]) == Some(k) && k < |s|
    ensures ':' !in Filter(s[..k], IsKept)
    ensures Filter(ReplaceFirst(s, [dec], Placeholder), IsKept) == Filter(s[..k], IsKept) + Placeholder + Filter(s[k + 1..], IsKept)
  {
    assert ReplaceFirst(s, [dec], Placeholder) == s[..k] + Placeholder + s[k + 1..];
    FilterConcat(s[..k] + Placeholder, s[k + 1..], IsKept);
    FilterConcat(s[..k], Placeholder, IsKept);
    FilterOfPlaceholder();
    forall c | c in Filter(s[..k], IsKept) ensures c in s {
      assert c in s[..k];
    }
  }

  /** The first placeholder, with no ':' ahead of it, becomes the '.'. */
  lemma PlaceholderBecomesPoint(left: string, right: string)
    requires ':' !in left
    ensures ReplaceFirst(left + Placeholder + right, Placeholder, ".") == left + "." + right
  {
    var kept := left + Placeholder + right;
    OccursInMiddle(left, Placeholder, right);
    forall j: nat | j < |left| ensures !OccursAt(kept, Placeholder, j) {
      assert kept[j] == left[j];
      if j + |Placeholder| <= |kept| {
        assert kept[j..j + |Placeholder|][0] == kept[j];
      }
    }
    IndexOfFirstOccurrence(kept, Placeholder, |left|);
    assert kept[..|left|] == left;
    assert kept[|left| + |Placeholder|..] == right;
  }

  /** Only the first currency symbol goes: a symbol repeated after it is left in the text. */
  lemma StripRemovesOnlyFirstSymbol(rest: string, p: Profile)
    ensures StripSymbolAndGroups(p.currencySymbol + rest, p) == RemoveAll(rest, p.groupSeparator)
  {
    var s := p.currencySymbol + rest;
    assert OccursAt(s, p.currencySymbol, 0);
    assert IndexOf(s, p.currencySymbol) == Some(0);
    assert ReplaceFirst(s, p.currencySymbol, "") == rest;
  }

  /**
   * The split/re-join step of _onInput: the first integer segment, one '.', and
   * every fractional segment joined together.
   */
  function JoinFractions(norm: string): (r: string)
    ensures '.' !in norm ==> r == norm
    ensures '.' in norm ==> r == Before(norm, '.') + "." + RemoveAll(After(norm, '.'), '.')
    ensures AtMostOne(r, '.')
  {
    var parts := Split(norm, '.');
    if |parts| > 1 then
      assert parts[1..] == Split(After(norm, '.'), '.');
      ConcatSplit(After(norm, '.'), '.');
      PointBetween(parts[0], Concat(parts[1..]));
      parts[0] + "." + Concat(parts[1..])
    else
      parts[0]
  }

  /** With a single '.', the text after it holds no other '.'. */
  lemma SinglePointFraction(norm: string)
    requires '.' in norm && AtMostOne(norm, '.')
    ensures '.' !in After(norm, '.')
  {
    var k := FirstIndex(norm, '.');
    var a := After(norm, '.');
    forall j | 0 <= j < |a| ensures a[j] != '.' {
      assert norm[k + 1 + j] == a[j];
    }
  }

  /** On text that already has at most one '.', re-joining changes nothing. */
  lemma JoinFractionsKeepsSinglePoint(norm: string)
    requires AtMostOne(norm, '.')
    ensures JoinFractions(norm) == norm
  {
    if '.' in norm {
      var a := After(norm, '.');
      SinglePointFraction(norm);
      RemoveAllAbsent(a, '.');
      BeforeAfter(norm, '.');
    }
  }

  /** `s.slice(0, n)`. */
  function Take(s: string, n: nat): (r: string)
    ensures |r| == Min(n, |s|) && r <= s
    ensures |s| <= n ==> r == s
  {
    s[..Min(n, |s|)]
  }

  /**
   * The precision clamp of _onInput. With no fraction digits the text is cut at
   * the '.', an empty integer part becoming "0"; otherwise the first fractional
   * segment is cut to `precision` characters.
   */
  function ClampPrecision(norm: string, precision: nat): (r: string)
    ensures precision == 0 ==> '.' !in r && r != []
    ensures precision == 0 ==> (r == "0" <==> Before(norm, '.') == [] || Before(norm, '.') == "0")
    ensures precision == 0 && r != "0" ==> r == Before(norm, '.')
    ensures precision > 0 ==> r <= norm
    ensures precision > 0 && '.' !in norm ==> r == norm
    ensures precision > 0 && '.' in r ==> |After(r, '.')| <= precision
    ensures precision > 0 && '.' in norm && AtMostOne(norm, '.') ==>
      |r| == Min(|norm|, |Before(norm, '.')| + 1 + precision)
    ensures AtMostOne(r, '.')
  {
    if precision == 0 then
      var i := Split(norm, '.')[0];
      if i == [] then "0" else i
    else if '.' in norm then
      var parts := Split(norm, '.');
      SplitSecond(norm, '.');
      ClampedFraction(norm, precision);
      parts[0] + "." + Take(parts[1], precision)
    else
      norm
  }

  /** The clamped text when there is a '.': the integer part, '.', and the cut first fraction segment. */
  lemma ClampedFraction(norm: string, precision: nat)
    requires '.' in norm && precision > 0
    ensures var i, f := Before(norm, '.'), Before(After(norm, '.'), '.');
      var r := i + "." + Take(f, precision);
      r <= norm && '.' in r && |After(r, '.')| <= precision && AtMostOne(r, '.') &&
      (AtMostOne(norm, '.') ==> |r| == Min(|norm|, |i| + 1 + precision))
  {
    var i, f := Before(norm, '.'), Before(After(norm, '.'), '.');
    var r := i + "." + Take(f, precision);
    BeforeAfter(norm, '.');
    BeforeAfterOfJoin(i, '.', Take(f, precision));
    PointBetween(i, Take(f, precision));
    assert r <= norm by {
      var a := After(norm, '.');
      assert Take(f, precision) <= a;
      assert norm == i + "." + a;
    }
    if AtMostOne(norm, '.') {
      SinglePointFraction(norm);
      assert f == After(norm, '.');
      assert |norm| == |i| + 1 + |f|;
    }
  }

  /**
   * The whole normalization of _onInput: normalize, re-join and clamp. The
   * result has at most one '.', holds only kept characters and '.', and
   * respects the precision.
   */
  function NormalizeEdit(raw: string, p: Profile, precision: nat): (r: string)
    ensures AtMostOne(r, '.')
    ensures forall i :: 0 <= i < |r| ==> IsKept(r[i]) || r[i] == '.'
    ensures precision == 0 ==> '.' !in r && r != []
    ensures precision > 0 ==> r <= ToNormalizedNumericString(raw, p)
    ensures precision > 0 && '.' in r ==> |After(r, '.')| <= precision
  {
    var norm := ToNormalizedNumericString(raw, p);
    JoinFractionsKeepsSinglePoint(norm);
    ClampKeepsKept(norm, precision);
    ClampPrecision(JoinFractions(norm), precision)
  }

  /** The normalized text already has at most one '.', so re-joining leaves only the clamp. */
  lemma NormalizeEditIsClamp(raw: string, p: Profile, precision: nat)
    ensures NormalizeEdit(raw, p, precision) == ClampPrecision(ToNormalizedNumericString(raw, p), precision)
  {
    JoinFractionsKeepsSinglePoint(ToNormalizedNumericString(raw, p));
  }

  /** Clamping introduces no character other than a '0' for an empty integer part. */
  lemma ClampKeepsKept(norm: string, precision: nat)
    requires forall i :: 0 <= i < |norm| ==> IsKept(norm[i]) || norm[i] == '.'
    ensures var r := ClampPrecision(norm, precision);
      forall i :: 0 <= i < |r| ==> IsKept(r[i]) || r[i] == '.'
  {
    var r := ClampPrecision(norm, precision);
    forall i | 0 <= i < |r| ensures IsKept(r[i]) || r[i] == '.' {
      if r != "0" {
        if precision == 0 {
          assert r == Before(norm, '.') && r == norm[..|r|];
        } else {
          assert r == norm[..|r|];
        }
        assert r[i] == norm[i];
      }
    }
  }

  /** Clamping text with no '.': it is unchanged, except that empty text reads "0" at precision 0. */
  lemma ClampWithoutPoint(norm: string, precision: nat)
    requires '.' !in norm
    ensures ClampPrecision(norm, precision) == (if precision == 0 && norm == [] then "0" else norm)
  {
  }

  /** Clamping `left.right` where neither side has a '.'. */
  lemma ClampAroundPoint(left: string, right: string, precision: nat)
    requires '.' !in left && '.' !in right
    ensures ClampPrecision(left + "." + right, precision) ==
      if precision == 0 then (if left == [] then "0" else left) else left + "." + Take(right, precision)
  {
    var norm := left + "." + right;
    BeforeAfterOfJoin(left, '.', right);
    assert Before(right, '.') == right;
    if precision > 0 {
      SplitSecond(norm, '.');
    }
  }

  /**
   * What an edit normalizes to, in order: the kept characters before the first
   * decimal separator, then (with a precision) a '.' and at most `precision` of
   * the kept characters after it; an empty result under precision 0 reads "0".
   */
  lemma NormalizeEditContent(raw: string, p: Profile, precision: nat)
    requires ':' !in raw
    ensures var s := StripSymbolAndGroups(raw, p);
      p.decimalSeparator !in s ==>
        var kept := Filter(s, IsKept);
        NormalizeEdit(raw, p, precision) == (if precision == 0 && kept == [] then "0" else kept)
    ensures var s := StripSymbolAndGroups(raw, p);
      p.decimalSeparator in s ==>
        var k := FirstIndex(s, p.decimalSeparator);
        var left, right := Filter(s[..k], IsKept), Filter(s[k + 1..], IsKept);
        NormalizeEdit(raw, p, precision) ==
          if precision == 0 then (if left == [] then "0" else left)
          else left + "." + Take(right, precision)
  {
    var s := StripSymbolAndGroups(raw, p);
    NormalizedContent(raw, p);
    if p.decimalSeparator in s {
      var k := FirstIndex(s, p.decimalSeparator);
      KeptHasNoPoint(s[..k]);
      KeptHasNoPoint(s[k + 1..]);
      NormalizeEditAroundSeparator(raw, p, precision, Filter(s[..k], IsKept), Filter(s[k + 1..], IsKept));
    } else {
      KeptHasNoPoint(s);
      NormalizeEditWithoutSeparator(raw, p, precision, Filter(s, IsKept));
    }
  }

  lemma NormalizeEditWithoutSeparator(raw: string, p: Profile, precision: nat, kept: string)
    requires '.' !in kept
    requires ToNormalizedNumericString(raw, p) == kept
    ensures NormalizeEdit(raw, p, precision) == (if precision == 0 && kept == [] then "0" else kept)
  {
    NormalizeEditIsClamp(raw, p, precision);
    ClampWithoutPoint(kept, precision);
  }


  lemma NormalizeEditAroundSeparator(raw: string, p: Profile, precision: nat, left: string, right: string)
    requires '.' !in left && '.' !in right
    requires ToNormalizedNumericString(raw, p) == left + "." + right
    ensures NormalizeEdit(raw, p, precision) ==
      if precision == 0 then (if left == [] then "0" else left) else left + "." + Take(right, precision)
  {
    NormalizeEditIsClamp(raw, p, precision);
    ClampAroundPoint(left, right, precision);
  }

  /** Filtering to kept characters leaves no '.'. */
  lemma KeptHasNoPoint(s: string)
    ensures '.' !in Filter(s, IsKept)
  {
  }


  // ---------------------------------------------------------------------------
  // Numeric positions and caret reconciliation
  // ---------------------------------------------------------------------------

  /** countNumericCharsLeft: the numeric characters of `rawValue` left of `caretPos`. */
  method CountNumericCharsLeft(rawValue: string, caretPos: nat, dec: char) returns (count: nat)
    ensures count == NumericCount(rawValue[..Min(caretPos, |rawValue|)], dec)
    ensures count <= caretPos && count <= |rawValue|
  {
    var left := rawValue[..Min(caretPos, |rawValue|)];
    count := 0;
    var i := 0;
    while i < |left|
      invariant 0 <= i <= |left|
      invariant count == NumericCount(left[..i], dec)
    {
      NumericCountStep(left, i, dec);
      var ch := left[i];
      if IsDigit(ch) {
        count := count + 1;
      } else if ch == dec {
        count := count + 1;
      } else if ch == '.' {
        count := count + 1;
      }
      i := i + 1;
    }
    assert left[..i] == left;
  }

  /** The count left of the caret grows with the caret. */
  lemma CountNumericCharsLeftMonotone(rawValue: string, c1: nat, c2: nat, dec: char)
    requires c1 <= c2
    ensures NumericCount(rawValue[..Min(c1, |rawValue|)], dec) <= NumericCount(rawValue[..Min(c2, |rawValue|)], dec)
  {
    NumericCountMonotone(rawValue, Min(c1, |rawValue|), Min(c2, |rawValue|), dec);
  }

  /**
   * numericPositionsInFormatted: the indices of the numeric characters, in
   * increasing order, the k-th of them having exactly k numeric characters
   * before it.
   */
  method NumericPositionsInFormatted(formatted: string, dec: char) returns (positions: seq<nat>)
    ensures |positions| == NumericCount(formatted, dec)
    ensures forall k :: 0 <= k < |positions| ==>
      IsNumericAt(formatted, positions[k], dec) && NumericCount(formatted[..positions[k]], dec) == k
    ensures forall k, l :: 0 <= k < l < |positions| ==> positions[k] < positions[l]
    ensures forall i :: IsNumericAt(formatted, i, dec) ==> i in positions
  {
    positions := [];
    var i := 0;
    while i < |formatted|
      invariant 0 <= i <= |formatted|
      invariant |positions| == NumericCount(formatted[..i], dec)
      invariant forall k :: 0 <= k < |positions| ==>
        positions[k] < i && IsNumericAt(formatted, positions[k], dec) && NumericCount(formatted[..positions[k]], dec) == k
      invariant forall k, l :: 0 <= k < l < |positions| ==> positions[k] < positions[l]
      invariant forall j :: 0 <= j < i && IsNumericAt(formatted, j, dec) ==> j in positions
    {
      NumericCountStep(formatted, i, dec);
      var ch := formatted[i];
      if IsDigit(ch) {
        positions := positions + [i];
      } else if ch == dec {
        positions := positions + [i];
      } else if ch == '.' {
        positions := positions + [i];
      }
      i := i + 1;
    }
    assert formatted[..i] == formatted;
  }

  /**
   * Where _render puts the caret after an edit: `k` numeric characters were
   * left of it before the edit, `n` are in the formatted text. The caret then
   * has min(k, n) numeric characters to its left and sits at the first numeric
   * character (k = 0), right after the k-th (0 < k < n), or at the end (k >= n).
   */
  predicate Reconciled(formatted: string, dec: char, k: nat, caret: nat) {
    var n := NumericCount(formatted, dec);
    && caret <= |formatted|
    && NumericCount(formatted[..caret], dec) == Min(k, n)
    && (k == 0 && n > 0 ==> IsNumericAt(formatted, caret, dec))
    && (0 < k < n ==> IsNumericAt(formatted, caret - 1, dec))
    && (k >= n ==> caret == |formatted|)
  }

  /** The description above fixes the caret: at most one position satisfies it. */
  lemma ReconciledUnique(formatted: string, dec: char, k: nat, c1: nat, c2: nat)
    requires Reconciled(formatted, dec, k, c1) && Reconciled(formatted, dec, k, c2)
    ensures c1 == c2
  {
    if c1 != c2 {
      var lo, hi := Min(c1, c2), if c1 <= c2 then c2 else c1;
      var n := NumericCount(formatted, dec);
      assert k < n;
      if k == 0 {
        NumericCountStep(formatted, lo, dec);
        NumericCountMonotone(formatted, lo + 1, hi, dec);
      } else {
        NumericCountStep(formatted, hi - 1, dec);
        NumericCountMonotone(formatted, lo, hi - 1, dec);
      }
    }
  }

  /** The caret sits right after the last numeric character, or at the end when there is none. */
  predicate AfterLastNumeric(formatted: string, dec: char, caret: nat) {
    && caret <= |formatted|
    && NumericCount(formatted[..caret], dec) == NumericCount(formatted, dec)
    && (if NumericCount(formatted, dec) == 0 then caret == |formatted| else IsNumericAt(formatted, caret - 1, dec))
  }

  /** The caret _render places with no previous edit: after the last numeric character. */
  method EndCaret(formatted: string, dec: char) returns (caret: nat)
    ensures AfterLastNumeric(formatted, dec, caret)
  {
    var numericPositions := NumericPositionsInFormatted(formatted, dec);
    if |numericPositions| > 0 {
      var last := numericPositions[|numericPositions| - 1];
      NumericCountStep(formatted, last, dec);
      caret := last + 1;
    } else {
      assert formatted[..|formatted|] == formatted;
      caret := |formatted|;
    }
  }

  /** The caret arithmetic of _render after an edit, clamp included. */
  method ReconcileCaret(formatted: string, previousRaw: string, previousCaret: nat, dec: char) returns (caret: nat)
    ensures Reconciled(formatted, dec, NumericCount(previousRaw[..Min(previousCaret, |previousRaw|)], dec), caret)
  {
    var leftNumericCount := CountNumericCharsLeft(previousRaw, previousCaret, dec);
    var numericPos := NumericPositionsInFormatted(formatted, dec);
    assert formatted[..|formatted|] == formatted;
    var newCaretPos: int;
    if leftNumericCount <= 0 {
      newCaretPos := if |numericPos| > 0 then numericPos[0] else |formatted|;
    } else if leftNumericCount >= |numericPos| {
      newCaretPos := |formatted|;
    } else {
      NumericCountStep(formatted, numericPos[leftNumericCount - 1], dec);
      newCaretPos := numericPos[leftNumericCount - 1] + 1;
    }
    caret := Clamp(newCaretPos, |formatted|);
  }

  /** `Math.max(0, Math.min(len, x))`. */
  function Clamp(x: int, len: nat): (r: nat)
    ensures r <= len
    ensures 0 <= x <= len ==> r == x
    ensures x < 0 ==> r == 0
    ensures x > len ==> r == len
  {
    if x < 0 then 0 else Min(len, x)
  }

  // ---------------------------------------------------------------------------
  // Rendering and the edit pipeline
  // ---------------------------------------------------------------------------

  /**
   * _render: the display becomes the formatted value; the caret goes after the
   * last numeric character, or, given the pre-edit text and caret, is reconciled.
   */
  method Render(f: Field, fmt: real -> string, previous: Option<(string, nat)>) returns (g: Field)
    ensures g.value == f.value && g.precision == f.precision && g.profile == f.profile
    ensures g.display == fmt(f.value)
    ensures previous.None? ==> AfterLastNumeric(g.display, f.profile.decimalSeparator, g.caret)
    ensures previous.Some? ==>
      var (raw, before) := previous.value;
      Reconciled(g.display, f.profile.decimalSeparator,
                 NumericCount(raw[..Min(before, |raw|)], f.profile.decimalSeparator), g.caret)
  {
    var formatted := fmt(f.value);
    var caret: nat;
    match previous {
      case None =>
        caret := EndCaret(formatted, f.profile.decimalSeparator);
      case Some((raw, before)) =>
        caret := ReconcileCaret(formatted, raw, before, f.profile.decimalSeparator);
    }
    g := f.(display := formatted, caret := caret);
  }

  /**
   * _onInput: normalize the edited text; an unparseable result keeps the old
   * value and raises nothing, a parseable one replaces the value and raises one
   * input event. Either way the field is re-rendered from its value.
   */
  method OnInput(f: Field, raw: string, caret: nat, fmt: real -> string, parse: string -> Option<real>)
    returns (g: Field, events: seq<DomEvent>)
    ensures var parsed := parse(NormalizeEdit(raw, f.profile, f.precision));
      && (parsed.None? ==> g.value == f.value && events == [])
      && (parsed.Some? ==> g.value == parsed.value && events == [InputEvent])
    ensures g.precision == f.precision && g.profile == f.profile
    ensures g.display == fmt(g.value)
    ensures Reconciled(g.display, f.profile.decimalSeparator,
                       NumericCount(raw[..Min(caret, |raw|)], f.profile.decimalSeparator), g.caret)
  {
    var norm := NormalizeEdit(raw, f.profile, f.precision);
    var number := parse(norm);
    match number
    case None =>
      g := Render(f, fmt, Some((raw, caret)));
      events := [];
    case Some(n) =>
      g := Render(f.(value := n), fmt, Some((raw, caret)));
      events := [InputEvent];
  }

  /** The `value` setter: NaN is ignored; a number is stored, rendered and announced. */
  method SetValue(f: Field, v: Option<real>, fmt: real -> string) returns (g: Field, events: seq<DomEvent>)
    ensures v.None? ==> g == f && events == []
    ensures v.Some? ==> g.value == v.value && g.display == fmt(v.value) && events == [InputEvent]
    ensures v.Some? ==> AfterLastNumeric(g.display, f.profile.decimalSeparator, g.caret)
    ensures g.precision == f.precision && g.profile == f.profile
  {
    match v
    case None =>
      g, events := f, [];
    case Some(n) =>
      g := Render(f.(value := n), fmt, None);
      events := [InputEvent];
  }

  /** _onBlur: re-render with the caret after the last numeric character and raise change. */
  method OnBlur(f: Field, fmt: real -> string) returns (g: Field, events: seq<DomEvent>)
    ensures g.value == f.value && g.display == fmt(f.value) && events == [ChangeEvent]
    ensures AfterLastNumeric(g.display, f.profile.decimalSeparator, g.caret)
    ensures g.precision == f.precision && g.profile == f.profile
  {
    g := Render(f, fmt, None);
    events := [ChangeEvent];
  }

  // ---------------------------------------------------------------------------
  // The keydown filter
  // ---------------------------------------------------------------------------

  /**
   * Where ArrowLeft lands from `from`: one step left, then on past non-numeric
   * characters, stopping right after a numeric character or at 0.
   */
  predicate LeftStop(value: string, from: nat, dec: char, pos: nat) {
    var start := if from > 0 then from - 1 else 0;
    && pos <= start
    && (pos == 0 || IsNumericAt(value, pos - 1, dec))
    && forall j :: pos <= j < start ==> !IsNumericAt(value, j, dec)
  }

  /**
   * Where ArrowRight lands from `from`: one step right (not past the end), then
   * on past non-numeric characters, stopping at a numeric character or the end.
   */
  predicate RightStop(value: string, from: nat, dec: char, pos: nat) {
    var start := Min(|value|, from + 1);
    && start <= pos <= |value|
    && (pos == |value| || IsNumericAt(value, pos, dec))
    && forall j :: start <= j < pos ==> !IsNumericAt(value, j, dec)
  }

  lemma LeftStopUnique(value: string, from: nat, dec: char, p: nat, q: nat)
    requires LeftStop(value, from, dec, p) && LeftStop(value, from, dec, q)
    ensures p == q
  {
  }

  lemma RightStopUnique(value: string, from: nat, dec: char, p: nat, q: nat)
    requires RightStop(value, from, dec, p) && RightStop(value, from, dec, q)
    ensures p == q
  {
  }

  method SkipLeft(value: string, from: nat, dec: char) returns (pos: nat)
    ensures LeftStop(value, from, dec, pos)
    ensures pos <= |value|
  {
    pos := if from > 0 then from - 1 else 0;
    ghost var start := pos;
    while pos > 0 && !IsNumericAt(value, pos - 1, dec)
      invariant pos <= start
      invariant forall j :: pos <= j < start ==> !IsNumericAt(value, j, dec)
    {
      pos := pos - 1;
    }
  }

  method SkipRight(value: string, from: nat, dec: char) returns (pos: nat)
    ensures RightStop(value, from, dec, pos)
  {
    pos := Min(|value|, from + 1);
    ghost var start := pos;
    while pos < |value| && !IsNumericAt(value, pos, dec)
      invariant start <= pos <= |value|
      invariant forall j :: start <= j < pos ==> !IsNumericAt(value, j, dec)
    {
      pos := pos + 1;
    }
  }

  predicate IsPlain(key: Key) {
    !key.ctrlKey && !key.metaKey && !key.altKey
  }

  predicate IsArrowKey(name: string) {
    name == "ArrowLeft" || name == "ArrowRight"
  }

  /** The `dir` attribute, lower-cased, reads "rtl" (an absent attribute reads ""). */
  predicate IsRtlDirection(dir: string) {
    Lower(dir) == "rtl"
  }

  predicate IsDigitKey(name: string) {
    |name| == 1 && IsDigit(name[0])
  }

  predicate IsDecimalKey(name: string, dec: char) {
    name == [dec] || name == "."
  }

  /**
   * _onKeyDown. Modified keys pass; the arrows move the caret over numeric
   * characters (both leftwards in a right-to-left field); the always-allowed
   * keys and digits pass; a decimal key passes only while the field has a
   * fraction and no separator yet; everything else is suppressed.
   */
  method OnKeyDown(key: Key, dir: string, value: string, selectionStart: nat, precision: nat, dec: char)
    returns (o: KeyOutcome)
    ensures !IsPlain(key) ==> o == PassThrough
    ensures IsPlain(key) && IsArrowKey(key.name) ==> o.MoveCaret? && o.position <= |value|
    ensures IsPlain(key) && (key.name == "ArrowLeft" || (key.name == "ArrowRight" && IsRtlDirection(dir))) ==>
      o.MoveCaret? && LeftStop(value, selectionStart, dec, o.position)
    ensures IsPlain(key) && key.name == "ArrowRight" && !IsRtlDirection(dir) ==>
      o.MoveCaret? && RightStop(value, selectionStart, dec, o.position)
    ensures IsPlain(key) && !IsArrowKey(key.name) ==> !o.MoveCaret?
    ensures IsPlain(key) && !IsArrowKey(key.name) ==>
      (o == PassThrough <==>
        key.name in AlwaysAllowed || IsDigitKey(key.name)
        || (IsDecimalKey(key.name, dec) && precision != 0 && dec !in value && '.' !in value))
  {
    if key.ctrlKey || key.metaKey || key.altKey {
      return PassThrough;
    }
    var isRtl := Lower(dir) == "rtl";
    if key.name == "ArrowLeft" || key.name == "ArrowRight" {
      var pos: nat;
      if key.name == "ArrowLeft" || isRtl {
        pos := SkipLeft(value, selectionStart, dec);
      } else {
        pos := SkipRight(value, selectionStart, dec);
      }
      return MoveCaret(pos);
    }
    if key.name in AlwaysAllowed {
      return PassThrough;
    }
    var isDigit := |key.name| == 1 && IsDigit(key.name[0]);
    var isDot := key.name == [dec] || key.name == ".";
    if isDigit {
      return PassThrough;
    }
    if isDot {
      if precision == 0 || dec in value || '.' in value {
        return Suppress;
      }
      return PassThrough;
    }
    return Suppress;
  }
}
