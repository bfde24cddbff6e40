/** The price normaliser both supplier adapters run on the extracted price
    text: the regular-expression clean-up `re.sub(r'[^\d,.]', '', text)`, the
    decimal-comma replacement `.replace(',', '.')`, and Python's `float` on the
    result inside a `try` whose `ValueError` leaves the price absent. The value
    is kept as an exact decimal instead of a binary float. */
module Price {
  import opened Wrappers
  import opened Text

  /** The number mantissa × 10^(-scale); 1234.56 is Decimal(123456, 2). */
  datatype Decimal = Decimal(mantissa: nat, scale: nat)

  predicate IsSep(c: char) { c == ',' || c == '.' }

  /** The characters the pattern `[^\d,.]` does NOT remove. */
  predicate IsPriceChar(c: char) { IsDigit(c) || IsSep(c) }

  predicate NoPriceChars(s: string) {
    forall k :: 0 <= k < |s| ==> !IsPriceChar(s[k])
  }

  /** The alphabet of a cleaned price: digits and dots only. */
  predicate IsCleaned(s: string) {
    forall k :: 0 <= k < |s| ==> IsDigit(s[k]) || s[k] == '.'
  }

  // ---------------------------------------------------------------------------
  // Clean-up
  // ---------------------------------------------------------------------------

  /** `re.sub(r'[^\d,.]', '', s)`: only digits, commas and dots are left. */
  function Keep(s: string): (r: string)
    ensures forall k :: 0 <= k < |r| ==> IsPriceChar(r[k])
  {
    if s == [] then [] else (if IsPriceChar(s[0]) then [s[0]] else []) + Keep(s[1..])
  }

  /** The clean-up keeps each digit, comma and dot exactly as often as it
      occurs in the text, and nothing else. */
  lemma {:induction false} KeepCounts(s: string)
    ensures forall c :: multiset(Keep(s))[c] == if IsPriceChar(c) then multiset(s)[c] else 0
  {
    if s != [] {
      KeepCounts(s[1..]);
      assert s == [s[0]] + s[1..];
    }
  }

  /** `s.replace(',', '.')`. */
  function CommaToDot(s: string): (r: string)
    ensures |r| == |s|
    ensures forall k :: 0 <= k < |s| ==> r[k] == if s[k] == ',' then '.' else s[k]
  {
    if s == [] then [] else [if s[0] == ',' then '.' else s[0]] + CommaToDot(s[1..])
  }

  /** The cleaned price text: one character per digit, comma or dot of `s`,
      with no comma left. */
  function Clean(s: string): (r: string)
    ensures IsCleaned(r)
    ensures |r| == |Keep(s)|
  {
    CommaToDot(Keep(s))
  }

  /** The clean-up works character by character and keeps the order: cleaning
      a concatenation is concatenating the cleaned parts. */
  lemma CleanConcat(a: string, b: string)
    ensures Keep(a + b) == Keep(a) + Keep(b)
    ensures Clean(a + b) == Clean(a) + Clean(b)
  {
    KeepConcat(a, b);
    CommaToDotConcat(Keep(a), Keep(b));
  }

  lemma {:induction false} KeepConcat(a: string, b: string)
    ensures Keep(a + b) == Keep(a) + Keep(b)
  {
    if a == [] {
      assert a + b == b;
    } else {
      assert (a + b)[1..] == a[1..] + b;
      KeepConcat(a[1..], b);
      assert Keep(a + b) == (if IsPriceChar(a[0]) then [a[0]] else []) + Keep(a[1..] + b);
    }
  }

  lemma CommaToDotConcat(a: string, b: string)
    ensures CommaToDot(a + b) == CommaToDot(a) + CommaToDot(b)
  {
    var l, r := CommaToDot(a + b), CommaToDot(a) + CommaToDot(b);
    assert |l| == |r|;
    forall k | 0 <= k < |l| ensures l[k] == r[k] {
      if k < |a| {
        assert (a + b)[k] == a[k];
      } else {
        assert (a + b)[k] == b[k - |a|];
      }
    }
  }

  /** A string that already is a clean price is left unchanged, so cleaning
      is idempotent. */
  lemma {:induction false} CleanIdempotent(s: string)
    ensures Clean(Clean(s)) == Clean(s)
  {
    CleanedIsFixed(Clean(s));
  }

  lemma {:induction false} CleanedIsFixed(s: string)
    requires IsCleaned(s)
    ensures Clean(s) == s
  {
    if s != [] {
      CleanedIsFixed(s[1..]);
      assert Keep(s) == [s[0]] + Keep(s[1..]);
      assert CommaToDot(Keep(s)) == [s[0]] + CommaToDot(Keep(s[1..]));
    }
  }

  // ---------------------------------------------------------------------------
  // What a price text says: its digits and its separators
  // ---------------------------------------------------------------------------

  /** The digits of `s`, in order. */
  function Digits(s: string): (ds: string)
    ensures |ds| <= |s|
  {
    if s == [] then [] else (if IsDigit(s[0]) then [s[0]] else []) + Digits(s[1..])
  }

  lemma {:induction false} DigitsAreDigits(s: string)
    ensures AllDigits(Digits(s))
  {
    if s != [] {
      DigitsAreDigits(s[1..]);
    }
  }

  /** The number the digits of `s` spell when read as one digit string,
      whatever else stands between them. */
  function DigitsNumber(s: string): nat {
    DigitsAreDigits(s);
    DigitsValue(Digits(s))
  }

  /** How many commas and dots `s` holds. */
  function SepCount(s: string): nat {
    if s == [] then 0 else (if IsSep(s[0]) then 1 else 0) + SepCount(s[1..])
  }

  /** How many digits follow the first comma or dot of `s` (0 if none). */
  function FracDigits(s: string): nat {
    if s == [] then 0
    else if IsSep(s[0]) then |Digits(s[1..])|
    else FracDigits(s[1..])
  }

  lemma CountsConcat(a: string, b: string)
    ensures Digits(a + b) == Digits(a) + Digits(b)
    ensures SepCount(a + b) == SepCount(a) + SepCount(b)
    ensures FracDigits(a + b) ==
      if SepCount(a) == 0 then FracDigits(b) else FracDigits(a) + |Digits(b)|
  {
    DigitsConcat(a, b);
    SepCountConcat(a, b);
    FracDigitsConcat(a, b);
  }

  lemma {:induction false} DigitsConcat(a: string, b: string)
    ensures Digits(a + b) == Digits(a) + Digits(b)
  {
    if a == [] {
      assert a + b == b;
    } else {
      assert (a + b)[1..] == a[1..] + b;
      DigitsConcat(a[1..], b);
      var h := if IsDigit(a[0]) then [a[0]] else [];
      assert Digits(a + b) == h + Digits(a[1..] + b);
      assert h + (Digits(a[1..]) + Digits(b)) == (h + Digits(a[1..])) + Digits(b);
    }
  }

  lemma {:induction false} SepCountConcat(a: string, b: string)
    ensures SepCount(a + b) == SepCount(a) + SepCount(b)
  {
    if a == [] {
      assert a + b == b;
    } else {
      assert (a + b)[1..] == a[1..] + b;
      SepCountConcat(a[1..], b);
    }
  }

  lemma {:induction false} FracDigitsConcat(a: string, b: string)
    ensures FracDigits(a + b) ==
      if SepCount(a) == 0 then FracDigits(b) else FracDigits(a) + |Digits(b)|
  {
    if a == [] {
      assert a + b == b;
    } else {
      assert (a + b)[1..] == a[1..] + b;
      if IsSep(a[0]) {
        DigitsConcat(a[1..], b);
      } else {
        FracDigitsConcat(a[1..], b);
      }
    }
  }

  lemma {:induction false} CountsOfNoPriceChars(s: string)
    requires NoPriceChars(s)
    ensures Digits(s) == [] && SepCount(s) == 0 && FracDigits(s) == 0
  {
    if s != [] {
      CountsOfNoPriceChars(s[1..]);
    }
  }

  lemma {:induction false} CountsOfDigits(s: string)
    requires AllDigits(s)
    ensures Digits(s) == s && SepCount(s) == 0 && FracDigits(s) == 0
  {
    if s != [] {
      CountsOfDigits(s[1..]);
    }
  }

  /** Cleaning loses nothing the parse looks at: the same digits in the same
      order, as many separators, and as many digits after the first one. */
  lemma {:induction false} CleanPreservesCounts(s: string)
    ensures Digits(Clean(s)) == Digits(s)
    ensures SepCount(Clean(s)) == SepCount(s)
    ensures FracDigits(Clean(s)) == FracDigits(s)
  {
    if s != [] {
      var head, tail := [s[0]], s[1..];
      assert s == head + tail;
      CleanConcat(head, tail);
      CountsConcat(head, tail);
      CountsConcat(Clean(head), Clean(tail));
      CleanPreservesCounts(tail);
      if !IsPriceChar(s[0]) {
        assert Keep(head) == [];
      } else {
        assert Keep(head) == head;
      }
    }
  }

  // ---------------------------------------------------------------------------
  // Parse
  // ---------------------------------------------------------------------------

  /** The position of the first dot of `s`, or |s| when there is none. */
  function IndexOfDot(s: string): (i: nat)
    ensures i <= |s|
    ensures forall k :: 0 <= k < i ==> s[k] != '.'
    ensures i < |s| ==> s[i] == '.'
  {
    if s == [] || s[0] == '.' then 0 else 1 + IndexOfDot(s[1..])
  }

  /** Python's `float(s)` on a string of digits and dots (the only strings
      the clean-up produces). It accepts a digit part, optionally followed by
      a dot and a second digit part, with at least one digit in all ("12",
      "12.5", "12." and ".5"); it raises ValueError, here None, on everything
      else ("", ".", "1.2.3"). */
  function ParseFloat(s: string): (r: Option<Decimal>)
    requires IsCleaned(s)
    ensures IndexOfDot(s) == |s| ==> (r.Some? <==> s != [])
    ensures r.Some? && IndexOfDot(s) == |s| ==> r.value.scale == 0
    ensures r.Some? ==> r.value.scale < |s|
  {
    var i := IndexOfDot(s);
    if i == |s| then
      if s == [] then None else Some(Decimal(DigitsValue(s), 0))
    else
      ParseFraction(s[..i], s[i + 1..])
  }

  /** The parse of a digit part followed by a dot and `fracPart`. */
  function ParseFraction(intPart: string, fracPart: string): Option<Decimal>
    requires AllDigits(intPart) && IsCleaned(fracPart)
  {
    if IndexOfDot(fracPart) < |fracPart| || (intPart == [] && fracPart == []) then
      None
    else
      Some(Decimal(DigitsValue(intPart + fracPart), |fracPart|))
  }

  /** A cleaned string without a dot is a digit string. */
  lemma CleanedWithoutDot(s: string)
    requires IsCleaned(s) && IndexOfDot(s) == |s|
    ensures AllDigits(s)
  {
    forall k | 0 <= k < |s| ensures IsDigit(s[k]) {
      assert s[k] != '.';
    }
  }

  /** A cleaned string holds a dot exactly when it holds a separator. */
  lemma {:induction false} DotIffSep(s: string)
    requires IsCleaned(s)
    ensures IndexOfDot(s) < |s| <==> SepCount(s) > 0
  {
    if s != [] && s[0] != '.' {
      DotIffSep(s[1..]);
    }
  }

  /** `float` succeeds on a cleaned string exactly when it has at least one
      digit and at most one dot, and then denotes its digits read as one
      number, scaled by the number of digits after the dot. */
  lemma ParseFloatSpec(s: string)
    requires IsCleaned(s)
    ensures ParseFloat(s).Some? <==> Digits(s) != [] && SepCount(s) <= 1
    ensures ParseFloat(s).Some? ==>
      ParseFloat(s).value == Decimal(DigitsNumber(s), FracDigits(s))
  {
    var i := IndexOfDot(s);
    if i == |s| {
      CleanedWithoutDot(s);
      CountsOfDigits(s);
    } else {
      ParseFloatWithDot(s, i);
    }
  }

  lemma ParseFloatWithDot(s: string, i: nat)
    requires IsCleaned(s) && i == IndexOfDot(s) < |s|
    ensures ParseFloat(s).Some? <==> Digits(s) != [] && SepCount(s) <= 1
    ensures ParseFloat(s).Some? ==>
      ParseFloat(s).value == Decimal(DigitsNumber(s), FracDigits(s))
  {
    var intPart, fracPart := SplitAtDot(s, i);
    ParseFractionSpec(intPart, fracPart);
  }

  /** A cleaned string with its first dot at `i`: the digits before it, and
      what follows it, which is where `ParseFloat` looks. */
  lemma SplitAtDot(s: string, i: nat) returns (intPart: string, fracPart: string)
    requires IsCleaned(s) && i == IndexOfDot(s) < |s|
    ensures AllDigits(intPart) && IsCleaned(fracPart)
    ensures s == intPart + (['.'] + fracPart)
    ensures ParseFloat(s) == ParseFraction(intPart, fracPart)
  {
    intPart, fracPart := s[..i], s[i + 1..];
    assert s == intPart + (['.'] + fracPart);
  }

  lemma ParseFractionSpec(intPart: string, fracPart: string)
    requires AllDigits(intPart) && IsCleaned(fracPart)
    ensures var s := intPart + (['.'] + fracPart);
      && (ParseFraction(intPart, fracPart).Some? <==> Digits(s) != [] && SepCount(s) <= 1)
      && (ParseFraction(intPart, fracPart).Some? ==>
           ParseFraction(intPart, fracPart).value == Decimal(DigitsNumber(s), FracDigits(s)))
  {
    CountsAroundSep(intPart, '.', fracPart);
    DotIffSep(fracPart);
    if IndexOfDot(fracPart) == |fracPart| {
      ParseFloatOneDot(intPart, fracPart);
    }
  }

  lemma ParseFloatOneDot(intPart: string, fracPart: string)
    requires AllDigits(intPart) && IsCleaned(fracPart) && IndexOfDot(fracPart) == |fracPart|
    ensures Digits(intPart + (['.'] + fracPart)) == intPart + fracPart
    ensures AllDigits(intPart + fracPart)
  {
    CleanedWithoutDot(fracPart);
    CountsOfDigits(fracPart);
    CountsAroundSep(intPart, '.', fracPart);
  }

  /** A digit part, a separator, and the rest. */
  lemma CountsAroundSep(intPart: string, sep: char, rest: string)
    requires AllDigits(intPart) && IsSep(sep)
    ensures Digits(intPart + ([sep] + rest)) == intPart + Digits(rest)
    ensures SepCount(intPart + ([sep] + rest)) == 1 + SepCount(rest)
    ensures FracDigits(intPart + ([sep] + rest)) == |Digits(rest)|
  {
    var t := [sep] + rest;
    SepHead(sep, rest);
    CountsOfDigits(intPart);
    DigitsConcat(intPart, t);
    SepCountConcat(intPart, t);
    FracDigitsConcat(intPart, t);
  }

  lemma SepHead(sep: char, rest: string)
    requires IsSep(sep)
    ensures Digits([sep] + rest) == Digits(rest)
    ensures SepCount([sep] + rest) == 1 + SepCount(rest)
    ensures FracDigits([sep] + rest) == |Digits(rest)|
  {
    assert ([sep] + rest)[1..] == rest;
  }

  // ---------------------------------------------------------------------------
  // The price of a product
  // ---------------------------------------------------------------------------

  /** `prix` computed from the stripped price text (absent when no price
      element was found): present exactly when the text holds at least one
      digit and at most one comma or dot, and then the number its digits
      spell with the first comma or dot as decimal point. Otherwise the price
      is simply absent; this is never an error. */
  function ParsePrice(prixText: Option<string>): (prix: Option<Decimal>)
    ensures prix.Some? <==>
      prixText.Some? && Digits(prixText.value) != [] && SepCount(prixText.value) <= 1
    ensures prix.Some? ==>
      prix.value == Decimal(DigitsNumber(prixText.value), FracDigits(prixText.value))
  {
    match prixText
    case None => None
    case Some(t) =>
      if t == [] then
        None
      else
        CleanPreservesCounts(t);
        ParseFloatSpec(Clean(t));
        ParseFloat(Clean(t))
  }

  /** French formatting with a space and the euro sign parses to 1234.56. */
  lemma ParsePriceFrench()
    ensures ParsePrice(Some("1 234,56 €")) == Some(Decimal(123456, 2))
  {
    FrenchDigits();
    FrenchSeparators();
    DigitsValueExample();
  }

  /** Helper of `ParsePriceFrench`: the digits of the example. */
  lemma FrenchDigits()
    ensures Digits("1 234,56 €") == "123456"
  {
  }

  /** Helper of `ParsePriceFrench`: its one separator and two fraction digits. */
  lemma FrenchSeparators()
    ensures SepCount("1 234,56 €") == 1
    ensures FracDigits("1 234,56 €") == 2
  {
    FrenchFraction();
  }

  /** Helper of `FrenchSeparators`: the two digits after the comma. */
  lemma FrenchFraction()
    ensures FracDigits("1 234,56 €") == 2
  {
    assert "1 234,56 €" == "1 234" + ([','] + "56 €");
    assert SepCount("1 234") == 0;
    FracDigitsConcat("1 234", [','] + "56 €");
    SepHead(',', "56 €");
    assert Digits("56 €") == "56";
  }

  /** A thousands dot next to a decimal comma makes two separators: no price. */
  lemma ParsePriceThousandsDot()
    ensures ParsePrice(Some("1.234,56")) == None
  {
    SepCountConcat("1.", "234,56");
    assert "1." + "234,56" == "1.234,56";
    assert SepCount("1.") == 1;
    assert SepCount("234,56") == 1;
  }

  /** A text without digits gives no price, and neither does an empty one. */
  lemma ParsePriceNoDigits()
    ensures ParsePrice(Some("Contact us")) == None
    ensures ParsePrice(Some("")) == None
  {
    assert Digits("Contact us") == [];
  }

  /** Helper of `ParsePriceFrench`: the value of the example's digit string. */
  lemma DigitsValueExample()
    ensures DigitsValue("123456") == 123456
  {
    assert "123456"[..5] == "12345";
    assert "12345"[..4] == "1234";
    assert "1234"[..3] == "123";
    assert "123"[..2] == "12";
    assert "12"[..1] == "1";
    assert "1"[..0] == "";
  }

  // ---------------------------------------------------------------------------
  // Round trip with a rendering of the price
  // ---------------------------------------------------------------------------

  /** The digits of the mantissa, zero-padded so that there is at least one
      digit before the decimal point. */
  function PaddedDigits(d: Decimal): (ds: string)
    ensures AllDigits(ds) && |ds| > d.scale
    ensures DigitsValue(ds) == d.mantissa
  {
    var m := NatToString(d.mantissa);
    var pad := if |m| > d.scale then 0 else d.scale + 1 - |m|;
    LeadingZeros(pad, m);
    Zeros(pad) + m
  }

  /** How a shop would print the price, with `sep` as decimal mark:
      Decimal(123456, 2) with ',' is "1234,56", Decimal(5, 2) is "0,05". */
  function Render(d: Decimal, sep: char): string
    requires IsSep(sep)
  {
    var ds := PaddedDigits(d);
    if d.scale == 0 then ds else ds[..|ds| - d.scale] + [sep] + ds[|ds| - d.scale..]
  }

  /** The rendering shows the padded mantissa digits, one decimal mark when
      the scale is positive, and `scale` digits after it. */
  lemma RenderCounts(d: Decimal, sep: char)
    requires IsSep(sep)
    ensures Digits(Render(d, sep)) == PaddedDigits(d)
    ensures SepCount(Render(d, sep)) == if d.scale == 0 then 0 else 1
    ensures FracDigits(Render(d, sep)) == d.scale
  {
    var ds := PaddedDigits(d);
    if d.scale == 0 {
      CountsOfDigits(ds);
    } else {
      CountsOfSplitDigits(ds, |ds| - d.scale, sep);
    }
  }

  /** Digits with a separator put in at position `i`. */
  lemma CountsOfSplitDigits(ds: string, i: nat, sep: char)
    requires AllDigits(ds) && i <= |ds| && IsSep(sep)
    ensures Digits(ds[..i] + [sep] + ds[i..]) == ds
    ensures SepCount(ds[..i] + [sep] + ds[i..]) == 1
    ensures FracDigits(ds[..i] + [sep] + ds[i..]) == |ds| - i
  {
    var hi, lo := ds[..i], ds[i..];
    SplitDigits(ds, i);
    CountsOfDigits(lo);
    CountsAroundSep(hi, sep, lo);
    assert hi + [sep] + lo == hi + ([sep] + lo);
  }

  lemma SplitDigits(ds: string, i: nat)
    requires AllDigits(ds) && i <= |ds|
    ensures AllDigits(ds[..i]) && AllDigits(ds[i..]) && ds[..i] + ds[i..] == ds
  {
    assert forall k :: i <= k < |ds| ==> ds[i..][k - i] == ds[k];
  }

  /** Text without digits, commas or dots around a price changes none of the
      counts the parse depends on. */
  lemma {:induction false} SurroundedCounts(prefix: string, x: string, suffix: string)
    requires NoPriceChars(prefix) && NoPriceChars(suffix)
    ensures Digits(prefix + x + suffix) == Digits(x)
    ensures SepCount(prefix + x + suffix) == SepCount(x)
    ensures FracDigits(prefix + x + suffix) == FracDigits(x)
  {
    CountsOfNoPriceChars(prefix);
    CountsOfNoPriceChars(suffix);
    CountsConcat(prefix, x);
    CountsConcat(prefix + x, suffix);
    assert Digits(x) + [] == Digits(x);
    if SepCount(x) == 0 {
      NoSepNoFrac(x);
    }
  }

  lemma {:induction false} NoSepNoFrac(s: string)
    requires SepCount(s) == 0
    ensures FracDigits(s) == 0
  {
    if s != [] {
      NoSepNoFrac(s[1..]);
    }
  }

  /** Every price printed with a comma or a dot, surrounded by any text that
      has no digit, comma or dot (a currency sign, "TTC", spaces), is read
      back as exactly that price. */
  lemma {:induction false} RenderRoundTrip(d: Decimal, sep: char, prefix: string, suffix: string)
    requires IsSep(sep)
    requires NoPriceChars(prefix) && NoPriceChars(suffix)
    ensures ParsePrice(Some(prefix + Render(d, sep) + suffix)) == Some(d)
  {
    RenderCounts(d, sep);
    SurroundedCounts(prefix, Render(d, sep), suffix);
  }

  /** Whitespace around a price text changes none of the counts the parse
      depends on, so stripping the extracted text never changes the price. */
  lemma StripKeepsCounts(t: string)
    ensures Digits(Strip(t)) == Digits(t)
    ensures SepCount(Strip(t)) == SepCount(t)
    ensures FracDigits(Strip(t)) == FracDigits(t)
  {
    var prefix, suffix := StripSplit(t);
    SpacesAreNotPriceChars(prefix);
    SpacesAreNotPriceChars(suffix);
    SurroundedCounts(prefix, Strip(t), suffix);
  }

  lemma SpacesAreNotPriceChars(s: string)
    requires AllSpace(s)
    ensures NoPriceChars(s)
  {
  }
}
