/**
 * `extract_price`: the numeric value of a price that may be a number or
 * free text such as "$1,234.50". Values are exact decimals; the nearest
 * binary float that Python would return is not modelled.
 */
module Prices {
  import opened Wrappers
  import opened Text
  import opened JsonValue

  /** A Python float as `extract_price` can return it. */
  datatype Price = Amount(value: real) | Infinity(negative: bool) | NotANumber

  /** The currency symbols removed one after another: rupee, dollar, euro, pound, yen. */
  const Symbols: seq<char> := ['\U{20B9}', '$', '\U{20AC}', '\U{a3}', '\U{a5}']

  /** Every character the cleaning step removes: the symbols, then commas, then spaces. */
  const Ignored: seq<char> := Symbols + [',', ' ']

  /** Upper-cased texts that stand for "no price". */
  const NoPriceWords: seq<string> := ["NA", "N/A", "NONE", "NULL", "-"]

  // ---------------------------------------------------------------------
  // Cleaning
  // ---------------------------------------------------------------------

  /** `s` with every character of `cs` removed (`s.replace(c, '')` for each `c`). */
  function Without(s: string, cs: seq<char>): (r: string)
    ensures |r| <= |s|
  {
    if s == [] then []
    else (if s[0] in cs then [] else [s[0]]) + Without(s[1..], cs)
  }

  /** What is left is exactly the characters of `s` outside `cs`. */
  lemma {:induction false} WithoutKeeps(s: string, cs: seq<char>)
    ensures forall c :: c in Without(s, cs) <==> c in s && c !in cs
  {
    if s != [] {
      WithoutKeeps(s[1..], cs);
      assert s == [s[0]] + s[1..];
    }
  }

  /** Removing one more character after a set of them is removing the larger set. */
  lemma {:induction false} WithoutMore(s: string, cs: seq<char>, c: char)
    ensures Without(Without(s, cs), [c]) == Without(s, cs + [c])
  {
    if s != [] {
      WithoutMore(s[1..], cs, c);
      var head := if s[0] in cs then [] else [s[0]];
      WithoutAppend(head, Without(s[1..], cs), [c]);
    }
  }

  lemma {:induction false} WithoutAppend(a: string, b: string, cs: seq<char>)
    ensures Without(a + b, cs) == Without(a, cs) + Without(b, cs)
  {
    if a == [] {
      assert a + b == b;
    } else {
      var h := if a[0] in cs then [] else [a[0]];
      assert (a + b)[0] == a[0] && (a + b)[1..] == a[1..] + b;
      assert Without(a + b, cs) == h + Without(a[1..] + b, cs);
      assert Without(a, cs) == h + Without(a[1..], cs);
      WithoutAppend(a[1..], b, cs);
      assert h + (Without(a[1..], cs) + Without(b, cs)) == (h + Without(a[1..], cs)) + Without(b, cs);
    }
  }

  /** A string with none of the characters is left as it is. */
  lemma {:induction false} WithoutNothingToRemove(s: string, cs: seq<char>)
    requires forall k :: 0 <= k < |s| ==> s[k] !in cs
    ensures Without(s, cs) == s
  {
    if s != [] {
      WithoutNothingToRemove(s[1..], cs);
    }
  }

  // ---------------------------------------------------------------------
  // The number the regex `(\d+(\.\d+)?)` captures
  // ---------------------------------------------------------------------

  /** A decimal written as whole digits and fraction digits (`"1234.50"` is `Number("1234", "50")`). */
  datatype Number = Number(whole: string, fraction: string)

  function Pow10(n: nat): (p: nat)
    ensures p >= 1
  {
    if n == 0 then 1 else 10 * Pow10(n - 1)
  }

  /** The value `float()` gives the captured text, as an exact decimal. */
  function Decimal(n: Number): real
    requires AllDigits(n.whole) && AllDigits(n.fraction)
  {
    DigitsValue(n.whole) as real + DigitsValue(n.fraction) as real / Pow10(|n.fraction|) as real
  }

  /** The index of the first digit at or after `i`. */
  function FirstDigit(t: string, i: nat): (r: Option<nat>)
    requires i <= |t|
    ensures r.Some? ==> i <= r.value < |t| && IsDigit(t[r.value])
    ensures r.Some? ==> forall k :: i <= k < r.value ==> !IsDigit(t[k])
    ensures r.None? ==> forall k :: i <= k < |t| ==> !IsDigit(t[k])
    decreases |t| - i
  {
    if i == |t| then None
    else if IsDigit(t[i]) then Some(i)
    else FirstDigit(t, i + 1)
  }

  /** No digit comes before position `i`. */
  predicate NoDigitBefore(t: string, i: nat) {
    i <= |t| && forall k :: 0 <= k < i ==> !IsDigit(t[k])
  }

  /**
   * `n` is what `\d+(\.\d+)?` captures from a match starting at `i` whose
   * first digit run ends at `j`: both runs are as long as they can be, and
   * the fraction is taken exactly when a dot and a digit follow the first run.
   */
  predicate CapturedAt(t: string, i: nat, j: nat, n: Number) {
    && i < j <= |t|
    && n.whole == t[i..j] && AllDigits(n.whole)
    && (j < |t| ==> !IsDigit(t[j]))
    && if j + 1 < |t| && t[j] == '.' && IsDigit(t[j + 1]) then
         var e := j + 1 + |n.fraction|;
         && e <= |t| && n.fraction == t[j + 1..e] && AllDigits(n.fraction)
         && (e < |t| ==> !IsDigit(t[e]))
       else
         n.fraction == []
  }

  /** What `\d+(\.\d+)?` captures from a match that starts at the digit `t[i]`. */
  function CaptureFrom(t: string, i: nat): (n: Number)
    requires i < |t| && IsDigit(t[i])
    ensures CapturedAt(t, i, SpanDigits(t, i), n)
  {
    var j := SpanDigits(t, i);
    if j + 1 < |t| && t[j] == '.' && IsDigit(t[j + 1]) then Number(t[i..j], t[j + 1..SpanDigits(t, j + 1)])
    else Number(t[i..j], [])
  }

  /** A capture is determined by where it starts. */
  lemma CaptureIsUnique(t: string, i: nat, j: nat, n: Number)
    requires CapturedAt(t, i, j, n)
    ensures IsDigit(t[i]) && CaptureFrom(t, i) == n
  {
    DigitSlice(t, i, n.whole);
    SpanDigitsEnds(t, i, j);
    if j + 1 < |t| && t[j] == '.' && IsDigit(t[j + 1]) {
      DigitSlice(t, j + 1, n.fraction);
      SpanDigitsEnds(t, j + 1, j + 1 + |n.fraction|);
    }
  }

  /**
   * `re.search(r'(\d+(\.\d+)?)', t)`: the leftmost run of digits, with a
   * fraction when a dot and at least one digit follow it.
   */
  function FirstNumber(t: string): (r: Option<Number>)
    ensures r.None? <==> forall k :: 0 <= k < |t| ==> !IsDigit(t[k])
    ensures r.Some? ==> r.value.whole != [] && AllDigits(r.value.whole) && AllDigits(r.value.fraction)
  {
    match FirstDigit(t, 0)
    case None => None
    case Some(i) => Some(CaptureFrom(t, i))
  }

  /** The number found is the capture that starts at the first digit. */
  lemma FirstNumberCaptures(t: string)
    ensures FirstNumber(t).Some? ==> exists i, j :: NoDigitBefore(t, i) && CapturedAt(t, i, j, FirstNumber(t).value)
  {
    if FirstNumber(t).Some? {
      var i := FirstDigit(t, 0).value;
      assert NoDigitBefore(t, i) && CapturedAt(t, i, SpanDigits(t, i), FirstNumber(t).value);
    }
  }

  /** Conversely, the leftmost longest capture is the one the search returns. */
  lemma FirstNumberIsCapture(t: string, i: nat, j: nat, n: Number)
    requires NoDigitBefore(t, i) && CapturedAt(t, i, j, n)
    ensures FirstNumber(t) == Some(n)
  {
    CaptureIsUnique(t, i, j, n);
    assert FirstDigit(t, 0) == Some(i);
  }

  /** A slice that is all digits puts digits at its positions of `t`. */
  lemma DigitSlice(t: string, a: nat, f: string)
    requires a + |f| <= |t| && f == t[a..a + |f|] && AllDigits(f)
    ensures forall k :: a <= k < a + |f| ==> IsDigit(t[k])
  {
    forall k | a <= k < a + |f| ensures IsDigit(t[k]) {
      assert t[k] == f[k - a];
    }
  }

  // ---------------------------------------------------------------------
  // float() on text without digits
  // ---------------------------------------------------------------------

  /** Drops one leading sign character, reporting whether it was a minus. */
  function Unsigned(t: string): (bool, string) {
    if t != [] && (t[0] == '+' || t[0] == '-') then (t[0] == '-', t[1..]) else (false, t)
  }

  /**
   * `float(t)` for a text without digits: surrounding whitespace and one
   * sign are allowed around `inf`, `infinity` or `nan` in any case; any other
   * text raises ValueError (None).
   */
  function SpecialFloat(t: string): (r: Option<Price>)
    ensures r.Some? ==> !r.value.Amount?
  {
    var (negative, body) := Unsigned(Strip(t));
    var word := Lower(body);
    if word == "inf" || word == "infinity" then Some(Infinity(negative))
    else if word == "nan" then Some(NotANumber)
    else None
  }

  /** Lines 63-72: the value of a cleaned text. */
  function FromCleaned(t: string): (p: Price)
    ensures (exists k :: 0 <= k < |t| && IsDigit(t[k])) ==> p.Amount? && p.value >= 0.0
  {
    match FirstNumber(t)
    case Some(n) => Amount(Decimal(n))
    case None =>
      if t == [] then Amount(0.0)
      else
        match SpecialFloat(t)
        case Some(p) => p
        case None => Amount(0.0)
  }

  /**
   * `extract_price(v)`, where `show` is Python's `str()` for the list and
   * dict values the declared signature does not expect.
   */
  function PriceOf(v: Json, show: Json -> string): Price {
    if !Truthy(v) then Amount(0.0)
    else
      match v
      case JBool(_) => Amount(1.0)
      case JInt(i) => Amount(i as real)
      case JReal(r) => Amount(r)
      case JString(s) => TextPrice(s)
      case _ => FromCleaned(Without(show(v), Ignored))
  }

  /** Lines 50-72 for a string: the "no price" words, then the cleaned text. */
  function TextPrice(s: string): Price {
    if Upper(s) in NoPriceWords then Amount(0.0) else FromCleaned(Without(s, Ignored))
  }

  /** Lines 44-72, with the loop over the currency symbols. */
  method ExtractPrice(v: Json, show: Json -> string) returns (p: Price)
    ensures p == PriceOf(v, show)
  {
    if !Truthy(v) {
      return Amount(0.0);
    }
    if v.JBool? || v.JInt? || v.JReal? {
      p := if v.JBool? then Amount(1.0) else if v.JInt? then Amount(v.i as real) else Amount(v.r);
      return;
    }
    if v.JString? && Upper(v.s) in NoPriceWords {
      return Amount(0.0);
    }
    var text := if v.JString? then v.s else show(v);
    var cleaned := text;
    WithoutNothingToRemove(text, []);
    for i := 0 to |Symbols|
      invariant cleaned == Without(text, Symbols[..i])
    {
      WithoutMore(text, Symbols[..i], Symbols[i]);
      assert Symbols[..i + 1] == Symbols[..i] + [Symbols[i]];
      cleaned := Without(cleaned, [Symbols[i]]);
    }
    assert Symbols[..|Symbols|] == Symbols;
    WithoutMore(text, Symbols, ',');
    WithoutMore(text, Symbols + [','], ' ');
    assert Symbols + [','] + [' '] == Ignored;
    cleaned := Without(Without(cleaned, [',']), [' ']);
    p := FromCleaned(cleaned);
  }

  // ---------------------------------------------------------------------
  // Properties
  // ---------------------------------------------------------------------

  /** A price text with a digit never gives a negative amount: signs are dropped. */
  lemma TextWithDigitIsNonNegative(s: string, show: Json -> string)
    requires exists k :: 0 <= k < |s| && IsDigit(s[k])
    ensures PriceOf(JString(s), show).Amount? && PriceOf(JString(s), show).value >= 0.0
  {
    var k :| 0 <= k < |s| && IsDigit(s[k]);
    WithoutKeeps(s, Ignored);
    assert s[k] in Without(s, Ignored);
    DigitTextIsNoWord(s, k);
  }

  lemma DigitTextIsNoWord(s: string, k: nat)
    requires k < |s| && IsDigit(s[k])
    ensures Upper(s) !in NoPriceWords
  {
    assert IsDigit(Upper(s)[k]);
  }

  /** Lower-casing undoes upper-casing: `s.upper().lower() == s.lower()` on the ASCII range. */
  lemma LowerOfUpper(s: string)
    ensures Lower(Upper(s)) == Lower(s)
  {
  }

  /** A text without whitespace is its own `strip()`. */
  lemma StripNoSpace(s: string)
    requires forall k :: 0 <= k < |s| ==> !IsSpace(s[k])
    ensures Strip(s) == s
  {
  }

  /** The lower-case forms of the "no price" words. */
  const NoPriceLower: seq<string> := ["na", "n/a", "none", "null", "-"]

  lemma LowerNoPriceWord(w: string)
    requires w in NoPriceWords
    ensures Lower(w) in NoPriceLower
  {
    if w == "NA" {
      assert Lower(w) == "na";
    } else if w == "N/A" {
      assert Lower(w) == "n/a";
    } else if w == "NONE" {
      assert Lower(w) == "none";
    } else if w == "NULL" {
      assert Lower(w) == "null";
    } else {
      assert Lower(w) == "-";
    }
  }

  /** What is left of a lower-case "no price" word after dropping its first character. */
  const NoPriceTails: seq<string> := ["a", "/a", "one", "ull", ""]

  lemma NoPriceTail(x: string)
    requires x in NoPriceLower
    ensures x != [] && x[1..] in NoPriceTails
  {
    if x == "na" {
      assert x[1..] == "a";
    } else if x == "n/a" {
      assert x[1..] == "/a";
    } else if x == "none" {
      assert x[1..] == "one";
    } else if x == "null" {
      assert x[1..] == "ull";
    } else {
      assert x[1..] == "";
    }
  }

  /** `float()` rejects a "no price" word, with or without its first character. */
  lemma NotSpecialFloat(s: string)
    requires Strip(s) == s && Lower(s) in NoPriceLower
    ensures SpecialFloat(s).None?
  {
    NoPriceTail(Lower(s));
    var body := Unsigned(s).1;
    if body != s {
      assert Lower(body) == Lower(s)[1..];
    }
    NotSpecialWord(Lower(body));
  }

  lemma NotSpecialWord(w: string)
    requires w in NoPriceLower || w in NoPriceTails
    ensures w != "inf" && w != "infinity" && w != "nan"
  {
  }

  /** The characters of a text that upper-cases to a "no price" word. */
  lemma NoPriceWordChars(s: string)
    requires Upper(s) in NoPriceWords
    ensures forall k :: 0 <= k < |s| ==> !IsDigit(s[k]) && s[k] !in Ignored && !IsSpace(s[k])
  {
    var w := Upper(s);
    forall k | 0 <= k < |s| ensures !IsDigit(s[k]) && s[k] !in Ignored && !IsSpace(s[k]) {
      assert UpperChar(s[k]) == w[k];
      assert w[k] in "NAOEUL/-";
    }
  }

  /**
   * The "no price" words would give 0 anyway: they hold no digit and no
   * ignored character, and `float()` rejects them.
   */
  lemma NoPriceWordGivesZeroAnyway(s: string)
    requires Upper(s) in NoPriceWords
    ensures FromCleaned(Without(s, Ignored)) == Amount(0.0)
  {
    NoPriceWordChars(s);
    WithoutNothingToRemove(s, Ignored);
    StripNoSpace(s);
    LowerOfUpper(s);
    LowerNoPriceWord(Upper(s));
    NotSpecialFloat(s);
    assert s != [] by { assert |Upper(s)| == |s|; }
    assert FirstNumber(s).None?;
  }

  /** The price of a text depends only on what is left after cleaning it. */
  lemma TextPriceIsCleanedPrice(s: string, show: Json -> string)
    ensures PriceOf(JString(s), show) == FromCleaned(Without(s, Ignored))
  {
    if s == [] {
      EmptyCleanedIsZero();
    } else {
      assert PriceOf(JString(s), show) == TextPrice(s);
      TextPriceIsCleaned(s);
    }
  }

  lemma EmptyCleanedIsZero()
    ensures FromCleaned(Without([], Ignored)) == Amount(0.0)
  {
    assert Without([], Ignored) == [];
    assert FirstNumber([]).None?;
  }

  lemma TextPriceIsCleaned(s: string)
    ensures TextPrice(s) == FromCleaned(Without(s, Ignored))
  {
    if Upper(s) in NoPriceWords {
      NoPriceWordGivesZeroAnyway(s);
    }
  }

  /**
   * Any text with a digit is priced by the leftmost, longest number left in
   * it after cleaning.
   */
  lemma TextPriceReadsFirstNumber(s: string, show: Json -> string)
    requires exists k :: 0 <= k < |s| && IsDigit(s[k])
    ensures var t := Without(s, Ignored);
      exists i, j, n :: NoDigitBefore(t, i) && CapturedAt(t, i, j, n) && PriceOf(JString(s), show) == Amount(Decimal(n))
  {
    var t := Without(s, Ignored);
    var k :| 0 <= k < |s| && IsDigit(s[k]);
    DigitKept(s, k);
    CleanedReadsFirstNumber(t);
    var i, j, n :| NoDigitBefore(t, i) && CapturedAt(t, i, j, n) && FromCleaned(t) == Amount(Decimal(n));
    TextPriceIsCleanedPrice(s, show);
    assert PriceOf(JString(s), show) == Amount(Decimal(n));
  }

  /** Cleaning keeps every digit, so a text with a digit still has one afterwards. */
  lemma {:induction false} DigitKept(s: string, k: nat)
    requires k < |s| && IsDigit(s[k])
    ensures exists m :: 0 <= m < |Without(s, Ignored)| && IsDigit(Without(s, Ignored)[m])
  {
    var h := if s[0] in Ignored then [] else [s[0]];
    assert Without(s, Ignored) == h + Without(s[1..], Ignored);
    if k == 0 {
      IgnoredMembers(s[0]);
      assert Without(s, Ignored)[0] == s[0];
    } else {
      DigitKept(s[1..], k - 1);
      var m :| 0 <= m < |Without(s[1..], Ignored)| && IsDigit(Without(s[1..], Ignored)[m]);
      assert Without(s, Ignored)[m + |h|] == Without(s[1..], Ignored)[m];
    }
  }

  /** A cleaned text with a digit is read as its leftmost, longest number. */
  lemma CleanedReadsFirstNumber(t: string)
    requires exists k :: 0 <= k < |t| && IsDigit(t[k])
    ensures exists i, j, n :: NoDigitBefore(t, i) && CapturedAt(t, i, j, n) && FromCleaned(t) == Amount(Decimal(n))
  {
    var n := FirstNumber(t).value;
    FirstNumberCaptures(t);
    var i, j :| NoDigitBefore(t, i) && CapturedAt(t, i, j, n);
    assert FromCleaned(t) == Amount(Decimal(n));
  }

  /** A text with nothing to clean is priced as it stands. */
  lemma CleanTextPrice(s: string, show: Json -> string)
    requires forall k :: 0 <= k < |s| ==> s[k] !in Ignored
    ensures PriceOf(JString(s), show) == FromCleaned(s)
  {
    WithoutNothingToRemove(s, Ignored);
    TextPriceIsCleanedPrice(s, show);
  }

  /** A clean text is priced by the leftmost, longest number in it. */
  lemma CleanCapturePrice(s: string, i: nat, j: nat, n: Number, show: Json -> string)
    requires forall k :: 0 <= k < |s| ==> s[k] !in Ignored
    requires NoDigitBefore(s, i) && CapturedAt(s, i, j, n)
    ensures PriceOf(JString(s), show) == Amount(Decimal(n))
  {
    CleanTextPrice(s, show);
    FirstNumberIsCapture(s, i, j, n);
  }

  /** Only the first number counts: "12or15" is 12. */
  lemma FirstOfTwoNumbers(show: Json -> string)
    ensures PriceOf(JString("12or15"), show) == Amount(12.0)
  {
    var s := "12or15";
    forall k | 0 <= k < |s| ensures s[k] !in Ignored {
      IgnoredMembers(s[k]);
    }
    FirstOfTwoCapture();
    CleanCapturePrice(s, 0, 2, Number("12", []), show);
    WholeValue("12", 12);
  }

  lemma FirstOfTwoCapture()
    ensures CapturedAt("12or15", 0, 2, Number("12", []))
  {
    var s := "12or15";
    assert s[2] == 'o';
    assert s[0..2] == "12";
  }

  /** A second dot ends the number: "1.5.3" is 1.5. */
  lemma SecondDotEndsNumber(show: Json -> string)
    ensures PriceOf(JString("1.5.3"), show) == Amount(1.5)
  {
    var s := "1.5.3";
    NumeralClean(s);
    SecondDotCapture();
    CleanCapturePrice(s, 0, 1, Number("1", "5"), show);
    OneAndAHalfValue();
  }

  lemma OneAndAHalfValue()
    ensures Decimal(Number("1", "5")) == 1.5
  {
    assert "1"[..0] == [] && "5"[..0] == [];
  }

  lemma SecondDotCapture()
    ensures CapturedAt("1.5.3", 0, 1, Number("1", "5"))
  {
    var s := "1.5.3";
    assert s[1] == '.' && IsDigit(s[2]) && s[3] == '.';
    assert s[0..1] == "1" && s[2..3] == "5";
  }

  /** A dot without digits after it is not read: "7." is 7. */
  lemma BareDotIgnored(show: Json -> string)
    ensures PriceOf(JString("7."), show) == Amount(7.0)
  {
    var s := "7.";
    NumeralClean(s);
    assert CapturedAt(s, 0, 1, Number("7", [])) by {
      assert s[0..1] == "7";
    }
    CleanCapturePrice(s, 0, 1, Number("7", []), show);
    WholeValue("7", 7);
  }

  /** A whole number written without a fraction has the value of its digits. */
  lemma WholeValue(w: string, v: nat)
    requires AllDigits(w) && NatToString(v) == w
    ensures Decimal(Number(w, [])) == v as real
  {
    NatToStringRoundTrip(v);
  }

  /** Digits and dots are never cleaned away. */
  lemma NumeralClean(t: string)
    requires forall k :: 0 <= k < |t| ==> IsDigit(t[k]) || t[k] == '.'
    ensures forall k :: 0 <= k < |t| ==> t[k] !in Ignored
  {
    forall k | 0 <= k < |t| ensures t[k] !in Ignored {
      IgnoredMembers(t[k]);
    }
  }

  /** So currency symbols, commas and spaces can be added or dropped anywhere. */
  lemma IgnoredCharactersDoNotMatter(s: string, t: string, show: Json -> string)
    requires Without(s, Ignored) == Without(t, Ignored)
    ensures PriceOf(JString(s), show) == PriceOf(JString(t), show)
  {
    TextPriceIsCleanedPrice(s, show);
    TextPriceIsCleanedPrice(t, show);
  }

  /** A plain decimal text `whole.fraction` is read as that decimal. */
  lemma DecimalCleaned(whole: string, fraction: string)
    requires whole != [] && AllDigits(whole) && fraction != [] && AllDigits(fraction)
    ensures FromCleaned(whole + "." + fraction) == Amount(Decimal(Number(whole, fraction)))
  {
    var t := whole + "." + fraction;
    var j := |whole|;
    assert forall k :: 0 <= k < |t| ==> (if k == j then t[k] == '.' else IsDigit(t[k]));
    assert FirstDigit(t, 0) == Some(0);
    SpanDigitsEnds(t, 0, j);
    SpanDigitsEnds(t, j + 1, |t|);
    assert t[0..j] == whole && t[j + 1..|t|] == fraction;
  }

  lemma DecimalKept(whole: string, fraction: string)
    requires AllDigits(whole) && AllDigits(fraction)
    ensures Without(whole + "." + fraction, Ignored) == whole + "." + fraction
  {
    DigitsAreKept(whole);
    DigitsAreKept(fraction);
    NumeralKept(".");
    KeepClean(whole, ".");
    KeepClean(whole + ".", fraction);
  }

  lemma DecimalTextPrice(whole: string, fraction: string, show: Json -> string)
    requires whole != [] && AllDigits(whole) && fraction != [] && AllDigits(fraction)
    ensures PriceOf(JString(whole + "." + fraction), show) == Amount(Decimal(Number(whole, fraction)))
  {
    DecimalKept(whole, fraction);
    TextPriceIsCleanedPrice(whole + "." + fraction, show);
    DecimalCleaned(whole, fraction);
  }

  /** A run of digits alone is read as its value. */
  lemma DigitsTextPrice(t: string)
    requires t != [] && AllDigits(t)
    ensures FromCleaned(t) == Amount(DigitsValue(t) as real)
  {
    assert FirstDigit(t, 0) == Some(0);
    SpanDigitsEnds(t, 0, |t|);
    assert t[0..|t|] == t;
    assert FirstNumber(t) == Some(Number(t, []));
  }

  /** Digits contain no character that cleaning removes. */
  lemma DigitsAreKept(t: string)
    requires AllDigits(t)
    ensures Without(t, Ignored) == t
  {
    assert forall k :: 0 <= k < |t| ==> t[k] !in Ignored by {
      forall k | 0 <= k < |t| ensures t[k] !in Ignored {
        assert IsDigit(t[k]);
      }
    }
    WithoutNothingToRemove(t, Ignored);
  }

  /** `str(n)` for a whole number is read back as `n`. */
  lemma WholeTextPrice(n: nat, show: Json -> string)
    ensures PriceOf(JString(NatToString(n)), show) == Amount(n as real)
  {
    var t := NatToString(n);
    DigitsAreKept(t);
    TextPriceIsCleanedPrice(t, show);
    DigitsTextPrice(t);
    NatToStringRoundTrip(n);
  }

  lemma IgnoredMembers(c: char)
    ensures c in Ignored <==> c == '\U{20B9}' || c == '$' || c == '\U{20AC}' || c == '\U{a3}' || c == '\U{a5}' || c == ',' || c == ' '
  {
    assert Ignored == ['\U{20B9}', '$', '\U{20AC}', '\U{a3}', '\U{a5}', ',', ' '];
  }

  lemma SymbolIgnored(c: char)
    requires c in Symbols
    ensures c in Ignored
  {
    IgnoredMembers(c);
    assert Symbols == ['\U{20B9}', '$', '\U{20AC}', '\U{a3}', '\U{a5}'];
  }

  lemma DropIgnored(a: char, rest: string)
    requires a in Ignored
    ensures Without([a] + rest, Ignored) == Without(rest, Ignored)
  {
    WithoutAppend([a], rest, Ignored);
    assert [a][1..] == [];
  }

  lemma KeepClean(b: string, rest: string)
    requires Without(b, Ignored) == b
    ensures Without(b + rest, Ignored) == b + Without(rest, Ignored)
  {
    WithoutAppend(b, rest, Ignored);
  }

  /** Digits and dots survive cleaning. */
  lemma NumeralKept(t: string)
    requires forall k :: 0 <= k < |t| ==> IsDigit(t[k]) || t[k] == '.'
    ensures Without(t, Ignored) == t
  {
    forall k | 0 <= k < |t| ensures t[k] !in Ignored {
      IgnoredMembers(t[k]);
    }
    WithoutNothingToRemove(t, Ignored);
  }

  lemma CleanSeparated(symbol: char, high: string, low: string, fraction: string)
    requires symbol in Symbols
    requires AllDigits(high) && AllDigits(low) && AllDigits(fraction)
    ensures Without([symbol] + (high + ([','] + (low + ("." + fraction)))), Ignored) == high + (low + ("." + fraction))
  {
    var dotted := "." + fraction;
    var tail := low + dotted;
    DigitsAreKept(fraction);
    NumeralKept(".");
    KeepClean(".", fraction);
    DigitsAreKept(low);
    KeepClean(low, dotted);
    DropIgnored(',', tail);
    DigitsAreKept(high);
    KeepClean(high, [','] + tail);
    SymbolIgnored(symbol);
    DropIgnored(symbol, high + ([','] + tail));
  }

  lemma Regroup(a: string, b: string, c: string, d: string)
    ensures a + (b + (c + d)) == (a + b) + c + d
  {
  }

  /**
   * A currency symbol and thousands separators are ignored: for instance
   * "$1,234.50" (symbol `$`, digits "1" and "234", fraction "50") is 1234.5.
   */
  lemma SymbolAndSeparatorIgnored(symbol: char, high: string, low: string, fraction: string, show: Json -> string)
    requires symbol in Symbols
    requires high != [] && AllDigits(high) && AllDigits(low) && fraction != [] && AllDigits(fraction)
    ensures PriceOf(JString([symbol] + high + [','] + low + "." + fraction), show)
         == Amount(Decimal(Number(high + low, fraction)))
  {
    var text := [symbol] + high + [','] + low + "." + fraction;
    Regroup6([symbol], high, [','], low, ".", fraction);
    CleanSeparated(symbol, high, low, fraction);
    Regroup(high, low, ".", fraction);
    TextPriceIsCleanedPrice(text, show);
    DigitsConcat(high, low);
    DecimalCleaned(high + low, fraction);
  }

  lemma Regroup6(a: string, b: string, c: string, d: string, e: string, f: string)
    ensures a + b + c + d + e + f == a + (b + (c + (d + (e + f))))
  {
  }

  lemma DigitsConcat(a: string, b: string)
    requires AllDigits(a) && AllDigits(b)
    ensures AllDigits(a + b)
  {
  }

  /** Falsy values give 0, and numbers give their own value. */
  lemma FalsyAndNumbers(show: Json -> string, i: int, r: real)
    ensures PriceOf(JNull, show) == Amount(0.0) && PriceOf(JString(""), show) == Amount(0.0)
    ensures PriceOf(JInt(i), show) == Amount(i as real) && PriceOf(JReal(r), show) == Amount(r)
  {
  }

  /** A text without digits gives 0 unless what is left of it spells an infinity or NaN. */
  lemma NoDigitsGiveZero(s: string, show: Json -> string)
    requires forall k :: 0 <= k < |s| ==> !IsDigit(s[k])
    requires SpecialFloat(Without(s, Ignored)).None?
    ensures PriceOf(JString(s), show) == Amount(0.0)
  {
    TextPriceIsCleanedPrice(s, show);
    var t := Without(s, Ignored);
    WithoutKeeps(s, Ignored);
    forall k | 0 <= k < |t| ensures !IsDigit(t[k]) {
      assert t[k] in t;
    }
  }
}
