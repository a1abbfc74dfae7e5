/**
 * The flight list of the trip page: flights are ordered by the price
 * `extract_price` reads from them, the first is tagged as the best value,
 * and each card shows a stops label, the fare class columns with the
 * current one highlighted, and baggage allowances that fall back to
 * defaults by class.
 *
 * A flight is the JSON object the backend returned for it. Rendering
 * (headers, expanders, HTML) is left out; a card records what it shows.
 */
module Flights {
  import opened Wrappers
  import opened Text
  import opened JsonValue
  import opened Prices

  type Flight = map<string, Json>

  /** `flight.get(key, default)`. */
  function Get(f: Flight, key: string, default: Json): (v: Json)
    ensures key in f ==> v == f[key]
    ensures key !in f ==> v == default
  {
    if key in f then f[key] else default
  }

  // ---------------------------------------------------------------------
  // Python's `<` on the floats `extract_price` returns
  // ---------------------------------------------------------------------

  /** Every comparison with a NaN is false; infinities bound the amounts. */
  predicate Less(a: Price, b: Price) {
    match (a, b)
    case (NotANumber, _) => false
    case (_, NotANumber) => false
    case (Amount(x), Amount(y)) => x < y
    case (Infinity(na), Infinity(nb)) => na && !nb
    case (Infinity(n), Amount(_)) => n
    case (Amount(_), Infinity(n)) => !n
  }

  /** `<` is irreflexive and asymmetric on every value, NaN included. */
  lemma LessStrict(a: Price, b: Price)
    ensures !Less(a, a)
    ensures Less(a, b) ==> !Less(b, a)
  {
  }

  /** Away from NaN, "not greater" is transitive and any two values compare. */
  lemma NotGreaterOrder(a: Price, b: Price, c: Price)
    requires a != NotANumber && b != NotANumber && c != NotANumber
    ensures !Less(b, a) && !Less(c, b) ==> !Less(c, a)
    ensures Less(a, b) || Less(b, a) || a == b
  {
  }

  // ---------------------------------------------------------------------
  // `sorted(xs, key=...)`: a stable sort, written as insertion
  // ---------------------------------------------------------------------

  /** Puts `x`, which came before every element of `s`, after the elements whose key is smaller than its own. */
  function Insert<T>(key: T -> Price, x: T, s: seq<T>): (r: seq<T>)
    ensures |r| == |s| + 1
  {
    if s == [] then [x]
    else if Less(key(s[0]), key(x)) then [s[0]] + Insert(key, x, s[1..])
    else [x] + s
  }

  function Sort<T>(key: T -> Price, s: seq<T>): (r: seq<T>)
    ensures |r| == |s|
  {
    if s == [] then [] else Insert(key, s[0], Sort(key, s[1..]))
  }

  /** The elements whose key is `v`, in their order. */
  function WithKey<T>(key: T -> Price, v: Price, s: seq<T>): seq<T> {
    if s == [] then []
    else if key(s[0]) == v then [s[0]] + WithKey(key, v, s[1..])
    else WithKey(key, v, s[1..])
  }

  predicate Ascending<T>(key: T -> Price, s: seq<T>) {
    forall p, q :: 0 <= p < q < |s| ==> !Less(key(s[q]), key(s[p]))
  }

  predicate NoNaN<T>(key: T -> Price, s: seq<T>) {
    forall k :: 0 <= k < |s| ==> key(s[k]) != NotANumber
  }

  lemma {:induction false} InsertPermutes<T>(key: T -> Price, x: T, s: seq<T>)
    ensures multiset(Insert(key, x, s)) == multiset(s) + multiset{x}
  {
    if s != [] && Less(key(s[0]), key(x)) {
      InsertPermutes(key, x, s[1..]);
      assert s == [s[0]] + s[1..];
    }
  }

  /** The sorted list holds the same flights, each as often as before. */
  lemma {:induction false} SortPermutes<T>(key: T -> Price, s: seq<T>)
    ensures multiset(Sort(key, s)) == multiset(s)
  {
    if s != [] {
      SortPermutes(key, s[1..]);
      InsertPermutes(key, s[0], Sort(key, s[1..]));
      assert s == [s[0]] + s[1..];
    }
  }

  lemma {:induction false} WithKeyAppend<T>(key: T -> Price, v: Price, a: seq<T>, b: seq<T>)
    ensures WithKey(key, v, a + b) == WithKey(key, v, a) + WithKey(key, v, b)
  {
    if a == [] {
      assert a + b == b;
    } else {
      WithKeyAppend(key, v, a[1..], b);
      assert (a + b)[0] == a[0] && (a + b)[1..] == a[1..] + b;
    }
  }

  lemma {:induction false} InsertKeepsTies<T>(key: T -> Price, v: Price, x: T, s: seq<T>)
    ensures WithKey(key, v, Insert(key, x, s)) == WithKey(key, v, [x] + s)
  {
    if s != [] && Less(key(s[0]), key(x)) {
      LessStrict(key(s[0]), key(x));
      InsertKeepsTies(key, v, x, s[1..]);
      WithKeyAppend(key, v, [s[0]], Insert(key, x, s[1..]));
      WithKeyAppend(key, v, [x], s[1..]);
      WithKeyAppend(key, v, [x], s);
      WithKeyAppend(key, v, [s[0]], s[1..]);
      assert s == [s[0]] + s[1..];
    }
  }

  /** Stability: the flights of any one price keep their original order. */
  lemma {:induction false} SortIsStable<T>(key: T -> Price, v: Price, s: seq<T>)
    ensures WithKey(key, v, Sort(key, s)) == WithKey(key, v, s)
  {
    if s != [] {
      SortIsStable(key, v, s[1..]);
      InsertKeepsTies(key, v, s[0], Sort(key, s[1..]));
      WithKeyAppend(key, v, [s[0]], Sort(key, s[1..]));
      WithKeyAppend(key, v, [s[0]], s[1..]);
      assert s == [s[0]] + s[1..];
    }
  }

  lemma {:induction false} InsertAscending<T>(key: T -> Price, x: T, s: seq<T>)
    requires Ascending(key, s) && NoNaN(key, s) && key(x) != NotANumber
    ensures Ascending(key, Insert(key, x, s))
  {
    if s == [] {
    } else if Less(key(s[0]), key(x)) {
      var r := Insert(key, x, s[1..]);
      InsertAscending(key, x, s[1..]);
      InsertPermutes(key, x, s[1..]);
      forall q | 0 <= q < |r| ensures !Less(key(r[q]), key(s[0])) {
        assert r[q] in multiset(r);
        if r[q] != x {
          assert r[q] in multiset(s[1..]);
          var j :| 0 <= j < |s[1..]| && s[1..][j] == r[q];
          assert s[j + 1] == r[q];
        } else {
          LessStrict(key(s[0]), key(x));
        }
      }
    } else {
      forall q | 0 <= q < |s| ensures !Less(key(s[q]), key(x)) {
        NotGreaterOrder(key(x), key(s[0]), key(s[q]));
      }
    }
  }

  /** Without NaN prices, the result is in ascending price order. */
  lemma {:induction false} SortAscending<T>(key: T -> Price, s: seq<T>)
    requires NoNaN(key, s)
    ensures Ascending(key, Sort(key, s))
  {
    if s != [] {
      SortAscending(key, s[1..]);
      SortPermutes(key, s[1..]);
      var r := Sort(key, s[1..]);
      forall k | 0 <= k < |r| ensures key(r[k]) != NotANumber {
        assert r[k] in multiset(s[1..]);
      }
      InsertAscending(key, s[0], r);
    }
  }

  // ---------------------------------------------------------------------
  // Ordering the flights (line 10)
  // ---------------------------------------------------------------------

  /** `extract_price(x.get("price", 0))`; only objects reach it. */
  function PriceKey(show: Json -> string): Json -> Price {
    (x: Json) => if x.JObject? then PriceOf(Get(x.fields, "price", JInt(0)), show) else NotANumber
  }

  predicate AllObjects(items: seq<Json>) {
    forall k :: 0 <= k < |items| ==> items[k].JObject?
  }

  /**
   * Lines 9-13: a list holding something other than an object makes the key
   * function raise, and the list is shown unsorted.
   */
  function SortFlights(show: Json -> string, items: seq<Json>): seq<Json> {
    if AllObjects(items) then Sort(PriceKey(show), items) else items
  }

  /** The flights shown are the flights given, by price, ties in their original order. */
  lemma SortFlightsMeaning(show: Json -> string, items: seq<Json>)
    ensures multiset(SortFlights(show, items)) == multiset(items)
    ensures forall v :: WithKey(PriceKey(show), v, SortFlights(show, items)) == WithKey(PriceKey(show), v, items)
    ensures AllObjects(items) && NoNaN(PriceKey(show), items) ==> Ascending(PriceKey(show), SortFlights(show, items))
    ensures !AllObjects(items) ==> SortFlights(show, items) == items
  {
    SortPermutes(PriceKey(show), items);
    forall v {
      SortIsStable(PriceKey(show), v, items);
    }
    if AllObjects(items) && NoNaN(PriceKey(show), items) {
      SortAscending(PriceKey(show), items);
    }
  }

  // ---------------------------------------------------------------------
  // Fare class and baggage (lines 86-117, 125, 141, 182)
  // ---------------------------------------------------------------------

  const DefaultClass: Json := JString("Economy")

  /** The lower-cased class, or None when the class is not a string and `.lower()` raises. */
  function ClassOf(f: Flight): Option<string> {
    match Get(f, "class", DefaultClass)
    case JString(s) => Some(Lower(s))
    case _ => None
  }

  /** The Economy column is current. */
  predicate IsEconomy(c: string) { Contains(c, "economy") || Contains(c, "standard") }

  /** The Premium Economy column is current. */
  predicate IsPremium(c: string) { Contains(c, "premium") }

  /** The Business column is current. */
  predicate IsBusiness(c: string) { Contains(c, "business") || Contains(c, "first") }

  datatype Allowance = Allowance(checkIn: string, hand: string)

  const EconomyAllowance := Allowance("20 kg", "7 kg")
  const PremiumAllowance := Allowance("25 kg", "10 kg")
  const BusinessAllowance := Allowance("32 kg", "14 kg")

  /** The default baggage for a lower-cased class, the first matching tier winning. */
  function DefaultAllowance(c: string): Allowance {
    if IsEconomy(c) then EconomyAllowance
    else if IsPremium(c) then PremiumAllowance
    else if IsBusiness(c) then BusinessAllowance
    else EconomyAllowance
  }

  /** A provided allowance, unless it is missing, empty, false-like or "N/A". */
  function Baggage(f: Flight, key: string, default: string): Json {
    var v := Get(f, key, JString(default));
    if v == JString("N/A") || !Truthy(v) then JString(default) else v
  }

  /**
   * The defaults agree with the highlighted columns: Economy's allowance
   * when the Economy column is current or none is, Premium's when Premium is
   * current and Economy is not, Business's only when Business alone is current.
   */
  lemma AllowanceFollowsColumns(c: string)
    ensures DefaultAllowance(c) == EconomyAllowance <==> IsEconomy(c) || (!IsPremium(c) && !IsBusiness(c))
    ensures DefaultAllowance(c) == PremiumAllowance <==> IsPremium(c) && !IsEconomy(c)
    ensures DefaultAllowance(c) == BusinessAllowance <==> IsBusiness(c) && !IsEconomy(c) && !IsPremium(c)
  {
  }

  /** "Premium Economy" gets Economy's baggage and highlights both the Economy and the Premium column. */
  lemma PremiumEconomyIsBoth(c: string)
    requires Contains(c, "premium") && Contains(c, "economy")
    ensures DefaultAllowance(c) == EconomyAllowance
    ensures IsEconomy(c) && IsPremium(c)
  {
  }

  /** A text lacking one of a pattern's characters does not contain the pattern. */
  lemma LacksCharacter(s: string, pat: string, j: nat)
    requires j < |pat| && pat[j] !in s
    ensures !Contains(s, pat)
  {
  }

  /** A flight without a class is treated as Economy. */
  lemma MissingClassIsEconomy(f: Flight)
    requires "class" !in f
    ensures ClassOf(f) == Some("economy")
    ensures IsEconomy("economy") && !IsPremium("economy") && !IsBusiness("economy")
    ensures DefaultAllowance("economy") == EconomyAllowance
  {
    assert Lower("Economy") == "economy";
    assert Find("economy", "economy", 0) == Some(0);
    LacksCharacter("economy", "premium", 0);
    LacksCharacter("economy", "business", 0);
    LacksCharacter("economy", "first", 0);
  }

  /** The allowance shown is never missing or "N/A"; a usable provided value is shown as given. */
  lemma BaggageShown(f: Flight, key: string, c: string)
    ensures var a := DefaultAllowance(c);
      var shown := Baggage(f, key, if key == "hand_baggage" then a.hand else a.checkIn);
      && Truthy(shown) && shown != JString("N/A")
      && (key in f && Truthy(f[key]) && f[key] != JString("N/A") ==> shown == f[key])
      && (key !in f || !Truthy(f[key]) || f[key] == JString("N/A") ==> shown == JString(if key == "hand_baggage" then a.hand else a.checkIn))
  {
  }

  // ---------------------------------------------------------------------
  // Stops (lines 39-75)
  // ---------------------------------------------------------------------

  datatype Stops = Direct | StopCount(count: Json) | Layover(text: Json)

  /** Python's `len(v)`, or None when `v` has no length. */
  function Len(v: Json): (n: Option<nat>)
    ensures n.Some? && Truthy(v) ==> n.value > 0
  {
    match v
    case JString(s) => Some(|s|)
    case JArray(items) => Some(|items|)
    case JObject(fields) => Some(|fields|)
    case _ => None
  }

  /** `stops == 0` in Python: an integer or float zero, or False. */
  predicate EqualsZero(v: Json) {
    v == JInt(0) || v == JReal(0.0) || v == JBool(false)
  }

  predicate HasTruthy(f: Flight, key: string) {
    key in f && Truthy(f[key])
  }

  /** The stops label, or None when rendering it raises. */
  function StopsLabel(f: Flight): Option<Stops> {
    if HasTruthy(f, "layover_details") then
      match Len(f["layover_details"])
      case None => None
      case Some(n) => if n == 0 then Some(Direct) else Some(StopCount(JInt(n)))
    else if "stops" in f then
      if EqualsZero(f["stops"]) then Some(Direct) else Some(StopCount(f["stops"]))
    else if HasTruthy(f, "layover") then
      match f["layover"]
      case JString(s) => if Lower(s) == "direct flight" || s == "" then Some(Direct) else Some(Layover(JString(s)))
      case _ => None
    else if HasTruthy(f, "layovers") then Some(Layover(f["layovers"]))
    else Some(Direct)
  }

  /** Listed layover details always give a count of one stop or more. */
  lemma DetailsGiveCount(f: Flight)
    requires HasTruthy(f, "layover_details") && Len(f["layover_details"]).Some?
    ensures StopsLabel(f) == Some(StopCount(JInt(Len(f["layover_details"]).value)))
    ensures Len(f["layover_details"]).value >= 1
  {
  }

  /** When each source of the label says "direct", and that these are the only ways. */
  lemma DirectMeaning(f: Flight)
    ensures StopsLabel(f) == Some(Direct) <==>
      && !HasTruthy(f, "layover_details")
      && (|| ("stops" in f && EqualsZero(f["stops"]))
          || ("stops" !in f && HasTruthy(f, "layover") && f["layover"].JString? && Lower(f["layover"].s) == "direct flight")
          || ("stops" !in f && !HasTruthy(f, "layover") && !HasTruthy(f, "layovers")))
  {
  }

  /** Rendering the label raises only for details without a length or a layover that is not a string. */
  lemma StopsLabelFails(f: Flight)
    ensures StopsLabel(f).None? <==>
      || (HasTruthy(f, "layover_details") && Len(f["layover_details"]).None?)
      || (!HasTruthy(f, "layover_details") && "stops" !in f && HasTruthy(f, "layover") && !f["layover"].JString?)
  {
  }

  // ---------------------------------------------------------------------
  // Cards (lines 15-117)
  // ---------------------------------------------------------------------

  datatype Card = Card(
    flight: Flight,
    bestValue: bool,
    stops: Stops,
    price: Json,
    checkIn: Json,
    hand: Json,
    economyCurrent: bool,
    premiumCurrent: bool,
    businessCurrent: bool)

  /** The card for the flight at position `i`, or None when rendering it raises. */
  function CardFor(item: Json, i: nat): Option<Card> {
    match item
    case JObject(f) =>
      (match StopsLabel(f)
       case None => None
       case Some(stops) =>
         match ClassOf(f)
         case None => None
         case Some(c) =>
           var a := DefaultAllowance(c);
           Some(Card(f, i == 0, stops, Get(f, "price", JString("N/A")),
             Baggage(f, "check_in_baggage", a.checkIn), Baggage(f, "hand_baggage", a.hand),
             IsEconomy(c), IsPremium(c), IsBusiness(c))))
    case _ => None
  }

  /** One card, with the provided allowances overwritten by the defaults where unusable. */
  method MakeCard(item: Json, i: nat) returns (card: Option<Card>)
    ensures card == CardFor(item, i)
  {
    if !item.JObject? {
      return None;
    }
    var f := item.fields;
    var stops := StopsLabel(f);
    if stops.None? {
      return None;
    }
    var cls := ClassOf(f);
    if cls.None? {
      return None;
    }
    var c := cls.value;
    var a := DefaultAllowance(c);
    var checkIn := Get(f, "check_in_baggage", JString(a.checkIn));
    var hand := Get(f, "hand_baggage", JString(a.hand));
    if checkIn == JString("N/A") || !Truthy(checkIn) {
      checkIn := JString(a.checkIn);
    }
    if hand == JString("N/A") || !Truthy(hand) {
      hand := JString(a.hand);
    }
    card := Some(Card(f, i == 0, stops.value, Get(f, "price", JString("N/A")), checkIn, hand,
      IsEconomy(c), IsPremium(c), IsBusiness(c)));
  }

  datatype Display =
    | NoFlights
      /** The cards shown; `failed` when rendering the next one raised. */
    | Shown(cards: seq<Card>, failed: bool)

  /**
   * The cards shown after `shown`, the cards of the flights before `i`:
   * the loop goes on until a card raises or the flights run out.
   */
  function ShowFrom(make: (Json, nat) -> Option<Card>, items: seq<Json>, i: nat, shown: seq<Card>): (seq<Card>, bool)
    requires i <= |items|
    decreases |items| - i
  {
    if i == |items| then (shown, false)
    else
      match make(items[i], i)
      case None => (shown, true)
      case Some(c) => ShowFrom(make, items, i + 1, shown + [c])
  }

  /** `display_flights(flights)`. */
  function Render(show: Json -> string, flights: Option<seq<Json>>): Display {
    if flights.None? || flights.value == [] then NoFlights
    else
      var r := ShowFrom(CardFor, SortFlights(show, flights.value), 0, []);
      Shown(r.0, r.1)
  }

  /** Lines 1-117: the warning, the sort and the loop over the sorted flights. */
  method DisplayFlights(show: Json -> string, flights: Option<seq<Json>>) returns (d: Display)
    ensures d == Render(show, flights)
  {
    if flights.None? || |flights.value| == 0 {
      return NoFlights;
    }
    var sorted := SortFlights(show, flights.value);
    var cards: seq<Card> := [];
    var i := 0;
    while i < |sorted|
      invariant 0 <= i <= |sorted|
      invariant ShowFrom(CardFor, sorted, 0, []) == ShowFrom(CardFor, sorted, i, cards)
    {
      var card := MakeCard(sorted[i], i);
      if card.None? {
        return Shown(cards, true);
      }
      cards := cards + [card.value];
      i := i + 1;
    }
    return Shown(cards, false);
  }

  /** What a card records about the flight and position it was made from. */
  lemma CardForFacts(item: Json, i: nat)
    requires CardFor(item, i).Some?
    ensures item == JObject(CardFor(item, i).value.flight)
    ensures CardFor(item, i).value.bestValue <==> i == 0
  {
  }

  /**
   * The cards are those of the flights in order, after the ones already
   * shown, up to the first flight whose card raises.
   */
  lemma {:induction false} ShowFromFacts(make: (Json, nat) -> Option<Card>, items: seq<Json>, i: nat, shown: seq<Card>)
    requires i <= |items| && |shown| == i
    ensures var (cards, failed) := ShowFrom(make, items, i, shown);
      && i <= |cards| <= |items|
      && cards[..i] == shown
      && (forall k :: i <= k < |cards| ==> make(items[k], k) == Some(cards[k]))
      && (failed <==> |cards| < |items|)
      && (failed ==> make(items[|cards|], |cards|).None?)
    decreases |items| - i
  {
    if i < |items| && make(items[i], i).Some? {
      var c := make(items[i], i).value;
      ShowFromFacts(make, items, i + 1, shown + [c]);
      var cards := ShowFrom(make, items, i + 1, shown + [c]).0;
      assert cards[..i + 1][..i] == cards[..i];
    }
  }

  /** The warning is shown exactly when there are no flights. */
  lemma WarnsOnlyWhenEmpty(show: Json -> string, flights: Option<seq<Json>>)
    ensures Render(show, flights) == NoFlights <==> flights.None? || flights.value == []
  {
  }

  /**
   * With flights, the cards follow the sorted list: all of them unless one
   * raises, and the first one alone is tagged as the best value.
   */
  lemma CardsFollowSortedFlights(show: Json -> string, items: seq<Json>)
    requires items != []
    ensures var d := Render(show, Some(items)); var sorted := SortFlights(show, items);
      && d.Shown?
      && |d.cards| <= |items|
      && (forall k :: 0 <= k < |d.cards| ==> JObject(d.cards[k].flight) == sorted[k])
      && (forall k :: 0 <= k < |d.cards| ==> (d.cards[k].bestValue <==> k == 0))
      && (!d.failed <==> |d.cards| == |items|)
  {
    var sorted := SortFlights(show, items);
    ShowFromFacts(CardFor, sorted, 0, []);
    var cards := ShowFrom(CardFor, sorted, 0, []).0;
    forall k | 0 <= k < |cards|
      ensures JObject(cards[k].flight) == sorted[k] && (cards[k].bestValue <==> k == 0)
    {
      CardForFacts(sorted[k], k);
    }
  }

  /** Without NaN prices, the best-value card is a cheapest flight. */
  lemma BestValueIsCheapest(show: Json -> string, items: seq<Json>)
    requires items != [] && AllObjects(items) && NoNaN(PriceKey(show), items)
    requires Render(show, Some(items)).cards != []
    ensures var best := JObject(Render(show, Some(items)).cards[0].flight);
      forall k :: 0 <= k < |items| ==> !Less(PriceKey(show)(items[k]), PriceKey(show)(best))
  {
    var key := PriceKey(show);
    CardsFollowSortedFlights(show, items);
    SortFlightsMeaning(show, items);
    var sorted := SortFlights(show, items);
    forall k | 0 <= k < |items| ensures !Less(key(items[k]), key(sorted[0])) {
      assert items[k] in multiset(sorted);
      var j :| 0 <= j < |sorted| && sorted[j] == items[k];
      if j > 0 {
        assert !Less(key(sorted[j]), key(sorted[0]));
      } else {
        LessStrict(key(items[k]), key(items[k]));
      }
    }
  }
}
