/**
 * `calculate_duration_estimate`: the time between a departure and an
 * arrival given as free text. A time-of-day token is picked out of each
 * text, parsed with the first of four formats that accepts it, and the
 * difference (taken across midnight when the arrival is earlier) is shown
 * as hours and minutes.
 *
 * `datetime.strptime` is a parameter: it maps a text and a format to the
 * second of the day it denotes, or to None when the format rejects the text.
 */
module Duration {
  import opened Wrappers
  import opened Text

  const SecondsPerDay: int := 86400

  /** A time of day, in seconds after midnight. */
  type Second = x: int | 0 <= x < 86400

  /** The formats tried, in this order: `%H:%M`, `%I:%M %p`, `%H:%M:%S`, `%I:%M:%S %p`. */
  datatype Format = HourMinute | Hour12Minute | HourMinuteSecond | Hour12MinuteSecond

  const Formats: seq<Format> := [HourMinute, Hour12Minute, HourMinuteSecond, Hour12MinuteSecond]

  /** `datetime.strptime(text, format)`, reduced to the time of day it gives. */
  type Strptime = (string, Format) -> Option<Second>

  const NotAvailable: string := "Duration information not available"

  // ---------------------------------------------------------------------
  // The regex `(\d{1,2}:\d{2}(?::\d{2})?(?: ?[AP]M)?)`
  // ---------------------------------------------------------------------

  predicate IsMeridiemLetter(c: char) { c == 'A' || c == 'P' }

  /** Past an optional `:SS` at `p`. */
  function SecondsEnd(s: string, p: nat): (q: nat)
    requires p <= |s|
    ensures p <= q <= |s|
  {
    if p + 2 < |s| && s[p] == ':' && IsDigit(s[p + 1]) && IsDigit(s[p + 2]) then p + 3 else p
  }

  /** Past an optional ` AM`, ` PM`, `AM` or `PM` at `q`, preferring the form with the space. */
  function MeridiemEnd(s: string, q: nat): (r: nat)
    requires q <= |s|
    ensures q <= r <= |s|
  {
    if q + 2 < |s| && s[q] == ' ' && IsMeridiemLetter(s[q + 1]) && s[q + 2] == 'M' then q + 3
    else if q + 1 < |s| && IsMeridiemLetter(s[q]) && s[q + 1] == 'M' then q + 2
    else q
  }

  /**
   * The end of the match starting at `i`, if there is one. One or two hour
   * digits: two when the second character is a digit (a single digit would
   * then not be followed by the colon), then `:MM`.
   */
  function MatchAt(s: string, i: nat): (r: Option<nat>)
    requires i <= |s|
    ensures r.Some? ==> i + 4 <= r.value <= |s|
  {
    if !(i < |s| && IsDigit(s[i])) then None
    else
      var c := if i + 1 < |s| && IsDigit(s[i + 1]) then i + 2 else i + 1;
      if c + 2 < |s| && s[c] == ':' && IsDigit(s[c + 1]) && IsDigit(s[c + 2]) then
        Some(MeridiemEnd(s, SecondsEnd(s, c + 3)))
      else None
  }

  /** `t[..n]` is `\d{1,2}:\d{2}`, with one hour digit when `n` is 4 and two when it is 5. */
  predicate HourMinuteTo(t: string, n: nat) {
    || (n == 4 && |t| >= 4 && IsDigit(t[0]) && t[1] == ':' && IsDigit(t[2]) && IsDigit(t[3]))
    || (n == 5 && |t| >= 5 && IsDigit(t[0]) && IsDigit(t[1]) && t[2] == ':' && IsDigit(t[3]) && IsDigit(t[4]))
  }

  /** `t[p..]` is `(?: ?[AP]M)?`. */
  predicate MeridiemFrom(t: string, p: nat) {
    || p == |t|
    || (|t| == p + 2 && IsMeridiemLetter(t[p]) && t[p + 1] == 'M')
    || (|t| == p + 3 && t[p] == ' ' && IsMeridiemLetter(t[p + 1]) && t[p + 2] == 'M')
  }

  /** `t[p..]` is `(?::\d{2})?(?: ?[AP]M)?`. */
  predicate TailFrom(t: string, p: nat) {
    || MeridiemFrom(t, p)
    || (p + 3 <= |t| && t[p] == ':' && IsDigit(t[p + 1]) && IsDigit(t[p + 2]) && MeridiemFrom(t, p + 3))
  }

  /** `t` is, as a whole, a text the time pattern matches. */
  predicate IsTimeToken(t: string) {
    || (HourMinuteTo(t, 4) && TailFrom(t, 4))
    || (HourMinuteTo(t, 5) && TailFrom(t, 5))
  }

  /**
   * The pattern matches at `i` exactly when some text starting there is a
   * time token, and the match is the longest such text: for this pattern
   * each optional part is taken greedily and its alternatives start with
   * different characters, so greedy and longest agree.
   */
  lemma MatchAtIsLongestToken(s: string, i: nat)
    requires i <= |s|
    ensures MatchAt(s, i).Some? <==> exists e :: i <= e <= |s| && IsTimeToken(s[i..e])
    ensures MatchAt(s, i).Some? ==>
      && IsTimeToken(s[i..MatchAt(s, i).value])
      && forall e :: MatchAt(s, i).value < e <= |s| ==> !IsTimeToken(s[i..e])
  {
    if MatchAt(s, i).Some? {
      MatchIsToken(s, i);
      forall e | i <= e <= |s| && IsTimeToken(s[i..e]) ensures e <= MatchAt(s, i).value {
        TokenWithinMatch(s, i, e);
      }
    } else {
      forall e | i <= e <= |s| ensures !IsTimeToken(s[i..e]) {
        if IsTimeToken(s[i..e]) {
          TokenWithinMatch(s, i, e);
        }
      }
    }
  }

  lemma MatchIsToken(s: string, i: nat)
    requires i <= |s| && MatchAt(s, i).Some?
    ensures IsTimeToken(s[i..MatchAt(s, i).value])
  {
    var c := if i + 1 < |s| && IsDigit(s[i + 1]) then i + 2 else i + 1;
    var q := SecondsEnd(s, c + 3);
    var r := MeridiemEnd(s, q);
    var t := s[i..r];
    assert HourMinuteTo(t, c + 3 - i);
    assert MeridiemFrom(t, q - i);
  }

  lemma TokenWithinMatch(s: string, i: nat, e: nat)
    requires i <= e <= |s| && IsTimeToken(s[i..e])
    ensures MatchAt(s, i).Some? && e <= MatchAt(s, i).value
  {
    var t := s[i..e];
    var n := if HourMinuteTo(t, 4) && TailFrom(t, 4) then 4 else 5;
    var c := i + n - 3;
    assert c == if i + 1 < |s| && IsDigit(s[i + 1]) then i + 2 else i + 1;
    assert s[c] == t[n - 3] && s[c + 1] == t[n - 2] && s[c + 2] == t[n - 1];
    assert MatchAt(s, i) == Some(MeridiemEnd(s, SecondsEnd(s, c + 3)));
    if MeridiemFrom(t, n) {
      if e > c + 3 {
        assert s[c + 3] == t[n] && s[c + 3] != ':';
        assert SecondsEnd(s, c + 3) == c + 3;
        MeridiemWithin(s, i, e, c + 3);
      }
    } else {
      assert s[c + 3] == ':' && IsDigit(s[c + 4]) && IsDigit(s[c + 5]);
      assert SecondsEnd(s, c + 3) == c + 6;
      MeridiemWithin(s, i, e, c + 6);
    }
  }

  /** A meridiem part of a token, from `q` to its end `e`, is all that MeridiemEnd takes from `q`. */
  lemma MeridiemWithin(s: string, i: nat, e: nat, q: nat)
    requires i <= q <= e <= |s| && MeridiemFrom(s[i..e], q - i)
    ensures e <= MeridiemEnd(s, q)
  {
    var t := s[i..e];
    if e > q {
      assert s[q] == t[q - i] && s[q + 1] == t[q - i + 1];
    }
    if e == q + 3 {
      assert s[q + 2] == t[q - i + 2];
    }
  }

  /** `re.search`: the leftmost start at or after `i` where the pattern matches, and the match's end. */
  function FirstMatch(s: string, i: nat): (r: Option<(nat, nat)>)
    requires i <= |s|
    ensures r.Some? ==> i <= r.value.0 <= |s| && MatchAt(s, r.value.0) == Some(r.value.1)
    ensures r.Some? ==> forall k :: i <= k < r.value.0 ==> MatchAt(s, k).None?
    ensures r.None? ==> forall k :: i <= k <= |s| ==> MatchAt(s, k).None?
    decreases |s| - i
  {
    match MatchAt(s, i)
    case Some(e) => Some((i, e))
    case None => if i == |s| then None else FirstMatch(s, i + 1)
  }

  /** Lines 105-109: the matched token, or the whole text when nothing matches. */
  function TimeText(s: string): (t: string)
    ensures |t| <= |s|
  {
    match FirstMatch(s, 0)
    case Some((a, b)) => s[a..b]
    case None => s
  }

  /** Where the pattern matches, it starts with a digit, and a colon and two digits follow one or two places on. */
  lemma MatchAtShape(s: string, i: nat, c: nat)
    requires i <= |s| && MatchAt(s, i).Some?
    requires c == if i + 1 < |s| && IsDigit(s[i + 1]) then i + 2 else i + 1
    ensures c + 3 <= MatchAt(s, i).value && IsDigit(s[i])
    ensures s[c] == ':' && IsDigit(s[c + 1]) && IsDigit(s[c + 2])
  {
  }

  /** A matched token starts with a digit and holds a colon followed by two digits. */
  lemma MatchedTokenShape(s: string)
    requires FirstMatch(s, 0).Some?
    ensures var t := TimeText(s);
      && |t| >= 4 && IsDigit(t[0])
      && exists c :: 1 <= c <= 2 && t[c] == ':' && IsDigit(t[c + 1]) && IsDigit(t[c + 2])
  {
    var (a, b) := FirstMatch(s, 0).value;
    var t := s[a..b];
    var c := if a + 1 < |s| && IsDigit(s[a + 1]) then a + 2 else a + 1;
    MatchAtShape(s, a, c);
    assert t[0] == s[a];
    assert t[c - a] == s[c] && t[c - a + 1] == s[c + 1] && t[c - a + 2] == s[c + 2];
  }

  // ---------------------------------------------------------------------
  // Parsing with the first format that accepts the token
  // ---------------------------------------------------------------------

  /** The time given by the first format in `fs` that accepts `text`. */
  function FirstFormat(strptime: Strptime, text: string, fs: seq<Format>): Option<Second> {
    if fs == [] then None
    else if strptime(text, fs[0]).Some? then strptime(text, fs[0])
    else FirstFormat(strptime, text, fs[1..])
  }

  /** The result comes from the first accepting format; None only when every format rejects. */
  lemma {:induction false} FirstFormatIsFirst(strptime: Strptime, text: string, fs: seq<Format>)
    ensures FirstFormat(strptime, text, fs).None? <==> forall k :: 0 <= k < |fs| ==> strptime(text, fs[k]).None?
    ensures FirstFormat(strptime, text, fs).Some? ==> exists k ::
      && 0 <= k < |fs| && strptime(text, fs[k]) == FirstFormat(strptime, text, fs)
      && forall j :: 0 <= j < k ==> strptime(text, fs[j]).None?
  {
    if fs != [] && strptime(text, fs[0]).None? {
      var rest := fs[1..];
      FirstFormatIsFirst(strptime, text, rest);
      assert FirstFormat(strptime, text, fs) == FirstFormat(strptime, text, rest);
      assert forall k :: 0 < k < |fs| ==> fs[k] == rest[k - 1];
      if FirstFormat(strptime, text, rest).Some? {
        var k :| 0 <= k < |rest| && strptime(text, rest[k]) == FirstFormat(strptime, text, rest)
          && forall j :: 0 <= j < k ==> strptime(text, rest[j]).None?;
        assert strptime(text, fs[k + 1]) == FirstFormat(strptime, text, fs);
      }
    }
  }

  /** Lines 115-127: the loop over the formats, stopping at the first that parses. */
  method ParseTime(strptime: Strptime, text: string) returns (t: Option<Second>)
    ensures t == FirstFormat(strptime, text, Formats)
  {
    t := None;
    var i := 0;
    while i < |Formats|
      invariant 0 <= i <= |Formats|
      invariant t.None?
      invariant FirstFormat(strptime, text, Formats) == FirstFormat(strptime, text, Formats[i..])
    {
      t := strptime(text, Formats[i]);
      if t.Some? {
        return;
      }
      assert Formats[i..][1..] == Formats[i + 1..];
      i := i + 1;
    }
  }

  // ---------------------------------------------------------------------
  // The difference and its text
  // ---------------------------------------------------------------------

  /** Lines 129-135: arrival minus departure, moving an earlier arrival to the next day. */
  function Elapsed(departure: Second, arrival: Second): (d: nat)
    ensures d < SecondsPerDay
    ensures d == (arrival - departure) % SecondsPerDay
  {
    if arrival < departure then arrival + SecondsPerDay - departure else arrival - departure
  }

  /** Lines 136-144: whole hours and the whole minutes left over. */
  function ShowDuration(seconds: nat): string {
    var hours := seconds / 3600;
    var minutes := seconds % 3600 / 60;
    if hours > 0 && minutes > 0 then NatToString(hours) + "h " + NatToString(minutes) + "m"
    else if hours > 0 then NatToString(hours) + "h"
    else NatToString(minutes) + "m"
  }

  /** `calculate_duration_estimate(departure, arrival)`. */
  function DurationEstimate(strptime: Strptime, departure: string, arrival: string): string {
    var dep := FirstFormat(strptime, TimeText(departure), Formats);
    var arr := FirstFormat(strptime, TimeText(arrival), Formats);
    if dep.Some? && arr.Some? then ShowDuration(Elapsed(dep.value, arr.value)) else NotAvailable
  }

  /** Lines 99-149. */
  method CalculateDurationEstimate(strptime: Strptime, departure: string, arrival: string) returns (r: string)
    ensures r == DurationEstimate(strptime, departure, arrival)
  {
    var dep := ParseTime(strptime, TimeText(departure));
    var arr := ParseTime(strptime, TimeText(arrival));
    if dep.Some? && arr.Some? {
      r := ShowDuration(Elapsed(dep.value, arr.value));
    } else {
      r := NotAvailable;
    }
  }

  // ---------------------------------------------------------------------
  // Reading the text back
  // ---------------------------------------------------------------------

  /** The number of minutes a duration text denotes: `Hh Mm`, `Hh` or `Mm`. */
  function ReadDuration(t: string): Option<nat> {
    var j := SpanDigits(t, 0);
    if j == 0 then None
    else
      var n := DigitsValue(t[..j]);
      var rest := t[j..];
      if rest == "m" then Some(n)
      else if rest == "h" then Some(60 * n)
      else if |rest| >= 2 && rest[..2] == "h " then
        var tail := rest[2..];
        var k := SpanDigits(tail, 0);
        if k > 0 && tail[k..] == "m" then Some(60 * n + DigitsValue(tail[..k])) else None
      else None
  }

  /** The digits of `str(n)` end where the text after them starts, when that starts with a non-digit. */
  lemma NumberThen(n: nat, rest: string)
    requires rest != [] && !IsDigit(rest[0])
    ensures var t := NatToString(n) + rest;
      && SpanDigits(t, 0) == |NatToString(n)|
      && t[..|NatToString(n)|] == NatToString(n)
      && t[|NatToString(n)|..] == rest
  {
    var t := NatToString(n) + rest;
    SpanDigitsEnds(t, 0, |NatToString(n)|);
  }

  /** Reading the shown duration gives back the whole minutes of the difference. */
  lemma ShowThenRead(seconds: nat)
    ensures ReadDuration(ShowDuration(seconds)) == Some(seconds / 60)
  {
    var hours := seconds / 3600;
    var minutes := seconds % 3600 / 60;
    NatToStringRoundTrip(hours);
    NatToStringRoundTrip(minutes);
    if hours > 0 && minutes > 0 {
      var mtext := NatToString(minutes) + "m";
      var rest := "h " + mtext;
      assert NatToString(hours) + "h " + NatToString(minutes) + "m" == NatToString(hours) + rest;
      NumberThen(hours, rest);
      assert rest[..2] == "h " && rest[2..] == mtext;
      NumberThen(minutes, "m");
    } else if hours > 0 {
      NumberThen(hours, "h");
    } else {
      NumberThen(minutes, "m");
    }
  }

  /** Which of the three forms is shown. */
  lemma ShowDurationForm(seconds: nat)
    requires seconds < SecondsPerDay
    ensures var t := ShowDuration(seconds); var h := seconds / 3600; var m := seconds % 3600 / 60;
      && h < 24 && m < 60
      && (h > 0 && m > 0 ==> t == NatToString(h) + "h " + NatToString(m) + "m")
      && (h > 0 && m == 0 ==> t == NatToString(h) + "h")
      && (h == 0 ==> t == NatToString(m) + "m")
  {
  }

  /** Equal times give "0m"; an arrival one minute before the departure gives "23h 59m". */
  lemma DurationExamples(t: Second)
    ensures ShowDuration(Elapsed(t, t)) == "0m"
    ensures t >= 60 ==> ShowDuration(Elapsed(t, t - 60)) == "23h 59m"
  {
    assert NatToString(0) == "0";
    if t >= 60 {
      assert Elapsed(t, t - 60) == 86340;
      assert NatToString(23) == "23" && NatToString(59) == "59";
    }
  }

  /** Without a time in both texts, the answer is the fixed message. */
  lemma UnparsedIsNotAvailable(strptime: Strptime, departure: string, arrival: string)
    requires || (forall k :: 0 <= k < |Formats| ==> strptime(TimeText(departure), Formats[k]).None?)
             || (forall k :: 0 <= k < |Formats| ==> strptime(TimeText(arrival), Formats[k]).None?)
    ensures DurationEstimate(strptime, departure, arrival) == NotAvailable
  {
    FirstFormatIsFirst(strptime, TimeText(departure), Formats);
    FirstFormatIsFirst(strptime, TimeText(arrival), Formats);
  }
}
